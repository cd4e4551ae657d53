/**
 src/auth/middleware.ts, validateTokenViaAuthService: personal access tokens
 are validated by the auth service, with a cache of positive and negative
 answers, sharing of the validation in flight, a stale fallback when the
 service rate-limits, and an eviction in two phases.
 */
module PatCache {
  import opened Option
  import opened OrderedMap

  const MAX_SIZE := 10_000
  const KEEP := 7_500  // Math.floor(MAX_SIZE * 0.75)
  const NEGATIVE_TTL := 5_000

  datatype Identity = Identity(userId: string, tokenId: string)

  /** A cached answer; `None` is the answer "not a valid token". */
  datatype Entry = Entry(value: Option<Identity>, expiresAt: int)

  type Cache = OrderedMap<string, Entry>

  // ---- Eviction ----

  predicate Fresh(c: Cache, token: string, now: int) {
    token in c.at && c.at[token].expiresAt > now
  }

  /** The keys of `order` whose entry has not expired, in order. */
  function Live(c: Cache, order: seq<string>, now: int): seq<string> {
    if order == [] then []
    else
      var n := |order| - 1;
      Live(c, order[..n], now) + if Fresh(c, order[n], now) then [order[n]] else []
  }

  lemma {:induction false} LiveIsFilter(c: Cache, order: seq<string>, now: int)
    ensures |Live(c, order, now)| <= |order|
    ensures forall k :: k in Live(c, order, now) <==> k in order && Fresh(c, k, now)
    ensures NoDuplicates(order) ==> NoDuplicates(Live(c, order, now))
  {
    if order == [] {
    } else {
      var n := |order| - 1;
      assert order == order[..n] + [order[n]];
      LiveIsFilter(c, order[..n], now);
      if NoDuplicates(order) {
        assert order[n] !in order[..n];
      }
    }
  }

  /** The keys that survive an eviction, in order. */
  function Survivors(c: Cache, now: int): seq<string>
    requires c.Valid()
  {
    if |c.order| <= MAX_SIZE then c.order
    else
      var live := Live(c, c.order, now);
      if |live| <= MAX_SIZE then live else live[|live| - KEEP..]
  }

  function Evict(c: Cache, now: int): Cache
    requires c.Valid()
  {
    var order := Survivors(c, now);
    OrderedMap(order, map k | k in order && k in c.at :: c.at[k])
  }

  lemma EvictIsValid(c: Cache, now: int)
    requires c.Valid()
    ensures Evict(c, now).Valid()
    ensures |Evict(c, now).order| <= MAX_SIZE
    ensures forall k :: k in Evict(c, now).at ==> k in c.at && Evict(c, now).at[k] == c.at[k]
  {
    LiveIsFilter(c, c.order, now);
  }

  /** At or below 10000 entries an eviction changes nothing. */
  lemma NoEvictionBelow(c: Cache, now: int)
    requires c.Valid() && |c.order| <= 10_000
    ensures Evict(c, now) == c
  {
  }

  /**
   When the eviction triggers it leaves all the unexpired entries if they fit,
   and otherwise exactly the last 7500 of them in insertion order.
   */
  lemma EvictionLeaves(c: Cache, now: int)
    requires c.Valid() && |c.order| > 10_000
    ensures var live := Live(c, c.order, now);
            && (forall k :: k in live <==> k in c.at && c.at[k].expiresAt > now)
            && if |live| <= 10_000
               then Evict(c, now).order == live
               else |Evict(c, now).order| == 7_500 && Evict(c, now).order == live[|live| - 7_500..]
  {
    LiveIsFilter(c, c.order, now);
  }

  /**
   Refreshing an entry does not move it: in a cache over its limit with nothing
   expired, the oldest key is evicted even if its answer is the newest one.
   */
  lemma RefreshDoesNotProtect(c: Cache, k: string, e: Entry, now: int)
    requires c.Valid() && |c.order| > MAX_SIZE && k == c.order[0]
    requires e.expiresAt > now && forall j :: j in c.at ==> c.at[j].expiresAt > now
    ensures k !in Evict(c.Set(k, e), now).at
  {
    var c' := c.Set(k, e);
    AllLive(c', c'.order, now);
    FirstIsDropped(c'.order, KEEP);
  }

  lemma FirstIsDropped(order: seq<string>, keep: nat)
    requires NoDuplicates(order) && keep < |order|
    ensures order[0] !in order[|order| - keep..]
  {
  }

  lemma {:induction false} AllLive(c: Cache, order: seq<string>, now: int)
    requires forall k :: k in order ==> Fresh(c, k, now)
    ensures Live(c, order, now) == order
  {
    if order == [] {
    } else {
      AllLive(c, order[..|order| - 1], now);
      assert order == order[..|order| - 1] + [order[|order| - 1]];
    }
  }

  // ---- The interleaved protocol ----

  /** A validation whose response is outstanding, with the cache entry its caller saw when it started. */
  datatype Validation = Validation(token: string, cached: Option<Entry>, startedAt: int)

  /** A call for `token` awaiting validation `id`. */
  datatype Waiter = Waiter(token: string, id: nat)

  datatype State = State(
    cache: Cache, inflight: map<string, nat>, running: map<nat, Validation>, waiters: seq<Waiter>, nextId: nat)

  const INITIAL := State(OrderedMap([], map[]), map[], map[], [], 0)

  datatype Response =
    | Valid(identity: Identity)
    | Invalid            // 200 with valid = false
    | Unauthorized       // 401
    | RateLimited        // 429
    | Broken             // any other status, a network error, an unreadable body

  datatype Event =
    | Call(token: string, now: int, configured: bool)
    | Arrive(id: nat, response: Response, now: int)

  /** The auth service said `value` about `token` at time `at`. */
  datatype Answer = Answer(token: string, value: Option<Identity>, at: int)

  /**
   A call for `token` returned `value`, from an answer that expires at
   `expiresAt`; `fallback` is the start of its validation if through the 429 branch.
   */
  datatype Returned = Returned(
    token: string, value: Option<Identity>, at: int, expiresAt: int, fallback: Option<int>)

  function Ttl(positive: int, value: Option<Identity>): int {
    if value.Some? then positive else NEGATIVE_TTL
  }

  function Lookup(c: Cache, token: string): Option<Entry> {
    if token in c.at then Some(c.at[token]) else None
  }

  /** The synchronous part of a call, up to its first await: the state, and the token if it returned or threw. */
  function OnCall(s: State, token: string, now: int, configured: bool): (State, seq<Returned>, seq<string>)
    requires s.cache.Valid()
  {
    if Fresh(s.cache, token, now) then
      var e := s.cache.at[token];
      (s, [Returned(token, e.value, now, e.expiresAt, None)], [])
    else if token in s.inflight then (s.(waiters := s.waiters + [Waiter(token, s.inflight[token])]), [], [])
    else if !configured then (s, [], [token])
    else
      (State(
        Evict(s.cache, now),
        s.inflight[token := s.nextId],
        s.running[s.nextId := Validation(token, Lookup(s.cache, token), now)],
        s.waiters + [Waiter(token, s.nextId)],
        s.nextId + 1), [], [])
  }

  /** What the auth service says about the token, if it says anything. */
  function Verdict(response: Response): Option<Option<Identity>> {
    match response
    case Valid(identity) => Some(Some(identity))
    case Invalid => Some(None)
    case Unauthorized => Some(None)
    case _ => None
  }

  function Deliver(waiters: seq<Waiter>, id: nat, e: Entry, now: int, fallback: Option<int>): seq<Returned> {
    if waiters == [] then []
    else
      var w := waiters[0];
      (if w.id == id then [Returned(w.token, e.value, now, e.expiresAt, fallback)] else []) +
      Deliver(waiters[1..], id, e, now, fallback)
  }

  /** The calls that throw when validation `id` does. */
  function Reject(waiters: seq<Waiter>, id: nat): seq<string> {
    if waiters == [] then []
    else (if waiters[0].id == id then [waiters[0].token] else []) + Reject(waiters[1..], id)
  }

  function StillWaiting(waiters: seq<Waiter>, id: nat): (still: seq<Waiter>)
    ensures forall w :: w in still <==> w in waiters && w.id != id
  {
    if waiters == [] then []
    else
      assert waiters == [waiters[0]] + waiters[1..];
      (if waiters[0].id == id then [] else [waiters[0]]) + StillWaiting(waiters[1..], id)
  }

  /** What validation `id` resolves to, and when it started if through the fallback; `None` if it throws. */
  function Settled(ttl: int, v: Validation, response: Response, now: int): Option<(Entry, Option<int>)> {
    var verdict := Verdict(response);
    if verdict.Some? then Some((Entry(verdict.value, now + Ttl(ttl, verdict.value)), None))
    else if response.RateLimited? && v.cached.Some? then Some((v.cached.value, Some(v.startedAt)))
    else None
  }

  /** The rest of validation `id`, once its response is here. */
  function OnArrive(ttl: int, s: State, id: nat, response: Response, now: int): (State, seq<Returned>, seq<string>)
    requires s.cache.Valid() && id in s.running
  {
    var v := s.running[id];
    var settled := Settled(ttl, v, response, now);
    var cache := if Verdict(response).Some? then s.cache.Set(v.token, settled.value.0) else s.cache;
    (State(cache, s.inflight - {v.token}, s.running - {id}, StillWaiting(s.waiters, id), s.nextId),
     if settled.Some? then Deliver(s.waiters, id, settled.value.0, now, settled.value.1) else [],
     if settled.Some? then [] else Reject(s.waiters, id))
  }

  /** A run: the state, what the service answered, and how the calls ended so far. */
  datatype Trace = Trace(state: State, answers: seq<Answer>, returned: seq<Returned>, threw: seq<string>)

  function Step(ttl: int, t: Trace, e: Event): (t': Trace)
    requires t.state.cache.Valid()
    ensures t'.state.cache.Valid()
  {
    match e
    case Call(token, now, configured) =>
      var (s, returned, threw) := OnCall(t.state, token, now, configured);
      EvictIsValid(t.state.cache, now);
      Trace(s, t.answers, t.returned + returned, t.threw + threw)
    case Arrive(id, response, now) =>
      if id !in t.state.running then t
      else
        var (s, returned, threw) := OnArrive(ttl, t.state, id, response, now);
        var verdict := Verdict(response);
        var answers :=
          if verdict.Some? then t.answers + [Answer(t.state.running[id].token, verdict.value, now)] else t.answers;
        Trace(s, answers, t.returned + returned, t.threw + threw)
  }

  /** The trace after the first `n` events. */
  function RunTo(ttl: int, events: seq<Event>, n: nat): (t: Trace)
    requires n <= |events|
    ensures t.state.cache.Valid()
  {
    if n == 0 then Trace(INITIAL, [], [], []) else Step(ttl, RunTo(ttl, events, n - 1), events[n - 1])
  }

  // ---- Every interleaving ----

  /** The in-flight table names exactly the outstanding validations, one per token. */
  ghost predicate Consistent(s: State) {
    && (forall token :: token in s.inflight ==>
          s.inflight[token] in s.running && s.running[s.inflight[token]].token == token)
    && (forall id :: id in s.running ==>
          id < s.nextId && s.running[id].token in s.inflight && s.inflight[s.running[id].token] == id)
    && (forall w :: w in s.waiters ==> w.id in s.running && s.running[w.id].token == w.token)
  }

  function LastAnswer(answers: seq<Answer>, token: string): Option<Answer> {
    if answers == [] then None
    else
      var last := answers[|answers| - 1];
      if last.token == token then Some(last) else LastAnswer(answers[..|answers| - 1], token)
  }

  lemma {:induction false} LastAnswerIsAnswer(answers: seq<Answer>, token: string)
    ensures var a := LastAnswer(answers, token); a.Some? ==> a.value in answers && a.value.token == token
  {
    if answers == [] {
    } else {
      LastAnswerIsAnswer(answers[..|answers| - 1], token);
    }
  }

  /** The one answer that, cached when it was given, expires then. */
  function Source(ttl: int, token: string, value: Option<Identity>, expiresAt: int): Answer {
    Answer(token, value, expiresAt - Ttl(ttl, value))
  }

  /** The cached answer is the last one the service gave about `token`. */
  ghost predicate Given(ttl: int, answers: seq<Answer>, token: string, e: Entry) {
    LastAnswer(answers, token) == Some(Source(ttl, token, e.value, e.expiresAt))
  }

  ghost predicate AllGiven(ttl: int, t: Trace) {
    && (forall k :: k in t.state.cache.at ==> Given(ttl, t.answers, k, t.state.cache.at[k]))
    && (forall id :: id in t.state.running && t.state.running[id].cached.Some? ==>
          var v := t.state.running[id];
          Given(ttl, t.answers, v.token, v.cached.value) && v.cached.value.expiresAt <= v.startedAt)
  }

  /** The answer a call returned. */
  function SourceOf(ttl: int, r: Returned): Answer {
    Source(ttl, r.token, r.value, r.expiresAt)
  }

  /**
   The call returned an answer the service gave about its own token: through
   the fallback, one that had expired when its validation started, otherwise
   one just given or not yet expired.
   */
  ghost predicate Justified(ttl: int, answers: seq<Answer>, r: Returned) {
    var a := SourceOf(ttl, r);
    && a in answers
    && if r.fallback.Some? then r.expiresAt <= r.fallback.value else r.at == a.at || r.at < r.expiresAt
  }

  /** The call returned the newest answer about its token. */
  ghost predicate Latest(ttl: int, answers: seq<Answer>, r: Returned) {
    LastAnswer(answers, r.token) == Some(SourceOf(ttl, r))
  }

  ghost predicate Inv(ttl: int, t: Trace) {
    && t.state.cache.Valid()
    && Consistent(t.state)
    && AllGiven(ttl, t)
    && forall r :: r in t.returned ==> Justified(ttl, t.answers, r)
  }

  lemma {:induction false} DeliverMembers(waiters: seq<Waiter>, id: nat, e: Entry, now: int, fallback: Option<int>)
    ensures forall r :: r in Deliver(waiters, id, e, now, fallback) ==>
              exists w :: w in waiters && w.id == id && r == Returned(w.token, e.value, now, e.expiresAt, fallback)
  {
    if waiters == [] {
    } else {
      DeliverMembers(waiters[1..], id, e, now, fallback);
      assert waiters == [waiters[0]] + waiters[1..];
    }
  }

  lemma CallIsConsistent(s: State, token: string, now: int, configured: bool)
    requires s.cache.Valid() && Consistent(s)
    ensures Consistent(OnCall(s, token, now, configured).0)
  {
  }

  lemma CallIsGiven(ttl: int, t: Trace, token: string, now: int, configured: bool)
    requires Inv(ttl, t)
    ensures AllGiven(ttl, Step(ttl, t, Call(token, now, configured)))
  {
    EvictIsValid(t.state.cache, now);
  }

  /** A call that returns at once returns the newest answer, which is fresh. */
  lemma CallReturns(ttl: int, t: Trace, token: string, now: int, configured: bool, r: Returned)
    requires Inv(ttl, t) && r in OnCall(t.state, token, now, configured).1
    ensures Latest(ttl, t.answers, r) && Justified(ttl, t.answers, r)
  {
    assert Given(ttl, t.answers, token, t.state.cache.at[token]);
    LastAnswerIsAnswer(t.answers, token);
  }

  lemma ArriveIsConsistent(ttl: int, s: State, id: nat, response: Response, now: int)
    requires s.cache.Valid() && Consistent(s) && id in s.running
    ensures Consistent(OnArrive(ttl, s, id, response, now).0)
  {
  }

  lemma HeardLast(answers: seq<Answer>, a: Answer, token: string)
    ensures LastAnswer(answers + [a], token) == if a.token == token then Some(a) else LastAnswer(answers, token)
  {
    assert (answers + [a])[..|answers|] == answers;
  }

  lemma ArriveIsGiven(ttl: int, t: Trace, id: nat, response: Response, now: int)
    requires Inv(ttl, t) && id in t.state.running
    ensures AllGiven(ttl, Step(ttl, t, Arrive(id, response, now)))
  {
    var v, verdict := t.state.running[id], Verdict(response);
    if verdict.Some? {
      forall token { HeardLast(t.answers, Answer(v.token, verdict.value, now), token); }
    }
  }

  lemma ReturnedBySettling(ttl: int, s: State, id: nat, response: Response, now: int, r: Returned)
    requires s.cache.Valid() && Consistent(s) && id in s.running && r in OnArrive(ttl, s, id, response, now).1
    ensures Settled(ttl, s.running[id], response, now).Some?
    ensures var (e, fallback) := Settled(ttl, s.running[id], response, now).value;
            r == Returned(s.running[id].token, e.value, now, e.expiresAt, fallback)
  {
    var (e, fallback) := Settled(ttl, s.running[id], response, now).value;
    DeliverMembers(s.waiters, id, e, now, fallback);
  }

  lemma AnswerIsLatest(ttl: int, answers: seq<Answer>, r: Returned)
    requires Given(ttl, answers, r.token, Entry(r.value, r.expiresAt))
    ensures Latest(ttl, answers, r) && SourceOf(ttl, r) in answers
  {
    LastAnswerIsAnswer(answers, r.token);
  }

  /** A validation returns, to every call that waits for it, the newest answer. */
  lemma ArriveReturns(ttl: int, t: Trace, id: nat, response: Response, now: int, r: Returned)
    requires Inv(ttl, t) && id in t.state.running && r in OnArrive(ttl, t.state, id, response, now).1
    ensures var answers := Step(ttl, t, Arrive(id, response, now)).answers;
            Latest(ttl, answers, r) && Justified(ttl, answers, r)
  {
    var v, verdict := t.state.running[id], Verdict(response);
    ReturnedBySettling(ttl, t.state, id, response, now, r);
    if verdict.Some? { HeardLast(t.answers, Answer(v.token, verdict.value, now), v.token); }
    AnswerIsLatest(ttl, Step(ttl, t, Arrive(id, response, now)).answers, r);
  }

  /** Whatever a step returns is the newest answer about its token, and justified. */
  lemma StepReturnsLatest(ttl: int, t: Trace, e: Event, i: nat)
    requires Inv(ttl, t) && |t.returned| <= i < |Step(ttl, t, e).returned|
    ensures var t' := Step(ttl, t, e);
            Latest(ttl, t'.answers, t'.returned[i]) && Justified(ttl, t'.answers, t'.returned[i])
  {
    var r := Step(ttl, t, e).returned[i];
    match e
    case Call(token, now, configured) => CallReturns(ttl, t, token, now, configured, r);
    case Arrive(id, response, now) => ArriveReturns(ttl, t, id, response, now, r);
  }

  lemma StepKeepsJustified(ttl: int, t: Trace, e: Event)
    requires Inv(ttl, t)
    ensures var t' := Step(ttl, t, e); forall r :: r in t'.returned ==> Justified(ttl, t'.answers, r)
  {
    var t' := Step(ttl, t, e);
    assert t.returned <= t'.returned && t.answers <= t'.answers;
    forall i | 0 <= i < |t'.returned|
      ensures Justified(ttl, t'.answers, t'.returned[i])
    {
      if i < |t.returned| {
        assert t'.returned[i] in t.returned && Justified(ttl, t.answers, t'.returned[i]);
      } else {
        StepReturnsLatest(ttl, t, e, i);
      }
    }
  }

  lemma StepKeepsInv(ttl: int, t: Trace, e: Event)
    requires Inv(ttl, t)
    ensures Inv(ttl, Step(ttl, t, e))
  {
    StepKeepsJustified(ttl, t, e);
    match e
    case Call(token, now, configured) =>
      CallIsConsistent(t.state, token, now, configured);
      CallIsGiven(ttl, t, token, now, configured);
    case Arrive(id, response, now) =>
      if id in t.state.running {
        ArriveIsConsistent(ttl, t.state, id, response, now);
        ArriveIsGiven(ttl, t, id, response, now);
      }
  }

  lemma {:induction false} RunKeepsInv(ttl: int, events: seq<Event>, n: nat)
    requires n <= |events|
    ensures Inv(ttl, RunTo(ttl, events, n))
  {
    if n == 0 {
    } else {
      RunKeepsInv(ttl, events, n - 1);
      StepKeepsInv(ttl, RunTo(ttl, events, n - 1), events[n - 1]);
    }
  }

  /**
   In every interleaving: no token has two validations outstanding; every call
   that waits, waits for an outstanding validation of its own token; and every
   result returned is an answer the service gave about that token, which had
   expired when its validation started if it came through the 429 fallback, and
   has not expired or is just given otherwise.
   */
  lemma RunIsSafe(ttl: int, events: seq<Event>)
    ensures var t := RunTo(ttl, events, |events|);
            && (forall i, j | i in t.state.running && j in t.state.running ::
                  t.state.running[i].token == t.state.running[j].token ==> i == j)
            && (forall w :: w in t.state.waiters ==> w.id in t.state.running && t.state.running[w.id].token == w.token)
            && (forall r :: r in t.returned ==> Justified(ttl, t.answers, r))
  {
    RunKeepsInv(ttl, events, |events|);
  }

  /**
   No superseded answer is ever returned: what the event at `n` makes a call
   return is the last answer the service has given about its token by then.
   */
  lemma RunReturnsLatest(ttl: int, events: seq<Event>, n: nat, i: nat)
    requires n < |events| && |RunTo(ttl, events, n).returned| <= i < |RunTo(ttl, events, n + 1).returned|
    ensures var t := RunTo(ttl, events, n + 1); Latest(ttl, t.answers, t.returned[i])
  {
    RunKeepsInv(ttl, events, n);
    StepReturnsLatest(ttl, RunTo(ttl, events, n), events[n], i);
  }

  // ---- Calls and responses, case by case ----

  /** `after` is `before` and then `n` times `r`. */
  ghost predicate Adds<T>(before: seq<T>, after: seq<T>, n: int, r: T) {
    && |after| == |before| + n && before <= after
    && forall i :: |before| <= i < |after| ==> after[i] == r
  }

  lemma {:induction false} DeliverAdds(
    waiters: seq<Waiter>, id: nat, token: string, e: Entry, now: int, fallback: Option<int>)
    requires forall w :: w in waiters && w.id == id ==> w.token == token
    ensures Adds([], Deliver(waiters, id, e, now, fallback), |waiters| - |StillWaiting(waiters, id)|,
                 Returned(token, e.value, now, e.expiresAt, fallback))
  {
    if waiters == [] {
    } else {
      assert waiters[0] in waiters && forall w :: w in waiters[1..] ==> w in waiters;
      DeliverAdds(waiters[1..], id, token, e, now, fallback);
    }
  }

  lemma {:induction false} RejectAdds(waiters: seq<Waiter>, id: nat, token: string)
    requires forall w :: w in waiters && w.id == id ==> w.token == token
    ensures Adds([], Reject(waiters, id), |waiters| - |StillWaiting(waiters, id)|, token)
  {
    if waiters == [] {
    } else {
      assert waiters[0] in waiters && forall w :: w in waiters[1..] ==> w in waiters;
      RejectAdds(waiters[1..], id, token);
    }
  }

  lemma AddsToTrace<T>(before: seq<T>, more: seq<T>, n: int, r: T)
    requires Adds([], more, n, r)
    ensures Adds(before, before + more, n, r)
  {
  }

  /** The validation is over: nothing outstanding for it, and those that waited for it wait no more. */
  ghost predicate IsOver(s: State, s': State, id: nat)
    requires id in s.running
  {
    && s'.running == s.running - {id}
    && s'.inflight == s.inflight - {s.running[id].token}
    && (forall w :: w in s'.waiters <==> w in s.waiters && w.id != id)
    && s'.nextId == s.nextId
  }

  /** All that waited returned `r`. */
  ghost predicate AllReturn(t: Trace, t': Trace, r: Returned) {
    && Adds(t.returned, t'.returned, |t.state.waiters| - |t'.state.waiters|, r)
    && t'.threw == t.threw
  }

  ghost predicate AllThrow(t: Trace, t': Trace, token: string) {
    && Adds(t.threw, t'.threw, |t.state.waiters| - |t'.state.waiters|, token)
    && t'.returned == t.returned
  }

  lemma SettledReturns(ttl: int, t: Trace, id: nat, response: Response, now: int, e: Entry, fallback: Option<int>)
    requires t.state.cache.Valid() && Consistent(t.state) && id in t.state.running
    requires Settled(ttl, t.state.running[id], response, now) == Some((e, fallback))
    ensures AllReturn(t, Step(ttl, t, Arrive(id, response, now)),
                      Returned(t.state.running[id].token, e.value, now, e.expiresAt, fallback))
  {
    var token := t.state.running[id].token;
    DeliverAdds(t.state.waiters, id, token, e, now, fallback);
    AddsToTrace(t.returned, Deliver(t.state.waiters, id, e, now, fallback),
                |t.state.waiters| - |StillWaiting(t.state.waiters, id)|,
                Returned(token, e.value, now, e.expiresAt, fallback));
    assert t.threw + [] == t.threw;
  }

  lemma UnsettledThrows(ttl: int, t: Trace, id: nat, response: Response, now: int)
    requires t.state.cache.Valid() && Consistent(t.state) && id in t.state.running
    requires Settled(ttl, t.state.running[id], response, now).None?
    ensures AllThrow(t, Step(ttl, t, Arrive(id, response, now)), t.state.running[id].token)
  {
    var token := t.state.running[id].token;
    RejectAdds(t.state.waiters, id, token);
    AddsToTrace(t.threw, Reject(t.state.waiters, id),
                |t.state.waiters| - |StillWaiting(t.state.waiters, id)|, token);
    assert t.returned + [] == t.returned;
  }

  /**
   What each response does. A verdict is returned to every call that waits and
   cached, a valid one for the TTL and an invalid one for five seconds; a rate
   limit falls back on what was cached when the validation started; anything
   else, and a rate limit with nothing cached, throws. Only verdicts are answers
   of the service, and only they change the cache.
   */
  lemma ArriveMeaning(ttl: int, t: Trace, id: nat, response: Response, now: int)
    requires t.state.cache.Valid() && Consistent(t.state) && id in t.state.running
    ensures var t', v := Step(ttl, t, Arrive(id, response, now)), t.state.running[id];
            && IsOver(t.state, t'.state, id)
            && match response
               case Valid(identity) =>
                 && t'.answers == t.answers + [Answer(v.token, Some(identity), now)]
                 && t'.state.cache == t.state.cache.Set(v.token, Entry(Some(identity), now + ttl))
                 && AllReturn(t, t', Returned(v.token, Some(identity), now, now + ttl, None))
               case Invalid =>
                 && t'.answers == t.answers + [Answer(v.token, None, now)]
                 && t'.state.cache == t.state.cache.Set(v.token, Entry(None, now + 5_000))
                 && AllReturn(t, t', Returned(v.token, None, now, now + 5_000, None))
               case Unauthorized =>
                 && t'.answers == t.answers + [Answer(v.token, None, now)]
                 && t'.state.cache == t.state.cache.Set(v.token, Entry(None, now + 5_000))
                 && AllReturn(t, t', Returned(v.token, None, now, now + 5_000, None))
               case RateLimited =>
                 && t'.answers == t.answers && t'.state.cache == t.state.cache
                 && if v.cached.Some?
                    then AllReturn(t, t', Returned(
                           v.token, v.cached.value.value, now, v.cached.value.expiresAt, Some(v.startedAt)))
                    else AllThrow(t, t', v.token)
               case Broken =>
                 && t'.answers == t.answers && t'.state.cache == t.state.cache
                 && AllThrow(t, t', v.token)
  {
    var v := t.state.running[id];
    match response
    case Valid(identity) => SettledReturns(ttl, t, id, response, now, Entry(Some(identity), now + ttl), None);
    case Invalid => SettledReturns(ttl, t, id, response, now, Entry(None, now + 5_000), None);
    case Unauthorized => SettledReturns(ttl, t, id, response, now, Entry(None, now + 5_000), None);
    case RateLimited =>
      if v.cached.Some? {
        SettledReturns(ttl, t, id, response, now, v.cached.value, Some(v.startedAt));
      } else {
        UnsettledThrows(ttl, t, id, response, now);
      }
    case Broken => UnsettledThrows(ttl, t, id, response, now);
  }

  /**
   What a call does at once: an unexpired entry is returned; a validation in
   flight for its token is joined; without a configured service it throws;
   otherwise a validation is recorded, with the entry it saw, after an eviction.
   */
  lemma CallMeaning(ttl: int, t: Trace, token: string, now: int, configured: bool)
    requires t.state.cache.Valid()
    ensures var s, t' := t.state, Step(ttl, t, Call(token, now, configured));
            var s' := t'.state;
            && t'.answers == t.answers
            && if token in s.cache.at && s.cache.at[token].expiresAt > now then
                 var e := s.cache.at[token];
                 && s' == s && t'.threw == t.threw
                 && t'.returned == t.returned + [Returned(token, e.value, now, e.expiresAt, None)]
               else
                 && t'.returned == t.returned
                 && if token in s.inflight then
                      && t'.threw == t.threw
                      && s' == State(s.cache, s.inflight, s.running, s.waiters + [Waiter(token, s.inflight[token])],
                                     s.nextId)
                    else if !configured then s' == s && t'.threw == t.threw + [token]
                    else
                      && t'.threw == t.threw
                      && s'.cache == Evict(s.cache, now)
                      && s'.inflight == s.inflight[token := s.nextId]
                      && s'.running == s.running[s.nextId := Validation(
                           token, if token in s.cache.at then Some(s.cache.at[token]) else None, now)]
                      && s'.waiters == s.waiters + [Waiter(token, s.nextId)]
                      && s'.nextId == s.nextId + 1
  {
  }

  // ---- Every call ends once ----

  function WaitingFor(waiters: seq<Waiter>, token: string): nat {
    if waiters == [] then 0 else (if waiters[0].token == token then 1 else 0) + WaitingFor(waiters[1..], token)
  }

  function ReturnedFor(returned: seq<Returned>, token: string): nat {
    if returned == [] then 0 else (if returned[0].token == token then 1 else 0) + ReturnedFor(returned[1..], token)
  }

  function ThrewFor(threw: seq<string>, token: string): nat {
    if threw == [] then 0 else (if threw[0] == token then 1 else 0) + ThrewFor(threw[1..], token)
  }

  lemma {:induction false} WaitingConcat(a: seq<Waiter>, b: seq<Waiter>, token: string)
    ensures WaitingFor(a + b, token) == WaitingFor(a, token) + WaitingFor(b, token)
  {
    if a == [] {
      assert a + b == b;
    } else {
      assert (a + b)[1..] == a[1..] + b;
      WaitingConcat(a[1..], b, token);
    }
  }

  lemma {:induction false} ReturnedConcat(a: seq<Returned>, b: seq<Returned>, token: string)
    ensures ReturnedFor(a + b, token) == ReturnedFor(a, token) + ReturnedFor(b, token)
  {
    if a == [] {
      assert a + b == b;
    } else {
      assert (a + b)[1..] == a[1..] + b;
      ReturnedConcat(a[1..], b, token);
    }
  }

  lemma {:induction false} ThrewConcat(a: seq<string>, b: seq<string>, token: string)
    ensures ThrewFor(a + b, token) == ThrewFor(a, token) + ThrewFor(b, token)
  {
    if a == [] {
      assert a + b == b;
    } else {
      assert (a + b)[1..] == a[1..] + b;
      ThrewConcat(a[1..], b, token);
    }
  }

  lemma {:induction false} DeliverEnds(
    waiters: seq<Waiter>, id: nat, e: Entry, now: int, fallback: Option<int>, token: string)
    ensures WaitingFor(waiters, token) ==
            WaitingFor(StillWaiting(waiters, id), token) +
            ReturnedFor(Deliver(waiters, id, e, now, fallback), token)
  {
    if waiters == [] {
    } else {
      var w, rest := waiters[0], waiters[1..];
      DeliverEnds(rest, id, e, now, fallback, token);
      WaitingConcat(if w.id == id then [] else [w], StillWaiting(rest, id), token);
      ReturnedConcat(
        if w.id == id then [Returned(w.token, e.value, now, e.expiresAt, fallback)] else [],
        Deliver(rest, id, e, now, fallback), token);
    }
  }

  lemma {:induction false} RejectEnds(waiters: seq<Waiter>, id: nat, token: string)
    ensures WaitingFor(waiters, token) ==
            WaitingFor(StillWaiting(waiters, id), token) + ThrewFor(Reject(waiters, id), token)
  {
    if waiters == [] {
    } else {
      var w, rest := waiters[0], waiters[1..];
      RejectEnds(rest, id, token);
      WaitingConcat(if w.id == id then [] else [w], StillWaiting(rest, id), token);
      ThrewConcat(if w.id == id then [w.token] else [], Reject(rest, id), token);
    }
  }

  /** The calls for `token` among the first `n` events. */
  ghost function CallsFor(events: seq<Event>, n: nat, token: string): nat
    requires n <= |events|
  {
    if n == 0 then 0
    else
      var e := events[n - 1];
      CallsFor(events, n - 1, token) + if e.Call? && e.token == token then 1 else 0
  }

  /** The calls for `token` that have returned, have thrown or still wait. */
  ghost function Accounted(t: Trace, token: string): nat {
    ReturnedFor(t.returned, token) + ThrewFor(t.threw, token) + WaitingFor(t.state.waiters, token)
  }

  /** A call returns, throws, or adds itself to those that wait. */
  lemma CallEnds(s: State, e: Event, token: string)
    requires s.cache.Valid() && e.Call?
    ensures var (s', returned, threw) := OnCall(s, e.token, e.now, e.configured);
            ReturnedFor(returned, token) + ThrewFor(threw, token) + WaitingFor(s'.waiters, token) ==
            WaitingFor(s.waiters, token) + if e.token == token then 1 else 0
  {
    var s' := OnCall(s, e.token, e.now, e.configured).0;
    if s'.waiters != s.waiters {
      WaitingConcat(s.waiters, [s'.waiters[|s.waiters|]], token);
    }
  }

  lemma CallIsAccounted(ttl: int, t: Trace, e: Event, token: string)
    requires t.state.cache.Valid() && e.Call?
    ensures Accounted(Step(ttl, t, e), token) == Accounted(t, token) + if e.token == token then 1 else 0
  {
    var (s, returned, threw) := OnCall(t.state, e.token, e.now, e.configured);
    ReturnedConcat(t.returned, returned, token);
    ThrewConcat(t.threw, threw, token);
    CallEnds(t.state, e, token);
  }

  lemma ArriveIsAccounted(ttl: int, t: Trace, e: Event, token: string)
    requires t.state.cache.Valid() && e.Arrive?
    ensures Accounted(Step(ttl, t, e), token) == Accounted(t, token)
  {
    if e.id in t.state.running {
      var (s, returned, threw) := OnArrive(ttl, t.state, e.id, e.response, e.now);
      var settled := Settled(ttl, t.state.running[e.id], e.response, e.now);
      ReturnedConcat(t.returned, returned, token);
      ThrewConcat(t.threw, threw, token);
      if settled.Some? {
        DeliverEnds(t.state.waiters, e.id, settled.value.0, e.now, settled.value.1, token);
      } else {
        RejectEnds(t.state.waiters, e.id, token);
      }
    }
  }

  /** In every interleaving each call has returned once, or thrown once, or is still waiting. */
  lemma {:induction false} CallsBalance(ttl: int, events: seq<Event>, n: nat, token: string)
    requires n <= |events|
    ensures var t := RunTo(ttl, events, n);
            CallsFor(events, n, token) ==
            ReturnedFor(t.returned, token) + ThrewFor(t.threw, token) + WaitingFor(t.state.waiters, token)
  {
    if n == 0 {
    } else {
      CallsBalance(ttl, events, n - 1, token);
      if events[n - 1].Call? {
        CallIsAccounted(ttl, RunTo(ttl, events, n - 1), events[n - 1], token);
      } else {
        ArriveIsAccounted(ttl, RunTo(ttl, events, n - 1), events[n - 1], token);
      }
    }
  }

  // ---- The fallback, under a clock that does not run backwards ----

  ghost predicate Monotone(events: seq<Event>) {
    forall i :: 0 < i < |events| ==> events[i - 1].now <= events[i].now
  }

  /** Nothing outstanding started after `clock`, and nothing returned from the fallback before it started. */
  ghost predicate Clocked(t: Trace, clock: int) {
    && (forall id :: id in t.state.running ==> t.state.running[id].startedAt <= clock)
    && (forall r :: r in t.returned && r.fallback.Some? ==> r.fallback.value <= r.at)
  }

  lemma StepStaysClocked(ttl: int, t: Trace, e: Event, clock: int)
    requires t.state.cache.Valid() && Clocked(t, clock) && clock <= e.now
    ensures Clocked(Step(ttl, t, e), e.now)
  {
    if e.Arrive? && e.id in t.state.running {
      var settled := Settled(ttl, t.state.running[e.id], e.response, e.now);
      if settled.Some? { DeliverMembers(t.state.waiters, e.id, settled.value.0, e.now, settled.value.1); }
    }
  }

  lemma {:induction false} RunStaysClocked(ttl: int, events: seq<Event>, n: nat)
    requires 0 < n <= |events| && Monotone(events)
    ensures Clocked(RunTo(ttl, events, n), events[n - 1].now)
  {
    if n == 1 {
      StepStaysClocked(ttl, RunTo(ttl, events, 0), events[0], events[0].now);
    } else {
      RunStaysClocked(ttl, events, n - 1);
      StepStaysClocked(ttl, RunTo(ttl, events, n - 1), events[n - 1], events[n - 2].now);
    }
  }

  /** The answer a call returned is past its TTL if and only if it came through the fallback. */
  lemma ExpiredIffFallback(ttl: int, events: seq<Event>, r: Returned)
    requires ttl > 0 && Monotone(events) && r in RunTo(ttl, events, |events|).returned
    ensures var a := SourceOf(ttl, r);
            && a in RunTo(ttl, events, |events|).answers && a.token == r.token && a.value == r.value
            && (a.at + Ttl(ttl, a.value) <= r.at <==> r.fallback.Some?)
  {
    RunKeepsInv(ttl, events, |events|);
    if events != [] { RunStaysClocked(ttl, events, |events|); }
    assert Justified(ttl, RunTo(ttl, events, |events|).answers, r);
  }

  /** Beyond that the fallback has no age limit: an answer of any age from its TTL on can be returned. */
  lemma FallbackHasNoAgeLimit(ttl: int, token: string, identity: Identity, age: nat)
    requires 0 <= ttl <= age
    ensures var events := [Call(token, 0, true), Arrive(0, Valid(identity), 0),
                           Call(token, age, true), Arrive(1, RateLimited, age)];
            var t := RunTo(ttl, events, 4);
            && t.answers == [Answer(token, Some(identity), 0)]
            && Returned(token, Some(identity), age, ttl, Some(age)) in t.returned
  {
    var events := [Call(token, 0, true), Arrive(0, Valid(identity), 0),
                   Call(token, age, true), Arrive(1, RateLimited, age)];
    var t0 := RunTo(ttl, events, 0);
    assert t0 == Trace(INITIAL, [], [], []);
    assert Evict(INITIAL.cache, 0).at == map[];
    var t1 := RunTo(ttl, events, 1);
    assert t1 == Step(ttl, t0, events[0]);
    var t2 := RunTo(ttl, events, 2);
    assert t1.state.waiters == [Waiter(token, 0)];
    assert t2.state.cache.at[token] == Entry(Some(identity), ttl);
    assert t2 == Step(ttl, t1, events[1]);
    assert StillWaiting([Waiter(token, 0)], 0) == [];
    assert t2.state.waiters == [] && token !in t2.state.inflight;
    var t3 := RunTo(ttl, events, 3);
    assert t3.state.waiters == [Waiter(token, 1)];
    assert t3.state.running[1] == Validation(token, Some(Entry(Some(identity), ttl)), age);
  }

  // ---- Size ----

  lemma RemoveKey<V>(m: map<nat, V>, id: nat)
    requires id in m
    ensures |m - {id}| == |m| - 1
  {
  }

  /** Cache and outstanding validations together exceed the size limit by at most `k`. */
  ghost predicate Bounded(s: State, k: nat) {
    |s.cache.order| + |s.running| <= MAX_SIZE + k
  }

  lemma CallStaysBounded(s: State, token: string, now: int, configured: bool, k: nat)
    requires s.cache.Valid() && Bounded(s, k)
    requires |OnCall(s, token, now, configured).0.running| <= k
    ensures Bounded(OnCall(s, token, now, configured).0, k)
  {
  }

  lemma ArriveStaysBounded(ttl: int, s: State, id: nat, response: Response, now: int, k: nat)
    requires s.cache.Valid() && id in s.running && Bounded(s, k)
    ensures Bounded(OnArrive(ttl, s, id, response, now).0, k)
  {
  }

  /** The in-flight table is no larger than the set of outstanding validations. */
  lemma {:induction false} InflightFits(inflight: map<string, nat>, running: map<nat, Validation>)
    requires forall token :: token in inflight ==>
               inflight[token] in running && running[inflight[token]].token == token
    ensures |inflight| <= |running|
    decreases |inflight|
  {
    if |inflight| == 0 {
    } else {
      assert |inflight| > 0;
      var token :| token in inflight;
      var id := inflight[token];
      assert inflight == (inflight - {token})[token := id];
      RemoveKey(running, id);
      InflightFits(inflight - {token}, running - {id});
    }
  }

  lemma StepStaysBounded(ttl: int, t: Trace, e: Event, k: nat)
    requires t.state.cache.Valid() && Bounded(t.state, k)
    requires |Step(ttl, t, e).state.running| <= k
    ensures Bounded(Step(ttl, t, e).state, k)
  {
    match e
    case Call(token, now, configured) => CallStaysBounded(t.state, token, now, configured, k);
    case Arrive(id, response, now) =>
      if id in t.state.running { ArriveStaysBounded(ttl, t.state, id, response, now, k); }
  }

  function Max(sizes: seq<nat>): nat {
    if sizes == [] then 0
    else
      var last, before := sizes[|sizes| - 1], Max(sizes[..|sizes| - 1]);
      if last > before then last else before
  }

  lemma {:induction false} MaxIsUpperBound(sizes: seq<nat>, i: nat)
    requires i < |sizes|
    ensures sizes[i] <= Max(sizes)
  {
    if i == |sizes| - 1 {
    } else {
      MaxIsUpperBound(sizes[..|sizes| - 1], i);
    }
  }

  /** The most validations that were outstanding at once during the first `n` events. */
  ghost function Peak(ttl: int, events: seq<Event>, n: nat): nat
    requires n <= |events|
  {
    Max(seq(n + 1, m requires 0 <= m <= n => |RunTo(ttl, events, m).state.running|))
  }

  lemma WithinPeak(ttl: int, events: seq<Event>, n: nat, m: nat)
    requires m <= n <= |events|
    ensures |RunTo(ttl, events, m).state.running| <= Peak(ttl, events, n)
  {
    MaxIsUpperBound(seq(n + 1, i requires 0 <= i <= n => |RunTo(ttl, events, i).state.running|), m);
  }

  lemma StepToBounded(ttl: int, events: seq<Event>, n: nat, k: nat)
    requires 0 < n <= |events| && Bounded(RunTo(ttl, events, n - 1).state, k)
    requires |RunTo(ttl, events, n).state.running| <= k
    ensures Bounded(RunTo(ttl, events, n).state, k)
  {
    StepStaysBounded(ttl, RunTo(ttl, events, n - 1), events[n - 1], k);
  }

  lemma {:induction false} RunStaysWithin(ttl: int, events: seq<Event>, n: nat, k: nat)
    requires n <= |events|
    requires forall m :: 0 <= m <= n ==> |RunTo(ttl, events, m).state.running| <= k
    ensures Bounded(RunTo(ttl, events, n).state, k)
  {
    if n == 0 {
    } else {
      RunStaysWithin(ttl, events, n - 1, k);
      StepToBounded(ttl, events, n, k);
    }
  }

  lemma RunStaysBounded(ttl: int, events: seq<Event>, n: nat)
    requires n <= |events|
    ensures Bounded(RunTo(ttl, events, n).state, Peak(ttl, events, n))
  {
    forall m | 0 <= m <= n { WithinPeak(ttl, events, n, m); }
    RunStaysWithin(ttl, events, n, Peak(ttl, events, n));
  }

  /** Cache and in-flight table together never exceed the size limit by more than that peak. */
  lemma RunIsBounded(ttl: int, events: seq<Event>, n: nat)
    requires n <= |events|
    ensures var s := RunTo(ttl, events, n).state;
            |s.cache.at| + |s.inflight| <= MAX_SIZE + Peak(ttl, events, n)
  {
    var s := RunTo(ttl, events, n).state;
    SizeIsOrder(s.cache.order, s.cache.at.Keys);
    RunStaysBounded(ttl, events, n);
    RunKeepsInv(ttl, events, n);
    InflightFits(s.inflight, s.running);
  }

  // ---- The module's own state ----

  /** Deleting the key after `live` leaves `live` and the keys not yet visited. */
  lemma {:induction false} DeleteAfter(live: seq<string>, rest: seq<string>)
    requires rest != [] && NoDuplicates(live + rest)
    ensures Without(live + rest, rest[0]) == live + rest[1..]
  {
    if live == [] {
      assert live + rest == rest;
      assert forall i :: 0 <= i < |rest| - 1 ==> rest[1..][i] == rest[i + 1];
      WithoutAbsent(rest[1..], rest[0]);
    } else {
      assert (live + rest)[1..] == live[1..] + rest;
      assert (live + rest)[|live|] == rest[0];
      DeleteAfter(live[1..], rest);
    }
  }

  lemma {:induction false} WithoutAbsent(s: seq<string>, x: string)
    requires x !in s
    ensures Without(s, x) == s
  {
    if s == [] {
    } else {
      WithoutAbsent(s[1..], x);
    }
  }

  /** `c` after some keys have been deleted from `from`, with `order` left. */
  ghost predicate Remains(c: Cache, from: Cache, order: seq<string>) {
    && c.Valid()
    && c.order == order
    && forall k :: k in c.at ==> k in from.at && c.at[k] == from.at[k]
  }

  /** What is left of the key order once the pass over expired entries has seen the first `i` keys. */
  function Swept(c: Cache, i: nat, now: int): seq<string>
    requires c.Valid() && i <= |c.order|
  {
    Live(c, c.order[..i], now) + c.order[i..]
  }

  lemma SweptEnds(c: Cache, now: int)
    requires c.Valid()
    ensures Swept(c, 0, now) == c.order
    ensures Swept(c, |c.order|, now) == Live(c, c.order, now)
  {
    assert c.order[..|c.order|] == c.order;
  }

  lemma Regroup(a: seq<string>, b: seq<string>, c: seq<string>)
    ensures (a + b) + c == a + (b + c)
  {
  }

  lemma LiveNext(c: Cache, keys: seq<string>, i: nat, now: int)
    requires i < |keys|
    ensures Live(c, keys[..i + 1], now) ==
            Live(c, keys[..i], now) + if Fresh(c, keys[i], now) then [keys[i]] else []
  {
    assert keys[..i + 1][..i] == keys[..i];
  }

  lemma SweptNext(c: Cache, i: nat, now: int)
    requires c.Valid() && i < |c.order| && NoDuplicates(Swept(c, i, now))
    ensures var k := c.order[i];
            && k in Swept(c, i, now)
            && Swept(c, i + 1, now) ==
               if c.at[k].expiresAt <= now then Without(Swept(c, i, now), k) else Swept(c, i, now)
  {
    var keys, live := c.order, Live(c, c.order[..i], now);
    LiveNext(c, keys, i, now);
    assert keys[i..] == [keys[i]] + keys[i + 1..];
    assert keys[i] in keys[i..];
    if c.at[keys[i]].expiresAt <= now {
      DeleteAfter(live, keys[i..]);
    } else {
      Regroup(live, [keys[i]], keys[i + 1..]);
    }
  }

  lemma RemainsIsEvict(c: Cache, from: Cache, now: int)
    requires from.Valid() && Remains(c, from, Survivors(from, now))
    ensures c == Evict(from, now)
  {
  }

  lemma WithoutFirst(keys: seq<string>, n: nat)
    requires n < |keys| && NoDuplicates(keys[n..])
    ensures Without(keys[n..], keys[n]) == keys[n + 1..]
  {
    var rest := keys[n..];
    assert [] + rest == rest && rest[1..] == keys[n + 1..];
    DeleteAfter([], rest);
  }

  lemma DeleteFirst(c: Cache, from: Cache, keys: seq<string>, n: nat)
    requires n < |keys| && Remains(c, from, keys[n..])
    ensures Remains(c.Delete(keys[n]), from, keys[n + 1..])
  {
    WithoutFirst(keys, n);
  }

  class TokenValidator {
    const ttl: int
    var cache: Cache
    var inflight: map<string, nat>
    var running: map<nat, Validation>
    var waiters: seq<Waiter>
    var nextId: nat

    constructor (ttl: int)
      ensures this.ttl == ttl && Now() == INITIAL
    {
      this.ttl := ttl;
      cache, inflight, running, waiters, nextId := OrderedMap([], map[]), map[], map[], [], 0;
    }

    ghost function Now(): State
      reads this
    {
      State(cache, inflight, running, waiters, nextId)
    }

    method DeleteExpired(now: int)
      requires cache.Valid()
      modifies this`cache
      ensures Remains(cache, old(cache), Live(old(cache), old(cache).order, now))
    {
      ghost var c := cache;
      var keys := cache.order;
      SweptEnds(c, now);
      for i := 0 to |keys|
        invariant Remains(cache, c, Swept(c, i, now))
      {
        SweptNext(c, i, now);
        if cache.at[keys[i]].expiresAt <= now {
          cache := cache.Delete(keys[i]);
        }
      }
    }

    method DeleteOldest(excess: nat)
      requires cache.Valid() && excess <= |cache.order|
      modifies this`cache
      ensures Remains(cache, old(cache), old(cache).order[excess..])
    {
      ghost var c := cache;
      var keys := cache.order;
      var deleted := 0;
      while deleted < excess
        invariant deleted <= excess
        invariant Remains(cache, c, keys[deleted..])
      {
        DeleteFirst(cache, c, keys, deleted);
        cache := cache.Delete(keys[deleted]);
        deleted := deleted + 1;
      }
    }

    method EvictExpiredEntries(now: int)
      requires cache.Valid()
      modifies this`cache
      ensures cache == Evict(old(cache), now)
    {
      ghost var c := cache;
      if |cache.order| > MAX_SIZE {
        DeleteExpired(now);
        if |cache.order| > MAX_SIZE {
          DeleteOldest(|cache.order| - KEEP);
        }
      }
      RemainsIsEvict(cache, c, now);
    }

    /** A call up to its first await: it returns, throws, or waits. */
    method BeginValidate(token: string, now: int, configured: bool)
      returns (returned: seq<Returned>, threw: seq<string>)
      requires cache.Valid()
      modifies this
      ensures cache.Valid()
      ensures (Now(), returned, threw) == OnCall(old(Now()), token, now, configured)
    {
      returned, threw := [], [];
      if token in cache.at && cache.at[token].expiresAt > now {
        return [Returned(token, cache.at[token].value, now, cache.at[token].expiresAt, None)], [];
      }
      if token in inflight {
        waiters := waiters + [Waiter(token, inflight[token])];
        return;
      }
      if !configured {
        return [], [token];
      }
      var cached := Lookup(cache, token);
      EvictIsValid(cache, now);
      EvictExpiredEntries(now);
      running := running[nextId := Validation(token, cached, now)];
      inflight := inflight[token := nextId];
      waiters := waiters + [Waiter(token, nextId)];
      nextId := nextId + 1;
    }

    /** What a response does to the cache and to the calls that wait for it. */
    method HandleResponse(id: nat, response: Response, now: int)
      returns (returned: seq<Returned>, threw: seq<string>)
      requires cache.Valid() && id in running
      modifies this`cache
      ensures var settled := Settled(ttl, running[id], response, now);
              && cache == (if Verdict(response).Some? then old(cache).Set(running[id].token, settled.value.0)
                           else old(cache))
              && returned == (if settled.Some? then Deliver(waiters, id, settled.value.0, now, settled.value.1) else [])
              && threw == if settled.Some? then [] else Reject(waiters, id)
    {
      var v := running[id];
      returned, threw := [], [];
      match response {
        case Unauthorized =>
          cache := cache.Set(v.token, Entry(None, now + NEGATIVE_TTL));
          returned := Deliver(waiters, id, Entry(None, now + NEGATIVE_TTL), now, None);
        case RateLimited =>
          if v.cached.Some? {
            returned := Deliver(waiters, id, v.cached.value, now, Some(v.startedAt));
          } else {
            threw := Reject(waiters, id);
          }
        case Broken =>
          threw := Reject(waiters, id);
        case Invalid =>
          cache := cache.Set(v.token, Entry(None, now + NEGATIVE_TTL));
          returned := Deliver(waiters, id, Entry(None, now + NEGATIVE_TTL), now, None);
        case Valid(identity) =>
          cache := cache.Set(v.token, Entry(Some(identity), now + ttl));
          returned := Deliver(waiters, id, Entry(Some(identity), now + ttl), now, None);
      }
    }

    /** The rest of a validation, once its response has arrived; the in-flight entry always goes. */
    method FinishValidate(id: nat, response: Response, now: int)
      returns (returned: seq<Returned>, threw: seq<string>)
      requires cache.Valid() && id in running
      modifies this
      ensures cache.Valid()
      ensures (Now(), returned, threw) == OnArrive(ttl, old(Now()), id, response, now)
    {
      var v := running[id];
      returned, threw := HandleResponse(id, response, now);
      inflight := inflight - {v.token};
      running := running - {id};
      waiters := StillWaiting(waiters, id);
    }
  }
}
