/**
 How deployment rows come to point at one another, and what that means for
 the "running for" timer: the promise in the header of src/lib/leaseChain.ts
 that only a manual redeploy resets it.
 */
module TimerHistory {
  import opened Option
  import opened LeaseChain

  /** Why a row is created; all but `Deploy` continue an existing row. */
  datatype Reason =
    | Deploy
    | Failover(of: string)  // src/services/failover/failoverService.ts
    | Resume(of: string)    // src/services/billing/resumeHandler.ts
    | Retry(of: string)     // src/services/queue/akashSteps.ts, phalaSteps.ts, spheronSteps.ts

  datatype Event =
    | Create(id: string, reason: Reason)
    | Activate(id: string, now: int)
    | FailClose(id: string)  // src/services/billing/escrowHealthMonitor.ts: an ACTIVE row becomes CLOSE_FAILED

  /** A retry of a retry is linked to the row the first retry was linked to. */
  function RetryLink(t: Table, of: string): string
    requires of in t
  {
    var link := t[of].parentDeploymentId;
    if link.Some? && link.value != "" then link.value else of
  }

  function NewRow(t: Table, reason: Reason): Row
    requires reason.Deploy? || reason.of in t
  {
    match reason
    case Deploy => Row(None, None, None, None)
    case Failover(of) => Row(None, Some(of), None, None)
    case Resume(of) => Row(None, None, Some(of), None)
    case Retry(of) => Row(None, None, None, Some(RetryLink(t, of)))
  }

  /** The rows, those whose failure handler has marked them FAILED and created a retry, and the CLOSE_FAILED ones. */
  datatype World = World(rows: Table, retried: set<string>, closeFailed: set<string>)

  function Activated(t: Table, id: string, now: int): Table
    requires id in t
  {
    t[id := t[id].(activeSince := Some(now))]
  }

  /**
   The event can happen: ids are fresh and not empty, and a continued row
   exists. For the queue handlers a row that was ever ACTIVE is terminal, and
   not retried, unless it is CLOSE_FAILED, which is missing from their terminal
   states; a FAILED row is neither retried again nor activated by a late poll.
   */
  predicate Enabled(w: World, e: Event) {
    match e
    case Create(id, reason) =>
      && id != "" && id !in w.rows && (reason.Deploy? || reason.of in w.rows)
      && (reason.Retry? ==>
            reason.of !in w.retried && (w.rows[reason.of].activeSince == None || reason.of in w.closeFailed))
    case Activate(id, _) => id in w.rows && id !in w.retried
    case FailClose(id) => id in w.rows && id !in w.retried && w.rows[id].activeSince != None
  }

  function Apply(w: World, e: Event): World {
    if !Enabled(w, e) then w
    else
      match e
      case Create(id, reason) =>
        w.(rows := w.rows[id := NewRow(w.rows, reason)],
           retried := if reason.Retry? then w.retried + {reason.of} else w.retried)
      case Activate(id, now) => w.(rows := Activated(w.rows, id, now), closeFailed := w.closeFailed - {id})
      case FailClose(id) => w.(closeFailed := w.closeFailed + {id})
  }

  function Replay(events: seq<Event>): World {
    if events == [] then World(map[], {}, {}) else Apply(Replay(events[..|events| - 1]), events[|events| - 1])
  }

  function After(events: seq<Event>): Table {
    Replay(events).rows
  }

  /** Which link a new row gets, and that it starts without a time; a retry of a retry gets the link of the latter. */
  lemma NewRowMeaning(w: World, id: string, reason: Reason)
    requires Enabled(w, Create(id, reason))
    ensures var t := Apply(w, Create(id, reason)).rows;
            && t.Keys == w.rows.Keys + {id} && (forall other :: other in w.rows ==> t[other] == w.rows[other])
            && t[id].activeSince == None
            && t[id].failoverParentId == (if reason.Failover? then Some(reason.of) else None)
            && t[id].resumedFromId == (if reason.Resume? then Some(reason.of) else None)
            && (reason.Retry? ==>
                  var link := w.rows[reason.of].parentDeploymentId;
                  t[id].parentDeploymentId == if link == None || link == Some("") then Some(reason.of) else link)
            && (!reason.Retry? ==> t[id].parentDeploymentId == None)
  {
  }

  // ---- Chains are acyclic ----

  /** How many rows existed when the row was created. */
  ghost function Born(events: seq<Event>, id: string): nat {
    if events == [] then 0
    else
      var before := events[..|events| - 1];
      if id in After(before) then Born(before, id) else |After(before)|
  }

  predicate OneLink(r: Row) {
    && (r.failoverParentId.Some? ==> r.resumedFromId.None? && r.parentDeploymentId.None?)
    && (r.resumedFromId.Some? ==> r.parentDeploymentId.None?)
  }

  /** A link of row `id` leads to a row that existed before it. */
  ghost predicate Older(events: seq<Event>, link: Option<string>, id: string) {
    link.Some? ==> link.value in After(events) && Born(events, link.value) < Born(events, id)
  }

  ghost predicate RowIsForward(events: seq<Event>, r: Row, id: string) {
    && id != "" && OneLink(r) && Born(events, id) < |After(events)|
    && Older(events, r.failoverParentId, id)
    && Older(events, r.resumedFromId, id)
    && Older(events, r.parentDeploymentId, id)
  }

  ghost predicate Forward(events: seq<Event>) {
    forall id :: id in After(events) ==> RowIsForward(events, After(events)[id], id)
  }

  lemma ReplayStep(before: seq<Event>, e: Event)
    ensures Replay(before + [e]) == Apply(Replay(before), e)
  {
    assert (before + [e])[..|before|] == before;
  }

  lemma OldRowStaysForward(before: seq<Event>, e: Event, id: string)
    requires Forward(before) && id in After(before)
    ensures id in After(before + [e]) && RowIsForward(before + [e], After(before + [e])[id], id)
  {
    var events, t := before + [e], After(before);
    ReplayStep(before, e);
    assert events[..|before|] == before;
    assert RowIsForward(before, t[id], id);
    assert forall other :: other in t ==> Born(events, other) == Born(before, other);
  }

  lemma NewRowIsForward(before: seq<Event>, e: Event, id: string)
    requires Forward(before) && id !in After(before) && id in After(before + [e])
    ensures RowIsForward(before + [e], After(before + [e])[id], id)
  {
    var events, t := before + [e], After(before);
    ReplayStep(before, e);
    assert events[..|before|] == before;
    if !e.reason.Deploy? {
      assert RowIsForward(before, t[e.reason.of], e.reason.of);
      assert forall other :: other in t ==> Born(events, other) == Born(before, other) < |t|;
    }
  }

  lemma ForwardStep(before: seq<Event>, e: Event)
    requires Forward(before)
    ensures Forward(before + [e])
  {
    forall id | id in After(before + [e])
      ensures RowIsForward(before + [e], After(before + [e])[id], id)
    {
      if id in After(before) {
        OldRowStaysForward(before, e, id);
      } else {
        NewRowIsForward(before, e, id);
      }
    }
  }

  /** Every history keeps its links pointing from younger rows to older, existing ones. */
  lemma {:induction false} HistoryIsForward(events: seq<Event>)
    ensures Forward(events)
  {
    if events == [] {
    } else {
      HistoryIsForward(events[..|events| - 1]);
      ForwardStep(events[..|events| - 1], events[|events| - 1]);
      assert events == events[..|events| - 1] + [events[|events| - 1]];
    }
  }

  lemma {:induction false} WalkGrowsOlder(p: Provider, events: seq<Event>, head: string, i: nat, j: nat)
    requires i < j && Nth(p, After(events), head, j).Some?
    ensures var t := After(events);
            && Nth(p, t, head, i).Some?
            && Born(events, Nth(p, t, head, j).value) < Born(events, Nth(p, t, head, i).value)
  {
    ParentIsOlder(p, events, Nth(p, After(events), head, j - 1).value);
    if i == j - 1 {
    } else {
      WalkGrowsOlder(p, events, head, i, j - 1);
    }
  }

  lemma ParentIsOlder(p: Provider, events: seq<Event>, id: string)
    requires id in After(events)
    ensures Older(events, ParentId(p, After(events)[id]), id)
  {
    HistoryIsForward(events);
    assert RowIsForward(events, After(events)[id], id);
  }

  /** In every history the walk never meets a row twice, so the visited guard never fires. */
  lemma GuardNeverFires(p: Provider, events: seq<Event>, head: string, i: nat, j: nat)
    requires i < j
    ensures var t := After(events); Nth(p, t, head, j).None? || Nth(p, t, head, j) != Nth(p, t, head, i)
  {
    if Nth(p, After(events), head, j).Some? { WalkGrowsOlder(p, events, head, i, j); }
  }

  // ---- The timer along one link ----

  /** The position of the row that one more link pushes out of a full chain. */
  const LAST := MAX_CHAIN_DEPTH - 1

  /** The walk of a child is the child followed by the walk of its parent. */
  lemma {:induction false} WalkShifts(p: Provider, t: Table, child: string, parent: string, n: nat)
    requires child in t && parent in t && ParentId(p, t[child]) == Some(parent)
    ensures Nth(p, t, child, n + 1) == Nth(p, t, parent, n)
  {
    if n == 0 {
      assert Nth(p, t, child, 0) == Some(child);
    } else {
      WalkShifts(p, t, child, parent, n - 1);
    }
  }

  lemma {:induction false} SinceShifts(p: Provider, t: Table, child: string, parent: string, n: nat)
    requires child in t && parent in t && ParentId(p, t[child]) == Some(parent)
    ensures Since(p, t, child, n + 1) == Earlier(t[child].activeSince, Since(p, t, parent, n))
  {
    if n == 0 {
      assert Since(p, t, child, 0) == None;
    } else {
      SinceShifts(p, t, child, parent, n - 1);
      WalkShifts(p, t, child, parent, n - 1);
    }
  }

  /**
   A row linked to `parent` shows a timer no later than the parent's exactly
   when the row the cap pushes out of the chain, the parent's hundredth, is
   not earlier than everything that stays.
   */
  lemma LinkedTimer(p: Provider, t: Table, child: string, parent: string)
    requires child in t && parent in t && ParentId(p, t[child]) == Some(parent)
    ensures NoLater(ActiveSince(p, t, child), ActiveSince(p, t, parent)) <==>
            NoLater(Earlier(t[child].activeSince, Since(p, t, parent, LAST)), TimeOf(t, Nth(p, t, parent, LAST)))
  {
    SinceShifts(p, t, child, parent, LAST);
  }

  /** A row's first activation moves no timer to a later time, whoever's chain it is in. */
  lemma {:induction false} FirstActivationNeverDelays(p: Provider, t: Table, id: string, now: int, head: string, n: nat)
    requires id in t && t[id].activeSince == None
    ensures NoLater(Since(p, Activated(t, id, now), head, n), Since(p, t, head, n))
  {
    if n == 0 {
    } else {
      FirstActivationNeverDelays(p, t, id, now, head, n - 1);
      SameWalk(p, t, id, now, head, n - 1);
    }
  }

  lemma {:induction false} SameWalk(p: Provider, t: Table, id: string, now: int, head: string, n: nat)
    requires id in t
    ensures Nth(p, Activated(t, id, now), head, n) == Nth(p, t, head, n)
  {
    if n == 0 {
    } else {
      SameWalk(p, t, id, now, head, n - 1);
    }
  }

  lemma {:induction false} NewRowKeepsWalk(p: Provider, events: seq<Event>, id: string, r: Row, head: string, n: nat)
    requires id !in After(events) && head in After(events)
    ensures Nth(p, After(events)[id := r], head, n) == Nth(p, After(events), head, n)
  {
    if n == 0 {
    } else {
      NewRowKeepsWalk(p, events, id, r, head, n - 1);
      var child := Nth(p, After(events), head, n - 1);
      if child.Some? { ParentIsOlder(p, events, child.value); }
    }
  }

  lemma {:induction false} NewRowKeepsTimer(p: Provider, events: seq<Event>, id: string, r: Row, head: string, n: nat)
    requires id !in After(events) && head in After(events)
    ensures Since(p, After(events)[id := r], head, n) == Since(p, After(events), head, n)
  {
    if n == 0 {
    } else {
      NewRowKeepsTimer(p, events, id, r, head, n - 1);
      NewRowKeepsWalk(p, events, id, r, head, n - 1);
    }
  }

  /** No event of `later` activates a row for the second time. */
  ghost predicate ActivatesOnce(before: seq<Event>, later: seq<Event>) {
    later == [] ||
    var init, e := later[..|later| - 1], later[|later| - 1];
    && ActivatesOnce(before, init)
    && (e.Activate? && e.id in After(before + init) ==> After(before + init)[e.id].activeSince == None)
  }

  lemma StepNeverDelays(p: Provider, events: seq<Event>, e: Event, head: string)
    requires head in After(events)
    requires e.Activate? && e.id in After(events) ==> After(events)[e.id].activeSince == None
    ensures head in After(events + [e])
    ensures NoLater(ActiveSince(p, After(events + [e]), head), ActiveSince(p, After(events), head))
  {
    ReplayStep(events, e);
    if Enabled(Replay(events), e) {
      match e
      case Create(id, reason) =>
        NewRowKeepsTimer(p, events, id, NewRow(After(events), reason), head, MAX_CHAIN_DEPTH);
      case Activate(id, now) => FirstActivationNeverDelays(p, After(events), id, now, head, MAX_CHAIN_DEPTH);
      case FailClose(_) =>
    }
  }

  /** While no row is activated twice, no history moves a row's timer to a later time. */
  lemma {:induction false} TimerNeverMovesLater(p: Provider, before: seq<Event>, later: seq<Event>, head: string)
    requires head in After(before) && ActivatesOnce(before, later)
    ensures head in After(before + later)
    ensures NoLater(ActiveSince(p, After(before + later), head), ActiveSince(p, After(before), head))
  {
    if later == [] {
      assert before + later == before;
    } else {
      var init, e := later[..|later| - 1], later[|later| - 1];
      TimerNeverMovesLater(p, before, init, head);
      StepNeverDelays(p, before + init, e, head);
      assert before + later == before + init + [e];
    }
  }

  /** A second activation, as by a manual start on Phala, does move the timer of a row. */
  lemma SecondActivationMovesTimer(p: Provider, id: string, first: int, second: int)
    requires id != "" && first < second
    ensures var events := [Create(id, Deploy), Activate(id, first)];
            && ActiveSince(p, After(events), id) == Some(first)
            && ActiveSince(p, After(events + [Activate(id, second)]), id) == Some(second)
  {
    var create, activate := Create(id, Deploy), Activate(id, first);
    ReplayStep([], create);
    ReplayStep([create], activate);
    ReplayStep([create, activate], Activate(id, second));
    assert [] + [create] == [create] && [create] + [activate] == [create, activate];
    LoneRow(p, After([create, activate]), id);
    LoneRow(p, After([create, activate] + [Activate(id, second)]), id);
  }

  lemma LoneRow(p: Provider, t: Table, id: string)
    requires id in t && ParentId(p, t[id]) == None
    ensures ActiveSince(p, t, id) == t[id].activeSince
  {
    assert Nth(p, t, id, 1) == None;
    StoppingIsExact(p, t, id, 1, MAX_CHAIN_DEPTH);
    assert Since(p, t, id, 0) == None;
  }

  // ---- Continuations in a history ----

  /** Once created, a row keeps its links. */
  lemma {:induction false} LinksAreKept(before: seq<Event>, later: seq<Event>, id: string)
    requires id in After(before)
    ensures id in After(before + later)
    ensures After(before + later)[id].(activeSince := None) == After(before)[id].(activeSince := None)
  {
    if later == [] {
      assert before + later == before;
    } else {
      LinksAreKept(before, later[..|later| - 1], id);
      assert (before + later)[..|before + later| - 1] == before + later[..|later| - 1];
    }
  }

  lemma CreatedRow(before: seq<Event>, id: string, reason: Reason, later: seq<Event>)
    requires Enabled(Replay(before), Create(id, reason)) && !reason.Deploy?
    ensures var t := After(before + [Create(id, reason)] + later);
            && id in t && reason.of in t && reason.of != ""
            && t[id].(activeSince := None) == NewRow(After(before), reason)
            && t[reason.of].(activeSince := None) == After(before)[reason.of].(activeSince := None)
  {
    var events := before + [Create(id, reason)];
    assert events[..|events| - 1] == before;
    HistoryIsForward(before);
    LinksAreKept(events, later, id);
    LinksAreKept(before, [Create(id, reason)] + later, reason.of);
    assert before + ([Create(id, reason)] + later) == events + later;
  }

  /** The provider's walker follows the link that the reason sets. */
  predicate Walked(p: Provider, reason: Reason) {
    reason.Resume? || reason.Retry? || (reason.Failover? && p == Akash)
  }

  lemma {:induction false} RetriedAreRows(events: seq<Event>)
    ensures forall id :: id in Replay(events).retried ==> id in After(events)
  {
    if events == [] {
    } else {
      RetriedAreRows(events[..|events| - 1]);
    }
  }

  /** A retried row is FAILED for good: it is never activated, for the first time or again. */
  lemma {:induction false} RetriedKeepsItsTime(before: seq<Event>, later: seq<Event>, id: string)
    requires id in Replay(before).retried
    ensures id in Replay(before + later).retried && id in After(before) && id in After(before + later)
    ensures After(before + later)[id].activeSince == After(before)[id].activeSince
  {
    RetriedAreRows(before);
    if later == [] {
      assert before + later == before;
    } else {
      var init := before + later[..|later| - 1];
      RetriedKeepsItsTime(before, later[..|later| - 1], id);
      ReplayStep(init, later[|later| - 1]);
      assert before + later == init + [later[|later| - 1]];
    }
  }

  /** No row is retried twice. */
  lemma RetriedOnce(before: seq<Event>, later: seq<Event>, of: string, id: string)
    requires of in Replay(before).retried
    ensures Replay(before + later + [Create(id, Retry(of))]) == Replay(before + later)
  {
    RetriedKeepsItsTime(before, later, of);
    ReplayStep(before + later, Create(id, Retry(of)));
  }

  /** The replaced row in a history that goes on: it keeps the time it had, which only a failed close explains. */
  lemma ReplacedRow(before: seq<Event>, id: string, of: string, later: seq<Event>)
    requires Enabled(Replay(before), Create(id, Retry(of)))
    ensures var t := After(before + [Create(id, Retry(of))] + later);
            of in t && t[of].activeSince == After(before)[of].activeSince
    ensures After(before)[of].activeSince == None || of in Replay(before).closeFailed
  {
    ReplayStep(before, Create(id, Retry(of)));
    RetriedKeepsItsTime(before + [Create(id, Retry(of))], later, of);
  }

  /**
   A retry of a retry skips the row it replaces and shares the rest of its
   chain. Its timer is no later than that row's exactly when the replaced row's
   own time, if it has one, is not earlier than all that is left: for a later
   activation, when an earlier row of the chain was active by then.
   */
  lemma RetryTimerIff(p: Provider, before: seq<Event>, id: string, of: string, later: seq<Event>)
    requires Enabled(Replay(before), Create(id, Retry(of))) && After(before)[of].parentDeploymentId.Some?
    ensures var t, since := After(before + [Create(id, Retry(of))] + later), After(before)[of].activeSince;
            var rest := Since(p, t, After(before)[of].parentDeploymentId.value, LAST);
            var kept := NoLater(ActiveSince(p, t, id), ActiveSince(p, t, of));
            && id in t && of in t && t[of].activeSince == since
            && (kept <==> NoLater(Earlier(t[id].activeSince, rest), since))
            && (!NoLater(t[id].activeSince, since) ==> (kept <==> NoLater(rest, since)))
  {
    var created := before + [Create(id, Retry(of))];
    var t := After(created + later);
    CreatedRow(before, id, Retry(of), later);
    ReplacedRow(before, id, of, later);
    HistoryIsForward(before);
    HistoryIsForward(created + later);
    assert RowIsForward(before, After(before)[of], of);
    assert RowIsForward(created + later, t[of], of);
    var root := t[of].parentDeploymentId.value;
    assert RowIsForward(created + later, t[root], root);
    SinceShifts(p, t, id, root, LAST);
    SinceShifts(p, t, of, root, LAST);
  }

  /** Unless the row it replaces is CLOSE_FAILED, a retry of a retry keeps its timer, however long the chain. */
  lemma RetryKeepsTimer(p: Provider, before: seq<Event>, id: string, of: string, later: seq<Event>)
    requires Enabled(Replay(before), Create(id, Retry(of))) && After(before)[of].parentDeploymentId.Some?
    ensures var t := After(before + [Create(id, Retry(of))] + later);
            && id in t && of in t
            && (of !in Replay(before).closeFailed ==> NoLater(ActiveSince(p, t, id), ActiveSince(p, t, of)))
  {
    RetryTimerIff(p, before, id, of, later);
    ReplacedRow(before, id, of, later);
  }

  const ROOT := Row(None, None, None, None)

  function RetryOfRoot(since: Option<int>): Row {
    Row(since, None, None, Some("r"))
  }

  /** A row "r", its retry "a", which becomes ACTIVE, and a close of that row which fails. */
  function CloseFailure(first: int): seq<Event> {
    [Create("r", Deploy), Create("a", Retry("r")), Activate("a", first), FailClose("a")]
  }

  lemma ReplayTwo(before: seq<Event>, e: Event, f: Event)
    ensures Replay(before + [e, f]) == Apply(Apply(Replay(before), e), f)
  {
    AppendTwo(before, e, f);
    ReplayStep(before, e);
    ReplayStep(before + [e], f);
  }

  lemma AppendTwo(before: seq<Event>, e: Event, f: Event)
    ensures before + [e, f] == before + [e] + [f]
  {
  }

  lemma AfterCloseFailure(first: int)
    ensures Replay(CloseFailure(first)) == World(map["r" := ROOT, "a" := RetryOfRoot(Some(first))], {"r"}, {"a"})
  {
    var events := CloseFailure(first);
    ReplayTwo([], events[0], events[1]);
    ReplayTwo(events[..2], events[2], events[3]);
    assert [] + [events[0], events[1]] == events[..2] && events[..2] + [events[2], events[3]] == events;
    assert Apply(Replay([]), events[0]) == World(map["r" := ROOT], {}, {});
    assert Replay(events[..2]) == World(map["r" := ROOT, "a" := RetryOfRoot(None)], {"r"}, {});
  }

  /** A stale failure message for a row whose close failed resets the timer. */
  lemma StaleFailureResetsTimer(first: int, second: int)
    requires first < second
    ensures var events, later := CloseFailure(first), [Create("b", Retry("a")), Activate("b", second)];
            && Enabled(Replay(events), later[0])
            && ActiveSince(Akash, After(events), "a") == Some(first)
            && ActiveSince(Akash, After(events + later), "b") == Some(second)
            && !NoLater(ActiveSince(Akash, After(events + later), "b"), ActiveSince(Akash, After(events), "a"))
  {
    var create, activate := Create("b", Retry("a")), Activate("b", second);
    AfterCloseFailure(first);
    ReplayTwo(CloseFailure(first), create, activate);
    assert Apply(Replay(CloseFailure(first)), create).rows["b"] == RetryOfRoot(None);
    TwoRows(After(CloseFailure(first)), "a", "r");
    TwoRows(After(CloseFailure(first) + [create, activate]), "b", "r");
  }

  lemma TwoRows(t: Table, child: string, parent: string)
    requires child in t && parent in t && ParentId(Akash, t[child]) == Some(parent)
    requires ParentId(Akash, t[parent]) == None
    ensures ActiveSince(Akash, t, child) == Earlier(t[child].activeSince, t[parent].activeSince)
  {
    SinceShifts(Akash, t, child, parent, LAST);
    assert Nth(Akash, t, parent, 1) == None;
    StoppingIsExact(Akash, t, parent, 1, LAST);
    assert Since(Akash, t, parent, 0) == None;
  }

  /**
   Timer never resets: at any time after a failover, a resume or a retry, the
   new row's timer is no later than that of the row it continues, if the
   latter's chain has fewer than 100 rows, so that the cap pushes nothing out.
   The retry of a retry needs no such bound, but a row that is not CLOSE_FAILED.
   */
  lemma ContinuationKeepsTimer(p: Provider, before: seq<Event>, id: string, reason: Reason, later: seq<Event>)
    requires Enabled(Replay(before), Create(id, reason)) && Walked(p, reason)
    ensures var t := After(before + [Create(id, reason)] + later);
            && id in t && reason.of in t
            && ((if reason.Retry? && t[reason.of].parentDeploymentId.Some? then reason.of !in Replay(before).closeFailed
                 else Nth(p, t, reason.of, LAST).None?) ==>
                  NoLater(ActiveSince(p, t, id), ActiveSince(p, t, reason.of)))
  {
    CreatedRow(before, id, reason, later);
    if reason.Retry? && After(before)[reason.of].parentDeploymentId.Some? {
      RetryKeepsTimer(p, before, id, reason.of, later);
    } else {
      LinkedTimer(p, After(before + [Create(id, reason)] + later), id, reason.of);
    }
  }

  // ---- Beyond the cap ----

  /** `n` rows, each a failover of the one before, and each activated one time unit after it. */
  function Id(n: nat): string {
    seq(n, _ => 'a')
  }

  function Created(n: nat): Event {
    Create(Id(n), if n <= 1 then Deploy else Failover(Id(n - 1)))
  }

  ghost function Failovers(n: nat): seq<Event> {
    if n == 0 then [] else Failovers(n - 1) + [Created(n)] + [Activate(Id(n), n - 1)]
  }

  function FailoverRow(n: nat): Row
    requires n > 0
  {
    Row(Some(n - 1), if n == 1 then None else Some(Id(n - 1)), None, None)
  }

  ghost predicate IsTower(w: World, n: nat) {
    && w.retried == {} && w.closeFailed == {}
    && (forall m: nat :: Id(m) in w.rows <==> 1 <= m <= n)
    && forall m: nat | 1 <= m <= n :: Id(m) in w.rows && w.rows[Id(m)] == FailoverRow(m)
  }

  lemma TowerGrows(w: World, n: nat)
    requires n > 0 && IsTower(w, n - 1)
    ensures IsTower(Apply(Apply(w, Created(n)), Activate(Id(n), n - 1)), n)
  {
    assert forall m: nat {:trigger Id(m)} :: |Id(m)| == m;
    var end := Apply(Apply(w, Created(n)), Activate(Id(n), n - 1));
    assert end == World(w.rows[Id(n) := FailoverRow(n)], {}, {});
  }

  lemma {:induction false} FailoverTable(n: nat)
    ensures IsTower(Replay(Failovers(n)), n)
  {
    if n == 0 {
    } else {
      FailoverTable(n - 1);
      TowerGrows(Replay(Failovers(n - 1)), n);
      ReplayStep(Failovers(n - 1), Created(n));
      ReplayStep(Failovers(n - 1) + [Created(n)], Activate(Id(n), n - 1));
    }
  }

  lemma TowerParent(w: World, n: nat, m: nat)
    requires 1 <= m <= n && IsTower(w, n)
    ensures Id(m) in w.rows && w.rows[Id(m)].activeSince == Some(m - 1)
    ensures m > 1 ==> ParentId(Akash, w.rows[Id(m)]) == Some(Id(m - 1)) && Id(m - 1) in w.rows
  {
    assert w.rows[Id(m)] == FailoverRow(m);
    if m > 1 { assert |Id(m - 1)| == m - 1; }
  }

  lemma {:induction false} TowerPosition(w: World, n: nat, k: nat)
    requires k < n && IsTower(w, n)
    ensures Nth(Akash, w.rows, Id(n), k) == Some(Id(n - k))
  {
    TowerParent(w, n, n);
    if k == 0 {
    } else {
      TowerPosition(w, n, k - 1);
      TowerParent(w, n, n - k + 1);
    }
  }

  lemma {:induction false} TowerSince(w: World, n: nat, k: nat)
    requires 1 <= k <= n && IsTower(w, n)
    ensures Since(Akash, w.rows, Id(n), k) == Some(n - k)
  {
    TowerPosition(w, n, k - 1);
    TowerParent(w, n, n - k + 1);
    if k == 1 {
      assert Since(Akash, w.rows, Id(n), 0) == None;
    } else {
      TowerSince(w, n, k - 1);
    }
  }

  /** Past the cap the timer does reset: every further failover moves it one row later. */
  lemma TimerSlidesPastCap(n: nat, cap: nat)
    requires cap == 100 <= n
    ensures ActiveSince(Akash, After(Failovers(n)), Id(n)) == Some(n - cap)
  {
    FailoverTable(n);
    TowerSince(Replay(Failovers(n)), n, cap);
  }
}
