/**
 src/lib/audit.ts: the write counters of the audit log, kept in five
 one-minute buckets, and the fire-and-forget write that bumps them.
 */
module AuditCounters {
  const BUCKET_MS := 60_000
  const BUCKETS := 5

  datatype Counters = Counters(attempted: nat, succeeded: nat, failed: nat, rejected: nat)

  datatype Field = Attempted | Succeeded | Failed | Rejected

  const ZERO := Counters(0, 0, 0, 0)

  function Plus(a: Counters, b: Counters): Counters {
    Counters(a.attempted + b.attempted, a.succeeded + b.succeeded, a.failed + b.failed, a.rejected + b.rejected)
  }

  function Unit(f: Field): Counters {
    match f
    case Attempted => Counters(1, 0, 0, 0)
    case Succeeded => Counters(0, 1, 0, 0)
    case Failed => Counters(0, 0, 1, 0)
    case Rejected => Counters(0, 0, 0, 1)
  }

  function Total(buckets: seq<Counters>): Counters {
    if buckets == [] then ZERO else Plus(Total(buckets[..|buckets| - 1]), buckets[|buckets| - 1])
  }

  lemma {:induction false} TotalUpdate(buckets: seq<Counters>, i: nat, c: Counters)
    requires i < |buckets|
    ensures Plus(Total(buckets[i := Plus(buckets[i], c)]), ZERO) == Plus(Total(buckets), c)
  {
    var n := |buckets| - 1;
    if i < n {
      assert buckets[i := Plus(buckets[i], c)][..n] == buckets[..n][i := Plus(buckets[i], c)];
      TotalUpdate(buckets[..n], i, c);
    } else {
      assert buckets[i := Plus(buckets[i], c)][..n] == buckets[..n];
    }
  }

  function BucketIndex(now: nat): (i: nat)
    ensures i < BUCKETS
  {
    now / BUCKET_MS % BUCKETS
  }

  function Bump(buckets: seq<Counters>, f: Field, now: nat): seq<Counters>
    requires |buckets| == BUCKETS
  {
    buckets[BucketIndex(now) := Plus(buckets[BucketIndex(now)], Unit(f))]
  }

  lemma BumpTotal(buckets: seq<Counters>, f: Field, now: nat)
    requires |buckets| == BUCKETS
    ensures var t, t' := Total(buckets), Total(Bump(buckets, f, now));
            && t'.attempted == t.attempted + (if f == Attempted then 1 else 0)
            && t'.succeeded == t.succeeded + (if f == Succeeded then 1 else 0)
            && t'.failed == t.failed + (if f == Failed then 1 else 0)
            && t'.rejected == t.rejected + if f == Rejected then 1 else 0
  {
    TotalUpdate(buckets, BucketIndex(now), Unit(f));
  }

  // ---- Interleavings of calls and settling writes ----

  datatype State = State(buckets: seq<Counters>, outstanding: nat)

  datatype Event =
    | Audit(now: nat, throws: bool)  // throws: sanitising or issuing the write threw
    | Settle(now: nat, ok: bool)     // the promise of an outstanding write settles

  function Step(s: State, e: Event): (s': State)
    requires |s.buckets| == BUCKETS
    ensures |s'.buckets| == BUCKETS
  {
    match e
    case Audit(now, throws) =>
      var attempted := Bump(s.buckets, Attempted, now);
      if throws then State(Bump(attempted, Rejected, now), s.outstanding) else State(attempted, s.outstanding + 1)
    case Settle(now, ok) =>
      if s.outstanding == 0 then s
      else State(Bump(s.buckets, if ok then Succeeded else Failed, now), s.outstanding - 1)
  }

  function Zeros(n: nat): (zeros: seq<Counters>)
    ensures |zeros| == n && forall i :: 0 <= i < n ==> zeros[i] == ZERO
  {
    if n == 0 then [] else Zeros(n - 1) + [ZERO]
  }

  function Run(events: seq<Event>): (s: State)
    ensures |s.buckets| == BUCKETS
  {
    if events == [] then State(Zeros(BUCKETS), 0)
    else Step(Run(events[..|events| - 1]), events[|events| - 1])
  }

  function Calls(events: seq<Event>): nat {
    if events == [] then 0
    else Calls(events[..|events| - 1]) + if events[|events| - 1].Audit? then 1 else 0
  }

  /**
   Over any interleaving, whatever the clock does: every attempt has succeeded,
   failed, been rejected or is still outstanding; and the totals are those of
   all calls ever made, since no bucket is cleared when its minute comes again.
   */
  lemma {:induction false} CountersBalance(events: seq<Event>)
    ensures var s := Run(events); var t := Total(s.buckets);
            && t.attempted == t.succeeded + t.failed + t.rejected + s.outstanding
            && t.attempted == Calls(events)
  {
    if events == [] {
      ZeroTotal(BUCKETS);
    } else {
      var s, e := Run(events[..|events| - 1]), events[|events| - 1];
      CountersBalance(events[..|events| - 1]);
      match e
      case Audit(now, throws) =>
        BumpTotal(s.buckets, Attempted, now);
        BumpTotal(Bump(s.buckets, Attempted, now), Rejected, now);
      case Settle(now, ok) => BumpTotal(s.buckets, if ok then Succeeded else Failed, now);
    }
  }

  // ---- Which events each counter counts ----

  /** The writes that have been issued and have not settled. */
  function Outstanding(events: seq<Event>): nat {
    if events == [] then 0
    else
      var before, e := Outstanding(events[..|events| - 1]), events[|events| - 1];
      if e.Audit? then (if e.throws then before else before + 1)
      else if before > 0 then before - 1
      else 0
  }

  /** What the event at `n` counts as besides an attempt, if anything. */
  function Outcome(events: seq<Event>, n: nat): set<Field>
    requires n < |events|
  {
    match events[n]
    case Audit(_, throws) => if throws then {Rejected} else {}
    case Settle(_, ok) => if Outstanding(events[..n]) == 0 then {} else if ok then {Succeeded} else {Failed}
  }

  function Counted(events: seq<Event>, n: nat): set<Field>
    requires n < |events|
  {
    Outcome(events, n) + if events[n].Audit? then {Attempted} else {}
  }

  /** How many of the first `n` events count as `f` in the bucket of their minute, modulo five, being `b`. */
  function Tally(events: seq<Event>, n: nat, b: nat, f: Field): nat
    requires n <= |events|
  {
    if n == 0 then 0
    else
      Tally(events, n - 1, b, f) +
      if f in Counted(events, n - 1) && events[n - 1].now / 60_000 % 5 == b then 1 else 0
  }

  function Get(c: Counters, f: Field): nat {
    match f
    case Attempted => c.attempted
    case Succeeded => c.succeeded
    case Failed => c.failed
    case Rejected => c.rejected
  }

  lemma BumpMeaning(buckets: seq<Counters>, f: Field, now: nat, b: nat, g: Field)
    requires |buckets| == 5 && b < 5
    ensures Get(Bump(buckets, f, now)[b], g) == Get(buckets[b], g) + if f == g && now / 60_000 % 5 == b then 1 else 0
  {
  }

  lemma StepMeaning(s: State, e: Event, b: nat, g: Field)
    requires |s.buckets| == 5 && b < 5
    ensures var counted :=
              if e.Audit? then {Attempted} + (if e.throws then {Rejected} else {})
              else if s.outstanding == 0 then {}
              else if e.ok then {Succeeded} else {Failed};
            Get(Step(s, e).buckets[b], g) ==
            Get(s.buckets[b], g) + if g in counted && e.now / 60_000 % 5 == b then 1 else 0
  {
    match e
    case Audit(now, throws) =>
      BumpMeaning(s.buckets, Attempted, now, b, g);
      BumpMeaning(Bump(s.buckets, Attempted, now), Rejected, now, b, g);
    case Settle(now, ok) => BumpMeaning(s.buckets, if ok then Succeeded else Failed, now, b, g);
  }

  /** Every counter of every bucket holds exactly the events of its own kind, of all minutes that share the bucket. */
  lemma {:induction false} BucketsTally(events: seq<Event>, n: nat, b: nat, f: Field)
    requires n <= |events| && b < 5
    ensures Run(events[..n]).outstanding == Outstanding(events[..n])
    ensures Get(Run(events[..n]).buckets[b], f) == Tally(events, n, b, f)
  {
    if n == 0 {
    } else {
      assert events[..n][..n - 1] == events[..n - 1] && events[..n][n - 1] == events[n - 1];
      BucketsTally(events, n - 1, b, f);
      StepMeaning(Run(events[..n - 1]), events[n - 1], b, f);
    }
  }

  lemma PlusZero(c: Counters)
    ensures Plus(c, ZERO) == c
  {
  }

  lemma {:induction false} ZeroTotal(n: nat)
    ensures Total(Zeros(n)) == ZERO
  {
    if n == 0 {
      assert Zeros(0) == [];
    } else {
      var fewer := Zeros(n - 1);
      assert Zeros(n)[..n - 1] == fewer;
      PlusZero(Total(fewer));
      ZeroTotal(n - 1);
    }
  }

  // ---- The module's own state ----

  class AuditLog {
    const buckets: array<Counters>
    ghost var outstanding: nat

    ghost predicate Valid()
      reads this, buckets
    {
      buckets.Length == BUCKETS
    }

    ghost function Now(): State
      reads this, buckets
    {
      State(buckets[..], outstanding)
    }

    constructor ()
      ensures Valid() && fresh(buckets) && Now() == Run([])
    {
      buckets := new Counters[BUCKETS](_ => ZERO);
      outstanding := 0;
      new;
      assert buckets[..] == Zeros(BUCKETS);
    }

    method BumpCounter(f: Field, now: nat)
      requires Valid()
      modifies buckets
      ensures Valid() && buckets[..] == Bump(old(buckets[..]), f, now)
    {
      var i := BucketIndex(now);
      buckets[i] := Plus(buckets[i], Unit(f));
    }

    method GetAuditWriteStats() returns (totals: Counters)
      requires Valid()
      ensures totals == Total(buckets[..])
    {
      totals := ZERO;
      for i := 0 to buckets.Length
        invariant totals == Total(buckets[..i])
      {
        assert buckets[..i + 1][..i] == buckets[..i];
        totals := Plus(totals, buckets[i]);
      }
      assert buckets[..buckets.Length] == buckets[..];
    }

    method Audit(now: nat, throws: bool)
      requires Valid()
      modifies this, buckets
      ensures Valid() && Now() == Step(old(Now()), Event.Audit(now, throws))
    {
      BumpCounter(Attempted, now);
      if throws {
        BumpCounter(Rejected, now);
      } else {
        outstanding := outstanding + 1;
      }
    }

    method Settle(now: nat, ok: bool)
      requires Valid() && outstanding > 0
      modifies this, buckets
      ensures Valid() && Now() == Step(old(Now()), Event.Settle(now, ok))
    {
      BumpCounter(if ok then Succeeded else Failed, now);
      outstanding := outstanding - 1;
    }
  }
}
