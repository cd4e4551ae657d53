/**
 scripts/reconcile-akash-leases.ts: compare the chain with the deployment
 table, classify every dseq, and repair both sides.
 */
module Reconciler {
  import opened Option
  import opened OrderedMap
  import opened LeaseWorld

  /**
   What the report says about one dseq. `Unreported` is a listed dseq whose
   row has a status the script ignores (in progress, CLOSE_FAILED, ...).
   */
  datatype Finding = Orphan | Leak | Zombie | Mismatch | Healthy | Unreported | Settled

  datatype Flags = Flags(closeOrphans: bool, fixZombies: bool)

  datatype Report = Report(
    orphans: seq<int>, suspendedLeaks: seq<int>, zombies: seq<int>, mismatches: seq<int>, active: seq<int>)

  // ---- What the two stores say about a dseq ----

  /** The status `loadDbRows` keeps: rows overwrite earlier ones, placeholders are skipped. */
  function LastStatus(rows: seq<Row>, d: int): Option<Status> {
    if rows == [] then None
    else
      var last := rows[|rows| - 1];
      if d > 0 && last.dseq == d then Some(last.status) else LastStatus(rows[..|rows| - 1], d)
  }

  function Classify(listed: bool, open: bool, status: Option<Status>): Finding {
    match status
    case None => if listed then Orphan else Settled
    case Some(s) =>
      if s == ACTIVE then (if !listed then Zombie else if open then Healthy else Mismatch)
      else if !listed then Settled
      else if s in {CLOSED, PERMANENTLY_FAILED, FAILED, SUSPENDED} then Leak
      else Unreported
  }

  function FindingOf(w: World, d: int): Finding {
    Classify(d in w.chain, d in w.chain && w.chain[d] == "open", LastStatus(w.rows, d))
  }

  predicate IsProblem(f: Finding) {
    f in {Orphan, Leak, Zombie, Mismatch}
  }

  ghost predicate AllClear(w: World) {
    forall d :: !IsProblem(FindingOf(w, d))
  }

  // ---- One round, dseq by dseq ----

  predicate ClosesOnChain(f: Finding, flags: Flags) {
    flags.closeOrphans && f in {Orphan, Leak}
  }

  predicate FixesRow(f: Finding, flags: Flags) {
    flags.fixZombies && f in {Zombie, Mismatch}
  }

  function SyncedStatus(s: Status): Status {
    if s in {CLOSED, PERMANENTLY_FAILED} then s else CLOSED
  }

  function StatusAfter(f: Finding, s: Status, flags: Flags, answer: CloseAnswer): Status {
    if ClosesOnChain(f, flags) && answer.Succeeded() then SyncedStatus(s)
    else if FixesRow(f, flags) && s == ACTIVE then CLOSED
    else s
  }

  function Round(w: World, flags: Flags, answers: int -> CloseAnswer): World {
    World(
      map d | d in w.chain && !(ClosesOnChain(FindingOf(w, d), flags) && answers(d).Removes()) :: w.chain[d],
      seq(|w.rows|, i requires 0 <= i < |w.rows| => RowAfter(w, w.rows[i], flags, answers)))
  }

  function RowAfter(w: World, r: Row, flags: Flags, answers: int -> CloseAnswer): Row {
    r.(status := StatusAfter(FindingOf(w, r.dseq), r.status, flags, answers(r.dseq)))
  }

  /** The finding's repair worked: its lease left the chain, or its row was corrected. */
  predicate Repaired(f: Finding, flags: Flags, answer: CloseAnswer) {
    (ClosesOnChain(f, flags) && answer.Removes()) || FixesRow(f, flags)
  }

  /** A round changes the status kept for a dseq as it changes each of its rows. */
  lemma {:induction false} LastStatusOfRound(w: World, flags: Flags, answers: int -> CloseAnswer, n: nat, d: int)
    requires n <= |w.rows|
    ensures var before := LastStatus(w.rows[..n], d);
            LastStatus(Round(w, flags, answers).rows[..n], d) ==
            if before.None? then None
            else Some(StatusAfter(FindingOf(w, d), before.value, flags, answers(d)))
  {
    if n == 0 {
    } else {
      var rows' := Round(w, flags, answers).rows;
      assert w.rows[..n][..n - 1] == w.rows[..n - 1];
      assert rows'[..n][..n - 1] == rows'[..n - 1];
      LastStatusOfRound(w, flags, answers, n - 1, d);
    }
  }

  /** The finding a round leaves behind, from the finding it met. */
  function NextFinding(f: Finding, flags: Flags, answer: CloseAnswer): Finding {
    if !Repaired(f, flags, answer) then f
    else if f == Mismatch then Leak
    else Settled
  }

  lemma RoundFinding(w: World, flags: Flags, answers: int -> CloseAnswer, d: int)
    ensures FindingOf(Round(w, flags, answers), d) == NextFinding(FindingOf(w, d), flags, answers(d))
  {
    var w' := Round(w, flags, answers);
    assert w.rows[..|w.rows|] == w.rows && w'.rows[..|w.rows|] == w'.rows;
    LastStatusOfRound(w, flags, answers, |w.rows|, d);
  }

  // ---- A round in terms of leases and rows ----

  /** The status kept for a dseq is that of its last row. */
  lemma {:induction false} LastStatusMeaning(rows: seq<Row>, i: nat)
    requires i < |rows| && rows[i].dseq > 0 && forall j :: i < j < |rows| ==> rows[j].dseq != rows[i].dseq
    ensures LastStatus(rows, rows[i].dseq) == Some(rows[i].status)
  {
    if i == |rows| - 1 {
    } else {
      assert rows[..|rows| - 1][i] == rows[i];
      LastStatusMeaning(rows[..|rows| - 1], i);
    }
  }

  /** A placeholder's dseq, and one without a row, has none. */
  lemma {:induction false} NoStatus(rows: seq<Row>, d: int)
    requires d <= 0 || forall r :: r in rows ==> r.dseq != d
    ensures LastStatus(rows, d) == None
  {
    if rows == [] {
    } else {
      NoStatus(rows[..|rows| - 1], d);
    }
  }

  /** What the report says of a dseq, from its lease and the status of its last row. */
  lemma FindingMeaning(w: World, d: int)
    ensures var f, kept, listed := FindingOf(w, d), LastStatus(w.rows, d), d in w.chain;
            && (f == Orphan <==> listed && kept == None)
            && (f == Leak <==>
                  listed && (kept == Some(CLOSED) || kept == Some(FAILED) ||
                             kept == Some(PERMANENTLY_FAILED) || kept == Some(SUSPENDED)))
            && (f == Zombie <==> !listed && kept == Some(ACTIVE))
            && (f == Mismatch <==> listed && w.chain[d] != "open" && kept == Some(ACTIVE))
            && (f == Healthy <==> listed && w.chain[d] == "open" && kept == Some(ACTIVE))
            && (f == Settled <==> !listed && kept != Some(ACTIVE))
  {
  }

  /**
   A round removes exactly the leases of orphans and leaks whose close did not
   fail without effect, and does not change the others.
   */
  lemma ChainAfterRound(w: World, flags: Flags, answers: int -> CloseAnswer, d: int)
    ensures var w', kept := Round(w, flags, answers), LastStatus(w.rows, d);
            && (d in w'.chain <==>
                  && d in w.chain
                  && !(&& flags.closeOrphans
                       && (kept.None? || kept.value in {CLOSED, FAILED, PERMANENTLY_FAILED, SUSPENDED})
                       && answers(d) !in {ReportedFailed(false), Threw(false, false)}))
            && (d in w'.chain ==> w'.chain[d] == w.chain[d])
  {
  }

  /**
   Every row after a round. A lease without an ACTIVE or unfinished row whose
   close is reported successful leaves its rows CLOSED or PERMANENTLY_FAILED; an
   ACTIVE row whose lease is gone or no longer open is CLOSED on request; every
   other row is unchanged.
   */
  lemma RowAfterRound(w: World, flags: Flags, answers: int -> CloseAnswer, i: nat)
    requires i < |w.rows|
    ensures |Round(w, flags, answers).rows| == |w.rows|
    ensures var r, r' := w.rows[i], Round(w, flags, answers).rows[i];
            var kept, listed := LastStatus(w.rows, r.dseq), r.dseq in w.chain;
            if flags.closeOrphans && listed && answers(r.dseq) in {ReportedClosed, ReportedGone} &&
               (kept.None? || kept.value in {CLOSED, FAILED, PERMANENTLY_FAILED, SUSPENDED})
            then
              r' == r.(status := if r.status == PERMANENTLY_FAILED then PERMANENTLY_FAILED else CLOSED)
            else if flags.fixZombies && r.status == ACTIVE && kept == Some(ACTIVE) &&
                    (!listed || w.chain[r.dseq] != "open")
            then r' == r.(status := CLOSED)
            else r' == r
  {
  }

  // ---- Convergence ----

  ghost predicate AllSucceed(answers: int -> CloseAnswer) {
    forall d :: answers(d).Succeeded()
  }

  const BOTH := Flags(true, true)

  /** With every close succeeding, one round clears the report iff it held no mismatch. */
  lemma OneRoundSuffices(w: World, answers: int -> CloseAnswer)
    requires AllSucceed(answers)
    ensures AllClear(Round(w, BOTH, answers)) <==> forall d :: FindingOf(w, d) != Mismatch
  {
    forall d { RoundFinding(w, BOTH, answers, d); }
    if m :| FindingOf(w, m) == Mismatch {
      assert IsProblem(FindingOf(Round(w, BOTH, answers), m));
    }
  }

  /** Two rounds always do, whatever state the stores were in. */
  lemma TwoRoundsConverge(w: World, first: int -> CloseAnswer, second: int -> CloseAnswer)
    requires AllSucceed(first) && AllSucceed(second)
    ensures AllClear(Round(Round(w, BOTH, first), BOTH, second))
  {
    var w' := Round(w, BOTH, first);
    forall d { RoundFinding(w, BOTH, first, d); }
    OneRoundSuffices(w', second);
  }

  /** Once the report is clear, no further round writes anything, whatever its flags. */
  lemma ClearIsFixpoint(w: World, flags: Flags, answers: int -> CloseAnswer)
    requires AllClear(w)
    ensures Round(w, flags, answers) == w
  {
  }

  // ---- Failures ----

  ghost function Dseqs(w: World): set<int> {
    w.chain.Keys + set r | r in w.rows :: r.dseq
  }

  ghost function Having(w: World, f: Finding): set<int> {
    set d | d in Dseqs(w) && FindingOf(w, d) == f
  }

  /** Every finding is about a dseq one of the stores knows. */
  lemma {:induction false} StatusHasRow(rows: seq<Row>, d: int)
    ensures LastStatus(rows, d).Some? ==> d > 0 && exists r :: r in rows && r.dseq == d
  {
    if rows == [] {
    } else {
      StatusHasRow(rows[..|rows| - 1], d);
    }
  }

  lemma HavingIsComplete(w: World, f: Finding)
    requires f != Settled
    ensures forall d :: d in Having(w, f) <==> FindingOf(w, d) == f
  {
    forall d { StatusHasRow(w.rows, d); }
  }

  /** What is left to repair: a mismatch counts twice, as it must pass through a leak. */
  ghost function Backlog(w: World): nat {
    |Having(w, Orphan)| + |Having(w, Leak)| + |Having(w, Zombie)| + 2 * |Having(w, Mismatch)|
  }

  /** The dseqs with a finding that this round repaired. */
  ghost function Repairs(w: World, flags: Flags, answers: int -> CloseAnswer): set<int> {
    set d | d in Dseqs(w) && Repaired(FindingOf(w, d), flags, answers(d))
  }

  /** How a round moves the dseqs between the findings. */
  lemma RoundMoves(w: World, flags: Flags, answers: int -> CloseAnswer, f: Finding)
    requires IsProblem(f)
    ensures var w', p := Round(w, flags, answers), Repairs(w, flags, answers);
            Having(w', f) == if f == Leak then (Having(w, Leak) - p) + Having(w, Mismatch) * p else Having(w, f) - p
  {
    var w', p := Round(w, flags, answers), Repairs(w, flags, answers);
    forall d { RoundFinding(w, flags, answers, d); }
    HavingIsComplete(w, f);
    HavingIsComplete(w', f);
    HavingIsComplete(w, Mismatch);
    forall d
      ensures d in p <==> Repaired(FindingOf(w, d), flags, answers(d))
    {
      StatusHasRow(w.rows, d);
    }
    forall d
      ensures d in Having(w', f) <==> NextFinding(FindingOf(w, d), flags, answers(d)) == f
    {
      assert FindingOf(w', d) == NextFinding(FindingOf(w, d), flags, answers(d));
    }
  }

  lemma RepairsAreFindings(w: World, flags: Flags, answers: int -> CloseAnswer)
    ensures Having(w, Orphan) !! Having(w, Leak) !! Having(w, Zombie) !! Having(w, Mismatch)
    ensures Repairs(w, flags, answers) <=
            Having(w, Orphan) + Having(w, Leak) + Having(w, Zombie) + Having(w, Mismatch)
  {
  }

  lemma DifferenceSize(a: set<int>, b: set<int>)
    ensures |a - b| == |a| - |a * b|
  {
  }

  lemma CountMoves(o: set<int>, l: set<int>, z: set<int>, m: set<int>, p: set<int>)
    requires o !! l !! z !! m
    requires p <= o + l + z + m
    ensures |o - p| + |(l - p) + m * p| + |z - p| + 2 * |m - p| == |o| + |l| + |z| + 2 * |m| - |p|
  {
    DifferenceSize(o, p); DifferenceSize(l, p); DifferenceSize(z, p); DifferenceSize(m, p);
    assert (l - p) !! (m * p);
    assert p == ((o * p + l * p) + z * p) + m * p;
  }

  /**
   For every pattern of failed and throwing closes, a round lowers the backlog
   by exactly the number of findings it repaired: it never grows, and it
   drops as soon as one repair works.
   */
  lemma RoundLowersBacklog(w: World, flags: Flags, answers: int -> CloseAnswer)
    ensures Backlog(Round(w, flags, answers)) == Backlog(w) - |Repairs(w, flags, answers)|
  {
    var o, l, z, m := Having(w, Orphan), Having(w, Leak), Having(w, Zombie), Having(w, Mismatch);
    var p := Repairs(w, flags, answers);
    var w' := Round(w, flags, answers);
    assert Backlog(w') == |o - p| + |(l - p) + m * p| + |z - p| + 2 * |m - p| by {
      RoundMoves(w, flags, answers, Orphan);
      RoundMoves(w, flags, answers, Leak);
      RoundMoves(w, flags, answers, Zombie);
      RoundMoves(w, flags, answers, Mismatch);
    }
    RepairsAreFindings(w, flags, answers);
    CountMoves(o, l, z, m, p);
  }

  datatype RoundInput = RoundInput(flags: Flags, answers: int -> CloseAnswer)

  ghost function RunRounds(w: World, rounds: seq<RoundInput>): World
    decreases |rounds|
  {
    if rounds == [] then w
    else RunRounds(Round(w, rounds[0].flags, rounds[0].answers), rounds[1..])
  }

  ghost function TotalRepairs(w: World, rounds: seq<RoundInput>): nat
    decreases |rounds|
  {
    if rounds == [] then 0
    else
      |Repairs(w, rounds[0].flags, rounds[0].answers)| +
      TotalRepairs(Round(w, rounds[0].flags, rounds[0].answers), rounds[1..])
  }

  /** Over any run of rounds the repairs add up to the fall of the backlog, so they are bounded by it. */
  lemma {:induction false} RepairsAreBounded(w: World, rounds: seq<RoundInput>)
    ensures TotalRepairs(w, rounds) == Backlog(w) - Backlog(RunRounds(w, rounds))
    ensures TotalRepairs(w, rounds) <= Backlog(w)
    decreases |rounds|
  {
    if rounds == [] {
    } else {
      RoundLowersBacklog(w, rounds[0].flags, rounds[0].answers);
      RepairsAreBounded(Round(w, rounds[0].flags, rounds[0].answers), rounds[1..]);
    }
  }

  /** No round, whatever fails, touches the lease or the rows of a dseq without a finding. */
  lemma HealthyUntouched(w: World, flags: Flags, answers: int -> CloseAnswer, d: int)
    requires !IsProblem(FindingOf(w, d))
    ensures var w' := Round(w, flags, answers);
            && (d in w'.chain <==> d in w.chain)
            && (d in w.chain ==> w'.chain[d] == w.chain[d])
            && forall i :: 0 <= i < |w.rows| && w.rows[i].dseq == d ==> w'.rows[i] == w.rows[i]
  {
  }

  // ---- What an all-clear report does and does not say ----

  ghost predicate UniqueDseqs(rows: seq<Row>) {
    forall i, j :: 0 <= i < j < |rows| && rows[i].dseq == rows[j].dseq ==> rows[i].dseq <= 0
  }

  lemma UniqueStatus(rows: seq<Row>, i: nat)
    requires UniqueDseqs(rows) && i < |rows| && rows[i].dseq > 0
    ensures LastStatus(rows, rows[i].dseq) == Some(rows[i].status)
  {
    LastStatusMeaning(rows, i);
  }

  /** With unique dseqs, what a round leaves of a row depends on that row and its lease alone. */
  lemma UniqueRowAfterRound(w: World, flags: Flags, answers: int -> CloseAnswer, i: nat)
    requires UniqueDseqs(w.rows) && i < |w.rows| && w.rows[i].dseq > 0
    ensures var r, r' := w.rows[i], Round(w, flags, answers).rows[i];
            var listed := r.dseq in w.chain;
            r' == r.(status :=
              if flags.closeOrphans && listed && answers(r.dseq) in {ReportedClosed, ReportedGone} &&
                 r.status in {CLOSED, FAILED, SUSPENDED} then CLOSED
              else if flags.fixZombies && r.status == ACTIVE && (!listed || w.chain[r.dseq] != "open") then CLOSED
              else r.status)
  {
    UniqueStatus(w.rows, i);
    RowAfterRound(w, flags, answers, i);
  }

  /** Row `r` explains why dseq `d` is listed. */
  predicate AccountsFor(w: World, r: Row, d: int)
    requires d in w.chain
  {
    && r.dseq == d > 0
    && if r.status == ACTIVE then w.chain[d] == "open"
       else r.status !in {CLOSED, PERMANENTLY_FAILED, FAILED, SUSPENDED}
  }

  /**
   An all-clear report means: every listed lease belongs to an ACTIVE row and
   is open, or to a row in a status the script passes over, and every ACTIVE
   row has its lease. A CLOSE_FAILED row whose lease still runs is among
   those passed over.
   */
  lemma AllClearMeaning(w: World)
    requires UniqueDseqs(w.rows)
    ensures AllClear(w) <==>
            && (forall d :: d in w.chain ==>
                  exists i :: 0 <= i < |w.rows| && AccountsFor(w, w.rows[i], d))
            && (forall i :: 0 <= i < |w.rows| && w.rows[i].dseq > 0 && w.rows[i].status == ACTIVE ==>
                  w.rows[i].dseq in w.chain)
  {
    forall i | 0 <= i < |w.rows| && w.rows[i].dseq > 0 { UniqueStatus(w.rows, i); }
    forall d { StatusHasRow(w.rows, d); }
    if AllClear(w) {
      forall d | d in w.chain
        ensures exists i :: 0 <= i < |w.rows| && AccountsFor(w, w.rows[i], d)
      {
        assert !IsProblem(FindingOf(w, d));
        var r :| r in w.rows && r.dseq == d;
        var i :| 0 <= i < |w.rows| && w.rows[i] == r;
      }
      forall i | 0 <= i < |w.rows| && w.rows[i].dseq > 0 && w.rows[i].status == ACTIVE
        ensures w.rows[i].dseq in w.chain
      {
        assert !IsProblem(FindingOf(w, w.rows[i].dseq));
      }
    } else {
      var d :| IsProblem(FindingOf(w, d));
      if d in w.chain {
      } else {
        var r :| r in w.rows && r.dseq == d;
        var i :| 0 <= i < |w.rows| && w.rows[i] == r;
      }
    }
  }

  // ---- The script itself ----

  /** `s` lists, once each, the dseqs among the first `n` of `order` whose finding is in `fs`. */
  ghost predicate ListsUpTo(s: seq<int>, order: seq<int>, n: nat, w: World, fs: set<Finding>)
    requires n <= |order|
  {
    && NoDuplicates(s)
    && forall d :: d in s <==> d in order[..n] && FindingOf(w, d) in fs
  }

  ghost predicate Lists(s: seq<int>, w: World, fs: set<Finding>) {
    && NoDuplicates(s)
    && forall d :: d in s <==> FindingOf(w, d) in fs
  }

  lemma ListsNext(s: seq<int>, order: seq<int>, n: nat, w: World, fs: set<Finding>)
    requires NoDuplicates(order) && n < |order|
    requires ListsUpTo(s, order, n, w, fs)
    ensures ListsUpTo(if FindingOf(w, order[n]) in fs then s + [order[n]] else s, order, n + 1, w, fs)
  {
  }

  /** The three lists of the pass over the listed dseqs, after the first `n` of them. */
  ghost predicate Scanned(
    orphans: seq<int>, leaks: seq<int>, active: seq<int>, order: seq<int>, n: nat, w: World)
    requires n <= |order|
  {
    && ListsUpTo(orphans, order, n, w, {Orphan})
    && ListsUpTo(leaks, order, n, w, {Leak})
    && ListsUpTo(active, order, n, w, {Healthy, Mismatch})
  }

  lemma ScanNext(orphans: seq<int>, leaks: seq<int>, active: seq<int>, order: seq<int>, n: nat, w: World)
    requires NoDuplicates(order) && n < |order| && Scanned(orphans, leaks, active, order, n, w)
    ensures var d, f := order[n], FindingOf(w, order[n]);
            Scanned(
              if f == Orphan then orphans + [d] else orphans,
              if f == Leak then leaks + [d] else leaks,
              if f in {Healthy, Mismatch} then active + [d] else active,
              order, n + 1, w)
  {
    ListsNext(orphans, order, n, w, {Orphan});
    ListsNext(leaks, order, n, w, {Leak});
    ListsNext(active, order, n, w, {Healthy, Mismatch});
  }

  lemma ScanEnds(orphans: seq<int>, leaks: seq<int>, active: seq<int>, order: seq<int>, w: World)
    requires Scanned(orphans, leaks, active, order, |order|, w) && forall d :: d in w.chain ==> d in order
    ensures Lists(orphans, w, {Orphan}) && Lists(leaks, w, {Leak}) && Lists(active, w, {Healthy, Mismatch})
  {
    ListsAll(orphans, order, w, {Orphan});
    ListsAll(leaks, order, w, {Leak});
    ListsAll(active, order, w, {Healthy, Mismatch});
  }

  lemma ListsAll(s: seq<int>, order: seq<int>, w: World, fs: set<Finding>)
    requires ListsUpTo(s, order, |order|, w, fs)
    requires forall d :: FindingOf(w, d) in fs ==> d in order
    ensures Lists(s, w, fs)
  {
  }

  /** Prisma's `updateMany` on the rows of one dseq. */
  function UpdateMany(rows: seq<Row>, dseq: int, update: Status -> Status): seq<Row> {
    seq(|rows|, i requires 0 <= i < |rows| =>
      if rows[i].dseq == dseq then rows[i].(status := update(rows[i].status)) else rows[i])
  }

  function SyncRows(rows: seq<Row>, dseqs: seq<int>, answers: int -> CloseAnswer): seq<Row> {
    seq(|rows|, i requires 0 <= i < |rows| =>
      if rows[i].dseq in dseqs && answers(rows[i].dseq).Succeeded()
      then rows[i].(status := SyncedStatus(rows[i].status)) else rows[i])
  }

  function CloseActive(rows: seq<Row>, dseqs: seq<int>): seq<Row> {
    seq(|rows|, i requires 0 <= i < |rows| =>
      if rows[i].dseq in dseqs && rows[i].status == ACTIVE then rows[i].(status := CLOSED) else rows[i])
  }

  /** The chain and the rows the repairs of a report leave are those of the round. */
  lemma RepairsAreRound(w: World, flags: Flags, answers: int -> CloseAnswer, r: Report, w': World)
    requires Lists(r.orphans, w, {Orphan}) && Lists(r.suspendedLeaks, w, {Leak})
    requires Lists(r.zombies, w, {Zombie}) && Lists(r.mismatches, w, {Mismatch})
    requires forall d :: d in w'.chain <==>
               d in w.chain && !(flags.closeOrphans && d in r.orphans + r.suspendedLeaks && answers(d).Removes())
    requires forall d :: d in w'.chain ==> w'.chain[d] == w.chain[d]
    requires var closed := r.orphans + r.suspendedLeaks;
             var synced := if flags.closeOrphans then SyncRows(w.rows, closed, answers) else w.rows;
             w'.rows == if flags.fixZombies then CloseActive(CloseActive(synced, r.zombies), r.mismatches) else synced
    ensures w' == Round(w, flags, answers)
  {
    RepairedChain(w, flags, answers, r, w');
    RepairedRows(w, flags, answers, r, w');
  }

  lemma RepairedChain(w: World, flags: Flags, answers: int -> CloseAnswer, r: Report, w': World)
    requires Lists(r.orphans, w, {Orphan}) && Lists(r.suspendedLeaks, w, {Leak})
    requires forall d :: d in w'.chain <==>
               d in w.chain && !(flags.closeOrphans && d in r.orphans + r.suspendedLeaks && answers(d).Removes())
    requires forall d :: d in w'.chain ==> w'.chain[d] == w.chain[d]
    ensures w'.chain == Round(w, flags, answers).chain
  {
    var after := Round(w, flags, answers).chain;
    forall d | d in w.chain
      ensures d in after <==> d in w'.chain
    {
      assert d in r.orphans + r.suspendedLeaks <==> FindingOf(w, d) in {Orphan, Leak};
    }
    assert forall d | d in w'.chain :: d in after && after[d] == w'.chain[d];
    assert forall d | d in after :: d in w'.chain;
  }

  lemma RepairedRows(w: World, flags: Flags, answers: int -> CloseAnswer, r: Report, w': World)
    requires Lists(r.orphans, w, {Orphan}) && Lists(r.suspendedLeaks, w, {Leak})
    requires Lists(r.zombies, w, {Zombie}) && Lists(r.mismatches, w, {Mismatch})
    requires var closed := r.orphans + r.suspendedLeaks;
             var synced := if flags.closeOrphans then SyncRows(w.rows, closed, answers) else w.rows;
             w'.rows == if flags.fixZombies then CloseActive(CloseActive(synced, r.zombies), r.mismatches) else synced
    ensures w'.rows == Round(w, flags, answers).rows
  {
  }

  class Script {
    var chain: OrderedMap<int, string>  // in the order the deployment query lists it
    var rows: seq<Row>

    ghost predicate Valid()
      reads this
    {
      chain.Valid()
    }

    ghost function State(): World
      reads this
    {
      World(chain.at, rows)
    }

    constructor (chain: OrderedMap<int, string>, rows: seq<Row>)
      requires chain.Valid()
      ensures Valid() && State() == World(chain.at, rows)
    {
      this.chain, this.rows := chain, rows;
    }

    ghost predicate Loaded(byDseq: OrderedMap<int, Status>)
      reads this
    {
      && byDseq.Valid()
      && forall d :: LastStatus(rows, d) == if d in byDseq.at then Some(byDseq.at[d]) else None
    }

    method LoadDbRows() returns (byDseq: OrderedMap<int, Status>)
      ensures Loaded(byDseq)
    {
      byDseq := Empty();
      for i := 0 to |rows|
        invariant byDseq.Valid()
        invariant forall d :: LastStatus(rows[..i], d) == if d in byDseq.at then Some(byDseq.at[d]) else None
      {
        assert rows[..i + 1][..i] == rows[..i];
        if rows[i].dseq > 0 {
          byDseq := byDseq.Set(rows[i].dseq, rows[i].status);
        }
      }
      assert rows[..|rows|] == rows;
    }

    /** `buildReport`'s pass over the listed dseqs. */
    method ScanChain(db: OrderedMap<int, Status>) returns (orphans: seq<int>, leaks: seq<int>, active: seq<int>)
      requires Valid() && Loaded(db)
      ensures Lists(orphans, State(), {Orphan})
      ensures Lists(leaks, State(), {Leak})
      ensures Lists(active, State(), {Healthy, Mismatch})
    {
      ghost var w := State();
      orphans, leaks, active := [], [], [];
      for i := 0 to |chain.order|
        invariant Scanned(orphans, leaks, active, chain.order, i, w)
      {
        var d := chain.order[i];
        ScanNext(orphans, leaks, active, chain.order, i, w);
        assert FindingOf(w, d) ==
               Classify(true, w.chain[d] == "open", if d in db.at then Some(db.at[d]) else None);
        if d !in db.at {
          orphans := orphans + [d];
        } else if db.at[d] == ACTIVE {
          active := active + [d];
        } else if db.at[d] in {CLOSED, PERMANENTLY_FAILED, FAILED, SUSPENDED} {
          leaks := leaks + [d];
        }
      }
      ScanEnds(orphans, leaks, active, chain.order, w);
    }

    /** `buildReport`'s pass over the rows. */
    method ScanRows(db: OrderedMap<int, Status>) returns (zombies: seq<int>, mismatches: seq<int>)
      requires Valid() && Loaded(db)
      ensures Lists(zombies, State(), {Zombie})
      ensures Lists(mismatches, State(), {Mismatch})
    {
      ghost var w := State();
      zombies, mismatches := [], [];
      for i := 0 to |db.order|
        invariant ListsUpTo(zombies, db.order, i, w, {Zombie})
        invariant ListsUpTo(mismatches, db.order, i, w, {Mismatch})
      {
        var d := db.order[i];
        ListsNext(zombies, db.order, i, w, {Zombie});
        ListsNext(mismatches, db.order, i, w, {Mismatch});
        if db.at[d] == ACTIVE {
          if d !in chain.at {
            zombies := zombies + [d];
          } else if chain.at[d] != "open" {
            mismatches := mismatches + [d];
          }
        }
      }
      ListsAll(zombies, db.order, w, {Zombie});
      ListsAll(mismatches, db.order, w, {Mismatch});
    }

    method BuildReport() returns (r: Report)
      requires Valid()
      ensures Lists(r.orphans, State(), {Orphan})
      ensures Lists(r.suspendedLeaks, State(), {Leak})
      ensures Lists(r.zombies, State(), {Zombie})
      ensures Lists(r.mismatches, State(), {Mismatch})
      // The report's "healthy" list also holds every mismatch.
      ensures Lists(r.active, State(), {Healthy, Mismatch})
    {
      var db := LoadDbRows();
      var orphans, leaks, active := ScanChain(db);
      var zombies, mismatches := ScanRows(db);
      r := Report(orphans, leaks, zombies, mismatches, active);
    }

    method CloseOnChain(dseqs: seq<int>, answers: int -> CloseAnswer)
      requires Valid() && NoDuplicates(dseqs)
      modifies this
      ensures Valid()
      ensures forall d :: d in chain.at <==> d in old(chain).at && !(d in dseqs && answers(d).Removes())
      ensures forall d :: d in chain.at ==> chain.at[d] == old(chain).at[d]
      ensures rows == SyncRows(old(rows), dseqs, answers)
      ensures |rows| == |old(rows)| && forall i :: 0 <= i < |rows| ==>
                var r := old(rows)[i];
                rows[i] == if r.dseq in dseqs && answers(r.dseq) in {ReportedClosed, ReportedGone} &&
                              r.status != PERMANENTLY_FAILED then r.(status := CLOSED) else r
    {
      for i := 0 to |dseqs|
        invariant Valid()
        invariant forall d :: d in chain.at <==> d in old(chain).at && !(d in dseqs[..i] && answers(d).Removes())
        invariant forall d :: d in chain.at ==> chain.at[d] == old(chain).at[d]
        invariant rows == SyncRows(old(rows), dseqs[..i], answers)
      {
        var d := dseqs[i];
        var answer := answers(d);
        assert dseqs[..i + 1] == dseqs[..i] + [d] && d !in dseqs[..i];
        if answer.Removes() {
          chain := chain.Delete(d);
        }
        if answer.Succeeded() {
          rows := UpdateMany(rows, d, SyncedStatus);
        }
      }
      assert dseqs[..|dseqs|] == dseqs;
    }

    method FixZombies(dseqs: seq<int>)
      modifies this`rows
      ensures rows == CloseActive(old(rows), dseqs)
      ensures |rows| == |old(rows)| && forall i :: 0 <= i < |rows| ==>
                var r := old(rows)[i];
                rows[i] == if r.dseq in dseqs && r.status == ACTIVE then r.(status := CLOSED) else r
    {
      for i := 0 to |dseqs|
        invariant rows == CloseActive(old(rows), dseqs[..i])
      {
        assert dseqs[..i + 1] == dseqs[..i] + [dseqs[i]];
        rows := UpdateMany(rows, dseqs[i], s => if s == ACTIVE then CLOSED else s);
      }
      assert dseqs[..|dseqs|] == dseqs;
    }

    /** `main`: report first, then the repairs the flags ask for. */
    method Reconcile(flags: Flags, answers: int -> CloseAnswer) returns (report: Report)
      requires Valid()
      modifies this
      ensures Valid()
      ensures State() == Round(old(State()), flags, answers)
      ensures Lists(report.orphans, old(State()), {Orphan})
      ensures Lists(report.suspendedLeaks, old(State()), {Leak})
      ensures Lists(report.zombies, old(State()), {Zombie})
      ensures Lists(report.mismatches, old(State()), {Mismatch})
    {
      report := BuildReport();
      ghost var w := State();
      forall d | d in report.orphans
        ensures d !in report.suspendedLeaks
      {
        assert FindingOf(w, d) in {Orphan};
        assert FindingOf(w, d) !in {Leak};
      }
      ConcatNoDuplicates(report.orphans, report.suspendedLeaks);
      if flags.closeOrphans {
        CloseOnChain(report.orphans + report.suspendedLeaks, answers);
      }
      if flags.fixZombies {
        FixZombies(report.zombies);
        FixZombies(report.mismatches);
      }
      RepairsAreRound(w, flags, answers, report, State());
    }
  }
}
