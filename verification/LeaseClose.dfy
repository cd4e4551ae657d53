/**
 src/resolvers/akash.ts, closeAkashDeployment: the user's close, with the
 SUSPENDED shortcut, the chain close, and the cancelling of siblings; and
 src/services/akash/orchestrator.ts, closeDeployment, which it calls.
 */
module LeaseClose {
  import opened Option
  import opened LeaseWorld
  import R = Reconciler

  /** A deployment policy as far as a close writes it. */
  datatype Policy = Policy(manualStop: bool, reservedCents: int)

  /** `refunds` counts, for each row id, how often an escrow refund was attempted. */
  datatype State = State(world: World, policies: map<string, Policy>, refunds: map<string, nat>)

  datatype Reply = Done | NotFound | AlreadyClosed | ChainCloseFailed

  /**
   How the outside behaves during one call: the answer for the target, one
   for each sibling, and whether the settlement before the refund succeeds.
   */
  datatype Outside = Outside(target: CloseAnswer, sibling: string -> CloseAnswer, settles: bool)

  // ---- The orchestrator ----

  /** The close transaction is accepted, or its command throws an error. */
  datatype TxOutcome = Accepted | Error(saysGone: bool, landed: bool)

  /** The error is turned into a return value: nothing is thrown to the caller. */
  function CloseDeployment(tx: TxOutcome): CloseAnswer {
    match tx
    case Accepted => ReportedClosed
    case Error(true, _) => ReportedGone
    case Error(false, landed) => ReportedFailed(landed)
  }

  // ---- The resolver as a function of the state ----

  predicate InProgress(s: Status) {
    s in {CREATING, WAITING_BIDS, SELECTING_BID, CREATING_LEASE, SENDING_MANIFEST, DEPLOYING}
  }

  ghost predicate UniqueIds(rows: seq<Row>) {
    forall i, j :: 0 <= i < j < |rows| ==> rows[i].id != rows[j].id
  }

  predicate IsSibling(target: Row, r: Row) {
    r.id != target.id && r.serviceId == target.serviceId && InProgress(r.status)
  }

  /** The siblings for which the resolver calls the chain: not the placeholders. */
  predicate SiblingLeaves(target: Row, r: Row, sibling: string -> CloseAnswer) {
    IsSibling(target, r) && r.dseq > 0 && sibling(r.id).Removes()
  }

  predicate Refused(a: CloseAnswer) {
    a.Threw? && !a.saysGone
  }

  function CloseRow(rows: seq<Row>, id: string): seq<Row> {
    seq(|rows|, i requires 0 <= i < |rows| => if rows[i].id == id then rows[i].(status := CLOSED) else rows[i])
  }

  function StopPolicy(policies: map<string, Policy>, r: Row): map<string, Policy> {
    if r.policyId.Some? then policies[r.policyId.value := Policy(true, 0)] else policies
  }

  function Refund(refunds: map<string, nat>, id: string): map<string, nat> {
    refunds[id := Refunds(refunds, id) + 1]
  }

  function Refunds(refunds: map<string, nat>, id: string): nat {
    if id in refunds then refunds[id] else 0
  }

  function Cancel(t: Row, r: Row): Row {
    if IsSibling(t, r) then r.(status := CLOSED) else r
  }

  /** The dseqs whose lease goes when the siblings of `t` among `rows` are cancelled. */
  function Left(t: Row, rows: seq<Row>, sibling: string -> CloseAnswer): set<int> {
    set r | r in rows && SiblingLeaves(t, r, sibling) :: r.dseq
  }

  /** What a call on row `t`, in any status but CLOSED and SUSPENDED, leaves. */
  function CloseMain(s: State, t: Row, out: Outside): State {
    var chain := ChainAfter(s.world.chain, t.dseq, out.target);
    var rows := CloseRow(s.world.rows, t.id);
    if Refused(out.target) then s.(world := World(chain, s.world.rows))
    else
      State(
        World(chain - Left(t, rows, out.sibling), seq(|rows|, i requires 0 <= i < |rows| => Cancel(t, rows[i]))),
        StopPolicy(s.policies, t),
        if out.settles then Refund(s.refunds, t.id) else s.refunds)
  }

  function CloseSuspended(s: State, t: Row): State {
    State(s.world.(rows := CloseRow(s.world.rows, t.id)), StopPolicy(s.policies, t), Refund(s.refunds, t.id))
  }

  function Find(rows: seq<Row>, id: string): Option<Row> {
    if rows == [] then None
    else if rows[0].id == id then Some(rows[0])
    else Find(rows[1..], id)
  }

  function Close(s: State, id: string, out: Outside): (State, Reply) {
    match Find(s.world.rows, id)
    case None => (s, NotFound)
    case Some(t) =>
      if t.status == CLOSED then (s, AlreadyClosed)
      else if t.status == SUSPENDED then (CloseSuspended(s, t), Done)
      else (CloseMain(s, t, out), if Refused(out.target) then ChainCloseFailed else Done)
  }

  lemma {:induction false} FindIsRow(rows: seq<Row>, i: nat)
    requires UniqueIds(rows) && i < |rows|
    ensures Find(rows, rows[i].id) == Some(rows[i])
  {
    if i == 0 {
    } else {
      assert rows[1..][i - 1] == rows[i];
      FindIsRow(rows[1..], i - 1);
    }
  }

  lemma {:induction false} FoundIsMember(rows: seq<Row>, id: string)
    ensures Find(rows, id).Some? ==> Find(rows, id).value in rows && Find(rows, id).value.id == id
    ensures Find(rows, id).None? ==> forall r :: r in rows ==> r.id != id
  {
    if rows == [] {
    } else {
      FoundIsMember(rows[1..], id);
      assert rows == [rows[0]] + rows[1..];
    }
  }

  // ---- A whole call in terms of rows, leases, policies and refunds ----

  /** The reply of each case; and with any reply but success the database is left alone. */
  lemma Replies(s: State, id: string, out: Outside)
    ensures var (s', reply) := Close(s, id, out);
            && (reply == NotFound <==> forall r :: r in s.world.rows ==> r.id != id)
            && (reply != Done ==>
                  s'.world.rows == s.world.rows && s'.policies == s.policies && s'.refunds == s.refunds)
            && (reply in {NotFound, AlreadyClosed} ==> s' == s)
  {
    FoundIsMember(s.world.rows, id);
  }

  lemma ReplyToRow(s: State, out: Outside, i: nat)
    requires UniqueIds(s.world.rows) && i < |s.world.rows|
    ensures var t := s.world.rows[i];
            Close(s, t.id, out).1 ==
            if t.status == CLOSED then AlreadyClosed
            else if t.status == SUSPENDED then Done
            else if out.target in {Threw(false, false), Threw(false, true)} then ChainCloseFailed
            else Done
  {
    FindIsRow(s.world.rows, i);
  }

  /**
   After a successful call on row `i`, that row is CLOSED; any other row changes
   if and only if it is in progress for the same service and the target was not
   SUSPENDED, and then it is CLOSED.
   */
  lemma RowsAfterClose(s: State, out: Outside, i: nat, k: nat)
    requires UniqueIds(s.world.rows) && i < |s.world.rows| && k < |s.world.rows|
    requires Close(s, s.world.rows[i].id, out).1 == Done
    ensures var t, r, s' := s.world.rows[i], s.world.rows[k], Close(s, s.world.rows[i].id, out).0;
            && |s'.world.rows| == |s.world.rows|
            && s'.world.rows[k] ==
               if k == i then r.(status := CLOSED)
               else if t.status != SUSPENDED && r.serviceId == t.serviceId &&
                       r.status in {CREATING, WAITING_BIDS, SELECTING_BID, CREATING_LEASE, SENDING_MANIFEST, DEPLOYING}
               then r.(status := CLOSED)
               else r
  {
    FindIsRow(s.world.rows, i);
    assert k != i ==> s.world.rows[k].id != s.world.rows[i].id;
  }

  /** Row `k`, not the target `i`, was changed by the call, and its chain close had an effect. */
  ghost predicate TookAlong(s: State, s': State, out: Outside, i: nat, k: nat)
    requires k < |s.world.rows| == |s'.world.rows|
  {
    && k != i && s'.world.rows[k] != s.world.rows[k]
    && out.sibling(s.world.rows[k].id) !in {ReportedFailed(false), Threw(false, false)}
  }

  /**
   The leases a call on row `i` takes away: that row's, unless it was CLOSED or
   SUSPENDED or the close had no effect, and those of the rows it changed along
   with it.
   */
  lemma LeasesAfterClose(s: State, out: Outside, i: nat, d: int)
    requires UniqueIds(s.world.rows) && i < |s.world.rows|
    ensures var t, s' := s.world.rows[i], Close(s, s.world.rows[i].id, out).0;
            && |s'.world.rows| == |s.world.rows|
            && (d in s'.world.chain <==>
                  && d in s.world.chain
                  && !(&& d == t.dseq && t.status !in {CLOSED, SUSPENDED}
                       && out.target !in {ReportedFailed(false), Threw(false, false)})
                  && !exists k :: 0 <= k < |s.world.rows| && s.world.rows[k].dseq == d > 0 &&
                                  TookAlong(s, s', out, i, k))
            && (d in s'.world.chain ==> s'.world.chain[d] == s.world.chain[d])
  {
    FindIsRow(s.world.rows, i);
    var t := s.world.rows[i];
    if t.status !in {CLOSED, SUSPENDED} && !Refused(out.target) { LeftBySiblings(s, t, out, i, d); }
  }

  lemma LeftBySiblings(s: State, t: Row, out: Outside, i: nat, d: int)
    requires UniqueIds(s.world.rows) && i < |s.world.rows| && s.world.rows[i] == t && !Refused(out.target)
    ensures var s' := CloseMain(s, t, out);
            d in Left(t, CloseRow(s.world.rows, t.id), out.sibling) <==>
            exists k :: 0 <= k < |s.world.rows| && s.world.rows[k].dseq == d > 0 && TookAlong(s, s', out, i, k)
  {
    var rows, closed, s' := s.world.rows, CloseRow(s.world.rows, t.id), CloseMain(s, t, out);
    forall k | 0 <= k < |rows|
      ensures SiblingLeaves(t, closed[k], out.sibling) <==> rows[k].dseq > 0 && TookAlong(s, s', out, i, k)
    {
      assert k != i ==> rows[k].id != t.id;
    }
    if d in Left(t, closed, out.sibling) {
      var q :| q in closed && SiblingLeaves(t, q, out.sibling) && q.dseq == d;
      var k :| 0 <= k < |closed| && closed[k] == q;
      assert rows[k].dseq == d;
    }
    if k :| 0 <= k < |rows| && rows[k].dseq == d > 0 && TookAlong(s, s', out, i, k) {
      assert closed[k] in closed;
    }
  }

  /** A lease goes in a call only if it is the target's or that of an in-progress row of the same service. */
  lemma OtherLeasesStay(s: State, out: Outside, i: nat, k: nat)
    requires UniqueIds(s.world.rows) && R.UniqueDseqs(s.world.rows)
    requires i < |s.world.rows| && k < |s.world.rows| && k != i && s.world.rows[k].dseq > 0
    requires s.world.rows[k].serviceId != s.world.rows[i].serviceId ||
             s.world.rows[k].status in {ACTIVE, FAILED, CLOSED, SUSPENDED, PERMANENTLY_FAILED, CLOSE_FAILED,
                                        AWAITING_REGION_RESPONSE}
    ensures var r, s' := s.world.rows[k], Close(s, s.world.rows[i].id, out).0;
            && s'.world.rows[k] == r
            && (r.dseq in s'.world.chain <==> r.dseq in s.world.chain)
  {
    var t, r := s.world.rows[i], s.world.rows[k];
    if Close(s, t.id, out).1 == Done {
      RowsAfterClose(s, out, i, k);
    } else {
      Replies(s, t.id, out);
    }
    LeasesAfterClose(s, out, i, r.dseq);
    forall j | 0 <= j < |s.world.rows| && s.world.rows[j].dseq == r.dseq
      ensures j == k
    {
    }
  }

  /** Policies and refunds: only those of a row that was closed successfully change. */
  lemma SettledByClose(s: State, out: Outside, i: nat)
    requires UniqueIds(s.world.rows) && i < |s.world.rows|
    ensures var t, (s', reply) := s.world.rows[i], Close(s, s.world.rows[i].id, out);
            && s'.policies == (if reply == Done && t.policyId.Some?
                               then s.policies[t.policyId.value := Policy(true, 0)] else s.policies)
            && (forall id :: Refunds(s'.refunds, id) == Refunds(s.refunds, id) +
                  if reply == Done && id == t.id && (t.status == SUSPENDED || out.settles) then 1 else 0)
  {
    FindIsRow(s.world.rows, i);
  }

  // ---- What a call does to the rows ----

  /** A row the table calls CLOSED although its lease still runs. */
  predicate Leaking(w: World, r: Row) {
    r.status == CLOSED && r.dseq in w.chain
  }

  /** `t` is row `i` of a table with unique ids and, among real leases, unique dseqs. */
  ghost predicate RowAt(w: World, i: nat, t: Row) {
    UniqueIds(w.rows) && R.UniqueDseqs(w.rows) && i < |w.rows| && w.rows[i] == t
  }

  /** The lease of row `r` is taken off the chain by a call that closes row `t`. */
  lemma LeaseAfterClose(s: State, t: Row, out: Outside, i: nat, k: nat)
    requires RowAt(s.world, i, t) && k < |s.world.rows| && !Refused(out.target)
    ensures var r := s.world.rows[k];
            r.dseq in CloseMain(s, t, out).world.chain <==>
            && r.dseq in s.world.chain
            && !(r.dseq == t.dseq && out.target.Removes())
            && !SiblingLeaves(t, r, out.sibling)
  {
    var r, rows := s.world.rows[k], CloseRow(s.world.rows, t.id);
    if SiblingLeaves(t, r, out.sibling) {
      assert rows[k] == r;
      assert r in rows;
    }
    if r.dseq in Left(t, rows, out.sibling) {
      var q :| q in rows && SiblingLeaves(t, q, out.sibling) && q.dseq == r.dseq;
      var j :| 0 <= j < |rows| && rows[j] == q;
      assert s.world.rows[j].dseq == r.dseq > 0;
      assert j == k;
    }
  }

  /**
   After a call on a row in any other status, the row is CLOSED with its lease
   still listed exactly when the chain call returned FAILED and did not land.
   */
  lemma TargetLeaksIff(s: State, t: Row, out: Outside, i: nat)
    requires RowAt(s.world, i, t) && t.status !in {CLOSED, SUSPENDED}
    ensures var (s', reply) := Close(s, t.id, out);
            Leaking(s'.world, s'.world.rows[i]) <==> t.dseq in s.world.chain && out.target == ReportedFailed(false)
  {
    FindIsRow(s.world.rows, i);
    if !Refused(out.target) { LeaseAfterClose(s, t, out, i, i); }
  }

  /**
   With the repository's own orchestrator the resolver never refuses, since
   that orchestrator reports a failed close instead of throwing it. Every
   failed transaction therefore ends in a CLOSED row over a running lease.
   */
  lemma OrchestratorDefeatsRefusal(s: State, t: Row, tx: TxOutcome, out: Outside, i: nat)
    requires RowAt(s.world, i, t) && t.status !in {CLOSED, SUSPENDED}
    requires out.target == CloseDeployment(tx)
    ensures var (s', reply) := Close(s, t.id, out);
            && reply == Done
            && s'.world.rows[i].status == CLOSED
            && (Leaking(s'.world, s'.world.rows[i]) <==> t.dseq in s.world.chain && tx == Error(false, false))
  {
    FindIsRow(s.world.rows, i);
    TargetLeaksIff(s, t, out, i);
  }

  /**
   A call that succeeds closes its row, stops that row's policy and releases its
   reservation, leaves every other policy and refund count alone, and attempts
   one refund, unless the settlement before it failed.
   */
  lemma DoneSettlesTarget(s: State, t: Row, out: Outside, i: nat)
    requires RowAt(s.world, i, t) && Close(s, t.id, out).1 == Done
    ensures var s' := Close(s, t.id, out).0;
            && s'.world.rows[i] == t.(status := CLOSED)
            && (t.policyId.Some? ==>
                  t.policyId.value in s'.policies && s'.policies[t.policyId.value] == Policy(true, 0))
            && (forall p :: p in s.policies && t.policyId != Some(p) ==>
                  p in s'.policies && s'.policies[p] == s.policies[p])
            && (forall id :: id != t.id ==> Refunds(s'.refunds, id) == Refunds(s.refunds, id))
            && (Refunds(s'.refunds, t.id) ==
                Refunds(s.refunds, t.id) + if t.status == SUSPENDED || out.settles then 1 else 0)
  {
    FindIsRow(s.world.rows, i);
  }

  /** The ways in which one call on `t` can turn row `r` into a leaking one. */
  predicate LeakSource(t: Row, r: Row, out: Outside) {
    if r.id == t.id then t.status == SUSPENDED || out.target == ReportedFailed(false)
    else t.status != SUSPENDED && IsSibling(t, r) && !Refused(out.target) && !SiblingLeaves(t, r, out.sibling)
  }

  /**
   The rows that start leaking in a call are exactly those with a listed lease
   and one of: a SUSPENDED target, a target whose close reported failure, a
   sibling whose close did not take its lease away.
   */
  lemma NewLeaksIff(s: State, t: Row, out: Outside, i: nat, k: nat)
    requires RowAt(s.world, i, t) && t.status != CLOSED && k < |s.world.rows|
    ensures var s' := Close(s, t.id, out).0;
            var r := s.world.rows[k];
            !Leaking(s.world, r) && Leaking(s'.world, s'.world.rows[k]) <==>
            && r.dseq in s.world.chain
            && LeakSource(t, r, out)
            && !(r.id != t.id && r.dseq == t.dseq && out.target.Removes())
  {
    FindIsRow(s.world.rows, i);
    if t.status != SUSPENDED && !Refused(out.target) { LeaseAfterClose(s, t, out, i, k); }
  }

  // ---- Runs of closes and reconcile rounds ----

  datatype Step =
    | CloseCall(id: string, out: Outside)
    | ReconcileRound(flags: R.Flags, answers: int -> CloseAnswer)

  function Next(s: State, step: Step): State {
    match step
    case CloseCall(id, out) => Close(s, id, out).0
    case ReconcileRound(flags, answers) => s.(world := R.Round(s.world, flags, answers))
  }

  function Run(s: State, steps: seq<Step>): State
    decreases |steps|
  {
    if steps == [] then s else Run(Next(s, steps[0]), steps[1..])
  }

  /** Row `r'` is row `r`, at most moved to CLOSED. */
  predicate SameRow(r: Row, r': Row) {
    r' == r || r' == r.(status := CLOSED)
  }

  lemma CloseKeepsRows(s: State, id: string, out: Outside)
    ensures var rows, rows' := s.world.rows, Close(s, id, out).0.world.rows;
            |rows'| == |rows| && forall k :: 0 <= k < |rows| ==> SameRow(rows[k], rows'[k])
  {
  }

  lemma RoundKeepsRows(w: World, flags: R.Flags, answers: int -> CloseAnswer)
    ensures var rows, rows' := w.rows, R.Round(w, flags, answers).rows;
            |rows'| == |rows| && forall k :: 0 <= k < |rows| ==> SameRow(rows[k], rows'[k])
  {
  }

  /** A step keeps every row's identity, and CLOSED is final. */
  lemma StepKeepsRows(s: State, step: Step, k: nat)
    requires UniqueIds(s.world.rows) && k < |s.world.rows|
    ensures |Next(s, step).world.rows| == |s.world.rows| && SameRow(s.world.rows[k], Next(s, step).world.rows[k])
    ensures UniqueIds(Next(s, step).world.rows)
  {
    match step
    case CloseCall(id, out) => CloseKeepsRows(s, id, out);
    case ReconcileRound(flags, answers) => RoundKeepsRows(s.world, flags, answers);
  }

  /** A step attempts at most one refund for a row, and none for a CLOSED one. */
  lemma StepRefunds(s: State, step: Step, k: nat)
    requires UniqueIds(s.world.rows) && k < |s.world.rows|
    ensures var id, s' := s.world.rows[k].id, Next(s, step);
            && Refunds(s'.refunds, id) <= Refunds(s.refunds, id) + 1
            && (Refunds(s'.refunds, id) != Refunds(s.refunds, id) ==>
                  && s.world.rows[k].status != CLOSED && s'.world.rows[k].status == CLOSED
                  && step.CloseCall? && step.id == id)
  {
    if step.CloseCall? {
      FoundIsMember(s.world.rows, step.id);
      FindIsRow(s.world.rows, k);
    }
  }

  /** Once a row is CLOSED, no run refunds it. */
  lemma {:induction false} ClosedIsNeverRefunded(s: State, steps: seq<Step>, k: nat)
    requires UniqueIds(s.world.rows) && k < |s.world.rows| && s.world.rows[k].status == CLOSED
    ensures var id := s.world.rows[k].id; Refunds(Run(s, steps).refunds, id) == Refunds(s.refunds, id)
    decreases |steps|
  {
    if steps == [] {
    } else {
      StepKeepsRows(s, steps[0], k);
      StepRefunds(s, steps[0], k);
      ClosedIsNeverRefunded(Next(s, steps[0]), steps[1..], k);
    }
  }

  /** Over any run, at most one refund is attempted for each row. */
  lemma {:induction false} RefundedAtMostOnce(s: State, steps: seq<Step>, k: nat)
    requires UniqueIds(s.world.rows) && k < |s.world.rows|
    ensures var id := s.world.rows[k].id; Refunds(Run(s, steps).refunds, id) <= Refunds(s.refunds, id) + 1
    decreases |steps|
  {
    if steps == [] {
    } else {
      StepKeepsRows(s, steps[0], k);
      StepRefunds(s, steps[0], k);
      if Next(s, steps[0]).world.rows[k].status == CLOSED {
        ClosedIsNeverRefunded(Next(s, steps[0]), steps[1..], k);
      } else {
        RefundedAtMostOnce(Next(s, steps[0]), steps[1..], k);
      }
    }
  }

  /** A sibling that a close cancelled is never refunded: not by that call, nor by any later one. */
  lemma CancelledSiblingIsNeverRefunded(s: State, t: Row, out: Outside, i: nat, k: nat, steps: seq<Step>)
    requires RowAt(s.world, i, t) && t.status !in {CLOSED, SUSPENDED} && !Refused(out.target)
    requires k < |s.world.rows| && IsSibling(t, s.world.rows[k])
    ensures var s' := Close(s, t.id, out).0;
            var id := s.world.rows[k].id;
            s'.world.rows[k].status == CLOSED && Refunds(Run(s', steps).refunds, id) == Refunds(s.refunds, id)
  {
    FindIsRow(s.world.rows, i);
    StepKeepsRows(s, CloseCall(t.id, out), k);
    StepRefunds(s, CloseCall(t.id, out), k);
    ClosedIsNeverRefunded(Close(s, t.id, out).0, steps, k);
  }

  /** Row `k` is CLOSED or SUSPENDED over a listed lease. */
  predicate Overlooked(w: World, k: nat)
    requires k < |w.rows|
  {
    w.rows[k].status in {CLOSED, SUSPENDED} && w.rows[k].dseq in w.chain
  }

  /** No row leaks, no SUSPENDED row has a lease, and only real dseqs are listed. */
  ghost predicate Clean(w: World) {
    && UniqueIds(w.rows) && R.UniqueDseqs(w.rows)
    && (forall d :: d in w.chain ==> d > 0)
    && forall k :: 0 <= k < |w.rows| ==> !Overlooked(w, k)
  }

  /** The chain closes of the target and of its siblings take away the leases these have. */
  ghost predicate ClosesWork(s: State, t: Row, out: Outside) {
    && (t.dseq in s.world.chain ==> out.target.Removes())
    && forall r :: r in s.world.rows && IsSibling(t, r) && r.dseq in s.world.chain ==> out.sibling(r.id).Removes()
  }

  /** The call is refused, leaves the chain alone, or has its chain closes work. */
  ghost predicate NoSilentFailure(s: State, id: string, out: Outside) {
    match Find(s.world.rows, id)
    case None => true
    case Some(t) =>
      t.status in {CLOSED, SUSPENDED} || Refused(out.target) || ClosesWork(s, t, out)
  }

  /** A call fails in no silent way, or a round marks no mismatch CLOSED; the round's chain closes may fail. */
  ghost predicate SafeStep(s: State, step: Step) {
    match step
    case CloseCall(id, out) => NoSilentFailure(s, id, out)
    case ReconcileRound(flags, _) => !flags.fixZombies || forall d :: R.FindingOf(s.world, d) != R.Mismatch
  }

  ghost predicate SafeRun(s: State, steps: seq<Step>)
    decreases |steps|
  {
    steps == [] || (SafeStep(s, steps[0]) && SafeRun(Next(s, steps[0]), steps[1..]))
  }

  ghost predicate AlwaysClean(s: State, steps: seq<Step>)
    decreases |steps|
  {
    Clean(s.world) && (steps == [] || AlwaysClean(Next(s, steps[0]), steps[1..]))
  }

  /** What makes row `r` overlooked after a call on an open row `t`. */
  predicate Overlooks(s: State, t: Row, r: Row, out: Outside) {
    && r.dseq in s.world.chain
    && if r.id == t.id then !out.target.Removes() else IsSibling(t, r) && !out.sibling(r.id).Removes()
  }

  lemma CallOverlooks(s: State, t: Row, out: Outside, i: nat, k: nat)
    requires Clean(s.world) && RowAt(s.world, i, t) && t.status !in {CLOSED, SUSPENDED} && !Refused(out.target)
    requires k < |s.world.rows|
    ensures Overlooked(Close(s, t.id, out).0.world, k) <==> Overlooks(s, t, s.world.rows[k], out)
  {
    FindIsRow(s.world.rows, i);
    LeaseAfterClose(s, t, out, i, k);
    assert !Overlooked(s.world, k);
  }

  lemma StepStaysCleanUnless(s: State, step: Step)
    requires Clean(s.world)
    ensures var w := Next(s, step).world; Clean(w) <==> forall k :: 0 <= k < |w.rows| ==> !Overlooked(w, k)
  {
    var w, w' := s.world, Next(s, step).world;
    match step {
      case CloseCall(id, out) => CloseKeepsRows(s, id, out);
      case ReconcileRound(flags, answers) => RoundKeepsRows(w, flags, answers);
    }
    assert forall k :: 0 <= k < |w.rows| ==> w'.rows[k].dseq == w.rows[k].dseq && w'.rows[k].id == w.rows[k].id;
    assert UniqueIds(w'.rows) && R.UniqueDseqs(w'.rows);
    ChainShrinks(s, step);
    assert forall d :: d in w'.chain ==> d in w.chain && d > 0;
  }

  lemma ChainShrinks(s: State, step: Step)
    ensures Next(s, step).world.chain.Keys <= s.world.chain.Keys
  {
  }

  lemma NothingOverlookedIff(s: State, t: Row, out: Outside)
    requires t in s.world.rows && UniqueIds(s.world.rows)
    ensures (forall k :: 0 <= k < |s.world.rows| ==> !Overlooks(s, t, s.world.rows[k], out)) <==>
            ClosesWork(s, t, out)
  {
    var rows := s.world.rows;
    if forall k :: 0 <= k < |rows| ==> !Overlooks(s, t, rows[k], out) {
      assert forall r :: r in rows ==> !Overlooks(s, t, r, out);
    } else {
      var k :| 0 <= k < |rows| && Overlooks(s, t, rows[k], out);
      assert rows[k].id == t.id ==> rows[k] == t;
    }
  }

  lemma OpenCallStaysCleanIff(s: State, t: Row, out: Outside, i: nat)
    requires Clean(s.world) && RowAt(s.world, i, t) && t.status !in {CLOSED, SUSPENDED} && !Refused(out.target)
    ensures Clean(Close(s, t.id, out).0.world) <==> ClosesWork(s, t, out)
  {
    var w' := Close(s, t.id, out).0.world;
    StepStaysCleanUnless(s, CloseCall(t.id, out));
    CloseKeepsRows(s, t.id, out);
    NothingOverlookedIff(s, t, out);
    forall k | 0 <= k < |s.world.rows|
      ensures Overlooked(w', k) <==> Overlooks(s, t, s.world.rows[k], out)
    {
      CallOverlooks(s, t, out, i, k);
    }
  }

  lemma OtherCallOverlooksNothing(s: State, id: string, out: Outside, k: nat)
    requires Clean(s.world) && k < |s.world.rows|
    requires var found := Find(s.world.rows, id);
             found.None? || found.value.status in {CLOSED, SUSPENDED} || Refused(out.target)
    ensures var w' := Close(s, id, out).0.world; |w'.rows| == |s.world.rows| && !Overlooked(w', k)
  {
    assert !Overlooked(s.world, k);
    CloseKeepsRows(s, id, out);
    FoundIsMember(s.world.rows, id);
  }

  lemma OtherCallStaysClean(s: State, id: string, out: Outside)
    requires Clean(s.world)
    requires var found := Find(s.world.rows, id);
             found.None? || found.value.status in {CLOSED, SUSPENDED} || Refused(out.target)
    ensures Clean(Close(s, id, out).0.world)
  {
    StepStaysCleanUnless(s, CloseCall(id, out));
    CloseKeepsRows(s, id, out);
    forall k | 0 <= k < |s.world.rows| { OtherCallOverlooksNothing(s, id, out, k); }
  }

  /** From a clean state a call keeps the stores clean exactly when it fails in no silent way. */
  lemma CallStaysCleanIff(s: State, id: string, out: Outside)
    requires Clean(s.world)
    ensures Clean(Close(s, id, out).0.world) <==> NoSilentFailure(s, id, out)
  {
    var found := Find(s.world.rows, id);
    if found.None? || found.value.status in {CLOSED, SUSPENDED} || Refused(out.target) {
      OtherCallStaysClean(s, id, out);
    } else {
      FoundIsMember(s.world.rows, id);
      var i :| 0 <= i < |s.world.rows| && s.world.rows[i] == found.value;
      OpenCallStaysCleanIff(s, found.value, out, i);
    }
  }

  lemma RoundStaysCleanIff(s: State, flags: R.Flags, answers: int -> CloseAnswer)
    requires Clean(s.world)
    ensures Clean(R.Round(s.world, flags, answers)) <==>
            !flags.fixZombies || forall d :: R.FindingOf(s.world, d) != R.Mismatch
  {
    var w, w' := s.world, R.Round(s.world, flags, answers);
    StepStaysCleanUnless(s, ReconcileRound(flags, answers));
    RoundKeepsRows(w, flags, answers);
    forall k | 0 <= k < |w.rows|
      ensures Overlooked(w', k) <==> flags.fixZombies && R.FindingOf(w, w.rows[k].dseq) == R.Mismatch
    {
      assert !Overlooked(w, k);
      if w.rows[k].dseq > 0 { R.UniqueStatus(w.rows, k); }
      R.StatusHasRow(w.rows, w.rows[k].dseq);
    }
    if d :| flags.fixZombies && R.FindingOf(w, d) == R.Mismatch {
      R.StatusHasRow(w.rows, d);
      var r :| r in w.rows && r.dseq == d;
      var k :| 0 <= k < |w.rows| && w.rows[k] == r;
      assert Overlooked(w', k);
    }
  }

  /**
   Along any run of closes and rounds from a clean state no row is ever CLOSED
   or SUSPENDED over a running lease, if and only if every step is safe.
   */
  lemma {:induction false} RunsStayCleanIff(s: State, steps: seq<Step>)
    requires Clean(s.world)
    ensures AlwaysClean(s, steps) <==> SafeRun(s, steps)
    decreases |steps|
  {
    if steps == [] {
    } else {
      match steps[0] {
        case CloseCall(id, out) => CallStaysCleanIff(s, id, out);
        case ReconcileRound(flags, answers) => RoundStaysCleanIff(s, flags, answers);
      }
      if Clean(Next(s, steps[0]).world) { RunsStayCleanIff(Next(s, steps[0]), steps[1..]); }
    }
  }

  /**
   A reconcile round whose chain closes all take effect leaves no leaking row,
   unless it also marked a mismatch CLOSED: then that row is the new leak.
   */
  lemma RoundClearsLeaks(w: World, flags: R.Flags, answers: int -> CloseAnswer)
    requires R.UniqueDseqs(w.rows) && flags.closeOrphans
    requires forall d :: answers(d).Removes()
    ensures var w' := R.Round(w, flags, answers);
            (forall k :: 0 <= k < |w.rows| ==> !Leaking(w', w'.rows[k])) <==>
            !flags.fixZombies || forall d :: R.FindingOf(w, d) != R.Mismatch
  {
    var w' := R.Round(w, flags, answers);
    forall k | 0 <= k < |w.rows|
      ensures Leaking(w', w'.rows[k]) <==> flags.fixZombies && R.FindingOf(w, w.rows[k].dseq) == R.Mismatch
    {
      if w.rows[k].dseq > 0 { R.UniqueStatus(w.rows, k); }
      R.StatusHasRow(w.rows, w.rows[k].dseq);
    }
    if flags.fixZombies {
      if d :| R.FindingOf(w, d) == R.Mismatch {
        R.StatusHasRow(w.rows, d);
        var r :| r in w.rows && r.dseq == d;
        var k :| 0 <= k < |w.rows| && w.rows[k] == r;
        assert Leaking(w', w'.rows[k]);
      }
    }
  }

  // ---- The resolver itself ----

  class DeploymentService {
    var chain: map<int, string>
    var rows: seq<Row>
    var policies: map<string, Policy>
    var refunds: map<string, nat>

    ghost function Now(): State
      reads this
    {
      State(World(chain, rows), policies, refunds)
    }

    constructor (s: State)
      ensures Now() == s
    {
      chain, rows, policies, refunds := s.world.chain, s.world.rows, s.policies, s.refunds;
    }

    /** Cancels the siblings of the closed row `t`, row by row; a failed chain close does not stop the loop. */
    method CancelSiblings(t: Row, sibling: string -> CloseAnswer)
      modifies this`chain, this`rows
      ensures |rows| == |old(rows)| && forall i :: 0 <= i < |rows| ==> rows[i] == Cancel(t, old(rows)[i])
      ensures chain == old(chain) - Left(t, old(rows), sibling)
    {
      ghost var before := rows;
      for i := 0 to |rows|
        invariant |rows| == |before|
        invariant forall k :: 0 <= k < |rows| ==> rows[k] == if k < i then Cancel(t, before[k]) else before[k]
        invariant chain == old(chain) - Left(t, before[..i], sibling)
      {
        var sib := rows[i];
        assert before[..i + 1] == before[..i] + [sib];
        assert Left(t, before[..i + 1], sibling) ==
               Left(t, before[..i], sibling) + if SiblingLeaves(t, sib, sibling) then {sib.dseq} else {};
        if IsSibling(t, sib) {
          if sib.dseq > 0 {
            chain := ChainAfter(chain, sib.dseq, sibling(sib.id));
          }
          rows := rows[i := sib.(status := CLOSED)];
        }
      }
      assert before[..|before|] == before;
    }

    /** The lease was closed when the row was suspended: only the database is left to update. */
    method CloseSuspendedRow(t: Row)
      modifies this
      ensures Now() == CloseSuspended(old(Now()), t)
    {
      rows := CloseRow(rows, t.id);
      policies := StopPolicy(policies, t);
      refunds := Refund(refunds, t.id);
    }

    method CloseOpenRow(t: Row, out: Outside)
      modifies this
      ensures Now() == CloseMain(old(Now()), t, out)
    {
      chain := ChainAfter(chain, t.dseq, out.target);
      if Refused(out.target) {
        return;
      }
      rows := CloseRow(rows, t.id);
      if out.settles {
        refunds := Refund(refunds, t.id);
      }
      policies := StopPolicy(policies, t);
      ghost var closed := rows;
      CancelSiblings(t, out.sibling);
      assert rows == seq(|closed|, i requires 0 <= i < |closed| => Cancel(t, closed[i]));
    }

    method CloseAkashDeployment(id: string, out: Outside) returns (reply: Reply)
      requires UniqueIds(rows)
      modifies this
      ensures UniqueIds(rows)
      ensures (Now(), reply) == Close(old(Now()), id, out)
    {
      var found := Find(rows, id);
      FoundIsMember(rows, id);
      if found.None? {
        return NotFound;
      }
      var t := found.value;
      if t.status == CLOSED {
        return AlreadyClosed;
      }
      if t.status == SUSPENDED {
        CloseSuspendedRow(t);
        return Done;
      }
      CloseOpenRow(t, out);
      reply := if Refused(out.target) then ChainCloseFailed else Done;
    }
  }
}
