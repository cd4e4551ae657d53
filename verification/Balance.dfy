/**
 src/resolvers/balanceCheck.ts: the gate for time-limited deployments, which
 reserve their whole cost up front. Rates and hours are exact reals here;
 balances and reservations are whole cents.
 */
module Balance {
  import opened Option

  const LOW_BALANCE_HOURS := 1

  function Ceil(x: real): int {
    -(-x).Floor
  }

  function Max0(x: int): int {
    if x < 0 then 0 else x
  }

  /** The columns of a deployment policy that the gate reads; `active` is its deployment's status. */
  datatype Policy = Policy(reservedCents: int, spentCents: real, stopped: bool, active: bool)

  function Remaining(p: Policy): int {
    Max0(p.reservedCents - Ceil(p.spentCents))
  }

  /** The `where` clause of the three reservation queries. */
  predicate Counted(p: Policy) {
    !p.stopped && p.reservedCents > 0 && p.active
  }

  function Reserved(ps: seq<Policy>): int {
    if ps == [] then 0
    else Reserved(ps[..|ps| - 1]) + if Counted(ps[|ps| - 1]) then Remaining(ps[|ps| - 1]) else 0
  }

  /** What remains of a reservation: the most whole cents that, added to what is spent, do not exceed it. */
  lemma RemainingMeaning(p: Policy, n: int)
    ensures n <= Remaining(p) <==> n <= 0 || n as real + p.spentCents <= p.reservedCents as real
  {
  }

  /** Exactly the reservations of running policies of ACTIVE deployments are counted. */
  lemma ReservedMeaning(ps: seq<Policy>, p: Policy)
    ensures Reserved([]) == 0
    ensures Reserved(ps + [p]) ==
            Reserved(ps) + if !p.stopped && p.active && p.reservedCents > 0 then Remaining(p) else 0
  {
    assert (ps + [p])[..|ps|] == ps;
  }

  method GetOrgReservedCents(ps: seq<Policy>) returns (total: int)
    ensures total == Reserved(ps)
  {
    total := 0;
    for i := 0 to |ps|
      invariant total == Reserved(ps[..i])
    {
      assert ps[..i + 1][..i] == ps[..i];
      if Counted(ps[i]) {
        var consumed := Ceil(ps[i].spentCents);
        total := total + Max0(ps[i].reservedCents - consumed);
      }
    }
    assert ps[..|ps|] == ps;
  }

  // ---- The check ----

  /** What the check reads: wallet, accrued but unbilled cost, reservations, hourly burn. */
  datatype Funds = Funds(balanceCents: int, unbilledCents: int, reservedCents: int, hourlyBurnCents: real)

  /** `maxAffordableHours` is `None` where the source has Infinity. */
  datatype Check = Check(
    allowed: bool, maxAffordableHours: Option<int>, reservationCents: int, effectiveBalanceCents: int)

  function Effective(f: Funds): int {
    f.balanceCents - f.unbilledCents - f.reservedCents
  }

  function Available(f: Funds): real {
    var left := Effective(f) as real - f.hourlyBurnCents * LOW_BALANCE_HOURS as real;
    if left < 0.0 then 0.0 else left
  }

  function CheckTimeLimited(f: Funds, hourlyCostCents: real, requestedHours: real): Check {
    var reservation := Ceil(hourlyCostCents * requestedHours);
    var minRemainder := f.hourlyBurnCents * LOW_BALANCE_HOURS as real;
    Check(
      !(Effective(f) as real < reservation as real + minRemainder),
      if hourlyCostCents > 0.0 then Some((Available(f) / hourlyCostCents).Floor) else None,
      reservation,
      Effective(f))
  }

  lemma CeilIsLeast(x: real, n: int)
    ensures x <= n as real <==> Ceil(x) <= n
    ensures x <= Ceil(x) as real < x + 1.0
  {
  }

  lemma QuotientBound(a: real, rate: real, n: real)
    requires rate > 0.0
    ensures n <= a / rate <==> n * rate <= a
  {
  }

  lemma FloorIsGreatest(x: real, n: int)
    ensures n as real <= x <==> n <= x.Floor
  {
  }

  // ---- The check in terms of wallet, accrued cost, reservations and burn ----

  /** After setting aside `n` cents, the funds not spoken for still cover an hour of what runs. */
  predicate Covers(f: Funds, n: int) {
    (f.balanceCents - f.unbilledCents - f.reservedCents) as real >= n as real + f.hourlyBurnCents
  }

  /** A request is allowed exactly when some whole number of cents is both enough for it and covered. */
  lemma GateMeaning(f: Funds, rate: real, hours: real)
    ensures var check := CheckTimeLimited(f, rate, hours);
            && check.effectiveBalanceCents == f.balanceCents - f.unbilledCents - f.reservedCents
            && rate * hours <= check.reservationCents as real < rate * hours + 1.0
            && (check.allowed <==> Covers(f, check.reservationCents))
            && (check.allowed <==> exists n: int :: Covers(f, n) && rate * hours <= n as real)
  {
    var cost := rate * hours;
    CeilIsLeast(cost, 0);
    AllowedByCost(f, rate, hours);
    if n: int :| Covers(f, n) && cost <= n as real {
      CeilIsLeast(cost, n);
    }
  }

  /** The offered maximum is the largest number of whole hours whose exact cost is covered. */
  lemma MaximumMeaning(f: Funds, rate: real, hours: real, n: int)
    ensures var max := CheckTimeLimited(f, rate, hours).maxAffordableHours;
            var left := (f.balanceCents - f.unbilledCents - f.reservedCents) as real - f.hourlyBurnCents;
            && (rate <= 0.0 ==> max == None)
            && (rate > 0.0 ==>
                  max.Some? && (n <= max.value <==> n as real * rate <= if left < 0.0 then 0.0 else left))
  {
    if rate > 0.0 {
      QuotientBound(Available(f), rate, n as real);
      FloorIsGreatest(Available(f) / rate, n);
    }
  }

  /** An allowed request asks for no more whole hours than the offered maximum. */
  lemma AllowedIsWithinMaximum(f: Funds, rate: real, hours: real)
    requires rate > 0.0 && hours >= 0.0 && CheckTimeLimited(f, rate, hours).allowed
    ensures hours.Floor <= CheckTimeLimited(f, rate, hours).maxAffordableHours.value
  {
    CeilIsLeast(rate * hours, 0);
    assert rate * hours >= 0.0;
    assert hours * rate <= Available(f);
    QuotientBound(Available(f), rate, hours);
    FloorIsGreatest(Available(f) / rate, hours.Floor);
  }

  /**
   After a refusal that offers a positive maximum, asking for exactly that many
   hours is accepted if and only if the rounded-up cost still fits what is
   available; it always fits when the rate or the available amount is whole,
   and never misses by a whole cent.
   */
  lemma OfferedMaximum(f: Funds, rate: real, hours: real)
    requires rate > 0.0
    requires !CheckTimeLimited(f, rate, hours).allowed
    requires CheckTimeLimited(f, rate, hours).maxAffordableHours.value > 0
    ensures var max := CheckTimeLimited(f, rate, hours).maxAffordableHours.value;
            var retry := CheckTimeLimited(f, rate, max as real);
            && (retry.allowed <==> Ceil(rate * max as real) as real <= Available(f))
            && (rate == rate.Floor as real || Available(f) == Available(f).Floor as real ==> retry.allowed)
            && retry.reservationCents as real < Available(f) + 1.0
  {
    var max := CheckTimeLimited(f, rate, hours).maxAffordableHours.value;
    OfferedRetry(f, rate, max);
  }

  lemma OfferedRetry(f: Funds, rate: real, max: nat)
    requires rate > 0.0 && 0 < max <= (Available(f) / rate).Floor
    ensures var retry := CheckTimeLimited(f, rate, max as real);
            && retry.reservationCents == Ceil(rate * max as real)
            && (retry.allowed <==> Ceil(rate * max as real) as real <= Available(f))
    ensures rate == rate.Floor as real || Available(f) == Available(f).Floor as real ==>
              Ceil(rate * max as real) as real <= Available(f)
    ensures Ceil(rate * max as real) as real < Available(f) + 1.0
  {
    FloorIsGreatest(Available(f) / rate, max);
    PositiveMaximum(f, rate, max);
    AllowedIff(f, rate, max as real);
    OfferedCost(rate, max, Available(f));
  }

  lemma OfferedCost(rate: real, max: nat, available: real)
    requires rate > 0.0 && max as real <= available / rate
    ensures rate == rate.Floor as real || available == available.Floor as real ==>
              Ceil(rate * max as real) as real <= available
    ensures Ceil(rate * max as real) as real < available + 1.0
  {
    QuotientBound(available, rate, max as real);
    RoundedUp(rate * max as real, available);
    if rate == rate.Floor as real { WholeRate(rate, max); }
  }

  lemma WholeRate(rate: real, max: nat)
    requires rate == rate.Floor as real
    ensures Ceil(rate * max as real) as real == rate * max as real
  {
    WholeProduct(rate.Floor, max);
    CeilIsLeast(rate * max as real, rate.Floor * max);
  }

  lemma AllowedIff(f: Funds, rate: real, hours: real)
    requires Available(f) > 0.0
    ensures CheckTimeLimited(f, rate, hours).allowed <==> Ceil(rate * hours) as real <= Available(f)
  {
  }

  lemma RoundedUp(cost: real, available: real)
    requires cost <= available
    ensures cost == cost.Floor as real || available == available.Floor as real ==> Ceil(cost) as real <= available
    ensures Ceil(cost) as real < available + 1.0
  {
    CeilIsLeast(cost, available.Floor);
    CeilIsLeast(cost, cost.Floor);
  }

  lemma {:induction false} WholeProduct(n: int, m: nat)
    ensures n as real * m as real == (n * m) as real
  {
  }

  lemma PositiveMaximum(f: Funds, rate: real, max: int)
    requires rate > 0.0 && max > 0 && max as real <= Available(f) / rate
    ensures Available(f) == Effective(f) as real - f.hourlyBurnCents > 0.0
  {
  }

  /**
   A maximum that the very next request refuses: 5 cents at a burn of 19 cents
   a day leave 4.2 for a deployment at a dollar a day, whose hour is rounded up to 5.
   */
  lemma OfferedMaximumCanBeRefused()
    ensures var f, rate := Funds(5, 0, 0, 19.0 / 24.0), 100.0 / 24.0;
            var refused := CheckTimeLimited(f, rate, 2.0);
            !refused.allowed && refused.maxAffordableHours == Some(1) && !CheckTimeLimited(f, rate, 1.0).allowed
  {
  }

  lemma ScalesUp(rate: real, fewer: real, hours: real)
    requires rate >= 0.0 && fewer <= hours
    ensures rate * fewer <= rate * hours
  {
  }

  lemma CeilIsMonotone(x: real, y: real)
    requires x <= y
    ensures Ceil(x) <= Ceil(y)
  {
    CeilIsLeast(x, Ceil(y));
  }

  lemma FewerHoursCostNoMore(rate: real, fewer: real, hours: real)
    requires rate >= 0.0 && fewer <= hours
    ensures Ceil(rate * fewer) <= Ceil(rate * hours)
  {
    ScalesUp(rate, fewer, hours);
    CeilIsMonotone(rate * fewer, rate * hours);
  }

  lemma AllowedByCost(f: Funds, rate: real, hours: real)
    ensures CheckTimeLimited(f, rate, hours).allowed <==>
            Ceil(rate * hours) as real <= Effective(f) as real - f.hourlyBurnCents
  {
  }

  /** Asking for less time never turns an acceptance into a refusal. */
  lemma FewerHoursStayAllowed(f: Funds, rate: real, fewer: real, hours: real)
    requires rate >= 0.0 && fewer <= hours && CheckTimeLimited(f, rate, hours).allowed
    ensures CheckTimeLimited(f, rate, fewer).allowed
  {
    FewerHoursCostNoMore(rate, fewer, hours);
    AllowedByCost(f, rate, hours);
    AllowedByCost(f, rate, fewer);
  }

  // ---- Solvency over runs ----

  datatype Org = Org(balanceCents: int, policies: seq<Policy>)

  datatype Event =
    | Admit(rate: real, hours: real, unbilledCents: nat, hourlyBurnCents: real, active: bool)
    | Activate(i: nat)
    | Debit(i: nat, cents: nat)  // of a deployment with a reservation, within it
    | Charge(cents: nat)         // of a deployment without one
    | Stop(i: nat)
    | Deposit(cents: nat)

  predicate Enabled(org: Org, e: Event) {
    match e
    case Admit(rate, hours, unbilled, burn, _) =>
      rate >= 0.0 && hours > 0.0 && burn >= 0.0 &&
      CheckTimeLimited(Funds(org.balanceCents, unbilled, Reserved(org.policies), burn), rate, hours).allowed
    case Activate(i) => i < |org.policies|
    case Debit(i, cents) =>
      i < |org.policies| && !org.policies[i].stopped && cents <= Remaining(org.policies[i])
    case Stop(i) => i < |org.policies|
    case Charge(_) => true
    case Deposit(_) => true
  }

  function Apply(org: Org, e: Event): Org
    requires Enabled(org, e)
  {
    match e
    case Admit(rate, hours, unbilled, burn, active) =>
      org.(policies := org.policies + [Policy(Ceil(rate * hours), 0.0, false, active)])
    case Activate(i) => org.(policies := org.policies[i := org.policies[i].(active := true)])
    case Debit(i, cents) =>
      var p := org.policies[i];
      Org(org.balanceCents - cents, org.policies[i := p.(spentCents := p.spentCents + cents as real)])
    case Stop(i) => org.(policies := org.policies[i := org.policies[i].(stopped := true, reservedCents := 0)])
    case Charge(cents) => org.(balanceCents := org.balanceCents - cents)
    case Deposit(cents) => org.(balanceCents := org.balanceCents + cents)
  }

  /** Everything the running deployments may still be billed, ACTIVE or not. */
  function Committed(ps: seq<Policy>): int {
    if ps == [] then 0
    else Committed(ps[..|ps| - 1]) + if ps[|ps| - 1].stopped then 0 else Remaining(ps[|ps| - 1])
  }

  ghost predicate NoPending(ps: seq<Policy>) {
    forall p :: p in ps ==> p.stopped || p.active
  }

  ghost predicate SpentIsNatural(ps: seq<Policy>) {
    forall p :: p in ps ==> p.spentCents >= 0.0
  }

  ghost predicate Solvent(org: Org) {
    org.balanceCents >= Committed(org.policies) && SpentIsNatural(org.policies)
  }

  /** What is admitted or charged fits beside everything committed, not only beside what the gate counts. */
  predicate Fits(org: Org, e: Event) {
    match e
    case Admit(rate, hours, _, _, _) => Ceil(rate * hours) + Committed(org.policies) <= org.balanceCents
    case Charge(cents) => cents + Committed(org.policies) <= org.balanceCents
    case _ => true
  }

  ghost predicate IsRun(org: Org, events: seq<Event>)
    decreases |events|
  {
    events == [] || (Enabled(org, events[0]) && IsRun(Apply(org, events[0]), events[1..]))
  }

  ghost function RunOf(org: Org, events: seq<Event>): Org
    requires IsRun(org, events)
    decreases |events|
  {
    if events == [] then org else RunOf(Apply(org, events[0]), events[1..])
  }

  ghost predicate AlwaysSolvent(org: Org, events: seq<Event>)
    requires IsRun(org, events)
    decreases |events|
  {
    Solvent(org) && (events == [] || AlwaysSolvent(Apply(org, events[0]), events[1..]))
  }

  ghost predicate AllFit(org: Org, events: seq<Event>)
    requires IsRun(org, events)
    decreases |events|
  {
    events == [] || (Fits(org, events[0]) && AllFit(Apply(org, events[0]), events[1..]))
  }

  lemma {:induction false} CommittedIsNatural(ps: seq<Policy>)
    ensures Committed(ps) >= 0
    ensures NoPending(ps) && SpentIsNatural(ps) ==> Reserved(ps) == Committed(ps)
  {
    if ps == [] {
    } else {
      CommittedIsNatural(ps[..|ps| - 1]);
      CeilIsLeast(ps[|ps| - 1].spentCents, -1);
    }
  }

  lemma {:induction false} CommittedUpdate(ps: seq<Policy>, i: nat, p: Policy)
    requires i < |ps|
    ensures Committed(ps[i := p]) ==
            Committed(ps) - (if ps[i].stopped then 0 else Remaining(ps[i])) + (if p.stopped then 0 else Remaining(p))
  {
    var n := |ps| - 1;
    if i < n {
      assert ps[i := p][..n] == ps[..n][i := p];
      CommittedUpdate(ps[..n], i, p);
    } else {
      assert ps[i := p][..n] == ps[..n];
    }
  }

  /** Debiting whole cents within what remains takes exactly that from what remains. */
  lemma DebitUsesReservation(p: Policy, cents: nat)
    requires cents <= Remaining(p)
    ensures Remaining(p.(spentCents := p.spentCents + cents as real)) == Remaining(p) - cents
  {
  }

  /**
   What an accepted request reserves is not negative, and fits beside the other
   reservations, the accrued cost and an hour of what runs.
   */
  lemma AdmittedFits(f: Funds, rate: real, hours: real)
    requires rate >= 0.0 && hours > 0.0 && f.hourlyBurnCents >= 0.0 && f.unbilledCents >= 0
    requires CheckTimeLimited(f, rate, hours).allowed
    ensures 0 <= Ceil(rate * hours) <= f.balanceCents - f.reservedCents
    ensures (Ceil(rate * hours) + f.unbilledCents) as real + f.hourlyBurnCents <=
            (f.balanceCents - f.reservedCents) as real
  {
    AllowedByCost(f, rate, hours);
    ScalesUp(rate, 0.0, hours);
    CeilIsLeast(rate * hours, -1);
  }

  lemma CommittedAppend(ps: seq<Policy>, p: Policy)
    ensures Committed(ps + [p]) == Committed(ps) + if p.stopped then 0 else Remaining(p)
  {
    assert (ps + [p])[..|ps|] == ps;
  }

  lemma UnspentRemains(cents: nat, active: bool)
    ensures Remaining(Policy(cents, 0.0, false, active)) == cents
  {
    assert Ceil(0.0) == 0;
  }

  lemma SpentStaysNatural(ps: seq<Policy>, p: Policy)
    requires SpentIsNatural(ps) && p.spentCents >= 0.0
    ensures SpentIsNatural(ps + [p])
  {
  }

  /** Adding a reservation keeps the wallet solvent exactly when it fits beside everything committed. */
  lemma ReservationStaysSolventIff(org: Org, cents: nat, active: bool)
    requires Solvent(org)
    ensures Solvent(org.(policies := org.policies + [Policy(cents, 0.0, false, active)])) <==>
            cents + Committed(org.policies) <= org.balanceCents
  {
    var p := Policy(cents, 0.0, false, active);
    CommittedAppend(org.policies, p);
    UnspentRemains(cents, active);
    SpentStaysNatural(org.policies, p);
  }

  /** The wallet covers everything committed, `cents` more, the accrued cost and an hour of what runs. */
  predicate HasRoom(org: Org, cents: int, unbilledCents: nat, burn: real) {
    (cents + Committed(org.policies) + unbilledCents) as real + burn <= org.balanceCents as real
  }

  /** With no reservation waiting to become ACTIVE, the gate's own count is exact and what it admits fits. */
  lemma NothingPendingFits(org: Org, e: Event)
    requires Solvent(org) && Enabled(org, e) && e.Admit? && NoPending(org.policies)
    ensures Fits(org, e)
    ensures HasRoom(org, Ceil(e.rate * e.hours), e.unbilledCents, e.hourlyBurnCents)
  {
    CommittedIsNatural(org.policies);
    AdmittedFits(Funds(org.balanceCents, e.unbilledCents, Reserved(org.policies), e.hourlyBurnCents), e.rate, e.hours);
  }

  lemma AdmitStaysSolventIff(org: Org, e: Event)
    requires Solvent(org) && Enabled(org, e) && e.Admit?
    ensures Solvent(Apply(org, e)) <==> Fits(org, e)
  {
    var funds := Funds(org.balanceCents, e.unbilledCents, Reserved(org.policies), e.hourlyBurnCents);
    AdmittedFits(funds, e.rate, e.hours);
    ReservationStaysSolventIff(org, Ceil(e.rate * e.hours), e.active);
  }

  lemma ReservationIsCommitted(ps: seq<Policy>, cents: nat, active: bool)
    ensures Committed(ps + [Policy(cents, 0.0, false, active)]) == cents + Committed(ps)
  {
    CommittedAppend(ps, Policy(cents, 0.0, false, active));
    UnspentRemains(cents, active);
  }

  lemma RoomIsLeft(org: Org, cents: nat, active: bool, unbilledCents: nat, burn: real)
    requires HasRoom(org, cents, unbilledCents, burn)
    ensures HasRoom(org.(policies := org.policies + [Policy(cents, 0.0, false, active)]), 0, unbilledCents, burn)
  {
    ReservationIsCommitted(org.policies, cents, active);
  }

  lemma ApplyAdmit(org: Org, e: Event)
    requires Enabled(org, e) && e.Admit?
    ensures Apply(org, e) == org.(policies := org.policies + [Policy(Ceil(e.rate * e.hours), 0.0, false, e.active)])
  {
  }

  lemma AdmittedCents(org: Org, e: Event) returns (cents: nat)
    requires Solvent(org) && Enabled(org, e) && e.Admit? && NoPending(org.policies)
    ensures Apply(org, e) == org.(policies := org.policies + [Policy(cents, 0.0, false, e.active)])
    ensures HasRoom(org, cents, e.unbilledCents, e.hourlyBurnCents)
  {
    NothingPendingFits(org, e);
    AdmittedFits(Funds(org.balanceCents, e.unbilledCents, Reserved(org.policies), e.hourlyBurnCents), e.rate, e.hours);
    ApplyAdmit(org, e);
    cents := Ceil(e.rate * e.hours);
  }

  /** After such an admission the wallet covers everything committed, the accrued cost and an hour of what runs. */
  lemma AdmissionLeavesRoom(org: Org, e: Event)
    requires Solvent(org) && Enabled(org, e) && e.Admit? && NoPending(org.policies)
    ensures HasRoom(Apply(org, e), 0, e.unbilledCents, e.hourlyBurnCents)
  {
    var cents := AdmittedCents(org, e);
    RoomIsLeft(org, cents, e.active, e.unbilledCents, e.hourlyBurnCents);
  }

  lemma ActivateStaysSolvent(org: Org, i: nat)
    requires Solvent(org) && i < |org.policies|
    ensures Solvent(Apply(org, Activate(i)))
  {
    CommittedUpdate(org.policies, i, org.policies[i].(active := true));
  }

  lemma DebitStaysSolvent(org: Org, i: nat, cents: nat)
    requires Solvent(org) && Enabled(org, Debit(i, cents))
    ensures Solvent(Apply(org, Debit(i, cents)))
  {
    DebitUsesReservation(org.policies[i], cents);
    CommittedUpdate(org.policies, i, org.policies[i].(spentCents := org.policies[i].spentCents + cents as real));
  }

  lemma StopStaysSolvent(org: Org, i: nat)
    requires Solvent(org) && i < |org.policies|
    ensures Solvent(Apply(org, Stop(i)))
  {
    var p := org.policies[i];
    CommittedUpdate(org.policies, i, p.(stopped := true, reservedCents := 0));
    CeilIsLeast(p.spentCents, -1);
  }

  /** A step keeps the wallet at or above everything committed, exactly when what it admits or charges fits. */
  lemma StepStaysSolventIff(org: Org, e: Event)
    requires Solvent(org) && Enabled(org, e)
    ensures Solvent(Apply(org, e)) <==> Fits(org, e)
  {
    match e
    case Admit(_, _, _, _, _) => AdmitStaysSolventIff(org, e);
    case Activate(i) => ActivateStaysSolvent(org, i);
    case Debit(i, cents) => DebitStaysSolvent(org, i, cents);
    case Stop(i) => StopStaysSolvent(org, i);
    case Charge(_) =>
    case Deposit(_) =>
  }

  /**
   Along any run the wallet always covers all that is still reserved, if and
   only if every admission and charge fits beside everything committed then.
   */
  lemma {:induction false} RunsStaySolventIff(org: Org, events: seq<Event>)
    requires Solvent(org) && IsRun(org, events)
    ensures AlwaysSolvent(org, events) <==> AllFit(org, events)
    decreases |events|
  {
    if events == [] {
    } else {
      var next := Apply(org, events[0]);
      StepStaysSolventIff(org, events[0]);
      if Solvent(next) { RunsStaySolventIff(next, events[1..]); }
    }
  }

  ghost predicate ChargesFit(org: Org, events: seq<Event>)
    requires IsRun(org, events)
    decreases |events|
  {
    events == [] ||
    ((events[0].Charge? ==> Fits(org, events[0])) && ChargesFit(Apply(org, events[0]), events[1..]))
  }

  lemma StepKeepsNothingPending(org: Org, e: Event)
    requires Enabled(org, e) && NoPending(org.policies) && (e.Admit? ==> e.active)
    ensures NoPending(Apply(org, e).policies)
  {
  }

  lemma {:induction false} NoChargeFits(org: Org, events: seq<Event>)
    requires IsRun(org, events) && forall e :: e in events ==> !e.Charge?
    ensures ChargesFit(org, events)
    decreases |events|
  {
    if events == [] {
    } else {
      assert events[0] in events && forall e :: e in events[1..] ==> e in events;
      NoChargeFits(Apply(org, events[0]), events[1..]);
    }
  }

  /**
   What the gate promises: where every deployment is ACTIVE once admitted, the
   wallet covers everything reserved along every run of admissions, debits,
   stops and deposits, and with other charges exactly if those fit.
   */
  lemma {:induction false} ActiveRunsStaySolvent(org: Org, events: seq<Event>)
    requires Solvent(org) && NoPending(org.policies) && IsRun(org, events)
    requires forall e :: e in events && e.Admit? ==> e.active
    ensures AlwaysSolvent(org, events) <==> ChargesFit(org, events)
    ensures (forall e :: e in events ==> !e.Charge?) ==> AlwaysSolvent(org, events)
    decreases |events|
  {
    if forall e :: e in events ==> !e.Charge? { NoChargeFits(org, events); }
    if events == [] {
    } else {
      var e, next := events[0], Apply(org, events[0]);
      assert e in events && forall later :: later in events[1..] ==> later in events;
      if e.Admit? { NothingPendingFits(org, e); }
      StepStaysSolventIff(org, e);
      StepKeepsNothingPending(org, e);
      if Solvent(next) { ActiveRunsStaySolvent(next, events[1..]); }
    }
  }

  ghost predicate Running(org: Org, order: seq<nat>) {
    forall k :: 0 <= k < |order| ==> order[k] < |org.policies| && !org.policies[order[k]].stopped
  }

  /** What is left of each reservation, debited in the order given. */
  ghost function BillInFull(org: Org, order: seq<nat>): seq<Event>
    requires Running(org, order)
    decreases |order|
  {
    if order == [] then []
    else
      var e := Debit(order[0], Remaining(org.policies[order[0]]));
      [e] + BillInFull(Apply(org, e), order[1..])
  }

  /** Nothing but wallet and spending moved, by the same amount, and no used-up reservation came back. */
  ghost predicate Billed(org: Org, end: Org) {
    && end.balanceCents - Committed(end.policies) == org.balanceCents - Committed(org.policies)
    && |end.policies| == |org.policies|
    && forall i :: 0 <= i < |org.policies| ==>
         end.policies[i].stopped == org.policies[i].stopped
         && (Remaining(org.policies[i]) == 0 ==> Remaining(end.policies[i]) == 0)
  }

  lemma BillOne(org: Org, i: nat)
    requires i < |org.policies| && !org.policies[i].stopped
    ensures var e := Debit(i, Remaining(org.policies[i]));
            && Enabled(org, e) && Billed(org, Apply(org, e)) && Remaining(Apply(org, e).policies[i]) == 0
  {
    var p := org.policies[i];
    DebitUsesReservation(p, Remaining(p));
    CommittedUpdate(org.policies, i, p.(spentCents := p.spentCents + Remaining(p) as real));
  }

  /** All running reservations can be billed in full, in any order, which uses them up. */
  lemma {:induction false} BillInFullIsRun(org: Org, order: seq<nat>)
    requires Running(org, order)
    ensures IsRun(org, BillInFull(org, order))
    ensures var end := RunOf(org, BillInFull(org, order));
            Billed(org, end) && forall k :: 0 <= k < |order| ==> Remaining(end.policies[order[k]]) == 0
    decreases |order|
  {
    if order == [] {
    } else {
      var e := Debit(order[0], Remaining(org.policies[order[0]]));
      BillOne(org, order[0]);
      BillInFullIsRun(Apply(org, e), order[1..]);
      var events := BillInFull(org, order);
      assert events[0] == e && events[1..] == BillInFull(Apply(org, e), order[1..]);
      assert forall k :: 1 <= k < |order| ==> order[k] == order[1..][k - 1];
    }
  }

  lemma {:induction false} NothingLeftToBill(ps: seq<Policy>)
    requires forall i :: 0 <= i < |ps| ==> ps[i].stopped || Remaining(ps[i]) == 0
    ensures Committed(ps) == 0
  {
    if ps == [] {
    } else {
      NothingLeftToBill(ps[..|ps| - 1]);
    }
  }

  /**
   What solvency is for: after billing every running deployment all it has
   reserved, the wallet holds what was not committed; it is not overdrawn
   exactly when it covered everything committed.
   */
  lemma BilledBalance(org: Org, order: seq<nat>)
    requires Running(org, order)
    requires forall i :: 0 <= i < |org.policies| && !org.policies[i].stopped ==> i in order
    ensures IsRun(org, BillInFull(org, order))
    ensures var end := RunOf(org, BillInFull(org, order));
            && end.balanceCents == org.balanceCents - Committed(org.policies)
            && (SpentIsNatural(org.policies) ==> (end.balanceCents >= 0 <==> Solvent(org)))
  {
    BillInFullIsRun(org, order);
    var end := RunOf(org, BillInFull(org, order));
    forall i | 0 <= i < |end.policies|
      ensures end.policies[i].stopped || Remaining(end.policies[i]) == 0
    {
      if !org.policies[i].stopped {
        var k :| 0 <= k < |order| && order[k] == i;
      }
    }
    NothingLeftToBill(end.policies);
  }

  /**
   Only reservations of ACTIVE deployments count, so two that are admitted
   before either is ACTIVE can promise the same money twice.
   */
  lemma PendingReservationsOvercommit(cents: nat)
    requires cents > 0
    ensures var first := Admit(cents as real, 1.0, 0, 0.0, false);
            var org := Org(cents, []);
            && Enabled(org, first) && Enabled(Apply(org, first), first)
            && Committed(Apply(Apply(org, first), first).policies) == 2 * cents > org.balanceCents
  {
    var org, p := Org(cents, []), Policy(cents, 0.0, false, false);
    AdmitPending(org, cents);
    NotCounted([], p);
    AdmitPending(Org(cents, [] + [p]), cents);
    UnspentRemains(cents, false);
    CommittedAppend([], p);
    CommittedAppend([] + [p], p);
  }

  lemma NotCounted(ps: seq<Policy>, p: Policy)
    requires !p.active
    ensures Reserved(ps + [p]) == Reserved(ps)
  {
    assert (ps + [p])[..|ps|] == ps;
  }

  lemma WholeCost(cents: nat)
    ensures Ceil(cents as real * 1.0) == cents
  {
    assert cents as real * 1.0 == cents as real;
    CeilIsLeast(cents as real, cents);
  }

  lemma WholeCostIsAllowed(cents: nat)
    ensures CheckTimeLimited(Funds(cents, 0, 0, 0.0), cents as real, 1.0).allowed
  {
    WholeCost(cents);
    AllowedByCost(Funds(cents, 0, 0, 0.0), cents as real, 1.0);
  }

  lemma AdmitPending(org: Org, cents: nat)
    requires Reserved(org.policies) == 0 && org.balanceCents == cents
    ensures var e := Admit(cents as real, 1.0, 0, 0.0, false);
            Enabled(org, e) && Apply(org, e) == Org(cents, org.policies + [Policy(cents, 0.0, false, false)])
  {
    WholeCostIsAllowed(cents);
    WholeCost(cents);
  }
}
