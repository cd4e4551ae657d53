/**
 src/lib/leaseChain.ts: when a workload has been running since, read off the
 chain of deployment rows that replaced one another; and the second reading
 of the same chain in scripts/explain-deployment-timer.ts.
 */
module LeaseChain {
  import opened Option
  import opened OrderedMap

  const MAX_CHAIN_DEPTH := 100

  /** `activeSince` is `deployedAt` on Akash and `activeStartedAt` on Phala and Spheron. */
  datatype Row = Row(
    activeSince: Option<int>,
    failoverParentId: Option<string>, resumedFromId: Option<string>, parentDeploymentId: Option<string>)

  type Table = map<string, Row>

  datatype Provider = Akash | Phala | Spheron

  /** The `??` operator. */
  function Coalesce<T>(a: Option<T>, b: Option<T>): Option<T> {
    if a.Some? then a else b
  }

  /** The row the walk visits next; an empty id ends the walk like a null one. */
  function ParentId(p: Provider, r: Row): Option<string> {
    var rest := Coalesce(r.resumedFromId, r.parentDeploymentId);
    var id := if p == Akash then Coalesce(r.failoverParentId, rest) else rest;
    if id == Some("") then None else id
  }

  function FindUnique(t: Table, id: Option<string>): Option<string> {
    if id.Some? && id.value in t then id else None
  }

  /** The `n`-th row of the walk, with no guard against cycles and no cap. */
  function Nth(p: Provider, t: Table, head: string, n: nat): (id: Option<string>)
    ensures id.Some? ==> id.value in t
  {
    if n == 0 then FindUnique(t, Some(head))
    else
      var child := Nth(p, t, head, n - 1);
      if child.None? then None else FindUnique(t, ParentId(p, t[child.value]))
  }

  /**
   Which link the walk follows: on Akash the failover link first, elsewhere not
   at all; then the resume link; then the retry link. It ends at a row without
   one, at an empty one, and at one to a row that does not exist.
   */
  lemma WalkMeaning(p: Provider, t: Table, head: string, n: nat)
    ensures Nth(p, t, head, 0) == if head in t then Some(head) else None
    ensures Nth(p, t, head, n) == None ==> Nth(p, t, head, n + 1) == None
    ensures Nth(p, t, head, n).Some? ==>
              var r := t[Nth(p, t, head, n).value];
              var link :=
                if p == Akash && r.failoverParentId.Some? then r.failoverParentId
                else if r.resumedFromId.Some? then r.resumedFromId
                else r.parentDeploymentId;
              Nth(p, t, head, n + 1) ==
              if link == None || link == Some("") || link.value !in t then None else link
  {
  }

  // ---- Earliest times, with None for "never" ----

  function Earlier(a: Option<int>, b: Option<int>): Option<int> {
    if a.None? then b
    else if b.None? then a
    else if b.value < a.value then b
    else a
  }

  predicate NoLater(a: Option<int>, b: Option<int>) {
    b.None? || (a.Some? && a.value <= b.value)
  }

  function TimeOf(t: Table, id: Option<string>): Option<int>
    requires id.Some? ==> id.value in t
  {
    if id.Some? then t[id.value].activeSince else None
  }

  /** The earliest time among the first `n` positions of the unguarded walk. */
  function Since(p: Provider, t: Table, head: string, n: nat): Option<int> {
    if n == 0 then None else Earlier(Since(p, t, head, n - 1), TimeOf(t, Nth(p, t, head, n - 1)))
  }

  function ActiveSince(p: Provider, t: Table, head: string): Option<int> {
    Since(p, t, head, MAX_CHAIN_DEPTH)
  }

  /** `Since` is the minimum: no row of the walk is earlier, and one has that very time. */
  lemma {:induction false} SinceIsMinimum(p: Provider, t: Table, head: string, n: nat)
    ensures forall k :: 0 <= k < n ==> NoLater(Since(p, t, head, n), TimeOf(t, Nth(p, t, head, k)))
    ensures forall k :: 0 <= k < n && TimeOf(t, Nth(p, t, head, k)).Some? ==>
              Since(p, t, head, n).Some? && Since(p, t, head, n).value <= TimeOf(t, Nth(p, t, head, k)).value
    ensures Since(p, t, head, n).Some? ==>
              exists k :: 0 <= k < n && TimeOf(t, Nth(p, t, head, k)) == Since(p, t, head, n)
  {
    if n == 0 {
    } else {
      SinceIsMinimum(p, t, head, n - 1);
      if Since(p, t, head, n) != Since(p, t, head, n - 1) {
        assert TimeOf(t, Nth(p, t, head, n - 1)) == Since(p, t, head, n);
      }
    }
  }

  /** From a repeated row on, the walk repeats rows it has already visited. */
  lemma {:induction false} WalkCycles(p: Provider, t: Table, head: string, j: nat, i: nat, k: nat)
    requires j < i <= k && Nth(p, t, head, i) == Nth(p, t, head, j)
    ensures exists m :: 0 <= m < i && Nth(p, t, head, k) == Nth(p, t, head, m)
  {
    if k == i {
    } else {
      WalkCycles(p, t, head, j, i, k - 1);
      var m :| 0 <= m < i && Nth(p, t, head, k - 1) == Nth(p, t, head, m);
      assert Nth(p, t, head, k) == Nth(p, t, head, m + 1);
      if m + 1 == i {
        assert Nth(p, t, head, k) == Nth(p, t, head, j);
      }
    }
  }

  /** The walk has nothing new after position `i`: it ended there, or it repeats a row. */
  ghost predicate Exhausted(p: Provider, t: Table, head: string, i: nat) {
    Nth(p, t, head, i).None? || exists j :: 0 <= j < i && Nth(p, t, head, j) == Nth(p, t, head, i)
  }

  lemma {:induction false} EndedWalk(p: Provider, t: Table, head: string, i: nat, k: nat)
    requires i <= k && Nth(p, t, head, i).None?
    ensures Nth(p, t, head, k).None?
  {
    if i == k {
    } else {
      EndedWalk(p, t, head, i, k - 1);
    }
  }

  /** Stopping at an exhausted position loses nothing, on cyclic graphs too. */
  lemma {:induction false} StoppingIsExact(p: Provider, t: Table, head: string, i: nat, n: nat)
    requires i <= n && Exhausted(p, t, head, i)
    ensures Since(p, t, head, i) == Since(p, t, head, n)
  {
    if i == n {
    } else {
      StoppingIsExact(p, t, head, i, n - 1);
      if Nth(p, t, head, i).None? {
        EndedWalk(p, t, head, i, n - 1);
      } else {
        var j :| 0 <= j < i && Nth(p, t, head, j) == Nth(p, t, head, i);
        WalkCycles(p, t, head, j, i, n - 1);
        SinceIsMinimum(p, t, head, i);
      }
    }
  }

  // ---- The two walkers ----

  /** The loop shared by `resolveAkashActiveSince`, `resolvePhalaActiveSince` and `resolveSpheronActiveSince`. */
  method ResolveActiveSince(p: Provider, t: Table, head: string) returns (earliest: Option<int>)
    ensures earliest == ActiveSince(p, t, head)
  {
    earliest := None;
    var visited: set<string> := {};
    var cursor := FindUnique(t, Some(head));
    var i := 0;
    while i < MAX_CHAIN_DEPTH && cursor.Some?
      invariant 0 <= i <= MAX_CHAIN_DEPTH
      invariant cursor == Nth(p, t, head, i)
      invariant earliest == Since(p, t, head, i)
      invariant forall id :: id in visited ==> exists j :: 0 <= j < i && Nth(p, t, head, j) == Some(id)
    {
      if cursor.value in visited {
        StoppingIsExact(p, t, head, i, MAX_CHAIN_DEPTH);
        return;
      }
      visited := visited + {cursor.value};
      var row := t[cursor.value];
      if row.activeSince.Some? && (earliest.None? || row.activeSince.value < earliest.value) {
        earliest := row.activeSince;
      }
      var parentId := ParentId(p, row);
      i := i + 1;
      if parentId.None? {
        StoppingIsExact(p, t, head, i, MAX_CHAIN_DEPTH);
        return;
      }
      cursor := FindUnique(t, parentId);
    }
    if cursor.None? {
      StoppingIsExact(p, t, head, i, MAX_CHAIN_DEPTH);
    }
  }

  /** The chain the explain script prints: the first distinct rows of the walk, at most 100. */
  ghost predicate IsChain(p: Provider, t: Table, head: string, chain: seq<string>) {
    && NoDuplicates(chain)
    && |chain| <= MAX_CHAIN_DEPTH
    && (forall i :: 0 <= i < |chain| ==> Nth(p, t, head, i) == Some(chain[i]))
    && (|chain| == MAX_CHAIN_DEPTH || Exhausted(p, t, head, |chain|))
  }

  function Fold(t: Table, chain: seq<string>): Option<int>
    requires forall id :: id in chain ==> id in t
  {
    if chain == [] then None
    else Earlier(Fold(t, chain[..|chain| - 1]), t[chain[|chain| - 1]].activeSince)
  }

  lemma {:induction false} FoldIsSince(p: Provider, t: Table, head: string, chain: seq<string>)
    requires forall i :: 0 <= i < |chain| ==> Nth(p, t, head, i) == Some(chain[i])
    requires forall id :: id in chain ==> id in t
    ensures Fold(t, chain) == Since(p, t, head, |chain|)
  {
    if chain == [] {
    } else {
      FoldIsSince(p, t, head, chain[..|chain| - 1]);
    }
  }

  /** What the explain script computes from its chain is what the API returns. */
  lemma ExplainAgrees(p: Provider, t: Table, head: string, chain: seq<string>)
    requires IsChain(p, t, head, chain)
    ensures forall id :: id in chain ==> id in t
    ensures Fold(t, chain) == ActiveSince(p, t, head)
  {
    forall id | id in chain
      ensures id in t
    {
      var i :| 0 <= i < |chain| && chain[i] == id;
    }
    FoldIsSince(p, t, head, chain);
    if |chain| < MAX_CHAIN_DEPTH { StoppingIsExact(p, t, head, |chain|, MAX_CHAIN_DEPTH); }
  }

  /** `loadAkashChain` and `loadPhalaChain`; the head is a row's id, so it is not empty. */
  method LoadChain(p: Provider, t: Table, head: string) returns (chain: seq<string>)
    requires head != ""
    ensures IsChain(p, t, head, chain)
  {
    chain := [];
    var seen: set<string> := {};
    var cursor := Some(head);
    while cursor.Some? && cursor.value !in seen && |chain| < MAX_CHAIN_DEPTH
      invariant |chain| <= MAX_CHAIN_DEPTH
      invariant forall id :: id in chain <==> id in seen
      invariant NoDuplicates(chain)
      invariant forall i :: 0 <= i < |chain| ==> Nth(p, t, head, i) == Some(chain[i])
      invariant FindUnique(t, cursor) == Nth(p, t, head, |chain|)
      decreases MAX_CHAIN_DEPTH - |chain|
    {
      seen := seen + {cursor.value};
      if cursor.value !in t {
        return;
      }
      chain := chain + [cursor.value];
      cursor := ParentId(p, t[cursor.value]);
    }
    if cursor.Some? && cursor.value in seen {
      var i :| 0 <= i < |chain| && chain[i] == cursor.value;
      assert cursor.value in t;
      assert Nth(p, t, head, i) == Nth(p, t, head, |chain|);
    }
  }

  /** The fold over the chain in `explain`. */
  method Explain(p: Provider, t: Table, head: string) returns (first: Option<int>)
    requires head != ""
    ensures first == ActiveSince(p, t, head)
  {
    var chain := LoadChain(p, t, head);
    ExplainAgrees(p, t, head, chain);
    first := None;
    for i := 0 to |chain|
      invariant first == Fold(t, chain[..i])
    {
      var at := t[chain[i]].activeSince;
      assert chain[..i + 1][..i] == chain[..i];
      if at.Some? && (first.None? || at.value < first.value) {
        first := at;
      }
    }
    assert chain[..|chain|] == chain;
  }
}
