/**
 scripts/backfill-service-registry.ts: link every site and function that has
 no service yet to one in the registry, creating it where it is missing.
 */
module Backfill {
  import opened Option

  datatype Kind = SITE | FUNCTION

  datatype Service = Service(id: nat, kind: Kind, slug: string, projectId: string)

  datatype Resource = Resource(id: string, slug: string, projectId: string, serviceId: Option<nat>)

  datatype Conflict = Conflict(
    kind: Kind, resourceId: string, slug: string, resourceProjectId: string, existingServiceProjectId: string)

  /** The registry; ids are handed out in order. */
  datatype Registry = Registry(services: seq<Service>, nextId: nat)

  /** `findUnique` on the pair of type and slug. */
  function Find(services: seq<Service>, kind: Kind, slug: string): (s: Option<Service>)
    ensures s.Some? ==> s.value in services && s.value.kind == kind && s.value.slug == slug
    ensures s.None? ==> forall t :: t in services ==> t.kind != kind || t.slug != slug
  {
    if services == [] then None
    else if services[0].kind == kind && services[0].slug == slug then Some(services[0])
    else Find(services[1..], kind, slug)
  }

  /** The state of a pass: registry, rows, and what it counted and reported. */
  datatype Pass = Pass(registry: Registry, rows: seq<Resource>, created: nat, reused: nat, conflicts: seq<Conflict>)

  /** One iteration of the loop, for the row at `i`; a row that already has a service is not selected. */
  function Visit(p: Pass, kind: Kind, i: nat): Pass
    requires i < |p.rows|
  {
    var r := p.rows[i];
    if r.serviceId.Some? then p
    else
      match Find(p.registry.services, kind, r.slug)
      case Some(existing) =>
        if existing.projectId != r.projectId then
          p.(conflicts := p.conflicts + [Conflict(kind, r.id, r.slug, r.projectId, existing.projectId)])
        else
          p.(rows := p.rows[i := r.(serviceId := Some(existing.id))], reused := p.reused + 1)
      case None =>
        var id := p.registry.nextId;
        p.(registry := Registry(p.registry.services + [Service(id, kind, r.slug, r.projectId)], id + 1),
           rows := p.rows[i := r.(serviceId := Some(id))],
           created := p.created + 1)
  }

  /** The pass over the first `n` rows. */
  function PassTo(reg: Registry, kind: Kind, rows: seq<Resource>, n: nat): (p: Pass)
    requires n <= |rows|
    ensures |p.rows| == |rows|
  {
    if n == 0 then Pass(reg, rows, 0, 0, []) else Visit(PassTo(reg, kind, rows, n - 1), kind, n - 1)
  }

  function FullPass(reg: Registry, kind: Kind, rows: seq<Resource>): Pass {
    PassTo(reg, kind, rows, |rows|)
  }

  // ---- The registry ----

  ghost predicate WellFormed(reg: Registry) {
    && (forall i :: 0 <= i < |reg.services| ==> reg.services[i].id < reg.nextId)
    && (forall i, j :: 0 <= i < j < |reg.services| ==> reg.services[i].id != reg.services[j].id)
    && forall i, j | 0 <= i < j < |reg.services| && reg.services[i].kind == reg.services[j].kind ::
         reg.services[i].slug != reg.services[j].slug
  }

  /** A pass only appends services. */
  lemma {:induction false} PassExtendsRegistry(reg: Registry, kind: Kind, rows: seq<Resource>, m: nat, n: nat)
    requires m <= n <= |rows|
    ensures PassTo(reg, kind, rows, m).registry.services <= PassTo(reg, kind, rows, n).registry.services
  {
    if m == n {
    } else {
      PassExtendsRegistry(reg, kind, rows, m, n - 1);
    }
  }

  lemma VisitKeepsWellFormed(p: Pass, kind: Kind, i: nat)
    requires i < |p.rows| && WellFormed(p.registry)
    ensures WellFormed(Visit(p, kind, i).registry)
  {
  }

  /** Service ids, and pairs of type and slug, stay unique. */
  lemma {:induction false} PassKeepsWellFormed(reg: Registry, kind: Kind, rows: seq<Resource>, n: nat)
    requires n <= |rows| && WellFormed(reg)
    ensures WellFormed(PassTo(reg, kind, rows, n).registry)
  {
    if n == 0 {
    } else {
      PassKeepsWellFormed(reg, kind, rows, n - 1);
      VisitKeepsWellFormed(PassTo(reg, kind, rows, n - 1), kind, n - 1);
    }
  }

  /** A service that is found stays the one found as the registry grows. */
  lemma {:induction false} FindIsStable(services: seq<Service>, more: seq<Service>, kind: Kind, slug: string)
    requires services <= more && Find(services, kind, slug).Some?
    ensures Find(more, kind, slug) == Find(services, kind, slug)
  {
    assert more[0] == services[0];
    if services[0].kind == kind && services[0].slug == slug {
    } else {
      FindIsStable(services[1..], more[1..], kind, slug);
    }
  }

  // ---- What a pass does to a row ----

  predicate Fits(s: Service, kind: Kind, r: Resource) {
    s.kind == kind && s.slug == r.slug && s.projectId == r.projectId
  }

  /** Row `r` points to a service of its own type, slug and project. */
  ghost predicate LinkedRightly(services: seq<Service>, kind: Kind, r: Resource) {
    exists s :: s in services && r.serviceId == Some(s.id) && Fits(s, kind, r)
  }

  /** The (type, slug) of row `r` belongs to another project. */
  predicate IsConflict(services: seq<Service>, kind: Kind, r: Resource) {
    var found := Find(services, kind, r.slug);
    found.Some? && found.value.projectId != r.projectId
  }

  lemma {:induction false} RowsAhead(reg: Registry, kind: Kind, rows: seq<Resource>, n: nat, i: nat)
    requires n <= i < |rows|
    ensures PassTo(reg, kind, rows, n).rows[i] == rows[i]
  {
    if n == 0 {
    } else {
      RowsAhead(reg, kind, rows, n - 1, i);
    }
  }

  lemma {:induction false} RowsBehind(reg: Registry, kind: Kind, rows: seq<Resource>, i: nat, n: nat)
    requires i < n <= |rows|
    ensures PassTo(reg, kind, rows, n).rows[i] == PassTo(reg, kind, rows, i + 1).rows[i]
  {
    if i + 1 == n {
    } else {
      RowsBehind(reg, kind, rows, i, n - 1);
    }
  }

  lemma MoreServices(services: seq<Service>, more: seq<Service>, kind: Kind, r: Resource)
    requires services <= more
    ensures LinkedRightly(services, kind, r) ==> LinkedRightly(more, kind, r)
    ensures IsConflict(services, kind, r) ==> IsConflict(more, kind, r)
  {
    if s :| s in services && r.serviceId == Some(s.id) && Fits(s, kind, r) {
      assert s in more;
    }
    if IsConflict(services, kind, r) { FindIsStable(services, more, kind, r.slug); }
  }

  lemma VisitedRow(reg: Registry, kind: Kind, rows: seq<Resource>, i: nat)
    requires i < |rows|
    ensures var p, r' := PassTo(reg, kind, rows, i + 1), PassTo(reg, kind, rows, i + 1).rows[i];
            if rows[i].serviceId.Some? then r' == rows[i]
            else
              && r'.(serviceId := None) == rows[i]
              && (r'.serviceId.Some? ==> LinkedRightly(p.registry.services, kind, r'))
              && (r'.serviceId.None? ==> IsConflict(p.registry.services, kind, r'))
              && (r'.serviceId.None? <==> IsConflict(PassTo(reg, kind, rows, i).registry.services, kind, r'))
  {
    RowsAhead(reg, kind, rows, i, i);
    var before, p := PassTo(reg, kind, rows, i), PassTo(reg, kind, rows, i + 1);
    if rows[i].serviceId.None? && Find(before.registry.services, kind, rows[i].slug).None? {
      var s := p.registry.services[|before.registry.services|];
      assert s in p.registry.services;
    }
  }

  /**
   Every row without a service ends up either linked to a service of its own
   type, slug and project, or unlinked because another project owns its type
   and slug; rows that had a service are unchanged.
   */
  lemma EveryRowIsSettled(reg: Registry, kind: Kind, rows: seq<Resource>, i: nat)
    requires i < |rows|
    ensures var p, r' := FullPass(reg, kind, rows), FullPass(reg, kind, rows).rows[i];
            if rows[i].serviceId.Some? then r' == rows[i]
            else
              && r'.(serviceId := None) == rows[i]
              && (r'.serviceId.Some? <==> LinkedRightly(p.registry.services, kind, r'))
              && (r'.serviceId.None? <==> IsConflict(p.registry.services, kind, rows[i]))
  {
    VisitedRow(reg, kind, rows, i);
    RowsBehind(reg, kind, rows, i, |rows|);
    PassExtendsRegistry(reg, kind, rows, i + 1, |rows|);
    PassExtendsRegistry(reg, kind, rows, i, |rows|);
    var at, end := PassTo(reg, kind, rows, i + 1), FullPass(reg, kind, rows);
    MoreServices(at.registry.services, end.registry.services, kind, at.rows[i]);
    if at.rows[i].serviceId.Some? && rows[i].serviceId.None? {
      FoundAfterLink(reg, kind, rows, i);
      FindIsStable(at.registry.services, end.registry.services, kind, rows[i].slug);
    }
  }

  /** Once a row has been linked, its type and slug are found, in its own project. */
  lemma FoundAfterLink(reg: Registry, kind: Kind, rows: seq<Resource>, i: nat)
    requires i < |rows| && rows[i].serviceId.None? && PassTo(reg, kind, rows, i + 1).rows[i].serviceId.Some?
    ensures var found := Find(PassTo(reg, kind, rows, i + 1).registry.services, kind, rows[i].slug);
            found.Some? && found.value.projectId == rows[i].projectId
  {
    RowsAhead(reg, kind, rows, i, i);
    var before := PassTo(reg, kind, rows, i).registry.services;
    if Find(before, kind, rows[i].slug).None? {
      FindAppended(before, PassTo(reg, kind, rows, i).registry.nextId, kind, rows[i]);
    }
  }

  lemma {:induction false} FindAppended(services: seq<Service>, id: nat, kind: Kind, r: Resource)
    requires Find(services, kind, r.slug).None?
    ensures Find(services + [Service(id, kind, r.slug, r.projectId)], kind, r.slug) ==
            Some(Service(id, kind, r.slug, r.projectId))
  {
  }

  // ---- What is reported and created ----

  /** `c` reports row `r` against a service of another project that owns its type and slug. */
  ghost predicate Reports(services: seq<Service>, kind: Kind, r: Resource, c: Conflict) {
    && c.kind == kind && c.resourceId == r.id && c.slug == r.slug && c.resourceProjectId == r.projectId
    && exists s :: s in services && s.kind == kind && s.slug == r.slug &&
                   s.projectId == c.existingServiceProjectId != r.projectId
  }

  lemma ReportsStay(services: seq<Service>, more: seq<Service>, kind: Kind, r: Resource, c: Conflict)
    requires services <= more && Reports(services, kind, r, c)
    ensures Reports(more, kind, r, c)
  {
    var s :| s in services && s.kind == kind && s.slug == r.slug &&
             s.projectId == c.existingServiceProjectId != r.projectId;
    assert s in more;
  }

  lemma VisitReports(p: Pass, kind: Kind, i: nat)
    requires i < |p.rows|
    ensures var q, r := Visit(p, kind, i), p.rows[i];
            && p.conflicts <= q.conflicts && p.registry.services <= q.registry.services
            && |q.conflicts| == |p.conflicts| + (if r.serviceId.None? && q.rows[i].serviceId.None? then 1 else 0)
            && (|q.conflicts| > |p.conflicts| ==>
                  r.serviceId.None? && q.rows[i] == r &&
                  Reports(q.registry.services, kind, r, q.conflicts[|p.conflicts|]))
            && (|q.registry.services| > |p.registry.services| ==>
                  var s := q.registry.services[|p.registry.services|];
                  && |q.registry.services| == |p.registry.services| + 1
                  && s.kind == kind && s.slug == r.slug && s.projectId == r.projectId
                  && r.serviceId.None? && q.rows[i].serviceId == Some(s.id))
  {
  }

  /** `c` reports the unlinked row `i` of a pass over `rows`. */
  ghost predicate ReportsRow(p: Pass, kind: Kind, rows: seq<Resource>, i: int, c: Conflict) {
    && 0 <= i < |rows| == |p.rows| && rows[i].serviceId.None? && p.rows[i].serviceId.None?
    && Reports(p.registry.services, kind, rows[i], c)
  }

  /** Every reported conflict is that of an unlinked row with the service that owns its type and slug. */
  lemma {:induction false} ConflictsAreReal(reg: Registry, kind: Kind, rows: seq<Resource>, n: nat, k: nat)
    requires n <= |rows| && k < |PassTo(reg, kind, rows, n).conflicts|
    ensures var p := PassTo(reg, kind, rows, n);
            exists i :: i < n && ReportsRow(p, kind, rows, i, p.conflicts[k])
  {
    if n == 0 {
    } else {
      var before, p := PassTo(reg, kind, rows, n - 1), PassTo(reg, kind, rows, n);
      RowsAhead(reg, kind, rows, n - 1, n - 1);
      VisitReports(before, kind, n - 1);
      if k < |before.conflicts| {
        ConflictsAreReal(reg, kind, rows, n - 1, k);
        var i :| i < n - 1 && ReportsRow(before, kind, rows, i, before.conflicts[k]);
        ReportsStay(before.registry.services, p.registry.services, kind, rows[i], p.conflicts[k]);
        assert ReportsRow(p, kind, rows, i, p.conflicts[k]);
      } else {
        assert ReportsRow(p, kind, rows, n - 1, p.conflicts[k]);
      }
    }
  }

  /** Every unlinked row that stays unlinked is reported. */
  lemma {:induction false} ConflictsAreReported(reg: Registry, kind: Kind, rows: seq<Resource>, i: nat, n: nat)
    requires i < n <= |rows| && rows[i].serviceId.None? && PassTo(reg, kind, rows, n).rows[i].serviceId.None?
    ensures var p := PassTo(reg, kind, rows, n);
            exists k :: 0 <= k < |p.conflicts| && Reports(p.registry.services, kind, rows[i], p.conflicts[k])
  {
    var before, p := PassTo(reg, kind, rows, n - 1), PassTo(reg, kind, rows, n);
    VisitReports(before, kind, n - 1);
    if i == n - 1 {
      RowsAhead(reg, kind, rows, i, i);
      assert Reports(p.registry.services, kind, rows[i], p.conflicts[|before.conflicts|]);
    } else {
      ConflictsAreReported(reg, kind, rows, i, n - 1);
      var k :| 0 <= k < |before.conflicts| && Reports(before.registry.services, kind, rows[i], before.conflicts[k]);
      ReportsStay(before.registry.services, p.registry.services, kind, rows[i], before.conflicts[k]);
      assert p.conflicts[k] == before.conflicts[k];
    }
  }

  /** Every created service is that of a row which is linked to it. */
  lemma {:induction false} CreatedServicesAreRows(reg: Registry, kind: Kind, rows: seq<Resource>, n: nat, k: nat)
    requires n <= |rows| && |reg.services| <= k < |PassTo(reg, kind, rows, n).registry.services|
    ensures var p := PassTo(reg, kind, rows, n);
            var s := p.registry.services[k];
            exists i :: && 0 <= i < n && rows[i].serviceId.None? && p.rows[i].serviceId == Some(s.id)
                        && s.kind == kind && s.slug == rows[i].slug && s.projectId == rows[i].projectId
  {
    if n == 0 {
    } else {
      var before, p := PassTo(reg, kind, rows, n - 1), PassTo(reg, kind, rows, n);
      RowsAhead(reg, kind, rows, n - 1, n - 1);
      VisitReports(before, kind, n - 1);
      var s := p.registry.services[k];
      if k < |before.registry.services| {
        CreatedServicesAreRows(reg, kind, rows, n - 1, k);
        var i :| && 0 <= i < n - 1 && rows[i].serviceId.None? && before.rows[i].serviceId == Some(s.id)
                 && s.kind == kind && s.slug == rows[i].slug && s.projectId == rows[i].projectId;
        assert p.rows[i] == before.rows[i];
      } else {
        assert p.rows[n - 1].serviceId == Some(s.id);
      }
    }
  }

  // ---- Counts ----

  function Unlinked(rows: seq<Resource>): nat {
    if rows == [] then 0
    else Unlinked(rows[..|rows| - 1]) + if rows[|rows| - 1].serviceId.None? then 1 else 0
  }

  lemma VisitCounts(p: Pass, kind: Kind, i: nat)
    requires i < |p.rows|
    ensures var q := Visit(p, kind, i);
            && q.created + q.reused + |q.conflicts| ==
               p.created + p.reused + |p.conflicts| + (if p.rows[i].serviceId.None? then 1 else 0)
            && q.created - |q.registry.services| == p.created - |p.registry.services|
  {
  }

  lemma {:induction false} CountsAddUp(reg: Registry, kind: Kind, rows: seq<Resource>, n: nat)
    requires n <= |rows|
    ensures var p := PassTo(reg, kind, rows, n);
            && Unlinked(rows[..n]) == p.created + p.reused + |p.conflicts|
            && p.created == |p.registry.services| - |reg.services|
  {
    if n == 0 {
    } else {
      CountsAddUp(reg, kind, rows, n - 1);
      RowsAhead(reg, kind, rows, n - 1, n - 1);
      VisitCounts(PassTo(reg, kind, rows, n - 1), kind, n - 1);
      assert rows[..n][..n - 1] == rows[..n - 1];
    }
  }

  // ---- Running it again ----

  /**
   A second pass over the result, in any registry grown from the first one's,
   writes nothing and reports the same conflicts.
   */
  lemma {:induction false} SecondPassIsIdle(reg: Registry, kind: Kind, rows: seq<Resource>, later: Registry, n: nat)
    requires n <= |rows| && FullPass(reg, kind, rows).registry.services <= later.services
    ensures var first := FullPass(reg, kind, rows);
            PassTo(later, kind, first.rows, n) == Pass(later, first.rows, 0, 0, PassTo(reg, kind, rows, n).conflicts)
  {
    if n == 0 {
    } else {
      SecondPassIsIdle(reg, kind, rows, later, n - 1);
      var i, first := n - 1, FullPass(reg, kind, rows);
      VisitedRow(reg, kind, rows, i);
      RowsAhead(reg, kind, rows, i, i);
      RowsBehind(reg, kind, rows, i, |rows|);
      PassExtendsRegistry(reg, kind, rows, i, |rows|);
      var before := PassTo(reg, kind, rows, i).registry.services;
      if first.rows[i].serviceId.None? {
        FindIsStable(before, later.services, kind, rows[i].slug);
      }
    }
  }

  /** The result of `main`: sites first, then functions, in one registry. */
  function RunScript(reg: Registry, sites: seq<Resource>, functions: seq<Resource>): (Pass, Pass) {
    var s := FullPass(reg, SITE, sites);
    (s, FullPass(s.registry, FUNCTION, functions))
  }

  /**
   After the whole script every site that had no service is linked to a SITE
   service of its own slug and project, or conflicts with one of another
   project; every function likewise with a FUNCTION service.
   */
  lemma ScriptSettlesAll(reg: Registry, sites: seq<Resource>, functions: seq<Resource>)
    ensures var (s, f) := RunScript(reg, sites, functions);
            && |s.rows| == |sites| && |f.rows| == |functions|
            && (forall i :: 0 <= i < |sites| && sites[i].serviceId.None? ==>
                  Settled(f.registry.services, SITE, sites[i], s.rows[i]))
            && (forall i :: 0 <= i < |functions| && functions[i].serviceId.None? ==>
                  Settled(f.registry.services, FUNCTION, functions[i], f.rows[i]))
  {
    var (s, f) := RunScript(reg, sites, functions);
    PassExtendsRegistry(s.registry, FUNCTION, functions, 0, |functions|);
    forall i | 0 <= i < |sites| && sites[i].serviceId.None?
      ensures Settled(f.registry.services, SITE, sites[i], s.rows[i])
    {
      EveryRowIsSettled(reg, SITE, sites, i);
      SettledMeaning(s.registry.services, SITE, sites[i], s.rows[i]);
      SettledStays(s.registry.services, f.registry.services, SITE, sites[i], s.rows[i]);
    }
    forall i | 0 <= i < |functions| && functions[i].serviceId.None?
      ensures Settled(f.registry.services, FUNCTION, functions[i], f.rows[i])
    {
      EveryRowIsSettled(s.registry, FUNCTION, functions, i);
      SettledMeaning(f.registry.services, FUNCTION, functions[i], f.rows[i]);
    }
  }

  /** `r'` is row `r`, linked to a service of its own, or unlinked while another project owns its type and slug. */
  ghost predicate Settled(services: seq<Service>, kind: Kind, r: Resource, r': Resource) {
    && r'.(serviceId := None) == r
    && exists s :: s in services && s.kind == kind && s.slug == r.slug &&
                   if s.projectId == r.projectId then r'.serviceId == Some(s.id) else r'.serviceId == None
  }

  lemma SettledMeaning(services: seq<Service>, kind: Kind, r: Resource, r': Resource)
    requires r'.(serviceId := None) == r
    requires if r'.serviceId.Some? then LinkedRightly(services, kind, r') else IsConflict(services, kind, r)
    ensures Settled(services, kind, r, r')
  {
    if r'.serviceId.Some? {
      var s :| s in services && r'.serviceId == Some(s.id) && Fits(s, kind, r');
    } else {
      var s := Find(services, kind, r.slug).value;
      assert s in services;
    }
  }

  lemma SettledStays(services: seq<Service>, more: seq<Service>, kind: Kind, r: Resource, r': Resource)
    requires services <= more && Settled(services, kind, r, r')
    ensures Settled(more, kind, r, r')
  {
    var s :| s in services && s.kind == kind && s.slug == r.slug &&
             if s.projectId == r.projectId then r'.serviceId == Some(s.id) else r'.serviceId == None;
    assert s in more;
  }

  /** Running the script a second time changes neither registry nor rows, and reports the same conflicts. */
  lemma SecondRunIsIdle(reg: Registry, sites: seq<Resource>, functions: seq<Resource>)
    ensures var (s, f) := RunScript(reg, sites, functions);
            RunScript(f.registry, s.rows, f.rows) ==
            (Pass(f.registry, s.rows, 0, 0, s.conflicts), Pass(f.registry, f.rows, 0, 0, f.conflicts))
  {
    var (s, f) := RunScript(reg, sites, functions);
    PassExtendsRegistry(s.registry, FUNCTION, functions, 0, |functions|);
    SecondPassIsIdle(reg, SITE, sites, f.registry, |sites|);
    SecondPassIsIdle(s.registry, FUNCTION, functions, f.registry, |functions|);
  }

  // ---- The script itself ----

  class Database {
    var registry: Registry
    var sites: seq<Resource>
    var functions: seq<Resource>

    constructor (registry: Registry, sites: seq<Resource>, functions: seq<Resource>)
      ensures this.registry == registry && this.sites == sites && this.functions == functions
    {
      this.registry, this.sites, this.functions := registry, sites, functions;
    }

    method CreateService(kind: Kind, r: Resource) returns (service: Service)
      modifies this`registry
      ensures service == Service(old(registry).nextId, kind, r.slug, r.projectId)
      ensures registry == Registry(old(registry).services + [service], old(registry).nextId + 1)
    {
      service := Service(registry.nextId, kind, r.slug, r.projectId);
      registry := Registry(registry.services + [service], registry.nextId + 1);
    }

    method BackfillSites() returns (created: nat, reused: nat, conflicts: seq<Conflict>)
      modifies this`registry, this`sites
      ensures Pass(registry, sites, created, reused, conflicts) == FullPass(old(registry), SITE, old(sites))
    {
      created, reused, conflicts := 0, 0, [];
      for i := 0 to |sites|
        invariant |sites| == |old(sites)|
        invariant Pass(registry, sites, created, reused, conflicts) == PassTo(old(registry), SITE, old(sites), i)
      {
        var site := sites[i];
        if site.serviceId.None? {
          var existing := Find(registry.services, SITE, site.slug);
          if existing.Some? {
            if existing.value.projectId != site.projectId {
              conflicts := conflicts +
                [Conflict(SITE, site.id, site.slug, site.projectId, existing.value.projectId)];
            } else {
              sites := sites[i := site.(serviceId := Some(existing.value.id))];
              reused := reused + 1;
            }
          } else {
            var service := CreateService(SITE, site);
            sites := sites[i := site.(serviceId := Some(service.id))];
            created := created + 1;
          }
        }
      }
    }

    method BackfillFunctions() returns (created: nat, reused: nat, conflicts: seq<Conflict>)
      modifies this`registry, this`functions
      ensures Pass(registry, functions, created, reused, conflicts) == FullPass(old(registry), FUNCTION, old(functions))
    {
      created, reused, conflicts := 0, 0, [];
      for i := 0 to |functions|
        invariant |functions| == |old(functions)|
        invariant Pass(registry, functions, created, reused, conflicts) ==
                  PassTo(old(registry), FUNCTION, old(functions), i)
      {
        var fn := functions[i];
        if fn.serviceId.None? {
          var existing := Find(registry.services, FUNCTION, fn.slug);
          if existing.Some? {
            if existing.value.projectId != fn.projectId {
              conflicts := conflicts +
                [Conflict(FUNCTION, fn.id, fn.slug, fn.projectId, existing.value.projectId)];
            } else {
              functions := functions[i := fn.(serviceId := Some(existing.value.id))];
              reused := reused + 1;
            }
          } else {
            var service := CreateService(FUNCTION, fn);
            functions := functions[i := fn.(serviceId := Some(service.id))];
            created := created + 1;
          }
        }
      }
    }

    method Run() returns (conflicts: seq<Conflict>)
      modifies this
      ensures var (s, f) := RunScript(old(registry), old(sites), old(functions));
              && registry == f.registry && sites == s.rows && functions == f.rows
              && conflicts == s.conflicts + f.conflicts
    {
      var _, _, siteConflicts := BackfillSites();
      var _, _, functionConflicts := BackfillFunctions();
      conflicts := siteConflicts + functionConflicts;
    }
  }
}
