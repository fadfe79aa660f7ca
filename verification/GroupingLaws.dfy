/** A grouping loses no record, repeats none, and is the only one there is. */
module GroupingLaws {
  import opened Text
  import opened Records
  import opened Scopes
  import opened Seqs
  import opened Zones
  import opened Grouping

  // ----- Uniqueness -----

  lemma {:induction false} AscendingNamesAgree(a: seq<Group>, b: seq<Group>)
    requires Ascending(a) && Ascending(b) && GroupNames(a) == GroupNames(b)
    ensures |a| == |b| && forall i | 0 <= i < |a| :: a[i].zone.name == b[i].zone.name
  {
    SomeGroupSomeName(a);
    SomeGroupSomeName(b);
    if a != [] {
      FirstNameIsLeast(a, b);
      FirstNameIsLeast(b, a);
      BeforeIsTotal(NameOf(a[0]), NameOf(b[0]));
      TailNames(a);
      TailNames(b);
      AscendingNamesAgree(a[1..], b[1..]);
    }
  }

  lemma SomeGroupSomeName(gs: seq<Group>)
    ensures gs == [] <==> GroupNames(gs) == {}
  {
    if gs != [] {
      assert gs[0].zone.name in GroupNames(gs);
    }
  }

  lemma FirstNameIsLeast(a: seq<Group>, b: seq<Group>)
    requires a != [] && b != [] && Ascending(a) && GroupNames(a) == GroupNames(b)
    ensures !Before(NameOf(b[0]), NameOf(a[0]))
  {
    assert b[0].zone.name in GroupNames(a);
    var i :| 0 <= i < |a| && a[i].zone.name == b[0].zone.name;
    if i > 0 {
      BeforeIsAsymmetric(NameOf(a[0]), NameOf(a[i]));
    } else if Before(NameOf(a[0]), NameOf(a[0])) {
      BeforeIsAsymmetric(NameOf(a[0]), NameOf(a[0]));
    }
  }

  lemma TailNames(a: seq<Group>)
    requires a != [] && Ascending(a)
    ensures GroupNames(a[1..]) == GroupNames(a) - {a[0].zone.name}
  {
    assert a == [a[0]] + a[1..];
    forall g <- a[1..] ensures g.zone.name != a[0].zone.name {
      var i :| 0 <= i < |a[1..]| && a[1..][i] == g;
      BeforeIsAsymmetric(NameOf(a[0]), NameOf(a[i + 1]));
    }
  }

  /** Two groupings of one change set are the same list. */
  lemma GroupingIsUnique(zones: seq<Zone>, cs: ChangeSet, a: seq<Group>, b: seq<Group>)
    requires IsGrouping(zones, cs, a) && IsGrouping(zones, cs, b)
    ensures a == b
  {
    assert GroupNames(a) == GroupNames(b);
    AscendingNamesAgree(a, b);
    forall i | 0 <= i < |a| ensures a[i] == b[i] {
      assert a[i] in a && b[i] in b;
    }
  }

  // ----- Conservation -----

  function BucketOf(cs: ChangeSet, bucket: Bucket): seq<Record> {
    match bucket
    case Create => cs.create
    case Update => cs.updateTo
    case Delete => cs.delete
  }

  /** One bucket of all groups, group after group. */
  function Gather(gs: seq<Group>, bucket: Bucket): seq<Record> {
    if gs == [] then [] else BucketOf(gs[0].changes, bucket) + Gather(gs[1..], bucket)
  }

  lemma {:induction false} FilterCounts(keep: Record -> bool, s: seq<Record>, r: Record)
    ensures multiset(Filter(keep, s))[r] == if keep(r) then multiset(s)[r] else 0
  {
    if s != [] {
      assert s == [s[0]] + s[1..];
      FilterCounts(keep, s[1..], r);
    }
  }

  lemma {:induction false} GatherCounts(zones: seq<Zone>, cs: ChangeSet, gs: seq<Group>, bucket: Bucket, r: Record)
    requires Ascending(gs)
    requires forall g <- gs :: g.changes == Share(zones, g.zone.name, cs)
    ensures multiset(Gather(gs, bucket))[r] ==
            if exists g <- gs :: OwnerIs(zones, g.zone.name, r) then multiset(BucketOf(cs, bucket))[r] else 0
  {
    if gs != [] {
      assert gs == [gs[0]] + gs[1..];
      var n := gs[0].zone.name;
      GatherCounts(zones, cs, gs[1..], bucket, r);
      assert gs[0] in gs;
      FilterCounts(OwnedAs(zones, n), BucketOf(cs, bucket), r);
      assert BucketOf(gs[0].changes, bucket) == Filter(OwnedAs(zones, n), BucketOf(cs, bucket));
      if OwnerIs(zones, n, r) {
        TailNames(gs);
        forall g <- gs[1..] ensures !OwnerIs(zones, g.zone.name, r) {
          assert g.zone.name in GroupNames(gs[1..]);
        }
      }
    }
  }

  /** Each record of each bucket appears in the groups exactly as often as it was sent, in the same bucket. */
  lemma {:induction false} GroupingConserves(zones: seq<Zone>, cs: ChangeSet, gs: seq<Group>, bucket: Bucket)
    requires IsGrouping(zones, cs, gs) && Resolvable(zones, cs.All())
    ensures multiset(Gather(gs, bucket)) == multiset(BucketOf(cs, bucket))
  {
    forall r ensures multiset(Gather(gs, bucket))[r] == multiset(BucketOf(cs, bucket))[r] {
      GatherCounts(zones, cs, gs, bucket, r);
      if r in BucketOf(cs, bucket) {
        assert r in cs.All();
        var n := OwnerOf(zones, r.name).value.name;
        assert IsOwnerName(zones, cs, n);
        assert n in GroupNames(gs);
      }
    }
  }

  /** Cutting down to the scope keeps exactly the records of each bucket whose names are in scope. */
  lemma {:induction false} ScopingConserves(scope: Scope, cs: ChangeSet, bucket: Bucket)
    ensures forall r :: multiset(BucketOf(FilterToScope(scope, cs), bucket))[r] ==
                        if scope.Contains(r.name) then multiset(BucketOf(cs, bucket))[r] else 0
  {
    forall r {
      FilterCounts(InScope(scope), BucketOf(cs, bucket), r);
    }
  }

  /** No group is empty. */
  lemma GroupsAreNonEmpty(zones: seq<Zone>, cs: ChangeSet, gs: seq<Group>, g: Group)
    requires IsGrouping(zones, cs, gs) && g in gs
    ensures g.changes.create != [] || g.changes.updateTo != [] || g.changes.delete != []
  {
    var n := g.zone.name;
    assert n in GroupNames(gs);
    assert IsOwnerName(zones, cs, n);
    var r :| r in cs.All() && OwnerIs(zones, n, r);
    FilterMembers(OwnedAs(zones, n), cs.create);
    FilterMembers(OwnedAs(zones, n), cs.updateTo);
    FilterMembers(OwnedAs(zones, n), cs.delete);
    assert r in g.changes.create || r in g.changes.updateTo || r in g.changes.delete;
  }

  /** Zones that share an ID share a name. */
  predicate IdsIdentify(zones: seq<Zone>) {
    forall a <- zones, b <- zones :: a.id == b.id ==> a.name == b.name
  }

  /** Different groups go to different zones. */
  lemma GroupIdsDistinct(zones: seq<Zone>, cs: ChangeSet, gs: seq<Group>)
    requires IsGrouping(zones, cs, gs) && IdsIdentify(zones)
    ensures forall i, j | 0 <= i < j < |gs| :: gs[i].zone.id != gs[j].zone.id
  {
    forall i, j | 0 <= i < j < |gs| ensures gs[i].zone.id != gs[j].zone.id {
      assert gs[i] in gs && gs[j] in gs;
      FirstNamedFinds(zones, gs[i].zone.name);
      FirstNamedFinds(zones, gs[j].zone.name);
      BeforeIsAsymmetric(NameOf(gs[i]), NameOf(gs[j]));
    }
  }
}
