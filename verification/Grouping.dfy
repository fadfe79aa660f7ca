/** internal/provider/apply.go: a change set cut down to the scope and split by owning zone. */
module Grouping {
  import opened Text
  import opened Names
  import opened Scopes
  import opened Records
  import opened Seqs
  import opened Zones

  // ----- filterToScope -----

  function InScope(scope: Scope): Record -> bool {
    (r: Record) => scope.Contains(r.name)
  }

  function FilterToScope(scope: Scope, cs: ChangeSet): ChangeSet {
    ChangeSet(Filter(InScope(scope), cs.create), Filter(InScope(scope), cs.updateTo), Filter(InScope(scope), cs.delete))
  }

  method KeepInScope(scope: Scope, records: seq<Record>) returns (out: seq<Record>)
    ensures out == Filter(InScope(scope), records)
  {
    out := [];
    for i := 0 to |records|
      invariant out == Filter(InScope(scope), records[..i])
    {
      PrefixSnoc(records, i);
      FilterSnoc(InScope(scope), records[..i], records[i]);
      if scope.Contains(records[i].name) {
        out := out + [records[i]];
      }
    }
    PrefixAll(records);
  }

  method RestrictToScope(scope: Scope, cs: ChangeSet) returns (r: ChangeSet)
    ensures r == FilterToScope(scope, cs)
  {
    var create := KeepInScope(scope, cs.create);
    var updateTo := KeepInScope(scope, cs.updateTo);
    var delete := KeepInScope(scope, cs.delete);
    r := ChangeSet(create, updateTo, delete);
  }

  // ----- groupByZone -----

  datatype Group = Group(zone: Zone, changes: ChangeSet)

  datatype Bucket = Create | Update | Delete

  function AddTo(cs: ChangeSet, bucket: Bucket, r: Record): ChangeSet {
    match bucket
    case Create => cs.(create := cs.create + [r])
    case Update => cs.(updateTo := cs.updateTo + [r])
    case Delete => cs.(delete := cs.delete + [r])
  }

  predicate OwnerIs(zones: seq<Zone>, n: Name, r: Record) {
    OwnerOf(zones, r.name).Some? && OwnerOf(zones, r.name).value.name == n
  }

  function OwnedAs(zones: seq<Zone>, n: Name): Record -> bool {
    (r: Record) => OwnerIs(zones, n, r)
  }

  /** The records of each bucket that belong to the named zone, in their order. */
  function Share(zones: seq<Zone>, n: Name, cs: ChangeSet): ChangeSet {
    var owned := OwnedAs(zones, n);
    ChangeSet(Filter(owned, cs.create), Filter(owned, cs.updateTo), Filter(owned, cs.delete))
  }

  predicate Resolvable(zones: seq<Zone>, rs: seq<Record>) {
    forall r <- rs :: OwnerOf(zones, r.name).Some?
  }

  /** The zone names that own some record. */
  ghost predicate IsOwnerName(zones: seq<Zone>, cs: ChangeSet, n: Name) {
    exists r <- cs.All() :: OwnerIs(zones, n, r)
  }

  /** The maps of the source after some records have been assigned. */
  ghost predicate Grouped(zones: seq<Zone>, done: ChangeSet, grouped: map<Name, ChangeSet>, owners: map<Name, Zone>) {
    && grouped.Keys == owners.Keys && OwnersListed(zones, owners)
    && NamesGrouped(zones, done, grouped.Keys) && SharesGrouped(zones, done, grouped)
  }

  ghost predicate NamesGrouped(zones: seq<Zone>, done: ChangeSet, names: set<Name>) {
    forall n: Name :: n in names <==> IsOwnerName(zones, done, n)
  }

  ghost predicate SharesGrouped(zones: seq<Zone>, done: ChangeSet, grouped: map<Name, ChangeSet>) {
    forall n <- grouped.Keys :: grouped[n] == Share(zones, n, done)
  }

  ghost predicate OwnersListed(zones: seq<Zone>, owners: map<Name, Zone>) {
    forall n <- owners.Keys :: FirstNamed(zones, n) == Some(owners[n])
  }

  lemma ShareAddTo(zones: seq<Zone>, n: Name, cs: ChangeSet, bucket: Bucket, r: Record)
    ensures Share(zones, n, AddTo(cs, bucket, r)) ==
            if OwnerIs(zones, n, r) then AddTo(Share(zones, n, cs), bucket, r) else Share(zones, n, cs)
  {
    match bucket {
      case Create => FilterSnoc(OwnedAs(zones, n), cs.create, r);
      case Update => FilterSnoc(OwnedAs(zones, n), cs.updateTo, r);
      case Delete => FilterSnoc(OwnedAs(zones, n), cs.delete, r);
    }
  }

  lemma AllAddTo(cs: ChangeSet, bucket: Bucket, r: Record)
    ensures forall x :: x in AddTo(cs, bucket, r).All() <==> x in cs.All() || x == r
  {
  }

  /** A name that owns nothing has an empty share. */
  lemma NoShare(zones: seq<Zone>, n: Name, cs: ChangeSet)
    requires !IsOwnerName(zones, cs, n)
    ensures Share(zones, n, cs) == NO_CHANGES
  {
    forall rs: seq<Record> | rs == cs.create || rs == cs.updateTo || rs == cs.delete
      ensures Filter(OwnedAs(zones, n), rs) == []
    {
      FilterNothing(OwnedAs(zones, n), rs);
    }
  }

  lemma NamesStep(zones: seq<Zone>, done: ChangeSet, names: set<Name>, bucket: Bucket, r: Record, n: Name)
    requires NamesGrouped(zones, done, names) && OwnerIs(zones, n, r)
    ensures NamesGrouped(zones, AddTo(done, bucket, r), names + {n})
  {
    var next := AddTo(done, bucket, r);
    AllAddTo(done, bucket, r);
    forall m: Name ensures m in names + {n} <==> IsOwnerName(zones, next, m) {
      if m == n {
        assert r in next.All();
      } else if IsOwnerName(zones, done, m) {
        var x :| x in done.All() && OwnerIs(zones, m, x);
        assert x in next.All();
      }
    }
  }

  lemma SharesStep(zones: seq<Zone>, done: ChangeSet, grouped: map<Name, ChangeSet>, bucket: Bucket, r: Record, n: Name)
    requires SharesGrouped(zones, done, grouped) && OwnerIs(zones, n, r)
    requires n in grouped
    ensures SharesGrouped(zones, AddTo(done, bucket, r), grouped[n := AddTo(grouped[n], bucket, r)])
  {
    forall m <- grouped.Keys
      ensures grouped[n := AddTo(grouped[n], bucket, r)][m] == Share(zones, m, AddTo(done, bucket, r))
    {
      ShareAddTo(zones, m, done, bucket, r);
    }
  }

  lemma GroupedStep(zones: seq<Zone>, done: ChangeSet, grouped: map<Name, ChangeSet>, owners: map<Name, Zone>,
                    bucket: Bucket, r: Record, owner: Zone)
    requires Grouped(zones, done, grouped, owners) && OwnerOf(zones, r.name) == Some(owner)
    ensures Grouped(zones, AddTo(done, bucket, r),
                    grouped[owner.name := AddTo(ShareSoFar(grouped, owner.name), bucket, r)],
                    WithOwner(owners, owner))
  {
    var n := owner.name;
    OwnerIsDeepest(zones, r.name, owner);
    NamesStep(zones, done, grouped.Keys, bucket, r, n);
    GroupedSharesStep(zones, done, grouped, bucket, r, n);
    OwnersStep(zones, owners, owner);
  }

  lemma GroupedSharesStep(zones: seq<Zone>, done: ChangeSet, grouped: map<Name, ChangeSet>, bucket: Bucket,
                          r: Record, n: Name)
    requires NamesGrouped(zones, done, grouped.Keys) && SharesGrouped(zones, done, grouped) && OwnerIs(zones, n, r)
    ensures var next := grouped[n := AddTo(ShareSoFar(grouped, n), bucket, r)];
            next.Keys == grouped.Keys + {n} && SharesGrouped(zones, AddTo(done, bucket, r), next)
  {
    ReadyShare(zones, done, grouped, n);
    var ready := grouped[n := ShareSoFar(grouped, n)];
    SharesStep(zones, done, ready, bucket, r, n);
    UpdateTwice(grouped, n, ready[n], AddTo(ready[n], bucket, r));
  }

  lemma {:induction false} OwnersStep(zones: seq<Zone>, owners: map<Name, Zone>, owner: Zone)
    requires OwnersListed(zones, owners) && FirstNamed(zones, owner.name) == Some(owner)
    ensures OwnersListed(zones, WithOwner(owners, owner))
    ensures WithOwner(owners, owner).Keys == owners.Keys + {owner.name}
  {
  }

  lemma ReadyShare(zones: seq<Zone>, done: ChangeSet, grouped: map<Name, ChangeSet>, n: Name)
    requires NamesGrouped(zones, done, grouped.Keys) && SharesGrouped(zones, done, grouped)
    ensures SharesGrouped(zones, done, grouped[n := ShareSoFar(grouped, n)])
  {
    if n !in grouped {
      NoShare(zones, n, done);
    }
  }

  function ShareSoFar(grouped: map<Name, ChangeSet>, n: Name): ChangeSet {
    if n in grouped then grouped[n] else NO_CHANGES
  }

  function WithOwner(owners: map<Name, Zone>, owner: Zone): map<Name, Zone> {
    if owner.name in owners then owners else owners[owner.name := owner]
  }

  /** The closure `assign` of the source. */
  method Assign(x: ZoneIndex, ghost zones: seq<Zone>, ghost done: ChangeSet, grouped: map<Name, ChangeSet>,
                owners: map<Name, Zone>,
                bucket: Bucket, r: Record)
    returns (ok: bool, grouped': map<Name, ChangeSet>, owners': map<Name, Zone>)
    requires Indexes(x, zones) && Grouped(zones, done, grouped, owners)
    ensures ok <==> OwnerOf(zones, r.name).Some?
    ensures ok ==> Grouped(zones, AddTo(done, bucket, r), grouped', owners')
  {
    ok, grouped', owners' := false, grouped, owners;
    var owner := x.Owner(r.name);
    IndexGivesOwner(x, zones, r.name);
    if owner.None? {
      return;
    }
    GroupedStep(zones, done, grouped, owners, bucket, r, owner.value);
    ok := true;
    grouped' := grouped[owner.value.name := AddTo(ShareSoFar(grouped, owner.value.name), bucket, r)];
    owners' := WithOwner(owners, owner.value);
  }

  /** One of the three loops over the buckets. */
  method AssignAll(x: ZoneIndex, ghost zones: seq<Zone>, ghost done: ChangeSet, grouped: map<Name, ChangeSet>,
                   owners: map<Name, Zone>,
                   bucket: Bucket, rs: seq<Record>)
    returns (ok: bool, grouped': map<Name, ChangeSet>, owners': map<Name, Zone>)
    requires Indexes(x, zones) && Grouped(zones, done, grouped, owners)
    requires bucket.Create? ==> done.create == []
    requires bucket.Update? ==> done.updateTo == []
    requires bucket.Delete? ==> done.delete == []
    ensures ok <==> Resolvable(zones, rs)
    ensures ok ==> Grouped(zones, AddAll(done, bucket, rs), grouped', owners')
  {
    ok, grouped', owners' := true, grouped, owners;
    for i := 0 to |rs|
      invariant ok && Resolvable(zones, rs[..i])
      invariant Grouped(zones, AddAll(done, bucket, rs[..i]), grouped', owners')
    {
      PrefixSnoc(rs, i);
      ok, grouped', owners' := Assign(x, zones, AddAll(done, bucket, rs[..i]), grouped', owners', bucket, rs[i]);
      if !ok {
        return;
      }
    }
    PrefixAll(rs);
  }

  /** A change set whose empty bucket is filled. */
  function AddAll(cs: ChangeSet, bucket: Bucket, rs: seq<Record>): ChangeSet {
    match bucket
    case Create => cs.(create := rs)
    case Update => cs.(updateTo := rs)
    case Delete => cs.(delete := rs)
  }

  // ----- The sorted list of groups -----

  function NameOf(g: Group): Text {
    g.zone.name.text
  }

  predicate Ascending(gs: seq<Group>) {
    forall i, j | 0 <= i < j < |gs| :: Before(NameOf(gs[i]), NameOf(gs[j]))
  }

  /** Groups in strict name order, one for each owning zone, each with exactly the records it owns. */
  ghost predicate IsGrouping(zones: seq<Zone>, cs: ChangeSet, gs: seq<Group>) {
    && Ascending(gs)
    && NamesGrouped(zones, cs, GroupNames(gs))
    && (forall g <- gs :: FirstNamed(zones, g.zone.name) == Some(g.zone) && g.changes == Share(zones, g.zone.name, cs))
  }

  ghost function GroupNames(gs: seq<Group>): set<Name> {
    set g | g in gs :: g.zone.name
  }

  /** slices.SortFunc by zone name. */
  function Insert(g: Group, gs: seq<Group>): seq<Group> {
    if gs == [] || Before(NameOf(g), NameOf(gs[0])) then [g] + gs else [gs[0]] + Insert(g, gs[1..])
  }

  lemma {:induction false} InsertKeepsOrder(g: Group, gs: seq<Group>)
    requires Ascending(gs) && forall h <- gs :: NameOf(h) != NameOf(g)
    ensures Ascending(Insert(g, gs))
    ensures forall h :: h in Insert(g, gs) <==> h in gs || h == g
  {
    if gs == [] {
    } else if Before(NameOf(g), NameOf(gs[0])) {
      forall j | 0 <= j < |gs| ensures Before(NameOf(g), NameOf(gs[j])) {
        if j > 0 {
          BeforeIsTransitive(NameOf(g), NameOf(gs[0]), NameOf(gs[j]));
        }
      }
    } else {
      BeforeIsTotal(NameOf(g), NameOf(gs[0]));
      InsertKeepsOrder(g, gs[1..]);
      assert gs == [gs[0]] + gs[1..];
      forall h | h in Insert(g, gs[1..]) ensures Before(NameOf(gs[0]), NameOf(h)) {
        if h in gs[1..] {
          var j :| 0 <= j < |gs[1..]| && gs[1..][j] == h;
          assert h == gs[j + 1];
        }
      }
    }
  }

  method GroupByZone(cs: ChangeSet, zones: seq<Zone>) returns (r: Result<seq<Group>>)
    ensures r.Err? <==> !Resolvable(zones, cs.All())
    ensures r.Err? ==> r.failure == Permanent(ZoneNotFound)
    ensures r.Ok? ==> IsGrouping(zones, cs, r.value)
  {
    var x := NewZoneIndex(zones);
    var ok, grouped, owners := true, map[], map[];
    ok, grouped, owners := AssignAll(x, zones, NO_CHANGES, grouped, owners, Create, cs.create);
    if ok {
      ghost var done := NO_CHANGES.(create := cs.create);
      ok, grouped, owners := AssignAll(x, zones, done, grouped, owners, Update, cs.updateTo);
    }
    if ok {
      ok, grouped, owners := AssignAll(x, zones, cs.(delete := []), grouped, owners, Delete, cs.delete);
    }
    ResolvableParts(zones, cs);
    if !ok {
      return Err(Permanent(ZoneNotFound));
    }
    var out := SortedGroups(zones, cs, grouped, owners);
    return Ok(out);
  }

  lemma ResolvableParts(zones: seq<Zone>, cs: ChangeSet)
    ensures Resolvable(zones, cs.All()) <==>
            Resolvable(zones, cs.create) && Resolvable(zones, cs.updateTo) && Resolvable(zones, cs.delete)
  {
    assert forall r :: r in cs.All() <==> r in cs.create || r in cs.updateTo || r in cs.delete;
  }

  /** The groups leave the map in no particular order; sorting gives them one. */
  method SortedGroups(ghost zones: seq<Zone>, ghost cs: ChangeSet, grouped: map<Name, ChangeSet>,
                      owners: map<Name, Zone>)
    returns (out: seq<Group>)
    requires Grouped(zones, cs, grouped, owners)
    ensures IsGrouping(zones, cs, out)
  {
    hide Share, OwnerOf;
    out := [];
    var pending := grouped.Keys;
    while pending != {}
      invariant pending <= grouped.Keys && Ascending(out)
      invariant AllListed(out, grouped, owners)
      invariant GroupNames(out) == grouped.Keys - pending
      decreases pending
    {
      var name :| name in pending;
      pending := pending - {name};
      var g := Group(owners[name], grouped[name]);
      FirstNamedFinds(zones, name);
      InsertListed(g, out, grouped, owners);
      out := Insert(g, out);
    }
    assert GroupNames(out) == grouped.Keys;
  }

  lemma {:induction false} InsertListed(g: Group, gs: seq<Group>, grouped: map<Name, ChangeSet>,
                                        owners: map<Name, Zone>)
    requires Ascending(gs) && AllListed(gs, grouped, owners) && Listed(g, grouped, owners)
    requires g.zone.name !in GroupNames(gs)
    ensures Ascending(Insert(g, gs)) && AllListed(Insert(g, gs), grouped, owners)
    ensures GroupNames(Insert(g, gs)) == GroupNames(gs) + {g.zone.name}
  {
    forall h <- gs ensures NameOf(h) != NameOf(g) {
      assert h.zone.name in GroupNames(gs);
    }
    InsertKeepsOrder(g, gs);
  }

  predicate AllListed(gs: seq<Group>, grouped: map<Name, ChangeSet>, owners: map<Name, Zone>) {
    forall g <- gs :: Listed(g, grouped, owners)
  }

  predicate Listed(g: Group, grouped: map<Name, ChangeSet>, owners: map<Name, Zone>) {
    g.zone.name in grouped && g.zone.name in owners && g.zone == owners[g.zone.name] &&
    g.changes == grouped[g.zone.name]
  }
}
