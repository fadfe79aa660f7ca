/** internal/provider/zoneindex.go: the single rule that says which zone a name belongs to. */
module Zones {
  import opened Text
  import opened Names
  import opened Scopes
  import opened Records
  import opened Seqs

  datatype ZoneIndex = ZoneIndex(names: seq<Name>, byName: map<Name, Zone>) {
    /** The zone of the deepest listed name that contains the name. */
    function Owner(name: Name): Option<Zone> {
      var owner := LongestMatch(names, name);
      if owner.Some? && owner.value in byName then Some(byName[owner.value]) else None
    }

    predicate OwnedBy(name: Name, zone: Zone) {
      Owner(name).Some? && Owner(name).value.name == zone.name
    }
  }

  ghost function ZoneNames(zones: seq<Zone>): set<Name> {
    set z | z in zones && !IsZero(z.name) :: z.name
  }

  /** The first listed zone with the name. */
  function FirstNamed(zones: seq<Zone>, name: Name): Option<Zone> {
    if zones == [] then None
    else if zones[0].name == name then Some(zones[0])
    else FirstNamed(zones[1..], name)
  }

  lemma FirstNamedFinds(zones: seq<Zone>, name: Name)
    ensures FirstNamed(zones, name).Some? ==>
              FirstNamed(zones, name).value in zones && FirstNamed(zones, name).value.name == name
    ensures FirstNamed(zones, name).None? <==> forall z <- zones :: z.name != name
  {
  }

  /** It is listed behind no other zone with the name. */
  lemma {:induction false} FirstNamedIsFirst(zones: seq<Zone>, i: nat)
    requires i < |zones| && forall j | 0 <= j < i :: zones[j].name != zones[i].name
    ensures FirstNamed(zones, zones[i].name) == Some(zones[i])
  {
    if i > 0 {
      FirstNamedIsFirst(zones[1..], i - 1);
    }
  }

  lemma FirstNamedSnoc(zones: seq<Zone>, z: Zone, name: Name)
    ensures FirstNamed(zones + [z], name) ==
            if FirstNamed(zones, name).Some? then FirstNamed(zones, name)
            else if z.name == name then Some(z) else None
  {
    if zones != [] {
      assert (zones + [z])[1..] == zones[1..] + [z];
    }
  }

  /** What newZoneIndex builds: the present zone names, each with its first zone. */
  ghost predicate Indexes(x: ZoneIndex, zones: seq<Zone>) {
    && Members(x.names) == ZoneNames(zones)
    && x.byName.Keys == ZoneNames(zones)
    && forall n <- x.byName.Keys :: FirstNamed(zones, n) == Some(x.byName[n])
  }

  method NewZoneIndex(zones: seq<Zone>) returns (x: ZoneIndex)
    ensures Indexes(x, zones)
  {
    var byName: map<Name, Zone> := map[];
    var names: seq<Name> := [];
    for i := 0 to |zones|
      invariant Indexes(ZoneIndex(names, byName), zones[..i])
    {
      var z := zones[i];
      PrefixSnoc(zones, i);
      forall n: Name ensures FirstNamed(zones[..i] + [z], n) ==
            if FirstNamed(zones[..i], n).Some? then FirstNamed(zones[..i], n)
            else if z.name == n then Some(z) else None
      {
        FirstNamedSnoc(zones[..i], z, n);
      }
      if IsZero(z.name) {
        assert ZoneNames(zones[..i + 1]) == ZoneNames(zones[..i]);
        continue;
      }
      assert ZoneNames(zones[..i + 1]) == ZoneNames(zones[..i]) + {z.name};
      if z.name in byName {
        continue;
      }
      FirstNamedFinds(zones[..i], z.name);
      byName := byName[z.name := z];
      names := names + [z.name];
      assert Members(names) == Members(names[..|names| - 1]) + {z.name};
    }
    PrefixAll(zones);
    x := ZoneIndex(names, byName);
  }

  /** The owner, said without an index: the first zone whose name is the deepest containing one. */
  function OwnerOf(zones: seq<Zone>, name: Name): Option<Zone> {
    var owner := LongestMatch(NamesOf(zones), name);
    if owner.Some? then FirstNamed(zones, owner.value) else None
  }

  function NamesOf(zones: seq<Zone>): seq<Name> {
    seq(|zones|, i requires 0 <= i < |zones| => zones[i].name)
  }

  predicate Owns(zones: seq<Zone>, zone: Zone, name: Name) {
    OwnerOf(zones, name).Some? && OwnerOf(zones, name).value.name == zone.name
  }

  lemma NamesOfMembers(zones: seq<Zone>, name: Name)
    requires !IsZero(name)
    ensures name in NamesOf(zones) <==> name in ZoneNames(zones)
  {
    if name in NamesOf(zones) {
      var i :| 0 <= i < |zones| && NamesOf(zones)[i] == name;
      assert zones[i] in zones;
    }
    if name in ZoneNames(zones) {
      var i :| 0 <= i < |zones| && zones[i].name == name;
      assert NamesOf(zones)[i] == name;
    }
  }

  /** The owner has the one deepest zone name containing the name, whatever the order of the list. */
  lemma OwnerIsDeepest(zones: seq<Zone>, name: Name, z: Zone)
    ensures OwnerOf(zones, name) == Some(z) <==>
            IsDeepest(ZoneNames(zones), z.name, name) && FirstNamed(zones, z.name) == Some(z)
  {
    var all := Members(NamesOf(zones));
    forall d: Name | !IsZero(d) ensures d in all <==> d in ZoneNames(zones) {
      NamesOfMembers(zones, d);
    }
    LongestMatchIsDeepest(NamesOf(zones), name, z.name);
    assert IsDeepest(all, z.name, name) <==> IsDeepest(ZoneNames(zones), z.name, name);
    if OwnerOf(zones, name) == Some(z) {
      FirstNamedFinds(zones, LongestMatch(NamesOf(zones), name).value);
    }
  }

  lemma NoOwnerMeansNoZone(zones: seq<Zone>, name: Name)
    ensures OwnerOf(zones, name).None? <==> forall d <- ZoneNames(zones) :: !Contains(d, name)
  {
    LongestMatchFindsOne(NamesOf(zones), name);
    forall d: Name | !IsZero(d) ensures d in NamesOf(zones) <==> d in ZoneNames(zones) {
      NamesOfMembers(zones, d);
    }
    var owner := LongestMatch(NamesOf(zones), name);
    if owner.Some? {
      FirstNamedFinds(zones, owner.value);
    }
  }

  /** Any index of the zones gives the owner of the zone list. */
  lemma IndexGivesOwner(x: ZoneIndex, zones: seq<Zone>, name: Name)
    requires Indexes(x, zones)
    ensures x.Owner(name) == OwnerOf(zones, name)
  {
    LongestMatchFindsOne(x.names, name);
    if x.Owner(name).Some? {
      var z := x.Owner(name).value;
      FirstNamedFinds(zones, LongestMatch(x.names, name).value);
      LongestMatchIsDeepest(x.names, name, z.name);
      OwnerIsDeepest(zones, name, z);
    } else {
      forall d <- ZoneNames(zones) ensures !Contains(d, name) {
        assert d in Members(x.names);
      }
      NoOwnerMeansNoZone(zones, name);
    }
  }

  /** Reordering or repeating zones never changes the name of an owner. */
  lemma OwnerIgnoresOrder(zones: seq<Zone>, others: seq<Zone>, name: Name)
    requires ZoneNames(zones) == ZoneNames(others)
    ensures OwnerOf(zones, name).Some? <==> OwnerOf(others, name).Some?
    ensures OwnerOf(zones, name).Some? ==> OwnerOf(zones, name).value.name == OwnerOf(others, name).value.name
  {
    NoOwnerMeansNoZone(zones, name);
    NoOwnerMeansNoZone(others, name);
    if OwnerOf(zones, name).Some? {
      OwnerIsDeepest(zones, name, OwnerOf(zones, name).value);
      OwnerIsDeepest(others, name, OwnerOf(others, name).value);
      DeepestIsUnique(ZoneNames(zones), OwnerOf(zones, name).value.name, OwnerOf(others, name).value.name, name);
    }
  }

  /**
   A new zone takes over exactly the names below it whose owner so far was shallower or absent;
   every other name keeps its owner.
   */
  lemma AddedZoneTakesOver(zones: seq<Zone>, z: Zone, name: Name)
    requires z.name !in ZoneNames(zones)
    ensures OwnerOf(zones + [z], name) ==
            if Contains(z.name, name) &&
               (OwnerOf(zones, name).None? || CountLabel(OwnerOf(zones, name).value.name) < CountLabel(z.name))
            then Some(z) else OwnerOf(zones, name)
  {
    var more := zones + [z];
    NewZoneNames(zones, z);
    OwnerNameIsMatch(zones, name);
    OwnerNameIsMatch(more, name);
    if !IsZero(z.name) {
      OneMoreDomain(ZoneNames(zones), OwnerName(zones, name), z.name, name);
    }
    MatchIsUnique(ZoneNames(more), OwnerName(more, name), Deeper(OwnerName(zones, name), z.name, name), name);
    if OwnerName(more, name).Some? {
      FirstNamedSnoc(zones, z, OwnerName(more, name).value);
      FirstNamedFinds(zones, OwnerName(more, name).value);
    }
  }

  function OwnerName(zones: seq<Zone>, name: Name): Option<Name> {
    if OwnerOf(zones, name).Some? then Some(OwnerOf(zones, name).value.name) else None
  }

  lemma OwnerNameIsMatch(zones: seq<Zone>, name: Name)
    ensures IsMatch(ZoneNames(zones), OwnerName(zones, name), name)
    ensures OwnerName(zones, name).Some? ==> OwnerOf(zones, name) == FirstNamed(zones, OwnerName(zones, name).value)
  {
    NoOwnerMeansNoZone(zones, name);
    if OwnerOf(zones, name).Some? {
      OwnerIsDeepest(zones, name, OwnerOf(zones, name).value);
    }
  }

  lemma NewZoneNames(zones: seq<Zone>, z: Zone)
    ensures ZoneNames(zones + [z]) == ZoneNames(zones) + if IsZero(z.name) then {} else {z.name}
  {
  }
}
