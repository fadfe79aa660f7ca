/** internal/provider/provider.go on top of internal/dpf/records.go: reading the records under management. */
module Reading {
  import opened Text
  import opened Names
  import opened Scopes
  import opened Records
  import opened Seqs
  import opened Zones
  import opened Overwrites
  import opened Backends

  /** The records ListRecords reports for a zone. */
  function Listing(es: seq<Entry>): seq<Record> {
    if es == [] then []
    else
      var r := ToProviderRecord(es[|es| - 1]);
      var front := Listing(es[..|es| - 1]);
      if r.Some? then front + [r.value] else front
  }

  method ListRecords(es: seq<Entry>) returns (out: seq<Record>)
    ensures out == Listing(es)
  {
    out := [];
    for i := 0 to |es|
      invariant out == Listing(es[..i])
    {
      assert es[..i + 1][..i] == es[..i];
      var r := ToProviderRecord(es[i]);
      if r.Some? {
        out := out + [r.value];
      }
    }
    PrefixAll(es);
  }

  /** The report of one published record: type, readable name, TTL with 0 for null, values with "" for null. */
  predicate Reports(e: Entry, r: Record) {
    && r.rtype in {A, AAAA, CNAME, TXT, SRV, PTR, MX, NAPTR} && r.rtype == e.rrtype
    && Parse(e.name) == Some(r.name)
    && r.ttl == (if e.ttl.Some? then e.ttl.value as int else 0)
    && |r.values| == |e.rdata|
    && forall i | 0 <= i < |e.rdata| :: r.values[i] == if e.rdata[i].Some? then e.rdata[i].value else ""
  }

  lemma ReportIff(e: Entry, r: Record)
    ensures ToProviderRecord(e) == Some(r) <==> Reports(e, r)
  {
    hide Parse;
    if Reports(e, r) {
      assert FromRdata(e.rdata) == r.values;
    }
  }

  /** What is listed is reported of some published record, and every report is listed. */
  lemma {:induction false} ListedIff(es: seq<Entry>, r: Record)
    ensures r in Listing(es) <==> exists e <- es :: Reports(e, r)
  {
    hide Reports, ToProviderRecord;
    if es != [] {
      var front, e := es[..|es| - 1], es[|es| - 1];
      assert es == front + [e];
      ListedIff(front, r);
      ReportIff(e, r);
    }
  }

  /** In scope, and owned by the zone it was read from. */
  predicate Visible(scope: Scope, zones: seq<Zone>, z: Zone, r: Record) {
    scope.Contains(r.name) && Owns(zones, z, r.name)
  }

  function VisibleIn(scope: Scope, zones: seq<Zone>, z: Zone): Record -> bool {
    (r: Record) => Visible(scope, zones, z, r)
  }

  function ReadZone(scope: Scope, zones: seq<Zone>, z: Zone, w: World): seq<Record> {
    Filter(VisibleIn(scope, zones, z), Listing(Published(w, z.id)))
  }

  /** Every listed zone is read, no zone is left out. */
  function ReadZones(scope: Scope, zones: seq<Zone>, listed: seq<Zone>, w: World): seq<Record> {
    if listed == [] then []
    else ReadZones(scope, zones, listed[..|listed| - 1], w) + ReadZone(scope, zones, listed[|listed| - 1], w)
  }

  // ----- Pruning -----

  predicate Comparable(d: Name, n: Name) {
    Contains(d, n) || Contains(n, d)
  }

  ghost predicate Relevant(scope: Scope, z: Zone) {
    !IsZero(z.name) && exists d <- scope.domains :: Comparable(d, z.name)
  }

  method ZoneIsRelevant(scope: Scope, z: Zone) returns (b: bool)
    ensures b == Relevant(scope, z)
    ensures b <==> z.name.text != [] && exists d <- scope.domains :: Contains(d, z.name) || Contains(z.name, d)
  {
    if IsZero(z.name) {
      return false;
    }
    for i := 0 to |scope.domains|
      invariant forall d <- scope.domains[..i] :: !Comparable(d, z.name)
    {
      PrefixSnoc(scope.domains, i);
      if Comparable(scope.domains[i], z.name) {
        return true;
      }
    }
    PrefixAll(scope.domains);
    return false;
  }

  /** A zone and a domain that both contain a name contain one another, so the zone is not pruned. */
  lemma OwnerOfScopedNameIsRelevant(scope: Scope, zones: seq<Zone>, z: Zone, name: Name)
    requires scope.Contains(name) && Owns(zones, z, name)
    ensures Relevant(scope, z)
  {
    var d := LongestMatch(scope.domains, name).value;
    LongestMatchFindsOne(scope.domains, name);
    OwnerIsDeepest(zones, name, OwnerOf(zones, name).value);
    if CountLabel(d) <= CountLabel(z.name) {
      AncestorsAreComparable(d, z.name, name);
    } else {
      AncestorsAreComparable(z.name, d, name);
    }
  }

  lemma IrrelevantZoneShowsNothing(scope: Scope, zones: seq<Zone>, z: Zone, w: World)
    requires !Relevant(scope, z)
    ensures ReadZone(scope, zones, z, w) == []
  {
    var rs := Listing(Published(w, z.id));
    forall r <- rs ensures !Visible(scope, zones, z, r) {
      if Visible(scope, zones, z, r) {
        OwnerOfScopedNameIsRelevant(scope, zones, z, r.name);
      }
    }
    FilterNothing(VisibleIn(scope, zones, z), rs);
  }

  // ----- Records -----

  method ReadOne(scope: Scope, zones: seq<Zone>, x: ZoneIndex, z: Zone, records: seq<Record>) returns (out: seq<Record>)
    requires Indexes(x, zones)
    ensures out == Filter(VisibleIn(scope, zones, z), records)
  {
    out := [];
    for i := 0 to |records|
      invariant out == Filter(VisibleIn(scope, zones, z), records[..i])
    {
      var r := records[i];
      PrefixSnoc(records, i);
      FilterSnoc(VisibleIn(scope, zones, z), records[..i], r);
      IndexGivesOwner(x, zones, r.name);
      if !scope.Contains(r.name) {
        continue;
      }
      if !x.OwnedBy(r.name, z) {
        continue;
      }
      out := out + [r];
    }
    PrefixAll(records);
  }

  /** The failure of the first zone that is asked and cannot be read. */
  ghost function FirstUnreadable(scope: Scope, zones: seq<Zone>, unreadable: map<Text, Failure>): (r: Option<Failure>)
    ensures r.None? <==> forall z <- zones :: Relevant(scope, z) ==> z.id !in unreadable
  {
    if zones == [] then None
    else if Relevant(scope, zones[0]) && zones[0].id in unreadable then Some(unreadable[zones[0].id])
    else FirstUnreadable(scope, zones[1..], unreadable)
  }

  lemma {:induction false} ReadZonesNext(scope: Scope, zones: seq<Zone>, i: nat, w: World)
    requires i < |zones|
    ensures ReadZones(scope, zones, zones[..i + 1], w)
            == ReadZones(scope, zones, zones[..i], w) + ReadZone(scope, zones, zones[i], w)
  {
    assert zones[..i + 1][..i] == zones[..i];
  }

  lemma {:induction false} NextUnreadable(scope: Scope, zones: seq<Zone>, i: nat, unreadable: map<Text, Failure>)
    requires i < |zones|
    ensures FirstUnreadable(scope, zones[i..], unreadable) ==
            if Relevant(scope, zones[i]) && zones[i].id in unreadable then Some(unreadable[zones[i].id])
            else FirstUnreadable(scope, zones[i + 1..], unreadable)
  {
    assert zones[i..][1..] == zones[i + 1..];
  }

  /**
   The records under management. Irrelevant zones are not asked, yet nothing is missed: the result is that of
   reading every zone. It fails as a whole, with the failure it met, when a zone that is asked cannot be read.
   */
  method ReadRecords(backend: Backend, scope: Scope, listFails: Option<Failure>, unreadable: map<Text, Failure>)
    returns (res: Result<seq<Record>>)
    ensures scope.domains == [] ==> res == Ok([])
    ensures scope.domains != [] && listFails.Some? ==> res == Err(listFails.value)
    ensures scope.domains != [] && listFails.None? ==>
              var failure := FirstUnreadable(scope, backend.zones, unreadable);
              res == if failure.Some? then Err(failure.value)
                     else Ok(ReadZones(scope, backend.zones, backend.zones, backend.published))
  {
    if scope.IsEmpty() {
      return Ok([]);
    }
    if listFails.Some? {
      return Err(listFails.value);
    }
    var zones := backend.zones;
    var x := NewZoneIndex(zones);
    var out: seq<Record> := [];
    for i := 0 to |zones|
      invariant out == ReadZones(scope, zones, zones[..i], backend.published)
      invariant FirstUnreadable(scope, zones, unreadable) == FirstUnreadable(scope, zones[i..], unreadable)
    {
      var z := zones[i];
      ReadZonesNext(scope, zones, i, backend.published);
      NextUnreadable(scope, zones, i, unreadable);
      var relevant := ZoneIsRelevant(scope, z);
      if !relevant {
        IrrelevantZoneShowsNothing(scope, zones, z, backend.published);
        continue;
      }
      if z.id in unreadable {
        return Err(unreadable[z.id]);
      }
      var records := ListRecords(Published(backend.published, z.id));
      var visible := ReadOne(scope, zones, x, z, records);
      out := out + visible;
    }
    PrefixAll(zones);
    return Ok(out);
  }
}
