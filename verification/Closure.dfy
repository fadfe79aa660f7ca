/** Writing and reading together: what Records returns after ApplyChanges. */
module Closure {
  import opened Text
  import opened Names
  import opened Scopes
  import opened Records
  import opened Seqs
  import opened Validate
  import opened Zones
  import opened Grouping
  import opened GroupingLaws
  import opened Overwrites
  import opened Merging
  import opened MergeLaws
  import opened EditLaws
  import opened Backends
  import opened RunLaws
  import opened Reading

  // ----- One key in one zone -----

  function About(n: Name, t: RecordType): Record -> bool {
    (r: Record) => r.name == n && r.rtype == t
  }

  function KeyIs(k: Key): Entry -> bool {
    (e: Entry) => KeyOf(e) == k
  }

  function EntriesWith(es: seq<Entry>, k: Key): seq<Entry> {
    Filter(KeyIs(k), es)
  }

  function KeyFor(n: Name, t: RecordType): Key {
    Key(n.text, t)
  }

  lemma EntryReportedUnderItsKey(e: Entry, n: Name, t: RecordType)
    requires !IsZero(n)
    ensures KeyOf(e) == KeyFor(n, t) <==> e.rrtype == t && Parse(e.name) == Some(n)
  {
    NameIsCanonical(n);
    if Canonical(e.name).Some? {
      assert Parse(e.name).value.text == Canonical(e.name).value;
    }
  }

  lemma ListingSnoc(es: seq<Entry>, e: Entry)
    ensures Listing(es + [e]) == if ToProviderRecord(e).Some? then Listing(es) + [ToProviderRecord(e).value]
                                 else Listing(es)
  {
    assert (es + [e])[..|es|] == es;
  }

  /** The reported records of one key are the reports of the entries with that key. */
  lemma {:induction false} ListingAbout(es: seq<Entry>, n: Name, t: RecordType)
    requires !IsZero(n)
    ensures ReportsByKey(es, n, t)
  {
    hide ToProviderRecord, KeyOf;
    if es != [] {
      var front, e := es[..|es| - 1], es[|es| - 1];
      ListingAbout(front, n, t);
      ListingAboutSnoc(front, e, n, t);
      assert es == front + [e];
      assert ReportsByKey(front + [e], n, t);
    }
  }

  predicate ReportsByKey(es: seq<Entry>, n: Name, t: RecordType) {
    Filter(About(n, t), Listing(es)) == Listing(EntriesWith(es, KeyFor(n, t)))
  }

  lemma {:induction false} ListingAboutSnoc(front: seq<Entry>, e: Entry, n: Name, t: RecordType)
    requires !IsZero(n) && ReportsByKey(front, n, t)
    ensures ReportsByKey(front + [e], n, t)
  {
    var r := ToProviderRecord(e);
    ListingSnoc(front, e);
    EntryReportedUnderItsKey(e, n, t);
    FilterSnoc(KeyIs(KeyFor(n, t)), front, e);
    ListingSnoc(EntriesWith(front, KeyFor(n, t)), e);
    if r.Some? {
      FilterSnoc(About(n, t), Listing(front), r.value);
    }
  }

  lemma {:induction false} DistinctEntriesWith(es: seq<Entry>, k: Key)
    requires Distinct(Keys(es))
    ensures EntriesWith(es, k) == if LastWith(es, k).Some? then [LastWith(es, k).value] else []
  {
    hide KeyOf;
    if es != [] {
      var front, e := es[..|es| - 1], es[|es| - 1];
      assert es == front + [e];
      LastKeyIsNew(front, e);
      DistinctEntriesWith(front, k);
      FilterSnoc(KeyIs(k), front, e);
      LastWithFinds(front, k);
    }
  }

  lemma LastKeyIsNew(front: seq<Entry>, e: Entry)
    requires Distinct(Keys(front + [e]))
    ensures Distinct(Keys(front)) && KeyOf(e) !in Keys(front)
  {
    hide KeyOf;
    MapSnoc(KeyOf, front, e);
    var ks := Keys(front + [e]);
    assert ks[|front|] == KeyOf(e);
    assert forall i | 0 <= i < |front| :: ks[i] == Keys(front)[i];
  }

  /** Records that compare as unchanged are reported alike. */
  lemma {:induction false} SameListing(a: seq<Entry>, b: seq<Entry>, k: Key)
    requires Unchanged(a, b)
    ensures Listing(EntriesWith(a, k)) == Listing(EntriesWith(b, k))
  {
    if a != [] {
      var i := |a| - 1;
      SameListing(a[..i], b[..i], k);
      SameRecordSameReport(a[i], b[i]);
      EntriesWithSnoc(a[..i], a[i], k);
      EntriesWithSnoc(b[..i], b[i], k);
      PrefixSnoc(a, i);
      PrefixSnoc(b, i);
      PrefixAll(a);
      PrefixAll(b);
    }
  }

  lemma SameRecordSameReport(a: Entry, b: Entry)
    requires SameRecord(a, b)
    ensures KeyOf(a) == KeyOf(b) && ToProviderRecord(a) == ToProviderRecord(b)
  {
  }

  lemma EntriesWithSnoc(es: seq<Entry>, e: Entry, k: Key)
    ensures Listing(EntriesWith(es + [e], k)) ==
            if KeyOf(e) == k && ToProviderRecord(e).Some? then Listing(EntriesWith(es, k)) + [ToProviderRecord(e).value]
            else Listing(EntriesWith(es, k))
  {
    FilterSnoc(KeyIs(k), es, e);
    ListingSnoc(EntriesWith(es, k), e);
  }

  /** The contents of a zone once its change set has been applied. */
  function AfterEdit(current: seq<Entry>, cs: ChangeSet): seq<Entry> {
    match Edit(current, cs)
    case Submitted(es) => es
    case _ => current
  }

  lemma AfterEditListsSubmitted(current: seq<Entry>, cs: ChangeSet, k: Key)
    requires !Edit(current, cs).Refused?
    ensures Convertible(cs)
    ensures Listing(EntriesWith(AfterEdit(current, cs), k)) == Listing(EntriesWith(SubmittedSet(current, cs), k))
  {
    EditRefusesIff(current, cs);
    if Edit(current, cs) == Skipped {
      SameListing(current, SubmittedSet(current, cs), k);
    }
  }

  /** A key comes out twice when it is published and both deleted and written. */
  predicate ComesOutTwice(current: seq<Entry>, cs: ChangeSet, k: Key) {
    k in Keys(current) && k in Restored(cs)
  }

  function Copies<T>(twice: bool, x: T): seq<T> {
    if twice then [x, x] else [x]
  }

  lemma PartWith(part: seq<Entry>, k: Key, x: Entry)
    requires Distinct(Keys(part)) && forall e <- part :: KeyOf(e) == k ==> e == x
    ensures EntriesWith(part, k) == if k in Keys(part) then [x] else []
  {
    DistinctEntriesWith(part, k);
    LastWithFinds(part, k);
  }

  lemma TwoPartsWith(a: seq<Entry>, b: seq<Entry>, k: Key, x: Entry)
    requires Distinct(Keys(a)) && Distinct(Keys(b))
    requires forall e <- a + b :: KeyOf(e) == k ==> e == x
    ensures EntriesWith(a + b, k) == (if k in Keys(a) then [x] else []) + (if k in Keys(b) then [x] else [])
  {
    assert forall e :: e in a || e in b ==> e in a + b;
    PartWith(a, k, x);
    PartWith(b, k, x);
    FilterConcat(KeyIs(k), a, b);
  }

  lemma PartsOfKeys(es: seq<Entry>, kept: seq<Key>, added: seq<Key>)
    requires Keys(es) == kept + added
    ensures Keys(es[..|kept|]) == kept && Keys(es[|kept|..]) == added && es == es[..|kept|] + es[|kept|..]
  {
    MapParts(KeyOf, es, |kept|);
  }

  lemma OutKeysParts(current: seq<Entry>, cs: ChangeSet, k: Key)
    ensures var kept := Keep(FinalKeys(current, cs), FirstSeen({}, Keys(current)));
            var added := FirstSeen(BaseKeys(current, cs), WriteKeys(cs.Writes()));
            && OutKeys(current, cs) == kept + added && Distinct(kept) && Distinct(added)
            && (k in kept && k in added <==> ComesOutTwice(current, cs, k))
            && (k in kept || k in added <==> k in FinalKeys(current, cs))
  {
    var kept := Keep(FinalKeys(current, cs), FirstSeen({}, Keys(current)));
    var added := FirstSeen(BaseKeys(current, cs), WriteKeys(cs.Writes()));
    FirstSeenFacts({}, Keys(current));
    KeepFacts(FinalKeys(current, cs), FirstSeen({}, Keys(current)));
    FirstSeenFacts(BaseKeys(current, cs), WriteKeys(cs.Writes()));
    assert k in kept <==> k in Elems(kept);
    assert k in added <==> k in Elems(added);
  }

  lemma SubmittedWithKey(current: seq<Entry>, cs: ChangeSet, k: Key)
    requires Convertible(cs)
    ensures forall e <- SubmittedSet(current, cs) :: KeyOf(e) == k ==> e == SubmittedEntry(current, cs, k)
  {
    var es := SubmittedSet(current, cs);
    SubmittedSetMeetsSpecification(current, cs);
    forall e <- es ensures KeyOf(e) == k ==> e == SubmittedEntry(current, cs, k) {
      var i :| 0 <= i < |es| && es[i] == e;
      assert Keys(es)[i] == KeyOf(e);
    }
  }

  lemma SubmittedEntriesWith(current: seq<Entry>, cs: ChangeSet, k: Key)
    requires Convertible(cs)
    ensures EntriesWith(SubmittedSet(current, cs), k) ==
            if k in FinalKeys(current, cs) then Copies(ComesOutTwice(current, cs, k), SubmittedEntry(current, cs, k))
            else []
  {
    var es, x := SubmittedSet(current, cs), SubmittedEntry(current, cs, k);
    var kept := Keep(FinalKeys(current, cs), FirstSeen({}, Keys(current)));
    var added := FirstSeen(BaseKeys(current, cs), WriteKeys(cs.Writes()));
    SubmittedSetMeetsSpecification(current, cs);
    SubmittedWithKey(current, cs, k);
    OutKeysParts(current, cs, k);
    PartsOfKeys(es, kept, added);
    TwoPartsWith(es[..|kept|], es[|kept|..], k, x);
    assert [x] + [x] == [x, x];
  }

  /** The record a write leads to when it is read back. */
  function ReadBack(w: Record): Record {
    if NormalizedValues(w).Ok? then w.(values := NormalizedValues(w).value) else w
  }

  lemma WrittenEntryReadsBack(current: seq<Entry>, cs: ChangeSet, n: Name, t: RecordType)
    requires !IsZero(n) && Convertible(cs) && SurvivorsSpelledCanonically(current, cs)
    requires LastWrite(cs.Writes(), KeyFor(n, t)).Some?
    requires TtlAccepted(LastWrite(cs.Writes(), KeyFor(n, t)).value.ttl)
    ensures ToProviderRecord(SubmittedEntry(current, cs, KeyFor(n, t))) ==
            Some(ReadBack(LastWrite(cs.Writes(), KeyFor(n, t)).value))
  {
    var k := KeyFor(n, t);
    var r := LastWrite(cs.Writes(), k).value;
    LastWriteFinds(cs.Writes(), k);
    var e := SubmittedEntry(current, cs, k);
    OutEntryHasItsKey(current, cs, k);
    EntryReportedUnderItsKey(e, n, t);
    TtlReadsBackIffItFits(r.ttl);
    RdataReadsBack(NormalizedValues(r).value);
    assert Writable(r);
  }

  /**
   One zone, one key: after the edit the zone reports the last write once, nothing for a deleted key,
   and what it reported before for any other key. Only a write that is also deleted and was published appears twice.
   */
  lemma EditSeenByReader(current: seq<Entry>, cs: ChangeSet, n: Name, t: RecordType)
    requires !IsZero(n) && !Edit(current, cs).Refused?
    requires Distinct(Keys(current))
    requires (forall r <- cs.create :: TtlAccepted(r.ttl)) && (forall r <- cs.updateTo :: TtlAccepted(r.ttl))
    ensures var k := KeyFor(n, t);
            Listing(EntriesWith(AfterEdit(current, cs), k)) ==
            if Prevailing(cs, k).Some? then
              Copies(ComesOutTwice(current, cs, k), ReadBack(Prevailing(cs, k).value))
            else if k in DeleteKeys(cs) then []
            else Listing(EntriesWith(current, k))
  {
    UpdatesPrevail(cs, KeyFor(n, t));
    var k := KeyFor(n, t);
    EditRefusesIff(current, cs);
    AfterEditListsSubmitted(current, cs, k);
    SubmittedEntriesWith(current, cs, k);
    LastWriteFinds(cs.Writes(), k);
    if LastWrite(cs.Writes(), k).Some? {
      WrittenEntryReadsBack(current, cs, n, t);
      assert k in FinalKeys(current, cs);
      ListingOfCopies(ComesOutTwice(current, cs, k), SubmittedEntry(current, cs, k));
    } else if k !in DeleteKeys(cs) {
      DistinctEntriesWith(current, k);
      LastWithFinds(current, k);
      if k in Keys(current) {
        UntouchedEntryReported(current, cs, k);
        ListingOfOne(SubmittedEntry(current, cs, k));
        ListingOfOne(LastWith(current, k).value);
      }
    }
  }

  lemma ListingOfCopies(twice: bool, e: Entry)
    requires ToProviderRecord(e).Some?
    ensures Listing(Copies(twice, e)) == Copies(twice, ToProviderRecord(e).value)
  {
    var r := ToProviderRecord(e).value;
    ListingOfOne(e);
    if twice {
      ListingSnoc([e], e);
      TwiceIsTwo(e);
      TwiceIsTwo(r);
    }
  }

  lemma TwiceIsTwo<T>(x: T)
    ensures Copies(true, x) == [x] + [x]
  {
  }

  lemma ListingOfOne(e: Entry)
    ensures Listing([e]) == if ToProviderRecord(e).Some? then [ToProviderRecord(e).value] else []
  {
    assert [] + [e] == [e];
    ListingSnoc([], e);
  }

  lemma {:induction false} UntouchedEntryReported(current: seq<Entry>, cs: ChangeSet, k: Key)
    requires k in Keys(current) && k !in DeleteKeys(cs) && k !in WriteKeys(cs.Writes())
    ensures LastWith(current, k).Some?
    ensures ToProviderRecord(SubmittedEntry(current, cs, k)) == ToProviderRecord(LastWith(current, k).value)
  {
    UntouchedIsVerbatim(current, cs, k);
  }

  // ----- One key over all zones -----

  predicate DistinctNames(zones: seq<Zone>) {
    forall i, j | 0 <= i < j < |zones| :: zones[i].name != zones[j].name
  }

  lemma {:induction false} FilterSameVerdict(p: Record -> bool, q: Record -> bool, s: seq<Record>, verdict: bool)
    requires forall r <- s :: p(r) ==> q(r) == verdict
    ensures Filter(p, Filter(q, s)) == if verdict then Filter(p, s) else []
  {
    if s != [] {
      assert s == [s[0]] + s[1..];
      FilterSameVerdict(p, q, s[1..], verdict);
      if q(s[0]) {
        FilterConcat(p, [s[0]], Filter(q, s[1..]));
      }
    }
  }

  /** What reading one zone says about one key. */
  lemma ReadZoneAbout(scope: Scope, zones: seq<Zone>, z: Zone, w: World, n: Name, t: RecordType)
    requires !IsZero(n)
    ensures Filter(About(n, t), ReadZone(scope, zones, z, w)) ==
            if scope.Contains(n) && Owns(zones, z, n) then Listing(EntriesWith(Published(w, z.id), KeyFor(n, t)))
            else []
  {
    var rs := Listing(Published(w, z.id));
    FilterSameVerdict(About(n, t), VisibleIn(scope, zones, z), rs, scope.Contains(n) && Owns(zones, z, n));
    ListingAbout(Published(w, z.id), n, t);
  }

  /** The records reading returns for one key. */
  function ReadAbout(scope: Scope, zones: seq<Zone>, w: World, n: Name, t: RecordType): seq<Record> {
    Filter(About(n, t), ReadZones(scope, zones, zones, w))
  }

  /** The records of the owner once it has been read. */
  function FromOwner(owner: Option<Zone>, read: seq<Zone>, records: seq<Record>): seq<Record> {
    if owner.Some? && owner.value in read then records else []
  }

  lemma FromOwnerStep(owner: Option<Zone>, front: seq<Zone>, z: Zone, records: seq<Record>)
    requires z !in front
    ensures FromOwner(owner, front + [z], records) ==
            FromOwner(owner, front, records) + if owner == Some(z) then records else []
  {
  }

  /** The owner of a name in scope. */
  function ScopedOwner(scope: Scope, zones: seq<Zone>, n: Name): Option<Zone> {
    if scope.Contains(n) then OwnerOf(zones, n) else None
  }

  function OwnersListing(owner: Option<Zone>, w: World, k: Key): seq<Record> {
    if owner.Some? then Listing(EntriesWith(Published(w, owner.value.id), k)) else []
  }

  lemma ReadListedZoneAbout(scope: Scope, zones: seq<Zone>, front: seq<Zone>, z: Zone, w: World, n: Name, t: RecordType)
    requires !IsZero(n) && DistinctNames(zones) && front + [z] <= zones
    ensures z !in front
    ensures var owner := ScopedOwner(scope, zones, n);
            Filter(About(n, t), ReadZone(scope, zones, z, w)) ==
            if owner == Some(z) then OwnersListing(owner, w, KeyFor(n, t)) else []
  {
    ReadZoneAbout(scope, zones, z, w, n, t);
    var m := |front|;
    assert zones[m] == z && zones[..m] == front;
    OwnedByListedZone(zones, m, n);
  }

  lemma ReadZonesSnoc(scope: Scope, zones: seq<Zone>, front: seq<Zone>, z: Zone, w: World, n: Name, t: RecordType)
    ensures Filter(About(n, t), ReadZones(scope, zones, front + [z], w)) ==
            Filter(About(n, t), ReadZones(scope, zones, front, w)) + Filter(About(n, t), ReadZone(scope, zones, z, w))
  {
    assert (front + [z])[..|front|] == front;
    FilterConcat(About(n, t), ReadZones(scope, zones, front, w), ReadZone(scope, zones, z, w));
  }

  lemma {:induction false} ReadZonesAbout(scope: Scope, zones: seq<Zone>, read: seq<Zone>, w: World, n: Name,
                          t: RecordType)
    requires !IsZero(n) && DistinctNames(zones) && read <= zones
    ensures var owner := ScopedOwner(scope, zones, n);
            Filter(About(n, t), ReadZones(scope, zones, read, w))
            == FromOwner(owner, read, OwnersListing(owner, w, KeyFor(n, t)))
  {
    hide ReadZone;
    hide OwnersListing;
    if read != [] {
      var owner := ScopedOwner(scope, zones, n);
      var front, z := read[..|read| - 1], read[|read| - 1];
      assert read == front + [z];
      ReadZonesAbout(scope, zones, front, w, n, t);
      ReadZonesSnoc(scope, zones, front, z, w, n, t);
      ReadListedZoneAbout(scope, zones, front, z, w, n, t);
      FromOwnerStep(owner, front, z, OwnersListing(owner, w, KeyFor(n, t)));
    }
  }

  /** With distinct names, owning by name is being the owner, and no earlier zone is it as well. */
  lemma OwnedByListedZone(zones: seq<Zone>, i: nat, n: Name)
    requires DistinctNames(zones) && i < |zones|
    ensures Owns(zones, zones[i], n) <==> OwnerOf(zones, n) == Some(zones[i])
    ensures zones[i] !in zones[..i]
  {
    if OwnerOf(zones, n).Some? {
      var z := OwnerOf(zones, n).value;
      OwnerIsDeepest(zones, n, z);
      FirstNamedFinds(zones, z.name);
      var j :| 0 <= j < |zones| && zones[j] == z;
    }
  }

  /** Reading returns for a key what its owning zone publishes under it, when the name is in scope. */
  lemma ReadAboutIsOwnersListing(scope: Scope, zones: seq<Zone>, w: World, n: Name, t: RecordType)
    requires !IsZero(n) && DistinctNames(zones)
    ensures ReadAbout(scope, zones, w, n, t) ==
            if scope.Contains(n) && OwnerOf(zones, n).Some?
            then Listing(EntriesWith(Published(w, OwnerOf(zones, n).value.id), KeyFor(n, t))) else []
  {
    ReadZonesAbout(scope, zones, zones, w, n, t);
    if OwnerOf(zones, n).Some? {
      OwnerIsDeepest(zones, n, OwnerOf(zones, n).value);
      FirstNamedFinds(zones, OwnerOf(zones, n).value.name);
    }
  }

  // ----- The part of a change set that concerns one key -----

  lemma {:induction false} LastWriteOfFilter(keep: Record -> bool, rs: seq<Record>, k: Key)
    requires forall r <- rs :: RecordKey(r) == k ==> keep(r)
    ensures LastWrite(Filter(keep, rs), k) == LastWrite(rs, k)
  {
    if rs != [] {
      var front, r := rs[..|rs| - 1], rs[|rs| - 1];
      assert rs == front + [r];
      LastWriteOfFilter(keep, front, k);
      FilterSnoc(keep, front, r);
      LastWriteSnoc(Filter(keep, front), r, k);
      LastWriteSnoc(front, r, k);
    }
  }

  /** The owner's share holds every record about the name. */
  lemma ShareAboutName(zones: seq<Zone>, cs: ChangeSet, n: Name, t: RecordType)
    requires OwnerOf(zones, n).Some?
    ensures var s, k := Share(zones, OwnerOf(zones, n).value.name, cs), KeyFor(n, t);
            && Prevailing(s, k) == Prevailing(cs, k)
            && (k in DeleteKeys(s) <==> k in DeleteKeys(cs))
  {
    var k := KeyFor(n, t);
    var keep := OwnedAs(zones, OwnerOf(zones, n).value.name);
    LastWriteOfFilter(keep, cs.create, k);
    LastWriteOfFilter(keep, cs.updateTo, k);
    LastWriteOfFilter(keep, cs.delete, k);
    LastWriteFinds(cs.delete, k);
    LastWriteFinds(Filter(keep, cs.delete), k);
  }

  lemma ShareRestores(zones: seq<Zone>, cs: ChangeSet, n: Name, t: RecordType)
    requires OwnerOf(zones, n).Some?
    ensures KeyFor(n, t) in Restored(Share(zones, OwnerOf(zones, n).value.name, cs)) <==> KeyFor(n, t) in Restored(cs)
  {
    var s := Share(zones, OwnerOf(zones, n).value.name, cs);
    ShareAboutName(zones, cs, n, t);
    WrittenIff(s, KeyFor(n, t));
    WrittenIff(cs, KeyFor(n, t));
  }

  /** Another zone's share mentions no record about the name. */
  lemma ForeignShareIsSilent(zones: seq<Zone>, cs: ChangeSet, z: Zone, n: Name, t: RecordType)
    requires !Owns(zones, z, n)
    ensures var s, k := Share(zones, z.name, cs), KeyFor(n, t);
            k !in WriteKeys(s.Writes()) && k !in DeleteKeys(s)
  {
    var s, k := Share(zones, z.name, cs), KeyFor(n, t);
    FilterMembers(OwnedAs(zones, z.name), cs.create);
    FilterMembers(OwnedAs(zones, z.name), cs.updateTo);
    FilterMembers(OwnedAs(zones, z.name), cs.delete);
    NoRecordNoKey(s.Writes(), n, t);
    NoRecordNoKey(s.delete, n, t);
  }

  lemma NoRecordNoKey(rs: seq<Record>, n: Name, t: RecordType)
    requires forall r <- rs :: r.name != n
    ensures KeyFor(n, t) !in WriteKeys(rs)
  {
    forall i | 0 <= i < |rs| ensures WriteKeys(rs)[i] != KeyFor(n, t) {
      assert rs[i] in rs;
    }
  }

  // ----- Main results -----

  /** What a successful ApplyChanges presupposes, and what DPF guarantees of its zones. */
  ghost predicate Applicable(scope: Scope, zones: seq<Zone>, cs: ChangeSet, groups: seq<Group>, w: World) {
    && DistinctNames(zones) && IdsIdentify(zones)
    && (forall r <- cs.All() :: scope.Contains(r.name))
    && Resolvable(zones, cs.All()) && IsGrouping(zones, cs, groups)
    && FormatError(cs).None?
    && (forall z <- zones :: Distinct(Keys(Published(w, z.id))))
  }

  lemma AcceptedTtls(zones: seq<Zone>, cs: ChangeSet, n: Name)
    requires FormatError(cs).None?
    ensures forall r <- Share(zones, n, cs).create :: TtlAccepted(r.ttl)
    ensures forall r <- Share(zones, n, cs).updateTo :: TtlAccepted(r.ttl)
  {
    FormatAcceptedIff(cs);
    FilterMembers(OwnedAs(zones, n), cs.create);
    FilterMembers(OwnedAs(zones, n), cs.updateTo);
    forall r | r in cs.create || r in cs.updateTo ensures TtlAccepted(r.ttl) {
      assert RecordError(r).None?;
    }
  }

  /** The zone of a group, after a success: the edit was accepted and its result is published. */
  lemma {:induction false} GroupZoneAfterSuccess(zones: seq<Zone>, cs: ChangeSet, groups: seq<Group>, w: World,
                          fates: seq<Fate>, g: Group)
    requires IsGrouping(zones, cs, groups) && IdsIdentify(zones) && g in groups
    requires ApplyGroups(w, groups, fates, |groups|).1.None?
    ensures !Edit(Published(w, g.zone.id), g.changes).Refused?
    ensures Published(ApplyGroups(w, groups, fates, |groups|).0, g.zone.id)
            == AfterEdit(Published(w, g.zone.id), g.changes)
  {
    hide Edit, ApplyGroups;
    GroupIdsDistinct(zones, cs, groups);
    GroupsAreNonEmpty(zones, cs, groups, g);
    var k :| 0 <= k < |groups| && groups[k] == g;
    AttemptReachesGoal(w, groups, fates, k);
  }

  predicate OwnerDoubles(zones: seq<Zone>, cs: ChangeSet, w: World, n: Name, k: Key) {
    OwnerOf(zones, n).Some? && ComesOutTwice(Published(w, OwnerOf(zones, n).value.id), cs, k)
  }

  /**
   Write/read closure. After a successful ApplyChanges, Records returns for each name and type:
   the last write exactly once, with its TTL and its normalised values, when the key was written;
   nothing when it was deleted; and exactly what it returned before in every other case.
   A key that its owner published and that is both deleted and written is returned twice.
   */
  lemma {:induction false} WriteThenRead(scope: Scope, zones: seq<Zone>, cs: ChangeSet, groups: seq<Group>, w: World,
                          fates: seq<Fate>,
                      n: Name, t: RecordType)
    requires Applicable(scope, zones, cs, groups, w) && !IsZero(n)
    requires ApplyGroups(w, groups, fates, |groups|).1.None?
    ensures var after, k := ApplyGroups(w, groups, fates, |groups|).0, KeyFor(n, t);
            ReadAbout(scope, zones, after, n, t) ==
            if Prevailing(cs, k).Some? then
              Copies(OwnerDoubles(zones, cs, w, n, k), ReadBack(Prevailing(cs, k).value))
            else if k in DeleteKeys(cs) then []
            else ReadAbout(scope, zones, w, n, t)
  {
    var after := ApplyGroups(w, groups, fates, |groups|).0;
    ReadAboutIsOwnersListing(scope, zones, w, n, t);
    ReadAboutIsOwnersListing(scope, zones, after, n, t);
    MentionedNamesAreReadable(scope, zones, cs, n, t);
    if scope.Contains(n) && OwnerOf(zones, n).Some? {
      OwnersZoneAbout(scope, zones, cs, groups, w, fates, n, t);
    }
  }

  /**
   The same after any failed attempts and one success, when every group settles in its zone. A change set that
   deletes nothing it writes has such groups in every world.
   */
  lemma {:induction false} WriteThenReadAfterRetries(scope: Scope, zones: seq<Zone>, cs: ChangeSet, groups: seq<Group>,
                                                     w: World, attempts: seq<Attempt>, last: Attempt, n: Name,
                                                     t: RecordType)
    requires Applicable(scope, zones, cs, groups, w) && !IsZero(n) && Sound(w, groups)
    requires RunAttempt(RunAll(w, groups, attempts), groups, last).1.None?
    ensures var after, k := RunAttempt(RunAll(w, groups, attempts), groups, last).0, KeyFor(n, t);
            ReadAbout(scope, zones, after, n, t) ==
            if Prevailing(cs, k).Some? then
              Copies(OwnerDoubles(zones, cs, w, n, k), ReadBack(Prevailing(cs, k).value))
            else if k in DeleteKeys(cs) then []
            else ReadAbout(scope, zones, w, n, t)
  {
    hide Edit, ApplyGroups;
    RetriesConverge(w, groups, attempts, last);
    WriteThenRead(scope, zones, cs, groups, w, [], n, t);
  }

  /** The same for the one zone that owns the name, whether or not it has a group. */
  lemma {:induction false} OwnersZoneAbout(scope: Scope, zones: seq<Zone>, cs: ChangeSet, groups: seq<Group>,
                          w: World, fates: seq<Fate>,
                         n: Name, t: RecordType)
    requires Applicable(scope, zones, cs, groups, w) && !IsZero(n) && OwnerOf(zones, n).Some?
    requires ApplyGroups(w, groups, fates, |groups|).1.None?
    ensures var after, k, id := ApplyGroups(w, groups, fates, |groups|).0, KeyFor(n, t), OwnerOf(zones, n).value.id;
            Listing(EntriesWith(Published(after, id), k)) ==
            if Prevailing(cs, k).Some? then
              Copies(OwnerDoubles(zones, cs, w, n, k), ReadBack(Prevailing(cs, k).value))
            else if k in DeleteKeys(cs) then []
            else Listing(EntriesWith(Published(w, id), k))
  {
    if exists g <- groups :: g.zone.name == OwnerOf(zones, n).value.name {
      GroupedZoneAbout(scope, zones, cs, groups, w, fates, n, t);
    } else {
      UngroupedZone(zones, cs, groups, n, t);
      ApplyGroupsElsewhere(w, groups, fates, |groups|, OwnerOf(zones, n).value.id);
    }
  }

  lemma {:induction false} GroupedZoneAbout(scope: Scope, zones: seq<Zone>, cs: ChangeSet, groups: seq<Group>,
                          w: World, fates: seq<Fate>,
                         n: Name, t: RecordType)
    requires Applicable(scope, zones, cs, groups, w) && !IsZero(n) && OwnerOf(zones, n).Some?
    requires ApplyGroups(w, groups, fates, |groups|).1.None?
    requires exists g <- groups :: g.zone.name == OwnerOf(zones, n).value.name
    ensures var after, k, id := ApplyGroups(w, groups, fates, |groups|).0, KeyFor(n, t), OwnerOf(zones, n).value.id;
            Listing(EntriesWith(Published(after, id), k)) ==
            if Prevailing(cs, k).Some? then
              Copies(OwnerDoubles(zones, cs, w, n, k), ReadBack(Prevailing(cs, k).value))
            else if k in DeleteKeys(cs) then []
            else Listing(EntriesWith(Published(w, id), k))
  {
    hide Edit;
    var z := OwnerOf(zones, n).value;
    var g :| g in groups && g.zone.name == z.name;
    ShareAboutName(zones, cs, n, t);
    GroupOfOwner(zones, cs, groups, g, n);
    GroupZoneAfterSuccess(zones, cs, groups, w, fates, g);
    AcceptedTtls(zones, cs, z.name);
    ShareRestores(zones, cs, n, t);
    EditSeenByReader(Published(w, z.id), g.changes, n, t);
  }

  /** A key of the change set belongs to a name in scope that has an owner. */
  lemma MentionedNamesAreReadable(scope: Scope, zones: seq<Zone>, cs: ChangeSet, n: Name, t: RecordType)
    requires Resolvable(zones, cs.All()) && forall r <- cs.All() :: scope.Contains(r.name)
    ensures Prevailing(cs, KeyFor(n, t)).Some? || KeyFor(n, t) in DeleteKeys(cs) ==>
              scope.Contains(n) && OwnerOf(zones, n).Some?
  {
    var k := KeyFor(n, t);
    LastWriteFinds(cs.create, k);
    LastWriteFinds(cs.updateTo, k);
    LastWriteFinds(cs.delete, k);
  }

  lemma GroupOfOwner(zones: seq<Zone>, cs: ChangeSet, groups: seq<Group>, g: Group, n: Name)
    requires IsGrouping(zones, cs, groups) && g in groups
    requires OwnerOf(zones, n).Some? && g.zone.name == OwnerOf(zones, n).value.name
    ensures g.zone == OwnerOf(zones, n).value && g.zone in zones
    ensures g.changes == Share(zones, OwnerOf(zones, n).value.name, cs)
  {
    OwnerIsDeepest(zones, n, OwnerOf(zones, n).value);
    FirstNamedFinds(zones, g.zone.name);
  }

  /** A record about the name is a record of its owner. */
  lemma {:induction false} OwnedRecord(zones: seq<Zone>, cs: ChangeSet, n: Name, t: RecordType, r: Record)
    requires OwnerOf(zones, n).Some? && r in cs.All() && RecordKey(r) == KeyFor(n, t)
    ensures IsOwnerName(zones, cs, OwnerOf(zones, n).value.name)
  {
    hide OwnerOf;
    assert r.name == n;
    assert OwnerIs(zones, OwnerOf(zones, n).value.name, r);
  }

  lemma {:induction false} UnownedIsSilent(zones: seq<Zone>, cs: ChangeSet, n: Name, t: RecordType)
    requires OwnerOf(zones, n).Some? && !IsOwnerName(zones, cs, OwnerOf(zones, n).value.name)
    ensures Prevailing(cs, KeyFor(n, t)).None? && KeyFor(n, t) !in DeleteKeys(cs)
  {
    hide OwnerOf, IsOwnerName, LastWrite;
    var k := KeyFor(n, t);
    LastWriteFinds(cs.create, k);
    LastWriteFinds(cs.updateTo, k);
    LastWriteFinds(cs.delete, k);
    if Prevailing(cs, k).Some? {
      OwnedRecord(zones, cs, n, t, Prevailing(cs, k).value);
    }
    if LastWrite(cs.delete, k).Some? {
      OwnedRecord(zones, cs, n, t, LastWrite(cs.delete, k).value);
    }
  }

  /** A zone without a group owns no record of the change set, and no group has its ID. */
  lemma UngroupedZone(zones: seq<Zone>, cs: ChangeSet, groups: seq<Group>, n: Name, t: RecordType)
    requires IsGrouping(zones, cs, groups) && IdsIdentify(zones) && OwnerOf(zones, n).Some?
    requires forall g <- groups :: g.zone.name != OwnerOf(zones, n).value.name
    ensures Prevailing(cs, KeyFor(n, t)).None? && KeyFor(n, t) !in DeleteKeys(cs)
    ensures forall i | 0 <= i < |groups| :: groups[i].zone.id != OwnerOf(zones, n).value.id
  {
    var z := OwnerOf(zones, n).value;
    assert z.name !in GroupNames(groups);
    UnownedIsSilent(zones, cs, n, t);
    OwnerIsDeepest(zones, n, z);
    FirstNamedFinds(zones, z.name);
    forall i | 0 <= i < |groups| ensures groups[i].zone.id != z.id {
      assert groups[i] in groups;
      FirstNamedFinds(zones, groups[i].zone.name);
    }
  }

  // ----- Stale copies and records nobody asked about -----

  /** The last record with a key is the last of the records with it. */
  lemma {:induction false} LastOfEntriesWith(es: seq<Entry>, k: Key)
    ensures LastWith(es, k) == LastOf(EntriesWith(es, k))
  {
    hide KeyOf;
    if es != [] {
      var front, e := es[..|es| - 1], es[|es| - 1];
      LastOfEntriesWith(front, k);
      EntriesWithLast(front, e, k);
      assert es == front + [e];
    }
  }

  function LastOf<T>(s: seq<T>): Option<T> {
    if s == [] then None else Some(s[|s| - 1])
  }

  lemma EntriesWithLast(front: seq<Entry>, e: Entry, k: Key)
    ensures LastOf(EntriesWith(front + [e], k)) == if KeyOf(e) == k then Some(e) else LastOf(EntriesWith(front, k))
  {
    FilterSnoc(KeyIs(k), front, e);
  }

  predicate Mentions(cs: ChangeSet, k: Key) {
    k in WriteKeys(cs.Writes()) || k in DeleteKeys(cs)
  }

  /** As published, or with a nil label map made empty. */
  predicate StaysAs(before: seq<Entry>, after: seq<Entry>) {
    after == before || after == Map(WithLabels, before)
  }

  lemma SingleEntryWith(es: seq<Entry>, k: Key)
    requires |EntriesWith(es, k)| <= 1
    ensures LastWith(es, k).Some? <==> k in Keys(es)
    ensures EntriesWith(es, k) == if k in Keys(es) then [LastWith(es, k).value] else []
  {
    var with := EntriesWith(es, k);
    LastOfEntriesWith(es, k);
    LastWithFinds(es, k);
    if with != [] {
      assert with == [with[0]];
    }
  }

  lemma UnmentionedSubmitted(current: seq<Entry>, cs: ChangeSet, k: Key)
    requires Convertible(cs) && SurvivorsSpelledCanonically(current, cs) && !Mentions(cs, k)
    ensures k in FinalKeys(current, cs) <==> k in Keys(current)
    ensures k in Keys(current) ==>
              LastWith(current, k).Some? && SubmittedEntry(current, cs, k) == WithLabels(LastWith(current, k).value)
  {
    if k in Keys(current) {
      UntouchedIsVerbatim(current, cs, k);
      assert k in BaseKeys(current, cs);
      OutEntryLiteralKey(current, cs, k);
      OutEntryHasItsKey(current, cs, k);
    }
  }

  lemma UnmentionedEntryStays(current: seq<Entry>, cs: ChangeSet, k: Key)
    requires Edit(current, cs).Submitted? && |EntriesWith(current, k)| <= 1 && !Mentions(cs, k)
    ensures EntriesWith(Edit(current, cs).entries, k) == Map(WithLabels, EntriesWith(current, k))
  {
    EditRefusesIff(current, cs);
    SubmittedEntriesWith(current, cs, k);
    SingleEntryWith(current, k);
    UnmentionedSubmitted(current, cs, k);
  }

  /** One application to the zone, or to another zone. */
  lemma ZoneKeepsUnmentioned(before: seq<Entry>, w: World, g: Group, fate: Fate, id: Text, k: Key)
    requires |before| <= 1 && StaysAs(before, EntriesWith(Published(w, id), k))
    requires g.zone.id == id ==> !Mentions(g.changes, k)
    ensures StaysAs(before, EntriesWith(Published(ApplyZone(w, g.zone, g.changes, fate).0, id), k))
  {
    hide Edit;
    if g.zone.id != id {
      ApplyZoneElsewhere(w, g.zone, g.changes, fate, id);
    } else if Edit(Published(w, id), g.changes).Submitted? {
      UnmentionedEntryStays(Published(w, id), g.changes, k);
      WithLabelsTwice(before);
    }
  }

  lemma WithLabelsTwice(es: seq<Entry>)
    ensures Map(WithLabels, Map(WithLabels, es)) == Map(WithLabels, es)
  {
  }

  predicate Silent(groups: seq<Group>, id: Text, k: Key) {
    forall i | 0 <= i < |groups| :: groups[i].zone.id == id ==> !Mentions(groups[i].changes, k)
  }

  predicate KeepsAfter(before: seq<Entry>, w: World, groups: seq<Group>, fates: seq<Fate>, n: nat, id: Text, k: Key)
    requires n <= |groups|
  {
    StaysAs(before, EntriesWith(Published(ApplyGroups(w, groups, fates, n).0, id), k))
  }

  lemma NextGroupKeepsUnmentioned(before: seq<Entry>, w: World, groups: seq<Group>, fates: seq<Fate>, n: nat, id: Text,
                                  k: Key)
    requires n < |groups| && Silent(groups, id, k) && |before| <= 1
    requires KeepsAfter(before, w, groups, fates, n, id, k)
    ensures KeepsAfter(before, w, groups, fates, n + 1, id, k)
  {
    ZoneKeepsUnmentioned(before, ApplyGroups(w, groups, fates, n).0, groups[n], FateAt(fates, n), id, k);
  }

  lemma {:induction false} GroupsKeepUnmentioned(before: seq<Entry>, w: World, groups: seq<Group>, fates: seq<Fate>,
                                                 n: nat, id: Text, k: Key)
    requires n <= |groups| && Silent(groups, id, k)
    requires |before| <= 1 && StaysAs(before, EntriesWith(Published(w, id), k))
    ensures KeepsAfter(before, w, groups, fates, n, id, k)
  {
    if n == 0 {
      assert ApplyGroups(w, groups, fates, 0) == (w, None);
    } else {
      var m := n - 1;
      GroupsKeepUnmentioned(before, w, groups, fates, m, id, k);
      NextGroupKeepsUnmentioned(before, w, groups, fates, m, id, k);
    }
  }

  lemma {:induction false} RunKeepsUnmentioned(before: seq<Entry>, w: World, groups: seq<Group>, attempts: seq<Attempt>,
                                               id: Text, k: Key)
    requires Silent(groups, id, k) && |before| <= 1 && StaysAs(before, EntriesWith(Published(w, id), k))
    ensures StaysAs(before, EntriesWith(Published(RunAll(w, groups, attempts), id), k))
  {
    if attempts != [] {
      var front, a := attempts[..|attempts| - 1], attempts[|attempts| - 1];
      RunKeepsUnmentioned(before, w, groups, front, id, k);
      if a.Reach? {
        GroupsKeepUnmentioned(before, RunAll(w, groups, front), groups, a.fates, |groups|, id, k);
      }
    }
  }

  /**
   Whatever attempts are made and however they end, a record that the zone's share of the change set
   does not mention stays verbatim, apart from a nil label map that becomes an empty one.
   */
  lemma {:induction false} UnmentionedStayOverRuns(zones: seq<Zone>, cs: ChangeSet, groups: seq<Group>, w: World,
                                                   attempts: seq<Attempt>, z: Zone, k: Key)
    requires IdsIdentify(zones) && IsGrouping(zones, cs, groups)
    requires z in zones && Distinct(Keys(Published(w, z.id))) && !Mentions(Share(zones, z.name, cs), k)
    ensures StaysAs(EntriesWith(Published(w, z.id), k), EntriesWith(Published(RunAll(w, groups, attempts), z.id), k))
  {
    forall i | 0 <= i < |groups| && groups[i].zone.id == z.id ensures !Mentions(groups[i].changes, k) {
      assert groups[i] in groups;
      FirstNamedFinds(zones, groups[i].zone.name);
    }
    DistinctEntriesWith(Published(w, z.id), k);
    RunKeepsUnmentioned(EntriesWith(Published(w, z.id), k), w, groups, attempts, z.id, k);
  }

  /**
   Copies of a name in a zone that does not own it are neither returned nor altered, over any run.
   A parent zone may hold such copies from before its child zone existed.
   */
  lemma {:induction false} StaleCopiesStay(scope: Scope, zones: seq<Zone>, cs: ChangeSet, groups: seq<Group>, w: World,
                                           attempts: seq<Attempt>, z: Zone, n: Name, t: RecordType)
    requires IdsIdentify(zones) && IsGrouping(zones, cs, groups)
    requires z in zones && Distinct(Keys(Published(w, z.id)))
    requires !IsZero(n) && !Owns(zones, z, n)
    ensures var after := RunAll(w, groups, attempts);
            && Filter(About(n, t), ReadZone(scope, zones, z, after)) == []
            && StaysAs(EntriesWith(Published(w, z.id), KeyFor(n, t)), EntriesWith(Published(after, z.id), KeyFor(n, t)))
  {
    ReadZoneAbout(scope, zones, z, RunAll(w, groups, attempts), n, t);
    ForeignShareIsSilent(zones, cs, z, n, t);
    UnmentionedStayOverRuns(zones, cs, groups, w, attempts, z, KeyFor(n, t));
  }
}
