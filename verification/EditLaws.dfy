/** What the edit closure keeps: nothing is lost unasked, and applying a change set again changes nothing. */
module EditLaws {
  import opened Text
  import opened Names
  import opened Records
  import opened Seqs
  import opened Overwrites
  import opened Merging
  import opened MergeLaws
  import opened KeyOrder

  /** The merged and marked set, which is guarded, compared and sent. */
  function SubmittedSet(current: seq<Entry>, cs: ChangeSet): seq<Entry>
    requires Convertible(cs)
  {
    MergeSucceedsIffConvertible(current, cs);
    Mark(KeySet(cs.Writes()), Merge(current, cs).value)
  }

  lemma KeySetOfWrites(cs: ChangeSet)
    requires Convertible(cs)
    ensures KeySet(cs.Writes()) == Elems(WriteKeys(cs.Writes()))
    ensures KeySet(cs.delete) == DeleteKeys(cs)
  {
    KeySetIsElems(cs.Writes());
    KeySetIsElems(cs.delete);
  }

  lemma KeySetIsElems(rs: seq<Record>)
    requires forall r <- rs :: Supported(r.rtype)
    ensures KeySet(rs) == Elems(WriteKeys(rs))
  {
    forall k ensures k in KeySet(rs) <==> k in Elems(WriteKeys(rs)) {
      if k in KeySet(rs) {
        var i :| 0 <= i < |rs| && RecordKey(rs[i]) == k;
        assert WriteKeys(rs)[i] == k;
      }
      if k in WriteKeys(rs) {
        var i :| 0 <= i < |rs| && WriteKeys(rs)[i] == k;
        assert rs[i] in rs;
      }
    }
  }

  /** Record i of the submitted set: the merged record, marked when it was written under its own spelling. */
  function SubmittedEntry(current: seq<Entry>, cs: ChangeSet, k: Key): Entry {
    var e := OutEntry(current, cs, k);
    if LiteralKey(e) in WriteKeys(cs.Writes()) then e.(labels := Some(MANAGED_BY)) else e
  }

  lemma SubmittedSetMeetsSpecification(current: seq<Entry>, cs: ChangeSet)
    requires Convertible(cs)
    ensures Keys(SubmittedSet(current, cs)) == OutKeys(current, cs)
    ensures forall i | 0 <= i < |SubmittedSet(current, cs)| ::
              SubmittedSet(current, cs)[i] == SubmittedEntry(current, cs, OutKeys(current, cs)[i])
  {
    MergeMeetsSpecification(current, cs);
    KeySetOfWrites(cs);
    OutKeysAreFinalKeys(current, cs);
    var es, ks := SubmittedSet(current, cs), OutKeys(current, cs);
    forall i | 0 <= i < |ks| ensures es[i] == SubmittedEntry(current, cs, ks[i]) && KeyOf(es[i]) == ks[i] {
      assert ks[i] in Elems(ks);
      OutEntryHasItsKey(current, cs, ks[i]);
    }
  }

  // ----- The submitted set over the lists of the change set -----

  /** The new keys: those first created, then those first updated. */
  function NewKeys(base: set<Key>, cs: ChangeSet): seq<Key> {
    var created, updated := WriteKeys(cs.create), WriteKeys(cs.updateTo);
    FirstSeen(base, created) + FirstSeen(base + Elems(created), updated)
  }

  /**
   The record that is sent for a key. What a write does not set is kept from the last published record, unless that
   one is deleted, and is blank for a new record. A record that is written under its own name carries the one label.
   */
  predicate IsSent(current: seq<Entry>, cs: ChangeSet, k: Key, e: Entry) {
    var w, last := Prevailing(cs, k), LastWith(current, k);
    var kept := last.Some? && k !in DeleteKeys(cs);
    && e.name == (if kept then last.value.name else k.name)
    && e.rrtype == (if kept then last.value.rrtype else k.rrtype)
    && e.description == (if kept then last.value.description else "")
    && (if w.Some? then
          NormalizedValues(w.value).Ok? && e.ttl == ToTTL(w.value.ttl)
          && e.rdata == ToRdata(NormalizedValues(w.value).value)
        else kept && e.ttl == last.value.ttl && e.rdata == last.value.rdata)
    && e.labels == Some(if Prevailing(cs, LiteralKey(e)).Some? then map["managed-by" := "external-dns-iij-dpf-webhook"]
                        else if kept then Pairs(last.value.labels) else map[])
  }

  lemma NewKeysAreCreatedFirst(base: set<Key>, cs: ChangeSet)
    ensures FirstSeen(base, WriteKeys(cs.Writes())) == NewKeys(base, cs)
    ensures Elems(WriteKeys(cs.Writes())) == Elems(WriteKeys(cs.create)) + Elems(WriteKeys(cs.updateTo))
  {
    assert WriteKeys(cs.Writes()) == WriteKeys(cs.create) + WriteKeys(cs.updateTo);
    FirstSeenConcat(base, WriteKeys(cs.create), WriteKeys(cs.updateTo));
  }

  lemma SubmittedEntryIsSent(current: seq<Entry>, cs: ChangeSet, k: Key)
    requires Convertible(cs) && k in FinalKeys(current, cs)
    ensures IsSent(current, cs, k, SubmittedEntry(current, cs, k))
  {
    hide LastWrite, LastWith, WriteKeys, KeyOf, NormalizedValues, ToTTL, ToRdata, Prevailing;
    UpdatesPrevail(cs, k);
    UpdatesPrevail(cs, LiteralKey(OutEntry(current, cs, k)));
    LastWriteFinds(cs.Writes(), k);
    LastWriteFinds(cs.Writes(), LiteralKey(OutEntry(current, cs, k)));
    LastWithFinds(current, k);
  }

  /**
   Surviving keys in their published order, then new keys, creations before updates; and for each key its record.
   Stated over the lists of the change set, as the source reads them.
   */
  lemma SubmittedSetIsSent(current: seq<Entry>, cs: ChangeSet)
    requires Convertible(cs)
    ensures Keys(SubmittedSet(current, cs)) == OutKeys(current, cs)
    ensures var base := BaseKeys(current, cs);
            var final := base + Elems(WriteKeys(cs.create)) + Elems(WriteKeys(cs.updateTo));
            OutKeys(current, cs) == Keep(final, FirstSeen({}, Keys(current))) + NewKeys(base, cs)
    ensures forall i | 0 <= i < |SubmittedSet(current, cs)| ::
              IsSent(current, cs, OutKeys(current, cs)[i], SubmittedSet(current, cs)[i])
  {
    hide IsSent, SubmittedEntry;
    var base := BaseKeys(current, cs);
    NewKeysAreCreatedFirst(base, cs);
    assert FinalKeys(current, cs) == base + Elems(WriteKeys(cs.create)) + Elems(WriteKeys(cs.updateTo));
    SubmittedSetMeetsSpecification(current, cs);
    OutKeysAreFinalKeys(current, cs);
    forall i | 0 <= i < |OutKeys(current, cs)|
      ensures IsSent(current, cs, OutKeys(current, cs)[i], SubmittedEntry(current, cs, OutKeys(current, cs)[i]))
    {
      assert OutKeys(current, cs)[i] in Elems(OutKeys(current, cs));
      SubmittedEntryIsSent(current, cs, OutKeys(current, cs)[i]);
    }
  }

  // ----- Names that cannot be read -----

  lemma {:induction false} UnreadableHasNoRecord(rs: seq<Record>, name: Text, t: RecordType)
    requires name != [] && Canonical(name).None?
    ensures Key(name, t) !in WriteKeys(rs)
  {
    hide Canonical;
    forall i | 0 <= i < |rs| ensures WriteKeys(rs)[i] != Key(name, t) {
      if rs[i].name.text == name {
        NameIsCanonical(rs[i].name);
        assert false;
      }
    }
  }

  lemma UnreadableKey(x: Entry, name: Text, t: RecordType)
    requires Canonical(name).None?
    ensures KeyOf(x) == Key(name, t) <==> x.name == name && x.rrtype == t
  {
    hide Canonical;
    if Canonical(x.name).Some? {
      CanonicalIsFixed(x.name);
    }
  }

  /** A published record whose name cannot be read is sent as it is, whatever the change set says. */
  lemma {:induction false} UnreadableStays(current: seq<Entry>, cs: ChangeSet, e: Entry)
    requires Convertible(cs) && e in current && e.name != [] && Canonical(e.name).None?
    requires forall x <- current :: x.name == e.name && x.rrtype == e.rrtype ==> x == e
    ensures WithLabels(e) in SubmittedSet(current, cs)
  {
    hide Canonical, KeyOf, LastWith, WriteKeys, SubmittedSet;
    var k := LiteralKey(e);
    UnreadableHasNoRecord(cs.delete, e.name, e.rrtype);
    UnreadableHasNoRecord(cs.Writes(), e.name, e.rrtype);
    UnreadableKey(e, e.name, e.rrtype);
    var i :| 0 <= i < |current| && current[i] == e;
    assert Keys(current)[i] == k;
    LastWithFinds(current, k);
    UnreadableKey(LastWith(current, k).value, e.name, e.rrtype);
    UntouchedIsVerbatim(current, cs, k);
    OutKeysAreFinalKeys(current, cs);
    SubmittedSetMeetsSpecification(current, cs);
    assert k in Elems(OutKeys(current, cs));
    var j :| 0 <= j < |OutKeys(current, cs)| && OutKeys(current, cs)[j] == k;
    assert SubmittedSet(current, cs)[j] == SubmittedEntry(current, cs, k);
  }

  // ----- The guard -----

  /** Every published name that is to stay is spelled canonically, or cannot be read at all. */
  predicate SurvivorsSpelledCanonically(current: seq<Entry>, cs: ChangeSet) {
    forall k <- BaseKeys(current, cs) :: LastWith(current, k).Some? && LastWith(current, k).value.name == k.name
  }

  lemma {:induction false} OutEntryLiteralKey(current: seq<Entry>, cs: ChangeSet, k: Key)
    requires k in FinalKeys(current, cs)
    ensures LiteralKey(OutEntry(current, cs, k)) ==
            if k in BaseKeys(current, cs) && LastWith(current, k).Some? then LiteralKey(LastWith(current, k).value)
            else k
  {
    LastWithFinds(current, k);
  }

  lemma PublishedKeyIsFixed(current: seq<Entry>, k: Key)
    requires k in Keys(current)
    ensures KeyOfName(k.name, k.rrtype) == k
  {
    var i :| 0 <= i < |current| && Keys(current)[i] == k;
    KeysAreFixed(current[i].name, current[i].rrtype);
  }

  /** Whatever set it is shown, a guard that accepts has found each published key in the set or asked to go. */
  lemma GuardIsSound(current: seq<Entry>, es: seq<Entry>, cs: ChangeSet)
    requires Guard(current, es, cs).None?
    ensures Elems(Keys(current)) <= Elems(Keys(es)) + DeleteKeys(cs)
  {
    KeySetIsElems(cs.delete);
    forall k | k in Keys(current) ensures k in Elems(Keys(es)) + DeleteKeys(cs) {
      PublishedKeyIsFixed(current, k);
      var i :| 0 <= i < |current| && Keys(current)[i] == k;
      assert current[i] in current;
      if k !in DeleteKeys(cs) {
        var j :| 0 <= j < |es| && LiteralKey(es[j]) == k;
        assert Keys(es)[j] == k;
      }
    }
  }

  /** The guard lets the submitted set pass exactly when the surviving names are spelled canonically. */
  lemma GuardAcceptsSubmittedIff(current: seq<Entry>, cs: ChangeSet)
    requires Convertible(cs)
    ensures Guard(current, SubmittedSet(current, cs), cs).None? <==> SurvivorsSpelledCanonically(current, cs)
  {
    hide SubmittedSet, LastWith, KeyOf, FinalKeys;
    var es, ks := SubmittedSet(current, cs), OutKeys(current, cs);
    SubmittedSetMeetsSpecification(current, cs);
    OutKeysAreFinalKeys(current, cs);
    KeySetOfWrites(cs);
    forall k <- BaseKeys(current, cs)
      ensures k in LiteralKeys(es) <==> LastWith(current, k).Some? && LastWith(current, k).value.name == k.name
    {
      SurvivorIsSubmittedIff(current, cs, k);
    }
    forall e <- current ensures KeyOf(e) in DeleteKeys(cs) || KeyOf(e) in BaseKeys(current, cs) {
      var i :| 0 <= i < |current| && current[i] == e;
      assert Keys(current)[i] == KeyOf(e);
    }
    forall k <- BaseKeys(current, cs) ensures exists e <- current :: KeyOf(e) == k {
      LastWithFinds(current, k);
    }
    assert NothingLost(current, LiteralKeys(es), KeySet(cs.delete))
      <==> forall k <- BaseKeys(current, cs) :: k in LiteralKeys(es);
  }

  lemma {:induction false} SurvivorIsSubmittedIff(current: seq<Entry>, cs: ChangeSet, k: Key)
    requires Convertible(cs) && k in BaseKeys(current, cs)
    ensures k in LiteralKeys(SubmittedSet(current, cs)) <==>
            LastWith(current, k).Some? && LastWith(current, k).value.name == k.name
  {
    hide SubmittedSet, OutEntry;
    var es, ks := SubmittedSet(current, cs), OutKeys(current, cs);
    SubmittedSetMeetsSpecification(current, cs);
    OutKeysAreFinalKeys(current, cs);
    LastWithFinds(current, k);
    PublishedKeyIsFixed(current, k);
    OutEntryLiteralKey(current, cs, k);
    if k in LiteralKeys(es) {
      var i :| 0 <= i < |es| && LiteralKey(es[i]) == k;
      assert Keys(es)[i] == k;
    }
    if LastWith(current, k).value.name == k.name {
      assert k in Elems(ks);
      var i :| 0 <= i < |ks| && ks[i] == k;
      assert LiteralKey(es[i]) == k && es[i] in es;
    }
  }

  /** What disappears is what was published, asked to go, and not written again. */
  lemma LostKeysAreRequested(current: seq<Entry>, cs: ChangeSet)
    requires Convertible(cs)
    ensures Elems(Keys(current)) - Elems(Keys(SubmittedSet(current, cs)))
            == Elems(Keys(current)) * DeleteKeys(cs) - Elems(WriteKeys(cs.Writes()))
  {
    SubmittedSetMeetsSpecification(current, cs);
    OutKeysAreFinalKeys(current, cs);
  }

  /** The edit goes through exactly when the change set converts and the guard has nothing to object to. */
  lemma EditRefusesIff(current: seq<Entry>, cs: ChangeSet)
    ensures Edit(current, cs).Refused? <==> !(Convertible(cs) && SurvivorsSpelledCanonically(current, cs))
    ensures !Edit(current, cs).Refused? ==>
              Edit(current, cs) == if Unchanged(current, SubmittedSet(current, cs)) then Skipped
                                   else Submitted(SubmittedSet(current, cs))
  {
    MergeSucceedsIffConvertible(current, cs);
    if Convertible(cs) {
      GuardAcceptsSubmittedIff(current, cs);
    }
  }

  /** A zone refuses every change set that leaves a record whose name is spelled otherwise. */
  lemma {:induction false} ForeignSpellingIsRefused(current: seq<Entry>, e: Entry, cs: ChangeSet)
    requires Convertible(cs) && KeyOf(e) !in DeleteKeys(cs) && KeyOf(e).name != e.name
    requires LastWith(current, KeyOf(e)) == Some(e)
    ensures Edit(current, cs) == Refused(Temporary(LostWithoutRequest))
  {
    hide Edit, KeyOf, Merge;
    LastWithFinds(current, KeyOf(e));
    assert KeyOf(e) in BaseKeys(current, cs);
    EditRefusesIff(current, cs);
    RefusalIsTheGuards(current, cs);
  }

  lemma RefusalIsTheGuards(current: seq<Entry>, cs: ChangeSet)
    requires Convertible(cs) && Edit(current, cs).Refused?
    ensures Edit(current, cs) == Refused(Temporary(LostWithoutRequest))
  {
    MergeSucceedsIffConvertible(current, cs);
  }

  /** For example a zone that publishes A. after anything else, and any change set that does not delete this record. */
  lemma GuardRefusesForeignSpelling(others: seq<Entry>, cs: ChangeSet) returns (e: Entry)
    requires Convertible(cs) && Key("a.", RecordType.A) !in DeleteKeys(cs)
    ensures e == Overwrite("A.", RecordType.A, None, [], [], Some(map[]))
    ensures Edit(others + [e], cs) == Refused(Temporary(LostWithoutRequest))
  {
    hide Edit;
    var name := CapitalName();
    e := Overwrite(name, RecordType.A, None, [], [], Some(map[]));
    assert LastWith(others + [e], KeyOf(e)) == Some(e);
    ForeignSpellingIsRefused(others + [e], e, cs);
  }

  // ----- Applying again -----

  /** Facts about an accepted submitted set: distinct spellings of canonical keys, all with labels. */
  lemma AcceptedSubmittedSet(current: seq<Entry>, cs: ChangeSet, i: nat)
    requires Convertible(cs) && SurvivorsSpelledCanonically(current, cs)
    requires i < |SubmittedSet(current, cs)|
    ensures var es, ks := SubmittedSet(current, cs), OutKeys(current, cs);
            && |ks| == |es| && KeyOf(es[i]) == ks[i] && LiteralKey(es[i]) == ks[i]
            && es[i].labels.Some?
            && (ks[i] in WriteKeys(cs.Writes()) ==> es[i].labels == Some(MANAGED_BY))
            && OverlayLast(es[i], cs.Writes(), ks[i]) == es[i]
  {
    var es, ks := SubmittedSet(current, cs), OutKeys(current, cs);
    SubmittedSetMeetsSpecification(current, cs);
    OutKeysAreFinalKeys(current, cs);
    assert Keys(es)[i] == ks[i];
    assert ks[i] in Elems(ks);
    OutEntryHasItsKey(current, cs, ks[i]);
    OutEntryLiteralKey(current, cs, ks[i]);
    OverlayTwice(BaseFor(current, cs, ks[i]), cs.Writes(), ks[i]);
  }

  lemma OverlayTwice(base: Entry, writes: seq<Record>, k: Key)
    ensures var e := OverlayLast(base, writes, k);
            && OverlayLast(e, writes, k) == e
            && OverlayLast(e.(labels := Some(MANAGED_BY)), writes, k) == e.(labels := Some(MANAGED_BY))
  {
  }

  /** The keys a change set both deletes and writes. */
  function Restored(cs: ChangeSet): set<Key> {
    DeleteKeys(cs) * Elems(WriteKeys(cs.Writes()))
  }

  predicate DeletesNoWrite(cs: ChangeSet) {
    DeleteKeys(cs) !! Elems(WriteKeys(cs.Writes()))
  }

  /** Every deleted and written key was published before, and is first written after all new keys. */
  predicate Repeatable(current: seq<Entry>, cs: ChangeSet) {
    Repeats(Keys(current), DeleteKeys(cs), WriteKeys(cs.Writes()))
  }

  lemma DeletesNoWriteIsRepeatable(current: seq<Entry>, cs: ChangeSet)
    requires DeletesNoWrite(cs)
    ensures Repeatable(current, cs)
  {
    NothingRestoredRepeats(Keys(current), DeleteKeys(cs), WriteKeys(cs.Writes()));
  }

  lemma RepeatableIffNothingRestored(current: seq<Entry>, cs: ChangeSet)
    requires Restored(cs) !! Elems(Keys(current))
    ensures Repeatable(current, cs) <==> DeletesNoWrite(cs)
  {
    NothingShared(DeleteKeys(cs), Elems(WriteKeys(cs.Writes())));
    NothingOutside(Restored(cs), Elems(Keys(current)));
    assert Restored(cs) - Elems(Keys(current)) == Restored(cs);
    if DeletesNoWrite(cs) {
      DeletesNoWriteIsRepeatable(current, cs);
    }
  }

  lemma OutKeysOfKeys(current: seq<Entry>, cs: ChangeSet)
    ensures OutKeys(current, cs) == Out(Keys(current), DeleteKeys(cs), WriteKeys(cs.Writes()))
  {
  }

  /** Once submitted, the keys come out again in the same order exactly when the change set is repeatable. */
  lemma OutKeysAreFixedIff(current: seq<Entry>, cs: ChangeSet)
    requires Convertible(cs)
    ensures OutKeys(SubmittedSet(current, cs), cs) == OutKeys(current, cs) <==> Repeatable(current, cs)
  {
    SubmittedSetMeetsSpecification(current, cs);
    OutKeysOfKeys(current, cs);
    OutKeysOfKeys(SubmittedSet(current, cs), cs);
    OutIsFixedIff(Keys(current), DeleteKeys(cs), WriteKeys(cs.Writes()));
  }

  /** Marking the submitted set again changes nothing. */
  lemma MarkOfSubmittedIsFixed(current: seq<Entry>, cs: ChangeSet)
    requires Convertible(cs) && SurvivorsSpelledCanonically(current, cs)
    ensures Mark(KeySet(cs.Writes()), SubmittedSet(current, cs)) == SubmittedSet(current, cs)
  {
    var es := SubmittedSet(current, cs);
    KeySetOfWrites(cs);
    forall i | 0 <= i < |es| ensures LiteralKey(es[i]) in KeySet(cs.Writes()) ==> es[i].labels == Some(MANAGED_BY) {
      AcceptedSubmittedSet(current, cs, i);
    }
  }

  /** Every record of the submitted set stands for its key, even when the key comes out twice. */
  lemma LastOfSubmitted(current: seq<Entry>, cs: ChangeSet, i: nat)
    requires Convertible(cs) && i < |SubmittedSet(current, cs)|
    ensures var es := SubmittedSet(current, cs); LastWith(es, KeyOf(es[i])) == Some(es[i])
  {
    hide SubmittedSet, SubmittedEntry;
    var es := SubmittedSet(current, cs);
    SubmittedSetMeetsSpecification(current, cs);
    assert Keys(es)[i] == KeyOf(es[i]);
    LastWithFinds(es, KeyOf(es[i]));
    var j :| 0 <= j < |es| && es[j] == LastWith(es, KeyOf(es[i])).value;
    assert Keys(es)[j] == KeyOf(es[j]);
  }

  /** Submitted again, every key stands for the same record. */
  lemma SubmittedEntryIsFixed(current: seq<Entry>, cs: ChangeSet, i: nat)
    requires Convertible(cs) && SurvivorsSpelledCanonically(current, cs)
    requires i < |SubmittedSet(current, cs)|
    ensures |OutKeys(current, cs)| == |SubmittedSet(current, cs)|
    ensures SubmittedEntry(SubmittedSet(current, cs), cs, OutKeys(current, cs)[i]) == SubmittedSet(current, cs)[i]
  {
    hide SubmittedSet, OutKeys;
    var es, ks := SubmittedSet(current, cs), OutKeys(current, cs);
    SubmittedSetMeetsSpecification(current, cs);
    AcceptedSubmittedSet(current, cs, i);
    LastOfSubmitted(current, cs, i);
    OutKeysAreFinalKeys(current, cs);
    assert ks[i] in Elems(ks);
  }

  /** A deleted key loses its mark when it is merged again; every other record is merged as it is. */
  lemma MergedEntryOfSubmitted(current: seq<Entry>, cs: ChangeSet, i: nat)
    requires Convertible(cs) && SurvivorsSpelledCanonically(current, cs)
    requires i < |SubmittedSet(current, cs)|
    ensures |OutKeys(current, cs)| == |SubmittedSet(current, cs)|
    ensures OutEntry(SubmittedSet(current, cs), cs, OutKeys(current, cs)[i]) == SubmittedSet(current, cs)[i]
            <==> OutKeys(current, cs)[i] !in DeleteKeys(cs)
  {
    var es, ks := SubmittedSet(current, cs), OutKeys(current, cs);
    AcceptedSubmittedSet(current, cs, i);
    LastOfSubmitted(current, cs, i);
    OutKeysAreFinalKeys(current, cs);
    assert ks[i] in Elems(ks);
    if ks[i] in DeleteKeys(cs) {
      assert MANAGED_BY[MANAGED_BY_LABEL_KEY] == APPLY_ATTRIBUTION;
      assert OutEntry(es, cs, ks[i]).labels == Some(map[]);
    }
  }

  /** Merging alone gives the submitted set back exactly when the change set deletes nothing it writes. */
  lemma MergeOfSubmittedIsFixedIff(current: seq<Entry>, cs: ChangeSet)
    requires Convertible(cs) && SurvivorsSpelledCanonically(current, cs)
    ensures Merge(SubmittedSet(current, cs), cs) == Ok(SubmittedSet(current, cs)) <==> DeletesNoWrite(cs)
  {
    var es, ks := SubmittedSet(current, cs), OutKeys(current, cs);
    SubmittedSetMeetsSpecification(current, cs);
    OutKeysAreFixedIff(current, cs);
    MergeLeavesAloneIff(es, cs);
    forall i | 0 <= i < |ks| ensures OutEntry(es, cs, ks[i]) == es[i] <==> ks[i] !in DeleteKeys(cs) {
      MergedEntryOfSubmitted(current, cs, i);
    }
    NoKeyDeletedIff(current, cs);
    if DeletesNoWrite(cs) {
      DeletesNoWriteIsRepeatable(current, cs);
    }
  }

  lemma NoKeyDeletedIff(current: seq<Entry>, cs: ChangeSet)
    ensures var ks := OutKeys(current, cs);
            (forall i | 0 <= i < |ks| :: ks[i] !in DeleteKeys(cs)) <==> DeletesNoWrite(cs)
  {
    var ks := OutKeys(current, cs);
    OutKeysAreFinalKeys(current, cs);
    assert Elems(ks) * DeleteKeys(cs) == Restored(cs);
    NothingShared(DeleteKeys(cs), Elems(WriteKeys(cs.Writes())));
    NothingShared(Elems(ks), DeleteKeys(cs));
    assert forall i | 0 <= i < |ks| :: ks[i] in Elems(ks);
  }

  predicate MergesAlone(es: seq<Entry>, cs: ChangeSet) {
    forall i | 0 <= i < |es| :: OutEntry(es, cs, Keys(es)[i]) == es[i]
  }

  lemma MergeLeavesAloneIff(es: seq<Entry>, cs: ChangeSet)
    requires Convertible(cs)
    ensures Merge(es, cs) == Ok(es) <==> OutKeys(es, cs) == Keys(es) && MergesAlone(es, cs)
  {
    MergedKeys(es, cs);
    MergeMeetsSpecification(es, cs);
    var out := Merge(es, cs).value;
    if OutKeys(es, cs) == Keys(es) && MergesAlone(es, cs) {
      assert out == es;
    }
  }

  lemma MergedKeys(es: seq<Entry>, cs: ChangeSet)
    requires Convertible(cs)
    ensures Merge(es, cs).Ok? && Keys(Merge(es, cs).value) == OutKeys(es, cs)
  {
    MergeMeetsSpecification(es, cs);
    OutKeysAreFinalKeys(es, cs);
    var out, ks := Merge(es, cs).value, OutKeys(es, cs);
    forall i | 0 <= i < |ks| ensures KeyOf(out[i]) == ks[i] {
      assert ks[i] in Elems(ks);
      OutEntryHasItsKey(es, cs, ks[i]);
    }
  }

  /** Submitting again gives the same set, record for record, exactly when the change set is repeatable. */
  lemma SubmittedSetIsFixedIff(current: seq<Entry>, cs: ChangeSet)
    requires Convertible(cs) && SurvivorsSpelledCanonically(current, cs)
    ensures SubmittedSet(SubmittedSet(current, cs), cs) == SubmittedSet(current, cs) <==> Repeatable(current, cs)
  {
    var es := SubmittedSet(current, cs);
    SubmittedSetMeetsSpecification(current, cs);
    SubmittedSetMeetsSpecification(es, cs);
    OutKeysAreFixedIff(current, cs);
    if Repeatable(current, cs) {
      forall i | 0 <= i < |es| ensures SubmittedSet(es, cs)[i] == es[i] {
        SubmittedEntryIsFixed(current, cs, i);
      }
    }
  }

  lemma SubmittedIsSpelledCanonically(current: seq<Entry>, cs: ChangeSet)
    requires Convertible(cs) && SurvivorsSpelledCanonically(current, cs)
    ensures SurvivorsSpelledCanonically(SubmittedSet(current, cs), cs)
  {
    var es := SubmittedSet(current, cs);
    SubmittedSetMeetsSpecification(current, cs);
    forall k <- BaseKeys(es, cs) ensures LastWith(es, k).Some? && LastWith(es, k).value.name == k.name {
      var i :| 0 <= i < |es| && Keys(es)[i] == k;
      LastOfSubmitted(current, cs, i);
      AcceptedSubmittedSet(current, cs, i);
    }
  }

  lemma SameRecordOfLabelled(a: Entry, b: Entry)
    requires b.labels.Some?
    ensures SameRecord(a, b) <==> WithLabels(a) == b
  {
  }

  /** An accepted edit is skipped if and only if it would send the published records, nil labels made empty. */
  lemma SkippedIff(current: seq<Entry>, cs: ChangeSet)
    requires !Edit(current, cs).Refused?
    ensures Convertible(cs)
    ensures Edit(current, cs) == Skipped <==> SubmittedSet(current, cs) == Map(WithLabels, current)
  {
    EditRefusesIff(current, cs);
    var es := SubmittedSet(current, cs);
    forall i | 0 <= i < |current| == |es| ensures SameRecord(current[i], es[i]) <==> WithLabels(current[i]) == es[i] {
      AcceptedSubmittedSet(current, cs, i);
      SameRecordOfLabelled(current[i], es[i]);
    }
  }

  /** What was submitted is accepted again, and skipped exactly when the change set is repeatable in the zone. */
  lemma SkippedAgainIff(current: seq<Entry>, cs: ChangeSet)
    requires Edit(current, cs).Submitted?
    ensures Convertible(cs) && Edit(current, cs).entries == SubmittedSet(current, cs)
    ensures !Edit(Edit(current, cs).entries, cs).Refused?
    ensures Edit(Edit(current, cs).entries, cs) == Skipped <==> Repeatable(current, cs)
  {
    EditRefusesIff(current, cs);
    var es := SubmittedSet(current, cs);
    SubmittedIsSpelledCanonically(current, cs);
    EditRefusesIff(es, cs);
    SkippedIff(es, cs);
    SubmittedSetIsFixedIff(current, cs);
    forall i | 0 <= i < |es| ensures WithLabels(es[i]) == es[i] {
      AcceptedSubmittedSet(current, cs, i);
    }
    assert Map(WithLabels, es) == es;
  }

  /** A set that was submitted once is recognised as unchanged when the change set deletes nothing it writes. */
  lemma SubmittedIsFixedPoint(current: seq<Entry>, cs: ChangeSet)
    requires Edit(current, cs).Submitted? && DeletesNoWrite(cs)
    ensures Edit(Edit(current, cs).entries, cs) == Skipped
  {
    DeletesNoWriteIsRepeatable(current, cs);
    SkippedAgainIff(current, cs);
  }

  /** In every zone that takes it, a change set that deletes and writes a key the zone did not publish is sent anew. */
  lemma DeletedWriteIsNotSkipped(current: seq<Entry>, cs: ChangeSet, k: Key)
    requires Edit(current, cs).Submitted? && k in Restored(cs) && k !in Keys(current)
    ensures Edit(Edit(current, cs).entries, cs).Submitted?
  {
    SkippedAgainIff(current, cs);
  }

  /** In a zone that publishes none of the keys in question, applying again is skipped if and only if there are none. */
  lemma RetryStableIff(current: seq<Entry>, cs: ChangeSet)
    requires Edit(current, cs).Submitted? && Restored(cs) !! Elems(Keys(current))
    ensures Edit(Edit(current, cs).entries, cs) == Skipped <==> DeletesNoWrite(cs)
  {
    SkippedAgainIff(current, cs);
    RepeatableIffNothingRestored(current, cs);
  }
}
