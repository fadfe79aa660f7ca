/** The map specification of merge: which keys come out, in which order, with which contents. */
module MergeLaws {
  import opened Text
  import opened Records
  import opened Seqs
  import opened Overwrites
  import opened Merging

  // ----- Key sequences -----

  function Keys(es: seq<Entry>): seq<Key> {
    Map(KeyOf, es)
  }

  function WriteKeys(rs: seq<Record>): seq<Key> {
    Map(RecordKey, rs)
  }

  function Elems<T>(s: seq<T>): set<T> {
    set x | x in s
  }

  /** The keys that are not in the base, each once, where it is first seen. */
  function FirstSeen(base: set<Key>, ks: seq<Key>): seq<Key> {
    if ks == [] then []
    else
      var front := FirstSeen(base, ks[..|ks| - 1]);
      var k := ks[|ks| - 1];
      if k in base || k in front then front else front + [k]
  }

  function Keep(kept: set<Key>, ks: seq<Key>): seq<Key> {
    if ks == [] then []
    else
      var k := ks[|ks| - 1];
      var front := Keep(kept, ks[..|ks| - 1]);
      if k in kept then front + [k] else front
  }

  predicate Distinct<T(==)>(s: seq<T>) {
    forall i, j | 0 <= i < j < |s| :: s[i] != s[j]
  }

  lemma {:induction false} FirstSeenFacts(base: set<Key>, ks: seq<Key>)
    ensures Distinct(FirstSeen(base, ks))
    ensures Elems(FirstSeen(base, ks)) == Elems(ks) - base
  {
    if ks != [] {
      var front, k := ks[..|ks| - 1], ks[|ks| - 1];
      assert ks == front + [k];
      FirstSeenFacts(base, front);
      assert forall x :: x in FirstSeen(base, front) <==> x in Elems(FirstSeen(base, front));
    }
  }

  lemma {:induction false} KeepFacts(kept: set<Key>, ks: seq<Key>)
    ensures Elems(Keep(kept, ks)) == Elems(ks) * kept
    ensures Distinct(ks) ==> Distinct(Keep(kept, ks))
  {
    if ks != [] {
      var front, k := ks[..|ks| - 1], ks[|ks| - 1];
      assert ks == front + [k];
      KeepFacts(kept, front);
      assert forall x :: x in Keep(kept, front) <==> x in Elems(Keep(kept, front));
      if Distinct(ks) {
        assert k !in Elems(front);
        assert k !in Elems(Keep(kept, front));
      }
    }
  }

  lemma {:induction false} KeepConcat(kept: set<Key>, a: seq<Key>, b: seq<Key>)
    ensures Keep(kept, a + b) == Keep(kept, a) + Keep(kept, b)
  {
    if b == [] {
      assert a + b == a;
    } else {
      assert (a + b)[..|a + b| - 1] == a + b[..|b| - 1];
      KeepConcat(kept, a, b[..|b| - 1]);
    }
  }

  lemma {:induction false} KeepAll(kept: set<Key>, ks: seq<Key>)
    requires Elems(ks) <= kept
    ensures Keep(kept, ks) == ks
  {
    if ks != [] {
      var front, k := ks[..|ks| - 1], ks[|ks| - 1];
      assert ks == front + [k];
      assert k in Elems(ks) && Elems(front) <= Elems(ks);
      KeepAll(kept, front);
    }
  }

  lemma {:induction false} FirstSeenOfNew(base: set<Key>, ks: seq<Key>)
    requires Distinct(ks) && Elems(ks) !! base
    ensures FirstSeen(base, ks) == ks
  {
    if ks != [] {
      var front, k := ks[..|ks| - 1], ks[|ks| - 1];
      assert ks == front + [k];
      assert k in Elems(ks) && Elems(front) <= Elems(ks);
      FirstSeenOfNew(base, front);
    }
  }

  // ----- Which record a key stands for -----

  /** The last published record with the key. */
  function LastWith(es: seq<Entry>, k: Key): Option<Entry> {
    if es == [] then None
    else if KeyOf(es[|es| - 1]) == k then Some(es[|es| - 1])
    else LastWith(es[..|es| - 1], k)
  }

  /** The last write to the key. */
  function LastWrite(rs: seq<Record>, k: Key): Option<Record> {
    if rs == [] then None
    else if RecordKey(rs[|rs| - 1]) == k then Some(rs[|rs| - 1])
    else LastWrite(rs[..|rs| - 1], k)
  }

  /** It is followed by no other write to its key. */
  lemma {:induction false} LastWriteIsLast(rs: seq<Record>, i: nat)
    requires i < |rs| && forall j | i < j < |rs| :: RecordKey(rs[j]) != RecordKey(rs[i])
    ensures LastWrite(rs, RecordKey(rs[i])) == Some(rs[i])
  {
    if i < |rs| - 1 {
      LastWriteIsLast(rs[..|rs| - 1], i);
    }
  }

  /** The record that counts for a key: the last update, or the last creation where there is no update. */
  function Prevailing(cs: ChangeSet, k: Key): Option<Record> {
    if LastWrite(cs.updateTo, k).Some? then LastWrite(cs.updateTo, k) else LastWrite(cs.create, k)
  }

  lemma {:induction false} LastWriteConcat(a: seq<Record>, b: seq<Record>, k: Key)
    ensures LastWrite(a + b, k) == if LastWrite(b, k).Some? then LastWrite(b, k) else LastWrite(a, k)
  {
    if b == [] {
      assert a + b == a;
    } else {
      var front, r := b[..|b| - 1], b[|b| - 1];
      assert b == front + [r];
      LastWriteConcat(a, front, k);
      ConcatAssociates(a, front, [r]);
      LastWriteSnoc(a + front, r, k);
      LastWriteSnoc(front, r, k);
    }
  }

  /** Creations and updates are one list of writes, in which the updates come last. */
  lemma UpdatesPrevail(cs: ChangeSet, k: Key)
    ensures LastWrite(cs.Writes(), k) == Prevailing(cs, k)
  {
    LastWriteConcat(cs.create, cs.updateTo, k);
  }

  lemma WrittenIff(cs: ChangeSet, k: Key)
    ensures Prevailing(cs, k).Some? <==> k in WriteKeys(cs.Writes())
    ensures Prevailing(cs, k).Some? ==> RecordKey(Prevailing(cs, k).value) == k
  {
    UpdatesPrevail(cs, k);
    LastWriteFinds(cs.Writes(), k);
  }

  lemma {:induction false} LastWithFinds(es: seq<Entry>, k: Key)
    ensures LastWith(es, k).Some? <==> k in Keys(es)
    ensures LastWith(es, k).Some? ==> LastWith(es, k).value in es && KeyOf(LastWith(es, k).value) == k
  {
    if es != [] {
      var front, e := es[..|es| - 1], es[|es| - 1];
      assert es == front + [e];
      MapSnoc(KeyOf, front, e);
      LastWithFinds(front, k);
    }
  }

  lemma {:induction false} LastWriteFinds(rs: seq<Record>, k: Key)
    ensures LastWrite(rs, k).Some? <==> k in WriteKeys(rs)
    ensures LastWrite(rs, k).Some? ==> LastWrite(rs, k).value in rs && RecordKey(LastWrite(rs, k).value) == k
  {
    if rs != [] {
      var front, r := rs[..|rs| - 1], rs[|rs| - 1];
      assert rs == front + [r];
      MapSnoc(RecordKey, front, r);
      LastWriteFinds(front, k);
    }
  }

  // ----- When merging is possible -----

  predicate Writable(r: Record) {
    Supported(r.rtype) && NormalizedValues(r).Ok?
  }

  predicate Convertible(cs: ChangeSet) {
    && (forall r <- cs.delete :: Supported(r.rtype))
    && (forall r <- cs.create :: Writable(r))
    && (forall r <- cs.updateTo :: Writable(r))
  }

  function DeleteKeys(cs: ChangeSet): set<Key> {
    Elems(WriteKeys(cs.delete))
  }

  function BaseKeys(current: seq<Entry>, cs: ChangeSet): set<Key> {
    Elems(Keys(current)) - DeleteKeys(cs)
  }

  function FinalKeys(current: seq<Entry>, cs: ChangeSet): set<Key> {
    BaseKeys(current, cs) + Elems(WriteKeys(cs.Writes()))
  }

  /** Published keys that remain, in their order, then the new keys in the order of their first write. */
  function OutKeys(current: seq<Entry>, cs: ChangeSet): seq<Key> {
    Keep(FinalKeys(current, cs), FirstSeen({}, Keys(current)))
    + FirstSeen(BaseKeys(current, cs), WriteKeys(cs.Writes()))
  }

  /** The published record unless it was deleted, otherwise a blank one. */
  function BaseFor(current: seq<Entry>, cs: ChangeSet, k: Key): Entry {
    var last := LastWith(current, k);
    if last.Some? && k !in DeleteKeys(cs) then WithLabels(last.value) else NewEntry(k)
  }

  /** A written key takes TTL and values of its last write and keeps all else of its base. */
  function OutEntry(current: seq<Entry>, cs: ChangeSet, k: Key): Entry {
    OverlayLast(BaseFor(current, cs, k), cs.Writes(), k)
  }

  function OverlayLast(base: Entry, writes: seq<Record>, k: Key): Entry {
    var w := LastWrite(writes, k);
    if w.Some? && NormalizedValues(w.value).Ok? then Overlay(base, w.value, NormalizedValues(w.value).value) else base
  }

  // ----- Load, Drop, Write and Emit -----

  lemma {:induction false} LoadFacts(current: seq<Entry>)
    ensures var t := Load(current);
            && t.order == FirstSeen({}, Keys(current))
            && t.entries.Keys == Elems(Keys(current))
            && forall k <- t.entries.Keys ::
                 LastWith(current, k).Some? && t.entries[k] == WithLabels(LastWith(current, k).value)
  {
    hide KeyOf, WithLabels;
    if current != [] {
      var front, e := current[..|current| - 1], current[|current| - 1];
      assert current == front + [e];
      MapSnoc(KeyOf, front, e);
      LoadFacts(front);
      FirstSeenFacts({}, Keys(front));
      assert Elems(Keys(current)) == Elems(Keys(front)) + {KeyOf(e)};
      assert KeyOf(e) in FirstSeen({}, Keys(front)) <==> KeyOf(e) in Elems(FirstSeen({}, Keys(front)));
    }
  }

  lemma {:induction false} DropFacts(entries: map<Key, Entry>, delete: seq<Record>)
    ensures Drop(entries, delete).Ok? <==> forall r <- delete :: Supported(r.rtype)
    ensures Drop(entries, delete).Ok? ==> Drop(entries, delete).value == entries - Elems(WriteKeys(delete))
    ensures Drop(entries, delete).Err? ==> Drop(entries, delete).failure.Permanent?
  {
    if delete == [] {
      assert entries - Elems(WriteKeys(delete)) == entries;
    } else {
      var front, r := delete[..|delete| - 1], delete[|delete| - 1];
      assert delete == front + [r];
      WriteKeysSnoc(front, r);
      DropFacts(entries, front);
      RemoveTwice(entries, Elems(WriteKeys(front)), RecordKey(r));
    }
  }

  lemma RemoveTwice(entries: map<Key, Entry>, ks: set<Key>, k: Key)
    ensures entries - ks - {k} == entries - (ks + {k})
  {
  }

  /** What the written table holds, relative to the table before the writes. */
  predicate Written(before: Table, writes: seq<Record>, after: Table) {
    && after.order == before.order + FirstSeen(before.entries.Keys, WriteKeys(writes))
    && after.entries.Keys == before.entries.Keys + Elems(WriteKeys(writes))
    && EntriesWritten(before, writes, after.entries)
  }

  predicate EntriesWritten(before: Table, writes: seq<Record>, entries: map<Key, Entry>) {
    forall k <- entries.Keys :: entries[k] == OverlayLast(BaseIn(before, k), writes, k)
  }

  lemma {:induction false} WriteFacts(t: Table, writes: seq<Record>)
    ensures Write(t, writes).Ok? <==> forall r <- writes :: Writable(r)
    ensures Write(t, writes).Ok? ==> Written(t, writes, Write(t, writes).value)
    ensures Write(t, writes).Err? ==> Write(t, writes).failure.Permanent?
  {
    if writes == [] {
      assert t.entries.Keys + Elems(WriteKeys(writes)) == t.entries.Keys;
    } else {
      var front, r := writes[..|writes| - 1], writes[|writes| - 1];
      assert writes == front + [r];
      WriteFacts(t, front);
      if Write(t, front).Ok? {
        WriteOneFacts(Write(t, front).value, r);
        if Writable(r) {
          WrittenSnoc(t, front, Write(t, front).value, r, NormalizedValues(r).value);
        }
      }
    }
  }

  lemma WriteOneFacts(t: Table, r: Record)
    ensures WriteOne(t, r).Ok? <==> Writable(r)
    ensures WriteOne(t, r).Ok? ==> WriteOne(t, r).value == Put(t, r, NormalizedValues(r).value)
    ensures WriteOne(t, r).Err? ==> WriteOne(t, r).failure.Permanent?
  {
  }

  lemma WrittenSnoc(t: Table, front: seq<Record>, w: Table, r: Record, values: seq<Text>)
    requires Written(t, front, w) && NormalizedValues(r) == Ok(values)
    ensures Written(t, front + [r], Put(w, r, values))
  {
    hide FirstSeen, OverlayLast, NormalizedValues;
    WriteKeysSnoc(front, r);
    WrittenOrderSnoc(t, front, w, r);
    EntriesWrittenSnoc(t, front, w, r, values);
    UpdateTwice(w.entries, RecordKey(r), NewEntry(RecordKey(r)), Overlay(BaseIn(w, RecordKey(r)), r, values));
  }

  lemma EntriesWrittenSnoc(t: Table, front: seq<Record>, w: Table, r: Record, values: seq<Text>)
    requires Written(t, front, w) && NormalizedValues(r) == Ok(values)
    ensures EntriesWritten(t, front + [r], Put(w, r, values).entries)
  {
    forall k <- Put(w, r, values).entries.Keys
      ensures Put(w, r, values).entries[k] == OverlayLast(BaseIn(t, k), front + [r], k)
    {
      WrittenEntrySnoc(t, front, w, r, values, k);
    }
  }

  lemma WrittenOrderSnoc(t: Table, front: seq<Record>, w: Table, r: Record)
    requires Written(t, front, w)
    ensures (if RecordKey(r) in w.entries then w.order else w.order + [RecordKey(r)])
            == t.order + FirstSeen(t.entries.Keys, WriteKeys(front + [r]))
  {
    WriteKeysSnoc(front, r);
    FirstSeenSnoc(t.entries.Keys, WriteKeys(front), RecordKey(r));
    ConcatAssociates(t.order, FirstSeen(t.entries.Keys, WriteKeys(front)), [RecordKey(r)]);
  }

  /** Writing a key again replaces TTL and values and nothing else. */
  lemma WrittenEntrySnoc(t: Table, front: seq<Record>, w: Table, r: Record, values: seq<Text>, k: Key)
    requires Written(t, front, w) && NormalizedValues(r) == Ok(values)
    requires k in Put(w, r, values).entries
    ensures Put(w, r, values).entries[k] == OverlayLast(BaseIn(t, k), front + [r], k)
  {
    LastWriteSnoc(front, r, k);
    LastWriteFinds(front, k);
    if RecordKey(r) == k {
      OverlayTwice(BaseIn(t, k), front, r, values, k);
    }
  }

  lemma LastWriteSnoc(rs: seq<Record>, r: Record, k: Key)
    ensures LastWrite(rs + [r], k) == if RecordKey(r) == k then Some(r) else LastWrite(rs, k)
  {
    assert (rs + [r])[..|rs|] == rs;
  }

  lemma OverlayTwice(base: Entry, front: seq<Record>, r: Record, values: seq<Text>, k: Key)
    ensures Overlay(OverlayLast(base, front, k), r, values) == Overlay(base, r, values)
  {
  }

  lemma WriteKeysSnoc(front: seq<Record>, r: Record)
    ensures WriteKeys(front + [r]) == WriteKeys(front) + [RecordKey(r)]
    ensures Elems(WriteKeys(front + [r])) == Elems(WriteKeys(front)) + {RecordKey(r)}
  {
    MapSnoc(RecordKey, front, r);
  }

  lemma FirstSeenSnoc(base: set<Key>, ks: seq<Key>, k: Key)
    ensures FirstSeen(base, ks + [k]) == if k in base + Elems(ks) then FirstSeen(base, ks)
                                         else FirstSeen(base, ks) + [k]
  {
    FirstSeenFacts(base, ks);
    assert (ks + [k])[..|ks|] == ks;
    assert k in FirstSeen(base, ks) <==> k in Elems(FirstSeen(base, ks));
  }

  lemma {:induction false} EmitFacts(entries: map<Key, Entry>, order: seq<Key>)
    ensures var ks := Keep(entries.Keys, order);
            && |Emit(entries, order)| == |ks|
            && forall i | 0 <= i < |ks| :: ks[i] in entries && Emit(entries, order)[i] == entries[ks[i]]
  {
    if order != [] {
      EmitFacts(entries, order[..|order| - 1]);
    }
  }

  // ----- Main results on merge -----

  /** Merging fails, permanently, exactly when a type or a TXT value of the change set cannot be converted. */
  lemma MergeSucceedsIffConvertible(current: seq<Entry>, cs: ChangeSet)
    ensures Merge(current, cs).Ok? <==> Convertible(cs)
    ensures Merge(current, cs).Err? ==> Merge(current, cs).failure.Permanent?
  {
    var t := Load(current);
    DropFacts(t.entries, cs.delete);
    if Drop(t.entries, cs.delete).Ok? {
      WriteFacts(Table(Drop(t.entries, cs.delete).value, t.order), cs.Writes());
    }
  }

  /** The table before it is emitted: the final keys, each with its specified record. */
  lemma MergedTableFacts(current: seq<Entry>, cs: ChangeSet)
    requires Convertible(cs)
    ensures MergedTable(current, cs).Ok?
    ensures var w := MergedTable(current, cs).value;
            && w.entries.Keys == FinalKeys(current, cs)
            && Keep(w.entries.Keys, w.order) == OutKeys(current, cs)
            && forall k <- w.entries.Keys :: w.entries[k] == OutEntry(current, cs, k)
  {
    hide Load;
    var t := Load(current);
    LoadFacts(current);
    DropFacts(t.entries, cs.delete);
    var kept := Drop(t.entries, cs.delete).value;
    assert kept.Keys == BaseKeys(current, cs);
    var before := Table(kept, t.order);
    WriteFacts(before, cs.Writes());
    var w := Write(before, cs.Writes()).value;
    assert w.entries.Keys == FinalKeys(current, cs);
    KeepOfOrder(current, cs);
    forall k <- w.entries.Keys ensures w.entries[k] == OutEntry(current, cs, k) {
      LastWithFinds(current, k);
    }
  }

  /** Record i of the merged set is the specified record of key i, and no key is left out or added. */
  lemma MergeMeetsSpecification(current: seq<Entry>, cs: ChangeSet)
    requires Convertible(cs)
    ensures var out, ks := Merge(current, cs), OutKeys(current, cs);
            && out.Ok? && |out.value| == |ks|
            && forall i | 0 <= i < |ks| :: out.value[i] == OutEntry(current, cs, ks[i])
  {
    MergedTableFacts(current, cs);
    var w := MergedTable(current, cs).value;
    EmitFacts(w.entries, w.order);
  }

  lemma KeepOfOrder(current: seq<Entry>, cs: ChangeSet)
    ensures Keep(FinalKeys(current, cs),
                 FirstSeen({}, Keys(current)) + FirstSeen(BaseKeys(current, cs), WriteKeys(cs.Writes())))
            == OutKeys(current, cs)
  {
    var added := FirstSeen(BaseKeys(current, cs), WriteKeys(cs.Writes()));
    KeepConcat(FinalKeys(current, cs), FirstSeen({}, Keys(current)), added);
    FirstSeenFacts(BaseKeys(current, cs), WriteKeys(cs.Writes()));
    KeepAll(FinalKeys(current, cs), added);
  }

  /** The keys that come out are (published minus deleted) plus written. */
  lemma OutKeysAreFinalKeys(current: seq<Entry>, cs: ChangeSet)
    ensures Elems(OutKeys(current, cs)) == FinalKeys(current, cs)
  {
    FirstSeenFacts({}, Keys(current));
    KeepFacts(FinalKeys(current, cs), FirstSeen({}, Keys(current)));
    FirstSeenFacts(BaseKeys(current, cs), WriteKeys(cs.Writes()));
    var a := Keep(FinalKeys(current, cs), FirstSeen({}, Keys(current)));
    var b := FirstSeen(BaseKeys(current, cs), WriteKeys(cs.Writes()));
    assert Elems(a + b) == Elems(a) + Elems(b);
  }

  /** A key comes out twice exactly when it is published and both deleted and written. */
  lemma OutKeysDistinctIff(current: seq<Entry>, cs: ChangeSet)
    ensures Distinct(OutKeys(current, cs)) <==>
            Elems(Keys(current)) * DeleteKeys(cs) * Elems(WriteKeys(cs.Writes())) == {}
  {
    FirstSeenFacts({}, Keys(current));
    KeepFacts(FinalKeys(current, cs), FirstSeen({}, Keys(current)));
    FirstSeenFacts(BaseKeys(current, cs), WriteKeys(cs.Writes()));
    var a := Keep(FinalKeys(current, cs), FirstSeen({}, Keys(current)));
    var b := FirstSeen(BaseKeys(current, cs), WriteKeys(cs.Writes()));
    assert Elems(a) * Elems(b) == Elems(Keys(current)) * DeleteKeys(cs) * Elems(WriteKeys(cs.Writes()));
    DistinctConcat(a, b);
  }

  lemma DistinctConcat(a: seq<Key>, b: seq<Key>)
    requires Distinct(a) && Distinct(b)
    ensures Distinct(a + b) <==> Elems(a) * Elems(b) == {}
  {
    if Elems(a) * Elems(b) != {} {
      var k :| k in Elems(a) && k in Elems(b);
      var i :| 0 <= i < |a| && a[i] == k;
      var j :| 0 <= j < |b| && b[j] == k;
      assert (a + b)[i] == (a + b)[|a| + j];
    } else {
      forall i, j | 0 <= i < j < |a + b| ensures (a + b)[i] != (a + b)[j] {
        if i < |a| <= j {
          assert a[i] in Elems(a) && b[j - |a|] in Elems(b);
          assert a[i] != b[j - |a|] by {
            assert a[i] !in Elems(a) * Elems(b);
          }
        } else if |a| <= i {
          assert (a + b)[i] == b[i - |a|] && (a + b)[j] == b[j - |a|];
        }
      }
    }
  }

  /** Each record of the merged set has the key it came out under. */
  lemma OutEntryHasItsKey(current: seq<Entry>, cs: ChangeSet, k: Key)
    requires k in FinalKeys(current, cs)
    ensures KeyOf(OutEntry(current, cs, k)) == k
    ensures OutEntry(current, cs, k).labels.Some?
  {
    hide WriteKeys, LastWith;
    LastWithFinds(current, k);
    LastWriteFinds(cs.Writes(), k);
    if LastWith(current, k).None? || k in DeleteKeys(cs) {
      var r := LastWrite(cs.Writes(), k).value;
      RecordKeyIsFixed(r);
    }
  }

  /** A record the change set does not mention comes out as published, apart from a nil label map. */
  lemma {:induction false} UntouchedIsVerbatim(current: seq<Entry>, cs: ChangeSet, k: Key)
    requires k in Keys(current) && k !in DeleteKeys(cs) && k !in WriteKeys(cs.Writes())
    ensures LastWith(current, k).Some?
    ensures OutEntry(current, cs, k) == WithLabels(LastWith(current, k).value)
  {
    LastWithFinds(current, k);
    LastWriteFinds(cs.Writes(), k);
  }

  /** A written record that was published keeps name spelling, description and labels. */
  lemma {:induction false} WrittenKeepsDescription(current: seq<Entry>, cs: ChangeSet, k: Key)
    requires Convertible(cs)
    requires k in Keys(current) && k !in DeleteKeys(cs) && k in WriteKeys(cs.Writes())
    ensures LastWith(current, k).Some? && LastWrite(cs.Writes(), k).Some?
    ensures var published, w := LastWith(current, k).value, LastWrite(cs.Writes(), k).value;
            && NormalizedValues(w).Ok?
            && OutEntry(current, cs, k) ==
               WithLabels(published).(ttl := ToTTL(w.ttl), rdata := ToRdata(NormalizedValues(w).value))
  {
    LastWithFinds(current, k);
    LastWriteFinds(cs.Writes(), k);
  }
}
