/**
 The edit closure of internal/dpf/apply.go as the program runs it: label maps are shared objects,
 the submitted set is an array that marking changes in place.
 No method here may change a label map, so none that is reachable from the published records changes.
 */
module Applying {
  import opened Text
  import opened Records
  import opened Seqs
  import opened Overwrites
  import opened Merging
  import opened MergeLaws

  class LabelMap {
    var pairs: map<Text, Text>

    constructor (pairs: map<Text, Text>)
      ensures this.pairs == pairs
    {
      this.pairs := pairs;
    }
  }

  /** A record with a reference to its labels. */
  type Slot = Overwrite<LabelMap?>

  function Contents(l: LabelMap?): Labels
    reads l
  {
    if l == null then None else Some(l.pairs)
  }

  function View(s: Slot): Entry
    reads s.labels
  {
    Overwrite(s.name, s.rrtype, s.ttl, s.rdata, s.description, Contents(s.labels))
  }

  function Views(ss: seq<Slot>): (es: seq<Entry>)
    reads set s | s in ss :: s.labels
    ensures |es| == |ss|
    ensures forall i | 0 <= i < |ss| :: es[i] == View(ss[i])
  {
    if ss == [] then []
    else Views(ss[..|ss| - 1]) + [View(ss[|ss| - 1])]
  }

  /** Label maps that stay as they are keep every record as it is. */
  twostate lemma {:induction false} ViewsUnchanged(ss: seq<Slot>)
    requires forall s <- ss :: s.labels != null ==> unchanged(s.labels)
    ensures Views(ss) == old(Views(ss))
  {
    if ss != [] {
      ViewsUnchanged(ss[..|ss| - 1]);
    }
  }

  lemma ViewsSnoc(ss: seq<Slot>, s: Slot)
    ensures Views(ss + [s]) == Views(ss) + [View(s)]
  {
    assert (ss + [s])[..|ss|] == ss;
  }

  function SlotKey(s: Slot): Key {
    KeyOfName(s.name, s.rrtype)
  }

  /** The last slot with the key. */
  function LastSlot(ss: seq<Slot>, k: Key): Option<Slot> {
    if ss == [] then None
    else if SlotKey(ss[|ss| - 1]) == k then Some(ss[|ss| - 1])
    else LastSlot(ss[..|ss| - 1], k)
  }

  lemma LastSlotSnoc(ss: seq<Slot>, s: Slot, k: Key)
    ensures LastSlot(ss + [s], k) == if SlotKey(s) == k then Some(s) else LastSlot(ss, k)
  {
    assert (ss + [s])[..|ss|] == ss;
  }

  // ----- merge -----

  /** The map on the heap agrees with the map of the specification. */
  ghost predicate Agrees(slots: map<Key, Slot>, entries: map<Key, Entry>)
    reads set k | k in slots :: slots[k].labels
  {
    slots.Keys == entries.Keys && forall k <- slots.Keys :: View(slots[k]) == entries[k]
  }

  /**
   A slot keeps the label map of the last published record with its key when there is one;
   otherwise it has a map made by this call.
   */
  predicate Shares(slots: map<Key, Slot>, published: seq<Slot>, made: set<LabelMap>) {
    forall k <- slots.Keys ::
      if SharedLabels(published, k) == null then slots[k].labels in made
      else slots[k].labels == SharedLabels(published, k)
  }

  function SharedLabels(published: seq<Slot>, k: Key): LabelMap? {
    if LastSlot(published, k).Some? then LastSlot(published, k).value.labels else null
  }

  lemma AgreesAfterLoad(slots: map<Key, Slot>, published: seq<Entry>, i: nat, kept: Slot)
    requires i < |published| && Agrees(slots, Load(published[..i]).entries)
    requires View(kept) == WithLabels(published[i])
    ensures Agrees(slots[SlotKey(kept) := kept], Load(published[..i + 1]).entries)
    ensures Load(published[..i + 1]).order ==
            if SlotKey(kept) in slots then Load(published[..i]).order else Load(published[..i]).order + [SlotKey(kept)]
  {
    hide KeyOfName;
    PrefixSnoc(published, i);
    assert published[..i + 1][..i] == published[..i];
  }

  lemma SharesAfterLoad(slots: map<Key, Slot>, published: seq<Slot>, r: Slot, kept: Slot, made: set<LabelMap>)
    requires Shares(slots, published, made)
    requires if r.labels == null then kept.labels in made else kept.labels == r.labels
    ensures Shares(slots[SlotKey(r) := kept], published + [r], made)
  {
    forall k ensures LastSlot(published + [r], k) == if SlotKey(r) == k then Some(r) else LastSlot(published, k) {
      LastSlotSnoc(published, r, k);
    }
  }

  method KeepLabels(r: Slot) returns (kept: Slot, ghost made: set<LabelMap>)
    ensures View(kept) == WithLabels(View(r)) && SlotKey(kept) == SlotKey(r)
    ensures if r.labels == null then kept.labels in made else kept.labels == r.labels
    ensures fresh(made)
  {
    kept, made := r, {};
    if r.labels == null {
      var empty := new LabelMap(map[]);
      made := {empty};
      kept := r.(labels := empty);
    }
  }

  /** The published records up to i are under their keys. */
  ghost predicate Loaded(slots: map<Key, Slot>, order: seq<Key>, published: seq<Entry>, current: seq<Slot>, i: nat,
                         made: set<LabelMap>)
    requires i <= |published| && i <= |current|
    reads set k | k in slots :: slots[k].labels
  {
    && Agrees(slots, Load(published[..i]).entries)
    && order == Load(published[..i]).order
    && Shares(slots, current[..i], made)
  }

  /** The loop body of the first step of merge. */
  method LoadOne(slots: map<Key, Slot>, order: seq<Key>, ghost published: seq<Entry>, current: array<Slot>, i: nat,
                 ghost made: set<LabelMap>)
    returns (slots': map<Key, Slot>, order': seq<Key>, ghost made': set<LabelMap>)
    requires i < current.Length == |published| && View(current[i]) == published[i]
    requires Loaded(slots, order, published, current[..], i, made)
    ensures Loaded(slots', order', published, current[..], i + 1, made')
    ensures made <= made' && fresh(made' - made)
  {
    var r := current[i];
    var key := SlotKey(r);
    order' := if key in slots then order else order + [key];
    var kept;
    ghost var more;
    kept, more := KeepLabels(r);
    made' := made + more;
    AgreesAfterLoad(slots, published, i, kept);
    PrefixSnoc(current[..], i);
    SharesAfterLoad(slots, current[..][..i], r, kept, made');
    slots' := slots[key := kept];
  }

  method LoadCurrent(current: array<Slot>) returns (slots: map<Key, Slot>, order: seq<Key>, ghost made: set<LabelMap>)
    ensures Agrees(slots, Load(Views(current[..])).entries) && order == Load(Views(current[..])).order
    ensures Shares(slots, current[..], made) && fresh(made)
  {
    ghost var ss := current[..];
    ghost var published := Views(ss);
    slots, order, made := map[], [], {};
    NothingLoaded(published, ss);
    for i := 0 to current.Length
      invariant Loaded(slots, order, published, ss, i, made) && fresh(made)
    {
      slots, order, made := LoadOne(slots, order, published, current, i, made);
    }
    PrefixAll(ss);
    PrefixAll(published);
    ViewsUnchanged(ss);
  }

  lemma NothingLoaded(published: seq<Entry>, current: seq<Slot>)
    ensures Loaded(map[], [], published, current, 0, {})
  {
  }

  method DropDeleted(slots: map<Key, Slot>, delete: seq<Record>, ghost entries: map<Key, Entry>)
    returns (r: Result<map<Key, Slot>>)
    requires Agrees(slots, entries)
    ensures Drop(entries, delete).Err? ==> r == Err(Drop(entries, delete).failure)
    ensures Drop(entries, delete).Ok? ==>
              r.Ok? && Agrees(r.value, Drop(entries, delete).value) && r.value == slots - Elems(WriteKeys(delete))
  {
    var rest := slots;
    for i := 0 to |delete|
      invariant Dropped(slots, rest, entries, delete[..i])
    {
      DroppedSnoc(slots, rest, entries, delete, i);
      var key := ProviderKey(delete[i]);
      if key.Err? {
        DropStaysFailed(entries, delete, i + 1);
        return Err(key.failure);
      }
      rest := rest - {key.value};
    }
    PrefixAll(delete);
    return Ok(rest);
  }

  /** The map on the heap after deletes that did not fail. */
  ghost predicate Dropped(slots: map<Key, Slot>, rest: map<Key, Slot>, entries: map<Key, Entry>, delete: seq<Record>)
    reads set k | k in rest :: rest[k].labels
  {
    && rest == slots - Elems(WriteKeys(delete))
    && Drop(entries, delete).Ok?
    && Agrees(rest, Drop(entries, delete).value)
  }

  lemma {:induction false} DroppedSnoc(slots: map<Key, Slot>, rest: map<Key, Slot>, entries: map<Key, Entry>,
                          delete: seq<Record>, i: nat)
    requires i < |delete| && Dropped(slots, rest, entries, delete[..i])
    ensures match ProviderKey(delete[i])
            case Err(f) => Drop(entries, delete[..i + 1]) == Err(f)
            case Ok(k) => Dropped(slots, rest - {k}, entries, delete[..i + 1])
  {
    assert delete[..i + 1][..i] == delete[..i];
    PrefixSnoc(delete, i);
    WriteKeysSnoc(delete[..i], delete[i]);
    assert rest - {RecordKey(delete[i])} == slots - (Elems(WriteKeys(delete[..i])) + {RecordKey(delete[i])});
  }

  lemma {:induction false} DropStaysFailed(entries: map<Key, Entry>, delete: seq<Record>, n: nat)
    requires n <= |delete| && Drop(entries, delete[..n]).Err?
    ensures Drop(entries, delete) == Drop(entries, delete[..n])
    decreases |delete| - n
  {
    if n < |delete| {
      assert delete[..n + 1][..n] == delete[..n];
      DropStaysFailed(entries, delete, n + 1);
    } else {
      PrefixAll(delete);
    }
  }

  /** Slots that were there keep their label map; new slots have one made by this call. */
  predicate KeepsLabels(after: map<Key, Slot>, before: map<Key, Slot>, made: set<LabelMap>) {
    forall k <- after.Keys :: if k in before then after[k].labels == before[k].labels else after[k].labels in made
  }

  ghost predicate WrittenTo(slots: map<Key, Slot>, order: seq<Key>, t: Result<Table>)
    reads set k | k in slots :: slots[k].labels
  {
    t.Ok? && Agrees(slots, t.value.entries) && order == t.value.order
  }

  method BaseSlot(slots: map<Key, Slot>, key: Key) returns (base: Slot, ghost made: set<LabelMap>)
    ensures key in slots ==> base == slots[key] && made == {}
    ensures key !in slots ==> View(base) == NewEntry(key) && base.labels in made
    ensures fresh(made)
  {
    made := {};
    if key in slots {
      base := slots[key];
    } else {
      var empty := new LabelMap(map[]);
      made := {empty};
      base := Overwrite(key.name, key.rrtype, None, [], [], empty);
    }
  }

  /** The loop body of the third step of merge. */
  method WriteSlot(slots: map<Key, Slot>, order: seq<Key>, r: Record, ghost t: Table, ghost before: map<Key, Slot>,
                   ghost made: set<LabelMap>)
    returns (res: Result<map<Key, Slot>>, order': seq<Key>, ghost made': set<LabelMap>)
    requires WrittenTo(slots, order, Ok(t)) && KeepsLabels(slots, before, made) && before.Keys <= slots.Keys
    ensures made <= made' && fresh(made' - made)
    ensures WriteOne(t, r).Err? ==> res == Err(WriteOne(t, r).failure)
    ensures WriteOne(t, r).Ok? ==>
              && res.Ok? && WrittenTo(res.value, order', WriteOne(t, r))
              && KeepsLabels(res.value, before, made') && before.Keys <= res.value.Keys
  {
    hide NormalizedValues;
    order', made' := order, made;
    var key := ProviderKey(r);
    if key.Err? {
      return Err(key.failure), order', made';
    }
    var base;
    ghost var more;
    base, more := BaseSlot(slots, key.value);
    made' := made + more;
    var values := NormalizeValues(r);
    if values.Err? {
      return Err(values.failure), order', made';
    }
    var written := base.(ttl := ToTTL(r.ttl), rdata := ToRdata(values.value));
    order' := if key.value in slots then order else order + [key.value];
    AgreesAfterPut(slots, t, r, written, values.value);
    res := Ok(slots[key.value := written]);
  }

  lemma AgreesAfterPut(slots: map<Key, Slot>, t: Table, r: Record, written: Slot, values: seq<Text>)
    requires Agrees(slots, t.entries)
    requires View(written) == Overlay(BaseIn(t, RecordKey(r)), r, values)
    ensures Agrees(slots[RecordKey(r) := written], Put(t, r, values).entries)
  {
  }

  lemma {:induction false} WriteStaysFailed(t: Table, writes: seq<Record>, n: nat)
    requires n <= |writes| && Write(t, writes[..n]).Err?
    ensures Write(t, writes) == Write(t, writes[..n])
    decreases |writes| - n
  {
    if n < |writes| {
      assert writes[..n + 1][..n] == writes[..n];
      WriteStaysFailed(t, writes, n + 1);
    } else {
      PrefixAll(writes);
    }
  }

  method WriteRecords(slots: map<Key, Slot>, order: seq<Key>, writes: seq<Record>, ghost t: Table)
    returns (res: Result<map<Key, Slot>>, order': seq<Key>, ghost made: set<LabelMap>)
    requires WrittenTo(slots, order, Ok(t))
    ensures fresh(made)
    ensures Write(t, writes).Err? ==> res == Err(Write(t, writes).failure)
    ensures Write(t, writes).Ok? ==>
              res.Ok? && WrittenTo(res.value, order', Write(t, writes)) && KeepsLabels(res.value, slots, made)
  {
    var cur := slots;
    order', made := order, {};
    for i := 0 to |writes|
      invariant WrittenTo(cur, order', Write(t, writes[..i]))
      invariant KeepsLabels(cur, slots, made) && slots.Keys <= cur.Keys
      invariant fresh(made)
    {
      assert writes[..i + 1][..i] == writes[..i];
      res, order', made := WriteSlot(cur, order', writes[i], Write(t, writes[..i]).value, slots, made);
      if res.Err? {
        WriteStaysFailed(t, writes, i + 1);
        return;
      }
      cur := res.value;
    }
    PrefixAll(writes);
    res := Ok(cur);
  }

  function EmitSlots(slots: map<Key, Slot>, order: seq<Key>): seq<Slot> {
    if order == [] then []
    else
      var k := order[|order| - 1];
      var front := EmitSlots(slots, order[..|order| - 1]);
      if k in slots then front + [slots[k]] else front
  }

  lemma {:induction false} EmitSlotsViews(slots: map<Key, Slot>, order: seq<Key>, entries: map<Key, Entry>)
    requires Agrees(slots, entries)
    ensures Views(EmitSlots(slots, order)) == Emit(entries, order)
  {
    if order != [] {
      var front, k := order[..|order| - 1], order[|order| - 1];
      EmitSlotsViews(slots, front, entries);
      if k in slots {
        ViewsSnoc(EmitSlots(slots, front), slots[k]);
      }
    }
  }

  lemma {:induction false} EmitSlotsKeys(slots: map<Key, Slot>, order: seq<Key>)
    ensures var ks := Keep(slots.Keys, order);
            && |EmitSlots(slots, order)| == |ks|
            && forall i | 0 <= i < |ks| :: ks[i] in slots && EmitSlots(slots, order)[i] == slots[ks[i]]
  {
    if order != [] {
      EmitSlotsKeys(slots, order[..|order| - 1]);
    }
  }

  method EmitAll(slots: map<Key, Slot>, order: seq<Key>) returns (out: seq<Slot>)
    ensures out == EmitSlots(slots, order)
  {
    out := [];
    for i := 0 to |order|
      invariant out == EmitSlots(slots, order[..i])
    {
      assert order[..i + 1][..i] == order[..i];
      if order[i] in slots {
        out := out + [slots[order[i]]];
      }
    }
    PrefixAll(order);
  }

  /** A record that stays keeps the very label map it was published with, if it had one. */
  predicate LabelsKept(current: seq<Slot>, cs: ChangeSet, k: Key, labels: LabelMap?, made: set<LabelMap>) {
    if k !in DeleteKeys(cs) && SharedLabels(current, k) != null then labels == SharedLabels(current, k)
    else labels in made
  }

  lemma {:induction false} LabelsKeptAfterWrites(current: seq<Slot>, cs: ChangeSet, loaded: map<Key, Slot>,
                          after: map<Key, Slot>, k: Key,
                              made0: set<LabelMap>, made1: set<LabelMap>)
    requires Shares(loaded, current, made0)
    requires k !in loaded ==> LastSlot(current, k).None?
    requires k in after
    requires if k in loaded && k !in DeleteKeys(cs) then after[k].labels == loaded[k].labels
             else after[k].labels in made1
    ensures LabelsKept(current, cs, k, after[k].labels, made0 + made1)
  {
  }

  lemma {:induction false} NoSlotNoLabels(current: seq<Slot>, k: Key)
    requires k !in Elems(Keys(Views(current)))
    ensures LastSlot(current, k).None?
  {
    if current != [] {
      var front, s := current[..|current| - 1], current[|current| - 1];
      assert current == front + [s];
      ViewsSnoc(front, s);
      MapSnoc(KeyOf, Views(front), View(s));
      NoSlotNoLabels(front, k);
      assert Keys(Views(current))[|current| - 1] == SlotKey(s);
    }
  }

  /** The first three steps of merge. */
  method MergeTable(current: array<Slot>, cs: ChangeSet)
    returns (res: Result<map<Key, Slot>>, order: seq<Key>, ghost made: set<LabelMap>)
    ensures fresh(made)
    ensures MergedTable(Views(current[..]), cs).Err? ==> res == Err(MergedTable(Views(current[..]), cs).failure)
    ensures MergedTable(Views(current[..]), cs).Ok? ==>
              && res.Ok? && WrittenTo(res.value, order, MergedTable(Views(current[..]), cs))
              && forall k <- res.value.Keys :: LabelsKept(current[..], cs, k, res.value[k].labels, made)
  {
    hide Load;
    var loaded, dropped;
    ghost var made0, made1;
    ghost var ss := current[..];
    ghost var published := Views(ss);
    loaded, order, made0 := LoadCurrent(current);
    ViewsUnchanged(ss);
    made := made0;
    dropped := DropDeleted(loaded, cs.delete, Load(published).entries);
    if dropped.Err? {
      ViewsUnchanged(ss);
      return Err(dropped.failure), order, made;
    }
    ghost var before := Table(Drop(Load(published).entries, cs.delete).value, order);
    res, order, made1 := WriteRecords(dropped.value, order, cs.Writes(), before);
    ViewsUnchanged(ss);
    made := made0 + made1;
    if res.Ok? {
      TableLabels(ss, cs, loaded, res.value, made0, made1);
    }
  }

  lemma {:induction false} TableLabels(current: seq<Slot>, cs: ChangeSet, loaded: map<Key, Slot>, after: map<Key, Slot>,
                    made0: set<LabelMap>, made1: set<LabelMap>)
    requires Shares(loaded, current, made0)
    requires loaded.Keys == Load(Views(current)).entries.Keys
    requires KeepsLabels(after, loaded - DeleteKeys(cs), made1)
    ensures forall k <- after.Keys :: LabelsKept(current, cs, k, after[k].labels, made0 + made1)
  {
    LoadFacts(Views(current));
    forall k <- after.Keys ensures LabelsKept(current, cs, k, after[k].labels, made0 + made1) {
      if k !in loaded {
        NoSlotNoLabels(current, k);
      }
      LabelsKeptAfterWrites(current, cs, loaded, after, k, made0, made1);
    }
  }

  /** The slots, seen on values, are the specified records; or the same failure is reported. */
  ghost predicate Yields(r: Result<seq<Slot>>, spec: Result<seq<Entry>>)
    reads if r.Ok? then set s | s in r.value :: s.labels else {}
  {
    match spec
    case Err(f) => r == Err(f)
    case Ok(es) => r.Ok? && Views(r.value) == es
  }

  predicate AllLabelsKept(current: seq<Slot>, cs: ChangeSet, ks: seq<Key>, out: seq<Slot>, made: set<LabelMap>) {
    |ks| == |out| && forall i | 0 <= i < |ks| :: LabelsKept(current, cs, ks[i], out[i].labels, made)
  }

  /** The fourth step of merge. */
  method MergeInOrder(current: array<Slot>, cs: ChangeSet)
    returns (res: Result<seq<Slot>>, ghost made: set<LabelMap>)
    ensures fresh(made)
    ensures Yields(res, Merge(Views(current[..]), cs))
    ensures res.Ok? ==> AllLabelsKept(current[..], cs, OutKeys(Views(current[..]), cs), res.value, made)
  {
    var table, order;
    ghost var ss := current[..];
    table, order, made := MergeTable(current, cs);
    if table.Err? {
      return Err(table.failure), made;
    }
    var out := EmitAll(table.value, order);
    ViewsUnchanged(ss);
    EmitSlotsViews(table.value, order, MergedTable(Views(ss), cs).value.entries);
    EmitSlotsKeys(table.value, order);
    MergeSucceedsIffConvertible(Views(ss), cs);
    MergedTableFacts(Views(ss), cs);
    res := Ok(out);
  }

  method ToSlice(s: seq<Slot>) returns (a: array<Slot>)
    ensures fresh(a) && a[..] == s
  {
    a := new Slot[|s|](i requires 0 <= i < |s| => s[i]);
  }

  function Elements(r: Result<array<Slot>>): Result<seq<Slot>>
    reads if r.Ok? then {r.value} else {}
  {
    match r
    case Err(f) => Err(f)
    case Ok(a) => Ok(a[..])
  }

  /** The whole of merge, into a new slice; the given one is not written to. */
  method MergeSlots(current: array<Slot>, cs: ChangeSet)
    returns (res: Result<array<Slot>>, ghost made: set<LabelMap>)
    ensures fresh(made) && (res.Ok? ==> fresh(res.value))
    ensures Yields(Elements(res), Merge(Views(current[..]), cs))
    ensures res.Ok? ==> AllLabelsKept(current[..], cs, OutKeys(Views(current[..]), cs), res.value[..], made)
  {
    var out;
    ghost var ss := current[..];
    out, made := MergeInOrder(current, cs);
    if out.Err? {
      return Err(out.failure), made;
    }
    var slots := ToSlice(out.value);
    ViewsUnchanged(ss);
    res := Ok(slots);
  }

  // ----- applyManagedBy -----

  method ChangedKeys(cs: ChangeSet) returns (out: set<Key>)
    ensures out == KeySet(cs.Writes())
  {
    var writes := cs.Writes();
    out := {};
    for i := 0 to |writes|
      invariant out == KeySet(writes[..i])
    {
      PrefixSnoc(writes, i);
      KeySetSnoc(writes[..i], writes[i]);
      var key := ProviderKey(writes[i]);
      if key.Err? {
        continue;
      }
      out := out + {key.value};
    }
    PrefixAll(writes);
  }

  lemma KeySetSnoc(rs: seq<Record>, r: Record)
    ensures KeySet(rs + [r]) == KeySet(rs) + if Supported(r.rtype) then {RecordKey(r)} else {}
  {
  }

  function SlotLiteralKey(s: Slot): Key {
    Key(s.name, s.rrtype)
  }

  /** One element after marking: a new map with the one label, or the element as it was. */
  ghost predicate Marked(changed: set<Key>, before: Slot, after: Slot, made: set<LabelMap>)
    reads after.labels
  {
    if SlotLiteralKey(before) in changed then
      after.labels in made && after == before.(labels := after.labels) && Contents(after.labels) == Some(MANAGED_BY)
    else after == before
  }

  predicate OwnMaps(changed: set<Key>, before: seq<Slot>, after: seq<Slot>)
    requires |before| == |after|
  {
    forall i, j | 0 <= i < j < |after| ::
      SlotLiteralKey(before[i]) in changed && SlotLiteralKey(before[j]) in changed ==>
        after[i].labels != after[j].labels
  }

  /** Marks written records in place, each with a map of its own; every other element is left as it is. */
  method ApplyManagedBy(a: array<Slot>, cs: ChangeSet) returns (ghost made: set<LabelMap>)
    modifies a
    ensures fresh(made)
    ensures forall i | 0 <= i < a.Length :: Marked(KeySet(cs.Writes()), old(a[i]), a[i], made)
    ensures OwnMaps(KeySet(cs.Writes()), old(a[..]), a[..])
  {
    hide KeySet;
    made := {};
    var changed := ChangedKeys(cs);
    if changed == {} {
      return;
    }
    for i := 0 to a.Length
      invariant fresh(made)
      invariant forall j | 0 <= j < i :: Marked(changed, old(a[j]), a[j], made)
      invariant forall j | i <= j < a.Length :: a[j] == old(a[j])
      invariant OwnMaps(changed, old(a[..i]), a[..i])
    {
      var key := SlotLiteralKey(a[i]);
      if key !in changed {
        continue;
      }
      var labels := new LabelMap(MANAGED_BY);
      made := made + {labels};
      a[i] := a[i].(labels := labels);
    }
    assert a[..a.Length] == a[..] && old(a[..a.Length]) == old(a[..]);
  }

  // ----- guard and unchanged -----

  method SubmittedKeys(a: array<Slot>) returns (submitted: set<Key>)
    ensures submitted == SlotLiteralKeys(a[..])
  {
    submitted := {};
    for i := 0 to a.Length
      invariant submitted == SlotLiteralKeys(a[..i])
    {
      assert a[..i + 1] == a[..i] + [a[i]];
      submitted := submitted + {SlotLiteralKey(a[i])};
    }
    assert a[..a.Length] == a[..];
  }

  function SlotLiteralKeys(ss: seq<Slot>): set<Key> {
    set s | s in ss :: SlotLiteralKey(s)
  }

  method RequestedKeys(delete: seq<Record>) returns (r: Result<set<Key>>)
    ensures r == if exists d <- delete :: !Supported(d.rtype) then Err(Permanent(UnsupportedType))
                 else Ok(KeySet(delete))
  {
    var requested: set<Key> := {};
    for i := 0 to |delete|
      invariant forall d <- delete[..i] :: Supported(d.rtype)
      invariant requested == KeySet(delete[..i])
    {
      PrefixSnoc(delete, i);
      KeySetSnoc(delete[..i], delete[i]);
      var key := ProviderKey(delete[i]);
      if key.Err? {
        return Err(key.failure);
      }
      requested := requested + {key.value};
    }
    PrefixAll(delete);
    return Ok(requested);
  }

  method AllAccountedFor(current: array<Slot>, submitted: set<Key>, requested: set<Key>) returns (ok: bool)
    ensures ok == SlotsAccountedFor(current[..], submitted, requested)
  {
    for i := 0 to current.Length
      invariant SlotsAccountedFor(current[..i], submitted, requested)
    {
      assert current[..i + 1] == current[..i] + [current[i]];
      var key := SlotKey(current[i]);
      if key in submitted || key in requested {
        continue;
      }
      assert current[i] in current[..];
      return false;
    }
    assert current[..current.Length] == current[..];
    return true;
  }

  predicate SlotsAccountedFor(ss: seq<Slot>, submitted: set<Key>, requested: set<Key>) {
    forall s <- ss :: SlotKey(s) in submitted || SlotKey(s) in requested
  }

  lemma SlotsAccountedForIff(ss: seq<Slot>, submitted: set<Key>, requested: set<Key>)
    ensures SlotsAccountedFor(ss, submitted, requested) <==> NothingLost(Views(ss), submitted, requested)
  {
    forall i | 0 <= i < |ss| ensures KeyOf(Views(ss)[i]) == SlotKey(ss[i]) && Views(ss)[i] in Views(ss) {
    }
    if NothingLost(Views(ss), submitted, requested) {
      forall i | 0 <= i < |ss| ensures SlotKey(ss[i]) in submitted || SlotKey(ss[i]) in requested {
        assert Views(ss)[i] in Views(ss);
      }
    }
  }

  method GuardSlots(current: array<Slot>, a: array<Slot>, cs: ChangeSet) returns (err: Option<Failure>)
    ensures err == Guard(Views(current[..]), Views(a[..]), cs)
  {
    var submitted := SubmittedKeys(a);
    var requested := RequestedKeys(cs.delete);
    if requested.Err? {
      return Some(requested.failure);
    }
    var ok := AllAccountedFor(current, submitted, requested.value);
    SlotsAccountedForIff(current[..], submitted, requested.value);
    LiteralKeysOfViews(a[..]);
    return if ok then None else Some(Temporary(LostWithoutRequest));
  }

  lemma LiteralKeysOfViews(ss: seq<Slot>)
    ensures LiteralKeys(Views(ss)) == SlotLiteralKeys(ss)
  {
    forall k ensures k in LiteralKeys(Views(ss)) <==> exists s <- ss :: SlotLiteralKey(s) == k {
      if k in LiteralKeys(Views(ss)) {
        var i :| 0 <= i < |ss| && LiteralKey(Views(ss)[i]) == k;
        assert ss[i] in ss && SlotLiteralKey(ss[i]) == k;
      }
      if s :| s in ss && SlotLiteralKey(s) == k {
        var i :| 0 <= i < |ss| && ss[i] == s;
        assert Views(ss)[i] in Views(ss);
      }
    }
  }

  method UnchangedSlots(current: array<Slot>, a: array<Slot>) returns (same: bool)
    ensures same == Unchanged(Views(current[..]), Views(a[..]))
  {
    if current.Length != a.Length {
      return false;
    }
    for i := 0 to current.Length
      invariant forall j | 0 <= j < i :: SameRecord(Views(current[..])[j], Views(a[..])[j])
    {
      if !SameRecord(View(current[i]), View(a[i])) {
        return false;
      }
    }
    return true;
  }

  // ----- The edit closure -----

  datatype EditResult = EditFailed(failure: Failure) | SkipApply | Send(slots: array<Slot>)

  /** What the labels of a sent record are: its own mark when it was written, else what merge kept. */
  predicate SentLabels(current: seq<Slot>, cs: ChangeSet, k: Key, s: Slot, made: set<LabelMap>) {
    if SlotLiteralKey(s) in KeySet(cs.Writes()) then s.labels in made
    else LabelsKept(current, cs, k, s.labels, made)
  }

  lemma {:induction false} MarkedViews(changed: set<Key>, before: seq<Slot>, views: seq<Entry>, after: seq<Slot>,
                          made: set<LabelMap>)
    requires |before| == |after| == |views|
    requires forall i | 0 <= i < |before| :: Marked(changed, before[i], after[i], made)
    requires forall i | 0 <= i < |before| :: LiteralKey(views[i]) == SlotLiteralKey(before[i])
    requires forall i | 0 <= i < |before| ::
               View(after[i]) == if SlotLiteralKey(before[i]) in changed then views[i].(labels := Some(MANAGED_BY))
                                 else views[i]
    ensures Views(after) == Mark(changed, views)
  {
  }

  /** Marking seen on values: the array then holds the marked set of the specification. */
  method MarkSlots(a: array<Slot>, cs: ChangeSet) returns (ghost made: set<LabelMap>)
    modifies a
    ensures fresh(made)
    ensures Views(a[..]) == Mark(KeySet(cs.Writes()), old(Views(a[..])))
    ensures forall i | 0 <= i < a.Length :: Marked(KeySet(cs.Writes()), old(a[i]), a[i], made)
  {
    ghost var before, views := a[..], Views(a[..]);
    made := ApplyManagedBy(a, cs);
    MarkedViews(KeySet(cs.Writes()), before, views, a[..], made);
  }

  predicate AllSentLabels(current: seq<Slot>, cs: ChangeSet, ks: seq<Key>, out: seq<Slot>, made: set<LabelMap>) {
    |ks| == |out| && forall i | 0 <= i < |ks| :: SentLabels(current, cs, ks[i], out[i], made)
  }

  lemma SentAfterMarking(current: seq<Slot>, cs: ChangeSet, ks: seq<Key>, before: seq<Slot>, after: seq<Slot>,
                         made0: set<LabelMap>, made1: set<LabelMap>)
    requires AllLabelsKept(current, cs, ks, before, made0)
    requires |after| == |before|
    requires forall i | 0 <= i < |before| :: Marked(KeySet(cs.Writes()), before[i], after[i], made1)
    ensures AllSentLabels(current, cs, ks, after, made0 + made1)
  {
  }

  /** Marking the merged set, with what becomes of its labels. */
  method MarkMerged(a: array<Slot>, cs: ChangeSet, ghost ss: seq<Slot>, ghost ks: seq<Key>, ghost kept: set<LabelMap>)
    returns (ghost made: set<LabelMap>)
    requires AllLabelsKept(ss, cs, ks, a[..], kept)
    modifies a
    ensures kept <= made && fresh(made - kept)
    ensures Views(a[..]) == Mark(KeySet(cs.Writes()), old(Views(a[..])))
    ensures AllSentLabels(ss, cs, ks, a[..], made)
  {
    ghost var before := a[..];
    ghost var marks := MarkSlots(a, cs);
    made := kept + marks;
    SentAfterMarking(ss, cs, ks, before, a[..], kept, marks);
  }

  /** Merging and marking. */
  method SubmitSlots(current: array<Slot>, cs: ChangeSet)
    returns (r: Result<array<Slot>>, ghost made: set<LabelMap>)
    ensures fresh(made) && (r.Ok? ==> fresh(r.value))
    ensures Yields(Elements(r), MergedAndMarked(Views(current[..]), cs))
    ensures r.Ok? ==> AllSentLabels(current[..], cs, OutKeys(Views(current[..]), cs), r.value[..], made)
  {
    hide Merge, OutKeys, AllLabelsKept, AllSentLabels, KeySet, Mark;
    ghost var ss := current[..];
    ghost var ks := OutKeys(Views(ss), cs);
    r, made := MergeSlots(current, cs);
    ViewsUnchanged(ss);
    if r.Err? {
      return;
    }
    ghost var merged := Views(r.value[..]);
    made := MarkMerged(r.value, cs, ss, ks, made);
    ViewsUnchanged(ss);
    assert Views(r.value[..]) == Mark(KeySet(cs.Writes()), merged);
  }

  /** The outcome on the heap is the outcome on values. */
  ghost predicate Realises(r: EditResult, e: Edited)
    reads if r.Send? then {r.slots} else {}
    reads if r.Send? then set s | s in r.slots[..] :: s.labels else {}
  {
    match e
    case Refused(f) => r == EditFailed(f)
    case Skipped => r == SkipApply
    case Submitted(es) => r.Send? && Views(r.slots[..]) == es
  }

  /** The rest of the closure, for the set that was merged and marked. */
  method DecideSlots(current: array<Slot>, a: array<Slot>, cs: ChangeSet) returns (r: EditResult)
    requires MergedAndMarked(Views(current[..]), cs) == Ok(Views(a[..]))
    ensures Realises(r, Edit(Views(current[..]), cs))
    ensures r.Send? ==> r.slots == a
  {
    ghost var ss, submitted := current[..], a[..];
    var err := GuardSlots(current, a, cs);
    ViewsUnchanged(ss);
    ViewsUnchanged(submitted);
    if err.Some? {
      return EditFailed(err.value);
    }
    var same := UnchangedSlots(current, a);
    ViewsUnchanged(ss);
    ViewsUnchanged(submitted);
    r := if same then SkipApply else Send(a);
  }

  /**
   Merge, mark, guard, compare, in that order. Nothing that was published is modified: the method modifies
   neither the published slice nor any label map, and the labels of what is sent are new or the very maps that
   were published.
   */
  method EditSlots(current: array<Slot>, cs: ChangeSet)
    returns (r: EditResult, ghost made: set<LabelMap>)
    ensures fresh(made) && (r.Send? ==> fresh(r.slots))
    ensures Realises(r, Edit(Views(current[..]), cs))
    ensures r.Send? ==> AllSentLabels(current[..], cs, OutKeys(Views(current[..]), cs), r.slots[..], made)
  {
    ghost var ss := current[..];
    var submitted;
    submitted, made := SubmitSlots(current, cs);
    if submitted.Err? {
      return EditFailed(submitted.failure), made;
    }
    r := DecideSlots(current, submitted.value, cs);
    ViewsUnchanged(ss);
  }
}
