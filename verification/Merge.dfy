/** internal/dpf/merge.go and label.go on values: merging, marking, guarding and comparing. */
module Merging {
  import opened Text
  import opened Records
  import opened Overwrites

  const MANAGED_BY_LABEL_KEY: Text := "managed-by"
  const APPLY_ATTRIBUTION: Text := "external-dns-iij-dpf-webhook"

  // ----- merge -----

  /** The map the source fills and the order in which keys were pushed. */
  datatype Table = Table(entries: map<Key, Entry>, order: seq<Key>)

  function WithLabels(e: Entry): Entry {
    if e.labels == None then e.(labels := Some(map[])) else e
  }

  /** Published records under their keys; a later record with the same key replaces the earlier one. */
  function Load(current: seq<Entry>): Table {
    if current == [] then Table(map[], [])
    else
      var t := Load(current[..|current| - 1]);
      var e := current[|current| - 1];
      var k := KeyOf(e);
      Table(t.entries[k := WithLabels(e)], if k in t.entries then t.order else t.order + [k])
  }

  function Drop(entries: map<Key, Entry>, delete: seq<Record>): Result<map<Key, Entry>> {
    if delete == [] then Ok(entries)
    else
      match Drop(entries, delete[..|delete| - 1])
      case Err(f) => Err(f)
      case Ok(rest) =>
        match ProviderKey(delete[|delete| - 1])
        case Err(f) => Err(f)
        case Ok(k) => Ok(rest - {k})
  }

  function NewEntry(k: Key): Entry {
    Overwrite(k.name, k.rrtype, None, [], [], Some(map[]))
  }

  function Overlay(base: Entry, r: Record, values: seq<Text>): Entry {
    base.(ttl := ToTTL(r.ttl), rdata := ToRdata(values))
  }

  function BaseIn(t: Table, k: Key): Entry {
    if k in t.entries then t.entries[k] else NewEntry(k)
  }

  function Put(t: Table, r: Record, values: seq<Text>): Table {
    var k := RecordKey(r);
    Table(t.entries[k := Overlay(BaseIn(t, k), r, values)], if k in t.entries then t.order else t.order + [k])
  }

  function WriteOne(t: Table, r: Record): Result<Table> {
    match ProviderKey(r)
    case Err(f) => Err(f)
    case Ok(k) =>
      match NormalizedValues(r)
      case Err(f) => Err(f)
      case Ok(values) => Ok(Put(t, r, values))
  }

  function Write(t: Table, writes: seq<Record>): Result<Table> {
    if writes == [] then Ok(t)
    else
      match Write(t, writes[..|writes| - 1])
      case Err(f) => Err(f)
      case Ok(w) => WriteOne(w, writes[|writes| - 1])
  }

  /** The records of the map in the order of the pushed keys. */
  function Emit(entries: map<Key, Entry>, order: seq<Key>): seq<Entry> {
    if order == [] then []
    else
      var k := order[|order| - 1];
      var front := Emit(entries, order[..|order| - 1]);
      if k in entries then front + [entries[k]] else front
  }

  /** Published records, then deletes, then creations and updates, which are one operation here. */
  function MergedTable(current: seq<Entry>, cs: ChangeSet): Result<Table> {
    var t := Load(current);
    match Drop(t.entries, cs.delete)
    case Err(f) => Err(f)
    case Ok(kept) => Write(Table(kept, t.order), cs.Writes())
  }

  function Merge(current: seq<Entry>, cs: ChangeSet): Result<seq<Entry>> {
    match MergedTable(current, cs)
    case Err(f) => Err(f)
    case Ok(w) => Ok(Emit(w.entries, w.order))
  }

  // ----- applyManagedBy -----

  function KeySet(rs: seq<Record>): set<Key> {
    set r | r in rs && Supported(r.rtype) :: RecordKey(r)
  }

  const MANAGED_BY: map<Text, Text> := map[MANAGED_BY_LABEL_KEY := APPLY_ATTRIBUTION]

  function Mark(changed: set<Key>, es: seq<Entry>): (r: seq<Entry>)
    ensures |r| == |es|
    ensures forall i | 0 <= i < |es| :: r[i] == if LiteralKey(es[i]) in changed then es[i].(labels := Some(MANAGED_BY))
                                                else es[i]
  {
    if es == [] then []
    else
      var e := es[0];
      [if LiteralKey(e) in changed then e.(labels := Some(MANAGED_BY)) else e] + Mark(changed, es[1..])
  }

  // ----- guard -----

  function LiteralKeys(es: seq<Entry>): set<Key> {
    set e | e in es :: LiteralKey(e)
  }

  predicate NothingLost(current: seq<Entry>, submitted: set<Key>, requested: set<Key>) {
    forall e <- current :: KeyOf(e) in submitted || KeyOf(e) in requested
  }

  function Guard(current: seq<Entry>, es: seq<Entry>, cs: ChangeSet): Option<Failure> {
    if exists r <- cs.delete :: !Supported(r.rtype) then Some(Permanent(UnsupportedType))
    else if NothingLost(current, LiteralKeys(es), KeySet(cs.delete)) then None
    else Some(Temporary(LostWithoutRequest))
  }

  // ----- unchanged -----

  function Pairs(labels: Labels): map<Text, Text> {
    if labels.Some? then labels.value else map[]
  }

  predicate SameRecord(a: Entry, b: Entry) {
    && a.name == b.name && a.rrtype == b.rrtype && a.description == b.description
    && Pairs(a.labels) == Pairs(b.labels)
    && a.ttl == b.ttl
    && a.rdata == b.rdata
  }

  predicate Unchanged(current: seq<Entry>, es: seq<Entry>) {
    |current| == |es| && forall i | 0 <= i < |es| :: SameRecord(current[i], es[i])
  }

  // ----- The edit closure of internal/dpf/apply.go -----

  datatype Edited = Refused(failure: Failure) | Skipped | Submitted(entries: seq<Entry>)

  /** The merged and marked set, or the failure of merging. */
  function MergedAndMarked(current: seq<Entry>, cs: ChangeSet): Result<seq<Entry>> {
    match Merge(current, cs)
    case Err(f) => Err(f)
    case Ok(merged) => Ok(Mark(KeySet(cs.Writes()), merged))
  }

  function Edit(current: seq<Entry>, cs: ChangeSet): Edited {
    match MergedAndMarked(current, cs)
    case Err(f) => Refused(f)
    case Ok(es) => Decide(current, es, cs)
  }

  /** Guard first, so that a set that is not sent has been checked too. */
  function Decide(current: seq<Entry>, es: seq<Entry>, cs: ChangeSet): Edited {
    if Guard(current, es, cs).Some? then Refused(Guard(current, es, cs).value)
    else if Unchanged(current, es) then Skipped
    else Submitted(es)
  }
}
