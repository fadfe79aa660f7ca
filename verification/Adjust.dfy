/** internal/provider/adjust.go: records brought into the form in which they will be stored. */
module Adjust {
  import opened Text
  import opened Records
  import opened Validate
  import opened Seqs
  import Txt
  import TxtLaws

  function ClampTTL(ttl: int): int {
    if ttl == TTL_UNSET then TTL_UNSET
    else if ttl < TTL_MIN then TTL_MIN
    else if ttl > TTL_MAX then TTL_MAX
    else ttl
  }

  /** A value that cannot be read stays as it is. */
  function AdjustedValue(v: Text): Text {
    match Txt.NormalizeTXT(v)
    case None => v
    case Some(n) => n
  }

  function AdjustedRecord(r: Record): Record {
    r.(ttl := ClampTTL(r.ttl),
       values := if r.rtype.TXT? then AdjustedValues(r.values) else r.values)
  }

  function AdjustedValues(vs: seq<Text>): seq<Text> {
    Map(AdjustedValue, vs)
  }

  function Adjusted(rs: seq<Record>): seq<Record> {
    Map(AdjustedRecord, rs)
  }

  method AdjustValues(r: Record) returns (values: seq<Text>)
    ensures values == AdjustedRecord(r).values
  {
    if !r.rtype.TXT? {
      return r.values;
    }
    var out: seq<Text> := [];
    var changed := false;
    for i := 0 to |r.values|
      invariant out == AdjustedValues(r.values[..i])
      invariant !changed ==> out == r.values[..i]
    {
      var v := r.values[i];
      PrefixSnoc(r.values, i);
      MapSnoc(AdjustedValue, r.values[..i], v);
      var n := Txt.NormalizeTXT(v);
      if n.None? {
        out := out + [v];
        continue;
      }
      if n.value != v {
        changed := true;
      }
      out := out + [n.value];
    }
    PrefixAll(r.values);
    return if changed then out else r.values;
  }

  method AdjustRecords(records: seq<Record>) returns (out: seq<Record>)
    ensures out == Adjusted(records)
  {
    out := [];
    for i := 0 to |records|
      invariant out == Adjusted(records[..i])
    {
      PrefixSnoc(records, i);
      MapSnoc(AdjustedRecord, records[..i], records[i]);
      var adjusted := records[i];
      var values := AdjustValues(records[i]);
      adjusted := adjusted.(ttl := ClampTTL(adjusted.ttl), values := values);
      out := out + [adjusted];
    }
    PrefixAll(records);
  }

  /** A readable value keeps its character-strings and is well quoted; any other stays as it is. */
  predicate SameStrings(received: Text, adjusted: Text) {
    match Txt.ParseTXT(received)
    case None => adjusted == received
    case Some(ps) =>
      && TxtLaws.WellQuoted(adjusted) && Txt.ParseTXT(adjusted).Some?
      && TxtLaws.DecodeAll(Txt.ParseTXT(adjusted).value) == TxtLaws.DecodeAll(ps)
  }

  /** What adjusting leaves alone. */
  predicate Keeps(r: Record, a: Record) {
    && a.name == r.name && a.rtype == r.rtype
    && |a.values| == |r.values|
    && (forall i | 0 <= i < |r.values| ::
          if r.rtype.TXT? then SameStrings(r.values[i], a.values[i]) else a.values[i] == r.values[i])
    && TtlAccepted(a.ttl) && (TtlAccepted(r.ttl) ==> a.ttl == r.ttl)
  }

  /** Each record keeps name, type and values; of a TXT value only the spelling may change. */
  lemma AdjustedKeeps(rs: seq<Record>)
    ensures |Adjusted(rs)| == |rs|
    ensures forall i | 0 <= i < |rs| :: Keeps(rs[i], Adjusted(rs)[i])
  {
    forall i | 0 <= i < |rs| ensures Keeps(rs[i], AdjustedRecord(rs[i])) {
      AdjustedRecordKeeps(rs[i]);
    }
  }

  lemma AdjustedRecordKeeps(r: Record)
    ensures Keeps(r, AdjustedRecord(r))
  {
    hide SameStrings, AdjustedValue;
    forall i | 0 <= i < |r.values| ensures SameStrings(r.values[i], AdjustedValue(r.values[i])) {
      AdjustedValueKeepsStrings(r.values[i]);
    }
  }

  lemma AdjustedValueKeepsStrings(v: Text)
    ensures SameStrings(v, AdjustedValue(v))
  {
    hide TxtLaws.WellQuoted;
    if Txt.ParseTXT(v).Some? {
      TxtLaws.NormalizeKeepsEveryString(v);
      TxtLaws.NormalFormIsWellQuoted(v);
    }
  }

  lemma AdjustedValueIsFixed(v: Text)
    ensures AdjustedValue(AdjustedValue(v)) == AdjustedValue(v)
    ensures Txt.ParseTXT(v).None? <==> Txt.ParseTXT(AdjustedValue(v)).None?
  {
    if Txt.ParseTXT(v).Some? {
      TxtLaws.NormalizeIsIdempotent(v);
      TxtLaws.NormalizeKeepsEveryString(v);
    }
  }

  /** Adjusting adjusted records changes nothing, whatever the records hold. */
  lemma AdjustIsIdempotent(rs: seq<Record>)
    ensures Adjusted(Adjusted(rs)) == Adjusted(rs)
  {
    forall i | 0 <= i < |rs| ensures AdjustedRecord(AdjustedRecord(rs[i])) == AdjustedRecord(rs[i]) {
      AdjustedRecordIsFixed(rs[i]);
    }
  }

  lemma AdjustedRecordIsFixed(r: Record)
    ensures AdjustedRecord(AdjustedRecord(r)) == AdjustedRecord(r)
  {
    forall j | 0 <= j < |r.values| ensures AdjustedValue(AdjustedValue(r.values[j])) == AdjustedValue(r.values[j]) {
      AdjustedValueIsFixed(r.values[j]);
    }
    assert AdjustedRecord(AdjustedRecord(r)).values == AdjustedRecord(r).values;
  }

  function Distance(a: int, b: int): nat {
    if a < b then b - a else a - b
  }

  /** Validation accepts a TTL exactly when adjusting leaves it alone; a set TTL moves to the nearest accepted one. */
  lemma AcceptedTtlsAreFixed(ttl: int)
    ensures TtlAccepted(ttl) <==> ClampTTL(ttl) == ttl
    ensures TtlAccepted(ClampTTL(ttl)) && (ClampTTL(ttl) == TTL_UNSET <==> ttl == TTL_UNSET)
    ensures ttl != TTL_UNSET ==>
              forall t :: TtlAccepted(t) && t != TTL_UNSET ==> Distance(ttl, ClampTTL(ttl)) <= Distance(ttl, t)
  {
  }
}
