/** Validation and adjustment seen from the submitting side. */
module Discharge {
  import opened Text
  import opened Records
  import opened Seqs
  import opened Validate
  import opened Adjust
  import opened Overwrites
  import opened Merging
  import opened MergeLaws
  import opened Closure
  import Txt
  import TxtLaws

  lemma ReadableValuesNormalize(r: Record)
    ensures NormalizedValues(r).Ok? <==> ValuesReadable(r)
  {
    TryMapSucceedsIff(Txt.NormalizeTXT, r.values);
    forall v <- r.values ensures Txt.NormalizeTXT(v).Some? <==> Txt.SplitTXT(v).Some? {
    }
  }

  /** What validation accepts can be merged: no type, no value fails to convert. */
  lemma ValidatedIsConvertible(cs: ChangeSet)
    requires FormatError(cs).None?
    ensures Convertible(cs)
  {
    FormatAcceptedIff(cs);
    forall r <- cs.All() ensures Writable(r) {
      assert RecordError(r).None?;
      ReadableValuesNormalize(r);
    }
    assert forall r <- cs.Writes() :: r in cs.All();
    assert forall r <- cs.delete :: r in cs.All();
  }

  /** The only refusal a validated change set can meet is the guard's, and that one is temporary. */
  lemma ValidatedFailsOnlyInGuard(current: seq<Entry>, cs: ChangeSet)
    requires FormatError(cs).None?
    ensures Edit(current, cs).Refused? ==> Edit(current, cs).failure == Temporary(LostWithoutRequest)
  {
    ValidatedIsConvertible(cs);
    MergeSucceedsIffConvertible(current, cs);
  }

  /** The conversion to 32 bits is exact on every TTL that validation accepts. */
  lemma AcceptedTtlIsExact(ttl: int)
    requires TtlAccepted(ttl)
    ensures FromTTL(ToTTL(ttl)) == ttl
    ensures ToTTL(ttl).Some? ==> TTL_MIN <= ToTTL(ttl).value as int <= TTL_MAX
  {
    TtlReadsBackIffItFits(ttl);
  }

  /** The accepted TTLs are those that are not negative and survive the conversion. */
  lemma AcceptedIffItFits(ttl: int)
    ensures TtlAccepted(ttl) <==> ttl >= 0 && FromTTL(ToTTL(ttl)) == ttl
    ensures TtlAccepted(ttl) && ttl != 0 ==> ToTTL(ttl).Some? && ToTTL(ttl).value as int == ttl
  {
    TtlReadsBackIffItFits(ttl);
  }

  /** Adjusting never turns a readable record into an unreadable one, or the other way round. */
  lemma AdjustKeepsReadability(r: Record)
    ensures ValuesReadable(AdjustedRecord(r)) <==> ValuesReadable(r)
  {
    if r.rtype.TXT? {
      forall i | 0 <= i < |r.values|
        ensures Txt.SplitTXT(AdjustedRecord(r).values[i]).Some? <==> Txt.SplitTXT(r.values[i]).Some?
      {
        AdjustedValueIsFixed(r.values[i]);
      }
    }
  }

  /** An adjusted record is its own stored form: sending it and reading it back gives it again. */
  lemma AdjustedIsStoredForm(r: Record)
    ensures NormalizedValues(AdjustedRecord(r)) == Ok(AdjustedRecord(r).values) <==> ValuesReadable(r)
    ensures FromTTL(ToTTL(AdjustedRecord(r).ttl)) == AdjustedRecord(r).ttl
    ensures ReadBack(AdjustedRecord(r)) == AdjustedRecord(r)
  {
    var a := AdjustedRecord(r);
    AdjustKeepsReadability(r);
    ReadableValuesNormalize(a);
    AcceptedTtlsAreFixed(r.ttl);
    AcceptedTtlIsExact(a.ttl);
    if r.rtype.TXT? && NormalizedValues(a).Ok? {
      NormalizeFixedValues(r.values);
    }
  }

  lemma NormalizeFixedValues(vs: seq<Text>)
    requires TryMap(Txt.NormalizeTXT, AdjustedValues(vs)).Some?
    ensures TryMap(Txt.NormalizeTXT, AdjustedValues(vs)) == Some(AdjustedValues(vs))
  {
    forall x <- AdjustedValues(vs) ensures Txt.NormalizeTXT(x).Some? ==> Txt.NormalizeTXT(x) == Some(x) {
      var i :| 0 <= i < |vs| && AdjustedValues(vs)[i] == x;
      NormalizedValueIsItself(vs[i]);
    }
    TryMapFixed(Txt.NormalizeTXT, AdjustedValues(vs));
  }

  lemma NormalizedValueIsItself(v: Text)
    ensures Txt.NormalizeTXT(AdjustedValue(v)).Some? ==> Txt.NormalizeTXT(AdjustedValue(v)) == Some(AdjustedValue(v))
  {
    if Txt.NormalizeTXT(v).Some? {
      TxtLaws.NormalizeIsIdempotent(v);
    }
  }
}
