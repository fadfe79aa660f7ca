/** The purpose of adjusting: ExternalDNS finds what it was told to expect, so no difference comes back. */
module NoDiff {
  import opened Text
  import opened Names
  import opened Scopes
  import opened Records
  import opened Adjust
  import opened Grouping
  import opened Overwrites
  import opened MergeLaws
  import opened Backends
  import opened Closure
  import opened Discharge
  import opened Wire

  predicate AllAdjusted(rs: seq<Record>) {
    forall r <- rs :: AdjustedRecord(r) == r
  }

  /** Records returns an adjusted write exactly as it was written. */
  lemma {:induction false} AdjustedWriteIsReturned(scope: Scope, zones: seq<Zone>, cs: ChangeSet, groups: seq<Group>,
                                                   w: World, fates: seq<Fate>, r: Record)
    requires Applicable(scope, zones, cs, groups, w) && !IsZero(r.name)
    requires ApplyGroups(w, groups, fates, |groups|).1.None?
    requires AllAdjusted(cs.create) && AllAdjusted(cs.updateTo) && Prevailing(cs, RecordKey(r)) == Some(r)
    ensures ReadAbout(scope, zones, ApplyGroups(w, groups, fates, |groups|).0, r.name, r.rtype) ==
            Copies(OwnerDoubles(zones, cs, w, r.name, RecordKey(r)), r)
  {
    assert KeyFor(r.name, r.rtype) == RecordKey(r);
    UpdatesPrevail(cs, RecordKey(r));
    LastWriteFinds(cs.Writes(), RecordKey(r));
    AdjustedIsStoredForm(r);
    WriteThenRead(scope, zones, cs, groups, w, fates, r.name, r.rtype);
  }

  /** What ExternalDNS compares. */
  predicate SameDesired(a: Endpoint, b: Endpoint) {
    a.dnsName == b.dnsName && a.targets == b.targets && a.recordType == b.recordType && a.recordTTL == b.recordTTL
  }

  /** An endpoint of the answer is read as an adjusted record that is answered again in the same way. */
  lemma AnsweredIsAdjusted(es: seq<Endpoint>, e: Endpoint)
    requires Answer(es).Ok? && AllReadBack(ToRecords(es).value) && e in Answer(es).value
    ensures ToRecord(e).Ok? && AdjustedRecord(ToRecord(e).value) == ToRecord(e).value && !IsZero(ToRecord(e).value.name)
    ensures SameDesired(ToEndpoint(ToRecord(e).value), e)
  {
    hide Parse, ParseRecordType, AdjustedRecord, ReadsBack;
    var rs := ToRecords(es).value;
    ToRecordsPointwise(es, rs);
    var i :| 0 <= i < |es| && Answer(es).value[i] == e;
    AnsweredEndpoint(es, rs, i);
    AdjustedRecordIsFixed(rs[i]);
  }

  /** Whatever is sent of an answer is read, and read as adjusted records. */
  lemma {:induction false} SentIsAdjusted(es: seq<Endpoint>, sent: seq<Endpoint>)
    requires Answer(es).Ok? && AllReadBack(ToRecords(es).value) && forall e <- sent :: e in Answer(es).value
    ensures ToRecords(sent).Ok? && AllAdjusted(ToRecords(sent).value)
  {
    if sent != [] {
      var front, e := sent[..|sent| - 1], sent[|sent| - 1];
      SentIsAdjusted(es, front);
      AnsweredIsAdjusted(es, e);
    }
  }

  /**
   From the answer of POST /adjustendpoints through POST /records to the next GET /records. A change set is made
   of answered endpoints; once it has been applied, each of them that is the last word on its key, and is not
   deleted by the same change set, is listed once and as it was answered.
   */
  lemma {:induction false} NoDiffRecurs(scope: Scope, zones: seq<Zone>, c: Changes, cs: ChangeSet, groups: seq<Group>,
                                        w: World, fates: seq<Fate>, es: seq<Endpoint>, e: Endpoint, r: Record)
    requires Answer(es).Ok? && AllReadBack(ToRecords(es).value)
    requires forall x <- c.create + c.updateNew :: x in Answer(es).value
    requires ChangeSetOf(c) == Ok(cs) && Applicable(scope, zones, cs, groups, w)
    requires ApplyGroups(w, groups, fates, |groups|).1.None?
    requires e in c.create + c.updateNew && ToRecord(e) == Ok(r) && LastWord(cs, r)
    ensures ReadAbout(scope, zones, ApplyGroups(w, groups, fates, |groups|).0, r.name, r.rtype) == [r]
    ensures SameDesired(ToEndpoint(r), e)
  {
    hide ToRecord, LastWrite, ApplyGroups, Answer;
    assert forall x :: x in c.create || x in c.updateNew ==> x in c.create + c.updateNew;
    SentIsAdjusted(es, c.create);
    SentIsAdjusted(es, c.updateNew);
    AnsweredIsAdjusted(es, e);
    AdjustedWriteIsReturned(scope, zones, cs, groups, w, fates, r);
  }

  predicate LastWord(cs: ChangeSet, r: Record) {
    Prevailing(cs, RecordKey(r)) == Some(r) && RecordKey(r) !in DeleteKeys(cs)
  }
}
