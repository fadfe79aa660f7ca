/** internal/webhook/wire.go: endpoints on the wire and records inside. */
module Wire {
  import opened Text
  import opened Names
  import opened Records
  import opened Seqs
  import opened Adjust
  import opened Validate

  /** None stands for a JSON null. */
  datatype Endpoint = Endpoint(
    dnsName: Text,
    targets: Option<seq<Text>>,
    recordType: Text,
    recordTTL: int,
    setIdentifier: Text,
    labels: Option<map<Text, Text>>,
    providerSpecific: seq<(Text, Text)>)

  function TypeText(t: RecordType): Text {
    match t
    case A => "A"
    case AAAA => "AAAA"
    case CNAME => "CNAME"
    case TXT => "TXT"
    case SRV => "SRV"
    case PTR => "PTR"
    case MX => "MX"
    case NAPTR => "NAPTR"
    case NS => "NS"
    case SOA => "SOA"
    case CAA => "CAA"
    case DS => "DS"
    case HTTPS => "HTTPS"
    case SVCB => "SVCB"
    case TLSA => "TLSA"
    case ANAME => "ANAME"
    case Other(name) => name
  }

  const ALLOWED: seq<RecordType> := [A, AAAA, CNAME, TXT, SRV, PTR, MX, NAPTR]

  function FindType(s: Text, among: seq<RecordType>): (r: Option<RecordType>)
    ensures r.Some? ==> r.value in among && TypeText(r.value) == s
    ensures r.None? ==> forall t <- among :: TypeText(t) != s
  {
    if among == [] then None
    else if TypeText(among[0]) == s then Some(among[0])
    else FindType(s, among[1..])
  }

  function ParseRecordType(s: Text): Option<RecordType> {
    FindType(s, ALLOWED)
  }

  /** A type is read exactly from the texts of the allow list, and its text reads back as the type. */
  lemma TypeTextReadsBack(t: RecordType)
    ensures Supported(t) ==> ParseRecordType(TypeText(t)) == Some(t)
    ensures !t.Other? && ParseRecordType(TypeText(t)).Some? ==> Supported(t)
  {
    hide FindType;
    var r := ParseRecordType(TypeText(t));
    if r.Some? && !t.Other? {
      TypeTextsDiffer(r.value, t);
    }
    if Supported(t) {
      assert t in ALLOWED;
    }
  }

  lemma TypeTextsDiffer(a: RecordType, b: RecordType)
    requires !a.Other? && !b.Other? && TypeText(a) == TypeText(b)
    ensures a == b
  {
    assert |TypeText(a)| == |TypeText(b)|;
    assert TypeText(a)[0] == TypeText(b)[0];
    if |TypeText(a)| > 1 {
      assert TypeText(a)[1] == TypeText(b)[1];
    }
    if |TypeText(a)| > 2 {
      assert TypeText(a)[2] == TypeText(b)[2];
    }
  }

  function ToRecord(e: Endpoint): Result<Record> {
    match Parse(e.dnsName)
    case None => Err(Permanent(InvalidName))
    case Some(n) =>
      match ParseRecordType(e.recordType)
      case None => Err(Permanent(UnsupportedType))
      case Some(t) => Ok(Record(n, t, e.recordTTL, if e.targets.Some? then e.targets.value else []))
  }

  /** The texts of the allow list and the types they stand for. */
  lemma LiteralTypes(s: Text)
    ensures ParseRecordType(s) ==
            if s == "A" then Some(A) else if s == "AAAA" then Some(AAAA) else if s == "CNAME" then Some(CNAME)
            else if s == "TXT" then Some(TXT) else if s == "SRV" then Some(SRV) else if s == "PTR" then Some(PTR)
            else if s == "MX" then Some(MX) else if s == "NAPTR" then Some(NAPTR) else None
  {
    hide FindType;
    forall t: RecordType {
      TypeTextReadsBack(t);
    }
    assert TypeText(A) == "A" && TypeText(AAAA) == "AAAA" && TypeText(CNAME) == "CNAME" && TypeText(TXT) == "TXT";
    assert TypeText(SRV) == "SRV" && TypeText(PTR) == "PTR" && TypeText(MX) == "MX" && TypeText(NAPTR) == "NAPTR";
  }

  /** An endpoint is read as the record of its own name, type, TTL and targets; TXT is the type of "TXT" alone. */
  lemma RecordOfLiteralType(e: Endpoint)
    ensures Parse(e.dnsName).None? ==> ToRecord(e) == Err(Permanent(InvalidName))
    ensures Parse(e.dnsName).Some? && ParseRecordType(e.recordType).None? ==>
              ToRecord(e) == Err(Permanent(UnsupportedType))
    ensures Parse(e.dnsName).Some? && ParseRecordType(e.recordType).Some? ==>
              && ToRecord(e) == Ok(Record(Parse(e.dnsName).value, ParseRecordType(e.recordType).value, e.recordTTL,
                                          Targets(e)))
              && TypeText(ParseRecordType(e.recordType).value) == e.recordType
              && (e.recordType == "TXT" <==> ToRecord(e).value.rtype == TXT)
  {
    LiteralTypes(e.recordType);
  }

  function ToEndpoint(r: Record): Endpoint {
    Endpoint(Unqualified(r.name), Some(r.values), TypeText(r.rtype), r.ttl, [], None, [])
  }

  /** All records, or the first failure. */
  function ToRecords(es: seq<Endpoint>): Result<seq<Record>> {
    if es == [] then Ok([])
    else
      match ToRecords(es[..|es| - 1])
      case Err(f) => Err(f)
      case Ok(rs) =>
        match ToRecord(es[|es| - 1])
        case Err(f) => Err(f)
        case Ok(r) => Ok(rs + [r])
  }

  method ReadEndpoints(es: seq<Endpoint>) returns (res: Result<seq<Record>>)
    ensures res == ToRecords(es)
  {
    var out: seq<Record> := [];
    for i := 0 to |es|
      invariant ToRecords(es[..i]) == Ok(out)
    {
      assert es[..i + 1][..i] == es[..i];
      var r := ToRecord(es[i]);
      if r.Err? {
        ToRecordsStaysFailed(es, i + 1);
        return Err(r.failure);
      }
      out := out + [r.value];
    }
    PrefixAll(es);
    return Ok(out);
  }

  lemma {:induction false} ToRecordsStaysFailed(es: seq<Endpoint>, n: nat)
    requires n <= |es| && ToRecords(es[..n]).Err?
    ensures ToRecords(es) == ToRecords(es[..n])
    decreases |es| - n
  {
    if n < |es| {
      assert es[..n + 1][..n] == es[..n];
      ToRecordsStaysFailed(es, n + 1);
    } else {
      PrefixAll(es);
    }
  }

  /** A list fails with the failure of its first unreadable endpoint. */
  lemma {:induction false} FirstFailureIsTold(es: seq<Endpoint>, i: nat)
    requires i < |es| && ToRecord(es[i]).Err?
    requires forall j | 0 <= j < i :: ToRecord(es[j]).Ok?
    ensures ToRecords(es) == Err(ToRecord(es[i]).failure)
  {
    hide ToRecord;
    NoFailureYet(es, i);
    assert es[..i + 1][..i] == es[..i];
    ToRecordsStaysFailed(es, i + 1);
  }

  lemma {:induction false} NoFailureYet(es: seq<Endpoint>, i: nat)
    requires i <= |es| && forall j | 0 <= j < i :: ToRecord(es[j]).Ok?
    ensures ToRecords(es[..i]).Ok?
  {
    hide ToRecord;
    if i > 0 {
      NoFailureYet(es, i - 1);
      assert es[..i][..i - 1] == es[..i - 1];
    }
  }

  predicate ReadsAs(es: seq<Endpoint>, rs: seq<Record>) {
    |rs| == |es| && forall i | 0 <= i < |es| :: ToRecord(es[i]) == Ok(rs[i])
  }

  lemma ReadsAsSnoc(es: seq<Endpoint>, rs: seq<Record>, r: Record)
    requires es != []
    ensures ReadsAs(es, rs + [r]) <==> ReadsAs(es[..|es| - 1], rs) && ToRecord(es[|es| - 1]) == Ok(r)
  {
    hide ToRecord;
    var front := es[..|es| - 1];
    assert es == front + [es[|es| - 1]];
    if ReadsAs(es, rs + [r]) {
      assert forall i | 0 <= i < |front| :: front[i] == es[i] && rs[i] == (rs + [r])[i];
    }
  }

  lemma {:induction false} ToRecordsPointwise(es: seq<Endpoint>, rs: seq<Record>)
    ensures ToRecords(es) == Ok(rs) <==> ReadsAs(es, rs)
  {
    if es != [] && rs != [] {
      var front, last := rs[..|rs| - 1], rs[|rs| - 1];
      assert rs == front + [last];
      ToRecordsPointwise(es[..|es| - 1], front);
      ReadsAsSnoc(es, front, last);
      ToRecordsSnoc(es, front, last);
    }
  }

  lemma {:induction false} ToRecordsSnoc(es: seq<Endpoint>, rs: seq<Record>, r: Record)
    requires es != []
    ensures ToRecords(es) == Ok(rs + [r]) <==>
            ToRecords(es[..|es| - 1]) == Ok(rs) && ToRecord(es[|es| - 1]) == Ok(r)
  {
    var front := ToRecords(es[..|es| - 1]);
    var last := ToRecord(es[|es| - 1]);
    if front.Ok? && last.Ok? {
      SnocInjective(front.value, last.value, rs, r);
    }
  }

  /** The adjusted fields are overwritten, all others are those that were received. */
  function Overwritten(e: Endpoint, r: Record): Endpoint {
    var a := ToEndpoint(r);
    e.(dnsName := a.dnsName, targets := a.targets, recordType := a.recordType, recordTTL := a.recordTTL)
  }

  function AdjustedEndpoints(es: seq<Endpoint>, adjusted: seq<Record>): seq<Endpoint> {
    if |es| != |adjusted| then es
    else seq(|es|, i requires 0 <= i < |es| => Overwritten(es[i], adjusted[i]))
  }

  method AdjustEndpoints(es: seq<Endpoint>, adjusted: seq<Record>) returns (out: seq<Endpoint>)
    ensures out == AdjustedEndpoints(es, adjusted)
  {
    if |es| != |adjusted| {
      return es;
    }
    out := [];
    for i := 0 to |es|
      invariant |out| == i
      invariant forall j | 0 <= j < i :: out[j] == Overwritten(es[j], adjusted[j])
    {
      out := out + [Overwritten(es[i], adjusted[i])];
    }
  }

  /** The answer of POST /adjustendpoints. */
  function Answer(es: seq<Endpoint>): Result<seq<Endpoint>> {
    match ToRecords(es)
    case Err(f) => Err(f)
    case Ok(rs) => Ok(AdjustedEndpoints(es, Adjusted(rs)))
  }

  method PostAdjustEndpoints(es: seq<Endpoint>) returns (res: Result<seq<Endpoint>>)
    ensures res == Answer(es)
  {
    var rs := ReadEndpoints(es);
    if rs.Err? {
      return Err(rs.failure);
    }
    var adjusted := AdjustRecords(rs.value);
    var out := AdjustEndpoints(es, adjusted);
    return Ok(out);
  }

  /** Each answer keeps, at its own index, the fields this provider does not interpret. */
  lemma AnswerKeepsForeignFields(es: seq<Endpoint>, i: nat)
    requires Answer(es).Ok? && i < |es|
    ensures var out := Answer(es).value;
            && |out| == |es|
            && out[i].setIdentifier == es[i].setIdentifier
            && out[i].labels == es[i].labels
            && out[i].providerSpecific == es[i].providerSpecific
  {
    ToRecordsPointwise(es, ToRecords(es).value);
  }

  /** The targets of an endpoint; null and an empty list are the same. */
  function Targets(e: Endpoint): seq<Text> {
    if e.targets.Some? then e.targets.value else []
  }

  /**
   Each answer names the record that was received, with its type, an accepted TTL as it was, and its targets:
   those of a TXT endpoint up to spelling, all others as they were.
   */
  lemma AnswerKeepsTargets(es: seq<Endpoint>, i: nat)
    requires Answer(es).Ok? && i < |es|
    ensures var e, a := es[i], Answer(es).value[i];
            && Parse(e.dnsName).Some? && a.dnsName == Unqualified(Parse(e.dnsName).value)
            && a.recordType == e.recordType && a.targets.Some?
            && (e.recordType != "TXT" ==> Targets(a) == Targets(e))
            && (e.recordType == "TXT" ==>
                  && |Targets(a)| == |Targets(e)|
                  && forall j | 0 <= j < |Targets(e)| :: SameStrings(Targets(e)[j], Targets(a)[j]))
            && TtlAccepted(a.recordTTL) && (TtlAccepted(e.recordTTL) ==> a.recordTTL == e.recordTTL)
  {
    hide SameStrings;
    var rs := ToRecords(es).value;
    ToRecordsPointwise(es, rs);
    assert ToRecord(es[i]) == Ok(rs[i]);
    AdjustedKeeps(rs);
    RecordOfLiteralType(es[i]);
  }

  /** One endpoint read again after the answer. */
  lemma OverwrittenReadsBack(e: Endpoint, r: Record)
    requires Supported(r.rtype)
    ensures ToRecord(Overwritten(e, r)) == Ok(r) <==> ReadsBack(r.name)
  {
    UnqualifiedReadsBack(r.name);
    TypeTextReadsBack(r.rtype);
  }

  predicate AllReadBack(rs: seq<Record>) {
    forall i | 0 <= i < |rs| :: ReadsBack(rs[i].name)
  }

  lemma AnsweredEndpoint(es: seq<Endpoint>, rs: seq<Record>, i: nat)
    requires ReadsAs(es, rs) && i < |es|
    ensures ToRecord(AdjustedEndpoints(es, Adjusted(rs))[i]) == Ok(Adjusted(rs)[i]) <==> ReadsBack(rs[i].name)
  {
    assert ToRecord(es[i]) == Ok(rs[i]);
    OverwrittenReadsBack(es[i], AdjustedRecord(rs[i]));
  }

  lemma AnsweredEndpoints(es: seq<Endpoint>, rs: seq<Record>)
    requires ReadsAs(es, rs)
    ensures ReadsAs(AdjustedEndpoints(es, Adjusted(rs)), Adjusted(rs)) <==> AllReadBack(rs)
  {
    forall i | 0 <= i < |es| {
      AnsweredEndpoint(es, rs, i);
    }
  }

  /**
   The answer reads back as exactly the adjusted records if and only if every name reads back
   from the spelling without its last dot; names like the root do not.
   */
  lemma {:induction false} AnswerReadsBackIff(es: seq<Endpoint>)
    requires Answer(es).Ok?
    ensures var rs := ToRecords(es).value;
            ToRecords(Answer(es).value) == Ok(Adjusted(rs)) <==> AllReadBack(rs)
  {
    var rs := ToRecords(es).value;
    ToRecordsPointwise(es, rs);
    ToRecordsPointwise(Answer(es).value, Adjusted(rs));
    AnsweredEndpoints(es, rs);
  }

  /** Sending the answer back gets the same answer. */
  lemma {:induction false} AnswerIsIdempotent(es: seq<Endpoint>)
    requires Answer(es).Ok?
    requires AllReadBack(ToRecords(es).value)
    ensures Answer(Answer(es).value) == Answer(es)
  {
    var rs := ToRecords(es).value;
    AnswerReadsBackIff(es);
    AdjustIsIdempotent(rs);
    ToRecordsPointwise(es, rs);
    assert AdjustedEndpoints(Answer(es).value, Adjusted(rs)) == Answer(es).value;
  }

  // ----- toChangeSet -----

  datatype Changes = Changes(create: seq<Endpoint>, updateOld: seq<Endpoint>, updateNew: seq<Endpoint>,
                          delete: seq<Endpoint>)

  /** The failure of the first list that is unreadable, in the order create, updateNew, delete. */
  function ChangeSetOf(c: Changes): Result<ChangeSet> {
    var create, updateTo, del := ToRecords(c.create), ToRecords(c.updateNew), ToRecords(c.delete);
    if create.Err? then Err(create.failure)
    else if updateTo.Err? then Err(updateTo.failure)
    else if del.Err? then Err(del.failure)
    else Ok(ChangeSet(create.value, updateTo.value, del.value))
  }

  /** A request is read exactly when its three lists are; each gives the bucket of its name. */
  lemma ChangesReadIff(c: Changes, cs: ChangeSet)
    ensures ChangeSetOf(c) == Ok(cs) <==>
            ReadsAs(c.create, cs.create) && ReadsAs(c.updateNew, cs.updateTo) && ReadsAs(c.delete, cs.delete)
  {
    ToRecordsPointwise(c.create, cs.create);
    ToRecordsPointwise(c.updateNew, cs.updateTo);
    ToRecordsPointwise(c.delete, cs.delete);
  }

  method ToChangeSet(c: Changes) returns (res: Result<ChangeSet>)
    ensures res == ChangeSetOf(c)
    ensures res.Err? ==> res.failure.Permanent?
  {
    FailureIsPermanent(c.create);
    FailureIsPermanent(c.updateNew);
    FailureIsPermanent(c.delete);
    var create := ReadEndpoints(c.create);
    if create.Err? {
      return Err(create.failure);
    }
    var updateTo := ReadEndpoints(c.updateNew);
    if updateTo.Err? {
      return Err(updateTo.failure);
    }
    var del := ReadEndpoints(c.delete);
    if del.Err? {
      return Err(del.failure);
    }
    return Ok(ChangeSet(create.value, updateTo.value, del.value));
  }

  lemma FailureIsPermanent(es: seq<Endpoint>)
    ensures ToRecords(es).Err? ==> ToRecords(es).failure.Permanent?
  {
  }
}
