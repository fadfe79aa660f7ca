/** internal/provider/validate.go: the checks that need no zone, made before any call to the backend. */
module Validate {
  import opened Text
  import opened Names
  import opened Records
  import opened Seqs
  import Txt

  const TTL_UNSET := 0
  const TTL_MIN := 1
  const TTL_MAX := 2147483647
  const NUMERIC_FIELD_MAX := 65535

  /** The leading characters that are no white space. */
  function Word(s: Text): (n: nat)
    ensures n <= |s|
  {
    if s == [] || IsSpace(s[0]) then 0 else 1 + Word(s[1..])
  }

  /** The words of a text, as strings.Fields gives them. */
  function Fields(s: Text): seq<Text>
    decreases |s|
  {
    if s == [] then []
    else if IsSpace(s[0]) then Fields(s[1..])
    else [s[..Word(s)]] + Fields(s[Word(s)..])
  }

  function DigitsValue(s: Text): Option<nat> {
    if s == [] then Some(0)
    else
      var last := s[|s| - 1];
      match DigitsValue(s[..|s| - 1])
      case None => None
      case Some(n) => if IsDigit(last) then Some(10 * n + (last as int - '0' as int)) else None
  }

  /** An optional sign and at least one digit. */
  function Atoi(s: Text): Option<int> {
    var signed := s != [] && (s[0] == '-' || s[0] == '+');
    var digits := if signed then s[1..] else s;
    if digits == [] then None
    else
      match DigitsValue(digits)
      case None => None
      case Some(n) =>
        var magnitude: int := n;
        Some(if signed && s[0] == '-' then -magnitude else magnitude)
  }

  predicate NumericField(s: Text) {
    Atoi(s).Some? && 0 <= Atoi(s).value <= NUMERIC_FIELD_MAX
  }

  predicate NumericPrefix(v: Text, n: nat, want: nat)
    requires n <= want
  {
    |Fields(v)| == want && forall i | 0 <= i < n :: NumericField(Fields(v)[i])
  }

  predicate TtlAccepted(ttl: int) {
    ttl == TTL_UNSET || TTL_MIN <= ttl <= TTL_MAX
  }

  predicate ValuesReadable(r: Record) {
    r.rtype.TXT? ==> forall v <- r.values :: Txt.SplitTXT(v).Some?
  }

  /** The first violation in the order of the checks. */
  function RecordError(r: Record): Option<Failure> {
    if !Supported(r.rtype) then Some(Permanent(UnsupportedType))
    else if !TtlAccepted(r.ttl) then Some(Permanent(TtlOutOfRange))
    else if r.rtype.A? || r.rtype.AAAA? then
      if exists l <- Labels(r.name) :: '_' in l then Some(Permanent(UnderscoreInName)) else None
    else if r.rtype.CNAME? then
      if |r.values| != 1 then Some(Permanent(NotSingleValue)) else None
    else if r.rtype.TXT? then
      if ValuesReadable(r) then None else Some(Permanent(UnparsableTxt))
    else if r.rtype.MX? then
      if forall v <- r.values :: NumericPrefix(v, 1, 2) then None else Some(Permanent(BadNumericField))
    else if r.rtype.SRV? then
      if forall v <- r.values :: NumericPrefix(v, 3, 4) then None else Some(Permanent(BadNumericField))
    else None
  }

  function FirstRecordError(rs: seq<Record>): Option<Failure> {
    if rs == [] then None
    else if RecordError(rs[0]).Some? then RecordError(rs[0])
    else FirstRecordError(rs[1..])
  }

  /** A written name that has a CNAME has no other type. */
  predicate CnameAlone(writes: seq<Record>) {
    forall a <- writes, b <- writes :: a.name == b.name && a.rtype.CNAME? ==> b.rtype.CNAME?
  }

  function FormatError(cs: ChangeSet): Option<Failure> {
    if FirstRecordError(cs.All()).Some? then FirstRecordError(cs.All())
    else if CnameAlone(cs.Writes()) then None
    else Some(Permanent(CnameNotAlone))
  }

  lemma {:induction false} FirstRecordErrorFindsNone(rs: seq<Record>)
    ensures FirstRecordError(rs).None? <==> forall r <- rs :: RecordError(r).None?
  {
    if rs != [] {
      assert rs == [rs[0]] + rs[1..];
      FirstRecordErrorFindsNone(rs[1..]);
    }
  }

  // ----- The loops of the source -----

  /** The map `added` of the source: the types written under each name. */
  method TypesByName(writes: seq<Record>) returns (added: map<Name, set<RecordType>>)
    ensures forall n: Name :: (if n in added then added[n] else {}) == TypesAt(writes, n)
  {
    added := map[];
    for i := 0 to |writes|
      invariant forall n: Name :: (if n in added then added[n] else {}) == TypesAt(writes[..i], n)
    {
      var r := writes[i];
      PrefixSnoc(writes, i);
      TypesAtSnoc(writes[..i], r);
      if r.name !in added {
        added := added[r.name := {}];
      }
      added := added[r.name := added[r.name] + {r.rtype}];
    }
    PrefixAll(writes);
  }

  /** The last loop visits the names in no particular order. */
  method CheckCnameExclusivity(cs: ChangeSet) returns (err: Option<Failure>)
    ensures err == if CnameAlone(cs.create + cs.updateTo) then None else Some(Permanent(CnameNotAlone))
  {
    var writes := cs.Writes();
    var added := TypesByName(writes);
    var pending := added.Keys;
    while pending != {}
      invariant pending <= added.Keys
      invariant forall n <- added.Keys - pending :: CNAME !in added[n] || |added[n]| <= 1
      decreases |pending|
    {
      var name :| name in pending;
      pending := pending - {name};
      if CNAME !in added[name] {
        continue;
      }
      if |added[name]| > 1 {
        CnameHasCompany(writes, name);
        return Some(Permanent(CnameNotAlone));
      }
    }
    forall a <- writes, b <- writes | a.name == b.name && a.rtype.CNAME? ensures b.rtype.CNAME? {
      assert a.rtype in TypesAt(writes, a.name) && b.rtype in TypesAt(writes, a.name);
      OneType(TypesAt(writes, a.name), CNAME, b.rtype);
    }
    return None;
  }

  lemma CnameHasCompany(writes: seq<Record>, name: Name)
    requires CNAME in TypesAt(writes, name) && |TypesAt(writes, name)| > 1
    ensures !CnameAlone(writes)
  {
    TwoTypes(TypesAt(writes, name), CNAME);
    var u :| u in TypesAt(writes, name) && u != CNAME;
    var a :| a in writes && a.name == name && a.rtype == CNAME;
    var b :| b in writes && b.name == name && b.rtype == u;
  }

  function TypesAt(rs: seq<Record>, n: Name): set<RecordType> {
    set r | r in rs && r.name == n :: r.rtype
  }

  lemma TypesAtSnoc(rs: seq<Record>, r: Record)
    ensures forall n: Name :: TypesAt(rs + [r], n) == TypesAt(rs, n) + if r.name == n then {r.rtype} else {}
  {
  }

  lemma OneType(types: set<RecordType>, t: RecordType, u: RecordType)
    requires |types| <= 1 && t in types && u in types
    ensures t == u
  {
    assert |types - {t}| == |types| - 1;
    assert types - {t} == {};
  }

  lemma TwoTypes(types: set<RecordType>, t: RecordType)
    requires |types| > 1 && t in types
    ensures exists u <- types :: u != t
  {
    var rest := types - {t};
    assert |rest| >= 1;
    var u :| u in rest;
  }

  method ValidateFormat(cs: ChangeSet) returns (err: Option<Failure>)
    ensures err == FormatError(cs)
  {
    var all := cs.All();
    for i := 0 to |all|
      invariant FirstRecordError(all) == FirstRecordError(all[i..])
    {
      err := RecordError(all[i]);
      if err.Some? {
        return;
      }
    }
    err := CheckCnameExclusivity(cs);
  }

  predicate IsWritten(cs: ChangeSet, r: Record) {
    r in cs.create || r in cs.updateTo
  }

  lemma {:induction false} FirstRecordErrorConcat(a: seq<Record>, b: seq<Record>)
    ensures FirstRecordError(a + b) ==
            if FirstRecordError(a).Some? then FirstRecordError(a) else FirstRecordError(b)
  {
    if a == [] {
      assert a + b == b;
    } else {
      assert (a + b)[1..] == a[1..] + b;
      FirstRecordErrorConcat(a[1..], b);
    }
  }

  /** The records are checked list by list: what is created, what is updated, what is deleted. */
  lemma FirstErrorByList(cs: ChangeSet)
    ensures var c, u, d := FirstRecordError(cs.create), FirstRecordError(cs.updateTo), FirstRecordError(cs.delete);
            FormatError(cs) ==
            if c.Some? then c else if u.Some? then u else if d.Some? then d
            else if CnameAlone(cs.create + cs.updateTo) then None else Some(Permanent(CnameNotAlone))
  {
    FirstRecordErrorConcat(cs.create, cs.updateTo);
    FirstRecordErrorConcat(cs.create + cs.updateTo, cs.delete);
  }

  /** Accepted: every record passes on its own and no CNAME has company. All refusals are permanent. */
  lemma FormatAcceptedIff(cs: ChangeSet)
    ensures FormatError(cs).None? <==>
            && (forall r <- cs.create :: RecordError(r).None?)
            && (forall r <- cs.updateTo :: RecordError(r).None?)
            && (forall r <- cs.delete :: RecordError(r).None?)
            && (forall a, b | IsWritten(cs, a) && IsWritten(cs, b) && a.name == b.name ::
                  a.rtype.CNAME? ==> b.rtype.CNAME?)
    ensures FormatError(cs).Some? ==> FormatError(cs).value.Permanent?
  {
    assert forall r :: IsWritten(cs, r) <==> r in cs.Writes();
    FirstRecordErrorFindsNone(cs.All());
    FirstErrorIsPermanent(cs.All());
  }

  lemma {:induction false} FirstErrorIsPermanent(rs: seq<Record>)
    ensures FirstRecordError(rs).Some? ==> FirstRecordError(rs).value.Permanent?
  {
    if rs != [] {
      RecordErrorIsPermanent(rs[0]);
      FirstErrorIsPermanent(rs[1..]);
    }
  }

  lemma RecordErrorIsPermanent(r: Record)
    ensures RecordError(r).Some? ==> RecordError(r).value.Permanent?
  {
  }
}
