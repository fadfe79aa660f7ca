/** The records of a bulk update as DPF takes them, and the conversions of internal/dpf/merge.go and records.go. */
module Overwrites {
  import opened Text
  import opened Names
  import opened Records
  import opened Seqs
  import Txt

  newtype Int32 = x: int | -0x8000_0000 <= x < 0x8000_0000

  /** A record of the submitted set. L is how labels are held: a shared map, or its contents. */
  datatype Overwrite<L> = Overwrite(
    name: Text,
    rrtype: RecordType,
    ttl: Option<Int32>,
    rdata: seq<Option<Text>>,
    description: Text,
    labels: L)

  /** The contents of a label map; None is a nil map. */
  type Labels = Option<map<Text, Text>>

  type Entry = Overwrite<Labels>

  datatype Key = Key(name: Text, rrtype: RecordType)

  /** A name that cannot be read stands for itself. */
  function KeyOfName(name: Text, rrtype: RecordType): Key {
    match Canonical(name)
    case None => Key(name, rrtype)
    case Some(c) => Key(c, rrtype)
  }

  function KeyOf(e: Entry): Key {
    KeyOfName(e.name, e.rrtype)
  }

  function LiteralKey(e: Entry): Key {
    Key(e.name, e.rrtype)
  }

  /** Reading a key's own name again gives the key. */
  lemma KeysAreFixed(name: Text, rrtype: RecordType)
    ensures var k := KeyOfName(name, rrtype); KeyOfName(k.name, k.rrtype) == k
  {
    if Canonical(name).Some? {
      CanonicalIsFixed(name);
    }
  }

  function RecordKey(r: Record): Key {
    Key(r.name.text, r.rtype)
  }

  lemma RecordKeyIsFixed(r: Record)
    ensures KeyOfName(r.name.text, r.rtype) == RecordKey(r)
  {
    if !IsZero(r.name) {
      NameIsCanonical(r.name);
    } else {
      assert Canonical([]).None?;
    }
  }

  function ProviderKey(r: Record): Result<Key> {
    if Supported(r.rtype) then Ok(RecordKey(r)) else Err(Permanent(UnsupportedType))
  }

  // ----- TTL -----

  /** The int32 conversion keeps the low 32 bits. */
  function WrapInt32(n: int): Int32 {
    ((n + 0x8000_0000) % 0x1_0000_0000 - 0x8000_0000) as Int32
  }

  function ToTTL(ttl: int): Option<Int32> {
    if ttl == 0 then None else Some(WrapInt32(ttl))
  }

  function FromTTL(ttl: Option<Int32>): int {
    match ttl
    case None => 0
    case Some(v) => v as int
  }

  /** A TTL survives the conversion exactly when it fits in 32 bits. */
  lemma TtlReadsBackIffItFits(ttl: int)
    ensures FromTTL(ToTTL(ttl)) == ttl <==> -0x8000_0000 <= ttl < 0x8000_0000
  {
  }

  // ----- Values -----

  function NormalizedValues(r: Record): Result<seq<Text>> {
    if !r.rtype.TXT? then Ok(r.values)
    else
      match TryMap(Txt.NormalizeTXT, r.values)
      case None => Err(Permanent(UnparsableTxt))
      case Some(vs) => Ok(vs)
  }

  method NormalizeValues(r: Record) returns (res: Result<seq<Text>>)
    ensures res == NormalizedValues(r)
  {
    if !r.rtype.TXT? {
      return Ok(r.values);
    }
    TryMapSucceedsIff(Txt.NormalizeTXT, r.values);
    var out: seq<Text> := [];
    for i := 0 to |r.values|
      invariant TryMap(Txt.NormalizeTXT, r.values[..i]) == Some(out)
    {
      PrefixSnoc(r.values, i);
      TryMapSnoc(Txt.NormalizeTXT, r.values[..i], r.values[i]);
      var n := Txt.NormalizeTXT(r.values[i]);
      if n.None? {
        return Err(Permanent(UnparsableTxt));
      }
      out := out + [n.value];
    }
    PrefixAll(r.values);
    return Ok(out);
  }

  function Present(v: Text): Option<Text> {
    Some(v)
  }

  function ToRdata(values: seq<Text>): seq<Option<Text>> {
    Map(Present, values)
  }

  // ----- Reading back: internal/dpf/records.go -----

  function ValueOf(v: Option<Text>): Text {
    if v.Some? then v.value else []
  }

  function FromRdata(rdata: seq<Option<Text>>): seq<Text> {
    Map(ValueOf, rdata)
  }

  lemma RdataReadsBack(values: seq<Text>)
    ensures FromRdata(ToRdata(values)) == values
    ensures |ToRdata(values)| == |values| && forall i | 0 <= i < |values| :: ToRdata(values)[i] == Some(values[i])
  {
    forall i | 0 <= i < |values| ensures FromRdata(ToRdata(values))[i] == values[i] {
      assert ToRdata(values)[i] == Some(values[i]);
    }
  }

  /** Types outside the allow list and names that cannot be read are not reported. */
  function ToProviderRecord(e: Entry): Option<Record> {
    if !Supported(e.rrtype) then None
    else
      match Parse(e.name)
      case None => None
      case Some(n) => Some(Record(n, e.rrtype, FromTTL(e.ttl), FromRdata(e.rdata)))
  }
}
