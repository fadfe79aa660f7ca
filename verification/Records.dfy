/** internal/provider/types.go: records, zones and change sets. */
module Records {
  import opened Text
  import opened Names

  /** The types DPF knows under the name ExternalDNS uses, those only DPF knows, and any other name. */
  datatype RecordType =
    | A | AAAA | CNAME | TXT | SRV | PTR | MX | NAPTR
    | NS | SOA | CAA | DS | HTTPS | SVCB | TLSA | ANAME
    | Other(name: Text)

  /** The allow list. NS is left out on purpose. */
  predicate Supported(t: RecordType) {
    t.A? || t.AAAA? || t.CNAME? || t.TXT? || t.SRV? || t.PTR? || t.MX? || t.NAPTR?
  }

  datatype Zone = Zone(name: Name, id: Text)

  /** A TTL of 0 leaves the choice to the zone. */
  datatype Record = Record(name: Name, rtype: RecordType, ttl: int, values: seq<Text>)

  datatype ChangeSet = ChangeSet(create: seq<Record>, updateTo: seq<Record>, delete: seq<Record>) {
    predicate IsEmpty() {
      create == [] && updateTo == [] && delete == []
    }

    function Writes(): (rs: seq<Record>)
      ensures forall r :: r in rs <==> r in create || r in updateTo
    {
      create + updateTo
    }

    function All(): (rs: seq<Record>)
      ensures forall r :: r in rs <==> r in create || r in updateTo || r in delete
    {
      create + updateTo + delete
    }
  }

  const NO_CHANGES := ChangeSet([], [], [])
}
