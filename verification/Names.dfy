/** internal/dnsname/name.go: domain names that are canonical by construction. */
module Names {
  import opened Text

  /** White space that strings.TrimSpace strips. */
  predicate IsSpace(c: Octet) {
    c == ' ' || c == '\t' || c == '\n' || c == '\r' || c == '\U{0B}' || c == '\U{0C}'
  }

  function TrimLeft(s: Text): Text {
    if s != [] && IsSpace(s[0]) then TrimLeft(s[1..]) else s
  }

  function TrimRight(s: Text): Text {
    if s != [] && IsSpace(s[|s| - 1]) then TrimRight(s[..|s| - 1]) else s
  }

  function TrimSpace(s: Text): Text {
    TrimRight(TrimLeft(s))
  }

  function LowerOctet(c: Octet): Octet {
    if 'A' <= c <= 'Z' then c - 'A' + 'a' else c
  }

  /** ASCII lower-casing, section 3 of RFC 4343. */
  function Lower(s: Text): Text {
    seq(|s|, i requires 0 <= i < |s| => LowerOctet(s[i]))
  }

  /** The text ends in a dot that no backslash escapes. */
  predicate IsFqdn(s: Text) {
    if s == [] then false
    else if s[0] == '\\' then |s| >= 2 && IsFqdn(s[2..])
    else if s == "." then true
    else IsFqdn(s[1..])
  }

  function Fqdn(s: Text): Text {
    if IsFqdn(s) then s else s + "."
  }

  /** Index of the first dot that no backslash escapes, or the length when there is none. */
  function NextDot(s: Text): (i: nat)
    ensures i <= |s|
    ensures i < |s| ==> s[i] == '.'
  {
    if s == [] || s[0] == '.' then 0
    else if s[0] == '\\' && |s| >= 2 then 2 + NextDot(s[2..])
    else 1 + NextDot(s[1..])
  }

  function SplitDots(s: Text): (labels: seq<Text>)
  {
    if s == [] then []
    else
      var i := NextDot(s);
      if i == |s| then [s] else [s[..i]] + SplitDots(s[i + 1..])
  }

  /** Every label followed by a dot. */
  function Dotted(labels: seq<Text>): Text {
    if labels == [] then [] else labels[0] + "." + Dotted(labels[1..])
  }

  /** Labels with a dot between them, as strings.Join writes them. */
  function JoinDots(labels: seq<Text>): Text {
    if labels == [] then []
    else if |labels| == 1 then labels[0]
    else labels[0] + "." + JoinDots(labels[1..])
  }

  predicate IsDigit(c: Octet) {
    '0' <= c <= '9'
  }

  /** Octets a label stands for: an escape is one octet, section 5.1 of RFC 1035. */
  function LabelOctets(l: Text): nat {
    if l == [] then 0
    else if l[0] == '\\' && |l| >= 4 && IsDigit(l[1]) && IsDigit(l[2]) && IsDigit(l[3]) then
      1 + LabelOctets(l[4..])
    else if l[0] == '\\' && |l| >= 2 then 1 + LabelOctets(l[2..])
    else 1 + LabelOctets(l[1..])
  }

  /** Octets of the labels on the wire, each with its length octet. */
  function WireOctets(labels: seq<Text>): nat {
    if labels == [] then 0 else 1 + LabelOctets(labels[0]) + WireOctets(labels[1..])
  }

  function LabelsOf(canonical: Text): seq<Text> {
    if canonical == "." then [] else SplitDots(canonical)
  }

  /** The limits of section 2.3.4 of RFC 1035: labels of 1 to 63 octets, 255 octets in all. */
  predicate IsDomainName(s: Text) {
    && IsFqdn(s)
    && (forall l <- LabelsOf(s) :: l != [] && LabelOctets(l) <= 63)
    && WireOctets(LabelsOf(s)) + 1 <= 255
  }

  /** The canonical form of a text, or nothing when the text is no domain name. */
  function Canonical(s: Text): Option<Text> {
    var t := TrimSpace(s);
    if t == [] then None
    else
      var c := Lower(Fqdn(t));
      if IsDomainName(c) then Some(c) else None
  }

  datatype RawName = Name(text: Text)

  /**
   Stands in for an opaque definition. A proof mentions Look(0) where it needs to know that a name is canonical;
   everywhere else the verifier does not unfold Canonical for each name it meets.
   */
  ghost predicate Look(n: int) {
    n == n
  }

  ghost predicate IsCanonical(t: Text) {
    forall n: int {:trigger Look(n)} :: Look(n) ==> Canonical(t) == Some(t)
  }

  /** A name is either absent or its own canonical form. */
  type Name = n: RawName | n.text == [] || IsCanonical(n.text)
    witness RawName.Name([])

  const NO_NAME: Name := RawName.Name([])

  lemma NameIsCanonical(n: Name)
    requires !IsZero(n)
    ensures Canonical(n.text) == Some(n.text)
  {
    assert Look(0);
  }

  predicate IsZero(n: Name) {
    n.text == []
  }

  /** The only way to make a present name. */
  function Parse(s: Text): (r: Option<Name>)
    ensures r.Some? ==> !IsZero(r.value)
    ensures r.None? <==> Canonical(s).None?
  {
    match Canonical(s)
    case None => None
    case Some(c) =>
      CanonicalIsFixed(s);
      Some(RawName.Name(c))
  }

  function Labels(n: Name): seq<Text> {
    if IsZero(n) then [] else LabelsOf(n.text)
  }

  function CountLabel(n: Name): nat {
    |Labels(n)|
  }

  function Unqualified(n: Name): Text {
    JoinDots(Labels(n))
  }

  predicate IsRoot(n: Name) {
    n.text == "."
  }

  // ----- Canonical forms are stable -----

  lemma LowerKeepsFqdn(s: Text)
    ensures IsFqdn(Lower(s)) == IsFqdn(s)
  {
    if s != [] {
      assert Lower(s)[1..] == Lower(s[1..]);
      LowerKeepsFqdn(s[1..]);
      if |s| >= 2 {
        assert Lower(s)[2..] == Lower(s[2..]);
        LowerKeepsFqdn(s[2..]);
      }
      assert Lower(s) == "." <==> s == "." by {
        if Lower(s) == "." {
          assert |s| == 1 && Lower(s)[0] == LowerOctet(s[0]);
        }
      }
    }
  }

  lemma {:induction false} FqdnEndsInDot(s: Text)
    requires IsFqdn(s)
    ensures s != [] && s[|s| - 1] == '.'
  {
    if s[0] == '\\' {
      FqdnEndsInDot(s[2..]);
    } else if s != "." {
      FqdnEndsInDot(s[1..]);
    }
  }

  predicate Trimmed(s: Text) {
    s == [] || (!IsSpace(s[0]) && !IsSpace(s[|s| - 1]))
  }

  lemma TrimSpaceFixesTrimmed(s: Text)
    requires Trimmed(s)
    ensures TrimSpace(s) == s
  {
  }

  lemma TrimLeftDropsSpace(s: Text)
    ensures TrimLeft(s) == [] || !IsSpace(TrimLeft(s)[0])
  {
  }

  lemma TrimRightShortens(s: Text)
    ensures TrimRight(s) <= s
    ensures TrimRight(s) == [] || !IsSpace(TrimRight(s)[|TrimRight(s)| - 1])
    ensures s != [] && IsSpace(s[|s| - 1]) ==> |TrimRight(s)| < |s|
  {
    if s != [] && IsSpace(s[|s| - 1]) {
      TrimRightShortens(s[..|s| - 1]);
    }
  }

  lemma TrimSpaceTrims(s: Text)
    ensures Trimmed(TrimSpace(s))
  {
    TrimLeftDropsSpace(s);
    TrimRightShortens(TrimLeft(s));
  }

  /** Reading a canonical form again yields the same canonical form. */
  lemma CanonicalIsFixed(s: Text)
    requires Canonical(s).Some?
    ensures Canonical(s).value != []
    ensures Canonical(Canonical(s).value) == Canonical(s)
  {
    var t := TrimSpace(s);
    TrimSpaceTrims(s);
    var f := Fqdn(t);
    var c := Lower(f);
    assert f[0] == t[0];
    LowerKeepsFqdn(f);
    FqdnEndsInDot(c);
    assert c[0] == LowerOctet(f[0]);
    TrimSpaceFixesTrimmed(c);
    assert Lower(c) == c;
  }

  // ----- Splitting and joining -----

  lemma NextDotOfFqdn(s: Text)
    requires IsFqdn(s)
    ensures NextDot(s) < |s|
    ensures var rest := s[NextDot(s) + 1..]; rest == [] || IsFqdn(rest)
  {
    if s[0] == '\\' {
      NextDotOfFqdn(s[2..]);
      assert s[2..][NextDot(s[2..]) + 1..] == s[NextDot(s) + 1..];
    } else if s[0] != '.' {
      NextDotOfFqdn(s[1..]);
      assert s[1..][NextDot(s[1..]) + 1..] == s[NextDot(s) + 1..];
    }
  }

  lemma {:induction false} DottedUndoesSplit(s: Text)
    requires IsFqdn(s)
    ensures SplitDots(s) != []
    ensures Dotted(SplitDots(s)) == s
  {
    NextDotOfFqdn(s);
    var i := NextDot(s);
    var rest := s[i + 1..];
    assert s == s[..i] + "." + rest;
    if rest != [] {
      DottedUndoesSplit(rest);
    }
  }

  lemma {:induction false} JoinIsDottedWithoutLastDot(labels: seq<Text>)
    requires labels != []
    ensures Dotted(labels) == JoinDots(labels) + "."
  {
    if |labels| > 1 {
      JoinIsDottedWithoutLastDot(labels[1..]);
    }
  }

  lemma UnqualifiedDropsTheLastDot(n: Name)
    requires !IsZero(n) && !IsRoot(n)
    ensures n.text == Unqualified(n) + "."
  {
    NameIsCanonical(n);
    DottedUndoesSplit(n.text);
    JoinIsDottedWithoutLastDot(Labels(n));
  }

  /** Two present names with the same labels are the same name. */
  lemma LabelsDetermineName(a: Name, b: Name)
    requires !IsZero(a) && !IsZero(b)
    requires Labels(a) == Labels(b)
    ensures a == b
  {
    NameIsCanonical(a);
    NameIsCanonical(b);
    DottedUndoesSplit(a.text);
    DottedUndoesSplit(b.text);
  }

  /** The name has a last label, and it does not end in white space. */
  predicate ReadsBack(n: Name) {
    var u := Unqualified(n);
    u != [] && !IsSpace(u[|u| - 1])
  }

  lemma PresentNameShape(n: Name)
    requires !IsZero(n)
    ensures IsDomainName(n.text) && Lower(n.text) == n.text && Trimmed(n.text)
  {
    NameIsCanonical(n);
    var t := TrimSpace(n.text);
    TrimSpaceTrims(n.text);
    var f := Fqdn(t);
    assert n.text == Lower(f) && f[0] == t[0];
    assert n.text[0] == LowerOctet(f[0]);
    FqdnEndsInDot(n.text);
    assert Lower(n.text) == n.text;
  }

  lemma SplitDotsAt(s: Text, i: nat)
    requires i == NextDot(s) < |s|
    ensures SplitDots(s) == [s[..i]] + SplitDots(s[i + 1..])
  {
  }

  lemma SplitLoneDot(s: Text)
    requires s == ['.']
    ensures SplitDots(s) == [[]]
  {
    SplitDotsAt(s, 0);
    assert s[..0] == [] && s[1..] == [];
    assert SplitDots([]) == [];
  }

  /** A label that ends in a dot nobody escaped would be followed by an empty label. */
  lemma {:induction false} NoFqdnBeforeTheLastDot(u: Text)
    requires IsFqdn(u)
    ensures [] in SplitDots(u + ".")
  {
    hide SplitDots, NextDot, IsFqdn;
    var s, i := u + ".", NextDot(u);
    NextDotOfFqdn(u);
    NextDotOfPrefix(u);
    SplitDotsAt(s, i);
    assert s[i + 1..] == u[i + 1..] + ".";
    if i + 1 == |u| {
      SplitLoneDot(s[i + 1..]);
    } else {
      NoFqdnBeforeTheLastDot(u[i + 1..]);
    }
  }

  lemma {:induction false} NextDotOfPrefix(u: Text)
    requires IsFqdn(u)
    ensures NextDot(u + ".") == NextDot(u)
    ensures IsFqdn(u + ".")
  {
    var s := u + ".";
    if u[0] == '\\' {
      assert s[2..] == u[2..] + ".";
      NextDotOfPrefix(u[2..]);
    } else if u == "." {
      assert s[1..] == ".";
    } else {
      assert s[1..] == u[1..] + ".";
      NextDotOfPrefix(u[1..]);
    }
  }

  /**
   The spelling sent to ExternalDNS reads back as the same name
   exactly when the last label exists and does not end in white space.
   */
  lemma UnqualifiedReadsBack(n: Name)
    ensures Parse(Unqualified(n)) == Some(n) <==> ReadsBack(n)
  {
    hide IsFqdn;
    if IsZero(n) || IsRoot(n) {
      assert Unqualified(n) == [];
    } else {
      var u := Unqualified(n);
      NameIsCanonical(n);
      PresentNameShape(n);
      UnqualifiedDropsTheLastDot(n);
      assert u != [] by { assert n.text != "."; }
      assert n.text == u + ".";
      assert u[0] == n.text[0];
      if ReadsBack(n) {
        TrimSpaceFixesTrimmed(u);
        if IsFqdn(u) {
          NoFqdnBeforeTheLastDot(u);
          assert false;
        }
      } else {
        assert TrimLeft(u) == u;
        TrimRightShortens(u);
        assert |TrimSpace(u)| < |u|;
        if Parse(u).Some? {
          assert |Parse(u).value.text| <= |TrimSpace(u)| + 1;
        }
      }
    }
  }

  // ----- Names that do not read back -----

  lemma {:induction false} PlainLabelShape(l: Text)
    requires l != [] && '\\' !in l && '.' !in l
    ensures IsFqdn(l + ".") && NextDot(l + ".") == |l| && LabelOctets(l) == |l|
  {
    var rest := l[1..];
    assert l == [l[0]] + rest;
    assert (l + ".")[1..] == rest + ".";
    if rest == [] {
      assert IsFqdn(".") && NextDot(".") == 0 && LabelOctets(rest) == 0;
      assert (l + ".")[1..] == ".";
    } else {
      PlainLabelShape(rest);
    }
  }

  /** One label without dots and backslashes, and the dot that ends a full name, is a name in lower case. */
  lemma PlainLabelIsName(l: Text)
    requires l != [] && '\\' !in l && '.' !in l && |l| <= 63 && !IsSpace(l[0])
    ensures Canonical(l + ".") == Some(Lower(l) + ".")
  {
    var s, c := l + ".", Lower(l) + ".";
    forall i | 0 <= i < |l| ensures Lower(l)[i] != '\\' && Lower(l)[i] != '.' {
      assert l[i] in l;
    }
    PlainLabelShape(l);
    PlainLabelShape(Lower(l));
    assert SplitDots(c) == [Lower(l)] by {
      assert c[..|l|] == Lower(l) && c[|l| + 1..] == [];
    }
    assert WireOctets([Lower(l)]) == 1 + |l| by {
      assert [Lower(l)][1..] == [];
    }
    assert c != ".";
    assert TrimLeft(s) == s && TrimRight(s) == s;
    assert Lower(s) == c;
  }

  /** A name of one letter. */
  lemma SmallName(c: Octet) returns (n: Name)
    requires 'a' <= c <= 'z'
    ensures n.text == [c, '.'] && !IsZero(n)
  {
    var l: Text := [c];
    PlainLabelIsName(l);
    assert Lower(l) == l;
    n := Parse(l + ".").value;
  }

  /** The name A. is known under another spelling. */
  lemma CapitalName() returns (name: Text)
    ensures name == "A." && Canonical(name) == Some("a.")
  {
    var l: Text := ['A'];
    PlainLabelIsName(l);
    assert Lower(l) == ['a'];
    assert Lower(l) + "." == "a.";
    name := l + ".";
  }

  lemma RootShape(root: Text)
    requires root == ['.']
    ensures Canonical(root) == Some(root)
  {
    assert TrimLeft(root) == root && TrimRight(root) == root;
    assert Lower(root) == root;
  }

  /** The root is sent without any label, and nothing is read from that. */
  lemma RootDoesNotReadBack() returns (n: Name)
    ensures n.text == "." && !IsZero(n) && Unqualified(n) == [] && Parse(Unqualified(n)).None?
  {
    var root: Text := ['.'];
    RootShape(root);
    n := Parse(root).value;
    UnqualifiedReadsBack(n);
  }

  /** A label that ends in a blank is sent without the dot that protected the blank, and is read without the blank. */
  lemma BlankIsLost(l: Text, trimmed: Text) returns (n: Name, m: Name)
    requires l == trimmed + [' '] && |trimmed| == 1 && Lower(l) == l
    requires !IsSpace(trimmed[0]) && trimmed[0] != '.' && trimmed[0] != '\\'
    ensures n.text == l + "." && !IsZero(n) && Unqualified(n) == l
    ensures Parse(Unqualified(n)) == Some(m) && m.text == trimmed + "."
  {
    PlainLabelIsName(l);
    n := Parse(l + ".").value;
    UnqualifiedDropsTheLastDot(n);
    assert Unqualified(n) == n.text[..|l|] == l;
    assert trimmed == l[..1] && Lower(trimmed) == Lower(l)[..1];
    PlainLabelIsName(trimmed);
    PlainLabelTrims(l, trimmed);
    m := Parse(l).value;
  }

  lemma TrailingBlankDoesNotReadBack() returns (n: Name, m: Name)
    ensures n.text == "a ." && Parse(Unqualified(n)) == Some(m) && m.text == "a."
  {
    hide Parse, Unqualified;
    var l := LowerText(['a', ' ']);
    var trimmed := LowerText(['a']);
    n, m := BlankIsLost(l, trimmed);
    assert n.text == "a .";
  }

  lemma LowerText(s: Text) returns (l: Text)
    requires forall c <- s :: !('A' <= c <= 'Z')
    ensures l == s && Lower(l) == l
  {
    l := s;
    forall i | 0 <= i < |l| ensures Lower(l)[i] == l[i] {
      assert l[i] in s;
    }
  }

  lemma PlainLabelTrims(l: Text, trimmed: Text)
    requires l == trimmed + [' '] && |trimmed| == 1 && !IsSpace(trimmed[0]) && trimmed[0] != '.' && trimmed[0] != '\\'
    ensures Canonical(l) == Canonical(trimmed + ".")
  {
    assert l[..1] == trimmed;
    assert TrimLeft(l) == l && TrimRight(trimmed) == trimmed;
    assert TrimRight(l) == trimmed;
    assert trimmed[1..] == [];
    assert !IsFqdn(trimmed);
    assert Fqdn(trimmed) == trimmed + ".";
    var s := trimmed + ".";
    assert s[1..] == ['.'];
    assert TrimLeft(s) == s && TrimRight(s) == s;
    assert IsFqdn(s);
  }
}
