/** What validation accepts, said about the texts of names and values. */
module ValidateLaws {
  import opened Text
  import opened Seqs
  import opened Names
  import opened Records
  import opened Validate
  import Txt

  // ----- Words -----

  predicate IsWord(w: Text) {
    w != [] && forall c <- w :: c as int != 32 && !(9 <= c as int <= 13)
  }

  /** Words with one blank between them. */
  function Spaced(ws: seq<Text>): Text {
    if ws == [] then [] else if |ws| == 1 then ws[0] else ws[0] + (" " + Spaced(ws[1..]))
  }

  lemma SpacedCons(w: Text, ws: seq<Text>)
    requires ws != []
    ensures Spaced([w] + ws) == w + (" " + Spaced(ws))
  {
    assert ([w] + ws)[1..] == ws;
  }

  lemma SpacedOne(w: Text)
    ensures Spaced([w]) == w
  {
  }

  lemma {:induction false} WordOf(w: Text, rest: Text)
    requires forall c <- w :: c as int != 32 && !(9 <= c as int <= 13)
    requires rest == [] || rest[0] == ' '
    ensures Word(w + rest) == |w|
  {
    if w == [] {
      assert w + rest == rest;
    } else {
      assert w[0] in w && forall c <- w[1..] :: c in w;
      assert (w + rest)[1..] == w[1..] + rest;
      WordOf(w[1..], rest);
    }
  }

  lemma {:induction false} FieldsOfWord(w: Text, rest: Text)
    requires IsWord(w) && (rest == [] || rest[0] == ' ')
    ensures Fields(w + rest) == [w] + Fields(rest)
  {
    hide Word;
    var s := w + rest;
    WordOf(w, rest);
    assert w[0] in w && s[0] == w[0];
    assert s[..|w|] == w && s[|w|..] == rest;
  }

  lemma FieldsPastBlank(s: Text)
    ensures Fields(" " + s) == Fields(s)
  {
    assert (" " + s)[1..] == s;
  }

  lemma {:induction false} FieldsOfSpaced(ws: seq<Text>)
    requires forall w <- ws :: IsWord(w)
    ensures Fields(Spaced(ws)) == ws
  {
    if ws != [] {
      hide Fields, IsWord;
      var w, rest := ws[0], ws[1..];
      HeadTail(ws);
      FieldsOfSpaced(rest);
      if rest == [] {
        FieldsOfWord(w, []);
        assert w + [] == w;
      } else {
        FieldsOfWord(w, " " + Spaced(rest));
        FieldsPastBlank(Spaced(rest));
      }
    }
    assert Fields([]) == [];
  }

  // ----- Numbers -----

  /** A number as strconv.Itoa writes it. */
  function Itoa(n: nat): Text {
    if n < 10 then [(48 + n) as char] else Itoa(n / 10) + [(48 + n % 10) as char]
  }

  lemma {:induction false} DigitsOfItoa(n: nat)
    ensures Itoa(n) != [] && forall c <- Itoa(n) :: 48 <= c as int <= 57
    ensures DigitsValue(Itoa(n)) == Some(n)
  {
    var s := Itoa(n);
    if n < 10 {
      assert s[..0] == [];
    } else {
      DigitsOfItoa(n / 10);
      assert s[..|s| - 1] == Itoa(n / 10);
    }
  }

  /** A number is a field of 16 bits when it fits in them. */
  lemma ItoaIsNumericIff(n: nat)
    ensures IsWord(Itoa(n)) && Atoi(Itoa(n)) == Some(n)
    ensures NumericField(Itoa(n)) <==> n <= 65535
  {
    hide Itoa, Atoi;
    DigitsOfItoa(n);
    AtoiOfDigits(Itoa(n));
  }

  lemma AtoiOfDigits(s: Text)
    requires s != [] && forall c <- s :: 48 <= c as int <= 57
    ensures Atoi(s) == match DigitsValue(s) case None => None case Some(n) => Some(n)
  {
    hide DigitsValue;
    assert s[0] in s;
  }

  /** A sign may stand before the digits. */
  lemma AtoiOfSigned(n: nat)
    ensures Atoi("+" + Itoa(n)) == Some(n)
    ensures Atoi("-" + Itoa(n)).Some? && Atoi("-" + Itoa(n)).value + n == 0
  {
    hide Itoa, DigitsValue;
    var s := Itoa(n);
    DigitsOfItoa(n);
    assert ("+" + s)[1..] == s && ("-" + s)[1..] == s;
  }

  // ----- Records -----

  lemma NumericPrefixOfWords(ws: seq<Text>, n: nat, want: nat)
    requires n <= want && forall w <- ws :: IsWord(w)
    ensures NumericPrefix(Spaced(ws), n, want) <==> |ws| == want && forall i | 0 <= i < n :: NumericField(ws[i])
  {
    FieldsOfSpaced(ws);
  }

  /** An MX value is a preference and a host, and the preference has 16 bits. */
  lemma MxAcceptedIff(r: Record, preference: nat, host: Text)
    requires r.rtype.MX? && TtlAccepted(r.ttl) && IsWord(host)
    requires r.values == [Itoa(preference) + (" " + host)]
    ensures RecordError(r) == if preference <= 65535 then None else Some(Permanent(BadNumericField))
  {
    hide NumericField, IsWord, Itoa, Fields;
    var ws := [Itoa(preference), host];
    ItoaIsNumericIff(preference);
    SpacedCons(Itoa(preference), [host]);
    assert [Itoa(preference)] + [host] == ws;
    NumericPrefixOfWords(ws, 1, 2);
  }

  /** An SRV value is priority, weight, port and host, and the three numbers have 16 bits each. */
  lemma SrvAcceptedIff(r: Record, priority: nat, weight: nat, port: nat, host: Text)
    requires r.rtype.SRV? && TtlAccepted(r.ttl) && IsWord(host)
    requires r.values == [Itoa(priority) + (" " + (Itoa(weight) + (" " + (Itoa(port) + (" " + host)))))]
    ensures RecordError(r) ==
            if priority <= 65535 && weight <= 65535 && port <= 65535 then None else Some(Permanent(BadNumericField))
  {
    hide NumericField, IsWord, Itoa, Fields, Spaced, TtlAccepted;
    SpacedOne(host);
    var ws := [Itoa(priority), Itoa(weight), Itoa(port), host];
    ItoaIsNumericIff(priority);
    ItoaIsNumericIff(weight);
    ItoaIsNumericIff(port);
    SpacedCons(Itoa(priority), [Itoa(weight), Itoa(port), host]);
    SpacedCons(Itoa(weight), [Itoa(port), host]);
    SpacedCons(Itoa(port), [host]);
    assert [Itoa(port)] + [host] == [Itoa(port), host];
    assert [Itoa(weight)] + [Itoa(port), host] == [Itoa(weight), Itoa(port), host];
    assert [Itoa(priority)] + [Itoa(weight), Itoa(port), host] == ws;
    NumericPrefixOfWords(ws, 3, 4);
    assert NumericField(ws[0]) && NumericField(ws[1]) && NumericField(ws[2]) <==>
           priority <= 65535 && weight <= 65535 && port <= 65535;
  }

  // ----- Underscores -----

  lemma {:induction false} OctetOfDotted(labels: seq<Text>, c: Octet)
    requires c != '.'
    ensures c in Dotted(labels) <==> exists l <- labels :: c in l
  {
    if labels != [] {
      OctetOfDotted(labels[1..], c);
      HeadTail(labels);
    }
  }

  lemma UnderscoreInText(n: Name)
    ensures '_' in n.text <==> exists l <- Labels(n) :: '_' in l
  {
    hide SplitDots, Dotted;
    if !IsZero(n) && !IsRoot(n) {
      PresentNameShape(n);
      DottedUndoesSplit(n.text);
      OctetOfDotted(Labels(n), '_');
    }
  }

  /** The conditions on one record of a supported type, apart from those on numbers in MX and SRV values. */
  lemma RecordAcceptedIff(r: Record)
    requires Supported(r.rtype) && !r.rtype.MX? && !r.rtype.SRV?
    ensures RecordError(r).None? <==>
            && (r.ttl == 0 || 1 <= r.ttl <= 0x7fff_ffff)
            && (r.rtype.A? || r.rtype.AAAA? ==> '_' !in r.name.text)
            && (r.rtype.CNAME? ==> |r.values| == 1)
            && (r.rtype.TXT? ==> forall v <- r.values :: Txt.ParseTXT(v).Some?)
  {
    hide Labels, IsZero;
    UnderscoreInText(r.name);
  }
}
