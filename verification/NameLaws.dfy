/** What parsing a name does to the text it is given, said about the octets of the text. */
module NameLaws {
  import opened Text
  import opened Seqs
  import opened Names
  import opened Txt
  import opened TxtLaws

  // ----- White space around a name and the dot behind it -----

  predicate White(c: Octet) {
    c as int == 32 || 9 <= c as int <= 13
  }

  predicate AllWhite(s: Text) {
    forall c <- s :: White(c)
  }

  lemma {:induction false} TrimLeftCuts(s: Text) returns (before: Text)
    ensures s == before + TrimLeft(s) && AllWhite(before)
  {
    before := [];
    if s != [] && IsSpace(s[0]) {
      var rest := TrimLeftCuts(s[1..]);
      HeadTail(s);
      before := [s[0]] + rest;
      ConcatAssociates([s[0]], rest, TrimLeft(s[1..]));
    }
  }

  lemma {:induction false} TrimRightCuts(s: Text) returns (after: Text)
    ensures s == TrimRight(s) + after && AllWhite(after)
  {
    after := [];
    if s != [] && IsSpace(s[|s| - 1]) {
      var front, last := s[..|s| - 1], s[|s| - 1];
      var rest := TrimRightCuts(front);
      after := rest + [last];
      ConcatAssociates(TrimRight(front), rest, [last]);
    }
  }

  /** Trimming takes white space off both ends, all of it, and nothing else. */
  lemma TrimSpaceCuts(s: Text) returns (before: Text, after: Text)
    ensures s == before + TrimSpace(s) + after && AllWhite(before) && AllWhite(after)
    ensures var t := TrimSpace(s); t == [] || (!White(t[0]) && !White(t[|t| - 1]))
  {
    before := TrimLeftCuts(s);
    after := TrimRightCuts(TrimLeft(s));
    ConcatAssociates(before, TrimSpace(s), after);
    TrimSpaceTrims(s);
  }

  /** Backslashes at the end of a text. */
  function Backslashes(s: Text): (n: nat)
    ensures n <= |s|
  {
    if s == [] || s[|s| - 1] != '\\' then 0 else 1 + Backslashes(s[..|s| - 1])
  }

  lemma {:induction false} BackslashesCons(c: Octet, s: Text)
    ensures Backslashes([c] + s) ==
            if Backslashes(s) == |s| && c == '\\' then 1 + |s| else Backslashes(s)
  {
    var t := [c] + s;
    if s == [] {
      assert t[..0] == [];
    } else {
      assert t[..|t| - 1] == [c] + s[..|s| - 1];
      BackslashesCons(c, s[..|s| - 1]);
    }
  }

  lemma FqdnPastFirst(c: Octet, tail: Text)
    requires c != '\\' && tail != []
    ensures IsFqdn([c] + tail) == IsFqdn(tail)
  {
    assert ([c] + tail)[1..] == tail;
  }

  lemma {:induction false} BackslashesPair(c: Octet, s: Text)
    ensures Backslashes(['\\', c] + s) % 2 == Backslashes(s) % 2
  {
    hide Backslashes;
    assert ['\\', c] + s == ['\\'] + ([c] + s);
    BackslashesCons('\\', [c] + s);
    BackslashesCons(c, s);
  }

  /** A dot with an even number of backslashes before it. */
  predicate EndsLabel(s: Text) {
    s != [] && s[|s| - 1] == '.' && Backslashes(s[..|s| - 1]) % 2 == 0
  }

  lemma EndsLabelPastFirst(c: Octet, tail: Text)
    requires tail != [] && c != '\\'
    ensures EndsLabel([c] + tail) == EndsLabel(tail)
  {
    hide Backslashes;
    var s := [c] + tail;
    assert s[..|s| - 1] == [c] + tail[..|tail| - 1];
    BackslashesCons(c, tail[..|tail| - 1]);
  }

  lemma EndsLabelPastPair(c: Octet, tail: Text)
    requires tail != []
    ensures EndsLabel(['\\', c] + tail) == EndsLabel(tail)
  {
    hide Backslashes;
    var s := ['\\', c] + tail;
    assert s[..|s| - 1] == ['\\', c] + tail[..|tail| - 1];
    BackslashesPair(c, tail[..|tail| - 1]);
  }

  /** The dot at the end counts unless an odd number of backslashes stands before it. */
  lemma {:induction false} FqdnIff(s: Text)
    ensures IsFqdn(s) <==> EndsLabel(s)
  {
    if |s| > 1 && s[0] != '\\' {
      hide IsFqdn, EndsLabel;
      HeadTail(s);
      FqdnIff(s[1..]);
      FqdnPastFirst(s[0], s[1..]);
      EndsLabelPastFirst(s[0], s[1..]);
    } else if |s| > 2 {
      hide IsFqdn, EndsLabel;
      assert s == ['\\', s[1]] + s[2..];
      FqdnIff(s[2..]);
      EscapeShape(s[1], s[2..]);
      EndsLabelPastPair(s[1], s[2..]);
    } else if |s| == 2 {
      assert s[..1] == ['\\'] && Backslashes(['\\'][..0]) == 0;
    }
  }

  // ----- Case -----

  predicate Capital(c: Octet) {
    65 <= c as int <= 90
  }

  predicate SameLetter(c: Octet, d: Octet) {
    c == d || (Capital(c) && d as int == c as int + 32) || (Capital(d) && c as int == d as int + 32)
  }

  predicate SameUpToCase(a: Text, b: Text) {
    |a| == |b| && forall i | 0 <= i < |a| :: SameLetter(a[i], b[i])
  }

  predicate NoCapital(s: Text) {
    forall c <- s :: !Capital(c)
  }

  lemma LowerIffSameLetter(c: Octet, d: Octet)
    ensures LowerOctet(c) == LowerOctet(d) <==> SameLetter(c, d)
  {
  }

  lemma LowerIffSame(a: Text, b: Text)
    ensures Lower(a) == Lower(b) <==> SameUpToCase(a, b)
  {
    if Lower(a) == Lower(b) {
      assert |a| == |Lower(a)| == |b|;
      forall i | 0 <= i < |a| ensures SameLetter(a[i], b[i]) {
        assert Lower(a)[i] == Lower(b)[i];
        LowerIffSameLetter(a[i], b[i]);
      }
    }
  }

  lemma LowerIsSame(s: Text)
    ensures SameUpToCase(Lower(s), s) && NoCapital(Lower(s))
  {
  }

  /** The text that stands for a name, with the dot at the end that may be left out. */
  function Core(s: Text): Text {
    Fqdn(TrimSpace(s))
  }

  /** Two texts are read as one name exactly when they differ in case, surrounding white space and last dot only. */
  lemma SameNameIff(a: Text, b: Text)
    requires Parse(a).Some?
    ensures Parse(b) == Parse(a) <==> TrimSpace(b) != [] && SameUpToCase(Core(a), Core(b))
  {
    hide IsDomainName, TrimSpace, Fqdn;
    LowerIffSame(Core(a), Core(b));
  }

  // ----- Which texts are names -----

  /** One octet of a label as a name spells it: a dot or a backslash needs an escape, a digit has none of its own. */
  predicate InLabel(u: Unit) {
    match u
    case Plain(c) => c != '.' && c != '\\'
    case Escaped(c) => !IsDigit(c)
    case Decimal(_, _, _) => true
  }

  predicate IsLabel(us: seq<Unit>) {
    us != [] && forall u <- us :: InLabel(u)
  }

  lemma OrdinaryShape(c: Octet, tail: Text)
    requires c != '.' && c != '\\'
    ensures NextDot([c] + tail) == 1 + NextDot(tail)
    ensures IsFqdn([c] + tail) == IsFqdn(tail)
    ensures LabelOctets([c] + tail) == 1 + LabelOctets(tail)
  {
    assert ([c] + tail)[1..] == tail;
  }

  lemma EscapeShape(c: Octet, tail: Text)
    ensures NextDot(['\\', c] + tail) == 2 + NextDot(tail)
    ensures IsFqdn(['\\', c] + tail) == IsFqdn(tail)
    ensures !IsDigit(c) ==> LabelOctets(['\\', c] + tail) == 1 + LabelOctets(tail)
  {
    assert (['\\', c] + tail)[2..] == tail;
  }

  lemma DecimalShape(h: Digit, t: Digit, o: Digit, tail: Text)
    ensures NextDot(['\\', h, t, o] + tail) == 4 + NextDot(tail)
    ensures IsFqdn(['\\', h, t, o] + tail) == IsFqdn(tail)
    ensures LabelOctets(['\\', h, t, o] + tail) == 1 + LabelOctets(tail)
  {
    hide NextDot, IsFqdn;
    var s := ['\\', h, t, o] + tail;
    assert s == ['\\', h] + ([t] + ([o] + tail));
    EscapeShape(h, [t] + ([o] + tail));
    OrdinaryShape(t, [o] + tail);
    OrdinaryShape(o, tail);
    assert s[4..] == tail;
  }

  lemma {:induction false} UnitShape(u: Unit, tail: Text)
    requires InLabel(u)
    ensures var s := SpellingOf(u) + tail;
            && NextDot(s) == |SpellingOf(u)| + NextDot(tail)
            && LabelOctets(s) == 1 + LabelOctets(tail)
            && IsFqdn(s) == IsFqdn(tail)
  {
    hide NextDot, IsFqdn, LabelOctets;
    match u {
      case Plain(c) => OrdinaryShape(c, tail);
      case Escaped(c) => EscapeShape(c, tail);
      case Decimal(h, t, o) => DecimalShape(h, t, o, tail);
    }
  }

  /** The text of a label ends nowhere but at its end. */
  lemma {:induction false} LabelShape(us: seq<Unit>, tail: Text)
    requires forall u <- us :: InLabel(u)
    ensures var s := Spell(us) + tail;
            && NextDot(s) == |Spell(us)| + NextDot(tail)
            && LabelOctets(s) == |us| + LabelOctets(tail)
            && IsFqdn(s) == IsFqdn(tail)
  {
    hide NextDot, IsFqdn, LabelOctets;
    if us == [] {
      assert Spell(us) + tail == tail;
    } else {
      hide Spell, SpellingOf;
      var u, rest := us[0], us[1..];
      HeadTail(us);
      LabelShape(rest, tail);
      SpellCons(u, rest);
      ConcatAssociates(SpellingOf(u), Spell(rest), tail);
      UnitShape(u, Spell(rest) + tail);
    }
  }

  /** Labels in the spelling of their units. */
  function Texts(labels: seq<seq<Unit>>): seq<Text> {
    Map(Spell, labels)
  }

  /** Octets on the wire: each label behind its length. */
  function Size(labels: seq<seq<Unit>>): nat {
    if labels == [] then 0 else 1 + |labels[0]| + Size(labels[1..])
  }

  predicate AreLabels(labels: seq<seq<Unit>>) {
    forall l <- labels :: IsLabel(l)
  }

  lemma SpelledLabel(us: seq<Unit>, tail: Text)
    requires IsLabel(us)
    ensures Spell(us) != []
    ensures LabelOctets(Spell(us)) == |us|
    ensures !IsFqdn(Spell(us))
    ensures NextDot(Spell(us) + ("." + tail)) == |Spell(us)|
    ensures IsFqdn(Spell(us) + ("." + tail)) == (tail == [] || IsFqdn(tail))
  {
    hide Spell;
    LabelShape(us, []);
    assert Spell(us) + [] == Spell(us);
    LabelShape(us, "." + tail);
    assert ("." + tail)[1..] == tail;
    assert LabelOctets([]) == 0;
  }

  lemma TextsTail(labels: seq<seq<Unit>>)
    requires labels != []
    ensures Texts(labels)[0] == Spell(labels[0]) && Texts(labels)[1..] == Texts(labels[1..])
  {
  }

  /** Labels with a dot behind each of them are split where they were joined. */
  lemma {:induction false} DottedIsSplit(labels: seq<seq<Unit>>)
    requires AreLabels(labels)
    ensures var s := Dotted(Texts(labels));
            && SplitDots(s) == Texts(labels)
            && (labels != [] ==> IsFqdn(s))
            && WireOctets(Texts(labels)) == Size(labels)
  {
    if labels != [] {
      hide Spell, SplitDots, NextDot, IsFqdn, LabelOctets;
      var l, rest := labels[0], labels[1..];
      var tail := Dotted(Texts(rest));
      var s := Dotted(Texts(labels));
      TextsTail(labels);
      DottedIsSplit(rest);
      ConcatAssociates(Spell(l), ".", tail);
      SpelledLabel(l, tail);
      assert s == Spell(l) + ("." + tail);
      SplitDotsAt(s, |Spell(l)|);
      assert s[..|Spell(l)|] == Spell(l) && s[|Spell(l)| + 1..] == tail;
      assert Texts(labels) == [Spell(l)] + Texts(rest);
    } else {
      assert SplitDots([]) == [];
    }
  }

  // ----- Lower case does not move a label's end -----

  function LowerUnit(u: Unit): Unit {
    match u
    case Plain(c) => Plain(LowerOctet(c))
    case Escaped(c) => Escaped(LowerOctet(c))
    case Decimal(_, _, _) => u
  }

  function LowerUnits(us: seq<Unit>): seq<Unit> {
    Map(LowerUnit, us)
  }

  lemma LowerConcat(a: Text, b: Text)
    ensures Lower(a + b) == Lower(a) + Lower(b)
  {
  }

  lemma LowerSpelling(u: Unit)
    ensures Lower(SpellingOf(u)) == SpellingOf(LowerUnit(u))
    ensures InLabel(u) ==> InLabel(LowerUnit(u))
  {
    if u.Decimal? {
      assert IsDigit(u.hundreds) && IsDigit(u.tens) && IsDigit(u.ones);
    }
  }

  lemma {:induction false} LowerSpell(us: seq<Unit>)
    ensures Lower(Spell(us)) == Spell(LowerUnits(us))
  {
    if us != [] {
      hide SpellingOf, Spell;
      var u, rest := us[0], us[1..];
      HeadTail(us);
      LowerSpell(rest);
      SpellCons(u, rest);
      assert LowerUnits(us) == [LowerUnit(u)] + LowerUnits(rest);
      SpellCons(LowerUnit(u), LowerUnits(rest));
      LowerConcat(SpellingOf(u), Spell(rest));
      LowerSpelling(u);
    }
  }

  function LowerLabels(labels: seq<seq<Unit>>): seq<seq<Unit>> {
    Map(LowerUnits, labels)
  }

  lemma LowerIsLabel(us: seq<Unit>)
    requires IsLabel(us)
    ensures IsLabel(LowerUnits(us))
  {
    forall u <- LowerUnits(us) ensures InLabel(u) {
      var i :| 0 <= i < |us| && LowerUnits(us)[i] == u;
      LowerSpelling(us[i]);
    }
  }

  lemma LowerLabel(l: Text, rest: Text)
    ensures Lower(l + "." + rest) == Lower(l) + "." + Lower(rest)
  {
    LowerConcat(l + ".", rest);
    LowerConcat(l, ".");
  }

  lemma {:induction false} LowerLabelsShape(labels: seq<seq<Unit>>)
    requires AreLabels(labels)
    ensures AreLabels(LowerLabels(labels)) && Size(LowerLabels(labels)) == Size(labels)
    ensures Lower(Dotted(Texts(labels))) == Dotted(Texts(LowerLabels(labels)))
  {
    if labels != [] {
      hide Spell, LowerUnits, Lower, IsLabel;
      var l, rest := labels[0], labels[1..];
      var lows := LowerLabels(labels);
      LowerLabelsShape(rest);
      TextsTail(labels);
      TextsTail(lows);
      assert lows[1..] == LowerLabels(rest) && lows == [lows[0]] + lows[1..];
      LowerSpell(l);
      LowerLabel(Spell(l), Dotted(Texts(rest)));
      LowerIsLabel(l);
      LowerUnitsLength(l);
    }
  }

  lemma LowerUnitsLength(us: seq<Unit>)
    ensures |LowerUnits(us)| == |us|
  {
  }

  // ----- The dot behind the last label may be left out -----

  lemma {:induction false} JoinedIsOpen(labels: seq<seq<Unit>>)
    requires labels != [] && AreLabels(labels)
    ensures var s := JoinDots(Texts(labels)); s != [] && !IsFqdn(s) && Dotted(Texts(labels)) == s + "."
  {
    hide Spell, IsFqdn;
    var l, rest := labels[0], labels[1..];
    TextsTail(labels);
    JoinIsDottedWithoutLastDot(Texts(labels));
    SpelledLabel(l, JoinDots(Texts(rest)));
    if rest != [] {
      JoinedIsOpen(rest);
      ConcatAssociates(Spell(l), ".", JoinDots(Texts(rest)));
    }
  }

  lemma CanonicalOfLabels(labels: seq<seq<Unit>>, s: Text)
    requires labels != [] && AreLabels(labels) && Trimmed(s)
    requires s == JoinDots(Texts(labels)) || s == Dotted(Texts(labels))
    ensures var c := Dotted(Texts(LowerLabels(labels)));
            Canonical(s) == if IsDomainName(c) then Some(c) else None
  {
    hide IsDomainName, IsFqdn;
    JoinedIsOpen(labels);
    DottedIsSplit(labels);
    LowerLabelsShape(labels);
    TrimSpaceFixesTrimmed(s);
  }

  predicate WithinLimits(labels: seq<seq<Unit>>) {
    (forall l <- labels :: |l| <= 63) && Size(labels) + 1 <= 255
  }

  lemma DottedIsNameIff(labels: seq<seq<Unit>>)
    requires labels != [] && AreLabels(labels)
    ensures var c := Dotted(Texts(labels));
            (IsDomainName(c) <==> WithinLimits(labels)) && LabelsOf(c) == Texts(labels)
  {
    hide Spell, SplitDots, IsFqdn;
    var c, ts := Dotted(Texts(labels)), Texts(labels);
    DottedIsSplit(labels);
    assert c != "." by {
      TextsTail(labels);
      SpelledLabel(labels[0], []);
    }
    forall i | 0 <= i < |labels| ensures ts[i] != [] && LabelOctets(ts[i]) == |labels[i]| {
      SpelledLabel(labels[i], []);
    }
    if IsDomainName(c) {
      forall l <- labels ensures |l| <= 63 {
        var i :| 0 <= i < |labels| && labels[i] == l;
        assert ts[i] in ts;
      }
    }
  }

  /** The same labels up to case, without a capital. */
  predicate LoweredFrom(lows: seq<Text>, given: seq<Text>) {
    |lows| == |given| && forall i | 0 <= i < |given| :: SameUpToCase(lows[i], given[i]) && NoCapital(lows[i])
  }

  /**
   Labels in any spelling, joined by dots, with or without the last one, are a name exactly when each has at most
   63 octets and all with their lengths have 255, an escape being one octet. The name has these labels in lower case.
   */
  lemma ReadableIff(labels: seq<seq<Unit>>, s: Text)
    requires labels != [] && AreLabels(labels) && Trimmed(s)
    requires s == JoinDots(Texts(labels)) || s == Dotted(Texts(labels))
    ensures Parse(s).Some? <==> (forall l <- labels :: |l| <= 63) && Size(labels) + 1 <= 255
    ensures Parse(s).Some? ==> LoweredFrom(Labels(Parse(s).value), Texts(labels))
  {
    hide IsDomainName, Spell, SplitDots, IsFqdn;
    var lows := LowerLabels(labels);
    LowerLabelsShape(labels);
    CanonicalOfLabels(labels, s);
    DottedIsNameIff(lows);
    forall i | 0 <= i < |labels|
      ensures Texts(lows)[i] == Lower(Texts(labels)[i]) && |lows[i]| == |labels[i]|
    {
      LowerSpell(labels[i]);
    }
    SameLimits(labels, lows);
    forall i | 0 <= i < |labels|
      ensures SameUpToCase(Texts(lows)[i], Texts(labels)[i]) && NoCapital(Texts(lows)[i])
    {
      LowerIsSame(Texts(labels)[i]);
    }
  }

  lemma SameLimits(a: seq<seq<Unit>>, b: seq<seq<Unit>>)
    requires |a| == |b| && Size(a) == Size(b) && forall i | 0 <= i < |a| :: |a[i]| == |b[i]|
    ensures WithinLimits(a) <==> WithinLimits(b)
  {
    forall x, y | SameLengths(x, y) && WithinLimits(x) && Size(x) == Size(y) ensures WithinLimits(y) {
      forall l <- y ensures |l| <= 63 {
        var i :| 0 <= i < |y| && y[i] == l;
        assert x[i] in x;
      }
    }
    assert SameLengths(a, b) && SameLengths(b, a);
  }

  predicate SameLengths(a: seq<seq<Unit>>, b: seq<seq<Unit>>) {
    |a| == |b| && forall i | 0 <= i < |a| :: |a[i]| == |b[i]|
  }

  // ----- Host names -----

  /** Letters, digits, hyphens and whatever else needs no escape. */
  predicate IsOrdinary(l: Text) {
    l != [] && forall c <- l :: c != '.' && c != '\\' && !White(c)
  }

  function Units(labels: seq<Text>): seq<seq<Unit>> {
    Map(PlainUnits, labels)
  }

  lemma UnitsSpell(labels: seq<Text>)
    requires forall l <- labels :: IsOrdinary(l)
    ensures Texts(Units(labels)) == labels && AreLabels(Units(labels))
  {
    hide Spell;
    forall i | 0 <= i < |labels|
      ensures Spell(PlainUnits(labels[i])) == labels[i] && IsLabel(PlainUnits(labels[i]))
    {
      SpellPlain(labels[i]);
      OrdinaryIsLabel(labels[i]);
    }
  }

  lemma OrdinaryIsLabel(l: Text)
    requires IsOrdinary(l)
    ensures IsLabel(PlainUnits(l))
  {
    forall u <- PlainUnits(l) ensures InLabel(u) {
      var i :| 0 <= i < |l| && PlainUnits(l)[i] == u;
      assert l[i] in l;
    }
  }

  lemma {:induction false} SizeOfText(labels: seq<Text>)
    ensures Size(Units(labels)) == |Dotted(labels)|
  {
    if labels != [] {
      SizeOfText(labels[1..]);
      assert Units(labels)[1..] == Units(labels[1..]);
    }
  }

  lemma {:induction false} JoinedIsTrimmed(labels: seq<Text>)
    requires labels != [] && forall l <- labels :: IsOrdinary(l)
    ensures var s := JoinDots(labels); s != [] && Trimmed(s)
  {
    var l := labels[0];
    assert IsOrdinary(l) && l[0] in l && l[|l| - 1] in l;
    if |labels| > 1 {
      HeadTail(labels);
      JoinedIsTrimmed(labels[1..]);
      assert JoinDots(labels) == l + "." + JoinDots(labels[1..]);
    }
  }

  /** A host name is read exactly when its labels have at most 63 octets and its text has at most 253. */
  lemma HostNameIff(labels: seq<Text>)
    requires labels != [] && forall l <- labels :: IsOrdinary(l)
    ensures var n := Parse(JoinDots(labels));
            && (n.Some? <==> (forall l <- labels :: |l| <= 63) && |JoinDots(labels)| <= 253)
            && (n.Some? ==> LoweredFrom(Labels(n.value), labels))
  {
    UnitsSpell(labels);
    JoinedIsTrimmed(labels);
    ReadableIff(Units(labels), JoinDots(labels));
    SizeOfText(labels);
    JoinIsDottedWithoutLastDot(labels);
    var us := Units(labels);
    assert (forall l <- us :: |l| <= 63) <==> (forall l <- labels :: |l| <= 63) by {
      forall i | 0 <= i < |labels| ensures us[i] in us && labels[i] in labels && |us[i]| == |labels[i]| {
      }
    }
  }
}
