/** What NormalizeTXT promises: it finds the one quoted form of a value and changes no octet. */
module TxtLaws {
  import opened Text
  import opened Names
  import opened Txt
  import opened Seqs

  // ----- The printer is read back -----

  lemma TakeUnitReadsSpelling(c: Octet, tail: Text)
    ensures TakeUnit(SpellingOf(UnitFor(c)) + tail) == Some(UnitFor(c))
    ensures SpellingOf(UnitFor(c))[0] != '"'
    ensures (SpellingOf(UnitFor(c)) + tail)[|SpellingOf(UnitFor(c))|..] == tail
  {
    var u := UnitFor(c);
    var s := SpellingOf(u) + tail;
    match u {
      case Plain(x) =>
      case Escaped(x) => assert s[0] == '\\' && s[1] == x;
      case Decimal(h, t, o) => assert s[0] == '\\' && s[1] == h && s[2] == t && s[3] == o;
    }
  }

  /** One unit of what LexQuoted reads. */
  function Prepend(u: Unit, r: Option<Lexeme>): Option<Lexeme> {
    if r.None? then None else Some(Lexeme([u] + r.value.units, r.value.rest))
  }

  lemma LexQuotedReadsUnit(c: Octet, tail: Text)
    ensures LexQuoted(SpellingOf(UnitFor(c)) + tail) == Prepend(UnitFor(c), LexQuoted(tail))
  {
    TakeUnitReadsSpelling(c, tail);
    PrependUnit(SpellingOf(UnitFor(c)) + tail, UnitFor(c));
  }

  lemma RespellCons(u: Unit, us: seq<Unit>)
    ensures Respell([u] + us) == [UnitFor(OctetOf(u))] + Respell(us)
  {
    assert ([u] + us)[1..] == us;
  }

  lemma SpellCons(u: Unit, us: seq<Unit>)
    ensures Spell([u] + us) == SpellingOf(u) + Spell(us)
  {
    assert ([u] + us)[1..] == us;
  }

  lemma LexQuotedEnd(rest: Text)
    ensures LexQuoted("\"" + rest) == Some(Lexeme([], rest))
  {
    assert ("\"" + rest)[1..] == rest;
  }

  lemma {:induction false} LexQuotedReadsSpelling(us: seq<Unit>, rest: Text)
    ensures LexQuoted(Spell(Respell(us)) + ("\"" + rest)) == Some(Lexeme(Respell(us), rest))
  {
    var end := "\"" + rest;
    if us == [] {
      LexQuotedEnd(rest);
      assert Spell(Respell(us)) + end == end;
    } else {
      hide LexQuoted, Spell, Respell, SpellingOf, UnitFor, OctetOf;
      var u, t := us[0], us[1..];
      HeadTail(us);
      LexQuotedReadsSpelling(t, rest);
      RespellCons(u, t);
      SpellCons(UnitFor(OctetOf(u)), Respell(t));
      ConcatAssociates(SpellingOf(UnitFor(OctetOf(u))), Spell(Respell(t)), end);
      LexQuotedReadsUnit(OctetOf(u), Spell(Respell(t)) + end);
    }
  }

  /** The tokens a printed list of pieces is made of. */
  function AsTokens(ps: seq<seq<Unit>>): (ts: seq<Token>)
    ensures |ts| == |ps|
    ensures forall i | 0 <= i < |ps| :: ts[i] == Token(true, Respell(ps[i]))
  {
    if ps == [] then [] else [Token(true, Respell(ps[0]))] + AsTokens(ps[1..])
  }

  lemma LexOpenQuote(body: Text)
    requires LexQuoted(body).Some?
    ensures var l := LexQuoted(body).value;
            Lex("\"" + body) == if Lex(l.rest).None? then None else Some([Token(true, l.units)] + Lex(l.rest).value)
  {
    assert ("\"" + body)[1..] == body;
  }

  lemma LexSkipsBlank(s: Text)
    ensures Lex(" " + s) == Lex(s)
  {
    assert (" " + s)[1..] == s;
  }

  /** What stands behind the first printed piece. */
  function PrintRest(ps: seq<seq<Unit>>): Text {
    if ps == [] then [] else " " + Print(ps)
  }

  lemma PrintCons(p: seq<Unit>, ps: seq<seq<Unit>>)
    ensures Print([p] + ps) == "\"" + (Spell(Respell(p)) + ("\"" + PrintRest(ps)))
  {
    assert ([p] + ps)[1..] == ps;
  }

  lemma AsTokensCons(p: seq<Unit>, ps: seq<seq<Unit>>)
    ensures AsTokens([p] + ps) == [Token(true, Respell(p))] + AsTokens(ps)
  {
    assert ([p] + ps)[1..] == ps;
  }

  lemma {:induction false} LexReadsPrint(ps: seq<seq<Unit>>)
    ensures Lex(Print(ps)) == Some(AsTokens(ps))
  {
    if ps != [] {
      hide LexQuoted, Spell, Respell, AsTokens, Print;
      var p, t := ps[0], ps[1..];
      HeadTail(ps);
      PrintCons(p, t);
      AsTokensCons(p, t);
      LexReadsPrint(t);
      LexQuotedReadsSpelling(p, PrintRest(t));
      LexOpenQuote(Spell(Respell(p)) + ("\"" + PrintRest(t)));
      LexPrintRest(t);
    }
  }

  lemma LexPrintRest(ps: seq<seq<Unit>>)
    requires Lex(Print(ps)) == Some(AsTokens(ps))
    ensures Lex(PrintRest(ps)) == Some(AsTokens(ps))
  {
    hide LexQuoted, LexBare, Print;
    if ps != [] {
      LexSkipsBlank(Print(ps));
    }
  }

  // ----- Counting quotes counts quoted tokens -----

  lemma {:induction false} CountQuotesPastUnit(s: Text)
    requires s != [] && s[0] != '"' && TakeUnit(s).Some?
    ensures CountQuotes(s) == CountQuotes(s[|SpellingOf(TakeUnit(s).value)|..])
  {
    var u := TakeUnit(s).value;
    if u.Decimal? {
      assert CountQuotes(s) == CountQuotes(s[2..]);
      assert s[2..][1..] == s[3..] && s[3..][1..] == s[4..];
      assert s[2..][0] == s[2] && s[3..][0] == s[3];
      assert CountQuotes(s[2..]) == CountQuotes(s[3..]);
      assert CountQuotes(s[3..]) == CountQuotes(s[4..]);
    }
  }

  lemma {:induction false} CountQuotesPastQuoted(s: Text)
    requires LexQuoted(s).Some?
    ensures CountQuotes(s) == 1 + CountQuotes(LexQuoted(s).value.rest)
    decreases |s|
  {
    if s[0] != '"' {
      CountQuotesPastUnit(s);
      CountQuotesPastQuoted(s[|SpellingOf(TakeUnit(s).value)|..]);
    }
  }

  lemma {:induction false} CountQuotesPastBare(s: Text)
    requires LexBare(s).Some?
    ensures CountQuotes(s) == CountQuotes(LexBare(s).value.rest)
    decreases |s|
  {
    if !(s == [] || IsBlank(s[0]) || s[0] == '"') {
      CountQuotesPastUnit(s);
      CountQuotesPastBare(s[|SpellingOf(TakeUnit(s).value)|..]);
    }
  }

  function QuotedCount(ts: seq<Token>): nat {
    if ts == [] then 0 else (if ts[0].quoted then 1 else 0) + QuotedCount(ts[1..])
  }

  lemma {:induction false} CountQuotesIsTwicePerToken(s: Text)
    requires Lex(s).Some?
    ensures CountQuotes(s) == 2 * QuotedCount(Lex(s).value)
    decreases |s|
  {
    if s == [] {
    } else if IsBlank(s[0]) {
      CountQuotesIsTwicePerToken(s[1..]);
    } else if s[0] == '"' {
      CountQuotesPastQuoted(s[1..]);
      CountQuotesIsTwicePerToken(LexQuoted(s[1..]).value.rest);
    } else {
      CountQuotesPastBare(s);
      CountQuotesIsTwicePerToken(LexBare(s).value.rest);
    }
  }

  /** Every token is quoted and none is longer than a character-string may be. */
  predicate AllQuotedAndShort(ts: seq<Token>) {
    forall t <- ts :: t.quoted && |t.units| <= 255
  }

  lemma {:induction false} PiecesAgainstQuotes(ts: seq<Token>)
    ensures |AllPieces(ts)| >= |ts| >= QuotedCount(ts)
    ensures |AllPieces(ts)| <= QuotedCount(ts) <==> AllQuotedAndShort(ts)
  {
    if ts != [] {
      PiecesAgainstQuotes(ts[1..]);
      assert ts == [ts[0]] + ts[1..];
      assert |Pieces(ts[0].units)| == 1 <==> |ts[0].units| <= MAX_STRING;
      assert AllQuotedAndShort(ts) <==>
             ts[0].quoted && |ts[0].units| <= MAX_STRING && AllQuotedAndShort(ts[1..]);
    }
  }

  // ----- Main results -----

  /** The value is a list of quoted character-strings of at most 255 octets each. */
  predicate WellQuoted(value: Text) {
    HasQuote(value) && Lex(value).Some? && AllQuotedAndShort(Lex(value).value)
  }

  lemma {:induction false} PrintHasQuotes(ps: seq<seq<Unit>>)
    requires ps != []
    ensures HasQuote(Print(ps))
  {
    assert Print(ps)[0] == '"';
  }

  lemma {:induction false} PrintedPiecesAreWellQuoted(ps: seq<seq<Unit>>)
    requires ps != [] && forall p <- ps :: |p| <= MAX_STRING
    ensures WellQuoted(Print(ps))
  {
    PrintHasQuotes(ps);
    LexReadsPrint(ps);
    forall t | t in AsTokens(ps) ensures t.quoted && |t.units| <= MAX_STRING {
      var i :| 0 <= i < |ps| && AsTokens(ps)[i] == t;
      assert ps[i] in ps;
    }
  }

  lemma {:induction false} NonBlankValueHasTokens(value: Text)
    requires HasQuote(value) && Lex(value).Some?
    ensures Lex(value).value != []
  {
    if IsBlank(value[0]) {
      assert value == [value[0]] + value[1..];
      NonBlankValueHasTokens(value[1..]);
    }
  }

  lemma ParsedValueHasPieces(value: Text)
    requires ParseTXT(value).Some?
    ensures ParseTXT(value).value != []
  {
    var v := if HasQuote(value) then value else "\"" + DoublePairs(value) + "\"";
    assert HasQuote(v) by {
      if !HasQuote(value) { assert v[0] == '"'; }
    }
    NonBlankValueHasTokens(v);
    PiecesAgainstQuotes(Tokens(value).value);
  }

  /** A parsed value is left alone exactly when it is already quoted and nowhere too long. */
  lemma LeftAloneIffWellQuoted(value: Text)
    ensures NormalizeTXT(value) == Some(value) <==> WellQuoted(value)
  {
    if ParseTXT(value).Some? {
      var ts := Tokens(value).value;
      var ps := ParseTXT(value).value;
      PiecesAgainstQuotes(ts);
      ParsedValueHasPieces(value);
      PrintHasQuotes(ps);
      if HasQuote(value) {
        CountQuotesIsTwicePerToken(value);
        if !AllQuotedAndShort(ts) {
          LexReadsPrint(ps);
          PrintedPiecesAreWellQuoted(ps);
          assert Print(ps) != value;
        }
      }
    }
  }

  /** Whatever is sent is quoted, and no character-string in it is longer than 255 octets. */
  lemma NormalFormIsWellQuoted(value: Text)
    requires NormalizeTXT(value).Some?
    ensures WellQuoted(NormalizeTXT(value).value)
  {
    LeftAloneIffWellQuoted(value);
    if NormalizeTXT(value) != Some(value) {
      ParsedValueHasPieces(value);
      PrintedPiecesAreWellQuoted(ParseTXT(value).value);
    }
  }

  /** Normalising twice is normalising once, for every value that can be read at all. */
  lemma NormalizeIsIdempotent(value: Text)
    requires NormalizeTXT(value).Some?
    ensures NormalizeTXT(NormalizeTXT(value).value) == NormalizeTXT(value)
  {
    NormalFormIsWellQuoted(value);
    LeftAloneIffWellQuoted(NormalizeTXT(value).value);
  }

  /** The octets of each character-string. */
  function DecodeAll(ps: seq<seq<Unit>>): (r: seq<Text>)
    ensures |r| == |ps|
    ensures forall i | 0 <= i < |ps| :: r[i] == Decode(ps[i])
  {
    if ps == [] then [] else [Decode(ps[0])] + DecodeAll(ps[1..])
  }

  lemma {:induction false} PiecesOfPrinted(ps: seq<seq<Unit>>)
    requires forall p <- ps :: |p| <= MAX_STRING
    ensures DecodeAll(AllPieces(AsTokens(ps))) == DecodeAll(ps)
  {
    if ps != [] {
      PiecesOfPrinted(ps[1..]);
      assert ps[0] in ps;
      var ts := AsTokens(ps);
      assert ts[1..] == AsTokens(ps[1..]);
      assert AllPieces(ts) == [Respell(ps[0])] + AllPieces(ts[1..]);
      assert AllPieces(ts)[1..] == AllPieces(ts[1..]);
    }
  }

  /** The normal form has the same character-strings, octet for octet, as the value was read to have. */
  lemma NormalizeKeepsEveryString(value: Text)
    requires ParseTXT(value).Some?
    ensures NormalizeTXT(value).Some? && ParseTXT(NormalizeTXT(value).value).Some?
    ensures DecodeAll(ParseTXT(NormalizeTXT(value).value).value) == DecodeAll(ParseTXT(value).value)
  {
    var n := NormalizeTXT(value).value;
    if n != value {
      var ps := ParseTXT(value).value;
      NormalFormIsWellQuoted(value);
      LexReadsPrint(ps);
      PiecesOfPrinted(ps);
    }
  }

  // ----- Values without quotes -----

  function Concat(ts: seq<Text>): Text {
    if ts == [] then [] else ts[0] + Concat(ts[1..])
  }

  lemma {:induction false} DecodeConcat(a: seq<Unit>, b: seq<Unit>)
    ensures Decode(a + b) == Decode(a) + Decode(b)
  {
    if a == [] {
      assert a + b == b;
    } else {
      hide Decode, OctetOf;
      var u, t := a[0], a[1..];
      HeadTail(a);
      DecodeConcat(t, b);
      ConcatAssociates([u], t, b);
      DecodeCons(u, t);
      DecodeCons(u, t + b);
      ConcatAssociates([OctetOf(u)], Decode(t), Decode(b));
    }
  }

  lemma {:induction false} PiecesJoinUp(us: seq<Unit>)
    ensures Concat(DecodeAll(Pieces(us))) == Decode(us)
    decreases |us|
  {
    if |us| <= MAX_STRING {
      assert Concat([Decode(us)]) == Decode(us) + Concat([]);
    } else {
      PiecesJoinUp(us[MAX_STRING..]);
      DecodeConcat(us[..MAX_STRING], us[MAX_STRING..]);
      assert us == us[..MAX_STRING] + us[MAX_STRING..];
      assert Pieces(us)[1..] == Pieces(us[MAX_STRING..]);
    }
  }

  lemma DecodeLength(us: seq<Unit>)
    ensures |Decode(us)| == |us|
  {
  }

  /** Backslashes come in pairs, read from the left. */
  predicate Paired(s: Text) {
    if s == [] then true
    else if s[0] == '\\' then |s| >= 2 && s[1] == '\\' && Paired(s[2..])
    else Paired(s[1..])
  }

  lemma DoublePairsHead(s: Text)
    ensures s == [] <==> DoublePairs(s) == []
    ensures s != [] ==> DoublePairs(s)[0] == s[0]
    ensures s != [] && (s[0] != '\\' || |s| == 1 || s[1] != '\\') ==> DoublePairs(s) == [s[0]] + DoublePairs(s[1..])
  {
  }

  /** What reading a doubled value up to its closing quote may give. */
  predicate DoubledReading(s: Text, r: Option<Lexeme>) {
    && (r.Some? ==> r.value.rest == [] && |r.value.units| <= |s|)
    && (Paired(s) ==> r.Some? && Decode(r.value.units) == s)
    && (r.Some? && !Paired(s) ==> |r.value.units| < |s|)
  }

  /**
   Reading a doubled value between quotes consumes it whole. It gives one octet for each character
   when backslashes are paired, and fewer octets, or nothing, when one stands alone.
   */
  lemma {:induction false} LexDoubled(s: Text)
    requires !HasQuote(s)
    ensures DoubledReading(s, LexQuoted(DoublePairs(s) + "\""))
    decreases |s|, 1
  {
    if s == [] {
      assert DoublePairs(s) + "\"" == "\"";
    } else if s[0] != '\\' {
      LexDoubled(s[1..]);
      LexOrdinaryFront(s);
    } else if |s| >= 2 && s[1] == '\\' {
      LexDoubled(s[2..]);
      LexPairFront(s);
    } else {
      LexLoneBackslash(s);
    }
  }

  lemma {:induction false} LexOrdinaryFront(s: Text)
    requires !HasQuote(s) && s != [] && s[0] != '\\'
    requires DoubledReading(s[1..], LexQuoted(DoublePairs(s[1..]) + "\""))
    ensures DoubledReading(s, LexQuoted(DoublePairs(s) + "\""))
  {
    var d := DoublePairs(s) + "\"";
    assert d == [s[0]] + (DoublePairs(s[1..]) + "\"");
    assert d[1..] == DoublePairs(s[1..]) + "\"";
    PrependUnit(d, Plain(s[0]));
    assert s == [s[0]] + s[1..];
  }

  lemma {:induction false} LexPairFront(s: Text)
    requires !HasQuote(s) && |s| >= 2 && s[0] == '\\' && s[1] == '\\'
    requires DoubledReading(s[2..], LexQuoted(DoublePairs(s[2..]) + "\""))
    ensures DoubledReading(s, LexQuoted(DoublePairs(s) + "\""))
  {
    var tail := DoublePairs(s[2..]) + "\"";
    DoublePairsOfPair(s);
    PrependBackslash(['\\', '\\'] + tail);
    PrependBackslash(tail);
    PairAddsTwoOctets(s, LexQuoted(tail));
  }

  lemma PairAddsTwoOctets(s: Text, r: Option<Lexeme>)
    requires |s| >= 2 && s[0] == '\\' && s[1] == '\\'
    requires DoubledReading(s[2..], r)
    ensures r.None? ==> DoubledReading(s, None)
    ensures r.Some? ==>
              DoubledReading(s, Some(Lexeme([Escaped('\\')] + ([Escaped('\\')] + r.value.units), r.value.rest)))
  {
    if r.Some? {
      DecodeCons(Escaped('\\'), r.value.units);
      DecodeCons(Escaped('\\'), [Escaped('\\')] + r.value.units);
      assert s == ['\\'] + (['\\'] + s[2..]);
    }
  }

  lemma {:induction false} DoublePairsOfPair(s: Text)
    requires |s| >= 2 && s[0] == '\\' && s[1] == '\\'
    ensures DoublePairs(s) + "\"" == ['\\', '\\'] + (['\\', '\\'] + (DoublePairs(s[2..]) + "\""))
  {
    var rest := DoublePairs(s[2..]);
    assert DoublePairs(s) == ['\\', '\\'] + (['\\', '\\'] + rest);
    ConcatAssociates(['\\', '\\'], ['\\', '\\'] + rest, "\"");
    ConcatAssociates(['\\', '\\'], rest, "\"");
  }

  lemma DecodeCons(u: Unit, us: seq<Unit>)
    ensures Decode([u] + us) == [OctetOf(u)] + Decode(us)
  {
    assert ([u] + us)[1..] == us;
  }

  lemma PrependBackslash(tail: Text)
    ensures var r := LexQuoted(tail);
            LexQuoted(['\\', '\\'] + tail) == Prepend(Escaped('\\'), r)
  {
    var d := ['\\', '\\'] + tail;
    assert d[2..] == tail;
    PrependUnit(d, Escaped('\\'));
  }

  lemma {:induction false} PrependUnit(d: Text, u: Unit)
    requires d != [] && d[0] != '"' && TakeUnit(d) == Some(u)
    ensures var r := LexQuoted(d[|SpellingOf(u)|..]);
            LexQuoted(d) == Prepend(u, r)
  {
  }

  predicate LoneBackslash(s: Text) {
    s != [] && s[0] == '\\' && (|s| == 1 || s[1] != '\\')
  }

  predicate DecimalFront(s: Text) {
    |s| >= 4 && IsDigit(s[1]) && IsDigit(s[2]) && IsDigit(s[3])
  }

  /** The text behind a lone backslash is doubled from there on. */
  lemma {:induction false} LoneBackslashFront(s: Text)
    requires LoneBackslash(s) && |s| > 1
    ensures DoublePairs(s) == [s[0], s[1]] + DoublePairs(s[2..])
  {
    hide DoublePairs;
    DoublePairsHead(s);
    DoublePairsHead(s[1..]);
    assert s[1..][1..] == s[2..];
    assert [s[0]] + ([s[1]] + DoublePairs(s[2..])) == [s[0], s[1]] + DoublePairs(s[2..]);
  }

  lemma {:induction false} DecimalIsKept(s: Text)
    requires LoneBackslash(s) && DecimalFront(s)
    ensures DoublePairs(s) == [s[0], s[1], s[2], s[3]] + DoublePairs(s[4..])
  {
    hide DoublePairs;
    LoneBackslashFront(s);
    DoublePairsHead(s[2..]);
    DoublePairsHead(s[3..]);
    assert s[2..][1..] == s[3..] && s[3..][1..] == s[4..];
    var rest := DoublePairs(s[4..]);
    assert [s[0], s[1]] + ([s[2]] + ([s[3]] + rest)) == [s[0], s[1], s[2], s[3]] + rest;
  }

  /** A doubled text with a digit in front was a text with this digit in front. */
  lemma DoubledDigit(s: Text)
    requires !HasQuote(s)
    ensures var d := DoublePairs(s) + "\"";
            IsDigit(d[0]) ==> s != [] && d[0] == s[0] && d[1..] == DoublePairs(s[1..]) + "\""
  {
    DoublePairsHead(s);
  }

  lemma {:induction false} LoneUnit(s: Text)
    requires !HasQuote(s) && LoneBackslash(s) && |s| > 1
    ensures TakeUnit(DoublePairs(s) + "\"") ==
            Some(if DecimalFront(s) then Decimal(s[1], s[2], s[3]) else Escaped(s[1]))
  {
    hide DoublePairs;
    DecimalWasThere(s);
    LoneBackslashFront(s);
    if DecimalFront(s) {
      DecimalIsKept(s);
    }
  }

  lemma {:induction false} DecimalWasThere(s: Text)
    requires !HasQuote(s) && LoneBackslash(s) && |s| > 1
    ensures DecimalFront(DoublePairs(s) + "\"") ==> DecimalFront(s)
  {
    hide DoublePairs;
    var d := DoublePairs(s) + "\"";
    LoneBackslashFront(s);
    if DecimalFront(d) {
      assert d[2..] == DoublePairs(s[2..]) + "\"";
      DoubledDigit(s[2..]);
      assert d[3..] == DoublePairs(s[3..]) + "\"";
      DoubledDigit(s[3..]);
    }
  }

  lemma {:induction false} LexLoneBackslash(s: Text)
    requires !HasQuote(s) && LoneBackslash(s)
    ensures var r := LexQuoted(DoublePairs(s) + "\"");
            r.Some? ==> r.value.rest == [] && |r.value.units| < |s|
    decreases |s|, 0
  {
    var d := DoublePairs(s) + "\"";
    if |s| == 1 {
      DoublePairsHead(s);
      assert d == "\\\"" && d[2..] == [];
    } else {
      hide DoublePairs, TakeUnit, LexQuoted, IsDigit;
      LoneUnit(s);
      LoneBackslashFront(s);
      if DecimalFront(s) {
        DecimalIsKept(s);
      }
      var n := if DecimalFront(s) then 4 else 2;
      assert d[n..] == DoublePairs(s[n..]) + "\"";
      LexDoubled(s[n..]);
      PrependUnit(d, TakeUnit(d).value);
    }
  }

  lemma OneTokenPieces(us: seq<Unit>)
    ensures AllPieces([Token(true, us)]) == Pieces(us)
  {
    assert [Token(true, us)][1..] == [];
    assert Pieces(us) + [] == Pieces(us);
  }

  lemma {:induction false} UnquotedTokens(value: Text)
    requires !HasQuote(value)
    ensures var r := LexQuoted(DoublePairs(value) + "\"");
            Tokens(value) == if r.None? then None else Some([Token(true, r.value.units)])
  {
    var d := DoublePairs(value) + "\"";
    var v := "\"" + DoublePairs(value) + "\"";
    assert v == ['"'] + d;
    assert v[1..] == d;
    LexDoubled(value);
    var r := LexQuoted(d);
    if r.Some? {
      assert Lex(r.value.rest) == Some([]);
      assert [Token(true, r.value.units)] + [] == [Token(true, r.value.units)];
    }
  }

  /**
   A value without quotes keeps its octets exactly when its backslashes come in pairs.
   A lone backslash is read as an escape: it is lost, or the value cannot be read.
   */
  lemma {:induction false} UnquotedKeptIffPaired(value: Text)
    requires !HasQuote(value)
    ensures ParseTXT(value).Some? && Concat(DecodeAll(ParseTXT(value).value)) == value <==> Paired(value)
  {
    UnquotedTokens(value);
    LexDoubled(value);
    if ParseTXT(value).Some? {
      var us := Tokens(value).value[0].units;
      OneTokenPieces(us);
      PiecesJoinUp(us);
      DecodeLength(us);
    }
  }

  lemma LexQuotedEscaped(c: Octet, tail: Text)
    requires !IsDigit(c)
    ensures LexQuoted(['\\', c] + tail) == Prepend(Escaped(c), LexQuoted(tail))
  {
    assert (['\\', c] + tail)[2..] == tail;
    PrependUnit(['\\', c] + tail, Escaped(c));
  }

  /** One plain octet, a backslash and one more octet. */
  lemma {:induction false} LoneBackslashTokens(value: Text, c: Octet, e: Octet)
    requires value == [c, '\\', e] && !HasQuote(value) && c != '\\' && e != '\\' && !IsDigit(e)
    ensures Tokens(value) == Some([Token(true, [Plain(c), Escaped(e)])])
  {
    hide LexQuoted, Tokens, DoublePairs;
    var lone: Text := ['\\', e];
    assert value == [c] + lone;
    DoublePairsPlain(c, lone);
    LoneBackslashFront(lone);
    DoublePairsHead([]);
    assert lone[2..] == [];
    assert DoublePairs(value) == value;
    LexQuotedEnd([]);
    assert "\"" + [] == "\"";
    LexQuotedEscaped(e, "\"");
    LexQuotedPlain(c, lone + "\"");
    assert value + "\"" == [c] + (lone + "\"");
    assert [Plain(c)] + ([Escaped(e)] + []) == [Plain(c), Escaped(e)];
    UnquotedTokens(value);
  }

  /** Between plain octets a lone backslash is lost. */
  lemma {:induction false} LoneBackslashVanishes(value: Text, c: Octet, e: Octet)
    requires value == [c, '\\', e] && 'a' <= c <= 'z' && 'a' <= e <= 'z'
    ensures NormalizeTXT(value) == Some("\"" + [c, e] + "\"")
  {
    hide LexQuoted, Tokens, Spell, Respell, Pieces, AllPieces;
    var us := [Plain(c), Escaped(e)];
    LoneBackslashTokens(value, c, e);
    OneTokenPieces(us);
    ShortIsOnePiece(us);
    RespellTwo(us[0], us[1]);
    SpellTwo(Plain(c), Plain(e));
    assert [c] + [e] == [c, e];
    assert Print([us]) == "\"" + [c, e] + "\"";
  }

  lemma ShortIsOnePiece(us: seq<Unit>)
    requires |us| <= MAX_STRING
    ensures Pieces(us) == [us]
  {
  }

  lemma RespellTwo(u: Unit, v: Unit)
    ensures Respell([u, v]) == [UnitFor(OctetOf(u)), UnitFor(OctetOf(v))]
  {
    RespellCons(u, [v]);
    RespellCons(v, []);
    assert [u] + [v] == [u, v] && [v] + [] == [v];
  }

  lemma SpellTwo(u: Unit, v: Unit)
    ensures Spell([u, v]) == SpellingOf(u) + SpellingOf(v)
  {
    SpellCons(u, [v]);
    SpellCons(v, []);
    assert [u] + [v] == [u, v] && [v] + [] == [v];
  }

  /** The value `a\b` without quotes is sent as "ab": the backslash is lost. */
  lemma LoneBackslashIsLost() returns (value: Text)
    ensures value == "a\\b" && NormalizeTXT(value) == Some("\"ab\"")
  {
    hide NormalizeTXT;
    value := ['a', '\\', 'b'];
    LoneBackslashVanishes(value, 'a', 'b');
    assert "\"" + ['a', 'b'] + "\"" == "\"ab\"";
  }

  /** A text cut into runs of 255 octets. */
  function Chunks(s: Text): seq<Text>
    decreases |s|
  {
    if |s| <= 255 then [s] else [s[..255]] + Chunks(s[255..])
  }

  function Spellings(ps: seq<seq<Unit>>): seq<Text> {
    seq(|ps|, i requires 0 <= i < |ps| => Spell(ps[i]))
  }

  function PlainUnits(s: Text): seq<Unit> {
    seq(|s|, i requires 0 <= i < |s| => Plain(s[i]))
  }

  lemma {:induction false} SpellPlain(s: Text)
    ensures Spell(PlainUnits(s)) == s
  {
    if s != [] {
      SpellPlain(s[1..]);
      assert PlainUnits(s)[1..] == PlainUnits(s[1..]);
    }
  }

  lemma {:induction false} PlainPiecesAreChunks(s: Text)
    ensures Spellings(Pieces(PlainUnits(s))) == Chunks(s)
    decreases |s|
  {
    hide Spell;
    var us := PlainUnits(s);
    if |s| <= MAX_STRING {
      SpellPlain(s);
    } else {
      assert us[..MAX_STRING] == PlainUnits(s[..MAX_STRING]);
      assert us[MAX_STRING..] == PlainUnits(s[MAX_STRING..]);
      SpellPlain(s[..MAX_STRING]);
      PlainPiecesAreChunks(s[MAX_STRING..]);
      assert Spellings(Pieces(us)) == [Spell(us[..MAX_STRING])] + Spellings(Pieces(us[MAX_STRING..]));
    }
  }

  lemma PlainUnitsCons(c: Octet, s: Text)
    ensures PlainUnits([c] + s) == [Plain(c)] + PlainUnits(s)
  {
  }

  lemma LexQuotedPlain(c: Octet, tail: Text)
    requires c != '"' && c != '\\'
    ensures LexQuoted([c] + tail) == Prepend(Plain(c), LexQuoted(tail))
  {
    assert ([c] + tail)[1..] == tail;
    PrependUnit([c] + tail, Plain(c));
  }

  lemma DoublePairsPlain(c: Octet, tail: Text)
    requires c != '\\'
    ensures DoublePairs([c] + tail) == [c] + DoublePairs(tail)
  {
    assert ([c] + tail)[1..] == tail;
  }

  lemma {:induction false} LexPlain(s: Text)
    requires !HasQuote(s) && '\\' !in s
    ensures DoublePairs(s) == s
    ensures LexQuoted(s + "\"") == Some(Lexeme(PlainUnits(s), []))
  {
    if s == [] {
      assert s + "\"" == "\"" == "\"" + [];
      assert PlainUnits(s) == [];
      LexQuotedEnd([]);
    } else {
      hide LexQuoted, DoublePairs, PlainUnits;
      var c, t := s[0], s[1..];
      HeadTail(s);
      LexPlain(t);
      ConcatAssociates([c], t, "\"");
      LexQuotedPlain(c, t + "\"");
      DoublePairsPlain(c, t);
      PlainUnitsCons(c, t);
    }
  }

  /** Without quotes and backslashes only the length decides where a value is cut, never a blank. */
  lemma {:induction false} PlainValueIsCutByLength(value: Text)
    requires !HasQuote(value) && '\\' !in value
    ensures SplitTXT(value) == Some(Chunks(value))
    ensures Concat(Chunks(value)) == value
  {
    LexPlain(value);
    UnquotedTokens(value);
    var us := PlainUnits(value);
    assert Tokens(value) == Some([Token(true, us)]);
    OneTokenPieces(us);
    assert SplitTXT(value) == Some(Spellings(Pieces(us)));
    PlainPiecesAreChunks(value);
    ChunksJoinUp(value);
  }

  lemma {:induction false} ChunksJoinUp(s: Text)
    ensures Concat(Chunks(s)) == s
    decreases |s|
  {
    if |s| <= MAX_STRING {
      assert Concat([s]) == s + Concat([]);
    } else {
      ChunksJoinUp(s[MAX_STRING..]);
      assert s == s[..MAX_STRING] + s[MAX_STRING..];
      assert Chunks(s)[1..] == Chunks(s[MAX_STRING..]);
    }
  }
}
