/** TXT values as texts: how they are read, and the one spelling in which they are sent. */
module TxtForms {
  import opened Text
  import opened Seqs
  import opened Names
  import opened Txt
  import opened TxtLaws

  // ----- How an octet is printed -----

  predicate IsPrintable(c: Octet) {
    32 <= c as int <= 126 && c as int != 34 && c as int != 92
  }

  /** Printable octets stand for themselves, quote and backslash get a backslash, any other octet its three digits. */
  lemma SpellingOfOctet(c: Octet)
    requires c as int < 256
    ensures var s := SpellingOf(UnitFor(c));
            if IsPrintable(c) then s == [c]
            else if c as int == 34 || c as int == 92 then s == ['\\', c]
            else
              && |s| == 4 && s[0] == '\\' && (forall i | 1 <= i < 4 :: 48 <= s[i] as int <= 57)
              && 100 * (s[1] as int - 48) + 10 * (s[2] as int - 48) + (s[3] as int - 48) == c as int
  {
    var n := c as int;
    assert 100 * (n / 100) + 10 * (n / 10 % 10) + n % 10 == n;
  }

  /** Octets in the spelling of the printer. */
  function Printed(s: Text): Text {
    if s == [] then [] else SpellingOf(UnitFor(s[0])) + Printed(s[1..])
  }

  lemma {:induction false} PrintableIsItself(s: Text)
    requires forall c <- s :: IsPrintable(c)
    ensures Printed(s) == s
  {
    if s != [] {
      assert IsPrintable(s[0]);
      PrintableIsItself(s[1..]);
      SpellingOfOctet(s[0]);
      HeadTail(s);
    }
  }

  lemma {:induction false} RespelledIsPrinted(us: seq<Unit>)
    ensures Spell(Respell(us)) == Printed(Decode(us))
  {
    if us != [] {
      hide SpellingOf, UnitFor, OctetOf, Decode, Respell, Spell;
      var u, rest := us[0], us[1..];
      HeadTail(us);
      RespelledIsPrinted(rest);
      RespellCons(u, rest);
      DecodeCons(u, rest);
      SpellCons(UnitFor(OctetOf(u)), Respell(rest));
      assert ([OctetOf(u)] + Decode(rest))[1..] == Decode(rest);
    } else {
      assert Decode([]) == [] && Respell([]) == [];
    }
  }

  /** Each text between quotes, one blank between two of them. */
  function Quoted(ts: seq<Text>): Text {
    if ts == [] then []
    else if |ts| == 1 then "\"" + ts[0] + "\""
    else "\"" + ts[0] + "\" " + Quoted(ts[1..])
  }

  lemma QuotedCons(t: Text, ts: seq<Text>)
    ensures Quoted([t] + ts) == "\"" + (t + ("\"" + if ts == [] then [] else " " + Quoted(ts)))
  {
    assert ([t] + ts)[1..] == ts;
  }

  lemma PrintedCons(p: seq<Unit>, ps: seq<seq<Unit>>)
    ensures Map(Printed, DecodeAll([p] + ps)) == [Spell(Respell(p))] + Map(Printed, DecodeAll(ps))
  {
    hide Spell, Respell, Decode, Printed;
    assert ([p] + ps)[1..] == ps;
    RespelledIsPrinted(p);
  }

  lemma {:induction false} PrintIsQuoted(ps: seq<seq<Unit>>)
    ensures Print(ps) == Quoted(Map(Printed, DecodeAll(ps)))
  {
    if ps != [] {
      hide Spell, Respell, Print, Quoted, Printed, DecodeAll;
      var p, t := ps[0], ps[1..];
      HeadTail(ps);
      PrintIsQuoted(t);
      PrintCons(p, t);
      PrintedCons(p, t);
      QuotedCons(Spell(Respell(p)), Map(Printed, DecodeAll(t)));
    }
  }

  /**
   A value that is no list of short quoted strings is sent as its character-strings, cut after 255 octets, each
   between quotes and in the printer's spelling.
   */
  lemma NormalFormIsPrinted(value: Text)
    requires ParseTXT(value).Some?
    ensures NormalizeTXT(value) == Some(if WellQuoted(value) then value
                                        else Quoted(Map(Printed, DecodeAll(ParseTXT(value).value))))
  {
    LeftAloneIffWellQuoted(value);
    PrintIsQuoted(ParseTXT(value).value);
  }

  // ----- Printable values without quotes -----

  lemma {:induction false} ChunkLengths(s: Text)
    ensures Chunks(s) != [] && |Chunks(s)[|Chunks(s)| - 1]| <= 255
    ensures forall i | 0 <= i < |Chunks(s)| - 1 :: |Chunks(s)[i]| == 255
    ensures s != [] ==> Chunks(s)[|Chunks(s)| - 1] != []
    decreases |s|
  {
    if |s| > 255 {
      ChunkLengths(s[255..]);
    }
  }

  lemma {:induction false} PlainUnitsDecode(s: Text)
    ensures Decode(PlainUnits(s)) == s
  {
    if s != [] {
      PlainUnitsDecode(s[1..]);
      HeadTail(s);
      PlainUnitsCons(s[0], s[1..]);
      DecodeCons(Plain(s[0]), PlainUnits(s[1..]));
    }
  }

  lemma {:induction false} PlainPiecesDecode(s: Text)
    ensures DecodeAll(Pieces(PlainUnits(s))) == Chunks(s)
    decreases |s|
  {
    hide Decode;
    var us := PlainUnits(s);
    if |s| <= 255 {
      PlainUnitsDecode(s);
      assert DecodeAll([us]) == [Decode(us)];
    } else {
      assert us[..255] == PlainUnits(s[..255]) && us[255..] == PlainUnits(s[255..]);
      PlainUnitsDecode(s[..255]);
      PlainPiecesDecode(s[255..]);
      var ps := Pieces(us);
      assert ps[0] == us[..255] && ps[1..] == Pieces(us[255..]);
    }
  }

  lemma {:induction false} ChunksArePrintable(s: Text)
    requires forall c <- s :: IsPrintable(c)
    ensures Map(Printed, Chunks(s)) == Chunks(s)
    decreases |s|
  {
    hide IsPrintable, Printed;
    if |s| <= 255 {
      PrintableIsItself(s);
    } else {
      PrintableIsItself(s[..255]);
      ChunksArePrintable(s[255..]);
      assert Map(Printed, Chunks(s)) == [Printed(s[..255])] + Map(Printed, Chunks(s[255..]));
    }
  }

  /**
   A value of printable octets without quotes and backslashes is sent between quotes, in runs of 255 octets when it
   is longer, with one blank between them.
   */
  lemma PrintableIsQuoted(value: Text)
    requires forall c <- value :: IsPrintable(c)
    ensures NormalizeTXT(value) == Some(Quoted(Chunks(value)))
    ensures |value| <= 255 ==> NormalizeTXT(value) == Some("\"" + value + "\"")
  {
    hide Lex, LexQuoted, Printed, NormalizeTXT, Pieces;
    assert !HasQuote(value) && '\\' !in value;
    LexPlain(value);
    UnquotedTokens(value);
    OneTokenPieces(PlainUnits(value));
    PlainPiecesDecode(value);
    ChunksArePrintable(value);
    NormalFormIsPrinted(value);
  }

  // ----- What is read outside quotes -----

  /** Blanks and tabs separate; what would begin a comment, a group or a line outside quotes is refused. */
  lemma LexAtFront(c: Octet, s: Text)
    ensures c as int == 32 || c as int == 9 ==> Lex([c] + s) == Lex(s)
    ensures c as int == 59 || c as int == 40 || c as int == 41 || c as int == 10 || c as int == 13 ==>
              Lex([c] + s).None?
  {
    assert ([c] + s)[1..] == s;
  }

  /** Between quotes a backslash and no digit stand for the octet behind it, and with three digits for theirs. */
  lemma {:induction false} EscapesAreRead(c: Octet, n: nat, tail: Text)
    requires !IsDigit(c) && n < 256
    ensures var r := LexQuoted(['\\', c] + tail);
            r == Prepend(Escaped(c), LexQuoted(tail)) && OctetOf(Escaped(c)) == c
    ensures var h, t, o := (48 + n / 100) as char, (48 + n / 10 % 10) as char, (48 + n % 10) as char;
            var r := LexQuoted(['\\', h, t, o] + tail);
            r == Prepend(Decimal(h, t, o), LexQuoted(tail)) && OctetOf(Decimal(h, t, o)) as int == n
  {
    hide LexQuoted;
    LexQuotedEscaped(c, tail);
    var h, t, o := (48 + n / 100) as char, (48 + n / 10 % 10) as char, (48 + n % 10) as char;
    var s := ['\\', h, t, o] + tail;
    assert s[4..] == tail;
    PrependUnit(s, Decimal(h, t, o));
    assert 100 * (n / 100) + 10 * (n / 10 % 10) + n % 10 == n;
  }

  predicate IsBare(c: Octet) {
    IsPrintable(c) && c as int != 32 && c as int != 59 && c as int != 40 && c as int != 41
  }

  lemma LexBareStep(c: Octet, tail: Text)
    requires IsBare(c)
    ensures LexBare([c] + tail) == Prepend(Plain(c), LexBare(tail))
  {
    assert ([c] + tail)[1..] == tail;
  }

  lemma {:induction false} LexBareReadsWord(w: Text, rest: Text)
    requires forall c <- w :: IsBare(c)
    requires rest == [] || rest[0] == ' ' || rest[0] == '"'
    ensures LexBare(w + rest) == Some(Lexeme(PlainUnits(w), rest))
  {
    if w == [] {
      assert w + rest == rest && PlainUnits(w) == [];
    } else {
      hide PlainUnits, LexBare;
      var c, t := w[0], w[1..];
      HeadTail(w);
      LexBareReadsWord(t, rest);
      ConcatAssociates([c], t, rest);
      LexBareStep(c, t + rest);
      PlainUnitsCons(c, t);
    }
  }

  /** A word without quotes is one character-string up to the next blank or quote. */
  lemma {:induction false} BareWordIsRead(w: Text, rest: Text)
    requires w != [] && forall c <- w :: IsBare(c)
    requires rest == [] || rest[0] == ' ' || rest[0] == '"'
    ensures Lex(w + rest) ==
            if Lex(rest).None? then None else Some([Token(false, PlainUnits(w))] + Lex(rest).value)
  {
    hide LexBare;
    LexBareReadsWord(w, rest);
    assert w[0] in w && (w + rest)[0] == w[0];
  }

  /** What stands between quotes is one character-string, blanks included. */
  lemma {:induction false} QuotedIsRead(s: Text, rest: Text)
    requires !HasQuote(s) && '\\' !in s
    ensures Lex("\"" + (s + ("\"" + rest))) ==
            if Lex(rest).None? then None else Some([Token(true, PlainUnits(s))] + Lex(rest).value)
  {
    hide LexQuoted;
    LexQuotedReadsPlain(s, rest);
    LexOpenQuote(s + ("\"" + rest));
  }

  lemma {:induction false} LexQuotedReadsPlain(s: Text, rest: Text)
    requires !HasQuote(s) && '\\' !in s
    ensures LexQuoted(s + ("\"" + rest)) == Some(Lexeme(PlainUnits(s), rest))
  {
    if s == [] {
      assert s + ("\"" + rest) == "\"" + rest && PlainUnits(s) == [];
      LexQuotedEnd(rest);
    } else {
      hide LexQuoted, PlainUnits;
      var c, t := s[0], s[1..];
      HeadTail(s);
      LexQuotedReadsPlain(t, rest);
      ConcatAssociates([c], t, "\"" + rest);
      LexQuotedPlain(c, t + ("\"" + rest));
      PlainUnitsCons(c, t);
    }
  }
}
