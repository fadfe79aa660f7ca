/**
 internal/provider/validate.go: the TXT value as a parser, a printer and a normal form.

 The grammar is the presentation format of section 5.1 of RFC 1035 restricted to one line:
 character-strings, quoted or bare, separated by blanks.
 */
module Txt {
  import opened Text
  import opened Names

  const MAX_STRING := 255

  /** One octet of a character-string, in the way it is spelled. */
  datatype Unit =
    | Plain(c: Octet)
    | Escaped(c: Octet)
    | Decimal(hundreds: Digit, tens: Digit, ones: Digit)

  type Digit = c: Octet | IsDigit(c) witness '0'

  datatype Token = Token(quoted: bool, units: seq<Unit>)

  function DigitValue(c: Digit): nat {
    c as int - '0' as int
  }

  /** The octet a unit stands for. Three digits beyond 255 wrap, as an octet does. */
  function OctetOf(u: Unit): Octet {
    match u
    case Plain(c) => c
    case Escaped(c) => c
    case Decimal(h, t, o) => ((100 * DigitValue(h) + 10 * DigitValue(t) + DigitValue(o)) % 256) as char
  }

  function SpellingOf(u: Unit): Text {
    match u
    case Plain(c) => [c]
    case Escaped(c) => ['\\', c]
    case Decimal(h, t, o) => ['\\', h, t, o]
  }

  function Decode(us: seq<Unit>): Text {
    if us == [] then [] else [OctetOf(us[0])] + Decode(us[1..])
  }

  function Spell(us: seq<Unit>): Text {
    if us == [] then [] else SpellingOf(us[0]) + Spell(us[1..])
  }

  // ----- Reading -----

  /** The unit at the front of a text; a backslash at the very end is an error. */
  function TakeUnit(s: Text): (r: Option<Unit>)
    requires s != []
    ensures r.Some? ==> SpellingOf(r.value) <= s
    ensures r.None? <==> s == "\\"
  {
    if s[0] != '\\' then Some(Plain(s[0]))
    else if |s| >= 4 && IsDigit(s[1]) && IsDigit(s[2]) && IsDigit(s[3]) then Some(Decimal(s[1], s[2], s[3]))
    else if |s| >= 2 then Some(Escaped(s[1]))
    else None
  }

  datatype Lexeme = Lexeme(units: seq<Unit>, rest: Text)

  /** Units up to the closing quote. */
  function LexQuoted(s: Text): (r: Option<Lexeme>)
    ensures r.Some? ==> |r.value.rest| < |s|
    decreases |s|
  {
    if s == [] then None
    else if s[0] == '"' then Some(Lexeme([], s[1..]))
    else
      match TakeUnit(s)
      case None => None
      case Some(u) =>
        match LexQuoted(s[|SpellingOf(u)|..])
        case None => None
        case Some(l) => Some(Lexeme([u] + l.units, l.rest))
  }

  predicate IsBlank(c: Octet) {
    c == ' ' || c == '\t'
  }

  /** Characters that mean something else outside quotes: comments, groups and line ends. */
  predicate IsSpecial(c: Octet) {
    c == ';' || c == '(' || c == ')' || c == '\n' || c == '\r'
  }

  /** Units up to a blank, a quote or the end. */
  function LexBare(s: Text): (r: Option<Lexeme>)
    ensures r.Some? ==> |r.value.rest| <= |s|
    ensures r.Some? && s != [] && !IsBlank(s[0]) && s[0] != '"' ==> |r.value.rest| < |s|
    decreases |s|
  {
    if s == [] || IsBlank(s[0]) || s[0] == '"' then Some(Lexeme([], s))
    else if IsSpecial(s[0]) then None
    else
      match TakeUnit(s)
      case None => None
      case Some(u) =>
        match LexBare(s[|SpellingOf(u)|..])
        case None => None
        case Some(l) => Some(Lexeme([u] + l.units, l.rest))
  }

  function Lex(s: Text): Option<seq<Token>>
    decreases |s|
  {
    if s == [] then Some([])
    else if IsBlank(s[0]) then Lex(s[1..])
    else
      var quoted := s[0] == '"';
      match if quoted then LexQuoted(s[1..]) else LexBare(s)
      case None => None
      case Some(l) =>
        match Lex(l.rest)
        case None => None
        case Some(ts) => Some([Token(quoted, l.units)] + ts)
  }

  /** Every pair of backslashes becomes four, as the source's ReplaceAll on raw strings does. */
  function DoublePairs(s: Text): Text {
    if s == [] then []
    else if |s| >= 2 && s[0] == '\\' && s[1] == '\\' then "\\\\\\\\" + DoublePairs(s[2..])
    else [s[0]] + DoublePairs(s[1..])
  }

  predicate HasQuote(s: Text) {
    '"' in s
  }

  /** A value without quotes is read as one quoted character-string. */
  function Tokens(value: Text): Option<seq<Token>> {
    Lex(if HasQuote(value) then value else "\"" + DoublePairs(value) + "\"")
  }

  /** A character-string of more than 255 octets is split from the left. */
  function Pieces(us: seq<Unit>): (ps: seq<seq<Unit>>)
    ensures ps != []
    ensures forall p <- ps :: |p| <= MAX_STRING
    decreases |us|
  {
    if |us| <= MAX_STRING then [us] else [us[..MAX_STRING]] + Pieces(us[MAX_STRING..])
  }

  function AllPieces(ts: seq<Token>): (ps: seq<seq<Unit>>)
    ensures forall p <- ps :: |p| <= MAX_STRING
  {
    if ts == [] then [] else Pieces(ts[0].units) + AllPieces(ts[1..])
  }

  function ParseTXT(value: Text): Option<seq<seq<Unit>>> {
    match Tokens(value)
    case None => None
    case Some(ts) => Some(AllPieces(ts))
  }

  /** The character-strings in the spelling they were read in. */
  function SplitTXT(value: Text): Option<seq<Text>> {
    match ParseTXT(value)
    case None => None
    case Some(ps) => Some(seq(|ps|, i requires 0 <= i < |ps| => Spell(ps[i])))
  }

  // ----- Printing -----

  function DigitOf(n: nat): Digit
    requires n < 10
  {
    ('0' as int + n) as char
  }

  /** The one way the printer spells an octet. */
  function UnitFor(c: Octet): (u: Unit)
    ensures OctetOf(u) == c
  {
    if c == '"' || c == '\\' then Escaped(c)
    else if c < ' ' || '~' < c < '\U{100}' then DecimalFor(c as int)
    else Plain(c)
  }

  function DecimalFor(n: nat): (u: Unit)
    requires n < 256
    ensures OctetOf(u) == n as char
  {
    var h, t, o := n / 100, n / 10 % 10, n % 10;
    assert 100 * h + 10 * t + o == n;
    Decimal(DigitOf(h), DigitOf(t), DigitOf(o))
  }

  function Respell(us: seq<Unit>): (r: seq<Unit>)
    ensures |r| == |us|
    ensures Decode(r) == Decode(us)
  {
    if us == [] then [] else [UnitFor(OctetOf(us[0]))] + Respell(us[1..])
  }

  function Print(ps: seq<seq<Unit>>): Text {
    if ps == [] then []
    else "\"" + Spell(Respell(ps[0])) + "\"" + if |ps| == 1 then [] else " " + Print(ps[1..])
  }

  // ----- The normal form -----

  /** Quotes that no backslash escapes. */
  function CountQuotes(s: Text): nat {
    if s == [] then 0
    else if s[0] == '\\' then if |s| >= 2 then CountQuotes(s[2..]) else 0
    else (if s[0] == '"' then 1 else 0) + CountQuotes(s[1..])
  }

  function QuotedSegments(value: Text): nat {
    if HasQuote(value) then CountQuotes(value) / 2 else 1
  }

  method CountQuotedSegments(value: Text) returns (n: nat)
    ensures n == QuotedSegments(value)
  {
    if !HasQuote(value) {
      return 1;
    }
    var quotes := 0;
    var i := 0;
    while i < |value|
      invariant quotes + (if i <= |value| then CountQuotes(value[i..]) else 0) == CountQuotes(value)
    {
      if value[i] == '\\' {
        i := i + 1; // the next character is escaped
      } else if value[i] == '"' {
        quotes := quotes + 1;
      }
      i := i + 1;
    }
    return quotes / 2;
  }

  function NormalizeTXT(value: Text): Option<Text> {
    match ParseTXT(value)
    case None => None
    case Some(ps) =>
      if |ps| <= QuotedSegments(value) && HasQuote(value) then Some(value) else Some(Print(ps))
  }
}
