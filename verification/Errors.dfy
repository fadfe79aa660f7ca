/** internal/dpf/errors.go and internal/webhook/errors.go: error trees and their one class. */
module Errors {
  import opened Text
  import opened Validate

  /** What a node of a wrapped error is, as far as classification looks. */
  datatype Tag =
    | TemporaryMark | PermanentMark | UnsupportedTypeMark | ZoneNotFoundMark
    | TokenError | DpfZoneNotFound | StillLock | LabelLimit | NotLockHolder
    | DeadlineExceeded | Canceled
    | ApiError(status: int)
    | RawApiError(message: Text)
    | NetError
    | Other

  /** An error and the errors it wraps. */
  datatype Error = Error(tag: Tag, causes: seq<Error>)

  /** errors.Is. */
  predicate Is(e: Error, t: Tag) {
    e.tag == t || exists c <- e.causes :: Is(c, t)
  }

  /** errors.As on the kinds below: the first match, node before causes, causes in order. */
  datatype Kind = Api | RawApi | Token

  predicate Matches(t: Tag, k: Kind) {
    match k
    case Api => t.ApiError?
    case RawApi => t.RawApiError?
    case Token => t.TokenError?
  }

  function FirstAs(e: Error, k: Kind): (r: Option<Tag>)
    ensures r.Some? ==> Matches(r.value, k)
    decreases e, 1
  {
    if Matches(e.tag, k) then Some(e.tag) else FirstAmong(e.causes, k)
  }

  function FirstAmong(es: seq<Error>, k: Kind): (r: Option<Tag>)
    ensures r.Some? ==> Matches(r.value, k)
    decreases es, 0
  {
    if es == [] then None
    else if FirstAs(es[0], k).Some? then FirstAs(es[0], k)
    else FirstAmong(es[1..], k)
  }

  function Leaf(t: Tag): Error {
    Error(t, [])
  }

  /** fmt.Errorf with two %w verbs. */
  function Wrap(mark: Tag, e: Error): Error {
    Error(Other, [Leaf(mark), e])
  }

  // ----- Classify -----

  function ClassifyStatus(status: int, e: Error): Error {
    if status == 429 then Wrap(TemporaryMark, e)
    else if status >= 500 then Wrap(TemporaryMark, e)
    else if status == 408 then Wrap(TemporaryMark, e)
    else if status >= 400 then Wrap(PermanentMark, e)
    else Wrap(TemporaryMark, e)
  }

  /** The text before the first blank. */
  function Head(s: Text): Text {
    if s == [] || s[0] == ' ' then [] else [s[0]] + Head(s[1..])
  }

  /** The status code at the front of a raw message, if there is one. */
  function GenericStatus(message: Text): Option<int> {
    var n := Atoi(Head(message));
    if n.Some? && 100 <= n.value <= 599 then n else None
  }

  predicate Marked(e: Error) {
    Is(e, TemporaryMark) || Is(e, PermanentMark)
  }

  function Classify(e: Error): Error {
    if Marked(e) then e
    else if FirstAs(e, Token).Some? then Error(Other, [Leaf(PermanentMark)])
    else if Is(e, DpfZoneNotFound) then Error(Other, [Leaf(PermanentMark), Leaf(ZoneNotFoundMark)])
    else if Is(e, StillLock) then Wrap(TemporaryMark, e)
    else if Is(e, LabelLimit) then Wrap(PermanentMark, e)
    else if Is(e, NotLockHolder) then Wrap(TemporaryMark, e)
    else if Is(e, DeadlineExceeded) || Is(e, Canceled) then Wrap(TemporaryMark, e)
    else if FirstAs(e, Api).Some? then ClassifyStatus(FirstAs(e, Api).value.status, e)
    else if FirstAs(e, RawApi).Some? && GenericStatus(FirstAs(e, RawApi).value.message).Some? then
      ClassifyStatus(GenericStatus(FirstAs(e, RawApi).value.message).value, Error(Other, [e]))
    else Wrap(TemporaryMark, e)
  }

  // ----- statusFor -----

  /** The HTTP answer. The temporary class is looked for first. */
  function StatusFor(e: Option<Error>): int {
    if e.None? then 200
    else if Is(e.value, TemporaryMark) then 500
    else if Is(e.value, PermanentMark) || Is(e.value, UnsupportedTypeMark) || Is(e.value, ZoneNotFoundMark) then 400
    else 500
  }

  // ----- Main results -----

  predicate OneClass(e: Error) {
    Is(e, TemporaryMark) != Is(e, PermanentMark)
  }

  lemma IsWrap(mark: Tag, e: Error, t: Tag)
    ensures Is(Wrap(mark, e), t) <==> t == Other || t == mark || Is(e, t)
  {
    var w := Wrap(mark, e);
    assert w.causes[0] == Leaf(mark) && w.causes[1] == e;
    assert Leaf(mark) in w.causes && e in w.causes;
    assert Is(Leaf(mark), t) <==> t == mark;
  }

  lemma IsSingle(e: Error, t: Tag)
    ensures Is(Error(Other, [e]), t) <==> t == Other || Is(e, t)
  {
    assert Error(Other, [e]).causes[0] == e;
    assert e in Error(Other, [e]).causes;
  }

  lemma WrapMarks(mark: Tag, e: Error)
    requires !Marked(e) && (mark.TemporaryMark? || mark.PermanentMark?)
    ensures Is(Wrap(mark, e), TemporaryMark) <==> mark.TemporaryMark?
    ensures Is(Wrap(mark, e), PermanentMark) <==> mark.PermanentMark?
  {
    IsWrap(mark, e, TemporaryMark);
    IsWrap(mark, e, PermanentMark);
  }

  predicate IsMarkedAs(c: Error, mark: Tag, x: Error) {
    c == Wrap(mark, x) && !Marked(x) && (mark.TemporaryMark? || mark.PermanentMark?)
  }

  /** An unclassified error is wrapped with one mark, or replaced by a text with the permanent one. */
  lemma ClassifyShape(e: Error)
    requires !Marked(e)
    ensures Classify(e) == Error(Other, [Leaf(PermanentMark)]) || exists mark, x :: IsMarkedAs(Classify(e), mark, x)
  {
    var single := Error(Other, [e]);
    IsSingle(e, TemporaryMark);
    IsSingle(e, PermanentMark);
    var gone := Leaf(ZoneNotFoundMark);
    assert !Marked(single) && !Marked(gone);
    assert Wrap(PermanentMark, gone) == Error(Other, [Leaf(PermanentMark), gone]);
    var c := Classify(e);
    assert c == Error(Other, [Leaf(PermanentMark)])
        || IsMarkedAs(c, TemporaryMark, e) || IsMarkedAs(c, PermanentMark, e)
        || IsMarkedAs(c, TemporaryMark, single) || IsMarkedAs(c, PermanentMark, single)
        || IsMarkedAs(c, PermanentMark, gone);
  }

  /** Every error leaves with a class, and with exactly one unless it came with both. */
  lemma ClassifyGivesOneClass(e: Error)
    ensures Marked(Classify(e))
    ensures OneClass(Classify(e)) <==> !(Is(e, TemporaryMark) && Is(e, PermanentMark))
  {
    if !Marked(e) {
      ClassifyShape(e);
      IsSingle(Leaf(PermanentMark), TemporaryMark);
      IsSingle(Leaf(PermanentMark), PermanentMark);
      if Classify(e) != Error(Other, [Leaf(PermanentMark)]) {
        var mark, x :| IsMarkedAs(Classify(e), mark, x);
        WrapMarks(mark, x);
      }
    }
  }

  /** A further layer around an error: text, and other errors that carry no class. */
  datatype Layer = Layer(before: seq<Error>, after: seq<Error>)

  predicate Neutral(l: Layer) {
    (forall x <- l.before :: !Marked(x)) && (forall x <- l.after :: !Marked(x))
  }

  function Around(e: Error, layers: seq<Layer>): Error {
    if layers == [] then e
    else
      var l := layers[|layers| - 1];
      Error(Other, l.before + [Around(e, layers[..|layers| - 1])] + l.after)
  }

  lemma {:induction false} LayerKeepsMark(l: Layer, e: Error, mark: Tag)
    requires Neutral(l) && (mark.TemporaryMark? || mark.PermanentMark?)
    ensures Is(Error(Other, l.before + [e] + l.after), mark) <==> Is(e, mark)
  {
    var cs := l.before + [e] + l.after;
    assert cs[|l.before|] == e;
    assert forall x <- cs :: x in l.before || x == e || x in l.after;
  }

  lemma {:induction false} LayersKeepMark(e: Error, layers: seq<Layer>, mark: Tag)
    requires forall l <- layers :: Neutral(l)
    requires mark.TemporaryMark? || mark.PermanentMark?
    ensures Is(Around(e, layers), mark) <==> Is(e, mark)
  {
    if layers != [] {
      var front, l := layers[..|layers| - 1], layers[|layers| - 1];
      assert layers == front + [l];
      LayersKeepMark(e, front, mark);
      LayerKeepsMark(l, Around(e, front), mark);
    }
  }

  /** A classified error keeps its class under any number of layers, and is not classified anew. */
  lemma {:induction false} ClassIsStable(e: Error, layers: seq<Layer>)
    requires forall l <- layers :: Neutral(l)
    ensures var c := Classify(e);
            && Classify(Around(c, layers)) == Around(c, layers)
            && (Is(Around(c, layers), TemporaryMark) <==> Is(c, TemporaryMark))
            && (Is(Around(c, layers), PermanentMark) <==> Is(c, PermanentMark))
  {
    ClassifyGivesOneClass(e);
    LayersKeepMark(Classify(e), layers, TemporaryMark);
    LayersKeepMark(Classify(e), layers, PermanentMark);
  }

  /**
   Whatever layers are added on the way out, ExternalDNS is told to retry exactly when the class is temporary;
   an error that came with both classes is retried.
   */
  lemma {:induction false} AnswerFollowsClass(e: Error, layers: seq<Layer>)
    requires forall l <- layers :: Neutral(l)
    ensures StatusFor(Some(Around(Classify(e), layers))) == if Is(Classify(e), TemporaryMark) then 500 else 400
  {
    ClassIsStable(e, layers);
    ClassifyGivesOneClass(e);
  }

  // ----- What decides the class of an unclassified error -----

  /** errors.As finds a tag of the tree, and finds one whenever there is one. */
  lemma {:induction false} FirstAsFinds(e: Error, k: Kind)
    ensures FirstAs(e, k).Some? ==> Is(e, FirstAs(e, k).value)
    ensures FirstAs(e, k).None? ==> forall u: Tag :: Matches(u, k) ==> !Is(e, u)
    decreases e, 1
  {
    FirstAmongFinds(e.causes, k);
  }

  lemma {:induction false} FirstAmongFinds(es: seq<Error>, k: Kind)
    ensures FirstAmong(es, k).Some? ==> exists c <- es :: Is(c, FirstAmong(es, k).value)
    ensures FirstAmong(es, k).None? ==> forall c <- es, u: Tag :: Matches(u, k) ==> !Is(c, u)
    decreases es, 0
  {
    if es != [] {
      FirstAsFinds(es[0], k);
      FirstAmongFinds(es[1..], k);
      assert es == [es[0]] + es[1..];
    }
  }

  /** The client errors, apart from those that say that waiting helps. */
  predicate ClientError(status: int) {
    400 <= status < 500 && status != 408 && status != 429
  }

  /** What repeating the request cannot cure. */
  predicate Incurable(t: Tag) {
    match t
    case PermanentMark | TokenError | DpfZoneNotFound | LabelLimit => true
    case ApiError(status) => ClientError(status)
    case RawApiError(message) => GenericStatus(message).Some? && ClientError(GenericStatus(message).value)
    case _ => false
  }

  predicate Digits(a: int, b: int, c: int) {
    0 <= a <= 9 && 0 <= b <= 9 && 0 <= c <= 9
  }

  function Digit(n: int): Octet
    requires 0 <= n <= 9
  {
    (48 + n) as char
  }

  lemma HeadOfStatus(a: Octet, b: Octet, c: Octet, text: Text)
    requires a != ' ' && b != ' ' && c != ' '
    ensures Head([a, b, c, ' '] + text) == [a, b, c]
  {
    var m := [a, b, c, ' '] + text;
    assert m[1..][1..][1..] == [' '] + text;
    assert Head(m[1..][1..][1..]) == [];
    assert Head(m[1..][1..]) == [c];
    assert Head(m[1..]) == [b] + [c];
  }

  lemma ThreeDigits(a: int, b: int, c: int)
    requires Digits(a, b, c)
    ensures Atoi([Digit(a), Digit(b), Digit(c)]) == Some(100 * a + 10 * b + c)
  {
    var s := [Digit(a), Digit(b), Digit(c)];
    assert s[..2] == [Digit(a), Digit(b)] && s[..2][..1] == [Digit(a)] && s[..2][..1][..0] == [];
    assert DigitsValue(s[..2][..1]) == Some(a);
    assert DigitsValue(s[..2]) == Some(10 * a + b);
  }

  /** A raw message that begins with three digits and a blank has this status, whatever follows. */
  lemma StatusLineDecides(a: int, b: int, c: int, text: Text)
    requires Digits(a, b, c)
    ensures var status, message := 100 * a + 10 * b + c, [Digit(a), Digit(b), Digit(c), ' '] + text;
            && (GenericStatus(message) == if 100 <= status <= 599 then Some(status) else None)
            && (Incurable(RawApiError(message)) <==> 400 <= status <= 499 && status != 408 && status != 429)
  {
    hide Head, Atoi;
    HeadOfStatus(Digit(a), Digit(b), Digit(c), text);
    ThreeDigits(a, b, c);
  }

  /** The only tag of the tree apart from Other; when t is Other, there is none. */
  ghost predicate OnlyTag(e: Error, t: Tag) {
    forall u: Tag :: !u.Other? ==> (Is(e, u) <==> u == t)
  }

  function Verdict(t: Tag, e: Error): Error {
    match t
    case TemporaryMark | PermanentMark => e
    case TokenError => Error(Other, [Leaf(PermanentMark)])
    case DpfZoneNotFound => Wrap(PermanentMark, Leaf(ZoneNotFoundMark))
    case LabelLimit => Wrap(PermanentMark, e)
    case ApiError(status) => ClassifyStatus(status, e)
    case RawApiError(message) =>
      if GenericStatus(message).None? then Wrap(TemporaryMark, e)
      else ClassifyStatus(GenericStatus(message).value, Error(Other, [e]))
    case _ => Wrap(TemporaryMark, e)
  }

  lemma {:induction false} OnlyTagIsFound(e: Error, t: Tag, k: Kind)
    requires OnlyTag(e, t)
    ensures FirstAs(e, k) == if Matches(t, k) then Some(t) else None
  {
    FirstAsFinds(e, k);
  }

  lemma SingleCauseVerdict(e: Error, t: Tag)
    requires OnlyTag(e, t)
    ensures Classify(e) == Verdict(t, e)
  {
    hide Is;
    assert Is(e, TemporaryMark) <==> t == TemporaryMark;
    assert Is(e, PermanentMark) <==> t == PermanentMark;
    assert Is(e, DpfZoneNotFound) <==> t == DpfZoneNotFound;
    OnlyTagIsFound(e, t, Token);
    OnlyTagIsFound(e, t, Api);
    OnlyTagIsFound(e, t, RawApi);
    assert Error(Other, [Leaf(PermanentMark), Leaf(ZoneNotFoundMark)]) == Wrap(PermanentMark, Leaf(ZoneNotFoundMark));
  }

  lemma VerdictClass(e: Error, t: Tag)
    requires OnlyTag(e, t)
    ensures Is(Verdict(t, e), PermanentMark) <==> Incurable(t)
  {
    hide Is, GenericStatus;
    assert Is(e, PermanentMark) <==> t == PermanentMark;
    ClassifiedMark(e, e);
    ClassifiedMark(e, Error(Other, [e]));
    IsSingle(Leaf(PermanentMark), PermanentMark);
    IsWrap(PermanentMark, Leaf(ZoneNotFoundMark), PermanentMark);
  }

  /** A tree of any shape with a single cause leaves as permanent exactly when repeating cannot cure it. */
  lemma CauseDecidesClass(e: Error, t: Tag)
    requires OnlyTag(e, t)
    ensures Is(Classify(e), PermanentMark) <==> Incurable(t)
  {
    SingleCauseVerdict(e, t);
    VerdictClass(e, t);
  }

  /** Of an error about the token only the class is told: nothing it wraps is left in the tree. */
  lemma TokenCauseIsDropped(e: Error, u: Tag)
    requires !Marked(e) && FirstAs(e, Token).Some?
    ensures Is(Classify(e), u) <==> u == PermanentMark || u == Other
  {
    IsSingle(Leaf(PermanentMark), u);
  }

  /** An error with a single cause that was not classified is answered 400 when it says itself that it is permanent. */
  lemma {:induction false} AnswerOfSingleCause(e: Error, t: Tag)
    requires OnlyTag(e, t)
    ensures StatusFor(Some(e)) == if t.PermanentMark? || t.UnsupportedTypeMark? || t.ZoneNotFoundMark? then 400 else 500
    ensures StatusFor(None) == 200
  {
    hide Is;
    assert Is(e, TemporaryMark) <==> t == TemporaryMark;
    assert Is(e, PermanentMark) <==> t == PermanentMark;
    assert Is(e, UnsupportedTypeMark) <==> t == UnsupportedTypeMark;
    assert Is(e, ZoneNotFoundMark) <==> t == ZoneNotFoundMark;
  }

  // ----- API answers, which wrap further errors -----

  /** What is looked for before any API answer. */
  predicate Earlier(t: Tag) {
    match t
    case ApiError(_) | RawApiError(_) | UnsupportedTypeMark | ZoneNotFoundMark | NetError | Other => false
    case _ => true
  }

  ghost predicate Clear(e: Error) {
    forall u: Tag :: Earlier(u) ==> !Is(e, u)
  }

  lemma {:induction false} ClearIsUnmarked(e: Error)
    requires Clear(e)
    ensures !Marked(e) && FirstAs(e, Token).None?
  {
    FirstAsFinds(e, Token);
  }

  /** An answer decides when nothing earlier is in the tree and it is the answer that is found. */
  ghost predicate Decisive(e: Error, t: Tag) {
    && Clear(e)
    && match t
       case ApiError(_) => FirstAs(e, Api) == Some(t)
       case RawApiError(_) => FirstAs(e, Api).None? && FirstAs(e, RawApi) == Some(t)
       case _ => false
  }

  lemma DecisiveAnswerDecides(e: Error, t: Tag)
    requires Decisive(e, t)
    ensures Is(Classify(e), PermanentMark) <==> Incurable(t)
  {
    hide Is, FirstAs;
    ClearIsUnmarked(e);
    assert !Is(e, DpfZoneNotFound) && !Is(e, StillLock) && !Is(e, LabelLimit) && !Is(e, NotLockHolder);
    assert !Is(e, DeadlineExceeded) && !Is(e, Canceled);
    ClassifiedMark(e, e);
    ClassifiedMark(e, Error(Other, [e]));
  }

  /** An error beside or below an API answer that does not hide it. */
  ghost predicate Beside(x: Error, t: Tag) {
    Clear(x) && (t.RawApiError? ==> FirstAs(x, Api).None?)
  }

  /** The same for an error that errors.As reaches first. */
  ghost predicate Ahead(x: Error, t: Tag) {
    Clear(x) && FirstAs(x, Api).None? && (t.RawApiError? ==> FirstAs(x, RawApi).None?)
  }

  ghost predicate Transparent(l: Layer, t: Tag) {
    (forall x <- l.before :: Ahead(x, t)) && (forall x <- l.after :: Beside(x, t))
  }

  lemma {:induction false} FirstAmongSkips(a: seq<Error>, b: seq<Error>, k: Kind)
    requires forall x <- a :: FirstAs(x, k).None?
    ensures FirstAmong(a + b, k) == FirstAmong(b, k)
  {
    if a == [] {
      assert a + b == b;
    } else {
      assert (a + b)[1..] == a[1..] + b;
      FirstAmongSkips(a[1..], b, k);
    }
  }

  lemma {:induction false} NoneAmong(es: seq<Error>, k: Kind)
    requires forall x <- es :: FirstAs(x, k).None?
    ensures FirstAmong(es, k).None?
  {
    assert es + [] == es;
    FirstAmongSkips(es, [], k);
  }

  lemma LayerIsTransparent(e: Error, l: Layer, t: Tag)
    requires Decisive(e, t) && Transparent(l, t)
    ensures Decisive(Error(Other, l.before + [e] + l.after), t)
  {
    var cs := l.before + [e] + l.after;
    assert forall x <- cs :: x in l.before || x == e || x in l.after;
    assert cs == l.before + ([e] + l.after);
    assert ([e] + l.after)[1..] == l.after;
    FirstAmongSkips(l.before, [e] + l.after, Api);
    if t.RawApiError? {
      NoneAmong(l.after, Api);
      FirstAmongSkips(l.before, [e] + l.after, RawApi);
    }
  }

  lemma {:induction false} LayersAreTransparent(e: Error, layers: seq<Layer>, t: Tag)
    requires Decisive(e, t) && forall l <- layers :: Transparent(l, t)
    ensures Decisive(Around(e, layers), t)
  {
    if layers != [] {
      var front, l := layers[..|layers| - 1], layers[|layers| - 1];
      assert layers == front + [l];
      LayersAreTransparent(e, front, t);
      LayerIsTransparent(Around(e, front), l, t);
    }
  }

  /**
   An API answer decides the class whatever it wraps and however it is wrapped, as long as nothing that is looked
   for earlier is in the tree: a status that is carried, or one that is read from the message.
   wrapAPIError carries the status around the error of the call, which is usually a raw API error itself.
   */
  lemma {:induction false} AnswerDecidesClass(t: Tag, causes: seq<Error>, layers: seq<Layer>)
    requires t.ApiError? || t.RawApiError?
    requires (forall c <- causes :: Beside(c, t)) && (forall l <- layers :: Transparent(l, t))
    ensures Is(Classify(Around(Error(t, causes), layers)), PermanentMark) <==> Incurable(t)
  {
    var e := Error(t, causes);
    if t.RawApiError? {
      NoneAmong(causes, Api);
    }
    LayersAreTransparent(e, layers, t);
    DecisiveAnswerDecides(Around(e, layers), t);
  }

  lemma {:induction false} ClassifiedMark(e: Error, x: Error)
    requires x == e || x == Error(Other, [e])
    ensures Is(Wrap(PermanentMark, x), PermanentMark)
    ensures Is(Wrap(TemporaryMark, x), PermanentMark) <==> Is(e, PermanentMark)
  {
    IsSingle(e, PermanentMark);
    IsWrap(PermanentMark, x, PermanentMark);
    IsWrap(TemporaryMark, x, PermanentMark);
  }
}
