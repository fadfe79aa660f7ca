/**
 Octet strings, optional values and results shared by every other module.
 A Go string is a sequence of octets. A `Text` has one character for each octet;
 nothing depends on characters above 255, which do not occur.
 */
module Text {

  type Octet = char

  type Text = seq<Octet>

  datatype Option<+T> = None | Some(value: T)

  /** The error class decides whether ExternalDNS retries; the reason says which check failed. */
  datatype Failure = Permanent(reason: Reason) | Temporary(reason: Reason)

  datatype Reason =
    | InvalidName
    | UnsupportedType
    | TtlOutOfRange
    | UnderscoreInName
    | NotSingleValue
    | CnameNotAlone
    | UnparsableTxt
    | BadNumericField
    | ZoneNotFound
    | LostWithoutRequest
    | StillLocked

  datatype Result<+T> = Ok(value: T) | Err(failure: Failure)

  /** Bytewise lexicographic order, as strings.Compare uses it. */
  predicate Before(a: Text, b: Text) {
    b != [] && (a == [] || a[0] < b[0] || (a[0] == b[0] && Before(a[1..], b[1..])))
  }

  /** Behind a common prefix the first difference decides, by octet code; a prefix comes before the longer text. */
  lemma {:induction false} BeforeAtFirstDifference(a: Text, b: Text, n: nat)
    requires n <= |a| && n <= |b| && a[..n] == b[..n]
    requires n == |a| || n == |b| || a[n] != b[n]
    ensures Before(a, b) <==> n < |b| && (n == |a| || a[n] as int < b[n] as int)
  {
    if n > 0 {
      assert a[0] == a[..n][0] == b[..n][0] == b[0];
      assert a[1..][..n - 1] == a[..n][1..] == b[..n][1..] == b[1..][..n - 1];
      BeforeAtFirstDifference(a[1..], b[1..], n - 1);
    }
  }

  lemma BeforeIsTotal(a: Text, b: Text)
    ensures a == b || Before(a, b) || Before(b, a)
  {
    if a != [] && b != [] && a[0] == b[0] {
      BeforeIsTotal(a[1..], b[1..]);
      assert a == [a[0]] + a[1..] && b == [b[0]] + b[1..];
    }
  }

  lemma {:induction false} BeforeIsAsymmetric(a: Text, b: Text)
    requires Before(a, b)
    ensures a != b && !Before(b, a)
  {
    if a != [] && a[0] == b[0] {
      BeforeIsAsymmetric(a[1..], b[1..]);
    }
  }

  lemma {:induction false} BeforeIsTransitive(a: Text, b: Text, c: Text)
    requires Before(a, b) && Before(b, c)
    ensures Before(a, c)
  {
    if a != [] && a[0] == b[0] == c[0] {
      BeforeIsTransitive(a[1..], b[1..], c[1..]);
    }
  }
}
