/**
 * String helpers: Python's string ordering (code point by code point, a proper
 * prefix first), `sep.join(xs)` and the decimal rendering of a count.
 */
module Text {

  /** Python's `a < b` on `str`. */
  predicate Less(a: string, b: string)
  {
    if |a| == 0 then |b| > 0
    else if |b| == 0 then false
    else if a[0] != b[0] then a[0] < b[0]
    else Less(a[1..], b[1..])
  }

  lemma {:induction false} LessIrreflexive(a: string)
    ensures !Less(a, a)
  {
    if |a| > 0 {
      LessIrreflexive(a[1..]);
    }
  }

  lemma {:induction false} LessTransitive(a: string, b: string, c: string)
    requires Less(a, b) && Less(b, c)
    ensures Less(a, c)
  {
    if |a| > 0 && |b| > 0 && |c| > 0 && a[0] == b[0] && b[0] == c[0] {
      LessTransitive(a[1..], b[1..], c[1..]);
    }
  }

  lemma {:induction false} LessTotal(a: string, b: string)
    requires a != b
    ensures Less(a, b) || Less(b, a)
  {
    if |a| > 0 && |b| > 0 && a[0] == b[0] {
      assert a == [a[0]] + a[1..] && b == [b[0]] + b[1..];
      LessTotal(a[1..], b[1..]);
    }
  }

  lemma LessAsymmetric(a: string, b: string)
    requires Less(a, b)
    ensures !Less(b, a)
  {
    if Less(b, a) {
      LessTransitive(a, b, a);
      LessIrreflexive(a);
    }
  }

  /** Python's `sep.join(xs)`. */
  function Join(xs: seq<string>, sep: string): string
  {
    if |xs| == 0 then ""
    else if |xs| == 1 then xs[0]
    else xs[0] + sep + Join(xs[1..], sep)
  }

  /** `"".join(prefix + x for x in xs)`: every element preceded by `prefix`. */
  function Prefixed(xs: seq<string>, prefix: string): string
  {
    if |xs| == 0 then "" else prefix + xs[0] + Prefixed(xs[1..], prefix)
  }

  /** Joining with `sep` and putting one more `sep` in front is the same as prefixing every element with `sep`. */
  lemma {:induction false} JoinPrefixed(xs: seq<string>, sep: string)
    requires |xs| > 0
    ensures sep + Join(xs, sep) == Prefixed(xs, sep)
  {
    if |xs| > 1 {
      JoinPrefixed(xs[1..], sep);
      assert sep + Join(xs, sep) == sep + xs[0] + (sep + Join(xs[1..], sep));
    }
  }

  function DigitChar(d: nat): char
    requires d < 10
  {
    "0123456789"[d]
  }

  /** Python's `str(n)` for a non-negative integer. */
  function NatToString(n: nat): (r: string)
    ensures |r| > 0
  {
    if n < 10 then [DigitChar(n)] else NatToString(n / 10) + [DigitChar(n % 10)]
  }
}
