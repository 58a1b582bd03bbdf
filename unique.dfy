/**
 * `get_sorted_unique`: the non-missing values of a column, without repetitions,
 * in ascending string order. It feeds the filter drop-downs and the list of
 * per-stage threshold inputs.
 */
module Unique {
  import opened Values
  import opened Text

  predicate StrictlySorted(s: seq<string>)
  {
    forall i, j :: 0 <= i < j < |s| ==> Less(s[i], s[j])
  }

  /** Inserts `x` into a strictly ascending list, keeping it strictly ascending. */
  function InsertUnique(x: string, s: seq<string>): (r: seq<string>)
    requires StrictlySorted(s)
    ensures StrictlySorted(r)
    ensures forall y :: y in r <==> y in s || y == x
  {
    if |s| == 0 then [x]
    else if x == s[0] then s
    else if Less(x, s[0]) then
      var r := [x] + s;
      assert StrictlySorted(r) by {
        forall i, j | 0 <= i < j < |r| ensures Less(r[i], r[j]) {
          if i == 0 && j > 1 { LessTransitive(x, s[0], r[j]); }
        }
      }
      r
    else
      LessTotal(x, s[0]);
      var t := InsertUnique(x, s[1..]);
      var r := [s[0]] + t;
      assert StrictlySorted(r) by {
        forall i, j | 0 <= i < j < |r| ensures Less(r[i], r[j]) {
          if i == 0 {
            assert r[j] in t;
            if r[j] != x {
              var k :| 0 <= k < |s[1..]| && s[1..][k] == r[j];
              assert s[k + 1] == r[j];
            }
          } else {
            assert r[i] == t[i - 1] && r[j] == t[j - 1];
          }
        }
      }
      assert forall y :: y in s <==> y == s[0] || y in s[1..] by {
        assert s == [s[0]] + s[1..];
      }
      r
  }

  /** `get_sorted_unique(series)`: strictly ascending, and holding exactly the values present in the column. */
  function SortedUnique(column: seq<Option<string>>): (r: seq<string>)
    ensures StrictlySorted(r)
    ensures forall v :: v in r <==> Some(v) in column
  {
    if |column| == 0 then []
    else
      var init := column[..|column| - 1];
      var last := column[|column| - 1];
      assert column == init + [last];
      var rest := SortedUnique(init);
      if last.Some? then InsertUnique(last.value, rest) else rest
  }

  /** A strictly ascending list never repeats a value. */
  lemma StrictlySortedIsDistinct(s: seq<string>, i: int, j: int)
    requires StrictlySorted(s) && 0 <= i < j < |s|
    ensures s[i] != s[j]
  {
    LessIrreflexive(s[i]);
  }

  /** The head of a strictly ascending list is below every other value of it. */
  lemma HeadIsLeast(s: seq<string>, v: string)
    requires StrictlySorted(s) && v in s && v != s[0]
    ensures Less(s[0], v)
  {
  }

  /** A strictly ascending list is determined by its values: the result of `get_sorted_unique` does not
      depend on the row order of the column. */
  lemma {:induction false} StrictlySortedUnique(a: seq<string>, b: seq<string>)
    requires StrictlySorted(a) && StrictlySorted(b)
    requires forall v :: v in a <==> v in b
    ensures a == b
  {
    if |a| > 0 { assert a[0] in a; }
    if |b| > 0 { assert b[0] in b; }
    if |a| > 0 && |b| > 0 {
      assert a[0] == b[0] by {
        if a[0] != b[0] {
          HeadIsLeast(a, b[0]);
          HeadIsLeast(b, a[0]);
          LessAsymmetric(a[0], b[0]);
        }
      }
      forall v ensures v in a[1..] <==> v in b[1..] {
        if v in a[1..] {
          var k :| 0 <= k < |a[1..]| && a[1..][k] == v;
          assert a[k + 1] == v && Less(a[0], v);
          LessIrreflexive(v);
          assert v in b;
          assert b == [b[0]] + b[1..];
        }
        if v in b[1..] {
          var k :| 0 <= k < |b[1..]| && b[1..][k] == v;
          assert b[k + 1] == v && Less(b[0], v);
          LessIrreflexive(v);
          assert v in a;
          assert a == [a[0]] + a[1..];
        }
      }
      StrictlySortedUnique(a[1..], b[1..]);
      assert a == [a[0]] + a[1..] && b == [b[0]] + b[1..];
    }
  }
}
