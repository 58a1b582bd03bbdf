/**
 * Sequence operations shared by the filters, the registry and the metrics:
 * boolean-mask selection (pandas `df[mask]`), order-preserving subsequences and
 * the set of distinct values of a column.
 */
module Seqs {

  /** `s[mask]`: the elements satisfying `p`, in their original order. */
  function Keep<T>(s: seq<T>, p: T -> bool): (r: seq<T>)
    ensures |r| <= |s|
  {
    if |s| == 0 then [] else (if p(s[0]) then [s[0]] else []) + Keep(s[1..], p)
  }

  /** `a` can be obtained from `b` by deleting elements. */
  ghost predicate IsSubsequence<T>(a: seq<T>, b: seq<T>)
  {
    if |a| == 0 then true
    else if |b| == 0 then false
    else if a[0] == b[0] then IsSubsequence(a[1..], b[1..])
    else IsSubsequence(a, b[1..])
  }

  predicate Distinct<T(==)>(s: seq<T>)
  {
    forall i, j :: 0 <= i < j < |s| ==> s[i] != s[j]
  }

  lemma {:induction false} KeepIsSubsequence<T>(s: seq<T>, p: T -> bool)
    ensures IsSubsequence(Keep(s, p), s)
  {
    if |s| > 0 {
      KeepIsSubsequence(s[1..], p);
      var r := Keep(s, p);
      if p(s[0]) {
        assert r[0] == s[0] && r[1..] == Keep(s[1..], p);
      } else {
        assert r == Keep(s[1..], p);
        SubsequenceOfTail(r, s);
      }
    }
  }

  lemma {:induction false} SubsequenceOfTail<T>(a: seq<T>, b: seq<T>)
    requires |b| > 0 && IsSubsequence(a, b[1..])
    ensures IsSubsequence(a, b)
  {
    if |a| > 0 && a[0] == b[0] {
      SubsequenceDropHead(a, b[1..]);
    }
  }

  lemma {:induction false} SubsequenceDropHead<T>(a: seq<T>, b: seq<T>)
    requires |a| > 0 && IsSubsequence(a, b)
    ensures IsSubsequence(a[1..], b)
  {
    if |b| > 0 && a[0] != b[0] {
      SubsequenceDropHead(a, b[1..]);
      SubsequenceOfTail(a[1..], b);
    } else if |b| > 0 {
      SubsequenceOfTail(a[1..], b);
    }
  }

  /** Being kept is exactly being in the input and satisfying the predicate. */
  lemma {:induction false} KeepMembers<T>(s: seq<T>, p: T -> bool, x: T)
    ensures x in Keep(s, p) <==> x in s && p(x)
  {
    if |s| > 0 {
      KeepMembers(s[1..], p, x);
      assert s == [s[0]] + s[1..];
    }
  }

  /** A mask that every element passes selects everything. */
  lemma {:induction false} KeepAll<T>(s: seq<T>, p: T -> bool)
    requires forall i :: 0 <= i < |s| ==> p(s[i])
    ensures Keep(s, p) == s
  {
    if |s| > 0 {
      KeepAll(s[1..], p);
      assert s == [s[0]] + s[1..];
    }
  }

  /** Two masks applied in turn select what their conjunction selects. */
  lemma {:induction false} KeepKeep<T>(s: seq<T>, p: T -> bool, q: T -> bool, pq: T -> bool)
    requires forall x :: pq(x) == (p(x) && q(x))
    ensures Keep(Keep(s, p), q) == Keep(s, pq)
  {
    if |s| > 0 {
      KeepKeep(s[1..], p, q, pq);
      if p(s[0]) {
        assert Keep(s, p) == [s[0]] + Keep(s[1..], p);
        assert Keep(s, p)[1..] == Keep(s[1..], p);
      } else {
        assert Keep(s, p) == Keep(s[1..], p);
      }
    }
  }

  /** Selection from a sequence without repetitions has no repetitions. */
  lemma {:induction false} KeepDistinct<T>(s: seq<T>, p: T -> bool)
    requires Distinct(s)
    ensures Distinct(Keep(s, p))
  {
    if |s| > 0 {
      assert Distinct(s[1..]) by {
        forall i, j | 0 <= i < j < |s[1..]| ensures s[1..][i] != s[1..][j] {
          assert s[1..][i] == s[i + 1] && s[1..][j] == s[j + 1];
        }
      }
      KeepDistinct(s[1..], p);
      var t := Keep(s[1..], p);
      if p(s[0]) {
        var r := [s[0]] + t;
        forall i, j | 0 <= i < j < |r| ensures r[i] != r[j] {
          if i == 0 {
            assert r[j] in t;
            KeepMembers(s[1..], p, r[j]);
            assert s[0] !in s[1..] by {
              forall k | 0 <= k < |s[1..]| ensures s[1..][k] != s[0] {
                assert s[1..][k] == s[k + 1];
              }
            }
          } else {
            assert r[i] == t[i - 1] && r[j] == t[j - 1];
          }
        }
      }
    }
  }

  /** The set of values occurring in `s` (pandas `drop_duplicates` / `unique`, ignoring order). */
  function ValueSet<T(==,!new)>(s: seq<T>): (r: set<T>)
    ensures forall x :: x in r <==> x in s
  {
    if |s| == 0 then {} else ValueSet(s[..|s| - 1]) + {s[|s| - 1]}
  }

  /** There are never more distinct values than elements, and at least one when there is an element. */
  lemma {:induction false} ValuesBound<T(!new)>(s: seq<T>)
    ensures |ValueSet(s)| <= |s|
    ensures |s| > 0 ==> |ValueSet(s)| > 0
  {
    if |s| > 0 {
      ValuesBound(s[..|s| - 1]);
      assert s[|s| - 1] in ValueSet(s);
    }
  }

  /** Without repetitions, the number of distinct values is the number of elements. */
  lemma {:induction false} ValuesOfDistinct<T(!new)>(s: seq<T>)
    requires Distinct(s)
    ensures |ValueSet(s)| == |s|
  {
    if |s| > 0 {
      var init := s[..|s| - 1];
      assert Distinct(init) by {
        forall i, j | 0 <= i < j < |init| ensures init[i] != init[j] {
          assert init[i] == s[i] && init[j] == s[j];
        }
      }
      ValuesOfDistinct(init);
      assert s[|s| - 1] !in init by {
        forall k | 0 <= k < |init| ensures init[k] != s[|s| - 1] {
          assert init[k] == s[k];
        }
      }
      assert s[|s| - 1] !in ValueSet(init);
    }
  }
}
