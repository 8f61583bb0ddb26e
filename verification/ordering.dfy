/** Python's `sorted` on a collection of distinct strings: strings compare
    character by character on code points, and a proper prefix sorts first.
 */
module Ordering {

  /** `a < b` for Python strings. */
  predicate Less(a: string, b: string)
    decreases |a|
  {
    if |a| == 0 then |b| > 0
    else |b| > 0 && (a[0] < b[0] || (a[0] == b[0] && Less(a[1..], b[1..])))
  }

  lemma {:induction false} LessIrreflexive(a: string)
    ensures !Less(a, a)
    decreases |a|
  {
    if |a| > 0 {
      LessIrreflexive(a[1..]);
    }
  }

  lemma {:induction false} LessTransitive(a: string, b: string, c: string)
    requires Less(a, b) && Less(b, c)
    ensures Less(a, c)
    decreases |a|
  {
    if |a| > 0 && a[0] == b[0] && b[0] == c[0] {
      LessTransitive(a[1..], b[1..], c[1..]);
    }
  }

  /** Any two different strings are ordered one way or the other. */
  lemma {:induction false} LessTotal(a: string, b: string)
    requires a != b
    ensures Less(a, b) || Less(b, a)
    decreases |a|
  {
    if |a| > 0 && |b| > 0 && a[0] == b[0] {
      assert a == [a[0]] + a[1..] && b == [b[0]] + b[1..];
      LessTotal(a[1..], b[1..]);
    }
  }

  ghost predicate StrictlySorted(r: seq<string>)
  {
    forall i, j :: 0 <= i < j < |r| ==> Less(r[i], r[j])
  }

  /** `x` placed into the sorted sequence `r` at its position. */
  function Insert(r: seq<string>, x: string): (r': seq<string>)
    requires StrictlySorted(r) && x !in r
    ensures StrictlySorted(r')
    ensures forall y :: y in r' <==> y in r || y == x
    ensures |r'| == |r| + 1
    decreases |r|
  {
    if |r| == 0 then [x]
    else if Less(x, r[0]) then
      assert forall j :: 0 <= j < |r| ==> Less(x, r[j]) by {
        forall j | 0 <= j < |r| ensures Less(x, r[j]) {
          if j > 0 { LessTransitive(x, r[0], r[j]); }
        }
      }
      [x] + r
    else
      LessTotal(x, r[0]);
      var tail := Insert(r[1..], x);
      assert forall y :: y in tail ==> Less(r[0], y) by {
        forall y | y in tail ensures Less(r[0], y) {
          if y != x {
            var j :| 1 <= j < |r| && r[j] == y;
          }
        }
      }
      [r[0]] + tail
  }

  /** `sorted(keys)`: the keys in ascending order, each exactly once. */
  method SortedKeys(keys: set<string>) returns (r: seq<string>)
    ensures StrictlySorted(r)
    ensures forall x :: x in r <==> x in keys
    ensures |r| == |keys|
  {
    r := [];
    var rest := keys;
    while rest != {}
      invariant rest <= keys
      invariant StrictlySorted(r)
      invariant forall x :: x in r <==> x in keys && x !in rest
      invariant |r| + |rest| == |keys|
      decreases |rest|
    {
      var x :| x in rest;
      r := Insert(r, x);
      rest := rest - {x};
    }
  }

  /** A strictly sorted sequence has no repeated element. */
  lemma SortedDistinct(r: seq<string>)
    requires StrictlySorted(r)
    ensures forall i, j :: 0 <= i < j < |r| ==> r[i] != r[j]
  {
    forall i, j | 0 <= i < j < |r| ensures r[i] != r[j] {
      LessIrreflexive(r[i]);
    }
  }

  /** The first element of a strictly sorted sequence is below all the others. */
  lemma FirstIsLeast(r: seq<string>, x: string)
    requires StrictlySorted(r) && x in r
    ensures x == r[0] || Less(r[0], x)
  {
  }

  lemma NonEmptyHasElement(r: seq<string>)
    ensures |r| > 0 <==> exists x :: x in r
  {
    if |r| > 0 {
      assert r[0] in r;
    }
  }

  /** Two strictly sorted sequences with the same elements are equal, so
      `SortedKeys` has exactly one possible result. */
  lemma {:induction false} SortedUnique(r: seq<string>, q: seq<string>)
    requires StrictlySorted(r) && StrictlySorted(q)
    requires forall x :: x in r <==> x in q
    ensures r == q
    decreases |r|
  {
    NonEmptyHasElement(r);
    NonEmptyHasElement(q);
    if |r| > 0 && |q| > 0 {
      FirstIsLeast(r, q[0]);
      FirstIsLeast(q, r[0]);
      if r[0] != q[0] {
        LessTransitive(r[0], q[0], r[0]);
        LessIrreflexive(r[0]);
      }
      assert r == [r[0]] + r[1..] && q == [q[0]] + q[1..];
      forall x ensures x in r[1..] <==> x in q[1..] {
        if x in r[1..] {
          var k :| 1 <= k < |r| && r[k] == x;
          LessIrreflexive(r[0]);
          assert x in q;
        }
        if x in q[1..] {
          var k :| 1 <= k < |q| && q[k] == x;
          LessIrreflexive(q[0]);
          assert x in r;
        }
      }
      SortedUnique(r[1..], q[1..]);
    }
  }
}
