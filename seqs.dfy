/** Order-preserving filtering of sequences, the shape of a queryset `.filter()`. */
module Seqs {

  /** The elements of `s` that satisfy `keep`, in their original order. */
  function Filter<T(!new)>(s: seq<T>, keep: T -> bool): (r: seq<T>)
    ensures |r| <= |s|
    ensures forall x :: x in r <==> x in s && keep(x)
    ensures forall i :: 0 <= i < |r| ==> keep(r[i])
  {
    if s == [] then []
    else if keep(s[0]) then [s[0]] + Filter(s[1..], keep)
    else Filter(s[1..], keep)
  }

  /** No two elements of `s` share a key. */
  ghost predicate Distinct<T, K>(s: seq<T>, key: T -> K)
  {
    forall i, j :: 0 <= i < j < |s| ==> key(s[i]) != key(s[j])
  }

  /** Filtering cannot make two keys collide. */
  lemma {:induction false} FilterDistinct<T(!new), K>(s: seq<T>, keep: T -> bool, key: T -> K)
    ensures Distinct(s, key) ==> Distinct(Filter(s, keep), key)
  {
    if s != [] && Distinct(s, key) {
      FilterDistinct(s[1..], keep, key);
      var tail := Filter(s[1..], keep);
      forall x | x in tail ensures key(x) != key(s[0]) {
        var k :| 0 <= k < |s[1..]| && s[1..][k] == x;
        assert s[k + 1] == x;
      }
    }
  }

  /** A sequence with a head has distinct keys iff its tail does and the
      head's key is not among them. */
  lemma ConsDistinct<T, K>(x: T, s: seq<T>, key: T -> K)
    ensures Distinct([x] + s, key) <==> Distinct(s, key) && forall y :: y in s ==> key(y) != key(x)
  {
    var xs := [x] + s;
    assert forall i :: 0 <= i < |s| ==> xs[i + 1] == s[i];
    if Distinct(s, key) && forall y :: y in s ==> key(y) != key(x) {
      forall i, j | 0 <= i < j < |xs| ensures key(xs[i]) != key(xs[j]) {
        if i == 0 {
          assert xs[j] in s;
        } else {
          assert xs[i] == s[i - 1] && xs[j] == s[j - 1];
        }
      }
    }
    if Distinct(xs, key) {
      forall y | y in s ensures key(y) != key(x) {
        var k :| 0 <= k < |s| && s[k] == y;
        assert xs[0] == x && xs[k + 1] == y;
        assert key(xs[0]) != key(xs[k + 1]);
      }
    }
  }

  /** Appending an element whose key is new keeps the keys distinct. */
  lemma AppendDistinct<T, K>(s: seq<T>, x: T, key: T -> K)
    requires Distinct(s, key)
    requires forall y :: y in s ==> key(y) != key(x)
    ensures Distinct(s + [x], key)
  {
  }
}
