/** Sequence helpers shared by the diagram model: an optional value, the
    "first element satisfying a predicate" search that JavaScript's
    `Array.prototype.find` performs, and the order-preserving
    `Array.prototype.filter`. */
module Seqs {

  datatype Option<+T> = None | Some(value: T)

  datatype Result<+T, +E> = Success(value: T) | Failure(error: E)

  /** Index of the first element satisfying `p`, as `find` returns the first match. */
  function FindFirst<T>(s: seq<T>, p: T -> bool): (r: Option<nat>)
    ensures r.Some? ==> r.value < |s| && p(s[r.value])
    ensures r.Some? ==> forall j :: 0 <= j < r.value ==> !p(s[j])
    ensures r.None? <==> forall j :: 0 <= j < |s| ==> !p(s[j])
  {
    if |s| == 0 then None
    else if p(s[0]) then Some(0)
    else
      match FindFirst(s[1..], p)
      case None => None
      case Some(k) => Some(k + 1)
  }

  /** Index `i` is the first element of `s` satisfying `p`: what `find` returns. */
  predicate IsFirst<T>(s: seq<T>, p: T -> bool, i: int) {
    0 <= i < |s| && p(s[i]) && forall j :: 0 <= j < i ==> !p(s[j])
  }

  predicate NoneMatch<T>(s: seq<T>, p: T -> bool) {
    forall j :: 0 <= j < |s| ==> !p(s[j])
  }

  /** The first element found is the one `IsFirst` describes. */
  lemma FirstIsUnique<T>(s: seq<T>, p: T -> bool, i: int)
    requires IsFirst(s, p, i)
    ensures FindFirst(s, p) == Some(i)
  {
    var r := FindFirst(s, p);
    assert r.Some?;
  }

  lemma FirstsAreFound<T>(s: seq<T>, p: T -> bool)
    ensures forall i :: IsFirst(s, p, i) ==> FindFirst(s, p) == Some(i)
  {
    forall i | IsFirst(s, p, i) ensures FindFirst(s, p) == Some(i) {
      FirstIsUnique(s, p, i);
    }
  }

  function Abs(a: int): int {
    if a < 0 then -a else a
  }

  function Min(a: int, b: int): int {
    if a < b then a else b
  }

  function Max(a: int, b: int): int {
    if a < b then b else a
  }

  /** The elements of `s` satisfying `p`, in their original order. */
  function Filter<T>(s: seq<T>, p: T -> bool): (r: seq<T>)
    ensures |r| <= |s|
    ensures forall k :: 0 <= k < |r| ==> p(r[k])
  {
    if |s| == 0 then []
    else (if p(s[0]) then [s[0]] else []) + Filter(s[1..], p)
  }

  /** An element survives the filter exactly when it was present and satisfies `p`. */
  lemma {:induction false} FilterMembership<T>(s: seq<T>, p: T -> bool, x: T)
    ensures x in Filter(s, p) <==> x in s && p(x)
  {
    if |s| > 0 {
      FilterMembership(s[1..], p, x);
      assert s == [s[0]] + s[1..];
    }
  }

  /** The membership statement of `FilterMembership` for every element at once. */
  lemma FilterMembershipAll<T>(s: seq<T>, p: T -> bool)
    ensures forall x :: x in Filter(s, p) <==> x in s && p(x)
  {
    forall x ensures x in Filter(s, p) <==> x in s && p(x) {
      FilterMembership(s, p, x);
    }
  }

  /** Filtering keeps keys that were pairwise distinct pairwise distinct. */
  lemma {:induction false} FilterKeepsDistinct<T, K>(s: seq<T>, p: T -> bool, key: T -> K)
    requires forall i, j :: 0 <= i < j < |s| ==> key(s[i]) != key(s[j])
    ensures forall i, j :: 0 <= i < j < |Filter(s, p)| ==> key(Filter(s, p)[i]) != key(Filter(s, p)[j])
  {
    if |s| > 0 {
      var rest := Filter(s[1..], p);
      FilterKeepsDistinct(s[1..], p, key);
      FilterAvoidsKey(s[1..], p, key, key(s[0]));
      var r := Filter(s, p);
      if p(s[0]) {
        assert r == [s[0]] + rest;
        forall i, j | 0 <= i < j < |r| ensures key(r[i]) != key(r[j]) {
          assert r[j] == rest[j - 1];
          if i == 0 {
            assert r[i] == s[0];
          } else {
            assert r[i] == rest[i - 1];
          }
        }
      } else {
        assert r == [] + rest;
      }
    }
  }

  /** A key no element of `s` has is not the key of any element of its filter. */
  lemma {:induction false} FilterAvoidsKey<T, K>(s: seq<T>, p: T -> bool, key: T -> K, k: K)
    requires forall j :: 0 <= j < |s| ==> key(s[j]) != k
    ensures forall i :: 0 <= i < |Filter(s, p)| ==> key(Filter(s, p)[i]) != k
  {
    if |s| > 0 {
      FilterAvoidsKey(s[1..], p, key, k);
    }
  }

  /** `s` with `f` applied to the elements selected by `sel`, positions unchanged:
      an in-place mutation of the selected objects. */
  function MapWhere<T>(s: seq<T>, sel: T -> bool, f: T -> T): (r: seq<T>)
    ensures |r| == |s|
    ensures forall i :: 0 <= i < |s| ==> r[i] == if sel(s[i]) then f(s[i]) else s[i]
  {
    seq(|s|, i requires 0 <= i < |s| => if sel(s[i]) then f(s[i]) else s[i])
  }

  /** Filtering distributes over concatenation: relative order is kept. */
  lemma {:induction false} FilterConcat<T>(a: seq<T>, b: seq<T>, p: T -> bool)
    ensures Filter(a + b, p) == Filter(a, p) + Filter(b, p)
  {
    if |a| == 0 {
      assert a + b == b;
    } else {
      assert (a + b)[1..] == a[1..] + b;
      FilterConcat(a[1..], b, p);
    }
  }

  /** A filter that rejects nothing is the identity. */
  lemma {:induction false} FilterKeepsAll<T>(s: seq<T>, p: T -> bool)
    requires forall j :: 0 <= j < |s| ==> p(s[j])
    ensures Filter(s, p) == s
  {
    if |s| > 0 {
      FilterKeepsAll(s[1..], p);
    }
  }

  /** Filtering out a middle part that the filter rejects entirely splices the rest. */
  lemma {:induction false} FilterSplice<T>(pre: seq<T>, mid: seq<T>, post: seq<T>, p: T -> bool)
    requires Filter(pre, p) == pre && Filter(mid, p) == [] && Filter(post, p) == post
    ensures Filter(pre + (mid + post), p) == pre + post
  {
    FilterConcat(mid, post, p);
    assert Filter(mid + post, p) == post by {
      assert [] + post == post;
    }
    FilterConcat(pre, mid + post, p);
  }

  /** A filter that rejects exactly the element at index `i` removes that slot and nothing else. */
  lemma {:induction false} FilterDropsOne<T>(s: seq<T>, p: T -> bool, i: nat)
    requires i < |s| && !p(s[i])
    requires forall j :: 0 <= j < |s| && j != i ==> p(s[j])
    ensures Filter(s, p) == s[..i] + s[i + 1..]
  {
    var pre, mid, post := s[..i], [s[i]], s[i + 1..];
    assert Filter(pre, p) == pre by {
      forall j | 0 <= j < |pre| ensures p(pre[j]) {
        assert pre[j] == s[j];
      }
      FilterKeepsAll(pre, p);
    }
    assert Filter(post, p) == post by {
      forall j | 0 <= j < |post| ensures p(post[j]) {
        assert post[j] == s[i + 1 + j];
      }
      FilterKeepsAll(post, p);
    }
    assert Filter(mid, p) == [] by {
      assert mid[1..] == [] && !p(mid[0]);
      assert Filter(mid[1..], p) == [];
    }
    assert s == pre + (mid + post) by {
      assert s == s[..i] + s[i..] && s[i..] == mid + post;
    }
    FilterSplice(pre, mid, post, p);
  }
}
