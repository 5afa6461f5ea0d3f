/** Order-preserving selection of the elements of a sequence that satisfy
    a condition: pandas boolean-mask indexing (`df[mask]`) and `dropna`
    both keep the selected rows in their original order. */
module Selection {

  /** The elements of `s` that satisfy `p`, in their order in `s`. */
  function Filter<T(!new)>(s: seq<T>, p: T -> bool): (r: seq<T>)
    ensures |r| <= |s|
    ensures forall x :: x in r <==> x in s && p(x)
    decreases |s|
  {
    if |s| == 0 then []
    else (if p(s[0]) then [s[0]] else []) + Filter(s[1..], p)
  }

  /** The indices from `k` on of the elements of `s` that satisfy `p`,
      increasing. */
  function PositionsFrom<T>(s: seq<T>, p: T -> bool, k: nat): (r: seq<nat>)
    requires k <= |s|
    ensures forall i :: i in r <==> k <= i < |s| && p(s[i])
    ensures forall a :: 0 <= a < |r| ==> k <= r[a] < |s|
    ensures forall a, b :: 0 <= a < b < |r| ==> r[a] < r[b]
    decreases |s| - k
  {
    if k == |s| then []
    else (if p(s[k]) then [k] else []) + PositionsFrom(s, p, k + 1)
  }

  /** The indices of the elements of `s` that satisfy `p`, increasing. */
  function Positions<T>(s: seq<T>, p: T -> bool): (r: seq<nat>)
    ensures forall i :: i in r <==> 0 <= i < |s| && p(s[i])
    ensures forall a :: 0 <= a < |r| ==> r[a] < |s|
    ensures forall a, b :: 0 <= a < b < |r| ==> r[a] < r[b]
  {
    PositionsFrom(s, p, 0)
  }

  lemma {:induction false} FilterAtPositionsFrom<T(!new)>(s: seq<T>, p: T -> bool, k: nat)
    requires k <= |s|
    ensures |Filter(s[k..], p)| == |PositionsFrom(s, p, k)|
    ensures forall a :: 0 <= a < |Filter(s[k..], p)| ==> Filter(s[k..], p)[a] == s[PositionsFrom(s, p, k)[a]]
    decreases |s| - k
  {
    if k < |s| {
      FilterAtPositionsFrom(s, p, k + 1);
      var t := s[k..];
      assert t[0] == s[k] && t[1..] == s[k + 1..];
      var f, ps := Filter(s[k + 1..], p), PositionsFrom(s, p, k + 1);
      assert Filter(t, p) == (if p(s[k]) then [s[k]] else []) + f;
      assert PositionsFrom(s, p, k) == (if p(s[k]) then [k] else []) + ps;
    }
  }

  /** The filtered sequence is `s` read at the selected positions: the
      selection keeps exactly the elements satisfying `p`, in their order. */
  lemma FilterAtPositions<T(!new)>(s: seq<T>, p: T -> bool)
    ensures |Filter(s, p)| == |Positions(s, p)|
    ensures forall a :: 0 <= a < |Filter(s, p)| ==> Filter(s, p)[a] == s[Positions(s, p)[a]]
  {
    FilterAtPositionsFrom(s, p, 0);
    assert s[0..] == s;
  }

  /** The images under `f` of the elements of `s` that satisfy `p`, in order. */
  function FilterMap<T, U>(s: seq<T>, p: T -> bool, f: T -> U): (r: seq<U>)
    ensures |r| <= |s|
    decreases |s|
  {
    if |s| == 0 then []
    else (if p(s[0]) then [f(s[0])] else []) + FilterMap(s[1..], p, f)
  }

  lemma {:induction false} FilterMapIsMapOfFilter<T(!new), U>(s: seq<T>, p: T -> bool, f: T -> U)
    ensures |FilterMap(s, p, f)| == |Filter(s, p)|
    ensures forall a :: 0 <= a < |Filter(s, p)| ==> FilterMap(s, p, f)[a] == f(Filter(s, p)[a])
    decreases |s|
  {
    if |s| > 0 {
      FilterMapIsMapOfFilter(s[1..], p, f);
      var kept, rest := Filter(s[1..], p), FilterMap(s[1..], p, f);
      if p(s[0]) {
        var fs, gs := [s[0]] + kept, [f(s[0])] + rest;
        assert Filter(s, p) == fs;
        assert FilterMap(s, p, f) == gs;
        forall a | 0 <= a < |gs| ensures gs[a] == f(fs[a]) {
          if a > 0 {
            assert gs[a] == rest[a - 1] && fs[a] == kept[a - 1];
          }
        }
      } else {
        assert Filter(s, p) == kept;
        assert FilterMap(s, p, f) == rest;
      }
    }
  }

  /** Element `a` of the filtered-and-mapped sequence is the image of the
      `a`-th element of `s` that satisfies `p`. */
  lemma FilterMapAtPositions<T(!new), U>(s: seq<T>, p: T -> bool, f: T -> U)
    ensures |FilterMap(s, p, f)| == |Positions(s, p)|
    ensures forall a :: 0 <= a < |FilterMap(s, p, f)| ==> FilterMap(s, p, f)[a] == f(s[Positions(s, p)[a]])
  {
    FilterMapIsMapOfFilter(s, p, f);
    FilterAtPositions(s, p);
  }

  /** Filtering by `p` and then by `q` is filtering by both at once. */
  lemma {:induction false} FilterFilter<T(!new)>(s: seq<T>, p: T -> bool, q: T -> bool, pq: T -> bool)
    requires forall x :: pq(x) == (p(x) && q(x))
    ensures Filter(Filter(s, p), q) == Filter(s, pq)
    decreases |s|
  {
    if |s| > 0 {
      FilterFilter(s[1..], p, q, pq);
      var rest := Filter(s[1..], p);
      if p(s[0]) {
        var fs := [s[0]] + rest;
        assert Filter(s, p) == fs;
        assert fs[0] == s[0] && fs[1..] == rest;
        assert Filter(fs, q) == (if q(s[0]) then [s[0]] else []) + Filter(rest, q);
      } else {
        assert Filter(s, p) == rest;
      }
    }
  }

  /** Splitting by `p` and by its negation loses and duplicates nothing. */
  lemma {:induction false} FilterPartition<T(!new)>(s: seq<T>, p: T -> bool, notP: T -> bool)
    requires forall x :: notP(x) == !p(x)
    ensures multiset(Filter(s, p)) + multiset(Filter(s, notP)) == multiset(s)
    decreases |s|
  {
    if |s| > 0 {
      FilterPartition(s[1..], p, notP);
      var x, a, b := s[0], Filter(s[1..], p), Filter(s[1..], notP);
      assert s == [x] + s[1..];
      assert notP(x) == !p(x);
      if p(x) {
        assert Filter(s, p) == [x] + a;
        assert Filter(s, notP) == b;
      } else {
        assert Filter(s, p) == a;
        assert Filter(s, notP) == [x] + b;
      }
    }
  }

  /** A strictly increasing sequence of indices has as many elements as the
      set of its values. */
  lemma {:induction false} DistinctCard(ps: seq<nat>)
    requires forall a, b :: 0 <= a < b < |ps| ==> ps[a] < ps[b]
    ensures |set a | 0 <= a < |ps| :: ps[a]| == |ps|
    decreases |ps|
  {
    if |ps| > 0 {
      var last := |ps| - 1;
      var init := ps[..last];
      DistinctCard(init);
      var s := set a | 0 <= a < |ps| :: ps[a];
      var t := set a | 0 <= a < |init| :: init[a];
      assert s == t + {ps[last]};
      assert ps[last] !in t;
    }
  }
}
