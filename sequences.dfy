/** Order and uniqueness predicates on sequences, and the keep-what-resolves
    pass, shared by the extraction, dependency and grouping modules. */
module Sequences {

  datatype Option<+T> = None | Some(value: T)

  /** Each element is smaller than every later one (so no element repeats). */
  predicate StrictlyIncreasing(xs: seq<int>) {
    forall a, b :: 0 <= a < b < |xs| ==> xs[a] < xs[b]
  }

  /** No element occurs twice. */
  predicate Distinct<T(==)>(xs: seq<T>) {
    forall a, b :: 0 <= a < b < |xs| ==> xs[a] != xs[b]
  }

  /** `idx` picks positions of a sequence of length `n`, in increasing order:
      it witnesses that some sequence is an order-preserving selection. */
  predicate IsSelection(idx: seq<int>, n: int) {
    StrictlyIncreasing(idx) && forall k :: 0 <= k < |idx| ==> 0 <= idx[k] < n
  }

  /** Choosing one more position, past all chosen so far, keeps a selection. */
  lemma ExtendSelection(idx: seq<int>, n: int)
    requires 0 <= n && IsSelection(idx, n)
    ensures IsSelection(idx + [n], n + 1)
  {
    var idx' := idx + [n];
    forall a, b | 0 <= a < b < |idx'|
      ensures idx'[a] < idx'[b]
    {
      assert idx'[a] == idx[a];
      if b < |idx| {
        assert idx'[b] == idx[b];
      }
    }
    forall k | 0 <= k < |idx'|
      ensures 0 <= idx'[k] < n + 1
    {
      if k < |idx| {
        assert idx'[k] == idx[k];
      }
    }
  }

  /** A selection extended by `n` when `keep` holds contains exactly the old
      positions, plus `n` when kept. */
  lemma SelectStep(prev: seq<int>, n: int, keep: bool, idx: seq<int>)
    requires 0 <= n && IsSelection(prev, n)
    requires idx == if keep then prev + [n] else prev
    ensures IsSelection(idx, n + 1)
    ensures forall j :: j in idx <==> j in prev || (keep && j == n)
    ensures forall k :: 0 <= k < |prev| ==> idx[k] == prev[k]
  {
    if keep {
      ExtendSelection(prev, n);
    }
  }

  /** Positions of a prefix are positions of the whole sequence. */
  lemma PrefixAt<T>(xs: seq<T>, n: int, j: int)
    requires 0 <= j < n <= |xs|
    ensures xs[..n][j] == xs[j] && xs[..n][..j] == xs[..j]
  {
  }

  /** A prefix of a sequence without repeats has none either. */
  lemma DistinctPrefix<T>(xs: seq<T>, n: int)
    requires Distinct(xs) && 0 <= n <= |xs|
    ensures Distinct(xs[..n])
  {
    forall a, b | 0 <= a < b < n
      ensures xs[..n][a] != xs[..n][b]
    {
      PrefixAt(xs, n, a);
      PrefixAt(xs, n, b);
    }
  }

  /** Appending an element not yet present keeps a sequence without repeats. */
  lemma DistinctAppend<T>(xs: seq<T>, y: T)
    requires Distinct(xs) && y !in xs
    ensures Distinct(xs + [y])
  {
    var ys := xs + [y];
    forall a, b | 0 <= a < b < |ys|
      ensures ys[a] != ys[b]
    {
      assert ys[a] == xs[a];
      if b < |xs| {
        assert ys[b] == xs[b];
      }
    }
  }

  /** `set(xs)`: the elements of a sequence. */
  function Elements<T>(xs: seq<T>): set<T> {
    set x | x in xs
  }

  /** A sequence has no more distinct elements than it has elements. */
  lemma {:induction false} ElementsBound<T>(xs: seq<T>)
    ensures |Elements(xs)| <= |xs|
  {
    if xs != [] {
      var n := |xs| - 1;
      ElementsBound(xs[..n]);
      assert Elements(xs) == Elements(xs[..n]) + {xs[n]};
    }
  }

  /** Without repeats, a sequence has exactly as many distinct elements as
      elements. */
  lemma {:induction false} DistinctElements<T>(xs: seq<T>)
    requires Distinct(xs)
    ensures |Elements(xs)| == |xs|
  {
    if xs != [] {
      var n := |xs| - 1;
      DistinctPrefix(xs, n);
      DistinctElements(xs[..n]);
      assert xs[n] !in xs[..n] by {
        forall k | 0 <= k < n
          ensures xs[..n][k] != xs[n]
        {
          PrefixAt(xs, n, k);
        }
      }
      assert Elements(xs) == Elements(xs[..n]) + {xs[n]};
    }
  }

  /** The elements of the first `n` sequences of `xss`, together. */
  function Union<T>(xss: seq<seq<T>>, n: int): set<T>
    requires 0 <= n <= |xss|
  {
    if n == 0 then {} else Union(xss, n - 1) + Elements(xss[n - 1])
  }

  /** The total length of the first `n` sequences of `xss`. */
  function TotalLength<T>(xss: seq<seq<T>>, n: int): nat
    requires 0 <= n <= |xss|
  {
    if n == 0 then 0 else TotalLength(xss, n - 1) + |xss[n - 1]|
  }

  lemma {:induction false} UnionMember<T>(xss: seq<seq<T>>, n: int, i: int, x: T)
    requires 0 <= i < n <= |xss| && x in xss[i]
    ensures x in Union(xss, n)
  {
    if i < n - 1 {
      UnionMember(xss, n - 1, i, x);
    }
  }

  lemma {:induction false} UnionWitness<T>(xss: seq<seq<T>>, n: int, x: T) returns (i: int)
    requires 0 <= n <= |xss| && x in Union(xss, n)
    ensures 0 <= i < n && x in xss[i]
  {
    if x in Elements(xss[n - 1]) {
      i := n - 1;
    } else {
      i := UnionWitness(xss, n - 1, x);
    }
  }

  /** There are never more distinct elements than elements, and there are
      none exactly when every sequence is empty. */
  lemma {:induction false} UnionBounds<T>(xss: seq<seq<T>>, n: int)
    requires 0 <= n <= |xss|
    ensures |Union(xss, n)| <= TotalLength(xss, n)
    ensures Union(xss, n) == {} <==> forall i :: 0 <= i < n ==> |xss[i]| == 0
  {
    if n > 0 {
      UnionBounds(xss, n - 1);
      var last := xss[n - 1];
      ElementsBound(last);
      if |last| > 0 {
        assert last[0] in Elements(last);
      }
    }
  }

  /** The loop `for x in xs: r = f(x); if r is not None: out.append(r)`:
      the results that exist, in order. */
  function FilterMap<A, B>(xs: seq<A>, f: A -> Option<B>): seq<B> {
    if xs == [] then []
    else
      var init := FilterMap(xs[..|xs| - 1], f);
      match f(xs[|xs| - 1])
      case None => init
      case Some(y) => init + [y]
  }

  /** How the pass grows by one element, and that the whole input is the
      longest prefix. */
  lemma FilterMapStep<A, B>(xs: seq<A>, f: A -> Option<B>, j: int)
    requires 0 <= j <= |xs|
    ensures j < |xs| ==>
      FilterMap(xs[..j + 1], f)
        == FilterMap(xs[..j], f) + (if f(xs[j]).Some? then [f(xs[j]).value] else [])
    ensures j == |xs| ==> FilterMap(xs[..j], f) == FilterMap(xs, f)
  {
    if j < |xs| {
      assert xs[..j + 1][..j] == xs[..j];
    } else {
      assert xs[..j] == xs;
    }
  }

  /** The pass is an order-preserving selection: `idx` names the elements
      whose result exists, each contributes exactly its result, and every
      other element contributes nothing. */
  lemma {:induction false} FilterMapSelection<A, B>(xs: seq<A>, f: A -> Option<B>)
    returns (idx: seq<int>)
    ensures IsSelection(idx, |xs|)
    ensures |idx| == |FilterMap(xs, f)| <= |xs|
    ensures forall k :: 0 <= k < |idx| ==> f(xs[idx[k]]) == Some(FilterMap(xs, f)[k])
    ensures forall j :: 0 <= j < |xs| ==> (j in idx <==> f(xs[j]).Some?)
  {
    if xs != [] {
      var n := |xs| - 1;
      var prev := FilterMapSelection(xs[..n], f);
      var r := f(xs[n]);
      idx := if r.Some? then prev + [n] else prev;
      SelectStep(prev, n, r.Some?, idx);
      var before := FilterMap(xs[..n], f);
      var out := FilterMap(xs, f);
      assert out == before + (if r.Some? then [r.value] else []);
      forall k | 0 <= k < |idx|
        ensures f(xs[idx[k]]) == Some(out[k])
      {
        if k < |prev| {
          assert out[k] == before[k] && idx[k] == prev[k];
          PrefixAt(xs, n, prev[k]);
        }
      }
      forall j | 0 <= j < |xs|
        ensures j in idx <==> f(xs[j]).Some?
      {
        if j < n {
          PrefixAt(xs, n, j);
        }
      }
    } else {
      idx := [];
    }
  }

  /** The union of two sequences' elements. */
  lemma UnionOfTwo<T>(p: seq<T>, q: seq<T>)
    ensures Union([p, q], 2) == Elements(p) + Elements(q)
  {
    assert [p, q][0] == p && [p, q][1] == q;
    assert Union([p, q], 1) == Elements(p);
  }

  /** The pass over two elements that both resolve. */
  lemma FilterMapPair<A, B>(p: A, q: A, f: A -> Option<B>, u: B, v: B)
    requires f(p) == Some(u) && f(q) == Some(v)
    ensures FilterMap([p, q], f) == [u, v]
  {
    assert [p, q][..1] == [p];
    FilterMapSingle(p, f, u);
  }

  /** The pass over one element that resolves. */
  lemma FilterMapSingle<A, B>(p: A, f: A -> Option<B>, u: B)
    requires f(p) == Some(u)
    ensures FilterMap([p], f) == [u]
  {
    assert [p][..0] == [];
  }

  /** A non-empty strictly increasing list whose elements all equal `c` is
      `[c]`. */
  lemma OnlyElement(l: seq<int>, c: int)
    requires StrictlyIncreasing(l) && l != []
    requires forall i :: i in l ==> i == c
    ensures l == [c]
  {
    assert forall k :: 0 <= k < |l| ==> l[k] == c by {
      forall k | 0 <= k < |l|
        ensures l[k] == c
      {
        assert l[k] in l;
      }
    }
    assert l[0] == c && l[|l| - 1] == c;
    assert |l| == 1;
  }
}
