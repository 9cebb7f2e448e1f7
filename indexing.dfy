/** The numpy indexing operations the core is written with: np.nonzero of a
    boolean mask, integer-array indexing, boolean-mask indexing of an array
    and of a matrix's rows, and the elementwise maps around them. */
module Indexing {
  import opened Wrappers

  /** The number of true entries of a mask (np.sum over booleans). */
  function CountTrue(mask: seq<bool>): (n: nat)
    ensures n <= |mask|
  {
    if |mask| == 0 then 0
    else CountTrue(mask[..|mask| - 1]) + (if mask[|mask| - 1] then 1 else 0)
  }

  /** np.nonzero(mask)[0]: the positions of the true entries, in ascending
      order, each true position exactly once. */
  function TrueIndices(mask: seq<bool>): (idx: seq<nat>)
    ensures |idx| == CountTrue(mask)
    ensures forall k :: 0 <= k < |idx| ==> idx[k] < |mask| && mask[idx[k]]
    ensures forall k, l :: 0 <= k < l < |idx| ==> idx[k] < idx[l]
    ensures forall i :: 0 <= i < |mask| && mask[i] ==> i in idx
  {
    if |mask| == 0 then []
    else
      var init := mask[..|mask| - 1];
      assert forall i :: 0 <= i < |init| ==> init[i] == mask[i];
      TrueIndices(init) + (if mask[|mask| - 1] then [|mask| - 1] else [])
  }

  /** a[idx] for an integer index array whose entries are in range. */
  function Gather<T>(a: seq<T>, idx: seq<nat>): (r: seq<T>)
    requires forall k :: 0 <= k < |idx| ==> idx[k] < |a|
    ensures |r| == |idx|
    ensures forall k :: 0 <= k < |idx| ==> r[k] == a[idx[k]]
  {
    seq(|idx|, k requires 0 <= k < |idx| => a[idx[k]])
  }

  /** a[mask] for a boolean array of the same length as a. */
  function BoolIndex<T>(a: seq<T>, mask: seq<bool>): (r: seq<T>)
    requires |mask| == |a|
    ensures |r| == CountTrue(mask)
    ensures forall k :: 0 <= k < |r| ==> r[k] == a[TrueIndices(mask)[k]]
  {
    Gather(a, TrueIndices(mask))
  }

  /** a[mask] where mask is a Python list of booleans: an empty list is taken
      as an empty integer index and selects nothing; any other list must match
      the length of a, or numpy raises IndexError. */
  function MaskIndex<T>(a: seq<T>, mask: seq<bool>): (r: Result<seq<T>>)
    ensures r.Err? <==> |mask| > 0 && |mask| != |a|
    ensures r.Err? ==> r.error == BooleanIndexMismatch
    ensures r.Ok? ==> |r.value| == CountTrue(mask)
    ensures r.Ok? ==> forall k :: 0 <= k < |r.value| ==> r.value[k] == a[TrueIndices(mask)[k]]
  {
    if |mask| == 0 then Ok([])
    else if |mask| != |a| then Err(BooleanIndexMismatch)
    else Ok(BoolIndex(a, mask))
  }

  /** str.find and tuple.index: the position of the first occurrence of x,
      or -1 when x does not occur. */
  function Find<T(==)>(s: seq<T>, x: T): (r: int)
    ensures -1 <= r < |s|
    ensures r == -1 <==> x !in s
    ensures 0 <= r ==> s[r] == x && x !in s[..r]
  {
    if |s| == 0 then -1
    else if s[0] == x then 0
    else
      var r := Find(s[1..], x);
      assert s[1..] == s[..|s|][1..];
      if r == -1 then -1
      else
        assert s[..r + 1] == [s[0]] + s[1..][..r];
        r + 1
  }

  /** CountTrue is the number of positions that hold true. */
  lemma {:induction false} CountTrueIsCardinality(mask: seq<bool>)
    ensures CountTrue(mask) == |set i | 0 <= i < |mask| && mask[i]|
  {
    var s := set i | 0 <= i < |mask| && mask[i];
    if |mask| == 0 {
      assert s == {};
    } else {
      var n := |mask| - 1;
      var init := mask[..n];
      CountTrueIsCardinality(init);
      var s0 := set i | 0 <= i < |init| && init[i];
      if mask[n] {
        assert s == s0 + {n};
      } else {
        assert s == s0;
      }
    }
  }

  /** A mask without true entries counts zero, and only such a mask. */
  lemma {:induction false} CountTrueZero(mask: seq<bool>)
    ensures CountTrue(mask) == 0 <==> forall i :: 0 <= i < |mask| ==> !mask[i]
  {
    if |mask| > 0 {
      var init := mask[..|mask| - 1];
      CountTrueZero(init);
      assert forall i :: 0 <= i < |init| ==> init[i] == mask[i];
    }
  }

  /** A mask with two distinct true entries counts at least two. */
  lemma {:induction false} CountTrueTwo(mask: seq<bool>, i: nat, j: nat)
    requires i < j < |mask| && mask[i] && mask[j]
    ensures CountTrue(mask) >= 2
  {
    var init := mask[..|mask| - 1];
    if j < |mask| - 1 {
      CountTrueTwo(init, i, j);
    } else {
      assert init[i];
      CountTrueZero(init);
    }
  }

  /** A mask that is true wherever another one is counts no more. */
  lemma {:induction false} CountTrueMonotone(m1: seq<bool>, m2: seq<bool>)
    requires |m1| == |m2|
    requires forall i :: 0 <= i < |m1| && m1[i] ==> m2[i]
    ensures CountTrue(m1) <= CountTrue(m2)
  {
    if |m1| > 0 {
      var i1, i2 := m1[..|m1| - 1], m2[..|m2| - 1];
      assert forall i :: 0 <= i < |i1| ==> i1[i] == m1[i] && i2[i] == m2[i];
      CountTrueMonotone(i1, i2);
    }
  }

  /** The elementwise predicate p over a, as a boolean array. MapSeq below
      builds the same sequence for any element type; the two stay separate
      because the filter proofs about masks need the solver to see this
      comprehension directly, and going through MapSeq makes them too
      costly. */
  function Mask<T>(a: seq<T>, p: T -> bool): (m: seq<bool>)
    ensures |m| == |a|
  {
    seq(|a|, i requires 0 <= i < |a| => p(a[i]))
  }

  /** The elements of a that satisfy p, in their order: the reference
      definition of a row filter, one element at a time. */
  function Where<T>(a: seq<T>, p: T -> bool): (r: seq<T>)
    ensures |r| <= |a|
    ensures forall k :: 0 <= k < |r| ==> r[k] in a && p(r[k])
  {
    if |a| == 0 then []
    else Where(a[..|a| - 1], p) + (if p(a[|a| - 1]) then [a[|a| - 1]] else [])
  }

  /** f applied to every element (a list comprehension). */
  function MapSeq<T, U>(a: seq<T>, f: T -> U): (r: seq<U>)
    ensures |r| == |a|
  {
    seq(|a|, i requires 0 <= i < |a| => f(a[i]))
  }

  /** Masking an array extended by one element extends the result by that
      element exactly when its mask entry is true. */
  lemma BoolIndexSnoc<T>(a: seq<T>, mask: seq<bool>, x: T, b: bool)
    requires |mask| == |a|
    ensures BoolIndex(a + [x], mask + [b]) == BoolIndex(a, mask) + (if b then [x] else [])
  {
    var a', m' := a + [x], mask + [b];
    assert m'[..|m'| - 1] == mask;
    assert TrueIndices(m') == TrueIndices(mask) + (if b then [|a|] else []);
  }

  lemma WhereSnoc<T>(a: seq<T>, x: T, p: T -> bool)
    ensures Where(a + [x], p) == Where(a, p) + (if p(x) then [x] else [])
  {
    assert (a + [x])[..|a|] == a;
  }

  /** a[p(a)] in numpy, a mask of the elementwise predicate, selects what
      Where selects. */
  lemma {:induction false} WhereIsBoolIndex<T>(a: seq<T>, p: T -> bool)
    ensures BoolIndex(a, Mask(a, p)) == Where(a, p)
  {
    if |a| > 0 {
      var init, x := a[..|a| - 1], a[|a| - 1];
      assert a == init + [x];
      assert Mask(a, p) == Mask(init, p) + [p(x)];
      BoolIndexSnoc(init, Mask(init, p), x, p(x));
      WhereIsBoolIndex(init, p);
    }
  }

  /** The conjunction of two predicates. */
  function And<T>(p: T -> bool, q: T -> bool): T -> bool
  {
    x => p(x) && q(x)
  }

  /** The predicate q on the images under f. */
  function Compose<T, U>(f: T -> U, q: U -> bool): T -> bool
  {
    x => q(f(x))
  }

  /** Two successive masks select what their conjunction selects. */
  lemma {:induction false} WhereWhere<T>(a: seq<T>, p: T -> bool, q: T -> bool)
    ensures Where(Where(a, p), q) == Where(a, And(p, q))
  {
    if |a| > 0 {
      var init, x := a[..|a| - 1], a[|a| - 1];
      assert a == init + [x];
      WhereWhere(init, p, q);
      var wp := Where(init, p);
      WhereSnoc(init, x, p);
      assert Where(a, p) == wp + (if p(x) then [x] else []);
      WhereSnoc(init, x, And(p, q));
      assert Where(a, And(p, q)) == Where(init, And(p, q)) + (if p(x) && q(x) then [x] else []);
      assert And(p, q)(x) == (p(x) && q(x));
      if p(x) {
        WhereSnoc(wp, x, q);
      } else {
        assert Where(a, p) == wp;
        assert Where(a, And(p, q)) == Where(init, And(p, q));
      }
    }
  }

  /** Masking the images of a is mapping the elements whose images pass. */
  lemma {:induction false} WhereMap<T, U>(a: seq<T>, f: T -> U, q: U -> bool)
    ensures Where(MapSeq(a, f), q) == MapSeq(Where(a, Compose(f, q)), f)
  {
    if |a| > 0 {
      var init, x := a[..|a| - 1], a[|a| - 1];
      assert a == init + [x];
      assert MapSeq(a, f) == MapSeq(init, f) + [f(x)];
      WhereMap(init, f, q);
      WhereSnoc(MapSeq(init, f), f(x), q);
      WhereSnoc(init, x, Compose(f, q));
      var w := Where(init, Compose(f, q));
      assert MapSeq(w + [x], f) == MapSeq(w, f) + [f(x)];
    }
  }

  /** Where(a, p) is an order-preserving subsequence of a: the elements at the
      ascending positions np.nonzero(p(a)) gives, which are exactly the
      positions of the elements that satisfy p. */
  lemma WhereIsSubsequence<T>(a: seq<T>, p: T -> bool)
    ensures var idx := TrueIndices(Mask(a, p));
      && |Where(a, p)| == |idx|
      && (forall k :: 0 <= k < |idx| ==> idx[k] < |a| && Where(a, p)[k] == a[idx[k]] && p(a[idx[k]]))
      && (forall k, l :: 0 <= k < l < |idx| ==> idx[k] < idx[l])
      && (forall i :: 0 <= i < |a| && p(a[i]) ==> i in idx)
  {
    WhereIsBoolIndex(a, p);
  }
}
