/** Index arithmetic of strided N-dimensional layouts, and the dense NA-mask
    stride layout that PyArray_AllocateMaskNA builds for arrays of two or
    more dimensions. A multi-index `idx` of an array with shape `shape` lies
    at byte offset `Offset(idx, strides)` from the array's first element. */
module Strides {

  /** Product of dimension sizes (PyArray_SIZE when applied to a shape). */
  function Prod(s: seq<nat>): nat
  {
    if |s| == 0 then 1 else Prod(s[..|s| - 1]) * s[|s| - 1]
  }

  function Sum(v: seq<int>): int
  {
    if |v| == 0 then 0 else Sum(v[..|v| - 1]) + v[|v| - 1]
  }

  /** `idx` is a multi-index in range for `shape`. */
  predicate InShape(idx: seq<nat>, shape: seq<nat>)
  {
    |idx| == |shape| && forall d :: 0 <= d < |idx| ==> idx[d] < shape[d]
  }

  /** Byte offset of a multi-index: the sum of idx[d] * strides[d]. */
  function Offset(idx: seq<nat>, strides: seq<int>): int
    requires |idx| == |strides|
  {
    Sum(seq(|idx|, d requires 0 <= d < |idx| => idx[d] * strides[d]))
  }

  /** `perm` lists every dimension index 0..n-1 exactly once. */
  predicate IsPermutation(perm: seq<nat>, n: nat)
  {
    && |perm| == n
    && (forall i :: 0 <= i < n ==> perm[i] < n)
    && (forall i, j :: 0 <= i < j < n ==> perm[i] != perm[j])
    && (forall d :: 0 <= d < n ==> d in perm)
  }

  /** The entries of `s` in the order `perm` lists them. */
  function Permute<T>(s: seq<T>, perm: seq<nat>): seq<T>
    requires forall i :: 0 <= i < |perm| ==> perm[i] < |s|
  {
    seq(|perm|, i requires 0 <= i < |perm| => s[perm[i]])
  }

  function Abs(x: int): nat
  {
    if x < 0 then -x else x
  }

  /** The order PyArray_CreateSortedStridePerm produces: dimensions by
      decreasing absolute data stride, so that perm[|perm| - 1] varies fastest. */
  predicate SortedByDecreasingStride(perm: seq<nat>, strides: seq<int>)
    requires forall i :: 0 <= i < |perm| ==> perm[i] < |strides|
  {
    forall i, j :: 0 <= i < j < |perm| ==> Abs(strides[perm[j]]) <= Abs(strides[perm[i]])
  }

  /** Row-major position of a multi-index (the last dimension varies fastest). */
  function Ravel(idx: seq<nat>, shape: seq<nat>): nat
    requires |idx| == |shape|
    decreases |shape|
  {
    if |shape| == 0 then 0
    else Ravel(idx[..|idx| - 1], shape[..|shape| - 1]) * shape[|shape| - 1] + idx[|idx| - 1]
  }

  /** The multi-index at row-major position `k`. */
  function Unravel(k: nat, shape: seq<nat>): (idx: seq<nat>)
    requires k < Prod(shape)
    ensures |idx| == |shape|
    decreases |shape|
  {
    if |shape| == 0 then []
    else
      var last := shape[|shape| - 1];
      DivBelow(k, Prod(shape[..|shape| - 1]), last);
      Unravel(k / last, shape[..|shape| - 1]) + [k % last]
  }

  /** The weights of a dense layout in traversal order: position i gets
      `elsize` times the sizes of all positions after it. */
  function Weights(s: seq<nat>, elsize: nat): seq<int>
  {
    seq(|s|, i requires 0 <= i < |s| => elsize * Prod(s[i + 1..]))
  }

  /** The mask strides of na_mask.c:143-148: dimension perm[i] gets `elsize`
      times the product of the sizes of every dimension listed after it in perm. */
  predicate IsDenseLayout(ms: seq<int>, shape: seq<nat>, perm: seq<nat>, elsize: nat)
    requires IsPermutation(perm, |shape|)
  {
    |ms| == |shape| &&
    forall i {:trigger ms[perm[i]]} :: 0 <= i < |perm| ==>
      ms[perm[i]] == elsize * Prod(Permute(shape, perm)[i + 1..])
  }

  /** The stride-layout loop of na_mask.c:143-148: walking perm from its last
      entry to its first, each dimension receives the running stride, which
      is then multiplied by that dimension's size. */
  method BuildMaskStrides(shape: seq<nat>, perm: seq<nat>, elsize: nat) returns (ms: seq<int>)
    requires IsPermutation(perm, |shape|)
    ensures IsDenseLayout(ms, shape, perm, elsize)
  {
    var nd := |shape|;
    var strides := new int[nd];
    var stride: int := elsize;
    var i := nd - 1;
    while i >= 0
      invariant -1 <= i < nd
      invariant i == nd - 1 ==> stride == elsize
      invariant i < nd - 1 ==> stride == strides[perm[i + 1]] * shape[perm[i + 1]]
      invariant i < nd - 1 ==> strides[perm[nd - 1]] == elsize
      invariant forall j {:trigger strides[perm[j]]} :: i < j < nd - 1 ==>
        strides[perm[j]] == strides[perm[j + 1]] * shape[perm[j + 1]]
    {
      var iPerm := perm[i];
      strides[iPerm] := stride;
      stride := stride * shape[iPerm];
      i := i - 1;
    }
    ms := strides[..];
    forall j | 0 <= j < nd - 1
      ensures ms[perm[j]] == ms[perm[j + 1]] * shape[perm[j + 1]]
    {
      assert ms[perm[j]] == strides[perm[j]];
      assert ms[perm[j + 1]] == strides[perm[j + 1]];
    }
    DenseFromRecurrence(ms, shape, perm, elsize);
  }

  /** The converse of DenseLayoutRecurrence: strides that start at elsize on
      the last dimension of perm and grow by each size walking towards its
      first are the dense layout. */
  lemma DenseFromRecurrence(ms: seq<int>, shape: seq<nat>, perm: seq<nat>, elsize: nat)
    requires IsPermutation(perm, |shape|) && |ms| == |shape|
    requires |shape| > 0 ==> ms[perm[|shape| - 1]] == elsize
    requires forall j :: 0 <= j < |shape| - 1 ==> ms[perm[j]] == ms[perm[j + 1]] * shape[perm[j + 1]]
    ensures IsDenseLayout(ms, shape, perm, elsize)
  {
    forall i | 0 <= i < |shape|
      ensures ms[perm[i]] == elsize * Prod(Permute(shape, perm)[i + 1..])
    {
      RecurrenceSuffix(ms, shape, perm, elsize, i);
    }
  }

  lemma {:induction false} RecurrenceSuffix(ms: seq<int>, shape: seq<nat>, perm: seq<nat>, elsize: nat, i: nat)
    requires IsPermutation(perm, |shape|) && |ms| == |shape|
    requires |shape| > 0 ==> ms[perm[|shape| - 1]] == elsize
    requires forall j :: 0 <= j < |shape| - 1 ==> ms[perm[j]] == ms[perm[j + 1]] * shape[perm[j + 1]]
    requires i < |shape|
    ensures ms[perm[i]] == elsize * Prod(Permute(shape, perm)[i + 1..])
    decreases |shape| - i
  {
    var ps := Permute(shape, perm);
    if i == |shape| - 1 {
      assert ps[i + 1..] == [];
    } else {
      RecurrenceSuffix(ms, shape, perm, elsize, i + 1);
      assert ms[perm[i]] == ms[perm[i + 1]] * ps[i + 1];
      StrideStep(ps, i + 1, elsize);
    }
  }

  /** One step of the stride loop: multiplying the running stride by the
      next size to the left gives the stride of that position. */
  lemma StrideStep(ps: seq<nat>, i: nat, elsize: nat)
    requires i < |ps|
    ensures (elsize * Prod(ps[i + 1..])) * ps[i] == elsize * Prod(ps[i..])
  {
    ProdCons(ps, i);
    MulRotate(elsize, Prod(ps[i + 1..]), ps[i]);
  }

  // ---------------------------------------------------------------------
  // Lemmas about products, sums and permutations

  lemma {:induction false} ProdConcat(a: seq<nat>, b: seq<nat>)
    ensures Prod(a + b) == Prod(a) * Prod(b)
    decreases |b|
  {
    if |b| == 0 {
      assert a + b == a;
    } else {
      assert (a + b)[..|a + b| - 1] == a + b[..|b| - 1];
      ProdConcat(a, b[..|b| - 1]);
    }
  }

  lemma ProdSnoc(s: seq<nat>)
    requires |s| > 0
    ensures Prod(s) == Prod(s[..|s| - 1]) * s[|s| - 1]
  {
  }

  /** Peeling the first factor of a suffix product. */
  lemma ProdCons(s: seq<nat>, i: nat)
    requires i < |s|
    ensures Prod(s[i..]) == s[i] * Prod(s[i + 1..])
  {
    assert s[i..] == [s[i]] + s[i + 1..];
    ProdConcat([s[i]], s[i + 1..]);
    assert Prod([s[i]]) == Prod([]) * s[i];
  }

  lemma {:induction false} SumConcat(a: seq<int>, b: seq<int>)
    ensures Sum(a + b) == Sum(a) + Sum(b)
    decreases |b|
  {
    if |b| == 0 {
      assert a + b == a;
    } else {
      assert (a + b)[..|a + b| - 1] == a + b[..|b| - 1];
      SumConcat(a, b[..|b| - 1]);
    }
  }

  /** Taking out the position that holds the largest dimension index leaves a
      permutation of the remaining dimensions. */
  lemma RemoveLargest(perm: seq<nat>, n: nat, j: nat)
    requires IsPermutation(perm, n) && j < n && perm[j] == n - 1
    ensures IsPermutation(perm[..j] + perm[j + 1..], n - 1)
  {
    var rest := perm[..j] + perm[j + 1..];
    assert forall i :: 0 <= i < n - 1 ==> rest[i] == perm[if i < j then i else i + 1];
    forall d | 0 <= d < n - 1
      ensures d in rest
    {
      assert d in perm;
      var i :| 0 <= i < n && perm[i] == d;
      assert rest[if i < j then i else i - 1] == d;
    }
  }

  /** Splits a permuted sequence around position j and drops the last entry of `s`,
      which only position j reads. */
  lemma PermuteSplit<T>(s: seq<T>, perm: seq<nat>, j: nat)
    requires IsPermutation(perm, |s|) && j < |s| && perm[j] == |s| - 1
    ensures Permute(s, perm) == Permute(s, perm[..j]) + [s[|s| - 1]] + Permute(s, perm[j + 1..])
    ensures Permute(s, perm[..j] + perm[j + 1..]) == Permute(s[..|s| - 1], perm[..j] + perm[j + 1..])
    ensures Permute(s, perm[..j] + perm[j + 1..]) == Permute(s, perm[..j]) + Permute(s, perm[j + 1..])
  {
    RemoveLargest(perm, |s|, j);
  }

  /** Summing in any permuted order gives the same total. */
  lemma {:induction false} SumPermute(v: seq<int>, perm: seq<nat>)
    requires IsPermutation(perm, |v|)
    ensures Sum(Permute(v, perm)) == Sum(v)
    decreases |v|
  {
    var n := |v|;
    if n == 0 {
      assert Permute(v, perm) == [];
    } else {
      assert n - 1 in perm;
      var j :| 0 <= j < n && perm[j] == n - 1;
      SumPermuteStep(v, perm, j);
      SumPermute(v[..n - 1], perm[..j] + perm[j + 1..]);
    }
  }

  /** Removing the last entry of `v` from a permuted sum. */
  lemma SumPermuteStep(v: seq<int>, perm: seq<nat>, j: nat)
    requires IsPermutation(perm, |v|) && j < |v| && perm[j] == |v| - 1
    ensures IsPermutation(perm[..j] + perm[j + 1..], |v| - 1)
    ensures Sum(Permute(v, perm)) == Sum(Permute(v[..|v| - 1], perm[..j] + perm[j + 1..])) + v[|v| - 1]
  {
    RemoveLargest(perm, |v|, j);
    PermuteSplit(v, perm, j);
    SumSplit(Permute(v, perm[..j]), v[|v| - 1], Permute(v, perm[j + 1..]));
  }

  /** Taking x out of the middle of a sum. */
  lemma SumSplit(a: seq<int>, x: int, b: seq<int>)
    ensures Sum(a + [x] + b) == Sum(a + b) + x
  {
    SumConcat(a + [x], b);
    SumConcat(a, [x]);
    SumConcat(a, b);
    assert Sum([x]) == x by {
      assert [x][..0] == [];
    }
  }

  /** Multiplying in any permuted order gives the same product. */
  lemma {:induction false} ProdPermute(s: seq<nat>, perm: seq<nat>)
    requires IsPermutation(perm, |s|)
    ensures Prod(Permute(s, perm)) == Prod(s)
    decreases |s|
  {
    var n := |s|;
    if n == 0 {
      assert Permute(s, perm) == [];
    } else {
      assert n - 1 in perm;
      var j :| 0 <= j < n && perm[j] == n - 1;
      ProdPermuteStep(s, perm, j);
      ProdPermute(s[..n - 1], perm[..j] + perm[j + 1..]);
      ProdSnoc(s);
    }
  }

  /** Removing the last entry of `s` from a permuted product. */
  lemma ProdPermuteStep(s: seq<nat>, perm: seq<nat>, j: nat)
    requires IsPermutation(perm, |s|) && j < |s| && perm[j] == |s| - 1
    ensures IsPermutation(perm[..j] + perm[j + 1..], |s| - 1)
    ensures Prod(Permute(s, perm)) == Prod(Permute(s[..|s| - 1], perm[..j] + perm[j + 1..])) * s[|s| - 1]
  {
    RemoveLargest(perm, |s|, j);
    PermuteSplit(s, perm, j);
    ProdSplit(Permute(s, perm[..j]), s[|s| - 1], Permute(s, perm[j + 1..]));
  }

  /** Taking x out of the middle of a product. */
  lemma ProdSplit(a: seq<nat>, x: nat, b: seq<nat>)
    ensures Prod(a + [x] + b) == Prod(a + b) * x
  {
    ProdConcat(a + [x], b);
    ProdConcat(a, [x]);
    ProdConcat(a, b);
    assert Prod([x]) == x by {
      assert [x][..0] == [];
    }
    MulRotate(Prod(a), x, Prod(b));
    MulRotate(Prod(a), Prod(b), x);
  }

  /** A permutation reorders without losing entries, so it can be undone. */
  lemma PermuteInjective(a: seq<nat>, b: seq<nat>, perm: seq<nat>)
    requires |a| == |b| && IsPermutation(perm, |a|)
    requires Permute(a, perm) == Permute(b, perm)
    ensures a == b
  {
    forall d | 0 <= d < |a|
      ensures a[d] == b[d]
    {
      assert d in perm;
      var i :| 0 <= i < |perm| && perm[i] == d;
      assert Permute(a, perm)[i] == Permute(b, perm)[i];
    }
  }

  lemma PermuteInShape(idx: seq<nat>, shape: seq<nat>, perm: seq<nat>)
    requires InShape(idx, shape) && IsPermutation(perm, |shape|)
    ensures InShape(Permute(idx, perm), Permute(shape, perm))
  {
  }

  // ---------------------------------------------------------------------
  // Row-major positions

  lemma DivBelow(k: nat, p: nat, l: nat)
    requires k < p * l
    ensures l > 0 && k / l < p
  {
  }

  lemma MulRotate(a: int, b: int, c: int)
    ensures (a * b) * c == a * (c * b)
    ensures (a * b) * c == a * (b * c)
  {
  }

  lemma MulCancel(e: int, x: int, y: int)
    requires e > 0 && e * x == e * y
    ensures x == y
  {
  }

  lemma MulDistinct(s: int, x: int, y: int)
    requires s != 0 && x != y
    ensures x * s != y * s
  {
  }

  lemma MulMonotone(a: nat, b: nat, c: nat)
    requires a <= b
    ensures a * c <= b * c
  {
  }

  /** One more mixed-radix digit stays below the enlarged radix. */
  lemma DigitBound(r: nat, p: nat, x: nat, l: nat)
    requires r < p && x < l
    ensures r * l + x < p * l
  {
    calc {
      r * l + x;
    < r * l + l;
    == (r + 1) * l;
    <= { MulMonotone(r + 1, p, l); } p * l;
    }
  }

  /** Division and remainder recover the two digits of r * l + x. */
  lemma DigitSplit(r: nat, x: nat, l: nat)
    requires x < l
    ensures (r * l + x) / l == r && (r * l + x) % l == x
  {
    var k := r * l + x;
    var q, m := k / l, k % l;
    assert q * l + m == r * l + x;
    if q < r {
      MulMonotone(q + 1, r, l);
      assert false;
    } else if q > r {
      MulMonotone(r + 1, q, l);
      assert false;
    }
  }

  lemma {:induction false} RavelInRange(idx: seq<nat>, shape: seq<nat>)
    requires InShape(idx, shape)
    ensures Ravel(idx, shape) < Prod(shape)
    decreases |shape|
  {
    var n := |shape|;
    if n > 0 {
      RavelInRange(idx[..n - 1], shape[..n - 1]);
      DigitBound(Ravel(idx[..n - 1], shape[..n - 1]), Prod(shape[..n - 1]), idx[n - 1], shape[n - 1]);
    }
  }

  /** Row-major position to multi-index and back is the identity. */
  lemma {:induction false} UnravelRavel(idx: seq<nat>, shape: seq<nat>)
    requires InShape(idx, shape)
    ensures Ravel(idx, shape) < Prod(shape)
    ensures Unravel(Ravel(idx, shape), shape) == idx
    decreases |shape|
  {
    RavelInRange(idx, shape);
    var n := |shape|;
    if n > 0 {
      var r := Ravel(idx[..n - 1], shape[..n - 1]);
      DigitSplit(r, idx[n - 1], shape[n - 1]);
      UnravelRavel(idx[..n - 1], shape[..n - 1]);
      assert idx == idx[..n - 1] + [idx[n - 1]];
    }
  }

  /** Multi-index to row-major position and back is the identity. */
  lemma {:induction false} RavelUnravel(k: nat, shape: seq<nat>)
    requires k < Prod(shape)
    ensures InShape(Unravel(k, shape), shape)
    ensures Ravel(Unravel(k, shape), shape) == k
    decreases |shape|
  {
    var n := |shape|;
    if n > 0 {
      var init, last := shape[..n - 1], shape[n - 1];
      DivBelow(k, Prod(init), last);
      RavelUnravel(k / last, init);
      var idx := Unravel(k, shape);
      assert idx[..n - 1] == Unravel(k / last, init);
      assert idx[n - 1] == k % last;
    }
  }

  // ---------------------------------------------------------------------
  // The dense layout

  lemma OffsetSnoc(x: seq<nat>, w: seq<int>)
    requires |x| == |w| > 0
    ensures Offset(x, w) == Offset(x[..|x| - 1], w[..|w| - 1]) + x[|x| - 1] * w[|w| - 1]
  {
    var n := |x|;
    var v := seq(n, d requires 0 <= d < n => x[d] * w[d]);
    assert v[..n - 1] == seq(n - 1, d requires 0 <= d < n - 1 => x[..n - 1][d] * w[..n - 1][d]);
  }

  lemma OffsetSingle(i: nat, stride: int)
    ensures Offset([i], [stride]) == i * stride
  {
    OffsetSnoc([i], [stride]);
    assert Offset([], []) == Sum([]);
  }

  /** Under dense weights the offset of a multi-index is elsize times its
      row-major position. */
  lemma {:induction false} WeightedOffset(x: seq<nat>, s: seq<nat>, elsize: nat)
    requires |x| == |s|
    ensures Offset(x, Weights(s, elsize)) == elsize * Ravel(x, s)
    decreases |s|
  {
    var n := |s|;
    if n == 0 {
      assert Offset(x, Weights(s, elsize)) == Sum([]);
    } else {
      var init, last := s[..n - 1], s[n - 1];
      var w := Weights(s, elsize);
      OffsetSnoc(x, w);
      WeightsSnoc(s, elsize);
      WeightedOffset(x[..n - 1], init, elsize * last);
      var r := Ravel(x[..n - 1], init);
      assert Offset(x, w) == (elsize * last) * r + x[n - 1] * elsize;
      Distribute(elsize, last, r, x[n - 1]);
    }
  }

  /** Dropping the last dimension from dense weights scales the remaining
      weights by that dimension's size. */
  lemma WeightsSnoc(s: seq<nat>, elsize: nat)
    requires |s| > 0
    ensures Weights(s, elsize)[|s| - 1] == elsize
    ensures Weights(s, elsize)[..|s| - 1] == Weights(s[..|s| - 1], elsize * s[|s| - 1])
  {
    var n := |s|;
    var init, last := s[..n - 1], s[n - 1];
    var w := Weights(s, elsize);
    assert w[n - 1] == elsize by {
      assert s[n..] == [];
    }
    forall i | 0 <= i < n - 1
      ensures w[..n - 1][i] == Weights(init, elsize * last)[i]
    {
      var p := Prod(init[i + 1..]);
      assert s[i + 1..][..|s[i + 1..]| - 1] == init[i + 1..];
      ProdSnoc(s[i + 1..]);
      assert Prod(s[i + 1..]) == p * last;
      MulRotate(elsize, p, last);
    }
  }

  lemma Distribute(e: int, l: int, r: int, y: int)
    ensures (e * l) * r + y * e == e * (r * l + y)
  {
  }

  /** In the mask layout, a multi-index lies at elsize times its row-major
      position in the permuted shape. */
  lemma DenseOffset(ms: seq<int>, shape: seq<nat>, perm: seq<nat>, elsize: nat, idx: seq<nat>)
    requires IsPermutation(perm, |shape|) && IsDenseLayout(ms, shape, perm, elsize)
    requires |idx| == |shape|
    ensures Offset(idx, ms) == elsize * Ravel(Permute(idx, perm), Permute(shape, perm))
  {
    var n := |shape|;
    var v := seq(n, d requires 0 <= d < n => idx[d] * ms[d]);
    SumPermute(v, perm);
    var ps, pidx := Permute(shape, perm), Permute(idx, perm);
    var w := Weights(ps, elsize);
    forall i | 0 <= i < n
      ensures Permute(v, perm)[i] == pidx[i] * w[i]
    {
    }
    assert Permute(v, perm) == seq(n, i requires 0 <= i < n => pidx[i] * w[i]);
    WeightedOffset(pidx, ps, elsize);
  }

  /** The innermost entry of perm gets elsize, and each earlier entry the
      stride of the next one times that next dimension's size. */
  lemma DenseLayoutRecurrence(ms: seq<int>, shape: seq<nat>, perm: seq<nat>, elsize: nat)
    requires IsPermutation(perm, |shape|) && IsDenseLayout(ms, shape, perm, elsize)
    requires |shape| > 0
    ensures ms[perm[|shape| - 1]] == elsize
    ensures forall i :: 0 <= i < |shape| - 1 ==>
      ms[perm[i]] == ms[perm[i + 1]] * shape[perm[i + 1]]
  {
    var n := |shape|;
    var ps := Permute(shape, perm);
    assert ms[perm[n - 1]] == elsize * Prod(ps[n..]);
    assert ps[n..] == [];
    forall i | 0 <= i < n - 1
      ensures ms[perm[i]] == ms[perm[i + 1]] * shape[perm[i + 1]]
    {
      var p := Prod(ps[i + 2..]);
      assert ms[perm[i + 1]] == elsize * p;
      ProdCons(ps, i + 1);
      assert ms[perm[i]] == elsize * (ps[i + 1] * p);
      MulRotate(elsize, p, ps[i + 1]);
    }
  }

  /** Every in-range multi-index lands on a whole mask cell inside a buffer of
      Prod(shape) * elsize bytes. */
  lemma DenseLayoutInBounds(ms: seq<int>, shape: seq<nat>, perm: seq<nat>, elsize: nat, idx: seq<nat>)
    requires IsPermutation(perm, |shape|) && IsDenseLayout(ms, shape, perm, elsize)
    requires InShape(idx, shape)
    ensures 0 <= Offset(idx, ms) && Offset(idx, ms) + elsize <= Prod(shape) * elsize
  {
    DenseOffset(ms, shape, perm, elsize, idx);
    var ps := Permute(shape, perm);
    PermuteInShape(idx, shape, perm);
    RavelInRange(Permute(idx, perm), ps);
    ProdPermute(shape, perm);
    CellBound(elsize, Ravel(Permute(idx, perm), ps), Prod(shape));
  }

  /** Cell r of a buffer of p cells of e bytes each lies inside it. */
  lemma CellBound(e: nat, r: nat, p: nat)
    requires r < p
    ensures 0 <= e * r && e * r + e <= p * e
  {
    MulMonotone(r + 1, p, e);
  }

  /** Distinct in-range multi-indices never share a mask cell. */
  lemma DenseLayoutInjective(ms: seq<int>, shape: seq<nat>, perm: seq<nat>, elsize: nat, a: seq<nat>, b: seq<nat>)
    requires IsPermutation(perm, |shape|) && IsDenseLayout(ms, shape, perm, elsize)
    requires elsize > 0 && InShape(a, shape) && InShape(b, shape)
    ensures Offset(a, ms) == Offset(b, ms) <==> a == b
  {
    if Offset(a, ms) == Offset(b, ms) {
      var ps := Permute(shape, perm);
      DenseOffset(ms, shape, perm, elsize, a);
      DenseOffset(ms, shape, perm, elsize, b);
      var pa, pb := Permute(a, perm), Permute(b, perm);
      PermuteInShape(a, shape, perm);
      PermuteInShape(b, shape, perm);
      MulCancel(elsize, Ravel(pa, ps), Ravel(pb, ps));
      UnravelRavel(pa, ps);
      UnravelRavel(pb, ps);
      assert pa == pb;
      PermuteInjective(a, b, perm);
    }
  }

  /** With no empty dimension, mask strides never grow along perm: the mask
      is nested in the same order as perm lists the dimensions. */
  lemma DenseLayoutOrdered(ms: seq<int>, shape: seq<nat>, perm: seq<nat>, elsize: nat, i: nat, j: nat)
    requires IsPermutation(perm, |shape|) && IsDenseLayout(ms, shape, perm, elsize)
    requires forall d :: 0 <= d < |shape| ==> shape[d] > 0
    requires i <= j < |shape|
    ensures ms[perm[j]] <= ms[perm[i]]
  {
    var ps := Permute(shape, perm);
    assert ps[i + 1..] == ps[i + 1..j + 1] + ps[j + 1..];
    ProdConcat(ps[i + 1..j + 1], ps[j + 1..]);
    ProdPositive(ps[i + 1..j + 1]);
    MulMonotone(1, Prod(ps[i + 1..j + 1]), Prod(ps[j + 1..]));
    MulMonotone(Prod(ps[j + 1..]), Prod(ps[i + 1..]), elsize);
  }

  lemma {:induction false} ProdPositive(s: seq<nat>)
    requires forall i :: 0 <= i < |s| ==> s[i] > 0
    ensures Prod(s) > 0
    decreases |s|
  {
    if |s| > 0 {
      ProdPositive(s[..|s| - 1]);
    }
  }

  /** When perm sorts the dimensions by decreasing data stride, a dimension
      with a strictly larger data stride never gets a smaller mask stride, so
      the mask is traversed in the same order as the data. */
  lemma MaskOrderFollowsData(ms: seq<int>, shape: seq<nat>, strides: seq<int>, perm: seq<nat>,
                             elsize: nat, d1: nat, d2: nat)
    requires |strides| == |shape|
    requires IsPermutation(perm, |shape|) && IsDenseLayout(ms, shape, perm, elsize)
    requires SortedByDecreasingStride(perm, strides)
    requires forall d :: 0 <= d < |shape| ==> shape[d] > 0
    requires d1 < |shape| && d2 < |shape| && Abs(strides[d1]) > Abs(strides[d2])
    ensures ms[d2] <= ms[d1]
  {
    assert d1 in perm && d2 in perm;
    var i :| 0 <= i < |perm| && perm[i] == d1;
    var j :| 0 <= j < |perm| && perm[j] == d2;
    DenseLayoutOrdered(ms, shape, perm, elsize, i, j);
  }
}
