/** The routines PyArray_AllocateMaskNA calls but does not define: the dtype
    lookup, the allocator, memset/memcpy, and the raw 1-d and N-d cast loops.
    Lookup, allocation and the casts may fail; which way they go is not
    determined by anything the model can see, so each chooses freely. The
    element conversion a cast applies is handed in as a function. */
module Collaborators {
  import opened Strides

  newtype byte = x: int | 0 <= x < 256

  datatype Option<T> = None | Some(value: T)

  /** The two element types a mask can have: NPY_BOOL, or NPY_MASK (multi-NA). */
  datatype MaskType = NpyBool | NpyMask

  /** A dtype descriptor, reduced to what the mask code reads of it. */
  datatype Descr = Descr(typeNum: MaskType, elsize: nat)

  /** How a cast converts one mask cell from the first dtype to the second. */
  type Conversion = (Descr, Descr, byte) -> byte

  /** PyArray_DescrFromType for a mask type: either the descriptor (both
      mask types are one byte wide) or the NULL "descriptor unavailable". */
  method DescrFromType(t: MaskType) returns (d: Option<Descr>)
    ensures d == None || d == Some(Descr(t, 1))
  {
    var available: bool :| true;
    d := if available then Some(Descr(t, 1)) else None;
  }

  /** PyArray_malloc: a fresh buffer of `n` bytes, or null when memory runs out. */
  method Malloc(n: nat) returns (buf: array?<byte>)
    ensures buf != null ==> fresh(buf) && buf.Length == n
  {
    var available: bool :| true;
    if available {
      buf := new byte[n];
    } else {
      buf := null;
    }
  }

  /** memset(buf, value, n). */
  method Memset(buf: array<byte>, value: byte, n: nat)
    requires n <= buf.Length
    modifies buf
    ensures forall j :: 0 <= j < n ==> buf[j] == value
    ensures forall j :: n <= j < buf.Length ==> buf[j] == old(buf[j])
  {
    var i := 0;
    while i < n
      invariant 0 <= i <= n
      invariant forall j :: 0 <= j < i ==> buf[j] == value
      invariant forall j :: n <= j < buf.Length ==> buf[j] == old(buf[j])
    {
      buf[i] := value;
      i := i + 1;
    }
  }

  /** memcpy(dst, src + srcStart, n) between distinct buffers. */
  method Memcpy(dst: array<byte>, src: array<byte>, srcStart: int, n: nat)
    requires dst != src
    requires n == 0 || (0 <= srcStart && srcStart + n <= src.Length)
    requires n <= dst.Length
    modifies dst
    ensures forall j :: 0 <= j < n ==> dst[j] == src[srcStart + j]
    ensures forall j :: n <= j < dst.Length ==> dst[j] == old(dst[j])
  {
    var i := 0;
    while i < n
      invariant 0 <= i <= n
      invariant forall j :: 0 <= j < i ==> dst[j] == src[srcStart + j]
      invariant forall j :: n <= j < dst.Length ==> dst[j] == old(dst[j])
    {
      dst[i] := src[srcStart + i];
      i := i + 1;
    }
  }

  /** PyArray_CastRawArrays over `count` elements: on success, element i of
      the destination (at i * dstStride) is the conversion of element i of
      the source (at srcStart + i * srcStride). On failure the destination
      holds no promised content. */
  method CastRawArrays(count: nat, src: array<byte>, srcStart: int, srcStride: int,
                       dst: array<byte>, dstStride: int,
                       srcDtype: Descr, dstDtype: Descr, conv: Conversion)
    returns (ok: bool)
    requires src != dst
    requires forall i :: 0 <= i < count ==> 0 <= srcStart + i * srcStride < src.Length
    requires forall i :: 0 <= i < count ==> 0 <= i * dstStride < dst.Length
    requires count <= 1 || dstStride != 0
    modifies dst
    ensures ok ==> forall i :: 0 <= i < count ==>
      dst[i * dstStride] == conv(srcDtype, dstDtype, src[srcStart + i * srcStride])
  {
    ok :| true;
    if !ok {
      return;
    }
    var i := 0;
    while i < count
      invariant 0 <= i <= count
      invariant forall k :: 0 <= k < i ==>
        dst[k * dstStride] == conv(srcDtype, dstDtype, src[srcStart + k * srcStride])
    {
      forall k | 0 <= k < i
        ensures k * dstStride != i * dstStride
      {
        MulDistinct(dstStride, k, i);
      }
      dst[i * dstStride] := conv(srcDtype, dstDtype, src[srcStart + i * srcStride]);
      i := i + 1;
    }
  }

  /** PyArray_CastRawNDimArrays over every multi-index of `shape`: on success
      the destination cell of each multi-index is the conversion of its
      source cell. The destination layout must give distinct multi-indices
      distinct cells. On failure the destination holds no promised content. */
  method CastRawNDimArrays(shape: seq<nat>, src: array<byte>, srcStart: int, srcStrides: seq<int>,
                           dst: array<byte>, dstStrides: seq<int>,
                           srcDtype: Descr, dstDtype: Descr, conv: Conversion)
    returns (ok: bool)
    requires src != dst
    requires |srcStrides| == |shape| && |dstStrides| == |shape|
    requires forall idx :: InShape(idx, shape) ==> 0 <= srcStart + Offset(idx, srcStrides) < src.Length
    requires forall idx :: InShape(idx, shape) ==> 0 <= Offset(idx, dstStrides) < dst.Length
    requires forall a, b :: InShape(a, shape) && InShape(b, shape) && a != b ==>
      Offset(a, dstStrides) != Offset(b, dstStrides)
    modifies dst
    ensures ok ==> forall idx :: InShape(idx, shape) ==>
      dst[Offset(idx, dstStrides)] == conv(srcDtype, dstDtype, src[srcStart + Offset(idx, srcStrides)])
  {
    ok :| true;
    if !ok {
      return;
    }
    var size := Prod(shape);
    var k := 0;
    while k < size
      invariant 0 <= k <= size
      invariant forall idx :: InShape(idx, shape) && Ravel(idx, shape) < k ==>
        dst[Offset(idx, dstStrides)] == conv(srcDtype, dstDtype, src[srcStart + Offset(idx, srcStrides)])
    {
      var idx := Unravel(k, shape);
      RavelUnravel(k, shape);
      dst[Offset(idx, dstStrides)] := conv(srcDtype, dstDtype, src[srcStart + Offset(idx, srcStrides)]);
      forall a | InShape(a, shape) && Ravel(a, shape) < k + 1
        ensures dst[Offset(a, dstStrides)] == conv(srcDtype, dstDtype, src[srcStart + Offset(a, srcStrides)])
      {
        if Ravel(a, shape) == k {
          UnravelRavel(a, shape);
        }
      }
      k := k + 1;
    }
    forall idx | InShape(idx, shape)
      ensures dst[Offset(idx, dstStrides)]
        == conv(srcDtype, dstDtype, src[srcStart + Offset(idx, srcStrides)])
    {
      RavelInRange(idx, shape);
    }
  }
}
