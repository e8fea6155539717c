/** Missing-value (NA) mask support for the NumPy array, as implemented in
    numpy/core/src/multiarray/na_mask.c: the two queries HasNASupport and
    ContainsNA, and AllocateMaskNA, which gives an array its own mask. */
module NaMask {
  import opened Strides
  import opened Collaborators

  /** The NPY_ARRAY_* flag bits; `flags |= X` becomes set union. */
  datatype ArrayFlag =
    | CContiguous | FContiguous | OwnData | Aligned | Writeable | UpdateIfCopy
    | MaskNA      // the array has an NA mask, owned or borrowed from another array
    | OwnMaskNA   // the array owns its NA mask

  /** Every element's mask cell lies in a buffer of `length` bytes: the cell
      of multi-index idx is at `offset + Offset(idx, ms)`. */
  ghost predicate CellsFit(shape: seq<nat>, ms: seq<int>, offset: int, length: int)
  {
    && |ms| == |shape|
    && forall idx :: InShape(idx, shape) ==> 0 <= offset + Offset(idx, ms) < length
  }

  /** Every mask cell says "present": a mask filled with 1s has no NA. */
  ghost predicate AllPresent(data: array<byte>)
    reads data
  {
    forall j :: 0 <= j < data.Length ==> data[j] == 1
  }

  /** Each element's cell in `data` (layout `ms`) holds its cell in `src`
      (layout `srcStrides`, starting at `srcOffset`) unchanged. */
  ghost predicate Copied(shape: seq<nat>, ms: seq<int>, data: array<byte>,
                         src: array<byte>, srcOffset: int, srcStrides: seq<int>)
    reads data, src
  {
    && CellsFit(shape, ms, 0, data.Length)
    && CellsFit(shape, srcStrides, srcOffset, src.Length)
    && forall idx :: InShape(idx, shape) ==>
         data[Offset(idx, ms)] == src[srcOffset + Offset(idx, srcStrides)]
  }

  /** Each element's cell in `data` (layout `ms`) holds its cell in `src`
      (layout `srcStrides`, starting at `srcOffset`) converted by `conv` from
      `srcDtype` to `dstDtype`. */
  ghost predicate Converted(shape: seq<nat>, ms: seq<int>, data: array<byte>,
                            src: array<byte>, srcOffset: int, srcStrides: seq<int>,
                            srcDtype: Descr, dstDtype: Descr, conv: Conversion)
    reads data, src
  {
    && CellsFit(shape, ms, 0, data.Length)
    && CellsFit(shape, srcStrides, srcOffset, src.Length)
    && forall idx :: InShape(idx, shape) ==>
         data[Offset(idx, ms)] == conv(srcDtype, dstDtype, src[srcOffset + Offset(idx, srcStrides)])
  }

  /** The fields of PyArrayObject that the mask code reads or writes. The mask
      pointer `maskna_data` is the pair (maskData, maskOffset): the buffer it
      points into and the position in it of the mask cell of element 0, so a
      borrowed mask may run backwards. Mask cells are one byte. */
  class NaArray {
    var flags: set<ArrayFlag>
    const shape: seq<nat>
    const strides: seq<int>
    const hasFields: bool
    var maskDtype: Option<Descr>
    var maskData: array?<byte>
    var maskOffset: int
    var maskStrides: seq<int>

    /** What every array satisfies: owning a mask implies having one, a mask
        has a dtype and a buffer that holds the cell of every element, and an
        owned mask is a whole buffer of size * elsize bytes. */
    ghost predicate Valid()
      reads this
    {
      && |strides| == |shape|
      && |maskStrides| == |shape|
      && (OwnMaskNA in flags ==> MaskNA in flags)
      && (MaskNA in flags ==>
            && maskDtype.Some?
            && maskData != null
            && CellsFit(shape, maskStrides, maskOffset, maskData.Length))
      && (OwnMaskNA in flags ==>
            maskOffset == 0 && maskData.Length == Size() * maskDtype.value.elsize)
    }

    /** An array without a mask. */
    constructor (shape: seq<nat>, strides: seq<int>, hasFields: bool, flags: set<ArrayFlag>)
      requires |strides| == |shape|
      ensures Valid()
      ensures this.shape == shape && this.strides == strides && this.hasFields == hasFields
      ensures this.flags == flags - {MaskNA, OwnMaskNA}
      ensures maskDtype == None && maskData == null
    {
      this.flags := flags - {MaskNA, OwnMaskNA};
      this.shape := shape;
      this.strides := strides;
      this.hasFields := hasFields;
      maskDtype := None;
      maskData := null;
      maskOffset := 0;
      maskStrides := seq(|shape|, d => 0);
    }

    /** PyArray_SIZE: the number of elements. */
    function Size(): nat
    {
      Prod(shape)
    }

    /** PyArray_HasNASupport (na_mask.c:29-33): the array has an NA mask,
        owned or borrowed. On a valid array a true answer means the mask is
        really there: a dtype and a buffer holding every element's cell. */
    function HasNASupport(): (r: bool)
      reads this
      ensures r <==> MaskNA in flags
      ensures Valid() && OwnMaskNA in flags ==> r
      ensures Valid() && r ==>
        && maskDtype.Some? && maskData != null
        && CellsFit(shape, maskStrides, maskOffset, maskData.Length)
    {
      MaskNA in flags
    }

    /** PyArray_ContainsNA (na_mask.c:41-52). Only an array with NA support
        can contain an NA; the scan of the mask is not written, so the answer
        is false for every array. */
    function ContainsNA(): (r: bool)
      reads this
      ensures r ==> HasNASupport()
      ensures !r
    {
      if !HasNASupport() then false else false
    }

    /** The existing mask is taken over byte for byte rather than cast: a 0-d
        array, or a 1-d array whose mask cells are adjacent. */
    predicate CopiesUnconverted()
      reads this
    {
      |shape| == 0 || (|shape| == 1 && |maskStrides| == 1 && maskStrides[0] == 1)
    }

    /** AllocateMaskNA has work to do: the array does not own a mask, and
        either ownership is requested or there is no mask at all. */
    ghost predicate NeedsMask(ownmaskna: bool)
      reads this
    {
      OwnMaskNA !in flags && (ownmaskna || MaskNA !in flags)
    }

    /** PyArray_AllocateMaskNA (na_mask.c:67-184). Returns 0 on success and
        -1 on failure. `perm` is the stride-sorted permutation that
        PyArray_CreateSortedStridePerm yields for this array, and `conv` the
        element conversion the cast routines apply. */
    method AllocateMaskNA(ownmaskna: bool, multina: bool, perm: seq<nat>, conv: Conversion)
      returns (r: int)
      requires Valid()
      requires IsPermutation(perm, |shape|)
      modifies this
      ensures Valid()
      ensures r == 0 || r == -1
      // Lines 75-83: an owned mask, or any mask when ownership is not
      // requested, leaves nothing to do.
      ensures !old(NeedsMask(ownmaskna)) ==> r == 0 && unchanged(this)
      // Lines 88-92: a structured dtype cannot get a mask.
      ensures old(NeedsMask(ownmaskna)) && hasFields ==> r == -1
      // Every failure (structured dtype, no descriptor, no memory, a failed
      // cast) leaves flags, mask dtype, mask data and mask strides as they were.
      ensures r == -1 ==> unchanged(this)
      // The old mask buffer is only ever read.
      ensures old(maskData) != null ==> unchanged(old(maskData))
      // A repeat call with the same request has nothing to do.
      ensures r == 0 ==> !NeedsMask(ownmaskna)
      // Lines 178-181: the commit.
      ensures r == 0 && old(NeedsMask(ownmaskna)) ==>
        && flags == old(flags) + {MaskNA, OwnMaskNA}
        && maskDtype == Some(Descr(if multina then NpyMask else NpyBool, 1))
        && maskData != null && fresh(maskData)
        && maskData.Length == Size() * maskDtype.value.elsize
        && maskOffset == 0
      // Line 132: a 1-d mask is packed at its element size.
      ensures r == 0 && old(NeedsMask(ownmaskna)) && |shape| == 1 ==>
        maskStrides == [maskDtype.value.elsize]
      // Lines 142-148, 165: an N-d mask gets the dense layout over perm.
      ensures r == 0 && old(NeedsMask(ownmaskna)) && |shape| >= 2 ==>
        IsDenseLayout(maskStrides, shape, perm, maskDtype.value.elsize)
      // Lines 129, 162, 173: without an old mask every element is present.
      ensures r == 0 && old(NeedsMask(ownmaskna)) && old(MaskNA !in flags) ==>
        AllPresent(maskData)
      // Lines 113-115, 169-171: a 0-d mask, or a 1-d mask with adjacent
      // cells, is copied without conversion.
      ensures r == 0 && old(NeedsMask(ownmaskna)) && old(MaskNA in flags) && old(CopiesUnconverted()) ==>
        Copied(shape, maskStrides, maskData, old(maskData), old(maskOffset), old(maskStrides))
      // Lines 117-125, 151-159: otherwise every element's old mask cell is
      // converted into its new cell.
      ensures r == 0 && old(NeedsMask(ownmaskna)) && old(MaskNA in flags) && !old(CopiesUnconverted()) ==>
        Converted(shape, maskStrides, maskData, old(maskData), old(maskOffset), old(maskStrides),
                  old(maskDtype.value), maskDtype.value, conv)
    {
      if OwnMaskNA in flags {
        return 0;
      }
      if !ownmaskna && MaskNA in flags {
        return 0;
      }
      var size := Prod(shape);
      if hasFields {
        return -1;
      }
      var descr := DescrFromType(if multina then NpyMask else NpyBool);
      if descr.None? {
        return -1;
      }
      var dtype := descr.value;
      var data := Malloc(size * dtype.elsize);
      if data == null {
        return -1;
      }
      var ok, newStrides := FillMask(data, dtype, perm, conv);
      if !ok {
        return -1;
      }
      maskStrides := newStrides;
      maskDtype := Some(dtype);
      maskData := data;
      maskOffset := 0;
      flags := flags + {MaskNA, OwnMaskNA};
      r := 0;
    }

    /** Lines 110-175: fills the new mask buffer `data` from the old mask, or
        with 1s, and computes the new mask strides `ms`. Only a cast can fail. */
    method FillMask(data: array<byte>, dtype: Descr, perm: seq<nat>, conv: Conversion)
      returns (ok: bool, ms: seq<int>)
      requires Valid() && IsPermutation(perm, |shape|)
      requires dtype.elsize == 1 && data != maskData && data.Length == Size()
      modifies data
      ensures CellsFit(shape, ms, 0, data.Length)
      ensures |shape| == 0 ==> ms == maskStrides
      ensures |shape| == 1 ==> ms == [dtype.elsize]
      ensures |shape| >= 2 ==> IsDenseLayout(ms, shape, perm, dtype.elsize)
      ensures !ok ==> MaskNA in flags && !CopiesUnconverted()
      ensures ok && MaskNA !in flags ==> AllPresent(data)
      ensures ok && MaskNA in flags && CopiesUnconverted() ==>
        Copied(shape, ms, data, maskData, maskOffset, maskStrides)
      ensures ok && MaskNA in flags && !CopiesUnconverted() ==>
        Converted(shape, ms, data, maskData, maskOffset, maskStrides, maskDtype.value, dtype, conv)
    {
      if |shape| == 1 {
        ms := [dtype.elsize];
        ok := FillVector(data, dtype, conv);
      } else if |shape| > 1 {
        ms := BuildMaskStrides(shape, perm, dtype.elsize);
        ok := FillTensor(data, dtype, perm, ms, conv);
      } else {
        ms := maskStrides;
        FillScalar(data);
        ok := true;
      }
    }

    /** Lines 111-130: fills the new buffer of a 1-d array, whose mask cells
        are packed. */
    method FillVector(data: array<byte>, dtype: Descr, conv: Conversion) returns (ok: bool)
      requires Valid() && |shape| == 1
      requires dtype.elsize == 1 && data != maskData && data.Length == Size()
      modifies data
      ensures CellsFit(shape, [dtype.elsize], 0, data.Length)
      ensures !ok ==> MaskNA in flags && !CopiesUnconverted()
      ensures ok && MaskNA !in flags ==> AllPresent(data)
      ensures ok && MaskNA in flags && CopiesUnconverted() ==>
        Copied(shape, [dtype.elsize], data, maskData, maskOffset, maskStrides)
      ensures ok && MaskNA in flags && !CopiesUnconverted() ==>
        Converted(shape, [dtype.elsize], data, maskData, maskOffset, maskStrides, maskDtype.value, dtype, conv)
    {
      var size := Prod(shape);
      assert size == shape[0] by {
        ProdSnoc(shape);
        assert shape[..0] == [];
      }
      VectorLayoutInBounds(data.Length);
      ok := true;
      if MaskNA in flags {
        var stride := maskStrides[0];
        assert maskStrides == [stride];
        forall i | 0 <= i < size
          ensures 0 <= maskOffset + i * stride < maskData.Length
        {
          assert InShape([i], shape);
          OffsetSingle(i, stride);
        }
        if stride == 1 {
          if size > 0 {
            assert 0 <= maskOffset + 0 * stride;
            assert maskOffset + (size - 1) * stride < maskData.Length;
          }
          Memcpy(data, maskData, maskOffset, size * dtype.elsize);
          forall idx | InShape(idx, shape)
            ensures data[Offset(idx, [1])] == maskData[maskOffset + Offset(idx, maskStrides)]
          {
            assert idx == [idx[0]];
            OffsetSingle(idx[0], 1);
          }
        } else {
          ok := CastRawArrays(size, maskData, maskOffset, stride,
                              data, dtype.elsize, maskDtype.value, dtype, conv);
          if ok {
            forall idx | InShape(idx, shape)
              ensures data[Offset(idx, [1])]
                == conv(maskDtype.value, dtype, maskData[maskOffset + Offset(idx, maskStrides)])
            {
              assert idx == [idx[0]];
              OffsetSingle(idx[0], 1);
              OffsetSingle(idx[0], stride);
            }
          }
        }
      } else {
        Memset(data, 1, size * dtype.elsize);
      }
    }

    /** Every multi-index of a 1-d array has its cell in a packed buffer. */
    lemma VectorLayoutInBounds(length: nat)
      requires |shape| == 1 && length == Size()
      ensures CellsFit(shape, [1], 0, length)
    {
      assert Size() == shape[0] by {
        ProdSnoc(shape);
        assert shape[..0] == [];
      }
      forall idx | InShape(idx, shape)
        ensures 0 <= Offset(idx, [1]) < length
      {
        assert idx == [idx[0]];
        OffsetSingle(idx[0], 1);
      }
    }

    /** Lines 134-166: fills the new buffer of an N-d array laid out by `ms`. */
    method FillTensor(data: array<byte>, dtype: Descr, perm: seq<nat>, ms: seq<int>, conv: Conversion)
      returns (ok: bool)
      requires Valid() && |shape| >= 2 && IsPermutation(perm, |shape|)
      requires IsDenseLayout(ms, shape, perm, dtype.elsize)
      requires dtype.elsize == 1 && data != maskData && data.Length == Size()
      modifies data
      ensures CellsFit(shape, ms, 0, data.Length)
      ensures forall a, b :: InShape(a, shape) && InShape(b, shape) && a != b ==>
        Offset(a, ms) != Offset(b, ms)
      ensures !ok ==> MaskNA in flags
      ensures ok && MaskNA !in flags ==> AllPresent(data)
      ensures ok && MaskNA in flags ==>
        Converted(shape, ms, data, maskData, maskOffset, maskStrides, maskDtype.value, dtype, conv)
    {
      forall idx | InShape(idx, shape)
        ensures 0 <= Offset(idx, ms) < data.Length
      {
        DenseLayoutInBounds(ms, shape, perm, dtype.elsize, idx);
      }
      forall a, b | InShape(a, shape) && InShape(b, shape) && a != b
        ensures Offset(a, ms) != Offset(b, ms)
      {
        DenseLayoutInjective(ms, shape, perm, dtype.elsize, a, b);
      }
      ok := true;
      if MaskNA in flags {
        ok := CastRawNDimArrays(shape, maskData, maskOffset, maskStrides,
                                data, ms, maskDtype.value, dtype, conv);
      } else {
        Memset(data, 1, Size() * dtype.elsize);
      }
    }

    /** Lines 167-175: the single cell of a 0-d mask is the old cell, or 1. */
    method FillScalar(data: array<byte>)
      requires Valid() && |shape| == 0
      requires data != maskData && data.Length == Size()
      modifies data
      ensures CellsFit(shape, maskStrides, 0, data.Length)
      ensures MaskNA !in flags ==> AllPresent(data)
      ensures MaskNA in flags ==> Copied(shape, maskStrides, data, maskData, maskOffset, maskStrides)
    {
      assert forall idx :: InShape(idx, shape) ==> idx == [];
      assert Offset([], maskStrides) == 0;
      if MaskNA in flags {
        data[0] := maskData[maskOffset];
      } else {
        data[0] := 1;
      }
    }
  }

  /** On a 1-d array the unconverted copy is memcpy of `n` bytes: byte j of
      the new mask is byte `srcOffset + j` of the old buffer. */
  lemma CopiedVectorBytes(n: nat, data: array<byte>, src: array<byte>, srcOffset: int)
    requires Copied([n], [1], data, src, srcOffset, [1])
    ensures n <= data.Length
    ensures n > 0 ==> 0 <= srcOffset && srcOffset + n <= src.Length
    ensures forall j :: 0 <= j < n ==> data[j] == src[srcOffset + j]
  {
    forall j: nat | j < n
      ensures 0 <= srcOffset + j < src.Length && j < data.Length && data[j] == src[srcOffset + j]
    {
      assert InShape([j], [n]);
      OffsetSingle(j, 1);
      assert data[Offset([j], [1])] == src[srcOffset + Offset([j], [1])];
    }
    if n > 0 {
      assert InShape([0], [n]) && InShape([n - 1], [n]);
      OffsetSingle(0, 1);
      OffsetSingle(n - 1, 1);
    }
  }
}
