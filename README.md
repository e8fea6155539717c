# NA mask support of the NumPy array

A Dafny model of `numpy/core/src/multiarray/na_mask.c`, the part of NumPy's
multiarray core that gives an array an optional missing-value ("NA") mask:
one mask cell per element, 1 for "present" and 0 for "missing", kept in a
byte buffer with its own strides beside the array's data.

The model has three modules:

- `Strides` (`strides.dfy`): index arithmetic of strided N-d layouts. A
  multi-index `idx` lies at `Offset(idx, strides)`, the sum of
  `idx[d] * strides[d]`. The module also holds the dense mask layout that
  `PyArray_AllocateMaskNA` builds for arrays of two or more dimensions.
  `BuildMaskStrides` is the descending stride loop of the C code, with its
  local `maskna_strides[]` array. The lemmas prove the layout
  - is exactly the loop's recurrence, in both directions;
  - is in bounds and injective (it maps each element to elsize times its
    row-major position in perm order);
  - nests the mask like the data when perm is sorted by data stride.
- `Collaborators` (`collaborators.dfy`): the routines the file calls but
  does not define.
  - `PyArray_DescrFromType` and `PyArray_malloc` may fail, and which way
    is a free choice.
  - `memset` and `memcpy` are written as loops.
  - The raw 1-d and N-d cast loops may fail. On success, each destination
    cell is a given conversion function applied to its source cell.
- `NaMask` (`na_mask.dfy`): the array object as a class `NaArray`, with its
  flags and mask fields. It holds `HasNASupport`, `ContainsNA` and
  `AllocateMaskNA`. `AllocateMaskNA` runs in this order:
  - the early exits;
  - the rejection of structured dtypes;
  - descriptor lookup and allocation;
  - population by dimensionality (`FillVector`, `FillTensor`,
    `FillScalar`, dispatched by `FillMask`);
  - the commit.

Modelling choices:
- The mask pointer `maskna_data` is the pair `(maskData, maskOffset)`. These
  are the buffer and the position of element 0's cell in it. A mask borrowed
  from another array may therefore start inside a buffer and have negative
  strides.
- Flags are a set of flag names. `flags |= A | B` is set union.
- The stride-sorted permutation that `PyArray_CreateSortedStridePerm`
  produces is an input `perm`, required to be a permutation of the
  dimensions.
- The element conversion the cast routines apply is an input `conv`.
- Both mask dtypes are one byte wide, so a mask cell is one `byte`.
- Allocation, descriptor lookup and the casts choose success or failure
  nondeterministically (`:| true`).

## Model

| member | source | states |
|---|---|---|
| NaMask.NaArray.HasNASupport | numpy/core/src/multiarray/na_mask.c:29-33 | True exactly when the MASKNA flag is set. On a valid array, an owned mask (OWNMASKNA) gives true, and true means a mask is really there: a mask dtype and a buffer holding the cell of every element, whether the mask is owned or borrowed. |
| NaMask.NaArray.ContainsNA | numpy/core/src/multiarray/na_mask.c:41-52 | A true answer implies NA support. As written, the answer is false for every array, with or without a mask: the scan is a TODO. |
| NaMask.NaArray.AllocateMaskNA | numpy/core/src/multiarray/na_mask.c:67-184 | Returns 0 or -1 and keeps `Valid()`. An owned mask, or any mask when ownership is not requested, returns 0 and changes nothing (lines 75-83). Otherwise a structured dtype returns -1 (lines 88-92). Every -1 leaves the object unchanged, and the old mask buffer is never written. On success (lines 178-181): the flags gain exactly MASKNA and OWNMASKNA; the dtype is NPY_MASK if multina, else NPY_BOOL; the mask is a fresh buffer of size * elsize bytes at offset 0; a second identical call has nothing to do. The new strides are [elsize] for 1-d and the dense layout over perm for nd >= 2 (lines 132, 142-148). Without a prior mask every byte is 1 (lines 129, 162, 173). With one, each element's new cell holds its old cell: unconverted for 0-d and for 1-d with old stride 1, otherwise converted by `conv` from the old mask dtype to the new one (lines 112-125, 150-171). |
| NaMask.NaArray.FillMask | numpy/core/src/multiarray/na_mask.c:110-175 | Dispatches on the dimension count. Gives the new strides (none written for 0-d) and the new cells: all 1, copied, or converted. Only a cast can fail, and only when an old mask is converted. |
| NaMask.NaArray.FillVector | numpy/core/src/multiarray/na_mask.c:110-133 | 1-d case. With no mask, memset to 1. With old stride 1, memcpy of the old cells. Otherwise CastRawArrays from the old stride to stride elsize, which fails only on this path. |
| NaMask.NaArray.VectorLayoutInBounds | numpy/core/src/multiarray/na_mask.c:132 | Every index of a 1-d array with stride 1 is a cell of a buffer of `size` bytes. |
| NaMask.NaArray.FillTensor | numpy/core/src/multiarray/na_mask.c:150-163 | N-d case. With no mask, memset to 1. Otherwise CastRawNDimArrays from the old layout to the dense one. Every element's new cell is in bounds, and no two elements share one. |
| NaMask.NaArray.FillScalar | numpy/core/src/multiarray/na_mask.c:167-175 | 0-d case. The single new cell is the old mask's cell, or 1 without a mask. |
| NaMask.CopiedVectorBytes | numpy/core/src/multiarray/na_mask.c:112-115 | On a 1-d array of n elements, the unconverted copy is memcpy of n bytes. Both byte ranges are in bounds, and byte j of the new mask is byte `srcOffset + j` of the old buffer. |
| Strides.BuildMaskStrides | numpy/core/src/multiarray/na_mask.c:143-148 | The descending loop over perm yields the dense layout. Dimension perm[i] gets elsize times the sizes of the dimensions after it in perm. |
| Strides.DenseLayoutRecurrence | numpy/core/src/multiarray/na_mask.c:143-148 | A dense layout satisfies the loop's recurrence. The stride of perm[nd-1] is elsize. The stride of perm[i] is the stride of perm[i+1] times shape[perm[i+1]]. |
| Strides.DenseFromRecurrence | numpy/core/src/multiarray/na_mask.c:143-148 | The converse: strides that satisfy the loop's recurrence are the dense layout. |
| Strides.DenseOffset | numpy/core/src/multiarray/na_mask.c:143-148 | In the dense layout, an element's offset is elsize times its row-major position in the perm-ordered shape. |
| Strides.DenseLayoutInBounds | numpy/core/src/multiarray/na_mask.c:102 | Every in-range multi-index lands on a whole cell inside the size * elsize byte buffer. |
| Strides.DenseLayoutInjective | numpy/core/src/multiarray/na_mask.c:143-148 | For elsize > 0, two in-range multi-indices share an offset exactly when they are equal. |
| Strides.DenseLayoutOrdered | numpy/core/src/multiarray/na_mask.c:143-148 | With no empty dimension, mask strides never grow along perm. |
| Strides.MaskOrderFollowsData | numpy/core/src/multiarray/na_mask.c:140-142 | Let perm be sorted by decreasing absolute data stride. Then a dimension with a strictly larger data stride never gets a smaller mask stride, so the mask is walked in the data's order. |
| Strides.SumPermute | numpy/core/src/multiarray/na_mask.c:143-148 | Summing the offset terms in perm order gives the same offset. |
| Strides.ProdPermute | numpy/core/src/multiarray/na_mask.c:102 | The product of the sizes in perm order is the element count. |
| Strides.UnravelRavel | numpy/core/src/multiarray/na_mask.c:152-155 | Row-major position is invertible on in-range multi-indices. This is how the N-d cast visits every element once. |
| Strides.RavelUnravel | numpy/core/src/multiarray/na_mask.c:152-155 | Every position below the element count is the position of one in-range multi-index. |
| Collaborators.DescrFromType | numpy/core/src/multiarray/na_mask.c:94-98 | Gives the one-byte descriptor of the requested mask type, or none. |
| Collaborators.Malloc | numpy/core/src/multiarray/na_mask.c:102-107 | Gives a fresh buffer of exactly the requested size, or null. |
| Collaborators.Memset | numpy/core/src/multiarray/na_mask.c:129 | The first n bytes take the value, and the rest are unchanged. |
| Collaborators.Memcpy | numpy/core/src/multiarray/na_mask.c:113-115 | The first n bytes of the destination are the source bytes from srcStart, and the rest are unchanged. |
| Collaborators.CastRawArrays | numpy/core/src/multiarray/na_mask.c:118-121 | On success, element i of the destination (at i * dstStride) is the conversion of source element i (at srcStart + i * srcStride). |
| Collaborators.CastRawNDimArrays | numpy/core/src/multiarray/na_mask.c:152-155 | On success, each in-range multi-index's destination cell is the conversion of its source cell. The destination layout must be injective. |

## Left out

- Python reference counting and the exception state are not modelled. This covers `Py_DECREF`, `Py_XDECREF`, `PyErr_SetString` and `PyErr_NoMemory`. They concern CPython object lifetime and error reporting, not the mask.
- The internals of `PyArray_CreateSortedStridePerm` are not modelled, because it is defined outside this file. Its result is the input `perm`. `MaskOrderFollowsData` states what follows when perm is sorted by decreasing absolute data stride.
- The internals of `PyArray_CastRawArrays` and `PyArray_CastRawNDimArrays` are not modelled. Each may fail, and on success it applies the supplied conversion cell by cell. Their `aligned` argument (0 here) is not modelled.
- `PyArray_DescrFromType` and `PyArray_malloc` succeed or fail nondeterministically. The descriptor is always one byte wide.
- Releasing the new buffer on failure (`PyArray_free`) is not modelled. The old mask buffer is not freed either: the source only overwrites the pointer, and the model keeps the old array untouched.
- `NaMask.NaArray.ContainsNA`: the scan of the mask is a TODO in the source. The model returns false like the code and invents no scan.
- Integer width is not modelled. `npy_intp` overflow of `size * elsize` and of the stride products cannot happen in the model, because it uses unbounded integers.
- Flags are a set of names, not the `NPY_ARRAY_*` bit values. The header that defines them is not part of this model.
- The NA-dtype branch of `HasNASupport` mentioned in the source comment does not exist in the code, so it is not modelled.
- Two places where the code differs from its usual description, modelled as the code does:
  - Structured dtypes are rejected only after the early exits. An array that already owns a mask returns 0 even with fields.
  - The 1-d `memcpy` fast path copies the old bytes without conversion, even when the old mask's dtype differs from the new one.
- Writing the new strides into the object is merged into the commit. The source writes them just before the commit, when nothing can fail any more.
