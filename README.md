# villiany-data-types in Dafny

A model of the data types of a voxel game's chunk storage:

- **the fixed-length array codec** (`module ArrayCodec`, `array_codec.dfy`): a
  `[T; N]` is serialized as a tuple of exactly N elements, and deserialized by
  a visitor that pre-fills an N-slot buffer with `T::default()` and overwrites
  slot i with the i-th element it reads, failing with `invalid_length(i)` at
  the first slot the input cannot fill;
- **chunk grids** (`module Chunk`, `chunk.dfy`): `ChunkDataRow<N>`, a row of N
  block ids, and `ChunkData<X, Y>`, Y rows of X ids, with fill and default
  constructors, indexed reads and writes, and serialization that nests the
  array codec one level;
- **coordinates** (`module Coordinates`, `coord.dfy`): `Coord`, a pair of
  signed integers with componentwise `+`, `*`, `/` (by a `Coord` and by a
  scalar) and `%`.

How the serialization framework is represented. A serializer is the sequence
of wire values it is handed, in order. A `SeqAccess` is the sequence of wire
values still to be read; `NextElement` returns `Ok(None)` once it is empty.
An element type is given by two functions, `enc` (its `serialize`) and `dec`
(its `deserialize`), and either may fail. `Error` has the codec's own
`InvalidLength(index)` and `Custom(code)` for any other error an element
raises; an element's error is passed on unchanged, as the `?` after
`serialize_element` and `next_element` does. Block ids are written as
themselves and always read back. For the grid, the element is a row: `RowEnc` serializes it
and `RowDecoder(x)` runs the row codec. So an error raised inside a row, which
the `?` after `next_element()` passes on, is part of the model.

How the code's own forms are kept. `Serialize` is a loop that pushes each
element. `VisitSeq` fills a Dafny `array` in place, reading the input through
a cursor. It is proved equal to `Decode`, a recursive reference definition
that reads slot by slot. The properties are then lemmas about `Decode` and
`Encode`. A `[T; N]` value is a `seq<T>` of length N, because Rust arrays are
copied by value. `ChunkDataRow` is a class over an `array` of ids.
`ChunkData` is a class over an `array` of row values, with `Valid()` stating
that every row has width X. Their `IndexMut` methods change one slot in
place. `Coord` is a datatype. `Coord::new`, `x()` and `y()` are its
constructor and fields (src/lib.rs:113-128). The arithmetic operations are
functions. Rust's `/` and `%` truncate toward zero, so `TruncDiv` and
`TruncRem` write that rule out instead of using Dafny's Euclidean operators.
The `IndexMut` contracts are stated through the read accessors `Index`.

`(a * b) / b == a` holds for every a, and not only when a's components are
multiples of b's. `DivCancelsMul` proves it in that general form.

## Model

| member | source | states |
|---|---|---|
| ArrayCodec.EncodeSucceeds | src/lib.rs:16-20 | serialization succeeds iff every element serializes; the wire form then has exactly one value per element, value i being element i's encoding |
| ArrayCodec.EncodeBadElement | src/lib.rs:17-19 | the first element that fails to serialize ends serialization with that element's own error |
| ArrayCodec.Serialize | src/lib.rs:15-21 | the loop emits the N elements in index order and stops at the first failing one; on success value i is element i's encoding; this equals `Encode` |
| ArrayCodec.VisitSeq | src/lib.rs:35-43 | the buffer-filling loop gives exactly the reference reading `Decode`; on success the SeqAccess has consumed exactly the first N input elements |
| ArrayCodec.DecodeSucceeds | src/lib.rs:35-43 | deserialization succeeds iff the input has at least N elements that all decode; slot i of the result is then element i decoded, so the default pre-fill never survives |
| ArrayCodec.DecodeShort | src/lib.rs:37-40 | with k < N well-formed elements the result is `InvalidLength(k)`, the first missing slot, and no partial array |
| ArrayCodec.DecodeBadElement | src/lib.rs:38-39 | the first element that fails to decode ends deserialization with that element's own error |
| ArrayCodec.DecodeReadsPrefix | src/lib.rs:36-41 | only the first N elements are read: anything after them leaves the result unchanged |
| ArrayCodec.RoundTrip | src/lib.rs:15-48 | when each element serializes and reads back as itself, serializing succeeds and deserializing what it wrote (followed by anything) gives back the original array |
| Chunk.Repeat | src/lib.rs:58-60 | `[v; n]` has length n and every element equal to v |
| Chunk.EncodeBlocks | src/lib.rs:51-55 | a row of ids is written as exactly those ids in order |
| Chunk.DecodeBlocks | src/lib.rs:51-55 | reading n ids gives the first n input ids, or `InvalidLength(k)` when only k < n are there |
| Chunk.DecodeGridOk | src/lib.rs:82-86 | a grid of Y rows of width X reads successfully iff there are Y rows each with at least X ids; row i is then the first X ids of input row i |
| Chunk.DecodeGridShort | src/lib.rs:82-86 | k < Y well-formed rows give `InvalidLength(k)`, the first missing row |
| Chunk.DecodeGridShortRow | src/lib.rs:82-86 | the first row with only m < X ids fails the whole grid with the nested row's `InvalidLength(m)` |
| Chunk.GridRoundTrip | src/lib.rs:82-86 | nested round trip: a grid of rows of width X, written as Y sequences of X ids and read back, is unchanged |
| Chunk.EncodeGrid | src/lib.rs:82-86 | a grid is written as Y sequences, sequence i being exactly the ids of row i |
| Chunk.Examples | src/lib.rs:15-48 | the 2-by-3 grid filled with 7 is written as [[7,7],[7,7],[7,7]] and read back unchanged; a 4-slot array read from 3 ids fails at slot 3 |
| Chunk.Scenario | src/lib.rs:51-91 | through the classes: `ChunkData::<2, 3>::new(7)` serializes to [[7,7],[7,7],[7,7]], deserializing that gives the same rows, and a 4-id row read from [1, 2, 3] fails with `InvalidLength(3)` |
| Chunk.ChunkDataRow.New | src/lib.rs:58-60 | all N cells of `new(block)` are `block` |
| Chunk.ChunkDataRow.Default | src/lib.rs:63-67 | all N cells of the default row are 0 |
| Chunk.ChunkDataRow.Wrap | src/lib.rs:52-55 | the tuple-struct constructor holds exactly the given ids |
| Chunk.ChunkDataRow.Index | src/lib.rs:69-74 | reading cell i gives the id stored in slot i; an index past N (a panic) is excluded by the precondition |
| Chunk.ChunkDataRow.IndexMut | src/lib.rs:76-80 | an in-range write sets cell i and leaves every other cell and the length unchanged |
| Chunk.ChunkDataRow.Serialize | src/lib.rs:51-55 | a row is always written successfully, as its N ids in order |
| Chunk.ChunkDataRow.Deserialize | src/lib.rs:51-55 | succeeds iff at least N ids are given, holding the first N; otherwise fails with `InvalidLength` at the input's length |
| Chunk.ChunkData.New | src/lib.rs:89-91 | Y rows, each of X cells equal to `block` |
| Chunk.ChunkData.Default | src/lib.rs:94-98 | Y rows, each of X cells equal to 0 |
| Chunk.ChunkData.Wrap | src/lib.rs:83-86 | the tuple-struct constructor holds exactly the given rows, all of width X |
| Chunk.ChunkData.Index | src/lib.rs:100-105 | reading row r gives the row stored in slot r, which has X ids when the grid is well-shaped; an index past Y (a panic) is excluded by the precondition |
| Chunk.ChunkData.IndexMut | src/lib.rs:107-111 | replacing row r keeps the shape, sets row r and leaves every other row unchanged |
| Chunk.ChunkData.IndexMutCell | src/lib.rs:107-111 | a write through the grid's and the row's `IndexMut` changes exactly one cell and keeps the shape |
| Chunk.ChunkData.Serialize | src/lib.rs:82-86 | a grid is always written successfully, as Y sequences of X ids equal to its rows |
| Chunk.ChunkData.Deserialize | src/lib.rs:82-86 | succeeds iff Y rows of at least X ids are given, with row i the first X ids of input row i; otherwise the nested reading's error |
| Coordinates.TruncDiv | src/lib.rs:150-155 | the quotient rounds toward zero: its magnitude is the number of whole divisors in the dividend, and a nonzero quotient is negative exactly when the signs differ |
| Coordinates.TruncRem | src/lib.rs:164-168 | the remainder is smaller than the divisor in magnitude and is zero or has the dividend's sign |
| Coordinates.TruncDivRem | src/lib.rs:164-168 | a == TruncDiv(a, b) * b + TruncRem(a, b) for every nonzero b |
| Coordinates.TruncatedQuotientUnique | src/lib.rs:150-155 | the rounding-toward-zero description fixes the quotient uniquely |
| Coordinates.TruncAgreesWithEuclidean | src/lib.rs:150-155 | for a >= 0 and b > 0, truncating and Euclidean division agree |
| Coordinates.TruncDiffersFromEuclidean | src/lib.rs:150-155 | -7 / 2 truncates to -3 with remainder -1, where Euclidean division gives -4 and 1 |
| Coordinates.Div | src/lib.rs:150-155 | each component is the truncated quotient of the matching components; both divisor components must be nonzero |
| Coordinates.DivScalar | src/lib.rs:157-162 | dividing by a nonzero scalar s is dividing by the coordinate (s, s) |
| Coordinates.Rem | src/lib.rs:164-168 | each component is below the divisor's in magnitude and has the dividend's sign or is zero |
| Coordinates.Add | src/lib.rs:136-141 | each component of the sum is the sum of the matching components |
| Coordinates.Mul | src/lib.rs:143-148 | each component of the product is the product of the matching components |
| Coordinates.AddCommutative | src/lib.rs:136-141 | componentwise addition is commutative |
| Coordinates.AddAssociative | src/lib.rs:136-141 | componentwise addition is associative |
| Coordinates.DivCancelsMul | src/lib.rs:143-155 | (a * b) / b == a for every b with nonzero components |
| Coordinates.DivRemIdentity | src/lib.rs:136-168 | (a / b) * b + a % b == a in each component |
| Coordinates.DivRemExamples | src/lib.rs:150-168 | (6, 9) / (3, 3) == (2, 3) and (6, 9) % (4, 4) == (2, 1) |

## Left out

- The serialization framework's traits (`Serializer`, `Deserializer`, `SeqAccess`, `Visitor`), the derive macros and wire formats: only their element-sequence contract is modelled, as described above.
- `ArrayVisitor::expecting` and the `&self` argument of `invalid_length`: the message text is formatting; the error keeps only the index.
- Whether a tuple longer than N is an error (src/lib.rs:47): the format backend decides, and it is not part of this model. The visitor stops after N elements, and `DecodeReadsPrefix` shows that the extra elements do not matter.
- ArrayCodec.Serialize: failures of `serialize_tuple(N)` and `end()` (src/lib.rs:16, 20) come from the format backend and are not modelled; failures of `serialize_element` are, through `enc`.
- Block ids that fail to be written or read in some format, for example a value of the wrong type: `BlockEnc` and `BlockDec` never fail. Element errors of any kind are modelled generically through `enc`, `dec` and `Custom`, and `EncodeBadElement` and `DecodeBadElement` show each is passed on unchanged. The grid passes on its rows' errors.
- `fmt::Display` for `Coord` (src/lib.rs:130-134): integer formatting is outside the model.
- `isize` and `usize` widths: coordinates and block ids are unbounded integers. Overflow is not modelled. This includes the panic of `isize::MIN / -1` and `isize::MIN % -1`.
- Const generic dimensions: N, X and Y become values fixed when an object is built (the array lengths and `width`). They are not type parameters.
- `ChunkData::index_mut` hands out a `&mut ChunkDataRow<X>`. The model covers the two uses of that reference: replacing the row (`IndexMut`) and writing one of its cells (`IndexMutCell`). Rows inside a grid are values (`seq`), not `ChunkDataRow` objects.
- The derived `Clone`, `Copy`, `PartialEq` and `Debug`: Dafny's value equality on sequences stands for `PartialEq`.
- The unused imports at src/lib.rs:1-3 carry no behaviour.
