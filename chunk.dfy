/** Chunk grids of block ids: `ChunkDataRow<N>`, a row of N ids, and
    `ChunkData<X, Y>`, Y rows of X ids each. Both serialize through the
    fixed-length array codec; the grid nests it one level. */
module Chunk {
  import opened ArrayCodec

  /** `BlockID` is a `usize`; its upper bound is not modelled. */
  type BlockID = nat

  /** A block id is written as itself; writing an id never fails ... */
  function BlockEnc(b: BlockID): Result<BlockID>
  {
    Ok(b)
  }

  /** ... and read back as itself; reading an id never fails. */
  function BlockDec(v: BlockID): Result<BlockID>
  {
    Ok(v)
  }

  /** Serializing a row value: its array of ids through the codec. */
  function RowEnc(row: seq<BlockID>): Result<seq<BlockID>>
  {
    Encode(row, BlockEnc)
  }

  /** Deserializing a row value of width x: the codec's reading of x ids. */
  function RowDecoder(x: nat): seq<BlockID> -> Result<seq<BlockID>>
  {
    v => Decode(x, v, BlockDec)
  }

  /** The array repeat expression `[v; n]`. */
  function Repeat<T>(n: nat, v: T): (r: seq<T>)
    ensures |r| == n
    ensures forall i :: 0 <= i < n ==> r[i] == v
  {
    if n == 0 then [] else [v] + Repeat(n - 1, v)
  }

  // ---------------------------------------------------------------------
  // The codec at block ids and at rows
  // ---------------------------------------------------------------------

  /** A row is written as exactly its ids, in order. */
  lemma {:induction false} EncodeBlocks(s: seq<BlockID>)
    ensures Encode(s, BlockEnc) == Ok(s)
  {
    if s != [] {
      EncodeBlocks(s[1..]);
      assert s == [s[0]] + s[1..];
    }
  }

  /** Reading n ids: the first n of them when there are enough, otherwise a
      length error at the first missing slot. */
  lemma DecodeBlocks(n: nat, input: seq<BlockID>)
    ensures Decode(n, input, BlockDec)
         == if n <= |input| then Ok(input[..n]) else Err(InvalidLength(|input|))
  {
    if n <= |input| {
      DecodeSucceeds(n, input, BlockDec);
      var s := Decode(n, input, BlockDec).value;
      assert forall j :: 0 <= j < n ==> BlockDec(input[j]) == Ok(s[j]);
      assert s == input[..n];
    } else {
      DecodeShort(n, input, BlockDec);
    }
  }

  /** Reading a grid of y rows of width x: it succeeds exactly when there
      are y rows each holding at least x ids, and row i is then the first x
      ids of input row i. */
  lemma DecodeGridOk(x: nat, y: nat, input: seq<seq<BlockID>>)
    ensures Decode(y, input, RowDecoder(x)).Ok?
        <==> (y <= |input| && forall i :: 0 <= i < y ==> x <= |input[i]|)
    ensures Decode(y, input, RowDecoder(x)).Ok? ==>
              |Decode(y, input, RowDecoder(x)).value| == y
              && forall i :: 0 <= i < y ==> Decode(y, input, RowDecoder(x)).value[i] == input[i][..x]
  {
    var dec := RowDecoder(x);
    forall i | 0 <= i < |input|
      ensures dec(input[i]) == if x <= |input[i]| then Ok(input[i][..x]) else Err(InvalidLength(|input[i]|))
    {
      DecodeBlocks(x, input[i]);
    }
    DecodeSucceeds(y, input, dec);
  }

  /** Too few rows, all of them long enough: a length error at the first
      missing row. */
  lemma DecodeGridShort(x: nat, y: nat, input: seq<seq<BlockID>>)
    requires |input| < y
    requires forall i :: 0 <= i < |input| ==> x <= |input[i]|
    ensures Decode(y, input, RowDecoder(x)) == Err(InvalidLength(|input|))
  {
    var dec := RowDecoder(x);
    forall i | 0 <= i < |input|
      ensures dec(input[i]).Ok?
    {
      DecodeBlocks(x, input[i]);
    }
    DecodeShort(y, input, dec);
  }

  /** A row shorter than x fails the whole grid with that row's own length
      error, raised inside the nested row visitor. */
  lemma DecodeGridShortRow(x: nat, y: nat, k: nat, input: seq<seq<BlockID>>)
    requires k < y && k < |input|
    requires forall i :: 0 <= i < k ==> x <= |input[i]|
    requires |input[k]| < x
    ensures Decode(y, input, RowDecoder(x)) == Err(InvalidLength(|input[k]|))
  {
    var dec := RowDecoder(x);
    forall i | 0 <= i <= k
      ensures dec(input[i]) == if x <= |input[i]| then Ok(input[i][..x]) else Err(InvalidLength(|input[i]|))
    {
      DecodeBlocks(x, input[i]);
    }
    DecodeBadElement(y, k, input, dec);
  }

  /** Round trip one level nested: a grid of rows of width x, written out
      and read back, is the same grid. */
  lemma GridRoundTrip(x: nat, grid: seq<seq<BlockID>>, extra: seq<seq<BlockID>>)
    requires forall i :: 0 <= i < |grid| ==> |grid[i]| == x
    ensures Encode(grid, RowEnc).Ok?
    ensures Decode(|grid|, Encode(grid, RowEnc).value + extra, RowDecoder(x)) == Ok(grid)
  {
    forall i | 0 <= i < |grid|
      ensures RowEnc(grid[i]).Ok? && RowDecoder(x)(RowEnc(grid[i]).value) == Ok(grid[i])
    {
      EncodeBlocks(grid[i]);
      DecodeBlocks(x, grid[i]);
      assert grid[i][..x] == grid[i];
    }
    RoundTrip(grid, extra, RowEnc, RowDecoder(x));
  }

  /** A chunk grid is written as its rows, each as its ids. */
  lemma EncodeGrid(grid: seq<seq<BlockID>>)
    ensures Encode(grid, RowEnc) == Ok(grid)
  {
    forall i | 0 <= i < |grid|
      ensures RowEnc(grid[i]) == Ok(grid[i])
    {
      EncodeBlocks(grid[i]);
    }
    EncodeSucceeds(grid, RowEnc);
    assert Encode(grid, RowEnc).value == grid;
  }

  /** The worked examples: a 2-by-3 grid filled with 7 is written as
      [[7, 7], [7, 7], [7, 7]] and read back unchanged; reading a 4-slot
      array from 3 ids reports the missing slot 3. */
  lemma Examples()
    ensures Encode(Repeat(3, Repeat(2, 7)), RowEnc) == Ok([[7, 7], [7, 7], [7, 7]])
    ensures Decode(3, [[7, 7], [7, 7], [7, 7]], RowDecoder(2)) == Ok(Repeat(3, Repeat(2, 7)))
    ensures Decode<BlockID, BlockID>(4, [1, 2, 3], BlockDec) == Err(InvalidLength(3))
  {
    var row: seq<BlockID> := Repeat(2, 7);
    assert row == [7, 7];
    var grid := Repeat(3, row);
    assert grid == [[7, 7], [7, 7], [7, 7]];
    EncodeGrid(grid);
    GridRoundTrip(2, grid, []);
    assert Encode(grid, RowEnc).value + [] == grid;
    DecodeBlocks(4, [1, 2, 3]);
  }

  /** The worked examples through the types themselves: the grid
      `ChunkData::<2, 3>::new(7)` serializes to [[7, 7], [7, 7], [7, 7]],
      deserializing that gives a grid with the same rows, and a
      `ChunkDataRow<4>` cannot be read from the 3 ids [1, 2, 3]. */
  method Scenario() returns (wire: Result<seq<seq<BlockID>>>, back: Result<ChunkData>, short: Result<ChunkDataRow>)
    ensures wire == Ok([[7, 7], [7, 7], [7, 7]])
    ensures back.Ok? && back.value.width == 2 && back.value.rows[..] == [[7, 7], [7, 7], [7, 7]]
    ensures short == Err(InvalidLength(3))
  {
    var grid := new ChunkData.New(2, 3, 7);
    var row: seq<BlockID> := Repeat(2, 7);
    assert row == [7, 7];
    assert grid.rows[..] == [[7, 7], [7, 7], [7, 7]];
    wire := grid.Serialize();
    back := ChunkData.Deserialize(2, 3, wire.value);
    assert back.value.rows[..] == [[7, 7], [7, 7], [7, 7]] by {
      forall i | 0 <= i < 3
        ensures back.value.rows[i] == [7, 7]
      {
        assert wire.value[i] == [7, 7];
        assert wire.value[i][..2] == [7, 7];
      }
    }
    short := ChunkDataRow.Deserialize(4, [1, 2, 3]);
  }

  // ---------------------------------------------------------------------
  // ChunkDataRow<N>
  // ---------------------------------------------------------------------

  class ChunkDataRow {
    /** The wrapped `[BlockID; N]`; N is `cells.Length`. */
    const cells: array<BlockID>

    /** `ChunkDataRow::new(block)`: every one of the n cells is `block`. */
    constructor New(n: nat, block: BlockID)
      ensures fresh(cells)
      ensures cells[..] == Repeat(n, block)
    {
      cells := new BlockID[n](_ => block);
    }

    /** `Default`: every one of the n cells is 0. */
    constructor Default(n: nat)
      ensures fresh(cells)
      ensures cells[..] == Repeat(n, 0)
    {
      cells := new BlockID[n](_ => 0);
    }

    /** The tuple-struct constructor `ChunkDataRow(arr)`. */
    constructor Wrap(arr: seq<BlockID>)
      ensures fresh(cells)
      ensures cells[..] == arr
    {
      cells := new BlockID[|arr|](i requires 0 <= i < |arr| => arr[i]);
    }

    /** `Index`: the id in cell i; an index past N panics. */
    function Index(i: nat): (b: BlockID)
      requires i < cells.Length
      reads cells
      ensures b == cells[..][i]
    {
      cells[i]
    }

    /** `IndexMut`: writing cell i changes that cell and no other. */
    method IndexMut(i: nat, block: BlockID)
      requires i < cells.Length
      modifies cells
      ensures Index(i) == block
      ensures forall j :: 0 <= j < cells.Length && j != i ==> Index(j) == old(Index(j))
    {
      cells[i] := block;
    }

    /** Serialization: the tuple of the N ids, in order. */
    method Serialize() returns (out: Result<seq<BlockID>>)
      ensures out == RowEnc(cells[..])
      ensures out == Ok(cells[..])
    {
      out := ArrayCodec.Serialize(cells[..], BlockEnc);
      EncodeBlocks(cells[..]);
    }

    /** Deserialization of a row of n ids: the first n input ids, or a
        length error at the first missing slot. */
    static method Deserialize(n: nat, input: seq<BlockID>) returns (r: Result<ChunkDataRow>)
      ensures r.Ok? <==> n <= |input|
      ensures r.Ok? ==> fresh(r.value.cells) && r.value.cells[..] == input[..n]
      ensures r.Err? ==> r.error == InvalidLength(|input|)
    {
      var arr, _ := VisitSeq(n, 0, input, BlockDec);
      DecodeBlocks(n, input);
      if arr.Ok? {
        var row := new ChunkDataRow.Wrap(arr.value);
        r := Ok(row);
      } else {
        r := Err(arr.error);
      }
    }
  }

  // ---------------------------------------------------------------------
  // ChunkData<X, Y>
  // ---------------------------------------------------------------------

  class ChunkData {
    /** X, the width of every row. */
    const width: nat
    /** The wrapped `[ChunkDataRow<X>; Y]`, each row value as its ids;
        Y is `rows.Length`. */
    const rows: array<seq<BlockID>>

    /** The shape fixed by the type: every row has exactly X ids. */
    ghost predicate Valid()
      reads rows
    {
      forall r :: 0 <= r < rows.Length ==> |rows[r]| == width
    }

    /** `ChunkData::new(block)`: Y copies of `ChunkDataRow::new(block)`. */
    constructor New(x: nat, y: nat, block: BlockID)
      ensures Valid() && fresh(rows)
      ensures width == x && rows[..] == Repeat(y, Repeat(x, block))
    {
      width := x;
      rows := new seq<BlockID>[y](_ => Repeat(x, block));
    }

    /** `Default`: Y copies of the all-zero row. */
    constructor Default(x: nat, y: nat)
      ensures Valid() && fresh(rows)
      ensures width == x && rows[..] == Repeat(y, Repeat<BlockID>(x, 0))
    {
      width := x;
      rows := new seq<BlockID>[y](_ => Repeat<BlockID>(x, 0));
    }

    /** The tuple-struct constructor `ChunkData(arr)`. */
    constructor Wrap(x: nat, arr: seq<seq<BlockID>>)
      requires forall i :: 0 <= i < |arr| ==> |arr[i]| == x
      ensures Valid() && fresh(rows)
      ensures width == x && rows[..] == arr
    {
      width := x;
      rows := new seq<BlockID>[|arr|](i requires 0 <= i < |arr| => arr[i]);
    }

    /** `Index`: row r; an index past Y panics. */
    function Index(r: nat): (row: seq<BlockID>)
      requires r < rows.Length
      reads rows
      ensures row == rows[..][r]
      ensures Valid() ==> |row| == width
    {
      rows[r]
    }

    /** `IndexMut` used to replace row r (`grid[r] = row`): that row becomes
        `row`, every other row and the shape stay as they were. */
    method IndexMut(r: nat, row: seq<BlockID>)
      requires Valid() && r < rows.Length && |row| == width
      modifies rows
      ensures Valid()
      ensures Index(r) == row
      ensures forall j :: 0 <= j < rows.Length && j != r ==> Index(j) == old(Index(j))
    {
      rows[r] := row;
    }

    /** `IndexMut` on the grid followed by `IndexMut` on the row
        (`grid[r][c] = block`): one cell changes, nothing else. */
    method IndexMutCell(r: nat, c: nat, block: BlockID)
      requires Valid() && r < rows.Length && c < width
      modifies rows
      ensures Valid()
      ensures Index(r) == old(Index(r))[c := block]
      ensures forall j :: 0 <= j < rows.Length && j != r ==> Index(j) == old(Index(j))
    {
      rows[r] := rows[r][c := block];
    }

    /** Serialization: a tuple of Y rows, each a tuple of its X ids. */
    method Serialize() returns (out: Result<seq<seq<BlockID>>>)
      requires Valid()
      ensures out == Encode(rows[..], RowEnc)
      ensures out == Ok(rows[..])
    {
      out := ArrayCodec.Serialize(rows[..], RowEnc);
      EncodeGrid(rows[..]);
    }

    /** Deserialization of a grid of y rows of width x: the visitor over
        rows, each row read by the nested visitor over ids and the buffer
        pre-filled with `ChunkDataRow::default()`. */
    static method Deserialize(x: nat, y: nat, input: seq<seq<BlockID>>) returns (r: Result<ChunkData>)
      ensures r.Ok? <==> (y <= |input| && forall i :: 0 <= i < y ==> x <= |input[i]|)
      ensures r.Ok? ==>
                fresh(r.value.rows) && r.value.Valid() && r.value.width == x && r.value.rows.Length == y
                && forall i :: 0 <= i < y ==> r.value.rows[i] == input[i][..x]
      ensures r.Err? ==> Decode(y, input, RowDecoder(x)) == Err(r.error)
    {
      var grid, _ := VisitSeq(y, Repeat<BlockID>(x, 0), input, RowDecoder(x));
      DecodeGridOk(x, y, input);
      if grid.Ok? {
        var g := new ChunkData.Wrap(x, grid.value);
        r := Ok(g);
      } else {
        r := Err(grid.error);
      }
    }
  }
}
