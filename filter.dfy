/** The scanline filter of `PngEncoder::apply_filters`: every row of the RGBA
    image gets filter type 1 ("Sub", section 9.2 of the W3C PNG Specification,
    Second Edition), with 4 bytes per pixel: the first pixel of a row is
    copied and every later byte is replaced by its difference, modulo 256,
    from the same channel of the pixel to its left. */
module Filter {
  import opened Bytes

  const BYTES_PER_PIXEL := 4

  /** `FilterType::Sub as u8`. */
  const SUB: byte := 1

  /** One raw row after the Sub filter. */
  function SubRow(row: seq<byte>): (r: seq<byte>)
    ensures |r| == |row|
  {
    seq(|row|, x requires 0 <= x < |row| =>
      if x < BYTES_PER_PIXEL then row[x] else ((row[x] as int) - (row[x - BYTES_PER_PIXEL] as int)) % 256)
  }

  /** The product `a * b`, written as repeated addition so that the solver
      reaches the facts about row offsets through the lemmas below rather
      than through nonlinear arithmetic. */
  function Mul(a: nat, b: nat): nat
    decreases a
  {
    if a == 0 then 0 else Mul(a - 1, b) + b
  }

  lemma {:induction false} MulIsProduct(a: nat, b: nat)
    ensures Mul(a, b) == a * b
    decreases a
  {
    if a > 0 {
      MulIsProduct(a - 1, b);
    }
  }

  /** Row `y` of the raw image: bytes `y * stride .. (y + 1) * stride`. */
  function RawRow(raw: seq<byte>, stride: nat, y: nat): (row: seq<byte>)
    requires Mul(y + 1, stride) <= |raw|
    ensures |row| == stride
  {
    raw[Mul(y, stride) .. Mul(y, stride) + stride]
  }

  /** The filtered stream of the first `rows` rows: for each, the filter
      type byte and then the filtered row. */
  function FilterRows(raw: seq<byte>, stride: nat, rows: nat): seq<byte>
    requires Mul(rows, stride) <= |raw|
    decreases rows
  {
    if rows == 0 then []
    else FilterRows(raw, stride, rows - 1) + [SUB] + SubRow(RawRow(raw, stride, rows - 1))
  }

  /** The filtered stream has `rows * (stride + 1)` bytes. */
  lemma {:induction false} FilterRowsLength(raw: seq<byte>, stride: nat, rows: nat)
    requires Mul(rows, stride) <= |raw|
    ensures |FilterRows(raw, stride, rows)| == Mul(rows, stride + 1)
    decreases rows
  {
    if rows > 0 {
      FilterRowsLength(raw, stride, rows - 1);
    }
  }

  /** Row `y` of the filtered stream is the filter type followed by raw row
      `y` after the Sub filter: the rows never look at one another. */
  lemma {:induction false} FilterRowsRow(raw: seq<byte>, stride: nat, rows: nat, y: nat)
    requires Mul(rows, stride) <= |raw| && y < rows
    ensures Mul(y + 1, stride) <= |raw|
    ensures Mul(y + 1, stride + 1) <= |FilterRows(raw, stride, rows)|
    ensures FilterRows(raw, stride, rows)[Mul(y, stride + 1) .. Mul(y + 1, stride + 1)]
      == [SUB] + SubRow(RawRow(raw, stride, y))
    decreases rows
  {
    MulIsProduct(y + 1, stride);
    MulIsProduct(rows, stride);
    MulMonotone(y + 1, rows, stride);
    var f := FilterRows(raw, stride, rows);
    var prefix := FilterRows(raw, stride, rows - 1);
    var last := [SUB] + SubRow(RawRow(raw, stride, rows - 1));
    var i, j := Mul(y, stride + 1), Mul(y + 1, stride + 1);
    assert f == prefix + last;
    if y == rows - 1 {
      FilterRowsLength(raw, stride, rows - 1);
      SplitLast(prefix, SubRow(RawRow(raw, stride, y)));
      assert i == |prefix| && j == |prefix| + |last|;
    } else {
      FilterRowsRow(raw, stride, rows - 1, y);
      SliceOfPrefix(prefix, last, i, j);
    }
  }

  /** The parts of a stream that ends with one filtered row. */
  lemma SplitLast(prefix: seq<byte>, row: seq<byte>)
    ensures var f := prefix + ([SUB] + row);
      && f[..|prefix|] == prefix && f[|prefix|] == SUB && f[|prefix| + 1..] == row
      && f[|prefix|..|prefix| + 1 + |row|] == [SUB] + row
  {
  }

  /** The raw bytes of the first `rows` rows are those of the first
      `rows - 1` rows and then row `rows - 1`. */
  lemma RawPrefix(raw: seq<byte>, stride: nat, rows: nat)
    requires 0 < rows && Mul(rows, stride) <= |raw|
    ensures raw[..Mul(rows - 1, stride)] + RawRow(raw, stride, rows - 1) == raw[..Mul(rows, stride)]
  {
  }

  /** Undoing the Sub filter on one row, as a PNG decoder does: byte `x` is
      the filtered byte plus the already reconstructed byte 4 to its left. */
  function UnSub(f: seq<byte>): (r: seq<byte>)
    ensures |r| == |f|
    decreases |f|
  {
    if |f| == 0 then []
    else
      var prev := UnSub(f[..|f| - 1]);
      var x := |f| - 1;
      prev + [if x < BYTES_PER_PIXEL then f[x] else ((f[x] as int) + (prev[x - BYTES_PER_PIXEL] as int)) % 256]
  }

  lemma WrappingSubAdd(a: byte, b: byte)
    ensures (((a as int) - (b as int)) % 256 + b) % 256 == a
  {
  }

  /** Reconstruction undoes the Sub filter on every row. */
  lemma {:induction false} UnSubSubRow(row: seq<byte>)
    ensures UnSub(SubRow(row)) == row
    decreases |row|
  {
    if |row| > 0 {
      var n := |row| - 1;
      assert SubRow(row)[..n] == SubRow(row[..n]);
      UnSubSubRow(row[..n]);
      if n >= BYTES_PER_PIXEL {
        WrappingSubAdd(row[n], row[n - BYTES_PER_PIXEL]);
      }
      assert row[..n] + [row[n]] == row;
    }
  }

  /** Reading a filtered stream of `rows` rows back: every row must carry
      the Sub filter type, and is then reconstructed. */
  function UnfilterRows(f: seq<byte>, stride: nat, rows: nat): Option<seq<byte>>
    requires |f| == Mul(rows, stride + 1)
    decreases rows
  {
    if rows == 0 then Some([])
    else
      var start := Mul(rows - 1, stride + 1);
      match UnfilterRows(f[..start], stride, rows - 1)
      case None => None
      case Some(prev) =>
        if f[start] != SUB then None else Some(prev + UnSub(f[start + 1 ..]))
  }

  /** One step of `UnfilterRows`: the last row after the rows before it. */
  lemma UnfilterRowsStep(f: seq<byte>, stride: nat, rows: nat, prev: seq<byte>)
    requires 0 < rows && |f| == Mul(rows, stride + 1)
    requires UnfilterRows(f[..Mul(rows - 1, stride + 1)], stride, rows - 1) == Some(prev)
    requires f[Mul(rows - 1, stride + 1)] == SUB
    ensures UnfilterRows(f, stride, rows) == Some(prev + UnSub(f[Mul(rows - 1, stride + 1) + 1..]))
  {
  }

  /** Reading back the filtered stream gives the raw image. */
  lemma {:induction false} UnfilterFilterRows(raw: seq<byte>, stride: nat, rows: nat)
    requires Mul(rows, stride) <= |raw|
    ensures |FilterRows(raw, stride, rows)| == Mul(rows, stride + 1)
    ensures UnfilterRows(FilterRows(raw, stride, rows), stride, rows) == Some(raw[..Mul(rows, stride)])
    decreases rows
  {
    FilterRowsLength(raw, stride, rows);
    if rows > 0 {
      FilterRowsLength(raw, stride, rows - 1);
      var prefix := FilterRows(raw, stride, rows - 1);
      var row := RawRow(raw, stride, rows - 1);
      var f := FilterRows(raw, stride, rows);
      assert f == prefix + ([SUB] + SubRow(row));
      SplitLast(prefix, SubRow(row));
      UnfilterFilterRows(raw, stride, rows - 1);
      UnSubSubRow(row);
      RawPrefix(raw, stride, rows);
      UnfilterRowsStep(f, stride, rows, raw[..Mul(rows - 1, stride)]);
    }
  }

  /** The first `x + 1` filtered bytes of a row: the first `x`, then byte `x`. */
  lemma SubRowPrefix(row: seq<byte>, x: nat)
    requires x < |row|
    ensures SubRow(row)[..x + 1] == SubRow(row)[..x] + [SubRow(row)[x]]
    ensures SubRow(row)[x] == if x < BYTES_PER_PIXEL then row[x] else ((row[x] as int) - (row[x - BYTES_PER_PIXEL] as int)) % 256
  {
  }

  /** `PngEncoder::apply_filters` on the raw RGBA bytes of a `width` by
      `height` image, which hold `height * (width * 4)` bytes. */
  method ApplyFilters(width: u32, height: u32, raw: seq<byte>) returns (filteredData: seq<byte>)
    requires |raw| == Mul(height, width * BYTES_PER_PIXEL)
    ensures filteredData == FilterRows(raw, width * BYTES_PER_PIXEL, height)
  {
    var stride := width * BYTES_PER_PIXEL;
    filteredData := [];
    for y := 0 to height
      invariant Mul(y, stride) <= |raw|
      invariant filteredData == FilterRows(raw, stride, y)
    {
      filteredData := filteredData + [SUB];
      ghost var before := filteredData;
      var rowStart := Mul(y, stride);
      var rowEnd := rowStart + stride;
      MulIsProduct(y + 1, stride);
      MulIsProduct(height, stride);
      MulMonotone(y + 1, height, stride);
      var row := raw[rowStart..rowEnd];
      for x := 0 to stride
        invariant filteredData == before + SubRow(row)[..x]
      {
        if x < BYTES_PER_PIXEL {
          filteredData := filteredData + [row[x]];
        } else {
          filteredData := filteredData + [((row[x] as int) - (row[x - BYTES_PER_PIXEL] as int)) % 256];
        }
        SubRowPrefix(row, x);
        AppendAssoc(before, SubRow(row)[..x], [SubRow(row)[x]]);
      }
      assert row == RawRow(raw, stride, y);
      assert SubRow(row)[..stride] == SubRow(row);
    }
  }
}
