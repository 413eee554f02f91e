/** What the Modified Huffman decoding loop of a TIFF strip puts into its output buffer.

    The loop reads runs (a colour and a length) one after another. Each run
    becomes that many pixel bits at the current bit offset; whenever the number
    of pixels written is a multiple of the image width the offset is padded with
    zero bits up to the next byte boundary, so that rows start on whole bytes
    (TIFF 6.0 section 10, "Modified Huffman Compression").

    The layout of the output (which bit position holds which run's pixel, and
    which holds padding) does not depend on the photometric interpretation; the
    interpretation only chooses the bit value written for each colour. So the
    specification is split accordingly: `Decode` computes the layout as a
    sequence of cells, `Image` turns it into bits. */
module ModifiedHuffmanLayout {
  import opened DivMod

  /** The photometric interpretations a TIFF image may declare (tag 262). */
  datatype PhotometricInterpretation =
    | WhiteIsZero | BlackIsZero | Rgb | PaletteColor | TransparencyMask
    | Separated | YCbCr | CieLab

  /** One run as the T.4 bit reader delivers it. */
  datatype Run = Run(isWhite: bool, length: nat)

  /** What one bit position of the output holds: a pixel of a run, or row padding. */
  datatype Cell = Pixel(isWhite: bool) | Pad

  /** The decoder's progress: the cells emitted so far (their number is the bit
      offset `bitsWritten`) and the number of pixels written (`pixelsWritten`). */
  datatype Progress = Progress(cells: seq<Cell>, pixels: nat)

  /** The state before the first run: nothing written. */
  const Start := Progress([], 0)

  /** The bit written for a pixel of the given colour; true stands for a 1 bit.
      White is 0 exactly under WhiteIsZero, black is the other value. */
  function PixelValue(p: PhotometricInterpretation, isWhite: bool): bool
  {
    var isWhiteZero := p == WhiteIsZero;
    var whiteValue := !isWhiteZero;
    var blackValue := isWhiteZero;
    if isWhite then whiteValue else blackValue
  }

  lemma ColourMapping(p: PhotometricInterpretation)
    ensures !PixelValue(p, true) <==> p == WhiteIsZero
    ensures PixelValue(p, false) == !PixelValue(p, true)
  {
  }

  /** The bit stored at a cell: padding is always a zero bit. */
  function CellBit(c: Cell, p: PhotometricInterpretation): bool
  {
    match c
    case Pixel(isWhite) => PixelValue(p, isWhite)
    case Pad => false
  }

  /** The number of zero bits that take `bitsWritten` to the next byte boundary. */
  function PadLength(bitsWritten: nat): (pad: nat)
    ensures pad < 8
    ensures (bitsWritten + pad) % 8 == 0
    ensures bitsWritten % 8 == 0 <==> pad == 0
  {
    var pad := 8 - bitsWritten % 8;
    if pad != 8 then pad else 0
  }

  function Repeat(c: Cell, n: nat): (r: seq<Cell>)
    ensures |r| == n
    ensures forall i :: 0 <= i < n ==> r[i] == c
  {
    seq(n, _ => c)
  }

  /** The run write of one loop turn: a non-empty run adds its pixels after the
      old cells and to the pixel count; an empty run changes nothing. */
  function AfterRun(s: Progress, r: Run): (t: Progress)
    ensures t.pixels == s.pixels + r.length && |t.cells| == |s.cells| + r.length
    ensures forall i :: 0 <= i < |s.cells| ==> t.cells[i] == s.cells[i]
    ensures forall i :: |s.cells| <= i < |t.cells| ==> t.cells[i] == Pixel(r.isWhite)
  {
    if r.length > 0 then Progress(s.cells + Repeat(Pixel(r.isWhite), r.length), s.pixels + r.length)
    else s
  }

  /** The row-end check of one loop turn: when the pixel count is a multiple of
      the width, padding up to the next byte boundary; otherwise nothing. The
      pixel count is unchanged and at most 7 cells are added. */
  function AfterRowEnd(s: Progress, width: int): (t: Progress)
    requires width > 0
    ensures t.pixels == s.pixels && |s.cells| <= |t.cells| < |s.cells| + 8
    ensures forall i :: 0 <= i < |s.cells| ==> t.cells[i] == s.cells[i]
    ensures forall i :: |s.cells| <= i < |t.cells| ==> t.cells[i] == Pad
  {
    if s.pixels % width == 0 then Progress(s.cells + Repeat(Pad, PadLength(|s.cells|)), s.pixels)
    else s
  }

  /** Padding happens exactly at a multiple of the width and leaves the output
      byte-aligned. */
  lemma RowEndPadding(s: Progress, width: int)
    requires width > 0
    ensures s.pixels % width == 0 ==> |AfterRowEnd(s, width).cells| == |s.cells| + PadLength(|s.cells|)
    ensures s.pixels % width == 0 ==> |AfterRowEnd(s, width).cells| % 8 == 0
    ensures s.pixels % width != 0 ==> AfterRowEnd(s, width) == s
  {
  }

  /** One turn of the decoding loop: write the run, then pad at a row end. */
  function Step(s: Progress, r: Run, width: int): (t: Progress)
    requires width > 0
    ensures t.pixels == s.pixels + r.length
    ensures |s.cells| + r.length <= |t.cells| < |s.cells| + r.length + 8
    ensures forall i :: 0 <= i < |s.cells| ==> t.cells[i] == s.cells[i]
    ensures forall i :: |s.cells| <= i < |s.cells| + r.length ==> t.cells[i] == Pixel(r.isWhite)
    ensures forall i :: |s.cells| + r.length <= i < |t.cells| ==> t.cells[i] == Pad
  {
    AfterRowEnd(AfterRun(s, r), width)
  }

  /** The number of bits a step writes: the run, then the padding exactly when
      the pixel count lands on a multiple of the width. */
  lemma StepLength(s: Progress, r: Run, width: int)
    requires width > 0
    ensures |Step(s, r, width).cells| == |s.cells| + r.length
      + (if (s.pixels + r.length) % width == 0 then PadLength(|s.cells| + r.length) else 0)
  {
  }

  /** The loop run over `runs`, starting from `s`. */
  function Apply(s: Progress, runs: seq<Run>, width: int): (t: Progress)
    requires width > 0
    ensures t.pixels == s.pixels + TotalLength(runs)
    decreases |runs|
  {
    if runs == [] then s
    else Step(Apply(s, runs[..|runs| - 1], width), runs[|runs| - 1], width)
  }

  /** The progress after decoding `runs` into a cleared buffer. */
  function Decode(runs: seq<Run>, width: int): (t: Progress)
    requires width > 0
    ensures t.pixels == TotalLength(runs)
  {
    Apply(Start, runs, width)
  }

  /** The whole output buffer of `size` bits: the cells' bits, then zero bits. */
  function Image(cells: seq<Cell>, p: PhotometricInterpretation, size: nat): (bits: seq<bool>)
    requires |cells| <= size
  {
    seq(size, j requires 0 <= j < size => if j < |cells| then CellBit(cells[j], p) else false)
  }

  // ---------------------------------------------------------------------------
  // Counting helpers

  function TotalLength(runs: seq<Run>): nat
  {
    if runs == [] then 0 else TotalLength(runs[..|runs| - 1]) + runs[|runs| - 1].length
  }

  /** The pixel cells of `runs`, back to back, with no padding. */
  function PixelCells(runs: seq<Run>): seq<Cell>
  {
    if runs == [] then []
    else PixelCells(runs[..|runs| - 1]) + Repeat(Pixel(runs[|runs| - 1].isWhite), runs[|runs| - 1].length)
  }

  function CountPads(cells: seq<Cell>): nat
  {
    if cells == [] then 0 else (if cells[0] == Pad then 1 else 0) + CountPads(cells[1..])
  }

  lemma {:induction false} PixelCellsLength(runs: seq<Run>)
    ensures |PixelCells(runs)| == TotalLength(runs)
  {
    if runs != [] {
      PixelCellsLength(runs[..|runs| - 1]);
    }
  }

  lemma {:induction false} CountPadsAppend(a: seq<Cell>, b: seq<Cell>)
    ensures CountPads(a + b) == CountPads(a) + CountPads(b)
  {
    if a == [] {
      assert a + b == b;
    } else {
      assert (a + b)[1..] == a[1..] + b;
      CountPadsAppend(a[1..], b);
    }
  }

  lemma {:induction false} CountPadsRepeat(c: Cell, n: nat)
    ensures CountPads(Repeat(c, n)) == if c == Pad then n else 0
  {
    if n > 0 {
      assert Repeat(c, n)[1..] == Repeat(c, n - 1);
      CountPadsRepeat(c, n - 1);
    }
  }

  // ---------------------------------------------------------------------------
  // Arithmetic helpers (division by the image width)

  /** Adding a multiple of `w` does not change the remainder modulo `w`. */
  lemma ModAddMultiple(a: nat, x: nat, w: int)
    requires w > 0 && a % w == 0
    ensures (a + x) % w == x % w
    ensures (a + x) / w == a / w + x / w
  {
    DivModUnique(a + x, w, a / w + x / w, x % w);
  }

  lemma MultipleMod(k: nat, w: int)
    requires w > 0
    ensures (k * w) % w == 0 && (k * w) / w == k
  {
    DivModUnique(k * w, w, k, 0);
  }

  /** Passing a new multiple of `w` raises the quotient by at least one. */
  lemma NextMultiple(a: nat, b: nat, w: int)
    requires w > 0 && a < b && b % w == 0
    ensures b / w >= a / w + 1
  {
    var qa, qb := a / w, b / w;
    assert a == w * qa + a % w;
    assert b == w * qb;
    if qb <= qa {
      MulMonotone(w, qb, qa);
    }
  }

  lemma DivMonotone(a: nat, b: nat, w: int)
    requires w > 0 && a <= b
    ensures a / w <= b / w
  {
    var qa, qb := a / w, b / w;
    assert a == w * qa + a % w;
    assert b == w * qb + b % w;
    if qb < qa {
      MulMonotone(w, qb + 1, qa);
    }
  }

  // ---------------------------------------------------------------------------
  // Properties of the decoding loop

  /** Running the loop over `a + b` is running it over `a`, then over `b`. */
  lemma {:induction false} ApplyConcat(s: Progress, a: seq<Run>, b: seq<Run>, width: int)
    requires width > 0
    ensures Apply(s, a + b, width) == Apply(Apply(s, a, width), b, width)
    decreases |b|
  {
    if b == [] {
      assert a + b == a;
    } else {
      var b' := b[..|b| - 1];
      assert (a + b)[..|a + b| - 1] == a + b';
      assert (a + b)[|a + b| - 1] == b[|b| - 1];
      ApplyConcat(s, a, b', width);
    }
  }

  /** Decoding one more run is one more step of the loop. */
  lemma DecodeNext(runs: seq<Run>, i: nat, width: int)
    requires width > 0 && i < |runs|
    ensures Decode(runs[..i + 1], width) == Step(Decode(runs[..i], width), runs[i], width)
  {
    assert runs[..i + 1][..i] == runs[..i];
  }

  /** The output only ever grows at its end: decoding a prefix of the runs gives a
      prefix of the cells and no more pixels. */
  lemma {:induction false} DecodePrefix(runs: seq<Run>, i: nat, width: int)
    requires width > 0 && i <= |runs|
    ensures Decode(runs[..i], width).cells <= Decode(runs, width).cells
    ensures Decode(runs[..i], width).pixels <= Decode(runs, width).pixels
    decreases |runs|
  {
    if i < |runs| {
      var init := runs[..|runs| - 1];
      assert init[..i] == runs[..i];
      DecodePrefix(init, i, width);
    } else {
      assert runs[..i] == runs;
    }
  }

  /** The invariant `DecodeInvariant` states, for one progress value. */
  ghost predicate Consistent(s: Progress, width: int)
    requires width > 0
  {
    |s.cells| == s.pixels + CountPads(s.cells) &&
    CountPads(s.cells) <= 7 * (s.pixels / width) &&
    (s.pixels % width == 0 ==> |s.cells| % 8 == 0)
  }

  /** At a row end the offset is already aligned, so an empty run is a no-op. */
  lemma StepEmptyRun(s: Progress, r: Run, width: int)
    requires width > 0 && r.length == 0 && Consistent(s, width)
    ensures Step(s, r, width) == s
  {
    assert s.cells + Repeat(Pad, 0) == s.cells;
  }

  lemma StepConsistent(s: Progress, r: Run, width: int)
    requires width > 0 && Consistent(s, width)
    ensures Consistent(Step(s, r, width), width)
  {
    if r.length == 0 {
      StepEmptyRun(s, r, width);
    } else {
      var t := Step(s, r, width);
      var pad := |t.cells| - |s.cells| - r.length;
      assert t.cells == s.cells + Repeat(Pixel(r.isWhite), r.length) + Repeat(Pad, pad);
      CountPadsAppend(s.cells + Repeat(Pixel(r.isWhite), r.length), Repeat(Pad, pad));
      CountPadsAppend(s.cells, Repeat(Pixel(r.isWhite), r.length));
      CountPadsRepeat(Pixel(r.isWhite), r.length);
      CountPadsRepeat(Pad, pad);
      assert CountPads(t.cells) == CountPads(s.cells) + pad;
      DivMonotone(s.pixels, t.pixels, width);
      if pad > 0 {
        NextMultiple(s.pixels, t.pixels, width);
      }
    }
  }

  /** What holds after any sequence of runs: pixels and pixel cells agree in
      number (so bitsWritten >= pixelsWritten, the difference being the padding),
      the padding is at most 7 bits per completed row, and at a row end the
      offset is byte aligned. */
  lemma {:induction false} DecodeInvariant(runs: seq<Run>, width: int)
    requires width > 0
    ensures var t := Decode(runs, width);
      |t.cells| == t.pixels + CountPads(t.cells) &&
      CountPads(t.cells) <= 7 * (t.pixels / width) &&
      (t.pixels % width == 0 ==> |t.cells| % 8 == 0)
  {
    if runs != [] {
      DecodeInvariant(runs[..|runs| - 1], width);
      StepConsistent(Decode(runs[..|runs| - 1], width), runs[|runs| - 1], width);
    }
  }

  /** A zero-length run writes nothing and leaves both counters unchanged. */
  lemma ZeroLengthRun(runs: seq<Run>, r: Run, width: int)
    requires width > 0 && r.length == 0
    ensures Decode(runs + [r], width) == Decode(runs, width)
  {
    assert (runs + [r])[..|runs|] == runs;
    DecodeInvariant(runs, width);
    StepEmptyRun(Decode(runs, width), r, width);
  }

  /** Under the two mappings of colours to bits, every pixel bit is
      complemented and every padding or untouched bit is zero in both. */
  lemma PhotometricInversion(runs: seq<Run>, width: int, size: nat, p: PhotometricInterpretation, j: nat)
    requires width > 0 && |Decode(runs, width).cells| <= size
    requires p != WhiteIsZero && j < size
    ensures var cells := Decode(runs, width).cells;
      var whiteZero := Image(cells, WhiteIsZero, size);
      var other := Image(cells, p, size);
      if j < |cells| && cells[j].Pixel? then whiteZero[j] == !other[j]
      else !whiteZero[j] && !other[j]
  {
  }

  // ---------------------------------------------------------------------------
  // Well-formed rows: row r starts at bit r * RowStride(width)

  /** The rows of an image, each a sequence of runs, one after another. */
  function Flatten(rows: seq<seq<Run>>): seq<Run>
  {
    if rows == [] then [] else Flatten(rows[..|rows| - 1]) + rows[|rows| - 1]
  }

  /** Bits per row when rows are padded to whole bytes: 8 * ceil(width / 8). */
  function RowStride(width: int): (stride: nat)
    requires width > 0
    ensures stride == 8 * ((width + 7) / 8)
    ensures width <= stride < width + 8
  {
    width + PadLength(width)
  }

  /** One row's cells: its pixels, then the padding to the byte boundary. */
  function RowCells(row: seq<Run>, width: int): seq<Cell>
    requires width > 0
  {
    PixelCells(row) + Repeat(Pad, PadLength(width))
  }

  function RowsImage(rows: seq<seq<Run>>, width: int): seq<Cell>
    requires width > 0
  {
    if rows == [] then [] else RowsImage(rows[..|rows| - 1], width) + RowCells(rows[|rows| - 1], width)
  }

  /** Within a row, the pixel count is a multiple of the width only at its ends. */
  lemma RowPosition(x: nat, w: int)
    requires w > 0 && x <= w
    ensures x % w == 0 <==> (x == 0 || x == w)
  {
    if x < w {
      DivModUnique(x, w, 0, x);
    } else {
      DivModUnique(x, w, 1, 0);
    }
  }

  lemma PadLengthShift(a: nat, b: nat)
    requires a % 8 == 0
    ensures PadLength(a + b) == PadLength(b)
  {
  }

  /** The padding after `filled` pixels of a row: none until the row is full. */
  function RowPad(filled: nat, width: int): seq<Cell>
    requires width > 0
  {
    if filled == width then Repeat(Pad, PadLength(width)) else []
  }

  /** One more run of a row that started at a row boundary: its pixels follow
      those before it, and the padding comes when the row is complete. */
  lemma RowStep(s: Progress, prev: seq<Cell>, p: nat, r: Run, width: int)
    requires width > 0 && s.pixels % width == 0 && |s.cells| % 8 == 0
    requires |prev| == p && p + r.length <= width
    ensures Step(Progress(s.cells + prev + RowPad(p, width), s.pixels + p), r, width)
            == Progress(s.cells + (prev + Repeat(Pixel(r.isWhite), r.length)) + RowPad(p + r.length, width),
                        s.pixels + p + r.length)
  {
    var q := p + r.length;
    ModAddMultiple(s.pixels, q, width);
    RowPosition(q, width);
    PadLengthShift(|s.cells|, width);
    var t := Progress(s.cells + prev + RowPad(p, width), s.pixels + p);
    var pixels := Repeat(Pixel(r.isWhite), r.length);
    if r.length == 0 {
      assert pixels == [];
      assert prev + pixels == prev;
      if p == 0 {
        assert t.cells == s.cells;
        assert Repeat(Pad, 0) == [];
        assert s.cells + prev + [] == s.cells;
      } else if p == width {
        assert |t.cells| % 8 == 0;
        assert Repeat(Pad, 0) == [];
      }
    } else {
      assert t.cells == s.cells + prev;
      assert s.cells + prev + pixels == s.cells + (prev + pixels);
    }
  }

  /** Runs that fill at most one row, started at a row boundary: their pixels
      follow the old cells, and the padding comes once the row is complete. */
  lemma {:induction false} RowLayout(s: Progress, runs: seq<Run>, width: int)
    requires width > 0 && TotalLength(runs) <= width
    requires s.pixels % width == 0 && |s.cells| % 8 == 0
    ensures Apply(s, runs, width) ==
      Progress(s.cells + PixelCells(runs) + RowPad(TotalLength(runs), width), s.pixels + TotalLength(runs))
    decreases |runs|
  {
    if runs == [] {
      assert s.cells + [] + RowPad(0, width) == s.cells;
    } else {
      var init := runs[..|runs| - 1];
      var r := runs[|runs| - 1];
      var p := TotalLength(init);
      var pixels := Repeat(Pixel(r.isWhite), r.length);
      assert TotalLength(runs) == p + r.length;
      assert PixelCells(runs) == PixelCells(init) + pixels;
      RowLayout(s, init, width);
      PixelCellsLength(init);
      RowStep(s, PixelCells(init), p, r, width);
      assert Apply(s, runs, width) == Step(Apply(s, init, width), r, width);
    }
  }

  /** A complete row appended at a row boundary adds its pixels and then its
      padding, RowStride(width) cells in all. */
  lemma AppendRow(s: Progress, row: seq<Run>, n: nat, width: int)
    requires width > 0 && TotalLength(row) == width
    requires s.pixels == n * width && |s.cells| % 8 == 0
    ensures Apply(s, row, width) == Progress(s.cells + RowCells(row, width), (n + 1) * width)
    ensures |RowCells(row, width)| == RowStride(width)
  {
    MultipleMod(n, width);
    RowLayout(s, row, width);
    PixelCellsLength(row);
    MulSucc(n, width);
  }

  /** Once a whole number of rows has been decoded, the output is byte-aligned. */
  lemma AlignedAtRowEnd(runs: seq<Run>, n: nat, width: int)
    requires width > 0 && Decode(runs, width).pixels == n * width
    ensures |Decode(runs, width).cells| % 8 == 0
  {
    MultipleMod(n, width);
    DecodeInvariant(runs, width);
  }

  /** Rows whose runs each sum exactly to the width are laid out one after the
      other, each padded to whole bytes. */
  lemma {:induction false} RowsDecode(rows: seq<seq<Run>>, width: int)
    requires width > 0
    requires forall r :: 0 <= r < |rows| ==> TotalLength(rows[r]) == width
    ensures Decode(Flatten(rows), width) == Progress(RowsImage(rows, width), |rows| * width)
  {
    if rows != [] {
      var init := rows[..|rows| - 1];
      var last := rows[|rows| - 1];
      var n := |init|;
      assert forall r :: 0 <= r < n ==> TotalLength(init[r]) == width by {
        assert forall r :: 0 <= r < n ==> init[r] == rows[r];
      }
      assert Flatten(rows) == Flatten(init) + last;
      assert RowsImage(rows, width) == RowsImage(init, width) + RowCells(last, width);
      RowsDecode(init, width);
      var s := Decode(Flatten(init), width);
      assert s == Progress(RowsImage(init, width), n * width);
      AlignedAtRowEnd(Flatten(init), n, width);
      ApplyConcat(Start, Flatten(init), last, width);
      assert Decode(Flatten(rows), width) == Apply(s, last, width);
      AppendRow(s, last, n, width);
    }
  }

  /** Each well-formed row takes RowStride(width) cells. */
  lemma {:induction false} RowsImageLength(rows: seq<seq<Run>>, width: int)
    requires width > 0
    requires forall r :: 0 <= r < |rows| ==> TotalLength(rows[r]) == width
    ensures |RowsImage(rows, width)| == |rows| * RowStride(width)
  {
    if rows != [] {
      var init := rows[..|rows| - 1];
      var last := rows[|rows| - 1];
      assert forall r :: 0 <= r < |init| ==> TotalLength(init[r]) == width by {
        assert forall r :: 0 <= r < |init| ==> init[r] == rows[r];
      }
      RowsImageLength(init, width);
      PixelCellsLength(last);
      MulSucc(|init|, RowStride(width));
    }
  }

  lemma MulSucc(n: nat, w: int)
    ensures (n + 1) * w == n * w + w
  {
  }

  lemma {:induction false} RowsImagePrefix(rows: seq<seq<Run>>, width: int, k: nat)
    requires width > 0 && k <= |rows|
    ensures RowsImage(rows[..k], width) <= RowsImage(rows, width)
    decreases |rows|
  {
    if k < |rows| {
      var init := rows[..|rows| - 1];
      assert init[..k] == rows[..k];
      RowsImagePrefix(init, width, k);
    } else {
      assert rows[..k] == rows;
    }
  }

  /** Row r of a well-formed image starts at bit r * RowStride(width), right
      after the rows before it, and holds its runs' pixels then its padding;
      later rows never change it. */
  lemma RowStart(rows: seq<seq<Run>>, width: int, r: nat)
    requires width > 0 && r < |rows|
    requires forall k :: 0 <= k < |rows| ==> TotalLength(rows[k]) == width
    ensures |Decode(Flatten(rows[..r]), width).cells| == r * RowStride(width)
    ensures Decode(Flatten(rows[..r + 1]), width).cells
            == Decode(Flatten(rows[..r]), width).cells + RowCells(rows[r], width)
    ensures Decode(Flatten(rows[..r + 1]), width).cells <= Decode(Flatten(rows), width).cells
  {
    var before, upto := rows[..r], rows[..r + 1];
    assert upto[..r] == before && upto[r] == rows[r];
    assert forall k :: 0 <= k < |upto| ==> TotalLength(upto[k]) == width by {
      assert forall k :: 0 <= k < |upto| ==> upto[k] == rows[k];
    }
    assert forall k :: 0 <= k < |before| ==> TotalLength(before[k]) == width by {
      assert forall k :: 0 <= k < |before| ==> before[k] == rows[k];
    }
    RowsImageLength(before, width);
    RowsDecode(before, width);
    RowsDecode(upto, width);
    RowsDecode(rows, width);
    assert RowsImage(upto, width) == RowsImage(before, width) + RowCells(rows[r], width);
    RowsImagePrefix(rows, width, r + 1);
  }

  /** Runs that step over a multiple of the width without landing on it get no
      padding; padding comes only at a later exact multiple. With width 5, runs
      of 3, 3 and 4 pixels give 10 pixel bits and then 6 padding bits, not a
      padded first row of 5. */
  lemma OvershootPadsOnlyAtExactMultiple()
    ensures Decode([Run(true, 3), Run(false, 3)], 5).cells
            == Repeat(Pixel(true), 3) + Repeat(Pixel(false), 3)
    ensures Decode([Run(true, 3), Run(false, 3), Run(true, 4)], 5).cells
            == Repeat(Pixel(true), 3) + Repeat(Pixel(false), 3) + Repeat(Pixel(true), 4) + Repeat(Pad, 6)
  {
    var a, b, c := Run(true, 3), Run(false, 3), Run(true, 4);
    assert [a, b, c][..2] == [a, b];
    assert [a, b][..1] == [a];
    assert [a][..0] == [];
    var s1 := Step(Start, a, 5);
    assert s1 == Progress(Repeat(Pixel(true), 3), 3);
    var s2 := Step(s1, b, 5);
    assert s2 == Progress(Repeat(Pixel(true), 3) + Repeat(Pixel(false), 3), 6);
    var s3 := Step(s2, c, 5);
    var pixels := Repeat(Pixel(true), 3) + Repeat(Pixel(false), 3) + Repeat(Pixel(true), 4);
    assert s3 == Progress(pixels + Repeat(Pad, PadLength(10)), 10);
    assert Apply(Start, [a][..0], 5) == Start;
    assert Decode([a], 5) == s1;
    assert Decode([a, b], 5) == s2;
  }

  // ---------------------------------------------------------------------------
  // The packed byte view of the bit buffer

  /** The value of one bit: 1 for a set bit, 0 for a clear one. */
  function BitValue(b: bool): (v: nat)
    ensures v <= 1
  {
    if b then 1 else 0
  }

  function Pow2(n: nat): (p: nat)
    ensures p >= 1
  {
    if n == 0 then 1 else 2 * Pow2(n - 1)
  }

  /** The bits of `s` read as a binary number, the first bit the most
      significant. */
  function Pack(s: seq<bool>): (v: nat)
    ensures v < Pow2(|s|)
  {
    if s == [] then 0 else 2 * Pack(s[..|s| - 1]) + BitValue(s[|s| - 1])
  }

  /** Byte k of the packed buffer. Bit 8k is its most significant bit (the TIFF
      default FillOrder 1). */
  function ByteAt(bits: seq<bool>, k: nat): (b: nat)
    requires 8 * k + 8 <= |bits|
    ensures b < 0x100
  {
    assert Pow2(8) == 0x100;
    Pack(bits[8 * k .. 8 * k + 8])
  }

  /** The mask 0x80 >> j selecting bit j of a byte, counted from the top. */
  function BitMask(j: nat): nat
    requires j < 8
  {
    Pow2(7 - j)
  }

  /** Appending a bit x below p does not change the quotient by a power of two. */
  lemma ShiftQuotient(p: nat, x: nat, q: nat)
    requires x <= 1 && q >= 1
    ensures (2 * p + x) / (2 * q) == p / q
  {
    var hi, lo := p / q, p % q;
    assert p == q * hi + lo;
    assert 2 * p + x == (2 * q) * hi + (2 * lo + x);
    DivModUnique(2 * p + x, 2 * q, hi, 2 * lo + x);
  }

  /** Bit j of `s`, counted from the top, is digit |s| - 1 - j of its value. */
  lemma {:induction false} PackDigit(s: seq<bool>, j: nat)
    requires j < |s|
    ensures (Pack(s) / Pow2(|s| - 1 - j)) % 2 == BitValue(s[j])
  {
    var init := s[..|s| - 1];
    var p, x := Pack(init), BitValue(s[|s| - 1]);
    assert Pack(s) == 2 * p + x;
    if j == |s| - 1 {
      DivModUnique(2 * p + x, 2, p, x);
    } else {
      PackDigit(init, j);
      var q := Pow2(|init| - 1 - j);
      assert Pow2(|s| - 1 - j) == 2 * q;
      ShiftQuotient(p, x, q);
      assert init[j] == s[j];
    }
  }

  /** Bit offset i lives in byte i / 8 under the mask 0x80 >> (i % 8). */
  lemma BitInByte(bits: seq<bool>, i: nat)
    requires i < |bits| && |bits| % 8 == 0
    ensures 8 * (i / 8) + 8 <= |bits|
    ensures (ByteAt(bits, i / 8) / BitMask(i % 8)) % 2 == BitValue(bits[i])
  {
    var k, j := i / 8, i % 8;
    assert i == 8 * k + j;
    DivModUnique(|bits|, 8, |bits| / 8, 0);
    assert k < |bits| / 8;
    var byte := bits[8 * k .. 8 * k + 8];
    PackDigit(byte, j);
    assert byte[j] == bits[i];
  }

  /** Appending a bit doubles the value and adds the bit. */
  lemma PackSnoc(s: seq<bool>, b: bool)
    ensures Pack(s + [b]) == 2 * Pack(s) + BitValue(b)
  {
    assert (s + [b])[..|s|] == s;
  }

  /** The value of eight bits, the first the most significant. */
  lemma PackByte(b0: bool, b1: bool, b2: bool, b3: bool, b4: bool, b5: bool, b6: bool, b7: bool)
    ensures Pack([b0, b1, b2, b3, b4, b5, b6, b7])
            == 0x80 * BitValue(b0) + 0x40 * BitValue(b1) + 0x20 * BitValue(b2) + 0x10 * BitValue(b3)
               + 0x08 * BitValue(b4) + 0x04 * BitValue(b5) + 0x02 * BitValue(b6) + BitValue(b7)
  {
    var s: seq<bool> := [];
    PackSnoc(s, b0); s := s + [b0];
    PackSnoc(s, b1); s := s + [b1];
    PackSnoc(s, b2); s := s + [b2];
    PackSnoc(s, b3); s := s + [b3];
    PackSnoc(s, b4); s := s + [b4];
    PackSnoc(s, b5); s := s + [b5];
    PackSnoc(s, b6); s := s + [b6];
    PackSnoc(s, b7); s := s + [b7];
    assert s == [b0, b1, b2, b3, b4, b5, b6, b7];
  }

  /** A row of width 8 made of a white run of 3 and a black run of 5 packs to
      the byte 0x1F under WhiteIsZero. */
  lemma WhiteThenBlackByte()
    ensures var cells := Decode([Run(true, 3), Run(false, 5)], 8).cells;
      |cells| == 8 && ByteAt(Image(cells, WhiteIsZero, 8), 0) == 0x1F
  {
    var a, b := Run(true, 3), Run(false, 5);
    assert [a, b][..1] == [a];
    assert [a][..0] == [];
    assert Apply(Start, [a][..0], 8) == Start;
    var s1 := Step(Start, a, 8);
    assert s1 == Progress(Repeat(Pixel(true), 3), 3);
    var cells := Repeat(Pixel(true), 3) + Repeat(Pixel(false), 5);
    assert Step(s1, b, 8) == Progress(cells + Repeat(Pad, 0), 8);
    assert Decode([a], 8) == s1;
    assert Decode([a, b], 8).cells == cells;
    var bits := Image(cells, WhiteIsZero, 8);
    assert bits == [false, false, false, true, true, true, true, true];
    assert bits[0 .. 8] == bits;
    PackByte(false, false, false, true, true, true, true, true);
  }

  /** An all-white row of width 8 packs to 0x00 under WhiteIsZero and to 0xFF
      under BlackIsZero. */
  lemma AllWhiteByte()
    ensures var cells := Decode([Run(true, 8)], 8).cells;
      |cells| == 8 && ByteAt(Image(cells, WhiteIsZero, 8), 0) == 0x00
      && ByteAt(Image(cells, BlackIsZero, 8), 0) == 0xFF
  {
    var w := Run(true, 8);
    assert [w][..0] == [];
    assert Apply(Start, [w][..0], 8) == Start;
    var white := Repeat(Pixel(true), 8);
    assert Step(Start, w, 8) == Progress(white + Repeat(Pad, 0), 8);
    assert Decode([w], 8).cells == white;
    var zeros, ones := Image(white, WhiteIsZero, 8), Image(white, BlackIsZero, 8);
    assert zeros == [false, false, false, false, false, false, false, false];
    assert ones == [true, true, true, true, true, true, true, true];
    assert zeros[0 .. 8] == zeros && ones[0 .. 8] == ones;
    PackByte(false, false, false, false, false, false, false, false);
    PackByte(true, true, true, true, true, true, true, true);
  }
}
