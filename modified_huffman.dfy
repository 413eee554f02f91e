/** The Modified Huffman decompressor of a TIFF strip, working in place on the
    output buffer. The buffer is seen bit by bit: bit i is bit 0x80 >> (i % 8)
    of byte i / 8 (see `ModifiedHuffmanLayout.BitInByte`). The T.4 bit reader is
    replaced by the sequence of runs it would deliver. */
module ModifiedHuffman {
  import opened ModifiedHuffmanLayout

  /** Bit offsets are passed to the bit writer as a signed 32-bit int, so the
      decoded output may take at most 2^31 bits; both counters, being at most
      its length, then never wrap around as 32-bit unsigned values. */
  const MaxBufferBits: nat := 0x8000_0000

  /** Clears every bit of the buffer. */
  method Clear(buffer: array<bool>)
    modifies buffer
    ensures forall j :: 0 <= j < buffer.Length ==> !buffer[j]
  {
    forall j | 0 <= j < buffer.Length {
      buffer[j] := false;
    }
  }

  /** The buffer holds the bits of `cells` and zero bits after them. */
  ghost predicate Written(buffer: array<bool>, cells: seq<Cell>, p: PhotometricInterpretation)
    reads buffer
  {
    |cells| <= buffer.Length
    && (forall j :: 0 <= j < |cells| ==> buffer[j] == CellBit(cells[j], p))
    && (forall j :: |cells| <= j < buffer.Length ==> !buffer[j])
  }

  lemma WrittenImage(buffer: array<bool>, cells: seq<Cell>, p: PhotometricInterpretation)
    requires Written(buffer, cells, p)
    ensures buffer[..] == Image(cells, p, buffer.Length)
  {
  }

  class ModifiedHuffmanCompression {
    const Photometric: PhotometricInterpretation
    const Width: int

    constructor (photometric: PhotometricInterpretation, width: int)
      ensures Photometric == photometric && Width == width
    {
      Photometric := photometric;
      Width := width;
    }

    /** Sets bits offset .. offset + count - 1 of the buffer to `value`. */
    method WriteBits(buffer: array<bool>, offset: nat, count: nat, value: bool)
      requires offset + count <= buffer.Length
      modifies buffer
      ensures forall j :: 0 <= j < buffer.Length ==>
        buffer[j] == if offset <= j < offset + count then value else old(buffer[j])
    {
      var i := 0;
      while i < count
        invariant 0 <= i <= count
        invariant forall j :: 0 <= j < buffer.Length ==>
          buffer[j] == if offset <= j < offset + i then value else old(buffer[j])
      {
        buffer[offset + i] := value;
        i := i + 1;
      }
    }

    /** Lines 42-56: a non-empty run is written at bit `bitsWritten` in its
        colour's bit value, and both counters advance by its length. */
    method WriteRun(buffer: array<bool>, run: Run, whiteValue: bool, blackValue: bool,
                    bitsWritten: nat, pixelsWritten: nat, ghost progress: Progress)
      returns (newBitsWritten: nat, newPixelsWritten: nat)
      requires whiteValue == PixelValue(Photometric, true) && blackValue == PixelValue(Photometric, false)
      requires bitsWritten == |progress.cells| && pixelsWritten == progress.pixels
      requires |AfterRun(progress, run).cells| <= buffer.Length
      requires Written(buffer, progress.cells, Photometric)
      modifies buffer
      ensures newBitsWritten == |AfterRun(progress, run).cells|
      ensures newPixelsWritten == AfterRun(progress, run).pixels
      ensures Written(buffer, AfterRun(progress, run).cells, Photometric)
    {
      newBitsWritten, newPixelsWritten := bitsWritten, pixelsWritten;
      if run.length > 0 {
        if run.isWhite {
          WriteBits(buffer, newBitsWritten, run.length, whiteValue);
          newBitsWritten := newBitsWritten + run.length;
          newPixelsWritten := newPixelsWritten + run.length;
        } else {
          WriteBits(buffer, newBitsWritten, run.length, blackValue);
          newBitsWritten := newBitsWritten + run.length;
          newPixelsWritten := newPixelsWritten + run.length;
        }
      }
    }

    /** Lines 58-69: when the pixel count is a multiple of the width, zero bits
        take `bitsWritten` to the next byte boundary. */
    method PadRowEnd(buffer: array<bool>, bitsWritten: nat, pixelsWritten: nat, ghost progress: Progress)
      returns (newBitsWritten: nat)
      requires Width > 0
      requires bitsWritten == |progress.cells| && pixelsWritten == progress.pixels
      requires |AfterRowEnd(progress, Width).cells| <= buffer.Length
      requires Written(buffer, progress.cells, Photometric)
      modifies buffer
      ensures newBitsWritten == |AfterRowEnd(progress, Width).cells|
      ensures Written(buffer, AfterRowEnd(progress, Width).cells, Photometric)
    {
      newBitsWritten := bitsWritten;
      if pixelsWritten % Width == 0 {
        // Rows start on byte boundaries: pad with zero bits.
        var pad := 8 - bitsWritten % 8;
        if pad != 8 {
          WriteBits(buffer, bitsWritten, pad, false);
          newBitsWritten := bitsWritten + pad;
        }
      }
    }

    /** Decodes `runs` into `buffer`: afterwards the buffer holds the decoded
        layout's bits followed by zero bits. */
    method Decompress(runs: seq<Run>, buffer: array<bool>)
      requires Width > 0
      requires |Decode(runs, Width).cells| <= buffer.Length
      requires |Decode(runs, Width).cells| <= MaxBufferBits
      modifies buffer
      ensures buffer[..] == Image(Decode(runs, Width).cells, Photometric, buffer.Length)
    {
      var isWhiteZero := Photometric == WhiteIsZero;
      var whiteValue := !isWhiteZero;
      var blackValue := isWhiteZero;

      Clear(buffer);
      var bitsWritten: nat := 0;
      var pixelsWritten: nat := 0;
      ghost var progress := Start;
      var i := 0;
      while i < |runs|
        invariant 0 <= i <= |runs|
        invariant progress == Decode(runs[..i], Width)
        invariant bitsWritten == |progress.cells| && pixelsWritten == progress.pixels
        invariant Written(buffer, progress.cells, Photometric)
      {
        var run := runs[i];
        DecodeNext(runs, i, Width);
        DecodePrefix(runs, i + 1, Width);
        bitsWritten, pixelsWritten :=
          WriteRun(buffer, run, whiteValue, blackValue, bitsWritten, pixelsWritten, progress);
        bitsWritten := PadRowEnd(buffer, bitsWritten, pixelsWritten, AfterRun(progress, run));
        progress := Step(progress, run, Width);
        i := i + 1;
      }
      assert runs[..i] == runs;
      WrittenImage(buffer, progress.cells, Photometric);
    }
  }
}
