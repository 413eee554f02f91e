# ImageSharp: Modified Huffman strip decoding and ICC field readers, in Dafny

This project models two small parts of the ImageSharp image library and
proves properties of them.

**TIFF Modified Huffman decompression.** `TiffModifiedHuffmanCompression.Decompress`
decodes one strip of a bilevel TIFF image. It clears the output buffer, then
takes runs (a colour and a length) one after another from a T.4 bit reader.
Each non-empty run is written as that many bits, in the bit value its colour
has under the image's photometric interpretation (white is 0 under
WhiteIsZero and 1 otherwise). When the pixel count reaches a multiple of
the image width, zero bits pad the output to the next byte boundary.

The model has two layers:
- `ModifiedHuffmanLayout` holds the specification. `Decode` is a left fold
  of one loop turn (`Step`) over the runs. It computes the layout of the
  output: which bit holds which run's pixel, and which bits are padding.
  `Image` turns that layout into bits.
- `ModifiedHuffman.ModifiedHuffmanCompression.Decompress` is the loop itself.
  It works in place on an `array<bool>`, the bit view of the output buffer.
  It is proved to leave exactly `Image(Decode(runs))` there.

Lemmas about the layout cover:
- the bookkeeping invariant of the two counters;
- the effect of zero-length runs;
- the complementary images under the two bilevel interpretations;
- the row layout when every row's runs sum to the width: row r starts at
  bit r · 8·⌈width/8⌉;
- what happens when runs step over a row end without landing on it;
- the packing of bit offsets into bytes, most significant bit first.

**ICC field readers.** `IccDataReader` is a cursor over the bytes of an ICC
profile (ICC.1:2010). The model covers its readers for:
- the version number;
- date and time;
- profile ID;
- position number;
- named colour;
- colorant table entry.

Each reader advances the cursor by the field's size. Its result is stated
as a function of the bytes under the old cursor, and that function is
related to an encoder by a proved round-trip lemma. Multi-byte numbers are
big-endian (ICC.1:2010 clause 4.1).

## Model

| member | source | states |
|---|---|---|
| ModifiedHuffman.ModifiedHuffmanCompression.constructor | src/ImageSharp/Formats/Tiff/Compression/TiffModifiedHuffmanCompression.cs:21-24 | The decoder keeps the photometric interpretation and the width it is given. |
| ModifiedHuffmanLayout.PixelValue | src/ImageSharp/Formats/Tiff/Compression/TiffModifiedHuffmanCompression.cs:29-31 | Definition of the bit written for each colour; its properties are stated in ColourMapping and PhotometricInversion. |
| ModifiedHuffmanLayout.Apply | src/ImageSharp/Formats/Tiff/Compression/TiffModifiedHuffmanCompression.cs:38-70 | The loop from a given state: the pixel count grows by the total length of the runs. Its other properties are stated in ApplyConcat and DecodeInvariant. |
| ModifiedHuffmanLayout.Decode | src/ImageSharp/Formats/Tiff/Compression/TiffModifiedHuffmanCompression.cs:36-70 | The loop from a cleared buffer and zero counters: pixelsWritten ends as the total length of the runs. Decompress is proved against it. |
| ModifiedHuffmanLayout.ColourMapping | src/ImageSharp/Formats/Tiff/Compression/TiffModifiedHuffmanCompression.cs:29-31 | White is a 0 bit exactly under WhiteIsZero, and black is always the complement of white. |
| ModifiedHuffman.Clear | src/ImageSharp/Formats/Tiff/Compression/TiffModifiedHuffmanCompression.cs:35 | Afterwards every bit of the buffer is zero. |
| ModifiedHuffman.ModifiedHuffmanCompression.WriteBits | src/ImageSharp/Formats/Tiff/Compression/TiffModifiedHuffmanCompression.cs:46 | Bits offset to offset+count-1 become `value`; every other bit keeps its old value. |
| ModifiedHuffmanLayout.PadLength | src/ImageSharp/Formats/Tiff/Compression/TiffModifiedHuffmanCompression.cs:63-68 | The padding is fewer than 8 bits and ends on a byte boundary. It is zero exactly when the offset is already byte-aligned. |
| ModifiedHuffmanLayout.AfterRun | src/ImageSharp/Formats/Tiff/Compression/TiffModifiedHuffmanCompression.cs:42-56 | Both counters grow by the run length. Earlier cells are kept and the new cells all have the run's colour. A zero-length run adds nothing. |
| ModifiedHuffmanLayout.AfterRowEnd | src/ImageSharp/Formats/Tiff/Compression/TiffModifiedHuffmanCompression.cs:58-69 | The pixel count and earlier cells are unchanged. Fewer than 8 cells are added, all of them padding. |
| ModifiedHuffmanLayout.RowEndPadding | src/ImageSharp/Formats/Tiff/Compression/TiffModifiedHuffmanCompression.cs:58-69 | At a multiple of the width, the offset grows by PadLength and becomes a multiple of 8. Anywhere else, nothing changes. |
| ModifiedHuffmanLayout.Step | src/ImageSharp/Formats/Tiff/Compression/TiffModifiedHuffmanCompression.cs:40-69 | One loop turn: the pixel count grows by the run length. Earlier cells are kept, the run's cells come next, then fewer than 8 padding cells. |
| ModifiedHuffmanLayout.StepLength | src/ImageSharp/Formats/Tiff/Compression/TiffModifiedHuffmanCompression.cs:47-67 | The new bit offset is the old one plus the run length, plus the padding exactly when the pixel count lands on a multiple of the width. |
| ModifiedHuffman.ModifiedHuffmanCompression.WriteRun | src/ImageSharp/Formats/Tiff/Compression/TiffModifiedHuffmanCompression.cs:42-56 | The counters returned are AfterRun's. The buffer holds the bits of AfterRun's cells, with zeros after them. |
| ModifiedHuffman.ModifiedHuffmanCompression.PadRowEnd | src/ImageSharp/Formats/Tiff/Compression/TiffModifiedHuffmanCompression.cs:58-69 | The bit counter returned is AfterRowEnd's. The buffer holds the bits of AfterRowEnd's cells, with zeros after them. |
| ModifiedHuffman.ModifiedHuffmanCompression.Decompress | src/ImageSharp/Formats/Tiff/Compression/TiffModifiedHuffmanCompression.cs:27-71 | The whole buffer equals `Image(Decode(runs))`: each decoded cell's bit in order, then zero bits. |
| ModifiedHuffman.WrittenImage | src/ImageSharp/Formats/Tiff/Compression/TiffModifiedHuffmanCompression.cs:35-70 | A buffer holding the cells' bits with zeros after them is exactly their image. |
| ModifiedHuffmanLayout.ApplyConcat | src/ImageSharp/Formats/Tiff/Compression/TiffModifiedHuffmanCompression.cs:38-70 | Running the loop over a + b is running it over a, then over b from where a left off. |
| ModifiedHuffmanLayout.DecodeNext | src/ImageSharp/Formats/Tiff/Compression/TiffModifiedHuffmanCompression.cs:38-70 | Decoding one more run is one more loop turn. |
| ModifiedHuffmanLayout.DecodePrefix | src/ImageSharp/Formats/Tiff/Compression/TiffModifiedHuffmanCompression.cs:38-70 | Output only grows at its end: a prefix of the runs decodes to a prefix of the cells, with no more pixels. |
| ModifiedHuffmanLayout.StepConsistent | src/ImageSharp/Formats/Tiff/Compression/TiffModifiedHuffmanCompression.cs:42-69 | One loop turn preserves the counter invariant stated under DecodeInvariant. |
| ModifiedHuffmanLayout.DecodeInvariant | src/ImageSharp/Formats/Tiff/Compression/TiffModifiedHuffmanCompression.cs:36-68 | After any runs, bitsWritten = pixelsWritten + padding bits. The padding is at most 7 bits per completed row. Whenever pixelsWritten is a multiple of the width, bitsWritten is a multiple of 8. |
| ModifiedHuffmanLayout.StepEmptyRun | src/ImageSharp/Formats/Tiff/Compression/TiffModifiedHuffmanCompression.cs:42-68 | From a consistent state, a zero-length run is a no-op, including at a row end, which is already aligned. |
| ModifiedHuffmanLayout.ZeroLengthRun | src/ImageSharp/Formats/Tiff/Compression/TiffModifiedHuffmanCompression.cs:42-68 | Appending a zero-length run to any run sequence leaves the decoded output unchanged. |
| ModifiedHuffmanLayout.PhotometricInversion | src/ImageSharp/Formats/Tiff/Compression/TiffModifiedHuffmanCompression.cs:29-31 | Compared with any other interpretation, WhiteIsZero complements every pixel bit. Padding and unwritten bits are zero under both. |
| ModifiedHuffmanLayout.RowStride | src/ImageSharp/Formats/Tiff/Compression/TiffModifiedHuffmanCompression.cs:63-68 | A padded row takes 8·⌈width/8⌉ bits, between width and width+7. |
| ModifiedHuffmanLayout.RowStep | src/ImageSharp/Formats/Tiff/Compression/TiffModifiedHuffmanCompression.cs:42-68 | Inside a row that began at a row boundary, a run's pixels follow the earlier pixels, and padding comes only once the row is full. |
| ModifiedHuffmanLayout.RowLayout | src/ImageSharp/Formats/Tiff/Compression/TiffModifiedHuffmanCompression.cs:38-70 | Runs filling at most one row from a byte-aligned row boundary give their pixel cells back to back. The row's padding follows exactly when the row is full. |
| ModifiedHuffmanLayout.AppendRow | src/ImageSharp/Formats/Tiff/Compression/TiffModifiedHuffmanCompression.cs:38-70 | A complete row decoded at a row boundary adds its pixels and its padding, RowStride(width) cells in all. |
| ModifiedHuffmanLayout.AlignedAtRowEnd | src/ImageSharp/Formats/Tiff/Compression/TiffModifiedHuffmanCompression.cs:58-68 | After a whole number of rows' worth of pixels, the output is byte-aligned. |
| ModifiedHuffmanLayout.RowsDecode | src/ImageSharp/Formats/Tiff/Compression/TiffModifiedHuffmanCompression.cs:38-70 | If every row's runs sum to the width, decoding gives the rows' cells one after another, each padded to whole bytes. |
| ModifiedHuffmanLayout.RowsImageLength | src/ImageSharp/Formats/Tiff/Compression/TiffModifiedHuffmanCompression.cs:58-68 | Such an image takes rows × RowStride(width) bits. |
| ModifiedHuffmanLayout.RowsImagePrefix | src/ImageSharp/Formats/Tiff/Compression/TiffModifiedHuffmanCompression.cs:38-70 | The image of the first k rows is a prefix of the whole image. |
| ModifiedHuffmanLayout.RowStart | src/ImageSharp/Formats/Tiff/Compression/TiffModifiedHuffmanCompression.cs:38-70 | In a well-formed image, row r starts at bit r × RowStride(width) and holds its pixels, then its padding. Later rows never change it. |
| ModifiedHuffmanLayout.OvershootPadsOnlyAtExactMultiple | src/ImageSharp/Formats/Tiff/Compression/TiffModifiedHuffmanCompression.cs:58 | Runs that step over a multiple of the width without landing on it get no padding. With width 5, runs of 3, 3 and 4 give 10 pixel bits and then 6 padding bits. |
| ModifiedHuffmanLayout.BitInByte | src/ImageSharp/Formats/Tiff/Compression/TiffModifiedHuffmanCompression.cs:46 | Bit offset i is bit 0x80 >> (i mod 8) of byte i / 8 of the packed buffer. |
| ModifiedHuffmanLayout.PackDigit | src/ImageSharp/Formats/Tiff/Compression/TiffModifiedHuffmanCompression.cs:46 | Bit j of a bit string, counted from the top, is binary digit len-1-j of its packed value. |
| ModifiedHuffmanLayout.PackByte | src/ImageSharp/Formats/Tiff/Compression/TiffModifiedHuffmanCompression.cs:46 | Eight bits pack to the byte whose first bit is 0x80 and whose last bit is 0x01. |
| ModifiedHuffmanLayout.WhiteThenBlackByte | src/ImageSharp/Formats/Tiff/Compression/TiffModifiedHuffmanCompression.cs:29-68 | Under WhiteIsZero, a row of width 8 with 3 white then 5 black pixels is the byte 0x1F. |
| ModifiedHuffmanLayout.AllWhiteByte | src/ImageSharp/Formats/Tiff/Compression/TiffModifiedHuffmanCompression.cs:29-68 | An all-white row of width 8 is 0x00 under WhiteIsZero and 0xFF under BlackIsZero. |
| IccDataReading.UInt16Of | src/ImageSharp/MetaData/Profiles/ICC/DataReader/IccDataReader.NonPrimitives.cs:25 | A big-endian 16-bit number gives back its high byte as the quotient by 0x100 and its low byte as the remainder. |
| IccDataReading.UInt32Of | src/ImageSharp/MetaData/Profiles/ICC/DataReader/IccDataReader.NonPrimitives.cs:73 | A big-endian 32-bit number gives back each of its four bytes. |
| IccDataReading.Int32Of | src/ImageSharp/MetaData/Profiles/ICC/DataReader/IccDataReader.NonPrimitives.cs:45 | The signed reading is negative exactly when the top bit is set, and agrees with the unsigned reading modulo 2^32. |
| IccDataReading.UInt16Bytes | src/ImageSharp/MetaData/Profiles/ICC/DataReader/IccDataReader.NonPrimitives.cs:25 | Encoding a 16-bit number as two bytes and reading them back gives the number. |
| IccDataReading.UInt32Bytes | src/ImageSharp/MetaData/Profiles/ICC/DataReader/IccDataReader.NonPrimitives.cs:73 | Encoding a 32-bit number as four bytes and reading them back gives the number. |
| IccDataReading.AsciiChar | src/ImageSharp/MetaData/Profiles/ICC/DataReader/IccDataReader.NonPrimitives.cs:108 | A decoded character is always ASCII. A byte below 0x80 decodes to the character with that code. |
| IccDataReading.AsciiAt | src/ImageSharp/MetaData/Profiles/ICC/DataReader/IccDataReader.NonPrimitives.cs:108 | Bytes that are all below 0x80 decode to ASCII text whose character codes are exactly those bytes, so that AsciiBytes gives them back (the other half of the AsciiBytes round trip). |
| IccDataReading.AsciiBytes | src/ImageSharp/MetaData/Profiles/ICC/DataReader/IccDataReader.NonPrimitives.cs:151 | ASCII text written one byte per character reads back as itself. |
| IccDataReading.AsciiDecodeEncode | src/ImageSharp/MetaData/Profiles/ICC/DataReader/IccDataReader.NonPrimitives.cs:108 | Bytes all below 0x80, decoded as ASCII and encoded again, are the same bytes. |
| IccDataReading.UInt16SeqBytes | src/ImageSharp/MetaData/Profiles/ICC/DataReader/IccDataReader.NonPrimitives.cs:112-115 | 16-bit numbers written back to back read back at offsets 2i. |
| IccDataReading.VersionOf | src/ImageSharp/MetaData/Profiles/ICC/DataReader/IccDataReader.NonPrimitives.cs:47-49 | The major revision is within 0..255; the minor and bug-fix revisions are within 0..15. |
| IccDataReading.VersionIgnoresLowBits | src/ImageSharp/MetaData/Profiles/ICC/DataReader/IccDataReader.NonPrimitives.cs:47-49 | Two fields that agree above bit 15 give the same version. |
| IccDataReading.VersionFromBytes | src/ImageSharp/MetaData/Profiles/ICC/DataReader/IccDataReader.NonPrimitives.cs:45-51 | For every 4 bytes, including a first byte of 0x80 or more (a negative int), the version is (b0, high half of b1, low half of b1). |
| IccDataReading.VersionAt | src/ImageSharp/MetaData/Profiles/ICC/DataReader/IccDataReader.NonPrimitives.cs:45-51 | The version at a position in terms of its bytes, as above. |
| IccDataReading.VersionRoundTrip | src/ImageSharp/MetaData/Profiles/ICC/DataReader/IccDataReader.NonPrimitives.cs:43-52 | Every version with in-range revisions, written as a 4-byte field, reads back as itself. |
| IccDataReading.IccDataReader.ReadVersionNumber | src/ImageSharp/MetaData/Profiles/ICC/DataReader/IccDataReader.NonPrimitives.cs:43-52 | Consumes 4 bytes and returns VersionAt of them. |
| IccDataReading.DaysInMonth | src/ImageSharp/MetaData/Profiles/ICC/DataReader/IccDataReader.NonPrimitives.cs:24-31 | Between 28 and 31 days; 29 exactly for February of a leap year. |
| IccDataReading.IsValidDateTime | src/ImageSharp/MetaData/Profiles/ICC/DataReader/IccDataReader.NonPrimitives.cs:24-35 | Definition of the DateTime constructor's validity rule; its consequences are stated in DaysInMonth and DateTimeOf. |
| IccDataReading.DateTimeOf | src/ImageSharp/MetaData/Profiles/ICC/DataReader/IccDataReader.NonPrimitives.cs:22-36 | The result is UTC exactly when the six fields form a valid date and time, and then it carries those fields. Otherwise it is MinValue. |
| IccDataReading.DateTimeRoundTrip | src/ImageSharp/MetaData/Profiles/ICC/DataReader/IccDataReader.NonPrimitives.cs:20-37 | Every valid UTC date and time, written as six big-endian 16-bit fields, reads back as itself. |
| IccDataReading.NoLeapDayIn2100 | src/ImageSharp/MetaData/Profiles/ICC/DataReader/IccDataReader.NonPrimitives.cs:33-35 | The fields 2100-02-29 read as MinValue. |
| IccDataReading.IccDataReader.ReadDateTime | src/ImageSharp/MetaData/Profiles/ICC/DataReader/IccDataReader.NonPrimitives.cs:20-37 | Consumes 12 bytes, valid or not, and returns DateTimeAt of them. |
| IccDataReading.ProfileIdRoundTrip | src/ImageSharp/MetaData/Profiles/ICC/DataReader/IccDataReader.NonPrimitives.cs:70-77 | Every profile ID written as four big-endian words reads back as itself. |
| IccDataReading.IccDataReader.ReadProfileId | src/ImageSharp/MetaData/Profiles/ICC/DataReader/IccDataReader.NonPrimitives.cs:70-77 | Consumes 16 bytes and returns the four words in stream order. |
| IccDataReading.PositionNumberRoundTrip | src/ImageSharp/MetaData/Profiles/ICC/DataReader/IccDataReader.NonPrimitives.cs:83-88 | Every position number written as offset then size reads back as itself. |
| IccDataReading.IccDataReader.ReadPositionNumber | src/ImageSharp/MetaData/Profiles/ICC/DataReader/IccDataReader.NonPrimitives.cs:83-88 | Consumes 8 bytes and returns offset, then size. |
| IccDataReading.NamedColorAt | src/ImageSharp/MetaData/Profiles/ICC/DataReader/IccDataReader.NonPrimitives.cs:106-118 | A named colour has a 32-character name, 3 PCS coordinates and exactly `count` device coordinates. |
| IccDataReading.NamedColorRoundTrip | src/ImageSharp/MetaData/Profiles/ICC/DataReader/IccDataReader.NonPrimitives.cs:106-118 | A named colour with an ASCII name of 32 characters and 3 PCS coordinates, written out, reads back as itself for its own device-coordinate count. |
| IccDataReading.IccDataReader.ReadNamedColor | src/ImageSharp/MetaData/Profiles/ICC/DataReader/IccDataReader.NonPrimitives.cs:106-118 | Consumes 38 + 2·count bytes. Its loop fills the device coordinates in stream order. Returns NamedColorAt of the bytes. |
| IccDataReading.ColorantTableEntryRoundTrip | src/ImageSharp/MetaData/Profiles/ICC/DataReader/IccDataReader.NonPrimitives.cs:148-155 | An entry with an ASCII name of 32 characters, written out, reads back as itself. |
| IccDataReading.IccDataReader.ReadColorantTableEntry | src/ImageSharp/MetaData/Profiles/ICC/DataReader/IccDataReader.NonPrimitives.cs:148-155 | Consumes 38 bytes and returns the name, then the three PCS values. |
| IccDataReading.IccDataReader.ReadUInt16 | src/ImageSharp/MetaData/Profiles/ICC/DataReader/IccDataReader.NonPrimitives.cs:25 | Consumes 2 bytes and returns their big-endian value. |
| IccDataReading.IccDataReader.ReadUInt32 | src/ImageSharp/MetaData/Profiles/ICC/DataReader/IccDataReader.NonPrimitives.cs:73 | Consumes 4 bytes and returns their big-endian value. |
| IccDataReading.IccDataReader.ReadInt32 | src/ImageSharp/MetaData/Profiles/ICC/DataReader/IccDataReader.NonPrimitives.cs:45 | Consumes 4 bytes and returns their big-endian two's complement value. |
| IccDataReading.IccDataReader.ReadAsciiString | src/ImageSharp/MetaData/Profiles/ICC/DataReader/IccDataReader.NonPrimitives.cs:108 | Consumes `length` bytes and returns them as ASCII text. |

## Left out

- The T.4 bit reader (`T4BitReader`) and its code tables are left out. So is the colour alternation it does through `StartNewRow`. The decoder is given the runs the reader would deliver, and each run carries its own colour, which is more general than the reader's strict white/black alternation. `T4BitReader` is not part of this model.
- The input stream, `byteCount`, the memory allocator and the disposal of the bit reader are left out. They do not affect what is written.
- `WriteBits` and the bit layout inside a byte come from `T4TiffCompression`, which is not part of this model. The buffer is modelled as an `array<bool>` of bits. The byte view (`ByteAt`, `BitInByte`) assumes the most-significant-bit-first order of TIFF FillOrder 1.
- ModifiedHuffman.ModifiedHuffmanCompression.Decompress requires `Width > 0`. The source takes the pixel count modulo the width, so a zero width throws. A negative width is not modelled.
- ModifiedHuffman.ModifiedHuffmanCompression.Decompress requires the buffer to hold every decoded bit. The source's span would throw on an overflow, and that exception is not modelled.
- ModifiedHuffman.ModifiedHuffmanCompression.Decompress requires the decoded output to take at most 2^31 bits; the buffer itself may be larger. The source passes `bitsWritten` to `WriteBits` as an `int`, so every write must start below 2^31. With this bound neither 32-bit unsigned counter can wrap, so the counters are modelled as unbounded naturals.
- The source does not check whether runs overshoot a row end. The model reproduces the source's behaviour: padding is written only when the pixel count is an exact multiple of the width (`OvershootPadsOnlyAtExactMultiple`).
- `ReadXyzNumber` and `ReadResponseNumber` are left out. They read `Fix16` fixed-point values converted to floating point.
- `ReadProfileDescription` is left out. It reads a 64-bit device attribute and two nested multi-localized Unicode tag entries, whose readers are outside this file.
- `IccDataReader.Primitives.cs` is not part of this model. The primitive readers (`ReadUInt16`, `ReadUInt32`, `ReadInt32`, `ReadAsciiString`) are modelled as big-endian readers per ICC.1:2010.
- The primitive readers require enough bytes to remain, instead of throwing at the end of the data.
- ReadAsciiString is modelled as .NET's ASCII decoding, which maps bytes 0x80 and above to '?'. Any trimming at a NUL byte that the primitive reader might do is not modelled.
- IccDataReading.DateTimeOf models the .NET `DateTime` constructor by its validity rule only: years 1-9999, the month's day count in the proleptic Gregorian calendar, 00:00:00-23:59:59. Ticks are not modelled. .NET's `DateTime` equality ignores `Kind`, but datatype equality here does not, so a UTC 0001-01-01 00:00:00 differs from MinValue.
- IccDataReading.IccDataReader.ReadNamedColor: the source's loop counter is a signed `int` compared against a `uint` count. The model counts with a natural, so counts of 2^31 and above are not followed into overflow; .NET would fail to allocate such an array anyway.
