/** Readers for the non-primitive field types of an ICC profile (ICC.1:2010).
    A reader is a cursor over the profile's bytes; every read advances it.
    All multi-byte numbers are big-endian (ICC.1:2010 clause 4.1). */
module IccDataReading {
  import opened DivMod

  type byte = x: int | 0 <= x < 0x100
  type uint16 = x: int | 0 <= x < 0x1_0000
  type uint32 = x: int | 0 <= x < 0x1_0000_0000
  type int32 = x: int | -0x8000_0000 <= x < 0x8000_0000

  // ---------------------------------------------------------------------------
  // Big-endian numbers

  /** The 16-bit unsigned number whose bytes, most significant first, are b0 b1. */
  function UInt16Of(b0: byte, b1: byte): (v: uint16)
    ensures v / 0x100 == b0 && v % 0x100 == b1
  {
    DivModUnique(b0 * 0x100 + b1, 0x100, b0, b1);
    b0 * 0x100 + b1
  }

  /** The 32-bit unsigned number whose bytes, most significant first, are b0 .. b3. */
  function UInt32Of(b0: byte, b1: byte, b2: byte, b3: byte): (v: uint32)
    ensures v / 0x100_0000 == b0
    ensures (v / 0x1_0000) % 0x100 == b1
    ensures (v / 0x100) % 0x100 == b2
    ensures v % 0x100 == b3
  {
    var v := b0 * 0x100_0000 + b1 * 0x1_0000 + b2 * 0x100 + b3;
    DivModUnique(v, 0x100_0000, b0, b1 * 0x1_0000 + b2 * 0x100 + b3);
    DivModUnique(v, 0x1_0000, b0 * 0x100 + b1, b2 * 0x100 + b3);
    DivModUnique(b0 * 0x100 + b1, 0x100, b0, b1);
    DivModUnique(v, 0x100, b0 * 0x1_0000 + b1 * 0x100 + b2, b3);
    DivModUnique(b0 * 0x1_0000 + b1 * 0x100 + b2, 0x100, b0 * 0x100 + b1, b2);
    v
  }

  /** The 32-bit two's complement number whose bytes, most significant first,
      are b0 .. b3. */
  function Int32Of(b0: byte, b1: byte, b2: byte, b3: byte): (v: int32)
    ensures v < 0 <==> b0 >= 0x80
    ensures v % 0x1_0000_0000 == UInt32Of(b0, b1, b2, b3)
  {
    var u := UInt32Of(b0, b1, b2, b3);
    assert u == 0x100_0000 * b0 + (b1 * 0x1_0000 + b2 * 0x100 + b3);
    if u < 0x8000_0000 then
      DivModUnique(u, 0x1_0000_0000, 0, u);
      u
    else
      DivModUnique(u - 0x1_0000_0000, 0x1_0000_0000, -1, u);
      u - 0x1_0000_0000
  }

  function UInt16At(data: seq<byte>, pos: nat): uint16
    requires pos + 2 <= |data|
  {
    UInt16Of(data[pos], data[pos + 1])
  }

  function UInt32At(data: seq<byte>, pos: nat): uint32
    requires pos + 4 <= |data|
  {
    UInt32Of(data[pos], data[pos + 1], data[pos + 2], data[pos + 3])
  }

  function Int32At(data: seq<byte>, pos: nat): int32
    requires pos + 4 <= |data|
  {
    Int32Of(data[pos], data[pos + 1], data[pos + 2], data[pos + 3])
  }

  /** A byte as an ASCII character; bytes above 0x7F decode to '?'. */
  function AsciiChar(b: byte): (c: char)
    ensures c as int < 0x80
    ensures b < 0x80 ==> c as int == b
  {
    if b < 0x80 then b as char else '?'
  }

  /** The `length` bytes at `pos` read as ASCII text. */
  function AsciiAt(data: seq<byte>, pos: nat, length: nat): (s: string)
    requires pos + length <= |data|
    ensures |s| == length
    ensures forall i :: 0 <= i < length ==> s[i] == AsciiChar(data[pos + i])
    ensures (forall i :: pos <= i < pos + length ==> data[i] < 0x80) ==>
              IsAscii(s) && forall i :: 0 <= i < length ==> s[i] as int == data[pos + i]
  {
    seq(length, i requires 0 <= i < length => AsciiChar(data[pos + i]))
  }

  // ---------------------------------------------------------------------------
  // Encodings: the bytes a writer puts down, to which every reader below
  // is related by a round-trip lemma.

  /** The two bytes of a 16-bit number, most significant first. */
  function UInt16Bytes(v: uint16): (bs: seq<byte>)
    ensures |bs| == 2 && UInt16Of(bs[0], bs[1]) == v
  {
    [v / 0x100, v % 0x100]
  }

  /** The four bytes of a 32-bit number, most significant first. */
  function UInt32Bytes(v: uint32): (bs: seq<byte>)
    ensures |bs| == 4 && UInt32Of(bs[0], bs[1], bs[2], bs[3]) == v
  {
    var q1, r0 := v / 0x100, v % 0x100;
    var q2, r1 := q1 / 0x100, q1 % 0x100;
    var q3, r2 := q2 / 0x100, q2 % 0x100;
    assert v == 0x100_0000 * q3 + (0x1_0000 * r2 + 0x100 * r1 + r0);
    DivModUnique(v, 0x100_0000, q3, 0x1_0000 * r2 + 0x100 * r1 + r0);
    DivModUnique(v, 0x1_0000, q2, 0x100 * r1 + r0);
    [q3, r2, r1, r0]
  }

  /** Text whose every character is ASCII. */
  predicate IsAscii(s: string)
  {
    forall i :: 0 <= i < |s| ==> s[i] as int < 0x80
  }

  /** The bytes of ASCII text, one per character. */
  function AsciiBytes(s: string): (bs: seq<byte>)
    requires IsAscii(s)
    ensures |bs| == |s|
    ensures AsciiAt(bs, 0, |s|) == s
  {
    seq(|s|, i requires 0 <= i < |s| => s[i] as int)
  }

  /** ASCII bytes decoded and encoded again are the bytes themselves. */
  lemma AsciiDecodeEncode(data: seq<byte>, pos: nat, length: nat)
    requires pos + length <= |data|
    requires forall i :: pos <= i < pos + length ==> data[i] < 0x80
    ensures IsAscii(AsciiAt(data, pos, length))
    ensures AsciiBytes(AsciiAt(data, pos, length)) == data[pos..pos + length]
  {
  }

  /** The 16-bit numbers of `s`, two bytes each, one after the other. */
  function UInt16SeqBytes(s: seq<uint16>): (bs: seq<byte>)
    ensures |bs| == 2 * |s|
    ensures forall i :: 0 <= i < |s| ==> UInt16At(bs, 2 * i) == s[i]
  {
    if s == [] then []
    else
      var init := UInt16SeqBytes(s[..|s| - 1]);
      var bs := init + UInt16Bytes(s[|s| - 1]);
      assert forall i :: 0 <= i < |s| - 1 ==> UInt16At(bs, 2 * i) == UInt16At(init, 2 * i);
      bs
  }

  // ---------------------------------------------------------------------------
  // Version number (ICC.1:2010 clause 7.2.4)

  /** A profile version: major revision, minor revision, bug-fix revision. */
  datatype VersionNumber = VersionNumber(major: int, minor: int, bugfix: int)

  /** Splits the version field into its revision numbers: bits 31..24, 23..20
      and 19..16. On a signed int, `x >> k` is the floor of x / 2^k and
      `x & (2^m - 1)` is the non-negative remainder of x modulo 2^m, which is
      what Dafny's `/` and `%` compute for a positive divisor. */
  function VersionOf(version: int32): (v: VersionNumber)
    ensures 0 <= v.major <= 0xFF && 0 <= v.minor <= 0xF && 0 <= v.bugfix <= 0xF
  {
    var major := (version / 0x100_0000) % 0x100;
    var minor := (version / 0x10_0000) % 0x10;
    var bugfix := (version / 0x1_0000) % 0x10;
    VersionNumber(major, minor, bugfix)
  }

  /** Bits above bit 15 decide the version: any two values that agree there
      (same floor of value / 2^16) have the same version. */
  lemma VersionIgnoresLowBits(v: int32, w: int32)
    requires v / 0x1_0000 == w / 0x1_0000
    ensures VersionOf(v) == VersionOf(w)
  {
    HighBits(v);
    HighBits(w);
  }

  lemma HighBits(x: int)
    ensures x / 0x100_0000 == (x / 0x1_0000) / 0x100
    ensures x / 0x10_0000 == (x / 0x1_0000) / 0x10
  {
    var q, r := x / 0x1_0000, x % 0x1_0000;
    DivModUnique(x, 0x100_0000, q / 0x100, 0x1_0000 * (q % 0x100) + r);
    DivModUnique(x, 0x10_0000, q / 0x10, 0x1_0000 * (q % 0x10) + r);
  }

  /** Read from the header bytes b0 .. b3: the major revision is b0, the minor
      and bug-fix revisions are the high and low halves of b1, and b2, b3 (the
      reserved bytes) play no part. */
  lemma VersionFromBytes(b0: byte, b1: byte, b2: byte, b3: byte)
    ensures VersionOf(Int32Of(b0, b1, b2, b3)) == VersionNumber(b0, b1 / 0x10, b1 % 0x10)
  {
    var u := UInt32Of(b0, b1, b2, b3);
    var v := Int32Of(b0, b1, b2, b3);
    var hi := b0 * 0x100 + b1;
    var low := b2 * 0x100 + b3;
    assert u == 0x1_0000 * hi + low;
    // v differs from u by 0 or 2^32, that is by 0 or 2^16 in the high half.
    var h := if u < 0x8000_0000 then hi else hi - 0x1_0000;
    assert v == 0x1_0000 * h + low;
    DivModUnique(v, 0x1_0000, h, low);
    HighBits(v);
    var b0' := if u < 0x8000_0000 then b0 else b0 - 0x100;
    assert h == 0x100 * b0' + b1;
    DivModUnique(h, 0x100, b0', b1);
    DivModUnique(b0', 0x100, if u < 0x8000_0000 then 0 else -1, b0);
    DivModUnique(h, 0x10, 0x10 * b0' + b1 / 0x10, b1 % 0x10);
    DivModUnique(0x10 * b0' + b1 / 0x10, 0x10, b0', b1 / 0x10);
  }

  /** The version field at `pos`. */
  function VersionAt(data: seq<byte>, pos: nat): (v: VersionNumber)
    requires pos + 4 <= |data|
    ensures v == VersionNumber(data[pos], data[pos + 1] / 0x10, data[pos + 1] % 0x10)
  {
    VersionFromBytes(data[pos], data[pos + 1], data[pos + 2], data[pos + 3]);
    VersionOf(Int32At(data, pos))
  }

  /** The version field of a version, its reserved bytes zero. */
  function VersionBytes(v: VersionNumber): (bs: seq<byte>)
    requires 0 <= v.major <= 0xFF && 0 <= v.minor <= 0xF && 0 <= v.bugfix <= 0xF
    ensures |bs| == 4
  {
    [v.major, 0x10 * v.minor + v.bugfix, 0, 0]
  }

  /** Reading back the field written for a version gives that version. */
  lemma VersionRoundTrip(v: VersionNumber)
    requires 0 <= v.major <= 0xFF && 0 <= v.minor <= 0xF && 0 <= v.bugfix <= 0xF
    ensures VersionAt(VersionBytes(v), 0) == v
  {
    DivModUnique(0x10 * v.minor + v.bugfix, 0x10, v.minor, v.bugfix);
  }

  // ---------------------------------------------------------------------------
  // Date and time (ICC.1:2010 clause 4.2)

  datatype DateTimeKind = Unspecified | Utc

  datatype DateTime = DateTime(year: int, month: int, day: int,
                               hour: int, minute: int, second: int, kind: DateTimeKind)

  /** The earliest date and time, 0001-01-01 00:00:00, of unspecified kind. */
  const MinValue := DateTime(1, 1, 1, 0, 0, 0, Unspecified)

  /** Leap years of the proleptic Gregorian calendar. */
  predicate IsLeapYear(year: int)
  {
    year % 4 == 0 && (year % 100 != 0 || year % 400 == 0)
  }

  function DaysInMonth(year: int, month: int): (days: int)
    requires 1 <= month <= 12
    ensures 28 <= days <= 31
    ensures days == 29 <==> month == 2 && IsLeapYear(year)
  {
    if month == 2 then (if IsLeapYear(year) then 29 else 28)
    else if month == 4 || month == 6 || month == 9 || month == 11 then 30
    else 31
  }

  /** The fields a date and time may have: years 1 to 9999, a day that exists
      in its month, and a time of day from 00:00:00 to 23:59:59. */
  predicate IsValidDateTime(year: int, month: int, day: int, hour: int, minute: int, second: int)
  {
    1 <= year <= 9999 && 1 <= month <= 12 && 1 <= day <= DaysInMonth(year, month)
    && 0 <= hour < 24 && 0 <= minute < 60 && 0 <= second < 60
  }

  /** The date and time the fields make: a UTC date and time when they form
      one, MinValue when the DateTime constructor rejects them. */
  function DateTimeOf(year: int, month: int, day: int, hour: int, minute: int, second: int): (t: DateTime)
    ensures t.kind == Utc <==> IsValidDateTime(year, month, day, hour, minute, second)
    ensures t.kind == Utc ==> t.year == year && t.month == month && t.day == day
                              && t.hour == hour && t.minute == minute && t.second == second
    ensures t.kind != Utc ==> t == MinValue
  {
    if IsValidDateTime(year, month, day, hour, minute, second)
    then DateTime(year, month, day, hour, minute, second, Utc)
    else MinValue
  }

  /** The date and time at `pos`: six 16-bit fields, year, month, day, hour,
      minute and second. */
  function DateTimeAt(data: seq<byte>, pos: nat): DateTime
    requires pos + 12 <= |data|
  {
    DateTimeOf(UInt16At(data, pos), UInt16At(data, pos + 2), UInt16At(data, pos + 4),
               UInt16At(data, pos + 6), UInt16At(data, pos + 8), UInt16At(data, pos + 10))
  }

  predicate IsValid(t: DateTime)
  {
    IsValidDateTime(t.year, t.month, t.day, t.hour, t.minute, t.second)
  }

  /** The twelve bytes of a date and time. */
  function DateTimeBytes(t: DateTime): (bs: seq<byte>)
    requires IsValid(t)
    ensures |bs| == 12
  {
    UInt16Bytes(t.year) + UInt16Bytes(t.month) + UInt16Bytes(t.day)
    + UInt16Bytes(t.hour) + UInt16Bytes(t.minute) + UInt16Bytes(t.second)
  }

  /** Every valid UTC date and time survives being written and read back. */
  lemma DateTimeRoundTrip(t: DateTime)
    requires IsValid(t) && t.kind == Utc
    ensures DateTimeAt(DateTimeBytes(t), 0) == t
  {
    var bs := DateTimeBytes(t);
    assert UInt16At(bs, 0) == t.year;
    assert UInt16At(bs, 2) == t.month;
    assert UInt16At(bs, 4) == t.day;
    assert UInt16At(bs, 6) == t.hour;
    assert UInt16At(bs, 8) == t.minute;
    assert UInt16At(bs, 10) == t.second;
  }

  /** 29 February 2100 does not exist (2100 is divisible by 100 but not by
      400): its fields read as MinValue. */
  lemma NoLeapDayIn2100()
    ensures DateTimeAt([0x08, 0x34, 0, 2, 0, 29, 0, 0, 0, 0, 0, 0], 0) == MinValue
  {
    var bs: seq<byte> := [0x08, 0x34, 0, 2, 0, 29, 0, 0, 0, 0, 0, 0];
    assert UInt16At(bs, 0) == 2100;
    assert UInt16At(bs, 2) == 2;
    assert UInt16At(bs, 4) == 29;
    assert DaysInMonth(2100, 2) == 28;
  }

  // ---------------------------------------------------------------------------
  // Composite values

  /** The 16-byte profile ID (an MD5 digest) as four 32-bit words. */
  datatype ProfileId = ProfileId(p1: uint32, p2: uint32, p3: uint32, p4: uint32)

  function ProfileIdAt(data: seq<byte>, pos: nat): ProfileId
    requires pos + 16 <= |data|
  {
    ProfileId(UInt32At(data, pos), UInt32At(data, pos + 4), UInt32At(data, pos + 8), UInt32At(data, pos + 12))
  }

  function ProfileIdBytes(id: ProfileId): (bs: seq<byte>)
    ensures |bs| == 16
  {
    UInt32Bytes(id.p1) + UInt32Bytes(id.p2) + UInt32Bytes(id.p3) + UInt32Bytes(id.p4)
  }

  lemma ProfileIdRoundTrip(id: ProfileId)
    ensures ProfileIdAt(ProfileIdBytes(id), 0) == id
  {
    var bs := ProfileIdBytes(id);
    assert UInt32At(bs, 0) == id.p1;
    assert UInt32At(bs, 4) == id.p2;
    assert UInt32At(bs, 8) == id.p3;
    assert UInt32At(bs, 12) == id.p4;
  }

  /** Where a data element lies: its offset and its size in bytes. */
  datatype PositionNumber = PositionNumber(offset: uint32, size: uint32)

  function PositionNumberAt(data: seq<byte>, pos: nat): PositionNumber
    requires pos + 8 <= |data|
  {
    PositionNumber(UInt32At(data, pos), UInt32At(data, pos + 4))
  }

  function PositionNumberBytes(p: PositionNumber): (bs: seq<byte>)
    ensures |bs| == 8
  {
    UInt32Bytes(p.offset) + UInt32Bytes(p.size)
  }

  lemma PositionNumberRoundTrip(p: PositionNumber)
    ensures PositionNumberAt(PositionNumberBytes(p), 0) == p
  {
    var bs := PositionNumberBytes(p);
    assert UInt32At(bs, 0) == p.offset;
    assert UInt32At(bs, 4) == p.size;
  }

  /** A named colour: its name, its PCS coordinates and its device coordinates. */
  datatype NamedColor = NamedColor(name: string, pcsCoordinates: seq<uint16>, deviceCoordinates: seq<uint16>)

  /** A 32-byte name, three PCS coordinates, then `count` device coordinates. */
  function NamedColorAt(data: seq<byte>, pos: nat, count: nat): (c: NamedColor)
    requires pos + 38 + 2 * count <= |data|
    ensures |c.name| == 32 && |c.pcsCoordinates| == 3 && |c.deviceCoordinates| == count
  {
    NamedColor(AsciiAt(data, pos, 32),
               [UInt16At(data, pos + 32), UInt16At(data, pos + 34), UInt16At(data, pos + 36)],
               seq(count, i requires 0 <= i < count => UInt16At(data, pos + 38 + 2 * i)))
  }

  /** The shape `NamedColorAt` reads: a 32-character ASCII name and three PCS
      coordinates. */
  predicate IsNamedColorShape(c: NamedColor)
  {
    |c.name| == 32 && IsAscii(c.name) && |c.pcsCoordinates| == 3
  }

  function NamedColorBytes(c: NamedColor): (bs: seq<byte>)
    requires IsNamedColorShape(c)
    ensures |bs| == 38 + 2 * |c.deviceCoordinates|
  {
    AsciiBytes(c.name) + UInt16SeqBytes(c.pcsCoordinates) + UInt16SeqBytes(c.deviceCoordinates)
  }

  lemma NamedColorRoundTrip(c: NamedColor)
    requires IsNamedColorShape(c)
    ensures NamedColorAt(NamedColorBytes(c), 0, |c.deviceCoordinates|) == c
  {
    var name, pcs := AsciiBytes(c.name), UInt16SeqBytes(c.pcsCoordinates);
    var device := UInt16SeqBytes(c.deviceCoordinates);
    var bs := name + pcs + device;
    var r := NamedColorAt(bs, 0, |c.deviceCoordinates|);
    assert bs[..32] == name;
    assert r.name == c.name;
    forall i | 0 <= i < 3
      ensures UInt16At(bs, 32 + 2 * i) == c.pcsCoordinates[i]
    {
      assert UInt16At(bs, 32 + 2 * i) == UInt16At(pcs, 2 * i);
    }
    assert r.pcsCoordinates == c.pcsCoordinates;
    forall i | 0 <= i < |c.deviceCoordinates|
      ensures r.deviceCoordinates[i] == c.deviceCoordinates[i]
    {
      assert UInt16At(bs, 38 + 2 * i) == UInt16At(device, 2 * i);
    }
  }

  /** A colorant table entry: the colorant's name and its three PCS values. */
  datatype ColorantTableEntry = ColorantTableEntry(name: string, pcs1: uint16, pcs2: uint16, pcs3: uint16)

  function ColorantTableEntryAt(data: seq<byte>, pos: nat): ColorantTableEntry
    requires pos + 38 <= |data|
  {
    ColorantTableEntry(AsciiAt(data, pos, 32), UInt16At(data, pos + 32),
                       UInt16At(data, pos + 34), UInt16At(data, pos + 36))
  }

  function ColorantTableEntryBytes(e: ColorantTableEntry): (bs: seq<byte>)
    requires |e.name| == 32 && IsAscii(e.name)
    ensures |bs| == 38
  {
    AsciiBytes(e.name) + UInt16Bytes(e.pcs1) + UInt16Bytes(e.pcs2) + UInt16Bytes(e.pcs3)
  }

  lemma ColorantTableEntryRoundTrip(e: ColorantTableEntry)
    requires |e.name| == 32 && IsAscii(e.name)
    ensures ColorantTableEntryAt(ColorantTableEntryBytes(e), 0) == e
  {
    var name := AsciiBytes(e.name);
    var bs := ColorantTableEntryBytes(e);
    assert bs[..32] == name;
    assert AsciiAt(bs, 0, 32) == AsciiAt(name, 0, 32);
    assert UInt16At(bs, 32) == e.pcs1;
    assert UInt16At(bs, 34) == e.pcs2;
    assert UInt16At(bs, 36) == e.pcs3;
  }

  /** A cursor over the bytes of a profile. */
  class IccDataReader {
    const data: seq<byte>
    var index: nat

    constructor (data: seq<byte>)
      ensures this.data == data && index == 0
    {
      this.data := data;
      index := 0;
    }

    method ReadUInt16() returns (v: uint16)
      requires index + 2 <= |data|
      modifies this
      ensures index == old(index) + 2
      ensures v == UInt16At(data, old(index))
    {
      v := UInt16Of(data[index], data[index + 1]);
      index := index + 2;
    }

    method ReadUInt32() returns (v: uint32)
      requires index + 4 <= |data|
      modifies this
      ensures index == old(index) + 4
      ensures v == UInt32At(data, old(index))
    {
      v := UInt32Of(data[index], data[index + 1], data[index + 2], data[index + 3]);
      index := index + 4;
    }

    method ReadInt32() returns (v: int32)
      requires index + 4 <= |data|
      modifies this
      ensures index == old(index) + 4
      ensures v == Int32At(data, old(index))
    {
      v := Int32Of(data[index], data[index + 1], data[index + 2], data[index + 3]);
      index := index + 4;
    }

    /** Reads `length` bytes as ASCII text. */
    method ReadAsciiString(length: nat) returns (s: string)
      requires index + length <= |data|
      modifies this
      ensures index == old(index) + length
      ensures s == AsciiAt(data, old(index), length)
    {
      s := AsciiAt(data, index, length);
      index := index + length;
    }

    /** Reads six 16-bit fields; all twelve bytes are consumed whether or not
        they form a date and time. */
    method ReadDateTime() returns (t: DateTime)
      requires index + 12 <= |data|
      modifies this
      ensures index == old(index) + 12
      ensures t == DateTimeAt(data, old(index))
    {
      ghost var pos := index;
      var year := ReadUInt16();
      var month := ReadUInt16();
      var day := ReadUInt16();
      var hour := ReadUInt16();
      var minute := ReadUInt16();
      var second := ReadUInt16();
      assert year == UInt16At(data, pos) && month == UInt16At(data, pos + 2) && day == UInt16At(data, pos + 4);
      assert hour == UInt16At(data, pos + 6) && minute == UInt16At(data, pos + 8) && second == UInt16At(data, pos + 10);
      // The DateTime constructor's ArgumentOutOfRangeException gives MinValue.
      t := DateTimeOf(year, month, day, hour, minute, second);
    }

    method ReadVersionNumber() returns (v: VersionNumber)
      requires index + 4 <= |data|
      modifies this
      ensures index == old(index) + 4
      ensures v == VersionAt(data, old(index))
    {
      var version := ReadInt32();
      v := VersionOf(version);
    }

    method ReadProfileId() returns (id: ProfileId)
      requires index + 16 <= |data|
      modifies this
      ensures index == old(index) + 16
      ensures id == ProfileIdAt(data, old(index))
    {
      ghost var pos := index;
      var p1 := ReadUInt32();
      var p2 := ReadUInt32();
      var p3 := ReadUInt32();
      var p4 := ReadUInt32();
      assert p1 == UInt32At(data, pos) && p2 == UInt32At(data, pos + 4);
      assert p3 == UInt32At(data, pos + 8) && p4 == UInt32At(data, pos + 12);
      id := ProfileId(p1, p2, p3, p4);
    }

    method ReadPositionNumber() returns (position: PositionNumber)
      requires index + 8 <= |data|
      modifies this
      ensures index == old(index) + 8
      ensures position == PositionNumberAt(data, old(index))
    {
      ghost var pos := index;
      var offset := ReadUInt32();
      var size := ReadUInt32();
      assert offset == UInt32At(data, pos) && size == UInt32At(data, pos + 4);
      position := PositionNumber(offset, size);
    }

    method ReadNamedColor(deviceCoordCount: uint32) returns (color: NamedColor)
      requires index + 38 + 2 * deviceCoordCount <= |data|
      modifies this
      ensures index == old(index) + 38 + 2 * deviceCoordCount
      ensures color == NamedColorAt(data, old(index), deviceCoordCount)
    {
      ghost var pos := index;
      var name := ReadAsciiString(32);
      var pcs1 := ReadUInt16();
      var pcs2 := ReadUInt16();
      var pcs3 := ReadUInt16();
      assert name == AsciiAt(data, pos, 32);
      assert pcs1 == UInt16At(data, pos + 32) && pcs2 == UInt16At(data, pos + 34) && pcs3 == UInt16At(data, pos + 36);
      var pcsCoord := [pcs1, pcs2, pcs3];
      var deviceCoord := new uint16[deviceCoordCount];
      ghost var start := pos + 38;
      for i := 0 to deviceCoordCount
        invariant index == start + 2 * i
        invariant forall k :: 0 <= k < i ==> deviceCoord[k] == UInt16At(data, start + 2 * k)
      {
        deviceCoord[i] := ReadUInt16();
      }
      color := NamedColor(name, pcsCoord, deviceCoord[..]);
    }

    method ReadColorantTableEntry() returns (entry: ColorantTableEntry)
      requires index + 38 <= |data|
      modifies this
      ensures index == old(index) + 38
      ensures entry == ColorantTableEntryAt(data, old(index))
    {
      ghost var pos := index;
      var name := ReadAsciiString(32);
      var pcs1 := ReadUInt16();
      var pcs2 := ReadUInt16();
      var pcs3 := ReadUInt16();
      assert name == AsciiAt(data, pos, 32);
      assert pcs1 == UInt16At(data, pos + 32) && pcs2 == UInt16At(data, pos + 34) && pcs3 == UInt16At(data, pos + 36);
      entry := ColorantTableEntry(name, pcs1, pcs2, pcs3);
    }
  }
}
