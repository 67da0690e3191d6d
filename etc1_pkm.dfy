/**
 * The PKM header of JavaETC1.java: a 16-byte header holding the magic
 * "PKM 10", the format and the encoded and real width and height, each as
 * a big-endian 16-bit value.
 */
module JavaEtc1Pkm {
  import opened JavaInt
  import opened JavaEtc1

  /** kMagic: 'P', 'K', 'M', ' ', '1', '0'. */
  const Magic: seq<JByte> := [80, 75, 77, 32, 49, 48]
  const HeaderSize: int := 16
  const FormatOffset: int := 6
  const EncodedWidthOffset: int := 8
  const EncodedHeightOffset: int := 10
  const WidthOffset: int := 12
  const HeightOffset: int := 14
  const RgbNoMipmaps: int := 0

  /**
   * The part of java.nio.ByteBuffer the header code uses: relative put at
   * the position, absolute position(i) and absolute get(i).
   */
  class ByteBuffer {
    const data: array<JByte>
    var position: int

    ghost predicate Valid()
      reads this
    {
      0 <= position <= data.Length
    }

    /** ByteBuffer.allocate(n): n zero bytes, position 0. */
    constructor (n: nat)
      ensures Valid() && fresh(data) && data[..] == seq(n, _ => 0) && position == 0
    {
      data := new JByte[n](_ => 0);
      position := 0;
    }

    /** put(b): store at the position and advance it (overflow is excluded). */
    method Put(b: JByte)
      requires Valid() && position < data.Length
      modifies this, data
      ensures Valid() && data[..] == old(data[..])[old(position) := b] && position == old(position) + 1
    {
      data[position] := b;
      position := position + 1;
    }

    /** put(byte[]): the bytes one after the other from the position. */
    method PutAll(bs: seq<JByte>)
      requires Valid() && position + |bs| <= data.Length
      modifies this, data
      ensures Valid() && position == old(position) + |bs|
      ensures data[..] == Splice(old(data[..]), old(position), bs)
    {
      var i := 0;
      while i < |bs|
        invariant 0 <= i <= |bs| && position == old(position) + i
        invariant data[..] == Splice(old(data[..]), old(position), bs[..i])
      {
        SpliceStep(old(data[..]), old(position), bs, i);
        Put(bs[i]);
        i := i + 1;
      }
      assert bs[..i] == bs;
    }

    /** position(p). */
    method SetPosition(p: int)
      requires 0 <= p <= data.Length
      modifies this
      ensures Valid() && position == p
    {
      position := p;
    }
  }

  /** s with t written over it from index i. */
  function Splice(s: seq<JByte>, i: int, t: seq<JByte>): (r: seq<JByte>)
    requires 0 <= i && i + |t| <= |s|
    ensures |r| == |s|
    ensures forall k :: 0 <= k < |s| ==> r[k] == if i <= k < i + |t| then t[k - i] else s[k]
  {
    s[..i] + t + s[i + |t|..]
  }

  lemma SpliceStep(s: seq<JByte>, i: int, t: seq<JByte>, n: int)
    requires 0 <= i && i + |t| <= |s| && 0 <= n < |t|
    ensures Splice(s, i, t[..n])[i + n := t[n]] == Splice(s, i, t[..n + 1])
  {
  }

  /** (byte)(data >> 8), (byte) data. */
  function BEBytes(data: int): (r: seq<JByte>)
    ensures |r| == 2
    ensures Unsigned(r[0]) == (data / 256) % 256 && Unsigned(r[1]) == data % 256
  {
    [ToJByte(data / 256), ToJByte(data)]
  }

  /** writeBEUint16: position(iOut), then the high and the low byte. */
  method WriteBEUint16(header: ByteBuffer, iOut: int, data: int)
    requires header.Valid() && 0 <= iOut && iOut + 2 <= header.data.Length
    modifies header, header.data
    ensures header.Valid() && header.position == iOut + 2
    ensures header.data[..] == Splice(old(header.data[..]), iOut, BEBytes(data))
  {
    header.SetPosition(iOut);
    header.Put(ToJByte(data / 256));
    header.Put(ToJByte(data));
  }

  /** What formatHeader writes after the magic, offsets 6 to 15. */
  function HeaderFields(width: int, height: int): (r: seq<JByte>)
    requires IsInt(width) && IsInt(height)
    ensures |r| == HeaderSize - FormatOffset
  {
    BEBytes(RgbNoMipmaps) + BEBytes(RoundUp4(width)) + BEBytes(RoundUp4(height)) + BEBytes(width) + BEBytes(height)
  }

  /** The buffer after formatHeader: the magic at the old position, then the fields at their offsets. */
  function FormattedHeader(prev: seq<JByte>, pos: int, width: int, height: int): (r: seq<JByte>)
    requires IsInt(width) && IsInt(height) && 0 <= pos && pos + |Magic| <= |prev| && HeaderSize <= |prev|
    ensures |r| == |prev|
  {
    Splice(Splice(prev, pos, Magic), FormatOffset, HeaderFields(width, height))
  }

  /** formatHeader: the magic is put at the position, the five fields at their offsets. */
  method FormatHeader(header: ByteBuffer, width: int, height: int)
    requires IsInt(width) && IsInt(height)
    requires header.Valid() && header.position + |Magic| <= header.data.Length && HeaderSize <= header.data.Length
    modifies header, header.data
    ensures header.Valid() && header.position == HeaderSize
    ensures header.data[..] == FormattedHeader(old(header.data[..]), old(header.position), width, height)
  {
    ghost var prev := header.data[..];
    ghost var pos := header.position;
    header.PutAll(Magic);
    var encodedWidth := RoundUp4(width);
    var encodedHeight := RoundUp4(height);
    ghost var s0 := header.data[..];
    WriteBEUint16(header, FormatOffset, RgbNoMipmaps);
    WriteBEUint16(header, EncodedWidthOffset, encodedWidth);
    WriteBEUint16(header, EncodedHeightOffset, encodedHeight);
    WriteBEUint16(header, WidthOffset, width);
    WriteBEUint16(header, HeightOffset, height);
    FieldsWritten(s0, width, height, header.data[..]);
  }

  /** The five writeBEUint16 calls together write HeaderFields. */
  lemma FieldsWritten(s0: seq<JByte>, width: int, height: int, s: seq<JByte>)
    requires IsInt(width) && IsInt(height) && HeaderSize <= |s0|
    requires s == Splice(Splice(Splice(Splice(Splice(s0,
                FormatOffset, BEBytes(RgbNoMipmaps)),
                EncodedWidthOffset, BEBytes(RoundUp4(width))),
                EncodedHeightOffset, BEBytes(RoundUp4(height))),
                WidthOffset, BEBytes(width)),
                HeightOffset, BEBytes(height))
    ensures s == Splice(s0, FormatOffset, HeaderFields(width, height))
  {
  }

  // ---------------------------------------------------------------- reading

  /** A Java int as its 32 bits (two's complement). */
  function IntBits(x: int): (b: bv32)
    requires IsInt(x)
  {
    (if x < 0 then x + 0x1_0000_0000 else x) as bv32
  }

  /** 32 bits as a Java int. */
  function BitsInt(b: bv32): (x: int)
    ensures IsInt(x) && (x - b as int) % 0x1_0000_0000 == 0
  {
    if b as int <= IntMax then b as int else b as int - 0x1_0000_0000
  }

  /**
   * (hi << 8) | lo on two bytes promoted to int.  Promotion sign-extends:
   * a negative lo has bits 8 to 31 set, which swallows hi; otherwise the
   * two operands have no bit in common and the OR is a sum.
   */
  function ByteOr(hi: JByte, lo: JByte): (r: int)
    ensures IsInt(r) && -0x8000 <= r < 0x8000
    ensures lo < 0 ==> r == lo as int
    ensures lo >= 0 ==> r % 256 == lo as int && r / 256 == hi as int
  {
    if lo < 0 then lo as int else hi as int * 256 + lo as int
  }

  /** ByteOr agrees with the 32-bit OR on one pair of bytes of each sign combination. */
  lemma ByteOrBits()
    ensures BitsInt((IntBits(0) << 8) | IntBits(-128)) == ByteOr(0, -128)
    ensures BitsInt((IntBits(18) << 8) | IntBits(52)) == ByteOr(18, 52)
    ensures BitsInt((IntBits(-2) << 8) | IntBits(52)) == ByteOr(-2, 52)
    ensures BitsInt((IntBits(-2) << 8) | IntBits(-3)) == ByteOr(-2, -3)
  {
  }

  /** readBEUint16 as written: (get(i) << 8) | get(i + 1), with no masking of either byte. */
  function ReadBEUint16AsWritten(s: seq<JByte>, i: int): (r: int)
    requires 0 <= i && i + 1 < |s|
    ensures -0x8000 <= r < 0x8000
  {
    ByteOr(s[i], s[i + 1])
  }

  /** The big-endian unsigned 16-bit value at i: readBEUint16 with the bytes masked by 0xff. */
  function ReadBEUint16(s: seq<JByte>, i: int): (r: int)
    requires 0 <= i && i + 1 < |s|
    ensures 0 <= r < 0x1_0000
    ensures r / 256 == Unsigned(s[i]) && r % 256 == Unsigned(s[i + 1])
  {
    Unsigned(s[i]) * 256 + Unsigned(s[i + 1])
  }

  /**
   * The read as written gives the unsigned value exactly when neither byte
   * has its top bit set; otherwise it gives a negative number.
   */
  lemma AsWrittenReadExact(s: seq<JByte>, i: int)
    requires 0 <= i && i + 1 < |s|
    ensures ReadBEUint16AsWritten(s, i) == ReadBEUint16(s, i) <==> s[i] >= 0 && s[i + 1] >= 0
    ensures ReadBEUint16AsWritten(s, i) < 0 <==> s[i] < 0 || s[i + 1] < 0
  {
  }

  /** The comparison isValid makes once the five fields are read. */
  predicate FieldsValid(format: int, encodedWidth: int, encodedHeight: int, width: int, height: int) {
    format == RgbNoMipmaps &&
    encodedWidth >= width && encodedWidth - width < 4 &&
    encodedHeight >= height && encodedHeight - height < 4
  }

  /** isValid as written, with readBEUint16's sign extension. */
  predicate HeaderValidAsWritten(s: seq<JByte>)
    requires HeaderSize <= |s|
  {
    s[..|Magic|] == Magic &&
    FieldsValid(ReadBEUint16AsWritten(s, FormatOffset), ReadBEUint16AsWritten(s, EncodedWidthOffset),
                ReadBEUint16AsWritten(s, EncodedHeightOffset), ReadBEUint16AsWritten(s, WidthOffset),
                ReadBEUint16AsWritten(s, HeightOffset))
  }

  /** isValid as intended, with the fields read as unsigned 16-bit values. */
  predicate HeaderValid(s: seq<JByte>)
    requires HeaderSize <= |s|
  {
    s[..|Magic|] == Magic &&
    FieldsValid(ReadBEUint16(s, FormatOffset), ReadBEUint16(s, EncodedWidthOffset),
                ReadBEUint16(s, EncodedHeightOffset), ReadBEUint16(s, WidthOffset), ReadBEUint16(s, HeightOffset))
  }

  /** memcmp: true as soon as one of the first length bytes differs from b. */
  method Memcmp(header: ByteBuffer, b: seq<JByte>, length: int) returns (differs: bool)
    requires 0 <= length <= |b| && length <= header.data.Length
    ensures differs <==> header.data[..length] != b[..length]
  {
    var i := 0;
    while i < length
      invariant 0 <= i <= length && header.data[..i] == b[..i]
    {
      if header.data[i] != b[i] {
        assert header.data[..length][i] != b[..length][i];
        return true;
      }
      assert header.data[..i + 1] == header.data[..i] + [header.data[i]];
      assert b[..i + 1] == b[..i] + [b[i]];
      i := i + 1;
    }
    return false;
  }

  /** isValid: the magic, then the five fields read with readBEUint16 as written. */
  method IsValid(header: ByteBuffer) returns (valid: bool)
    requires HeaderSize <= header.data.Length
    ensures valid == HeaderValidAsWritten(header.data[..])
  {
    var differs := Memcmp(header, Magic, |Magic|);
    if differs {
      return false;
    }
    var s := header.data[..];
    var format := ReadBEUint16AsWritten(s, FormatOffset);
    var encodedWidth := ReadBEUint16AsWritten(s, EncodedWidthOffset);
    var encodedHeight := ReadBEUint16AsWritten(s, EncodedHeightOffset);
    var width := ReadBEUint16AsWritten(s, WidthOffset);
    var height := ReadBEUint16AsWritten(s, HeightOffset);
    return format == RgbNoMipmaps &&
           encodedWidth >= width && encodedWidth - width < 4 &&
           encodedHeight >= height && encodedHeight - height < 4;
  }

  /** getWidth as written: negative when either byte of the stored width is 0x80 or above. */
  function GetWidth(s: seq<JByte>): (w: int)
    requires HeaderSize <= |s|
    ensures w < 0 <==> s[WidthOffset] < 0 || s[WidthOffset + 1] < 0
    ensures w >= 0 ==> w == ReadBEUint16(s, WidthOffset)
  {
    AsWrittenReadExact(s, WidthOffset);
    ReadBEUint16AsWritten(s, WidthOffset)
  }

  /** getHeight as written. */
  function GetHeight(s: seq<JByte>): (h: int)
    requires HeaderSize <= |s|
    ensures h < 0 <==> s[HeightOffset] < 0 || s[HeightOffset + 1] < 0
    ensures h >= 0 ==> h == ReadBEUint16(s, HeightOffset)
  {
    AsWrittenReadExact(s, HeightOffset);
    ReadBEUint16AsWritten(s, HeightOffset)
  }

  /** getWidth as intended: the stored width as an unsigned 16-bit value. */
  function GetWidthIntended(s: seq<JByte>): (w: int)
    requires HeaderSize <= |s|
    ensures 0 <= w < 0x1_0000
    ensures w / 256 == Unsigned(s[WidthOffset]) && w % 256 == Unsigned(s[WidthOffset + 1])
  {
    ReadBEUint16(s, WidthOffset)
  }

  /** getHeight as intended. */
  function GetHeightIntended(s: seq<JByte>): (h: int)
    requires HeaderSize <= |s|
    ensures 0 <= h < 0x1_0000
    ensures h / 256 == Unsigned(s[HeightOffset]) && h % 256 == Unsigned(s[HeightOffset + 1])
  {
    ReadBEUint16(s, HeightOffset)
  }

  /** Writing a value big-endian and reading it back gives it modulo 2^16. */
  lemma BERoundTrip(s: seq<JByte>, i: int, data: int)
    requires 0 <= i && i + 2 <= |s| && s[i..i + 2] == BEBytes(data)
    ensures ReadBEUint16(s, i) == data % 0x1_0000
  {
    assert s[i] == BEBytes(data)[0] && s[i + 1] == BEBytes(data)[1];
    DivModSplit(data);
  }

  /** The same for a value that fits in 16 bits: it reads back unchanged. */
  lemma BERoundTripSmall(s: seq<JByte>, i: int, data: int)
    requires 0 <= i && i + 2 <= |s| && s[i..i + 2] == BEBytes(data) && 0 <= data < 0x1_0000
    ensures ReadBEUint16(s, i) == data
  {
    BERoundTrip(s, i, data);
  }

  lemma DivModSplit(data: int)
    ensures data % 0x1_0000 == ((data / 256) % 256) * 256 + data % 256
  {
    var q := data / 256;
    assert data == 256 * q + data % 256;
    assert q == 256 * (q / 256) + q % 256;
    assert data == 0x1_0000 * (q / 256) + (q % 256) * 256 + data % 256;
  }

  /** A header formatted at position 0 starts with the magic and the fields. */
  lemma FormattedStart(prev: seq<JByte>, width: int, height: int)
    requires IsInt(width) && IsInt(height) && HeaderSize <= |prev|
    ensures FormattedHeader(prev, 0, width, height)[..HeaderSize] == Magic + HeaderFields(width, height)
  {
  }

  /** The fields formatHeader writes, as their stored byte pairs. */
  lemma FieldsAt(s: seq<JByte>, width: int, height: int)
    requires IsInt(width) && IsInt(height)
    requires HeaderSize <= |s| && s[..HeaderSize] == Magic + HeaderFields(width, height)
    ensures s[FormatOffset..FormatOffset + 2] == BEBytes(RgbNoMipmaps)
    ensures s[EncodedWidthOffset..EncodedWidthOffset + 2] == BEBytes(RoundUp4(width))
    ensures s[EncodedHeightOffset..EncodedHeightOffset + 2] == BEBytes(RoundUp4(height))
    ensures s[WidthOffset..WidthOffset + 2] == BEBytes(width)
    ensures s[HeightOffset..HeightOffset + 2] == BEBytes(height)
    ensures s[..|Magic|] == Magic
  {
    var f := HeaderFields(width, height);
    assert s[FormatOffset..FormatOffset + 2] == f[0..2];
    assert s[EncodedWidthOffset..EncodedWidthOffset + 2] == f[2..4];
    assert s[EncodedHeightOffset..EncodedHeightOffset + 2] == f[4..6];
    assert s[WidthOffset..WidthOffset + 2] == f[6..8];
    assert s[HeightOffset..HeightOffset + 2] == f[8..10];
  }

  /**
   * A header written by formatHeader for a width and height below 2^16 - 3
   * passes the intended isValid, and the intended getWidth and getHeight
   * give them back.
   */
  lemma FormattedHeaderValid(s: seq<JByte>, width: int, height: int)
    requires 0 <= width <= 0xFFFC && 0 <= height <= 0xFFFC
    requires HeaderSize <= |s| && s[..HeaderSize] == Magic + HeaderFields(width, height)
    ensures HeaderValid(s) && GetWidthIntended(s) == width && GetHeightIntended(s) == height
  {
    FieldsAt(s, width, height);
    BERoundTripSmall(s, FormatOffset, RgbNoMipmaps);
    BERoundTripSmall(s, EncodedWidthOffset, RoundUp4(width));
    BERoundTripSmall(s, EncodedHeightOffset, RoundUp4(height));
    BERoundTripSmall(s, WidthOffset, width);
    BERoundTripSmall(s, HeightOffset, height);
  }

  /** Both bytes of v are below 0x80, so the read as written gives v back. */
  predicate SmallField(v: int) {
    0 <= v < 0x8000 && v % 256 < 128
  }

  /**
   * Where every stored byte is below 0x80 (width, height and their rounded
   * sizes all SmallField), the header passes isValid as written and getWidth
   * and getHeight as written give the sizes back.
   */
  lemma FormattedHeaderValidAsWritten(s: seq<JByte>, width: int, height: int)
    requires SmallField(width) && SmallField(height)
    requires SmallField(RoundUp4(width)) && SmallField(RoundUp4(height))
    requires HeaderSize <= |s| && s[..HeaderSize] == Magic + HeaderFields(width, height)
    ensures HeaderValidAsWritten(s) && GetWidth(s) == width && GetHeight(s) == height
  {
    FormattedHeaderValid(s, width, height);
    FieldsAt(s, width, height);
    AsWrittenReadExact(s, FormatOffset);
    AsWrittenReadExact(s, EncodedWidthOffset);
    AsWrittenReadExact(s, EncodedHeightOffset);
    AsWrittenReadExact(s, WidthOffset);
    AsWrittenReadExact(s, HeightOffset);
  }

  lemma Fields126()
    ensures HeaderFields(126, 4) == [0, 0, 0, -128, 0, 4, 0, 126, 0, 4]
  {
    assert RoundUp4(126) == 128 && RoundUp4(4) == 4;
    assert BEBytes(0) == [0, 0] && BEBytes(128) == [0, -128];
    assert BEBytes(4) == [0, 4] && BEBytes(126) == [0, 126];
  }

  /**
   * With the sign-extending read, the header formatHeader writes for width
   * 126 is rejected: encodedWidth 128 is stored as 0x00 0x80, which reads
   * back as -128.  The intended isValid accepts it.
   */
  lemma AsWrittenRejectsWidth126()
    ensures !HeaderValidAsWritten(Magic + HeaderFields(126, 4))
    ensures HeaderValid(Magic + HeaderFields(126, 4))
  {
    Fields126();
    var s: seq<JByte> := Magic + [0, 0, 0, -128, 0, 4, 0, 126, 0, 4];
    assert ReadBEUint16AsWritten(s, EncodedWidthOffset) == -128;
    assert ReadBEUint16AsWritten(s, WidthOffset) == 126;
    FormattedHeaderValid(s, 126, 4);
  }

  /** getWidth as written on the header for width 200: 0x00 0xC8 reads back as -56. */
  lemma AsWrittenWidth200()
    ensures GetWidth(Magic + HeaderFields(200, 4)) == -56
    ensures GetWidthIntended(Magic + HeaderFields(200, 4)) == 200
  {
    var s := Magic + HeaderFields(200, 4);
    FieldsAt(s, 200, 4);
    BERoundTripSmall(s, WidthOffset, 200);
  }
}
