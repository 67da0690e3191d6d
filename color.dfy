/**
 * Color.java: the packed colour int (alpha in bits 24-31, then red, green
 * and blue), the hexadecimal colour string of KML (alpha, blue, green, red
 * from the most significant digit down), and the mutable Color whose four
 * components are doubles, normally in [0, 1].
 */
module Colors {
  import opened JavaInt
  import opened JavaLang

  /** 0xFF & v: the low eight bits of an int, as a value in [0, 255]. */
  function LowByte(v: int): (r: int)
    ensures 0 <= r < 256 && (v - r) % 256 == 0
  {
    v % 256
  }

  /** makeColorInt(r, g, b): red in bits 16-23, green in 8-15, blue in 0-7, alpha bits zero. */
  function MakeColorInt3(r: int, g: int, b: int): (c: int)
    ensures 0 <= c < 0x100_0000
  {
    LowByte(r) * 0x1_0000 + LowByte(g) * 0x100 + LowByte(b)
  }

  /**
   * makeColorInt(r, g, b, a): as above with alpha in bits 24-31. The shift
   * (0xFF & a) << 24 leaves a negative int when the alpha byte is 128 or more.
   */
  function MakeColorInt(r: int, g: int, b: int, a: int): (c: int)
    ensures IsInt(c)
    ensures c < 0 <==> LowByte(a) >= 0x80
  {
    Wrap(LowByte(a) * 0x100_0000 + MakeColorInt3(r, g, b))
  }

  /** getColorIntRed: (colorInt >> 16) & 0xFF, an arithmetic shift. */
  function ColorIntRed(colorInt: int): (r: int)
    ensures 0 <= r < 256
  {
    (colorInt / 0x1_0000) % 256
  }

  /** getColorIntGreen: (colorInt >> 8) & 0xFF. */
  function ColorIntGreen(colorInt: int): (r: int)
    ensures 0 <= r < 256
  {
    (colorInt / 0x100) % 256
  }

  /** getColorIntBlue: colorInt & 0xFF. */
  function ColorIntBlue(colorInt: int): (r: int)
    ensures 0 <= r < 256
  {
    colorInt % 256
  }

  /** getColorIntAlpha: colorInt >>> 24, which shifts the unsigned 32-bit pattern. */
  function ColorIntAlpha(colorInt: int): (r: int)
    ensures 0 <= r < 256
  {
    (colorInt % 0x1_0000_0000) / 0x100_0000
  }

  lemma Split256(m: int, r: int)
    requires 0 <= r < 0x100
    ensures (m * 0x100 + r) / 0x100 == m && (m * 0x100 + r) % 0x100 == r
  {
  }

  lemma Split65536(m: int, r: int)
    requires 0 <= r < 0x1_0000
    ensures (m * 0x1_0000 + r) / 0x1_0000 == m
  {
  }

  lemma Split2p24(m: int, r: int)
    requires 0 <= r < 0x100_0000
    ensures (m * 0x100_0000 + r) / 0x100_0000 == m
  {
  }

  lemma Split2p32(m: int, r: int)
    requires 0 <= r < 0x1_0000_0000
    ensures (m * 0x1_0000_0000 + r) % 0x1_0000_0000 == r
  {
  }

  /** The int Wrap leaves is x itself or x - 2^32. */
  lemma WrapCases(x: int)
    requires 0 <= x < 0x1_0000_0000
    ensures Wrap(x) == x - (if x <= IntMax then 0 else 0x1_0000_0000)
  {
    Split2p32(if x <= IntMax then 0 else 1, x - (if x <= IntMax then 0 else 0x1_0000_0000) - IntMin);
  }

  /** The four getColorInt* read back the bytes makeColorInt(r, g, b, a) packed. */
  lemma MakeColorIntFields(r: int, g: int, b: int, a: int)
    ensures ColorIntRed(MakeColorInt(r, g, b, a)) == LowByte(r)
    ensures ColorIntGreen(MakeColorInt(r, g, b, a)) == LowByte(g)
    ensures ColorIntBlue(MakeColorInt(r, g, b, a)) == LowByte(b)
    ensures ColorIntAlpha(MakeColorInt(r, g, b, a)) == LowByte(a)
  {
    var ra, ga, ba, aa := LowByte(r), LowByte(g), LowByte(b), LowByte(a);
    var x := aa * 0x100_0000 + MakeColorInt3(r, g, b);
    var t := if x <= IntMax then 0 else 1;
    WrapCases(x);
    var c := MakeColorInt(r, g, b, a);
    assert c == x - t * 0x1_0000_0000;
    assert c == (aa * 0x100 + ra - t * 0x1_0000) * 0x1_0000 + (ga * 0x100 + ba);
    Split65536(aa * 0x100 + ra - t * 0x1_0000, ga * 0x100 + ba);
    Split256(aa - t * 0x100, ra);
    assert c == (aa * 0x1_0000 + ra * 0x100 + ga - t * 0x100_0000) * 0x100 + ba;
    Split256(aa * 0x1_0000 + ra * 0x100 + ga - t * 0x100_0000, ba);
    Split256(aa * 0x100 + ra - t * 0x1_0000, ga);
    Split2p32(-t, x);
    Split2p24(aa, MakeColorInt3(r, g, b));
  }

  /** makeColorInt(r, g, b) leaves the alpha byte zero and packs the other three. */
  lemma MakeColorInt3Fields(r: int, g: int, b: int)
    ensures ColorIntAlpha(MakeColorInt3(r, g, b)) == 0
    ensures MakeColorInt3(r, g, b) == MakeColorInt(r, g, b, 0)
    ensures ColorIntRed(MakeColorInt3(r, g, b)) == LowByte(r)
    ensures ColorIntGreen(MakeColorInt3(r, g, b)) == LowByte(g)
    ensures ColorIntBlue(MakeColorInt3(r, g, b)) == LowByte(b)
  {
    MakeColorIntFields(r, g, b, 0);
  }

  /** The bytes of an int: c = c3 * 2^24 + r * 2^16 + g * 2^8 + b with c3 a signed byte. */
  lemma IntBytes(c: int) returns (c3: int)
    requires IsInt(c)
    ensures -0x80 <= c3 < 0x80
    ensures c == c3 * 0x100_0000 + ColorIntRed(c) * 0x1_0000 + ColorIntGreen(c) * 0x100 + ColorIntBlue(c)
  {
    var b := c % 0x100;
    var c1 := c / 0x100;
    var g := c1 % 0x100;
    var c2 := c1 / 0x100;
    var r := c2 % 0x100;
    c3 := c2 / 0x100;
    assert c2 == c3 * 0x100 + r;
    assert c == c2 * 0x1_0000 + (g * 0x100 + b);
    Split65536(c2, g * 0x100 + b);
  }

  lemma UnsignedAlpha(c: int, c3: int, low: int)
    requires -0x80 <= c3 < 0x80 && 0 <= low < 0x100_0000 && c == c3 * 0x100_0000 + low
    ensures ColorIntAlpha(c) == LowByte(c3) && LowByte(c3) == if c3 >= 0 then c3 else c3 + 0x100
  {
    var alpha := if c3 >= 0 then c3 else c3 + 0x100;
    Split2p32(if c3 >= 0 then 0 else -1, alpha * 0x100_0000 + low);
    Split2p24(alpha, low);
  }

  lemma LowByteOfByte(v: int)
    requires 0 <= v < 0x100
    ensures LowByte(v) == v
  {
  }

  /** A 24-bit colour int has alpha 0 and is makeColorInt(r, g, b) of its own bytes. */
  lemma RgbRoundTrip(c: int)
    requires 0 <= c < 0x100_0000
    ensures ColorIntAlpha(c) == 0
    ensures MakeColorInt3(ColorIntRed(c), ColorIntGreen(c), ColorIntBlue(c)) == c
  {
    var c3 := IntBytes(c);
    var r, g, b := ColorIntRed(c), ColorIntGreen(c), ColorIntBlue(c);
    var low := r * 0x1_0000 + g * 0x100 + b;
    assert c3 == 0;
    UnsignedAlpha(c, c3, low);
    LowByteOfByte(r);
    LowByteOfByte(g);
    LowByteOfByte(b);
  }

  /** Going the other way: packing the four bytes of any int gives the int back. */
  lemma ColorIntRoundTrip(c: int)
    requires IsInt(c)
    ensures MakeColorInt(ColorIntRed(c), ColorIntGreen(c), ColorIntBlue(c), ColorIntAlpha(c)) == c
  {
    var c3 := IntBytes(c);
    var r, g, b := ColorIntRed(c), ColorIntGreen(c), ColorIntBlue(c);
    var low := r * 0x1_0000 + g * 0x100 + b;
    UnsignedAlpha(c, c3, low);
    var alpha := ColorIntAlpha(c);
    LowByteOfByte(r);
    LowByteOfByte(g);
    LowByteOfByte(b);
    LowByteOfByte(alpha);
    var x := alpha * 0x100_0000 + low;
    assert MakeColorInt(r, g, b, alpha) == Wrap(x);
    WrapCases(x);
  }

  /** Character.digit(ch, 16) for the ASCII hexadecimal digits. */
  function HexDigit(ch: char): (d: Option<int>)
    ensures d.Some? ==> 0 <= d.value < 16
    ensures d.Some? <==> '0' <= ch <= '9' || 'a' <= ch <= 'f' || 'A' <= ch <= 'F'
  {
    if '0' <= ch <= '9' then Some(ch as int - '0' as int)
    else if 'a' <= ch <= 'f' then Some(ch as int - 'a' as int + 10)
    else if 'A' <= ch <= 'F' then Some(ch as int - 'A' as int + 10)
    else None
  }

  predicate IsHex(t: string) {
    forall i :: 0 <= i < |t| ==> HexDigit(t[i]).Some?
  }

  function Pow16(n: nat): (p: nat)
    ensures p >= 1
  {
    if n == 0 then 1 else 16 * Pow16(n - 1)
  }

  /** The value of a string of hexadecimal digits, most significant first. */
  function HexValue(t: string): (v: nat)
    requires IsHex(t)
    ensures v < Pow16(|t|)
  {
    if t == [] then 0 else HexValue(t[..|t| - 1]) * 16 + HexDigit(t[|t| - 1]).value
  }

  const LongMin: int := -0x8000_0000_0000_0000
  const LongMax: int := 0x7FFF_FFFF_FFFF_FFFF

  /**
   * Long.parseLong(t, 16): an optional sign, at least one digit, and a value
   * in the range of a long; anything else is a NumberFormatException (None).
   */
  function ParseLong16(t: string): (r: Option<int>)
    ensures r.Some? ==> LongMin <= r.value <= LongMax
  {
    if |t| == 0 then None
    else
      var digits := if t[0] == '-' || t[0] == '+' then t[1..] else t;
      if |digits| == 0 || !IsHex(digits) then None
      else
        var v: int := if t[0] == '-' then -(HexValue(digits) as int) else HexValue(digits);
        if LongMin <= v <= LongMax then Some(v) else None
  }

  predicate HasHexPrefix(s: string) {
    |s| >= 2 && s[0] == '0' && (s[1] == 'x' || s[1] == 'X')
  }

  /**
   * What Color(String) hands to Long.parseLong: a leading '#' or "0x"/"0X"
   * is dropped, and any other string is read whole.
   */
  function ColorStringBody(s: string): (t: string)
    ensures |s| > 0 && s[0] == '#' ==> t == s[1..]
    ensures !(|s| > 0 && s[0] == '#') && HasHexPrefix(s) ==> t == s[2..]
    ensures !(|s| > 0 && s[0] == '#') && !HasHexPrefix(s) ==> t == s
  {
    if |s| > 0 && s[0] == '#' then s[1..]
    else if HasHexPrefix(s) then s[2..]
    else s
  }

  /** The four components of a Color, as a value. */
  datatype Rgba = Rgba(r: real, g: real, b: real, a: real)

  const Black: Rgba := Rgba(0.0, 0.0, 0.0, 1.0)
  const DarkGray: Rgba := Rgba(0.25, 0.25, 0.25, 1.0)
  const LightGray: Rgba := Rgba(0.753, 0.753, 0.753, 1.0)
  const White: Rgba := Rgba(1.0, 1.0, 1.0, 1.0)

  /** Color(int): each byte of the colour int divided by 255. */
  function IntComponents(colorInt: int): Rgba {
    Rgba(ColorIntRed(colorInt) as real / 255.0, ColorIntGreen(colorInt) as real / 255.0,
         ColorIntBlue(colorInt) as real / 255.0, ColorIntAlpha(colorInt) as real / 255.0)
  }

  /** Color(String) from the int i it parsed: red from the low byte, then green, blue, alpha. */
  function AbgrComponents(i: int): Rgba {
    Rgba((i % 256) as real / 255.0, ((i / 0x100) % 256) as real / 255.0,
         ((i / 0x1_0000) % 256) as real / 255.0, ((i / 0x100_0000) % 256) as real / 255.0)
  }

  /**
   * Color(String) on a non-null string: the low 32 bits of the parsed long,
   * in ABGR order, or WWUnrecognizedException when the body is not a long in
   * base 16.
   */
  function ParseColorString(s: string): (r: Outcome<Rgba>)
    ensures r.Return? <==> ParseLong16(ColorStringBody(s)).Some?
    ensures r.Throw? ==> r.exception == Unrecognized
  {
    match ParseLong16(ColorStringBody(s))
    case None => Throw(Unrecognized)
    case Some(l) => Return(AbgrComponents(Wrap(l % 0x1_0000_0000)))
  }

  /** Color(String) reads the bytes of the parsed int in the reverse of Color(int)'s order. */
  lemma AbgrIsReversed(i: int)
    requires IsInt(i)
    ensures AbgrComponents(i) == Rgba(ColorIntBlue(i) as real / 255.0, ColorIntGreen(i) as real / 255.0,
                                      ColorIntRed(i) as real / 255.0, ColorIntAlpha(i) as real / 255.0)
  {
    var c3 := IntBytes(i);
    var low := ColorIntRed(i) * 0x1_0000 + ColorIntGreen(i) * 0x100 + ColorIntBlue(i);
    Split2p24(c3, low);
    UnsignedAlpha(i, c3, low);
  }

  /** Appending digits shifts the value left by four bits per digit. */
  lemma {:induction false} HexValueAppend(x: string, y: string)
    requires IsHex(x) && IsHex(y)
    ensures IsHex(x + y) && HexValue(x + y) == HexValue(x) * Pow16(|y|) + HexValue(y)
  {
    assert IsHex(x + y) by {
      forall i | 0 <= i < |x + y|
        ensures HexDigit((x + y)[i]).Some?
      {
        if i >= |x| {
          assert (x + y)[i] == y[i - |x|];
        }
      }
    }
    if y == [] {
      assert x + y == x;
    } else {
      var n := |y|;
      var y' := y[..n - 1];
      assert (x + y)[..|x + y| - 1] == x + y';
      assert (x + y)[|x + y| - 1] == y[n - 1];
      assert IsHex(y') by {
        forall i | 0 <= i < |y'|
          ensures HexDigit(y'[i]).Some?
        {
          assert y'[i] == y[i];
        }
      }
      HexValueAppend(x, y');
      var d := HexDigit(y[n - 1]).value;
      calc {
        HexValue(x + y);
        HexValue(x + y') * 16 + d;
        (HexValue(x) * Pow16(n - 1) + HexValue(y')) * 16 + d;
        { MulAssoc16(HexValue(x), Pow16(n - 1)); }
        HexValue(x) * Pow16(n) + HexValue(y);
      }
    }
  }

  lemma HexValueAppendByte(x: string, y: string)
    requires IsHex(x) && IsHex(y) && |y| == 2
    ensures IsHex(x + y) && HexValue(x + y) == HexValue(x) * 0x100 + HexValue(y)
  {
    HexValueAppend(x, y);
    assert Pow16(2) == 0x100;
  }

  lemma MulAssoc16(a: int, b: int)
    ensures a * b * 16 == a * (16 * b)
  {
  }

  /** An eight-digit body is a long, and the '#' and "0x" prefixes do not change it. */
  lemma ParseEightDigits(t: string)
    requires |t| == 8 && IsHex(t)
    ensures ParseColorString(t) == ParseColorString("#" + t) == ParseColorString("0x" + t)
    ensures ParseColorString(t) == Return(AbgrComponents(Wrap(HexValue(t) % 0x1_0000_0000)))
  {
    assert HexDigit(t[0]).Some? && HexDigit(t[1]).Some?;
    assert ("#" + t)[1..] == t && ("0x" + t)[2..] == t;
    assert ColorStringBody(t) == t;
    assert Pow16(8) == 0x1_0000_0000;
    assert ParseLong16(t) == Some(HexValue(t));
  }

  /** The value of four two-digit groups, one byte each. */
  lemma HexValueBytes(aa: string, bb: string, gg: string, rr: string)
    requires |aa| == 2 && |bb| == 2 && |gg| == 2 && |rr| == 2
    requires IsHex(aa) && IsHex(bb) && IsHex(gg) && IsHex(rr)
    ensures IsHex(aa + bb + gg + rr) && |aa + bb + gg + rr| == 8
    ensures HexValue(aa + bb + gg + rr) == HexValue(aa) * 0x100_0000 + HexValue(bb) * 0x1_0000 + HexValue(gg) * 0x100 + HexValue(rr)
  {
    HexValueAppendByte(aa, bb);
    HexValueAppendByte(aa + bb, gg);
    HexValueAppendByte(aa + bb + gg, rr);
  }

  /**
   * A KML colour "aabbggrr" (eight hexadecimal digits, with or without '#'
   * or "0x") is alpha aa, blue bb, green gg and red rr, each over 255.
   */
  lemma ColorStringAbgr(aa: string, bb: string, gg: string, rr: string)
    requires |aa| == 2 && |bb| == 2 && |gg| == 2 && |rr| == 2
    requires IsHex(aa) && IsHex(bb) && IsHex(gg) && IsHex(rr)
    ensures ParseColorString(aa + bb + gg + rr) == ParseColorString("#" + (aa + bb + gg + rr))
         == ParseColorString("0x" + (aa + bb + gg + rr))
    ensures ParseColorString(aa + bb + gg + rr).Return?
    ensures ParseColorString(aa + bb + gg + rr).value
         == Rgba(HexValue(rr) as real / 255.0, HexValue(gg) as real / 255.0,
                 HexValue(bb) as real / 255.0, HexValue(aa) as real / 255.0)
  {
    var t := aa + bb + gg + rr;
    HexValueBytes(aa, bb, gg, rr);
    ParseEightDigits(t);
    var a, bl, gr, rd := HexValue(aa), HexValue(bb), HexValue(gg), HexValue(rr);
    ParsedAbgr(ParseColorString(t), HexValue(t), a, bl, gr, rd);
  }

  lemma ParsedAbgr(parsed: Outcome<Rgba>, v: int, a: int, bl: int, gr: int, rd: int)
    requires 0 <= a < 0x100 && 0 <= bl < 0x100 && 0 <= gr < 0x100 && 0 <= rd < 0x100
    requires v == a * 0x100_0000 + bl * 0x1_0000 + gr * 0x100 + rd
    requires parsed == Return(AbgrComponents(Wrap(v % 0x1_0000_0000)))
    ensures parsed == Return(Rgba(rd as real / 255.0, gr as real / 255.0, bl as real / 255.0, a as real / 255.0))
  {
    AbgrOfBytes(a, bl, gr, rd);
  }

  /** The components Color(String) gives the bytes a, b, g, r of a 32-bit value, most significant first. */
  lemma AbgrOfBytes(a: int, bl: int, gr: int, rd: int)
    requires 0 <= a < 0x100 && 0 <= bl < 0x100 && 0 <= gr < 0x100 && 0 <= rd < 0x100
    ensures AbgrComponents(Wrap((a * 0x100_0000 + bl * 0x1_0000 + gr * 0x100 + rd) % 0x1_0000_0000))
         == Rgba(rd as real / 255.0, gr as real / 255.0, bl as real / 255.0, a as real / 255.0)
  {
    var v := a * 0x100_0000 + bl * 0x1_0000 + gr * 0x100 + rd;
    Split2p32(0, v);
    LowByteOfByte(a);
    LowByteOfByte(bl);
    LowByteOfByte(gr);
    LowByteOfByte(rd);
    var i := MakeColorInt(bl, gr, rd, a);
    assert Wrap(v % 0x1_0000_0000) == i;
    MakeColorIntFields(bl, gr, rd, a);
    AbgrIsReversed(i);
  }

  /** Strings with no digits, or with a character that is not a digit, are WWUnrecognizedException. */
  lemma ColorStringRejects(s: string, k: int)
    requires 0 <= k < |ColorStringBody(s)| && HexDigit(ColorStringBody(s)[k]).None?
    requires k > 0 || (ColorStringBody(s)[0] != '-' && ColorStringBody(s)[0] != '+')
    ensures ParseColorString(s) == Throw(Unrecognized)
  {
    var t := ColorStringBody(s);
    var digits := if t[0] == '-' || t[0] == '+' then t[1..] else t;
    var j := if t[0] == '-' || t[0] == '+' then k - 1 else k;
    assert digits[j] == t[k];
  }

  /** "#", "0x" and "" leave nothing for parseLong. */
  lemma EmptyColorStrings()
    ensures ParseColorString("") == Throw(Unrecognized)
    ensures ParseColorString("#") == Throw(Unrecognized)
    ensures ParseColorString("0X") == Throw(Unrecognized)
  {
  }

  /** The mutable colour of Color.java. */
  class Color {
    var r: real
    var g: real
    var b: real
    var a: real

    function Components(): Rgba
      reads this
    {
      Rgba(r, g, b, a)
    }

    /** Color(): black components and the field default a = 1. */
    constructor ()
      ensures Components() == Rgba(0.0, 0.0, 0.0, 1.0)
    {
      r, g, b, a := 0.0, 0.0, 0.0, 1.0;
    }

    /** Color(r, g, b): opaque. */
    constructor FromRgb(r: real, g: real, b: real)
      ensures Components() == Rgba(r, g, b, 1.0)
    {
      this.r, this.g, this.b, this.a := r, g, b, 1.0;
    }

    /** Color(r, g, b, a). */
    constructor FromRgba(c: Rgba)
      ensures Components() == c
    {
      r, g, b, a := c.r, c.g, c.b, c.a;
    }

    /** Color(int). */
    constructor FromColorInt(colorInt: int)
      ensures Components() == IntComponents(colorInt)
    {
      var c := IntComponents(colorInt);
      r, g, b, a := c.r, c.g, c.b, c.a;
    }

    /** Color(int, boolean): without alpha the colour is opaque. */
    constructor FromColorIntAlpha(colorInt: int, hasAlpha: bool)
      ensures Components() == if hasAlpha then IntComponents(colorInt) else IntComponents(colorInt).(a := 1.0)
    {
      var c := IntComponents(colorInt);
      r, g, b := c.r, c.g, c.b;
      a := if hasAlpha then c.a else 1.0;
    }

    /** Color(Color): a copy, or IllegalArgumentException for null. */
    static method Copy(color: Color?) returns (result: Outcome<Color>)
      ensures color == null ==> result == Throw(IllegalArgument)
      ensures color != null ==> result.Return? && fresh(result.value) && result.value.Components() == color.Components()
    {
      if color == null {
        return Throw(IllegalArgument);
      }
      var c := new Color.FromRgba(color.Components());
      return Return(c);
    }

    /** Color(String): IllegalArgumentException for null, otherwise ParseColorString. */
    static method FromString(colorString: Option<string>) returns (result: Outcome<Color>)
      ensures colorString.None? ==> result == Throw(IllegalArgument)
      ensures colorString.Some? && ParseColorString(colorString.value).Throw? ==>
                result == Throw(ParseColorString(colorString.value).exception)
      ensures colorString.Some? && ParseColorString(colorString.value).Return? ==>
                result.Return? && fresh(result.value) && result.value.Components() == ParseColorString(colorString.value).value
    {
      if colorString.None? {
        return Throw(IllegalArgument);
      }
      var parsed := ParseColorString(colorString.value);
      if parsed.Throw? {
        return Throw(parsed.exception);
      }
      var c := new Color.FromRgba(parsed.value);
      return Return(c);
    }

    /** set(Color): copies all four components; null throws and changes nothing. */
    method Set(color: Color?) returns (status: Status)
      modifies this
      ensures color == null ==> status == Threw(IllegalArgument) && Components() == old(Components())
      ensures color != null ==> status == Completed && Components() == old(color.Components())
    {
      if color == null {
        return Threw(IllegalArgument);
      }
      r, g, b, a := color.r, color.g, color.b, color.a;
      return Completed;
    }

    /** set(r, g, b): alpha unchanged. */
    method SetRgb(r: real, g: real, b: real)
      modifies this
      ensures Components() == Rgba(r, g, b, old(a))
    {
      this.r, this.g, this.b := r, g, b;
    }

    /** set(r, g, b, a). */
    method SetRgba(c: Rgba)
      modifies this
      ensures Components() == c
    {
      r, g, b, a := c.r, c.g, c.b, c.a;
    }

    /** set(int). */
    method SetColorInt(colorInt: int)
      modifies this
      ensures Components() == IntComponents(colorInt)
    {
      var c := IntComponents(colorInt);
      r, g, b, a := c.r, c.g, c.b, c.a;
    }

    /** set(int, boolean): unlike Color(int, false), leaves alpha as it was. */
    method SetColorIntAlpha(colorInt: int, hasAlpha: bool)
      modifies this
      ensures Components() == if hasAlpha then IntComponents(colorInt) else IntComponents(colorInt).(a := old(a))
    {
      var c := IntComponents(colorInt);
      r, g, b := c.r, c.g, c.b;
      if hasAlpha {
        a := c.a;
      }
    }
  }
}
