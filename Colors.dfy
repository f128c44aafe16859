/**
 * The colour type of the rasterizer (src/color.rs): three byte channels,
 * a clamping constructor, packing into and out of a 24-bit integer,
 * parsing of "#rrggbb" strings, and the saturating blend modes.
 *
 * Rust's fixed-width integers are int subset types here, so every
 * intermediate value the source keeps in a `u16` or `i16` is checked to
 * fit that type.  The packed form uses `<<`, `>>`, `&` and `|` on fields
 * that never overlap, which is the same as multiplying, dividing, taking
 * remainders and adding; the model uses the arithmetic form.
 */
module Colors {
  import opened Wrappers
  import opened Arithmetic

  type u8 = x: int | 0 <= x < 0x100
  type i16 = x: int | -0x8000 <= x < 0x8000
  type u16 = x: int | 0 <= x < 0x1_0000
  type i32 = x: int | -0x8000_0000 <= x < 0x8000_0000
  type u32 = x: int | 0 <= x < 0x1_0000_0000

  /** An RGB triple of bytes. */
  datatype Color = Color(r: u8, g: u8, b: u8)

  const Black: Color := Color(0, 0, 0)
  const White: Color := Color(255, 255, 255)

  function Min(a: int, b: int): int { if a <= b then a else b }
  function Max(a: int, b: int): int { if a <= b then b else a }
  function Dist(a: int, b: int): nat { if a <= b then b - a else a - b }

  // ---------------------------------------------------------------------
  // Construction and packing
  // ---------------------------------------------------------------------

  /** `v.clamp(0, 255)`: the byte nearest to `v`. */
  function Clamp(v: int): (c: u8)
    ensures forall y: u8 :: Dist(v, c) <= Dist(v, y)
    ensures 0 <= v <= 255 ==> c == v
  {
    if v < 0 then 0 else if v > 255 then 255 else v
  }

  /** `Color::new`: each channel saturates into [0, 255] instead of wrapping. */
  function New(r: i32, g: i32, b: i32): (c: Color)
    ensures 0 <= r <= 255 ==> c.r == r
    ensures 0 <= g <= 255 ==> c.g == g
    ensures 0 <= b <= 255 ==> c.b == b
    ensures (r < 0 ==> c.r == 0) && (r > 255 ==> c.r == 255)
    ensures (g < 0 ==> c.g == 0) && (g > 255 ==> c.g == 255)
    ensures (b < 0 ==> c.b == 0) && (b > 255 ==> c.b == 255)
  {
    Color(Clamp(r), Clamp(g), Clamp(b))
  }

  /** `Color::from_hex`: bits 16..23 are red, 8..15 green, 0..7 blue. */
  function FromHex(hex: u32): (c: Color)
    ensures ToHex(c) == hex % 0x100_0000
  {
    SplitBytes(hex);
    New((hex / 0x1_0000) % 0x100, (hex / 0x100) % 0x100, hex % 0x100)
  }

  /** `Color::to_hex`: the 24-bit packed form `0xRRGGBB`. */
  function ToHex(c: Color): (h: u32)
    ensures h < 0x100_0000
  {
    c.r * 0x1_0000 + c.g * 0x100 + c.b
  }

  lemma FromHexToHex(c: Color)
    ensures FromHex(ToHex(c)) == c
  {
    var h := ToHex(c);
    DivModUnique(h, 0x1_0000, c.r, c.g * 0x100 + c.b);
    DivModUnique(c.r, 0x100, 0, c.r);
    DivModUnique(h, 0x100, c.r * 0x100 + c.g, c.b);
    DivModUnique(c.r * 0x100 + c.g, 0x100, c.r, c.g);
  }

  /** The three low bytes of `h`, reassembled, are `h` without its top byte. */
  lemma SplitBytes(h: nat)
    ensures (h / 0x1_0000) % 0x100 * 0x1_0000 + (h / 0x100) % 0x100 * 0x100 + h % 0x100 == h % 0x100_0000
  {
    var q1, b := h / 0x100, h % 0x100;
    var q2, g := q1 / 0x100, q1 % 0x100;
    var q3, r := q2 / 0x100, q2 % 0x100;
    assert h == 0x1_0000 * q2 + 0x100 * g + b;
    assert h / 0x1_0000 == q2;
    assert h == 0x100_0000 * q3 + (0x1_0000 * r + 0x100 * g + b);
  }

  /** Distinct colours pack to distinct integers. */
  lemma ToHexInjective(a: Color, b: Color)
    ensures ToHex(a) == ToHex(b) <==> a == b
  {
    if ToHex(a) == ToHex(b) {
      FromHexToHex(a);
      FromHexToHex(b);
    }
  }

  // ---------------------------------------------------------------------
  // Parsing "#rrggbb"
  // ---------------------------------------------------------------------

  const LengthError: string := "Hex string must be exactly 6 characters long"
  const ParseError: string := "Failed to parse hex string"

  /** `str::trim_start_matches('#')`: drops every leading '#'. */
  function TrimStartHashes(s: string): (t: string)
    ensures |t| <= |s| && t == s[|s| - |t|..]
    ensures forall i :: 0 <= i < |s| - |t| ==> s[i] == '#'
    ensures t == [] || t[0] != '#'
  {
    if |s| > 0 && s[0] == '#' then TrimStartHashes(s[1..]) else s
  }

  /** Number of bytes of the UTF-8 encoding of one character. */
  function CharUtf8Len(ch: char): nat
  {
    if ch as int < 0x80 then 1
    else if ch as int < 0x800 then 2
    else if ch as int < 0x1_0000 then 3
    else 4
  }

  predicate IsAscii(s: string)
  {
    forall i :: 0 <= i < |s| ==> s[i] as int < 0x80
  }

  /** `str::len`, which counts UTF-8 bytes rather than characters. */
  function Utf8Len(s: string): (n: nat)
    ensures n >= |s|
    ensures n == |s| <==> IsAscii(s)
  {
    if s == [] then 0 else CharUtf8Len(s[0]) + Utf8Len(s[1..])
  }

  /** `char::to_digit(16)`. */
  function HexDigitValue(ch: char): (d: Option<nat>)
    ensures d.Some? ==> d.value < 16 && ch as int < 0x80
  {
    if '0' <= ch <= '9' then Some(ch as int - '0' as int)
    else if 'a' <= ch <= 'f' then Some(ch as int - 'a' as int + 10)
    else if 'A' <= ch <= 'F' then Some(ch as int - 'A' as int + 10)
    else None
  }

  predicate IsHexDigit(ch: char)
  {
    HexDigitValue(ch).Some?
  }

  function Pow16(k: nat): (p: nat)
    ensures p > 0
  {
    if k == 0 then 1 else 16 * Pow16(k - 1)
  }

  /** The digit loop of `from_str_radix`: left to right, `acc * 16 + digit`. */
  function ParseHexDigits(s: string): (r: Option<nat>)
    ensures r.Some? <==> forall i :: 0 <= i < |s| ==> IsHexDigit(s[i])
    ensures r.Some? ==> r.value < Pow16(|s|)
  {
    if s == [] then Some(0)
    else
      match ParseHexDigits(s[..|s| - 1])
      case None => None
      case Some(v) =>
        match HexDigitValue(s[|s| - 1])
        case None => None
        case Some(d) => Some(v * 16 + d)
  }

  /**
   * `u32::from_str_radix(s, 16)`: an empty string fails, a lone sign
   * fails, one leading '+' is accepted, and the value must fit in 32 bits.
   * A leading '-' is not stripped for an unsigned type, so it fails as a
   * non-digit.
   */
  function FromStrRadix16(s: string): (r: Option<u32>)
    ensures r.Some? ==> SignedHexText(s)
    ensures r.Some? ==> r.value < Pow16(|s|)
  {
    if s == [] then None
    else if (s[0] == '+' || s[0] == '-') && |s| == 1 then None
    else
      var digits := if s[0] == '+' then s[1..] else s;
      match ParseHexDigits(digits)
      case None => None
      case Some(v) =>
        if v < 0x1_0000_0000 then
          PowMonotone(|digits|, |s|);
          Some(v)
        else None
  }

  /** `Color::from_hex_str`. */
  function FromHexStr(s: string): (r: Result<Color, string>)
    ensures r.Ok? ==> HexBody(TrimStartHashes(s))
    ensures r.Err? ==> r.error == LengthError || r.error == ParseError
  {
    var t := TrimStartHashes(s);
    if Utf8Len(t) != 6 then Err(LengthError)
    else
      match FromStrRadix16(t)
      case None => Err(ParseError)
      case Some(v) =>
        SignedHexTextIsAscii(t);
        Ok(FromHex(v))
  }

  /** What `from_str_radix` accepts: a hex digit or a '+', then hex digits only. */
  predicate SignedHexText(t: string)
  {
    && |t| >= 1
    && (IsHexDigit(t[0]) || (t[0] == '+' && |t| >= 2))
    && forall i :: 1 <= i < |t| ==> IsHexDigit(t[i])
  }

  /** The text `from_hex_str` accepts once the leading '#'s are gone. */
  predicate HexBody(t: string)
  {
    |t| == 6 && SignedHexText(t)
  }

  lemma SignedHexTextIsAscii(t: string)
    requires SignedHexText(t)
    ensures IsAscii(t)
  {
    forall i | 0 <= i < |t| ensures t[i] as int < 0x80 {
      if i > 0 || t[0] != '+' {
        assert IsHexDigit(t[i]);
      }
    }
  }

  /** Up to eight characters, `from_str_radix` fails only on text that is not signed hex. */
  lemma FromStrRadix16Accepts(t: string)
    requires |t| <= 8
    ensures FromStrRadix16(t).Some? <==> SignedHexText(t)
  {
    if t != [] {
      var digits := if t[0] == '+' then t[1..] else t;
      if ParseHexDigits(digits).Some? {
        assert Pow16(8) == 0x1_0000_0000;
        PowMonotone(|digits|, 8);
        if t[0] != '+' {
          assert IsHexDigit(digits[0]);
        } else if |t| == 1 {
          assert FromStrRadix16(t).None?;
        }
        forall i | 1 <= i < |t| ensures IsHexDigit(t[i]) {
          if t[0] == '+' { assert t[i] == digits[i - 1]; } else { assert t[i] == digits[i]; }
        }
      }
      if SignedHexText(t) {
        forall i | 0 <= i < |digits| ensures IsHexDigit(digits[i]) {
          if t[0] == '+' { assert digits[i] == t[i + 1]; } else { assert digits[i] == t[i]; }
        }
      }
    }
  }

  lemma PowMonotone(j: nat, k: nat)
    requires j <= k
    ensures Pow16(j) <= Pow16(k)
  {
  }

  /** `from_hex_str` succeeds exactly on six hex digits, or '+' and five, after the '#'s. */
  lemma FromHexStrAccepts(s: string)
    ensures FromHexStr(s).Ok? <==> HexBody(TrimStartHashes(s))
    ensures !HexBody(TrimStartHashes(s)) && Utf8Len(TrimStartHashes(s)) == 6 ==> FromHexStr(s) == Err(ParseError)
    ensures Utf8Len(TrimStartHashes(s)) != 6 ==> FromHexStr(s) == Err(LengthError)
  {
    var t := TrimStartHashes(s);
    if Utf8Len(t) == 6 {
      FromStrRadix16Accepts(t);
      if SignedHexText(t) {
        SignedHexTextIsAscii(t);
      }
    }
    if HexBody(t) {
      SignedHexTextIsAscii(t);
      FromStrRadix16Accepts(t);
    }
  }

  /** Lower-case hex digit for a value below 16. */
  function DigitChar(d: nat): (ch: char)
    requires d < 16
    ensures HexDigitValue(ch) == Some(d)
  {
    if d < 10 then ('0' as int + d) as char else ('a' as int + d - 10) as char
  }

  /** The last `k` hex digits of `n`, most significant first (`{:0k x}`). */
  function HexDigits(n: nat, k: nat): (s: string)
    ensures |s| == k
  {
    if k == 0 then [] else HexDigits(n / 16, k - 1) + [DigitChar(n % 16)]
  }

  /** Parsing undoes printing for numbers that fit in `k` digits. */
  lemma {:induction false} ParseHexDigitsInverse(n: nat, k: nat)
    requires n < Pow16(k)
    ensures ParseHexDigits(HexDigits(n, k)) == Some(n)
  {
    if k > 0 {
      var s := HexDigits(n, k);
      assert s[..|s| - 1] == HexDigits(n / 16, k - 1);
      assert s[|s| - 1] == DigitChar(n % 16);
      ParseHexDigitsInverse(n / 16, k - 1);
    }
  }

  /**
   * Any run of '#'s in front of a text that does not start with '#' is
   * removed whole: the postcondition of `TrimStartHashes` leaves no other
   * suffix.
   */
  lemma TrimLeadingHashes(hashes: nat, t: string)
    requires t == [] || t[0] != '#'
    ensures TrimStartHashes(seq(hashes, _ => '#') + t) == t
  {
    var s := seq(hashes, _ => '#') + t;
    var r := TrimStartHashes(s);
    assert |s| == hashes + |t|;
    if t != [] {
      assert s[hashes] == t[0];
    }
    assert |r| == |t|;
    assert r == s[hashes..];
    assert s[hashes..] == t;
  }

  /** Any number of '#'s followed by the six hex digits of `c` parses back to `c`. */
  lemma FromHexStrRoundTrip(c: Color, hashes: nat)
    ensures FromHexStr(seq(hashes, _ => '#') + HexDigits(ToHex(c), 6)) == Ok(c)
  {
    var digits := HexDigits(ToHex(c), 6);
    assert Pow16(6) == 0x100_0000;
    ParseHexDigitsInverse(ToHex(c), 6);
    assert IsHexDigit(digits[0]) && digits[0] != '#' && digits[0] != '+';
    TrimLeadingHashes(hashes, digits);
    assert SignedHexText(digits);
    SignedHexTextIsAscii(digits);
    assert Utf8Len(digits) == 6;
    assert FromStrRadix16(digits) == Some(ToHex(c));
    FromHexToHex(c);
  }

  // ---------------------------------------------------------------------
  // Predicates and blend modes, one channel at a time
  // ---------------------------------------------------------------------

  /** `Color::is_black`. */
  function IsBlack(c: Color): (black: bool)
    ensures black <==> c == Black
  {
    c.r == 0 && c.g == 0 && c.b == 0
  }

  /** `Color::is_equal`: channel-wise equality. */
  function IsEqual(a: Color, b: Color): (eq: bool)
    ensures eq <==> a == b
  {
    a.r == b.r && a.g == b.g && a.b == b.b
  }

  /** `u8::saturating_add`, used by the `+` operator. */
  function SaturatingAdd(a: u8, b: u8): u8
  {
    if a + b > 255 then 255 else a + b
  }

  /** `(a as u16 + b as u16).min(255) as i32`, used by `blend_add`. */
  function AddChannel(a: u8, b: u8): i32
  {
    var sum: u16 := a + b;
    Min(sum, 255)
  }

  /** `(a as i16 - b as i16).max(0).min(255) as i32`, used by `blend_subtract`. */
  function SubtractChannel(a: u8, b: u8): i32
  {
    var diff: i16 := a - b;
    Min(Max(diff, 0), 255)
  }

  /** `(a as i16 - b as i16).clamp(0, 255) as u8`, used by the `-` operator. */
  function SubChannel(a: u8, b: u8): u8
  {
    var diff: i16 := a - b;
    Clamp(diff)
  }

  /** `255 - ((255 - a as u16) * (255 - b as u16) / 255) as i32`, used by `blend_screen`. */
  function ScreenChannel(a: u8, b: u8): i32
  {
    MulBounded(255 - a, 255 - b, 255);
    var product: u16 := (255 - a) * (255 - b);
    255 - product / 255
  }

  /** `blend_multiply` on one channel: the float product over 255, truncated. */
  function MultiplyChannel(a: u8, b: u8): i32
  {
    ProductOver255Bounds(a, b);
    a * b / 255
  }

  /** `blend_with` on one channel: the float mean `a*0.5 + b*0.5`, truncated. */
  function AverageChannel(a: u8, b: u8): i32
  {
    (a + b) / 2
  }

  /** `Color::blend_normal`: black in `blend` is transparent. */
  function BlendNormal(base: Color, blend: Color): (c: Color)
    ensures blend != Black ==> c == blend
    ensures blend == Black ==> c == base
  {
    if IsBlack(blend) then base else blend
  }

  /** `Color::blend_add`. */
  function BlendAdd(base: Color, blend: Color): (c: Color)
    ensures c == Plus(base, blend)
    ensures c.r >= Max(base.r, blend.r) && c.g >= Max(base.g, blend.g) && c.b >= Max(base.b, blend.b)
  {
    New(AddChannel(base.r, blend.r), AddChannel(base.g, blend.g), AddChannel(base.b, blend.b))
  }

  /** `impl Add for Color`. */
  function Plus(a: Color, b: Color): (c: Color)
    ensures c.r >= Max(a.r, b.r) && (c.r < 255 ==> c.r == a.r + b.r)
    ensures c.g >= Max(a.g, b.g) && (c.g < 255 ==> c.g == a.g + b.g)
    ensures c.b >= Max(a.b, b.b) && (c.b < 255 ==> c.b == a.b + b.b)
  {
    New(SaturatingAdd(a.r, b.r), SaturatingAdd(a.g, b.g), SaturatingAdd(a.b, b.b))
  }

  /** `Color::blend_subtract`. */
  function BlendSubtract(base: Color, blend: Color): (c: Color)
    ensures c == Minus(base, blend)
    ensures c.r <= base.r && c.g <= base.g && c.b <= base.b
  {
    New(SubtractChannel(base.r, blend.r), SubtractChannel(base.g, blend.g), SubtractChannel(base.b, blend.b))
  }

  /** `impl Sub for Color`. */
  function Minus(a: Color, b: Color): (c: Color)
    ensures c.r <= a.r && (c.r > 0 ==> c.r == a.r - b.r)
    ensures c.g <= a.g && (c.g > 0 ==> c.g == a.g - b.g)
    ensures c.b <= a.b && (c.b > 0 ==> c.b == a.b - b.b)
  {
    New(SubChannel(a.r, b.r), SubChannel(a.g, b.g), SubChannel(a.b, b.b))
  }

  /** `Color::blend_screen`. */
  function BlendScreen(base: Color, blend: Color): (c: Color)
    ensures c.r >= Max(base.r, blend.r) && c.g >= Max(base.g, blend.g) && c.b >= Max(base.b, blend.b)
  {
    ScreenChannelBounds(base.r, blend.r);
    ScreenChannelBounds(base.g, blend.g);
    ScreenChannelBounds(base.b, blend.b);
    New(ScreenChannel(base.r, blend.r), ScreenChannel(base.g, blend.g), ScreenChannel(base.b, blend.b))
  }

  /** `Color::blend_multiply`, with the float product replaced by its exact integer value. */
  function BlendMultiply(base: Color, blend: Color): (c: Color)
    ensures c.r <= Min(base.r, blend.r) && c.g <= Min(base.g, blend.g) && c.b <= Min(base.b, blend.b)
  {
    MultiplyChannelBounds(base.r, blend.r);
    MultiplyChannelBounds(base.g, blend.g);
    MultiplyChannelBounds(base.b, blend.b);
    New(MultiplyChannel(base.r, blend.r), MultiplyChannel(base.g, blend.g), MultiplyChannel(base.b, blend.b))
  }

  /** `Color::blend_with`, with the float mean replaced by its exact integer value. */
  function BlendWith(a: Color, b: Color): (c: Color)
    ensures Min(a.r, b.r) <= c.r <= Max(a.r, b.r)
    ensures Min(a.g, b.g) <= c.g <= Max(a.g, b.g)
    ensures Min(a.b, b.b) <= c.b <= Max(a.b, b.b)
  {
    New(AverageChannel(a.r, b.r), AverageChannel(a.g, b.g), AverageChannel(a.b, b.b))
  }

  // ---------------------------------------------------------------------
  // Properties of the blend modes
  // ---------------------------------------------------------------------

  /** `blend_normal` keeps the base under black, otherwise shows `blend`; layering composes. */
  lemma BlendNormalLayers(a: Color, b: Color, c: Color)
    ensures BlendNormal(a, b) == (if b == Black then a else b)
    ensures BlendNormal(a, Black) == a
    ensures BlendNormal(BlendNormal(a, b), c) == BlendNormal(a, BlendNormal(b, c))
    ensures BlendNormal(BlendNormal(a, b), b) == BlendNormal(a, b)
  {
  }

  /** `blend_add` and `+` are both the per-channel sum capped at 255. */
  lemma BlendAddIsSaturatingSum(a: Color, b: Color)
    ensures BlendAdd(a, b) == Plus(a, b)
    ensures BlendAdd(a, b) == Color(Min(a.r + b.r, 255), Min(a.g + b.g, 255), Min(a.b + b.b, 255))
  {
  }

  lemma BlendAddLaws(a: Color, b: Color, c: Color)
    ensures BlendAdd(a, b) == BlendAdd(b, a)
    ensures BlendAdd(a, Black) == a
    ensures BlendAdd(a, White) == White
    ensures BlendAdd(BlendAdd(a, b), c) == BlendAdd(a, BlendAdd(b, c))
  {
    BlendAddIsSaturatingSum(a, b);
    BlendAddIsSaturatingSum(b, a);
    BlendAddIsSaturatingSum(a, Black);
    BlendAddIsSaturatingSum(a, White);
    BlendAddIsSaturatingSum(b, c);
    BlendAddIsSaturatingSum(BlendAdd(a, b), c);
    BlendAddIsSaturatingSum(a, BlendAdd(b, c));
  }

  /** `blend_subtract` and `-` are both the per-channel difference floored at 0. */
  lemma BlendSubtractIsFlooredDifference(a: Color, b: Color)
    ensures BlendSubtract(a, b) == Minus(a, b)
    ensures BlendSubtract(a, b) == Color(Max(a.r - b.r, 0), Max(a.g - b.g, 0), Max(a.b - b.b, 0))
  {
  }

  lemma BlendSubtractLaws(a: Color, b: Color)
    ensures BlendSubtract(a, a) == Black
    ensures BlendSubtract(a, Black) == a
    ensures BlendSubtract(Black, a) == Black
    ensures var c := BlendAdd(BlendSubtract(a, b), b); c.r >= a.r && c.g >= a.g && c.b >= a.b
  {
  }

  lemma ScreenChannelBounds(a: u8, b: u8)
    ensures Max(a, b) <= ScreenChannel(a, b) <= 255
    ensures ScreenChannel(a, b) == ScreenChannel(b, a)
    ensures ScreenChannel(a, 0) == a && ScreenChannel(a, 255) == 255
  {
    var u, v := 255 - a, 255 - b;
    assert ScreenChannel(a, b) == 255 - (u * v) / 255;
    ProductOver255Bounds(u, v);
    MulDivCancel(u, 255);
  }

  /** For bytes u and v, `u * v / 255` is at most the smaller of them, and symmetric. */
  lemma ProductOver255Bounds(u: u8, v: u8)
    ensures 0 <= (u * v) / 255 <= Min(u, v)
    ensures u * v == v * u
  {
    MulBounded(u, v, 255);
    MulBounded(v, u, 255);
    assert u * v == v * u;
    DivMonotone(u * v, 255 * u, 255);
    DivMonotone(u * v, 255 * v, 255);
    MulDivCancel(u, 255);
    MulDivCancel(v, 255);
  }

  /** Screening never darkens, black leaves the base, white gives white. */
  lemma BlendScreenLaws(a: Color, b: Color)
    ensures var c := BlendScreen(a, b);
      c.r >= Max(a.r, b.r) && c.g >= Max(a.g, b.g) && c.b >= Max(a.b, b.b)
    ensures BlendScreen(a, b) == BlendScreen(b, a)
    ensures BlendScreen(a, Black) == a
    ensures BlendScreen(a, White) == White
  {
    ScreenChannelBounds(a.r, b.r);
    ScreenChannelBounds(a.g, b.g);
    ScreenChannelBounds(a.b, b.b);
  }

  lemma MultiplyChannelBounds(a: u8, b: u8)
    ensures 0 <= MultiplyChannel(a, b) <= Min(a, b)
    ensures MultiplyChannel(a, b) == MultiplyChannel(b, a)
    ensures MultiplyChannel(a, 255) == a && MultiplyChannel(a, 0) == 0
  {
    ProductOver255Bounds(a, b);
    MulDivCancel(a, 255);
  }

  /** Multiplying never brightens, white leaves the base, black gives black. */
  lemma BlendMultiplyLaws(a: Color, b: Color)
    ensures var c := BlendMultiply(a, b);
      c.r <= Min(a.r, b.r) && c.g <= Min(a.g, b.g) && c.b <= Min(a.b, b.b)
    ensures BlendMultiply(a, b) == BlendMultiply(b, a)
    ensures BlendMultiply(a, White) == a
    ensures BlendMultiply(a, Black) == Black
  {
    MultiplyChannelBounds(a.r, b.r);
    MultiplyChannelBounds(a.g, b.g);
    MultiplyChannelBounds(a.b, b.b);
  }

  /** The 50/50 mix lies between its inputs, is symmetric and fixes equal inputs. */
  lemma BlendWithLaws(a: Color, b: Color)
    ensures var c := BlendWith(a, b);
      && Min(a.r, b.r) <= c.r <= Max(a.r, b.r)
      && Min(a.g, b.g) <= c.g <= Max(a.g, b.g)
      && Min(a.b, b.b) <= c.b <= Max(a.b, b.b)
    ensures BlendWith(a, b) == BlendWith(b, a)
    ensures BlendWith(a, a) == a
  {
  }
}
