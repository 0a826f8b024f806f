/** Per-pixel arithmetic of `GrayscaleBlend.convert`: reading the colour
    channels of a packed ARGB word, the offset luminance byte of each sample,
    the recovered alpha and gray values, and packing the result.

    Java `int` arithmetic followed by `& 0xFF` keeps the low eight bits of a
    two's-complement word, which is the Euclidean residue modulo 256; the
    model writes every such mask as `% 256` on unbounded integers. */
module Pixel {
  import opened JavaNum

  /** A value in the range of one 8-bit channel. */
  type Byte = x: int | 0 <= x < 256

  /** Channel extraction in the style of the source: mask the low byte after
      shifting. Java's `>>` is arithmetic and Dafny's is logical on `bv32`,
      but the two agree on the eight bits kept by the mask for shifts of at
      most 24. */
  function Blue(p: bv32): Byte { (p & 0xFF) as int }
  function Green(p: bv32): Byte { ((p >> 8) & 0xFF) as int }
  function Red(p: bv32): Byte { ((p >> 16) & 0xFF) as int }
  function Top(p: bv32): Byte { ((p >> 24) & 0xFF) as int }

  /** A byte widened to a 32-bit word. */
  function Word(x: Byte): bv32
  {
    Octet(x) as bv32
  }

  /** The byte `x` as an 8-bit vector, counted up from zero; this keeps the
      solver away from its costly integer-to-bit-vector conversion. */
  function Octet(x: Byte): (b: bv8)
    ensures b as int == x
    decreases x
  {
    if x == 0 then 0 else Octet(x - 1) + 1
  }

  lemma WordValue(x: Byte)
    ensures Word(x) < 256 && Word(x) as int == x
  {
    WidenValue(Octet(x));
  }

  lemma WidenValue(b: bv8)
    ensures (b as bv32) < 256 && (b as bv32) as int == b as int
  {
  }

  /** The output word `gray | gray << 8 | gray << 16 | alpha << 24`.
      Unpacking it with the source's own extraction style yields the gray
      value in all three colour channels and alpha in the top byte. */
  function Pack(gray: Byte, alpha: Byte): (w: bv32)
    ensures Blue(w) == gray && Green(w) == gray && Red(w) == gray
    ensures Top(w) == alpha
  {
    var g, a := Word(gray), Word(alpha);
    WordValue(gray);
    WordValue(alpha);
    PackBits(g, a);
    ChannelValues(PackWords(g, a), g, a);
    PackWords(g, a)
  }

  function PackWords(g: bv32, a: bv32): bv32
  {
    g | (g << 8) | (g << 16) | (a << 24)
  }

  /** Channel extraction reads back the masked bytes as integers. */
  lemma ChannelValues(w: bv32, g: bv32, a: bv32)
    requires w & 0xFF == g && (w >> 8) & 0xFF == g && (w >> 16) & 0xFF == g && (w >> 24) & 0xFF == a
    ensures Blue(w) == g as int && Green(w) == g as int && Red(w) == g as int && Top(w) == a as int
  {
  }

  /** The contract of `Pack` on the bit-vector level. */
  lemma PackBits(g: bv32, a: bv32)
    requires g < 256 && a < 256
    ensures PackWords(g, a) & 0xFF == g
    ensures (PackWords(g, a) >> 8) & 0xFF == g
    ensures (PackWords(g, a) >> 16) & 0xFF == g
    ensures (PackWords(g, a) >> 24) & 0xFF == a
  {
  }

  /** CIE 1931 relative luminance of the colour channels, as exact reals.
      The source evaluates this sum in `double`, whose rounding can leave it
      just below the exact value: for pure white it is 254.99999999999997,
      not 255. The samples below are therefore exact-real samples; README
      lists where they differ from the source's. */
  function Luminance(p: bv32): (l: real)
    ensures 0.0 <= l <= 255.0
  {
    Blue(p) as real * 0.0722 + Green(p) as real * 0.7152 + Red(p) as real * 0.2126
  }

  /** `(int)(L / 2 + 0.5 + offset) & 0xFF`, the offset luminance byte. For
      a luminance in [0, 255] and either offset of the source it is at most
      128 above the offset, so the mask never wraps; `OffsetLuminanceRounds`
      gives its value. */
  function OffsetLuminance(l: real, offset: int): (s: Byte)
    ensures 0.0 <= l <= 255.0 && (offset == 0 || offset == 0x7F) ==> offset <= s <= offset + 128
  {
    var t := TruncateTowardZero(l / 2.0 + 0.5 + offset as real);
    assert 0.0 <= l <= 255.0 && (offset == 0 || offset == 0x7F) ==> offset <= t <= offset + 128;
    NarrowToInt(Finite(l / 2.0 + 0.5 + offset as real)) % 256
  }

  /** The offset luminance byte is half the luminance rounded to the
      nearest integer, halves up, plus the offset. */
  lemma OffsetLuminanceRounds(l: real, offset: int)
    requires 0.0 <= l <= 255.0 && (offset == 0 || offset == 0x7F)
    ensures (OffsetLuminance(l, offset) - offset) as real <= l / 2.0 + 0.5
    ensures l / 2.0 + 0.5 < (OffsetLuminance(l, offset) - offset + 1) as real
  {
    var t := TruncateTowardZero(l / 2.0 + 0.5 + offset as real);
    assert offset <= t <= offset + 128;
    assert OffsetLuminance(l, offset) == t;
  }

  /** `pixel1`, the sample rendered over white: half the luminance rounded
      to the nearest integer (halves up), lifted by 0x7F. It lies in
      [127, 255], so the mask never wraps. */
  function WhiteSample(p: bv32): (s: Byte)
    ensures 127 <= s <= 255
  {
    OffsetLuminance(Luminance(p), 0x7F)
  }

  /** `pixel2`, the sample rendered over black: half the luminance rounded
      to the nearest integer (halves up), with no offset. It lies in
      [0, 128], so the mask never wraps. */
  function BlackSample(p: bv32): (s: Byte)
    ensures 0 <= s <= 128
  {
    OffsetLuminance(Luminance(p), 0)
  }

  /** Each sample is half the luminance rounded to the nearest integer,
      halves up, plus its offset. */
  lemma SamplesRoundHalfLuminance(p: bv32)
    ensures (WhiteSample(p) - 0x7F) as real <= Luminance(p) / 2.0 + 0.5 < (WhiteSample(p) - 0x7F + 1) as real
    ensures BlackSample(p) as real <= Luminance(p) / 2.0 + 0.5 < (BlackSample(p) + 1) as real
  {
    OffsetLuminanceRounds(Luminance(p), 0x7F);
    OffsetLuminanceRounds(Luminance(p), 0);
  }

  /** `alpha = (0xFF + pixel2 - pixel1) & 0xFF`. For two bytes the sum before
      the mask lies in [0, 510], so the mask subtracts 256 exactly when the
      black sample exceeds the white one. */
  function Alpha(pixel1: Byte, pixel2: Byte): (alpha: Byte)
    ensures 0 <= 0xFF + pixel2 - pixel1 <= 510
    ensures pixel2 <= pixel1 ==> alpha == 0xFF + pixel2 - pixel1
    ensures pixel1 < pixel2 ==> alpha == pixel2 - pixel1 - 1
  {
    (0xFF + pixel2 - pixel1) % 256
  }

  /** Alpha loses nothing about the black sample: given the white sample,
      the black sample is recovered from alpha, so different black samples
      never share an alpha. */
  lemma AlphaRecoversBlackSample(pixel1: Byte, pixel2: Byte)
    ensures (pixel1 + Alpha(pixel1, pixel2) + 1) % 256 == pixel2
  {
  }

  /** Within the sample ranges the recovered pixel is fully transparent only
      for the two extreme pairs: white sample 255 with black sample 0, and
      white sample 127 with black sample 128. */
  lemma AlphaZeroCases(white: bv32, black: bv32)
    ensures Alpha(WhiteSample(white), BlackSample(black)) == 0 <==>
              (WhiteSample(white) == 255 && BlackSample(black) == 0) ||
              (WhiteSample(white) == 127 && BlackSample(black) == 128)
  {
  }

  /** The integer nearest to `n / d`, halves rounded up (see
      `RoundHalfUpIsNearest`). */
  function RoundHalfUp(n: nat, d: nat): nat
    requires 0 < d
  {
    (2 * n + d) / (2 * d)
  }

  /** `RoundHalfUp` is within one half of the exact quotient, the upper
      half included. */
  lemma RoundHalfUpIsNearest(n: nat, d: nat)
    requires 0 < d
    ensures 2 * n - d < 2 * d * RoundHalfUp(n, d) <= 2 * n + d
  {
    var q := RoundHalfUp(n, d);
    assert 2 * d * q <= 2 * n + d < 2 * d * q + 2 * d;
  }

  /** `gray = (int)(pixel2 * 255. / alpha + .5) & 0xFF`, with the division
      and the cast taken in Java's double semantics. For a positive alpha it
      is the rounded quotient reduced modulo 256 (wrapped, never clamped).
      For alpha 0 nothing faults: `0/0` is NaN and casts to 0, while a
      positive dividend gives +infinity, which casts to `Integer.MAX_VALUE`
      whose low byte is 0xFF. */
  function Gray(pixel2: Byte, alpha: Byte): (g: Byte)
    ensures 0 < alpha ==> g == RoundHalfUp(pixel2 * 255, alpha) % 256
    ensures alpha == 0 ==> g == if pixel2 == 0 then 0 else 0xFF
  {
    var g := NarrowToInt(Plus(Divide(pixel2 * 255, alpha), 0.5)) % 256;
    if 0 < alpha then RoundedQuotient(pixel2, alpha); g else g
  }

  /** For a positive alpha the double expression of `Gray` before the mask
      is exactly the integer round-half-up of `pixel2 * 255 / alpha`.
      Exactness: `pixel2 * 255` is an exact double, the quotient is
      correctly rounded, and unless `q + 0.5` is an integer it lies at least
      `1 / (2 * alpha)` >= 1/510 from every integer, far beyond the rounding
      error of values below 65026; when `q + 0.5` is an integer, `q` is a
      representable half-integer and both steps are exact. */
  lemma {:induction false} RoundedQuotient(pixel2: Byte, alpha: Byte)
    requires 0 < alpha
    ensures NarrowToInt(Plus(Divide(pixel2 * 255, alpha), 0.5)) == RoundHalfUp(pixel2 * 255, alpha)
  {
    var n, d := 510 * pixel2 + alpha, 2 * alpha;
    HalfUpShift(pixel2, alpha);
    assert Plus(Divide(pixel2 * 255, alpha), 0.5) == Finite(n as real / d as real);
    TruncateQuotient(n, d);
    QuotientAtMost(n, d);
    assert RoundHalfUp(pixel2 * 255, alpha) == n / d;
  }

  lemma QuotientAtMost(n: int, d: int)
    requires 0 <= n && 0 < d
    ensures 0 <= n / d <= n
  {
    var k := n / d;
    assert k * d <= n;
    MultiplyMonotone(k, 1, d);
  }

  /** Adding one half to `p * 255 / a` gives `(510 * p + a) / (2 * a)`. */
  lemma HalfUpShift(p: int, a: int)
    requires 0 <= p && 0 < a
    ensures (p * 255) as real / a as real + 0.5 == (510 * p + a) as real / (2 * a) as real
  {
    var ar := a as real;
    var q := (p * 255) as real / ar;
    var r := (510 * p + a) as real / (2 * a) as real;
    assert q * ar == (p * 255) as real;
    assert r * (2.0 * ar) == (510 * p + a) as real;
    assert (q + 0.5) * (2.0 * ar) == 2.0 * (q * ar) + ar;
    SameQuotient(q + 0.5, r, 2.0 * ar);
  }

  lemma SameQuotient(x: real, y: real, d: real)
    requires 0.0 < d && x * d == y * d
    ensures x == y
  {
    if x < y {
      PositiveProduct(y - x, d);
    } else if y < x {
      PositiveProduct(x - y, d);
    }
  }

  /** When the black sample does not exceed alpha the rounded quotient fits
      a byte, so the mask is inert and gray is the nearest integer to
      `pixel2 * 255 / alpha`, halves rounded up. */
  lemma GrayIsNearest(pixel2: Byte, alpha: Byte)
    requires 0 < alpha && pixel2 <= alpha
    ensures 510 * pixel2 - alpha < 2 * alpha * Gray(pixel2, alpha) <= 510 * pixel2 + alpha
  {
    RoundHalfUpIsNearest(pixel2 * 255, alpha);
    RoundedQuotientFitsByte(pixel2, alpha);
  }

  lemma RoundedQuotientFitsByte(p: nat, a: nat)
    requires 0 < a && p <= a
    ensures RoundHalfUp(p * 255, a) < 256
  {
    var q := RoundHalfUp(p * 255, a);
    RoundHalfUpIsNearest(p * 255, a);
    MultiplyMonotone(510, p, a);
    if 256 <= q {
      MultiplyMonotone(2 * a, 256, q);
    }
  }

  lemma MultiplyMonotone(d: nat, a: int, b: int)
    requires a <= b
    ensures d * a <= d * b
  {
  }

  /** Gray wraps instead of saturating: black sample 128 over alpha 1 rounds
      to 32640, whose low byte is 128. Such operands never come from two
      samples (see `SampledGrayIsNearest`); they show the mask alone. */
  lemma GrayWrapsExample()
    ensures Gray(128, 1) == 128
    ensures Gray(2, 1) == 254
  {
    assert RoundHalfUp(128 * 255, 1) == 32640;
    assert RoundHalfUp(2 * 255, 1) == 510;
  }

  /** On the samples of two pixels a positive alpha is at least the black
      sample, so gray never wraps in a conversion: it is the nearest
      integer to `pixel2 * 255 / alpha`. */
  lemma SampledGrayIsNearest(white: bv32, black: bv32)
    ensures var pixel2 := BlackSample(black);
            var alpha := Alpha(WhiteSample(white), pixel2);
            0 < alpha ==>
              && pixel2 <= alpha
              && 510 * pixel2 - alpha < 2 * alpha * Gray(pixel2, alpha) <= 510 * pixel2 + alpha
  {
    var pixel2 := BlackSample(black);
    var alpha := Alpha(WhiteSample(white), pixel2);
    if 0 < alpha {
      GrayIsNearest(pixel2, alpha);
    }
  }

  /** One output pixel from the pixels at the same coordinate of the two
      working images: gray (equal colour channels) carrying the recovered
      alpha in its top byte and the gray value of its two samples in the
      colour channels. */
  function BlendPixel(white: bv32, black: bv32): (out: bv32)
    ensures Top(out) == Alpha(WhiteSample(white), BlackSample(black))
    ensures Blue(out) == Gray(BlackSample(black), Top(out))
    ensures Green(out) == Blue(out) && Red(out) == Blue(out)
  {
    var pixel1 := WhiteSample(white);
    var pixel2 := BlackSample(black);
    var alpha := Alpha(pixel1, pixel2);
    Pack(Gray(pixel2, alpha), alpha)
  }

  /** Two identical mid-gray inputs (R = G = B = 128) are not passed
      through unchanged: the samples are 191 and 64, so the output is gray
      128 at alpha 128. In double evaluation the luminance sum is exactly
      128.0 and every later step is exact, so the source gives the same
      bytes. */
  lemma MidGrayExample()
    ensures WhiteSample(0x0080_8080) == 191 && BlackSample(0x0080_8080) == 64
    ensures Top(BlendPixel(0x0080_8080, 0x0080_8080)) == 128
    ensures Blue(BlendPixel(0x0080_8080, 0x0080_8080)) == 128
  {
    assert Blue(0x0080_8080) == 128 && Green(0x0080_8080) == 128 && Red(0x0080_8080) == 128;
    assert Luminance(0x0080_8080) == 128.0;
    assert 128.0 / 2.0 + 0.5 + 0x7F as real == 191.5;
    assert 128.0 / 2.0 + 0.5 + 0 as real == 64.5;
    assert TruncateTowardZero(191.5) == 191;
    assert TruncateTowardZero(64.5) == 64;
    assert OffsetLuminance(128.0, 0x7F) == 191;
    assert OffsetLuminance(128.0, 0) == 64;
    assert RoundHalfUp(64 * 255, 128) == 128;
  }

  /** A white pixel over white and a black pixel over black: the samples
      are 255 and 0, so alpha and gray are both 0 and the output word is 0.
      In double evaluation the luminance sum is 254.99999999999997; its half
      plus 0.5 is just below 128, and adding 0x7F rounds to exactly 255.0,
      so the source's white sample is 255 as well. */
  lemma WhiteOverBlackExample()
    ensures WhiteSample(0x00FF_FFFF) == 255 && BlackSample(0) == 0
    ensures BlendPixel(0x00FF_FFFF, 0) == 0
  {
    assert Blue(0x00FF_FFFF) == 255 && Green(0x00FF_FFFF) == 255 && Red(0x00FF_FFFF) == 255;
    assert Luminance(0x00FF_FFFF) == 255.0;
    assert TruncateTowardZero(255.0) == 255;
    assert Blue(0) == 0 && Green(0) == 0 && Red(0) == 0;
    assert TruncateTowardZero(0.5) == 0;
    assert Gray(0, 0) == 0;
    assert Word(0) == 0;
  }
}
