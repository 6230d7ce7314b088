/**
 * The image-processing worker: the four encoders that turn a row-major RGBA
 * buffer into the text of a C array declaration (`grayscale`, `rgb565`,
 * `rgb888`, `rgba8888`), the in-place colour inversion, the output-size rule,
 * the choice of encoder by name and the reply the worker posts.
 *
 * Each encoder is a method with the loops of the original, proved to produce
 * a Listing (see Layout) whose elements are given by a per-pixel or per-group
 * function; lemmas then say what those elements are (bit formulas) and that
 * the text reads back to exactly those values.
 */
module Processing {

  import opened Wrappers
  import opened JsInt
  import opened Hex
  import opened Layout

  /** One channel of the RGBA buffer (an element of a Uint8ClampedArray). */
  type uint8 = x: int | 0 <= x < 0x100

  /** The three formats that write one element per pixel. */
  datatype WordFormat = Rgb565Format | Rgb888Format | Rgba8888Format

  /** The four entries of the worker's `encoding` table. */
  datatype Encoding = GrayscaleEncoding | WordEncoding(format: WordFormat)

  /** The per-image settings the worker reads; an absent `pixelEncoding` is "". */
  datatype Config = Config(canvasWidth: int, canvasHeight: int, invertColors: bool, pixelEncoding: string, threshold: int)

  /** An image as the page hands it to a worker. */
  datatype Image = Image(name: string, url: string, width: int, height: int, config: Config)

  /** What a worker posts back when it is done with an image. */
  datatype WorkerMessage =
    | Complete(name: string, encoding: string, width: int, height: int, data: string)
    | Failure(name: string, error: string)

  const GrayscaleWrap: nat := 16

  // ---------------------------------------------------------------------
  // Rounding and the luma test
  // ---------------------------------------------------------------------

  /** `Math.round(n / d)` for d > 0 in exact arithmetic: the nearest integer, halves rounded up. */
  function RoundDiv(n: int, d: int): (r: int)
    requires d > 0
    ensures NearestRatio(r, n, d)
  {
    var q := (2 * n + d) / (2 * d);
    assert 2 * n + d == q * (2 * d) + (2 * n + d) % (2 * d);
    q
  }

  /** r - 1/2 <= n / d < r + 1/2 */
  predicate NearestRatio(r: int, n: int, d: int)
  {
    (2 * r - 1) * d <= 2 * n < (2 * r + 1) * d
  }

  /** For d > 0 at most one integer is nearest to n / d with halves up, so RoundDiv is determined by its contract. */
  lemma NearestRatioUnique(r1: int, r2: int, n: int, d: int)
    requires d > 0 && NearestRatio(r1, n, d) && NearestRatio(r2, n, d)
    ensures r1 == r2
  {
    LessTimes(2 * r1 - 1, 2 * r2 + 1, d);
    LessTimes(2 * r2 - 1, 2 * r1 + 1, d);
  }

  lemma LessTimes(a: int, b: int, d: int)
    requires d > 0 && a * d < b * d
    ensures a < b
  {
    assert a >= b ==> (a - b) * d >= 0;
    assert (a - b) * d == a * d - b * d;
  }

  /** `Math.round(0.299 * R + 0.587 * G + 0.114 * B)` in exact arithmetic. */
  function Luma(r: uint8, g: uint8, b: uint8): (l: int)
    ensures 0 <= l < 0x100
  {
    RoundDiv(299 * r + 587 * g + 114 * b, 1000)
  }

  /** The grayscale test `gray < 69`: exactly the pixels with 299 R + 587 G + 114 B below 68500. */
  predicate IsDark(r: uint8, g: uint8, b: uint8): (dark: bool)
    ensures dark <==> 299 * r + 587 * g + 114 * b < 68500
  {
    Luma(r, g, b) < 69
  }

  // ---------------------------------------------------------------------
  // Grayscale: one bit per pixel, eight pixels per byte, most significant first
  // ---------------------------------------------------------------------

  /** `Math.ceil(width / 8)`: the bytes one row needs. */
  function BytesPerRow(width: nat): (n: nat)
    ensures width <= 8 * n < width + 8
  {
    (width + 7) / 8
  }

  /** Row y of a rows-by-cols grid ends no later than its row-major layout does. */
  lemma RowFits(y: nat, rows: nat, cols: nat)
    requires y < rows
    ensures y * cols + cols <= cols * rows
  {
    var rest := rows - (y + 1);
    assert rest * cols >= 0;
    assert cols * rows == y * cols + cols + rest * cols;
  }

  /** The offset `(y * width + col) * 4` of a pixel's red channel. */
  function PixelIndex(width: nat, height: nat, y: nat, col: nat): (i: nat)
    requires y < height && col < width
    ensures i + 3 < 4 * (width * height)
  {
    RowFits(y, height, width);
    (y * width + col) * 4
  }

  /** Column `col` of row y lies inside the image and its pixel is dark. */
  predicate DarkAt(data: seq<uint8>, width: nat, height: nat, y: nat, col: nat)
    requires |data| == 4 * (width * height) && y < height
  {
    col < width &&
    var i := PixelIndex(width, height, y, col);
    IsDark(data[i], data[i + 1], data[i + 2])
  }

  /** `byteValue` after the first `bits` rounds of the bit loop for the columns 8 * group .. 8 * group + 7. */
  function PartialByte(data: seq<uint8>, width: nat, height: nat, y: nat, group: nat, bits: nat): (r: int)
    requires |data| == 4 * (width * height) && y < height && bits <= 8
  {
    if bits == 0 then 0
    else
      var bit := bits - 1;
      var v := PartialByte(data, width, height, y, group, bit);
      if DarkAt(data, width, height, y, 8 * group + bit) then BitOr(v, ShiftLeft(1, 7 - bit)) else v
  }

  /** After `bits` rounds, exactly the bits 7 - b of the dark columns b < bits are set. */
  lemma {:induction false} PartialByteBits(data: seq<uint8>, width: nat, height: nat, y: nat, group: nat, bits: nat)
    requires |data| == 4 * (width * height) && y < height && bits <= 8
    ensures 0 <= PartialByte(data, width, height, y, group, bits) < 0x100
    ensures forall p :: 0 <= p < 8 ==>
      (TestBit(PartialByte(data, width, height, y, group, bits), p) <==>
       7 - p < bits && DarkAt(data, width, height, y, 8 * group + 7 - p))
  {
    if bits > 0 {
      PartialByteBits(data, width, height, y, group, bits - 1);
      PartialByteBitsStep(data, width, height, y, group, bits - 1, bits);
    } else {
      forall p | 0 <= p < 8
        ensures !TestBit(0, p)
      {
        ZeroHasNoBits(p);
      }
    }
  }

  /** One round of the bit loop keeps the bit-by-bit description of `byteValue`, with one more column. */
  lemma PartialByteBitsStep(data: seq<uint8>, width: nat, height: nat, y: nat, group: nat, bit: nat, bits: nat)
    requires |data| == 4 * (width * height) && y < height && bit < 8 && bits == bit + 1
    requires 0 <= PartialByte(data, width, height, y, group, bit) < 0x100
    requires forall p :: 0 <= p < 8 ==>
      (TestBit(PartialByte(data, width, height, y, group, bit), p) <==>
       7 - p < bit && DarkAt(data, width, height, y, 8 * group + 7 - p))
    ensures 0 <= PartialByte(data, width, height, y, group, bits) < 0x100
    ensures forall p :: 0 <= p < 8 ==>
      (TestBit(PartialByte(data, width, height, y, group, bits), p) <==>
       7 - p < bits && DarkAt(data, width, height, y, 8 * group + 7 - p))
  {
    var v := PartialByte(data, width, height, y, group, bit);
    var w := PartialByte(data, width, height, y, group, bits);
    if DarkAt(data, width, height, y, 8 * group + bit) {
      SetBit(v, 7 - bit);
      assert w == BitOr(v, ShiftLeft(1, 7 - bit));
    } else {
      assert w == v;
    }
    forall p | 0 <= p < 8
      ensures TestBit(w, p) <==> 7 - p < bits && DarkAt(data, width, height, y, 8 * group + 7 - p)
    {
      if p == 7 - bit {
        assert 8 * group + 7 - p == 8 * group + bit;
      }
    }
  }

  /** `v |= (1 << k)` on a byte sets bit k and keeps the others. */
  lemma SetBit(v: int, k: nat)
    requires 0 <= v < 0x100 && k < 8
    ensures 0 <= BitOr(v, ShiftLeft(1, k)) < 0x100
    ensures forall p :: 0 <= p < 8 ==> (TestBit(BitOr(v, ShiftLeft(1, k)), p) <==> TestBit(v, p) || p == k)
  {
    var m := Pow2(k);
    Pow2Monotone(k + 1, 8);
    Pow2Values();
    ShiftLeftSmall(1, k);
    BitOrSmall(v, m, 8);
    forall p | 0 <= p < 8
      ensures TestBit(OrBits(v, m), p) == (TestBit(v, p) || p == k)
    {
      TestBitOr(v, m, p);
      TestBitPow2(k, p);
    }
  }

  /**
   * The byte for columns 8 * group .. 8 * group + 7 of row y: bit p is set iff
   * column 8 * group + 7 - p lies inside the row and is dark, so the leftmost
   * pixel is the most significant bit and columns past the width stay 0.
   */
  function GrayscaleByte(data: seq<uint8>, width: nat, height: nat, y: nat, group: nat): (v: nat)
    requires |data| == 4 * (width * height) && y < height
    ensures v < 0x100
  {
    PartialByteBits(data, width, height, y, group, 8);
    PartialByte(data, width, height, y, group, 8)
  }

  /** Bit p of the byte is set iff column 8 * group + 7 - p is inside the row and dark. */
  lemma GrayscaleByteBits(data: seq<uint8>, width: nat, height: nat, y: nat, group: nat, p: nat)
    requires |data| == 4 * (width * height) && y < height && p < 8
    ensures TestBit(GrayscaleByte(data, width, height, y, group), p) <==> DarkAt(data, width, height, y, 8 * group + 7 - p)
  {
    PartialByteBits(data, width, height, y, group, 8);
  }

  /** The bytes of row y, left to right. */
  function GrayscaleRow(data: seq<uint8>, width: nat, height: nat, y: nat): (row: seq<nat>)
    requires |data| == 4 * (width * height) && y < height
    ensures |row| == BytesPerRow(width)
  {
    seq(BytesPerRow(width), group requires 0 <= group < BytesPerRow(width) => GrayscaleByte(data, width, height, y, group))
  }

  /** The bytes of the first `rows` rows, row after row. */
  function GrayscaleBytes(data: seq<uint8>, width: nat, height: nat, rows: nat): (bytes: seq<nat>)
    requires |data| == 4 * (width * height) && rows <= height
    ensures |bytes| == rows * BytesPerRow(width)
    ensures forall j :: 0 <= j < |bytes| ==> bytes[j] < 0x100
  {
    if rows == 0 then []
    else
      var before := GrayscaleBytes(data, width, height, rows - 1);
      var row := GrayscaleRow(data, width, height, rows - 1);
      assert |before + row| == (rows - 1) * BytesPerRow(width) + BytesPerRow(width);
      before + row
  }

  /** Byte y * ceil(width / 8) + group of the output is the byte of that group in row y. */
  lemma {:induction false} GrayscaleBytesAt(data: seq<uint8>, width: nat, height: nat, rows: nat, y: nat, group: nat, k: nat)
    requires |data| == 4 * (width * height) && rows <= height && y < rows && group < BytesPerRow(width)
    requires k == y * BytesPerRow(width) + group
    ensures k < |GrayscaleBytes(data, width, height, rows)|
    ensures GrayscaleBytes(data, width, height, rows)[k] == GrayscaleByte(data, width, height, y, group)
  {
    var n := BytesPerRow(width);
    RowFits(y, rows, n);
    if y < rows - 1 {
      GrayscaleBytesAt(data, width, height, rows - 1, y, group, k);
    } else {
      assert y * n == (rows - 1) * n;
    }
  }

  /** The bytes come row by row: byte y * ceil(width / 8) + group is byte `group` of row y. */
  ghost predicate RowsOfBytes(data: seq<uint8>, width: nat, height: nat, bytes: seq<nat>)
    requires |data| == 4 * (width * height)
  {
    |bytes| == height * BytesPerRow(width) &&
    forall y, group :: 0 <= y < height && 0 <= group < BytesPerRow(width) ==>
      y * BytesPerRow(width) + group < |bytes| &&
      bytes[y * BytesPerRow(width) + group] == GrayscaleByte(data, width, height, y, group)
  }

  /** The grayscale bytes come row by row. */
  lemma GrayscaleBytesRowMajor(data: seq<uint8>, width: nat, height: nat)
    requires |data| == 4 * (width * height)
    ensures RowsOfBytes(data, width, height, GrayscaleBytes(data, width, height, height))
  {
    forall y, group | 0 <= y < height && 0 <= group < BytesPerRow(width)
      ensures var bytes := GrayscaleBytes(data, width, height, height);
        y * BytesPerRow(width) + group < |bytes| &&
        bytes[y * BytesPerRow(width) + group] == GrayscaleByte(data, width, height, y, group)
    {
      GrayscaleBytesAt(data, width, height, height, y, group, y * BytesPerRow(width) + group);
    }
  }

  function GrayscaleHeader(name: string): (r: string)
  {
    "const uint8_t " + name + "[] PROGMEM = {\n  "
  }

  /** `0x` and `byteValue.toString(16).padStart(2, '0')`. */
  function ByteLiteral(v: int): (r: string)
  {
    "0x" + PadStart(NumberToHex(v), 2, '0')
  }

  function ByteLiterals(bytes: seq<nat>): (lits: seq<string>)
    ensures |lits| == |bytes|
  {
    seq(|bytes|, j requires 0 <= j < |bytes| => ByteLiteral(bytes[j]))
  }

  /**
   * lits holds the literal of each byte. The quantifier fires on `bytes[k]`, not on
   * `lits[k]`, so the literals of a listing are not expanded to hex digits unless a byte is named.
   */
  ghost predicate LiteralsOf(bytes: seq<nat>, lits: seq<string>)
  {
    |lits| == |bytes| && forall k {:trigger bytes[k]} :: 0 <= k < |bytes| ==> lits[k] == ByteLiteral(bytes[k])
  }

  lemma ByteLiteralsOf(bytes: seq<nat>)
    ensures LiteralsOf(bytes, ByteLiterals(bytes))
  {
  }

  /** The text `grayscale` returns. */
  function GrayscaleListing(data: seq<uint8>, name: string, width: nat, height: nat): (r: string)
    requires |data| == 4 * (width * height)
  {
    Listing(GrayscaleHeader(name), ByteLiterals(GrayscaleBytes(data, width, height, height)), GrayscaleWrap)
  }

  /**
   * Reading the grayscale text back gives ceil(width / 8) * height bytes of
   * two hex digits each, row after row, with a line ending after every 16th.
   */
  lemma GrayscaleRoundTrip(data: seq<uint8>, name: string, width: nat, height: nat)
    requires |data| == 4 * (width * height)
    ensures ParseListing(GrayscaleHeader(name), 2, GrayscaleListing(data, name, width, height))
      == Some(Items(GrayscaleBytes(data, width, height, height), GrayscaleWrap))
    ensures |GrayscaleBytes(data, width, height, height)| == BytesPerRow(width) * height
  {
    var bytes := GrayscaleBytes(data, width, height, height);
    var lits := ByteLiterals(bytes);
    assert |bytes| == height * BytesPerRow(width);
    forall j | 0 <= j < |bytes|
      ensures bytes[j] < Pow16(2) && lits[j] == HexLiteral(bytes[j], 2)
    {
      PaddedHex(bytes[j], 2);
    }
    ListingRoundTrip(GrayscaleHeader(name), lits, bytes, 2, GrayscaleWrap);
  }

  // ---------------------------------------------------------------------
  // The per-pixel formats
  // ---------------------------------------------------------------------

  /** `((R >> 3) << 11 | (G >> 2) << 5 | B >> 3) >>> 0` */
  function Rgb565Value(r: uint8, g: uint8, b: uint8): (res: int)
  {
    UnsignedShiftRight(BitOr(BitOr(ShiftLeft(ShiftRight(r, 3), 11), ShiftLeft(ShiftRight(g, 2), 5)), ShiftRight(b, 3)), 0)
  }

  /** `((R << 16) | (G << 8) | B) >>> 0` */
  function Rgb888Value(r: uint8, g: uint8, b: uint8): (res: int)
  {
    UnsignedShiftRight(BitOr(BitOr(ShiftLeft(r, 16), ShiftLeft(g, 8)), b), 0)
  }

  /** `((R << 24) | (G << 16) | (B << 8) | A) >>> 0` */
  function Rgba8888Value(r: uint8, g: uint8, b: uint8, a: uint8): (res: int)
  {
    UnsignedShiftRight(BitOr(BitOr(BitOr(ShiftLeft(r, 24), ShiftLeft(g, 16)), ShiftLeft(b, 8)), a), 0)
  }

  /** `0x` and `(v & 0xFFFF).toString(16).padStart(4, '0')` */
  function Rgb565Literal(v: int): (r: string)
  {
    "0x" + PadStart(NumberToHex(BitAnd(v, 0xFFFF)), 4, '0')
  }

  /** `0x` and `v.toString(16).padStart(6, '0').padStart(8, '0')` */
  function Rgb888Literal(v: int): (r: string)
  {
    "0x" + PadStart(PadStart(NumberToHex(v), 6, '0'), 8, '0')
  }

  /** `0x` and `v.toString(16).padStart(8, '0')` */
  function Rgba8888Literal(v: int): (r: string)
  {
    "0x" + PadStart(NumberToHex(v), 8, '0')
  }

  /** RGB565 keeps the top 5 bits of red, 6 of green and 5 of blue, red most significant; alpha is not read. */
  lemma Rgb565ValuePacks(r: uint8, g: uint8, b: uint8)
    ensures Rgb565Value(r, g, b) == (r / 8) * 0x800 + (g / 4) * 0x20 + b / 8
  {
    Pow2Values();
    var red := ShiftRight(r, 3);
    var green := ShiftRight(g, 2);
    var blue := ShiftRight(b, 3);
    ShiftRightSmall(r, 3);
    ShiftRightSmall(g, 2);
    ShiftRightSmall(b, 3);
    ShiftLeftUnsigned(red, 11);
    ShiftLeftSmall(green, 5);
    var high := BitOr(ShiftLeft(red, 11), ShiftLeft(green, 5));
    BitOrAdds(ShiftLeft(red, 11), ShiftLeft(green, 5), red, 11);
    BitOrAdds(high, blue, red * 64 + green, 5);
  }

  /** RGB888 is R, G and B as the three low bytes. */
  lemma Rgb888ValuePacks(r: uint8, g: uint8, b: uint8)
    ensures Rgb888Value(r, g, b) == r * 0x1_0000 + g * 0x100 + b
  {
    Pow2Values();
    ShiftLeftUnsigned(r, 16);
    ShiftLeftSmall(g, 8);
    var high := BitOr(ShiftLeft(r, 16), ShiftLeft(g, 8));
    BitOrAdds(ShiftLeft(r, 16), ShiftLeft(g, 8), r, 16);
    BitOrAdds(high, b, r * 0x100 + g, 8);
  }

  /** RGBA8888 is the unsigned 32-bit word R, G, B, A, red most significant. */
  lemma Rgba8888ValuePacks(r: uint8, g: uint8, b: uint8, a: uint8)
    ensures Rgba8888Value(r, g, b, a) == r * 0x100_0000 + g * 0x1_0000 + b * 0x100 + a
  {
    Pow2Values();
    ShiftLeftUnsigned(r, 24);
    ShiftLeftSmall(g, 16);
    ShiftLeftSmall(b, 8);
    var rg := BitOr(ShiftLeft(r, 24), ShiftLeft(g, 16));
    BitOrAdds(ShiftLeft(r, 24), ShiftLeft(g, 16), r, 24);
    var rgb := BitOr(rg, ShiftLeft(b, 8));
    BitOrAdds(rg, ShiftLeft(b, 8), r * 0x100 + g, 16);
    BitOrAdds(rgb, a, r * 0x1_0000 + g * 0x100 + b, 8);
  }

  /** The literal of an RGB565 value is `0x` and its 4 hex digits. */
  lemma Rgb565LiteralIsHex(v: int)
    requires 0 <= v < 0x1_0000
    ensures Rgb565Literal(v) == HexLiteral(v, 4)
  {
    Pow2Values();
    AndBitsLowMask(v, 16);
    SmallIsUnchanged(v);
    PaddedHex(v, 4);
  }

  /** The literal of an RGB888 value is `0x`, two zero digits and its 6 hex digits. */
  lemma Rgb888LiteralIsHex(v: int)
    requires 0 <= v < 0x100_0000
    ensures Rgb888Literal(v) == HexLiteral(v, 8)
    ensures Rgb888Literal(v)[2..4] == "00"
  {
    PaddedHex(v, 6);
    FixedHexWiden(v, 6, 2);
    assert PadStart(FixedHex(v, 6), 8, '0') == Repeat('0', 2) + FixedHex(v, 6);
    assert Rgb888Literal(v) == "0x" + Repeat('0', 2) + FixedHex(v, 6);
  }

  /** The literal of an RGBA8888 value is `0x` and its 8 hex digits. */
  lemma Rgba8888LiteralIsHex(v: int)
    requires 0 <= v < 0x1_0000_0000
    ensures Rgba8888Literal(v) == HexLiteral(v, 8)
  {
    PaddedHex(v, 8);
  }

  /** RGB565's text for a pixel is `0x` and 4 hex digits of its packed value. */
  lemma Rgb565Text(r: uint8, g: uint8, b: uint8, a: uint8)
    ensures Rgb565Literal(Rgb565Value(r, g, b)) == HexLiteral(PackedPixel(Rgb565Format, r, g, b, a), 4)
  {
    var v := Rgb565Value(r, g, b);
    Rgb565ValuePacks(r, g, b);
    assert v == PackedPixel(Rgb565Format, r, g, b, a);
    PackedPixelFits(Rgb565Format, r, g, b, a);
    Pow16Values();
    Rgb565LiteralIsHex(v);
  }

  /** RGB888's text for a pixel is `0x` and 8 hex digits of its packed value. */
  lemma Rgb888Text(r: uint8, g: uint8, b: uint8, a: uint8)
    ensures Rgb888Literal(Rgb888Value(r, g, b)) == HexLiteral(PackedPixel(Rgb888Format, r, g, b, a), 8)
  {
    var v := Rgb888Value(r, g, b);
    Rgb888ValuePacks(r, g, b);
    assert v == PackedPixel(Rgb888Format, r, g, b, a);
    PackedPixelFits(Rgb888Format, r, g, b, a);
    Pow16Values();
    Rgb888LiteralIsHex(v);
  }

  /** RGBA8888's text for a pixel is `0x` and 8 hex digits of its packed value. */
  lemma Rgba8888Text(r: uint8, g: uint8, b: uint8, a: uint8)
    ensures Rgba8888Literal(Rgba8888Value(r, g, b, a)) == HexLiteral(PackedPixel(Rgba8888Format, r, g, b, a), 8)
  {
    var v := Rgba8888Value(r, g, b, a);
    Rgba8888ValuePacks(r, g, b, a);
    assert v == PackedPixel(Rgba8888Format, r, g, b, a);
    PackedPixelFits(Rgba8888Format, r, g, b, a);
    Pow16Values();
    Rgba8888LiteralIsHex(v);
  }

  /** Pure red in RGB565 is "0xf800": five set bits of red at the top. */
  lemma Rgb565RedExample()
    ensures HexLiteral(PackedPixel(Rgb565Format, 255, 0, 0, 0), 4) == "0xf800"
  {
    assert PackedPixel(Rgb565Format, 255, 0, 0, 0) == 0xf800;
    assert FixedHex(0xf, 1) == ['f'];
    assert FixedHex(0xf8, 2) == ['f', '8'];
    assert FixedHex(0xf80, 3) == ['f', '8', '0'];
    assert FixedHex(0xf800, 4) == ['f', '8', '0', '0'];
  }

  /** Pure green in RGB565 is "0x07e0" and pure blue "0x001f". */
  lemma Rgb565GreenBlueExample()
    ensures HexLiteral(PackedPixel(Rgb565Format, 0, 255, 0, 0), 4) == "0x07e0"
    ensures HexLiteral(PackedPixel(Rgb565Format, 0, 0, 255, 0), 4) == "0x001f"
  {
    assert PackedPixel(Rgb565Format, 0, 255, 0, 0) == 0x7e0;
    assert FixedHex(0, 1) == ['0'];
    assert FixedHex(0x7, 2) == ['0', '7'];
    assert FixedHex(0x7e, 3) == ['0', '7', 'e'];
    assert FixedHex(0x7e0, 4) == ['0', '7', 'e', '0'];
    assert PackedPixel(Rgb565Format, 0, 0, 255, 0) == 0x1f;
    assert FixedHex(0, 2) == ['0', '0'];
    assert FixedHex(0x1, 3) == ['0', '0', '1'];
    assert FixedHex(0x1f, 4) == ['0', '0', '1', 'f'];
  }

  /** (10, 20, 30, 40) in RGBA8888 is "0x0a141e28". */
  lemma Rgba8888Example()
    ensures HexLiteral(PackedPixel(Rgba8888Format, 10, 20, 30, 40), 8) == "0x0a141e28"
  {
    assert PackedPixel(Rgba8888Format, 10, 20, 30, 40) == 0x0a141e28;
    assert FixedHex(0, 1) == ['0'];
    assert FixedHex(0xa, 2) == ['0', 'a'];
    assert FixedHex(0xa1, 3) == ['0', 'a', '1'];
    assert FixedHex(0xa14, 4) == ['0', 'a', '1', '4'];
    assert FixedHex(0xa141, 5) == ['0', 'a', '1', '4', '1'];
    assert FixedHex(0xa141e, 6) == ['0', 'a', '1', '4', '1', 'e'];
    assert FixedHex(0xa141e2, 7) == ['0', 'a', '1', '4', '1', 'e', '2'];
    assert FixedHex(0xa141e28, 8) == ['0', 'a', '1', '4', '1', 'e', '2', '8'];
  }

  /** (1, 2, 3) in RGB888 is "0x00010203": two zero digits, then red, green and blue. */
  lemma Rgb888Example()
    ensures HexLiteral(PackedPixel(Rgb888Format, 1, 2, 3, 4), 8) == "0x00010203"
  {
    assert PackedPixel(Rgb888Format, 1, 2, 3, 4) == 0x010203;
    assert FixedHex(0, 3) == ['0', '0', '0'];
    assert FixedHex(0x1, 4) == ['0', '0', '0', '1'];
    assert FixedHex(0x10, 5) == ['0', '0', '0', '1', '0'];
    assert FixedHex(0x102, 6) == ['0', '0', '0', '1', '0', '2'];
    assert FixedHex(0x1020, 7) == ['0', '0', '0', '1', '0', '2', '0'];
    assert FixedHex(0x10203, 8) == ['0', '0', '0', '1', '0', '2', '0', '3'];
  }

  /** RGB888 writes 8 digits of which the first two are always zero. */
  lemma Rgb888TopByteZero(r: uint8, g: uint8, b: uint8)
    ensures Rgb888Literal(Rgb888Value(r, g, b))[2..4] == "00"
  {
    var v := Rgb888Value(r, g, b);
    Rgb888ValuePacks(r, g, b);
    Rgb888LiteralIsHex(v);
  }

  function WordHeader(format: WordFormat, name: string): (r: string)
  {
    match format
    case Rgb565Format => "const uint16_t " + name + "[] = {\n  "
    case _ => "const uint32_t " + name + "[] = {\n  "
  }

  /** Elements per line. */
  function WordWrap(format: WordFormat): (r: nat)
  {
    match format
    case Rgb565Format => 12
    case Rgb888Format => 10
    case Rgba8888Format => 12
  }

  /** Hex digits per element. */
  function WordDigits(format: WordFormat): (r: nat)
  {
    if format == Rgb565Format then 4 else 8
  }

  /** The value the encoder computes for one pixel, with the JavaScript operators. */
  function PixelValue(format: WordFormat, r: uint8, g: uint8, b: uint8, a: uint8): (res: int)
  {
    match format
    case Rgb565Format => Rgb565Value(r, g, b)
    case Rgb888Format => Rgb888Value(r, g, b)
    case Rgba8888Format => Rgba8888Value(r, g, b, a)
  }

  /** The element text for a pixel value. */
  function WordLiteral(format: WordFormat, v: int): (r: string)
  {
    match format
    case Rgb565Format => Rgb565Literal(v)
    case Rgb888Format => Rgb888Literal(v)
    case Rgba8888Format => Rgba8888Literal(v)
  }

  /** The value a format stores for one pixel, as plain arithmetic. */
  function PackedPixel(format: WordFormat, r: uint8, g: uint8, b: uint8, a: uint8): (res: nat)
  {
    match format
    case Rgb565Format => (r / 8) * 0x800 + (g / 4) * 0x20 + b / 8
    case Rgb888Format => r * 0x1_0000 + g * 0x100 + b
    case Rgba8888Format => r * 0x100_0000 + g * 0x1_0000 + b * 0x100 + a
  }

  /** The packed value fits in the digits its format writes. */
  lemma PackedPixelFits(format: WordFormat, r: uint8, g: uint8, b: uint8, a: uint8)
    ensures PackedPixel(format, r, g, b, a) < Pow16(WordDigits(format))
  {
    Pow16Values();
  }

  /** With the JavaScript operators, every format writes a pixel as `0x` and WordDigits hex digits of its packed value. */
  lemma PixelLiteralIsPacked(format: WordFormat, r: uint8, g: uint8, b: uint8, a: uint8)
    ensures WordLiteral(format, PixelValue(format, r, g, b, a)) == HexLiteral(PackedPixel(format, r, g, b, a), WordDigits(format))
  {
    match format
    case Rgb565Format => Rgb565Text(r, g, b, a);
    case Rgb888Format => Rgb888Text(r, g, b, a);
    case Rgba8888Format => Rgba8888Text(r, g, b, a);
  }

  /** The packed value of pixel p of `data`. */
  function PackedAt(format: WordFormat, data: seq<uint8>, p: nat): (r: nat)
    requires p < |data| / 4
  {
    PackedPixel(format, data[4 * p], data[4 * p + 1], data[4 * p + 2], data[4 * p + 3])
  }

  /** The packed values of the pixels of `data`, in buffer order. */
  function PackedPixels(format: WordFormat, data: seq<uint8>): (words: seq<nat>)
    ensures |words| == |data| / 4
  {
    seq(|data| / 4, p requires 0 <= p < |data| / 4 => PackedAt(format, data, p))
  }

  /** The packed values of the pixels of `data`, each written as a hex literal of WordDigits digits. */
  function PackedLiterals(format: WordFormat, data: seq<uint8>): (lits: seq<string>)
    ensures |lits| == |data| / 4
  {
    seq(|data| / 4, p requires 0 <= p < |data| / 4 => HexLiteral(PackedAt(format, data, p), WordDigits(format)))
  }

  /** The text `rgb565`, `rgb888` or `rgba8888` returns. */
  function WordListing(format: WordFormat, data: seq<uint8>, name: string): (r: string)
  {
    Listing(WordHeader(format, name), PackedLiterals(format, data), WordWrap(format))
  }

  /**
   * Reading a per-pixel text back gives one element per pixel, in buffer
   * order, each the packed value of that pixel, with a line ending after
   * every WordWrap-th.
   */
  lemma WordRoundTrip(format: WordFormat, data: seq<uint8>, name: string)
    ensures ParseListing(WordHeader(format, name), WordDigits(format), WordListing(format, data, name))
      == Some(Items(PackedPixels(format, data), WordWrap(format)))
  {
    var words := PackedPixels(format, data);
    var lits := PackedLiterals(format, data);
    forall p | 0 <= p < |words|
      ensures words[p] < Pow16(WordDigits(format)) && lits[p] == HexLiteral(words[p], WordDigits(format))
    {
      PackedPixelFits(format, data[4 * p], data[4 * p + 1], data[4 * p + 2], data[4 * p + 3]);
    }
    ListingRoundTrip(WordHeader(format, name), PackedLiterals(format, data), PackedPixels(format, data), WordDigits(format), WordWrap(format));
  }

  // ---------------------------------------------------------------------
  // The encoders
  // ---------------------------------------------------------------------

  /** One round of the bit loop: the bit for column x + bit is set iff that column is inside the row and dark. */
  lemma PartialByteNext(data: seq<uint8>, width: nat, height: nat, y: nat, x: nat, group: nat, bit: nat)
    requires |data| == 4 * (width * height) && y < height && x == 8 * group && bit < 8
    ensures x + bit < width ==> (y * width + x + bit) * 4 + 2 < |data|
    ensures PartialByte(data, width, height, y, group, bit + 1) ==
      var v := PartialByte(data, width, height, y, group, bit);
      var i := (y * width + x + bit) * 4;
      if x + bit < width && Luma(data[i], data[i + 1], data[i + 2]) < 69 then BitOr(v, ShiftLeft(1, 7 - bit)) else v
  {
    if x + bit < width {
      assert (y * width + x + bit) * 4 == PixelIndex(width, height, y, x + bit);
    }
  }

  /** The bit loop of `grayscale`: byteValue for the eight columns x = 8 * group .. x + 7 of row y. */
  method PackByte(data: array<uint8>, width: nat, height: nat, y: nat, x: nat, ghost group: nat) returns (byteValue: int)
    requires data.Length == 4 * (width * height) && y < height && x == 8 * group
    ensures byteValue == GrayscaleByte(data[..], width, height, y, group)
  {
    byteValue := 0;
    var bit := 0;
    while bit < 8
      invariant bit <= 8 && byteValue == PartialByte(data[..], width, height, y, group, bit)
    {
      PartialByteNext(data[..], width, height, y, x, group, bit);
      if x + bit < width {
        var i := (y * width + x + bit) * 4;
        var gray := Luma(data[i], data[i + 1], data[i + 2]);
        if gray < 69 {
          byteValue := BitOr(byteValue, ShiftLeft(1, 7 - bit));
        }
      }
      bit := bit + 1;
    }
  }

  /** Converts to 1-bit grayscale for a monochrome display; `threshold` is not read. */
  method Grayscale(data: array<uint8>, name: string, width: nat, height: nat, threshold: int) returns (grayData: string)
    requires data.Length == 4 * (width * height)
    ensures grayData == GrayscaleListing(data[..], name, width, height)
  {
    ghost var bytes := GrayscaleBytes(data[..], width, height, height);
    ghost var lits := ByteLiterals(bytes);
    ghost var whole := GrayscaleHeader(name) + ElementsFrom(lits, 0, GrayscaleWrap);
    GrayscaleBytesRowMajor(data[..], width, height);
    ByteLiteralsOf(bytes);
    grayData := GrayscaleRows(data, width, height, GrayscaleHeader(name), bytes, lits, whole);
    ListingComplete(grayData, GrayscaleHeader(name), lits, GrayscaleWrap);
    grayData := grayData + Footer;
  }

  /** The y loop of `grayscale`: every row's elements, appended after the header. */
  method GrayscaleRows(data: array<uint8>, width: nat, height: nat, header: string,
                       ghost bytes: seq<nat>, ghost lits: seq<string>, ghost whole: string)
    returns (grayData: string)
    requires data.Length == 4 * (width * height)
    requires RowsOfBytes(data[..], width, height, bytes) && LiteralsOf(bytes, lits)
    requires whole == header + ElementsFrom(lits, 0, GrayscaleWrap)
    ensures grayData + ElementsFrom(lits, |lits|, GrayscaleWrap) == whole
  {
    grayData := header;
    var bytesPerRow := (width + 7) / 8;
    var bufferLength := bytesPerRow * height;
    assert |lits| == bufferLength;
    var byteIndex: nat := 0;
    var bytesOnCurrentLine: nat := 0;
    var y := 0;
    while y < height
      invariant y <= height && byteIndex == y * bytesPerRow
      invariant byteIndex < bufferLength ==> bytesOnCurrentLine == byteIndex % GrayscaleWrap
      invariant byteIndex <= |lits| && grayData + ElementsFrom(lits, byteIndex, GrayscaleWrap) == whole
    {
      RowFits(y, height, bytesPerRow);
      grayData, byteIndex, bytesOnCurrentLine :=
        GrayscaleRowLoop(data, width, height, y, bytesPerRow, bufferLength, grayData, byteIndex, bytesOnCurrentLine, bytes, lits, whole);
      RowEnd(y, bytesPerRow, byteIndex);
      y := y + 1;
    }
  }

  /** The x loop of `grayscale` for row y: one byte per eight columns, each appended with its separator. */
  method GrayscaleRowLoop(data: array<uint8>, width: nat, height: nat, y: nat, bytesPerRow: nat, bufferLength: nat,
                          grayData: string, byteIndex: nat, bytesOnCurrentLine: nat,
                          ghost bytes: seq<nat>, ghost lits: seq<string>, ghost whole: string)
    returns (grayData': string, byteIndex': nat, bytesOnCurrentLine': nat)
    requires data.Length == 4 * (width * height) && y < height
    requires bytesPerRow == BytesPerRow(width) && bufferLength == |lits|
    requires RowsOfBytes(data[..], width, height, bytes) && LiteralsOf(bytes, lits)
    requires byteIndex == y * bytesPerRow
    requires byteIndex + bytesPerRow <= bufferLength && (byteIndex < bufferLength ==> bytesOnCurrentLine == byteIndex % GrayscaleWrap)
    requires grayData + ElementsFrom(lits, byteIndex, GrayscaleWrap) == whole
    ensures byteIndex' == byteIndex + bytesPerRow && byteIndex' <= bufferLength
    ensures byteIndex' < bufferLength ==> bytesOnCurrentLine' == byteIndex' % GrayscaleWrap
    ensures grayData' + ElementsFrom(lits, byteIndex', GrayscaleWrap) == whole
  {
    grayData', byteIndex', bytesOnCurrentLine' := grayData, byteIndex, bytesOnCurrentLine;
    var x := 0;
    while x < width
      invariant byteIndex <= byteIndex' <= byteIndex + bytesPerRow && x == 8 * (byteIndex' - byteIndex)
      invariant byteIndex' <= bufferLength
      invariant byteIndex' < bufferLength ==> bytesOnCurrentLine' == byteIndex' % GrayscaleWrap
      invariant grayData' + ElementsFrom(lits, byteIndex', GrayscaleWrap) == whole
    {
      ghost var group := byteIndex' - byteIndex;
      var byteValue := PackByte(data, width, height, y, x, group);
      assert bytes[byteIndex'] == byteValue;
      assert lits[byteIndex'] == ByteLiteral(byteValue);
      grayData', byteIndex', bytesOnCurrentLine' :=
        AppendElement(grayData', ByteLiteral(byteValue), byteIndex', bytesOnCurrentLine', bufferLength, GrayscaleWrap, lits, whole);
      x := x + 8;
    }
  }

  /**
   * After a row of bytesPerRow bytes, the byte index is at the start of the next
   * row. Stated apart to keep the multiplication out of Grayscale's loop.
   */
  lemma RowEnd(y: nat, bytesPerRow: nat, byteIndex: nat)
    requires byteIndex == y * bytesPerRow + bytesPerRow
    ensures byteIndex == (y + 1) * bytesPerRow
  {
  }

  /** One pixel of `rgb565`: the JavaScript value and its text, which is 4 digits of the packed pixel (alpha is not read). */
  method Rgb565Element(r: uint8, g: uint8, b: uint8, a: uint8) returns (literal: string)
    ensures literal == HexLiteral(PackedPixel(Rgb565Format, r, g, b, a), WordDigits(Rgb565Format))
  {
    var rgb565Value := Rgb565Value(r, g, b);
    Rgb565Text(r, g, b, a);
    literal := Rgb565Literal(rgb565Value);
  }

  /** One pixel of `rgb888`: the JavaScript value and its text, which is 8 digits of the packed pixel (alpha is not read). */
  method Rgb888Element(r: uint8, g: uint8, b: uint8, a: uint8) returns (literal: string)
    ensures literal == HexLiteral(PackedPixel(Rgb888Format, r, g, b, a), WordDigits(Rgb888Format))
  {
    var rgb := Rgb888Value(r, g, b);
    Rgb888Text(r, g, b, a);
    literal := Rgb888Literal(rgb);
  }

  /** One pixel of `rgba8888`: the JavaScript value and its text, which is 8 digits of the packed pixel. */
  method Rgba8888Element(r: uint8, g: uint8, b: uint8, a: uint8) returns (literal: string)
    ensures literal == HexLiteral(PackedPixel(Rgba8888Format, r, g, b, a), WordDigits(Rgba8888Format))
  {
    var rgba := Rgba8888Value(r, g, b, a);
    Rgba8888Text(r, g, b, a);
    literal := Rgba8888Literal(rgba);
  }

  /** Element p of PackedLiterals is the literal of the pixel whose channels sit at 4 * p .. 4 * p + 3. */
  lemma PackedLiteralAt(format: WordFormat, data: seq<uint8>, p: nat, r: uint8, g: uint8, b: uint8, a: uint8)
    requires 4 * p + 3 < |data|
    requires data[4 * p] == r && data[4 * p + 1] == g && data[4 * p + 2] == b && data[4 * p + 3] == a
    ensures p < |PackedLiterals(format, data)|
    ensures PackedLiterals(format, data)[p] == HexLiteral(PackedPixel(format, r, g, b, a), WordDigits(format))
  {
  }

  /** Converts to 16-bit RGB565 words. */
  method Rgb565(data: array<uint8>, name: string, width: nat, height: nat) returns (rgbData: string)
    requires data.Length == 4 * (width * height)
    ensures rgbData == WordListing(Rgb565Format, data[..], name)
  {
    ghost var lits := PackedLiterals(Rgb565Format, data[..]);
    ghost var header := WordHeader(Rgb565Format, name);
    rgbData := WordHeader(Rgb565Format, name);
    var bufferLength := width * height;
    var byteIndex: nat := 0;
    var bytesOnCurrentLine: nat := 0;
    var i := 0;
    while i < data.Length
      invariant i == 4 * byteIndex && byteIndex <= bufferLength
      invariant byteIndex < bufferLength ==> bytesOnCurrentLine == byteIndex % 12
      invariant rgbData + ElementsFrom(lits, byteIndex, 12) == header + ElementsFrom(lits, 0, 12)
    {
      var literal := Rgb565Element(data[i], data[i + 1], data[i + 2], data[i + 3]);
      PackedLiteralAt(Rgb565Format, data[..], byteIndex, data[i], data[i + 1], data[i + 2], data[i + 3]);
      rgbData, byteIndex, bytesOnCurrentLine := AppendElement(rgbData, literal, byteIndex, bytesOnCurrentLine, bufferLength, 12, lits, header + ElementsFrom(lits, 0, 12));
      i := i + 4;
    }
    ListingComplete(rgbData, header, lits, 12);
    rgbData := rgbData + Footer;
  }

  /** Converts to 32-bit words holding RGB888 in the low three bytes. */
  method Rgb888(data: array<uint8>, name: string, width: nat, height: nat) returns (rgbData: string)
    requires data.Length == 4 * (width * height)
    ensures rgbData == WordListing(Rgb888Format, data[..], name)
  {
    ghost var lits := PackedLiterals(Rgb888Format, data[..]);
    ghost var header := WordHeader(Rgb888Format, name);
    rgbData := WordHeader(Rgb888Format, name);
    var bufferLength := width * height;
    var byteIndex: nat := 0;
    var bytesOnCurrentLine: nat := 0;
    var i := 0;
    while i < data.Length
      invariant i == 4 * byteIndex && byteIndex <= bufferLength
      invariant byteIndex < bufferLength ==> bytesOnCurrentLine == byteIndex % 10
      invariant rgbData + ElementsFrom(lits, byteIndex, 10) == header + ElementsFrom(lits, 0, 10)
    {
      var literal := Rgb888Element(data[i], data[i + 1], data[i + 2], data[i + 3]);
      PackedLiteralAt(Rgb888Format, data[..], byteIndex, data[i], data[i + 1], data[i + 2], data[i + 3]);
      rgbData, byteIndex, bytesOnCurrentLine := AppendElement(rgbData, literal, byteIndex, bytesOnCurrentLine, bufferLength, 10, lits, header + ElementsFrom(lits, 0, 10));
      i := i + 4;
    }
    ListingComplete(rgbData, header, lits, 10);
    rgbData := rgbData + Footer;
  }

  /** Converts to 32-bit RGBA8888 words. */
  method Rgba8888(data: array<uint8>, name: string, width: nat, height: nat) returns (rgbaData: string)
    requires data.Length == 4 * (width * height)
    ensures rgbaData == WordListing(Rgba8888Format, data[..], name)
  {
    ghost var lits := PackedLiterals(Rgba8888Format, data[..]);
    ghost var header := WordHeader(Rgba8888Format, name);
    rgbaData := WordHeader(Rgba8888Format, name);
    var bufferLength := width * height;
    var byteIndex: nat := 0;
    var bytesOnCurrentLine: nat := 0;
    var i := 0;
    while i < data.Length
      invariant i == 4 * byteIndex && byteIndex <= bufferLength
      invariant byteIndex < bufferLength ==> bytesOnCurrentLine == byteIndex % 12
      invariant rgbaData + ElementsFrom(lits, byteIndex, 12) == header + ElementsFrom(lits, 0, 12)
    {
      var literal := Rgba8888Element(data[i], data[i + 1], data[i + 2], data[i + 3]);
      PackedLiteralAt(Rgba8888Format, data[..], byteIndex, data[i], data[i + 1], data[i + 2], data[i + 3]);
      rgbaData, byteIndex, bytesOnCurrentLine := AppendElement(rgbaData, literal, byteIndex, bytesOnCurrentLine, bufferLength, 12, lits, header + ElementsFrom(lits, 0, 12));
      i := i + 4;
    }
    ListingComplete(rgbaData, header, lits, 12);
    rgbaData := rgbaData + Footer;
  }

  // ---------------------------------------------------------------------
  // Colour inversion
  // ---------------------------------------------------------------------

  /** The buffer with every red, green and blue channel v replaced by 255 - v; alpha is kept. */
  function Inverted(s: seq<uint8>): (r: seq<uint8>)
    ensures |r| == |s|
  {
    seq(|s|, k requires 0 <= k < |s| => if k % 4 == 3 then s[k] else 255 - s[k])
  }

  /** Inverting twice restores the buffer. */
  lemma InvertedTwice(s: seq<uint8>)
    ensures Inverted(Inverted(s)) == s
  {
    var t := Inverted(Inverted(s));
    forall k | 0 <= k < |s|
      ensures t[k] == s[k]
    {
    }
  }

  /** Inversion changes the colour channels and no alpha channel. */
  lemma InvertedChannels(s: seq<uint8>, k: nat)
    requires k < |s|
    ensures k % 4 == 3 ==> Inverted(s)[k] == s[k]
    ensures k % 4 != 3 ==> Inverted(s)[k] + s[k] == 255
  {
  }

  /**
   * `invertImage`: inverts the colour channels in place, four entries at a
   * time. Writes past the end of a typed array are ignored, so a trailing
   * partial pixel only has its existing entries inverted.
   */
  method InvertImage(data: array<uint8>)
    modifies data
    ensures data[..] == Inverted(old(data[..]))
  {
    ghost var original := data[..];
    var i := 0;
    while i < data.Length
      invariant 0 <= i && i % 4 == 0 && (i <= data.Length || i - 4 < data.Length)
      invariant forall k :: 0 <= k < data.Length && k < i ==> data[k] == Inverted(original)[k]
      invariant forall k :: i <= k < data.Length ==> data[k] == original[k]
    {
      data[i] := 255 - data[i];
      if i + 1 < data.Length {
        data[i + 1] := 255 - data[i + 1];
      }
      if i + 2 < data.Length {
        data[i + 2] := 255 - data[i + 2];
      }
      i := i + 4;
    }
    assert data[..] == Inverted(original);
  }

  // ---------------------------------------------------------------------
  // Output size and the choice of encoder
  // ---------------------------------------------------------------------

  /**
   * The canvas size: both configured sizes when both are positive; otherwise
   * a positive width or height is kept and the other side follows the
   * original aspect ratio, rounded to the nearest integer; otherwise the
   * original size.
   */
  function OutputSize(originalWidth: int, originalHeight: int, canvasWidth: int, canvasHeight: int): (size: (int, int))
    requires canvasWidth > 0 && canvasHeight <= 0 ==> originalWidth > 0
    requires canvasWidth <= 0 && canvasHeight > 0 ==> originalHeight > 0
    ensures canvasWidth > 0 && canvasHeight > 0 ==> size == (canvasWidth, canvasHeight)
    ensures canvasWidth > 0 && canvasHeight <= 0 ==>
      size.0 == canvasWidth && NearestRatio(size.1, canvasWidth * originalHeight, originalWidth)
    ensures canvasWidth <= 0 && canvasHeight > 0 ==>
      size.1 == canvasHeight && NearestRatio(size.0, canvasHeight * originalWidth, originalHeight)
    ensures canvasWidth <= 0 && canvasHeight <= 0 ==> size == (originalWidth, originalHeight)
  {
    if canvasWidth > 0 && canvasHeight > 0 then (canvasWidth, canvasHeight)
    else if canvasWidth > 0 then (canvasWidth, RoundDiv(canvasWidth * originalHeight, originalWidth))
    else if canvasHeight > 0 then (RoundDiv(canvasHeight * originalWidth, originalHeight), canvasHeight)
    else (originalWidth, originalHeight)
  }

  /** A 50 x 25 image drawn 100 wide becomes 100 x 50; halves round up. */
  lemma OutputSizeExamples()
    ensures OutputSize(50, 25, 100, 0) == (100, 50)
    ensures OutputSize(3, 1, 0, 1) == (3, 1)
    ensures OutputSize(2, 3, 3, 0) == (3, 5)
    ensures OutputSize(640, 480, 0, 0) == (640, 480)
  {
    NearestRatioUnique(OutputSize(50, 25, 100, 0).1, 50, 100 * 25, 50);
    NearestRatioUnique(OutputSize(2, 3, 3, 0).1, 5, 3 * 3, 2);
  }

  /** `pixelEncoding || 'rgb565'`: a missing or empty setting selects rgb565. */
  function PixelFormat(config: Config): (format: string)
    ensures format != ""
    ensures config.pixelEncoding != "" ==> format == config.pixelEncoding
    ensures config.pixelEncoding == "" ==> format == "rgb565"
  {
    if config.pixelEncoding != "" then config.pixelEncoding else "rgb565"
  }

  /** The key of each encoder in the `encoding` table. */
  function EncodingName(e: Encoding): (r: string)
  {
    match e
    case GrayscaleEncoding => "grayscale"
    case WordEncoding(Rgb565Format) => "rgb565"
    case WordEncoding(Rgb888Format) => "rgb888"
    case WordEncoding(Rgba8888Format) => "rgba8888"
  }

  /** `encoding[name]`: the encoder with that key, if there is one. */
  function LookupEncoding(name: string): (e: Option<Encoding>)
    ensures e.Some? ==> EncodingName(e.value) == name
  {
    if name == "grayscale" then Some(GrayscaleEncoding)
    else if name == "rgb565" then Some(WordEncoding(Rgb565Format))
    else if name == "rgb888" then Some(WordEncoding(Rgb888Format))
    else if name == "rgba8888" then Some(WordEncoding(Rgba8888Format))
    else None
  }

  /** Every encoder is found under its own key, so the table is exactly the four names. */
  lemma LookupEncodingName(e: Encoding)
    ensures LookupEncoding(EncodingName(e)) == Some(e)
  {
  }

  /** The default format has an encoder. */
  lemma DefaultFormatIsKnown(config: Config)
    requires config.pixelEncoding == ""
    ensures LookupEncoding(PixelFormat(config)) == Some(WordEncoding(Rgb565Format))
  {
  }

  /** The text the chosen encoder returns. */
  function EncodedListing(e: Encoding, data: seq<uint8>, name: string, width: nat, height: nat): (r: string)
    requires |data| == 4 * (width * height)
  {
    match e
    case GrayscaleEncoding => GrayscaleListing(data, name, width, height)
    case WordEncoding(format) => WordListing(format, data, name)
  }

  /** `encoding[pixelFormat](data, name, width, height, threshold)` for a known encoder. */
  method Encode(e: Encoding, data: array<uint8>, name: string, width: nat, height: nat, threshold: int) returns (code: string)
    requires data.Length == 4 * (width * height)
    ensures code == EncodedListing(e, data[..], name, width, height)
  {
    match e
    case GrayscaleEncoding =>
      code := Grayscale(data, name, width, height, threshold);
    case WordEncoding(Rgb565Format) =>
      code := Rgb565(data, name, width, height);
    case WordEncoding(Rgb888Format) =>
      code := Rgb888(data, name, width, height);
    case WordEncoding(Rgba8888Format) =>
      code := Rgba8888(data, name, width, height);
  }

  /** The size the worker draws the image at. */
  function ImageSize(image: Image): (int, int)
    requires ImageSizeDefined(image)
  {
    OutputSize(image.width, image.height, image.config.canvasWidth, image.config.canvasHeight)
  }

  /** The original side that an aspect-ratio computation divides by is positive. */
  predicate ImageSizeDefined(image: Image)
  {
    (image.config.canvasWidth > 0 && image.config.canvasHeight <= 0 ==> image.width > 0) &&
    (image.config.canvasWidth <= 0 && image.config.canvasHeight > 0 ==> image.height > 0)
  }

  /** The message the worker posts for an image whose `encoding` entry is missing. */
  function MissingEncoderMessage(image: Image): (r: WorkerMessage)
  {
    Failure(image.name, "Failed to process image: encoding[pixelFormat] is not a function")
  }

  /**
   * The worker's last stage, from the drawn RGBA pixels to the reply: invert
   * the colours if asked (in place), pick the encoder by name and report the
   * size and the text, or an error when no encoder has that name.
   */
  method FinishImage(image: Image, data: array<uint8>) returns (reply: WorkerMessage)
    requires ImageSizeDefined(image)
    requires ImageSize(image).0 > 0 && ImageSize(image).1 > 0
    requires data.Length == 4 * (ImageSize(image).0 * ImageSize(image).1)
    modifies data
    ensures data[..] == if image.config.invertColors then Inverted(old(data[..])) else old(data[..])
    ensures LookupEncoding(PixelFormat(image.config)).None? ==> reply == MissingEncoderMessage(image)
    ensures LookupEncoding(PixelFormat(image.config)).Some? ==>
      reply == Complete(image.name, PixelFormat(image.config), ImageSize(image).0, ImageSize(image).1,
                        EncodedListing(LookupEncoding(PixelFormat(image.config)).value, data[..], image.name,
                                       ImageSize(image).0, ImageSize(image).1))
  {
    var size := OutputSize(image.width, image.height, image.config.canvasWidth, image.config.canvasHeight);
    var width: nat, height: nat := size.0, size.1;
    if image.config.invertColors {
      InvertImage(data);
    }
    var pixelFormat := PixelFormat(image.config);
    var e := LookupEncoding(pixelFormat);
    match e
    case None =>
      reply := MissingEncoderMessage(image);
    case Some(encoder) =>
      var code := Encode(encoder, data, image.name, width, height, image.config.threshold);
      reply := Complete(image.name, pixelFormat, width, height, code);
  }
}
