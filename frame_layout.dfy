/**
 * The layout shared by the frontend's framebuffer converters: the core hands over a
 * pitched framebuffer (each row `pitch` bytes apart, pixels `Stride` bytes apart in a
 * row), and the converter produces a packed buffer of 4 bytes per pixel in row-major
 * order. The converters differ only in how one pixel is decoded, given here as `Decoder`.
 */
module FrameLayout {
  import opened Common
  import opened Packing

  /** Host byte orders (`__ORDER_LITTLE_ENDIAN__`, `__ORDER_BIG_ENDIAN__`, `__ORDER_PDP_ENDIAN__`). */
  datatype ByteOrder = LittleEndian | BigEndian | PdpEndian

  /** How one source pixel becomes four output bytes. */
  datatype Decoder =
    | Xrgb8888(order: ByteOrder)   // libretro_callbacks.c, RETRO_PIXEL_FORMAT_XRGB8888
    | Rgb565(order: ByteOrder)     // libretro_callbacks.c, RETRO_PIXEL_FORMAT_RGB565
    | LegacyArgb                   // iRetroCore's callbackOutputToPixelBuffer

  /** Distance in bytes between two horizontally adjacent source pixels. */
  function Stride(d: Decoder): nat {
    match d
    case Xrgb8888(_) => 4
    case Rgb565(_) => 2
    case LegacyArgb => 8
  }

  /** Number of source bytes read for one pixel. */
  function ReadLen(d: Decoder): nat {
    match d
    case Rgb565(_) => 2
    case _ => 4
  }

  /** The XRGB8888 path gives up on a host that is neither little- nor big-endian. */
  predicate Decodable(d: Decoder) {
    d != Xrgb8888(PdpEndian)
  }

  /** A native 16-bit load of two consecutive bytes: only a big-endian host puts the first byte high. */
  function Load16(b0: byte, b1: byte, order: ByteOrder): u16 {
    if order == BigEndian then b0 * 0x100 + b1 else b1 * 0x100 + b0
  }

  lemma Load16Orders(b0: byte, b1: byte)
    ensures Load16(b0, b1, BigEndian) == Load16(b1, b0, LittleEndian)
    ensures Load16(b0, b1, PdpEndian) == Load16(b0, b1, LittleEndian)
    ensures Load16(b0, b1, LittleEndian) % 0x100 == b0 && Load16(b0, b1, LittleEndian) / 0x100 == b1
  {
  }

  /** `(p >> 11) & 0x1F` */
  function Red5(p: u16): (v: nat)
    ensures v < 32
  {
    p / 0x800
  }

  /** `(p >> 5) & 0x3F` */
  function Green6(p: u16): (v: nat)
    ensures v < 64
  {
    (p / 0x20) % 0x40
  }

  /** `p & 0x1F` */
  function Blue5(p: u16): (v: nat)
    ensures v < 32
  {
    p % 0x20
  }

  /** The three RGB565 fields partition the 16 bits: the pixel is recovered from them. */
  lemma FieldsRecompose(p: u16)
    ensures p == Red5(p) * 0x800 + Green6(p) * 0x20 + Blue5(p)
  {
  }

  /** `v * 255 / 31` in integer arithmetic: widens a 5-bit channel to 8 bits. */
  function Scale5(v: nat): (c: byte)
    requires v < 32
    ensures c == 0 <==> v == 0
    ensures c == 255 <==> v == 31
  {
    v * 255 / 31
  }

  /** `v * 255 / 63` in integer arithmetic: widens a 6-bit channel to 8 bits. */
  function Scale6(v: nat): (c: byte)
    requires v < 64
    ensures c == 0 <==> v == 0
    ensures c == 255 <==> v == 63
  {
    v * 255 / 63
  }

  /** Rounds an 8-bit channel back to 5 bits; the inverse of `Scale5`. */
  function Narrow5(c: byte): nat {
    (c * 31 + 127) / 255
  }

  /** Rounds an 8-bit channel back to 6 bits; the inverse of `Scale6`. */
  function Narrow6(c: byte): nat {
    (c * 63 + 127) / 255
  }

  /** No two 5-bit values widen to the same byte. */
  lemma Scale5RoundTrip(v: nat)
    requires v < 32
    ensures Narrow5(Scale5(v)) == v
  {
    var c := Scale5(v);
    assert 255 * v - 30 <= 31 * c <= 255 * v;
  }

  /** No two 6-bit values widen to the same byte. */
  lemma Scale6RoundTrip(v: nat)
    requires v < 64
    ensures Narrow6(Scale6(v)) == v
  {
    var c := Scale6(v);
    assert 255 * v - 62 <= 63 * c <= 255 * v;
  }

  /** The four output bytes for one source pixel, given the bytes read for it. */
  function DecodePixel(px: seq<byte>, d: Decoder): (out: seq<byte>)
    requires |px| == ReadLen(d) && Decodable(d)
    ensures |out| == 4
  {
    match d
    case Xrgb8888(order) =>
      // the source reads blue, green, red, alpha and writes them back in this order
      // on a little-endian host, swapping red and blue on a big-endian one
      if order == LittleEndian then [px[0], px[1], px[2], px[3]]
      else [px[2], px[1], px[0], px[3]]
    case Rgb565(order) =>
      var p := Load16(px[0], px[1], order);
      [Scale5(Blue5(p)), Scale6(Green6(p)), Scale5(Red5(p)), 255]
    case LegacyArgb =>
      // bytes read as [b, g, r, a] are written as [a, r, g, b]
      [px[3], px[2], px[1], px[0]]
  }

  lemma XrgbLittleEndianCopies(px: seq<byte>)
    requires |px| == 4
    ensures DecodePixel(px, Xrgb8888(LittleEndian)) == px
  {
  }

  lemma XrgbBigEndianSwapsRedBlue(px: seq<byte>)
    requires |px| == 4
    ensures var out := DecodePixel(px, Xrgb8888(BigEndian));
      out[0] == px[2] && out[1] == px[1] && out[2] == px[0] && out[3] == px[3]
  {
  }

  /** An RGB565 pixel is opaque, and an all-zero or all-one field gives 0 or 255 in its channel. */
  lemma Rgb565Channels(b0: byte, b1: byte, order: ByteOrder)
    ensures var p := Load16(b0, b1, order);
      var out := DecodePixel([b0, b1], Rgb565(order));
      && out[3] == 255
      && (out[0] == 0 <==> Blue5(p) == 0) && (out[0] == 255 <==> Blue5(p) == 31)
      && (out[1] == 0 <==> Green6(p) == 0) && (out[1] == 255 <==> Green6(p) == 63)
      && (out[2] == 0 <==> Red5(p) == 0) && (out[2] == 255 <==> Red5(p) == 31)
      && Narrow5(out[0]) == Blue5(p) && Narrow6(out[1]) == Green6(p) && Narrow5(out[2]) == Red5(p)
  {
    var p := Load16(b0, b1, order);
    Scale5RoundTrip(Blue5(p));
    Scale6RoundTrip(Green6(p));
    Scale5RoundTrip(Red5(p));
  }

  /** The legacy ARGB order reverses the four bytes read, so applying it twice gives them back. */
  lemma LegacyArgbIsReversal(px: seq<byte>)
    requires |px| == 4
    ensures DecodePixel(DecodePixel(px, LegacyArgb), LegacyArgb) == px
  {
  }

  // ---------------------------------------------------------------- frame geometry

  /** Offset in the source of pixel (x, y): `y * pitch + x * Stride`. */
  function PixelOffset(pitch: nat, d: Decoder, y: nat, x: nat): nat {
    Mul(y, pitch) + Mul(x, Stride(d))
  }

  /** The source buffer holds every byte the converter reads for a `w` by `h` frame. */
  predicate Covers(len: nat, w: nat, h: nat, pitch: nat, d: Decoder) {
    w == 0 || h == 0 || Mul(h - 1, pitch) + Mul(w - 1, Stride(d)) + ReadLen(d) <= len
  }

  lemma PixelInBounds(len: nat, w: nat, h: nat, pitch: nat, d: Decoder, y: nat, x: nat)
    requires Covers(len, w, h, pitch, d) && y < h && x < w
    ensures PixelOffset(pitch, d, y, x) + ReadLen(d) <= len
  {
    MulMono(y, h - 1, pitch);
    MulMono(x, w - 1, Stride(d));
  }

  /** The bytes read for pixel (x, y), or nothing when they would lie outside the buffer. */
  function Window(f: seq<byte>, pitch: nat, d: Decoder, y: nat, x: nat): (px: seq<byte>)
    ensures |px| == ReadLen(d) || px == []
  {
    var off := PixelOffset(pitch, d, y, x);
    if off + ReadLen(d) <= |f| then f[off..off + ReadLen(d)] else []
  }

  /** Inside the buffer, the window is the slice at the pixel's offset. */
  lemma WindowAt(f: seq<byte>, pitch: nat, d: Decoder, y: nat, x: nat, off: nat)
    requires off == PixelOffset(pitch, d, y, x) && off + ReadLen(d) <= |f|
    ensures Window(f, pitch, d, y, x) == f[off..off + ReadLen(d)]
  {
  }

  /**
   * The four output bytes of pixel (x, y). `Covers` rules out reads outside the buffer for
   * every pixel of the frame; zeros stand in for such a pixel so that the output stays total.
   */
  function PixelAt(f: seq<byte>, pitch: nat, d: Decoder, y: nat, x: nat): (out: seq<byte>)
    requires Decodable(d)
    ensures |out| == 4
  {
    var px := Window(f, pitch, d, y, x);
    if |px| == ReadLen(d) then DecodePixel(px, d) else [0, 0, 0, 0]
  }

  /** The decoded frame as a picture: pixel (x, y) is `PixelAt` of the frame. */
  function Decoded(f: seq<byte>, pitch: nat, d: Decoder): Grid
    requires Decodable(d)
  {
    (y: nat, x: nat) => PixelAt(f, pitch, d, y, x)
  }

  /** The packed output buffer of a whole `w` by `h` frame. */
  function Converted(f: seq<byte>, w: nat, h: nat, pitch: nat, d: Decoder): (out: seq<byte>)
    requires Decodable(d)
    ensures |out| == Mul(w, h) * 4
  {
    Image(Decoded(f, pitch, d), w, h)
  }

  /** Inside the buffer, pixel (x, y) of the picture decodes the bytes at its offset. */
  lemma DecodedAt(f: seq<byte>, pitch: nat, d: Decoder, y: nat, x: nat, off: nat)
    requires Decodable(d) && off == PixelOffset(pitch, d, y, x) && off + ReadLen(d) <= |f|
    ensures Decoded(f, pitch, d)(y, x) == DecodePixel(f[off..off + ReadLen(d)], d)
  {
    WindowAt(f, pitch, d, y, x, off);
  }

  /**
   * In a frame the buffer covers, the output bytes of pixel (x, y) decode exactly the
   * bytes read at `y * pitch + x * Stride`.
   */
  lemma ConvertedAt(f: seq<byte>, w: nat, h: nat, pitch: nat, d: Decoder, y: nat, x: nat, k: nat)
    requires Decodable(d) && Covers(|f|, w, h, pitch, d) && y < h && x < w && k < 4
    ensures PixelOffset(pitch, d, y, x) + ReadLen(d) <= |f|
    ensures Mul(y, w) * 4 + 4 * x + k < Mul(w, h) * 4
    ensures Converted(f, w, h, pitch, d)[Mul(y, w) * 4 + 4 * x + k]
         == DecodePixel(f[PixelOffset(pitch, d, y, x)..PixelOffset(pitch, d, y, x) + ReadLen(d)], d)[k]
  {
    PixelInBounds(|f|, w, h, pitch, d, y, x);
    ImageIndex(Decoded(f, pitch, d), w, h, y, x, k);
    DecodedAt(f, pitch, d, y, x, PixelOffset(pitch, d, y, x));
  }

  /** Two framebuffers, each with its own pitch, whose pixels read the same bytes. */
  predicate SamePixels(f1: seq<byte>, pitch1: nat, f2: seq<byte>, pitch2: nat, w: nat, h: nat, d: Decoder) {
    forall y, x | 0 <= y < h && 0 <= x < w :: Window(f1, pitch1, d, y, x) == Window(f2, pitch2, d, y, x)
  }

  /**
   * The output depends only on the bytes read for each pixel: row padding beyond
   * `w * Stride` is never read, and the pitch itself does not show in the output.
   */
  lemma PaddingIrrelevant(f1: seq<byte>, pitch1: nat, f2: seq<byte>, pitch2: nat, w: nat, h: nat, d: Decoder)
    requires Decodable(d) && SamePixels(f1, pitch1, f2, pitch2, w, h, d)
    ensures Converted(f1, w, h, pitch1, d) == Converted(f2, w, h, pitch2, d)
  {
    var g1, g2 := Decoded(f1, pitch1, d), Decoded(f2, pitch2, d);
    forall y: nat, x: nat | y < h && x < w
      ensures g1(y, x) == g2(y, x)
    {
      assert Window(f1, pitch1, d, y, x) == Window(f2, pitch2, d, y, x);
    }
    ImageSame(g1, g2, w, h);
  }
}
