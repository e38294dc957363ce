/**
 * The two C helpers the frontend hands to a libretro core: the framebuffer converter,
 * which turns the core's pitched XRGB8888 or RGB565 frame into a packed 4-bytes-per-pixel
 * buffer, and the input-state helper, which pops the head of a queue of pressed button
 * ids by shifting the array left in place.
 */
module LibretroCallbacks {
  import opened Common
  import opened Packing
  import opened FrameLayout

  /** `enum retro_pixel_format` values the converter recognises (0 is 0RGB1555). */
  const RETRO_PIXEL_FORMAT_XRGB8888: u32 := 1
  const RETRO_PIXEL_FORMAT_RGB565: u32 := 2

  predicate SupportedFormat(pixelFormat: u32) {
    pixelFormat == RETRO_PIXEL_FORMAT_XRGB8888 || pixelFormat == RETRO_PIXEL_FORMAT_RGB565
  }

  /** The pixel decoding the converter applies to a supported format on a host of the given byte order. */
  function DecoderFor(pixelFormat: u32, order: ByteOrder): (d: Decoder)
    requires SupportedFormat(pixelFormat)
    ensures Stride(d) == (if pixelFormat == RETRO_PIXEL_FORMAT_XRGB8888 then 4 else 2)
    ensures Decodable(d) <==> pixelFormat == RETRO_PIXEL_FORMAT_RGB565 || order != PdpEndian
  {
    if pixelFormat == RETRO_PIXEL_FORMAT_XRGB8888 then Xrgb8888(order) else Rgb565(order)
  }

  /** The converter returns NULL exactly in these cases (a failed `malloc` aside). */
  predicate ConversionFails(frameIsNull: bool, width: u32, height: u32, pixelFormat: u32, order: ByteOrder) {
    || frameIsNull
    || !SupportedFormat(pixelFormat)
    || (!Decodable(DecoderFor(pixelFormat, order)) && width > 0 && height > 0)
  }

  /**
   * `libretro_video_refresh_callback`. The frame the core hands over is read-only: `None`
   * stands for a NULL pointer, `Some(bytes)` for the bytes behind it. The host byte order
   * `__BYTE_ORDER__` is a parameter. The caller promises that the frame holds every byte
   * read for a `width` by `height` image.
   */
  method VideoRefresh(frame: Option<seq<byte>>, width: u32, height: u32, pitch: nat, pixelFormat: u32, order: ByteOrder)
    returns (pixels: array?<byte>)
    requires frame.Some? && SupportedFormat(pixelFormat) ==>
      Covers(|frame.value|, width, height, pitch, DecoderFor(pixelFormat, order))
    ensures pixels == null <==> ConversionFails(frame.None?, width, height, pixelFormat, order)
    ensures pixels != null ==> fresh(pixels) && frame.Some? && SupportedFormat(pixelFormat)
    ensures pixels != null ==> pixels.Length == Mul(width, height) * 4
    ensures pixels != null && Decodable(DecoderFor(pixelFormat, order)) ==>
      pixels[..] == Converted(frame.value, width, height, pitch, DecoderFor(pixelFormat, order))
  {
    if frame.None? {
      return null;
    }
    if !SupportedFormat(pixelFormat) {
      return null;
    }
    ghost var d := DecoderFor(pixelFormat, order);
    pixels := new byte[Mul(width, height) * 4];
    var ok := ConvertRows(frame.value, pixelFormat, order, width, height, pitch, pixels, d);
    if !ok {
      return null;
    }
  }

  /**
   * The converter's outer loop over the rows of the frame, writing into `pixels`. It
   * stops at the first pixel when the host byte order is unknown.
   */
  method ConvertRows(frame: seq<byte>, pixelFormat: u32, order: ByteOrder, width: u32, height: u32, pitch: nat,
                     pixels: array<byte>, ghost d: Decoder) returns (ok: bool)
    requires SupportedFormat(pixelFormat) && d == DecoderFor(pixelFormat, order)
    requires Covers(|frame|, width, height, pitch, d) && pixels.Length == Mul(width, height) * 4
    modifies pixels
    ensures ok <==> Decodable(d) || width == 0 || height == 0
    ensures ok && Decodable(d) ==> pixels[..] == Converted(frame, width, height, pitch, d)
  {
    ghost var g := if Decodable(d) then Decoded(frame, pitch, d) else Decoded(frame, pitch, LegacyArgb);
    var y: nat := 0;
    while y < height
      invariant y <= height
      invariant !Decodable(d) ==> y == 0 || width == 0
      invariant Decodable(d) ==> Mul(y, width) * 4 <= pixels.Length
      invariant Decodable(d) ==> forall i | 0 <= i < Mul(y, width) * 4 :: pixels[..][i] == RowsOut(g, width, y)[i]
    {
      var rowOffset := Mul(y, pitch);
      var rgbaRowOffset := Mul(y, width) * 4;
      PackedRow(width, height, y);
      ghost var before := pixels[..];
      ok := ConvertRow(frame, pixelFormat, order, width, height, pitch, y, rowOffset, pixels, rgbaRowOffset, d);
      if !ok {
        return false;
      }
      ghost var after := pixels[..];
      if Decodable(d) {
        RowsStep(g, width, y, rgbaRowOffset, before, after);
      }
      y := y + 1;
    }
    if Decodable(d) {
      MulComm(width, height);
      SameElements(pixels[..], RowsOut(g, width, height));
    }
    return true;
  }

  /**
   * The converter's inner loop over row `y`, whose source starts at `rowOffset` and whose
   * output starts at `rgbaRowOffset`. It stops at the first pixel when the host byte order
   * is unknown.
   */
  method ConvertRow(frame: seq<byte>, pixelFormat: u32, order: ByteOrder, width: u32, height: u32, pitch: nat,
                    y: nat, rowOffset: nat, pixels: array<byte>, rgbaRowOffset: nat, ghost d: Decoder) returns (ok: bool)
    requires SupportedFormat(pixelFormat) && d == DecoderFor(pixelFormat, order)
    requires Covers(|frame|, width, height, pitch, d) && y < height
    requires rowOffset == Mul(y, pitch) && rgbaRowOffset + 4 * width <= pixels.Length
    modifies pixels
    ensures ok <==> Decodable(d) || width == 0
    ensures forall i | 0 <= i < rgbaRowOffset :: pixels[..][i] == old(pixels[..])[i]
    ensures Decodable(d) ==> forall k | 0 <= k < 4 * width :: pixels[..][rgbaRowOffset + k] == RowOut(Decoded(frame, pitch, d), y, width)[k]
  {
    var bytesPerPixel: nat := if pixelFormat == RETRO_PIXEL_FORMAT_XRGB8888 then 4 else 2;
    var x: nat := 0;
    while x < width
      invariant x <= width
      invariant !Decodable(d) ==> x == 0
      invariant forall i | 0 <= i < rgbaRowOffset :: pixels[..][i] == old(pixels[..])[i]
      invariant Decodable(d) ==> forall k | 0 <= k < 4 * x :: pixels[..][rgbaRowOffset + k] == RowOut(Decoded(frame, pitch, d), y, width)[k]
    {
      var pixelOffset := rowOffset + Mul(x, bytesPerPixel);
      var rgbaOffset := rgbaRowOffset + 4 * x;
      PixelInBounds(|frame|, width, height, pitch, d, y, x);
      ghost var before := pixels[..];
      ok := ConvertPixel(frame, pixelFormat, order, pixelOffset, pixels, rgbaOffset, d);
      if !ok {
        return false;
      }
      DecodedAt(frame, pitch, d, y, x, pixelOffset);
      RowStep(Decoded(frame, pitch, d), y, width, x, rgbaRowOffset, rgbaOffset, before, pixels[..]);
      x := x + 1;
    }
    return true;
  }

  /**
   * The body of the converter's inner loop: decodes the pixel read at `pixelOffset` and
   * writes its four bytes at `rgbaOffset`, or reports an unknown host byte order.
   */
  method ConvertPixel(frame: seq<byte>, pixelFormat: u32, order: ByteOrder, pixelOffset: nat,
                      pixels: array<byte>, rgbaOffset: nat, ghost d: Decoder) returns (ok: bool)
    requires SupportedFormat(pixelFormat) && d == DecoderFor(pixelFormat, order)
    requires pixelOffset + ReadLen(d) <= |frame|
    requires rgbaOffset + 4 <= pixels.Length
    modifies pixels
    ensures ok <==> Decodable(d)
    ensures forall i | 0 <= i < |pixels[..]| && (i < rgbaOffset || rgbaOffset + 4 <= i) :: pixels[..][i] == old(pixels[..])[i]
    ensures ok ==> var out := DecodePixel(frame[pixelOffset..pixelOffset + ReadLen(d)], d);
      pixels[..][rgbaOffset] == out[0] && pixels[..][rgbaOffset + 1] == out[1] &&
      pixels[..][rgbaOffset + 2] == out[2] && pixels[..][rgbaOffset + 3] == out[3]
  {
    if pixelFormat == RETRO_PIXEL_FORMAT_XRGB8888 {
      var blue := frame[pixelOffset];
      var green := frame[pixelOffset + 1];
      var red := frame[pixelOffset + 2];
      var alpha := frame[pixelOffset + 3];
      if order == LittleEndian {
        pixels[rgbaOffset] := blue;
        pixels[rgbaOffset + 1] := green;
        pixels[rgbaOffset + 2] := red;
        pixels[rgbaOffset + 3] := alpha;
      } else if order == BigEndian {
        pixels[rgbaOffset] := red;
        pixels[rgbaOffset + 1] := green;
        pixels[rgbaOffset + 2] := blue;
        pixels[rgbaOffset + 3] := alpha;
      } else {
        return false;
      }
    } else {
      var pixelData := Load16(frame[pixelOffset], frame[pixelOffset + 1], order);
      var red := Scale5(Red5(pixelData));
      var green := Scale6(Green6(pixelData));
      var blue := Scale5(Blue5(pixelData));
      var alpha := 255;
      pixels[rgbaOffset] := blue;
      pixels[rgbaOffset + 1] := green;
      pixels[rgbaOffset + 2] := red;
      pixels[rgbaOffset + 3] := alpha;
    }
    return true;
  }

  // ---------------------------------------------------------------- input queue

  /** C compares the `int16_t` head with the `uint32_t` id after converting the head to unsigned. */
  function AsU32(v: i16): (u: u32)
    ensures v >= 0 ==> u == v
    ensures v < 0 ==> u == v + 0x1_0000_0000 && u >= 0xFFFF_8000
  {
    if v < 0 then v + 0x1_0000_0000 else v
  }

  /** Distinct heads never compare equal to the same id. */
  lemma AsU32Injective(a: i16, b: i16)
    ensures AsU32(a) == AsU32(b) <==> a == b
  {
  }

  /** The array after the shift: slot `i < size - 1` takes slot `i + 1`, the rest keep their values. */
  function ShiftedLeft(s: seq<i16>, size: int): (r: seq<i16>)
    ensures |r| == |s|
  {
    seq(|s|, i requires 0 <= i < |s| => if i < size - 1 && i + 1 < |s| then s[i + 1] else s[i])
  }

  /** Over the whole array the shift drops the head and duplicates the last element. */
  lemma ShiftedLeftDropsHead(s: seq<i16>)
    requires |s| >= 1
    ensures ShiftedLeft(s, |s|) == s[1..] + [s[|s| - 1]]
  {
    assert ShiftedLeft(s, |s|)[..|s| - 1] == s[1..];
  }

  /**
   * `libretro_input_state_callback`: when the head of the queue is `id`, the queue is
   * popped by shifting its first `size` slots left and 1 is returned; otherwise 0.
   */
  method InputState(a: array?<i16>, size: int, id: u32) returns (r: i16)
    requires a != null ==> 1 <= a.Length && size <= a.Length
    modifies a
    ensures a == null || AsU32(old(a[0])) != id ==> r == 0 && (a != null ==> a[..] == old(a[..]))
    ensures a != null && AsU32(old(a[0])) == id ==> r == 1 && a[..] == ShiftedLeft(old(a[..]), size)
  {
    if a == null || AsU32(a[0]) != id {
      return 0;
    }
    ghost var s := a[..];
    var i := 0;
    while i < size - 1
      invariant 0 <= i && (i <= size - 1 || i == 0)
      invariant forall j | 0 <= j < i :: a[j] == s[j + 1]
      invariant forall j | i <= j < a.Length :: a[j] == s[j]
    {
      a[i] := a[i + 1];
      i := i + 1;
    }
    assert a[..] == ShiftedLeft(s, size);
    return 1;
  }
}
