/**
 * The frontend's pixel-format enumeration (`iRetroCorePixelType`): the three libretro
 * formats plus an "unknown" case, with a total decoding from the raw `UInt32` the core
 * reports through the environment callback.
 */
module PixelTypes {
  import opened Common

  datatype PixelType = Format0Rgb1555 | FormatXrgb8888 | FormatRgb565 | FormatUnknown

  /** The raw value of each case; the unknown case carries `UInt32.max`. */
  function RawValue(t: PixelType): u32 {
    match t
    case Format0Rgb1555 => 0
    case FormatXrgb8888 => 1
    case FormatRgb565 => 2
    case FormatUnknown => 0xFFFF_FFFF
  }

  /** `init(rawValue:)`: never fails; every value other than 0, 1 and 2 is the unknown format. */
  function FromRaw(raw: u32): (t: PixelType)
    ensures raw <= 2 ==> RawValue(t) == raw
    ensures t == FormatUnknown <==> raw > 2
  {
    if raw == 0 then Format0Rgb1555
    else if raw == 1 then FormatXrgb8888
    else if raw == 2 then FormatRgb565
    else FormatUnknown
  }

  /** Decoding a case's raw value gives the case back, the unknown case included. */
  lemma FromRawRoundTrip(t: PixelType)
    ensures FromRaw(RawValue(t)) == t
  {
  }

  /** Decoding then encoding keeps the raw value exactly when it names a known format. */
  lemma RawRoundTrip(raw: u32)
    ensures RawValue(FromRaw(raw)) == raw <==> raw <= 2 || raw == 0xFFFF_FFFF
  {
  }
}
