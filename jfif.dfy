/** What the four JFIF scripts share: the marker codes, the APP0 identifier,
    the failures they raise, and the seven-field header record. */
module Jfif {
  import opened PyBytes

  /** Second byte of the Start-Of-Image marker `FF D8` (ITU-T T.81, Table B.1). */
  const SOI: byte := 0xD8

  /** Second byte of the APP0 marker `FF E0` (ITU-T T.81, Table B.1). */
  const APP0: byte := 0xE0

  /** The JFIF identifier `b'JFIF\x00'`: five bytes, the NUL included. */
  const Signature: seq<byte> := [0x4A, 0x46, 0x49, 0x46, 0x00]

  /** The failures the scripts raise (ValueError, IndexError, OverflowError),
      told apart by cause. */
  datatype Error =
    | NoSoi            // no `FF D8` in the JPEG data
    | NoApp0           // no `FF E0` in the data
    | SoiAfterApp0     // the first `FF D8` comes after the first `FF E0`
    | BadSignature     // the APP0 payload does not start with `JFIF\0`
    | PayloadTooShort  // a field index runs past the payload
    | FieldOutOfRange  // `int.to_bytes` cannot represent a header field

  datatype Result<T> = Ok(value: T) | Err(error: Error)

  /** The seven header fields as the scripts carry them: Python integers,
      unbounded until `to_bytes` checks them. */
  datatype Header = Header(
    versionMajor: int,
    versionMinor: int,
    densityUnits: int,
    xDensity: int,
    yDensity: int,
    xThumbnail: int,
    yThumbnail: int)

  predicate IsByte(n: int) { 0 <= n < 256 }

  predicate IsU16(n: int) { 0 <= n < 65536 }

  /** Every one-byte field fits in a byte and each density in two bytes. */
  predicate InRange(h: Header)
  {
    && IsByte(h.versionMajor) && IsByte(h.versionMinor) && IsByte(h.densityUnits)
    && IsU16(h.xDensity) && IsU16(h.yDensity)
    && IsByte(h.xThumbnail) && IsByte(h.yThumbnail)
  }

  /** A raw APP0 segment whose length field counts exactly the bytes after
      the marker (ITU-T T.81, B.1.1.4: the length includes itself but not
      the marker). */
  predicate WellFormedSegment(seg: seq<byte>)
  {
    4 <= |seg| && IsMarkerAt(seg, 0, APP0) && ReadU16(seg, 2) == |seg| - 2
  }
}
