/** `merge_xml_jpeg`: build the minimal 18-byte APP0 segment from the seven
    header fields and insert it right after the first SOI marker. */
module MergeXmlJpeg {
  import opened PyBytes
  import opened Jfif
  import MergeJfifJpeg

  /** The segment `FF E0`, length `00 10`, `JFIF\0`, then the fields, each
      through `to_bytes(width, 'big')`, which rejects (never truncates) a
      value that does not fit. */
  function EncodeSegment(h: Header): (r: Result<seq<byte>>)
    ensures r.Ok? <==> InRange(h)
    ensures r.Err? ==> r.error == FieldOutOfRange
    ensures r.Ok? ==>
      var s := r.value;
      && |s| == 18
      && WellFormedSegment(s)
      && ReadU16(s, 2) == 16
      && s[4..9] == Signature
      && s[9] as int == h.versionMajor
      && s[10] as int == h.versionMinor
      && s[11] as int == h.densityUnits
      && ReadU16(s, 12) == h.xDensity
      && ReadU16(s, 14) == h.yDensity
      && s[16] as int == h.xThumbnail
      && s[17] as int == h.yThumbnail
  {
    var vMajor := ToBytesBig(h.versionMajor, 1);
    var vMinor := ToBytesBig(h.versionMinor, 1);
    var units := ToBytesBig(h.densityUnits, 1);
    var xDens := ToBytesBig(h.xDensity, 2);
    var yDens := ToBytesBig(h.yDensity, 2);
    var xThumb := ToBytesBig(h.xThumbnail, 1);
    var yThumb := ToBytesBig(h.yThumbnail, 1);
    if vMajor.None? || vMinor.None? || units.None? || xDens.None? || yDens.None?
       || xThumb.None? || yThumb.None?
    then Err(FieldOutOfRange)
    else
      ToBytesOne(h.versionMajor);
      ToBytesOne(h.versionMinor);
      ToBytesOne(h.densityUnits);
      ToBytesTwo(h.xDensity);
      ToBytesTwo(h.yDensity);
      ToBytesOne(h.xThumbnail);
      ToBytesOne(h.yThumbnail);
      // [0x00, 0x10] is (16).to_bytes(2, 'big')
      var s := [0xFF, APP0] + [0x00, 0x10] + Signature
        + vMajor.value + vMinor.value + units.value
        + xDens.value + yDens.value + xThumb.value + yThumb.value;
      SegmentLayout(h, s);
      Ok(s)
  }

  /** Where each field lands in the 18 bytes once `to_bytes` has accepted it. */
  lemma SegmentLayout(h: Header, s: seq<byte>)
    requires InRange(h)
    requires s == [0xFF, APP0] + [0x00, 0x10] + Signature
      + [h.versionMajor as byte] + [h.versionMinor as byte] + [h.densityUnits as byte]
      + [(h.xDensity / 256) as byte, (h.xDensity % 256) as byte]
      + [(h.yDensity / 256) as byte, (h.yDensity % 256) as byte]
      + [h.xThumbnail as byte] + [h.yThumbnail as byte]
    ensures |s| == 18
    ensures WellFormedSegment(s)
    ensures ReadU16(s, 2) == 16
    ensures s[4..9] == Signature
    ensures s[9] as int == h.versionMajor
    ensures s[10] as int == h.versionMinor
    ensures s[11] as int == h.densityUnits
    ensures ReadU16(s, 12) == h.xDensity
    ensures ReadU16(s, 14) == h.yDensity
    ensures s[16] as int == h.xThumbnail
    ensures s[17] as int == h.yThumbnail
  {
    assert s == [0xFF, APP0, 0x00, 0x10, 0x4A, 0x46, 0x49, 0x46, 0x00,
      h.versionMajor as byte, h.versionMinor as byte, h.densityUnits as byte,
      (h.xDensity / 256) as byte, (h.xDensity % 256) as byte,
      (h.yDensity / 256) as byte, (h.yDensity % 256) as byte,
      h.xThumbnail as byte, h.yThumbnail as byte];
  }

  /** The whole of `merge_xml_jpeg` once the XML has been parsed: encoding
      comes first, so an out-of-range field is reported even when the JPEG
      data has no SOI. */
  function Merge(h: Header, jpeg: seq<byte>): (r: Result<seq<byte>>)
    ensures r.Err? <==> !InRange(h) || forall j :: !IsMarkerAt(jpeg, j, SOI)
    ensures !InRange(h) ==> r == Err(FieldOutOfRange)
    ensures InRange(h) && r.Err? ==> r.error == NoSoi
    ensures r.Ok? ==>
      var at := Find(jpeg, SOI) + 2;
      && |r.value| == |jpeg| + 18
      && r.value[..at] == jpeg[..at]
      && r.value[at..at + 18] == EncodeSegment(h).value
      && r.value[at + 18..] == jpeg[at..]
      && MergeJfifJpeg.Cut(r.value, at, 18) == jpeg
  {
    var seg := EncodeSegment(h);
    if seg.Err? then Err(seg.error)
    else
      var r := MergeJfifJpeg.Merge(seg.value, jpeg);
      if r.Ok? then MergeJfifJpeg.CutAfterMerge(seg.value, jpeg); r
      else r
  }
}
