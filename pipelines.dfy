/** How the scripts compose: merging then extracting or decoding, the
    shifted field relation of the decoder, and the duplicated segment that
    extract followed by merge produces. */
module Pipelines {
  import opened PyBytes
  import opened Jfif
  import MergeXmlJpeg
  import MergeJfifJpeg
  import ExtractJfifJpeg
  import DecodeFileToXml

  /** No APP0 marker starts before the first SOI of `jpeg`. */
  predicate NoApp0BeforeSoi(jpeg: seq<byte>)
  {
    forall j :: 0 <= j < Find(jpeg, SOI) ==> !IsMarkerAt(jpeg, j, APP0)
  }

  /** What the as-written decoder reads back from the segment encoded for `h`:
      every field comes from the byte after the one it was written to. */
  function Shifted(h: Header): Header
  {
    Header(
      h.versionMinor,
      h.densityUnits,
      h.xDensity / 256,
      (h.xDensity % 256) * 256 + h.yDensity / 256,
      (h.yDensity % 256) * 256 + h.xThumbnail,
      h.yThumbnail,
      0)
  }

  /** A segment inserted after the first SOI, with no APP0 before that SOI,
      is the first APP0 of the output. */
  lemma FirstApp0AfterMerge(seg: seq<byte>, jpeg: seq<byte>)
    requires IsMarkerAt(seg, 0, APP0)
    requires MergeJfifJpeg.Merge(seg, jpeg).Ok?
    requires NoApp0BeforeSoi(jpeg)
    ensures Find(MergeJfifJpeg.Merge(seg, jpeg).value, APP0) == Find(jpeg, SOI) + 2
  {
    var out, soi := MergeJfifJpeg.Merge(seg, jpeg).value, Find(jpeg, SOI);
    assert out[..soi + 2] == jpeg[..soi + 2];
    assert out[soi + 2..soi + 2 + |seg|] == seg;
    assert out[soi + 2] == seg[0] && out[soi + 3] == seg[1];
    forall j | 0 <= j < soi + 2
      ensures !IsMarkerAt(out, j, APP0)
    {
      assert out[..soi + 2][j] == out[j];
      if j < soi {
        assert !IsMarkerAt(jpeg, j, APP0);
        assert out[..soi + 2][j + 1] == out[j + 1];
      } else if j == soi {
        assert out[..soi + 2][j + 1] == out[j + 1];
      }
    }
    FindIs(out, APP0, soi + 2);
  }

  /** The decoder looks only at the first APP0 segment: when a well-formed
      segment sits at that offset, decoding the whole data is decoding the
      segment alone. */
  lemma DecodeSeesSegment(data: seq<byte>, seg: seq<byte>, first: nat)
    requires WellFormedSegment(seg)
    requires Find(data, APP0) >= 0
    requires Find(data, APP0) + |seg| <= |data|
    requires data[Find(data, APP0)..Find(data, APP0) + |seg|] == seg
    ensures DecodeFileToXml.DecodeWith(data, first) == DecodeFileToXml.DecodeWith(seg, first)
  {
    var a := Find(data, APP0);
    FindIs(seg, APP0, 0);
    assert data[a + 2] == seg[2] && data[a + 3] == seg[3];
    var p, q := DecodeFileToXml.Payload(data, a), DecodeFileToXml.Payload(seg, 0);
    assert |p| == |q|;
    forall k | 0 <= k < |p| ensures p[k] == q[k] {
      assert data[a..a + |seg|][4 + k] == data[a + 4 + k];
    }
    assert p == q;
  }

  /** An 18-byte segment with the identifier in place decodes to the fields
      read from its 14-byte payload. */
  lemma DecodeOfSegment(s: seq<byte>, first: nat)
    requires |s| == 18 && WellFormedSegment(s) && s[4..9] == Signature && first <= 6
    ensures DecodeFileToXml.DecodeWith(s, first) == Ok(DecodeFileToXml.ReadFields(s[4..], first))
  {
    FindIs(s, APP0, 0);
    var p := DecodeFileToXml.Payload(s, 0);
    assert |p| == 14;
    assert p == s[4..];
    assert StartsWith(p, Signature);
  }

  /** The fields of `h` laid out as the encoder writes them: read from payload
      index 5 they are `h`, read from index 6 they are `Shifted(h)`. */
  lemma FieldsOfLayout(s: seq<byte>, h: Header)
    requires InRange(h) && |s| == 18
    requires s[9] as int == h.versionMajor && s[10] as int == h.versionMinor
    requires s[11] as int == h.densityUnits
    requires ReadU16(s, 12) == h.xDensity && ReadU16(s, 14) == h.yDensity
    requires s[16] as int == h.xThumbnail && s[17] as int == h.yThumbnail
    ensures DecodeFileToXml.ReadFields(s[4..], 5) == h
    ensures DecodeFileToXml.ReadFields(s[4..], 6) == Shifted(h)
  {
    var p := s[4..];
    assert p[5] == s[9] && p[6] == s[10] && p[7] == s[11] && p[8] == s[12];
    assert p[12] == s[16] && p[13] == s[17];
    assert ReadU16(p, 8) == ReadU16(s, 12) && ReadU16(p, 10) == ReadU16(s, 14);
    assert ReadU16(p, 9) == s[13] as int * 256 + s[14] as int;
    assert ReadU16(p, 11) == s[15] as int * 256 + s[16] as int;
    assert s[13] as int == h.xDensity % 256 && s[12] as int == h.xDensity / 256;
    assert s[15] as int == h.yDensity % 256 && s[14] as int == h.yDensity / 256;
  }

  /** The encoder and the as-written decoder disagree: decoding the encoded
      segment yields the shifted header, never `h` itself ... */
  lemma DecodeOfEncoded(h: Header)
    requires InRange(h)
    ensures DecodeFileToXml.Decode(MergeXmlJpeg.EncodeSegment(h).value) == Ok(Shifted(h))
  {
    var s := MergeXmlJpeg.EncodeSegment(h).value;
    DecodeOfSegment(s, 6);
    FieldsOfLayout(s, h);
  }

  /** ... while the corrected decoder, reading right after the five-byte
      identifier, gives back every field. */
  lemma DecodeCorrectedOfEncoded(h: Header)
    requires InRange(h)
    ensures DecodeFileToXml.DecodeCorrected(MergeXmlJpeg.EncodeSegment(h).value) == Ok(h)
  {
    var s := MergeXmlJpeg.EncodeSegment(h).value;
    DecodeOfSegment(s, 5);
    FieldsOfLayout(s, h);
  }

  /** `merge_xml_jpeg` then `decode_jfif_to_xml`, on JPEG data with no APP0
      before its first SOI: the as-written decoder returns the shifted header,
      the corrected one the header that was merged. */
  lemma DecodeAfterMergeXml(h: Header, jpeg: seq<byte>)
    requires MergeXmlJpeg.Merge(h, jpeg).Ok?
    requires NoApp0BeforeSoi(jpeg)
    ensures DecodeFileToXml.Decode(MergeXmlJpeg.Merge(h, jpeg).value) == Ok(Shifted(h))
    ensures DecodeFileToXml.DecodeCorrected(MergeXmlJpeg.Merge(h, jpeg).value) == Ok(h)
  {
    var seg := MergeXmlJpeg.EncodeSegment(h).value;
    var out := MergeXmlJpeg.Merge(h, jpeg).value;
    assert out == MergeJfifJpeg.Merge(seg, jpeg).value;
    FirstApp0AfterMerge(seg, jpeg);
    DecodeSeesSegment(out, seg, 6);
    DecodeSeesSegment(out, seg, 5);
    DecodeOfEncoded(h);
    DecodeCorrectedOfEncoded(h);
  }

  /** `merge_jfif_jpeg` then `extract_jfif_jpeg`: a well-formed segment
      inserted into JPEG data with no APP0 before its first SOI is extracted
      byte for byte, with the output from that SOI on as the body. */
  lemma ExtractAfterMerge(seg: seq<byte>, jpeg: seq<byte>)
    requires WellFormedSegment(seg)
    requires MergeJfifJpeg.Merge(seg, jpeg).Ok?
    requires NoApp0BeforeSoi(jpeg)
    ensures
      var out := MergeJfifJpeg.Merge(seg, jpeg).value;
      ExtractJfifJpeg.Extract(out)
        == Ok(ExtractJfifJpeg.Extracted(seg, out[Find(jpeg, SOI)..]))
  {
    var out, soi := MergeJfifJpeg.Merge(seg, jpeg).value, Find(jpeg, SOI);
    MergeJfifJpeg.MergeKeepsFirstSoi(seg, jpeg);
    FirstApp0AfterMerge(seg, jpeg);
    assert out[soi + 2..soi + 2 + |seg|] == seg;
    assert out[soi + 4] == seg[2] && out[soi + 5] == seg[3];
    assert ReadU16(out, soi + 4) == |seg| - 2;
    assert Slice(out, soi + 2, soi + 2 + 2 + ReadU16(out, soi + 4)) == seg;
    assert Slice(out, soi, |out|) == out[soi..];
  }

  /** `m` carries `seg` twice: right after a leading SOI, and again at
      offset `|seg| + d`, where `d` is the offset at which the data `seg` was
      merged into already held it. */
  predicate HoldsTwice(m: seq<byte>, seg: seq<byte>, d: int)
  {
    && 2 <= d && 2 + |seg| <= |m| && |seg| + d + |seg| <= |m|
    && m[2..2 + |seg|] == seg
    && m[|seg| + d..|seg| + d + |seg|] == seg
  }

  /** `extract_jfif_jpeg` then `merge_jfif_jpeg` is never the identity:
      merging puts a copy of the segment right after the SOI of a body that
      still holds the segment `app0 - soi` bytes in, so the output carries
      two copies and is longer than the body. */
  lemma MergeAfterExtract(data: seq<byte>, seg: seq<byte>, body: seq<byte>, d: int)
    requires ExtractJfifJpeg.Extract(data) == Ok(ExtractJfifJpeg.Extracted(seg, body))
    requires d == Find(data, APP0) - Find(data, SOI)
    ensures MergeJfifJpeg.Merge(seg, body).Ok?
    ensures |MergeJfifJpeg.Merge(seg, body).value| == |data| - Find(data, SOI) + |seg|
    ensures HoldsTwice(MergeJfifJpeg.Merge(seg, body).value, seg, d)
    ensures MergeJfifJpeg.Merge(seg, body).value != data
  {
    var soi, app0 := Find(data, SOI), Find(data, APP0);
    ExtractJfifJpeg.ExtractParts(data, seg, body);
    ExtractJfifJpeg.ExtractSegment(data, seg, body);
    MergeExtracted(data, seg, body, soi, app0, d);
  }

  /** MergeAfterExtract on the plain layout that ExtractJfifJpeg.ExtractParts
      and ExtractJfifJpeg.ExtractSegment establish: a segment taken from `data` at `app0`, and a body that is
      the suffix from the first SOI at `soi`. */
  lemma MergeExtracted(data: seq<byte>, seg: seq<byte>, body: seq<byte>, soi: int, app0: int, d: int)
    requires 0 <= soi && soi == Find(data, SOI) && soi + 2 <= app0 && d == app0 - soi
    requires |seg| >= 2 && app0 + |seg| <= |data| && seg == data[app0..app0 + |seg|]
    requires body == data[soi..] && body[..2] == [0xFF, SOI]
    ensures
      var m := MergeJfifJpeg.Merge(seg, body);
      && m.Ok?
      && |m.value| == |data| - soi + |seg|
      && HoldsTwice(m.value, seg, d)
      && m.value != data
  {
    ExtractJfifJpeg.SuffixHolds(data, seg, body, soi, app0);
    SegmentTwiceAfterMerge(seg, body, d);
    MergedDiffers(data, MergeJfifJpeg.Merge(seg, body).value, soi, |seg|);
  }

  /** An output that starts with SOI and is longer than the suffix from the
      first SOI of `data` is not `data`. */
  lemma MergedDiffers(data: seq<byte>, m: seq<byte>, soi: int, n: int)
    requires 0 <= soi && soi == Find(data, SOI) && n >= 2
    requires |m| == |data| - soi + n && |m| >= 2 && m[..2] == [0xFF, SOI]
    ensures m != data
  {
    if soi > 0 {
      assert !IsMarkerAt(data, 0, SOI);
      assert m[0] == 0xFF && m[1] == SOI;
    }
  }

  /** Merging a block into data that starts with SOI and already holds the
      block `d` bytes in: the output holds it right after the SOI and again
      `d` bytes after the end of that copy's start. */
  lemma SegmentTwiceAfterMerge(seg: seq<byte>, body: seq<byte>, d: nat)
    requires |body| >= 2 && body[..2] == [0xFF, SOI]
    requires 2 <= d && d + |seg| <= |body| && body[d..d + |seg|] == seg
    ensures
      var m := MergeJfifJpeg.Merge(seg, body);
      && m.Ok?
      && |m.value| == |body| + |seg|
      && m.value[..2] == [0xFF, SOI]
      && HoldsTwice(m.value, seg, d)
  {
    assert IsMarkerAt(body, 0, SOI);
    FindIs(body, SOI, 0);
    var m := MergeJfifJpeg.Merge(seg, body).value;
    InsertedTwice(m, seg, body, d);
  }

  /** The layout `body[..2] + seg + body[2..]`, with `body` holding `seg`
      `d` bytes in, holds `seg` twice. */
  lemma InsertedTwice(m: seq<byte>, seg: seq<byte>, body: seq<byte>, d: nat)
    requires 2 <= d && d + |seg| <= |body| && body[d..d + |seg|] == seg
    requires |m| == |body| + |seg| && m[2..2 + |seg|] == seg
    requires m[2 + |seg|..] == body[2..]
    ensures HoldsTwice(m, seg, d)
  {
    forall k | 0 <= k < |seg|
      ensures m[|seg| + d + k] == seg[k]
    {
      assert m[2 + |seg|..][d - 2 + k] == body[2..][d - 2 + k];
      assert body[d..d + |seg|][k] == body[d + k];
    }
  }

  /** The sample file `FF D8 FF E0 00 10 'JFIF' 00 01 02 00 00 48 00 48
      00 00`: SOI, then the APP0 segment the encoder writes for version 1.2
      at 72x72 dpi. */
  const Sample: seq<byte> := [0xFF, 0xD8, 0xFF, 0xE0, 0x00, 0x10,
    0x4A, 0x46, 0x49, 0x46, 0x00, 0x01, 0x02, 0x00, 0x00, 0x48, 0x00, 0x48, 0x00, 0x00]

  /** The segment of the sample is what the encoder writes for 1.2 at 72x72. */
  lemma SampleEncoding()
    ensures MergeXmlJpeg.EncodeSegment(Header(1, 2, 0, 72, 72, 0, 0)) == Ok(Sample[2..])
  {
    ToBytesOne(0);
    ToBytesOne(1);
    ToBytesOne(2);
    ToBytesTwo(72);
    var s := [0xFF, APP0] + [0x00, 0x10] + Signature + [1] + [2] + [0]
      + [0, 72] + [0, 72] + [0] + [0];
    assert MergeXmlJpeg.EncodeSegment(Header(1, 2, 0, 72, 72, 0, 0)) == Ok(s);
    assert s == Sample[2..];
  }

  /** The sample followed by any scan data: version 1.2 at 72x72 dpi is what
      the segment encodes, but the as-written decoder reports version 2.0 at
      18432x18432. */
  lemma SampleDecode(scan: seq<byte>)
    ensures MergeXmlJpeg.EncodeSegment(Header(1, 2, 0, 72, 72, 0, 0)) == Ok(Sample[2..])
    ensures DecodeFileToXml.Decode(Sample + scan) == Ok(Header(2, 0, 0, 18432, 18432, 0, 0))
    ensures DecodeFileToXml.DecodeCorrected(Sample + scan) == Ok(Header(1, 2, 0, 72, 72, 0, 0))
  {
    var h := Header(1, 2, 0, 72, 72, 0, 0);
    SampleEncoding();
    var seg := Sample[2..];
    var data := Sample + scan;
    assert IsMarkerAt(data, 2, APP0) && !IsMarkerAt(data, 0, APP0) && !IsMarkerAt(data, 1, APP0);
    FindIs(data, APP0, 2);
    assert data[2..2 + |seg|] == seg;
    DecodeSeesSegment(data, seg, 6);
    DecodeSeesSegment(data, seg, 5);
    DecodeOfEncoded(h);
    DecodeCorrectedOfEncoded(h);
  }
}
