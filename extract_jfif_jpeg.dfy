/** `extract_jfif_jpeg`: split a JFIF byte string into its first APP0
    segment and the JPEG data from the first SOI onwards. */
module ExtractJfifJpeg {
  import opened PyBytes
  import opened Jfif

  /** The two outputs: the `.jfif_data` bytes and the `.jpg` bytes. */
  datatype Extracted = Extracted(segment: seq<byte>, body: seq<byte>)

  /** The script raises one ValueError for all three failures; the model
      tells them apart, checking APP0 first, then SOI, then their order. */
  function Extract(data: seq<byte>): (r: Result<Extracted>)
    ensures r == Err(NoApp0) <==> forall j :: !IsMarkerAt(data, j, APP0)
    ensures r == Err(NoSoi) <==>
      (exists j :: IsMarkerAt(data, j, APP0)) && forall j :: !IsMarkerAt(data, j, SOI)
    ensures r == Err(SoiAfterApp0) <==>
      Find(data, APP0) >= 0 && Find(data, SOI) > Find(data, APP0)
    ensures r.Err? ==> r.error == NoApp0 || r.error == NoSoi || r.error == SoiAfterApp0
  {
    var app0 := Find(data, APP0);
    var soi := Find(data, SOI);
    if app0 == -1 then Err(NoApp0)
    else if soi == -1 then Err(NoSoi)
    else if soi > app0 then Err(SoiAfterApp0)
    else
      var length := ReadU16(data, app0 + 2);
      Ok(Extracted(Slice(data, app0, app0 + 2 + length), Slice(data, soi, |data|)))
  }

  /** On success the first SOI lies at least 2 bytes before the first APP0
      (one offset cannot start both markers); the segment is the bytes from
      the APP0 offset on; the body is the suffix from the SOI, which starts
      with the SOI marker. */
  lemma ExtractParts(data: seq<byte>, seg: seq<byte>, body: seq<byte>)
    requires Extract(data) == Ok(Extracted(seg, body))
    ensures
      var soi, app0 := Find(data, SOI), Find(data, APP0);
      && 0 <= soi && soi + 2 <= app0
      && app0 + |seg| <= |data|
      && seg == data[app0..app0 + |seg|]
      && body == data[soi..]
      && body[..2] == [0xFF, SOI]
  {
    var soi, app0 := Find(data, SOI), Find(data, APP0);
    assert soi != app0 && soi + 1 != app0;
    assert IsMarkerAt(data, soi, SOI);
  }

  /** The segment is the clamped slice `data[app0 : app0 + 2 + L]`: a
      declared length past the end is silently shortened, and the segment
      always starts with the APP0 marker. */
  lemma ExtractSegment(data: seq<byte>, seg: seq<byte>, body: seq<byte>)
    requires Extract(data) == Ok(Extracted(seg, body))
    ensures
      var app0 := Find(data, APP0);
      && |seg| == Min(2 + ReadU16(data, app0 + 2), |data| - app0)
      && 2 <= |seg| && seg[..2] == [0xFF, APP0]
  {
    var app0 := Find(data, APP0);
    var length := ReadU16(data, app0 + 2);
    assert seg == Slice(data, app0, app0 + 2 + length);
    assert IsMarkerAt(data, app0, APP0);
    assert seg[0] == data[app0] && seg[1] == data[app0 + 1];
  }

  /** The body still holds the segment, `app0 - soi` bytes in. */
  lemma ExtractBodyHoldsSegment(data: seq<byte>, seg: seq<byte>, body: seq<byte>)
    requires Extract(data) == Ok(Extracted(seg, body))
    ensures
      var soi, app0 := Find(data, SOI), Find(data, APP0);
      && 0 <= soi && soi + 2 <= app0 && app0 - soi + |seg| <= |body|
      && body[app0 - soi..app0 - soi + |seg|] == seg
  {
    var soi, app0 := Find(data, SOI), Find(data, APP0);
    ExtractParts(data, seg, body);
    SuffixHolds(data, seg, body, soi, app0);
  }

  /** The suffix from `soi` holds, `app0 - soi` bytes in, the bytes of
      `data` at `app0`. */
  lemma SuffixHolds(data: seq<byte>, seg: seq<byte>, body: seq<byte>, soi: int, app0: int)
    requires 0 <= soi <= app0 && app0 + |seg| <= |data|
    requires seg == data[app0..app0 + |seg|] && body == data[soi..]
    ensures |body| == |data| - soi && app0 - soi + |seg| <= |body|
    ensures body[app0 - soi..app0 - soi + |seg|] == seg
  {
    forall k | 0 <= k < |seg| ensures body[app0 - soi + k] == seg[k] {
      assert data[app0..app0 + |seg|][k] == data[app0 + k];
    }
  }
}
