/** `decode_jfif_to_xml` up to the point where the fields are known: find the
    first APP0 marker, slice its payload by the declared length, check the
    identifier and read the fields at fixed payload offsets. */
module DecodeFileToXml {
  import opened PyBytes
  import opened Jfif

  /** `data[app0+4 : app0+4+L-2]` with `L` the length field after the marker.
      The slice is clamped: an overlong `L` is cut at the end of the data
      rather than rejected, and an `L` below 2 gives an empty payload. */
  function Payload(data: seq<byte>, app0: nat): (p: seq<byte>)
    ensures |p| == Max(0, Min(app0 + 2 + ReadU16(data, app0 + 2), |data|) - (app0 + 4))
    ensures |p| <= Max(0, ReadU16(data, app0 + 2) - 2)
    ensures forall k :: 0 <= k < |p| ==> p[k] == data[app0 + 4 + k]
  {
    var length := ReadU16(data, app0 + 2);
    Slice(data, app0 + 4, app0 + 4 + length - 2)
  }

  /** The seven fields read from payload `p` with version_major at index
      `first`: three single bytes, two big-endian pairs, x_thumbnail, and
      y_thumbnail when the payload still has a byte for it, else 0. */
  function ReadFields(p: seq<byte>, first: nat): (h: Header)
    requires first + 8 <= |p|
    ensures InRange(h)
  {
    Header(
      p[first] as int,
      p[first + 1] as int,
      p[first + 2] as int,
      ReadU16(p, first + 3),
      ReadU16(p, first + 5),
      p[first + 7] as int,
      if |p| > first + 8 then p[first + 8] as int else 0)
  }

  /** The decoder, parameterised by the payload index of version_major. */
  function DecodeWith(data: seq<byte>, first: nat): (r: Result<Header>)
    ensures r == Err(NoApp0) <==> forall j :: !IsMarkerAt(data, j, APP0)
    ensures r.Ok? ==> InRange(r.value)
  {
    var app0 := Find(data, APP0);
    if app0 == -1 then Err(NoApp0)
    else
      var p := Payload(data, app0);
      if !StartsWith(p, Signature) then Err(BadSignature)
      else if |p| < first + 8 then Err(PayloadTooShort)
      else Ok(ReadFields(p, first))
  }

  /** The decoder as written: the identifier is five bytes, yet the fields
      are read from payload index 6. A payload shorter than 14 bytes raises
      IndexError at one of the indexed reads. */
  function Decode(data: seq<byte>): (r: Result<Header>)
    ensures r == Err(NoApp0) <==> forall j :: !IsMarkerAt(data, j, APP0)
    ensures r.Err? ==> r.error == NoApp0 || r.error == BadSignature || r.error == PayloadTooShort
    ensures r.Ok? ==> InRange(r.value)
    ensures Find(data, APP0) >= 0 ==>
      var app0 := Find(data, APP0);
      var p := Payload(data, app0);
      && (r == Err(BadSignature) <==> !StartsWith(p, Signature))
      && (r == Err(PayloadTooShort) <==> StartsWith(p, Signature) && |p| < 14)
      && (r.Ok? ==> ReadU16(data, app0 + 2) >= 16)
      && (r.Ok? ==>
            var a := app0 + 4;
            r.value == Header(
              data[a + 6] as int,
              data[a + 7] as int,
              data[a + 8] as int,
              data[a + 9] as int * 256 + data[a + 10] as int,
              data[a + 11] as int * 256 + data[a + 12] as int,
              data[a + 13] as int,
              if |p| > 14 then data[a + 14] as int else 0))
  {
    DecodeWith(data, 6)
  }

  /** The decoder as its comments describe it: fields read right after the
      five-byte identifier, so a 13-byte payload is enough. */
  function DecodeCorrected(data: seq<byte>): (r: Result<Header>)
    ensures r == Err(NoApp0) <==> forall j :: !IsMarkerAt(data, j, APP0)
    ensures r.Err? ==> r.error == NoApp0 || r.error == BadSignature || r.error == PayloadTooShort
    ensures r.Ok? ==> InRange(r.value)
    ensures Find(data, APP0) >= 0 ==>
      var app0 := Find(data, APP0);
      var p := Payload(data, app0);
      && (r == Err(BadSignature) <==> !StartsWith(p, Signature))
      && (r == Err(PayloadTooShort) <==> StartsWith(p, Signature) && |p| < 13)
      && (r.Ok? ==>
            var a := app0 + 4;
            r.value == Header(
              data[a + 5] as int,
              data[a + 6] as int,
              data[a + 7] as int,
              data[a + 8] as int * 256 + data[a + 9] as int,
              data[a + 10] as int * 256 + data[a + 11] as int,
              data[a + 12] as int,
              if |p| > 13 then data[a + 13] as int else 0))
  {
    DecodeWith(data, 5)
  }
}
