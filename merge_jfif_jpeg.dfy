/** `merge_jfif_jpeg`: insert raw segment bytes right after the first SOI
    marker of a JPEG byte string. */
module MergeJfifJpeg {
  import opened PyBytes
  import opened Jfif

  /** `jpeg[:soi + 2] + jfif + jpeg[soi + 2:]` with `soi` the first `FF D8`;
      `jfif` is inserted verbatim, without any check of its contents. */
  function Merge(jfif: seq<byte>, jpeg: seq<byte>): (r: Result<seq<byte>>)
    ensures r.Err? <==> forall j :: !IsMarkerAt(jpeg, j, SOI)
    ensures r.Err? ==> r.error == NoSoi
    ensures r.Ok? ==>
      var at := Find(jpeg, SOI) + 2;
      && |r.value| == |jpeg| + |jfif|
      && r.value[..at] == jpeg[..at]
      && r.value[at..at + |jfif|] == jfif
      && r.value[at + |jfif|..] == jpeg[at..]
  {
    var soi := Find(jpeg, SOI);
    if soi == -1 then Err(NoSoi)
    else Ok(Slice(jpeg, 0, soi + 2) + jfif + Slice(jpeg, soi + 2, |jpeg|))
  }

  /** `s` with the `n` bytes at offset `at` taken out. */
  function Cut(s: seq<byte>, at: nat, n: nat): seq<byte>
    requires at + n <= |s|
  {
    s[..at] + s[at + n..]
  }

  /** Taking the inserted block back out of the output gives the JPEG data. */
  lemma CutAfterMerge(jfif: seq<byte>, jpeg: seq<byte>)
    requires Merge(jfif, jpeg).Ok?
    ensures Cut(Merge(jfif, jpeg).value, Find(jpeg, SOI) + 2, |jfif|) == jpeg
  {
    var at := Find(jpeg, SOI) + 2;
    assert jpeg == jpeg[..at] + jpeg[at..];
  }

  /** Merging nothing returns the JPEG data unchanged. */
  lemma MergeEmpty(jpeg: seq<byte>)
    requires exists j :: IsMarkerAt(jpeg, j, SOI)
    ensures Merge([], jpeg) == Ok(jpeg)
  {
    var at := Find(jpeg, SOI) + 2;
    assert jpeg == jpeg[..at] + jpeg[at..];
  }

  /** The first SOI of the output is the first SOI of the input: the bytes up
      to and including it are untouched, so merging again inserts at the same
      offset. */
  lemma MergeKeepsFirstSoi(jfif: seq<byte>, jpeg: seq<byte>)
    requires Merge(jfif, jpeg).Ok?
    ensures Find(Merge(jfif, jpeg).value, SOI) == Find(jpeg, SOI)
  {
    var out, soi := Merge(jfif, jpeg).value, Find(jpeg, SOI);
    assert out[..soi + 2] == jpeg[..soi + 2];
    assert out[soi] == jpeg[soi] && out[soi + 1] == jpeg[soi + 1];
    forall j | 0 <= j < soi
      ensures !IsMarkerAt(out, j, SOI)
    {
      assert !IsMarkerAt(jpeg, j, SOI);
      assert out[..soi + 2][j] == out[j] && out[..soi + 2][j + 1] == out[j + 1];
    }
    FindIs(out, SOI, soi);
  }
}
