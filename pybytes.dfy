/** The operations on Python's immutable `bytes` that the JFIF scripts rely on:
    searching for a two-byte marker, clamped slicing, and big-endian
    integer conversion in both directions. */
module PyBytes {

  newtype byte = x: int | 0 <= x < 256

  datatype Option<T> = None | Some(value: T)

  function Min(a: int, b: int): int { if a <= b then a else b }

  function Max(a: int, b: int): int { if a >= b then a else b }

  /** `s[lo:hi]` for non-negative bounds: both bounds are cut to the length
      of `s`, and the result is empty when the (cut) end is not past the start. */
  function Slice(s: seq<byte>, lo: nat, hi: nat): (r: seq<byte>)
    ensures |r| == Max(0, Min(hi, |s|) - lo)
    ensures forall k :: 0 <= k < |r| ==> r[k] == s[lo + k]
    ensures lo <= hi <= |s| ==> r == s[lo..hi]
  {
    if Min(hi, |s|) <= lo then [] else s[lo..Min(hi, |s|)]
  }

  /** `s.startswith(prefix)`: the prefix fits and `s` agrees with it byte
      by byte. */
  predicate StartsWith(s: seq<byte>, prefix: seq<byte>): (b: bool)
    ensures b <==> |prefix| <= |s| && forall k :: 0 <= k < |prefix| ==> s[k] == prefix[k]
  {
    |prefix| <= |s| && s[..|prefix|] == prefix
  }

  /** The two-byte marker `FF code` starts at offset `i` of `s`. */
  predicate IsMarkerAt(s: seq<byte>, i: int, code: byte)
  {
    0 <= i < |s| - 1 && s[i] == 0xFF && s[i + 1] == code
  }

  /** The forward scan behind `bytes.find`, starting at offset `from`. */
  function FindFrom(s: seq<byte>, code: byte, from: nat): (r: int)
    decreases |s| - from
    ensures r == -1 || (from <= r && IsMarkerAt(s, r, code))
    ensures forall j :: from <= j && (r == -1 || j < r) ==> !IsMarkerAt(s, j, code)
  {
    if from + 1 >= |s| then -1
    else if s[from] == 0xFF && s[from + 1] == code then from
    else FindFrom(s, code, from + 1)
  }

  /** `s.find(b'\xFF' + bytes([code]))`: the least offset at which the marker
      starts, or -1 when it occurs nowhere. */
  function Find(s: seq<byte>, code: byte): (r: int)
    ensures -1 <= r
    ensures r == -1 <==> forall j :: !IsMarkerAt(s, j, code)
    ensures r != -1 ==> IsMarkerAt(s, r, code)
    ensures forall j :: 0 <= j < r ==> !IsMarkerAt(s, j, code)
  {
    FindFrom(s, code, 0)
  }

  /** A marker occurrence with none before it is the one `Find` returns. */
  lemma FindIs(s: seq<byte>, code: byte, i: nat)
    requires IsMarkerAt(s, i, code)
    requires forall j :: 0 <= j < i ==> !IsMarkerAt(s, j, code)
    ensures Find(s, code) == i
  {
  }

  function Pow256(k: nat): (p: nat)
    ensures p >= 1
  {
    if k == 0 then 1 else 256 * Pow256(k - 1)
  }

  /** `int.from_bytes(s, 'big')`: the unsigned big-endian value of `s`
      (0 for the empty string). */
  function FromBytesBig(s: seq<byte>): (n: nat)
    ensures n < Pow256(|s|)
  {
    if s == [] then 0 else FromBytesBig(s[..|s| - 1]) * 256 + s[|s| - 1] as int
  }

  /** The `width` bytes of `n`, most significant first. */
  function Digits(n: nat, width: nat): (r: seq<byte>)
    requires n < Pow256(width)
    ensures |r| == width && FromBytesBig(r) == n
  {
    if width == 0 then []
    else
      var d := Digits(n / 256, width - 1) + [(n % 256) as byte];
      assert d[..|d| - 1] == Digits(n / 256, width - 1);
      d
  }

  /** `n.to_bytes(width, 'big')`: Python raises OverflowError, here None,
      for a negative `n` and for one that does not fit in `width` bytes;
      it never truncates. */
  function ToBytesBig(n: int, width: nat): (r: Option<seq<byte>>)
    ensures r.Some? <==> 0 <= n < Pow256(width)
    ensures r.Some? ==> |r.value| == width && FromBytesBig(r.value) == n
  {
    if 0 <= n < Pow256(width) then Some(Digits(n, width)) else None
  }

  lemma ToBytesOne(n: int)
    requires 0 <= n < 256
    ensures ToBytesBig(n, 1) == Some([n as byte])
  {
  }

  lemma ToBytesTwo(n: int)
    requires 0 <= n < 65536
    ensures ToBytesBig(n, 2) == Some([(n / 256) as byte, (n % 256) as byte])
  {
    assert Pow256(1) == 256 && Pow256(2) == 65536;
    assert Digits(n / 256, 1) == [(n / 256) as byte];
    assert Digits(n, 2) == Digits(n / 256, 1) + [(n % 256) as byte];
    assert Digits(n, 2) == [(n / 256) as byte, (n % 256) as byte];
    assert ToBytesBig(n, 2) == Some(Digits(n, 2));
  }

  /** The other direction of the round trip: re-encoding a decoded byte
      string at its own width gives it back. */
  lemma {:induction false} ToBytesOfFromBytes(s: seq<byte>)
    ensures ToBytesBig(FromBytesBig(s), |s|) == Some(s)
  {
    DigitsOfFromBytes(s);
  }

  lemma {:induction false} DigitsOfFromBytes(s: seq<byte>)
    ensures Digits(FromBytesBig(s), |s|) == s
  {
    if s != [] {
      var init, last := s[..|s| - 1], s[|s| - 1];
      var n := FromBytesBig(s);
      assert n == FromBytesBig(init) * 256 + last as int;
      assert n / 256 == FromBytesBig(init) && n % 256 == last as int;
      DigitsOfFromBytes(init);
      assert s == init + [last];
    }
  }

  /** `int.from_bytes(s[i:i+2], 'big')`: the clamped slice holds two, one or
      no bytes, so the value is a 16-bit big-endian read, a single byte, or 0. */
  function ReadU16(s: seq<byte>, i: nat): (n: nat)
    ensures n < 65536
    ensures i + 2 <= |s| ==> n == s[i] as int * 256 + s[i + 1] as int
    ensures i + 1 == |s| ==> n == s[i] as int
    ensures |s| <= i ==> n == 0
  {
    var w := Slice(s, i, i + 2);
    if |w| == 2 then
      assert w[..1] == [w[0]] && [w[0]][..0] == [];
      assert FromBytesBig(w[..1]) == w[0] as int;
      FromBytesBig(w)
    else
      assert |w| == 1 ==> w[..0] == [];
      FromBytesBig(w)
  }
}
