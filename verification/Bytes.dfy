/** Bytes, the sizes of a row, and the little-endian 64-bit words of the packed shard's header. */
module Bytes {

  type byte = x: int | 0 <= x < 256

  /** A row is 256 weight bytes and 8 scale bytes. */
  const WEIGHT_BYTES: nat := 256
  const SCALE_BYTES: nat := 8
  const ROW_BYTES: nat := 264

  const WORD: nat := 0x1_0000_0000_0000_0000

  function Power256(n: nat): (p: nat)
    ensures p > 0
  {
    if n == 0 then 1 else 256 * Power256(n - 1)
  }

  /** The n low bytes of x, least significant first (struct.pack('<Q', x) for n = 8). */
  function ToBytes(x: nat, n: nat): (s: seq<byte>)
    ensures |s| == n
  {
    if n == 0 then [] else [x % 256] + ToBytes(x / 256, n - 1)
  }

  function FromBytes(s: seq<byte>): nat {
    if s == [] then 0 else s[0] + 256 * FromBytes(s[1..])
  }

  lemma {:induction false} WordRoundTrip(x: nat, n: nat)
    requires x < Power256(n)
    ensures FromBytes(ToBytes(x, n)) == x
  {
    if n > 0 {
      assert x / 256 < Power256(n - 1);
      WordRoundTrip(x / 256, n - 1);
      assert ToBytes(x, n)[1..] == ToBytes(x / 256, n - 1);
    }
  }

  /** ... and a run of bytes is the number it stands for. */
  lemma {:induction false} BytesRoundTrip(s: seq<byte>)
    ensures FromBytes(s) < Power256(|s|) && ToBytes(FromBytes(s), |s|) == s
  {
    if s != [] {
      BytesRoundTrip(s[1..]);
      assert FromBytes(s) % 256 == s[0] && FromBytes(s) / 256 == FromBytes(s[1..]);
      assert s == [s[0]] + s[1..];
    }
  }

  lemma Power256Of8()
    ensures Power256(8) == WORD
  {
    assert Power256(4) == 0x1_0000_0000;
  }

  lemma SliceOfSlice<T>(s: seq<T>, a: nat, b: nat, c: nat, d: nat)
    requires a <= b <= |s| && c <= d <= b - a
    ensures s[a..b][c..d] == s[a + c..a + d]
  {
    var t := s[a..b];
    var u := t[c..d];
    forall i | 0 <= i < |u| ensures u[i] == s[a + c..a + d][i] {
      assert u[i] == t[c + i];
    }
  }
}
