/** Bytes and the unsigned integer encodings the generator reads and writes:
    big-endian words of device-tree properties, little-endian header fields
    of the boot image tools, and `int.from_bytes` for DCS arguments. */
module Bytes {

  type byte = b: int | 0 <= b < 256

  function Pow(b: nat, e: nat): (r: nat)
    ensures b > 0 ==> r > 0
  {
    if e == 0 then 1 else b * Pow(b, e - 1)
  }

  /** Unsigned value of `s` read most significant byte first. */
  function BeValue(s: seq<byte>): (r: nat)
    ensures r < Pow(256, |s|)
  {
    if |s| == 0 then 0
    else
      var hi := BeValue(s[..|s| - 1]);
      assert hi * 256 + s[|s| - 1] < Pow(256, |s| - 1) * 256 by {
        assert hi + 1 <= Pow(256, |s| - 1);
        assert (hi + 1) * 256 <= Pow(256, |s| - 1) * 256;
      }
      hi * 256 + s[|s| - 1]
  }

  /** Unsigned value of `s` read least significant byte first. */
  function LeValue(s: seq<byte>): (r: nat)
    ensures r < Pow(256, |s|)
  {
    if |s| == 0 then 0
    else
      var hi := LeValue(s[1..]);
      assert s[0] + 256 * hi < 256 * Pow(256, |s| - 1) by {
        assert hi + 1 <= Pow(256, |s| - 1);
        assert 256 * (hi + 1) <= 256 * Pow(256, |s| - 1);
      }
      s[0] + 256 * hi
  }

  /** `int.from_bytes(s, byteorder)`: big-endian when `big`, little-endian otherwise. */
  function FromBytes(s: seq<byte>, big: bool): nat
  {
    if big then BeValue(s) else LeValue(s)
  }

  function Reverse<T>(s: seq<T>): (r: seq<T>)
    ensures |r| == |s|
    ensures forall i :: 0 <= i < |s| ==> r[i] == s[|s| - 1 - i]
  {
    if |s| == 0 then [] else Reverse(s[1..]) + [s[0]]
  }

  /** Little-endian reading is big-endian reading of the reversed bytes. */
  lemma {:induction false} LeIsReversedBe(s: seq<byte>)
    ensures LeValue(s) == BeValue(Reverse(s))
  {
    if |s| > 0 {
      LeIsReversedBe(s[1..]);
      var r := Reverse(s);
      assert r[..|r| - 1] == Reverse(s[1..]);
      assert r[|r| - 1] == s[0];
    }
  }

  /** The `k` bytes of `n`, most significant first (`n.to_bytes(k, 'big')`). */
  function BeBytes(n: nat, k: nat): (r: seq<byte>)
    requires n < Pow(256, k)
    ensures |r| == k
    ensures BeValue(r) == n
  {
    if k == 0 then []
    else
      assert n / 256 < Pow(256, k - 1);
      var r := BeBytes(n / 256, k - 1) + [n % 256];
      assert r[..k - 1] == BeBytes(n / 256, k - 1);
      r
  }

  /** The `k` bytes of `n`, least significant first (`n.to_bytes(k, 'little')`). */
  function LeBytes(n: nat, k: nat): (r: seq<byte>)
    requires n < Pow(256, k)
    ensures |r| == k
    ensures LeValue(r) == n
  {
    if k == 0 then []
    else
      assert n / 256 < Pow(256, k - 1);
      var r := [n % 256] + LeBytes(n / 256, k - 1);
      assert r[1..] == LeBytes(n / 256, k - 1);
      r
  }

  /** Reading a byte string and writing the value back gives the same bytes. */
  lemma {:induction false} BeBytesOfValue(s: seq<byte>)
    ensures BeBytes(BeValue(s), |s|) == s
  {
    if |s| > 0 {
      var p := s[..|s| - 1];
      BeBytesOfValue(p);
      var n := BeValue(s);
      assert n / 256 == BeValue(p) && n % 256 == s[|s| - 1];
      assert s == p + [s[|s| - 1]];
    }
  }

  lemma {:induction false} LeBytesOfValue(s: seq<byte>)
    ensures LeBytes(LeValue(s), |s|) == s
  {
    if |s| > 0 {
      LeBytesOfValue(s[1..]);
      var n := LeValue(s);
      assert n / 256 == LeValue(s[1..]) && n % 256 == s[0];
      assert s == [s[0]] + s[1..];
    }
  }

  /** Unsigned 32-bit little-endian field at `off` (struct format '<I'). */
  function Le32At(b: seq<byte>, off: nat): (r: nat)
    requires off + 4 <= |b|
    ensures r < 0x1_0000_0000
  {
    assert Pow(256, 4) == 0x1_0000_0000;
    LeValue(b[off..off + 4])
  }

  /** Unsigned 32-bit big-endian word at `off` (struct format '>L'). */
  function Be32At(b: seq<byte>, off: nat): (r: nat)
    requires off + 4 <= |b|
    ensures r < 0x1_0000_0000
  {
    assert Pow(256, 4) == 0x1_0000_0000;
    BeValue(b[off..off + 4])
  }

  /** The bytes `count` records of `size` bytes take, laid back to back. */
  function Span(size: nat, count: nat): nat
  {
    if count == 0 then 0 else size + Span(size, count - 1)
  }
}
