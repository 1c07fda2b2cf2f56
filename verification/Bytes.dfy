// Byte strings as big-endian numbers, and the byte-carry counter of pqmagic/utils/rng.c.
module Bytes {

  type byte = x: int | 0 <= x < 256
  type Block = s: seq<byte> | |s| == 16 witness seq(16, _ => 0)

  /** A block cipher: any function from key and block to block. */
  type Aes = (seq<byte>, Block) -> Block

  function Pow256(n: nat): (p: nat)
    ensures p > 0
  {
    if n == 0 then 1 else 256 * Pow256(n - 1)
  }

  /** The number a byte string spells, most significant byte first. */
  function FromBE(s: seq<byte>): nat {
    if s == [] then 0 else 256 * FromBE(s[..|s| - 1]) + s[|s| - 1]
  }

  /** The low n bytes of v, most significant byte first. */
  function ToBE(v: nat, n: nat): (s: seq<byte>)
    ensures |s| == n
  {
    if n == 0 then [] else ToBE(v / 256, n - 1) + [v % 256]
  }

  lemma {:induction false} ToFromBE(s: seq<byte>)
    ensures ToBE(FromBE(s), |s|) == s
  {
    if s != [] {
      ToFromBE(s[..|s| - 1]);
    }
  }

  lemma {:induction false} FromToBE(v: nat, n: nat)
    ensures FromBE(ToBE(v, n)) == v % Pow256(n)
  {
    if n != 0 {
      FromToBE(v / 256, n - 1);
      assert ToBE(v, n)[..n - 1] == ToBE(v / 256, n - 1);
      ModSplit(v, Pow256(n - 1));
    }
  }

  lemma ModSplit(v: nat, p: nat)
    requires p > 0
    ensures v % (256 * p) == 256 * (v / 256 % p) + v % 256
  {
    var w := v / 256;
    var q, r := w / p, w % p;
    assert w == p * q + r;
    assert 256 * (p * q) == (256 * p) * q;
    ModUnique(v, 256 * p, q, 256 * r + v % 256);
  }

  lemma ModUnique(v: nat, m: nat, q: nat, r: nat)
    requires r < m && v == m * q + r
    ensures v % m == r
  {
    var d := v / m - q;
    assert m * (v / m) == m * q + m * d;
    MultipleBound(m, d);
  }

  lemma MultipleBound(m: nat, d: int)
    ensures d >= 1 ==> m * d >= m
    ensures d <= -1 ==> m * d <= -(m as int)
  {
    if d >= 1 {
      assert m * d == m + m * (d - 1);
    } else if d <= -1 {
      assert m * d == -(m as int) + m * (d + 1);
    }
  }

  /** Numbers below 256^n have distinct n-byte encodings. */
  lemma ToBEInjective(v: nat, w: nat, n: nat)
    requires v < Pow256(n) && w < Pow256(n)
    requires ToBE(v, n) == ToBE(w, n)
    ensures v == w
  {
    FromToBE(v, n);
    FromToBE(w, n);
    ModUnique(v, Pow256(n), 0, v);
    ModUnique(w, Pow256(n), 0, w);
  }

  /** Adding one with byte carries; an all-0xff string wraps to zeros. */
  function Incremented(s: seq<byte>): (r: seq<byte>)
    ensures |r| == |s|
  {
    if s == [] then []
    else if s[|s| - 1] == 0xff then Incremented(s[..|s| - 1]) + [0]
    else s[..|s| - 1] + [s[|s| - 1] + 1]
  }

  /** The carry loop is addition of one modulo 256^n. */
  lemma {:induction false} IncrementIsPlusOne(v: nat, n: nat)
    ensures Incremented(ToBE(v, n)) == ToBE(v + 1, n)
  {
    if n != 0 {
      assert ToBE(v, n)[..n - 1] == ToBE(v / 256, n - 1);
      if v % 256 == 255 {
        assert (v + 1) / 256 == v / 256 + 1 && (v + 1) % 256 == 0;
        IncrementIsPlusOne(v / 256, n - 1);
      } else {
        assert (v + 1) / 256 == v / 256;
      }
    }
  }

  lemma {:induction false} IncrementIsNext(s: seq<byte>)
    ensures Incremented(s) == ToBE(FromBE(s) + 1, |s|)
  {
    ToFromBE(s);
    IncrementIsPlusOne(FromBE(s), |s|);
  }

  /** Taking the low n bytes is taking the number modulo 256^n. */
  lemma {:induction false} ToBEMod(v: nat, n: nat)
    ensures ToBE(v % Pow256(n), n) == ToBE(v, n)
  {
    FromToBE(v, n);
    ToFromBE(ToBE(v, n));
  }

  /** What the carry loop leaves behind when the first byte that does not carry is s[j]. */
  lemma {:induction false} CarryStopsAt(s: seq<byte>, j: nat)
    requires j < |s| && s[j] != 0xff
    requires forall k :: j < k < |s| ==> s[k] == 0xff
    ensures Incremented(s) == s[..j] + [s[j] + 1] + seq(|s| - 1 - j, _ => 0)
  {
    if j < |s| - 1 {
      var t := s[..|s| - 1];
      CarryStopsAt(t, j);
      assert t[..j] == s[..j];
    }
  }

  lemma {:induction false} CarryNeverStops(s: seq<byte>)
    requires forall k :: 0 <= k < |s| ==> s[k] == 0xff
    ensures Incremented(s) == seq(|s|, _ => 0)
  {
    if s != [] {
      CarryNeverStops(s[..|s| - 1]);
    }
  }

  /**
   * Increments the counter held in a[lo..], scanning from the last byte towards lo
   * and stopping at the first byte that does not carry.
   */
  method IncrementFrom(a: array<byte>, lo: nat)
    requires lo <= a.Length
    modifies a
    ensures a[..lo] == old(a[..lo])
    ensures a[lo..] == Incremented(old(a[lo..]))
  {
    ghost var s := a[lo..];
    var i := a.Length - 1;
    while i >= lo
      invariant lo - 1 <= i < a.Length
      invariant forall k :: 0 <= k <= i ==> a[k] == old(a[k])
      invariant forall k :: i < k < a.Length ==> a[k] == 0
      invariant forall k :: i - lo < k < |s| ==> s[k] == 0xff
      decreases i
    {
      if a[i] == 0xff {
        a[i] := 0x00;
      } else {
        a[i] := a[i] + 1;
        CarryStopsAt(s, i - lo);
        return;
      }
      i := i - 1;
    }
    CarryNeverStops(s);
  }
}
