// Hexadecimal text: how tongsuo/apps/enc.c prints key, iv and salt, and how it reads them.
module Hex {
  import opened Bytes

  function HexDigit(n: int): char
    requires 0 <= n < 16
  {
    "0123456789ABCDEF"[n]
  }

  predicate IsHex(c: char) {
    '0' <= c <= '9' || 'a' <= c <= 'f' || 'A' <= c <= 'F'
  }

  predicate AllHex(s: string) {
    forall i :: 0 <= i < |s| ==> IsHex(s[i])
  }

  function HexValue(c: char): (v: int)
    requires IsHex(c)
    ensures 0 <= v < 16
  {
    if '0' <= c <= '9' then c as int - '0' as int
    else if 'a' <= c <= 'f' then c as int - 'a' as int + 10
    else c as int - 'A' as int + 10
  }

  lemma DigitValue(n: int)
    requires 0 <= n < 16
    ensures IsHex(HexDigit(n)) && HexValue(HexDigit(n)) == n
  {
    assert n == 0 || n == 1 || n == 2 || n == 3 || n == 4 || n == 5 || n == 6 || n == 7
        || n == 8 || n == 9 || n == 10 || n == 11 || n == 12 || n == 13 || n == 14 || n == 15;
  }

  /** Digits are printed in upper case. */
  lemma DigitIs(n: int)
    requires 0 <= n < 16
    ensures HexDigit(n) == if n < 10 then ('0' as int + n) as char else ('A' as int + n - 10) as char
  {
    assert n == 0 || n == 1 || n == 2 || n == 3 || n == 4 || n == 5 || n == 6 || n == 7
        || n == 8 || n == 9 || n == 10 || n == 11 || n == 12 || n == 13 || n == 14 || n == 15;
  }

  function Upper(c: char): char {
    if 'a' <= c <= 'f' then (c as int - 32) as char else c
  }

  /** Digits are read in either case, and nothing else is a digit. */
  lemma DigitRead(c: char)
    ensures IsHex(c) <==> c in "0123456789abcdefABCDEF"
    ensures IsHex(c) ==> IsHex(Upper(c)) && HexValue(c) == HexValue(Upper(c)) && HexDigit(HexValue(c)) == Upper(c)
  {
    if IsHex(c) {
      DigitIs(HexValue(c));
      DigitListed(c);
    }
  }

  lemma DigitListed(c: char)
    requires IsHex(c)
    ensures c in "0123456789abcdefABCDEF"
  {
    var digits := "0123456789abcdefABCDEF";
    var v := HexValue(c);
    var i := if 'A' <= c <= 'F' then v + 6 else v;
    assert v == 0 || v == 1 || v == 2 || v == 3 || v == 4 || v == 5 || v == 6 || v == 7
        || v == 8 || v == 9 || v == 10 || v == 11 || v == 12 || v == 13 || v == 14 || v == 15;
    assert digits[i] == c;
  }

  /** The %02X printing of a byte string. */
  function Print(s: seq<byte>): (t: string)
    ensures |t| == 2 * |s|
  {
    if s == [] then ""
    else
      var b := s[|s| - 1];
      Print(s[..|s| - 1]) + [HexDigit(b / 16), HexDigit(b % 16)]
  }

  /** The printing loops for key, iv and salt. */
  method PrintHex(s: seq<byte>) returns (t: string)
    ensures t == Print(s)
  {
    t := "";
    for i := 0 to |s|
      invariant t == Print(s[..i])
    {
      t := t + [HexDigit(s[i] / 16), HexDigit(s[i] % 16)];
      assert s[..i + 1][..i] == s[..i];
    }
    assert s[..|s|] == s;
  }

  lemma {:induction false} PrintAt(s: seq<byte>, k: nat)
    requires k < |s|
    ensures Print(s)[2 * k] == HexDigit(s[k] / 16) && Print(s)[2 * k + 1] == HexDigit(s[k] % 16)
  {
    if k < |s| - 1 {
      PrintAt(s[..|s| - 1], k);
    }
  }

  lemma {:induction false} PrintIsHex(s: seq<byte>)
    ensures AllHex(Print(s))
  {
    forall i | 0 <= i < 2 * |s| ensures IsHex(Print(s)[i]) {
      PrintAt(s, i / 2);
      DigitValue(s[i / 2] / 16);
      DigitValue(s[i / 2] % 16);
      assert i == 2 * (i / 2) || i == 2 * (i / 2) + 1;
    }
  }

  // ------------------------------------------------------------------------
  // set_hex

  /** Digit i of a hex string, with zero digits past the end. */
  function NibbleAt(digits: string, i: nat): (v: int)
    requires AllHex(digits)
    ensures 0 <= v < 16
  {
    if i < |digits| then HexValue(digits[i]) else 0
  }

  /** The size bytes that digits spell, high digit first, padded with zero digits. */
  function Packed(digits: string, size: nat): (s: seq<byte>)
    requires AllHex(digits)
    ensures |s| == size
  {
    seq<byte>(size, k requires 0 <= k < size => 16 * NibbleAt(digits, 2 * k) + NibbleAt(digits, 2 * k + 1))
  }

  function Shl4(j: byte): byte {
    16 * j % 256
  }

  /** Bitwise or, bit by bit. */
  function Or(a: nat, b: nat): nat {
    if a == 0 then b
    else if b == 0 then a
    else 2 * Or(a / 2, b / 2) + (if a % 2 == 1 || b % 2 == 1 then 1 else 0)
  }

  lemma OrNibbles(hi: byte, lo: byte)
    requires hi < 16 && lo < 16
    ensures Shl4(hi) == 16 * hi && Or(16 * hi, lo) == 16 * hi + lo
  {
    assert lo / 2 / 2 / 2 / 2 == 0;
    assert Or(hi, 0) == hi;
    assert Or(2 * hi, lo / 2 / 2 / 2) == 2 * hi + lo / 2 / 2 / 2;
    assert Or(4 * hi, lo / 2 / 2) == 4 * hi + lo / 2 / 2;
    assert Or(8 * hi, lo / 2) == 8 * hi + lo / 2;
  }

  /** How many of the first n characters precede the first one that is not hex. */
  function HexPrefix(s: string, n: nat): (k: nat)
    requires n <= |s|
    ensures k <= n && AllHex(s[..k])
    ensures k < n ==> !IsHex(s[k])
  {
    if n == 0 then 0
    else
      var k := HexPrefix(s, n - 1);
      if k == n - 1 && IsHex(s[k]) then n else k
  }

  method SetHex(input: string, out: array<byte>) returns (ok: bool)
    modifies out
    ensures var n := if |input| > 2 * out.Length then 2 * out.Length else |input|;
      && (ok <==> AllHex(input[..n]))
      && out[..] == Packed(input[..HexPrefix(input, n)], out.Length)
  {
    var size := out.Length;
    var n := |input|;
    if n > size * 2 {
      n := size * 2;
    }
    forall k | 0 <= k < size {
      out[k] := 0;
    }
    var i := 0;
    while i < n
      invariant 0 <= i <= n && AllHex(input[..i])
      invariant out[..] == Packed(input[..i], size)
    {
      if !IsHex(input[i]) {
        PrefixIs(input, n, i);
        return false;
      }
      PutDigit(input, i, out);
      i := i + 1;
    }
    PrefixIs(input, n, n);
    return true;
  }

  /** One more digit, into the high half of a byte or the low one. */
  method PutDigit(input: string, i: nat, out: array<byte>)
    requires i < |input| && i < 2 * out.Length && AllHex(input[..i]) && IsHex(input[i])
    requires out[..] == Packed(input[..i], out.Length)
    modifies out
    ensures AllHex(input[..i + 1]) && out[..] == Packed(input[..i + 1], out.Length)
  {
    ghost var before := out[..];
    PackOneMore(input, i, out.Length, before);
    var j := HexValue(input[i]);
    if i % 2 == 1 {
      OrNibbles(NibbleAt(input[..i], i - 1), j);
      out[i / 2] := Or(out[i / 2], j);
    } else {
      OrNibbles(j, 0);
      out[i / 2] := Shl4(j);
    }
  }

  lemma {:induction false} PrefixIs(s: string, n: nat, i: nat)
    requires i <= n <= |s| && AllHex(s[..i])
    requires i < n ==> !IsHex(s[i])
    ensures HexPrefix(s, n) == i
    ensures AllHex(s[..n]) <==> i == n
  {
    var k := HexPrefix(s, n);
    assert forall j :: 0 <= j < i ==> s[..i][j] == s[j];
    assert forall j :: 0 <= j < k ==> s[..k][j] == s[j];
    if i < n {
      assert !IsHex(s[..n][i]);
    }
  }

  lemma {:induction false} PackOneMore(input: string, i: nat, size: nat, before: seq<byte>)
    requires i < |input| && i < 2 * size && AllHex(input[..i]) && IsHex(input[i])
    requires before == Packed(input[..i], size)
    ensures AllHex(input[..i + 1])
    ensures before[i / 2] == if i % 2 == 1 then 16 * NibbleAt(input[..i], i - 1) else 0
    ensures Packed(input[..i + 1], size)
         == before[i / 2 := (if i % 2 == 1 then before[i / 2] + HexValue(input[i]) else 16 * HexValue(input[i]))]
  {
    var a, b := input[..i], input[..i + 1];
    assert b == a + [input[i]];
    forall k | 0 <= k < size && k != i / 2 ensures Packed(b, size)[k] == before[k] {
      assert 2 * k != i && 2 * k + 1 != i;
    }
  }

  /** Reading undoes printing, whatever the bytes. */
  lemma {:induction false} ReadUndoesPrint(s: seq<byte>)
    ensures AllHex(Print(s)) && Packed(Print(s), |s|) == s
  {
    PrintIsHex(s);
    forall k | 0 <= k < |s| ensures Packed(Print(s), |s|)[k] == s[k] {
      PrintAt(s, k);
      DigitValue(s[k] / 16);
      DigitValue(s[k] % 16);
    }
  }
}
