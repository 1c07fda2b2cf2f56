// Serial numbers as the certificate authority writes, indexes and reads them back:
// BN_bn2hex with "00" for zero, comparison past leading zeros, BN_hex2bn.
module Serial {
  import opened Wrappers
  import opened Bytes
  import opened Hex

  /** The minimal big-endian bytes of n; none for zero. */
  function Magnitude(n: nat): seq<byte> {
    if n == 0 then [] else Magnitude(n / 256) + [n % 256]
  }

  lemma {:induction false} MagnitudeValue(n: nat)
    ensures FromBE(Magnitude(n)) == n
    ensures n > 0 ==> Magnitude(n) != [] && Magnitude(n)[0] != 0
  {
    if n > 0 {
      MagnitudeValue(n / 256);
      assert Magnitude(n)[..|Magnitude(n)| - 1] == Magnitude(n / 256);
    }
  }

  /** The text stored for serial number n. */
  function SerialText(n: int): string {
    if n == 0 then "00"
    else if n < 0 then "-" + Print(Magnitude(-n))
    else Print(Magnitude(n))
  }

  function Abs(n: int): nat {
    if n < 0 then -n else n
  }

  /** The content bytes of an ASN.1 integer: its magnitude, one zero byte for zero. */
  function Content(n: int): seq<byte> {
    if n == 0 then [0] else Magnitude(Abs(n))
  }

  /** The file name loop of ca_main prints the content bytes; for a batch that is the serial text. */
  lemma {:induction false} ContentPrinted(n: nat)
    ensures Print(Content(n)) == SerialText(n)
  {
    if n == 0 {
      assert [0][..0] == [] && Print([]) == "";
      assert Print([0]) == "00";
    }
  }

  /** The number a string of hex digits spells. */
  function Number(s: string): nat
    requires AllHex(s)
  {
    if s == "" then 0 else 16 * Number(s[..|s| - 1]) + HexValue(s[|s| - 1])
  }

  /** BN_hex2bn: an optional sign, then the leading run of hex digits, which must not be empty. */
  function HexToBn(t: string): Option<int> {
    var neg := t != "" && t[0] == '-';
    var s := if neg then t[1..] else t;
    var k := HexPrefix(s, |s|);
    if k == 0 then None
    else Some(if neg then 0 - Number(s[..k]) else Number(s[..k]))
  }

  /** What the serial index compares: the text past its leading zeros. */
  function Key(t: string): string {
    if t != "" && t[0] == '0' then Key(t[1..]) else t
  }

  /** The load check on a serial text: an optional sign, then two or more hex digits, evenly many. */
  predicate SerialOk(t: string) {
    var s := if t != "" && t[0] == '-' then t[1..] else t;
    |s| % 2 == 0 && |s| >= 2 && AllHex(s)
  }

  lemma {:induction false} PrintNumber(s: seq<byte>)
    ensures AllHex(Print(s)) && Number(Print(s)) == FromBE(s)
  {
    PrintIsHex(s);
    if s != [] {
      var i, b := s[..|s| - 1], s[|s| - 1];
      PrintNumber(i);
      DigitValue(b / 16);
      DigitValue(b % 16);
      var t := Print(s);
      assert t[..|t| - 1] == Print(i) + [HexDigit(b / 16)];
      assert t[..|t| - 1][..|t| - 2] == Print(i);
    }
  }

  lemma {:induction false} AllHexPrefix(s: string)
    requires AllHex(s)
    ensures HexPrefix(s, |s|) == |s| && s[..|s|] == s
  {
    PrefixIs(s, |s|, |s|);
  }

  lemma {:induction false} DigitsOf(m: nat)
    requires m > 0
    ensures var d := Print(Magnitude(m)); d != "" && |d| % 2 == 0 && AllHex(d) && Number(d) == m
  {
    MagnitudeValue(m);
    PrintNumber(Magnitude(m));
  }

  lemma {:induction false} SerialTextOk(n: int)
    ensures SerialOk(SerialText(n))
  {
    if n != 0 {
      var m := if n < 0 then -n else n;
      var d := Print(Magnitude(m));
      DigitsOf(m);
      assert ("-" + d)[1..] == d;
      assert IsHex(d[0]);
    }
  }

  lemma {:induction false} ReadDigits(d: string)
    requires AllHex(d) && d != ""
    ensures HexToBn(d) == Some(Number(d)) && HexToBn("-" + d) == Some(0 - Number(d))
  {
    AllHexPrefix(d);
    assert IsHex(d[0]);
    assert ("-" + d)[1..] == d;
  }

  /** The integer read back from a stored serial is the one that was stored. */
  lemma {:induction false} SerialRoundTrip(n: int)
    ensures HexToBn(SerialText(n)) == Some(n)
  {
    if n == 0 {
      assert AllHex("00") && "00"[..1] == "0" && "0"[..0] == "";
      assert Number("0") == 0 && Number("00") == 0;
      ReadDigits("00");
    } else {
      var m := if n < 0 then -n else n;
      DigitsOf(m);
      ReadDigits(Print(Magnitude(m)));
    }
  }

  lemma {:induction false} KeyNumber(s: string)
    requires AllHex(s)
    ensures AllHex(Key(s)) && Number(Key(s)) == Number(s)
    ensures Key(s) != "" ==> Key(s)[0] != '0'
  {
    if s != "" && s[0] == '0' {
      KeyNumber(s[1..]);
      DropZero(s);
    }
  }

  lemma {:induction false} DropZero(s: string)
    requires AllHex(s) && s != "" && s[0] == '0'
    ensures Number(s[1..]) == Number(s)
  {
    var i := s[..|s| - 1];
    if |s| == 1 {
      assert i == "" && s[1..] == "";
    } else {
      DropZero(i);
      assert s[1..][..|s| - 2] == i[1..];
    }
  }

  /** Texts that pass the load check denote a number, and equal keys denote equal numbers. */
  lemma {:induction false} KeyValue(t: string)
    requires SerialOk(t)
    ensures HexToBn(t).Some?
    ensures t[0] == '-' ==> Key(t) == t
    ensures t[0] != '-' ==> AllHex(t) && AllHex(Key(t)) && HexToBn(t).value == Number(Key(t))
  {
    if t[0] == '-' {
      AllHexPrefix(t[1..]);
    } else {
      AllHexPrefix(t);
      KeyNumber(t);
    }
  }

  lemma {:induction false} KeyDeterminesValue(t: string, u: string)
    requires SerialOk(t) && SerialOk(u) && Key(t) == Key(u)
    ensures HexToBn(t) == HexToBn(u)
  {
    KeyValue(t);
    KeyValue(u);
  }

  /** Different serial numbers never clash in the index. */
  lemma {:induction false} SerialsNeverClash(m: int, n: int)
    ensures Key(SerialText(m)) == Key(SerialText(n)) <==> m == n
  {
    SerialTextOk(m);
    SerialTextOk(n);
    if Key(SerialText(m)) == Key(SerialText(n)) {
      KeyDeterminesValue(SerialText(m), SerialText(n));
      SerialRoundTrip(m);
      SerialRoundTrip(n);
    }
  }

  // ------------------------------------------------------------------------
  // Digits and numbers

  function Power16(n: nat): nat {
    if n == 0 then 1 else 16 * Power16(n - 1)
  }

  /** The bytes that set_hex packs spell the number of the digits, moved left by the digits missing. */
  lemma {:induction false} PackedIsNumber(digits: string, size: nat)
    requires AllHex(digits) && |digits| <= 2 * size
    ensures FromBE(Packed(digits, size)) == Number(digits) * Power16(2 * size - |digits|)
    decreases size
  {
    if size > 0 {
      var n := 2 * (size - 1);
      var cut := if |digits| <= n then digits else digits[..n];
      PackedIsNumber(cut, size - 1);
      LastByte(digits, size, cut);
      LastDigits(digits, n, cut);
    }
  }

  lemma {:induction false} LastByte(digits: string, size: nat, cut: string)
    requires size > 0 && AllHex(digits) && |digits| <= 2 * size
    requires cut == if |digits| <= 2 * (size - 1) then digits else digits[..2 * (size - 1)]
    ensures FromBE(Packed(digits, size)) == 256 * FromBE(Packed(cut, size - 1))
      + 16 * NibbleAt(digits, 2 * (size - 1)) + NibbleAt(digits, 2 * (size - 1) + 1)
  {
    var p := Packed(digits, size);
    forall k | 0 <= k < size - 1 ensures p[k] == Packed(cut, size - 1)[k] {
      assert NibbleAt(digits, 2 * k) == NibbleAt(cut, 2 * k) && NibbleAt(digits, 2 * k + 1) == NibbleAt(cut, 2 * k + 1);
    }
    assert p[..size - 1] == Packed(cut, size - 1);
  }

  lemma {:induction false} LastDigits(digits: string, n: nat, cut: string)
    requires AllHex(digits) && |digits| <= n + 2 && cut == if |digits| <= n then digits else digits[..n]
    ensures 256 * (Number(cut) * Power16(n - |cut|)) + 16 * NibbleAt(digits, n) + NibbleAt(digits, n + 1)
         == Number(digits) * Power16(n + 2 - |digits|)
  {
    if |digits| <= n {
      Shift(Number(digits), n - |digits|);
    } else if |digits| == n + 1 {
      assert Power16(1) == 16 * Power16(0) && Power16(0) == 1;
    } else {
      var d := digits[..n + 1];
      assert d[..n] == cut && Number(d) == 16 * Number(cut) + HexValue(digits[n]);
      assert Power16(0) == 1;
    }
  }

  lemma {:induction false} Shift(x: nat, m: nat)
    ensures 256 * (x * Power16(m)) == x * Power16(m + 2)
  {
    var p := Power16(m);
    assert Power16(m + 2) == 16 * Power16(m + 1) == 256 * p;
    assert 256 * (x * p) == x * (256 * p);
  }

  function UpperAll(s: string): (t: string)
    ensures |t| == |s|
  {
    seq(|s|, i requires 0 <= i < |s| => Upper(s[i]))
  }

  lemma {:induction false} HexIsPrinted(s: string)
    requires AllHex(s) && |s| % 2 == 0
    ensures Print(Packed(s, |s| / 2)) == UpperAll(s)
  {
    var b := Packed(s, |s| / 2);
    forall i | 0 <= i < |s| ensures Print(b)[i] == Upper(s[i]) {
      HexPrintedAt(s, i / 2, b);
      assert i == 2 * (i / 2) || i == 2 * (i / 2) + 1;
    }
  }

  lemma {:induction false} HexPrintedAt(s: string, k: nat, b: seq<byte>)
    requires AllHex(s) && 2 * k + 1 < |s| && k < |b|
    requires b[k] == 16 * HexValue(s[2 * k]) + HexValue(s[2 * k + 1])
    ensures Print(b)[2 * k] == Upper(s[2 * k]) && Print(b)[2 * k + 1] == Upper(s[2 * k + 1])
  {
    PrintAt(b, k);
    DigitRead(s[2 * k]);
    DigitRead(s[2 * k + 1]);
    assert b[k] / 16 == HexValue(s[2 * k]) && b[k] % 16 == HexValue(s[2 * k + 1]);
  }

  lemma {:induction false} PrintedIsHex(s: string, b: seq<byte>)
    requires UpperAll(s) == Print(b)
    ensures AllHex(s) && |s| == 2 * |b|
  {
    PrintIsHex(b);
    forall i | 0 <= i < |s| ensures IsHex(s[i]) {
      assert UpperAll(s)[i] == Upper(s[i]);
    }
  }

  /** A serial text passes the load check exactly when it is, in either case, one or more printed bytes, perhaps signed. */
  lemma {:induction false} SerialOkExactly(t: string)
    ensures SerialOk(t) <==>
      exists b: seq<byte> :: b != [] && (UpperAll(t) == Print(b) || UpperAll(t) == "-" + Print(b))
  {
    var signed := t != "" && t[0] == '-';
    var s := if signed then t[1..] else t;
    assert signed ==> UpperAll(t) == "-" + UpperAll(s);
    if SerialOk(t) {
      HexIsPrinted(s);
      assert Packed(s, |s| / 2) != [];
    }
    forall b: seq<byte> | b != [] && (UpperAll(t) == Print(b) || UpperAll(t) == "-" + Print(b)) ensures SerialOk(t) {
      PrintedIsOk(t, b);
    }
  }

  lemma {:induction false} PrintedIsOk(t: string, b: seq<byte>)
    requires b != [] && (UpperAll(t) == Print(b) || UpperAll(t) == "-" + Print(b))
    ensures SerialOk(t)
  {
    PrintIsHex(b);
    assert IsHex(Print(b)[0]);
    assert UpperAll(t)[0] == Upper(t[0]);
    if t[0] == '-' {
      var s := t[1..];
      assert UpperAll(s) == UpperAll(t)[1..] == Print(b);
      PrintedIsHex(s, b);
    } else {
      NotSigned(t, Print(b));
      PrintedIsHex(t, b);
    }
  }

  lemma {:induction false} NotSigned(t: string, p: string)
    requires t == "" || t[0] != '-'
    ensures UpperAll(t) != "-" + p
  {
    if t != "" {
      assert UpperAll(t)[0] == Upper(t[0]) != '-';
      assert ("-" + p)[0] == '-';
    }
  }
}
