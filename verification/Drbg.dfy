// AES256_CTR_DRBG of pqmagic/utils/rng.c, refined to the CTR_DRBG of NIST SP 800-90A Rev. 1
// without a derivation function: Update (section 10.2.1.2), Instantiate (10.2.1.3.1) and
// Generate (10.2.1.5.1), with a 16-byte block, a 32-byte key and a 48-byte seed.
module Drbg {
  import opened Wrappers
  import opened Bytes
  import SeedExpander

  const SEEDLEN := 48

  datatype RawState = State(key: seq<byte>, v: seq<byte>)
  type State = s: RawState | |s.key| == 32 && |s.v| == 16
    witness State(seq(32, _ => 0), seq(16, _ => 0))

  function Zeros(n: nat): (s: seq<byte>)
    ensures |s| == n
  {
    seq<byte>(n, _ => 0)
  }

  function Power2(n: nat): nat {
    if n == 0 then 1 else 2 * Power2(n - 1)
  }

  /** Exclusive or of the low n bits. */
  function XorBits(a: nat, b: nat, n: nat): (r: nat)
    ensures r < Power2(n)
  {
    if n == 0 then 0 else 2 * XorBits(a / 2, b / 2, n - 1) + (a + b) % 2
  }

  lemma {:induction false} EightBits()
    ensures Power2(8) == 256
  {
    assert Power2(4) == 2 * Power2(3) == 4 * Power2(2) == 8 * Power2(1) == 16;
    assert Power2(8) == 2 * Power2(7) == 4 * Power2(6) == 8 * Power2(5) == 16 * Power2(4);
  }

  function Xor(a: byte, b: byte): byte {
    EightBits();
    XorBits(a, b, 8)
  }

  /** Bit k of a number: halved k times, it is odd. */
  predicate Bit(a: nat, k: nat) {
    if k == 0 then a % 2 == 1 else Bit(a / 2, k - 1)
  }

  lemma {:induction false} XorBitsAt(a: nat, b: nat, n: nat, k: nat)
    requires k < n
    ensures Bit(XorBits(a, b, n), k) <==> Bit(a, k) != Bit(b, k)
    decreases n
  {
    if k > 0 {
      XorBitsAt(a / 2, b / 2, n - 1, k - 1);
    }
  }

  /** A bit of the result is set if and only if exactly one of the two is. */
  lemma {:induction false} XorAt(a: byte, b: byte, k: nat)
    requires k < 8
    ensures Bit(Xor(a, b), k) <==> Bit(a, k) != Bit(b, k)
  {
    XorBitsAt(a, b, 8, k);
  }

  function XorAll(a: seq<byte>, b: seq<byte>): (s: seq<byte>)
    requires |a| == |b|
    ensures |s| == |a|
  {
    seq<byte>(|a|, i requires 0 <= i < |a| => Xor(a[i], b[i]))
  }

  lemma XorZeros(a: seq<byte>)
    ensures XorAll(a, Zeros(|a|)) == a
  {
    forall i | 0 <= i < |a| ensures Xor(a[i], 0) == a[i] {
      XorZero(a[i]);
    }
  }

  lemma {:induction false} XorZero(a: byte)
    ensures Xor(a, 0) == a
  {
    EightBits();
    XorBitsZero(a, 8);
  }

  lemma {:induction false} XorBitsZero(a: nat, n: nat)
    requires a < Power2(n)
    ensures XorBits(a, 0, n) == a
    decreases n
  {
    if n > 0 {
      XorBitsZero(a / 2, n - 1);
    }
  }

  // ------------------------------------------------------------------------
  // The standard's algorithms

  /** V = (V + 1) mod 2^128: the low sixteen bytes of V + 1. */
  function NextV(v: Block): Block {
    ToBE(FromBE(v) + 1, 16)
  }

  /** n rounds of stepping V and appending its encryption; the last V comes along. */
  function KeyStream(aes: Aes, key: seq<byte>, v: Block, n: nat): (r: (seq<byte>, Block))
    ensures |r.0| == 16 * n
  {
    if n == 0 then ([], v)
    else
      var (temp, w) := KeyStream(aes, key, v, n - 1);
      (temp + aes(key, NextV(w)), NextV(w))
  }

  function Update(aes: Aes, data: seq<byte>, st: State): State
    requires |data| == SEEDLEN
  {
    var temp := XorAll(KeyStream(aes, st.key, st.v, 3).0, data);
    State(temp[..32], temp[32..])
  }

  function Instantiate(aes: Aes, entropy: seq<byte>, personalization: seq<byte>): State
    requires |entropy| == |personalization| == SEEDLEN
  {
    Update(aes, XorAll(entropy, personalization), State(Zeros(32), Zeros(16)))
  }

  function Ceil16(n: nat): (k: nat)
    ensures n <= 16 * k < n + 16
  {
    (n + 15) / 16
  }

  /** The returned bits and the new state of one Generate call with no additional input. */
  function Generate(aes: Aes, st: State, n: nat): (r: (seq<byte>, State))
    ensures |r.0| == n
  {
    var (temp, v) := KeyStream(aes, st.key, st.v, Ceil16(n));
    (temp[..n], Update(aes, Zeros(SEEDLEN), State(st.key, v)))
  }

  // ------------------------------------------------------------------------
  // What the algorithms compute

  /** Update: the key is made of the encryptions of V+1 and V+2, V of that of V+3, both mixed with the data. */
  lemma {:induction false} UpdateBytes(aes: Aes, data: seq<byte>, st: State, i: nat)
    requires |data| == SEEDLEN && i < SEEDLEN
    ensures var st' := Update(aes, data, st);
      (if i < 32 then st'.key[i] else st'.v[i - 32])
      == Xor(aes(st.key, ToBE(FromBE(st.v) + 1 + i / 16, 16))[i % 16], data[i])
  {
    KeyStreamByte(aes, st.key, st.v, 3, i);
  }

  /** Instantiate: from the zero key and counter, entropy mixed with personalization is the data. */
  lemma {:induction false} InstantiateBytes(aes: Aes, entropy: seq<byte>, personalization: seq<byte>, i: nat)
    requires |entropy| == |personalization| == SEEDLEN && i < SEEDLEN
    ensures var st' := Instantiate(aes, entropy, personalization);
      (if i < 32 then st'.key[i] else st'.v[i - 32])
      == Xor(aes(Zeros(32), ToBE(1 + i / 16, 16))[i % 16], Xor(entropy[i], personalization[i]))
  {
    var data, zero := XorAll(entropy, personalization), State(Zeros(32), Zeros(16));
    assert data[i] == Xor(entropy[i], personalization[i]);
    UpdateBytes(aes, data, zero, i);
    assert FromBE(zero.v) == 0 by {
      ZeroCounter(16);
    }
  }

  lemma {:induction false} ZeroCounter(n: nat)
    ensures FromBE(Zeros(n)) == 0
  {
    if n > 0 {
      assert Zeros(n)[..n - 1] == Zeros(n - 1);
      ZeroCounter(n - 1);
    }
  }

  /** Generate: the new key and counter are the 48 bytes of key stream past the blocks given out. */
  lemma {:induction false} GenerateState(aes: Aes, st: State, n: nat, i: nat)
    requires i < SEEDLEN
    ensures var st' := Generate(aes, st, n).1;
      (if i < 32 then st'.key[i] else st'.v[i - 32])
      == aes(st.key, ToBE(FromBE(st.v) + Ceil16(n) + 1 + i / 16, 16))[i % 16]
  {
    StateSeesOnlyBlocks(aes, st, n);
    ZeroUpdate(aes, st.key, FromBE(st.v) + Ceil16(n), i);
  }

  lemma {:induction false} ZeroUpdate(aes: Aes, key: seq<byte>, m: nat, i: nat)
    requires |key| == 32 && i < SEEDLEN
    ensures var st' := Update(aes, Zeros(SEEDLEN), State(key, ToBE(m, 16)));
      (if i < 32 then st'.key[i] else st'.v[i - 32]) == aes(key, ToBE(m + 1 + i / 16, 16))[i % 16]
  {
    UpdateBytes(aes, Zeros(SEEDLEN), State(key, ToBE(m, 16)), i);
    CounterAgain(m, 1 + i / 16);
    assert FromBE(ToBE(m, 16)) + 1 + i / 16 == FromBE(ToBE(m, 16)) + (1 + i / 16);
    XorZero(aes(key, ToBE(m + (1 + i / 16), 16))[i % 16]);
  }

  /** Adding to a wrapped counter is adding and wrapping. */
  lemma {:induction false} CounterAgain(m: nat, k: nat)
    ensures ToBE(FromBE(ToBE(m, 16)) + k, 16) == ToBE(m + k, 16)
  {
    if k == 0 {
      ToFromBE(ToBE(m, 16));
    } else {
      var a, b := FromBE(ToBE(m, 16)) + k - 1, m + k - 1;
      CounterAgain(m, k - 1);
      assert ToBE(a, 16) == ToBE(b, 16);
      NextIsPlusOne(a);
      NextIsPlusOne(b);
    }
  }

  /** After n rounds the counter stands at V + n modulo 2^128. */
  lemma {:induction false} KeyStreamCounter(aes: Aes, key: seq<byte>, v: Block, n: nat)
    ensures KeyStream(aes, key, v, n).1 == ToBE(FromBE(v) + n, 16)
  {
    if n == 0 {
      ToFromBE(v);
    } else {
      KeyStreamCounter(aes, key, v, n - 1);
      NextIsPlusOne(FromBE(v) + n - 1);
    }
  }

  lemma {:induction false} NextIsPlusOne(m: nat)
    ensures NextV(ToBE(m, 16)) == ToBE(m + 1, 16)
  {
    IncrementIsPlusOne(m, 16);
    IncrementIsNext(ToBE(m, 16));
  }

  /** Byte i of the key stream lies in the encryption of V + 1 + i / 16. */
  lemma {:induction false} KeyStreamByte(aes: Aes, key: seq<byte>, v: Block, n: nat, i: nat)
    requires i < 16 * n
    ensures KeyStream(aes, key, v, n).0[i] == aes(key, ToBE(FromBE(v) + 1 + i / 16, 16))[i % 16]
  {
    if i < 16 * (n - 1) {
      KeyStreamByte(aes, key, v, n - 1, i);
    } else {
      KeyStreamCounter(aes, key, v, n);
      assert i / 16 == n - 1 && i == 16 * (n - 1) + i % 16;
      assert FromBE(v) + 1 + i / 16 == FromBE(v) + n;
    }
  }

  lemma {:induction false} KeyStreamPrefix(aes: Aes, key: seq<byte>, v: Block, m: nat, n: nat)
    requires m <= n
    ensures KeyStream(aes, key, v, m).0 <= KeyStream(aes, key, v, n).0
  {
    if m < n {
      KeyStreamPrefix(aes, key, v, m, n - 1);
    }
  }

  /** The output is the encryptions of V+1, V+2, ... (mod 2^128) laid end to end and cut at n. */
  lemma GenerateBytes(aes: Aes, st: State, n: nat, i: nat)
    requires i < n
    ensures Generate(aes, st, n).0[i]
         == aes(st.key, ToBE(FromBE(st.v) + 1 + i / 16, 16))[i % 16]
  {
    KeyStreamByte(aes, st.key, st.v, Ceil16(n), i);
  }

  /** A shorter request returns a prefix of a longer one made from the same state. */
  lemma ShorterIsPrefix(aes: Aes, st: State, m: nat, n: nat)
    requires m <= n
    ensures Generate(aes, st, m).0 <= Generate(aes, st, n).0
  {
    KeyStreamPrefix(aes, st.key, st.v, Ceil16(m), Ceil16(n));
  }

  /** The new state does not see the length beyond the number of blocks it took. */
  lemma StateSeesOnlyBlocks(aes: Aes, st: State, n: nat)
    ensures Generate(aes, st, n).1
         == Update(aes, Zeros(SEEDLEN), State(st.key, ToBE(FromBE(st.v) + Ceil16(n), 16)))
  {
    KeyStreamCounter(aes, st.key, st.v, Ceil16(n));
  }

  // ------------------------------------------------------------------------
  // The code

  /** Steps V with byte carries and encrypts it. */
  method EncryptNext(aes: Aes, key: array<byte>, v: array<byte>) returns (block: Block)
    requires v.Length == 16 && key != v
    modifies v
    ensures v[..] == NextV(old(v[..]))
    ensures block == aes(key[..], v[..])
  {
    IncrementIsNext(v[..]);
    assert v[0..] == v[..];
    IncrementFrom(v, 0);
    assert v[..] == v[0..];
    block := aes(key[..], v[..]);
  }

  /** AES256_CTR_DRBG_Update: absent provided data acts as 48 zero bytes. */
  method UpdateInPlace(aes: Aes, provided: Option<seq<byte>>, key: array<byte>, v: array<byte>)
    requires key.Length == 32 && v.Length == 16 && key != v
    requires provided.Some? ==> |provided.value| == SEEDLEN
    modifies key, v
    ensures State(key[..], v[..])
         == Update(aes, if provided.Some? then provided.value else Zeros(SEEDLEN), old(State(key[..], v[..])))
  {
    ghost var stream := KeyStream(aes, key[..], v[..], 3).0;
    var temp := ThreeBlocks(aes, key, v);
    if provided.Some? {
      MixIn(temp, provided.value);
    } else {
      XorZeros(stream);
    }
    ghost var mixed := temp[..];
    forall i | 0 <= i < 32 {
      key[i] := temp[i];
    }
    forall i | 0 <= i < 16 {
      v[i] := temp[32 + i];
    }
    assert key[..] == mixed[..32] && v[..] == mixed[32..];
  }

  /** The 48 bytes of key stream that replace the state, before any data is mixed in. */
  method ThreeBlocks(aes: Aes, key: array<byte>, v: array<byte>) returns (temp: array<byte>)
    requires v.Length == 16 && key != v
    modifies v
    ensures fresh(temp) && temp.Length == 48
    ensures temp[..] == KeyStream(aes, key[..], old(v[..]), 3).0
  {
    ghost var k, v0: Block := key[..], v[..];
    temp := new byte[48];
    for i := 0 to 3
      modifies v, temp
      invariant (temp[..16 * i], v[..]) == KeyStream(aes, k, v0, i)
    {
      var block := EncryptNext(aes, key, v);
      CopyBlock(block, 16, temp, 16 * i);
      assert block[..16] == block;
    }
    assert temp[..48] == temp[..];
  }

  method MixIn(temp: array<byte>, data: seq<byte>)
    requires temp.Length == |data|
    modifies temp
    ensures temp[..] == XorAll(old(temp[..]), data)
  {
    for i := 0 to temp.Length
      invariant forall k :: 0 <= k < i ==> temp[k] == Xor(old(temp[k]), data[k])
      invariant forall k :: i <= k < temp.Length ==> temp[k] == old(temp[k])
    {
      temp[i] := Xor(temp[i], data[i]);
    }
  }

  /** Copies the first n bytes of a block to x[offset..]. */
  method CopyBlock(block: Block, n: nat, x: array<byte>, offset: nat)
    requires n <= 16 && offset + n <= x.Length
    modifies x
    ensures x[..offset + n] == old(x[..offset]) + block[..n]
    ensures forall k :: offset + n <= k < x.Length ==> x[k] == old(x[k])
  {
    forall k | 0 <= k < n {
      x[offset + k] := block[k];
    }
  }

  class Generator {
    const aes: Aes
    const key: array<byte>
    const v: array<byte>
    var reseedCounter: nat

    ghost predicate Valid() {
      key.Length == 32 && v.Length == 16 && key != v
    }

    ghost function View(): State
      requires Valid()
      reads key, v
    {
      State(key[..], v[..])
    }

    /** randombytes_init: absent personalization acts as 48 zero bytes. */
    constructor (aes: Aes, entropy: seq<byte>, personalization: Option<seq<byte>>)
      requires |entropy| == SEEDLEN
      requires personalization.Some? ==> |personalization.value| == SEEDLEN
      ensures Valid() && fresh(key) && fresh(v)
      ensures this.aes == aes && reseedCounter == 1
      ensures View() == Instantiate(aes, entropy,
                          if personalization.Some? then personalization.value else Zeros(SEEDLEN))
    {
      this.aes := aes;
      var k := new byte[32](_ => 0);
      var w := new byte[16](_ => 0);
      var material := if personalization.Some? then XorAll(entropy, personalization.value) else entropy;
      XorZeros(entropy);
      assert k[..] == Zeros(32) && w[..] == Zeros(16);
      UpdateInPlace(aes, Some(material), k, w);
      key, v := k, w;
      reseedCounter := 1;
    }

    /** randombytes, for every length the int offset of its loop can reach. */
    method RandomBytes(x: array<byte>, xlen: nat) returns (code: int)
      requires Valid() && x != key && x != v
      requires xlen <= x.Length && xlen < 0x8000_0000
      modifies this`reseedCounter, key, v, x
      ensures code == SeedExpander.RNG_SUCCESS
      ensures (x[..xlen], View()) == Generate(aes, old(View()), xlen)
      ensures x[xlen..] == old(x[xlen..])
      ensures reseedCounter == old(reseedCounter) + 1
    {
      ghost var st := View();
      Fill(x, xlen);
      UpdateInPlace(aes, None, key, v);
      reseedCounter := reseedCounter + 1;
      return SeedExpander.RNG_SUCCESS;
    }

    /** The output loop: whole blocks, then the cut last one. */
    method Fill(x: array<byte>, xlen: nat)
      requires Valid() && x != key && x != v && xlen <= x.Length
      modifies v, x
      ensures var (temp, w) := KeyStream(aes, key[..], old(v[..]), Ceil16(xlen));
        x[..xlen] == temp[..xlen] && v[..] == w
      ensures forall k :: xlen <= k < x.Length ==> x[k] == old(x[k])
    {
      ghost var v0: Block := v[..];
      ghost var j := 0;
      var todo: nat, i: nat := xlen, 0;
      while todo > 0
        invariant todo + i == xlen && i == 16 * j
        invariant (x[..i], v[..]) == KeyStream(aes, key[..], v0, j)
        invariant forall k :: i <= k < x.Length ==> x[k] == old(x[k])
      {
        if todo > 15 {
          Emit(x, i, 16, v0, j);
          ghost var t := KeyStream(aes, key[..], v0, j + 1).0;
          assert t[..i + 16] == t;
          i := i + 16;
          todo := todo - 16;
          j := j + 1;
        } else {
          Emit(x, i, todo, v0, j);
          return;
        }
      }
    }

    /** Extends the output by n bytes of the next block. */
    method Emit(x: array<byte>, i: nat, n: nat, ghost v0: Block, ghost j: nat)
      requires Valid() && x != key && x != v && i + n <= x.Length && n <= 16 && i == 16 * j
      requires (x[..i], v[..]) == KeyStream(aes, key[..], v0, j)
      modifies v, x
      ensures v[..] == KeyStream(aes, key[..], v0, j + 1).1
      ensures x[..i + n] == KeyStream(aes, key[..], v0, j + 1).0[..i + n]
      ensures forall k :: i + n <= k < x.Length ==> x[k] == old(x[k])
    {
      ghost var t := x[..i];
      var block := EncryptNext(aes, key, v);
      CopyBlock(block, n, x, i);
      assert t + block[..n] == (t + block)[..i + n];
    }
  }
}
