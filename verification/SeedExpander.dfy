// The seed expander of pqmagic/utils/rng.c: a buffered AES counter generator,
// refined to an ideal byte stream. AES is any function from key and block to block.
module SeedExpander {
  import opened Bytes

  const RNG_SUCCESS := 0
  const RNG_BAD_MAXLEN := -1
  const RNG_BAD_OUTBUF := -2
  const RNG_BAD_REQ_LEN := -3

  const MAXLEN_LIMIT := 0x1_0000_0000

  /** What seedexpander_init fixes: the key, the 8-byte diversifier and the length bound. */
  datatype RawSetup = Setup(key: seq<byte>, diversifier: seq<byte>, maxlen: nat)
  type Setup = s: RawSetup | |s.diversifier| == 8 && s.maxlen < MAXLEN_LIMIT
    witness Setup([], seq(8, _ => 0), 0)

  /** The AES input for block i: diversifier, length bound and block number. */
  function CounterBlock(s: Setup, i: nat): Block {
    s.diversifier + ToBE(s.maxlen, 4) + ToBE(i, 4)
  }

  /** Byte i of the ideal stream: block 0, block 1, ... laid end to end. */
  function StreamByte(aes: Aes, s: Setup, i: nat): byte {
    aes(s.key, CounterBlock(s, i / 16))[i % 16]
  }

  function Stream(aes: Aes, s: Setup, from: nat, n: nat): (r: seq<byte>)
    ensures |r| == n
  {
    seq<byte>(n, k requires 0 <= k < n => StreamByte(aes, s, from + k))
  }

  lemma StreamConcat(aes: Aes, s: Setup, from: nat, m: nat, n: nat)
    ensures Stream(aes, s, from, m) + Stream(aes, s, from + m, n) == Stream(aes, s, from, m + n)
  {}

  /** Distinct setups of one key, and distinct blocks of one setup, never share an AES input. */
  lemma CounterBlockInjective(s: Setup, t: Setup, i: nat, j: nat)
    requires i < MAXLEN_LIMIT && j < MAXLEN_LIMIT
    requires CounterBlock(s, i) == CounterBlock(t, j)
    ensures s.diversifier == t.diversifier && s.maxlen == t.maxlen && i == j
  {
    var a, b := CounterBlock(s, i), CounterBlock(t, j);
    assert a[..8] == s.diversifier && b[..8] == t.diversifier;
    assert a[8..12] == ToBE(s.maxlen, 4) && b[8..12] == ToBE(t.maxlen, 4);
    assert a[12..] == ToBE(i, 4) && b[12..] == ToBE(j, 4);
    assert Pow256(1) == 256 && Pow256(2) == 0x1_0000 && Pow256(3) == 0x100_0000;
    assert Pow256(4) == MAXLEN_LIMIT;
    ToBEInjective(s.maxlen, t.maxlen, 4);
    ToBEInjective(i, j, 4);
  }

  // ------------------------------------------------------------------------
  // One request, and sequences of requests

  datatype Request = Request(nullBuffer: bool, len: nat)

  /** Bytes handed out so far and bytes the length bound still allows. */
  datatype Progress = Progress(consumed: nat, remaining: nat)

  datatype Reply = Reply(code: int, bytes: seq<byte>)

  function Serve(aes: Aes, s: Setup, p: Progress, q: Request): (Progress, Reply) {
    if q.nullBuffer then (p, Reply(RNG_BAD_OUTBUF, []))
    else if q.len >= p.remaining then (p, Reply(RNG_BAD_REQ_LEN, []))
    else (Progress(p.consumed + q.len, p.remaining - q.len),
          Reply(RNG_SUCCESS, Stream(aes, s, p.consumed, q.len)))
  }

  /** The state after a list of requests, and everything returned on the way. */
  function ServeAll(aes: Aes, s: Setup, p: Progress, qs: seq<Request>): (Progress, seq<byte>)
    decreases qs
  {
    if qs == [] then (p, [])
    else
      var (p1, r) := Serve(aes, s, p, qs[0]);
      var (p2, out) := ServeAll(aes, s, p1, qs[1..]);
      (p2, r.bytes + out)
  }

  function Fresh(s: Setup): Progress {
    Progress(0, s.maxlen)
  }

  /** However requests are split, what they return is one stretch of the ideal stream. */
  lemma {:induction false} RequestsReadTheStream(aes: Aes, s: Setup, p: Progress, qs: seq<Request>)
    ensures var (p', out) := ServeAll(aes, s, p, qs);
      && p'.consumed == p.consumed + |out|
      && p'.remaining == p.remaining - |out|
      && (out == [] || p'.remaining > 0)
      && out == Stream(aes, s, p.consumed, |out|)
    decreases qs
  {
    if qs != [] {
      var (p1, r) := Serve(aes, s, p, qs[0]);
      RequestsReadTheStream(aes, s, p1, qs[1..]);
      var (p2, out) := ServeAll(aes, s, p1, qs[1..]);
      if r.code == RNG_SUCCESS {
        StreamConcat(aes, s, p.consumed, |r.bytes|, |out|);
      } else {
        assert r.bytes + out == out;
      }
    }
  }

  /**
   * From a fresh expander, any two request lists return prefixes of the same stream,
   * and neither returns maxlen bytes or more unless it returns nothing.
   */
  lemma SplittingIsInvisible(aes: Aes, s: Setup, qs: seq<Request>, qs': seq<Request>)
    ensures var out, out' := ServeAll(aes, s, Fresh(s), qs).1, ServeAll(aes, s, Fresh(s), qs').1;
      && (|out| <= |out'| ==> out <= out')
      && (out == [] || |out| < s.maxlen)
  {
    RequestsReadTheStream(aes, s, Fresh(s), qs);
    RequestsReadTheStream(aes, s, Fresh(s), qs');
    var out, out' := ServeAll(aes, s, Fresh(s), qs).1, ServeAll(aes, s, Fresh(s), qs').1;
    if |out| <= |out'| {
      StreamConcat(aes, s, 0, |out|, |out'| - |out|);
    }
  }

  /** The stream is the encryptions of the counter blocks, one after another. */
  lemma {:induction false} StreamIsBlocks(aes: Aes, s: Setup, i: nat)
    ensures Stream(aes, s, 16 * i, 16) == aes(s.key, s.diversifier + ToBE(s.maxlen, 4) + ToBE(i, 4))
  {
    var block := aes(s.key, CounterBlock(s, i));
    forall k | 0 <= k < 16 ensures Stream(aes, s, 16 * i, 16)[k] == block[k] {
      assert (16 * i + k) / 16 == i && (16 * i + k) % 16 == k;
      assert StreamByte(aes, s, 16 * i + k) == block[k];
    }
  }

  /** The code of each reply: -2 for no buffer, -3 when the bytes given out and asked for reach maxlen. */
  lemma {:induction false} ReplyCode(aes: Aes, s: Setup, qs: seq<Request>, q: Request)
    ensures var (p, out) := ServeAll(aes, s, Fresh(s), qs); var r := Serve(aes, s, p, q).1;
      && r.code == (if q.nullBuffer then -2 else if |out| + q.len >= s.maxlen then -3 else 0)
      && |r.bytes| == if r.code == 0 then q.len else 0
  {
    RequestsReadTheStream(aes, s, Fresh(s), qs);
  }

  function Total(qs: seq<Request>): nat {
    if qs == [] then 0 else qs[0].len + Total(qs[1..])
  }

  /** Every request of a list is served. */
  predicate AllServed(aes: Aes, s: Setup, p: Progress, qs: seq<Request>)
    decreases qs
  {
    qs == [] ||
    (var (p', r) := Serve(aes, s, p, qs[0]); r.code == RNG_SUCCESS && AllServed(aes, s, p', qs[1..]))
  }

  /** That is so if and only if each has a buffer and together they stay below what remains. */
  lemma {:induction false} ServedInFull(aes: Aes, s: Setup, p: Progress, qs: seq<Request>)
    requires qs != []
    ensures AllServed(aes, s, p, qs) <==>
      (forall i :: 0 <= i < |qs| ==> !qs[i].nullBuffer) && Total(qs) < p.remaining
    decreases qs
  {
    var (p', r) := Serve(aes, s, p, qs[0]);
    var rest := qs[1..];
    assert qs == [qs[0]] + rest;
    if rest != [] {
      ServedInFull(aes, s, p', rest);
      assert (forall i :: 0 <= i < |qs| ==> !qs[i].nullBuffer) <==>
        !qs[0].nullBuffer && forall i :: 0 <= i < |rest| ==> !rest[i].nullBuffer by {
        assert forall i :: 0 <= i < |rest| ==> rest[i] == qs[i + 1];
        assert forall i :: 1 <= i < |qs| ==> qs[i] == rest[i - 1];
      }
    }
  }

  // ------------------------------------------------------------------------
  // The context object

  class Expander {
    const aes: Aes
    var key: seq<byte>
    const ctr: array<byte>
    const buffer: array<byte>
    var bufferPos: nat
    var lengthRemaining: nat
    // The setup the last successful Init fixed and every AES input used since.
    ghost var setup: Setup
    ghost var inputs: seq<Block>

    constructor (aes: Aes)
      ensures this.aes == aes
      ensures fresh(ctr) && fresh(buffer) && ctr != buffer
      ensures ctr.Length == buffer.Length == 16
    {
      this.aes := aes;
      key := [];
      ctr := new byte[16];
      buffer := new byte[16];
      bufferPos, lengthRemaining := 16, 0;
      setup := Setup([], seq(8, _ => 0), 0);
      inputs := [];
    }

    /** Bytes handed out: 16 for every block made, less what is still buffered. */
    ghost function Consumed(): int
      reads this
    {
      16 * |inputs| + bufferPos - 16
    }

    /** The buffer holds the last block made and ctr is the input of the next one. */
    ghost predicate Blocks()
      reads this, ctr, buffer
    {
      && ctr.Length == buffer.Length == 16 && ctr != buffer
      && bufferPos <= 16
      && key == setup.key
      && 0 <= Consumed()
      && ctr[..] == CounterBlock(setup, |inputs|)
      && (forall i :: 0 <= i < |inputs| ==> inputs[i] == CounterBlock(setup, i))
      && (inputs != [] ==> buffer[..] == aes(key, CounterBlock(setup, |inputs| - 1)))
    }

    ghost predicate Valid()
      reads this, ctr, buffer
    {
      && Blocks()
      && lengthRemaining + Consumed() == setup.maxlen
      && (Consumed() == 0 || lengthRemaining > 0)
    }

    ghost function View(): Progress
      requires Valid()
      reads this, ctr, buffer
    {
      Progress(Consumed(), lengthRemaining)
    }

    /** The block number stays far from the carry into the length field. */
    lemma InputsDistinct()
      requires Valid()
      ensures |inputs| <= 0x1000_0000
      ensures forall i, j :: 0 <= i < j < |inputs| ==> inputs[i] != inputs[j]
    {
      forall i, j | 0 <= i < j < |inputs| ensures inputs[i] != inputs[j] {
        if inputs[i] == inputs[j] {
          CounterBlockInjective(setup, setup, i, j);
        }
      }
    }

    method Init(seed: seq<byte>, diversifier: seq<byte>, maxlen: nat) returns (code: int)
      requires |diversifier| == 8
      requires ctr.Length == buffer.Length == 16 && ctr != buffer
      modifies this, ctr, buffer
      ensures code == if maxlen < MAXLEN_LIMIT then RNG_SUCCESS else RNG_BAD_MAXLEN
      ensures code == RNG_SUCCESS ==>
        && Valid() && setup == Setup(seed, diversifier, maxlen)
        && View() == Fresh(setup) && inputs == []
      ensures code != RNG_SUCCESS ==> unchanged(this, ctr, buffer)
    {
      if maxlen >= MAXLEN_LIMIT {
        return RNG_BAD_MAXLEN;
      }
      lengthRemaining := maxlen;
      key := seed;
      for i := 0 to 8
        modifies ctr
        invariant forall k :: 0 <= k < i ==> ctr[k] == diversifier[k]
      {
        ctr[i] := diversifier[i];
      }
      var m: nat := maxlen;
      ctr[11] := m % 256;
      m := m / 256;
      ctr[10] := m % 256;
      m := m / 256;
      ctr[9] := m % 256;
      m := m / 256;
      ctr[8] := m % 256;
      ctr[12], ctr[13], ctr[14], ctr[15] := 0, 0, 0, 0;
      bufferPos := 16;
      forall i | 0 <= i < 16 {
        buffer[i] := 0x00;
      }
      setup := Setup(seed, diversifier, maxlen);
      inputs := [];
      InitialBlock(setup);
      assert ctr[..] == CounterBlock(setup, 0);
      return RNG_SUCCESS;
    }

    /** Serves one request exactly as Serve says, and writes nothing past the reply. */
    method Expand(x: array?<byte>, xlen: nat) returns (code: int)
      requires Valid()
      requires x != null && xlen < lengthRemaining ==> xlen <= x.Length
      requires x != ctr && x != buffer
      modifies this, ctr, buffer, x
      ensures Valid() && setup == old(setup)
      ensures (View(), code) == var (p, r) := Serve(aes, setup, old(View()), Request(x == null, xlen)); (p, r.code)
      ensures code == RNG_SUCCESS ==>
        && x != null
        && x[..xlen] == Serve(aes, setup, old(View()), Request(false, xlen)).1.bytes
        && x[xlen..] == old(x[xlen..])
      ensures code != RNG_SUCCESS ==> unchanged(this, ctr, buffer) && (x == null || unchanged(x))
    {
      if x == null {
        return RNG_BAD_OUTBUF;
      }
      if xlen >= lengthRemaining {
        return RNG_BAD_REQ_LEN;
      }
      lengthRemaining := lengthRemaining - xlen;
      Deliver(x, xlen);
      return RNG_SUCCESS;
    }

    /**
     * The copy loop. Its first pass may copy nothing (an empty buffer), so the
     * remaining length alone does not measure progress.
     */
    method Deliver(x: array<byte>, xlen: nat)
      requires Blocks() && xlen <= x.Length && x != ctr && x != buffer
      modifies this`bufferPos, this`inputs, ctr, buffer, x
      ensures Blocks()
      ensures Consumed() == old(Consumed()) + xlen
      ensures x[..xlen] == Stream(aes, setup, old(Consumed()), xlen)
      ensures forall k :: xlen <= k < x.Length ==> x[k] == old(x[k])
    {
      ghost var base := Consumed();
      var todo: nat, offset: nat := xlen, 0;
      while todo > 0
        invariant offset + todo == xlen
        invariant Blocks() && Consumed() == base + offset
        invariant x[..offset] == Stream(aes, setup, base, offset)
        invariant forall k :: offset <= k < x.Length ==> x[k] == old(x[k])
        decreases todo, bufferPos
      {
        if todo <= 16 - bufferPos {
          Take(x, offset, todo, base);
          return;
        }
        todo := todo - (16 - bufferPos);
        offset := TakeRest(x, offset, base);
      }
    }

    /** Takes all that is buffered and makes the next block. */
    method TakeRest(x: array<byte>, offset: nat, ghost base: nat) returns (end: nat)
      requires Blocks() && x != ctr && x != buffer
      requires offset + 16 - bufferPos <= x.Length
      requires Consumed() == base + offset && x[..offset] == Stream(aes, setup, base, offset)
      modifies this`bufferPos, this`inputs, ctr, buffer, x
      ensures Blocks() && bufferPos == 0
      ensures end == offset + 16 - old(bufferPos) && Consumed() == base + end
      ensures x[..end] == Stream(aes, setup, base, end)
      ensures forall k :: end <= k < x.Length ==> x[k] == old(x[k])
    {
      end := offset + 16 - bufferPos;
      Take(x, offset, 16 - bufferPos, base);
      Refill();
    }

    /** Moves the next n buffered bytes, which are the next n bytes of the stream. */
    method Take(x: array<byte>, offset: nat, n: nat, ghost base: nat)
      requires Blocks() && x != ctr && x != buffer
      requires offset + n <= x.Length && bufferPos + n <= 16
      requires Consumed() == base + offset && x[..offset] == Stream(aes, setup, base, offset)
      modifies this`bufferPos, x
      ensures Blocks() && bufferPos == old(bufferPos) + n
      ensures x[..offset + n] == Stream(aes, setup, base, offset + n)
      ensures forall k :: offset + n <= k < x.Length ==> x[k] == old(x[k])
    {
      ghost var before, out := x[..offset], Stream(aes, setup, Consumed(), n);
      BufferedIsStream(n);
      forall k | 0 <= k < n {
        x[offset + k] := buffer[bufferPos + k];
      }
      assert x[..offset + n] == before + out;
      StreamConcat(aes, setup, base, offset, n);
      bufferPos := bufferPos + n;
    }

    lemma BufferedIsStream(n: nat)
      requires Blocks() && bufferPos + n <= 16
      ensures var out := Stream(aes, setup, Consumed(), n);
        forall k :: 0 <= k < n ==> out[k] == buffer[bufferPos + k]
    {
      var out := Stream(aes, setup, Consumed(), n);
      forall k | 0 <= k < n ensures out[k] == buffer[bufferPos + k] {
        assert Consumed() + k == 16 * (|inputs| - 1) + (bufferPos + k);
        assert buffer[..][bufferPos + k] == buffer[bufferPos + k];
        assert out[k] == StreamByte(aes, setup, Consumed() + k);
      }
    }

    /** Encrypts the counter block into the buffer and steps the block number. */
    method Refill()
      requires Blocks() && bufferPos == 16
      modifies this`bufferPos, this`inputs, ctr, buffer
      ensures Blocks() && bufferPos == 0
      ensures inputs == old(inputs) + [CounterBlock(setup, |old(inputs)|)]
    {
      var b: Block := aes(key, ctr[..]);
      forall i | 0 <= i < 16 {
        buffer[i] := b[i];
      }
      bufferPos := 0;
      ghost var n := |inputs|;
      assert ctr[..] == CounterBlock(setup, n);
      inputs := inputs + [ctr[..]];
      assert ctr[12..] == ctr[..][12..] == ToBE(n, 4);
      ghost var c := ctr[..12];
      IncrementFrom(ctr, 12);
      IncrementIsPlusOne(n, 4);
      assert ctr[..] == ctr[..12] + ctr[12..];
      assert c == CounterBlock(setup, n)[..12];
    }
  }

  /** The three shifts of seedexpander_init spell the length bound; block 0 ends in zeros. */
  lemma InitialBlock(s: Setup)
    ensures var m := s.maxlen;
      CounterBlock(s, 0) == s.diversifier
        + [m / 256 / 256 / 256 % 256, m / 256 / 256 % 256, m / 256 % 256, m % 256] + [0, 0, 0, 0]
  {
    var m := s.maxlen;
    FourBytes(m);
    FourBytes(0);
  }

  lemma FourBytes(m: nat)
    ensures ToBE(m, 4) == [m / 256 / 256 / 256 % 256, m / 256 / 256 % 256, m / 256 % 256, m % 256]
  {
    assert ToBE(m / 256 / 256 / 256 / 256, 0) == [];
    assert ToBE(m / 256 / 256 / 256, 1) == [m / 256 / 256 / 256 % 256];
    assert ToBE(m / 256 / 256, 2) == ToBE(m / 256 / 256 / 256, 1) + [m / 256 / 256 % 256];
    assert ToBE(m / 256, 3) == ToBE(m / 256 / 256, 2) + [m / 256 % 256];
  }
}
