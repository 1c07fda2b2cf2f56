// The streaming signature context of providers/pqmagic-algorithms/pqmagic_prov.c: a growable
// accumulator behind init, update and final. SM3 and ML-DSA-44 are parameters.
module SigCtx {
  import opened Wrappers
  import opened Bytes
  import RevInfo

  const SIZE_MAX := 0xFFFF_FFFF_FFFF_FFFF
  const FIRST_CAP := 4096
  // Half the size_t range: the largest capacity that doubling FIRST_CAP can reach.
  const HALF := 0x8000_0000_0000_0000
  const PK_LEN := 1312
  const SK_LEN := 2560
  const SIG_LEN := 2420
  const OID_MLDSA44 := "1.2.156.10197.1.304.1"

  datatype RawKey = RawKey(pk: seq<byte>, sk: seq<byte>, oid: string)

  /** SM3, ML-DSA-44 signing of a digest (with its internal randomness fixed) and verification. */
  datatype Algorithms = Algorithms(
    sm3: seq<byte> -> seq<byte>,
    sign: (seq<byte>, seq<byte>) -> Option<seq<byte>>,
    verify: (seq<byte>, seq<byte>, seq<byte>) -> bool)

  // ------------------------------------------------------------------------
  // The accumulator on values

  /** The bytes absorbed and the capacity allocated; capacity 0 is no buffer at all. */
  datatype Acc = Acc(data: seq<byte>, cap: nat)

  /** The first doubling of ncap that holds need, if a size_t can hold it. */
  function Doubled(ncap: nat, need: nat): Option<nat>
    requires 0 < ncap
    decreases need - ncap
  {
    if ncap >= need then Some(ncap)
    else if ncap > SIZE_MAX / 2 then None
    else Doubled(2 * ncap, need)
  }

  /** The capacity after making room for need bytes. */
  function Grown(cap: nat, need: nat): Option<nat> {
    if need <= cap then Some(cap) else Doubled(if cap > 0 then cap else FIRST_CAP, need)
  }

  function Append(a: Acc, chunk: seq<byte>): Option<Acc> {
    if chunk == [] then Some(a)
    else
      var need := |a.data| + |chunk|;
      if need > SIZE_MAX then None
      else match Grown(a.cap, need)
        case None => None
        case Some(cap) => Some(Acc(a.data + chunk, cap))
  }

  predicate Fits(a: Acc) {
    && |a.data| <= a.cap <= SIZE_MAX
    && (a.cap <= FIRST_CAP || a.cap <= 2 * |a.data|)
  }

  function Times2(n: nat, k: nat): nat
    decreases k
  {
    if k == 0 then n else Times2(2 * n, k - 1)
  }

  lemma {:induction false} Times2Grows(n: nat, k: nat)
    ensures n <= Times2(n, k)
    decreases k
  {
    if k > 0 {
      Times2Grows(2 * n, k - 1);
    }
  }

  lemma {:induction false} DoubledBounds(ncap: nat, need: nat)
    requires 0 < ncap <= SIZE_MAX
    ensures Doubled(ncap, need).Some? ==>
      var c := Doubled(ncap, need).value;
      need <= c <= SIZE_MAX && (c == ncap || (c >= 2 * ncap && c < 2 * need))
    ensures Doubled(ncap, need).None? ==> need > HALF
    decreases need - ncap
  {
    if ncap < need && ncap <= SIZE_MAX / 2 {
      DoubledBounds(2 * ncap, need);
    }
  }

  /** The capacity chosen is the least sufficient doubling; none is chosen when none is representable. */
  lemma {:induction false} DoubledIsLeast(ncap: nat, need: nat, k: nat)
    requires 0 < ncap <= SIZE_MAX && need <= Times2(ncap, k)
    ensures match Doubled(ncap, need) case Some(c) => c <= Times2(ncap, k) case None => Times2(ncap, k) > SIZE_MAX
    decreases need - ncap
  {
    Times2Grows(ncap, k);
    if ncap < need {
      assert Times2(ncap, k) == Times2(2 * ncap, k - 1);
      if ncap <= SIZE_MAX / 2 {
        DoubledIsLeast(2 * ncap, need, k - 1);
      } else {
        Times2Grows(2 * ncap, k - 1);
      }
    }
  }

  lemma {:induction false} DoubledIsDoubling(ncap: nat, need: nat) returns (k: nat)
    requires 0 < ncap && Doubled(ncap, need).Some?
    ensures Doubled(ncap, need).value == Times2(ncap, k)
    decreases need - ncap
  {
    if ncap >= need {
      k := 0;
    } else {
      var j := DoubledIsDoubling(2 * ncap, need);
      k := j + 1;
    }
  }

  /** Appending keeps the accumulator sound; it is refused only past half the address space. */
  lemma {:induction false} AppendSound(a: Acc, chunk: seq<byte>)
    requires Fits(a)
    ensures Append(a, chunk).Some? ==> Fits(Append(a, chunk).value) && Append(a, chunk).value.data == a.data + chunk
    ensures |a.data| + |chunk| <= HALF ==> Append(a, chunk).Some?
  {
    if chunk == [] {
      assert a.data + chunk == a.data;
    } else {
      var need := |a.data| + |chunk|;
      DoubledBounds(if a.cap > 0 then a.cap else FIRST_CAP, need);
    }
  }

  // ------------------------------------------------------------------------
  // Chunks

  function Flatten(chunks: seq<seq<byte>>): seq<byte> {
    if chunks == [] then [] else chunks[0] + Flatten(chunks[1..])
  }

  function AppendAll(a: Acc, chunks: seq<seq<byte>>): Option<Acc>
    decreases |chunks|
  {
    if chunks == [] then Some(a)
    else match Append(a, chunks[0])
      case None => None
      case Some(b) => AppendAll(b, chunks[1..])
  }

  /** Any chunking that is accepted accumulates the whole message, and short messages always are. */
  lemma {:induction false} ChunksAccumulate(a: Acc, chunks: seq<seq<byte>>)
    requires Fits(a)
    ensures AppendAll(a, chunks).Some? ==>
      Fits(AppendAll(a, chunks).value) && AppendAll(a, chunks).value.data == a.data + Flatten(chunks)
    ensures |a.data| + |Flatten(chunks)| <= HALF ==> AppendAll(a, chunks).Some?
    decreases |chunks|
  {
    if chunks == [] {
      assert a.data + [] == a.data;
    } else {
      AppendSound(a, chunks[0]);
      var r := Append(a, chunks[0]);
      if r.Some? {
        ChunksAccumulate(r.value, chunks[1..]);
        assert a.data + chunks[0] + Flatten(chunks[1..]) == a.data + Flatten(chunks);
      }
    }
  }

  lemma {:induction false} Times2Skip(n: nat, k: nat)
    ensures Times2(n, k + 8) == Times2(256 * n, k)
  {
    assert Times2(n, k + 8) == Times2(2 * n, k + 7) == Times2(4 * n, k + 6);
    assert Times2(4 * n, k + 6) == Times2(8 * n, k + 5) == Times2(16 * n, k + 4);
    assert Times2(16 * n, k + 4) == Times2(32 * n, k + 3) == Times2(64 * n, k + 2);
    assert Times2(64 * n, k + 2) == Times2(128 * n, k + 1) == Times2(256 * n, k);
  }

  lemma {:induction false} FirstCapReachesHalf()
    ensures Times2(FIRST_CAP, 51) == HALF
  {
    Times2Skip(0x1000, 43);
    Times2Skip(0x10_0000, 35);
    Times2Skip(0x1000_0000, 27);
    Times2Skip(0x10_0000_0000, 19);
    Times2Skip(0x1000_0000_0000, 11);
    Times2Skip(0x10_0000_0000_0000, 3);
    assert Times2(0x1000_0000_0000_0000, 3) == Times2(0x2000_0000_0000_0000, 2) == Times2(0x4000_0000_0000_0000, 1);
  }

  /** The largest capacity that doubling can reach. */
  function Limit(cap: nat): (m: nat)
    requires 0 < cap <= SIZE_MAX
    ensures HALF <= m <= SIZE_MAX && cap <= m
    decreases SIZE_MAX - cap
  {
    if cap > SIZE_MAX / 2 then cap else Limit(2 * cap)
  }

  /** How many bytes a buffer of this capacity can ever hold. */
  function Room(cap: nat): nat
    requires cap <= SIZE_MAX
  {
    Limit(if cap > 0 then cap else FIRST_CAP)
  }

  lemma {:induction false} LimitIs(n: nat, k: nat)
    requires 0 < n && SIZE_MAX / 2 < Times2(n, k) <= SIZE_MAX
    ensures n <= SIZE_MAX && Limit(n) == Times2(n, k)
    decreases k
  {
    Times2Grows(n, k);
    if k > 0 {
      Times2Grows(2 * n, k - 1);
      LimitIs(2 * n, k - 1);
    }
  }

  /** Doubling succeeds exactly up to the limit, and the limit stays what it was. */
  lemma {:induction false} DoubledReaches(ncap: nat, need: nat)
    requires 0 < ncap <= SIZE_MAX
    ensures Doubled(ncap, need).Some? <==> need <= Limit(ncap)
    ensures Doubled(ncap, need).Some? ==>
      var c := Doubled(ncap, need).value; 0 < c <= SIZE_MAX && Limit(c) == Limit(ncap)
    decreases need - ncap
  {
    if ncap < need && ncap <= SIZE_MAX / 2 {
      DoubledReaches(2 * ncap, need);
    }
  }

  /** Chunks are accepted exactly as long as all of them together fit. */
  lemma {:induction false} AppendedExactly(a: Acc, chunks: seq<seq<byte>>)
    requires Fits(a)
    ensures AppendAll(a, chunks).Some? <==> |a.data| + |Flatten(chunks)| <= Room(a.cap)
    decreases |chunks|
  {
    if chunks != [] {
      AppendSound(a, chunks[0]);
      AppendReaches(a, chunks[0]);
      if Append(a, chunks[0]).Some? {
        AppendedExactly(Append(a, chunks[0]).value, chunks[1..]);
      }
    }
  }

  lemma {:induction false} AppendReaches(a: Acc, c: seq<byte>)
    requires Fits(a)
    ensures Append(a, c).Some? <==> |a.data| + |c| <= Room(a.cap)
    ensures Append(a, c).Some? ==> var b := Append(a, c).value; b.cap <= SIZE_MAX && Room(b.cap) == Room(a.cap)
  {
    DoubledReaches(if a.cap > 0 then a.cap else FIRST_CAP, |a.data| + |c|);
  }

  /** A fresh context takes every message up to 2^63 bytes and refuses every longer one. */
  lemma {:induction false} FreshAcceptsExactly(chunks: seq<seq<byte>>)
    ensures AppendAll(Acc([], 0), chunks).Some? <==> |Flatten(chunks)| <= HALF
    ensures |Flatten(chunks)| <= HALF ==> AppendAll(Acc([], 0), chunks).value.data == Flatten(chunks)
  {
    FirstCapReachesHalf();
    LimitIs(FIRST_CAP, 51);
    AppendedExactly(Acc([], 0), chunks);
    ChunksAccumulate(Acc([], 0), chunks);
    assert [] + Flatten(chunks) == Flatten(chunks);
  }

  /** dupctx: the copy's buffer is cut to what has been absorbed. */
  function Duplicate(a: Acc): Acc {
    Acc(a.data, |a.data|)
  }

  /**
   * A duplicate taken midway and continued sees the same message as the original would. Each
   * takes exactly what fits its own capacity, which is never less than 2^63 bytes.
   */
  lemma {:induction false} DuplicateContinues(a: Acc, chunks: seq<seq<byte>>)
    requires Fits(a)
    ensures var total := |a.data| + |Flatten(chunks)|;
      && (AppendAll(a, chunks).Some? <==> total <= Room(a.cap))
      && (AppendAll(Duplicate(a), chunks).Some? <==> total <= Room(|a.data|))
      && HALF <= Room(a.cap) && HALF <= Room(|a.data|)
    ensures AppendAll(a, chunks).Some? ==> AppendAll(a, chunks).value.data == a.data + Flatten(chunks)
    ensures AppendAll(Duplicate(a), chunks).Some? ==> AppendAll(Duplicate(a), chunks).value.data == a.data + Flatten(chunks)
  {
    AppendedExactly(a, chunks);
    AppendedExactly(Duplicate(a), chunks);
    ChunksAccumulate(a, chunks);
    ChunksAccumulate(Duplicate(a), chunks);
  }

  /** The copy of a context that holds three bytes can grow past its original. */
  lemma {:induction false} CopyOutgrowsOriginal()
    ensures Room(FIRST_CAP) == HALF < 0xC000_0000_0000_0000 == Room(3)
  {
    FirstCapReachesHalf();
    LimitIs(FIRST_CAP, 51);
    Times2Skip(3, 54);
    Times2Skip(0x300, 46);
    Times2Skip(0x3_0000, 38);
    Times2Skip(0x300_0000, 30);
    Times2Skip(0x3_0000_0000, 22);
    Times2Skip(0x300_0000_0000, 14);
    Times2Skip(0x3_0000_0000_0000, 6);
    assert Times2(0x300_0000_0000_0000, 6) == Times2(0xC00_0000_0000_0000, 4) == Times2(0x3000_0000_0000_0000, 2);
    LimitIs(3, 62);
  }

  // ------------------------------------------------------------------------
  // Any number of contexts

  /** A call on one of several contexts; a duplicate becomes the last of them. */
  datatype Op = Feed(ctx: nat, chunk: seq<byte>) | AskSize(ctx: nat) | Dup(ctx: nat)

  /** A chunk that is refused leaves its context as it was; asking for the size changes nothing. */
  function Do(pool: seq<Acc>, op: Op): seq<Acc> {
    if op.ctx >= |pool| then pool
    else
      match op
      case Feed(i, chunk) =>
        (match Append(pool[i], chunk) case None => pool case Some(a) => pool[i := a])
      case AskSize(_) => pool
      case Dup(i) => pool + [Duplicate(pool[i])]
  }

  /** The message each context stands for. */
  function Intend(msgs: seq<seq<byte>>, op: Op): seq<seq<byte>> {
    if op.ctx >= |msgs| then msgs
    else
      match op
      case Feed(i, chunk) => msgs[i := msgs[i] + chunk]
      case AskSize(_) => msgs
      case Dup(i) => msgs + [msgs[i]]
  }

  function DoAll(pool: seq<Acc>, ops: seq<Op>): seq<Acc> {
    if ops == [] then pool else Do(DoAll(pool, ops[..|ops| - 1]), ops[|ops| - 1])
  }

  function IntendAll(msgs: seq<seq<byte>>, ops: seq<Op>): seq<seq<byte>> {
    if ops == [] then msgs else Intend(IntendAll(msgs, ops[..|ops| - 1]), ops[|ops| - 1])
  }

  predicate Short(msgs: seq<seq<byte>>) {
    forall i :: 0 <= i < |msgs| ==> |msgs[i]| <= HALF
  }

  predicate Hold(pool: seq<Acc>, msgs: seq<seq<byte>>) {
    |pool| == |msgs| && forall i :: 0 <= i < |pool| ==> Fits(pool[i]) && pool[i].data == msgs[i]
  }

  lemma {:induction false} StepHolds(pool: seq<Acc>, msgs: seq<seq<byte>>, op: Op)
    requires Hold(pool, msgs) && Short(Intend(msgs, op))
    ensures Hold(Do(pool, op), Intend(msgs, op)) && Short(msgs)
  {
    if op.ctx < |pool| {
      var i := op.ctx;
      match op {
        case Feed(_, chunk) =>
          assert Intend(msgs, op)[i] == msgs[i] + chunk;
          AppendSound(pool[i], chunk);
          assert forall k :: 0 <= k < |msgs| && k != i ==> Intend(msgs, op)[k] == msgs[k];
        case AskSize(_) =>
        case Dup(_) => assert forall k :: 0 <= k < |msgs| ==> Intend(msgs, op)[k] == msgs[k];
      }
    }
  }

  /**
   * Updates, size queries and duplications in any order, on the original and on the copies:
   * while messages stay within 2^63 bytes every context holds exactly its own.
   */
  lemma {:induction false} ContextsHoldTheirMessages(ops: seq<Op>)
    requires Short(IntendAll([[]], ops))
    ensures Hold(DoAll([Acc([], 0)], ops), IntendAll([[]], ops))
  {
    if ops != [] {
      var init, op := ops[..|ops| - 1], ops[|ops| - 1];
      ShortBefore(IntendAll([[]], init), op);
      ContextsHoldTheirMessages(init);
      StepHolds(DoAll([Acc([], 0)], init), IntendAll([[]], init), op);
    }
  }

  /** Messages only grow. */
  lemma {:induction false} ShortBefore(msgs: seq<seq<byte>>, op: Op)
    requires Short(Intend(msgs, op))
    ensures Short(msgs)
  {
    forall k | 0 <= k < |msgs| ensures |msgs[k]| <= HALF {
      assert |msgs[k]| <= |Intend(msgs, op)[k]|;
    }
  }

  // ------------------------------------------------------------------------
  // Init and final on values

  predicate DigestOk(mdname: Option<string>) {
    mdname.None? || RevInfo.CaseEqual(mdname.value, "sm3")
  }

  predicate SignKeyOk(k: RawKey) {
    |k.sk| == SK_LEN && k.oid == OID_MLDSA44
  }

  predicate VerifyKeyOk(k: RawKey) {
    |k.pk| == PK_LEN && k.oid == OID_MLDSA44
  }

  /** What signing the absorbed bytes yields. */
  function Signature(alg: Algorithms, key: Option<RawKey>, data: seq<byte>): Option<seq<byte>> {
    if key.None? || data == [] || |key.value.sk| != SK_LEN then None
    else match alg.sign(key.value.sk, alg.sm3(data))
      case None => None
      case Some(sig) => if |sig| == SIG_LEN then Some(sig) else None
  }

  predicate Verified(alg: Algorithms, key: Option<RawKey>, data: seq<byte>, sig: seq<byte>) {
    key.Some? && data != [] && alg.verify(sig, alg.sm3(data), key.value.pk)
  }

  /** One whole signing session. */
  function SignSession(alg: Algorithms, key: RawKey, mdname: Option<string>, chunks: seq<seq<byte>>): Option<seq<byte>> {
    if !SignKeyOk(key) || !DigestOk(mdname) then None
    else match AppendAll(Acc([], 0), chunks)
      case None => None
      case Some(a) => Signature(alg, Some(key), a.data)
  }

  /** One whole verification session. */
  predicate VerifySession(alg: Algorithms, key: RawKey, mdname: Option<string>, chunks: seq<seq<byte>>, sig: seq<byte>) {
    && VerifyKeyOk(key) && DigestOk(mdname)
    && match AppendAll(Acc([], 0), chunks)
       case None => false
       case Some(a) => Verified(alg, Some(key), a.data, sig)
  }

  /**
   * Streaming is one-shot signing and verification of the whole message, however it is cut;
   * only a message of more than 2^63 bytes gets neither.
   */
  lemma {:induction false} StreamingIsOneShot(alg: Algorithms, key: RawKey, mdname: Option<string>,
                                              chunks: seq<seq<byte>>, sig: seq<byte>)
    requires DigestOk(mdname)
    ensures SignKeyOk(key) ==>
      SignSession(alg, key, mdname, chunks)
      == if |Flatten(chunks)| <= HALF then Signature(alg, Some(key), Flatten(chunks)) else None
    ensures VerifyKeyOk(key) ==>
      (VerifySession(alg, key, mdname, chunks, sig) <==>
       |Flatten(chunks)| <= HALF && Verified(alg, Some(key), Flatten(chunks), sig))
  {
    FreshAcceptsExactly(chunks);
  }

  /**
   * A signing session succeeds with a signature if and only if the key is an ML-DSA-44 one of
   * 2560 bytes, the digest SM3 in any case, the message not empty and of at most 2^63 bytes, and
   * that is the signature of its SM3 digest, of 2420 bytes.
   */
  lemma {:induction false} SignExactly(alg: Algorithms, key: RawKey, md: Option<string>, chunks: seq<seq<byte>>, sig: seq<byte>)
    ensures SignSession(alg, key, md, chunks) == Some(sig) <==>
      && |key.sk| == 2560 && key.oid == "1.2.156.10197.1.304.1" && (md.Some? ==> RevInfo.CaseEqual(md.value, "sm3"))
      && 0 < |Flatten(chunks)| <= 0x8000_0000_0000_0000
      && alg.sign(key.sk, alg.sm3(Flatten(chunks))) == Some(sig) && |sig| == 2420
  {
    if DigestOk(md) {
      StreamingIsOneShot(alg, key, md, chunks, sig);
    }
  }

  /** A verification session accepts if and only if the same holds of the public key, of 1312 bytes, and the digest verifies. */
  lemma {:induction false} VerifyExactly(alg: Algorithms, key: RawKey, md: Option<string>, chunks: seq<seq<byte>>, sig: seq<byte>)
    ensures VerifySession(alg, key, md, chunks, sig) <==>
      && |key.pk| == 1312 && key.oid == "1.2.156.10197.1.304.1" && (md.Some? ==> RevInfo.CaseEqual(md.value, "sm3"))
      && 0 < |Flatten(chunks)| <= 0x8000_0000_0000_0000
      && alg.verify(sig, alg.sm3(Flatten(chunks)), key.pk)
  {
    if DigestOk(md) {
      StreamingIsOneShot(alg, key, md, chunks, sig);
    }
  }

  /** The correctness of ML-DSA for one key pair: signatures it makes verify. */
  ghost predicate KeyPairCorrect(alg: Algorithms, sk: seq<byte>, pk: seq<byte>) {
    forall m :: alg.sign(sk, m).Some? ==> alg.verify(alg.sign(sk, m).value, m, pk)
  }

  /** Signed under one chunking, accepted under every other chunking of the same message. */
  lemma {:induction false} SignThenVerify(alg: Algorithms, signer: RawKey, verifier: RawKey, md: Option<string>, md': Option<string>,
                                          chunks: seq<seq<byte>>, chunks': seq<seq<byte>>)
    requires KeyPairCorrect(alg, signer.sk, verifier.pk) && VerifyKeyOk(verifier) && DigestOk(md')
    requires Flatten(chunks) == Flatten(chunks')
    requires SignSession(alg, signer, md, chunks).Some?
    ensures VerifySession(alg, verifier, md', chunks', SignSession(alg, signer, md, chunks).value)
  {
    var sig := SignSession(alg, signer, md, chunks).value;
    StreamingIsOneShot(alg, signer, md, chunks, sig);
    StreamingIsOneShot(alg, verifier, md', chunks', sig);
  }

  // ------------------------------------------------------------------------
  // The context object

  class Context {
    const alg: Algorithms
    var key: Option<RawKey>
    var acc: array?<byte>
    var accLen: nat
    var accCap: nat
    // Bytes moved by reallocation since the buffer was first allocated.
    ghost var recopied: nat

    ghost predicate Valid()
      reads this, acc
    {
      && (acc == null ==> accLen == accCap == 0)
      && (acc != null ==> accCap == acc.Length > 0 && accLen <= accCap)
      && Fits(View())
      && recopied <= accCap
    }

    ghost function View(): Acc
      reads this, acc
    {
      Acc(if acc != null && accLen <= acc.Length then acc[..accLen] else [], accCap)
    }

    /** pqmagic_sig_newctx. */
    constructor (alg: Algorithms)
      ensures this.alg == alg && Valid() && key == None && acc == null && View() == Acc([], 0)
    {
      this.alg := alg;
      key, acc, accLen, accCap, recopied := None, null, 0, 0, 0;
    }

    /** pqmagic_sig_dupctx: an independent context that has absorbed the same bytes. */
    method Dup() returns (dst: Context)
      requires Valid()
      ensures fresh(dst) && dst.Valid() && dst.alg == alg && dst.key == key
      ensures dst.acc == null || fresh(dst.acc)
      ensures dst.View() == Duplicate(View())
    {
      dst := new Context(alg);
      dst.key := key;
      if accLen > 0 && acc != null {
        dst.acc := new byte[accLen];
        forall i | 0 <= i < accLen {
          dst.acc[i] := acc[i];
        }
        dst.accLen, dst.accCap := accLen, accLen;
        assert dst.acc[..accLen] == acc[..accLen];
      }
    }

    /** The init functions: check the key and the digest name, then drop what was absorbed. */
    method Init(sign: bool, mdname: Option<string>, k: Option<RawKey>) returns (ok: bool)
      modifies this
      ensures ok <==> k.Some? && (if sign then SignKeyOk(k.value) else VerifyKeyOk(k.value)) && DigestOk(mdname)
      ensures ok ==> Valid() && key == k && View() == Acc([], 0) && acc == null
      ensures !ok ==> unchanged(this)
    {
      if k.None? || (if sign then |k.value.sk| != SK_LEN else |k.value.pk| != PK_LEN) {
        return false;
      }
      if k.value.oid != OID_MLDSA44 {
        return false;
      }
      if mdname.Some? && !RevInfo.CaseEqual(mdname.value, "sm3") {
        return false;
      }
      key, accLen, acc, accCap, recopied := k, 0, null, 0, 0;
      return true;
    }

    /** pqmagic_sig_acc_append. A refused chunk leaves the context as it was. */
    method Update(chunk: seq<byte>) returns (ok: bool)
      requires Valid() && |chunk| <= SIZE_MAX
      modifies this, acc
      ensures Valid() && key == old(key)
      ensures acc == old(acc) || fresh(acc)
      ensures ok <==> Append(old(View()), chunk).Some?
      ensures View() == if ok then Append(old(View()), chunk).value else old(View())
      ensures !ok ==> unchanged(this)
    {
      AppendSound(View(), chunk);
      if chunk == [] {
        return true;
      }
      var need := (accLen + |chunk|) % (SIZE_MAX + 1);
      if need < accLen {
        return false;
      }
      var room := Reserve(need);
      if !room {
        return false;
      }
      Store(chunk);
      return true;
    }

    /** Makes room for need bytes, or refuses and changes nothing. */
    method Reserve(need: nat) returns (ok: bool)
      requires Valid() && 0 < need
      modifies this`acc, this`accCap, this`recopied
      ensures acc == old(acc) || fresh(acc)
      ensures ok <==> Grown(old(accCap), need).Some?
      ensures ok ==>
        && acc != null && accLen <= accCap == acc.Length && recopied <= accCap
        && accCap == Grown(old(accCap), need).value && need <= accCap <= SIZE_MAX
        && acc[..accLen] == old(View().data)
      ensures !ok ==> unchanged(this)
    {
      if need > accCap {
        var ncap := FindCap(if accCap > 0 then accCap else FIRST_CAP, need);
        if ncap.None? {
          return false;
        }
        DoubledBounds(if accCap > 0 then accCap else FIRST_CAP, need);
        Realloc(ncap.value);
      }
      return true;
    }

    /** The doubling loop. */
    method FindCap(start: nat, need: nat) returns (ncap: Option<nat>)
      requires 0 < start
      ensures ncap == Doubled(start, need)
    {
      var n := start;
      while n < need
        invariant n > 0 && Doubled(start, need) == Doubled(n, need)
        decreases need - n
      {
        if n > SIZE_MAX / 2 {
          return None;
        }
        n := 2 * n;
      }
      return Some(n);
    }

    /** Moves the contents to a larger buffer; all moves so far fit in the new capacity. */
    method Realloc(ncap: nat)
      requires acc != null ==> accCap == acc.Length
      requires acc == null ==> accLen == accCap == 0
      requires accLen <= accCap && recopied <= accCap && ncap >= 2 * accCap && ncap > 0
      modifies this`acc, this`accCap, this`recopied
      ensures acc != null && fresh(acc) && accCap == acc.Length == ncap
      ensures recopied == old(recopied) + old(accCap) <= accCap
      ensures accLen <= acc.Length && acc[..accLen] == old(View().data)
    {
      var buf := new byte[ncap];
      if acc != null {
        forall i | 0 <= i < accCap {
          buf[i] := acc[i];
        }
        assert buf[..accLen] == acc[..accLen];
      }
      recopied := recopied + accCap;
      acc, accCap := buf, ncap;
    }

    method Store(chunk: seq<byte>)
      requires acc != null && accLen + |chunk| <= acc.Length
      modifies this`accLen, acc
      ensures accLen == old(accLen) + |chunk|
      ensures acc[..accLen] == old(acc[..accLen]) + chunk
    {
      forall i | 0 <= i < |chunk| {
        acc[accLen + i] := chunk[i];
      }
      accLen := accLen + |chunk|;
    }

    /** pqmagic_sig_digest_verify_final. */
    method VerifyFinal(sig: seq<byte>) returns (ok: bool)
      requires Valid()
      ensures ok <==> Verified(alg, key, View().data, sig)
    {
      if key.None? || acc == null || accLen == 0 {
        return false;
      }
      return alg.verify(sig, alg.sm3(acc[..accLen]), key.value.pk);
    }

    /** pqmagic_sig_digest_sign_final; without an output buffer it only reports the length. */
    method SignFinal(room: Option<nat>) returns (ok: bool, siglen: nat, sig: seq<byte>)
      requires Valid()
      ensures room.None? ==> sig == [] && (ok ==> siglen == SIG_LEN)
      ensures room.None? ==> (ok <==> key.Some? && View().data != [] && |key.value.sk| == SK_LEN)
      ensures room.Some? ==> (ok <==> room.value >= SIG_LEN && Signature(alg, key, View().data).Some?)
      ensures room.Some? && ok ==> Some(sig) == Signature(alg, key, View().data) && siglen == SIG_LEN
    {
      siglen, sig := 0, [];
      if key.None? || acc == null || accLen == 0 {
        return false, 0, [];
      }
      if |key.value.sk| != SK_LEN {
        return false, 0, [];
      }
      if room.None? {
        return true, SIG_LEN, [];
      }
      if room.value < SIG_LEN {
        return false, 0, [];
      }
      var r := alg.sign(key.value.sk, alg.sm3(acc[..accLen]));
      if r.None? || |r.value| != SIG_LEN {
        return false, 0, [];
      }
      return true, SIG_LEN, r.value;
    }
  }

  /** A duplicate and its original go separate ways: neither sees what the other absorbs. */
  method DupIsIndependent(ctx: Context, mine: seq<byte>, theirs: seq<byte>) returns (copy: Context, ok: bool, ok': bool)
    requires ctx.Valid() && |mine| <= SIZE_MAX && |theirs| <= SIZE_MAX
    modifies ctx, ctx.acc
    ensures ctx.Valid() && copy.Valid() && copy.key == ctx.key == old(ctx.key)
    ensures ctx.View().data == old(ctx.View().data) + if ok then mine else []
    ensures copy.View().data == old(ctx.View().data) + if ok' then theirs else []
  {
    copy := ctx.Dup();
    AppendSound(ctx.View(), mine);
    AppendSound(copy.View(), theirs);
    ok := ctx.Update(mine);
    ok' := copy.Update(theirs);
  }
}
