// Building a CRL in ca_main of tongsuo/apps/ca.c: one entry per revoked row, sorted the way the
// library compares ASN.1 integers, and the version it ends up with.
module CaCrl {
  import opened Wrappers
  import opened Bytes
  import opened Serial
  import opened CaDisk
  import opened CaRuns
  import opened CaSpec
  import RevInfo

  datatype Entry = Entry(serial: int, info: RevInfo.Info)

  /** The revoked entries, the CRL number extension if one is used, and the version. */
  datatype Crl = Crl(entries: seq<Entry>, number: Option<int>, version2: bool)

  // ------------------------------------------------------------------------
  // The order of serial numbers

  /** memcmp(s, t) < 0 for strings of one length. */
  predicate BytesLess(s: seq<byte>, t: seq<byte>)
    requires |s| == |t|
  {
    s != [] && (s[0] < t[0] || (s[0] == t[0] && BytesLess(s[1..], t[1..])))
  }

  /** X509_REVOKED_cmp(a, b) < 0: length, then bytes, then sign, the negative one last. */
  predicate Precedes(a: int, b: int) {
    var s, t := Content(a), Content(b);
    || |s| < |t|
    || (|s| == |t| && (BytesLess(s, t) || (s == t && a >= 0 && b < 0)))
  }

  lemma {:induction false} BytesLessSplit(s: seq<byte>, t: seq<byte>)
    requires |s| == |t| > 0
    ensures var i := |s| - 1;
      BytesLess(s, t) <==> BytesLess(s[..i], t[..i]) || (s[..i] == t[..i] && s[i] < t[i])
  {
    var i := |s| - 1;
    if i == 0 {
      assert s[1..] == [] && s[..0] == [] && t[..0] == [];
    } else {
      BytesLessSplit(s[1..], t[1..]);
      assert s[1..][..i - 1] == s[..i][1..] && t[1..][..i - 1] == t[..i][1..];
      assert s[..i] == [s[0]] + s[..i][1..] && t[..i] == [t[0]] + t[..i][1..];
    }
  }

  /** For strings of one length, byte order is numeric order. */
  lemma {:induction false} BytesLessNumeric(s: seq<byte>, t: seq<byte>)
    requires |s| == |t|
    ensures BytesLess(s, t) <==> FromBE(s) < FromBE(t)
    ensures s == t <==> FromBE(s) == FromBE(t)
  {
    if s != [] {
      var i := |s| - 1;
      BytesLessSplit(s, t);
      BytesLessNumeric(s[..i], t[..i]);
      assert s == s[..i] + [s[i]] && t == t[..i] + [t[i]];
    }
  }

  lemma {:induction false} LongerIsLarger(m: nat, n: nat)
    requires |Magnitude(m)| < |Magnitude(n)|
    ensures m < n
  {
    if m > 0 {
      LongerIsLarger(m / 256, n / 256);
    }
  }

  lemma {:induction false} ContentValue(n: int)
    ensures FromBE(Content(n)) == Abs(n) && |Content(n)| >= 1
    ensures |Magnitude(Abs(n))| <= |Content(n)| && (n != 0 ==> Content(n) == Magnitude(Abs(n)))
  {
    MagnitudeValue(Abs(n));
    assert [0][..0] == [];
  }

  /** The library's comparison orders serial numbers by size, and a number before its negative. */
  lemma {:induction false} PrecedesIsNumeric(a: int, b: int)
    ensures Precedes(a, b) <==> Abs(a) < Abs(b) || (Abs(a) == Abs(b) && a > b)
  {
    var s, t := Content(a), Content(b);
    ContentValue(a);
    ContentValue(b);
    if |s| < |t| {
      assert |Magnitude(Abs(b))| == |t|;
      LongerIsLarger(Abs(a), Abs(b));
    } else if |s| > |t| {
      assert |Magnitude(Abs(a))| == |s|;
      LongerIsLarger(Abs(b), Abs(a));
    } else {
      BytesLessNumeric(s, t);
    }
  }

  // ------------------------------------------------------------------------
  // Sorting

  predicate InOrder(es: seq<Entry>) {
    forall i, j :: 0 <= i < j < |es| ==> !Precedes(es[j].serial, es[i].serial)
  }

  function InsertEntry(e: Entry, es: seq<Entry>): (r: seq<Entry>)
    ensures multiset(r) == multiset(es) + multiset{e}
  {
    if es == [] || Precedes(e.serial, es[0].serial) then
      assert [e] + es == [e] + es;
      [e] + es
    else
      assert es == [es[0]] + es[1..];
      [es[0]] + InsertEntry(e, es[1..])
  }

  /** Stands for X509_CRL_sort; entries with one serial number may come out of that in any order. */
  function Sort(es: seq<Entry>): (r: seq<Entry>)
    ensures multiset(r) == multiset(es)
  {
    if es == [] then []
    else
      assert es == [es[0]] + es[1..];
      InsertEntry(es[0], Sort(es[1..]))
  }

  lemma {:induction false} InsertInOrder(e: Entry, es: seq<Entry>)
    requires InOrder(es)
    ensures InOrder(InsertEntry(e, es))
  {
    if es == [] {
    } else if Precedes(e.serial, es[0].serial) {
      forall j | 0 <= j < |es| ensures !Precedes(es[j].serial, e.serial) {
        PrecedesIsNumeric(e.serial, es[0].serial);
        PrecedesIsNumeric(es[j].serial, e.serial);
        PrecedesIsNumeric(es[j].serial, es[0].serial);
      }
    } else {
      var rest := InsertEntry(e, es[1..]);
      InsertInOrder(e, es[1..]);
      forall j | 0 <= j < |rest| ensures !Precedes(rest[j].serial, es[0].serial) {
        assert rest[j] in multiset(rest);
        assert rest[j] == e || rest[j] in es[1..];
      }
    }
  }

  lemma {:induction false} SortInOrder(es: seq<Entry>)
    ensures InOrder(Sort(es))
  {
    if es != [] {
      SortInOrder(es[1..]);
      InsertInOrder(es[0], Sort(es[1..]));
    }
  }

  // ------------------------------------------------------------------------
  // The CRL

  /** The CRL entry of a revoked row: the integer its serial text spells, and what its text says. */
  function EntryOf(r: Row, lib: Library): Option<Entry> {
    match RevInfo.Unpack(r.revocation, lib.syn)
    case None => None
    case Some(info) =>
      match HexToBn(r.serial)
      case None => None
      case Some(n) => Some(Entry(n, info))
  }

  function RowEntries(r: Row, lib: Library): seq<Entry> {
    if Kind(r) == REVOKED && EntryOf(r, lib).Some? then [EntryOf(r, lib).value] else []
  }

  /** What the rows give one after another. */
  function Gather(rows: seq<Row>, f: Row -> seq<Entry>): seq<Entry> {
    if rows == [] then [] else Gather(rows[..|rows| - 1], f) + f(rows[|rows| - 1])
  }

  lemma {:induction false} GatherAppend(a: seq<Row>, b: seq<Row>, f: Row -> seq<Entry>)
    ensures Gather(a + b, f) == Gather(a, f) + Gather(b, f)
    decreases |b|
  {
    if b == [] {
      assert a + b == a;
    } else {
      var n := |b| - 1;
      assert (a + b)[..|a| + n] == a + b[..n];
      GatherAppend(a, b[..n], f);
    }
  }

  /** One entry for every revoked row, in row order. */
  function Entries(rows: seq<Row>, lib: Library): seq<Entry> {
    Gather(rows, r => RowEntries(r, lib))
  }

  lemma {:induction false} EntriesInit(rows: seq<Row>, lib: Library)
    requires rows != []
    ensures Entries(rows, lib) == Entries(rows[..|rows| - 1], lib) + RowEntries(rows[|rows| - 1], lib)
  {}

  predicate Readable(rows: seq<Row>, lib: Library) {
    forall i :: 0 <= i < |rows| && Kind(rows[i]) == REVOKED ==> EntryOf(rows[i], lib).Some?
  }

  /** The entries of the revoked rows, sorted. */
  predicate Lists(es: seq<Entry>, rows: seq<Row>, lib: Library) {
    InOrder(es) && multiset(es) == multiset(Entries(rows, lib))
  }

  predicate SomeReason(es: seq<Entry>) {
    exists e :: e in es && e.info.reason != RevInfo.NOSTATUS
  }

  function RevokedCount(rows: seq<Row>): nat {
    if rows == [] then 0
    else RevokedCount(rows[..|rows| - 1]) + if Kind(rows[|rows| - 1]) == REVOKED then 1 else 0
  }

  lemma {:induction false} OneEntryEach(rows: seq<Row>, lib: Library)
    requires Readable(rows, lib)
    ensures |Entries(rows, lib)| == RevokedCount(rows)
  {
    if rows != [] {
      var n := |rows| - 1;
      assert forall i :: 0 <= i < n ==> rows[..n][i] == rows[i];
      OneEntryEach(rows[..n], lib);
    }
  }

  /** After the load check no revoked row is unreadable. */
  lemma {:induction false} LoadedIsReadable(rows: seq<Row>, lib: Library)
    requires AllOk(rows, lib)
    ensures Readable(rows, lib)
  {
    forall i | 0 <= i < |rows| && Kind(rows[i]) == REVOKED ensures EntryOf(rows[i], lib).Some? {
      assert RowOk(rows[i], lib);
      KeyValue(rows[i].serial);
    }
  }

  /** The entry of one revoked row, and whether it gives a reason. */
  method MakeEntry(r: Row, lib: Library) returns (e: Option<Entry>, reason: bool)
    ensures e == EntryOf(r, lib)
    ensures e.Some? ==> (reason <==> e.value.info.reason != RevInfo.NOSTATUS)
  {
    var j := RevInfo.MakeRevoked(r.revocation, lib.syn);
    var n := HexToBn(r.serial);
    if j == 0 || n.None? {
      return None, false;
    }
    return Some(Entry(n.value, RevInfo.Unpack(r.revocation, lib.syn).value)), j == 2;
  }

  /**
   * The -gencrl loop. A number is the CRL number read from its file, and comes back
   * incremented; it and a CRL extension section each force version 2.
   */
  method MakeCrl(rows: seq<Row>, crlExt: bool, number: Option<int>, lib: Library)
    returns (crl: Option<Crl>, next: Option<int>)
    ensures crl.Some? <==> Readable(rows, lib)
    ensures crl.Some? ==>
      && Lists(crl.value.entries, rows, lib)
      && |crl.value.entries| == RevokedCount(rows)
      && crl.value.number == number
      && (crl.value.version2 <==> SomeReason(crl.value.entries) || number.Some? || crlExt)
      && next == if number.Some? then Some(number.value + 1) else None
  {
    var entries, v2 := [], false;
    for i := 0 to |rows|
      invariant Readable(rows[..i], lib) && entries == Entries(rows[..i], lib)
      invariant v2 <==> SomeReason(entries)
    {
      assert rows[..i + 1] == rows[..i] + [rows[i]] && rows[..i + 1][..i] == rows[..i];
      EntriesInit(rows[..i + 1], lib);
      if Kind(rows[i]) == REVOKED {
        var e, reason := MakeEntry(rows[i], lib);
        if e.None? {
          return None, None;
        }
        ReasonAdded(entries, e.value);
        if reason {
          v2 := true;
        }
        entries := entries + [e.value];
      }
    }
    assert rows[..|rows|] == rows;
    OneEntryEach(rows, lib);
    SortInOrder(entries);
    SameReasons(entries, Sort(entries));
    SameSize(entries, Sort(entries));
    if number.Some? {
      v2 := true;
    }
    next := if number.Some? then Some(number.value + 1) else None;
    crl := Some(Crl(Sort(entries), number, crlExt || v2));
  }

  lemma {:induction false} ReasonAdded(es: seq<Entry>, e: Entry)
    ensures SomeReason(es + [e]) <==> SomeReason(es) || e.info.reason != RevInfo.NOSTATUS
  {
    assert forall x :: x in es + [e] <==> x in es || x == e;
  }

  lemma {:induction false} SameReasons(es: seq<Entry>, fs: seq<Entry>)
    requires multiset(es) == multiset(fs)
    ensures SomeReason(es) <==> SomeReason(fs)
  {
    assert forall x :: x in es <==> x in multiset(es);
    assert forall x :: x in fs <==> x in multiset(fs);
  }

  lemma {:induction false} SameSize(es: seq<Entry>, fs: seq<Entry>)
    requires multiset(es) == multiset(fs)
    ensures |es| == |fs|
  {
    assert |multiset(es)| == |es| && |multiset(fs)| == |fs|;
  }

  predicate IsRevoked(r: Row) {
    r.typ != "" && r.typ[0] == 'R'
  }

  /** The row is revoked and gives this entry: the number its serial spells and what its text says. */
  predicate Gives(r: Row, e: Entry, lib: Library) {
    IsRevoked(r) && HexToBn(r.serial) == Some(e.serial) && RevInfo.Unpack(r.revocation, lib.syn) == Some(e.info)
  }

  predicate SomeRowGives(rows: seq<Row>, e: Entry, lib: Library) {
    exists i :: 0 <= i < |rows| && Gives(rows[i], e, lib)
  }

  /** The entries are those of the revoked rows and no others, and as many as there are such rows. */
  lemma {:induction false} EntriesExactly(rows: seq<Row>, lib: Library)
    requires Readable(rows, lib)
    ensures forall e :: e in Entries(rows, lib) <==> SomeRowGives(rows, e, lib)
    ensures |Entries(rows, lib)| == |set i | 0 <= i < |rows| && IsRevoked(rows[i])|
  {
    OneEntryEach(rows, lib);
    RevokedAreCounted(rows);
    forall e ensures e in Entries(rows, lib) <==> SomeRowGives(rows, e, lib) {
      EntryIn(rows, e, lib);
    }
  }

  lemma {:induction false} RevokedAreCounted(rows: seq<Row>)
    ensures RevokedCount(rows) == |set i | 0 <= i < |rows| && IsRevoked(rows[i])|
  {
    if rows != [] {
      var n := |rows| - 1;
      var init := rows[..n];
      RevokedAreCounted(init);
      var a := set i | 0 <= i < |init| && IsRevoked(init[i]);
      var b := set i | 0 <= i < |rows| && IsRevoked(rows[i]);
      assert forall i :: 0 <= i < n ==> init[i] == rows[i];
      assert b == if IsRevoked(rows[n]) then a + {n} else a;
    }
  }

  lemma {:induction false} EntryIn(rows: seq<Row>, e: Entry, lib: Library)
    ensures e in Entries(rows, lib) <==> SomeRowGives(rows, e, lib)
  {
    if rows != [] {
      var n := |rows| - 1;
      EntriesInit(rows, lib);
      EntryIn(rows[..n], e, lib);
      LastEntry(rows[n], e, lib);
      GivesMore(rows, e, lib);
    }
  }

  lemma {:induction false} LastEntry(r: Row, e: Entry, lib: Library)
    ensures e in RowEntries(r, lib) <==> Gives(r, e, lib)
  {}

  lemma {:induction false} GivesMore(rows: seq<Row>, e: Entry, lib: Library)
    requires rows != []
    ensures SomeRowGives(rows, e, lib) <==> SomeRowGives(rows[..|rows| - 1], e, lib) || Gives(rows[|rows| - 1], e, lib)
  {
    var n := |rows| - 1;
    assert forall i :: 0 <= i < n ==> rows[..n][i] == rows[i];
  }

  // ------------------------------------------------------------------------
  // No serial number twice

  predicate DistinctEntries(es: seq<Entry>) {
    forall i, j :: 0 <= i < j < |es| ==> es[i].serial != es[j].serial
  }

  predicate StrictlyInOrder(es: seq<Entry>) {
    forall i, j :: 0 <= i < j < |es| ==> Precedes(es[i].serial, es[j].serial)
  }

  /** No two revoked rows spell one number. */
  predicate SpelledOnce(rows: seq<Row>) {
    forall i, j :: 0 <= i < j < |rows| && Kind(rows[i]) == REVOKED && Kind(rows[j]) == REVOKED ==>
      HexToBn(rows[i].serial) != HexToBn(rows[j].serial)
  }

  predicate Avoids(es: seq<Entry>, n: int) {
    forall i :: 0 <= i < |es| ==> es[i].serial != n
  }

  lemma {:induction false} SameAvoids(es: seq<Entry>, fs: seq<Entry>, n: int)
    requires multiset(es) == multiset(fs) && Avoids(es, n)
    ensures Avoids(fs, n)
  {
    forall i | 0 <= i < |fs| ensures fs[i].serial != n {
      assert fs[i] in multiset(fs);
      assert fs[i] in es;
    }
  }

  /** Taking one entry out. */
  lemma {:induction false} DistinctWithout(es: seq<Entry>, k: nat)
    requires k < |es|
    ensures var rest := es[..k] + es[k + 1..];
      && multiset(es) == multiset(rest) + multiset{es[k]}
      && (DistinctEntries(es) <==> DistinctEntries(rest) && Avoids(rest, es[k].serial))
  {
    var rest := es[..k] + es[k + 1..];
    assert es == es[..k] + [es[k]] + es[k + 1..];
    forall i | 0 <= i < |es| && i != k ensures es[i] == rest[if i < k then i else i - 1] {}
    if DistinctEntries(es) {
      forall i | 0 <= i < |rest| ensures rest[i].serial != es[k].serial && rest[i] == es[if i < k then i else i + 1] {}
      forall i, j | 0 <= i < j < |rest| ensures rest[i].serial != rest[j].serial {
        assert rest[i] == es[if i < k then i else i + 1] && rest[j] == es[if j < k then j else j + 1];
      }
    }
  }

  lemma {:induction false} BothAvoid(es: seq<Entry>, fs: seq<Entry>, n: int)
    requires multiset(es) == multiset(fs)
    ensures Avoids(es, n) <==> Avoids(fs, n)
  {
    if Avoids(es, n) {
      SameAvoids(es, fs, n);
    }
    if Avoids(fs, n) {
      SameAvoids(fs, es, n);
    }
  }

  lemma {:induction false} WithoutBoth(es: seq<Entry>, fs: seq<Entry>, k: nat)
    requires es != [] && multiset(es) == multiset(fs) && k < |fs| && fs[k] == es[0]
    ensures multiset(es[1..]) == multiset(fs[..k] + fs[k + 1..])
  {
    assert es == [es[0]] + es[1..] && fs == fs[..k] + [fs[k]] + fs[k + 1..];
    assert multiset(es[1..]) == multiset(es) - multiset{es[0]};
  }

  /** Whether entries are distinct does not depend on their order. */
  lemma {:induction false} SameDistinct(es: seq<Entry>, fs: seq<Entry>)
    requires multiset(es) == multiset(fs)
    ensures DistinctEntries(es) <==> DistinctEntries(fs)
    decreases |es|
  {
    SameSize(es, fs);
    if es != [] {
      assert es[0] in multiset(es);
      var k := FindEntry(fs, es[0]);
      WithoutBoth(es, fs, k);
      SameDistinct(es[1..], fs[..k] + fs[k + 1..]);
      SameStep(es, fs, k);
    }
  }

  lemma {:induction false} FindEntry(es: seq<Entry>, e: Entry) returns (k: nat)
    requires e in multiset(es)
    ensures k < |es| && es[k] == e
  {
    k :| 0 <= k < |es| && es[k] == e;
  }

  lemma {:induction false} SameStep(es: seq<Entry>, fs: seq<Entry>, k: nat)
    requires es != [] && k < |fs| && fs[k] == es[0] && multiset(es[1..]) == multiset(fs[..k] + fs[k + 1..])
    requires DistinctEntries(es[1..]) <==> DistinctEntries(fs[..k] + fs[k + 1..])
    ensures DistinctEntries(es) <==> DistinctEntries(fs)
  {
    BothAvoid(es[1..], fs[..k] + fs[k + 1..], es[0].serial);
    DistinctWithout(fs, k);
    DistinctWithout(es, 0);
    assert es[..0] + es[1..] == es[1..];
  }

  lemma {:induction false} StrictIsDistinct(es: seq<Entry>)
    requires InOrder(es)
    ensures StrictlyInOrder(es) <==> DistinctEntries(es)
  {
    forall i, j | 0 <= i < j < |es| ensures Precedes(es[i].serial, es[j].serial) <==> es[i].serial != es[j].serial {
      PrecedesIsNumeric(es[i].serial, es[j].serial);
      PrecedesIsNumeric(es[j].serial, es[i].serial);
    }
  }

  lemma {:induction false} RowAvoids(r: Row, n: int, lib: Library)
    requires Kind(r) == REVOKED ==> EntryOf(r, lib).Some?
    ensures Avoids(RowEntries(r, lib), n) <==> (Kind(r) == REVOKED ==> HexToBn(r.serial) != Some(n))
  {
    if Kind(r) == REVOKED {
      assert RowEntries(r, lib)[0] == EntryOf(r, lib).value;
    }
  }

  lemma {:induction false} AvoidsBoth(es: seq<Entry>, fs: seq<Entry>, n: int)
    ensures Avoids(es + fs, n) <==> Avoids(es, n) && Avoids(fs, n)
  {
    var gs := es + fs;
    if Avoids(gs, n) {
      forall i | 0 <= i < |es| ensures es[i].serial != n {
        assert gs[i] == es[i];
      }
      forall i | 0 <= i < |fs| ensures fs[i].serial != n {
        assert gs[|es| + i] == fs[i];
      }
    }
  }

  lemma {:induction false} UnspelledOneMore(rows: seq<Row>, n: int)
    requires rows != []
    ensures var r := rows[|rows| - 1];
      Unspelled(rows, n) <==> Unspelled(rows[..|rows| - 1], n) && (Kind(r) == REVOKED ==> HexToBn(r.serial) != Some(n))
  {
    var k := |rows| - 1;
    assert forall i :: 0 <= i < k ==> rows[..k][i] == rows[i];
  }

  /** The numbers of the entries are those that the revoked rows spell. */
  lemma {:induction false} EntriesAvoid(rows: seq<Row>, n: int, lib: Library)
    requires Readable(rows, lib)
    ensures Avoids(Entries(rows, lib), n) <==> Unspelled(rows, n)
  {
    if rows != [] {
      var k := |rows| - 1;
      ReadableInit(rows, lib);
      EntriesAvoid(rows[..k], n, lib);
      RowAvoids(rows[k], n, lib);
      AvoidsBoth(Entries(rows[..k], lib), RowEntries(rows[k], lib), n);
      UnspelledOneMore(rows, n);
    }
  }

  lemma {:induction false} ReadableInit(rows: seq<Row>, lib: Library)
    requires rows != [] && Readable(rows, lib)
    ensures Readable(rows[..|rows| - 1], lib)
  {
    assert forall i :: 0 <= i < |rows| - 1 ==> rows[..|rows| - 1][i] == rows[i];
  }

  lemma {:induction false} AvoidsMore(es: seq<Entry>, fs: seq<Entry>, n: int)
    requires |es| <= |fs| <= |es| + 1 && fs[..|es|] == es
    ensures Avoids(fs, n) <==> Avoids(es, n) && (|fs| > |es| ==> fs[|es|].serial != n)
    ensures DistinctEntries(fs) <==> DistinctEntries(es) && (|fs| > |es| ==> Avoids(es, fs[|es|].serial))
  {
    assert forall i :: 0 <= i < |es| ==> fs[i] == es[i];
  }

  /** No revoked row spells n. */
  predicate Unspelled(rows: seq<Row>, n: int) {
    forall i :: 0 <= i < |rows| && Kind(rows[i]) == REVOKED ==> HexToBn(rows[i].serial) != Some(n)
  }

  lemma {:induction false} SpelledOneMore(rows: seq<Row>)
    requires rows != []
    ensures var k := |rows| - 1;
      && (Kind(rows[k]) != REVOKED ==> (SpelledOnce(rows) <==> SpelledOnce(rows[..k])))
      && (Kind(rows[k]) == REVOKED && HexToBn(rows[k].serial).Some? ==>
          (SpelledOnce(rows) <==> SpelledOnce(rows[..k]) && Unspelled(rows[..k], HexToBn(rows[k].serial).value)))
  {
    var k := |rows| - 1;
    assert forall i :: 0 <= i < k ==> rows[..k][i] == rows[i];
  }

  lemma {:induction false} EntriesDistinct(rows: seq<Row>, lib: Library)
    requires Readable(rows, lib)
    ensures DistinctEntries(Entries(rows, lib)) <==> SpelledOnce(rows)
  {
    if rows != [] {
      var k := |rows| - 1;
      EntriesDistinct(rows[..k], lib);
      SpelledOneMore(rows);
      OneMoreDistinct(rows, k, lib);
    }
  }

  lemma {:induction false} OneMoreDistinct(rows: seq<Row>, k: nat, lib: Library)
    requires rows != [] && k == |rows| - 1 && Readable(rows, lib)
    ensures Kind(rows[k]) != REVOKED ==> Entries(rows, lib) == Entries(rows[..k], lib)
    ensures Kind(rows[k]) == REVOKED ==>
      && HexToBn(rows[k].serial).Some?
      && (DistinctEntries(Entries(rows, lib)) <==>
          DistinctEntries(Entries(rows[..k], lib)) && Unspelled(rows[..k], HexToBn(rows[k].serial).value))
  {
    if Kind(rows[k]) == REVOKED {
      var n := EntryOf(rows[k], lib).value.serial;
      EntriesAvoid(rows[..k], n, lib);
      AvoidsMore(Entries(rows[..k], lib), Entries(rows, lib), n);
    }
  }

  /** A CRL lists serial numbers in strictly increasing order if and only if no two revoked rows spell one. */
  lemma {:induction false} CrlStrictlyOrdered(rows: seq<Row>, es: seq<Entry>, lib: Library)
    requires Readable(rows, lib) && Lists(es, rows, lib)
    ensures StrictlyInOrder(es) <==> SpelledOnce(rows)
  {
    EntriesDistinct(rows, lib);
    SameDistinct(es, Entries(rows, lib));
    StrictIsDistinct(es);
  }

  /** The load check lets one number pass in two spellings, since the index compares texts. */
  lemma {:induction false} TwoSpellings(time: string, expiry: string, u: bool, lib: Library)
    requires lib.syn.isUtcTime(time) && ',' !in time && lib.isTime(expiry)
    ensures var rows := [Row("R", expiry, time, "0A", "unknown", "/CN=a"), Row("R", expiry, time, "0a", "unknown", "/CN=b")];
      Loadable(rows, u, lib) && forall es :: Lists(es, rows, lib) ==> !StrictlyInOrder(es)
  {
    var r, q := Row("R", expiry, time, "0A", "unknown", "/CN=a"), Row("R", expiry, time, "0a", "unknown", "/CN=b");
    TwoKeys();
    PlainRevokedOk(r, lib);
    PlainRevokedOk(q, lib);
    BothLoad(r, q, u, lib);
    NotStrict([r, q], lib);
  }

  lemma {:induction false} BothLoad(r: Row, q: Row, u: bool, lib: Library)
    requires RowOk(r, lib) && RowOk(q, lib) && Key(r.serial) != Key(q.serial) && r.name != q.name
    ensures Loadable([r, q], u, lib)
  {}

  lemma {:induction false} PlainRevokedOk(r: Row, lib: Library)
    requires r.typ == "R" && lib.syn.isUtcTime(r.revocation) && ',' !in r.revocation && lib.isTime(r.expiry) && SerialOk(r.serial)
    ensures RowOk(r, lib)
  {
    RevInfo.UnpackTime(r.revocation, lib.syn);
  }

  lemma {:induction false} NotStrict(rows: seq<Row>, lib: Library)
    requires |rows| == 2 && AllOk(rows, lib) && HexToBn(rows[0].serial) == HexToBn(rows[1].serial)
    requires Kind(rows[0]) == REVOKED && Kind(rows[1]) == REVOKED
    ensures forall es :: Lists(es, rows, lib) ==> !StrictlyInOrder(es)
  {
    LoadedIsReadable(rows, lib);
    forall es | Lists(es, rows, lib) ensures !StrictlyInOrder(es) {
      CrlStrictlyOrdered(rows, es, lib);
    }
  }

  lemma {:induction false} TwoKeys()
    ensures SerialOk("0A") && SerialOk("0a") && Key("0A") != Key("0a") && HexToBn("0A") == HexToBn("0a") == Some(10)
  {
    assert "0A"[1..] == "A" && "0a"[1..] == "a";
    assert Key("0A") == "A" && Key("0a") == "a";
    ReadDigits("0A");
    ReadDigits("0a");
    assert "0A"[..1] == "0" && "0a"[..1] == "0" && "0"[..0] == "";
    assert Number("0") == 0;
  }

  lemma {:induction false} CanonicalIsSpelledOnce(rows: seq<Row>)
    requires DistinctSerials(rows) && CanonicalFrom(rows, 0)
    ensures SpelledOnce(rows)
  {
    forall i, j | 0 <= i < j < |rows| ensures HexToBn(rows[i].serial) != HexToBn(rows[j].serial) {
      assert Canonical(rows[i]) && Canonical(rows[j]) && Key(rows[i].serial) != Key(rows[j].serial);
    }
  }

  /** From rows with canonical serial texts, any steps lead to a strictly ordered CRL. */
  lemma {:induction false} RunCrlOrdered(db: Db, steps: seq<Step>, lib: Library)
    requires Sane(lib) && Consistent(db, lib) && CanonicalFrom(db.rows, 0) && RunTimes(db, steps, lib)
    ensures CanonicalFrom(Run(db, steps, lib).rows, 0)
    ensures forall es :: Lists(es, Run(db, steps, lib).rows, lib) ==> StrictlyInOrder(es)
  {
    var rows := Run(db, steps, lib).rows;
    RunKeeps(db, steps, lib);
    RunCanonical(db, steps, lib);
    EvolvedCanonical(db.rows, rows, 0);
    CanonicalIsSpelledOnce(rows);
    LoadedIsReadable(rows, lib);
    forall es | Lists(es, rows, lib) ensures StrictlyInOrder(es) {
      CrlStrictlyOrdered(rows, es, lib);
    }
  }

  /** So does any history of runs, whatever failed in it, for the index that is live or put back after it. */
  lemma {:induction false} HistoryCrlOrdered(d: Disk, runs: seq<Invocation>, goal: Goal, d': Disk, attrToo: bool, db: Db,
                                             es: seq<Entry>, configured: bool, lib: Library)
    requires Sane(lib) && Sound(d, goal, lib) && (goal.unique ==> configured) && CanonicalFrom(goal.base, 0)
    requires AllTraceable(d, runs, goal, configured, lib) && d' == History(d, runs, configured, lib)
    requires Load(PutBack(d', attrToo), configured, lib) == Some(db) && Lists(es, db.rows, lib)
    ensures StrictlyInOrder(es)
  {
    HistorySound(d, runs, goal, configured, lib);
    SoundLoads(d', goal, attrToo, configured, lib);
    EvolvedCanonical(goal.base, db.rows, 0);
    CanonicalIsSpelledOnce(db.rows);
    LoadedIsReadable(db.rows, lib);
    CrlStrictlyOrdered(db.rows, es, lib);
  }

  // ------------------------------------------------------------------------
  // From the request to the CRL

  /** Row i gives the CRL exactly one entry, namely e. */
  ghost predicate GivesEntry(rows: seq<Row>, i: nat, e: Entry, lib: Library) {
    && i < |rows|
    && Entries(rows, lib) == Entries(rows[..i], lib) + [e] + Entries(rows[i + 1..], lib)
    && forall es :: Lists(es, rows, lib) ==> e in es
  }

  lemma {:induction false} EntryOfRow(rows: seq<Row>, i: nat, e: Entry, lib: Library)
    requires i < |rows| && Kind(rows[i]) == REVOKED && EntryOf(rows[i], lib) == Some(e)
    ensures Entries(rows, lib) == Entries(rows[..i], lib) + [e] + Entries(rows[i + 1..], lib)
  {
    var mid := [rows[i]];
    assert rows == rows[..i] + mid + rows[i + 1..];
    GatherAppend(rows[..i] + mid, rows[i + 1..], r => RowEntries(r, lib));
    GatherAppend(rows[..i], mid, r => RowEntries(r, lib));
    assert mid[..0] == [] && Entries(mid, lib) == [e];
  }

  lemma {:induction false} MarkedEntry(r: Row, c: Cert, ask: RevInfo.Ask, now: string, lib: Library)
    requires ',' !in now && lib.syn.isUtcTime(now) && RevInfo.Text(ask, now, lib.syn) == Some(r.revocation)
    requires r.serial == SerialText(c.serial)
    ensures EntryOf(r, lib) == Some(Entry(c.serial, RevInfo.Meaning(ask, now)))
  {
    SerialRoundTrip(c.serial);
    RevInfo.TextRoundTrip(ask, now, lib.syn);
  }

  /**
   * Issue a certificate, do anything, revoke it, do anything: the row it was issued with gives
   * the CRL one entry, with its serial number and with what was asked for.
   */
  lemma {:induction false} IssuedSerialInCrl(db: Db, cfg: Config, req: Request, serial: int, db1: Db, c: Cert,
                                             before: seq<Step>, ask: RevInfo.Ask, now: string, after: seq<Step>, lib: Library)
    requires Sane(lib) && Consistent(db, lib) && lib.isTime(req.notAfter) && lib.syn.isUtcTime(now)
    requires Issue(db, cfg, req, serial, lib) == (db1, Issued(c)) && RunTimes(db1, before, lib)
    requires Revoke(Run(db1, before, lib), c, ask, now, lib).1
    requires RunTimes(Revoke(Run(db1, before, lib), c, ask, now, lib).0, after, lib)
    ensures c.serial == serial
    ensures GivesEntry(Run(db1, before + [DoRevoke(c, ask, now)] + after, lib).rows, |db.rows|,
                       Entry(serial, RevInfo.Meaning(ask, now)), lib)
  {
    var db3 := Revoke(Run(db1, before, lib), c, ask, now, lib).0;
    IssuedThenRevoked(db, cfg, req, serial, db1, c, before, ask, now, lib);
    StaysInCrl(db3, |db.rows|, c, ask, now, after, lib);
    RunThrough(db1, before, DoRevoke(c, ask, now), after, lib);
  }

  lemma {:induction false} RunThrough(db: Db, before: seq<Step>, step: Step, after: seq<Step>, lib: Library)
    ensures Run(db, before + [step] + after, lib) == Run(Apply(Run(db, before, lib), step, lib), after, lib)
  {
    RunAppend(db, before + [step], after, lib);
    RunAppend(db, before, [step], lib);
    assert [step][1..] == [];
  }

  lemma {:induction false} StaysInCrl(db: Db, i: nat, c: Cert, ask: RevInfo.Ask, now: string, steps: seq<Step>, lib: Library)
    requires Sane(lib) && Consistent(db, lib) && lib.syn.isUtcTime(now) && RunTimes(db, steps, lib)
    requires i < |db.rows| && Kind(db.rows[i]) == REVOKED && db.rows[i].serial == SerialText(c.serial)
    requires RevInfo.Text(ask, now, lib.syn) == Some(db.rows[i].revocation)
    ensures GivesEntry(Run(db, steps, lib).rows, i, Entry(c.serial, RevInfo.Meaning(ask, now)), lib)
  {
    var rows := Run(db, steps, lib).rows;
    RunKeeps(db, steps, lib);
    RevokedIsFinal(db.rows, rows, i);
    MarkedEntry(db.rows[i], c, ask, now, lib);
    EntryOfRow(rows, i, Entry(c.serial, RevInfo.Meaning(ask, now)), lib);
    ListedIn(rows, |Entries(rows[..i], lib)|, lib);
  }

  lemma {:induction false} ListedIn(rows: seq<Row>, k: nat, lib: Library)
    requires k < |Entries(rows, lib)|
    ensures forall es :: Lists(es, rows, lib) ==> Entries(rows, lib)[k] in es
  {
    forall es | Lists(es, rows, lib) ensures Entries(rows, lib)[k] in es {
      assert Entries(rows, lib)[k] in multiset(Entries(rows, lib));
    }
  }

  lemma {:induction false} IssuedThenRevoked(db: Db, cfg: Config, req: Request, serial: int, db1: Db, c: Cert,
                                             before: seq<Step>, ask: RevInfo.Ask, now: string, lib: Library)
    requires Sane(lib) && Consistent(db, lib) && lib.isTime(req.notAfter) && lib.syn.isUtcTime(now)
    requires Issue(db, cfg, req, serial, lib) == (db1, Issued(c)) && RunTimes(db1, before, lib)
    requires Revoke(Run(db1, before, lib), c, ask, now, lib).1
    ensures c.serial == serial
    ensures var db3, i := Revoke(Run(db1, before, lib), c, ask, now, lib).0, |db.rows|;
      && Consistent(db3, lib) && i < |db3.rows| && Kind(db3.rows[i]) == REVOKED
      && db3.rows[i].serial == SerialText(serial) && RevInfo.Text(ask, now, lib.syn) == Some(db3.rows[i].revocation)
  {
    IssueKeeps(db, cfg, req, serial, lib);
    RunKeeps(db1, before, lib);
    IssuedIsRevocable(db, cfg, req, serial, before, ask, now, lib);
    var db2, i := Run(db1, before, lib), |db.rows|;
    assert RowEvolves(db1.rows[i], db2.rows[i]);
    RevokedStaysConsistent(db2, c, ask, now, lib);
  }

  lemma {:induction false} RevokedStaysConsistent(db: Db, c: Cert, ask: RevInfo.Ask, now: string, lib: Library)
    requires Sane(lib) && Consistent(db, lib) && RevokeTimes(db, c, ask, now, lib)
    ensures Consistent(Revoke(db, c, ask, now, lib).0, lib)
  {
    RevokeKeeps(db, c, ask, now, lib);
  }
}
