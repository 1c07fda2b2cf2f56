// Whole histories of ca runs over one disk: -updatedb, batches that issue and -revoke, one or
// several in a process, each failing or stopped wherever it may be.
module CaRuns {
  import opened Wrappers
  import opened Hex
  import opened Serial
  import opened CaSpec
  import opened CaBatch
  import opened CaDisk
  import RevInfo
  import TxtDb

  // ------------------------------------------------------------------------
  // The index file as text

  function RecordsOf(rows: seq<Row>): (recs: seq<TxtDb.Record>)
    ensures |recs| == |rows|
    ensures forall i :: 0 <= i < |rows| ==> recs[i] == ToRecord(rows[i])
  {
    seq(|rows|, i requires 0 <= i < |rows| => ToRecord(rows[i]))
  }

  function TextOf(rows: seq<Row>): string {
    TxtDb.Write(RecordsOf(rows))
  }

  function RowsOf(text: string): Option<seq<Row>> {
    match TxtDb.Read(text, DB_NUMBER)
    case None => None
    case Some(recs) => Some(seq(|recs|, i requires 0 <= i < |recs| => FromRecord(recs[i])))
  }

  lemma {:induction false} TextReadsBack(rows: seq<Row>)
    requires AllStorable(rows)
    ensures RowsOf(TextOf(rows)) == Some(rows)
  {
    var recs := RecordsOf(rows);
    TxtDb.WrittenReadsBack(recs, DB_NUMBER);
    forall i | 0 <= i < |rows| ensures FromRecord(recs[i]) == rows[i] {}
    assert RowsOf(TextOf(rows)).value == rows;
  }

  lemma {:induction false} ReadRowsStorable(text: string)
    requires RowsOf(text).Some?
    ensures AllStorable(RowsOf(text).value)
  {
    var recs := TxtDb.Read(text, DB_NUMBER).value;
    TxtDb.ReadIsStorable(text, DB_NUMBER);
    forall i | 0 <= i < |recs| ensures TxtDb.Storable(ToRecord(FromRecord(recs[i]))) {
      assert ToRecord(FromRecord(recs[i])) == recs[i];
    }
  }

  // ------------------------------------------------------------------------
  // Runs

  predicate Loadable(rows: seq<Row>, u: bool, lib: Library) {
    AllOk(rows, lib) && DistinctSerials(rows) && (u ==> DistinctNames(rows))
  }

  /** Whether names must be unique: what the attribute file says or else what is configured. */
  function Unique(d: Disk, configured: bool): bool {
    if d.attr.live.Has? then d.attr.live.value else configured
  }

  /** load_index, the row checks and index_index. */
  function Load(d: Disk, configured: bool, lib: Library): Option<Db> {
    if !d.index.live.Has? then None
    else match RowsOf(d.index.live.value)
      case None => None
      case Some(rows) =>
        var u := Unique(d, configured);
        if Loadable(rows, u, lib) then Some(Db(rows, u, if u then ValidNames(rows) else {})) else None
  }

  /** The certificate file that belongs to a row. */
  function CertFile(serial: string): string { serial + ".pem" }

  /** The file names the commit writes: the content bytes of each serial number, printed. */
  function CertFiles(certs: seq<Cert>): (names: seq<string>)
    ensures |names| == |certs|
    ensures forall i :: 0 <= i < |certs| ==> names[i] == Print(Content(certs[i].serial)) + ".pem"
  {
    seq(|certs|, i requires 0 <= i < |certs| => Print(Content(certs[i].serial)) + ".pem")
  }

  /** What a process is asked to do, with the fates of the system calls that commit it. */
  datatype Part =
    | IssuePart(jobs: seq<Job>, commit: bool, fates: seq<Fate>)
    | ExpirePart(past: string -> bool, fates: seq<Fate>)
    | RevokePart(cert: Cert, ask: RevInfo.Ask, now: string, fates: seq<Fate>)

  /** A process of ca with its parts, or the operator renaming files kept aside to where one is missing. */
  datatype Invocation = Process(parts: seq<Part>) | PutBackFiles(attrToo: bool)

  function BatchCalls(b: Batch): seq<Call> {
    CommitBatch(b.serial, TextOf(b.db.rows), b.db.unique, CertFiles(b.certs))
  }

  function IndexCalls(db: Db): seq<Call> {
    CommitIndex(TextOf(db.rows), db.unique)
  }

  /** The disk after a commit, and the database to go on with if it ran to its end. */
  function Commit(d: Disk, calls: seq<Call>, fates: seq<Fate>, db: Db): (Disk, Option<Db>) {
    (Perform(d, calls, fates), if Passed(d, calls, fates).Some? then Some(db) else None)
  }

  /** A batch that was stopped or not confirmed ends the process; one that issued nothing does not. */
  function DoBatch(d: Disk, b: Batch, commit: bool, fates: seq<Fate>): (Disk, Option<Db>) {
    if b.stopped.Some? || (b.certs != [] && !commit) then (d, None)
    else if b.certs == [] then (d, Some(b.db))
    else Commit(d, BatchCalls(b), fates, b.db)
  }

  function DoPart(d: Disk, db: Db, part: Part, lib: Library): (Disk, Option<Db>) {
    match part
    case IssuePart(jobs, commit, fates) =>
      if !d.serial.live.Has? then (d, None)
      else DoBatch(d, CertifyAll(Start(db, d.serial.live.value), jobs, lib), commit, fates)
    case ExpirePart(past, fates) =>
      var db' := db.(rows := Expire(db.rows, past));
      if db'.rows == db.rows then (d, Some(db)) else Commit(d, IndexCalls(db'), fates, db')
    case RevokePart(cert, ask, now, fates) =>
      var (db', ok) := Revoke(db, cert, ask, now, lib);
      if !ok then (d, None) else Commit(d, IndexCalls(db'), fates, db')
  }

  /** The parts of one process share the database in memory. */
  function DoParts(d: Disk, db: Db, parts: seq<Part>, lib: Library): Disk
    decreases |parts|
  {
    if parts == [] then d
    else match DoPart(d, db, parts[0], lib)
      case (d', None) => d'
      case (d', Some(db')) => DoParts(d', db', parts[1..], lib)
  }

  function Back<T>(t: Trio<T>): Trio<T> {
    if t.live.Absent? then Trio(t.prev, t.next, Absent) else t
  }

  function PutBack(d: Disk, attrToo: bool): Disk {
    d.(index := Back(d.index), serial := Back(d.serial), attr := if attrToo then Back(d.attr) else d.attr)
  }

  function Invoke(d: Disk, run: Invocation, configured: bool, lib: Library): Disk {
    match run
    case PutBackFiles(attrToo) => PutBack(d, attrToo)
    case Process(parts) =>
      match Load(d, configured, lib)
      case None => d
      case Some(db) => DoParts(d, db, parts, lib)
  }

  function History(d: Disk, runs: seq<Invocation>, configured: bool, lib: Library): Disk
    decreases |runs|
  {
    if runs == [] then d else History(Invoke(d, runs[0], configured, lib), runs[1..], configured, lib)
  }

  // ------------------------------------------------------------------------
  // What every disk of a history satisfies

  /**
   * The rows a history started from, and what it claims besides: a serial number at all times,
   * a certificate file for every row added, and that no two valid rows share a name.
   */
  datatype Goal = Goal(base: seq<Row>, numbered: bool, filed: bool, unique: bool)

  ghost predicate Ahead(text: string, f: File<nat>, numbered: bool) {
    && (numbered ==> f.Has?)
    && (f.Has? && RowsOf(text).Some? ==> Below(RowsOf(text).value, f.value))
  }

  ghost predicate Good(text: string, certs: set<string>, goal: Goal, lib: Library) {
    RowsOf(text).Some? && GoodRows(RowsOf(text).value, certs, goal, lib)
  }

  /** Loadable and grown out of base; rows added since are canonical and, if claimed, filed. */
  ghost predicate GoodRows(rows: seq<Row>, certs: set<string>, goal: Goal, lib: Library) {
    && Loadable(rows, goal.unique, lib)
    && Evolves(goal.base, rows)
    && CanonicalFrom(rows, |goal.base|)
    && (goal.filed ==> Filed(rows, |goal.base|, certs))
  }

  /** The rows from some position on have their certificate files. */
  predicate Filed(rows: seq<Row>, from: nat, certs: set<string>) {
    forall i :: from <= i < |rows| ==> CertFile(rows[i].serial) in certs
  }

  /** Writes that may slip: a serial number or certificates that are claimed may not. */
  function Slippable(goal: Goal): Call -> bool {
    (call: Call) => (call.WriteSerial? ==> !goal.numbered) && (call.WriteCert? ==> !goal.filed)
  }

  ghost function RulesFor(goal: Goal, lib: Library): Rules {
    Rules((t, f) => Ahead(t, f, goal.numbered), (t, c) => Good(t, c, goal, lib), goal.unique, Slippable(goal))
  }

  /** The current index is good, and the current serial file is ahead of it. */
  ghost predicate Sound(d: Disk, goal: Goal, lib: Library) {
    Fits(d, RulesFor(goal, lib))
  }

  lemma {:induction false} SoundMeans(d: Disk, goal: Goal, lib: Library)
    ensures Sound(d, goal, lib) <==>
      && Current(d.index).Has?
      && Ahead(Current(d.index).value, Current(d.serial), goal.numbered)
      && Good(Current(d.index).value, d.certs, goal, lib)
      && (goal.unique ==> d.attr.live != Has(false) && d.attr.prev != Has(false))
  {}

  lemma {:induction false} LoadConsistent(d: Disk, configured: bool, lib: Library)
    requires Load(d, configured, lib).Some?
    ensures Consistent(Load(d, configured, lib).value, lib)
  {
    ReadRowsStorable(d.index.live.value);
  }

  /**
   * Any disk whose serial file, if it has one, is ahead of its loadable index is a sound place
   * to start; that names stay unique can be claimed if no attribute file says otherwise.
   */
  lemma {:induction false} SoundStart(d: Disk, filed: bool, unique: bool, configured: bool, lib: Library)
    requires Load(d, configured, lib).Some?
    requires Current(d.serial).Has? ==> Below(Load(d, configured, lib).value.rows, Current(d.serial).value)
    requires unique ==> configured && d.attr.live != Has(false) && d.attr.prev != Has(false)
    ensures Sound(d, Goal(Load(d, configured, lib).value.rows, Current(d.serial).Has?, filed, unique), lib)
  {}

  /**
   * A sound disk always has an index, live or kept aside, grown out of the first one, with the
   * serial file ahead of it. Put back, it loads exactly when names need not be unique or are,
   * and where unique names are claimed they are.
   */
  lemma {:induction false} SoundLoads(d: Disk, goal: Goal, attrToo: bool, configured: bool, lib: Library)
    requires Sound(d, goal, lib)
    ensures Current(d.index).Has? && RowsOf(Current(d.index).value).Some?
    ensures var rows, d' := RowsOf(Current(d.index).value).value, PutBack(d, attrToo);
      && Evolves(goal.base, rows) && CanonicalFrom(rows, |goal.base|)
      && (goal.filed ==> Filed(rows, |goal.base|, d.certs))
      && (goal.numbered ==> Current(d.serial).Has? && Below(rows, Current(d.serial).value))
      && (goal.unique ==> DistinctNames(rows))
      && (Load(d', configured, lib).Some? <==> (Unique(d', configured) ==> DistinctNames(rows)))
      && (Load(d', configured, lib).Some? ==> Load(d', configured, lib).value.rows == rows)
  {
    SoundMeans(d, goal, lib);
  }

  /** The database in memory is the live one. */
  ghost predicate Held(d: Disk, db: Db, goal: Goal, lib: Library) {
    && d.index.live.Has? && RowsOf(d.index.live.value) == Some(db.rows)
    && Consistent(db, lib) && (goal.unique ==> db.unique)
  }

  lemma {:induction false} LoadedIsHeld(d: Disk, db: Db, goal: Goal, configured: bool, lib: Library)
    requires Sound(d, goal, lib) && (goal.unique ==> configured) && Load(d, configured, lib) == Some(db)
    ensures Held(d, db, goal, lib)
  {
    LoadConsistent(d, configured, lib);
    SoundMeans(d, goal, lib);
  }

  lemma {:induction false} HeldIsGood(d: Disk, db: Db, goal: Goal, lib: Library)
    requires Sound(d, goal, lib) && Held(d, db, goal, lib)
    ensures GoodRows(db.rows, d.certs, goal, lib)
    ensures Current(d.serial).Has? ==> Below(db.rows, Current(d.serial).value)
  {
    SoundMeans(d, goal, lib);
  }

  /** A process started from a sound disk never meets "already issued". */
  lemma {:induction false} ResumedRunNeverClashes(d: Disk, db: Db, jobs: seq<Job>, goal: Goal, lib: Library)
    requires Sane(lib) && Sound(d, goal, lib) && Held(d, db, goal, lib) && JobTimes(jobs, lib) && d.serial.live.Has?
    ensures CertifyAll(Start(db, d.serial.live.value), jobs, lib).stopped != Some(SerialClash)
  {
    HeldIsGood(d, db, goal, lib);
    AheadStaysAhead(db, d.serial.live.value, jobs, lib);
  }

  // ------------------------------------------------------------------------
  // Issuing

  /** The certificate files of rows below s are not among those of the numbers from s on. */
  lemma {:induction false} OldFilesStay(rows: seq<Row>, from: nat, certs: set<string>, c: set<string>, s: nat, added: seq<Cert>)
    requires Filed(rows, from, certs) && CanonicalFrom(rows, from) && Below(rows, s)
    requires forall j :: 0 <= j < |added| ==> added[j].serial >= s
    requires certs - NameSet(CertFiles(added)) <= c
    ensures Filed(rows, from, c)
  {
    forall i | from <= i < |rows| ensures CertFile(rows[i].serial) in c {
      forall j | 0 <= j < |added| ensures CertFiles(added)[j] != CertFile(rows[i].serial) {
        NamesDiffer(rows[i], added[j]);
      }
    }
  }

  lemma {:induction false} NamesDiffer(r: Row, c: Cert)
    requires Canonical(r) && 0 <= c.serial && HexToBn(r.serial).value < c.serial
    ensures Print(Content(c.serial)) + ".pem" != CertFile(r.serial)
  {
    ContentPrinted(c.serial);
    SerialRoundTrip(c.serial);
    var a, b := SerialText(c.serial), r.serial;
    assert (a + ".pem")[..|a|] == a && (b + ".pem")[..|b|] == b;
  }

  /** While a batch rewrites its certificate files the old index stays good. */
  lemma {:induction false} OldIndexStaysGood(rows: seq<Row>, certs: set<string>, c: set<string>, s: nat, added: seq<Cert>,
                                             goal: Goal, lib: Library)
    requires GoodRows(rows, certs, goal, lib) && Below(rows, s)
    requires forall j :: 0 <= j < |added| ==> added[j].serial >= s
    requires certs - NameSet(CertFiles(added)) <= c
    ensures GoodRows(rows, c, goal, lib)
  {
    if goal.filed {
      OldFilesStay(rows, |goal.base|, certs, c, s, added);
    }
  }

  /** The rows of a finished batch are good once their certificates are written. */
  lemma {:induction false} BatchRowsGood(db: Db, b: Batch, serial: nat, certs: set<string>, goal: Goal, lib: Library)
    requires GoodRows(db.rows, certs, goal, lib) && (goal.unique ==> db.unique)
    requires IssuedFrom(db, serial, b, lib) && Consistent(b.db, lib)
    ensures GoodRows(b.db.rows, certs + NameSet(CertFiles(b.certs)), goal, lib)
    ensures !goal.filed ==> forall c :: GoodRows(b.db.rows, c, goal, lib)
  {
    if goal.filed {
      NewRowsFiled(db.rows, b.certs, certs, |goal.base|, lib);
    }
    forall k | 0 <= k < |b.certs| ensures Canonical(RowsFor(b.certs, lib)[k]) {
      RowForCanonical(b.certs[k], lib);
    }
    assert forall i :: 0 <= i < |goal.base| ==> b.db.rows[i] == db.rows[i];
  }

  lemma {:induction false} NewRowsFiled(rows: seq<Row>, added: seq<Cert>, certs: set<string>, from: nat, lib: Library)
    requires Filed(rows, from, certs)
    requires forall i :: 0 <= i < |added| ==> added[i].serial >= 0
    ensures Filed(rows + RowsFor(added, lib), from, certs + NameSet(CertFiles(added)))
  {
    var news, files := RowsFor(added, lib), NameSet(CertFiles(added));
    forall k | 0 <= k < |news| ensures CertFile(news[k].serial) in files {
      NewRowFiled(added, k, lib);
    }
    FiledAppend(rows, news, from, certs, files);
  }

  lemma {:induction false} FiledAppend(a: seq<Row>, b: seq<Row>, from: nat, certs: set<string>, more: set<string>)
    requires Filed(a, from, certs) && Filed(b, 0, more)
    ensures Filed(a + b, from, certs + more)
  {}

  lemma {:induction false} NewRowFiled(added: seq<Cert>, k: nat, lib: Library)
    requires k < |added| && added[k].serial >= 0
    ensures CertFile(RowsFor(added, lib)[k].serial) in NameSet(CertFiles(added))
  {
    ContentPrinted(added[k].serial);
    assert CertFiles(added)[k] in NameSet(CertFiles(added));
  }

  lemma {:induction false} BelowMore(rows: seq<Row>, m: int, n: int)
    requires Below(rows, m) && m <= n
    ensures Below(rows, n)
  {}

  lemma {:induction false} CommitBatchSound(d: Disk, db: Db, b: Batch, fates: seq<Fate>, goal: Goal, lib: Library)
    requires Sound(d, goal, lib) && Held(d, db, goal, lib) && d.serial.live.Has?
    requires IssuedFrom(db, d.serial.live.value, b, lib) && Consistent(b.db, lib) && Below(b.db.rows, b.serial)
    requires SlipsWithin(BatchCalls(b), fates, Slippable(goal))
    ensures Sound(Perform(d, BatchCalls(b), fates), goal, lib)
  {
    var rules, names := RulesFor(goal, lib), CertFiles(b.certs);
    var t0, t1, s0 := d.index.live.value, TextOf(b.db.rows), d.serial.live.value;
    HeldIsGood(d, db, goal, lib);
    TextReadsBack(b.db.rows);
    BatchRowsGood(db, b, s0, d.certs, goal, lib);
    assert rules.good(t1, d.certs + NameSet(names));
    AheadBoth(db.rows, s0, b.serial, t0, t1, b.db.rows, goal);
    assert GoodBeside(t0, d.certs - NameSet(names), rules) by {
      forall c | d.certs - NameSet(names) <= c ensures rules.good(t0, c) {
        OldIndexStaysGood(db.rows, d.certs, c, s0, b.certs, goal, lib);
      }
    }
    CommitBatchFits(d, b.serial, t1, b.db.unique, names, rules);
    AlwaysFitsMeans(d, BatchCalls(b), fates, rules);
  }

  lemma {:induction false} AheadBoth(rows: seq<Row>, s: nat, n: nat, t0: string, t1: string, rows': seq<Row>, goal: Goal)
    requires RowsOf(t0) == Some(rows) && RowsOf(t1) == Some(rows') && Below(rows, s) && s <= n && Below(rows', n)
    ensures Ahead(t0, Has(n), goal.numbered) && Ahead(t1, Has(n), goal.numbered)
    ensures !goal.numbered ==> Ahead(t0, Torn, goal.numbered) && Ahead(t1, Torn, goal.numbered)
  {
    BelowMore(rows, s, n);
  }

  // ------------------------------------------------------------------------
  // Expiring and revoking

  /** Committing a good index that the serial file is ahead of keeps the disk sound. */
  lemma {:induction false} CommitIndexSound(d: Disk, db: Db, fates: seq<Fate>, goal: Goal, lib: Library)
    requires Sound(d, goal, lib) && d.index.live.Has? && AllStorable(db.rows) && GoodRows(db.rows, d.certs, goal, lib)
    requires (goal.unique ==> db.unique) && (Current(d.serial).Has? ==> Below(db.rows, Current(d.serial).value))
    ensures Sound(Perform(d, IndexCalls(db), fates), goal, lib)
  {
    var rules, text := RulesFor(goal, lib), TextOf(db.rows);
    assert Good(text, d.certs, goal, lib) && Ahead(text, Current(d.serial), goal.numbered) by {
      TextReadsBack(db.rows);
      SoundMeans(d, goal, lib);
    }
    assert rules.good(text, d.certs) && rules.ahead(text, Current(d.serial));
    CommitIndexFits(d, text, db.unique, rules);
    IndexSlips(db, fates, goal);
    AlwaysFitsMeans(d, IndexCalls(db), fates, rules);
  }

  /** Of an index commit only the attribute may slip. */
  lemma {:induction false} IndexSlips(db: Db, fates: seq<Fate>, goal: Goal)
    ensures SlipsWithin(IndexCalls(db), fates, Slippable(goal))
  {
    assert forall i :: 0 <= i < |IndexCalls(db)| ==> !IndexCalls(db)[i].WriteSerial? && !IndexCalls(db)[i].WriteCert?;
  }

  /** Rewriting rows in place keeps serial numbers, so it keeps the disk sound. */
  lemma {:induction false} CommitRowsSound(d: Disk, db: Db, db': Db, fates: seq<Fate>, goal: Goal, lib: Library)
    requires Sound(d, goal, lib) && Held(d, db, goal, lib) && Consistent(db', lib) && db'.unique == db.unique
    requires Evolves(db.rows, db'.rows) && |db'.rows| == |db.rows|
    ensures Sound(Perform(d, IndexCalls(db'), fates), goal, lib)
  {
    HeldIsGood(d, db, goal, lib);
    EvolvedRowsGood(db.rows, db'.rows, d.certs, goal, lib);
    if Current(d.serial).Has? {
      EvolvedRowsBelow(db.rows, db'.rows, Current(d.serial).value);
    }
    CommitIndexSound(d, db', fates, goal, lib);
  }

  lemma {:induction false} EvolvedRowsBelow(a: seq<Row>, b: seq<Row>, s: int)
    requires Evolves(a, b) && |a| == |b| && Below(a, s)
    ensures Below(b, s)
  {
    assert forall i :: 0 <= i < |a| ==> RowEvolves(a[i], b[i]) && a[i].serial == b[i].serial;
  }

  lemma {:induction false} EvolvedRowsGood(a: seq<Row>, b: seq<Row>, certs: set<string>, goal: Goal, lib: Library)
    requires Evolves(a, b) && |a| == |b| && GoodRows(a, certs, goal, lib) && Loadable(b, goal.unique, lib)
    ensures GoodRows(b, certs, goal, lib)
  {
    EvolvesTransitive(goal.base, a, b);
    EvolvedCanonical(a, b, |goal.base|);
    assert forall i :: 0 <= i < |a| ==> RowEvolves(a[i], b[i]) && a[i].serial == b[i].serial;
  }

  lemma {:induction false} RevokeListed(db: Db, cert: Cert, ask: RevInfo.Ask, now: string, lib: Library)
    requires Sane(lib) && Consistent(db, lib) && RevokeTimes(db, cert, ask, now, lib)
    requires FindRow(db.rows, Key(SerialText(cert.serial))).Some?
    ensures var db' := Revoke(db, cert, ask, now, lib).0;
      Evolves(db.rows, db'.rows) && |db'.rows| == |db.rows| && db'.unique == db.unique && Consistent(db', lib)
  {
    RevokeKeeps(db, cert, ask, now, lib);
  }

  /** The number is below the next one; where files are claimed the certificate is also on file. */
  predicate Known(d: Disk, serial: int, filed: bool) {
    && (Current(d.serial).Has? ==> serial < Current(d.serial).value)
    && (filed ==> CertFile(SerialText(serial)) in d.certs)
  }

  /** Revoking a certificate that is known but not listed. */
  lemma {:induction false} RevokeKnownSound(d: Disk, db: Db, cert: Cert, ask: RevInfo.Ask, now: string, fates: seq<Fate>,
                                            goal: Goal, lib: Library)
    requires Sane(lib) && Sound(d, goal, lib) && Held(d, db, goal, lib) && RevokeTimes(db, cert, ask, now, lib)
    requires FindRow(db.rows, Key(SerialText(cert.serial))).None? && Known(d, cert.serial, goal.filed)
    requires Revoke(db, cert, ask, now, lib).1
    ensures Sound(Perform(d, IndexCalls(Revoke(db, cert, ask, now, lib).0), fates), goal, lib)
  {
    var db' := Revoke(db, cert, ask, now, lib).0;
    HeldIsGood(d, db, goal, lib);
    RevokeUnlisted(db, cert, ask, now, lib);
    RowAddedGood(db.rows, db'.rows, cert.serial, d.certs, goal, lib);
    if Current(d.serial).Has? {
      UnlistedRevocation(db, cert, ask, now, Current(d.serial).value, lib);
    }
    CommitIndexSound(d, db', fates, goal, lib);
  }

  lemma {:induction false} RevokeUnlisted(db: Db, cert: Cert, ask: RevInfo.Ask, now: string, lib: Library)
    requires Sane(lib) && Consistent(db, lib) && RevokeTimes(db, cert, ask, now, lib)
    requires FindRow(db.rows, Key(SerialText(cert.serial))).None? && Revoke(db, cert, ask, now, lib).1
    ensures var db' := Revoke(db, cert, ask, now, lib).0;
      && Loadable(db'.rows, db.unique, lib) && AllStorable(db'.rows) && db'.unique == db.unique
      && |db'.rows| == |db.rows| + 1 && db'.rows[..|db.rows|] == db.rows
      && db'.rows[|db.rows|].serial == SerialText(cert.serial)
  {
    RevokeKeeps(db, cert, ask, now, lib);
    UnlistedAddsRow(db, cert, ask, now, lib);
  }

  lemma {:induction false} RowAddedGood(a: seq<Row>, b: seq<Row>, n: int, certs: set<string>, goal: Goal, lib: Library)
    requires GoodRows(a, certs, goal, lib) && Loadable(b, goal.unique, lib)
    requires |b| == |a| + 1 && b[..|a|] == a && b[|a|].serial == SerialText(n)
    requires goal.filed ==> CertFile(SerialText(n)) in certs
    ensures GoodRows(b, certs, goal, lib)
  {
    assert Canonical(b[|a|]) by {
      SerialRoundTrip(n);
    }
    forall i | 0 <= i < |a| ensures b[i] == a[i] {
      assert b[..|a|][i] == b[i];
    }
    RowAddedFits(a, b, |goal.base|, certs, goal.filed);
  }

  lemma {:induction false} RowAddedFits(a: seq<Row>, b: seq<Row>, from: nat, certs: set<string>, filed: bool)
    requires |b| == |a| + 1 && (forall i :: 0 <= i < |a| ==> b[i] == a[i]) && Canonical(b[|a|])
    requires CanonicalFrom(a, from) && (filed ==> Filed(a, from, certs) && CertFile(b[|a|].serial) in certs)
    ensures CanonicalFrom(b, from) && (filed ==> Filed(b, from, certs))
  {
    forall i | from <= i < |b| ensures Canonical(b[i]) {
      assert i < |a| ==> b[i] == a[i] && Canonical(a[i]);
    }
    if filed {
      forall i | from <= i < |b| ensures CertFile(b[i].serial) in certs {
        assert i < |a| ==> b[i] == a[i] && CertFile(a[i].serial) in certs;
      }
    }
  }

  // ------------------------------------------------------------------------
  // One process

  /**
   * Times are readable, revocations are of certificates in the database or otherwise known,
   * and no write of a claimed serial number or certificate slips.
   */
  predicate Traceable(d: Disk, db: Db, part: Part, goal: Goal, lib: Library) {
    match part
    case IssuePart(jobs, _, fates) =>
      && JobTimes(jobs, lib)
      && (d.serial.live.Has? ==>
          SlipsWithin(BatchCalls(CertifyAll(Start(db, d.serial.live.value), jobs, lib)), fates, Slippable(goal)))
    case ExpirePart(_, _) => true
    case RevokePart(cert, ask, now, _) =>
      && RevokeTimes(db, cert, ask, now, lib)
      && (FindRow(db.rows, Key(SerialText(cert.serial))).Some? || Known(d, cert.serial, goal.filed))
  }

  predicate AllPartsTraceable(d: Disk, db: Db, parts: seq<Part>, goal: Goal, lib: Library)
    decreases |parts|
  {
    parts == [] ||
    (&& Traceable(d, db, parts[0], goal, lib)
     && match DoPart(d, db, parts[0], lib)
        case (_, None) => true
        case (d', Some(db')) => AllPartsTraceable(d', db', parts[1..], goal, lib))
  }

  lemma {:induction false} CommitHeld(d: Disk, db: Db, calls: seq<Call>, fates: seq<Fate>, goal: Goal, lib: Library)
    requires Passed(d, calls, fates).Some? && Passed(d, calls, fates).value.index.live == Has(TextOf(db.rows))
    requires Consistent(db, lib) && (goal.unique ==> db.unique)
    ensures Held(Perform(d, calls, fates), db, goal, lib)
  {
    PassedIsPerformed(d, calls, fates);
    TextReadsBack(db.rows);
  }

  lemma {:induction false} IndexCommitHeld(d: Disk, db: Db, fates: seq<Fate>, goal: Goal, lib: Library)
    requires d.index.live.Has? && Consistent(db, lib) && (goal.unique ==> db.unique)
    requires Passed(d, IndexCalls(db), fates).Some?
    ensures Held(Perform(d, IndexCalls(db), fates), db, goal, lib)
  {
    CommitIndexCompletes(d, TextOf(db.rows), db.unique, fates);
    CommitHeld(d, db, IndexCalls(db), fates, goal, lib);
  }

  lemma {:induction false} IssueSound(d: Disk, db: Db, b: Batch, commit: bool, fates: seq<Fate>, goal: Goal, lib: Library)
    requires Sound(d, goal, lib) && Held(d, db, goal, lib) && d.serial.live.Has?
    requires IssuedFrom(db, d.serial.live.value, b, lib) && Consistent(b.db, lib) && Below(b.db.rows, b.serial)
    requires SlipsWithin(BatchCalls(b), fates, Slippable(goal))
    ensures var (d', next) := DoBatch(d, b, commit, fates);
      Sound(d', goal, lib) && (next.Some? ==> Held(d', next.value, goal, lib))
  {
    if b.certs == [] {
      assert b.db.rows == db.rows;
    } else {
      CommitBatchSound(d, db, b, fates, goal, lib);
      CommitBatchCompletes(d, b.serial, TextOf(b.db.rows), b.db.unique, CertFiles(b.certs), fates);
      if Passed(d, BatchCalls(b), fates).Some? {
        CommitHeld(d, b.db, BatchCalls(b), fates, goal, lib);
      }
    }
  }

  lemma {:induction false} IssuePartSound(d: Disk, db: Db, jobs: seq<Job>, commit: bool, fates: seq<Fate>, goal: Goal, lib: Library)
    requires Sane(lib) && Sound(d, goal, lib) && Held(d, db, goal, lib) && JobTimes(jobs, lib) && d.serial.live.Has?
    requires SlipsWithin(BatchCalls(CertifyAll(Start(db, d.serial.live.value), jobs, lib)), fates, Slippable(goal))
    ensures var (d', next) := DoBatch(d, CertifyAll(Start(db, d.serial.live.value), jobs, lib), commit, fates);
      Sound(d', goal, lib) && (next.Some? ==> Held(d', next.value, goal, lib))
  {
    var s := d.serial.live.value;
    HeldIsGood(d, db, goal, lib);
    BatchIssues(db, s, jobs, lib);
    AheadStaysAhead(db, s, jobs, lib);
    IssueSound(d, db, CertifyAll(Start(db, s), jobs, lib), commit, fates, goal, lib);
  }

  lemma {:induction false} ExpirePartSound(d: Disk, db: Db, past: string -> bool, fates: seq<Fate>, goal: Goal, lib: Library)
    requires Sound(d, goal, lib) && Held(d, db, goal, lib)
    ensures var db' := db.(rows := Expire(db.rows, past));
      var (d', next) := Commit(d, IndexCalls(db'), fates, db');
      Sound(d', goal, lib) && (next.Some? ==> Held(d', next.value, goal, lib))
  {
    var db' := db.(rows := Expire(db.rows, past));
    ExpireKeeps(db, past, lib);
    CommitRowsSound(d, db, db', fates, goal, lib);
    if Passed(d, IndexCalls(db'), fates).Some? {
      IndexCommitHeld(d, db', fates, goal, lib);
    }
  }

  lemma {:induction false} RevokePartSound(d: Disk, db: Db, cert: Cert, ask: RevInfo.Ask, now: string, db': Db, fates: seq<Fate>,
                                           goal: Goal, lib: Library)
    requires Sane(lib) && Sound(d, goal, lib) && Held(d, db, goal, lib) && RevokeTimes(db, cert, ask, now, lib)
    requires FindRow(db.rows, Key(SerialText(cert.serial))).Some? || Known(d, cert.serial, goal.filed)
    requires Revoke(db, cert, ask, now, lib) == (db', true)
    ensures var (d', next) := Commit(d, IndexCalls(db'), fates, db');
      Sound(d', goal, lib) && (next.Some? ==> Held(d', next.value, goal, lib))
  {
    assert Consistent(db', lib) && db'.unique == db.unique by {
      RevokeKeeps(db, cert, ask, now, lib);
      RevokeUnique(db, cert, ask, now, lib);
    }
    if FindRow(db.rows, Key(SerialText(cert.serial))).Some? {
      RevokeListed(db, cert, ask, now, lib);
      CommitRowsSound(d, db, db', fates, goal, lib);
    } else {
      RevokeKnownSound(d, db, cert, ask, now, fates, goal, lib);
    }
    if Passed(d, IndexCalls(db'), fates).Some? {
      IndexCommitHeld(d, db', fates, goal, lib);
    }
  }

  lemma {:induction false} PartSound(d: Disk, db: Db, part: Part, goal: Goal, lib: Library)
    requires Sane(lib) && Sound(d, goal, lib) && Held(d, db, goal, lib) && Traceable(d, db, part, goal, lib)
    ensures var (d', next) := DoPart(d, db, part, lib);
      Sound(d', goal, lib) && (next.Some? ==> Held(d', next.value, goal, lib))
  {
    match part {
      case IssuePart(jobs, commit, fates) =>
        if d.serial.live.Has? {
          IssuePartSound(d, db, jobs, commit, fates, goal, lib);
        }
      case ExpirePart(past, fates) => ExpirePartSound(d, db, past, fates, goal, lib);
      case RevokePart(cert, ask, now, fates) =>
        var (db', ok) := Revoke(db, cert, ask, now, lib);
        if ok {
          RevokePartSound(d, db, cert, ask, now, db', fates, goal, lib);
        }
    }
  }

  lemma {:induction false} PartsSound(d: Disk, db: Db, parts: seq<Part>, goal: Goal, lib: Library)
    requires Sane(lib) && Sound(d, goal, lib) && Held(d, db, goal, lib) && AllPartsTraceable(d, db, parts, goal, lib)
    ensures Sound(DoParts(d, db, parts, lib), goal, lib)
    decreases |parts|
  {
    if parts != [] {
      PartSound(d, db, parts[0], goal, lib);
      var (d', next) := DoPart(d, db, parts[0], lib);
      if next.Some? {
        PartsSound(d', next.value, parts[1..], goal, lib);
      }
    }
  }

  // ------------------------------------------------------------------------
  // What a process that meets no failure does

  /** The database in memory, the live serial file and the certificate files. */
  datatype Memory = Memory(db: Db, serial: File<nat>, certs: set<string>)

  /** The disk holds what is in memory. */
  ghost predicate OnDisk(d: Disk, m: Memory, configured: bool, lib: Library) {
    && Consistent(m.db, lib)
    && d.index.live.Has? && RowsOf(d.index.live.value) == Some(m.db.rows)
    && Unique(d, configured) == m.db.unique
    && d.serial.live == m.serial && d.certs == m.certs
  }

  /** Every system call of the part works. */
  predicate NoFailure(part: Part) {
    match part
    case IssuePart(jobs, _, fates) => AllWork(fates, 12 + 2 * |jobs|)
    case ExpirePart(_, fates) => AllWork(fates, 8)
    case RevokePart(_, _, _, fates) => AllWork(fates, 8)
  }

  /** Row i is that of the certificate. */
  predicate RowIsOf(db: Db, i: nat, c: Cert) {
    i < |db.rows| && Key(db.rows[i].serial) == Key(SerialText(c.serial))
  }

  predicate MayRevoke(db: Db, i: nat, c: Cert, ask: RevInfo.Ask, lib: Library)
    requires i < |db.rows|
  {
    && db.rows[i].name == NameColumn(c.subject, c.serial, lib)
    && !(db.rows[i].typ != "" && db.rows[i].typ[0] == 'R')
    && !ask.Valid? && RevInfo.Acceptable(ask, lib.syn)
  }

  /** The part does what is asked of it; otherwise it ends the process. */
  predicate Accepts(m: Memory, part: Part, lib: Library) {
    match part
    case IssuePart(jobs, commit, _) =>
      && m.serial.Has?
      && var b := CertifyAll(Start(m.db, m.serial.value), jobs, lib); b.stopped.None? && (b.certs == [] || commit)
    case ExpirePart(_, _) => true
    case RevokePart(c, ask, _, _) =>
      && (forall i :: 0 <= i < |m.db.rows| && RowIsOf(m.db, i, c) ==> MayRevoke(m.db, i, c, ask, lib))
      && (Unlisted(m.db, c.serial) ==>
          NameFree(m.db, NameColumn(c.subject, c.serial, lib)) && (ask.Valid? || RevInfo.Acceptable(ask, lib.syn)))
  }

  /** What the part then leaves in memory and on disk. */
  ghost predicate Done(m: Memory, m': Memory, part: Part, lib: Library) {
    && m'.db.unique == m.db.unique
    && match part
       case IssuePart(jobs, _, _) =>
         m.serial.Has? && Certified(m, m', CertifyAll(Start(m.db, m.serial.value), jobs, lib).certs, lib)
       case ExpirePart(past, _) =>
         && m'.serial == m.serial && m'.certs == m.certs
         && |m'.db.rows| == |m.db.rows|
         && forall i :: 0 <= i < |m.db.rows| ==>
              var r := m.db.rows[i];
              m'.db.rows[i] == if r.typ != "" && r.typ[0] == 'V' && past(r.expiry) then r.(typ := "E") else r
       case RevokePart(c, ask, now, _) =>
         && m'.serial == m.serial && m'.certs == m.certs
         && (forall i :: 0 <= i < |m.db.rows| && RowIsOf(m.db, i, c) ==> IsMarked(m.db.rows, m'.db.rows, i, ask, now, lib))
         && (Unlisted(m.db, c.serial) ==>
             var added := Row("V", c.notAfter, "", SerialText(c.serial), "unknown", NameColumn(c.subject, c.serial, lib));
             if ask.Valid? then m'.db.rows == m.db.rows + [added]
             else IsMarked(m.db.rows + [added], m'.db.rows, |m.db.rows|, ask, now, lib))
  }

  /** k certificates were issued: k new rows, the serial number k further, and k certificate files. */
  ghost predicate Certified(m: Memory, m': Memory, certs: seq<Cert>, lib: Library)
    requires m.serial.Has?
  {
    && m'.db.rows == m.db.rows + RowsFor(certs, lib)
    && m'.serial == Has(m.serial.value + |certs|)
    && m'.certs == m.certs + NameSet(CertFiles(certs))
  }

  /** Row i and no other is revoked, with the printed text. */
  predicate IsMarked(rows: seq<Row>, rows': seq<Row>, i: nat, ask: RevInfo.Ask, now: string, lib: Library)
    requires i < |rows|
  {
    var text := RevInfo.Text(ask, now, lib.syn);
    text.Some? && rows' == rows[i := rows[i].(typ := "R", revocation := text.value)]
  }

  /** The times that a part puts into the database, judged by what was listed at the start. */
  predicate PartTimes(db: Db, part: Part, lib: Library) {
    match part
    case IssuePart(jobs, _, _) => JobTimes(jobs, lib)
    case ExpirePart(_, _) => true
    case RevokePart(c, ask, now, _) => RevokeTimes(db, c, ask, now, lib)
  }

  /** A part without failure does what is asked if it is accepted, and leaves the disk alone if not. */
  ghost predicate WellDone(d: Disk, m: Memory, part: Part, configured: bool, lib: Library) {
    var (d', next) := DoPart(d, m.db, part, lib);
    && (next.Some? <==> Accepts(m, part, lib))
    && (next.None? ==> d' == d)
    && (next.Some? ==>
        var m' := Memory(next.value, d'.serial.live, d'.certs);
        OnDisk(d', m', configured, lib) && Done(m, m', part, lib) && Evolves(m.db.rows, m'.db.rows))
  }

  lemma {:induction false} IndexCommitWorks(d: Disk, db: Db, fates: seq<Fate>, configured: bool, lib: Library)
    requires d.index.live.Has? && Consistent(db, lib) && AllWork(fates, 8)
    ensures var (d', next) := Commit(d, IndexCalls(db), fates, db);
      next == Some(db) && OnDisk(d', Memory(db, d.serial.live, d.certs), configured, lib)
  {
    CommitIndexCompletes(d, TextOf(db.rows), db.unique, fates);
    PassedIsPerformed(d, IndexCalls(db), fates);
    TextReadsBack(db.rows);
  }

  lemma {:induction false} ExpireWellDone(d: Disk, m: Memory, past: string -> bool, fates: seq<Fate>, configured: bool, lib: Library)
    requires OnDisk(d, m, configured, lib) && AllWork(fates, 8)
    ensures WellDone(d, m, ExpirePart(past, fates), configured, lib)
  {
    var db' := m.db.(rows := Expire(m.db.rows, past));
    ExpireKeeps(m.db, past, lib);
    ExpireIsComplete(m.db.rows, past);
    if db'.rows != m.db.rows {
      IndexCommitWorks(d, db', fates, configured, lib);
    }
  }

  lemma {:induction false} RevokeWellDone(d: Disk, m: Memory, c: Cert, ask: RevInfo.Ask, now: string, fates: seq<Fate>,
                                          configured: bool, lib: Library)
    requires Sane(lib) && OnDisk(d, m, configured, lib) && AllWork(fates, 8) && RevokeTimes(m.db, c, ask, now, lib)
    ensures WellDone(d, m, RevokePart(c, ask, now, fates), configured, lib)
  {
    var (db', ok) := Revoke(m.db, c, ask, now, lib);
    RevokeKeeps(m.db, c, ask, now, lib);
    RevokeInPlainTerms(m, c, ask, now, fates, db', ok, lib);
    if ok {
      IndexCommitWorks(d, db', fates, configured, lib);
    }
  }

  lemma {:induction false} RevokeInPlainTerms(m: Memory, c: Cert, ask: RevInfo.Ask, now: string, fates: seq<Fate>,
                                              db': Db, ok: bool, lib: Library)
    requires DistinctSerials(m.db.rows) && (db', ok) == Revoke(m.db, c, ask, now, lib)
    ensures ok <==> Accepts(m, RevokePart(c, ask, now, fates), lib)
    ensures ok ==> Done(m, Memory(db', m.serial, m.certs), RevokePart(c, ask, now, fates), lib)
  {
    if Unlisted(m.db, c.serial) {
      UnlistedInPlainTerms(m, c, ask, now, fates, db', ok, lib);
    } else {
      var i :| 0 <= i < |m.db.rows| && Key(m.db.rows[i].serial) == Key(SerialText(c.serial));
      RevokeListedOutcome(m.db, i, c, ask, now, lib);
      assert RowIsOf(m.db, i, c);
      assert forall k :: 0 <= k < |m.db.rows| && RowIsOf(m.db, k, c) ==> k == i;
    }
  }

  lemma {:induction false} UnlistedInPlainTerms(m: Memory, c: Cert, ask: RevInfo.Ask, now: string, fates: seq<Fate>,
                                                db': Db, ok: bool, lib: Library)
    requires Unlisted(m.db, c.serial) && (db', ok) == Revoke(m.db, c, ask, now, lib)
    ensures ok <==> Accepts(m, RevokePart(c, ask, now, fates), lib)
    ensures ok ==> Done(m, Memory(db', m.serial, m.certs), RevokePart(c, ask, now, fates), lib)
  {
    RevokeUnlistedOutcome(m.db, c, ask, now, lib);
    RevInfo.TextExactly(ask, now, lib.syn);
    var added := Row("V", c.notAfter, "", SerialText(c.serial), "unknown", NameColumn(c.subject, c.serial, lib));
    assert forall r: Row :: (m.db.rows + [added])[|m.db.rows| := r] == m.db.rows + [r];
    assert forall i :: 0 <= i < |m.db.rows| ==> !RowIsOf(m.db, i, c);
  }

  lemma {:induction false} IssueWellDone(d: Disk, m: Memory, jobs: seq<Job>, commit: bool, fates: seq<Fate>,
                                         configured: bool, lib: Library)
    requires Sane(lib) && OnDisk(d, m, configured, lib) && AllWork(fates, 12 + 2 * |jobs|) && JobTimes(jobs, lib)
    ensures WellDone(d, m, IssuePart(jobs, commit, fates), configured, lib)
  {
    if m.serial.Has? {
      var b := CertifyAll(Start(m.db, m.serial.value), jobs, lib);
      BatchIssues(m.db, m.serial.value, jobs, lib);
      BatchTotal(Start(m.db, m.serial.value), jobs, lib);
      BatchWellDone(d, m, b, commit, fates, configured, lib);
      BatchIsPart(d, m, jobs, commit, fates, b, configured, lib);
    }
  }

  /** A batch without failures is committed unless it was stopped or not confirmed. */
  ghost predicate BatchWell(d: Disk, m: Memory, b: Batch, commit: bool, fates: seq<Fate>, configured: bool, lib: Library)
    requires m.serial.Has?
  {
    var (d', next) := DoBatch(d, b, commit, fates);
    && (next.Some? <==> b.stopped.None? && (b.certs == [] || commit))
    && (next.None? ==> d' == d)
    && (next.Some? ==> Settled(m, Memory(next.value, d'.serial.live, d'.certs), d', b.certs, configured, lib))
  }

  ghost predicate Settled(m: Memory, m': Memory, d': Disk, certs: seq<Cert>, configured: bool, lib: Library)
    requires m.serial.Has?
  {
    && OnDisk(d', m', configured, lib) && Certified(m, m', certs, lib)
    && m'.db.unique == m.db.unique && Evolves(m.db.rows, m'.db.rows)
  }

  lemma {:induction false} BatchIsPart(d: Disk, m: Memory, jobs: seq<Job>, commit: bool, fates: seq<Fate>, b: Batch,
                                       configured: bool, lib: Library)
    requires m.serial.Has? && d.serial.live == m.serial && b == CertifyAll(Start(m.db, m.serial.value), jobs, lib)
    requires BatchWell(d, m, b, commit, fates, configured, lib)
    ensures WellDone(d, m, IssuePart(jobs, commit, fates), configured, lib)
  {}

  lemma {:induction false} BatchWellDone(d: Disk, m: Memory, b: Batch, commit: bool, fates: seq<Fate>, configured: bool, lib: Library)
    requires OnDisk(d, m, configured, lib) && m.serial.Has? && AllWork(fates, 12 + 2 * |b.certs|)
    requires IssuedFrom(m.db, m.serial.value, b, lib) && Consistent(b.db, lib)
    ensures BatchWell(d, m, b, commit, fates, configured, lib)
  {
    if b.stopped.None? && (b.certs == [] || commit) {
      var (d', next) := DoBatch(d, b, commit, fates);
      if b.certs == [] {
        NothingIssued(d, m, b, configured, lib);
      } else {
        BatchCommitWorks(d, b, fates, configured, lib);
        SomeIssued(d, m, b, d', configured, lib);
      }
    }
  }

  lemma {:induction false} NothingIssued(d: Disk, m: Memory, b: Batch, configured: bool, lib: Library)
    requires OnDisk(d, m, configured, lib) && m.serial.Has? && b.certs == []
    requires IssuedFrom(m.db, m.serial.value, b, lib) && Consistent(b.db, lib)
    ensures Settled(m, Memory(b.db, d.serial.live, d.certs), d, b.certs, configured, lib)
  {
    assert RowsFor([], lib) == [] && b.db.rows == m.db.rows;
    assert m.certs + NameSet(CertFiles([])) == m.certs;
    RowsAdded(m.db.rows, []);
  }

  lemma {:induction false} SomeIssued(d: Disk, m: Memory, b: Batch, d': Disk, configured: bool, lib: Library)
    requires d.certs == m.certs && m.serial.Has? && b.serial == m.serial.value + |b.certs|
    requires b.db.unique == m.db.unique && b.db.rows == m.db.rows + RowsFor(b.certs, lib)
    requires OnDisk(d', Memory(b.db, Has(b.serial), d.certs + NameSet(CertFiles(b.certs))), configured, lib)
    ensures Settled(m, Memory(b.db, d'.serial.live, d'.certs), d', b.certs, configured, lib)
  {
    RowsAdded(m.db.rows, RowsFor(b.certs, lib));
  }

  lemma {:induction false} RowsAdded(rows: seq<Row>, more: seq<Row>)
    ensures Evolves(rows, rows + more)
  {}

  lemma {:induction false} BatchCommitWorks(d: Disk, b: Batch, fates: seq<Fate>, configured: bool, lib: Library)
    requires d.index.live.Has? && d.serial.live.Has? && Consistent(b.db, lib) && AllWork(fates, 12 + 2 * |b.certs|)
    ensures var (d', next) := Commit(d, BatchCalls(b), fates, b.db);
      && next == Some(b.db)
      && OnDisk(d', Memory(b.db, Has(b.serial), d.certs + NameSet(CertFiles(b.certs))), configured, lib)
  {
    CommitBatchCompletes(d, b.serial, TextOf(b.db.rows), b.db.unique, CertFiles(b.certs), fates);
    PassedIsPerformed(d, BatchCalls(b), fates);
    TextReadsBack(b.db.rows);
  }

  lemma {:induction false} PartWellDone(d: Disk, m: Memory, part: Part, configured: bool, lib: Library)
    requires Sane(lib) && OnDisk(d, m, configured, lib) && NoFailure(part) && PartTimes(m.db, part, lib)
    ensures WellDone(d, m, part, configured, lib)
  {
    match part {
      case IssuePart(jobs, commit, fates) => IssueWellDone(d, m, jobs, commit, fates, configured, lib);
      case ExpirePart(past, fates) => ExpireWellDone(d, m, past, fates, configured, lib);
      case RevokePart(c, ask, now, fates) => RevokeWellDone(d, m, c, ask, now, fates, configured, lib);
    }
  }

  /** What is listed stays listed. */
  lemma {:induction false} TimesStay(a: Db, b: Db, part: Part, lib: Library)
    requires Evolves(a.rows, b.rows) && PartTimes(a, part, lib)
    ensures PartTimes(b, part, lib)
  {
    if part.RevokePart? {
      UnlistedExactly(a, part.cert.serial);
      UnlistedExactly(b, part.cert.serial);
      if !Unlisted(a, part.cert.serial) {
        var i :| 0 <= i < |a.rows| && Key(a.rows[i].serial) == Key(SerialText(part.cert.serial));
        assert RowEvolves(a.rows[i], b.rows[i]) && b.rows[i].serial == a.rows[i].serial;
      }
    }
  }

  /** Each state follows from the one before by the part in between, and the next part, if any, was refused. */
  ghost predicate InTurn(states: seq<Memory>, parts: seq<Part>, lib: Library) {
    && 1 <= |states| <= |parts| + 1
    && (forall k :: 0 <= k < |states| - 1 ==> Accepts(states[k], parts[k], lib) && Done(states[k], states[k + 1], parts[k], lib))
    && (|states| <= |parts| ==> !Accepts(states[|states| - 1], parts[|states| - 1], lib))
  }

  lemma {:induction false} InTurnMore(m: Memory, states: seq<Memory>, parts: seq<Part>, lib: Library)
    requires parts != [] && InTurn(states, parts[1..], lib)
    requires Accepts(m, parts[0], lib) && Done(m, states[0], parts[0], lib)
    ensures InTurn([m] + states, parts, lib)
  {
    var all := [m] + states;
    forall k | 0 <= k < |all| - 1 ensures Accepts(all[k], parts[k], lib) && Done(all[k], all[k + 1], parts[k], lib) {
      if k > 0 {
        assert all[k] == states[k - 1] && all[k + 1] == states[k] && parts[k] == parts[1..][k - 1];
      }
    }
    assert |all| <= |parts| ==> parts[|all| - 1] == parts[1..][|states| - 1];
  }

  /**
   * A process without failures does its parts one after another, each on what the one before
   * left, up to the first that is refused; the disk then holds the last state.
   */
  lemma {:induction false} PartsInTurn(d: Disk, m: Memory, parts: seq<Part>, configured: bool, lib: Library)
    returns (states: seq<Memory>)
    requires Sane(lib) && OnDisk(d, m, configured, lib)
    requires forall k :: 0 <= k < |parts| ==> NoFailure(parts[k]) && PartTimes(m.db, parts[k], lib)
    ensures InTurn(states, parts, lib) && states[0] == m
    ensures OnDisk(DoParts(d, m.db, parts, lib), states[|states| - 1], configured, lib)
    decreases |parts|
  {
    states := [m];
    if parts != [] {
      PartWellDone(d, m, parts[0], configured, lib);
      var (d', next) := DoPart(d, m.db, parts[0], lib);
      if next.Some? {
        var m' := Memory(next.value, d'.serial.live, d'.certs);
        var rest := parts[1..];
        forall k | 0 <= k < |rest| ensures NoFailure(rest[k]) && PartTimes(m'.db, rest[k], lib) {
          assert rest[k] == parts[k + 1];
          TimesStay(m.db, m'.db, rest[k], lib);
        }
        var more := PartsInTurn(d', m', rest, configured, lib);
        InTurnMore(m, more, parts, lib);
        states := [m] + more;
      }
    }
  }

  /** The next process loads these rows, reads this serial file and has these certificates. */
  ghost predicate NextFinds(d: Disk, m: Memory, configured: bool, lib: Library) {
    && Load(d, configured, lib).Some? && Load(d, configured, lib).value.rows == m.db.rows
    && d.serial.live == m.serial && d.certs == m.certs
  }

  /** The same for a process from its start, and what the next one loads. */
  lemma {:induction false} ProcessInTurn(d: Disk, db: Db, parts: seq<Part>, configured: bool, lib: Library)
    returns (states: seq<Memory>)
    requires Sane(lib) && Load(d, configured, lib) == Some(db)
    requires forall k :: 0 <= k < |parts| ==> NoFailure(parts[k]) && PartTimes(db, parts[k], lib)
    ensures InTurn(states, parts, lib) && states[0] == Memory(db, d.serial.live, d.certs)
    ensures NextFinds(Invoke(d, Process(parts), configured, lib), states[|states| - 1], configured, lib)
  {
    LoadConsistent(d, configured, lib);
    var m := Memory(db, d.serial.live, d.certs);
    states := PartsInTurn(d, m, parts, configured, lib);
    DiskLoads(Invoke(d, Process(parts), configured, lib), states[|states| - 1], configured, lib);
  }

  lemma {:induction false} DiskLoads(d: Disk, m: Memory, configured: bool, lib: Library)
    requires OnDisk(d, m, configured, lib)
    ensures Load(d, configured, lib).Some? && Load(d, configured, lib).value.rows == m.db.rows
  {}

  lemma {:induction false} OnePartInTurn(d: Disk, m: Memory, part: Part, configured: bool, lib: Library) returns (m': Memory)
    requires Sane(lib) && Load(d, configured, lib) == Some(m.db) && m.serial == d.serial.live && m.certs == d.certs
    requires NoFailure(part) && PartTimes(m.db, part, lib) && Accepts(m, part, lib)
    ensures Done(m, m', part, lib) && NextFinds(Invoke(d, Process([part]), configured, lib), m', configured, lib)
  {
    var states := ProcessInTurn(d, m.db, [part], configured, lib);
    assert states[0] == m && |states| == 2;
    m' := states[1];
  }

  /** A revocation that is acceptable is there for the next run, and nothing else has changed. */
  lemma {:induction false} RevocationIsSaved(d: Disk, db: Db, i: nat, c: Cert, ask: RevInfo.Ask, now: string, fates: seq<Fate>,
                                             configured: bool, lib: Library)
    requires Sane(lib) && Load(d, configured, lib) == Some(db) && AllWork(fates, 8) && lib.syn.isUtcTime(now)
    requires RowIsOf(db, i, c) && MayRevoke(db, i, c, ask, lib)
    ensures var d' := Invoke(d, Process([RevokePart(c, ask, now, fates)]), configured, lib);
      && Load(d', configured, lib).Some? && IsMarked(db.rows, Load(d', configured, lib).value.rows, i, ask, now, lib)
      && d'.serial.live == d.serial.live && d'.certs == d.certs
  {
    var m, part := Memory(db, d.serial.live, d.certs), RevokePart(c, ask, now, fates);
    assert Accepts(m, part, lib) && RevokeTimes(db, c, ask, now, lib) by {
      UnlistedExactly(db, c.serial);
      assert forall k :: 0 <= k < |db.rows| && RowIsOf(db, k, c) ==> k == i;
    }
    var m' := OnePartInTurn(d, m, part, configured, lib);
    assert Done(m, m', part, lib);
  }

  /** After -updatedb the next run finds exactly the valid rows past their time marked. */
  lemma {:induction false} ExpiryIsSaved(d: Disk, db: Db, past: string -> bool, fates: seq<Fate>, configured: bool, lib: Library)
    requires Sane(lib) && Load(d, configured, lib) == Some(db) && AllWork(fates, 8)
    ensures var d' := Invoke(d, Process([ExpirePart(past, fates)]), configured, lib); var next := Load(d', configured, lib);
      && next.Some? && |next.value.rows| == |db.rows|
      && (forall i :: 0 <= i < |db.rows| ==>
          var r := db.rows[i];
          next.value.rows[i] == if r.typ != "" && r.typ[0] == 'V' && past(r.expiry) then r.(typ := "E") else r)
      && d'.serial.live == d.serial.live && d'.certs == d.certs
  {
    var m' := OnePartInTurn(d, Memory(db, d.serial.live, d.certs), ExpirePart(past, fates), configured, lib);
  }

  /**
   * A confirmed batch of k certificates is there for the next run: the old rows and k new ones,
   * the serial number k further, and k certificate files.
   */
  lemma {:induction false} BatchIsSaved(d: Disk, m: Memory, s: nat, jobs: seq<Job>, b: Batch, fates: seq<Fate>,
                                        configured: bool, lib: Library) returns (m': Memory)
    requires Sane(lib) && Load(d, configured, lib) == Some(m.db) && m.serial == d.serial.live == Has(s) && m.certs == d.certs
    requires JobTimes(jobs, lib) && AllWork(fates, 12 + 2 * |jobs|)
    requires b == CertifyAll(Start(m.db, s), jobs, lib) && b.stopped.None?
    ensures NextFinds(Invoke(d, Process([IssuePart(jobs, true, fates)]), configured, lib), m', configured, lib)
    ensures Certified(m, m', b.certs, lib)
  {
    BatchAccepted(m, s, jobs, b, fates, lib);
    m' := OnePartInTurn(d, m, IssuePart(jobs, true, fates), configured, lib);
    BatchDone(m, s, jobs, b, fates, m', lib);
  }

  lemma {:induction false} BatchAccepted(m: Memory, s: nat, jobs: seq<Job>, b: Batch, fates: seq<Fate>, lib: Library)
    requires m.serial == Has(s) && b == CertifyAll(Start(m.db, s), jobs, lib) && b.stopped.None?
    ensures Accepts(m, IssuePart(jobs, true, fates), lib)
  {}

  lemma {:induction false} BatchDone(m: Memory, s: nat, jobs: seq<Job>, b: Batch, fates: seq<Fate>, m': Memory, lib: Library)
    requires m.serial == Has(s) && b == CertifyAll(Start(m.db, s), jobs, lib)
    requires Done(m, m', IssuePart(jobs, true, fates), lib)
    ensures Certified(m, m', b.certs, lib)
  {}

  /** What loads: rows that pass the check, no serial number twice and, by the attribute file or else by the
      configuration, no name of a valid row twice. */
  lemma {:induction false} LoadsExactly(d: Disk, rows: seq<Row>, configured: bool, lib: Library)
    requires d.index.live.Has? && RowsOf(d.index.live.value) == Some(rows)
    ensures Load(d, configured, lib).Some? <==>
      && (forall i :: 0 <= i < |rows| ==> RowOk(rows[i], lib))
      && (forall i, j :: 0 <= i < j < |rows| ==> Key(rows[i].serial) != Key(rows[j].serial))
      && (d.attr.live == Has(true) || (!d.attr.live.Has? && configured) ==> NamesOnce(rows))
    ensures Load(d, configured, lib).Some? ==>
      var db, unique := Load(d, configured, lib).value, d.attr.live == Has(true) || (!d.attr.live.Has? && configured);
      && db.rows == rows && db.unique == unique
      && forall n :: n in db.named <==> unique && exists i :: 0 <= i < |rows| && IsValid(rows[i]) && rows[i].name == n
  {
    NamesOnceExactly(rows);
    assert AllOk(rows, lib) <==> forall i :: 0 <= i < |rows| ==> RowOk(rows[i], lib);
    assert Unique(d, configured) <==> d.attr.live == Has(true) || (!d.attr.live.Has? && configured);
  }

  predicate IsValid(r: Row) {
    r.typ != "" && r.typ[0] == 'V'
  }

  predicate NamesOnce(rows: seq<Row>) {
    forall i, j :: 0 <= i < j < |rows| && IsValid(rows[i]) && IsValid(rows[j]) ==> rows[i].name != rows[j].name
  }

  lemma {:induction false} NamesOnceExactly(rows: seq<Row>)
    ensures DistinctNames(rows) <==> NamesOnce(rows)
  {
    assert forall r: Row :: IsValid(r) <==> Kind(r) == VALID;
  }

  // ------------------------------------------------------------------------
  // Any number of processes

  predicate AllTraceable(d: Disk, runs: seq<Invocation>, goal: Goal, configured: bool, lib: Library)
    decreases |runs|
  {
    runs == [] ||
    (&& (runs[0].Process? && Load(d, configured, lib).Some? ==>
         AllPartsTraceable(d, Load(d, configured, lib).value, runs[0].parts, goal, lib))
     && AllTraceable(Invoke(d, runs[0], configured, lib), runs[1..], goal, configured, lib))
  }

  /** A history is its processes one after another. */
  lemma {:induction false} HistoryInTurn(d: Disk, a: seq<Invocation>, run: Invocation, configured: bool, lib: Library)
    ensures History(d, a + [run], configured, lib) == Invoke(History(d, a, configured, lib), run, configured, lib)
    decreases |a|
  {
    if a == [] {
      assert a + [run] == [run] && [run][1..] == [];
      assert History(Invoke(d, run, configured, lib), [], configured, lib) == Invoke(d, run, configured, lib);
    } else {
      assert (a + [run])[0] == a[0] && (a + [run])[1..] == a[1..] + [run];
      HistoryInTurn(Invoke(d, a[0], configured, lib), a[1..], run, configured, lib);
    }
  }

  /** Putting a file back changes nothing about which one is current. */
  lemma {:induction false} PutBackSound(d: Disk, attrToo: bool, goal: Goal, lib: Library)
    requires Sound(d, goal, lib)
    ensures Sound(PutBack(d, attrToo), goal, lib)
  {
    SoundMeans(d, goal, lib);
    SoundMeans(PutBack(d, attrToo), goal, lib);
  }

  lemma {:induction false} InvokeSound(d: Disk, run: Invocation, goal: Goal, configured: bool, lib: Library)
    requires Sane(lib) && Sound(d, goal, lib) && (goal.unique ==> configured)
    requires run.Process? && Load(d, configured, lib).Some? ==>
      AllPartsTraceable(d, Load(d, configured, lib).value, run.parts, goal, lib)
    ensures Sound(Invoke(d, run, configured, lib), goal, lib)
  {
    match run {
      case PutBackFiles(attrToo) => PutBackSound(d, attrToo, goal, lib);
      case Process(parts) =>
        if Load(d, configured, lib).Some? {
          var db := Load(d, configured, lib).value;
          LoadedIsHeld(d, db, goal, configured, lib);
          PartsSound(d, db, parts, goal, lib);
        }
    }
  }

  /**
   * Whatever calls fail or slip, wherever processes stop and whatever is put back: an index
   * grown out of the first is live or kept aside, no row of it was ever lost or un-revoked, the
   * serial file is ahead of every serial number in it, and everything claimed holds.
   */
  lemma {:induction false} HistorySound(d: Disk, runs: seq<Invocation>, goal: Goal, configured: bool, lib: Library)
    requires Sane(lib) && Sound(d, goal, lib) && (goal.unique ==> configured)
    requires AllTraceable(d, runs, goal, configured, lib)
    ensures Sound(History(d, runs, configured, lib), goal, lib)
    decreases |runs|
  {
    if runs != [] {
      InvokeSound(d, runs[0], goal, configured, lib);
      HistorySound(Invoke(d, runs[0], configured, lib), runs[1..], goal, configured, lib);
    }
  }

  // ------------------------------------------------------------------------
  // Numbers given out twice

  /** Some certificate that this commit wrote has a number that the next run may give out again. */
  predicate Exposed(d: Disk, b: Batch, fates: seq<Fate>) {
    var live := Perform(d, BatchCalls(b), fates).serial.live;
    exists i :: 0 <= i < |b.certs| && CertFiles(b.certs)[i] in WrittenBy(BatchCalls(b), fates)
                && live.Has? && live.value <= b.certs[i].serial
  }

  /** That happens if and only if the calls fail or stop inside the window. */
  lemma {:induction false} ExposedIffWindow(d: Disk, db: Db, b: Batch, fates: seq<Fate>, lib: Library)
    requires d.serial.live.Has? && IssuedFrom(db, d.serial.live.value, b, lib)
    ensures Exposed(d, b, fates) <==> Window(Passing(BatchCalls(b), fates), |b.certs|, fates)
  {
    if Window(Passing(BatchCalls(b), fates), |b.certs|, fates) {
      var names, text, u := CertFiles(b.certs), TextOf(b.db.rows), b.db.unique;
      WindowKeeps(d, b.serial, text, u, names, fates);
      var i := WindowWrites(b.serial, text, u, names, fates);
      assert b.certs[i].serial == d.serial.live.value + i;
      assert Exposed(d, b, fates);
    }
    if Exposed(d, b, fates) {
      ExposedInWindow(d, db, b, fates, lib);
    }
  }

  lemma {:induction false} ExposedInWindow(d: Disk, db: Db, b: Batch, fates: seq<Fate>, lib: Library)
    requires d.serial.live.Has? && IssuedFrom(db, d.serial.live.value, b, lib) && Exposed(d, b, fates)
    ensures Window(Passing(BatchCalls(b), fates), |b.certs|, fates)
  {
    var names, text, u := CertFiles(b.certs), TextOf(b.db.rows), b.db.unique;
    SerialAfterCommit(d, b.serial, text, u, names, fates);
    var live := Perform(d, BatchCalls(b), fates).serial.live;
    var i :| 0 <= i < |b.certs| && names[i] in WrittenBy(BatchCalls(b), fates) && live.Has? && live.value <= b.certs[i].serial;
    var j := WrittenWhere(b.serial, text, u, names, fates, names[i]);
    assert b.certs[i].serial == d.serial.live.value + i < b.serial;
  }

  /**
   * After a batch that was stopped in the window the next process that issues anything gives its
   * first certificate the number, and the file, of the first certificate of that batch.
   */
  lemma {:induction false} NumberGivenAgain(d: Disk, db: Db, s: nat, jobs: seq<Job>, b: Batch, fates: seq<Fate>,
                                            d': Disk, jobs': seq<Job>, b': Batch, configured: bool, lib: Library)
    requires Sane(lib) && JobTimes(jobs, lib) && JobTimes(jobs', lib)
    requires Load(d, configured, lib) == Some(db) && d.serial.live == Has(s)
    requires b == CertifyAll(Start(db, s), jobs, lib) && b.stopped.None?
    requires Window(Passing(BatchCalls(b), fates), |b.certs|, fates)
    requires d' == DoBatch(d, b, true, fates).0
    requires b' == CertifyAll(Start(db, s), jobs', lib) && b'.certs != []
    ensures Load(d', configured, lib) == Some(db) && d'.serial.live == Has(s)
    ensures b.certs != [] && b'.certs[0].serial == b.certs[0].serial && CertFiles(b'.certs)[0] == CertFiles(b.certs)[0]
  {
    WindowKeeps(d, b.serial, TextOf(b.db.rows), b.db.unique, CertFiles(b.certs), fates);
    LoadConsistent(d, configured, lib);
    BatchIssues(db, s, jobs, lib);
    BatchIssues(db, s, jobs', lib);
  }

  // ------------------------------------------------------------------------
  // Revoking a certificate that is not in the database

  lemma {:induction false} UnlistedAddsRow(db: Db, cert: Cert, ask: RevInfo.Ask, now: string, lib: Library)
    requires FindRow(db.rows, Key(SerialText(cert.serial))).None? && Revoke(db, cert, ask, now, lib).1
    ensures var rows := Revoke(db, cert, ask, now, lib).0.rows;
      |rows| == |db.rows| + 1 && rows[..|db.rows|] == db.rows && rows[|db.rows|].serial == SerialText(cert.serial)
  {}

  /** Such a revocation keeps the serial number ahead exactly when the certificate's is below it. */
  lemma {:induction false} UnlistedRevocation(db: Db, cert: Cert, ask: RevInfo.Ask, now: string, s: int, lib: Library)
    requires Below(db.rows, s) && FindRow(db.rows, Key(SerialText(cert.serial))).None?
    requires Revoke(db, cert, ask, now, lib).1
    ensures Below(Revoke(db, cert, ask, now, lib).0.rows, s) <==> cert.serial < s
  {
    UnlistedAddsRow(db, cert, ask, now, lib);
    SerialRoundTrip(cert.serial);
    BelowOneMore(Revoke(db, cert, ask, now, lib).0.rows, s);
  }

  lemma {:induction false} BelowOneMore(rows: seq<Row>, s: int)
    requires rows != [] && HexToBn(rows[|rows| - 1].serial).Some?
    ensures Below(rows, s) <==> Below(rows[..|rows| - 1], s) && HexToBn(rows[|rows| - 1].serial).value < s
  {
    var n := |rows| - 1;
    assert forall i :: 0 <= i < n ==> rows[..n][i] == rows[i];
  }

  /** If it equals the next serial number, the next acceptable request is refused as a clash. */
  lemma {:induction false} UnlistedRevocationClashes(db: Db, cert: Cert, ask: RevInfo.Ask, now: string,
                                                     cfg: Config, req: Request, lib: Library)
    requires FindRow(db.rows, Key(SerialText(cert.serial))).None? && Revoke(db, cert, ask, now, lib).1
    requires req.wellFormed && PolicyAccepts(cfg, req, lib)
    ensures var out := Issue(Revoke(db, cert, ask, now, lib).0, cfg, req, cert.serial, lib).1;
      out.SerialClash? || (db.unique && out.NameClash?)
  {
    UnlistedAddsRow(db, cert, ask, now, lib);
    SerialTaken(Revoke(db, cert, ask, now, lib).0, |db.rows|, cfg, req, cert.serial, lib);
  }

  lemma {:induction false} SerialTaken(db: Db, i: nat, cfg: Config, req: Request, serial: int, lib: Library)
    requires i < |db.rows| && db.rows[i].serial == SerialText(serial)
    requires req.wellFormed && PolicyAccepts(cfg, req, lib)
    ensures var out := Issue(db, cfg, req, serial, lib).1; out.SerialClash? || (db.unique && out.NameClash?)
  {
    assert FindRow(db.rows, Key(db.rows[i].serial)).Some?;
  }
}
