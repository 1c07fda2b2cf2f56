// The request loop of ca_main in tongsuo/apps/ca.c: SPKAC, self-signed certificate, -in file and
// remaining arguments are certified one after another under a running serial number.
module CaBatch {
  import opened Wrappers
  import opened Serial
  import opened CaSpec
  import opened CaDb

  /** How a request file fares before do_body: unreadable, badly signed, or handed on. */
  datatype Intake = Unreadable | BadSignature | Accepted

  datatype Job = Job(intake: Intake, cfg: Config, req: Request)

  /** The loop's variables; stopped says what ended it early. */
  datatype Batch = Batch(db: Db, serial: nat, certs: seq<Cert>, total: nat, stopped: Option<Issuance>)

  function Start(db: Db, serial: nat): Batch {
    Batch(db, serial, [], 0, None)
  }

  function Attempt(db: Db, serial: int, job: Job, lib: Library): (Db, Issuance) {
    match job.intake
    case Unreadable => (db, BadRequest)
    case BadSignature => (db, Declined)
    case Accepted => Issue(db, job.cfg, job.req, serial, lib)
  }

  /** Success takes the serial number, a declined request does not, anything else stops the loop. */
  function After(b: Batch, db: Db, out: Issuance): Batch {
    match out
    case Issued(cert) => Batch(db, b.serial + 1, b.certs + [cert], b.total + 1, None)
    case Declined => b.(db := db, total := b.total + 1)
    case _ => b.(db := db, total := b.total + 1, stopped := Some(out))
  }

  function Certify(b: Batch, job: Job, lib: Library): Batch {
    if b.stopped.Some? then b
    else var (db, out) := Attempt(b.db, b.serial, job, lib); After(b, db, out)
  }

  function CertifyAll(b: Batch, jobs: seq<Job>, lib: Library): Batch {
    if jobs == [] then b
    else Certify(CertifyAll(b, jobs[..|jobs| - 1], lib), jobs[|jobs| - 1], lib)
  }

  function RowsFor(certs: seq<Cert>, lib: Library): (rows: seq<Row>)
    ensures |rows| == |certs|
  {
    seq(|certs|, i requires 0 <= i < |certs| => RowFor(certs[i], lib))
  }

  // ------------------------------------------------------------------------
  // What the loop issues

  /** k certificates were issued: consecutive serials, one new row each, none listed before. */
  ghost predicate IssuedFrom(db: Db, serial: nat, b: Batch, lib: Library) {
    && b.serial == serial + |b.certs|
    && |b.certs| <= b.total
    && b.db.unique == db.unique
    && b.db.rows == db.rows + RowsFor(b.certs, lib)
    && (forall i :: 0 <= i < |b.certs| ==> b.certs[i].serial == serial + i)
    && (forall i :: 0 <= i < |b.certs| ==> FindRow(db.rows, Key(SerialText(b.certs[i].serial))).None?)
  }

  predicate JobTimes(jobs: seq<Job>, lib: Library) {
    forall i :: 0 <= i < |jobs| ==> lib.isTime(jobs[i].req.notAfter)
  }

  lemma {:induction false} AbsentBefore(a: seq<Row>, b: seq<Row>, key: string)
    requires FindRow(a + b, key).None?
    ensures FindRow(a, key).None?
  {
    assert forall i :: 0 <= i < |a| ==> (a + b)[i] == a[i];
  }

  /** What one attempt can do, without its reasons. */
  ghost predicate AttemptEffect(db: Db, serial: int, db': Db, out: Issuance, lib: Library) {
    && (!out.Issued? ==> db' == db)
    && (out.Issued? ==>
        && db'.unique == db.unique
        && db'.rows == db.rows + [RowFor(out.cert, lib)]
        && out.cert.serial == serial
        && FindRow(db.rows, Key(SerialText(serial))).None?)
    && (out.SerialClash? ==> FindRow(db.rows, Key(SerialText(serial))).Some?)
  }

  lemma {:induction false} AttemptHas(db: Db, serial: int, job: Job, lib: Library)
    requires Sane(lib) && Consistent(db, lib) && lib.isTime(job.req.notAfter)
    ensures var (db', out) := Attempt(db, serial, job, lib);
      Consistent(db', lib) && AttemptEffect(db, serial, db', out, lib)
  {
    var (db', out) := Attempt(db, serial, job, lib);
    if job.intake.Accepted? {
      IssueHas(db, job.cfg, job.req, serial, db', out, lib);
    }
  }

  lemma {:induction false} IssueHas(db: Db, cfg: Config, req: Request, serial: int, db': Db, out: Issuance, lib: Library)
    requires Sane(lib) && Consistent(db, lib) && lib.isTime(req.notAfter)
    requires (db', out) == Issue(db, cfg, req, serial, lib)
    ensures Consistent(db', lib) && AttemptEffect(db, serial, db', out, lib)
  {
    IssueKeeps(db, cfg, req, serial, lib);
    assert RowFor(Cert(serial, SubjectFor(cfg, req, lib), req.notAfter), lib).serial == SerialText(serial);
  }

  lemma {:induction false} RowsForAppend(rows: seq<Row>, certs: seq<Cert>, c: Cert, lib: Library)
    ensures rows + RowsFor(certs + [c], lib) == rows + RowsFor(certs, lib) + [RowFor(c, lib)]
  {
    assert RowsFor(certs + [c], lib) == RowsFor(certs, lib) + [RowFor(c, lib)];
  }

  lemma {:induction false} AfterIssues(db: Db, serial: nat, b: Batch, db': Db, out: Issuance, lib: Library)
    requires IssuedFrom(db, serial, b, lib) && AttemptEffect(b.db, b.serial, db', out, lib)
    ensures IssuedFrom(db, serial, After(b, db', out), lib)
  {
    if out.Issued? {
      AbsentBefore(db.rows, RowsFor(b.certs, lib), Key(SerialText(b.serial)));
      RowsForAppend(db.rows, b.certs, out.cert, lib);
      SerialsGoOn(db, serial, b.certs, out.cert);
    }
  }

  lemma {:induction false} SerialsGoOn(db: Db, serial: nat, certs: seq<Cert>, c: Cert)
    requires forall i :: 0 <= i < |certs| ==> certs[i].serial == serial + i
    requires forall i :: 0 <= i < |certs| ==> FindRow(db.rows, Key(SerialText(certs[i].serial))).None?
    requires c.serial == serial + |certs| && FindRow(db.rows, Key(SerialText(c.serial))).None?
    ensures var all := certs + [c];
      && (forall i :: 0 <= i < |all| ==> all[i].serial == serial + i)
      && (forall i :: 0 <= i < |all| ==> FindRow(db.rows, Key(SerialText(all[i].serial))).None?)
  {}

  lemma {:induction false} CertifyIssues(db: Db, serial: nat, b: Batch, job: Job, lib: Library)
    requires Sane(lib) && Consistent(b.db, lib) && IssuedFrom(db, serial, b, lib)
    requires lib.isTime(job.req.notAfter)
    ensures var b' := Certify(b, job, lib); Consistent(b'.db, lib) && IssuedFrom(db, serial, b', lib)
  {
    if b.stopped.None? {
      var (db', out) := Attempt(b.db, b.serial, job, lib);
      AttemptHas(b.db, b.serial, job, lib);
      AfterIssues(db, serial, b, db', out, lib);
    }
  }

  /**
   * However the loop ends, its k successes took exactly the serials s0 .. s0+k-1, each absent
   * from the database before, and the next serial is s0+k.
   */
  lemma {:induction false} BatchIssues(db: Db, serial: nat, jobs: seq<Job>, lib: Library)
    requires Sane(lib) && Consistent(db, lib) && JobTimes(jobs, lib)
    ensures var b := CertifyAll(Start(db, serial), jobs, lib);
      Consistent(b.db, lib) && IssuedFrom(db, serial, b, lib)
    decreases |jobs|
  {
    if jobs == [] {
      assert RowsFor([], lib) == [] && db.rows + [] == db.rows;
    } else {
      var n := |jobs| - 1;
      BatchIssues(db, serial, jobs[..n], lib);
      CertifyIssues(db, serial, CertifyAll(Start(db, serial), jobs[..n], lib), jobs[n], lib);
    }
  }

  /** A loop that is not stopped has tried every request. */
  lemma {:induction false} BatchTotal(b: Batch, jobs: seq<Job>, lib: Library)
    ensures CertifyAll(b, jobs, lib).total <= b.total + |jobs|
    ensures CertifyAll(b, jobs, lib).stopped.None? ==> CertifyAll(b, jobs, lib).total == b.total + |jobs|
    decreases |jobs|
  {
    if jobs != [] {
      BatchTotal(b, jobs[..|jobs| - 1], lib);
    }
  }

  /** The certificates among the outcomes, in order. */
  function CertsOf(outs: seq<Issuance>): seq<Cert> {
    if outs == [] then []
    else CertsOf(outs[..|outs| - 1]) + if outs[|outs| - 1].Issued? then [outs[|outs| - 1].cert] else []
  }

  predicate GoesOn(out: Issuance) {
    out.Issued? || out.Declined?
  }

  /** What became of request j: tried with the database and the serial number that those before it left. */
  ghost predicate TriedInTurn(outs: seq<Issuance>, j: nat, db: Db, serial: nat, jobs: seq<Job>, lib: Library)
    requires j < |outs| <= |jobs|
  {
    var before := CertifyAll(Start(db, serial), jobs[..j], lib);
    && before.certs == CertsOf(outs[..j]) && before.serial == serial + |before.certs|
    && (jobs[j].intake.Unreadable? ==> outs[j].BadRequest?)
    && (jobs[j].intake.BadSignature? ==> outs[j].Declined?)
    && (jobs[j].intake.Accepted? ==> outs[j] == Issue(before.db, jobs[j].cfg, jobs[j].req, before.serial, lib).1)
  }

  ghost predicate AllTried(outs: seq<Issuance>, db: Db, serial: nat, jobs: seq<Job>, lib: Library) {
    |outs| <= |jobs| && forall j :: 0 <= j < |outs| ==> TriedInTurn(outs, j, db, serial, jobs, lib)
  }

  /** The loop goes on past what was issued or declined and stops at the first other outcome, which it reports. */
  predicate StoppedAt(outs: seq<Issuance>, b: Batch, n: nat) {
    && |outs| == b.total <= n
    && (forall j :: 0 <= j < |outs| - 1 ==> GoesOn(outs[j]))
    && (b.stopped.None? <==> |outs| == n && (outs == [] || GoesOn(outs[|outs| - 1])))
    && (b.stopped.Some? ==> outs != [] && outs[|outs| - 1] == b.stopped.value && !GoesOn(b.stopped.value))
  }

  /** The outcomes of a batch, request by request and in order. */
  ghost predicate OutcomesAre(outs: seq<Issuance>, b: Batch, db: Db, serial: nat, jobs: seq<Job>, lib: Library) {
    && AllTried(outs, db, serial, jobs, lib)
    && StoppedAt(outs, b, |jobs|)
    && b.certs == CertsOf(outs) && b.serial == serial + |b.certs|
  }

  lemma {:induction false} BatchOutcomes(db: Db, serial: nat, jobs: seq<Job>, lib: Library) returns (outs: seq<Issuance>)
    ensures OutcomesAre(outs, CertifyAll(Start(db, serial), jobs, lib), db, serial, jobs, lib)
    decreases |jobs|
  {
    outs := [];
    if jobs != [] {
      var n := |jobs| - 1;
      var b := CertifyAll(Start(db, serial), jobs[..n], lib);
      outs := BatchOutcomes(db, serial, jobs[..n], lib);
      MoreJobs(outs, db, serial, jobs, lib);
      if b.stopped.None? {
        var (db', out) := Attempt(b.db, b.serial, jobs[n], lib);
        LastTried(outs, out, b, db, serial, jobs, lib);
        OneMoreOutcome(outs, out, b, db', n);
        outs := outs + [out];
      }
    }
  }

  /** Later requests do not change what became of earlier ones. */
  lemma {:induction false} MoreJobs(outs: seq<Issuance>, db: Db, serial: nat, jobs: seq<Job>, lib: Library)
    requires jobs != [] && AllTried(outs, db, serial, jobs[..|jobs| - 1], lib)
    ensures AllTried(outs, db, serial, jobs, lib)
  {
    var init := jobs[..|jobs| - 1];
    forall j | 0 <= j < |outs| ensures TriedInTurn(outs, j, db, serial, jobs, lib) {
      assert init[..j] == jobs[..j] && init[j] == jobs[j];
      assert TriedInTurn(outs, j, db, serial, init, lib);
    }
  }

  lemma {:induction false} LastTried(outs: seq<Issuance>, out: Issuance, b: Batch, db: Db, serial: nat, jobs: seq<Job>, lib: Library)
    requires jobs != [] && |outs| == |jobs| - 1 && AllTried(outs, db, serial, jobs, lib)
    requires b == CertifyAll(Start(db, serial), jobs[..|jobs| - 1], lib)
    requires b.certs == CertsOf(outs) && b.serial == serial + |b.certs|
    requires out == Attempt(b.db, b.serial, jobs[|jobs| - 1], lib).1
    ensures AllTried(outs + [out], db, serial, jobs, lib)
  {
    var all, n := outs + [out], |jobs| - 1;
    forall j | 0 <= j < |all| ensures TriedInTurn(all, j, db, serial, jobs, lib) {
      assert all[..j] == outs[..j];
      if j < n {
        assert TriedInTurn(outs, j, db, serial, jobs, lib) && all[j] == outs[j];
      } else {
        assert outs[..n] == outs && all[n] == out;
      }
    }
  }

  lemma {:induction false} OneMoreOutcome(outs: seq<Issuance>, out: Issuance, b: Batch, db': Db, n: nat)
    requires StoppedAt(outs, b, n) && b.stopped.None? && b.certs == CertsOf(outs)
    ensures var b' := After(b, db', out);
      && StoppedAt(outs + [out], b', n + 1) && b'.certs == CertsOf(outs + [out])
      && b'.serial - |b'.certs| == b.serial - |b.certs|
  {
    var all := outs + [out];
    assert all[..n] == outs;
    AfterIs(b, db', out);
    forall j | 0 <= j < n ensures GoesOn(all[j]) {
      assert all[j] == outs[j];
    }
  }

  lemma {:induction false} AfterIs(b: Batch, db': Db, out: Issuance)
    requires b.stopped.None?
    ensures var b' := After(b, db', out);
      && b'.total == b.total + 1
      && b'.certs == b.certs + (if out.Issued? then [out.cert] else [])
      && b'.serial == b.serial + (if out.Issued? then 1 else 0)
      && b'.stopped == if GoesOn(out) then None else Some(out)
  {
    assert b.certs + [] == b.certs;
  }

  // ------------------------------------------------------------------------
  // When the serial number is ahead of the database

  /** Every listed serial number is below s. */
  predicate Below(rows: seq<Row>, s: int) {
    forall i :: 0 <= i < |rows| ==> HexToBn(rows[i].serial).Some? && HexToBn(rows[i].serial).value < s
  }

  predicate SerialsOk(rows: seq<Row>) {
    forall i :: 0 <= i < |rows| ==> SerialOk(rows[i].serial)
  }

  lemma {:induction false} BelowNeverClashes(rows: seq<Row>, s: int)
    requires Below(rows, s) && SerialsOk(rows)
    ensures FindRow(rows, Key(SerialText(s))).None?
  {
    var r := FindRow(rows, Key(SerialText(s)));
    if r.Some? {
      SerialTextOk(s);
      KeyDeterminesValue(rows[r.value].serial, SerialText(s));
      SerialRoundTrip(s);
    }
  }

  lemma {:induction false} AfterStaysAhead(b: Batch, db': Db, out: Issuance, lib: Library)
    requires SerialsOk(b.db.rows) && Below(b.db.rows, b.serial) && b.stopped.None?
    requires AttemptEffect(b.db, b.serial, db', out, lib)
    ensures var b' := After(b, db', out); Below(b'.db.rows, b'.serial) && b'.stopped != Some(SerialClash)
  {
    BelowNeverClashes(b.db.rows, b.serial);
    if out.Issued? {
      SerialRoundTrip(b.serial);
      BelowAppend(b.db.rows, RowFor(out.cert, lib), b.serial);
    }
  }

  lemma {:induction false} BelowAppend(rows: seq<Row>, r: Row, s: nat)
    requires Below(rows, s) && HexToBn(r.serial) == Some(s)
    ensures Below(rows + [r], s + 1)
  {}

  /** A batch that starts ahead of the database stays ahead and never meets a listed serial. */
  lemma {:induction false} AheadStaysAhead(db: Db, serial: nat, jobs: seq<Job>, lib: Library)
    requires Sane(lib) && Consistent(db, lib) && JobTimes(jobs, lib) && Below(db.rows, serial)
    ensures var b := CertifyAll(Start(db, serial), jobs, lib);
      Below(b.db.rows, b.serial) && b.stopped != Some(SerialClash)
    decreases |jobs|
  {
    if jobs != [] {
      var n := |jobs| - 1;
      var b := CertifyAll(Start(db, serial), jobs[..n], lib);
      AheadStaysAhead(db, serial, jobs[..n], lib);
      BatchIssues(db, serial, jobs[..n], lib);
      if b.stopped.None? {
        var (db', out) := Attempt(b.db, b.serial, jobs[n], lib);
        AttemptHas(b.db, b.serial, jobs[n], lib);
        assert SerialsOk(b.db.rows) by {
          assert forall i :: 0 <= i < |b.db.rows| ==> RowOk(b.db.rows[i], lib);
        }
        AfterStaysAhead(b, db', out, lib);
      }
    }
  }

  // ------------------------------------------------------------------------
  // The loop itself

  /** certify, certify_cert or certify_spkac on one request. */
  method AttemptJob(db: Database, serial: int, job: Job, lib: Library) returns (out: Issuance)
    requires db.Valid()
    modifies db
    ensures db.Valid()
    ensures (db.View(), out) == Attempt(old(db.View()), serial, job, lib)
  {
    match job.intake {
      case Unreadable => out := BadRequest;
      case BadSignature => out := Declined;
      case Accepted => out := db.IssueCert(job.cfg, job.req, serial, lib);
    }
  }

  /** The loop body the four kinds of request share. */
  method CertifyOne(db: Database, serial: nat, certs: seq<Cert>, total: nat, job: Job, lib: Library)
    returns (serial': nat, certs': seq<Cert>, total': nat, stopped: Option<Issuance>)
    requires db.Valid()
    modifies db
    ensures db.Valid()
    ensures Batch(db.View(), serial', certs', total', stopped)
         == Certify(Batch(old(db.View()), serial, certs, total, None), job, lib)
  {
    var out := AttemptJob(db, serial, job, lib);
    serial', certs', total', stopped := serial, certs, total + 1, None;
    if out.Issued? {
      serial', certs' := serial + 1, certs + [out.cert];
    } else if !out.Declined? {
      stopped := Some(out);
    }
    assert Batch(db.View(), serial', certs', total', stopped)
        == After(Batch(old(db.View()), serial, certs, total, None), db.View(), out);
  }

  function Jobs(first: Option<Job>): seq<Job> {
    match first case None => [] case Some(j) => [j]
  }

  lemma {:induction false} OneMore(b: Batch, jobs: seq<Job>, i: nat, lib: Library)
    requires i < |jobs|
    ensures CertifyAll(b, jobs[..i + 1], lib) == Certify(CertifyAll(b, jobs[..i], lib), jobs[i], lib)
  {
    assert jobs[..i + 1][..i] == jobs[..i];
  }

  /** ca_main certifying every request it was given, in its fixed order. */
  method CertifyRequests(db: Database, serial: nat, spkac: Option<Job>, ssCert: Option<Job>, infile: Option<Job>,
                         rest: seq<Job>, lib: Library)
    returns (serial': nat, certs: seq<Cert>, total: nat, stopped: Option<Issuance>)
    requires db.Valid()
    modifies db
    ensures db.Valid()
    ensures Batch(db.View(), serial', certs, total, stopped)
         == CertifyAll(Start(old(db.View()), serial), Jobs(spkac) + Jobs(ssCert) + Jobs(infile) + rest, lib)
  {
    serial', certs, total, stopped := CertifyList(db, serial, Jobs(spkac) + Jobs(ssCert) + Jobs(infile) + rest, lib);
  }

  method CertifyList(db: Database, serial: nat, jobs: seq<Job>, lib: Library)
    returns (serial': nat, certs: seq<Cert>, total: nat, stopped: Option<Issuance>)
    requires db.Valid()
    modifies db
    ensures db.Valid()
    ensures Batch(db.View(), serial', certs, total, stopped) == CertifyAll(Start(old(db.View()), serial), jobs, lib)
  {
    ghost var b0 := Start(db.View(), serial);
    serial', certs, total, stopped := serial, [], 0, None;
    var i := 0;
    while i < |jobs| && stopped.None?
      invariant 0 <= i <= |jobs| && db.Valid()
      invariant Batch(db.View(), serial', certs, total, stopped) == CertifyAll(b0, jobs[..i], lib)
    {
      OneMore(b0, jobs, i, lib);
      serial', certs, total, stopped := CertifyOne(db, serial', certs, total, jobs[i], lib);
      i := i + 1;
    }
    StoppedOrDone(b0, jobs, i, lib);
  }

  lemma {:induction false} StoppedOrDone(b: Batch, jobs: seq<Job>, i: nat, lib: Library)
    requires i <= |jobs| && (i == |jobs| || CertifyAll(b, jobs[..i], lib).stopped.Some?)
    ensures CertifyAll(b, jobs, lib) == CertifyAll(b, jobs[..i], lib)
  {
    if i < |jobs| {
      StoppedForGood(b, jobs, i, lib);
    } else {
      assert jobs[..i] == jobs;
    }
  }

  lemma {:induction false} StoppedForGood(b: Batch, jobs: seq<Job>, i: nat, lib: Library)
    requires i <= |jobs| && CertifyAll(b, jobs[..i], lib).stopped.Some?
    ensures CertifyAll(b, jobs, lib) == CertifyAll(b, jobs[..i], lib)
    decreases |jobs|
  {
    if i == |jobs| {
      assert jobs[..i] == jobs;
    } else {
      var n := |jobs| - 1;
      assert jobs[..n][..i] == jobs[..i];
      StoppedForGood(b, jobs[..n], i, lib);
    }
  }
}
