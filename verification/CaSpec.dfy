// The certificate authority's database in tongsuo/apps/ca.c, on values: its rows, what
// issuing, revoking and expiring do to them, and what every run of those steps keeps.
module CaSpec {
  import opened Wrappers
  import opened Bytes
  import opened Hex
  import opened Serial
  import Policy
  import RevInfo
  import TxtDb

  const DB_NUMBER := 6
  const REVOKED := 'R'
  const EXPIRED := 'E'
  const VALID := 'V'

  /** The six columns of the index file; an absent revocation date is the empty string. */
  datatype Row = Row(typ: string, expiry: string, revocation: string, serial: string, file: string, name: string)

  function Kind(r: Row): char {
    if r.typ == "" then '\0' else r.typ[0]
  }

  function ToRecord(r: Row): (rec: TxtDb.Record)
    ensures |rec| == DB_NUMBER
  {
    [r.typ, r.expiry, r.revocation, r.serial, r.file, r.name]
  }

  function FromRecord(rec: TxtDb.Record): Row
    requires |rec| == DB_NUMBER
  {
    Row(rec[0], rec[1], rec[2], rec[3], rec[4], rec[5])
  }

  /** Library calls the database rests on: time, identifier and name syntax. */
  datatype Library = Library(
    syn: RevInfo.Syntax,
    isTime: string -> bool,
    objects: Policy.Objects,
    oneline: Policy.Name -> string)

  predicate Plain(s: string) {
    TxtDb.NL !in s && !TxtDb.EndsInBackslash(s)
  }

  /** Times and identifiers hold no newline, comma or closing backslash; printed names no newline. */
  ghost predicate Sane(lib: Library) {
    && (forall s :: lib.syn.isUtcTime(s) ==> Plain(s) && ',' !in s)
    && (forall s :: lib.syn.isGeneralizedTime(s) ==> Plain(s))
    && (forall s :: lib.syn.isOid(s) ==> Plain(s))
    && (forall s :: lib.isTime(s) ==> Plain(s))
    && (forall n :: TxtDb.NL !in lib.oneline(n))
  }

  // ------------------------------------------------------------------------
  // The load check

  predicate RowOk(r: Row, lib: Library) {
    && (Kind(r) != REVOKED ==> r.revocation == "")
    && (Kind(r) == REVOKED ==> RevInfo.MakeRevoked(r.revocation, lib.syn) != 0)
    && lib.isTime(r.expiry)
    && SerialOk(r.serial)
  }

  predicate AllOk(rows: seq<Row>, lib: Library) {
    forall i :: 0 <= i < |rows| ==> RowOk(rows[i], lib)
  }

  /** No two rows share a serial number. */
  predicate DistinctSerials(rows: seq<Row>) {
    forall i, j :: 0 <= i < j < |rows| ==> Key(rows[i].serial) != Key(rows[j].serial)
  }

  /** No two valid rows share a name. */
  predicate DistinctNames(rows: seq<Row>) {
    forall i, j :: 0 <= i < j < |rows| && Kind(rows[i]) == VALID && Kind(rows[j]) == VALID ==>
      rows[i].name != rows[j].name
  }

  function ValidNames(rows: seq<Row>): set<string> {
    set i | 0 <= i < |rows| && Kind(rows[i]) == VALID :: rows[i].name
  }

  // ------------------------------------------------------------------------
  // Lookup and insertion

  /** The loaded database: rows, whether names must be unique, and the names indexed so far. */
  datatype Db = Db(rows: seq<Row>, unique: bool, named: set<string>)

  function FindRow(rows: seq<Row>, key: string): (r: Option<nat>)
    ensures r.Some? ==> r.value < |rows| && Key(rows[r.value].serial) == key
    ensures r.None? ==> forall i :: 0 <= i < |rows| ==> Key(rows[i].serial) != key
  {
    if rows == [] then None
    else
      var last := |rows| - 1;
      if Key(rows[last].serial) == key then Some(last) else FindRow(rows[..last], key)
  }

  predicate NameTaken(db: Db, row: Row) {
    db.unique && Kind(row) == VALID && row.name in db.named
  }

  /** TXT_DB_insert: refused on a clash in the serial index or, for valid rows, the name index. */
  function Insert(db: Db, row: Row): Option<Db> {
    if FindRow(db.rows, Key(row.serial)).Some? || NameTaken(db, row) then None
    else
      var named := if db.unique && Kind(row) == VALID then db.named + {row.name} else db.named;
      Some(Db(db.rows + [row], db.unique, named))
  }

  // ------------------------------------------------------------------------
  // Issuing

  /** The parts of a certificate the database looks at. */
  datatype Cert = Cert(serial: int, subject: Policy.Name, notAfter: string)

  /** The row a certificate gets; an empty subject is filed under the serial number. */
  function RowFor(c: Cert, lib: Library): Row {
    var serial := SerialText(c.serial);
    var name := lib.oneline(c.subject);
    Row("V", c.notAfter, "", serial, "unknown", if name == "" then serial else name)
  }

  datatype Config = Config(policy: seq<Policy.Item>, caName: Policy.Name, selfSign: bool, preserve: bool, emailDn: bool)

  /**
   * A certificate request: its subject, the expiry the certificate will get, and how the
   * checks outside this model turn out (field types and extensions, the operator's
   * answer, the signature).
   */
  datatype Request = Request(name: Policy.Name, notAfter: string, wellFormed: bool, confirmed: bool, signed: bool)

  predicate PolicyAccepts(cfg: Config, req: Request, lib: Library) {
    var ca := if cfg.selfSign then req.name else cfg.caName;
    forall i :: 0 <= i < |cfg.policy| ==> Policy.Verdict(cfg.policy[i], req.name, ca, lib.objects).None?
  }

  function SubjectFor(cfg: Config, req: Request, lib: Library): Policy.Name {
    var subject := if cfg.preserve then req.name else Policy.Selected(cfg.policy, req.name, lib.objects);
    if cfg.emailDn then subject else Policy.NotOfType(subject, Policy.NID_EMAIL)
  }

  datatype Issuance = BadRequest | NameClash | SerialClash | Declined | NotSigned | Issued(cert: Cert)

  function Issue(db: Db, cfg: Config, req: Request, serial: int, lib: Library): (Db, Issuance) {
    if !req.wellFormed || !PolicyAccepts(cfg, req, lib) then (db, BadRequest)
    else
      var cert := Cert(serial, SubjectFor(cfg, req, lib), req.notAfter);
      var row := RowFor(cert, lib);
      if NameTaken(db, row) then (db, NameClash)
      else if FindRow(db.rows, Key(row.serial)).Some? then (db, SerialClash)
      else if !req.confirmed then (db, Declined)
      else if !req.signed then (db, NotSigned)
      else match Insert(db, row)
        case None => (db, SerialClash)
        case Some(db') => (db', Issued(cert))
  }

  // ------------------------------------------------------------------------
  // Revoking and expiring

  /** Revocation of a row that is in the database. */
  function RevokeRow(db: Db, i: nat, name: string, ask: RevInfo.Ask, now: string, lib: Library): (Db, bool)
    requires i < |db.rows|
  {
    var r := db.rows[i];
    if r.name != name || ask.Valid? || Kind(r) == REVOKED then (db, false)
    else match RevInfo.Text(ask, now, lib.syn)
      case None => (db, false)
      case Some(text) => (db.(rows := db.rows[i := r.(typ := "R", revocation := text)]), true)
  }

  /** do_revoke: an unlisted certificate is first added as valid, then looked up once more. */
  function Revoke(db: Db, c: Cert, ask: RevInfo.Ask, now: string, lib: Library): (Db, bool) {
    var row := RowFor(c, lib);
    match FindRow(db.rows, Key(row.serial))
    case Some(i) => RevokeRow(db, i, row.name, ask, now, lib)
    case None =>
      match Insert(db, row)
      case None => (db, false)
      case Some(db1) =>
        if ask.Valid? then (db1, true) else RevokeRow(db1, |db.rows|, row.name, ask, now, lib)
  }

  function ExpireRow(r: Row, past: string -> bool): Row {
    if Kind(r) == VALID && past(r.expiry) then r.(typ := "E") else r
  }

  function Expire(rows: seq<Row>, past: string -> bool): seq<Row> {
    seq(|rows|, i requires 0 <= i < |rows| => ExpireRow(rows[i], past))
  }

  // ------------------------------------------------------------------------
  // What may happen to a row

  /** Expiry of a valid row, revocation of one not yet revoked, or nothing. */
  predicate RowEvolves(a: Row, b: Row) {
    || a == b
    || (Kind(a) == VALID && b == a.(typ := "E"))
    || (Kind(a) != REVOKED && Kind(b) == REVOKED && b == a.(typ := "R", revocation := b.revocation))
  }

  predicate Evolves(rows: seq<Row>, rows': seq<Row>) {
    && |rows| <= |rows'|
    && forall i :: 0 <= i < |rows| ==> RowEvolves(rows[i], rows'[i])
  }

  lemma {:induction false} EvolvesTransitive(a: seq<Row>, b: seq<Row>, c: seq<Row>)
    requires Evolves(a, b) && Evolves(b, c)
    ensures Evolves(a, c)
  {
    forall i | 0 <= i < |a| ensures RowEvolves(a[i], c[i]) {
      assert RowEvolves(a[i], b[i]) && RowEvolves(b[i], c[i]);
    }
  }

  /** A revoked row is final: type and revocation text included. */
  lemma {:induction false} RevokedIsFinal(a: seq<Row>, b: seq<Row>, i: nat)
    requires Evolves(a, b) && i < |a| && Kind(a[i]) == REVOKED
    ensures b[i] == a[i]
  {
    assert RowEvolves(a[i], b[i]);
  }

  // ------------------------------------------------------------------------
  // The invariant of the database

  ghost predicate AllStorable(rows: seq<Row>) {
    forall i :: 0 <= i < |rows| ==> TxtDb.Storable(ToRecord(rows[i]))
  }

  ghost predicate Consistent(db: Db, lib: Library) {
    && AllOk(db.rows, lib)
    && AllStorable(db.rows)
    && DistinctSerials(db.rows)
    && (db.unique ==> DistinctNames(db.rows) && ValidNames(db.rows) <= db.named)
  }

  lemma {:induction false} FreshRowOk(c: Cert, lib: Library)
    requires Sane(lib) && lib.isTime(c.notAfter)
    ensures RowOk(RowFor(c, lib), lib) && TxtDb.Storable(ToRecord(RowFor(c, lib)))
  {
    SerialTextOk(c.serial);
    FreshFieldsOk(SerialText(c.serial), lib.oneline(c.subject), c.notAfter, lib);
  }

  lemma {:induction false} FreshFieldsOk(serial: string, name: string, notAfter: string, lib: Library)
    requires SerialOk(serial) && lib.isTime(notAfter) && Plain(notAfter) && TxtDb.NL !in name
    ensures var r := Row("V", notAfter, "", serial, "unknown", if name == "" then serial else name);
      RowOk(r, lib) && TxtDb.Storable(ToRecord(r))
  {
    SerialTextPlain(serial);
    StorableFields(Row("V", notAfter, "", serial, "unknown", if name == "" then serial else name));
  }

  lemma {:induction false} SerialTextPlain(t: string)
    requires SerialOk(t)
    ensures Plain(t)
  {
    assert forall i :: 0 <= i < |t| ==> t[i] == '-' || IsHex(t[i]) by {
      if t[0] == '-' {
        assert t == ['-'] + t[1..];
      }
    }
  }

  lemma {:induction false} InsertKeeps(db: Db, row: Row, lib: Library)
    requires Consistent(db, lib) && RowOk(row, lib) && TxtDb.Storable(ToRecord(row))
    requires Insert(db, row).Some?
    ensures Consistent(Insert(db, row).value, lib)
    ensures Evolves(db.rows, Insert(db, row).value.rows)
  {
    var rows := db.rows + [row];
    assert AllOk(rows, lib) && AllStorable(rows);
    assert DistinctSerials(rows);
    if db.unique {
      NamesAfterInsert(db, row);
    }
  }

  lemma {:induction false} NamesAfterInsert(db: Db, row: Row)
    requires db.unique && DistinctNames(db.rows) && ValidNames(db.rows) <= db.named
    requires Insert(db, row).Some?
    ensures var db' := Insert(db, row).value; DistinctNames(db'.rows) && ValidNames(db'.rows) <= db'.named
  {
    assert forall i :: 0 <= i < |db.rows| && Kind(db.rows[i]) == VALID ==> db.rows[i].name in ValidNames(db.rows);
  }

  lemma {:induction false} ReplaceKeeps(db: Db, rows: seq<Row>, lib: Library)
    requires Consistent(db, lib)
    requires |rows| == |db.rows|
    requires AllOk(rows, lib) && AllStorable(rows)
    requires forall i :: 0 <= i < |rows| ==> RowEvolves(db.rows[i], rows[i])
    ensures Consistent(db.(rows := rows), lib)
  {
    assert forall i :: 0 <= i < |rows| ==> rows[i].serial == db.rows[i].serial && rows[i].name == db.rows[i].name;
    assert forall i :: 0 <= i < |rows| && Kind(rows[i]) == VALID ==> Kind(db.rows[i]) == VALID;
    if db.unique {
      forall n | n in ValidNames(rows) ensures n in db.named {
        var i :| 0 <= i < |rows| && Kind(rows[i]) == VALID && rows[i].name == n;
        assert db.rows[i].name in ValidNames(db.rows);
      }
    }
  }

  lemma {:induction false} TextPlain(ask: RevInfo.Ask, now: string, lib: Library)
    requires Sane(lib) && lib.syn.isUtcTime(now)
    requires RevInfo.Text(ask, now, lib.syn).Some?
    ensures Plain(RevInfo.Text(ask, now, lib.syn).value)
  {
    match ask {
      case NoInfo =>
      case Valid =>
      case CrlReason(arg) =>
        ReasonsPlain(RevInfo.FindReason(arg, 8));
        JoinedPlain(now, RevInfo.REASONS[RevInfo.FindReason(arg, 8)], None);
      case Hold(arg) => JoinedPlain(now, "holdInstruction", Some(arg));
      case KeyCompromise(arg) => JoinedPlain(now, "keyTime", Some(arg));
      case CaCompromise(arg) => JoinedPlain(now, "CAkeyTime", Some(arg));
    }
  }

  lemma {:induction false} JoinedPlain(now: string, reason: string, other: Option<string>)
    requires Plain(now) && Plain(reason) && reason != "" && (other.Some? ==> Plain(other.value))
    ensures Plain(RevInfo.Joined(now, Some(reason), other))
  {
    var rest := reason + RevInfo.WithComma(other);
    assert Plain(rest) by {
      match other {
        case None => assert rest == reason;
        case Some(o) =>
          PlainAppend(",", o);
          PlainAppend(reason, "," + o);
      }
    }
    PlainAppend(",", rest);
    PlainAppend(now, "," + rest);
  }

  lemma {:induction false} PlainAppend(a: string, b: string)
    requires Plain(a) && Plain(b)
    ensures Plain(a + b)
  {
    assert b == "" ==> a + b == a;
  }

  lemma {:induction false} ReasonsPlain(i: nat)
    requires i < |RevInfo.REASONS|
    ensures Plain(RevInfo.REASONS[i]) && RevInfo.REASONS[i] != ""
  {}

  lemma {:induction false} RevokeRowKeeps(db: Db, i: nat, name: string, ask: RevInfo.Ask, now: string, lib: Library)
    requires Sane(lib) && Consistent(db, lib) && i < |db.rows| && (ask.Valid? || lib.syn.isUtcTime(now))
    ensures var db' := RevokeRow(db, i, name, ask, now, lib).0;
      Consistent(db', lib) && Evolves(db.rows, db'.rows) && |db'.rows| == |db.rows|
  {
    var (db', ok) := RevokeRow(db, i, name, ask, now, lib);
    if ok {
      var text := RevInfo.Text(ask, now, lib.syn).value;
      RevInfo.TextRoundTrip(ask, now, lib.syn);
      TextPlain(ask, now, lib);
      ReplaceOneKeeps(db, i, text, lib);
    }
  }

  lemma {:induction false} ReplaceOneKeeps(db: Db, i: nat, text: string, lib: Library)
    requires Consistent(db, lib) && i < |db.rows| && Kind(db.rows[i]) != REVOKED
    requires Plain(text) && RevInfo.MakeRevoked(text, lib.syn) != 0
    ensures var rows := db.rows[i := db.rows[i].(typ := "R", revocation := text)];
      Consistent(db.(rows := rows), lib) && Evolves(db.rows, rows)
  {
    var r := db.rows[i];
    var r' := r.(typ := "R", revocation := text);
    RevokedRowOk(r, text, lib);
    var rows := db.rows[i := r'];
    assert AllOk(rows, lib) && AllStorable(rows);
    ReplaceKeeps(db, rows, lib);
  }

  lemma {:induction false} RevokedRowOk(r: Row, text: string, lib: Library)
    requires RowOk(r, lib) && TxtDb.Storable(ToRecord(r))
    requires Plain(text) && RevInfo.MakeRevoked(text, lib.syn) != 0
    ensures var r' := r.(typ := "R", revocation := text); RowOk(r', lib) && TxtDb.Storable(ToRecord(r'))
  {
    StorableFields(r);
    StorableFields(r.(typ := "R", revocation := text));
  }

  lemma {:induction false} StorableFields(r: Row)
    ensures TxtDb.Storable(ToRecord(r)) <==>
      && Plain(r.typ) && Plain(r.expiry) && Plain(r.revocation) && Plain(r.serial) && Plain(r.file)
      && TxtDb.NL !in r.name && Kind(r) != '#'
  {
    var rec := ToRecord(r);
    assert rec[0] == r.typ && rec[1] == r.expiry && rec[2] == r.revocation;
    assert rec[3] == r.serial && rec[4] == r.file && rec[5] == r.name;
  }

  lemma {:induction false} ExpireKeeps(db: Db, past: string -> bool, lib: Library)
    requires Consistent(db, lib)
    ensures Consistent(db.(rows := Expire(db.rows, past)), lib)
    ensures Evolves(db.rows, Expire(db.rows, past))
  {
    var rows := Expire(db.rows, past);
    forall i | 0 <= i < |rows|
      ensures RowOk(rows[i], lib) && TxtDb.Storable(ToRecord(rows[i]))
    {
      assert RowOk(db.rows[i], lib) && TxtDb.Storable(ToRecord(db.rows[i]));
      StorableFields(db.rows[i]);
      StorableFields(rows[i]);
    }
    ReplaceKeeps(db, rows, lib);
  }

  /** Exactly the valid rows past their time are marked, and only in their type; a second pass does nothing. */
  lemma {:induction false} ExpireIsComplete(rows: seq<Row>, past: string -> bool)
    ensures var rows' := Expire(rows, past);
      && |rows'| == |rows|
      && (forall i :: 0 <= i < |rows| ==>
          rows'[i] == if rows[i].typ != "" && rows[i].typ[0] == 'V' && past(rows[i].expiry) then rows[i].(typ := "E") else rows[i])
      && Expire(rows', past) == rows'
  {
    var rows' := Expire(rows, past);
    forall i | 0 <= i < |rows| ensures Expire(rows', past)[i] == rows'[i] {}
  }

  // ------------------------------------------------------------------------
  // Runs

  datatype Step =
    | DoIssue(cfg: Config, req: Request, serial: int)
    | DoRevoke(cert: Cert, ask: RevInfo.Ask, now: string)
    | DoExpire(past: string -> bool)

  function Apply(db: Db, step: Step, lib: Library): Db {
    match step
    case DoIssue(cfg, req, serial) => Issue(db, cfg, req, serial, lib).0
    case DoRevoke(cert, ask, now) => Revoke(db, cert, ask, now, lib).0
    case DoExpire(past) => db.(rows := Expire(db.rows, past))
  }

  function Run(db: Db, steps: seq<Step>, lib: Library): Db
    decreases |steps|
  {
    if steps == [] then db else Run(Apply(db, steps[0], lib), steps[1..], lib)
  }

  /**
   * The times a revocation puts into the database are readable: the clock's, if a row is marked,
   * and that of the certificate, if it gets a row of its own.
   */
  predicate RevokeTimes(db: Db, c: Cert, ask: RevInfo.Ask, now: string, lib: Library) {
    && (ask.Valid? || lib.syn.isUtcTime(now))
    && (FindRow(db.rows, Key(SerialText(c.serial))).Some? || lib.isTime(c.notAfter))
  }

  /** The times that a step puts into the database are readable. */
  predicate StepTimes(db: Db, step: Step, lib: Library) {
    match step
    case DoIssue(_, req, _) => lib.isTime(req.notAfter)
    case DoRevoke(cert, ask, now) => RevokeTimes(db, cert, ask, now, lib)
    case DoExpire(_) => true
  }

  predicate RunTimes(db: Db, steps: seq<Step>, lib: Library)
    decreases |steps|
  {
    steps == [] || (StepTimes(db, steps[0], lib) && RunTimes(Apply(db, steps[0], lib), steps[1..], lib))
  }

  lemma {:induction false} StepKeeps(db: Db, step: Step, lib: Library)
    requires Sane(lib) && Consistent(db, lib) && StepTimes(db, step, lib)
    ensures Consistent(Apply(db, step, lib), lib)
    ensures Evolves(db.rows, Apply(db, step, lib).rows)
  {
    match step {
      case DoIssue(cfg, req, serial) => IssueKeeps(db, cfg, req, serial, lib);
      case DoRevoke(cert, ask, now) => RevokeKeeps(db, cert, ask, now, lib);
      case DoExpire(past) => ExpireKeeps(db, past, lib);
    }
  }

  lemma {:induction false} IssueKeeps(db: Db, cfg: Config, req: Request, serial: int, lib: Library)
    requires Sane(lib) && Consistent(db, lib) && lib.isTime(req.notAfter)
    ensures var (db', out) := Issue(db, cfg, req, serial, lib);
      && Consistent(db', lib) && Evolves(db.rows, db'.rows)
      && (out.Issued? ==> db'.rows == db.rows + [RowFor(out.cert, lib)] && out.cert.serial == serial)
      && (!out.Issued? ==> db' == db)
  {
    var cert := Cert(serial, SubjectFor(cfg, req, lib), req.notAfter);
    FreshRowOk(cert, lib);
    if Insert(db, RowFor(cert, lib)).Some? {
      InsertKeeps(db, RowFor(cert, lib), lib);
    }
  }

  lemma {:induction false} RevokeKeeps(db: Db, c: Cert, ask: RevInfo.Ask, now: string, lib: Library)
    requires Sane(lib) && Consistent(db, lib) && RevokeTimes(db, c, ask, now, lib)
    ensures var db' := Revoke(db, c, ask, now, lib).0; Consistent(db', lib) && Evolves(db.rows, db'.rows)
  {
    var row := RowFor(c, lib);
    match FindRow(db.rows, Key(row.serial)) {
      case Some(i) => RevokeRowKeeps(db, i, row.name, ask, now, lib);
      case None =>
        FreshRowOk(c, lib);
        if Insert(db, row).Some? {
          var db1 := Insert(db, row).value;
          InsertKeeps(db, row, lib);
          RevokeRowKeeps(db1, |db.rows|, row.name, ask, now, lib);
          EvolvesTransitive(db.rows, db1.rows, RevokeRow(db1, |db.rows|, row.name, ask, now, lib).0.rows);
        }
    }
  }

  /**
   * Over every sequence of steps: rows only evolve (no row is lost, revoked is final, serial,
   * name and expiry never change), and the database stays one that the next load accepts.
   */
  lemma {:induction false} RunKeeps(db: Db, steps: seq<Step>, lib: Library)
    requires Sane(lib) && Consistent(db, lib) && RunTimes(db, steps, lib)
    ensures Consistent(Run(db, steps, lib), lib)
    ensures Evolves(db.rows, Run(db, steps, lib).rows)
    decreases |steps|
  {
    if steps != [] {
      var db1 := Apply(db, steps[0], lib);
      StepKeeps(db, steps[0], lib);
      RunKeeps(db1, steps[1..], lib);
      EvolvesTransitive(db.rows, db1.rows, Run(db1, steps[1..], lib).rows);
    }
  }

  lemma {:induction false} RunAppend(db: Db, a: seq<Step>, b: seq<Step>, lib: Library)
    ensures Run(db, a + b, lib) == Run(Run(db, a, lib), b, lib)
    decreases |a|
  {
    if a == [] {
      assert a + b == b;
    } else {
      assert (a + b)[0] == a[0] && (a + b)[1..] == a[1..] + b;
      RunAppend(Apply(db, a[0], lib), a[1..], b, lib);
    }
  }

  /**
   * The rows that a revocation leaves pass the next load if and only if the clock printed a
   * UTCTime and the certificate, if it was not listed, has a readable expiry. From 2050 on the
   * clock prints a GeneralizedTime, and an expiry is copied into the row unread.
   */
  lemma {:induction false} RevokedLoadsIff(db: Db, c: Cert, ask: RevInfo.Ask, now: string, lib: Library)
    requires AllOk(db.rows, lib) && ',' !in now
    requires Revoke(db, c, ask, now, lib).1
    ensures AllOk(Revoke(db, c, ask, now, lib).0.rows, lib) <==> RevokeTimes(db, c, ask, now, lib)
  {
    var row := RowFor(c, lib);
    SerialTextOk(c.serial);
    assert RowOk(row, lib) <==> lib.isTime(c.notAfter);
    match FindRow(db.rows, Key(row.serial)) {
      case Some(i) => MarkedLoadsIff(db, i, row.name, ask, now, lib);
      case None =>
        var db1 := Insert(db, row).value;
        assert AllOk(db1.rows, lib) <==> RowOk(row, lib) by {
          assert db1.rows[|db.rows|] == row;
        }
        if !ask.Valid? {
          MarkedLoadsIff(db1, |db.rows|, row.name, ask, now, lib);
        }
    }
  }

  lemma {:induction false} MarkedLoadsIff(db: Db, i: nat, name: string, ask: RevInfo.Ask, now: string, lib: Library)
    requires i < |db.rows| && ',' !in now && SerialOk(db.rows[i].serial)
    requires forall j :: 0 <= j < |db.rows| && j != i ==> RowOk(db.rows[j], lib)
    requires RevokeRow(db, i, name, ask, now, lib).1
    ensures AllOk(RevokeRow(db, i, name, ask, now, lib).0.rows, lib) <==>
      lib.syn.isUtcTime(now) && lib.isTime(db.rows[i].expiry)
  {
    var rows := RevokeRow(db, i, name, ask, now, lib).0.rows;
    RevInfo.TextRoundTrip(ask, now, lib.syn);
    assert RowOk(rows[i], lib) <==> lib.syn.isUtcTime(now) && lib.isTime(db.rows[i].expiry);
    assert forall j :: 0 <= j < |rows| && j != i ==> rows[j] == db.rows[j];
  }

  // ------------------------------------------------------------------------
  // Serial texts as this program writes them

  predicate Canonical(r: Row) {
    HexToBn(r.serial).Some? && r.serial == SerialText(HexToBn(r.serial).value)
  }

  predicate CanonicalFrom(rows: seq<Row>, from: nat) {
    forall i :: from <= i < |rows| ==> Canonical(rows[i])
  }

  lemma {:induction false} RowForCanonical(c: Cert, lib: Library)
    ensures Canonical(RowFor(c, lib))
  {
    SerialRoundTrip(c.serial);
  }

  lemma {:induction false} EvolvedCanonical(a: seq<Row>, b: seq<Row>, from: nat)
    requires Evolves(a, b) && CanonicalFrom(a, from) && CanonicalFrom(b, |a|)
    ensures CanonicalFrom(b, from)
  {
    forall i | from <= i < |a| ensures Canonical(b[i]) {
      assert RowEvolves(a[i], b[i]);
    }
  }

  /** A database that a step gives back: as it was, or with one more row of this serial text. */
  predicate OneRowMore(db: Db, db': Db, serial: string) {
    || |db'.rows| <= |db.rows|
    || (|db'.rows| == |db.rows| + 1 && db'.rows[|db.rows|].serial == serial)
  }

  lemma {:induction false} IssueAddsOne(db: Db, cfg: Config, req: Request, serial: int, lib: Library)
    ensures OneRowMore(db, Issue(db, cfg, req, serial, lib).0, SerialText(serial))
  {}

  lemma {:induction false} RevokeUnique(db: Db, c: Cert, ask: RevInfo.Ask, now: string, lib: Library)
    ensures Revoke(db, c, ask, now, lib).0.unique == db.unique
  {}

  lemma {:induction false} RevokeAddsOne(db: Db, c: Cert, ask: RevInfo.Ask, now: string, lib: Library)
    ensures OneRowMore(db, Revoke(db, c, ask, now, lib).0, SerialText(c.serial))
  {}

  lemma {:induction false} OneMoreCanonical(db: Db, db': Db, n: int)
    requires OneRowMore(db, db', SerialText(n))
    ensures CanonicalFrom(db'.rows, |db.rows|)
  {
    SerialRoundTrip(n);
  }

  lemma {:induction false} StepCanonical(db: Db, step: Step, lib: Library)
    ensures CanonicalFrom(Apply(db, step, lib).rows, |db.rows|)
  {
    match step {
      case DoIssue(cfg, req, serial) =>
        IssueAddsOne(db, cfg, req, serial, lib);
        OneMoreCanonical(db, Apply(db, step, lib), serial);
      case DoRevoke(cert, ask, now) =>
        RevokeAddsOne(db, cert, ask, now, lib);
        OneMoreCanonical(db, Apply(db, step, lib), cert.serial);
      case DoExpire(_) =>
    }
  }

  /** Every row that any sequence of steps adds has its serial number in canonical form. */
  lemma {:induction false} RunCanonical(db: Db, steps: seq<Step>, lib: Library)
    requires Sane(lib) && Consistent(db, lib) && RunTimes(db, steps, lib)
    ensures CanonicalFrom(Run(db, steps, lib).rows, |db.rows|)
    decreases |steps|
  {
    if steps != [] {
      var db1 := Apply(db, steps[0], lib);
      StepKeeps(db, steps[0], lib);
      StepCanonical(db, steps[0], lib);
      RunCanonical(db1, steps[1..], lib);
      RunKeeps(db1, steps[1..], lib);
      EvolvedCanonical(db1.rows, Run(db1, steps[1..], lib).rows, |db.rows|);
    }
  }

  // ------------------------------------------------------------------------
  // When issuing and revoking succeed, and with what

  /** The name column: the printed subject or, if that is empty, the serial text. */
  function NameColumn(subject: Policy.Name, serial: int, lib: Library): string {
    if lib.oneline(subject) == "" then SerialText(serial) else lib.oneline(subject)
  }

  predicate Unlisted(db: Db, serial: int) {
    forall i :: 0 <= i < |db.rows| ==> Key(db.rows[i].serial) != Key(SerialText(serial))
  }

  predicate NameFree(db: Db, name: string) {
    db.unique ==> name !in db.named
  }

  /** Attribute and value are known, the request has what is asked for and, unless self-signed, matches the CA. */
  predicate LineMet(item: Policy.Item, cfg: Config, req: Request, lib: Library) {
    var nid := lib.objects(item.attribute);
    && nid.Some?
    && (item.value == "optional" || item.value == "supplied" || item.value == "match")
    && (item.value != "optional" ==> exists j :: 0 <= j < |req.name| && req.name[j].nid == nid.value)
    && (item.value == "match" && !cfg.selfSign ==>
        forall j :: 0 <= j < |req.name| && req.name[j].nid == nid.value ==> req.name[j] in cfg.caName)
  }

  predicate PolicyMet(cfg: Config, req: Request, lib: Library) {
    forall i :: 0 <= i < |cfg.policy| ==> LineMet(cfg.policy[i], cfg, req, lib)
  }

  lemma {:induction false} LineMetExactly(item: Policy.Item, cfg: Config, req: Request, lib: Library)
    ensures var ca := if cfg.selfSign then req.name else cfg.caName;
      Policy.Verdict(item, req.name, ca, lib.objects).None? <==> LineMet(item, cfg, req, lib)
  {
    Policy.VerdictExactly(item, req.name, if cfg.selfSign then req.name else cfg.caName, lib.objects);
  }

  lemma {:induction false} PolicyMetExactly(cfg: Config, req: Request, lib: Library)
    ensures PolicyAccepts(cfg, req, lib) <==> PolicyMet(cfg, req, lib)
  {
    forall i | 0 <= i < |cfg.policy|
      ensures Policy.Verdict(cfg.policy[i], req.name, if cfg.selfSign then req.name else cfg.caName, lib.objects).None?
        <==> LineMet(cfg.policy[i], cfg, req, lib)
    {
      LineMetExactly(cfg.policy[i], cfg, req, lib);
    }
  }

  /** The request's own name if that is preserved, and otherwise what the policy takes from it line by line. */
  ghost predicate IsFullName(full: Policy.Name, cfg: Config, req: Request, lib: Library) {
    if cfg.preserve then full == req.name
    else exists at :: Policy.TakenAt(full, at, cfg.policy, req.name, lib.objects)
  }

  /** Unless wanted, e-mail addresses are left out. */
  ghost predicate IsTrimmed(subject: Policy.Name, full: Policy.Name, cfg: Config) {
    if cfg.emailDn then subject == full else Policy.Without(subject, full, 48)
  }

  ghost predicate IsSubject(subject: Policy.Name, cfg: Config, req: Request, lib: Library) {
    exists full :: IsFullName(full, cfg, req, lib) && IsTrimmed(subject, full, cfg)
  }

  lemma {:induction false} SubjectExactly(cfg: Config, req: Request, lib: Library)
    ensures IsSubject(SubjectFor(cfg, req, lib), cfg, req, lib)
  {
    var full := if cfg.preserve then req.name else Policy.Selected(cfg.policy, req.name, lib.objects);
    assert IsFullName(full, cfg, req, lib) by {
      Policy.SelectedExactly(cfg.policy, req.name, lib.objects);
    }
    assert IsTrimmed(SubjectFor(cfg, req, lib), full, cfg) by {
      Policy.NotOfTypeExactly(full, Policy.NID_EMAIL);
    }
  }

  /** The policy has a line for this type. */
  predicate TypeListed(nid: nat, cfg: Config, lib: Library) {
    exists i :: 0 <= i < |cfg.policy| && lib.objects(cfg.policy[i].attribute) == Some(nid)
  }

  /** Without e-mail addresses there are none, and without -preserveDN only types the policy lists. */
  lemma {:induction false} SubjectTypes(subject: Policy.Name, cfg: Config, req: Request, lib: Library)
    requires IsSubject(subject, cfg, req, lib)
    ensures !cfg.emailDn ==> forall k :: 0 <= k < |subject| ==> subject[k].nid != 48
    ensures cfg.preserve && cfg.emailDn ==> subject == req.name
    ensures !cfg.preserve ==> forall k :: 0 <= k < |subject| ==> TypeListed(subject[k].nid, cfg, lib)
  {
    var full :| IsFullName(full, cfg, req, lib) && IsTrimmed(subject, full, cfg);
    forall k | 0 <= k < |subject|
      ensures !cfg.emailDn ==> subject[k].nid != 48
      ensures !cfg.preserve ==> TypeListed(subject[k].nid, cfg, lib)
    {
      if !cfg.emailDn {
        PickedIs(subject, full, k);
      }
      if !cfg.preserve {
        TakenIs(full, subject[k], cfg, req, lib);
      }
    }
  }

  lemma {:induction false} PickedIs(subject: Policy.Name, full: Policy.Name, k: nat)
    requires Policy.Without(subject, full, 48) && k < |subject|
    ensures subject[k] in full && subject[k].nid != 48
  {
    var ps: seq<nat> :| Policy.PickedAt(subject, ps, full) && Policy.PositionsAre(ps, full, 48, false);
    assert ps[k] in ps && subject[k] == full[ps[k]];
  }

  lemma {:induction false} TakenIs(full: Policy.Name, e: Policy.Entry, cfg: Config, req: Request, lib: Library)
    requires e in full && exists at :: Policy.TakenAt(full, at, cfg.policy, req.name, lib.objects)
    ensures TypeListed(e.nid, cfg, lib)
  {
    var at: seq<(nat, nat)> :| Policy.TakenAt(full, at, cfg.policy, req.name, lib.objects);
    var m :| 0 <= m < |full| && full[m] == e;
    assert Policy.About(at[m], cfg.policy, req.name, lib.objects);
    assert lib.objects(cfg.policy[at[m].0].attribute) == Some(e.nid);
  }

  /**
   * Issuing succeeds if and only if the request is well formed, confirmed and signed, the policy
   * is met, the serial number is not listed and the name, if it must be, is free. The row is
   * then the last one; otherwise nothing changes.
   */
  lemma {:induction false} IssueOutcome(db: Db, cfg: Config, req: Request, serial: int, lib: Library)
    returns (subject: Policy.Name, name: string)
    ensures IsSubject(subject, cfg, req, lib) && name == NameColumn(subject, serial, lib)
    ensures var (db', out) := Issue(db, cfg, req, serial, lib);
      && (out.Issued? <==> req.wellFormed && PolicyMet(cfg, req, lib) && NameFree(db, name) && Unlisted(db, serial)
                           && req.confirmed && req.signed)
      && (out.Declined? <==> req.wellFormed && PolicyMet(cfg, req, lib) && NameFree(db, name) && Unlisted(db, serial)
                             && !req.confirmed)
      && (out.Issued? ==> out.cert == Cert(serial, subject, req.notAfter))
      && db'.rows == db.rows + (if out.Issued? then [Row("V", req.notAfter, "", SerialText(serial), "unknown", name)] else [])
      && db'.unique == db.unique
      && db'.named == db.named + (if out.Issued? && db.unique then {name} else {})
  {
    subject := SubjectFor(cfg, req, lib);
    name := NameColumn(subject, serial, lib);
    SubjectExactly(cfg, req, lib);
    PolicyMetExactly(cfg, req, lib);
    UnlistedExactly(db, serial);
    IssueDecides(db, cfg, req, serial, subject, name, PolicyMet(cfg, req, lib), Unlisted(db, serial), lib);
  }

  lemma {:induction false} IssueDecides(db: Db, cfg: Config, req: Request, serial: int, subject: Policy.Name, name: string,
                                        met: bool, unlisted: bool, lib: Library)
    requires subject == SubjectFor(cfg, req, lib) && name == NameColumn(subject, serial, lib)
    requires met <==> PolicyAccepts(cfg, req, lib)
    requires unlisted <==> FindRow(db.rows, Key(SerialText(serial))).None?
    ensures var (db', out) := Issue(db, cfg, req, serial, lib);
      && (out.Issued? <==> req.wellFormed && met && NameFree(db, name) && unlisted && req.confirmed && req.signed)
      && (out.Declined? <==> req.wellFormed && met && NameFree(db, name) && unlisted && !req.confirmed)
      && (out.Issued? ==> out.cert == Cert(serial, subject, req.notAfter))
      && db'.rows == db.rows + (if out.Issued? then [Row("V", req.notAfter, "", SerialText(serial), "unknown", name)] else [])
      && db'.unique == db.unique
      && db'.named == db.named + (if out.Issued? && db.unique then {name} else {})
  {
    assert db.rows + [] == db.rows && db.named + {} == db.named;
  }

  lemma {:induction false} UnlistedExactly(db: Db, serial: int)
    ensures Unlisted(db, serial) <==> FindRow(db.rows, Key(SerialText(serial))).None?
  {}

  /**
   * Revoking a listed certificate succeeds if and only if the row has its name and is not yet
   * revoked, and what is asked is to revoke it with an acceptable argument. The row is then
   * marked; otherwise nothing changes.
   */
  lemma {:induction false} RevokeListedOutcome(db: Db, i: nat, c: Cert, ask: RevInfo.Ask, now: string, lib: Library)
    requires DistinctSerials(db.rows) && i < |db.rows| && Key(db.rows[i].serial) == Key(SerialText(c.serial))
    ensures var (db', ok) := Revoke(db, c, ask, now, lib); var r := db.rows[i];
      && (ok <==>
          && r.name == NameColumn(c.subject, c.serial, lib)
          && !(r.typ != "" && r.typ[0] == 'R')
          && !ask.Valid?
          && RevInfo.Acceptable(ask, lib.syn))
      && (!ok ==> db' == db)
      && (ok ==> RevInfo.Text(ask, now, lib.syn).Some?
                 && db' == db.(rows := db.rows[i := r.(typ := "R", revocation := RevInfo.Text(ask, now, lib.syn).value)]))
  {
    OwnRow(db.rows, i);
    RevInfo.TextExactly(ask, now, lib.syn);
  }

  /**
   * Revoking a certificate that is not listed adds its row if the name, where it must be, is
   * free. It succeeds if and only if the row was added and either that was all that was asked
   * or the argument is acceptable, and then the new row is marked too.
   */
  lemma {:induction false} RevokeUnlistedOutcome(db: Db, c: Cert, ask: RevInfo.Ask, now: string, lib: Library)
    requires Unlisted(db, c.serial)
    ensures var (db', ok) := Revoke(db, c, ask, now, lib); var name := NameColumn(c.subject, c.serial, lib);
      && (ok <==> NameFree(db, name) && (ask.Valid? || RevInfo.Acceptable(ask, lib.syn)))
      && (!NameFree(db, name) ==> db' == db)
      && (NameFree(db, name) ==>
          var added := Row("V", c.notAfter, "", SerialText(c.serial), "unknown", name);
          var text := RevInfo.Text(ask, now, lib.syn);
          && db'.rows == db.rows + [if ok && !ask.Valid? && text.Some? then added.(typ := "R", revocation := text.value) else added]
          && db'.unique == db.unique
          && db'.named == db.named + (if db.unique then {name} else {}))
  {
    UnlistedExactly(db, c.serial);
    RevInfo.TextExactly(ask, now, lib.syn);
    var row := RowFor(c, lib);
    if NameFree(db, row.name) {
      var rows := db.rows + [row];
      assert rows[|db.rows|] == row;
      assert forall r: Row :: rows[|db.rows| := r] == db.rows + [r];
      assert db.named + {} == db.named;
    }
  }

  /** The load check of one row. */
  lemma {:induction false} RowOkExactly(r: Row, lib: Library)
    ensures RowOk(r, lib) <==>
      && (if r.typ != "" && r.typ[0] == 'R' then RevInfo.Unpack(r.revocation, lib.syn).Some? else r.revocation == "")
      && lib.isTime(r.expiry)
      && exists b: seq<byte> :: b != [] && (UpperAll(r.serial) == Print(b) || UpperAll(r.serial) == "-" + Print(b))
  {
    SerialOkExactly(r.serial);
  }

  // ------------------------------------------------------------------------
  // Issue, then revoke

  lemma {:induction false} OwnRow(rows: seq<Row>, i: nat)
    requires DistinctSerials(rows) && i < |rows|
    ensures FindRow(rows, Key(rows[i].serial)) == Some(i)
  {}

  /**
   * Revoking this certificate marks row i and no other; it fails only when the row is
   * revoked already or the arguments are refused.
   */
  predicate RevokesRow(db: Db, i: nat, c: Cert, ask: RevInfo.Ask, now: string, lib: Library) {
    var (db', ok) := Revoke(db, c, ask, now, lib);
    && i < |db.rows|
    && (ok <==> Kind(db.rows[i]) != REVOKED && !ask.Valid? && RevInfo.Text(ask, now, lib.syn).Some?)
    && (!ok ==> db' == db)
    && (ok ==> db'.rows == db.rows[i := db.rows[i].(typ := "R", revocation := RevInfo.Text(ask, now, lib.syn).value)])
  }

  lemma {:induction false} OwnRowIsRevoked(db: Db, i: nat, c: Cert, ask: RevInfo.Ask, now: string, lib: Library)
    requires DistinctSerials(db.rows) && i < |db.rows|
    requires RowEvolves(RowFor(c, lib), db.rows[i])
    ensures RevokesRow(db, i, c, ask, now, lib)
  {
    OwnRow(db.rows, i);
  }

  /**
   * However much later, revoking an issued certificate finds the row it was issued with:
   * the zero-serial and empty-subject forms of both sides agree.
   */
  lemma {:induction false} IssuedIsRevocable(db: Db, cfg: Config, req: Request, serial: int, steps: seq<Step>,
                                             ask: RevInfo.Ask, now: string, lib: Library)
    requires Sane(lib) && Consistent(db, lib) && lib.isTime(req.notAfter)
    requires Issue(db, cfg, req, serial, lib).1.Issued?
    requires RunTimes(Issue(db, cfg, req, serial, lib).0, steps, lib)
    ensures var (db1, out) := Issue(db, cfg, req, serial, lib);
      RevokesRow(Run(db1, steps, lib), |db.rows|, out.cert, ask, now, lib)
  {
    var (db1, out) := Issue(db, cfg, req, serial, lib);
    IssueKeeps(db, cfg, req, serial, lib);
    RunKeeps(db1, steps, lib);
    var db2 := Run(db1, steps, lib);
    assert RowEvolves(db1.rows[|db.rows|], db2.rows[|db.rows|]);
    OwnRowIsRevoked(db2, |db.rows|, out.cert, ask, now, lib);
  }
}
