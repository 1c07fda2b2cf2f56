// The database object of tongsuo/apps/ca.c: rows kept beside a serial index and, when subjects
// must be unique, a name index. Every method is proved against the functions of CaSpec.
module CaDb {
  import opened Wrappers
  import opened Hex
  import opened Serial
  import opened CaSpec
  import Policy
  import RevInfo

  /** The serial index maps each key to its one row. */
  ghost predicate IndexesSerials(rows: seq<Row>, index: map<string, nat>) {
    && (forall i :: 0 <= i < |rows| ==> Key(rows[i].serial) in index && index[Key(rows[i].serial)] == i)
    && (forall k :: k in index ==> index[k] < |rows| && Key(rows[index[k]].serial) == k)
  }

  /** The name index knows every valid row; it may still name rows that were valid once. */
  ghost predicate IndexesNames(rows: seq<Row>, index: map<string, nat>) {
    && (forall i :: 0 <= i < |rows| && Kind(rows[i]) == VALID ==> rows[i].name in index && index[rows[i].name] == i)
    && (forall n :: n in index ==> index[n] < |rows| && rows[index[n]].name == n)
  }

  lemma {:induction false} IndexFinds(rows: seq<Row>, index: map<string, nat>, key: string)
    requires IndexesSerials(rows, index)
    ensures FindRow(rows, key) == if key in index then Some(index[key]) else None
  {
    var r := FindRow(rows, key);
    if r.Some? {
      assert Key(rows[r.value].serial) in index;
    }
  }

  /** Expiring or revoking rows leaves both indexes right. */
  lemma {:induction false} IndexesKept(a: seq<Row>, b: seq<Row>, serials: map<string, nat>, names: map<string, nat>)
    requires |a| == |b| && forall i :: 0 <= i < |a| ==> RowEvolves(a[i], b[i])
    requires IndexesSerials(a, serials)
    ensures IndexesSerials(b, serials)
    ensures IndexesNames(a, names) ==> IndexesNames(b, names)
  {
    assert forall i :: 0 <= i < |a| ==> a[i].serial == b[i].serial && a[i].name == b[i].name;
    assert forall i :: 0 <= i < |a| && Kind(b[i]) == VALID ==> Kind(a[i]) == VALID;
  }

  lemma {:induction false} IndexesGrow(rows: seq<Row>, row: Row, serials: map<string, nat>)
    requires IndexesSerials(rows, serials) && Key(row.serial) !in serials
    ensures IndexesSerials(rows + [row], serials[Key(row.serial) := |rows|])
  {}

  lemma {:induction false} NamesGrow(rows: seq<Row>, row: Row, names: map<string, nat>)
    requires IndexesNames(rows, names)
    ensures Kind(row) != VALID ==> IndexesNames(rows + [row], names)
    ensures Kind(row) == VALID && row.name !in names ==> IndexesNames(rows + [row], names[row.name := |rows|])
  {}

  ghost predicate Indexed(rows: seq<Row>, unique: bool, serials: map<string, nat>, names: map<string, nat>) {
    && IndexesSerials(rows, serials)
    && (if unique then IndexesNames(rows, names) else names == map[])
  }

  function NamesAfter(rows: seq<Row>, unique: bool, names: map<string, nat>, row: Row): map<string, nat> {
    if unique && Kind(row) == VALID then names[row.name := |rows|] else names
  }

  /** Inserting through the indexes is inserting into the rows. */
  lemma {:induction false} InsertThroughIndexes(rows: seq<Row>, unique: bool, serials: map<string, nat>, names: map<string, nat>, row: Row)
    requires Indexed(rows, unique, serials, names)
    ensures var clash := Key(row.serial) in serials || (unique && Kind(row) == VALID && row.name in names);
      var names' := NamesAfter(rows, unique, names, row);
      && (clash ==> Insert(Db(rows, unique, names.Keys), row) == None)
      && (!clash ==> Insert(Db(rows, unique, names.Keys), row) == Some(Db(rows + [row], unique, names'.Keys)))
      && (!clash ==> Indexed(rows + [row], unique, serials[Key(row.serial) := |rows|], names'))
  {
    IndexFinds(rows, serials, Key(row.serial));
    if Key(row.serial) !in serials {
      IndexesGrow(rows, row, serials);
    }
    if unique {
      NamesGrow(rows, row, names);
      assert names[row.name := |rows|].Keys == names.Keys + {row.name};
    }
  }

  /** The second look-up of do_revoke finds the row just inserted. */
  lemma {:induction false} FoundAfterInsert(db: Db, c: Cert, ask: RevInfo.Ask, now: string, lib: Library)
    requires Insert(db, RowFor(c, lib)).Some?
    ensures var row := RowFor(c, lib); var db1 := Insert(db, row).value;
      && FindRow(db1.rows, Key(row.serial)) == Some(|db.rows|)
      && Revoke(db1, c, ask, now, lib) == RevokeRow(db1, |db.rows|, row.name, ask, now, lib)
  {}

  class Database {
    var rows: seq<Row>
    var unique: bool
    var serialIndex: map<string, nat>
    var nameIndex: map<string, nat>

    ghost predicate Valid()
      reads this
    {
      Indexed(rows, unique, serialIndex, nameIndex)
    }

    ghost function View(): Db
      reads this
    {
      Db(rows, unique, nameIndex.Keys)
    }

    constructor (rows: seq<Row>, unique: bool, serialIndex: map<string, nat>, nameIndex: map<string, nat>)
      requires Indexed(rows, unique, serialIndex, nameIndex)
      ensures Valid() && this.rows == rows && this.unique == unique && this.nameIndex == nameIndex
    {
      this.rows, this.unique := rows, unique;
      this.serialIndex, this.nameIndex := serialIndex, nameIndex;
    }

    /**
     * The row checks and index_index: a database comes up exactly when every row passes and
     * neither index has a clash.
     */
    static method Load(rows: seq<Row>, unique: bool, lib: Library) returns (db: Database?)
      ensures db != null <==> AllOk(rows, lib) && DistinctSerials(rows) && (unique ==> DistinctNames(rows))
      ensures db != null ==>
        && fresh(db) && db.Valid()
        && db.View() == Db(rows, unique, if unique then ValidNames(rows) else {})
    {
      for i := 0 to |rows|
        invariant forall k :: 0 <= k < i ==> RowOk(rows[k], lib)
      {
        var r := rows[i];
        if Kind(r) != REVOKED && r.revocation != "" {
          return null;
        }
        if Kind(r) == REVOKED && RevInfo.MakeRevoked(r.revocation, lib.syn) == 0 {
          return null;
        }
        if !lib.isTime(r.expiry) {
          return null;
        }
        var ok := CheckSerial(r.serial);
        if !ok {
          return null;
        }
      }
      var bySerial := IndexSerials(rows);
      if bySerial.None? {
        return null;
      }
      var byName: map<string, nat> := map[];
      if unique {
        var names := IndexNames(rows);
        if names.None? {
          return null;
        }
        byName := names.value;
      }
      db := new Database(rows, unique, bySerial.value, byName);
    }

    /** The serial text check: skip a sign, then count and examine the digits. */
    static method CheckSerial(t: string) returns (ok: bool)
      ensures ok <==> SerialOk(t)
    {
      var p := t;
      if p != "" && p[0] == '-' {
        p := p[1..];
      }
      if |p| % 2 == 1 || |p| < 2 {
        return false;
      }
      for i := 0 to |p|
        invariant forall k :: 0 <= k < i ==> IsHex(p[k])
      {
        if !IsHex(p[i]) {
          return false;
        }
      }
      return true;
    }

    /** TXT_DB_create_index on the serial column. */
    static method IndexSerials(rows: seq<Row>) returns (index: Option<map<string, nat>>)
      ensures index.Some? <==> DistinctSerials(rows)
      ensures index.Some? ==> IndexesSerials(rows, index.value)
    {
      var m: map<string, nat> := map[];
      for i := 0 to |rows|
        invariant IndexesSerials(rows[..i], m)
      {
        var k := Key(rows[i].serial);
        if k in m {
          assert rows[..i][m[k]] == rows[m[k]];
          return None;
        }
        assert rows[..i + 1] == rows[..i] + [rows[i]];
        m := m[k := i];
      }
      assert rows[..|rows|] == rows;
      return Some(m);
    }

    /** TXT_DB_create_index on the name column, valid rows only. */
    static method IndexNames(rows: seq<Row>) returns (index: Option<map<string, nat>>)
      ensures index.Some? <==> DistinctNames(rows)
      ensures index.Some? ==> IndexesNames(rows, index.value) && index.value.Keys == ValidNames(rows)
    {
      var m: map<string, nat> := map[];
      for i := 0 to |rows|
        invariant IndexesNames(rows[..i], m)
        invariant forall n :: n in m ==> m[n] < i && Kind(rows[m[n]]) == VALID
      {
        assert rows[..i + 1] == rows[..i] + [rows[i]];
        if Kind(rows[i]) == VALID {
          var n := rows[i].name;
          if n in m {
            assert rows[..i][m[n]] == rows[m[n]];
            return None;
          }
          m := m[n := i];
        }
      }
      assert rows[..|rows|] == rows;
      return Some(m);
    }

    method InsertRow(row: Row) returns (ok: bool)
      requires Valid()
      modifies this
      ensures Valid()
      ensures ok <==> Insert(old(View()), row).Some?
      ensures ok ==> View() == Insert(old(View()), row).value
      ensures !ok ==> unchanged(this)
    {
      var k := Key(row.serial);
      InsertThroughIndexes(rows, unique, serialIndex, nameIndex, row);
      if k in serialIndex {
        return false;
      }
      if unique && Kind(row) == VALID {
        if row.name in nameIndex {
          return false;
        }
        nameIndex := nameIndex[row.name := |rows|];
      }
      serialIndex, rows := serialIndex[k := |rows|], rows + [row];
      return true;
    }

    /** do_body, from the policy scan to the inserted row. */
    method IssueCert(cfg: Config, req: Request, serial: int, lib: Library) returns (out: Issuance)
      requires Valid()
      modifies this
      ensures Valid()
      ensures (View(), out) == Issue(old(View()), cfg, req, serial, lib)
    {
      var scan := Policy.BuildSubject(cfg.policy, req.name, if cfg.selfSign then req.name else cfg.caName, lib.objects);
      if scan.Refused? || !req.wellFormed {
        return BadRequest;
      }
      var subject := if cfg.preserve then req.name else scan.name;
      if !cfg.emailDn {
        subject := Policy.DropEmail(subject);
      }
      var cert := Cert(serial, subject, req.notAfter);
      var row := RowFor(cert, lib);
      if unique && row.name in nameIndex {
        return NameClash;
      }
      IndexFinds(rows, serialIndex, Key(row.serial));
      if Key(row.serial) in serialIndex {
        return SerialClash;
      }
      if !req.confirmed {
        return Declined;
      }
      if !req.signed {
        return NotSigned;
      }
      var ok := InsertRow(row);
      return if ok then Issued(cert) else SerialClash;
    }

    /** do_revoke. Once an unlisted certificate is inserted the second call finds it. */
    method RevokeCert(c: Cert, ask: RevInfo.Ask, now: string, lib: Library) returns (ok: bool)
      requires Valid()
      modifies this
      ensures Valid()
      ensures (View(), ok) == Revoke(old(View()), c, ask, now, lib)
      decreases Key(SerialText(c.serial)) !in serialIndex
    {
      var row := RowFor(c, lib);
      var k := Key(row.serial);
      IndexFinds(rows, serialIndex, k);
      if k !in serialIndex {
        var inserted := InsertRow(row);
        if !inserted {
          return false;
        }
        if ask.Valid? {
          return true;
        }
        FoundAfterInsert(old(View()), c, ask, now, lib);
        IndexFinds(rows, serialIndex, k);
        ok := RevokeCert(c, ask, now, lib);
        return;
      }
      ok := MarkRevoked(serialIndex[k], row.name, ask, now, lib);
    }

    /** The part of do_revoke that has found the row. */
    method MarkRevoked(i: nat, name: string, ask: RevInfo.Ask, now: string, lib: Library) returns (ok: bool)
      requires Valid() && i < |rows|
      modifies this`rows
      ensures Valid()
      ensures (View(), ok) == RevokeRow(old(View()), i, name, ask, now, lib)
    {
      if name != rows[i].name || ask.Valid? || Kind(rows[i]) == REVOKED {
        return false;
      }
      var text := RevInfo.MakeRevocationStr(ask, now, lib.syn);
      if text.None? {
        return false;
      }
      ghost var before := rows;
      rows := rows[i := rows[i].(typ := "R", revocation := text.value)];
      IndexesKept(before, rows, serialIndex, nameIndex);
      return true;
    }

    /** do_updatedb: marks valid rows whose time is past and counts them; -1 on an unreadable time. */
    method UpdateDb(past: string -> bool, lib: Library) returns (count: int)
      requires Valid()
      modifies this`rows
      ensures Valid() && Evolves(old(rows), rows) && |rows| == |old(rows)|
      ensures count >= 0 <==> ReadableTimes(old(rows), lib)
      ensures count >= 0 ==> rows == Expire(old(rows), past) && count == ExpiredCount(old(rows), past)
    {
      ghost var done;
      count, done := MarkExpired(past, lib);
      PartlyExpired(old(rows), done, past, serialIndex, nameIndex);
      assert old(rows)[..|rows|] == old(rows);
    }

    /** Its loop; done is how far it got. */
    method MarkExpired(past: string -> bool, lib: Library) returns (count: int, ghost done: nat)
      modifies this`rows
      ensures done <= |old(rows)|
      ensures rows == Expire(old(rows)[..done], past) + old(rows)[done..]
      ensures count >= 0 <==> ReadableTimes(old(rows), lib)
      ensures count >= 0 ==> done == |old(rows)| && count == ExpiredCount(old(rows)[..done], past)
    {
      ghost var before := rows;
      count := 0;
      var i := 0;
      while i < |rows|
        invariant 0 <= i <= |rows| == |before|
        invariant rows == Expire(before[..i], past) + before[i..]
        invariant count == ExpiredCount(before[..i], past)
        invariant ReadableTimes(before[..i], lib)
        decreases |rows| - i
      {
        ExpireOne(before, i, past);
        ReadableOne(before, i, lib);
        if Kind(rows[i]) == VALID {
          if !lib.isTime(rows[i].expiry) {
            return -1, i;
          }
          if past(rows[i].expiry) {
            rows := rows[i := rows[i].(typ := "E")];
            count := count + 1;
          }
        }
        i := i + 1;
      }
      assert before[..i] == before;
      done := i;
    }
  }

  /** The times do_updatedb has to read are readable. */
  predicate ReadableTimes(rows: seq<Row>, lib: Library) {
    forall i :: 0 <= i < |rows| && Kind(rows[i]) == VALID ==> lib.isTime(rows[i].expiry)
  }

  predicate IsPast(r: Row, past: string -> bool) {
    r.typ != "" && r.typ[0] == 'V' && past(r.expiry)
  }

  /** The count is that of the rows marked. */
  lemma {:induction false} CountIsMarked(rows: seq<Row>, past: string -> bool)
    ensures ExpiredCount(rows, past)
         == |set i | 0 <= i < |rows| && IsPast(rows[i], past)|
  {
    if rows != [] {
      var n := |rows| - 1;
      var init := rows[..n];
      CountIsMarked(init, past);
      var a := set i | 0 <= i < |init| && IsPast(init[i], past);
      var b := set i | 0 <= i < |rows| && IsPast(rows[i], past);
      assert forall i :: 0 <= i < n ==> init[i] == rows[i];
      assert b == if IsPast(rows[n], past) then a + {n} else a;
    }
  }

  /** How many valid rows are past their time. */
  function ExpiredCount(rows: seq<Row>, past: string -> bool): nat {
    if rows == [] then 0
    else
      var r := rows[|rows| - 1];
      ExpiredCount(rows[..|rows| - 1], past) + if Kind(r) == VALID && past(r.expiry) then 1 else 0
  }

  lemma {:induction false} ExpireOne(rows: seq<Row>, i: nat, past: string -> bool)
    requires i < |rows|
    ensures var now := Expire(rows[..i], past) + rows[i..];
      && now[i] == rows[i]
      && Expire(rows[..i + 1], past) + rows[i + 1..] == now[i := ExpireRow(rows[i], past)]
    ensures ExpiredCount(rows[..i + 1], past)
         == ExpiredCount(rows[..i], past) + if Kind(rows[i]) == VALID && past(rows[i].expiry) then 1 else 0
  {
    assert rows[..i + 1][..i] == rows[..i];
  }

  lemma {:induction false} ReadableOne(rows: seq<Row>, i: nat, lib: Library)
    requires i < |rows|
    ensures ReadableTimes(rows[..i + 1], lib) <==>
      ReadableTimes(rows[..i], lib) && (Kind(rows[i]) == VALID ==> lib.isTime(rows[i].expiry))
    ensures Kind(rows[i]) == VALID && !lib.isTime(rows[i].expiry) ==> !ReadableTimes(rows, lib)
  {
    var a, b := rows[..i], rows[..i + 1];
    assert b == a + [rows[i]];
    assert b[i] == rows[i];
  }

  lemma {:induction false} PartlyExpired(rows: seq<Row>, i: nat, past: string -> bool,
                                         serials: map<string, nat>, names: map<string, nat>)
    requires i <= |rows| && IndexesSerials(rows, serials)
    ensures var now := Expire(rows[..i], past) + rows[i..];
      && |now| == |rows| && Evolves(rows, now) && IndexesSerials(now, serials)
      && (IndexesNames(rows, names) ==> IndexesNames(now, names))
  {
    IndexesKept(rows, Expire(rows[..i], past) + rows[i..], serials, names);
  }
}
