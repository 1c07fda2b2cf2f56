// The text form of the database file: TXT_DB_write and TXT_DB_read of
// tongsuo/crypto/txt_db/txt_db.c, and exactly when a written database reads back.
module TxtDb {
  import opened Wrappers

  const TAB := '\t'
  const NL := '\n'
  const BACKSLASH := '\\'

  /** One line of the database, a field per column. */
  type Record = r: seq<string> | r != [] witness [""]

  // ------------------------------------------------------------------------
  // Writing

  function Escaped(c: char): string {
    if c == TAB then [BACKSLASH, TAB] else [c]
  }

  /** Tabs inside a field are preceded by a backslash; nothing else is escaped. */
  function Escape(f: string): string {
    if f == "" then "" else Escaped(f[0]) + Escape(f[1..])
  }

  /** The fields of a record, tab separated; no newline yet. */
  function Line(r: Record): string {
    if |r| == 1 then Escape(r[0]) else Escape(r[0]) + [TAB] + Line(r[1..])
  }

  function Write(rows: seq<Record>): string {
    if rows == [] then "" else Line(rows[0]) + [NL] + Write(rows[1..])
  }

  // ------------------------------------------------------------------------
  // Reading

  predicate EndsInBackslash(s: string) {
    s != "" && s[|s| - 1] == BACKSLASH
  }

  /**
   * Splits the rest of a line into num fields, given the fields done and the one begun.
   * A tab after a backslash replaces it; any other tab ends a field. One surplus tab is
   * tolerated at the very end of the line.
   */
  function Split(rest: string, num: nat, done: seq<string>, cur: string): (r: Option<Record>)
    ensures r.Some? ==> |r.value| == num
    decreases |rest|
  {
    if rest == "" then
      if |done| + 1 == num then Some(done + [cur]) else None
    else if rest[0] == TAB && !EndsInBackslash(cur) then
      if |done| + 1 >= num then
        if |done| + 1 == num && rest[1..] == "" then Some(done + [cur]) else None
      else Split(rest[1..], num, done + [cur], "")
    else if rest[0] == TAB then Split(rest[1..], num, done, cur[..|cur| - 1] + [TAB])
    else Split(rest[1..], num, done, cur + [rest[0]])
  }

  /** The index of the first newline, or the length when there is none. */
  function LineEnd(text: string): (i: nat)
    ensures i <= |text| && NL !in text[..i]
    ensures i < |text| ==> text[i] == NL
  {
    if text == "" || text[0] == NL then 0 else 1 + LineEnd(text[1..])
  }

  /** Lines starting with '#' are skipped and an unterminated last line is dropped. */
  function Read(text: string, num: nat): (r: Option<seq<Record>>)
    ensures r.Some? ==> forall i :: 0 <= i < |r.value| ==> |r.value[i]| == num
    decreases |text|
  {
    var e := LineEnd(text);
    if e == |text| then Some([])
    else
      var line, rest := text[..e], text[e + 1..];
      if line != "" && line[0] == '#' then Read(rest, num)
      else match Split(line, num, [], "")
        case None => None
        case Some(r) =>
          match Read(rest, num)
          case None => None
          case Some(rs) => Some([r] + rs)
  }

  /** The field loop of TXT_DB_read, with its explicit escape flag. */
  method SplitLine(line: string, num: nat) returns (r: Option<Record>)
    requires num >= 1
    ensures r == Split(line, num, [], "")
  {
    var fields: seq<string>, cur, esc, f := [], "", false, 0;
    assert line[0..] == line;
    while f < |line|
      invariant 0 <= f <= |line| && |fields| < num
      invariant esc == EndsInBackslash(cur)
      invariant Split(line, num, [], "") == Split(line[f..], num, fields, cur)
      decreases |line| - f
    {
      assert line[f..][0] == line[f] && line[f..][1..] == line[f + 1..];
      if line[f] == TAB {
        if esc {
          cur := cur[..|cur| - 1];
        } else {
          f := f + 1;
          if |fields| + 1 >= num {
            break;
          }
          fields, cur := fields + [cur], "";
          continue;
        }
      }
      esc := line[f] == BACKSLASH;
      cur := cur + [line[f]];
      f := f + 1;
    }
    fields := fields + [cur];
    if |fields| != num || f != |line| {
      return None;
    }
    return Some(fields);
  }

  // ------------------------------------------------------------------------
  // Round trip

  /** The records that survive a write and a read. */
  predicate Storable(r: Record) {
    && (forall i :: 0 <= i < |r| ==> NL !in r[i])
    && (forall i :: 0 <= i < |r| - 1 ==> !EndsInBackslash(r[i]))
    && (r[0] == "" || r[0][0] != '#')
  }

  lemma {:induction false} SplitEscaped(f: string, rest: string, num: nat, done: seq<string>, cur: string)
    ensures Split(Escape(f) + rest, num, done, cur) == Split(rest, num, done, cur + f)
    decreases |f|
  {
    if f == "" {
      assert Escape(f) + rest == rest && cur + f == cur;
    } else {
      EscapeFirst(f, rest, cur);
      SplitEscapedChar(f[0], Escape(f[1..]) + rest, num, done, cur);
      SplitEscaped(f[1..], rest, num, done, cur + [f[0]]);
    }
  }

  lemma {:induction false} EscapeFirst(f: string, rest: string, cur: string)
    requires f != ""
    ensures Escape(f) + rest == Escaped(f[0]) + (Escape(f[1..]) + rest)
    ensures cur + [f[0]] + f[1..] == cur + f
  {
    Assoc(Escaped(f[0]), Escape(f[1..]), rest);
    FirstOf(cur, f);
  }

  lemma {:induction false} Assoc(a: string, b: string, c: string)
    ensures a + b + c == a + (b + c)
  {}

  lemma {:induction false} FirstOf(cur: string, f: string)
    requires f != ""
    ensures cur + [f[0]] + f[1..] == cur + f
  {}

  lemma {:induction false} SplitEscapedChar(c: char, tail: string, num: nat, done: seq<string>, cur: string)
    ensures Split(Escaped(c) + tail, num, done, cur) == Split(tail, num, done, cur + [c])
  {
    var whole := Escaped(c) + tail;
    if c == TAB {
      var b := cur + [BACKSLASH];
      assert whole[1..] == [TAB] + tail && whole[1..][1..] == tail;
      assert EndsInBackslash(b) && b[..|b| - 1] == cur;
      assert Split(whole, num, done, cur) == Split([TAB] + tail, num, done, b);
    } else {
      assert whole[1..] == tail;
    }
  }

  lemma {:induction false} SplitWritten(r: Record, num: nat, done: seq<string>)
    requires |done| + |r| == num
    requires forall i :: 0 <= i < |r| - 1 ==> !EndsInBackslash(r[i])
    ensures Split(Line(r), num, done, "") == Some(done + r)
    decreases |r|
  {
    var f := r[0];
    if |r| == 1 {
      SplitEscaped(f, "", num, done, "");
      assert Escape(f) + "" == Escape(f) && "" + f == f && done + [f] == done + r;
    } else {
      var rest := [TAB] + Line(r[1..]);
      SplitEscaped(f, rest, num, done, "");
      assert Line(r) == Escape(f) + rest && "" + f == f;
      assert rest[1..] == Line(r[1..]);
      SplitWritten(r[1..], num, done + [f]);
      assert done + [f] + r[1..] == done + r;
    }
  }

  lemma {:induction false} EscapeFree(f: string)
    requires NL !in f
    ensures NL !in Escape(f)
    ensures f == "" <==> Escape(f) == ""
    ensures f != "" && f[0] != '#' ==> Escape(f)[0] != '#'
  {
    if f != "" {
      EscapeFree(f[1..]);
    }
  }

  lemma {:induction false} LineFree(r: Record)
    requires forall i :: 0 <= i < |r| ==> NL !in r[i]
    requires r[0] == "" || r[0][0] != '#'
    ensures NL !in Line(r)
    ensures Line(r) == "" || Line(r)[0] != '#'
    decreases |r|
  {
    EscapeFree(r[0]);
    if |r| > 1 {
      LinesFree(r[1..]);
    }
  }

  lemma {:induction false} LinesFree(r: Record)
    requires forall i :: 0 <= i < |r| ==> NL !in r[i]
    ensures NL !in Line(r)
    decreases |r|
  {
    EscapeFree(r[0]);
    if |r| > 1 {
      LinesFree(r[1..]);
    }
  }

  lemma {:induction false} LineEndIs(line: string, rest: string)
    requires NL !in line
    ensures LineEnd(line + [NL] + rest) == |line|
  {
    if line != "" {
      LineEndIs(line[1..], rest);
      assert (line + [NL] + rest)[1..] == line[1..] + [NL] + rest;
    }
  }

  lemma {:induction false} WrittenReadsBack(rows: seq<Record>, num: nat)
    requires forall i :: 0 <= i < |rows| ==> |rows[i]| == num && Storable(rows[i])
    ensures Read(Write(rows), num) == Some(rows)
    decreases |rows|
  {
    if rows != [] {
      var r, line, rest := rows[0], Line(rows[0]), Write(rows[1..]);
      LineFree(r);
      LineEndIs(line, rest);
      var text := line + [NL] + rest;
      assert text[..|line|] == line && text[|line| + 1..] == rest;
      SplitWritten(r, num, []);
      assert [] + r == r;
      WrittenReadsBack(rows[1..], num);
      assert [r] + rows[1..] == rows;
    }
  }

  /** Which character the first field will start with, as far as the scan has gone. */
  predicate NoHashAhead(rest: string, done: seq<string>, cur: string) {
    var s := if done != [] then done[0] else if cur != "" then cur else rest;
    s == "" || s[0] != '#'
  }

  /** The reader only ever returns storable records. */
  lemma {:induction false} SplitIsStorable(rest: string, num: nat, done: seq<string>, cur: string)
    requires NL !in rest && NL !in cur && NoHashAhead(rest, done, cur)
    requires forall i :: 0 <= i < |done| ==> NL !in done[i] && !EndsInBackslash(done[i])
    requires Split(rest, num, done, cur).Some?
    ensures Storable(Split(rest, num, done, cur).value)
    decreases |rest|
  {
    if rest != "" {
      var c, tail := rest[0], rest[1..];
      if c == TAB && !EndsInBackslash(cur) {
        if |done| + 1 < num {
          SplitIsStorable(tail, num, done + [cur], "");
        }
      } else {
        SplitIsStorable(tail, num, done, (if c == TAB then cur[..|cur| - 1] else cur) + [c]);
      }
    }
  }

  lemma {:induction false} ReadIsStorable(text: string, num: nat)
    requires Read(text, num).Some?
    ensures forall r :: r in Read(text, num).value ==> |r| == num && Storable(r)
    decreases |text|
  {
    var e := LineEnd(text);
    if e < |text| {
      var line, rest := text[..e], text[e + 1..];
      ReadIsStorable(rest, num);
      if line == "" || line[0] != '#' {
        SplitIsStorable(line, num, [], "");
      }
    }
  }

  /** A written database reads back as itself exactly when every record is storable. */
  lemma {:induction false} ReadsBackIffStorable(rows: seq<Record>, num: nat)
    requires forall r :: r in rows ==> |r| == num
    ensures Read(Write(rows), num) == Some(rows) <==> forall r :: r in rows ==> Storable(r)
  {
    if Read(Write(rows), num) == Some(rows) {
      ReadIsStorable(Write(rows), num);
    }
    if forall r :: r in rows ==> Storable(r) {
      WrittenReadsBack(rows, num);
    }
  }

  /** So whatever was read survives being written and read again. */
  lemma RereadIsStable(text: string, num: nat)
    requires Read(text, num).Some?
    ensures Read(Write(Read(text, num).value), num) == Read(text, num)
  {
    ReadIsStorable(text, num);
    WrittenReadsBack(Read(text, num).value, num);
  }

  /** A field ending in a backslash swallows the separator after it, so this row is lost. */
  lemma BackslashSwallowsSeparator()
    ensures Read(Write([["a\\", "b"]]), 2) != Some([["a\\", "b"]])
  {
    var rows: seq<Record> := [["a\\", "b"]];
    assert rows[0] in rows && EndsInBackslash(rows[0][0]);
    ReadsBackIffStorable(rows, 2);
  }

  // ------------------------------------------------------------------------
  // What the reader accepts

  lemma {:induction false} EscapeAppend(a: string, b: string)
    ensures Escape(a + b) == Escape(a) + Escape(b)
    decreases |a|
  {
    if a == "" {
      assert a + b == b;
    } else {
      assert (a + b)[1..] == a[1..] + b;
      EscapeAppend(a[1..], b);
    }
  }

  /** No field but the last ends in a backslash. */
  predicate Separable(r: Record) {
    forall i :: 0 <= i < |r| - 1 ==> !EndsInBackslash(r[i])
  }

  function Surplus(extra: bool): string {
    if extra then [TAB] else ""
  }

  /** What is left of a line when it is split is the rest of the record as it would be written. */
  lemma {:induction false} SplitIsWritten(rest: string, num: nat, done: seq<string>, cur: string) returns (fields: Record, extra: bool)
    requires Split(rest, num, done, cur).Some?
    ensures Split(rest, num, done, cur).value == done + fields && Separable(fields)
    ensures Escape(cur) + rest == Line(fields) + Surplus(extra)
    ensures extra ==> !EndsInBackslash(fields[|fields| - 1])
    decreases |rest|
  {
    if rest == "" {
      fields, extra := [cur], false;
    } else if rest[0] == TAB && !EndsInBackslash(cur) {
      if |done| + 1 >= num {
        fields, extra := [cur], true;
        assert rest == [TAB];
      } else {
        var more, e := SplitIsWritten(rest[1..], num, done + [cur], "");
        fields, extra := [cur] + more, e;
        assert Escape("") + rest[1..] == rest[1..];
        SplitField(cur, more, rest, Surplus(e));
        FieldFirst(cur, more, done);
      }
    } else if rest[0] == TAB {
      fields, extra := SplitIsWritten(rest[1..], num, done, cur[..|cur| - 1] + [TAB]);
      EscapedTab(cur, rest);
    } else {
      fields, extra := SplitIsWritten(rest[1..], num, done, cur + [rest[0]]);
      PlainChar(cur, rest);
    }
  }

  lemma {:induction false} EscapedTab(cur: string, rest: string)
    requires EndsInBackslash(cur) && rest != "" && rest[0] == TAB
    ensures Escape(cur[..|cur| - 1] + [TAB]) + rest[1..] == Escape(cur) + rest
  {
    var init := cur[..|cur| - 1];
    EscapeSnoc(init, TAB);
    EscapeSnoc(init, BACKSLASH);
    assert cur == init + [BACKSLASH];
    Regroup(Escape(init), rest);
  }

  lemma {:induction false} Regroup(e: string, rest: string)
    requires rest != "" && rest[0] == TAB
    ensures e + [BACKSLASH, TAB] + rest[1..] == e + [BACKSLASH] + rest
  {}

  lemma {:induction false} EscapeSnoc(init: string, c: char)
    ensures Escape(init + [c]) == Escape(init) + Escaped(c)
  {
    EscapeAppend(init, [c]);
    OneChar(c);
  }

  lemma {:induction false} PlainChar(cur: string, rest: string)
    requires rest != "" && rest[0] != TAB
    ensures Escape(cur + [rest[0]]) + rest[1..] == Escape(cur) + rest
  {
    EscapeSnoc(cur, rest[0]);
    assert rest == [rest[0]] + rest[1..];
  }

  lemma {:induction false} OneChar(c: char)
    ensures Escape([c]) == Escaped(c)
  {
    assert [c][1..] == "";
  }

  lemma {:induction false} FieldFirst(cur: string, more: Record, done: seq<string>)
    requires Separable(more) && !EndsInBackslash(cur)
    ensures done + [cur] + more == done + ([cur] + more) && Separable([cur] + more)
    ensures ([cur] + more)[|more|] == more[|more| - 1]
  {}

  lemma {:induction false} SplitField(cur: string, more: Record, rest: string, surplus: string)
    requires rest != "" && rest[0] == TAB && rest[1..] == Line(more) + surplus
    ensures Escape(cur) + rest == Line([cur] + more) + surplus
  {
    assert ([cur] + more)[1..] == more;
    assert rest == [TAB] + (Line(more) + surplus);
  }

  lemma {:induction false} SplitSurplus(r: Record, num: nat, done: seq<string>)
    requires |done| + |r| == num && Separable(r) && !EndsInBackslash(r[|r| - 1])
    ensures Split(Line(r) + [TAB], num, done, "") == Some(done + r)
    decreases |r|
  {
    if |r| == 1 {
      SplitLast(r[0], num, done);
      assert done + [r[0]] == done + r;
    } else {
      var rest := Line(r[1..]) + [TAB];
      SplitSurplus(r[1..], num, done + [r[0]]);
      var e, tail := Escape(r[0]), Line(r[1..]);
      Assoc(e + [TAB], tail, [TAB]);
      Assoc(e, [TAB], rest);
      SplitFirst(r[0], rest, num, done);
      assert done + [r[0]] + r[1..] == done + r;
    }
  }

  lemma {:induction false} SplitLast(f: string, num: nat, done: seq<string>)
    requires !EndsInBackslash(f) && |done| + 1 == num
    ensures Split(Escape(f) + [TAB], num, done, "") == Some(done + [f])
  {
    SplitEscaped(f, [TAB], num, done, "");
    assert "" + f == f && [TAB][1..] == "";
  }

  lemma {:induction false} SplitFirst(f: string, rest: string, num: nat, done: seq<string>)
    requires !EndsInBackslash(f) && |done| + 1 < num
    ensures Split(Escape(f) + ([TAB] + rest), num, done, "") == Split(rest, num, done + [f], "")
  {
    SplitEscaped(f, [TAB] + rest, num, done, "");
    assert "" + f == f && ([TAB] + rest)[1..] == rest;
  }

  /**
   * A line splits into a record if and only if it is that record as it would be written, perhaps
   * with one tab too many at its end.
   */
  lemma {:induction false} SplitExactly(line: string, num: nat, r: Record)
    ensures Split(line, num, [], "") == Some(r) <==>
      && |r| == num && Separable(r)
      && (line == Line(r) || (line == Line(r) + [TAB] && !EndsInBackslash(r[|r| - 1])))
  {
    if Split(line, num, [], "") == Some(r) {
      var fields, extra := SplitIsWritten(line, num, [], "");
      assert [] + fields == fields && Escape("") + line == line;
      assert Line(fields) + "" == Line(fields);
    }
    if |r| == num && Separable(r) {
      assert [] + r == r;
      SplitWritten(r, num, []);
      if !EndsInBackslash(r[|r| - 1]) {
        SplitSurplus(r, num, []);
      }
    }
  }

  /** A line that starts with '#' is skipped, and so is what follows the last newline. */
  lemma {:induction false} ReadSkips(line: string, rest: string, num: nat)
    requires NL !in line
    ensures line != "" && line[0] == '#' ==> Read(line + [NL] + rest, num) == Read(rest, num)
    ensures Read(line, num) == Some([])
  {
    LineEndIs(line, rest);
    var text := line + [NL] + rest;
    assert text[..|line|] == line && text[|line| + 1..] == rest;
    NoLineEnd(line);
  }

  lemma {:induction false} NoLineEnd(line: string)
    requires NL !in line
    ensures LineEnd(line) == |line|
  {
    assert forall i :: 0 <= i < |line| ==> line[i] != NL;
  }

  /** Every other line becomes a record, in order, and one that does not split fails the whole file. */
  lemma {:induction false} ReadLine(line: string, rest: string, num: nat)
    requires NL !in line && (line == "" || line[0] != '#')
    ensures var one, others := Split(line, num, [], ""), Read(rest, num);
      Read(line + [NL] + rest, num)
      == if one.Some? && others.Some? then Some([one.value] + others.value) else None
  {
    LineEndIs(line, rest);
    var text := line + [NL] + rest;
    assert text[..|line|] == line && text[|line| + 1..] == rest;
  }
}
