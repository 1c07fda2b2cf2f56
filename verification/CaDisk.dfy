// How ca_main of tongsuo/apps/ca.c puts its results on disk: save to ".new" files, write the
// certificates, then rename. Any system call may fail, some writes may fail unnoticed, and the
// machine may stop after any call; the files left must be ones a later run can work from.
module CaDisk {
  import opened Wrappers

  /** Torn is a file opened for writing whose contents never made it. */
  datatype File<T> = Absent | Torn | Has(value: T)

  /** One file with its ".new" and ".old" companions. */
  datatype Trio<T> = Trio(live: File<T>, next: File<T>, prev: File<T>)

  /** certs are the certificate files with their contents; one that was only opened is not among them. */
  datatype Disk = Disk(serial: Trio<nat>, index: Trio<string>, attr: Trio<bool>, certs: set<string>)

  // ------------------------------------------------------------------------
  // System calls

  datatype Call =
    | OpenSerial | WriteSerial(n: nat)
    | OpenIndex | WriteIndex(text: string)
    | OpenAttr | WriteAttr(unique: bool)
    | OpenCert(name: string) | WriteCert(name: string)
    | RetireSerial | PromoteSerial | RestoreSerial
    | RetireIndex | PromoteIndex | RestoreIndex | DemoteIndex
    | RetireAttr | PromoteAttr | RestoreAttr

  /** rename(live, old); a missing live file is not an error. */
  function Retire<T>(t: Trio<T>): Trio<T> {
    if t.live.Absent? then t else Trio(Absent, t.next, t.live)
  }

  /** rename(new, live). */
  function Promote<T>(t: Trio<T>): Option<Trio<T>> {
    if t.next.Absent? then None else Some(Trio(t.next, Absent, t.prev))
  }

  /** rename(old, live). */
  function Restore<T>(t: Trio<T>): Option<Trio<T>> {
    if t.prev.Absent? then None else Some(Trio(t.prev, t.next, Absent))
  }

  /** rename(live, new). */
  function Demote<T>(t: Trio<T>): Option<Trio<T>> {
    if t.live.Absent? then None else Some(Trio(Absent, t.live, t.prev))
  }

  /** The disk after a call that works; None for a rename whose source is missing. */
  function Exec(d: Disk, call: Call): Option<Disk> {
    match call
    case OpenSerial => Some(d.(serial := d.serial.(next := Torn)))
    case WriteSerial(n) => Some(d.(serial := d.serial.(next := Has(n))))
    case OpenIndex => Some(d.(index := d.index.(next := Torn)))
    case WriteIndex(text) => Some(d.(index := d.index.(next := Has(text))))
    case OpenAttr => Some(d.(attr := d.attr.(next := Torn)))
    case WriteAttr(u) => Some(d.(attr := d.attr.(next := Has(u))))
    case OpenCert(name) => Some(d.(certs := d.certs - {name}))
    case WriteCert(name) => Some(d.(certs := d.certs + {name}))
    case RetireSerial => Some(d.(serial := Retire(d.serial)))
    case RetireIndex => Some(d.(index := Retire(d.index)))
    case RetireAttr => Some(d.(attr := Retire(d.attr)))
    case PromoteSerial => WithSerial(d, Promote(d.serial))
    case RestoreSerial => WithSerial(d, Restore(d.serial))
    case PromoteIndex => WithIndex(d, Promote(d.index))
    case RestoreIndex => WithIndex(d, Restore(d.index))
    case DemoteIndex => WithIndex(d, Demote(d.index))
    case PromoteAttr => WithAttr(d, Promote(d.attr))
    case RestoreAttr => WithAttr(d, Restore(d.attr))
  }

  function WithSerial(d: Disk, t: Option<Trio<nat>>): Option<Disk> {
    match t case None => None case Some(s) => Some(d.(serial := s))
  }

  function WithIndex(d: Disk, t: Option<Trio<string>>): Option<Disk> {
    match t case None => None case Some(i) => Some(d.(index := i))
  }

  function WithAttr(d: Disk, t: Option<Trio<bool>>): Option<Disk> {
    match t case None => None case Some(a) => Some(d.(attr := a))
  }

  /** The undo renames rotate_serial and rotate_index attempt when a call fails. */
  function Rollback(call: Call): seq<Call> {
    match call
    case PromoteSerial => [RestoreSerial]
    case PromoteIndex => [RestoreIndex]
    case RetireAttr => [DemoteIndex, RestoreIndex]
    case PromoteAttr => [RestoreAttr, DemoteIndex, RestoreIndex]
    case _ => []
  }

  /** What becomes of a call; a call that slips does nothing and is not noticed. */
  datatype Fate = Works | Fails | Slips

  /** Writes whose result the code does not look at. */
  predicate Unchecked(call: Call) {
    call.WriteSerial? || call.WriteAttr? || call.WriteCert?
  }

  predicate Passes(call: Call, fate: Fate) {
    fate.Works? || (fate.Slips? && Unchecked(call))
  }

  /** The disk after a call the program is content with. */
  function Step(d: Disk, call: Call, fate: Fate): Option<Disk> {
    if fate.Works? then Exec(d, call) else if Passes(call, fate) then Some(d) else None
  }

  /** save_serial, save_index and the certificate loop go on after a write that failed, except that of the index. */
  lemma {:induction false} Unnoticed(d: Disk, n: nat, text: string, u: bool, name: string)
    ensures Step(d, WriteSerial(n), Slips) == Step(d, WriteAttr(u), Slips) == Step(d, WriteCert(name), Slips) == Some(d)
    ensures Step(d, WriteIndex(text), Slips) == Step(d, OpenSerial, Slips) == Step(d, PromoteIndex, Slips) == None
  {}

  /** Undo calls run one after another whether or not they work; the machine may stop between them. */
  function Undo(d: Disk, calls: seq<Call>, fates: seq<Fate>): Disk
    decreases |calls|
  {
    if calls == [] || fates == [] then d
    else
      var d' := match Step(d, calls[0], fates[0]) case None => d case Some(e) => e;
      Undo(d', calls[1..], fates[1..])
  }

  /**
   * A program of calls under a list of fates. A failure it notices sends the program into its
   * undo calls, and the end of the list is a crash.
   */
  function Perform(d: Disk, calls: seq<Call>, fates: seq<Fate>): Disk
    decreases |calls|
  {
    if calls == [] || fates == [] then d
    else match Step(d, calls[0], fates[0])
      case None => Undo(d, Rollback(calls[0]), fates[1..])
      case Some(d') => Perform(d', calls[1..], fates[1..])
  }

  /** The disk after a program that ran to its end, as far as it could tell. */
  function Passed(d: Disk, calls: seq<Call>, fates: seq<Fate>): Option<Disk>
    decreases |calls|
  {
    if calls == [] then Some(d)
    else if fates == [] then None
    else match Step(d, calls[0], fates[0])
      case None => None
      case Some(d') => Passed(d', calls[1..], fates[1..])
  }

  lemma {:induction false} PassedIsPerformed(d: Disk, calls: seq<Call>, fates: seq<Fate>)
    requires Passed(d, calls, fates).Some?
    ensures Perform(d, calls, fates) == Passed(d, calls, fates).value && |calls| <= |fates|
    decreases |calls|
  {
    if calls != [] {
      PassedIsPerformed(Step(d, calls[0], fates[0]).value, calls[1..], fates[1..]);
    }
  }

  // ------------------------------------------------------------------------
  // The programs

  function SaveSerial(n: nat): seq<Call> { [OpenSerial, WriteSerial(n)] }

  function SaveIndex(text: string, u: bool): seq<Call> { [OpenIndex, WriteIndex(text), OpenAttr, WriteAttr(u)] }

  function WriteCerts(names: seq<string>): seq<Call> {
    if names == [] then [] else [OpenCert(names[0]), WriteCert(names[0])] + WriteCerts(names[1..])
  }

  function RotateSerial(): seq<Call> { [RetireSerial, PromoteSerial] }

  function RotateIndex(): seq<Call> { [RetireIndex, PromoteIndex, RetireAttr, PromoteAttr] }

  /** Committing a batch: both saves, every certificate, then the serial file before the index. */
  function CommitBatch(n: nat, text: string, u: bool, names: seq<string>): seq<Call> {
    SaveSerial(n) + (SaveIndex(text, u) + (WriteCerts(names) + (RotateSerial() + RotateIndex())))
  }

  /** Committing -updatedb or -revoke: the index alone. */
  function CommitIndex(text: string, u: bool): seq<Call> {
    SaveIndex(text, u) + RotateIndex()
  }

  // ------------------------------------------------------------------------
  // Safety of every stopping point

  /** The live file or, while that is missing, the one kept aside. */
  function Current<T>(t: Trio<T>): File<T> {
    if t.live.Absent? then t.prev else t.live
  }

  /**
   * What is asked of every disk: ahead(t, f) says that serial file f is ahead of index text t,
   * good(t, c) that t is an acceptable index beside the certificate files c, unique that no
   * attribute file allows two valid rows of one name. slips are the writes that may slip.
   */
  datatype Rules = Rules(ahead: (string, File<nat>) -> bool, good: (string, set<string>) -> bool, unique: bool,
                         slips: Call -> bool)

  /** There is a current index, and it keeps the rules. */
  ghost predicate Fits(d: Disk, rules: Rules) {
    && Current(d.index).Has?
    && rules.ahead(Current(d.index).value, Current(d.serial))
    && rules.good(Current(d.index).value, d.certs)
    && (rules.unique ==> d.attr.live != Has(false) && d.attr.prev != Has(false))
  }

  /** Fits holds now and after every way the undo calls can go. */
  ghost predicate UndoFits(d: Disk, calls: seq<Call>, rules: Rules)
    decreases |calls|
  {
    && Fits(d, rules)
    && (calls == [] ||
        (&& UndoFits(d, calls[1..], rules)
         && (Exec(d, calls[0]).Some? ==> UndoFits(Exec(d, calls[0]).value, calls[1..], rules))))
  }

  /** Fits holds now and after every way the program can go. */
  ghost predicate AlwaysFits(d: Disk, calls: seq<Call>, rules: Rules)
    decreases |calls|
  {
    && Fits(d, rules)
    && (calls == [] ||
        (&& UndoFits(d, Rollback(calls[0]), rules)
         && (Exec(d, calls[0]).Some? ==> AlwaysFits(Exec(d, calls[0]).value, calls[1..], rules))
         && (Unchecked(calls[0]) && rules.slips(calls[0]) ==> AlwaysFits(d, calls[1..], rules))))
  }

  /** Only writes that may slip do. */
  predicate SlipsWithin(calls: seq<Call>, fates: seq<Fate>, slips: Call -> bool) {
    forall i :: 0 <= i < |calls| && i < |fates| && fates[i].Slips? && Unchecked(calls[i]) ==> slips(calls[i])
  }

  lemma {:induction false} UndoFitsMeans(d: Disk, calls: seq<Call>, fates: seq<Fate>, rules: Rules)
    requires UndoFits(d, calls, rules)
    ensures Fits(Undo(d, calls, fates), rules)
    decreases |calls|
  {
    if calls != [] && fates != [] {
      var d' := match Step(d, calls[0], fates[0]) case None => d case Some(e) => e;
      UndoFitsMeans(d', calls[1..], fates[1..], rules);
    }
  }

  lemma {:induction false} AlwaysFitsMeans(d: Disk, calls: seq<Call>, fates: seq<Fate>, rules: Rules)
    requires AlwaysFits(d, calls, rules) && SlipsWithin(calls, fates, rules.slips)
    ensures Fits(Perform(d, calls, fates), rules)
    decreases |calls|
  {
    if calls != [] && fates != [] {
      match Step(d, calls[0], fates[0]) {
        case None => UndoFitsMeans(d, Rollback(calls[0]), fates[1..], rules);
        case Some(d') =>
          assert SlipsWithin(calls[1..], fates[1..], rules.slips);
          AlwaysFitsMeans(d', calls[1..], fates[1..], rules);
      }
    }
  }

  lemma {:induction false} Prepend(d: Disk, call: Call, rest: seq<Call>, rules: Rules)
    requires Fits(d, rules) && UndoFits(d, Rollback(call), rules)
    requires Exec(d, call).Some? ==> AlwaysFits(Exec(d, call).value, rest, rules)
    requires Unchecked(call) && rules.slips(call) ==> AlwaysFits(d, rest, rules)
    ensures AlwaysFits(d, [call] + rest, rules)
  {
    var p := [call] + rest;
    assert p[0] == call && p[1..] == rest;
  }

  lemma {:induction false} RotateIndexFits(d: Disk, rules: Rules)
    requires d.index.live.Has? && d.index.next.Has? && (rules.unique ==> d.attr.next != Has(false))
    requires Fits(d, rules) && Fits(d.(index := d.index.(live := d.index.next)), rules)
    ensures AlwaysFits(d, RotateIndex(), rules)
  {
    var p := RotateIndex();
    var d1 := Exec(d, p[0]).value;
    var d2 := Exec(d1, p[1]).value;
    AttrFits(d2, rules);
    assert UndoFits(d1, [RestoreIndex], rules);
    Prepend(d1, PromoteIndex, [RetireAttr, PromoteAttr], rules);
    Prepend(d, RetireIndex, [PromoteIndex] + [RetireAttr, PromoteAttr], rules);
    assert p == [RetireIndex] + ([PromoteIndex] + [RetireAttr, PromoteAttr]);
  }

  lemma {:induction false} IndexUndoFits(d: Disk, rules: Rules)
    requires d.index.live.Has? && d.index.prev.Has?
    requires Fits(d, rules) && Fits(d.(index := Trio(d.index.prev, d.index.next, Absent)), rules)
    ensures UndoFits(d, [DemoteIndex, RestoreIndex], rules)
  {
    var d1 := Exec(d, DemoteIndex).value;
    assert [DemoteIndex, RestoreIndex][1..] == [RestoreIndex] && [RestoreIndex][1..] == [];
    assert UndoFits(d, [RestoreIndex], rules) && UndoFits(d1, [RestoreIndex], rules);
  }

  lemma {:induction false} AttrUndoFits(d: Disk, rules: Rules)
    requires d.index.live.Has? && d.index.prev.Has?
    requires Fits(d, rules) && Fits(d.(index := Trio(d.index.prev, d.index.next, Absent)), rules)
    ensures UndoFits(d, [RestoreAttr, DemoteIndex, RestoreIndex], rules)
  {
    IndexUndoFits(d, rules);
    if Exec(d, RestoreAttr).Some? {
      IndexUndoFits(Exec(d, RestoreAttr).value, rules);
    }
    assert [RestoreAttr, DemoteIndex, RestoreIndex][1..] == [DemoteIndex, RestoreIndex];
  }

  /** The renames of the attribute file, which on failure take the index back with them. */
  lemma {:induction false} AttrFits(d: Disk, rules: Rules)
    requires d.index.live.Has? && d.index.prev.Has? && (rules.unique ==> d.attr.next != Has(false))
    requires Fits(d, rules) && Fits(d.(index := Trio(d.index.prev, d.index.next, Absent)), rules)
    ensures AlwaysFits(d, [RetireAttr, PromoteAttr], rules)
  {
    var d3 := Exec(d, RetireAttr).value;
    IndexUndoFits(d, rules);
    AttrUndoFits(d3, rules);
    assert [PromoteAttr] + [] == [PromoteAttr] && [RetireAttr] + [PromoteAttr] == [RetireAttr, PromoteAttr];
    Prepend(d3, PromoteAttr, [], rules);
    Prepend(d, RetireAttr, [PromoteAttr], rules);
  }

  /** Rotating the serial file first: the new one is ahead of the old index and of the new. */
  lemma {:induction false} RotateBothFits(d: Disk, rules: Rules)
    requires d.index.live.Has? && d.index.next.Has? && d.serial.live.Has? && !d.serial.next.Absent?
    requires Fits(d, rules) && (rules.unique ==> d.attr.next != Has(false))
    requires rules.ahead(d.index.live.value, d.serial.next) && rules.ahead(d.index.next.value, d.serial.next)
    requires rules.good(d.index.next.value, d.certs)
    ensures AlwaysFits(d, RotateSerial() + RotateIndex(), rules)
  {
    var d1 := Exec(d, RetireSerial).value;
    var d2 := Exec(d1, PromoteSerial).value;
    RotateIndexFits(d2, rules);
    assert UndoFits(d1, [RestoreSerial], rules);
    Prepend(d1, PromoteSerial, RotateIndex(), rules);
    Prepend(d, RetireSerial, [PromoteSerial] + RotateIndex(), rules);
    assert RotateSerial() + RotateIndex() == [RetireSerial] + ([PromoteSerial] + RotateIndex());
  }

  function NameSet(names: seq<string>): set<string> {
    set i | 0 <= i < |names| :: names[i]
  }

  lemma {:induction false} NamesTail(names: seq<string>)
    requires names != []
    ensures NameSet(names) == {names[0]} + NameSet(names[1..])
  {
    assert forall x :: x in NameSet(names) ==> x == names[0] || x in NameSet(names[1..]) by {
      forall x | x in NameSet(names) ensures x == names[0] || x in NameSet(names[1..]) {
        var i :| 0 <= i < |names| && names[i] == x;
        if i > 0 {
          assert names[1..][i - 1] == x;
        }
      }
    }
    assert forall i :: 0 <= i < |names| - 1 ==> names[1..][i] == names[i + 1];
  }

  /** The index is good beside these certificate files, whatever others there are. */
  ghost predicate GoodBeside(text: string, certs: set<string>, rules: Rules) {
    forall c :: certs <= c ==> rules.good(text, c)
  }

  lemma {:induction false} BesideMore(text: string, certs: set<string>, more: set<string>, rules: Rules)
    requires GoodBeside(text, certs, rules) && certs <= more
    ensures GoodBeside(text, more, rules) && rules.good(text, more)
  {}

  lemma {:induction false} CertSets(certs: set<string>, names: seq<string>)
    requires names != []
    ensures certs + {names[0]} + NameSet(names[1..]) == certs + NameSet(names)
    ensures certs - NameSet(names) <= certs + {names[0]} - NameSet(names[1..])
    ensures certs - NameSet(names) <= certs - {names[0]} - NameSet(names[1..])
    ensures certs - NameSet(names) <= certs - {names[0]} <= certs - {names[0]} + NameSet(names[1..])
  {
    NamesTail(names);
  }

  /** What follows is safe whichever of these certificate files were completed. */
  ghost predicate SafeBeside(d: Disk, certs: set<string>, rest: seq<Call>, rules: Rules) {
    forall c :: certs <= c ==> AlwaysFits(d.(certs := c), rest, rules)
  }

  predicate MaySlip(names: seq<string>, rules: Rules) {
    exists i :: 0 <= i < |names| && rules.slips(WriteCert(names[i]))
  }

  /** Certificate files may be truncated and rewritten as long as the index does without them. */
  lemma {:induction false} WriteCertsFits(d: Disk, names: seq<string>, rest: seq<Call>, loose: bool, rules: Rules)
    requires Fits(d, rules) && (MaySlip(names, rules) ==> loose)
    requires GoodBeside(Current(d.index).value, d.certs - NameSet(names), rules)
    requires AlwaysFits(d.(certs := d.certs + NameSet(names)), rest, rules)
    requires loose ==> SafeBeside(d, d.certs - NameSet(names), rest, rules)
    ensures AlwaysFits(d, WriteCerts(names) + rest, rules)
    decreases |names|
  {
    if names == [] {
      assert d.certs + NameSet(names) == d.certs && WriteCerts(names) + rest == rest;
    } else {
      var n, tail, least := names[0], names[1..], d.certs - NameSet(names);
      CertSets(d.certs, names);
      TailSlips(names, rules);
      assert AlwaysFits(d.(certs := d.certs + {n}), WriteCerts(tail) + rest, rules) by {
        CertStep(d, d.certs + {n}, least, tail, rest, loose, rules);
        WriteCertsFits(d.(certs := d.certs + {n}), tail, rest, loose, rules);
      }
      if loose {
        CertStep(d, d.certs - {n}, least, tail, rest, loose, rules);
        WriteCertsFits(d.(certs := d.certs - {n}), tail, rest, loose, rules);
      }
      BesideMore(Current(d.index).value, least, d.certs - {n}, rules);
      assert rules.slips(WriteCert(n)) ==> MaySlip(names, rules);
      WriteCertFits(d, n, WriteCerts(tail) + rest, rules);
      CertCallsSplit(names, rest);
    }
  }

  lemma {:induction false} TailSlips(names: seq<string>, rules: Rules)
    requires names != []
    ensures MaySlip(names[1..], rules) ==> MaySlip(names, rules)
  {
    if MaySlip(names[1..], rules) {
      var i :| 0 <= i < |names[1..]| && rules.slips(WriteCert(names[1..][i]));
      assert names[i + 1] == names[1..][i];
    }
  }

  /** The state after one certificate meets what the rest of them asks. */
  lemma {:induction false} CertStep(d: Disk, certs: set<string>, least: set<string>, tail: seq<string>, rest: seq<Call>,
                                    loose: bool, rules: Rules)
    requires Fits(d, rules) && GoodBeside(Current(d.index).value, least, rules)
    requires least <= certs - NameSet(tail) && least <= certs
    requires loose ==> SafeBeside(d, least, rest, rules)
    ensures var d' := d.(certs := certs);
      && Fits(d', rules) && GoodBeside(Current(d'.index).value, certs - NameSet(tail), rules)
      && (loose ==> SafeBeside(d', certs - NameSet(tail), rest, rules))
      && (loose ==> AlwaysFits(d'.(certs := certs + NameSet(tail)), rest, rules))
  {
    BesideMore(Current(d.index).value, least, certs - NameSet(tail), rules);
    BesideMore(Current(d.index).value, least, certs, rules);
    if loose {
      SafeMore(d, certs, least, certs - NameSet(tail), rest, rules);
      SafeMore(d, certs, least, certs + NameSet(tail), rest, rules);
    }
  }

  lemma {:induction false} SafeMore(d: Disk, certs: set<string>, least: set<string>, more: set<string>, rest: seq<Call>, rules: Rules)
    requires SafeBeside(d, least, rest, rules) && least <= more
    ensures SafeBeside(d.(certs := certs), more, rest, rules) && AlwaysFits(d.(certs := certs).(certs := more), rest, rules)
  {
    assert forall c :: d.(certs := certs).(certs := c) == d.(certs := c);
    assert AlwaysFits(d.(certs := more), rest, rules);
  }

  lemma {:induction false} WriteCertFits(d: Disk, name: string, rest: seq<Call>, rules: Rules)
    requires Fits(d, rules) && rules.good(Current(d.index).value, d.certs - {name})
    requires AlwaysFits(d.(certs := d.certs + {name}), rest, rules)
    requires rules.slips(WriteCert(name)) ==> AlwaysFits(d.(certs := d.certs - {name}), rest, rules)
    ensures AlwaysFits(d, [OpenCert(name)] + ([WriteCert(name)] + rest), rules)
  {
    var d1 := Exec(d, OpenCert(name)).value;
    assert d1.certs + {name} == d.certs + {name};
    Prepend(d1, WriteCert(name), rest, rules);
    Prepend(d, OpenCert(name), [WriteCert(name)] + rest, rules);
  }

  lemma {:induction false} CertCallsSplit(names: seq<string>, rest: seq<Call>)
    requires names != []
    ensures WriteCerts(names) + rest == [OpenCert(names[0])] + ([WriteCert(names[0])] + (WriteCerts(names[1..]) + rest))
  {}

  /** Writing ".new" files disturbs nothing live. */
  lemma {:induction false} SaveIndexFits(d: Disk, text: string, u: bool, rest: seq<Call>, rules: Rules)
    requires Fits(d, rules)
    requires AlwaysFits(d.(index := d.index.(next := Has(text)), attr := d.attr.(next := Has(u))), rest, rules)
    requires AlwaysFits(d.(index := d.index.(next := Has(text)), attr := d.attr.(next := Torn)), rest, rules)
    ensures AlwaysFits(d, SaveIndex(text, u) + rest, rules)
  {
    var d1 := Exec(d, OpenIndex).value;
    var d2 := Exec(d1, WriteIndex(text)).value;
    var d3 := Exec(d2, OpenAttr).value;
    Prepend(d3, WriteAttr(u), rest, rules);
    Prepend(d2, OpenAttr, [WriteAttr(u)] + rest, rules);
    Prepend(d1, WriteIndex(text), [OpenAttr] + ([WriteAttr(u)] + rest), rules);
    Prepend(d, OpenIndex, [WriteIndex(text)] + ([OpenAttr] + ([WriteAttr(u)] + rest)), rules);
    assert SaveIndex(text, u) + rest == [OpenIndex] + ([WriteIndex(text)] + ([OpenAttr] + ([WriteAttr(u)] + rest)));
  }

  lemma {:induction false} SaveSerialFits(d: Disk, n: nat, rest: seq<Call>, rules: Rules)
    requires Fits(d, rules)
    requires AlwaysFits(d.(serial := d.serial.(next := Has(n))), rest, rules)
    requires rules.slips(WriteSerial(n)) ==> AlwaysFits(d.(serial := d.serial.(next := Torn)), rest, rules)
    ensures AlwaysFits(d, SaveSerial(n) + rest, rules)
  {
    var d1 := Exec(d, OpenSerial).value;
    Prepend(d1, WriteSerial(n), rest, rules);
    Prepend(d, OpenSerial, [WriteSerial(n)] + rest, rules);
    assert SaveSerial(n) + rest == [OpenSerial] + ([WriteSerial(n)] + rest);
  }

  /** Every stopping point of a batch commit is safe. */
  lemma {:induction false} CommitBatchFits(d: Disk, n: nat, text: string, u: bool, names: seq<string>, rules: Rules)
    requires d.index.live.Has? && d.serial.live.Has? && Fits(d, rules) && (rules.unique ==> u)
    requires rules.ahead(d.index.live.value, Has(n)) && rules.ahead(text, Has(n))
    requires rules.slips(WriteSerial(n)) ==> rules.ahead(d.index.live.value, Torn) && rules.ahead(text, Torn)
    requires GoodBeside(d.index.live.value, d.certs - NameSet(names), rules)
    requires rules.good(text, d.certs + NameSet(names))
    requires MaySlip(names, rules) ==> GoodBeside(text, d.certs - NameSet(names), rules)
    ensures AlwaysFits(d, CommitBatch(n, text, u, names), rules)
  {
    var rest := SaveIndex(text, u) + (WriteCerts(names) + (RotateSerial() + RotateIndex()));
    AfterSerialFits(d, Has(n), text, u, names, rules);
    if rules.slips(WriteSerial(n)) {
      AfterSerialFits(d, Torn, text, u, names, rules);
    }
    SaveSerialFits(d, n, rest, rules);
  }

  lemma {:induction false} AfterSerialFits(d: Disk, f: File<nat>, text: string, u: bool, names: seq<string>, rules: Rules)
    requires d.index.live.Has? && d.serial.live.Has? && Fits(d, rules) && (rules.unique ==> u) && !f.Absent?
    requires rules.ahead(d.index.live.value, f) && rules.ahead(text, f)
    requires GoodBeside(d.index.live.value, d.certs - NameSet(names), rules)
    requires rules.good(text, d.certs + NameSet(names))
    requires MaySlip(names, rules) ==> GoodBeside(text, d.certs - NameSet(names), rules)
    ensures AlwaysFits(d.(serial := d.serial.(next := f)),
                       SaveIndex(text, u) + (WriteCerts(names) + (RotateSerial() + RotateIndex())), rules)
  {
    var d1 := d.(serial := d.serial.(next := f));
    AfterSavesFits(d1, text, Has(u), names, rules);
    AfterSavesFits(d1, text, Torn, names, rules);
    SaveIndexFits(d1, text, u, WriteCerts(names) + (RotateSerial() + RotateIndex()), rules);
  }

  lemma {:induction false} AfterSavesFits(d: Disk, text: string, a: File<bool>, names: seq<string>, rules: Rules)
    requires d.index.live.Has? && d.serial.live.Has? && Fits(d, rules) && (rules.unique ==> a != Has(false)) && !d.serial.next.Absent?
    requires rules.ahead(d.index.live.value, d.serial.next) && rules.ahead(text, d.serial.next)
    requires GoodBeside(d.index.live.value, d.certs - NameSet(names), rules)
    requires rules.good(text, d.certs + NameSet(names))
    requires MaySlip(names, rules) ==> GoodBeside(text, d.certs - NameSet(names), rules)
    ensures AlwaysFits(d.(index := d.index.(next := Has(text)), attr := d.attr.(next := a)),
                       WriteCerts(names) + (RotateSerial() + RotateIndex()), rules)
  {
    var d1 := d.(index := d.index.(next := Has(text)), attr := d.attr.(next := a));
    var rotate, least := RotateSerial() + RotateIndex(), d.certs - NameSet(names);
    BesideMore(d.index.live.value, least, d.certs + NameSet(names), rules);
    RotateBothFits(d1.(certs := d.certs + NameSet(names)), rules);
    if MaySlip(names, rules) {
      forall c | least <= c ensures AlwaysFits(d1.(certs := c), rotate, rules) {
        BesideMore(d.index.live.value, least, c, rules);
        BesideMore(text, least, c, rules);
        RotateBothFits(d1.(certs := c), rules);
      }
    }
    WriteCertsFits(d1, names, rotate, MaySlip(names, rules), rules);
  }

  /** Every stopping point of an index commit is safe. */
  lemma {:induction false} CommitIndexFits(d: Disk, text: string, u: bool, rules: Rules)
    requires d.index.live.Has? && Fits(d, rules) && (rules.unique ==> u)
    requires rules.ahead(text, Current(d.serial)) && rules.good(text, d.certs)
    ensures AlwaysFits(d, CommitIndex(text, u), rules)
  {
    var d1 := d.(index := d.index.(next := Has(text)), attr := d.attr.(next := Has(u)));
    var d2 := d.(index := d.index.(next := Has(text)), attr := d.attr.(next := Torn));
    RotateIndexFits(d1, rules);
    RotateIndexFits(d2, rules);
    SaveIndexFits(d, text, u, RotateIndex(), rules);
  }

  // ------------------------------------------------------------------------
  // Programs that run to their end

  /** What a write leaves of a file that was opened. */
  function Put<T>(fate: Fate, value: T): File<T> {
    if fate.Works? then Has(value) else Torn
  }

  predicate AllWork(fates: seq<Fate>, n: nat) {
    n <= |fates| && forall i :: 0 <= i < n ==> fates[i].Works?
  }

  lemma {:induction false} PassedAppend(d: Disk, a: seq<Call>, b: seq<Call>, fates: seq<Fate>)
    ensures Passed(d, a, fates).None? ==> Passed(d, a + b, fates).None?
    ensures Passed(d, a, fates).Some? ==>
      |a| <= |fates| && Passed(d, a + b, fates) == Passed(Passed(d, a, fates).value, b, fates[|a|..])
    decreases |a|
  {
    if a == [] {
      assert a + b == b && fates[0..] == fates;
    } else {
      assert (a + b)[0] == a[0] && (a + b)[1..] == a[1..] + b;
      if fates != [] && Step(d, a[0], fates[0]).Some? {
        PassedAppend(Step(d, a[0], fates[0]).value, a[1..], b, fates[1..]);
        assert |a| <= |fates| ==> fates[1..][|a| - 1..] == fates[|a|..];
      }
    }
  }

  lemma {:induction false} PassedTwo(d: Disk, a: Call, b: Call, fates: seq<Fate>)
    ensures Passed(d, [a, b], fates) ==
      if |fates| < 2 || Step(d, a, fates[0]).None? then None else Step(Step(d, a, fates[0]).value, b, fates[1])
  {
    assert [a, b][1..] == [b] && [b][1..] == [];
    if |fates| >= 1 && Step(d, a, fates[0]).Some? {
      var d1 := Step(d, a, fates[0]).value;
      assert Passed(d, [a, b], fates) == Passed(d1, [b], fates[1..]);
      if |fates| >= 2 && Step(d1, b, fates[1]).Some? {
        assert Passed(Step(d1, b, fates[1]).value, [], fates[2..]).Some?;
      }
    }
  }

  lemma {:induction false} SerialSaved(d: Disk, n: nat, fates: seq<Fate>)
    ensures var r := Passed(d, SaveSerial(n), fates);
      && (r.Some? ==> |fates| >= 2 && r.value == d.(serial := d.serial.(next := Put(fates[1], n))))
      && (AllWork(fates, 2) ==> r.Some?)
  {
    PassedTwo(d, OpenSerial, WriteSerial(n), fates);
  }

  lemma {:induction false} IndexSaved(d: Disk, text: string, u: bool, fates: seq<Fate>)
    ensures var r := Passed(d, SaveIndex(text, u), fates);
      && (r.Some? ==>
          && |fates| >= 4
          && r.value == d.(index := d.index.(next := Has(text)), attr := d.attr.(next := Put(fates[3], u))))
      && (AllWork(fates, 4) ==> r.Some?)
  {
    var first, second := [OpenIndex, WriteIndex(text)], [OpenAttr, WriteAttr(u)];
    assert SaveIndex(text, u) == first + second;
    PassedAppend(d, first, second, fates);
    PassedTwo(d, OpenIndex, WriteIndex(text), fates);
    if Passed(d, first, fates).Some? {
      PassedTwo(d.(index := d.index.(next := Has(text))), OpenAttr, WriteAttr(u), fates[2..]);
    }
  }

  lemma {:induction false} CertsWritten(d: Disk, names: seq<string>, fates: seq<Fate>)
    ensures var r := Passed(d, WriteCerts(names), fates);
      && (r.Some? ==> |fates| >= 2 * |names| && r.value == d.(certs := r.value.certs))
      && (AllWork(fates, 2 * |names|) ==> r.Some? && r.value.certs == d.certs + NameSet(names))
    decreases |names|
  {
    if names == [] {
      assert d.certs + NameSet(names) == d.certs;
    } else {
      var first := [OpenCert(names[0]), WriteCert(names[0])];
      PassedAppend(d, first, WriteCerts(names[1..]), fates);
      PassedTwo(d, first[0], first[1], fates);
      if Passed(d, first, fates).Some? {
        var d1 := Passed(d, first, fates).value;
        CertsWritten(d1, names[1..], fates[2..]);
        if AllWork(fates, 2 * |names|) {
          assert AllWork(fates[2..], 2 * |names[1..]|);
          assert d1.certs == d.certs + {names[0]};
          CertSets(d.certs, names);
        }
      }
    }
  }

  lemma {:induction false} SerialRotated(d: Disk, fates: seq<Fate>)
    requires d.serial.live.Has? && !d.serial.next.Absent?
    ensures var r := Passed(d, RotateSerial(), fates);
      && (r.Some? ==> |fates| >= 2 && r.value == d.(serial := Trio(d.serial.next, Absent, d.serial.live)))
      && (AllWork(fates, 2) ==> r.Some?)
  {
    PassedTwo(d, RetireSerial, PromoteSerial, fates);
  }

  lemma {:induction false} IndexRotated(d: Disk, fates: seq<Fate>)
    requires d.index.live.Has? && d.index.next.Has? && !d.attr.next.Absent?
    ensures var r := Passed(d, RotateIndex(), fates);
      && (r.Some? ==> |fates| >= 4 && r.value == d.(
          index := Trio(d.index.next, Absent, d.index.live),
          attr := Trio(d.attr.next, Absent, if d.attr.live.Absent? then d.attr.prev else d.attr.live)))
      && (AllWork(fates, 4) ==> r.Some?)
  {
    var first, second := [RetireIndex, PromoteIndex], [RetireAttr, PromoteAttr];
    assert RotateIndex() == first + second;
    PassedAppend(d, first, second, fates);
    PassedTwo(d, RetireIndex, PromoteIndex, fates);
    if Passed(d, first, fates).Some? {
      PassedTwo(d.(index := Trio(d.index.next, Absent, d.index.live)), RetireAttr, PromoteAttr, fates[2..]);
    }
  }

  /** What an index commit that ran to its end leaves. */
  lemma {:induction false} CommitIndexCompletes(d: Disk, text: string, u: bool, fates: seq<Fate>)
    requires d.index.live.Has?
    ensures var r := Passed(d, CommitIndex(text, u), fates);
      && (r.Some? ==>
          && |fates| >= 8
          && r.value.index == Trio(Has(text), Absent, d.index.live) && r.value.attr.live == Put(fates[3], u)
          && r.value.serial == d.serial && r.value.certs == d.certs)
      && (AllWork(fates, 8) ==> r.Some?)
  {
    PassedAppend(d, SaveIndex(text, u), RotateIndex(), fates);
    IndexSaved(d, text, u, fates);
    if Passed(d, SaveIndex(text, u), fates).Some? {
      IndexRotated(Passed(d, SaveIndex(text, u), fates).value, fates[4..]);
      assert AllWork(fates, 8) ==> AllWork(fates[4..], 4);
    }
  }

  /**
   * What a batch commit that ran to its end leaves: the new index and, if their writes did not
   * slip, the new serial number and attribute; if no write slipped, every certificate.
   */
  lemma {:induction false} CommitBatchCompletes(d: Disk, n: nat, text: string, u: bool, names: seq<string>, fates: seq<Fate>)
    requires d.index.live.Has? && d.serial.live.Has?
    ensures var r, k := Passed(d, CommitBatch(n, text, u, names), fates), 12 + 2 * |names|;
      && (r.Some? ==>
          && |fates| >= k
          && r.value.serial == Trio(Put(fates[1], n), Absent, d.serial.live)
          && r.value.index == Trio(Has(text), Absent, d.index.live) && r.value.attr.live == Put(fates[5], u))
      && (AllWork(fates, k) ==> r.Some? && r.value.certs == d.certs + NameSet(names))
  {
    var a, b := SavesAndCerts(n, text, u, names), RotateSerial() + RotateIndex();
    var k := 6 + 2 * |names|;
    CommitSplit(n, text, u, names);
    PassedAppend(d, a, b, fates);
    SavedAndWritten(d, n, text, u, names, fates);
    if Passed(d, a, fates).Some? {
      var d1 := Passed(d, a, fates).value;
      var f := fates[k..];
      PassedAppend(d1, RotateSerial(), RotateIndex(), f);
      SerialRotated(d1, f);
      assert AllWork(fates, 12 + 2 * |names|) ==> AllWork(f, 2) && AllWork(f[2..], 4);
      if Passed(d1, RotateSerial(), f).Some? {
        IndexRotated(Passed(d1, RotateSerial(), f).value, f[2..]);
      }
    }
  }

  function SavesAndCerts(n: nat, text: string, u: bool, names: seq<string>): seq<Call> {
    SaveSerial(n) + (SaveIndex(text, u) + WriteCerts(names))
  }

  lemma {:induction false} CommitSplit(n: nat, text: string, u: bool, names: seq<string>)
    ensures CommitBatch(n, text, u, names) == SavesAndCerts(n, text, u, names) + (RotateSerial() + RotateIndex())
    ensures |SavesAndCerts(n, text, u, names)| == 6 + 2 * |names|
  {
    CertCalls(names);
  }

  lemma {:induction false} SavedAndWritten(d: Disk, n: nat, text: string, u: bool, names: seq<string>, fates: seq<Fate>)
    ensures var r, k := Passed(d, SavesAndCerts(n, text, u, names), fates), 6 + 2 * |names|;
      && (r.Some? ==> |fates| >= k && r.value == d.(serial := d.serial.(next := Put(fates[1], n)),
          index := d.index.(next := Has(text)), attr := d.attr.(next := Put(fates[5], u)), certs := r.value.certs))
      && (AllWork(fates, k) ==> r.Some? && r.value.certs == d.certs + NameSet(names))
  {
    var k := 6 + 2 * |names|;
    PassedAppend(d, SaveSerial(n), SaveIndex(text, u) + WriteCerts(names), fates);
    SerialSaved(d, n, fates);
    if Passed(d, SaveSerial(n), fates).Some? {
      var d1, f := Passed(d, SaveSerial(n), fates).value, fates[2..];
      PassedAppend(d1, SaveIndex(text, u), WriteCerts(names), f);
      IndexSaved(d1, text, u, f);
      assert AllWork(fates, k) ==> AllWork(f, 4) && AllWork(f[4..], 2 * |names|);
      if Passed(d1, SaveIndex(text, u), f).Some? {
        CertsWritten(Passed(d1, SaveIndex(text, u), f).value, names, f[4..]);
      }
    }
  }

  // ------------------------------------------------------------------------
  // Which certificates are out while their serial numbers are not taken

  /** How many calls pass before the first that does not. */
  function Passing(calls: seq<Call>, fates: seq<Fate>): (k: nat)
    ensures k <= |calls| && k <= |fates|
    ensures forall i :: 0 <= i < k ==> Passes(calls[i], fates[i])
    ensures k < |calls| && k < |fates| ==> !Passes(calls[k], fates[k])
    decreases |calls|
  {
    if calls == [] || fates == [] || !Passes(calls[0], fates[0]) then 0
    else
      var k := Passing(calls[1..], fates[1..]);
      assert forall i :: 1 <= i < k + 1 ==> calls[i] == calls[1..][i - 1] && fates[i] == fates[1..][i - 1];
      1 + k
  }

  /** The certificate files that a program completes. */
  function WrittenBy(calls: seq<Call>, fates: seq<Fate>): set<string> {
    set j | 0 <= j < Passing(calls, fates) && calls[j].WriteCert? && fates[j].Works? :: calls[j].name
  }

  /** Calls that rename nothing and cannot fail for lack of a file. */
  predicate Quiet(call: Call) {
    call.OpenSerial? || call.WriteSerial? || call.OpenIndex? || call.WriteIndex? || call.OpenAttr? || call.WriteAttr?
    || call.OpenCert? || call.WriteCert?
  }

  lemma {:induction false} QuietKeeps(d: Disk, calls: seq<Call>, fates: seq<Fate>)
    requires forall i :: 0 <= i < |calls| ==> Quiet(calls[i])
    ensures Perform(d, calls, fates).serial.live == d.serial.live && Perform(d, calls, fates).index.live == d.index.live
    ensures Perform(d, calls, fates).attr.live == d.attr.live
    ensures Passing(calls, fates) == |calls| <==> Passed(d, calls, fates).Some?
    decreases |calls|
  {
    if calls != [] && fates != [] && Passes(calls[0], fates[0]) {
      QuietKeeps(Step(d, calls[0], fates[0]).value, calls[1..], fates[1..]);
    }
  }

  /** A program that gets past a goes on with b, and one that does not never sees b. */
  lemma {:induction false} PerformAppend(d: Disk, a: seq<Call>, b: seq<Call>, fates: seq<Fate>)
    requires forall i :: 0 <= i < |a| ==> Quiet(a[i])
    ensures Passed(d, a, fates).Some? ==>
      && |a| <= |fates|
      && Perform(d, a + b, fates) == Perform(Passed(d, a, fates).value, b, fates[|a|..])
      && Passing(a + b, fates) == |a| + Passing(b, fates[|a|..])
    ensures Passed(d, a, fates).None? ==>
      Perform(d, a + b, fates) == Perform(d, a, fates) && Passing(a + b, fates) == Passing(a, fates) < |a|
    decreases |a|
  {
    if a == [] {
      assert a + b == b && fates[0..] == fates;
    } else {
      assert (a + b)[0] == a[0] && (a + b)[1..] == a[1..] + b;
      if fates != [] && Passes(a[0], fates[0]) {
        PerformAppend(Step(d, a[0], fates[0]).value, a[1..], b, fates[1..]);
        assert |a| <= |fates| ==> fates[1..][|a| - 1..] == fates[|a|..];
      }
    }
  }

  lemma {:induction false} CertCalls(names: seq<string>)
    ensures |WriteCerts(names)| == 2 * |names|
    ensures forall i :: 0 <= i < 2 * |names| ==>
      WriteCerts(names)[i] == if i % 2 == 0 then OpenCert(names[i / 2]) else WriteCert(names[i / 2])
    decreases |names|
  {
    if names != [] {
      CertCalls(names[1..]);
      forall i | 2 <= i < 2 * |names|
        ensures WriteCerts(names)[i] == if i % 2 == 0 then OpenCert(names[i / 2]) else WriteCert(names[i / 2])
      {
        assert WriteCerts(names)[i] == WriteCerts(names[1..])[i - 2] && names[1..][(i - 2) / 2] == names[i / 2];
      }
    }
  }

  /** Renames of the index leave the serial file alone. */
  lemma {:induction false} IndexCallsKeepSerial(d: Disk, calls: seq<Call>, fates: seq<Fate>)
    requires forall i :: 0 <= i < |calls| ==> calls[i].RetireIndex? || calls[i].PromoteIndex? || calls[i].RetireAttr? || calls[i].PromoteAttr?
    ensures Perform(d, calls, fates).serial == d.serial
    decreases |calls|
  {
    if calls != [] && fates != [] {
      match Step(d, calls[0], fates[0]) {
        case None => UndoKeepsSerial(d, Rollback(calls[0]), fates[1..]);
        case Some(d') => IndexCallsKeepSerial(d', calls[1..], fates[1..]);
      }
    }
  }

  lemma {:induction false} UndoKeepsSerial(d: Disk, calls: seq<Call>, fates: seq<Fate>)
    requires forall i :: 0 <= i < |calls| ==> calls[i].RestoreIndex? || calls[i].DemoteIndex? || calls[i].RestoreAttr?
    ensures Undo(d, calls, fates).serial == d.serial
    decreases |calls|
  {
    if calls != [] && fates != [] {
      var d' := match Step(d, calls[0], fates[0]) case None => d case Some(e) => e;
      UndoKeepsSerial(d', calls[1..], fates[1..]);
    }
  }

  lemma {:induction false} PerformOne(d: Disk, call: Call, rest: seq<Call>, fates: seq<Fate>)
    requires fates != []
    ensures Perform(d, [call] + rest, fates) ==
      match Step(d, call, fates[0])
      case None => Undo(d, Rollback(call), fates[1..])
      case Some(d') => Perform(d', rest, fates[1..])
    ensures Passing([call] + rest, fates) == if Passes(call, fates[0]) then 1 + Passing(rest, fates[1..]) else 0
  {
    assert ([call] + rest)[0] == call && ([call] + rest)[1..] == rest;
  }

  /** The live serial file after the two rotations. */
  lemma {:induction false} SerialAfterRotation(d: Disk, fates: seq<Fate>)
    requires d.serial.live.Has? && !d.serial.next.Absent?
    ensures var calls := RotateSerial() + RotateIndex();
      var k, d' := Passing(calls, fates), Perform(d, calls, fates);
      && d'.serial ==
         (if k == 0 then d.serial
          else if k == 1 then
            (if |fates| >= 3 && fates[2].Works? then Trio(d.serial.live, d.serial.next, Absent)
             else Trio(Absent, d.serial.next, d.serial.live))
          else Trio(d.serial.next, Absent, d.serial.live))
      && (k <= 1 ==> d'.index.live == d.index.live && d'.attr.live == d.attr.live)
  {
    var rest := RotateIndex();
    var d1 := Exec(d, RetireSerial).value;
    assert RotateSerial() + rest == [RetireSerial] + ([PromoteSerial] + rest);
    if fates != [] {
      PerformOne(d, RetireSerial, [PromoteSerial] + rest, fates);
      if fates[0].Works? {
        var f1 := fates[1..];
        if f1 != [] {
          PerformOne(d1, PromoteSerial, rest, f1);
          if f1[0].Works? {
            IndexCallsKeepSerial(Exec(d1, PromoteSerial).value, rest, f1[1..]);
          } else {
            assert [RestoreSerial][1..] == [];
            assert |fates| >= 3 ==> f1[1..][0] == fates[2];
          }
        }
      }
    }
  }

  /** The serial file, with its companions, after k calls of a batch commit of m certificates passed. */
  function SerialLeft(s: Trio<nat>, next: File<nat>, k: nat, m: nat, fates: seq<Fate>): Trio<nat> {
    if k == 6 + 2 * m || (k == 7 + 2 * m && |fates| >= k + 2 && fates[k + 1].Works?) then
      Trio(s.live, next, if k == 6 + 2 * m then s.prev else Absent)
    else if k == 7 + 2 * m then Trio(Absent, next, s.live)
    else Trio(next, Absent, s.live)
  }

  /** Where any batch commit leaves the serial file, and the index as long as that is not rotated. */
  lemma {:induction false} SerialAfterCommit(d: Disk, n: nat, text: string, u: bool, names: seq<string>, fates: seq<Fate>)
    requires d.serial.live.Has?
    ensures var calls, m := CommitBatch(n, text, u, names), |names|;
      var d', k := Perform(d, calls, fates), Passing(calls, fates);
      && (k < 6 + 2 * m ==> d'.serial.live == d.serial.live)
      && (k >= 6 + 2 * m ==> |fates| >= 2 && d'.serial == SerialLeft(d.serial, Put(fates[1], n), k, m, fates))
      && (k <= 7 + 2 * m ==> d'.index.live == d.index.live && d'.attr.live == d.attr.live)
  {
    var a, b := SavesAndCerts(n, text, u, names), RotateSerial() + RotateIndex();
    var j := 6 + 2 * |names|;
    CommitSplit(n, text, u, names);
    SavesAreQuiet(n, text, u, names);
    PerformAppend(d, a, b, fates);
    SavedAndWritten(d, n, text, u, names, fates);
    if Passed(d, a, fates).Some? {
      SerialAfterRotation(Passed(d, a, fates).value, fates[j..]);
      assert |fates| >= j + 3 ==> fates[j..][2] == fates[j + 2];
    } else {
      QuietKeeps(d, a, fates);
    }
  }

  lemma {:induction false} SavesAreQuiet(n: nat, text: string, u: bool, names: seq<string>)
    ensures forall i :: 0 <= i < |SavesAndCerts(n, text, u, names)| ==> Quiet(SavesAndCerts(n, text, u, names)[i])
  {
    CertCalls(names);
  }

  /** A batch commit loses the serial number if and only if its write slipped and the empty file was promoted. */
  lemma {:induction false} SerialLostIff(d: Disk, n: nat, text: string, u: bool, names: seq<string>, fates: seq<Fate>)
    requires d.serial.live.Has?
    ensures var calls := CommitBatch(n, text, u, names);
      Current(Perform(d, calls, fates).serial).Has? <==>
      !(Passing(calls, fates) >= 8 + 2 * |names| && fates[1].Slips?)
  {
    var calls := CommitBatch(n, text, u, names);
    SerialAfterCommit(d, n, text, u, names, fates);
    if Passing(calls, fates) >= 2 {
      assert Passes(calls[1], fates[1]);
    }
  }

  /** Some certificate was written while the number it has is still free. */
  predicate Window(k: nat, m: nat, fates: seq<Fate>)
    requires k <= |fates|
  {
    && (exists j :: 6 <= j < k && j < 6 + 2 * m && j % 2 == 1 && fates[j].Works?)
    && (k <= 6 + 2 * m || (k == 7 + 2 * m && |fates| >= k + 2 && fates[k + 1].Works?))
  }

  /** Inside the window the live serial file, index and attribute file are the old ones. */
  lemma {:induction false} WindowKeeps(d: Disk, n: nat, text: string, u: bool, names: seq<string>, fates: seq<Fate>)
    requires d.serial.live.Has? && Window(Passing(CommitBatch(n, text, u, names), fates), |names|, fates)
    ensures var d' := Perform(d, CommitBatch(n, text, u, names), fates);
      d'.serial.live == d.serial.live && d'.index.live == d.index.live && d'.attr.live == d.attr.live
  {
    SerialAfterCommit(d, n, text, u, names, fates);
  }

  /** A certificate file that the window asks for. */
  lemma {:induction false} WindowWrites(n: nat, text: string, u: bool, names: seq<string>, fates: seq<Fate>) returns (i: nat)
    requires Window(Passing(CommitBatch(n, text, u, names), fates), |names|, fates)
    ensures i < |names| && names[i] in WrittenBy(CommitBatch(n, text, u, names), fates)
  {
    var k := Passing(CommitBatch(n, text, u, names), fates);
    var j :| 6 <= j < k && j < 6 + 2 * |names| && j % 2 == 1 && fates[j].Works?;
    i := (j - 7) / 2;
    assert j == 7 + 2 * i;
    WrittenIff(n, text, u, names, fates, i);
  }

  /** A batch commit completes exactly the certificate files whose writes it reaches and that work. */
  lemma {:induction false} WrittenIff(n: nat, text: string, u: bool, names: seq<string>, fates: seq<Fate>, i: nat)
    requires i < |names|
    ensures var calls := CommitBatch(n, text, u, names);
      7 + 2 * i < Passing(calls, fates) && fates[7 + 2 * i].Works? ==> names[i] in WrittenBy(calls, fates)
  {
    var calls := CommitBatch(n, text, u, names);
    CertCalls(names);
    assert calls[7 + 2 * i] == WriteCert(names[i]);
  }

  lemma {:induction false} CertCallAt(n: nat, text: string, u: bool, names: seq<string>, j: nat)
    requires j < |CommitBatch(n, text, u, names)| && CommitBatch(n, text, u, names)[j].WriteCert?
    ensures 6 <= j < 6 + 2 * |names| && j % 2 == 1
    ensures CommitBatch(n, text, u, names)[j].name == names[(j - 6) / 2]
  {
    var saves, certs, rotate := SaveSerial(n) + SaveIndex(text, u), WriteCerts(names), RotateSerial() + RotateIndex();
    assert CommitBatch(n, text, u, names) == saves + certs + rotate;
    CertCalls(names);
    assert forall i :: 0 <= i < 6 ==> !saves[i].WriteCert? && !rotate[i].WriteCert?;
  }

  lemma {:induction false} WrittenWhere(n: nat, text: string, u: bool, names: seq<string>, fates: seq<Fate>, x: string) returns (j: nat)
    requires x in WrittenBy(CommitBatch(n, text, u, names), fates)
    ensures 6 <= j < Passing(CommitBatch(n, text, u, names), fates) && j < 6 + 2 * |names| && j % 2 == 1 && fates[j].Works?
    ensures names[(j - 6) / 2] == x
  {
    var calls := CommitBatch(n, text, u, names);
    j :| 0 <= j < Passing(calls, fates) && calls[j].WriteCert? && fates[j].Works? && calls[j].name == x;
    CertCallAt(n, text, u, names, j);
  }

  // ------------------------------------------------------------------------
  // Undoing a failed rotation

  /** The fates in which call number k fails and every other call works. */
  predicate OnlyFails(fates: seq<Fate>, k: nat) {
    k < |fates| && forall i :: 0 <= i < |fates| ==> fates[i] == if i == k then Fails else Works
  }

  lemma {:induction false} UndoOne(d: Disk, call: Call, rest: seq<Call>, fates: seq<Fate>)
    requires fates != [] && fates[0].Works?
    ensures Undo(d, [call] + rest, fates) ==
      Undo(if Exec(d, call).Some? then Exec(d, call).value else d, rest, fates[1..])
  {
    assert ([call] + rest)[0] == call && ([call] + rest)[1..] == rest;
  }

  /** Undoing a promoted index puts the old one back. */
  lemma {:induction false} IndexUndone(d: Disk, was: File<string>, fates: seq<Fate>)
    requires |fates| >= 2 && fates[0].Works? && fates[1].Works?
    requires d.index.live.Has? && d.index.prev == was && was.Has?
    ensures var d' := Undo(d, [DemoteIndex, RestoreIndex], fates); d'.index.live == was && d'.attr == d.attr
  {
    UndoOne(d, DemoteIndex, [RestoreIndex], fates);
    UndoOne(Exec(d, DemoteIndex).value, RestoreIndex, [], fates[1..]);
    assert [DemoteIndex] + [RestoreIndex] == [DemoteIndex, RestoreIndex];
    assert [RestoreIndex] + [] == [RestoreIndex];
  }

  lemma {:induction false} AttrStageRestores(d: Disk, was: File<string>, k: nat, fates: seq<Fate>)
    requires d.index.live.Has? && d.index.prev == was && was.Has? && d.attr.next.Has?
    requires k < 2 && |fates| >= k + 4 && OnlyFails(fates, k)
    ensures var d' := Perform(d, [RetireAttr] + [PromoteAttr], fates);
      d'.index.live == was && d'.attr.live == if k == 1 then Current(d.attr) else d.attr.live
  {
    PerformOne(d, RetireAttr, [PromoteAttr], fates);
    if k == 0 {
      IndexUndone(d, was, fates[1..]);
    } else {
      var d1 := Exec(d, RetireAttr).value;
      assert [PromoteAttr] + [] == [PromoteAttr] && fates[1..][1..] == fates[2..];
      PerformOne(d1, PromoteAttr, [], fates[1..]);
      AttrUndone(d1, was, fates[2..]);
    }
  }

  lemma {:induction false} AttrUndone(d: Disk, was: File<string>, fates: seq<Fate>)
    requires d.index.live.Has? && d.index.prev == was && was.Has?
    requires |fates| >= 3 && fates[0].Works? && fates[1].Works? && fates[2].Works?
    ensures var d' := Undo(d, Rollback(PromoteAttr), fates);
      d'.index.live == was && d'.attr.live == if d.attr.prev.Absent? then d.attr.live else d.attr.prev
  {
    var d1 := if Exec(d, RestoreAttr).Some? then Exec(d, RestoreAttr).value else d;
    UndoOne(d, RestoreAttr, [DemoteIndex, RestoreIndex], fates);
    assert [RestoreAttr] + [DemoteIndex, RestoreIndex] == Rollback(PromoteAttr);
    IndexUndone(d1, was, fates[1..]);
  }

  /**
   * Whichever rename of an index rotation fails, the undo renames bring the old index back. The
   * attribute file comes back too; if there was none, an older one kept aside may take its place.
   */
  lemma {:induction false} FailedRotationRestores(d: Disk, k: nat, fates: seq<Fate>)
    requires d.index.live.Has? && d.index.next.Has? && d.attr.next.Has?
    requires k < 4 && |fates| >= k + 4 && OnlyFails(fates, k)
    ensures var d' := Perform(d, RotateIndex(), fates);
      d'.index.live == d.index.live && d'.attr.live == if k == 3 then Current(d.attr) else d.attr.live
  {
    var d1 := Exec(d, RetireIndex).value;
    var d2 := Exec(d1, PromoteIndex).value;
    var f1, f2 := fates[1..], fates[2..];
    var attr := [RetireAttr] + [PromoteAttr];
    assert f1[1..] == f2 && RotateIndex() == [RetireIndex] + ([PromoteIndex] + attr);
    PerformOne(d, RetireIndex, [PromoteIndex] + attr, fates);
    if k >= 1 {
      PerformOne(d1, PromoteIndex, attr, f1);
      if k == 1 {
        UndoOne(d1, RestoreIndex, [], f2);
        assert [RestoreIndex] + [] == [RestoreIndex];
      } else {
        assert OnlyFails(f2, k - 2);
        AttrStageRestores(d2, d.index.live, k - 2, f2);
      }
    }
  }
}
