// The -signer, -inkey and -keyopt options of tongsuo/apps/cms.c. The code keeps two parallel
// lists, two pending names and an indexed list of key options; the reference keeps one record
// per signer. Both agree on every option sequence that signs.
module CmsOptions {
  import opened KeyOptions
  import opened Wrappers

  datatype Operation = NoOperation | Encrypt | Decrypt | Sign | Resign | Other

  predicate Signing(op: Operation) { op == Sign || op == Resign }

  datatype Opt =
    | SetOperation(op: Operation)
    | Signer(file: string)
    | Inkey(file: string)
    | Recip(file: string)
    | Keyopt(arg: string)

  // ------------------------------------------------------------------------
  // The reference: one record per signer, the last one current

  datatype Pair = Pair(signer: Option<string>, key: Option<string>)

  /** A -signer or -inkey joins the current pair if its place there is free, else starts a new pair. */
  function Join(ps: seq<Pair>, o: Opt): Option<seq<Pair>>
    requires o.Signer? || o.Inkey?
  {
    var n := |ps| - 1;
    match o
    case Signer(f) =>
      if n >= 0 && ps[n].signer.None? then Some(ps[n := ps[n].(signer := Some(f))])
      else Some(ps + [Pair(Some(f), None)])
    case Inkey(f) =>
      if n >= 0 && ps[n].key.None? then Some(ps[n := ps[n].(key := Some(f))])
      else if n >= 0 && ps[n].signer.None? then None
      else Some(ps + [Pair(None, Some(f))])
  }

  /**
   * The operation so far, pairs with their key options, the options of each recipient under
   * -encrypt, and the last recipient otherwise.
   */
  datatype Reading = Reading(op: Operation, pairs: seq<Pair>, opts: seq<seq<string>>, recips: seq<seq<string>>,
                             recipFile: Option<string>)

  const NOTHING_READ := Reading(NoOperation, [], [], [], None)

  function Read(r: Reading, o: Opt): Option<Reading>
    requires |r.opts| == |r.pairs|
    ensures Read(r, o).Some? ==> |Read(r, o).value.opts| == |Read(r, o).value.pairs|
  {
    match o
    case SetOperation(op) => Some(r.(op := op))
    case Recip(f) => Some(if r.op == Encrypt then r.(recips := r.recips + [[]]) else r.(recipFile := Some(f)))
    case Keyopt(arg) =>
      if r.op == Encrypt then
        if r.recips == [] then None else Some(r.(recips := AddLast(r.recips, arg)))
      else if r.pairs == [] then None else Some(r.(opts := AddLast(r.opts, arg)))
    case _ =>
      match Join(r.pairs, o)
      case None => None
      case Some(ps) => Some(r.(pairs := ps, opts := if |ps| > |r.pairs| then r.opts + [[]] else r.opts))
  }

  function ReadAll(os: seq<Opt>): (r: Option<Reading>)
    ensures r.Some? ==> |r.value.opts| == |r.value.pairs|
  {
    if os == [] then Some(NOTHING_READ)
    else match ReadAll(os[..|os| - 1])
      case None => None
      case Some(r) => Read(r, os[|os| - 1])
  }

  /** Every pair but the current one has its signer; at the end the current one needs it too. */
  predicate Complete(ps: seq<Pair>) {
    ps != [] && forall i :: 0 <= i < |ps| ==> ps[i].signer.Some?
  }

  predicate AlmostComplete(ps: seq<Pair>) {
    forall i :: 0 <= i < |ps| ==>
      && (i < |ps| - 1 ==> ps[i].signer.Some?)
      && (ps[i].signer.Some? || ps[i].key.Some?)
  }

  function SignersOf(ps: seq<Pair>): seq<string>
    requires forall i :: 0 <= i < |ps| ==> ps[i].signer.Some?
  {
    seq(|ps|, i requires 0 <= i < |ps| => ps[i].signer.value)
  }

  /** A pair without a key uses its signer file as the key. */
  function KeysOf(ps: seq<Pair>): seq<string>
    requires forall i :: 0 <= i < |ps| ==> ps[i].signer.Some?
  {
    seq(|ps|, i requires 0 <= i < |ps| => if ps[i].key.Some? then ps[i].key.value else ps[i].signer.value)
  }

  type KeyParam = Node<string>

  // ------------------------------------------------------------------------
  // Whose key options are whose

  /** No key option is read while the operation is -encrypt. */
  ghost predicate Plain(os: seq<Opt>) {
    os == [] ||
    (var init := os[..|os| - 1];
     Plain(init) && (os[|os| - 1].Keyopt? && ReadAll(init).Some? ==> ReadAll(init).value.op != Encrypt))
  }

  /** Every key option is read while the operation is -encrypt. */
  ghost predicate EncryptOnly(os: seq<Opt>) {
    os == [] ||
    (var init := os[..|os| - 1];
     EncryptOnly(init) && (os[|os| - 1].Keyopt? && ReadAll(init).Some? ==> ReadAll(init).value.op == Encrypt))
  }

  /** The option list after reading os; the index is the current recipient or the current pair. */
  function ParamsOf(os: seq<Opt>): seq<KeyParam> {
    if os == [] then []
    else
      var init, o := os[..|os| - 1], os[|os| - 1];
      match ReadAll(init)
      case None => []
      case Some(r) => if o.Keyopt? then AddParam(ParamsOf(init), CurrentIndex(r), o.arg) else ParamsOf(init)
  }

  function CurrentIndex(r: Reading): int {
    (if r.op == Encrypt then |r.recips| else |r.pairs|) - 1
  }

  /** The key options as they were read: index and kind, in order. */
  function EventsOf(os: seq<Opt>): seq<Event> {
    if os == [] then []
    else
      var init, o := os[..|os| - 1], os[|os| - 1];
      match ReadAll(init)
      case None => []
      case Some(r) => EventsOf(init) + if o.Keyopt? then [Event(CurrentIndex(r), r.op == Encrypt)] else []
  }

  /** Their arguments. */
  function ArgsOf(os: seq<Opt>): (args: seq<string>)
    ensures |args| == |EventsOf(os)|
  {
    if os == [] then []
    else
      var init, o := os[..|os| - 1], os[|os| - 1];
      match ReadAll(init)
      case None => []
      case Some(r) => ArgsOf(init) + if o.Keyopt? then [o.arg] else []
  }

  /**
   * Every pair finds exactly the key options read while it was current, option by option, if
   * and only if each one read under -encrypt is harmless. Then the arguments found are the
   * pair's too; and if no two arguments are equal, only then.
   */
  lemma {:induction false} OptionsBelongToPairs(os: seq<Opt>)
    requires ReadAll(os).Some?
    ensures var r, ev := ReadAll(os).value, EventsOf(os);
      && (Exact(ev, |r.pairs|, false) <==> AllHarmless(ev, |r.pairs|, false))
      && (AllHarmless(ev, |r.pairs|, false) ==> LookupExact(ParamsOf(os), r.opts))
      && (Distinct(ArgsOf(os)) && LookupExact(ParamsOf(os), r.opts) ==> AllHarmless(ev, |r.pairs|, false))
  {
    var r, ev := ReadAll(os).value, EventsOf(os);
    EventsOrdered(os);
    ExactIffHarmless(ev, |r.pairs|, false);
    ParamsNamed(os);
    OwnersNamed(os);
    ExactByName(ev, ArgsOf(os), r.opts, false);
  }

  /** The options of all recipients: those of -recip, and none for each named after the options. */
  function Recipients(r: Reading, rest: seq<string>): seq<seq<string>> {
    r.recips + Empties(|rest|)
  }

  /** The same for recipients, also those named after the options, and the key options read outside -encrypt. */
  lemma {:induction false} OptionsBelongToRecipients(os: seq<Opt>, rest: seq<string>)
    requires ReadAll(os).Some?
    ensures var owners, ev := Recipients(ReadAll(os).value, rest), EventsOf(os);
      && (Exact(ev, |owners|, true) <==> AllHarmless(ev, |owners|, true))
      && (AllHarmless(ev, |owners|, true) ==> LookupExact(ParamsOf(os), owners))
      && (Distinct(ArgsOf(os)) && LookupExact(ParamsOf(os), owners) ==> AllHarmless(ev, |owners|, true))
  {
    var r, ev := ReadAll(os).value, EventsOf(os);
    EventsOrdered(os);
    ExactIffHarmless(ev, |r.recips| + |rest|, true);
    ParamsNamed(os);
    OwnersNamed(os);
    OwnedMore(ev, ArgsOf(os), r.recips, |rest|, true);
    ExactByName(ev, ArgsOf(os), Recipients(r, rest), true);
  }

  /** Indices count owners, and owners are only ever added. */
  lemma {:induction false} EventsOrdered(os: seq<Opt>)
    requires ReadAll(os).Some?
    ensures var r, ev := ReadAll(os).value, EventsOf(os);
      && Ordered(ev, |r.pairs|, false) && Ordered(ev, |r.recips|, true)
      && forall f :: 0 <= f < |ev| ==> ev[f].idx >= 0
  {
    if os != [] {
      var init, o := os[..|os| - 1], os[|os| - 1];
      EventsOrdered(init);
      OwnersOnlyAdded(ReadAll(init).value, o);
    }
  }

  lemma {:induction false} OwnersOnlyAdded(r: Reading, o: Opt)
    requires |r.opts| == |r.pairs| && Read(r, o).Some?
    ensures var r' := Read(r, o).value;
      && |r.pairs| <= |r'.pairs| && |r.recips| <= |r'.recips|
      && (o.Keyopt? ==> |r'.pairs| == |r.pairs| && |r'.recips| == |r.recips| && CurrentIndex(r) >= 0)
  {}

  /** The operation in force: the last one given. */
  function OperationOf(os: seq<Opt>): Operation {
    if os == [] then NoOperation
    else if os[|os| - 1].SetOperation? then os[|os| - 1].op
    else OperationOf(os[..|os| - 1])
  }

  /** The -recip arguments given while -encrypt was in force or while it was not. */
  function RecipArgs(os: seq<Opt>, encrypt: bool): seq<string> {
    if os == [] then []
    else
      var init, o := os[..|os| - 1], os[|os| - 1];
      RecipArgs(init, encrypt) + if o.Recip? && (OperationOf(init) == Encrypt) == encrypt then [o.file] else []
  }

  /** Recipients are the -recip arguments under -encrypt; otherwise the last one counts. */
  lemma {:induction false} RecipientsExactly(os: seq<Opt>)
    requires ReadAll(os).Some?
    ensures var r, outside := ReadAll(os).value, RecipArgs(os, false);
      && r.op == OperationOf(os)
      && |r.recips| == |RecipArgs(os, true)|
      && r.recipFile == if outside == [] then None else Some(outside[|outside| - 1])
  {
    if os != [] {
      RecipientsExactly(os[..|os| - 1]);
      ReadKeeps(ReadAll(os[..|os| - 1]).value, os[|os| - 1]);
    }
  }

  lemma {:induction false} ReadKeeps(r: Reading, o: Opt)
    requires |r.opts| == |r.pairs| && Read(r, o).Some?
    ensures var r' := Read(r, o).value;
      && r'.op == (if o.SetOperation? then o.op else r.op)
      && |r'.recips| == |r.recips| + (if o.Recip? && r.op == Encrypt then 1 else 0)
      && r'.recipFile == if o.Recip? && r.op != Encrypt then Some(o.file) else r.recipFile
  {}

  /** The list of the code is the list of positions with the arguments filled in. */
  lemma {:induction false} ParamsNamed(os: seq<Opt>)
    requires ReadAll(os).Some?
    ensures ParamsOf(os) == Named(Grouped(EventsOf(os)), ArgsOf(os))
  {
    if os != [] {
      var init, o := os[..|os| - 1], os[|os| - 1];
      ParamsNamed(init);
      if o.Keyopt? {
        var ev := EventsOf(init);
        var e := Event(CurrentIndex(ReadAll(init).value), ReadAll(init).value.op == Encrypt);
        assert EventsOf(os) == ev + [e] && (ev + [e])[..|ev|] == ev;
        GroupedWithin(ev);
        NamedAdd(Grouped(ev), ArgsOf(init), e.idx, o.arg);
      } else {
        assert EventsOf(os) == EventsOf(init) && ArgsOf(os) == ArgsOf(init);
      }
    }
  }

  /** What the reading notes for an owner are the arguments of its options. */
  lemma {:induction false} OwnersNamed(os: seq<Opt>)
    requires ReadAll(os).Some?
    ensures var r, ev, args := ReadAll(os).value, EventsOf(os), ArgsOf(os);
      Owned(ev, args, r.opts, false) && Owned(ev, args, r.recips, true)
  {
    if os != [] {
      var init, o := os[..|os| - 1], os[|os| - 1];
      OwnersNamed(init);
      EventsOrdered(init);
      OwnedStep(ReadAll(init).value, o, EventsOf(init), ArgsOf(init));
    }
  }

  lemma {:induction false} OwnedStep(r: Reading, o: Opt, ev: seq<Event>, args: seq<string>)
    requires |r.opts| == |r.pairs| && |args| == |ev| && Read(r, o).Some?
    requires Owned(ev, args, r.opts, false) && Owned(ev, args, r.recips, true)
    requires Ordered(ev, |r.opts|, false) && Ordered(ev, |r.recips|, true)
    ensures var r' := Read(r, o).value;
      var ev' := ev + if o.Keyopt? then [Event(CurrentIndex(r), r.op == Encrypt)] else [];
      var args' := args + if o.Keyopt? then [o.arg] else [];
      Owned(ev', args', r'.opts, false) && Owned(ev', args', r'.recips, true)
  {
    match o {
      case SetOperation(_) => assert ev + [] == ev && args + [] == args;
      case Recip(_) =>
        assert ev + [] == ev && args + [] == args;
        OwnedNew(ev, args, r.recips, true);
      case Keyopt(arg) =>
        var e := Event(CurrentIndex(r), r.op == Encrypt);
        OwnedAdd(ev, args, r.opts, false, e, arg);
        OwnedAdd(ev, args, r.recips, true, e, arg);
      case Signer(_) =>
        assert ev + [] == ev && args + [] == args;
        OwnedNew(ev, args, r.opts, false);
      case Inkey(_) =>
        assert ev + [] == ev && args + [] == args;
        OwnedNew(ev, args, r.opts, false);
    }
  }

  /** Without key options under -encrypt the list holds exactly the options of the pairs. */
  lemma {:induction false} PlainTracksPairs(os: seq<Opt>)
    requires ReadAll(os).Some? && Plain(os)
    ensures Tracks(ParamsOf(os), ReadAll(os).value.opts)
  {
    if os != [] {
      PlainTracksPairs(os[..|os| - 1]);
      PairsStep(ReadAll(os[..|os| - 1]).value, os[|os| - 1], ParamsOf(os[..|os| - 1]));
    }
  }

  lemma {:induction false} PairsStep(r: Reading, o: Opt, l: seq<KeyParam>)
    requires |r.opts| == |r.pairs| && Read(r, o).Some? && Tracks(l, r.opts)
    requires o.Keyopt? ==> r.op != Encrypt
    ensures Tracks(if o.Keyopt? then AddParam(l, CurrentIndex(r), o.arg) else l, Read(r, o).value.opts)
  {
    match o {
      case SetOperation(_) =>
      case Recip(_) =>
      case Keyopt(arg) => TracksAdd(l, r.opts, arg);
      case Signer(_) => TracksNewOwner(l, r.opts);
      case Inkey(_) => TracksNewOwner(l, r.opts);
    }
  }

  /** With key options under -encrypt only, exactly those of the recipients. */
  lemma {:induction false} EncryptTracksRecipients(os: seq<Opt>, rest: seq<string>)
    requires ReadAll(os).Some? && EncryptOnly(os)
    ensures Tracks(ParamsOf(os), Recipients(ReadAll(os).value, rest))
  {
    EncryptTracks(os);
    TracksMore(ParamsOf(os), ReadAll(os).value.recips, |rest|);
  }

  lemma {:induction false} EncryptTracks(os: seq<Opt>)
    requires ReadAll(os).Some? && EncryptOnly(os)
    ensures Tracks(ParamsOf(os), ReadAll(os).value.recips)
  {
    if os != [] {
      EncryptTracks(os[..|os| - 1]);
      RecipientsStep(ReadAll(os[..|os| - 1]).value, os[|os| - 1], ParamsOf(os[..|os| - 1]));
    }
  }

  lemma {:induction false} RecipientsStep(r: Reading, o: Opt, l: seq<KeyParam>)
    requires |r.opts| == |r.pairs| && Read(r, o).Some? && Tracks(l, r.recips)
    requires o.Keyopt? ==> r.op == Encrypt
    ensures Tracks(if o.Keyopt? then AddParam(l, CurrentIndex(r), o.arg) else l, Read(r, o).value.recips)
  {
    match o {
      case SetOperation(_) =>
      case Recip(_) => TracksNewOwner(l, r.recips);
      case Keyopt(arg) => TracksAdd(l, r.recips, arg);
      case Signer(_) =>
      case Inkey(_) =>
    }
  }

  /** Changing from -encrypt to -sign after a key option hands that option to the first signer. */
  lemma MixingOperationsMisplaces()
    ensures var os := [SetOperation(Encrypt), Recip("r"), Keyopt("a"), SetOperation(Sign), Signer("s")];
      && ReadAll(os).Some? && Complete(ReadAll(os).value.pairs)
      && ReadAll(os).value.opts[0] == [] && Lookup(ParamsOf(os), 0) == ["a"]
  {
    var o1 := [SetOperation(Encrypt)];
    var o2 := o1 + [Recip("r")];
    var o3 := o2 + [Keyopt("a")];
    var o4 := o3 + [SetOperation(Sign)];
    var r2, r3 := Reading(Encrypt, [], [], [[]], None), Reading(Encrypt, [], [], [["a"]], None);
    ReadOne([], SetOperation(Encrypt));
    ReadOne(o1, Recip("r"));
    ReadOne(o2, Keyopt("a"));
    ReadOne(o3, SetOperation(Sign));
    ReadOne(o4, Signer("s"));
    assert [] + o1 == o1 && ReadAll([]) == Some(NOTHING_READ);
    assert ReadAll(o1) == Some(Reading(Encrypt, [], [], [], None));
    var none: seq<seq<string>> := [];
    assert none + [[]] == [[]] && ReadAll(o2) == Some(r2);
    assert none[..] + [] == none && [[]][0] + ["a"] == ["a"];
    assert AddLast([[]], "a") == [["a"]] && ReadAll(o3) == Some(r3);
    assert ReadAll(o4) == Some(r3.(op := Sign));
    assert o4 + [Signer("s")] == [SetOperation(Encrypt), Recip("r"), Keyopt("a"), SetOperation(Sign), Signer("s")];
  }

  /** A recipient named after the options can get the key option of a signer. */
  lemma TrailingRecipientMisplaced()
    ensures var os := [SetOperation(Sign), Signer("s"), Keyopt("a"), SetOperation(Encrypt)];
      && ReadAll(os).Some? && Recipients(ReadAll(os).value, ["cert.pem"]) == [[]]
      && Lookup(ParamsOf(os), 0) == ["a"]
  {
    var o1 := [SetOperation(Sign)];
    var o2 := o1 + [Signer("s")];
    var o3 := o2 + [Keyopt("a")];
    var p := Pair(Some("s"), None);
    ReadOne([], SetOperation(Sign));
    ReadOne(o1, Signer("s"));
    ReadOne(o2, Keyopt("a"));
    ReadOne(o3, SetOperation(Encrypt));
    assert [] + o1 == o1 && ReadAll(o1) == Some(NOTHING_READ.(op := Sign));
    var none: seq<seq<string>>, pairs: seq<Pair> := [], [];
    assert none + [[]] == [[]] && pairs + [p] == [p] && ReadAll(o2) == Some(Reading(Sign, [p], [[]], [], None));
    assert [[]][0] + ["a"] == ["a"] && AddLast([[]], "a") == [["a"]];
    assert ReadAll(o3) == Some(Reading(Sign, [p], [["a"]], [], None));
    assert ParamsOf(o2) == ParamsOf(o1) == [] && ParamsOf(o3) == [Node(0, ["a"])];
    var os := [SetOperation(Sign), Signer("s"), Keyopt("a"), SetOperation(Encrypt)];
    assert o3 + [SetOperation(Encrypt)] == os;
    assert ReadAll(os) == Some(Reading(Encrypt, [p], [["a"]], [], None));
    assert Recipients(ReadAll(os).value, ["cert.pem"]) == Empties(1) == [[]];
  }

  lemma {:induction false} ReadOne(os: seq<Opt>, o: Opt)
    ensures ReadAll(os + [o]) == match ReadAll(os) case None => None case Some(r) => Read(r, o)
    ensures ReadAll(os).Some? && o.Keyopt? ==>
      ParamsOf(os + [o]) == AddParam(ParamsOf(os), CurrentIndex(ReadAll(os).value), o.arg)
    ensures ReadAll(os).Some? && !o.Keyopt? ==> ParamsOf(os + [o]) == ParamsOf(os)
  {
    assert (os + [o])[..|os|] == os;
  }

  class Args {
    var operation: Operation
    var signerFile: Option<string>
    var keyFile: Option<string>
    var signers: seq<string>
    var keys: seq<string>
    var encerts: nat
    var recipFile: Option<string>
    var keyParams: seq<KeyParam>

    constructor ()
      ensures Agrees(NOTHING_READ) && keyParams == []
    {
      operation, signerFile, keyFile, recipFile := NoOperation, None, None, None;
      signers, keys, encerts, keyParams := [], [], 0, [];
    }

    /** The pending names are the current pair and the two lists are all earlier pairs. */
    ghost predicate Agrees(r: Reading)
      reads this
    {
      && operation == r.op && encerts == |r.recips| && recipFile == r.recipFile
      && AlmostComplete(r.pairs)
      && var n := |r.pairs| - 1;
        if n < 0 then signerFile.None? && keyFile.None? && signers == [] && keys == []
        else
          && Pair(signerFile, keyFile) == r.pairs[n]
          && signers == SignersOf(r.pairs[..n]) && keys == KeysOf(r.pairs[..n])
    }

    method OnSigner(f: string, ghost r: Reading)
      requires Agrees(r)
      modifies this`signerFile, this`keyFile, this`signers, this`keys
      ensures Agrees(r.(pairs := Join(r.pairs, Signer(f)).value))
    {
      ghost var n := |r.pairs| - 1;
      if signerFile.Some? {
        Extend(r.pairs);
        signers := signers + [signerFile.value];
        if keyFile.None? {
          keyFile := signerFile;
        }
        keys := keys + [keyFile.value];
        keyFile := None;
      }
      signerFile := Some(f);
      ghost var ps := Join(r.pairs, Signer(f)).value;
      assert n >= 0 ==> ps[..|ps| - 1] == if r.pairs[n].signer.None? then r.pairs[..n] else r.pairs;
    }

    method OnInkey(f: string, ghost r: Reading) returns (ok: bool)
      requires Agrees(r)
      modifies this`signerFile, this`keyFile, this`signers, this`keys
      ensures ok <==> Join(r.pairs, Inkey(f)).Some?
      ensures ok ==> Agrees(r.(pairs := Join(r.pairs, Inkey(f)).value))
    {
      ghost var n := |r.pairs| - 1;
      if keyFile.Some? {
        if signerFile.None? {
          return false;
        }
        Extend(r.pairs);
        signers := signers + [signerFile.value];
        signerFile := None;
        keys := keys + [keyFile.value];
      }
      keyFile := Some(f);
      ghost var ps := Join(r.pairs, Inkey(f)).value;
      assert n >= 0 ==> ps[..|ps| - 1] == if r.pairs[n].key.None? then r.pairs[..n] else r.pairs;
      return true;
    }

    method OnKeyopt(arg: string, ghost r: Reading) returns (ok: bool)
      requires Agrees(r) && |r.opts| == |r.pairs|
      modifies this`keyParams
      ensures ok <==> Read(r, Keyopt(arg)).Some?
      ensures ok ==> Agrees(Read(r, Keyopt(arg)).value)
      ensures ok ==> keyParams == AddParam(old(keyParams), CurrentIndex(r), arg)
    {
      var keyidx := -1;
      if operation == Encrypt {
        if encerts > 0 {
          keyidx := keyidx + encerts;
        }
      } else {
        if keyFile.Some? || signerFile.Some? {
          keyidx := keyidx + 1;
        }
        keyidx := keyidx + |keys|;
      }
      if keyidx < 0 {
        return false;
      }
      var last := |keyParams| - 1;
      if last < 0 || keyParams[last].idx != keyidx {
        keyParams := keyParams + [Node(keyidx, [arg])];
      } else {
        keyParams := keyParams[last := Node(keyidx, keyParams[last].param + [arg])];
      }
      return true;
    }

    /** One turn of the option loop. */
    method Take(o: Opt, ghost r: Reading) returns (ok: bool)
      requires Agrees(r) && |r.opts| == |r.pairs|
      modifies this
      ensures ok <==> Read(r, o).Some?
      ensures ok ==> Agrees(Read(r, o).value)
      ensures ok && !o.Keyopt? ==> keyParams == old(keyParams)
      ensures ok && o.Keyopt? ==>
        keyParams == AddParam(old(keyParams), CurrentIndex(r), o.arg)
    {
      ok := true;
      match o {
        case SetOperation(op) => operation := op;
        case Recip(f) =>
          if operation == Encrypt {
            encerts := encerts + 1;
          } else {
            recipFile := Some(f);
          }
        case Signer(f) => OnSigner(f, r);
        case Inkey(f) => ok := OnInkey(f, r);
        case Keyopt(arg) => ok := OnKeyopt(arg, r);
      }
    }

    /** Appends the final pair, if it has a signer. */
    method Finish(ghost r: Reading) returns (ok: bool)
      requires Agrees(r)
      modifies this`signers, this`keys
      ensures ok <==> Complete(r.pairs)
      ensures ok ==> signers == SignersOf(r.pairs) && keys == KeysOf(r.pairs)
    {
      if keyFile.Some? && signerFile.None? {
        return false;
      }
      if signerFile.Some? {
        Extend(r.pairs);
        signers := signers + [signerFile.value];
        keys := keys + [if keyFile.None? then signerFile.value else keyFile.value];
      }
      return signers != [];
    }
  }

  /** The lists grow by the last pair once its signer is known. */
  lemma {:induction false} Extend(ps: seq<Pair>)
    requires ps != [] && forall i :: 0 <= i < |ps| ==> ps[i].signer.Some?
    ensures var n := |ps| - 1;
      && SignersOf(ps) == SignersOf(ps[..n]) + [ps[n].signer.value]
      && KeysOf(ps) == KeysOf(ps[..n]) + [if ps[n].key.Some? then ps[n].key.value else ps[n].signer.value]
  {}

  datatype Outcome =
    | Rejected
    | Ready(signers: seq<string>, keys: seq<string>, params: seq<KeyParam>)
    | Encrypting(recipients: nat, params: seq<KeyParam>)
    | NotSigning(params: seq<KeyParam>)

  /**
   * The option loop and the checks after it. A signing command line is accepted exactly when
   * every option could be read and every pair has its signer; the lists are then the pairs.
   * Without signing there may be one pair, there must be an operation, -encrypt needs a recipient
   * and -decrypt a recipient or a key, unless other says that a secret key or a password is
   * given. Under -encrypt the names after the options are recipients too.
   */
  method ParseOptions(os: seq<Opt>, rest: seq<string>, other: bool) returns (out: Outcome)
    ensures out != Rejected <==>
      && ReadAll(os).Some?
      && var r := ReadAll(os).value;
      if r.op == Sign || r.op == Resign then r.pairs != [] && forall i :: 0 <= i < |r.pairs| ==> r.pairs[i].signer.Some?
      else
        && |r.pairs| <= 1
        && r.op != NoOperation
        && (r.op == Encrypt ==> rest != [] || r.recips != [] || other)
        && (r.op == Decrypt ==> r.recipFile.Some? || (r.pairs != [] && r.pairs[0].key.Some?) || other)
    ensures out != Rejected ==>
      var r := ReadAll(os).value;
      if Signing(r.op) then Complete(r.pairs) && out == Ready(SignersOf(r.pairs), KeysOf(r.pairs), ParamsOf(os))
      else if r.op == Encrypt then out == Encrypting(|Recipients(r, rest)|, ParamsOf(os))
      else out == NotSigning(ParamsOf(os))
  {
    var args := new Args();
    ghost var r := NOTHING_READ;
    for i := 0 to |os|
      invariant fresh(args) && args.Agrees(r) && ReadAll(os[..i]) == Some(r)
      invariant args.keyParams == ParamsOf(os[..i])
    {
      assert os[..i + 1][..i] == os[..i];
      var ok := args.Take(os[i], r);
      if !ok {
        FailedForGood(os, i + 1);
        return Rejected;
      }
      r := Read(r, os[i]).value;
    }
    assert os[..|os|] == os;
    if !Signing(args.operation) {
      if args.keys != [] || args.signers != [] {
        return Rejected;
      }
      if args.operation == Decrypt {
        return if args.recipFile.None? && args.keyFile.None? && !other then Rejected else NotSigning(args.keyParams);
      } else if args.operation == Encrypt {
        if rest == [] && !other && args.encerts == 0 {
          return Rejected;
        }
        for i := 0 to |rest|
          invariant args.encerts == |r.recips| + i && args.keyParams == ParamsOf(os) && fresh(args)
        {
          args.encerts := args.encerts + 1;
        }
        return Encrypting(args.encerts, args.keyParams);
      }
      return if args.operation == NoOperation then Rejected else NotSigning(args.keyParams);
    }
    var ok := args.Finish(r);
    if !ok {
      return Rejected;
    }
    return Ready(args.signers, args.keys, args.keyParams);
  }

  lemma {:induction false} FailedForGood(os: seq<Opt>, i: nat)
    requires i <= |os| && ReadAll(os[..i]).None?
    ensures ReadAll(os).None?
    decreases |os|
  {
    if i == |os| {
      assert os[..i] == os;
    } else {
      var init := os[..|os| - 1];
      assert init[..i] == os[..i];
      FailedForGood(init, i);
    }
  }

  // ------------------------------------------------------------------------
  // Which orders of -signer and -inkey are accepted, and how they pair up

  type FileOpt = o: Opt | o.Signer? || o.Inkey? witness Signer("")

  function JoinAll(fs: seq<FileOpt>): Option<seq<Pair>> {
    if fs == [] then Some([])
    else match JoinAll(fs[..|fs| - 1])
      case None => None
      case Some(ps) => Join(ps, fs[|fs| - 1])
  }

  function Files(os: seq<Opt>): seq<FileOpt> {
    if os == [] then []
    else
      var o := os[|os| - 1];
      Files(os[..|os| - 1]) + if o.Signer? || o.Inkey? then [o] else []
  }

  /** The other options do not disturb the pairing. */
  lemma {:induction false} PairsComeFromFiles(os: seq<Opt>)
    requires ReadAll(os).Some?
    ensures JoinAll(Files(os)) == Some(ReadAll(os).value.pairs)
  {
    if os != [] {
      var init, o := os[..|os| - 1], os[|os| - 1];
      PairsComeFromFiles(init);
      if o.Signer? || o.Inkey? {
        assert Files(os)[..|Files(os)| - 1] == Files(init);
      } else {
        assert Files(os) == Files(init);
      }
    }
  }

  function SignerArgs(fs: seq<FileOpt>): seq<string> {
    if fs == [] then []
    else SignerArgs(fs[..|fs| - 1]) + SignerArg(fs[|fs| - 1])
  }

  function InkeyArgs(fs: seq<FileOpt>): seq<string> {
    if fs == [] then []
    else InkeyArgs(fs[..|fs| - 1]) + InkeyArg(fs[|fs| - 1])
  }

  function OrNone(name: Option<string>): seq<string> {
    match name case None => [] case Some(f) => [f]
  }

  /** The signer names filled in, pair by pair. */
  function GivenSigners(ps: seq<Pair>): seq<string> {
    if ps == [] then [] else GivenSigners(ps[..|ps| - 1]) + OrNone(ps[|ps| - 1].signer)
  }

  /** The key names filled in, pair by pair. */
  function GivenKeys(ps: seq<Pair>): seq<string> {
    if ps == [] then [] else GivenKeys(ps[..|ps| - 1]) + OrNone(ps[|ps| - 1].key)
  }

  lemma {:induction false} GivenAppend(ps: seq<Pair>, p: Pair)
    ensures GivenSigners(ps + [p]) == GivenSigners(ps) + OrNone(p.signer)
    ensures GivenKeys(ps + [p]) == GivenKeys(ps) + OrNone(p.key)
  {
    assert (ps + [p])[..|ps|] == ps;
  }

  function SignerArg(o: FileOpt): seq<string> { if o.Signer? then [o.file] else [] }

  function InkeyArg(o: FileOpt): seq<string> { if o.Inkey? then [o.file] else [] }

  lemma {:induction false} JoinUsesArgs(ps: seq<Pair>, o: FileOpt)
    requires Join(ps, o).Some?
    ensures GivenSigners(Join(ps, o).value) == GivenSigners(ps) + SignerArg(o)
    ensures GivenKeys(Join(ps, o).value) == GivenKeys(ps) + InkeyArg(o)
  {
    var qs, n := Join(ps, o).value, |ps| - 1;
    if |qs| > |ps| {
      GivenAppend(ps, qs[n + 1]);
    } else {
      assert qs[..n] == ps[..n];
      if o.Signer? {
        assert OrNone(ps[n].signer) == [];
        assert GivenKeys(ps) + [] == GivenKeys(ps);
      } else {
        assert OrNone(ps[n].key) == [];
        assert GivenSigners(ps) + [] == GivenSigners(ps);
      }
    }
  }

  /** Every -signer and every -inkey argument is used exactly once, in the order given. */
  lemma {:induction false} EveryArgumentUsedInOrder(fs: seq<FileOpt>)
    requires JoinAll(fs).Some?
    ensures GivenSigners(JoinAll(fs).value) == SignerArgs(fs)
    ensures GivenKeys(JoinAll(fs).value) == InkeyArgs(fs)
  {
    if fs != [] {
      var init := fs[..|fs| - 1];
      EveryArgumentUsedInOrder(init);
      JoinUsesArgs(JoinAll(init).value, fs[|fs| - 1]);
    }
  }

  /** So the signer list of an accepted command line is its -signer arguments. */
  lemma {:induction false} SignerListIsArguments(ps: seq<Pair>)
    requires forall i :: 0 <= i < |ps| ==> ps[i].signer.Some?
    ensures SignersOf(ps) == GivenSigners(ps)
  {
    if ps != [] {
      var n := |ps| - 1;
      SignerListIsArguments(ps[..n]);
      Extend(ps);
    }
  }

  /** One signer as a user may spell it. */
  datatype Group = Alone(signer: string) | SignerFirst(signer: string, key: string) | KeyFirst(key: string, signer: string)

  function Spell(g: Group): seq<FileOpt> {
    match g
    case Alone(s) => [Signer(s)]
    case SignerFirst(s, k) => [Signer(s), Inkey(k)]
    case KeyFirst(k, s) => [Inkey(k), Signer(s)]
  }

  function SpellAll(gs: seq<Group>): seq<FileOpt> {
    if gs == [] then [] else SpellAll(gs[..|gs| - 1]) + Spell(gs[|gs| - 1])
  }

  function PairOf(g: Group): Pair {
    Pair(Some(g.signer), if g.Alone? then None else Some(g.key))
  }

  function PairsOf(gs: seq<Group>): (ps: seq<Pair>)
    ensures |ps| == |gs|
  {
    seq(|gs|, i requires 0 <= i < |gs| => PairOf(gs[i]))
  }

  /** A lone signer followed by a key that was meant for the next one. */
  predicate Ambiguous(gs: seq<Group>, i: nat) {
    i + 1 < |gs| && gs[i].Alone? && gs[i + 1].KeyFirst?
  }

  predicate Unambiguous(gs: seq<Group>) {
    forall i :: 0 <= i < |gs| ==> !Ambiguous(gs, i)
  }

  lemma {:induction false} JoinOne(fs: seq<FileOpt>, o: FileOpt)
    ensures JoinAll(fs + [o]) == match JoinAll(fs) case None => None case Some(ps) => Join(ps, o)
  {
    assert (fs + [o])[..|fs|] == fs;
  }

  /** What one spelled group does to pairs that are complete so far. */
  function AfterGroup(ps: seq<Pair>, g: Group): seq<Pair> {
    if g.KeyFirst? && ps != [] && ps[|ps| - 1].key.None?
    then ps[|ps| - 1 := ps[|ps| - 1].(key := Some(g.key))] + [Pair(Some(g.signer), None)]
    else ps + [PairOf(g)]
  }

  lemma {:induction false} JoinSpelled(ps: seq<Pair>, g: Group)
    requires ps == [] || Complete(ps)
    ensures Complete(AfterGroup(ps, g))
    ensures match g
      case Alone(s) => Join(ps, Signer(s)) == Some(AfterGroup(ps, g))
      case SignerFirst(s, k) =>
        Join(ps, Signer(s)).Some? && Join(Join(ps, Signer(s)).value, Inkey(k)) == Some(AfterGroup(ps, g))
      case KeyFirst(k, s) =>
        Join(ps, Inkey(k)).Some? && Join(Join(ps, Inkey(k)).value, Signer(s)) == Some(AfterGroup(ps, g))
  {
    var n := |ps|;
    match g {
      case Alone(_) =>
      case SignerFirst(s, k) =>
        assert (ps + [Pair(Some(s), None)])[n := Pair(Some(s), Some(k))] == ps + [PairOf(g)];
      case KeyFirst(k, s) =>
        assert (ps + [Pair(None, Some(k))])[n := Pair(Some(s), Some(k))] == ps + [PairOf(g)];
    }
  }

  lemma {:induction false} JoinGroup(fs: seq<FileOpt>, ps: seq<Pair>, g: Group)
    requires JoinAll(fs) == Some(ps) && (ps == [] || Complete(ps))
    ensures JoinAll(fs + Spell(g)) == Some(AfterGroup(ps, g)) && Complete(AfterGroup(ps, g))
  {
    JoinSpelled(ps, g);
    var first := Spell(g)[0];
    JoinOne(fs, first);
    if !g.Alone? {
      JoinOne(fs + [first], Spell(g)[1]);
      assert fs + Spell(g) == fs + [first] + [Spell(g)[1]];
    }
  }

  /** The pairs that spelled groups give. */
  function AfterGroups(gs: seq<Group>): seq<Pair> {
    if gs == [] then [] else AfterGroup(AfterGroups(gs[..|gs| - 1]), gs[|gs| - 1])
  }

  /** Whatever is spelled as groups is accepted. */
  lemma {:induction false} GroupsAccepted(gs: seq<Group>)
    ensures JoinAll(SpellAll(gs)) == Some(AfterGroups(gs))
    ensures gs != [] ==> Complete(AfterGroups(gs))
  {
    if gs != [] {
      var n := |gs| - 1;
      GroupsAccepted(gs[..n]);
      JoinGroup(SpellAll(gs[..n]), AfterGroups(gs[..n]), gs[n]);
    }
  }

  lemma {:induction false} UnambiguousRead(gs: seq<Group>)
    requires Unambiguous(gs)
    ensures AfterGroups(gs) == PairsOf(gs)
  {
    if gs != [] {
      var n := |gs| - 1;
      forall i | 0 <= i < n ensures !Ambiguous(gs[..n], i) {
        assert !Ambiguous(gs, i);
      }
      UnambiguousRead(gs[..n]);
      assert n > 0 ==> !Ambiguous(gs, n - 1);
      assert PairsOf(gs) == PairsOf(gs[..n]) + [PairOf(gs[n])];
    }
  }

  /** Pairs before the current one never change again. */
  lemma {:induction false} EarlierPairsStay(gs: seq<Group>, m: nat, j: nat)
    requires m <= |gs| && j + 1 < |AfterGroups(gs[..m])|
    ensures |AfterGroups(gs[..m])| <= |AfterGroups(gs)|
    ensures AfterGroups(gs)[j] == AfterGroups(gs[..m])[j]
    decreases |gs|
  {
    if m == |gs| {
      assert gs[..m] == gs;
    } else {
      var n := |gs| - 1;
      assert gs[..n][..m] == gs[..m];
      EarlierPairsStay(gs[..n], m, j);
    }
  }

  lemma {:induction false} OnePairEach(gs: seq<Group>)
    ensures |AfterGroups(gs)| == |gs|
  {
    if gs != [] {
      OnePairEach(gs[..|gs| - 1]);
    }
  }

  /** At the first ambiguity the key goes to the earlier signer. */
  lemma {:induction false} AmbiguousMisread(gs: seq<Group>, i: nat)
    requires Ambiguous(gs, i) && Unambiguous(gs[..i + 1])
    ensures |AfterGroups(gs)| == |gs|
    ensures AfterGroups(gs)[i] == Pair(Some(gs[i].signer), Some(gs[i + 1].key)) != PairOf(gs[i])
  {
    OnePairEach(gs);
    var a, b := gs[..i + 1], gs[..i + 2];
    UnambiguousRead(a);
    OnePairEach(b);
    assert b[..i + 1] == a && b[i + 1] == gs[i + 1];
    EarlierPairsStay(gs, i + 2, i);
  }

  lemma {:induction false} FirstAmbiguity(gs: seq<Group>, n: nat) returns (i: nat)
    requires n < |gs| && Ambiguous(gs, n)
    ensures Ambiguous(gs, i) && Unambiguous(gs[..i + 1])
    decreases n
  {
    if k: nat :| k < n && Ambiguous(gs, k) {
      i := FirstAmbiguity(gs, k);
    } else {
      i := n;
      var prefix := gs[..n + 1];
      forall k | 0 <= k < |prefix| ensures !Ambiguous(prefix, k) {
        if k < n {
          assert !Ambiguous(gs, k);
        }
      }
    }
  }

  /**
   * Groups are read as they were meant exactly when no lone signer is followed by a
   * key-first group.
   */
  lemma {:induction false} ReadAsMeantIffUnambiguous(gs: seq<Group>)
    ensures JoinAll(SpellAll(gs)) == Some(PairsOf(gs)) <==> Unambiguous(gs)
  {
    GroupsAccepted(gs);
    if Unambiguous(gs) {
      UnambiguousRead(gs);
    } else {
      var n: nat :| n < |gs| && Ambiguous(gs, n);
      var i := FirstAmbiguity(gs, n);
      AmbiguousMisread(gs, i);
      assert PairsOf(gs)[i] == PairOf(gs[i]);
    }
  }

  /** The two lists of an unambiguous command line: every signer, and its own key or else itself. */
  lemma {:induction false} ListsAsSpelled(os: seq<Opt>, gs: seq<Group>, i: nat)
    requires ReadAll(os).Some? && Files(os) == SpellAll(gs) && Unambiguous(gs) && i < |gs|
    ensures var ps := ReadAll(os).value.pairs;
      && Complete(ps) && |SignersOf(ps)| == |KeysOf(ps)| == |gs|
      && SignersOf(ps)[i] == gs[i].signer
      && KeysOf(ps)[i] == if gs[i].Alone? then gs[i].signer else gs[i].key
  {
    assert ReadAll(os).value.pairs == PairsOf(gs) by {
      PairsComeFromFiles(os);
      GroupsAccepted(gs);
      UnambiguousRead(gs);
    }
    PairLists(gs, i);
  }

  lemma {:induction false} PairLists(gs: seq<Group>, i: nat)
    requires i < |gs|
    ensures var ps := PairsOf(gs);
      && Complete(ps) && |SignersOf(ps)| == |KeysOf(ps)| == |gs|
      && SignersOf(ps)[i] == gs[i].signer
      && KeysOf(ps)[i] == if gs[i].Alone? then gs[i].signer else gs[i].key
  {}

  function KeyLeft(left: Option<string>): seq<FileOpt> {
    match left case None => [] case Some(k) => [Inkey(k)]
  }

  function PairLeft(left: Option<string>): seq<Pair> {
    match left case None => [] case Some(_) => [Pair(None, left)]
  }

  lemma {:induction false} AddGroup(gs: seq<Group>, g: Group)
    ensures SpellAll(gs + [g]) == SpellAll(gs) + Spell(g)
    ensures PairsOf(gs + [g]) == PairsOf(gs) + [PairOf(g)]
  {
    assert (gs + [g])[..|gs|] == gs;
  }

  lemma {:induction false} JoinLast(ps: seq<Pair>, p: Pair, o: FileOpt)
    ensures o.Signer? && p.signer.None? ==> Join(ps + [p], o) == Some(ps + [p.(signer := Some(o.file))])
    ensures o.Inkey? && p.key.None? ==> Join(ps + [p], o) == Some(ps + [p.(key := Some(o.file))])
    ensures o.Inkey? && p.key.Some? && p.signer.None? ==> Join(ps + [p], o) == None
  {
    var qs := ps + [p];
    assert forall q :: qs[|ps| := q] == ps + [q];
  }

  /** Groups that spell an accepted sequence, with at most one key left over. */
  lemma {:induction false} FindGroups(fs: seq<FileOpt>) returns (gs: seq<Group>, left: Option<string>)
    requires JoinAll(fs).Some?
    ensures fs == SpellAll(gs) + KeyLeft(left)
    ensures JoinAll(fs).value == PairsOf(gs) + PairLeft(left)
  {
    if fs == [] {
      gs, left := [], None;
      assert PairsOf([]) == [];
    } else {
      var init, o := fs[..|fs| - 1], fs[|fs| - 1];
      gs, left := FindGroups(init);
      assert fs == init + [o];
      gs, left := AddOption(gs, left, o);
    }
  }

  lemma {:induction false} AddOption(gs: seq<Group>, left: Option<string>, o: FileOpt)
    returns (gs': seq<Group>, left': Option<string>)
    requires Join(PairsOf(gs) + PairLeft(left), o).Some?
    ensures SpellAll(gs') + KeyLeft(left') == SpellAll(gs) + KeyLeft(left) + [o]
    ensures Join(PairsOf(gs) + PairLeft(left), o) == Some(PairsOf(gs') + PairLeft(left'))
  {
    if o.Signer? {
      gs' := AddSigner(gs, left, o);
      left' := None;
      NothingLeft(gs');
    } else {
      assert left.None? by {
        JoinLast(PairsOf(gs), Pair(None, left), o);
      }
      NothingLeft(gs);
      gs', left' := AddInkey(gs, o);
    }
  }

  lemma {:induction false} NothingLeft(gs: seq<Group>)
    ensures SpellAll(gs) + KeyLeft(None) == SpellAll(gs)
    ensures PairsOf(gs) + PairLeft(None) == PairsOf(gs)
  {}

  lemma {:induction false} AddSigner(gs: seq<Group>, left: Option<string>, o: FileOpt) returns (gs': seq<Group>)
    requires o.Signer?
    ensures SpellAll(gs') == SpellAll(gs) + KeyLeft(left) + [o]
    ensures Join(PairsOf(gs) + PairLeft(left), o) == Some(PairsOf(gs'))
  {
    match left {
      case None =>
        gs' := gs + [Alone(o.file)];
        AddGroup(gs, Alone(o.file));
        assert PairsOf(gs) + PairLeft(left) == PairsOf(gs);
        CompletePairs(gs);
      case Some(k) =>
        gs' := gs + [KeyFirst(k, o.file)];
        AddGroup(gs, KeyFirst(k, o.file));
        JoinLast(PairsOf(gs), Pair(None, left), o);
    }
  }

  lemma {:induction false} CompletePairs(gs: seq<Group>)
    ensures forall i :: 0 <= i < |gs| ==> PairsOf(gs)[i].signer.Some?
  {}

  /** A key joins a lone signer; otherwise it is left over. */
  lemma {:induction false} AddInkey(gs: seq<Group>, o: FileOpt) returns (gs': seq<Group>, left': Option<string>)
    requires o.Inkey?
    ensures SpellAll(gs') + KeyLeft(left') == SpellAll(gs) + [o]
    ensures Join(PairsOf(gs), o) == Some(PairsOf(gs') + PairLeft(left'))
  {
    var n := |gs| - 1;
    if n >= 0 && gs[n].Alone? {
      var init, s := gs[..n], gs[n].signer;
      gs', left' := init + [SignerFirst(s, o.file)], None;
      assert gs == init + [Alone(s)];
      AddGroup(init, Alone(s));
      AddGroup(init, SignerFirst(s, o.file));
      JoinLast(PairsOf(init), Pair(Some(s), None), o);
      assert PairsOf(gs') + PairLeft(None) == PairsOf(gs');
      assert SpellAll(gs') + KeyLeft(None) == SpellAll(gs');
    } else {
      gs', left' := gs, Some(o.file);
      CompletePairs(gs);
    }
  }

  lemma {:induction false} LeftoverIsIncomplete(gs: seq<Group>, left: Option<string>, ps: seq<Pair>)
    requires ps == PairsOf(gs) + PairLeft(left)
    ensures Complete(ps) ==> left.None?
  {
    if left.Some? {
      assert ps[|gs|].signer.None?;
    }
  }

  /** A signing command line is acceptable exactly when it can be cut into signer groups. */
  lemma {:induction false} AcceptedIffGrouped(fs: seq<FileOpt>)
    ensures (JoinAll(fs).Some? && Complete(JoinAll(fs).value)) <==> exists gs :: gs != [] && SpellAll(gs) == fs
  {
    if JoinAll(fs).Some? && Complete(JoinAll(fs).value) {
      var gs, left := FindGroups(fs);
      LeftoverIsIncomplete(gs, left, JoinAll(fs).value);
      assert gs != [] && SpellAll(gs) == fs;
    }
    if gs :| gs != [] && SpellAll(gs) == fs {
      GroupsAccepted(gs);
    }
  }
}
