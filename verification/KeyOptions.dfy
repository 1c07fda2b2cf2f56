// The list of key options in tongsuo/apps/cms.c. Options read one after another for one index
// share a node; the signer loop takes the first node with its index. An index counts signers
// or, under -encrypt, recipients, so an option can turn up with an owner it was not read for.
module KeyOptions {
  datatype Node<A> = Node(idx: int, param: seq<A>)

  predicate Increasing<A>(l: seq<Node<A>>) {
    forall i, j :: 0 <= i < j < |l| ==> l[i].idx < l[j].idx
  }

  /** The first-match search of the signer loop. */
  function Lookup<A>(l: seq<Node<A>>, idx: int): seq<A> {
    if l == [] then [] else if l[0].idx == idx then l[0].param else Lookup(l[1..], idx)
  }

  /** -keyopt: a new node unless the last one is already for this index. */
  function AddParam<A>(l: seq<Node<A>>, idx: int, arg: A): seq<Node<A>> {
    if l == [] || l[|l| - 1].idx != idx then l + [Node(idx, [arg])]
    else l[|l| - 1 := Node(idx, l[|l| - 1].param + [arg])]
  }

  function AddLast<A>(oss: seq<seq<A>>, arg: A): seq<seq<A>>
    requires oss != []
  {
    oss[|oss| - 1 := oss[|oss| - 1] + [arg]]
  }

  /** The list holds exactly the options of each owner, under the owner's index. */
  ghost predicate Tracks<A>(l: seq<Node<A>>, owners: seq<seq<A>>) {
    && Increasing(l)
    && (forall i :: 0 <= i < |l| ==> 0 <= l[i].idx < |owners|)
    && (forall i :: 0 <= i < |owners| ==> Lookup(l, i) == owners[i])
  }

  lemma {:induction false} LookupPast<A>(l: seq<Node<A>>, idx: int)
    requires forall i :: 0 <= i < |l| ==> l[i].idx < idx
    ensures Lookup(l, idx) == []
  {
    if l != [] {
      LookupPast(l[1..], idx);
    }
  }

  lemma {:induction false} LookupAppend<A>(l: seq<Node<A>>, p: Node<A>, idx: int)
    requires forall i :: 0 <= i < |l| ==> l[i].idx < p.idx
    ensures Lookup(l + [p], idx) == if idx == p.idx then p.param else Lookup(l, idx)
  {
    if l != [] {
      LookupAppend(l[1..], p, idx);
      assert (l + [p])[1..] == l[1..] + [p];
    }
  }

  lemma {:induction false} TracksNewOwner<A>(l: seq<Node<A>>, owners: seq<seq<A>>)
    requires Tracks(l, owners)
    ensures Tracks(l, owners + [[]])
  {
    LookupPast(l, |owners|);
  }

  lemma {:induction false} TracksAdd<A>(l: seq<Node<A>>, owners: seq<seq<A>>, arg: A)
    requires Tracks(l, owners) && owners != []
    ensures Tracks(AddParam(l, |owners| - 1, arg), AddLast(owners, arg))
  {
    var n := |owners| - 1;
    if l != [] && l[|l| - 1].idx == n {
      var init, p := l[..|l| - 1], l[|l| - 1];
      var q := Node(n, p.param + [arg]);
      assert l == init + [p] && AddParam(l, n, arg) == init + [q];
      forall i | 0 <= i < |owners| ensures Lookup(init + [q], i) == AddLast(owners, arg)[i] {
        LookupAppend(init, p, i);
        LookupAppend(init, q, i);
        assert Lookup(l, i) == owners[i];
      }
    } else {
      var q := Node(n, [arg]);
      assert forall i :: 0 <= i < |l| ==> l[i].idx < n by {
        assert l != [] ==> l[|l| - 1].idx < n;
      }
      LookupPast(l, n);
      forall i | 0 <= i < |owners| ensures Lookup(l + [q], i) == AddLast(owners, arg)[i] {
        LookupAppend(l, q, i);
        assert Lookup(l, i) == owners[i];
      }
    }
  }

  /** As many owners without options. */
  function Empties<A>(n: nat): seq<seq<A>> {
    seq(n, _ => [])
  }

  lemma {:induction false} TracksMore<A>(l: seq<Node<A>>, owners: seq<seq<A>>, n: nat)
    requires Tracks(l, owners)
    ensures Tracks(l, owners + Empties(n))
  {
    forall i | |owners| <= i < |owners| + n ensures Lookup(l, i) == [] {
      LookupPast(l, i);
    }
  }

  // ------------------------------------------------------------------------
  // Options by their position on the command line

  /** One key option as it was read: its index, and whether that counts recipients. */
  datatype Event = Event(idx: int, encrypt: bool)

  /** The list that the options build, each option named by its position among them. */
  function Grouped(ev: seq<Event>): seq<Node<nat>> {
    if ev == [] then []
    else AddParam(Grouped(ev[..|ev| - 1]), ev[|ev| - 1].idx, |ev| - 1)
  }

  /** The options read for owner i, a recipient if enc and a signer otherwise. */
  function Own(ev: seq<Event>, i: int, enc: bool): seq<nat> {
    if ev == [] then []
    else Own(ev[..|ev| - 1], i, enc) + if ev[|ev| - 1] == Event(i, enc) then [|ev| - 1] else []
  }

  /** Each of n owners finds exactly the options read for it. */
  ghost predicate Exact(ev: seq<Event>, n: nat, enc: bool) {
    forall i :: 0 <= i < n ==> Lookup(Grouped(ev), i) == Own(ev, i, enc)
  }

  /**
   * All options of the owner with f's index, and there are some, were read before some option
   * of another index that in turn precedes f.
   */
  predicate Settled(ev: seq<Event>, f: nat, enc: bool)
    requires f < |ev|
  {
    var own := Event(ev[f].idx, enc);
    exists q :: 0 <= q < f && ev[q].idx != own.idx && own in ev[..q] && own !in ev[q..]
  }

  /** Option f stands between two options of one owner. */
  predicate Splits(ev: seq<Event>, f: nat, enc: bool)
    requires f < |ev|
  {
    exists a, b :: 0 <= a < f < b < |ev| && ev[a] == ev[b] && ev[a].encrypt == enc
  }

  /** Option f, read for the other kind of owner, disturbs none of the n owners. */
  predicate Harmless(ev: seq<Event>, f: nat, n: nat, enc: bool)
    requires f < |ev|
  {
    (ev[f].idx >= n || Settled(ev, f, enc)) && !Splits(ev, f, enc)
  }

  predicate AllHarmless(ev: seq<Event>, n: nat, enc: bool) {
    forall f :: 0 <= f < |ev| && ev[f].encrypt != enc ==> Harmless(ev, f, n, enc)
  }

  /** Indices count owners, so those of one kind never go back, and all belong to the n owners. */
  predicate Ordered(ev: seq<Event>, n: nat, enc: bool) {
    && (forall a :: 0 <= a < |ev| && ev[a].encrypt == enc ==> 0 <= ev[a].idx < n)
    && (forall a, b :: 0 <= a < b < |ev| && ev[a].encrypt == ev[b].encrypt == enc ==> ev[a].idx <= ev[b].idx)
  }

  // ------------------------------------------------------------------------
  // The first node is the first run

  function Range(a: nat, b: nat): (r: seq<nat>)
    requires a <= b
    ensures |r| == b - a
  {
    seq(b - a, k requires 0 <= k < b - a => a + k)
  }

  /** The first option with index i. */
  function First(ev: seq<Event>, i: int): (a: nat)
    ensures a <= |ev| && (a < |ev| ==> ev[a].idx == i)
    ensures forall k :: 0 <= k < a ==> ev[k].idx != i
  {
    if ev == [] then 0
    else
      var n := |ev| - 1;
      var a := First(ev[..n], i);
      if a < n || ev[n].idx == i then a else n + 1
  }

  /** Where the options with index i that start at a end. */
  function RunEnd(ev: seq<Event>, i: int, a: nat): (b: nat)
    requires a <= |ev|
    ensures a <= b <= |ev| && (b < |ev| ==> ev[b].idx != i)
    ensures forall k :: a <= k < b ==> ev[k].idx == i
    decreases |ev| - a
  {
    if a == |ev| || ev[a].idx != i then a else RunEnd(ev, i, a + 1)
  }

  /** Where the last run begins. */
  function LastRun(ev: seq<Event>): (s: nat)
    requires ev != []
    ensures s < |ev| && (s > 0 ==> ev[s - 1].idx != ev[s].idx)
    ensures forall k :: s <= k < |ev| ==> ev[k].idx == ev[s].idx
  {
    var n := |ev| - 1;
    if n == 0 || ev[n - 1].idx != ev[n].idx then n else LastRun(ev[..n])
  }

  predicate Filled<A>(l: seq<Node<A>>) {
    forall i :: 0 <= i < |l| ==> l[i].param != []
  }

  lemma {:induction false} GroupedFilled(ev: seq<Event>)
    ensures Filled(Grouped(ev))
    ensures Grouped(ev) == [] <==> ev == []
    ensures ev != [] ==> Grouped(ev)[|Grouped(ev)| - 1].idx == ev[|ev| - 1].idx
  {
    if ev != [] {
      GroupedFilled(ev[..|ev| - 1]);
    }
  }

  /** The last run is the last node, and what precedes it made the other nodes. */
  lemma {:induction false} LastRunIsNode(ev: seq<Event>)
    requires ev != []
    ensures var s := LastRun(ev); Grouped(ev) == Grouped(ev[..s]) + [Node(ev[s].idx, Range(s, |ev|))]
  {
    var n, s := |ev| - 1, LastRun(ev);
    var init := ev[..n];
    GroupedFilled(init);
    if s == n {
      assert Range(n, n + 1) == [n];
    } else {
      LastRunIsNode(init);
      assert init[..s] == ev[..s] && Range(s, n) + [n] == Range(s, n + 1);
    }
  }

  lemma {:induction false} LookupOneMore<A>(l: seq<Node<A>>, p: Node<A>, i: int)
    requires Filled(l)
    ensures Lookup(l + [p], i)
         == if Lookup(l, i) != [] then Lookup(l, i) else if p.idx == i then p.param else []
  {
    if l != [] {
      assert (l + [p])[1..] == l[1..] + [p];
      LookupOneMore(l[1..], p, i);
    }
  }

  /** The search for i returns the first run of options with that index. */
  lemma {:induction false} LookupIsFirstRun(ev: seq<Event>, i: int)
    ensures var a := First(ev, i); Lookup(Grouped(ev), i) == Range(a, RunEnd(ev, i, a))
    decreases |ev|
  {
    if ev != [] {
      var s := LastRun(ev);
      var a := First(ev, i);
      var b := RunEnd(ev, i, a);
      var init := ev[..s];
      LookupIsFirstRun(init, i);
      LastRunIsNode(ev);
      GroupedFilled(init);
      LookupOneMore(Grouped(init), Node(ev[s].idx, Range(s, |ev|)), i);
      FirstRunIn(ev, i, s);
    }
  }

  /** The first run either ends where the last one begins or before, or is the last one. */
  lemma {:induction false} FirstRunIn(ev: seq<Event>, i: int, s: nat)
    requires ev != [] && s == LastRun(ev)
    ensures var a, a' := First(ev, i), First(ev[..s], i);
      var b, b' := RunEnd(ev, i, a), RunEnd(ev[..s], i, a');
      if a' < s then a == a' && b == b'
      else if ev[s].idx == i then a == s && b == |ev|
      else a == b == |ev|
  {
    var init := ev[..s];
    var a' := First(init, i);
    assert forall k :: 0 <= k < s ==> init[k] == ev[k];
    if a' < s {
      FirstIs(ev, i, a');
      RunEndIs(ev, i, a', RunEnd(init, i, a'));
    } else if ev[s].idx == i {
      FirstIs(ev, i, s);
      RunEndIs(ev, i, s, |ev|);
    } else {
      FirstIs(ev, i, |ev|);
    }
  }

  lemma {:induction false} FirstIs(ev: seq<Event>, i: int, a: nat)
    requires a <= |ev| && (a < |ev| ==> ev[a].idx == i)
    requires forall k :: 0 <= k < a ==> ev[k].idx != i
    ensures First(ev, i) == a
  {}

  lemma {:induction false} RunEndIs(ev: seq<Event>, i: int, a: nat, b: nat)
    requires a <= b <= |ev| && (b < |ev| ==> ev[b].idx != i)
    requires forall k :: a <= k < b ==> ev[k].idx == i
    ensures RunEnd(ev, i, a) == b
  {}

  // ------------------------------------------------------------------------
  // Who finds what

  lemma {:induction false} OwnHolds(ev: seq<Event>, i: int, enc: bool, x: nat)
    ensures x in Own(ev, i, enc) <==> x < |ev| && ev[x] == Event(i, enc)
  {
    if ev != [] {
      OwnHolds(ev[..|ev| - 1], i, enc, x);
    }
  }

  lemma {:induction false} OwnIsRange(ev: seq<Event>, i: int, enc: bool, a: nat, b: nat)
    requires a <= b <= |ev|
    requires forall x :: 0 <= x < |ev| ==> (ev[x] == Event(i, enc) <==> a <= x < b)
    ensures Own(ev, i, enc) == Range(a, b)
  {
    if ev != [] {
      var n := |ev| - 1;
      var init := ev[..n];
      assert forall x :: 0 <= x < n ==> init[x] == ev[x];
      if b <= n {
        OwnIsRange(init, i, enc, a, b);
        assert ev[n] != Event(i, enc);
      } else if a == b {
        OwnIsRange(init, i, enc, n, n);
      } else {
        OwnIsRange(init, i, enc, a, n);
        assert Range(a, n) + [n] == Range(a, n + 1);
      }
    }
  }

  /** Owner i finds exactly its options if and only if they are the first run with its index. */
  ghost predicate RunIsOwn(ev: seq<Event>, i: int, enc: bool) {
    var a := First(ev, i);
    forall x :: 0 <= x < |ev| ==> (ev[x] == Event(i, enc) <==> a <= x < RunEnd(ev, i, a))
  }

  lemma {:induction false} ExactIsRun(ev: seq<Event>, i: int, enc: bool)
    ensures Lookup(Grouped(ev), i) == Own(ev, i, enc) <==> RunIsOwn(ev, i, enc)
  {
    var a := First(ev, i);
    var b := RunEnd(ev, i, a);
    LookupIsFirstRun(ev, i);
    if RunIsOwn(ev, i, enc) {
      OwnIsRange(ev, i, enc, a, b);
    }
    if Own(ev, i, enc) == Range(a, b) {
      forall x | 0 <= x < |ev| ensures ev[x] == Event(i, enc) <==> a <= x < b {
        OwnHolds(ev, i, enc, x);
        RangeHolds(a, b, x);
      }
    }
  }

  lemma {:induction false} RangeHolds(a: nat, b: nat, x: nat)
    requires a <= b
    ensures x in Range(a, b) <==> a <= x < b
  {
    if a <= x < b {
      assert Range(a, b)[x - a] == x;
    }
  }

  lemma {:induction false} HarmlessRun(ev: seq<Event>, n: nat, i: int, enc: bool)
    requires Ordered(ev, n, enc) && AllHarmless(ev, n, enc) && 0 <= i < n
    ensures RunIsOwn(ev, i, enc)
  {
    var a := First(ev, i);
    var b := RunEnd(ev, i, a);
    forall x | a <= x < b ensures ev[x] == Event(i, enc) {
      InFirstRun(ev, i, enc, x);
    }
    if b < |ev| && ev[b].encrypt != enc {
      assert !Splits(ev, b, enc);
    }
  }

  /** An option of the other kind inside the first run of a counted index is not settled. */
  lemma {:induction false} InFirstRun(ev: seq<Event>, i: int, enc: bool, x: nat)
    requires First(ev, i) <= x < RunEnd(ev, i, First(ev, i))
    ensures ev[x].idx == i && !Settled(ev, x, enc)
  {
    forall q | 0 <= q < x && ev[q].idx != i ensures Event(i, enc) !in ev[..q] {
      assert q < First(ev, i);
    }
  }

  lemma {:induction false} ExactHarmless(ev: seq<Event>, n: nat, enc: bool, f: nat)
    requires Ordered(ev, n, enc) && f < |ev| && ev[f].encrypt != enc && ev[f].idx >= 0
    requires forall i :: 0 <= i < n ==> RunIsOwn(ev, i, enc)
    ensures Harmless(ev, f, n, enc)
  {
    var j := ev[f].idx;
    if j < n {
      var a := First(ev, j);
      var b := RunEnd(ev, j, a);
      assert RunIsOwn(ev, j, enc);
      assert a <= f && !(a <= f < b);
      assert b <= f && ev[b].idx != j && a < b && ev[a] == Event(j, enc);
      assert ev[..b][a] == Event(j, enc);
      assert Event(j, enc) !in ev[b..] by {
        forall k | 0 <= k < |ev[b..]| ensures ev[b..][k] != Event(j, enc) {
          assert ev[b..][k] == ev[b + k];
        }
      }
      assert Settled(ev, f, enc);
    }
    forall x, y | 0 <= x < f < y < |ev| && ev[x].encrypt == enc ensures ev[x] != ev[y] {
      assert RunIsOwn(ev, ev[x].idx, enc);
    }
  }

  /**
   * Every owner finds exactly the options read for it if and only if each option read for
   * the other kind of owner is harmless.
   */
  lemma {:induction false} ExactIffHarmless(ev: seq<Event>, n: nat, enc: bool)
    requires Ordered(ev, n, enc) && forall f :: 0 <= f < |ev| ==> ev[f].idx >= 0
    ensures Exact(ev, n, enc) <==> AllHarmless(ev, n, enc)
  {
    forall i | 0 <= i < n ensures Lookup(Grouped(ev), i) == Own(ev, i, enc) <==> RunIsOwn(ev, i, enc) {
      ExactIsRun(ev, i, enc);
    }
    if AllHarmless(ev, n, enc) {
      forall i | 0 <= i < n ensures RunIsOwn(ev, i, enc) {
        HarmlessRun(ev, n, i, enc);
      }
    }
    if Exact(ev, n, enc) {
      assert forall i :: 0 <= i < n ==> RunIsOwn(ev, i, enc);
      forall f | 0 <= f < |ev| && ev[f].encrypt != enc ensures Harmless(ev, f, n, enc) {
        ExactHarmless(ev, n, enc, f);
      }
    }
  }

  // ------------------------------------------------------------------------
  // From positions to arguments

  ghost predicate LookupExact<A>(l: seq<Node<A>>, owners: seq<seq<A>>) {
    forall i :: 0 <= i < |owners| ==> Lookup(l, i) == owners[i]
  }

  predicate Distinct(args: seq<string>) {
    forall i, j :: 0 <= i < j < |args| ==> args[i] != args[j]
  }

  predicate Within(ps: seq<nat>, n: nat) {
    forall k :: 0 <= k < |ps| ==> ps[k] < n
  }

  /** The arguments at some positions. */
  function Picked(ps: seq<nat>, args: seq<string>): (r: seq<string>)
    ensures |r| == |ps|
  {
    seq(|ps|, k requires 0 <= k < |ps| => if ps[k] < |args| then args[ps[k]] else "")
  }

  function Named(l: seq<Node<nat>>, args: seq<string>): (r: seq<Node<string>>)
    ensures |r| == |l|
  {
    seq(|l|, k requires 0 <= k < |l| => Node(l[k].idx, Picked(l[k].param, args)))
  }

  /** Each owner's arguments are those of its options. */
  ghost predicate Owned(ev: seq<Event>, args: seq<string>, owners: seq<seq<string>>, enc: bool) {
    forall i :: 0 <= i < |owners| ==> owners[i] == Picked(Own(ev, i, enc), args)
  }

  lemma {:induction false} PickedMore(ps: seq<nat>, args: seq<string>, arg: string)
    requires Within(ps, |args|)
    ensures Picked(ps, args + [arg]) == Picked(ps, args)
    ensures Picked(ps + [|args|], args + [arg]) == Picked(ps, args) + [arg]
  {}

  lemma {:induction false} PickedInjective(ps: seq<nat>, qs: seq<nat>, args: seq<string>)
    requires Distinct(args) && Within(ps, |args|) && Within(qs, |args|)
    requires Picked(ps, args) == Picked(qs, args)
    ensures ps == qs
  {
    forall k | 0 <= k < |ps| ensures ps[k] == qs[k] {
      assert Picked(ps, args)[k] == args[ps[k]] && Picked(qs, args)[k] == args[qs[k]];
    }
  }

  lemma {:induction false} GroupedWithin(ev: seq<Event>)
    ensures forall k :: 0 <= k < |Grouped(ev)| ==> Within(Grouped(ev)[k].param, |ev|)
  {
    if ev != [] {
      GroupedWithin(ev[..|ev| - 1]);
    }
  }

  lemma {:induction false} OwnWithin(ev: seq<Event>, i: int, enc: bool)
    ensures Within(Own(ev, i, enc), |ev|)
  {
    if ev != [] {
      OwnWithin(ev[..|ev| - 1], i, enc);
    }
  }

  lemma {:induction false} LookupWithin(l: seq<Node<nat>>, i: int, n: nat)
    requires forall k :: 0 <= k < |l| ==> Within(l[k].param, n)
    ensures Within(Lookup(l, i), n)
  {
    if l != [] {
      LookupWithin(l[1..], i, n);
    }
  }

  lemma {:induction false} NamedAdd(l: seq<Node<nat>>, args: seq<string>, idx: int, arg: string)
    requires forall k :: 0 <= k < |l| ==> Within(l[k].param, |args|)
    ensures Named(AddParam(l, idx, |args|), args + [arg]) == AddParam(Named(l, args), idx, arg)
  {
    forall k | 0 <= k < |l| ensures Picked(l[k].param, args + [arg]) == Picked(l[k].param, args) {
      PickedMore(l[k].param, args, arg);
    }
    var m, n := Named(l, args), |l| - 1;
    if l == [] || l[n].idx != idx {
      assert Picked([|args|], args + [arg]) == [arg];
      assert Named(l + [Node(idx, [|args|])], args + [arg]) == m + [Node(idx, [arg])];
    } else {
      PickedMore(l[n].param, args, arg);
      assert Named(l[n := Node(idx, l[n].param + [|args|])], args + [arg]) == m[n := Node(idx, m[n].param + [arg])];
    }
  }

  lemma {:induction false} LookupNamed(l: seq<Node<nat>>, args: seq<string>, i: int)
    ensures Lookup(Named(l, args), i) == Picked(Lookup(l, i), args)
  {
    if l != [] {
      assert Named(l, args)[1..] == Named(l[1..], args);
      LookupNamed(l[1..], args, i);
    }
  }

  lemma {:induction false} OwnedNew(ev: seq<Event>, args: seq<string>, owners: seq<seq<string>>, enc: bool)
    requires Owned(ev, args, owners, enc) && Ordered(ev, |owners|, enc)
    ensures Owned(ev, args, owners + [[]], enc)
  {
    OwnIsRange(ev, |owners|, enc, 0, 0);
  }

  lemma {:induction false} OwnedMore(ev: seq<Event>, args: seq<string>, owners: seq<seq<string>>, n: nat, enc: bool)
    requires Owned(ev, args, owners, enc) && Ordered(ev, |owners|, enc)
    ensures Owned(ev, args, owners + Empties(n), enc)
  {
    forall i | |owners| <= i < |owners| + n ensures Own(ev, i, enc) == [] {
      OwnIsRange(ev, i, enc, 0, 0);
    }
  }

  lemma {:induction false} OwnedAdd(ev: seq<Event>, args: seq<string>, owners: seq<seq<string>>, enc: bool, e: Event, arg: string)
    requires Owned(ev, args, owners, enc) && |args| == |ev|
    ensures e.encrypt != enc ==> Owned(ev + [e], args + [arg], owners, enc)
    ensures e.encrypt == enc && owners != [] && e.idx == |owners| - 1 ==>
      Owned(ev + [e], args + [arg], AddLast(owners, arg), enc)
  {
    assert (ev + [e])[..|ev|] == ev;
    forall i | 0 <= i < |owners|
      ensures Picked(Own(ev + [e], i, enc), args + [arg]) == owners[i] + if e == Event(i, enc) then [arg] else []
    {
      OwnWithin(ev, i, enc);
      PickedMore(Own(ev, i, enc), args, arg);
    }
  }

  /** Found by position, found by argument; for distinct arguments also the other way round. */
  lemma {:induction false} ExactByName(ev: seq<Event>, args: seq<string>, owners: seq<seq<string>>, enc: bool)
    requires Owned(ev, args, owners, enc) && |args| == |ev|
    ensures Exact(ev, |owners|, enc) ==> LookupExact(Named(Grouped(ev), args), owners)
    ensures Distinct(args) && LookupExact(Named(Grouped(ev), args), owners) ==> Exact(ev, |owners|, enc)
  {
    var l := Grouped(ev);
    GroupedWithin(ev);
    forall i | 0 <= i < |owners|
      ensures Lookup(l, i) == Own(ev, i, enc) ==> Lookup(Named(l, args), i) == owners[i]
      ensures Distinct(args) && Lookup(Named(l, args), i) == owners[i] ==> Lookup(l, i) == Own(ev, i, enc)
    {
      LookupNamed(l, args, i);
      LookupWithin(l, i, |args|);
      OwnWithin(ev, i, enc);
      if Distinct(args) && Picked(Lookup(l, i), args) == Picked(Own(ev, i, enc), args) {
        PickedInjective(Lookup(l, i), Own(ev, i, enc), args);
      }
    }
  }
}
