// The policy scan of do_body in tongsuo/apps/ca.c: which requests satisfy a policy section,
// and the subject name a certificate then gets.
module Policy {
  import opened Wrappers
  import opened Bytes

  /** The object identifier of emailAddress (NID_pkcs9_emailAddress). */
  const NID_EMAIL := 48

  /** An ASN.1 string compares by length, bytes and tag, that is, by equality. */
  datatype Asn1String = Asn1String(tag: nat, data: seq<byte>)
  datatype Entry = Entry(nid: nat, value: Asn1String)
  type Name = seq<Entry>

  /** One line of the policy section: an attribute and what is asked of it. */
  datatype Item = Item(attribute: string, value: string)
  type Objects = string -> Option<nat>

  datatype Complaint = UnknownType | InvalidPolicy | Missing | NotInCa | Different
  datatype Outcome = Subject(name: Name) | Refused(item: nat, complaint: Complaint)

  // ------------------------------------------------------------------------
  // What the scan should find

  /** The entries of one type, in order. */
  function OfType(s: Name, nid: nat): Name {
    if s == [] then []
    else
      var e := s[|s| - 1];
      OfType(s[..|s| - 1], nid) + (if e.nid == nid then [e] else [])
  }

  /** The entries of every other type, in order. */
  function NotOfType(s: Name, nid: nat): Name {
    if s == [] then []
    else
      var e := s[|s| - 1];
      NotOfType(s[..|s| - 1], nid) + (if e.nid == nid then [] else [e])
  }

  /** Together the two keep every entry, however often it occurs. */
  lemma {:induction false} PartitionByType(s: Name, nid: nat)
    ensures multiset(OfType(s, nid)) + multiset(NotOfType(s, nid)) == multiset(s)
  {
    if s != [] {
      var init, e := s[..|s| - 1], s[|s| - 1];
      PartitionByType(init, nid);
      assert s == init + [e];
      assert multiset(s) == multiset(init) + multiset{e};
    }
  }

  lemma {:induction false} OwnKindOnly(s: Name, nid: nat)
    ensures forall e :: e in OfType(s, nid) ==> e.nid == nid
    ensures forall e :: e in NotOfType(s, nid) ==> e.nid != nid
  {
    if s != [] {
      OwnKindOnly(s[..|s| - 1], nid);
    }
  }

  predicate Present(s: Name, nid: nat) {
    exists k :: 0 <= k < |s| && s[k].nid == nid
  }

  /** Every entry of this type in the request also stands in the CA name. */
  predicate AllInCa(request: Name, ca: Name, nid: nat) {
    forall k :: 0 <= k < |request| && request[k].nid == nid ==> request[k] in ca
  }

  /** Why a policy line refuses a request, if it does. */
  function Verdict(item: Item, request: Name, ca: Name, objects: Objects): Option<Complaint> {
    match objects(item.attribute)
    case None => Some(UnknownType)
    case Some(nid) =>
      if item.value == "optional" then None
      else if item.value == "supplied" then
        if Present(request, nid) then None else Some(Missing)
      else if item.value == "match" then
        if !Present(request, nid) then Some(Missing)
        else if !Present(ca, nid) then Some(NotInCa)
        else if AllInCa(request, ca, nid) then None else Some(Different)
      else Some(InvalidPolicy)
  }

  /** The request entries the policy lists, line by line. */
  function Selected(policy: seq<Item>, request: Name, objects: Objects): Name {
    if policy == [] then []
    else
      var last := policy[|policy| - 1];
      Selected(policy[..|policy| - 1], request, objects)
        + match objects(last.attribute) case None => [] case Some(nid) => OfType(request, nid)
  }

  // ------------------------------------------------------------------------
  // The same by positions

  /** Lexicographic order of (policy line, request entry). */
  predicate Before(p: (nat, nat), q: (nat, nat)) {
    p.0 < q.0 || (p.0 == q.0 && p.1 < q.1)
  }

  /** Line p.0 is about the type of request entry p.1. */
  predicate About(p: (nat, nat), policy: seq<Item>, request: Name, objects: Objects) {
    p.0 < |policy| && p.1 < |request| && objects(policy[p.0].attribute) == Some(request[p.1].nid)
  }

  /**
   * The name consists of the request entries at these pairs, which are all pairs of a line and
   * an entry of its type, in order.
   */
  ghost predicate TakenAt(name: Name, at: seq<(nat, nat)>, policy: seq<Item>, request: Name, objects: Objects) {
    && |at| == |name|
    && (forall k :: 0 <= k < |at| ==> About(at[k], policy, request, objects) && name[k] == request[at[k].1])
    && (forall k, m :: 0 <= k < m < |at| ==> Before(at[k], at[m]))
    && (forall p: (nat, nat) :: About(p, policy, request, objects) ==> p in at)
  }

  /** The name consists of the entries at these positions of s, in order. */
  predicate PickedAt(name: Name, ps: seq<nat>, s: Name) {
    && |ps| == |name|
    && (forall k :: 0 <= k < |ps| ==> ps[k] < |s| && name[k] == s[ps[k]])
    && (forall k, m :: 0 <= k < m < |ps| ==> ps[k] < ps[m])
  }

  lemma {:induction false} PickedMore(name: Name, ps: seq<nat>, s: Name)
    requires s != [] && PickedAt(name, ps, s[..|s| - 1])
    ensures PickedAt(name + [], ps + [], s) && PickedAt(name + [s[|s| - 1]], ps + [|s| - 1], s)
  {
    assert name + [] == name && ps + [] == ps;
    assert forall j :: 0 <= j < |s| - 1 ==> s[..|s| - 1][j] == s[j];
  }

  /** The positions are those of the entries of a type or, if not own, of all others. */
  predicate PositionsAre(ps: seq<nat>, s: Name, nid: nat, own: bool) {
    forall j :: 0 <= j < |s| ==> (j in ps <==> (s[j].nid == nid) == own)
  }

  function Positions(s: Name, nid: nat, own: bool): seq<nat> {
    if s == [] then []
    else Positions(s[..|s| - 1], nid, own) + if (s[|s| - 1].nid == nid) == own then [|s| - 1] else []
  }

  lemma {:induction false} PositionsExactly(s: Name, nid: nat, own: bool)
    ensures PickedAt(if own then OfType(s, nid) else NotOfType(s, nid), Positions(s, nid, own), s)
    ensures PositionsAre(Positions(s, nid, own), s, nid, own)
  {
    if s != [] {
      var n := |s| - 1;
      var init := s[..n];
      PositionsExactly(init, nid, own);
      PickedMore(if own then OfType(init, nid) else NotOfType(init, nid), Positions(init, nid, own), s);
      PositionsMore(Positions(init, nid, own), s, nid, own);
    }
  }

  lemma {:induction false} PositionsMore(ps: seq<nat>, s: Name, nid: nat, own: bool)
    requires s != [] && PositionsAre(ps, s[..|s| - 1], nid, own) && forall k :: 0 <= k < |ps| ==> ps[k] < |s| - 1
    ensures PositionsAre(ps + if (s[|s| - 1].nid == nid) == own then [|s| - 1] else [], s, nid, own)
  {
    var n := |s| - 1;
    forall j | 0 <= j < n ensures j in ps <==> (s[j].nid == nid) == own {
      assert s[..n][j] == s[j];
    }
  }

  function Paired(i: nat, ps: seq<nat>): (r: seq<(nat, nat)>)
    ensures |r| == |ps|
  {
    seq(|ps|, k requires 0 <= k < |ps| => (i, ps[k]))
  }

  function PairsOf(policy: seq<Item>, request: Name, objects: Objects): seq<(nat, nat)> {
    if policy == [] then []
    else
      var n := |policy| - 1;
      PairsOf(policy[..n], request, objects)
        + match objects(policy[n].attribute) case None => [] case Some(nid) => Paired(n, Positions(request, nid, true))
  }

  /** The selected entries, line by line and in request order within each. */
  lemma {:induction false} SelectedExactly(policy: seq<Item>, request: Name, objects: Objects)
    ensures TakenAt(Selected(policy, request, objects), PairsOf(policy, request, objects), policy, request, objects)
  {
    if policy != [] {
      var n := |policy| - 1;
      SelectedExactly(policy[..n], request, objects);
      match objects(policy[n].attribute) {
        case None =>
          TakenNone(Selected(policy[..n], request, objects), PairsOf(policy[..n], request, objects), policy, request, objects);
        case Some(nid) =>
          PositionsExactly(request, nid, true);
          TakenMore(Selected(policy[..n], request, objects), PairsOf(policy[..n], request, objects),
                    OfType(request, nid), Positions(request, nid, true), policy, request, objects);
      }
    }
  }

  lemma {:induction false} TakenNone(name: Name, at: seq<(nat, nat)>, policy: seq<Item>, request: Name, objects: Objects)
    requires policy != [] && TakenAt(name, at, policy[..|policy| - 1], request, objects)
    requires objects(policy[|policy| - 1].attribute).None?
    ensures TakenAt(name + [], at + [], policy, request, objects)
  {
    assert name + [] == name && at + [] == at;
    AboutInit(policy, request, objects);
  }

  lemma {:induction false} AboutInit(policy: seq<Item>, request: Name, objects: Objects)
    requires policy != []
    ensures forall p: (nat, nat) :: About(p, policy[..|policy| - 1], request, objects) <==>
      About(p, policy, request, objects) && p.0 < |policy| - 1
  {
    assert forall i :: 0 <= i < |policy| - 1 ==> policy[..|policy| - 1][i] == policy[i];
  }

  lemma {:induction false} TakenMore(name: Name, at: seq<(nat, nat)>, more: Name, ps: seq<nat>,
                                     policy: seq<Item>, request: Name, objects: Objects)
    requires policy != [] && TakenAt(name, at, policy[..|policy| - 1], request, objects)
    requires objects(policy[|policy| - 1].attribute).Some?
    requires PickedAt(more, ps, request)
    requires PositionsAre(ps, request, objects(policy[|policy| - 1].attribute).value, true)
    ensures TakenAt(name + more, at + Paired(|policy| - 1, ps), policy, request, objects)
  {
    var n := |policy| - 1;
    var added, all := Paired(n, ps), at + Paired(n, ps);
    AboutInit(policy, request, objects);
    forall k | 0 <= k < |all| ensures About(all[k], policy, request, objects) && (name + more)[k] == request[all[k].1] {
      if k >= |at| {
        assert all[k] == added[k - |at|];
      }
    }
    forall k, m | 0 <= k < m < |all| ensures Before(all[k], all[m]) {
      if k < |at| <= m {
        assert all[k].0 < n && all[m].0 == n;
      }
    }
    forall p: (nat, nat) | About(p, policy, request, objects) ensures p in all {
      if p.0 == n {
        var k :| 0 <= k < |ps| && ps[k] == p.1;
        assert added[k] == p && all[|at| + k] == p;
      } else {
        assert p in at;
      }
    }
  }

  /** A policy line is met, in plain terms. */
  lemma {:induction false} VerdictExactly(item: Item, request: Name, ca: Name, objects: Objects)
    ensures var v, nid := Verdict(item, request, ca, objects), objects(item.attribute);
      && (v.None? <==>
          && nid.Some?
          && item.value in {"optional", "supplied", "match"}
          && (item.value != "optional" ==> exists j :: 0 <= j < |request| && request[j].nid == nid.value)
          && (item.value == "match" ==> forall j :: 0 <= j < |request| && request[j].nid == nid.value ==> request[j] in ca))
      && (v == Some(UnknownType) <==> nid.None?)
      && (v == Some(InvalidPolicy) <==> nid.Some? && item.value !in {"optional", "supplied", "match"})
      && (v == Some(Missing) <==>
          nid.Some? && item.value in {"supplied", "match"} && forall j :: 0 <= j < |request| ==> request[j].nid != nid.value)
      && (v == Some(NotInCa) ==> forall j :: 0 <= j < |ca| ==> ca[j].nid != nid.value)
  {}

  /** The name is the other one without the entries of a type, in order. */
  ghost predicate Without(name: Name, s: Name, nid: nat) {
    exists ps: seq<nat> :: PickedAt(name, ps, s) && PositionsAre(ps, s, nid, false)
  }

  lemma {:induction false} NotOfTypeExactly(s: Name, nid: nat)
    ensures Without(NotOfType(s, nid), s, nid)
  {
    PositionsExactly(s, nid, false);
  }

  // ------------------------------------------------------------------------
  // Index lookup

  /** X509_NAME_get_index_by_OBJ: the next entry of a type past position last, or -1. */
  function NextIndex(s: Name, nid: nat, last: int): (j: int)
    requires -1 <= last < |s|
    ensures j == -1 || (last < j < |s| && s[j].nid == nid)
    ensures forall k :: last < k < (if j == -1 then |s| else j) ==> s[k].nid != nid
    decreases |s| - last
  {
    if last == |s| - 1 then -1
    else if s[last + 1].nid == nid then last + 1
    else NextIndex(s, nid, last + 1)
  }

  lemma {:induction false} SkipOthers(s: Name, nid: nat, m: nat, n: nat)
    requires m <= n <= |s|
    requires forall k :: m <= k < n ==> s[k].nid != nid
    ensures OfType(s[..n], nid) == OfType(s[..m], nid)
    decreases n
  {
    if m < n {
      SkipOthers(s, nid, m, n - 1);
      assert s[..n][..n - 1] == s[..n - 1];
    }
  }

  lemma FoundNext(s: Name, nid: nat, last: int)
    requires -1 <= last < |s|
    ensures var j := NextIndex(s, nid, last);
      if j == -1 then OfType(s, nid) == OfType(s[..last + 1], nid)
      else OfType(s[..j + 1], nid) == OfType(s[..last + 1], nid) + [s[j]]
  {
    var j := NextIndex(s, nid, last);
    if j == -1 {
      SkipOthers(s, nid, last + 1, |s|);
      assert s[..|s|] == s;
    } else {
      SkipOthers(s, nid, last + 1, j);
      assert s[..j + 1][..j] == s[..j];
    }
  }

  // ------------------------------------------------------------------------
  // The scan

  /** The inner scan over the CA name: the first entry with this type and value. */
  method FindInCa(ca: Name, wanted: Entry) returns (found: Option<Entry>, complaint: Complaint)
    ensures found.Some? <==> wanted in ca
    ensures found.Some? ==> found.value == wanted
    ensures found.None? ==> complaint == if Present(ca, wanted.nid) then Different else NotInCa
  {
    complaint := Different;
    var last2 := -1;
    while true
      invariant -1 <= last2 < |ca|
      invariant forall k :: 0 <= k <= last2 ==> ca[k] != wanted
      invariant last2 != -1 ==> ca[last2].nid == wanted.nid
      invariant complaint == Different
      decreases |ca| - last2
    {
      var j := NextIndex(ca, wanted.nid, last2);
      if j < 0 && last2 == -1 {
        return None, NotInCa;
      }
      if j < 0 {
        return None, Different;
      }
      last2 := j;
      if ca[j].value == wanted.value {
        return Some(ca[j]), Different;
      }
    }
  }

  /** The scan of the request for one policy line. */
  method ScanItem(value: string, nid: nat, request: Name, ca: Name)
    returns (pushed: Name, complaint: Option<Complaint>)
    ensures forall item: Item, objects: Objects ::
      item.value == value && objects(item.attribute) == Some(nid) ==>
      complaint == Verdict(item, request, ca, objects)
    ensures complaint.None? ==> pushed == OfType(request, nid)
  {
    pushed := [];
    var last := -1;
    while true
      invariant -1 <= last < |request|
      invariant pushed == OfType(request[..last + 1], nid)
      invariant last != -1 ==> request[last].nid == nid && value in ["optional", "supplied", "match"]
      invariant last != -1 && value == "match" ==> AllInCa(request[..last + 1], ca, nid) && Present(ca, nid)
      decreases |request| - last
    {
      var j := NextIndex(request, nid, last);
      FoundNext(request, nid, last);
      if j < 0 {
        assert forall k :: 0 <= k < last + 1 ==> request[..last + 1][k] == request[k];
        if last != -1 {
          return pushed, None;
        }
        if value == "optional" {
          return pushed, None;
        } else if value == "supplied" || value == "match" {
          return pushed, Some(Missing);
        } else {
          return pushed, Some(InvalidPolicy);
        }
      }
      var entry := request[j];
      if value == "optional" || value == "supplied" {
        pushed := pushed + [entry];
      } else if value == "match" {
        var found, why := FindInCa(ca, entry);
        if found.None? {
          return pushed, Some(why);
        }
        assert forall k :: 0 <= k < last + 1 ==> request[..last + 1][k] == request[k];
        pushed := pushed + [found.value];
      } else {
        return pushed, Some(InvalidPolicy);
      }
      last := j;
    }
  }

  /**
   * The whole policy loop. It succeeds exactly when no line has a complaint, and then the
   * subject is the selected entries; otherwise it reports the first complaint.
   */
  method BuildSubject(policy: seq<Item>, request: Name, ca: Name, objects: Objects) returns (out: Outcome)
    ensures out.Subject? <==> forall i :: 0 <= i < |policy| ==> Verdict(policy[i], request, ca, objects).None?
    ensures out.Subject? ==> out.name == Selected(policy, request, objects)
    ensures out.Subject? ==> TakenAt(out.name, PairsOf(policy, request, objects), policy, request, objects)
    ensures out.Refused? ==>
      && out.item < |policy|
      && Verdict(policy[out.item], request, ca, objects) == Some(out.complaint)
      && forall i :: 0 <= i < out.item ==> Verdict(policy[i], request, ca, objects).None?
  {
    var subject: Name := [];
    for i := 0 to |policy|
      invariant subject == Selected(policy[..i], request, objects)
      invariant forall k :: 0 <= k < i ==> Verdict(policy[k], request, ca, objects).None?
    {
      var nid := objects(policy[i].attribute);
      if nid.None? {
        return Refused(i, UnknownType);
      }
      var pushed, complaint := ScanItem(policy[i].value, nid.value, request, ca);
      if complaint.Some? {
        assert Verdict(policy[i], request, ca, objects) == complaint;
        return Refused(i, complaint.value);
      }
      assert policy[..i + 1][..i] == policy[..i];
      subject := subject + pushed;
    }
    assert policy[..|policy|] == policy;
    SelectedExactly(policy, request, objects);
    return Subject(subject);
  }

  // ------------------------------------------------------------------------
  // Leaving e-mail addresses out

  lemma {:induction false} DeleteOne(s: Name, nid: nat, i: nat)
    requires i < |s| && s[i].nid == nid
    ensures NotOfType(s[..i] + s[i + 1..], nid) == NotOfType(s, nid)
    decreases |s|
  {
    var t := s[..i] + s[i + 1..];
    if i == |s| - 1 {
      assert t == s[..|s| - 1];
    } else {
      var s' := s[..|s| - 1];
      assert t[..|t| - 1] == s'[..i] + s'[i + 1..];
      DeleteOne(s', nid, i);
    }
  }

  lemma {:induction false} NoneOfType(s: Name, nid: nat)
    requires !Present(s, nid)
    ensures NotOfType(s, nid) == s
  {
    if s != [] {
      var i := |s| - 1;
      assert forall k :: 0 <= k < i ==> s[..i][k] == s[k];
      assert s[i].nid != nid;
      NoneOfType(s[..i], nid);
      assert s == s[..i] + [s[i]];
    }
  }

  /** Deletes e-mail entries one at a time, stepping the scan back after each deletion. */
  method DropEmail(subject: Name) returns (dn: Name)
    ensures dn == NotOfType(subject, NID_EMAIL)
  {
    dn := subject;
    var i := NextIndex(dn, NID_EMAIL, -1);
    while i >= 0
      invariant -1 <= i < |dn|
      invariant NotOfType(dn, NID_EMAIL) == NotOfType(subject, NID_EMAIL)
      invariant forall k :: 0 <= k < (if i == -1 then |dn| else i) ==> dn[k].nid != NID_EMAIL
      invariant i >= 0 ==> dn[i].nid == NID_EMAIL
      decreases |dn|
    {
      DeleteOne(dn, NID_EMAIL, i);
      dn := dn[..i] + dn[i + 1..];
      i := NextIndex(dn, NID_EMAIL, i - 1);
    }
    NoneOfType(dn, NID_EMAIL);
  }
}
