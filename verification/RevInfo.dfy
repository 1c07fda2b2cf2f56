// The revocation text of the CA database in tongsuo/apps/ca.c: make_revocation_str prints it,
// unpack_revinfo and make_revoked read it. Time and object-identifier syntax is left to the
// library and enters as three predicates.
module RevInfo {
  import opened Wrappers

  /** Which strings the ASN.1 readers accept. */
  datatype Syntax = Syntax(isUtcTime: string -> bool, isGeneralizedTime: string -> bool, isOid: string -> bool)

  /** How a revocation was asked for (REVINFO_TYPE and its argument). */
  datatype Ask = NoInfo | Valid | CrlReason(arg: string) | Hold(arg: string)
               | KeyCompromise(arg: string) | CaCompromise(arg: string)

  const REASONS: seq<string> := [
    "unspecified", "keyCompromise", "CACompromise", "affiliationChanged", "superseded",
    "cessationOfOperation", "certificateHold", "removeFromCRL",
    "holdInstruction", "keyTime", "CAkeyTime"
  ]

  /** The CRLReason codes of section 5.3.1 of RFC 5280 for the first eight names; 7 is unused. */
  const CODES: seq<int> := [0, 1, 2, 3, 4, 5, 6, 8]

  const NOSTATUS := -1

  /** What a revocation text says: time, reason code, hold instruction, invalidity date. */
  datatype Info = Info(time: string, reason: int, hold: Option<string>, invalidity: Option<string>)

  // ------------------------------------------------------------------------
  // Strings

  function Lower(s: string): string {
    seq(|s|, i requires 0 <= i < |s| => if 'A' <= s[i] <= 'Z' then (s[i] as int + 32) as char else s[i])
  }

  /** OPENSSL_strcasecmp(a, b) == 0. */
  predicate CaseEqual(a: string, b: string) {
    Lower(a) == Lower(b)
  }

  /** strchr: the first comma, or the length when there is none. */
  function Comma(s: string): (i: nat)
    ensures i <= |s| && ',' !in s[..i]
    ensures i < |s| ==> s[i] == ','
  {
    if s == "" || s[0] == ',' then 0 else 1 + Comma(s[1..])
  }

  lemma {:induction false} CommaAfter(s: string, rest: string)
    requires ',' !in s && (rest == "" || rest[0] == ',')
    ensures Comma(s + rest) == |s|
  {
    if s == "" {
      assert s + rest == rest;
    } else {
      CommaAfter(s[1..], rest);
      assert (s + rest)[1..] == s[1..] + rest;
    }
  }

  /** The first of the first n reason names that s spells in any case, or n. */
  function FindReason(s: string, n: nat): (i: nat)
    requires n <= |REASONS|
    ensures i <= n
    ensures i < n ==> CaseEqual(s, REASONS[i])
    ensures forall k :: 0 <= k < i ==> !CaseEqual(s, REASONS[k])
  {
    if n == 0 then 0
    else
      var i := FindReason(s, n - 1);
      if i < n - 1 || CaseEqual(s, REASONS[i]) then i else n
  }

  // ------------------------------------------------------------------------
  // Printing

  /** The reason name and the extra argument a request puts in the text, when it is accepted. */
  function Parts(ask: Ask, syn: Syntax): Option<(Option<string>, Option<string>)> {
    match ask
    case NoInfo => Some((None, None))
    case Valid => Some((None, None))
    case CrlReason(arg) =>
      var i := FindReason(arg, 8);
      if i < 8 then Some((Some(REASONS[i]), None)) else None
    case Hold(arg) =>
      if syn.isOid(arg) then Some((Some("holdInstruction"), Some(arg))) else None
    case KeyCompromise(arg) =>
      if syn.isGeneralizedTime(arg) then Some((Some("keyTime"), Some(arg))) else None
    case CaCompromise(arg) =>
      if syn.isGeneralizedTime(arg) then Some((Some("CAkeyTime"), Some(arg))) else None
  }

  function WithComma(part: Option<string>): string {
    match part case None => "" case Some(s) => "," + s
  }

  function Joined(now: string, reason: Option<string>, other: Option<string>): string {
    match reason case None => now case Some(r) => now + ("," + (r + WithComma(other)))
  }

  /** The text for a revocation at time now: the time, then reason and argument if any. */
  function Text(ask: Ask, now: string, syn: Syntax): Option<string> {
    match Parts(ask, syn)
    case None => None
    case Some((reason, other)) => Some(Joined(now, reason, other))
  }

  /** OPENSSL_strlcpy into a buffer of the given size: at most size - 1 characters. */
  function Strlcpy(src: string, size: nat): string {
    if |src| < size then src else if size == 0 then "" else src[..size - 1]
  }

  /** OPENSSL_strlcat onto the string dst held in a buffer of the given size. */
  function Strlcat(dst: string, src: string, size: nat): string {
    if |dst| >= size then dst else dst + Strlcpy(src, size - |dst|)
  }

  /** make_revocation_str: the argument checks, then the buffer. */
  method MakeRevocationStr(ask: Ask, now: string, syn: Syntax) returns (str: Option<string>)
    ensures str == Text(ask, now, syn)
  {
    var reason: Option<string>, other: Option<string> := None, None;
    match ask {
      case NoInfo =>
      case Valid =>
      case CrlReason(arg) =>
        reason := LookUpReason(arg);
        if reason.None? {
          return None;
        }
      case Hold(arg) =>
        if !syn.isOid(arg) {
          return None;
        }
        reason, other := Some("holdInstruction"), Some(arg);
      case KeyCompromise(arg) =>
        if !syn.isGeneralizedTime(arg) {
          return None;
        }
        reason, other := Some("keyTime"), Some(arg);
      case CaCompromise(arg) =>
        if !syn.isGeneralizedTime(arg) {
          return None;
        }
        reason, other := Some("CAkeyTime"), Some(arg);
    }
    var s, size := FillBuffer(now, reason, other);
    return Some(s);
  }

  method LookUpReason(arg: string) returns (reason: Option<string>)
    ensures var i := FindReason(arg, 8); reason == if i < 8 then Some(REASONS[i]) else None
  {
    for i := 0 to 8
      invariant forall k :: 0 <= k < i ==> !CaseEqual(arg, REASONS[k])
    {
      if CaseEqual(arg, REASONS[i]) {
        return Some(REASONS[i]);
      }
    }
    return None;
  }

  /**
   * The bounded copies. The computed size leaves room for the terminator and not a
   * character more, so no copy is cut.
   */
  method FillBuffer(now: string, reason: Option<string>, other: Option<string>) returns (s: string, size: nat)
    requires reason.None? ==> other.None?
    ensures s == Joined(now, reason, other)
    ensures |s| + 1 == size
  {
    size := |now| + 1;
    if reason.Some? {
      size := size + |reason.value| + 1;
    }
    if other.Some? {
      size := size + |other.value| + 1;
    }
    s := Strlcpy(now, size);
    if reason.Some? {
      s := AppendPart(s, reason.value, size);
      JoinedOnce(now, reason.value);
    }
    if other.Some? {
      s := AppendPart(s, other.value, size);
      JoinedTwice(now, reason.value, other.value);
    }
  }

  method AppendPart(dst: string, part: string, size: nat) returns (s: string)
    requires |dst| + 1 + |part| < size
    ensures s == dst + "," + part
  {
    s := Strlcat(dst, ",", size);
    s := Strlcat(s, part, size);
  }

  lemma {:induction false} JoinedOnce(now: string, r: string)
    ensures Joined(now, Some(r), None) == now + "," + r
  {
    assert r + "" == r;
  }

  lemma {:induction false} JoinedTwice(now: string, r: string, o: string)
    ensures Joined(now, Some(r), Some(o)) == now + "," + r + "," + o
  {}

  // ------------------------------------------------------------------------
  // Reading

  /** unpack_revinfo: time, then an optional reason, then whatever follows the second comma. */
  function Unpack(str: string, syn: Syntax): Option<Info> {
    var c := Comma(str);
    var time := str[..c];
    if !syn.isUtcTime(time) then None
    else if c == |str| then Some(Info(time, NOSTATUS, None, None))
    else
      var rest := str[c + 1..];
      var d := Comma(rest);
      UnpackReason(time, rest[..d], if d < |rest| then Some(rest[d + 1..]) else None, syn)
  }

  function UnpackReason(time: string, reason: string, arg: Option<string>, syn: Syntax): Option<Info> {
    var i := FindReason(reason, |REASONS|);
    if i == |REASONS| then None
    else if i < 7 then Some(Info(time, i, None, None))
    else if i == 7 then Some(Info(time, 8, None, None))
    else if arg.None? then None
    else if i == 8 then
      if syn.isOid(arg.value) then Some(Info(time, 6, arg, None)) else None
    else if !syn.isGeneralizedTime(arg.value) then None
    else Some(Info(time, if i == 9 then 1 else 2, None, arg))
  }

  /** make_revoked: 0 for an unreadable text, 2 when it gives a reason, 1 otherwise. */
  function MakeRevoked(str: string, syn: Syntax): int {
    match Unpack(str, syn)
    case None => 0
    case Some(info) => if info.reason != NOSTATUS then 2 else 1
  }

  // ------------------------------------------------------------------------
  // Round trip

  /** What was asked for, as a CRL entry should say it. */
  function Meaning(ask: Ask, now: string): Info {
    match ask
    case NoInfo => Info(now, NOSTATUS, None, None)
    case Valid => Info(now, NOSTATUS, None, None)
    case CrlReason(arg) =>
      var i := FindReason(arg, 8);
      Info(now, if i < 8 then CODES[i] else NOSTATUS, None, None)
    case Hold(arg) => Info(now, 6, Some(arg), None)
    case KeyCompromise(arg) => Info(now, 1, None, Some(arg))
    case CaCompromise(arg) => Info(now, 2, None, Some(arg))
  }

  /** No reason name contains a comma and no two spell the same, whatever the case. */
  lemma {:induction false} ReasonNames(i: nat)
    requires i < |REASONS|
    ensures ',' !in REASONS[i] && FindReason(REASONS[i], |REASONS|) == i
  {
    forall k | 0 <= k < i ensures !CaseEqual(REASONS[i], REASONS[k]) {
      NamesDiffer(i, k);
    }
    assert CaseEqual(REASONS[i], REASONS[i]);
  }

  lemma {:induction false} NamesDiffer(i: nat, k: nat)
    requires k < i < |REASONS|
    ensures !CaseEqual(REASONS[i], REASONS[k])
  {
    if |REASONS[i]| != |REASONS[k]| {
      assert |Lower(REASONS[i])| != |Lower(REASONS[k])|;
    } else {
      assert Lower(REASONS[i])[3] != Lower(REASONS[k])[3] || Lower(REASONS[i])[0] != Lower(REASONS[k])[0];
    }
  }

  lemma {:induction false} CutAtComma(a: string, b: string)
    requires ',' !in a
    ensures var s := a + ("," + b); Comma(s) == |a| < |s| && s[..|a|] == a && s[|a| + 1..] == b
  {
    CommaAfter(a, "," + b);
  }

  lemma {:induction false} NothingToCut(a: string)
    requires ',' !in a
    ensures Comma(a) == |a| && a[..|a|] == a
  {
    CommaAfter(a, "");
    assert a + "" == a;
  }

  /** Cutting at the first two commas finds the parts, whatever the extra argument holds. */
  lemma {:induction false} UnpackParts(now: string, name: string, other: Option<string>, syn: Syntax)
    requires ',' !in now && ',' !in name
    ensures Unpack(Joined(now, Some(name), other), syn)
         == if syn.isUtcTime(now) then UnpackReason(now, name, other, syn) else None
  {
    var rest := name + WithComma(other);
    CutAtComma(now, rest);
    match other {
      case None =>
        assert rest == name;
        NothingToCut(name);
      case Some(o) => CutAtComma(name, o);
    }
  }

  lemma {:induction false} ReadReason(i: nat, now: string, syn: Syntax)
    requires i < 8
    ensures UnpackReason(now, REASONS[i], None, syn) == Some(Info(now, CODES[i], None, None))
  {
    ReasonNames(i);
  }

  lemma {:induction false} ReadSpecial(arg: string, now: string, syn: Syntax)
    ensures syn.isOid(arg) ==>
      UnpackReason(now, REASONS[8], Some(arg), syn) == Some(Info(now, 6, Some(arg), None))
    ensures syn.isGeneralizedTime(arg) ==>
      && UnpackReason(now, REASONS[9], Some(arg), syn) == Some(Info(now, 1, None, Some(arg)))
      && UnpackReason(now, REASONS[10], Some(arg), syn) == Some(Info(now, 2, None, Some(arg)))
  {
    ReasonNames(8);
    ReasonNames(9);
    ReasonNames(10);
  }

  /**
   * Every text that was printed is read back to what was asked, extra commas and all, if the
   * clock printed a UTCTime; any other time is refused.
   */
  lemma {:induction false} TextRoundTrip(ask: Ask, now: string, syn: Syntax)
    requires ',' !in now
    requires Text(ask, now, syn).Some?
    ensures Unpack(Text(ask, now, syn).value, syn) == if syn.isUtcTime(now) then Some(Meaning(ask, now)) else None
  {
    match ask {
      case NoInfo => UnpackTime(now, syn);
      case Valid => UnpackTime(now, syn);
      case CrlReason(arg) =>
        var i := FindReason(arg, 8);
        ReasonNames(i);
        ReadReason(i, now, syn);
        UnpackParts(now, REASONS[i], None, syn);
      case Hold(arg) =>
        ReasonNames(8);
        ReadSpecial(arg, now, syn);
        UnpackParts(now, REASONS[8], Some(arg), syn);
      case KeyCompromise(arg) =>
        ReasonNames(9);
        ReadSpecial(arg, now, syn);
        UnpackParts(now, REASONS[9], Some(arg), syn);
      case CaCompromise(arg) =>
        ReasonNames(10);
        ReadSpecial(arg, now, syn);
        UnpackParts(now, REASONS[10], Some(arg), syn);
    }
  }

  lemma {:induction false} UnpackTime(now: string, syn: Syntax)
    requires ',' !in now
    ensures Unpack(now, syn) == if syn.isUtcTime(now) then Some(Info(now, NOSTATUS, None, None)) else None
  {
    NothingToCut(now);
  }

  // ------------------------------------------------------------------------
  // The names, written out

  /** The same character, or the same letter in the other case. */
  predicate SameLetter(a: char, b: char) {
    || a == b
    || ('A' <= a <= 'Z' && b as int == a as int + 32)
    || ('A' <= b <= 'Z' && a as int == b as int + 32)
  }

  /** Letters compare equal in either case, everything else only with itself. */
  lemma {:induction false} CaseEqualExactly(a: string, b: string)
    ensures CaseEqual(a, b) <==> |a| == |b| && forall i :: 0 <= i < |a| ==> SameLetter(a[i], b[i])
  {
    var la, lb := Lower(a), Lower(b);
    if |a| == |b| {
      forall i | 0 <= i < |a| ensures la[i] == lb[i] <==> SameLetter(a[i], b[i]) {}
      if forall i :: 0 <= i < |a| ==> SameLetter(a[i], b[i]) {
        assert la == lb;
      }
    } else {
      assert |la| != |lb|;
    }
  }

  /** The position of a name is that of the one it spells. */
  lemma {:induction false} NameAt(s: string, k: nat, n: nat)
    requires k < n <= |REASONS| && CaseEqual(s, REASONS[k])
    ensures FindReason(s, n) == k
  {
    var i := FindReason(s, n);
    if i < k {
      NamesDiffer(k, i);
    }
  }

  /** Asked for by this name, a reason is printed with it, and the text is read back with this code. */
  predicate PrintedAs(arg: string, name: string, code: int, now: string, syn: Syntax) {
    CaseEqual(arg, name) ==>
      && Text(CrlReason(arg), now, syn) == Some(now + "," + name)
      && (syn.isUtcTime(now) && ',' !in now ==> Unpack(now + "," + name, syn) == Some(Info(now, code, None, None)))
  }

  lemma {:induction false} ReasonAt(arg: string, k: nat, now: string, syn: Syntax)
    requires k < 8
    ensures PrintedAs(arg, REASONS[k], CODES[k], now, syn)
  {
    if CaseEqual(arg, REASONS[k]) {
      NameAt(arg, k, 8);
      JoinedOnce(now, REASONS[k]);
      if ',' !in now {
        TextRoundTrip(CrlReason(arg), now, syn);
      }
    }
  }

  /** The eight names with the codes of section 5.3.1 of RFC 5280. */
  lemma {:induction false} ReasonCodes(arg: string, now: string, syn: Syntax)
    ensures PrintedAs(arg, "unspecified", 0, now, syn) && PrintedAs(arg, "keyCompromise", 1, now, syn)
    ensures PrintedAs(arg, "CACompromise", 2, now, syn) && PrintedAs(arg, "affiliationChanged", 3, now, syn)
    ensures PrintedAs(arg, "superseded", 4, now, syn) && PrintedAs(arg, "cessationOfOperation", 5, now, syn)
    ensures PrintedAs(arg, "certificateHold", 6, now, syn) && PrintedAs(arg, "removeFromCRL", 8, now, syn)
  {
    NamesWritten();
    assert CODES[0] == 0 && CODES[1] == 1 && CODES[2] == 2 && CODES[3] == 3;
    assert CODES[4] == 4 && CODES[5] == 5 && CODES[6] == 6 && CODES[7] == 8;
    forall k | 0 <= k < 8 ensures PrintedAs(arg, REASONS[k], CODES[k], now, syn) {
      ReasonAt(arg, k, now, syn);
    }
  }

  lemma {:induction false} NamesWritten()
    ensures REASONS[0] == "unspecified" && REASONS[1] == "keyCompromise" && REASONS[2] == "CACompromise"
    ensures REASONS[3] == "affiliationChanged" && REASONS[4] == "superseded" && REASONS[5] == "cessationOfOperation"
    ensures REASONS[6] == "certificateHold" && REASONS[7] == "removeFromCRL"
    ensures REASONS[8] == "holdInstruction" && REASONS[9] == "keyTime" && REASONS[10] == "CAkeyTime"
  {}

  /** The names that -crl_reason takes. */
  predicate IsReason(arg: string) {
    || CaseEqual(arg, "unspecified") || CaseEqual(arg, "keyCompromise") || CaseEqual(arg, "CACompromise")
    || CaseEqual(arg, "affiliationChanged") || CaseEqual(arg, "superseded") || CaseEqual(arg, "cessationOfOperation")
    || CaseEqual(arg, "certificateHold") || CaseEqual(arg, "removeFromCRL")
  }

  /** What each way of asking demands of its argument. */
  predicate Acceptable(ask: Ask, syn: Syntax) {
    match ask
    case NoInfo => true
    case Valid => true
    case CrlReason(arg) => IsReason(arg)
    case Hold(arg) => syn.isOid(arg)
    case KeyCompromise(arg) => syn.isGeneralizedTime(arg)
    case CaCompromise(arg) => syn.isGeneralizedTime(arg)
  }

  lemma {:induction false} ReasonFound(arg: string)
    ensures FindReason(arg, 8) < 8 <==> IsReason(arg)
  {
    var i := FindReason(arg, 8);
    NamesWritten();
    if i < 8 {
      assert CaseEqual(arg, REASONS[i]);
      assert i == 0 || i == 1 || i == 2 || i == 3 || i == 4 || i == 5 || i == 6 || i == 7;
    } else {
      assert forall k :: 0 <= k < 8 ==> !CaseEqual(arg, REASONS[k]);
    }
  }

  /** A text is printed exactly for acceptable arguments; the special reasons carry theirs behind a comma. */
  lemma {:induction false} TextExactly(ask: Ask, now: string, syn: Syntax)
    ensures Text(ask, now, syn).Some? <==> Acceptable(ask, syn)
    ensures ask.NoInfo? ==> Text(ask, now, syn) == Some(now)
    ensures Acceptable(ask, syn) ==>
      match ask
      case Hold(arg) => Text(ask, now, syn) == Some(now + ",holdInstruction," + arg)
      case KeyCompromise(arg) => Text(ask, now, syn) == Some(now + ",keyTime," + arg)
      case CaCompromise(arg) => Text(ask, now, syn) == Some(now + ",CAkeyTime," + arg)
      case _ => true
  {
    match ask {
      case NoInfo =>
      case Valid =>
      case CrlReason(arg) => ReasonFound(arg);
      case Hold(arg) => Special(now, "holdInstruction", arg);
      case KeyCompromise(arg) => Special(now, "keyTime", arg);
      case CaCompromise(arg) => Special(now, "CAkeyTime", arg);
    }
  }

  lemma {:induction false} Special(now: string, name: string, arg: string)
    ensures Joined(now, Some(name), Some(arg)) == now + ("," + name + ",") + arg
    ensures ("," + "holdInstruction" + ",") == ",holdInstruction,"
    ensures ("," + "keyTime" + ",") == ",keyTime,"
    ensures ("," + "CAkeyTime" + ",") == ",CAkeyTime,"
  {}

  /** What a special reason needs behind it. */
  predicate HasArgument(name: string, arg: Option<string>, syn: Syntax) {
    arg.Some? &&
    (|| (CaseEqual(name, "holdInstruction") && syn.isOid(arg.value))
     || ((CaseEqual(name, "keyTime") || CaseEqual(name, "CAkeyTime")) && syn.isGeneralizedTime(arg.value)))
  }

  /**
   * Reading any text with a reason: the time must be a UTCTime. A plain reason ignores what
   * follows it; the special ones need an argument of their kind.
   */
  lemma {:induction false} UnpackExactly(time: string, name: string, arg: Option<string>, syn: Syntax)
    requires ',' !in time && ',' !in name
    ensures var r := Unpack(Joined(time, Some(name), arg), syn);
      && (r.Some? <==> syn.isUtcTime(time) && (IsReason(name) || HasArgument(name, arg, syn)))
      && (r.Some? && CaseEqual(name, "holdInstruction") ==> r.value == Info(time, 6, arg, None))
      && (r.Some? && CaseEqual(name, "keyTime") ==> r.value == Info(time, 1, None, arg))
      && (r.Some? && CaseEqual(name, "CAkeyTime") ==> r.value == Info(time, 2, None, arg))
      && (r.Some? && IsReason(name) ==> r == Unpack(Joined(time, Some(name), None), syn))
  {
    UnpackParts(time, name, arg, syn);
    UnpackParts(time, name, None, syn);
    ReasonExactly(time, name, arg, syn);
    ReasonExactly(time, name, None, syn);
  }

  lemma {:induction false} ReasonExactly(time: string, name: string, arg: Option<string>, syn: Syntax)
    ensures var r := UnpackReason(time, name, arg, syn);
      && (r.Some? <==> IsReason(name) || HasArgument(name, arg, syn))
      && (r.Some? && CaseEqual(name, "holdInstruction") ==> r.value == Info(time, 6, arg, None))
      && (r.Some? && CaseEqual(name, "keyTime") ==> r.value == Info(time, 1, None, arg))
      && (r.Some? && CaseEqual(name, "CAkeyTime") ==> r.value == Info(time, 2, None, arg))
      && (IsReason(name) ==> r == UnpackReason(time, name, None, syn))
  {
    NamesWritten();
    PlainName(name);
    SpecialName(name, 8);
    SpecialName(name, 9);
    SpecialName(name, 10);
  }

  lemma {:induction false} PlainName(name: string)
    ensures IsReason(name) <==> FindReason(name, |REASONS|) < 8
  {
    ReasonFound(name);
    var i, k := FindReason(name, |REASONS|), FindReason(name, 8);
    if k < 8 {
      NameAt(name, k, |REASONS|);
    }
  }

  lemma {:induction false} SpecialName(name: string, k: nat)
    requires k < |REASONS|
    ensures CaseEqual(name, REASONS[k]) <==> FindReason(name, |REASONS|) == k
  {
    if CaseEqual(name, REASONS[k]) {
      NameAt(name, k, |REASONS|);
    }
  }
}
