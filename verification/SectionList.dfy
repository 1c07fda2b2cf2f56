// The section-list scanner of tongsuo/apps/cmp.c: prev_item walks a comma- or space-separated
// list from the right, and conf_get_string asks the sections it finds for a value.
module SectionList {
  import opened Wrappers

  const SECTION_NAME_MAX := 40
  const DEFAULT_SECTION := "default"

  /** A comma, or what isspace accepts in the C locale. */
  predicate IsSep(c: char) {
    c == ',' || c == ' ' || 9 <= c as int <= 13
  }

  predicate AllSeps(s: string) {
    forall i :: 0 <= i < |s| ==> IsSep(s[i])
  }

  predicate NoSeps(s: string) {
    forall i :: 0 <= i < |s| ==> !IsSep(s[i])
  }

  // ------------------------------------------------------------------------
  // The reference: splitting from the left

  /** The separators, one by one. */
  lemma Separators(c: char)
    ensures IsSep(c) <==> c == ',' || c == ' ' || c == '\t' || c == '\n' || c as int == 11 || c as int == 12 || c == '\r'
  {}

  /** The names still to come, given the characters of the name begun. */
  function SplitFrom(s: string, cur: string): seq<string>
    decreases |s|
  {
    if s == "" then if cur == "" then [] else [cur]
    else if IsSep(s[0]) then (if cur == "" then [] else [cur]) + SplitFrom(s[1..], "")
    else SplitFrom(s[1..], cur + [s[0]])
  }

  function Split(s: string): seq<string> {
    SplitFrom(s, "")
  }

  function Cut(name: string): string {
    if |name| > SECTION_NAME_MAX then name[..SECTION_NAME_MAX] else name
  }

  /** The names in reverse order, each cut to what the buffer holds. */
  function CutReversed(names: seq<string>): seq<string> {
    if names == [] then [] else [Cut(names[|names| - 1])] + CutReversed(names[..|names| - 1])
  }

  // ------------------------------------------------------------------------
  // prev_item

  /** Where the word ending at end begins. */
  function WordStart(s: string, end: nat): (b: nat)
    requires end <= |s|
    ensures b <= end
  {
    if end == 0 || IsSep(s[end - 1]) then end else WordStart(s, end - 1)
  }

  /** Where the run of separators ending at b begins. */
  function SepsStart(s: string, b: nat): (e: nat)
    requires b <= |s|
    ensures e <= b && (e == 0 || !IsSep(s[e - 1]))
  {
    if b == 0 || !IsSep(s[b - 1]) then b else SepsStart(s, b - 1)
  }

  lemma {:induction false} WordHasNoSeps(s: string, end: nat)
    requires end <= |s|
    ensures var b := WordStart(s, end); NoSeps(s[b..end]) && (b == 0 || IsSep(s[b - 1]))
  {
    if end > 0 && !IsSep(s[end - 1]) {
      WordHasNoSeps(s, end - 1);
      var b := WordStart(s, end);
      assert s[b..end] == s[b..end - 1] + [s[end - 1]];
    }
  }

  lemma {:induction false} RunIsAllSeps(s: string, b: nat)
    requires b <= |s|
    ensures AllSeps(s[SepsStart(s, b)..b])
  {
    if b > 0 && IsSep(s[b - 1]) {
      RunIsAllSeps(s, b - 1);
      var e := SepsStart(s, b);
      assert s[e..b] == s[e..b - 1] + [s[b - 1]];
    }
  }

  lemma {:induction false} StartsAreUnique(s: string, end: nat, b: nat)
    requires b <= end <= |s|
    ensures NoSeps(s[b..end]) && (b == 0 || IsSep(s[b - 1])) ==> WordStart(s, end) == b
    ensures AllSeps(s[b..end]) && (b == 0 || !IsSep(s[b - 1])) ==> SepsStart(s, end) == b
    decreases end
  {
    if b < end {
      StartsAreUnique(s, end - 1, b);
      var w, v := s[b..end], s[b..end - 1];
      assert w[end - 1 - b] == s[end - 1];
      assert forall i :: 0 <= i < |v| ==> v[i] == w[i];
    }
  }

  /** prev_item: the word before end, and the position from which to look for the one before it. */
  method PrevItem(s: string, end: nat) returns (item: string, pos: Option<nat>)
    requires end <= |s|
    ensures pos.None? <==> end == 0
    ensures pos.Some? ==>
      var b := WordStart(s, end);
      item == Cut(s[b..end]) && pos.value == SepsStart(s, b) < end
    ensures pos.Some? ==>
      var b := WordStart(s, end);
      item <= s[b..end] && |item| == if end - b > 40 then 40 else end - b
  {
    if end == 0 {
      return "", None;
    }
    var beg := SkipWord(s, end);
    var len := end - beg;
    if len > SECTION_NAME_MAX {
      len := SECTION_NAME_MAX;
    }
    item := s[beg..beg + len];
    assert item == Cut(s[beg..end]);
    var before := SkipSeps(s, beg);
    Progress(s, end);
    pos := Some(before);
  }

  /** The first loop of prev_item: back to where the word begins. */
  method SkipWord(s: string, end: nat) returns (beg: nat)
    requires end <= |s|
    ensures beg == WordStart(s, end)
  {
    beg := end;
    while beg > 0 && !IsSep(s[beg - 1])
      invariant 0 <= beg <= end && WordStart(s, end) == WordStart(s, beg)
    {
      beg := beg - 1;
    }
  }

  /** Its second loop: back over the separators. */
  method SkipSeps(s: string, word: nat) returns (beg: nat)
    requires word <= |s|
    ensures beg == SepsStart(s, word)
  {
    beg := word;
    while beg > 0 && IsSep(s[beg - 1])
      invariant 0 <= beg <= word && SepsStart(s, word) == SepsStart(s, beg)
    {
      beg := beg - 1;
    }
  }

  // ------------------------------------------------------------------------
  // The whole walk

  function Items(s: string, end: nat): seq<string>
    requires end <= |s|
  {
    if end == 0 then []
    else
      var b := WordStart(s, end);
      var e := SepsStart(s, b);
      Progress(s, end);
      [Cut(s[b..end])] + Items(s, e)
  }

  lemma {:induction false} Progress(s: string, end: nat)
    requires 0 < end <= |s|
    ensures SepsStart(s, WordStart(s, end)) < end
  {}

  lemma {:induction false} SplitAtSep(a: string, c: char, b: string, cur: string)
    requires IsSep(c)
    ensures SplitFrom(a + [c] + b, cur) == SplitFrom(a, cur) + SplitFrom(b, "")
    decreases |a|
  {
    var s := a + [c] + b;
    if a == "" {
      assert s == [c] + b && s[1..] == b;
    } else {
      assert s[0] == a[0] && s[1..] == a[1..] + [c] + b;
      SplitAtSep(a[1..], c, b, if IsSep(a[0]) then "" else cur + [a[0]]);
    }
  }

  lemma {:induction false} SplitWord(w: string, cur: string)
    requires NoSeps(w)
    ensures SplitFrom(w, cur) == if cur + w == "" then [] else [cur + w]
    decreases |w|
  {
    if w == "" {
      assert cur + w == cur;
    } else {
      SplitWord(w[1..], cur + [w[0]]);
      assert cur + [w[0]] + w[1..] == cur + w;
    }
  }

  lemma {:induction false} SplitPastSeps(seps: string, w: string)
    requires AllSeps(seps)
    ensures Split(seps + w) == Split(w)
    decreases |seps|
  {
    if seps == "" {
      assert seps + w == w;
    } else {
      SplitPastSeps(seps[1..], w);
      assert (seps + w)[1..] == seps[1..] + w;
    }
  }

  /** One more word on the right is one more name. */
  lemma {:induction false} SplitPrefix(s: string, end: nat)
    requires 0 < end <= |s|
    ensures var b := WordStart(s, end); var e := SepsStart(s, b);
      Split(s[..end]) == Split(s[..e]) + if b == end then [] else [s[b..end]]
  {
    var b := WordStart(s, end);
    var e := SepsStart(s, b);
    WordHasNoSeps(s, end);
    RunIsAllSeps(s, b);
    SplitPieces(s[..e], s[e..b], s[b..end]);
    assert s[..end] == s[..e] + s[e..b] + s[b..end];
  }

  lemma {:induction false} SplitPieces(a: string, run: string, w: string)
    requires AllSeps(run) && NoSeps(w) && (run == "" ==> a == "")
    ensures Split(a + run + w) == Split(a) + if w == "" then [] else [w]
  {
    SplitWord(w, "");
    assert "" + w == w;
    if run == "" {
      assert a + run + w == w;
    } else {
      SplitRun(a, run, w);
    }
  }

  /** A nonempty run of separators separates. */
  lemma {:induction false} SplitRun(a: string, run: string, w: string)
    requires AllSeps(run) && run != ""
    ensures Split(a + run + w) == Split(a) + Split(w)
  {
    var rest := run[1..];
    assert AllSeps(rest);
    SplitAtSep(a, run[0], rest + w, "");
    SplitPastSeps(rest, w);
    assert a + run + w == a + [run[0]] + (rest + w);
  }

  /**
   * Walking the list from its right end gives its names in reverse order, each cut to 40
   * characters, after one empty name if the list ends in a separator.
   */
  lemma {:induction false} WalkIsReverseSplit(s: string, end: nat)
    requires end <= |s|
    ensures Items(s, end) == Walked(end > 0 && IsSep(s[end - 1]), Split(s[..end]))
    decreases end
  {
    if end == 0 {
      assert s[..0] == "";
    } else {
      var b := WordStart(s, end);
      var e := SepsStart(s, b);
      Progress(s, end);
      WalkIsReverseSplit(s, e);
      SplitPrefix(s, end);
      WordIsEmptyAtSep(s, end);
      OneMoreWalked(Split(s[..e]), s[b..end]);
    }
  }

  /** An empty name for a trailing separator, then the names from the right. */
  function Walked(trailing: bool, names: seq<string>): seq<string> {
    (if trailing then [""] else []) + CutReversed(names)
  }

  lemma {:induction false} OneMoreWalked(names: seq<string>, w: string)
    ensures [Cut(w)] + Walked(false, names) == Walked(w == "", names + if w == "" then [] else [w])
  {
    if w == "" {
      assert names + [] == names;
    } else {
      CutReversedAppend(names, w);
    }
  }

  lemma {:induction false} WordIsEmptyAtSep(s: string, end: nat)
    requires 0 < end <= |s|
    ensures WordStart(s, end) == end <==> IsSep(s[end - 1])
  {}

  lemma {:induction false} CutReversedAppend(names: seq<string>, w: string)
    ensures CutReversed(names + [w]) == [Cut(w)] + CutReversed(names)
  {
    assert (names + [w])[..|names|] == names;
  }

  /** For a list that does not end in a separator: exactly its names, last to first. */
  lemma {:induction false} WalkOfList(groups: string)
    requires groups == "" || !IsSep(groups[|groups| - 1])
    ensures Items(groups, |groups|) == CutReversed(Split(groups))
  {
    WalkIsReverseSplit(groups, |groups|);
    assert groups[..|groups|] == groups;
  }

  // ------------------------------------------------------------------------
  // conf_get_string

  /** A loaded configuration and the environment behind its ENV section. */
  datatype Conf = Conf(entries: map<(string, string), string>, env: map<string, string>)

  /** The value a section itself gives a name. */
  function Own(conf: Conf, section: string, name: string): Option<string> {
    if (section, name) in conf.entries then Some(conf.entries[(section, name)])
    else if section == "ENV" && name in conf.env then Some(conf.env[name])
    else None
  }

  /** The value together with the section it came from. */
  datatype Found = Found(section: string, value: string)

  /** NCONF_get_string: the section itself, then the default section. */
  function Get(conf: Conf, section: string, name: string): Option<Found> {
    match Own(conf, section, name)
    case Some(v) => Some(Found(section, v))
    case None =>
      if (DEFAULT_SECTION, name) in conf.entries
      then Some(Found(DEFAULT_SECTION, conf.entries[(DEFAULT_SECTION, name)]))
      else None
  }

  /** One section: its own value, in [ENV] else that of the environment, and else that of [default]. */
  lemma GetExactly(conf: Conf, section: string, name: string)
    ensures var r := Get(conf, section, name);
      && ((section, name) in conf.entries ==> r == Some(Found(section, conf.entries[(section, name)])))
      && ((section, name) !in conf.entries && section == "ENV" && name in conf.env ==> r == Some(Found("ENV", conf.env[name])))
      && ((section, name) !in conf.entries && (section != "ENV" || name !in conf.env) ==>
          if ("default", name) in conf.entries then r == Some(Found("default", conf.entries[("default", name)])) else r == None)
  {}

  function FirstGet(conf: Conf, items: seq<string>, name: string): Option<Found> {
    if items == [] then None
    else match Get(conf, items[0], name)
      case Some(f) => Some(f)
      case None => FirstGet(conf, items[1..], name)
  }

  /** conf_get_string. */
  method ConfGetString(conf: Conf, groups: string, name: string) returns (res: Option<Found>)
    ensures res == FirstGet(conf, Items(groups, |groups|), name)
  {
    var end := |groups|;
    while true
      invariant 0 <= end <= |groups|
      invariant FirstGet(conf, Items(groups, |groups|), name) == FirstGet(conf, Items(groups, end), name)
      decreases end
    {
      var item, pos := PrevItem(groups, end);
      if pos.None? {
        return None;
      }
      ghost var items := Items(groups, end);
      assert items[0] == item && items[1..] == Items(groups, pos.value);
      res := Get(conf, item, name);
      if res.Some? {
        return;
      }
      end := pos.value;
    }
  }

  // ------------------------------------------------------------------------
  // What the section list is for

  /** The names of a list; one that ends in a separator has an empty name last. */
  function Listed(groups: string): seq<string> {
    Split(groups) + if groups != "" && IsSep(groups[|groups| - 1]) then [""] else []
  }

  lemma {:induction false} WalkIsListed(groups: string)
    ensures Items(groups, |groups|) == CutReversed(Listed(groups))
  {
    WalkIsReverseSplit(groups, |groups|);
    assert groups[..|groups|] == groups;
    if groups != "" && IsSep(groups[|groups| - 1]) {
      CutReversedAppend(Split(groups), "");
    } else {
      assert Listed(groups) == Split(groups);
    }
  }

  /** The last of the named sections, each cut to what the buffer holds, that itself defines the name. */
  function LastDefining(conf: Conf, names: seq<string>, name: string): (r: Option<nat>)
    ensures r.Some? ==> r.value < |names| && Own(conf, Cut(names[r.value]), name).Some?
    ensures forall k :: (if r.Some? then r.value + 1 else 0) <= k < |names| ==> Own(conf, Cut(names[k]), name).None?
  {
    if names == [] then None
    else if Own(conf, Cut(names[|names| - 1]), name).Some? then Some(|names| - 1)
    else LastDefining(conf, names[..|names| - 1], name)
  }

  function FoundIn(conf: Conf, section: string, name: string): Option<Found> {
    match Own(conf, section, name) case None => None case Some(v) => Some(Found(section, v))
  }

  /** A value in [default] settles the search at the last name, whatever the others define. */
  lemma {:induction false} FirstGetOfNames(conf: Conf, names: seq<string>, name: string)
    ensures var last := LastDefining(conf, names, name);
      FirstGet(conf, CutReversed(names), name) ==
      if names == [] then None
      else if last == Some(|names| - 1) then FoundIn(conf, Cut(names[|names| - 1]), name)
      else if (DEFAULT_SECTION, name) in conf.entries then FoundIn(conf, DEFAULT_SECTION, name)
      else if last.Some? then FoundIn(conf, Cut(names[last.value]), name)
      else None
    decreases |names|
  {
    if names != [] {
      var n := |names| - 1;
      FirstGetOfNames(conf, names[..n], name);
      assert CutReversed(names)[0] == Cut(names[n]) && CutReversed(names)[1..] == CutReversed(names[..n]);
    }
  }

  /**
   * conf_get_string takes its value from the last listed section that defines the name if and
   * only if [default] does not define it, or that section is the last of the list or [default]
   * itself; otherwise from [default]. So it does if no listed section defines the name.
   */
  lemma {:induction false} LastSectionWinsIff(conf: Conf, groups: string, name: string)
    ensures var names, res := Listed(groups), FirstGet(conf, Items(groups, |groups|), name);
      match LastDefining(conf, names, name)
      case Some(k) =>
        var section := Cut(names[k]);
        && (res == FoundIn(conf, section, name) <==>
            || (DEFAULT_SECTION, name) !in conf.entries
            || k == |names| - 1
            || section == DEFAULT_SECTION)
        && (res == FoundIn(conf, section, name) || res == FoundIn(conf, DEFAULT_SECTION, name))
      case None => res == if names == [] then None else FoundIn(conf, DEFAULT_SECTION, name)
  {
    WalkIsListed(groups);
    FirstGetOfNames(conf, Listed(groups), name);
  }

  /** A value in [default] hides the one in the first of two listed sections. */
  lemma {:induction false} DefaultHidesEarlierSection()
    ensures var conf := Conf(map[("a", "n") := "1", (DEFAULT_SECTION, "n") := "0"], map[]);
      && Listed("a,b") == ["a", "b"] && LastDefining(conf, ["a", "b"], "n") == Some(0)
      && FirstGet(conf, Items("a,b", 3), "n") == Some(Found(DEFAULT_SECTION, "0"))
  {
    var conf := Conf(map[("a", "n") := "1", (DEFAULT_SECTION, "n") := "0"], map[]);
    TwoNames();
    WalkIsListed("a,b");
    FirstGetOfNames(conf, ["a", "b"], "n");
    assert "b" != "a" && "b" != DEFAULT_SECTION by {
      assert |DEFAULT_SECTION| == 7;
    }
    assert Own(conf, "b", "n").None? && Own(conf, "a", "n") == Some("1");
    assert ["a", "b"][..1] == ["a"] && ["a"][..0] == [];
  }

  lemma {:induction false} TwoNames()
    ensures Listed("a,b") == ["a", "b"]
  {
    assert "a,b" == "a" + [','] + "b" && NoSeps("a") && NoSeps("b");
    SplitAtSep("a", ',', "b", "");
    SplitWord("a", "");
    SplitWord("b", "");
    assert "" + "a" == "a" && "" + "b" == "b";
  }
}
