/** What the arguments mean, element by element, without any permutation. */
module GetoptSpec {
  import opened Wrappers

  /** The address where a long option stores its value is a number; 0 is NULL. */
  datatype LongOption = LongOption(name: string, hasArg: int, flag: nat, val: int)

  datatype Ordering = RequireOrder | Permute | ReturnInOrder

  datatype Config = Config(optstring: string, longopts: Option<seq<LongOption>>, longOnly: bool)

  /** What a call returns: a code, the index of a long option, and a value stored through its flag. */
  datatype Report = Report(code: int, longIndex: Option<nat>, stored: Option<(nat, int)>)

  /** The report of an option, its argument, the value of optopt if it is set, and where to go on:
      at the element next, with the option characters text if that element is not finished. */
  datatype Outcome = Outcome(report: Report, arg: Option<string>, bad: Option<int>, next: nat, text: string)

  const INVALID: int := '?' as int

  function Letters(optstring: string): string {
    if optstring != "" && (optstring[0] == '-' || optstring[0] == '+') then optstring[1..] else optstring
  }

  function OrderingOf(optstring: string, posix: bool): Ordering {
    if optstring != "" && optstring[0] == '-' then ReturnInOrder
    else if (optstring != "" && optstring[0] == '+') || posix then RequireOrder
    else Permute
  }

  predicate NonOption(e: string) {
    e == "" || e[0] != '-' || |e| == 1
  }

  /** The code for a missing argument. */
  function Missing(letters: string): int {
    if letters != "" && letters[0] == ':' then ':' as int else INVALID
  }

  /** The first place of a character, or the length of the string. */
  function IndexOf(s: string, c: char): (r: nat)
    ensures r <= |s| && c !in s[..r] && (r < |s| ==> s[r] == c)
  {
    if s == "" || s[0] == c then 0
    else
      var r := IndexOf(s[1..], c);
      assert s[..r + 1] == [s[0]] + s[1..][..r];
      r + 1
  }

  predicate HasAt(s: string, i: nat, c: char) {
    i < |s| && s[i] == c
  }

  /** The option character at the start of text, in the element i. */
  function ShortStep(letters: string, args: seq<string>, i: nat, text: string): (r: Outcome)
    requires text != "" && i < |args|
    ensures i <= r.next <= |args|
    ensures if r.next == i then r.text == text[1..] != "" else r.text == ""
  {
    var c, rest := text[0], text[1..];
    var base := if rest == "" then i + 1 else i;
    var p := IndexOf(letters, c);
    if p == |letters| || c == ':' || c == ';' then
      Outcome(Report(INVALID, None, None), None, Some(c as int), base, rest)
    else if !HasAt(letters, p + 1, ':') then
      Outcome(Report(c as int, None, None), None, None, base, rest)
    else if HasAt(letters, p + 2, ':') || rest != "" then
      Outcome(Report(c as int, None, None), if rest == "" then None else Some(rest), None, i + 1, "")
    else if i + 1 == |args| then
      Outcome(Report(Missing(letters), None, None), None, Some(c as int), i + 1, "")
    else
      Outcome(Report(c as int, None, None), Some(args[i + 1]), None, i + 2, "")
  }

  datatype Match = Found(index: nat) | Ambiguous | Unknown

  predicate StartsWith(s: string, p: string) {
    |p| <= |s| && s[..|p|] == p
  }

  /** Two options that an abbreviation need not tell apart. */
  predicate SameEffect(a: LongOption, b: LongOption) {
    a.hasArg == b.hasArg && a.flag == b.flag && a.val == b.val
  }

  ghost predicate ExactAt(longopts: seq<LongOption>, name: string, k: nat) {
    k < |longopts| && longopts[k].name == name && forall j :: 0 <= j < k ==> longopts[j].name != name
  }

  ghost predicate NoExact(longopts: seq<LongOption>, name: string) {
    forall j :: 0 <= j < |longopts| ==> longopts[j].name != name
  }

  ghost predicate AbbreviatedAt(longopts: seq<LongOption>, name: string, k: nat) {
    k < |longopts| && StartsWith(longopts[k].name, name) && forall j :: 0 <= j < k ==>
      !StartsWith(longopts[j].name, name)
  }

  /** Another option after k that the name abbreviates as well, and that it must be told apart from. */
  ghost predicate Rival(longopts: seq<LongOption>, name: string, longOnly: bool, k: nat, j: nat) {
    k < j < |longopts| && StartsWith(longopts[j].name, name) && (longOnly || !SameEffect(longopts[k], longopts[j]))
  }

  ghost predicate NoRival(longopts: seq<LongOption>, name: string, longOnly: bool, k: nat) {
    forall j :: k < j < |longopts| ==> !Rival(longopts, name, longOnly, k, j)
  }

  /** A name means the option of that name, or else the only option that it abbreviates. */
  ghost predicate Means(longopts: seq<LongOption>, name: string, longOnly: bool, m: Match) {
    match m
    case Found(k) =>
      ExactAt(longopts, name, k) ||
      (NoExact(longopts, name) && AbbreviatedAt(longopts, name, k) && NoRival(longopts, name, longOnly, k))
    case Ambiguous =>
      NoExact(longopts, name) &&
      exists k, j :: AbbreviatedAt(longopts, name, k) && Rival(longopts, name, longOnly, k, j)
    case Unknown =>
      forall j :: 0 <= j < |longopts| ==> !StartsWith(longopts[j].name, name)
  }

  lemma {:induction false} PrefixOfItself(s: string)
    ensures StartsWith(s, s)
  {
  }

  /** A name means one thing only. */
  lemma {:induction false} MeansOne(longopts: seq<LongOption>, name: string, longOnly: bool, m: Match, n: Match)
    requires Means(longopts, name, longOnly, m) && Means(longopts, name, longOnly, n)
    ensures m == n
  {
    PrefixOfItself(name);
  }

  function FirstExact(longopts: seq<LongOption>, name: string, k: nat): (r: nat)
    requires k <= |longopts|
    ensures k <= r <= |longopts| && (r < |longopts| ==> longopts[r].name == name)
    ensures forall j :: k <= j < r ==> longopts[j].name != name
    decreases |longopts| - k
  {
    if k == |longopts| || longopts[k].name == name then k else FirstExact(longopts, name, k + 1)
  }

  function FirstPrefix(longopts: seq<LongOption>, name: string, k: nat): (r: nat)
    requires k <= |longopts|
    ensures k <= r <= |longopts| && (r < |longopts| ==> StartsWith(longopts[r].name, name))
    ensures forall j :: k <= j < r ==> !StartsWith(longopts[j].name, name)
    decreases |longopts| - k
  {
    if k == |longopts| || StartsWith(longopts[k].name, name) then k else FirstPrefix(longopts, name, k + 1)
  }

  function FirstRival(longopts: seq<LongOption>, name: string, longOnly: bool, f: nat, k: nat): (r: nat)
    requires f < k <= |longopts|
    ensures k <= r <= |longopts| && (r < |longopts| ==> Rival(longopts, name, longOnly, f, r))
    ensures forall j :: k <= j < r ==> !Rival(longopts, name, longOnly, f, j)
    decreases |longopts| - k
  {
    if k == |longopts| then k
    else if StartsWith(longopts[k].name, name) && (longOnly || !SameEffect(longopts[f], longopts[k])) then k
    else FirstRival(longopts, name, longOnly, f, k + 1)
  }

  /** What a name means. */
  function Meaning(longopts: seq<LongOption>, name: string, longOnly: bool): (m: Match)
    ensures Means(longopts, name, longOnly, m)
  {
    var e := FirstExact(longopts, name, 0);
    if e < |longopts| then Found(e)
    else
      var f := FirstPrefix(longopts, name, 0);
      if f == |longopts| then Unknown
      else if FirstRival(longopts, name, longOnly, f, f + 1) < |longopts| then Ambiguous
      else Found(f)
  }
}
