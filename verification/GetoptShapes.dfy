/** What the scan reports for each way of writing an option. */
module GetoptShapes {
  import opened Wrappers
  import opened GetoptSpec
  import opened GetoptScan

  /** A sign at the front of the option letters chooses the ordering and is not one of them. */
  lemma {:induction false} Signs(letters: string, posix: bool)
    ensures Letters("-" + letters) == letters && OrderingOf("-" + letters, posix) == ReturnInOrder
    ensures Letters("+" + letters) == letters && OrderingOf("+" + letters, posix) == RequireOrder
    ensures letters == "" || letters[0] !in "-+" ==>
      Letters(letters) == letters && OrderingOf(letters, posix) == (if posix then RequireOrder else Permute)
  {
    assert ("-" + letters)[1..] == letters && ("+" + letters)[1..] == letters;
  }

  /** The code for an argument that is missing: a colon if the option letters start with one. */
  function MissingCode(cfg: Config): int {
    if StartsWith(Letters(cfg.optstring), ":") then ':' as int else '?' as int
  }

  /** The text of a long option: its name, and what is attached to it. */
  function Spelled(name: string, value: Option<string>): string {
    match value case None => name case Some(v) => name + "=" + v
  }

  /** Dashes and text that are taken for a long option. A single dash will do in the long-only mode, but a
      single letter that is an option letter stays a short option. */
  predicate TakenAsLong(cfg: Config, dashes: string, text: string) {
    && cfg.longopts.Some? && text != ""
    && (dashes == "--" ||
        (dashes == "-" && cfg.longOnly && text[0] != '-' && (|text| > 1 || text[0] !in Letters(cfg.optstring))))
  }

  /** The name ends at the first '='. */
  lemma {:induction false} SpelledName(name: string, value: Option<string>)
    requires '=' !in name
    ensures var text := Spelled(name, value); var n := IndexOf(text, '=');
            && n == |name| && text[..n] == name
            && (if value.None? then n == |text| else n < |text| && text[n + 1..] == value.value)
  {
    var text := Spelled(name, value);
    assert text[..|name|] == name;
    IndexAt(text, '=', |name|);
  }

  lemma {:induction false} IndexAt(s: string, c: char, k: nat)
    requires k <= |s| && c !in s[..k] && (k < |s| ==> s[k] == c)
    ensures IndexOf(s, c) == k
    decreases k
  {
    if k > 0 {
      assert s[0] == s[..k][0] && s[1..][..k - 1] == s[..k][1..];
      IndexAt(s[1..], c, k - 1);
    }
  }

  lemma {:induction false} AtIndex(s: string, c: char)
    ensures IndexOf(s, c) == |s| <==> c !in s
  {
    var n := IndexOf(s, c);
    assert s[..n] + s[n..] == s;
  }

  /** An abbreviation of two options: it need not tell apart options that agree in all but the name, except in
      the long-only mode. */
  lemma {:induction false} TwoAbbreviated(a: LongOption, b: LongOption, name: string, x: string, y: string,
      longOnly: bool)
    requires a.name == name + x && b.name == name + y && x != "" && y != ""
    ensures var agree := a.hasArg == b.hasArg && a.flag == b.flag && a.val == b.val;
            Means([a, b], name, longOnly, if agree && !longOnly then Found(0) else Ambiguous)
  {
    assert AbbreviatedAt([a, b], name, 0);
    assert Rival([a, b], name, longOnly, 0, 1) <==> longOnly || !SameEffect(a, b);
  }

  /** The scan at an element that is taken for a long option. */
  lemma {:induction false} LongStart(cfg: Config, ordering: Ordering, args: seq<string>, i: nat, dashes: string,
      text: string)
    requires i < |args| && args[i] == dashes + text && TakenAsLong(cfg, dashes, text)
    ensures var step := LongStep(cfg, cfg.longopts.value, args, i, text);
            Upcoming(cfg, ordering, args, i, "") ==
              (if step.Some? then step else Some(ShortStep(Letters(cfg.optstring), args, i, args[i][1..])))
  {
    hide LongStep, ShortStep;
    var e := args[i];
    assert e[0] == '-' && |e| > 1 && e[|dashes|..] == text;
    AtIndex(Letters(cfg.optstring), e[1]);
    assert e != "--";
  }

  /** The code for a long option: its value, or 0 if the value is stored. */
  function LongReport(longopts: seq<LongOption>, k: nat): Report
    requires k < |longopts|
  {
    if longopts[k].flag == 0 then Report(longopts[k].val, Some(k), None)
    else Report(0, Some(k), Some((longopts[k].flag, longopts[k].val)))
  }

  /** A long option whose name means the option k, in each of its forms. */
  lemma {:induction false} LongShapes(cfg: Config, ordering: Ordering, args: seq<string>, i: nat, dashes: string,
      name: string, value: Option<string>, k: nat)
    requires i < |args| && args[i] == dashes + Spelled(name, value) && '=' !in name
    requires TakenAsLong(cfg, dashes, Spelled(name, value)) && Means(cfg.longopts.value, name, cfg.longOnly, Found(k))
    ensures k < |cfg.longopts.value|
    ensures var p := cfg.longopts.value[k];
            var report := LongReport(cfg.longopts.value, k);
            Upcoming(cfg, ordering, args, i, "") == Some(
              if value.Some? && p.hasArg == 0 then
                Outcome(Report('?' as int, None, None), None, Some(p.val), i + 1, "")
              else if value.Some? || p.hasArg != 1 then
                Outcome(report, value, None, i + 1, "")
              else if i + 1 < |args| then
                Outcome(report, Some(args[i + 1]), None, i + 2, "")
              else
                Outcome(Report(MissingCode(cfg), None, None), None, Some(p.val), i + 1, ""))
  {
    var text := Spelled(name, value);
    LongStart(cfg, ordering, args, i, dashes, text);
    SpelledName(name, value);
    MeansOne(cfg.longopts.value, name, cfg.longOnly, Found(k), Meaning(cfg.longopts.value, name, cfg.longOnly));
  }

  /** A long option whose name means nothing or more than one thing is an error. Only after a single dash an
      unknown one is taken as short options, if its first letter is one. */
  lemma {:induction false} BadLong(cfg: Config, ordering: Ordering, args: seq<string>, i: nat, dashes: string,
      name: string, value: Option<string>, m: Match)
    requires i < |args| && args[i] == dashes + Spelled(name, value) && '=' !in name
    requires TakenAsLong(cfg, dashes, Spelled(name, value)) && Means(cfg.longopts.value, name, cfg.longOnly, m)
    requires !m.Found?
    ensures var text := Spelled(name, value);
            Upcoming(cfg, ordering, args, i, "") ==
              if m.Unknown? && dashes == "-" && text[0] in Letters(cfg.optstring) then
                Upcoming(cfg, ordering, args, i, text)
              else Some(Outcome(Report('?' as int, None, None), None, Some(0), i + 1, ""))
  {
    var text := Spelled(name, value);
    LongStart(cfg, ordering, args, i, dashes, text);
    SpelledName(name, value);
    MeansOne(cfg.longopts.value, name, cfg.longOnly, m, Meaning(cfg.longopts.value, name, cfg.longOnly));
    AtIndex(Letters(cfg.optstring), text[0]);
    assert dashes == "-" ==> args[i][1..] == text;
  }

  /** The scan at an element of option letters. */
  lemma {:induction false} ClusterStart(cfg: Config, ordering: Ordering, args: seq<string>, i: nat, text: string)
    requires i < |args| && args[i] == "-" + text && text != "" && text != "-"
    requires cfg.longopts.Some? ==> text[0] != '-' && !TakenAsLong(cfg, "-", text)
    ensures Upcoming(cfg, ordering, args, i, "") == Upcoming(cfg, ordering, args, i, text)
  {
    hide LongStep, ShortStep;
    var e := args[i];
    assert e[1..] == text && e[1] == text[0];
    assert e != "--";
    AtIndex(Letters(cfg.optstring), text[0]);
  }

  /** An option letter c, with rest after it in its element, in each of its forms. What follows the letter among
      the option letters says if it takes an argument: none, one after a colon, and maybe one after two. */
  lemma {:induction false} ShortShapes(cfg: Config, ordering: Ordering, args: seq<string>, i: nat, c: char,
      rest: string, before: string, after: string)
    requires i < |args| && Letters(cfg.optstring) == before + [c] + after && c !in before && c != ':' && c != ';'
    ensures var report := Report(c as int, None, None);
            Upcoming(cfg, ordering, args, i, [c] + rest) == Some(
              if !StartsWith(after, ":") then
                Outcome(report, None, None, if rest == "" then i + 1 else i, rest)
              else if rest != "" then
                Outcome(report, Some(rest), None, i + 1, "")
              else if StartsWith(after, "::") then
                Outcome(report, None, None, i + 1, "")
              else if i + 1 < |args| then
                Outcome(report, Some(args[i + 1]), None, i + 2, "")
              else
                Outcome(Report(MissingCode(cfg), None, None), None, Some(c as int), i + 1, ""))
  {
    var letters, n := Letters(cfg.optstring), |before|;
    assert letters[..n] == before && letters[n] == c;
    IndexAt(letters, c, n);
    assert ([c] + rest)[1..] == rest;
    assert letters[n + 1..] == after;
    assert HasAt(letters, n + 1, ':') <==> StartsWith(after, ":");
    assert StartsWith(after, ":") ==> (HasAt(letters, n + 2, ':') <==> StartsWith(after, "::"));
  }

  /** A letter that is no option letter, or a colon or semicolon, is an error; the letters after it follow. */
  lemma {:induction false} BadLetter(cfg: Config, ordering: Ordering, args: seq<string>, i: nat, c: char,
      rest: string)
    requires i < |args| && (c !in Letters(cfg.optstring) || c == ':' || c == ';')
    ensures Upcoming(cfg, ordering, args, i, [c] + rest) ==
      Some(Outcome(Report('?' as int, None, None), None, Some(c as int), if rest == "" then i + 1 else i, rest))
  {
    AtIndex(Letters(cfg.optstring), c);
    assert ([c] + rest)[1..] == rest;
  }

  /** Elements that are no options: they are skipped, end the scan, or are passed to the caller. */
  lemma {:induction false} OtherElements(cfg: Config, ordering: Ordering, args: seq<string>, i: nat)
    requires i < |args| && (args[i] == "" || args[i] == "-" || args[i][0] != '-' || args[i] == "--")
    ensures Upcoming(cfg, ordering, args, i, "") ==
      if args[i] == "--" then None
      else match ordering
        case Permute => Upcoming(cfg, ordering, args, i + 1, "")
        case RequireOrder => None
        case ReturnInOrder => Some(Outcome(Report(1, None, None), Some(args[i]), None, i + 1, ""))
  {
  }
}
