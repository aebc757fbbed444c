/** Command lines written word by word, and what the scan makes of them. */
module GetoptRoundTrip {
  import opened Wrappers
  import opened GetoptSpec
  import opened GetoptScan
  import opened GetoptShapes
  import opened Getopt

  /** What a user means: an option with its argument, which is attached or follows on its own, option letters
      that share an element, or an operand. */
  datatype Word =
    | Long(name: string, option: nat, arg: Option<string>, attached: bool)
    | Short(flags: string, last: char, arg: Option<string>, attached: bool)
    | Operand(text: string)

  /** How a command line ends: after its words, with operands after "--", or, if options have to come first, with
      operands from the first one on. */
  datatype Ending = Done | Dashes(rest: seq<string>) | Stop(rest: seq<string>)

  function Attached(w: Word): Option<string>
    requires !w.Operand?
  {
    if w.attached then w.arg else None
  }

  function Separate(w: Word): seq<string>
    requires !w.Operand?
  {
    if w.attached || w.arg.None? then [] else [w.arg.value]
  }

  function TextOf(value: Option<string>): string { if value.Some? then value.value else "" }

  /** The elements that a word is written with. */
  function Written(w: Word): seq<string> {
    match w
    case Long(name, _, _, _) => ["--" + Spelled(name, Attached(w))] + Separate(w)
    case Short(flags, last, _, _) => ["-" + (flags + ([last] + TextOf(Attached(w))))] + Separate(w)
    case Operand(text) => [text]
  }

  function WrittenAll(words: seq<Word>): seq<string> {
    if words == [] then [] else Written(words[0]) + WrittenAll(words[1..])
  }

  function WrittenEnd(e: Ending): seq<string> {
    match e case Done => [] case Dashes(rest) => ["--"] + rest case Stop(rest) => rest
  }

  /** The option letter c, with what follows it among the option letters. */
  ghost predicate Listed(letters: string, before: string, c: char, after: string) {
    letters == before + [c] + after && c !in before && c != ':' && c != ';'
  }

  ghost predicate TakesNone(letters: string, c: char) {
    exists before, after :: Listed(letters, before, c, after) && !StartsWith(after, ":")
  }

  ghost predicate TakesOne(letters: string, c: char) {
    exists before, after :: Listed(letters, before, c, after) && StartsWith(after, ":") && !StartsWith(after, "::")
  }

  ghost predicate MayTakeOne(letters: string, c: char) {
    exists before, after :: Listed(letters, before, c, after) && StartsWith(after, "::")
  }

  predicate IsOperand(text: string) { text == "" || text == "-" || text[0] != '-' }

  /** A word that the options allow: an argument is given where it is needed and only where it may be, and an
      optional one is attached. */
  ghost predicate Allowed(cfg: Config, w: Word) {
    match w
    case Long(name, k, arg, attached) =>
      && cfg.longopts.Some? && name != "" && '=' !in name
      && Means(cfg.longopts.value, name, cfg.longOnly, Found(k))
      && var takes := cfg.longopts.value[k].hasArg;
         if arg.None? then takes != 1 else if attached then takes != 0 else takes == 1
    case Short(flags, last, arg, attached) =>
      var letters, text := Letters(cfg.optstring), flags + ([last] + TextOf(Attached(w)));
      && text != "-" && (cfg.longopts.Some? ==> text[0] != '-' && !TakenAsLong(cfg, "-", text))
      && (forall c :: c in flags ==> TakesNone(letters, c))
      && (if arg.None? then TakesNone(letters, last) || MayTakeOne(letters, last)
          else if attached then arg.value != "" && (TakesOne(letters, last) || MayTakeOne(letters, last))
          else TakesOne(letters, last))
    case Operand(text) => IsOperand(text)
  }

  type Event = (Report, Option<string>)

  function Flag(c: char): Report { Report(c as int, None, None) }

  function FlagEvents(flags: string): seq<Event> {
    if flags == "" then [] else [(Flag(flags[0]), None)] + FlagEvents(flags[1..])
  }

  /** What the scan is to report for a word. */
  ghost function Reports(cfg: Config, ordering: Ordering, w: Word): seq<Event>
    requires Allowed(cfg, w)
  {
    match w
    case Long(_, k, arg, _) => [(LongReport(cfg.longopts.value, k), arg)]
    case Short(flags, last, arg, _) => FlagEvents(flags) + [(Flag(last), arg)]
    case Operand(text) => if ordering == ReturnInOrder then [(Report(1, None, None), Some(text))] else []
  }

  ghost function ReportsAll(cfg: Config, ordering: Ordering, words: seq<Word>): seq<Event>
    requires forall w :: w in words ==> Allowed(cfg, w)
  {
    if words == [] then [] else Reports(cfg, ordering, words[0]) + ReportsAll(cfg, ordering, words[1..])
  }

  /** The operands that are left at the end. */
  function Operands(ordering: Ordering, words: seq<Word>): seq<string> {
    if words == [] then []
    else (if words[0].Operand? && ordering == Permute then [words[0].text] else []) + Operands(ordering, words[1..])
  }

  function OperandsEnd(e: Ending): seq<string> {
    if e.Done? then [] else e.rest
  }

  /** The non-options from i on, where text is left of the element i. */
  function NonOptions(cfg: Config, ordering: Ordering, args: seq<string>, i: nat, text: string): seq<string>
    requires i <= |args| && (i == |args| ==> text == "")
  {
    Select(args[i..], Kinds(cfg, ordering, args, i, text), false)
  }

  /** The scan reports an option. */
  lemma {:induction false} OptionStep(cfg: Config, ordering: Ordering, args: seq<string>, i: nat, text: string)
    requires i < |args| && (text == "" ==> !IsOperand(args[i]) && args[i] != "--")
    ensures var up := Upcoming(cfg, ordering, args, i, text);
            && up.Some?
            && var o := up.value;
               && Events(cfg, ordering, args, i, text)
                  == [(o.report, o.arg)] + Events(cfg, ordering, args, o.next, o.text)
               && NonOptions(cfg, ordering, args, i, text) == NonOptions(cfg, ordering, args, o.next, o.text)
  {
    hide ElementStep, ShortStep, Select;
    var o := Upcoming(cfg, ordering, args, i, text).value;
    var kinds := Kinds(cfg, ordering, args, o.next, o.text);
    assert Kinds(cfg, ordering, args, i, text) == Repeat(true, o.next - i) + kinds;
    SelectPast(args, i, o.next, kinds);
  }

  lemma {:induction false} SelectPast(args: seq<string>, i: nat, next: nat, kinds: seq<bool>)
    requires i <= next <= |args| && |kinds| == |args| - next
    ensures Select(args[i..], Repeat(true, next - i) + kinds, false) == Select(args[next..], kinds, false)
  {
    var own := Repeat(true, next - i);
    assert args[i..] == args[i..next] + args[next..];
    SelectAppend(args[i..next], own, args[next..], kinds, false);
    SelectSame(args[i..next], own, true);
  }

  /** The scan goes over an operand. */
  lemma {:induction false} OperandStep(cfg: Config, ordering: Ordering, args: seq<string>, i: nat)
    requires i < |args| && IsOperand(args[i]) && ordering != RequireOrder
    ensures Events(cfg, ordering, args, i, "")
         == Reports(cfg, ordering, Operand(args[i])) + Events(cfg, ordering, args, i + 1, "")
    ensures NonOptions(cfg, ordering, args, i, "")
         == (if ordering == Permute then [args[i]] else []) + NonOptions(cfg, ordering, args, i + 1, "")
  {
    var kinds := Kinds(cfg, ordering, args, i + 1, "");
    assert Kinds(cfg, ordering, args, i, "") == [ordering == ReturnInOrder] + kinds;
    assert args[i..][1..] == args[i + 1..] && ([ordering == ReturnInOrder] + kinds)[1..] == kinds;
  }

  /** A letter without an argument, and then the others of its element. */
  lemma {:induction false} FlagStep(cfg: Config, ordering: Ordering, args: seq<string>, i: nat, c: char, rest: string)
    requires i < |args| && TakesNone(Letters(cfg.optstring), c)
    ensures Upcoming(cfg, ordering, args, i, [c] + rest)
         == Some(Outcome(Flag(c), None, None, if rest == "" then i + 1 else i, rest))
  {
    var before, after :| Listed(Letters(cfg.optstring), before, c, after) && !StartsWith(after, ":");
    ShortShapes(cfg, ordering, args, i, c, rest, before, after);
  }

  /** The last letter of its element, with its argument. */
  lemma {:induction false} LastStep(cfg: Config, ordering: Ordering, args: seq<string>, i: nat, w: Word)
    requires w.Short? && Allowed(cfg, w) && i + |Separate(w)| < |args|
    requires Separate(w) != [] ==> args[i + 1] == w.arg.value
    ensures Upcoming(cfg, ordering, args, i, [w.last] + TextOf(Attached(w)))
         == Some(Outcome(Flag(w.last), w.arg, None, i + |Written(w)|, ""))
  {
    var letters, c, rest := Letters(cfg.optstring), w.last, TextOf(Attached(w));
    if w.arg.None? && TakesNone(letters, c) {
      FlagStep(cfg, ordering, args, i, c, rest);
    } else if w.arg.Some? && TakesOne(letters, c) {
      var before, after :| Listed(letters, before, c, after) && StartsWith(after, ":") && !StartsWith(after, "::");
      ShortShapes(cfg, ordering, args, i, c, rest, before, after);
    } else {
      var before, after :| Listed(letters, before, c, after) && StartsWith(after, "::");
      ShortShapes(cfg, ordering, args, i, c, rest, before, after);
      assert StartsWith(after, ":");
    }
  }

  /** The letters of an element, from any of them on. */
  lemma {:induction false} ClusterSteps(cfg: Config, ordering: Ordering, args: seq<string>, i: nat, flags: string,
      w: Word)
    requires w.Short? && Allowed(cfg, w) && i + |Separate(w)| < |args|
    requires (Separate(w) != [] ==> args[i + 1] == w.arg.value) && forall c :: c in flags ==> c in w.flags
    ensures var text, next := flags + ([w.last] + TextOf(Attached(w))), i + |Written(w)|;
            && Events(cfg, ordering, args, i, text)
               == FlagEvents(flags) + [(Flag(w.last), w.arg)] + Events(cfg, ordering, args, next, "")
            && NonOptions(cfg, ordering, args, i, text) == NonOptions(cfg, ordering, args, next, "")
    decreases |flags|
  {
    hide Events, NonOptions, Upcoming, TakesNone;
    var end := [w.last] + TextOf(Attached(w));
    OptionStep(cfg, ordering, args, i, flags + end);
    if flags == "" {
      assert flags + end == end;
      LastStep(cfg, ordering, args, i, w);
    } else {
      assert flags + end == [flags[0]] + (flags[1..] + end);
      FlagStep(cfg, ordering, args, i, flags[0], flags[1..] + end);
      ClusterSteps(cfg, ordering, args, i, flags[1..], w);
    }
  }

  /** The first letter of an element. */
  lemma {:induction false} ShortStart(cfg: Config, ordering: Ordering, args: seq<string>, i: nat, text: string)
    requires i < |args| && args[i] == "-" + text && text != "" && text != "-"
    requires cfg.longopts.Some? ==> text[0] != '-' && !TakenAsLong(cfg, "-", text)
    ensures Events(cfg, ordering, args, i, "") == Events(cfg, ordering, args, i, text)
    ensures NonOptions(cfg, ordering, args, i, "") == NonOptions(cfg, ordering, args, i, text)
  {
    hide Upcoming, NonOptions, Events;
    assert args[i][1..] == text;
    ClusterStart(cfg, ordering, args, i, text);
    OptionStep(cfg, ordering, args, i, "");
    OptionStep(cfg, ordering, args, i, text);
  }

  /** One word. */
  lemma {:induction false} WordStep(cfg: Config, ordering: Ordering, args: seq<string>, i: nat, w: Word,
      rest: seq<string>)
    requires i <= |args| && args[i..] == Written(w) + rest && Allowed(cfg, w)
    requires w.Operand? ==> ordering != RequireOrder
    ensures var next := i + |Written(w)|;
            && next <= |args| && args[next..] == rest
            && Events(cfg, ordering, args, i, "")
               == Reports(cfg, ordering, w) + Events(cfg, ordering, args, next, "")
            && NonOptions(cfg, ordering, args, i, "")
               == (if w.Operand? && ordering == Permute then [w.text] else [])
                  + NonOptions(cfg, ordering, args, next, "")
  {
    hide Events, NonOptions, Upcoming, TakesNone, Means;
    var all := args[i..];
    assert all[0] == args[i] && |all| == |args| - i;
    assert all[|Written(w)|..] == rest;
    match w
    case Long(name, k, _, _) =>
      assert Separate(w) != [] ==> all[1] == args[i + 1];
      LongShapes(cfg, ordering, args, i, "--", name, Attached(w), k);
      OptionStep(cfg, ordering, args, i, "");
    case Short(flags, last, _, _) =>
      assert Separate(w) != [] ==> all[1] == args[i + 1];
      ShortStart(cfg, ordering, args, i, flags + ([last] + TextOf(Attached(w))));
      ClusterSteps(cfg, ordering, args, i, flags, w);
    case Operand(text) => OperandStep(cfg, ordering, args, i);
  }

  /** The end of a command line. */
  lemma {:induction false} EndStep(cfg: Config, ordering: Ordering, args: seq<string>, i: nat, e: Ending)
    requires i <= |args| && args[i..] == WrittenEnd(e)
    requires e.Stop? ==> ordering == RequireOrder && e.rest != [] && IsOperand(e.rest[0])
    ensures Events(cfg, ordering, args, i, "") == [] && NonOptions(cfg, ordering, args, i, "") == OperandsEnd(e)
  {
    if !e.Done? {
      assert args[i..][0] == args[i];
      var n := |e.rest|;
      SelectSame(e.rest, Repeat(false, n), false);
      if e.Dashes? {
        assert (["--"] + e.rest)[1..] == e.rest && ([true] + Repeat(false, n))[1..] == Repeat(false, n);
      }
    }
  }

  /** A command line that is written with allowed words is read back: the reports of its words come out in their
      order, each with its argument, and exactly the operands are left. */
  lemma {:induction false} ReadBack(cfg: Config, ordering: Ordering, args: seq<string>, i: nat, words: seq<Word>,
      e: Ending)
    requires i <= |args| && args[i..] == WrittenAll(words) + WrittenEnd(e)
    requires forall w :: w in words ==> Allowed(cfg, w) && (w.Operand? ==> ordering != RequireOrder)
    requires e.Stop? ==> ordering == RequireOrder && e.rest != [] && IsOperand(e.rest[0])
    ensures Events(cfg, ordering, args, i, "") == ReportsAll(cfg, ordering, words)
    ensures NonOptions(cfg, ordering, args, i, "") == Operands(ordering, words) + OperandsEnd(e)
    decreases |words|
  {
    hide Events, NonOptions, Reports, Allowed, Written, WrittenEnd, OperandsEnd, Kinds, Upcoming;
    if words == [] {
      EndStep(cfg, ordering, args, i, e);
    } else {
      var w, rest := words[0], WrittenAll(words[1..]) + WrittenEnd(e);
      Associate(Written(w), WrittenAll(words[1..]), WrittenEnd(e));
      WordStep(cfg, ordering, args, i, w, rest);
      ReadBack(cfg, ordering, args, i + |Written(w)|, words[1..], e);
      Associate(if w.Operand? && ordering == Permute then [w.text] else [], Operands(ordering, words[1..]),
        OperandsEnd(e));
    }
  }

  /** A run over a command line that is written with allowed words: it reports them in their order, and leaves
      just the operands from optind on. */
  method RunWords(argv: array<string>, cfg: Config, posix: bool, ghost words: seq<Word>, ghost e: Ending)
      returns (events: seq<Event>, optind: nat)
    requires argv.Length > 0 && Supported(cfg) && Telling(cfg) && argv[1..] == WrittenAll(words) + WrittenEnd(e)
    requires var ordering := OrderingOf(cfg.optstring, posix);
      && (forall w :: w in words ==> Allowed(cfg, w) && (w.Operand? ==> ordering != RequireOrder))
      && (e.Stop? ==> ordering == RequireOrder && e.rest != [] && IsOperand(e.rest[0]))
    modifies argv
    ensures optind <= argv.Length && events == ReportsAll(cfg, OrderingOf(cfg.optstring, posix), words)
    ensures argv[optind..] == Operands(OrderingOf(cfg.optstring, posix), words) + OperandsEnd(e)
  {
    hide *;
    ghost var args, ordering := argv[..], OrderingOf(cfg.optstring, posix);
    assert args[1..] == argv[1..];
    ReadBack(cfg, ordering, args, 1, words, e);
    events, optind := Run(argv, cfg, posix);
    LeftOver(args[..1], args[1..], Kinds(cfg, ordering, args, 1, ""), argv[..], optind);
    NonOptionsAre(cfg, ordering, args);
    assert argv[optind..] == argv[..][optind..];
  }

  lemma {:induction false} NonOptionsAre(cfg: Config, ordering: Ordering, args: seq<string>)
    requires args != []
    ensures NonOptions(cfg, ordering, args, 1, "") == Select(args[1..], Kinds(cfg, ordering, args, 1, ""), false)
  {
  }

  lemma {:induction false} LeftOver(front: seq<string>, s: seq<string>, kinds: seq<bool>, argv: seq<string>,
      optind: nat)
    requires |s| == |kinds| && argv == front + Partition(s, kinds) && optind == |front| + |Select(s, kinds, true)|
    ensures optind <= |argv| && argv[optind..] == Select(s, kinds, false)
  {
  }
}
