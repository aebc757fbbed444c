/** The resumable option parser, which permutes the argument vector while it scans. */
module Getopt {
  import opened Wrappers
  import opened GetoptSpec
  import opened GetoptScan
  import opened GetoptExchange

  /** The state after an exchange. */
  lemma {:induction false} SplitRotate(argv: seq<string>, orig: seq<string>, kinds: seq<bool>, start: nat, first: nat,
      last: nat, now: nat)
    requires Split(argv, orig, kinds, start, first, last, now)
    ensures Split(Rotated(argv, first, last, now), orig, kinds, start, first + (now - last), now, now)
  {
    var r, m := Rotated(argv, first, last, now), first + (now - last);
    assert r[..start] == argv[..start];
    assert r[now..] == argv[now..];
    assert r[start..m] == argv[start..first] + argv[last..now];
    assert r[m..now] == argv[first..last];
  }

  /** Names the option that a name means: by an exact match, or else as an abbreviation. */
  method FindLong(longopts: seq<LongOption>, name: string, longOnly: bool) returns (m: Match)
    ensures m == Meaning(longopts, name, longOnly)
  {
    var p := 0;
    while p < |longopts|
      invariant p <= |longopts| && forall j :: 0 <= j < p ==> longopts[j].name != name
    {
      if StartsWith(longopts[p].name, name) && |name| == |longopts[p].name| {
        assert longopts[p].name[..|name|] == longopts[p].name;
        MeansOne(longopts, name, longOnly, Found(p), Meaning(longopts, name, longOnly));
        return Found(p);
      }
      PrefixOfItself(name);
      p := p + 1;
    }
    m := FindAbbreviated(longopts, name, longOnly);
  }

  method FindAbbreviated(longopts: seq<LongOption>, name: string, longOnly: bool) returns (m: Match)
    requires NoExact(longopts, name)
    ensures m == Meaning(longopts, name, longOnly)
  {
    var found: nat, ambiguous: bool := |longopts|, false;
    ghost var rival: nat := 0;
    var p: nat := 0;
    while p < |longopts|
      invariant p <= |longopts| && (found == |longopts| || found < p)
      invariant found == |longopts| ==> !ambiguous && forall j :: 0 <= j < p ==> !StartsWith(longopts[j].name, name)
      invariant found < p ==> AbbreviatedAt(longopts, name, found)
      invariant ambiguous ==> Rival(longopts, name, longOnly, found, rival)
      invariant !ambiguous && found < p ==> forall j :: found < j < p ==> !Rival(longopts, name, longOnly, found, j)
    {
      if StartsWith(longopts[p].name, name) {
        if found == |longopts| {
          found := p;
        } else if longOnly || !SameEffect(longopts[found], longopts[p]) {
          ambiguous := true;
          rival := p;
        }
      }
      p := p + 1;
    }
    assert ambiguous ==> AbbreviatedAt(longopts, name, found) && Rival(longopts, name, longOnly, found, rival);
    m := if ambiguous then Ambiguous else if found == |longopts| then Unknown else Found(found);
    MeansOne(longopts, name, longOnly, m, Meaning(longopts, name, longOnly));
  }

  /** The optstring has no "W;", or there are no long options. */
  predicate Supported(cfg: Config) {
    cfg.longopts.None? || forall k :: 0 <= k < |cfg.optstring| - 1 ==>
      !(cfg.optstring[k] == 'W' && cfg.optstring[k + 1] == ';')
  }

  ghost predicate NoMoreOptions(kinds: seq<bool>, i: int) {
    forall j :: 0 <= i <= j < |kinds| ==> !kinds[j]
  }

  class Parser {
    var optind: nat
    var optarg: Option<string>
    var optopt: int
    var initialized: bool
    /** What is left of the option characters of the current element; "" also stands for NULL. */
    var nextchar: string
    var ordering: Ordering
    var firstNonopt: nat
    var lastNonopt: nat
    /** The arguments and the first of them to scan, as they were at the first call. */
    ghost var orig: seq<string>
    ghost var start: nat

    constructor ()
      ensures optind == 1 && !initialized
    {
      optind, optarg, optopt, initialized, nextchar, ordering := 1, None, INVALID, false, "", Permute;
      firstNonopt, lastNonopt, orig, start := 0, 0, [], 0;
    }

    /** The kinds of the original arguments. */
    ghost function Plan(cfg: Config): seq<bool>
      requires start <= |orig|
      reads `start, `orig, `ordering
    {
      Kinds(cfg, ordering, orig, start, "")
    }

    /** The scan has come to optind and nextchar, and the arguments are permuted accordingly. */
    ghost predicate Scanning(argv: seq<string>, cfg: Config)
      reads `start, `orig, `ordering, `optind, `nextchar, `firstNonopt, `lastNonopt
    {
      && start <= optind <= |argv| == |orig| && (optind == |orig| ==> nextchar == "") && Supported(cfg)
      && Split(argv, orig, Plan(cfg), start, firstNonopt, lastNonopt, optind)
      && Plan(cfg)[optind - start..] == Kinds(cfg, ordering, orig, optind, nextchar)
      && (ordering != Permute ==> firstNonopt == lastNonopt)
    }

    /** The scan is over: options come first, then the non-options, both in their original order. */
    ghost predicate Finished(argv: seq<string>, cfg: Config)
      reads `start, `orig, `ordering, `optind
    {
      && start <= |orig|
      && argv == orig[..start] + Partition(orig[start..], Plan(cfg))
      && optind == start + |Select(orig[start..], Plan(cfg), true)|
    }

    /** The arguments are split as the indices say. */
    ghost predicate SplitNow(argv: seq<string>, kinds: seq<bool>)
      reads `start, `orig, `optind, `firstNonopt, `lastNonopt
    {
      Split(argv, orig, kinds, start, firstNonopt, lastNonopt, optind)
    }

    /** Swaps the non-options skipped with the options scanned since, and records their new place. */
    method SwapSegments(argv: array<string>, ghost kinds: seq<bool>)
      requires SplitNow(argv[..], kinds)
      modifies argv, `firstNonopt, `lastNonopt
      ensures SplitNow(argv[..], kinds) && lastNonopt == optind
    {
      SplitRotate(argv[..], orig, kinds, start, firstNonopt, lastNonopt, optind);
      Exchange(argv, firstNonopt, lastNonopt, optind);
      firstNonopt := firstNonopt + (optind - lastNonopt);
      lastNonopt := optind;
    }

    /** There are no non-options so far. */
    method MoveNonopts(argv: array<string>, ghost kinds: seq<bool>)
      requires SplitNow(argv[..], kinds) && firstNonopt == lastNonopt
      modifies `firstNonopt, `lastNonopt
      ensures SplitNow(argv[..], kinds) && firstNonopt == lastNonopt == optind
    {
      SplitEmpty(argv[..], orig, kinds, start, firstNonopt, optind);
      firstNonopt := optind;
      lastNonopt := optind;
    }

    /** Brings the options scanned since the last non-options before them. */
    method Normalize(argv: array<string>, ghost kinds: seq<bool>)
      requires SplitNow(argv[..], kinds)
      modifies argv, `firstNonopt, `lastNonopt
      ensures SplitNow(argv[..], kinds) && lastNonopt == optind
      ensures old(firstNonopt == lastNonopt) ==> firstNonopt == lastNonopt
    {
      if firstNonopt != lastNonopt && lastNonopt != optind {
        SwapSegments(argv, kinds);
      } else if lastNonopt != optind {
        MoveNonopts(argv, kinds);
      }
    }

    /** Skips non-options, and extends the range of those skipped before. */
    method SkipNonopts(argv: array<string>, cfg: Config)
      requires Scanning(argv[..], cfg) && nextchar == "" && ordering == Permute && lastNonopt == optind
      modifies `optind, `lastNonopt
      ensures Scanning(argv[..], cfg) && lastNonopt == optind && (optind < argv.Length ==> !NonOption(argv[optind]))
      ensures Upcoming(cfg, ordering, orig, optind, "") == old(Upcoming(cfg, ordering, orig, optind, ""))
    {
      while optind < argv.Length && NonOption(argv[optind])
        invariant Scanning(argv[..], cfg) && lastNonopt == optind
        invariant Upcoming(cfg, ordering, orig, optind, "") == old(Upcoming(cfg, ordering, orig, optind, ""))
        decreases argv.Length - optind
      {
        SkipOne(argv, cfg);
      }
    }

    method SkipOne(argv: array<string>, cfg: Config)
      requires Scanning(argv[..], cfg) && nextchar == "" && ordering == Permute && lastNonopt == optind < argv.Length
          && NonOption(argv[optind])
      modifies `optind, `lastNonopt
      ensures Scanning(argv[..], cfg) && lastNonopt == optind == old(optind) + 1
      ensures Upcoming(cfg, ordering, orig, optind, "") == old(Upcoming(cfg, ordering, orig, optind, ""))
    {
      NonOptionSkipped(cfg, argv[..], orig, Plan(cfg), start, firstNonopt, optind);
      optind := optind + 1;
      lastNonopt := optind;
    }

    /** Passes the special argument "--", and takes what follows for non-options. */
    method PassRest(argv: array<string>, cfg: Config)
      requires Scanning(argv[..], cfg) && nextchar == "" && (ordering == Permute ==> lastNonopt == optind)
      requires optind < argv.Length && argv[optind] == "--"
      modifies argv, `optind, `firstNonopt, `lastNonopt
      ensures SplitNow(argv[..], Plan(cfg)) && lastNonopt == optind == argv.Length
    {
      ghost var kinds := Plan(cfg);
      PassDashes(argv, cfg);
      Normalize(argv, kinds);
      TakeRest(argv, kinds);
    }

    method PassDashes(argv: array<string>, cfg: Config)
      requires Scanning(argv[..], cfg) && nextchar == "" && optind < argv.Length && argv[optind] == "--"
      modifies `optind
      ensures SplitNow(argv[..], Plan(cfg)) && NoMoreOptions(Plan(cfg), optind - start)
      ensures optind == old(optind) + 1
    {
      hide Kinds;
      DashesEnd(cfg, ordering, orig, Plan(cfg), start, optind);
      SplitTake(argv[..], orig, Plan(cfg), start, firstNonopt, lastNonopt, optind, optind + 1);
      optind := optind + 1;
    }

    /** The elements that are left are non-options. */
    method TakeRest(argv: array<string>, ghost kinds: seq<bool>)
      requires SplitNow(argv[..], kinds) && lastNonopt == optind && NoMoreOptions(kinds, optind - start)
      modifies `optind, `lastNonopt
      ensures SplitNow(argv[..], kinds) && lastNonopt == optind == argv.Length
    {
      SplitSkip(argv[..], orig, kinds, start, firstNonopt, optind, argv.Length);
      lastNonopt := argv.Length;
      optind := argv.Length;
    }

    /** The fields after an option has been handled as the outcome says. */
    ghost predicate Did(o: Outcome, r: Report, optoptBefore: int)
      reads `optind, `optarg, `optopt, `nextchar
    {
      && r == o.report && optarg == o.arg && optind == o.next && nextchar == o.text
      && optopt == (if o.bad.Some? then o.bad.value else optoptBefore)
    }

    /** Handles nextchar as a long option; None means that it is to be taken as short options. */
    method ProcessLongOption(argv: array<string>, cfg: Config, longopts: seq<LongOption>) returns (r: Option<Report>)
      requires optind < argv.Length && |argv[optind]| >= 2 && nextchar != "" && optarg == None
      modifies `optind, `optarg, `optopt, `nextchar
      ensures var step := LongStep(cfg, longopts, argv[..], old(optind), old(nextchar));
              if r.Some? then step.Some? && Did(step.value, r.value, old(optopt))
              else
                step.None? && optind == old(optind) && nextchar == old(nextchar) && optarg == None
                && optopt == old(optopt)
    {
      var nameend := 0;
      while nameend < |nextchar| && nextchar[nameend] != '='
        invariant nameend <= |nextchar| && '=' !in nextchar[..nameend]
      {
        nameend := nameend + 1;
      }
      NameEnd(nextchar, nameend);
      var found := FindLong(longopts, nextchar[..nameend], cfg.longOnly);
      var letters := Letters(cfg.optstring);
      if found == Ambiguous {
        nextchar := "";
        optind := optind + 1;
        optopt := 0;
        return Some(Report(INVALID, None, None));
      }
      if found == Unknown {
        if !cfg.longOnly || argv[optind][1] == '-' || IndexOf(letters, nextchar[0]) == |letters| {
          nextchar := "";
          optind := optind + 1;
          optopt := 0;
          return Some(Report(INVALID, None, None));
        }
        return None;
      }
      var p := longopts[found.index];
      var rest := nextchar[nameend..];
      optind := optind + 1;
      nextchar := "";
      if rest != "" {
        if p.hasArg != 0 {
          optarg := Some(rest[1..]);
        } else {
          optopt := p.val;
          return Some(Report(INVALID, None, None));
        }
      } else if p.hasArg == 1 {
        if optind < argv.Length {
          optarg := Some(argv[optind]);
          optind := optind + 1;
        } else {
          optopt := p.val;
          return Some(Report(if letters != "" && letters[0] == ':' then ':' as int else INVALID, None, None));
        }
      }
      r := Some(if p.flag != 0 then Report(0, Some(found.index), Some((p.flag, p.val)))
                else Report(p.val, Some(found.index), None));
    }

    /** Handles the next short option character. */
    method ShortOption(argv: array<string>, cfg: Config) returns (r: Report)
      requires optind < argv.Length && nextchar != "" && optarg == None
      modifies `optind, `optarg, `optopt, `nextchar
      ensures Did(ShortStep(Letters(cfg.optstring), argv[..], old(optind), old(nextchar)), r, old(optopt))
    {
      var letters := Letters(cfg.optstring);
      var c := nextchar[0];
      nextchar := nextchar[1..];
      var temp := IndexOf(letters, c);
      if nextchar == "" {
        optind := optind + 1;
      }
      if temp == |letters| || c == ':' || c == ';' {
        optopt := c as int;
        return Report(INVALID, None, None);
      }
      var code := c as int;
      if HasAt(letters, temp + 1, ':') {
        if HasAt(letters, temp + 2, ':') {
          if nextchar != "" {
            optarg := Some(nextchar);
            optind := optind + 1;
          } else {
            optarg := None;
          }
          nextchar := "";
        } else {
          if nextchar != "" {
            optarg := Some(nextchar);
            optind := optind + 1;
          } else if optind == argv.Length {
            optopt := c as int;
            code := if letters != "" && letters[0] == ':' then ':' as int else INVALID;
          } else {
            optarg := Some(argv[optind]);
            optind := optind + 1;
          }
          nextchar := "";
        }
      }
      r := Report(code, None, None);
    }

    /** The first call. */
    method Initialize(argv: array<string>, cfg: Config, posix: bool)
      requires optind <= argv.Length && argv.Length > 0 && Supported(cfg)
      modifies this
      ensures Scanning(argv[..], cfg) && orig == argv[..] && nextchar == "" && initialized && optarg == old(optarg)
      ensures optind == start == (if old(optind) == 0 then 1 else old(optind))
      ensures ordering == OrderingOf(cfg.optstring, posix)
      ensures optopt == old(optopt)
    {
      hide Kinds, Split;
      if optind == 0 { optind := 1; }
      ghost var kinds := Kinds(cfg, OrderingOf(cfg.optstring, posix), argv[..], optind, "");
      SplitStart(argv[..], kinds, optind);
      firstNonopt, lastNonopt, nextchar := optind, optind, "";
      ordering, initialized := OrderingOf(cfg.optstring, posix), true;
      orig, start := argv[..], optind;
    }

    /** Handles the option element at optind. */
    method StartElement(argv: array<string>, cfg: Config) returns (r: Report)
      requires optind < argv.Length && !NonOption(argv[optind]) && argv[optind] != "--" && nextchar == ""
          && optarg == None
      modifies `optind, `optarg, `optopt, `nextchar
      ensures Did(ElementStep(cfg, argv[..], old(optind)), r, old(optopt))
    {
      var letters := Letters(cfg.optstring);
      if cfg.longopts.Some? {
        if argv[optind][1] == '-' {
          nextchar := argv[optind][2..];
          var code := ProcessLongOption(argv, cfg, cfg.longopts.value);
          return code.value;
        }
        if cfg.longOnly && (|argv[optind]| > 2 || IndexOf(letters, argv[optind][1]) == |letters|) {
          nextchar := argv[optind][1..];
          var code := ProcessLongOption(argv, cfg, cfg.longopts.value);
          if code.Some? { return code.value; }
        }
      }
      nextchar := argv[optind][1..];
      r := ShortOption(argv, cfg);
    }

    /** After the outcome o, the arguments are split, and the kinds of those to come are known. */
    ghost predicate Continues(argv: seq<string>, cfg: Config, o: Outcome)
      reads `start, `orig, `ordering, `firstNonopt, `lastNonopt
    {
      && start <= o.next <= |argv| == |orig| && (o.next == |orig| ==> o.text == "") && Supported(cfg)
      && Split(argv, orig, Plan(cfg), start, firstNonopt, lastNonopt, o.next)
      && Plan(cfg)[o.next - start..] == Kinds(cfg, ordering, orig, o.next, o.text)
      && (ordering != Permute ==> firstNonopt == lastNonopt)
    }

    /** What comes next at an option, and how the scan goes on after it. */
    lemma {:induction false} Reporting(argv: seq<string>, cfg: Config)
      requires Scanning(argv, cfg) && optind < |argv|
      requires nextchar == "" ==> !NonOption(argv[optind]) && argv[optind] != "--"
      ensures Upcoming(cfg, ordering, orig, optind, nextchar) ==
              Some(if nextchar == "" then ElementStep(cfg, argv, optind)
                   else ShortStep(Letters(cfg.optstring), argv, optind, nextchar))
      ensures Continues(argv, cfg, Upcoming(cfg, ordering, orig, optind, nextchar).value)
    {
      hide Kinds, ElementStep, Supported;
      var kinds := Plan(cfg);
      TailSlice(argv, orig, optind, optind);
      SameStep(cfg, argv, orig, optind, nextchar);
      NextKinds(cfg, ordering, orig, kinds, start, optind, nextchar);
      var o := Upcoming(cfg, ordering, orig, optind, nextchar).value;
      SplitTake(argv, orig, kinds, start, firstNonopt, lastNonopt, optind, o.next);
    }

    lemma {:induction false} Continued(argv: seq<string>, cfg: Config, o: Outcome, r: Report, optoptBefore: int)
      requires Continues(argv, cfg, o) && Did(o, r, optoptBefore)
      ensures Scanning(argv, cfg)
    {
    }

    /** The scan has reported an option. */
    method Reported(argv: array<string>, cfg: Config) returns (r: Report)
      requires Scanning(argv[..], cfg) && optind < argv.Length && optarg == None
      requires nextchar == "" ==> !NonOption(argv[optind]) && argv[optind] != "--"
      modifies `optind, `optarg, `optopt, `nextchar
      ensures Scanning(argv[..], cfg)
      ensures var up := old(Upcoming(cfg, ordering, orig, optind, nextchar)); up.Some? && Did(up.value, r, old(optopt))
    {
      Reporting(argv[..], cfg);
      hide *;
      ghost var args, o := argv[..], Upcoming(cfg, ordering, orig, optind, nextchar).value;
      if nextchar == "" {
        r := StartElement(argv, cfg);
      } else {
        r := ShortOption(argv, cfg);
      }
      Continued(args, cfg, o, r, old(optopt));
      assert argv[..] == args;
    }

    /** All elements are scanned: optind goes back over the non-options skipped. */
    method Finish(argv: array<string>, cfg: Config)
      requires start <= |orig| && SplitNow(argv[..], Plan(cfg)) && optind == argv.Length
      requires firstNonopt != lastNonopt ==> lastNonopt == optind
      modifies `optind
      ensures Finished(argv[..], cfg)
    {
      if firstNonopt != lastNonopt {
        SplitEnd(argv[..], orig, Plan(cfg), start, firstNonopt);
        optind := firstNonopt;
      } else {
        SplitEmpty(argv[..], orig, Plan(cfg), start, firstNonopt, optind);
        SplitEnd(argv[..], orig, Plan(cfg), start, optind);
      }
    }

    /** The first non-option ends the scan. */
    lemma {:induction false} StopHere(argv: seq<string>, cfg: Config)
      requires Scanning(argv, cfg) && nextchar == "" && optind < |argv| && NonOption(argv[optind])
          && ordering == RequireOrder
      ensures Finished(argv, cfg)
      ensures Upcoming(cfg, ordering, orig, optind, "").None?
    {
      Same(argv, orig, optind);
      var kinds := Plan(cfg);
      Rest(kinds, kinds[optind - start..], optind - start, |argv| - optind);
      SplitEmpty(argv, orig, kinds, start, firstNonopt, optind);
      SplitSkip(argv, orig, kinds, start, optind, optind, |argv|);
      SplitEnd(argv, orig, kinds, start, optind);
    }

    lemma {:induction false} Returning(argv: seq<string>, cfg: Config)
      requires Scanning(argv, cfg) && nextchar == "" && optind < |argv| && NonOption(argv[optind])
          && ordering == ReturnInOrder
      ensures var o := Outcome(Report(1, None, None), Some(argv[optind]), None, optind + 1, "");
              Upcoming(cfg, ordering, orig, optind, nextchar) == Some(o) && Continues(argv, cfg, o)
    {
      hide Select, Supported, ElementStep;
      Same(argv, orig, optind);
      var kinds := Plan(cfg);
      assert kinds[optind - start..] == Repeat(true, 1) + Kinds(cfg, ordering, orig, optind + 1, "");
      Tail(kinds, kinds[optind - start..], optind - start, 1, Kinds(cfg, ordering, orig, optind + 1, ""));
      SplitTake(argv, orig, kinds, start, firstNonopt, lastNonopt, optind, optind + 1);
    }

    /** A non-option is passed to the caller. */
    method ReturnNonopt(argv: array<string>, cfg: Config) returns (r: Report)
      requires Scanning(argv[..], cfg) && nextchar == "" && optind < argv.Length && NonOption(argv[optind])
          && ordering == ReturnInOrder
      modifies `optind, `optarg
      ensures Scanning(argv[..], cfg)
      ensures var up := old(Upcoming(cfg, ordering, orig, optind, nextchar)); up.Some? && Did(up.value, r, old(optopt))
    {
      Returning(argv[..], cfg);
      hide Scanning, Continues, Upcoming, Supported;
      ghost var o := Upcoming(cfg, ordering, orig, optind, nextchar).value;
      optarg := Some(argv[optind]);
      optind := optind + 1;
      r := Report(1, None, None);
      Continued(argv[..], cfg, o, r, optopt);
    }

    /** Where the next element is looked at: after the permutation and the non-options skipped. */
    method Advance(argv: array<string>, cfg: Config)
      requires Scanning(argv[..], cfg) && nextchar == ""
      modifies argv, `optind, `firstNonopt, `lastNonopt
      ensures Scanning(argv[..], cfg) && (ordering == Permute ==> lastNonopt == optind)
      ensures ordering == Permute && optind < argv.Length ==> !NonOption(argv[optind])
      ensures Upcoming(cfg, ordering, orig, optind, "") == old(Upcoming(cfg, ordering, orig, optind, ""))
    {
      if ordering == Permute {
        Normalize(argv, Plan(cfg));
        SkipNonopts(argv, cfg);
      }
    }

    /** Continues the scan. */
    method Resume(argv: array<string>, cfg: Config) returns (r: Report, ghost done: bool)
      requires Scanning(argv[..], cfg) && optarg == None
      modifies argv, `optind, `optarg, `optopt, `nextchar, `firstNonopt, `lastNonopt
      ensures done <==> old(Upcoming(cfg, ordering, orig, optind, nextchar)).None?
      ensures done ==> r == Report(-1, None, None) && Finished(argv[..], cfg)
      ensures !done ==>
        Scanning(argv[..], cfg) && Did(old(Upcoming(cfg, ordering, orig, optind, nextchar)).value, r, old(optopt))
    {
      if nextchar == "" {
        Advance(argv, cfg);
        var dashes := optind != argv.Length && argv[optind] == "--";
        if dashes || optind == argv.Length {
          EndReached(argv[..], cfg);
          if dashes { PassRest(argv, cfg); }
          Finish(argv, cfg);
          return Report(-1, None, None), true;
        }
        if NonOption(argv[optind]) {
          if ordering == RequireOrder {
            StopHere(argv[..], cfg);
            return Report(-1, None, None), true;
          }
          r := ReturnNonopt(argv, cfg);
          return r, false;
        }
      }
      r := Reported(argv, cfg);
      done := false;
    }

    lemma {:induction false} EndReached(argv: seq<string>, cfg: Config)
      requires Scanning(argv, cfg) && nextchar == "" && (optind < |argv| ==> argv[optind] == "--")
      ensures Upcoming(cfg, ordering, orig, optind, "").None?
    {
      if optind < |argv| { Same(argv, orig, optind); }
    }

    /** Where a call goes on: at the start for the first call, and else where the last one ended. */
    ghost predicate GoesOn(first: bool, from: nat, text: string, optindBefore: nat, textBefore: string)
      reads this
    {
      && from <= |orig| && (from == |orig| ==> text == "")
      && if first then from == start == (if optindBefore == 0 then 1 else optindBefore) && text == ""
         else from == optindBefore && text == textBefore
    }

    /** Starts the scan on the first call. */
    method Begin(argv: array<string>, cfg: Config, posix: bool)
      requires argv.Length > 0 && Supported(cfg)
      requires if initialized && optind != 0 then Scanning(argv[..], cfg) else optind <= argv.Length
      modifies this
      ensures Scanning(argv[..], cfg) && initialized && optarg == None && optopt == old(optopt)
      ensures GoesOn(!old(initialized && optind != 0), optind, nextchar, old(optind), old(nextchar))
      ensures old(initialized && optind != 0) ==> orig == old(orig) && start == old(start) && ordering == old(ordering)
      ensures !old(initialized && optind != 0) ==> orig == argv[..] && ordering == OrderingOf(cfg.optstring, posix)
    {
      optarg := None;
      if optind == 0 || !initialized {
        Initialize(argv, cfg, posix);
      }
    }

    /** The next option, or the code -1 at the end of the scan. The first call starts the scan;
        from and text say where it goes on. */
    method Next(argv: array<string>, cfg: Config, posix: bool)
        returns (r: Report, ghost done: bool, ghost from: nat, ghost text: string)
      requires argv.Length > 0 && Supported(cfg)
      requires if initialized && optind != 0 then Scanning(argv[..], cfg) else optind <= argv.Length
      modifies this, argv
      ensures initialized && GoesOn(!old(initialized && optind != 0), from, text, old(optind), old(nextchar))
      ensures old(initialized && optind != 0) ==> orig == old(orig) && start == old(start) && ordering == old(ordering)
      ensures !old(initialized && optind != 0) ==>
        orig == old(argv[..]) && ordering == OrderingOf(cfg.optstring, posix)
      ensures done <==> Upcoming(cfg, ordering, orig, from, text).None?
      ensures done ==> r == Report(-1, None, None) && Finished(argv[..], cfg)
      ensures !done ==> Scanning(argv[..], cfg) && Did(Upcoming(cfg, ordering, orig, from, text).value, r, old(optopt))
    {
      Begin(argv, cfg, posix);
      from, text := optind, nextchar;
      r, done := Resume(argv, cfg);
    }
  }

  /** The options reported by the calls of a run, with their arguments. */
  ghost function Events(cfg: Config, ordering: Ordering, args: seq<string>, i: nat, text: string)
      : seq<(Report, Option<string>)>
    requires i <= |args| && (i == |args| ==> text == "")
    decreases |args| - i, Fuel(args, i, text)
  {
    match Upcoming(cfg, ordering, args, i, text)
    case None => []
    case Some(o) => [(o.report, o.arg)] + Events(cfg, ordering, args, o.next, o.text)
  }

  lemma {:induction false} EventsStep(cfg: Config, ordering: Ordering, args: seq<string>, i: nat, text: string,
                                      events: seq<(Report, Option<string>)>, r: Report, arg: Option<string>)
    requires i <= |args| && (i == |args| ==> text == "")
    requires var up := Upcoming(cfg, ordering, args, i, text); up.Some? && r == up.value.report && arg == up.value.arg
    ensures var o := Upcoming(cfg, ordering, args, i, text).value;
            events + Events(cfg, ordering, args, i, text) == events + [(r, arg)] + Events(cfg, ordering, args, o.next,
                o.text)
  {
    var o := Upcoming(cfg, ordering, args, i, text).value;
    var rest := Events(cfg, ordering, args, o.next, o.text);
    assert Events(cfg, ordering, args, i, text) == [(r, arg)] + rest;
    assert events + ([(r, arg)] + rest) == events + [(r, arg)] + rest;
  }

  /** No long option has the value that marks the end of the scan. */
  ghost predicate Telling(cfg: Config) {
    cfg.longopts.Some? ==> forall k :: 0 <= k < |cfg.longopts.value| ==> cfg.longopts.value[k].val != -1
  }

  lemma {:induction false} LongCode(cfg: Config, args: seq<string>, i: nat, text: string)
    requires i < |args| && |args[i]| >= 2 && text != "" && Telling(cfg) && cfg.longopts.Some?
    ensures var o := LongStep(cfg, cfg.longopts.value, args, i, text); o.Some? ==> o.value.report.code != -1
  {
  }

  lemma {:induction false} ElementCode(cfg: Config, args: seq<string>, i: nat)
    requires i < |args| && !NonOption(args[i]) && args[i] != "--" && Telling(cfg)
    ensures ElementStep(cfg, args, i).report.code != -1
  {
    if cfg.longopts.Some? {
      LongCode(cfg, args, i, args[i][1..]);
      if args[i][1] == '-' { LongCode(cfg, args, i, args[i][2..]); }
    }
  }

  lemma {:induction false} NeverEnd(cfg: Config, ordering: Ordering, args: seq<string>, i: nat, text: string)
    requires i <= |args| && (i == |args| ==> text == "") && Telling(cfg)
    ensures var up := Upcoming(cfg, ordering, args, i, text); up.Some? ==> up.value.report.code != -1
    decreases |args| - i
  {
    if i < |args| && text == "" {
      if NonOption(args[i]) {
        if ordering == Permute { NeverEnd(cfg, ordering, args, i + 1, ""); }
      } else if args[i] != "--" {
        ElementCode(cfg, args, i);
      }
    }
  }

  /** The state of a run after the call that went on at from and text. */
  ghost predicate Running(d: Parser, argv: seq<string>, cfg: Config, ordering: Ordering, args: seq<string>, from: nat,
      text: string, r: Report, done: bool)
    reads d
  {
    && d.initialized && d.orig == args && d.ordering == ordering && d.start == 1
    && from <= |args| && (from == |args| ==> text == "")
    && var up := Upcoming(cfg, ordering, args, from, text);
       (done <==> up.None?) && (done <==> r.code == -1) &&
       if done then d.Finished(argv, cfg)
       else
         && d.Scanning(argv, cfg) && d.optind > 0 && r == up.value.report && d.optarg == up.value.arg
         && d.optind == up.value.next && d.nextchar == up.value.text
  }

  method Start(d: Parser, argv: array<string>, cfg: Config, posix: bool) returns (r: Report, ghost done: bool)
    requires argv.Length > 0 && Supported(cfg) && Telling(cfg) && d.optind == 1 && !d.initialized
    modifies d, argv
    ensures Running(d, argv[..], cfg, OrderingOf(cfg.optstring, posix), old(argv[..]), 1, "", r, done)
  {
    ghost var from, text;
    r, done, from, text := d.Next(argv, cfg, posix);
    NeverEnd(cfg, d.ordering, d.orig, from, text);
  }

  method Continue(d: Parser, argv: array<string>, cfg: Config, posix: bool, ghost args: seq<string>, ghost from: nat,
      ghost text: string, last: Report)
    returns (r: Report, ghost done: bool)
    requires Running(d, argv[..], cfg, d.ordering, args, from, text, last, false) && argv.Length > 0 && Supported(cfg)
        && Telling(cfg)
    modifies d, argv
    ensures d.ordering == old(d.ordering)
        && Running(d, argv[..], cfg, d.ordering, args, old(d.optind), old(d.nextchar), r, done)
  {
    ghost var i, t;
    r, done, i, t := d.Next(argv, cfg, posix);
    NeverEnd(cfg, d.ordering, d.orig, i, t);
  }

  /** The loop of a program over its options. The options come out in their original order, each with
      its argument; at the end the arguments are partitioned, and optind is the first non-option. */
  method Run(argv: array<string>, cfg: Config, posix: bool) returns (events: seq<(Report, Option<string>)>, optind: nat)
    requires argv.Length > 0 && Supported(cfg) && Telling(cfg)
    modifies argv
    ensures var args, ordering := old(argv[..]), OrderingOf(cfg.optstring, posix);
            var kinds := Kinds(cfg, ordering, args, 1, "");
            events == Events(cfg, ordering, args, 1, "") &&
            argv[..] == args[..1] + Partition(args[1..], kinds) && optind == 1 + |Select(args[1..], kinds, true)|
  {
    var d := new Parser();
    events := [];
    ghost var args, ordering := argv[..], OrderingOf(cfg.optstring, posix);
    ghost var done;
    ghost var from: nat, text := 1, "";
    var r: Report;
    r, done := Start(d, argv, cfg, posix);
    while r.code != -1
      invariant Running(d, argv[..], cfg, ordering, args, from, text, r, done)
      invariant events + Events(cfg, ordering, args, from, text) == Events(cfg, ordering, args, 1, "")
      decreases |args| - from, Fuel(args, from, text)
    {
      EventsStep(cfg, ordering, args, from, text, events, r, d.optarg);
      events := events + [(r, d.optarg)];
      ghost var i, t := d.optind, d.nextchar;
      r, done := Continue(d, argv, cfg, posix, args, from, text, r);
      from, text := i, t;
    }
    optind := d.optind;
  }

  /** The kind of a non-option that is permuted, and what is reported after it. */
  lemma {:induction false} NonOptionKind(cfg: Config, orig: seq<string>, kinds: seq<bool>, start: nat, now: nat)
    requires start <= now < |orig| && |kinds| == |orig| - start && NonOption(orig[now])
    requires kinds[now - start..] == Kinds(cfg, Permute, orig, now, "")
    ensures !kinds[now - start] && kinds[now + 1 - start..] == Kinds(cfg, Permute, orig, now + 1, "")
    ensures Upcoming(cfg, Permute, orig, now, "") == Upcoming(cfg, Permute, orig, now + 1, "")
  {
    var k, rest := kinds[now - start..], Kinds(cfg, Permute, orig, now + 1, "");
    assert k == [false] + rest;
    assert k[0] == kinds[now - start];
    assert kinds[now + 1 - start..] == k[1..];
  }

  lemma {:induction false} NonOptionSkipped(cfg: Config, argv: seq<string>, orig: seq<string>, kinds: seq<bool>,
      start: nat, first: nat, now: nat)
    requires Split(argv, orig, kinds, start, first, now, now) && now < |argv| && NonOption(argv[now])
    requires kinds[now - start..] == Kinds(cfg, Permute, orig, now, "")
    ensures Split(argv, orig, kinds, start, first, now + 1, now + 1)
    ensures kinds[now + 1 - start..] == Kinds(cfg, Permute, orig, now + 1, "")
    ensures Upcoming(cfg, Permute, orig, now, "") == Upcoming(cfg, Permute, orig, now + 1, "")
  {
    Same(argv, orig, now);
    NonOptionKind(cfg, orig, kinds, start, now);
    SplitSkip(argv, orig, kinds, start, first, now, now + 1);
  }

  lemma {:induction false} Rest(kinds: seq<bool>, k: seq<bool>, p: nat, n: nat)
    requires p <= |kinds| && k == kinds[p..] && k == Repeat(false, n)
    ensures forall j :: p <= j < |kinds| ==> !kinds[j]
  {
    forall j | p <= j < |kinds| ensures !kinds[j] { assert kinds[j] == k[j - p]; }
  }

  /** Handling the element i looks at nothing before it. */
  lemma {:induction false} SameStep(cfg: Config, a: seq<string>, b: seq<string>, i: nat, text: string)
    requires |a| == |b| && i < |a| && a[i..] == b[i..]
    ensures a[i] == b[i]
    ensures text != "" ==>
      ShortStep(Letters(cfg.optstring), a, i, text) == ShortStep(Letters(cfg.optstring), b, i, text)
    ensures !NonOption(a[i]) && a[i] != "--" ==> ElementStep(cfg, a, i) == ElementStep(cfg, b, i)
  {
    Same(a, b, i);
    if !NonOption(a[i]) && a[i] != "--" { SameElement(cfg, a, b, i); }
  }

  lemma {:induction false} Same(a: seq<string>, b: seq<string>, i: nat)
    requires |a| == |b| && i < |a| && a[i..] == b[i..]
    ensures a[i] == b[i] && (i + 1 < |a| ==> a[i + 1] == b[i + 1])
  {
    assert a[i] == a[i..][0] && b[i] == b[i..][0];
    if i + 1 < |a| { assert a[i + 1] == a[i..][1] && b[i + 1] == b[i..][1]; }
  }

  lemma {:induction false} SameLong(cfg: Config, longopts: seq<LongOption>, a: seq<string>, b: seq<string>, i: nat,
      text: string)
    requires |a| == |b| && i < |a| && a[i] == b[i] && (i + 1 < |a| ==> a[i + 1] == b[i + 1])
    requires |a[i]| >= 2 && text != ""
    ensures LongStep(cfg, longopts, a, i, text) == LongStep(cfg, longopts, b, i, text)
  {
  }

  lemma {:induction false} SameElement(cfg: Config, a: seq<string>, b: seq<string>, i: nat)
    requires |a| == |b| && i < |a| && a[i] == b[i] && (i + 1 < |a| ==> a[i + 1] == b[i + 1])
    requires !NonOption(a[i]) && a[i] != "--"
    ensures ElementStep(cfg, a, i) == ElementStep(cfg, b, i)
  {
    if cfg.longopts.Some? {
      SameLong(cfg, cfg.longopts.value, a, b, i, a[i][1..]);
      if a[i][1] == '-' { SameLong(cfg, cfg.longopts.value, a, b, i, a[i][2..]); }
    }
  }

  /** The kinds of what an option takes, and of what comes after it. */
  lemma {:induction false} NextKinds(cfg: Config, ordering: Ordering, orig: seq<string>, kinds: seq<bool>, start: nat,
      now: nat, text: string)
    requires start <= now < |orig| && |kinds| == |orig| - start
    requires kinds[now - start..] == Kinds(cfg, ordering, orig, now, text)
    requires text == "" ==> !NonOption(orig[now]) && orig[now] != "--"
    ensures var o := if text != "" then ShortStep(Letters(cfg.optstring), orig, now, text)
                     else ElementStep(cfg, orig, now);
            (forall j :: now - start <= j < o.next - start ==> kinds[j]) &&
            kinds[o.next - start..] == Kinds(cfg, ordering, orig, o.next, o.text)
  {
    var o := if text != "" then ShortStep(Letters(cfg.optstring), orig, now, text) else ElementStep(cfg, orig, now);
    var k, n := kinds[now - start..], o.next - now;
    var rest := Kinds(cfg, ordering, orig, o.next, o.text);
    assert k == Repeat(true, n) + rest;
    Tail(kinds, k, now - start, n, rest);
  }

  lemma {:induction false} Tail(kinds: seq<bool>, k: seq<bool>, p: nat, n: nat, rest: seq<bool>)
    requires p <= |kinds| && k == kinds[p..] && n <= |k| && k == Repeat(true, n) + rest
    ensures (forall j :: p <= j < p + n ==> kinds[j]) && kinds[p + n..] == rest
  {
    forall j | p <= j < p + n ensures kinds[j] { assert kinds[j] == k[j - p]; }
    assert kinds[p + n..] == k[n..];
  }

  lemma {:induction false} NameEnd(text: string, n: nat)
    requires n <= |text| && '=' !in text[..n] && (n < |text| ==> text[n] == '=')
    ensures n == IndexOf(text, '=')
    decreases n
  {
    if n > 0 {
      assert text[..n][0] == text[0];
      assert text[1..][..n - 1] == text[..n][1..];
      NameEnd(text[1..], n - 1);
    }
  }

  /** The kinds of "--" and of what follows. */
  lemma {:induction false} DashesEnd(cfg: Config, ordering: Ordering, orig: seq<string>, kinds: seq<bool>, start: nat,
      now: nat)
    requires start <= now < |orig| && |kinds| == |orig| - start && orig[now] == "--"
    requires kinds[now - start..] == Kinds(cfg, ordering, orig, now, "")
    ensures kinds[now - start] && NoMoreOptions(kinds, now + 1 - start)
  {
    var k := kinds[now - start..];
    assert k == [true] + Repeat(false, |orig| - now - 1);
    assert k[0] == kinds[now - start];
    forall j | now + 1 - start <= j < |kinds| ensures !kinds[j] {
      assert kinds[j] == k[j - (now - start)];
    }
  }
}
