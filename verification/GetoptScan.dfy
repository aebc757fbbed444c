/** The scan of the arguments in their original order: which of them are options, and the partition
    that puts options first. */
module GetoptScan {
  import opened Wrappers
  import opened GetoptSpec

  function Finish(p: LongOption, k: nat): Report {
    if p.flag != 0 then Report(0, Some(k), Some((p.flag, p.val))) else Report(p.val, Some(k), None)
  }

  /** The long option text, without its dashes, in the element i; None if it is not one and the
      element is to be taken as short options. */
  function LongStep(cfg: Config, longopts: seq<LongOption>, args: seq<string>, i: nat,
      text: string): (r: Option<Outcome>)
    requires i < |args| && |args[i]| >= 2 && text != ""
    ensures r.Some? ==> i < r.value.next <= |args| && r.value.text == ""
  {
    var letters := Letters(cfg.optstring);
    var n := IndexOf(text, '=');
    match Meaning(longopts, text[..n], cfg.longOnly)
    case Ambiguous => Some(Outcome(Report(INVALID, None, None), None, Some(0), i + 1, ""))
    case Unknown =>
      if !cfg.longOnly || args[i][1] == '-' || IndexOf(letters, text[0]) == |letters| then
        Some(Outcome(Report(INVALID, None, None), None, Some(0), i + 1, ""))
      else None
    case Found(k) =>
      var p := longopts[k];
      if n < |text| then
        if p.hasArg != 0 then Some(Outcome(Finish(p, k), Some(text[n + 1..]), None, i + 1, ""))
        else Some(Outcome(Report(INVALID, None, None), None, Some(p.val), i + 1, ""))
      else if p.hasArg == 1 then
        if i + 1 < |args| then Some(Outcome(Finish(p, k), Some(args[i + 1]), None, i + 2, ""))
        else Some(Outcome(Report(Missing(letters), None, None), None, Some(p.val), i + 1, ""))
      else Some(Outcome(Finish(p, k), None, None, i + 1, ""))
  }

  /** The start of an option element. */
  function ElementStep(cfg: Config, args: seq<string>, i: nat): (r: Outcome)
    requires i < |args| && !NonOption(args[i]) && args[i] != "--"
    ensures i <= r.next <= |args|
    ensures if r.next == i then |r.text| < |args[i]| && r.text != "" else r.text == ""
  {
    var e, letters := args[i], Letters(cfg.optstring);
    if cfg.longopts.Some? && e[1] == '-' then
      match LongStep(cfg, cfg.longopts.value, args, i, e[2..])
      case Some(o) => o
      case None => ShortStep(letters, args, i, e[1..])
    else if cfg.longopts.Some? && cfg.longOnly && (|e| > 2 || IndexOf(letters, e[1]) == |letters|) then
      match LongStep(cfg, cfg.longopts.value, args, i, e[1..])
      case Some(o) => o
      case None => ShortStep(letters, args, i, e[1..])
    else
      ShortStep(letters, args, i, e[1..])
  }

  function Repeat(b: bool, n: nat): (r: seq<bool>)
    ensures |r| == n && forall k :: 0 <= k < n ==> r[k] == b
  {
    seq(n, _ => b)
  }

  function Fuel(args: seq<string>, i: nat, text: string): nat {
    if text == "" && i < |args| then |args[i]| else |text|
  }

  /** For each element from i on, whether it belongs to the options; text is what is left of the
      option characters of the element i. */
  function Kinds(cfg: Config, ordering: Ordering, args: seq<string>, i: nat, text: string): (r: seq<bool>)
    requires i <= |args| && (i == |args| ==> text == "")
    ensures |r| == |args| - i
    decreases |args| - i, Fuel(args, i, text)
  {
    if i == |args| then []
    else if text != "" then
      var o := ShortStep(Letters(cfg.optstring), args, i, text);
      Repeat(true, o.next - i) + Kinds(cfg, ordering, args, o.next, o.text)
    else if NonOption(args[i]) then
      if ordering == RequireOrder then Repeat(false, |args| - i)
      else [ordering == ReturnInOrder] + Kinds(cfg, ordering, args, i + 1, "")
    else if args[i] == "--" then [true] + Repeat(false, |args| - i - 1)
    else
      var o := ElementStep(cfg, args, i);
      Repeat(true, o.next - i) + Kinds(cfg, ordering, args, o.next, o.text)
  }

  /** The elements of one kind, in their order. */
  function Select(s: seq<string>, kinds: seq<bool>, kind: bool): (r: seq<string>)
    requires |s| == |kinds|
    ensures |r| <= |s|
  {
    if s == [] then [] else (if kinds[0] == kind then [s[0]] else []) + Select(s[1..], kinds[1..], kind)
  }

  lemma {:induction false} Associate(a: seq<string>, b: seq<string>, c: seq<string>)
    ensures a + (b + c) == (a + b) + c
  {
  }

  lemma {:induction false} SelectAppend(s: seq<string>, k: seq<bool>, t: seq<string>, l: seq<bool>, kind: bool)
    requires |s| == |k| && |t| == |l|
    ensures Select(s + t, k + l, kind) == Select(s, k, kind) + Select(t, l, kind)
    decreases s
  {
    if s == [] {
      assert s + t == t && k + l == l;
    } else {
      SelectAppend(s[1..], k[1..], t, l, kind);
      assert (s + t)[1..] == s[1..] + t && (k + l)[1..] == k[1..] + l;
      Associate(if k[0] == kind then [s[0]] else [], Select(s[1..], k[1..], kind), Select(t, l, kind));
    }
  }

  lemma {:induction false} SelectSame(s: seq<string>, k: seq<bool>, kind: bool)
    requires |s| == |k| && forall j :: 0 <= j < |k| ==> k[j] == kind
    ensures Select(s, k, kind) == s && Select(s, k, !kind) == []
    decreases s
  {
    if s != [] { SelectSame(s[1..], k[1..], kind); }
  }

  /** Both kinds together are all elements. */
  lemma {:induction false} SelectBoth(s: seq<string>, k: seq<bool>)
    requires |s| == |k|
    ensures multiset(Select(s, k, true) + Select(s, k, false)) == multiset(s)
    ensures |Select(s, k, true)| + |Select(s, k, false)| == |s|
    decreases s
  {
    if s != [] {
      SelectBoth(s[1..], k[1..]);
      assert s == [s[0]] + s[1..];
    }
  }

  /** The arguments with the options first: a stable partition. */
  function Partition(s: seq<string>, kinds: seq<bool>): seq<string>
    requires |s| == |kinds|
  {
    Select(s, kinds, true) + Select(s, kinds, false)
  }

  /** Options first and non-options last already: the order stays. */
  lemma {:induction false} PartitionSame(s: seq<string>, kinds: seq<bool>, n: nat)
    requires |s| == |kinds| && n <= |s|
    requires (forall j :: 0 <= j < n ==> kinds[j]) && (forall j :: n <= j < |s| ==> !kinds[j])
    ensures Partition(s, kinds) == s && |Select(s, kinds, true)| == n
  {
    var a, k, b, l := s[..n], kinds[..n], s[n..], kinds[n..];
    assert s == a + b && kinds == k + l;
    PartitionParts(a, k, b, l);
  }

  lemma {:induction false} PartitionParts(a: seq<string>, k: seq<bool>, b: seq<string>, l: seq<bool>)
    requires |a| == |k| && |b| == |l| && (forall j :: 0 <= j < |k| ==> k[j]) && (forall j :: 0 <= j < |l| ==> !l[j])
    ensures Partition(a + b, k + l) == a + b && Select(a + b, k + l, true) == a
  {
    SelectAppend(a, k, b, l, true);
    SelectAppend(a, k, b, l, false);
    SelectSame(a, k, true);
    SelectSame(b, l, false);
    assert a + [] == a && [] + b == b;
  }

  /** Without permutation, options come before non-options in the arguments themselves. */
  lemma {:induction false} InOrder(cfg: Config, ordering: Ordering, args: seq<string>, i: nat, text: string)
      returns (n: nat)
    requires i <= |args| && (i == |args| ==> text == "") && ordering != Permute
    ensures n <= |args| - i
    ensures forall j :: 0 <= j < n ==> Kinds(cfg, ordering, args, i, text)[j]
    ensures forall j :: n <= j < |args| - i ==> !Kinds(cfg, ordering, args, i, text)[j]
    decreases |args| - i, Fuel(args, i, text)
  {
    if i == |args| {
      n := 0;
    } else if text != "" {
      var o := ShortStep(Letters(cfg.optstring), args, i, text);
      n := InOrder(cfg, ordering, args, o.next, o.text);
      n := n + o.next - i;
    } else if NonOption(args[i]) {
      if ordering == RequireOrder {
        n := 0;
      } else {
        n := InOrder(cfg, ordering, args, i + 1, "");
        n := n + 1;
      }
    } else if args[i] == "--" {
      n := 1;
    } else {
      var o := ElementStep(cfg, args, i);
      n := InOrder(cfg, ordering, args, o.next, o.text);
      n := n + o.next - i;
    }
  }

  /** The partition changes nothing unless arguments are permuted. */
  lemma {:induction false} OrderKept(cfg: Config, ordering: Ordering, args: seq<string>, i: nat)
    requires ordering != Permute && i <= |args|
    ensures Partition(args[i..], Kinds(cfg, ordering, args, i, "")) == args[i..]
  {
    var n := InOrder(cfg, ordering, args, i, "");
    PartitionSame(args[i..], Kinds(cfg, ordering, args, i, ""), n);
  }

  /** The next option that is reported, or None at the end of the scan. */
  function Upcoming(cfg: Config, ordering: Ordering, args: seq<string>, i: nat, text: string): (r: Option<Outcome>)
    requires i <= |args| && (i == |args| ==> text == "")
    ensures r.Some? ==> i <= r.value.next <= |args| && (r.value.next == |args| ==> r.value.text == "")
    ensures r.Some? && r.value.next == i ==> Fuel(args, i, r.value.text) < Fuel(args, i, text)
    decreases |args| - i
  {
    if i == |args| then None
    else if text != "" then Some(ShortStep(Letters(cfg.optstring), args, i, text))
    else if NonOption(args[i]) then
      match ordering
      case Permute => Upcoming(cfg, ordering, args, i + 1, "")
      case RequireOrder => None
      case ReturnInOrder => Some(Outcome(Report(1, None, None), Some(args[i]), None, i + 1, ""))
    else if args[i] == "--" then None
    else Some(ElementStep(cfg, args, i))
  }

  /** The arguments split at first, last and now: the options scanned so far are before first and
      from last on, the non-options from first to last, and what is not scanned is in place. */
  ghost predicate Split(argv: seq<string>, orig: seq<string>, kinds: seq<bool>, start: nat, first: nat, last: nat,
      now: nat) {
    && start <= first <= last <= now <= |argv| == |orig| && |kinds| == |orig| - start
    && argv[..start] == orig[..start] && argv[now..] == orig[now..]
    && argv[start..first] + argv[last..now] == Select(orig[start..now], kinds[..now - start], true)
    && argv[first..last] == Select(orig[start..now], kinds[..now - start], false)
  }

  /** At any time the arguments are a permutation of the original ones. */
  lemma {:induction false} SplitPermutes(argv: seq<string>, orig: seq<string>, kinds: seq<bool>, start: nat, first: nat,
      last: nat, now: nat)
    requires Split(argv, orig, kinds, start, first, last, now)
    ensures multiset(argv) == multiset(orig)
  {
    var y, k := orig[start..now], kinds[..now - start];
    SelectBoth(y, k);
    MiddleSame(argv, start, first, last, now, Select(y, k, true), Select(y, k, false), y);
    PartsSame(argv, orig, start, now);
  }

  lemma {:induction false} PartsSame(a: seq<string>, b: seq<string>, i: nat, j: nat)
    requires i <= j <= |a| == |b| && a[..i] == b[..i] && a[j..] == b[j..] && multiset(a[i..j]) == multiset(b[i..j])
    ensures multiset(a) == multiset(b)
  {
    Rearranged(a[..i], a[i..j], b[i..j], a[j..]);
    assert a == a[..i] + a[i..j] + a[j..];
    assert b == b[..i] + b[i..j] + b[j..];
  }

  lemma {:induction false} Rearranged(p: seq<string>, x: seq<string>, y: seq<string>, q: seq<string>)
    requires multiset(x) == multiset(y)
    ensures multiset(p + x + q) == multiset(p + y + q)
  {
  }

  lemma {:induction false} MiddleSame(s: seq<string>, i: nat, j: nat, k: nat, l: nat, u: seq<string>, v: seq<string>,
      y: seq<string>)
    requires i <= j <= k <= l <= |s| && s[i..j] + s[k..l] == u && s[j..k] == v && multiset(u + v) == multiset(y)
    ensures multiset(s[i..l]) == multiset(y)
  {
    assert s[i..l] == s[i..j] + s[j..k] + s[k..l];
    Together(s[i..j], s[j..k], s[k..l]);
  }

  lemma {:induction false} Together(a: seq<string>, b: seq<string>, c: seq<string>)
    ensures multiset(a + b + c) == multiset((a + c) + b)
  {
  }

  lemma {:induction false} SplitStart(argv: seq<string>, kinds: seq<bool>, start: nat)
    requires start <= |argv| && |kinds| == |argv| - start
    ensures Split(argv, argv, kinds, start, start, start, start) && kinds[start - start..] == kinds
  {
  }

  /** How the selections grow with the elements from now to then, all of one kind. */
  lemma {:induction false} SelectGrows(orig: seq<string>, kinds: seq<bool>, start: nat, now: nat, later: nat,
      kind: bool)
    requires start <= now <= later <= |orig| && |kinds| == |orig| - start
    requires forall j :: now - start <= j < later - start ==> kinds[j] == kind
    ensures Select(orig[start..later], kinds[..later - start], kind) == Select(orig[start..now], kinds[..now - start],
        kind) + orig[now..later]
    ensures Select(orig[start..later], kinds[..later - start], !kind) == Select(orig[start..now], kinds[..now - start],
        !kind)
  {
    var a, k := orig[start..now], kinds[..now - start];
    var b, l := orig[now..later], kinds[now - start..later - start];
    assert orig[start..later] == a + b && kinds[..later - start] == k + l;
    SelectAppend(a, k, b, l, kind);
    SelectAppend(a, k, b, l, !kind);
    SelectSame(b, l, kind);
  }

  /** Options are scanned. */
  lemma {:induction false} SplitTake(argv: seq<string>, orig: seq<string>, kinds: seq<bool>, start: nat, first: nat,
      last: nat, now: nat, later: nat)
    requires Split(argv, orig, kinds, start, first, last, now) && now <= later <= |orig|
    requires forall j :: now - start <= j < later - start ==> kinds[j]
    ensures Split(argv, orig, kinds, start, first, last, later)
  {
    SelectGrows(orig, kinds, start, now, later, true);
    TailSlice(argv, orig, now, later);
    assert argv[last..later] == argv[last..now] + argv[now..later];
  }

  lemma {:induction false} TailSlice(argv: seq<string>, orig: seq<string>, now: nat, later: nat)
    requires now <= later <= |orig| == |argv| && argv[now..] == orig[now..]
    ensures argv[now..later] == orig[now..later] && argv[later..] == orig[later..]
  {
    assert argv[now..later] == argv[now..][..later - now];
    assert orig[now..later] == orig[now..][..later - now];
    assert argv[later..] == argv[now..][later - now..];
    assert orig[later..] == orig[now..][later - now..];
  }

  /** Non-options are scanned, right after the others. */
  lemma {:induction false} SplitSkip(argv: seq<string>, orig: seq<string>, kinds: seq<bool>, start: nat, first: nat,
      now: nat, later: nat)
    requires Split(argv, orig, kinds, start, first, now, now) && now <= later <= |orig|
    requires forall j :: now - start <= j < later - start ==> !kinds[j]
    ensures Split(argv, orig, kinds, start, first, later, later)
  {
    SelectGrows(orig, kinds, start, now, later, false);
    TailSlice(argv, orig, now, later);
    assert argv[first..later] == argv[first..now] + argv[now..later];
  }

  /** No non-options so far. */
  lemma {:induction false} SplitEmpty(argv: seq<string>, orig: seq<string>, kinds: seq<bool>, start: nat, first: nat,
      now: nat)
    requires Split(argv, orig, kinds, start, first, first, now)
    ensures Split(argv, orig, kinds, start, now, now, now)
  {
    assert argv[start..now] == argv[start..first] + argv[first..now];
  }

  /** At the end of the scan the arguments are partitioned. */
  lemma {:induction false} SplitEnd(argv: seq<string>, orig: seq<string>, kinds: seq<bool>, start: nat, first: nat)
    requires Split(argv, orig, kinds, start, first, |orig|, |orig|)
    ensures argv == orig[..start] + Partition(orig[start..], kinds)
    ensures first == start + |Select(orig[start..], kinds, true)|
  {
    assert orig[start..|orig|] == orig[start..] && kinds[..|orig| - start] == kinds;
    assert argv == argv[..start] + argv[start..first] + argv[first..];
  }
}
