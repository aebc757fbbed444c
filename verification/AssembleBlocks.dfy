/** Nested conditional blocks, their meaning, and the flat loop that implements it. */
module AssembleBlocks {
  import opened Wrappers
  import opened AssembleModel
  import opened AssembleTame

  /** A program as nested blocks. */
  datatype Items =
    | End
    | Plain(line: Line, rest: Items)
    | Define(header: Line, body: seq<Line>, endm: Line, rest: Items)
    | Block(ifLine: Line, then_: Items, others: Others, rest: Items)

  /** What comes after the first branch of a block. */
  datatype Others =
    | EndBlock(endif: Line)
    | ElseBranch(elseLine: Line, body: Items, endif: Line)
    | ElsifBranch(elsifLine: Line, body: Items, others: Others)

  function Flatten(p: Items): seq<Line> {
    match p
    case End => []
    case Plain(l, rest) => [l] + Flatten(rest)
    case Define(h, body, e, rest) => [h] + (body + ([e] + Flatten(rest)))
    case Block(l, body, others, rest) => [l] + (Flatten(body) + (FlattenOthers(others) + Flatten(rest)))
  }

  function FlattenOthers(o: Others): seq<Line> {
    match o
    case EndBlock(e) => [e]
    case ElseBranch(l, body, e) => [l] + (Flatten(body) + [e])
    case ElsifBranch(l, body, others) => [l] + (Flatten(body) + FlattenOthers(others))
  }

  /** Conditions that are properly nested within some lines, n deep at the start. If loose, ELSE and
      ELSIF may also stand outside of all blocks. */
  predicate Nested(lines: seq<Line>, n: nat, loose: bool) {
    if lines == [] then n == 0
    else match lines[0].op
      case If(_) => Nested(lines[1..], n + 1, loose)
      case Endif => n > 0 && Nested(lines[1..], n - 1, loose)
      case Else => (n > 0 || loose) && Nested(lines[1..], n, loose)
      case Elsif(_) => (n > 0 || loose) && Nested(lines[1..], n, loose)
      case _ => Nested(lines[1..], n, loose)
  }

  predicate IsPlain(op: Op) {
    op.Blank? || op.Ignored? || op.Include? || op.Call? || op.Other?
  }

  /** Lines of the right kind in their places. Within a block, a macro definition has properly nested
      conditions, since the block may exclude it. */
  predicate WellFormed(p: Items, inside: bool) {
    match p
    case End => true
    case Plain(l, rest) => IsPlain(l.op) && WellFormed(rest, inside)
    case Define(h, body, e, rest) =>
      h.op.Macro? && Balanced(body) && e.op == Endm && (inside ==> Nested(body, 0, false)) && WellFormed(rest, inside)
    case Block(l, body, others, rest) =>
      l.op == If(true) && WellFormed(body, true) && WellFormedOthers(others) && WellFormed(rest, inside)
  }

  predicate WellFormedOthers(o: Others) {
    match o
    case EndBlock(e) => e.op == Endif
    case ElseBranch(l, body, e) => l.op == Else && WellFormed(body, true) && e.op == Endif
    case ElsifBranch(l, body, others) => l.op.Elsif? && WellFormed(body, true) && WellFormedOthers(others)
  }

  /** Lines are counted, and nothing else. */
  function CountAll(w: World, n: nat): World
    decreases n
  {
    if n == 0 then w else CountAll(Count(w), n - 1)
  }

  /** The lines of a macro definition. */
  function CaptureAll(w: World, lines: seq<Line>, level: nat): World
    decreases |lines|
  {
    if lines == [] then w
    else
      var w1 := Count(w);
      match lines[0].op
      case Blank => CaptureAll(w1, lines[1..], level)
      case Macro(_) => CaptureAll(Capture(w1.(level := level + 1), lines[0]), lines[1..], level + 1)
      case Endm =>
        var outer := if level > 0 then level - 1 else 0;
        CaptureAll(Capture(w1.(level := outer), lines[0]), lines[1..], outer)
      case _ => CaptureAll(Capture(w1, lines[0]), lines[1..], level)
  }

  /** The meaning of a line outside of blocks. */
  function PlainLine(env: Env, w: World, l: Line, d: nat): World {
    if l.op == Blank || l.op == Ignored then Count(w) else Normal(env, Count(w), l, d)
  }

  function MacroName(op: Op): Option<string> { if op.Macro? then op.name else None }

  /** The meaning of a macro definition. */
  function DefineMacro(env: Env, w: World, header: Line, body: seq<Line>): World {
    var w1 := CaptureAll(BeginMacro(env, Count(w).(level := 1), MacroName(header.op)), body, 1);
    Count(w1).(level := 0, defining := None)
  }

  /** A condition after IF or ELSIF: with another number of arguments than one, it does not hold. */
  function Condition(env: Env, w: World, l: Line): (World, bool) {
    if l.op == If(true) || l.op == Elsif(true) then Test(env, w, l) else (Fail(w, BadCount), false)
  }

  /** The meaning of nested blocks: the first branch whose condition holds, or else the ELSE branch;
      no later condition is evaluated. */
  function Meaning(env: Env, w: World, p: Items, d: nat): World
    decreases p
  {
    match p
    case End => w
    case Plain(l, rest) => Meaning(env, PlainLine(env, w, l, d), rest, d)
    case Define(h, body, _, rest) => Meaning(env, DefineMacro(env, w, h, body), rest, d)
    case Block(l, body, others, rest) =>
      var (w1, b) := Condition(env, Count(w), l);
      var w2 := if b then CountAll(Meaning(env, w1, body, d), |FlattenOthers(others)|)
                else MeaningOthers(env, CountAll(w1, |Flatten(body)|), others, d);
      Meaning(env, w2, rest, d)
  }

  /** The meaning of the rest of a block none of whose conditions has held so far. */
  function MeaningOthers(env: Env, w: World, o: Others, d: nat): World
    decreases o
  {
    match o
    case EndBlock(_) => Count(w)
    case ElseBranch(_, body, _) => Count(Meaning(env, Count(w), body, d))
    case ElsifBranch(l, body, others) =>
      var (w1, b) := Condition(env, Count(w), l);
      if b then CountAll(Meaning(env, w1, body, d), |FlattenOthers(others)|)
      else MeaningOthers(env, CountAll(w1, |Flatten(body)|), others, d)
  }

  /** The rest of a block that has had its branch: code that has no effect. If excluding, an ELSE or
      ELSIF has been passed since. */
  predicate Closing(o: Others, excluding: bool) {
    match o
    case EndBlock(e) => e.op == Endif
    case ElseBranch(l, body, e) => l.op == Else && Nested(Flatten(body), 0, excluding) && e.op == Endif
    case ElsifBranch(l, body, others) => l.op.Elsif? && Nested(Flatten(body), 0, true) && Closing(others, true)
  }

  /** Lines of the right kind in the places that are reached. What is excluded has no effect, and what
      is assembled leaves no macro definition open. */
  predicate Proper(env: Env, w: World, p: Items, d: nat)
    decreases p
  {
    match p
    case End => true
    case Plain(l, rest) =>
      IsPlain(l.op) && PlainLine(env, w, l, d).level == 0 && Proper(env, PlainLine(env, w, l, d), rest, d)
    case Define(h, body, e, rest) =>
      h.op.Macro? && Balanced(body) && e.op == Endm && Proper(env, DefineMacro(env, w, h, body), rest, d)
    case Block(l, body, others, rest) =>
      l.op == If(true) &&
      var (w1, b) := Condition(env, Count(w), l);
      if b then
        Proper(env, w1, body, d) && Closing(others, false) &&
        Proper(env, CountAll(Meaning(env, w1, body, d), |FlattenOthers(others)|), rest, d)
      else
        var w2 := CountAll(w1, |Flatten(body)|);
        Nested(Flatten(body), 0, false) && ProperOthers(env, w2, others, d) &&
        Proper(env, MeaningOthers(env, w2, others, d), rest, d)
  }

  predicate ProperOthers(env: Env, w: World, o: Others, d: nat)
    decreases o
  {
    match o
    case EndBlock(e) => e.op == Endif
    case ElseBranch(l, body, e) => l.op == Else && Proper(env, Count(w), body, d) && e.op == Endif
    case ElsifBranch(l, body, others) =>
      l.op.Elsif? &&
      var (w1, b) := Condition(env, Count(w), l);
      if b then Proper(env, w1, body, d) && Closing(others, false)
      else Nested(Flatten(body), 0, false) && ProperOthers(env, CountAll(w1, |Flatten(body)|), others, d)
  }

  lemma {:induction false} LinesOne(env: Env, w: World, c: Conds, l: Line, rest: seq<Line>, d: nat)
    ensures Lines(env, w, c, [l] + rest, d) == Lines(env, Step(env, w, c, l, d).0, Step(env, w, c, l, d).1, rest, d)
  {
    assert ([l] + rest)[1..] == rest;
  }

  lemma {:induction false} CountMore(w: World, n: nat, m: nat)
    ensures CountAll(CountAll(w, n), m) == CountAll(w, n + m)
    ensures CountAll(w, n).level == w.level
    decreases n
  {
    if n > 0 { CountMore(Count(w), n - 1, m); }
  }

  /** The conditions opened within excluded code. */
  function Opened(c: Conds, n: nat): Conds {
    Conds(c.list + seq(n, _ => Done), c.excluded)
  }

  /** Code that is excluded by c. If loose, c itself is a block that has had its branch. */
  predicate Excludes(c: Conds, loose: bool) {
    0 < c.excluded <= |c.list| && (loose ==> c.excluded == |c.list| && Top(c) == Done)
  }

  /** The nesting after a line. */
  function Depth(l: Line, n: nat): nat {
    if l.op.If? then n + 1 else if l.op == Endif && n > 0 then n - 1 else n
  }

  /** A line that closes or divides a block that is open already. */
  predicate Leaves(l: Line, n: nat, loose: bool) {
    n == 0 && (l.op == Endif || (!loose && (l.op == Else || l.op.Elsif?)))
  }

  lemma {:induction false} NestedOne(lines: seq<Line>, n: nat, loose: bool)
    requires lines != []
    ensures Nested(lines, n, loose) <==> !Leaves(lines[0], n, loose) && Nested(lines[1..], Depth(lines[0], n), loose)
  {
  }

  /** One line of excluded code. */
  lemma {:induction false} ExcludedStep(env: Env, w: World, c: Conds, l: Line, n: nat, loose: bool, d: nat)
    requires Excludes(c, loose) && w.level == 0 && !Leaves(l, n, loose)
    ensures Step(env, w, Opened(c, n), l, d) == (Count(w), Opened(c, Depth(l, n)))
  {
    if l.op.If? {
      assert Push(Opened(c, n), Done) == Opened(c, n + 1);
    } else if l.op == Endif {
      assert Opened(c, n).list[..|c.list| + n - 1] == Opened(c, n - 1).list;
    } else if n == 0 {
      assert Opened(c, 0) == c;
    }
  }

  /** Excluded code is counted, and nothing else. */
  lemma {:induction false} Excluded(env: Env, w: World, c: Conds, lines: seq<Line>, n: nat, loose: bool,
      rest: seq<Line>, d: nat)
    requires Excludes(c, loose) && w.level == 0 && Nested(lines, n, loose)
    ensures Lines(env, w, Opened(c, n), lines + rest, d) == Lines(env, CountAll(w, |lines|), c, rest, d)
    decreases |lines|
  {
    if lines == [] {
      assert lines + rest == rest && Opened(c, 0) == c;
    } else {
      var l := lines[0];
      assert lines + rest == [l] + (lines[1..] + rest);
      LinesOne(env, w, Opened(c, n), l, lines[1..] + rest, d);
      NestedOne(lines, n, loose);
      ExcludedStep(env, w, c, l, n, loose, d);
      Excluded(env, Count(w), c, lines[1..], Depth(l, n), loose, rest, d);
    }
  }

  lemma {:induction false} NestedAppend(a: seq<Line>, b: seq<Line>, n: nat, m: nat)
    requires Nested(a, n, false) && Nested(b, m, false)
    ensures Nested(a + b, n + m, false)
    decreases |a|
  {
    if a == [] {
      assert a + b == b;
    } else {
      assert (a + b)[1..] == a[1..] + b;
      match a[0].op
      case If(_) => NestedAppend(a[1..], b, n + 1, m);
      case Endif => NestedAppend(a[1..], b, n - 1, m);
      case _ => NestedAppend(a[1..], b, n, m);
    }
  }

  /** The conditions of nested blocks are properly nested. */
  lemma {:induction false} FlattenNested(p: Items)
    requires WellFormed(p, true)
    ensures Nested(Flatten(p), 0, false)
    decreases p
  {
    match p
    case End =>
    case Plain(l, rest) =>
      FlattenNested(rest);
      assert Flatten(p)[1..] == Flatten(rest);
    case Define(h, body, e, rest) =>
      FlattenNested(rest);
      var tail := [e] + Flatten(rest);
      assert tail[1..] == Flatten(rest);
      NestedAppend(body, tail, 0, 0);
      assert Flatten(p)[1..] == body + tail;
    case Block(l, body, others, rest) =>
      FlattenNested(body);
      OthersNested(others);
      FlattenNested(rest);
      NestedAppend(FlattenOthers(others), Flatten(rest), 1, 0);
      NestedAppend(Flatten(body), FlattenOthers(others) + Flatten(rest), 0, 1);
      assert Flatten(p)[1..] == Flatten(body) + (FlattenOthers(others) + Flatten(rest));
  }

  lemma {:induction false} OthersNested(o: Others)
    requires WellFormedOthers(o)
    ensures Nested(FlattenOthers(o), 1, false)
    decreases o
  {
    match o
    case EndBlock(e) => assert FlattenOthers(o)[1..] == [];
    case ElseBranch(l, body, e) =>
      FlattenNested(body);
      assert [e][1..] == [];
      NestedAppend(Flatten(body), [e], 0, 1);
      assert FlattenOthers(o)[1..] == Flatten(body) + [e];
    case ElsifBranch(l, body, others) =>
      FlattenNested(body);
      OthersNested(others);
      NestedAppend(Flatten(body), FlattenOthers(others), 0, 1);
      assert FlattenOthers(o)[1..] == Flatten(body) + FlattenOthers(others);
  }
}
