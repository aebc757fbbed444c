/** What macro calls, included files, macro definitions and blocks come down to, event by event. */
module AssembleLaws {
  import opened Wrappers
  import opened AssembleModel
  import opened AssembleTame
  import opened AssembleBlocks
  import opened AssembleFlat

  /** What is seen by a macro that is called by the line l: the evaluated arguments are on top. */
  function Entered(env: Env, w: World, l: Line): World {
    var log := w.log + [Assembled(l)];
    World(log, w.macros, w.level, w.defining, [env.args(log, w.stack, l)] + w.stack)
  }

  /** A call of a macro made of nested blocks is assembled as their meaning, with its arguments on top
      of the positional variables; afterwards these are as before. */
  lemma {:induction false} CallMeaning(env: Env, w: World, l: Line, p: Items, d: nat)
    requires w.level == 0 && d > 0 && l.op.Call? && l.op.macro in w.macros
    requires w.macros[l.op.macro].lines == Flatten(p) && Proper(env, Entered(env, w, l), p, d - 1)
    ensures Normal(env, w, l, d)
         == Close(Meaning(env, Entered(env, w, l), p, d - 1), NO_CONDS).(stack := w.stack)
  {
    var w1 := Entered(env, w, l);
    ProgramMeaning(env, w1, p, d);
    ProgramStack(env, w1, Flatten(p), d);
    assert w1.stack[1..] == w.stack;
  }

  /** An included file of nested blocks is assembled as their meaning. */
  lemma {:induction false} IncludeMeaning(env: Env, w: World, l: Line, p: Items, d: nat)
    requires w.level == 0 && d > 0 && l.op.Include? && l.op.file.Some? && l.op.file.value in env.files
    requires env.files[l.op.file.value] == Flatten(p)
    requires Proper(env, w.(log := w.log + [Assembled(l)]), p, d - 1)
    ensures var w1 := Close(Meaning(env, w.(log := w.log + [Assembled(l)]), p, d - 1), NO_CONDS);
            Normal(env, w, l, d) == w1.(log := w1.log + [Returned])
  {
    ProgramMeaning(env, w.(log := w.log + [Assembled(l)]), p, d);
  }

  /** Calls and inclusions that assemble nothing. */
  lemma {:induction false} NothingEntered(env: Env, w: World, l: Line, d: nat)
    ensures l.op.Call? && l.op.macro !in w.macros ==>
      Normal(env, w, l, d) == w.(log := w.log + [Assembled(l), Failed(Unknown(l.op.macro))])
    ensures l.op.Call? && l.op.macro in w.macros ==>
      Normal(env, w, l, 0) == w.(log := w.log + [Assembled(l), Failed(DepthExceeded)])
    ensures l.op == Include(None) ==> Normal(env, w, l, d) == w.(log := w.log + [Assembled(l), Failed(BadInclude)])
    ensures l.op.Include? && l.op.file.Some? && l.op.file.value !in env.files ==>
      Normal(env, w, l, d) == w.(log := w.log + [Assembled(l)])
    ensures l.op.Include? && l.op.file.Some? && l.op.file.value in env.files ==>
      Normal(env, w, l, 0) == w.(log := w.log + [Assembled(l), Failed(DepthExceeded), Returned])
  {
    var log := w.log + [Assembled(l)];
    assert ([env.args(log, w.stack, l)] + w.stack)[1..] == w.stack;
    if l.op.Call? {
      assert log + [Failed(Unknown(l.op.macro))] == w.log + [Assembled(l), Failed(Unknown(l.op.macro))];
    }
    assert log + [Failed(DepthExceeded)] == w.log + [Assembled(l), Failed(DepthExceeded)];
    assert log + [Failed(BadInclude)] == w.log + [Assembled(l), Failed(BadInclude)];
    assert log + [Failed(DepthExceeded)] + [Returned] == w.log + [Assembled(l), Failed(DepthExceeded), Returned];
  }

  /** A line outside of blocks and definitions. */
  lemma {:induction false} EachLine(env: Env, w: World, l: Line, d: nat)
    requires w.level == 0
    ensures l.op == Blank || l.op == Ignored ==>
      Step(env, w, NO_CONDS, l, d) == (w.(log := w.log + [Counted]), NO_CONDS)
    ensures l.op == Other ==>
      Step(env, w, NO_CONDS, l, d) == (w.(log := w.log + [Counted, Assembled(l)]), NO_CONDS)
    ensures l.op == Endm ==>
      Step(env, w, NO_CONDS, l, d) == (w.(log := w.log + [Counted, Failed(EndmWithoutMacro)]), NO_CONDS)
  {
    assert w.log + [Counted] + [Assembled(l)] == w.log + [Counted, Assembled(l)];
    assert w.log + [Counted] + [Failed(EndmWithoutMacro)] == w.log + [Counted, Failed(EndmWithoutMacro)];
  }

  lemma {:induction false} CountedAll(w: World, n: nat)
    ensures CountAll(w, n) == w.(log := w.log + seq(n, _ => Counted))
    decreases n
  {
    if n > 0 {
      CountedAll(Count(w), n - 1);
      assert w.log + [Counted] + seq(n - 1, _ => Counted) == w.log + seq(n, _ => Counted);
    } else {
      assert w.log + seq(0, _ => Counted) == w.log;
    }
  }

  /** The lines of a definition that defines nothing. */
  lemma {:induction false} CaptureNothing(w: World, lines: seq<Line>, n: nat)
    requires w.level == n + 1 && After(lines, n) == Some(0) && w.defining.None?
    ensures CaptureAll(w, lines, n + 1) == CountAll(w, |lines|).(level := 1)
    decreases |lines|
  {
    if lines == [] {
      assert w.(level := 1) == w;
    } else {
      AfterOne(lines, n);
      CaptureAllStep(w, lines, n);
      var k := Deeper(lines[0], n).value;
      CaptureNothing(Count(w).(level := k + 1), lines[1..], k);
      CountLevel(Count(w), |lines| - 1, k + 1);
    }
  }

  lemma {:induction false} CountLevel(w: World, n: nat, k: nat)
    ensures CountAll(w.(level := k), n) == CountAll(w, n).(level := k)
    decreases n
  {
    if n > 0 { CountLevel(Count(w), n - 1, k); }
  }

  /** What a definition reports if it does not define a new macro: nothing if the macro is known from an
      earlier pass, and otherwise one error, at its header. */
  function Complaint(env: Env, w: World, name: Option<string>): seq<Event> {
    match name
    case None => [Failed(MissingName)]
    case Some(n) => if n in w.macros && w.macros[n].pass == env.pass then [Failed(Redefined(n))] else []
  }

  /** The definition of a macro that is known, or that has no name: no macro changes, and nothing happens but
      the complaint. */
  lemma {:induction false} DefinesNothing(env: Env, w: World, c: Conds, h: Line, body: seq<Line>, e: Line,
      rest: seq<Line>, d: nat)
    requires c.excluded == 0 && w.level == 0 && w.defining.None? && h.op.Macro? && Balanced(body) && e.op == Endm
    requires h.op.name.Some? ==> h.op.name.value in w.macros
    ensures var log := w.log + [Counted] + Complaint(env, w, h.op.name) + seq(|body| + 1, _ => Counted);
            Lines(env, w, c, [h] + (body + ([e] + rest)), d) == Lines(env, w.(log := log), c, rest, d)
  {
    Defined(env, w, c, h, body, e, rest, d);
    var w1 := w.(log := w.log + [Counted] + Complaint(env, w, h.op.name));
    assert w.log + [Counted] + [] == w.log + [Counted];
    assert BeginMacro(env, Count(w).(level := 1), h.op.name) == w1.(level := 1);
    CaptureNothing(w1.(level := 1), body, 0);
    CountLevel(w1, |body|, 1);
    CountedAll(w1, |body|);
    assert w1.log + seq(|body|, _ => Counted) + [Counted] == w1.log + seq(|body| + 1, _ => Counted);
  }

  /** The lines of a definition are counted. */
  lemma {:induction false} CaptureLog(w: World, lines: seq<Line>, n: nat)
    requires w.level == n + 1 && After(lines, n) == Some(0)
    ensures CaptureAll(w, lines, n + 1).log == w.log + seq(|lines|, _ => Counted)
    decreases |lines|
  {
    if lines == [] {
      assert w.log + seq(0, _ => Counted) == w.log;
    } else {
      AfterOne(lines, n);
      CaptureAllStep(w, lines, n);
      var l, k := lines[0], Deeper(lines[0], n).value;
      CaptureLog(if l.op == Blank then Count(w) else Capture(Count(w).(level := k + 1), l), lines[1..], k);
      assert w.log + [Counted] + seq(|lines| - 1, _ => Counted) == w.log + seq(|lines|, _ => Counted);
    }
  }

  /** The definition of a new macro: it is there with its lines, and nothing happens. */
  lemma {:induction false} DefinesNew(env: Env, w: World, c: Conds, h: Line, body: seq<Line>, e: Line,
      rest: seq<Line>, d: nat)
    requires c.excluded == 0 && w.level == 0 && w.defining.None? && h.op.Macro? && Balanced(body) && e.op == Endm
    requires h.op.name.Some? && h.op.name.value !in w.macros
    ensures var w1 := World(w.log + seq(|body| + 2, _ => Counted),
                w.macros[h.op.name.value := Definition(env.pass, NonBlank(body))], 0, None, w.stack);
            Lines(env, w, c, [h] + (body + ([e] + rest)), d) == Lines(env, w1, c, rest, d)
  {
    Defined(env, w, c, h, body, e, rest, d);
    DefinesMacro(env, w, h, body);
    CaptureLog(BeginMacro(env, Count(w).(level := 1), h.op.name), body, 0);
    assert w.log + [Counted] + seq(|body|, _ => Counted) + [Counted] == w.log + seq(|body| + 2, _ => Counted);
  }

  /** A definition without its ENDM: the program ends with an error, and the macro has the lines so far. */
  lemma {:induction false} Unended(env: Env, w: World, h: Line, body: seq<Line>, d: nat)
    requires w.level == 0 && w.defining.None? && h.op.Macro? && Balanced(body) && d > 0
    requires h.op.name.Some? && h.op.name.value !in w.macros
    ensures Program(env, w, [h] + body, d)
         == World(w.log + seq(|body| + 1, _ => Counted) + [Failed(Unfinished)],
                  w.macros[h.op.name.value := Definition(env.pass, NonBlank(body))], 1, None, w.stack)
  {
    var w1 := BeginMacro(env, Count(w).(level := 1), h.op.name);
    LinesOne(env, w, NO_CONDS, h, body, d - 1);
    Captured(env, w1, NO_CONDS, body, 0, [], d - 1);
    assert body + [] == body;
    DefinesMacro(env, w, h, body);
    CaptureExact(w1, body, 0);
    CaptureLog(w1, body, 0);
    assert w.log + [Counted] + seq(|body|, _ => Counted) == w.log + seq(|body| + 1, _ => Counted);
  }

  /** ELSE and ELSIF within a block are an error exactly if the block is in its ELSE. An ELSE that comes after the
      branch taken and an ELSIF is not recorded. */
  lemma {:induction false} RepeatedDivider(env: Env, w: World, c: Conds, l: Line, d: nat)
    requires w.level == 0 && c.list != [] && (l.op == Else || l.op.Elsif?)
    ensures var s := Step(env, w, c, l, d);
            && (s.0.log == w.log + [Counted, Failed(RepeatedElse)] <==> c.list[|c.list| - 1] == InElse)
            && (c.list[|c.list| - 1] == InElse ==>
                  s == (w.(log := w.log + [Counted, Failed(RepeatedElse)]), c))
  {
    var n, s := |w.log|, Step(env, w, c, l, d);
    assert w.log + [Counted] + [Failed(RepeatedElse)] == w.log + [Counted, Failed(RepeatedElse)];
    assert (w.log + [Counted, Failed(RepeatedElse)])[n + 1] == Failed(RepeatedElse);
    assert c.list[|c.list| - 1] != InElse ==> |s.0.log| == n + 1 || s.0.log[n + 1] != Failed(RepeatedElse);
  }

  /** ELSE, ELSIF and ENDIF without a block. */
  lemma {:induction false} LooseDivider(env: Env, w: World, l: Line, d: nat)
    requires w.level == 0 && (l.op == Else || l.op.Elsif? || l.op == Endif)
    ensures Step(env, w, NO_CONDS, l, d) == (w.(log := w.log + [Counted, Failed(WithoutIf)]), NO_CONDS)
  {
    assert w.log + [Counted] + [Failed(WithoutIf)] == w.log + [Counted, Failed(WithoutIf)];
  }

  /** A second condition with another number of arguments than one, where no branch has been taken: an error,
      and code stays excluded. */
  lemma {:induction false} BadElsif(env: Env, w: World, c: Conds, l: Line, d: nat)
    requires w.level == 0 && c.list != [] && c.list[|c.list| - 1] == Pending && c.excluded == |c.list|
    requires l.op == Elsif(false)
    ensures Step(env, w, c, l, d) == (w.(log := w.log + [Counted, Failed(BadCount)]), c)
  {
    assert w.log + [Counted] + [Failed(BadCount)] == w.log + [Counted, Failed(BadCount)];
  }

  /** What a block with one line in each of its three branches reports: a condition sees all that
      happened before and the positional variables, and the first one that holds decides. */
  function Chosen(env: Env, log: seq<Event>, stack: seq<Args>, i: Line, x: Line, j: Line, y: Line, z: Line): seq<Event>
  {
    var first := log + [Counted];
    if env.holds(first, stack, i) then
      first + [Tested(i, true), Counted, Assembled(x), Counted, Counted, Counted, Counted, Counted]
    else
      var second := first + [Tested(i, false), Counted, Counted];
      if env.holds(second, stack, j) then
        second + [Tested(j, true), Counted, Assembled(y), Counted, Counted, Counted]
      else
        second + [Tested(j, false), Counted, Counted, Counted, Assembled(z), Counted]
  }

  lemma {:induction false} OneLine(x: Line)
    ensures Flatten(Plain(x, End)) == [x]
  {
    assert Flatten(End) == [];
  }

  lemma {:induction false} PlainMeaning(env: Env, w: World, x: Line, d: nat)
    requires w.level == 0 && x.op == Other
    ensures Meaning(env, w, Plain(x, End), d) == w.(log := w.log + [Counted, Assembled(x)])
    ensures Proper(env, w, Plain(x, End), d) && Flatten(Plain(x, End)) == [x] && Nested([x], 0, false)
    ensures Nested([x], 0, true)
  {
    assert w.log + [Counted] + [Assembled(x)] == w.log + [Counted, Assembled(x)];
    assert [x][1..] == [] && [x] + [] == [x];
  }

  /** The ELSIF part of the block. */
  lemma {:induction false} OthersChosen(env: Env, w: World, j: Line, y: Line, k: Line, z: Line, e: Line, d: nat)
    requires w.level == 0 && j.op == Elsif(true) && k.op == Else && e.op == Endif && y.op == Other && z.op == Other
    ensures var o := ElsifBranch(j, Plain(y, End), ElseBranch(k, Plain(z, End), e));
            var log := w.log + [Counted];
            && ProperOthers(env, w, o, d)
            && MeaningOthers(env, w, o, d) == w.(log :=
                  if env.holds(log, w.stack, j) then
                    log + [Tested(j, true), Counted, Assembled(y), Counted, Counted, Counted]
                  else log + [Tested(j, false), Counted, Counted, Counted, Assembled(z), Counted])
  {
    var last := ElseBranch(k, Plain(z, End), e);
    var log := w.log + [Counted];
    var b := env.holds(log, w.stack, j);
    var w1 := w.(log := log + [Tested(j, b)]);
    BlockLines(j, y, j, y, k, z, e);
    assert |FlattenOthers(last)| == 3;
    PlainMeaning(env, w, y, d);
    PlainMeaning(env, w, z, d);
    if b {
      PlainMeaning(env, w1, y, d);
      CountedAll(w1.(log := w1.log + [Counted, Assembled(y)]), 3);
      assert seq(3, _ => Counted) == [Counted, Counted, Counted];
      assert w1.log + [Counted, Assembled(y)] + [Counted, Counted, Counted]
          == log + [Tested(j, true), Counted, Assembled(y), Counted, Counted, Counted];
    } else {
      CountedAll(w1, 1);
      assert seq(1, _ => Counted) == [Counted];
      var w2 := w1.(log := w1.log + [Counted]);
      PlainMeaning(env, Count(w2), z, d);
      assert w2.log + [Counted] + [Counted, Assembled(z)] + [Counted]
          == log + [Tested(j, false), Counted, Counted, Counted, Assembled(z), Counted];
    }
  }

  /** A program of one such block. */
  lemma {:induction false} BlockChosen(env: Env, w: World, i: Line, x: Line, j: Line, y: Line, k: Line, z: Line,
      e: Line, d: nat)
    requires w.level == 0 && w.defining.None? && d > 0
    requires i.op == If(true) && j.op == Elsif(true) && k.op == Else && e.op == Endif
    requires x.op == Other && y.op == Other && z.op == Other
    ensures Program(env, w, [i, x, j, y, k, z, e], d) == w.(log := Chosen(env, w.log, w.stack, i, x, j, y, z))
  {
    var others := ElsifBranch(j, Plain(y, End), ElseBranch(k, Plain(z, End), e));
    var p := Block(i, Plain(x, End), others, End);
    BlockLines(i, x, j, y, k, z, e);
    var log := w.log + [Counted];
    var b := env.holds(log, w.stack, i);
    var w1 := w.(log := log + [Tested(i, b)]);
    PlainMeaning(env, w1, x, d - 1);
    if b {
      CountedAll(w1.(log := w1.log + [Counted, Assembled(x)]), 5);
      assert seq(5, _ => Counted) == [Counted, Counted, Counted, Counted, Counted];
      assert w1.log + [Counted, Assembled(x)] + [Counted, Counted, Counted, Counted, Counted]
          == log + [Tested(i, true), Counted, Assembled(x), Counted, Counted, Counted, Counted, Counted];
      RestClosing(j, y, k, z, e);
    } else {
      CountedAll(w1, 1);
      assert seq(1, _ => Counted) == [Counted];
      assert w1.log + [Counted] + [Counted] == log + [Tested(i, false), Counted, Counted];
      OthersChosen(env, w1.(log := w1.log + [Counted]), j, y, k, z, e, d - 1);
    }
    ProgramMeaning(env, w, p, d);
  }

  lemma {:induction false} BlockLines(i: Line, x: Line, j: Line, y: Line, k: Line, z: Line, e: Line)
    ensures var others := ElsifBranch(j, Plain(y, End), ElseBranch(k, Plain(z, End), e));
            && Flatten(Block(i, Plain(x, End), others, End)) == [i, x, j, y, k, z, e]
            && FlattenOthers(others) == [j, y, k, z, e] && Flatten(Plain(x, End)) == [x]
            && FlattenOthers(others.others) == [k, z, e]
  {
    OneLine(x);
    OneLine(y);
    OneLine(z);
    assert FlattenOthers(ElseBranch(k, Plain(z, End), e)) == [k, z, e];
  }

  lemma {:induction false} RestClosing(j: Line, y: Line, k: Line, z: Line, e: Line)
    requires j.op.Elsif? && k.op == Else && e.op == Endif && y.op == Other && z.op == Other
    ensures Closing(ElsifBranch(j, Plain(y, End), ElseBranch(k, Plain(z, End), e)), false)
  {
    OneLine(y);
    OneLine(z);
    assert [y][1..] == [] && [z][1..] == [];
  }

  lemma {:induction false} IfLines(i: Line, x: Line, e: Line)
    ensures Flatten(Plain(x, End)) == [x] && Flatten(Block(i, Plain(x, End), EndBlock(e), End)) == [i, x, e]
    ensures FlattenOthers(EndBlock(e)) == [e]
  {
    var body, others := Plain(x, End), EndBlock(e);
    OneLine(x);
    assert Flatten(Block(i, body, others, End)) == [i] + (Flatten(body) + (FlattenOthers(others) + Flatten(End)));
  }

  /** A call of a macro with an IF: its condition sees the arguments of the call on top of the positional
      variables. */
  lemma {:induction false} CallTests(env: Env, w: World, l: Line, i: Line, x: Line, e: Line, d: nat)
    requires w.level == 0 && w.defining.None? && d > 0 && l.op.Call? && l.op.macro in w.macros
    requires w.macros[l.op.macro].lines == [i, x, e] && i.op == If(true) && x.op == Other && e.op == Endif
    ensures var log := w.log + [Assembled(l), Counted];
            var args := env.args(w.log + [Assembled(l)], w.stack, l);
            Normal(env, w, l, d) == w.(log :=
              if env.holds(log, [args] + w.stack, i) then log + [Tested(i, true), Counted, Assembled(x), Counted]
              else log + [Tested(i, false), Counted, Counted])
  {
    var p := Block(i, Plain(x, End), EndBlock(e), End);
    var w1 := Entered(env, w, l);
    var log := w1.log + [Counted];
    assert log == w.log + [Assembled(l), Counted];
    var b := env.holds(log, w1.stack, i);
    var w2 := w1.(log := log + [Tested(i, b)]);
    IfLines(i, x, e);
    PlainMeaning(env, w2, x, d - 1);
    if b {
      CountedAll(w2.(log := w2.log + [Counted, Assembled(x)]), 1);
      assert seq(1, _ => Counted) == [Counted];
      assert w2.log + [Counted, Assembled(x)] + [Counted] == log + [Tested(i, true), Counted, Assembled(x), Counted];
    } else {
      CountedAll(w2, 1);
      assert seq(1, _ => Counted) == [Counted];
      assert w2.log + [Counted] + [Counted] == log + [Tested(i, false), Counted, Counted];
    }
    CallMeaning(env, w, l, p, d);
  }
}
