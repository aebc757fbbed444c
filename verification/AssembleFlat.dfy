/** The flat loop over lines assembles exactly what nested blocks mean. */
module AssembleFlat {
  import opened Wrappers
  import opened AssembleModel
  import opened AssembleTame
  import opened AssembleBlocks

  function NonBlank(lines: seq<Line>): seq<Line> {
    if lines == [] then [] else (if lines[0].op == Blank then [] else [lines[0]]) + NonBlank(lines[1..])
  }

  /** One line within a macro definition. */
  lemma {:induction false} CaptureStep(env: Env, w: World, c: Conds, l: Line, n: nat, d: nat)
    requires c.excluded == 0 && w.level == n + 1 && Deeper(l, n).Some?
    ensures var w1 := Count(w); var m := Deeper(l, n).value + 1;
            Step(env, w, c, l, d) == (if l.op == Blank then w1 else Capture(w1.(level := m), l), c)
  {
    var w1 := Count(w);
    assert w1.(level := n + 1) == w1;
  }

  lemma {:induction false} CaptureAllStep(w: World, lines: seq<Line>, n: nat)
    requires lines != [] && w.level == n + 1 && Deeper(lines[0], n).Some?
    ensures var w1 := Count(w); var m := Deeper(lines[0], n).value + 1;
            var w2 := if lines[0].op == Blank then w1 else Capture(w1.(level := m), lines[0]);
            CaptureAll(w, lines, n + 1) == CaptureAll(w2, lines[1..], m)
  {
    var w1 := Count(w);
    assert w1.(level := n + 1) == w1;
  }

  /** The lines of a macro definition, up to its ENDM, are captured. */
  lemma {:induction false} Captured(env: Env, w: World, c: Conds, lines: seq<Line>, n: nat, rest: seq<Line>, d: nat)
    requires c.excluded == 0 && w.level == n + 1 && After(lines, n) == Some(0)
    ensures Lines(env, w, c, lines + rest, d) == Lines(env, CaptureAll(w, lines, n + 1), c, rest, d)
    ensures CaptureAll(w, lines, n + 1).level == 1
    decreases |lines|
  {
    hide Lines;
    if lines == [] {
      assert lines + rest == rest;
    } else {
      var l := lines[0];
      AfterOne(lines, n);
      CaptureStep(env, w, c, l, n, d);
      CaptureAllStep(w, lines, n);
      assert lines + rest == [l] + (lines[1..] + rest);
      LinesOne(env, w, c, l, lines[1..] + rest, d);
      Captured(env, Step(env, w, c, l, d).0, c, lines[1..], Deeper(l, n).value, rest, d);
    }
  }

  /** A macro definition as a whole. */
  lemma {:induction false} Defined(env: Env, w: World, c: Conds, h: Line, body: seq<Line>, e: Line, rest: seq<Line>,
      d: nat)
    requires c.excluded == 0 && w.level == 0 && h.op.Macro? && Balanced(body) && e.op == Endm
    ensures Lines(env, w, c, [h] + (body + ([e] + rest)), d) == Lines(env, DefineMacro(env, w, h, body), c, rest, d)
  {
    var w1 := BeginMacro(env, Count(w).(level := 1), h.op.name);
    LinesOne(env, w, c, h, body + ([e] + rest), d);
    Captured(env, w1, c, body, 0, [e] + rest, d);
    LinesOne(env, CaptureAll(w1, body, 1), c, e, rest, d);
  }

  /** What a definition of a new macro changes: the macro is there, with exactly the lines between
      MACRO and ENDM that are not blank, nested definitions included. */
  lemma {:induction false} CaptureExact(w: World, lines: seq<Line>, n: nat)
    requires w.level == n + 1 && After(lines, n) == Some(0) && w.defining.Some? && w.defining.value in w.macros
    ensures var m := w.defining.value; var def := w.macros[m]; var w1 := CaptureAll(w, lines, n + 1);
            && w1.macros == w.macros[m := Definition(def.pass, def.lines + NonBlank(lines))]
            && w1.defining == w.defining && w1.stack == w.stack
    decreases |lines|
  {
    var m := w.defining.value;
    var def := w.macros[m];
    if lines == [] {
      assert def.lines + NonBlank(lines) == def.lines;
      assert w.macros[m := def] == w.macros;
    } else {
      var l := lines[0];
      AfterOne(lines, n);
      CaptureAllStep(w, lines, n);
      var k := Deeper(l, n).value;
      var w1 := if l.op == Blank then Count(w) else Capture(Count(w).(level := k + 1), l);
      CaptureExact(w1, lines[1..], k);
      CapturedOnce(w.macros, m, def, l, NonBlank(lines[1..]));
    }
  }

  lemma {:induction false} CapturedOnce(macros: map<string, Definition>, m: string, def: Definition, l: Line,
      rest: seq<Line>)
    ensures macros[m := Definition(def.pass, def.lines + [l])][m := Definition(def.pass, def.lines + [l] + rest)]
         == macros[m := Definition(def.pass, def.lines + ([l] + rest))]
    ensures def.lines + ([] + rest) == def.lines + rest
  {
    assert def.lines + [l] + rest == def.lines + ([l] + rest);
    assert [] + rest == rest;
  }

  lemma {:induction false} DefinesMacro(env: Env, w: World, h: Line, body: seq<Line>)
    requires w.level == 0 && w.defining.None? && h.op.Macro? && h.op.name.Some? && h.op.name.value !in w.macros
        && Balanced(body)
    ensures var w1 := DefineMacro(env, w, h, body);
            && w1.macros == w.macros[h.op.name.value := Definition(env.pass, NonBlank(body))]
            && w1.level == 0 && w1.defining.None? && w1.stack == w.stack
  {
    var m := h.op.name.value;
    var w1 := BeginMacro(env, Count(w).(level := 1), h.op.name);
    CaptureExact(w1, body, 0);
    assert [] + NonBlank(body) == NonBlank(body);
    var def := Definition(env.pass, NonBlank(body));
    assert w.macros[m := Definition(env.pass, [])][m := def] == w.macros[m := def];
  }

  lemma {:induction false} DefinitionBalanced(h: Line, body: seq<Line>, e: Line)
    requires h.op.Macro? && Balanced(body) && e.op == Endm
    ensures Balanced([h] + (body + ([e] + [])))
  {
    var tail := [e] + [];
    assert tail[1..] == [];
    AfterDeeper(body, 0);
    AfterAppend(body, tail, 1);
    assert ([h] + (body + tail))[1..] == body + tail;
  }

  lemma {:induction false} AfterDeeper(lines: seq<Line>, n: nat)
    requires After(lines, n).Some?
    ensures After(lines, n + 1) == Some(After(lines, n).value + 1)
    decreases |lines|
  {
    if lines != [] {
      AfterOne(lines, n);
      AfterOne(lines, n + 1);
      AfterDeeper(lines[1..], Deeper(lines[0], n).value);
    }
  }

  lemma {:induction false} DefineTame(env: Env, w: World, h: Line, body: seq<Line>, e: Line)
    requires FilesBalanced(env) && Tame(w) && w.level == 0 && h.op.Macro? && Balanced(body) && e.op == Endm
    ensures var w1 := DefineMacro(env, w, h, body); Tame(w1) && w1.level == 0 && w1.stack == w.stack
  {
    DefinitionBalanced(h, body, e);
    Defined(env, w, NO_CONDS, h, body, e, [], 0);
    LinesTame(env, w, NO_CONDS, [h] + (body + ([e] + [])), 0, 0);
  }

  /** The number of blocks and items. */
  function Size(p: Items): nat {
    match p
    case End => 1
    case Plain(_, rest) => 1 + Size(rest)
    case Define(_, _, _, rest) => 1 + Size(rest)
    case Block(_, body, others, rest) => 3 + Size(body) + SizeOthers(others) + Size(rest)
  }

  function SizeOthers(o: Others): nat {
    match o
    case EndBlock(_) => 1
    case ElseBranch(_, body, _) => 2 + Size(body)
    case ElsifBranch(_, body, others) => 3 + Size(body) + SizeOthers(others)
  }

  /** The conditions with one more open block: code is excluded from here if x holds. */
  function Inside(c: Conds, s: Cond, x: bool): Conds {
    Conds(c.list + [s], if x then |c.list| + 1 else 0)
  }

  lemma {:induction false} InsideOps(c: Conds, s: Cond, t: Cond, x: bool)
    requires c.excluded == 0
    ensures Push(c, s) == Inside(c, s, false) && Exclude(Inside(c, s, x)) == Inside(c, s, true)
        && Unexclude(Inside(c, s, x)) == Inside(c, s, false)
    ensures SetTop(Inside(c, s, x), t) == Inside(c, t, x) && Top(Inside(c, s, x)) == s
    ensures Inside(c, s, x).list[..|Inside(c, s, x).list| - 1] == c.list && |Inside(c, s, x).list| == |c.list| + 1
    ensures Inside(c, s, x).excluded == (if x then |c.list| + 1 else 0)
  {
  }

  lemma {:induction false} EndifStep(env: Env, w: World, c: Conds, s: Cond, x: bool, l: Line, d: nat)
    requires c.excluded == 0 && w.level == 0 && l.op == Endif
    ensures Step(env, w, Inside(c, s, x), l, d) == (Count(w), c)
  {
    InsideOps(c, s, s, x);
  }

  /** An ELSE or ELSIF after a branch that has been assembled. */
  lemma {:induction false} LaterStep(env: Env, w: World, c: Conds, x: bool, l: Line, d: nat)
    requires c.excluded == 0 && w.level == 0 && (l.op == Else || l.op.Elsif?)
    ensures Step(env, w, Inside(c, Done, x), l, d)
         == (Count(w), Inside(c, if l.op == Else && !x then InElse else Done, true))
  {
    InsideOps(c, Done, InElse, x);
    InsideOps(c, InElse, InElse, x);
  }

  /** Excluded code within a block. */
  lemma {:induction false} ExcludedBody(env: Env, w: World, c: Conds, s: Cond, lines: seq<Line>, rest: seq<Line>,
      d: nat)
    requires w.level == 0 && Nested(lines, 0, s == Done)
    ensures Lines(env, w, Inside(c, s, true), lines + rest, d) ==
            Lines(env, CountAll(w, |lines|), Inside(c, s, true), rest, d)
  {
    var k := Inside(c, s, true);
    Excluded(env, w, k, lines, 0, s == Done, rest, d);
    assert Opened(k, 0) == k;
  }

  lemma {:induction false} FlattenAppend(p: Items, rest: seq<Line>)
    ensures match p
            case End => Flatten(p) + rest == rest
            case Plain(l, next) => Flatten(p) + rest == [l] + (Flatten(next) + rest)
            case Define(h, body, e, next) => Flatten(p) + rest == [h] + (body + ([e] + (Flatten(next) + rest)))
            case Block(l, body, others, next) =>
              Flatten(p) + rest == [l] + (Flatten(body) + (FlattenOthers(others) + (Flatten(next) + rest)))
  {
    match p
    case End =>
    case Plain(l, next) => assert [l] + Flatten(next) + rest == [l] + (Flatten(next) + rest);
    case Define(h, body, e, next) => AppendFour(h, body, [e], Flatten(next), rest);
    case Block(l, body, others, next) => AppendFour(l, Flatten(body), FlattenOthers(others), Flatten(next), rest);
  }

  lemma {:induction false} AppendFour(l: Line, a: seq<Line>, b: seq<Line>, s: seq<Line>, t: seq<Line>)
    ensures [l] + (a + (b + s)) + t == [l] + (a + (b + (s + t)))
  {
  }

  lemma {:induction false} OthersAppend(o: Others, rest: seq<Line>)
    ensures match o
            case EndBlock(e) => FlattenOthers(o) + rest == [e] + rest
            case ElseBranch(l, body, e) => FlattenOthers(o) + rest == [l] + (Flatten(body) + ([e] + rest))
            case ElsifBranch(l, body, others) =>
              FlattenOthers(o) + rest == [l] + (Flatten(body) + (FlattenOthers(others) + rest))
  {
    match o
    case EndBlock(_) =>
    case ElseBranch(l, body, e) => AppendFour(l, Flatten(body), [], [e], rest);
      assert [] + [e] == [e] && [] + ([e] + rest) == [e] + rest;
    case ElsifBranch(l, body, others) => AppendFour(l, Flatten(body), [], FlattenOthers(others), rest);
      assert [] + FlattenOthers(others) == FlattenOthers(others);
      assert [] + (FlattenOthers(others) + rest) == FlattenOthers(others) + rest;
  }

  /** The rest of a block, once a branch has been assembled: it is counted, and no condition is evaluated. */
  lemma {:induction false} SkipRest(env: Env, w: World, c: Conds, x: bool, o: Others, rest: seq<Line>, d: nat)
    requires w.level == 0 && c.excluded == 0 && Closing(o, x)
    ensures Lines(env, w, Inside(c, Done, x), FlattenOthers(o) + rest, d) ==
            Lines(env, CountAll(w, |FlattenOthers(o)|), c, rest, d)
    decreases o
  {
    hide Flatten, FlattenOthers, Lines, Nested;
    OthersAppend(o, rest);
    match o
    case EndBlock(e) =>
      LinesOne(env, w, Inside(c, Done, x), e, rest, d);
      EndifStep(env, w, c, Done, x, e, d);
      assert CountAll(w, 1) == CountAll(Count(w), 0);
    case ElseBranch(l, body, e) =>
      var n, w1, s := |Flatten(body)|, Count(w), if x then Done else InElse;
      LinesOne(env, w, Inside(c, Done, x), l, Flatten(body) + ([e] + rest), d);
      LaterStep(env, w, c, x, l, d);
      ExcludedBody(env, w1, c, s, Flatten(body), [e] + rest, d);
      CountMore(w1, n, 1);
      LinesOne(env, CountAll(w1, n), Inside(c, s, true), e, rest, d);
      EndifStep(env, CountAll(w1, n), c, s, true, e, d);
      assert CountAll(CountAll(w1, n), 1) == CountAll(Count(CountAll(w1, n)), 0);
    case ElsifBranch(l, body, others) =>
      var n, w1 := |Flatten(body)|, Count(w);
      LinesOne(env, w, Inside(c, Done, x), l, Flatten(body) + (FlattenOthers(others) + rest), d);
      LaterStep(env, w, c, x, l, d);
      ExcludedBody(env, w1, c, Done, Flatten(body), FlattenOthers(others) + rest, d);
      CountMore(w1, n, |FlattenOthers(others)|);
      SkipRest(env, CountAll(w1, n), c, true, others, rest, d);
  }

  lemma {:induction false} IfStep(env: Env, w: World, c: Conds, l: Line, d: nat)
    requires c.excluded == 0 && w.level == 0 && l.op == If(true)
    ensures var (w1, b) := Condition(env, Count(w), l);
            Step(env, w, c, l, d) == (w1, if b then Inside(c, Done, false) else Inside(c, Pending, true))
  {
    InsideOps(c, Done, Done, false);
    InsideOps(c, Pending, Pending, false);
  }

  lemma {:induction false} ElsifStep(env: Env, w: World, c: Conds, l: Line, d: nat)
    requires c.excluded == 0 && w.level == 0 && l.op.Elsif?
    ensures var (w1, b) := Condition(env, Count(w), l);
            Step(env, w, Inside(c, Pending, true), l, d)
              == (w1, if b then Inside(c, Done, false) else Inside(c, Pending, true))
  {
    InsideOps(c, Pending, Done, true);
    InsideOps(c, Done, Done, true);
  }

  lemma {:induction false} ElseStep(env: Env, w: World, c: Conds, l: Line, d: nat)
    requires c.excluded == 0 && w.level == 0 && l.op == Else
    ensures Step(env, w, Inside(c, Pending, true), l, d) == (Count(w), Inside(c, InElse, false))
  {
    InsideOps(c, Pending, InElse, true);
    InsideOps(c, InElse, InElse, true);
  }

  lemma {:induction false} PlainStep(env: Env, w: World, c: Conds, l: Line, d: nat)
    requires w.level == 0 && c.excluded == 0 && IsPlain(l.op)
    ensures Step(env, w, c, l, d) == (PlainLine(env, w, l, d), c)
  {
  }

  /** The flat loop refines the nested blocks: the same lines are assembled, the same conditions are
      evaluated, in the same order, and the conditions are as they were. */
  lemma {:induction false} Structured(env: Env, w: World, c: Conds, p: Items, rest: seq<Line>, d: nat)
    requires w.level == 0 && c.excluded == 0 && Proper(env, w, p, d)
    ensures Lines(env, w, c, Flatten(p) + rest, d) == Lines(env, Meaning(env, w, p, d), c, rest, d)
    ensures Meaning(env, w, p, d).level == 0
    decreases Size(p), 0
  {
    FlattenAppend(p, rest);
    match p
    case End =>
    case Plain(l, next) =>
      LinesOne(env, w, c, l, Flatten(next) + rest, d);
      PlainStep(env, w, c, l, d);
      Structured(env, PlainLine(env, w, l, d), c, next, rest, d);
    case Define(h, body, e, next) =>
      Defined(env, w, c, h, body, e, Flatten(next) + rest, d);
      Structured(env, DefineMacro(env, w, h, body), c, next, rest, d);
    case Block(l, body, others, next) =>
      var tail := Flatten(next) + rest;
      LinesOne(env, w, c, l, Flatten(body) + (FlattenOthers(others) + tail), d);
      IfStep(env, w, c, l, d);
      var (w1, b) := Condition(env, Count(w), l);
      StructuredBranch(env, w1, c, b, body, others, tail, d);
      var w2 := if b then CountAll(Meaning(env, w1, body, d), |FlattenOthers(others)|)
                else MeaningOthers(env, CountAll(w1, |Flatten(body)|), others, d);
      Structured(env, w2, c, next, rest, d);
  }

  /** A branch after its condition has been evaluated, and the rest of its block. */
  lemma {:induction false} StructuredBranch(env: Env, w: World, c: Conds, b: bool, body: Items, others: Others,
      rest: seq<Line>, d: nat)
    requires w.level == 0 && c.excluded == 0
    requires if b then Proper(env, w, body, d) && Closing(others, false)
             else Nested(Flatten(body), 0, false) && ProperOthers(env, CountAll(w, |Flatten(body)|), others, d)
    ensures var w2 := if b then CountAll(Meaning(env, w, body, d), |FlattenOthers(others)|)
                      else MeaningOthers(env, CountAll(w, |Flatten(body)|), others, d);
            Lines(env, w, if b then Inside(c, Done, false) else Inside(c, Pending, true),
                  Flatten(body) + (FlattenOthers(others) + rest), d) == Lines(env, w2, c, rest, d)
            && w2.level == 0
    decreases Size(body) + SizeOthers(others), 1
  {
    var tail := FlattenOthers(others) + rest;
    if b {
      var w1 := Meaning(env, w, body, d);
      Structured(env, w, Inside(c, Done, false), body, tail, d);
      SkipRest(env, w1, c, false, others, rest, d);
      CountMore(w1, |FlattenOthers(others)|, 0);
    } else {
      ExcludedBody(env, w, c, Pending, Flatten(body), tail, d);
      CountMore(w, |Flatten(body)|, 0);
      StructuredOthers(env, CountAll(w, |Flatten(body)|), c, others, rest, d);
    }
  }

  lemma {:induction false} StructuredOthers(env: Env, w: World, c: Conds, o: Others, rest: seq<Line>, d: nat)
    requires w.level == 0 && c.excluded == 0 && ProperOthers(env, w, o, d)
    ensures Lines(env, w, Inside(c, Pending, true), FlattenOthers(o) + rest, d) ==
            Lines(env, MeaningOthers(env, w, o, d), c, rest, d)
    ensures MeaningOthers(env, w, o, d).level == 0
    decreases SizeOthers(o), 0
  {
    OthersAppend(o, rest);
    match o
    case EndBlock(e) =>
      LinesOne(env, w, Inside(c, Pending, true), e, rest, d);
      EndifStep(env, w, c, Pending, true, e, d);
    case ElseBranch(l, body, e) =>
      LinesOne(env, w, Inside(c, Pending, true), l, Flatten(body) + ([e] + rest), d);
      ElseStep(env, w, c, l, d);
      Structured(env, Count(w), Inside(c, InElse, false), body, [e] + rest, d);
      var w1 := Meaning(env, Count(w), body, d);
      LinesOne(env, w1, Inside(c, InElse, false), e, rest, d);
      EndifStep(env, w1, c, InElse, false, e, d);
    case ElsifBranch(l, body, others) =>
      var tail := FlattenOthers(others) + rest;
      LinesOne(env, w, Inside(c, Pending, true), l, Flatten(body) + tail, d);
      ElsifStep(env, w, c, l, d);
      var (w1, b) := Condition(env, Count(w), l);
      StructuredBranch(env, w1, c, b, body, others, rest, d);
  }

  /** The assembly of a program of nested blocks. */
  lemma {:induction false} ProgramMeaning(env: Env, w: World, p: Items, d: nat)
    requires w.level == 0 && d > 0 && Proper(env, w, p, d - 1)
    ensures Program(env, w, Flatten(p), d) == Close(Meaning(env, w, p, d - 1), NO_CONDS)
  {
    Structured(env, w, NO_CONDS, p, [], d - 1);
    assert Flatten(p) + [] == Flatten(p);
  }

  /** The events of a macro that expands itself: it stops when programs are too deep. */
  function SelfExpansion(l: Line, d: nat): seq<Event>
    decreases d
  {
    if d == 0 then [Failed(DepthExceeded)] else [Counted, Assembled(l)] + SelfExpansion(l, d - 1)
  }

  /** A macro that expands itself ends, with one expansion for each level of depth, and the stack restored. */
  lemma {:induction false} SelfExpanding(env: Env, w: World, l: Line, d: nat)
    requires w.level == 0 && w.defining.None? && l.op.Call? && l.op.macro in w.macros
        && w.macros[l.op.macro].lines == [l]
    ensures Program(env, w, [l], d) == w.(log := w.log + SelfExpansion(l, d))
    decreases d
  {
    if d > 0 {
      assert [l] + [] == [l];
      LinesOne(env, w, NO_CONDS, l, [], d - 1);
      var w1 := Happen(Count(w), Assembled(l));
      var args := env.args(w1.log, w1.stack, l);
      SelfExpanding(env, w1.(stack := [args] + w1.stack), l, d - 1);
      assert ([args] + w1.stack)[1..] == w1.stack;
      assert w.log + [Counted] + [Assembled(l)] + SelfExpansion(l, d - 1) == w.log + SelfExpansion(l, d);
    }
  }

  lemma {:induction false} BadStep(env: Env, w: World, c: Conds, l: Line, d: nat)
    requires c.excluded == 0 && w.level == 0 && l.op == If(false)
    ensures Step(env, w, c, l, d) == (Fail(Count(w), BadCount), c)
  {
  }

  lemma {:induction false} LooseEndifStep(env: Env, w: World, l: Line, d: nat)
    requires w.level == 0 && l.op == Endif
    ensures Step(env, w, NO_CONDS, l, d) == (Fail(Count(w), WithoutIf), NO_CONDS)
  {
  }

  /** An IF without exactly one argument opens no block: its lines are assembled, and its ENDIF fails. */
  lemma {:induction false} IfWithoutArgument(env: Env, w: World, i: Line, x: Line, e: Line, d: nat)
    requires w.level == 0 && w.defining.None? && i.op == If(false) && x.op == Other && e.op == Endif && d > 0
    ensures Program(env, w, [i, x, e], d).log
         == w.log + [Counted, Failed(BadCount), Counted, Assembled(x), Counted, Failed(WithoutIf)]
  {
    hide Step;
    assert [i, x, e] == [i] + ([x] + ([e] + []));
    LinesOne(env, w, NO_CONDS, i, [x] + ([e] + []), d - 1);
    BadStep(env, w, NO_CONDS, i, d - 1);
    var w1 := Fail(Count(w), BadCount);
    LinesOne(env, w1, NO_CONDS, x, [e] + [], d - 1);
    PlainStep(env, w1, NO_CONDS, x, d - 1);
    var w2 := Happen(Count(w1), Assembled(x));
    LinesOne(env, w2, NO_CONDS, e, [], d - 1);
    LooseEndifStep(env, w2, e, d - 1);
  }

  /** A macro definition with an open IF, within excluded code, swallows the ENDIF of the block: the line
      after the block is not assembled. */
  lemma {:induction false} OpenIfInMacro(env: Env, w: World, i: Line, h: Line, j: Line, m: Line, e: Line, x: Line,
      d: nat)
    requires w.level == 0 && w.defining.None? && d > 0
    requires i.op == If(true) && !Test(env, Count(w), i).1 && h.op.Macro? && j.op == If(true) && m.op == Endm
        && e.op == Endif && x.op == Other
    ensures Program(env, w, [i, h, j, m, e, x], d).log
         == w.log + [Counted, Tested(i, false), Counted, Counted, Counted, Counted, Counted, Failed(Unmatched)]
  {
    hide CountAll;
    assert [i, h, j, m, e, x] == [i] + ([h, j, m, e] + ([x] + []));
    LinesOne(env, w, NO_CONDS, i, [h, j, m, e] + ([x] + []), d - 1);
    IfStep(env, w, NO_CONDS, i, d - 1);
    var w1, c := Test(env, Count(w), i).0, Inside(NO_CONDS, Pending, true);
    assert Opened(c, 0) == c;
    FourNested(h, j, m, e);
    Excluded(env, w1, c, [h, j, m, e], 0, false, [x] + [], d - 1);
    FourCounted(w1);
    LinesOne(env, CountAll(w1, 4), c, x, [], d - 1);
  }

  lemma {:induction false} FourNested(h: Line, j: Line, m: Line, e: Line)
    requires h.op.Macro? && j.op.If? && m.op == Endm && e.op == Endif
    ensures Nested([h, j, m, e], 0, false)
  {
    assert [h, j, m, e][1..] == [j, m, e] && [j, m, e][1..] == [m, e] && [m, e][1..] == [e] && [e][1..] == [];
    assert Nested([e], 1, false);
    assert Nested([m, e], 1, false);
    assert Nested([j, m, e], 0, false);
  }

  lemma {:induction false} FourCounted(w: World)
    ensures CountAll(w, 4) == w.(log := w.log + [Counted, Counted, Counted, Counted])
  {
    var w1 := Count(w);
    var w2 := Count(w1);
    var w3 := Count(w2);
    assert CountAll(w, 4) == CountAll(w1, 3) == CountAll(w2, 2) == CountAll(w3, 1) == CountAll(Count(w3), 0);
  }
}
