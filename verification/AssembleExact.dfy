/** Exactly when code that is excluded has no effect. */
module AssembleExact {
  import opened AssembleModel
  import opened AssembleBlocks

  /** The number of events other than the counting of lines. */
  function NoiseOf(log: seq<Event>): nat {
    if log == [] then 0
    else NoiseOf(log[..|log| - 1]) + (if log[|log| - 1] == Counted then 0 else 1)
  }

  function Noise(w: World): nat { NoiseOf(w.log) }

  lemma {:induction false} HappenNoise(w: World, e: Event)
    ensures Noise(Happen(w, e)) == Noise(w) + (if e == Counted then 0 else 1)
  {
    assert (w.log + [e])[..|w.log|] == w.log;
  }

  lemma {:induction false} CountNoise(w: World, n: nat)
    ensures Noise(CountAll(w, n)) == Noise(w)
    decreases n
  {
    if n > 0 {
      HappenNoise(w, Counted);
      CountNoise(Count(w), n - 1);
    }
  }

  lemma {:induction false} MacroLineNoise(env: Env, w: World, c: Conds, l: Line)
    requires IsMacroLine(w, c, l)
    ensures Noise(MacroLine(env, w, c, l)) >= Noise(w)
  {
    HappenNoise(w, Failed(EndmWithoutMacro));
    HappenNoise(w, Failed(MissingName));
    if l.op.Macro? && l.op.name.Some? {
      HappenNoise(w, Failed(Redefined(l.op.name.value)));
    }
  }

  lemma {:induction false} CondLineNoise(env: Env, w: World, c: Conds, l: Line)
    requires IsCondLine(l)
    ensures var w1 := CondLine(env, w, c, l).0; if |w1.log| > |w.log| then Noise(w1) > Noise(w) else w1 == w
  {
    var w1 := CondLine(env, w, c, l).0;
    var b := env.holds(w.log, w.stack, l);
    HappenNoise(w, Tested(l, b));
    HappenNoise(w, Failed(BadCount));
    HappenNoise(w, Failed(WithoutIf));
    HappenNoise(w, Failed(RepeatedElse));
  }

  lemma {:induction false} CloseNoise(w: World, c: Conds)
    ensures Noise(Close(w, c)) >= Noise(w)
  {
    var w1 := if c.list != [] then Fail(w, Unmatched) else w;
    HappenNoise(w, Failed(Unmatched));
    HappenNoise(w1, Failed(Unfinished));
  }

  /** A line that is assembled makes noise, and nothing takes it back. */
  lemma {:induction false} NormalNoise(env: Env, w: World, l: Line, d: nat)
    ensures Noise(Normal(env, w, l, d)) > Noise(w)
    decreases d, 1, 0
  {
    var w1 := Happen(w, Assembled(l));
    HappenNoise(w, Assembled(l));
    match l.op
    case Include(None) => HappenNoise(w1, Failed(BadInclude));
    case Include(Some(f)) =>
      if f in env.files {
        ProgramNoise(env, w1, env.files[f], d);
        HappenNoise(Program(env, w1, env.files[f], d), Returned);
      }
    case Call(m) =>
      if m in w1.macros {
        var args := env.args(w1.log, w1.stack, l);
        ProgramNoise(env, w1.(stack := [args] + w1.stack), w1.macros[m].lines, d);
      } else {
        HappenNoise(w1, Failed(Unknown(m)));
      }
    case _ =>
  }

  lemma {:induction false} StepNoise(env: Env, w: World, c: Conds, l: Line, d: nat)
    ensures Noise(Step(env, w, c, l, d).0) >= Noise(w)
    decreases d, 2, 0
  {
    var w1 := Count(w);
    HappenNoise(w, Counted);
    if l.op == Blank {
    } else if IsMacroLine(w1, c, l) {
      MacroLineNoise(env, w1, c, l);
    } else if l.op == Ignored {
    } else if IsCondLine(l) {
      CondLineNoise(env, w1, c, l);
    } else if c.excluded == 0 {
      NormalNoise(env, w1, l, d);
    }
  }

  lemma {:induction false} LinesNoise(env: Env, w: World, c: Conds, lines: seq<Line>, d: nat)
    ensures Noise(Lines(env, w, c, lines, d).0) >= Noise(w)
    decreases d, 3, |lines|
  {
    if lines != [] {
      StepNoise(env, w, c, lines[0], d);
      var r := Step(env, w, c, lines[0], d);
      LinesNoise(env, r.0, r.1, lines[1..], d);
    }
  }

  lemma {:induction false} ProgramNoise(env: Env, w: World, lines: seq<Line>, d: nat)
    ensures Noise(Program(env, w, lines, d)) >= Noise(w)
    decreases d, 0, 0
  {
    if d == 0 {
      HappenNoise(w, Failed(DepthExceeded));
    } else {
      var r := Lines(env, w, NO_CONDS, lines, d - 1);
      LinesNoise(env, w, NO_CONDS, lines, d - 1);
      CloseNoise(r.0, r.1);
    }
  }

  /** A block that was open, as number m and excluding code, has been closed, or, if it was pending,
      divided. */
  predicate Left(c: Conds, m: nat, pending: bool) {
    || (c.excluded <= m && (c.excluded == 0 ==> |c.list| <= m))
    || (pending && (|c.list| <= m || c.list[m] != Pending))
  }

  lemma {:induction false} LeftCond(env: Env, w: World, c: Conds, l: Line, m: nat, pending: bool)
    requires Left(c, m, pending) && IsCondLine(l)
    ensures var r := CondLine(env, w, c, l); |r.0.log| > |w.log| || Left(r.1, m, pending)
  {
    match l.op
    case If(_) =>
    case Elsif(_) =>
    case Else =>
    case _ =>
  }

  /** No line brings such a block back without noise. */
  lemma {:induction false} LeftStep(env: Env, w: World, c: Conds, l: Line, m: nat, pending: bool, d: nat)
    requires Left(c, m, pending)
    ensures var r := Step(env, w, c, l, d); Noise(r.0) > Noise(w) || Left(r.1, m, pending)
  {
    hide NoiseOf, Left, CondLine;
    var w1 := Count(w);
    HappenNoise(w, Counted);
    if l.op == Blank {
    } else if IsMacroLine(w1, c, l) {
    } else if l.op == Ignored {
    } else if IsCondLine(l) {
      CondLineNoise(env, w1, c, l);
      LeftCond(env, w1, c, l, m, pending);
    } else if c.excluded == 0 {
      NormalNoise(env, w1, l, d);
    }
  }

  lemma {:induction false} LeftLines(env: Env, w: World, c: Conds, lines: seq<Line>, m: nat, pending: bool, d: nat)
    requires Left(c, m, pending)
    ensures var r := Lines(env, w, c, lines, d); Noise(r.0) > Noise(w) || Left(r.1, m, pending)
    decreases |lines|
  {
    if lines != [] {
      var r := Step(env, w, c, lines[0], d);
      LeftStep(env, w, c, lines[0], m, pending, d);
      StepNoise(env, w, c, lines[0], d);
      if Noise(r.0) > Noise(w) {
        LinesNoise(env, r.0, r.1, lines[1..], d);
      } else {
        LeftLines(env, r.0, r.1, lines[1..], m, pending, d);
      }
    }
  }

  lemma {:induction false} LeavesCond(env: Env, w: World, c: Conds, l: Line)
    requires c.list != [] && c.excluded == |c.list| && Leaves(l, 0, Top(c) == Done)
    ensures var r := CondLine(env, w, c, l);
            |r.0.log| > |w.log| || Left(r.1, |c.list| - 1, Top(c) == Pending)
  {
    match l.op
    case Elsif(_) =>
    case Else =>
    case _ =>
  }

  lemma {:induction false} CondStep(env: Env, w: World, c: Conds, l: Line, d: nat)
    requires w.level == 0 && IsCondLine(l)
    ensures Step(env, w, c, l, d) == CondLine(env, Count(w), c, l)
  {
    hide CondLine;
  }

  /** A line that closes or divides the block that excludes code. */
  lemma {:induction false} LeavesStep(env: Env, w: World, c: Conds, l: Line, d: nat)
    requires w.level == 0 && c.list != [] && c.excluded == |c.list| && Leaves(l, 0, Top(c) == Done)
    ensures var r := Step(env, w, c, l, d); Noise(r.0) > Noise(w) || Left(r.1, |c.list| - 1, Top(c) == Pending)
  {
    hide Step, NoiseOf, Left, CondLine;
    CondStep(env, w, c, l, d);
    LeavesCond(env, Count(w), c, l);
    HappenNoise(w, Counted);
    CondLineNoise(env, Count(w), c, l);
  }

  lemma {:induction false} LeavesLines(env: Env, w: World, c: Conds, l: Line, rest: seq<Line>, d: nat)
    requires w.level == 0 && c.list != [] && c.excluded == |c.list| && Leaves(l, 0, Top(c) == Done)
    ensures var s := Step(env, w, c, l, d); var r := Lines(env, s.0, s.1, rest, d);
            Noise(r.0) > Noise(w) || r.1 != c
  {
    var s := Step(env, w, c, l, d);
    LeavesStep(env, w, c, l, d);
    StepNoise(env, w, c, l, d);
    LinesNoise(env, s.0, s.1, rest, d);
    if Noise(s.0) <= Noise(w) {
      LeftLines(env, s.0, s.1, rest, |c.list| - 1, Top(c) == Pending, d);
    }
  }

  lemma {:induction false} NotNested(env: Env, w: World, c: Conds, lines: seq<Line>, n: nat, d: nat)
    requires w.level == 0 && c.list != [] && c.excluded == |c.list| && !Nested(lines, n, Top(c) == Done)
    ensures var r := Lines(env, w, Opened(c, n), lines, d); Noise(r.0) > Noise(w) || r.1 != c
    decreases |lines|
  {
    var loose := Top(c) == Done;
    if lines == [] {
      assert |Opened(c, n).list| > |c.list|;
    } else {
      var l := lines[0];
      NestedOne(lines, n, loose);
      if Leaves(l, n, loose) {
        assert Opened(c, n) == c;
        LeavesLines(env, w, c, l, lines[1..], d);
      } else {
        ExcludedStep(env, w, c, l, n, loose, d);
        HappenNoise(w, Counted);
        NotNested(env, Count(w), c, lines[1..], Depth(l, n), d);
      }
    }
  }

  /** Excluded code is counted and has no other effect exactly if its conditions are nested properly;
      ELSE and ELSIF may stand outside of its blocks exactly if the block has had its branch and no ELSE. */
  lemma {:induction false} ExcludedExactly(env: Env, w: World, c: Conds, lines: seq<Line>, d: nat)
    requires w.level == 0 && c.list != [] && c.excluded == |c.list|
    ensures Lines(env, w, c, lines, d) == (CountAll(w, |lines|), c) <==> Nested(lines, 0, Top(c) == Done)
  {
    assert Opened(c, 0) == c;
    if Nested(lines, 0, Top(c) == Done) {
      Excluded(env, w, c, lines, 0, Top(c) == Done, [], d);
      assert lines + [] == lines;
    } else {
      NotNested(env, w, c, lines, 0, d);
      CountNoise(w, |lines|);
    }
  }

  /** MACRO, ENDM and lines that are neither conditions do not change the nesting of conditions. */
  lemma {:induction false} NestedAround(h: Line, body: seq<Line>, e: Line, n: nat, loose: bool)
    requires h.op.Macro? && e.op == Endm
    ensures Nested([h] + (body + [e]), n, loose) <==> Nested(body, n, loose)
  {
    assert ([h] + (body + [e]))[1..] == body + [e];
    NestedBefore(body, e, n, loose);
  }

  lemma {:induction false} NestedBefore(body: seq<Line>, e: Line, n: nat, loose: bool)
    requires e.op == Endm
    ensures Nested(body + [e], n, loose) <==> Nested(body, n, loose)
    decreases |body|
  {
    var lines := body + [e];
    NestedOne(lines, n, loose);
    if body == [] {
      assert lines[1..] == [];
    } else {
      assert lines[1..] == body[1..] + [e];
      NestedOne(body, n, loose);
      NestedBefore(body[1..], e, Depth(body[0], n), loose);
    }
  }

  /** A macro definition within excluded code is skipped exactly if the conditions in its body are nested
      properly: the code that looks for the end of the block does not know about definitions. */
  lemma {:induction false} DefinitionExactly(env: Env, w: World, c: Conds, h: Line, body: seq<Line>, e: Line, d: nat)
    requires w.level == 0 && c.list != [] && c.excluded == |c.list| && h.op.Macro? && e.op == Endm
    ensures Lines(env, w, c, [h] + (body + [e]), d) == (CountAll(w, |body| + 2), c)
            <==> Nested(body, 0, Top(c) == Done)
  {
    ExcludedExactly(env, w, c, [h] + (body + [e]), d);
    NestedAround(h, body, e, 0, Top(c) == Done);
  }
}
