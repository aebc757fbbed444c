/** Macro definitions stay properly nested: a program ends outside of any definition, with the stack of
    positional variables as it was. */
module AssembleTame {
  import opened Wrappers
  import opened AssembleModel

  /** The nesting of macro definitions after some lines; None if there is an ENDM too many. */
  function After(lines: seq<Line>, n: nat): Option<nat> {
    if lines == [] then Some(n)
    else match lines[0].op
      case Macro(_) => After(lines[1..], n + 1)
      case Endm => if n == 0 then None else After(lines[1..], n - 1)
      case _ => After(lines[1..], n)
  }

  /** Each MACRO has its ENDM. */
  predicate Balanced(lines: seq<Line>) {
    After(lines, 0) == Some(0)
  }

  lemma {:induction false} AfterAppend(a: seq<Line>, b: seq<Line>, n: nat)
    requires After(a, n).Some?
    ensures After(a + b, n) == After(b, After(a, n).value)
    decreases a
  {
    if a == [] {
      assert a + b == b;
    } else {
      assert (a + b)[1..] == a[1..] + b;
      match a[0].op
      case Macro(_) => AfterAppend(a[1..], b, n + 1);
      case Endm => AfterAppend(a[1..], b, n - 1);
      case _ => AfterAppend(a[1..], b, n);
    }
  }

  ghost predicate FilesBalanced(env: Env) {
    forall f :: f in env.files ==> Balanced(env.files[f])
  }

  /** All macros are balanced, but for the one being defined, whose definition is level deep. */
  ghost predicate Tame(w: World) {
    && (w.defining.Some? ==> w.level > 0 && w.defining.value in w.macros)
    && forall m :: m in w.macros ==>
      After(w.macros[m].lines, 0) == Some(if w.defining == Some(m) then w.level - 1 else 0)
  }

  /** Nesting goes up and down by one line. */
  function Deeper(l: Line, n: nat): Option<nat> {
    match l.op
    case Macro(_) => Some(n + 1)
    case Endm => if n == 0 then None else Some(n - 1)
    case _ => Some(n)
  }

  lemma {:induction false} AfterOne(lines: seq<Line>, n: nat)
    requires lines != []
    ensures After(lines, n)
         == (if Deeper(lines[0], n).None? then None else After(lines[1..], Deeper(lines[0], n).value))
    ensures After([lines[0]], n) == Deeper(lines[0], n)
  {
    assert [lines[0]][1..] == [];
  }

  lemma {:induction false} CaptureTame(w: World, l: Line, level: nat)
    requires Tame(w) && w.level > 0 && level > 0 && Deeper(l, w.level - 1) == Some(level - 1)
    ensures Tame(Capture(w.(level := level), l))
    ensures Capture(w.(level := level), l).level == level && Capture(w.(level := level), l).stack == w.stack
  {
    if w.defining.Some? {
      var before := w.macros[w.defining.value].lines;
      AfterAppend(before, [l], 0);
      AfterOne([l], w.level - 1);
    }
  }

  lemma {:induction false} MacroLineTame(env: Env, w: World, c: Conds, l: Line, n: nat)
    requires Tame(w) && w.level <= n && Deeper(l, n).Some? && (w.level > 0 ==> c.excluded == 0) && IsMacroLine(w, c, l)
    ensures var w1 := MacroLine(env, w, c, l);
            Tame(w1) && w1.level <= Deeper(l, n).value && w1.stack == w.stack && c.excluded == 0
  {
    if l.op.Macro? {
      if w.level > 0 { CaptureTame(w, l, w.level + 1); }
    } else if l.op == Endm {
      if w.level > 1 { CaptureTame(w, l, w.level - 1); }
    } else {
      CaptureTame(w, l, w.level);
      assert w.(level := w.level) == w;
    }
  }

  /** Two worlds that differ in what has happened only. */
  predicate SameButLog(w: World, w1: World) {
    w1 == w.(log := w1.log)
  }

  lemma {:induction false} CondLineSame(env: Env, w: World, c: Conds, l: Line)
    requires IsCondLine(l)
    ensures SameButLog(w, CondLine(env, w, c, l).0)
  {
  }

  /** What every line, program and so on keeps. */
  predicate Kept(w: World, w1: World, c1: Conds, n: nat) {
    w1.level <= n && (w1.level > 0 ==> c1.excluded == 0) && w1.stack == w.stack
  }

  lemma {:induction false} StepTame(env: Env, w: World, c: Conds, l: Line, n: nat, d: nat)
    requires FilesBalanced(env) && Tame(w) && w.level <= n && Deeper(l, n).Some? && (w.level > 0 ==> c.excluded == 0)
    ensures var r := Step(env, w, c, l, d); Tame(r.0) && Kept(w, r.0, r.1, Deeper(l, n).value)
    decreases d, 2, 0
  {
    var w1 := Count(w);
    if l.op == Blank {
    } else if IsMacroLine(w1, c, l) {
      MacroLineTame(env, w1, c, l, n);
    } else if l.op == Ignored {
    } else if IsCondLine(l) {
      CondLineSame(env, w1, c, l);
    } else if c.excluded == 0 {
      NormalTame(env, w1, l, d);
    }
  }

  lemma {:induction false} NormalTame(env: Env, w: World, l: Line, d: nat)
    requires FilesBalanced(env) && Tame(w) && w.level == 0
    ensures var w1 := Normal(env, w, l, d); Tame(w1) && w1.level == 0 && w1.stack == w.stack
    decreases d, 1, 0
  {
    var w1 := Happen(w, Assembled(l));
    if l.op.Include? && l.op.file.Some? && l.op.file.value in env.files {
      ProgramTame(env, w1, env.files[l.op.file.value], d);
    } else if l.op.Call? && l.op.macro in w1.macros {
      var args := env.args(w1.log, w1.stack, l);
      ProgramTame(env, w1.(stack := [args] + w1.stack), w1.macros[l.op.macro].lines, d);
      assert ([args] + w1.stack)[1..] == w1.stack;
    }
  }

  lemma {:induction false} LinesTame(env: Env, w: World, c: Conds, lines: seq<Line>, n: nat, d: nat)
    requires FilesBalanced(env) && Tame(w) && w.level <= n && After(lines, n) == Some(0)
    requires w.level > 0 ==> c.excluded == 0
    ensures var r := Lines(env, w, c, lines, d); Tame(r.0) && r.0.level == 0 && r.0.stack == w.stack
    decreases d, 3, |lines|
  {
    if lines != [] {
      AfterOne(lines, n);
      StepTame(env, w, c, lines[0], n, d);
      var r := Step(env, w, c, lines[0], d);
      LinesTame(env, r.0, r.1, lines[1..], Deeper(lines[0], n).value, d);
    }
  }

  /** The assembly of a balanced program ends outside of any macro definition, with all macros balanced
      and the stack of positional variables restored. */
  lemma {:induction false} ProgramTame(env: Env, w: World, lines: seq<Line>, d: nat)
    requires FilesBalanced(env) && Tame(w) && w.level == 0 && Balanced(lines)
    ensures var w1 := Program(env, w, lines, d); Tame(w1) && w1.level == 0 && w1.stack == w.stack
    decreases d, 0, 0
  {
    if d > 0 {
      LinesTame(env, w, NO_CONDS, lines, 0, d - 1);
    }
  }

  lemma {:induction false} MacroLineStack(env: Env, w: World, c: Conds, l: Line)
    requires IsMacroLine(w, c, l)
    ensures MacroLine(env, w, c, l).stack == w.stack
  {
  }

  lemma {:induction false} StepStack(env: Env, w: World, c: Conds, l: Line, d: nat)
    ensures Step(env, w, c, l, d).0.stack == w.stack
    decreases d, 2, 0
  {
    var w1 := Count(w);
    if l.op == Blank {
    } else if IsMacroLine(w1, c, l) {
      MacroLineStack(env, w1, c, l);
    } else if l.op == Ignored {
    } else if IsCondLine(l) {
      CondLineSame(env, w1, c, l);
    } else if c.excluded == 0 {
      NormalStack(env, w1, l, d);
    }
  }

  lemma {:induction false} NormalStack(env: Env, w: World, l: Line, d: nat)
    ensures Normal(env, w, l, d).stack == w.stack
    decreases d, 1, 0
  {
    var w1 := Happen(w, Assembled(l));
    if l.op.Include? && l.op.file.Some? && l.op.file.value in env.files {
      ProgramStack(env, w1, env.files[l.op.file.value], d);
    } else if l.op.Call? && l.op.macro in w1.macros {
      var args := env.args(w1.log, w1.stack, l);
      ProgramStack(env, w1.(stack := [args] + w1.stack), w1.macros[l.op.macro].lines, d);
      assert ([args] + w1.stack)[1..] == w1.stack;
    }
  }

  lemma {:induction false} LinesStack(env: Env, w: World, c: Conds, lines: seq<Line>, d: nat)
    ensures Lines(env, w, c, lines, d).0.stack == w.stack
    decreases d, 3, |lines|
  {
    if lines != [] {
      StepStack(env, w, c, lines[0], d);
      var r := Step(env, w, c, lines[0], d);
      LinesStack(env, r.0, r.1, lines[1..], d);
    }
  }

  /** The assembly of any program restores the stack of positional variables. */
  lemma {:induction false} ProgramStack(env: Env, w: World, lines: seq<Line>, d: nat)
    ensures Program(env, w, lines, d).stack == w.stack
    decreases d, 0, 0
  {
    if d > 0 {
      LinesStack(env, w, NO_CONDS, lines, d - 1);
    }
  }
}
