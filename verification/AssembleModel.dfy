/** What the assembler does with the lines of a program: macro definitions, conditional assembly,
    and the recursive assembly of macros and included files. */
module AssembleModel {
  import opened Wrappers

  /** The class of a line's opcode. A condition is well-formed if it has exactly one argument. */
  datatype Op =
    | Blank
    | Macro(name: Option<string>)
    | Endm
    | Ignored
    | If(one: bool)
    | Elsif(one: bool)
    | Else
    | Endif
    | Include(file: Option<string>)
    | Call(macro: string)
    | Other

  datatype Line = Line(op: Op, text: string)

  datatype Error = DepthExceeded | EndmWithoutMacro | MissingName | Redefined(name: string) | BadCount | WithoutIf
                 | RepeatedElse | Unmatched | BadInclude | Unknown(name: string) | Unfinished

  /** What happens, in order: a line is counted, assembled, or evaluated as a condition. */
  datatype Event = Counted | Assembled(line: Line) | Tested(line: Line, holds: bool) | Failed(error: Error) | Returned

  /** The arguments of a macro expansion, as positional variables. */
  type Args = seq<int>

  /** The rest of the assembler: files that can be included, conditions, and arguments, which
      may depend on all that happened before. */
  datatype Env = Env(files: map<string, seq<Line>>, holds: (seq<Event>, seq<Args>, Line) -> bool,
                     args: (seq<Event>, seq<Args>, Line) -> Args, pass: nat)

  datatype Definition = Definition(pass: nat, lines: seq<Line>)

  datatype World = World(log: seq<Event>, macros: map<string, Definition>, level: nat, defining: Option<string>,
      stack: seq<Args>)

  datatype Cond = Pending | Done | InElse

  /** The open conditions, the innermost last, and the depth of the one that excludes code, or 0. */
  datatype Conds = Conds(list: seq<Cond>, excluded: nat)

  const NO_CONDS: Conds := Conds([], 0)

  function Happen(w: World, e: Event): World { w.(log := w.log + [e]) }

  function Fail(w: World, e: Error): World { Happen(w, Failed(e)) }

  function Count(w: World): World { Happen(w, Counted) }

  /** A macro definition begins; its lines are kept if it has a new name. */
  function BeginMacro(env: Env, w: World, name: Option<string>): World {
    match name
    case None => Fail(w, MissingName)
    case Some(n) =>
      if n in w.macros then
        if w.macros[n].pass == env.pass then Fail(w, Redefined(n)) else w
      else w.(macros := w.macros[n := Definition(env.pass, [])], defining := Some(n))
  }

  /** A line within a macro definition. */
  function Capture(w: World, l: Line): World {
    if w.defining.Some? && w.defining.value in w.macros then
      var d := w.macros[w.defining.value];
      w.(macros := w.macros[w.defining.value := Definition(d.pass, d.lines + [l])])
    else w
  }

  /** Whether a line is dealt with as part of a macro definition, with conditions c. */
  predicate IsMacroLine(w: World, c: Conds, l: Line) {
    w.level > 0 || (c.excluded == 0 && (l.op.Macro? || l.op == Endm))
  }

  function MacroLine(env: Env, w: World, c: Conds, l: Line): World
    requires IsMacroLine(w, c, l)
  {
    if c.excluded == 0 && l.op.Macro? then
      if w.level == 0 then BeginMacro(env, w.(level := 1), l.op.name)
      else Capture(w.(level := w.level + 1), l)
    else if c.excluded == 0 && l.op == Endm then
      if w.level == 0 then Fail(w, EndmWithoutMacro)
      else if w.level == 1 then w.(level := 0, defining := None)
      else Capture(w.(level := w.level - 1), l)
    else Capture(w, l)
  }

  /** A condition is evaluated. */
  function Test(env: Env, w: World, l: Line): (World, bool) {
    var b := env.holds(w.log, w.stack, l);
    (Happen(w, Tested(l, b)), b)
  }

  predicate IsCondLine(l: Line) {
    l.op.If? || l.op.Elsif? || l.op == Else || l.op == Endif
  }

  function Push(c: Conds, s: Cond): Conds { Conds(c.list + [s], c.excluded) }

  function Top(c: Conds): Cond requires c.list != [] { c.list[|c.list| - 1] }

  function SetTop(c: Conds, s: Cond): Conds requires c.list != [] { Conds(c.list[|c.list| - 1 := s], c.excluded) }

  function Exclude(c: Conds): Conds { Conds(c.list, |c.list|) }

  function Unexclude(c: Conds): Conds { Conds(c.list, 0) }

  function IfLine(env: Env, w: World, c: Conds, l: Line): (World, Conds)
    requires l.op.If?
  {
    if c.excluded != 0 then (w, Push(c, Done))
    else if !l.op.one then (Fail(w, BadCount), c)
    else
      var (w1, b) := Test(env, w, l);
      if b then (w1, Push(c, Done)) else (w1, Exclude(Push(c, Pending)))
  }

  function ElsifLine(env: Env, w: World, c: Conds, l: Line): (World, Conds)
    requires l.op.Elsif?
  {
    if c.list == [] then (Fail(w, WithoutIf), c)
    else if Top(c) == InElse then (Fail(w, RepeatedElse), c)
    else if c.excluded == 0 then (w, Exclude(c))
    else if c.excluded == |c.list| && Top(c) != Done then
      if !l.op.one then (Fail(w, BadCount), c)
      else
        var (w1, b) := Test(env, w, l);
        if b then (w1, Unexclude(SetTop(c, Done))) else (w1, c)
    else (w, c)
  }

  function ElseLine(w: World, c: Conds): (World, Conds) {
    if c.list == [] then (Fail(w, WithoutIf), c)
    else if Top(c) == InElse then (Fail(w, RepeatedElse), c)
    else if c.excluded == |c.list| then
      if Top(c) != Done then (w, Unexclude(SetTop(c, InElse))) else (w, c)
    else if c.excluded == 0 then (w, Exclude(SetTop(c, InElse)))
    else (w, c)
  }

  function EndifLine(w: World, c: Conds): (World, Conds) {
    if c.list == [] then (Fail(w, WithoutIf), c)
    else (w, Conds(c.list[..|c.list| - 1], if c.excluded == |c.list| then 0 else c.excluded))
  }

  function CondLine(env: Env, w: World, c: Conds, l: Line): (World, Conds)
    requires IsCondLine(l)
  {
    match l.op
    case If(_) => IfLine(env, w, c, l)
    case Elsif(_) => ElsifLine(env, w, c, l)
    case Else => ElseLine(w, c)
    case _ => EndifLine(w, c)
  }

  /** A line that is assembled; d is the depth of programs that is left. */
  function Normal(env: Env, w: World, l: Line, d: nat): World
    decreases d, 1, 0
  {
    var w1 := Happen(w, Assembled(l));
    match l.op
    case Include(None) => Fail(w1, BadInclude)
    case Include(Some(f)) =>
      if f in env.files then Happen(Program(env, w1, env.files[f], d), Returned) else w1
    case Call(m) =>
      if m in w1.macros then
        var args := env.args(w1.log, w1.stack, l);
        var w2 := Program(env, w1.(stack := [args] + w1.stack), w1.macros[m].lines, d);
        if w2.stack == [] then w2 else w2.(stack := w2.stack[1..])
      else Fail(w1, Unknown(m))
    case _ => w1
  }

  /** One line of a program. */
  function Step(env: Env, w: World, c: Conds, l: Line, d: nat): (World, Conds)
    decreases d, 2, 0
  {
    var w1 := Count(w);
    if l.op == Blank then (w1, c)
    else if IsMacroLine(w1, c, l) then (MacroLine(env, w1, c, l), c)
    else if l.op == Ignored then (w1, c)
    else if IsCondLine(l) then CondLine(env, w1, c, l)
    else if c.excluded != 0 then (w1, c)
    else (Normal(env, w1, l, d), c)
  }

  function Lines(env: Env, w: World, c: Conds, lines: seq<Line>, d: nat): (World, Conds)
    decreases d, 3, |lines|
  {
    if lines == [] then (w, c)
    else
      var (w1, c1) := Step(env, w, c, lines[0], d);
      Lines(env, w1, c1, lines[1..], d)
  }

  /** The end of a program. */
  function Close(w: World, c: Conds): World {
    var w1 := if c.list != [] then Fail(w, Unmatched) else w;
    if w1.defining.Some? then Fail(w1, Unfinished).(defining := None) else w1
  }

  /** The assembly of a program, with d the depth of programs that is left. */
  function Program(env: Env, w: World, lines: seq<Line>, d: nat): World
    decreases d, 0, 0
  {
    if d == 0 then Fail(w, DepthExceeded)
    else
      var (w1, c) := Lines(env, w, NO_CONDS, lines, d - 1);
      Close(w1, c)
  }
}
