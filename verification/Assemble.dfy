/** The assembler's loop over the lines of a program, with its global state. */
module Assemble {
  import opened Wrappers
  import opened AssembleModel
  import opened AssembleTame

  class Assembler {
    /** What has happened so far. */
    var log: seq<Event>
    var macros: map<string, Definition>
    var definingMacroLevel: nat
    /** The macro being defined. */
    var definingMacro: Option<string>
    /** The positional variables of the expansions in progress, the innermost first. */
    var interpStack: seq<Args>
    var progDepth: nat
    const maxProgramDepth: nat
    const env: Env

    constructor (maxProgramDepth: nat, env: Env)
      ensures GetWorld() == World([], map[], 0, None, []) && progDepth == 0
      ensures this.maxProgramDepth == maxProgramDepth && this.env == env
    {
      this.maxProgramDepth, this.env := maxProgramDepth, env;
      log, macros, definingMacroLevel, definingMacro, interpStack, progDepth := [], map[], 0, None, [], 0;
    }

    ghost function GetWorld(): World
      reads this
    {
      World(log, macros, definingMacroLevel, definingMacro, interpStack)
    }

    method Report(e: Event)
      modifies `log
      ensures GetWorld() == Happen(old(GetWorld()), e)
    {
      log := log + [e];
    }

    method Error(e: AssembleModel.Error)
      modifies `log
      ensures GetWorld() == Fail(old(GetWorld()), e)
    {
      Report(Failed(e));
    }

    /** MACRO: starts a definition, if the name is new. */
    method PseudoMacro(name: Option<string>)
      modifies `log, `macros, `definingMacro
      ensures GetWorld() == BeginMacro(env, old(GetWorld()), name)
    {
      if name.None? {
        Error(MissingName);
      } else if name.value in macros {
        if macros[name.value].pass == env.pass {
          Error(Redefined(name.value));
        }
      } else {
        macros := macros[name.value := Definition(env.pass, [])];
        definingMacro := name;
      }
    }

    /** Adds a line to the macro being defined. */
    method AddLine(l: Line)
      modifies `macros
      ensures GetWorld() == Capture(old(GetWorld()), l)
    {
      if definingMacro.Some? && definingMacro.value in macros {
        var d := macros[definingMacro.value];
        macros := macros[definingMacro.value := Definition(d.pass, d.lines + [l])];
      }
    }

    /** Deals with a line that belongs to a macro definition; says if it did. */
    method HandleMacro(l: Line, ghost list: seq<Cond>, condExcluded: nat) returns (handled: bool)
      modifies `log, `macros, `definingMacro, `definingMacroLevel
      ensures var w, c := old(GetWorld()), Conds(list, condExcluded);
              if handled then IsMacroLine(w, c, l) && GetWorld() == MacroLine(env, w, c, l)
              else !IsMacroLine(w, c, l) && GetWorld() == w
    {
      if condExcluded == 0 && l.op.Macro? {
        definingMacroLevel := definingMacroLevel + 1;
        if definingMacroLevel == 1 {
          PseudoMacro(l.op.name);
          return true;
        }
      }
      if condExcluded == 0 && l.op == Endm {
        if definingMacroLevel == 0 {
          Error(EndmWithoutMacro);
          return true;
        }
        definingMacroLevel := definingMacroLevel - 1;
        if definingMacroLevel == 0 {
          definingMacro := None;
          return true;
        }
      }
      if definingMacroLevel > 0 {
        AddLine(l);
        return true;
      }
      handled := false;
    }

    /** Evaluates a condition. */
    method Evaluate(l: Line) returns (b: bool)
      modifies `log
      ensures (GetWorld(), b) == Test(env, old(GetWorld()), l)
    {
      b := env.holds(log, interpStack, l);
      Report(Tested(l, b));
    }

    /** Deals with IF, ELSIF, ELSE and ENDIF. */
    method HandleCondition(l: Line, condList: seq<Cond>, condExcluded: nat) returns (list: seq<Cond>, excluded: nat)
      requires IsCondLine(l)
      modifies `log
      ensures (GetWorld(), Conds(list, excluded)) == CondLine(env, old(GetWorld()), Conds(condList, condExcluded), l)
    {
      list, excluded := condList, condExcluded;
      if l.op.If? {
        if excluded == 0 && !l.op.one {
          Error(BadCount);
          return;
        }
        var b := true;
        if excluded == 0 {
          b := Evaluate(l);
        }
        if excluded == 0 && !b {
          list := list + [Pending];
          excluded := |list|;
        } else {
          list := list + [Done];
        }
      } else if l.op.Elsif? {
        if list == [] {
          Error(WithoutIf);
        } else if list[|list| - 1] == InElse {
          Error(RepeatedElse);
        } else if excluded == 0 {
          excluded := |list|;
        } else if excluded == |list| && list[|list| - 1] != Done {
          if !l.op.one {
            Error(BadCount);
            return;
          }
          var b := Evaluate(l);
          if b {
            excluded := 0;
            list := list[|list| - 1 := Done];
          }
        }
      } else if l.op == Else {
        if list == [] {
          Error(WithoutIf);
        } else if list[|list| - 1] == InElse {
          Error(RepeatedElse);
        } else if excluded == |list| {
          if list[|list| - 1] != Done {
            list := list[|list| - 1 := InElse];
            excluded := 0;
          }
        } else if excluded == 0 {
          list := list[|list| - 1 := InElse];
          excluded := |list|;
        }
      } else {
        if list == [] {
          Error(WithoutIf);
          return;
        }
        if excluded == |list| {
          excluded := 0;
        }
        list := list[..|list| - 1];
      }
    }

    /** Assembles a line; macros and included files are assembled in turn. */
    method HandleNormal(l: Line)
      requires progDepth <= maxProgramDepth
      modifies this
      ensures progDepth == old(progDepth)
      ensures GetWorld() == Normal(env, old(GetWorld()), l, maxProgramDepth - progDepth)
      decreases maxProgramDepth - progDepth, 1, 0
    {
      Report(Assembled(l));
      if l.op.Include? {
        if l.op.file.None? {
          Error(BadInclude);
        } else if l.op.file.value in env.files {
          AssembleProg(env.files[l.op.file.value]);
          Report(Returned);
        }
      } else if l.op.Call? {
        if l.op.macro in macros {
          var args := env.args(log, interpStack, l);
          interpStack := [args] + interpStack;
          AssembleProg(macros[l.op.macro].lines);
          if interpStack != [] {
            interpStack := interpStack[1..];
          }
        } else {
          Error(Unknown(l.op.macro));
        }
      }
    }

    /** Deals with one line. */
    method HandleLine(l: Line, condList: seq<Cond>, condExcluded: nat) returns (list: seq<Cond>, excluded: nat)
      requires progDepth <= maxProgramDepth
      modifies this
      ensures progDepth == old(progDepth)
      ensures (GetWorld(), Conds(list, excluded)) == Step(env, old(GetWorld()), Conds(condList, condExcluded), l,
          maxProgramDepth - progDepth)
      decreases maxProgramDepth - progDepth, 2, 0
    {
      list, excluded := condList, condExcluded;
      Report(Counted);
      if l.op == Blank { return; }
      var handled := HandleMacro(l, list, excluded);
      if handled || l.op == Ignored { return; }
      if IsCondLine(l) {
        list, excluded := HandleCondition(l, list, excluded);
        return;
      }
      if excluded != 0 { return; }
      HandleNormal(l);
    }

    /** Assembles a program, unless programs are too deep. The depth of programs is as before. */
    method AssembleProg(lines: seq<Line>)
      requires progDepth <= maxProgramDepth
      modifies this
      ensures progDepth == old(progDepth)
      ensures GetWorld() == Program(env, old(GetWorld()), lines, maxProgramDepth - progDepth)
      ensures interpStack == old(interpStack)
      decreases maxProgramDepth - progDepth, 0, 0
    {
      if progDepth >= maxProgramDepth {
        Error(DepthExceeded);
        return;
      }
      ProgramStack(env, GetWorld(), lines, maxProgramDepth - progDepth);
      progDepth := progDepth + 1;
      var condList: seq<Cond>, condExcluded: nat := [], 0;
      var i := 0;
      while i < |lines|
        invariant i <= |lines| && progDepth == old(progDepth) + 1 <= maxProgramDepth
        invariant Lines(env, GetWorld(), Conds(condList, condExcluded), lines[i..], maxProgramDepth - progDepth)
               == Lines(env, old(GetWorld()), NO_CONDS, lines, maxProgramDepth - progDepth)
      {
        condList, condExcluded := HandleLine(lines[i], condList, condExcluded);
        assert lines[i..][0] == lines[i] && lines[i..][1..] == lines[i + 1..];
        i := i + 1;
      }
      if condList != [] {
        Error(Unmatched);
      }
      if definingMacro.Some? {
        Error(Unfinished);
        definingMacro := None;
      }
      progDepth := progDepth - 1;
    }
  }
}
