/** Blocks that are well-formed wherever they are used, and blocks whose IF is not. */
module AssembleProper {
  import opened AssembleModel
  import opened AssembleTame
  import opened AssembleBlocks
  import opened AssembleFlat

  lemma {:induction false} NestedLoosen(lines: seq<Line>, n: nat)
    requires Nested(lines, n, false)
    ensures Nested(lines, n, true)
    decreases |lines|
  {
    if lines != [] {
      NestedOne(lines, n, false);
      NestedOne(lines, n, true);
      NestedLoosen(lines[1..], Depth(lines[0], n));
    }
  }

  lemma {:induction false} OthersClosing(o: Others, excluding: bool)
    requires WellFormedOthers(o)
    ensures Closing(o, excluding)
    decreases o
  {
    match o
    case EndBlock(_) =>
    case ElseBranch(_, body, _) =>
      FlattenNested(body);
      NestedLoosen(Flatten(body), 0);
    case ElsifBranch(_, body, others) =>
      FlattenNested(body);
      NestedLoosen(Flatten(body), 0);
      OthersClosing(others, true);
  }

  /** What holds between the items of a program. */
  ghost predicate Ready(env: Env, w: World) {
    FilesBalanced(env) && Tame(w) && w.level == 0
  }

  lemma {:induction false} CountReady(env: Env, w: World, n: nat)
    requires Ready(env, w)
    ensures Ready(env, CountAll(w, n))
    decreases n
  {
    if n > 0 { CountReady(env, Count(w), n - 1); }
  }

  lemma {:induction false} PlainReady(env: Env, w: World, l: Line, d: nat)
    requires Ready(env, w)
    ensures Ready(env, PlainLine(env, w, l, d))
  {
    NormalTame(env, Count(w), l, d);
  }

  lemma {:induction false} ConditionReady(env: Env, w: World, l: Line)
    requires Ready(env, w)
    ensures Ready(env, Condition(env, Count(w), l).0)
  {
  }

  /** Well-formed blocks are proper in every world: whichever conditions hold, and whatever the macros
      and files contain, as long as their macro definitions are balanced. */
  lemma {:induction false} WellFormedProper(env: Env, w: World, p: Items, inside: bool, d: nat)
    requires Ready(env, w) && WellFormed(p, inside)
    ensures Proper(env, w, p, d) && Ready(env, Meaning(env, w, p, d))
    decreases Size(p), 0
  {
    match p
    case End =>
    case Plain(l, rest) =>
      PlainReady(env, w, l, d);
      WellFormedProper(env, PlainLine(env, w, l, d), rest, inside, d);
    case Define(h, body, e, rest) =>
      DefineTame(env, w, h, body, e);
      WellFormedProper(env, DefineMacro(env, w, h, body), rest, inside, d);
    case Block(l, body, others, rest) =>
      ConditionReady(env, w, l);
      var (w1, b) := Condition(env, Count(w), l);
      BranchProper(env, w1, b, body, others, d);
      var w2 := if b then CountAll(Meaning(env, w1, body, d), |FlattenOthers(others)|)
                else MeaningOthers(env, CountAll(w1, |Flatten(body)|), others, d);
      WellFormedProper(env, w2, rest, inside, d);
  }

  lemma {:induction false} BranchProper(env: Env, w: World, b: bool, body: Items, others: Others, d: nat)
    requires Ready(env, w) && WellFormed(body, true) && WellFormedOthers(others)
    ensures if b then
              Proper(env, w, body, d) && Closing(others, false) &&
              Ready(env, CountAll(Meaning(env, w, body, d), |FlattenOthers(others)|))
            else
              var w1 := CountAll(w, |Flatten(body)|);
              Nested(Flatten(body), 0, false) && ProperOthers(env, w1, others, d) &&
              Ready(env, MeaningOthers(env, w1, others, d))
    decreases Size(body) + SizeOthers(others), 1
  {
    if b {
      WellFormedProper(env, w, body, true, d);
      OthersClosing(others, false);
      CountReady(env, Meaning(env, w, body, d), |FlattenOthers(others)|);
    } else {
      FlattenNested(body);
      CountReady(env, w, |Flatten(body)|);
      OthersProper(env, CountAll(w, |Flatten(body)|), others, d);
    }
  }

  lemma {:induction false} OthersProper(env: Env, w: World, o: Others, d: nat)
    requires Ready(env, w) && WellFormedOthers(o)
    ensures ProperOthers(env, w, o, d) && Ready(env, MeaningOthers(env, w, o, d))
    decreases SizeOthers(o), 0
  {
    match o
    case EndBlock(_) =>
    case ElseBranch(_, body, _) => WellFormedProper(env, Count(w), body, true, d);
    case ElsifBranch(l, body, others) =>
      ConditionReady(env, w, l);
      var (w1, b) := Condition(env, Count(w), l);
      BranchProper(env, w1, b, body, others, d);
  }

  /** An IF opens a block exactly if it has one argument or is excluded itself. */
  lemma {:induction false} HeaderOpens(env: Env, w: World, c: Conds, l: Line, d: nat)
    requires w.level == 0 && l.op.If?
    ensures var c1 := Step(env, w, c, l, d).1;
            (|c1.list| == |c.list| + 1 <==> l.op.one || c.excluded != 0) && (c1 == c <==> |c1.list| == |c.list|)
  {
  }

  predicate IsDivider(l: Line) { l.op == Endif || l.op == Else || l.op.Elsif? }

  lemma {:induction false} FailuresDiffer(w: World)
    ensures Fail(w, WithoutIf) != Fail(w, RepeatedElse) && Fail(w, WithoutIf) != w && Fail(w, RepeatedElse) != w
  {
    assert Fail(w, WithoutIf).log[|w.log|] != Fail(w, RepeatedElse).log[|w.log|];
    assert |Fail(w, WithoutIf).log| > |w.log| && |Fail(w, RepeatedElse).log| > |w.log|;
  }

  /** The line that should continue or end a block that was not opened: it fails if there is no enclosing
      block, and otherwise continues or ends that one. */
  lemma {:induction false} Intrudes(env: Env, w: World, c: Conds, l: Line, d: nat)
    requires w.level == 0 && c.excluded == 0 && IsDivider(l)
    ensures var s := Step(env, w, c, l, d);
            && (s.0 == Fail(Count(w), WithoutIf) <==> c.list == [])
            && (s.1 != c <==> c.list != [] && (l.op == Endif || Top(c) != InElse))
            && (s.1 != c <==> s.0 == Count(w))
            && (s.1 != c && l.op == Endif ==> s.1 == Conds(c.list[..|c.list| - 1], 0))
            && (s.1 != c && l.op != Endif ==>
                s.1 == Conds(c.list[..|c.list| - 1] + [if l.op == Else then InElse else Top(c)], |c.list|))
  {
    FailuresDiffer(Count(w));
    if c.list != [] {
      var n := |c.list|;
      assert c.list == c.list[..n - 1] + [Top(c)];
      assert c.list[n - 1 := InElse] == c.list[..n - 1] + [InElse];
    }
  }

  lemma {:induction false} FirstLine(o: seq<Line>, rest: seq<Line>)
    requires o != []
    ensures o + (Flatten(End) + rest) == [o[0]] + (o[1..] + rest)
  {
    assert Flatten(End) == [];
  }

  lemma {:induction false} BlockAppend(i: Line, body: Items, others: Others, rest: seq<Line>)
    ensures Flatten(Block(i, body, others, End)) + rest
         == [i] + (Flatten(body) + ([FlattenOthers(others)[0]] + (FlattenOthers(others)[1..] + rest)))
  {
    FlattenAppend(Block(i, body, others, End), rest);
    FirstLine(FlattenOthers(others), rest);
  }

  /** A block whose IF has not exactly one argument, where code is not excluded: the first branch is
      assembled as part of the enclosing block, and the line after it acts on the enclosing block. */
  lemma {:induction false} BadBlock(env: Env, w: World, c: Conds, i: Line, body: Items, others: Others,
      rest: seq<Line>, d: nat)
    requires w.level == 0 && c.excluded == 0 && i.op == If(false)
    requires Proper(env, Fail(Count(w), BadCount), body, d) && IsDivider(FlattenOthers(others)[0])
    ensures var l := FlattenOthers(others)[0];
            var w1 := Meaning(env, Fail(Count(w), BadCount), body, d);
            var s := Step(env, w1, c, l, d);
            && Lines(env, w, c, Flatten(Block(i, body, others, End)) + rest, d)
               == Lines(env, s.0, s.1, FlattenOthers(others)[1..] + rest, d)
            && (s.0 == Fail(Count(w1), WithoutIf) <==> c.list == [])
            && (s.1 != c <==> c.list != [] && (l.op == Endif || Top(c) != InElse))
            && (s.1 != c <==> s.0 == Count(w1))
  {
    var l, after := FlattenOthers(others)[0], FlattenOthers(others)[1..] + rest;
    var w0 := Fail(Count(w), BadCount);
    var w1 := Meaning(env, w0, body, d);
    BlockAppend(i, body, others, rest);
    LinesOne(env, w, c, i, Flatten(body) + ([l] + after), d);
    Structured(env, w0, c, body, [l] + after, d);
    LinesOne(env, w1, c, l, after, d);
    Intrudes(env, w1, c, l, d);
  }
}
