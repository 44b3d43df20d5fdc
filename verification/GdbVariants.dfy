/**
 * Which instructions the alternative programs execute. A changed operand can itself be an
 * instruction, or part of a jump, and then a variant can leave the instructions the search has marked.
 */
module GdbVariants {
  import opened Prelude
  import opened Words
  import opened AgentMachine
  import opened GdbExpressions

  ghost predicate Variant(data: seq<byte>, v: seq<byte>) { IsVariant(data, Marks(data), |data|, v) }

  predicate IsJump(op: byte) { op == OP_GOTO || op == OP_IF_GOTO }

  /** A step that some variant can take. */
  ghost predicate MixedEdge(data: seq<byte>, pc: nat, next: nat) { exists v :: Variant(data, v) && Edge(v, pc, next) }

  ghost predicate IsMixedPath(data: seq<byte>, path: seq<nat>) {
    && path != [] && path[0] == 0
    && forall i, j :: 0 <= i && j == i + 1 < |path| ==> MixedEdge(data, path[i], path[j])
  }

  /** Reached by steps of variants, be it the same one all the way or not. */
  ghost predicate MixedReachable(data: seq<byte>, pc: nat) {
    exists path :: IsMixedPath(data, path) && path[|path| - 1] == pc
  }

  /** From a marked instruction no variant goes to one that is not. */
  ghost predicate Contained(data: seq<byte>) {
    forall pc: nat, next: nat :: pc < |data| && Reachable(data, pc) && MixedEdge(data, pc, next) && next < |data| ==>
      Reachable(data, next)
  }

  lemma Itself(data: seq<byte>)
    ensures Variant(data, data)
  {
  }

  lemma {:induction false} ContainedPath(data: seq<byte>, path: seq<nat>, i: nat)
    requires Contained(data) && IsMixedPath(data, path) && i < |path| && path[i] < |data|
    ensures Reachable(data, path[i])
  {
    hide Reachable, Variant;
    if i == 0 {
      StartReachable(data);
    } else {
      assert MixedEdge(data, path[i - 1], path[i]);
      var v :| Variant(data, v) && Edge(v, path[i - 1], path[i]);
      VariantLength(data, v);
      ContainedPath(data, path, i - 1);
    }
  }

  lemma VariantLength(data: seq<byte>, v: seq<byte>)
    requires Variant(data, v)
    ensures |v| == |data|
  {
  }

  lemma PathIsMixed(data: seq<byte>, v: seq<byte>, path: seq<nat>)
    requires Variant(data, v) && IsPath(v, path)
    ensures IsMixedPath(data, path)
  {
    hide Variant;
    forall i, j | 0 <= i && j == i + 1 < |path|
      ensures MixedEdge(data, path[i], path[j])
    {
      assert Edge(v, path[i], path[j]);
    }
  }

  lemma StepMixed(data: seq<byte>, pc: nat, next: nat)
    requires MixedReachable(data, pc) && MixedEdge(data, pc, next)
    ensures MixedReachable(data, next)
  {
    hide MixedEdge;
    var path :| IsMixedPath(data, path) && path[|path| - 1] == pc;
    assert IsMixedPath(data, path + [next]);
    assert (path + [next])[|path + [next]| - 1] == next;
  }

  /** Mixing the steps of variants never leads to an unmarked instruction exactly if no single step does. */
  lemma MixedExactly(data: seq<byte>)
    ensures Contained(data) <==> forall pc: nat :: pc < |data| && MixedReachable(data, pc) ==> Reachable(data, pc)
  {
    hide MixedEdge;
    if Contained(data) {
      forall pc: nat | pc < |data| && MixedReachable(data, pc)
        ensures Reachable(data, pc)
      {
        var path :| IsMixedPath(data, path) && path[|path| - 1] == pc;
        ContainedPath(data, path, |path| - 1);
      }
    }
    if forall pc: nat :: pc < |data| && MixedReachable(data, pc) ==> Reachable(data, pc) {
      forall pc: nat, next: nat | pc < |data| && Reachable(data, pc) && MixedEdge(data, pc, next) && next < |data|
        ensures Reachable(data, next)
      {
        var path :| IsPath(data, path) && path[|path| - 1] == pc;
        Itself(data);
        PathIsMixed(data, data, path);
        StepMixed(data, pc, next);
      }
    }
  }

  /** Under that condition every variant executes marked instructions only, on every target. */
  lemma VariantExecutesMarked(t: Target, data: seq<byte>, v: seq<byte>, k: nat)
    requires Contained(data) && Variant(data, v)
    ensures After(t, v, k).Go? && After(t, v, k).pc < |data| ==> Reachable(data, After(t, v, k).pc)
  {
    hide Contained, Variant, IsMixedPath, Next;
    ExecutedIsReachable(t, v, k);
    if After(t, v, k).Go? && After(t, v, k).pc < |data| {
      var path :| IsPath(v, path) && path[|path| - 1] == After(t, v, k).pc;
      PathIsMixed(data, v, path);
      ContainedPath(data, path, |path| - 1);
    }
  }

  // ---- programs whose instructions do not overlap

  /** No operand that is varied is itself an instruction or belongs to a jump. */
  ghost predicate Apart(data: seq<byte>) {
    forall i: nat :: IsSite(data, i) && Reachable(data, i) ==>
      && !Reachable(data, i + 1)
      && (i > 0 && Reachable(data, i - 1) ==> !IsJump(data[i - 1]))
  }

  lemma SameSuccessors(data: seq<byte>, v: seq<byte>, pc: nat)
    requires Apart(data) && Variant(data, v) && pc < |data| && Reachable(data, pc)
    ensures |v| == |data| && Successors(v, pc) == Successors(data, pc)
  {
    hide Reachable, Choices;
    assert pc > 0 ==> Marks(data)[pc - 1] == Reachable(data, pc - 1);
    assert v[pc] == data[pc];
    if IsJump(data[pc]) && pc + 2 < |data| {
      assert Marks(data)[pc + 1] == Reachable(data, pc + 1);
      assert v[pc + 1] == data[pc + 1] && v[pc + 2] == data[pc + 2];
      assert v[pc + 1..pc + 3] == data[pc + 1..pc + 3];
    }
  }

  /** Such programs meet the condition. */
  lemma ApartIsContained(data: seq<byte>)
    requires Apart(data)
    ensures Contained(data)
  {
    hide Apart, Successors, Variant;
    forall pc: nat, next: nat | pc < |data| && Reachable(data, pc) && MixedEdge(data, pc, next) && next < |data|
      ensures Reachable(data, next)
    {
      var v :| Variant(data, v) && Edge(v, pc, next);
      SameSuccessors(data, v, pc);
      StepReachable(data, pc, next);
    }
  }

  // ---- a program whose instructions do

  /** A jump into the operand 40 of an `ext`, where it is a `dup`; the variant 32 there is an `if_goto`. */
  const OVERLAPPING: seq<byte> := [0x22, 0, 0x22, 1, 0x20, 0, 8, 0x16, 0x28, 0x27, 0, 0x27]

  lemma LastUnmarked()
    ensures !Reachable(OVERLAPPING, 11)
  {
    var starts := [true, false, true, false, true, false, false, true, true, true, false, false];
    forall i, next | 0 <= i < 12 && starts[i] && next in Successors(OVERLAPPING, i) && next < 12
      ensures starts[next]
    {
    }
    if Reachable(OVERLAPPING, 11) {
      var path :| IsPath(OVERLAPPING, path) && path[|path| - 1] == 11;
      ClosedHasPath(OVERLAPPING, starts, path, |path| - 1);
    }
  }

  lemma SiteMarked()
    ensures Reachable(OVERLAPPING, 7)
  {
    StartReachable(OVERLAPPING);
    StepReachable(OVERLAPPING, 0, 2);
    StepReachable(OVERLAPPING, 2, 4);
    StepReachable(OVERLAPPING, 4, 7);
  }

  lemma ConstantStep(t: Target, code: seq<byte>, pc: nat, stack: seq<Word>)
    requires pc + 1 < |code| && code[pc] == OP_CONST8
    ensures InRange(code[pc + 1]) && Next(t, code, pc, stack) == Go(pc + 2, stack + [code[pc + 1]])
  {
    var n := code[pc + 1];
    assert code[pc + 1..pc + 2] == [n];
    OneByte(n);
    assert stack[|stack|..] == [] && stack[..|stack|] == stack;
  }

  lemma OneByte(n: byte)
    ensures BigEndian([n]) == n && InRange(n) && Signed(n) == n
  {
    assert [n][..0] == [];
  }

  lemma IfGotoStep(t: Target, code: seq<byte>, pc: nat, stack: seq<Word>, w: Word)
    requires pc + 2 < |code| && code[pc] == OP_IF_GOTO
    ensures Next(t, code, pc, stack + [w]) ==
              Go(if w != 0 then BigEndian(code[pc + 1..pc + 3]) else pc + 3, stack)
  {
    hide BigEndian;
    assert (stack + [w])[|stack|..] == [w] && (stack + [w])[..|stack|] == stack;
    assert stack + [] == stack;
  }

  lemma RunsToLast(t: Target)
    ensures After(t, OVERLAPPING[8 := 32], 4) == Go(11, [])
  {
    hide Next;
    var v := OVERLAPPING[8 := 32];
    ConstantStep(t, v, 0, []);
    ConstantStep(t, v, 2, [0]);
    IfGotoStep(t, v, 4, [0], 1);
    IfGotoStep(t, v, 8, [], 0);
    assert After(t, v, 0) == Go(0, []);
    assert [] + [0] == [0] && After(t, v, 1) == Go(2, [0]);
    assert [0] + [1] == [0, 1] && After(t, v, 2) == Go(4, [0] + [1]);
    assert v[5..7] == [0, 8] && [0, 8][..1] == [0];
    OneByte(0);
    assert BigEndian([0, 8]) == 8;
    assert After(t, v, 3) == Go(8, [0]);
  }

  /** On every target that variant executes an instruction the search has not marked. */
  lemma LeavesMarks(t: Target)
    ensures var v := OVERLAPPING[8 := 32];
            && Variant(OVERLAPPING, v) && After(t, v, 4) == Go(11, []) && 11 < |OVERLAPPING|
            && !Reachable(OVERLAPPING, 11) && !Contained(OVERLAPPING)
  {
    hide Reachable, Next, Contained;
    var v := OVERLAPPING[8 := 32];
    SiteMarked();
    assert Variant(OVERLAPPING, v) by {
      assert Choices(40) == [8, 16, 32, 40];
      assert Marks(OVERLAPPING)[7];
    }
    RunsToLast(t);
    LastUnmarked();
    if Contained(OVERLAPPING) {
      VariantExecutesMarked(t, OVERLAPPING, v, 4);
    }
  }
}
