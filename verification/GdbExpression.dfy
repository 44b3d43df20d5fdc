/**
 * Agent expressions: finding the instructions, generating the alternative programs gdb may have
 * meant, and evaluating all of them.
 */
module GdbExpressions {
  import opened Prelude
  import opened Words
  import opened AgentMachine

  const MAX_STEPS: nat := 10000
  const MAX_VARIANTS := 64

  // ---- runs of a program

  /** Where `steps` instructions lead; failing and ending are final. */
  function After(t: Target, code: seq<byte>, steps: nat): Outcome {
    if steps == 0 then Go(0, [])
    else
      match After(t, code, steps - 1)
      case Go(pc, stack) => Next(t, code, pc, stack)
      case final => final
  }

  /** The value of a program: what is on top when it ends in time. */
  function Value(t: Target, code: seq<byte>): Option<Word> {
    match After(t, code, MAX_STEPS)
    case Done(stack) => if stack == [] then None else Some(stack[|stack| - 1])
    case _ => None
  }

  lemma {:induction false} FinalStays(t: Target, code: seq<byte>, k: nat, m: nat)
    requires k <= m && !After(t, code, k).Go?
    ensures After(t, code, m) == After(t, code, k)
  {
    hide Next;
    if k < m {
      FinalStays(t, code, k, m - 1);
    }
  }

  // ---- which bytes are instructions

  /** The two-byte target of a jump, with the sentinel the search uses past the end. */
  function JumpTarget(data: seq<byte>, at: nat): nat {
    if |data| < at + 2 then 0xFFFF else BigEndian(data[at..at + 2])
  }

  /** Where the search goes from an instruction, in the order it notes them. */
  function Successors(data: seq<byte>, pc: nat): seq<nat>
    requires pc < |data|
  {
    var op := data[pc];
    if op == OP_EXT || op == OP_ZERO_EXT || op == OP_PICK || op == OP_CONST8 then [pc + 2]
    else if op == OP_IF_GOTO then [JumpTarget(data, pc + 1), pc + 3]
    else if op == OP_GOTO then [JumpTarget(data, pc + 1)]
    else if op == OP_CONST16 || op == OP_REG then [pc + 3]
    else if op == OP_CONST32 then [pc + 5]
    else if op == OP_CONST64 then [pc + 9]
    else if op == OP_END then []
    else [pc + 1]
  }

  predicate Edge(data: seq<byte>, pc: nat, next: nat) {
    pc < |data| && next in Successors(data, pc)
  }

  predicate IsPath(data: seq<byte>, path: seq<nat>) {
    && path != [] && path[0] == 0
    && forall i, j :: 0 <= i && j == i + 1 < |path| ==> Edge(data, path[i], path[j])
  }

  ghost predicate Reachable(data: seq<byte>, pc: nat) {
    exists path :: IsPath(data, path) && path[|path| - 1] == pc
  }

  lemma StartReachable(data: seq<byte>)
    ensures Reachable(data, 0)
  {
    assert IsPath(data, [0]);
  }

  lemma StepReachable(data: seq<byte>, pc: nat, next: nat)
    requires pc < |data| && Reachable(data, pc) && next in Successors(data, pc)
    ensures Reachable(data, next)
  {
    hide Successors;
    var path :| IsPath(data, path) && path[|path| - 1] == pc;
    assert IsPath(data, path + [next]);
    assert (path + [next])[|path + [next]| - 1] == next;
  }

  /** The reference step goes where the search goes. */
  lemma NextIsSuccessor(t: Target, data: seq<byte>, pc: nat, stack: seq<Word>)
    requires Next(t, data, pc, stack).Go?
    ensures pc < |data| && Next(t, data, pc, stack).pc in Successors(data, pc)
  {
    hide BigEndian, Effect, Pops;
    var op, after := data[pc], pc + 1 + OperandBytes(data[pc]);
    if op == OP_GOTO || op == OP_IF_GOTO {
      assert JumpTarget(data, pc + 1) == BigEndian(data[pc + 1..after]);
    }
  }

  /** Every instruction a run of the program executes is reachable. */
  lemma {:induction false} ExecutedIsReachable(t: Target, data: seq<byte>, k: nat)
    ensures After(t, data, k).Go? ==> Reachable(data, After(t, data, k).pc)
  {
    hide Next, Reachable, Successors;
    if k == 0 {
      StartReachable(data);
    } else {
      ExecutedIsReachable(t, data, k - 1);
      var before := After(t, data, k - 1);
      if before.Go? && Next(t, data, before.pc, before.stack).Go? {
        NextIsSuccessor(t, data, before.pc, before.stack);
        StepReachable(data, before.pc, Next(t, data, before.pc, before.stack).pc);
      }
    }
  }

  predicate Closed(data: seq<byte>, starts: seq<bool>)
    requires |starts| == |data|
  {
    && (data != [] ==> starts[0])
    && forall i, next :: 0 <= i < |data| && starts[i] && next in Successors(data, i) && next < |data| ==> starts[next]
  }

  lemma {:induction false} ClosedHasPath(data: seq<byte>, starts: seq<bool>, path: seq<nat>, i: nat)
    requires |starts| == |data| && Closed(data, starts) && IsPath(data, path) && i < |path| && path[i] < |data|
    ensures starts[path[i]]
  {
    if i > 0 {
      assert Edge(data, path[i - 1], path[i]);
      ClosedHasPath(data, starts, path, i - 1);
    }
  }

  /** The reachable instructions, as the search's marks. */
  ghost function Marks(data: seq<byte>): (starts: seq<bool>)
    ensures |starts| == |data|
  {
    seq(|data|, i requires 0 <= i => Reachable(data, i))
  }

  lemma ClosedIsMarks(data: seq<byte>, starts: seq<bool>)
    requires |starts| == |data| && Closed(data, starts)
    requires forall i :: 0 <= i < |data| && starts[i] ==> Reachable(data, i)
    ensures starts == Marks(data)
  {
    hide Closed;
    forall i | 0 <= i < |data| && Reachable(data, i)
      ensures starts[i]
    {
      var path :| IsPath(data, path) && path[|path| - 1] == i;
      ClosedHasPath(data, starts, path, |path| - 1);
    }
  }

  // ---- counting variants

  predicate IsSite(data: seq<byte>, i: nat) {
    i + 1 < |data| && (data[i] == OP_EXT || data[i] == OP_ZERO_EXT)
  }

  /** The widths gdb may have meant, ending with the one it wrote. */
  function Choices(bits: byte): seq<byte> {
    (if bits > 8 then [8] else []) + (if bits > 16 then [16] else []) + (if bits > 32 then [32] else []) + [bits]
  }

  /** Those are 8, 16 and 32, as far as they are smaller, and the width itself. */
  lemma ChoicesAre(bits: byte, c: byte)
    ensures c in Choices(bits) <==> c == bits || (c < bits && (c == 8 || c == 16 || c == 32))
    ensures Choices(bits)[|Choices(bits)| - 1] == bits
  {
  }

  function CountVariants(bits: byte): (n: nat)
    ensures n == |Choices(bits)|
  {
    1 + (if bits > 8 then 1 else 0) + (if bits > 16 then 1 else 0) + (if bits > 32 then 1 else 0)
  }

  function Factor(data: seq<byte>, i: nat): (n: nat)
    ensures 1 <= n
  {
    if IsSite(data, i) then CountVariants(data[i + 1]) else 1
  }

  /** The product over the marked sites below `k`. */
  function Product(data: seq<byte>, starts: seq<bool>, k: nat): (n: nat)
    requires k <= |starts|
    ensures 1 <= n
  {
    if k == 0 then 1
    else if starts[k - 1] then Times(Product(data, starts, k - 1), Factor(data, k - 1))
    else Product(data, starts, k - 1)
  }

  function Times(a: nat, b: nat): (n: nat)
    ensures 1 <= a && 1 <= b ==> a <= n
  {
    assert 1 <= b ==> a * b == a + a * (b - 1);
    a * b
  }

  lemma TimesSwap(a: nat, b: nat, c: nat)
    ensures Times(Times(a, b), c) == Times(Times(a, c), b)
  {
    assert (a * b) * c == (a * c) * b;
  }

  lemma TimesStep(a: nat, b: nat)
    ensures Times(0, b) == 0 && Times(a + 1, b) == b + Times(a, b)
  {
  }

  lemma TimesGrows(a: nat, b: nat, c: nat)
    requires a <= b
    ensures Times(a, c) <= Times(b, c)
  {
    assert b * c == a * c + (b - a) * c;
    NonNegative(b - a, c);
  }

  lemma {:induction false} ProductMark(data: seq<byte>, starts: seq<bool>, i: nat, k: nat)
    requires i < |starts| && k <= |starts| && !starts[i]
    ensures Product(data, starts[i := true], k) ==
            if i < k then Times(Product(data, starts, k), Factor(data, i)) else Product(data, starts, k)
  {
    hide Times, Factor;
    if k > 0 {
      ProductMark(data, starts, i, k - 1);
      TimesSwap(Product(data, starts, k - 1), Factor(data, i), Factor(data, k - 1));
    }
  }

  lemma {:induction false} ProductGrows(data: seq<byte>, starts: seq<bool>, more: seq<bool>, k: nat)
    requires k <= |starts| == |more|
    requires forall i :: 0 <= i < |starts| && starts[i] ==> more[i]
    ensures Product(data, starts, k) <= Product(data, more, k)
  {
    hide Times, Factor;
    if k > 0 {
      ProductGrows(data, starts, more, k - 1);
      TimesGrows(Product(data, starts, k - 1), Product(data, more, k - 1), Factor(data, k - 1));
    }
  }

  // ---- generating variants

  function Alternatives(code: seq<byte>, p: nat, choices: seq<byte>): (r: seq<seq<byte>>)
    requires p < |code|
    ensures |r| == |choices|
  {
    seq(|choices|, j requires 0 <= j < |choices| => code[p := choices[j]])
  }

  /** Each program of the list, in order, replaced by its alternatives at byte `p`. */
  function Spread(list: seq<seq<byte>>, p: nat, choices: seq<byte>): seq<seq<byte>>
    requires forall b :: b in list ==> p < |b|
  {
    if list == [] then [] else Alternatives(list[0], p, choices) + Spread(list[1..], p, choices)
  }

  /** `v` is `data` with the operands of marked sites below `k` chosen anew. */
  predicate IsVariant(data: seq<byte>, starts: seq<bool>, k: nat, v: seq<byte>)
    requires |starts| == |data|
  {
    && |v| == |data|
    && forall j :: 0 <= j < |data| ==>
         v[j] == data[j] || (0 < j <= k && starts[j - 1] && IsSite(data, j - 1) && v[j] in Choices(data[j]))
  }

  predicate Distinct(list: seq<seq<byte>>) {
    forall i, j :: 0 <= i < j < |list| ==> list[i] != list[j]
  }

  ghost predicate Exactly(data: seq<byte>, starts: seq<bool>, k: nat, list: seq<seq<byte>>)
    requires |starts| == |data| && k <= |data|
  {
    && |list| == Product(data, starts, k)
    && list[|list| - 1] == data
    && Distinct(list)
    && forall v :: v in list <==> IsVariant(data, starts, k, v)
  }

  lemma {:induction false} SpreadLength(list: seq<seq<byte>>, p: nat, choices: seq<byte>)
    requires forall b :: b in list ==> p < |b|
    ensures |Spread(list, p, choices)| == Times(|list|, |choices|)
  {
    TimesStep(0, |choices|);
    if list != [] {
      hide Times;
      SpreadLength(list[1..], p, choices);
      TimesStep(|list| - 1, |choices|);
    }
  }

  lemma {:induction false} SpreadLast(list: seq<seq<byte>>, p: nat, choices: seq<byte>)
    requires list != [] && choices != [] && forall b :: b in list ==> p < |b|
    ensures Spread(list, p, choices) != []
    ensures var r := Spread(list, p, choices);
            r[|r| - 1] == list[|list| - 1][p := choices[|choices| - 1]]
  {
    if |list| == 1 {
      assert Spread(list[1..], p, choices) == [];
    } else {
      SpreadLast(list[1..], p, choices);
    }
  }

  ghost predicate From(list: seq<seq<byte>>, p: nat, choices: seq<byte>, v: seq<byte>) {
    exists b, c :: b in list && c in choices && p < |b| && v == b[p := c]
  }

  lemma {:induction false} SpreadMember(list: seq<seq<byte>>, p: nat, choices: seq<byte>, v: seq<byte>)
    requires forall b :: b in list ==> p < |b|
    ensures v in Spread(list, p, choices) <==> From(list, p, choices, v)
  {
    if list != [] {
      var first := Alternatives(list[0], p, choices);
      SpreadMember(list[1..], p, choices, v);
      if v in first {
        var j :| 0 <= j < |first| && first[j] == v;
        assert list[0] in list && choices[j] in choices;
      }
      if From(list, p, choices, v) {
        var b, c :| b in list && c in choices && p < |b| && v == b[p := c];
        if b == list[0] {
          var j :| 0 <= j < |choices| && choices[j] == c;
          assert first[j] == v;
        } else {
          assert b in list[1..];
        }
      }
    }
  }

  lemma DistinctAppend(a: seq<seq<byte>>, b: seq<seq<byte>>)
    requires Distinct(a) && Distinct(b) && forall v :: v in a ==> v !in b
    ensures Distinct(a + b)
  {
    var r := a + b;
    forall i, j | 0 <= i < j < |r|
      ensures r[i] != r[j]
    {
      if i < |a| <= j {
        assert r[i] in a && r[j] in b;
      }
    }
  }

  lemma AlternativesDistinct(code: seq<byte>, p: nat, choices: seq<byte>)
    requires p < |code|
    requires forall i, j :: 0 <= i < j < |choices| ==> choices[i] != choices[j]
    ensures Distinct(Alternatives(code, p, choices))
  {
    var r := Alternatives(code, p, choices);
    forall i, j | 0 <= i < j < |r|
      ensures r[i] != r[j]
    {
      assert r[i][p] == choices[i] && r[j][p] == choices[j];
    }
  }

  lemma SamePatched(a: seq<byte>, b: seq<byte>, v: seq<byte>, p: nat)
    requires p < |a| && p < |b| && p < |v| && a[p] == b[p] && v == a[p := v[p]] && v == b[p := v[p]]
    ensures a == b
  {
    forall k | 0 <= k < |a|
      ensures a[k] == b[k]
    {
      assert k != p ==> v[k] == a[k] && v[k] == b[k];
    }
  }

  /** Programs that agree at `p` and differ still differ after a choice at `p`. */
  lemma {:induction false} SpreadDistinct(list: seq<seq<byte>>, p: nat, choices: seq<byte>, old_: byte)
    requires Distinct(list) && forall b :: b in list ==> p < |b| && b[p] == old_
    requires forall i, j :: 0 <= i < j < |choices| ==> choices[i] != choices[j]
    ensures Distinct(Spread(list, p, choices))
  {
    if list != [] {
      var first, rest := Alternatives(list[0], p, choices), list[1..];
      SpreadDistinct(rest, p, choices, old_);
      AlternativesDistinct(list[0], p, choices);
      forall v | v in first
        ensures v !in Spread(rest, p, choices)
      {
        SpreadMember(rest, p, choices, v);
        if From(rest, p, choices, v) {
          var b, c :| b in rest && c in choices && p < |b| && v == b[p := c];
          SamePatched(list[0], b, v, p);
        }
      }
      DistinctAppend(first, Spread(rest, p, choices));
    }
  }

  lemma ChoicesDistinct(bits: byte)
    ensures forall i, j :: 0 <= i < j < |Choices(bits)| ==> Choices(bits)[i] != Choices(bits)[j]
    ensures Choices(bits) != [] && Choices(bits)[|Choices(bits)| - 1] == bits
  {
  }

  /** One more site: exactly the variants with its operand chosen too. */
  lemma SpreadExactly(data: seq<byte>, starts: seq<bool>, i: nat, list: seq<seq<byte>>)
    requires |starts| == |data| && IsSite(data, i) && starts[i]
    requires Exactly(data, starts, i, list)
    requires forall b :: b in list ==> i + 1 < |b|
    ensures Exactly(data, starts, i + 1, Spread(list, i + 1, Choices(data[i + 1])))
  {
    hide Choices, Product, Distinct, Spread, Times;
    var p, choices := i + 1, Choices(data[i + 1]);
    var r := Spread(list, p, choices);
    ChoicesDistinct(data[p]);
    forall b | b in list
      ensures p < |b| && b[p] == data[p]
    {
      assert IsVariant(data, starts, i, b);
    }
    SpreadLength(list, p, choices);
    assert |r| == Product(data, starts, i + 1) by { ProductStep(data, starts, i); }
    SpreadLast(list, p, choices);
    SpreadDistinct(list, p, choices, data[p]);
    forall v
      ensures v in r <==> IsVariant(data, starts, i + 1, v)
    {
      SpreadMember(list, p, choices, v);
      FromIsVariant(data, starts, i, list, v);
    }
  }

  lemma ProductStep(data: seq<byte>, starts: seq<bool>, i: nat)
    requires i < |starts|
    ensures Product(data, starts, i + 1) ==
            if starts[i] then Times(Product(data, starts, i), Factor(data, i)) else Product(data, starts, i)
  {
  }

  lemma FromIsVariant(data: seq<byte>, starts: seq<bool>, i: nat, list: seq<seq<byte>>, v: seq<byte>)
    requires |starts| == |data| && IsSite(data, i) && starts[i]
    requires forall b :: b in list <==> IsVariant(data, starts, i, b)
    requires data[i + 1] in Choices(data[i + 1])
    ensures From(list, i + 1, Choices(data[i + 1]), v) <==> IsVariant(data, starts, i + 1, v)
  {
    hide Choices, IsVariant;
    var p, choices := i + 1, Choices(data[i + 1]);
    if From(list, p, choices, v) {
      var b, c :| b in list && c in choices && p < |b| && v == b[p := c];
      VariantForth(data, starts, i, b, c);
    }
    if IsVariant(data, starts, i + 1, v) {
      VariantBack(data, starts, i, v);
      var b := v[p := data[p]];
      assert v == b[p := v[p]];
      assert b in list && v[p] in choices;
    }
  }

  lemma VariantForth(data: seq<byte>, starts: seq<bool>, i: nat, b: seq<byte>, c: byte)
    requires |starts| == |data| && IsSite(data, i) && starts[i]
    requires IsVariant(data, starts, i, b) && i + 1 < |b| && c in Choices(data[i + 1])
    ensures IsVariant(data, starts, i + 1, b[i + 1 := c])
  {
    hide Choices;
  }

  lemma VariantBack(data: seq<byte>, starts: seq<bool>, i: nat, v: seq<byte>)
    requires |starts| == |data| && IsSite(data, i) && starts[i] && IsVariant(data, starts, i + 1, v)
    requires data[i + 1] in Choices(data[i + 1])
    ensures i + 1 < |v| && v[i + 1] in Choices(data[i + 1]) && IsVariant(data, starts, i, v[i + 1 := data[i + 1]])
  {
    hide Choices;
  }

  // ---- the constructor and the evaluator

  ghost function Unmarked(starts: seq<bool>): set<nat> {
    set i | 0 <= i < |starts| && !starts[i]
  }

  /** Everything an instruction leads to is marked or still to be looked at. */
  ghost predicate Covered(data: seq<byte>, starts: seq<bool>, unvisited: seq<nat>)
    requires |starts| == |data|
  {
    && (0 < |data| ==> starts[0] || 0 in unvisited)
    && forall i, next :: 0 <= i < |data| && starts[i] && next in Successors(data, i) && next < |data| ==>
         starts[next] || next in unvisited
  }

  lemma CoveredStep(data: seq<byte>, starts: seq<bool>, unvisited: seq<nat>, pc: nat)
    requires |starts| == |data| && Covered(data, starts, unvisited + [pc])
    ensures |data| <= pc ==> Covered(data, starts, unvisited)
    ensures pc < |data| && starts[pc] ==> Covered(data, starts, unvisited)
    ensures pc < |data| && !starts[pc] ==> Covered(data, starts[pc := true], unvisited + Successors(data, pc))
  {
    hide Successors;
  }

  ghost predicate AllReachable(data: seq<byte>, starts: seq<bool>, unvisited: seq<nat>)
    requires |starts| == |data|
  {
    && (forall i :: 0 <= i < |data| && starts[i] ==> Reachable(data, i))
    && forall u :: u in unvisited ==> Reachable(data, u)
  }

  lemma ReachableStep(data: seq<byte>, starts: seq<bool>, unvisited: seq<nat>, pc: nat)
    requires |starts| == |data| && AllReachable(data, starts, unvisited + [pc])
    ensures AllReachable(data, starts, unvisited)
    ensures pc < |data| ==> AllReachable(data, starts[pc := true], unvisited + Successors(data, pc))
  {
    hide Successors, Reachable;
    assert pc in unvisited + [pc];
    forall u | u in unvisited
      ensures Reachable(data, u)
    {
      assert u in unvisited + [pc];
    }
    if pc < |data| {
      forall u | u in Successors(data, pc)
        ensures Reachable(data, u)
      {
        StepReachable(data, pc, u);
      }
    }
  }

  lemma TooManyMarks(data: seq<byte>, starts: seq<bool>, k: nat)
    requires k <= |starts| == |data| && forall i :: 0 <= i < |data| && starts[i] ==> Reachable(data, i)
    ensures Product(data, starts, k) <= Product(data, Marks(data), k)
  {
    ProductGrows(data, starts, Marks(data), k);
  }

  lemma {:induction false} NothingMarked(data: seq<byte>, starts: seq<bool>, k: nat)
    requires k <= |starts| && forall i :: 0 <= i < |starts| ==> !starts[i]
    ensures Product(data, starts, k) == 1
  {
    if k > 0 {
      NothingMarked(data, starts, k - 1);
    }
  }

  /** The depth-first search: it marks exactly the reachable instructions, or gives up on too many variants. */
  method Explore(data: seq<byte>) returns (starts: seq<bool>, gaveUp: bool)
    ensures gaveUp <==> Product(data, Marks(data), |data|) > MAX_VARIANTS
    ensures !gaveUp ==> starts == Marks(data)
  {
    hide Successors, Reachable, Marks, Product, Covered, AllReachable, Times;
    starts := seq(|data|, i => false);
    gaveUp := false;
    var numVariants: nat := 1;
    var unvisited: seq<nat> := [0];
    Started(data, starts);
    while unvisited != []
      invariant |starts| == |data|
      invariant Covered(data, starts, unvisited) && AllReachable(data, starts, unvisited)
      invariant numVariants == Product(data, starts, |data|) <= MAX_VARIANTS
      decreases Unmarked(starts), |unvisited|
    {
      var pc := unvisited[|unvisited| - 1];
      assert unvisited == unvisited[..|unvisited| - 1] + [pc];
      unvisited := unvisited[..|unvisited| - 1];
      CoveredStep(data, starts, unvisited, pc);
      ReachableStep(data, starts, unvisited, pc);
      if |starts| <= pc || starts[pc] {
        continue;
      }
      ProductMark(data, starts, pc, |data|);
      assert pc in Unmarked(starts) && pc !in Unmarked(starts[pc := true]);
      starts := starts[pc := true];
      if IsSite(data, pc) {
        numVariants := Times(numVariants, CountVariants(data[pc + 1]));
        if numVariants > MAX_VARIANTS {
          MarkedReachable(data, starts, unvisited + Successors(data, pc));
          TooManyMarks(data, starts, |data|);
          gaveUp := true;
          return;
        }
      } else {
        TimesOne(numVariants);
      }
      unvisited := unvisited + Successors(data, pc);
    }
    MarkedReachable(data, starts, []);
    ClosedAtEnd(data, starts);
    ClosedIsMarks(data, starts);
  }

  lemma TimesOne(a: nat)
    ensures Times(a, 1) == a
  {
  }

  lemma Started(data: seq<byte>, starts: seq<bool>)
    requires |starts| == |data| && forall i :: 0 <= i < |starts| ==> !starts[i]
    ensures Covered(data, starts, [0]) && AllReachable(data, starts, [0])
    ensures Product(data, starts, |data|) == 1
  {
    StartReachable(data);
    NothingMarked(data, starts, |data|);
  }

  lemma MarkedReachable(data: seq<byte>, starts: seq<bool>, unvisited: seq<nat>)
    requires |starts| == |data| && AllReachable(data, starts, unvisited)
    ensures forall i :: 0 <= i < |data| && starts[i] ==> Reachable(data, i)
  {
  }

  lemma ClosedAtEnd(data: seq<byte>, starts: seq<bool>)
    requires |starts| == |data| && Covered(data, starts, [])
    ensures Closed(data, starts)
  {
  }

  lemma {:induction false} SpreadSnoc(list: seq<seq<byte>>, p: nat, choices: seq<byte>, b: seq<byte>)
    requires p < |b| && forall c :: c in list ==> p < |c|
    ensures Spread(list + [b], p, choices) == Spread(list, p, choices) + Alternatives(b, p, choices)
  {
    if list == [] {
      assert list + [b] == [b];
      assert Spread([b], p, choices) == Alternatives(b, p, choices) + Spread([], p, choices);
    } else {
      assert (list + [b])[1..] == list[1..] + [b];
      SpreadSnoc(list[1..], p, choices, b);
    }
  }

  /** The alternatives of one program, pushed one by one. */
  method PushAlternatives(b: seq<byte>, p: nat, bits: byte) returns (r: seq<seq<byte>>)
    requires p < |b| && b[p] == bits
    ensures r == Alternatives(b, p, Choices(bits))
  {
    r := [];
    if bits > 8 {
      r := r + [b[p := 8]];
    }
    if bits > 16 {
      r := r + [b[p := 16]];
    }
    if bits > 32 {
      r := r + [b[p := 32]];
    }
    assert b[p := bits] == b;
    r := r + [b];
  }

  /** The variant list: every choice of operands once, the program itself last. */
  method Generate(data: seq<byte>, starts: seq<bool>) returns (variants: seq<seq<byte>>)
    requires |starts| == |data|
    ensures Exactly(data, starts, |data|, variants)
  {
    hide Exactly, Spread, Alternatives, Choices;
    variants := [data];
    OnlyItself(data, starts);
    for i := 0 to |data|
      invariant Exactly(data, starts, i, variants)
    {
      if starts[i] && IsSite(data, i) {
        Untouched(data, starts, i, variants);
        var spread: seq<seq<byte>> := [];
        assert variants[..0] == [] && Spread([], i + 1, Choices(data[i + 1])) == [] by {
          NoneSpread(i + 1, Choices(data[i + 1]));
        }
        for n := 0 to |variants|
          invariant spread == Spread(variants[..n], i + 1, Choices(data[i + 1]))
        {
          var more := PushAlternatives(variants[n], i + 1, data[i + 1]);
          SpreadSnoc(variants[..n], i + 1, Choices(data[i + 1]), variants[n]);
          assert variants[..n + 1] == variants[..n] + [variants[n]];
          spread := spread + more;
        }
        assert variants[..|variants|] == variants;
        SpreadExactly(data, starts, i, variants);
        variants := spread;
      } else {
        NoSite(data, starts, i, variants);
      }
    }
  }

  lemma NoneSpread(p: nat, choices: seq<byte>)
    ensures Spread([], p, choices) == []
  {
  }

  lemma OnlyItself(data: seq<byte>, starts: seq<bool>)
    requires |starts| == |data|
    ensures Exactly(data, starts, 0, [data])
  {
    forall v
      ensures v in [data] <==> IsVariant(data, starts, 0, v)
    {
      if IsVariant(data, starts, 0, v) {
        assert v == data;
      }
    }
  }

  lemma Untouched(data: seq<byte>, starts: seq<bool>, i: nat, list: seq<seq<byte>>)
    requires |starts| == |data| && i + 1 < |data| && Exactly(data, starts, i, list)
    ensures forall b :: b in list ==> i + 1 < |b| && b[i + 1] == data[i + 1]
  {
    forall b | b in list
      ensures i + 1 < |b| && b[i + 1] == data[i + 1]
    {
      assert IsVariant(data, starts, i, b);
    }
  }

  lemma NoSite(data: seq<byte>, starts: seq<bool>, i: nat, list: seq<seq<byte>>)
    requires |starts| == |data| && i < |data| && Exactly(data, starts, i, list)
    requires !(starts[i] && IsSite(data, i))
    ensures Exactly(data, starts, i + 1, list)
  {
    hide Distinct, Choices, Times;
    TimesOne(Product(data, starts, i));
    forall v
      ensures v in list <==> IsVariant(data, starts, i + 1, v)
    {
      assert IsVariant(data, starts, i + 1, v) <==> IsVariant(data, starts, i, v);
    }
  }

  lemma AfterStep(t: Target, code: seq<byte>, k: nat)
    requires After(t, code, k).Go?
    ensures After(t, code, k + 1) == Next(t, code, After(t, code, k).pc, After(t, code, k).stack)
  {
  }

  /** Run one program on the mutable machine, at most `MAX_STEPS` instructions. */
  method RunProgram(t: Target, code: seq<byte>) returns (r: Option<Word>)
    ensures r == Value(t, code)
  {
    hide After, Next;
    var state := new ExpressionState(code);
    var steps: nat := 0;
    assert After(t, code, 0) == Go(0, []) by { AfterNone(t, code); }
    while !state.end
      invariant steps <= MAX_STEPS && state.bytecode == code
      invariant state.Reached(After(t, code, steps))
      decreases MAX_STEPS - steps
    {
      if MAX_STEPS <= steps || state.error {
        if state.error {
          FinalStays(t, code, steps, MAX_STEPS);
        }
        return None;
      }
      AfterStep(t, code, steps);
      state.Step(t);
      steps := steps + 1;
    }
    FinalStays(t, code, steps, MAX_STEPS);
    var v := state.Pop();
    if state.error {
      return None;
    }
    return Some(v);
  }

  lemma AfterNone(t: Target, code: seq<byte>)
    ensures After(t, code, 0) == Go(0, [])
  {
  }

  class GdbExpression {
    var bytecodeVariants: seq<seq<byte>>

    /** No variants at all when there would be too many, otherwise exactly the variants. */
    constructor (data: seq<byte>)
      ensures Product(data, Marks(data), |data|) > MAX_VARIANTS ==> bytecodeVariants == []
      ensures Product(data, Marks(data), |data|) <= MAX_VARIANTS ==>
                Exactly(data, Marks(data), |data|, bytecodeVariants)
    {
      hide Exactly, Product, Marks;
      var variants: seq<seq<byte>> := [];
      var starts, gaveUp := Explore(data);
      if !gaveUp {
        variants := Generate(data, starts);
      }
      bytecodeVariants := variants;
    }

    /** Succeeds exactly when all variants have one common value. */
    method Evaluate(t: Target) returns (result: Option<Word>)
      ensures result.Some? <==>
              bytecodeVariants != [] && (exists v: Word :: forall b :: b in bytecodeVariants ==> Value(t, b) == Some(v))
      ensures result.Some? ==> forall b :: b in bytecodeVariants ==> Value(t, b) == result
    {
      hide Value;
      result := None;
      for i := 0 to |bytecodeVariants|
        invariant i == 0 <==> result.None?
        invariant forall j :: 0 <= j < i ==> Value(t, bytecodeVariants[j]) == result
      {
        var v := RunProgram(t, bytecodeVariants[i]);
        if v.None? {
          assert bytecodeVariants[i] in bytecodeVariants;
          return None;
        }
        if result == None {
          result := v;
        } else if result != v {
          assert bytecodeVariants[0] in bytecodeVariants && bytecodeVariants[i] in bytecodeVariants;
          return None;
        }
      }
      if result.Some? {
        assert forall b :: b in bytecodeVariants ==> Value(t, b) == Some(result.value);
      }
    }
  }

  /**
   * Constructing and evaluating: success means at most 64 variants, all with the program's own
   * value, and that is the value returned.
   */
  method EvaluateExpression(data: seq<byte>, t: Target) returns (result: Option<Word>)
    ensures result.Some? ==> result == Value(t, data)
    ensures result.Some? <==>
            && Product(data, Marks(data), |data|) <= MAX_VARIANTS
            && Value(t, data).Some?
            && forall v :: IsVariant(data, Marks(data), |data|, v) ==> Value(t, v) == Value(t, data)
  {
    hide Value, Product, Marks, Distinct;
    var e := new GdbExpression(data);
    result := e.Evaluate(t);
    ghost var marks := Marks(data);
    if e.bytecodeVariants != [] {
      assert data in e.bytecodeVariants;
      assert forall v :: v in e.bytecodeVariants <==> IsVariant(data, marks, |data|, v);
      if Value(t, data).Some? && forall v :: IsVariant(data, marks, |data|, v) ==> Value(t, v) == Value(t, data) {
        assert forall b :: b in e.bytecodeVariants ==> Value(t, b) == Some(Value(t, data).value);
      }
    }
  }

  /** The manual's `rot` turns `a b c` into `c a b`; the machine reverses: they agree only when a == b. */
  lemma RotReverses(t: Target, n: nat, a: Word, b: Word, c: Word)
    ensures Effect(t, OP_ROT, n, [a, b, c]) == Some([c, a, b]) <==> a == b
  {
  }
}
