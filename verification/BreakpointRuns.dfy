/**
 * Every history of breakpoints, suspensions and writes: what memory holds, when rr is right about the
 * program, and when all breakpoints show.
 */
module BreakpointRuns {
  import opened Prelude
  import opened Breakpoints

  datatype Op =
    | DoAdd(addr: nat, which: BreakpointType)
    | DoRemove(addr: nat, which: BreakpointType)
    | DoRemoveAll
    | DoSuspend(addr: nat)
    | DoRestore(addr: nat)
    | DoWrite(addr: nat, value: byte)
    | DoWriteRecorded(addr: nat, data: seq<byte>)

  /**
   * The reference model: what has been written, what of it rr knows, a bag of outstanding references,
   * and the breakpoints that do not show.
   */
  datatype Model = Model(program: map<nat, byte>, kept: map<nat, byte>, refs: References,
                         suspended: set<nat>, lost: set<nat>)

  predicate Holds(m: Model, addr: nat) { (addr, Internal) in m.refs || (addr, User) in m.refs }

  ghost predicate WellFormed(m: Model) {
    && m.program.Keys == m.kept.Keys
    && (forall a: nat :: Holds(m, a) ==> a in m.kept)
    && (forall a :: a in m.suspended || a in m.lost ==> Holds(m, a))
  }

  /** Removes match adds by type, and writes go to memory that is there. */
  predicate Balanced(m: Model, op: Op) {
    match op
    case DoRemove(addr, which) => Holds(m, addr) ==> (addr, which) in m.refs
    case DoWrite(addr, _) => addr in m.program
    case DoWriteRecorded(addr, data) => forall a :: addr <= a < addr + |data| ==> a in m.program
    case _ => true
  }

  function Written(m: Model, addr: nat, data: seq<byte>): Model {
    var lastHeld := data != [] && Holds(m, addr + |data| - 1);
    m.(program := Patched(m.program, addr, data), kept := Learned(m.kept, addr, data, lastHeld),
       suspended := Outside(m.suspended, addr, |data|), lost := LostAfter(m.lost, addr, |data|, lastHeld))
  }

  function Step(m: Model, op: Op): Model {
    match op
    case DoAdd(addr, which) => if addr in m.program then m.(refs := m.refs + multiset{(addr, which)}) else m
    case DoRemove(addr, which) =>
      var next := m.(refs := m.refs - multiset{(addr, which)});
      if Holds(next, addr) then next else next.(suspended := m.suspended - {addr}, lost := m.lost - {addr})
    case DoRemoveAll => m.(refs := multiset{}, suspended := {}, lost := {})
    case DoSuspend(addr) => if Holds(m, addr) then m.(suspended := m.suspended + {addr}, lost := m.lost - {addr}) else m
    case DoRestore(addr) => m.(suspended := m.suspended - {addr}, lost := m.lost - {addr})
    case DoWrite(addr, value) => Written(m, addr, [value])
    case DoWriteRecorded(addr, data) => Written(m, addr, data)
  }

  predicate AllBalanced(m: Model, ops: seq<Op>)
    decreases ops
  {
    ops == [] || (Balanced(m, ops[0]) && AllBalanced(Step(m, ops[0]), ops[1..]))
  }

  function Run(m: Model, ops: seq<Op>): Model
    decreases ops
  {
    if ops == [] then m else Run(Step(m, ops[0]), ops[1..])
  }

  /** What memory holds. */
  ghost function Shown(m: Model): map<nat, byte>
    requires WellFormed(m)
  {
    map a | a in m.kept ::
      if !Holds(m, a) || a in m.suspended then m.kept[a] else if a in m.lost then m.program[a] else BREAKPOINT_INSN
  }

  /** The table and the model agree. */
  ghost predicate Agrees(table: BreakpointTable, m: Model)
    reads table
  {
    && table.Valid() && table.hasTasks && table.original == m.program && table.Kept() == m.kept
    && table.refs == m.refs && table.suspended == m.suspended && table.lost == m.lost
  }

  /** A breakpoint exists exactly where a reference is held, and memory is what the model says. */
  lemma OverlayFacts(table: BreakpointTable, m: Model)
    requires Agrees(table, m)
    ensures forall addr :: addr in table.breakpoints <==> Holds(m, addr)
    ensures WellFormed(m) && table.memory == Shown(m)
    ensures m.refs == multiset{} ==> table.memory == m.kept
  {
    forall addr | addr in table.breakpoints
      ensures Holds(m, addr)
    {
      var b := table.breakpoints[addr];
      assert b.Count(Internal) == m.refs[(addr, Internal)] && b.Count(User) == m.refs[(addr, User)];
    }
  }

  lemma HeldAt(table: BreakpointTable, m: Model, addr: nat)
    requires Agrees(table, m)
    ensures addr in table.breakpoints <==> Holds(m, addr)
    ensures table.memory.Keys == m.program.Keys
  {
    OverlayFacts(table, m);
  }

  method PerformWrite(table: BreakpointTable, ghost m: Model, op: Op)
    requires Agrees(table, m) && Balanced(m, op) && (op.DoWrite? || op.DoWriteRecorded?)
    modifies table
    ensures Agrees(table, Step(m, op))
  {
    hide BreakpointTable.Valid, BreakpointTable.Kept, Holds, Patched, Learned, LostAfter, Outside, AllSet;
    match op {
      case DoWrite(addr, value) =>
        HeldAt(table, m, addr);
        table.ProgramWrite(addr, value);
      case DoWriteRecorded(addr, data) =>
        HeldAt(table, m, addr);
        if data != [] {
          HeldAt(table, m, addr + |data| - 1);
          table.WriteRecorded(addr, data);
        } else {
          NothingWritten(m.program, m.suspended, m.lost, addr, false);
          NothingWritten(m.kept, m.suspended, m.lost, addr, false);
        }
    }
  }

  method PerformRemove(table: BreakpointTable, ghost m: Model, op: Op)
    requires Agrees(table, m) && Balanced(m, op) && op.DoRemove?
    modifies table
    ensures Agrees(table, Step(m, op))
  {
    hide BreakpointTable.Valid, BreakpointTable.Kept, Holds;
    HeldAt(table, m, op.addr);
    table.Remove(op.addr, op.which);
    ghost var next := m.(refs := table.refs, suspended := table.suspended, lost := table.lost);
    HeldAt(table, next, op.addr);
    SameHolder(next, m.(refs := table.refs), op.addr);
  }

  lemma SameHolder(m: Model, m': Model, addr: nat)
    requires m.refs == m'.refs
    ensures Holds(m, addr) <==> Holds(m', addr)
  {
  }

  method Perform(table: BreakpointTable, ghost m: Model, op: Op)
    requires Agrees(table, m) && Balanced(m, op)
    modifies table
    ensures Agrees(table, Step(m, op))
  {
    hide BreakpointTable.Valid, BreakpointTable.Kept, Holds, Written;
    match op {
      case DoAdd(addr, which) =>
        HeldAt(table, m, addr);
        var _ := table.Add(addr, which);
      case DoRemove(addr, which) =>
        PerformRemove(table, m, op);
      case DoRemoveAll =>
        table.RemoveAll();
      case DoSuspend(addr) =>
        HeldAt(table, m, addr);
        table.Suspend(addr);
      case DoRestore(addr) =>
        table.Restore(addr);
      case _ =>
        PerformWrite(table, m, op);
    }
  }

  /** The model of the table as it is. */
  ghost function Current(table: BreakpointTable): Model
    requires table.Valid()
    reads table
  {
    Model(table.original, table.Kept(), table.refs, table.suspended, table.lost)
  }

  /** Performs an operation if it is balanced, and does nothing otherwise. */
  method PerformBalanced(table: BreakpointTable, op: Op) returns (done: bool)
    requires table.Valid() && table.hasTasks
    modifies table
    ensures done <==> Balanced(old(Current(table)), op)
    ensures if done then Agrees(table, Step(old(Current(table)), op)) else unchanged(table)
    ensures table.Valid() && table.hasTasks && table.memory.Keys == old(table.memory).Keys
  {
    ghost var m := Current(table);
    match op {
      case DoRemove(addr, which) =>
        CountedAt(table, addr, which);
        done := addr !in table.breakpoints || table.breakpoints[addr].Count(which) > 0;
      case DoWrite(addr, _) =>
        HeldAt(table, m, addr);
        done := addr in table.memory;
      case DoWriteRecorded(addr, data) =>
        HeldAt(table, m, addr);
        done := forall a :: addr <= a < addr + |data| ==> a in table.memory;
      case _ =>
        done := true;
    }
    if done {
      HeldAt(table, m, 0);
      Perform(table, m, op);
      StepKeepsKeys(m, op);
      HeldAt(table, Step(m, op), 0);
    }
  }

  lemma CountedAt(table: BreakpointTable, addr: nat, which: BreakpointType)
    requires table.Valid() && table.hasTasks
    ensures addr in table.breakpoints <==> Holds(Current(table), addr)
    ensures addr in table.breakpoints ==> table.breakpoints[addr].Count(which) == table.refs[(addr, which)]
  {
    HeldAt(table, Current(table), addr);
  }

  lemma StepKeepsKeys(m: Model, op: Op)
    requires Balanced(m, op)
    ensures Step(m, op).program.Keys == m.program.Keys
  {
  }

  /**
   * Every history, writes over breakpoints included, leaves the table in agreement with the model:
   * breakpoints are where references are held, and memory is the kept bytes with the breakpoint byte
   * at every held address that is neither suspended nor lost.
   */
  method Execute(table: BreakpointTable, ghost m: Model, ops: seq<Op>)
    requires Agrees(table, m) && AllBalanced(m, ops)
    modifies table
    ensures Agrees(table, Run(m, ops))
    ensures forall addr :: addr in table.breakpoints <==> Holds(Run(m, ops), addr)
    ensures WellFormed(Run(m, ops)) && table.memory == Shown(Run(m, ops))
    ensures Run(m, ops).refs == multiset{} ==> table.memory == Run(m, ops).kept
    decreases ops
  {
    if ops != [] {
      hide Agrees, Holds, WellFormed, Shown, Step;
      Perform(table, m, ops[0]);
      Execute(table, Step(m, ops[0]), ops[1..]);
    } else {
      OverlayFacts(table, m);
    }
  }

  // ---- when rr is right about the program

  predicate Right(m: Model) { m.kept == m.program }

  /** A write leaves the last byte alone if that has a breakpoint. */
  predicate LastKept(m: Model, addr: nat, data: seq<byte>)
    requires data != [] && addr + |data| - 1 in m.program
  {
    Holds(m, addr + |data| - 1) ==> data[|data| - 1] == m.program[addr + |data| - 1]
  }

  predicate Harmless(m: Model, op: Op)
    requires Balanced(m, op)
  {
    match op
    case DoWrite(addr, value) => LastKept(m, addr, [value])
    case DoWriteRecorded(addr, data) => data == [] || LastKept(m, addr, data)
    case _ => true
  }

  /** Where rr is wrong. */
  function Wrong(m: Model): set<nat>
    requires m.program.Keys == m.kept.Keys
  {
    set a | a in m.kept && m.kept[a] != m.program[a]
  }

  /** A write sets right what it covers, but for a last byte with a breakpoint: that is right if the saved byte is. */
  lemma WrongAfter(m: Model, addr: nat, data: seq<byte>)
    requires m.program.Keys == m.kept.Keys && data != [] && forall a :: addr <= a < addr + |data| ==> a in m.program
    ensures var last := addr + |data| - 1;
            Wrong(Written(m, addr, data)) ==
              Outside(Wrong(m), addr, |data|)
              + if Holds(m, last) && m.kept[last] != data[|data| - 1] then {last} else {}
  {
    hide Holds, Patched, Learned, LostAfter;
    var last, next := addr + |data| - 1, Written(m, addr, data);
    assert last in m.program;
    forall a | a in m.kept
      ensures a in Wrong(next) <==>
              if addr <= a < last then false else if a == last then Holds(m, last) && m.kept[last] != data[|data| - 1]
              else a in Wrong(m)
    {
    }
  }

  lemma WrongNowhere(m: Model)
    requires m.program.Keys == m.kept.Keys
    ensures Right(m) <==> Wrong(m) == {}
  {
    if Wrong(m) == {} {
      assert forall a :: a in m.kept && m.kept[a] != m.program[a] ==> a in Wrong(m);
    }
  }

  lemma WriteRight(m: Model, addr: nat, data: seq<byte>)
    requires WellFormed(m) && Right(m) && data != [] && forall a :: addr <= a < addr + |data| ==> a in m.program
    ensures addr + |data| - 1 in m.program && (Right(Written(m, addr, data)) <==> LastKept(m, addr, data))
  {
    hide Holds, Right;
    assert addr + |data| - 1 in m.program;
    WrongAfter(m, addr, data);
    WrongNowhere(m);
    WrongNowhere(Written(m, addr, data));
    assert m.kept == m.program by { RightMeans(m); }
  }

  lemma RightMeans(m: Model)
    requires Right(m)
    ensures m.kept == m.program
  {
  }

  lemma StepRight(m: Model, op: Op)
    requires WellFormed(m) && Right(m) && Balanced(m, op)
    ensures Right(Step(m, op)) <==> Harmless(m, op)
  {
    hide Holds, Written;
    match op
    case DoWrite(addr, value) => WriteRight(m, addr, [value]);
    case DoWriteRecorded(addr, data) =>
      if data != [] {
        WriteRight(m, addr, data);
      } else {
        EmptyWrite(m, addr);
      }
    case _ =>
  }

  lemma EmptyWrite(m: Model, addr: nat)
    ensures Written(m, addr, []) == m
  {
    NothingWritten(m.program, m.suspended, m.lost, addr, false);
    NothingWritten(m.kept, m.suspended, m.lost, addr, false);
  }

  lemma StepFormed(m: Model, op: Op)
    requires WellFormed(m) && Balanced(m, op)
    ensures WellFormed(Step(m, op))
  {
    hide Written, WellFormed;
    match op
    case DoWrite(addr, value) => WrittenFormed(m, addr, [value]);
    case DoWriteRecorded(addr, data) => WrittenFormed(m, addr, data);
    case _ => QuietFormed(m, op);
  }

  lemma WrittenFormed(m: Model, addr: nat, data: seq<byte>)
    requires WellFormed(m)
    ensures WellFormed(Written(m, addr, data))
  {
    hide Patched, Learned, Holds;
    var next := Written(m, addr, data);
    forall a: nat
      ensures Holds(next, a) <==> Holds(m, a)
    {
      SameHolder(m, next, a);
    }
  }

  lemma QuietFormed(m: Model, op: Op)
    requires WellFormed(m) && Balanced(m, op) && !op.DoWrite? && !op.DoWriteRecorded?
    ensures WellFormed(Step(m, op))
  {
    hide Step, Holds;
    var next := Step(m, op);
    forall a: nat
      ensures Holds(next, a) ==> a in m.kept
      ensures a in next.suspended || a in next.lost ==> Holds(next, a)
    {
      QuietHolds(m, op, a);
    }
    assert next.program == m.program && next.kept == m.kept by { QuietHolds(m, op, 0); }
  }

  lemma QuietHolds(m: Model, op: Op, a: nat)
    requires WellFormed(m) && Balanced(m, op) && !op.DoWrite? && !op.DoWriteRecorded?
    ensures Step(m, op).program == m.program && Step(m, op).kept == m.kept
    ensures Holds(Step(m, op), a) ==> a in m.kept
    ensures a in Step(m, op).suspended || a in Step(m, op).lost ==> Holds(Step(m, op), a)
    ensures Holds(Step(m, op), a) ==> Holds(m, a) || (op.DoAdd? && op.addr == a)
  {
    hide Written, Holds;
    if op.DoAdd? {
      AddHolds(m, op.addr, op.which, a);
    } else if op.DoRemove? {
      RemoveHolds(m, op.addr, op.which, a);
      SameHolder(m.(refs := m.refs - multiset{(op.addr, op.which)}), Step(m, op), a);
    } else if op.DoRemoveAll? {
      NoneHolds(Step(m, op), a);
    } else {
      SameHolder(m, Step(m, op), a);
    }
  }

  lemma AddHolds(m: Model, addr: nat, which: BreakpointType, a: nat)
    ensures Holds(m.(refs := m.refs + multiset{(addr, which)}), a) <==> Holds(m, a) || a == addr
  {
    var refs := m.refs + multiset{(addr, which)};
    assert (a, Internal) in refs <==> (a, Internal) in m.refs || (a, Internal) == (addr, which);
    assert (a, User) in refs <==> (a, User) in m.refs || (a, User) == (addr, which);
  }

  lemma RemoveHolds(m: Model, addr: nat, which: BreakpointType, a: nat)
    ensures var next := m.(refs := m.refs - multiset{(addr, which)});
            (Holds(next, a) ==> Holds(m, a)) && (a != addr ==> (Holds(next, a) <==> Holds(m, a)))
  {
  }

  lemma NoneHolds(m: Model, a: nat)
    requires m.refs == multiset{}
    ensures !Holds(m, a)
  {
  }

  ghost predicate AlwaysRight(m: Model, ops: seq<Op>)
    decreases ops
  {
    Right(m) && (ops != [] ==> AlwaysRight(Step(m, ops[0]), ops[1..]))
  }

  predicate AllHarmless(m: Model, ops: seq<Op>)
    requires AllBalanced(m, ops)
    decreases ops
  {
    ops != [] ==> Harmless(m, ops[0]) && AllHarmless(Step(m, ops[0]), ops[1..])
  }

  /** rr is right throughout a history exactly if no write in it changes a last byte with a breakpoint. */
  lemma {:induction false} RunRight(m: Model, ops: seq<Op>)
    requires WellFormed(m) && Right(m) && AllBalanced(m, ops)
    ensures AlwaysRight(m, ops) <==> AllHarmless(m, ops)
    decreases ops
  {
    hide WellFormed, Right, Step, Balanced, Harmless;
    if ops != [] {
      StepRight(m, ops[0]);
      if Harmless(m, ops[0]) {
        StepFormed(m, ops[0]);
        RunRight(Step(m, ops[0]), ops[1..]);
      }
    }
  }

  // ---- when all breakpoints are set

  /** Every held address shows the breakpoint byte. */
  ghost predicate Armed(m: Model)
    requires WellFormed(m)
  {
    forall a :: Holds(m, a) ==> a in Shown(m) && Shown(m)[a] == BREAKPOINT_INSN
  }

  /** Another byte is put where a breakpoint is: a saved one by suspending, or the last one of a write. */
  predicate Disarms(m: Model, op: Op) {
    match op
    case DoSuspend(addr) => Holds(m, addr) && addr in m.kept && m.kept[addr] != BREAKPOINT_INSN
    case DoWrite(addr, value) => Holds(m, addr) && value != BREAKPOINT_INSN
    case DoWriteRecorded(addr, data) =>
      data != [] && Holds(m, addr + |data| - 1) && data[|data| - 1] != BREAKPOINT_INSN
    case _ => false
  }

  lemma HeldIsKept(m: Model, a: nat)
    requires WellFormed(m) && Holds(m, a)
    ensures a in m.kept
  {
  }

  /** What a held address shows after a write. */
  lemma ShownAfterWrite(m: Model, addr: nat, data: seq<byte>, a: nat)
    requires WellFormed(m) && Holds(m, a) && data != [] && forall a :: addr <= a < addr + |data| ==> a in m.program
    requires WellFormed(Written(m, addr, data))
    ensures a in m.kept && Holds(Written(m, addr, data), a)
    ensures Shown(Written(m, addr, data))[a] ==
              if !(addr <= a < addr + |data|) then Shown(m)[a]
              else if a == addr + |data| - 1 then data[|data| - 1] else BREAKPOINT_INSN
  {
    HeldIsKept(m, a);
    SameHolder(m, Written(m, addr, data), a);
    hide WellFormed, Patched, Learned;
    SameHolder(m, Written(m, addr, data), addr + |data| - 1);
  }

  lemma WriteArmed(m: Model, addr: nat, data: seq<byte>)
    requires WellFormed(m) && Armed(m) && data != [] && forall a :: addr <= a < addr + |data| ==> a in m.program
    requires WellFormed(Written(m, addr, data))
    ensures Armed(Written(m, addr, data)) <==>
              (Holds(m, addr + |data| - 1) ==> data[|data| - 1] == BREAKPOINT_INSN)
  {
    hide WellFormed, Shown, Written, Holds;
    var next, last := Written(m, addr, data), addr + |data| - 1;
    forall a: nat
      ensures Holds(next, a) <==> Holds(m, a)
      ensures Holds(m, a) ==>
                && a in Shown(next) && a in Shown(m)
                && Shown(next)[a] == if !(addr <= a < addr + |data|) then Shown(m)[a]
                                     else if a == last then data[|data| - 1] else BREAKPOINT_INSN
    {
      WrittenRefs(m, addr, data);
      SameHolder(m, next, a);
      if Holds(m, a) {
        ShownAfterWrite(m, addr, data, a);
        ShownKeys(m);
        ShownKeys(next);
        HeldIsKept(next, a);
      }
    }
  }

  lemma WrittenRefs(m: Model, addr: nat, data: seq<byte>)
    ensures Written(m, addr, data).refs == m.refs
  {
  }

  lemma ShownKeys(m: Model)
    requires WellFormed(m)
    ensures Shown(m).Keys == m.kept.Keys
  {
  }

  lemma StepArmed(m: Model, op: Op)
    requires WellFormed(m) && Armed(m) && Balanced(m, op) && WellFormed(Step(m, op))
    ensures Armed(Step(m, op)) <==> !Disarms(m, op)
  {
    hide WellFormed, Armed, Holds, Written;
    match op
    case DoWrite(addr, value) => WriteArmed(m, addr, [value]);
    case DoWriteRecorded(addr, data) =>
      if data != [] {
        WriteArmed(m, addr, data);
      } else {
        EmptyWrite(m, addr);
      }
    case _ => QuietArmed(m, op);
  }

  lemma QuietArmed(m: Model, op: Op)
    requires WellFormed(m) && Armed(m) && Balanced(m, op) && WellFormed(Step(m, op))
    requires !op.DoWrite? && !op.DoWriteRecorded?
    ensures Armed(Step(m, op)) <==> !Disarms(m, op)
  {
    hide WellFormed, Shown, Step, Holds, Balanced;
    var next := Step(m, op);
    forall a: nat | Holds(next, a)
      ensures a in m.kept && a in Shown(next)
      ensures Shown(next)[a] == if op == DoSuspend(a) then m.kept[a] else BREAKPOINT_INSN
    {
      ShownQuietly(m, op, a);
    }
    if op.DoSuspend? {
      SuspendHolds(m, op.addr);
    }
  }

  lemma SuspendHolds(m: Model, addr: nat)
    requires WellFormed(m)
    ensures Holds(Step(m, DoSuspend(addr)), addr) <==> Holds(m, addr)
    ensures Holds(m, addr) ==> addr in m.kept
  {
  }

  lemma ShownQuietly(m: Model, op: Op, a: nat)
    requires WellFormed(m) && Armed(m) && Balanced(m, op) && WellFormed(Step(m, op)) && Holds(Step(m, op), a)
    requires !op.DoWrite? && !op.DoWriteRecorded?
    ensures a in m.kept && a in Shown(Step(m, op))
    ensures Shown(Step(m, op))[a] == if op == DoSuspend(a) then m.kept[a] else BREAKPOINT_INSN
  {
    hide Written, Holds;
    QuietHolds(m, op, a);
    if Holds(m, a) {
      assert Shown(m)[a] == BREAKPOINT_INSN;
    }
  }

  ghost predicate AlwaysArmed(m: Model, ops: seq<Op>)
    decreases ops
  {
    && WellFormed(m) && Armed(m)
    && (ops != [] ==> AlwaysArmed(Step(m, ops[0]), ops[1..]))
  }

  predicate NoneDisarms(m: Model, ops: seq<Op>)
    decreases ops
  {
    ops != [] ==> !Disarms(m, ops[0]) && NoneDisarms(Step(m, ops[0]), ops[1..])
  }

  /** All breakpoints show throughout a history exactly if none of its operations puts another byte in place of one. */
  lemma {:induction false} RunArmed(m: Model, ops: seq<Op>)
    requires WellFormed(m) && Armed(m) && AllBalanced(m, ops)
    ensures AlwaysArmed(m, ops) <==> NoneDisarms(m, ops)
    decreases ops
  {
    hide WellFormed, Armed, Step, Balanced, Disarms;
    if ops != [] {
      StepFormed(m, ops[0]);
      StepArmed(m, ops[0]);
      if !Disarms(m, ops[0]) {
        RunArmed(Step(m, ops[0]), ops[1..]);
      }
    }
  }

  /** A recorded write of one byte over a breakpoint: rr is wrong, and removing the breakpoint undoes the write. */
  method LastByteMissed() returns (table: BreakpointTable)
    ensures fresh(table) && table.Valid() && table.breakpoints == map[]
    ensures table.original == map[0 := 2] && table.memory == map[0 := 1]
  {
    hide Overlaid, CountedBy, AllPositive, AllSet, LostAfter, Outside;
    table := new BreakpointTable(map[0 := 1]);
    var ok := table.Add(0, Internal);
    table.WriteRecorded(0, [2]);
    table.RemoveAll();
  }

  /** The same with the byte that is there: rr is right, but the breakpoint no longer shows. */
  method LastByteLost() returns (table: BreakpointTable)
    ensures fresh(table) && table.Valid() && table.Kept() == table.original
    ensures (0, User) in table.refs && table.suspended == {} && table.memory == map[0 := 1]
  {
    table := new BreakpointTable(map[0 := 1]);
    var ok := table.Add(0, User);
    table.WriteRecorded(0, [1]);
  }
}
