/**
 * Every history of monitored descriptors, over tables and address spaces that tasks share, copy and
 * leave: each slot of an array tells what was monitored when it was last recomputed.
 */
module FdHistory {
  import opened Prelude
  import opened FdTables

  datatype Op =
    | DoAddMonitor(task: nat, fd: nat, monitor: Monitor)
    | DoDup(task: nat, from: nat, to: nat)
    | DoClose(task: nat, fd: nat)
    | DoInit(task: nat)
    | DoClone(task: nat, child: nat, shareFiles: bool, shareVm: bool, newTable: nat, newVm: nat)
    | DoUnshare(task: nat, newTable: nat)
    | DoExec(task: nat, newTable: nat, newVm: nat)
    | DoExit(task: nat)

  /** The operations that take no task out of an address space and copy none. */
  predicate Staying(op: Op) {
    !op.DoExec? && !op.DoExit? && (op.DoClone? ==> op.shareVm)
  }

  type Descriptors = map<nat, map<nat, Monitor>>

  /** An address space as it was at some time. */
  datatype Moment = Moment(tasks: map<nat, Task>, fds: Descriptors, vm: nat)

  /** Some task of the address space monitored into the slot. */
  ghost predicate Monitored(m: Moment, slot: nat) {
    exists t, fd ::
      && t in m.tasks && m.tasks[t].vm == m.vm && m.tasks[t].table in m.fds
      && fd in m.fds[m.tasks[t].table] && Cap(fd) == slot
  }

  /**
   * The reference: who has which table and address space, what each table monitors, which address
   * spaces have an array, and when each slot of it was last recomputed.
   */
  datatype World = World(tasks: map<nat, Task>, fds: Descriptors, arrays: map<nat, bool>, log: (nat, nat) -> Moment)

  /** Descriptor `fd` of a table changes: its slot is recomputed in every address space that uses the table. */
  ghost function Changed(w: World, table: nat, fd: nat, fds: map<nat, Monitor>): World {
    var now := w.fds[table := fds];
    w.(fds := now,
       log := (v: nat, slot: nat) =>
         if slot == Cap(fd) && Uses(w.tasks, v, table) then Moment(w.tasks, now, v) else w.log(v, slot))
  }

  ghost predicate Formed(w: World) {
    forall t :: t in w.tasks ==> w.tasks[t].table in w.fds && w.tasks[t].vm in w.arrays
  }

  /** Operations of tasks that are not there, or with identities that are taken, cannot happen. */
  predicate Fits(tasks: set<nat>, tables: set<nat>, vms: set<nat>, op: Op) {
    && op.task in tasks
    && (op.DoClone? ==> op.child !in tasks && op.newVm !in vms)
    && (op.DoExec? ==> op.newVm !in vms)
    && (op.DoClone? || op.DoUnshare? || op.DoExec? ==> op.newTable !in tables)
  }

  predicate Possible(w: World, op: Op) { Fits(w.tasks.Keys, w.fds.Keys, w.arrays.Keys, op) }

  lemma {:induction false} SomeUntaken(taken: set<nat>) returns (n: nat)
    ensures forall x :: x in taken ==> x < n
    decreases taken
  {
    n := 0;
    if taken != {} {
      var x :| x in taken;
      var m := SomeUntaken(taken - {x});
      n := if m <= x then x + 1 else m;
      assert forall y :: y in taken ==> y == x || y in taken - {x};
    }
  }

  /** Whatever a task of the world calls can happen, under some new names where the call makes something new. */
  lemma CallsHappen(w: World, task: nat, child: nat, shareFiles: bool, shareVm: bool)
    returns (newTable: nat, newVm: nat)
    requires task in w.tasks
    ensures forall fd, m :: Possible(w, DoAddMonitor(task, fd, m))
    ensures forall from, to :: Possible(w, DoDup(task, from, to))
    ensures forall fd :: Possible(w, DoClose(task, fd))
    ensures Possible(w, DoInit(task)) && Possible(w, DoExit(task))
    ensures Possible(w, DoUnshare(task, newTable)) && Possible(w, DoExec(task, newTable, newVm))
    ensures Possible(w, DoClone(task, child, shareFiles, shareVm, newTable, newVm)) <==> child !in w.tasks
    ensures forall op: Op :: op.task !in w.tasks ==> !Possible(w, op)
  {
    newTable := SomeUntaken(w.fds.Keys);
    newVm := SomeUntaken(w.arrays.Keys);
  }

  ghost function Step(w: World, op: Op): World
    requires Formed(w) && Possible(w, op)
  {
    var Task(vm, table) := w.tasks[op.task];
    var fds := w.fds[table];
    match op
    case DoAddMonitor(_, fd, m) => if fd in fds then w else Changed(w, table, fd, fds[fd := m])
    case DoDup(_, from, to) => Changed(w, table, to, if from in fds then fds[to := fds[from]] else fds - {to})
    case DoClose(_, fd) => Changed(w, table, fd, fds - {fd})
    case DoInit(_) =>
      w.(arrays := w.arrays[vm := true],
         log := (v: nat, slot: nat) => if v == vm then Moment(w.tasks, w.fds, vm) else w.log(v, slot))
    case DoClone(_, child, shareFiles, shareVm, newTable, newVm) =>
      w.(tasks := w.tasks[child := Task(if shareVm then vm else newVm, if shareFiles then table else newTable)],
         fds := if shareFiles then w.fds else w.fds[newTable := fds],
         arrays := if shareVm then w.arrays else w.arrays[newVm := w.arrays[vm]],
         log := (v: nat, slot: nat) => if !shareVm && v == newVm then w.log(vm, slot) else w.log(v, slot))
    case DoUnshare(task, newTable) =>
      w.(tasks := w.tasks[task := Task(vm, newTable)], fds := w.fds[newTable := fds])
    case DoExec(task, newTable, newVm) =>
      w.(tasks := w.tasks[task := Task(newVm, newTable)], fds := w.fds[newTable := fds],
         arrays := w.arrays[newVm := false])
    case DoExit(task) => w.(tasks := w.tasks - {task})
  }

  lemma StepFormed(w: World, op: Op)
    requires Formed(w) && Possible(w, op)
    ensures Formed(Step(w, op))
  {
  }

  ghost function Run(w: World, ops: seq<Op>): World
    requires Formed(w)
    decreases ops
  {
    if ops == [] then w
    else
      var next := if Possible(w, ops[0]) then StepFormed(w, ops[0]); Step(w, ops[0]) else w;
      Run(next, ops[1..])
  }

  // ---- what the recorder has to do with it

  ghost predicate SameFds(tables: map<nat, Table>, fds: Descriptors) {
    tables.Keys == fds.Keys && forall n :: n in fds ==> tables[n].fds == fds[n]
  }

  ghost predicate SameArrays(vms: map<nat, Vm>, arrays: map<nat, bool>) {
    vms.Keys == arrays.Keys && forall v :: v in arrays ==> vms[v].disabled.Some? == arrays[v]
  }

  /** Each slot of each array tells what was monitored when it was last recomputed. */
  ghost predicate Told(vms: map<nat, Vm>, log: (nat, nat) -> Moment) {
    forall v, slot: nat :: v in vms && vms[v].disabled.Some? && slot < |vms[v].disabled.value| ==>
      (vms[v].disabled.value[slot] <==> Monitored(log(v, slot), slot))
  }

  ghost predicate Agrees(r: Recorder, w: World)
    reads r
  {
    r.Valid() && r.tasks == w.tasks && SameFds(r.tables, w.fds) && SameArrays(r.vms, w.arrays) && Told(r.vms, w.log)
  }

  lemma AgreesFormed(r: Recorder, w: World)
    requires Agrees(r, w)
    ensures Formed(w)
  {
  }

  lemma NowMonitored(tasks: map<nat, Task>, tables: map<nat, Table>, fds: Descriptors, v: nat, slot: nat)
    requires SameFds(tables, fds) && forall t :: t in tasks ==> tasks[t].table in tables
    ensures MonitoredIn(tasks, tables, v, slot) <==> Monitored(Moment(tasks, fds, v), slot)
  {
    hide Cap;
    if MonitoredIn(tasks, tables, v, slot) {
      var t, fd :| t in tasks && tasks[t].vm == v && fd in tables[tasks[t].table].fds && Cap(fd) == slot;
      assert fd in fds[tasks[t].table];
    }
    if Monitored(Moment(tasks, fds, v), slot) {
      var t, fd :|
        t in tasks && tasks[t].vm == v && tasks[t].table in fds && fd in fds[tasks[t].table] && Cap(fd) == slot;
      assert fd in tables[tasks[t].table].fds;
    }
  }

  lemma ChangedTold(w: World, tables: map<nat, Table>, vms: map<nat, Vm>, vms': map<nat, Vm>, table: nat, fd: nat,
                    fds: map<nat, Monitor>)
    requires Told(vms, w.log) && SameFds(tables, w.fds[table := fds]) && AllCounted(tables)
    requires vms'.Keys == vms.Keys && WellFormed(w.tasks, tables, vms)
    requires forall v :: v in vms ==> vms'[v] == UpdatedVm(w.tasks, tables, vms[v], table, fd, v)
    ensures Told(vms', Changed(w, table, fd, fds).log)
  {
    hide Cap, Monitored, WatchedIn, MonitoredIn, Counted, Uses, SameFds;
    var log := Changed(w, table, fd, fds).log;
    forall v, slot: nat | v in vms' && vms'[v].disabled.Some? && slot < |vms'[v].disabled.value|
      ensures vms'[v].disabled.value[slot] <==> Monitored(log(v, slot), slot)
    {
      assert vms'[v] == UpdatedVm(w.tasks, tables, vms[v], table, fd, v);
      if slot == Cap(fd) && Uses(w.tasks, v, table) {
        WatchedExactly(w.tasks, tables, v, slot);
        NowMonitored(w.tasks, tables, w.fds[table := fds], v, slot);
      }
    }
  }

  /** What there is to know of an agreeing recorder, field by field. */
  lemma AgreesMeans(r: Recorder, w: World)
    ensures Agrees(r, w) <==>
              && r.Valid() && r.tasks == w.tasks && SameFds(r.tables, w.fds) && SameArrays(r.vms, w.arrays)
              && Told(r.vms, w.log)
    ensures r.Valid() ==> WellFormed(r.tasks, r.tables, r.vms) && AllCounted(r.tables)
  {
  }

  lemma OneTable(tables: map<nat, Table>, tables': map<nat, Table>, fds: Descriptors, table: nat,
                 changed: map<nat, Monitor>)
    requires SameFds(tables, fds) && table in tables && tables'.Keys == tables.Keys
    requires tables'[table].fds == changed && forall n :: n in tables' && n != table ==> tables'[n] == tables[n]
    ensures SameFds(tables', fds[table := changed])
  {
  }

  lemma UpdatedArrays(tasks: map<nat, Task>, tables: map<nat, Table>, vms: map<nat, Vm>, vms': map<nat, Vm>,
                      arrays: map<nat, bool>, table: nat, fd: nat)
    requires SameArrays(vms, arrays) && vms'.Keys == vms.Keys && WellFormed(tasks, tables, vms)
    requires forall v :: v in vms ==> vms'[v] == UpdatedVm(tasks, tables, vms[v], table, fd, v)
    ensures SameArrays(vms', arrays)
  {
    hide Uses, WatchedIn, Cap;
  }

  /** One descriptor of one table has changed and the arrays are up to date. */
  lemma ChangedAgrees(r: Recorder, w: World, tables: map<nat, Table>, vms: map<nat, Vm>, table: nat, fd: nat,
                      fds: map<nat, Monitor>)
    requires WellFormed(w.tasks, tables, vms) && SameFds(tables, w.fds) && SameArrays(vms, w.arrays) && Told(vms, w.log)
    requires r.Valid() && r.tasks == w.tasks && table in tables && r.tables.Keys == tables.Keys
    requires r.tables[table].fds == fds && forall n :: n in r.tables && n != table ==> r.tables[n] == tables[n]
    requires r.vms.Keys == vms.Keys && WellFormed(w.tasks, r.tables, vms)
    requires forall v :: v in vms ==> r.vms[v] == UpdatedVm(w.tasks, r.tables, vms[v], table, fd, v)
    ensures Agrees(r, Changed(w, table, fd, fds))
  {
    hide Recorder.Valid, Told, SameFds, SameArrays, UpdatedVm, WellFormed;
    AgreesMeans(r, Changed(w, table, fd, fds));
    OneTable(tables, r.tables, w.fds, table, fds);
    UpdatedArrays(w.tasks, r.tables, vms, r.vms, w.arrays, table, fd);
    ChangedTold(w, r.tables, vms, r.vms, table, fd, fds);
  }

  method PerformChange(r: Recorder, ghost w: World, op: Op)
    requires Agrees(r, w) && Possible(w, op) && (op.DoAddMonitor? || op.DoDup? || op.DoClose?)
    modifies r
    ensures Formed(w) && Agrees(r, Step(w, op)) && (old(r.Exact()) && Staying(op) ==> r.Exact())
  {
    hide Recorder.Valid, Recorder.Exact, UpdatedVm, Told, SameArrays, Changed;
    AgreesFormed(r, w);
    AgreesMeans(r, w);
    ghost var tables, vms, table := r.tables, r.vms, w.tasks[op.task].table;
    ghost var fds := w.fds[table];
    match op {
      case DoAddMonitor(task, fd, m) =>
        var ok := r.AddMonitor(task, fd, m);
        if ok {
          ChangedAgrees(r, w, tables, vms, table, fd, fds[fd := m]);
        }
      case DoDup(task, from, to) =>
        r.DidDup(task, from, to);
        ChangedAgrees(r, w, tables, vms, table, to, if from in fds then fds[to := fds[from]] else fds - {to});
      case DoClose(task, fd) =>
        r.DidClose(task, fd);
        ChangedAgrees(r, w, tables, vms, table, fd, fds - {fd});
    }
  }

  method PerformInit(r: Recorder, ghost w: World, op: Op)
    requires Agrees(r, w) && Possible(w, op) && op.DoInit?
    modifies r
    ensures Formed(w) && Agrees(r, Step(w, op)) && (old(r.Exact()) && Staying(op) ==> r.Exact())
  {
    hide Covered, Counted, ExactIn, MonitoredIn, Monitored;
    AgreesFormed(r, w);
    r.InitSyscallbufFdsDisabled(op.task);
    ghost var v := w.tasks[op.task].vm;
    forall slot: nat | slot < LIMIT
      ensures MonitoredIn(r.tasks, r.tables, v, slot) <==> Monitored(Moment(w.tasks, w.fds, v), slot)
    {
      NowMonitored(r.tasks, r.tables, w.fds, v, slot);
    }
  }

  lemma CopiedFds(tables: map<nat, Table>, fds: Descriptors, table: nat, n: nat)
    requires SameFds(tables, fds) && table in tables
    ensures SameFds(tables[n := tables[table]], fds[n := fds[table]])
  {
  }

  lemma CopiedArray(vms: map<nat, Vm>, arrays: map<nat, bool>, log: (nat, nat) -> Moment, vm: nat, n: nat)
    requires SameArrays(vms, arrays) && Told(vms, log) && vm in vms
    ensures SameArrays(vms[n := vms[vm]], arrays[n := arrays[vm]])
    ensures Told(vms[n := vms[vm]], (v: nat, slot: nat) => if v == n then log(vm, slot) else log(v, slot))
  {
    hide Monitored;
  }

  lemma NoArray(vms: map<nat, Vm>, arrays: map<nat, bool>, log: (nat, nat) -> Moment, n: nat)
    requires SameArrays(vms, arrays) && Told(vms, log)
    ensures SameArrays(vms[n := Vm(None)], arrays[n := false]) && Told(vms[n := Vm(None)], log)
  {
    hide Monitored;
  }

  lemma SameLog(vms: map<nat, Vm>, log: (nat, nat) -> Moment, log': (nat, nat) -> Moment)
    requires Told(vms, log) && forall v: nat, slot: nat :: log'(v, slot) == log(v, slot)
    ensures Told(vms, log')
  {
    hide Monitored;
  }

  method PerformClone(r: Recorder, ghost w: World, op: Op)
    requires Agrees(r, w) && Possible(w, op) && op.DoClone?
    modifies r
    ensures Formed(w) && Agrees(r, Step(w, op)) && (old(r.Exact()) && Staying(op) ==> r.Exact())
  {
    hide Recorder.Valid, Recorder.Exact, Told, SameFds, SameArrays, Alone;
    AgreesFormed(r, w);
    AgreesMeans(r, w);
    TakenNames(r, w);
    ghost var vm, table := w.tasks[op.task].vm, w.tasks[op.task].table;
    CopiedFds(r.tables, w.fds, table, op.newTable);
    CopiedArray(r.vms, w.arrays, w.log, vm, op.newVm);
    r.CloneTask(op.task, op.child, op.shareFiles, op.shareVm, op.newTable, op.newVm);
    ghost var next := Step(w, op);
    if op.shareVm {
      SameLog(r.vms, w.log, next.log);
    } else {
      SameLog(r.vms, (v: nat, slot: nat) => if v == op.newVm then w.log(vm, slot) else w.log(v, slot), next.log);
    }
    AgreesMeans(r, next);
  }

  method PerformLeave(r: Recorder, ghost w: World, op: Op)
    requires Agrees(r, w) && Possible(w, op) && (op.DoUnshare? || op.DoExec? || op.DoExit?)
    modifies r
    ensures Formed(w) && Agrees(r, Step(w, op)) && (old(r.Exact()) && Staying(op) ==> r.Exact())
  {
    hide Recorder.Valid, Recorder.Exact, Told, SameFds, SameArrays, Replaceable;
    AgreesFormed(r, w);
    AgreesMeans(r, w);
    TakenNames(r, w);
    ghost var table := w.tasks[op.task].table;
    match op {
      case DoUnshare(task, newTable) =>
        CopiedFds(r.tables, w.fds, table, newTable);
        r.Unshare(task, newTable);
      case DoExec(task, newTable, newVm) =>
        CopiedFds(r.tables, w.fds, table, newTable);
        NoArray(r.vms, w.arrays, w.log, newVm);
        r.Exec(task, newTable, newVm);
      case DoExit(task) =>
        r.Exit(task);
    }
    AgreesMeans(r, Step(w, op));
  }

  lemma TakenNames(r: Recorder, w: World)
    requires Agrees(r, w)
    ensures r.tables.Keys == w.fds.Keys && r.vms.Keys == w.arrays.Keys
    ensures forall t :: t in w.tasks ==> w.tasks[t].table in r.tables && w.tasks[t].vm in r.vms
  {
  }

  method Perform(r: Recorder, ghost w: World, op: Op)
    requires Agrees(r, w) && Possible(w, op)
    modifies r
    ensures Formed(w) && Agrees(r, Step(w, op)) && (old(r.Exact()) && Staying(op) ==> r.Exact())
  {
    hide Step, Formed, Recorder.Exact, Recorder.Valid, Told, SameFds, SameArrays;
    match op {
      case DoInit(_) => PerformInit(r, w, op);
      case DoClone(_, _, _, _, _, _) => PerformClone(r, w, op);
      case DoAddMonitor(_, _, _) => PerformChange(r, w, op);
      case DoDup(_, _, _) => PerformChange(r, w, op);
      case DoClose(_, _) => PerformChange(r, w, op);
      case _ => PerformLeave(r, w, op);
    }
  }

  /**
   * After any history the recorder agrees with the reference: the counts are exact, whatever a task
   * monitors is disabled in its address space, and a slot is disabled exactly if it was monitored when
   * it was last recomputed, in this address space or in the one it was copied from. While no task leaves
   * an address space or copies one, that is exactly what is monitored now.
   */
  method Execute(r: Recorder, ghost w: World, ops: seq<Op>)
    requires Agrees(r, w)
    modifies r
    ensures Formed(w) && Agrees(r, Run(w, ops))
    ensures forall n :: n in r.tables ==> r.tables[n].beyondLimit == |Beyond(r.tables[n].fds)|
    ensures forall t, fd ::
              t in r.tasks && fd in r.tables[r.tasks[t].table].fds && r.vms[r.tasks[t].vm].disabled.Some? ==>
                r.vms[r.tasks[t].vm].disabled.value[Cap(fd)]
    ensures forall v, slot: nat :: v in r.vms && r.vms[v].disabled.Some? && slot < LIMIT ==>
              (r.vms[v].disabled.value[slot] <==> Monitored(Run(w, ops).log(v, slot), slot))
    ensures old(r.Exact()) && (forall op :: op in ops ==> Staying(op)) ==> r.Exact()
    decreases ops
  {
    hide Step, Formed, Told, Fits, Recorder.Exact, Staying;
    AgreesFormed(r, w);
    if ops != [] {
      TakenNames(r, w);
      ghost var next := w;
      if Fits(r.tasks.Keys, r.tables.Keys, r.vms.Keys, ops[0]) {
        Perform(r, w, ops[0]);
        next := Step(w, ops[0]);
      }
      Execute(r, next, ops[1..]);
    } else {
      ToldMeans(r, w);
    }
  }

  lemma ToldMeans(r: Recorder, w: World)
    requires Agrees(r, w)
    ensures forall v, slot: nat :: v in r.vms && r.vms[v].disabled.Some? && slot < LIMIT ==>
              |r.vms[v].disabled.value| == LIMIT && (r.vms[v].disabled.value[slot] <==> Monitored(w.log(v, slot), slot))
  {
    hide Monitored, Covered, Counted;
  }
}
