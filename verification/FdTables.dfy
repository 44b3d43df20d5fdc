/**
 * Monitored file descriptors: tables shared between tasks, and in each address space an array
 * that tells the preloaded code which descriptors it must not handle itself.
 */
module FdTables {
  import opened Prelude

  /** SYSCALLBUF_FDS_DISABLED_SIZE */
  const LIMIT: nat := 1024

  type Monitor = nat

  datatype Table = Table(fds: map<nat, Monitor>, beyondLimit: int)

  datatype Task = Task(vm: nat, table: nat)

  /** The array of an address space, once its preload library has been set up. */
  datatype Vm = Vm(disabled: Option<seq<bool>>)

  function Cap(fd: nat): (slot: nat)
    ensures slot < LIMIT
  {
    if fd >= LIMIT then LIMIT - 1 else fd
  }

  ghost function Beyond(fds: map<nat, Monitor>): set<nat> {
    set fd | fd in fds && fd >= LIMIT
  }

  /** The count is the number of monitored descriptors at or above the limit. */
  ghost predicate Counted(table: Table) { table.beyondLimit == |Beyond(table.fds)| }

  lemma BeyondAdd(fds: map<nat, Monitor>, fd: nat, m: Monitor)
    ensures |Beyond(fds[fd := m])| == |Beyond(fds)| + if fd >= LIMIT && fd !in fds then 1 else 0
  {
    if fd >= LIMIT {
      assert Beyond(fds[fd := m]) == Beyond(fds) + {fd};
    } else {
      assert Beyond(fds[fd := m]) == Beyond(fds);
    }
  }

  lemma BeyondRemove(fds: map<nat, Monitor>, fd: nat)
    ensures |Beyond(fds - {fd})| == |Beyond(fds)| - if fd >= LIMIT && fd in fds then 1 else 0
  {
    assert Beyond(fds - {fd}) == Beyond(fds) - {fd};
  }

  // ---- what is monitored

  /** The source's test for one table. */
  predicate Watches(table: Table, slot: nat) {
    slot in table.fds || (slot >= LIMIT - 1 && table.beyondLimit > 0)
  }

  /** The count makes the test exact: some monitored descriptor has this slot. */
  lemma WatchesExactly(table: Table, slot: nat)
    requires Counted(table) && slot < LIMIT
    ensures Watches(table, slot) <==> exists fd :: fd in table.fds && Cap(fd) == slot
  {
    if slot in table.fds {
      assert Cap(slot) == slot;
    } else if Watches(table, slot) {
      var fd :| fd in Beyond(table.fds);
      assert fd in table.fds && Cap(fd) == slot;
    }
    if exists fd :: fd in table.fds && Cap(fd) == slot {
      var fd :| fd in table.fds && Cap(fd) == slot;
      assert fd >= LIMIT ==> fd in Beyond(table.fds);
    }
  }

  predicate WellFormed(tasks: map<nat, Task>, tables: map<nat, Table>, vms: map<nat, Vm>) {
    && (forall t :: t in tasks ==> tasks[t].table in tables && tasks[t].vm in vms)
    && (forall v :: v in vms ==> Sized(vms[v]))
  }

  ghost predicate AllCounted(tables: map<nat, Table>) { forall n :: n in tables ==> Counted(tables[n]) }

  /** Some task of the address space watches this slot. */
  predicate WatchedIn(tasks: map<nat, Task>, tables: map<nat, Table>, vm: nat, slot: nat)
    requires forall t :: t in tasks ==> tasks[t].table in tables
  {
    exists t :: t in tasks && tasks[t].vm == vm && Watches(tables[tasks[t].table], slot)
  }

  /** What any task of the address space monitors is disabled there. */
  ghost predicate Covered(tasks: map<nat, Task>, tables: map<nat, Table>, vms: map<nat, Vm>)
    requires WellFormed(tasks, tables, vms)
  {
    forall t, fd :: t in tasks && fd in tables[tasks[t].table].fds && vms[tasks[t].vm].disabled.Some? ==>
      vms[tasks[t].vm].disabled.value[Cap(fd)]
  }

  predicate Uses(tasks: map<nat, Task>, vm: nat, table: nat) {
    exists t :: t in tasks && tasks[t].vm == vm && tasks[t].table == table
  }

  predicate Sized(d: Vm) { d.disabled.Some? ==> |d.disabled.value| == LIMIT }

  function UpdatedVm(tasks: map<nat, Task>, tables: map<nat, Table>, d: Vm, table: nat, fd: nat, v: nat): Vm
    requires Sized(d) && forall t :: t in tasks ==> tasks[t].table in tables
  {
    if d.disabled.Some? && Uses(tasks, v, table)
    then Vm(Some(d.disabled.value[Cap(fd) := WatchedIn(tasks, tables, v, Cap(fd))]))
    else d
  }

  /** After one table changed at one descriptor, recomputing its slot restores the cover. */
  lemma UpdateCovers(tasks: map<nat, Task>, tables: map<nat, Table>, tables': map<nat, Table>, vms: map<nat, Vm>,
                     vms': map<nat, Vm>, table: nat, fd: nat)
    requires WellFormed(tasks, tables, vms) && Covered(tasks, tables, vms) && AllCounted(tables')
    requires tables'.Keys == tables.Keys && table in tables
    requires forall n :: n in tables && n != table ==> tables'[n] == tables[n]
    requires tables'[table].fds.Keys - {fd} == tables[table].fds.Keys - {fd}
    requires WellFormed(tasks, tables', vms) && vms'.Keys == vms.Keys
    requires forall v :: v in vms ==> vms'[v] == UpdatedVm(tasks, tables', vms[v], table, fd, v)
    ensures WellFormed(tasks, tables', vms') && Covered(tasks, tables', vms')
  {
    forall t, f | t in tasks && f in tables'[tasks[t].table].fds && vms'[tasks[t].vm].disabled.Some?
      ensures vms'[tasks[t].vm].disabled.value[Cap(f)]
    {
      var v, n := tasks[t].vm, tasks[t].table;
      assert vms'[v] == UpdatedVm(tasks, tables', vms[v], table, fd, v);
      WatchesExactly(tables'[n], Cap(f));
      if n == table && f == fd {
      } else {
        assert f in tables[n].fds by {
          if n == table { assert f in tables'[table].fds.Keys - {fd}; }
        }
        assert vms[v].disabled.value[Cap(f)];
      }
    }
  }

  /** In every array exactly the slots that some task of the address space monitors into are disabled. */
  ghost predicate ExactIn(tasks: map<nat, Task>, tables: map<nat, Table>, vms: map<nat, Vm>)
    requires WellFormed(tasks, tables, vms)
  {
    forall v, slot :: v in vms && vms[v].disabled.Some? && 0 <= slot < LIMIT ==>
      (vms[v].disabled.value[slot] <==> MonitoredIn(tasks, tables, v, slot))
  }

  /** A change at one descriptor changes what is monitored at its slot only. */
  lemma OtherSlots(tasks: map<nat, Task>, tables: map<nat, Table>, tables': map<nat, Table>, table: nat, fd: nat,
                   v: nat, slot: nat)
    requires forall t :: t in tasks ==> tasks[t].table in tables
    requires tables'.Keys == tables.Keys && table in tables
    requires forall n :: n in tables && n != table ==> tables'[n] == tables[n]
    requires tables'[table].fds.Keys - {fd} == tables[table].fds.Keys - {fd}
    requires slot != Cap(fd) || !Uses(tasks, v, table)
    ensures MonitoredIn(tasks, tables', v, slot) <==> MonitoredIn(tasks, tables, v, slot)
  {
    hide Cap;
    forall t, f | t in tasks && tasks[t].vm == v && Cap(f) == slot
      ensures f in tables'[tasks[t].table].fds <==> f in tables[tasks[t].table].fds
    {
      if tasks[t].table == table {
        assert f != fd;
        assert f in tables'[table].fds.Keys - {fd} <==> f in tables[table].fds.Keys - {fd};
      }
    }
  }

  lemma UpdateExact(tasks: map<nat, Task>, tables: map<nat, Table>, tables': map<nat, Table>, vms: map<nat, Vm>,
                    vms': map<nat, Vm>, table: nat, fd: nat)
    requires WellFormed(tasks, tables, vms) && ExactIn(tasks, tables, vms) && AllCounted(tables')
    requires tables'.Keys == tables.Keys && table in tables
    requires forall n :: n in tables && n != table ==> tables'[n] == tables[n]
    requires tables'[table].fds.Keys - {fd} == tables[table].fds.Keys - {fd}
    requires WellFormed(tasks, tables', vms) && WellFormed(tasks, tables', vms') && vms'.Keys == vms.Keys
    requires forall v :: v in vms ==> vms'[v] == UpdatedVm(tasks, tables', vms[v], table, fd, v)
    ensures ExactIn(tasks, tables', vms')
  {
    hide MonitoredIn, WatchedIn, Counted, Uses;
    forall v, slot: nat | v in vms' && vms'[v].disabled.Some? && slot < LIMIT
      ensures vms'[v].disabled.value[slot] <==> MonitoredIn(tasks, tables', v, slot)
    {
      assert vms'[v] == UpdatedVm(tasks, tables', vms[v], table, fd, v);
      if Uses(tasks, v, table) && slot == Cap(fd) {
        WatchedExactly(tasks, tables', v, slot);
      } else {
        OtherSlots(tasks, tables, tables', table, fd, v, slot);
      }
    }
  }

  /** Every slot the departing task monitors into is monitored by another task of its address space. */
  predicate Replaceable(tasks: map<nat, Task>, tables: map<nat, Table>, task: nat)
    requires task in tasks && forall t :: t in tasks ==> tasks[t].table in tables
  {
    forall fd :: fd in tables[tasks[task].table].fds ==>
      exists t, f ::
        t in tasks && t != task && tasks[t].vm == tasks[task].vm && f in tables[tasks[t].table].fds && Cap(f) == Cap(fd)
  }

  lemma ExitShows(tasks: map<nat, Task>, tables: map<nat, Table>, vms: map<nat, Vm>, task: nat)
    requires WellFormed(tasks, tables, vms) && task in tasks && vms[tasks[task].vm].disabled.Some?
    requires WellFormed(tasks - {task}, tables, vms)
    requires ExactIn(tasks, tables, vms) && ExactIn(tasks - {task}, tables, vms)
    ensures Replaceable(tasks, tables, task)
  {
    hide Cap;
    var rest, vm := tasks - {task}, tasks[task].vm;
    forall fd | fd in tables[tasks[task].table].fds
      ensures exists t, f ::
                t in tasks && t != task && tasks[t].vm == vm && f in tables[tasks[t].table].fds && Cap(f) == Cap(fd)
    {
      assert MonitoredIn(tasks, tables, vm, Cap(fd));
      assert MonitoredIn(rest, tables, vm, Cap(fd));
    }
  }

  lemma ExitKeeps(tasks: map<nat, Task>, tables: map<nat, Table>, task: nat, v: nat, slot: nat)
    requires (forall t :: t in tasks ==> tasks[t].table in tables) && task in tasks
    requires v == tasks[task].vm ==> Replaceable(tasks, tables, task)
    ensures MonitoredIn(tasks - {task}, tables, v, slot) <==> MonitoredIn(tasks, tables, v, slot)
  {
    hide Cap;
    var rest := tasks - {task};
    if MonitoredIn(tasks, tables, v, slot) {
      var t, f :| t in tasks && tasks[t].vm == v && f in tables[tasks[t].table].fds && Cap(f) == slot;
      if t == task {
        var t', f' :| t' in tasks && t' != task && tasks[t'].vm == v && f' in tables[tasks[t'].table].fds
          && Cap(f') == Cap(f);
        assert t' in rest;
      } else {
        assert t in rest;
      }
    }
  }

  /** Without a task the arrays stay exact if and only if its slots are monitored by others too. */
  lemma ExitExact(tasks: map<nat, Task>, tables: map<nat, Table>, vms: map<nat, Vm>, task: nat)
    requires WellFormed(tasks, tables, vms) && ExactIn(tasks, tables, vms) && task in tasks
    ensures WellFormed(tasks - {task}, tables, vms)
    ensures ExactIn(tasks - {task}, tables, vms) <==>
              vms[tasks[task].vm].disabled.None? || Replaceable(tasks, tables, task)
  {
    hide Cap, MonitoredIn, Replaceable;
    var vm := tasks[task].vm;
    if vms[vm].disabled.Some? && ExactIn(tasks - {task}, tables, vms) {
      ExitShows(tasks, tables, vms, task);
    }
    if vms[vm].disabled.None? || Replaceable(tasks, tables, task) {
      forall v, slot: nat | v in vms && vms[v].disabled.Some? && slot < LIMIT
        ensures MonitoredIn(tasks - {task}, tables, v, slot) <==> MonitoredIn(tasks, tables, v, slot)
      {
        ExitKeeps(tasks, tables, task, v, slot);
      }
    }
  }

  /** The same of a task that moves on to an address space without an array. */
  lemma LeaveExact(tasks: map<nat, Task>, tables: map<nat, Table>, tables': map<nat, Table>, vms: map<nat, Vm>,
                   task: nat, t: Task)
    requires WellFormed(tasks, tables, vms) && ExactIn(tasks, tables, vms) && task in tasks && t.vm !in vms
    requires forall n :: n in tables ==> n in tables' && tables'[n] == tables[n]
    requires WellFormed(tasks[task := t], tables', vms[t.vm := Vm(None)])
    ensures ExactIn(tasks[task := t], tables', vms[t.vm := Vm(None)]) <==>
              vms[tasks[task].vm].disabled.None? || Replaceable(tasks, tables, task)
  {
    hide Replaceable, Cap;
    var tasks', rest := tasks[task := t], tasks - {task};
    ExitExact(tasks, tables, vms, task);
    forall v, slot: nat | v in vms && slot < LIMIT
      ensures MonitoredIn(tasks', tables', v, slot) <==> MonitoredIn(rest, tables, v, slot)
    {
      if MonitoredIn(rest, tables, v, slot) {
        var k, f :| k in rest && rest[k].vm == v && f in tables[rest[k].table].fds && Cap(f) == slot;
        assert k in tasks' && f in tables'[tasks'[k].table].fds;
      }
      if MonitoredIn(tasks', tables', v, slot) {
        var k, f :| k in tasks' && tasks'[k].vm == v && f in tables'[tasks'[k].table].fds && Cap(f) == slot;
        assert k in rest && f in tables[rest[k].table].fds;
      }
    }
    assert forall v :: v in vms ==> v in vms[t.vm := Vm(None)];
  }

  ghost predicate MonitorsInto(t: Table, slot: nat) {
    exists fd :: fd in t.fds && Cap(fd) == slot
  }

  /** The task's own table monitors every slot that its address space has monitored. */
  ghost predicate Alone(tasks: map<nat, Task>, tables: map<nat, Table>, task: nat)
    requires task in tasks && forall t :: t in tasks ==> tasks[t].table in tables
  {
    forall slot: nat :: slot < LIMIT && MonitoredIn(tasks, tables, tasks[task].vm, slot) ==>
      MonitorsInto(tables[tasks[task].table], slot)
  }

  /** A child in a copy of its parent's address space: exact if and only if the parent stood for all its tasks. */
  lemma ForkExact(tasks: map<nat, Task>, tables: map<nat, Table>, tables': map<nat, Table>, vms: map<nat, Vm>,
                  parent: nat, child: nat, t: Task)
    requires WellFormed(tasks, tables, vms) && ExactIn(tasks, tables, vms)
    requires parent in tasks && child !in tasks && t.vm !in vms
    requires forall n :: n in tables ==> n in tables' && tables'[n] == tables[n]
    requires t.table in tables' && tables'[t.table] == tables[tasks[parent].table]
    requires WellFormed(tasks[child := t], tables', vms[t.vm := vms[tasks[parent].vm]])
    ensures ExactIn(tasks[child := t], tables', vms[t.vm := vms[tasks[parent].vm]]) <==>
              vms[tasks[parent].vm].disabled.None? || Alone(tasks, tables, parent)
  {
    hide Cap;
    var tasks', vms', copied := tasks[child := t], vms[t.vm := vms[tasks[parent].vm]], vms[tasks[parent].vm].disabled;
    forall v, slot: nat | v in vms && slot < LIMIT
      ensures MonitoredIn(tasks', tables', v, slot) <==> MonitoredIn(tasks, tables, v, slot)
    {
      if MonitoredIn(tasks, tables, v, slot) {
        var k, f :| k in tasks && tasks[k].vm == v && f in tables[tasks[k].table].fds && Cap(f) == slot;
        assert k in tasks' && f in tables'[tasks'[k].table].fds;
      }
    }
    forall slot: nat | slot < LIMIT
      ensures MonitoredIn(tasks', tables', t.vm, slot) <==> MonitorsInto(tables[tasks[parent].table], slot)
    {
      if MonitorsInto(tables[tasks[parent].table], slot) {
        var fd :| fd in tables[tasks[parent].table].fds && Cap(fd) == slot;
        assert child in tasks' && fd in tables'[tasks'[child].table].fds;
      }
    }
    if copied.Some? {
      ForkSlots(tasks, tables, vms, parent);
    }
    assert vms'[t.vm].disabled == copied;
  }

  lemma ForkSlots(tasks: map<nat, Task>, tables: map<nat, Table>, vms: map<nat, Vm>, parent: nat)
    requires WellFormed(tasks, tables, vms) && ExactIn(tasks, tables, vms) && parent in tasks
    requires vms[tasks[parent].vm].disabled.Some?
    ensures Alone(tasks, tables, parent) <==>
              forall slot: nat :: slot < LIMIT ==>
                (vms[tasks[parent].vm].disabled.value[slot] <==> MonitorsInto(tables[tasks[parent].table], slot))
  {
    hide Cap;
    forall slot: nat | slot < LIMIT && MonitorsInto(tables[tasks[parent].table], slot)
      ensures MonitoredIn(tasks, tables, tasks[parent].vm, slot)
    {
    }
  }

  /** A task with a table of the same contents monitors the same. */
  lemma TwinMonitors(tasks: map<nat, Task>, tables: map<nat, Table>, tables': map<nat, Table>, task: nat, twin: nat,
                     t: Task, v: nat, slot: nat)
    requires (forall k :: k in tasks ==> tasks[k].table in tables) && task in tasks && (twin == task || twin !in tasks)
    requires forall n :: n in tables ==> n in tables' && tables'[n] == tables[n]
    requires t.vm == tasks[task].vm && t.table in tables' && tables'[t.table] == tables[tasks[task].table]
    ensures MonitoredIn(tasks[twin := t], tables', v, slot) <==> MonitoredIn(tasks, tables, v, slot)
  {
    hide Cap;
    var tasks' := tasks[twin := t];
    if MonitoredIn(tasks', tables', v, slot) {
      var k, f :| k in tasks' && tasks'[k].vm == v && f in tables'[tasks'[k].table].fds && Cap(f) == slot;
      assert f in tables[tasks[if k == twin then task else k].table].fds;
    }
    if MonitoredIn(tasks, tables, v, slot) {
      var k, f :| k in tasks && tasks[k].vm == v && f in tables[tasks[k].table].fds && Cap(f) == slot;
      assert f in tables'[tasks'[k].table].fds;
    }
  }

  lemma TwinExact(tasks: map<nat, Task>, tables: map<nat, Table>, tables': map<nat, Table>, vms: map<nat, Vm>,
                  task: nat, twin: nat, t: Task)
    requires WellFormed(tasks, tables, vms) && ExactIn(tasks, tables, vms) && task in tasks
    requires twin == task || twin !in tasks
    requires forall n :: n in tables ==> n in tables' && tables'[n] == tables[n]
    requires t.vm == tasks[task].vm && t.table in tables' && tables'[t.table] == tables[tasks[task].table]
    requires WellFormed(tasks[twin := t], tables', vms)
    ensures ExactIn(tasks[twin := t], tables', vms)
  {
    hide MonitoredIn;
    forall v, slot: nat | v in vms && vms[v].disabled.Some? && slot < LIMIT
      ensures MonitoredIn(tasks[twin := t], tables', v, slot) <==> MonitoredIn(tasks, tables, v, slot)
    {
      TwinMonitors(tasks, tables, tables', task, twin, t, v, slot);
    }
  }

  class Recorder {
    var tasks: map<nat, Task>
    var tables: map<nat, Table>
    var vms: map<nat, Vm>

    ghost predicate Valid()
      reads this
    {
      WellFormed(tasks, tables, vms) && AllCounted(tables) && Covered(tasks, tables, vms)
    }

    /** The arrays tell exactly what is monitored. */
    ghost predicate Exact()
      requires Valid()
      reads this
    {
      ExactIn(tasks, tables, vms)
    }

    constructor (task: nat, table: nat, vm: nat)
      ensures Valid() && Exact()
      ensures tasks == map[task := Task(vm, table)] && tables == map[table := Table(map[], 0)]
      ensures vms == map[vm := Vm(None)]
    {
      tasks := map[task := Task(vm, table)];
      tables := map[table := Table(map[], 0)];
      vms := map[vm := Vm(None)];
    }

    method IsFdMonitoredInAnyTask(vm: nat, slot: nat) returns (r: bool)
      requires forall t :: t in tasks ==> tasks[t].table in tables
      ensures r == WatchedIn(tasks, tables, vm, slot)
    {
      var left := set t | t in tasks && tasks[t].vm == vm;
      while left != {}
        invariant forall t :: t in left ==> t in tasks && tasks[t].vm == vm
        invariant forall t :: t in tasks && tasks[t].vm == vm && t !in left ==> !Watches(tables[tasks[t].table], slot)
        decreases |left|
      {
        var t: nat :| t in left;
        left := left - {t};
        if Watches(tables[tasks[t].table], slot) {
          return true;
        }
      }
      return false;
    }

    /** Recompute a slot in one address space, if it has the array. */
    method UpdateVm(vm: nat, slot: nat, ghost table: nat) returns (slot': nat)
      requires (forall t :: t in tasks ==> tasks[t].table in tables) && vm in vms && Sized(vms[vm])
      requires Uses(tasks, vm, table)
      modifies `vms
      ensures vms == old(vms)[vm := UpdatedVm(tasks, tables, old(vms)[vm], table, slot, vm)] && Cap(slot') == Cap(slot)
    {
      hide WatchedIn, Uses;
      slot' := slot;
      if vms[vm].disabled.Some? {
        if slot' >= LIMIT {
          slot' := LIMIT - 1;
        }
        var disable := IsFdMonitoredInAnyTask(vm, slot');
        vms := vms[vm := Vm(Some(vms[vm].disabled.value[slot' := disable]))];
      }
    }

    /** Recompute the slot of a descriptor in every address space that uses the table. */
    method UpdateSyscallbufFdsDisabled(table: nat, fd: nat)
      requires WellFormed(tasks, tables, vms) && table in tables
      modifies `vms
      ensures vms.Keys == old(vms).Keys
      ensures forall v :: v in vms ==> vms[v] == UpdatedVm(tasks, tables, old(vms)[v], table, fd, v)
    {
      hide WatchedIn, UpdatedVm, Visited, Halfway, WellFormed;
      var left := set t | t in tasks && tasks[t].table == table;
      var updated: set<nat> := {};
      var slot: nat := fd;
      Started(tasks, tables, vms, table, fd, left);
      while left != {}
        invariant Visited(tasks, table, left, updated) && Cap(slot) == Cap(fd)
        invariant WellFormed(tasks, tables, old(vms)) && Halfway(tasks, tables, old(vms), vms, table, fd, updated)
        decreases |left|
      {
        var t: nat :| t in left;
        VisitedStep(tasks, tables, old(vms), table, left, updated, t);
        left := left - {t};
        var vm := tasks[t].vm;
        if vm in updated {
          continue;
        }
        HalfwayStep(tasks, tables, old(vms), vms, table, fd, updated, vm, slot);
        updated := updated + {vm};
        slot := UpdateVm(vm, slot, table);
      }
      Finished(tasks, tables, old(vms), vms, table, fd, updated);
    }

    /** Put a changed table in place and bring the arrays up to date. */
    method Replace(table: nat, changed: Table, fd: nat)
      requires Valid() && table in tables && Counted(changed)
      requires changed.fds.Keys - {fd} == tables[table].fds.Keys - {fd}
      modifies `tables, `vms
      ensures Valid() && tables == old(tables)[table := changed] && vms.Keys == old(vms).Keys
      ensures forall v :: v in vms ==> vms[v] == UpdatedVm(tasks, tables, old(vms)[v], table, fd, v)
      ensures old(Exact()) ==> Exact()
    {
      hide UpdatedVm, Covered, Counted, ExactIn;
      ghost var before := tables;
      tables := tables[table := changed];
      UpdateSyscallbufFdsDisabled(table, fd);
      UpdateCovers(tasks, before, tables, old(vms), vms, table, fd);
      if old(Exact()) {
        UpdateExact(tasks, before, tables, old(vms), vms, table, fd);
      }
    }

    /** Monitor a descriptor; monitoring it already is a failed assertion, which stops the recording. */
    method AddMonitor(task: nat, fd: nat, m: Monitor) returns (ok: bool)
      requires Valid() && task in tasks
      modifies `tables, `vms
      ensures Valid() && ok == (fd !in old(tables)[tasks[task].table].fds)
      ensures !ok ==> tables == old(tables) && vms == old(vms)
      ensures ok ==>
                && tables.Keys == old(tables).Keys
                && tables[tasks[task].table].fds == old(tables)[tasks[task].table].fds[fd := m]
                && (forall n :: n in tables && n != tasks[task].table ==> tables[n] == old(tables)[n])
                && vms.Keys == old(vms).Keys
                && forall v :: v in vms ==> vms[v] == UpdatedVm(tasks, tables, old(vms)[v], tasks[task].table, fd, v)
      ensures old(Exact()) ==> Exact()
    {
      hide Covered, UpdatedVm, ExactIn;
      var table := tasks[task].table;
      var fds := tables[table].fds;
      if fd in fds {
        return false;
      }
      var count := tables[table].beyondLimit;
      if fd >= LIMIT && fd !in fds {
        count := count + 1;
      }
      BeyondAdd(fds, fd, m);
      assert Counted(tables[table]);
      Replace(table, Table(fds[fd := m], count), fd);
      return true;
    }

    /** A duplicate is monitored like its original; a duplicate of an unmonitored descriptor is not. */
    method DidDup(task: nat, from: nat, to: nat)
      requires Valid() && task in tasks
      modifies `tables, `vms
      ensures Valid() && tables.Keys == old(tables).Keys
      ensures var fds := old(tables)[tasks[task].table].fds;
              tables[tasks[task].table].fds == if from in fds then fds[to := fds[from]] else fds - {to}
      ensures forall n :: n in tables && n != tasks[task].table ==> tables[n] == old(tables)[n]
      ensures vms.Keys == old(vms).Keys
      ensures forall v :: v in vms ==> vms[v] == UpdatedVm(tasks, tables, old(vms)[v], tasks[task].table, to, v)
      ensures old(Exact()) ==> Exact()
    {
      hide Covered, UpdatedVm, ExactIn;
      var table := tasks[task].table;
      var fds, count := tables[table].fds, tables[table].beyondLimit;
      assert Counted(tables[table]);
      if from in fds {
        if to >= LIMIT && to !in fds {
          count := count + 1;
        }
        BeyondAdd(fds, to, fds[from]);
        fds := fds[to := fds[from]];
      } else {
        if to >= LIMIT && to in fds {
          count := count - 1;
        }
        BeyondRemove(fds, to);
        fds := fds - {to};
      }
      Replace(table, Table(fds, count), to);
    }

    method DidClose(task: nat, fd: nat)
      requires Valid() && task in tasks
      modifies `tables, `vms
      ensures Valid() && tables.Keys == old(tables).Keys
      ensures tables[tasks[task].table].fds == old(tables)[tasks[task].table].fds - {fd}
      ensures forall n :: n in tables && n != tasks[task].table ==> tables[n] == old(tables)[n]
      ensures vms.Keys == old(vms).Keys
      ensures forall v :: v in vms ==> vms[v] == UpdatedVm(tasks, tables, old(vms)[v], tasks[task].table, fd, v)
      ensures old(Exact()) ==> Exact()
    {
      hide Covered, UpdatedVm, ExactIn;
      var table := tasks[task].table;
      var fds, count := tables[table].fds, tables[table].beyondLimit;
      assert Counted(tables[table]);
      if fd >= LIMIT && fd in fds {
        count := count - 1;
      }
      BeyondRemove(fds, fd);
      Replace(table, Table(fds - {fd}, count), fd);
    }

    /** Set up the array of an address space: a slot is disabled exactly when a task there monitors into it. */
    method InitSyscallbufFdsDisabled(task: nat)
      requires Valid() && task in tasks
      modifies `vms
      ensures Valid() && vms.Keys == old(vms).Keys
      ensures forall v :: v in vms && v != tasks[task].vm ==> vms[v] == old(vms)[v]
      ensures vms[tasks[task].vm].disabled.Some?
      ensures forall slot :: 0 <= slot < LIMIT ==>
                vms[tasks[task].vm].disabled.value[slot] == MonitoredIn(tasks, tables, tasks[task].vm, slot)
      ensures old(Exact()) ==> Exact()
    {
      hide MonitoredIn, Counted;
      var vm := tasks[task].vm;
      var disabled := ComputeDisabled(vm);
      InitCovers(tasks, tables, vms, vm, disabled);
      vms := vms[vm := Vm(Some(disabled))];
    }

    method ComputeDisabled(vm: nat) returns (disabled: seq<bool>)
      requires WellFormed(tasks, tables, vms)
      ensures |disabled| == LIMIT
      ensures forall slot :: 0 <= slot < LIMIT ==> disabled[slot] == MonitoredIn(tasks, tables, vm, slot)
    {
      hide MonitoredIn;
      disabled := seq(LIMIT, i => false);
      var left := set t | t in tasks && tasks[t].vm == vm;
      while left != {}
        invariant |disabled| == LIMIT && forall t :: t in left ==> t in tasks && tasks[t].vm == vm
        invariant forall t, fd :: t in tasks && tasks[t].vm == vm && t !in left && fd in tables[tasks[t].table].fds ==>
                    disabled[Cap(fd)]
        invariant forall slot :: 0 <= slot < LIMIT && disabled[slot] ==> MonitoredIn(tasks, tables, vm, slot)
        decreases |left|
      {
        var t: nat :| t in left;
        left := left - {t};
        disabled := MarkTable(t, disabled);
      }
      forall slot | 0 <= slot < LIMIT
        ensures disabled[slot] == MonitoredIn(tasks, tables, vm, slot)
      {
        NotMonitored(tasks, tables, vm, slot, disabled);
      }
    }

    // ---- tasks come and go

    /** A new task, sharing or copying its parent's table and address space. */
    method CloneTask(parent: nat, child: nat, shareFiles: bool, shareVm: bool, newTable: nat, newVm: nat)
      requires Valid() && parent in tasks && child !in tasks && newTable !in tables && newVm !in vms
      modifies this
      ensures Valid()
      ensures var p := old(tasks)[parent];
              && tables == (if shareFiles then old(tables) else old(tables)[newTable := old(tables)[p.table]])
              && vms == (if shareVm then old(vms) else old(vms)[newVm := old(vms)[p.vm]])
              && tasks == old(tasks)[child :=
                   Task(if shareVm then p.vm else newVm, if shareFiles then p.table else newTable)]
      ensures old(Exact()) && shareVm ==> Exact()
      ensures old(Exact()) && !shareVm ==>
                (Exact() <==>
                 old(vms)[old(tasks)[parent].vm].disabled.None? || Alone(old(tasks), old(tables), parent))
    {
      hide Covered, Counted, WellFormed, ExactIn, Alone;
      var p := tasks[parent];
      CopyTable(tasks, tables, vms, parent, newTable);
      if !shareFiles {
        tables := tables[newTable := tables[p.table]];
      }
      CopyVm(tasks, tables, vms, parent, newVm);
      if !shareVm {
        vms := vms[newVm := vms[p.vm]];
      }
      var vm, table := if shareVm then p.vm else newVm, if shareFiles then p.table else newTable;
      SameTask(tasks, tables, vms, parent, child, Task(vm, table));
      if old(Exact()) {
        if shareVm {
          TwinExact(tasks, old(tables), tables, vms, parent, child, Task(vm, table));
        } else {
          ForkExact(tasks, old(tables), tables, old(vms), parent, child, Task(vm, table));
        }
      }
      tasks := tasks[child := Task(vm, table)];
    }

    method Unshare(task: nat, newTable: nat)
      requires Valid() && task in tasks && newTable !in tables
      modifies `tasks, `tables
      ensures Valid() && tasks == old(tasks)[task := Task(old(tasks)[task].vm, newTable)]
      ensures tables == old(tables)[newTable := old(tables)[old(tasks)[task].table]]
      ensures old(Exact()) ==> Exact()
    {
      hide ExactIn;
      ghost var before := tasks;
      tables := tables[newTable := tables[tasks[task].table]];
      tasks := tasks[task := Task(tasks[task].vm, newTable)];
      if old(Exact()) {
        TwinExact(before, old(tables), tables, vms, task, task, Task(before[task].vm, newTable));
      }
    }

    /** Executing a program gives a task its own table and an address space without an array. */
    method Exec(task: nat, newTable: nat, newVm: nat)
      requires Valid() && task in tasks && newTable !in tables && newVm !in vms
      modifies this
      ensures Valid() && tasks == old(tasks)[task := Task(newVm, newTable)] && vms == old(vms)[newVm := Vm(None)]
      ensures tables == old(tables)[newTable := old(tables)[old(tasks)[task].table]]
      ensures old(Exact()) ==>
                (Exact() <==>
                 old(vms)[old(tasks)[task].vm].disabled.None? || Replaceable(old(tasks), old(tables), task))
    {
      hide Covered, Counted, WellFormed, ExactIn, Replaceable;
      ghost var before := tasks;
      CopyTable(tasks, tables, vms, task, newTable);
      tables := tables[newTable := tables[tasks[task].table]];
      MovedTask(tasks, tables, vms, task, Task(newVm, newTable));
      vms := vms[newVm := Vm(None)];
      tasks := tasks[task := Task(newVm, newTable)];
      if old(Exact()) {
        LeaveExact(before, old(tables), tables, old(vms), task, Task(newVm, newTable));
      }
    }

    /** The arrays stay exact if and only if the task's address space has none or other tasks monitor its slots. */
    method Exit(task: nat)
      requires Valid()
      modifies `tasks
      ensures Valid() && tasks == old(tasks) - {task}
      ensures old(Exact()) && task in old(tasks) ==>
                (Exact() <==> vms[old(tasks)[task].vm].disabled.None? || Replaceable(old(tasks), tables, task))
    {
      hide Counted, ExactIn, Replaceable;
      ghost var before := tasks;
      tasks := tasks - {task};
      if old(Exact()) {
        if task in before {
          ExitExact(before, tables, vms, task);
        }
      }
    }

    method MarkTable(task: nat, disabled: seq<bool>) returns (marked: seq<bool>)
      requires WellFormed(tasks, tables, vms) && task in tasks && |disabled| == LIMIT
      ensures |marked| == LIMIT && forall i :: 0 <= i < LIMIT && disabled[i] ==> marked[i]
      ensures forall fd :: fd in tables[tasks[task].table].fds ==> marked[Cap(fd)]
      ensures forall i :: 0 <= i < LIMIT && marked[i] && !disabled[i] ==> MonitoredIn(tasks, tables, tasks[task].vm, i)
    {
      marked := disabled;
      var fds := tables[tasks[task].table].fds.Keys;
      var left := fds;
      while left != {}
        invariant |marked| == LIMIT && left <= fds
        invariant forall i :: 0 <= i < LIMIT && disabled[i] ==> marked[i]
        invariant forall fd :: fd in fds - left ==> marked[Cap(fd)]
        invariant forall i :: 0 <= i < LIMIT && marked[i] && !disabled[i] ==> exists fd :: fd in fds && Cap(fd) == i
        decreases |left|
      {
        var fd: nat :| fd in left;
        left := left - {fd};
        marked := marked[Cap(fd) := true];
      }
    }
  }

  /** Some task of the address space monitors a descriptor with this slot. */
  ghost predicate MonitoredIn(tasks: map<nat, Task>, tables: map<nat, Table>, vm: nat, slot: nat)
    requires forall t :: t in tasks ==> tasks[t].table in tables
  {
    exists t, fd :: t in tasks && tasks[t].vm == vm && fd in tables[tasks[t].table].fds && Cap(fd) == slot
  }

  /** With exact counts, the source's test says just whether some task monitors into the slot. */
  lemma WatchedExactly(tasks: map<nat, Task>, tables: map<nat, Table>, vm: nat, slot: nat)
    requires (forall t :: t in tasks ==> tasks[t].table in tables) && AllCounted(tables) && slot < LIMIT
    ensures WatchedIn(tasks, tables, vm, slot) <==> MonitoredIn(tasks, tables, vm, slot)
  {
    hide Watches, Counted;
    if WatchedIn(tasks, tables, vm, slot) {
      var t :| t in tasks && tasks[t].vm == vm && Watches(tables[tasks[t].table], slot);
      WatchesExactly(tables[tasks[t].table], slot);
    }
    if MonitoredIn(tasks, tables, vm, slot) {
      var t, fd :| t in tasks && tasks[t].vm == vm && fd in tables[tasks[t].table].fds && Cap(fd) == slot;
      WatchesExactly(tables[tasks[t].table], slot);
    }
  }

  lemma InitCovers(tasks: map<nat, Task>, tables: map<nat, Table>, vms: map<nat, Vm>, vm: nat, disabled: seq<bool>)
    requires WellFormed(tasks, tables, vms) && Covered(tasks, tables, vms) && vm in vms && |disabled| == LIMIT
    requires forall slot :: 0 <= slot < LIMIT ==> disabled[slot] == MonitoredIn(tasks, tables, vm, slot)
    ensures WellFormed(tasks, tables, vms[vm := Vm(Some(disabled))])
    ensures Covered(tasks, tables, vms[vm := Vm(Some(disabled))])
  {
    var vms' := vms[vm := Vm(Some(disabled))];
    forall t, fd | t in tasks && fd in tables[tasks[t].table].fds && vms'[tasks[t].vm].disabled.Some?
      ensures vms'[tasks[t].vm].disabled.value[Cap(fd)]
    {
      if tasks[t].vm == vm {
        assert MonitoredIn(tasks, tables, vm, Cap(fd));
      }
    }
  }

  lemma NotMonitored(tasks: map<nat, Task>, tables: map<nat, Table>, vm: nat, slot: nat, disabled: seq<bool>)
    requires (forall t :: t in tasks ==> tasks[t].table in tables) && |disabled| == LIMIT && slot < LIMIT
    requires forall t, fd :: t in tasks && tasks[t].vm == vm && fd in tables[tasks[t].table].fds ==> disabled[Cap(fd)]
    ensures MonitoredIn(tasks, tables, vm, slot) ==> disabled[slot]
  {
  }

  lemma CopyTable(tasks: map<nat, Task>, tables: map<nat, Table>, vms: map<nat, Vm>, task: nat, n: nat)
    requires WellFormed(tasks, tables, vms) && AllCounted(tables) && Covered(tasks, tables, vms) && task in tasks
    requires n !in tables
    ensures tasks[task].table in tables && tasks[task].vm in vms
    ensures var tables' := tables[n := tables[tasks[task].table]];
            WellFormed(tasks, tables', vms) && AllCounted(tables') && Covered(tasks, tables', vms)
  {
    hide Counted;
  }

  lemma CopyVm(tasks: map<nat, Task>, tables: map<nat, Table>, vms: map<nat, Vm>, task: nat, n: nat)
    requires WellFormed(tasks, tables, vms) && Covered(tasks, tables, vms) && task in tasks && n !in vms
    ensures tasks[task].table in tables && tasks[task].vm in vms
    ensures var vms' := vms[n := vms[tasks[task].vm]]; WellFormed(tasks, tables, vms') && Covered(tasks, tables, vms')
  {
  }

  /** A task with an equal table and an equal array is covered like the one it copies. */
  lemma SameTask(tasks: map<nat, Task>, tables: map<nat, Table>, vms: map<nat, Vm>, task: nat, child: nat, t: Task)
    requires WellFormed(tasks, tables, vms) && Covered(tasks, tables, vms) && task in tasks && t.table in tables
    requires t.vm in vms
    requires tables[t.table] == tables[tasks[task].table] && vms[t.vm] == vms[tasks[task].vm]
    ensures WellFormed(tasks[child := t], tables, vms) && Covered(tasks[child := t], tables, vms)
  {
  }

  /** A task with an address space of its own and no array is covered. */
  lemma MovedTask(tasks: map<nat, Task>, tables: map<nat, Table>, vms: map<nat, Vm>, task: nat, t: Task)
    requires WellFormed(tasks, tables, vms) && Covered(tasks, tables, vms) && t.table in tables && t.vm !in vms
    ensures var vms' := vms[t.vm := Vm(None)];
            WellFormed(tasks[task := t], tables, vms') && Covered(tasks[task := t], tables, vms')
  {
  }

  // ---- the loop over the tasks of a table

  ghost predicate Visited(tasks: map<nat, Task>, table: nat, left: set<nat>, updated: set<nat>) {
    && (forall t :: t in left ==> t in tasks && tasks[t].table == table)
    && (forall t :: t in tasks && tasks[t].table == table && t !in left ==> tasks[t].vm in updated)
  }

  ghost predicate Halfway(tasks: map<nat, Task>, tables: map<nat, Table>, vms: map<nat, Vm>, vms': map<nat, Vm>,
                          table: nat, fd: nat, updated: set<nat>)
    requires WellFormed(tasks, tables, vms)
  {
    && vms'.Keys == vms.Keys
    && forall v :: v in vms ==>
         vms'[v] == if v in updated then UpdatedVm(tasks, tables, vms[v], table, fd, v) else vms[v]
  }

  lemma Started(tasks: map<nat, Task>, tables: map<nat, Table>, vms: map<nat, Vm>, table: nat, fd: nat, left: set<nat>)
    requires WellFormed(tasks, tables, vms) && left == set t | t in tasks && tasks[t].table == table
    ensures Visited(tasks, table, left, {}) && Halfway(tasks, tables, vms, vms, table, fd, {})
  {
  }

  lemma VisitedStep(tasks: map<nat, Task>, tables: map<nat, Table>, vms: map<nat, Vm>, table: nat, left: set<nat>,
                    updated: set<nat>, t: nat)
    requires WellFormed(tasks, tables, vms) && Visited(tasks, table, left, updated) && t in left
    ensures t in tasks && tasks[t].table == table && tasks[t].vm in vms && Uses(tasks, tasks[t].vm, table)
    ensures Visited(tasks, table, left - {t}, updated + {tasks[t].vm})
    ensures tasks[t].vm in updated ==> Visited(tasks, table, left - {t}, updated)
  {
  }

  lemma HalfwayStep(tasks: map<nat, Task>, tables: map<nat, Table>, vms: map<nat, Vm>, vms': map<nat, Vm>,
                    table: nat, fd: nat, updated: set<nat>, vm: nat, slot: nat)
    requires WellFormed(tasks, tables, vms) && Halfway(tasks, tables, vms, vms', table, fd, updated)
    requires vm in vms && vm !in updated && Cap(slot) == Cap(fd)
    ensures vm in vms' && Sized(vms'[vm]) && forall t :: t in tasks ==> tasks[t].table in tables
    ensures Halfway(tasks, tables, vms, vms'[vm := UpdatedVm(tasks, tables, vms'[vm], table, slot, vm)], table, fd,
                    updated + {vm})
  {
    SameSlot(tasks, tables, vms[vm], table, slot, fd, vm);
  }

  lemma Finished(tasks: map<nat, Task>, tables: map<nat, Table>, vms: map<nat, Vm>, vms': map<nat, Vm>,
                 table: nat, fd: nat, updated: set<nat>)
    requires WellFormed(tasks, tables, vms) && Halfway(tasks, tables, vms, vms', table, fd, updated)
    requires Visited(tasks, table, {}, updated)
    ensures vms'.Keys == vms.Keys && forall v :: v in vms ==> vms'[v] == UpdatedVm(tasks, tables, vms[v], table, fd, v)
  {
    forall v | v in vms && v !in updated
      ensures vms'[v] == UpdatedVm(tasks, tables, vms[v], table, fd, v)
    {
      NotUsed(tasks, tables, vms[v], table, fd, v);
    }
  }

  lemma SameSlot(tasks: map<nat, Task>, tables: map<nat, Table>, d: Vm, table: nat, slot: nat, fd: nat, v: nat)
    requires Sized(d) && (forall t :: t in tasks ==> tasks[t].table in tables) && Cap(slot) == Cap(fd)
    ensures UpdatedVm(tasks, tables, d, table, slot, v) == UpdatedVm(tasks, tables, d, table, fd, v)
  {
  }

  lemma NotUsed(tasks: map<nat, Task>, tables: map<nat, Table>, d: Vm, table: nat, fd: nat, v: nat)
    requires Sized(d) && (forall t :: t in tasks ==> tasks[t].table in tables) && !Uses(tasks, v, table)
    ensures UpdatedVm(tasks, tables, d, table, fd, v) == d
  {
  }

  lemma OneMonitors(tasks: map<nat, Task>, tables: map<nat, Table>)
    requires tasks == map[0 := Task(0, 0), 1 := Task(0, 1)] && 0 in tables && 1 in tables
    requires 3 in tables[0].fds && tables[1].fds == map[]
    ensures !Replaceable(tasks, tables, 0)
  {
    hide Cap;
    assert 3 in tables[tasks[0].table].fds;
    forall t, f | t in tasks && t != 0
      ensures f !in tables[tasks[t].table].fds
    {
    }
  }

  /** A task that monitors leaves another of its address space that does not: its slot stays disabled. */
  method SlotStays() returns (r: Recorder)
    ensures fresh(r) && r.Valid() && !r.Exact()
  {
    hide Recorder.Valid, Recorder.Exact, UpdatedVm, Replaceable, Alone, MonitoredIn;
    r := new Recorder(0, 0, 0);
    r.CloneTask(0, 1, false, true, 1, 1);
    var ok := r.AddMonitor(0, 3, 0);
    r.InitSyscallbufFdsDisabled(0);
    assert r.tasks == map[0 := Task(0, 0), 1 := Task(0, 1)];
    assert 3 in r.tables[0].fds;
    OneMonitors(r.tasks, r.tables);
    r.Exit(0);
  }
}
