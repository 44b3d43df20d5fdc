/**
 * The phases of a muplay session: put a breakpoint on the program's entry, load the modified
 * code when it is hit, then divert the run at the first call of a modified function.
 */
module Muplay {
  import opened Prelude
  import opened Breakpoints
  import opened BreakpointRuns

  datatype FunctionMapping = FunctionMapping(name: string, original: nat, modified: nat, hasBreakpoint: bool) {
    predicate IsEntry() { name == "_start" }
  }

  type Mappings = seq<FunctionMapping>

  /** Insertion into a set ordered by name: an existing name wins. */
  function Insert(ms: Mappings, m: FunctionMapping): Mappings {
    if exists k :: 0 <= k < |ms| && ms[k].name == m.name then ms else ms + [m]
  }

  function InsertAll(ms: Mappings, more: Mappings): Mappings
    decreases more
  {
    if more == [] then ms else InsertAll(Insert(ms, more[0]), more[1..])
  }

  /** No address, original or modified, belongs to two mappings. */
  predicate DistinctAddresses(ms: Mappings) {
    forall i, j :: 0 <= i < |ms| && 0 <= j < |ms| && i != j ==>
      ms[i].original != ms[j].original && ms[i].original != ms[j].modified && ms[i].modified != ms[j].modified
  }

  predicate SameFunctions(ms: Mappings, base: Mappings) {
    |ms| == |base| && forall i :: 0 <= i < |ms| ==> ms[i].(hasBreakpoint := false) == base[i].(hasBreakpoint := false)
  }

  function EntryMapping(entry: nat, status: bool): FunctionMapping {
    FunctionMapping("_start", entry, entry, status)
  }

  /** All mappings, once the modified code is loaded. */
  function Base(entry: nat, loaded: Mappings): Mappings { InsertAll([EntryMapping(entry, true)], loaded) }

  lemma {:induction false} InsertKeeps(ms: Mappings, more: Mappings)
    requires ms != []
    ensures InsertAll(ms, more) != [] && InsertAll(ms, more)[0] == ms[0]
    ensures forall k :: 0 < k < |InsertAll(ms, more)| ==> InsertAll(ms, more)[k] in ms[1..] + more
    decreases more
  {
    if more != [] {
      var next := Insert(ms, more[0]);
      InsertKeeps(next, more[1..]);
      forall k | 0 < k < |InsertAll(ms, more)|
        ensures InsertAll(ms, more)[k] in ms[1..] + more
      {
        var m := InsertAll(ms, more)[k];
        assert m in next[1..] + more[1..];
      }
    } else {
      forall k | 0 < k < |ms|
        ensures ms[k] in ms[1..] + more
      {
        assert ms[k] == (ms[1..] + more)[k - 1];
      }
    }
  }

  predicate HasName(ms: Mappings, name: string) { exists k :: 0 <= k < |ms| && ms[k].name == name }

  /** The loader's mapping `j` is the first of its name, and not the entry. */
  predicate IsFirst(loaded: Mappings, j: nat) {
    j < |loaded| && loaded[j].name != "_start" && forall i :: 0 <= i < j ==> loaded[i].name != loaded[j].name
  }

  /** Mapping `j` has a name that is neither in `ms` nor among the earlier ones. */
  predicate IsNew(ms: Mappings, more: Mappings, j: nat) {
    j < |more| && !HasName(ms, more[j].name) && !HasName(more[..j], more[j].name)
  }

  /** What has a new name is inserted, behind what was there. */
  lemma {:induction false} InsertedHas(ms: Mappings, more: Mappings, j: nat) returns (k: nat)
    requires IsNew(ms, more, j)
    ensures |ms| <= k < |InsertAll(ms, more)| && InsertAll(ms, more)[k] == more[j]
    decreases more
  {
    InsertedOne(ms, more, j);
    var next, rest := Insert(ms, more[0]), more[1..];
    hide IsNew, Insert;
    if j > 0 {
      k := InsertedHas(next, rest, j - 1);
    } else {
      InsertedPrefix(next, rest);
      k := |ms|;
    }
  }

  lemma {:induction false} InsertedPrefix(ms: Mappings, more: Mappings)
    ensures |ms| <= |InsertAll(ms, more)|
    ensures forall k :: 0 <= k < |ms| ==> InsertAll(ms, more)[k] == ms[k]
    decreases more
  {
    if more != [] {
      var next := Insert(ms, more[0]);
      InsertedPrefix(next, more[1..]);
      assert forall k :: 0 <= k < |ms| ==> next[k] == ms[k];
    }
  }

  /** What is inserted has a new name. */
  lemma {:induction false} InsertedFrom(ms: Mappings, more: Mappings, k: nat) returns (j: nat)
    requires |ms| <= k < |InsertAll(ms, more)|
    ensures IsNew(ms, more, j) && InsertAll(ms, more)[k] == more[j]
    decreases more
  {
    var next, rest := Insert(ms, more[0]), more[1..];
    InsertedPrefix(next, rest);
    if k < |next| {
      j := 0;
      assert InsertAll(ms, more)[k] == next[k];
    } else {
      hide Insert;
      j := InsertedFrom(next, rest, k);
      InsertedLater(ms, more, j);
      j := j + 1;
    }
  }

  lemma InsertedOne(ms: Mappings, more: Mappings, j: nat)
    requires IsNew(ms, more, j)
    ensures j < |more| && |Insert(ms, more[0])| >= |ms|
    ensures j == 0 ==> Insert(ms, more[0]) == ms + [more[0]]
    ensures 0 < j ==> IsNew(Insert(ms, more[0]), more[1..], j - 1)
  {
    if 0 < j {
      assert more[..j][0] == more[0];
      var rest := more[1..][..j - 1];
      assert forall k :: 0 <= k < |rest| ==> rest[k] == more[..j][k + 1];
    }
  }

  lemma InsertedLater(ms: Mappings, more: Mappings, i: nat)
    requires more != [] && IsNew(Insert(ms, more[0]), more[1..], i)
    ensures IsNew(ms, more, i + 1)
  {
    var next := Insert(ms, more[0]);
    assert forall k :: 0 <= k < |ms| ==> next[k] == ms[k];
    assert HasName(next, more[0].name) by {
      if next != ms {
        assert next[|ms|] == more[0];
      }
    }
    var before := more[..i + 1];
    forall k | 0 <= k < |before|
      ensures before[k].name != more[i + 1].name
    {
      if k > 0 {
        assert before[k] == more[1..][..i][k - 1];
      }
    }
  }

  /** Beside the entry the mappings are the loader's, one of each name. */
  lemma BaseAre(entry: nat, loaded: Mappings)
    ensures Base(entry, loaded) != [] && Base(entry, loaded)[0] == EntryMapping(entry, true)
    ensures forall j: nat :: IsFirst(loaded, j) ==>
              exists k :: 0 < k < |Base(entry, loaded)| && Base(entry, loaded)[k] == loaded[j]
    ensures forall k :: 0 < k < |Base(entry, loaded)| ==>
              exists j: nat :: IsFirst(loaded, j) && Base(entry, loaded)[k] == loaded[j]
  {
    var ms, base := [EntryMapping(entry, true)], Base(entry, loaded);
    InsertedPrefix(ms, loaded);
    forall j: nat | IsFirst(loaded, j)
      ensures exists k :: 0 < k < |base| && base[k] == loaded[j]
    {
      FirstIsNew(entry, loaded, j);
      var k := InsertedHas(ms, loaded, j);
    }
    forall k | 0 < k < |base|
      ensures exists j: nat :: IsFirst(loaded, j) && base[k] == loaded[j]
    {
      var j := InsertedFrom(ms, loaded, k);
      FirstIsNew(entry, loaded, j);
    }
  }

  lemma FirstIsNew(entry: nat, loaded: Mappings, j: nat)
    ensures IsFirst(loaded, j) <==> IsNew([EntryMapping(entry, true)], loaded, j)
  {
    var ms := [EntryMapping(entry, true)];
    if j < |loaded| {
      assert ms[0].name == "_start";
      assert forall i :: 0 <= i < j ==> loaded[..j][i] == loaded[i];
    }
  }

  /** What is assumed of the loader: fresh breakpoint-free mappings of readable, distinct addresses. */
  predicate Loadable(entry: nat, loaded: Mappings, readable: set<nat>) {
    && entry in readable
    && (forall m :: m in loaded ==> !m.hasBreakpoint && m.original in readable && m.modified != 0)
    && DistinctAddresses(Base(entry, loaded))
  }

  // ---- what a session does, in order

  datatype Event = EntryBreakpoint | Load | Jump(function_: nat, from: nat, to: nat) | ReplayStep | DiversionStep

  /** The function has been jumped to. */
  predicate JumpedTo(log: seq<Event>, f: nat) { exists k :: 0 <= k < |log| && log[k].Jump? && log[k].function_ == f }

  /** The run has been diverted at this address. */
  predicate JumpedFrom(log: seq<Event>, addr: nat) { exists k :: 0 <= k < |log| && log[k].Jump? && log[k].from == addr }

  predicate Jumped(log: seq<Event>) { exists k :: 0 <= k < |log| && log[k].Jump? }

  predicate MayFollow(log: seq<Event>, e: Event) {
    match e
    case EntryBreakpoint => EntryBreakpoint !in log
    case Load => EntryBreakpoint in log && Load !in log
    case Jump(f, _, _) => Load in log && forall k :: 0 <= k < |log| && log[k].Jump? ==> log[k].function_ != f
    case ReplayStep => !Jumped(log)
    case DiversionStep => Jumped(log)
  }

  /** One entry breakpoint, then one load, then jumps, each function once; replay only before the first jump. */
  predicate Allowed(log: seq<Event>) {
    forall i :: 0 <= i < |log| ==> MayFollow(log[..i], log[i])
  }

  lemma AllowedSnoc(log: seq<Event>, e: Event)
    requires Allowed(log) && MayFollow(log, e)
    ensures Allowed(log + [e])
    ensures Jumped(log + [e]) <==> Jumped(log) || e.Jump?
    ensures forall x :: x in log + [e] <==> x in log || x == e
  {
    hide MayFollow;
    var next := log + [e];
    forall i | 0 <= i < |next|
      ensures MayFollow(next[..i], next[i])
    {
      assert next[..i] == if i < |log| then log[..i] else log;
    }
    if e.Jump? {
      assert next[|log|].Jump?;
    }
    if Jumped(log) {
      var k :| 0 <= k < |log| && log[k].Jump?;
      assert next[k].Jump?;
    }
  }

  /** The references a session should hold: one at each mapping whose breakpoint is set. */
  ghost function Expected(ms: Mappings, addr: nat): nat {
    if exists i :: 0 <= i < |ms| && ms[i].hasBreakpoint && ms[i].original == addr then 1 else 0
  }

  ghost predicate Matches(refs: References, ms: Mappings) {
    forall addr :: refs[(addr, User)] == Expected(ms, addr)
  }

  /** What the session's own breakpoints leave alone: the program, what rr knows of it, internal references. */
  ghost predicate LeavesProgram(m: Model, m': Model) {
    m'.program == m.program && m'.kept == m.kept && forall addr :: m'.refs[(addr, Internal)] == m.refs[(addr, Internal)]
  }

  lemma LeavesAll(m: Model)
    ensures LeavesProgram(m, m)
  {
  }

  lemma LeavesTwice(m: Model, m': Model, m'': Model)
    requires LeavesProgram(m, m') && LeavesProgram(m', m'')
    ensures LeavesProgram(m, m'')
  {
  }

  /** The entry has no breakpoint any more. */
  lemma EntryDisarmed(ms: Mappings, refs: References, entry: nat)
    requires DistinctAddresses(ms) && Matches(refs, ms)
    requires ms != [] && ms[0] == EntryMapping(entry, false)
    ensures (entry, User) !in refs
  {
    assert refs[(entry, User)] == Expected(ms, entry);
  }

  lemma SetStatus(refs: References, ms: Mappings, i: nat)
    requires i < |ms| && Matches(refs, ms) && DistinctAddresses(ms) && !ms[i].hasBreakpoint
    ensures Matches(refs + multiset{(ms[i].original, User)}, ms[i := ms[i].(hasBreakpoint := true)])
  {
    var ms' := ms[i := ms[i].(hasBreakpoint := true)];
    forall addr
      ensures Expected(ms', addr) == Expected(ms, addr) + if addr == ms[i].original then 1 else 0
    {
      if addr == ms[i].original {
        assert ms'[i].hasBreakpoint && ms'[i].original == addr;
      } else {
        forall k | 0 <= k < |ms|
          ensures (ms'[k].hasBreakpoint && ms'[k].original == addr) == (ms[k].hasBreakpoint && ms[k].original == addr)
        {
        }
      }
    }
  }

  lemma ClearStatus(refs: References, ms: Mappings, i: nat)
    requires i < |ms| && Matches(refs, ms) && DistinctAddresses(ms) && ms[i].hasBreakpoint
    ensures (ms[i].original, User) in refs
    ensures Matches(refs - multiset{(ms[i].original, User)}, ms[i := ms[i].(hasBreakpoint := false)])
  {
    var ms' := ms[i := ms[i].(hasBreakpoint := false)];
    assert Expected(ms, ms[i].original) == 1;
    forall addr
      ensures Expected(ms, addr) == Expected(ms', addr) + if addr == ms[i].original then 1 else 0
    {
      if addr != ms[i].original {
        forall k | 0 <= k < |ms|
          ensures (ms'[k].hasBreakpoint && ms'[k].original == addr) == (ms[k].hasBreakpoint && ms[k].original == addr)
        {
        }
      }
    }
  }

  // ---- lookups

  /** The first mapping with this original or modified address. */
  method FindByAddress(ms: Mappings, address: nat) returns (r: Option<nat>)
    ensures r.None? <==> forall k :: 0 <= k < |ms| ==> ms[k].original != address && ms[k].modified != address
    ensures r.Some? ==> r.value < |ms| && (ms[r.value].original == address || ms[r.value].modified == address)
  {
    for i := 0 to |ms|
      invariant forall k :: 0 <= k < i ==> ms[k].original != address && ms[k].modified != address
    {
      if ms[i].original == address || ms[i].modified == address {
        return Some(i);
      }
    }
    return None;
  }

  /** The modified address of the first mapping with this original address, or null. */
  method ModifiedFuncAddr(ms: Mappings, original: int) returns (r: nat)
    ensures (forall k :: 0 <= k < |ms| ==> ms[k].original != original) ==> r == 0
    ensures (exists k :: 0 <= k < |ms| && ms[k].original == original) ==>
              exists k :: 0 <= k < |ms| && ms[k].original == original && ms[k].modified == r
  {
    for i := 0 to |ms|
      invariant forall k :: 0 <= k < i ==> ms[k].original != original
    {
      if ms[i].original == original {
        return ms[i].modified;
      }
    }
    return 0;
  }

  /** The tracee stands just behind a set breakpoint of a modified function. */
  predicate Hit(ms: Mappings, ip: nat) {
    exists k :: 0 <= k < |ms| && ms[k].original == ip - 1 && ms[k].hasBreakpoint && !ms[k].IsEntry()
  }

  /** Some function other than the entry has its breakpoint set. */
  predicate ModBpsExist(ms: Mappings) { exists k :: 0 <= k < |ms| && ms[k].hasBreakpoint && !ms[k].IsEntry() }

  method ModFunctionBpsExist(ms: Mappings) returns (r: bool)
    ensures r <==> ModBpsExist(ms)
  {
    for i := 0 to |ms|
      invariant forall k :: 0 <= k < i ==> !(ms[k].hasBreakpoint && !ms[k].IsEntry())
    {
      if ms[i].hasBreakpoint && !ms[i].IsEntry() {
        return true;
      }
    }
    return false;
  }

  method AtModifiedFuncBp(ms: Mappings, ip: nat) returns (r: bool)
    ensures r <==> Hit(ms, ip)
  {
    for i := 0 to |ms|
      invariant forall k :: 0 <= k < i ==> !(ms[k].original == ip - 1 && ms[k].hasBreakpoint && !ms[k].IsEntry())
    {
      if ip - 1 == ms[i].original && ms[i].hasBreakpoint && !ms[i].IsEntry() {
        return true;
      }
    }
    return false;
  }

  /** The mapping is there with its breakpoint set, and a user reference is held at the function. */
  ghost predicate FunctionArmed(ms: Mappings, refs: References, m: FunctionMapping) {
    && (exists k :: 0 <= k < |ms| && ms[k] == FunctionMapping(m.name, m.original, m.modified, true))
    && refs[(m.original, User)] == 1
  }

  /** A mapping other than the entry is one of the loader's. */
  lemma IsLoaded(ms: Mappings, entry: nat, loaded: Mappings, k: nat) returns (j: nat)
    requires SameFunctions(ms, Base(entry, loaded)) && k < |ms| && !ms[k].IsEntry()
    ensures IsFirst(loaded, j) && ms[k].(hasBreakpoint := false) == loaded[j].(hasBreakpoint := false)
  {
    hide Base;
    BaseAre(entry, loaded);
    var base := Base(entry, loaded);
    assert ms[k].(hasBreakpoint := false) == base[k].(hasBreakpoint := false);
    j :| IsFirst(loaded, j) && base[k] == loaded[j];
  }

  lemma IsThere(ms: Mappings, entry: nat, loaded: Mappings, j: nat) returns (k: nat)
    requires SameFunctions(ms, Base(entry, loaded)) && IsFirst(loaded, j)
    ensures k < |ms| && !ms[k].IsEntry() && ms[k].(hasBreakpoint := false) == loaded[j].(hasBreakpoint := false)
  {
    hide Base;
    BaseAre(entry, loaded);
    var base := Base(entry, loaded);
    k :| 0 < k < |base| && base[k] == loaded[j];
    assert ms[k].(hasBreakpoint := false) == base[k].(hasBreakpoint := false);
  }

  lemma AllArmed(ms: Mappings, refs: References, entry: nat, loaded: Mappings)
    requires SameFunctions(ms, Base(entry, loaded)) && Matches(refs, ms)
    requires forall i :: 0 <= i < |ms| && !ms[i].IsEntry() ==> ms[i].hasBreakpoint
    ensures forall j: nat :: IsFirst(loaded, j) ==> FunctionArmed(ms, refs, loaded[j])
    ensures ModBpsExist(ms) <==> exists j: nat :: IsFirst(loaded, j)
  {
    hide Base, SameFunctions;
    forall j: nat | IsFirst(loaded, j)
      ensures FunctionArmed(ms, refs, loaded[j]) && ModBpsExist(ms)
    {
      var k := IsThere(ms, entry, loaded, j);
      assert refs[(ms[k].original, User)] == Expected(ms, ms[k].original);
    }
    if ModBpsExist(ms) {
      var k :| 0 <= k < |ms| && ms[k].hasBreakpoint && !ms[k].IsEntry();
      var j := IsLoaded(ms, entry, loaded, k);
    }
  }

  lemma HitIsFirst(log: seq<Event>, ms: Mappings, entry: nat, loaded: Mappings, k: nat) returns (j: nat)
    requires SameFunctions(ms, Base(entry, loaded)) && DistinctAddresses(ms)
    requires forall e :: e in log && e.Jump? ==> JumpOk(ms, e)
    requires k < |ms| && ms[k].hasBreakpoint && !ms[k].IsEntry()
    ensures IsFirst(loaded, j) && ms[k].original == loaded[j].original && !JumpedFrom(log, loaded[j].original)
  {
    hide Base, SameFunctions;
    j := IsLoaded(ms, entry, loaded, k);
    forall n | 0 <= n < |log| && log[n].Jump?
      ensures log[n].from != ms[k].original
    {
      assert log[n] in log && JumpOk(ms, log[n]);
    }
  }

  lemma FirstHits(log: seq<Event>, ms: Mappings, entry: nat, loaded: Mappings, j: nat)
    requires SameFunctions(ms, Base(entry, loaded)) && IsFirst(loaded, j)
    requires (forall e :: e in log && e.Jump? ==> JumpOk(ms, e)) && Unspent(log, ms)
    ensures !JumpedFrom(log, loaded[j].original) ==> Hit(ms, loaded[j].original + 1)
  {
    hide Base, SameFunctions;
    var k := IsThere(ms, entry, loaded, j);
    if !ms[k].hasBreakpoint {
      var n :| 0 <= n < |log| && log[n].Jump? && log[n].function_ == k;
      assert log[n] in log && JumpOk(ms, log[n]);
    }
  }

  /** The loader has a function at `at` that the run has not been diverted from. */
  ghost predicate Diverts(log: seq<Event>, loaded: Mappings, at: int) {
    exists j: nat :: IsFirst(loaded, j) && at == loaded[j].original && !JumpedFrom(log, loaded[j].original)
  }

  /** A step standing behind a function diverts there exactly if it is the loader's and not yet diverted. */
  lemma HitExactly(log: seq<Event>, ms: Mappings, entry: nat, loaded: Mappings, at: nat)
    requires SameFunctions(ms, Base(entry, loaded)) && DistinctAddresses(ms)
    requires (forall e :: e in log && e.Jump? ==> JumpOk(ms, e)) && Unspent(log, ms)
    ensures Hit(ms, at) <==> Diverts(log, loaded, at - 1)
  {
    hide Base, SameFunctions, DistinctAddresses, Unspent, JumpedFrom;
    if Hit(ms, at) {
      var k :| 0 <= k < |ms| && ms[k].original == at - 1 && ms[k].hasBreakpoint && !ms[k].IsEntry();
      var j := HitIsFirst(log, ms, entry, loaded, k);
    }
    if Diverts(log, loaded, at - 1) {
      var j: nat :| IsFirst(loaded, j) && at - 1 == loaded[j].original && !JumpedFrom(log, loaded[j].original);
      FirstHits(log, ms, entry, loaded, j);
    }
  }

  // ---- the session

  class MuplaySession {
    /** Where the program starts, and the mappings the loader will insert. */
    const entry: nat
    const loaded: Mappings
    const metadataMode: bool
    const vm: BreakpointTable

    var hasSetEntryBp: bool
    var doneModifiedLoad: bool
    var hasDiverged: bool
    var funcMappings: Mappings
    var initialEntryPoint: nat
    var ip: nat

    ghost var log: seq<Event>

    ghost predicate Phase()
      reads `hasSetEntryBp, `doneModifiedLoad, `hasDiverged, `funcMappings, `initialEntryPoint
    {
      && (!hasSetEntryBp ==> !doneModifiedLoad && funcMappings == [])
      && (hasSetEntryBp ==> initialEntryPoint == entry)
      && (hasSetEntryBp && !doneModifiedLoad ==> funcMappings == [EntryMapping(entry, true)])
      && (doneModifiedLoad ==> SameFunctions(funcMappings, Base(entry, loaded)))
      && (hasDiverged ==> doneModifiedLoad)
    }

    ghost predicate Logged()
      reads `log, `hasSetEntryBp, `doneModifiedLoad, `hasDiverged, `funcMappings
    {
      LogOk(log, hasSetEntryBp, doneModifiedLoad, hasDiverged, funcMappings)
    }

    /** Between steps, the user references held are exactly those of the set breakpoints. */
    ghost predicate Valid()
      reads this, vm
    {
      && Phase() && Logged()
      && vm.Valid() && vm.hasTasks
      && Loadable(entry, loaded, vm.memory.Keys)
      && DistinctAddresses(funcMappings) && Matches(vm.refs, funcMappings)
    }

    constructor (entry: nat, loaded: Mappings, metadataMode: bool, vm: BreakpointTable)
      requires vm.Valid() && vm.hasTasks && Loadable(entry, loaded, vm.memory.Keys)
      requires forall addr :: (addr, User) !in vm.refs
      ensures Valid() && log == [] && this.vm == vm
    {
      this.entry, this.loaded, this.metadataMode, this.vm := entry, loaded, metadataMode, vm;
      hasSetEntryBp, doneModifiedLoad, hasDiverged := false, false, false;
      funcMappings, initialEntryPoint, ip := [], 0, 0;
      log := [];
    }

    method AddUser(addr: nat)
      requires vm.Valid() && vm.hasTasks && addr in vm.memory
      modifies vm
      ensures vm.Valid() && vm.hasTasks && vm.memory.Keys == old(vm.memory.Keys)
      ensures vm.refs == old(vm.refs) + multiset{(addr, User)} && LeavesProgram(old(Current(vm)), Current(vm))
    {
      hide BreakpointTable.Valid, BreakpointTable.Kept;
      var _ := vm.Add(addr, User);
    }

    method RemoveUser(addr: nat)
      requires vm.Valid() && vm.hasTasks && (addr, User) in vm.refs
      modifies vm
      ensures vm.Valid() && vm.hasTasks && vm.memory.Keys == old(vm.memory.Keys)
      ensures vm.refs == old(vm.refs) - multiset{(addr, User)} && LeavesProgram(old(Current(vm)), Current(vm))
    {
      hide BreakpointTable.Valid, BreakpointTable.Kept;
      vm.Remove(addr, User);
    }

    method PutEntryBp()
      requires Valid() && !hasSetEntryBp
      modifies this, vm
      ensures Valid() && hasSetEntryBp && !hasDiverged && log == old(log) + [EntryBreakpoint]
      ensures LeavesProgram(old(Current(vm)), Current(vm))
    {
      hide BreakpointTable.Valid, Loadable, LogOk, Matches, LeavesProgram, Current;
      LoadableParts(entry, loaded, vm.memory.Keys);
      LogEntry(log, [EntryMapping(entry, true)]);
      OnlyEntry(vm.refs, entry);
      initialEntryPoint := entry;
      AddUser(initialEntryPoint);
      funcMappings := [EntryMapping(initialEntryPoint, true)];
      hasSetEntryBp := true;
      log := log + [EntryBreakpoint];
    }

    predicate ShouldSet(doneInitialExec: bool)
      reads `hasSetEntryBp
    {
      doneInitialExec && !hasSetEntryBp
    }

    predicate ShouldLoad(doneInitialExec: bool, at: nat)
      reads `hasSetEntryBp, `doneModifiedLoad, `initialEntryPoint
    {
      doneInitialExec && hasSetEntryBp && !doneModifiedLoad && at == initialEntryPoint + 1
    }

    /** Take the breakpoint away and note it in the mapping that has this address. */
    method RemoveBreakpoint(address: nat, ghost i: nat)
      requires vm.Valid() && vm.hasTasks && DistinctAddresses(funcMappings) && Matches(vm.refs, funcMappings)
      requires i < |funcMappings| && funcMappings[i].hasBreakpoint && funcMappings[i].original == address
      modifies `funcMappings, vm
      ensures vm.Valid() && vm.hasTasks && vm.memory.Keys == old(vm.memory.Keys)
      ensures funcMappings == old(funcMappings)[i := old(funcMappings)[i].(hasBreakpoint := false)]
      ensures Matches(vm.refs, funcMappings) && LeavesProgram(old(Current(vm)), Current(vm))
    {
      hide BreakpointTable.Valid, Matches, LeavesProgram, Current;
      ClearStatus(vm.refs, funcMappings, i);
      RemoveUser(address);
      var found := FindByAddress(funcMappings, address);
      funcMappings := funcMappings[found.value := funcMappings[found.value].(hasBreakpoint := false)];
    }

    /** A breakpoint on every function but the entry. */
    method SetFunctionBreakpoints()
      requires vm.Valid() && vm.hasTasks && DistinctAddresses(funcMappings) && Matches(vm.refs, funcMappings)
      requires forall i :: 0 <= i < |funcMappings| ==> funcMappings[i].original in vm.memory
      modifies `funcMappings, vm
      ensures vm.Valid() && vm.hasTasks && vm.memory.Keys == old(vm.memory.Keys)
      ensures SameFunctions(funcMappings, old(funcMappings)) && Matches(vm.refs, funcMappings)
      ensures forall i :: 0 <= i < |funcMappings| && !funcMappings[i].IsEntry() ==> funcMappings[i].hasBreakpoint
      ensures forall i :: 0 <= i < |funcMappings| && funcMappings[i].IsEntry() ==>
                funcMappings[i] == old(funcMappings)[i]
      ensures DistinctAddresses(funcMappings) && LeavesProgram(old(Current(vm)), Current(vm))
    {
      hide BreakpointTable.Valid, Matches, DistinctAddresses, LeavesProgram, Current;
      ghost var start := funcMappings;
      LeavesAll(Current(vm));
      for i := 0 to |funcMappings|
        invariant |funcMappings| == |start| && SameFunctions(funcMappings, start)
        invariant vm.Valid() && vm.hasTasks && vm.memory.Keys == old(vm.memory.Keys) && Matches(vm.refs, funcMappings)
        invariant DistinctAddresses(funcMappings) && LeavesProgram(old(Current(vm)), Current(vm))
        invariant forall k :: 0 <= k < |start| && start[k].IsEntry() ==> funcMappings[k] == start[k]
        invariant forall k :: 0 <= k < i && !funcMappings[k].IsEntry() ==> funcMappings[k].hasBreakpoint
      {
        if funcMappings[i].hasBreakpoint || funcMappings[i].IsEntry() {
          continue;
        }
        SetStatus(vm.refs, funcMappings, i);
        assert funcMappings[i].original == start[i].original;
        ghost var m := Current(vm);
        AddUser(funcMappings[i].original);
        LeavesTwice(old(Current(vm)), m, Current(vm));
        ghost var before := funcMappings;
        funcMappings := funcMappings[i := funcMappings[i].(hasBreakpoint := true)];
        SameAddresses(before, funcMappings);
      }
    }

    /** The entry breakpoint was hit: load, go back to the entry, arm the functions. */
    method LoadModifiedCode()
      requires Valid() && hasSetEntryBp && !doneModifiedLoad && ip == initialEntryPoint + 1
      modifies this, vm
      ensures Valid() && doneModifiedLoad && ip == entry && log == old(log) + [Load]
      ensures !hasDiverged
      ensures forall i :: 0 <= i < |funcMappings| && !funcMappings[i].IsEntry() ==> funcMappings[i].hasBreakpoint
      ensures ModBpsExist(funcMappings) <==> exists j: nat :: IsFirst(loaded, j)
      ensures forall j: nat :: IsFirst(loaded, j) ==> FunctionArmed(funcMappings, vm.refs, loaded[j])
      ensures (entry, User) !in vm.refs && LeavesProgram(old(Current(vm)), Current(vm))
    {
      hide BreakpointTable.Valid, Loadable, LogOk, Matches, DistinctAddresses, Base, IsFirst, FunctionArmed,
        LeavesProgram, Current;
      ghost var m := Current(vm);
      LoadedMappings(entry, loaded, vm.memory.Keys);
      Loaded(vm.refs, entry, loaded, vm.memory.Keys);
      ghost var base := Base(entry, loaded);
      funcMappings := Base(entry, loaded);
      RemoveBreakpoint(initialEntryPoint, 0);
      SameAddresses(base, funcMappings);
      ip := initialEntryPoint;
      doneModifiedLoad := true;
      ghost var m' := Current(vm);
      SetFunctionBreakpoints();
      LeavesTwice(m, m', Current(vm));
      EntryDisarmed(funcMappings, vm.refs, entry);
      AllArmed(funcMappings, vm.refs, entry, loaded);
      LogLoad(log, hasDiverged, [EntryMapping(entry, true)], funcMappings);
      log := log + [Load];
    }

    /** A function's breakpoint was hit: take it away and continue in the modified function. */
    method JumpToModifiedCode(ghost k: nat)
      requires Valid() && doneModifiedLoad
      requires k < |funcMappings| && funcMappings[k].original == ip - 1 && funcMappings[k].hasBreakpoint
      requires !funcMappings[k].IsEntry()
      modifies this, vm
      ensures Valid() && hasDiverged && ip == old(funcMappings)[k].modified
      ensures log == old(log) + [Jump(k, old(ip) - 1, ip)] && |funcMappings| == |old(funcMappings)|
      ensures LeavesProgram(old(Current(vm)), Current(vm))
    {
      hide BreakpointTable.Valid, Loadable, LogOk, Matches, Base, LeavesProgram, Current;
      LoadedMappings(entry, loaded, vm.memory.Keys);
      NotTheEntry(funcMappings, Base(entry, loaded), k);
      hide SameFunctions;
      var at := ip - 1;
      var modAddr := ModifiedFuncAddr(funcMappings, at);
      assert modAddr == funcMappings[k].modified;
      hide DistinctAddresses;
      LogJump(log, hasSetEntryBp, hasDiverged, funcMappings, k);
      ghost var before := funcMappings;
      RemoveBreakpoint(at, k);
      Cleared(before, Base(entry, loaded), k);
      SameAddresses(before, funcMappings);
      ip := modAddr;
      hasDiverged := true;
      log := log + [Jump(k, at, modAddr)];
    }

    lemma StepHits(at: nat)
      requires Valid()
      ensures doneModifiedLoad ==> (Hit(funcMappings, at) <==> Diverts(log, loaded, at - 1))
    {
      hide BreakpointTable.Valid, Loadable, Matches, DistinctAddresses, SameFunctions, Base, Diverts, Hit;
      if doneModifiedLoad {
        HitExactly(log, funcMappings, entry, loaded, at);
      }
    }

    /**
     * One step. The tracee has stopped at `at`; whether the first exec is behind it and whether the
     * underlying session ends are the environment's choice.
     */
    method MuplayStep(doneInitialExec: bool, at: nat, ends: bool) returns (exited: bool)
      requires Valid()
      modifies this, vm
      ensures Valid() && LeavesProgram(old(Current(vm)), Current(vm))
      ensures doneInitialExec && !old(hasSetEntryBp) ==>
                hasSetEntryBp && log == old(log) + [EntryBreakpoint] + [ReplayStep] && exited == ends
      ensures doneInitialExec && old(hasSetEntryBp) && !old(doneModifiedLoad) && at == entry + 1 ==>
                doneModifiedLoad && if metadataMode then log == old(log) + [Load] && exited
                else log == old(log) + [Load] + [ReplayStep] && exited == ends
      ensures old(doneModifiedLoad) && Diverts(old(log), loaded, at - 1) ==>
                && hasDiverged && exited == ends
                && exists k ::
                     && 0 <= k < |funcMappings|
                     && old(funcMappings)[k].original == at - 1 && old(funcMappings)[k].hasBreakpoint
                     && log == old(log) + [Jump(k, at - 1, old(funcMappings)[k].modified)] + [DiversionStep]
                     && exists j: nat ::
                          && IsFirst(loaded, j) && at == loaded[j].original + 1
                          && old(funcMappings)[k].modified == loaded[j].modified
      ensures (if !old(hasSetEntryBp) then !doneInitialExec
               else if !old(doneModifiedLoad) then !doneInitialExec || at != entry + 1
               else !Diverts(old(log), loaded, at - 1)) ==>
                && log == old(log) + [if old(hasDiverged) then DiversionStep else ReplayStep]
                && funcMappings == old(funcMappings) && exited == ends && unchanged(vm)
    {
      hide BreakpointTable.Valid, Loadable, LogOk, Matches, DistinctAddresses, SameFunctions, Base;
      ip := at;
      StepHits(at);
      var armed := ModFunctionBpsExist(funcMappings);
      var hit := AtModifiedFuncBp(funcMappings, ip);
      if ShouldSet(doneInitialExec) {
        PutEntryBp();
      } else if ShouldLoad(doneInitialExec, at) {
        LoadModifiedCode();
        if metadataMode {
          return true;
        }
      } else if doneModifiedLoad && armed && hit {
        ghost var k :| 0 <= k < |funcMappings| && funcMappings[k].original == ip - 1 && funcMappings[k].hasBreakpoint
          && !funcMappings[k].IsEntry();
        ghost var j := IsLoaded(funcMappings, entry, loaded, k);
        JumpToModifiedCode(k);
      }
      Advance();
      exited := ends;
    }

    /**
     * Something else uses the address space: replay sets and removes internal breakpoints, and the
     * program and the recording write any memory that is there, breakpoints included.
     */
    method Elsewhere(op: Op)
      requires Valid()
      modifies vm
      ensures Valid()
      ensures if !op.DoRemoveAll? && (op.DoAdd? || op.DoRemove? ==> op.which == Internal)
                && Balanced(old(Current(vm)), op)
              then Agrees(vm, Step(old(Current(vm)), op)) else unchanged(vm)
    {
      hide BreakpointTable.Valid, Loadable, LogOk, Matches, DistinctAddresses, SameFunctions, Base, Balanced,
        Step;
      if Foreign(op) {
        ghost var m := Current(vm);
        var done := PerformBalanced(vm, op);
        if done {
          ForeignUsers(vm, m, op);
        }
        SameUsers(m.refs, vm.refs, funcMappings);
      }
    }

    /** Run the replay until it has diverged, then the diversion. */
    method Advance()
      requires Valid()
      modifies `log
      ensures Valid() && log == old(log) + [if hasDiverged then DiversionStep else ReplayStep]
    {
      hide BreakpointTable.Valid, Loadable, LogOk, Matches, DistinctAddresses, SameFunctions, Base;
      LogAdvance(log, hasSetEntryBp, doneModifiedLoad, hasDiverged, funcMappings);
      if !hasDiverged {
        log := log + [ReplayStep];
      } else {
        log := log + [DiversionStep];
      }
    }
  }

  /** The log agrees with the flags; a function jumped to has lost its breakpoint. */
  ghost predicate LogOk(log: seq<Event>, hasSet: bool, doneLoad: bool, diverged: bool, ms: Mappings) {
    && Allowed(log)
    && (hasSet <==> EntryBreakpoint in log)
    && (doneLoad <==> Load in log)
    && (diverged <==> Jumped(log))
    && (forall e :: e in log && e.Jump? ==> JumpOk(ms, e))
    && (doneLoad ==> Unspent(log, ms))
  }

  /** A function whose breakpoint is gone has been jumped to. */
  ghost predicate Unspent(log: seq<Event>, ms: Mappings) {
    forall i: nat :: i < |ms| && !ms[i].IsEntry() && !ms[i].hasBreakpoint ==> JumpedTo(log, i)
  }

  lemma UnspentSnoc(log: seq<Event>, ms: Mappings, e: Event)
    requires Unspent(log, ms)
    ensures Unspent(log + [e], ms)
    ensures e.Jump? && e.function_ < |ms| ==>
              Unspent(log + [e], ms[e.function_ := ms[e.function_].(hasBreakpoint := false)])
  {
    forall i: nat | JumpedTo(log, i)
      ensures JumpedTo(log + [e], i)
    {
      var k :| 0 <= k < |log| && log[k].Jump? && log[k].function_ == i;
      assert (log + [e])[k] == log[k];
    }
    if e.Jump? {
      assert (log + [e])[|log|] == e;
      assert JumpedTo(log + [e], e.function_);
    }
  }

  lemma LogEntry(log: seq<Event>, ms: Mappings)
    requires LogOk(log, false, false, false, [])
    ensures LogOk(log + [EntryBreakpoint], true, false, false, ms)
  {
    hide Allowed, Jumped;
    AllowedSnoc(log, EntryBreakpoint);
    NoJumps(log);
  }

  lemma NoJumps(log: seq<Event>)
    requires !Jumped(log)
    ensures forall e :: e in log ==> !e.Jump?
  {
    forall e | e in log
      ensures !e.Jump?
    {
      var k :| 0 <= k < |log| && log[k] == e;
    }
  }

  lemma LogLoad(log: seq<Event>, diverged: bool, ms: Mappings, ms': Mappings)
    requires LogOk(log, true, false, diverged, ms) && !diverged
    requires forall i :: 0 <= i < |ms'| && !ms'[i].IsEntry() ==> ms'[i].hasBreakpoint
    ensures LogOk(log + [Load], true, true, diverged, ms')
  {
    hide Allowed, Jumped;
    AllowedSnoc(log, Load);
    NoJumps(log);
  }

  lemma LogJump(log: seq<Event>, hasSet: bool, diverged: bool, ms: Mappings, k: nat)
    requires LogOk(log, hasSet, true, diverged, ms) && k < |ms| && ms[k].hasBreakpoint
    ensures LogOk(log + [Jump(k, ms[k].original, ms[k].modified)], hasSet, true, true,
                  ms[k := ms[k].(hasBreakpoint := false)])
  {
    hide Allowed, Jumped, Unspent;
    NotYet(log, ms, k);
    UnspentSnoc(log, ms, Jump(k, ms[k].original, ms[k].modified));
    AllowedSnoc(log, Jump(k, ms[k].original, ms[k].modified));
  }

  lemma LogAdvance(log: seq<Event>, hasSet: bool, doneLoad: bool, diverged: bool, ms: Mappings)
    requires LogOk(log, hasSet, doneLoad, diverged, ms)
    ensures LogOk(log + [if diverged then DiversionStep else ReplayStep], hasSet, doneLoad, diverged, ms)
  {
    hide Allowed, Jumped, Unspent;
    AllowedSnoc(log, if diverged then DiversionStep else ReplayStep);
    if doneLoad {
      UnspentSnoc(log, ms, if diverged then DiversionStep else ReplayStep);
    }
  }

  lemma NotTheEntry(ms: Mappings, base: Mappings, k: nat)
    requires SameFunctions(ms, base) && k < |ms| && !ms[k].IsEntry()
    requires base[0].IsEntry() && forall i :: 0 < i < |base| ==> base[i].modified != 0
    ensures ms[k].modified != 0
  {
    assert ms[k].(hasBreakpoint := false) == base[k].(hasBreakpoint := false);
  }

  lemma Cleared(ms: Mappings, base: Mappings, k: nat)
    requires SameFunctions(ms, base) && k < |ms|
    ensures SameFunctions(ms[k := ms[k].(hasBreakpoint := false)], base)
    ensures SameFunctions(ms[k := ms[k].(hasBreakpoint := false)], ms)
  {
  }

  /** What may happen to the breakpoint table outside muplay: anything that leaves user references alone. */
  predicate Foreign(op: Op) {
    match op
    case DoAdd(_, which) => which == Internal
    case DoRemove(_, which) => which == Internal
    case DoRemoveAll => false
    case _ => true
  }

  lemma ForeignUsers(table: BreakpointTable, m: Model, op: Op)
    requires Foreign(op) && Agrees(table, Step(m, op))
    ensures forall addr :: table.refs[(addr, User)] == m.refs[(addr, User)]
  {
  }

  lemma SameUsers(refs: References, refs': References, ms: Mappings)
    requires Matches(refs, ms) && forall addr :: refs'[(addr, User)] == refs[(addr, User)]
    ensures Matches(refs', ms)
  {
    forall addr
      ensures refs'[(addr, User)] == Expected(ms, addr)
    {
      assert refs[(addr, User)] == Expected(ms, addr);
    }
  }

  lemma NotYet(log: seq<Event>, ms: Mappings, k: nat)
    requires k < |ms| && ms[k].hasBreakpoint && Load in log
    requires forall e :: e in log && e.Jump? ==> JumpOk(ms, e)
    ensures MayFollow(log, Jump(k, ms[k].original, ms[k].modified))
  {
    forall i | 0 <= i < |log| && log[i].Jump?
      ensures log[i].function_ != k
    {
      assert log[i] in log;
    }
  }

  lemma SameAddresses(ms: Mappings, ms': Mappings)
    requires DistinctAddresses(ms) && SameFunctions(ms', ms)
    ensures DistinctAddresses(ms')
  {
    forall k | 0 <= k < |ms|
      ensures ms'[k].original == ms[k].original && ms'[k].modified == ms[k].modified
    {
    }
  }

  lemma OnlyEntry(refs: References, entry: nat)
    requires Matches(refs, [])
    ensures Matches(refs + multiset{(entry, User)}, [EntryMapping(entry, true)])
  {
    var ms := [EntryMapping(entry, true)];
    assert ms[0].hasBreakpoint && ms[0].original == entry;
  }

  lemma LoadedMappings(entry: nat, loaded: Mappings, readable: set<nat>)
    requires Loadable(entry, loaded, readable)
    ensures var ms := Base(entry, loaded);
            && ms != [] && ms[0] == EntryMapping(entry, true) && DistinctAddresses(ms)
            && forall i :: 0 <= i < |ms| ==>
                 ms[i].original in readable && (0 < i ==> !ms[i].hasBreakpoint && ms[i].modified != 0)
  {
    InsertKeeps([EntryMapping(entry, true)], loaded);
    var ms := Base(entry, loaded);
    forall i | 0 < i < |ms|
      ensures ms[i] in loaded
    {
      assert ms[i] in [EntryMapping(entry, true)][1..] + loaded;
    }
  }

  /** Loading adds mappings without breakpoints. */
  lemma Loaded(refs: References, entry: nat, loaded: Mappings, readable: set<nat>)
    requires Matches(refs, [EntryMapping(entry, true)]) && Loadable(entry, loaded, readable)
    ensures Matches(refs, Base(entry, loaded))
  {
    LoadedMappings(entry, loaded, readable);
    var ms := Base(entry, loaded);
    forall addr
      ensures Expected(ms, addr) == Expected([EntryMapping(entry, true)], addr)
    {
      if addr == entry {
        assert ms[0].hasBreakpoint && ms[0].original == addr;
        assert [EntryMapping(entry, true)][0].hasBreakpoint;
      }
    }
  }

  lemma LoadableParts(entry: nat, loaded: Mappings, readable: set<nat>)
    requires Loadable(entry, loaded, readable)
    ensures entry in readable
  {
  }

  /** A jump went from a function's original to its modified address, and its breakpoint is gone. */
  predicate JumpOk(ms: Mappings, e: Event)
    requires e.Jump?
  {
    && e.function_ < |ms| && !ms[e.function_].hasBreakpoint
    && ms[e.function_].original == e.from && ms[e.function_].modified == e.to
  }

  /** The environment's part in a step: what the step sees, and what happens to memory and breakpoints after it. */
  datatype Input = Input(doneInitialExec: bool, at: nat, ends: bool, after: seq<Op>)

  predicate Sets(log: seq<Event>, input: Input) { input.doneInitialExec && EntryBreakpoint !in log }

  predicate Loads(log: seq<Event>, input: Input, entry: nat) {
    input.doneInitialExec && EntryBreakpoint in log && Load !in log && input.at == entry + 1
  }

  /** What one step does, as the log so far and its input decide it. */
  ghost predicate Stepped(log: seq<Event>, input: Input, log': seq<Event>, session: MuplaySession) {
    if Sets(log, input) then log' == log + [EntryBreakpoint] + [ReplayStep]
    else if Loads(log, input, session.entry) then
      log' == if session.metadataMode then log + [Load] else log + [Load] + [ReplayStep]
    else if Load in log && Diverts(log, session.loaded, input.at - 1) then
      exists k: nat, j: nat ::
        && IsFirst(session.loaded, j) && session.loaded[j].original == input.at - 1
        && log' == log + [Jump(k, session.loaded[j].original, session.loaded[j].modified)] + [DiversionStep]
    else log' == log + [if Jumped(log) then DiversionStep else ReplayStep]
  }

  /** A step that touches no breakpoint. */
  ghost predicate Quiet(log: seq<Event>, input: Input, session: MuplaySession) {
    && !Sets(log, input) && !Loads(log, input, session.entry)
    && !(Load in log && Diverts(log, session.loaded, input.at - 1))
  }

  predicate Exits(log: seq<Event>, input: Input, session: MuplaySession) {
    input.ends || (Loads(log, input, session.entry) && session.metadataMode)
  }

  /** What the environment makes of the table. */
  ghost function Touched(m: Model, ops: seq<Op>): Model {
    if ops == [] then m
    else
      var before, op := Touched(m, ops[..|ops| - 1]), ops[|ops| - 1];
      if Foreign(op) && Balanced(before, op) then Step(before, op) else before
  }

  /** The log and the table between two steps. */
  datatype Stage = Stage(log: seq<Event>, table: Model)

  /** One step and what the environment does after it. */
  ghost predicate Follows(was: Stage, input: Input, now: Stage, session: MuplaySession) {
    && Stepped(was.log, input, now.log, session)
    && exists m: Model ::
         && LeavesProgram(was.table, m)
         && (Quiet(was.log, input, session) ==> m == was.table)
         && now.table == if Exits(was.log, input, session) then m else Touched(m, input.after)
  }

  /**
   * Every run, whatever the environment does: it takes the steps its inputs call for up to the first
   * that exits, and the table changes only by the session's own breakpoints and the environment.
   */
  method RunSession(session: MuplaySession, inputs: seq<Input>) returns (steps: nat, ghost stages: seq<Stage>)
    requires session.Valid()
    modifies session, session.vm
    ensures session.Valid() && Allowed(session.log)
    ensures Matches(session.vm.refs, session.funcMappings)
    ensures steps <= |inputs| && |stages| == steps + 1
    ensures stages[0] == Stage(old(session.log), old(Current(session.vm)))
    ensures stages[steps] == Stage(session.log, Current(session.vm))
    ensures forall i :: 0 <= i < steps ==> Follows(stages[i], inputs[i], stages[i + 1], session)
    ensures forall i :: 0 <= i < steps - 1 ==> !Exits(stages[i].log, inputs[i], session)
    ensures steps < |inputs| ==> steps > 0 && Exits(stages[steps - 1].log, inputs[steps - 1], session)
  {
    hide BreakpointTable.Valid, Loadable, Allowed, Matches, DistinctAddresses, SameFunctions, Base, Follows;
    steps := 0;
    stages := [Stage(session.log, Current(session.vm))];
    while steps < |inputs|
      invariant steps <= |inputs| && |stages| == steps + 1 && session.Valid()
      invariant stages[0] == Stage(old(session.log), old(Current(session.vm)))
      invariant stages[steps] == Stage(session.log, Current(session.vm))
      invariant forall i :: 0 <= i < steps ==> Follows(stages[i], inputs[i], stages[i + 1], session)
      invariant forall i :: 0 <= i < steps ==> !Exits(stages[i].log, inputs[i], session)
    {
      var exited := StepOnce(session, inputs[steps]);
      stages := stages + [Stage(session.log, Current(session.vm))];
      steps := steps + 1;
      if exited {
        break;
      }
    }
  }

  /** One turn of the loop that drives a session. */
  method StepOnce(session: MuplaySession, input: Input) returns (exited: bool)
    requires session.Valid()
    modifies session, session.vm
    ensures session.Valid() && exited == Exits(old(session.log), input, session)
    ensures Follows(old(Stage(session.log, Current(session.vm))), input,
                    Stage(session.log, Current(session.vm)), session)
  {
    hide BreakpointTable.Valid, Loadable, Matches, DistinctAddresses, SameFunctions, Base, Diverts, IsFirst, Balanced,
      LeavesProgram, Step, Stepped, Quiet, Exits, LogOk, Current;
    exited := StepAlone(session, input);
    ghost var m := Current(session.vm);
    if !exited {
      Meanwhile(session, input.after);
    }
    assert LeavesProgram(old(Current(session.vm)), m);
  }

  method StepAlone(session: MuplaySession, input: Input) returns (exited: bool)
    requires session.Valid()
    modifies session, session.vm
    ensures session.Valid() && exited == Exits(old(session.log), input, session)
    ensures Stepped(old(session.log), input, session.log, session)
    ensures LeavesProgram(old(Current(session.vm)), Current(session.vm))
    ensures Quiet(old(session.log), input, session) ==> Current(session.vm) == old(Current(session.vm))
  {
    hide BreakpointTable.Valid, Loadable, Matches, DistinctAddresses, SameFunctions, Base, Diverts, IsFirst,
      LeavesProgram, Unspent, Allowed, JumpOk;
    exited := session.MuplayStep(input.doneInitialExec, input.at, input.ends);
  }

  method Meanwhile(session: MuplaySession, ops: seq<Op>)
    requires session.Valid()
    modifies session.vm
    ensures session.Valid() && Current(session.vm) == Touched(old(Current(session.vm)), ops)
  {
    hide BreakpointTable.Valid, Loadable, Matches, DistinctAddresses, SameFunctions, Base, Balanced, Step, LogOk;
    ghost var m := Current(session.vm);
    for k := 0 to |ops|
      invariant session.Valid() && Current(session.vm) == Touched(m, ops[..k])
    {
      assert ops[..k + 1][..k] == ops[..k];
      session.Elsewhere(ops[k]);
    }
    assert ops[..|ops|] == ops;
  }
}
