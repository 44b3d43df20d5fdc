/**
 * The breakpoint overlay: reference-counted breakpoint bytes written over the tracee's memory,
 * which must be invisible to readers and leave nothing behind.
 */
module Breakpoints {
  import opened Prelude

  const BREAKPOINT_INSN: byte := 0xCC

  datatype BreakpointType = Internal | User

  datatype Breakpoint = Breakpoint(internalCount: nat, userCount: nat, overwritten: byte) {
    function Count(which: BreakpointType): nat {
      if which == User then userCount else internalCount
    }

    function Ref(which: BreakpointType): (b: Breakpoint)
      ensures b.Total() == Total() + 1
      ensures b.Count(which) == Count(which) + 1 && b.overwritten == overwritten
      ensures forall other :: other != which ==> b.Count(other) == Count(other)
    {
      if which == User then this.(userCount := userCount + 1) else this.(internalCount := internalCount + 1)
    }

    function Unref(which: BreakpointType): (b: Breakpoint)
      requires Count(which) > 0
      ensures b.Count(which) == Count(which) - 1 && b.overwritten == overwritten
      ensures forall other :: other != which ==> b.Count(other) == Count(other)
    {
      if which == User then this.(userCount := userCount - 1) else this.(internalCount := internalCount - 1)
    }

    function Total(): nat { internalCount + userCount }
  }

  /** References not yet given back. */
  type References = multiset<(nat, BreakpointType)>

  /** What memory would be without the breakpoints, as far as rr knows: the saved bytes at breakpoints. */
  function KeptBytes(memory: map<nat, byte>, breakpoints: map<nat, Breakpoint>): (r: map<nat, byte>)
    ensures r.Keys == memory.Keys
    ensures forall a :: a in memory ==> r[a] == if a in breakpoints then breakpoints[a].overwritten else memory[a]
  {
    map a | a in memory :: if a in breakpoints then breakpoints[a].overwritten else memory[a]
  }

  /**
   * A breakpoint shows in memory as the breakpoint byte, unless it is suspended and shows the saved
   * byte, or lost and shows what has been written over it.
   */
  ghost predicate Overlaid(memory: map<nat, byte>, original: map<nat, byte>, breakpoints: map<nat, Breakpoint>,
                           suspended: set<nat>, lost: set<nat>)
  {
    && memory.Keys == original.Keys && breakpoints.Keys <= memory.Keys
    && suspended <= breakpoints.Keys && lost <= breakpoints.Keys && suspended !! lost
    && forall a :: a in breakpoints ==>
         memory[a] == if a in suspended then breakpoints[a].overwritten
                      else if a in lost then original[a] else BREAKPOINT_INSN
  }

  ghost predicate CountedBy(breakpoints: map<nat, Breakpoint>, refs: References) {
    && (forall a, which :: a in breakpoints ==> breakpoints[a].Count(which) == refs[(a, which)])
    && (forall a, which :: (a, which) in refs ==> a in breakpoints)
  }

  predicate AllPositive(breakpoints: map<nat, Breakpoint>) {
    forall a :: a in breakpoints ==> breakpoints[a].Total() > 0
  }

  lemma AddCounted(breakpoints: map<nat, Breakpoint>, refs: References, addr: nat, which: BreakpointType, b: Breakpoint)
    requires CountedBy(breakpoints, refs)
    requires addr in breakpoints ==> b == breakpoints[addr]
    requires addr !in breakpoints ==> b.Total() == 0
    ensures CountedBy(breakpoints[addr := b.Ref(which)], refs + multiset{(addr, which)})
  {
    assert addr !in breakpoints ==> forall w :: refs[(addr, w)] == 0 && b.Count(w) == 0;
  }

  lemma RemoveCounted(breakpoints: map<nat, Breakpoint>, refs: References, addr: nat, which: BreakpointType)
    requires CountedBy(breakpoints, refs) && addr in breakpoints && (addr, which) in refs
    ensures breakpoints[addr].Count(which) > 0
    ensures CountedBy(breakpoints[addr := breakpoints[addr].Unref(which)], refs - multiset{(addr, which)})
    ensures breakpoints[addr].Unref(which).Total() == 0 ==>
              CountedBy(breakpoints - {addr}, refs - multiset{(addr, which)})
  {
    var b, refs' := breakpoints[addr].Unref(which), refs - multiset{(addr, which)};
    assert forall w :: b.Count(w) == refs'[(addr, w)];
  }

  lemma NotHeld(breakpoints: map<nat, Breakpoint>, refs: References, addr: nat, which: BreakpointType)
    requires CountedBy(breakpoints, refs) && addr !in breakpoints
    ensures refs - multiset{(addr, which)} == refs
  {
  }

  lemma NewByte(memory: map<nat, byte>, original: map<nat, byte>, breakpoints: map<nat, Breakpoint>,
                suspended: set<nat>, lost: set<nat>, addr: nat, b: Breakpoint)
    requires Overlaid(memory, original, breakpoints, suspended, lost)
    requires addr !in breakpoints && addr in memory && b.overwritten == memory[addr]
    ensures Overlaid(memory[addr := BREAKPOINT_INSN], original, breakpoints[addr := b], suspended, lost)
    ensures KeptBytes(memory[addr := BREAKPOINT_INSN], breakpoints[addr := b]) == KeptBytes(memory, breakpoints)
  {
  }

  lemma SameBytes(memory: map<nat, byte>, original: map<nat, byte>, breakpoints: map<nat, Breakpoint>,
                  suspended: set<nat>, lost: set<nat>, addr: nat, b: Breakpoint)
    requires Overlaid(memory, original, breakpoints, suspended, lost)
    requires addr in breakpoints && b.overwritten == breakpoints[addr].overwritten
    ensures addr in memory && Overlaid(memory, original, breakpoints[addr := b], suspended, lost)
    ensures KeptBytes(memory, breakpoints[addr := b]) == KeptBytes(memory, breakpoints)
  {
  }

  /** Any byte may be written at a breakpoint that becomes suspended or lost, or is set. */
  lemma OtherByte(memory: map<nat, byte>, original: map<nat, byte>, breakpoints: map<nat, Breakpoint>,
                  suspended: set<nat>, lost: set<nat>, addr: nat)
    requires Overlaid(memory, original, breakpoints, suspended, lost) && addr in breakpoints
    ensures var mem := memory[addr := breakpoints[addr].overwritten];
            && Overlaid(mem, original, breakpoints, suspended + {addr}, lost - {addr})
            && KeptBytes(mem, breakpoints) == KeptBytes(memory, breakpoints)
    ensures var mem := memory[addr := BREAKPOINT_INSN];
            && Overlaid(mem, original, breakpoints, suspended - {addr}, lost - {addr})
            && KeptBytes(mem, breakpoints) == KeptBytes(memory, breakpoints)
  {
  }

  lemma Uncovered(memory: map<nat, byte>, original: map<nat, byte>, breakpoints: map<nat, Breakpoint>,
                  suspended: set<nat>, lost: set<nat>, addr: nat)
    requires Overlaid(memory, original, breakpoints, suspended, lost) && addr in breakpoints
    ensures var mem, bps := memory[addr := breakpoints[addr].overwritten], breakpoints - {addr};
            && mem.Keys == memory.Keys && Overlaid(mem, original, bps, suspended - {addr}, lost - {addr})
            && KeptBytes(mem, bps) == KeptBytes(memory, breakpoints)
  {
  }

  function Patched(m: map<nat, byte>, addr: nat, data: seq<byte>): (r: map<nat, byte>)
    ensures r.Keys == m.Keys
    ensures forall a :: a in m ==> r[a] == if addr <= a < addr + |data| then data[a - addr] else m[a]
  {
    map a | a in m :: if addr <= a < addr + |data| then data[a - addr] else m[a]
  }

  /** The breakpoints `maybe_update_breakpoints` looks at after a write: those before its last byte. */
  function HitBy(breakpoints: map<nat, Breakpoint>, addr: nat, len: nat): (hit: set<nat>)
    ensures hit <= breakpoints.Keys
  {
    set b | b in breakpoints && addr <= b < addr + len - 1
  }

  function Noted(breakpoints: map<nat, Breakpoint>, memory: map<nat, byte>, hit: set<nat>): (r: map<nat, Breakpoint>)
    requires hit <= memory.Keys
    ensures r.Keys == breakpoints.Keys
  {
    map b | b in breakpoints :: if b in hit then breakpoints[b].(overwritten := memory[b]) else breakpoints[b]
  }

  function SetAgain(memory: map<nat, byte>, hit: set<nat>): (r: map<nat, byte>)
    ensures r.Keys == memory.Keys
  {
    map a | a in memory :: if a in hit then BREAKPOINT_INSN else memory[a]
  }

  lemma HitStart(breakpoints: map<nat, Breakpoint>, memory: map<nat, byte>, addr: nat, len: nat)
    requires forall b :: b in breakpoints ==> b in memory
    ensures var hit := HitBy(breakpoints, addr, len);
            && hit <= memory.Keys
            && Noted(breakpoints, memory, hit - breakpoints.Keys) == breakpoints
            && SetAgain(memory, hit - breakpoints.Keys) == memory
  {
  }

  /** One turn of the loop over the breakpoints. */
  lemma HitOne(breakpoints: map<nat, Breakpoint>, memory: map<nat, byte>, addr: nat, len: nat, left: set<nat>, b: nat)
    requires HitBy(breakpoints, addr, len) <= memory.Keys && b in left && b in breakpoints
    ensures var hit := HitBy(breakpoints, addr, len);
            var bps, mem := Noted(breakpoints, memory, hit - left), SetAgain(memory, hit - left);
            if addr <= b < addr + len - 1 then
              && b in memory
              && Noted(breakpoints, memory, hit - (left - {b})) == bps[b := bps[b].(overwritten := mem[b])]
              && SetAgain(memory, hit - (left - {b})) == mem[b := BREAKPOINT_INSN]
            else hit - (left - {b}) == hit - left
  {
    var hit := HitBy(breakpoints, addr, len);
    if addr <= b < addr + len - 1 {
      assert b in hit && hit - (left - {b}) == (hit - left) + {b};
    }
  }

  function Outside(s: set<nat>, addr: nat, len: nat): set<nat> { set a | a in s && !(addr <= a < addr + len) }

  /** What rr learns of a write: everything, but not its last byte if that has a breakpoint. */
  function Learned(kept: map<nat, byte>, addr: nat, data: seq<byte>, lastHeld: bool): (r: map<nat, byte>)
    ensures r.Keys == kept.Keys
    ensures forall a :: a in kept ==>
              r[a] ==
              if addr <= a < addr + |data| && !(lastHeld && a == addr + |data| - 1) then data[a - addr] else kept[a]
  {
    Patched(kept, addr, if lastHeld && data != [] then data[..|data| - 1] else data)
  }

  /** The breakpoints whose byte a write has replaced for good. */
  function LostAfter(lost: set<nat>, addr: nat, len: nat, lastHeld: bool): set<nat> {
    Outside(lost, addr, len) + if lastHeld && len > 0 then {addr + len - 1} else {}
  }

  lemma OverlayAfterWrite(memory: map<nat, byte>, original: map<nat, byte>, breakpoints: map<nat, Breakpoint>,
                          suspended: set<nat>, lost: set<nat>, addr: nat, data: seq<byte>)
    requires Overlaid(memory, original, breakpoints, suspended, lost)
    requires data != [] && forall a :: addr <= a < addr + |data| ==> a in memory
    ensures var mem, hit := Patched(memory, addr, data), HitBy(breakpoints, addr, |data|);
            var lastHeld := addr + |data| - 1 in breakpoints;
            && hit <= mem.Keys
            && Overlaid(SetAgain(mem, hit), Patched(original, addr, data), Noted(breakpoints, mem, hit),
                        Outside(suspended, addr, |data|), LostAfter(lost, addr, |data|, lastHeld))
  {
    hide Patched;
  }

  lemma KeptAfterWrite(memory: map<nat, byte>, breakpoints: map<nat, Breakpoint>, addr: nat, data: seq<byte>)
    requires breakpoints.Keys <= memory.Keys
    requires data != [] && forall a :: addr <= a < addr + |data| ==> a in memory
    ensures var mem, hit := Patched(memory, addr, data), HitBy(breakpoints, addr, |data|);
            && hit <= mem.Keys
            && KeptBytes(SetAgain(mem, hit), Noted(breakpoints, mem, hit)) ==
               Learned(KeptBytes(memory, breakpoints), addr, data, addr + |data| - 1 in breakpoints)
  {
    hide Patched;
  }

  /** Which breakpoints show after a write: those outside it that did, all before its last byte, the last by chance. */
  lemma SetAfterWrite(memory: map<nat, byte>, breakpoints: map<nat, Breakpoint>, addr: nat, data: seq<byte>)
    requires breakpoints.Keys <= memory.Keys
    requires data != [] && forall a :: addr <= a < addr + |data| ==> a in memory
    ensures var mem, hit := Patched(memory, addr, data), HitBy(breakpoints, addr, |data|);
            && hit <= mem.Keys
            && (AllSet(SetAgain(mem, hit), breakpoints.Keys) <==>
                && AllSet(memory, Outside(breakpoints.Keys, addr, |data|))
                && (addr + |data| - 1 in breakpoints ==> data[|data| - 1] == BREAKPOINT_INSN))
  {
    hide Patched;
    var mem, hit := Patched(memory, addr, data), HitBy(breakpoints, addr, |data|);
    var after := SetAgain(mem, hit);
    forall b | b in breakpoints
      ensures after[b] == if !(addr <= b < addr + |data|) then memory[b]
                          else if b == addr + |data| - 1 then data[|data| - 1] else BREAKPOINT_INSN
    {
    }
    if AllSet(after, breakpoints.Keys) {
      assert forall b :: b in breakpoints ==> after[b] == BREAKPOINT_INSN;
    }
  }

  /** Memory has the breakpoint byte at each of these. */
  predicate AllSet(memory: map<nat, byte>, addrs: set<nat>) {
    forall a :: a in addrs ==> a in memory && memory[a] == BREAKPOINT_INSN
  }

  lemma SameCounts(breakpoints: map<nat, Breakpoint>, memory: map<nat, byte>, hit: set<nat>, refs: References)
    requires hit <= memory.Keys
    ensures CountedBy(Noted(breakpoints, memory, hit), refs) <==> CountedBy(breakpoints, refs)
    ensures AllPositive(Noted(breakpoints, memory, hit)) <==> AllPositive(breakpoints)
  {
    var after := Noted(breakpoints, memory, hit);
    forall b, which | b in breakpoints
      ensures after[b].Count(which) == breakpoints[b].Count(which) && after[b].Total() == breakpoints[b].Total()
    {
    }
  }

  class BreakpointTable {
    var memory: map<nat, byte>
    var breakpoints: map<nat, Breakpoint>
    /** Whether the address space still has a task through which memory can be written. */
    var hasTasks: bool

    /** What the program and the recording have written. */
    ghost var original: map<nat, byte>
    ghost var refs: References
    ghost var suspended: set<nat>
    ghost var lost: set<nat>

    ghost predicate Overlay()
      reads this
    {
      Overlaid(memory, original, breakpoints, suspended, lost)
    }

    ghost predicate Counted()
      reads this
    {
      CountedBy(breakpoints, refs) && (hasTasks ==> AllPositive(breakpoints))
    }

    ghost predicate Valid()
      reads this
    {
      Overlay() && Counted()
    }

    ghost function Kept(): map<nat, byte>
      reads this
    {
      KeptBytes(memory, breakpoints)
    }

    constructor (program: map<nat, byte>)
      ensures Valid() && original == memory == program && refs == multiset{} && hasTasks
      ensures breakpoints == map[] && suspended == lost == {} && Kept() == program
    {
      memory, breakpoints, hasTasks := program, map[], true;
      original, refs, suspended, lost := program, multiset{}, {}, {};
    }

    /** Give back the saved byte and forget the breakpoint; without a task nothing happens. */
    method Destroy(addr: nat)
      requires Overlay() && addr in breakpoints
      modifies `memory, `breakpoints, `suspended, `lost
      ensures Overlay() && Kept() == old(Kept()) && memory.Keys == old(memory).Keys
      ensures suspended == (if hasTasks then old(suspended) - {addr} else old(suspended))
      ensures lost == (if hasTasks then old(lost) - {addr} else old(lost))
      ensures breakpoints == if hasTasks then old(breakpoints) - {addr} else old(breakpoints)
      ensures !hasTasks ==> memory == old(memory)
    {
      hide Overlaid, KeptBytes;
      if !hasTasks {
        return;
      }
      Uncovered(memory, original, breakpoints, suspended, lost, addr);
      memory := memory[addr := breakpoints[addr].overwritten];
      breakpoints := breakpoints - {addr};
      suspended, lost := suspended - {addr}, lost - {addr};
    }

    /** One more reference; fails, changing nothing, where memory cannot be read. */
    method Add(addr: nat, which: BreakpointType) returns (ok: bool)
      requires Valid() && (addr !in breakpoints ==> hasTasks)
      modifies `memory, `breakpoints, `refs
      ensures Valid() && ok == (addr in old(memory)) && memory.Keys == old(memory).Keys
      ensures Kept() == old(Kept())
      ensures refs == if ok then old(refs) + multiset{(addr, which)} else old(refs)
      ensures breakpoints.Keys == if ok then old(breakpoints).Keys + {addr} else old(breakpoints).Keys
    {
      hide CountedBy, Overlaid, KeptBytes, Breakpoint.Ref;
      var b;
      if addr !in breakpoints {
        if addr !in memory {
          return false;
        }
        b := Breakpoint(0, 0, memory[addr]);
        NewByte(memory, original, breakpoints, suspended, lost, addr, b);
        memory := memory[addr := BREAKPOINT_INSN];
      } else {
        b := breakpoints[addr];
        assert breakpoints[addr := b] == breakpoints;
      }
      AddCounted(breakpoints, refs, addr, which, b);
      SameBytes(memory, original, breakpoints[addr := b], suspended, lost, addr, b.Ref(which));
      assert breakpoints[addr := b][addr := b.Ref(which)] == breakpoints[addr := b.Ref(which)];
      breakpoints := breakpoints[addr := b.Ref(which)];
      refs := refs + multiset{(addr, which)};
      return true;
    }

    /**
     * One reference less; the last one takes the breakpoint away. Removes must match adds by
     * type; where there is no breakpoint a remove does nothing.
     */
    method Remove(addr: nat, which: BreakpointType)
      requires Valid() && (addr in breakpoints ==> (addr, which) in refs)
      modifies `memory, `breakpoints, `refs, `suspended, `lost
      ensures Valid() && refs == old(refs) - multiset{(addr, which)} && memory.Keys == old(memory).Keys
      ensures Kept() == old(Kept())
      ensures addr !in old(breakpoints) ==> memory == old(memory) && breakpoints == old(breakpoints)
      ensures suspended == if addr in breakpoints then old(suspended) else old(suspended) - {addr}
      ensures lost == if addr in breakpoints then old(lost) else old(lost) - {addr}
    {
      hide CountedBy, Overlaid, KeptBytes, Breakpoint.Unref;
      if addr !in breakpoints {
        NotHeld(breakpoints, refs, addr, which);
        NotShown(memory, original, breakpoints, suspended, lost, addr);
        return;
      }
      RemoveCounted(breakpoints, refs, addr, which);
      refs := refs - multiset{(addr, which)};
      SameBytes(memory, original, breakpoints, suspended, lost, addr, breakpoints[addr].Unref(which));
      ghost var left := breakpoints - {addr};
      breakpoints := breakpoints[addr := breakpoints[addr].Unref(which)];
      assert breakpoints - {addr} == left;
      if breakpoints[addr].Total() > 0 {
        return;
      }
      Destroy(addr);
    }

    /** One round of `remove_all_breakpoints`: one breakpoint less, or, without a task, no change at all. */
    method RemoveAllRound()
      requires Overlay() && breakpoints != map[]
      modifies `memory, `breakpoints, `suspended, `lost
      ensures Overlay() && Kept() == old(Kept()) && memory.Keys == old(memory).Keys
      ensures hasTasks ==> breakpoints.Keys < old(breakpoints).Keys
      ensures !hasTasks ==> memory == old(memory) && breakpoints == old(breakpoints)
      ensures !hasTasks ==> suspended == old(suspended) && lost == old(lost)
    {
      hide Overlaid, KeptBytes;
      assert breakpoints.Keys != {};
      var addr :| addr in breakpoints.Keys;
      Destroy(addr);
    }

    /**
     * Whatever the counts, nothing is left, and memory is what rr has kept. The source's loop ends
     * exactly if there is a task or nothing to remove: without a task a round changes nothing.
     */
    method RemoveAll()
      requires Valid() && (hasTasks || breakpoints == map[])
      modifies `memory, `breakpoints, `refs, `suspended, `lost
      ensures Valid() && breakpoints == map[] && refs == multiset{} && suspended == lost == {}
      ensures memory == Kept() == old(Kept())
    {
      while breakpoints != map[]
        invariant Overlay() && Kept() == old(Kept()) && (hasTasks || breakpoints == map[])
        decreases breakpoints.Keys
      {
        RemoveAllRound();
      }
      refs := multiset{};
    }

    method Suspend(addr: nat)
      requires Valid()
      modifies `memory, `suspended, `lost
      ensures Valid() && Kept() == old(Kept()) && memory.Keys == old(memory).Keys
      ensures suspended == if addr in breakpoints then old(suspended) + {addr} else old(suspended)
      ensures lost == if addr in breakpoints then old(lost) - {addr} else old(lost)
    {
      hide Overlaid, KeptBytes, CountedBy;
      if addr in breakpoints {
        OtherByte(memory, original, breakpoints, suspended, lost, addr);
        SameBytes(memory, original, breakpoints, suspended, lost, addr, breakpoints[addr]);
        memory := memory[addr := breakpoints[addr].overwritten];
        suspended, lost := suspended + {addr}, lost - {addr};
      } else {
        NotShown(memory, original, breakpoints, suspended, lost, addr);
      }
    }

    method Restore(addr: nat)
      requires Valid()
      modifies `memory, `suspended, `lost
      ensures Valid() && Kept() == old(Kept()) && memory.Keys == old(memory).Keys
      ensures suspended == old(suspended) - {addr} && lost == old(lost) - {addr}
    {
      hide Overlaid, KeptBytes, CountedBy;
      if addr in breakpoints {
        OtherByte(memory, original, breakpoints, suspended, lost, addr);
        SameBytes(memory, original, breakpoints, suspended, lost, addr, breakpoints[addr]);
        memory := memory[addr := BREAKPOINT_INSN];
        suspended, lost := suspended - {addr}, lost - {addr};
      } else {
        NotShown(memory, original, breakpoints, suspended, lost, addr);
      }
    }

    /** The program writes a byte; rr does not notice, and a breakpoint there is lost. */
    method ProgramWrite(addr: nat, value: byte)
      requires Valid() && addr in memory
      modifies `memory, `original, `suspended, `lost
      ensures Valid() && original == Patched(old(original), addr, [value]) && memory.Keys == old(memory).Keys
      ensures Kept() == Learned(old(Kept()), addr, [value], addr in breakpoints)
      ensures suspended == Outside(old(suspended), addr, 1)
      ensures lost == LostAfter(old(lost), addr, 1, addr in breakpoints)
    {
      hide CountedBy, Overlaid, KeptBytes, Noted, SetAgain, HitBy, Patched, Learned, LostAfter, Outside;
      InMemory(memory, original, breakpoints, suspended, lost);
      OverlayAfterWrite(memory, original, breakpoints, suspended, lost, addr, [value]);
      KeptAfterWrite(memory, breakpoints, addr, [value]);
      NothingHit(memory, breakpoints, addr, value);
      suspended, lost := Outside(suspended, addr, 1), LostAfter(lost, addr, 1, addr in breakpoints);
      memory := memory[addr := value];
      original := Patched(original, addr, [value]);
    }

    /**
     * Note the new bytes under the breakpoints in a written range and set the breakpoints again:
     * in all of the range but its last byte.
     */
    method MaybeUpdateBreakpoints(addr: nat, len: nat)
      requires forall b :: b in breakpoints ==> b in memory
      modifies `memory, `breakpoints
      ensures var hit := HitBy(old(breakpoints), addr, len);
              breakpoints == Noted(old(breakpoints), old(memory), hit) && memory == SetAgain(old(memory), hit)
    {
      hide Noted, SetAgain, HitBy;
      ghost var bps, mem, hit := breakpoints, memory, HitBy(breakpoints, addr, len);
      var left := breakpoints.Keys;
      HitStart(bps, mem, addr, len);
      while left != {}
        invariant left <= bps.Keys && hit <= mem.Keys
        invariant breakpoints == Noted(bps, mem, hit - left) && memory == SetAgain(mem, hit - left)
        decreases |left|
      {
        var b: nat :| b in left;
        HitOne(bps, mem, addr, len, left, b);
        if addr <= b < addr + len - 1 {
          breakpoints := breakpoints[b := breakpoints[b].(overwritten := memory[b])];
          memory := memory[b := BREAKPOINT_INSN];
        }
        left := left - {b};
      }
      assert hit - {} == hit;
    }

    /**
     * Recorded data is written over whatever is there, breakpoints included, and rr updates the
     * breakpoints but the one at the last byte: its byte is replaced for good and what it saved is
     * not renewed. All breakpoints show afterwards exactly if those outside the write did and the
     * last byte has none, or happens to be the breakpoint byte.
     */
    method WriteRecorded(addr: nat, data: seq<byte>)
      requires Valid() && forall a :: addr <= a < addr + |data| ==> a in memory
      modifies `memory, `breakpoints, `original, `suspended, `lost
      ensures Valid() && original == Patched(old(original), addr, data) && memory.Keys == old(memory).Keys
      ensures breakpoints.Keys == old(breakpoints).Keys
      ensures Kept() == Learned(old(Kept()), addr, data, addr + |data| - 1 in breakpoints)
      ensures suspended == Outside(old(suspended), addr, |data|)
      ensures lost == LostAfter(old(lost), addr, |data|, addr + |data| - 1 in breakpoints)
      ensures data != [] ==>
                (AllSet(memory, breakpoints.Keys) <==>
                 && AllSet(old(memory), Outside(breakpoints.Keys, addr, |data|))
                 && (addr + |data| - 1 in breakpoints ==> data[|data| - 1] == BREAKPOINT_INSN))
    {
      hide CountedBy, Overlaid, KeptBytes, Noted, SetAgain, HitBy, AllSet, Patched, Learned, LostAfter, Outside;
      if data == [] {
        NothingWritten(original, suspended, lost, addr, addr - 1 in breakpoints);
        NothingWritten(Kept(), suspended, lost, addr, addr - 1 in breakpoints);
        return;
      }
      InMemory(memory, original, breakpoints, suspended, lost);
      OverlayAfterWrite(memory, original, breakpoints, suspended, lost, addr, data);
      KeptAfterWrite(memory, breakpoints, addr, data);
      SetAfterWrite(memory, breakpoints, addr, data);
      SameCounts(breakpoints, Patched(memory, addr, data), HitBy(breakpoints, addr, |data|), refs);
      memory := Patched(memory, addr, data);
      original := Patched(original, addr, data);
      suspended := Outside(suspended, addr, |data|);
      lost := LostAfter(lost, addr, |data|, addr + |data| - 1 in breakpoints);
      MaybeUpdateBreakpoints(addr, |data|);
    }

    /** Patch the original bytes into a window read at `addr`. */
    method ReplaceBreakpointsWithOriginalValues(dest: array<byte>, addr: nat)
      modifies dest
      ensures forall i :: 0 <= i < dest.Length ==>
                dest[i] == if addr + i in breakpoints then breakpoints[addr + i].overwritten else old(dest[i])
    {
      var left := breakpoints.Keys;
      while left != {}
        invariant left <= breakpoints.Keys
        invariant forall i :: 0 <= i < dest.Length ==>
                    dest[i] ==
                    if addr + i in breakpoints.Keys - left then breakpoints[addr + i].overwritten else old(dest[i])
        decreases |left|
      {
        var location: nat :| location in left;
        left := left - {location};
        if Max(addr, location) < Min(addr + dest.Length, location + 1) {
          dest[location - addr] := breakpoints[location].overwritten;
        }
      }
    }

    /** A reader of any window sees what rr has kept. */
    method ReadOriginal(addr: nat, n: nat) returns (window: seq<byte>)
      requires Valid() && forall i :: addr <= i < addr + n ==> i in memory
      ensures |window| == n && forall i :: 0 <= i < n ==> window[i] == Kept()[addr + i]
    {
      var dest := new byte[n](i requires 0 <= i < n reads this => if addr + i in memory then memory[addr + i] else 0);
      ReplaceBreakpointsWithOriginalValues(dest, addr);
      window := dest[..];
    }
  }

  lemma NotShown(memory: map<nat, byte>, original: map<nat, byte>, breakpoints: map<nat, Breakpoint>,
                 suspended: set<nat>, lost: set<nat>, addr: nat)
    requires Overlaid(memory, original, breakpoints, suspended, lost) && addr !in breakpoints
    ensures suspended - {addr} == suspended && lost - {addr} == lost
  {
  }

  lemma InMemory(memory: map<nat, byte>, original: map<nat, byte>, breakpoints: map<nat, Breakpoint>,
                 suspended: set<nat>, lost: set<nat>)
    requires Overlaid(memory, original, breakpoints, suspended, lost)
    ensures breakpoints.Keys <= memory.Keys
  {
  }

  lemma NothingWritten(m: map<nat, byte>, suspended: set<nat>, lost: set<nat>, addr: nat, lastHeld: bool)
    ensures Patched(m, addr, []) == Learned(m, addr, [], lastHeld) == m
    ensures Outside(suspended, addr, 0) == suspended && LostAfter(lost, addr, 0, lastHeld) == lost
  {
  }

  /** After a write of one byte there is nothing to update. */
  lemma NothingHit(memory: map<nat, byte>, breakpoints: map<nat, Breakpoint>, addr: nat, value: byte)
    requires addr in memory
    ensures var mem, hit := Patched(memory, addr, [value]), HitBy(breakpoints, addr, 1);
            && hit == {} && mem == memory[addr := value]
            && SetAgain(mem, {}) == mem && Noted(breakpoints, mem, {}) == breakpoints
  {
  }
}
