/** The monkeypatcher's own state: jump pages, the map of stubs, and the lookup in it. */
module Monkeypatching {
  import opened Prelude
  import opened MemoryRanges
  import opened ExtendedJumps

  /** The stub map: a later stub at the same address replaces the earlier one. */
  function StubsOf(jumps: seq<Jump>): map<nat, nat> {
    if jumps == [] then map[]
    else StubsOf(jumps[..|jumps| - 1])[jumps[|jumps| - 1].addr := jumps[|jumps| - 1].size]
  }

  lemma StubsSnoc(jumps: seq<Jump>, j: Jump)
    ensures StubsOf(jumps + [j]) == StubsOf(jumps)[j.addr := j.size]
  {
    assert (jumps + [j])[..|jumps|] == jumps;
  }

  predicate IsJump(jumps: seq<Jump>, k: nat, addr: nat, size: nat) {
    k < |jumps| && jumps[k].addr == addr && jumps[k].size == size
  }

  /** Every jump's address is in the map, and every stub is some jump. */
  lemma {:induction false} StubsAreJumps(jumps: seq<Jump>)
    ensures forall k :: 0 <= k < |jumps| ==> jumps[k].addr in StubsOf(jumps)
    ensures forall a :: a in StubsOf(jumps) ==> exists k: nat :: IsJump(jumps, k, a, StubsOf(jumps)[a])
  {
    if jumps != [] {
      var last, front := jumps[|jumps| - 1], jumps[..|jumps| - 1];
      StubsAreJumps(front);
      assert IsJump(jumps, |jumps| - 1, last.addr, last.size);
      forall a | a in StubsOf(jumps)
        ensures exists k: nat :: IsJump(jumps, k, a, StubsOf(jumps)[a])
      {
        if a != last.addr {
          var k: nat :| IsJump(front, k, a, StubsOf(front)[a]);
          assert IsJump(jumps, k, a, StubsOf(jumps)[a]);
        }
      }
      forall k | 0 <= k < |jumps|
        ensures jumps[k].addr in StubsOf(jumps)
      {
        assert k < |front| ==> jumps[k] == front[k];
      }
    }
  }

  // ---- the lookup

  /** The nearest stub at or below `a`. */
  predicate Nearest(stubs: map<nat, nat>, a: nat, n: nat) {
    n in stubs && n <= a && forall s :: s in stubs && s <= a ==> s <= n
  }

  /** What the source decides: the nearest stub holds the address. */
  ghost predicate Decides(stubs: map<nat, nat>, a: nat) { exists n :: Nearest(stubs, a, n) && a < n + stubs[n] }

  predicate Held(jumps: seq<Jump>, a: nat) { exists k :: 0 <= k < |jumps| && jumps[k].Has(a) }

  lemma NearestExists(stubs: map<nat, nat>, a: nat, s: nat) returns (n: nat)
    requires s in stubs && s <= a
    ensures Nearest(stubs, a, n) && s <= n
    decreases a - s
  {
    if t :| t in stubs && s < t <= a {
      n := NearestExists(stubs, a, t);
    } else {
      n := s;
    }
  }

  /** Whatever has happened to the pages, an address the lookup accepts belongs to a jump. */
  lemma LookupSound(jumps: seq<Jump>, a: nat)
    requires Decides(StubsOf(jumps), a)
    ensures Held(jumps, a)
  {
    hide StubsOf;
    var stubs := StubsOf(jumps);
    StubsAreJumps(jumps);
    var n :| Nearest(stubs, a, n) && a < n + stubs[n];
    var k: nat :| IsJump(jumps, k, n, stubs[n]);
    assert jumps[k].Has(a);
  }

  predicate Follows(stubs: map<nat, nat>, s: nat)
    requires s in stubs
  {
    exists t :: t in stubs && s < t <= s + stubs[s]
  }

  /** A stub that starts inside a jump reaches the jump's end, or the next stub takes over where it ends. */
  predicate NoTail(stubs: map<nat, nat>, j: Jump) {
    forall s :: s in stubs && j.Has(s) ==> j.addr + j.size <= s + stubs[s] || Follows(stubs, s)
  }

  predicate NoTails(stubs: map<nat, nat>, jumps: seq<Jump>) {
    forall k :: 0 <= k < |jumps| ==> NoTail(stubs, jumps[k])
  }

  lemma HeldIsDecided(jumps: seq<Jump>, a: nat)
    requires NoTails(StubsOf(jumps), jumps) && Held(jumps, a)
    ensures Decides(StubsOf(jumps), a)
  {
    hide StubsOf;
    var stubs := StubsOf(jumps);
    StubsAreJumps(jumps);
    var k :| 0 <= k < |jumps| && jumps[k].Has(a);
    var n := NearestExists(stubs, a, jumps[k].addr);
    assert NoTail(stubs, jumps[k]) && jumps[k].Has(n);
  }

  lemma TailIsMissed(jumps: seq<Jump>, k: nat, s: nat)
    requires k < |jumps| && s in StubsOf(jumps) && jumps[k].Has(s)
    requires s + StubsOf(jumps)[s] < jumps[k].addr + jumps[k].size && !Follows(StubsOf(jumps), s)
    ensures var a := s + StubsOf(jumps)[s]; Held(jumps, a) && !Decides(StubsOf(jumps), a)
  {
    hide StubsOf;
    var stubs := StubsOf(jumps);
    var a := s + stubs[s];
    assert jumps[k].Has(a);
    forall n | Nearest(stubs, a, n)
      ensures !(a < n + stubs[n])
    {
      assert s <= n;
    }
  }

  /** The lookup is right about every address exactly when no jump has a tail its stubs do not reach. */
  lemma LookupExactly(jumps: seq<Jump>)
    ensures (forall a :: Decides(StubsOf(jumps), a) <==> Held(jumps, a)) <==> NoTails(StubsOf(jumps), jumps)
  {
    hide StubsOf, Decides, Held;
    var stubs := StubsOf(jumps);
    if NoTails(stubs, jumps) {
      forall a
        ensures Decides(stubs, a) <==> Held(jumps, a)
      {
        if Decides(stubs, a) {
          LookupSound(jumps, a);
        }
        if Held(jumps, a) {
          HeldIsDecided(jumps, a);
        }
      }
    } else {
      var k :| 0 <= k < |jumps| && !NoTail(stubs, jumps[k]);
      var s :| s in stubs && jumps[k].Has(s) && !(jumps[k].addr + jumps[k].size <= s + stubs[s] || Follows(stubs, s));
      TailIsMissed(jumps, k, s);
    }
  }

  /** Disjoint jumps have no such tail. */
  lemma DisjointHasNoTail(jumps: seq<Jump>)
    requires Disjoint(jumps) && forall k :: 0 <= k < |jumps| ==> jumps[k].size > 0
    ensures NoTails(StubsOf(jumps), jumps)
  {
    hide StubsOf;
    var stubs := StubsOf(jumps);
    StubsAreJumps(jumps);
    forall k, s | 0 <= k < |jumps| && s in stubs && jumps[k].Has(s)
      ensures jumps[k].addr + jumps[k].size <= s + stubs[s]
    {
      var l: nat :| IsJump(jumps, l, s, stubs[s]);
      assert jumps[l].Has(s);
      assert l == k;
    }
  }

  /** Nor do jumps of one size, disjoint or not; and an architecture has one stub size. */
  lemma OneSizeHasNoTail(jumps: seq<Jump>, size: nat)
    requires forall k :: 0 <= k < |jumps| ==> jumps[k].size == size
    ensures NoTails(StubsOf(jumps), jumps)
  {
    hide StubsOf;
    var stubs := StubsOf(jumps);
    StubsAreJumps(jumps);
    forall k, s | 0 <= k < |jumps| && s in stubs && jumps[k].Has(s)
      ensures jumps[k].addr + jumps[k].size <= s + stubs[s]
    {
      var l: nat :| IsJump(jumps, l, s, stubs[s]);
    }
  }

  // ---- the state

  class Monkeypatcher {
    var pages: seq<JumpPage>
    var stubs: map<nat, nat>
    /** The mappings of the tracee's address space. */
    var maps: seq<Range>

    /** Every jump ever handed out. */
    ghost var jumps: seq<Jump>

    ghost predicate Valid()
      reads this
    {
      Ordered(maps) && Sound(jumps, pages) && stubs == StubsOf(jumps)
    }

    ghost function State(): Space
      reads this
    {
      Space(pages, maps)
    }

    constructor (maps: seq<Range>)
      requires Ordered(maps)
      ensures Valid() && this.maps == maps && pages == [] && jumps == []
    {
      this.maps, pages, stubs, jumps := maps, [], map[], [];
    }

    /** The tracee maps and unmaps whatever it likes. */
    method SetMaps(maps': seq<Range>)
      requires Valid() && Ordered(maps')
      modifies `maps
      ensures Valid() && maps == maps'
    {
      maps := maps';
    }

    /** The first page with room, in reach of the patch site. */
    method FindPage(from: nat, size: nat) returns (i: nat)
      ensures i == FitFrom(pages, from, size, 0)
    {
      i := 0;
      while i < |pages| && !Fits(pages[i], from, size)
        invariant i <= |pages| && FitFrom(pages, from, size, 0) == FitFrom(pages, from, size, i)
      {
        i := i + 1;
      }
    }

    method MappingOf(a: nat) returns (k: nat)
      requires Mapped(maps, a)
      ensures k == IndexFrom(maps, a, 0) && k < |maps|
    {
      k := 0;
      while k < |maps| && !maps[k].Has(a)
        invariant k <= |maps| && IndexFrom(maps, a, 0) == IndexFrom(maps, a, k)
      {
        k := k + 1;
      }
    }

    /** Map a page in the first three-page gap behind the patch site's mapping, if that is in reach. */
    method AddPage(from: nat) returns (ok: bool)
      requires Ordered(maps) && Mapped(maps, from)
      modifies `pages, `maps
      ensures Ordered(maps) && ok == InReach(NewPageAddr(old(maps), from), from)
      ensures !ok ==> pages == old(pages) && maps == old(maps)
      ensures ok ==> var addr := NewPageAddr(old(maps), from);
                && pages == old(pages) + [JumpPage(addr, 0)]
                && maps == Inserted(old(maps), GapFor(old(maps), from) + 1, NewPage(addr))
    {
      hide Ordered, Mapped, FirstGap, Inserted;
      NewPageOrdered(maps, from);
      var k := MappingOf(from);
      var free, at := FindFreeMemory(maps, 3 * PAGE, k);
      var addr := free + PAGE;
      if !InReach(addr, from) {
        return false;
      }
      maps := Inserted(maps, at + 1, NewPage(addr));
      pages := pages + [JumpPage(addr, 0)];
      return true;
    }

    /**
     * Hand out room for a jump of `size` bytes in reach of `from`. Pages and mappings change as
     * the reference says; only a request that needs a new page looks at the patch site's mapping.
     */
    method AllocateExtendedJump(from: nat, size: nat) returns (r: Option<nat>)
      requires Ordered(maps) && Sound(jumps, pages) && 0 < size <= PAGE
      requires FitFrom(pages, from, size, 0) == |pages| ==> Mapped(maps, from)
      modifies `pages, `maps, `jumps
      ensures Ordered(maps) && Sound(jumps, pages) && State() == Allocated(old(State()), from, size)
      ensures r.None? <==> FitFrom(old(pages), from, size, 0) == |old(pages)| && !NeedsPage(old(State()), from, size)
      ensures r.None? ==> jumps == old(jumps) && State() == old(State())
      ensures r.Some? ==> jumps == old(jumps) + [Jump(r.value, size, from, FitFrom(old(pages), from, size, 0))]
    {
      hide Mapped, Ordered, Sound, FitFrom, Inserted;
      var i := FindPage(from, size);
      ghost var page := i;
      if i == |pages| {
        NewPageIsGuarded(maps, from);
        OpenedAtEnd(jumps, pages, Jump(NewPageAddr(maps, from), size, from, i));
        var ok := AddPage(from);
        if !ok {
          return None;
        }
      } else {
        BumpSound(jumps, pages, i, Jump(pages[i].addr + pages[i].used, size, from, i));
      }
      var addr := pages[i].addr + pages[i].used;
      pages := pages[i := pages[i].(used := pages[i].used + size)];
      jumps := jumps + [Jump(addr, size, from, page)];
      return Some(addr);
    }

    /** Patch a call site: allocate the jump and list its stub. */
    method PatchSyscall(from: nat, size: nat) returns (ok: bool)
      requires Valid() && 0 < size <= PAGE
      requires FitFrom(pages, from, size, 0) == |pages| ==> Mapped(maps, from)
      modifies this
      ensures Valid() && State() == Allocated(old(State()), from, size)
      ensures old(jumps) <= jumps && |jumps| == |old(jumps)| + (if ok then 1 else 0)
      ensures ok ==> jumps[|old(jumps)|].size == size && jumps[|old(jumps)|].from == from
    {
      hide Mapped, Ordered, Sound, FitFrom, Allocated, StubsOf;
      ghost var before := jumps;
      var addr := AllocateExtendedJump(from, size);
      if addr.None? {
        return false;
      }
      StubsSnoc(before, jumps[|before|]);
      stubs := stubs[addr.value := size];
      return true;
    }

    /** Only the nearest stub at or below the address is looked at. */
    method IsJumpStubInstruction(a: nat) returns (r: bool)
      requires Valid()
      ensures r <==> Decides(stubs, a)
      ensures r ==> Held(jumps, a)
      ensures NoTails(stubs, jumps) ==> (r <==> Held(jumps, a))
    {
      hide Ordered, Sound, StubsOf, Held, NoTails;
      var below: set<nat> := set s | s in stubs && s <= a;
      var it: Option<nat> := None;
      while below != {}
        invariant forall s :: s in below ==> s in stubs && s <= a
        invariant it.Some? ==> it.value in stubs && it.value <= a
        invariant forall s :: s in stubs && s <= a && s !in below ==> it.Some? && s <= it.value
        decreases |below|
      {
        var s: nat :| s in below;
        below := below - {s};
        if it.None? || it.value < s {
          it := Some(s);
        }
      }
      if it.Some? {
        assert Nearest(stubs, a, it.value);
      }
      r := it.Some? && a < it.value + stubs[it.value];
      if r {
        LookupSound(jumps, a);
      }
      if NoTails(stubs, jumps) && Held(jumps, a) {
        HeldIsDecided(jumps, a);
      }
    }
  }

  lemma OpenedAtEnd(jumps: seq<Jump>, pages: seq<JumpPage>, j: Jump)
    requires Sound(jumps, pages) && 0 < j.size <= PAGE && j.page == |pages| && Aligned(j.addr)
    ensures InReach(j.addr, j.from) ==> Sound(jumps + [j], pages + [JumpPage(j.addr, j.size)])
    ensures var p := pages + [JumpPage(j.addr, 0)];
            p[|pages| := JumpPage(j.addr, j.size)] == pages + [JumpPage(j.addr, j.size)]
  {
    if InReach(j.addr, j.from) {
      OpenSound(jumps, pages, j);
    }
  }

  /**
   * Every run, whatever the tracee maps and unmaps: jumps lie on their pages and in reach, and all
   * of them are disjoint if and only if no patch that needed a page found the place of a listed one.
   * Patching a site that is not mapped when a page is needed is a failed assertion.
   */
  method Execute(m: Monkeypatcher, ops: seq<Op>)
    requires m.Valid() && Sensible(ops)
    modifies m
    ensures m.Valid() && old(m.jumps) <= m.jumps && m.State() == Run(old(m.State()), ops)
    ensures Disjoint(m.jumps) <==> Distinct(old(m.pages)) && RunClear(old(m.State()), ops)
    ensures PagesMapped(old(m.State())) && KeepsPages(old(m.State()), ops) && Distinct(old(m.pages)) ==>
              Disjoint(m.jumps)
  {
    hide Mapped, Ordered, Sound, FitFrom, Step, StubsOf, Distinct, Disjoint, RunClear, KeepsPages, PagesMapped;
    ghost var start := m.State();
    assert ops[..0] == [];
    for i := 0 to |ops|
      invariant m.Valid() && old(m.jumps) <= m.jumps && m.State() == Run(start, ops[..i])
    {
      assert ops[..i + 1] == ops[..i] + [ops[i]];
      RunConcat(start, ops[..i], [ops[i]]);
      RunOne(m.State(), ops[i]);
      Perform(m, ops[i]);
    }
    assert ops[..|ops|] == ops;
    DisjointExactly(m.jumps, m.pages);
    RunDistinct(start, ops);
    if PagesMapped(start) && KeepsPages(start, ops) {
      KeptIsClear(start, ops);
    }
  }

  method Perform(m: Monkeypatcher, op: Op)
    requires m.Valid() && (op.Patch? ==> 0 < op.size <= PAGE) && (op.TraceeMaps? ==> Ordered(op.maps))
    modifies m
    ensures m.Valid() && old(m.jumps) <= m.jumps && m.State() == Step(old(m.State()), op)
  {
    hide Ordered, Sound, StubsOf;
    match op {
      case Patch(from, size) =>
        var i := m.FindPage(from, size);
        if i < |m.pages| || Mapped(m.maps, from) {
          var _ := m.PatchSyscall(from, size);
        }
      case TraceeMaps(maps) =>
        m.SetMaps(maps);
    }
  }

  /** A run that hands out one address twice, for every stub size. */
  method HandsOutTwice(size: nat) returns (m: Monkeypatcher)
    requires 0 < size <= PAGE
    ensures fresh(m) && m.Valid() && !Disjoint(m.jumps)
  {
    hide Ordered, Sound, StubsOf, Distinct, Disjoint, RunClear, Run, Reuse;
    PageListedTwice(size);
    m := new Monkeypatcher([CODE]);
    Execute(m, Reuse(size));
  }
}
