/**
 * A flat page table, updated page by page, as the reference for AddressSpace:
 * every sequence of operations leaves the interval map and the table in
 * agreement about every address.
 */
module PageTables {
  import opened Prelude
  import opened MemoryRanges
  import opened MemoryMaps
  import opened MappingLists
  import opened AddressSpaces

  /** For each mapped page number, what is known about the page's first byte. */
  type Table = map<nat, View>

  function Page(a: nat): nat { a / PAGE }

  function Shifted(v: View, delta: nat): View {
    v.(offset := if v.offset.Some? then Some(v.offset.value + delta) else None)
  }

  /** What the table says about the byte at `a`. */
  function At(t: Table, a: nat): Option<View> {
    if Page(a) in t then Some(Shifted(t[Page(a)], a % PAGE)) else None
  }

  ghost predicate Agrees(mem: Memory, t: Table) { forall a: nat :: Look(mem, a) == At(t, a) }

  function DropPages(t: Table, p: nat, end: nat): Table
    decreases end - p
  {
    if p < end then DropPages(t - {p}, p + 1, end) else t
  }

  function SetPages(t: Table, p: nat, end: nat, v: View, first: nat): Table
    requires first <= p
    decreases end - p
  {
    if p < end then SetPages(t[p := Shifted(v, (p - first) * PAGE)], p + 1, end, v, first) else t
  }

  /** `mprotect`: page after page until the first unmapped one. */
  function ProtectPages(t: Table, p: nat, end: nat, prot: nat): Table
    decreases end - p
  {
    if p < end && p in t then ProtectPages(t[p := t[p].(prot := ProtBits(prot))], p + 1, end, prot) else t
  }

  /** rr's own flags on a range of pages. */
  function FlagPages(t: Table, p: nat, end: nat, flags: nat): Table
    decreases end - p
  {
    if p < end && p in t then FlagPages(t[p := t[p].(rrFlags := flags)], p + 1, end, flags) else t
  }

  datatype Op =
    | DoMap(addr: nat, n: nat, prot: nat, flags: set<nat>, offset: nat, fsname: string, device: nat, inode: nat,
            recorded: Option<KernelMapping>)
    | DoUnmap(addr: nat, n: nat)
    | DoRemap(addr: nat, n: nat, newAddr: nat, newN: nat)
    | DoProtect(addr: nat, n: nat, prot: nat)
    | DoFlags(addr: nat, rrFlags: nat)

  /** What the callers of AddressSpace guarantee, given which pages are mapped. */
  predicate Admissible(pages: set<nat>, op: Op) {
    match op
    case DoMap(addr, n, _, _, offset, _, _, _, recorded) =>
      && Aligned(addr) && Aligned(offset)
      && (recorded.Some? ==> recorded.value.Extent() == Range(addr, addr + CeilPage(n)))
    case DoUnmap(_, _) => true
    case DoRemap(addr, _, newAddr, _) => Aligned(addr) && Aligned(newAddr) && Page(addr) in pages
    case DoProtect(_, _, _) => true
    case DoFlags(addr, _) => Page(addr) in pages
  }

  function PageSet(p: nat, end: nat): (r: set<nat>)
    ensures forall q: nat :: q in r <==> p <= q < end
    decreases end - p
  {
    if p < end then {p} + PageSet(p + 1, end) else {}
  }

  /** The pages mapped after an operation. */
  function StepPages(pages: set<nat>, op: Op): set<nat> {
    match op
    case DoMap(addr, n, _, _, _, _, _, _, _) => pages + PageSet(Page(addr), Page(addr + CeilPage(n)))
    case DoUnmap(addr, n) => if n == 0 then pages else pages - PageSet(Page(addr), Page(CeilPage(addr + CeilPage(n))))
    case DoRemap(addr, n, newAddr, newN) =>
      pages - PageSet(Page(addr), Page(addr + CeilPage(n))) + PageSet(Page(newAddr), Page(newAddr + CeilPage(newN)))
    case _ => pages
  }

  predicate AllAdmissible(pages: set<nat>, ops: seq<Op>)
    decreases ops
  {
    ops != [] ==> Admissible(pages, ops[0]) && AllAdmissible(StepPages(pages, ops[0]), ops[1..])
  }

  /** The protection also changes below the region: its first page is mapped and PROT_GROWSDOWN is asked for. */
  predicate Downwards(t: Table, op: Op) {
    op.DoProtect? && GrowsDown(op.prot) && Page(op.addr) in t && Page(op.addr) < Page(CeilPage(op.addr + op.n))
  }

  /**
   * A page table does not show where a mapping starts and ends, and two operations depend on it.
   * `whole` are the pages of the mapping that holds the operation's address: mapped pages around it,
   * with its flags.
   */
  predicate Allowed(t: Table, op: Op, whole: Range) {
    op.DoFlags? || Downwards(t, op) ==>
      && whole.start <= Page(op.addr) < whole.end && Page(op.addr) in t
      && forall p | whole.start <= p < whole.end :: p in t && t[p].rrFlags == t[Page(op.addr)].rrFlags
  }

  function Step(t: Table, op: Op, whole: Range): Table
    requires Admissible(t.Keys, op)
  {
    match op
    case DoMap(addr, n, prot, flags, offset, _, device, inode, _) =>
      SetPages(t, Page(addr), Page(addr + CeilPage(n)), NewView(prot, flags, device, inode, offset, 0), Page(addr))
    case DoUnmap(addr, n) => if n == 0 then t else DropPages(t, Page(addr), Page(CeilPage(addr + CeilPage(n))))
    case DoRemap(addr, n, newAddr, newN) =>
      SetPages(DropPages(t, Page(addr), Page(addr + CeilPage(n))),
               Page(newAddr), Page(newAddr + CeilPage(newN)), t[Page(addr)].(rrFlags := 0), Page(newAddr))
    case DoProtect(addr, n, prot) =>
      ProtectPages(if Downwards(t, op) then ProtectPages(t, whole.start, Page(addr), prot) else t,
                   Page(addr), Page(CeilPage(addr + n)), prot)
    case DoFlags(_, flags) => FlagPages(t, whole.start, whole.end, flags)
  }

  // ---- what the page loops do

  lemma {:induction false} DropPagesAt(t: Table, p: nat, end: nat, q: nat)
    ensures q in DropPages(t, p, end) <==> q in t && !(p <= q < end)
    ensures q in DropPages(t, p, end) ==> DropPages(t, p, end)[q] == t[q]
    decreases end - p
  {
    if p < end {
      DropPagesAt(t - {p}, p + 1, end, q);
    }
  }

  lemma {:induction false} SetPagesAt(t: Table, p: nat, end: nat, v: View, first: nat, q: nat)
    requires first <= p
    ensures var t' := SetPages(t, p, end, v, first);
            if p <= q < end then q in t' && t'[q] == Shifted(v, (q - first) * PAGE)
            else (q in t' <==> q in t) && (q in t ==> t'[q] == t[q])
    decreases end - p
  {
    if p < end {
      SetPagesAt(t[p := Shifted(v, (p - first) * PAGE)], p + 1, end, v, first, q);
    }
  }

  /** The protection changes up to `to`, the end of the mapped run. */
  lemma {:induction false} ProtectPagesAt(t: Table, p: nat, end: nat, prot: nat, to: nat, q: nat)
    requires p <= to && (to <= end || to == p) && (forall r: nat | p <= r < to :: r in t) && (to < end ==> to !in t)
    ensures var t' := ProtectPages(t, p, end, prot);
            && (q in t' <==> q in t)
            && (q in t ==> t'[q] == if p <= q < to then t[q].(prot := ProtBits(prot)) else t[q])
    decreases end - p
  {
    if p < end && p in t {
      ProtectPagesAt(t[p := t[p].(prot := ProtBits(prot))], p + 1, end, prot, to, q);
    }
  }

  lemma {:induction false} FlagPagesAt(t: Table, p: nat, end: nat, flags: nat, q: nat)
    requires forall r: nat | p <= r < end :: r in t
    ensures var t' := FlagPages(t, p, end, flags);
            && (q in t' <==> q in t)
            && (q in t ==> t'[q] == if p <= q < end then t[q].(rrFlags := flags) else t[q])
    decreases end - p
  {
    if p < end {
      FlagPagesAt(t[p := t[p].(rrFlags := flags)], p + 1, end, flags, q);
    }
  }

  lemma {:induction false} ProtectPagesKeys(t: Table, p: nat, end: nat, prot: nat)
    ensures ProtectPages(t, p, end, prot).Keys == t.Keys
    decreases end - p
  {
    if p < end && p in t {
      ProtectPagesKeys(t[p := t[p].(prot := ProtBits(prot))], p + 1, end, prot);
    }
  }

  lemma {:induction false} FlagPagesKeys(t: Table, p: nat, end: nat, flags: nat)
    ensures FlagPages(t, p, end, flags).Keys == t.Keys
    decreases end - p
  {
    if p < end && p in t {
      FlagPagesKeys(t[p := t[p].(rrFlags := flags)], p + 1, end, flags);
    }
  }

  lemma SetPagesKeys(t: Table, p: nat, end: nat, v: View, first: nat)
    requires first <= p
    ensures SetPages(t, p, end, v, first).Keys == t.Keys + PageSet(p, end)
  {
    hide SetPages;
    forall q: nat
      ensures q in SetPages(t, p, end, v, first).Keys <==> q in t.Keys + PageSet(p, end)
    {
      SetPagesAt(t, p, end, v, first, q);
    }
  }

  lemma DropPagesKeys(t: Table, p: nat, end: nat)
    ensures DropPages(t, p, end).Keys == t.Keys - PageSet(p, end)
  {
    hide DropPages;
    forall q: nat
      ensures q in DropPages(t, p, end).Keys <==> q in t.Keys - PageSet(p, end)
    {
      DropPagesAt(t, p, end, q);
    }
  }

  /** Which pages are mapped does not depend on where mappings start and end. */
  lemma StepKeys(t: Table, op: Op, whole: Range)
    requires Admissible(t.Keys, op)
    ensures Step(t, op, whole).Keys == StepPages(t.Keys, op)
  {
    hide SetPages, DropPages, ProtectPages, FlagPages, PageSet, CeilPage, Aligned;
    match op {
      case DoMap(addr, n, prot, flags, offset, _, device, inode, _) =>
        SetPagesKeys(t, Page(addr), Page(addr + CeilPage(n)), NewView(prot, flags, device, inode, offset, 0),
                     Page(addr));
      case DoUnmap(addr, n) =>
        DropPagesKeys(t, Page(addr), Page(CeilPage(addr + CeilPage(n))));
      case DoRemap(addr, n, newAddr, newN) =>
        DropPagesKeys(t, Page(addr), Page(addr + CeilPage(n)));
        SetPagesKeys(DropPages(t, Page(addr), Page(addr + CeilPage(n))), Page(newAddr), Page(newAddr + CeilPage(newN)),
                     t[Page(addr)].(rrFlags := 0), Page(newAddr));
      case DoProtect(addr, n, prot) =>
        ProtectPagesKeys(t, whole.start, Page(addr), prot);
        var t1 := if Downwards(t, op) then ProtectPages(t, whole.start, Page(addr), prot) else t;
        ProtectPagesKeys(t1, Page(addr), Page(CeilPage(addr + n)), prot);
      case DoFlags(_, flags) =>
        FlagPagesKeys(t, whole.start, whole.end, flags);
    }
  }

  lemma PageOrder(x: nat, lo: nat)
    requires Aligned(lo)
    ensures lo <= x <==> Page(lo) <= Page(x)
    ensures x < lo <==> Page(x) < Page(lo)
    ensures Page(lo) * PAGE == lo && Page(x) * PAGE + x % PAGE == x
  {
  }

  lemma FloorPages(x: nat)
    ensures Page(FloorPage(x)) == Page(x)
  {
  }

  // ---- agreement, operation by operation

  lemma MapAgrees(mem: Memory, mem': Memory, t: Table, addr: nat, length: nat, v: View, base: Table)
    requires Agrees(mem, t) && Aligned(addr) && Aligned(length)
    requires forall a: nat | !(addr <= a < addr + length) :: At(base, a) == Look(mem, a)
    requires forall a: nat :: Look(mem', a) ==
               if addr <= a < addr + length then Some(Shifted(v, a - addr)) else Look(mem, a)
    ensures Agrees(mem', SetPages(base, Page(addr), Page(addr + length), v, Page(addr)))
  {
    hide Look, SetPages;
    AlignedRegion(addr, length);
    var t' := SetPages(base, Page(addr), Page(addr + length), v, Page(addr));
    forall a: nat
      ensures Look(mem', a) == At(t', a)
    {
      SetPagesAt(base, Page(addr), Page(addr + length), v, Page(addr), Page(a));
      PageOrder(a, addr);
      PageOrder(a, addr + length);
    }
  }

  lemma UnmapAgrees(mem: Memory, mem': Memory, t: Table, lo: nat, hi: nat)
    requires Agrees(mem, t) && Aligned(lo) && Aligned(hi)
    requires forall a: nat :: Look(mem', a) == if lo <= a < hi then None else Look(mem, a)
    ensures Agrees(mem', DropPages(t, Page(lo), Page(hi)))
  {
    hide Look, DropPages;
    forall a: nat
      ensures Look(mem', a) == At(DropPages(t, Page(lo), Page(hi)), a)
    {
      DropPagesAt(t, Page(lo), Page(hi), Page(a));
      PageOrder(a, lo);
      PageOrder(a, hi);
    }
  }

  /** In a table's terms a mapped run ends at a page boundary. */
  lemma RunIsAligned(mem: Memory, t: Table, lo: nat, hi: nat, to: nat)
    requires Agrees(mem, t) && Aligned(lo) && Aligned(hi) && IsRun(mem, lo, hi, to)
    ensures Aligned(to)
  {
    hide Look;
    if lo < to < hi {
      assert Look(mem, to) == At(t, to) && Look(mem, to - 1) == At(t, to - 1);
    }
  }

  lemma ProtectAgrees(mem: Memory, mem': Memory, t: Table, lo: nat, hi: nat, prot: nat, to: nat)
    requires Agrees(mem, t) && Aligned(lo) && Aligned(hi) && IsRun(mem, lo, hi, to)
    requires forall a: nat :: Look(mem', a) == if lo <= a < to then WithProt(Look(mem, a), prot) else Look(mem, a)
    ensures Agrees(mem', ProtectPages(t, Page(lo), Page(hi), prot))
  {
    hide Look, ProtectPages;
    RunIsAligned(mem, t, lo, hi, to);
    PageOrder(to, lo);
    PageOrder(to, hi);
    forall r: nat | Page(lo) <= r < Page(to)
      ensures r in t
    {
      assert Page(r * PAGE) == r;
      PageOrder(r * PAGE, lo);
      PageOrder(r * PAGE, to);
      assert Look(mem, r * PAGE) == At(t, r * PAGE);
    }
    assert Look(mem, to) == At(t, to);
    forall a: nat
      ensures Look(mem', a) == At(ProtectPages(t, Page(lo), Page(hi), prot), a)
    {
      ProtectPagesAt(t, Page(lo), Page(hi), prot, Page(to), Page(a));
      PageOrder(a, lo);
      PageOrder(a, to);
      assert Look(mem, a) == At(t, a);
    }
  }

  /** Below the region too: the pages from `from` on belong to the first mapping. */
  lemma ProtectAgreesDown(mem: Memory, mem': Memory, t: Table, lo: nat, hi: nat, prot: nat, from: nat, to: nat)
    requires Agrees(mem, t) && Aligned(lo) && Aligned(hi) && Aligned(from) && IsRun(mem, lo, hi, to)
    requires from <= lo && forall a: nat | from <= a < lo :: Look(mem, a).Some?
    requires forall a: nat :: Look(mem', a) == if from <= a < to then WithProt(Look(mem, a), prot) else Look(mem, a)
    ensures Agrees(mem', ProtectPages(ProtectPages(t, Page(from), Page(lo), prot), Page(lo), Page(hi), prot))
  {
    hide Look, ProtectPages;
    RunIsAligned(mem, t, lo, hi, to);
    PageOrder(to, lo);
    PageOrder(to, hi);
    PageOrder(from, lo);
    MappedPages(mem, t, lo, to);
    MappedPages(mem, t, from, lo);
    assert Look(mem, to) == At(t, to);
    var t1 := ProtectPages(t, Page(from), Page(lo), prot);
    ProtectPagesKeys(t, Page(from), Page(lo), prot);
    forall a: nat
      ensures Look(mem', a) == At(ProtectPages(t1, Page(lo), Page(hi), prot), a)
    {
      ProtectPagesAt(t, Page(from), Page(lo), prot, Page(lo), Page(a));
      ProtectPagesAt(t1, Page(lo), Page(hi), prot, Page(to), Page(a));
      PageOrder(a, from);
      PageOrder(a, lo);
      PageOrder(a, to);
      assert Look(mem, a) == At(t, a);
    }
  }

  lemma MappedPages(mem: Memory, t: Table, lo: nat, hi: nat)
    requires Agrees(mem, t) && Aligned(lo) && Aligned(hi) && forall a: nat | lo <= a < hi :: Look(mem, a).Some?
    ensures forall r: nat | Page(lo) <= r < Page(hi) :: r in t
  {
    hide Look;
    forall r: nat | Page(lo) <= r < Page(hi)
      ensures r in t
    {
      assert Page(r * PAGE) == r;
      PageOrder(r * PAGE, lo);
      PageOrder(r * PAGE, hi);
      assert Look(mem, r * PAGE) == At(t, r * PAGE);
    }
  }

  lemma FlagsAgree(mem: Memory, mem': Memory, t: Table, extent: Range, flags: nat)
    requires Agrees(mem, t) && Aligned(extent.start) && Aligned(extent.end)
    requires forall a: nat | extent.Has(a) :: Look(mem, a).Some?
    requires forall a: nat :: Look(mem', a) == if extent.Has(a) then WithFlags(Look(mem, a), flags) else Look(mem, a)
    ensures Agrees(mem', FlagPages(t, Page(extent.start), Page(extent.end), flags))
  {
    hide Look, FlagPages;
    MappedPages(mem, t, extent.start, extent.end);
    forall a: nat
      ensures Look(mem', a) == At(FlagPages(t, Page(extent.start), Page(extent.end), flags), a)
    {
      FlagPagesAt(t, Page(extent.start), Page(extent.end), flags, Page(a));
      PageOrder(a, extent.start);
      PageOrder(a, extent.end);
      assert Look(mem, a) == At(t, a);
    }
  }

  /** The pages of entry `i`, as the table sees them. */
  lemma WholePages(mem: Memory, t: Table, i: nat, addr: nat)
    requires Valid(mem) && Agrees(mem, t) && i < |mem| && mem[i].key.Has(addr)
    ensures var key := mem[i].key;
            && Aligned(key.start) && Aligned(key.end) && (forall a: nat | key.Has(a) :: Look(mem, a).Some?)
            && Page(key.start) <= Page(addr) < Page(key.end)
            && Page(key.start) * PAGE == key.start && Page(key.end) * PAGE == key.end
            && forall p | Page(key.start) <= p < Page(key.end) :: p in t && t[p].rrFlags == mem[i].value.flags
  {
    hide Look, Valid, MappingOk;
    var key := mem[i].key;
    EntryOk(mem, i);
    RunLooks(mem, i, key.start, key.end);
    PageOrder(addr, key.start);
    PageOrder(addr, key.end);
    MappedPages(mem, t, key.start, key.end);
    forall p: nat | Page(key.start) <= p < Page(key.end)
      ensures t[p].rrFlags == mem[i].value.flags
    {
      assert Page(p * PAGE) == p;
      PageOrder(p * PAGE, key.start);
      PageOrder(p * PAGE, key.end);
      LookHit(mem, i, p * PAGE);
      assert Look(mem, p * PAGE) == At(t, p * PAGE);
    }
  }

  /** The pages of the mapping that holds an address. */
  ghost predicate IsWhole(mem: Memory, addr: nat, whole: Range) {
    exists i | 0 <= i < |mem| :: mem[i].key.Has(addr) && mem[i].key == Range(whole.start * PAGE, whole.end * PAGE)
  }

  /** What an operation makes of the list of mappings. */
  ghost predicate ListStep(mem: Memory, op: Op, sameName: (string, string) -> bool, mem': Memory)
    requires AllKeyed(mem) && (op.DoRemap? ==> Aligned(op.addr) && Aligned(op.newAddr))
  {
    match op
    case DoMap(addr, n, prot, flags, offset, fsname, device, inode, recorded) =>
      var km := KernelMapping(addr, addr + CeilPage(n), fsname, device, inode, prot, flags * TRACKED_FLAGS, offset);
      mem' == if n == 0 then mem
              else Placed(Outside(mem, addr, addr + CeilPage(n)),
                          Mapping(km, if recorded.Some? then recorded.value else km, 0), sameName)
    case DoUnmap(addr, n) =>
      mem' == if n == 0 then mem else Outside(mem, FloorPage(addr), CeilPage(addr + CeilPage(n)))
    case DoRemap(addr, n, newAddr, newN) => mem' == Moved(mem, addr, n, newAddr, newN, sameName)
    case DoProtect(addr, n, prot) =>
      exists from, to: nat ::
        && IsRun(mem, FloorPage(addr), CeilPage(addr + n), to)
        && IsRunStart(mem, FloorPage(addr), to, prot, from)
        && IsProtected(mem, from, to, prot, sameName, mem')
    case DoFlags(addr, flags) => mem' == Flagged(mem, addr, flags)
  }

  /** Carry out one operation; the table is what it should now be. */
  method Perform(space: AddressSpace, ghost t: Table, op: Op) returns (ghost whole: Range)
    requires Valid(space.mem) && Agrees(space.mem, t) && Admissible(t.Keys, op)
    modifies space
    ensures Valid(space.mem) && Allowed(t, op, whole) && Agrees(space.mem, Step(t, op, whole))
    ensures op.DoFlags? || Downwards(t, op) ==> IsWhole(old(space.mem), op.addr, whole)
    ensures AllKeyed(old(space.mem)) && ListStep(old(space.mem), op, space.sameName, space.mem)
  {
    hide Look, Valid, SetPages, DropPages, ProtectPages, FlagPages, IsRunStart, IsRun, FloorPage, CeilPage, AllKeyed,
      Outside, Placed, Moved, IsProtected, Flagged;
    ghost var mem := space.mem;
    ValidKeyed(mem);
    whole := Range(0, 0);
    match op {
      case DoMap(addr, n, prot, flags, offset, fsname, device, inode, recorded) =>
        var _ := space.Map(addr, n, prot, flags, offset, fsname, device, inode, recorded);
        MapAgrees(mem, space.mem, t, addr, CeilPage(n), NewView(prot, flags, device, inode, offset, 0), t);
      case DoUnmap(addr, n) =>
        space.Unmap(addr, n);
        FloorPages(addr);
        if 0 < n {
          UnmapAgrees(mem, space.mem, t, FloorPage(addr), CeilPage(addr + CeilPage(n)));
        }
      case DoRemap(addr, n, newAddr, newN) =>
        LookCovered(mem, addr);
        assert Look(mem, addr) == At(t, addr);
        space.Remap(addr, n, newAddr, newN);
        RemapAgrees(mem, space.mem, t, addr, CeilPage(n), newAddr, CeilPage(newN));
      case DoProtect(addr, n, prot) =>
        whole := PerformProtect(space, t, addr, n, prot);
      case DoFlags(addr, flags) =>
        whole := PerformFlags(space, t, addr, flags);
    }
  }

  method PerformFlags(space: AddressSpace, ghost t: Table, addr: nat, flags: nat) returns (ghost whole: Range)
    requires Valid(space.mem) && Agrees(space.mem, t) && Page(addr) in t
    modifies space
    ensures Valid(space.mem) && Allowed(t, DoFlags(addr, flags), whole)
    ensures Agrees(space.mem, FlagPages(t, whole.start, whole.end, flags))
    ensures IsWhole(old(space.mem), addr, whole) && space.mem == Flagged(old(space.mem), addr, flags)
  {
    hide Look, Valid, FlagPages, Flagged;
    ghost var mem := space.mem;
    LookCovered(mem, addr);
    assert Look(mem, addr) == At(t, addr);
    ghost var extent := space.SetMappingFlags(addr, flags);
    ghost var i :| 0 <= i < |mem| && mem[i].key == extent;
    WholePages(mem, t, i, addr);
    FlagsAgree(mem, space.mem, t, extent, flags);
    whole := Range(Page(extent.start), Page(extent.end));
  }

  method PerformProtect(space: AddressSpace, ghost t: Table, addr: nat, n: nat, prot: nat) returns (ghost whole: Range)
    requires Valid(space.mem) && Agrees(space.mem, t)
    modifies space
    ensures var op := DoProtect(addr, n, prot);
            && Valid(space.mem) && Allowed(t, op, whole) && Agrees(space.mem, Step(t, op, whole))
            && (Downwards(t, op) ==> IsWhole(old(space.mem), addr, whole))
            && AllKeyed(old(space.mem)) && ListStep(old(space.mem), op, space.sameName, space.mem)
  {
    hide Look, Valid, ProtectPages, IsRun, FloorPage, CeilPage, AllKeyed, IsProtected;
    ghost var mem := space.mem;
    ghost var lo, hi := FloorPage(addr), CeilPage(addr + n);
    FloorPages(addr);
    ghost var from, to := space.Protect(addr, n, prot);
    RunStarts(mem, t, lo, hi, to);
    whole := Range(0, 0);
    if Downwards(t, DoProtect(addr, n, prot)) {
      ghost var i :| 0 <= i < |mem| && mem[i].key.Has(lo) && mem[i].key.start == from;
      WholePages(mem, t, i, lo);
      InPage(mem[i].key, addr);
      whole := Range(Page(mem[i].key.start), Page(mem[i].key.end));
      ProtectAgreesDown(mem, space.mem, t, lo, hi, prot, from, to);
    } else {
      ProtectAgrees(mem, space.mem, t, lo, hi, prot, to);
    }
  }

  /** The run is empty exactly if the region is or its first page is unmapped. */
  lemma RunStarts(mem: Memory, t: Table, lo: nat, hi: nat, to: nat)
    requires Agrees(mem, t) && Aligned(lo) && Aligned(hi) && IsRun(mem, lo, hi, to)
    ensures lo < to <==> Page(lo) < Page(hi) && Page(lo) in t
  {
    hide Look;
    PageOrder(lo, hi);
    assert Look(mem, lo) == At(t, lo);
  }

  lemma InPage(key: Range, addr: nat)
    requires Aligned(key.start) && Aligned(key.end) && key.Has(FloorPage(addr))
    ensures key.Has(addr)
  {
  }

  lemma RemapAgrees(mem: Memory, mem': Memory, t: Table, addr: nat, length: nat, newAddr: nat, newLength: nat)
    requires Agrees(mem, t) && Aligned(addr) && Aligned(length) && Aligned(newAddr) && Aligned(newLength)
    requires Page(addr) in t
    requires forall x: nat :: Look(mem', x) ==
               if newAddr <= x < newAddr + newLength then Some(MovedView(At(t, addr).value, x - newAddr))
               else if addr <= x < addr + length then None
               else Look(mem, x)
    ensures Agrees(mem', SetPages(DropPages(t, Page(addr), Page(addr + length)),
                                  Page(newAddr), Page(newAddr + newLength), t[Page(addr)].(rrFlags := 0),
                                  Page(newAddr)))
  {
    hide Look, SetPages, DropPages;
    AlignedRegion(addr, length);
    AlignedRegion(newAddr, newLength);
    var base := DropPages(t, Page(addr), Page(addr + length));
    var v := t[Page(addr)].(rrFlags := 0);
    var t' := SetPages(base, Page(newAddr), Page(newAddr + newLength), v, Page(newAddr));
    forall a: nat
      ensures Look(mem', a) == At(t', a)
    {
      SetPagesAt(base, Page(newAddr), Page(newAddr + newLength), v, Page(newAddr), Page(a));
      DropPagesAt(t, Page(addr), Page(addr + length), Page(a));
      PageOrder(a, addr);
      PageOrder(a, addr + length);
      PageOrder(a, newAddr);
      PageOrder(a, newAddr + newLength);
      assert Look(mem, a) == At(t, a);
    }
  }

  /**
   * The tables a run of operations leads to while the map goes through `mems`: each map is what the
   * operation makes of the one before, each table agrees with its map, and an operation that depends
   * on a mapping's extent uses the one the map has.
   */
  ghost predicate Leads(mems: seq<Memory>, t: Table, ops: seq<Op>, wholes: seq<Range>, t': Table,
                        sameName: (string, string) -> bool)
    decreases ops
  {
    && |mems| == |ops| + 1 && |wholes| == |ops| && Valid(mems[0]) && Agrees(mems[0], t)
    && if ops == [] then t' == t
       else
         && Admissible(t.Keys, ops[0]) && Allowed(t, ops[0], wholes[0])
         && (ops[0].DoFlags? || Downwards(t, ops[0]) ==> IsWhole(mems[0], ops[0].addr, wholes[0]))
         && AllKeyed(mems[0]) && ListStep(mems[0], ops[0], sameName, mems[1])
         && Leads(mems[1..], Step(t, ops[0], wholes[0]), ops[1..], wholes[1..], t', sameName)
  }

  /**
   * Every sequence of operations keeps the map well-formed and in agreement with the flat table,
   * throughout; `wholes` are the extents of the mappings that the two dependent operations met.
   */
  method Execute(space: AddressSpace, ghost t: Table, ops: seq<Op>)
    returns (ghost mems: seq<Memory>, ghost wholes: seq<Range>, ghost t': Table)
    requires Valid(space.mem) && Agrees(space.mem, t) && AllAdmissible(t.Keys, ops)
    modifies space
    ensures Valid(space.mem) && Agrees(space.mem, t') && Leads(mems, t, ops, wholes, t', space.sameName)
    ensures mems[0] == old(space.mem) && mems[|ops|] == space.mem
    decreases ops
  {
    hide Valid, Agrees, Step, StepPages, Allowed, IsWhole, ListStep, AllKeyed;
    ghost var mem := space.mem;
    if ops == [] {
      mems, wholes, t' := [mem], [], t;
    } else {
      ghost var whole := Perform(space, t, ops[0]);
      StepKeys(t, ops[0], whole);
      mems, wholes, t' := Execute(space, Step(t, ops[0], whole), ops[1..]);
      assert ([mem] + mems)[1..] == mems && ([whole] + wholes)[1..] == wholes;
      mems, wholes := [mem] + mems, [whole] + wholes;
    }
  }
}
