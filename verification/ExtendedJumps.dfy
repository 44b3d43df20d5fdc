/**
 * Extended jumps: stubs on pages near the code they are reached from, and the lookup that tells
 * whether an instruction belongs to one. The tracee may map and unmap anything in between, the
 * stub pages included, which the allocator does not notice.
 */
module ExtendedJumps {
  import opened Prelude
  import opened MemoryRanges

  datatype JumpPage = JumpPage(addr: nat, used: nat)

  /** A jump that has been handed out: where it is, how long, for which patch site, and on which page. */
  datatype Jump = Jump(addr: nat, size: nat, from: nat, page: nat) {
    predicate Has(a: nat) { addr <= a < addr + size }
  }

  /** The mappings of an address space, in order. */
  predicate Ordered(maps: seq<Range>) {
    && (forall i :: 0 <= i < |maps| ==> maps[i].start < maps[i].end && Aligned(maps[i].start) && Aligned(maps[i].end))
    && (forall i, j :: 0 <= i < j < |maps| ==> maps[i].end <= maps[j].start)
  }

  predicate Mapped(maps: seq<Range>, a: nat) { exists i :: 0 <= i < |maps| && maps[i].Has(a) }

  /** The conversion to `int32_t`. */
  function AsInt32(x: int): int {
    var u := x % 0x1_0000_0000;
    if u < 0x8000_0000 then u else u - 0x1_0000_0000
  }

  /** The source's test: the difference survives the conversion, and so fits a signed 32-bit displacement. */
  predicate InReach(to: int, from: int): (r: bool)
    ensures r <==> -0x8000_0000 <= to - from < 0x8000_0000
  {
    AsInt32(to - from) == to - from
  }

  // ---- finding free memory

  predicate Free(maps: seq<Range>, r: Range) {
    forall i :: 0 <= i < |maps| ==> maps[i].end <= r.start || r.end <= maps[i].start
  }

  /** The mapping behind which the first gap of the required size lies, from mapping `k` on. */
  function FirstGap(maps: seq<Range>, required: nat, k: nat): (at: nat)
    requires k < |maps|
    ensures k <= at < |maps|
    decreases |maps| - k
  {
    if k + 1 < |maps| && maps[k + 1].start < maps[k].end + required then FirstGap(maps, required, k + 1) else k
  }

  lemma {:induction false} GapIsFree(maps: seq<Range>, required: nat, k: nat)
    requires Ordered(maps) && k < |maps|
    ensures var at := FirstGap(maps, required, k);
            && Free(maps, Range(maps[at].end, maps[at].end + required))
            && (at + 1 < |maps| ==> maps[at].end + required <= maps[at + 1].start)
    decreases |maps| - k
  {
    if k + 1 < |maps| && maps[k + 1].start < maps[k].end + required {
      GapIsFree(maps, required, k + 1);
    } else {
      forall i | 0 <= i < |maps|
        ensures maps[i].end <= maps[k].end || maps[k].end + required <= maps[i].start
      {
        if i > k {
          assert maps[k + 1].start <= maps[i].start;
        }
      }
    }
  }

  /** The loop of the source finds that gap, and it is free of all mappings. */
  method FindFreeMemory(maps: seq<Range>, required: nat, k: nat) returns (free: nat, at: nat)
    requires Ordered(maps) && k < |maps|
    ensures at == FirstGap(maps, required, k) && free == maps[at].end && Free(maps, Range(free, free + required))
    ensures forall i :: k <= i < at ==> maps[i + 1].start < maps[i].end + required
  {
    hide Ordered, Free;
    var current: nat := k;
    while current + 1 < |maps| && maps[current + 1].start < maps[current].end + required
      invariant k <= current < |maps| && FirstGap(maps, required, k) == FirstGap(maps, required, current)
      invariant forall i :: k <= i < current ==> maps[i + 1].start < maps[i].end + required
    {
      current := current + 1;
    }
    free, at := maps[current].end, current;
    GapIsFree(maps, required, k);
  }

  /** The first mapping from `k` on that holds `a`, or the number of mappings. */
  function IndexFrom(maps: seq<Range>, a: nat, k: nat): (i: nat)
    requires k <= |maps|
    ensures k <= i <= |maps| && (i < |maps| ==> maps[i].Has(a)) && forall n :: k <= n < i ==> !maps[n].Has(a)
    decreases |maps| - k
  {
    if k == |maps| || maps[k].Has(a) then k else IndexFrom(maps, a, k + 1)
  }

  // ---- what the allocator does to pages and mappings

  datatype Space = Space(pages: seq<JumpPage>, maps: seq<Range>)

  predicate Fits(p: JumpPage, from: nat, size: nat) {
    InReach(p.addr + p.used, from) && p.used + size <= PAGE
  }

  /** The first page from `k` on with room, in reach, or the number of pages. */
  function FitFrom(pages: seq<JumpPage>, from: nat, size: nat, k: nat): (i: nat)
    requires k <= |pages|
    ensures k <= i <= |pages| && (i < |pages| ==> Fits(pages[i], from, size))
    ensures forall n :: k <= n < i ==> !Fits(pages[n], from, size)
    decreases |pages| - k
  {
    if k == |pages| || Fits(pages[k], from, size) then k else FitFrom(pages, from, size, k + 1)
  }

  function GapFor(maps: seq<Range>, from: nat): (at: nat)
    requires Mapped(maps, from)
    ensures at < |maps|
  {
    FirstGap(maps, 3 * PAGE, IndexFrom(maps, from, 0))
  }

  /** Where a new page would go: the middle of the first three-page gap behind the patch site's mapping. */
  function NewPageAddr(maps: seq<Range>, from: nat): nat
    requires Mapped(maps, from)
  {
    maps[GapFor(maps, from)].end + PAGE
  }

  /** No page fits, and the place for a new one is in reach. */
  predicate NeedsPage(s: Space, from: nat, size: nat) {
    FitFrom(s.pages, from, size, 0) == |s.pages| && Mapped(s.maps, from) && InReach(NewPageAddr(s.maps, from), from)
  }

  function NewPage(addr: nat): Range { Range(addr, addr + PAGE) }

  /** A mapping put at position `at`. */
  function Inserted(maps: seq<Range>, at: nat, page: Range): (r: seq<Range>)
    requires at <= |maps|
    ensures |r| == |maps| + 1
    ensures forall i :: 0 <= i < |r| ==> r[i] == if i < at then maps[i] else if i == at then page else maps[i - 1]
  {
    maps[..at] + [page] + maps[at..]
  }

  /** Pages and mappings after a request for `size` bytes in reach of `from`. */
  function Allocated(s: Space, from: nat, size: nat): Space {
    var i := FitFrom(s.pages, from, size, 0);
    if i < |s.pages| then s.(pages := s.pages[i := s.pages[i].(used := s.pages[i].used + size)])
    else if !NeedsPage(s, from, size) then s
    else
      var addr := NewPageAddr(s.maps, from);
      Space(s.pages + [JumpPage(addr, size)], Inserted(s.maps, GapFor(s.maps, from) + 1, NewPage(addr)))
  }

  /** A new page and a guard page on each side of it lie in unmapped memory. */
  lemma NewPageIsGuarded(maps: seq<Range>, from: nat)
    requires Ordered(maps) && Mapped(maps, from)
    ensures var addr := NewPageAddr(maps, from);
            && PAGE <= addr && Aligned(addr) && Free(maps, Range(addr - PAGE, addr + 2 * PAGE))
            && !Mapped(maps, addr)
  {
    hide FirstGap;
    GapIsFree(maps, 3 * PAGE, IndexFrom(maps, from, 0));
    NextAligned(maps[GapFor(maps, from)].end);
  }

  lemma NextAligned(a: nat)
    requires Aligned(a)
    ensures Aligned(a + PAGE) && Aligned(a + PAGE + PAGE)
  {
  }

  lemma InsertOrdered(maps: seq<Range>, at: nat, page: Range)
    requires Ordered(maps) && 0 < at <= |maps| && page.start < page.end && Aligned(page.start) && Aligned(page.end)
    requires maps[at - 1].end <= page.start && (at < |maps| ==> page.end <= maps[at].start)
    ensures Ordered(Inserted(maps, at, page))
  {
    hide Aligned;
    var r := Inserted(maps, at, page);
    forall i, j | 0 <= i < j < |r|
      ensures r[i].end <= r[j].start
    {
      if i == at {
        assert maps[at].start <= maps[j - 1].start;
      } else if j == at {
        assert maps[i].end <= maps[at - 1].end;
      }
    }
  }

  lemma InsertMapped(maps: seq<Range>, at: nat, page: Range, a: nat)
    requires at <= |maps|
    ensures Mapped(Inserted(maps, at, page), a) <==> Mapped(maps, a) || page.Has(a)
  {
    var r := Inserted(maps, at, page);
    if Mapped(maps, a) {
      var i :| 0 <= i < |maps| && maps[i].Has(a);
      assert r[if i < at then i else i + 1].Has(a);
    }
    if page.Has(a) {
      assert r[at].Has(a);
    }
  }

  /** Mapping the new page keeps the mappings in order. */
  lemma NewPageOrdered(maps: seq<Range>, from: nat)
    requires Ordered(maps) && Mapped(maps, from)
    ensures Ordered(Inserted(maps, GapFor(maps, from) + 1, NewPage(NewPageAddr(maps, from))))
  {
    hide FirstGap, Aligned, Mapped, Inserted;
    var at := GapFor(maps, from);
    GapIsFree(maps, 3 * PAGE, IndexFrom(maps, from, 0));
    NextAligned(maps[at].end);
    InsertOrdered(maps, at + 1, NewPage(NewPageAddr(maps, from)));
  }

  // ---- what is known of jumps and pages in every state

  ghost predicate PagesOk(pages: seq<JumpPage>) {
    forall i :: 0 <= i < |pages| ==> pages[i].used <= PAGE && Aligned(pages[i].addr)
  }

  /** A jump lies on the used part of a page. */
  predicate On(j: Jump, p: JumpPage) { p.addr <= j.addr && j.addr + j.size <= p.addr + p.used }

  /** Every jump lies on its page. */
  ghost predicate Placed(jumps: seq<Jump>, pages: seq<JumpPage>) {
    forall k :: 0 <= k < |jumps| ==> jumps[k].size > 0 && jumps[k].page < |pages| && On(jumps[k], pages[jumps[k].page])
  }

  /** On one page, later jumps lie behind earlier ones. */
  ghost predicate InPageOrder(jumps: seq<Jump>) {
    forall i, j :: 0 <= i < j < |jumps| && jumps[i].page == jumps[j].page ==>
      jumps[i].addr + jumps[i].size <= jumps[j].addr
  }

  predicate First(jumps: seq<Jump>, k: nat, p: nat, addr: nat) {
    k < |jumps| && jumps[k].page == p && jumps[k].addr == addr
  }

  ghost predicate OpenedAt(jumps: seq<Jump>, p: nat, addr: nat) { exists k: nat :: First(jumps, k, p, addr) }

  /** Every page has a jump at its very start. */
  ghost predicate Opened(jumps: seq<Jump>, pages: seq<JumpPage>) {
    forall p: nat :: p < |pages| ==> OpenedAt(jumps, p, pages[p].addr)
  }

  predicate Reached(jumps: seq<Jump>) {
    forall k :: 0 <= k < |jumps| ==> InReach(jumps[k].addr, jumps[k].from)
  }

  ghost predicate Sound(jumps: seq<Jump>, pages: seq<JumpPage>) {
    PagesOk(pages) && Placed(jumps, pages) && InPageOrder(jumps) && Opened(jumps, pages) && Reached(jumps)
  }

  /** Handing out the next piece of a page that fits. */
  lemma BumpSound(jumps: seq<Jump>, pages: seq<JumpPage>, i: nat, j: Jump)
    requires Sound(jumps, pages) && i < |pages| && j.size > 0 && j.page == i && InReach(j.addr, j.from)
    requires j.addr == pages[i].addr + pages[i].used && pages[i].used + j.size <= PAGE
    ensures Sound(jumps + [j], pages[i := pages[i].(used := pages[i].used + j.size)])
  {
    hide Aligned;
    var pages' := pages[i := pages[i].(used := pages[i].used + j.size)];
    var next := jumps + [j];
    forall k | 0 <= k < |jumps|
      ensures On(jumps[k], pages'[jumps[k].page])
    {
    }
    StillOpened(jumps, pages, j);
    forall p: nat | p < |pages'|
      ensures OpenedAt(next, p, pages'[p].addr)
    {
      assert pages'[p].addr == pages[p].addr;
    }
  }

  lemma StillOpened(jumps: seq<Jump>, pages: seq<JumpPage>, j: Jump)
    requires Opened(jumps, pages)
    ensures Opened(jumps + [j], pages)
  {
    forall p: nat | p < |pages|
      ensures OpenedAt(jumps + [j], p, pages[p].addr)
    {
      var k: nat :| First(jumps, k, p, pages[p].addr);
      assert First(jumps + [j], k, p, pages[p].addr);
    }
  }

  /** Opening a new page with its first jump. */
  lemma OpenSound(jumps: seq<Jump>, pages: seq<JumpPage>, j: Jump)
    requires Sound(jumps, pages) && 0 < j.size <= PAGE && j.page == |pages| && InReach(j.addr, j.from)
    requires Aligned(j.addr)
    ensures Sound(jumps + [j], pages + [JumpPage(j.addr, j.size)])
  {
    hide Aligned;
    var next, pages' := jumps + [j], pages + [JumpPage(j.addr, j.size)];
    forall k | 0 <= k < |jumps|
      ensures On(jumps[k], pages'[jumps[k].page])
    {
    }
    StillOpened(jumps, pages, j);
    assert First(next, |jumps|, |pages|, pages'[|pages|].addr);
    forall p: nat | p < |pages|
      ensures OpenedAt(next, p, pages'[p].addr)
    {
      assert pages'[p] == pages[p];
    }
  }

  // ---- when jumps are disjoint

  ghost predicate Disjoint(jumps: seq<Jump>) {
    forall i, j, a :: 0 <= i < j < |jumps| && jumps[i].Has(a) ==> !jumps[j].Has(a)
  }

  /** No page is listed twice. */
  predicate Distinct(pages: seq<JumpPage>) {
    forall i, j :: 0 <= i < j < |pages| ==> pages[i].addr != pages[j].addr
  }

  lemma Apart(a: nat, b: nat)
    requires Aligned(a) && Aligned(b) && a != b
    ensures a + PAGE <= b || b + PAGE <= a
  {
  }

  /** Jumps on different addresses' pages do not meet. */
  lemma PagesApart(jumps: seq<Jump>, pages: seq<JumpPage>, i: nat, j: nat, a: nat)
    requires Sound(jumps, pages) && Distinct(pages) && i < j < |jumps| && jumps[i].Has(a)
    ensures !jumps[j].Has(a)
  {
    hide Aligned;
    var p, q := jumps[i].page, jumps[j].page;
    if p != q {
      assert pages[p].addr != pages[q].addr;
      Apart(pages[p].addr, pages[q].addr);
    }
  }

  /** In every reachable state, all jumps are disjoint exactly when no page is listed twice. */
  lemma DisjointExactly(jumps: seq<Jump>, pages: seq<JumpPage>)
    requires Sound(jumps, pages)
    ensures Disjoint(jumps) <==> Distinct(pages)
  {
    hide Placed, Opened, InPageOrder, PagesOk, Reached;
    if Distinct(pages) {
      forall i, j, a | 0 <= i < j < |jumps| && jumps[i].Has(a)
        ensures !jumps[j].Has(a)
      {
        PagesApart(jumps, pages, i, j, a);
      }
    } else {
      var p: nat, q: nat :| p < q < |pages| && pages[p].addr == pages[q].addr;
      SharedStart(jumps, pages, p, q);
    }
  }

  /** Two pages at one address: their first jumps coincide. */
  lemma SharedStart(jumps: seq<Jump>, pages: seq<JumpPage>, p: nat, q: nat)
    requires Placed(jumps, pages) && Opened(jumps, pages) && p < q < |pages| && pages[p].addr == pages[q].addr
    ensures !Disjoint(jumps)
  {
    hide On;
    var k: nat :| First(jumps, k, p, pages[p].addr);
    var l: nat :| First(jumps, l, q, pages[q].addr);
    assert jumps[k].Has(pages[p].addr) && jumps[l].Has(pages[p].addr);
  }

  // ---- every run, on pages and mappings

  datatype Op = Patch(from: nat, size: nat) | TraceeMaps(maps: seq<Range>)

  /** Stubs fit a page; the tracee's mappings are in order, and otherwise anything at all. */
  predicate Sensible(ops: seq<Op>) {
    forall i :: 0 <= i < |ops| ==>
      match ops[i]
      case Patch(_, size) => 0 < size <= PAGE
      case TraceeMaps(maps) => Ordered(maps)
  }

  function Step(s: Space, op: Op): Space {
    match op
    case Patch(from, size) => Allocated(s, from, size)
    case TraceeMaps(maps) => s.(maps := maps)
  }

  function Run(s: Space, ops: seq<Op>): Space
    decreases ops
  {
    if ops == [] then s else Run(Step(s, ops[0]), ops[1..])
  }

  predicate IsListed(pages: seq<JumpPage>, addr: nat) { exists i :: 0 <= i < |pages| && pages[i].addr == addr }

  /** A patch that needs a new page does not find the place of a page already listed. */
  predicate StepClear(s: Space, op: Op) {
    op.Patch? && NeedsPage(s, op.from, op.size) ==> !IsListed(s.pages, NewPageAddr(s.maps, op.from))
  }

  predicate RunClear(s: Space, ops: seq<Op>)
    decreases ops
  {
    ops != [] ==> StepClear(s, ops[0]) && RunClear(Step(s, ops[0]), ops[1..])
  }

  lemma StepDistinct(s: Space, op: Op)
    ensures Distinct(Step(s, op).pages) <==> Distinct(s.pages) && StepClear(s, op)
  {
    hide FitFrom, FirstGap, IndexFrom, Inserted;
    var pages, pages' := s.pages, Step(s, op).pages;
    if !Distinct(pages) {
      var i, j :| 0 <= i < j < |pages| && pages[i].addr == pages[j].addr;
      assert pages'[i].addr == pages'[j].addr;
    } else if !StepClear(s, op) {
      var i :| 0 <= i < |pages| && pages[i].addr == NewPageAddr(s.maps, op.from);
      assert pages'[i].addr == pages'[|pages|].addr;
    }
  }

  /** Over a whole run, no page is listed twice exactly when no patch met the place of a listed page. */
  lemma {:induction false} RunDistinct(s: Space, ops: seq<Op>)
    ensures Distinct(Run(s, ops).pages) <==> Distinct(s.pages) && RunClear(s, ops)
    decreases ops
  {
    if ops != [] {
      hide Distinct, StepClear, Step;
      StepDistinct(s, ops[0]);
      RunDistinct(Step(s, ops[0]), ops[1..]);
    }
  }

  /** Every listed page still has its first byte mapped. */
  ghost predicate PagesMapped(s: Space) {
    forall i :: 0 <= i < |s.pages| ==> Mapped(s.maps, s.pages[i].addr)
  }

  /** The tracee never unmaps a stub page. */
  ghost predicate KeepsPages(s: Space, ops: seq<Op>)
    decreases ops
  {
    ops != [] ==>
      && (ops[0].TraceeMaps? ==> PagesMapped(Step(s, ops[0])))
      && KeepsPages(Step(s, ops[0]), ops[1..])
  }

  /** A place found for a page is unmapped, so it is not that of a page still mapped. */
  lemma MappedIsClear(s: Space, op: Op)
    requires Ordered(s.maps) && PagesMapped(s)
    ensures StepClear(s, op)
  {
    hide FitFrom, NewPageAddr, Mapped;
    if op.Patch? && NeedsPage(s, op.from, op.size) {
      NewPageIsGuarded(s.maps, op.from);
    }
  }

  lemma StepOrdered(s: Space, op: Op)
    requires Ordered(s.maps) && (op.TraceeMaps? ==> Ordered(op.maps))
    ensures Ordered(Step(s, op).maps)
  {
    hide FitFrom, Inserted, Ordered, Mapped, NewPageAddr, GapFor;
    if op.Patch? && NeedsPage(s, op.from, op.size) {
      NewPageOrdered(s.maps, op.from);
    }
  }

  /** A tracee that leaves the stub pages alone keeps every run clear. */
  lemma {:induction false} KeptIsClear(s: Space, ops: seq<Op>)
    requires Ordered(s.maps) && Sensible(ops) && PagesMapped(s) && KeepsPages(s, ops)
    ensures RunClear(s, ops)
    decreases ops
  {
    if ops != [] {
      hide StepClear, Step, Ordered, PagesMapped;
      assert ops[0].TraceeMaps? ==> Ordered(ops[0].maps);
      MappedIsClear(s, ops[0]);
      StepOrdered(s, ops[0]);
      if ops[0].Patch? {
        PatchKeepsMapped(s, ops[0].from, ops[0].size);
      }
      KeptIsClear(Step(s, ops[0]), ops[1..]);
    }
  }

  /** Patching itself never loses a page. */
  lemma PatchKeepsMapped(s: Space, from: nat, size: nat)
    requires PagesMapped(s)
    ensures PagesMapped(Step(s, Patch(from, size)))
  {
    hide FitFrom, Mapped, Inserted, GapFor, NewPageAddr;
    var s' := Step(s, Patch(from, size));
    forall i | 0 <= i < |s'.pages|
      ensures Mapped(s'.maps, s'.pages[i].addr)
    {
      if NeedsPage(s, from, size) {
        InsertMapped(s.maps, GapFor(s.maps, from) + 1, NewPage(NewPageAddr(s.maps, from)), s'.pages[i].addr);
      }
    }
  }

  // ---- a run in which an address is handed out twice

  const CODE := Range(PAGE, 2 * PAGE)
  const PLACE := 3 * PAGE

  function Patches(n: nat, size: nat): seq<Op> { seq(n, i => Patch(PAGE, size)) }

  lemma {:induction false} RunConcat(s: Space, a: seq<Op>, b: seq<Op>)
    ensures Run(s, a + b) == Run(Run(s, a), b)
    decreases a
  {
    hide Step;
    if a == [] {
      assert a + b == b;
    } else {
      assert (a + b)[1..] == a[1..] + b;
      RunConcat(Step(s, a[0]), a[1..], b);
    }
  }

  lemma RunOne(s: Space, op: Op)
    ensures Run(s, [op]) == Step(s, op)
  {
    hide Step;
    assert Run(Step(s, op), [op][1..]) == Step(s, op);
  }

  /** With only the code mapped and no page that fits, the page goes to `PLACE`. */
  lemma FirstPage(pages: seq<JumpPage>, size: nat)
    requires FitFrom(pages, PAGE, size, 0) == |pages|
    ensures Step(Space(pages, [CODE]), Patch(PAGE, size)) ==
              Space(pages + [JumpPage(PLACE, size)], [CODE, NewPage(PLACE)])
    ensures NeedsPage(Space(pages, [CODE]), PAGE, size) && NewPageAddr([CODE], PAGE) == PLACE
  {
    hide FitFrom;
    var maps := [CODE];
    assert maps[0].Has(PAGE);
    assert IndexFrom(maps, PAGE, 0) == 0 && FirstGap(maps, 3 * PAGE, 0) == 0;
    assert Inserted(maps, 1, NewPage(PLACE)) == [CODE, NewPage(PLACE)];
  }

  /** As many patches as the page has room for. */
  lemma {:induction false} Filled(n: nat, size: nat)
    requires 0 < size && 1 <= n && n * size <= PAGE
    ensures Run(Space([], [CODE]), Patches(n, size)) == Space([JumpPage(PLACE, n * size)], [CODE, NewPage(PLACE)])
  {
    var one := Patch(PAGE, size);
    if n == 1 {
      assert Patches(1, size) == [one];
      RunOne(Space([], [CODE]), one);
      FirstPage([], size);
      assert [] + [JumpPage(PLACE, size)] == [JumpPage(PLACE, size)];
    } else {
      var used := (n - 1) * size;
      assert n * size == used + size;
      hide Step;
      Filled(n - 1, size);
      assert Patches(n, size) == Patches(n - 1, size) + [one];
      RunConcat(Space([], [CODE]), Patches(n - 1, size), [one]);
      RunOne(Space([JumpPage(PLACE, used)], [CODE, NewPage(PLACE)]), one);
      OneMore(used, size);
    }
  }

  lemma OneMore(used: nat, size: nat)
    requires used + size <= PAGE
    ensures Step(Space([JumpPage(PLACE, used)], [CODE, NewPage(PLACE)]), Patch(PAGE, size)) ==
            Space([JumpPage(PLACE, used + size)], [CODE, NewPage(PLACE)])
  {
    var pages := [JumpPage(PLACE, used)];
    assert Fits(pages[0], PAGE, size);
    assert pages[0 := pages[0].(used := used + size)] == [JumpPage(PLACE, used + size)];
  }

  /** Fill a page with stubs, unmap it behind the allocator's back, patch once more. */
  function Reuse(size: nat): seq<Op>
    requires 0 < size
  {
    Patches(PAGE / size, size) + [TraceeMaps([CODE])] + [Patch(PAGE, size)]
  }

  /** Whatever the size of a stub: the page is listed twice, so the run is not clear. */
  lemma PageListedTwice(size: nat)
    requires 0 < size <= PAGE
    ensures Sensible(Reuse(size)) && Ordered([CODE])
    ensures !Distinct(Run(Space([], [CODE]), Reuse(size)).pages) && !RunClear(Space([], [CODE]), Reuse(size))
  {
    var n, start := PAGE / size, Space([], [CODE]);
    FullPage(size);
    Filled(n, size);
    var full := JumpPage(PLACE, n * size);
    var a := Patches(n, size) + [TraceeMaps([CODE])];
    hide Step, Allocated, RunClear;
    RunConcat(start, Patches(n, size), [TraceeMaps([CODE])]);
    RunOne(Space([full], [CODE, NewPage(PLACE)]), TraceeMaps([CODE]));
    Unmapped([full]);
    RunConcat(start, a, [Patch(PAGE, size)]);
    RunOne(Space([full], [CODE]), Patch(PAGE, size));
    NoRoom(full, size);
    FirstPage([full], size);
    var pages := Run(start, Reuse(size)).pages;
    assert pages[0].addr == pages[1].addr;
    RunDistinct(start, Reuse(size));
    SensibleReuse(size);
  }

  lemma Unmapped(pages: seq<JumpPage>)
    ensures Step(Space(pages, [CODE, NewPage(PLACE)]), TraceeMaps([CODE])) == Space(pages, [CODE])
  {
  }

  lemma SensibleReuse(size: nat)
    requires 0 < size <= PAGE
    ensures Sensible(Reuse(size)) && Ordered([CODE])
  {
  }

  lemma FullPage(size: nat)
    requires 0 < size <= PAGE
    ensures 1 <= PAGE / size && PAGE / size * size <= PAGE < PAGE / size * size + size
  {
    var q := PAGE / size;
    assert PAGE == q * size + PAGE % size;
  }

  lemma NoRoom(full: JumpPage, size: nat)
    requires full.used + size > PAGE
    ensures FitFrom([full], PAGE, size, 0) == 1
  {
    assert FitFrom([full], PAGE, size, 1) == 1;
  }
}
