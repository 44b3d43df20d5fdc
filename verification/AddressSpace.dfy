/**
 * AddressSpace::map, unmap, protect, remap and the coalescing of adjacent
 * mappings. Every operation is specified twice: address by address, by what a lookup
 * finds before and after it, and by the list of mappings it leaves.
 */
module AddressSpaces {
  import opened Prelude
  import opened MemoryRanges
  import opened MemoryMaps
  import opened MappingLists

  /** The bits of a protection value that are stored: read, write, execute. */
  function ProtBits(prot: nat): (bits: nat)
    ensures bits < 8 && (prot - bits) % 8 == 0
  {
    prot % 8
  }

  const PROT_GROWSDOWN: nat := 0x100_0000

  /** Bit 24 is set. */
  predicate GrowsDown(prot: nat): (r: bool)
    ensures r <==> prot % 0x200_0000 >= 0x100_0000
  {
    prot / PROT_GROWSDOWN % 2 == 1
  }

  function WithProt(v: Option<View>, prot: nat): Option<View> {
    if v.Some? then Some(v.value.(prot := ProtBits(prot))) else None
  }

  // ---- one mapping at a time

  /** `add_to_map` for each piece in turn. */
  function AssignAll(mem: Memory, pieces: Memory): Memory
    decreases pieces
  {
    if pieces == [] then mem else AssignAll(Assign(mem, pieces[0].value), pieces[1..])
  }

  /** Pieces that fit into a hole end up in it, in order. */
  lemma {:induction false} AssignAllIs(a: Memory, pieces: Memory, b: Memory)
    requires Valid(a + pieces + b)
    ensures AssignAll(a + b, pieces) == a + pieces + b
    decreases pieces
  {
    hide Assign, Valid;
    if pieces == [] {
      assert a + pieces + b == a + b;
    } else {
      var p, rest := pieces[0], pieces[1..];
      assert pieces == [p] + rest;
      assert a + pieces + b == (a + [p]) + rest + b;
      DropMiddle(a + [p], rest, b);
      OwnKey(a, p, b);
      PutBetween(a, p.value, b);
      AssignAllIs(a + [p], rest, b);
    }
  }

  lemma {:induction false} AssignJoin(mem: Memory, p: Memory, q: Memory)
    ensures AssignAll(mem, p + q) == AssignAll(AssignAll(mem, p), q)
    decreases p
  {
    if p == [] {
      assert p + q == q;
    } else {
      assert (p + q)[1..] == p[1..] + q;
      AssignJoin(Assign(mem, p[0].value), p[1..], q);
    }
  }

  lemma OwnKey(a: Memory, p: Entry, b: Memory)
    requires Valid(a + [p] + b)
    ensures p == Entry(p.value.km.Extent(), p.value)
  {
    assert (a + [p] + b)[|a|] == p;
  }

  lemma DropMiddle(a: Memory, mid: Memory, b: Memory)
    requires Valid(a + mid + b)
    ensures Valid(a + b)
  {
    hide MappingOk;
    forall i | 0 <= i < |a + b|
      ensures (a + b)[i] == (a + mid + b)[if i < |a| then i else i + |mid|]
    {
    }
  }

  /** What the callback of `unmap_internal` does to one mapping. */
  function UnmapOne(mem: Memory, m: Mapping, rem: Range): Memory
    requires MappingOk(m) && m.km.start < rem.end
  {
    var erased := Erase(mem, m.km.Extent());
    var under := if m.km.start < rem.start then Assign(erased, m.Subrange(m.km.start, rem.start)) else erased;
    if rem.end < m.km.end then Assign(under, m.Subrange(rem.end, m.km.end)) else under
  }

  ghost predicate Meets(mem: Memory, i: nat, rem: Range) {
    && Valid(mem) && i < |mem|
    && rem.start < rem.end && Aligned(rem.start) && Aligned(rem.end)
    && rem.start < mem[i].key.end && mem[i].key.start < rem.end
  }

  lemma UnmapOneLooks(mem: Memory, i: nat, rem: Range)
    requires Meets(mem, i, rem)
    ensures var new' := UnmapOne(mem, mem[i].value, rem);
            && Valid(new')
            && (forall x: nat :: Look(new', x) == if mem[i].key.Has(x) && rem.Has(x) then None else Look(mem, x))
            && mem[i].value.km.start == mem[i].value.recorded.start
            && new' == mem[..i] + (Cut(mem[i].value, mem[i].key.start, rem.start)
                                   + Cut(mem[i].value, rem.end, mem[i].key.end)) + mem[i + 1..]
  {
    hide Look, Erase, Assign, MappingOk;
    var m := mem[i].value;
    assert MappingOk(m);
    Shape(m);
    var a, b := mem[..i], mem[i + 1..];
    var under, over := Cut(m, m.km.start, rem.start), Cut(m, rem.end, m.km.end);
    EraseAt(mem, i);
    CutTwo(m, rem.start, rem.end);
    ReplaceEntry(mem, i, under + over);
    AssignAllIs(a, under + over, b);
    AssignJoin(a + b, under, over);
    forall x: nat
      ensures Look(under + over, x) == if m.km.start <= x < m.km.end && !rem.Has(x) then Some(ViewOf(m, x)) else None
    {
      RemainsLook(m, rem, x);
    }
    forall x: nat
      ensures Look(a + (under + over) + b, x) == if mem[i].key.Has(x) && rem.Has(x) then None else Look(mem, x)
    {
      if mem[i].key.Has(x) {
        LookHit(mem, i, x);
      }
    }
  }

  /** What is left of a mapping on both sides of a hole. */
  lemma RemainsLook(m: Mapping, rem: Range, x: nat)
    requires MappingOk(m) && rem.start < rem.end && rem.start < m.km.end && m.km.start < rem.end
    requires Aligned(rem.start) && Aligned(rem.end) && Valid(Cut(m, m.km.start, rem.start) + Cut(m, rem.end, m.km.end))
    ensures Look(Cut(m, m.km.start, rem.start) + Cut(m, rem.end, m.km.end), x) ==
              if m.km.start <= x < m.km.end && !rem.Has(x) then Some(ViewOf(m, x)) else None
  {
    hide Look, MappingOk;
    Shape(m);
    LookJoin(Cut(m, m.km.start, rem.start), Cut(m, rem.end, m.km.end), x);
    CutLooks(m, m.km.start, rem.start, x);
    CutLooks(m, rem.end, m.km.end, x);
  }

  lemma Shape(m: Mapping)
    requires MappingOk(m)
    ensures m.km.start < m.km.end && m.km.start == m.recorded.start && m.km.end == m.recorded.end
    ensures Aligned(m.km.start) && Aligned(m.km.end)
  {
  }

  /** Two cuts of one mapping, below and above a hole. */
  lemma CutTwo(m: Mapping, lo: nat, hi: nat)
    requires MappingOk(m) && m.km.start == m.recorded.start && lo < hi && m.km.start < hi && lo < m.km.end
    requires Aligned(lo) && Aligned(hi)
    ensures var pieces := Cut(m, m.km.start, lo) + Cut(m, hi, m.km.end);
            && Valid(pieces)
            && forall k | 0 <= k < |pieces| :: m.km.Extent().Contains(pieces[k].key)
  {
    CutLooks(m, m.km.start, lo, 0);
    CutLooks(m, hi, m.km.end, 0);
    ValidJoin(Cut(m, m.km.start, lo), Cut(m, hi, m.km.end));
  }

  function ProtectFrom(m: Mapping, rem: Range, prot: nat): nat {
    if m.km.start < rem.start && GrowsDown(prot) then m.km.start else rem.start
  }

  /** What the callback of `protect` does to one mapping. */
  function ProtectOne(mem: Memory, m: Mapping, rem: Range, prot: nat): Memory
    requires MappingOk(m) && m.km.start <= rem.start < rem.end
  {
    var erased := Erase(mem, m.km.Extent());
    var from, to := ProtectFrom(m, rem, prot), Min(rem.end, m.km.end);
    var under := if m.km.start < from then Assign(erased, m.Subrange(m.km.start, rem.start)) else erased;
    var overlap := Assign(under, m.Subrange(from, to).SetProt(ProtBits(prot)));
    if rem.end < m.km.end then Assign(overlap, m.Subrange(rem.end, m.km.end)) else overlap
  }

  /** The overlap as the map stores it. */
  function Overlap(m: Mapping, from: nat, to: nat, prot: nat): Mapping
    requires m.km.start <= from && m.km.start == m.recorded.start
  {
    m.Subrange(from, to).SetProt(ProtBits(prot))
  }

  lemma ProtectPieces(m: Mapping, from: nat, to: nat, prot: nat)
    requires MappingOk(m) && m.km.start == m.recorded.start && m.km.start <= from < to <= m.km.end
    requires Aligned(from) && Aligned(to)
    ensures var mid := [Entry(Range(from, to), Overlap(m, from, to, prot))];
            var pieces := Cut(m, m.km.start, from) + mid + Cut(m, to, m.km.end);
            && Valid(pieces)
            && (forall k | 0 <= k < |pieces| :: m.km.Extent().Contains(pieces[k].key))
            && forall x: nat :: Look(pieces, x) ==
                 if from <= x < to then WithProt(Some(ViewOf(m, x)), prot)
                 else if m.km.start <= x < m.km.end then Some(ViewOf(m, x)) else None
  {
    hide Look, Valid, Aligned;
    PiecesValid(m, from, to, prot);
    forall x: nat
      ensures Look(Cut(m, m.km.start, from) + [Entry(Range(from, to), Overlap(m, from, to, prot))]
                   + Cut(m, to, m.km.end), x)
           == if from <= x < to then WithProt(Some(ViewOf(m, x)), prot)
              else if m.km.start <= x < m.km.end then Some(ViewOf(m, x)) else None
    {
      PiecesLook(m, from, to, prot, x);
    }
  }

  lemma PiecesValid(m: Mapping, from: nat, to: nat, prot: nat)
    requires MappingOk(m) && m.km.start == m.recorded.start && m.km.start <= from < to <= m.km.end
    requires Aligned(from) && Aligned(to)
    ensures var mid := [Entry(Range(from, to), Overlap(m, from, to, prot))];
            var pieces := Cut(m, m.km.start, from) + mid + Cut(m, to, m.km.end);
            && Valid(mid) && Valid(pieces)
            && forall k | 0 <= k < |pieces| :: m.km.Extent().Contains(pieces[k].key)
  {
    hide Look, Valid, MappingOk, Aligned, Cut;
    var mid := [Entry(Range(from, to), Overlap(m, from, to, prot))];
    var under, over := Cut(m, m.km.start, from), Cut(m, to, m.km.end);
    OverlapValid(m, from, to, prot);
    Shape(m);
    CutLooks(m, m.km.start, from, 0);
    CutLooks(m, to, m.km.end, 0);
    CutKeys(m, m.km.start, from);
    CutKeys(m, to, m.km.end);
    ValidJoin(under, mid);
    ValidJoin(under + mid, over);
  }

  lemma OverlapValid(m: Mapping, from: nat, to: nat, prot: nat)
    requires MappingOk(m) && m.km.start <= from < to <= m.km.end && Aligned(from) && Aligned(to)
    ensures m.km.start == m.recorded.start && Valid([Entry(Range(from, to), Overlap(m, from, to, prot))])
  {
    hide Aligned;
    AlignedSum(m.km.offset, from, m.km.start);
  }

  lemma CutKeys(m: Mapping, from: nat, to: nat)
    requires m.km.start <= from && m.km.start == m.recorded.start
    ensures forall k | 0 <= k < |Cut(m, from, to)| :: Cut(m, from, to)[k].key == Range(from, to)
  {
  }

  lemma PiecesLook(m: Mapping, from: nat, to: nat, prot: nat, x: nat)
    requires MappingOk(m) && m.km.start == m.recorded.start && m.km.start <= from < to <= m.km.end
    requires Aligned(from) && Aligned(to)
    ensures var mid := [Entry(Range(from, to), Overlap(m, from, to, prot))];
            var pieces := Cut(m, m.km.start, from) + mid + Cut(m, to, m.km.end);
            Look(pieces, x) ==
              if from <= x < to then WithProt(Some(ViewOf(m, x)), prot)
              else if m.km.start <= x < m.km.end then Some(ViewOf(m, x)) else None
  {
    hide Look, Valid, Aligned, Cut, Find, LowerBound;
    var mid := [Entry(Range(from, to), Overlap(m, from, to, prot))];
    var under, over := Cut(m, m.km.start, from), Cut(m, to, m.km.end);
    PiecesValid(m, from, to, prot);
    LookJoin(under + mid, over, x);
    ValidParts(under + mid, over);
    LookJoin(under, mid, x);
    CutLooks(m, m.km.start, from, x);
    CutLooks(m, to, m.km.end, x);
    assert mid[0].key.Has(x) <==> from <= x < to;
    if from <= x < to {
      LookHit(mid, 0, x);
    } else {
      LookMiss(mid, x);
    }
  }

  lemma ProtectOneLooks(mem: Memory, i: nat, rem: Range, prot: nat)
    requires Meets(mem, i, rem) && mem[i].key.start <= rem.start
    ensures var m := mem[i].value;
            var from, to := ProtectFrom(m, rem, prot), Min(rem.end, m.km.end);
            var new' := ProtectOne(mem, m, rem, prot);
            && Valid(new')
            && (forall x: nat :: Look(new', x) == if from <= x < to then WithProt(Look(mem, x), prot) else Look(mem, x))
            && AllKeyed(mem) && new' == mem[..i] + Recut(mem[i], from, to, ProtBits(prot)) + mem[i + 1..]
  {
    hide Look, Erase, Assign, MappingOk;
    var m := mem[i].value;
    assert MappingOk(m);
    Shape(m);
    var from, to := ProtectFrom(m, rem, prot), Min(rem.end, m.km.end);
    var a, b := mem[..i], mem[i + 1..];
    var under, over := Cut(m, m.km.start, from), Cut(m, to, m.km.end);
    var mid := [Entry(Range(from, to), Overlap(m, from, to, prot))];
    ProtectPieces(m, from, to, prot);
    EraseAt(mem, i);
    ReplaceEntry(mem, i, under + mid + over);
    AssignAllIs(a, under + mid + over, b);
    AssignJoin(a + b, under + mid, over);
    AssignJoin(a + b, under, mid);
    var new' := a + (under + mid + over) + b;
    ValidKeyed(mem);
    forall x: nat
      ensures Look(new', x) == if from <= x < to then WithProt(Look(mem, x), prot) else Look(mem, x)
    {
      if mem[i].key.Has(x) {
        LookHit(mem, i, x);
      }
    }
  }

  // ---- coalescing

  /** `is_adjacent_mapping` with all flags checked; `sameName` compares the normalized names. */
  predicate IsAdjacent(l: KernelMapping, r: KernelMapping, sameName: (string, string) -> bool): (result: bool)
    ensures result <==> Continues(l, r, sameName)
  {
    && l.end == r.start
    && l.flags == r.flags && l.prot == r.prot
    && sameName(l.fsname, r.fsname)
    && l.device == r.device && l.inode == r.inode
    && (l.IsRealDevice() ==> l.offset + (l.end - l.start) == r.offset)
  }

  predicate IsCoalescable(l: Mapping, r: Mapping, sameName: (string, string) -> bool): (result: bool)
    ensures result <==> Joins(l, r, sameName)
  {
    && IsAdjacent(l.km, r.km, sameName)
    && IsAdjacent(l.recorded, r.recorded, sameName)
    && l.flags == r.flags
  }

  ghost predicate IsChain(mem: Memory, first: nat, last: nat, sameName: (string, string) -> bool)
    requires last < |mem|
  {
    forall k | first < k <= last :: IsCoalescable(mem[k - 1].value, mem[k].value, sameName)
  }

  /** Along a chain every mapping shows what the first one would show, extended. */
  lemma {:induction false} ChainViews(s: Memory, k: nat, sameName: (string, string) -> bool)
    requires Valid(s) && k < |s| && IsChain(s, 0, |s| - 1, sameName)
    ensures var l, r := s[0].value, s[k].value;
            && l.km.start <= r.km.start
            && forall x: nat | r.km.start <= x :: ViewOf(l, x) == ViewOf(r, x)
  {
    assert MappingOk(s[k].value);
    if 0 < k {
      ChainViews(s, k - 1, sameName);
      assert IsCoalescable(s[k - 1].value, s[k].value, sameName);
      assert MappingOk(s[k - 1].value);
      var p := s[k - 1].value;
      forall x: nat | s[k].value.km.start <= x
        ensures ViewOf(s[0].value, x) == ViewOf(s[k].value, x)
      {
        assert ViewOf(s[0].value, x) == ViewOf(p, x);
      }
    }
  }

  /** A chain leaves no gap. */
  lemma {:induction false} ChainCovers(s: Memory, last: nat, sameName: (string, string) -> bool, x: nat)
    returns (k: nat)
    requires Valid(s) && last < |s| && IsChain(s, 0, last, sameName)
    requires s[0].key.start <= x < s[last].key.end
    ensures k <= last && s[k].key.Has(x)
  {
    k := last;
    if x < s[last].key.start {
      assert IsCoalescable(s[last - 1].value, s[last].value, sameName);
      k := ChainCovers(s, last - 1, sameName, x);
    }
  }

  /** The mapping that replaces a chain. */
  function Merged(s: Memory): Mapping
    requires s != []
  {
    var m, end := s[0].value, s[|s| - 1].key.end;
    Mapping(m.km.Extend(end), m.recorded.Extend(end), m.flags)
  }

  lemma MergedOk(s: Memory)
    requires Valid(s) && s != []
    ensures var m := Merged(s); Valid([Entry(m.km.Extent(), m)])
    ensures s[0].key.start < s[|s| - 1].key.end
    ensures forall k | 0 <= k < |s| :: Merged(s).km.Extent().Contains(s[k].key)
  {
    hide Aligned;
    assert MappingOk(s[0].value) && MappingOk(s[|s| - 1].value);
    forall k | 0 <= k < |s|
      ensures Merged(s).km.Extent().Contains(s[k].key)
    {
      assert MappingOk(s[k].value);
    }
  }

  lemma MergeLook(s: Memory, sameName: (string, string) -> bool, x: nat)
    requires Valid(s) && s != [] && IsChain(s, 0, |s| - 1, sameName)
    ensures var m := Merged(s);
            && Look([Entry(m.km.Extent(), m)], x) == Look(s, x)
            && (Covered([Entry(m.km.Extent(), m)], x) <==> Covered(s, x))
  {
    hide Look, IsChain, MappingOk, Ordered;
    var m := Merged(s);
    var one := [Entry(m.km.Extent(), m)];
    MergedOk(s);
    assert one[0].key.Has(x) <==> s[0].key.start <= x < s[|s| - 1].key.end;
    if one[0].key.Has(x) {
      var k := ChainCovers(s, |s| - 1, sameName, x);
      LookHit(one, 0, x);
      LookHit(s, k, x);
      ChainViews(s, k, sameName);
    } else {
      LookMiss(one, x);
      LookMiss(s, x);
    }
  }

  /** Merging a chain into one mapping changes no lookup. */
  lemma MergeLooks(a: Memory, s: Memory, b: Memory, sameName: (string, string) -> bool)
    requires Valid(a + s + b) && s != [] && IsChain(s, 0, |s| - 1, sameName)
    ensures var m := Merged(s);
            var new' := a + [Entry(m.km.Extent(), m)] + b;
            && Valid(new')
            && forall x: nat :: Look(new', x) == Look(a + s + b, x)
  {
    hide Look, Valid, IsChain;
    ValidParts(a + s, b);
    ValidParts(a, s);
    var m := Merged(s);
    var one := [Entry(m.km.Extent(), m)];
    MergedValid(a, s, b);
    forall x: nat
      ensures Look(a + one + b, x) == Look(a + s + b, x)
    {
      MergeLook(s, sameName, x);
      LookJoin(a + s, b, x);
      LookJoin(a, s, x);
      LookJoin(a + one, b, x);
      ValidParts(a + one, b);
      LookJoin(a, one, x);
    }
  }

  lemma MergedValid(a: Memory, s: Memory, b: Memory)
    requires Valid(a + s + b) && s != []
    ensures var m := Merged(s); Valid(a + [Entry(m.km.Extent(), m)] + b)
  {
    hide MappingOk;
    var m := Merged(s);
    var one := [Entry(m.km.Extent(), m)];
    ValidParts(a + s, b);
    ValidParts(a, s);
    MergedOk(s);
    var all := a + s + b;
    assert all[|a|] == s[0] && all[|a| + |s| - 1] == s[|s| - 1];
    ValidJoin(a, one);
    assert forall i | 0 <= i < |a| :: all[i] == a[i];
    assert forall j | 0 <= j < |b| :: all[|a| + |s| + j] == b[j];
    ValidJoin(a + one, b);
  }

  /** What the lower bound of a non-empty range says about the entries around it. */
  lemma LowerBoundMeans(mem: Memory, r: Range)
    requires Valid(mem) && r.start < r.end
    ensures forall k | 0 <= k < LowerBound(mem, r) :: mem[k].key.end <= r.start
    ensures LowerBound(mem, r) < |mem| ==> r.start < mem[LowerBound(mem, r)].key.end
  {
    var i := LowerBound(mem, r);
    forall k | 0 <= k < i
      ensures mem[k].key.end <= r.start
    {
      assert mem[k].key.Before(r) && MappingOk(mem[k].value);
      if r.start < mem[k].key.end {
        assert mem[k].key.Has(r.start) && r.Has(r.start);
        assert false;
      }
    }
    if i < |mem| {
      assert MappingOk(mem[i].value);
    }
  }

  /** Addresses between two neighbouring entries are not mapped. */
  lemma NothingBetween(mem: Memory, i: nat, lo: nat, hi: nat)
    requires Valid(mem) && i <= |mem|
    requires forall k | 0 <= k < i :: mem[k].key.end <= lo
    requires i < |mem| ==> hi <= mem[i].key.start
    ensures forall x: nat | lo <= x < hi :: Look(mem, x) == None
  {
    hide Look;
    forall x: nat | lo <= x < hi
      ensures Look(mem, x) == None
    {
      forall k | 0 <= k < |mem|
        ensures !mem[k].key.Has(x)
      {
        if i < k {
          assert MappingOk(mem[i].value);
        }
      }
      LookMiss(mem, x);
    }
  }

  lemma OutsideFrom(mem: Memory, i: nat, lo: nat, hi: nat)
    requires Valid(mem) && i <= |mem| && (forall k | 0 <= k < i :: mem[k].key.end <= lo)
    requires i < |mem| ==> hi <= mem[i].key.start
    ensures AllKeyed(mem) && Outside(mem, lo, hi) == mem
  {
    hide MappingOk, Outside;
    ValidKeyed(mem);
    forall k | i < k < |mem|
      ensures mem[i].key.start <= mem[k].key.start
    {
      EntryOk(mem, i);
    }
    OutsideApart(mem, lo, hi);
  }

  lemma FindKey(mem: Memory, j: nat)
    requires Valid(mem) && j < |mem|
    ensures Find(mem, mem[j].key) == Some(j)
  {
    assert MappingOk(mem[j].value);
    LowerBoundIs(mem, mem[j].key, j);
  }

  /** Inserting a mapping over unmapped addresses. */
  lemma InsertLooks(mem: Memory, m: Mapping)
    requires Valid(mem) && MappingOk(m)
    requires forall x: nat | m.km.start <= x < m.km.end :: Look(mem, x) == None
    ensures var new' := Insert(mem, m);
            && Valid(new')
            && (forall x: nat :: Look(new', x) ==
                 if m.km.start <= x < m.km.end then Some(ViewOf(m, x)) else Look(mem, x))
            && var j := Position(mem, m.km.start);
               new' == mem[..j] + [Entry(m.km.Extent(), m)] + mem[j..] && Find(new', m.km.Extent()) == Some(j)
  {
    hide Look, MappingOk, Insert, Valid, LowerBound, Find;
    var i := LowerBound(mem, m.km.Extent());
    InsertPlace(mem, m);
    var a, b, one := mem[..i], mem[i..], [Entry(m.km.Extent(), m)];
    assert mem == a + b;
    Hole(mem, m);
    PutBetween(a, m, b);
    assert (a + one + b)[i] == one[0];
    FindKey(a + one + b, i);
    forall x: nat
      ensures Look(a + one + b, x) == if m.km.start <= x < m.km.end then Some(ViewOf(m, x)) else Look(mem, x)
    {
      InsertLook(a, m, b, x);
    }
  }

  lemma InsertPlace(mem: Memory, m: Mapping)
    requires Valid(mem) && MappingOk(m)
    ensures LowerBound(mem, m.km.Extent()) == Position(mem, m.km.start)
  {
    LowerBoundIs(mem, m.km.Extent(), Position(mem, m.km.start));
  }

  /** The place of the lower bound is a hole big enough. */
  lemma Hole(mem: Memory, m: Mapping)
    requires Valid(mem) && MappingOk(m)
    requires forall x: nat | m.km.start <= x < m.km.end :: Look(mem, x) == None
    ensures var i := LowerBound(mem, m.km.Extent());
            Valid(mem[..i] + [Entry(m.km.Extent(), m)] + mem[i..])
  {
    hide Look, LowerBound, MappingOk;
    Shape(m);
    var i := LowerBound(mem, m.km.Extent());
    LowerBoundMeans(mem, m.km.Extent());
    if i < |mem| {
      assert MappingOk(mem[i].value);
      Shape(mem[i].value);
      if mem[i].key.start < m.km.end {
        var x := Max(m.km.start, mem[i].key.start);
        LookHit(mem, i, x);
        assert false;
      }
    }
  }

  lemma InsertLook(a: Memory, m: Mapping, b: Memory, x: nat)
    requires Valid(a + [Entry(m.km.Extent(), m)] + b)
    ensures Look(a + [Entry(m.km.Extent(), m)] + b, x) ==
              if m.km.start <= x < m.km.end then Some(ViewOf(m, x)) else Look(a + b, x)
  {
    hide Look, Valid;
    var one := [Entry(m.km.Extent(), m)];
    DropMiddle(a, one, b);
    LookJoin(a + one, b, x);
    ValidParts(a + one, b);
    LookJoin(a, one, x);
    ValidParts(a, one);
    LookJoin(a, b, x);
    assert one[0].key.Has(x) <==> m.km.start <= x < m.km.end;
    if m.km.start <= x < m.km.end {
      LookHit(one, 0, x);
    } else {
      LookMiss(one, x);
    }
  }

  // ---- the object

  /** No address from here on exists. */
  const ADDRESS_LIMIT: nat := 0x1_0000_0000_0000_0000

  function WithFlags(v: Option<View>, flags: nat): Option<View> {
    match v case None => None case Some(w) => Some(w.(rrFlags := flags))
  }

  /** Changing the flags of one entry changes them, and nothing else, over its whole range. */
  lemma FlagLooks(mem: Memory, i: nat, flags: nat)
    requires Valid(mem) && i < |mem|
    ensures var mem' := mem[i := mem[i].(value := mem[i].value.(flags := flags))];
            && Valid(mem')
            && forall x: nat :: Look(mem', x) ==
                 if mem[i].key.Has(x) then WithFlags(Look(mem, x), flags) else Look(mem, x)
  {
    hide Look, Valid, MappingOk;
    var e := mem[i].(value := mem[i].value.(flags := flags));
    EntryOk(mem, i);
    OneEntry(e, mem[i].value);
    assert mem[i := e] == mem[..i] + [e] + mem[i + 1..];
    ReplaceEntry(mem, i, [e]);
    forall x: nat | mem[i].key.Has(x)
      ensures Look([e], x) == WithFlags(Look(mem, x), flags)
    {
      LookHit(mem, i, x);
      LookHit([e], 0, x);
    }
  }

  /** The mapping that holds the address, if any, with other flags of rr's own. */
  function Flagged(mem: Memory, addr: nat, flags: nat): Memory {
    var i := Position(mem, addr);
    if i < |mem| then mem[i := Entry(mem[i].key, Mapping(mem[i].value.km, mem[i].value.recorded, flags))] else mem
  }

  lemma PositionIs(mem: Memory, i: nat, a: nat)
    requires Valid(mem) && i < |mem| && mem[i].key.Has(a)
    ensures Position(mem, a) == i
  {
    assert forall k | 0 <= k < i :: mem[k].key.end <= mem[i].key.start;
  }

  lemma OneEntry(e: Entry, m: Mapping)
    requires MappingOk(m) && e.value.km == m.km && e.value.recorded == m.recorded && e.key == m.km.Extent()
    ensures Valid([e]) && MappingOk(e.value)
  {
  }

  class AddressSpace {
    var mem: Memory
    /** Compares normalized file names; what a lookup shows does not depend on it. */
    const sameName: (string, string) -> bool

    constructor (sameName: (string, string) -> bool)
      ensures this.sameName == sameName && mem == [] && Valid(mem) && forall x: nat :: Look(mem, x) == None
    {
      this.sameName := sameName;
      mem := [];
    }

    /** `has_mapping`: the last page of the 64-bit address space never counts as mapped. */
    method HasMapping(a: nat) returns (r: bool)
      requires Valid(mem)
      ensures r <==> Covered(mem, a) && a + PAGE < ADDRESS_LIMIT
    {
      if a + PAGE >= ADDRESS_LIMIT {
        return false;
      }
      LookCovered(mem, a);
      var page := Range(FloorPage(a), FloorPage(a) + 1);
      match Find(mem, page) {
        case None => r := false;
        case Some(i) => r := mem[i].key.Contains(page);
      }
      Contained(mem, a);
    }

    /** An assignment through `mapping_flags_of`: the whole mapping that holds the address gets the flags. */
    method SetMappingFlags(addr: nat, flags: nat) returns (ghost extent: Range)
      requires Valid(mem) && Covered(mem, addr)
      modifies this
      ensures Valid(mem) && extent.Has(addr) && exists i | 0 <= i < |old(mem)| :: old(mem)[i].key == extent
      ensures mem == Flagged(old(mem), addr, flags)
      ensures forall x: nat :: Look(mem, x) ==
                if extent.Has(x) then WithFlags(old(Look(mem, x)), flags) else old(Look(mem, x))
    {
      hide Look, Valid, MappingOk, Find;
      LookCovered(mem, addr);
      ghost var k :| 0 <= k < |mem| && mem[k].key.Has(addr);
      LookHit(mem, k, addr);
      var found := Find(mem, Range(FloorPage(addr), FloorPage(addr) + 1));
      var i := found.value;
      FlagLooks(mem, i, flags);
      PositionIs(mem, k, addr);
      extent := mem[i].key;
      mem := mem[i := mem[i].(value := mem[i].value.(flags := flags))];
    }

    /** `unmap_internal`: exactly the pages touched by the region become unmapped. */
    method UnmapInternal(addr: nat, numBytes: nat)
      requires Valid(mem)
      modifies this
      ensures Valid(mem)
      ensures forall x: nat :: Look(mem, x) ==
                if FloorPage(addr) <= x < CeilPage(addr + numBytes) then None else old(Look(mem, x))
      ensures mem == Outside(old(mem), FloorPage(addr), CeilPage(addr + numBytes))
    {
      hide Look, UnmapOne, LowerBound, FloorPage, CeilPage, Outside, AllKeyed, Cut, Aligned, Valid;
      var regionStart, regionEnd := FloorPage(addr), CeilPage(addr + numBytes);
      var lastEnd := regionStart;
      ghost var before := mem;
      ValidKeyed(mem);
      OutsideApart(mem, regionStart, regionStart);
      while lastEnd < regionEnd
        invariant Valid(mem) && Aligned(lastEnd) && regionStart <= lastEnd
        invariant AllKeyed(before) && mem == Outside(before, regionStart, Min(lastEnd, regionEnd))
        invariant forall x: nat :: Look(mem, x) ==
                    if regionStart <= x < lastEnd && x < regionEnd then None else Look(before, x)
        decreases regionEnd - lastEnd
      {
        var rem := Range(lastEnd, regionEnd);
        var i := LowerBound(mem, rem);
        LowerBoundMeans(mem, rem);
        OutsideTwice(before, regionStart, lastEnd, regionEnd);
        if i == |mem| {
          NothingBetween(mem, i, lastEnd, regionEnd);
          OutsideFrom(mem, i, lastEnd, regionEnd);
          return;
        }
        var range := mem[i].key;
        NothingBetween(mem, i, lastEnd, range.start);
        if rem.end <= range.start {
          OutsideFrom(mem, i, lastEnd, regionEnd);
          return;
        }
        EntryOk(mem, i);
        UnmapOneLooks(mem, i, rem);
        OutsideOne(mem, i, lastEnd, regionEnd);
        OutsideTwice(before, regionStart, lastEnd, Min(range.end, regionEnd));
        mem := UnmapOne(mem, mem[i].value, rem);
        lastEnd := range.end;
      }
    }

    /** `coalesce_around`: the longest run around `at` becomes one mapping, and no lookup changes. */
    method CoalesceAround(at: nat)
      requires Valid(mem) && at < |mem|
      modifies this
      ensures Valid(mem) && mem == Coalesced(old(mem), at, sameName)
      ensures forall x: nat :: Look(mem, x) == old(Look(mem, x))
    {
      hide Look, Insert, IsCoalescable, Valid, IsChain, Joins, RunFirst, RunLast;
      var first, last := ChainAround(at);
      if first == last {
        CoalescedAlone(mem, at, sameName);
        return;
      }
      ghost var a, s, b := mem[..first], mem[first..last + 1], mem[last + 1..];
      assert mem == a + s + b;
      SubChain(mem, first, last, sameName);
      MergeLooks(a, s, b, sameName);
      EntryOk(mem, first);
      var m := mem[first].value;
      var merged := Mapping(m.km.Extend(mem[last].key.end), m.recorded.Extend(mem[last].key.end), m.flags);
      mem := mem[..first] + mem[last + 1..];
      PutBetween(a, merged, b);
      mem := Insert(mem, merged);
    }

    /** The mappings around `at` that can be merged with it, in both directions. */
    method ChainAround(at: nat) returns (first: nat, last: nat)
      requires at < |mem|
      ensures first <= at <= last < |mem| && IsChain(mem, first, last, sameName)
      ensures first == RunFirst(mem, at, sameName) && last == RunLast(mem, at, sameName)
    {
      hide IsCoalescable, Joins;
      first := at;
      while 0 < first && IsCoalescable(mem[first - 1].value, mem[first].value, sameName)
        invariant first <= at && IsChain(mem, first, at, sameName)
        invariant RunFirst(mem, at, sameName) == RunFirst(mem, first, sameName)
      {
        first := first - 1;
      }
      last := at;
      while last + 1 < |mem| && IsCoalescable(mem[last].value, mem[last + 1].value, sameName)
        invariant at <= last < |mem| && IsChain(mem, first, last, sameName)
        invariant RunLast(mem, at, sameName) == RunLast(mem, last, sameName)
      {
        last := last + 1;
      }
    }

    /** `map_and_coalesce` over unmapped addresses. */
    method MapAndCoalesce(km: KernelMapping, recorded: KernelMapping)
      requires Valid(mem) && MappingOk(Mapping(km, recorded, 0))
      requires forall x: nat | km.start <= x < km.end :: Look(mem, x) == None
      modifies this
      ensures Valid(mem)
      ensures forall x: nat :: Look(mem, x) ==
                if km.start <= x < km.end then Some(ViewOf(Mapping(km, recorded, 0), x)) else old(Look(mem, x))
      ensures mem == Placed(old(mem), Mapping(km, recorded, 0), sameName)
    {
      hide Look, Insert, Valid, MappingOk, Find, Coalesced;
      var m := Mapping(km, recorded, 0);
      InsertLooks(mem, m);
      mem := Insert(mem, m);
      var at := Find(mem, km.Extent());
      CoalesceAround(at.value);
    }

    /** `map`: the region shows the new mapping, everything else is as before. */
    method Map(addr: nat, numBytes: nat, prot: nat, flags: set<nat>, offset: nat, fsname: string, device: nat,
               inode: nat,
               recorded: Option<KernelMapping>)
      returns (km: KernelMapping)
      requires Valid(mem) && Aligned(addr) && Aligned(offset)
      requires recorded.Some? ==> recorded.value.Extent() == Range(addr, addr + CeilPage(numBytes))
      modifies this
      ensures Valid(mem)
      ensures forall x: nat :: Look(mem, x) ==
                if addr <= x < addr + CeilPage(numBytes)
                then Some(NewView(prot, flags, device, inode, offset, x - addr))
                else old(Look(mem, x))
      ensures km == KernelMapping(addr, addr + CeilPage(numBytes), fsname, device, inode, prot, flags * TRACKED_FLAGS,
                                  offset)
      ensures mem == if numBytes == 0 then old(mem)
                     else Placed(Outside(old(mem), addr, addr + CeilPage(numBytes)),
                                 Mapping(km, if recorded.Some? then recorded.value else km, 0), sameName)
    {
      hide Look, Valid, Outside, Placed;
      var length := CeilPage(numBytes);
      km := KernelMapping(addr, addr + length, fsname, device, inode, prot, flags * TRACKED_FLAGS, offset);
      if length == 0 {
        return;
      }
      UnmapInternal(addr, length);
      AlignedRegion(addr, length);
      MapAndCoalesce(km, if recorded.Some? then recorded.value else km);
    }

    /** `unmap`. */
    method Unmap(addr: nat, numBytes: nat)
      requires Valid(mem)
      modifies this
      ensures Valid(mem)
      ensures forall x: nat :: Look(mem, x) ==
                if 0 < numBytes && FloorPage(addr) <= x < CeilPage(addr + CeilPage(numBytes)) then None
                else old(Look(mem, x))
      ensures mem == if numBytes == 0 then old(mem)
                     else Outside(old(mem), FloorPage(addr), CeilPage(addr + CeilPage(numBytes)))
    {
      hide Look, Valid, Outside;
      var length := CeilPage(numBytes);
      if length == 0 {
        return;
      }
      UnmapInternal(addr, length);
    }

    /** `remap`: the new region shows the old mapping from `oldAddr` on, without rr's own flags. */
    method Remap(oldAddr: nat, oldNumBytes: nat, newAddr: nat, newNumBytes: nat)
      requires Valid(mem) && Covered(mem, oldAddr) && Aligned(oldAddr) && Aligned(newAddr)
      modifies this
      ensures Valid(mem)
      ensures forall x: nat :: Look(mem, x) ==
                if newAddr <= x < newAddr + CeilPage(newNumBytes)
                then Some(MovedView(old(Look(mem, oldAddr)).value, x - newAddr))
                else if oldAddr <= x < oldAddr + CeilPage(oldNumBytes) then None
                else old(Look(mem, x))
      ensures AllKeyed(old(mem)) && mem == Moved(old(mem), oldAddr, oldNumBytes, newAddr, newNumBytes, sameName)
    {
      hide Look, Valid, MappingOk, Find, Outside, AllKeyed, Placed, CeilPage, Aligned;
      var oldLength := CeilPage(oldNumBytes);
      LookCovered(mem, oldAddr);
      ghost var i :| 0 <= i < |mem| && mem[i].key.Has(oldAddr);
      LookHit(mem, i, oldAddr);
      EntryOk(mem, i);
      ValidKeyed(mem);
      PositionIs(mem, i, oldAddr);
      var found := Find(mem, Range(FloorPage(oldAddr), FloorPage(oldAddr) + 1));
      var mr := mem[found.value].value;
      var km := mr.km.Subrange(oldAddr, Min(mr.km.end, oldAddr + oldLength));
      UnmapInternal(oldAddr, oldLength);
      AlignedRegion(oldAddr, oldLength);
      if newNumBytes == 0 {
        NoPages();
        return;
      }
      var newLength := CeilPage(newNumBytes);
      UnmapInternal(newAddr, newLength);
      AlignedRegion(newAddr, newLength);
      MovedOk(mr, oldAddr, km.end, newAddr, newAddr + newLength);
      MapAndCoalesce(km.SetRange(newAddr, newAddr + newLength), mr.recorded.SetRange(newAddr, newAddr + newLength));
    }

    /**
     * `protect`: the protection changes on the longest mapped run from the region's first page, cut at the region's end
     * and, under PROT_GROWSDOWN, extended down to the start of the first mapping. Nothing else changes. The mappings
     * are cut at both ends of the run, and merged around its last one.
     */
    method Protect(addr: nat, numBytes: nat, prot: nat) returns (ghost from: nat, ghost to: nat)
      requires Valid(mem)
      modifies this
      ensures Valid(mem)
      ensures IsRun(old(mem), FloorPage(addr), CeilPage(addr + numBytes), to)
      ensures IsRunStart(old(mem), FloorPage(addr), to, prot, from)
      ensures forall x: nat :: Look(mem, x) ==
                if from <= x < to then WithProt(old(Look(mem, x)), prot) else old(Look(mem, x))
      ensures AllKeyed(old(mem)) && IsProtected(old(mem), from, to, prot, sameName, mem)
    {
      hide Look, FloorPage, CeilPage, Find, Valid, IsRun, IsRunStart, Protected, AllKeyed, Coalesced;
      var lastOverlap;
      from, to, lastOverlap := ProtectEach(FloorPage(addr), CeilPage(addr + numBytes), prot);
      if lastOverlap.Some? {
        ghost var j :| 0 <= j < |mem| && mem[j].key == lastOverlap.value;
        FindKey(mem, j);
        EntryOk(mem, j);
        PositionIs(mem, j, to - 1);
        CoalesceAround(Find(mem, lastOverlap.value).value);
      } else {
        ProtectedApart(old(mem), from, to, ProtBits(prot));
      }
    }

    /** The loop of `protect` over the mappings of the region; `lastOverlap` is the last entry it made. */
    method ProtectEach(regionStart: nat, regionEnd: nat, prot: nat)
      returns (ghost from: nat, ghost to: nat, lastOverlap: Option<Range>)
      requires Valid(mem) && Aligned(regionStart) && Aligned(regionEnd) && regionStart <= regionEnd
      modifies this
      ensures Valid(mem) && IsRun(old(mem), regionStart, regionEnd, to)
      ensures IsRunStart(old(mem), regionStart, to, prot, from)
      ensures forall x: nat :: Look(mem, x) ==
                if from <= x < to then WithProt(old(Look(mem, x)), prot) else old(Look(mem, x))
      ensures AllKeyed(old(mem)) && mem == Protected(old(mem), from, to, ProtBits(prot))
      ensures from <= to && (lastOverlap.None? <==> from == to)
      ensures lastOverlap.Some? ==>
                lastOverlap.value.end == to && exists j | 0 <= j < |mem| :: mem[j].key == lastOverlap.value
    {
      hide Look, ProtectOne, LowerBound, Find, Valid, Protected, AllKeyed, Recut;
      var lastEnd := regionStart;
      lastOverlap := None;
      ghost var before := mem;
      from := regionStart;
      to := regionStart;
      ValidKeyed(mem);
      ProtectedApart(mem, from, to, ProtBits(prot));
      while lastEnd < regionEnd
        invariant Valid(mem) && Aligned(lastEnd) && regionStart <= lastEnd
        invariant to == Min(lastEnd, regionEnd) && from <= to && Aligned(from)
        invariant forall x: nat | regionStart <= x < to :: Look(before, x).Some?
        invariant IsRunStart(before, regionStart, to, prot, from)
        invariant forall x: nat :: Look(mem, x) ==
                    if from <= x < to then WithProt(Look(before, x), prot) else Look(before, x)
        invariant AllKeyed(before) && mem == Protected(before, from, to, ProtBits(prot))
        invariant lastEnd == regionStart ==> mem == before
        invariant regionStart < lastEnd ==> NoneCrosses(before, lastEnd) && NoneCrosses(mem, lastEnd)
        invariant lastOverlap.None? <==> lastEnd == regionStart
        invariant lastOverlap.None? ==> from == to
        invariant lastOverlap.Some? ==>
                    && from < to && lastOverlap.value.end == to
                    && exists j | 0 <= j < |mem| :: mem[j].key == lastOverlap.value
        decreases regionEnd - lastEnd
      {
        var rem := Range(lastEnd, regionEnd);
        var i := LowerBound(mem, rem);
        LowerBoundMeans(mem, rem);
        if i == |mem| {
          NothingBetween(mem, i, lastEnd, regionEnd);
          break;
        }
        var range := mem[i].key;
        NothingBetween(mem, i, lastEnd, range.start);
        if rem.end <= range.start {
          break;
        }
        if !(range.start < regionStart || rem.start == range.start) {
          break;
        }
        var m := mem[i].value;
        EntryOk(mem, i);
        ProtectOneLooks(mem, i, rem, prot);
        ghost var start, end := ProtectFrom(m, rem, prot), Min(rem.end, range.end);
        RunLooks(mem, i, lastEnd, end);
        ProtectedMore(before, mem, i, from, to, start, end, ProtBits(prot));
        mem := ProtectOne(mem, m, rem, prot);
        lastOverlap := Some(Range(if m.km.start < rem.start && GrowsDown(prot) then m.km.start else rem.start,
                                  Min(rem.end, range.end)));
        from := if lastEnd == regionStart then start else from;
        lastEnd := range.end;
        to := end;
      }
    }
  }

  /** `to` ends the longest mapped run that begins at `lo` and is cut at `hi`. */
  ghost predicate IsRun(mem: Memory, lo: nat, hi: nat, to: nat) {
    && (lo <= to <= hi || to == lo)
    && (forall x: nat | lo <= x < to :: Look(mem, x).Some?)
    && (to < hi ==> Look(mem, to).None?)
  }

  /** Where the change begins. */
  ghost predicate IsRunStart(mem: Memory, lo: nat, to: nat, prot: nat, from: nat) {
    if lo < to && GrowsDown(prot)
    then exists i | 0 <= i < |mem| :: mem[i].key.Has(lo) && mem[i].key.start == from
    else from == lo
  }

  ghost predicate NoneCrosses(mem: Memory, at: nat) {
    forall j | 0 <= j < |mem| :: !Crosses(mem[j], at)
  }

  /** The list after a change of protection on [from, to). */
  predicate IsProtected(mem: Memory, from: nat, to: nat, prot: nat, sameName: (string, string) -> bool, mem': Memory)
    requires AllKeyed(mem)
  {
    if to <= from then mem' == mem
    else
      var changed := Protected(mem, from, to, ProtBits(prot));
      var last := Position(changed, to - 1);
      last < |changed| && mem' == Coalesced(changed, last, sameName)
  }

  /** One more entry protected, the first one or the one where the last one ended. */
  lemma ProtectedMore(before: Memory, mem: Memory, i: nat, from: nat, to: nat, start: nat, end: nat, prot: nat)
    requires Valid(before) && Valid(mem) && AllKeyed(before) && mem == Protected(before, from, to, prot)
    requires i < |mem| && AllKeyed(mem) && mem[i].key.start <= start < end <= mem[i].key.end && from <= to
    requires Aligned(from) && Aligned(to) && Aligned(end)
    requires if from == to then mem == before else NoneCrosses(before, to) && start == to == mem[i].key.start
    ensures var first := if from == to then start else from;
            && Protected(before, first, end, prot) == mem[..i] + Recut(mem[i], start, end, prot) + mem[i + 1..]
            && NoneCrosses(before, mem[i].key.end) && NoneCrosses(Protected(before, first, end, prot), mem[i].key.end)
            && exists j | 0 <= j < |Protected(before, first, end, prot)| ::
                 Protected(before, first, end, prot)[j].key == Range(start, end)
  {
    hide Protected, MappingOk, Recut, Aligned;
    ProtectedOne(mem, i, start, end, prot);
    if from != to {
      ProtectedTwice(before, from, to, end, prot);
      ProtectedBehind(before, from, to, prot, mem[i]);
    }
    assert mem[i] in before;
    NoneCrossesEnd(before, mem[i]);
    assert Keyed(mem[i]);
    var k := MiddleOf(mem[i], start, end, prot);
    var all := mem[..i] + Recut(mem[i], start, end, prot) + mem[i + 1..];
    RecutInside(mem, i, start, end, prot);
    assert all[i + k] == Recut(mem[i], start, end, prot)[k];
  }

  lemma MiddleOf(e: Entry, start: nat, end: nat, prot: nat) returns (k: nat)
    requires Keyed(e) && e.key.start <= start < end <= e.key.end
    ensures k < |Recut(e, start, end, prot)| && Recut(e, start, end, prot)[k].key == Range(start, end)
  {
    k := |Cut(e.value, e.key.start, start)|;
  }

  lemma RecutInside(mem: Memory, i: nat, start: nat, end: nat, prot: nat)
    requires Valid(mem) && i < |mem| && Keyed(mem[i]) && mem[i].key.start <= start < end <= mem[i].key.end
    ensures NoneCrosses(mem[..i] + Recut(mem[i], start, end, prot) + mem[i + 1..], mem[i].key.end)
  {
    hide MappingOk;
    var e, pieces := mem[i], Recut(mem[i], start, end, prot);
    assert forall k | 0 <= k < |pieces| :: pieces[k].key.end <= e.key.end;
    forall k | 0 <= k < |mem|
      ensures !Crosses(mem[k], e.key.end)
    {
      EntryOk(mem, i);
    }
  }

  lemma NoneCrossesEnd(mem: Memory, e: Entry)
    requires Valid(mem) && e in mem
    ensures NoneCrosses(mem, e.key.end)
  {
    hide MappingOk;
    var i :| 0 <= i < |mem| && mem[i] == e;
    EntryOk(mem, i);
  }

  function NewView(prot: nat, flags: set<nat>, device: nat, inode: nat, offset: nat, delta: nat): View {
    View(prot, flags * TRACKED_FLAGS, device, inode, if device > 0 then Some(offset + delta) else None, 0)
  }

  function MovedView(v: View, delta: nat): View {
    v.(offset := if v.offset.Some? then Some(v.offset.value + delta) else None, rrFlags := 0)
  }

  lemma CoalescedAlone(mem: Memory, at: nat, sameName: (string, string) -> bool)
    requires Valid(mem) && at < |mem| && RunFirst(mem, at, sameName) == RunLast(mem, at, sameName)
    ensures Coalesced(mem, at, sameName) == mem
  {
    hide Joins;
    var first := RunFirst(mem, at, sameName);
    EntryOk(mem, first);
    var m, end := mem[first].value, mem[first].key.end;
    assert m.km.(end := end) == m.km && m.recorded.(end := end) == m.recorded;
  }

  lemma SubChain(mem: Memory, first: nat, last: nat, sameName: (string, string) -> bool)
    requires first <= last < |mem| && IsChain(mem, first, last, sameName)
    ensures IsChain(mem[first..last + 1], 0, last - first, sameName)
  {
    hide IsCoalescable;
    var s := mem[first..last + 1];
    forall k | 0 < k <= last - first
      ensures IsCoalescable(s[k - 1].value, s[k].value, sameName)
    {
      assert s[k - 1] == mem[first + k - 1] && s[k] == mem[first + k];
    }
  }

  lemma EntryOk(mem: Memory, i: nat)
    requires Valid(mem) && i < |mem|
    ensures MappingOk(mem[i].value) && mem[i].key == mem[i].value.km.Extent()
    ensures mem[i].key.start < mem[i].key.end && Aligned(mem[i].key.start) && Aligned(mem[i].key.end)
  {
  }

  lemma AlignedRegion(addr: nat, length: nat)
    requires Aligned(addr) && Aligned(length)
    ensures FloorPage(addr) == addr && CeilPage(addr + length) == addr + length && Aligned(addr + length)
  {
  }

  lemma NoPages()
    ensures CeilPage(0) == 0
  {
  }

  lemma MovedOk(m: Mapping, from: nat, to: nat, newFrom: nat, newTo: nat)
    requires MappingOk(m) && m.km.start <= from && Aligned(from)
    requires newFrom < newTo && Aligned(newFrom) && Aligned(newTo)
    ensures MappingOk(Mapping(m.km.Subrange(from, to).SetRange(newFrom, newTo), m.recorded.SetRange(newFrom, newTo), 0))
  {
    hide Aligned;
    AlignedSum(m.km.offset, from, m.km.start);
  }

  lemma RunLooks(mem: Memory, i: nat, lo: nat, hi: nat)
    requires Valid(mem) && i < |mem| && mem[i].key.start <= lo && hi <= mem[i].key.end
    ensures forall x: nat | lo <= x < hi :: Look(mem, x).Some?
  {
    hide Look, Valid;
    forall x: nat | lo <= x < hi
      ensures Look(mem, x).Some?
    {
      LookHit(mem, i, x);
    }
  }

  lemma Contained(mem: Memory, a: nat)
    requires Valid(mem)
    ensures var page := Range(FloorPage(a), FloorPage(a) + 1);
            Covered(mem, a) <==> Find(mem, page).Some? && mem[Find(mem, page).value].key.Contains(page)
  {
    hide Look, FloorPage, LowerBound;
    var f := FloorPage(a);
    forall i | 0 <= i < |mem|
      ensures mem[i].key.Has(a) <==> mem[i].key.Has(f)
    {
      AlignedEnds(a, mem[i].key.start);
      AlignedEnds(a, mem[i].key.end);
    }
    if i :| 0 <= i < |mem| && mem[i].key.Has(a) {
      LookHit(mem, i, a);
    }
  }
}
