/**
 * The interval map behind AddressSpace: an ordered container keyed by address
 * ranges in which overlapping keys are equivalent.
 */
module MemoryMaps {
  import opened Prelude
  import opened MemoryRanges

  /** Bits of mmap flags that are kept: shared, private, anonymous, grows-down, no-reserve, stack. */
  const TRACKED_FLAGS: set<nat> := {0, 1, 5, 8, 14, 17}

  datatype KernelMapping = KernelMapping(
    start: nat, end: nat, fsname: string, device: nat, inode: nat, prot: nat, flags: set<nat>, offset: nat)
  {
    predicate IsRealDevice() { device > 0 }

    function Extent(): Range { Range(start, end) }

    function Extend(to: nat): KernelMapping { this.(end := to) }

    function SetRange(from: nat, to: nat): KernelMapping { this.(start := from, end := to) }

    function SetProt(p: nat): KernelMapping { this.(prot := p) }

    /** The part of the mapping from `from` to `to`; a device-backed one starts further into the file. */
    function Subrange(from: nat, to: nat): KernelMapping
      requires start <= from
    {
      this.(start := from, end := to, offset := if IsRealDevice() then offset + (from - start) else offset)
    }
  }

  datatype Mapping = Mapping(km: KernelMapping, recorded: KernelMapping, flags: nat) {
    function Subrange(from: nat, to: nat): Mapping
      requires km.start <= from && recorded.start <= from
    {
      Mapping(km.Subrange(from, to), recorded.Subrange(from, to), flags)
    }

    function SetProt(p: nat): Mapping { Mapping(km.SetProt(p), recorded.SetProt(p), flags) }
  }

  datatype Entry = Entry(key: Range, value: Mapping)

  type Memory = seq<Entry>

  /** What can be asked about one address: `offset` only where a device backs it. */
  datatype View = View(prot: nat, flags: set<nat>, device: nat, inode: nat, offset: Option<nat>, rrFlags: nat)

  function ViewOf(m: Mapping, a: nat): View
    requires m.km.start <= a
  {
    View(m.km.prot, m.km.flags, m.km.device, m.km.inode,
         if m.km.IsRealDevice() then Some(m.km.offset + (a - m.km.start)) else None, m.flags)
  }

  /** A subrange is at each address where the whole was in its file, with the same attributes. */
  lemma SubrangeKeeps(k: KernelMapping, from: nat, to: nat, x: nat)
    requires k.start <= from <= x
    ensures var c := k.Subrange(from, to);
            && c.start == from && c.end == to
            && c.fsname == k.fsname && c.device == k.device && c.inode == k.inode && c.prot == k.prot
            && c.flags == k.flags
            && if k.device > 0 then c.offset + (x - c.start) == k.offset + (x - k.start) else c.offset == k.offset
  {
  }

  // ---- the ordered container

  /** First position whose key is not before `r`. */
  function LowerBound(mem: Memory, r: Range): (i: nat)
    ensures i <= |mem|
    ensures forall j | 0 <= j < i :: mem[j].key.Before(r)
    ensures i < |mem| ==> !mem[i].key.Before(r)
  {
    if mem == [] || !mem[0].key.Before(r) then 0 else 1 + LowerBound(mem[1..], r)
  }

  function Find(mem: Memory, r: Range): Option<nat> {
    var i := LowerBound(mem, r);
    if i < |mem| && !r.Before(mem[i].key) then Some(i) else None
  }

  /** `mem.erase(r)`. */
  function Erase(mem: Memory, r: Range): Memory {
    match Find(mem, r)
    case None => mem
    case Some(i) => mem[..i] + mem[i + 1..]
  }

  /** `mem[m.map] = m`: an equivalent key is kept and only its value replaced. */
  function Assign(mem: Memory, m: Mapping): Memory {
    match Find(mem, m.km.Extent())
    case Some(i) => mem[i := mem[i].(value := m)]
    case None =>
      var i := LowerBound(mem, m.km.Extent());
      mem[..i] + [Entry(m.km.Extent(), m)] + mem[i..]
  }

  /** `mem.insert`: an equivalent key leaves the map as it is. */
  function Insert(mem: Memory, m: Mapping): Memory {
    if Find(mem, m.km.Extent()).Some? then mem else Assign(mem, m)
  }

  // ---- well-formed maps

  predicate MappingOk(m: Mapping) {
    && m.km.start < m.km.end
    && Aligned(m.km.start) && Aligned(m.km.end) && Aligned(m.km.offset)
    && m.recorded.Extent() == m.km.Extent()
  }

  ghost predicate Ordered(mem: Memory) {
    forall i, j | 0 <= i < j < |mem| :: mem[i].key.end <= mem[j].key.start
  }

  /** Disjoint, non-empty, page-aligned ranges in order, each entry keyed by its own range. */
  ghost predicate Valid(mem: Memory) {
    && Ordered(mem)
    && forall i | 0 <= i < |mem| :: MappingOk(mem[i].value) && mem[i].key == mem[i].value.km.Extent()
  }

  /** The lookup of `mapping_of` and `has_mapping`: the page of `a`, by overlap. */
  function Look(mem: Memory, a: nat): Option<View>
  {
    match Find(mem, Range(FloorPage(a), FloorPage(a) + 1))
    case None => None
    case Some(i) => if mem[i].value.km.start <= a then Some(ViewOf(mem[i].value, a)) else None
  }

  ghost predicate Covered(mem: Memory, a: nat) { exists i | 0 <= i < |mem| :: mem[i].key.Has(a) }

  lemma AlignedEnds(a: nat, e: nat)
    requires Aligned(e)
    ensures a < e <==> FloorPage(a) < e
    ensures e <= a <==> e <= FloorPage(a)
  {
  }

  /** Lookup finds the one entry that holds the address. */
  lemma LookHit(mem: Memory, i: nat, a: nat)
    requires Valid(mem) && i < |mem| && mem[i].key.Has(a)
    ensures Look(mem, a) == Some(ViewOf(mem[i].value, a))
    ensures Find(mem, Range(FloorPage(a), FloorPage(a) + 1)) == Some(i)
  {
    var f := FloorPage(a);
    var r := Range(f, f + 1);
    AlignedEnds(a, mem[i].key.start);
    AlignedEnds(a, mem[i].key.end);
    assert mem[i].key.Has(f) && r.Has(f);
    LowerBoundIs(mem, r, i);
  }

  /** In an ordered map the lower bound of a range is the first entry ending after its start. */
  lemma LowerBoundIs(mem: Memory, r: Range, i: nat)
    requires Valid(mem) && i <= |mem| && r.start < r.end
    requires forall k | 0 <= k < i :: mem[k].key.end <= r.start
    requires i < |mem| ==> r.start < mem[i].key.end
    ensures LowerBound(mem, r) == i
  {
    forall k | 0 <= k < i
      ensures mem[k].key.Before(r)
    {
      assert MappingOk(mem[k].value);
    }
    if i < |mem| {
      assert !mem[i].key.Before(r);
    }
  }

  lemma LookMiss(mem: Memory, a: nat)
    requires Valid(mem) && !Covered(mem, a)
    ensures Look(mem, a) == None
  {
    var f := FloorPage(a);
    var k := LowerBound(mem, Range(f, f + 1));
    if k < |mem| {
      AlignedEnds(a, mem[k].key.start);
      AlignedEnds(a, mem[k].key.end);
    }
  }

  // ---- cutting and joining maps

  lemma ValidParts(a: Memory, b: Memory)
    requires Valid(a + b)
    ensures Valid(a) && Valid(b)
    ensures forall i, j | 0 <= i < |a| && 0 <= j < |b| :: a[i].key.end <= b[j].key.start
  {
    assert forall i | 0 <= i < |a| :: (a + b)[i] == a[i];
    assert forall i | 0 <= i < |b| :: (a + b)[|a| + i] == b[i];
  }

  lemma ValidJoin(a: Memory, b: Memory)
    requires Valid(a) && Valid(b)
    requires forall i, j | 0 <= i < |a| && 0 <= j < |b| :: a[i].key.end <= b[j].key.start
    ensures Valid(a + b)
  {
  }

  /** A lookup in a joined map is a lookup in one part or the other. */
  lemma LookJoin(a: Memory, b: Memory, x: nat)
    requires Valid(a + b)
    ensures Look(a + b, x) == if Covered(a, x) then Look(a, x) else Look(b, x)
    ensures Covered(a, x) ==> !Covered(b, x)
    ensures Covered(a + b, x) <==> Covered(a, x) || Covered(b, x)
  {
    hide Look, Valid, MappingOk;
    ValidParts(a, b);
    var m := a + b;
    if i :| 0 <= i < |a| && a[i].key.Has(x) {
      assert m[i] == a[i];
      LookHit(m, i, x);
      LookHit(a, i, x);
    } else if i :| 0 <= i < |b| && b[i].key.Has(x) {
      assert m[|a| + i] == b[i];
      LookHit(m, |a| + i, x);
      LookHit(b, i, x);
    } else {
      LookMiss(m, x);
      LookMiss(b, x);
    }
  }

  lemma LookCovered(mem: Memory, x: nat)
    requires Valid(mem)
    ensures Look(mem, x).Some? <==> Covered(mem, x)
  {
    hide Look, Valid;
    if i :| 0 <= i < |mem| && mem[i].key.Has(x) {
      LookHit(mem, i, x);
    } else {
      LookMiss(mem, x);
    }
  }

  lemma EraseAt(mem: Memory, i: nat)
    requires Valid(mem) && i < |mem|
    ensures Erase(mem, mem[i].key) == mem[..i] + mem[i + 1..]
  {
    assert MappingOk(mem[i].value);
    LowerBoundIs(mem, mem[i].key, i);
  }

  /** A mapping that fits between two parts of the map is put there. */
  lemma PutBetween(a: Memory, m: Mapping, b: Memory)
    requires Valid(a + [Entry(m.km.Extent(), m)] + b)
    ensures Assign(a + b, m) == a + [Entry(m.km.Extent(), m)] + b == Insert(a + b, m)
  {
    hide LowerBound, Valid;
    var rest, r := a + b, m.km.Extent();
    Gap(a, m, b);
    LowerBoundIs(rest, r, |a|);
    assert rest[..|a|] == a && rest[|a|..] == b;
  }

  /** What is known about a hole that a mapping fits into. */
  lemma Gap(a: Memory, m: Mapping, b: Memory)
    requires Valid(a + [Entry(m.km.Extent(), m)] + b)
    ensures Valid(a + b) && m.km.start < m.km.end
    ensures forall k | 0 <= k < |a| :: (a + b)[k].key.end <= m.km.start
    ensures b != [] ==> m.km.end <= b[0].key.start < b[0].key.end
  {
    var e := Entry(m.km.Extent(), m);
    var all := a + [e] + b;
    assert all[|a|] == e;
    forall i | 0 <= i < |a + b|
      ensures (a + b)[i] == all[if i < |a| then i else i + 1]
    {
    }
    if b != [] {
      assert all[|a| + 1] == b[0];
    }
  }

  // ---- replacing entries

  /** The part of a mapping between two addresses, as an entry of its own. */
  function Cut(m: Mapping, from: nat, to: nat): Memory
    requires m.km.start <= from && m.km.start == m.recorded.start
  {
    if from < to then [Entry(Range(from, to), m.Subrange(from, to))] else []
  }

  lemma CutLooks(m: Mapping, from: nat, to: nat, x: nat)
    requires MappingOk(m) && m.km.start <= from && to <= m.km.end && Aligned(from) && Aligned(to)
    ensures Valid(Cut(m, from, to))
    ensures Look(Cut(m, from, to), x) == if from <= x < to then Some(ViewOf(m, x)) else None
    ensures Covered(Cut(m, from, to), x) <==> from <= x < to
  {
    hide Look;
    var cut := Cut(m, from, to);
    if from < to {
      AlignedSum(m.km.offset, from, m.km.start);
      assert cut[0].key.Has(x) <==> from <= x < to;
    }
    if from <= x < to {
      LookHit(cut, 0, x);
    } else {
      LookMiss(cut, x);
    }
  }

  lemma AlignedSum(a: nat, b: nat, c: nat)
    requires Aligned(a) && Aligned(b) && Aligned(c) && c <= b
    ensures Aligned(a + (b - c))
  {
  }

  /** Replacing one entry by pieces within its range changes lookups in that range only. */
  lemma ReplaceEntry(mem: Memory, i: nat, pieces: Memory)
    requires Valid(mem) && i < |mem| && Valid(pieces)
    requires forall k | 0 <= k < |pieces| :: mem[i].key.Contains(pieces[k].key)
    ensures Valid(mem[..i] + pieces + mem[i + 1..])
    ensures forall x: nat :: Look(mem[..i] + pieces + mem[i + 1..], x) ==
                             if mem[i].key.Has(x) then Look(pieces, x) else Look(mem, x)
  {
    hide Look, MappingOk;
    var a, b := mem[..i], mem[i + 1..];
    var new' := a + pieces + b;
    assert mem == a + [mem[i]] + b;
    assert Valid(new');
    forall x: nat
      ensures Look(new', x) == if mem[i].key.Has(x) then Look(pieces, x) else Look(mem, x)
    {
      ReplaceLook(mem, i, pieces, x);
    }
  }

  lemma ReplaceLook(mem: Memory, i: nat, pieces: Memory, x: nat)
    requires Valid(mem) && i < |mem| && Valid(pieces) && Valid(mem[..i] + pieces + mem[i + 1..])
    requires forall k | 0 <= k < |pieces| :: mem[i].key.Contains(pieces[k].key)
    ensures Look(mem[..i] + pieces + mem[i + 1..], x) == if mem[i].key.Has(x) then Look(pieces, x) else Look(mem, x)
  {
    hide Look, MappingOk;
    var a, b := mem[..i], mem[i + 1..];
    var new' := a + pieces + b;
    assert mem == a + [mem[i]] + b;
    LookJoin(a + pieces, b, x);
    LookJoin(a, pieces, x) by { ValidParts(a + pieces, b); }
    LookJoin(a + [mem[i]], b, x);
    LookJoin(a, [mem[i]], x) by { ValidParts(a + [mem[i]], b); }
    if mem[i].key.Has(x) {
      assert [mem[i]][0].key.Has(x);
      assert Covered([mem[i]], x);
      LookCovered(pieces, x);
      LookCovered(b, x) by { ValidParts(a + pieces, b); }
    } else {
      assert !Covered([mem[i]], x);
      assert !Covered(pieces, x);
    }
  }
}
