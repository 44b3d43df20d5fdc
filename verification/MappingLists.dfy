/**
 * The operations of AddressSpace on the list of its mappings, whole and at once: what is cut out, put
 * in, protected and merged, field by field.
 */
module MappingLists {
  import opened Prelude
  import opened MemoryRanges
  import opened MemoryMaps

  predicate Keyed(e: Entry) { MappingOk(e.value) && e.key == e.value.km.Extent() }

  predicate AllKeyed(mem: Memory) { forall i | 0 <= i < |mem| :: Keyed(mem[i]) }

  lemma ValidKeyed(mem: Memory)
    requires Valid(mem)
    ensures AllKeyed(mem)
  {
  }

  lemma KeyedParts(a: Memory, b: Memory)
    ensures AllKeyed(a + b) <==> AllKeyed(a) && AllKeyed(b)
  {
    hide Keyed;
    if AllKeyed(a + b) {
      assert forall i | 0 <= i < |a| :: a[i] == (a + b)[i];
      assert forall i | 0 <= i < |b| :: b[i] == (a + b)[|a| + i];
    }
  }

  lemma CutKeyed(m: Mapping, from: nat, to: nat)
    requires MappingOk(m) && m.km.start <= from && to <= m.km.end && Aligned(from) && Aligned(to)
    ensures m.km.start == m.recorded.start && AllKeyed(Cut(m, from, to))
  {
    CutLooks(m, from, to, 0);
  }

  // ---- cutting out

  /** What is left of an entry when [lo, hi) is cut out. */
  function Remains(e: Entry, lo: nat, hi: nat): Memory
    requires Keyed(e)
  {
    if e.key.end <= lo || hi <= e.key.start || hi <= lo then [e]
    else Cut(e.value, e.key.start, lo) + Cut(e.value, hi, e.key.end)
  }

  function Outside(mem: Memory, lo: nat, hi: nat): Memory
    requires AllKeyed(mem)
  {
    if mem == [] then [] else Remains(mem[0], lo, hi) + Outside(mem[1..], lo, hi)
  }

  lemma RemainsKeyed(e: Entry, lo: nat, hi: nat)
    requires Keyed(e) && Aligned(lo) && Aligned(hi)
    ensures AllKeyed(Remains(e, lo, hi))
  {
    hide Cut, Aligned;
    if !(e.key.end <= lo || hi <= e.key.start || hi <= lo) {
      assert Aligned(e.key.start) && Aligned(e.key.end);
      CutKeyed(e.value, e.key.start, lo);
      CutKeyed(e.value, hi, e.key.end);
      KeyedParts(Cut(e.value, e.key.start, lo), Cut(e.value, hi, e.key.end));
    }
  }

  lemma {:induction false} OutsideKeyed(mem: Memory, lo: nat, hi: nat)
    requires AllKeyed(mem) && Aligned(lo) && Aligned(hi)
    ensures AllKeyed(Outside(mem, lo, hi))
  {
    hide Keyed, Remains, Aligned;
    if mem != [] {
      RemainsKeyed(mem[0], lo, hi);
      OutsideKeyed(mem[1..], lo, hi);
      KeyedParts(Remains(mem[0], lo, hi), Outside(mem[1..], lo, hi));
    }
  }

  lemma {:induction false} OutsideJoin(a: Memory, b: Memory, lo: nat, hi: nat)
    requires AllKeyed(a) && AllKeyed(b)
    ensures AllKeyed(a + b) && Outside(a + b, lo, hi) == Outside(a, lo, hi) + Outside(b, lo, hi)
  {
    hide Keyed, Remains;
    KeyedParts(a, b);
    if a == [] {
      assert a + b == b;
    } else {
      assert (a + b)[1..] == a[1..] + b;
      OutsideJoin(a[1..], b, lo, hi);
    }
  }

  lemma {:induction false} OutsideApart(mem: Memory, lo: nat, hi: nat)
    requires AllKeyed(mem)
    requires hi <= lo || forall i | 0 <= i < |mem| :: mem[i].key.end <= lo || hi <= mem[i].key.start
    ensures Outside(mem, lo, hi) == mem
  {
    hide Keyed;
    if mem != [] {
      assert forall i | 0 <= i < |mem[1..]| :: mem[1..][i] == mem[i + 1];
      OutsideApart(mem[1..], lo, hi);
    }
  }

  lemma OutsideSingle(e: Entry, lo: nat, hi: nat)
    requires Keyed(e)
    ensures AllKeyed([e]) && Outside([e], lo, hi) == Remains(e, lo, hi)
  {
    assert Outside([], lo, hi) == [];
    assert Outside([e], lo, hi) == Remains(e, lo, hi) + Outside([e][1..], lo, hi);
  }

  /** Cutting on where the last cut ended. */
  lemma RemainsTwice(e: Entry, a: nat, b: nat, c: nat)
    requires Keyed(e) && Aligned(a) && Aligned(b) && Aligned(c) && a <= b <= c
    ensures AllKeyed(Remains(e, a, b)) && Outside(Remains(e, a, b), b, c) == Remains(e, a, c)
  {
    hide Aligned;
    RemainsKeyed(e, a, b);
    if e.key.end <= a || b <= e.key.start || b <= a {
      OutsideSingle(e, b, c);
    } else {
      var m := e.value;
      var under, over := Cut(m, e.key.start, a), Cut(m, b, e.key.end);
      KeyedParts(under, over);
      OutsideJoin(under, over, b, c);
      OutsideApart(under, b, c);
      if b < e.key.end {
        OutsideSingle(over[0], b, c);
        CutTwice(m, b, c);
        assert over == [over[0]];
      } else {
        assert Cut(m, c, e.key.end) == [];
      }
    }
  }

  lemma CutTwice(m: Mapping, b: nat, c: nat)
    requires MappingOk(m) && m.km.start <= b <= c && b < m.km.end
    ensures m.km.start == m.recorded.start
    ensures Cut(m.Subrange(b, m.km.end), c, m.km.end) == Cut(m, c, m.km.end)
  {
  }

  lemma {:induction false} OutsideTwice(mem: Memory, a: nat, b: nat, c: nat)
    requires AllKeyed(mem) && Aligned(a) && Aligned(b) && Aligned(c) && a <= b <= c
    ensures AllKeyed(Outside(mem, a, b)) && Outside(Outside(mem, a, b), b, c) == Outside(mem, a, c)
  {
    hide Keyed, Remains, Aligned;
    if mem != [] {
      OutsideKeyed(mem, a, b);
      OutsideKeyed(mem[1..], a, b);
      RemainsTwice(mem[0], a, b, c);
      OutsideTwice(mem[1..], a, b, c);
      OutsideJoin(Remains(mem[0], a, b), Outside(mem[1..], a, b), b, c);
    }
  }

  /** Cutting where only entry `i` is in the way. */
  lemma OutsideOne(mem: Memory, i: nat, lo: nat, hi: nat)
    requires Valid(mem) && i < |mem| && AllKeyed(mem) && (forall k | 0 <= k < i :: mem[k].key.end <= lo)
    requires lo < mem[i].key.end && mem[i].key.start < hi && lo < hi
    ensures Keyed(mem[i]) && mem[i].value.km.start == mem[i].value.recorded.start
    ensures Outside(mem, lo, Min(mem[i].key.end, hi)) ==
              mem[..i]
              + (Cut(mem[i].value, mem[i].key.start, lo) + Cut(mem[i].value, hi, mem[i].key.end))
              + mem[i + 1..]
  {
    hide Remains;
    var a, e, b, to := mem[..i], mem[i], mem[i + 1..], Min(mem[i].key.end, hi);
    assert mem == a + [e] + b;
    KeyedParts(a + [e], b);
    KeyedParts(a, [e]);
    OutsideJoin(a + [e], b, lo, to);
    OutsideJoin(a, [e], lo, to);
    OutsideSingle(e, lo, to);
    OutsideApart(a, lo, to);
    OutsideApart(b, lo, to);
    RemainsAre(e, lo, hi);
  }

  lemma RemainsAre(e: Entry, lo: nat, hi: nat)
    requires Keyed(e) && lo < e.key.end && e.key.start < hi && lo < hi
    ensures e.value.km.start == e.value.recorded.start
    ensures Remains(e, lo, Min(e.key.end, hi)) == Cut(e.value, e.key.start, lo) + Cut(e.value, hi, e.key.end)
  {
  }

  // ---- protecting

  /** An entry with the protection of [lo, hi) changed: up to three entries. */
  function Recut(e: Entry, lo: nat, hi: nat, prot: nat): Memory
    requires Keyed(e)
  {
    if e.key.end <= lo || hi <= e.key.start || hi <= lo then [e]
    else
      var from, to := Max(e.key.start, lo), Min(e.key.end, hi);
      var part := e.value.Subrange(from, to);
      Cut(e.value, e.key.start, from)
      + [Entry(Range(from, to), Mapping(part.km.(prot := prot), part.recorded.(prot := prot), part.flags))]
      + Cut(e.value, to, e.key.end)
  }

  function Protected(mem: Memory, lo: nat, hi: nat, prot: nat): Memory
    requires AllKeyed(mem)
  {
    if mem == [] then [] else Recut(mem[0], lo, hi, prot) + Protected(mem[1..], lo, hi, prot)
  }

  lemma {:induction false} ProtectedJoin(a: Memory, b: Memory, lo: nat, hi: nat, prot: nat)
    requires AllKeyed(a) && AllKeyed(b)
    ensures AllKeyed(a + b) && Protected(a + b, lo, hi, prot) == Protected(a, lo, hi, prot) + Protected(b, lo, hi, prot)
  {
    hide Keyed, Recut;
    KeyedParts(a, b);
    if a == [] {
      assert a + b == b;
    } else {
      assert (a + b)[1..] == a[1..] + b;
      ProtectedJoin(a[1..], b, lo, hi, prot);
    }
  }

  lemma {:induction false} ProtectedApart(mem: Memory, lo: nat, hi: nat, prot: nat)
    requires AllKeyed(mem)
    requires hi <= lo || forall i | 0 <= i < |mem| :: mem[i].key.end <= lo || hi <= mem[i].key.start
    ensures Protected(mem, lo, hi, prot) == mem
  {
    hide Keyed;
    if mem != [] {
      assert forall i | 0 <= i < |mem[1..]| :: mem[1..][i] == mem[i + 1];
      ProtectedApart(mem[1..], lo, hi, prot);
    }
  }

  lemma ProtectedSingle(e: Entry, lo: nat, hi: nat, prot: nat)
    requires Keyed(e)
    ensures AllKeyed([e]) && Protected([e], lo, hi, prot) == Recut(e, lo, hi, prot)
  {
    assert Protected([], lo, hi, prot) == [];
    assert Protected([e], lo, hi, prot) == Recut(e, lo, hi, prot) + Protected([e][1..], lo, hi, prot);
  }

  lemma RecutKeyed(e: Entry, lo: nat, hi: nat, prot: nat)
    requires Keyed(e) && Aligned(lo) && Aligned(hi)
    ensures AllKeyed(Recut(e, lo, hi, prot))
  {
    hide Aligned, Cut;
    if !(e.key.end <= lo || hi <= e.key.start || hi <= lo) {
      var from, to := Max(e.key.start, lo), Min(e.key.end, hi);
      assert Aligned(e.key.start) && Aligned(e.key.end);
      CutKeyed(e.value, e.key.start, from);
      CutKeyed(e.value, to, e.key.end);
      AlignedSum(e.value.km.offset, from, e.key.start);
      var part := e.value.Subrange(from, to);
      var mid := [Entry(Range(from, to), Mapping(part.km.(prot := prot), part.recorded.(prot := prot), part.flags))];
      KeyedParts(Cut(e.value, e.key.start, from), mid);
      KeyedParts(Cut(e.value, e.key.start, from) + mid, Cut(e.value, to, e.key.end));
    }
  }

  lemma {:induction false} ProtectedKeyed(mem: Memory, lo: nat, hi: nat, prot: nat)
    requires AllKeyed(mem) && Aligned(lo) && Aligned(hi)
    ensures AllKeyed(Protected(mem, lo, hi, prot))
  {
    hide Keyed, Recut, Aligned;
    if mem != [] {
      RecutKeyed(mem[0], lo, hi, prot);
      ProtectedKeyed(mem[1..], lo, hi, prot);
      KeyedParts(Recut(mem[0], lo, hi, prot), Protected(mem[1..], lo, hi, prot));
    }
  }

  predicate Crosses(e: Entry, at: nat) { e.key.start < at < e.key.end }

  lemma RecutTwice(e: Entry, a: nat, b: nat, c: nat, prot: nat)
    requires Keyed(e) && Aligned(a) && Aligned(b) && Aligned(c) && a <= b <= c && !Crosses(e, b)
    ensures AllKeyed(Recut(e, a, b, prot)) && Protected(Recut(e, a, b, prot), b, c, prot) == Recut(e, a, c, prot)
  {
    hide Aligned;
    RecutKeyed(e, a, b, prot);
    if e.key.end <= a || b <= e.key.start || b <= a {
      ProtectedSingle(e, b, c, prot);
    } else {
      ProtectedApart(Recut(e, a, b, prot), b, c, prot);
    }
  }

  lemma {:induction false} ProtectedTwice(mem: Memory, a: nat, b: nat, c: nat, prot: nat)
    requires AllKeyed(mem) && Aligned(a) && Aligned(b) && Aligned(c) && a <= b <= c
    requires forall i | 0 <= i < |mem| :: !Crosses(mem[i], b)
    ensures AllKeyed(Protected(mem, a, b, prot))
    ensures Protected(Protected(mem, a, b, prot), b, c, prot) == Protected(mem, a, c, prot)
  {
    hide Keyed, Recut, Aligned, Crosses;
    if mem != [] {
      ProtectedKeyed(mem, a, b, prot);
      ProtectedKeyed(mem[1..], a, b, prot);
      RecutTwice(mem[0], a, b, c, prot);
      ProtectedTwice(mem[1..], a, b, c, prot);
      ProtectedJoin(Recut(mem[0], a, b, prot), Protected(mem[1..], a, b, prot), b, c, prot);
    }
  }

  /** Entries behind the protected part are as they were. */
  lemma {:induction false} ProtectedBehind(mem: Memory, lo: nat, hi: nat, prot: nat, e: Entry)
    requires AllKeyed(mem) && (forall i | 0 <= i < |mem| :: !Crosses(mem[i], hi))
    requires e in Protected(mem, lo, hi, prot) && hi <= e.key.start
    ensures e in mem
  {
    hide Keyed;
    if e in Recut(mem[0], lo, hi, prot) {
      RecutBehind(mem[0], lo, hi, prot, e);
    } else {
      ProtectedBehind(mem[1..], lo, hi, prot, e);
    }
  }

  lemma RecutBehind(o: Entry, lo: nat, hi: nat, prot: nat, e: Entry)
    requires Keyed(o) && !Crosses(o, hi) && e in Recut(o, lo, hi, prot) && hi <= e.key.start
    ensures e == o
  {
  }

  /** Protecting where only entry `i` is in the way. */
  lemma ProtectedOne(mem: Memory, i: nat, lo: nat, hi: nat, prot: nat)
    requires Valid(mem) && i < |mem| && AllKeyed(mem) && mem[i].key.start <= lo < hi <= mem[i].key.end
    ensures Protected(mem, lo, hi, prot) == mem[..i] + Recut(mem[i], lo, hi, prot) + mem[i + 1..]
  {
    hide Recut;
    var a, e, b := mem[..i], mem[i], mem[i + 1..];
    assert mem == a + [e] + b;
    KeyedParts(a + [e], b);
    KeyedParts(a, [e]);
    ProtectedJoin(a + [e], b, lo, hi, prot);
    ProtectedJoin(a, [e], lo, hi, prot);
    ProtectedSingle(e, lo, hi, prot);
    ProtectedApart(a, lo, hi, prot);
    ProtectedApart(b, lo, hi, prot);
  }

  // ---- merging

  /** `r` goes on where `l` ends, in memory and in its file, with the same attributes. */
  predicate Continues(l: KernelMapping, r: KernelMapping, sameName: (string, string) -> bool) {
    && r.start == l.end && r.prot == l.prot && r.flags == l.flags
    && r.device == l.device && r.inode == l.inode && sameName(l.fsname, r.fsname)
    && (l.device > 0 ==> r.offset == l.offset + (l.end - l.start))
  }

  /** Both as it is mapped and as it was recorded, with the same flags of rr's own. */
  predicate Joins(l: Mapping, r: Mapping, sameName: (string, string) -> bool) {
    Continues(l.km, r.km, sameName) && Continues(l.recorded, r.recorded, sameName) && r.flags == l.flags
  }

  /** The first of the longest run of joining entries around `at`. */
  function RunFirst(mem: Memory, at: nat, sameName: (string, string) -> bool): (first: nat)
    requires at < |mem|
    ensures first <= at
  {
    if 0 < at && Joins(mem[at - 1].value, mem[at].value, sameName) then RunFirst(mem, at - 1, sameName) else at
  }

  function RunLast(mem: Memory, at: nat, sameName: (string, string) -> bool): (last: nat)
    requires at < |mem|
    ensures at <= last < |mem|
    decreases |mem| - at
  {
    if at + 1 < |mem| && Joins(mem[at].value, mem[at + 1].value, sameName) then RunLast(mem, at + 1, sameName) else at
  }

  /** Neighbours in the run join, and neither end of it joins what is beyond. */
  lemma LongestRun(mem: Memory, at: nat, sameName: (string, string) -> bool)
    requires at < |mem|
    ensures var first, last := RunFirst(mem, at, sameName), RunLast(mem, at, sameName);
            && first <= at <= last < |mem|
            && (forall k | first < k <= last :: Joins(mem[k - 1].value, mem[k].value, sameName))
            && (0 < first ==> !Joins(mem[first - 1].value, mem[first].value, sameName))
            && (last + 1 < |mem| ==> !Joins(mem[last].value, mem[last + 1].value, sameName))
  {
    hide Joins;
    LongestDown(mem, at, sameName);
    LongestUp(mem, at, sameName);
  }

  lemma {:induction false} LongestDown(mem: Memory, at: nat, sameName: (string, string) -> bool)
    requires at < |mem|
    ensures var first := RunFirst(mem, at, sameName);
            && (forall k | first < k <= at :: Joins(mem[k - 1].value, mem[k].value, sameName))
            && (0 < first ==> !Joins(mem[first - 1].value, mem[first].value, sameName))
  {
    hide Joins;
    if 0 < at && Joins(mem[at - 1].value, mem[at].value, sameName) {
      LongestDown(mem, at - 1, sameName);
    }
  }

  lemma {:induction false} LongestUp(mem: Memory, at: nat, sameName: (string, string) -> bool)
    requires at < |mem|
    ensures var last := RunLast(mem, at, sameName);
            && (forall k | at < k <= last :: Joins(mem[k - 1].value, mem[k].value, sameName))
            && (last + 1 < |mem| ==> !Joins(mem[last].value, mem[last + 1].value, sameName))
    decreases |mem| - at
  {
    hide Joins;
    if at + 1 < |mem| && Joins(mem[at].value, mem[at + 1].value, sameName) {
      LongestUp(mem, at + 1, sameName);
    }
  }

  /** The run in one entry: from the first one's start to the last one's end, with the first one's fields. */
  function Coalesced(mem: Memory, at: nat, sameName: (string, string) -> bool): Memory
    requires at < |mem|
  {
    var first, last := RunFirst(mem, at, sameName), RunLast(mem, at, sameName);
    var m, end := mem[first].value, mem[last].key.end;
    mem[..first]
    + [Entry(Range(mem[first].key.start, end), Mapping(m.km.(end := end), m.recorded.(end := end), m.flags))]
    + mem[last + 1..]
  }

  // ---- putting in

  /** How many entries end at or before `a`. */
  function Position(mem: Memory, a: nat): (j: nat)
    ensures j <= |mem| && (forall k | 0 <= k < j :: mem[k].key.end <= a) && (j < |mem| ==> a < mem[j].key.end)
  {
    if mem == [] || a < mem[0].key.end then 0 else 1 + Position(mem[1..], a)
  }

  /** A mapping put where there is room for it, and merged with its neighbours. */
  function Placed(mem: Memory, m: Mapping, sameName: (string, string) -> bool): Memory {
    var j := Position(mem, m.km.start);
    Coalesced(mem[..j] + [Entry(m.km.Extent(), m)] + mem[j..], j, sameName)
  }

  /** The mapping at `from` put elsewhere, in another length, without rr's own flags, both places being cut out. */
  function Moved(mem: Memory, from: nat, numBytes: nat, to: nat, newNumBytes: nat,
                 sameName: (string, string) -> bool): Memory
    requires AllKeyed(mem) && Aligned(from) && Aligned(to)
  {
    var i, left := Position(mem, from), Outside(mem, from, from + CeilPage(numBytes));
    AlignedSum(from, CeilPage(numBytes), 0);
    OutsideKeyed(mem, from, from + CeilPage(numBytes));
    if newNumBytes == 0 || i == |mem| || from < mem[i].key.start then left
    else
      var m, end := mem[i].value, to + CeilPage(newNumBytes);
      var km := m.km.(start := to, end := end,
                      offset := if m.km.device > 0 then m.km.offset + (from - m.km.start) else m.km.offset);
      Placed(Outside(left, to, end), Mapping(km, m.recorded.(start := to, end := end), 0), sameName)
  }
}
