/**
 * gdb's memory search: page by page, overlapping the pages by the length of the pattern, over
 * mappings some of whose pages may not be readable.
 */
module SearchMemory {
  import opened Prelude
  import opened MemoryRanges

  /** The bytes that can be read. */
  type Bytes = map<nat, byte>

  /** Whole pages are readable or not, and readable bytes are mapped. */
  ghost predicate Paged(mem: Bytes, maps: seq<Range>) {
    && (forall a, b: nat :: a in mem && FloorPage(a) == FloorPage(b) ==> b in mem)
    && (forall a :: a in mem ==> exists i :: 0 <= i < |maps| && maps[i].Has(a))
  }

  predicate Ordered(maps: seq<Range>) {
    && (forall i :: 0 <= i < |maps| ==> maps[i].start <= maps[i].end)
    && (forall i, j :: 0 <= i < j < |maps| ==> maps[i].end <= maps[j].start)
  }

  // ---- the naive search

  predicate Occurs(mem: Bytes, find: seq<byte>, a: nat) {
    forall x :: a <= x < a + |find| ==> x in mem && mem[x] == find[x - a]
  }

  predicate IsMatch(mem: Bytes, find: seq<byte>, where: Range, a: nat) {
    where.start <= a && a + |find| <= where.end && Occurs(mem, find, a)
  }

  /** The lowest match, or none at all. */
  ghost predicate IsLowest(mem: Bytes, find: seq<byte>, where: Range, result: Option<nat>) {
    match result
    case None => forall a :: !IsMatch(mem, find, where, a)
    case Some(r) => IsMatch(mem, find, where, r) && forall a: nat :: a < r ==> !IsMatch(mem, find, where, a)
  }

  // ---- reading and searching a window

  /** As many bytes as can be read from `addr` on, at most `n`. */
  method ReadBytesFallible(mem: Bytes, addr: nat, n: nat) returns (buf: seq<byte>)
    ensures |buf| <= n
    ensures forall x :: addr <= x < addr + |buf| ==> x in mem && mem[x] == buf[x - addr]
    ensures |buf| < n ==> addr + |buf| !in mem
  {
    buf := [];
    while |buf| < n && addr + |buf| in mem
      invariant |buf| <= n
      invariant forall x :: addr <= x < addr + |buf| ==> x in mem && mem[x] == buf[x - addr]
      decreases n - |buf|
    {
      buf := buf + [mem[addr + |buf|]];
    }
  }

  predicate At(buf: seq<byte>, find: seq<byte>, i: nat) {
    i + |find| <= |buf| && forall j :: i <= j < i + |find| ==> buf[j] == find[j - i]
  }

  /** The first place of `find` in `buf`. */
  method MemMem(buf: seq<byte>, find: seq<byte>) returns (r: Option<nat>)
    ensures r.Some? ==> At(buf, find, r.value) && forall i: nat :: i < r.value ==> !At(buf, find, i)
    ensures r.None? ==> forall i :: !At(buf, find, i)
  {
    var i: nat := 0;
    while i + |find| <= |buf|
      invariant forall j: nat :: j < i ==> !At(buf, find, j)
      decreases |buf| - i
    {
      SliceAt(buf, find, i);
      if buf[i..i + |find|] == find {
        return Some(i);
      }
      i := i + 1;
    }
    return None;
  }

  lemma SliceAt(buf: seq<byte>, find: seq<byte>, i: nat)
    requires i + |find| <= |buf|
    ensures At(buf, find, i) <==> buf[i..i + |find|] == find
  {
    if buf[i..i + |find|] == find {
      forall j | i <= j < i + |find|
        ensures buf[j] == find[j - i]
      {
        assert buf[i..i + |find|][j - i] == find[j - i];
      }
    }
  }

  lemma WindowMatch(mem: Bytes, find: seq<byte>, start: nat, buf: seq<byte>, i: nat)
    requires forall x :: start <= x < start + |buf| ==> x in mem && mem[x] == buf[x - start]
    requires i + |find| <= |buf|
    ensures At(buf, find, i) <==> Occurs(mem, find, start + i)
  {
    if Occurs(mem, find, start + i) {
      forall j | i <= j < i + |find|
        ensures buf[j] == find[j - i]
      {
        assert start + j in mem;
      }
    }
  }

  /** A match that begins on the page of `start` lies wholly in what is read from `start`. */
  lemma MatchIsRead(mem: Bytes, maps: seq<Range>, find: seq<byte>, r: Range, buf: seq<byte>, a: nat)
    requires Paged(mem, maps) && find != [] && r.start <= a < FloorPage(r.start) + PAGE && a + |find| <= r.end
    requires Occurs(mem, find, a)
    requires |buf| <= Min(PAGE + |find| - 1, r.end - r.start)
    requires |buf| < Min(PAGE + |find| - 1, r.end - r.start) ==> r.start + |buf| !in mem
    ensures a - r.start + |find| <= |buf|
  {
    forall b: nat | r.start <= b < a + |find|
      ensures b in mem
    {
      if b < a {
        assert a in mem;
        SamePage(r.start, a);
        SamePage(r.start, b);
      }
    }
  }

  lemma SamePage(a: nat, b: nat)
    requires a <= b < FloorPage(a) + PAGE
    ensures FloorPage(a) == FloorPage(b)
  {
  }

  // ---- the search

  /** No match begins in [lo, hi) and ends by `end`. */
  ghost predicate Clear(mem: Bytes, find: seq<byte>, lo: nat, hi: nat, end: nat) {
    forall a: nat :: lo <= a < hi && a + |find| <= end ==> !Occurs(mem, find, a)
  }

  /** Look at one window: the lowest match in it, or the certainty that none begins on its first page. */
  method SearchWindow(mem: Bytes, ghost maps: seq<Range>, find: seq<byte>, r: Range) returns (result: Option<nat>)
    requires Paged(mem, maps) && find != [] && r.start + |find| <= r.end
    ensures result.None? ==> Clear(mem, find, r.start, FloorPage(r.start) + PAGE, r.end)
    ensures result.Some? ==>
              r.start <= result.value && result.value + |find| <= r.end && Occurs(mem, find, result.value)
    ensures result.Some? ==> Clear(mem, find, r.start, result.value, r.end)
  {
    hide Occurs, Paged, At, FloorPage;
    var buf := ReadBytesFallible(mem, r.start, Min(PAGE + |find| - 1, r.Size()));
    result := None;
    if |buf| >= |find| {
      var found := MemMem(buf, find);
      if found.Some? {
        result := Some(r.start + found.value);
        InBuffer(buf, find, found.value);
        WindowMatch(mem, find, r.start, buf, found.value);
        forall a: nat | r.start <= a < result.value && a + |find| <= r.end
          ensures !Occurs(mem, find, a)
        {
          WindowMatch(mem, find, r.start, buf, a - r.start);
        }
        return;
      }
    }
    forall a: nat | r.start <= a < FloorPage(r.start) + PAGE && a + |find| <= r.end
      ensures !Occurs(mem, find, a)
    {
      if Occurs(mem, find, a) {
        MatchIsRead(mem, maps, find, r, buf, a);
        WindowMatch(mem, find, r.start, buf, a - r.start);
      }
    }
  }

  lemma InBuffer(buf: seq<byte>, find: seq<byte>, i: nat)
    requires At(buf, find, i)
    ensures i + |find| <= |buf|
  {
  }

  /** Window after window through a range. */
  method SearchRange(mem: Bytes, ghost maps: seq<Range>, find: seq<byte>, range: Range) returns (result: Option<nat>)
    requires Paged(mem, maps) && find != [] && range.start <= range.end
    ensures result.None? ==> Clear(mem, find, range.start, range.end, range.end)
    ensures result.Some? ==>
              range.start <= result.value && result.value + |find| <= range.end && Occurs(mem, find, result.value)
    ensures result.Some? ==> Clear(mem, find, range.start, result.value, range.end)
  {
    hide Occurs, Paged;
    var r := range;
    while r.Size() >= |find|
      invariant range.start <= r.start <= r.end == range.end
      invariant Clear(mem, find, range.start, r.start, range.end)
      decreases r.end - r.start
    {
      result := SearchWindow(mem, maps, find, r);
      if result.Some? {
        return;
      }
      r := Range(Min(r.end, FloorPage(r.start) + PAGE), r.end);
    }
    return None;
  }

  /** The page-by-page search finds exactly what a byte-by-byte search would: the lowest match, if any. */
  method Search(mem: Bytes, maps: seq<Range>, find: seq<byte>, where: Range) returns (result: Option<nat>)
    requires Paged(mem, maps) && Ordered(maps) && find != [] && where.start <= where.end
    ensures IsLowest(mem, find, where, result)
  {
    hide Occurs, Paged;
    for i := 0 to |maps|
      invariant forall j, a: nat :: 0 <= j < i && maps[j].Has(a) ==> !IsMatch(mem, find, where, a)
    {
      var r := Range(maps[i].start, maps[i].end + |find| - 1).Intersect(where);
      result := SearchRange(mem, maps, find, r);
      BeginsHere(mem, find, where, maps[i], r);
      if result.Some? {
        Lowest(mem, maps, find, where, i, r, result.value);
        return;
      }
    }
    MatchesAreMapped(mem, maps, find, where);
    return None;
  }

  /** The part of the range that belongs to a mapping holds just the matches that begin in the mapping. */
  lemma BeginsHere(mem: Bytes, find: seq<byte>, where: Range, m: Range, r: Range)
    requires find != [] && r == Range(m.start, m.end + |find| - 1).Intersect(where) && m.start <= m.end
    ensures forall a: nat :: m.Has(a) && IsMatch(mem, find, where, a) ==> r.start <= a && a + |find| <= r.end
    ensures forall a: nat :: r.start <= a && a + |find| <= r.end && Occurs(mem, find, a) ==>
              m.Has(a) && IsMatch(mem, find, where, a)
  {
    hide Occurs;
  }

  lemma MatchesAreMapped(mem: Bytes, maps: seq<Range>, find: seq<byte>, where: Range)
    requires Paged(mem, maps) && find != []
    ensures forall a: nat :: IsMatch(mem, find, where, a) ==> exists i :: 0 <= i < |maps| && maps[i].Has(a)
  {
    forall a: nat | IsMatch(mem, find, where, a)
      ensures exists i :: 0 <= i < |maps| && maps[i].Has(a)
    {
      assert a in mem;
    }
  }

  lemma Lowest(mem: Bytes, maps: seq<Range>, find: seq<byte>, where: Range, i: nat, r: Range, x: nat)
    requires Paged(mem, maps) && Ordered(maps) && find != [] && i < |maps|
    requires forall j, a: nat :: 0 <= j < i && maps[j].Has(a) ==> !IsMatch(mem, find, where, a)
    requires forall a: nat :: maps[i].Has(a) && IsMatch(mem, find, where, a) ==> r.start <= a && a + |find| <= r.end
    requires maps[i].Has(x) && IsMatch(mem, find, where, x) && Clear(mem, find, r.start, x, r.end)
    ensures IsLowest(mem, find, where, Some(x))
  {
    hide Occurs, Paged;
    MatchesAreMapped(mem, maps, find, where);
    forall a: nat | a < x
      ensures !IsMatch(mem, find, where, a)
    {
      forall j | 0 <= j < |maps| && maps[j].Has(a)
        ensures !IsMatch(mem, find, where, a)
      {
      }
    }
  }
}
