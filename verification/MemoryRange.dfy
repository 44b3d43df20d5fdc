/** Ranges of addresses, and page arithmetic. */
module MemoryRanges {
  import opened Prelude

  const PAGE: nat := 4096

  function FloorPage(a: nat): (r: nat)
    ensures r <= a < r + PAGE && Aligned(r)
  {
    a / PAGE * PAGE
  }

  function CeilPage(a: nat): (r: nat)
    ensures a <= r < a + PAGE && Aligned(r)
  {
    (a + PAGE - 1) / PAGE * PAGE
  }

  predicate Aligned(a: nat) { a % PAGE == 0 }

  datatype Range = Range(start: nat, end: nat) {
    predicate Has(a: nat) { start <= a < end }

    predicate Contains(o: Range) { start <= o.start && o.end <= end }

    function Size(): int { end - start }

    /** True exactly when some address lies in both ranges. */
    predicate Intersects(o: Range): (r: bool)
      ensures r <==> exists a: nat :: Has(a) && o.Has(a)
    {
      var s, e := Max(start, o.start), Min(end, o.end);
      assert s < e ==> Has(s) && o.Has(s);
      s < e
    }

    /** The addresses that lie in both ranges. */
    function Intersect(o: Range): (r: Range)
      ensures forall a: nat :: r.Has(a) <==> Has(a) && o.Has(a)
    {
      var s, e := Max(start, o.start), Min(end, o.end);
      Range(s, Max(s, e))
    }

    /** The order of the memory map: overlapping ranges are equivalent. */
    predicate Before(o: Range) { !Intersects(o) && start < o.start }
  }
}
