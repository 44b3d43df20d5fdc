/**
 * The ranges a fork leaves out: `add_range` and `remove_range` on an ordered set of ranges. The set
 * is meant to be a set of addresses kept as disjoint ranges.
 */
module DontFork {
  import opened MemoryRanges

  /** The order of the set: by start, then by end. */
  predicate Less(a: Range, b: Range) { a.start < b.start || (a.start == b.start && a.end < b.end) }

  predicate Sorted(rs: seq<Range>) { forall i, j :: 0 <= i < j < |rs| ==> Less(rs[i], rs[j]) }

  predicate Separate(rs: seq<Range>) {
    && (forall i :: 0 <= i < |rs| ==> rs[i].start < rs[i].end)
    && forall i, j :: 0 <= i < j < |rs| ==> rs[i].end <= rs[j].start
  }

  predicate Covered(rs: seq<Range>, x: nat) { exists i :: 0 <= i < |rs| && rs[i].Has(x) }

  predicate Meet(a: Range, b: Range) { a.start < a.end && b.start < b.end && a.start < b.end && b.start < a.end }

  /** No range that the set orders before the given one reaches into it. */
  predicate Clear(rs: seq<Range>, range: Range) {
    forall i :: 0 <= i < |rs| && Less(rs[i], range) ==> !Meet(rs[i], range)
  }

  /** The first position from `k` on that is not before the range. */
  function LowerBound(rs: seq<Range>, range: Range, k: nat): (i: nat)
    requires k <= |rs|
    ensures k <= i <= |rs| && (i < |rs| ==> !Less(rs[i], range)) && forall j :: k <= j < i ==> Less(rs[j], range)
    decreases |rs| - k
  {
    if k < |rs| && Less(rs[k], range) then LowerBound(rs, range, k + 1) else k
  }

  /** The first position from `k` on whose range starts at `end` or behind it. */
  function UpTo(rs: seq<Range>, end: nat, k: nat): (i: nat)
    requires k <= |rs|
    ensures k <= i <= |rs| && (i < |rs| ==> end <= rs[i].start) && forall j :: k <= j < i ==> rs[j].start < end
    decreases |rs| - k
  {
    if k < |rs| && rs[k].start < end then UpTo(rs, end, k + 1) else k
  }

  function Insert(rs: seq<Range>, r: Range): seq<Range> {
    var i := LowerBound(rs, r, 0);
    if i < |rs| && rs[i] == r then rs else rs[..i] + [r] + rs[i..]
  }

  lemma InsertSorted(rs: seq<Range>, r: Range)
    requires Sorted(rs)
    ensures Sorted(Insert(rs, r))
  {
    var i, s := LowerBound(rs, r, 0), Insert(rs, r);
    if s != rs {
      forall j | i <= j < |rs|
        ensures Less(r, rs[j])
      {
        assert j == i || Less(rs[i], rs[j]);
      }
      forall j, k | 0 <= j < k < |s|
        ensures Less(s[j], s[k])
      {
        assert s[j] == if j < i then rs[j] else if j == i then r else rs[j - 1];
        assert s[k] == if k < i then rs[k] else if k == i then r else rs[k - 1];
      }
    }
  }

  /** A range put among separate ones keeps them separate exactly if it meets none of them. */
  lemma InsertSeparate(rs: seq<Range>, r: Range)
    requires Separate(rs) && r.start < r.end && r !in rs
    ensures Separate(Insert(rs, r)) <==> forall i :: 0 <= i < |rs| ==> !Meet(rs[i], r)
  {
    hide LowerBound;
    var i, s := LowerBound(rs, r, 0), Insert(rs, r);
    if forall k :: 0 <= k < |rs| ==> !Meet(rs[k], r) {
      forall k | 0 <= k < |rs|
        ensures if k < i then rs[k].end <= r.start else r.end <= rs[k].start
      {
        Side(rs, r, i, k);
      }
      Glue(rs, r, i);
    } else {
      var k :| 0 <= k < |rs| && Meet(rs[k], r);
      assert s[i] == r && s[if k < i then k else k + 1] == rs[k];
    }
  }

  lemma Side(rs: seq<Range>, r: Range, i: nat, k: nat)
    requires Separate(rs) && r.start < r.end && i == LowerBound(rs, r, 0) && k < |rs| && !Meet(rs[k], r)
    ensures if k < i then rs[k].end <= r.start else r.end <= rs[k].start
  {
    if i < k {
      assert rs[i].end <= rs[k].start;
    }
  }

  lemma Glue(rs: seq<Range>, r: Range, i: nat)
    requires Separate(rs) && r.start < r.end && i <= |rs|
    requires forall k :: 0 <= k < |rs| ==> if k < i then rs[k].end <= r.start else r.end <= rs[k].start
    ensures Separate(rs[..i] + [r] + rs[i..])
  {
    var s := rs[..i] + [r] + rs[i..];
    forall j, k | 0 <= j < k < |s|
      ensures s[j].start < s[j].end && s[k].start < s[k].end && s[j].end <= s[k].start
    {
      GluePair(rs, r, i, j, k);
    }
    assert |s| == 1 ==> s[0] == r;
  }

  lemma GluePair(rs: seq<Range>, r: Range, i: nat, j: nat, k: nat)
    requires Separate(rs) && r.start < r.end && i <= |rs| && j < k <= |rs|
    requires j < i ==> rs[j].end <= r.start
    requires i < k ==> r.end <= rs[k - 1].start
    ensures var s := rs[..i] + [r] + rs[i..];
            s[j].start < s[j].end && s[k].start < s[k].end && s[j].end <= s[k].start
  {
    var s := rs[..i] + [r] + rs[i..];
    assert s[j] == if j < i then rs[j] else if j == i then r else rs[j - 1];
    assert s[k] == if k < i then rs[k] else if k == i then r else rs[k - 1];
  }

  lemma InsertCovers(rs: seq<Range>, r: Range, x: nat)
    ensures Covered(Insert(rs, r), x) <==> Covered(rs, x) || r.Has(x)
  {
    var i, s := LowerBound(rs, r, 0), Insert(rs, r);
    if s != rs {
      assert s[i] == r;
      forall k | 0 <= k < |rs|
        ensures rs[k] in s
      {
        assert s[if k < i then k else k + 1] == rs[k];
      }
      forall k | 0 <= k < |s|
        ensures s[k] == r || s[k] in rs
      {
        assert s[k] == if k < i then rs[k] else if k == i then r else rs[k - 1];
      }
    }
  }

  /** What the source's `remove_range` leaves. */
  function Removed(rs: seq<Range>, range: Range): seq<Range> {
    var lo := LowerBound(rs, range, 0);
    var hi := UpTo(rs, range.end, lo);
    if lo == hi then rs
    else
      var kept := rs[..lo] + rs[hi..];
      if range.end < rs[hi - 1].end then Insert(kept, Range(range.end, rs[hi - 1].end)) else kept
  }

  lemma CutSorted(rs: seq<Range>, lo: nat, hi: nat)
    requires lo <= hi <= |rs|
    ensures var kept := rs[..lo] + rs[hi..]; (Sorted(rs) ==> Sorted(kept)) && (Separate(rs) ==> Separate(kept))
  {
    var kept := rs[..lo] + rs[hi..];
    assert forall k :: 0 <= k < |kept| ==> kept[k] == rs[if k < lo then k else k + (hi - lo)];
  }

  lemma CutCovers(rs: seq<Range>, lo: nat, hi: nat, x: nat)
    requires lo <= hi <= |rs|
    ensures Covered(rs[..lo] + rs[hi..], x) <==> exists i :: 0 <= i < |rs| && !(lo <= i < hi) && rs[i].Has(x)
  {
    var kept := rs[..lo] + rs[hi..];
    assert forall k :: 0 <= k < |kept| ==> kept[k] == rs[if k < lo then k else k + (hi - lo)];
    forall i | 0 <= i < |rs| && !(lo <= i < hi)
      ensures rs[i] in kept
    {
      assert kept[if i < lo then i else i - (hi - lo)] == rs[i];
    }
  }

  /** The ranges that `remove_range` takes out: not before the given one, and starting before its end. */
  predicate Taken(r: Range, range: Range) { !Less(r, range) && r.start < range.end }

  lemma Bounds(rs: seq<Range>, range: Range, i: nat)
    requires Sorted(rs) && i < |rs|
    ensures var lo := LowerBound(rs, range, 0); var hi := UpTo(rs, range.end, lo);
            (lo <= i < hi <==> Taken(rs[i], range)) && (i < lo <==> Less(rs[i], range))
  {
    var lo := LowerBound(rs, range, 0);
    var hi := UpTo(rs, range.end, lo);
    if lo < i {
      assert Less(rs[lo], rs[i]);
    }
    if hi < i {
      assert Less(rs[hi], rs[i]);
    }
  }

  /** The end of the last range taken out, which is all that is put back; the given range's end if none is. */
  function LastEnd(rs: seq<Range>, range: Range): nat {
    var lo := LowerBound(rs, range, 0);
    var hi := UpTo(rs, range.end, lo);
    if lo == hi then range.end else rs[hi - 1].end
  }

  /** Covered by a range that is not taken out. */
  predicate Left(rs: seq<Range>, range: Range, x: nat) {
    exists i :: 0 <= i < |rs| && !Taken(rs[i], range) && rs[i].Has(x)
  }

  /** What is left: the ranges not taken out, and behind the given one the end of the last taken. */
  lemma RemovedCovers(rs: seq<Range>, range: Range, x: nat)
    requires Sorted(rs)
    ensures Covered(Removed(rs, range), x) <==> Left(rs, range, x) || range.end <= x < LastEnd(rs, range)
  {
    hide Sorted, Less, LowerBound, UpTo, Insert, Taken;
    var lo := LowerBound(rs, range, 0);
    var hi := UpTo(rs, range.end, lo);
    forall i | 0 <= i < |rs|
      ensures lo <= i < hi <==> Taken(rs[i], range)
    {
      Bounds(rs, range, i);
    }
    CutCovers(rs, lo, hi, x);
    if lo < hi {
      if range.end < rs[hi - 1].end {
        InsertCovers(rs[..lo] + rs[hi..], Range(range.end, rs[hi - 1].end), x);
      }
    } else {
      assert rs[..lo] + rs[hi..] == rs;
    }
  }

  lemma LastIsTaken(rs: seq<Range>, range: Range, x: nat)
    requires Sorted(rs) && range.end <= x < LastEnd(rs, range)
    ensures Covered(rs, x)
  {
    var lo := LowerBound(rs, range, 0);
    var hi := UpTo(rs, range.end, lo);
    assert rs[hi - 1].Has(x);
  }

  /** What a range taken out covers behind the given one, the last one taken or one that is left covers too. */
  predicate TailsKept(rs: seq<Range>, range: Range) {
    forall i, x: nat :: 0 <= i < |rs| && Taken(rs[i], range) && range.end <= x < rs[i].end ==>
      x < LastEnd(rs, range) || Left(rs, range, x)
  }

  ghost predicate RemovesJust(rs: seq<Range>, range: Range) {
    forall x: nat :: Covered(Removed(rs, range), x) <==> Covered(rs, x) && !range.Has(x)
  }

  ghost predicate AddsJust(rs: seq<Range>, range: Range) {
    forall x: nat :: Covered(Insert(Removed(rs, range), range), x) <==> Covered(rs, x) || range.Has(x)
  }

  /** Behind the given range just what `TailsKept` says is kept; before it nothing changes. */
  lemma Elsewhere(rs: seq<Range>, range: Range)
    requires Sorted(rs)
    ensures TailsKept(rs, range) <==>
              forall x: nat :: !range.Has(x) ==> (Covered(Removed(rs, range), x) <==> Covered(rs, x))
  {
    hide Sorted, Removed, LastEnd, Less;
    forall x: nat
      ensures Covered(Removed(rs, range), x) <==> Left(rs, range, x) || range.end <= x < LastEnd(rs, range)
      ensures range.end <= x < LastEnd(rs, range) ==> Covered(rs, x)
    {
      RemovedCovers(rs, range, x);
      if range.end <= x < LastEnd(rs, range) {
        LastIsTaken(rs, range, x);
      }
    }
    forall i | 0 <= i < |rs| && Taken(rs[i], range)
      ensures range.start <= rs[i].start < range.end
    {
      TakenInside(rs[i], range);
    }
    if !TailsKept(rs, range) {
      var i, x: nat :| 0 <= i < |rs| && Taken(rs[i], range) && range.end <= x < rs[i].end
                       && !(x < LastEnd(rs, range) || Left(rs, range, x));
      assert rs[i].Has(x);
      assert Covered(rs, x) && !Covered(Removed(rs, range), x) && !range.Has(x);
    }
  }

  lemma TakenInside(r: Range, range: Range)
    requires Taken(r, range)
    ensures range.start <= r.start < range.end
  {
  }

  /** In the given range just what earlier ranges cover stays. */
  lemma Within(rs: seq<Range>, range: Range)
    requires Sorted(rs)
    ensures Clear(rs, range) <==> forall x: nat :: range.Has(x) ==> !Covered(Removed(rs, range), x)
  {
    hide Sorted, Removed, LastEnd;
    forall x: nat
      ensures Covered(Removed(rs, range), x) <==> Left(rs, range, x) || range.end <= x < LastEnd(rs, range)
    {
      RemovedCovers(rs, range, x);
    }
    if i :| 0 <= i < |rs| && Less(rs[i], range) && Meet(rs[i], range) {
      var x := if rs[i].start < range.start then range.start else rs[i].start;
      assert rs[i].Has(x) && range.Has(x);
      assert Left(rs, range, x);
    }
  }

  /**
   * On every set, overlapping ranges included, `remove_range` takes away just the addresses of the
   * range exactly if no earlier range reaches into it and no taken one loses its end.
   */
  lemma RemovedExactly(rs: seq<Range>, range: Range)
    requires Sorted(rs)
    ensures RemovesJust(rs, range) <==> Clear(rs, range) && TailsKept(rs, range)
  {
    hide Sorted, Removed, Clear, TailsKept, Covered;
    Elsewhere(rs, range);
    Within(rs, range);
  }

  /** `add_range` adds just the addresses of the range exactly if no taken range loses its end. */
  lemma AddedExactly(rs: seq<Range>, range: Range)
    requires Sorted(rs)
    ensures AddsJust(rs, range) <==> TailsKept(rs, range)
  {
    hide Sorted, Removed, Insert, TailsKept, Covered;
    Elsewhere(rs, range);
    forall x: nat
      ensures Covered(Insert(Removed(rs, range), range), x) <==> Covered(Removed(rs, range), x) || range.Has(x)
    {
      InsertCovers(Removed(rs, range), range, x);
    }
  }

  /** Separate ranges lose no end. */
  lemma SeparateKept(rs: seq<Range>, range: Range)
    requires Separate(rs)
    ensures Sorted(rs) && TailsKept(rs, range)
  {
    hide LowerBound, UpTo, Less;
    SeparateSorted(rs);
    var lo := LowerBound(rs, range, 0);
    var hi := UpTo(rs, range.end, lo);
    forall i | 0 <= i < |rs| && Taken(rs[i], range)
      ensures rs[i].end <= range.end || rs[i].end <= LastEnd(rs, range)
    {
      Bounds(rs, range, i);
      if i < hi - 1 {
        assert rs[i].end <= rs[i + 1].start;
      }
    }
  }

  lemma SeparateSorted(rs: seq<Range>)
    requires Separate(rs)
    ensures Sorted(rs)
  {
  }

  // ---- how ranges come to overlap

  /** What is left: the ranges before the removed ones, those behind, and the end of the last removed. */
  lemma RemovedItem(rs: seq<Range>, range: Range, r: Range)
    requires Separate(rs) && r in Removed(rs, range)
    ensures (r in rs && Less(r, range)) || range.end <= r.start
  {
    hide LowerBound, UpTo, Less;
    SeparateSorted(rs);
    var lo := LowerBound(rs, range, 0);
    var hi := UpTo(rs, range.end, lo);
    CutItem(rs, lo, hi, r);
    if i :| 0 <= i < |rs| && !(lo <= i < hi) && rs[i] == r {
      Bounds(rs, range, i);
      NotBefore(r, range);
    }
  }

  lemma NotBefore(r: Range, range: Range)
    ensures Less(r, range) || Taken(r, range) || range.end <= r.start
  {
  }

  lemma CutItem(rs: seq<Range>, lo: nat, hi: nat, r: Range)
    requires lo <= hi <= |rs|
    ensures r in rs[..lo] + rs[hi..] <==> exists i :: 0 <= i < |rs| && !(lo <= i < hi) && rs[i] == r
  {
    var kept := rs[..lo] + rs[hi..];
    assert forall k :: 0 <= k < |kept| ==> kept[k] == rs[if k < lo then k else k + (hi - lo)];
    if i :| 0 <= i < |rs| && !(lo <= i < hi) && rs[i] == r {
      assert kept[if i < lo then i else i - (hi - lo)] == r;
    }
  }

  lemma EarlyStays(rs: seq<Range>, range: Range, i: nat)
    requires Separate(rs) && i < |rs| && Less(rs[i], range)
    ensures rs[i] in Removed(rs, range)
  {
    hide LowerBound, UpTo, Less;
    SeparateSorted(rs);
    Bounds(rs, range, i);
    var lo := LowerBound(rs, range, 0);
    var hi := UpTo(rs, range.end, lo);
    if lo < hi {
      CutItem(rs, lo, hi, rs[i]);
      InsertItem(rs[..lo] + rs[hi..], Range(range.end, rs[hi - 1].end), rs[i]);
    }
  }

  lemma InsertItem(rs: seq<Range>, r: Range, s: Range)
    requires s in rs
    ensures s in Insert(rs, r)
  {
    var i, k :| i == LowerBound(rs, r, 0) && 0 <= k < |rs| && rs[k] == s;
    assert (rs[..i] + [r] + rs[i..])[if k < i then k else k + 1] == s;
  }

  lemma RemovedSeparate(rs: seq<Range>, range: Range)
    requires Separate(rs)
    ensures Separate(Removed(rs, range))
  {
    hide LowerBound, UpTo, Insert, Less;
    SeparateSorted(rs);
    var lo := LowerBound(rs, range, 0);
    var hi := UpTo(rs, range.end, lo);
    if lo < hi {
      CutSorted(rs, lo, hi);
      var kept, tail := rs[..lo] + rs[hi..], Range(range.end, rs[hi - 1].end);
      Bounds(rs, range, hi - 1);
      forall k | 0 <= k < |kept|
        ensures kept[k] != tail && !Meet(kept[k], tail)
      {
        assert kept[k] == rs[if k < lo then k else k + (hi - lo)];
      }
      if range.end < rs[hi - 1].end {
        InsertSeparate(kept, tail);
      }
    }
  }

  /** `add_range` leaves separate ranges separate exactly if no earlier one reaches into the new one. */
  lemma AddedSeparate(rs: seq<Range>, range: Range)
    requires Separate(rs) && range.start < range.end
    ensures Separate(Insert(Removed(rs, range), range)) <==> Clear(rs, range)
  {
    hide Removed, Separate, Insert, LowerBound;
    var left := Removed(rs, range);
    RemovedSeparate(rs, range);
    forall r | r in left
      ensures (r in rs && Less(r, range)) || range.end <= r.start
    {
      RemovedItem(rs, range, r);
    }
    InsertSeparate(left, range);
    if i :| 0 <= i < |rs| && Less(rs[i], range) && Meet(rs[i], range) {
      EarlyStays(rs, range, i);
    }
  }

  // ---- every run

  datatype Op = Add(range: Range) | Remove(range: Range)

  function Step(rs: seq<Range>, op: Op): seq<Range> {
    if op.Add? then Insert(Removed(rs, op.range), op.range) else Removed(rs, op.range)
  }

  function RunRanges(rs: seq<Range>, ops: seq<Op>): seq<Range>
    decreases ops
  {
    if ops == [] then rs else RunRanges(Step(rs, ops[0]), ops[1..])
  }

  function Addresses(r: Range): (s: set<nat>)
    ensures forall x: nat :: x in s <==> r.Has(x)
  {
    set x: nat | x < r.end && r.Has(x)
  }

  /** The meaning: a set of addresses. */
  function Meant(addresses: set<nat>, op: Op): set<nat> {
    if op.Add? then addresses + Addresses(op.range) else addresses - Addresses(op.range)
  }

  function Run(addresses: set<nat>, ops: seq<Op>): set<nat>
    decreases ops
  {
    if ops == [] then addresses else Run(Meant(addresses, ops[0]), ops[1..])
  }

  ghost predicate StandsFor(rs: seq<Range>, addresses: set<nat>) {
    forall x: nat :: Covered(rs, x) <==> x in addresses
  }

  ghost predicate AlwaysStandsFor(rs: seq<Range>, addresses: set<nat>, ops: seq<Op>)
    decreases ops
  {
    StandsFor(rs, addresses) && (ops != [] ==> AlwaysStandsFor(Step(rs, ops[0]), Meant(addresses, ops[0]), ops[1..]))
  }

  /** An operation does what it is meant to. */
  predicate Works(rs: seq<Range>, op: Op) { TailsKept(rs, op.range) && (op.Remove? ==> Clear(rs, op.range)) }

  predicate AllWork(rs: seq<Range>, ops: seq<Op>)
    decreases ops
  {
    ops != [] ==> Works(rs, ops[0]) && AllWork(Step(rs, ops[0]), ops[1..])
  }

  lemma StepSorted(rs: seq<Range>, op: Op)
    requires Sorted(rs)
    ensures Sorted(Step(rs, op))
  {
    hide Sorted, Insert, LowerBound, UpTo;
    var range := op.range;
    var lo := LowerBound(rs, range, 0);
    var hi := UpTo(rs, range.end, lo);
    CutSorted(rs, lo, hi);
    if lo < hi {
      InsertSorted(rs[..lo] + rs[hi..], Range(range.end, rs[hi - 1].end));
    }
    InsertSorted(Removed(rs, range), range);
  }

  lemma StepExactly(rs: seq<Range>, addresses: set<nat>, op: Op)
    requires Sorted(rs) && StandsFor(rs, addresses)
    ensures StandsFor(Step(rs, op), Meant(addresses, op)) <==> Works(rs, op)
  {
    hide Sorted, Clear, Covered, Removed, Insert, TailsKept;
    if op.Add? {
      AddedExactly(rs, op.range);
      assert AddsJust(rs, op.range) <==> StandsFor(Step(rs, op), Meant(addresses, op));
    } else {
      RemovedExactly(rs, op.range);
      assert RemovesJust(rs, op.range) <==> StandsFor(Step(rs, op), Meant(addresses, op));
    }
  }

  /** Throughout a run the set stands for the addresses it is meant to exactly if every operation works in its turn. */
  lemma {:induction false} RunExactly(rs: seq<Range>, addresses: set<nat>, ops: seq<Op>)
    requires Sorted(rs) && StandsFor(rs, addresses)
    ensures AlwaysStandsFor(rs, addresses, ops) <==> AllWork(rs, ops)
    ensures AllWork(rs, ops) ==> StandsFor(RunRanges(rs, ops), Run(addresses, ops))
    decreases ops
  {
    hide Sorted, StandsFor, Works, Step, Meant;
    if ops != [] {
      StepSorted(rs, ops[0]);
      StepExactly(rs, addresses, ops[0]);
      if Works(rs, ops[0]) {
        RunExactly(Step(rs, ops[0]), Meant(addresses, ops[0]), ops[1..]);
      }
    }
  }

  class ForkSet {
    /** The ranges, in order. */
    var ranges: seq<Range>

    constructor ()
      ensures ranges == []
    {
      ranges := [];
    }

    method RemoveRange(range: Range)
      requires Sorted(ranges)
      modifies this
      ensures Sorted(ranges) && ranges == Removed(old(ranges), range)
    {
      hide Sorted, Insert;
      var start := LowerBound(ranges, range, 0);
      var end := start;
      while end != |ranges| && ranges[end].start < range.end
        invariant start <= end <= |ranges| && UpTo(ranges, range.end, start) == UpTo(ranges, range.end, end)
        decreases |ranges| - end
      {
        end := end + 1;
      }
      if start == end {
        return;
      }
      var startRange, endRange := ranges[start], ranges[end - 1];
      CutSorted(ranges, start, end);
      ranges := ranges[..start] + ranges[end..];
      if startRange.start < range.start {
        // What is not before the range does not start before it.
        assert false;
      }
      if range.end < endRange.end {
        InsertSorted(ranges, Range(range.end, endRange.end));
        ranges := Insert(ranges, Range(range.end, endRange.end));
      }
    }

    method AddRange(range: Range)
      requires Sorted(ranges)
      modifies this
      ensures Sorted(ranges) && ranges == Insert(Removed(old(ranges), range), range)
    {
      RemoveRange(range);
      InsertSorted(ranges, range);
      ranges := Insert(ranges, range);
    }
  }

  method Perform(d: ForkSet, op: Op)
    requires Sorted(d.ranges)
    modifies d
    ensures Sorted(d.ranges) && d.ranges == Step(old(d.ranges), op)
  {
    match op
    case Add(range) => d.AddRange(range);
    case Remove(range) => d.RemoveRange(range);
  }

  /** Any run, from any set. */
  method Execute(d: ForkSet, ghost addresses: set<nat>, ops: seq<Op>)
    requires Sorted(d.ranges) && StandsFor(d.ranges, addresses)
    modifies d
    ensures Sorted(d.ranges) && d.ranges == RunRanges(old(d.ranges), ops)
    ensures AlwaysStandsFor(old(d.ranges), addresses, ops) <==> AllWork(old(d.ranges), ops)
    ensures AllWork(old(d.ranges), ops) ==> StandsFor(d.ranges, Run(addresses, ops))
  {
    hide Sorted, StandsFor, Works, Step, Meant;
    RunExactly(d.ranges, addresses, ops);
    for i := 0 to |ops|
      invariant Sorted(d.ranges) && RunRanges(old(d.ranges), ops) == RunRanges(d.ranges, ops[i..])
    {
      Perform(d, ops[i]);
      assert ops[i..][0] == ops[i] && ops[i..][1..] == ops[i + 1..];
    }
    assert ops[|ops|..] == [];
  }

  /** Two pages are left out, then the second is to be forked again: it is not. */
  method StillLeftOut() returns (d: ForkSet)
    ensures fresh(d) && Separate(d.ranges) && Covered(d.ranges, PAGE)
  {
    d := new ForkSet();
    var both, second := Range(0, 2 * PAGE), Range(PAGE, 2 * PAGE);
    d.AddRange(both);
    assert d.ranges == [both];
    d.RemoveRange(second);
    assert d.ranges[0].Has(PAGE);
  }

  /** Four pages and again the second are left out, then the first three are to be forked again: so is the fourth. */
  method NoLongerLeftOut() returns (d: ForkSet)
    ensures fresh(d) && !Covered(d.ranges, 3 * PAGE)
  {
    d := new ForkSet();
    var four, second := Range(0, 4 * PAGE), Range(PAGE, 2 * PAGE);
    d.AddRange(four);
    assert d.ranges == [four];
    d.AddRange(second);
    assert LowerBound([four], second, 1) == 1 && d.ranges == [four, second];
    assert Clear(d.ranges, Range(0, 3 * PAGE));
    d.RemoveRange(Range(0, 3 * PAGE));
  }
}
