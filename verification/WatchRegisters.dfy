/**
 * Debug registers: an x86 register watches 1, 2, 4 or 8 naturally aligned bytes, so a watched
 * range is split into such pieces, as few as possible.
 */
module WatchRegisters {
  import opened Prelude
  import opened MemoryRanges

  predicate IsWidth(bytes: int) { bytes == 1 || bytes == 2 || bytes == 4 || bytes == 8 }

  predicate IsMultiple(a: nat, bytes: int)
    requires IsWidth(bytes)
  {
    if bytes == 8 then a % 8 == 0 else if bytes == 4 then a % 4 == 0 else if bytes == 2 then a % 2 == 0 else true
  }

  predicate Natural(r: Range) {
    r.start <= r.end && IsWidth(r.Size()) && IsMultiple(r.start, r.Size())
  }

  /** The pieces cover [lo, hi) in order, without gap or overlap. */
  predicate Partition(pieces: seq<Range>, lo: nat, hi: nat) {
    if pieces == [] then lo == hi
    else pieces[0].start == lo && Natural(pieces[0]) && pieces[0].end <= hi && Partition(pieces[1..], pieces[0].end, hi)
  }

  // ---- the greedy split

  predicate Fits(lo: nat, hi: nat, bytes: nat)
    requires IsWidth(bytes)
  {
    IsMultiple(lo, bytes) && bytes <= hi - lo
  }

  function First(lo: nat, hi: nat): (bytes: nat)
    requires lo < hi
    ensures IsWidth(bytes) && Fits(lo, hi, bytes)
    ensures forall b: nat :: IsWidth(b) && Fits(lo, hi, b) ==> b <= bytes
  {
    if Fits(lo, hi, 8) then 8 else if Fits(lo, hi, 4) then 4 else if Fits(lo, hi, 2) then 2 else 1
  }

  function Split(lo: nat, hi: nat): (pieces: seq<Range>)
    requires lo <= hi
    ensures Partition(pieces, lo, hi)
    decreases hi - lo
  {
    if lo == hi then [] else [Range(lo, lo + First(lo, hi))] + Split(lo + First(lo, hi), hi)
  }

  /** A natural piece inside (or at the start of) an aligned block of its size or more does not leave it. */
  lemma NoCross(lo: nat, g: nat, pos: nat, s: nat)
    requires IsWidth(g) && IsWidth(s)
    requires IsMultiple(lo, g) && lo <= pos < lo + g && IsMultiple(pos, s) && (pos == lo ==> s <= g)
    ensures pos + s <= lo + g
  {
  }

  /** Every partition has a cut where the greedy first piece ends. */
  lemma {:induction false} CutAt(q: seq<Range>, lo: nat, g: nat, pos: nat, hi: nat) returns (k: nat)
    requires IsWidth(g) && IsMultiple(lo, g) && lo <= pos <= lo + g <= hi
    requires Partition(q, pos, hi)
    requires pos == lo ==> g == First(lo, hi)
    ensures k <= |q| && Partition(q[k..], lo + g, hi) && (pos < lo + g ==> 0 < k)
  {
    k := 0;
    if pos < lo + g {
      assert q != [] && (pos == lo ==> Fits(lo, hi, q[0].Size()));
      NoCross(lo, g, pos, q[0].Size());
      var k' := CutAt(q[1..], lo, g, q[0].end, hi);
      assert q[1..][k'..] == q[k' + 1..];
      k := k' + 1;
    } else {
      assert q[0..] == q;
    }
  }

  /** No partition into natural pieces has fewer pieces than the greedy one. */
  lemma {:induction false} SplitIsFewest(q: seq<Range>, lo: nat, hi: nat)
    requires lo <= hi && Partition(q, lo, hi)
    ensures |Split(lo, hi)| <= |q|
    decreases hi - lo
  {
    if lo < hi {
      hide Partition, First;
      var g := First(lo, hi);
      var k := CutAt(q, lo, g, lo, hi);
      SplitIsFewest(q[k..], lo + g, hi);
    }
  }

  /** Every watched byte lies in exactly one piece, and the pieces hold no other byte. */
  lemma {:induction false} PartitionCovers(q: seq<Range>, lo: nat, hi: nat, a: nat)
    requires lo <= hi && Partition(q, lo, hi)
    ensures (exists i :: 0 <= i < |q| && q[i].Has(a)) <==> lo <= a < hi
    ensures forall i, j :: 0 <= i < j < |q| && q[i].Has(a) ==> !q[j].Has(a)
  {
    if q != [] {
      PartitionCovers(q[1..], q[0].end, hi, a);
      if q[0].end <= a < hi {
        var i :| 0 <= i < |q[1..]| && q[1..][i].Has(a);
        assert q[i + 1].Has(a);
      }
      forall i | 0 < i < |q|
        ensures q[i].Has(a) ==> q[0].end <= a < hi
      {
        assert q[i] == q[1..][i - 1];
      }
      forall i, j | 0 <= i < j < |q| && q[i].Has(a)
        ensures !q[j].Has(a)
      {
        assert q[j] == q[1..][j - 1];
        if i > 0 {
          assert q[i] == q[1..][i - 1];
        }
      }
    }
  }

  method TrySplit(r: Range, bytes: nat, result: seq<Range>) returns (ok: bool, r': Range, result': seq<Range>)
    requires r.start <= r.end && IsWidth(bytes)
    ensures ok == Fits(r.start, r.end, bytes)
    ensures ok ==> r' == Range(r.start + bytes, r.end) && result' == result + [Range(r.start, r.start + bytes)]
    ensures !ok ==> r' == r && result' == result
  {
    if !IsMultiple(r.start, bytes) || r.Size() < bytes {
      return false, r, result;
    }
    return true, Range(r.start + bytes, r.end), result + [Range(r.start, r.start + bytes)];
  }

  /** One round: the widest piece that fits at the front is moved to the result. */
  method SplitOne(r: Range, result: seq<Range>) returns (r': Range, result': seq<Range>)
    requires r.start < r.end
    ensures r' == Range(r.start + First(r.start, r.end), r.end)
    ensures result' == result + [Range(r.start, r.start + First(r.start, r.end))]
  {
    var ok;
    ok, r', result' := TrySplit(r, 8, result);
    if !ok {
      ok, r', result' := TrySplit(r', 4, result');
    }
    if !ok {
      ok, r', result' := TrySplit(r', 2, result');
    }
    if !ok {
      ok, r', result' := TrySplit(r', 1, result');
    }
  }

  lemma SplitStep(lo: nat, hi: nat)
    requires lo < hi
    ensures Split(lo, hi) == [Range(lo, lo + First(lo, hi))] + Split(lo + First(lo, hi), hi)
  {
  }

  lemma NothingToSplit(lo: nat)
    ensures Split(lo, lo) == []
  {
  }

  /** The loop of the source: an exact partition, with the fewest pieces. */
  method SplitRange(range: Range) returns (result: seq<Range>)
    requires range.start <= range.end
    ensures result == Split(range.start, range.end)
    ensures Partition(result, range.start, range.end)
    ensures forall q :: Partition(q, range.start, range.end) ==> |result| <= |q|
  {
    hide Partition, First, Split;
    result := [];
    var r := range;
    while r.start < r.end
      invariant r.start <= r.end == range.end && range.start <= r.start
      invariant result + Split(r.start, r.end) == Split(range.start, range.end)
      decreases r.end - r.start
    {
      ghost var next := r.start + First(r.start, r.end);
      SplitStep(r.start, r.end);
      Associative(result, [Range(r.start, next)], Split(next, r.end));
      r, result := SplitOne(r, result);
    }
    NothingToSplit(r.end);
    forall q | Partition(q, range.start, range.end)
      ensures |result| <= |q|
    {
      SplitIsFewest(q, range.start, range.end);
    }
  }

  // ---- watch registers

  datatype WatchType = WatchExec | WatchWrite | WatchReadWrite

  datatype WatchConfig = WatchConfig(addr: nat, numBytes: nat, watch: WatchType)

  function Alignment(size: nat): (align: nat)
    ensures IsWidth(align)
  {
    if size <= 2 then 2 else if size <= 4 then 4 else 8
  }

  function Down2(a: nat): (r: nat)
    ensures r % 2 == 0 && r <= a < r + 2
  {
    a / 2 * 2
  }

  function Down4(a: nat): (r: nat)
    ensures r % 4 == 0 && r <= a < r + 4
  {
    a / 4 * 4
  }

  function Down8(a: nat): (r: nat)
    ensures r % 8 == 0 && r <= a < r + 8
  {
    a / 8 * 8
  }

  function RoundDown(a: nat, align: nat): (r: nat)
    requires IsWidth(align)
    ensures IsMultiple(r, align) && r <= a < r + align
  {
    if align == 8 then Down8(a) else if align == 4 then Down4(a) else if align == 2 then Down2(a) else a
  }

  /** The smallest range of aligned blocks around a range. */
  function Widened(r: Range): (w: Range)
    requires r.start <= r.end
    ensures var align := Alignment(r.end - r.start);
            && w.start <= r.start < w.start + align && r.end <= w.end < r.end + align
            && IsMultiple(w.start, align) && IsMultiple(w.end, align)
  {
    var align := Alignment(r.end - r.start);
    Range(RoundDown(r.start, align), RoundDown(r.end + align - 1, align))
  }

  predicate Widen(r: Range, watch: WatchType)
    requires r.start <= r.end
  {
    && watch == WatchWrite && 1 < r.end - r.start
    && |Split(Widened(r).start, Widened(r).end)| < |Split(r.start, r.end)|
  }

  function Pieces(r: Range, watch: WatchType): seq<Range>
    requires r.start <= r.end
  {
    if Widen(r, watch) then Split(Widened(r).start, Widened(r).end) else Split(r.start, r.end)
  }

  /** The watched range is covered, exactly unless only writes are watched, and at no extra cost. */
  lemma PiecesCover(r: Range, watch: WatchType, a: nat)
    requires r.start <= r.end
    ensures r.Has(a) ==> exists i :: 0 <= i < |Pieces(r, watch)| && Pieces(r, watch)[i].Has(a)
    ensures watch != WatchWrite ==> Partition(Pieces(r, watch), r.start, r.end)
    ensures forall i :: 0 <= i < |Pieces(r, watch)| ==> Natural(Pieces(r, watch)[i])
    ensures forall q :: Partition(q, r.start, r.end) ==> |Pieces(r, watch)| <= |q|
  {
    hide Split;
    var w := if Widen(r, watch) then Widened(r) else r;
    PartitionCovers(Split(w.start, w.end), w.start, w.end, a);
    AllNatural(Split(w.start, w.end), w.start, w.end);
    forall q | Partition(q, r.start, r.end)
      ensures |Pieces(r, watch)| <= |q|
    {
      SplitIsFewest(q, r.start, r.end);
    }
  }

  lemma {:induction false} AllNatural(q: seq<Range>, lo: nat, hi: nat)
    requires Partition(q, lo, hi)
    ensures forall i :: 0 <= i < |q| ==> Natural(q[i])
  {
    if q != [] {
      AllNatural(q[1..], q[0].end, hi);
      forall i | 0 < i < |q|
        ensures Natural(q[i])
      {
        assert q[i] == q[1..][i - 1];
      }
    }
  }

  /** The conversion of an index to `int8_t`. */
  function AsInt8(n: nat): (r: int)
    ensures -128 <= r < 128 && (r - n) % 256 == 0
  {
    if n % 256 < 128 then n % 256 else n % 256 - 256
  }

  function Configs(r: Range, watch: WatchType): (c: seq<WatchConfig>)
    requires r.start <= r.end
    ensures |c| == |Pieces(r, watch)| && forall i :: 0 <= i < |c| ==> c[i].watch == watch
  {
    var pieces := Pieces(r, watch);
    seq(|pieces|, i requires 0 <= i < |pieces| => WatchConfig(pieces[i].start, PieceSize(pieces[i]), watch))
  }

  function PieceSize(r: Range): nat { if r.start <= r.end then r.end - r.start else 0 }

  // ---- what the entries watch

  predicate Watches(c: WatchConfig, a: nat) { c.addr <= a < c.addr + c.numBytes }

  /** Some entry of the type watches the byte. */
  predicate Watched(cs: seq<WatchConfig>, watch: WatchType, a: nat) {
    exists i :: 0 <= i < |cs| && cs[i].watch == watch && Watches(cs[i], a)
  }

  /** A debug register can hold it: 1, 2, 4 or 8 bytes at a multiple of their number. */
  predicate Encodable(c: WatchConfig) {
    && (c.numBytes == 1 || c.numBytes == 2 || c.numBytes == 4 || c.numBytes == 8)
    && c.addr % c.numBytes == 0
  }

  /** At most one entry watches a byte. */
  ghost predicate Once(cs: seq<WatchConfig>) {
    forall i, j, a: nat :: 0 <= i < j < |cs| && Watches(cs[i], a) ==> !Watches(cs[j], a)
  }

  /** A byte less than a block away: of 2 bytes for a range of up to 2, of 4 for up to 4, else of 8. */
  predicate Near(r: Range, a: nat) { r.start < a + Block(r) && a < r.end + Block(r) }

  function Block(r: Range): nat {
    if r.end <= r.start + 2 then 2 else if r.end <= r.start + 4 then 4 else 8
  }

  /** The blocks a range meets. */
  predicate Blocks(r: Range, lo: nat, hi: nat) {
    && IsMultiple(lo, Block(r)) && IsMultiple(hi, Block(r))
    && lo <= r.start < lo + Block(r) && r.end <= hi < r.end + Block(r)
  }

  /** Entries for a range: every byte of it is watched once, and no other unless only writes are watched. */
  ghost predicate WatchJust(cs: seq<WatchConfig>, r: Range, watch: WatchType) {
    && (forall i :: 0 <= i < |cs| ==> cs[i].watch == watch && Encodable(cs[i]))
    && Once(cs)
    && (forall a: nat :: r.Has(a) ==> Watched(cs, watch, a))
    && (forall a: nat :: Watched(cs, watch, a) ==> if watch == WatchWrite then Near(r, a) else r.Has(a))
  }

  lemma ConfigsWatch(r: Range, watch: WatchType)
    requires r.start <= r.end
    ensures WatchJust(Configs(r, watch), r, watch)
  {
    hide Split, Partition, Pieces, Natural;
    var cs, pieces := Configs(r, watch), Pieces(r, watch);
    var w := if Widen(r, watch) then Widened(r) else r;
    assert Partition(pieces, w.start, w.end) by { PiecesPartition(r, watch); }
    AllNatural(pieces, w.start, w.end);
    forall i | 0 <= i < |cs|
      ensures Encodable(cs[i]) && forall a: nat :: Watches(cs[i], a) <==> pieces[i].Has(a)
    {
      NaturalEncodable(pieces[i], watch);
    }
    forall a: nat
      ensures Watched(cs, watch, a) <==> w.Has(a)
      ensures r.Has(a) ==> w.Has(a)
      ensures w.Has(a) ==> if watch == WatchWrite then Near(r, a) else r.Has(a)
    {
      PartitionCovers(pieces, w.start, w.end, a);
      if i :| 0 <= i < |pieces| && pieces[i].Has(a) {
        assert Watches(cs[i], a);
      }
    }
    forall i, j, a: nat | 0 <= i < j < |cs| && Watches(cs[i], a)
      ensures !Watches(cs[j], a)
    {
      PartitionCovers(pieces, w.start, w.end, a);
    }
  }

  /** No exact partition has fewer pieces, and a byte outside the range is watched only if every one has more. */
  ghost predicate Thrifty(cs: seq<WatchConfig>, r: Range, watch: WatchType) {
    forall q :: Partition(q, r.start, r.end) ==>
      |cs| <= |q| && (|cs| < |q| || forall a: nat :: Watched(cs, watch, a) ==> r.Has(a))
  }

  /** If only writes are watched, no partition of the blocks the range meets has fewer either. */
  ghost predicate Saves(cs: seq<WatchConfig>, r: Range, watch: WatchType) {
    watch == WatchWrite && 1 < r.end - r.start ==>
      forall lo, hi, q :: Blocks(r, lo, hi) && Partition(q, lo, hi) ==> |cs| <= |q|
  }

  lemma OneHalf(i: int, j: int, a: int, b: int)
    requires a == 2 * i && b == 2 * j && -2 < a - b < 2
    ensures a == b
  {
  }

  lemma OneQuarter(i: int, j: int, a: int, b: int)
    requires a == 4 * i && b == 4 * j && -4 < a - b < 4
    ensures a == b
  {
  }

  lemma OneEighth(i: int, j: int, a: int, b: int)
    requires a == 8 * i && b == 8 * j && -8 < a - b < 8
    ensures a == b
  {
  }

  lemma OneMultiple(block: nat, a: nat, b: nat, x: nat)
    requires IsWidth(block) && IsMultiple(a, block) && IsMultiple(b, block)
    requires a <= x < a + block && b <= x < b + block
    ensures a == b
  {
    if block == 8 {
      OneEighth(a / 8, b / 8, a, b);
    } else if block == 4 {
      OneQuarter(a / 4, b / 4, a, b);
    } else if block == 2 {
      OneHalf(a / 2, b / 2, a, b);
    }
  }

  lemma BlocksAreWidened(r: Range, lo: nat, hi: nat)
    requires r.start <= r.end && Blocks(r, lo, hi)
    ensures Widened(r) == Range(lo, hi)
  {
    hide IsMultiple, RoundDown;
    var w, block := Widened(r), Block(r);
    OneMultiple(block, w.start, lo, r.start);
    OneMultiple(block, w.end, hi, r.end + block - 1);
  }

  lemma ConfigsSave(r: Range, watch: WatchType)
    requires r.start <= r.end
    ensures Saves(Configs(r, watch), r, watch)
  {
    hide Split, Partition, Widened, Blocks;
    forall lo, hi, q | watch == WatchWrite && 1 < r.end - r.start && Blocks(r, lo, hi) && Partition(q, lo, hi)
      ensures |Configs(r, watch)| <= |q|
    {
      BlocksAreWidened(r, lo, hi);
      SplitIsFewest(q, lo, hi);
    }
  }

  lemma ConfigsThrifty(r: Range, watch: WatchType)
    requires r.start <= r.end
    ensures Thrifty(Configs(r, watch), r, watch)
  {
    hide Split, Configs, Partition, Watched, Widened;
    var cs := Configs(r, watch);
    forall q | Partition(q, r.start, r.end)
      ensures |cs| <= |q| && (|cs| < |q| || forall a: nat :: Watched(cs, watch, a) ==> r.Has(a))
    {
      SplitIsFewest(q, r.start, r.end);
      if !Widen(r, watch) {
        UnwidenedExact(r, watch);
      }
    }
  }

  lemma UnwidenedExact(r: Range, watch: WatchType)
    requires r.start <= r.end && !Widen(r, watch)
    ensures forall a: nat :: Watched(Configs(r, watch), watch, a) ==> r.Has(a)
  {
    hide Split, Partition, Natural;
    var cs, pieces := Configs(r, watch), Pieces(r, watch);
    AllNatural(pieces, r.start, r.end);
    forall a: nat | Watched(cs, watch, a)
      ensures r.Has(a)
    {
      var i :| 0 <= i < |cs| && cs[i].watch == watch && Watches(cs[i], a);
      NaturalEncodable(pieces[i], watch);
      PartitionCovers(pieces, r.start, r.end, a);
    }
  }

  lemma PiecesPartition(r: Range, watch: WatchType)
    requires r.start <= r.end
    ensures var w := if Widen(r, watch) then Widened(r) else r; Partition(Pieces(r, watch), w.start, w.end)
  {
  }

  lemma NaturalEncodable(r: Range, watch: WatchType)
    requires Natural(r)
    ensures Encodable(WatchConfig(r.start, PieceSize(r), watch))
    ensures forall a: nat :: Watches(WatchConfig(r.start, PieceSize(r), watch), a) <==> r.Has(a)
  {
  }

  function Numbered(from: nat, n: nat): seq<int> {
    seq(n, j requires 0 <= j => AsInt8(from + j))
  }

  /** Append one entry, and its number if numbers are wanted, for each piece. */
  method Assign(regs: seq<WatchConfig>, range: Range, watch: WatchType, split: seq<Range>, list: Option<seq<int>>)
    returns (regs': seq<WatchConfig>, list': Option<seq<int>>)
    requires range.start <= range.end && split == Pieces(range, watch)
    ensures regs' == regs + Configs(range, watch)
    ensures list' == if list.None? then None else Some(list.value + Numbered(|regs|, |split|))
  {
    hide Pieces;
    regs', list' := regs, list;
    ghost var configs := Configs(range, watch);
    assert list.Some? ==> list.value + Numbered(|regs|, 0) == list.value;
    for i := 0 to |split|
      invariant regs' == regs + configs[..i]
      invariant list' == if list.None? then None else Some(list.value + Numbered(|regs|, i))
    {
      if list'.Some? {
        assert list.value + Numbered(|regs|, i + 1) == list.value + Numbered(|regs|, i) + [AsInt8(|regs| + i)];
        list' := Some(list'.value + [AsInt8(|regs'|)]);
      }
      assert regs + configs[..i + 1] == regs + configs[..i] + [configs[i]];
      regs' := regs' + [WatchConfig(split[i].start, PieceSize(split[i]), watch)];
    }
    assert configs[..|split|] == configs;
  }

  method ConfigureWatchRegisters(regs: seq<WatchConfig>, range: Range, watch: WatchType, list: Option<seq<int>>)
    returns (regs': seq<WatchConfig>, list': Option<seq<int>>)
    requires range.start <= range.end
    ensures regs' == regs + Configs(range, watch)
    ensures list' == if list.None? then None else Some(list.value + Numbered(|regs|, |Pieces(range, watch)|))
    ensures regs <= regs' && WatchJust(regs'[|regs|..], range, watch) && Thrifty(regs'[|regs|..], range, watch)
    ensures Saves(regs'[|regs|..], range, watch)
  {
    hide Split, Partition, Configs, RoundDown, Alignment, WatchJust, Thrifty, Saves;
    var split := SplitRange(range);
    if watch == WatchWrite && 1 < range.Size() {
      var align := Alignment(range.end - range.start);
      var wide := SplitRange(Range(RoundDown(range.start, align), RoundDown(range.end + align - 1, align)));
      if |wide| < |split| {
        split := wide;
      }
    }
    regs', list' := Assign(regs, range, watch, split, list);
    ConfigsWatch(range, watch);
    ConfigsThrifty(range, watch);
    ConfigsSave(range, watch);
    assert regs'[|regs|..] == Configs(range, watch);
  }

  // ---- all watchpoints

  datatype Watchpoint = Watchpoint(range: Range, execCount: nat, readCount: nat, writeCount: nat, debugRegs: seq<int>)

  predicate WellFormed(ws: seq<Watchpoint>) {
    forall i :: 0 <= i < |ws| ==> ws[i].range.start <= ws[i].range.end
  }

  /** The entries whose triggering the hardware must report: execution and reading. */
  function Reported(w: Watchpoint): seq<WatchConfig>
    requires w.range.start <= w.range.end
  {
    (if w.execCount > 0 then Configs(w.range, WatchExec) else []) +
    (if w.readCount > 0 then Configs(w.range, WatchReadWrite) else [])
  }

  function WriteOnly(w: Watchpoint): seq<WatchConfig>
    requires w.range.start <= w.range.end
  {
    if w.readCount == 0 && w.writeCount > 0 then Configs(w.range, WatchWrite) else []
  }

  /** The entries of the first `k` watchpoints. */
  function Entries(ws: seq<Watchpoint>, k: nat): seq<WatchConfig>
    requires k <= |ws| && WellFormed(ws)
  {
    if k == 0 then [] else Entries(ws, k - 1) + Reported(ws[k - 1]) + WriteOnly(ws[k - 1])
  }

  /** The numbers kept with watchpoint `i`. */
  function Listed(ws: seq<Watchpoint>, i: nat): seq<int>
    requires i < |ws| && WellFormed(ws)
  {
    Numbered(|Entries(ws, i)|, |Reported(ws[i])|)
  }

  /** Which type of entry a watchpoint asks for. */
  predicate Asks(w: Watchpoint, watch: WatchType) {
    match watch
    case WatchExec => w.execCount > 0
    case WatchReadWrite => w.readCount > 0
    case WatchWrite => w.readCount == 0 && w.writeCount > 0
  }

  /** Some watchpoint that asks for the type has the byte, or for writes has it near. */
  predicate Wanted(ws: seq<Watchpoint>, watch: WatchType, a: nat) {
    exists i :: 0 <= i < |ws| && Asks(ws[i], watch)
                && if watch == WatchWrite then Near(ws[i].range, a) else ws[i].range.Has(a)
  }

  /** Every byte asked for is watched for what it is asked, and nothing else for execution or reading. */
  ghost predicate WatchAll(cs: seq<WatchConfig>, ws: seq<Watchpoint>) {
    && (forall i :: 0 <= i < |cs| ==> Encodable(cs[i]))
    && (forall i, watch, a: nat ::
          0 <= i < |ws| && Asks(ws[i], watch) && ws[i].range.Has(a) ==> Watched(cs, watch, a))
    && (forall watch, a: nat :: Watched(cs, watch, a) ==> Wanted(ws, watch, a))
  }

  class WatchTable {
    var watchpoints: seq<Watchpoint>

    constructor (ws: seq<Watchpoint>)
      ensures watchpoints == ws
    {
      watchpoints := ws;
    }

    /** Configure one watchpoint. */
    method WatchOne(regs: seq<WatchConfig>, w: Watchpoint, setting: bool)
      returns (regs': seq<WatchConfig>, w': Watchpoint)
      requires w.range.start <= w.range.end
      ensures regs' == regs + Reported(w) + WriteOnly(w)
      ensures w' == if setting then w.(debugRegs := Numbered(|regs|, |Reported(w)|)) else w
    {
      hide Pieces, Configs, WatchJust, Thrifty;
      var list := if setting then Some([]) else None;
      regs' := regs;
      if w.execCount > 0 {
        regs', list := ConfigureWatchRegisters(regs', w.range, WatchExec, list);
      }
      ghost var n := |regs'| - |regs|;
      assert setting ==> list.value == Numbered(|regs|, n);
      if w.readCount > 0 {
        regs', list := ConfigureWatchRegisters(regs', w.range, WatchReadWrite, list);
        NumberedJoin(|regs|, n, |Configs(w.range, WatchReadWrite)|);
      } else if w.writeCount > 0 {
        var none;
        regs', none := ConfigureWatchRegisters(regs', w.range, WatchWrite, None);
      }
      w' := if setting then w.(debugRegs := list.value) else w;
      assert regs' == regs + Reported(w) + WriteOnly(w);
    }

    /** All entries in order; every watchpoint keeps the numbers of its own. */
    method GetWatchConfigs(setting: bool) returns (result: seq<WatchConfig>)
      requires WellFormed(watchpoints)
      modifies this
      ensures result == Entries(old(watchpoints), |old(watchpoints)|)
      ensures WatchAll(result, old(watchpoints))
      ensures |watchpoints| == |old(watchpoints)|
      ensures forall i :: 0 <= i < |watchpoints| ==>
                watchpoints[i] == if setting then old(watchpoints)[i].(debugRegs := Listed(old(watchpoints), i))
                                  else old(watchpoints)[i]
    {
      hide Reported, WriteOnly, Numbered;
      result := [];
      ghost var ws := watchpoints;
      for i := 0 to |watchpoints|
        invariant |watchpoints| == |ws| && result == Entries(ws, i)
        invariant forall j :: i <= j < |ws| ==> watchpoints[j] == ws[j]
        invariant forall j :: 0 <= j < i ==>
                    watchpoints[j] == if setting then ws[j].(debugRegs := Listed(ws, j)) else ws[j]
      {
        var w;
        result, w := WatchOne(result, watchpoints[i], setting);
        watchpoints := watchpoints[i := w];
      }
      EntriesWatch(ws, |ws|);
      assert ws[..|ws|] == ws;
    }
  }

  lemma WatchedJoin(a: seq<WatchConfig>, b: seq<WatchConfig>, watch: WatchType, x: nat)
    ensures Watched(a + b, watch, x) <==> Watched(a, watch, x) || Watched(b, watch, x)
  {
    hide Watches;
    if i :| 0 <= i < |a| && a[i].watch == watch && Watches(a[i], x) {
      assert (a + b)[i] == a[i];
    }
    if i :| 0 <= i < |b| && b[i].watch == watch && Watches(b[i], x) {
      assert (a + b)[|a| + i] == b[i];
    }
  }

  /** The entries of one watchpoint. */
  lemma OneWatches(w: Watchpoint, watch: WatchType, x: nat)
    requires w.range.start <= w.range.end
    ensures var cs := Reported(w) + WriteOnly(w);
            && (Asks(w, watch) && w.range.Has(x) ==> Watched(cs, watch, x))
            && (Watched(cs, watch, x) ==>
                  Asks(w, watch) && if watch == WatchWrite then Near(w.range, x) else w.range.Has(x))
  {
    hide Configs, Watched, Near;
    var exec := if w.execCount > 0 then Configs(w.range, WatchExec) else [];
    var read := if w.readCount > 0 then Configs(w.range, WatchReadWrite) else [];
    ConfigsWatch(w.range, WatchExec);
    ConfigsWatch(w.range, WatchReadWrite);
    ConfigsWatch(w.range, WatchWrite);
    WatchedJoin(exec, read, watch, x);
    WatchedJoin(Reported(w), WriteOnly(w), watch, x);
    NotWatched(watch, x);
    OtherType(exec, WatchExec, watch, x);
    OtherType(read, WatchReadWrite, watch, x);
    OtherType(WriteOnly(w), WatchWrite, watch, x);
  }

  lemma NotWatched(watch: WatchType, x: nat)
    ensures !Watched([], watch, x)
  {
  }

  lemma OtherType(cs: seq<WatchConfig>, own: WatchType, watch: WatchType, x: nat)
    requires forall i :: 0 <= i < |cs| ==> cs[i].watch == own
    ensures Watched(cs, watch, x) ==> watch == own
  {
  }

  lemma OneEncodable(w: Watchpoint)
    requires w.range.start <= w.range.end
    ensures var cs := Reported(w) + WriteOnly(w); forall i :: 0 <= i < |cs| ==> Encodable(cs[i])
  {
    hide Configs, Once, Watched, Encodable;
    ConfigsWatch(w.range, WatchExec);
    ConfigsWatch(w.range, WatchReadWrite);
    ConfigsWatch(w.range, WatchWrite);
  }

  lemma {:induction false} EntriesWatch(ws: seq<Watchpoint>, k: nat)
    requires WellFormed(ws) && k <= |ws|
    ensures WatchAll(Entries(ws, k), ws[..k])
  {
    hide Watched, Asks, Near, Encodable, Reported, WriteOnly;
    if k == 0 {
      forall watch, a: nat
        ensures !Watched([], watch, a)
      {
        NotWatched(watch, a);
      }
    } else {
      EntriesWatch(ws, k - 1);
      var before, own := Entries(ws, k - 1), Reported(ws[k - 1]) + WriteOnly(ws[k - 1]);
      Associative(before, Reported(ws[k - 1]), WriteOnly(ws[k - 1]));
      assert Entries(ws, k) == before + own;
      OneEncodable(ws[k - 1]);
      forall watch, a: nat
        ensures Watched(before + own, watch, a) <==> Watched(before, watch, a) || Watched(own, watch, a)
        ensures Watched(own, watch, a) ==> Wanted(ws[..k], watch, a)
        ensures Wanted(ws[..k - 1], watch, a) ==> Wanted(ws[..k], watch, a)
        ensures Asks(ws[k - 1], watch) && ws[k - 1].range.Has(a) ==> Watched(own, watch, a)
      {
        WatchedJoin(before, own, watch, a);
        OneWatches(ws[k - 1], watch, a);
        assert ws[..k][k - 1] == ws[k - 1];
        MoreWanted(ws, k, watch, a);
      }
      assert forall i :: 0 <= i < k - 1 ==> ws[..k - 1][i] == ws[..k][i];
    }
  }

  lemma MoreWanted(ws: seq<Watchpoint>, k: nat, watch: WatchType, a: nat)
    requires 0 < k <= |ws|
    ensures Wanted(ws[..k - 1], watch, a) ==> Wanted(ws[..k], watch, a)
  {
    hide Asks, Near;
    assert forall i :: 0 <= i < k - 1 ==> ws[..k - 1][i] == ws[..k][i];
  }

  lemma NumberedJoin(from: nat, m: nat, n: nat)
    ensures Numbered(from, m) + Numbered(from + m, n) == Numbered(from, m + n)
  {
  }

  lemma {:induction false} EntriesPrefix(ws: seq<Watchpoint>, i: nat, k: nat)
    requires i <= k <= |ws| && WellFormed(ws)
    ensures Entries(ws, i) <= Entries(ws, k)
  {
    hide Reported, WriteOnly;
    if i < k {
      EntriesPrefix(ws, i, k - 1);
    }
  }

  /** Entry `n` belongs to watchpoint `i`. */
  predicate Owns(ws: seq<Watchpoint>, i: nat, n: nat)
    requires i < |ws| && WellFormed(ws)
  {
    |Entries(ws, i)| <= n < |Entries(ws, i + 1)|
  }

  lemma {:induction false} Owner(ws: seq<Watchpoint>, k: nat, n: nat) returns (i: nat)
    requires k <= |ws| && WellFormed(ws) && n < |Entries(ws, k)|
    ensures i < k && Owns(ws, i, n)
  {
    hide Reported, WriteOnly;
    if n < |Entries(ws, k - 1)| {
      i := Owner(ws, k - 1, n);
    } else {
      i := k - 1;
    }
  }

  lemma ReportedKinds(w: Watchpoint)
    requires w.range.start <= w.range.end
    ensures forall i :: 0 <= i < |Reported(w)| ==> Reported(w)[i].watch != WatchWrite
    ensures forall i :: 0 <= i < |WriteOnly(w)| ==> WriteOnly(w)[i].watch == WatchWrite
  {
    hide Pieces, Configs;
  }

  lemma ThreeParts(all: seq<WatchConfig>, before: seq<WatchConfig>, own: seq<WatchConfig>, rest: seq<WatchConfig>,
                   n: nat)
    requires before + own + rest <= all
    requires forall i :: 0 <= i < |own| ==> own[i].watch != WatchWrite
    requires forall i :: 0 <= i < |rest| ==> rest[i].watch == WatchWrite
    requires |before| <= n < |before + own + rest|
    ensures all[n].watch != WatchWrite <==> n - |before| < |own|
  {
    assert all[n] == (before + own + rest)[n];
  }

  lemma EntriesStep(ws: seq<Watchpoint>, i: nat)
    requires i < |ws| && WellFormed(ws)
    ensures Entries(ws, i + 1) == Entries(ws, i) + Reported(ws[i]) + WriteOnly(ws[i])
  {
  }

  /** Of a watchpoint's own entries the first ones are those the hardware must report. */
  lemma OwnEntries(ws: seq<Watchpoint>, i: nat, n: nat)
    requires i < |ws| && WellFormed(ws) && Owns(ws, i, n) && n < |Entries(ws, |ws|)|
    ensures Entries(ws, |ws|)[n].watch != WatchWrite <==> n - |Entries(ws, i)| < |Reported(ws[i])|
  {
    hide Entries, Reported, WriteOnly;
    EntriesStep(ws, i);
    EntriesPrefix(ws, i + 1, |ws|);
    ReportedKinds(ws[i]);
    ThreeParts(Entries(ws, |ws|), Entries(ws, i), Reported(ws[i]), WriteOnly(ws[i]), n);
  }

  /** The number list of watchpoint `i` tells the truth about entry `n`. */
  predicate Exact(ws: seq<Watchpoint>, i: nat, n: nat)
    requires i < |ws| && WellFormed(ws) && n < |Entries(ws, |ws|)|
  {
    n in Listed(ws, i) <==> Owns(ws, i, n) && Entries(ws, |ws|)[n].watch != WatchWrite
  }

  lemma {:induction false} Disowned(ws: seq<Watchpoint>, i: nat, n: nat, m: nat)
    requires i < |ws| && WellFormed(ws) && m < |Reported(ws[i])| && n == |Entries(ws, i)| + m
    ensures Owns(ws, i, n) && n < |Entries(ws, |ws|)|
  {
    hide Reported, WriteOnly;
    EntriesPrefix(ws, i + 1, |ws|);
  }

  /** What is watched beyond entry 127 only for writing, the debugger does not need numbers for. */
  predicate NumbersFit(ws: seq<Watchpoint>)
    requires WellFormed(ws)
  {
    forall n :: 128 <= n < |Entries(ws, |ws|)| ==> Entries(ws, |ws|)[n].watch == WatchWrite
  }

  lemma ExactWhenFitting(ws: seq<Watchpoint>, i: nat, n: nat)
    requires i < |ws| && WellFormed(ws) && n < |Entries(ws, |ws|)| && NumbersFit(ws)
    ensures Exact(ws, i, n)
  {
    hide Entries, Reported, AsInt8;
    var from, count := |Entries(ws, i)|, |Reported(ws[i])|;
    if n in Listed(ws, i) {
      var m: nat :| m < |Listed(ws, i)| && Listed(ws, i)[m] == n;
      Disowned(ws, i, from + m, m);
      OwnEntries(ws, i, from + m);
      assert from + m < 128;
      assert AsInt8(from + m) == from + m;
    }
    if Owns(ws, i, n) && Entries(ws, |ws|)[n].watch != WatchWrite {
      OwnEntries(ws, i, n);
      assert Listed(ws, i)[n - from] == AsInt8(n) == n;
    }
  }

  lemma NumbersStaySmall(ws: seq<Watchpoint>, i: nat, n: nat)
    requires i < |ws| && WellFormed(ws) && 128 <= n
    ensures n !in Listed(ws, i)
  {
    hide Entries, Reported, AsInt8;
    forall m | 0 <= m < |Listed(ws, i)|
      ensures Listed(ws, i)[m] < 128
    {
      assert Listed(ws, i)[m] == AsInt8(|Entries(ws, i)| + m);
    }
  }

  // ---- when the numbers fit, from the watchpoints alone

  /** How many entries of a watchpoint the hardware must report, and how many are for writes only. */
  function ReportedCount(w: Watchpoint): nat
    requires w.range.start <= w.range.end
  {
    (if w.execCount > 0 then |Pieces(w.range, WatchExec)| else 0) +
    (if w.readCount > 0 then |Pieces(w.range, WatchReadWrite)| else 0)
  }

  function WriteCount(w: Watchpoint): nat
    requires w.range.start <= w.range.end
  {
    if w.readCount == 0 && w.writeCount > 0 then |Pieces(w.range, WatchWrite)| else 0
  }

  /** The registers the first `k` watchpoints take. */
  function CountBefore(ws: seq<Watchpoint>, k: nat): nat
    requires k <= |ws| && WellFormed(ws)
  {
    if k == 0 then 0 else CountBefore(ws, k - 1) + ReportedCount(ws[k - 1]) + WriteCount(ws[k - 1])
  }

  /** Each watchpoint with reported entries has its last one among the first 128 of all. */
  predicate CountsFit(ws: seq<Watchpoint>)
    requires WellFormed(ws)
  {
    forall i :: 0 <= i < |ws| && ReportedCount(ws[i]) > 0 ==> CountBefore(ws, i) + ReportedCount(ws[i]) <= 128
  }

  lemma CountsOf(w: Watchpoint)
    requires w.range.start <= w.range.end
    ensures |Reported(w)| == ReportedCount(w) && |WriteOnly(w)| == WriteCount(w)
  {
    hide Pieces, Configs;
  }

  lemma {:induction false} CountIs(ws: seq<Watchpoint>, k: nat)
    requires k <= |ws| && WellFormed(ws)
    ensures |Entries(ws, k)| == CountBefore(ws, k)
  {
    hide Reported, WriteOnly, ReportedCount, WriteCount;
    if k > 0 {
      CountIs(ws, k - 1);
      CountsOf(ws[k - 1]);
    }
  }

  /** The count of pieces says in advance what the result will show. */
  lemma CountsFitExactly(ws: seq<Watchpoint>)
    requires WellFormed(ws)
    ensures CountsFit(ws) <==> NumbersFit(ws)
  {
    hide Entries, Reported, ReportedCount, CountBefore;
    if CountsFit(ws) {
      forall n: nat | 128 <= n < |Entries(ws, |ws|)|
        ensures Entries(ws, |ws|)[n].watch == WatchWrite
      {
        var i := Owner(ws, |ws|, n);
        OwnEntries(ws, i, n);
        CountIs(ws, i);
        CountsOf(ws[i]);
      }
    } else {
      var i: nat :| i < |ws| && ReportedCount(ws[i]) > 0 && CountBefore(ws, i) + ReportedCount(ws[i]) > 128;
      CountIs(ws, i);
      CountsOf(ws[i]);
      var n := |Entries(ws, i)| + |Reported(ws[i])| - 1;
      Disowned(ws, i, n, |Reported(ws[i])| - 1);
      OwnEntries(ws, i, n);
    }
  }

  /**
   * A number beyond 127 does not fit its `int8_t`. The lists are exact, for every watchpoint and
   * every entry, precisely when the piece counts fit.
   */
  lemma ListsExactly(ws: seq<Watchpoint>)
    requires WellFormed(ws)
    ensures CountsFit(ws) <==>
            forall i: nat, n: nat :: i < |ws| && n < |Entries(ws, |ws|)| ==> Exact(ws, i, n)
  {
    hide Entries, Exact, Listed, CountsFit;
    CountsFitExactly(ws);
    if NumbersFit(ws) {
      forall i: nat, n: nat | i < |ws| && n < |Entries(ws, |ws|)|
        ensures Exact(ws, i, n)
      {
        ExactWhenFitting(ws, i, n);
      }
    } else {
      var n: nat :| 128 <= n < |Entries(ws, |ws|)| && Entries(ws, |ws|)[n].watch != WatchWrite;
      var i := Owner(ws, |ws|, n);
      NumbersStaySmall(ws, i, n);
      NotExact(ws, i, n);
    }
  }

  /** One-byte execution watchpoints, one behind the other. */
  function Bytes(n: nat): (ws: seq<Watchpoint>)
    ensures WellFormed(ws) && |ws| == n
  {
    seq(n, i requires 0 <= i => Watchpoint(Range(i, i + 1), 1, 0, 0, []))
  }

  lemma OneByte(k: nat)
    ensures |Pieces(Range(k, k + 1), WatchExec)| == 1
  {
    hide Partition;
    assert First(k, k + 1) == 1;
    assert |Split(k + 1, k + 1)| == 0;
  }

  lemma ByteCounts(n: nat, k: nat)
    requires k < n
    ensures ReportedCount(Bytes(n)[k]) == 1 && WriteCount(Bytes(n)[k]) == 0
  {
    hide Pieces;
    OneByte(k);
  }

  lemma {:induction false} BytesCount(n: nat, k: nat)
    requires k <= n
    ensures CountBefore(Bytes(n), k) == k
  {
    hide ReportedCount, WriteCount, Bytes;
    if k > 0 {
      ByteCounts(n, k - 1);
      BytesCount(n, k - 1);
    }
  }

  /** 129 of them: the last one does not list its own entry. */
  lemma TooManyEntries()
    ensures |Entries(Bytes(129), 129)| == 129
    ensures !Exact(Bytes(129), 128, 128) && !CountsFit(Bytes(129))
  {
    hide Entries, Reported, Bytes, Exact, Listed, ReportedCount, CountBefore;
    var ws := Bytes(129);
    ByteCounts(129, 128);
    BytesCount(129, 128);
    BytesCount(129, 129);
    CountIs(ws, 129);
    CountIs(ws, 128);
    CountsOf(ws[128]);
    Disowned(ws, 128, 128, 0);
    OwnEntries(ws, 128, 128);
    NumbersStaySmall(ws, 128, 128);
    NotExact(ws, 128, 128);
  }

  lemma NotExact(ws: seq<Watchpoint>, i: nat, n: nat)
    requires i < |ws| && WellFormed(ws) && n < |Entries(ws, |ws|)| && n !in Listed(ws, i)
    requires Owns(ws, i, n) && Entries(ws, |ws|)[n].watch != WatchWrite
    ensures !Exact(ws, i, n)
  {
  }
}
