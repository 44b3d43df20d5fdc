/**
 * The blocks in flight between the end of the file and the dispatch position:
 * one optional span per thread.
 */
module Spans {
  import opened Prelude
  import opened WriterProtocol

  type Pieces = seq<Option<Span>>

  ghost predicate Within(ps: Pieces, lo: nat, hi: nat) {
    forall i | 0 <= i < |ps| && ps[i].Some? :: lo <= ps[i].value.lo < ps[i].value.hi <= hi
  }

  ghost predicate Disjoint(ps: Pieces) {
    forall i, j | 0 <= i < |ps| && 0 <= j < |ps| && i != j && ps[i].Some? && ps[j].Some? ::
      ps[i].value.hi <= ps[j].value.lo || ps[j].value.hi <= ps[i].value.lo
  }

  /** Some thread holds the span that begins at `pos`. */
  ghost predicate Held(ps: Pieces, pos: nat) {
    exists i | 0 <= i < |ps| :: ps[i].Some? && ps[i].value.lo == pos
  }

  /** The spans follow one another from `lo` to `hi`. */
  ghost predicate Chain(ps: Pieces, lo: nat, hi: nat) {
    && (lo == hi || Held(ps, lo))
    && forall i | 0 <= i < |ps| && ps[i].Some? :: ps[i].value.hi == hi || Held(ps, ps[i].value.hi)
  }

  /** Dispatching the next block extends the chain at its end. */
  lemma Dispatch(ps: Pieces, i: nat, lo: nat, hi: nat, hi': nat)
    requires i < |ps| && ps[i].None? && lo <= hi < hi'
    requires Within(ps, lo, hi) && Disjoint(ps)
    ensures Within(ps[i := Some(Span(hi, hi'))], lo, hi') && Disjoint(ps[i := Some(Span(hi, hi'))])
    ensures Chain(ps, lo, hi) ==> Chain(ps[i := Some(Span(hi, hi'))], lo, hi')
  {
    var qs := ps[i := Some(Span(hi, hi'))];
    assert qs[i] == Some(Span(hi, hi'));
    forall pos: nat | Held(ps, pos)
      ensures Held(qs, pos)
    {
      var j :| 0 <= j < |ps| && ps[j].Some? && ps[j].value.lo == pos;
      assert qs[j] == ps[j];
    }
  }

  /** Writing out the first block and letting go of it moves the start of the chain. */
  lemma Retire(ps: Pieces, i: nat, lo: nat, hi: nat)
    requires i < |ps| && ps[i].Some? && ps[i].value.lo == lo
    requires Within(ps, lo, hi) && Disjoint(ps)
    ensures Within(ps[i := None], ps[i].value.hi, hi) && Disjoint(ps[i := None])
    ensures Chain(ps, lo, hi) ==> Chain(ps[i := None], ps[i].value.hi, hi)
  {
    var qs, mid := ps[i := None], ps[i].value.hi;
    forall j | 0 <= j < |qs| && qs[j].Some?
      ensures mid <= qs[j].value.lo
    {
      assert ps[j] == qs[j];
    }
    forall pos: nat | Held(ps, pos) && pos != lo
      ensures Held(qs, pos)
    {
      var j :| 0 <= j < |ps| && ps[j].Some? && ps[j].value.lo == pos;
      assert qs[j] == ps[j];
    }
  }

  /** Letting go of any block keeps the others in order. */
  lemma Drop(ps: Pieces, i: nat, lo: nat, hi: nat)
    requires i < |ps| && Within(ps, lo, hi) && Disjoint(ps)
    ensures Within(ps[i := None], lo, hi) && Disjoint(ps[i := None])
  {
  }

  /** In a chain, a span with no earlier one is the first. */
  lemma FirstInChain(ps: Pieces, i: nat, lo: nat, hi: nat)
    requires i < |ps| && ps[i].Some? && Within(ps, lo, hi) && Chain(ps, lo, hi)
    requires forall j | 0 <= j < |ps| && ps[j].Some? :: ps[i].value.lo <= ps[j].value.lo
    ensures ps[i].value.lo == lo
  {
    var j :| 0 <= j < |ps| && ps[j].Some? && ps[j].value.lo == lo;
    assert ps[i].value.lo <= ps[j].value.lo;
  }
}
