/**
 * What every step of the writer keeps. `Core` holds between any two pieces of a
 * critical section; `SleepOk` says that nobody sleeps through a wake-up.
 */
module WriterInvariant {
  import opened Prelude
  import opened BlockFile
  import opened WriterProtocol
  import opened Spans

  /** How many bytes of the stream are in finished blocks of the file. */
  function Written(s: State): nat { |RawBytes(s.blocks)| }

  function StartOf(p: Option<Span>): Option<nat> { if p.Some? then Some(p.value.lo) else None }

  ghost predicate Shape(c: Config, s: State) {
    && |s.ring| == c.capacity
    && |s.phases| == |s.threadPos| == c.threads
    && (forall i | 0 <= i < |s.phases| :: s.threadPos[i] == StartOf(s.phases[i].Piece()))
    && Written(s) <= s.nextPos <= s.endPos == s.reservedPos <= s.writePos == |s.stream|
    && s.writePos <= s.uptoPos <= Completed(s) + c.capacity
  }

  /** The block a thread holds is a real, whole piece of the stream not yet in the file. */
  ghost predicate PhaseOk(c: Config, s: State, p: Phase)
    requires s.nextPos <= |s.stream|
  {
    && (p.Busy() ==>
          && 0 < p.length <= c.blockSize
          && p.start + p.length <= s.nextPos
          && (p.length == c.blockSize || (s.closing && p.start + p.length == s.endPos)))
    && (p.Compressing? ==> |p.fed| <= p.length && p.fed == s.stream[p.start..p.start + |p.fed|])
    && (p.Turn? || p.Writing? ==> Readable(c.dec, BlockOf(s, p)))
    && (p.Writing? ==>
          && p.start == Written(s)
          && p.written <= |BlockBytes(BlockOf(s, p))|
          && s.file == FileBytes(s.blocks) + BlockBytes(BlockOf(s, p))[..p.written])
    && (p.Exited? ==> MayExit(s))
  }

  function PiecesOf(s: State): Pieces {
    seq(|s.phases|, i requires 0 <= i < |s.phases| => s.phases[i].Piece())
  }

  /** Blocks in flight: each one sound, all disjoint and, without errors, in one chain. */
  ghost predicate Flight(c: Config, s: State)
    requires s.nextPos <= |s.stream|
  {
    && (forall i | 0 <= i < |s.phases| :: PhaseOk(c, s, s.phases[i]))
    && Within(PiecesOf(s), Written(s), s.nextPos)
    && Disjoint(PiecesOf(s))
    && (!s.writeError ==> Chain(PiecesOf(s), Written(s), s.nextPos))
  }

  /** Finished blocks: readable, non-empty, and all of full size except a final one. */
  ghost predicate BlocksOk(c: Config, s: State) {
    && AllReadable(c.dec, s.blocks)
    && (forall i | 0 <= i < |s.blocks| :: 0 < |s.blocks[i].raw| <= c.blockSize)
    && (forall i | 0 <= i < |s.blocks| && |s.blocks[i].raw| < c.blockSize ::
          i == |s.blocks| - 1 && s.closing && Written(s) == s.endPos)
  }

  ghost predicate FileOk(c: Config, s: State)
    requires Written(s) <= |s.stream|
  {
    && BlocksOk(c, s)
    && RawBytes(s.blocks) == s.stream[..Written(s)]
    && ((forall i | 0 <= i < |s.phases| :: !s.phases[i].Writing?) ==> s.file == FileBytes(s.blocks))
  }

  /** Every byte from the oldest unfinished position on is intact in its ring cell. */
  ghost predicate RingOk(c: Config, s: State)
    requires 0 < c.capacity == |s.ring| && s.writePos == |s.stream|
  {
    forall k | Completed(s) <= k < s.writePos :: s.ring[c.Cell(k)] == s.stream[k]
  }

  ghost predicate ProducerOk(c: Config, s: State) {
    && (s.error ==> s.writeError)
    && (s.closing <==> s.producer.Joining? || s.producer.Done?)
    && (s.producer.Closing? || s.closing ==> s.endPos == s.writePos && s.calls == [])
    && (s.producer.Waiting? ==> s.reservedPos == s.writePos)
    && (s.producer.Done? ==> (s.writeError ==> s.error) && forall i | 0 <= i < |s.phases| :: s.phases[i].Exited?)
    && (!s.error ==> s.stream + s.producer.Pending() + Flatten(s.calls) == Flatten(c.calls))
  }

  ghost predicate Core(c: Config, s: State) {
    && c.Valid() && 0 < c.capacity
    && Shape(c, s)
    && Flight(c, s)
    && FileOk(c, s)
    && RingOk(c, s)
    && ProducerOk(c, s)
  }

  /** No wake-up is lost: whoever sleeps has nothing to do. */
  ghost predicate SleepOk(c: Config, s: State) {
    && (forall i | 0 <= i < |s.phases| :: s.phases[i].Asleep? ==> !Dispatchable(c, s) && !MayExit(s))
    && (forall i | 0 <= i < |s.phases| :: s.phases[i].Turn? && s.phases[i].asleep ==>
          !s.writeError && EarlierBusy(s, s.phases[i].start))
    && (s.producer.Waiting? && s.producer.asleep ==>
          !s.writeError && s.reservedPos >= Completed(s) + c.capacity)
  }

  ghost predicate Inv(c: Config, s: State) { Core(c, s) && SleepOk(c, s) }

  lemma InitInv(c: Config)
    requires c.Valid()
    ensures Inv(c, Init(c))
  {
    CapacityPositive(c);
    var s := Init(c);
    assert Completed(s) == 0;
    assert s.stream + s.producer.Pending() + Flatten(s.calls) == Flatten(c.calls);
  }
}
