/** Every step of the writer keeps its invariant. */
module WriterSteps {
  import opened Prelude
  import opened BlockFile
  import opened WriterProtocol
  import opened Spans
  import opened WriterInvariant

  // ---- what each part of the invariant depends on

  /** A held block stays sound while the stream grows and the file moves on without it. */
  lemma PhaseFrame(c: Config, s: State, t: State, p: Phase)
    requires s.nextPos <= |s.stream| && PhaseOk(c, s, p)
    requires s.stream <= t.stream && s.nextPos <= t.nextPos <= |t.stream|
    requires s.closing ==> t.closing && t.endPos == s.endPos
    requires p.Writing? ==> t.file == s.file && t.blocks == s.blocks
    requires p.Exited? ==> MayExit(t)
    ensures PhaseOk(c, t, p)
  {
    hide FileBytes, RawBytes, BlockBytes;
    if p.Busy() {
      assert t.stream[p.start..p.start + p.length] == s.stream[p.start..p.start + p.length];
      if p.Compressing? {
        assert t.stream[p.start..p.start + |p.fed|] == s.stream[p.start..p.start + |p.fed|];
      }
    }
  }

  lemma FlightFrame(c: Config, s: State, t: State)
    requires s.nextPos <= |s.stream| && Flight(c, s)
    requires s.stream <= t.stream && s.nextPos == t.nextPos <= |t.stream|
    requires s.closing ==> t.closing && t.endPos == s.endPos
    requires t.file == s.file && t.blocks == s.blocks && t.phases == s.phases
    requires s.writeError == t.writeError
    ensures Flight(c, t)
  {
    hide FileBytes, RawBytes, BlockBytes, Within, Disjoint, Chain, PhaseOk;
    assert PiecesOf(t) == PiecesOf(s);
    forall i | 0 <= i < |s.phases|
      ensures PhaseOk(c, t, t.phases[i])
    {
      assert PhaseOk(c, s, s.phases[i]);
      ExitFrame(c, s, t, s.phases[i]);
      PhaseFrame(c, s, t, s.phases[i]);
    }
  }

  lemma ExitFrame(c: Config, s: State, t: State, p: Phase)
    requires s.nextPos <= |s.stream| && PhaseOk(c, s, p)
    requires s.closing ==> t.closing && t.endPos == s.endPos
    requires s.nextPos == t.nextPos && s.writeError == t.writeError
    ensures p.Exited? ==> MayExit(t)
  {
  }

  lemma FileFrame(c: Config, s: State, t: State)
    requires Written(s) <= |s.stream| && FileOk(c, s)
    requires s.stream <= t.stream && t.file == s.file && t.blocks == s.blocks && |t.phases| == |s.phases|
    requires s.closing ==> t.closing && t.endPos == s.endPos
    requires forall i | 0 <= i < |s.phases| :: s.phases[i].Writing? ==> t.phases[i].Writing?
    ensures FileOk(c, t)
  {
    hide FileBytes, RawBytes, BlockBytes;
    assert t.stream[..Written(s)] == s.stream[..Written(s)];
  }

  lemma RingFrame(c: Config, s: State, t: State)
    requires 0 < c.capacity == |s.ring| && s.writePos == |s.stream| && RingOk(c, s)
    requires t.ring == s.ring && t.stream == s.stream && t.writePos == s.writePos
    requires Completed(s) <= Completed(t)
    ensures RingOk(c, t)
  {
    hide Config.Cell, Completed;
  }

  /** Changes of the producer's own variables touch nothing the threads rely on. */
  lemma ProducerFrame(c: Config, s: State, t: State)
    requires Core(c, s)
    requires t == s.(producer := t.producer, calls := t.calls, uptoPos := t.uptoPos, error := t.error)
    ensures Completed(t) == Completed(s)
    ensures Flight(c, t) && FileOk(c, t) && RingOk(c, t)
  {
    hide FileBytes, RawBytes, BlockBytes, Flight, FileOk, RingOk, ProducerOk, PhaseOk;
    FlightFrame(c, s, t);
    FileFrame(c, s, t);
    RingFrame(c, s, t);
  }

  // ---- pieces of critical sections

  lemma WakePhase(c: Config, s: State, p: Phase)
    requires s.nextPos <= |s.stream| && PhaseOk(c, s, p)
    ensures PhaseOk(c, s, p.Wake()) && p.Wake().Piece() == p.Piece()
  {
    hide FileBytes, RawBytes, BlockBytes;
  }

  lemma BroadcastFlight(c: Config, s: State)
    requires s.nextPos <= |s.stream| && Flight(c, s)
    ensures Flight(c, Broadcast(s)) && PiecesOf(Broadcast(s)) == PiecesOf(s)
  {
    hide FileBytes, RawBytes, BlockBytes, PhaseOk, Within, Disjoint, Chain;
    var t := Broadcast(s);
    forall i | 0 <= i < |s.phases|
      ensures PhaseOk(c, t, t.phases[i]) && t.phases[i].Piece() == s.phases[i].Piece()
    {
      WakePhase(c, s, s.phases[i]);
      SamePhase(c, s, t, s.phases[i].Wake());
    }
    assert PiecesOf(t) == PiecesOf(s);
  }

  lemma SamePhase(c: Config, s: State, t: State, p: Phase)
    requires s.nextPos <= |s.stream| && PhaseOk(c, s, p)
    requires t.blocks == s.blocks && t.nextPos == s.nextPos && t.endPos == s.endPos && t.closing == s.closing
    requires t.stream == s.stream && t.file == s.file && t.writeError == s.writeError
    ensures PhaseOk(c, t, p)
  {
    hide FileBytes, RawBytes, BlockBytes;
  }

  /** Nobody sleeps after a broadcast. */
  lemma BroadcastSleep(c: Config, s: State)
    ensures SleepOk(c, Broadcast(s))
  {
  }

  lemma BroadcastCore(c: Config, s: State)
    requires Core(c, s)
    ensures Core(c, Broadcast(s)) && SleepOk(c, Broadcast(s))
  {
    hide FileBytes, RawBytes, BlockBytes, Flatten, Config.Cell, Config.Valid, Flight, FileOk, RingOk, SleepOk;
    BroadcastSleep(c, s);
    BroadcastFlight(c, s);
    var t := Broadcast(s);
    forall i | 0 <= i < |s.phases|
      ensures t.phases[i] == s.phases[i].Wake()
      ensures s.threadPos[i] == StartOf(t.phases[i].Piece())
    {
      assert PiecesOf(s)[i] == PiecesOf(t)[i];
    }
    FileFrame(c, s, t);
    RingFrame(c, s, t);
  }

  lemma PublishCore(c: Config, s: State)
    requires Core(c, s) && !s.closing
    ensures Core(c, Publish(s)) && SleepOk(c, Publish(s))
    ensures Publish(s).reservedPos == Publish(s).writePos == s.writePos && Publish(s).error == s.error
    ensures Publish(s).producer == s.producer.Wake() && Publish(s).calls == s.calls
  {
    hide FileBytes, RawBytes, BlockBytes, Flatten, Config.Cell, Config.Valid, Flight, FileOk, RingOk, SleepOk;
    var t := s.(endPos := s.writePos, reservedPos := s.writePos);
    assert Completed(t) == Completed(s);
    FlightFrame(c, s, t);
    FileFrame(c, s, t);
    RingFrame(c, s, t);
    BroadcastCore(c, t);
  }

  /** One round of the reservation loop; the producer's next phase is the caller's business. */
  lemma ReserveCore(c: Config, s: State, wait: bool)
    requires Core(c, s)
    ensures var r := Reserve(c, s, wait);
            && Core(c, r.0)
            && r.0 == s.(uptoPos := r.0.uptoPos, error := r.0.error)
            && (s.error ==> r.0.error)
            && (r.1.Sleep? ==> !s.writeError && !r.0.error && s.reservedPos >= Completed(s) + c.capacity)
  {
    hide FileBytes, RawBytes, BlockBytes, Flatten, Config.Cell, Config.Valid, Flight, FileOk, RingOk, Completed;
    ProducerFrame(c, s, Reserve(c, s, wait).0);
  }

  /** Setting the producer's phase. */
  lemma SetProducer(c: Config, s: State, p: Producer)
    requires Core(c, s) && !s.producer.Done?
    requires !s.error ==> p.Pending() == s.producer.Pending()
    requires p.Idle? || p.Copying? || p.Waiting? || p.Closing?
    requires !s.closing
    requires p.Closing? ==> s.endPos == s.writePos && s.calls == []
    requires p.Waiting? ==> s.reservedPos == s.writePos
    ensures Core(c, s.(producer := p))
  {
    hide FileBytes, RawBytes, BlockBytes, Flatten, Config.Cell, Config.Valid, Flight, FileOk, RingOk, Completed;
    ProducerFrame(c, s, s.(producer := p));
  }

  /** Threads keep sleeping soundly when only the producer moves. */
  lemma ProducerSleep(c: Config, s: State, t: State)
    requires SleepOk(c, s)
    requires t == s.(producer := t.producer, calls := t.calls, uptoPos := t.uptoPos, error := t.error)
    requires t.producer.Waiting? && t.producer.asleep ==>
               !s.writeError && s.reservedPos >= Completed(s) + c.capacity
    ensures SleepOk(c, t)
  {
    hide MinPos;
  }

  // ---- steps of the producer

  lemma StartWriteInv(c: Config, s: State)
    requires Inv(c, s) && Enabled(c, s, StartWrite)
    ensures Inv(c, Next(c, s, StartWrite))
  {
    hide FileBytes, RawBytes, BlockBytes, Config.Cell, Config.Valid, Flight, FileOk, RingOk, Completed, SleepOk;
    var t := Next(c, s, StartWrite);
    ProducerFrame(c, s, t);
    ProducerSleep(c, s, t);
    assert s.stream + s.producer.Pending() == s.stream;
    Associative(s.stream, s.calls[0], Flatten(s.calls[1..]));
  }

  lemma ReserveAndWaitInv(c: Config, s: State)
    requires Inv(c, s) && Enabled(c, s, ReserveAndWait)
    ensures Inv(c, Next(c, s, ReserveAndWait))
  {
    hide FileBytes, RawBytes, BlockBytes, Config.Cell, Config.Valid, Flight, FileOk, RingOk, Completed, SleepOk,
         Publish, Reserve, Flatten;
    PublishCore(c, s);
    var u := Publish(s);
    ReserveCore(c, u, true);
    var r := Reserve(c, u, true);
    var t := AfterReserve(r, s.producer.rest);
    SetProducer(c, r.0, t.producer);
    ProducerSleep(c, u, t);
  }

  lemma ProducerRecheckInv(c: Config, s: State)
    requires Inv(c, s) && Enabled(c, s, ProducerRecheck)
    ensures Inv(c, Next(c, s, ProducerRecheck))
  {
    hide FileBytes, RawBytes, BlockBytes, Config.Cell, Config.Valid, Flight, FileOk, RingOk, Completed, SleepOk,
         Reserve, Flatten;
    ReserveCore(c, s, true);
    var r := Reserve(c, s, true);
    var t := AfterReserve(r, s.producer.rest);
    SetProducer(c, r.0, t.producer);
    ProducerSleep(c, s, t);
  }

  /** `update_reservation(NOWAIT)`, then on to `p`. */
  lemma ReserveNow(c: Config, s: State, p: Producer)
    requires Core(c, s) && !s.closing && s.producer.Pending() == [] == p.Pending()
    requires p.Idle? || (p.Closing? && s.calls == [])
    ensures Inv(c, Reserve(c, Publish(s), false).0.(producer := p))
  {
    hide FileBytes, RawBytes, BlockBytes, Config.Cell, Config.Valid, Flight, FileOk, RingOk, Completed, SleepOk,
         Publish, Reserve, Flatten;
    PublishCore(c, s);
    var u := Publish(s);
    ReserveCore(c, u, false);
    var r := Reserve(c, u, false);
    SetProducer(c, r.0, p);
    ProducerSleep(c, u, r.0.(producer := p));
  }

  lemma FinishWriteInv(c: Config, s: State)
    requires Inv(c, s) && Enabled(c, s, FinishWrite)
    ensures Inv(c, Next(c, s, FinishWrite))
  {
    hide FileBytes, RawBytes, BlockBytes, Config.Cell, Config.Valid, Flight, FileOk, RingOk, Completed, SleepOk,
         Publish, Reserve, Flatten;
    if !s.error && s.writePos - s.reservedPos >= c.capacity / 2 {
      ReserveNow(c, s, Idle);
    } else {
      SetProducer(c, s, Idle);
      ProducerSleep(c, s, s.(producer := Idle));
    }
  }

  lemma BeginCloseInv(c: Config, s: State)
    requires Inv(c, s) && Enabled(c, s, BeginClose)
    ensures Inv(c, Next(c, s, BeginClose))
  {
    hide FileBytes, RawBytes, BlockBytes, Config.Cell, Config.Valid, Flight, FileOk, RingOk, Completed, SleepOk,
         Publish, Reserve, Flatten;
    ReserveNow(c, s, Closing);
  }

  lemma SetClosingInv(c: Config, s: State)
    requires Inv(c, s) && Enabled(c, s, SetClosing)
    ensures Inv(c, Next(c, s, SetClosing))
  {
    hide FileBytes, RawBytes, BlockBytes, Config.Cell, Config.Valid, Flight, FileOk, RingOk, SleepOk, Broadcast,
         Flatten;
    var t := s.(closing := true, producer := Joining);
    assert Completed(t) == Completed(s);
    FlightFrame(c, s, t);
    FileFrame(c, s, t);
    RingFrame(c, s, t);
    BroadcastCore(c, t);
  }

  lemma JoinInv(c: Config, s: State)
    requires Inv(c, s) && Enabled(c, s, Join)
    ensures Inv(c, Next(c, s, Join))
  {
    hide FileBytes, RawBytes, BlockBytes, Config.Cell, Config.Valid, Flight, FileOk, RingOk, SleepOk, Completed,
         Flatten;
    var t := Next(c, s, Join);
    ProducerFrame(c, s, t);
    ProducerSleep(c, s, t);
  }

  // ---- ring cells

  lemma CellShift(c: Config, pos: nat, d: nat)
    requires 0 < c.capacity && c.Cell(pos) + d < c.capacity
    ensures c.Cell(pos + d) == c.Cell(pos) + d
  {
    var q := pos / c.capacity;
    assert pos == q * c.capacity + c.Cell(pos);
    Mod(pos + d, q, c.Cell(pos) + d, c.capacity);
  }

  /** Positions less than one lap apart never share a cell. */
  lemma CellDistinct(c: Config, a: nat, b: nat)
    requires 0 < c.capacity && a < b < a + c.capacity
    ensures c.Cell(a) != c.Cell(b)
  {
    var m, qa, qb := c.capacity, a / c.capacity, b / c.capacity;
    assert a == qa * m + c.Cell(a) && b == qb * m + c.Cell(b);
    assert (qb - qa) * m == qb * m - qa * m;
    if c.Cell(a) == c.Cell(b) {
      SmallMultiple(qb - qa, m);
    }
  }

  /** The producer's copy lands beyond every byte still in use. */
  lemma CopyRing(c: Config, s: State)
    requires Core(c, s) && Enabled(c, s, Copy)
    ensures var t := Next(c, s, Copy);
            && Completed(t) == Completed(s) && |t.ring| == |s.ring|
            && t.writePos == |t.stream| <= t.uptoPos
            && RingOk(c, t)
  {
    hide FileBytes, RawBytes, BlockBytes, Config.Valid, Flight, FileOk, SleepOk, Completed, ProducerOk, Config.Cell;
    var t := Next(c, s, Copy);
    var at, n := c.Cell(s.writePos), CopyAmount(c, s);
    var chunk := s.producer.rest[..n];
    assert Completed(t) == Completed(s) by { SameCompleted(s, t); }
    forall k | Completed(s) <= k < t.writePos
      ensures t.ring[c.Cell(k)] == t.stream[k]
    {
      if k < s.writePos {
        var cell := c.Cell(k);
        if at <= cell < at + n {
          CellShift(c, s.writePos, cell - at);
          CellDistinct(c, k, s.writePos + (cell - at));
          assert false;
        }
        assert t.ring[cell] == s.ring[cell];
      } else {
        CellShift(c, s.writePos, k - s.writePos);
        assert t.ring[at + (k - s.writePos)] == chunk[k - s.writePos];
      }
    }
  }

  lemma SameCompleted(s: State, t: State)
    requires s.threadPos == t.threadPos && s.nextPos == t.nextPos
    ensures Completed(s) == Completed(t)
  {
  }

  lemma CopyInv(c: Config, s: State)
    requires Inv(c, s) && Enabled(c, s, Copy)
    ensures Inv(c, Next(c, s, Copy))
  {
    hide FileBytes, RawBytes, BlockBytes, Config.Valid, Flight, FileOk, RingOk, Completed, Config.Cell, Flatten,
         Overwrite;
    var t := Next(c, s, Copy);
    CopyRing(c, s);
    FlightFrame(c, s, t);
    FileFrame(c, s, t);
    var rest, n := s.producer.rest, CopyAmount(c, s);
    assert rest == rest[..n] + rest[n..];
    Associative(s.stream, rest[..n], rest[n..]);
  }

  // ---- steps of a thread

  /** Taking the next block does not move the oldest unfinished position; letting go never moves it back. */
  lemma CompletedMoves(ps: seq<Option<nat>>, i: nat, next: nat, next': nat)
    requires i < |ps| && next <= next'
    ensures ps[i].None? ==> MinPos(ps[i := Some(next)], next') == MinPos(ps, next)
    ensures MinPos(ps, next) <= MinPos(ps[i := None], next)
  {
    var taken, freed := ps[i := Some(next)], ps[i := None];
    var m, mt, mf := MinPos(ps, next), MinPos(taken, next'), MinPos(freed, next);
    assert taken[i] == Some(next);
    assert forall j | 0 <= j < |ps| && j != i :: taken[j] == ps[j] && freed[j] == ps[j];
  }

  /** Replacing the phase of thread `i`, with everything the other threads rely on still in place. */
  lemma SetPhase(c: Config, s: State, t: State, i: nat)
    requires s.nextPos <= |s.stream| && Flight(c, s) && i < |s.phases|
    requires |t.phases| == |s.phases| && forall j | 0 <= j < |s.phases| && j != i :: t.phases[j] == s.phases[j]
    requires s.stream == t.stream && s.nextPos <= t.nextPos <= |t.stream|
    requires s.closing == t.closing && t.endPos == s.endPos
    requires (t.file == s.file && t.blocks == s.blocks) ||
             forall j | 0 <= j < |s.phases| && j != i :: !s.phases[j].Writing?
    requires MayExit(s) ==> MayExit(t)
    requires PhaseOk(c, t, t.phases[i])
    ensures forall j | 0 <= j < |t.phases| :: PhaseOk(c, t, t.phases[j])
    ensures PiecesOf(t) == PiecesOf(s)[i := t.phases[i].Piece()]
  {
    hide FileBytes, RawBytes, BlockBytes, Within, Disjoint, Chain, PhaseOk, MayExit;
    forall j | 0 <= j < |t.phases|
      ensures PhaseOk(c, t, t.phases[j])
    {
      if j != i {
        assert PhaseOk(c, s, s.phases[j]);
        ExitMeans(c, s, s.phases[j]);
        PhaseFrame(c, s, t, s.phases[j]);
      }
    }
    assert PiecesOf(t) == PiecesOf(s)[i := t.phases[i].Piece()];
  }

  lemma ExitMeans(c: Config, s: State, p: Phase)
    requires s.nextPos <= |s.stream| && PhaseOk(c, s, p)
    ensures p.Exited? ==> MayExit(s)
  {
  }

  lemma DispatchInv(c: Config, s: State, i: nat)
    requires Inv(c, s) && i < |s.phases| && s.phases[i].Ready? && Dispatchable(c, s)
    ensures Inv(c, Top(c, s, i))
  {
    hide FileBytes, RawBytes, BlockBytes, Config.Valid, RingOk, Config.Cell, Flatten, Within, Disjoint, Chain,
         FileOk, PhaseOk, MinPos, SleepOk;
    var t := Top(c, s, i);
    CompletedMoves(s.threadPos, i, s.nextPos, t.nextPos);
    assert PiecesOf(s)[i] == None;
    FreshBlock(c, s, i);
    SetPhase(c, s, t, i);
    Dispatch(PiecesOf(s), i, Written(s), s.nextPos, t.nextPos);
    FileFrame(c, s, t);
    RingFrame(c, s, t);
    DispatchSleep(c, s, i);
  }

  /** Whoever sleeps while thread `i` takes a block still has nothing to do afterwards. */
  lemma DispatchSleep(c: Config, s: State, i: nat)
    requires SleepOk(c, s) && i < |s.phases| == |s.threadPos| && s.threadPos[i].None? && Dispatchable(c, s)
    requires Completed(Top(c, s, i)) == Completed(s)
    ensures SleepOk(c, Top(c, s, i))
  {
    hide Completed;
    var t := Top(c, s, i);
    forall j | 0 <= j < |t.phases| && t.phases[j].Turn? && t.phases[j].asleep
      ensures EarlierBusy(t, t.phases[j].start)
    {
      assert EarlierBusy(s, s.phases[j].start);
      var k :| 0 <= k < |s.threadPos| && s.threadPos[k].Some? && s.threadPos[k].value < s.phases[j].start;
      assert t.threadPos[k] == s.threadPos[k];
    }
  }

  lemma FreshBlock(c: Config, s: State, i: nat)
    requires Core(c, s) && i < |s.phases| && s.phases[i].Ready? && Dispatchable(c, s)
    ensures s.nextPos < Top(c, s, i).nextPos <= s.endPos
    ensures PhaseOk(c, Top(c, s, i), Top(c, s, i).phases[i])
  {
    hide FileBytes, RawBytes, BlockBytes, RingOk, Flight, FileOk, ProducerOk;
  }

  lemma RestInv(c: Config, s: State, i: nat)
    requires Inv(c, s) && i < |s.phases| && s.phases[i].Ready? && !Dispatchable(c, s)
    ensures Inv(c, Top(c, s, i))
  {
    hide FileBytes, RawBytes, BlockBytes, Config.Valid, RingOk, Config.Cell, Flatten, Within, Disjoint, Chain,
         FileOk, Completed;
    var t := Top(c, s, i);
    SameCompleted(s, t);
    SetPhase(c, s, t, i);
    assert PiecesOf(s)[i] == None;
    assert PiecesOf(t) == PiecesOf(s);
    FileFrame(c, s, t);
    RingFrame(c, s, t);
  }

  lemma TopInv(c: Config, s: State, i: nat)
    requires Inv(c, s) && i < |s.phases| && s.phases[i].Ready?
    ensures Inv(c, Top(c, s, i))
  {
    hide Inv, Top;
    if Dispatchable(c, s) {
      DispatchInv(c, s, i);
    } else {
      RestInv(c, s, i);
    }
  }

  /** Setting `write_error` keeps everything but the sleepers' peace. */
  lemma ErrorCore(c: Config, s: State)
    requires Core(c, s) && !s.producer.Done?
    ensures Core(c, s.(writeError := true))
  {
    hide FileBytes, RawBytes, BlockBytes, Config.Valid, RingOk, Config.Cell, Flatten, Within, Disjoint, Chain,
         FileOk, PhaseOk, Completed;
    var t := s.(writeError := true);
    SameCompleted(s, t);
    assert PiecesOf(t) == PiecesOf(s);
    forall i | 0 <= i < |s.phases|
      ensures PhaseOk(c, t, t.phases[i])
    {
      assert PhaseOk(c, s, s.phases[i]);
      ExitMeans(c, s, s.phases[i]);
      PhaseFrame(c, s, t, s.phases[i]);
    }
    FileFrame(c, s, t);
    RingFrame(c, s, t);
  }

  /** A thread gives its block up after an error. */
  lemma GiveUpInv(c: Config, s: State, i: nat)
    requires Core(c, s) && s.writeError && i < |s.phases|
    requires s.phases[i].Compressing? || s.phases[i].Turn?
    ensures Inv(c, Release(s, i)) && i < |Release(s, i).phases| && Release(s, i).phases[i].Ready?
  {
    hide FileBytes, RawBytes, BlockBytes, Config.Valid, RingOk, Config.Cell, Flatten, Within, Disjoint, Chain,
         FileOk, MinPos, SleepOk, PhaseOk;
    var t := s.(threadPos := s.threadPos[i := None], phases := s.phases[i := Ready]);
    CompletedMoves(s.threadPos, i, s.nextPos, s.nextPos);
    ReadyOk(c, t);
    SetPhase(c, s, t, i);
    Drop(PiecesOf(s), i, Written(s), s.nextPos);
    FileFrame(c, s, t);
    RingFrame(c, s, t);
    BroadcastCore(c, t);
  }

  /** At most one thread writes: a second one would hold the same block. */
  lemma OneWriter(c: Config, s: State, i: nat, j: nat)
    requires s.nextPos <= |s.stream| && Flight(c, s)
    requires i < |s.phases| && j < |s.phases| && i != j
    requires s.phases[i].Busy() && s.phases[i].start == Written(s)
    ensures !s.phases[j].Writing?
  {
    hide FileBytes, RawBytes, BlockBytes, Chain;
    assert PiecesOf(s)[i] == s.phases[i].Piece() && PiecesOf(s)[j] == s.phases[j].Piece();
    assert PhaseOk(c, s, s.phases[j]);
  }

  /** The block just written extends the finished part of the file. */
  lemma AppendBlock(c: Config, s: State, i: nat)
    requires Core(c, s) && i < |s.phases| && s.phases[i].Writing?
    requires s.phases[i].written == |BlockBytes(BlockOf(s, s.phases[i]))|
    ensures var t := s.(blocks := s.blocks + [BlockOf(s, s.phases[i])]);
            && Written(t) == Written(s) + s.phases[i].length <= s.nextPos
            && BlocksOk(c, t)
            && RawBytes(t.blocks) == t.stream[..Written(t)]
            && t.file == FileBytes(t.blocks)
  {
    hide BlockBytes, RawBytes, FileBytes, Config.Valid, RingOk, ProducerOk, Config.Cell, Flatten, Within, Disjoint,
         Chain, BlocksOk, Completed;
    var p := s.phases[i];
    var b := BlockOf(s, p);
    assert PhaseOk(c, s, p);
    BytesOfAppend(s.blocks, b);
    assert s.stream[..p.start + p.length] == s.stream[..p.start] + b.raw;
    assert BlockBytes(b)[..p.written] == BlockBytes(b);
    SizesOfAppend(c, s, p);
  }

  lemma SizesOfAppend(c: Config, s: State, p: Phase)
    requires s.nextPos <= s.endPos && s.nextPos <= |s.stream| && PhaseOk(c, s, p) && BlocksOk(c, s)
    requires p.Writing?
    ensures BlocksOk(c, s.(blocks := s.blocks + [BlockOf(s, p)]))
  {
    hide BlockBytes, RawBytes, FileBytes;
    FullSoFar(c, s, p);
    BytesOfAppend(s.blocks, BlockOf(s, p));
  }

  lemma BytesOfAppend(bs: seq<Block>, b: Block)
    ensures RawBytes(bs + [b]) == RawBytes(bs) + b.raw
    ensures FileBytes(bs + [b]) == FileBytes(bs) + BlockBytes(b)
  {
    hide BlockBytes;
    assert (bs + [b])[..|bs|] == bs;
  }

  /** As long as a block is in flight, the finished ones are all of full size. */
  lemma FullSoFar(c: Config, s: State, p: Phase)
    requires s.nextPos <= s.endPos && s.nextPos <= |s.stream| && PhaseOk(c, s, p) && BlocksOk(c, s)
    requires p.Busy() && p.start == Written(s)
    ensures forall k | 0 <= k < |s.blocks| :: |s.blocks[k].raw| == c.blockSize
  {
    hide RawBytes, FileBytes, BlockBytes;
  }

  lemma ReadyOk(c: Config, s: State)
    requires s.nextPos <= |s.stream|
    ensures PhaseOk(c, s, Ready)
  {
  }

  /** The state after a thread has written its block, before it wakes the others. */
  function Retired(s: State, i: nat): State
    requires i < |s.phases| == |s.threadPos| && s.phases[i].Writing?
    requires s.phases[i].start + s.phases[i].length <= |s.stream|
  {
    s.(blocks := s.blocks + [BlockOf(s, s.phases[i])], threadPos := s.threadPos[i := None],
       phases := s.phases[i := Ready])
  }

  lemma RetireFlight(c: Config, s: State, i: nat)
    requires Core(c, s) && i < |s.phases| && s.phases[i].Writing?
    requires s.phases[i].start + s.phases[i].length <= |s.stream|
    requires s.phases[i].written == |BlockBytes(BlockOf(s, s.phases[i]))|
    ensures var t := Retired(s, i);
            && t.nextPos <= |t.stream| && Flight(c, t) && Written(t) <= |t.stream| && FileOk(c, t)
            && Written(t) <= t.nextPos
  {
    hide FileBytes, RawBytes, BlockBytes, BlocksOk, Config.Valid, RingOk, Config.Cell, Flatten, Within, Disjoint,
         Chain, PhaseOk, MinPos, SleepOk;
    WriterFirst(c, s, i);
    var t := Retired(s, i);
    AppendBlock(c, s, i);
    SameBlocks(c, s.(blocks := t.blocks), t);
    forall j | 0 <= j < |s.phases| && j != i
      ensures !s.phases[j].Writing?
    {
      OneWriter(c, s, i, j);
    }
    ReadyOk(c, t);
    SetPhase(c, s, t, i);
    Retire(PiecesOf(s), i, Written(s), s.nextPos);
  }

  lemma RetireInv(c: Config, s: State, i: nat)
    requires Core(c, s) && i < |s.phases| && s.phases[i].Writing?
    requires s.phases[i].written == |BlockBytes(BlockOf(s, s.phases[i]))|
    ensures var u := Release(s.(blocks := s.blocks + [BlockOf(s, s.phases[i])]), i);
            Inv(c, u) && i < |u.phases| && u.phases[i].Ready?
  {
    hide FileBytes, RawBytes, BlockBytes, BlocksOk, Config.Valid, RingOk, Config.Cell, Flatten, MinPos, SleepOk,
         FileOk, Flight, Within, Disjoint, Chain, PhaseOk;
    WriterFirst(c, s, i);
    RetireFlight(c, s, i);
    var t := Retired(s, i);
    CompletedMoves(s.threadPos, i, s.nextPos, s.nextPos);
    RingFrame(c, s, t);
    BroadcastCore(c, t);
  }

  lemma WriterFirst(c: Config, s: State, i: nat)
    requires s.nextPos <= |s.stream| && Flight(c, s) && i < |s.phases| && s.phases[i].Writing?
    ensures s.phases[i].start == Written(s) && Written(s) + s.phases[i].length <= |s.stream|
    ensures PiecesOf(s)[i] == Some(Span(Written(s), Written(s) + s.phases[i].length))
  {
    hide RawBytes, FileBytes, BlockBytes, Within, Disjoint, Chain;
    assert PhaseOk(c, s, s.phases[i]);
  }

  lemma SameBlocks(c: Config, s: State, t: State)
    requires BlocksOk(c, s) && t.blocks == s.blocks && t.closing == s.closing && t.endPos == s.endPos
    ensures BlocksOk(c, t)
  {
    hide RawBytes;
  }

  /** Replacing thread `i`'s phase by one that holds the same block. */
  lemma KeepBlock(c: Config, s: State, p: Phase, i: nat)
    requires Core(c, s) && i < |s.phases| && p.Piece() == s.phases[i].Piece() && !s.phases[i].Exited?
    requires PhaseOk(c, s.(phases := s.phases[i := p]), p)
    requires s.phases[i].Writing? ==> p.Writing?
    ensures Core(c, s.(phases := s.phases[i := p]))
  {
    hide FileBytes, RawBytes, BlockBytes, Config.Valid, RingOk, Config.Cell, Flatten, Within, Disjoint, Chain,
         FileOk, Completed, PhaseOk;
    var t := s.(phases := s.phases[i := p]);
    SameCompleted(s, t);
    SetPhase(c, s, t, i);
    assert PiecesOf(s)[i] == p.Piece();
    assert PiecesOf(t) == PiecesOf(s);
    FileFrame(c, s, t);
    RingFrame(c, s, t);
  }

  lemma KeepSleep(c: Config, s: State, p: Phase, i: nat)
    requires SleepOk(c, s) && i < |s.phases|
    requires !p.Asleep? && (p.Turn? && p.asleep ==> !s.writeError && EarlierBusy(s, p.start))
    ensures SleepOk(c, s.(phases := s.phases[i := p]))
  {
    hide Completed;
    SameCompleted(s, s.(phases := s.phases[i := p]));
  }

  /** A slice of the ring that does not wrap around is the slice of the stream it stands for. */
  lemma RingSlice(c: Config, s: State, pos: nat, n: nat)
    requires 0 < c.capacity == |s.ring| && s.writePos == |s.stream| && RingOk(c, s)
    requires Completed(s) <= pos && pos + n <= s.writePos && c.Cell(pos) + n <= c.capacity
    ensures s.ring[c.Cell(pos)..c.Cell(pos) + n] == s.stream[pos..pos + n]
  {
    hide Config.Cell, Completed;
    var at := c.Cell(pos);
    var got, want := s.ring[at..at + n], s.stream[pos..pos + n];
    forall k | 0 <= k < n
      ensures got[k] == want[k]
    {
      CellShift(c, pos, k);
      assert s.ring[c.Cell(pos + k)] == s.stream[pos + k];
    }
  }

  /** The block a thread is compressing has not been overwritten. */
  lemma BlockInRing(c: Config, s: State, i: nat)
    requires Core(c, s) && i < |s.phases| && s.phases[i].Busy()
    ensures Completed(s) <= s.phases[i].start && s.phases[i].start + s.phases[i].length <= s.writePos == |s.stream|
  {
    hide FileBytes, RawBytes, BlockBytes, Config.Valid, Config.Cell, Flatten, Within, Disjoint, Chain, FileOk,
         ProducerOk, RingOk;
    assert PhaseOk(c, s, s.phases[i]);
    assert s.threadPos[i] == Some(s.phases[i].start);
  }

  lemma FeedInv(c: Config, s: State, i: nat, n: nat)
    requires Inv(c, s) && Enabled(c, s, Feed(i, n))
    ensures Inv(c, Next(c, s, Feed(i, n)))
  {
    hide Shape, Flight, FileOk, ProducerOk, RingOk, SleepOk, Config.Valid, Config.Cell, Completed;
    BlockInRing(c, s, i);
    var p := s.phases[i];
    var pos := p.start + |p.fed|;
    RingAndStream(c, s);
    RingSlice(c, s, pos, n);
    var q := p.(fed := p.fed + s.ring[c.Cell(pos)..c.Cell(pos) + n]);
    FedOk(c, s, i, s.stream[pos..pos + n]);
    KeepBlock(c, s, q, i);
    KeepSleep(c, s, q, i);
  }

  lemma RingAndStream(c: Config, s: State)
    requires Core(c, s)
    ensures 0 < c.capacity == |s.ring| && s.writePos == |s.stream| && RingOk(c, s)
  {
    hide Flight, FileOk, ProducerOk, RingOk, Config.Valid;
  }

  lemma FedOk(c: Config, s: State, i: nat, more: seq<byte>)
    requires Core(c, s) && i < |s.phases| && s.phases[i].Compressing?
    requires var pos := s.phases[i].start + |s.phases[i].fed|;
             && pos + |more| <= |s.stream| && more == s.stream[pos..pos + |more|]
             && |s.phases[i].fed| + |more| <= s.phases[i].length
    ensures var p := s.phases[i];
            var q := p.(fed := p.fed + more);
            PhaseOk(c, s.(phases := s.phases[i := q]), q)
  {
    hide FileBytes, RawBytes, BlockBytes, Config.Valid, Config.Cell, Flatten, Within, Disjoint, Chain, FileOk,
         ProducerOk, RingOk, Completed;
    var p := s.phases[i];
    assert PhaseOk(c, s, p);
    var pos := p.start + |p.fed|;
    assert s.stream[p.start..pos + |more|] == s.stream[p.start..pos] + s.stream[pos..pos + |more|];
  }

  lemma WriteSomeInv(c: Config, s: State, i: nat, n: nat)
    requires Inv(c, s) && Enabled(c, s, WriteSome(i, n))
    ensures Inv(c, Next(c, s, WriteSome(i, n)))
  {
    hide FileBytes, RawBytes, BlockBytes, BlocksOk, Config.Valid, RingOk, Config.Cell, Flatten, Within, Disjoint,
         Chain, PhaseOk, Completed, SleepOk;
    var t := Next(c, s, WriteSome(i, n));
    SameCompleted(s, t);
    WriterFirst(c, s, i);
    forall j | 0 <= j < |s.phases| && j != i
      ensures !s.phases[j].Writing?
    {
      OneWriter(c, s, i, j);
    }
    MoreWritten(c, s, i, n);
    SetPhase(c, s, t, i);
    assert PiecesOf(t) == PiecesOf(s);
    SameBlocks(c, s, t);
    RingFrame(c, s, t);
    assert t.phases[i].Writing?;
    WriteSleep(c, s, i, n);
  }

  lemma WriteSleep(c: Config, s: State, i: nat, n: nat)
    requires c.Valid() && SleepOk(c, s) && Enabled(c, s, WriteSome(i, n))
    ensures SleepOk(c, Next(c, s, WriteSome(i, n)))
  {
    hide Completed, BlockBytes;
    var t := Next(c, s, WriteSome(i, n));
    SameCompleted(s, t);
  }

  lemma MoreWritten(c: Config, s: State, i: nat, n: nat)
    requires c.Valid() && s.nextPos <= |s.stream| && Flight(c, s) && Enabled(c, s, WriteSome(i, n))
    ensures var t := Next(c, s, WriteSome(i, n)); PhaseOk(c, t, t.phases[i])
  {
    hide FileBytes, RawBytes, BlockBytes, Within, Disjoint, Chain;
    var p := s.phases[i];
    assert PhaseOk(c, s, p);
    var bytes := BlockBytes(BlockOf(s, p));
    assert bytes[..p.written + n] == bytes[..p.written] + bytes[p.written..p.written + n];
    Associative(FileBytes(s.blocks), bytes[..p.written], bytes[p.written..p.written + n]);
  }

  lemma WriteDoneInv(c: Config, s: State, i: nat)
    requires Inv(c, s) && Enabled(c, s, WriteDone(i))
    ensures Inv(c, Next(c, s, WriteDone(i)))
  {
    hide Core, SleepOk, Config.Valid, Release, Top, BlockBytes;
    RetireInv(c, s, i);
    TopInv(c, Release(s.(blocks := s.blocks + [BlockOf(s, s.phases[i])]), i), i);
  }

  /** Nobody is before this thread, so its block is the next one of the file. */
  lemma MyTurn(c: Config, s: State, i: nat)
    requires Core(c, s) && i < |s.phases| && s.phases[i].Busy() && !s.writeError
    requires !EarlierBusy(s, s.phases[i].start) && !s.phases[i].Writing?
    ensures s.phases[i].start == Written(s) && s.file == FileBytes(s.blocks)
  {
    hide FileBytes, RawBytes, BlockBytes, RingOk, ProducerOk, Disjoint, BlocksOk;
    var ps := PiecesOf(s);
    assert ps[i] == s.phases[i].Piece();
    forall j | 0 <= j < |ps| && ps[j].Some?
      ensures ps[i].value.lo <= ps[j].value.lo
    {
      assert s.threadPos[j] == StartOf(s.phases[j].Piece());
    }
    FirstInChain(ps, i, Written(s), s.nextPos);
    forall j | 0 <= j < |s.phases|
      ensures !s.phases[j].Writing?
    {
      if j != i {
        OneWriter(c, s, i, j);
      }
    }
  }

  lemma TakeTurnInv(c: Config, s: State, i: nat, packed: seq<byte>)
    requires Core(c, s) && i < |s.phases| == |s.threadPos|
    requires s.phases[i].Compressing? || s.phases[i].Turn?
    requires !s.writeError ==> SleepOk(c, s)
    requires !s.writeError ==>
               var p := s.phases[i];
               p.start + p.length <= |s.stream| &&
               Readable(c.dec, Block(s.stream[p.start..p.start + p.length], packed))
    ensures Inv(c, TakeTurn(c, s, i, s.phases[i].start, s.phases[i].length, packed))
  {
    hide Core, SleepOk, Config.Valid, Release, Top, BlockBytes, FileBytes, RawBytes, EarlierBusy;
    var p := s.phases[i];
    if s.writeError {
      GiveUpInv(c, s, i);
      TopInv(c, Release(s, i), i);
    } else {
      var q := if EarlierBusy(s, p.start) then Turn(p.start, p.length, packed, true)
               else Writing(p.start, p.length, packed, 0);
      TurnOk(c, s, q, i);
      KeepBlock(c, s, q, i);
      KeepSleep(c, s, q, i);
    }
  }

  lemma TurnOk(c: Config, s: State, q: Phase, i: nat)
    requires Core(c, s) && i < |s.phases| && !s.writeError
    requires s.phases[i].Compressing? || s.phases[i].Turn?
    requires q.Turn? || (q.Writing? && q.written == 0 && !EarlierBusy(s, q.start))
    requires q.start == s.phases[i].start && q.length == s.phases[i].length
    requires q.start + q.length <= |s.stream| && Readable(c.dec, BlockOf(s, q))
    ensures PhaseOk(c, s.(phases := s.phases[i := q]), q)
  {
    hide BlockBytes, FileBytes, RawBytes, RingOk, ProducerOk, Within, Chain, Disjoint, BlocksOk, EarlierBusy;
    assert PhaseOk(c, s, s.phases[i]);
    if q.Writing? {
      MyTurn(c, s, i);
      assert s.file == FileBytes(s.blocks) + BlockBytes(BlockOf(s, q))[..0];
    }
  }

  /** A thread that has fed its whole block has fed its part of the stream, and the producer is still there. */
  lemma CompressedFacts(c: Config, s: State, i: nat)
    requires Core(c, s) && i < |s.phases| && s.phases[i].Compressing? && |s.phases[i].fed| == s.phases[i].length
    ensures var p := s.phases[i];
            && |s.phases| == |s.threadPos| && !s.producer.Done?
            && p.start + p.length <= |s.stream| && p.fed == s.stream[p.start..p.start + p.length]
  {
    hide Config.Valid, BlockBytes, FileBytes, RawBytes, RingOk, FileOk, Within, Chain, Disjoint, Flatten;
    assert PhaseOk(c, s, s.phases[i]);
  }

  lemma CompressFailedInv(c: Config, s: State, i: nat)
    requires Inv(c, s) && Enabled(c, s, CompressDone(i, []))
    ensures Inv(c, Next(c, s, CompressDone(i, [])))
  {
    hide Core, SleepOk, Config.Valid, TakeTurn, BlockBytes, Readable;
    CompressedFacts(c, s, i);
    ErrorCore(c, s);
    TakeTurnInv(c, s.(writeError := true), i, []);
  }

  lemma CompressDoneInv(c: Config, s: State, i: nat, packed: seq<byte>)
    requires Inv(c, s) && Enabled(c, s, CompressDone(i, packed))
    ensures Inv(c, Next(c, s, CompressDone(i, packed)))
  {
    hide Core, SleepOk, Config.Valid, TakeTurn, BlockBytes, Readable;
    if packed == [] {
      CompressFailedInv(c, s, i);
    } else {
      CompressedFacts(c, s, i);
      assert s == s.(writeError := s.writeError || packed == []);
      TakeTurnInv(c, s, i, packed);
    }
  }

  lemma TurnCheckInv(c: Config, s: State, i: nat)
    requires Inv(c, s) && Enabled(c, s, TurnCheck(i))
    ensures Inv(c, Next(c, s, TurnCheck(i)))
  {
    hide SleepOk, Config.Valid, TakeTurn, BlockBytes, FileBytes, RawBytes, RingOk, FileOk, Within, Chain, Disjoint;
    assert PhaseOk(c, s, s.phases[i]);
    TakeTurnInv(c, s, i, s.phases[i].packed);
  }

  lemma SpuriousThreadInv(c: Config, s: State, i: nat)
    requires Inv(c, s) && Enabled(c, s, SpuriousThread(i))
    ensures Inv(c, Next(c, s, SpuriousThread(i)))
  {
    hide SleepOk, Config.Valid, BlockBytes, FileBytes, RawBytes, RingOk, FileOk, Within, Chain, Disjoint, PhaseOk;
    var p := s.phases[i];
    assert PhaseOk(c, s, p);
    WakePhase(c, s, p);
    SamePhase(c, s, s.(phases := s.phases[i := p.Wake()]), p.Wake());
    KeepBlock(c, s, p.Wake(), i);
    KeepSleep(c, s, p.Wake(), i);
  }

  lemma SpuriousProducerInv(c: Config, s: State)
    requires Inv(c, s) && Enabled(c, s, SpuriousProducer)
    ensures Inv(c, Next(c, s, SpuriousProducer))
  {
    hide SleepOk, Config.Valid, BlockBytes, FileBytes, RawBytes, RingOk, FileOk, Flight, Completed, Flatten;
    SetProducer(c, s, s.producer.Wake());
    ProducerSleep(c, s, s.(producer := s.producer.Wake()));
  }

  // ---- all steps, all runs

  lemma StepInv(c: Config, s: State, a: Action)
    requires Inv(c, s) && Enabled(c, s, a)
    ensures Inv(c, Next(c, s, a))
  {
    hide Inv, Next;
    match a
    case StartWrite => StartWriteInv(c, s);
    case Copy => CopyInv(c, s);
    case ReserveAndWait => ReserveAndWaitInv(c, s);
    case FinishWrite => FinishWriteInv(c, s);
    case ProducerRecheck => ProducerRecheckInv(c, s);
    case BeginClose => BeginCloseInv(c, s);
    case SetClosing => SetClosingInv(c, s);
    case Join => JoinInv(c, s);
    case ThreadTop(i) => ThreadTopInv(c, s, i);
    case Feed(i, n) => FeedInv(c, s, i, n);
    case CompressDone(i, packed) => CompressDoneInv(c, s, i, packed);
    case TurnCheck(i) => TurnCheckInv(c, s, i);
    case WriteSome(i, n) => WriteSomeInv(c, s, i, n);
    case WriteDone(i) => WriteDoneInv(c, s, i);
    case SpuriousThread(i) => SpuriousThreadInv(c, s, i);
    case SpuriousProducer => SpuriousProducerInv(c, s);
  }

  lemma ThreadTopInv(c: Config, s: State, i: nat)
    requires Inv(c, s) && Enabled(c, s, ThreadTop(i))
    ensures Inv(c, Next(c, s, ThreadTop(i)))
  {
    hide Core, SleepOk, Config.Valid, Top;
    TopInv(c, s, i);
  }
}
