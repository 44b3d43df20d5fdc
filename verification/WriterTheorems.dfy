/** What the writer guarantees in every run: order, ring safety, progress, and the data on disk. */
module WriterTheorems {
  import opened Prelude
  import opened BlockFile
  import opened WriterProtocol
  import opened Spans
  import opened WriterInvariant
  import opened WriterSteps

  /** `states` is what the system goes through while `acts` happen, in any interleaving. */
  ghost predicate IsRun(c: Config, states: seq<State>, acts: seq<Action>)
    requires c.Valid()
  {
    && |states| == |acts| + 1
    && states[0] == Init(c)
    && forall k | 0 <= k < |acts| :: Enabled(c, states[k], acts[k]) && states[k + 1] == Next(c, states[k], acts[k])
  }

  lemma {:induction false} RunInv(c: Config, states: seq<State>, acts: seq<Action>, k: nat)
    requires c.Valid() && IsRun(c, states, acts) && k < |states|
    ensures Inv(c, states[k])
  {
    hide Inv, Next, Enabled, Init, Config.Valid;
    if k == 0 {
      InitInv(c);
    } else {
      RunInv(c, states, acts, k - 1);
      StepInv(c, states[k - 1], acts[k - 1]);
    }
  }

  // ---- order in the file

  /** Consecutive, readable, non-empty pieces of the stream, all of full size but the last. */
  ghost predicate InOrder(c: Config, bs: seq<Block>, stream: seq<byte>) {
    && AllReadable(c.dec, bs)
    && RawBytes(bs) <= stream
    && (forall i | 0 <= i < |bs| :: 0 < |bs[i].raw| <= c.blockSize)
    && (forall i | 0 <= i < |bs| - 1 :: |bs[i].raw| == c.blockSize)
  }

  /**
   * In every reachable state, error paths included, at most one thread is writing and the
   * file is a prefix of the blocks in stream order.
   */
  lemma FileIsPrefix(c: Config, states: seq<State>, acts: seq<Action>, k: nat)
    requires c.Valid() && IsRun(c, states, acts) && k < |states|
    ensures var s := states[k];
            && (forall i, j |
                  0 <= i < |s.phases| && 0 <= j < |s.phases| && s.phases[i].Writing? && s.phases[j].Writing? :: i == j)
            && exists bs :: InOrder(c, bs, s.stream) && s.file <= FileBytes(bs)
  {
    hide Next, Enabled, Init, IsRun, FileBytes, RawBytes, BlockBytes, SleepOk, RingOk, ProducerOk, Config.Valid;
    RunInv(c, states, acts, k);
    var s := states[k];
    forall i, j | 0 <= i < |s.phases| && 0 <= j < |s.phases| && s.phases[i].Writing? && s.phases[j].Writing?
      ensures i == j
    {
      WriterFirst(c, s, i);
      if i != j {
        OneWriter(c, s, i, j);
      }
    }
    if i :| 0 <= i < |s.phases| && s.phases[i].Writing? {
      WriterFirst(c, s, i);
      WithCurrent(c, s, i);
    } else {
      assert InOrder(c, s.blocks, s.stream);
    }
  }

  lemma WithCurrent(c: Config, s: State, i: nat)
    requires Core(c, s) && i < |s.phases| && s.phases[i].Writing?
    requires s.phases[i].start + s.phases[i].length <= |s.stream|
    ensures var bs := s.blocks + [BlockOf(s, s.phases[i])];
            InOrder(c, bs, s.stream) && s.file <= FileBytes(bs)
  {
    hide FileBytes, RawBytes, BlockBytes, RingOk, ProducerOk, Config.Valid, Within, Disjoint, Chain, Completed;
    var p := s.phases[i];
    assert PhaseOk(c, s, p);
    var b := BlockOf(s, p);
    BytesOfAppend(s.blocks, b);
    FullSoFar(c, s, p);
    assert s.stream[..p.start + p.length] == s.stream[..p.start] + b.raw;
    assert forall j | 0 <= j < |s.blocks| :: (s.blocks + [b])[j] == s.blocks[j];
    assert BlockBytes(b) == BlockBytes(b)[..p.written] + BlockBytes(b)[p.written..];
    Associative(FileBytes(s.blocks), BlockBytes(b)[..p.written], BlockBytes(b)[p.written..]);
  }

  // ---- the ring

  /** The positions are ordered, and the producer is at most one lap ahead of the oldest unfinished byte. */
  lemma RingBounds(c: Config, states: seq<State>, acts: seq<Action>, k: nat)
    requires c.Valid() && IsRun(c, states, acts) && k < |states|
    ensures var s := states[k];
            s.nextPos <= s.endPos <= s.writePos <= Completed(s) + c.capacity && Completed(s) <= s.nextPos
  {
    hide Next, Enabled, Init, IsRun, Flight, FileOk, RingOk, ProducerOk, Config.Valid;
    RunInv(c, states, acts, k);
  }

  /** No step ever moves the oldest unfinished position back. */
  lemma CompletedNeverDecreases(c: Config, s: State, a: Action)
    requires Inv(c, s) && Enabled(c, s, a)
    ensures Completed(s) <= Completed(Next(c, s, a))
  {
    hide Flight, FileOk, RingOk, ProducerOk, Config.Valid, Completed, SleepOk, BlockBytes, Top, TakeTurn, Release;
    var t := Next(c, s, a);
    match a
    case ThreadTop(i) => TopCompleted(c, s, i);
    case CompressDone(i, packed) =>
      var u := s.(writeError := s.writeError || packed == []);
      SameCompleted(s, u);
      TurnCompleted(c, u, i, packed);
    case TurnCheck(i) => TurnCompleted(c, s, i, s.phases[i].packed);
    case WriteDone(i) =>
      var u := s.(blocks := s.blocks + [BlockOf(s, s.phases[i])]);
      SameCompleted(s, u);
      ReleaseCompleted(c, u, i);
    case _ => SameCompleted(s, t);
  }

  lemma TurnCompleted(c: Config, s: State, i: nat, packed: seq<byte>)
    requires i < |s.phases| == |s.threadPos| && s.phases[i].Busy() && s.nextPos <= s.endPos
    ensures Completed(s) <= Completed(TakeTurn(c, s, i, s.phases[i].start, s.phases[i].length, packed))
  {
    hide Completed, Top, Release;
    if s.writeError {
      ReleaseCompleted(c, s, i);
    } else {
      SameCompleted(s, TakeTurn(c, s, i, s.phases[i].start, s.phases[i].length, packed));
    }
  }

  lemma TopCompleted(c: Config, s: State, i: nat)
    requires i < |s.phases| == |s.threadPos| && s.threadPos[i].None? && s.nextPos <= s.endPos
    ensures Completed(s) == Completed(Top(c, s, i))
  {
    hide MinPos;
    CompletedMoves(s.threadPos, i, s.nextPos, Top(c, s, i).nextPos);
  }

  lemma ReleaseCompleted(c: Config, s: State, i: nat)
    requires i < |s.phases| == |s.threadPos| && s.nextPos <= s.endPos
    ensures Completed(s) <= Completed(Top(c, Release(s, i), i))
  {
    hide MinPos, Top;
    CompletedMoves(s.threadPos, i, s.nextPos, s.nextPos);
    TopCompleted(c, Release(s, i), i);
  }

  /** What a thread has fed to the encoder is exactly its part of the stream, across wrap-around. */
  lemma FedIsStream(c: Config, states: seq<State>, acts: seq<Action>, k: nat, i: nat)
    requires c.Valid() && IsRun(c, states, acts) && k < |states|
    requires i < |states[k].phases| && states[k].phases[i].Compressing?
    ensures var s := states[k];
            var p := s.phases[i];
            p.start + |p.fed| <= |s.stream| && p.fed == s.stream[p.start..p.start + |p.fed|]
  {
    hide Next, Enabled, Init, IsRun, FileOk, RingOk, ProducerOk, Config.Valid, Completed, BlockBytes;
    RunInv(c, states, acts, k);
    assert PhaseOk(c, states[k], states[k].phases[i]);
  }

  /** The cells a copy overwrites are not those of any byte a thread may still read. */
  lemma CopyHitsNoLiveCell(c: Config, s: State, i: nat, live: nat, copied: nat)
    requires Inv(c, s) && Enabled(c, s, Copy)
    requires i < |s.phases| && s.phases[i].Busy()
    requires s.phases[i].start <= live < s.phases[i].start + s.phases[i].length
    requires s.writePos <= copied < Next(c, s, Copy).writePos
    ensures c.Cell(live) != c.Cell(copied)
  {
    hide FileOk, RingOk, ProducerOk, Config.Valid, SleepOk, BlockBytes, Config.Cell;
    assert PhaseOk(c, s, s.phases[i]);
    assert s.threadPos[i] == Some(s.phases[i].start);
    CellDistinct(c, live, copied);
  }

  // ---- progress

  /** The busy thread with the oldest block is never asleep. */
  lemma OldestIsAwake(c: Config, s: State) returns (i: nat)
    requires Inv(c, s) && exists j | 0 <= j < |s.phases| :: s.phases[j].Busy()
    ensures i < |s.phases| && s.phases[i].Busy() && !(s.phases[i].Turn? && s.phases[i].asleep)
  {
    hide FileOk, RingOk, ProducerOk, Config.Valid, BlockBytes, MinPos;
    var j :| 0 <= j < |s.phases| && s.phases[j].Busy();
    assert PhaseOk(c, s, s.phases[j]);
    assert s.threadPos[j] == StartOf(s.phases[j].Piece());
    assert Completed(s) <= s.phases[j].start < s.nextPos;
    i :| 0 <= i < |s.threadPos| && s.threadPos[i] == Some(Completed(s));
    assert s.threadPos[i] == StartOf(s.phases[i].Piece());
    assert !EarlierBusy(s, Completed(s));
  }

  /** With nobody busy, whoever still sleeps is waiting for a closed, drained writer: there is none. */
  lemma NobodyBusy(c: Config, s: State)
    requires Inv(c, s) && (forall j | 0 <= j < |s.phases| :: s.phases[j].Asleep? || s.phases[j].Exited?)
    ensures !(s.producer.Waiting? && s.producer.asleep)
    ensures s.producer.Joining? ==> forall j | 0 <= j < |s.phases| :: s.phases[j].Exited?
  {
    hide FileOk, RingOk, BlockBytes, MinPos;
    CapacityPositive(c);
    forall j | 0 <= j < |s.phases|
      ensures PhaseOk(c, s, s.phases[j]) && s.threadPos[j].None?
    {
    }
    assert Completed(s) == s.nextPos;
    assert s.phases[0].Asleep? || s.phases[0].Exited?;
  }

  lemma CompressStep(c: Config, s: State, i: nat) returns (a: Action)
    requires Core(c, s) && i < |s.phases| && s.phases[i].Compressing?
    ensures Enabled(c, s, a) && !a.Spurious() && !a.Join?
  {
    hide FileOk, RingOk, ProducerOk, BlockBytes, FileBytes, RawBytes, Completed, Config.Cell, Config.Valid;
    assert PhaseOk(c, s, s.phases[i]);
    a := if |s.phases[i].fed| == s.phases[i].length then CompressDone(i, []) else Feed(i, 1);
  }

  lemma WriteStep(c: Config, s: State, i: nat) returns (a: Action)
    requires Core(c, s) && i < |s.phases| && s.phases[i].Writing?
    ensures Enabled(c, s, a) && !a.Spurious() && !a.Join?
  {
    hide FileOk, RingOk, ProducerOk, BlockBytes, FileBytes, RawBytes, Completed, Config.Cell, Config.Valid;
    var p := s.phases[i];
    assert PhaseOk(c, s, p);
    a := if p.written == |BlockBytes(BlockOf(s, p))| then WriteDone(i) else WriteSome(i, 1);
  }

  /** The step a thread can take unless it sleeps or is gone. */
  lemma ThreadStep(c: Config, s: State, i: nat) returns (a: Action)
    requires Core(c, s) && i < |s.phases|
    requires s.phases[i].Ready? || (s.phases[i].Busy() && !(s.phases[i].Turn? && s.phases[i].asleep))
    ensures Enabled(c, s, a) && !a.Spurious() && !a.Join?
  {
    hide FileOk, RingOk, ProducerOk, Flight, Completed, Config.Cell, Config.Valid;
    match s.phases[i]
    case Ready => a := ThreadTop(i);
    case Compressing(_, _, _) => a := CompressStep(c, s, i);
    case Turn(_, _, _, _) => a := TurnCheck(i);
    case Writing(_, _, _, _) => a := WriteStep(c, s, i);
  }

  /** No deadlock: until the writer is closed some step other than a spurious wake-up is possible. */
  lemma Progress(c: Config, s: State) returns (a: Action)
    requires Inv(c, s) && !s.producer.Done?
    ensures Enabled(c, s, a) && !a.Spurious()
  {
    hide FileOk, RingOk, Flight, SleepOk, BlockBytes, Config.Cell, Completed, Flatten;
    if s.producer.Idle? {
      a := if s.calls == [] then BeginClose else StartWrite;
    } else if s.producer.Copying? {
      a := if s.producer.rest == [] || s.error then FinishWrite
           else if s.writePos < s.uptoPos then Copy else ReserveAndWait;
    } else if s.producer.Closing? {
      a := SetClosing;
    } else if s.producer.Waiting? && !s.producer.asleep {
      a := ProducerRecheck;
    } else if j :| 0 <= j < |s.phases| && s.phases[j].Ready? {
      a := ThreadStep(c, s, j);
    } else if j :| 0 <= j < |s.phases| && s.phases[j].Busy() {
      var i := OldestIsAwake(c, s);
      a := ThreadStep(c, s, i);
    } else {
      NobodyBusy(c, s);
      a := Join;
    }
  }

  // ---- a file that cannot be opened

  ghost predicate Refused(s: State) {
    && s.error && (forall i :: 0 <= i < |s.phases| ==> s.phases[i].Exited?)
    && s.stream == [] && s.file == [] && s.blocks == []
  }

  /** Whatever is written to it, a writer without a file stays in error and takes no byte. */
  lemma {:induction false} UnopenedTakesNothing(c: Config, states: seq<State>, acts: seq<Action>, k: nat)
    requires c.Valid() && |states| == |acts| + 1 && k < |states| && states[0] == Unopened(c)
    requires forall j :: 0 <= j < |acts| ==>
               Enabled(c, states[j], acts[j]) && states[j + 1] == Next(c, states[j], acts[j])
    ensures Refused(states[k])
  {
    hide Next, Enabled;
    if k > 0 {
      UnopenedTakesNothing(c, states, acts, k - 1);
      StaysRefused(c, states[k - 1], acts[k - 1]);
    }
  }

  lemma StaysRefused(c: Config, s: State, a: Action)
    requires c.Valid() && Refused(s) && Enabled(c, s, a)
    ensures Refused(Next(c, s, a))
  {
    hide Completed, BlockBytes, Overwrite, Config.Cell, Top, Release, TakeTurn;
  }
}
