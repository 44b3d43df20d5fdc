/** Closing the writer: it terminates under every schedule, and what is then on disk. */
module WriterTermination {
  import opened Prelude
  import opened BlockFile
  import opened WriterProtocol
  import opened Spans
  import opened WriterInvariant
  import opened WriterSteps
  import opened WriterTheorems

  /** No wake-up is lost: a thread or producer that sleeps unsignalled has a false guard. */
  lemma NoLostWakeup(c: Config, states: seq<State>, acts: seq<Action>, k: nat)
    requires c.Valid() && IsRun(c, states, acts) && k < |states|
    ensures SleepOk(c, states[k])
  {
    hide Next, Enabled, Init, IsRun, Core, SleepOk;
    RunInv(c, states, acts, k);
  }

  /** In no reachable state is everybody stuck. */
  lemma NoDeadlock(c: Config, states: seq<State>, acts: seq<Action>, k: nat)
    requires c.Valid() && IsRun(c, states, acts) && k < |states|
    ensures states[k].producer.Done? || exists a :: Enabled(c, states[k], a) && !a.Spurious()
  {
    hide Next, Enabled, Init, IsRun, Inv;
    RunInv(c, states, acts, k);
    if !states[k].producer.Done? {
      var a := Progress(c, states[k]);
    }
  }

  // ---- a measure for closing

  function Stage(p: Phase): nat { if p.Compressing? then 3 else if p.Turn? then 2 else if p.Writing? then 1 else 0 }

  /** Bytes still to feed to the encoder, or to write to the file. */
  function Left(p: Phase): nat {
    if p.Compressing? then Max(0, p.length - |p.fed|)
    else if p.Writing? then Max(0, HEADER_SIZE + |p.packed| - p.written)
    else 0
  }

  function Awake(p: Phase): nat { if p.Ready? || (p.Turn? && !p.asleep) then 1 else 0 }

  function Sum(f: Phase -> nat, ps: seq<Phase>): nat {
    if ps == [] then 0 else Sum(f, ps[..|ps| - 1]) + f(ps[|ps| - 1])
  }

  lemma {:induction false} SumSet(f: Phase -> nat, ps: seq<Phase>, i: nat, p: Phase)
    requires i < |ps|
    ensures Sum(f, ps[i := p]) + f(ps[i]) == Sum(f, ps) + f(p)
  {
    var last := |ps| - 1;
    if i == last {
      assert ps[i := p][..last] == ps[..last];
    } else {
      assert ps[i := p][..last] == ps[..last][i := p];
      SumSet(f, ps[..last], i, p);
    }
  }

  lemma {:induction false} SumSame(f: Phase -> nat, ps: seq<Phase>, qs: seq<Phase>)
    requires |ps| == |qs| && forall i | 0 <= i < |ps| :: f(ps[i]) == f(qs[i])
    ensures Sum(f, ps) == Sum(f, qs)
  {
    if ps != [] {
      SumSame(f, ps[..|ps| - 1], qs[..|qs| - 1]);
    }
  }

  datatype Rank = Rank(undispatched: int, stages: nat, left: nat, awake: nat) {
    /** Lexicographic order. */
    predicate Below(o: Rank) {
      || undispatched < o.undispatched
      || (undispatched == o.undispatched &&
          (stages < o.stages || (stages == o.stages && (left < o.left || (left == o.left && awake < o.awake)))))
    }
  }

  function RankOf(s: State): Rank {
    Rank(s.endPos - s.nextPos, Sum(Stage, s.phases), Sum(Left, s.phases), Sum(Awake, s.phases))
  }

  /** Changing one thread's phase changes the rank by that thread's share. */
  lemma RankSet(s: State, i: nat, p: Phase)
    requires i < |s.phases|
    ensures var r, r' := RankOf(s), RankOf(s.(phases := s.phases[i := p]));
            && r'.undispatched == r.undispatched
            && r'.stages + Stage(s.phases[i]) == r.stages + Stage(p)
            && r'.left + Left(s.phases[i]) == r.left + Left(p)
            && r'.awake + Awake(s.phases[i]) == r.awake + Awake(p)
  {
    hide Sum, Stage, Left, Awake;
    SumSet(Stage, s.phases, i, p);
    SumSet(Left, s.phases, i, p);
    SumSet(Awake, s.phases, i, p);
  }

  lemma RankBroadcast(s: State)
    ensures RankOf(Broadcast(s)).undispatched == RankOf(s).undispatched
    ensures RankOf(Broadcast(s)).stages == RankOf(s).stages
  {
    SumSame(Stage, s.phases, Broadcast(s).phases);
  }

  /** While closing, a pass through the top of the loop takes a block or leaves for good. */
  lemma RankTop(c: Config, s: State, i: nat)
    requires Core(c, s) && s.closing && i < |s.phases| && s.phases[i].Ready?
    ensures RankOf(Top(c, s, i)).Below(RankOf(s))
    ensures RankOf(Top(c, s, i)).undispatched <= RankOf(s).undispatched
    ensures RankOf(Top(c, s, i)).undispatched == RankOf(s).undispatched ==>
              RankOf(Top(c, s, i)).stages == RankOf(s).stages
  {
    hide FileOk, RingOk, ProducerOk, Flight, Completed, Sum;
    var t := Top(c, s, i);
    if Dispatchable(c, s) {
      FreshBlock(c, s, i);
    } else {
      RankSet(s, i, Exited);
    }
  }

  /** Letting go of a block is progress, whatever comes next. */
  lemma RankRelease(c: Config, s: State, s0: State, i: nat)
    requires i < |s0.phases| == |s0.threadPos| && s0.phases[i].Busy() && s0.closing
    requires s == Release(s0, i)
    requires Core(c, s) && i < |s.phases| && s.phases[i].Ready?
    ensures RankOf(Top(c, s, i)).Below(RankOf(s0))
  {
    hide Core, Top, RankOf;
    RankTop(c, s, i);
    var u := s0.(phases := s0.phases[i := Ready]);
    RankSet(s0, i, Ready);
    RankThreads(u, s0.(threadPos := s0.threadPos[i := None], phases := s0.phases[i := Ready]));
    RankBroadcast(s0.(threadPos := s0.threadPos[i := None], phases := s0.phases[i := Ready]));
  }

  lemma RankThreads(s: State, t: State)
    requires s.phases == t.phases && s.endPos == t.endPos && s.nextPos == t.nextPos
    ensures RankOf(s) == RankOf(t)
  {
  }

  lemma RankTurn(c: Config, s: State, i: nat, packed: seq<byte>)
    requires Core(c, s) && s.closing && i < |s.phases|
    requires s.phases[i].Compressing? || (s.phases[i].Turn? && !s.phases[i].asleep)
    ensures RankOf(TakeTurn(c, s, i, s.phases[i].start, s.phases[i].length, packed)).Below(RankOf(s))
  {
    hide FileOk, RingOk, ProducerOk, Flight, Completed, Sum, Top, Release, EarlierBusy;
    var p := s.phases[i];
    if s.writeError {
      GiveUpInv(c, s, i);
      RankRelease(c, Release(s, i), s, i);
    } else if EarlierBusy(s, p.start) {
      RankSet(s, i, Turn(p.start, p.length, packed, true));
    } else {
      RankSet(s, i, Writing(p.start, p.length, packed, 0));
    }
  }

  /** From the moment the producer joins, every step but a spurious wake-up brings the end closer. */
  lemma ClosingDecreases(c: Config, s: State, a: Action)
    requires Inv(c, s) && s.producer.Joining? && Enabled(c, s, a) && !a.Spurious() && !a.Join?
    ensures RankOf(Next(c, s, a)).Below(RankOf(s))
  {
    hide Shape, FileOk, RingOk, Flight, Completed, Sum, Top, Release, TakeTurn, BlockBytes, RankOf, Config.Cell,
         Config.Valid, SleepOk, Flatten, Stage, Left, Awake;
    match a
    case ThreadTop(i) => RankTop(c, s, i);
    case Feed(i, n) => RankFeed(c, s, i, n);
    case CompressDone(i, packed) =>
      var u := s.(writeError := s.writeError || packed == []);
      RankThreads(s, u);
      ErrorCore(c, s);
      RankTurn(c, u, i, packed);
    case TurnCheck(i) => RankTurn(c, s, i, s.phases[i].packed);
    case WriteSome(i, n) => RankWrite(c, s, i, n);
    case WriteDone(i) =>
      RetireInv(c, s, i);
      var u := s.(blocks := s.blocks + [BlockOf(s, s.phases[i])]);
      RankThreads(s, u);
      RankRelease(c, Release(u, i), u, i);
    case _ =>
  }

  lemma RankFeed(c: Config, s: State, i: nat, n: nat)
    requires Core(c, s) && Enabled(c, s, Feed(i, n))
    ensures RankOf(Next(c, s, Feed(i, n))).Below(RankOf(s))
  {
    hide Shape, FileOk, RingOk, Flight, Completed, RankOf, Config.Cell, Config.Valid, ProducerOk;
    var p := s.phases[i];
    var at := c.Cell(p.start + |p.fed|);
    RankSet(s, i, p.(fed := p.fed + s.ring[at..at + n]));
  }

  lemma RankWrite(c: Config, s: State, i: nat, n: nat)
    requires Core(c, s) && Enabled(c, s, WriteSome(i, n))
    ensures RankOf(Next(c, s, WriteSome(i, n))).Below(RankOf(s))
  {
    hide Shape, FileOk, RingOk, Flight, Completed, RankOf, Config.Cell, Config.Valid, ProducerOk;
    var p := s.phases[i];
    var q := p.(written := p.written + n);
    RankSet(s, i, q);
    RankThreads(s.(phases := s.phases[i := q]), Next(c, s, WriteSome(i, n)));
  }

  /** A schedule that never idles: while joining it picks some possible step, spurious wake-ups aside. */
  ghost predicate Diligent(c: Config, pick: State -> Action)
    requires c.Valid()
  {
    forall s: State | Inv(c, s) && s.producer.Joining? :: Enabled(c, s, pick(s)) && !pick(s).Spurious()
  }

  /** Following any such schedule, `close` comes to its end, with every thread gone. */
  ghost function Follow(c: Config, s: State, pick: State -> Action): (t: State)
    requires c.Valid() && Diligent(c, pick)
    requires Inv(c, s) && (s.producer.Joining? || s.producer.Done?)
    ensures Inv(c, t) && t.producer.Done?
    decreases if s.producer.Done? then 0 else 1,
              RankOf(s).undispatched, RankOf(s).stages, RankOf(s).left, RankOf(s).awake
  {
    if s.producer.Done? then s
    else
      var a := pick(s);
      StepInv(c, s, a);
      StillJoining(c, s, a);
      Undispatched(c, s);
      if a.Join? then Follow(c, Next(c, s, a), pick)
      else
        ClosingDecreases(c, s, a);
        Follow(c, Next(c, s, a), pick)
  }

  /** Some step that is not a spurious wake-up. */
  ghost function AnyStep(c: Config, s: State): (a: Action)
    requires Inv(c, s) && !s.producer.Done?
    ensures Enabled(c, s, a) && !a.Spurious()
  {
    StepExists(c, s);
    var a :| Enabled(c, s, a) && !a.Spurious();
    a
  }

  lemma StepExists(c: Config, s: State)
    requires Inv(c, s) && !s.producer.Done?
    ensures exists a :: Enabled(c, s, a) && !a.Spurious()
  {
    hide Inv, Enabled;
    var a := Progress(c, s);
  }

  /** There are such schedules: some step is always possible. */
  lemma SomeDiligent(c: Config)
    requires c.Valid()
    ensures exists pick :: Diligent(c, pick)
  {
    hide Inv, Enabled;
    var pick := s => if Inv(c, s) && s.producer.Joining? then AnyStep(c, s) else Join;
    assert Diligent(c, pick);
  }

  /** An endless run from the join on: what happens at each moment, by any rule whatever, until the end of close. */
  ghost predicate ClosingRun(c: Config, states: nat -> State, acts: nat -> Action)
    requires c.Valid()
  {
    && Inv(c, states(0)) && states(0).producer.Joining?
    && forall n: nat :: states(n).producer.Joining? ==>
         Enabled(c, states(n), acts(n)) && states(n + 1) == Next(c, states(n), acts(n))
  }

  /** Up to moment `n` the run is still joining, or it has come to its end. */
  lemma {:induction false} UpTo(c: Config, states: nat -> State, acts: nat -> Action, n: nat) returns (k: nat)
    requires c.Valid() && ClosingRun(c, states, acts)
    ensures k <= n && Inv(c, states(k)) && (states(k).producer.Done? || (k == n && states(k).producer.Joining?))
  {
    hide Inv, Enabled, Next;
    if n == 0 {
      k := 0;
    } else {
      k := UpTo(c, states, acts, n - 1);
      if states(k).producer.Joining? {
        StepInv(c, states(k), acts(k));
        StillJoining(c, states(k), acts(k));
        k := n;
      }
    }
  }

  /** Without further spurious wake-ups the rank falls until the end. */
  lemma {:induction false} RunsOut(c: Config, states: nat -> State, acts: nat -> Action, n: nat) returns (k: nat)
    requires c.Valid() && ClosingRun(c, states, acts) && Inv(c, states(n)) && states(n).producer.Joining?
    requires forall m: nat :: n <= m ==> !acts(m).Spurious()
    ensures Inv(c, states(k)) && states(k).producer.Done?
    decreases RankOf(states(n)).undispatched, RankOf(states(n)).stages, RankOf(states(n)).left, RankOf(states(n)).awake
  {
    hide Inv, Enabled, Next, RankOf;
    StepInv(c, states(n), acts(n));
    StillJoining(c, states(n), acts(n));
    Undispatched(c, states(n));
    k := n + 1;
    if !acts(n).Join? {
      ClosingDecreases(c, states(n), acts(n));
      k := RunsOut(c, states, acts, n + 1);
    }
  }

  /**
   * However the threads are scheduled, and however many spurious wake-ups there are up to some
   * moment, close comes to its end.
   */
  lemma CloseEnds(c: Config, states: nat -> State, acts: nat -> Action, calm: nat) returns (k: nat)
    requires c.Valid() && ClosingRun(c, states, acts)
    requires forall n: nat :: calm <= n ==> !acts(n).Spurious()
    ensures Inv(c, states(k)) && states(k).producer.Done?
  {
    hide Inv, Enabled, Next;
    k := UpTo(c, states, acts, calm);
    if states(k).producer.Joining? {
      k := RunsOut(c, states, acts, k);
    }
  }

  lemma StillJoining(c: Config, s: State, a: Action)
    requires Inv(c, s) && s.producer.Joining? && Enabled(c, s, a)
    ensures if a.Join? then Next(c, s, a).producer.Done? else Next(c, s, a).producer.Joining?
  {
    hide Core, SleepOk, BlockBytes, Config.Cell, Config.Valid, EarlierBusy;
  }

  lemma Undispatched(c: Config, s: State)
    requires Inv(c, s)
    ensures 0 <= RankOf(s).undispatched
  {
    hide Flight, FileOk, RingOk, ProducerOk, SleepOk, Sum, Config.Valid, Completed;
  }

  // ---- the data on disk

  /** Once closed without error, the file holds every byte of every call, in order. */
  lemma ClosedFile(c: Config, s: State)
    requires Inv(c, s) && s.producer.Done?
    ensures s.error == s.writeError
    ensures !s.error ==>
              && s.file == FileBytes(s.blocks)
              && RawBytes(s.blocks) == Flatten(c.calls)
              && InOrder(c, s.blocks, Flatten(c.calls))
  {
    hide RingOk, SleepOk, FileBytes, RawBytes, BlockBytes, Completed;
    if !s.error {
      assert PhaseOk(c, s, s.phases[0]);
      var ps := PiecesOf(s);
      assert forall i | 0 <= i < |ps| :: ps[i] == s.phases[i].Piece();
      assert Written(s) == |s.stream|;
      assert s.stream[..|s.stream|] == s.stream;
      assert s.stream + [] + Flatten<byte>([]) == s.stream;
    }
  }

  /** End to end: a reader of the closed file sees exactly what the calls wrote. */
  lemma RoundTrip(c: Config, states: seq<State>, acts: seq<Action>)
    requires c.Valid() && IsRun(c, states, acts)
    requires states[|acts|].producer.Done? && !states[|acts|].error
    ensures var file := states[|acts|].file;
            && Rest(c.dec, file, 0) == Flatten(c.calls)
            && HeaderSum(file, 0) == |Flatten(c.calls)|
            && Clean(c.dec, file, 0)
  {
    hide Next, Enabled, Init, Inv, Config.Valid;
    RunInv(c, states, acts, |acts|);
    var s := states[|acts|];
    ClosedFile(c, s);
    WholeFile(c.dec, s.blocks);
    assert s.blocks[..0] == [];
    BlocksAreClean(c.dec, s.blocks, 0);
  }
}
