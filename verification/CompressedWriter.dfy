/**
 * CompressedWriter as a state machine: one producer and `threads` compressor
 * threads around a ring buffer, a mutex and a condition variable.
 *
 * A critical section runs to its unlock, wait or exit without interference, so
 * each one is a single step; work done without the mutex (copying into the
 * ring, feeding the encoder, writing to the file) is split into steps of its
 * own. A waiting thread is `asleep` until a broadcast or a spurious wake-up.
 */
module WriterProtocol {
  import opened Prelude
  import opened BlockFile

  /** `calls` are the arguments of the successive `write` calls, after which the producer closes. */
  datatype Config = Config(blockSize: nat, threads: nat, capacity: nat, dec: Decoder, calls: seq<seq<byte>>) {
    /** The ring buffer has room for two blocks more than there are threads. */
    ghost predicate Valid() { 0 < blockSize < WORD_LIMIT && 0 < threads && capacity == blockSize * (threads + 2) }

    /** Where position `pos` of the stream lives in the ring. */
    function Cell(pos: nat): (cell: nat)
      requires 0 < capacity
      ensures cell < capacity
    {
      pos % capacity
    }
  }

  /** The stream positions from `lo` up to but excluding `hi`. */
  datatype Span = Span(lo: nat, hi: nat)

  datatype Phase =
    /** Wants the mutex, to go through the top of the compression loop. */
    | Ready
    /** In `pthread_cond_wait` at the bottom of the loop. */
    | Asleep
    /** In `do_compress`, which has given `fed` to the encoder so far. */
    | Compressing(start: nat, length: nat, fed: seq<byte>)
    /** Waiting for the threads with earlier blocks to write. */
    | Turn(start: nat, length: nat, packed: seq<byte>, asleep: bool)
    /** In `write_all`, with `written` bytes of header and block already in the file. */
    | Writing(start: nat, length: nat, packed: seq<byte>, written: nat)
    | Exited
  {
    predicate Busy() { Compressing? || Turn? || Writing? }

    /** The piece of the stream this thread is responsible for. */
    function Piece(): Option<Span> { if Busy() then Some(Span(start, start + length)) else None }

    function Wake(): Phase {
      if Asleep? then Ready else if Turn? then this.(asleep := false) else this
    }
  }

  datatype Producer =
    /** Between two calls. */
    | Idle
    /** In the loop of `write`, with `rest` still to copy. */
    | Copying(rest: seq<byte>)
    /** In `pthread_cond_wait` of `update_reservation`, called from `write`. */
    | Waiting(rest: seq<byte>, asleep: bool)
    /** In `close`, between its two critical sections. */
    | Closing
    /** In `pthread_join`. */
    | Joining
    | Done
  {
    function Wake(): Producer { if Waiting? then this.(asleep := false) else this }

    /** Bytes of the current call that are not in the ring yet. */
    function Pending(): seq<byte> { if Copying? || Waiting? then rest else [] }
  }

  datatype State = State(
    ring: seq<byte>,
    /** `thread_pos`; UINT64_MAX, above every position, is `None`. */
    threadPos: seq<Option<nat>>,
    nextPos: nat,
    endPos: nat,
    closing: bool,
    writeError: bool,
    reservedPos: nat,
    writePos: nat,
    uptoPos: nat,
    error: bool,
    phases: seq<Phase>,
    producer: Producer,
    calls: seq<seq<byte>>,
    file: seq<byte>,
    /** History: every byte copied into the ring so far, and every block fully in the file. */
    stream: seq<byte>,
    blocks: seq<Block>)

  function Init(c: Config): State {
    State(seq(c.capacity, _ => 0), seq(c.threads, _ => None), 0, 0, false, false, 0, 0, 0, false,
          seq(c.threads, _ => Ready), Idle, c.calls, [], [], [])
  }

  /** When the file cannot be opened the writer starts in error and without its threads. */
  function Unopened(c: Config): State {
    Init(c).(error := true, phases := seq(c.threads, _ => Exited))
  }

  datatype Action =
    | StartWrite
    | Copy
    | ReserveAndWait
    | FinishWrite
    | ProducerRecheck
    | BeginClose
    | SetClosing
    | Join
    | ThreadTop(i: nat)
    | Feed(i: nat, n: nat)
    | CompressDone(i: nat, packed: seq<byte>)
    | TurnCheck(i: nat)
    | WriteSome(i: nat, n: nat)
    | WriteDone(i: nat)
    | SpuriousThread(i: nat)
    | SpuriousProducer
  {
    predicate Spurious() { SpuriousThread? || SpuriousProducer? }
  }

  // ---- pieces of the critical sections

  /** The smallest busy position, or `limit` if that is smaller: `completed_pos`. */
  function MinPos(ps: seq<Option<nat>>, limit: nat): (r: nat)
    ensures r <= limit
    ensures forall i | 0 <= i < |ps| && ps[i].Some? :: r <= ps[i].value
    ensures r == limit || exists i | 0 <= i < |ps| :: ps[i] == Some(r)
  {
    if ps == [] then limit
    else
      var r := MinPos(ps[..|ps| - 1], limit);
      var p := ps[|ps| - 1];
      assert forall i | 0 <= i < |ps| - 1 :: ps[i] == ps[..|ps| - 1][i];
      if p.Some? && p.value < r then assert ps[|ps| - 1] == Some(p.value); p.value else r
  }

  function Completed(s: State): nat { MinPos(s.threadPos, s.nextPos) }

  predicate EarlierBusy(s: State, pos: nat) {
    exists j | 0 <= j < |s.threadPos| :: s.threadPos[j].Some? && s.threadPos[j].value < pos
  }

  function Broadcast(s: State): State {
    s.(phases := seq(|s.phases|, i requires 0 <= i < |s.phases| => s.phases[i].Wake()),
       producer := s.producer.Wake())
  }

  /** Lines before the loop of `update_reservation`. */
  function Publish(s: State): State {
    Broadcast(s.(endPos := s.writePos, reservedPos := s.writePos))
  }

  datatype Outcome = Leave | Sleep

  /** One round of the loop of `update_reservation`. */
  function Reserve(c: Config, s: State, wait: bool): (State, Outcome) {
    if s.error then (s, Leave)
    else if s.writeError then (s.(error := true), Leave)
    else
      var s' := s.(uptoPos := Completed(s) + c.capacity);
      (s', if s'.reservedPos < s'.uptoPos || !wait then Leave else Sleep)
  }

  function AfterReserve(r: (State, Outcome), rest: seq<byte>): State {
    r.0.(producer := if r.1.Leave? then Copying(rest) else Waiting(rest, true))
  }

  predicate Dispatchable(c: Config, s: State) {
    && !s.writeError
    && s.nextPos < s.endPos
    && (s.closing || s.nextPos + c.blockSize <= s.endPos)
  }

  predicate MayExit(s: State) { s.closing && (s.writeError || s.nextPos == s.endPos) }

  /** From the top of the compression loop to the next unlock. */
  function Top(c: Config, s: State, i: nat): State
    requires i < |s.phases| == |s.threadPos|
  {
    if Dispatchable(c, s) then
      var next := Min(s.endPos, s.nextPos + c.blockSize);
      s.(threadPos := s.threadPos[i := Some(s.nextPos)],
         nextPos := next,
         phases := s.phases[i := Compressing(s.nextPos, next - s.nextPos, [])])
    else s.(phases := s.phases[i := if MayExit(s) then Exited else Asleep])
  }

  /** Done with the block, written or not. */
  function Release(s: State, i: nat): State
    requires i < |s.phases| == |s.threadPos|
  {
    Broadcast(s.(threadPos := s.threadPos[i := None], phases := s.phases[i := Ready]))
  }

  /** The loop that waits for this thread's turn to write, up to the next unlock. */
  function TakeTurn(c: Config, s: State, i: nat, start: nat, length: nat, packed: seq<byte>): State
    requires i < |s.phases| == |s.threadPos|
  {
    if s.writeError then Top(c, Release(s, i), i)
    else if EarlierBusy(s, start) then s.(phases := s.phases[i := Turn(start, length, packed, true)])
    else s.(phases := s.phases[i := Writing(start, length, packed, 0)])
  }

  // ---- steps

  function CopyAmount(c: Config, s: State): nat
    requires s.producer.Copying? && s.writePos < s.uptoPos && 0 < c.capacity
  {
    Min(c.capacity - c.Cell(s.writePos), Min(s.uptoPos - s.writePos, |s.producer.rest|))
  }

  /** `target` with `chunk` copied over its bytes from `at` on. */
  function Overwrite(target: seq<byte>, at: nat, chunk: seq<byte>): seq<byte>
    requires at + |chunk| <= |target|
  {
    target[..at] + chunk + target[at + |chunk|..]
  }

  function BlockOf(s: State, p: Phase): Block
    requires p.Turn? || p.Writing?
    requires p.start + p.length <= |s.stream|
  {
    Block(s.stream[p.start..p.start + p.length], p.packed)
  }

  lemma CapacityPositive(c: Config)
    requires c.Valid()
    ensures 3 * c.blockSize <= c.capacity
  {
    Product(c.blockSize, c.threads + 2);
  }

  lemma Product(b: nat, n: nat)
    requires 3 <= n
    ensures 3 * b <= b * n
  {
    assert b * n == b * 3 + b * (n - 3);
  }

  ghost predicate Enabled(c: Config, s: State, a: Action)
    requires c.Valid()
  {
    CapacityPositive(c);
    match a
    case StartWrite => s.producer.Idle? && s.calls != []
    case Copy =>
      && s.producer.Copying? && s.producer.rest != [] && !s.error && s.writePos < s.uptoPos
      && |s.ring| == c.capacity
    case ReserveAndWait => s.producer.Copying? && s.producer.rest != [] && !s.error && s.writePos >= s.uptoPos
    case FinishWrite => s.producer.Copying? && (s.producer.rest == [] || s.error)
    case ProducerRecheck => s.producer.Waiting? && !s.producer.asleep
    case BeginClose => s.producer.Idle? && s.calls == []
    case SetClosing => s.producer.Closing?
    case Join => s.producer.Joining? && forall i | 0 <= i < |s.phases| :: s.phases[i].Exited?
    case ThreadTop(i) => i < |s.phases| == |s.threadPos| && s.phases[i].Ready?
    case Feed(i, n) =>
      && i < |s.phases| && s.phases[i].Compressing? && |s.ring| == c.capacity
      && 0 < n <= s.phases[i].length - |s.phases[i].fed|
      && c.Cell(s.phases[i].start + |s.phases[i].fed|) + n <= c.capacity
    case CompressDone(i, packed) =>
      && i < |s.phases| == |s.threadPos| && s.phases[i].Compressing? && |s.phases[i].fed| == s.phases[i].length
      && (packed == [] || Readable(c.dec, Block(s.phases[i].fed, packed)))
    case TurnCheck(i) => i < |s.phases| == |s.threadPos| && s.phases[i].Turn? && !s.phases[i].asleep
    case WriteSome(i, n) =>
      && i < |s.phases| && s.phases[i].Writing? && s.phases[i].start + s.phases[i].length <= |s.stream|
      && 0 < n <= |BlockBytes(BlockOf(s, s.phases[i]))| - s.phases[i].written
    case WriteDone(i) =>
      && i < |s.phases| == |s.threadPos| && s.phases[i].Writing?
      && s.phases[i].start + s.phases[i].length <= |s.stream|
      && s.phases[i].written == |BlockBytes(BlockOf(s, s.phases[i]))|
    case SpuriousThread(i) => i < |s.phases| && s.phases[i].Wake() != s.phases[i]
    case SpuriousProducer => s.producer.Wake() != s.producer
  }

  ghost function Next(c: Config, s: State, a: Action): State
    requires c.Valid() && Enabled(c, s, a)
  {
    CapacityPositive(c);
    match a
    case StartWrite => s.(producer := Copying(s.calls[0]), calls := s.calls[1..])
    case Copy =>
      var n := CopyAmount(c, s);
      var chunk := s.producer.rest[..n];
      s.(ring := Overwrite(s.ring, c.Cell(s.writePos), chunk),
         writePos := s.writePos + n,
         stream := s.stream + chunk,
         producer := Copying(s.producer.rest[n..]))
    case ReserveAndWait => AfterReserve(Reserve(c, Publish(s), true), s.producer.rest)
    case FinishWrite =>
      if !s.error && s.writePos - s.reservedPos >= c.capacity / 2
      then Reserve(c, Publish(s), false).0.(producer := Idle)
      else s.(producer := Idle)
    case ProducerRecheck => AfterReserve(Reserve(c, s, true), s.producer.rest)
    case BeginClose => Reserve(c, Publish(s), false).0.(producer := Closing)
    case SetClosing => Broadcast(s.(closing := true, producer := Joining))
    case Join => s.(error := s.error || s.writeError, producer := Done)
    case ThreadTop(i) => Top(c, s, i)
    case Feed(i, n) =>
      var p := s.phases[i];
      var at := c.Cell(p.start + |p.fed|);
      s.(phases := s.phases[i := p.(fed := p.fed + s.ring[at..at + n])])
    case CompressDone(i, packed) =>
      var p := s.phases[i];
      TakeTurn(c, s.(writeError := s.writeError || packed == []), i, p.start, p.length, packed)
    case TurnCheck(i) =>
      var p := s.phases[i];
      TakeTurn(c, s, i, p.start, p.length, p.packed)
    case WriteSome(i, n) =>
      var p := s.phases[i];
      s.(file := s.file + BlockBytes(BlockOf(s, p))[p.written..p.written + n],
         phases := s.phases[i := p.(written := p.written + n)])
    case WriteDone(i) =>
      Top(c, Release(s.(blocks := s.blocks + [BlockOf(s, s.phases[i])]), i), i)
    case SpuriousThread(i) => s.(phases := s.phases[i := s.phases[i].Wake()])
    case SpuriousProducer => s.(producer := s.producer.Wake())
  }
}
