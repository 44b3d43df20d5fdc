/**
 * The critical sections of CompressedWriter as code over its fields. `st` is the
 * state of the protocol; every method is proved to be one of its steps.
 */
module WriterCode {
  import opened Prelude
  import opened BlockFile
  import opened WriterProtocol
  import opened WriterInvariant
  import opened WriterSteps

  class CompressedWriter {
    const c: Config
    const buffer: array<byte>
    const threadPos: array<Option<nat>>
    var nextPos: nat
    var endPos: nat
    var closing: bool
    var writeError: bool
    var reservedPos: nat
    var writePos: nat
    var uptoPos: nat
    var error: bool
    ghost var st: State

    ghost predicate Valid()
      reads this, buffer, threadPos
    {
      && c.Valid() && 0 < c.capacity == buffer.Length
      && threadPos.Length == c.threads == |st.phases|
      && st.ring == buffer[..] && st.threadPos == threadPos[..]
      && st.nextPos == nextPos && st.endPos == endPos && st.closing == closing && st.writeError == writeError
      && st.reservedPos == reservedPos && st.writePos == writePos && st.uptoPos == uptoPos && st.error == error
    }

    constructor (blockSize: nat, threads: nat, dec: Decoder, calls: seq<seq<byte>>, isOpen: bool)
      requires 0 < blockSize < WORD_LIMIT && 0 < threads
      ensures Valid() && st == (if isOpen then Init(c) else Unopened(c)) && fresh(buffer) && fresh(threadPos)
      ensures c == Config(blockSize, threads, blockSize * (threads + 2), dec, calls)
    {
      var config := Config(blockSize, threads, blockSize * (threads + 2), dec, calls);
      c := config;
      buffer := new byte[blockSize * (threads + 2)](_ => 0);
      threadPos := new Option<nat>[threads](_ => None);
      nextPos, endPos, closing, writeError := 0, 0, false, false;
      reservedPos, writePos, uptoPos, error := 0, 0, 0, !isOpen;
      st := if isOpen then Init(config) else Unopened(config);
      new;
      CapacityPositive(c);
    }

    /** The scan for `completed_pos`. */
    method CompletedPos() returns (r: nat)
      requires Valid()
      ensures r == Completed(st)
    {
      hide Config.Valid;
      r := nextPos;
      for i := 0 to threadPos.Length
        invariant r == MinPos(threadPos[..i], nextPos)
      {
        assert threadPos[..i + 1][..i] == threadPos[..i];
        var p := threadPos[i];
        if p.Some? && p.value < r {
          r := p.value;
        }
      }
      assert threadPos[..threadPos.Length] == threadPos[..];
    }

    /** The scan for `other_thread_write_first`. */
    method OtherThreadFirst(pos: nat) returns (r: bool)
      requires Valid()
      ensures r == EarlierBusy(st, pos)
    {
      hide Config.Valid;
      r := false;
      for i := 0 to threadPos.Length
        invariant r == exists j | 0 <= j < i :: threadPos[j].Some? && threadPos[j].value < pos
      {
        var p := threadPos[i];
        if p.Some? && p.value < pos {
          r := true;
        }
      }
    }

    /** One turn of the loop of `write`: copy what fits before the end of the ring. */
    method CopyChunk(data: seq<byte>)
      requires Valid() && Enabled(c, st, Copy) && data == st.producer.rest
      modifies this, buffer
      ensures Valid() && st == Next(c, old(st), Copy)
    {
      hide Config.Valid, Config.Cell;
      var offset := c.Cell(writePos);
      var amount := Min(c.capacity - offset, Min(uptoPos - writePos, |data|));
      MemCpy(offset, data[..amount]);
      writePos := writePos + amount;
      st := Next(c, st, Copy);
    }

    method MemCpy(at: nat, chunk: seq<byte>)
      requires at + |chunk| <= buffer.Length
      modifies buffer
      ensures buffer[..] == Overwrite(old(buffer[..]), at, chunk)
    {
      for k := 0 to |chunk|
        invariant forall j :: 0 <= j < buffer.Length ==>
                    buffer[j] == if at <= j < at + k then chunk[j - at] else old(buffer[j])
      {
        buffer[at + k] := chunk[k];
      }
      assert buffer[..] == Overwrite(old(buffer[..]), at, chunk);
    }

    /** The first critical section of `update_reservation(WAIT)`; true if the producer must now wait. */
    method ReserveAndWaitSection() returns (sleeps: bool)
      requires Valid() && Enabled(c, st, Action.ReserveAndWait)
      modifies this
      ensures Valid() && st == Next(c, old(st), Action.ReserveAndWait)
      ensures sleeps == st.producer.Waiting?
    {
      hide Config.Valid, MinPos;
      ghost var rest := st.producer.rest;
      endPos, reservedPos := writePos, writePos;
      st := Publish(st);
      sleeps := ReserveRound(true);
      st := st.(producer := if sleeps then Waiting(rest, true) else Copying(rest));
    }

    /** `update_reservation(NOWAIT)`, after which the producer moves on to `p`. */
    method ReserveNowSection(ghost p: Producer)
      requires Valid()
      modifies this
      ensures Valid() && st == Reserve(c, Publish(old(st)), false).0.(producer := p)
    {
      hide Config.Valid, MinPos;
      endPos, reservedPos := writePos, writePos;
      st := Publish(st);
      var sleeps := ReserveRound(false);
      st := st.(producer := p);
    }

    /** The section a woken producer goes through. */
    method RecheckSection() returns (sleeps: bool)
      requires Valid() && Enabled(c, st, ProducerRecheck)
      modifies this
      ensures Valid() && st == Next(c, old(st), ProducerRecheck)
      ensures sleeps == st.producer.Waiting?
    {
      hide Config.Valid, MinPos;
      ghost var rest := st.producer.rest;
      sleeps := ReserveRound(true);
      st := st.(producer := if sleeps then Waiting(rest, true) else Copying(rest));
    }

    /** One round of the loop of `update_reservation`. */
    method ReserveRound(wait: bool) returns (sleeps: bool)
      requires Valid()
      modifies this`uptoPos, this`error, this`st
      ensures Valid()
      ensures st == Reserve(c, old(st), wait).0 && sleeps == Reserve(c, old(st), wait).1.Sleep?
    {
      hide Config.Valid, MinPos;
      sleeps := false;
      if !error {
        if writeError {
          error := true;
        } else {
          var completed := CompletedPos();
          uptoPos := completed + c.capacity;
          sleeps := !(reservedPos < uptoPos) && wait;
        }
      }
      st := Reserve(c, st, wait).0;
    }

    /** From the top of the compression loop to the next unlock, wait or exit. */
    method TopSection(i: nat) returns (length: nat)
      requires Valid() && i < threadPos.Length
      modifies this, threadPos
      ensures Valid() && st == Top(c, old(st), i)
      ensures 0 < length <==> old(Dispatchable(c, st))
      ensures st.phases[i].Compressing? ==> length == st.phases[i].length
    {
      ghost var after := Top(c, st, i);
      length := 0;
      if !writeError && nextPos < endPos && (closing || nextPos + c.blockSize <= endPos) {
        threadPos[i] := Some(nextPos);
        nextPos := Min(endPos, nextPos + c.blockSize);
        length := nextPos - threadPos[i].value;
      }
      st := after;
    }

    /** What follows `do_compress`, which returned `packed`: the wait for this thread's turn. */
    method AfterCompressSection(i: nat, packed: seq<byte>)
      requires Valid() && Enabled(c, st, CompressDone(i, packed)) && threadPos[i] == Some(st.phases[i].start)
      modifies this, threadPos
      ensures Valid() && st == Next(c, old(st), CompressDone(i, packed))
    {
      hide Config.Valid, Top, Release, EarlierBusy, BlockBytes;
      ghost var p := st.phases[i];
      if |packed| == 0 {
        writeError := true;
      }
      st := st.(writeError := writeError);
      TakeTurnSection(i, p.start, p.length, packed);
    }

    /** The waiting loop before `write_all`, up to the next unlock or wait. */
    method TakeTurnSection(i: nat, ghost start: nat, ghost length: nat, packed: seq<byte>)
      requires Valid() && i < threadPos.Length && threadPos[i] == Some(start)
      modifies this, threadPos
      ensures Valid() && st == TakeTurn(c, old(st), i, start, length, packed)
    {
      hide Config.Valid, Top, EarlierBusy;
      if writeError {
        ReleaseSection(i);
        var _ := TopSection(i);
      } else {
        var first := OtherThreadFirst(threadPos[i].value);
        st := st.(phases := st.phases[i := if first then Turn(start, length, packed, true)
                                           else Writing(start, length, packed, 0)]);
      }
    }

    /** What follows `write_all`. */
    method AfterWriteSection(i: nat)
      requires Valid() && Enabled(c, st, WriteDone(i))
      modifies this, threadPos
      ensures Valid() && st == Next(c, old(st), WriteDone(i))
    {
      hide Config.Valid, Top, BlockBytes;
      st := st.(blocks := st.blocks + [BlockOf(st, st.phases[i])]);
      ReleaseSection(i);
      var _ := TopSection(i);
    }

    method ReleaseSection(i: nat)
      requires Valid() && i < threadPos.Length
      modifies this`st, threadPos
      ensures Valid() && st == Release(old(st), i)
    {
      hide Config.Valid;
      threadPos[i] := None;
      st := Release(st, i);
    }

    /** The second critical section of `close`. */
    method ClosingSection()
      requires Valid() && Enabled(c, st, SetClosing)
      modifies this
      ensures Valid() && st == Next(c, old(st), SetClosing)
    {
      hide Config.Valid;
      closing := true;
      st := Broadcast(st.(closing := true, producer := Joining));
    }

    /** The ring-reading loop of `do_compress`: for bytes still live, `fed` is the stream. */
    method FeedEncoder(offset: nat, length: nat) returns (fed: seq<byte>)
      requires Valid() && st.writePos == |st.stream| && RingOk(c, st)
      requires Completed(st) <= offset && offset + length <= writePos
      ensures fed == st.stream[offset..offset + length]
    {
      hide Config.Cell, Config.Valid, RingOk, Completed;
      fed := [];
      while |fed| < length
        invariant |fed| <= length && fed == st.stream[offset..offset + |fed|]
      {
        var pos := offset + |fed|;
        var at := c.Cell(pos);
        var amount := Min(length - |fed|, c.capacity - at);
        RingSlice(c, st, pos, amount);
        assert st.stream[offset..pos + amount] == st.stream[offset..pos] + st.stream[pos..pos + amount];
        fed := fed + buffer[at..at + amount];
      }
    }
  }
}
