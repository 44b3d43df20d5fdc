/** A closed trace file read back through any sequence of reader calls. */
module TraceRoundTrip {
  import opened Prelude
  import opened BlockFile
  import opened WriterProtocol
  import opened WriterTheorems
  import opened WriterTermination
  import opened CompressedReading

  datatype Call = Read(n: nat) | Skip(n: nat) | Peek

  /** How many bytes the calls consume. */
  function Demand(calls: seq<Call>): nat {
    if calls == [] then 0 else (if calls[0].Peek? then 0 else calls[0].n) + Demand(calls[1..])
  }

  /** `got` are right answers to `calls` for a reader in front of `data`. */
  ghost predicate Answers(calls: seq<Call>, data: seq<byte>, got: seq<seq<byte>>) {
    && |got| == |calls|
    && (calls != [] ==>
          match calls[0]
          case Read(n) => n <= |data| && got[0] == data[..n] && Answers(calls[1..], data[n..], got[1..])
          case Skip(n) => n <= |data| && got[0] == [] && Answers(calls[1..], data[n..], got[1..])
          case Peek => got[0] <= data && (got[0] == [] <==> data == []) && Answers(calls[1..], data, got[1..]))
  }

  /** Any calls within bounds on a sound file succeed and are answered from the file's data. */
  method Perform(r: CompressedReader, calls: seq<Call>) returns (got: seq<seq<byte>>)
    requires r.Valid() && !r.error && Clean(r.dec, r.file, 0)
    requires Demand(calls) <= |r.Unread()|
    modifies r
    ensures r.Valid() && !r.error
    ensures Answers(calls, old(r.Unread()), got)
    ensures r.Unread() == old(r.Unread())[Demand(calls)..]
    ensures r.haveSavedState == old(r.haveSavedState)
    ensures r.savedFdOffset == old(r.savedFdOffset) && r.savedReadPos == old(r.savedReadPos)
    ensures r.haveSavedState ==> r.SavedUnread() == old(r.SavedUnread())
    decreases calls
  {
    hide Rest, Clean;
    if calls == [] {
      return [];
    }
    ghost var data := r.Unread();
    var ok, chunk := true, [];
    match calls[0] {
      case Read(n) => ok, chunk := r.Read(n);
      case Skip(n) => ok := r.Skip(n);
      case Peek => ok, chunk := r.GetBuffer();
    }
    ghost var used := if calls[0].Peek? then 0 else calls[0].n;
    assert r.Unread() == data[used..];
    var rest := Perform(r, calls[1..]);
    got := [chunk] + rest;
    assert got[1..] == rest;
    assert data[used..][Demand(calls[1..])..] == data[Demand(calls)..];
  }

  /** End to end: what the writer's calls put in is what the reader's calls get out. */
  method ReadBack(ghost c: Config, ghost states: seq<State>, ghost acts: seq<Action>, dec: Decoder, file: seq<byte>,
                  calls: seq<Call>)
    returns (got: seq<seq<byte>>, atEnd: bool, total: nat)
    requires c.Valid() && IsRun(c, states, acts)
    requires states[|acts|].producer.Done? && !states[|acts|].error
    requires dec == c.dec && file == states[|acts|].file
    requires Demand(calls) <= |Flatten(c.calls)|
    ensures Answers(calls, Flatten(c.calls), got)
    ensures atEnd <==> Demand(calls) == |Flatten(c.calls)|
    ensures total == |Flatten(c.calls)|
  {
    hide Rest, Clean, IsRun, Config.Valid, Answers, Demand, HeaderSum;
    RoundTrip(c, states, acts);
    var r := new CompressedReader(dec, file, true);
    got := Perform(r, calls);
    atEnd := r.AtEnd();
    total := r.UncompressedBytes();
  }

  /** Saving, reading on within bounds and restoring leaves the reader where it was. */
  method LookAhead(r: CompressedReader, calls: seq<Call>) returns (got: seq<seq<byte>>)
    requires r.Valid() && !r.error && !r.haveSavedState && Clean(r.dec, r.file, 0)
    requires Demand(calls) <= |r.Unread()|
    modifies r
    ensures r.Valid() && !r.error && !r.haveSavedState
    ensures r.Unread() == old(r.Unread()) && r.fdOffset == old(r.fdOffset) && r.readPos == old(r.readPos)
    ensures r.eof == old(r.eof)
    ensures Answers(calls, old(r.Unread()), got)
  {
    hide Rest, Clean, Answers, Demand;
    r.SaveState();
    got := Perform(r, calls);
    r.RestoreState();
  }
}
