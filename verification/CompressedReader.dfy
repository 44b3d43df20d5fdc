/**
 * CompressedReader: sequential, skipping and peeking access to a block file,
 * with one saved position. Positions are described by what is still unread, so
 * the contracts hold for every file, damaged ones included.
 */
module CompressedReading {
  import opened Prelude
  import opened BlockFile

  class CompressedReader {
    const dec: Decoder
    /** The bytes behind the file descriptor; `pread` never changes them. */
    const file: seq<byte>
    var fdOffset: nat
    var error: bool
    var eof: bool
    var buffer: seq<byte>
    var readPos: nat
    var haveSavedState: bool
    var haveSavedBuffer: bool
    var savedFdOffset: nat
    var savedBuffer: seq<byte>
    var savedReadPos: nat

    ghost predicate Valid()
      reads this
    {
      && fdOffset <= |file|
      && (!error ==> readPos <= |buffer|)
      && (!error ==> (eof <==> fdOffset == |file|))
      && (!error && Clean(dec, file, 0) ==> Clean(dec, file, fdOffset))
      && (haveSavedState ==> SavedValid())
      && (!haveSavedState || !haveSavedBuffer ==> savedBuffer == [])
    }

    ghost predicate SavedValid()
      reads this
    {
      && savedFdOffset <= fdOffset
      && (!error ==> savedReadPos <= |SavedContents()|)
      && (!haveSavedBuffer ==> savedFdOffset == fdOffset || error)
      && (!error && Clean(dec, file, 0) ==> Clean(dec, file, savedFdOffset))
    }

    /** Everything a reader at the current position can still deliver. */
    ghost function Unread(): seq<byte>
      reads this
    {
      (if readPos <= |buffer| then buffer[readPos..] else []) + Rest(dec, file, fdOffset)
    }

    ghost function SavedContents(): seq<byte>
      reads this
    {
      if haveSavedBuffer then savedBuffer else buffer
    }

    /** Everything a reader at the saved position could deliver. */
    ghost function SavedUnread(): seq<byte>
      reads this
    {
      (if savedReadPos <= |SavedContents()| then SavedContents()[savedReadPos..] else [])
      + Rest(dec, file, savedFdOffset)
    }

    constructor (dec: Decoder, file: seq<byte>, isOpen: bool)
      ensures Valid() && this.dec == dec && this.file == file
      ensures error == !isOpen && !haveSavedState
      ensures Unread() == Rest(dec, file, 0)
    {
      this.dec, this.file := dec, file;
      fdOffset := 0;
      error := !isOpen;
      eof := isOpen && |file| == 0;
      buffer, readPos := [], 0;
      haveSavedState, haveSavedBuffer := false, false;
      savedFdOffset, savedBuffer, savedReadPos := 0, [], 0;
    }

    /** `at_end`: on a sound file it holds exactly when no byte is left. */
    method AtEnd() returns (r: bool)
      requires Valid()
      ensures !error && r ==> Unread() == []
      ensures !error && Clean(dec, file, 0) ==> (r <==> Unread() == [])
    {
      r := eof && readPos == |buffer|;
    }

    /** The bytes of the block at `fdOffset`, or the way reading it failed. */
    method FetchBlock() returns (block: Parsed, newOffset: nat)
      requires fdOffset <= |file|
      ensures block == ReadBlock(dec, file, fdOffset)
      ensures fdOffset <= newOffset <= |file|
      ensures block.Parsed? ==> newOffset == block.end
    {
      if fdOffset + HEADER_SIZE > |file| {
        return NoBlock, fdOffset;
      }
      var packedLen, rawLen := WordAt(file, fdOffset), WordAt(file, fdOffset + 4);
      newOffset := fdOffset + HEADER_SIZE;
      if newOffset + packedLen > |file| {
        return NoBlock, newOffset;
      }
      var packed := file[newOffset..newOffset + packedLen];
      newOffset := newOffset + packedLen;
      match dec(packed, rawLen) {
        case Some(raw) =>
          if |raw| == rawLen {
            return Parsed(raw, newOffset), newOffset;
          }
        case None =>
      }
      return NoBlock, newOffset;
    }

    method RefillBuffer() returns (ok: bool)
      requires Valid() && !error && readPos == |buffer|
      modifies this
      ensures Valid()
      ensures ok == old(ReadBlock(dec, file, fdOffset)).Parsed? && error == !ok
      ensures ok ==> old(fdOffset) < fdOffset && readPos == 0
      ensures ok ==> buffer == old(ReadBlock(dec, file, fdOffset)).raw
      ensures ok ==> Unread() == old(Unread())
      ensures !ok ==> old(Unread()) == []
      ensures haveSavedState == old(haveSavedState)
      ensures savedFdOffset == old(savedFdOffset) && savedReadPos == old(savedReadPos)
      ensures haveSavedState ==> SavedUnread() == old(SavedUnread())
    {
      hide Rest, Clean, ReadBlock;
      NextBlock(dec, file, fdOffset);
      if haveSavedState && !haveSavedBuffer {
        buffer, savedBuffer := savedBuffer, buffer;
        haveSavedBuffer := true;
      }
      var block;
      block, fdOffset := FetchBlock();
      match block {
        case NoBlock =>
          error := true;
          return false;
        case Parsed(raw, _) =>
          if fdOffset == |file| {
            eof := true;
          }
          buffer, readPos := raw, 0;
          return true;
      }
    }

    /** Hand out up to `limit` bytes of the current block. */
    method TakeBuffered(limit: nat) returns (chunk: seq<byte>)
      requires Valid() && !error && readPos < |buffer| && 0 < limit
      modifies this`readPos
      ensures Valid() && 0 < |chunk| <= limit
      ensures old(Unread()) == chunk + Unread()
      ensures haveSavedState ==> SavedUnread() == old(SavedUnread())
    {
      hide Rest, Clean;
      var amount := Min(limit, |buffer| - readPos);
      chunk := buffer[readPos..readPos + amount];
      assert buffer[readPos..] == chunk + buffer[readPos + amount..];
      Associative(chunk, buffer[readPos + amount..], Rest(dec, file, fdOffset));
      readPos := readPos + amount;
    }

    method Read(size: nat) returns (ok: bool, data: seq<byte>)
      requires Valid()
      modifies this
      ensures Valid()
      ensures ok <==> size == 0 || (!old(error) && size <= |old(Unread())|)
      ensures ok ==> data == old(Unread())[..size] && Unread() == old(Unread())[size..] && error == old(error)
      ensures !ok ==> error
      ensures haveSavedState == old(haveSavedState)
      ensures savedFdOffset == old(savedFdOffset) && savedReadPos == old(savedReadPos)
      ensures haveSavedState ==> SavedUnread() == old(SavedUnread())
    {
      data := [];
      hide Rest, Clean;
      var left: nat := size;
      ghost var all := Unread();
      while left > 0
        invariant Valid() && left + |data| == size
        invariant error == old(error)
        invariant all == data + Unread()
        invariant left == size || !error
        invariant haveSavedState == old(haveSavedState)
        invariant savedFdOffset == old(savedFdOffset) && savedReadPos == old(savedReadPos)
        invariant haveSavedState ==> SavedUnread() == old(SavedUnread())
        decreases |file| - fdOffset, left
      {
        if error {
          return false, data;
        }
        if readPos < |buffer| {
          var chunk := TakeBuffered(left);
          Associative(data, chunk, Unread());
          data := data + chunk;
          left := left - |chunk|;
          continue;
        }
        ok := RefillBuffer();
        if !ok {
          return false, data;
        }
      }
      SplitAt(all, data, Unread());
      ok := true;
    }

    /** Like `Read`, without handing the bytes out. */
    method Skip(size: nat) returns (ok: bool)
      requires Valid()
      modifies this
      ensures Valid()
      ensures ok <==> size == 0 || (!old(error) && size <= |old(Unread())|)
      ensures ok ==> Unread() == old(Unread())[size..] && error == old(error)
      ensures !ok ==> error
      ensures haveSavedState == old(haveSavedState)
      ensures savedFdOffset == old(savedFdOffset) && savedReadPos == old(savedReadPos)
      ensures haveSavedState ==> SavedUnread() == old(SavedUnread())
    {
      hide Rest, Clean;
      var left: nat := size;
      ghost var all, done: seq<byte> := Unread(), [];
      while left > 0
        invariant Valid() && left + |done| == size
        invariant error == old(error)
        invariant all == done + Unread()
        invariant left == size || !error
        invariant haveSavedState == old(haveSavedState)
        invariant savedFdOffset == old(savedFdOffset) && savedReadPos == old(savedReadPos)
        invariant haveSavedState ==> SavedUnread() == old(SavedUnread())
        decreases |file| - fdOffset, left
      {
        if error {
          return false;
        }
        if readPos < |buffer| {
          var chunk := TakeBuffered(left);
          Associative(done, chunk, Unread());
          done := done + chunk;
          left := left - |chunk|;
          continue;
        }
        ok := RefillBuffer();
        if !ok {
          return false;
        }
      }
      SplitAt(all, done, Unread());
      ok := true;
    }

    /** Some buffered bytes, without consuming them; none at all only at the end of a sound file. */
    method GetBuffer() returns (ok: bool, chunk: seq<byte>)
      requires Valid()
      modifies this
      ensures Valid()
      ensures !old(error) && Clean(dec, file, 0) ==> ok
      ensures ok ==> !error && Unread() == old(Unread()) && chunk <= Unread()
      ensures ok && Clean(dec, file, 0) ==> (chunk == [] <==> Unread() == [])
      ensures !ok ==> error
      ensures haveSavedState == old(haveSavedState)
      ensures savedFdOffset == old(savedFdOffset) && savedReadPos == old(savedReadPos)
      ensures haveSavedState ==> SavedUnread() == old(SavedUnread())
    {
      if error {
        return false, [];
      }
      if readPos >= |buffer| && !eof {
        ok := RefillBuffer();
        if !ok {
          return false, [];
        }
      }
      return true, buffer[readPos..];
    }

    method SaveState()
      requires Valid() && !haveSavedState
      modifies this
      ensures Valid() && haveSavedState && error == old(error)
      ensures Unread() == old(Unread()) && SavedUnread() == old(Unread())
      ensures savedFdOffset == old(fdOffset) && savedReadPos == old(readPos)
    {
      haveSavedState := true;
      haveSavedBuffer := false;
      savedFdOffset := fdOffset;
      savedReadPos := readPos;
    }

    /** Back to the saved position, end-of-file status included. */
    method RestoreState()
      requires Valid() && haveSavedState
      modifies this
      ensures Valid() && !haveSavedState && error == old(error)
      ensures Unread() == old(SavedUnread())
      ensures fdOffset == old(savedFdOffset) && readPos == old(savedReadPos)
    {
      haveSavedState := false;
      if savedFdOffset < fdOffset {
        eof := false;
      }
      fdOffset := savedFdOffset;
      if haveSavedBuffer {
        buffer, savedBuffer := savedBuffer, buffer;
        savedBuffer := [];
      }
      readPos := savedReadPos;
    }

    method DiscardState()
      requires Valid() && haveSavedState
      modifies this
      ensures Valid() && !haveSavedState && error == old(error)
      ensures Unread() == old(Unread())
    {
      haveSavedState := false;
      if haveSavedBuffer {
        savedBuffer := [];
      }
    }

    /** The total of the header words, whatever has been read so far. */
    method UncompressedBytes() returns (total: nat)
      requires Valid()
      ensures total == HeaderSum(file, 0)
    {
      var offset := 0;
      total := 0;
      while offset + HEADER_SIZE <= |file|
        invariant total + HeaderSum(file, offset) == HeaderSum(file, 0)
        decreases |file| - offset
      {
        total := total + WordAt(file, offset + 4);
        offset := offset + HEADER_SIZE + WordAt(file, offset);
      }
    }

    static lemma SplitAt(all: seq<byte>, front: seq<byte>, back: seq<byte>)
      requires all == front + back
      ensures all[..|front|] == front && all[|front|..] == back
    {
    }
  }
}
