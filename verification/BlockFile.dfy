/**
 * The on-disk format shared by CompressedWriter and CompressedReader: blocks,
 * each preceded by two 32-bit little-endian words, the compressed length and
 * the uncompressed length. The codec is only known through its decoder.
 */
module BlockFile {
  import opened Prelude

  /** `dec(packed, n)` decompresses `packed` into a buffer of `n` bytes, or fails. */
  type Decoder = (seq<byte>, nat) -> Option<seq<byte>>

  datatype Block = Block(raw: seq<byte>, packed: seq<byte>)

  const WORD_LIMIT := 0x1_0000_0000
  const HEADER_SIZE := 8

  /** A 32-bit word; like the C conversion, a larger number is truncated. */
  function Word(n: nat): (r: seq<byte>)
    ensures |r| == 4
  {
    [n % 256, n / 256 % 256, n / 0x1_0000 % 256, n / 0x100_0000 % 256]
  }

  function WordAt(s: seq<byte>, off: nat): nat
    requires off + 4 <= |s|
  {
    var b0: int, b1: int, b2: int, b3: int := s[off], s[off + 1], s[off + 2], s[off + 3];
    b0 + 256 * b1 + 0x1_0000 * b2 + 0x100_0000 * b3
  }

  lemma WordRoundTrip(pre: seq<byte>, n: nat, post: seq<byte>)
    requires n < WORD_LIMIT
    ensures WordAt(pre + Word(n) + post, |pre|) == n
  {
    Base256(n);
    var s := pre + Word(n) + post;
    var w := Word(n);
    assert s[|pre|] == w[0] && s[|pre| + 1] == w[1] && s[|pre| + 2] == w[2] && s[|pre| + 3] == w[3];
  }

  lemma Base256(n: nat)
    requires n < WORD_LIMIT
    ensures n % 256 + 256 * (n / 256 % 256) + 0x1_0000 * (n / 0x1_0000 % 256) + 0x100_0000 * (n / 0x100_0000 % 256) == n
  {
  }

  function BlockBytes(b: Block): seq<byte> {
    Word(|b.packed|) + Word(|b.raw|) + b.packed
  }

  /** The block can be read back: both lengths fit their header words and the decoder inverts. */
  ghost predicate Readable(dec: Decoder, b: Block) {
    && |b.packed| < WORD_LIMIT
    && |b.raw| < WORD_LIMIT
    && dec(b.packed, |b.raw|) == Some(b.raw)
  }

  ghost predicate AllReadable(dec: Decoder, bs: seq<Block>) {
    forall i | 0 <= i < |bs| :: Readable(dec, bs[i])
  }

  function FileBytes(bs: seq<Block>): seq<byte> {
    if bs == [] then [] else FileBytes(bs[..|bs| - 1]) + BlockBytes(bs[|bs| - 1])
  }

  function RawBytes(bs: seq<Block>): seq<byte> {
    if bs == [] then [] else RawBytes(bs[..|bs| - 1]) + bs[|bs| - 1].raw
  }

  datatype Parsed = NoBlock | Parsed(raw: seq<byte>, end: nat)

  /** What `refill_buffer` gets from offset `off`: a whole, decodable block and where it ends. */
  function ReadBlock(dec: Decoder, file: seq<byte>, off: nat): (r: Parsed)
    ensures r.Parsed? ==> off + HEADER_SIZE <= r.end <= |file|
  {
    if off + HEADER_SIZE > |file| then NoBlock
    else
      var packedLen := WordAt(file, off);
      var rawLen := WordAt(file, off + 4);
      var end := off + HEADER_SIZE + packedLen;
      if end > |file| then NoBlock
      else match dec(file[off + HEADER_SIZE..end], rawLen)
        case None => NoBlock
        case Some(raw) => if |raw| == rawLen then Parsed(raw, end) else NoBlock
  }

  /** Every byte that can still be decoded from offset `off` on. */
  function Rest(dec: Decoder, file: seq<byte>, off: nat): seq<byte>
    decreases |file| - off
  {
    match ReadBlock(dec, file, off)
    case NoBlock => []
    case Parsed(raw, end) => raw + Rest(dec, file, end)
  }

  /** The sum `uncompressed_bytes` forms by hopping from header to header. */
  function HeaderSum(file: seq<byte>, off: nat): nat
    decreases |file| - off
  {
    if off + HEADER_SIZE > |file| then 0
    else WordAt(file, off + 4) + HeaderSum(file, off + HEADER_SIZE + WordAt(file, off))
  }

  lemma ReadBlockAt(dec: Decoder, pre: seq<byte>, b: Block, post: seq<byte>)
    requires Readable(dec, b)
    ensures |BlockBytes(b)| == HEADER_SIZE + |b.packed|
    ensures ReadBlock(dec, pre + BlockBytes(b) + post, |pre|) == Parsed(b.raw, |pre| + |BlockBytes(b)|)
    ensures WordAt(pre + BlockBytes(b) + post, |pre|) == |b.packed|
    ensures WordAt(pre + BlockBytes(b) + post, |pre| + 4) == |b.raw|
  {
    hide Word, WordAt;
    var file := pre + BlockBytes(b) + post;
    var w1, w2 := Word(|b.packed|), Word(|b.raw|);
    assert file == pre + w1 + (w2 + b.packed + post);
    WordRoundTrip(pre, |b.packed|, w2 + b.packed + post);
    assert file == (pre + w1) + w2 + (b.packed + post);
    WordRoundTrip(pre + w1, |b.raw|, b.packed + post);
    assert file == (pre + w1 + w2) + b.packed + post;
    assert file[|pre| + HEADER_SIZE..|pre| + HEADER_SIZE + |b.packed|] == b.packed;
  }

  /** Reading at a block boundary yields that block and continues at the next boundary. */
  lemma RestAtBlock(dec: Decoder, bs: seq<Block>, k: nat)
    requires k < |bs| && AllReadable(dec, bs)
    ensures |FileBytes(bs[..k])| < |FileBytes(bs[..k + 1])| <= |FileBytes(bs)|
    ensures ReadBlock(dec, FileBytes(bs), |FileBytes(bs[..k])|) == Parsed(bs[k].raw, |FileBytes(bs[..k + 1])|)
    ensures HeaderSum(FileBytes(bs), |FileBytes(bs[..k])|)
         == |bs[k].raw| + HeaderSum(FileBytes(bs), |FileBytes(bs[..k + 1])|)
  {
    hide Word, WordAt, BlockBytes, FileBytes, ReadBlock;
    FilePrefix(bs, k);
    var file, pre, b := FileBytes(bs), FileBytes(bs[..k]), bs[k];
    assert Readable(dec, b);
    ReadBlockAt(dec, pre, b, FileBytes(bs[k + 1..]));
    assert |FileBytes(bs[..k + 1])| == |pre| + HEADER_SIZE + |b.packed|;
  }

  /** Round trip of the format: decoding from block `k` yields exactly the raw bytes of blocks `k..`. */
  lemma {:induction false} RestOfBlocks(dec: Decoder, bs: seq<Block>, k: nat)
    requires k <= |bs| && AllReadable(dec, bs)
    ensures RawBytes(bs) == RawBytes(bs[..k]) + Rest(dec, FileBytes(bs), |FileBytes(bs[..k])|)
    decreases |bs| - k
  {
    if k == |bs| {
      assert bs[..k] == bs;
    } else {
      RestAtBlock(dec, bs, k);
      RestOfBlocks(dec, bs, k + 1);
      RawSnoc(bs, k);
      Associative(RawBytes(bs[..k]), bs[k].raw, Rest(dec, FileBytes(bs), |FileBytes(bs[..k + 1])|));
    }
  }

  lemma {:induction false} HeaderSumOfBlocks(dec: Decoder, bs: seq<Block>, k: nat)
    requires k <= |bs| && AllReadable(dec, bs)
    ensures |RawBytes(bs)| == |RawBytes(bs[..k])| + HeaderSum(FileBytes(bs), |FileBytes(bs[..k])|)
    decreases |bs| - k
  {
    if k == |bs| {
      assert bs[..k] == bs;
    } else {
      RestAtBlock(dec, bs, k);
      HeaderSumOfBlocks(dec, bs, k + 1);
      RawSnoc(bs, k);
    }
  }

  lemma RawSnoc(bs: seq<Block>, k: nat)
    requires k < |bs|
    ensures RawBytes(bs[..k + 1]) == RawBytes(bs[..k]) + bs[k].raw
  {
    assert bs[..k + 1][..k] == bs[..k];
  }

  lemma {:induction false} FileConcat(a: seq<Block>, b: seq<Block>)
    ensures FileBytes(a + b) == FileBytes(a) + FileBytes(b)
  {
    hide BlockBytes;
    if b == [] {
      assert a + b == a;
    } else {
      var last := |b| - 1;
      FileConcat(a, b[..last]);
      assert (a + b)[..|a + b| - 1] == a + b[..last];
      Associative(FileBytes(a), FileBytes(b[..last]), BlockBytes(b[last]));
    }
  }

  lemma FileSnoc(bs: seq<Block>, k: nat)
    requires k < |bs|
    ensures FileBytes(bs[..k + 1]) == FileBytes(bs[..k]) + BlockBytes(bs[k])
  {
    hide BlockBytes;
    assert bs[..k + 1][..k] == bs[..k];
  }

  lemma FilePrefix(bs: seq<Block>, k: nat)
    requires k < |bs|
    ensures FileBytes(bs[..k + 1]) == FileBytes(bs[..k]) + BlockBytes(bs[k])
    ensures FileBytes(bs) == FileBytes(bs[..k]) + BlockBytes(bs[k]) + FileBytes(bs[k + 1..])
  {
    hide BlockBytes, FileBytes;
    assert bs == bs[..k + 1] + bs[k + 1..];
    FileConcat(bs[..k + 1], bs[k + 1..]);
    FileSnoc(bs, k);
  }

  /** A whole file decodes to everything that was packed into it. */
  lemma WholeFile(dec: Decoder, bs: seq<Block>)
    requires AllReadable(dec, bs)
    ensures Rest(dec, FileBytes(bs), 0) == RawBytes(bs)
    ensures HeaderSum(FileBytes(bs), 0) == |RawBytes(bs)|
  {
    assert bs[..0] == [];
    RestOfBlocks(dec, bs, 0);
    HeaderSumOfBlocks(dec, bs, 0);
    assert RawBytes(bs[..0]) + Rest(dec, FileBytes(bs), 0) == Rest(dec, FileBytes(bs), 0);
  }

  /** From `off` to the end of the file there is nothing but decodable, non-empty blocks. */
  ghost predicate Clean(dec: Decoder, file: seq<byte>, off: nat)
    decreases |file| - off
  {
    off == |file| || match ReadBlock(dec, file, off)
                     case NoBlock => false
                     case Parsed(raw, end) => raw != [] && Clean(dec, file, end)
  }

  /** What one block contributes to the rest of the file. */
  lemma NextBlock(dec: Decoder, file: seq<byte>, off: nat)
    ensures var block := ReadBlock(dec, file, off);
            && (block.NoBlock? ==> Rest(dec, file, off) == [])
            && (block.Parsed? ==> Rest(dec, file, off) == block.raw + Rest(dec, file, block.end) &&
                                  off < block.end <= |file| && (Clean(dec, file, off) ==> Clean(dec, file, block.end)))
  {
    hide WordAt;
  }

  lemma {:induction false} BlocksAreClean(dec: Decoder, bs: seq<Block>, k: nat)
    requires k <= |bs| && AllReadable(dec, bs)
    requires forall i | 0 <= i < |bs| :: bs[i].raw != []
    ensures Clean(dec, FileBytes(bs), |FileBytes(bs[..k])|)
    decreases |bs| - k
  {
    if k == |bs| {
      assert bs[..k] == bs;
    } else {
      RestAtBlock(dec, bs, k);
      BlocksAreClean(dec, bs, k + 1);
    }
  }
}
