/**
 * Packets of the gdb remote protocol (GDB manual, Appendix E, section E.1 "Overview"): writing
 * and escaping them, and finding them again in a stream that arrives in arbitrary pieces.
 */
module GdbFraming {
  import opened Prelude

  const DOLLAR: byte := 0x24
  const HASH: byte := 0x23
  const BRACE: byte := 0x7d
  const STAR: byte := 0x2a
  const PLUS: byte := 0x2b
  const INTERRUPT_CHAR: byte := 0x03

  datatype Item = Packet(payload: seq<byte>) | Interrupt

  // ---- reference: the items of a byte stream

  predicate IsStart(b: byte) { b == DOLLAR || b == INTERRUPT_CHAR }

  predicate NoStart(s: seq<byte>) { forall i :: 0 <= i < |s| ==> !IsStart(s[i]) }

  /** Up to the first '#', and what follows it. */
  function SplitHash(s: seq<byte>): (r: Option<(seq<byte>, seq<byte>)>)
    ensures r.Some? ==> s == r.value.0 + [HASH] + r.value.1
  {
    if s == [] then None
    else if s[0] == HASH then Some(([], s[1..]))
    else
      match SplitHash(s[1..])
      case None => None
      case Some((a, b)) => Some(([s[0]] + a, b))
  }

  /** The first item and the stream after it. */
  function NextItem(s: seq<byte>): (r: Option<(Item, seq<byte>)>)
    ensures r.Some? ==> |r.value.1| < |s|
  {
    if s == [] then None
    else if s[0] == INTERRUPT_CHAR then Some((Interrupt, s[1..]))
    else if s[0] == DOLLAR then
      match SplitHash(s[1..])
      case None => None
      case Some((payload, rest)) => Some((Packet(payload), rest))
    else NextItem(s[1..])
  }

  function Items(s: seq<byte>): seq<Item>
    decreases |s|
  {
    match NextItem(s)
    case None => []
    case Some((item, rest)) => [item] + Items(rest)
  }

  lemma {:induction false} SkipNoise(noise: seq<byte>, s: seq<byte>)
    requires NoStart(noise)
    ensures NextItem(noise + s) == NextItem(s) && Items(noise + s) == Items(s)
  {
    if noise == [] {
      assert noise + s == s;
    } else {
      assert (noise + s)[1..] == noise[1..] + s;
      SkipNoise(noise[1..], s);
    }
  }

  lemma {:induction false} HashAt(payload: seq<byte>, rest: seq<byte>)
    requires HASH !in payload
    ensures SplitHash(payload + [HASH] + rest) == Some((payload, rest))
  {
    var s := payload + [HASH] + rest;
    if payload != [] {
      assert s[1..] == payload[1..] + [HASH] + rest;
      HashAt(payload[1..], rest);
      assert [payload[0]] + payload[1..] == payload;
    } else {
      assert s[1..] == rest;
    }
  }

  lemma {:induction false} NoHash(s: seq<byte>)
    requires HASH !in s
    ensures SplitHash(s) == None
  {
    if s != [] {
      NoHash(s[1..]);
    }
  }

  // ---- escaping

  /** Exclusive-or with 0x20. */
  function Flip(b: byte): (r: byte)
    ensures b / 32 % 2 == 1 ==> r == b - 32
    ensures b / 32 % 2 == 0 ==> r == b + 32
  {
    if b / 32 % 2 == 1 then b - 32 else b + 32
  }

  predicate Special(b: byte) { b == HASH || b == DOLLAR || b == BRACE || b == STAR }

  function EscapeByte(b: byte): (r: seq<byte>)
    ensures 1 <= |r| <= 2
  {
    if Special(b) then [BRACE, Flip(b)] else [b]
  }

  /** The four escapes in numbers; every other byte stands for itself. */
  lemma EscapesAre(b: byte)
    ensures EscapeByte(0x23) == [0x7d, 0x03] && EscapeByte(0x24) == [0x7d, 0x04]
    ensures EscapeByte(0x2a) == [0x7d, 0x0a] && EscapeByte(0x7d) == [0x7d, 0x5d]
    ensures b != 0x23 && b != 0x24 && b != 0x2a && b != 0x7d ==> EscapeByte(b) == [b]
  {
  }

  function Escape(data: seq<byte>): seq<byte> {
    if data == [] then [] else EscapeByte(data[0]) + Escape(data[1..])
  }

  /** `None` where the parser gives up: an escape character with nothing after it. */
  function Unescape(s: seq<byte>): Option<seq<byte>> {
    if s == [] then Some([])
    else if s[0] != BRACE then Prepend(s[0], Unescape(s[1..]))
    else if |s| == 1 then None
    else Prepend(Flip(s[1]), Unescape(s[2..]))
  }

  function Prepend(b: byte, r: Option<seq<byte>>): Option<seq<byte>> {
    match r case None => None case Some(s) => Some([b] + s)
  }

  lemma FlipTwice(b: byte)
    ensures Flip(Flip(b)) == b
    ensures Special(b) ==> !Special(Flip(b))
  {
  }

  /** Escaped data holds no byte with a meaning to the framing, except the escape character itself. */
  lemma {:induction false} EscapedIsClean(data: seq<byte>)
    ensures HASH !in Escape(data) && DOLLAR !in Escape(data) && STAR !in Escape(data)
    ensures |data| <= |Escape(data)| <= 2 * |data|
  {
    if data != [] {
      FlipTwice(data[0]);
      EscapedIsClean(data[1..]);
    }
  }

  lemma {:induction false} UnescapeInverts(data: seq<byte>)
    ensures Unescape(Escape(data)) == Some(data)
  {
    if data != [] {
      UnescapeInverts(data[1..]);
      FlipTwice(data[0]);
      var s := Escape(data);
      if Special(data[0]) {
        assert s[2..] == Escape(data[1..]);
      } else {
        assert s[1..] == Escape(data[1..]);
      }
      assert data == [data[0]] + data[1..];
    }
  }

  lemma {:induction false} EscapeSnoc(data: seq<byte>, b: byte)
    ensures Escape(data + [b]) == Escape(data) + EscapeByte(b)
  {
    if data == [] {
      assert data + [b] == [b];
      assert Escape([b]) == EscapeByte(b) + Escape([]);
    } else {
      assert (data + [b])[1..] == data[1..] + [b];
      EscapeSnoc(data[1..], b);
    }
  }

  // ---- framing

  function Sum(data: seq<byte>): nat {
    if data == [] then 0 else Sum(data[..|data| - 1]) + data[|data| - 1]
  }

  function HexDigit(n: nat): byte
    requires n < 16
  {
    if n < 10 then 0x30 + n else 0x61 + n - 10
  }

  function Hex2(n: nat): seq<byte>
    requires n < 256
  {
    [HexDigit(n / 16), HexDigit(n % 16)]
  }

  function Framed(payload: seq<byte>): seq<byte> {
    [DOLLAR] + payload + [HASH] + Hex2(Sum(payload) % 256)
  }

  /** The value of a hexadecimal digit. */
  function DigitValue(b: byte): nat {
    if 0x30 <= b <= 0x39 then b - 0x30 else if 0x61 <= b <= 0x66 then b - 0x61 + 10 else 16
  }

  /** A frame byte by byte: dollar, payload, hash, and two digits that read back as the checksum. */
  lemma FrameIs(payload: seq<byte>)
    ensures var f, n := Framed(payload), |payload|;
            && |f| == n + 4 && f[0] == 0x24 && f[1..n + 1] == payload && f[n + 1] == 0x23
            && DigitValue(f[n + 2]) < 16 && DigitValue(f[n + 3]) < 16
            && DigitValue(f[n + 2]) * 16 + DigitValue(f[n + 3]) == Sum(payload) % 256
  {
    hide Sum;
    var c := Sum(payload) % 256;
    assert DigitValue(HexDigit(c / 16)) == c / 16 && DigitValue(HexDigit(c % 16)) == c % 16;
  }

  function Wire(item: Item): seq<byte> {
    match item case Packet(payload) => Framed(payload) case Interrupt => [INTERRUPT_CHAR]
  }

  /** Items on the wire, each after some noise such as acknowledgements, and noise at the end. */
  datatype Sent = Sent(noise: seq<byte>, item: Item)

  predicate Sendable(sent: seq<Sent>) {
    forall k :: 0 <= k < |sent| ==> NoStart(sent[k].noise) && (sent[k].item.Packet? ==> HASH !in sent[k].item.payload)
  }

  function Stream(sent: seq<Sent>, tail: seq<byte>): seq<byte> {
    if sent == [] then tail else sent[0].noise + (Wire(sent[0].item) + Stream(sent[1..], tail))
  }

  function ItemsOf(sent: seq<Sent>): seq<Item> {
    if sent == [] then [] else [sent[0].item] + ItemsOf(sent[1..])
  }

  lemma ItemsOfWire(item: Item, rest: seq<byte>)
    requires item.Packet? ==> HASH !in item.payload
    ensures Items(Wire(item) + rest) == [item] + Items(rest)
  {
    hide NextItem, Hex2;
    var s := Wire(item);
    ItemsStep(s + rest);
    match item {
      case Interrupt =>
        FirstInterrupt(s, rest);
        assert s[1..] + rest == rest;
      case Packet(payload) =>
        var end := |payload| + 1;
        assert s[..end] == [DOLLAR] + payload && s[1..end] == payload;
        FirstPacket(s, end, rest);
        assert s[end + 1..] == Hex2(Sum(payload) % 256);
        HexIsNoise(Sum(payload) % 256);
        SkipNoise(s[end + 1..], rest);
    }
  }

  lemma HexIsNoise(n: nat)
    requires n < 256
    ensures NoStart(Hex2(n))
  {
  }

  /** The reference parser recovers what was sent. */
  lemma {:induction false} StreamRecovered(sent: seq<Sent>, tail: seq<byte>)
    requires Sendable(sent) && NoStart(tail)
    ensures Items(Stream(sent, tail)) == ItemsOf(sent)
  {
    if sent == [] {
      SkipNoise(tail, []);
      assert tail + [] == tail;
    } else {
      var rest := Stream(sent[1..], tail);
      StreamRecovered(sent[1..], tail);
      SkipNoise(sent[0].noise, Wire(sent[0].item) + rest);
      ItemsOfWire(sent[0].item, rest);
    }
  }

  /** A binary packet with a '#'-free prefix can be framed, and its data read back. */
  lemma BinaryPacketRecovered(prefix: seq<byte>, data: seq<byte>)
    requires HASH !in prefix
    ensures var payload := prefix + Escape(data);
            && HASH !in payload && Items(Framed(payload)) == [Packet(payload)]
            && Unescape(payload[|prefix|..]) == Some(data)
  {
    var payload := prefix + Escape(data);
    EscapedIsClean(data);
    UnescapeInverts(data);
    assert payload[|prefix|..] == Escape(data);
    ItemsOfWire(Packet(payload), []);
    assert Wire(Packet(payload)) + [] == Framed(payload);
  }

  // ---- the connection

  class GdbConnection {
    var inbuf: seq<byte>
    var outbuf: seq<byte>
    var packetend: nat
    var alive: bool
    const noAck: bool
    /** What the socket will deliver, read by read, before it closes. */
    var chunks: seq<seq<byte>>

    /** The bytes not yet handed out. */
    ghost function Pending(): seq<byte>
      reads this
    {
      inbuf + Flatten(chunks)
    }

    constructor (chunks: seq<seq<byte>>, noAck: bool)
      ensures this.chunks == chunks && inbuf == [] && outbuf == [] && alive && Pending() == Flatten(chunks)
    {
      this.chunks, this.noAck := chunks, noAck;
      inbuf, outbuf, packetend, alive := [], [], 0, true;
    }

    method ReadDataOnce()
      modifies `inbuf, `chunks, `alive
      ensures Pending() == old(Pending()) && old(inbuf) <= inbuf
      ensures alive == (old(alive) && old(chunks) != [])
      ensures old(chunks) == [] ==> inbuf == old(inbuf) && chunks == []
      ensures old(chunks) != [] ==> |chunks| < |old(chunks)|
    {
      if chunks == [] {
        alive := false;
      } else {
        Associative(inbuf, chunks[0], Flatten(chunks[1..]));
        inbuf := inbuf + chunks[0];
        chunks := chunks[1..];
      }
    }

    /** Discard everything before the next start of a packet. */
    method SkipToPacketStart() returns (found: bool)
      modifies `inbuf
      ensures NextItem(Pending()) == old(NextItem(Pending()))
      ensures found ==> inbuf != [] && IsStart(inbuf[0])
      ensures !found ==> inbuf == []
      ensures |inbuf| <= |old(inbuf)|
    {
      hide NextItem;
      var end := 0;
      while end < |inbuf| && !IsStart(inbuf[end])
        invariant 0 <= end <= |inbuf| && NoStart(inbuf[..end])
      {
        assert inbuf[..end + 1] == inbuf[..end] + [inbuf[end]];
        end := end + 1;
      }
      Associative(inbuf[..end], inbuf[end..], Flatten(chunks));
      assert inbuf == inbuf[..end] + inbuf[end..];
      SkipNoise(inbuf[..end], inbuf[end..] + Flatten(chunks));
      found := end < |inbuf|;
      inbuf := inbuf[end..];
    }

    /** Read until a packet starts, or the connection closes with nothing left. */
    method AwaitStart()
      requires alive
      modifies `inbuf, `chunks, `alive
      ensures NextItem(Pending()) == old(NextItem(Pending()))
      ensures alive ==> inbuf != [] && IsStart(inbuf[0])
      ensures !alive ==> inbuf == [] && chunks == []
    {
      hide NextItem;
      var found := SkipToPacketStart();
      while !found && alive
        invariant NextItem(Pending()) == old(NextItem(Pending()))
        invariant found ==> inbuf != [] && IsStart(inbuf[0])
        invariant !found ==> inbuf == []
        invariant !alive ==> !found && chunks == []
        decreases |chunks|, alive
      {
        ReadDataOnce();
        found := SkipToPacketStart();
      }
    }

    /** Read until a '#' is in the buffer, looking at every byte once. */
    method AwaitHash()
      requires alive && inbuf != [] && inbuf[0] == DOLLAR
      modifies `inbuf, `chunks, `alive, `packetend
      ensures Pending() == old(Pending()) && inbuf != [] && inbuf[0] == DOLLAR
      ensures alive ==> 0 < packetend < |inbuf| && inbuf[packetend] == HASH && HASH !in inbuf[..packetend]
      ensures !alive ==> HASH !in inbuf && chunks == []
    {
      var checkedlen := 0;
      packetend := FindHash(checkedlen);
      while packetend == |inbuf|
        invariant alive && checkedlen <= packetend <= |inbuf| && inbuf != [] && inbuf[0] == DOLLAR
        invariant HASH !in inbuf[..packetend] && (packetend < |inbuf| ==> inbuf[packetend] == HASH)
        invariant Pending() == old(Pending())
        decreases |chunks|
      {
        checkedlen := |inbuf|;
        assert inbuf[..checkedlen] == inbuf;
        ghost var before := inbuf;
        ReadDataOnce();
        assert inbuf[..checkedlen] == before;
        if !alive {
          return;
        }
        packetend := FindHash(checkedlen);
      }
    }

    /** Read until a whole item is in the buffer, or the connection closes. */
    method ReadPacket()
      requires alive
      modifies this
      ensures NextItem(Pending()) == old(NextItem(Pending()))
      ensures alive <==> NextItem(Pending()).Some?
      ensures alive ==> Ready()
      ensures outbuf == if alive && inbuf[0] == DOLLAR && !noAck then old(outbuf) + [PLUS] else old(outbuf)
    {
      hide NextItem, SplitHash;
      AwaitStart();
      if !alive {
        NothingLeft(inbuf);
        assert Pending() == inbuf;
        return;
      }
      if inbuf[0] == INTERRUPT_CHAR {
        packetend := 1;
        FirstInterrupt(inbuf, Flatten(chunks));
        return;
      }
      AwaitHash();
      if !alive {
        NoPacket(inbuf);
        assert Pending() == inbuf;
        return;
      }
      FirstPacket(inbuf, packetend, Flatten(chunks));
      if !noAck {
        outbuf := outbuf + [PLUS];
      }
    }

    ghost predicate Ready()
      reads this
    {
      && inbuf != []
      && ((inbuf[0] == INTERRUPT_CHAR && packetend == 1)
          || (inbuf[0] == DOLLAR && 0 < packetend < |inbuf| && inbuf[packetend] == HASH && HASH !in inbuf[..packetend]))
    }

    /** The next '#' from `from` on, or the end of the buffer. */
    method FindHash(from: nat) returns (end: nat)
      requires from <= |inbuf| && HASH !in inbuf[..from]
      ensures from <= end <= |inbuf| && HASH !in inbuf[..end]
      ensures end < |inbuf| ==> inbuf[end] == HASH
    {
      end := from;
      while end < |inbuf| && inbuf[end] != HASH
        invariant from <= end <= |inbuf| && HASH !in inbuf[..end]
      {
        assert inbuf[..end + 1] == inbuf[..end] + [inbuf[end]];
        end := end + 1;
      }
    }

    /** Take the item and erase it; its checksum is skipped later. */
    method ProcessPacket() returns (item: Item)
      requires Ready()
      modifies `inbuf
      ensures old(NextItem(Pending())) == Some((item, Pending()))
    {
      hide NextItem, SplitHash;
      if inbuf[0] == INTERRUPT_CHAR {
        FirstInterrupt(inbuf, Flatten(chunks));
        inbuf := inbuf[1..];
        return Interrupt;
      }
      FirstPacket(inbuf, packetend, Flatten(chunks));
      item := Packet(inbuf[1..packetend]);
      inbuf := inbuf[packetend + 1..];
    }

    /** Every item of the stream, in order, however it was cut into pieces. */
    method ReceiveAll() returns (items: seq<Item>)
      requires alive
      modifies this
      ensures items == Items(old(Pending())) && !alive
    {
      hide NextItem, Ready;
      items := [];
      ghost var stream := Pending();
      while true
        invariant alive && items + Items(Pending()) == Items(stream)
        decreases |Pending()|
      {
        ItemsStep(Pending());
        ReadPacket();
        ItemsStep(Pending());
        if !alive {
          return;
        }
        ghost var before := Pending();
        var item := ProcessPacket();
        assert items + ([item] + Items(Pending())) == (items + [item]) + Items(Pending());
        items := items + [item];
      }
    }

    // ---- writing

    method WritePacketBytes(data: seq<byte>)
      modifies `outbuf
      ensures outbuf == old(outbuf) + Framed(data)
    {
      outbuf := outbuf + [DOLLAR];
      var checksum: nat := 0;
      for i := 0 to |data|
        invariant checksum == Sum(data[..i]) % 256
      {
        assert data[..i + 1][..i] == data[..i];
        checksum := (checksum + data[i]) % 256;
      }
      assert data[..|data|] == data;
      outbuf := outbuf + data;
      outbuf := outbuf + [HASH];
      outbuf := outbuf + Hex2(checksum);
    }

    /** The buffer of twice the data's size is always large enough: nothing is cut off. */
    method WriteBinaryPacket(prefix: seq<byte>, data: seq<byte>)
      modifies `outbuf
      ensures outbuf == old(outbuf) + Framed(prefix + Escape(data))
    {
      hide Escape, EscapeByte, Framed;
      var buf := new byte[2 * |data| + |prefix|](i => 0);
      var n: nat := CopyPrefix(buf, prefix);
      NothingEscaped(prefix, data);
      var i := 0;
      while i < |data|
        invariant 0 <= i <= |data| && n <= |prefix| + 2 * i && outbuf == old(outbuf)
        invariant buf[..n] == prefix + Escape(data[..i])
      {
        if n + 2 > buf.Length {
          break;
        }
        OneEscaped(prefix, data, i);
        n := PutEscaped(buf, n, data[i]);
        i := i + 1;
      }
      assert data[..|data|] == data;
      WritePacketBytes(buf[..n]);
    }
  }

  method CopyPrefix(buf: array<byte>, prefix: seq<byte>) returns (n: nat)
    requires |prefix| <= buf.Length
    modifies buf
    ensures n == |prefix| && buf[..n] == prefix
  {
    n := 0;
    while n < |prefix|
      invariant n <= |prefix| && buf[..n] == prefix[..n]
    {
      buf[n] := prefix[n];
      n := n + 1;
    }
  }

  /** One byte of data, escaped where needed, into the buffer. */
  method PutEscaped(buf: array<byte>, n: nat, b: byte) returns (n': nat)
    requires n + 2 <= buf.Length
    modifies buf
    ensures n < n' <= n + 2 && buf[..n'] == old(buf[..n]) + EscapeByte(b)
  {
    if Special(b) {
      buf[n] := BRACE;
      buf[n + 1] := Flip(b);
      n' := n + 2;
    } else {
      buf[n] := b;
      n' := n + 1;
    }
  }

  lemma NothingEscaped(prefix: seq<byte>, data: seq<byte>)
    ensures prefix + Escape(data[..0]) == prefix
  {
  }

  lemma OneEscaped(prefix: seq<byte>, data: seq<byte>, i: nat)
    requires i < |data|
    ensures prefix + Escape(data[..i + 1]) == prefix + Escape(data[..i]) + EscapeByte(data[i])
  {
    assert data[..i + 1] == data[..i] + [data[i]];
    EscapeSnoc(data[..i], data[i]);
  }

  function PrependAll(data: seq<byte>, r: Option<seq<byte>>): Option<seq<byte>> {
    match r case None => None case Some(s) => Some(data + s)
  }

  lemma PrependStep(data: seq<byte>, b: byte, r: Option<seq<byte>>)
    ensures PrependAll(data, Prepend(b, r)) == PrependAll(data + [b], r)
  {
    if r.Some? {
      assert data + ([b] + r.value) == (data + [b]) + r.value;
    }
  }

  lemma PrependEnds(data: seq<byte>, r: Option<seq<byte>>)
    ensures PrependAll([], r) == r && PrependAll(data, Unescape([])) == Some(data)
  {
    if r.Some? {
      assert [] + r.value == r.value;
    }
    assert data + [] == data;
  }

  /** The reader of escaped data; `None` stands for the parser's stop. */
  method ReadBinaryData(payload: seq<byte>) returns (r: Option<seq<byte>>)
    ensures r == Unescape(payload)
  {
    var data: seq<byte> := [];
    var pos := 0;
    assert payload[0..] == payload;
    PrependEnds(data, Unescape(payload));
    while pos < |payload|
      invariant 0 <= pos <= |payload| && Unescape(payload) == PrependAll(data, Unescape(payload[pos..]))
    {
      var b := payload[pos];
      ghost var rest := payload[pos..];
      pos := pos + 1;
      if b == BRACE {
        if pos == |payload| {
          return None;
        }
        b := Flip(payload[pos]);
        pos := pos + 1;
        assert rest[2..] == payload[pos..];
      } else {
        assert rest[1..] == payload[pos..];
      }
      PrependStep(data, b, Unescape(payload[pos..]));
      data := data + [b];
    }
    assert payload[pos..] == [];
    PrependEnds(data, None);
    return Some(data);
  }

  /** What was sent is received, in order, for every way the stream may be cut into reads. */
  method Deliver(sent: seq<Sent>, tail: seq<byte>, chunks: seq<seq<byte>>) returns (items: seq<Item>)
    requires Sendable(sent) && NoStart(tail) && Flatten(chunks) == Stream(sent, tail)
    ensures items == ItemsOf(sent)
  {
    var connection := new GdbConnection(chunks, true);
    items := connection.ReceiveAll();
    StreamRecovered(sent, tail);
  }

  lemma NothingLeft(s: seq<byte>)
    requires s == []
    ensures NextItem(s) == None
  {
  }

  lemma FirstInterrupt(s: seq<byte>, rest: seq<byte>)
    requires s != [] && s[0] == INTERRUPT_CHAR
    ensures NextItem(s + rest) == Some((Interrupt, s[1..] + rest))
  {
    assert (s + rest)[1..] == s[1..] + rest;
  }

  lemma FirstPacket(s: seq<byte>, end: nat, rest: seq<byte>)
    requires 0 < end < |s| && s[0] == DOLLAR && s[end] == HASH && HASH !in s[..end]
    ensures NextItem(s + rest) == Some((Packet(s[1..end]), s[end + 1..] + rest))
  {
    hide SplitHash;
    assert (s + rest)[1..] == s[1..end] + [HASH] + (s[end + 1..] + rest);
    assert forall i :: 0 <= i < |s[1..end]| ==> s[1..end][i] == s[..end][i + 1];
    HashAt(s[1..end], s[end + 1..] + rest);
  }

  lemma NoPacket(s: seq<byte>)
    requires s != [] && s[0] == DOLLAR && HASH !in s
    ensures NextItem(s) == None
  {
    NoHash(s[1..]);
  }

  lemma ItemsStep(s: seq<byte>)
    ensures NextItem(s).None? ==> Items(s) == []
    ensures NextItem(s).Some? ==> Items(s) == [NextItem(s).value.0] + Items(NextItem(s).value.1)
  {
  }
}
