/**
 Packets between host and target: the header's bit fields, construction and parsing, and
 their framing on a byte stream that may be split anywhere.
*/
module Packet {

  import opened Machine
  import opened Powers

  datatype Result<T> = Ok(value: T) | Err(error: Error)
  datatype Error = BadPayload | Nack | IllegalCommand | IoError | Starved

  const READ_MEM: int := 0
  const WRITE_MEM: int := 1
  const READ_CONTROL_REG: int := 2
  const ACK: int := 4
  const NACK: int := 5

  const HEADER: int := 8

  /** The four bit fields of a header: 4, 12, 8 and 40 bits. */
  datatype Header = Header(cmd: int, dataSize: int, seqno: int, addr: int) {
    predicate Valid() {
      0 <= cmd < 16 && 0 <= dataSize < 4096 && 0 <= seqno < 256 && 0 <= addr < 0x100_0000_0000
    }

    function PayloadSize(): int { if cmd == READ_MEM || cmd == READ_CONTROL_REG then 0 else dataSize * 8 }
  }

  /** Values wider than their fields lose multiples of the field's range, and nothing else. */
  function MakeHeader(cmd: nat, seqno: nat, dataSize: nat, addr: nat): (h: Header)
    ensures h.Valid()
    ensures (cmd - h.cmd) % 16 == 0 && (dataSize - h.dataSize) % 4096 == 0
    ensures (seqno - h.seqno) % 256 == 0 && (addr - h.addr) % 0x100_0000_0000 == 0
    ensures h == Header(cmd, dataSize, seqno, addr) <==>
            cmd < 16 && dataSize < 4096 && seqno < 256 && addr < 0x100_0000_0000
  {
    Header(cmd % 16, dataSize % 4096, seqno % 256, addr % 0x100_0000_0000)
  }

  datatype Packet = Packet(header: Header, payload: seq<Byte>) {
    predicate Valid() { header.Valid() && |payload| == header.PayloadSize() }
  }

  // ---- headers as bytes ----

  function HeaderWord(h: Header): int { h.cmd + h.dataSize * 0x10 + h.seqno * 0x1_0000 + h.addr * 0x100_0000 }

  function WordHeader(w: int): Header {
    Header(w % 0x10, w / 0x10 % 0x1000, w / 0x1_0000 % 0x100, w / 0x100_0000 % 0x100_0000_0000)
  }

  lemma WordRoundTrip(h: Header)
    requires h.Valid()
    ensures 0 <= HeaderWord(h) < 0x1_0000_0000_0000_0000 && WordHeader(HeaderWord(h)) == h
  {
    var w := HeaderWord(h);
    var c := h.seqno + h.addr * 0x100;
    var b := h.dataSize + c * 0x1000;
    assert w == h.cmd + b * 0x10;
    DivModUnique(w, 0x10, b, h.cmd);
    DivModUnique(b, 0x1000, c, h.dataSize);
    DivModUnique(w, 0x1_0000, c, h.cmd + h.dataSize * 0x10);
    DivModUnique(c, 0x100, h.addr, h.seqno);
    DivModUnique(w, 0x100_0000, h.addr, h.cmd + h.dataSize * 0x10 + h.seqno * 0x1_0000);
  }

  lemma HeaderRoundTrip(w: int)
    requires 0 <= w < 0x1_0000_0000_0000_0000
    ensures WordHeader(w).Valid() && HeaderWord(WordHeader(w)) == w
  {
    var b := w / 0x10;
    var c := b / 0x1000;
    var d := c / 0x100;
    assert w / 0x1_0000 == c && w / 0x100_0000 == d;
  }

  /** The bytes of a number, lowest first. */
  function Bytes(w: nat, n: nat): (b: seq<Byte>)
    ensures |b| == n
    decreases n
  {
    if n == 0 then [] else [w % 256] + Bytes(w / 256, n - 1)
  }

  function Number(b: seq<Byte>): (w: nat) {
    if b == [] then 0 else b[0] + 256 * Number(b[1..])
  }

  function Power(n: nat): (p: nat)
    ensures p > 0
  {
    if n == 0 then 1 else 256 * Power(n - 1)
  }

  lemma {:induction false} NumberOfBytes(w: nat, n: nat)
    requires w < Power(n)
    ensures Number(Bytes(w, n)) == w
    decreases n
  {
    if n > 0 {
      assert w / 256 < Power(n - 1);
      NumberOfBytes(w / 256, n - 1);
    }
  }

  lemma {:induction false} BytesOfNumber(b: seq<Byte>)
    ensures Number(b) < Power(|b|) && Bytes(Number(b), |b|) == b
  {
    if b != [] {
      BytesOfNumber(b[1..]);
      var w := Number(b[1..]);
      DivModUnique(Number(b), 256, w, b[0]);
      assert Bytes(Number(b), |b|) == [b[0]] + Bytes(w, |b| - 1);
      assert b == [b[0]] + b[1..];
    }
  }

  function EncodeHeader(h: Header): (b: seq<Byte>)
    requires h.Valid()
    ensures |b| == HEADER
  {
    WordRoundTrip(h);
    Bytes(HeaderWord(h), HEADER)
  }

  function DecodeHeader(b: seq<Byte>): Header
    requires |b| == HEADER
  {
    WordHeader(Number(b))
  }

  lemma Power8()
    ensures Power(8) == 0x1_0000_0000_0000_0000
  {
    assert Power(4) == 0x1_0000_0000;
  }

  lemma EncodeDecodeHeader(h: Header)
    requires h.Valid()
    ensures DecodeHeader(EncodeHeader(h)) == h
  {
    hide Bytes, Number, HeaderWord, WordHeader, Power;
    WordRoundTrip(h);
    Power8();
    NumberOfBytes(HeaderWord(h), HEADER);
  }

  lemma DecodeEncodeHeader(b: seq<Byte>)
    requires |b| == HEADER
    ensures DecodeHeader(b).Valid() && EncodeHeader(DecodeHeader(b)) == b
  {
    hide Bytes, Number, HeaderWord, WordHeader, Power;
    BytesOfNumber(b);
    Power8();
    HeaderRoundTrip(Number(b));
  }

  /** Where each field lies: the command in the low half of the first byte, the size in the
      other half and the second byte, then the sequence number and five bytes of address. */
  lemma HeaderBytes(h: Header)
    requires h.Valid()
    ensures var b := EncodeHeader(h);
            && b[0] == h.cmd + 16 * (h.dataSize % 16) && b[1] == h.dataSize / 16 && b[2] == h.seqno
            && b[3] == h.addr % 256 && b[4] == h.addr / 0x100 % 256 && b[5] == h.addr / 0x1_0000 % 256
            && b[6] == h.addr / 0x100_0000 % 256 && b[7] == h.addr / 0x1_0000_0000
  {
    var w0 := HeaderWord(h);
    var w2 := h.seqno + h.addr * 0x100;
    var w1 := h.dataSize / 16 + w2 * 0x100;
    assert w0 == h.cmd + 16 * (h.dataSize % 16) + w1 * 0x100;
    DivModUnique(w0, 0x100, w1, h.cmd + 16 * (h.dataSize % 16));
    DivModUnique(w1, 0x100, w2, h.dataSize / 16);
    DivModUnique(w2, 0x100, h.addr, h.seqno);
    WordRoundTrip(h);
    EightBytes(w0, w1, w2, h.addr);
  }

  lemma EightBytes(w0: nat, w1: nat, w2: nat, w3: nat)
    requires w1 == w0 / 256 && w2 == w1 / 256 && w3 == w2 / 256 && w3 < 0x100_0000_0000
    ensures Bytes(w0, 8) == [w0 % 256, w1 % 256, w2 % 256, w3 % 256, w3 / 0x100 % 256, w3 / 0x1_0000 % 256,
                             w3 / 0x100_0000 % 256, w3 / 0x1_0000_0000]
  {
    hide Bytes;
    FirstByte(w0, 8);
    FirstByte(w1, 7);
    FirstByte(w2, 6);
    FirstByte(w3, 5);
    FirstByte(w3 / 0x100, 4);
    FirstByte(w3 / 0x1_0000, 3);
    FirstByte(w3 / 0x100_0000, 2);
    FirstByte(w3 / 0x1_0000_0000, 1);
  }

  lemma FirstByte(w: nat, n: nat)
    requires 0 < n
    ensures Bytes(w, n) == [w % 256] + Bytes(w / 256, n - 1)
  {
  }

  /** Only the two read commands, 0 and 2, come without data; any other has whole words of it,
      as many as the second byte and the high half of the first say. */
  lemma PayloadBytes(h: Header)
    requires h.Valid()
    ensures var low: int, high: int := EncodeHeader(h)[0], EncodeHeader(h)[1];
            h.PayloadSize() == if low % 16 == 0 || low % 16 == 2 then 0 else 8 * (low / 16 + 16 * high)
  {
    hide EncodeHeader;
    HeaderBytes(h);
    HalfByte(EncodeHeader(h)[0], EncodeHeader(h)[1], h.cmd, h.dataSize);
  }

  lemma HalfByte(b0: int, b1: int, low: int, size: int)
    requires b0 == low + 16 * (size % 16) && b1 == size / 16 && 0 <= low < 16
    ensures low == b0 % 16 && size == b0 / 16 + 16 * b1
  {
    DivModUnique(b0, 16, size % 16, low);
  }

  // ---- packets as bytes ----

  /** A packet is refused if its payload is not as long as its header says. */
  function MakePacket(h: Header, payload: seq<Byte>): Result<Packet>
    requires h.Valid()
  {
    if |payload| != h.PayloadSize() then Err(BadPayload) else Ok(Packet(h, payload))
  }

  function Encode(p: Packet): (b: seq<Byte>)
    requires p.Valid()
    ensures |b| == HEADER + p.header.PayloadSize()
  {
    EncodeHeader(p.header) + p.payload
  }

  /** The size of the packet that some bytes start with. */
  function FrameSize(b: seq<Byte>): int
    requires |b| >= HEADER
  {
    HEADER + DecodeHeader(b[..HEADER]).PayloadSize()
  }

  predicate Framed(b: seq<Byte>) { |b| >= HEADER && |b| >= FrameSize(b) }

  function Parse(b: seq<Byte>): (p: Packet)
    requires Framed(b)
    ensures p.Valid() && FrameSize(b) == HEADER + p.header.PayloadSize()
  {
    DecodeEncodeHeader(b[..HEADER]);
    Packet(DecodeHeader(b[..HEADER]), b[HEADER..FrameSize(b)])
  }

  /** Construction followed by parsing gives the packet back, whatever follows it. */
  lemma ParseEncode(p: Packet, rest: seq<Byte>)
    requires p.Valid()
    ensures Framed(Encode(p) + rest) && FrameSize(Encode(p) + rest) == |Encode(p)| && Parse(Encode(p) + rest) == p
  {
    hide EncodeHeader, DecodeHeader;
    var b := Encode(p) + rest;
    assert b[..HEADER] == EncodeHeader(p.header);
    EncodeDecodeHeader(p.header);
    assert b[HEADER..|Encode(p)|] == p.payload;
  }

  /** The packet that asks for bytes to be written at an address of the target. */
  function WriteRequest(seqno: nat, taddr: nat, src: seq<Byte>): Result<Packet> {
    MakePacket(MakeHeader(WRITE_MEM, seqno, |src| / 8, taddr / 8), src)
  }

  /** It can be made exactly for whole words below 32 KiB. The receiver then reads back the
      bytes, and the address exactly if it is that of a word and fits its field. */
  lemma WriteRequestArrives(seqno: nat, taddr: nat, src: seq<Byte>, rest: seq<Byte>)
    ensures WriteRequest(seqno, taddr, src).Ok? <==> |src| % 8 == 0 && |src| < 0x8000
    ensures WriteRequest(seqno, taddr, src).Ok? ==>
              && WriteRequest(seqno, taddr, src).value.Valid()
              && var b := Encode(WriteRequest(seqno, taddr, src).value) + rest;
              && Framed(b) && b[FrameSize(b)..] == rest
              && Parse(b).payload == src && Parse(b).header.cmd == WRITE_MEM
              && (Parse(b).header.addr * 8 == taddr <==> taddr % 8 == 0 && taddr < 0x800_0000_0000)
  {
    hide Encode, Parse, FrameSize;
    var h := MakeHeader(WRITE_MEM, seqno, |src| / 8, taddr / 8);
    assert h.PayloadSize() == |src| <==> |src| % 8 == 0 && |src| < 0x8000;
    if h.PayloadSize() == |src| {
      var p := Packet(h, src);
      ParseEncode(p, rest);
      assert (Encode(p) + rest)[|Encode(p)|..] == rest;
    }
  }

  /** Parsing followed by construction gives the bytes back. */
  lemma EncodeParse(b: seq<Byte>)
    requires Framed(b)
    ensures Encode(Parse(b)) + b[FrameSize(b)..] == b
  {
    hide EncodeHeader, DecodeHeader;
    DecodeEncodeHeader(b[..HEADER]);
    assert b == b[..HEADER] + b[HEADER..FrameSize(b)] + b[FrameSize(b)..];
  }

  /** The first packet is decided by the bytes it takes. */
  lemma ParsePrefix(b: seq<Byte>, more: seq<Byte>)
    requires |b| >= HEADER
    ensures FrameSize(b + more) == FrameSize(b)
    ensures Framed(b) ==> Framed(b + more) && Parse(b + more) == Parse(b)
  {
    hide DecodeHeader;
    assert (b + more)[..HEADER] == b[..HEADER];
    DecodeEncodeHeader(b[..HEADER]);
    if Framed(b) {
      assert (b + more)[HEADER..FrameSize(b)] == b[HEADER..FrameSize(b)];
    }
  }

  /** The command of the first packet is the low half of the first byte. */
  lemma CommandByte(b: seq<Byte>)
    ensures Framed(b) ==> Parse(b).header.cmd == b[0] % 16
  {
    hide EncodeHeader, DecodeHeader;
    if Framed(b) {
      DecodeEncodeHeader(b[..HEADER]);
      CommandOf(Parse(b).header);
    }
  }

  lemma CommandOf(h: Header)
    requires h.Valid()
    ensures EncodeHeader(h)[0] % 16 == h.cmd
  {
    hide EncodeHeader;
    HeaderBytes(h);
    HalfByte(EncodeHeader(h)[0], EncodeHeader(h)[1], h.cmd, h.dataSize);
  }

  // ---- reading ----

  /** What one read of the transport gives: some bytes, possibly none, or a failure. */
  datatype Piece = Data(bytes: seq<Byte>) | Failure

  /** The bytes that arrive before the transport fails or has no more. */
  ghost function Delivered(pieces: seq<Piece>): seq<Byte> {
    if pieces == [] || pieces[0].Failure? then [] else pieces[0].bytes + Delivered(pieces[1..])
  }

  ghost predicate Fails(pieces: seq<Piece>) {
    pieces != [] && (pieces[0].Failure? || Fails(pieces[1..]))
  }

  /** What there is to read from a stream of bytes that ends, in a failure or not. */
  ghost function NextPacket(stream: seq<Byte>, fails: bool): Result<Packet> {
    if !Framed(stream) then Err(if fails then IoError else Starved)
    else
      var p := Parse(stream);
      if p.header.cmd == ACK then Ok(p) else if p.header.cmd == NACK then Err(Nack) else Err(IllegalCommand)
  }

  class Link {
    var readBuf: seq<Byte>
    var incoming: seq<Piece>
    const maxSize: nat  // what one read may bring

    constructor (pieces: seq<Piece>, max: nat)
      ensures readBuf == [] && incoming == pieces && maxSize == max
    {
      readBuf, incoming, maxSize := [], pieces, max;
    }

    /** The bytes not yet consumed, buffered or still to arrive. */
    ghost function Stream(): seq<Byte>
      reads this
    {
      readBuf + Delivered(incoming)
    }

    /** However the transport splits the stream, the result is that of the whole stream, and
        exactly the bytes of the packet are consumed. */
    method ReadPacket() returns (r: Result<Packet>)
      modifies this
      ensures r == NextPacket(old(Stream()), old(Fails(incoming)))
      ensures r.Ok? ==> old(Stream()) == Encode(r.value) + Stream() && (Fails(incoming) <==> old(Fails(incoming)))
      ensures r.Err? && r.error != IoError ==> Stream() == old(Stream())
      ensures Framed(old(Stream())) ==>
                var cmd := old(Stream())[0] % 16;
                && (r.Ok? <==> cmd == 4) && (r == Err(Nack) <==> cmd == 5)
                && (r == Err(IllegalCommand) <==> cmd !in {4, 5})
    {
      hide Parse, FrameSize, Encode;
      CommandByte(Stream());
      while true
        invariant Stream() == old(Stream()) && (Fails(incoming) <==> old(Fails(incoming)))
        decreases |incoming|
      {
        if |readBuf| >= HEADER {
          ParsePrefix(readBuf, Delivered(incoming));
          if |readBuf| >= FrameSize(readBuf) {
            var p := Parse(readBuf);
            if p.header.cmd == NACK {
              return Err(Nack);
            } else if p.header.cmd != ACK {
              return Err(IllegalCommand);
            }
            Consume(readBuf, Delivered(incoming));
            readBuf := readBuf[FrameSize(readBuf)..];
            return Ok(p);
          }
        }
        if incoming == [] {
          assert Stream() == readBuf;
          return Err(Starved);
        }
        var piece := incoming[0];
        if piece.Failure? {
          assert Stream() == readBuf;
          readBuf, incoming := readBuf + seq(maxSize, _ => 0), incoming[1..];
          return Err(IoError);
        }
        assert readBuf + piece.bytes + Delivered(incoming[1..]) == readBuf + Delivered(incoming);
        readBuf, incoming := readBuf + piece.bytes, incoming[1..];
      }
    }

    /** On a stream that starts with acknowledgements, the k-th read returns the k-th of them,
        and what follows them is left unconsumed. */
    method ReadPackets(n: nat, ghost ps: seq<Packet>, ghost rest: seq<Byte>) returns (rs: seq<Result<Packet>>)
      requires |ps| == n && (forall i :: 0 <= i < n ==> ps[i].Valid() && ps[i].header.cmd == ACK)
      requires Stream() == EncodeAll(ps) + rest
      modifies this
      ensures |rs| == n && forall i :: 0 <= i < n ==> rs[i] == Ok(ps[i])
      ensures Stream() == rest
    {
      hide Encode, EncodeAll, NextPacket;
      rs := [];
      assert ps[0..] == ps;
      while |rs| < n
        invariant |rs| <= n && forall i :: 0 <= i < |rs| ==> rs[i] == Ok(ps[i])
        invariant Stream() == EncodeAll(ps[|rs|..]) + rest
      {
        ghost var k := |rs|;
        ghost var tail := EncodeAll(ps[k + 1..]) + rest;
        FirstOf(ps, k, rest);
        NextIsFirst(ps[k], tail, Fails(incoming));
        var r := ReadPacket();
        SameRest(Encode(ps[k]), tail, Stream());
        rs := rs + [r];
      }
      NoneLeft(ps, rest);
    }
  }

  /** Some packets one after the other. */
  ghost function EncodeAll(ps: seq<Packet>): seq<Byte>
    requires forall i :: 0 <= i < |ps| ==> ps[i].Valid()
  {
    if ps == [] then [] else Encode(ps[0]) + EncodeAll(ps[1..])
  }

  lemma FirstOf(ps: seq<Packet>, k: nat, rest: seq<Byte>)
    requires k < |ps| && forall i :: 0 <= i < |ps| ==> ps[i].Valid()
    ensures EncodeAll(ps[k..]) + rest == Encode(ps[k]) + (EncodeAll(ps[k + 1..]) + rest)
  {
    hide Encode;
    assert ps[k..][1..] == ps[k + 1..];
  }

  lemma NoneLeft(ps: seq<Packet>, rest: seq<Byte>)
    requires forall i :: 0 <= i < |ps| ==> ps[i].Valid()
    ensures EncodeAll(ps[|ps|..]) + rest == rest
  {
    assert ps[|ps|..] == [];
  }

  lemma NextIsFirst(p: Packet, rest: seq<Byte>, fails: bool)
    requires p.Valid() && p.header.cmd == ACK
    ensures NextPacket(Encode(p) + rest, fails) == Ok(p)
  {
    hide Encode, Parse, FrameSize;
    ParseEncode(p, rest);
  }

  lemma SameRest(a: seq<Byte>, b: seq<Byte>, c: seq<Byte>)
    requires a + b == a + c
    ensures b == c
  {
    assert b == (a + b)[|a|..] && c == (a + c)[|a|..];
  }

  // ---- writing ----

  /** Writes a packet to a transport that takes as many bytes as it likes at a time; the counts
      are what it reports, negative for a failure. */
  method WritePacket(p: Packet, counts: seq<int>) returns (sent: seq<Byte>, r: Result<bool>)
    requires p.Valid()
    ensures sent <= Encode(p)
    ensures r.Ok? ==> sent == Encode(p)
    ensures r.Err? ==> sent != Encode(p) && (r.error == Starved || r.error == IoError)
    ensures r == Err(IoError) ==> exists i :: 0 <= i < |counts| && counts[i] < 0
  {
    hide Encode;
    var bytes := Encode(p);
    var pos, i := 0, 0;
    while pos < |bytes|
      invariant 0 <= pos <= |bytes| && 0 <= i <= |counts|
      decreases |counts| - i
    {
      if i == |counts| {
        return bytes[..pos], Err(Starved);
      }
      if counts[i] < 0 {
        return bytes[..pos], Err(IoError);
      }
      pos := pos + if counts[i] <= |bytes| - pos then counts[i] else |bytes| - pos;
      i := i + 1;
    }
    assert bytes[..pos] == bytes;
    return bytes, Ok(true);
  }

  lemma Consume(b: seq<Byte>, more: seq<Byte>)
    requires Framed(b)
    ensures b + more == Encode(Parse(b)) + (b[FrameSize(b)..] + more)
  {
    hide Encode, Parse, FrameSize;
    EncodeParse(b);
    assert b + more == Encode(Parse(b)) + b[FrameSize(b)..] + more;
  }
}
