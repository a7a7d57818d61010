/** Frames as they are on the wire, written byte by byte, and what the parser makes of them. */
module FrameFormat {
  import opened Basics
  import opened CArith
  import opened Matching
  import opened Frames

  /** A TCP segment in IPv4 without options, with or without a VLAN tag. The parts that the parser ignores
      are arbitrary. */
  datatype Wire = Wire(
    addresses: seq<Byte>, tag: Option<(Byte, Byte)>,
    ipRest: seq<Byte>, protocol: Byte, source: Uint32, destination: Uint32,
    sourcePort: Uint16, destinationPort: Uint16, number: Uint32, acknowledged: Uint32,
    dataOffset: nat, reserved: nat, tcpRest: seq<Byte>, options: seq<Byte>,
    payload: seq<Byte>)
  {
    predicate Valid() {
      && |addresses| == 12 && |ipRest| == 8 && |tcpRest| == 7
      && 5 <= dataOffset <= 15 && reserved < 4 && |options| == 4 * dataOffset - 20
      && 0 < |payload| && TotalLength() < 0x1_0000
    }

    function TotalLength(): nat {
      20 + 4 * dataOffset + |payload|
    }

    /** Byte `i` of the payload; what lies beyond it reads as zero. */
    function PayloadAt(i: nat): Byte {
      if i < |payload| then payload[i] else 0
    }
  }

  // -------------------------------------------------------------------- writing

  function Big16(x: Uint16): seq<Byte> {
    [x / 0x100, x % 0x100]
  }

  function Big32(x: Uint32): seq<Byte> {
    [x / 0x100_0000, x / 0x1_0000 % 0x100, x / 0x100 % 0x100, x % 0x100]
  }

  function EthernetBytes(w: Wire): seq<Byte> {
    w.addresses + (if w.tag.Some? then [0x81, 0x00, w.tag.value.0, w.tag.value.1] else []) + [0x08, 0x00]
  }

  function Ipv4Bytes(w: Wire): seq<Byte>
    requires w.Valid()
  {
    [0x45, w.ipRest[0]] + Big16(w.TotalLength()) + w.ipRest[1..6] + [w.protocol] + w.ipRest[6..8] +
    Big32(w.source) + Big32(w.destination)
  }

  function TcpBytes(w: Wire): seq<Byte>
    requires w.Valid()
  {
    Big16(w.sourcePort) + Big16(w.destinationPort) + Big32(w.number) + Big32(w.acknowledged) +
    [16 * w.dataOffset + w.reserved] + w.tcpRest
  }

  function Written(w: Wire): seq<Byte>
    requires w.Valid()
  {
    EthernetBytes(w) + Ipv4Bytes(w) + TcpBytes(w) + w.options + w.payload
  }

  /** The frame as received. */
  predicate Carries(f: Frame, w: Wire) {
    w.Valid() && Written(w) == f.data
  }

  // -------------------------------------------------------------------- reading

  /** Where each part lies in the frame. */
  lemma PartsOf(f: Frame, w: Wire, i: nat)
    requires Carries(f, w)
    ensures var e := |EthernetBytes(w)|;
      && e == (if w.tag.Some? then 18 else 14) && |Ipv4Bytes(w)| == |TcpBytes(w)| == 20
      && (i < e ==> At(f, i) == EthernetBytes(w)[i])
      && (i < 20 ==> At(f, e + i) == Ipv4Bytes(w)[i])
      && (i < 20 ==> At(f, e + 20 + i) == TcpBytes(w)[i])
      && At(f, e + 20 + 4 * w.dataOffset + i) == w.PayloadAt(i)
  {
    var e, a, b := EthernetBytes(w), Ipv4Bytes(w), TcpBytes(w);
    assert f.data == e + (a + (b + (w.options + w.payload)));
  }

  lemma EthernetRead(f: Frame, w: Wire)
    requires Carries(f, w)
    ensures IpOffset(f) == |EthernetBytes(w)| == if w.tag.Some? then 18 else 14
  {
    PartsOf(f, w, 12);
    PartsOf(f, w, 13);
  }

  lemma Big16Read(f: Frame, i: nat, x: Uint16)
    requires At(f, i) == Big16(x)[0] && At(f, i + 1) == Big16(x)[1]
    ensures Be16(f, i) == x
  {
  }

  lemma Big32Read(f: Frame, i: nat, x: Uint32)
    requires forall j :: 0 <= j < 4 ==> At(f, i + j) == Big32(x)[j]
    ensures Be32(f, i) == x
  {
    assert At(f, i + 0) == Big32(x)[0] && At(f, i + 1) == Big32(x)[1];
    assert At(f, i + 2) == Big32(x)[2] && At(f, i + 3) == Big32(x)[3];
  }

  lemma Ipv4Read(f: Frame, w: Wire)
    requires Carries(f, w)
    ensures var ip := IpOffset(f);
      && Be16(f, ip + 2) == w.TotalLength() && At(f, ip + 9) == w.protocol
      && Be32(f, ip + 12) == w.source && Be32(f, ip + 16) == w.destination
  {
    EthernetRead(f, w);
    var ip, b := IpOffset(f), Ipv4Bytes(w);
    forall i: nat | i < 20
      ensures At(f, ip + i) == b[i]
    {
      PartsOf(f, w, i);
    }
    assert b[2..4] == Big16(w.TotalLength()) && b[12..16] == Big32(w.source) && b[16..20] == Big32(w.destination);
    Big16Read(f, ip + 2, w.TotalLength());
    Big32Read(f, ip + 12, w.source);
    Big32Read(f, ip + 16, w.destination);
  }

  lemma TcpRead(f: Frame, w: Wire)
    requires Carries(f, w)
    ensures var tcp := TcpOffset(f);
      && Be16(f, tcp) == w.sourcePort && Be16(f, tcp + 2) == w.destinationPort
      && Be32(f, tcp + 4) == w.number && Be32(f, tcp + 8) == w.acknowledged
      && At(f, tcp + 12) == 16 * w.dataOffset + w.reserved
  {
    EthernetRead(f, w);
    var tcp, b := TcpOffset(f), TcpBytes(w);
    forall i: nat | i < 20
      ensures At(f, tcp + i) == b[i]
    {
      PartsOf(f, w, i);
    }
    assert b[0..2] == Big16(w.sourcePort) && b[2..4] == Big16(w.destinationPort);
    assert b[4..8] == Big32(w.number) && b[8..12] == Big32(w.acknowledged);
    Big16Read(f, tcp, w.sourcePort);
    Big16Read(f, tcp + 2, w.destinationPort);
    Big32Read(f, tcp + 4, w.number);
    Big32Read(f, tcp + 8, w.acknowledged);
  }

  lemma OffsetNibbles(o: nat, low: nat)
    requires low < 4
    ensures (16 * o + low) / 16 * 4 == 4 * o && (16 * o + low) / 4 == 4 * o
  {
  }

  lemma PayloadRead(f: Frame, w: Wire, i: nat)
    requires Carries(f, w)
    ensures PayloadByte(f, i) == w.PayloadAt(i) && PayloadLen(f) == |w.payload|
  {
    hide Written, EthernetBytes, Ipv4Bytes, TcpBytes, At, Be16, Be32;
    EthernetRead(f, w);
    Ipv4Read(f, w);
    TcpRead(f, w);
    OffsetNibbles(w.dataOffset, w.reserved);
    PartsOf(f, w, i);
  }

  /** The frame is TCP: exactly then the worker passes it on. */
  lemma QualifiesIffTcp(f: Frame, w: Wire)
    requires Carries(f, w)
    ensures Qualifies(f) <==> w.protocol == 6
  {
    Ipv4Read(f, w);
    PayloadRead(f, w, 0);
  }

  /** The byte read as a `char`. */
  predicate IsChar(x: int, b: Byte) {
    -128 <= x < 128 && (x - b) % 256 == 0
  }

  lemma CharRead(b: Byte)
    ensures IsChar(SignedChar(b), b)
  {
  }

  /** The round trip. The parser recovers exactly what was written, tagged or not: for a request the client is
      the source and the number is the segment's own, for a response it is the destination and the number is the
      acknowledged one. */
  lemma ParserReadsWhatIsWritten(c: Labels, f: Frame, w: Wire)
    requires Carries(f, w)
    ensures var mark, x := w.PayloadAt(c.labelOffset) as int, KeyExtract(c, f);
      if mark == c.request.0 || mark == c.request.1 then
        && x.Known? && x.p.kind == Request && x.p.key == Key(w.source, w.sourcePort) && x.p.sent == w.number
        && x.p.len == |w.payload| && x.p.sec == f.sec && x.p.nsec == f.nsec && IsChar(x.p.pri, w.PayloadAt(c.priOffset))
      else if mark == c.response.0 || mark == c.response.1 then
        && x.Known? && x.p.kind == Response && x.p.key == Key(w.destination, w.destinationPort) && x.p.sent == w.acknowledged
        && x.p.len == |w.payload| && x.p.sec == f.sec && x.p.nsec == f.nsec && IsChar(x.p.pri, w.PayloadAt(c.priOffset))
      else x.Unknown?
  {
    hide IpOffset, TcpOffset, PayloadByte, PayloadLen, Be16, Be32, At, Written, SignedChar, IsChar;
    Ipv4Read(f, w);
    TcpRead(f, w);
    CharRead(w.PayloadAt(c.priOffset));
    PayloadRead(f, w, c.labelOffset);
    PayloadRead(f, w, c.priOffset);
  }
}
