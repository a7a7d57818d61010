/** From the bytes of a mirrored frame to the normalised packet the monitor matches on. */
module Frames {
  import opened CArith
  import opened Matching

  type Byte = x: int | 0 <= x < 256

  /** A received frame with the time stamp the receiving core gave it. Bytes past the end of
      `data` read as zero. */
  datatype Frame = Frame(pktLen: nat, data: seq<Byte>, sec: int, nsec: int)

  /** The labels of setting.cfg that tell requests from responses, and where they lie in the payload. */
  datatype Labels = Labels(request: (int, int), response: (int, int), labelOffset: nat, priOffset: nat)

  const VLAN := 0x8100
  const ETHERNET := 14
  const IPV4 := 20

  function At(f: Frame, i: nat): Byte {
    if i < |f.data| then f.data[i] else 0
  }

  function Be16(f: Frame, i: nat): Uint16 {
    0x100 * (At(f, i) as int) + At(f, i + 1) as int
  }

  function Be32(f: Frame, i: nat): Uint32 {
    0x1_0000 * (Be16(f, i) as int) + Be16(f, i + 2) as int
  }

  function Two(f: Frame, i: nat): seq<Byte> {
    [At(f, i), At(f, i + 1)]
  }

  function Four(f: Frame, i: nat): seq<Byte> {
    Two(f, i) + Two(f, i + 2)
  }

  lemma BigEndianInjective(f: Frame, g: Frame, i: nat, j: nat)
    ensures Be16(f, i) == Be16(g, j) <==> Two(f, i) == Two(g, j)
    ensures Be32(f, i) == Be32(g, j) <==> Four(f, i) == Four(g, j)
  {
    if Four(f, i) == Four(g, j) {
      assert Four(f, i)[..2] == Two(f, i) && Four(f, i)[2..] == Two(f, i + 2);
      assert Four(g, j)[..2] == Two(g, j) && Four(g, j)[2..] == Two(g, j + 2);
      BigEndian16(f, g, i, j);
      BigEndian16(f, g, i + 2, j + 2);
    } else {
      BigEndian16(f, g, i, j);
      BigEndian16(f, g, i + 2, j + 2);
    }
  }

  lemma BigEndian16(f: Frame, g: Frame, i: nat, j: nat)
    ensures Be16(f, i) == Be16(g, j) <==> Two(f, i) == Two(g, j)
  {
    assert Two(f, i)[0] == At(f, i) && Two(f, i)[1] == At(f, i + 1);
    assert Two(g, j)[0] == At(g, j) && Two(g, j)[1] == At(g, j + 1);
  }

  function IpOffset(f: Frame): nat {
    if Be16(f, 12) == VLAN then ETHERNET + 4 else ETHERNET
  }

  function TcpOffset(f: Frame): nat {
    IpOffset(f) + IPV4
  }

  function DataOff(f: Frame): Byte {
    At(f, TcpOffset(f) + 12)
  }

  /** The length of the TCP header, where the program takes it to be, from the data offset's four bits. */
  function TcpHeaderLen(f: Frame): nat {
    DataOff(f) / 16 * 4
  }

  /** The payload length as a `uint16_t`. */
  function PayloadLen(f: Frame): Uint16 {
    (Be16(f, IpOffset(f) + 2) as int - IPV4 - TcpHeaderLen(f)) % 0x1_0000
  }

  /** What the worker passes on to the parser: TCP with a payload. */
  predicate Qualifies(f: Frame) {
    At(f, IpOffset(f) + 9) == 6 && PayloadLen(f) > 0
  }

  /** Byte `i` of the payload, which the parser finds through the whole data-offset byte. */
  function PayloadByte(f: Frame, i: nat): Byte {
    At(f, TcpOffset(f) + DataOff(f) / 4 + i)
  }

  /** A `char` on the monitored platform is signed. */
  function SignedChar(b: Byte): int {
    if b < 128 then b else b - 256
  }

  datatype Extracted = Unknown | Known(p: Packet)

  predicate IsRequest(c: Labels, f: Frame) {
    PayloadByte(f, c.labelOffset) == c.request.0 || PayloadByte(f, c.labelOffset) == c.request.1
  }

  predicate IsResponse(c: Labels, f: Frame) {
    !IsRequest(c, f) &&
    (PayloadByte(f, c.labelOffset) == c.response.0 || PayloadByte(f, c.labelOffset) == c.response.1)
  }

  /** `key_extract`: a request is keyed by its source, a response by its destination, and a
      response carries its acknowledgement number in place of its sequence number. */
  function KeyExtract(c: Labels, f: Frame): Extracted {
    var ip, tcp := IpOffset(f), TcpOffset(f);
    var pri := SignedChar(PayloadByte(f, c.priOffset));
    if IsRequest(c, f) then
      Known(Packet(Key(Be32(f, ip + 12), Be16(f, tcp)), Request, Be32(f, tcp + 4), PayloadLen(f), f.sec, f.nsec, pri))
    else if IsResponse(c, f) then
      Known(Packet(Key(Be32(f, ip + 16), Be16(f, tcp + 2)), Response, Be32(f, tcp + 8), PayloadLen(f), f.sec, f.nsec, pri))
    else Unknown
  }

  /** The client address and port bytes of the request `q` are those the response `r` is sent to. */
  ghost predicate Mirrors(q: Frame, r: Frame) {
    && Four(q, IpOffset(q) + 12) == Four(r, IpOffset(r) + 16)
    && Two(q, TcpOffset(q)) == Two(r, TcpOffset(r) + 2)
  }

  /** Request and response meet in one slot exactly when the response goes back to the
      requesting address and port, with or without a VLAN tag on either. */
  lemma ResponseMeetsRequest(c: Labels, q: Frame, r: Frame)
    requires IsRequest(c, q) && IsResponse(c, r)
    ensures KeyExtract(c, q).Known? && KeyExtract(c, r).Known?
    ensures KeyExtract(c, q).p.key == KeyExtract(c, r).p.key <==> Mirrors(q, r)
  {
    BigEndianInjective(q, r, IpOffset(q) + 12, IpOffset(r) + 16);
    BigEndianInjective(q, r, TcpOffset(q), TcpOffset(r) + 2);
  }

  /** The matching window in terms of the bytes on the wire: a response falls into it exactly when
      it acknowledges, modulo 2^32, some number of the request's payload bytes (or none). The
      latency is the difference of the two frames' time stamps. */
  lemma WindowOnTheWire(c: Labels, q: Frame, r: Frame)
    requires IsRequest(c, q) && IsResponse(c, r)
    ensures var sent, ack := Be32(q, TcpOffset(q) + 4), Be32(r, TcpOffset(r) + 8);
      var a, b := KeyExtract(c, q).p, KeyExtract(c, r).p;
      && (InWindow(a.sent, a.len, b.sent) <==> exists n: nat :: n <= PayloadLen(q) && Advanced(sent, n) == ack)
      && Time(b) - Time(a) == Stamp(r.sec, r.nsec) - Stamp(q.sec, q.nsec)
  {
    hide InWindow;
    WindowCounts(Be32(q, TcpOffset(q) + 4), PayloadLen(q), Be32(r, TcpOffset(r) + 8));
  }

  lemma WindowCounts(sent: Uint32, len: Uint16, ack: Uint32)
    ensures InWindow(sent, len, ack) <==> exists n: nat :: n <= len && Advanced(sent, n) == ack
  {
    assert Advanced(sent, Sub32(ack, sent)) == ack;
    forall n: nat | n <= len && Advanced(sent, n) == ack
      ensures n == Sub32(ack, sent)
    {
    }
  }

  /** The sequence number `n` bytes further on. */
  function Advanced(sent: Uint32, n: nat): Uint32 {
    (sent + n) % TWO32
  }

  // ---------------------------------------------------- where the headers really end

  /** The length of the IP header from its own length field, options included. */
  function IpHeaderLen(f: Frame): nat {
    At(f, IpOffset(f)) % 16 * 4
  }

  /** Where the TCP header really starts, and how long it is by its own length field. */
  function TcpStart(f: Frame): nat {
    IpOffset(f) + IpHeaderLen(f)
  }

  function TcpLen(f: Frame): nat {
    At(f, TcpStart(f) + 12) / 16 * 4
  }

  function TotalLen(f: Frame): Uint16 {
    Be16(f, IpOffset(f) + 2)
  }

  /** The program's sum of header lengths is the frame's: the IP header has no options, or by coincidence. */
  predicate HeadersAgree(f: Frame) {
    IpHeaderLen(f) == IPV4 || IpHeaderLen(f) + TcpLen(f) == IPV4 + TcpHeaderLen(f)
  }

  /** The program takes the IP header to be 20 bytes long. Exactly when its payload length and its payload
      offset are those of the frame: the ports and numbers are in place if and only if there are no IP
      options; the length is right if and only if the sums of the header lengths agree and the frame is
      not shorter than its headers; both are right if and only if, besides, the bits below the data
      offset are less than 4. */
  lemma PayloadIsExact(f: Frame)
    ensures TcpOffset(f) == TcpStart(f) <==> IpHeaderLen(f) == IPV4
    ensures PayloadLen(f) == TotalLen(f) - IpHeaderLen(f) - TcpLen(f) <==>
      HeadersAgree(f) && IpHeaderLen(f) + TcpLen(f) <= TotalLen(f)
    ensures TcpOffset(f) + DataOff(f) / 4 == TcpStart(f) + TcpLen(f) <==>
      IpHeaderLen(f) + TcpLen(f) == IPV4 + TcpHeaderLen(f) + DataOff(f) % 16 / 4
    ensures PayloadLen(f) == TotalLen(f) - IpHeaderLen(f) - TcpLen(f) &&
            TcpOffset(f) + DataOff(f) / 4 == TcpStart(f) + TcpLen(f) <==>
      HeadersAgree(f) && IpHeaderLen(f) + TcpLen(f) <= TotalLen(f) && DataOff(f) % 16 < 4
  {
    var d, total := DataOff(f) as int, TotalLen(f) as int;
    assert d / 4 == d / 16 * 4 + d % 16 / 4;
    WrapsOrNot(total, IPV4 + TcpHeaderLen(f), IpHeaderLen(f) + TcpLen(f));
  }

  lemma WrapsOrNot(total: Uint16, used: nat, actual: nat)
    requires used < 0x1_0000 && actual < 0x1_0000
    ensures (total - used) % 0x1_0000 == total - actual <==> used == actual <= total
  {
    assert (total - used) % 0x1_0000 == if used <= total then total - used else total - used + 0x1_0000;
  }

  /** A frame of 80 bytes with one word of IP options. */
  const WITH_OPTIONS := Frame(94, seq(94, i => if i == 14 then 0x46 else if i == 17 then 80 else if i == 46 || i == 50 then 0x50 else 0), 0, 0)

  /** Its payload is 36 bytes long and starts at byte 58, and the program finds 40 bytes from byte 54. */
  lemma OptionsShiftPayload()
    ensures var f := WITH_OPTIONS;
      && TotalLen(f) - IpHeaderLen(f) - TcpLen(f) == 36 && TcpStart(f) + TcpLen(f) == 58
      && PayloadLen(f) == 40 && TcpOffset(f) + DataOff(f) / 4 == 54 && !HeadersAgree(f)
  {
    var f := WITH_OPTIONS;
    assert At(f, 12) == 0 && At(f, 13) == 0 && At(f, 14) == 0x46 && At(f, 16) == 0 && At(f, 17) == 80;
    assert IpOffset(f) == 14 && TcpOffset(f) == 34 && TcpStart(f) == 38;
    assert At(f, 46) == 0x50 && At(f, 50) == 0x50;
  }
}
