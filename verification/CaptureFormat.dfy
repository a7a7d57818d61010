/** Captures in the classic savefile format, written byte by byte, and what the splitter makes of them. */
module CaptureFormat {
  import opened Basics
  import opened CArith
  import opened Split

  type Int32 = x: int | -0x8000_0000 <= x < 0x8000_0000

  /** One captured packet: its time stamp, its length on the wire and the captured bytes. */
  datatype Captured = Captured(sec: Int32, usec: Int32, wireLen: Uint32, data: seq<Byte>) {
    predicate Valid() {
      |data| < 0x8000_0000
    }
  }

  ghost predicate AllValid(ps: seq<Captured>) {
    forall i :: 0 <= i < |ps| ==> ps[i].Valid()
  }

  // -------------------------------------------------------------------- writing

  function Little32(x: Uint32): seq<Byte> {
    [x % 0x100, x / 0x100 % 0x100, x / 0x1_0000 % 0x100, x / 0x100_0000]
  }

  /** Two's complement. */
  function Bits(x: Int32): Uint32 {
    x % 0x1_0000_0000
  }

  function WrittenHeader(p: Captured): seq<Byte>
    requires p.Valid()
  {
    Little32(Bits(p.sec)) + Little32(Bits(p.usec)) + Little32(|p.data|) + Little32(p.wireLen)
  }

  function WrittenPacket(p: Captured): seq<Byte>
    requires p.Valid()
  {
    WrittenHeader(p) + p.data
  }

  function WrittenPackets(ps: seq<Captured>): seq<Byte>
    requires AllValid(ps)
  {
    if ps == [] then [] else WrittenPacket(ps[0]) + WrittenPackets(ps[1..])
  }

  /** What the splitter should find: the stamps and the bytes as written. */
  function AsRecords(ps: seq<Captured>): (rs: seq<Record>)
    requires AllValid(ps)
    ensures |rs| == |ps|
    ensures forall i :: 0 <= i < |ps| ==> rs[i] == Record(Stamp(ps[i].sec, ps[i].usec), WrittenPacket(ps[i]))
  {
    seq(|ps|, i requires 0 <= i < |ps| => Record(Stamp(ps[i].sec, ps[i].usec), WrittenPacket(ps[i])))
  }

  // -------------------------------------------------------------------- reading

  lemma Digits(x: Uint32)
    ensures x % 0x100 + 0x100 * (x / 0x100 % 0x100) + 0x1_0000 * (x / 0x1_0000 % 0x100) + 0x100_0000 * (x / 0x100_0000) == x
  {
    var a, b := x / 0x100, x / 0x1_0000;
    assert x == 0x100 * a + x % 0x100;
    assert b == a / 0x100 && a == 0x100 * b + a % 0x100;
    assert x / 0x100_0000 == b / 0x100 && b == 0x100 * (b / 0x100) + b % 0x100;
  }

  lemma Little32Read(b: seq<Byte>, at: nat, x: Uint32)
    requires at + 4 <= |b| && b[at..at + 4] == Little32(x)
    ensures Le32(b, at) == x
  {
    var d := b[at..at + 4];
    assert b[at] == d[0] && b[at + 1] == d[1] && b[at + 2] == d[2] && b[at + 3] == d[3];
    Digits(x);
  }

  lemma BitsRead(x: Int32)
    ensures Signed(Bits(x)) == x
  {
  }

  lemma HeaderParts(p: Captured)
    requires p.Valid()
    ensures var w := WrittenPacket(p);
      && |w| == PACKET_HEADER + |p.data|
      && w[0..4] == Little32(Bits(p.sec)) && w[4..8] == Little32(Bits(p.usec)) && w[8..12] == Little32(|p.data|)
  {
    var h := WrittenHeader(p);
    assert h[0..4] == Little32(Bits(p.sec)) && h[4..8] == Little32(Bits(p.usec)) && h[8..12] == Little32(|p.data|);
    assert forall i :: 0 <= i < 16 ==> WrittenPacket(p)[i] == h[i];
  }

  lemma Within(file: seq<Byte>, at: nat, w: seq<Byte>, i: nat, j: nat)
    requires at + |w| <= |file| && file[at..at + |w|] == w && i <= j <= |w|
    ensures file[at + i..at + j] == w[i..j]
  {
    forall k | i <= k < j
      ensures file[at + k] == w[k]
    {
      assert file[at..at + |w|][k] == file[at + k];
    }
  }

  /** A packet written at `at` is read back there. */
  lemma PacketRead(file: seq<Byte>, at: nat, p: Captured)
    requires p.Valid() && at + |WrittenPacket(p)| <= |file|
    requires file[at..at + |WrittenPacket(p)|] == WrittenPacket(p)
    ensures at + PACKET_HEADER <= |file| && Size(file, at) == |WrittenPacket(p)|
    ensures RecordAt(file, at) == Record(Stamp(p.sec, p.usec), WrittenPacket(p))
  {
    hide WrittenPacket, Little32, Le32, Bits, Signed;
    var w := WrittenPacket(p);
    HeaderParts(p);
    Within(file, at, w, 0, 4);
    Within(file, at, w, 4, 8);
    Within(file, at, w, 8, 12);
    Little32Read(file, at, Bits(p.sec));
    Little32Read(file, at + 4, Bits(p.usec));
    Little32Read(file, at + 8, |p.data|);
    BitsRead(p.sec);
    BitsRead(p.usec);
  }

  lemma FirstOf(file: seq<Byte>, at: nat, w: seq<Byte>, rest: seq<Byte>)
    requires at <= |file| && file[at..] == w + rest
    ensures at + |w| <= |file| && file[at..at + |w|] == w && file[at + |w|..] == rest
  {
    assert file[at..at + |w|] == file[at..][..|w|];
    assert file[at + |w|..] == file[at..][|w|..];
  }

  /** The round trip: a written capture consists of whole records, and they are the packets as written. */
  lemma {:induction false} WalkReadsWhatIsWritten(file: seq<Byte>, at: nat, ps: seq<Captured>)
    requires AllValid(ps) && at <= |file| && file[at..] == WrittenPackets(ps)
    ensures WholeRecords(file, at) && Records(file, at) == AsRecords(ps)
    decreases |ps|
  {
    if ps != [] {
      hide WrittenPacket, RecordAt, Size;
      var w := WrittenPacket(ps[0]);
      PacketIsLong(ps[0]);
      FirstOf(file, at, w, WrittenPackets(ps[1..]));
      PacketRead(file, at, ps[0]);
      WalkReadsWhatIsWritten(file, at + |w|, ps[1..]);
      assert AsRecords(ps) == [RecordAt(file, at)] + AsRecords(ps[1..]);
    }
  }

  lemma PacketIsLong(p: Captured)
    requires p.Valid()
    ensures |WrittenPacket(p)| == PACKET_HEADER + |p.data|
  {
  }

  lemma {:induction false} JoinIsWritten(ps: seq<Captured>)
    requires AllValid(ps)
    ensures Join(AsRecords(ps)) == WrittenPackets(ps)
  {
    if ps != [] {
      JoinIsWritten(ps[1..]);
      var first := Record(Stamp(ps[0].sec, ps[0].usec), WrittenPacket(ps[0]));
      assert AsRecords(ps) == [first] + AsRecords(ps[1..]);
      JoinCons(first, AsRecords(ps[1..]));
    }
  }

  /** The stamps as written. */
  function StampsOf(ps: seq<Captured>): (ts: seq<Stamp>)
    ensures |ts| == |ps| && forall i :: 0 <= i < |ts| ==> ts[i] == Stamp(ps[i].sec, ps[i].usec)
  {
    seq(|ps|, i requires 0 <= i < |ps| => Stamp(ps[i].sec, ps[i].usec))
  }

  lemma PieceIsWritten(header: seq<Byte>, ps: seq<Captured>, g: seq<nat>, a: nat)
    requires AllValid(ps) && a < |g| && g[a] <= FileEnd(g, |ps|, a) <= |ps|
    ensures AllValid(ps[g[a]..FileEnd(g, |ps|, a)])
    ensures Content(header, AsRecords(ps), g, a) == header + WrittenPackets(ps[g[a]..FileEnd(g, |ps|, a)])
  {
    var part := ps[g[a]..FileEnd(g, |ps|, a)];
    assert AsRecords(ps)[g[a]..FileEnd(g, |ps|, a)] == AsRecords(part);
    JoinIsWritten(part);
  }

  /** File `a` is the header and, as they were written, the packets from the `a`-th opening to the next. */
  ghost predicate HoldsWindow(output: seq<Byte>, header: seq<Byte>, ps: seq<Captured>, g: seq<nat>, a: nat)
    requires AllValid(ps) && a < |g|
  {
    g[a] <= FileEnd(g, |ps|, a) <= |ps| && output == header + WrittenPackets(ps[g[a]..FileEnd(g, |ps|, a)])
  }

  /** The splitter keeps every packet of a written capture whose packets reach past their headers. */
  lemma SplitterKeepsAll(header: seq<Byte>, ps: seq<Captured>)
    requires |header| == HEADER && AllValid(ps)
    requires forall i :: 0 <= i < |ps| ==> |ps[i].data| >= 38
    ensures var file := header + WrittenPackets(ps);
      WholeRecords(file, HEADER) && file[..HEADER] == header && Kept(file, HEADER) == AsRecords(ps)
  {
    var file := header + WrittenPackets(ps);
    assert file[HEADER..] == WrittenPackets(ps);
    WalkReadsWhatIsWritten(file, HEADER, ps);
    forall i | 0 <= i < |ps|
      ensures |AsRecords(ps)[i].bytes| >= PACKET_HEADER + 38
    {
      PacketIsLong(ps[i]);
    }
    LongRecordsAreReadable(file, HEADER);
    KeptLength(file, HEADER);
  }

  /** What it then writes: for each window of the written stamps one file with the packets of that window. A
      packet opens a file exactly when it is the first or outside the window of the file before. */
  lemma SplitterWritesWindows(header: seq<Byte>, ps: seq<Captured>)
    requires AllValid(ps) && ps != []
    ensures var ts, g, outputs := StampsOf(ps), Greedy(StampsOf(ps)), Outputs(header, AsRecords(ps));
      && |outputs| == |g| && IsPartition(g, |ps|) && InWindows(ts, g)
      && (forall a :: 0 <= a < |g| - 1 ==> !LessSecond(ts[g[a]], ts[g[a + 1]]))
      && (forall a :: 0 <= a < |g| ==> HoldsWindow(outputs[a], header, ps, g, a))
  {
    hide LessSecond, Greedy, WrittenPackets, Join;
    var ts, g := StampsOf(ps), Greedy(StampsOf(ps));
    assert Stamps(AsRecords(ps)) == ts;
    GreedyIsValid(ts);
    forall a | 0 <= a < |g| - 1
      ensures !LessSecond(ts[g[a]], ts[g[a + 1]])
    {
      GreedyRejects(ts, a);
    }
    forall a | 0 <= a < |g|
      ensures HoldsWindow(Outputs(header, AsRecords(ps))[a], header, ps, g, a)
    {
      PieceIsWritten(header, ps, g, a);
    }
  }

  /** The last packet of a capture is kept exactly when its Ethernet and IPv4 headers, behind a VLAN tag or
      not, were captured. */
  lemma LastPacketKept(file: seq<Byte>, at: nat, p: Captured)
    requires p.Valid() && at <= |file| && file[at..] == WrittenPacket(p)
    ensures Readable(file, at) <==>
      |p.data| >= 14 + 20 + if |p.data| >= 14 && p.data[12] == 0x81 && p.data[13] == 0x00 then 4 else 0
  {
    PacketIsLong(p);
    assert |file| == at + |WrittenPacket(p)|;
    if |p.data| >= 14 {
      assert file[at..][28] == file[at + 28] && file[at..][29] == file[at + 29];
      assert WrittenPacket(p)[28] == p.data[12] && WrittenPacket(p)[29] == p.data[13];
    }
  }
}
