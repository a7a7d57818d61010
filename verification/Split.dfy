/** The capture splitter of pcap_analyse/split_pcap_bytime.c: which packets share a file,
    and that no byte of a record is lost on the way. */
module Split {
  import opened Basics
  import opened CArith

  const MICROS := 1_000_000

  datatype Stamp = Stamp(sec: int, usec: int) {
    predicate Normal() {
      0 <= usec < MICROS
    }

    function Micros(): int {
      sec * MICROS + usec
    }
  }

  // ------------------------------------------------------------------ the window

  /** The splitter's test that `current` still belongs to the file opened at `zero`. */
  predicate LessSecond(zero: Stamp, current: Stamp) {
    var sec := current.sec - zero.sec;
    var usec := current.usec - zero.usec;
    (sec == 0 && TruncDiv(usec, 1000) <= 700) || (sec == 1 && TruncDiv(usec, 1000) <= -300)
  }

  /** For ordered stamps the test is a window of 700000 microseconds, except that within one
      calendar second it also admits the 999 microseconds the truncating division hides. */
  lemma WindowIsExact(zero: Stamp, current: Stamp)
    requires zero.Normal() && current.Normal() && zero.Micros() <= current.Micros()
    ensures LessSecond(zero, current) <==>
      var gap := current.Micros() - zero.Micros();
      gap <= 700_000 || (zero.sec == current.sec && gap <= 700_999)
  {
  }

  /** Acceptance is inherited by every interval inside an accepted one. */
  lemma WindowIsHereditary(a: Stamp, b: Stamp, c: Stamp)
    requires a.Normal() && b.Normal() && c.Normal()
    requires a.Micros() <= b.Micros() <= c.Micros()
    requires LessSecond(a, c)
    ensures LessSecond(a, b) && LessSecond(b, c)
  {
    WindowIsExact(a, c);
    WindowIsExact(a, b);
    WindowIsExact(b, c);
  }

  // ----------------------------------------------------------- the greedy partition

  /** The indices at which the splitter opens a file: a packet the current file's first
      packet does not accept opens the next one. */
  function Greedy(ts: seq<Stamp>): (g: seq<nat>)
    ensures forall a :: 0 <= a < |g| ==> g[a] < |ts|
    ensures g == [] <==> ts == []
  {
    if ts == [] then []
    else
      var g := Greedy(Front(ts));
      if g != [] && LessSecond(ts[Last(g)], Last(ts)) then g else g + [|ts| - 1]
  }

  /** `p` lists the first packets of consecutive, non-empty files covering `n` packets. */
  ghost predicate IsPartition(p: seq<nat>, n: nat) {
    && (p == [] <==> n == 0)
    && (p != [] ==> p[0] == 0)
    && (forall a :: 0 <= a < |p| ==> p[a] < n)
    && (forall a, b :: 0 <= a < b < |p| ==> p[a] < p[b])
  }

  function FileEnd(p: seq<nat>, n: nat, a: nat): nat
    requires a < |p|
  {
    if a + 1 < |p| then p[a + 1] else n
  }

  /** Every packet is within the window of its file's first packet. */
  ghost predicate InWindows(ts: seq<Stamp>, p: seq<nat>)
    requires forall a :: 0 <= a < |p| ==> p[a] < |ts|
  {
    forall a, i :: 0 <= a < |p| && p[a] <= i < FileEnd(p, |ts|, a) && i < |ts| ==> LessSecond(ts[p[a]], ts[i])
  }

  /** The splitter's files are a partition in which every packet is in its file's window. */
  lemma {:induction false} GreedyIsValid(ts: seq<Stamp>)
    ensures IsPartition(Greedy(ts), |ts|) && InWindows(ts, Greedy(ts))
  {
    if ts != [] {
      var pre := Front(ts);
      GreedyIsValid(pre);
      var g, h := Greedy(pre), Greedy(ts);
      forall a, i | 0 <= a < |h| && h[a] <= i < FileEnd(h, |ts|, a) && i < |ts|
        ensures LessSecond(ts[h[a]], ts[i])
      {
        if i < |pre| {
          assert a < |g| && h[a] == g[a] && i < FileEnd(g, |pre|, a);
          assert LessSecond(pre[g[a]], pre[i]);
        }
      }
    }
  }

  /** Each file was opened because its predecessor's window had closed. */
  lemma {:induction false} GreedyRejects(ts: seq<Stamp>, a: nat)
    requires a + 1 < |Greedy(ts)|
    ensures Greedy(ts)[a] < Greedy(ts)[a + 1] && !LessSecond(ts[Greedy(ts)[a]], ts[Greedy(ts)[a + 1]])
  {
    var pre := Front(ts);
    if a + 1 < |Greedy(pre)| {
      GreedyRejects(pre, a);
    }
  }

  ghost predicate Ordered(ts: seq<Stamp>) {
    && (forall i :: 0 <= i < |ts| ==> ts[i].Normal())
    && (forall i, j :: 0 <= i <= j < |ts| ==> ts[i].Micros() <= ts[j].Micros())
  }

  /** Packets of one file of a valid partition accept each other. */
  lemma SameFileAccepts(ts: seq<Stamp>, p: seq<nat>, a: nat, from: nat, to: nat)
    requires Ordered(ts) && IsPartition(p, |ts|) && InWindows(ts, p)
    requires a < |p| && p[a] <= from < to < |ts|
    ensures to < FileEnd(p, |ts|, a) ==> LessSecond(ts[from], ts[to])
  {
    if to < FileEnd(p, |ts|, a) {
      assert LessSecond(ts[p[a]], ts[to]);
      WindowIsHereditary(ts[p[a]], ts[from], ts[to]);
    }
  }

  /** File by file, the greedy partition is never behind any valid one. */
  lemma {:induction false} GreedyStaysAhead(ts: seq<Stamp>, p: seq<nat>, a: nat)
    requires Ordered(ts) && IsPartition(p, |ts|) && InWindows(ts, p)
    requires a < |Greedy(ts)|
    ensures a < |p| && p[a] <= Greedy(ts)[a]
  {
    if a > 0 {
      hide LessSecond, Ordered, InWindows;
      GreedyStaysAhead(ts, p, a - 1);
      GreedyRejects(ts, a - 1);
      SameFileAccepts(ts, p, a - 1, Greedy(ts)[a - 1], Greedy(ts)[a]);
    }
  }

  /** The splitter makes the smallest possible number of files. */
  lemma GreedyIsOptimal(ts: seq<Stamp>, p: seq<nat>)
    requires Ordered(ts) && IsPartition(p, |ts|) && InWindows(ts, p)
    ensures |Greedy(ts)| <= |p|
  {
    if ts != [] {
      GreedyStaysAhead(ts, p, |Greedy(ts)| - 1);
    }
  }

  /** No output file spans more than 700999 microseconds. */
  lemma FilesAreShort(ts: seq<Stamp>, a: nat, i: nat, j: nat)
    requires Ordered(ts) && a < |Greedy(ts)|
    requires Greedy(ts)[a] <= i <= j < FileEnd(Greedy(ts), |ts|, a)
    ensures j < |ts| && ts[j].Micros() - ts[i].Micros() <= 700_999
  {
    GreedyIsValid(ts);
    assert LessSecond(ts[Greedy(ts)[a]], ts[j]);
    WindowIsExact(ts[Greedy(ts)[a]], ts[j]);
  }

  // -------------------------------------------------------------- the savefile walk

  type Byte = x: int | 0 <= x < 256

  const HEADER := 24
  const PACKET_HEADER := 16
  const ETHERNET := 14
  const IPV4 := 20
  const VLAN_TYPE := 0x8100

  function Le32(b: seq<Byte>, at: nat): Uint32
    requires at + 4 <= |b|
  {
    b[at] as int + 0x100 * (b[at + 1] as int) + 0x1_0000 * (b[at + 2] as int) + 0x100_0000 * (b[at + 3] as int)
  }

  function Signed(x: Uint32): int {
    if x < 0x8000_0000 then x else x - TWO32
  }

  function Be16(b: seq<Byte>, at: nat): Uint16
    requires at + 2 <= |b|
  {
    0x100 * (b[at] as int) + b[at + 1] as int
  }

  /** A record with its header, as the bytes of the capture. */
  datatype Record = Record(stamp: Stamp, bytes: seq<Byte>)

  function Size(file: seq<Byte>, at: nat): nat
    requires at + PACKET_HEADER <= |file|
  {
    PACKET_HEADER + Le32(file, at + 8)
  }

  /** From `at` on the capture consists of whole records. */
  predicate WholeRecords(file: seq<Byte>, at: nat)
    requires at <= |file|
    decreases |file| - at
  {
    at == |file| || (
      && at + PACKET_HEADER <= |file|
      && at + Size(file, at) <= |file|
      && WholeRecords(file, at + Size(file, at)))
  }

  function RecordAt(file: seq<Byte>, at: nat): Record
    requires at + PACKET_HEADER <= |file| && at + Size(file, at) <= |file|
  {
    Record(Stamp(Signed(Le32(file, at)), Signed(Le32(file, at + 4))), file[at..at + Size(file, at)])
  }

  function Records(file: seq<Byte>, at: nat): seq<Record>
    requires at <= |file| && WholeRecords(file, at)
    decreases |file| - at
  {
    if at == |file| then [] else [RecordAt(file, at)] + Records(file, at + Size(file, at))
  }

  /** The number of bytes the walk reads at a record before it decides where the record goes. */
  function Peeked(file: seq<Byte>, at: nat): nat
    requires at + PACKET_HEADER + ETHERNET <= |file|
  {
    PACKET_HEADER + ETHERNET + IPV4 + if Be16(file, at + PACKET_HEADER + 12) == VLAN_TYPE then 4 else 0
  }

  /** The Ethernet and IPv4 headers of the record end before the capture does. */
  predicate Readable(file: seq<Byte>, at: nat) {
    at + PACKET_HEADER + ETHERNET <= |file| && at + Peeked(file, at) <= |file|
  }

  /** The records that reach an output; one whose headers run past the end is skipped. */
  function Kept(file: seq<Byte>, at: nat): seq<Record>
    requires at <= |file| && WholeRecords(file, at)
    decreases |file| - at
  {
    if at == |file| then []
    else (if Readable(file, at) then [RecordAt(file, at)] else []) + Kept(file, at + Size(file, at))
  }

  function Stamps(recs: seq<Record>): (ts: seq<Stamp>)
    ensures |ts| == |recs| && forall i :: 0 <= i < |ts| ==> ts[i] == recs[i].stamp
  {
    seq(|recs|, i requires 0 <= i < |recs| => recs[i].stamp)
  }

  function Join(recs: seq<Record>): seq<Byte> {
    if recs == [] then [] else Join(Front(recs)) + Last(recs).bytes
  }

  /** File `a` of a partition: the capture's header and the file's records. */
  function Content(header: seq<Byte>, recs: seq<Record>, g: seq<nat>, a: nat): seq<Byte>
    requires a < |g| && g[a] <= FileEnd(g, |recs|, a) <= |recs|
  {
    header + Join(recs[g[a]..FileEnd(g, |recs|, a)])
  }

  /** One output for each greedy file. */
  function Outputs(header: seq<Byte>, recs: seq<Record>): seq<seq<Byte>> {
    var g := Greedy(Stamps(recs));
    if recs == [] then [header]
    else
      GreedyIsValid(Stamps(recs));
      seq(|g|, a requires 0 <= a < |g| => Content(header, recs, g, a))
  }

  lemma GreedyExtend(recs: seq<Record>, r: Record)
    ensures var g := Greedy(Stamps(recs));
      Greedy(Stamps(recs + [r])) ==
        if recs != [] && LessSecond(WindowStart(recs), r.stamp) then g else g + [|recs|]
  {
    assert Front(Stamps(recs + [r])) == Stamps(recs);
  }

  lemma JoinSnoc(recs: seq<Record>, r: Record)
    ensures Join(recs + [r]) == Join(recs) + r.bytes
  {
    assert Front(recs + [r]) == recs;
  }

  lemma ContentGrows(header: seq<Byte>, recs: seq<Record>, r: Record, g: seq<nat>)
    requires g != [] && Last(g) <= |recs|
    ensures Content(header, recs + [r], g, |g| - 1) == header + Join(recs[Last(g)..]) + r.bytes
  {
    var at := Last(g);
    assert (recs + [r])[at..|recs| + 1] == recs[at..] + [r];
    JoinSnoc(recs[at..], r);
    assert header + (Join(recs[at..]) + r.bytes) == header + Join(recs[at..]) + r.bytes;
  }

  lemma ContentKept(header: seq<Byte>, recs: seq<Record>, r: Record, g: seq<nat>, h: seq<nat>, a: nat)
    requires a < |g| && g[a] <= FileEnd(g, |recs|, a) <= |recs|
    requires a < |h| && h[a] == g[a] && FileEnd(h, |recs| + 1, a) == FileEnd(g, |recs|, a)
    ensures Content(header, recs + [r], h, a) == Content(header, recs, g, a)
  {
    assert (recs + [r])[h[a]..FileEnd(h, |recs| + 1, a)] == recs[g[a]..FileEnd(g, |recs|, a)];
  }

  /** Every output but the last is final. */
  lemma EarlierOutputsKept(header: seq<Byte>, recs: seq<Record>, r: Record)
    ensures var out, now := Outputs(header, recs), Outputs(header, recs + [r]);
      forall a :: 0 <= a < |out| && a + 1 < |now| ==> now[a] == out[a]
  {
    hide Content, Join, Greedy, LessSecond, Stamps;
    var g, h := Greedy(Stamps(recs)), Greedy(Stamps(recs + [r]));
    GreedyIsValid(Stamps(recs));
    GreedyIsValid(Stamps(recs + [r]));
    GreedyExtend(recs, r);
    forall a | 0 <= a < |g| && a + 1 < |h|
      ensures Content(header, recs + [r], h, a) == Content(header, recs, g, a)
    {
      ContentKept(header, recs, r, g, h, a);
    }
  }

  /** The last output of a longer capture. */
  lemma NewestOutput(header: seq<Byte>, recs: seq<Record>, r: Record)
    ensures var out, now := Outputs(header, recs), Outputs(header, recs + [r]);
      now != [] && out != [] && Last(now) ==
        if recs == [] || LessSecond(WindowStart(recs), r.stamp) then Last(out) + r.bytes else header + r.bytes
  {
    hide Content, Join, Greedy, LessSecond, Stamps;
    var g, h := Greedy(Stamps(recs)), Greedy(Stamps(recs + [r]));
    GreedyIsValid(Stamps(recs));
    GreedyIsValid(Stamps(recs + [r]));
    GreedyExtend(recs, r);
    ContentGrows(header, recs, r, h);
    if recs == [] || |h| > |g| {
      assert recs[|recs|..] == [];
      JoinEmpty(header, r);
    } else {
      LastContent(header, recs, g);
    }
  }

  /** What writing one more record does to the outputs. */
  lemma OutputsExtend(header: seq<Byte>, recs: seq<Record>, r: Record)
    ensures var out := Outputs(header, recs);
      && out != []
      && Outputs(header, recs + [r]) ==
           if recs == [] || LessSecond(WindowStart(recs), r.stamp) then Front(out) + [Last(out) + r.bytes]
           else out + [header + r.bytes]
  {
    var out, now := Outputs(header, recs), Outputs(header, recs + [r]);
    OutputCount(header, recs, r);
    hide Outputs, LessSecond;
    EarlierOutputsKept(header, recs, r);
    NewestOutput(header, recs, r);
    assert forall a :: 0 <= a < |now| - 1 ==> now[a] == out[a];
  }

  lemma OutputCount(header: seq<Byte>, recs: seq<Record>, r: Record)
    ensures |Outputs(header, recs + [r])| == |Outputs(header, recs)| +
      if recs == [] || LessSecond(WindowStart(recs), r.stamp) then 0 else 1
  {
    hide LessSecond, Greedy, Stamps;
    GreedyExtend(recs, r);
    GreedyIsValid(Stamps(recs));
  }

  lemma JoinEmpty(header: seq<Byte>, r: Record)
    ensures header + Join([]) + r.bytes == header + r.bytes
  {
    assert header + [] == header;
  }

  lemma LastContent(header: seq<Byte>, recs: seq<Record>, g: seq<nat>)
    requires g != [] && Last(g) <= |recs|
    ensures Content(header, recs, g, |g| - 1) == header + Join(recs[Last(g)..])
  {
    assert recs[Last(g)..|recs|] == recs[Last(g)..];
  }

  /** One step of the walk with its file position: the headers are read, the position is moved
      back by what was read, and the record is read whole. */
  method ReadRecord(file: seq<Byte>, at: nat) returns (size: nat, stamp: Stamp, readable: bool, record: seq<Byte>)
    requires at + PACKET_HEADER <= |file| && at + Size(file, at) <= |file|
    ensures size == Size(file, at) && stamp == RecordAt(file, at).stamp
    ensures readable == Readable(file, at)
    ensures readable ==> record == RecordAt(file, at).bytes
  {
    var pos, read := at, 0;
    stamp := Stamp(Signed(Le32(file, pos)), Signed(Le32(file, pos + 4)));
    size := PACKET_HEADER + Le32(file, pos + 8);
    readable, record := false, [];
    read, pos := read + PACKET_HEADER, pos + PACKET_HEADER;
    if pos + ETHERNET > |file| {
      return;
    }
    var vlan := Be16(file, pos + 12) == VLAN_TYPE;
    read, pos := read + ETHERNET, pos + ETHERNET;
    if vlan {
      read, pos := read + 4, pos + 4;
    }
    if pos + IPV4 > |file| {
      return;
    }
    read, pos := read + IPV4, pos + IPV4;
    pos := pos - read;
    readable, record := true, file[pos..pos + size];
  }

  method ProcessPcap(file: seq<Byte>) returns (outputs: seq<seq<Byte>>)
    requires HEADER <= |file| < 0x8000_0000 && WholeRecords(file, HEADER)
    ensures outputs == Outputs(file[..HEADER], Kept(file, HEADER))
  {
    hide LessSecond, Outputs, Readable, Kept, WindowStart;
    var header := file[..HEADER];
    outputs := [header];
    var offset, i, zero := HEADER, 0, Stamp(0, 0);
    ghost var recs: seq<Record> := [];
    NoRecords(header);
    while true
      invariant HEADER <= offset <= |file| && WholeRecords(file, offset)
      invariant recs + Kept(file, offset) == Kept(file, HEADER)
      invariant i == |recs|
      invariant outputs == Outputs(header, recs)
      invariant recs != [] ==> zero == WindowStart(recs)
      decreases |file| - offset
    {
      if offset + PACKET_HEADER > |file| {
        break;
      }
      KeptStep(file, offset, recs);
      var size, stamp, readable, record := ReadRecord(file, offset);
      offset := offset + size;
      if i == 0 {
        zero := stamp;
      }
      if !readable {
        continue;
      }
      OutputsExtend(header, recs, Record(stamp, record));
      WindowMoves(recs, Record(stamp, record));
      WindowAcceptsItself(stamp);
      if LessSecond(zero, stamp) {
        outputs := outputs[|outputs| - 1 := outputs[|outputs| - 1] + record];
      } else {
        outputs := outputs + [header + record];
        zero := stamp;
      }
      recs := recs + [Record(stamp, record)];
      i := i + 1;
    }
    KeptAtEnd(file, offset, recs);
  }

  lemma KeptStep(file: seq<Byte>, at: nat, recs: seq<Record>)
    requires at < |file| && WholeRecords(file, at)
    ensures recs + Kept(file, at) ==
      (if Readable(file, at) then recs + [RecordAt(file, at)] else recs) + Kept(file, at + Size(file, at))
  {
    var rest := Kept(file, at + Size(file, at));
    assert recs + ([RecordAt(file, at)] + rest) == recs + [RecordAt(file, at)] + rest;
    assert [] + rest == rest;
  }

  lemma KeptAtEnd(file: seq<Byte>, at: nat, recs: seq<Record>)
    requires at == |file|
    ensures recs + Kept(file, at) == recs
  {
  }

  /** The stamp of the first record of the open file. */
  function WindowStart(recs: seq<Record>): Stamp
    requires recs != []
  {
    recs[Last(Greedy(Stamps(recs)))].stamp
  }

  lemma WindowMoves(recs: seq<Record>, r: Record)
    ensures WindowStart(recs + [r]) ==
      if recs != [] && LessSecond(WindowStart(recs), r.stamp) then WindowStart(recs) else r.stamp
  {
    GreedyExtend(recs, r);
  }

  lemma WindowAcceptsItself(stamp: Stamp)
    ensures LessSecond(stamp, stamp)
  {
  }

  lemma NoRecords(header: seq<Byte>)
    ensures Outputs(header, []) == [header]
  {
  }

  // -------------------------------------------------------------------- conservation

  function Stripped(outputs: seq<seq<Byte>>): seq<Byte>
    requires forall a :: 0 <= a < |outputs| ==> HEADER <= |outputs[a]|
  {
    if outputs == [] then [] else Stripped(Front(outputs)) + Last(outputs)[HEADER..]
  }

  /** Every output starts with the capture's header. */
  ghost predicate Headed(header: seq<Byte>, outputs: seq<seq<Byte>>) {
    |header| == HEADER && forall a :: 0 <= a < |outputs| ==> HEADER <= |outputs[a]| && outputs[a][..HEADER] == header
  }

  lemma OutputsAreHeaded(header: seq<Byte>, recs: seq<Record>)
    requires |header| == HEADER
    ensures Headed(header, Outputs(header, recs))
  {
    hide Greedy, Join;
    if recs != [] {
      var g := Greedy(Stamps(recs));
      GreedyIsValid(Stamps(recs));
      forall a | 0 <= a < |g|
        ensures |Content(header, recs, g, a)| >= HEADER && Content(header, recs, g, a)[..HEADER] == header
      {
      }
    }
  }

  lemma StrippedSnoc(header: seq<Byte>, out: seq<seq<Byte>>, x: seq<Byte>)
    requires Headed(header, out) && HEADER <= |x|
    ensures Stripped(out + [x]) == Stripped(out) + x[HEADER..]
  {
    assert Front(out + [x]) == out;
  }

  lemma DropJoin(x: seq<Byte>, bytes: seq<Byte>)
    requires HEADER <= |x|
    ensures (x + bytes)[HEADER..] == x[HEADER..] + bytes
  {
  }

  lemma StrippedGrows(header: seq<Byte>, out: seq<seq<Byte>>, bytes: seq<Byte>)
    requires out != [] && Headed(header, out)
    ensures forall a :: 0 <= a < |Front(out)| ==> HEADER <= |Front(out)[a]|
    ensures Stripped(Front(out) + [Last(out) + bytes]) == Stripped(out) + bytes
  {
    var x := Last(out);
    StrippedSnoc(header, Front(out), x + bytes);
    DropJoin(x, bytes);
    assert Stripped(Front(out)) + (x[HEADER..] + bytes) == Stripped(Front(out)) + x[HEADER..] + bytes;
  }

  /** Without the headers the outputs concatenate to the kept records in order. */
  lemma {:induction false} OutputsConserve(header: seq<Byte>, recs: seq<Record>)
    requires |header| == HEADER
    ensures Headed(header, Outputs(header, recs)) && Stripped(Outputs(header, recs)) == Join(recs)
  {
    hide Outputs, LessSecond, WindowStart, Stripped;
    OutputsAreHeaded(header, recs);
    if recs == [] {
      NoRecords(header);
      StrippedHeader(header);
    } else {
      var pre, r := Front(recs), Last(recs);
      OutputsConserve(header, pre);
      OutputsExtend(header, pre, r);
      assert recs == pre + [r];
      var out := Outputs(header, pre);
      if pre == [] || LessSecond(WindowStart(pre), r.stamp) {
        StrippedGrows(header, out, r.bytes);
      } else {
        StrippedSnoc(header, out, header + r.bytes);
        DropJoin(header, r.bytes);
      }
    }
  }

  lemma StrippedHeader(header: seq<Byte>)
    requires |header| == HEADER
    ensures Stripped([header]) == []
  {
    assert Front([header]) == [];
  }

  lemma {:induction false} JoinCons(r: Record, recs: seq<Record>)
    ensures Join([r] + recs) == r.bytes + Join(recs)
  {
    if recs == [] {
      assert Front([r]) == [];
    } else {
      assert Front([r] + recs) == [r] + Front(recs);
      JoinCons(r, Front(recs));
    }
  }

  /** All records are kept: the bytes that follow the header. */
  lemma {:induction false} RecordsCoverFile(file: seq<Byte>, at: nat)
    requires at <= |file| && WholeRecords(file, at)
    ensures Join(Records(file, at)) == file[at..]
    decreases |file| - at
  {
    if at < |file| {
      var next := at + Size(file, at);
      RecordsCoverFile(file, next);
      JoinCons(RecordAt(file, at), Records(file, next));
      assert file[at..] == file[at..next] + file[next..];
    }
  }

  /** No record is skipped. */
  predicate AllReadable(file: seq<Byte>, at: nat)
    requires at <= |file| && WholeRecords(file, at)
    decreases |file| - at
  {
    at == |file| || (Readable(file, at) && AllReadable(file, at + Size(file, at)))
  }

  lemma {:induction false} KeptLength(file: seq<Byte>, at: nat)
    requires at <= |file| && WholeRecords(file, at)
    ensures |Join(Kept(file, at))| <= |file| - at
    ensures AllReadable(file, at) ==> Kept(file, at) == Records(file, at)
    ensures !AllReadable(file, at) ==> |Join(Kept(file, at))| < |file| - at
    decreases |file| - at
  {
    if at < |file| {
      var next := at + Size(file, at);
      KeptLength(file, next);
      if Readable(file, at) {
        JoinCons(RecordAt(file, at), Kept(file, next));
      } else {
        assert Kept(file, at) == Kept(file, next);
      }
    }
  }

  /** Splitting conserves the capture's bytes exactly when no record's headers run past its end. */
  lemma SplitConserves(file: seq<Byte>)
    requires HEADER <= |file| && WholeRecords(file, HEADER)
    ensures var out := Outputs(file[..HEADER], Kept(file, HEADER));
      && Headed(file[..HEADER], out)
      && (Stripped(out) == file[HEADER..] <==> AllReadable(file, HEADER))
  {
    OutputsConserve(file[..HEADER], Kept(file, HEADER));
    KeptLength(file, HEADER);
    RecordsCoverFile(file, HEADER);
  }

  /** A captured length of at least 38 everywhere keeps every record. */
  lemma {:induction false} LongRecordsAreReadable(file: seq<Byte>, at: nat)
    requires at <= |file| && WholeRecords(file, at)
    requires forall i :: 0 <= i < |Records(file, at)| ==> |Records(file, at)[i].bytes| >= PACKET_HEADER + 38
    ensures AllReadable(file, at)
    decreases |file| - at
  {
    if at < |file| {
      var next := at + Size(file, at);
      assert Records(file, at)[0] == RecordAt(file, at);
      assert forall i :: 0 <= i < |Records(file, next)| ==> Records(file, next)[i] == Records(file, at)[i + 1];
      LongRecordsAreReadable(file, next);
    }
  }

  /** A capture of one record without payload. */
  const SHORT_CAPTURE := seq(40, i => 0 as Byte)

  /** Its only record is skipped: the output holds nothing but the header. */
  lemma ShortRecordIsLost()
    ensures WholeRecords(SHORT_CAPTURE, HEADER) && !AllReadable(SHORT_CAPTURE, HEADER)
    ensures Outputs(SHORT_CAPTURE[..HEADER], Kept(SHORT_CAPTURE, HEADER)) == [SHORT_CAPTURE[..HEADER]]
    ensures |SHORT_CAPTURE[HEADER..]| == PACKET_HEADER
  {
    assert Le32(SHORT_CAPTURE, HEADER + 8) == 0;
    assert Size(SHORT_CAPTURE, HEADER) == PACKET_HEADER;
    assert WholeRecords(SHORT_CAPTURE, 40);
    assert Kept(SHORT_CAPTURE, 40) == [];
    NoRecords(SHORT_CAPTURE[..HEADER]);
  }
}
