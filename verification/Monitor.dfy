/** HCMonitor/monitor.c as it runs: one object updated in place for each packet and tick.
    `View` is the value the matching machine of Matching.dfy speaks about; every method is
    proved to move it exactly as that machine does. */
module Monitor {
  import opened Basics
  import opened CArith
  import opened Matching
  import opened Ranks
  import opened Histogram
  import opened Report

  function Zip(times: seq<int>, highs: seq<bool>): (s: seq<Sample>)
    requires |times| == |highs|
    ensures |s| == |times|
    ensures forall i :: 0 <= i < |s| ==> s[i] == Sample(times[i], highs[i])
  {
    seq(|times|, i requires 0 <= i < |times| => Sample(times[i], highs[i]))
  }

  function Times(samples: seq<Sample>): seq<int> {
    seq(|samples|, i requires 0 <= i < |samples| => samples[i].time)
  }

  function Flags(samples: seq<Sample>): seq<bool> {
    seq(|samples|, i requires 0 <= i < |samples| => samples[i].high)
  }

  lemma {:induction false} FlagsCountHigh(samples: seq<Sample>)
    ensures HighCount(samples) == Flagged(Flags(samples))
  {
    if samples != [] {
      FlagsCountHigh(Front(samples));
      var flags := Flags(samples);
      assert flags[..|flags| - 1] == Flags(Front(samples));
    }
  }

  // ------------------------------------------------------------ the growth guard

  /** The capacity after the guard of the sample buffers, with the test as written (`>`) or
      with the test that acts at a full buffer (`>=`). */
  function Grown(thre: nat, idx: nat, strict: bool): nat {
    if (if strict then idx > thre else idx >= thre) then idx * 2 else thre
  }

  /** The writes of samples `0..n` all land inside the buffers. */
  predicate WritesFit(thre: nat, n: nat, strict: bool) {
    n == 0 || (WritesFit(thre, n - 1, strict) && n - 1 < Grown(CapacityAfter(thre, n - 1, strict), n - 1, strict))
  }

  function CapacityAfter(thre: nat, n: nat, strict: bool): nat {
    if n == 0 then thre else Grown(CapacityAfter(thre, n - 1, strict), n - 1, strict)
  }

  /** As written the guard is one sample late: the buffers overflow exactly when an interval
      has more samples than the initial capacity. Acting at a full buffer it never does. */
  lemma {:induction false} GuardActsTooLate(thre: nat, n: nat)
    requires thre > 0
    ensures WritesFit(thre, n, true) <==> n <= thre
    ensures WritesFit(thre, n, false)
    ensures n <= thre ==> CapacityAfter(thre, n, true) == thre
    ensures CapacityAfter(thre, n, false) >= thre
  {
    if n > 0 {
      GuardActsTooLate(thre, n - 1);
    }
  }

  function Pow2(j: nat): nat {
    if j == 0 then 1 else 2 * Pow2(j - 1)
  }

  /** Acting at a full buffer, the guard doubles the capacity each time, so it never exceeds twice the samples. */
  lemma {:induction false} CapacityDoubles(thre: nat, n: nat) returns (j: nat)
    requires thre > 0
    ensures CapacityAfter(thre, n, false) == thre * Pow2(j)
    ensures n <= CapacityAfter(thre, n, false)
    ensures if n <= thre then j == 0 else CapacityAfter(thre, n, false) <= 2 * (n - 1)
  {
    j := 0;
    if n > 0 {
      j := CapacityDoubles(thre, n - 1);
      if n - 1 >= CapacityAfter(thre, n - 1, false) {
        assert thre * (2 * Pow2(j)) == 2 * (thre * Pow2(j));
        j := j + 1;
      }
    }
  }

  // -------------------------------------------------------- the connection table

  lemma SizeOfTable(contents: map<Key, Slot>, hash: map<Key, nat>)
    requires contents.Keys == hash.Keys
    ensures |contents| == |hash|
  {
    assert |contents| == |contents.Keys| == |hash.Keys| == |hash|;
  }

  /** Keys have distinct positions, assigned from the bottom. */
  ghost predicate Positions(hash: map<Key, nat>) {
    && (forall k :: k in hash ==> hash[k] < |hash|)
    && (forall k, m :: k in hash && m in hash && k != m ==> hash[k] != hash[m])
  }

  lemma ExtendKeys(hash: map<Key, nat>, k: Key)
    requires k !in hash && Positions(hash)
    ensures |hash[k := |hash|]| == |hash| + 1 && Positions(hash[k := |hash|])
  {
    assert hash[k := |hash|].Keys == hash.Keys + {k};
    assert |hash[k := |hash|].Keys| == |hash.Keys| + 1;
  }

  /** The hash and the per-connection arrays `Maxseq`, `req_out_if` and `req_hy_count`. */
  class SlotTable {
    ghost var Contents: map<Key, Slot>
    ghost const Repr: set<object>
    var hash: map<Key, nat>
    const slots: array<Slot>

    /** Every key's entry is at its position; positions not yet assigned are zero. */
    ghost predicate Valid()
      reads this, Repr
      ensures Valid() ==> Repr == {this, slots}
    {
      && Repr == {this, slots}
      && Positions(hash)
      && |hash| <= slots.Length
      && (forall i :: |hash| <= i < slots.Length ==> slots[i] == FRESH)
      && Contents.Keys == hash.Keys
      && (forall k :: k in hash ==> Contents[k] == slots[hash[k]])
    }

    constructor (entries: nat)
      ensures Valid() && fresh(Repr) && Contents == map[] && slots.Length == entries
    {
      hash := map[];
      slots := new Slot[entries](_ => FRESH);
      Contents := map[];
      Repr := {this, slots};
    }

    ghost predicate HasRoom(k: Key)
      reads this
    {
      k in Contents || |Contents| < slots.Length
    }

    /** Assign the next position to a new key. */
    method Assign(k: Key)
      requires Valid() && k !in hash && |hash| < slots.Length
      modifies this
      ensures Valid() && k in hash && Contents == old(Contents)[k := FRESH]
    {
      assert forall m :: m in hash ==> hash[m] < |hash|;
      ExtendKeys(hash, k);
      hide Positions;
      hash := hash[k := |hash|];
      Contents := Contents[k := FRESH];
    }

    /** The position of a key, which is assigned at its first request. */
    method AddKey(k: Key) returns (pos: nat)
      requires Valid() && HasRoom(k)
      modifies this
      ensures Valid() && k in hash && pos == hash[k]
      ensures Contents == old(Contents)[k := if k in old(Contents) then old(Contents)[k] else FRESH]
    {
      SizeOfTable(Contents, hash);
      if k !in hash {
        Assign(k);
      }
      pos := hash[k];
    }

    method Lookup(k: Key) returns (found: bool, pos: nat)
      requires Valid()
      ensures found == (k in Contents)
      ensures found ==> k in hash && pos == hash[k]
    {
      found := k in hash;
      pos := if found then hash[k] else 0;
    }

    method Get(ghost k: Key, pos: nat) returns (slot: Slot)
      requires Valid() && k in hash && pos == hash[k]
      ensures k in Contents && slot == Contents[k]
    {
      slot := slots[pos];
    }

    /** A write to the position of `k` changes the entry of `k` only. */
    method Put(ghost k: Key, pos: nat, slot: Slot)
      requires Valid() && k in hash && pos == hash[k]
      modifies this`Contents, slots
      ensures Valid() && Contents == old(Contents)[k := slot]
    {
      slots[pos] := slot;
      Contents := Contents[k := slot];
    }

    /** A request takes the slot when its sequence number is higher than the slot's; with priorities
        read from requests, every request marks the slot. */
    method Accept(p: Packet, cfg: Config) returns (novel: bool, first: bool)
      requires Valid() && p.kind == Kind.Request && HasRoom(p.key)
      modifies Repr
      ensures Valid()
      ensures var slot := if p.key in old(Contents) then old(Contents)[p.key] else FRESH;
        && novel == (slot.sent < p.sent) && first == !slot.counted
        && Contents == old(Contents)[p.key := Requested(cfg, slot, p)]
    {
      hide Valid, Requested;
      ghost var was := Contents;
      var pos := AddKey(p.key);
      var slot := Get(p.key, pos);
      novel, first := slot.sent < p.sent, !slot.counted;
      var next := Refresh(slot, p, cfg);
      Put(p.key, pos, next);
      UpdateTwice(was, p.key, slot, next);
    }

    /** Zero every position; the request time stamps and the keys survive. */
    method Clear()
      requires Valid()
      modifies this`Contents, slots
      ensures Valid() && Contents == map k | k in old(Contents) :: Wipe(old(Contents)[k])
    {
      WipeAll(slots);
      Contents := map k | k in Contents :: Wipe(Contents[k]);
    }
  }

  method Refresh(slot: Slot, p: Packet, cfg: Config) returns (next: Slot)
    ensures next == Requested(cfg, slot, p)
  {
    next := slot;
    if slot.sent < p.sent {
      next := next.(sent := p.sent, len := p.len, sec := p.sec, nsec := p.nsec, counted := true);
    }
    if !cfg.rspPri {
      next := next.(pri := if p.pri == cfg.highLabel then 1 else 0);
    }
  }

  method WipeAll(slots: array<Slot>)
    modifies slots
    ensures forall j :: 0 <= j < slots.Length ==> slots[j] == Wipe(old(slots[j]))
  {
    var i := 0;
    while i < slots.Length
      invariant 0 <= i <= slots.Length
      invariant forall j :: 0 <= j < slots.Length ==> slots[j] == if j < i then Wipe(old(slots[j])) else old(slots[j])
    {
      slots[i] := Wipe(slots[i]);
      i := i + 1;
    }
  }

  // --------------------------------------------------------- the sample buffers

  /** `ack_time` with its fill count, and the copies `ack_time_hy` that a tick reports from. */
  class SampleBuffer {
    ghost var Contents: seq<Sample>
    ghost var Repr: set<object>
    var time: array<int>
    var pri: array<bool>
    var timeHy: array<int>
    var priHy: array<bool>
    var thre: nat
    var idx: nat

    ghost predicate Valid()
      reads this, Repr
      ensures Valid() ==> Repr == {this, time, pri, timeHy, priHy} && (idx > 0 <==> Contents != [])
    {
      && Repr == {this, time, pri, timeHy, priHy}
      && time != timeHy && pri != priHy
      && time.Length == pri.Length == timeHy.Length == priHy.Length == thre
      && thre > 0 && idx <= thre
      && Contents == Zip(time[..idx], pri[..idx])
    }

    constructor (capacity: nat)
      requires capacity > 0
      ensures Valid() && fresh(Repr) && Contents == []
    {
      time := new int[capacity];
      pri := new bool[capacity];
      timeHy := new int[capacity];
      priHy := new bool[capacity];
      thre, idx := capacity, 0;
      Contents := [];
      Repr := {this, time, pri, timeHy, priHy};
    }

    /** Enlarge all four buffers when they are full. */
    method Grow()
      requires Valid()
      modifies this
      ensures Valid() && fresh(Repr - old(Repr))
      ensures Contents == old(Contents) && idx == old(idx) < thre && thre == Grown(old(thre), idx, false)
    {
      if idx >= thre {
        ghost var times, flags := time[..], pri[..];
        thre := idx * 2;
        time := ExtendInts(time, thre);
        pri := ExtendBools(pri, thre);
        timeHy := ExtendInts(timeHy, thre);
        priHy := ExtendBools(priHy, thre);
        Repr := {this, time, pri, timeHy, priHy};
        assert time[..idx] == times && pri[..idx] == flags;
      }
    }

    /** Append one sample; the guard has made room for it. */
    method Append(ack: int, high: bool)
      requires Valid()
      modifies Repr
      ensures Valid() && fresh(Repr - old(Repr))
      ensures Contents == old(Contents) + [Sample(ack, high)]
    {
      Grow();
      time[idx] := ack;
      pri[idx] := high;
      idx := idx + 1;
      Contents := Contents + [Sample(ack, high)];
      assert Zip(time[..idx], pri[..idx]) == Contents;
    }

    /** Copy the samples to the report buffers and start the next interval empty. */
    method Take() returns (n: nat)
      requires Valid()
      modifies this`idx, this`Contents, timeHy, priHy
      ensures Valid() && Repr == old(Repr) && Contents == [] && n == old(idx) <= thre
      ensures Zip(timeHy[..n], priHy[..n]) == old(Contents)
    {
      n := idx;
      CopyInts(time, timeHy, n);
      CopyBools(pri, priHy, n);
      idx := 0;
      Contents := [];
    }
  }

  lemma UpdateTwice(m: map<Key, Slot>, k: Key, a: Slot, b: Slot)
    ensures m[k := a][k := b] == m[k := b]
  {
  }

  /** The four ways a response leaves the machine. */
  lemma ResponseCases(cfg: Config, s: State, p: Packet)
    requires p.kind == Response
    ensures var slot, o, t := SlotOf(s, p.key), OutcomeOf(cfg, s, p), OnResponse(cfg, s, p);
      var a := Answered(cfg, slot, p);
      if p.key !in s.slots || !InWindow(slot.sent, slot.len, p.sent) then
        o.Missed? && t == s.(pktRep := s.pktRep + 1, missRep := s.missRep + 1)
      else if Latency(slot, p) <= 0 then
        o.NotLater? && t == s.(pktRep := s.pktRep + 1)
      else
        var high := p.pri == cfg.highLabel;
        var seen := s.(slots := s.slots[p.key := a], pktRep := s.pktRep + 1,
                       recvHigh := s.recvHigh + Bit(cfg.rspPri && high), recvLow := s.recvLow + Bit(cfg.rspPri && !high));
        if p.sent > slot.acked then
          o.Recorded? && t == seen.(samples := s.samples + [Sample(Latency(slot, p), a.pri != 0)],
                                    idxHigh := s.idxHigh + Bit(a.pri != 0), idxLow := s.idxLow + Bit(a.pri == 0),
                                    timeout50 := s.timeout50 + Bit(Latency(slot, p) > FIFTY_MS))
        else
          o.Duplicate? && t == seen.(missRep := s.missRep + 1, rspRecount := s.rspRecount + 1)
  {
  }

  // ----------------------------------------------------------------- the monitor

  class Monitor {
    const cfg: Config
    const table: SlotTable
    const samples: SampleBuffer
    const intervalCnt: array<int>
    var idxPriHigh: nat
    var idxPriLow: nat
    var recvPriHigh: nat
    var recvPriLow: nat
    var connActiveHy: nat
    var pktReq: nat
    var pktRep: nat
    var missRep: nat
    var reqRecount: nat
    var rspRecount: nat
    var timeout50: nat

    ghost predicate Valid()
      reads this, table, table.Repr, samples, samples.Repr
    {
      && table.Valid() && samples.Valid()
      && {this, intervalCnt} !! table.Repr !! samples.Repr
    }

    /** The histogram is zero between reports. */
    ghost predicate SketchClear()
      reads intervalCnt
    {
      intervalCnt.Length == BUCKETS && forall b :: 0 <= b < BUCKETS ==> intervalCnt[b] == 0
    }

    ghost function View(): State
      reads this, table, samples
    {
      State(table.Contents, samples.Contents, idxPriHigh, idxPriLow, recvPriHigh, recvPriLow, connActiveHy,
            pktReq, pktRep, missRep, reqRecount, rspRecount, timeout50)
    }

    /** `res_setup_hash`: zeroed tables, and buffers of the initial capacity. */
    constructor (cfg: Config, entries: nat, capacity: nat)
      requires capacity > 0
      ensures Valid() && SketchClear() && View() == INIT && this.cfg == cfg && table.slots.Length == entries
      ensures fresh(table.Repr) && fresh(samples.Repr) && fresh(intervalCnt)
    {
      hide SlotTable.Valid, SampleBuffer.Valid;
      this.cfg := cfg;
      table := new SlotTable(entries);
      samples := new SampleBuffer(capacity);
      intervalCnt := new int[BUCKETS](_ => 0);
      idxPriHigh, idxPriLow, recvPriHigh, recvPriLow, connActiveHy := 0, 0, 0, 0, 0;
      pktReq, pktRep, missRep, reqRecount, rspRecount, timeout50 := 0, 0, 0, 0, 0, 0;
    }

    /** Count the packet in its priority class, when priorities are read from packets of its kind. */
    method CountPriority(p: Packet, fromResponse: bool)
      modifies this`recvPriHigh, this`recvPriLow
      ensures recvPriHigh == old(recvPriHigh) + Bit(cfg.rspPri == fromResponse && p.pri == cfg.highLabel)
      ensures recvPriLow == old(recvPriLow) + Bit(cfg.rspPri == fromResponse && p.pri != cfg.highLabel)
    {
      if cfg.rspPri == fromResponse {
        if p.pri == cfg.highLabel {
          recvPriHigh := recvPriHigh + 1;
        } else {
          recvPriLow := recvPriLow + 1;
        }
      }
    }

    method OnRequestPacket(p: Packet)
      requires table.Valid() && {this, samples} !! table.Repr
      requires p.kind == Request && table.HasRoom(p.key)
      modifies this, table.Repr
      ensures table.Valid() && View() == OnRequest(cfg, old(View()), p)
    {
      hide SlotTable.Valid, Requested;
      var novel, first := table.Accept(p, cfg);
      pktReq := pktReq + 1;
      connActiveHy := connActiveHy + Bit(novel && first);
      reqRecount := reqRecount + Bit(!novel);
      CountPriority(p, false);
    }

    /** The result -2 stands for a missed response; the lookup precedes the read of the slot. */
    method OnResponsePacket(p: Packet) returns (code: int)
      requires Valid() && p.kind == Response
      modifies this, table.Repr, samples.Repr
      ensures Valid() && fresh(samples.Repr - old(samples.Repr))
      ensures View() == OnResponse(cfg, old(View()), p).(missRep := old(missRep))
      ensures code == -2 <==> OutcomeOf(cfg, old(View()), p).Missed? || OutcomeOf(cfg, old(View()), p).Duplicate?
    {
      hide SlotTable.Valid, SampleBuffer.Valid, OnResponse, OutcomeOf;
      ResponseCases(cfg, View(), p);
      pktRep := pktRep + 1;
      var found, pos := table.Lookup(p.key);
      if !found {
        return -2;
      }
      var slot := table.Get(p.key, pos);
      if Sub32(p.sent, slot.sent) > slot.len {
        return -2;
      }
      var ack := (p.sec - slot.sec) * NANOS + (p.nsec - slot.nsec);
      code := 1;
      if ack > 0 {
        var recorded := OnLaterResponse(p, pos, slot, ack);
        if !recorded {
          code := -2;
        }
      }
    }

    /** A response in the window and later than its request: a sample, unless acknowledged before. */
    method OnLaterResponse(p: Packet, pos: nat, slot: Slot, ack: int) returns (recorded: bool)
      requires Valid()
      requires p.key in table.hash && pos == table.hash[p.key]
      requires p.key in table.Contents && slot == table.Contents[p.key]
      modifies this`recvPriHigh, this`recvPriLow, this`rspRecount, this`idxPriHigh, this`idxPriLow, this`timeout50
      modifies table.Repr, samples.Repr
      ensures Valid() && fresh(samples.Repr - old(samples.Repr))
      ensures recorded == (p.sent > slot.acked)
      ensures table.Contents == old(table.Contents)[p.key := Answered(cfg, slot, p)]
      ensures var high := Answered(cfg, slot, p).pri != 0;
        && samples.Contents == old(samples.Contents) + (if recorded then [Sample(ack, high)] else [])
        && idxPriHigh == old(idxPriHigh) + Bit(recorded && high) && idxPriLow == old(idxPriLow) + Bit(recorded && !high)
      ensures timeout50 == old(timeout50) + Bit(recorded && ack > FIFTY_MS)
      ensures rspRecount == old(rspRecount) + Bit(!recorded)
      ensures recvPriHigh == old(recvPriHigh) + Bit(cfg.rspPri && p.pri == cfg.highLabel)
      ensures recvPriLow == old(recvPriLow) + Bit(cfg.rspPri && p.pri != cfg.highLabel)
    {
      hide SlotTable.Valid, SampleBuffer.Valid;
      CountPriority(p, true);
      recorded := p.sent > slot.acked;
      var marked := Answered(cfg, slot, p);
      table.Put(p.key, pos, marked);
      if recorded {
        Record(ack, marked.pri != 0);
      } else {
        rspRecount := rspRecount + 1;
      }
    }

    method Record(ack: int, high: bool)
      requires Valid()
      modifies this`idxPriHigh, this`idxPriLow, this`timeout50, samples.Repr
      ensures Valid() && fresh(samples.Repr - old(samples.Repr))
      ensures samples.Contents == old(samples.Contents) + [Sample(ack, high)]
      ensures idxPriHigh == old(idxPriHigh) + Bit(high) && idxPriLow == old(idxPriLow) + Bit(!high)
      ensures timeout50 == old(timeout50) + Bit(ack > FIFTY_MS)
    {
      if high {
        idxPriHigh := idxPriHigh + 1;
      } else {
        idxPriLow := idxPriLow + 1;
      }
      samples.Append(ack, high);
      if ack > FIFTY_MS {
        timeout50 := timeout50 + 1;
      }
    }

    /** One entry taken by the monitor core: process it and count a missed response. */
    method Poll(p: Packet)
      requires Valid() && (p.kind == Request ==> table.HasRoom(p.key))
      modifies this, table.Repr, samples.Repr
      ensures Valid() && fresh(samples.Repr - old(samples.Repr))
      ensures View() == Apply(cfg, old(View()), Deliver(p))
    {
      hide SlotTable.Valid, SampleBuffer.Valid, OnRequest, OutcomeOf;
      match p.kind
      case Request =>
        OnRequestPacket(p);
      case Response =>
        var code := OnResponsePacket(p);
        if code == -2 {
          missRep := missRep + 1;
        }
      case Other =>
    }

    /** The interval tick, as one step. The report describes exactly the samples of the interval. */
    method Tick(buffers: PriorityBuffers, enablePri: bool) returns (report: Cdf, reported: bool)
      requires Valid() && SketchClear() && buffers.Valid() && Apart(buffers)
      requires idxPriHigh == HighCount(samples.Contents) && idxPriHigh + idxPriLow == |samples.Contents|
      modifies this, table.Repr, samples.Repr, intervalCnt, buffers, buffers.high, buffers.low
      ensures Valid() && SketchClear() && View() == OnTick(old(View()))
      ensures buffers.Valid() && Apart(buffers)
      ensures samples.Repr == old(samples.Repr) && fresh({buffers.high, buffers.low} - old({buffers.high, buffers.low}))
      ensures reported <==> old(samples.Contents) != []
      ensures reported ==> Describes(report, old(samples.Contents), enablePri)
    {
      hide SlotTable.Valid, SampleBuffer.Valid, Describes;
      connActiveHy := 0;
      reported := samples.idx > 0;
      if reported {
        report := CloseInterval(buffers, enablePri);
      } else {
        report := Cdf(0.0, 0.0, 0.0, [], [], [], 0, 0, []);
      }
    }

    /** The clearing branch of the tick. */
    method CloseInterval(buffers: PriorityBuffers, enablePri: bool) returns (report: Cdf)
      requires Valid() && SketchClear() && buffers.Valid() && Apart(buffers)
      requires samples.Contents != []
      requires idxPriHigh == HighCount(samples.Contents) && idxPriHigh + idxPriLow == |samples.Contents|
      modifies this`reqRecount, this`rspRecount, this`idxPriLow, this`idxPriHigh, this`recvPriLow, this`recvPriHigh
      modifies table.Repr, samples.Repr, intervalCnt, buffers, buffers.high, buffers.low
      ensures Valid() && SketchClear() && buffers.Valid() && Apart(buffers)
      ensures samples.Repr == old(samples.Repr) && fresh({buffers.high, buffers.low} - old({buffers.high, buffers.low}))
      ensures samples.Contents == []
      ensures table.Contents == map k | k in old(table.Contents) :: Wipe(old(table.Contents)[k])
      ensures reqRecount == rspRecount == idxPriLow == idxPriHigh == recvPriLow == recvPriHigh == 0
      ensures Describes(report, old(samples.Contents), enablePri)
    {
      hide SlotTable.Valid, SampleBuffer.Valid, Describes, HighCount, Wipe, PriorityBuffers.Valid;
      report := TakeAndSummarise(buffers, enablePri);
      Reset();
    }

    /** Zero the counters of the interval with the table and the histogram. */
    method Reset()
      requires table.Valid() && {this, intervalCnt} !! table.Repr && intervalCnt.Length == BUCKETS
      modifies this`reqRecount, this`rspRecount, this`idxPriLow, this`idxPriHigh, this`recvPriLow, this`recvPriHigh
      modifies table.Repr, intervalCnt
      ensures table.Valid() && SketchClear()
      ensures table.Contents == map k | k in old(table.Contents) :: Wipe(old(table.Contents)[k])
      ensures reqRecount == rspRecount == idxPriLow == idxPriHigh == recvPriLow == recvPriHigh == 0
    {
      reqRecount, rspRecount := 0, 0;
      Clear();
      idxPriLow, idxPriHigh, recvPriLow, recvPriHigh := 0, 0, 0, 0;
    }

    /** `clear`: zero the table and the histogram. */
    method Clear()
      requires table.Valid() && intervalCnt !in table.Repr && intervalCnt.Length == BUCKETS
      modifies table.Repr, intervalCnt
      ensures table.Valid() && SketchClear()
      ensures table.Contents == map k | k in old(table.Contents) :: Wipe(old(table.Contents)[k])
    {
      table.Clear();
      forall b | 0 <= b < BUCKETS {
        intervalCnt[b] := 0;
      }
    }

    /** Copy the samples out and report on the copy. */
    method TakeAndSummarise(buffers: PriorityBuffers, enablePri: bool) returns (report: Cdf)
      requires samples.Valid() && SketchClear() && buffers.Valid()
      requires {buffers, buffers.high, buffers.low} !! {intervalCnt} !! samples.Repr
      requires samples.Contents != []
      requires idxPriHigh == HighCount(samples.Contents) && idxPriHigh + idxPriLow == |samples.Contents|
      modifies samples.Repr, intervalCnt, buffers, buffers.high, buffers.low
      ensures samples.Valid() && samples.Repr == old(samples.Repr) && samples.Contents == []
      ensures buffers.Valid()
      ensures (buffers.high == old(buffers.high) || fresh(buffers.high)) && (buffers.low == old(buffers.low) || fresh(buffers.low))
      ensures Describes(report, old(samples.Contents), enablePri)
    {
      ghost var all := samples.Contents;
      FlagsCountHigh(all);
      var idx := samples.Take();
      assert Times(all) == samples.timeHy[..idx] && Flags(all) == samples.priHy[..idx];
      report := buffers.CdfAcktime(samples.timeHy, samples.priHy, idx, idxPriHigh, idxPriLow, enablePri, intervalCnt);
      BucketsPermute(samples.timeHy[..idx], Times(all));
    }

    /** The class buffers are not the monitor's own objects. */
    ghost predicate Apart(buffers: PriorityBuffers)
      reads this, samples, buffers
    {
      {buffers, buffers.high, buffers.low} !! {this, intervalCnt} + table.Repr + samples.Repr
    }
  }

  /** The report of an interval in terms of its samples. */
  ghost predicate Describes(r: Cdf, samples: seq<Sample>, enablePri: bool) {
    var times, flags := Times(samples), Flags(samples);
    && times != []
    && r.average == Average(times)
    && Percentiles(r.w, times)
    && |r.sketch| == BUCKETS && (forall b :: 0 <= b < BUCKETS ==> r.sketch[b] == Bucket(times, b))
    && (enablePri ==> ClassReport(times, flags, true, r.numHigh, r.averageHigh, r.wHigh))
    && (enablePri ==> ClassReport(times, flags, false, r.numLow, r.averageLow, r.wLow))
  }

  /** The samples of one class, or of both. */
  ghost predicate InBounds(samples: seq<Sample>, b: bool, lo: int, hi: int) {
    forall i :: 0 <= i < |samples| && samples[i].high == b ==> lo <= samples[i].time <= hi
  }

  /** The averages of a report: the overall average and each class's lie between the extremes of their samples and
      do not exceed their last percentile. */
  lemma DescribedAverages(r: Cdf, samples: seq<Sample>, enablePri: bool, lo: int, hi: int)
    requires Describes(r, samples, enablePri)
    ensures InBounds(samples, true, lo, hi) && InBounds(samples, false, lo, hi) ==> lo as real <= r.average <= hi as real
    ensures r.average <= r.w[|r.w| - 1] as real
    ensures enablePri && r.numHigh > 0 ==>
      (InBounds(samples, true, lo, hi) ==> lo as real <= r.averageHigh <= hi as real) &&
      r.averageHigh <= r.wHigh[|r.wHigh| - 1] as real
    ensures enablePri && r.numLow > 0 ==>
      (InBounds(samples, false, lo, hi) ==> lo as real <= r.averageLow <= hi as real) &&
      r.averageLow <= r.wLow[|r.wLow| - 1] as real
  {
    hide Percentiles, Average, Select;
    var times, flags := Times(samples), Flags(samples);
    AverageIsConsistent(times, r.average, r.w);
    if InBounds(samples, true, lo, hi) && InBounds(samples, false, lo, hi) {
      assert Between(times, lo, hi);
    }
    if enablePri && r.numHigh > 0 {
      AverageIsConsistent(Select(times, flags, true), r.averageHigh, r.wHigh);
      ClassInBounds(samples, true, lo, hi);
    }
    if enablePri && r.numLow > 0 {
      AverageIsConsistent(Select(times, flags, false), r.averageLow, r.wLow);
      ClassInBounds(samples, false, lo, hi);
    }
  }

  lemma {:induction false} ClassInBounds(samples: seq<Sample>, b: bool, lo: int, hi: int)
    ensures InBounds(samples, b, lo, hi) ==> Between(Select(Times(samples), Flags(samples), b), lo, hi)
  {
    if samples != [] && InBounds(samples, b, lo, hi) {
      var pre := Front(samples);
      ClassInBounds(pre, b, lo, hi);
      assert Times(samples)[..|pre|] == Times(pre) && Flags(samples)[..|pre|] == Flags(pre);
    }
  }

  lemma BucketsPermute(s: seq<int>, t: seq<int>)
    requires multiset(s) == multiset(t)
    ensures forall b: nat :: Bucket(s, b) == Bucket(t, b)
  {
    forall b: nat
      ensures Bucket(s, b) == Bucket(t, b)
    {
      TotalPermutes(s, t, Less(STEP));
      TotalPermutes(s, t, Within(STEP * b, STEP * (b + 1)));
    }
  }

  method ExtendInts(a: array<int>, n: nat) returns (b: array<int>)
    requires n >= a.Length
    ensures fresh(b) && b.Length == n && b[..a.Length] == a[..]
  {
    b := new int[n];
    CopyInts(a, b, a.Length);
  }

  method ExtendBools(a: array<bool>, n: nat) returns (b: array<bool>)
    requires n >= a.Length
    ensures fresh(b) && b.Length == n && b[..a.Length] == a[..]
  {
    b := new bool[n];
    CopyBools(a, b, a.Length);
  }

  method CopyInts(a: array<int>, b: array<int>, n: nat)
    requires n <= a.Length && n <= b.Length && a != b
    modifies b
    ensures b[..n] == a[..n]
  {
    forall i | 0 <= i < n {
      b[i] := a[i];
    }
  }

  method CopyBools(a: array<bool>, b: array<bool>, n: nat)
    requires n <= a.Length && n <= b.Length && a != b
    modifies b
    ensures b[..n] == a[..n]
  {
    forall i | 0 <= i < n {
      b[i] := a[i];
    }
  }
}
