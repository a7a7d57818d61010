/** The request/response matching machine of HCMonitor/monitor.c, on values.

    `Apply` is one event of the machine and `After` a whole run of it from power-on.
    The class in Monitor.dfy performs the same events in place and is proved equal to it. */
module Matching {
  import opened Basics
  import opened CArith

  datatype Kind = Request | Response | Other

  datatype Key = Key(ip: Uint32, port: Uint16)

  /** A queued packet after normalisation: for a response, `key` is the client's
      address and `sent` is the acknowledgement number. */
  datatype Packet = Packet(key: Key, kind: Kind, sent: Uint32, len: Uint16, sec: int, nsec: int, pri: int)

  /** What the monitor keeps for one connection. */
  datatype Slot = Slot(sent: Uint32, len: Uint16, acked: Uint32, sec: int, nsec: int, counted: bool, pri: int)

  datatype Sample = Sample(time: int, high: bool)

  datatype Config = Config(rspPri: bool, highLabel: int)

  datatype State = State(
    slots: map<Key, Slot>,
    samples: seq<Sample>,
    idxHigh: nat,
    idxLow: nat,
    recvHigh: nat,
    recvLow: nat,
    connActive: nat,
    pktReq: nat,
    pktRep: nat,
    missRep: nat,
    reqRecount: nat,
    rspRecount: nat,
    timeout50: nat)

  /** How the monitor disposes of one packet. */
  datatype Outcome =
    | Accepted
    | Resent
    | Missed
    | NotLater
    | Duplicate
    | Recorded(sample: Sample)
    | Ignored

  datatype Event = Deliver(p: Packet) | Tick

  const NANOS := 1_000_000_000
  const FIFTY_MS := 50_000_000

  const FRESH := Slot(0, 0, 0, 0, 0, false, -1)

  const INIT := State(map[], [], 0, 0, 0, 0, 0, 0, 0, 0, 0, 0, 0)

  function SlotOf(s: State, k: Key): Slot {
    if k in s.slots then s.slots[k] else FRESH
  }

  /** What `clear()` leaves of a slot: the request time stamp survives. */
  function Wipe(slot: Slot): Slot {
    Slot(0, 0, 0, slot.sec, slot.nsec, false, -1)
  }

  /** The acknowledgement lies in the modular window that starts at the request. */
  predicate InWindow(sent: Uint32, len: Uint16, ack: Uint32) {
    Sub32(ack, sent) <= len
  }

  function Stamp(sec: int, nsec: int): int {
    sec * NANOS + nsec
  }

  /** The clock in nanoseconds: a nanosecond is one, also across the turn of a second, and the latency between
      two stamps is their difference. The slow responses are those over 50 thousandths of a second. */
  lemma ClockIsExact(sec: int, nsec: int, slot: Slot, p: Packet)
    ensures Stamp(sec, nsec + 1) == Stamp(sec, nsec) + 1 && Stamp(sec, 999_999_999) + 1 == Stamp(sec + 1, 0)
    ensures Latency(slot, p) == Stamp(p.sec, p.nsec) - Stamp(slot.sec, slot.nsec)
    ensures 1000 * FIFTY_MS == 50 * (Stamp(sec + 1, nsec) - Stamp(sec, nsec))
  {
  }

  function Time(p: Packet): int {
    Stamp(p.sec, p.nsec)
  }

  function Latency(slot: Slot, p: Packet): int {
    (p.sec - slot.sec) * NANOS + (p.nsec - slot.nsec)
  }

  function OutcomeOf(cfg: Config, s: State, p: Packet): Outcome {
    var slot := SlotOf(s, p.key);
    match p.kind
    case Request => if slot.sent < p.sent then Accepted else Resent
    case Response =>
      if p.key !in s.slots || !InWindow(slot.sent, slot.len, p.sent) then Missed
      else if Latency(slot, p) <= 0 then NotLater
      else if p.sent <= slot.acked then Duplicate
      else Recorded(Sample(Latency(slot, p), if cfg.rspPri then p.pri == cfg.highLabel else slot.pri != 0))
    case Other => Ignored
  }

  /** The slot after a request. */
  function Requested(cfg: Config, slot: Slot, p: Packet): Slot {
    var pri := if cfg.rspPri then slot.pri else Bit(p.pri == cfg.highLabel);
    if slot.sent < p.sent then Slot(p.sent, p.len, slot.acked, p.sec, p.nsec, true, pri) else slot.(pri := pri)
  }

  function OnRequest(cfg: Config, s: State, p: Packet): State
    requires p.kind == Request
  {
    var slot := SlotOf(s, p.key);
    var novel := slot.sent < p.sent;
    var high := p.pri == cfg.highLabel;
    State(s.slots[p.key := Requested(cfg, slot, p)],
          s.samples, s.idxHigh, s.idxLow,
          s.recvHigh + Bit(!cfg.rspPri && high), s.recvLow + Bit(!cfg.rspPri && !high),
          s.connActive + Bit(novel && !slot.counted),
          s.pktReq + 1, s.pktRep, s.missRep,
          s.reqRecount + Bit(!novel), s.rspRecount, s.timeout50)
  }

  /** The slot after a response inside the window and later than its request. */
  function Answered(cfg: Config, slot: Slot, p: Packet): Slot {
    slot.(pri := if cfg.rspPri then Bit(p.pri == cfg.highLabel) else slot.pri,
          acked := if p.sent > slot.acked then p.sent else slot.acked)
  }

  function OnResponse(cfg: Config, s: State, p: Packet): State
    requires p.kind == Response
  {
    var o := OutcomeOf(cfg, s, p);
    var high := p.pri == cfg.highLabel;
    var later := o.Recorded? || o.Duplicate?;
    State(if later then s.slots[p.key := Answered(cfg, SlotOf(s, p.key), p)] else s.slots,
          if o.Recorded? then s.samples + [o.sample] else s.samples,
          s.idxHigh + Bit(o.Recorded? && o.sample.high), s.idxLow + Bit(o.Recorded? && !o.sample.high),
          s.recvHigh + Bit(later && cfg.rspPri && high), s.recvLow + Bit(later && cfg.rspPri && !high),
          s.connActive,
          s.pktReq, s.pktRep + 1, s.missRep + Bit(o.Missed? || o.Duplicate?),
          s.reqRecount, s.rspRecount + Bit(o.Duplicate?),
          s.timeout50 + Bit(o.Recorded? && o.sample.time > FIFTY_MS))
  }

  /** The end of a reporting interval; nothing is cleared when no sample exists. */
  function OnTick(s: State): State {
    if s.samples != [] then
      s.(slots := map k | k in s.slots :: Wipe(s.slots[k]),
         samples := [], idxHigh := 0, idxLow := 0, recvHigh := 0, recvLow := 0,
         connActive := 0, reqRecount := 0, rspRecount := 0)
    else s.(connActive := 0)
  }

  /** A clearing forgets what was recorded and counted of a connection, but neither the connection nor the time
      stamp of its request; the running counters go on. */
  lemma ClearingSpares(s: State, k: Key)
    requires s.samples != [] && k in s.slots
    ensures var t := OnTick(s);
      && k in t.slots && Stamp(t.slots[k].sec, t.slots[k].nsec) == Stamp(s.slots[k].sec, s.slots[k].nsec)
      && t.slots[k].sent == 0 && t.slots[k].acked == 0 && !t.slots[k].counted && t.samples == []
      && t.pktReq == s.pktReq && t.pktRep == s.pktRep && t.missRep == s.missRep && t.timeout50 == s.timeout50
  {
  }

  function Apply(cfg: Config, s: State, e: Event): State {
    match e
    case Tick => OnTick(s)
    case Deliver(p) =>
      match p.kind
      case Request => OnRequest(cfg, s, p)
      case Response => OnResponse(cfg, s, p)
      case Other => s
  }

  /** The state after a whole run. */
  function After(cfg: Config, es: seq<Event>): State {
    if es == [] then INIT else Apply(cfg, After(cfg, Front(es)), Last(es))
  }

  /** The last event is a tick that clears the table. */
  predicate Clears(cfg: Config, es: seq<Event>)
    requires es != []
  {
    Last(es).Tick? && After(cfg, Front(es)).samples != []
  }

  /** How the last event is disposed of. */
  function Disposal(cfg: Config, es: seq<Event>): Outcome
    requires es != []
  {
    if Last(es).Deliver? then OutcomeOf(cfg, After(cfg, Front(es)), Last(es).p) else Ignored
  }

  // ---------------------------------------------------------------- accounting

  datatype Tally = Tally(accepted: nat, resent: nat, missed: nat, notLater: nat, duplicate: nat, recorded: nat, slow: nat)

  const NONE := Tally(0, 0, 0, 0, 0, 0, 0)

  function Count(t: Tally, o: Outcome): Tally {
    match o
    case Accepted => t.(accepted := t.accepted + 1)
    case Resent => t.(resent := t.resent + 1)
    case Missed => t.(missed := t.missed + 1)
    case NotLater => t.(notLater := t.notLater + 1)
    case Duplicate => t.(duplicate := t.duplicate + 1)
    case Recorded(sample) => t.(recorded := t.recorded + 1, slow := t.slow + Bit(sample.time > FIFTY_MS))
    case Ignored => t
  }

  /** The outcomes of a whole run. */
  function Total(cfg: Config, es: seq<Event>): Tally {
    if es == [] then NONE else Count(Total(cfg, Front(es)), Disposal(cfg, es))
  }

  /** The outcomes since the table was last cleared. */
  function Current(cfg: Config, es: seq<Event>): Tally {
    if es == [] || Clears(cfg, es) then NONE else Count(Current(cfg, Front(es)), Disposal(cfg, es))
  }

  /** The priority is read from requests, or from the responses that are later than their request. */
  predicate PriorityRead(cfg: Config, o: Outcome) {
    if cfg.rspPri then o.Recorded? || o.Duplicate? else o.Accepted? || o.Resent?
  }

  /** The packets of high priority among those whose priority was read since the last clearing. */
  function HighReads(cfg: Config, es: seq<Event>): nat {
    if es == [] || Clears(cfg, es) then 0
    else HighReads(cfg, Front(es)) + Bit(PriorityRead(cfg, Disposal(cfg, es)) && Last(es).p.pri == cfg.highLabel)
  }

  function HighCount(samples: seq<Sample>): nat {
    if samples == [] then 0 else HighCount(Front(samples)) + Bit(Last(samples).high)
  }

  /** What one packet adds to each counter. */
  lemma CounterSteps(cfg: Config, s: State, p: Packet)
    ensures var t, d := Apply(cfg, s, Deliver(p)), Count(NONE, OutcomeOf(cfg, s, p));
      && t.pktReq == s.pktReq + d.accepted + d.resent
      && t.pktRep == s.pktRep + d.recorded + d.missed + d.duplicate + d.notLater
      && t.missRep == s.missRep + d.missed + d.duplicate
      && t.reqRecount == s.reqRecount + d.resent
      && t.rspRecount == s.rspRecount + d.duplicate
      && t.timeout50 == s.timeout50 + d.slow
      && |t.samples| == |s.samples| + d.recorded
      && t.recvHigh + t.recvLow == s.recvHigh + s.recvLow + (if cfg.rspPri then d.recorded + d.duplicate else d.accepted + d.resent)
      && t.recvHigh == s.recvHigh + Bit(PriorityRead(cfg, OutcomeOf(cfg, s, p)) && p.pri == cfg.highLabel)
  {
  }

  lemma CountAdds(t: Tally, o: Outcome)
    ensures var n, d := Count(t, o), Count(NONE, o);
      && n.accepted == t.accepted + d.accepted && n.resent == t.resent + d.resent && n.missed == t.missed + d.missed
      && n.notLater == t.notLater + d.notLater && n.duplicate == t.duplicate + d.duplicate
      && n.recorded == t.recorded + d.recorded && n.slow == t.slow + d.slow
  {
  }

  lemma NothingCounted()
    ensures Count(NONE, Ignored) == NONE
  {
  }

  lemma TickIsApplied(cfg: Config, s: State)
    ensures var t := Apply(cfg, s, Tick);
      && t.pktReq == s.pktReq && t.pktRep == s.pktRep && t.missRep == s.missRep && t.timeout50 == s.timeout50
  {
  }

  /** The running counters are counts of outcomes over the whole run. */
  lemma {:induction false} RunAccounting(cfg: Config, es: seq<Event>)
    ensures var s, t := After(cfg, es), Total(cfg, es);
      && s.pktReq == t.accepted + t.resent
      && s.pktRep == t.recorded + t.missed + t.duplicate + t.notLater
      && s.missRep == t.missed + t.duplicate
      && s.timeout50 == t.slow
  {
    hide Apply, OnTick, OutcomeOf, Count;
    if es != [] {
      RunAccounting(cfg, Front(es));
      CountAdds(Total(cfg, Front(es)), Disposal(cfg, es));
      NothingCounted();
      if Last(es).Deliver? {
        CounterSteps(cfg, After(cfg, Front(es)), Last(es).p);
      } else {
        TickIsApplied(cfg, After(cfg, Front(es)));
      }
    }
  }

  /** The counters of the interval are counts of outcomes since the table was last cleared. Every packet
      whose priority is read is counted in exactly one class: all the requests of the interval, or all
      its responses that are later than their request. */
  lemma {:induction false} IntervalAccounting(cfg: Config, es: seq<Event>)
    ensures var s, c := After(cfg, es), Current(cfg, es);
      && s.reqRecount == c.resent
      && s.rspRecount == c.duplicate
      && |s.samples| == c.recorded
      && s.recvHigh + s.recvLow == (if cfg.rspPri then c.recorded + c.duplicate else c.accepted + c.resent)
      && s.recvHigh == HighReads(cfg, es)
  {
    hide OnRequest, OnResponse, OutcomeOf, Count;
    if es != [] {
      IntervalAccounting(cfg, Front(es));
      CountAdds(Current(cfg, Front(es)), Disposal(cfg, es));
      NothingCounted();
      if Last(es).Deliver? {
        CounterSteps(cfg, After(cfg, Front(es)), Last(es).p);
      }
    }
  }

  /** The two priority counters split the samples exactly as the recorded flags do. */
  lemma {:induction false} PriorityCounters(cfg: Config, es: seq<Event>)
    ensures var s := After(cfg, es);
      s.idxHigh == HighCount(s.samples) && s.idxHigh + s.idxLow == |s.samples|
  {
    if es != [] {
      PriorityCounters(cfg, Front(es));
      var s, t := After(cfg, Front(es)), After(cfg, es);
      if Disposal(cfg, es).Recorded? {
        assert Front(t.samples) == s.samples;
      }
    }
  }

  // ------------------------------------------------------- active connections

  function Counted(s: State): set<Key> {
    set k | k in s.slots && s.slots[k].counted
  }

  /** The connections that were already counted at the last tick and not cleared by it. */
  function Baseline(cfg: Config, es: seq<Event>): set<Key> {
    if es == [] then {}
    else if Last(es).Tick? then Counted(After(cfg, es))
    else Baseline(cfg, Front(es))
  }

  lemma OthersStayCounted(cfg: Config, s: State, p: Packet)
    ensures var t := Apply(cfg, s, Deliver(p));
      forall k :: k != p.key ==> (k in t.slots <==> k in s.slots) && (k in s.slots ==> t.slots[k] == s.slots[k])
  {
  }

  /** Only an accepted request counts its connection. */
  lemma OwnCounted(cfg: Config, s: State, p: Packet)
    ensures var t, first := Apply(cfg, s, Deliver(p)), OutcomeOf(cfg, s, p).Accepted? && p.key !in Counted(s);
      && (p.key in Counted(t) <==> p.key in Counted(s) || first)
      && t.connActive == s.connActive + Bit(first)
  {
  }

  lemma CountedStep(cfg: Config, s: State, p: Packet)
    ensures var t := Apply(cfg, s, Deliver(p));
      && Counted(s) <= Counted(t)
      && t.connActive - s.connActive == |Counted(t)| - |Counted(s)|
  {
    var t := Apply(cfg, s, Deliver(p));
    hide Apply, OutcomeOf;
    OthersStayCounted(cfg, s, p);
    OwnCounted(cfg, s, p);
    if OutcomeOf(cfg, s, p).Accepted? && p.key !in Counted(s) {
      assert Counted(t) == Counted(s) + {p.key};
    } else {
      assert Counted(t) == Counted(s);
    }
  }

  /** The published number of connections is the number counted since the last tick. */
  lemma {:induction false} ActiveConnections(cfg: Config, es: seq<Event>)
    ensures Baseline(cfg, es) <= Counted(After(cfg, es))
    ensures After(cfg, es).connActive == |Counted(After(cfg, es))| - |Baseline(cfg, es)|
  {
    hide OnRequest, OnResponse;
    if es == [] {
      assert Counted(INIT) == {};
    } else {
      ActiveConnections(cfg, Front(es));
      if Last(es).Deliver? {
        CountedStep(cfg, After(cfg, Front(es)), Last(es).p);
      }
    }
  }

  /** No tick since the table was last cleared (or since power-on) has skipped the clearing. */
  predicate NeverSkipped(cfg: Config, es: seq<Event>) {
    es == [] || Clears(cfg, es) || (!Last(es).Tick? && NeverSkipped(cfg, Front(es)))
  }

  /** The published number never exceeds the counted slots, and equals it until a tick skips the clearing. */
  lemma {:induction false} ActiveUntilSkipped(cfg: Config, es: seq<Event>)
    ensures After(cfg, es).connActive <= |Counted(After(cfg, es))|
    ensures After(cfg, es).connActive == |Counted(After(cfg, es))| <==> Baseline(cfg, es) == {}
    ensures NeverSkipped(cfg, es) ==> After(cfg, es).connActive == |Counted(After(cfg, es))|
  {
    ActiveConnections(cfg, es);
    if NeverSkipped(cfg, es) {
      NoBaseline(cfg, es);
    }
  }

  lemma {:induction false} NoBaseline(cfg: Config, es: seq<Event>)
    requires NeverSkipped(cfg, es)
    ensures Baseline(cfg, es) == {}
  {
    if es != [] && !Last(es).Tick? {
      NoBaseline(cfg, Front(es));
    }
  }
}
