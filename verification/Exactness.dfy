/** The law the monitor is for: its samples are the response times of the exchanges, one for each
    answered request, whatever is retransmitted.

    The reference below knows nothing of tables. It keeps, for each connection, the log of its
    exchanges in the interval, ordered in the sequence space, and answers an exchange at its
    first response. */
module Exactness {
  import opened Basics
  import opened CArith
  import opened Matching
  import opened Provenance

  datatype Reply = Reply(time: int, ack: Uint32)

  /** One request of a connection: first seen at `at`, with the priority label of the connection's latest
      request, and the first response that acknowledged any of its bytes. */
  datatype Exchange = Exchange(sent: Uint32, len: Uint16, at: int, pri: int, answer: Option<Reply>) {
    function End(): int {
      sent + len
    }

    function ResponseTime(): int
      requires answer.Some?
    {
      answer.value.time - at
    }
  }

  /** The request with the plainly highest number of a connection, first seen at `at`. */
  datatype Held = Held(sent: Uint32, len: Uint16, at: int)

  /** A response time, with the label of the connection's latest request and that of the response. */
  datatype Answer = Answer(key: Key, time: int, asked: int, told: int)

  /** What the reference knows: `logs` and `answers`. The highest requests are noted beside it for the
      statement of when the monitor agrees; the reference itself makes no use of them. */
  datatype Observer = Observer(logs: map<Key, seq<Exchange>>, answers: seq<Answer>, highest: map<Key, Held>)

  const NOTHING_SEEN := Observer(map[], [], map[])

  const NO_REQUEST := Held(0, 0, 0)

  function LogOf(r: Observer, k: Key): seq<Exchange> {
    if k in r.logs then r.logs[k] else []
  }

  function HighestOf(r: Observer, k: Key): Held {
    if k in r.highest then r.highest[k] else NO_REQUEST
  }

  /** `a` follows `b` in the sequence space, by less than half of it. */
  predicate Later(a: Uint32, b: Uint32) {
    0 < Sub32(a, b) < 0x8000_0000
  }

  /** The request is new: it follows every request of its connection in the sequence space. */
  predicate Opens(r: Observer, p: Packet) {
    var log := LogOf(r, p.key);
    p.kind == Request && (log == [] || Later(p.sent, Last(log).sent))
  }

  predicate Resends(r: Observer, p: Packet) {
    p.kind == Request && !Opens(r, p)
  }

  /** The acknowledgement covers at least one byte of the request, in the sequence space. */
  predicate Acknowledges(ack: Uint32, e: Exchange) {
    0 < Sub32(ack, e.sent) <= e.len
  }

  /** The packet is the first response to the open exchange. */
  predicate Answers(r: Observer, p: Packet) {
    var log := LogOf(r, p.key);
    p.kind == Response && log != [] && Last(log).answer.None? && Acknowledges(p.sent, Last(log))
  }

  function LogAfter(r: Observer, p: Packet): seq<Exchange> {
    var log := LogOf(r, p.key);
    if Opens(r, p) then log + [Exchange(p.sent, p.len, Time(p), p.pri, None)]
    else if Resends(r, p) then Front(log) + [Last(log).(pri := p.pri)]
    else if Answers(r, p) then Front(log) + [Last(log).(answer := Some(Reply(Time(p), p.sent)))]
    else log
  }

  function HighestAfter(r: Observer, p: Packet): Held {
    if p.kind == Request && p.sent > HighestOf(r, p.key).sent then Held(p.sent, p.len, Time(p)) else HighestOf(r, p.key)
  }

  function Observe(r: Observer, p: Packet): Observer {
    var log := LogOf(r, p.key);
    Observer(r.logs[p.key := LogAfter(r, p)],
             if Answers(r, p) then r.answers + [Answer(p.key, Time(p) - Last(log).at, Last(log).pri, p.pri)] else r.answers,
             r.highest[p.key := HighestAfter(r, p)])
  }

  /** A reporting interval ends when there is something to report. */
  function ObserveEvent(r: Observer, e: Event): Observer {
    match e
    case Deliver(p) => Observe(r, p)
    case Tick => if r.answers != [] then NOTHING_SEEN else r
  }

  function Observed(es: seq<Event>): Observer {
    if es == [] then NOTHING_SEEN else ObserveEvent(Observed(Front(es)), Last(es))
  }

  // -------------------------------------------------------------- clean traffic

  /** The number that acknowledged the latest answered exchange, or 0. */
  function Top(log: seq<Exchange>): Uint32 {
    if log == [] then 0 else if Last(log).answer.Some? then Last(log).answer.value.ack else Top(Front(log))
  }

  /** The response falls in the window of the highest request, is later than it, and its number exceeds
      those of all answers. */
  predicate Registers(r: Observer, p: Packet) {
    var log, h := LogOf(r, p.key), HighestOf(r, p.key);
    p.kind == Response && log != [] && Sub32(p.sent, h.sent) <= h.len && Time(p) > h.at && p.sent > Top(log)
  }

  /** The first response to an exchange registers, and the highest request was first seen when the exchange was;
      no other response registers. */
  predicate Clean(r: Observer, p: Packet) {
    && (Answers(r, p) <==> Registers(r, p))
    && (Answers(r, p) ==> HighestOf(r, p.key).at == Last(LogOf(r, p.key)).at)
  }

  predicate CleanRun(es: seq<Event>) {
    es != [] ==> CleanRun(Front(es)) && (Last(es).Deliver? ==> Clean(Observed(Front(es)), Last(es).p))
  }

  /** The class of an answer, by the label of the packets that priorities are read from. */
  function ClassOf(cfg: Config, a: Answer): bool {
    (if cfg.rspPri then a.told else a.asked) == cfg.highLabel
  }

  /** What the monitor should hold: the answers in their order, each in its class. */
  function AsSamples(cfg: Config, answers: seq<Answer>): (s: seq<Sample>)
    ensures |s| == |answers|
    ensures forall i :: 0 <= i < |s| ==> s[i] == Sample(answers[i].time, ClassOf(cfg, answers[i]))
  {
    seq(|answers|, i requires 0 <= i < |answers| => Sample(answers[i].time, ClassOf(cfg, answers[i])))
  }

  ghost predicate SameSamples(cfg: Config, s: State, r: Observer) {
    s.samples == AsSamples(cfg, r.answers)
  }

  /** The monitor is right at every moment of the run. */
  ghost predicate Exact(cfg: Config, es: seq<Event>) {
    SameSamples(cfg, After(cfg, es), Observed(es)) && (es != [] ==> Exact(cfg, Front(es)))
  }

  // ------------------------------------------------------------- the simulation

  ghost predicate SlotTracks(cfg: Config, s: State, k: Key, log: seq<Exchange>, h: Held) {
    var slot := SlotOf(s, k);
    && slot.acked == Top(log) && slot.sent == h.sent && slot.len == h.len
    && (h.sent > 0 ==> Stamp(slot.sec, slot.nsec) == h.at)
    && (h.sent == 0 ==> h == NO_REQUEST)
    && (log == [] ==> h == NO_REQUEST)
    && (log != [] ==> k in s.slots && (!cfg.rspPri ==> slot.pri == Bit(Last(log).pri == cfg.highLabel)))
  }

  ghost predicate Simulates(cfg: Config, s: State, r: Observer) {
    && (forall k: Key :: SlotTracks(cfg, s, k, LogOf(r, k), HighestOf(r, k)))
    && SameSamples(cfg, s, r)
  }

  /** How the monitor disposes of a packet, in the reference's terms: whatever is neither numbered beyond
      all requests before nor registers is only counted. */
  lemma DisposalFollows(cfg: Config, s: State, r: Observer, p: Packet)
    requires Simulates(cfg, s, r)
    ensures var o, h := OutcomeOf(cfg, s, p), HighestOf(r, p.key);
      && (o.Accepted? <==> p.kind == Request && p.sent > h.sent)
      && (o.Recorded? <==> Registers(r, p))
      && (o.Recorded? ==>
            LogOf(r, p.key) != [] && o.sample == Sample(Time(p) - h.at, ClassOf(cfg, Answer(p.key, 0, Last(LogOf(r, p.key)).pri, p.pri))))
  {
    assert SlotTracks(cfg, s, p.key, LogOf(r, p.key), HighestOf(r, p.key));
  }

  /** What a packet does to the mark of its connection's slot. */
  lemma MarkStep(cfg: Config, s: State, p: Packet)
    ensures var t := Apply(cfg, s, Deliver(p));
      && (p.kind == Request || p.key in s.slots ==> p.key in t.slots)
      && (!cfg.rspPri ==>
            SlotOf(t, p.key).pri == if p.kind == Request then Bit(p.pri == cfg.highLabel) else SlotOf(s, p.key).pri)
  {
  }

  lemma LogStep(r: Observer, p: Packet)
    ensures var log, now := LogOf(r, p.key), LogAfter(r, p);
      && Top(now) == (if Answers(r, p) then p.sent else Top(log))
      && (now == [] <==> log == [] && p.kind != Request)
      && (now != [] ==> Last(now).pri == if p.kind == Request then p.pri else Last(log).pri)
  {
    var log, now := LogOf(r, p.key), LogAfter(r, p);
    if Opens(r, p) {
      assert Front(now) == log;
    } else if Resends(r, p) || Answers(r, p) {
      assert Front(now) == Front(log);
    }
  }

  lemma OwnSlotTracks(cfg: Config, s: State, r: Observer, p: Packet)
    requires Simulates(cfg, s, r) && Clean(r, p)
    ensures SlotTracks(cfg, Apply(cfg, s, Deliver(p)), p.key, LogAfter(r, p), HighestAfter(r, p))
  {
    hide Apply, OutcomeOf, LogAfter, Top, Answers, Registers, SameSamples;
    assert SlotTracks(cfg, s, p.key, LogOf(r, p.key), HighestOf(r, p.key));
    DisposalFollows(cfg, s, r, p);
    SlotStep(cfg, s, p, p.key);
    MarkStep(cfg, s, p);
    LogStep(r, p);
    RegistersOnly(r, p);
  }

  lemma RegistersOnly(r: Observer, p: Packet)
    ensures Registers(r, p) ==> p.kind == Response && LogOf(r, p.key) != []
  {
  }

  lemma CleanStep(cfg: Config, s: State, r: Observer, p: Packet)
    requires Simulates(cfg, s, r) && Clean(r, p)
    ensures Simulates(cfg, Apply(cfg, s, Deliver(p)), Observe(r, p))
  {
    var t, q := Apply(cfg, s, Deliver(p)), Observe(r, p);
    forall k: Key
      ensures SlotTracks(cfg, t, k, LogOf(q, k), HighestOf(q, k))
    {
      if k == p.key {
        OwnSlotTracks(cfg, s, r, p);
      } else {
        assert SlotTracks(cfg, s, k, LogOf(r, k), HighestOf(r, k));
        assert LogOf(q, k) == LogOf(r, k);
        SlotStep(cfg, s, p, k);
      }
    }
    DisposalFollows(cfg, s, r, p);
  }

  lemma TickStep(cfg: Config, s: State, r: Observer)
    requires Simulates(cfg, s, r)
    ensures Simulates(cfg, OnTick(s), ObserveEvent(r, Tick))
  {
    var t, q := OnTick(s), ObserveEvent(r, Tick);
    forall k: Key
      ensures SlotTracks(cfg, t, k, LogOf(q, k), HighestOf(q, k))
    {
      assert SlotTracks(cfg, s, k, LogOf(r, k), HighestOf(r, k));
    }
  }

  /** On clean traffic the monitor simulates the reference, across any number of intervals. */
  lemma {:induction false} CleanRunSimulates(cfg: Config, es: seq<Event>)
    requires CleanRun(es)
    ensures Simulates(cfg, After(cfg, es), Observed(es))
    ensures Exact(cfg, es)
  {
    if es != [] {
      CleanRunSimulates(cfg, Front(es));
      match Last(es)
      case Deliver(p) => CleanStep(cfg, After(cfg, Front(es)), Observed(Front(es)), p);
      case Tick => TickStep(cfg, After(cfg, Front(es)), Observed(Front(es)));
    }
  }

  /** The first packet that is not clean spoils the samples. */
  lemma UncleanStep(cfg: Config, s: State, r: Observer, p: Packet)
    requires Simulates(cfg, s, r) && !Clean(r, p)
    ensures !SameSamples(cfg, Apply(cfg, s, Deliver(p)), Observe(r, p))
  {
    DisposalFollows(cfg, s, r, p);
    if Answers(r, p) && Registers(r, p) {
      var t, q := Apply(cfg, s, Deliver(p)), Observe(r, p);
      assert t.samples[|s.samples|].time != AsSamples(cfg, q.answers)[|s.samples|].time;
    }
  }

  /** End-to-end exactness, both ways and for every run: the monitor's samples are the response
      times of the exchanges at every moment if and only if the run is clean. */
  lemma {:induction false} ExactIffClean(cfg: Config, es: seq<Event>)
    ensures Exact(cfg, es) <==> CleanRun(es)
  {
    if es == [] {
    } else if CleanRun(es) {
      CleanRunSimulates(cfg, es);
    } else {
      ExactIffClean(cfg, Front(es));
      if CleanRun(Front(es)) {
        CleanRunSimulates(cfg, Front(es));
        UncleanStep(cfg, After(cfg, Front(es)), Observed(Front(es)), Last(es).p);
      }
    }
  }

  // -------------------------------------------------- one sample for each exchange

  /** The samples of connection `k` recorded since the last clearing. */
  function SamplesOf(cfg: Config, es: seq<Event>, k: Key): seq<int> {
    if es == [] || Clears(cfg, es) then []
    else if Disposal(cfg, es).Recorded? && Last(es).p.key == k
    then SamplesOf(cfg, Front(es), k) + [Disposal(cfg, es).sample.time]
    else SamplesOf(cfg, Front(es), k)
  }

  function ResponseTimes(log: seq<Exchange>): seq<int> {
    if log == [] then []
    else ResponseTimes(Front(log)) + if Last(log).answer.Some? then [Last(log).ResponseTime()] else []
  }

  lemma ResponseTimesStep(r: Observer, p: Packet, k: Key)
    ensures ResponseTimes(LogOf(Observe(r, p), k)) == ResponseTimes(LogOf(r, k)) +
      if Answers(r, p) && p.key == k then [Time(p) - Last(LogOf(r, k)).at] else []
  {
    var log, now := LogOf(r, p.key), LogOf(Observe(r, p), p.key);
    if Opens(r, p) {
      assert Front(now) == log;
    } else if Resends(r, p) || Answers(r, p) {
      assert Front(now) == Front(log);
    }
  }

  lemma NothingAnswered(k: Key)
    ensures ResponseTimes(LogOf(NOTHING_SEEN, k)) == []
  {
  }

  /** Each answered request yields exactly one sample, its first response time minus its first
      request time, in the order of the exchanges; a retransmission yields none. */
  lemma {:induction false} OneSamplePerExchange(cfg: Config, es: seq<Event>, k: Key)
    requires CleanRun(es)
    ensures SamplesOf(cfg, es, k) == ResponseTimes(LogOf(Observed(es), k))
  {
    hide Observe, SlotTracks, Exact, Registers, Answers, OutcomeOf, ResponseTimes, Apply;
    NothingAnswered(k);
    if es != [] {
      var pre := Front(es);
      OneSamplePerExchange(cfg, pre, k);
      CleanRunSimulates(cfg, pre);
      if Last(es).Deliver? {
        DisposalFollows(cfg, After(cfg, pre), Observed(pre), Last(es).p);
        ResponseTimesStep(Observed(pre), Last(es).p, k);
      }
    }
  }

}
