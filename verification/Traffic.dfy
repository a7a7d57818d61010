/** Kinds of traffic on which the condition of exactness becomes simple, and runs on which it fails. */
module Traffic {
  import opened Basics
  import opened CArith
  import opened Matching
  import opened Provenance
  import opened Exactness

  // ---------------------------------------------------- numbers that do not wrap

  /** The request's number does not wrap around: its plain order is that of the sequence space. */
  predicate Unwrapped(r: Observer, p: Packet) {
    var log := LogOf(r, p.key);
    p.kind == Request && log != [] ==> (Later(p.sent, Last(log).sent) <==> p.sent > Last(log).sent)
  }

  predicate UnwrappedRun(es: seq<Event>) {
    es != [] ==> UnwrappedRun(Front(es)) && (Last(es).Deliver? ==> Unwrapped(Observed(Front(es)), Last(es).p))
  }

  /** The packet answers nothing, yet acknowledges a number in the latest request's window that exceeds
      all answers: a straggler of an earlier interval that acknowledges the request's first byte
      exactly, or a further acknowledgement of an exchange already answered. */
  predicate Intrudes(r: Observer, p: Packet) {
    var log := LogOf(r, p.key);
    && p.kind == Response && log != [] && !Answers(r, p)
    && Sub32(p.sent, Last(log).sent) <= Last(log).len && p.sent > Top(log)
  }

  /** An answer is later than its request and its number exceeds those of the answers before, and the
      request's number is not zero. An intruder is not later than the request. */
  predicate Orderly(r: Observer, p: Packet) {
    var log := LogOf(r, p.key);
    && (Answers(r, p) ==> Time(p) > Last(log).at && p.sent > Top(log) && Last(log).sent > 0)
    && (Intrudes(r, p) ==> Time(p) <= Last(log).at)
  }

  predicate OrderlyRun(es: seq<Event>) {
    es != [] ==> OrderlyRun(Front(es)) && (Last(es).Deliver? ==> Orderly(Observed(Front(es)), Last(es).p))
  }

  /** The plainly highest request is the latest one. */
  ghost predicate LatestIsHighest(log: seq<Exchange>, h: Held) {
    if log == [] then h == NO_REQUEST
    else
      var e := Last(log);
      if e.sent == 0 then h == NO_REQUEST && e.answer.None? else h == Held(e.sent, e.len, e.at)
  }

  lemma LatestStaysHighest(r: Observer, p: Packet)
    requires LatestIsHighest(LogOf(r, p.key), HighestOf(r, p.key)) && Unwrapped(r, p) && Clean(r, p)
    ensures LatestIsHighest(LogAfter(r, p), HighestAfter(r, p))
  {
  }

  lemma {:induction false} UnwrappedLogs(es: seq<Event>, k: Key)
    requires UnwrappedRun(es) && CleanRun(es)
    ensures LatestIsHighest(LogOf(Observed(es), k), HighestOf(Observed(es), k))
  {
    if es != [] {
      UnwrappedLogs(Front(es), k);
      if Last(es).Deliver? && Last(es).p.key == k {
        LatestStaysHighest(Observed(Front(es)), Last(es).p);
      }
    }
  }

  lemma CleanIsOrderly(r: Observer, p: Packet)
    requires LatestIsHighest(LogOf(r, p.key), HighestOf(r, p.key))
    ensures Clean(r, p) <==> Orderly(r, p)
  {
  }

  lemma {:induction false} CleanIffOrderly(es: seq<Event>)
    requires UnwrappedRun(es)
    ensures CleanRun(es) <==> OrderlyRun(es)
  {
    if es != [] {
      CleanIffOrderly(Front(es));
      if Last(es).Deliver? && CleanRun(Front(es)) {
        UnwrappedLogs(Front(es), Last(es).p.key);
        CleanIsOrderly(Observed(Front(es)), Last(es).p);
      }
    }
  }

  /** Without wrap-around the samples are exact at every moment if and only if the run is orderly. */
  lemma ExactIffOrderly(cfg: Config, es: seq<Event>)
    requires UnwrappedRun(es)
    ensures Exact(cfg, es) <==> OrderlyRun(es)
  {
    ExactIffClean(cfg, es);
    CleanIffOrderly(es);
  }

  /** The monitor accepts a request in the plain order of its number. As long as the numbers of its connection
      have not wrapped, that is right exactly when the number lies within half the space of the latest
      request's, plainly, or is any number but zero and the first of the interval. */
  lemma AcceptanceIsRight(cfg: Config, es: seq<Event>, p: Packet)
    requires UnwrappedRun(es) && CleanRun(es) && p.kind == Request
    ensures var r := Observed(es);
      var log := LogOf(r, p.key);
      (OutcomeOf(cfg, After(cfg, es), p).Accepted? <==> Opens(r, p)) <==>
        if log == [] then p.sent > 0 else -0x8000_0000 <= p.sent - Last(log).sent < 0x8000_0000
  {
    hide OutcomeOf, After, Opens, LatestIsHighest, SlotTracks, SameSamples, Exact;
    CleanRunSimulates(cfg, es);
    DisposalFollows(cfg, After(cfg, es), Observed(es), p);
    UnwrappedLogs(es, p.key);
    OrdersAgree(Observed(es), p);
  }

  lemma OrdersAgree(r: Observer, p: Packet)
    requires p.kind == Request && LatestIsHighest(LogOf(r, p.key), HighestOf(r, p.key))
    ensures var log := LogOf(r, p.key);
      (p.sent > HighestOf(r, p.key).sent <==> Opens(r, p)) <==>
        if log == [] then p.sent > 0 else -0x8000_0000 <= p.sent - Last(log).sent < 0x8000_0000
  {
  }

  // -------------------------------------------------------- stop-and-wait traffic

  /** Traffic as the monitor expects it, losses included: a request starts where the previous one
      ended or further on, or is sent again; a response acknowledges the latest request whole
      or something before it; numbers are positive and do not wrap around, and those sent again are
      within half the sequence space of the latest. */
  predicate StopAndWait(r: Observer, p: Packet) {
    var log := LogOf(r, p.key);
    match p.kind
    case Request =>
      if log == [] || p.sent >= Last(log).End() then
        0 < p.sent && 0 < p.len && p.sent + p.len < TWO32 && (log != [] ==> p.sent - Last(log).sent < 0x8000_0000)
      else 0 <= Last(log).sent - p.sent <= 0x8000_0000
    case Response => log != [] ==> p.sent <= Last(log).sent || p.sent >= Last(log).End()
    case Other => true
  }

  predicate StopAndWaitRun(es: seq<Event>) {
    es != [] ==> StopAndWaitRun(Front(es)) && (Last(es).Deliver? ==> StopAndWait(Observed(Front(es)), Last(es).p))
  }

  /** A response to an earlier request, seen in an earlier interval or not at all till now, that
      acknowledges exactly the bytes before the open request. */
  predicate Straggles(r: Observer, p: Packet) {
    var log := LogOf(r, p.key);
    p.kind == Response && log != [] && Last(log).answer.None? && p.sent == Last(log).sent && Top(Front(log)) < p.sent
  }

  /** The clock separates a first response from its request, and no straggler is later than the open request. */
  predicate Punctual(r: Observer, p: Packet) {
    && (Answers(r, p) ==> Time(p) > Last(LogOf(r, p.key)).at)
    && (Straggles(r, p) ==> Time(p) <= Last(LogOf(r, p.key)).at)
  }

  predicate PunctualRun(es: seq<Event>) {
    es != [] ==> PunctualRun(Front(es)) && (Last(es).Deliver? ==> Punctual(Observed(Front(es)), Last(es).p))
  }

  /** The log of a stop-and-wait connection: requests do not overlap and answers are whole. */
  ghost predicate Contiguous(log: seq<Exchange>) {
    log != [] ==>
      var pre, e := Front(log), Last(log);
      && Contiguous(pre)
      && 0 < e.sent && 0 < e.len && e.End() < TWO32
      && Top(pre) <= e.sent && (pre != [] ==> Last(pre).End() <= e.sent)
      && (e.answer.Some? ==> e.answer.value.ack == e.End())
  }

  lemma ContiguousStep(r: Observer, p: Packet)
    requires Contiguous(LogOf(r, p.key)) && StopAndWait(r, p)
    ensures Contiguous(LogAfter(r, p))
  {
    var log, now := LogOf(r, p.key), LogAfter(r, p);
    if p.kind == Response {
      if Answers(r, p) {
        WindowOffset(Last(log), p.sent);
        assert Front(now) == Front(log);
      }
    } else if Opens(r, p) {
      assert Front(now) == log;
      if log != [] {
        TopWithin(log);
      }
    } else if Resends(r, p) {
      assert Front(now) == Front(log);
    }
  }

  /** Without wrap-around the offset into the window is a plain difference. */
  lemma WindowOffset(e: Exchange, ack: Uint32)
    requires e.End() < TWO32
    ensures Sub32(ack, e.sent) <= e.len <==> e.sent <= ack <= e.End()
    ensures Acknowledges(ack, e) <==> e.sent < ack <= e.End()
  {
    assert Sub32(ack, e.sent) == if ack >= e.sent then ack - e.sent else ack - e.sent + TWO32;
  }

  lemma TopWithin(log: seq<Exchange>)
    requires log != [] && Contiguous(log)
    ensures Top(log) <= Last(log).End() && (Last(log).answer.None? ==> Top(log) == Top(Front(log)) <= Last(log).sent)
  {
  }

  lemma OrderlyIsPunctual(r: Observer, p: Packet)
    requires Contiguous(LogOf(r, p.key)) && StopAndWait(r, p)
    ensures Unwrapped(r, p)
    ensures Orderly(r, p) <==> Punctual(r, p)
  {
    var log := LogOf(r, p.key);
    if log != [] && p.kind == Response {
      WindowOffset(Last(log), p.sent);
      TopWithin(log);
    }
  }

  lemma {:induction false} StopAndWaitLogs(es: seq<Event>, k: Key)
    requires StopAndWaitRun(es)
    ensures Contiguous(LogOf(Observed(es), k))
  {
    if es != [] {
      StopAndWaitLogs(Front(es), k);
      if Last(es).Deliver? && Last(es).p.key == k {
        ContiguousStep(Observed(Front(es)), Last(es).p);
      }
    }
  }

  lemma {:induction false} OrderlyIffPunctual(es: seq<Event>)
    requires StopAndWaitRun(es)
    ensures UnwrappedRun(es)
    ensures OrderlyRun(es) <==> PunctualRun(es)
  {
    if es != [] {
      OrderlyIffPunctual(Front(es));
      if Last(es).Deliver? {
        StopAndWaitLogs(Front(es), Last(es).p.key);
        OrderlyIsPunctual(Observed(Front(es)), Last(es).p);
      }
    }
  }

  lemma CleanIffPunctual(es: seq<Event>)
    requires StopAndWaitRun(es)
    ensures CleanRun(es) <==> PunctualRun(es)
  {
    OrderlyIffPunctual(es);
    CleanIffOrderly(es);
  }

  /** On stop-and-wait traffic, whatever is lost or retransmitted, the samples are exact at every moment if
      and only if the run is punctual. */
  lemma ExactIffPunctual(cfg: Config, es: seq<Event>)
    requires StopAndWaitRun(es)
    ensures Exact(cfg, es) <==> PunctualRun(es)
  {
    ExactIffClean(cfg, es);
    CleanIffPunctual(es);
  }

  // ----------------------------------------------------------- runs that are not exact

  /** A response of the first interval is repeated in the second, where it acknowledges the bytes
      before the next request. */
  function StragglerRun(k: Key): seq<Event> {
    [Deliver(Packet(k, Request, 100, 50, 1, 0, 0)),
     Deliver(Packet(k, Response, 150, 20, 2, 0, 0)),
     Tick,
     Deliver(Packet(k, Request, 150, 10, 9, 0, 0)),
     Deliver(Packet(k, Response, 150, 20, 10, 0, 0))]
  }

  /** On that run the straggler is recorded: a response time that no exchange had. */
  lemma StragglerIsRecorded(cfg: Config, k: Key)
    ensures var es := StragglerRun(k);
      var r, p := Observed(Front(es)), Last(es).p;
      && StopAndWaitRun(es) && PunctualRun(Front(es)) && Exact(cfg, Front(es))
      && Straggles(r, p) && !Answers(r, p)
      && Disposal(cfg, es) == Recorded(Sample(NANOS, ClassOf(cfg, Answer(k, 0, 0, 0))))
      && Observed(es).answers == [] && !Exact(cfg, es)
  {
    hide After, OutcomeOf, StopAndWaitRun, PunctualRun, Exact;
    var es := StragglerRun(k);
    BeforeTheStraggler(k);
    CleanIffPunctual(Front(es));
    CleanRunSimulates(cfg, Front(es));
    DisposalFollows(cfg, After(cfg, Front(es)), Observed(Front(es)), Last(es).p);
    StopAndWaitSnoc(es);
    ExactIffClean(cfg, es);
    assert !Clean(Observed(Front(es)), Last(es).p);
  }

  lemma StopAndWaitSnoc(es: seq<Event>)
    requires es != []
    ensures StopAndWaitRun(es) <==>
      StopAndWaitRun(Front(es)) && (Last(es).Deliver? ==> StopAndWait(Observed(Front(es)), Last(es).p))
    ensures PunctualRun(es) <==>
      PunctualRun(Front(es)) && (Last(es).Deliver? ==> Punctual(Observed(Front(es)), Last(es).p))
  {
  }

  lemma BeforeTheStraggler(k: Key)
    ensures var d := Front(StragglerRun(k));
      && StopAndWaitRun(d) && PunctualRun(d)
      && LogOf(Observed(d), k) == [Exchange(150, 10, 9 * NANOS, 0, None)] && Observed(d).answers == []
      && HighestOf(Observed(d), k) == Held(150, 10, 9 * NANOS)
  {
    hide StopAndWaitRun, PunctualRun, Observed, CleanRun;
    var es := StragglerRun(k);
    var a, b, c, d := es[..1], es[..2], es[..3], es[..4];
    assert Front(a) == [] && Front(b) == a && Front(c) == b && Front(d) == c && Front(es) == d;
    QuietRun();
    NothingYet(k);
    FirstRequest(a, es[0].p);
    StopAndWaitSnoc(a);
    OneMore(b, es[1].p);
    StopAndWaitSnoc(b);
    TickForgets(c);
    StopAndWaitSnoc(c);
    OneMore(d, es[3].p);
    StopAndWaitSnoc(d);
  }

  lemma TickForgets(es: seq<Event>)
    requires es != [] && Last(es).Tick? && Observed(Front(es)).answers != []
    ensures Observed(es) == NOTHING_SEEN
  {
  }

  lemma QuietRun()
    ensures StopAndWaitRun([]) && PunctualRun([])
  {
  }

  /** A request, then one sent again from before the wrap, then the answer to the first. */
  function StaleRun(k: Key): seq<Event> {
    [Deliver(Packet(k, Request, 10, 30, 1, 0, 0)),
     Deliver(Packet(k, Request, TWO32 - 50, 40, 2, 0, 0)),
     Deliver(Packet(k, Response, 40, 20, 3, 0, 0))]
  }

  /** One packet of a run, in the terms of its connection. */
  lemma OneMore(es: seq<Event>, p: Packet)
    requires es != [] && Last(es) == Deliver(p)
    ensures var r, q := Observed(Front(es)), Observed(es);
      && LogOf(q, p.key) == LogAfter(r, p) && HighestOf(q, p.key) == HighestAfter(r, p)
      && q.answers == r.answers + (if Answers(r, p)
           then [Answer(p.key, Time(p) - Last(LogOf(r, p.key)).at, Last(LogOf(r, p.key)).pri, p.pri)] else [])
      && (CleanRun(es) <==> CleanRun(Front(es)) && Clean(r, p))
  {
  }

  lemma NothingYet(k: Key)
    ensures CleanRun([]) && LogOf(Observed([]), k) == [] && HighestOf(Observed([]), k) == NO_REQUEST && Observed([]).answers == []
  {
  }

  lemma FirstRequest(es: seq<Event>, p: Packet)
    requires es == [Deliver(p)] && p.kind == Request && p.sent > 0
    ensures CleanRun(es) && Observed(es).answers == []
    ensures LogOf(Observed(es), p.key) == [Exchange(p.sent, p.len, Time(p), p.pri, None)]
    ensures HighestOf(Observed(es), p.key) == Held(p.sent, p.len, Time(p))
  {
    hide Observed, CleanRun;
    assert Front(es) == [];
    NothingYet(p.key);
    OneMore(es, p);
  }

  /** The stale request displaces the open one, whose answer is then missed. */
  lemma StaleRequestHidesAnswer(cfg: Config, k: Key)
    ensures var es := StaleRun(k);
      && Exact(cfg, Front(es)) && Answers(Observed(Front(es)), Last(es).p)
      && !Disposal(cfg, es).Recorded? && After(cfg, es).samples == [] && Observed(es).answers == [Answer(k, 2 * NANOS, 0, 0)]
      && !Exact(cfg, es)
  {
    hide After, Exact, Disposal, Observed, CleanRun;
    var es := StaleRun(k);
    var a, b := es[..1], es[..2];
    assert Front(b) == a && Front(es) == b;
    FirstRequest(a, es[0].p);
    OneMore(b, es[1].p);
    OneMore(es, es[2].p);
    LastAnswerIsMissed(cfg, es);
  }

  /** Two answered requests on either side of the wrap; the one across it was not seen. */
  function WrapRun(k: Key): seq<Event> {
    [Deliver(Packet(k, Request, TWO32 - 50, 40, 1, 0, 0)),
     Deliver(Packet(k, Response, TWO32 - 10, 20, 2, 0, 0)),
     Deliver(Packet(k, Request, 10, 30, 4, 0, 0)),
     Deliver(Packet(k, Response, 40, 20, 7, 0, 0))]
  }

  /** The request after the wrap counts as a retransmission, and its answer is missed. */
  lemma WrappedRequestIsMissed(cfg: Config, k: Key)
    ensures var es := WrapRun(k);
      && Exact(cfg, Front(es)) && Answers(Observed(Front(es)), Last(es).p)
      && !Disposal(cfg, es).Recorded? && |After(cfg, es).samples| == 1
      && Observed(es).answers == [Answer(k, NANOS, 0, 0), Answer(k, 3 * NANOS, 0, 0)]
      && !Exact(cfg, es)
  {
    hide After, Exact, Disposal, Observed, CleanRun;
    var es := WrapRun(k);
    var a, b, c := es[..1], es[..2], es[..3];
    assert Front(b) == a && Front(c) == b && Front(es) == c;
    FirstRequest(a, es[0].p);
    assert Top(LogOf(Observed(a), k)) == 0 by {
      assert Front(LogOf(Observed(a), k)) == [];
    }
    OneMore(b, es[1].p);
    OneMore(c, es[2].p);
    OneMore(es, es[3].p);
    LastAnswerIsMissed(cfg, es);
  }

  /** A clean run that ends in an answer the monitor does not register. */
  lemma LastAnswerIsMissed(cfg: Config, es: seq<Event>)
    requires es != [] && Last(es).Deliver? && CleanRun(Front(es))
    requires Answers(Observed(Front(es)), Last(es).p) && !Registers(Observed(Front(es)), Last(es).p)
    ensures Exact(cfg, Front(es)) && !Disposal(cfg, es).Recorded? && !Exact(cfg, es)
    ensures After(cfg, es).samples == After(cfg, Front(es)).samples
    ensures |After(cfg, es).samples| == |Observed(Front(es)).answers|
  {
    CleanRunSimulates(cfg, Front(es));
    DisposalFollows(cfg, After(cfg, Front(es)), Observed(Front(es)), Last(es).p);
    ExactIffClean(cfg, es);
  }
}
