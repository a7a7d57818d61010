/** From the wire to the reports: the matching machine fed by the pipeline, ticks included. Whatever the
    interleaving of the cores and wherever the ticks fall, each interval holds, connection by
    connection, the response times of the frames that its queue delivered in that interval. */
module EndToEnd {
  import opened Basics
  import opened Matching
  import opened Exactness
  import opened Frames
  import opened Pipeline
  import opened PipelineTheorems
  import opened Report
  import Serving
  import Monitor

  // ---------------------------------------------- the reference, connection by connection

  /** The packets of connection `k` among `ps`. */
  function Of(ps: seq<Matching.Packet>, k: Key): seq<Matching.Packet> {
    if ps == [] then []
    else if Last(ps).key == k then Of(Front(ps), k) + [Last(ps)]
    else Of(Front(ps), k)
  }

  /** A run without ticks. */
  function Delivered(ps: seq<Matching.Packet>): seq<Event> {
    if ps == [] then [] else Delivered(Front(ps)) + [Deliver(Last(ps))]
  }

  /** The packets since the last tick that found something to report. */
  function Since(es: seq<Event>): seq<Matching.Packet> {
    if es == [] then []
    else
      match Last(es)
      case Deliver(p) => Since(Front(es)) + [p]
      case Tick => if Observed(Front(es)).answers != [] then [] else Since(Front(es))
  }

  /** What connection `k` has sent in the current interval, as a run of its own. */
  function Alone(es: seq<Event>, k: Key): seq<Event> {
    Delivered(Of(Since(es), k))
  }

  function AnswersTo(answers: seq<Answer>, k: Key): seq<Answer> {
    if answers == [] then []
    else if Last(answers).key == k then AnswersTo(Front(answers), k) + [Last(answers)]
    else AnswersTo(Front(answers), k)
  }

  lemma AloneStep(es: seq<Event>, k: Key)
    requires es != []
    ensures match Last(es)
      case Tick => Alone(es, k) == if Observed(Front(es)).answers != [] then [] else Alone(Front(es), k)
      case Deliver(p) =>
        if p.key == k then Alone(es, k) != [] && Front(Alone(es, k)) == Alone(Front(es), k) && Last(Alone(es, k)) == Deliver(p)
        else Alone(es, k) == Alone(Front(es), k)
  {
    if Last(es).Deliver? {
      var ps := Since(es);
      assert Front(ps) == Since(Front(es)) && Last(ps) == Last(es).p;
      if Last(ps).key == k {
        var own := Of(ps, k);
        assert Front(own) == Of(Front(ps), k) && Last(own) == Last(ps);
      }
    }
  }

  /** A connection's log and its answers depend on its own packets of the interval only. */
  lemma {:induction false} ReferenceIsLocal(es: seq<Event>, k: Key)
    ensures LogOf(Observed(es), k) == LogOf(Observed(Alone(es, k)), k)
    ensures HighestOf(Observed(es), k) == HighestOf(Observed(Alone(es, k)), k)
    ensures AnswersTo(Observed(es).answers, k) == Observed(Alone(es, k)).answers
  {
    hide Alone;
    if es == [] {
      AloneAtStart(k);
    } else {
      AloneStep(es, k);
      ReferenceIsLocal(Front(es), k);
      if Last(es).Deliver? {
        AnswersStep(Observed(Front(es)), Last(es).p, k);
        if Last(es).p.key == k {
          SameLogSameAnswer(Observed(Front(es)), Observed(Alone(Front(es), k)), Last(es).p);
        }
      }
    }
  }

  lemma AloneAtStart(k: Key)
    ensures Alone([], k) == []
  {
  }

  lemma AnswersStep(r: Observer, p: Matching.Packet, k: Key)
    ensures AnswersTo(Observe(r, p).answers, k) == AnswersTo(r.answers, k) +
      if p.key == k then Observe(r, p).answers[|r.answers|..] else []
    ensures |r.answers| <= |Observe(r, p).answers|
    ensures p.key != k ==> LogOf(Observe(r, p), k) == LogOf(r, k) && HighestOf(Observe(r, p), k) == HighestOf(r, k)
  {
    var now := Observe(r, p).answers;
    if Answers(r, p) {
      assert Front(now) == r.answers;
    }
  }

  /** What a packet does to its connection depends on the connection's log only. */
  lemma SameLogSameAnswer(r: Observer, t: Observer, p: Matching.Packet)
    requires LogOf(r, p.key) == LogOf(t, p.key) && HighestOf(r, p.key) == HighestOf(t, p.key)
    ensures LogOf(Observe(r, p), p.key) == LogOf(Observe(t, p), p.key)
    ensures HighestOf(Observe(r, p), p.key) == HighestOf(Observe(t, p), p.key)
    ensures |r.answers| <= |Observe(r, p).answers| && |t.answers| <= |Observe(t, p).answers|
    ensures Observe(t, p).answers == t.answers + Observe(r, p).answers[|r.answers|..]
    ensures Clean(r, p) == Clean(t, p)
  {
  }

  lemma CleanSnoc(es: seq<Event>)
    requires es != []
    ensures CleanRun(es) <==> CleanRun(Front(es)) && (Last(es).Deliver? ==> Clean(Observed(Front(es)), Last(es).p))
  {
  }

  /** Whether connection `k` is clean up to the last event. */
  lemma CleanAlone(es: seq<Event>, k: Key)
    requires es != [] && CleanRun(Alone(Front(es), k))
    ensures CleanRun(Alone(es, k)) <==>
      (Last(es).Deliver? && Last(es).p.key == k ==> Clean(Observed(Front(es)), Last(es).p))
  {
    hide Alone, CleanRun, Clean;
    AloneStep(es, k);
    NothingIsClean();
    if Last(es).Deliver? && Last(es).p.key == k {
      ReferenceIsLocal(Front(es), k);
      SameLogSameAnswer(Observed(Front(es)), Observed(Alone(Front(es), k)), Last(es).p);
      CleanSnoc(Alone(es, k));
    }
  }

  lemma NothingIsClean()
    ensures CleanRun([])
  {
  }

  /** A run is clean if and only if every single connection is clean in every interval: no interleaving
      of connections can spoil it. */
  lemma {:induction false} CleanIsLocal(es: seq<Event>)
    ensures CleanRun(es) ==> forall n, k :: 0 <= n <= |es| ==> CleanRun(Alone(es[..n], k))
    ensures (forall n, k :: 0 <= n <= |es| ==> CleanRun(Alone(es[..n], k))) ==> CleanRun(es)
  {
    hide Alone, CleanRun, Clean;
    if es == [] {
      NothingIsClean();
      forall n, k | 0 <= n <= |es|
        ensures CleanRun(Alone(es[..n], k))
      {
        AloneAtStart(k);
      }
    } else {
      var pre := Front(es);
      CleanIsLocal(pre);
      CleanSnoc(es);
      assert forall n :: 0 <= n <= |pre| ==> es[..n] == pre[..n];
      assert es[..|es|] == es && es[..|pre|] == pre;
      if CleanRun(es) {
        forall n, k | 0 <= n <= |es|
          ensures CleanRun(Alone(es[..n], k))
        {
          assert CleanRun(Alone(pre[..|pre|], k));
          if n == |es| {
            CleanAlone(es, k);
          } else {
            assert CleanRun(Alone(pre[..n], k));
          }
        }
      }
      if forall n, k :: 0 <= n <= |es| ==> CleanRun(Alone(es[..n], k)) {
        forall n, k | 0 <= n <= |pre|
          ensures CleanRun(Alone(pre[..n], k))
        {
          assert CleanRun(Alone(es[..n], k));
        }
        if Last(es).Deliver? {
          var k := Last(es).p.key;
          assert CleanRun(Alone(es[..|es|], k)) && CleanRun(Alone(es[..|pre|], k));
          CleanAlone(es, k);
        }
      }
    }
  }

  /** Without ticks: packets are clean if and only if each connection's are. */
  lemma {:induction false} TickFreeIsLocal(ps: seq<Matching.Packet>)
    ensures CleanRun(Delivered(ps)) ==> forall k :: CleanRun(Delivered(Of(ps, k)))
    ensures (forall k :: CleanRun(Delivered(Of(ps, k)))) ==> CleanRun(Delivered(ps))
  {
    hide CleanRun, Clean;
    if ps == [] {
      NothingIsClean();
      assert forall k :: Of(ps, k) == [];
    } else {
      var es, pre := Delivered(ps), Delivered(Front(ps));
      assert Front(es) == pre && Last(es) == Deliver(Last(ps));
      TickFreeIsLocal(Front(ps));
      SinceDelivered(ps);
      SinceDelivered(Front(ps));
      CleanSnoc(es);
      forall k | CleanRun(Alone(pre, k))
        ensures CleanRun(Delivered(Of(ps, k))) <==> (Last(ps).key == k ==> Clean(Observed(pre), Last(ps)))
      {
        CleanAlone(es, k);
      }
      if forall k :: CleanRun(Delivered(Of(ps, k))) {
        forall k
          ensures CleanRun(Delivered(Of(Front(ps), k)))
        {
          assert CleanRun(Delivered(Of(ps, k)));
          OwnPrefixIsClean(ps, k);
        }
        assert CleanRun(Delivered(Of(ps, Last(ps).key)));
      }
    }
  }

  lemma OwnPrefixIsClean(ps: seq<Matching.Packet>, k: Key)
    requires ps != [] && CleanRun(Delivered(Of(ps, k)))
    ensures CleanRun(Delivered(Of(Front(ps), k)))
  {
    if Last(ps).key == k {
      var own := Of(ps, k);
      assert Front(own) == Of(Front(ps), k);
      assert Front(Delivered(own)) == Delivered(Front(own));
    }
  }

  lemma {:induction false} SinceDelivered(ps: seq<Matching.Packet>)
    ensures Since(Delivered(ps)) == ps
  {
    if ps != [] {
      var es := Delivered(ps);
      assert Front(es) == Delivered(Front(ps)) && Last(es) == Deliver(Last(ps));
      SinceDelivered(Front(ps));
    }
  }

  // ------------------------------------------------------ what the monitor is fed

  /** What the monitor sees: an entry taken from queue `q`, or a tick. */
  datatype Seen = Taken(q: nat, p: Matching.Packet) | Ticked

  /** What it sees during a sequence of steps, in order. */
  ghost function Fed(c: Params, s: System, acts: seq<Action>): seq<Seen>
    requires Inv(c, s) && SafeRun(c, s, acts)
    decreases |acts|
  {
    if acts == [] then []
    else
      var fed, t := Fed(c, s, Front(acts)), RunFrom(c, s, Front(acts));
      if Last(acts).Tick? then fed + [Ticked]
      else if Last(acts).Mon? && t.monPc.MonTake? then fed + [Taken(t.monAt, Head(t.lanes[t.monAt].pr))]
      else fed
  }

  /** The same as a run of the matching machine. */
  function Events(fed: seq<Seen>): (es: seq<Event>)
    ensures |es| == |fed|
  {
    if fed == [] then []
    else Events(Front(fed)) + [match Last(fed) { case Taken(_, p) => Deliver(p) case Ticked => Event.Tick }]
  }

  /** The entries that came from queue `q`. */
  function From(fed: seq<Seen>, q: nat): seq<Matching.Packet> {
    if fed == [] then []
    else if Last(fed).Taken? && Last(fed).q == q then From(Front(fed), q) + [Last(fed).p]
    else From(Front(fed), q)
  }

  /** The monitor is fed an interleaving of the queues: from each, what it has consumed. */
  lemma {:induction false} FedIsConsumed(c: Params, s: System, acts: seq<Action>, q: nat)
    requires Inv(c, s) && SafeRun(c, s, acts) && q < c.rxQue
    ensures |s.lanes| == |RunFrom(c, s, acts).lanes| == c.rxQue
    ensures RunFrom(c, s, acts).lanes[q].consumed == s.lanes[q].consumed + From(Fed(c, s, acts), q)
    decreases |acts|
  {
    hide Inv, Step;
    LaneHolds(c, s, q);
    if acts != [] {
      var pre := Front(acts);
      var t, fed := RunFrom(c, s, pre), Fed(c, s, acts);
      FedIsConsumed(c, s, pre, q);
      if Last(acts).Mon? {
        MonConsumes(c, t, q);
      } else {
        OthersOnlyProduce(c, t, q, Last(acts));
      }
      if Last(acts).Tick? || (Last(acts).Mon? && t.monPc.MonTake?) {
        assert Front(fed) == Fed(c, s, pre);
      }
    }
  }

  lemma ReachedLanes(c: Params, t: System)
    requires Inv(c, t)
    ensures |t.lanes| == c.rxQue && t.monAt < c.rxQue
  {
  }

  lemma {:induction false} FedFromQueues(c: Params, s: System, acts: seq<Action>)
    requires Inv(c, s) && SafeRun(c, s, acts)
    ensures forall i :: 0 <= i < |Fed(c, s, acts)| && Fed(c, s, acts)[i].Taken? ==> Fed(c, s, acts)[i].q < c.rxQue
    decreases |acts|
  {
    hide Inv;
    if acts != [] {
      FedFromQueues(c, s, Front(acts));
      ReachedLanes(c, RunFrom(c, s, Front(acts)));
    }
  }

  // ------------------------------------------------------------------- intervals

  /** What queue `q` delivered since the last tick that found something to report. */
  function Recent(fed: seq<Seen>, q: nat): seq<Matching.Packet> {
    if fed == [] then []
    else
      match Last(fed)
      case Ticked => if Observed(Events(Front(fed))).answers != [] then [] else Recent(Front(fed), q)
      case Taken(p, e) => if p == q then Recent(Front(fed), q) + [e] else Recent(Front(fed), q)
  }

  /** What it delivered in each interval that was reported. */
  function Slices(fed: seq<Seen>, q: nat): seq<seq<Matching.Packet>> {
    if fed == [] then []
    else if Last(fed).Ticked? && Observed(Events(Front(fed))).answers != []
    then Slices(Front(fed), q) + [Recent(Front(fed), q)]
    else Slices(Front(fed), q)
  }

  function Flatten(slices: seq<seq<Matching.Packet>>): seq<Matching.Packet> {
    if slices == [] then [] else Flatten(Front(slices)) + Last(slices)
  }

  lemma EventsStep(fed: seq<Seen>)
    requires fed != []
    ensures Front(Events(fed)) == Events(Front(fed))
    ensures Last(Events(fed)) == match Last(fed) { case Taken(_, p) => Deliver(p) case Ticked => Event.Tick }
  {
  }

  /** The slices of the reported intervals and the current one cut what was consumed into consecutive
      pieces, one for each report. */
  lemma {:induction false} SlicesPartition(fed: seq<Seen>, q: nat)
    ensures Flatten(Slices(fed, q)) + Recent(fed, q) == From(fed, q)
    ensures |Slices(fed, q)| == |Serving.Published(Events(fed))|
  {
    if fed != [] {
      EventsStep(fed);
      SlicesPartition(Front(fed), q);
      if Last(fed).Ticked? && Observed(Events(Front(fed))).answers != [] {
        assert Front(Slices(fed, q)) == Slices(Front(fed), q);
      }
    }
  }

  /** A connection that comes from one queue sends, in the current interval, what that queue delivered of it. */
  lemma {:induction false} SinceIsRecent(fed: seq<Seen>, q: nat, k: Key)
    requires forall i :: 0 <= i < |fed| && fed[i].Taken? && fed[i].p.key == k ==> fed[i].q == q
    ensures Of(Since(Events(fed)), k) == Of(Recent(fed, q), k)
  {
    if fed != [] {
      EventsStep(fed);
      SinceIsRecent(Front(fed), q, k);
      if Last(fed).Taken? {
        var ps, rs := Since(Events(fed)), Recent(fed, q);
        assert Front(ps) == Since(Events(Front(fed))) && Last(ps) == Last(fed).p;
        if Last(fed).q == q {
          assert Front(rs) == Recent(Front(fed), q) && Last(rs) == Last(fed).p;
        }
      }
    }
  }

  // ------------------------------------------------------------------- steering

  /** Every connection's entries come from one queue. */
  ghost predicate SteeredFeed(fed: seq<Seen>, steer: Key -> nat) {
    forall i :: 0 <= i < |fed| && fed[i].Taken? ==> steer(fed[i].p.key) == fed[i].q
  }

  lemma {:induction false} OfNone(ps: seq<Matching.Packet>, k: Key)
    requires forall i :: 0 <= i < |ps| ==> ps[i].key != k
    ensures Of(ps, k) == []
  {
    if ps != [] {
      OfNone(Front(ps), k);
    }
  }

  lemma {:induction false} RecentIsSteered(fed: seq<Seen>, steer: Key -> nat, q: nat)
    requires SteeredFeed(fed, steer)
    ensures forall i :: 0 <= i < |Recent(fed, q)| ==> steer(Recent(fed, q)[i].key) == q
  {
    if fed != [] {
      RecentIsSteered(Front(fed), steer, q);
    }
  }

  /** A queue's current slice is clean exactly when the connections steered to it are. */
  lemma SliceIsLocal(fed: seq<Seen>, steer: Key -> nat, q: nat)
    requires SteeredFeed(fed, steer)
    ensures CleanRun(Delivered(Recent(fed, q))) ==> forall k :: steer(k) == q ==> CleanRun(Alone(Events(fed), k))
    ensures (forall k :: steer(k) == q ==> CleanRun(Alone(Events(fed), k))) ==> CleanRun(Delivered(Recent(fed, q)))
  {
    hide CleanRun, Recent, Since, Delivered;
    var ps := Recent(fed, q);
    RecentIsSteered(fed, steer, q);
    TickFreeIsLocal(ps);
    forall k
      ensures steer(k) == q ==> Alone(Events(fed), k) == Delivered(Of(ps, k))
      ensures steer(k) != q ==> CleanRun(Delivered(Of(ps, k)))
    {
      if steer(k) == q {
        SinceIsRecent(fed, q, k);
      } else {
        OfNone(ps, k);
        NothingIsDelivered();
      }
    }
    if forall k :: steer(k) == q ==> CleanRun(Alone(Events(fed), k)) {
      forall k
        ensures CleanRun(Delivered(Of(ps, k)))
      {
        if steer(k) == q {
          assert CleanRun(Alone(Events(fed), k));
        }
      }
    }
  }

  lemma NothingIsDelivered()
    ensures CleanRun(Delivered([]))
  {
  }

  lemma {:induction false} EventsPrefix(fed: seq<Seen>, n: nat)
    requires n <= |fed|
    ensures Events(fed)[..n] == Events(fed[..n])
  {
    if n == |fed| {
      assert fed[..n] == fed;
    } else {
      EventsPrefix(Front(fed), n);
      assert Front(fed)[..n] == fed[..n];
    }
  }

  lemma {:induction false} FromPrefix(fed: seq<Seen>, n: nat, q: nat)
    requires n <= |fed|
    ensures From(fed[..n], q) <= From(fed, q)
  {
    if n == |fed| {
      assert fed[..n] == fed;
    } else {
      FromPrefix(Front(fed), n, q);
      assert Front(fed)[..n] == fed[..n];
    }
  }

  /** At every moment, what each queue has delivered in the interval so far is clean. */
  ghost predicate CleanIntervals(fed: seq<Seen>) {
    forall n, q :: 0 <= n <= |fed| && 0 <= q ==> CleanRun(Delivered(Recent(fed[..n], q)))
  }

  /** The monitor's run is clean if and only if every queue is, interval by interval. */
  lemma CleanIffIntervalsClean(fed: seq<Seen>, steer: Key -> nat)
    requires SteeredFeed(fed, steer)
    ensures CleanRun(Events(fed)) ==> CleanIntervals(fed)
    ensures CleanIntervals(fed) ==> CleanRun(Events(fed))
  {
    hide CleanRun, Alone, Recent, Delivered;
    CleanIsLocal(Events(fed));
    forall n | 0 <= n <= |fed|
      ensures SteeredFeed(fed[..n], steer) && Events(fed)[..n] == Events(fed[..n])
    {
      EventsPrefix(fed, n);
    }
    if CleanRun(Events(fed)) {
      forall n, q: nat | 0 <= n <= |fed|
        ensures CleanRun(Delivered(Recent(fed[..n], q)))
      {
        assert forall k :: CleanRun(Alone(Events(fed)[..n], k));
        SliceIsLocal(fed[..n], steer, q);
      }
    }
    if CleanIntervals(fed) {
      forall n, k | 0 <= n <= |Events(fed)|
        ensures CleanRun(Alone(Events(fed)[..n], k))
      {
        assert CleanRun(Delivered(Recent(fed[..n], steer(k))));
        SliceIsLocal(fed[..n], steer, steer(k));
      }
    }
  }

  // ------------------------------------------------------------------ the theorems

  /** Every connection's frames arrive on one queue. */
  ghost predicate Steered(c: Params, s: System, steer: Key -> nat) {
    forall q, i :: 0 <= q < |s.lanes| && 0 <= i < |Entries(c, s.lanes[q].accepted)| ==>
      steer(Entries(c, s.lanes[q].accepted)[i].key) == q
  }

  /** However a queue's entries are cut into intervals, each piece is clean. */
  ghost predicate CleanArrivals(c: Params, s: System) {
    forall q, i, j :: 0 <= q < |s.lanes| && 0 <= i <= j <= |Entries(c, s.lanes[q].accepted)| ==>
      CleanRun(Delivered(Entries(c, s.lanes[q].accepted)[i..j]))
  }

  /** What the monitor sees from power-on. */
  ghost function Watched(c: Params, f: Frame, e: Matching.Packet, acts: seq<Action>): seq<Seen>
    requires Boots(c, f, e, acts)
  {
    StartInv(c, f, e);
    Fed(c, Start(c, f, e), acts)
  }

  /** What it took from a queue is what it consumed, a prefix of what arrived there. */
  lemma WatchedIsFifo(c: Params, f: Frame, e: Matching.Packet, acts: seq<Action>, q: nat)
    requires Boots(c, f, e, acts) && q < c.rxQue
    ensures var t := Reached(c, f, e, acts);
      && |t.lanes| == c.rxQue
      && From(Watched(c, f, e, acts), q) == t.lanes[q].consumed <= Entries(c, t.lanes[q].accepted)
  {
    hide Inv, Entries, LaneInv, Step;
    StartInv(c, f, e);
    StartIsEmpty(c, f, e, q);
    FedIsConsumed(c, Start(c, f, e), acts, q);
    ConsumedIsFifoPrefix(c, f, e, acts, q);
  }

  lemma StartIsEmpty(c: Params, f: Frame, e: Matching.Packet, q: nat)
    requires Sensible(c) && q < c.rxQue
    ensures Start(c, f, e).lanes[q].consumed == []
  {
  }

  lemma {:induction false} TakenComesFrom(fed: seq<Seen>, i: nat)
    requires i < |fed| && fed[i].Taken?
    ensures fed[i].p in From(fed, fed[i].q)
  {
    if i < |fed| - 1 {
      TakenComesFrom(Front(fed), i);
    }
  }

  lemma WatchedIsSteered(c: Params, f: Frame, e: Matching.Packet, acts: seq<Action>, steer: Key -> nat)
    requires Boots(c, f, e, acts) && Steered(c, Reached(c, f, e, acts), steer)
    ensures SteeredFeed(Watched(c, f, e, acts), steer)
    ensures forall i :: 0 <= i < |Watched(c, f, e, acts)| && Watched(c, f, e, acts)[i].Taken? ==>
      Watched(c, f, e, acts)[i].q < c.rxQue
  {
    hide Inv, Start, Entries;
    StartInv(c, f, e);
    var fed, t := Watched(c, f, e, acts), Reached(c, f, e, acts);
    FedFromQueues(c, Start(c, f, e), acts);
    forall i | 0 <= i < |fed| && fed[i].Taken?
      ensures steer(fed[i].p.key) == fed[i].q
    {
      var q := fed[i].q;
      WatchedIsFifo(c, f, e, acts, q);
      TakenComesFrom(fed, i);
      var j :| 0 <= j < |t.lanes[q].consumed| && t.lanes[q].consumed[j] == fed[i].p;
      assert Entries(c, t.lanes[q].accepted)[j] == fed[i].p;
    }
  }

  /** All the packets the monitor was fed. */
  function Packets(fed: seq<Seen>): seq<Matching.Packet> {
    if fed == [] then []
    else if Last(fed).Taken? then Packets(Front(fed)) + [Last(fed).p]
    else Packets(Front(fed))
  }

  lemma {:induction false} OwnPackets(fed: seq<Seen>, steer: Key -> nat, k: Key)
    requires SteeredFeed(fed, steer)
    ensures Of(Packets(fed), k) == Of(From(fed, steer(k)), k)
  {
    if fed != [] {
      OwnPackets(Front(fed), steer, k);
      if Last(fed).Taken? {
        assert Front(Packets(fed)) == Packets(Front(fed)) && Last(Packets(fed)) == Last(fed).p;
        if Last(fed).q == steer(k) {
          assert Front(From(fed, steer(k))) == From(Front(fed), steer(k));
        }
      }
    }
  }

  /** A connection's packets reach the monitor in the order of their frames. */
  lemma ConnectionInOrder(c: Params, f: Frame, e: Matching.Packet, acts: seq<Action>, steer: Key -> nat, k: Key)
    requires Boots(c, f, e, acts) && Steered(c, Reached(c, f, e, acts), steer) && steer(k) < c.rxQue
    ensures var t := Reached(c, f, e, acts);
      && |t.lanes| == c.rxQue && t.lanes[steer(k)].consumed <= Entries(c, t.lanes[steer(k)].accepted)
      && Of(Packets(Watched(c, f, e, acts)), k) == Of(t.lanes[steer(k)].consumed, k)
  {
    hide Watched, SteeredFeed, Entries, Of, Packets;
    WatchedIsSteered(c, f, e, acts, steer);
    WatchedIsFifo(c, f, e, acts, steer(k));
    OwnPackets(Watched(c, f, e, acts), steer, k);
  }

  /** The law, both ways, for every interleaving of the cores and every placing of the ticks: the samples
      are exact at every moment if and only if every queue's share of every interval is clean. */
  lemma ExactIffIntervalsClean(cfg: Config, c: Params, f: Frame, e: Matching.Packet, acts: seq<Action>, steer: Key -> nat)
    requires Boots(c, f, e, acts) && Steered(c, Reached(c, f, e, acts), steer)
    ensures Exact(cfg, Events(Watched(c, f, e, acts))) ==> CleanIntervals(Watched(c, f, e, acts))
    ensures CleanIntervals(Watched(c, f, e, acts)) ==> Exact(cfg, Events(Watched(c, f, e, acts)))
  {
    hide Watched, Exact, CleanRun, CleanIntervals, SteeredFeed;
    var fed := Watched(c, f, e, acts);
    WatchedIsSteered(c, f, e, acts, steer);
    CleanIffIntervalsClean(fed, steer);
    ExactIffClean(cfg, Events(fed));
  }

  /** A queue's share of an interval is a contiguous piece of its arrivals. */
  lemma RecentIsPiece(fed: seq<Seen>, n: nat, q: nat, all: seq<Matching.Packet>) returns (i: nat, j: nat)
    requires n <= |fed| && From(fed, q) <= all
    ensures i <= j <= |all| && Recent(fed[..n], q) == all[i..j]
  {
    FromPrefix(fed, n, q);
    SlicesPartition(fed[..n], q);
    j := |From(fed[..n], q)|;
    i := |Flatten(Slices(fed[..n], q))|;
    assert From(fed[..n], q) == all[..j];
  }

  /** So while each queue's share of each interval is clean, the samples are exact at every moment, and those of
      a connection are the response times of the exchanges in its queue's share of the interval. */
  lemma SamplesAreExact(cfg: Config, c: Params, f: Frame, e: Matching.Packet, acts: seq<Action>, steer: Key -> nat)
    requires Boots(c, f, e, acts)
    requires Steered(c, Reached(c, f, e, acts), steer) && CleanIntervals(Watched(c, f, e, acts))
    ensures var fed := Watched(c, f, e, acts);
      && CleanRun(Events(fed)) && Exact(cfg, Events(fed))
      && forall k :: SamplesOf(cfg, Events(fed), k) ==
           ResponseTimes(LogOf(Observed(Delivered(Of(Recent(fed, steer(k)), k))), k))
  {
    hide Watched, Exact, CleanRun, CleanIntervals, Recent, Delivered, SteeredFeed, SamplesOf, ResponseTimes, Since, Of;
    var fed := Watched(c, f, e, acts);
    WatchedIsSteered(c, f, e, acts, steer);
    CleanIffIntervalsClean(fed, steer);
    ExactIffClean(cfg, Events(fed));
    forall k
      ensures SamplesOf(cfg, Events(fed), k) ==
        ResponseTimes(LogOf(Observed(Delivered(Of(Recent(fed, steer(k)), k))), k))
    {
      OneSamplePerExchange(cfg, Events(fed), k);
      ReferenceIsLocal(Events(fed), k);
      OwnShare(fed, steer, k);
    }
  }

  lemma OwnShare(fed: seq<Seen>, steer: Key -> nat, k: Key)
    requires SteeredFeed(fed, steer)
    ensures Of(Since(Events(fed)), k) == Of(Recent(fed, steer(k)), k)
  {
    SinceIsRecent(fed, steer(k), k);
  }

  /** Arrivals that are clean however they are cut are clean under every schedule and every placing of the ticks. */
  lemma CleanUnderEverySchedule(c: Params, f: Frame, e: Matching.Packet, acts: seq<Action>, steer: Key -> nat)
    requires Boots(c, f, e, acts)
    requires Steered(c, Reached(c, f, e, acts), steer) && CleanArrivals(c, Reached(c, f, e, acts))
    ensures CleanIntervals(Watched(c, f, e, acts))
  {
    hide Watched, CleanRun, Recent, Delivered, SteeredFeed, Entries;
    var fed, t := Watched(c, f, e, acts), Reached(c, f, e, acts);
    WatchedIsSteered(c, f, e, acts, steer);
    forall n, q: nat | 0 <= n <= |fed|
      ensures CleanRun(Delivered(Recent(fed[..n], q)))
    {
      if q < c.rxQue {
        WatchedIsFifo(c, f, e, acts, q);
        var i, j := RecentIsPiece(fed, n, q, Entries(c, t.lanes[q].accepted));
      } else {
        NothingRecent(fed[..n], q);
        NothingIsDelivered();
      }
    }
  }

  lemma {:induction false} NothingRecent(fed: seq<Seen>, q: nat)
    requires forall i :: 0 <= i < |fed| && fed[i].Taken? ==> fed[i].q != q
    ensures Recent(fed, q) == []
  {
    if fed != [] {
      NothingRecent(Front(fed), q);
    }
  }

  /** Each published interval holds, of connection `k`, the answers among its piece and nothing else. */
  ghost predicate HoldsOwn(published: seq<seq<Answer>>, pieces: seq<seq<Matching.Packet>>, k: Key) {
    |published| == |pieces| &&
    forall i :: 0 <= i < |published| ==> AnswersTo(published[i], k) == Observed(Delivered(Of(pieces[i], k))).answers
  }

  lemma OneMorePiece(published: seq<seq<Answer>>, pieces: seq<seq<Matching.Packet>>, k: Key,
                     a: seq<Answer>, ps: seq<Matching.Packet>)
    requires HoldsOwn(published, pieces, k) && AnswersTo(a, k) == Observed(Delivered(Of(ps, k))).answers
    ensures HoldsOwn(published + [a], pieces + [ps], k)
  {
    hide Observed, Of, Delivered, AnswersTo;
  }

  /** Each published interval holds, for each connection, the answers among what its queue delivered in
      that interval and nothing else. */
  lemma {:induction false} PublishedIsLocal(fed: seq<Seen>, steer: Key -> nat, k: Key)
    requires SteeredFeed(fed, steer)
    ensures HoldsOwn(Serving.Published(Events(fed)), Slices(fed, steer(k)), k)
  {
    if fed != [] {
      hide Observed, Of, Delivered, AnswersTo, Recent, HoldsOwn;
      var pre := Front(fed);
      EventsStep(fed);
      PublishedIsLocal(pre, steer, k);
      CurrentIsLocal(pre, steer, k);
      if Last(fed).Ticked? && Observed(Events(pre)).answers != [] {
        OneMorePiece(Serving.Published(Events(pre)), Slices(pre, steer(k)), k,
                     Observed(Events(pre)).answers, Recent(pre, steer(k)));
      }
    }
  }

  lemma CurrentIsLocal(fed: seq<Seen>, steer: Key -> nat, k: Key)
    requires SteeredFeed(fed, steer)
    ensures AnswersTo(Observed(Events(fed)).answers, k) == Observed(Delivered(Of(Recent(fed, steer(k)), k))).answers
  {
    hide Observed, Of, Delivered, AnswersTo, Recent, Since;
    ReferenceIsLocal(Events(fed), k);
    SinceIsRecent(fed, steer(k), k);
  }

  /** The whole chain, from frames to reports. While each queue's share of each
      interval is clean, every report describes the published answers
      of its interval; the answers of each connection among them are those of the frames that its queue
      delivered in that interval; and the intervals cut what was consumed into consecutive pieces. */
  lemma ReportsAreExact(cfg: Config, c: Params, f: Frame, e: Matching.Packet, acts: seq<Action>, steer: Key -> nat,
                        enablePri: bool, reports: seq<Cdf>)
    requires Boots(c, f, e, acts)
    requires Steered(c, Reached(c, f, e, acts), steer) && CleanIntervals(Watched(c, f, e, acts))
    requires Serving.Reports(cfg, Events(Watched(c, f, e, acts)), enablePri, reports)
    ensures var fed, t := Watched(c, f, e, acts), Reached(c, f, e, acts);
      var published := Serving.Published(Events(fed));
      && |reports| == |published| && |t.lanes| == c.rxQue
      && (forall i :: 0 <= i < |reports| ==> Monitor.Describes(reports[i], AsSamples(cfg, published[i]), enablePri))
      && (forall k :: HoldsOwn(published, Slices(fed, steer(k)), k))
      && (forall q :: 0 <= q < c.rxQue ==>
            Flatten(Slices(fed, q)) + Recent(fed, q) == t.lanes[q].consumed <= Entries(c, t.lanes[q].accepted))
  {
    hide Watched, Exact, CleanRun, Recent, Delivered, SteeredFeed, Entries, Slices, Observed, AnswersTo, Of, Flatten, HoldsOwn;
    hide Monitor.Describes, Serving.Published, Serving.Reports, Steered, CleanIntervals;
    var fed, t := Watched(c, f, e, acts), Reached(c, f, e, acts);
    ReachedLanes(c, t);
    WatchedIsSteered(c, f, e, acts, steer);
    CleanIffIntervalsClean(fed, steer);
    Serving.ReportsAreExact(cfg, Events(fed), enablePri, reports);
    forall k
      ensures HoldsOwn(Serving.Published(Events(fed)), Slices(fed, steer(k)), k)
    {
      PublishedIsLocal(fed, steer, k);
    }
    forall q | 0 <= q < c.rxQue
      ensures Flatten(Slices(fed, q)) + Recent(fed, q) == t.lanes[q].consumed <= Entries(c, t.lanes[q].accepted)
    {
      WatchedIsFifo(c, f, e, acts, q);
      SlicesPartition(fed, q);
    }
  }

  function TimesOf(answers: seq<Answer>): seq<int> {
    if answers == [] then [] else TimesOf(Front(answers)) + [Last(answers).time]
  }

  lemma TimesStep(r: Observer, p: Matching.Packet)
    ensures TimesOf(Observe(r, p).answers) == TimesOf(r.answers) +
      if Answers(r, p) then [Time(p) - Last(LogOf(r, p.key)).at] else []
  {
    if Answers(r, p) {
      assert Front(Observe(r, p).answers) == r.answers;
    }
  }

  /** The answers of a connection alone are the response times of its exchanges. */
  lemma {:induction false} AnswersAreResponseTimes(ps: seq<Matching.Packet>, k: Key)
    requires forall i :: 0 <= i < |ps| ==> ps[i].key == k
    ensures var r := Observed(Delivered(ps)); TimesOf(r.answers) == ResponseTimes(LogOf(r, k))
  {
    hide Observe, TimesOf, ResponseTimes, Answers;
    if ps != [] {
      var es := Delivered(ps);
      assert Front(es) == Delivered(Front(ps)) && Last(es) == Deliver(Last(ps));
      AnswersAreResponseTimes(Front(ps), k);
      ResponseTimesStep(Observed(Front(es)), Last(ps), k);
      TimesStep(Observed(Front(es)), Last(ps));
    } else {
      NothingAnswered(k);
    }
  }

  lemma NothingAnswered(k: Key)
    ensures TimesOf(NOTHING_SEEN.answers) == ResponseTimes(LogOf(NOTHING_SEEN, k))
  {
  }
}
