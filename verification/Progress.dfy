/** That every core gets on with its work: how many of its own steps each look takes, in which order it looks
    at its queues, and so how soon a queued frame is taken and its entry consumed. */
module Progress {
  import opened Basics
  import opened Rings
  import opened Frames
  import opened Pipeline
  import opened PipelineTheorems
  import Sharding

  // ------------------------------------------------------------ the receiving cores

  /** The steps of the receiving core of queue `q`. */
  function RxSteps(acts: seq<Action>, q: nat): nat {
    if acts == [] then 0 else RxSteps(Front(acts), q) + Bit(Last(acts).Rx? && Last(acts).q == q)
  }

  /** The frames that arrive at a receiving core while it polls, each with the number of frames then queued. */
  ghost function Polled(c: Params, s: System, acts: seq<Action>, q: nat): seq<Offer>
    requires Inv(c, s) && SafeRun(c, s, acts) && q < c.rxQue
    decreases |acts|
  {
    if acts == [] then []
    else
      var os, t := Polled(c, s, Front(acts), q), RunFrom(c, s, Front(acts));
      if Last(acts).Rx? && Last(acts).q == q && t.lanes[q].rx.RxPoll?
      then os + [Offer(Last(acts).f, |Content(t.lanes[q].ssd, c.bufferLen)|)]
      else os
  }

  /** The steps a receiving core still needs before it polls again. */
  function RxDebt(rx: RxPc): nat {
    match rx
    case RxPoll => 0
    case RxStore(_) => 2
    case RxPublish(_) => 1
  }

  lemma OthersLeaveOffers(c: Params, s: System, a: Action, q: nat)
    requires Inv(c, s) && q < c.rxQue && !(a.Rx? && a.q == q)
    ensures |Step(c, s, a).lanes| == |s.lanes| == c.rxQue
    ensures Step(c, s, a).lanes[q].offered == s.lanes[q].offered && Step(c, s, a).lanes[q].rx == s.lanes[q].rx
  {
    hide LaneInv, KeyExtract, Qualifies;
  }

  lemma RxOffers(c: Params, s: System, q: nat, f: Frame)
    requires Inv(c, s) && q < c.rxQue
    ensures var l, t := s.lanes[q], Step(c, s, Rx(q, f));
      && |t.lanes| == c.rxQue
      && t.lanes[q].offered == l.offered + (if l.rx.RxPoll? then [Offer(f, |Content(l.ssd, c.bufferLen)|)] else [])
      && 3 * Bit(l.rx.RxPoll?) + RxDebt(l.rx) >= 1 + RxDebt(t.lanes[q].rx)
  {
    hide LaneInv;
  }

  /** The history of a receiving core is what arrived while it polled, and of any three steps it takes at least
      one is a poll. */
  lemma {:induction false} ReceiverKeepsPolling(c: Params, s: System, acts: seq<Action>, q: nat)
    requires Inv(c, s) && SafeRun(c, s, acts) && q < c.rxQue
    ensures var t := RunFrom(c, s, acts);
      && |s.lanes| == |t.lanes| == c.rxQue
      && t.lanes[q].offered == s.lanes[q].offered + Polled(c, s, acts, q)
      && RxSteps(acts, q) + RxDebt(t.lanes[q].rx) <= 3 * |Polled(c, s, acts, q)| + RxDebt(s.lanes[q].rx)
    decreases |acts|
  {
    hide Inv, Step, RxDebt, Content;
    LaneHolds(c, s, q);
    if acts != [] {
      var t := RunFrom(c, s, Front(acts));
      ReceiverKeepsPolling(c, s, Front(acts), q);
      if Last(acts).Rx? && Last(acts).q == q {
        RxOffers(c, t, q, Last(acts).f);
      } else {
        OthersLeaveOffers(c, t, Last(acts), q);
      }
    }
  }

  /** From power-on: a receiving core accepts, in order, exactly the frames of more than 70 bytes that found
      room when it polled; it refuses the others and drops the rest; and at least one of three steps is a poll. */
  lemma AcceptedAreAdmitted(c: Params, f: Frame, e: Packet, acts: seq<Action>, q: nat)
    requires Boots(c, f, e, acts) && q < c.rxQue
    ensures Inv(c, Start(c, f, e))
    ensures var t, os := Reached(c, f, e, acts), Polled(c, Start(c, f, e), acts, q);
      && |t.lanes| == c.rxQue
      && t.lanes[q].accepted + Held(t.lanes[q].rx) == Admitted(os, c.bufferLen)
      && t.lanes[q].short == ShortOnes(os) && t.lanes[q].dropped == Crowded(os, c.bufferLen)
      && t.lanes[q].received == |os| && RxSteps(acts, q) <= 3 * |os|
  {
    hide Inv, RxSteps;
    StartInv(c, f, e);
    StartOffers(c, f, e, q);
    ReceiverKeepsPolling(c, Start(c, f, e), acts, q);
    OffersHold(c, Reached(c, f, e, acts), q);
    assert [] + Polled(c, Start(c, f, e), acts, q) == Polled(c, Start(c, f, e), acts, q);
  }

  lemma StartOffers(c: Params, f: Frame, e: Packet, q: nat)
    requires Sensible(c) && q < c.rxQue
    ensures |Start(c, f, e).lanes| == c.rxQue
    ensures Start(c, f, e).lanes[q].offered == [] && Start(c, f, e).lanes[q].rx == RxPoll
  {
  }

  lemma OffersHold(c: Params, s: System, q: nat)
    requires Inv(c, s) && q < c.rxQue
    ensures |s.lanes| == c.rxQue && OfferInv(c, s.lanes[q])
  {
    LaneHolds(c, s, q);
  }

  // -------------------------------------------------------------------- the workers

  function WorkSteps(acts: seq<Action>, w: nat): nat {
    if acts == [] then 0 else WorkSteps(Front(acts), w) + Bit(Last(acts).Work? && Last(acts).w == w)
  }

  /** The step completes a look of worker `w`: it leaves it polling. */
  predicate CompletesLook(c: Params, s: System, a: Action, w: nat)
    requires Shaped(c, s)
  {
    a.Work? && a.w == w && Working(c, w) && Step(c, s, a).workers[w].pc.WorkPoll?
  }

  /** The completed looks of worker `w`. */
  ghost function LooksOf(c: Params, s: System, acts: seq<Action>, w: nat): nat
    requires Inv(c, s) && SafeRun(c, s, acts)
    decreases |acts|
  {
    if acts == [] then 0
    else LooksOf(c, s, Front(acts), w) + Bit(CompletesLook(c, RunFrom(c, s, Front(acts)), Last(acts), w))
  }

  /** Those at queue `q`. */
  ghost function LooksAt(c: Params, s: System, acts: seq<Action>, w: nat, q: nat): nat
    requires Inv(c, s) && SafeRun(c, s, acts)
    decreases |acts|
  {
    if acts == [] then 0
    else
      var t := RunFrom(c, s, Front(acts));
      LooksAt(c, s, Front(acts), w, q) + Bit(CompletesLook(c, t, Last(acts), w) && t.workers[w].at == q)
  }

  /** The steps a worker has spent on its current look. */
  function Spent(pc: WorkPc): nat {
    match pc
    case WorkPoll => 0
    case WorkRead => 1
    case WorkReserve => 2
    case WorkFill => 3
    case WorkPublish => 4
    case WorkAdvance => 5
  }

  lemma OneLookStep(c: Params, l: Lane, pc: WorkPc, size: nat, junk: nat -> Packet)
    requires WorkReady(c, l, pc, size)
    ensures var n := WorkStep(c, l, pc, size, junk);
      && 1 + Spent(pc) <= 6 * Bit(n.1.WorkPoll?) + Spent(n.1)
      && n.0.accepted == l.accepted
      && n.0.taken == l.taken + Bit(pc.WorkAdvance?)
      && (n.1.WorkPoll? <==> pc.WorkAdvance? || (pc.WorkPoll? && Empty(l.ssd)))
  {
    hide KeyExtract, Qualifies;
  }

  /** One step of worker `w`. */
  lemma WorkerSteps(c: Params, s: System, w: nat, junk: nat -> Packet)
    requires Inv(c, s) && Working(c, w)
    ensures var t := Step(c, s, Work(w, junk));
      && |s.workers| == |t.workers| == c.prQue && |s.lanes| == |t.lanes| == c.rxQue && s.workers[w].at < c.rxQue
      && var at, n, first := s.workers[w].at, t.workers[w], w * Sharding.Dive(c.rxQue, c.prQue);
      && first <= at < first + Sharding.Dive(c.rxQue, c.prQue)
      && 1 + Spent(s.workers[w].pc) <= 6 * Bit(n.pc.WorkPoll?) + Spent(n.pc)
      && n.at == (if !n.pc.WorkPoll? then at else if at + 1 < first + Sharding.Dive(c.rxQue, c.prQue) then at + 1 else first)
      && t.lanes[at].accepted == s.lanes[at].accepted
      && t.lanes[at].taken == s.lanes[at].taken + Bit(s.workers[w].pc.WorkAdvance?)
      && (n.pc.WorkPoll? <==> s.workers[w].pc.WorkAdvance? || (s.workers[w].pc.WorkPoll? && Empty(s.lanes[at].ssd)))
      && (forall q :: 0 <= q < c.rxQue && q != at ==> t.lanes[q] == s.lanes[q])
      && (forall v :: 0 <= v < c.prQue && v != w ==> t.workers[v] == s.workers[v])
  {
    hide LaneInv, WorkStep, WorkReady, Whole, Formed, MonReady, Spent;
    var dive := Sharding.Dive(c.rxQue, c.prQue);
    assert (w + 1) * dive == w * dive + dive;
    OneLookStep(c, s.lanes[s.workers[w].at], s.workers[w].pc, s.maxSize, junk);
  }

  /** Nothing else moves worker `w`. */
  lemma OthersLeaveWorker(c: Params, s: System, a: Action, w: nat)
    requires Inv(c, s) && Working(c, w) && !(a.Work? && a.w == w)
    ensures var t := Step(c, s, a); |s.workers| == |t.workers| == c.prQue && t.workers[w] == s.workers[w]
  {
    hide LaneInv, WorkStep, RxStep, MonStep;
  }

  /** A worker completes a look in every six of its steps. */
  lemma {:induction false} WorkerKeepsLooking(c: Params, s: System, acts: seq<Action>, w: nat)
    requires Inv(c, s) && SafeRun(c, s, acts) && Working(c, w)
    ensures var t := RunFrom(c, s, acts);
      && |s.workers| == |t.workers| == c.prQue
      && WorkSteps(acts, w) + Spent(s.workers[w].pc) <= 6 * LooksOf(c, s, acts, w) + Spent(t.workers[w].pc)
    decreases |acts|
  {
    WorkersHold(c, s);
    if acts != [] {
      hide Inv, Step, Spent, Shaped;
      var t := RunFrom(c, s, Front(acts));
      WorkersHold(c, t);
      WorkerKeepsLooking(c, s, Front(acts), w);
      if Last(acts).Work? && Last(acts).w == w {
        WorkerSteps(c, t, w, Last(acts).junk);
      } else {
        OthersLeaveWorker(c, t, Last(acts), w);
      }
    }
  }

  lemma WorkersHold(c: Params, s: System)
    requires Inv(c, s)
    ensures Shaped(c, s) && |s.workers| == c.prQue && |s.lanes| == c.rxQue
  {
  }

  /** The looks in a number of whole rounds. */
  function InRounds(rounds: nat, dive: nat): nat {
    rounds * dive
  }

  lemma RoundStep(first: nat, dive: nat, at: nat, next: nat, q: nat, rounds: nat)
    requires first <= at < first + dive && first <= q < first + dive
    requires next == if at + 1 < first + dive then at + 1 else first
    ensures var r := rounds + Bit(at + 1 == first + dive);
      && at + 1 + InRounds(rounds, dive) == next + InRounds(r, dive)
      && rounds + Bit(at > q) + Bit(at == q) == r + Bit(next > q)
  {
    assert (rounds + 1) * dive == rounds * dive + dive;
  }

  lemma StepGoesRound(c: Params, s: System, a: Action, w: nat, q: nat, rounds: nat) returns (r: nat)
    requires Inv(c, s) && Working(c, w) && Sharding.Serves(c.rxQue, c.prQue, w, q)
    ensures var t, dive := Step(c, s, a), Sharding.Dive(c.rxQue, c.prQue);
      && |s.workers| == |t.workers| == c.prQue && Shaped(c, s)
      && s.workers[w].at + Bit(CompletesLook(c, s, a, w)) + InRounds(rounds, dive) == t.workers[w].at + InRounds(r, dive)
      && rounds + Bit(s.workers[w].at > q) + Bit(CompletesLook(c, s, a, w) && s.workers[w].at == q) ==
           r + Bit(t.workers[w].at > q)
  {
    hide Inv, Step, Shaped, Sharding.Dive, Sharding.Serves, InRounds;
    r := rounds;
    WorkersHold(c, s);
    if a.Work? && a.w == w {
      WorkerSteps(c, s, w, a.junk);
      if CompletesLook(c, s, a, w) {
        var dive, at := Sharding.Dive(c.rxQue, c.prQue), s.workers[w].at;
        InRange(c, w, q);
        RoundStep(w * dive, dive, at, Step(c, s, a).workers[w].at, q, rounds);
        r := rounds + Bit(at + 1 == w * dive + dive);
      }
    } else {
      OthersLeaveWorker(c, s, a, w);
    }
  }

  /** The looks of a worker go round its range: after `rounds` rounds and up to its present queue, each queue
      has had one look a round. */
  lemma {:induction false} LooksGoRound(c: Params, s: System, acts: seq<Action>, w: nat, q: nat) returns (rounds: nat)
    requires Inv(c, s) && SafeRun(c, s, acts) && Working(c, w)
    requires Sharding.Serves(c.rxQue, c.prQue, w, q)
    ensures var t := RunFrom(c, s, acts);
      && |s.workers| == |t.workers| == c.prQue
      && s.workers[w].at + LooksOf(c, s, acts, w) == t.workers[w].at + InRounds(rounds, Sharding.Dive(c.rxQue, c.prQue))
      && LooksAt(c, s, acts, w, q) == rounds + Bit(t.workers[w].at > q) - Bit(s.workers[w].at > q)
    decreases |acts|
  {
    hide Inv, Step, Shaped, CompletesLook, Sharding.Dive, Sharding.Serves, InRounds;
    WorkersHold(c, s);
    if acts == [] {
      rounds := 0;
      NoRounds(Sharding.Dive(c.rxQue, c.prQue));
    } else {
      WorkersHold(c, RunFrom(c, s, Front(acts)));
      var before := LooksGoRound(c, s, Front(acts), w, q);
      rounds := StepGoesRound(c, RunFrom(c, s, Front(acts)), Last(acts), w, q, before);
    }
  }

  lemma NoRounds(dive: nat)
    ensures InRounds(0, dive) == 0
  {
  }

  lemma InRange(c: Params, w: nat, q: nat)
    requires c.prQue > 0 && Sharding.Serves(c.rxQue, c.prQue, w, q)
    ensures var dive := Sharding.Dive(c.rxQue, c.prQue); w * dive <= q < w * dive + dive
  {
    var dive := Sharding.Dive(c.rxQue, c.prQue);
    assert (w + 1) * dive == w * dive + dive;
  }

  lemma EmptyMeansAllTaken(c: Params, s: System, q: nat)
    requires Inv(c, s) && q < c.rxQue
    ensures |s.lanes| == c.rxQue && s.lanes[q].taken <= |s.lanes[q].accepted|
    ensures Empty(s.lanes[q].ssd) ==> s.lanes[q].taken == |s.lanes[q].accepted|
  {
    LaneHolds(c, s, q);
    FullLeavesOne(s.lanes[q].ssd, c.bufferLen);
  }

  /** No other core takes from a queue. */
  lemma OthersLeaveTaken(c: Params, s: System, a: Action, q: nat)
    requires Inv(c, s) && q < c.rxQue && !a.Work?
    ensures var t := Step(c, s, a);
      && |s.lanes| == |t.lanes| == c.rxQue
      && t.lanes[q].taken == s.lanes[q].taken && s.lanes[q].accepted <= t.lanes[q].accepted
  {
    hide LaneInv;
  }

  lemma ServersDiffer(c: Params, s: System, v: nat, w: nat, q: nat)
    requires Inv(c, s) && Working(c, v) && Sharding.Serves(c.rxQue, c.prQue, w, q) && v != w
    ensures |s.workers| == c.prQue && s.workers[v].at != q
  {
    hide LaneInv;
    Sharding.ServerIsQuotient(c.rxQue, c.prQue, w, q);
    Sharding.ServerIsQuotient(c.rxQue, c.prQue, v, s.workers[v].at);
  }

  /** What one step does to the frames taken from a queue of worker `w`. */
  lemma StepTakes(c: Params, s: System, a: Action, w: nat, q: nat)
    requires Inv(c, s) && Working(c, w) && Sharding.Serves(c.rxQue, c.prQue, w, q) && q < c.rxQue
    ensures var t := Step(c, s, a);
      && Shaped(c, s) && |s.lanes| == |t.lanes| == c.rxQue && |s.workers| == c.prQue
      && s.lanes[q].accepted <= t.lanes[q].accepted && s.lanes[q].taken <= t.lanes[q].taken
      && (CompletesLook(c, s, a, w) && s.workers[w].at == q ==>
            t.lanes[q].taken == s.lanes[q].taken + 1 || t.lanes[q].taken == |s.lanes[q].accepted|)
  {
    hide Inv, Step, Shaped, Empty, Sharding.Serves, Sharding.Dive;
    WorkersHold(c, s);
    EmptyMeansAllTaken(c, s, q);
    if a.Work? && Working(c, a.w) {
      WorkerSteps(c, s, a.w, a.junk);
      if a.w != w {
        ServersDiffer(c, s, a.w, w, q);
      }
    } else if a.Work? {
      IdleWorker(c, s, a);
    } else {
      OthersLeaveTaken(c, s, a, q);
    }
  }

  lemma IdleWorker(c: Params, s: System, a: Action)
    requires Inv(c, s) && a.Work? && !Working(c, a.w)
    ensures Step(c, s, a) == s
  {
  }

  /** Every look of a worker at a queue takes one frame of what was queued. */
  lemma {:induction false} LooksTakeFrames(c: Params, s: System, acts: seq<Action>, w: nat, q: nat)
    requires Inv(c, s) && SafeRun(c, s, acts) && Working(c, w) && Sharding.Serves(c.rxQue, c.prQue, w, q) && q < c.rxQue
    ensures var t := RunFrom(c, s, acts);
      && |s.lanes| == |t.lanes| == c.rxQue && s.lanes[q].accepted <= t.lanes[q].accepted
      && Min(|s.lanes[q].accepted|, s.lanes[q].taken + LooksAt(c, s, acts, w, q)) <= t.lanes[q].taken
    decreases |acts|
  {
    hide Inv, Step, Shaped, CompletesLook, Sharding.Dive, Sharding.Serves;
    WorkersHold(c, s);
    if acts == [] {
      EmptyMeansAllTaken(c, s, q);
    } else {
      LooksTakeFrames(c, s, Front(acts), w, q);
      StepTakes(c, RunFrom(c, s, Front(acts)), Last(acts), w, q);
    }
  }

  /** No starvation at the workers. The first `k` frames queued in the ring of a served queue are taken, in order,
      within `k` rounds of its worker, a round being as many completed looks as the worker has queues, and
      so within `6 * k` of its steps for each of its queues, whatever the other cores do. */
  lemma QueuedFramesAreTaken(c: Params, s: System, acts: seq<Action>, w: nat, q: nat, k: nat)
    requires Inv(c, s) && SafeRun(c, s, acts) && Working(c, w) && Sharding.Serves(c.rxQue, c.prQue, w, q) && q < c.rxQue
    requires |s.lanes| == c.rxQue && s.lanes[q].taken + k <= |s.lanes[q].accepted|
    requires LooksOf(c, s, acts, w) >= InRounds(k, Sharding.Dive(c.rxQue, c.prQue)) ||
             WorkSteps(acts, w) >= 6 * InRounds(k, Sharding.Dive(c.rxQue, c.prQue))
    ensures var t := RunFrom(c, s, acts);
      |t.lanes| == c.rxQue && s.lanes[q].accepted <= t.lanes[q].accepted && s.lanes[q].taken + k <= t.lanes[q].taken
  {
    hide Inv, Step, Shaped, Spent, LooksOf, LooksAt, WorkSteps, InRounds, Sharding.Dive, Sharding.Serves;
    WorkerKeepsLooking(c, s, acts, w);
    SpentIsShort(s.workers[w].pc);
    SpentIsShort(RunFrom(c, s, acts).workers[w].pc);
    var rounds := LooksGoRound(c, s, acts, w, q);
    LooksTakeFrames(c, s, acts, w, q);
    var t, dive := RunFrom(c, s, acts), Sharding.Dive(c.rxQue, c.prQue);
    WorkersInRange(c, s, w);
    WorkersInRange(c, t, w);
    InRange(c, w, q);
    EnoughRounds(w * dive, dive, s.workers[w].at, t.workers[w].at, q, rounds, k, LooksOf(c, s, acts, w));
  }

  lemma SpentIsShort(pc: WorkPc)
    ensures Spent(pc) <= 5
  {
  }

  lemma WorkersInRange(c: Params, s: System, w: nat)
    requires Inv(c, s) && Working(c, w)
    ensures |s.workers| == c.prQue
    ensures var dive := Sharding.Dive(c.rxQue, c.prQue); w * dive <= s.workers[w].at < w * dive + dive
  {
    hide LaneInv;
    InRange(c, w, s.workers[w].at);
  }

  lemma RoundsOrder(a: nat, b: nat, dive: nat)
    ensures a <= b ==> InRounds(a, dive) <= InRounds(b, dive)
    ensures InRounds(a + 1, dive) == InRounds(a, dive) + dive
    ensures InRounds(a + b, dive) == InRounds(a, dive) + InRounds(b, dive)
  {
    Sharding.ProductOrder(a, b, dive);
    assert (a + 1) * dive == a * dive + dive;
    assert (a + b) * dive == a * dive + b * dive;
  }

  lemma EnoughRounds(first: nat, dive: nat, from: nat, to: nat, q: nat, rounds: nat, k: nat, looks: nat)
    requires first <= from < first + dive && first <= to < first + dive && first <= q < first + dive
    requires from + looks == to + InRounds(rounds, dive) && looks >= InRounds(k, dive)
    ensures rounds + Bit(to > q) - Bit(from > q) >= k
  {
    hide InRounds;
    RoundsOrder(rounds, k, dive);
    RoundsOrder(rounds + 1, k, dive);
  }

  // -------------------------------------------------------------------- the monitor

  function MonSteps(acts: seq<Action>): nat {
    if acts == [] then 0 else MonSteps(Front(acts)) + Bit(Last(acts).Mon?)
  }

  function MonSpent(pc: MonPc): nat {
    match pc
    case MonPoll => 0
    case MonTake => 1
    case MonAdvance => 2
  }

  /** The looks the monitor has completed since it was at queue 0 of pass 0. */
  function MonLooks(c: Params, s: System): nat {
    InRounds(s.passes, c.rxQue) + s.monAt
  }

  lemma OneMonLook(l: Lane, pc: MonPc, size: nat)
    requires MonReady(l, pc, size)
    ensures var n := MonStep(l, pc, size).1; 1 + MonSpent(pc) <= 3 * Bit(n.MonPoll?) + MonSpent(n)
  {
  }

  lemma MonitorSteps(c: Params, s: System, a: Action)
    requires Inv(c, s)
    ensures var t := Step(c, s, a);
      Bit(a.Mon?) + MonSpent(s.monPc) + 3 * MonLooks(c, s) <= 3 * MonLooks(c, t) + MonSpent(t.monPc)
  {
    hide LaneInv, WorkStep, RxStep, MonStep, MonSpent, InRounds;
    if a.Mon? {
      OneMonLook(s.lanes[s.monAt], s.monPc, s.maxSize);
      RoundsOrder(s.passes, 1, c.rxQue);
      NoRounds(c.rxQue);
    } else {
      OthersOnlyProduce(c, s, 0, a);
    }
  }

  /** The monitor completes a look in every three of its steps, and a pass in as many looks as there are queues. */
  lemma {:induction false} MonitorKeepsLooking(c: Params, s: System, acts: seq<Action>)
    requires Inv(c, s) && SafeRun(c, s, acts)
    ensures var t := RunFrom(c, s, acts);
      MonSteps(acts) + MonSpent(s.monPc) + 3 * MonLooks(c, s) <= 3 * MonLooks(c, t) + MonSpent(t.monPc)
    decreases |acts|
  {
    hide Inv, Step, MonLooks, MonSpent;
    if acts != [] {
      MonitorKeepsLooking(c, s, Front(acts));
      MonitorSteps(c, RunFrom(c, s, Front(acts)), Last(acts));
    }
  }

  lemma MonitorKeepsPassing(c: Params, s: System, acts: seq<Action>, n: nat)
    requires Inv(c, s) && SafeRun(c, s, acts) && MonSteps(acts) >= 3 * InRounds(n + 1, c.rxQue)
    ensures RunFrom(c, s, acts).passes >= s.passes + n
  {
    hide Inv, InRounds, Step, MonSteps, MonSpent;
    MonitorKeepsLooking(c, s, acts);
    var t := RunFrom(c, s, acts);
    MonitorHolds(c, t);
    RoundsOrder(s.passes, n, c.rxQue);
    RoundsOrder(s.passes + n, 1, c.rxQue);
    RoundsOrder(n, 1, c.rxQue);
    RoundsOrder(t.passes, 1, c.rxQue);
    RoundsOrder(t.passes + 1, s.passes + n, c.rxQue);
  }

  lemma MonitorHolds(c: Params, s: System)
    requires Inv(c, s)
    ensures s.monAt < c.rxQue && MonSpent(s.monPc) <= 2
  {
    hide LaneInv;
  }

  // ---------------------------------------------------------------------- the chain

  /** What has been taken has been produced. */
  lemma ProducedCovers(c: Params, s: System, q: nat, m: nat)
    requires Inv(c, s) && q < c.rxQue && |s.lanes| == c.rxQue && m <= s.lanes[q].taken
    ensures m <= |s.lanes[q].accepted|
    ensures Entries(c, s.lanes[q].accepted[..m]) <= s.lanes[q].produced
    ensures s.lanes[q].consumed <= s.lanes[q].produced
  {
    LaneHolds(c, s, q);
    hide Entries, Content, KeyExtract, Qualifies;
    var l, w := s.lanes[q], WorkPcOf(c, s, q);
    var done := l.accepted[..Done(l, w)];
    EntriesPrefix(c, done, m);
    assert done[..m] == l.accepted[..m];
    LaneIsFifo(c, l, w, MonPcOf(s, q), s.maxSize);
  }

  /** A safe run of the monitor that is long enough consumes what had been produced. */
  lemma ProducedIsConsumed(c: Params, s: System, acts: seq<Action>, q: nat, n: nat)
    requires Inv(c, s) && SafeRun(c, s, acts) && q < c.rxQue && |s.lanes| == c.rxQue
    requires n <= |s.lanes[q].produced| && s.lanes[q].consumed <= s.lanes[q].produced
    requires MonSteps(acts) >= 3 * InRounds(n + 2, c.rxQue)
    ensures var u := RunFrom(c, s, acts); |u.lanes| == c.rxQue && s.lanes[q].produced[..n] <= u.lanes[q].consumed
  {
    hide Inv, InRounds, MonSteps;
    MonitorKeepsPassing(c, s, acts, n + 1);
    var have := |s.lanes[q].consumed|;
    var k := if n <= have then 0 else n - have;
    BacklogIsConsumed(c, s, acts, q, k);
    assert s.lanes[q].produced[..n] == s.lanes[q].produced[..have + k][..n];
  }

  /** From the ring to the monitor. When a worker takes six steps for each of its queues for each of the first `k` frames
      queued on one of them, and the monitor then makes three steps for each queue and each of their entries and two
      passes more, those entries have been consumed, in order, whatever else happens. */
  lemma QueuedFramesAreConsumed(c: Params, s: System, before: seq<Action>, after: seq<Action>, w: nat, q: nat, k: nat)
    requires Inv(c, s) && SafeRun(c, s, before) && SafeRun(c, RunFrom(c, s, before), after)
    requires Working(c, w) && Sharding.Serves(c.rxQue, c.prQue, w, q) && q < c.rxQue
    requires |s.lanes| == c.rxQue && s.lanes[q].taken + k <= |s.lanes[q].accepted|
    requires WorkSteps(before, w) >= 6 * InRounds(k, Sharding.Dive(c.rxQue, c.prQue))
    requires var n := |Entries(c, s.lanes[q].accepted[..s.lanes[q].taken + k])|; MonSteps(after) >= 3 * InRounds(n + 2, c.rxQue)
    ensures var u := RunFrom(c, RunFrom(c, s, before), after);
      |u.lanes| == c.rxQue && Entries(c, s.lanes[q].accepted[..s.lanes[q].taken + k]) <= u.lanes[q].consumed
  {
    hide Inv, InRounds, MonSteps, WorkSteps, Entries, Sharding.Serves, Sharding.Dive;
    var t, m := RunFrom(c, s, before), s.lanes[q].taken + k;
    QueuedFramesAreTaken(c, s, before, w, q, k);
    assert t.lanes[q].accepted[..m] == s.lanes[q].accepted[..m];
    ProducedCovers(c, t, q, m);
    var n := |Entries(c, s.lanes[q].accepted[..m])|;
    ProducedIsConsumed(c, t, after, q, n);
  }
}
