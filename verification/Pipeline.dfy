/** The three stages of HCMonitor/main.c as interleaved small steps: receiving cores fill
    `SSD_Ring`, workers parse into `PrQue`, and one monitor core polls every `PrQue` in turn.
    A step is one test, one slot access, one index update or one enlargement by one core. */
module Pipeline {
  import opened Basics
  import opened Rings
  import opened Frames
  import Matching
  import ParseQueue
  import Sharding

  type Packet = Matching.Packet

  datatype Params = Params(rxQue: nat, prQue: nat, bufferLen: nat, queSize: nat, labels: Labels)

  predicate Sensible(c: Params) {
    c.rxQue > 0 && c.prQue > 0 && c.bufferLen > 0 && c.queSize > 0
  }

  const MIN_LEN := 70

  datatype RxPc = RxPoll | RxStore(f: Frame) | RxPublish(f: Frame)

  datatype WorkPc = WorkPoll | WorkRead | WorkReserve | WorkFill | WorkPublish | WorkAdvance

  datatype MonPc = MonPoll | MonTake | MonAdvance

  /** A frame as a receiving core finds it, with the number of frames then queued. */
  datatype Offer = Offer(f: Frame, queued: nat)

  /** One receive queue with its two rings, its receiving core and the history of what passed. */
  datatype Lane = Lane(
    ssd: Ring<Frame>, pr: Ring<Packet>, rx: RxPc,
    received: nat, short: nat, dropped: nat, offered: seq<Offer>, accepted: seq<Frame>,
    taken: nat, skipped: nat, unclassified: nat, produced: seq<Packet>,
    consumed: seq<Packet>)

  datatype Worker = Worker(at: nat, pc: WorkPc)

  /** `maxSize` is the one modulus of all parse queues. */
  datatype System = System(lanes: seq<Lane>, workers: seq<Worker>, maxSize: nat, monAt: nat, monPc: MonPc, passes: nat)

  /** One step of one core: `f` is the packet a receiving core gets when it polls, and `junk` what fresh
      memory contains when a worker enlarges its queue. A tick is the timer core's. */
  datatype Action = Rx(q: nat, f: Frame) | Work(w: nat, junk: nat -> Packet) | Mon | Tick

  // ------------------------------------------------------------------- the steps

  function RxStep(c: Params, l: Lane, f: Frame): Lane
    requires Formed(l.ssd, c.bufferLen)
  {
    match l.rx
    case RxPoll =>
      var m := l.(received := l.received + 1, offered := l.offered + [Offer(f, Count(l.ssd, c.bufferLen))]);
      if f.pktLen <= MIN_LEN then m.(short := l.short + 1)
      else if Full(l.ssd, c.bufferLen) then m.(dropped := l.dropped + 1)
      else m.(rx := RxStore(f))
    case RxStore(g) => l.(ssd := Store(l.ssd, g), rx := RxPublish(g))
    case RxPublish(g) => l.(ssd := Publish(l.ssd, c.bufferLen), rx := RxPoll, accepted := l.accepted + [g])
  }

  function Head<T>(r: Ring<T>): T
    requires r.deq < |r.buf|
  {
    r.buf[r.deq]
  }

  /** The ring lies whole inside its buffer. */
  predicate Whole<T>(r: Ring<T>, m: nat) {
    Formed(r, m) && m <= |r.buf|
  }

  predicate WorkReady(c: Params, l: Lane, pc: WorkPc, size: nat) {
    Whole(l.ssd, c.bufferLen) && Formed(l.pr, size) && (pc.WorkPublish? ==> Fits(l.pr))
  }

  /** The worker finds its queue full and is about to enlarge it. */
  predicate Grows(l: Lane, pc: WorkPc, size: nat)
    requires Formed(l.pr, size)
  {
    pc.WorkReserve? && Full(l.pr, size)
  }

  function Grown(r: Ring<Packet>, size: nat, junk: nat -> Packet): Ring<Packet> {
    if |r.buf| < size then r.(buf := r.buf + seq(size - |r.buf|, junk)) else r
  }

  /** The worker's step on its queue. It reads the frame in place at each step that needs it, and
      enlarges a full `PrQue`. */
  function WorkStep(c: Params, l: Lane, pc: WorkPc, size: nat, junk: nat -> Packet): (Lane, WorkPc)
    requires WorkReady(c, l, pc, size)
  {
    match pc
    case WorkPoll => (l, if Empty(l.ssd) then WorkPoll else WorkRead)
    case WorkRead =>
      if Qualifies(Head(l.ssd)) then (l, WorkReserve) else (l.(skipped := l.skipped + 1), WorkAdvance)
    case WorkReserve =>
      (if Full(l.pr, size) then l.(pr := Grown(l.pr, size + ParseQueue.REBUFF, junk)) else l, WorkFill)
    case WorkFill =>
      (match KeyExtract(c.labels, Head(l.ssd))
       case Unknown => (l.(unclassified := l.unclassified + 1), WorkAdvance)
       case Known(e) => (l.(pr := Store(l.pr, e)), WorkPublish))
    case WorkPublish =>
      (l.(pr := Publish(l.pr, size), produced := l.produced + [l.pr.buf[l.pr.occ]]), WorkAdvance)
    case WorkAdvance => (l.(ssd := Advance(l.ssd, c.bufferLen), taken := l.taken + 1), WorkPoll)
  }

  predicate MonReady(l: Lane, pc: MonPc, size: nat) {
    Formed(l.pr, size) && (pc.MonTake? ==> l.pr.deq < |l.pr.buf|)
  }

  function MonStep(l: Lane, pc: MonPc, size: nat): (Lane, MonPc)
    requires MonReady(l, pc, size)
  {
    match pc
    case MonPoll => (l, if Empty(l.pr) then MonPoll else MonTake)
    case MonTake => (l.(consumed := l.consumed + [Head(l.pr)]), MonAdvance)
    case MonAdvance => (l.(pr := Advance(l.pr, size)), MonPoll)
  }

  /** The queue a worker polls next: its range, round robin. */
  function NextInRange(c: Params, w: nat, q: nat): nat
    requires c.prQue > 0
  {
    var dive := Sharding.Dive(c.rxQue, c.prQue);
    if q + 1 < (w + 1) * dive then q + 1 else w * dive
  }

  /** Every worker is at one of its own queues. */
  predicate Placed(c: Params, s: System) {
    && Sensible(c) && |s.lanes| == c.rxQue && |s.workers| == c.prQue && s.monAt < c.rxQue
    && (forall w :: 0 <= w < |s.workers| && Sharding.Dive(c.rxQue, c.prQue) > 0 ==>
          s.workers[w].at < c.rxQue && Sharding.Serves(c.rxQue, c.prQue, w, s.workers[w].at))
  }

  /** Every core's next step is defined. */
  predicate Shaped(c: Params, s: System) {
    && Placed(c, s)
    && (forall q :: 0 <= q < |s.lanes| ==> Whole(s.lanes[q].ssd, c.bufferLen) && Formed(s.lanes[q].pr, s.maxSize))
    && (forall w :: 0 <= w < |s.workers| && Sharding.Dive(c.rxQue, c.prQue) > 0 ==>
          WorkReady(c, s.lanes[s.workers[w].at], s.workers[w].pc, s.maxSize))
    && MonReady(s.lanes[s.monAt], s.monPc, s.maxSize)
  }

  /** Core `w` exists and has queues to serve. */
  predicate Working(c: Params, w: nat)
    requires c.prQue > 0
  {
    w < c.prQue && Sharding.Dive(c.rxQue, c.prQue) > 0
  }

  function Step(c: Params, s: System, a: Action): System
    requires Shaped(c, s)
  {
    match a
    case Rx(q, f) =>
      if q >= c.rxQue then s else s.(lanes := s.lanes[q := RxStep(c, s.lanes[q], f)])
    case Work(w, junk) =>
      if !Working(c, w) then s
      else
        var worker := s.workers[w];
        var grows := Grows(s.lanes[worker.at], worker.pc, s.maxSize);
        var (l, pc) := WorkStep(c, s.lanes[worker.at], worker.pc, s.maxSize, junk);
        s.(lanes := s.lanes[worker.at := l],
           workers := s.workers[w := Worker(if pc.WorkPoll? then NextInRange(c, w, worker.at) else worker.at, pc)],
           maxSize := if grows then s.maxSize + ParseQueue.REBUFF else s.maxSize)
    case Mon =>
      var (l, pc) := MonStep(s.lanes[s.monAt], s.monPc, s.maxSize);
      var wraps := pc.MonPoll? && s.monAt + 1 == c.rxQue;
      System(s.lanes[s.monAt := l], s.workers, s.maxSize,
             if !pc.MonPoll? then s.monAt else if wraps then 0 else s.monAt + 1,
             pc, s.passes + Bit(wraps))
    case Tick => s
  }

  /** The guard, for the worker's own queue. */
  predicate LaneSafe(c: Params, l: Lane, w: WorkPc, size: nat)
    requires WorkReady(c, l, w, size)
  {
    && (Grows(l, w, size) ==> l.pr.deq <= l.pr.occ)
    && (w.WorkFill? && KeyExtract(c.labels, Head(l.ssd)).Known? ==> Fits(l.pr))
  }

  /** The guard of a step: an enlargement finds no parse queue wrapped, and an entry is written inside
      its queue's buffer. */
  predicate Safe(c: Params, s: System, a: Action)
    requires Shaped(c, s)
  {
    a.Work? && Working(c, a.w) ==>
      var worker := s.workers[a.w];
      && LaneSafe(c, s.lanes[worker.at], worker.pc, s.maxSize)
      && (Grows(s.lanes[worker.at], worker.pc, s.maxSize) ==> AllUnwrapped(s))
  }

  predicate AllUnwrapped(s: System) {
    forall q :: 0 <= q < |s.lanes| ==> s.lanes[q].pr.deq <= s.lanes[q].pr.occ
  }

  function EmptyLane(c: Params, f: Frame, e: Packet): Lane {
    Lane(Ring(seq(c.bufferLen, _ => f), 0, 0), Ring(seq(c.queSize, _ => e), 0, 0), RxPoll,
         0, 0, 0, [], [], 0, 0, 0, [], [])
  }

  /** Power-on; `f` and `e` stand for whatever the fresh buffers contain. */
  function Start(c: Params, f: Frame, e: Packet): System
    requires Sensible(c)
  {
    System(seq(c.rxQue, _ => EmptyLane(c, f, e)),
           seq(c.prQue, (w: nat) => Worker(w * Sharding.Dive(c.rxQue, c.prQue), WorkPoll)),
           c.queSize, 0, MonPoll, 0)
  }

  // ------------------------------------------------------------- the lane invariant

  /** What the parser makes of a frame. */
  function EntryOf(c: Params, f: Frame): Extracted {
    if Qualifies(f) then KeyExtract(c.labels, f) else Unknown
  }

  /** The classified entries of a sequence of frames, in order. */
  function Entries(c: Params, fs: seq<Frame>): seq<Packet> {
    if fs == [] then []
    else
      var pre := Entries(c, fs[..|fs| - 1]);
      match EntryOf(c, fs[|fs| - 1])
      case Unknown => pre
      case Known(e) => pre + [e]
  }

  /** The frames the worker is done with. */
  function Done(l: Lane, w: WorkPc): nat {
    l.taken + Bit(w.WorkAdvance?)
  }

  /** The frames of more than 70 bytes that found room in a ring of `room` slots, one of which stays free. */
  function Admitted(os: seq<Offer>, room: nat): seq<Frame> {
    if os == [] then []
    else if Last(os).f.pktLen > 70 && Last(os).queued + 1 < room then Admitted(Front(os), room) + [Last(os).f]
    else Admitted(Front(os), room)
  }

  /** How many frames have at most 70 bytes. */
  function ShortOnes(os: seq<Offer>): nat {
    if os == [] then 0 else ShortOnes(Front(os)) + Bit(Last(os).f.pktLen <= 70)
  }

  /** How many longer ones found the ring full. */
  function Crowded(os: seq<Offer>, room: nat): nat {
    if os == [] then 0 else Crowded(Front(os), room) + Bit(Last(os).f.pktLen > 70 && Last(os).queued + 1 == room)
  }

  /** The frame a receiving core holds. */
  function Held(rx: RxPc): seq<Frame> {
    if rx.RxPoll? then [] else [rx.f]
  }

  /** What became of the frames a receiving core was offered. */
  ghost predicate OfferInv(c: Params, l: Lane) {
    && l.received == |l.offered|
    && l.accepted + Held(l.rx) == Admitted(l.offered, c.bufferLen)
    && l.short == ShortOnes(l.offered) && l.dropped == Crowded(l.offered, c.bufferLen)
  }

  ghost predicate RxInv(c: Params, l: Lane, w: WorkPc) {
    && Whole(l.ssd, c.bufferLen)
    && (!l.rx.RxPoll? ==> !Full(l.ssd, c.bufferLen))
    && (l.rx.RxPublish? ==> l.ssd.buf[l.ssd.occ] == l.rx.f)
    && l.taken <= |l.accepted| && l.accepted[l.taken..] == Content(l.ssd, c.bufferLen)
    && (!w.WorkPoll? ==> !Empty(l.ssd))
    && l.received == l.short + l.dropped + |l.accepted| + Bit(!l.rx.RxPoll?)
  }

  ghost predicate WorkInv(c: Params, l: Lane, w: WorkPc, size: nat) {
    && Whole(l.ssd, c.bufferLen) && Formed(l.pr, size) && |l.pr.buf| <= size
    && (w.WorkReserve? || w.WorkFill? ==> Qualifies(Head(l.ssd)))
    && (w.WorkFill? || w.WorkPublish? ==> !Full(l.pr, size))
    && (w.WorkPublish? ==> Fits(l.pr) && EntryOf(c, Head(l.ssd)) == Known(l.pr.buf[l.pr.occ]))
    && Done(l, w) <= |l.accepted|
    && l.produced == Entries(c, l.accepted[..Done(l, w)])
    && l.skipped + l.unclassified + |l.produced| == Done(l, w)
  }

  ghost predicate MonInv(l: Lane, m: MonPc, size: nat) {
    && Formed(l.pr, size)
    && (!m.MonPoll? ==> !Empty(l.pr))
    && Bit(m.MonAdvance?) <= |l.consumed| <= |l.produced|
    && l.consumed == l.produced[..|l.consumed|]
    && l.produced[|l.consumed| - Bit(m.MonAdvance?)..] == Content(l.pr, size)
  }

  ghost predicate LaneInv(c: Params, l: Lane, w: WorkPc, m: MonPc, size: nat) {
    RxInv(c, l, w) && WorkInv(c, l, w, size) && MonInv(l, m, size) && OfferInv(c, l)
  }

  /** The oldest queued frame is the first the worker has not taken. */
  lemma HeadIsNext(c: Params, l: Lane, w: WorkPc)
    requires RxInv(c, l, w) && !Empty(l.ssd)
    ensures l.taken < |l.accepted| && l.accepted[l.taken] == Head(l.ssd)
  {
    AdvanceRemoves(l.ssd, c.bufferLen);
    assert l.accepted[l.taken..][0] == l.accepted[l.taken];
  }

  lemma RxKeepsRing(c: Params, l: Lane, w: WorkPc, f: Frame)
    requires RxInv(c, l, w)
    ensures RxInv(c, RxStep(c, l, f), w)
  {
    match l.rx
    case RxPoll =>
    case RxStore(g) =>
      StoreIsInvisible(l.ssd, c.bufferLen, g);
    case RxPublish(g) =>
      PublishAppends(l.ssd, c.bufferLen);
      TestsAreStable(l.ssd, c.bufferLen);
      assert (l.accepted + [g])[l.taken..] == l.accepted[l.taken..] + [g];
  }

  lemma RxKeepsOffers(c: Params, l: Lane, w: WorkPc, f: Frame)
    requires RxInv(c, l, w) && OfferInv(c, l)
    ensures OfferInv(c, RxStep(c, l, f))
  {
    hide Content;
    FullLeavesOne(l.ssd, c.bufferLen);
    if l.rx.RxPoll? {
      assert Front(RxStep(c, l, f).offered) == l.offered;
    }
  }

  /** What the worker and the monitor see of a lane does not change under a receiving core's step. */
  lemma RxIsUnseen(c: Params, l: Lane, w: WorkPc, f: Frame)
    requires RxInv(c, l, w)
    ensures var n := RxStep(c, l, f);
      && n == l.(ssd := n.ssd, rx := n.rx, received := n.received, short := n.short, dropped := n.dropped,
             offered := n.offered, accepted := n.accepted)
      && l.accepted <= n.accepted && Whole(n.ssd, c.bufferLen)
      && (!w.WorkPoll? ==> Head(n.ssd) == Head(l.ssd))
  {
    RxKeepsRing(c, l, w, f);
    if !w.WorkPoll? {
      HeadIsNext(c, l, w);
      HeadIsNext(c, RxStep(c, l, f), w);
    }
  }

  lemma RxKeepsWork(c: Params, l: Lane, w: WorkPc, size: nat, f: Frame)
    requires RxInv(c, l, w) && WorkInv(c, l, w, size)
    ensures WorkInv(c, RxStep(c, l, f), w, size)
  {
    RxIsUnseen(c, l, w, f);
    hide Entries, Qualifies, KeyExtract, EntryOf, Content, RxInv, RxStep, Formed, Full;
    var n := RxStep(c, l, f);
    assert n.accepted[..Done(l, w)] == l.accepted[..Done(l, w)];
  }

  lemma RxKeepsMon(c: Params, l: Lane, w: WorkPc, m: MonPc, size: nat, f: Frame)
    requires RxInv(c, l, w) && MonInv(l, m, size)
    ensures MonInv(RxStep(c, l, f), m, size)
  {
  }

  lemma RxKeepsLane(c: Params, l: Lane, w: WorkPc, m: MonPc, size: nat, f: Frame)
    requires LaneInv(c, l, w, m, size)
    ensures LaneInv(c, RxStep(c, l, f), w, m, size)
  {
    hide RxInv, WorkInv, MonInv, OfferInv, RxStep;
    LaneIsReady(c, l, w, m, size);
    RxKeepsOffers(c, l, w, f);
    RxKeepsRing(c, l, w, f);
    RxKeepsWork(c, l, w, size, f);
    RxKeepsMon(c, l, w, m, size, f);
  }

  /** What the invariant says about the next steps: they are defined. */
  lemma LaneIsReady(c: Params, l: Lane, w: WorkPc, m: MonPc, size: nat)
    requires RxInv(c, l, w) && WorkInv(c, l, w, size) && MonInv(l, m, size)
    ensures Whole(l.ssd, c.bufferLen) && Formed(l.pr, size) && WorkReady(c, l, w, size) && MonReady(l, m, size)
  {
  }

  lemma EntriesSnoc(c: Params, fs: seq<Frame>, n: nat)
    requires n < |fs|
    ensures Entries(c, fs[..n + 1]) ==
      match EntryOf(c, fs[n]) { case Unknown => Entries(c, fs[..n]) case Known(e) => Entries(c, fs[..n]) + [e] }
  {
    assert fs[..n + 1][..n] == fs[..n];
  }

  lemma WorkKeepsRx(c: Params, l: Lane, w: WorkPc, size: nat, junk: nat -> Packet)
    requires RxInv(c, l, w) && WorkReady(c, l, w, size)
    ensures var n := WorkStep(c, l, w, size, junk); RxInv(c, n.0, n.1)
  {
    hide Content, KeyExtract, Qualifies, Grown, Store, Publish;
    if w.WorkAdvance? {
      AdvanceRemoves(l.ssd, c.bufferLen);
      TestsAreStable(l.ssd, c.bufferLen);
      HeadIsNext(c, l, w);
      SplitAt(l.accepted, l.taken);
    }
  }

  lemma SplitAt<T>(s: seq<T>, k: nat)
    requires k < |s|
    ensures s[k..] == [s[k]] + s[k + 1..] && s[..k + 1] == s[..k] + [s[k]]
  {
  }

  /** A frame that is skipped or unclassified contributes nothing. */
  lemma PassOverKeepsWork(c: Params, l: Lane, w: WorkPc, size: nat, n: Lane)
    requires RxInv(c, l, w) && WorkInv(c, l, w, size) && !w.WorkPoll? && !w.WorkAdvance?
    requires EntryOf(c, Head(l.ssd)).Unknown?
    requires n == l.(skipped := l.skipped + 1) || n == l.(unclassified := l.unclassified + 1)
    ensures WorkInv(c, n, WorkAdvance, size)
  {
    hide Entries, Content, EntryOf;
    HeadIsNext(c, l, w);
    EntriesSnoc(c, l.accepted, l.taken);
  }

  lemma FillKeepsWork(c: Params, l: Lane, size: nat, e: Packet)
    requires RxInv(c, l, WorkFill) && WorkInv(c, l, WorkFill, size) && Fits(l.pr)
    requires KeyExtract(c.labels, Head(l.ssd)) == Known(e)
    ensures WorkInv(c, l.(pr := Store(l.pr, e)), WorkPublish, size)
  {
    hide Entries, Content, KeyExtract, Qualifies;
    HeadIsNext(c, l, WorkFill);
    StoreIsInvisible(l.pr, size, e);
  }

  lemma PublishKeepsWork(c: Params, l: Lane, size: nat)
    requires RxInv(c, l, WorkPublish) && WorkInv(c, l, WorkPublish, size)
    ensures var n := l.(pr := Publish(l.pr, size), produced := l.produced + [l.pr.buf[l.pr.occ]]);
      WorkInv(c, n, WorkAdvance, size)
  {
    hide Entries, Content, EntryOf;
    HeadIsNext(c, l, WorkPublish);
    EntriesSnoc(c, l.accepted, l.taken);
    PublishAppends(l.pr, size);
  }

  lemma AdvanceKeepsWork(c: Params, l: Lane, size: nat)
    requires RxInv(c, l, WorkAdvance) && WorkInv(c, l, WorkAdvance, size)
    ensures WorkInv(c, l.(ssd := Advance(l.ssd, c.bufferLen), taken := l.taken + 1), WorkPoll, size)
  {
    hide Entries, Content, EntryOf;
    AdvanceRemoves(l.ssd, c.bufferLen);
  }

  /** The enlarged queue of the growing worker is its old queue exactly when that was not wrapped. */
  lemma GrownIsEnlarged(r: Ring<Packet>, size: nat, more: nat, junk: nat -> Packet)
    requires Formed(r, size) && more > 0
    ensures var g := Grown(r, size + more, junk);
      && Enlarged(r, g, size + more) && Formed(g, size + more) && (|r.buf| <= size ==> |g.buf| == size + more)
      && (r.deq <= r.occ <==> Content(g, size + more) == Content(r, size))
      && (r.deq <= r.occ && !Empty(r) ==> !Empty(g))
      && (r.deq <= r.occ ==> !Full(g, size + more))
      && (r.deq > r.occ ==> |Content(g, size + more)| > |Content(r, size)|)
  {
    var g := Grown(r, size + more, junk);
    EnlargedKeepsQueueIffUnwrapped(r, g, size, size + more);
    FullLeavesOne(g, size + more);
  }

  lemma GrowKeepsWork(c: Params, l: Lane, size: nat, junk: nat -> Packet)
    requires WorkInv(c, l, WorkReserve, size) && l.pr.deq <= l.pr.occ
    ensures WorkInv(c, l.(pr := Grown(l.pr, size + ParseQueue.REBUFF, junk)), WorkFill, size + ParseQueue.REBUFF)
  {
    hide Entries, Content, KeyExtract, Qualifies, Grown;
    GrownIsEnlarged(l.pr, size, ParseQueue.REBUFF, junk);
  }

  /** The size after the worker's step. */
  function SizeAfter(l: Lane, w: WorkPc, size: nat): nat
    requires Formed(l.pr, size)
  {
    if Grows(l, w, size) then size + ParseQueue.REBUFF else size
  }

  lemma WorkKeepsWork(c: Params, l: Lane, w: WorkPc, size: nat, junk: nat -> Packet)
    requires RxInv(c, l, w) && WorkInv(c, l, w, size) && WorkReady(c, l, w, size) && LaneSafe(c, l, w, size)
    ensures var n := WorkStep(c, l, w, size, junk); WorkInv(c, n.0, n.1, SizeAfter(l, w, size))
  {
    hide Entries, Content, KeyExtract, Qualifies, Grown;
    match w
    case WorkPoll =>
    case WorkRead =>
      if !Qualifies(Head(l.ssd)) {
        PassOverKeepsWork(c, l, w, size, WorkStep(c, l, w, size, junk).0);
      }
    case WorkReserve =>
      if Full(l.pr, size) {
        GrowKeepsWork(c, l, size, junk);
      }
    case WorkFill =>
      if KeyExtract(c.labels, Head(l.ssd)).Known? {
        FillKeepsWork(c, l, size, KeyExtract(c.labels, Head(l.ssd)).p);
      } else {
        PassOverKeepsWork(c, l, w, size, WorkStep(c, l, w, size, junk).0);
      }
    case WorkPublish => PublishKeepsWork(c, l, size);
    case WorkAdvance => AdvanceKeepsWork(c, l, size);
  }

  lemma FillKeepsMon(l: Lane, m: MonPc, size: nat, e: Packet)
    requires MonInv(l, m, size)
    ensures MonInv(l.(pr := Store(l.pr, e)), m, size)
  {
    hide Content;
    StoreIsInvisible(l.pr, size, e);
  }

  lemma PublishKeepsMon(l: Lane, m: MonPc, size: nat)
    requires MonInv(l, m, size) && !Full(l.pr, size) && Fits(l.pr)
    ensures MonInv(l.(pr := Publish(l.pr, size), produced := l.produced + [l.pr.buf[l.pr.occ]]), m, size)
  {
    hide Content;
    PublishAppends(l.pr, size);
    TestsAreStable(l.pr, size);
    ProducedGrows(l, m, l.pr.buf[l.pr.occ]);
  }

  /** The monitor's half of the invariant survives the worker's enlargement exactly when the queue is not wrapped. */
  lemma GrowKeepsMon(l: Lane, m: MonPc, size: nat, junk: nat -> Packet)
    requires MonInv(l, m, size)
    ensures var more := size + ParseQueue.REBUFF;
      MonInv(l.(pr := Grown(l.pr, more, junk)), m, more) <==> l.pr.deq <= l.pr.occ
  {
    hide Content, Grown;
    GrownIsEnlarged(l.pr, size, ParseQueue.REBUFF, junk);
  }

  lemma WorkKeepsMon(c: Params, l: Lane, w: WorkPc, m: MonPc, size: nat, junk: nat -> Packet)
    requires WorkInv(c, l, w, size) && MonInv(l, m, size) && WorkReady(c, l, w, size) && LaneSafe(c, l, w, size)
    ensures MonInv(WorkStep(c, l, w, size, junk).0, m, SizeAfter(l, w, size))
  {
    hide Entries, Qualifies, KeyExtract, Content, Store, Publish, Grown;
    if Grows(l, w, size) {
      GrowKeepsMon(l, m, size, junk);
    }
    if w.WorkFill? && KeyExtract(c.labels, Head(l.ssd)).Known? {
      FillKeepsMon(l, m, size, KeyExtract(c.labels, Head(l.ssd)).p);
    }
    if w.WorkPublish? {
      PublishKeepsMon(l, m, size);
    }
  }

  lemma ProducedGrows(l: Lane, m: MonPc, e: Packet)
    requires Bit(m.MonAdvance?) <= |l.consumed| <= |l.produced|
    ensures var k, more := |l.consumed| - Bit(m.MonAdvance?), l.produced + [e];
      more[k..] == l.produced[k..] + [e] && more[..|l.consumed|] == l.produced[..|l.consumed|]
  {
  }

  lemma WorkKeepsOffers(c: Params, l: Lane, w: WorkPc, size: nat, junk: nat -> Packet)
    requires OfferInv(c, l) && WorkReady(c, l, w, size)
    ensures OfferInv(c, WorkStep(c, l, w, size, junk).0)
  {
    hide Admitted, ShortOnes, Crowded, KeyExtract, Qualifies;
  }

  lemma WorkKeepsLane(c: Params, l: Lane, w: WorkPc, m: MonPc, size: nat, junk: nat -> Packet)
    requires LaneInv(c, l, w, m, size) && WorkReady(c, l, w, size) && LaneSafe(c, l, w, size)
    ensures var n := WorkStep(c, l, w, size, junk); LaneInv(c, n.0, n.1, m, SizeAfter(l, w, size))
  {
    hide RxInv, WorkInv, MonInv, OfferInv, WorkStep, LaneSafe;
    WorkKeepsOffers(c, l, w, size, junk);
    WorkKeepsRx(c, l, w, size, junk);
    WorkKeepsWork(c, l, w, size, junk);
    WorkKeepsMon(c, l, w, m, size, junk);
  }

  /** A queue that did not grow with the modulus keeps its invariant exactly when it is not wrapped. */
  lemma ModulusKeepsLane(c: Params, l: Lane, w: WorkPc, m: MonPc, size: nat, more: nat)
    requires LaneInv(c, l, w, m, size) && more > 0
    ensures LaneInv(c, l, w, m, size + more) <==> l.pr.deq <= l.pr.occ
  {
    hide Content, Entries, KeyExtract, Qualifies, RxInv, OfferInv;
    SharedModulusKeepsQueueIffUnwrapped(l.pr, size, size + more);
    if l.pr.deq <= l.pr.occ {
      FullLeavesOne(l.pr, size);
      FullLeavesOne(l.pr, size + more);
    }
  }

  lemma MonKeepsMon(l: Lane, m: MonPc, size: nat)
    requires MonInv(l, m, size) && MonReady(l, m, size)
    ensures MonInv(MonStep(l, m, size).0, MonStep(l, m, size).1, size)
  {
    hide Content;
    if !m.MonPoll? {
      AdvanceRemoves(l.pr, size);
      SplitAt(l.produced, |l.consumed| - Bit(m.MonAdvance?));
    }
  }

  lemma MonKeepsWork(c: Params, l: Lane, w: WorkPc, m: MonPc, size: nat)
    requires WorkInv(c, l, w, size) && MonInv(l, m, size) && MonReady(l, m, size)
    ensures WorkInv(c, MonStep(l, m, size).0, w, size)
  {
    hide Entries, Qualifies, KeyExtract, Content;
    if m.MonAdvance? {
      AdvanceRemoves(l.pr, size);
      TestsAreStable(l.pr, size);
    }
  }

  lemma MonKeepsRx(c: Params, l: Lane, w: WorkPc, m: MonPc, size: nat)
    requires RxInv(c, l, w) && MonReady(l, m, size)
    ensures RxInv(c, MonStep(l, m, size).0, w)
  {
  }

  lemma MonKeepsOffers(c: Params, l: Lane, m: MonPc, size: nat)
    requires OfferInv(c, l) && MonReady(l, m, size)
    ensures OfferInv(c, MonStep(l, m, size).0)
  {
    hide Admitted, ShortOnes, Crowded;
  }

  lemma MonKeepsLane(c: Params, l: Lane, w: WorkPc, m: MonPc, size: nat)
    requires LaneInv(c, l, w, m, size) && MonReady(l, m, size)
    ensures LaneInv(c, MonStep(l, m, size).0, w, MonStep(l, m, size).1, size)
  {
    hide RxInv, WorkInv, MonInv, OfferInv, MonStep;
    MonKeepsOffers(c, l, m, size);
    MonKeepsRx(c, l, w, m, size);
    MonKeepsWork(c, l, w, m, size);
    MonKeepsMon(l, m, size);
  }

  // ------------------------------------------------------------ the system invariant

  /** Where the worker of queue `q` stands when it is at `q`. */
  function WorkPcOf(c: Params, s: System, q: nat): WorkPc
    requires Placed(c, s)
  {
    if q < c.prQue * Sharding.Dive(c.rxQue, c.prQue) then
      Sharding.QuotientServes(c.rxQue, c.prQue, q);
      var worker := s.workers[Sharding.WorkerOf(c.rxQue, c.prQue, q)];
      if worker.at == q then worker.pc else WorkPoll
    else WorkPoll
  }

  function MonPcOf(s: System, q: nat): MonPc {
    if s.monAt == q then s.monPc else MonPoll
  }

  ghost predicate LanesHold(c: Params, s: System)
    requires Placed(c, s)
  {
    forall q :: 0 <= q < c.rxQue ==> LaneInv(c, s.lanes[q], WorkPcOf(c, s, q), MonPcOf(s, q), s.maxSize)
  }

  ghost predicate Inv(c: Params, s: System) {
    && Shaped(c, s) && LanesHold(c, s)
    && (forall q :: c.prQue * Sharding.Dive(c.rxQue, c.prQue) <= q < c.rxQue ==> s.lanes[q].taken == 0)
  }

  /** A worker is at one of its own queues. */
  lemma WorkerIsAt(c: Params, s: System, w: nat)
    requires Placed(c, s) && Working(c, w)
    ensures var at := s.workers[w].at;
      && at < c.prQue * Sharding.Dive(c.rxQue, c.prQue) && at < c.rxQue
      && w == Sharding.WorkerOf(c.rxQue, c.prQue, at) && WorkPcOf(c, s, at) == s.workers[w].pc
  {
    hide Sharding.Serves, Sharding.Dive, Sharding.WorkerOf;
    Sharding.ServerIsQuotient(c.rxQue, c.prQue, w, s.workers[w].at);
  }

  /** When every lane keeps its invariant, every core's next step is defined. */
  lemma LanesMakeShape(c: Params, s: System)
    requires Placed(c, s) && LanesHold(c, s)
    ensures Shaped(c, s)
  {
    hide RxInv, WorkInv, MonInv, Whole, Formed, WorkReady, MonReady, WorkPcOf, Sharding.Serves, Sharding.Dive;
    forall q | 0 <= q < c.rxQue
      ensures Whole(s.lanes[q].ssd, c.bufferLen) && Formed(s.lanes[q].pr, s.maxSize)
    {
      LaneIsReady(c, s.lanes[q], WorkPcOf(c, s, q), MonPcOf(s, q), s.maxSize);
    }
    forall w | 0 <= w < |s.workers| && Sharding.Dive(c.rxQue, c.prQue) > 0
      ensures WorkReady(c, s.lanes[s.workers[w].at], s.workers[w].pc, s.maxSize)
    {
      WorkerIsAt(c, s, w);
      var at := s.workers[w].at;
      LaneIsReady(c, s.lanes[at], WorkPcOf(c, s, at), MonPcOf(s, at), s.maxSize);
    }
    LaneIsReady(c, s.lanes[s.monAt], WorkPcOf(c, s, s.monAt), MonPcOf(s, s.monAt), s.maxSize);
  }

  // ------------------------------------------------------------------------ start

  lemma EmptyLaneInv(c: Params, f: Frame, e: Packet)
    requires Sensible(c)
    ensures LaneInv(c, EmptyLane(c, f, e), WorkPoll, MonPoll, c.queSize) && EmptyLane(c, f, e).taken == 0
  {
  }

  lemma StartServes(c: Params, w: nat)
    requires Sensible(c) && Working(c, w)
    ensures var at := w * Sharding.Dive(c.rxQue, c.prQue);
      at < c.rxQue && Sharding.Serves(c.rxQue, c.prQue, w, at)
  {
    var dive := Sharding.Dive(c.rxQue, c.prQue);
    assert (w + 1) * dive == w * dive + dive;
    Sharding.ProductOrder(w, c.prQue, dive);
    Sharding.OneWorkerPerQueue(c.rxQue, c.prQue, 0);
  }

  lemma StartIsPlaced(c: Params, f: Frame, e: Packet)
    requires Sensible(c)
    ensures Placed(c, Start(c, f, e))
  {
    hide EmptyLane, Sharding.Serves, Sharding.Dive;
    var s := Start(c, f, e);
    forall w | 0 <= w < |s.workers| && Sharding.Dive(c.rxQue, c.prQue) > 0
      ensures s.workers[w].at < c.rxQue && Sharding.Serves(c.rxQue, c.prQue, w, s.workers[w].at)
    {
      StartServes(c, w);
    }
  }

  /** At power-on every core polls. */
  lemma StartPcs(c: Params, f: Frame, e: Packet, q: nat)
    requires Sensible(c) && q < c.rxQue && Placed(c, Start(c, f, e))
    ensures var s := Start(c, f, e);
      s.lanes[q] == EmptyLane(c, f, e) && WorkPcOf(c, s, q) == WorkPoll && MonPcOf(s, q) == MonPoll
  {
    if q < c.prQue * Sharding.Dive(c.rxQue, c.prQue) {
      Sharding.QuotientServes(c.rxQue, c.prQue, q);
    }
  }

  lemma StartInv(c: Params, f: Frame, e: Packet)
    requires Sensible(c)
    ensures Inv(c, Start(c, f, e))
  {
    hide LaneInv, EmptyLane, Placed, WorkPcOf;
    StartIsPlaced(c, f, e);
    EmptyLaneInv(c, f, e);
    var s := Start(c, f, e);
    forall q | 0 <= q < c.rxQue
      ensures LaneInv(c, s.lanes[q], WorkPcOf(c, s, q), MonPcOf(s, q), s.maxSize)
    {
      StartPcs(c, f, e, q);
    }
    LanesMakeShape(c, s);
  }

  // ------------------------------------------------------------------------ steps

  lemma RxLeavesTaken(c: Params, l: Lane, f: Frame)
    requires Formed(l.ssd, c.bufferLen)
    ensures var n := RxStep(c, l, f);
      && n.taken == l.taken && n.consumed == l.consumed && n.produced == l.produced && l.accepted <= n.accepted
  {
  }

  lemma RxKeepsInv(c: Params, s: System, q: nat, f: Frame)
    requires Inv(c, s) && q < c.rxQue
    ensures Inv(c, Step(c, s, Rx(q, f)))
  {
    hide LaneInv, RxStep, Formed, WorkReady, MonReady, Sharding.Serves, Sharding.Dive;
    var t := Step(c, s, Rx(q, f));
    RxLeavesTaken(c, s.lanes[q], f);
    forall p | 0 <= p < c.rxQue
      ensures LaneInv(c, t.lanes[p], WorkPcOf(c, t, p), MonPcOf(t, p), t.maxSize)
    {
      assert LaneInv(c, s.lanes[p], WorkPcOf(c, s, p), MonPcOf(s, p), s.maxSize);
      assert WorkPcOf(c, t, p) == WorkPcOf(c, s, p);
      if p == q {
        RxKeepsLane(c, s.lanes[q], WorkPcOf(c, s, q), MonPcOf(s, q), s.maxSize, f);
      }
    }
    LanesMakeShape(c, t);
  }

  lemma NextInRangeServes(c: Params, w: nat, q: nat)
    requires c.prQue > 0 && Sharding.Serves(c.rxQue, c.prQue, w, q) && Sharding.Dive(c.rxQue, c.prQue) > 0
    ensures Sharding.Serves(c.rxQue, c.prQue, w, NextInRange(c, w, q)) && NextInRange(c, w, q) < c.rxQue
  {
    var dive, n := Sharding.Dive(c.rxQue, c.prQue), NextInRange(c, w, q);
    assert (w + 1) * dive == w * dive + dive;
    Sharding.OneWorkerPerQueue(c.rxQue, c.prQue, n);
    Sharding.ServerIsQuotient(c.rxQue, c.prQue, w, n);
  }

  lemma WorkIsPlaced(c: Params, s: System, w: nat, junk: nat -> Packet)
    requires Shaped(c, s) && Working(c, w)
    ensures Placed(c, Step(c, s, Work(w, junk)))
  {
    hide WorkStep, Whole, Formed, WorkReady, MonReady, NextInRange, Sharding.Serves, Sharding.Dive;
    NextInRangeServes(c, w, s.workers[w].at);
  }

  /** Only the stepping worker's own queue sees its program counter and its lane move. */
  lemma WorkMoves(c: Params, s: System, w: nat, junk: nat -> Packet, q: nat)
    requires Shaped(c, s) && Working(c, w) && q < c.rxQue
    requires Placed(c, Step(c, s, Work(w, junk)))
    ensures var t, at := Step(c, s, Work(w, junk)), s.workers[w].at;
      var n := WorkStep(c, s.lanes[at], s.workers[w].pc, s.maxSize, junk);
      && t.maxSize == SizeAfter(s.lanes[at], s.workers[w].pc, s.maxSize) && MonPcOf(t, q) == MonPcOf(s, q)
      && t.lanes[q] == (if q == at then n.0 else s.lanes[q])
      && WorkPcOf(c, t, q) == if q == at then n.1 else WorkPcOf(c, s, q)
  {
    hide WorkStep, Whole, Formed, WorkReady, MonReady, NextInRange, Sharding.WorkerOf, Sharding.Dive;
    Sharding.ServerIsQuotient(c.rxQue, c.prQue, w, s.workers[w].at);
    if q < c.prQue * Sharding.Dive(c.rxQue, c.prQue) {
      Sharding.QuotientServes(c.rxQue, c.prQue, q);
    }
  }

  lemma WorkKeepsOneLane(c: Params, s: System, w: nat, junk: nat -> Packet, q: nat)
    requires Inv(c, s) && Working(c, w) && q < c.rxQue
    requires Safe(c, s, Work(w, junk)) && Placed(c, Step(c, s, Work(w, junk)))
    ensures var t := Step(c, s, Work(w, junk));
      LaneInv(c, t.lanes[q], WorkPcOf(c, t, q), MonPcOf(t, q), t.maxSize)
  {
    hide LaneInv, WorkStep, Whole, Formed, WorkReady, MonReady, WorkPcOf, LaneSafe, Step, Sharding.Dive, Sharding.Serves;
    WorkMoves(c, s, w, junk, q);
    WorkerIsAt(c, s, w);
    var at := s.workers[w].at;
    assert LaneInv(c, s.lanes[q], WorkPcOf(c, s, q), MonPcOf(s, q), s.maxSize);
    if q == at {
      WorkKeepsLane(c, s.lanes[at], s.workers[w].pc, MonPcOf(s, at), s.maxSize, junk);
    } else if Grows(s.lanes[at], s.workers[w].pc, s.maxSize) {
      ModulusKeepsLane(c, s.lanes[q], WorkPcOf(c, s, q), MonPcOf(s, q), s.maxSize, ParseQueue.REBUFF);
    }
  }

  lemma WorkKeepsInv(c: Params, s: System, w: nat, junk: nat -> Packet)
    requires Inv(c, s) && Working(c, w) && Safe(c, s, Work(w, junk))
    ensures Inv(c, Step(c, s, Work(w, junk)))
  {
    hide LaneInv, WorkStep, WorkPcOf, Step, Safe, Whole, Formed, WorkReady, MonReady, Sharding.Serves;
    WorkIsPlaced(c, s, w, junk);
    var t, dive := Step(c, s, Work(w, junk)), Sharding.Dive(c.rxQue, c.prQue);
    forall q | 0 <= q < c.rxQue
      ensures LaneInv(c, t.lanes[q], WorkPcOf(c, t, q), MonPcOf(t, q), t.maxSize)
      ensures c.prQue * dive <= q ==> t.lanes[q].taken == 0
    {
      WorkKeepsOneLane(c, s, w, junk, q);
      WorkMoves(c, s, w, junk, q);
      WorkerIsAt(c, s, w);
    }
    LanesMakeShape(c, t);
  }

  lemma LaneKeptIsSafe(c: Params, l: Lane, w: WorkPc, m: MonPc, size: nat, junk: nat -> Packet)
    requires LaneInv(c, l, w, m, size) && WorkReady(c, l, w, size)
    requires var n := WorkStep(c, l, w, size, junk); LaneInv(c, n.0, n.1, m, SizeAfter(l, w, size))
    ensures LaneSafe(c, l, w, size)
  {
    hide Content, Entries, KeyExtract, Qualifies, Grown, RxInv;
    if Grows(l, w, size) {
      GrowKeepsMon(l, m, size, junk);
    }
  }

  /** A step that the guard forbids breaks the invariant: an enlargement that finds any queue wrapped loses
      or invents entries, and a write past the end of its buffer loses its entry. */
  lemma UnsafeBreaksInv(c: Params, s: System, w: nat, junk: nat -> Packet)
    requires Inv(c, s) && Working(c, w) && Inv(c, Step(c, s, Work(w, junk)))
    ensures Safe(c, s, Work(w, junk))
  {
    hide WorkPcOf, LaneInv, WorkStep, Step, LaneSafe, Whole, Formed, WorkReady, MonReady, Full, Sharding.Dive, Sharding.Serves;
    var t, at, size := Step(c, s, Work(w, junk)), s.workers[w].at, s.maxSize;
    WorkerIsAt(c, s, w);
    forall q | 0 <= q < c.rxQue
      ensures q == at ==> LaneSafe(c, s.lanes[at], s.workers[w].pc, size)
      ensures q != at && Grows(s.lanes[at], s.workers[w].pc, size) ==> s.lanes[q].pr.deq <= s.lanes[q].pr.occ
    {
      WorkMoves(c, s, w, junk, q);
      assert LaneInv(c, s.lanes[q], WorkPcOf(c, s, q), MonPcOf(s, q), size);
      assert LaneInv(c, t.lanes[q], WorkPcOf(c, t, q), MonPcOf(t, q), t.maxSize);
      if q == at {
        LaneKeptIsSafe(c, s.lanes[at], s.workers[w].pc, MonPcOf(s, at), size, junk);
      } else if Grows(s.lanes[at], s.workers[w].pc, size) {
        ModulusKeepsLane(c, s.lanes[q], WorkPcOf(c, s, q), MonPcOf(s, q), size, ParseQueue.REBUFF);
      }
    }
    if Grows(s.lanes[at], s.workers[w].pc, size) {
      SafeLaneIsUnwrapped(c, s.lanes[at], s.workers[w].pc, size);
    }
  }

  lemma SafeLaneIsUnwrapped(c: Params, l: Lane, w: WorkPc, size: nat)
    requires WorkReady(c, l, w, size) && LaneSafe(c, l, w, size) && Grows(l, w, size)
    ensures l.pr.deq <= l.pr.occ
  {
  }

  lemma MonIsPlaced(c: Params, s: System)
    requires Shaped(c, s)
    ensures Placed(c, Step(c, s, Mon))
    ensures var t, at := Step(c, s, Mon), s.monAt;
      && t.maxSize == s.maxSize && t.workers == s.workers
      && t.lanes == s.lanes[at := MonStep(s.lanes[at], s.monPc, s.maxSize).0]
      && MonPcOf(t, at) == MonStep(s.lanes[at], s.monPc, s.maxSize).1
      && forall q :: q != at ==> MonPcOf(t, q) == MonPcOf(s, q)
  {
  }

  lemma MonLeavesTaken(l: Lane, m: MonPc, size: nat)
    requires MonReady(l, m, size)
    ensures MonStep(l, m, size).0.taken == l.taken && MonStep(l, m, size).0.produced == l.produced
  {
  }

  lemma MonKeepsInv(c: Params, s: System)
    requires Inv(c, s)
    ensures Inv(c, Step(c, s, Mon))
  {
    hide LaneInv, MonStep, Step, Whole, Formed, WorkReady, MonReady, Sharding.Serves, Sharding.Dive, MonPcOf;
    MonIsPlaced(c, s);
    MonLeavesTaken(s.lanes[s.monAt], s.monPc, s.maxSize);
    MonPcAtItself(s);
    var t := Step(c, s, Mon);
    forall q | 0 <= q < c.rxQue
      ensures LaneInv(c, t.lanes[q], WorkPcOf(c, t, q), MonPcOf(t, q), t.maxSize)
    {
      assert LaneInv(c, s.lanes[q], WorkPcOf(c, s, q), MonPcOf(s, q), s.maxSize);
      assert WorkPcOf(c, t, q) == WorkPcOf(c, s, q);
      if q == s.monAt {
        MonKeepsLane(c, s.lanes[q], WorkPcOf(c, s, q), s.monPc, s.maxSize);
      }
    }
    LanesMakeShape(c, t);
  }

  lemma MonPcAtItself(s: System)
    ensures MonPcOf(s, s.monAt) == s.monPc
  {
  }

  /** Every step of every core keeps the invariant if and only if it is safe. */
  lemma StepKeepsInvIffSafe(c: Params, s: System, a: Action)
    requires Inv(c, s)
    ensures Inv(c, Step(c, s, a)) <==> Safe(c, s, a)
  {
    match a
    case Rx(q, f) => if q < c.rxQue { RxKeepsInv(c, s, q, f); }
    case Work(w, junk) =>
      if Working(c, w) {
        if Safe(c, s, a) {
          WorkKeepsInv(c, s, w, junk);
        }
        if Inv(c, Step(c, s, a)) {
          UnsafeBreaksInv(c, s, w, junk);
        }
      }
    case Mon => MonKeepsInv(c, s);
    case Tick =>
  }
}
