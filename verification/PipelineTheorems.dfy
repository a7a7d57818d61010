/** What holds in every reachable state of the pipeline, whatever the interleaving. */
module PipelineTheorems {
  import opened Basics
  import opened Rings
  import opened Frames
  import opened FrameFormat
  import opened Pipeline
  import ParseQueue
  import Sharding

  /** Every step so far was safe: each enlargement found no queue wrapped, and each entry was
      written inside its queue's buffer. By StepKeepsInvIffSafe a run is in order exactly so long. */
  ghost predicate SafeRun(c: Params, s: System, acts: seq<Action>)
    requires Inv(c, s)
    decreases |acts|, 0
  {
    acts == [] || (SafeRun(c, s, Front(acts)) && Safe(c, RunFrom(c, s, Front(acts)), Last(acts)))
  }

  /** The state after any safe sequence of steps from `s`. */
  ghost function RunFrom(c: Params, s: System, acts: seq<Action>): (t: System)
    requires Inv(c, s) && SafeRun(c, s, acts)
    ensures Inv(c, t)
    decreases |acts|, 1
  {
    if acts == [] then s
    else
      var t := RunFrom(c, s, Front(acts));
      StepKeepsInvIffSafe(c, t, Last(acts));
      Step(c, t, Last(acts))
  }

  /** A safe sequence of steps from power-on. */
  ghost predicate Boots(c: Params, f: Frame, e: Packet, acts: seq<Action>) {
    Sensible(c) && (StartInv(c, f, e); SafeRun(c, Start(c, f, e), acts))
  }

  /** The state after it. */
  ghost function Reached(c: Params, f: Frame, e: Packet, acts: seq<Action>): (t: System)
    requires Boots(c, f, e, acts)
    ensures Inv(c, t)
  {
    StartInv(c, f, e);
    RunFrom(c, Start(c, f, e), acts)
  }

  lemma LaneHolds(c: Params, s: System, q: nat)
    requires Inv(c, s) && q < c.rxQue
    ensures |s.lanes| == c.rxQue
    ensures LaneInv(c, s.lanes[q], WorkPcOf(c, s, q), MonPcOf(s, q), s.maxSize)
  {
  }

  lemma {:induction false} EntriesPrefix(c: Params, fs: seq<Frame>, n: nat)
    requires n <= |fs|
    ensures Entries(c, fs[..n]) <= Entries(c, fs)
    decreases |fs| - n
  {
    if n == |fs| {
      assert fs[..n] == fs;
    } else {
      EntriesPrefix(c, fs, n + 1);
      EntriesSnoc(c, fs, n);
    }
  }

  /** What a frame contributes to the queue, by the bytes it was written with: nothing unless it is TCP, and
      then what the parser reads, which is what was written. */
  lemma EntryOfWritten(c: Params, f: Frame, w: Wire)
    requires Carries(f, w)
    ensures w.protocol != 6 ==> EntryOf(c, f) == Unknown
    ensures w.protocol == 6 ==> EntryOf(c, f) == KeyExtract(c.labels, f)
  {
    QualifiesIffTcp(f, w);
  }

  lemma LaneIsFifo(c: Params, l: Lane, w: WorkPc, m: MonPc, size: nat)
    requires LaneInv(c, l, w, m, size)
    ensures l.consumed <= l.produced <= Entries(c, l.accepted)
  {
    EntriesPrefix(c, l.accepted, Done(l, w));
  }

  /** Refinement to a queue: what the monitor has consumed from queue `q` is a prefix of the
      classified entries of the frames accepted into `SSD_Ring[q]`, in order, none lost or repeated. */
  lemma ConsumedIsFifoPrefix(c: Params, f: Frame, e: Packet, acts: seq<Action>, q: nat)
    requires Boots(c, f, e, acts) && q < c.rxQue
    ensures var s := Reached(c, f, e, acts);
      |s.lanes| == c.rxQue && s.lanes[q].consumed <= Entries(c, s.lanes[q].accepted)
  {
    hide LaneInv;
    var s := Reached(c, f, e, acts);
    LaneHolds(c, s, q);
    LaneIsFifo(c, s.lanes[q], WorkPcOf(c, s, q), MonPcOf(s, q), s.maxSize);
  }

  /** No core stores into the slot another is reading: the entry a worker or the monitor has
      found does not change under it, whatever its producer does next. */
  ghost predicate Untorn(c: Params, l: Lane, w: WorkPc, m: MonPc, size: nat) {
    && WorkReady(c, l, w, size) && MonReady(l, m, size)
    && (l.rx.RxStore? && !w.WorkPoll? ==> l.ssd.occ != l.ssd.deq)
    && (w.WorkFill? && !m.MonPoll? ==> l.pr.occ != l.pr.deq)
    && (!w.WorkPoll? ==> forall f :: SameHead(RxStep(c, l, f).ssd, l.ssd))
    && (!m.MonPoll? ==> forall junk :: SameHead(WorkStep(c, l, w, size, junk).0.pr, l.pr))
  }

  predicate SameHead<T(==)>(r: Ring<T>, s: Ring<T>) {
    r.deq == s.deq < |r.buf| && s.deq < |s.buf| && Head(r) == Head(s)
  }

  lemma LaneIsUntorn(c: Params, l: Lane, w: WorkPc, m: MonPc, size: nat)
    requires LaneInv(c, l, w, m, size)
    ensures Untorn(c, l, w, m, size)
  {
    hide Content, Entries, KeyExtract, Qualifies;
    FullLeavesOne(l.ssd, c.bufferLen);
    FullLeavesOne(l.pr, size);
  }

  /** In every reachable state nothing is read while it is written. */
  lemma NoTornReads(c: Params, f: Frame, e: Packet, acts: seq<Action>, q: nat)
    requires Boots(c, f, e, acts) && q < c.rxQue
    ensures var s := Reached(c, f, e, acts);
      |s.lanes| == c.rxQue && Untorn(c, s.lanes[q], WorkPcOf(c, s, q), MonPcOf(s, q), s.maxSize)
  {
    hide LaneInv;
    var s := Reached(c, f, e, acts);
    LaneHolds(c, s, q);
    LaneIsUntorn(c, s.lanes[q], WorkPcOf(c, s, q), MonPcOf(s, q), s.maxSize);
  }

  /** The books of one lane. The `Bit` terms are the packet a receiving core holds, and the packet a worker
      and the entry the monitor are done with but have not yet released. */
  ghost predicate Conserved(c: Params, l: Lane, w: WorkPc, m: MonPc, size: nat) {
    && Formed(l.ssd, c.bufferLen) && Formed(l.pr, size)
    && l.received + Bit(w.WorkAdvance?) + Bit(m.MonAdvance?) ==
         l.short + l.dropped + Bit(!l.rx.RxPoll?) + Count(l.ssd, c.bufferLen) +
         l.skipped + l.unclassified + Count(l.pr, size) + |l.consumed|
  }

  lemma LaneIsConserved(c: Params, l: Lane, w: WorkPc, m: MonPc, size: nat)
    requires LaneInv(c, l, w, m, size)
    ensures Conserved(c, l, w, m, size)
  {
    assert |l.accepted[l.taken..]| == Count(l.ssd, c.bufferLen);
    assert |l.produced[|l.consumed| - Bit(m.MonAdvance?)..]| == Count(l.pr, size);
  }

  /** Every received packet is accounted for, at every moment. */
  lemma PacketsAreConserved(c: Params, f: Frame, e: Packet, acts: seq<Action>, q: nat)
    requires Boots(c, f, e, acts) && q < c.rxQue
    ensures var s := Reached(c, f, e, acts);
      |s.lanes| == c.rxQue && Conserved(c, s.lanes[q], WorkPcOf(c, s, q), MonPcOf(s, q), s.maxSize)
  {
    hide LaneInv;
    var s := Reached(c, f, e, acts);
    LaneHolds(c, s, q);
    LaneIsConserved(c, s.lanes[q], WorkPcOf(c, s, q), MonPcOf(s, q), s.maxSize);
  }

  /** The queues beyond the last full share of the workers are never consumed. */
  lemma UnservedIsNeverConsumed(c: Params, f: Frame, e: Packet, acts: seq<Action>, q: nat)
    requires Boots(c, f, e, acts) && q < c.rxQue && !Sharding.Served(c.rxQue, c.prQue, q)
    ensures var s := Reached(c, f, e, acts); |s.lanes| == c.rxQue && s.lanes[q].consumed == []
  {
    Sharding.OneWorkerPerQueue(c.rxQue, c.prQue, q);
    var s := Reached(c, f, e, acts);
    LaneHolds(c, s, q);
    var l := s.lanes[q];
    assert l.accepted[..0] == [];
  }

  // ------------------------------------------------------------ when runs are safe

  /** The next step is a worker's and finds its queue full. */
  predicate GrowsAt(c: Params, s: System, a: Action) {
    Shaped(c, s) && a.Work? && Working(c, a.w) && Grows(s.lanes[s.workers[a.w].at], s.workers[a.w].pc, s.maxSize)
  }

  /** Every parse queue has a buffer of the common size. */
  predicate Roomy(s: System) {
    forall q :: 0 <= q < |s.lanes| ==> s.maxSize <= |s.lanes[q].pr.buf|
  }

  lemma RoomyStep(c: Params, s: System, a: Action)
    requires Inv(c, s) && Roomy(s) && !GrowsAt(c, s, a)
    ensures Safe(c, s, a) && Roomy(Step(c, s, a))
  {
    hide LaneInv;
  }

  /** A run is safe unless some parse queue fills during it. */
  lemma {:induction false} SafeUnlessFull(c: Params, s: System, acts: seq<Action>)
    requires Inv(c, s) && Roomy(s)
    ensures (SafeRun(c, s, acts) && Roomy(RunFrom(c, s, acts))) ||
      exists n :: 0 <= n < |acts| && SafeRun(c, s, acts[..n]) && GrowsAt(c, RunFrom(c, s, acts[..n]), acts[n])
    decreases |acts|
  {
    hide Inv, Roomy, GrowsAt, Safe, Step;
    if acts != [] {
      var pre := Front(acts);
      SafeUnlessFull(c, s, pre);
      if SafeRun(c, s, pre) && Roomy(RunFrom(c, s, pre)) {
        if GrowsAt(c, RunFrom(c, s, pre), Last(acts)) {
          assert acts[..|pre|] == pre;
        } else {
          RoomyStep(c, RunFrom(c, s, pre), Last(acts));
        }
      } else {
        var n :| 0 <= n < |pre| && SafeRun(c, s, pre[..n]) && GrowsAt(c, RunFrom(c, s, pre[..n]), pre[n]);
        assert acts[..n] == pre[..n];
      }
    }
  }

  /** From power-on: the theorems hold of every run in which no parse queue fills. */
  lemma BootsUnlessFull(c: Params, f: Frame, e: Packet, acts: seq<Action>)
    requires Sensible(c)
    ensures Inv(c, Start(c, f, e))
    ensures Boots(c, f, e, acts) ||
      exists n :: 0 <= n < |acts| && Boots(c, f, e, acts[..n]) && GrowsAt(c, Reached(c, f, e, acts[..n]), acts[n])
  {
    hide Inv, GrowsAt, Roomy, Start, SafeRun;
    StartInv(c, f, e);
    StartIsRoomy(c, f, e);
    var s := Start(c, f, e);
    SafeUnlessFull(c, s, acts);
    if !SafeRun(c, s, acts) {
      var n :| 0 <= n < |acts| && SafeRun(c, s, acts[..n]) && GrowsAt(c, RunFrom(c, s, acts[..n]), acts[n]);
      assert Boots(c, f, e, acts[..n]) && Reached(c, f, e, acts[..n]) == RunFrom(c, s, acts[..n]);
    }
  }

  lemma StartIsRoomy(c: Params, f: Frame, e: Packet)
    requires Sensible(c)
    ensures Roomy(Start(c, f, e))
  {
  }

  // ------------------------------------------------- what an unsafe enlargement does

  /** One look of the monitor at a queue: it takes the oldest entry, if it finds one. */
  function Look(l: Lane, size: nat): (n: Lane)
    requires Formed(l.pr, size)
  {
    var polled := MonStep(l, MonPoll, size);
    if polled.1.MonPoll? then polled.0
    else MonStep(MonStep(polled.0, MonTake, size).0, MonAdvance, size).0
  }

  lemma LookTakes(l: Lane, size: nat)
    requires Formed(l.pr, size)
    ensures var n, queued := Look(l, size), Content(l.pr, size);
      && Formed(n.pr, size) && n.accepted == l.accepted
      && n.consumed + Content(n.pr, size) == l.consumed + queued
      && |n.consumed| == |l.consumed| + Bit(queued != [])
  {
    FullLeavesOne(l.pr, size);
    if !Empty(l.pr) {
      AdvanceRemoves(l.pr, size);
    }
  }

  /** The lane after `n` looks. */
  function Looks(l: Lane, size: nat, n: nat): (t: Lane)
    requires Formed(l.pr, size)
    ensures Formed(t.pr, size)
  {
    if n == 0 then l else
      LookTakes(Looks(l, size, n - 1), size);
      Look(Looks(l, size, n - 1), size)
  }

  lemma {:induction false} LooksTake(l: Lane, size: nat, n: nat)
    requires Formed(l.pr, size)
    ensures var t, queued := Looks(l, size, n), Content(l.pr, size);
      && t.consumed + Content(t.pr, size) == l.consumed + queued
      && |t.consumed| == |l.consumed| + if n <= |queued| then n else |queued|
  {
    if n > 0 {
      LooksTake(l, size, n - 1);
      LookTakes(Looks(l, size, n - 1), size);
    }
  }

  /** The lane after its worker has enlarged its queue. */
  function AfterGrowth(l: Lane, size: nat, junk: nat -> Packet): Lane {
    l.(pr := Grown(l.pr, size + ParseQueue.REBUFF, junk))
  }

  /** And after `n` looks of the monitor at it. */
  function LooksAfterGrowth(l: Lane, size: nat, junk: nat -> Packet, n: nat): Lane
    requires Formed(l.pr, size)
  {
    GrownIsEnlarged(l.pr, size, ParseQueue.REBUFF, junk);
    Looks(AfterGrowth(l, size, junk), size + ParseQueue.REBUFF, n)
  }

  /** When a full queue is enlarged, whatever the fresh memory contains, the monitor goes on to consume a
      prefix of the accepted frames' entries if and only if the queue was not wrapped. */
  lemma GrowthIsHarmlessIffUnwrapped(c: Params, l: Lane, size: nat)
    requires LaneInv(c, l, WorkReserve, MonPoll, size) && Full(l.pr, size)
    ensures (forall junk, n :: LooksAfterGrowth(l, size, junk, n).consumed <= Entries(c, l.accepted)) <==>
      l.pr.deq <= l.pr.occ
  {
    hide Entries, LooksAfterGrowth;
    if l.pr.deq <= l.pr.occ {
      forall junk, n
        ensures LooksAfterGrowth(l, size, junk, n).consumed <= Entries(c, l.accepted)
      {
        UnwrappedGrowthIsHarmless(c, l, size, junk, n);
      }
    } else {
      var junk, n := WrappedGrowthGoesWrong(c, l, size);
      assert !(LooksAfterGrowth(l, size, junk, n).consumed <= Entries(c, l.accepted));
    }
  }

  lemma UnwrappedGrowthIsHarmless(c: Params, l: Lane, size: nat, junk: nat -> Packet, n: nat)
    requires LaneInv(c, l, WorkReserve, MonPoll, size) && l.pr.deq <= l.pr.occ
    ensures LooksAfterGrowth(l, size, junk, n).consumed <= Entries(c, l.accepted)
  {
    hide Entries, Looks, Grown, Content;
    GrownIsEnlarged(l.pr, size, ParseQueue.REBUFF, junk);
    LooksTake(AfterGrowth(l, size, junk), size + ParseQueue.REBUFF, n);
    LaneIsFifo(c, l, WorkReserve, MonPoll, size);
    assert l.consumed + Content(l.pr, size) == l.produced;
  }

  /** The fresh memory after the old end of a wrapped queue is consumed as if it were queued. */
  lemma WrappedGrowthGoesWrong(c: Params, l: Lane, size: nat) returns (junk: nat -> Packet, n: nat)
    requires LaneInv(c, l, WorkReserve, MonPoll, size) && l.pr.deq > l.pr.occ
    ensures !(LooksAfterGrowth(l, size, junk, n).consumed <= Entries(c, l.accepted))
  {
    hide Entries, Looks, RxInv;
    var more, all := size + ParseQueue.REBUFF, Entries(c, l.accepted);
    n := size - l.pr.deq + 1;
    var at := |l.consumed| + n - 1;
    var x := if at < |all| then Other(all[at]) else Other(l.pr.buf[0]);
    junk := (i: nat) => x;
    GrownIsEnlarged(l.pr, size, ParseQueue.REBUFF, junk);
    var g := AfterGrowth(l, size, junk);
    LooksTake(g, more, n);
    assert Content(g.pr, more)[n - 1] == x;
    var t := Looks(g, more, n);
    assert (t.consumed + Content(t.pr, more))[at] == x;
  }

  /** Some packet that differs from `p`. */
  function Other(p: Packet): (q: Packet)
    ensures q != p
  {
    p.(sec := p.sec + 1)
  }

  // --------------------------------------------------------------- no starvation

  /** How often the monitor has completed its look at queue `q`. */
  function Visits(s: System, q: nat): nat {
    s.passes + Bit(s.monAt > q || (s.monAt == q && s.monPc.MonAdvance?))
  }

  function Min(a: int, b: int): int {
    if a <= b then a else b
  }

  /** From `s` to `t` each look at queue `q` has consumed one entry of what was queued at `s`. */
  ghost predicate KeptServing(s: System, t: System, q: nat)
    requires q < |s.lanes| && q < |t.lanes|
  {
    && s.lanes[q].produced <= t.lanes[q].produced
    && Min(|s.lanes[q].produced|, |s.lanes[q].consumed| + Visits(t, q) - Visits(s, q)) <= |t.lanes[q].consumed|
  }

  lemma EmptyMeansAllConsumed(c: Params, l: Lane, w: WorkPc, size: nat)
    requires LaneInv(c, l, w, MonPoll, size) && Empty(l.pr)
    ensures l.consumed == l.produced
  {
    FullLeavesOne(l.pr, size);
    assert l.produced[|l.consumed|..] == [];
  }

  lemma WorkOnlyProduces(c: Params, l: Lane, w: WorkPc, size: nat, junk: nat -> Packet)
    requires WorkReady(c, l, w, size)
    ensures var n := WorkStep(c, l, w, size, junk).0; l.produced <= n.produced && n.consumed == l.consumed
  {
  }

  /** What one step of a core other than the monitor's does to the entries of a queue. */
  lemma OthersOnlyProduce(c: Params, s: System, q: nat, a: Action)
    requires Inv(c, s) && q < c.rxQue && !a.Mon?
    ensures var t := Step(c, s, a);
      && |s.lanes| == |t.lanes| == c.rxQue && t.monAt == s.monAt && t.monPc == s.monPc && t.passes == s.passes
      && s.lanes[q].produced <= t.lanes[q].produced && t.lanes[q].consumed == s.lanes[q].consumed
  {
    hide LaneInv, RxStep, WorkStep;
    match a
    case Rx(p, f) =>
      if p < c.rxQue {
        RxLeavesTaken(c, s.lanes[p], f);
      }
    case Work(w, junk) =>
      if Working(c, w) {
        WorkOnlyProduces(c, s.lanes[s.workers[w].at], s.workers[w].pc, s.maxSize, junk);
      }
    case Tick =>
  }

  lemma MonConsumes(c: Params, s: System, q: nat)
    requires Inv(c, s) && q < c.rxQue
    ensures var t := Step(c, s, Mon);
      && |s.lanes| == |t.lanes| == c.rxQue && t.lanes[q].produced == s.lanes[q].produced
      && t.lanes[q].consumed == s.lanes[q].consumed +
           if s.monPc.MonTake? && s.monAt == q then [Head(s.lanes[q].pr)] else []
  {
    hide LaneInv;
  }

  /** A look at a queue is completed by taking an entry or by finding it empty. */
  lemma MonVisits(c: Params, s: System, q: nat)
    requires Inv(c, s) && q < c.rxQue
    ensures |s.lanes| == c.rxQue
    ensures Visits(Step(c, s, Mon), q) == Visits(s, q) +
      Bit(s.monAt == q && (s.monPc.MonTake? || (s.monPc.MonPoll? && Empty(s.lanes[q].pr))))
  {
    hide LaneInv;
  }

  lemma MonServes(c: Params, s: System, q: nat)
    requires Inv(c, s) && q < c.rxQue
    ensures var t := Step(c, s, Mon);
      && |s.lanes| == |t.lanes| == c.rxQue && t.lanes[q].produced == s.lanes[q].produced
      && |s.lanes[q].consumed| <= |t.lanes[q].consumed| && Visits(s, q) <= Visits(t, q)
      && (Visits(t, q) - Visits(s, q) <= |t.lanes[q].consumed| - |s.lanes[q].consumed| ||
          (Visits(t, q) == Visits(s, q) + 1 && t.lanes[q].consumed == s.lanes[q].produced))
  {
    hide LaneInv, Step, Visits;
    MonConsumes(c, s, q);
    MonVisits(c, s, q);
    LaneHolds(c, s, q);
    if s.monAt == q && s.monPc.MonPoll? && Empty(s.lanes[q].pr) {
      EmptyMeansAllConsumed(c, s.lanes[q], WorkPcOf(c, s, q), s.maxSize);
    }
  }

  lemma StepServes(c: Params, s: System, t: System, q: nat, a: Action)
    requires Inv(c, s) && Inv(c, t) && q < c.rxQue && |s.lanes| == |t.lanes| == c.rxQue && KeptServing(s, t, q)
    ensures |Step(c, t, a).lanes| == c.rxQue && KeptServing(s, Step(c, t, a), q)
  {
    hide Inv, Step;
    if a.Mon? {
      MonServes(c, t, q);
    } else {
      OthersOnlyProduce(c, t, q, a);
    }
  }

  lemma {:induction false} RunServes(c: Params, s: System, acts: seq<Action>, q: nat)
    requires Inv(c, s) && q < c.rxQue && SafeRun(c, s, acts)
    ensures |s.lanes| == |RunFrom(c, s, acts).lanes| == c.rxQue && KeptServing(s, RunFrom(c, s, acts), q)
    decreases |acts|
  {
    hide Inv, Step;
    LaneHolds(c, s, q);
    if acts != [] {
      RunServes(c, s, Front(acts), q);
      StepServes(c, s, RunFrom(c, s, Front(acts)), q, Last(acts));
    }
  }

  /** No starvation: the first `k` entries of any backlog are consumed, in order, within `k` passes
      of the monitor (one more when it starts amid a pass), whatever the other queues and cores do. */
  lemma BacklogIsConsumed(c: Params, s: System, acts: seq<Action>, q: nat, k: nat)
    requires Inv(c, s) && q < c.rxQue && SafeRun(c, s, acts)
    requires |s.lanes[q].consumed| + k <= |s.lanes[q].produced|
    requires RunFrom(c, s, acts).passes >= s.passes + k + Bit(s.monAt != 0 || !s.monPc.MonPoll?)
    ensures var upto, t := |s.lanes[q].consumed| + k, RunFrom(c, s, acts);
      |t.lanes| == c.rxQue && s.lanes[q].produced[..upto] <= t.lanes[q].consumed
  {
    hide LaneInv;
    RunServes(c, s, acts, q);
    var t := RunFrom(c, s, acts);
    LaneHolds(c, t, q);
    LaneIsFifo(c, t.lanes[q], WorkPcOf(c, t, q), MonPcOf(t, q), t.maxSize);
    CommonPrefix(s.lanes[q].produced, t.lanes[q].consumed, t.lanes[q].produced, |s.lanes[q].consumed| + k);
  }

  lemma CommonPrefix<T>(a: seq<T>, b: seq<T>, whole: seq<T>, n: nat)
    requires a <= whole && b <= whole && n <= |a| && n <= |b|
    ensures a[..n] <= b
  {
  }
}
