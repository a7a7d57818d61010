/** Where the samples of the matching machine come from, and how many there can be. */
module Provenance {
  import opened Basics
  import opened CArith
  import opened Matching

  /** The last event is a packet of connection `k` disposed of as an accepted request. */
  predicate Accepts(cfg: Config, es: seq<Event>, k: Key)
    requires es != []
  {
    Last(es).Deliver? && Last(es).p.key == k && Disposal(cfg, es).Accepted?
  }

  /** The index of the latest request accepted on `k` since the table was last cleared. */
  function Source(cfg: Config, es: seq<Event>, k: Key): (r: Option<nat>)
    ensures r.Some? ==> r.value < |es|
  {
    if es == [] || Clears(cfg, es) then None
    else if Accepts(cfg, es, k) then Some(|es| - 1)
    else Source(cfg, Front(es), k)
  }

  /** The number of events up to and including the last clearing tick. */
  function IntervalStart(cfg: Config, es: seq<Event>): (n: nat)
    ensures n <= |es|
  {
    if es == [] then 0 else if Clears(cfg, es) then |es| else IntervalStart(cfg, Front(es))
  }

  /** Nothing between event `j` and the end of the run clears the table or replaces `k`'s request. */
  ghost predicate Undisturbed(cfg: Config, es: seq<Event>, j: nat, k: Key) {
    forall m :: j + 2 <= m <= |es| ==> !Clears(cfg, es[..m]) && !Accepts(cfg, es[..m], k)
  }

  lemma {:induction false} SourceIsLatest(cfg: Config, es: seq<Event>, k: Key)
    requires Source(cfg, es, k).Some?
    ensures var j := Source(cfg, es, k).value;
      && IntervalStart(cfg, es) <= j < |es|
      && Accepts(cfg, es[..j + 1], k)
      && Undisturbed(cfg, es, j, k)
  {
    var n, j := |es|, Source(cfg, es, k).value;
    assert es[..n] == es;
    if j < n - 1 {
      SourceIsLatest(cfg, Front(es), k);
      assert forall m :: 0 <= m < n ==> Front(es)[..m] == es[..m];
    }
  }

  /** A slot holds its latest accepted request, and is zero when there is none. */
  ghost predicate SlotMatches(cfg: Config, es: seq<Event>, k: Key) {
    var s := After(cfg, es);
    match Source(cfg, es, k)
    case None =>
      var slot := SlotOf(s, k);
      slot.sent == 0 && slot.len == 0 && slot.acked == 0 && !slot.counted
    case Some(j) =>
      && j < |es| && es[j].Deliver? && k in s.slots
      && var q, slot := es[j].p, s.slots[k];
      && q.kind == Request && q.key == k && q.sent > 0 && slot.counted
      && slot.sent == q.sent && slot.len == q.len && slot.sec == q.sec && slot.nsec == q.nsec
  }

  /** What one packet does to the slot of connection `k`. */
  lemma SlotStep(cfg: Config, s: State, p: Packet, k: Key)
    ensures var t, o := Apply(cfg, s, Deliver(p)), OutcomeOf(cfg, s, p);
      var was, now := SlotOf(s, k), SlotOf(t, k);
      && (k in s.slots ==> k in t.slots)
      && (p.key != k ==> now == was)
      && (p.key == k && o.Accepted? ==> k in t.slots && now == was.(
            sent := p.sent, len := p.len, sec := p.sec, nsec := p.nsec, counted := true, pri := now.pri))
      && (p.key == k && o.Recorded? ==> now == was.(acked := p.sent, pri := now.pri))
      && (!o.Accepted? && !o.Recorded? ==> now == was.(pri := now.pri))
  {
  }

  /** The table is a function of the history: at every moment each slot describes the
      connection's latest accepted request of the interval. */
  lemma {:induction false} SlotsHoldLatestRequest(cfg: Config, es: seq<Event>, k: Key)
    ensures SlotMatches(cfg, es, k)
  {
    if es != [] {
      SlotsHoldLatestRequest(cfg, Front(es), k);
      if Last(es).Deliver? {
        SlotStep(cfg, After(cfg, Front(es)), Last(es).p, k);
      }
    }
  }

  /** Acceptance without the table: a request is accepted exactly when its sequence number
      exceeds zero and every sequence number sent on the connection since the last clearing. */
  lemma {:induction false} AcceptedExactlyWhenHighest(cfg: Config, es: seq<Event>, p: Packet)
    requires p.kind == Request
    ensures OutcomeOf(cfg, After(cfg, es), p).Accepted? <==>
      p.sent > 0 && forall j :: IntervalStart(cfg, es) <= j < |es| && RequestOn(es[j], p.key) ==> es[j].p.sent < p.sent
  {
    SlotIsHighest(cfg, es, p.key);
  }

  predicate RequestOn(e: Event, k: Key) {
    e.Deliver? && e.p.kind == Request && e.p.key == k
  }

  lemma {:induction false} SlotIsHighest(cfg: Config, es: seq<Event>, k: Key)
    ensures var top := SlotOf(After(cfg, es), k).sent;
      && (forall j :: IntervalStart(cfg, es) <= j < |es| && RequestOn(es[j], k) ==> es[j].p.sent <= top)
      && (top > 0 ==> exists j :: IntervalStart(cfg, es) <= j < |es| && RequestOn(es[j], k) && es[j].p.sent == top)
  {
    if es != [] && !Clears(cfg, es) {
      var pre := Front(es);
      SlotIsHighest(cfg, pre, k);
      assert forall j :: 0 <= j < |pre| ==> pre[j] == es[j];
      if Last(es).Deliver? {
        hide OnRequest, OnResponse;
        SlotStep(cfg, After(cfg, pre), Last(es).p, k);
      }
    }
  }

  /** The index of the latest request seen on `k`, new or resent, since the table was last cleared. */
  function LatestRequest(cfg: Config, es: seq<Event>, k: Key): (r: Option<nat>)
    ensures r.Some? ==> r.value < |es|
  {
    if es == [] || Clears(cfg, es) then None
    else if RequestOn(Last(es), k) then Some(|es| - 1)
    else LatestRequest(cfg, Front(es), k)
  }

  /** Reading priorities from requests, a slot is marked by the latest request, even a resent one. */
  lemma {:induction false} SlotMarkedByLatest(cfg: Config, es: seq<Event>, k: Key)
    requires !cfg.rspPri
    ensures Source(cfg, es, k).Some? ==> LatestRequest(cfg, es, k).Some?
    ensures var j := LatestRequest(cfg, es, k);
      j.Some? ==> es[j.value].Deliver? && SlotOf(After(cfg, es), k).pri == Bit(es[j.value].p.pri == cfg.highLabel)
  {
    if es != [] {
      SlotMarkedByLatest(cfg, Front(es), k);
    }
  }

  /** The priority class of a sample recorded for `p` after the events `before`: the response's own,
      or that of its connection's latest request. */
  ghost predicate RightClass(cfg: Config, before: seq<Event>, p: Packet, high: bool) {
    if cfg.rspPri then high == (p.pri == cfg.highLabel)
    else
      var j := LatestRequest(cfg, before, p.key);
      j.Some? && before[j.value].Deliver? && high == (before[j.value].p.pri == cfg.highLabel)
  }

  /** Provenance of one sample: a later response inside the modular window of the latest accepted
      request of its own interval, with the positive latency measured from that request, and
      the class that the configuration says. */
  ghost predicate Grounded(cfg: Config, es: seq<Event>, i: nat, sample: Sample)
    requires i < |es|
  {
    && es[i].Deliver?
    && var p, before := es[i].p, es[..i];
    && p.kind == Response
    && Source(cfg, before, p.key).Some?
    && var j := Source(cfg, before, p.key).value;
    && IntervalStart(cfg, es) <= j < i
    && RequestOn(es[j], p.key)
    && Undisturbed(cfg, before, j, p.key)
    && InWindow(es[j].p.sent, es[j].p.len, p.sent)
    && sample.time == Time(p) - Time(es[j].p) > 0
    && RightClass(cfg, before, p, sample.high)
  }

  lemma RecordedIsGrounded(cfg: Config, es: seq<Event>)
    requires es != [] && Disposal(cfg, es).Recorded?
    ensures Grounded(cfg, es, |es| - 1, Disposal(cfg, es).sample)
  {
    var before, p := Front(es), Last(es).p;
    SlotsHoldLatestRequest(cfg, before, p.key);
    SourceIsLatest(cfg, before, p.key);
    if !cfg.rspPri {
      SlotMarkedByLatest(cfg, before, p.key);
    }
  }

  /** The events that recorded the samples now held, in order. */
  function Marks(cfg: Config, es: seq<Event>): seq<nat> {
    if es == [] || Clears(cfg, es) then []
    else Marks(cfg, Front(es)) + if Disposal(cfg, es).Recorded? then [|es| - 1] else []
  }

  /** Every sample the monitor holds is grounded, and each in an event of its own. */
  lemma {:induction false} SampleProvenance(cfg: Config, es: seq<Event>)
    ensures var marks, samples := Marks(cfg, es), After(cfg, es).samples;
      && |marks| == |samples|
      && (forall x :: 0 <= x < |marks| ==> marks[x] < |es| && Grounded(cfg, es, marks[x], samples[x]))
      && (forall x, y :: 0 <= x < y < |marks| ==> marks[x] < marks[y])
  {
    if es != [] && !Clears(cfg, es) {
      var pre := Front(es);
      SampleProvenance(cfg, pre);
      var marks := Marks(cfg, pre);
      forall x | 0 <= x < |marks|
        ensures Grounded(cfg, es, marks[x], After(cfg, pre).samples[x])
      {
        assert pre[..marks[x]] == es[..marks[x]];
      }
      if Disposal(cfg, es).Recorded? {
        RecordedIsGrounded(cfg, es);
      }
    }
  }

  /** A connection with no accepted request in the interval cannot record, whatever arrives. */
  lemma UnstartedNeverRecords(cfg: Config, es: seq<Event>, p: Packet)
    requires Source(cfg, es, p.key).None?
    ensures !OutcomeOf(cfg, After(cfg, es), p).Recorded?
  {
    SlotsHoldLatestRequest(cfg, es, p.key);
  }

  // ------------------------------------------------------------ pigeonhole bound

  /** The last event records a sample charged to the request at `j`. */
  predicate ChargesTo(cfg: Config, es: seq<Event>, j: nat)
    requires es != []
  {
    Disposal(cfg, es).Recorded? && Source(cfg, Front(es), Last(es).p.key) == Some(j)
  }

  /** How many samples were recorded while `j` was its connection's latest accepted request. */
  function Charged(cfg: Config, es: seq<Event>, j: nat): nat {
    if es == [] then 0 else Charged(cfg, Front(es), j) + Bit(ChargesTo(cfg, es, j))
  }

  function Acks(cfg: Config, es: seq<Event>, j: nat): set<Uint32> {
    if es == [] then {}
    else Acks(cfg, Front(es), j) + if ChargesTo(cfg, es, j) then {Last(es).p.sent} else {}
  }

  /** The acknowledgements in the modular window of a request. */
  function Window(sent: Uint32, len: nat): (w: set<Uint32>)
    ensures |w| <= len + 1
    decreases len
  {
    var last: Uint32 := (sent + len) % TWO32;
    if len == 0 then {last} else Window(sent, len - 1) + {last}
  }

  lemma Sub32Inverse(sent: Uint32, a: Uint32)
    ensures (sent + Sub32(a, sent)) % TWO32 == a
  {
  }

  lemma {:induction false} WindowHolds(sent: Uint32, len: nat, a: Uint32)
    requires Sub32(a, sent) <= len
    ensures a in Window(sent, len)
    decreases len
  {
    if Sub32(a, sent) == len {
      Sub32Inverse(sent, a);
    } else {
      WindowHolds(sent, len - 1, a);
    }
  }

  /** `a` is an acknowledgement in the window of the request at `j`, and bounded by the slot's
      highest acknowledgement while `j` is the latest request. */
  ghost predicate ChargeFits(cfg: Config, es: seq<Event>, j: nat, a: Uint32) {
    && j < |es| && es[j].Deliver? && InWindow(es[j].p.sent, es[j].p.len, a)
    && (Source(cfg, es, es[j].p.key) == Some(j) ==> a <= SlotOf(After(cfg, es), es[j].p.key).acked)
  }

  lemma ChargeStillFits(cfg: Config, es: seq<Event>, j: nat, a: Uint32)
    requires es != [] && ChargeFits(cfg, Front(es), j, a)
    ensures ChargeFits(cfg, es, j, a)
  {
    if Last(es).Deliver? {
      SlotStep(cfg, After(cfg, Front(es)), Last(es).p, es[j].p.key);
    }
  }

  lemma NewChargeFits(cfg: Config, es: seq<Event>, j: nat)
    requires es != [] && ChargesTo(cfg, es, j)
    ensures ChargeFits(cfg, es, j, Last(es).p.sent)
    ensures forall a: Uint32 :: ChargeFits(cfg, Front(es), j, a) ==> a < Last(es).p.sent
  {
    SlotsHoldLatestRequest(cfg, Front(es), Last(es).p.key);
    SlotStep(cfg, After(cfg, Front(es)), Last(es).p, Last(es).p.key);
  }

  /** The acknowledgements charged to `j` fit it and are distinct. */
  lemma {:induction false} ChargedAcks(cfg: Config, es: seq<Event>, j: nat)
    ensures |Acks(cfg, es, j)| == Charged(cfg, es, j)
    ensures forall a :: a in Acks(cfg, es, j) ==> ChargeFits(cfg, es, j, a)
  {
    if es != [] {
      var pre := Front(es);
      ChargedAcks(cfg, pre, j);
      forall a | a in Acks(cfg, pre, j)
        ensures ChargeFits(cfg, es, j, a)
      {
        ChargeStillFits(cfg, es, j, a);
      }
      if ChargesTo(cfg, es, j) {
        NewChargeFits(cfg, es, j);
      }
    }
  }

  /** Between two consecutive accepted requests of a connection at most payload + 1 samples
      are recorded, even when the window wraps around the sequence space. */
  lemma PigeonholeBound(cfg: Config, es: seq<Event>, j: nat)
    requires j < |es| && es[j].Deliver?
    ensures Charged(cfg, es, j) <= es[j].p.len + 1
  {
    ChargedAcks(cfg, es, j);
    var w := Window(es[j].p.sent, es[j].p.len);
    forall a | a in Acks(cfg, es, j)
      ensures a in w
    {
      WindowHolds(es[j].p.sent, es[j].p.len, a);
    }
    SubsetSize(Acks(cfg, es, j), w);
  }

  /** The samples charged to requests `lo..hi`. */
  function ChargedSum(cfg: Config, es: seq<Event>, lo: nat, hi: nat): nat
    decreases hi
  {
    if hi <= lo then 0 else ChargedSum(cfg, es, lo, hi - 1) + Charged(cfg, es, hi - 1)
  }

  /** The sum of payload + 1 over the accepted requests among events `lo..hi`. */
  function Budget(cfg: Config, es: seq<Event>, lo: nat, hi: nat): nat
    requires hi <= |es|
    decreases hi
  {
    if hi <= lo then 0
    else Budget(cfg, es, lo, hi - 1) + (if Disposal(cfg, es[..hi]).Accepted? then es[hi - 1].p.len + 1 else 0)
  }

  lemma {:induction false} ChargedOnlyAccepted(cfg: Config, es: seq<Event>, j: nat)
    ensures Charged(cfg, es, j) > 0 ==> j < |es| && Disposal(cfg, es[..j + 1]).Accepted?
  {
    if es != [] {
      var pre := Front(es);
      ChargedOnlyAccepted(cfg, pre, j);
      if ChargesTo(cfg, es, j) {
        SourceIsLatest(cfg, pre, Last(es).p.key);
      }
      if j < |pre| {
        assert pre[..j + 1] == es[..j + 1];
      }
    }
  }

  lemma {:induction false} ChargedStep(cfg: Config, es: seq<Event>, lo: nat, hi: nat)
    requires es != []
    ensures var src := if Disposal(cfg, es).Recorded? then Source(cfg, Front(es), Last(es).p.key) else None;
      ChargedSum(cfg, es, lo, hi) == ChargedSum(cfg, Front(es), lo, hi) + Bit(src.Some? && lo <= src.value < hi)
    decreases hi
  {
    if lo < hi {
      ChargedStep(cfg, es, lo, hi - 1);
    }
  }

  /** Every sample held is charged to exactly one request of the interval. */
  lemma {:induction false} SamplesAreCharged(cfg: Config, es: seq<Event>)
    ensures |After(cfg, es).samples| == ChargedSum(cfg, es, IntervalStart(cfg, es), |es|)
  {
    if es != [] && !Clears(cfg, es) {
      var pre, lo := Front(es), IntervalStart(cfg, es);
      SamplesAreCharged(cfg, pre);
      ChargedOnlyAccepted(cfg, pre, |pre|);
      ChargedStep(cfg, es, lo, |pre|);
      if Disposal(cfg, es).Recorded? {
        RecordedIsGrounded(cfg, es);
      }
    }
  }

  lemma {:induction false} ChargedWithinBudget(cfg: Config, es: seq<Event>, lo: nat, hi: nat)
    requires hi <= |es|
    ensures ChargedSum(cfg, es, lo, hi) <= Budget(cfg, es, lo, hi)
    decreases hi
  {
    if lo < hi {
      ChargedWithinBudget(cfg, es, lo, hi - 1);
      ChargedOnlyAccepted(cfg, es, hi - 1);
      if Charged(cfg, es, hi - 1) > 0 {
        PigeonholeBound(cfg, es, hi - 1);
      }
    }
  }

  /** The samples of an interval never outnumber its accepted payload bytes plus its accepted requests. */
  lemma IntervalBound(cfg: Config, es: seq<Event>)
    ensures |After(cfg, es).samples| <= Budget(cfg, es, IntervalStart(cfg, es), |es|)
  {
    SamplesAreCharged(cfg, es);
    ChargedWithinBudget(cfg, es, IntervalStart(cfg, es), |es|);
  }
}
