/** Whole runs of the monitor object: every packet and every tick, and the reports they yield. */
module Serving {
  import opened Basics
  import opened Matching
  import opened Exactness
  import opened Report
  import Monitor

  /** The samples of each reported interval. */
  function Intervals(cfg: Config, es: seq<Event>): seq<seq<Sample>> {
    if es == [] then []
    else if Clears(cfg, es) then Intervals(cfg, Front(es)) + [After(cfg, Front(es)).samples]
    else Intervals(cfg, Front(es))
  }

  /** The answers the reference observer has seen in each interval that had any. */
  function Published(es: seq<Event>): seq<seq<Answer>> {
    if es == [] then []
    else if Last(es).Tick? && Observed(Front(es)).answers != []
    then Published(Front(es)) + [Observed(Front(es)).answers]
    else Published(Front(es))
  }

  /** On clean traffic the reported intervals hold exactly the response times of the exchanges, each in
      its own class. */
  lemma {:induction false} IntervalsAreExact(cfg: Config, es: seq<Event>)
    requires CleanRun(es)
    ensures |Intervals(cfg, es)| == |Published(es)|
    ensures forall i :: 0 <= i < |Intervals(cfg, es)| ==> Intervals(cfg, es)[i] == AsSamples(cfg, Published(es)[i])
  {
    if es != [] {
      IntervalsAreExact(cfg, Front(es));
      CleanRunSimulates(cfg, Front(es));
    }
  }

  ghost predicate Reports(cfg: Config, es: seq<Event>, enablePri: bool, reports: seq<Cdf>) {
    && |reports| == |Intervals(cfg, es)|
    && forall i :: 0 <= i < |reports| ==> Monitor.Describes(reports[i], Intervals(cfg, es)[i], enablePri)
  }

  lemma RunSnoc(cfg: Config, es: seq<Event>, k: nat)
    requires k < |es|
    ensures After(cfg, es[..k + 1]) == Apply(cfg, After(cfg, es[..k]), es[k])
    ensures Intervals(cfg, es[..k + 1]) == Intervals(cfg, es[..k]) +
      if es[k].Tick? && After(cfg, es[..k]).samples != [] then [After(cfg, es[..k]).samples] else []
  {
    assert Front(es[..k + 1]) == es[..k];
  }

  /** The connections that have sent a request. */
  function Requesters(es: seq<Event>): set<Key> {
    set i | 0 <= i < |es| && es[i].Deliver? && es[i].p.kind == Request :: es[i].p.key
  }

  lemma RequestersSnoc(es: seq<Event>, k: nat)
    requires k < |es|
    ensures Requesters(es[..k + 1]) <= Requesters(es)
    ensures Requesters(es[..k + 1]) == Requesters(es[..k]) +
      if es[k].Deliver? && es[k].p.kind == Request then {es[k].p.key} else {}
  {
    assert forall i :: 0 <= i < k ==> es[..k + 1][i] == es[..k][i] == es[i];
    assert es[..k + 1][k] == es[k];
  }

  /** The table holds exactly the connections that have sent a request. */
  lemma {:induction false} TableHoldsRequesters(cfg: Config, es: seq<Event>)
    ensures After(cfg, es).slots.Keys == Requesters(es)
  {
    if es != [] {
      TableHoldsRequesters(cfg, Front(es));
      RequestersSnoc(es, |es| - 1);
      assert es[..|es|] == es && es[..|es| - 1] == Front(es);
    }
  }

  /** A run that fits the table leaves room for its next packet. */
  lemma RoomRemains(cfg: Config, es: seq<Event>, k: nat, entries: nat)
    requires k < |es| && |Requesters(es)| <= entries && es[k].Deliver? && es[k].p.kind == Request
    ensures es[k].p.key in After(cfg, es[..k]).slots || |After(cfg, es[..k]).slots| < entries
  {
    var slots, key := After(cfg, es[..k]).slots, es[k].p.key;
    TableHoldsRequesters(cfg, es[..k]);
    RequestersSnoc(es, k);
    assert |slots| == |slots.Keys|;
    if key !in slots {
      assert |slots.Keys + {key}| == |slots| + 1;
      SubsetSize(slots.Keys + {key}, Requesters(es));
    }
  }

  ghost predicate Ready(m: Monitor.Monitor, buffers: PriorityBuffers)
    reads m, m.table, m.table.Repr, m.samples, m.samples.Repr, m.intervalCnt, buffers
  {
    m.Valid() && m.SketchClear() && buffers.Valid() && m.Apart(buffers)
  }

  /** One event on the object. */
  method ServeOne(m: Monitor.Monitor, e: Event, buffers: PriorityBuffers, enablePri: bool)
    returns (report: Cdf, reported: bool)
    requires Ready(m, buffers)
    requires e.Deliver? && e.p.kind == Request ==> e.p.key in m.View().slots || |m.View().slots| < m.table.slots.Length
    requires var s := m.View(); s.idxHigh == HighCount(s.samples) && s.idxHigh + s.idxLow == |s.samples|
    modifies m, m.table.Repr, m.samples.Repr, m.intervalCnt, buffers, buffers.high, buffers.low
    ensures Ready(m, buffers) && m.View() == Apply(m.cfg, old(m.View()), e)
    ensures fresh(m.samples.Repr - old(m.samples.Repr))
    ensures fresh({buffers.high, buffers.low} - old({buffers.high, buffers.low}))
    ensures reported <==> e.Tick? && old(m.View()).samples != []
    ensures reported ==> Monitor.Describes(report, old(m.View()).samples, enablePri)
  {
    hide OnRequest, OnResponse, Monitor.Describes;
    hide Monitor.SlotTable.Valid, Monitor.SampleBuffer.Valid;
    match e
    case Deliver(p) =>
      m.Poll(p);
      report, reported := Cdf(0.0, 0.0, 0.0, [], [], [], 0, 0, []), false;
    case Tick =>
      report, reported := m.Tick(buffers, enablePri);
  }

  lemma ReportsGrow(cfg: Config, es: seq<Event>, k: nat, enablePri: bool, reports: seq<Cdf>, report: Cdf, reported: bool)
    requires k < |es| && Reports(cfg, es[..k], enablePri, reports)
    requires reported <==> es[k].Tick? && After(cfg, es[..k]).samples != []
    requires reported ==> Monitor.Describes(report, After(cfg, es[..k]).samples, enablePri)
    ensures Reports(cfg, es[..k + 1], enablePri, if reported then reports + [report] else reports)
  {
    hide After, Monitor.Describes;
    RunSnoc(cfg, es, k);
  }

  /** A whole run on the object from its start, given a position for each connection. Its state follows
      the machine, every tick finds the counters its report relies on, and each report
      describes exactly the samples of its interval. */
  method Serve(m: Monitor.Monitor, es: seq<Event>, buffers: PriorityBuffers, enablePri: bool) returns (reports: seq<Cdf>)
    requires Ready(m, buffers) && m.View() == INIT && |Requesters(es)| <= m.table.slots.Length
    modifies m, m.table.Repr, m.samples.Repr, m.intervalCnt, buffers, buffers.high, buffers.low
    ensures Ready(m, buffers) && m.View() == After(m.cfg, es)
    ensures Reports(m.cfg, es, enablePri, reports)
  {
    hide After, Apply, Intervals, HighCount, Monitor.Describes, Reports, Ready, Monitor.Monitor.View;
    reports := [];
    RunStart(m.cfg, enablePri);
    assert es[..0] == [];
    for k := 0 to |es|
      invariant Ready(m, buffers)
      invariant m.View() == After(m.cfg, es[..k])
      invariant Reports(m.cfg, es[..k], enablePri, reports)
      invariant fresh(m.samples.Repr - old(m.samples.Repr))
      invariant fresh({buffers.high, buffers.low} - old({buffers.high, buffers.low}))
    {
      RunSnoc(m.cfg, es, k);
      PriorityCounters(m.cfg, es[..k]);
      if es[k].Deliver? && es[k].p.kind == Request {
        RoomRemains(m.cfg, es, k, m.table.slots.Length);
      }
      var report, reported := ServeOne(m, es[k], buffers, enablePri);
      ReportsGrow(m.cfg, es, k, enablePri, reports, report, reported);
      if reported {
        reports := reports + [report];
      }
    }
    assert es[..|es|] == es;
  }

  lemma RunStart(cfg: Config, enablePri: bool)
    ensures After(cfg, []) == INIT && Reports(cfg, [], enablePri, [])
  {
  }

  /** So on clean traffic every report is about the exchanges themselves: it gives the average, the
      nearest-rank percentiles and the histogram of their response times, and the size, average and
      percentiles of each class of exchanges. */
  lemma ReportsAreExact(cfg: Config, es: seq<Event>, enablePri: bool, reports: seq<Cdf>)
    requires CleanRun(es) && Reports(cfg, es, enablePri, reports)
    ensures |reports| == |Published(es)|
    ensures forall i :: 0 <= i < |reports| ==>
      Monitor.Describes(reports[i], AsSamples(cfg, Published(es)[i]), enablePri)
  {
    IntervalsAreExact(cfg, es);
  }
}
