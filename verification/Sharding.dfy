/** How HCMonitor/main.c deals the receive queues out to the worker cores. */
module Sharding {

  /** The number of queues of each worker. */
  function Dive(rxQue: nat, prQue: nat): nat
    requires prQue > 0
  {
    rxQue / prQue
  }

  /** Worker `w` polls queue `q`. */
  predicate Serves(rxQue: nat, prQue: nat, w: nat, q: nat)
    requires prQue > 0
  {
    w < prQue && w * Dive(rxQue, prQue) <= q < (w + 1) * Dive(rxQue, prQue)
  }

  ghost predicate Served(rxQue: nat, prQue: nat, q: nat)
    requires prQue > 0
  {
    exists w :: Serves(rxQue, prQue, w, q)
  }

  lemma ProductOrder(a: nat, b: nat, c: nat)
    ensures a <= b ==> a * c <= b * c
    ensures a < b ==> (a + 1) * c <= b * c
  {
    if a <= b {
      ProductGap(a, b, c);
    }
    if a < b {
      ProductGap(a + 1, b, c);
    }
  }

  lemma ProductGap(a: nat, b: nat, c: nat)
    requires a <= b
    ensures a * c <= b * c
  {
    assert b * c == a * c + (b - a) * c;
  }

  /** The worker of a served queue. */
  function WorkerOf(rxQue: nat, prQue: nat, q: nat): nat
    requires prQue > 0 && Dive(rxQue, prQue) > 0
  {
    q / Dive(rxQue, prQue)
  }

  lemma ServerIsQuotient(rxQue: nat, prQue: nat, w: nat, q: nat)
    requires prQue > 0 && Serves(rxQue, prQue, w, q)
    ensures Dive(rxQue, prQue) > 0 && w == WorkerOf(rxQue, prQue, q)
    ensures q < prQue * Dive(rxQue, prQue)
  {
    ProductOrder(w, prQue, Dive(rxQue, prQue));
    QuotientIs(q, Dive(rxQue, prQue), w);
  }

  lemma QuotientServes(rxQue: nat, prQue: nat, q: nat)
    requires prQue > 0 && q < prQue * Dive(rxQue, prQue)
    ensures Dive(rxQue, prQue) > 0 && Serves(rxQue, prQue, WorkerOf(rxQue, prQue, q), q)
  {
    var dive := Dive(rxQue, prQue);
    assert dive > 0;
    var w := q / dive;
    assert q == w * dive + q % dive && (w + 1) * dive == w * dive + dive;
    ProductOrder(prQue, w, dive);
  }

  /** A queue has at most one worker, and has one exactly when it is below `prQue * dive`: the
      unserved queues are the last `rxQue - prQue * dive`. */
  lemma OneWorkerPerQueue(rxQue: nat, prQue: nat, q: nat)
    requires prQue > 0
    ensures prQue * Dive(rxQue, prQue) <= rxQue
    ensures Served(rxQue, prQue, q) <==> q < prQue * Dive(rxQue, prQue)
    ensures forall w :: Serves(rxQue, prQue, w, q) ==> Dive(rxQue, prQue) > 0 && w == WorkerOf(rxQue, prQue, q)
  {
    hide Serves, WorkerOf;
    forall w | Serves(rxQue, prQue, w, q)
      ensures Dive(rxQue, prQue) > 0 && w == WorkerOf(rxQue, prQue, q) && q < prQue * Dive(rxQue, prQue)
    {
      ServerIsQuotient(rxQue, prQue, w, q);
    }
    if q < prQue * Dive(rxQue, prQue) {
      QuotientServes(rxQue, prQue, q);
    }
  }

  lemma QuotientIs(q: nat, d: nat, w: nat)
    requires w * d <= q < (w + 1) * d
    ensures d > 0 && q / d == w
  {
    assert (w + 1) * d == w * d + d;
    var v := q / d;
    assert q == v * d + q % d && (v + 1) * d == v * d + d;
    ProductOrder(v, w, d);
    ProductOrder(w, v, d);
  }

  /** Every queue is served exactly when the number of worker cores divides the number of queues. */
  lemma EvenSplitServesAll(rxQue: nat, prQue: nat)
    requires prQue > 0
    ensures (forall q :: 0 <= q < rxQue ==> Served(rxQue, prQue, q)) <==> rxQue % prQue == 0
  {
    var dive := Dive(rxQue, prQue);
    assert rxQue == prQue * dive + rxQue % prQue;
    forall q | 0 <= q < rxQue
      ensures Served(rxQue, prQue, q) <==> q < prQue * dive
    {
      OneWorkerPerQueue(rxQue, prQue, q);
    }
    if rxQue % prQue != 0 {
      assert !Served(rxQue, prQue, rxQue - 1);
    }
  }

  // -------------------------------------------------------------- the core layout

  datatype Role = Receive(queue: nat) | Work(worker: nat) | Monitor | Timer | Report | TimeStamp | Idle

  /** The role of a logical core, tested in the order of the main loop. */
  function RoleOf(rxQue: nat, prQue: nat, core: nat): Role {
    if rxQue <= core < rxQue + prQue then Work(core - rxQue)
    else if core == rxQue + prQue then Monitor
    else if core == rxQue + prQue + 3 then TimeStamp
    else if core == rxQue + prQue + 1 then Timer
    else if core == rxQue + prQue + 2 then Report
    else if core < rxQue then Receive(core)
    else Idle
  }

  /** The roles in the order of the cores: receivers, workers, then one core each for the monitor, the
      timer, the report and the time stamps; the rest are idle. */
  lemma RolesInOrder(rxQue: nat, prQue: nat, core: nat)
    ensures var roles := seq(rxQue, (q: nat) => Receive(q)) + seq(prQue, (w: nat) => Work(w)) + [Monitor, Timer, Report, TimeStamp];
      RoleOf(rxQue, prQue, core) == if core < |roles| then roles[core] else Idle
  {
  }

  /** Each ring has exactly one producing core, and each served ring exactly one consuming core. */
  lemma OneProducerOneConsumer(rxQue: nat, prQue: nat, q: nat)
    requires prQue > 0 && q < rxQue
    ensures forall core: nat :: RoleOf(rxQue, prQue, core) == Receive(q) <==> core == q
    ensures q < prQue * Dive(rxQue, prQue) ==>
      forall core: nat :: (RoleOf(rxQue, prQue, core).Work? && Serves(rxQue, prQue, RoleOf(rxQue, prQue, core).worker, q))
        <==> (Dive(rxQue, prQue) > 0 && core == rxQue + WorkerOf(rxQue, prQue, q))
  {
    OneWorkerPerQueue(rxQue, prQue, q);
  }
}
