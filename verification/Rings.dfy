/** The ring buffers of HCMonitor/main.c and HCMonitor/monitor.c: a buffer with a write index
    `occ` and a read index `deq`, one slot always left free. The modulus is separate from the
    buffer because all parse queues share one: it can exceed the buffer of a queue that did not
    grow with it. */
module Rings {

  datatype Ring<T> = Ring(buf: seq<T>, occ: nat, deq: nat)

  /** The index after `i` modulo `m`. */
  function Next(i: nat, m: nat): nat
    requires i < m
  {
    (i + 1) % m
  }

  function Wrap(i: nat, m: nat): nat
    requires i < 2 * m
  {
    if i < m then i else i - m
  }

  lemma NextWraps(i: nat, m: nat)
    requires i < m
    ensures Next(i, m) == Wrap(i + 1, m) < m
  {
  }

  /** Everything between the two indices lies inside the buffer. */
  predicate Formed<T>(r: Ring<T>, m: nat) {
    r.occ < m && r.deq < m && if r.deq <= r.occ then r.occ <= |r.buf| else m <= |r.buf|
  }

  /** The next write lands inside the buffer. */
  predicate Fits<T>(r: Ring<T>) {
    r.occ < |r.buf|
  }

  predicate Empty<T>(r: Ring<T>) {
    r.occ == r.deq
  }

  predicate Full<T>(r: Ring<T>, m: nat)
    requires r.occ < m
  {
    Next(r.occ, m) == r.deq
  }

  function Count<T>(r: Ring<T>, m: nat): nat
    requires r.occ < m && r.deq < m
  {
    if r.deq <= r.occ then r.occ - r.deq else r.occ + m - r.deq
  }

  /** The queued elements, oldest first. */
  function Content<T>(r: Ring<T>, m: nat): (s: seq<T>)
    requires Formed(r, m)
    ensures |s| == Count(r, m)
    ensures forall i :: 0 <= i < |s| ==> s[i] == r.buf[Wrap(r.deq + i, m)]
  {
    seq(Count(r, m), i requires 0 <= i < Count(r, m) => r.buf[Wrap(r.deq + i, m)])
  }

  /** Write the free slot. A write past the end does not reach the buffer; what it destroys
      elsewhere is not modelled. */
  function Store<T>(r: Ring<T>, x: T): Ring<T> {
    if Fits(r) then r.(buf := r.buf[r.occ := x]) else r
  }

  function Publish<T>(r: Ring<T>, m: nat): Ring<T>
    requires r.occ < m
  {
    r.(occ := Next(r.occ, m))
  }

  function Advance<T>(r: Ring<T>, m: nat): Ring<T>
    requires r.deq < m
  {
    r.(deq := Next(r.deq, m))
  }

  /** The ring is full exactly when one slot is left. */
  lemma FullLeavesOne<T>(r: Ring<T>, m: nat)
    requires Formed(r, m)
    ensures Full(r, m) <==> Count(r, m) == m - 1
    ensures Empty(r) <==> Content(r, m) == []
  {
    NextWraps(r.occ, m);
    assert |Content(r, m)| == Count(r, m);
  }

  /** Writing the free slot is invisible to the consumer. */
  lemma StoreIsInvisible<T>(r: Ring<T>, m: nat, x: T)
    requires Formed(r, m)
    ensures Formed(Store(r, x), m) && Content(Store(r, x), m) == Content(r, m)
    ensures Fits(r) ==> Store(r, x).buf[r.occ] == x
  {
  }

  /** Publishing the free slot of a ring that is not full appends what was stored there. */
  lemma PublishAppends<T>(r: Ring<T>, m: nat)
    requires Formed(r, m) && !Full(r, m) && Fits(r)
    ensures Formed(Publish(r, m), m) && Content(Publish(r, m), m) == Content(r, m) + [r.buf[r.occ]]
  {
    NextWraps(r.occ, m);
  }

  /** Advancing past the oldest slot of a ring that is not empty removes it. */
  lemma AdvanceRemoves<T>(r: Ring<T>, m: nat)
    requires Formed(r, m) && !Empty(r)
    ensures Formed(Advance(r, m), m) && Content(r, m) == [r.buf[r.deq]] + Content(Advance(r, m), m)
  {
    NextWraps(r.deq, m);
  }

  /** Each side keeps the other's last test true: the producer never empties the ring and the
      consumer never fills it. */
  lemma TestsAreStable<T>(r: Ring<T>, m: nat)
    requires Formed(r, m)
    ensures !Full(r, m) ==> !Empty(Publish(r, m))
    ensures !Empty(r) && !Full(r, m) ==> !Full(Advance(r, m), m)
  {
    NextWraps(r.occ, m);
    NextWraps(r.deq, m);
  }

  // ------------------------------------------------------------------- enlarging

  /** `grown` is the ring `r` after its buffer was enlarged to `size` slots, the new ones of unknown content. */
  ghost predicate Enlarged<T>(r: Ring<T>, grown: Ring<T>, size: nat) {
    grown.occ == r.occ && grown.deq == r.deq && |r.buf| <= |grown.buf| && size <= |grown.buf| && r.buf <= grown.buf
  }

  /** Enlarging a ring and its modulus keeps the queue if and only if it is not wrapped. */
  lemma EnlargedKeepsQueueIffUnwrapped<T>(r: Ring<T>, grown: Ring<T>, m: nat, size: nat)
    requires m < size && Formed(r, m) && Enlarged(r, grown, size)
    ensures Formed(grown, size)
    ensures Content(grown, size) == Content(r, m) <==> r.deq <= r.occ
    ensures r.deq > r.occ ==> |Content(grown, size)| == |Content(r, m)| + size - m
  {
    if r.deq <= r.occ {
      assert forall i :: 0 <= i < |r.buf| ==> grown.buf[i] == r.buf[i];
    }
  }

  /** Enlarging a full ring and publishing one more element keeps the queue exactly when the
      content is not wrapped. In the wrapped case the publish makes the ring look empty. */
  lemma GrowthKeepsQueueIffUnwrapped<T>(r: Ring<T>, grown: Ring<T>, m: nat, size: nat, x: T)
    requires m < size && Formed(r, m) && Enlarged(r, grown, size) && Full(r, m)
    ensures var after := Publish(Store(grown, x), size);
      && Formed(after, size)
      && (Content(after, size) == Content(r, m) + [x] <==> r.deq == 0)
      && (r.deq != 0 ==> Empty(after) && Content(after, size) == [])
  {
    NextWraps(r.occ, m);
    NextWraps(r.occ, size);
    if r.deq == 0 {
      EnlargedKeepsQueueIffUnwrapped(r, grown, m, size);
      StoreIsInvisible(grown, size, x);
      PublishAppends(Store(grown, x), size);
    }
  }

  /** The modulus is shared: when it grows because of another queue, this queue keeps its
      content exactly when it is not wrapped. */
  lemma SharedModulusKeepsQueueIffUnwrapped<T>(r: Ring<T>, m: nat, size: nat)
    requires m < size && Formed(r, m)
    ensures Formed(r, size) && Content(r, size) == Content(r, m) <==> r.deq <= r.occ
  {
    if r.deq > r.occ && Formed(r, size) {
      assert |Content(r, size)| == |Content(r, m)| + size - m;
    }
  }

  /** The write index after `n` publishes. */
  function IndexAfter(occ: nat, m: nat, n: nat): nat
    requires occ < m
  {
    if n == 0 then occ else Next(IndexAfter(occ, m, n - 1), m)
  }

  lemma {:induction false} IndexAdvances(occ: nat, m: nat, n: nat)
    requires occ < m && n <= m
    ensures IndexAfter(occ, m, n) == Wrap(occ + n, m) < m
  {
    if n > 0 {
      IndexAdvances(occ, m, n - 1);
      NextWraps(IndexAfter(occ, m, n - 1), m);
    }
  }

  /** Only the queue that was full gets a larger buffer. On any other, whose buffer still has `m`
      slots, the next `n` writes all land inside it exactly when they fit before its old end. */
  lemma GrowthElsewhereOverruns(occ: nat, m: nat, size: nat, n: nat)
    requires occ < m < size
    ensures (forall k :: 0 <= k < n ==> IndexAfter(occ, size, k) < m) <==> occ + n <= m
  {
    forall k | 0 <= k < n && k <= size
      ensures IndexAfter(occ, size, k) == Wrap(occ + k, size)
    {
      IndexAdvances(occ, size, k);
    }
    if occ + n > m {
      assert IndexAfter(occ, size, m - occ) == m;
    }
  }

  /** And the consumer's reads of what then looks queued stay inside such a buffer exactly when the
      content is not wrapped. */
  lemma GrowthElsewhereMisleads<T>(r: Ring<T>, m: nat, size: nat)
    requires m < size && Formed(r, m) && |r.buf| <= m
    ensures (forall k :: 0 <= k < Count(r, size) ==> IndexAfter(r.deq, size, k) < |r.buf|) <==> r.deq <= r.occ
  {
    if r.deq <= r.occ {
      forall k | 0 <= k < Count(r, size)
        ensures IndexAfter(r.deq, size, k) < |r.buf|
      {
        IndexAdvances(r.deq, size, k);
      }
    } else {
      var k := m - r.deq;
      IndexAdvances(r.deq, size, k);
      assert k < Count(r, size) && IndexAfter(r.deq, size, k) == m;
    }
  }
}
