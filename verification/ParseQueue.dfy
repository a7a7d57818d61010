/** The queue between a worker and the monitor core, with the in-place enlargement that
    `packet_process` performs when it finds the queue full. */
module ParseQueue {
  import opened Rings

  const REBUFF := 200_000

  datatype Parsed<+T> = Unclassified | Entry(value: T)

  class PrQueue<T(0)> {
    var rxQue: array<T>
    var occupy: nat
    var deque: nat

    ghost function AsRing(): Ring<T>
      reads this, rxQue
    {
      Ring(rxQue[..], occupy, deque)
    }

    ghost predicate Valid(maxSize: nat)
      reads this, rxQue
    {
      Formed(AsRing(), maxSize) && rxQue.Length <= maxSize
    }

    constructor (size: nat)
      requires size > 0
      ensures Valid(size) && Content(AsRing(), size) == [] && fresh(rxQue)
    {
      rxQue := new T[size];
      occupy, deque := 0, 0;
    }

    /** Enqueue what the parser made of a packet. The result is 1 for an entry, 0 for an
        unclassified packet. The queue grows by the entry and nothing else, unless it was full
        and wrapped: then it is lost. The modulus may exceed this queue's buffer when another queue grew;
        the write must land inside. */
    method PacketProcess(parsed: Parsed<T>, maxSize: nat) returns (newMax: nat, code: int)
      requires Valid(maxSize)
      requires parsed.Entry? && !Full(AsRing(), maxSize) ==> occupy < rxQue.Length
      modifies this, rxQue
      ensures Valid(newMax) && (rxQue == old(rxQue) || fresh(rxQue))
      ensures newMax == (if old(Full(AsRing(), maxSize)) then maxSize + REBUFF else maxSize)
      ensures code == (if parsed.Entry? then 1 else 0)
      ensures deque == old(deque)
      ensures parsed.Entry? && (newMax == maxSize || deque == 0) ==>
        Content(AsRing(), newMax) == old(Content(AsRing(), maxSize)) + [parsed.value]
      ensures parsed.Entry? && newMax != maxSize && deque != 0 ==> Content(AsRing(), newMax) == []
      ensures parsed.Unclassified? && (newMax == maxSize || deque == 0) ==>
        Content(AsRing(), newMax) == old(Content(AsRing(), maxSize))
      ensures parsed.Unclassified? && newMax != maxSize && deque != 0 ==>
        |Content(AsRing(), newMax)| == |old(Content(AsRing(), maxSize))| + REBUFF
    {
      ghost var was := AsRing();
      newMax := maxSize;
      if (occupy + 1) % maxSize == deque {
        newMax := maxSize + REBUFF;
        Extend(newMax, maxSize);
        NextWraps(was.occ, maxSize);
      }
      ghost var grown := AsRing();
      if newMax != maxSize {
        EnlargedKeepsQueueIffUnwrapped(was, grown, maxSize, newMax);
      }
      if parsed.Unclassified? {
        return newMax, 0;
      }
      if newMax == maxSize {
        StoreIsInvisible(grown, maxSize, parsed.value);
        PublishAppends(Store(grown, parsed.value), maxSize);
      } else {
        GrowthKeepsQueueIffUnwrapped(was, grown, maxSize, newMax, parsed.value);
      }
      rxQue[occupy] := parsed.value;
      occupy := (occupy + 1) % newMax;
      assert AsRing() == Publish(Store(grown, parsed.value), newMax);
      code := 1;
    }

    /** The reallocated buffer: the old slots, then slots of unknown content. */
    method Extend(size: nat, maxSize: nat)
      requires Valid(maxSize) && maxSize < size
      modifies this`rxQue
      ensures fresh(rxQue) && occupy == old(occupy) && deque == old(deque)
      ensures Enlarged(old(AsRing()), AsRing(), size) && rxQue.Length == size
    {
      var b := new T[size];
      forall i | 0 <= i < rxQue.Length {
        b[i] := rxQue[i];
      }
      rxQue := b;
    }

    /** The monitor's half: it takes the oldest entry, if there is one. */
    method Take(maxSize: nat) returns (taken: seq<T>)
      requires Valid(maxSize)
      modifies this`deque
      ensures Valid(maxSize)
      ensures old(Content(AsRing(), maxSize)) == taken + Content(AsRing(), maxSize)
      ensures |taken| == if old(Content(AsRing(), maxSize)) == [] then 0 else 1
    {
      FullLeavesOne(AsRing(), maxSize);
      taken := [];
      if occupy != deque {
        taken := [rxQue[deque]];
        AdvanceRemoves(AsRing(), maxSize);
        ghost var r := AsRing();
        deque := (deque + 1) % maxSize;
        assert AsRing() == Advance(r, maxSize);
      }
    }
  }
}
