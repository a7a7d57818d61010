/** The grouping by /24 network of pcap_analyse/burst_width.c, and its width arithmetic. */
module Grouping {
  import opened Basics
  import opened CArith
  import opened Split

  datatype Packet = Packet(addr: Uint32, ts: Stamp)

  /** One group: its network and the time stamps of its packets. */
  datatype Group = Group(prefix: int, times: seq<Stamp>)

  const MAX_GROUPS := 10
  const MAX_IPS := 100

  function Prefix(addr: Uint32): int {
    addr / 256
  }

  /** An address by its four octets. */
  function Dotted(a: Byte, b: Byte, c: Byte, d: Byte): Uint32 {
    0x100_0000 * a + 0x1_0000 * b + 0x100 * c + d
  }

  /** Two addresses share a network exactly when their first three octets agree. */
  lemma NetworkIsThreeOctets(a: Byte, b: Byte, c: Byte, d: Byte, e: Byte, f: Byte, g: Byte, h: Byte)
    ensures Prefix(Dotted(a, b, c, d)) == Prefix(Dotted(e, f, g, h)) <==> a == e && b == f && c == g
    ensures Prefix(Dotted(a, b, c, d)) * 256 == Dotted(a, b, c, 0)
  {
    NetworkOf(a, b, c, d);
    NetworkOf(e, f, g, h);
  }

  lemma NetworkOf(a: Byte, b: Byte, c: Byte, d: Byte)
    ensures Prefix(Dotted(a, b, c, d)) == 0x1_0000 * a + 0x100 * b + c
  {
  }

  function PrefixOf(p: Packet): int {
    Prefix(p.addr)
  }

  // --------------------------------------------------------------- the reference

  /** The time stamps of the packets from network `n`, in arrival order. */
  function TimesFrom(ps: seq<Packet>, n: int): seq<Stamp> {
    if ps == [] then []
    else if PrefixOf(Last(ps)) == n then TimesFrom(Front(ps), n) + [Last(ps).ts]
    else TimesFrom(Front(ps), n)
  }

  function Prefixes(ps: seq<Packet>): set<int> {
    set i | 0 <= i < |ps| :: PrefixOf(ps[i])
  }

  // ------------------------------------------------------- the groups, packet by packet

  ghost predicate Distinct(gs: seq<Group>) {
    forall i, j :: 0 <= i < j < |gs| ==> gs[i].prefix != gs[j].prefix
  }

  /** The groups after one more packet. */
  ghost predicate Added(gs: seq<Group>, p: Packet, hs: seq<Group>) {
    if exists i :: 0 <= i < |gs| && gs[i].prefix == PrefixOf(p) then
      exists i :: 0 <= i < |gs| && gs[i].prefix == PrefixOf(p) && hs == gs[i := Group(gs[i].prefix, gs[i].times + [p.ts])]
    else
      hs == gs + [Group(PrefixOf(p), [p.ts])]
  }

  /** The groups are the group-by of the packets: one group for each network seen, holding
      exactly that network's time stamps in arrival order. */
  ghost predicate GroupBy(ps: seq<Packet>, gs: seq<Group>) {
    && Distinct(gs)
    && (forall i :: 0 <= i < |gs| ==> gs[i].prefix in Prefixes(ps) && gs[i].times == TimesFrom(ps, gs[i].prefix))
    && (forall n :: n in Prefixes(ps) ==> exists i :: 0 <= i < |gs| && gs[i].prefix == n)
  }

  lemma PrefixesGrow(ps: seq<Packet>, p: Packet)
    ensures Prefixes(ps + [p]) == Prefixes(ps) + {PrefixOf(p)}
  {
    var all := ps + [p];
    forall n | n in Prefixes(ps) + {PrefixOf(p)}
      ensures n in Prefixes(all)
    {
      if n == PrefixOf(p) {
        assert all[|ps|] == p;
      } else {
        var i :| 0 <= i < |ps| && PrefixOf(ps[i]) == n;
        assert all[i] == ps[i];
      }
    }
  }

  lemma {:induction false} UnseenHasNoTimes(ps: seq<Packet>, n: int)
    requires n !in Prefixes(ps)
    ensures TimesFrom(ps, n) == []
  {
    if ps != [] {
      assert ps == Front(ps) + [Last(ps)];
      PrefixesGrow(Front(ps), Last(ps));
      UnseenHasNoTimes(Front(ps), n);
    }
  }

  lemma AddedKeepsDistinct(gs: seq<Group>, p: Packet, hs: seq<Group>)
    requires Distinct(gs) && Added(gs, p, hs)
    ensures Distinct(hs) && |hs| >= |gs| && forall i :: 0 <= i < |gs| ==> hs[i].prefix == gs[i].prefix
  {
  }

  lemma AddedTimes(ps: seq<Packet>, gs: seq<Group>, p: Packet, hs: seq<Group>, i: nat)
    requires GroupBy(ps, gs) && Added(gs, p, hs) && i < |hs|
    ensures hs[i].prefix in Prefixes(ps + [p]) && hs[i].times == TimesFrom(ps + [p], hs[i].prefix)
  {
    PrefixesGrow(ps, p);
    assert Front(ps + [p]) == ps;
    if PrefixOf(p) !in Prefixes(ps) {
      UnseenHasNoTimes(ps, PrefixOf(p));
    }
  }

  /** Adding a packet to the group-by of the packets so far gives the group-by with it. */
  lemma AddedKeepsGroupBy(ps: seq<Packet>, gs: seq<Group>, p: Packet, hs: seq<Group>)
    requires GroupBy(ps, gs) && Added(gs, p, hs)
    ensures GroupBy(ps + [p], hs)
  {
    hide TimesFrom, Prefixes;
    AddedKeepsDistinct(gs, p, hs);
    PrefixesGrow(ps, p);
    forall i | 0 <= i < |hs|
      ensures hs[i].prefix in Prefixes(ps + [p]) && hs[i].times == TimesFrom(ps + [p], hs[i].prefix)
    {
      AddedTimes(ps, gs, p, hs, i);
    }
    forall m | m in Prefixes(ps + [p])
      ensures exists i :: 0 <= i < |hs| && hs[i].prefix == m
    {
      if m in Prefixes(ps) {
        var i :| 0 <= i < |gs| && gs[i].prefix == m;
        assert hs[i].prefix == m;
      } else {
        assert hs[|hs| - 1].prefix == m;
      }
    }
  }

  function TotalTimes(gs: seq<Group>): nat {
    if gs == [] then 0 else TotalTimes(Front(gs)) + |Last(gs).times|
  }

  lemma {:induction false} TotalAfterUpdate(gs: seq<Group>, i: nat, g: Group)
    requires i < |gs| && |g.times| == |gs[i].times| + 1
    ensures TotalTimes(gs[i := g]) == TotalTimes(gs) + 1
  {
    if i == |gs| - 1 {
      assert Front(gs[i := g]) == Front(gs);
    } else {
      assert Front(gs[i := g]) == Front(gs)[i := g];
      TotalAfterUpdate(Front(gs), i, g);
    }
  }

  /** One packet adds one time stamp in all. */
  lemma AddedAddsOne(gs: seq<Group>, p: Packet, hs: seq<Group>)
    requires Added(gs, p, hs)
    ensures TotalTimes(hs) == TotalTimes(gs) + 1
  {
    if exists i :: 0 <= i < |gs| && gs[i].prefix == PrefixOf(p) {
      var i :| 0 <= i < |gs| && gs[i].prefix == PrefixOf(p) && hs == gs[i := Group(gs[i].prefix, gs[i].times + [p.ts])];
      TotalAfterUpdate(gs, i, hs[i]);
    } else {
      assert Front(hs) == gs;
    }
  }

  /** A group-by has as many groups as there are networks. */
  lemma GroupsCountPrefixes(ps: seq<Packet>, gs: seq<Group>)
    requires GroupBy(ps, gs)
    ensures |gs| == |Prefixes(ps)|
  {
    assert Names(gs) == Prefixes(ps);
    DistinctCount(gs);
  }

  function Names(gs: seq<Group>): set<int> {
    set i | 0 <= i < |gs| :: gs[i].prefix
  }

  lemma NamesGrow(gs: seq<Group>, g: Group)
    ensures Names(gs + [g]) == Names(gs) + {g.prefix}
  {
    var all := gs + [g];
    forall n | n in Names(gs) + {g.prefix}
      ensures n in Names(all)
    {
      if n in Names(gs) {
        var i :| 0 <= i < |gs| && gs[i].prefix == n;
        assert all[i] == gs[i];
      } else {
        assert all[|gs|] == g;
      }
    }
  }

  lemma {:induction false} DistinctCount(gs: seq<Group>)
    requires Distinct(gs)
    ensures |Names(gs)| == |gs|
  {
    if gs != [] {
      NamesGrow(Front(gs), Last(gs));
      DistinctCount(Front(gs));
      assert gs == Front(gs) + [Last(gs)];
      assert Last(gs).prefix !in Names(Front(gs));
    }
  }

  // -------------------------------------------------------------------- the arrays

  /** A burst's slots; slot 0 is never used. */
  datatype Burst = Burst(srcIp: int, len: nat, ts: seq<Stamp>)

  class BurstGroups {
    const capacity: nat
    var len: nat
    const srcIp: array<Uint32>
    const bursts: array<Burst>

    ghost predicate Valid()
      reads this, srcIp, bursts
    {
      && srcIp.Length == MAX_IPS && bursts.Length == MAX_GROUPS && len < MAX_GROUPS
      && (forall i :: 0 <= i < MAX_GROUPS ==> bursts[i].len < capacity == |bursts[i].ts|)
      && (forall i :: len <= i < MAX_GROUPS ==> bursts[i].len == 0)
      && (forall i :: 0 <= i < len ==> bursts[i].srcIp == Prefix(srcIp[i]) * 256)
    }

    /** Group `i`: the stamps in slots 1 to `len`. */
    ghost function GroupAt(i: nat): Group
      requires Valid() && i < len
      reads this, srcIp, bursts
    {
      Group(Prefix(srcIp[i]), bursts[i].ts[1..bursts[i].len + 1])
    }

    ghost function View(): (gs: seq<Group>)
      requires Valid()
      reads this, srcIp, bursts
      ensures |gs| == len && forall i :: 0 <= i < len ==> gs[i] == GroupAt(i)
    {
      seq(len, i requires 0 <= i < len reads this, srcIp, bursts requires Valid() => GroupAt(i))
    }

    /** `junk` is what the fresh time stamp arrays contain. */
    constructor (capacity: nat, junk: Stamp)
      requires capacity > 0
      ensures Valid() && View() == [] && this.capacity == capacity && fresh(srcIp) && fresh(bursts)
    {
      this.capacity := capacity;
      len := 0;
      srcIp := new Uint32[MAX_IPS](_ => 0);
      bursts := new Burst[MAX_GROUPS](_ => Burst(0, 0, seq(capacity, _ => junk)));
    }

    /** The index of the group of an address, or -1. */
    method Exist(addr: Uint32) returns (host: int)
      requires Valid()
      ensures -1 <= host < len
      ensures host >= 0 ==> Prefix(srcIp[host]) == Prefix(addr)
      ensures host == -1 <==> forall i :: 0 <= i < len ==> Prefix(srcIp[i]) != Prefix(addr)
    {
      var i := 0;
      while i < len
        invariant 0 <= i <= len
        invariant forall j :: 0 <= j < i ==> Prefix(srcIp[j]) != Prefix(addr)
      {
        if Prefix(srcIp[i]) == Prefix(addr) {
          return i;
        }
        i := i + 1;
      }
      host := -1;
    }

    /** Open a group for an address. The result is false where the program gives up: at its tenth
        network. */
    method Create(addr: Uint32) returns (host: nat, ok: bool)
      requires Valid()
      modifies this`len, srcIp, bursts
      ensures ok <==> old(len) < MAX_GROUPS - 1
      ensures ok ==> Valid() && host == old(len) && View() == old(View()) + [Group(Prefix(addr), [])]
      ensures forall i :: 0 <= i < MAX_GROUPS ==> bursts[i].len == old(bursts[i].len)
    {
      ghost var gs := View();
      host := len;
      bursts[host] := bursts[host].(srcIp := Prefix(addr) * 256);
      srcIp[host] := addr;
      len := len + 1;
      ok := len < MAX_GROUPS;
      if ok {
        assert bursts[host].ts[1..1] == [];
        assert GroupAt(host) == Group(Prefix(addr), []);
        assert forall i :: 0 <= i < |gs| ==> GroupAt(i) == gs[i];
      }
    }

    /** Store a packet in the next slot of a group. */
    method Append(host: nat, ts: Stamp)
      requires Valid() && host < len && bursts[host].len + 1 < capacity
      modifies bursts
      ensures Valid()
      ensures var g := old(View())[host]; View() == old(View())[host := Group(g.prefix, g.times + [ts])]
      ensures forall i :: 0 <= i < MAX_GROUPS ==> bursts[i].len <= old(bursts[i].len) + 1
    {
      ghost var gs := View();
      var n := bursts[host].len + 1;
      bursts[host] := bursts[host].(len := n, ts := bursts[host].ts[n := ts]);
      assert bursts[host].ts[1..n + 1] == old(bursts[host].ts)[1..n] + [ts];
      assert forall i :: 0 <= i < |gs| && i != host ==> GroupAt(i) == gs[i];
    }

    /** Add one packet. The result is false exactly for a packet from a tenth network. */
    method Add(p: Packet) returns (ok: bool)
      requires Valid() && forall i :: 0 <= i < MAX_GROUPS ==> bursts[i].len + 1 < capacity
      modifies this`len, srcIp, bursts
      ensures !ok <==> old(len) == MAX_GROUPS - 1 && forall i :: 0 <= i < old(len) ==> old(View())[i].prefix != PrefixOf(p)
      ensures ok ==> Valid() && Added(old(View()), p, View())
      ensures ok ==> forall i :: 0 <= i < MAX_GROUPS ==> bursts[i].len <= old(bursts[i].len) + 1
    {
      ghost var gs := View();
      var host := Exist(p.addr);
      if host == -1 {
        host, ok := Create(p.addr);
        if !ok {
          return;
        }
        AppendToNew(gs, p);
      } else {
        assert gs[host].prefix == PrefixOf(p);
      }
      Append(host, p.ts);
      ok := true;
    }

    /** Group a whole capture. It succeeds exactly for at most nine networks, and then the arrays
        hold the group-by of the packets. */
    method AddAll(ps: seq<Packet>) returns (ok: bool)
      requires Valid() && View() == [] && |ps| + 1 < capacity
      modifies this`len, srcIp, bursts
      ensures ok ==> Valid() && GroupBy(ps, View()) && TotalTimes(View()) == |ps|
      ensures ok <==> |Prefixes(ps)| < MAX_GROUPS
    {
      hide GroupBy, Added, Prefixes, TotalTimes;
      var k := 0;
      NothingGrouped();
      assert ps[..0] == [];
      while k < |ps|
        invariant 0 <= k <= |ps| && Valid()
        invariant GroupBy(ps[..k], View()) && TotalTimes(View()) == k
        invariant forall i :: 0 <= i < MAX_GROUPS ==> bursts[i].len <= k
      {
        ghost var gs := View();
        assert ps[..k + 1] == ps[..k] + [ps[k]];
        GroupsCountPrefixes(ps[..k], gs);
        PrefixesGrow(ps[..k], ps[k]);
        ok := Add(ps[k]);
        if !ok {
          TooManyNetworks(ps, k, gs);
          return;
        }
        AddedKeepsGroupBy(ps[..k], gs, ps[k], View());
        AddedAddsOne(gs, ps[k], View());
        k := k + 1;
      }
      assert ps[..k] == ps;
      GroupsCountPrefixes(ps, View());
      ok := true;
    }

    /** The gaps of a group: between the microseconds of neighbouring slots, from the unfilled slot 0 to
        slot `len - 1`. */
    method GapsAt(i: nat) returns (gaps: seq<int>)
      requires Valid() && i < len && bursts[i].len > 0
      ensures |gaps| == bursts[i].len - 1
      ensures forall j :: 0 <= j < |gaps| ==> gaps[j] == GapOf(bursts[i].ts[j], bursts[i].ts[j + 1])
    {
      gaps := [];
      var j := 0;
      while j < bursts[i].len - 1
        invariant 0 <= j <= bursts[i].len - 1 && |gaps| == j
        invariant forall k :: 0 <= k < j ==> gaps[k] == GapOf(bursts[i].ts[k], bursts[i].ts[k + 1])
      {
        gaps := gaps + [bursts[i].ts[j + 1].usec - bursts[i].ts[j].usec];
        j := j + 1;
      }
    }

    /** The width of a group: from slot 1 to slot `len - 1`, so its last packet is left out, and a group
        of one packet reads slot 0, which is never filled. */
    method WidthAt(i: nat) returns (w: Width)
      requires Valid() && i < len && bursts[i].len > 0
      ensures var times := GroupAt(i).times;
        w == if |times| >= 2 then WidthOf(times[0], times[|times| - 2]) else WidthOf(times[0], bursts[i].ts[0])
    {
      w := WidthOf(bursts[i].ts[1], bursts[i].ts[bursts[i].len - 1]);
    }
  }

  /** A new group holds its first packet. */
  lemma AppendToNew(gs: seq<Group>, p: Packet)
    ensures var one := gs + [Group(PrefixOf(p), [])];
      one[|gs| := Group(one[|gs|].prefix, one[|gs|].times + [p.ts])] == gs + [Group(PrefixOf(p), [p.ts])]
  {
    assert [] + [p.ts] == [p.ts];
  }

  lemma NothingGrouped()
    ensures GroupBy([], []) && TotalTimes([]) == 0
  {
  }

  lemma TooManyNetworks(ps: seq<Packet>, k: nat, gs: seq<Group>)
    requires k < |ps| && GroupBy(ps[..k], gs) && |gs| == MAX_GROUPS - 1
    requires forall i :: 0 <= i < |gs| ==> gs[i].prefix != PrefixOf(ps[k])
    ensures |Prefixes(ps)| >= MAX_GROUPS
  {
    GroupsCountPrefixes(ps[..k], gs);
    PrefixesGrow(ps[..k], ps[k]);
    assert ps[..k + 1] == ps[..k] + [ps[k]];
    assert Prefixes(ps[..k + 1]) <= Prefixes(ps) by {
      forall n | n in Prefixes(ps[..k + 1])
        ensures n in Prefixes(ps)
      {
        var i :| 0 <= i < k + 1 && PrefixOf(ps[..k + 1][i]) == n;
        assert ps[i] == ps[..k + 1][i];
      }
    }
    SubsetSize(Prefixes(ps[..k + 1]), Prefixes(ps));
  }

  // ---------------------------------------------------------------- the burst width

  /** The gap between two stamps as the tool computes it: from the microseconds alone. */
  function GapOf(a: Stamp, b: Stamp): int {
    b.usec - a.usec
  }

  /** It is the true gap exactly when both stamps share a second, and otherwise off by whole seconds. */
  lemma GapIsExact(a: Stamp, b: Stamp)
    ensures GapOf(a, b) == b.Micros() - a.Micros() <==> a.sec == b.sec
    ensures b.Micros() - a.Micros() - GapOf(a, b) == MICROS * (b.sec - a.sec)
  {
  }

  datatype Width = Milliseconds(ms: int) | Unexpected

  /** The width between two stamps as the tool computes it. */
  function WidthOf(first: Stamp, last: Stamp): Width {
    var sec, usec := last.sec - first.sec, last.usec - first.usec;
    if sec == 1 && usec <= 0 then Milliseconds(1000 + TruncDiv(usec, 1000))
    else if sec == 0 && usec >= 0 then Milliseconds(TruncDiv(usec, 1000))
    else Unexpected
  }

  /** The tool answers exactly for gaps of at most one second. The answer is within a millisecond of
      the gap: rounded down inside a calendar second and rounded up across the turn of one. */
  lemma WidthIsExact(first: Stamp, last: Stamp)
    requires first.Normal() && last.Normal()
    ensures var gap, w := last.Micros() - first.Micros(), WidthOf(first, last);
      && (w.Milliseconds? <==> 0 <= gap <= 1_000_000)
      && (w.Milliseconds? && first.sec == last.sec ==> 1000 * w.ms <= gap < 1000 * (w.ms + 1))
      && (w.Milliseconds? && first.sec != last.sec ==> 1000 * (w.ms - 1) < gap <= 1000 * w.ms)
  {
  }

  /** The gap in milliseconds, rounded down inside a calendar second and up across the turn of one. */
  function Millis(first: Stamp, last: Stamp): int
    requires first.Micros() <= last.Micros()
  {
    var gap := last.Micros() - first.Micros();
    if first.sec == last.sec then gap / 1000 else (gap + 999) / 1000
  }

  lemma WidthIsMillis(first: Stamp, last: Stamp)
    requires first.Normal() && last.Normal() && first.Micros() <= last.Micros()
    ensures WidthOf(first, last) ==
      if last.Micros() - first.Micros() <= 1_000_000 then Milliseconds(Millis(first, last)) else Unexpected
  {
    WidthIsExact(first, last);
  }

  /** A burst's reported width, from its first packet to its last but one, is its own width exactly when the last
      packet rounds to the same millisecond, or the burst was already too long without it. */
  lemma WidthDropsLast(first: Stamp, prior: Stamp, last: Stamp)
    requires first.Normal() && prior.Normal() && last.Normal()
    requires first.Micros() <= prior.Micros() <= last.Micros()
    ensures WidthOf(first, prior) == WidthOf(first, last) <==>
      || prior.Micros() - first.Micros() > 1_000_000
      || (last.Micros() - first.Micros() <= 1_000_000 && Millis(first, prior) == Millis(first, last))
    ensures WidthOf(first, last).Milliseconds? ==>
      WidthOf(first, prior).Milliseconds? && WidthOf(first, prior).ms <= WidthOf(first, last).ms
  {
    WidthIsMillis(first, prior);
    WidthIsMillis(first, last);
  }

  /** The width of a burst of one packet comes out as zero exactly when the unfilled slot happens to hold the
      first stamp's millisecond, or the next second with microseconds a whole second back. */
  lemma OnePacketWidth(first: Stamp, unfilled: Stamp)
    ensures var sec, usec := unfilled.sec - first.sec, unfilled.usec - first.usec;
      WidthOf(first, unfilled) == Milliseconds(0) <==>
        (sec == 0 && 0 <= usec < 1000) || (sec == 1 && -1_001_000 < usec <= -1_000_000)
  {
  }
}
