/**
  TwoAGC: maxWriteHeads host write heads and as many GC write heads, one
  per group.  A page's group is chosen from the mean interval between its
  recent writes, compared with percentile thresholds; a victim is chosen
  greedily within a group, and its pages move to the GC head of the group
  each page is chosen for.
 */
module TwoA {
  import opened Blocks
  import opened Mapping
  import opened Ftl
  import opened Reclaim
  import opened Ssd
  import opened Victims
  import Lru

  /** TTElement::maxTimestamps: the history reaching this size drops its oldest entry. */
  const MaxTimestamps: nat := 4

  // ---------------------------------------------------------------------------
  // the timestamp history of a page (newest first)

  /** TTElement::addTimestamp: the stamp goes in front; a history that reaches MaxTimestamps loses its oldest stamp. */
  function Stamped(h: seq<nat>, now: nat): (r: seq<nat>)
    ensures |r| > 0 && r[0] == now && r[1..] <= h
    ensures |h| + 1 == MaxTimestamps ==> |r| == |h|
    ensures |h| + 1 != MaxTimestamps ==> |r| == |h| + 1 && r[1..] == h
    ensures |h| < MaxTimestamps ==> |r| < MaxTimestamps
  {
    var r := [now] + h;
    assert r[1..] == h;
    if |r| == MaxTimestamps then r[..|r| - 1] else r
  }

  /** The intervals the source adds up: from now back to the newest stamp, then between consecutive stamps. */
  function Intervals(prev: int, h: seq<nat>): int
    decreases |h|
  {
    if h == [] then 0 else (prev - h[0]) + Intervals(h[0], h[1..])
  }

  /** The intervals telescope: their sum is the distance from now back to the oldest stamp. */
  lemma {:induction false} IntervalsTelescope(prev: int, h: seq<nat>)
    requires |h| > 0
    ensures Intervals(prev, h) == prev - h[|h| - 1]
    decreases |h|
  {
    if |h| > 1 {
      IntervalsTelescope(h[0], h[1..]);
    }
  }

  /**
    The integer part of TTElement::averageTimestampInterval: the loop's sum,
    which is now minus the oldest stamp, and so never negative when no stamp
    lies in the future.  The source divides it by the history's size.
   */
  method IntervalSum(h: seq<nat>, now: nat) returns (sum: int)
    requires |h| > 0
    ensures sum == Intervals(now, h) && sum == now - h[|h| - 1]
    ensures (forall i :: 0 <= i < |h| ==> h[i] <= now) ==> sum >= 0
  {
    var prev: int := now;
    sum := 0;
    for i := 0 to |h|
      invariant prev == if i == 0 then now else h[i - 1]
      invariant sum + Intervals(prev, h[i..]) == Intervals(now, h)
    {
      assert h[i..][1..] == h[i + 1..];
      sum := sum + (prev - h[i]);
      prev := h[i];
    }
    assert h[|h|..] == [];
    IntervalsTelescope(now, h);
  }

  // ---------------------------------------------------------------------------
  // the choice of a write head

  /**
    The search of chooseWriteHead from threshold i on: the first threshold
    the mean interval sum / n does not exceed, or the number of thresholds.
    sum / n > p is compared exactly as sum > p * n.
   */
  function FirstNotAbove(sum: int, n: nat, pct: seq<nat>, i: nat): (r: nat)
    requires i <= |pct|
    ensures i <= r <= |pct|
    decreases |pct| - i
  {
    if i == |pct| || sum <= pct[i] * n then i else FirstNotAbove(sum, n, pct, i + 1)
  }

  /** The search finds the first threshold not exceeded: every earlier one is exceeded, that one is not. */
  lemma {:induction false} FirstNotAboveIsFirst(sum: int, n: nat, pct: seq<nat>, i: nat)
    requires i <= |pct|
    ensures var r := FirstNotAbove(sum, n, pct, i);
      (forall j :: i <= j < r ==> sum > pct[j] * n) && (r < |pct| ==> sum <= pct[r] * n)
    decreases |pct| - i
  {
    if i < |pct| && sum > pct[i] * n {
      FirstNotAboveIsFirst(sum, n, pct, i + 1);
    }
  }

  /**
    chooseWriteHead given the thresholds in effect: the middle head for a
    page never written, otherwise the index of the first threshold its mean
    interval does not exceed.
   */
  function ChosenHead(h: seq<nat>, now: nat, pct: seq<nat>, m: nat): nat
  {
    if h == [] then m / 2 else FirstNotAbove(now - h[|h| - 1], |h|, pct, 0)
  }

  /**
    With fewer thresholds than heads, the chosen head is a head; a written
    page goes to the first head whose threshold its mean interval does not
    exceed, past every threshold it does exceed.
   */
  lemma ChosenHeadIsHead(h: seq<nat>, now: nat, pct: seq<nat>, m: nat)
    requires m > 0 && |pct| < m
    ensures ChosenHead(h, now, pct, m) < m
    ensures h == [] ==> ChosenHead(h, now, pct, m) == m / 2
    ensures h != [] ==> var r := ChosenHead(h, now, pct, m);
      (forall j :: 0 <= j < r ==> now - h[|h| - 1] > pct[j] * |h|) &&
      (r < |pct| ==> now - h[|h| - 1] <= pct[r] * |h|)
  {
    if h != [] {
      FirstNotAboveIsFirst(now - h[|h| - 1], |h|, pct, 0);
    }
  }

  /** The threshold loop of chooseWriteHead. */
  method ScanThresholds(sum: int, n: nat, pct: seq<nat>) returns (i: nat)
    ensures i == FirstNotAbove(sum, n, pct, 0)
  {
    i := 0;
    while i < |pct| && sum > pct[i] * n
      invariant i <= |pct| && FirstNotAbove(sum, n, pct, i) == FirstNotAbove(sum, n, pct, 0)
    {
      i := i + 1;
    }
  }

  // ---------------------------------------------------------------------------
  // the callbacks of the grouped compaction

  /** nextBlockFun: the greedy block of the GC's group. */
  function NextInGroup(group: int): seq<Block> -> int {
    bs => Greedy(bs, Group(group))
  }

  /**
    gcDestinationFun: the page's chosen group and that group's GC head; -1
    as the block where the source's checks fail (an index out of range, or
    a head that is neither empty nor of that group).
   */
  function GcDest(tt: seq<seq<nat>>, now: nat, pct: seq<nat>, m: nat, bs: seq<Block>, heads: seq<nat>, lp: nat): (int, int)
  {
    if lp >= |tt| then (-1, -1)
    else
      var group := ChosenHead(tt[lp], now, pct, m);
      if group >= |heads| || heads[group] >= |bs| then (-1, group as int)
      else if bs[heads[group]].writePos == 0 || bs[heads[group]].group == group then (heads[group] as int, group as int)
      else (-1, group as int)
  }

  /** gcDestinationFun as the callback the compaction takes. */
  function GcDestination(tt: seq<seq<nat>>, now: nat, pct: seq<nat>, m: nat): (seq<Block>, seq<nat>, nat) -> (int, int) {
    (bs: seq<Block>, heads: seq<nat>, lp: nat) => GcDest(tt, now, pct, m, bs, heads, lp)
  }

  /** A destination is the GC head of the page's chosen group, empty or already of that group. */
  lemma GcDestinationIsGroupHead(tt: seq<seq<nat>>, now: nat, pct: seq<nat>, m: nat, bs: seq<Block>, heads: seq<nat>, lp: nat)
    ensures var (d, g) := GcDest(tt, now, pct, m, bs, heads, lp);
      d != -1 ==> lp < |tt| && g == ChosenHead(tt[lp], now, pct, m) && g < |heads| && d == heads[g] &&
                  d < |bs| && (bs[d].writePos == 0 || bs[d].group == g)
  {
  }

  /**
    updateGroupFun: the group's GC head is replaced by the new block; the
    second component says whether the source's checks pass (a real group,
    an old head that cannot take writes, a new head that can).
   */
  function UpdateGroup(): (seq<Block>, seq<nat>, int, nat) -> (seq<nat>, bool) {
    (bs: seq<Block>, heads: seq<nat>, group: int, v: nat) =>
      if group < 0 || group >= |heads| then (heads, false)
      else if heads[group] >= |bs| || bs[heads[group]].CanWrite() then (heads, false)
      else (heads[group := v], v < |bs| && bs[v].CanWrite())
  }

  /** The update replaces a group's head exactly when the old head is full and the new one writable. */
  lemma UpdateGroupReplaces(bs: seq<Block>, heads: seq<nat>, group: int, v: nat)
    ensures var (h, accepted) := UpdateGroup()(bs, heads, group, v);
      (accepted <==> 0 <= group < |heads| && heads[group] < |bs| && !bs[heads[group]].CanWrite() &&
                     v < |bs| && bs[v].CanWrite()) &&
      (accepted ==> h == heads[group := v] && |h| == |heads|)
  {
  }

  /**
    The group performGC reclaims in: the one the group-fill rule picks
    (smart, -1 for none, never consulted in the timestamp-only variant),
    otherwise the group of the greedy block; -1 where neither exists.
   */
  function GcGroup(bs: seq<Block>, justTTno2a: bool, smart: int): int {
    if !justTTno2a && smart != -1 then smart
    else
      var g := Greedy(bs, AnyFull);
      if g == -1 then -1 else bs[g].group
  }

  /**
    Without a group-fill pick, the GC group is the group of a full block
    that has an invalid page and the fewest valid pages among full blocks;
    -1 when every full block is all valid or that block has no group.
   */
  lemma GcGroupIsGreedyGroup(bs: seq<Block>, justTTno2a: bool, smart: int)
    requires forall i :: 0 <= i < |bs| ==> bs[i].validCnt <= |bs[i].ptl|
    requires forall i, j :: 0 <= i < |bs| && 0 <= j < |bs| ==> |bs[i].ptl| == |bs[j].ptl|
    requires justTTno2a || smart == -1
    ensures var g := GcGroup(bs, justTTno2a, smart);
      g != -1 ==> exists k :: 0 <= k < |bs| && bs[k].group == g && bs[k].FullyWritten() && !bs[k].AllValid() &&
                             forall i :: 0 <= i < |bs| && bs[i].FullyWritten() ==> bs[k].validCnt <= bs[i].validCnt
    ensures (forall i :: 0 <= i < |bs| && bs[i].FullyWritten() ==> bs[i].AllValid()) ==> GcGroup(bs, justTTno2a, smart) == -1
  {
    GreedyPicks(bs, AnyFull);
  }

  /**
    The values the source computes from random samples and floating-point
    formulas: the thresholds a refresh at a host write and at a GC would
    produce, and the group the group-fill rule would pick.
   */
  /**
    The reclamation of performGC in group `group` (-1 for none): the
    group's greedy victims, the destinations of gcDestinationFun under the
    thresholds pct and the group bookkeeping of updateGroupFun, from the GC
    heads `heads`; Aborted(NoVictim) without a group.
   */
  function GcRun(f: Flash, ppz: nat, heads: seq<nat>, group: int, tt: seq<seq<nat>>, now: nat, pct: seq<nat>,
                 m: nat, fuel: nat): (r: (Reclaimed, seq<nat>))
    requires Ok(f, ppz)
    ensures FreedOk(f, r.0, ppz) && (r.0.Freed? ==> r.0.flash.blocks[r.0.free].CanWrite())
  {
    if group == -1 then (Aborted(NoVictim), heads)
    else
      var r := GroupedRounds(f, ppz, heads, NextInGroup(group), GcDestination(tt, now, pct, m), UpdateGroup(), fuel);
      if r.0.Freed? then
        OkShape(r.0.flash, ppz);
        r
      else r
  }

  /**
    A GC head that is full and holds no valid page can be its group's
    greedy victim; the run then frees it at once and hands back the GC heads
    unchanged, so performGC queues the block as free while it is still the
    group's GC head (kept as written).
   */
  lemma GcHeadFreed(f: Flash, ppz: nat, heads: seq<nat>, group: int, tt: seq<seq<nat>>, now: nat, pct: seq<nat>,
                    m: nat, fuel: nat, g: nat)
    requires Ok(f, ppz) && group != -1 && g < |heads|
    requires heads[g] < |f.blocks| && heads[g] == Greedy(f.blocks, Group(group)) && f.blocks[heads[g]].AllInvalid()
    ensures var run := GcRun(f, ppz, heads, group, tt, now, pct, m, fuel);
      run.0.Freed? && run.0.free == heads[g] && run.1 == heads
  {
    GroupedIdleVictim(f, ppz, heads, NextInGroup(group), GcDestination(tt, now, pct, m), UpdateGroup(), fuel);
  }

  /** The write counters after performGC's first step at time now: all zero when the last reset is more than ten blocks' worth of time ago. */
  function CountersAfterGc(c: seq<nat>, last: nat, now: nat, ppz: nat): (r: seq<nat>)
    ensures |r| == |c|
  {
    if last + 10 * ppz < now then seq(|c|, _ => 0) else c
  }

  /**
    Thresholds and the time of their last refresh after a refresh attempt
    at time now: thresholds more than ten blocks' worth of time old give
    way to the new sample.
   */
  function Refreshed(pct: seq<nat>, ts: nat, now: nat, ppz: nat, sample: seq<nat>): (seq<nat>, nat) {
    if ts + 10 * ppz < now then (sample, now) else (pct, ts)
  }

  /** A head's write counter gone up by one. */
  function Bumped(c: seq<nat>, i: nat): (r: seq<nat>)
    requires i < |c|
    ensures |r| == |c|
  {
    c[i := c[i] + 1]
  }

  datatype Oracle = Oracle(percentiles: seq<nat>, gcPercentiles: seq<nat>, smartGroup: int)

  class TwoAGC {
    const ssd: Device
    const maxWriteHeads: nat
    const justTTno2a: bool
    /** The round budget of each reclamation (the source loops without bound). */
    const fuel: nat
    var writeHeads: seq<nat>
    var gcWritesHeads: seq<nat>
    var writeHeadWriteCounter: seq<nat>
    var statsWriteHeadWrites: seq<nat>
    var statsWriteHeadWritesTotal: seq<nat>
    var freeBlocks: seq<nat>
    /** tt[p]: page p's recent write times, newest first. */
    var tt: seq<seq<nat>>
    var currentTime: nat
    var lastUpdatePercentilesTS: nat
    var percentiles: seq<nat>
    var lastUpdateGC: nat

    ghost predicate Valid()
      reads this, ssd
    {
      ssd.Valid() && maxWriteHeads > 0 &&
      |writeHeads| == maxWriteHeads && (forall i :: 0 <= i < |writeHeads| ==> writeHeads[i] < ssd.zones) &&
      |writeHeadWriteCounter| == maxWriteHeads && |statsWriteHeadWrites| == maxWriteHeads &&
      |statsWriteHeadWritesTotal| == maxWriteHeads &&
      (forall i :: 0 <= i < |freeBlocks| ==> freeBlocks[i] < ssd.zones) &&
      |tt| == ssd.logicalPages && |percentiles| < maxWriteHeads
    }

    /**
      TwoAGC::TwoAGC: the first maxWriteHeads blocks become the write heads,
      the next maxWriteHeads the GC heads, the rest stay free, in order; so
      no block is two of these.  The source asserts that the spare capacity
      exceeds maxWriteHeads blocks and takes the heads from the free list,
      which must hold them.
     */
    constructor (ssd: Device, maxWriteHeads: nat, justTTno2a: bool, fuel: nat)
      requires ssd.Valid() && maxWriteHeads > 0 && 2 * maxWriteHeads <= ssd.zones
      requires ssd.logicalPages <= ssd.zones * ssd.ppz && (ssd.zones * ssd.ppz - ssd.logicalPages) / ssd.ppz > maxWriteHeads
      ensures Valid() && this.ssd == ssd && this.maxWriteHeads == maxWriteHeads
      ensures this.justTTno2a == justTTno2a && this.fuel == fuel
      ensures writeHeads == seq(maxWriteHeads, i => i)
      ensures gcWritesHeads == seq(maxWriteHeads, i => maxWriteHeads + i)
      ensures freeBlocks == seq(ssd.zones - 2 * maxWriteHeads, i => 2 * maxWriteHeads + i)
      ensures Lru.NoDup(writeHeads + gcWritesHeads + freeBlocks)
      ensures writeHeadWriteCounter == statsWriteHeadWrites == statsWriteHeadWritesTotal == seq(maxWriteHeads, _ => 0)
      ensures tt == seq(ssd.logicalPages, _ => []) && currentTime == 0
      ensures lastUpdatePercentilesTS == 0 && percentiles == [] && lastUpdateGC == 0
    {
      this.ssd := ssd;
      this.maxWriteHeads := maxWriteHeads;
      this.justTTno2a := justTTno2a;
      this.fuel := fuel;
      var free: seq<nat> := [];
      for z := 0 to ssd.zones
        invariant free == seq(z, i => i)
      {
        free := free + [z];
      }
      var heads: seq<nat> := [];
      for i := 0 to maxWriteHeads
        invariant heads == seq(i, j => j) && free == seq(ssd.zones - i, j => i + j)
      {
        heads := heads + [free[0]];
        free := free[1..];
      }
      var gcHeads: seq<nat> := [];
      for i := 0 to maxWriteHeads
        invariant gcHeads == seq(i, j => maxWriteHeads + j)
        invariant free == seq(ssd.zones - maxWriteHeads - i, j => maxWriteHeads + i + j)
      {
        gcHeads := gcHeads + [free[0]];
        free := free[1..];
      }
      writeHeads := heads;
      gcWritesHeads := gcHeads;
      freeBlocks := free;
      writeHeadWriteCounter := seq(maxWriteHeads, _ => 0);
      statsWriteHeadWrites := seq(maxWriteHeads, _ => 0);
      statsWriteHeadWritesTotal := seq(maxWriteHeads, _ => 0);
      tt := seq(ssd.logicalPages, _ => []);
      currentTime := 0;
      lastUpdatePercentilesTS := 0;
      percentiles := [];
      lastUpdateGC := 0;
      ghost var all := heads + gcHeads + free;
      assert forall i :: 0 <= i < |all| ==> all[i] == i;
    }

    /**
      TwoAGC::chooseWriteHead: a page never written gets the middle head.
      Otherwise stale thresholds are first replaced by new ones (more than
      ten blocks' worth of time since the last refresh), and the page gets
      ChosenHead under the thresholds now in effect.
     */
    method ChooseWriteHead(pageId: nat, sample: seq<nat>) returns (head: nat)
      requires Valid() && pageId < |tt| && |sample| == maxWriteHeads - 1
      modifies this
      ensures Valid() && head < maxWriteHeads
      ensures head == ChosenHead(tt[pageId], currentTime, percentiles, maxWriteHeads)
      ensures old(tt)[pageId] == [] || old(lastUpdatePercentilesTS) + 10 * ssd.ppz >= currentTime ==>
        percentiles == old(percentiles) && lastUpdatePercentilesTS == old(lastUpdatePercentilesTS)
      ensures old(tt)[pageId] != [] && old(lastUpdatePercentilesTS) + 10 * ssd.ppz < currentTime ==>
        percentiles == sample && lastUpdatePercentilesTS == currentTime
      ensures writeHeads == old(writeHeads) && freeBlocks == old(freeBlocks) && tt == old(tt)
      ensures currentTime == old(currentTime) && gcWritesHeads == old(gcWritesHeads) && lastUpdateGC == old(lastUpdateGC)
      ensures writeHeadWriteCounter == old(writeHeadWriteCounter) && statsWriteHeadWrites == old(statsWriteHeadWrites)
      ensures statsWriteHeadWritesTotal == old(statsWriteHeadWritesTotal)
    {
      var h := tt[pageId];
      if h == [] {
        head := maxWriteHeads / 2;
      } else {
        var sum := IntervalSum(h, currentTime);
        if lastUpdatePercentilesTS + 10 * ssd.ppz < currentTime {
          lastUpdatePercentilesTS := currentTime;
          percentiles := sample;
        }
        head := ScanThresholds(sum, |h|, percentiles);
      }
      ChosenHeadIsHead(h, currentTime, percentiles, maxWriteHeads);
    }

    /**
      TwoAGC::writePage: the page's head is chosen, the page is stamped
      with the current time, which advances by one; a full head is replaced
      by the front of the free list, after a GC when the list is empty; the
      page then goes through the device's write buffer towards the head, and
      the head's write counters go up by one.  ok is false where a fatal
      check fires, which only a full head can lead to.
     */
    method WritePage(pageId: nat, o: Oracle) returns (ok: bool, head: nat)
      requires Valid() && pageId < ssd.logicalPages
      requires |o.percentiles| == |o.gcPercentiles| == maxWriteHeads - 1 && -1 <= o.smartGroup < maxWriteHeads
      modifies this, ssd
      ensures Valid() && head < maxWriteHeads && currentTime == old(currentTime) + 1
      ensures var p := if old(tt)[pageId] == [] then (old(percentiles), old(lastUpdatePercentilesTS))
                       else Refreshed(old(percentiles), old(lastUpdatePercentilesTS), old(currentTime), ssd.ppz, o.percentiles);
        head == ChosenHead(old(tt)[pageId], old(currentTime), p.0, maxWriteHeads)
      ensures var p := if old(tt)[pageId] == [] then (old(percentiles), old(lastUpdatePercentilesTS))
                       else Refreshed(old(percentiles), old(lastUpdatePercentilesTS), old(currentTime), ssd.ppz, o.percentiles);
        var gc := !old(ssd.flash.blocks[writeHeads[head]]).CanWrite() && old(freeBlocks) == [];
        (percentiles, lastUpdatePercentilesTS) ==
          (if gc && GcGroup(old(ssd.flash.blocks), justTTno2a, o.smartGroup) != -1
           then Refreshed(p.0, p.1, currentTime, ssd.ppz, o.gcPercentiles) else p) &&
        lastUpdateGC == if gc && old(lastUpdateGC) + 10 * ssd.ppz < currentTime then currentTime else old(lastUpdateGC)
      ensures tt == old(tt)[pageId := Stamped(old(tt)[pageId], old(currentTime))]
      ensures !ok ==> !old(ssd.flash.blocks[writeHeads[head]]).CanWrite()
      ensures ok ==> statsWriteHeadWrites == Bumped(old(statsWriteHeadWrites), head)
      ensures ok ==> statsWriteHeadWritesTotal == Bumped(old(statsWriteHeadWritesTotal), head)
      ensures ok ==> forall x :: 0 <= x < ssd.logicalPages ==>
        (Held(ssd.flash, ssd.writeBuffer, x) <==> Held(old(ssd.flash), old(ssd.writeBuffer), x) || x == pageId)
      ensures old(ssd.flash.blocks[writeHeads[head]]).CanWrite() ==>
        var h := Cached(old(ssd.flash), old(ssd.writeBuffer), ssd.writeBufferSize, ssd.ppz, pageId, old(writeHeads)[head], head);
        ok && writeHeads == old(writeHeads) && freeBlocks == old(freeBlocks) && gcWritesHeads == old(gcWritesHeads) &&
        ssd.flash == h.flash && ssd.writeBuffer == h.buffer &&
        writeHeadWriteCounter == Bumped(old(writeHeadWriteCounter), head)
      ensures !old(ssd.flash.blocks[writeHeads[head]]).CanWrite() && old(freeBlocks) != [] ==>
        var d := old(freeBlocks)[0];
        var h := Cached(old(ssd.flash), old(ssd.writeBuffer), ssd.writeBufferSize, ssd.ppz, pageId, d, head);
        writeHeads == old(writeHeads)[head := d] && freeBlocks == old(freeBlocks)[1..] && gcWritesHeads == old(gcWritesHeads) &&
        (ok <==> old(ssd.flash).blocks[d].CanWrite()) &&
        (ok ==> ssd.flash == h.flash && ssd.writeBuffer == h.buffer &&
                writeHeadWriteCounter == Bumped(old(writeHeadWriteCounter), head)) &&
        (!ok ==> ssd.flash == old(ssd.flash) && ssd.writeBuffer == old(ssd.writeBuffer) &&
                 writeHeadWriteCounter == old(writeHeadWriteCounter))
      ensures !old(ssd.flash.blocks[writeHeads[head]]).CanWrite() && old(freeBlocks) == [] ==>
        var run := GcRun(old(ssd.flash), ssd.ppz, old(gcWritesHeads), GcGroup(old(ssd.flash.blocks), justTTno2a, o.smartGroup),
                         tt, currentTime, percentiles, maxWriteHeads, fuel);
        var c := CountersAfterGc(old(writeHeadWriteCounter), old(lastUpdateGC), currentTime, ssd.ppz);
        (ok <==> run.0.Freed?) &&
        (ok ==> var h := Cached(run.0.flash, old(ssd.writeBuffer), ssd.writeBufferSize, ssd.ppz, pageId, run.0.free, head);
                writeHeads == old(writeHeads)[head := run.0.free] && freeBlocks == [] && gcWritesHeads == run.1 &&
                ssd.flash == h.flash && ssd.writeBuffer == h.buffer && writeHeadWriteCounter == Bumped(c, head)) &&
        (!ok ==> ssd.flash == old(ssd.flash) && ssd.writeBuffer == old(ssd.writeBuffer) && writeHeads == old(writeHeads) &&
                 freeBlocks == [] && gcWritesHeads == old(gcWritesHeads) && writeHeadWriteCounter == c)
    {
      head := ChooseWriteHead(pageId, o.percentiles);
      Stamp(pageId);
      ok := WriteToHead(pageId, head, o);
    }

    /**
      The second half of writePage: the head is replaced if full, the page
      goes through the write buffer towards it, and the head's counters go up.
     */
    method WriteToHead(pageId: nat, head: nat, o: Oracle) returns (ok: bool)
      requires Valid() && pageId < ssd.logicalPages && head < maxWriteHeads
      requires |o.gcPercentiles| == maxWriteHeads - 1 && -1 <= o.smartGroup < maxWriteHeads
      modifies this, ssd
      ensures Valid() && tt == old(tt) && currentTime == old(currentTime)
      ensures !ok ==> !old(ssd.flash.blocks[writeHeads[head]]).CanWrite()
      ensures var gc := !old(ssd.flash.blocks[writeHeads[head]]).CanWrite() && old(freeBlocks) == [];
        (percentiles, lastUpdatePercentilesTS) ==
          (if gc && GcGroup(old(ssd.flash.blocks), justTTno2a, o.smartGroup) != -1
           then Refreshed(old(percentiles), old(lastUpdatePercentilesTS), currentTime, ssd.ppz, o.gcPercentiles)
           else (old(percentiles), old(lastUpdatePercentilesTS))) &&
        lastUpdateGC == if gc && old(lastUpdateGC) + 10 * ssd.ppz < currentTime then currentTime else old(lastUpdateGC)
      ensures ok ==> statsWriteHeadWrites == Bumped(old(statsWriteHeadWrites), head)
      ensures ok ==> statsWriteHeadWritesTotal == Bumped(old(statsWriteHeadWritesTotal), head)
      ensures ok ==> forall x :: 0 <= x < ssd.logicalPages ==>
        (Held(ssd.flash, ssd.writeBuffer, x) <==> Held(old(ssd.flash), old(ssd.writeBuffer), x) || x == pageId)
      ensures old(ssd.flash.blocks[writeHeads[head]]).CanWrite() ==>
        var h := Cached(old(ssd.flash), old(ssd.writeBuffer), ssd.writeBufferSize, ssd.ppz, pageId, old(writeHeads)[head], head);
        ok && writeHeads == old(writeHeads) && freeBlocks == old(freeBlocks) && gcWritesHeads == old(gcWritesHeads) &&
        ssd.flash == h.flash && ssd.writeBuffer == h.buffer &&
        writeHeadWriteCounter == Bumped(old(writeHeadWriteCounter), head)
      ensures !old(ssd.flash.blocks[writeHeads[head]]).CanWrite() && old(freeBlocks) != [] ==>
        var d := old(freeBlocks)[0];
        var h := Cached(old(ssd.flash), old(ssd.writeBuffer), ssd.writeBufferSize, ssd.ppz, pageId, d, head);
        writeHeads == old(writeHeads)[head := d] && freeBlocks == old(freeBlocks)[1..] && gcWritesHeads == old(gcWritesHeads) &&
        (ok <==> old(ssd.flash).blocks[d].CanWrite()) &&
        (ok ==> ssd.flash == h.flash && ssd.writeBuffer == h.buffer &&
                writeHeadWriteCounter == Bumped(old(writeHeadWriteCounter), head)) &&
        (!ok ==> ssd.flash == old(ssd.flash) && ssd.writeBuffer == old(ssd.writeBuffer) &&
                 writeHeadWriteCounter == old(writeHeadWriteCounter))
      ensures !old(ssd.flash.blocks[writeHeads[head]]).CanWrite() && old(freeBlocks) == [] ==>
        var run := GcRun(old(ssd.flash), ssd.ppz, old(gcWritesHeads), GcGroup(old(ssd.flash.blocks), justTTno2a, o.smartGroup),
                         tt, currentTime, percentiles, maxWriteHeads, fuel);
        var c := CountersAfterGc(old(writeHeadWriteCounter), old(lastUpdateGC), currentTime, ssd.ppz);
        (ok <==> run.0.Freed?) &&
        (ok ==> var h := Cached(run.0.flash, old(ssd.writeBuffer), ssd.writeBufferSize, ssd.ppz, pageId, run.0.free, head);
                writeHeads == old(writeHeads)[head := run.0.free] && freeBlocks == [] && gcWritesHeads == run.1 &&
                ssd.flash == h.flash && ssd.writeBuffer == h.buffer && writeHeadWriteCounter == Bumped(c, head)) &&
        (!ok ==> ssd.flash == old(ssd.flash) && ssd.writeBuffer == old(ssd.writeBuffer) && writeHeads == old(writeHeads) &&
                 freeBlocks == [] && gcWritesHeads == old(gcWritesHeads) && writeHeadWriteCounter == c)
    {
      if ssd.flash.blocks[writeHeads[head]].CanWrite() {
        ok := WriteAndCount(pageId, head, ssd.flash);
      } else if freeBlocks != [] {
        ok := TakeAndWrite(pageId, head, o);
      } else {
        ok := CollectAndWrite(pageId, head, o);
      }
    }

    /** writePage on a full head with free blocks queued: the front of the queue becomes the head. */
    method TakeAndWrite(pageId: nat, head: nat, o: Oracle) returns (ok: bool)
      requires Valid() && pageId < ssd.logicalPages && head < maxWriteHeads
      requires |o.gcPercentiles| == maxWriteHeads - 1 && -1 <= o.smartGroup < maxWriteHeads
      requires !ssd.flash.blocks[writeHeads[head]].CanWrite() && freeBlocks != []
      modifies this, ssd
      ensures Valid() && tt == old(tt) && currentTime == old(currentTime)
      ensures percentiles == old(percentiles) && lastUpdatePercentilesTS == old(lastUpdatePercentilesTS)
      ensures lastUpdateGC == old(lastUpdateGC)
      ensures ok ==> statsWriteHeadWrites == Bumped(old(statsWriteHeadWrites), head)
      ensures ok ==> statsWriteHeadWritesTotal == Bumped(old(statsWriteHeadWritesTotal), head)
      ensures ok ==> forall x :: 0 <= x < ssd.logicalPages ==>
        (Held(ssd.flash, ssd.writeBuffer, x) <==> Held(old(ssd.flash), old(ssd.writeBuffer), x) || x == pageId)
      ensures var d := old(freeBlocks)[0];
        var h := Cached(old(ssd.flash), old(ssd.writeBuffer), ssd.writeBufferSize, ssd.ppz, pageId, d, head);
        writeHeads == old(writeHeads)[head := d] && freeBlocks == old(freeBlocks)[1..] && gcWritesHeads == old(gcWritesHeads) &&
        (ok <==> old(ssd.flash).blocks[d].CanWrite()) &&
        (ok ==> ssd.flash == h.flash && ssd.writeBuffer == h.buffer &&
                writeHeadWriteCounter == Bumped(old(writeHeadWriteCounter), head)) &&
        (!ok ==> ssd.flash == old(ssd.flash) && ssd.writeBuffer == old(ssd.writeBuffer) &&
                 writeHeadWriteCounter == old(writeHeadWriteCounter))
    {
      ghost var f0 := ssd.flash;
      ok := ReplaceHead(head, o);
      if !ok {
        return;
      }
      ok := WriteAndCount(pageId, head, f0);
    }

    /** writePage on a full head with no free block queued: a GC frees the new head. */
    method CollectAndWrite(pageId: nat, head: nat, o: Oracle) returns (ok: bool)
      requires Valid() && pageId < ssd.logicalPages && head < maxWriteHeads
      requires |o.gcPercentiles| == maxWriteHeads - 1 && -1 <= o.smartGroup < maxWriteHeads
      requires !ssd.flash.blocks[writeHeads[head]].CanWrite() && freeBlocks == []
      modifies this, ssd
      ensures Valid() && tt == old(tt) && currentTime == old(currentTime)
      ensures (percentiles, lastUpdatePercentilesTS) ==
        if GcGroup(old(ssd.flash.blocks), justTTno2a, o.smartGroup) != -1
        then Refreshed(old(percentiles), old(lastUpdatePercentilesTS), currentTime, ssd.ppz, o.gcPercentiles)
        else (old(percentiles), old(lastUpdatePercentilesTS))
      ensures lastUpdateGC == if old(lastUpdateGC) + 10 * ssd.ppz < currentTime then currentTime else old(lastUpdateGC)
      ensures ok ==> statsWriteHeadWrites == Bumped(old(statsWriteHeadWrites), head)
      ensures ok ==> statsWriteHeadWritesTotal == Bumped(old(statsWriteHeadWritesTotal), head)
      ensures ok ==> forall x :: 0 <= x < ssd.logicalPages ==>
        (Held(ssd.flash, ssd.writeBuffer, x) <==> Held(old(ssd.flash), old(ssd.writeBuffer), x) || x == pageId)
      ensures var run := GcRun(old(ssd.flash), ssd.ppz, old(gcWritesHeads), GcGroup(old(ssd.flash.blocks), justTTno2a, o.smartGroup),
                         tt, currentTime, percentiles, maxWriteHeads, fuel);
        var c := CountersAfterGc(old(writeHeadWriteCounter), old(lastUpdateGC), currentTime, ssd.ppz);
        (ok <==> run.0.Freed?) &&
        (ok ==> var h := Cached(run.0.flash, old(ssd.writeBuffer), ssd.writeBufferSize, ssd.ppz, pageId, run.0.free, head);
                writeHeads == old(writeHeads)[head := run.0.free] && freeBlocks == [] && gcWritesHeads == run.1 &&
                ssd.flash == h.flash && ssd.writeBuffer == h.buffer && writeHeadWriteCounter == Bumped(c, head)) &&
        (!ok ==> ssd.flash == old(ssd.flash) && ssd.writeBuffer == old(ssd.writeBuffer) && writeHeads == old(writeHeads) &&
                 freeBlocks == [] && gcWritesHeads == old(gcWritesHeads) && writeHeadWriteCounter == c)
    {
      ghost var f0 := ssd.flash;
      ok := ReplaceHead(head, o);
      if !ok {
        return;
      }
      ok := WriteAndCount(pageId, head, f0);
    }

    /** The write to a head with room, and the counting: the page joins the held pages of the state f0 the GC started from. */
    method WriteAndCount(pageId: nat, head: nat, ghost f0: Flash) returns (ok: bool)
      requires Valid() && pageId < ssd.logicalPages && head < maxWriteHeads
      requires ssd.flash.blocks[writeHeads[head]].CanWrite() && SameMapped(f0, ssd.flash)
      modifies this, ssd
      ensures Valid() && ok && tt == old(tt) && currentTime == old(currentTime)
      ensures writeHeads == old(writeHeads) && freeBlocks == old(freeBlocks)
      ensures gcWritesHeads == old(gcWritesHeads) && percentiles == old(percentiles)
      ensures lastUpdatePercentilesTS == old(lastUpdatePercentilesTS) && lastUpdateGC == old(lastUpdateGC)
      ensures var h := Cached(old(ssd.flash), old(ssd.writeBuffer), ssd.writeBufferSize, ssd.ppz, pageId, writeHeads[head], head);
        ssd.flash == h.flash && ssd.writeBuffer == h.buffer
      ensures statsWriteHeadWrites == Bumped(old(statsWriteHeadWrites), head)
      ensures statsWriteHeadWritesTotal == Bumped(old(statsWriteHeadWritesTotal), head)
      ensures writeHeadWriteCounter == Bumped(old(writeHeadWriteCounter), head)
      ensures forall x :: 0 <= x < ssd.logicalPages ==>
        (Held(ssd.flash, ssd.writeBuffer, x) <==> Held(f0, old(ssd.writeBuffer), x) || x == pageId)
    {
      WriteAfterMovesKeepsPages(f0, ssd.flash, ssd.writeBuffer, ssd.writeBufferSize, ssd.ppz, pageId, writeHeads[head], head);
      ok := ssd.WritePage(pageId, writeHeads[head], head);
      Count(head);
    }

    /** The stamping of writePage: the page's history takes the current time, which then advances. */
    method Stamp(pageId: nat)
      requires Valid() && pageId < |tt|
      modifies this
      ensures Valid() && tt == old(tt)[pageId := Stamped(old(tt)[pageId], old(currentTime))]
      ensures currentTime == old(currentTime) + 1
      ensures writeHeads == old(writeHeads) && freeBlocks == old(freeBlocks) && gcWritesHeads == old(gcWritesHeads)
      ensures writeHeadWriteCounter == old(writeHeadWriteCounter) && statsWriteHeadWrites == old(statsWriteHeadWrites)
      ensures statsWriteHeadWritesTotal == old(statsWriteHeadWritesTotal) && percentiles == old(percentiles)
      ensures lastUpdatePercentilesTS == old(lastUpdatePercentilesTS) && lastUpdateGC == old(lastUpdateGC)
    {
      tt := tt[pageId := Stamped(tt[pageId], currentTime)];
      currentTime := currentTime + 1;
    }

    /** The counting at the end of writePage: the head's three write counters go up by one. */
    method Count(head: nat)
      requires Valid() && head < maxWriteHeads
      modifies this
      ensures Valid()
      ensures writeHeadWriteCounter == Bumped(old(writeHeadWriteCounter), head)
      ensures statsWriteHeadWrites == Bumped(old(statsWriteHeadWrites), head)
      ensures statsWriteHeadWritesTotal == Bumped(old(statsWriteHeadWritesTotal), head)
      ensures writeHeads == old(writeHeads) && freeBlocks == old(freeBlocks) && tt == old(tt)
      ensures currentTime == old(currentTime) && gcWritesHeads == old(gcWritesHeads) && percentiles == old(percentiles)
      ensures lastUpdatePercentilesTS == old(lastUpdatePercentilesTS) && lastUpdateGC == old(lastUpdateGC)
    {
      statsWriteHeadWrites := Bumped(statsWriteHeadWrites, head);
      statsWriteHeadWritesTotal := Bumped(statsWriteHeadWritesTotal, head);
      writeHeadWriteCounter := Bumped(writeHeadWriteCounter, head);
    }

    /**
      The head replacement of writePage: a GC when the free list is empty,
      then the front of the free list becomes the head, and must be
      writable.  GC moves pages but keeps the same pages mapped.
     */
    method ReplaceHead(head: nat, o: Oracle) returns (ok: bool)
      requires Valid() && head < maxWriteHeads
      requires |o.gcPercentiles| == maxWriteHeads - 1 && -1 <= o.smartGroup < maxWriteHeads
      modifies this, ssd
      ensures Valid() && SameMapped(old(ssd.flash), ssd.flash) && ssd.writeBuffer == old(ssd.writeBuffer)
      ensures tt == old(tt) && currentTime == old(currentTime)
      ensures statsWriteHeadWrites == old(statsWriteHeadWrites) && statsWriteHeadWritesTotal == old(statsWriteHeadWritesTotal)
      ensures writeHeadWriteCounter ==
        if old(freeBlocks) == [] then CountersAfterGc(old(writeHeadWriteCounter), old(lastUpdateGC), currentTime, ssd.ppz)
        else old(writeHeadWriteCounter)
      ensures ok ==> ssd.flash.blocks[writeHeads[head]].CanWrite()
      ensures old(freeBlocks) != [] ==>
        ssd.flash == old(ssd.flash) && gcWritesHeads == old(gcWritesHeads) &&
        writeHeads == old(writeHeads)[head := old(freeBlocks)[0]] && freeBlocks == old(freeBlocks)[1..] &&
        (ok <==> old(ssd.flash).blocks[old(freeBlocks)[0]].CanWrite())
      ensures old(freeBlocks) == [] ==>
        var run := GcRun(old(ssd.flash), ssd.ppz, old(gcWritesHeads), GcGroup(old(ssd.flash.blocks), justTTno2a, o.smartGroup),
                         tt, currentTime, percentiles, maxWriteHeads, fuel);
        (ok <==> run.0.Freed?) &&
        (ok ==> ssd.flash == run.0.flash && writeHeads == old(writeHeads)[head := run.0.free] && freeBlocks == [] &&
                gcWritesHeads == run.1) &&
        (!ok ==> ssd.flash == old(ssd.flash) && writeHeads == old(writeHeads) && freeBlocks == [] &&
                 gcWritesHeads == old(gcWritesHeads))
      ensures (percentiles, lastUpdatePercentilesTS) ==
        if old(freeBlocks) == [] && GcGroup(old(ssd.flash.blocks), justTTno2a, o.smartGroup) != -1
        then Refreshed(old(percentiles), old(lastUpdatePercentilesTS), currentTime, ssd.ppz, o.gcPercentiles)
        else (old(percentiles), old(lastUpdatePercentilesTS))
      ensures lastUpdateGC ==
        if old(freeBlocks) == [] && old(lastUpdateGC) + 10 * ssd.ppz < currentTime then currentTime else old(lastUpdateGC)
    {
      if freeBlocks == [] {
        var r;
        ok, r := PerformGC(o);
        if !ok {
          return;
        }
      }
      var b := freeBlocks[0];
      writeHeads := writeHeads[head := b];
      freeBlocks := freeBlocks[1..];
      ok := ssd.flash.blocks[b].CanWrite();
    }

    /**
      TwoAGC::performGC: the GC counters are reset when more than ten
      blocks' worth of time has passed since the last reset; the GC group is
      GcGroup (the source signals when there is none); the thresholds are
      refreshed if stale; then the device reclaims a block within the group,
      with the callbacks above, the GC heads are what the callbacks left,
      and the freed, erased block joins the back of the free list.  ok is
      false where a fatal check fires, and the flash is then unchanged.
     */
    method PerformGC(o: Oracle) returns (ok: bool, r: Reclaimed)
      requires Valid() && |o.gcPercentiles| == maxWriteHeads - 1 && -1 <= o.smartGroup < maxWriteHeads
      modifies this, ssd
      ensures Valid() && SameMapped(old(ssd.flash), ssd.flash) && ssd.writeBuffer == old(ssd.writeBuffer)
      ensures writeHeads == old(writeHeads) && tt == old(tt) && currentTime == old(currentTime)
      ensures statsWriteHeadWrites == old(statsWriteHeadWrites) && statsWriteHeadWritesTotal == old(statsWriteHeadWritesTotal)
      ensures old(lastUpdateGC) + 10 * ssd.ppz < currentTime ==>
        writeHeadWriteCounter == seq(maxWriteHeads, _ => 0) && lastUpdateGC == currentTime
      ensures old(lastUpdateGC) + 10 * ssd.ppz >= currentTime ==>
        writeHeadWriteCounter == old(writeHeadWriteCounter) && lastUpdateGC == old(lastUpdateGC)
      ensures !ok ==> ssd.flash == old(ssd.flash) && freeBlocks == old(freeBlocks) && gcWritesHeads == old(gcWritesHeads)
      ensures percentiles ==
        if GcGroup(old(ssd.flash.blocks), justTTno2a, o.smartGroup) != -1 && old(lastUpdatePercentilesTS) + 10 * ssd.ppz < currentTime
        then o.gcPercentiles else old(percentiles)
      ensures (percentiles, lastUpdatePercentilesTS) ==
        if GcGroup(old(ssd.flash.blocks), justTTno2a, o.smartGroup) != -1
        then Refreshed(old(percentiles), old(lastUpdatePercentilesTS), currentTime, ssd.ppz, o.gcPercentiles)
        else (old(percentiles), old(lastUpdatePercentilesTS))
      ensures var run := GcRun(old(ssd.flash), ssd.ppz, old(gcWritesHeads), GcGroup(old(ssd.flash.blocks), justTTno2a, o.smartGroup),
                               tt, currentTime, percentiles, maxWriteHeads, fuel);
        (ok <==> run.0.Freed?) && (ok ==> (r, gcWritesHeads) == run)
      ensures ok ==> (GcGroup(old(ssd.flash.blocks), justTTno2a, o.smartGroup) != -1 && r.Freed? &&
        (r, gcWritesHeads) == GroupedRounds(old(ssd.flash), ssd.ppz, old(gcWritesHeads),
                                           NextInGroup(GcGroup(old(ssd.flash.blocks), justTTno2a, o.smartGroup)),
                                           GcDestination(tt, currentTime, percentiles, maxWriteHeads), UpdateGroup(), fuel) &&
        ssd.flash == r.flash && freeBlocks == old(freeBlocks) + [r.free])
      ensures ok ==> ssd.flash.blocks[r.free].IsErased()
    {
      r := Aborted(NoVictim);
      ResetCounters();
      var group := PickGroup(o.smartGroup);
      if group == -1 {
        return false, r;
      }
      RefreshForGc(o.gcPercentiles);
      ok, r := ReclaimInGroup(NextInGroup(group), GcDestination(tt, currentTime, percentiles, maxWriteHeads), UpdateGroup());
    }

    /** The fields a reclamation leaves as they are: the host-write side and the thresholds. */
    ghost function Kept(): (seq<nat>, seq<seq<nat>>, nat, seq<nat>, nat, nat, seq<nat>, seq<nat>, seq<nat>)
      reads this
    {
      (writeHeads, tt, currentTime, percentiles, lastUpdatePercentilesTS, lastUpdateGC, writeHeadWriteCounter,
       statsWriteHeadWrites, statsWriteHeadWritesTotal)
    }

    /**
      The reclamation of performGC: the device's grouped compaction with
      the three callbacks, after which the GC heads are those the callbacks
      left and the freed block joins the back of the free list.
     */
    method ReclaimInGroup(next: seq<Block> -> int, dest: (seq<Block>, seq<nat>, nat) -> (int, int),
                          update: (seq<Block>, seq<nat>, int, nat) -> (seq<nat>, bool)) returns (ok: bool, r: Reclaimed)
      requires Valid()
      modifies this, ssd
      ensures Valid() && SameMapped(old(ssd.flash), ssd.flash) && ssd.writeBuffer == old(ssd.writeBuffer)
      ensures Kept() == old(Kept())
      ensures ok == GroupedRounds(old(ssd.flash), ssd.ppz, old(gcWritesHeads), next, dest, update, fuel).0.Freed?
      ensures !ok ==> ssd.flash == old(ssd.flash) && freeBlocks == old(freeBlocks) && gcWritesHeads == old(gcWritesHeads)
      ensures ok ==> (r.Freed? &&
        (r, gcWritesHeads) == GroupedRounds(old(ssd.flash), ssd.ppz, old(gcWritesHeads), next, dest, update, fuel) &&
        ssd.flash == r.flash && freeBlocks == old(freeBlocks) + [r.free])
      ensures ok ==> ssd.flash.blocks[r.free].IsErased()
    {
      var heads;
      r, heads := Compact(next, dest, update);
      if r.Aborted? {
        return false, r;
      }
      Adopt(heads, r.free);
      ok := true;
    }

    /** The device's grouped compaction from the current GC heads; only the device changes. */
    method Compact(next: seq<Block> -> int, dest: (seq<Block>, seq<nat>, nat) -> (int, int),
                   update: (seq<Block>, seq<nat>, int, nat) -> (seq<nat>, bool)) returns (r: Reclaimed, heads: seq<nat>)
      requires Valid()
      modifies ssd
      ensures Valid() && SameMapped(old(ssd.flash), ssd.flash) && ssd.writeBuffer == old(ssd.writeBuffer)
      ensures (r, heads) == GroupedRounds(old(ssd.flash), ssd.ppz, gcWritesHeads, next, dest, update, fuel)
      ensures r.Freed? ==> ssd.flash == r.flash && r.free < ssd.zones && ssd.flash.blocks[r.free].IsErased()
      ensures r.Aborted? ==> ssd.flash == old(ssd.flash)
    {
      r, heads := ssd.CompactUntilFreeGrouped(gcWritesHeads, next, dest, update, fuel);
    }

    /** The GC heads the callbacks left, and the freed block at the back of the free list. */
    method Adopt(heads: seq<nat>, free: nat)
      requires Valid() && free < ssd.zones
      modifies this
      ensures Valid() && Kept() == old(Kept())
      ensures gcWritesHeads == heads && freeBlocks == old(freeBlocks) + [free]
    {
      gcWritesHeads := heads;
      freeBlocks := freeBlocks + [free];
    }

    /** The first step of performGC: the write counters restart when more than ten blocks' worth of time has passed. */
    method ResetCounters()
      requires Valid()
      modifies this
      ensures Valid()
      ensures old(lastUpdateGC) + 10 * ssd.ppz < currentTime ==>
        writeHeadWriteCounter == seq(maxWriteHeads, _ => 0) && lastUpdateGC == currentTime
      ensures old(lastUpdateGC) + 10 * ssd.ppz >= currentTime ==>
        writeHeadWriteCounter == old(writeHeadWriteCounter) && lastUpdateGC == old(lastUpdateGC)
      ensures writeHeads == old(writeHeads) && freeBlocks == old(freeBlocks) && tt == old(tt) && gcWritesHeads == old(gcWritesHeads)
      ensures currentTime == old(currentTime) && percentiles == old(percentiles)
      ensures lastUpdatePercentilesTS == old(lastUpdatePercentilesTS)
      ensures statsWriteHeadWrites == old(statsWriteHeadWrites) && statsWriteHeadWritesTotal == old(statsWriteHeadWritesTotal)
    {
      if lastUpdateGC + 10 * ssd.ppz < currentTime {
        lastUpdateGC := currentTime;
        writeHeadWriteCounter := seq(maxWriteHeads, _ => 0);
      }
    }

    /** The group choice of performGC: see GcGroup. */
    method PickGroup(smart: int) returns (group: int)
      requires Valid()
      ensures group == GcGroup(ssd.flash.blocks, justTTno2a, smart)
    {
      group := if justTTno2a then -1 else smart;
      if group == -1 {
        var g := GreedyScan(ssd.flash.blocks, AnyFull);
        if g == -1 {
          return -1;
        }
        group := ssd.flash.blocks[g].group;
      }
    }

    /** The refresh the GC's destination choices would make: stale thresholds are replaced once. */
    method RefreshForGc(sample: seq<nat>)
      requires Valid() && |sample| == maxWriteHeads - 1
      modifies this
      ensures Valid()
      ensures old(lastUpdatePercentilesTS) + 10 * ssd.ppz < currentTime ==>
        percentiles == sample && lastUpdatePercentilesTS == currentTime
      ensures old(lastUpdatePercentilesTS) + 10 * ssd.ppz >= currentTime ==>
        percentiles == old(percentiles) && lastUpdatePercentilesTS == old(lastUpdatePercentilesTS)
      ensures writeHeads == old(writeHeads) && freeBlocks == old(freeBlocks) && tt == old(tt) && gcWritesHeads == old(gcWritesHeads)
      ensures currentTime == old(currentTime) && lastUpdateGC == old(lastUpdateGC)
      ensures writeHeadWriteCounter == old(writeHeadWriteCounter)
      ensures statsWriteHeadWrites == old(statsWriteHeadWrites) && statsWriteHeadWritesTotal == old(statsWriteHeadWritesTotal)
    {
      if lastUpdatePercentilesTS + 10 * ssd.ppz < currentTime {
        lastUpdatePercentilesTS := currentTime;
        percentiles := sample;
      }
    }
  }
}
