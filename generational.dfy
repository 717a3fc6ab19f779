/**
  GenerationalGC: one host write head, a queue of free blocks, and one GC
  write head per GC generation.  A victim is chosen greedily; the pages of
  victims move into the GC head of the victim's generation, and further
  victims are searched generation by generation outwards from there.
 */
module Generational {
  import opened Blocks
  import opened Ftl
  import opened Reclaim
  import opened Ssd
  import opened Victims

  /** The loop bound of recursiveGreedyGeneration. */
  const ProbeLimit: nat := 1000

  /**
    The k-th generation probed from start (k counts from 0): start,
    start-1, ..., 0, then 0 a second time, 1, 2, ...  A negative start is
    probed once and followed by 0, 1, 2, ...
   */
  function Probe(start: int, k: nat): int {
    if start >= 0 && k <= start then start - k
    else if start >= 0 then k - start - 1
    else if k == 0 then start
    else k - 1
  }

  /** Whether the search is still descending when it makes probe k. */
  predicate Descending(start: int, k: nat) {
    if start >= 0 then k <= start else k == 0
  }

  /** One step of the source's generation update moves from probe k to probe k+1. */
  lemma ProbeStep(start: int, k: nat)
    ensures Descending(start, k) && Probe(start, k) - 1 < 0 ==>
      Probe(start, k + 1) == 0 && !Descending(start, k + 1)
    ensures Descending(start, k) && Probe(start, k) - 1 >= 0 ==>
      Probe(start, k + 1) == Probe(start, k) - 1 && Descending(start, k + 1)
    ensures !Descending(start, k) ==> Probe(start, k + 1) == Probe(start, k) + 1 && !Descending(start, k + 1)
  {
  }

  /** The first probe index at which a fully written, not all-valid block of that generation exists. */
  function FirstHit(bs: seq<Block>, start: int, k: nat): (r: nat)
    requires k <= ProbeLimit
    ensures k <= r <= ProbeLimit
    decreases ProbeLimit - k
  {
    if k == ProbeLimit || MinValid(bs, Generation(Probe(start, k)), |bs|) != -1 then k
    else FirstHit(bs, start, k + 1)
  }

  /**
    recursiveGreedyGeneration(start): the greedy block of the first probed
    generation that has one.  The source raises its signal once its counter
    is used up, which includes a hit on the last (1000th) probe; -1 stands
    for that signal.
   */
  function RecursiveGreedy(bs: seq<Block>, start: int): (r: int)
  {
    var k := FirstHit(bs, start, 0);
    if k >= ProbeLimit - 1 then -1 else MinValid(bs, Generation(Probe(start, k)), |bs|)
  }

  /** FirstHit finds the first hit at or after k. */
  lemma {:induction false} FirstHitIsFirst(bs: seq<Block>, start: int, k: nat)
    requires k <= ProbeLimit
    ensures var h := FirstHit(bs, start, k);
      (forall j :: k <= j < h ==> MinValid(bs, Generation(Probe(start, j)), |bs|) == -1) &&
      (h < ProbeLimit ==> MinValid(bs, Generation(Probe(start, h)), |bs|) != -1)
    decreases ProbeLimit - k
  {
    if k < ProbeLimit && MinValid(bs, Generation(Probe(start, k)), |bs|) == -1 {
      FirstHitIsFirst(bs, start, k + 1);
    }
  }

  /**
    What the search answers: -1 exactly when none of the first 999
    probed generations has a candidate; otherwise the greedy block of the
    first probed generation that has one, which is fully written, not all
    valid, and of that generation.
   */
  lemma RecursiveGreedyFinds(bs: seq<Block>, start: int)
    ensures var r := RecursiveGreedy(bs, start);
      (r == -1 <==> forall j :: 0 <= j < ProbeLimit - 1 ==> MinValid(bs, Generation(Probe(start, j)), |bs|) == -1) &&
      (r != -1 ==> 0 <= r < |bs| && bs[r].FullyWritten() && !bs[r].AllValid()) &&
      (r != -1 ==> exists j :: (0 <= j < ProbeLimit - 1 && bs[r].gcGeneration == Probe(start, j) &&
          r == MinValid(bs, Generation(Probe(start, j)), |bs|) &&
          forall i :: 0 <= i < j ==> MinValid(bs, Generation(Probe(start, i)), |bs|) == -1))
  {
    FirstHitIsFirst(bs, start, 0);
    var h := FirstHit(bs, start, 0);
    if h < ProbeLimit - 1 {
      var r := MinValid(bs, Generation(Probe(start, h)), |bs|);
      assert bs[r].gcGeneration == Probe(start, h);
    }
  }

  /**
    GenerationalGC::recursiveGreedyGeneration, with the source's loop: the
    test `minIdx == -1 && limit-- > 0` decrements limit only when minIdx is
    still -1, and a limit that ends at or below 0 means the signal (-1).
   */
  method RecursiveGreedyGeneration(bs: seq<Block>, start: int) returns (r: int)
    ensures r == RecursiveGreedy(bs, start)
  {
    var generation := start;
    var minIdx := -1;
    var descending := true;
    var limit: int := ProbeLimit;
    ghost var k: nat := 0;
    while minIdx == -1 && limit > 0
      invariant 0 <= k <= ProbeLimit && limit == ProbeLimit - k
      invariant generation == Probe(start, k) && descending == Descending(start, k)
      invariant minIdx == -1 ==> FirstHit(bs, start, 0) == FirstHit(bs, start, k)
      invariant minIdx != -1 ==> 1 <= k && FirstHit(bs, start, 0) == k - 1 &&
                                 minIdx == MinValid(bs, Generation(Probe(start, k - 1)), |bs|)
      decreases limit
    {
      limit := limit - 1;
      minIdx := ScanMin(bs, Generation(generation));
      ProbeStep(start, k);
      if descending {
        generation := generation - 1;
        if generation < 0 {
          generation := 0;
          descending := false;
        }
      } else {
        generation := generation + 1;
      }
      k := k + 1;
    }
    if minIdx == -1 {
      // the failed test still decremented limit
      limit := limit - 1;
    }
    if limit <= 0 {
      r := -1;
    } else {
      r := minIdx;
    }
  }

  /** The victim chooser the GC hands to compactUntilFreeBlock: the generation search from gen. */
  function NextVictim(gen: int): seq<Block> -> int {
    bs => RecursiveGreedy(bs, gen)
  }

  /**
    performGC's choice of GC block: the greedy block, unless its generation
    already has a GC head (not -1).  A generation never seen before reads as
    block 0, because indexing the map default-inserts 0.
   */
  function GcBlockFor(bs: seq<Block>, heads: map<int, int>, greedy: nat): (r: int)
    requires greedy < |bs|
    ensures var gen := bs[greedy].gcGeneration;
      r == (if gen == -1 then greedy else if gen !in heads then 0 else if heads[gen] != -1 then heads[gen] else greedy)
  {
    var gen := bs[greedy].gcGeneration;
    if gen == -1 then greedy
    else
      var head := if gen in heads then heads[gen] else 0;
      if head != -1 then head else greedy
  }

  /**
    The reclamation performGC runs on a flash: the greedy victim's GC block
    (GcBlockFor) as the first destination and the generation search from
    the victim's generation as the chooser; Aborted(NoVictim) where
    singleGreedy finds no victim.
   */
  function GcRun(f: Flash, ppz: nat, heads: map<int, int>, fuel: nat): (r: Reclaimed)
    requires Ok(f, ppz) && forall gen :: gen in heads ==> -1 <= heads[gen] < |f.blocks|
    ensures FreedOk(f, r, ppz) && (r.Freed? ==> r.free != r.gcBlock && r.flash.blocks[r.free].CanWrite())
  {
    var greedy := Greedy(f.blocks, AnyFull);
    if greedy == -1 then Aborted(NoVictim)
    else
      var r := CompactUntilFree(f, ppz, GcBlockFor(f.blocks, heads, greedy), NextVictim(f.blocks[greedy].gcGeneration), fuel);
      if r.Freed? then
        OkShape(r.flash, ppz);
        r
      else r
  }

  /**
    The GC-head map once performGC has read the greedy victim's
    generation: a generation not yet in the map gains the entry 0, the
    map's default.  This is what a failing performGC leaves.
   */
  function HeadsRead(bs: seq<Block>, heads: map<int, int>): map<int, int> {
    var g := Greedy(bs, AnyFull);
    if g != -1 && bs[g].gcGeneration != -1 && bs[g].gcGeneration !in heads then heads[bs[g].gcGeneration := 0]
    else heads
  }

  class GenerationalGC {
    const ssd: Device
    /** The round budget of each reclamation (the source loops without bound). */
    const fuel: nat
    var currentWriteHead: nat
    var freeBlocks: seq<nat>
    var gcWriteHeads: map<int, int>

    ghost predicate Valid()
      reads this, ssd
    {
      ssd.Valid() && currentWriteHead < ssd.zones &&
      (forall i :: 0 <= i < |freeBlocks| ==> freeBlocks[i] < ssd.zones) &&
      (forall gen :: gen in gcWriteHeads ==> -1 <= gcWriteHeads[gen] < ssd.zones)
    }

    /** GenerationalGC::GenerationalGC: block 0 is the write head, all others are free, in order. */
    constructor (ssd: Device, fuel: nat)
      requires ssd.Valid() && ssd.zones > 0
      ensures Valid() && this.ssd == ssd && this.fuel == fuel
      ensures currentWriteHead == 0 && freeBlocks == seq(ssd.zones - 1, i => i + 1) && gcWriteHeads == map[]
    {
      this.ssd := ssd;
      this.fuel := fuel;
      var all: seq<nat> := [];
      for z := 0 to ssd.zones
        invariant all == seq(z, i => i)
      {
        all := all + [z];
      }
      currentWriteHead := all[0];
      freeBlocks := all[1..];
      gcWriteHeads := map[];
    }

    /**
      GenerationalGC::performGC: a greedy victim, the GC head of its
      generation (see GcBlockFor), a reclamation searching victims from that
      generation, then the generation's GC head becomes the block the
      reclamation ended on and the freed block joins the free queue.  A
      fatal check anywhere leaves ok false and the flash as it was.
     */
    method PerformGC() returns (ok: bool, r: Reclaimed)
      requires Valid()
      modifies this, ssd
      ensures Valid() && currentWriteHead == old(currentWriteHead) && ssd.writeBuffer == old(ssd.writeBuffer)
      ensures var greedy := Greedy(old(ssd.flash.blocks), AnyFull);
        ok ==> (greedy != -1 && r.Freed? &&
          r == CompactUntilFree(old(ssd.flash), ssd.ppz,
                                GcBlockFor(old(ssd.flash.blocks), old(gcWriteHeads), greedy),
                                NextVictim(old(ssd.flash.blocks)[greedy].gcGeneration), fuel) &&
          ssd.flash == r.flash && freeBlocks == old(freeBlocks) + [r.free] &&
          gcWriteHeads == old(gcWriteHeads)[old(ssd.flash.blocks)[greedy].gcGeneration := r.gcBlock])
      ensures !ok ==> ssd.flash == old(ssd.flash) && freeBlocks == old(freeBlocks)
      ensures !ok ==> gcWriteHeads == HeadsRead(old(ssd.flash.blocks), old(gcWriteHeads))
      ensures var run := GcRun(old(ssd.flash), ssd.ppz, old(gcWriteHeads), fuel);
        (ok <==> run.Freed?) && (ok ==> r == run)
    {
      var heads := gcWriteHeads;
      var greedy, gcBlock := PickGcBlock();
      if greedy == -1 {
        return false, Aborted(NoVictim);
      }
      var gen := ssd.flash.blocks[greedy].gcGeneration;
      r := ssd.CompactUntilFreeBlock(gcBlock, NextVictim(gen), fuel);
      if r.Aborted? {
        return false, r;
      }
      Adopt(heads[gen := r.gcBlock], r.free);
      ok := true;
    }

    /**
      The first half of performGC: the greedy victim, and the GC block of
      its generation; indexing the map default-inserts 0 for a new generation.
     */
    method PickGcBlock() returns (greedy: int, gcBlock: int)
      requires Valid()
      modifies this
      ensures Valid() && greedy == Greedy(ssd.flash.blocks, AnyFull)
      ensures currentWriteHead == old(currentWriteHead) && freeBlocks == old(freeBlocks)
      ensures greedy != -1 ==> gcBlock == GcBlockFor(ssd.flash.blocks, old(gcWriteHeads), greedy) && -1 <= gcBlock < ssd.zones
      ensures gcWriteHeads ==
        if greedy != -1 && ssd.flash.blocks[greedy].gcGeneration != -1 && ssd.flash.blocks[greedy].gcGeneration !in old(gcWriteHeads)
        then old(gcWriteHeads)[ssd.flash.blocks[greedy].gcGeneration := 0]
        else old(gcWriteHeads)
    {
      greedy := GreedyScan(ssd.flash.blocks, AnyFull);
      gcBlock := greedy;
      if greedy == -1 {
        return;
      }
      var gen := ssd.flash.blocks[greedy].gcGeneration;
      if gen != -1 {
        if gen !in gcWriteHeads {
          gcWriteHeads := gcWriteHeads[gen := 0];
        }
        if gcWriteHeads[gen] != -1 {
          gcBlock := gcWriteHeads[gen];
        }
      }
    }

    /** The second half of performGC: new GC heads, and the freed block at the back of the free queue. */
    method Adopt(heads: map<int, int>, free: nat)
      requires ssd.Valid() && currentWriteHead < ssd.zones && free < ssd.zones
      requires forall i :: 0 <= i < |freeBlocks| ==> freeBlocks[i] < ssd.zones
      requires forall gen :: gen in heads ==> -1 <= heads[gen] < ssd.zones
      modifies this
      ensures Valid() && gcWriteHeads == heads && freeBlocks == old(freeBlocks) + [free]
      ensures currentWriteHead == old(currentWriteHead)
    {
      gcWriteHeads := heads;
      freeBlocks := freeBlocks + [free];
    }

    /**
      GenerationalGC::writePage: a full write head is replaced by the front
      of the free queue, after a GC when the queue is empty; the page then
      goes through the device's write buffer towards the head.  ok is false
      where a fatal check fires (GC failure, an unwritable new head), which
      can only happen when the head was full.
     */
    method WritePage(lp: nat) returns (ok: bool)
      requires Valid() && lp < ssd.logicalPages
      modifies this, ssd
      ensures Valid()
      ensures !ok ==> !old(ssd.flash.blocks[currentWriteHead]).CanWrite()
      ensures ok ==> forall x :: 0 <= x < ssd.logicalPages ==>
        (Held(ssd.flash, ssd.writeBuffer, x) <==> Held(old(ssd.flash), old(ssd.writeBuffer), x) || x == lp)
      ensures old(ssd.flash.blocks[currentWriteHead]).CanWrite() ==>
        var h := Cached(old(ssd.flash), old(ssd.writeBuffer), ssd.writeBufferSize, ssd.ppz, lp, old(currentWriteHead), -1);
        ok && currentWriteHead == old(currentWriteHead) && freeBlocks == old(freeBlocks) &&
        gcWriteHeads == old(gcWriteHeads) && ssd.flash == h.flash && ssd.writeBuffer == h.buffer
      ensures !old(ssd.flash.blocks[currentWriteHead]).CanWrite() && old(freeBlocks) != [] ==>
        var d := old(freeBlocks)[0];
        var h := Cached(old(ssd.flash), old(ssd.writeBuffer), ssd.writeBufferSize, ssd.ppz, lp, d, -1);
        currentWriteHead == d && freeBlocks == old(freeBlocks)[1..] && gcWriteHeads == old(gcWriteHeads) &&
        (ok <==> old(ssd.flash).blocks[d].CanWrite()) && (ok ==> ssd.flash == h.flash && ssd.writeBuffer == h.buffer) &&
        (!ok ==> ssd.flash == old(ssd.flash) && ssd.writeBuffer == old(ssd.writeBuffer))
      ensures !old(ssd.flash.blocks[currentWriteHead]).CanWrite() && old(freeBlocks) == [] ==>
        var run := GcRun(old(ssd.flash), ssd.ppz, old(gcWriteHeads), fuel);
        (ok <==> run.Freed?) &&
        (ok ==> var h := Cached(run.flash, old(ssd.writeBuffer), ssd.writeBufferSize, ssd.ppz, lp, run.free, -1);
                currentWriteHead == run.free && freeBlocks == [] && ssd.flash == h.flash && ssd.writeBuffer == h.buffer &&
                gcWriteHeads == old(gcWriteHeads)[old(ssd.flash.blocks)[Greedy(old(ssd.flash.blocks), AnyFull)].gcGeneration := run.gcBlock]) &&
        (!ok ==> ssd.flash == old(ssd.flash) && ssd.writeBuffer == old(ssd.writeBuffer) &&
                 currentWriteHead == old(currentWriteHead) && freeBlocks == [] &&
                 gcWriteHeads == HeadsRead(old(ssd.flash.blocks), old(gcWriteHeads)))
    {
      ghost var f0, b0 := ssd.flash, ssd.writeBuffer;
      ok := true;
      if !ssd.flash.blocks[currentWriteHead].CanWrite() {
        ok := ReplaceHead();
        if !ok {
          return;
        }
      }
      WriteAfterMovesKeepsPages(f0, ssd.flash, b0, ssd.writeBufferSize, ssd.ppz, lp, currentWriteHead, -1);
      ok := ssd.WritePage(lp, currentWriteHead, -1);
    }

    /**
      The head replacement of writePage: GC when the free queue is empty,
      then the front of the queue becomes the write head and must be
      writable.  GC moves pages but keeps the same pages mapped.  Where the
      GC fails, nothing is taken from the queue.
     */
    method ReplaceHead() returns (ok: bool)
      requires Valid()
      modifies this, ssd
      ensures Valid() && SameMapped(old(ssd.flash), ssd.flash) && ssd.writeBuffer == old(ssd.writeBuffer)
      ensures ok ==> ssd.flash.blocks[currentWriteHead].CanWrite()
      ensures old(freeBlocks) != [] ==>
        ssd.flash == old(ssd.flash) && gcWriteHeads == old(gcWriteHeads) &&
        currentWriteHead == old(freeBlocks)[0] && freeBlocks == old(freeBlocks)[1..] &&
        (ok <==> old(ssd.flash).blocks[old(freeBlocks)[0]].CanWrite())
      ensures old(freeBlocks) == [] ==>
        var run := GcRun(old(ssd.flash), ssd.ppz, old(gcWriteHeads), fuel);
        (ok <==> run.Freed?) &&
        (ok ==> ssd.flash == run.flash && currentWriteHead == run.free && freeBlocks == [] &&
                gcWriteHeads == old(gcWriteHeads)[old(ssd.flash.blocks)[Greedy(old(ssd.flash.blocks), AnyFull)].gcGeneration := run.gcBlock]) &&
        (!ok ==> ssd.flash == old(ssd.flash) && currentWriteHead == old(currentWriteHead) && freeBlocks == [] &&
                 gcWriteHeads == HeadsRead(old(ssd.flash.blocks), old(gcWriteHeads)))
    {
      if |freeBlocks| == 0 {
        var done, r := PerformGC();
        if !done {
          return false;
        }
      }
      currentWriteHead := freeBlocks[0];
      freeBlocks := freeBlocks[1..];
      ok := ssd.flash.blocks[currentWriteHead].CanWrite();
    }
  }
}
