/**
  What the DTE policy does with the pages the device holds.  A page is
  kept while it waits in the device's write buffer, is mapped to a flash
  slot, or is queued in the policy's own buffer for rewriting (where a GC
  puts the pages of its victim).  Block replacement and group writes keep
  every kept page and add the pages they write; the flush that empties
  the policy's buffer drops the pages a GC queued while it ran.
 */
module DteKeeps {
  import opened Ftl
  import opened Ssd
  import opened DteState
  import opened Deathtime
  import Lru

  /** Page x is kept in s: held by the device, or queued in the policy's buffer. */
  ghost predicate Kept(s: Run, x: nat)
    requires x < |s.flash.ltp|
  {
    Held(s.flash, s.buffer, x) || x in s.cached
  }

  /** Page x is kept in s counting only the queue entries from position k on. */
  ghost predicate KeptFrom(s: Run, k: nat, x: nat)
    requires x < |s.flash.ltp| && k <= |s.cached|
  {
    Held(s.flash, s.buffer, x) || x in s.cached[k..]
  }

  /**
    From s to t no kept page is lost and only pages of p are added,
    counting the queue from position k on; the queue only grows at its end.
   */
  ghost predicate Keeps(s: Run, t: Run, k: nat, p: seq<nat>, lps: nat) {
    |s.flash.ltp| == lps && |t.flash.ltp| == lps && k <= |s.cached| && s.cached <= t.cached &&
    forall x :: 0 <= x < lps ==>
      (KeptFrom(s, k, x) ==> KeptFrom(t, k, x)) && (KeptFrom(t, k, x) ==> KeptFrom(s, k, x) || x in p)
  }

  /** Every page of order at an index in [lo, hi) is kept from k on. */
  ghost predicate Writes(t: Run, k: nat, order: seq<nat>, lo: nat, hi: nat) {
    k <= |t.cached| &&
    forall i :: lo <= i < |order| && i < hi ==> order[i] < |t.flash.ltp| && KeptFrom(t, k, order[i])
  }

  /** Two stretches that keep pages make one, adding pages of order when both add only such pages. */
  lemma KeepsTrans(s: Run, t: Run, u: Run, k: nat, p: seq<nat>, q: seq<nat>, order: seq<nat>, lps: nat)
    requires Keeps(s, t, k, p, lps) && Keeps(t, u, k, q, lps)
    requires (forall x :: x in p ==> x in order) && forall x :: x in q ==> x in order
    ensures Keeps(s, u, k, order, lps)
  {
    forall x | 0 <= x < lps
      ensures (KeptFrom(s, k, x) ==> KeptFrom(u, k, x)) && (KeptFrom(u, k, x) ==> KeptFrom(s, k, x) || x in order)
    {
      assert KeptFrom(t, k, x) ==> KeptFrom(u, k, x);
    }
  }

  /** A suffix that starts inside a reaches past it into b. */
  lemma SuffixOfAppend(a: seq<nat>, b: seq<nat>, k: nat)
    requires k <= |a|
    ensures (a + b)[k..] == a[k..] + b
  {
  }

  /** Erasing block z unmaps exactly the pages it held. */
  lemma ScrubbedHeld(f: Flash, ppz: nat, z: nat, buffer: seq<nat>)
    requires Ok(f, ppz) && z < |f.blocks|
    ensures |Scrubbed(f, ppz, z).ltp| == |f.ltp|
    ensures forall x :: 0 <= x < |f.ltp| ==>
      (Held(f, buffer, x) <==> Held(Scrubbed(f, ppz, z), buffer, x) || x as int in f.blocks[z].ptl)
  {
    ScrubbedUnmaps(f, ppz, z);
    OkShape(f, ppz);
    var ptl := f.blocks[z].ptl;
    forall x | 0 <= x < |f.ltp| && x as int in ptl
      ensures Held(f, buffer, x)
    {
      var p :| 0 <= p < |ptl| && ptl[p] == x as int;
      StoredPage(f, ppz, z, p);
    }
  }

  /** Erasing a victim whose pages were queued first loses none of them. */
  lemma ReclaimedKeeps(s: Run, d: Dims, v: nat, k: nat)
    requires RunOk(s, d) && v < d.zones && k <= |s.cached|
    ensures s.cached <= Reclaimed(s, d, v).cached
    ensures forall x :: 0 <= x < d.lps ==> (KeptFrom(Reclaimed(s, d, v), k, x) <==> KeptFrom(s, k, x))
  {
    var r := Reclaimed(s, d, v);
    var ptl := s.flash.blocks[v].ptl;
    ScrubbedHeld(s.flash, d.ppz, v, s.buffer);
    assert r.flash == Scrubbed(s.flash, d.ppz, v) && r.buffer == s.buffer;
    assert r.cached == s.cached + Queued(ptl);
    SuffixOfAppend(s.cached, Queued(ptl), k);
    forall x | 0 <= x < d.lps
      ensures KeptFrom(r, k, x) <==> KeptFrom(s, k, x)
    {
      assert x in r.cached[k..] <==> x in s.cached[k..] || x as int in ptl;
    }
  }

  /** DTE::performGC keeps every kept page: the victim's pages move from flash to the queue. */
  lemma GcKeeps(s: Run, d: Dims, rule: Rule, k: nat)
    requires RunOk(s, d) && k <= |s.cached|
    ensures s.cached <= Gc(s, d, rule).0.cached
    ensures forall x :: 0 <= x < d.lps ==> (KeptFrom(Gc(s, d, rule).0, k, x) <==> KeptFrom(s, k, x))
  {
    GcEffects(s, d, rule);
    if s.full != [] && rule != UnknownRule {
      var v := Victim(s.full, rule, s.edt, s.flash.blocks);
      if v < d.zones {
        RemoveWithin(s.full, v, d.zones);
        ReclaimedKeeps(s.(full := Lru.Remove(s.full, v)), d, v, k);
      }
    }
  }

  /** Counting the whole queue. */
  lemma KeptFromStart(s: Run)
    ensures forall x :: 0 <= x < |s.flash.ltp| ==> (KeptFrom(s, 0, x) <==> Kept(s, x))
  {
    assert s.cached[0..] == s.cached;
  }

  /** The block replacement of writePage keeps every kept page, whether or not it succeeds. */
  lemma AdvanceKeeps(s: Run, d: Dims, rule: Rule)
    requires RunOk(s, d)
    ensures forall x :: 0 <= x < d.lps ==> (Kept(Advance(s, d, rule).0, x) <==> Kept(s, x))
  {
    var t := Topped(s, d, rule);
    var a := Advance(s, d, rule);
    GcKeeps(s, d, rule, 0);
    KeptFromStart(s);
    KeptFromStart(t.0);
    assert a.0.flash == t.0.flash && a.0.buffer == t.0.buffer && a.0.cached == t.0.cached;
    forall x | 0 <= x < d.lps
      ensures Kept(a.0, x) <==> Kept(s, x)
    {
      assert Kept(a.0, x) <==> KeptFrom(t.0, 0, x);
    }
  }

  /** The renewal of a selection keeps every kept page. */
  lemma RenewKeeps(s: Run, d: Dims, rule: Rule, k: nat)
    requires RunOk(s, d) && k <= |s.cached|
    ensures s.cached <= Renew(s, d, rule).0.cached
    ensures forall x :: 0 <= x < d.lps ==> (KeptFrom(Renew(s, d, rule).0, k, x) <==> KeptFrom(s, k, x))
  {
    GcKeeps(s, d, rule, k);
  }

  /**
    A page written to a writable block: the device then keeps exactly what
    it kept and the page; no other block gains or loses room.
   */
  lemma PutKeeps(s: Run, d: Dims, hist: seq<seq<nat>>, lp: nat, b: nat, k: nat)
    requires RunOk(s, d) && lp < d.lps && b < d.zones && s.flash.blocks[b].CanWrite() && k <= |s.cached|
    ensures forall x :: 0 <= x < d.lps ==> (KeptFrom(Put(s, d, hist, lp, b), k, x) <==> KeptFrom(s, k, x) || x == lp)
    ensures forall z :: 0 <= z < d.zones && z != b ==>
      (Put(s, d, hist, lp, b).flash.blocks[z].CanWrite() <==> s.flash.blocks[z].CanWrite())
  {
    CachedEffects(s.flash, s.buffer, d.cap, d.ppz, lp, b, -1);
    CachedKeepsPages(s.flash, s.buffer, d.cap, d.ppz, lp, b, -1);
    CachedKeepsRoom(s.flash, s.buffer, d.cap, d.ppz, lp, b, -1);
  }

  /**
    The last block of a selection of distinct writable blocks gets lp; the
    rest of the selection stays distinct and writable.
   */
  lemma PutLastKeeps(s: Run, d: Dims, hist: seq<seq<nat>>, lp: nat, sel: seq<nat>, k: nat)
    requires RunOk(s, d) && lp < d.lps && k <= |s.cached| && sel != []
    requires Lru.NoDup(sel) && forall i :: 0 <= i < |sel| ==> sel[i] < d.zones && s.flash.blocks[sel[i]].CanWrite()
    ensures var r := Put(s, d, hist, lp, sel[|sel| - 1]);
      var rest := sel[..|sel| - 1];
      Lru.NoDup(rest) && (forall i :: 0 <= i < |rest| ==> rest[i] < d.zones && r.flash.blocks[rest[i]].CanWrite()) &&
      forall x :: 0 <= x < d.lps ==> (KeptFrom(r, k, x) <==> KeptFrom(s, k, x) || x == lp)
  {
    var b := sel[|sel| - 1];
    PutKeeps(s, d, hist, lp, b, k);
    var rest := sel[..|sel| - 1];
    forall i | 0 <= i < |rest|
      ensures rest[i] < d.zones && rest[i] != b
    {
      assert rest[i] == sel[i];
    }
  }

  /** One pass of writeGroupPages: the state keeps what it kept, plus lp when the pass succeeds. */
  lemma StepKeeps(s: Run, d: Dims, hist: seq<seq<nat>>, rule: Rule, lp: nat, sel: seq<nat>, k: nat)
    requires RunOk(s, d) && lp < d.lps && k <= |s.cached|
    requires Lru.NoDup(sel) && forall i :: 0 <= i < |sel| ==> sel[i] < d.zones && s.flash.blocks[sel[i]].CanWrite()
    ensures var n := Step(s, d, hist, rule, lp, sel);
      s.cached <= n.0.cached && Lru.NoDup(n.1) &&
      (forall i :: 0 <= i < |n.1| ==> n.0.flash.blocks[n.1[i]].CanWrite()) &&
      forall x :: 0 <= x < d.lps ==> (KeptFrom(n.0, k, x) <==> KeptFrom(s, k, x) || (n.2 && x == lp))
  {
    if sel == [] {
      RenewedStepKeeps(s, d, hist, rule, lp, k);
    } else {
      PutLastKeeps(s, d, hist, lp, sel, k);
      assert Step(s, d, hist, rule, lp, sel) == (Put(s, d, hist, lp, sel[|sel| - 1]), sel[..|sel| - 1], true);
    }
  }

  /** StepKeeps where the selection is exhausted and must be renewed first. */
  lemma RenewedStepKeeps(s: Run, d: Dims, hist: seq<seq<nat>>, rule: Rule, lp: nat, k: nat)
    requires RunOk(s, d) && lp < d.lps && k <= |s.cached|
    ensures var n := Step(s, d, hist, rule, lp, []);
      s.cached <= n.0.cached && Lru.NoDup(n.1) &&
      (forall i :: 0 <= i < |n.1| ==> n.0.flash.blocks[n.1[i]].CanWrite()) &&
      forall x :: 0 <= x < d.lps ==> (KeptFrom(n.0, k, x) <==> KeptFrom(s, k, x) || (n.2 && x == lp))
  {
    RenewKeeps(s, d, rule, k);
    var m := Renew(s, d, rule);
    if m.2 {
      PutLastKeeps(m.0, d, hist, lp, m.1, k);
      assert Step(s, d, hist, rule, lp, []) == (Put(m.0, d, hist, lp, m.1[|m.1| - 1]), m.1[..|m.1| - 1], true);
    } else {
      assert Step(s, d, hist, rule, lp, []) == (m.0, [], false);
    }
  }

  /**
    DTE::writeGroupPages loses no page: every page kept before is kept
    after, nothing but the group's pages is added, and when it succeeds
    every page of the group is kept.  The selection in hand must be
    distinct writable blocks, as SelectBlocks hands out.
   */
  lemma {:induction false} GroupWriteKeeps(s: Run, d: Dims, hist: seq<seq<nat>>, rule: Rule, pages: seq<nat>, sel: seq<nat>, k: nat)
    requires RunOk(s, d) && (forall i :: 0 <= i < |pages| ==> pages[i] < d.lps) && k <= |s.cached|
    requires Lru.NoDup(sel) && forall i :: 0 <= i < |sel| ==> sel[i] < d.zones && s.flash.blocks[sel[i]].CanWrite()
    ensures var r := GroupWrite(s, d, hist, rule, pages, sel);
      Keeps(s, r.0, k, pages, d.lps) && (r.1 ==> forall x :: x in pages ==> KeptFrom(r.0, k, x))
    decreases |pages|, 1
  {
    if pages != [] {
      PlacedKeeps(s, d, hist, rule, pages, sel, k);
    } else {
      KeepsTrans(s, s, s, k, [], [], [], d.lps);
    }
  }

  /** GroupWriteKeeps for a non-empty group. */
  lemma {:induction false} PlacedKeeps(s: Run, d: Dims, hist: seq<seq<nat>>, rule: Rule, pages: seq<nat>, sel: seq<nat>, k: nat)
    requires RunOk(s, d) && pages != [] && (forall i :: 0 <= i < |pages| ==> pages[i] < d.lps) && k <= |s.cached|
    requires Lru.NoDup(sel) && forall i :: 0 <= i < |sel| ==> sel[i] < d.zones && s.flash.blocks[sel[i]].CanWrite()
    ensures var r := Placed(s, d, hist, rule, pages, sel);
      Keeps(s, r.0, k, pages, d.lps) && (r.1 ==> forall x :: x in pages ==> KeptFrom(r.0, k, x))
    decreases |pages|, 0
  {
    StepKeeps(s, d, hist, rule, pages[0], sel, k);
    var n := Step(s, d, hist, rule, pages[0], sel);
    KeepsTrans(s, n.0, n.0, k, [pages[0]], [], pages, d.lps);
    if n.2 {
      GroupWriteKeeps(n.0, d, hist, rule, pages[1..], n.1, k);
      var r := GroupWrite(n.0, d, hist, rule, pages[1..], n.1);
      assert forall x :: x in pages <==> x == pages[0] || x in pages[1..];
      KeepsTrans(s, n.0, r.0, k, [pages[0]], pages[1..], pages, d.lps);
    }
  }

  /** Group g holds pages of the order only, and every entry of the order in its range. */
  lemma ChunkIn(order: seq<nat>, g: nat, size: nat)
    ensures forall x :: x in Chunk(order, g, size) ==> x in order
    ensures forall i :: g * size <= i < |order| && i < g * size + size ==> order[i] in Chunk(order, g, size)
  {
    var c := Chunk(order, g, size);
    var lo, hi := Min(g * size, |order|), Min(g * size + size, |order|);
    assert c == order[lo..hi];
    forall x | x in c
      ensures x in order
    {
      var i :| 0 <= i < |c| && c[i] == x;
      assert order[lo + i] == x;
    }
    forall i | g * size <= i < |order| && i < g * size + size
      ensures order[i] in c
    {
      assert c[i - lo] == order[i];
    }
  }

  /**
    The group loop of flushPages loses no page and adds only pages of the
    order.
   */
  lemma {:induction false} FlushRunKeeps(s: Run, d: Dims, hist: seq<seq<nat>>, rule: Rule, order: seq<nat>, size: nat, g: nat, k: nat)
    requires RunOk(s, d) && (forall i :: 0 <= i < |order| ==> order[i] < d.lps) && k <= |s.cached|
    ensures Keeps(s, FlushRun(s, d, hist, rule, order, size, g).0, k, order, d.lps)
    decreases GroupCount - g, 1
  {
    if g < GroupCount {
      GroupKeeps(s, d, hist, rule, order, size, g, k);
    } else {
      KeepsTrans(s, s, s, k, [], [], order, d.lps);
    }
  }

  /** FlushRunKeeps from a group that is written. */
  lemma {:induction false} GroupKeeps(s: Run, d: Dims, hist: seq<seq<nat>>, rule: Rule, order: seq<nat>, size: nat, g: nat, k: nat)
    requires RunOk(s, d) && (forall i :: 0 <= i < |order| ==> order[i] < d.lps) && k <= |s.cached| && g < GroupCount
    ensures Keeps(s, FlushRun(s, d, hist, rule, order, size, g).0, k, order, d.lps)
    decreases GroupCount - g, 0
  {
    ChunkWithin(order, g, size, d.lps);
    ChunkIn(order, g, size);
    var c := Chunk(order, g, size);
    GroupWriteKeeps(s, d, hist, rule, c, Selection(s), k);
    var w := GroupWrite(s, d, hist, rule, c, Selection(s));
    if w.1 {
      FlushRunKeeps(w.0, d, hist, rule, order, size, g + 1, k);
      KeepsTrans(s, w.0, FlushRun(w.0, d, hist, rule, order, size, g + 1).0, k, c, order, order, d.lps);
    } else {
      KeepsTrans(s, w.0, w.0, k, c, [], order, d.lps);
    }
  }

  /**
    When the group loop of flushPages succeeds, every page of the order
    that falls in one of the GroupCount groups from g on is kept.
   */
  lemma {:induction false} FlushRunWrites(s: Run, d: Dims, hist: seq<seq<nat>>, rule: Rule, order: seq<nat>, size: nat, g: nat, k: nat)
    requires RunOk(s, d) && (forall i :: 0 <= i < |order| ==> order[i] < d.lps) && k <= |s.cached|
    ensures var r := FlushRun(s, d, hist, rule, order, size, g);
      r.1 ==> Writes(r.0, k, order, g * size, GroupCount * size)
    decreases GroupCount - g, 1
  {
    if g < GroupCount {
      GroupWrites(s, d, hist, rule, order, size, g, k);
    } else {
      assert g * size >= GroupCount * size by {
        assert (g - GroupCount) * size >= 0;
      }
    }
  }

  /** FlushRunWrites from a group that is written. */
  lemma {:induction false} GroupWrites(s: Run, d: Dims, hist: seq<seq<nat>>, rule: Rule, order: seq<nat>, size: nat, g: nat, k: nat)
    requires RunOk(s, d) && (forall i :: 0 <= i < |order| ==> order[i] < d.lps) && k <= |s.cached| && g < GroupCount
    ensures var r := FlushRun(s, d, hist, rule, order, size, g);
      r.1 ==> Writes(r.0, k, order, g * size, GroupCount * size)
    decreases GroupCount - g, 0
  {
    ChunkWithin(order, g, size, d.lps);
    ChunkIn(order, g, size);
    var c := Chunk(order, g, size);
    GroupWriteKeeps(s, d, hist, rule, c, Selection(s), k);
    var w := GroupWrite(s, d, hist, rule, c, Selection(s));
    if w.1 {
      FlushRunKeeps(w.0, d, hist, rule, order, size, g + 1, k);
      FlushRunWrites(w.0, d, hist, rule, order, size, g + 1, k);
      var r := FlushRun(w.0, d, hist, rule, order, size, g + 1);
      assert (g + 1) * size == g * size + size;
      if r.1 {
        assert Writes(r.0, k, order, (g + 1) * size, GroupCount * size);
        forall i | g * size <= i < |order| && i < GroupCount * size
          ensures order[i] < |r.0.flash.ltp| && KeptFrom(r.0, k, order[i])
        {
          if i < g * size + size {
            assert KeptFrom(w.0, k, order[i]);
          }
        }
      }
    }
  }

  /**
    The group writing of a flush: when it succeeds, the device holds every
    page it held and every buffered page, besides what a GC queued during
    the flush, and nothing else.
   */
  lemma FlushedKeeps(s: Run, d: Dims, hist: seq<seq<nat>>, rule: Rule)
    requires RunOk(s, d) && |hist| == d.lps && Estimable(hist, s.cached)
    ensures s.cached <= Flushed(s, d, hist, rule).0.cached
    ensures var f := Flushed(s, d, hist, rule);
      f.1 ==> forall x :: 0 <= x < d.lps ==> (KeptFrom(f.0, |s.cached|, x) <==> Kept(s, x))
  {
    var order := FlushOrder(hist, s.cached);
    var size := (|s.cached| + GroupCount - 1) / GroupCount;
    var k := |s.cached|;
    FlushOrderSorted(hist, s.cached);
    FlushOrderWithin(hist, s.cached);
    FlushRunKeeps(s, d, hist, rule, order, size, 0, k);
    FlushRunWrites(s, d, hist, rule, order, size, 0, k);
    var f := FlushRun(s, d, hist, rule, order, size, 0);
    assert s.cached[k..] == [];
    if f.1 {
      forall x | 0 <= x < d.lps
        ensures KeptFrom(f.0, k, x) <==> Kept(s, x)
      {
        assert x in order <==> x in multiset(order);
        assert KeptFrom(s, k, x) <==> Held(s.flash, s.buffer, x);
        if x in order {
          var i :| 0 <= i < |order| && order[i] == x;
          assert i < GroupCount * size;
        }
      }
    }
  }

  /**
    The flush of a full buffer in writePage, as written: when it succeeds,
    the device holds only pages that were kept, and a kept page it no
    longer holds is one a GC queued during the flush; emptying the buffer
    drops such a page, whose flash copy the GC erased.
   */
  lemma DrainedDrops(s: Run, d: Dims, hist: seq<seq<nat>>, rule: Rule)
    requires RunOk(s, d) && |hist| == d.lps
    ensures var r := Drained(s, d, hist, rule);
      r.2 ==>
        (r.0.cached == [] && Estimable(hist, s.cached) &&
         var f := Flushed(s, d, hist, rule);
         |s.cached| <= |f.0.cached| &&
         forall x :: 0 <= x < d.lps ==>
           (Held(r.0.flash, r.0.buffer, x) ==> Kept(s, x)) &&
           (Kept(s, x) && !Held(r.0.flash, r.0.buffer, x) ==> x in f.0.cached[|s.cached|..]))
  {
    if Estimable(hist, s.cached) {
      FlushedKeeps(s, d, hist, rule);
    }
  }

  /**
    The buffering half of writePage: a write that succeeds leaves only pages
    that were kept before or the written page; one that does not flush keeps
    all of them.
   */
  lemma BufferedKeeps(s: Run, d: Dims, hist: seq<seq<nat>>, rule: Rule, lp: nat, t: nat)
    requires RunOk(s, d) && |hist| == d.lps && lp < d.lps
    ensures var r := Buffered(s, d, hist, rule, lp, t);
      r.2 ==> forall x :: 0 <= x < d.lps ==> (Kept(r.0, x) ==> Kept(s, x) || x == lp)
    ensures var r := Buffered(s, d, hist, rule, lp, t);
      r.2 && r.0.cached != [] ==> forall x :: 0 <= x < d.lps ==> (Kept(s, x) || x == lp ==> Kept(r.0, x))
  {
    var h := hist[lp := Recorded(hist[lp], t)];
    var s1 := s.(cached := s.cached + [lp]);
    assert forall x :: 0 <= x < d.lps ==> (Kept(s1, x) <==> Kept(s, x) || x == lp);
    if |s1.cached| >= d.ppz {
      DrainedDrops(s1, d, h, rule);
      assert Buffered(s, d, hist, rule, lp, t) == Drained(s1, d, h, rule);
    } else {
      assert Buffered(s, d, hist, rule, lp, t) == (s1, h, true);
    }
  }

  /**
    DTE::writePage on a state: a write that succeeds leaves only pages that
    were kept before or the written page; one that does not flush keeps all
    of them.
   */
  lemma WrittenKeeps(s: Run, d: Dims, hist: seq<seq<nat>>, rule: Rule, lp: nat, t: nat)
    requires RunOk(s, d) && |hist| == d.lps && lp < d.lps
    ensures var r := Written(s, d, hist, rule, lp, t);
      r.2 ==> forall x :: 0 <= x < d.lps ==> (Kept(r.0, x) ==> Kept(s, x) || x == lp)
    ensures var r := Written(s, d, hist, rule, lp, t);
      r.2 && r.0.cached != [] ==> forall x :: 0 <= x < d.lps ==> (Kept(s, x) || x == lp ==> Kept(r.0, x))
  {
    if s.flash.blocks[s.current].CanWrite() {
      BufferedKeeps(s, d, hist, rule, lp, t);
      assert Written(s, d, hist, rule, lp, t) == Buffered(s, d, hist, rule, lp, t);
    } else {
      var a := Advance(s, d, rule);
      AdvanceKeeps(s, d, rule);
      if a.1 {
        BufferedKeeps(a.0, d, hist, rule, lp, t);
        assert Written(s, d, hist, rule, lp, t) == Buffered(a.0, d, hist, rule, lp, t);
      } else {
        assert !Written(s, d, hist, rule, lp, t).2;
      }
    }
  }
}
