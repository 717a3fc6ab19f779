/**
  The SSD simulator's device object.  Its state is the flash (the block
  array, the logical-to-physical map, the physical write counter and the
  erase-age counter, held together as one Flash value), the LRU host write
  buffer, and the wear-leveling pools.  Every method updates that state in
  place, with the source's loops, and is proved to leave exactly the state
  that the matching function of Ftl, Reclaim or Wear describes; the
  properties of those functions are proved there.
 */
module Ssd {
  import opened Blocks
  import opened Mapping
  import opened Ftl
  import opened Reclaim
  import opened Wear
  import Lru

  /** The write buffer lists distinct logical pages and stays below its capacity (empty without a buffer). */
  ghost predicate BufferOk(buffer: seq<nat>, logicalPages: nat, cap: nat) {
    Lru.NoDup(buffer) && (forall i :: 0 <= i < |buffer| ==> buffer[i] < logicalPages) &&
    (cap == 0 ==> buffer == []) && (cap > 0 ==> |buffer| < cap)
  }

  /** The flash of a new device: every block fresh, no page mapped, both counters at zero. */
  function Fresh(zones: nat, ppz: nat, logicalPages: nat): (f: Flash)
    requires ppz > 0
    ensures Ok(f, ppz) && |f.blocks| == zones && |f.ltp| == logicalPages
    ensures forall z :: 0 <= z < zones ==> f.blocks[z].IsErased() && f.blocks[z].AllInvalid()
    ensures forall lp :: 0 <= lp < logicalPages ==> f.ltp[lp] == Unused
  {
    InitialConsistent(zones, ppz, logicalPages);
    Flash(seq(zones, _ => NewBlock(ppz)), seq(logicalPages, _ => Unused), 0, 0)
  }

  /** The outcome of a host write: the new flash and buffer, and false when the flash write met a full block. */
  datatype HostWrite = HostWrite(flash: Flash, buffer: seq<nat>, ok: bool)

  /** The page a host write of lp sends to flash, if any: lp itself when there is no buffer. */
  function Outgoing(buffer: seq<nat>, lp: nat, cap: nat): (r: Lru.Touched)
    ensures cap == 0 ==> r == Lru.Touched(buffer, Lru.Some(lp))
    ensures cap > 0 ==> r == Lru.Touch(buffer, lp, cap)
  {
    if cap == 0 then Lru.Touched(buffer, Lru.Some(lp)) else Lru.Touch(buffer, lp, cap)
  }

  /** A write of a mapped-range page keeps the buffer well formed and evicts only pages in range. */
  lemma OutgoingOk(buffer: seq<nat>, lp: nat, cap: nat, logicalPages: nat)
    requires BufferOk(buffer, logicalPages, cap) && lp < logicalPages
    ensures var t := Outgoing(buffer, lp, cap);
      BufferOk(t.buffer, logicalPages, cap) && (t.evicted != Lru.None ==> t.evicted.value < logicalPages)
  {
    var t := Outgoing(buffer, lp, cap);
    if cap > 0 {
      forall i | 0 <= i < |t.buffer| ensures t.buffer[i] < logicalPages {
        assert t.buffer[i] in t.buffer;
      }
      if t.evicted != Lru.None {
        assert t.evicted.value in buffer || t.evicted.value == lp;
      }
    }
  }

  /**
    SSD::writePage with the LRU buffer: the write goes through the buffer,
    and the page it pushes out is written to block d.  A write to a full
    block is where the source's block check fails.
   */
  function Cached(f: Flash, buffer: seq<nat>, cap: nat, ppz: nat, lp: nat, d: nat, g: int): (r: HostWrite)
    requires Ok(f, ppz) && lp < |f.ltp| && d < |f.blocks| && BufferOk(buffer, |f.ltp|, cap)
    ensures Ok(r.flash, ppz) && |r.flash.blocks| == |f.blocks| && |r.flash.ltp| == |f.ltp|
    ensures BufferOk(r.buffer, |f.ltp|, cap)
  {
    var t := Outgoing(buffer, lp, cap);
    OutgoingOk(buffer, lp, cap, |f.ltp|);
    if t.evicted == Lru.None then HostWrite(f, t.buffer, true)
    else if !f.blocks[d].CanWrite() then HostWrite(f, t.buffer, false)
    else
      HostWrite(Relocate(f, ppz, t.evicted.value, d, g), t.buffer, true)
  }

  /**
    What a host write does: a hit never reaches flash and moves lp to the
    front; otherwise the evicted page (lp itself without a buffer) costs one
    physical write and is mapped to d's old write position, unless d is
    full, which is the failure.
   */
  lemma CachedEffects(f: Flash, buffer: seq<nat>, cap: nat, ppz: nat, lp: nat, d: nat, g: int)
    requires Ok(f, ppz) && lp < |f.ltp| && d < |f.blocks| && BufferOk(buffer, |f.ltp|, cap)
    ensures var r := Cached(f, buffer, cap, ppz, lp, d, g);
      var out := Outgoing(buffer, lp, cap).evicted;
      (cap > 0 && lp in buffer ==> r.flash == f && r.ok && r.buffer[0] == lp) &&
      (r.ok <==> out == Lru.None || f.blocks[d].CanWrite()) &&
      (out == Lru.None || !r.ok ==> r.flash == f) &&
      (out != Lru.None && r.ok ==>
        out.value < |f.ltp| && r.flash.writes == f.writes + 1 &&
        r.flash.ltp[out.value] == GetAddr(d, f.blocks[d].writePos, ppz))
  {
    var t := Outgoing(buffer, lp, cap);
    OutgoingOk(buffer, lp, cap, |f.ltp|);
    if t.evicted != Lru.None && f.blocks[d].CanWrite() {
      AfterWriteEffects(f.blocks, f.ltp, ppz, t.evicted.value, d, g);
    }
  }

  /** A host write towards d takes no room in any other block. */
  lemma CachedKeepsRoom(f: Flash, buffer: seq<nat>, cap: nat, ppz: nat, lp: nat, d: nat, g: int)
    requires Ok(f, ppz) && lp < |f.ltp| && d < |f.blocks| && BufferOk(buffer, |f.ltp|, cap)
    ensures var r := Cached(f, buffer, cap, ppz, lp, d, g);
      forall z :: 0 <= z < |f.blocks| && z != d ==> (r.flash.blocks[z].CanWrite() <==> f.blocks[z].CanWrite())
  {
    var r := Cached(f, buffer, cap, ppz, lp, d, g);
    var t := Outgoing(buffer, lp, cap);
    OutgoingOk(buffer, lp, cap, |f.ltp|);
    OkShape(f, ppz);
    OkShape(r.flash, ppz);
    if t.evicted != Lru.None && f.blocks[d].CanWrite() {
      AfterWriteEffects(f.blocks, f.ltp, ppz, t.evicted.value, d, g);
    }
  }

  /** Page x is held by the device: waiting in the write buffer, or mapped to a flash slot. */
  ghost predicate Held(f: Flash, buffer: seq<nat>, x: nat)
    requires x < |f.ltp|
  {
    x in buffer || f.ltp[x] != Unused
  }

  /**
    A host write that succeeds loses no page: afterwards the device holds
    exactly the pages it held before, plus the page written.
   */
  lemma CachedKeepsPages(f: Flash, buffer: seq<nat>, cap: nat, ppz: nat, lp: nat, d: nat, g: int)
    requires Ok(f, ppz) && lp < |f.ltp| && d < |f.blocks| && BufferOk(buffer, |f.ltp|, cap)
    ensures var r := Cached(f, buffer, cap, ppz, lp, d, g);
      r.ok ==> forall x :: 0 <= x < |f.ltp| ==> (Held(r.flash, r.buffer, x) <==> Held(f, buffer, x) || x == lp)
  {
    var r := Cached(f, buffer, cap, ppz, lp, d, g);
    var t := Outgoing(buffer, lp, cap);
    OutgoingOk(buffer, lp, cap, |f.ltp|);
    assert forall x :: (x in t.buffer || t.evicted == Lru.Some(x)) <==> (x in buffer || x == lp);
    if r.ok {
      assert r.buffer == t.buffer;
      if t.evicted == Lru.None {
        assert r.flash == f;
        KeepsHeld(f.ltp, f.ltp, buffer, t.buffer, t.evicted, lp);
      } else {
        assert r.flash == Relocate(f, ppz, t.evicted.value, d, g);
        RelocateMaps(f, ppz, t.evicted.value, d, g);
        EvictedKeepsPages(f, r.flash, buffer, t, lp, GetAddr(d, f.blocks[d].writePos, ppz));
      }
    }
  }

  /** A write that pushes a page out to a real address holds the pages buffered before plus lp. */
  lemma EvictedKeepsPages(f: Flash, h: Flash, buffer: seq<nat>, t: Lru.Touched, lp: nat, a: nat)
    requires t.evicted != Lru.None && t.evicted.value < |f.ltp| && h.ltp == f.ltp[t.evicted.value := a]
    requires forall x :: (x in t.buffer || t.evicted == Lru.Some(x)) <==> (x in buffer || x == lp)
    ensures forall x :: 0 <= x < |f.ltp| ==> (Held(h, t.buffer, x) <==> Held(f, buffer, x) || x == lp)
  {
    KeepsHeld(f.ltp, h.ltp, buffer, t.buffer, t.evicted, lp);
  }

  /** Relocating lp to d maps lp to d's write position, a real address, and changes no other mapping. */
  lemma RelocateMaps(f: Flash, ppz: nat, lp: nat, d: nat, g: int)
    requires Ok(f, ppz) && lp < |f.ltp| && d < |f.blocks| && f.blocks[d].CanWrite()
    ensures Relocate(f, ppz, lp, d, g).ltp == f.ltp[lp := GetAddr(d, f.blocks[d].writePos, ppz)]
  {
    AfterWriteEffects(f.blocks, f.ltp, ppz, lp, d, g);
  }

  /** The bookkeeping of a host write: the evicted page gets a slot, and no other mapping changes. */
  lemma KeepsHeld(l0: seq<int>, l1: seq<int>, b0: seq<nat>, b1: seq<nat>, e: Lru.Option<nat>, lp: nat)
    requires |l1| == |l0|
    requires forall x :: (x in b1 || e == Lru.Some(x)) <==> (x in b0 || x == lp)
    requires forall x :: 0 <= x < |l0| && e != Lru.Some(x) ==> l1[x] == l0[x]
    requires e != Lru.None && e.value < |l0| ==> l1[e.value] != Unused
    ensures forall x :: 0 <= x < |l0| ==> ((x in b1 || l1[x] != Unused) <==> (x in b0 || l0[x] != Unused || x == lp))
  {
  }

  /**
    A host write to a block with room, after moves that kept the same pages
    mapped, succeeds and holds the pages held before the moves plus lp.
   */
  lemma WriteAfterMovesKeepsPages(f0: Flash, f: Flash, buffer: seq<nat>, cap: nat, ppz: nat, lp: nat, d: nat, g: int)
    requires SameMapped(f0, f) && Ok(f, ppz) && lp < |f.ltp| && d < |f.blocks| && BufferOk(buffer, |f.ltp|, cap)
    requires f.blocks[d].CanWrite()
    ensures var h := Cached(f, buffer, cap, ppz, lp, d, g);
      h.ok && forall x :: 0 <= x < |f0.ltp| ==> (Held(h.flash, h.buffer, x) <==> Held(f0, buffer, x) || x == lp)
  {
    var h := Cached(f, buffer, cap, ppz, lp, d, g);
    CachedKeepsPages(f, buffer, cap, ppz, lp, d, g);
    CachedEffects(f, buffer, cap, ppz, lp, d, g);
    HeldAcross(f0, f, h.flash, buffer, h.buffer, lp);
  }

  /** The outcome of a host write with wear leveling: the new flash, buffer and pools, and false where the source stops. */
  datatype WlWrite = WlWrite(flash: Flash, buffer: seq<nat>, wl: WlState, ok: bool)

  /**
    SSD::writePageWL: with wear leveling off the write goes through the
    buffer towards block 0; otherwise the LUN's counter is stepped (Tick)
    and the write goes through the buffer towards the LUN's current block
    (WriteCurrent).
   */
  function WriteWL(f: Flash, buffer: seq<nat>, w: WlState, cap: nat, ppz: nat, lp: nat, g: int): (r: WlWrite)
    requires Ok(f, ppz) && WlOk(w, |f.blocks|) && lp < |f.ltp| && BufferOk(buffer, |f.ltp|, cap)
    requires !w.enabled ==> |f.blocks| > 0
    ensures DeviceOk(r.flash, r.buffer, r.wl, ppz, |f.blocks|, |f.ltp|, cap)
    ensures r.wl.enabled == w.enabled && r.wl.lunCnt == w.lunCnt && r.wl.threshold == w.threshold
  {
    if !w.enabled then
      var h := Cached(f, buffer, cap, ppz, lp, 0, g);
      WlWrite(h.flash, h.buffer, w, h.ok)
    else
      var a := Tick(f, w, ppz, LunOf(lp, w.lunCnt));
      if !a.ok then WlWrite(a.flash, buffer, a.wl, false)
      else WriteCurrent(a.flash, buffer, a.wl, cap, ppz, lp, g)
  }

  /**
    The first half of writePageWL: the LUN's write counter goes up by one,
    and the LUN rotates once the counter reaches the threshold.  Without a
    rotation the flash is untouched; after one the counter is back at zero.
   */
  function Tick(f: Flash, w: WlState, ppz: nat, lun: nat): (r: Rotation)
    requires Ok(f, ppz) && WlOk(w, |f.blocks|) && lun < w.lunCnt
    ensures Ok(r.flash, ppz) && |r.flash.blocks| == |f.blocks| && SameMapped(f, r.flash)
    ensures WlOk(r.wl, |f.blocks|) && r.wl.enabled == w.enabled && r.wl.lunCnt == w.lunCnt && r.wl.threshold == w.threshold
    ensures w.counter[lun] + 1 < w.threshold ==> r == Rotation(f, w.(counter := w.counter[lun := w.counter[lun] + 1]), true)
    ensures w.counter[lun] + 1 >= w.threshold && r.ok ==> r.wl.counter[lun] == 0
  {
    var w1 := w.(counter := w.counter[lun := w.counter[lun] + 1]);
    if w1.counter[lun] >= w1.threshold then Rotate(f, w1, ppz, lun) else Rotation(f, w1, true)
  }

  /** Tick is the counting step followed, at the threshold, by a rotation. */
  lemma TickSteps(f: Flash, w: WlState, ppz: nat, lun: nat)
    requires Ok(f, ppz) && WlOk(w, |f.blocks|) && lun < w.lunCnt
    ensures var w1 := w.(counter := w.counter[lun := w.counter[lun] + 1]);
      WlOk(w1, |f.blocks|) &&
      Tick(f, w, ppz, lun) == if w1.counter[lun] >= w1.threshold then Rotate(f, w1, ppz, lun) else Rotation(f, w1, true)
  {
  }

  /** The second half of writePageWL: look up the LUN's current block and write through the buffer towards it. */
  function WriteCurrent(f: Flash, buffer: seq<nat>, w: WlState, cap: nat, ppz: nat, lp: nat, g: int): (r: WlWrite)
    requires Ok(f, ppz) && WlOk(w, |f.blocks|) && lp < |f.ltp| && BufferOk(buffer, |f.ltp|, cap)
    ensures DeviceOk(r.flash, r.buffer, r.wl, ppz, |f.blocks|, |f.ltp|, cap)
    ensures r.wl.enabled == w.enabled && r.wl.lunCnt == w.lunCnt && r.wl.threshold == w.threshold
    ensures r.ok ==> r.wl == w || r.wl.counter[LunOf(lp, w.lunCnt)] == 0
    ensures var c := w.current[LunOf(lp, w.lunCnt)]; c != -1 && f.blocks[c].CanWrite() ==> r.wl == w
  {
    var t := CurrentFor(f, w, ppz, lp);
    CurrentForEffects(f, w, ppz, lp);
    if t.block == -1 then WlWrite(t.flash, buffer, t.wl, false)
    else
      var h := Cached(t.flash, buffer, cap, ppz, lp, t.block, g);
      WlWrite(h.flash, h.buffer, t.wl, h.ok)
  }

  /** Moving pages between blocks keeps every page held; a successful host write then adds lp. */
  lemma HeldAcross(f: Flash, m: Flash, h: Flash, b0: seq<nat>, b1: seq<nat>, lp: nat)
    requires SameMapped(f, m) && |h.ltp| == |m.ltp|
    requires forall x :: 0 <= x < |m.ltp| ==> (Held(h, b1, x) <==> Held(m, b0, x) || x == lp)
    ensures forall x :: 0 <= x < |f.ltp| ==> (Held(h, b1, x) <==> Held(f, b0, x) || x == lp)
  {
  }

  /** WriteCurrent loses no page: a successful write holds the old pages plus lp. */
  lemma WriteCurrentKeepsPages(f: Flash, buffer: seq<nat>, w: WlState, cap: nat, ppz: nat, lp: nat, g: int)
    requires Ok(f, ppz) && WlOk(w, |f.blocks|) && lp < |f.ltp| && BufferOk(buffer, |f.ltp|, cap)
    ensures var r := WriteCurrent(f, buffer, w, cap, ppz, lp, g);
      r.ok ==> forall x :: 0 <= x < |f.ltp| ==> (Held(r.flash, r.buffer, x) <==> Held(f, buffer, x) || x == lp)
  {
    var t := CurrentFor(f, w, ppz, lp);
    if t.block != -1 {
      var h := Cached(t.flash, buffer, cap, ppz, lp, t.block, g);
      CachedKeepsPages(t.flash, buffer, cap, ppz, lp, t.block, g);
      if h.ok {
        HeldAcross(f, t.flash, h.flash, buffer, h.buffer, lp);
      }
    }
  }

  /** Wear leveling moves pages but loses none: a successful write holds the old pages plus the page written. */
  lemma WriteWLKeepsPages(f: Flash, buffer: seq<nat>, w: WlState, cap: nat, ppz: nat, lp: nat, g: int)
    requires Ok(f, ppz) && WlOk(w, |f.blocks|) && lp < |f.ltp| && BufferOk(buffer, |f.ltp|, cap)
    requires !w.enabled ==> |f.blocks| > 0
    ensures var r := WriteWL(f, buffer, w, cap, ppz, lp, g);
      r.ok ==> forall x :: 0 <= x < |f.ltp| ==> (Held(r.flash, r.buffer, x) <==> Held(f, buffer, x) || x == lp)
  {
    if !w.enabled {
      CachedKeepsPages(f, buffer, cap, ppz, lp, 0, g);
    } else {
      var a := Tick(f, w, ppz, LunOf(lp, w.lunCnt));
      if a.ok {
        var r := WriteCurrent(a.flash, buffer, a.wl, cap, ppz, lp, g);
        WriteCurrentKeepsPages(a.flash, buffer, a.wl, cap, ppz, lp, g);
        if r.ok {
          HeldAcross(f, a.flash, r.flash, buffer, r.buffer, lp);
        }
      }
    }
  }

  /** A write that brings the LUN's counter to the threshold and succeeds leaves the counter at zero: the LUN rotated. */
  lemma WriteWLResetsCounter(f: Flash, buffer: seq<nat>, w: WlState, cap: nat, ppz: nat, lp: nat, g: int)
    requires Ok(f, ppz) && WlOk(w, |f.blocks|) && lp < |f.ltp| && BufferOk(buffer, |f.ltp|, cap)
    requires w.enabled && w.counter[LunOf(lp, w.lunCnt)] + 1 >= w.threshold
    ensures var r := WriteWL(f, buffer, w, cap, ppz, lp, g);
      r.ok ==> r.wl.counter[LunOf(lp, w.lunCnt)] == 0
  {
    var a := Tick(f, w, ppz, LunOf(lp, w.lunCnt));
    assert a.ok ==> WriteWL(f, buffer, w, cap, ppz, lp, g) == WriteCurrent(a.flash, buffer, a.wl, cap, ppz, lp, g);
  }

  /**
    A write below the threshold whose LUN has a writable current block
    changes the wear-leveling state only by counting the write.
   */
  lemma WriteWLCountsUp(f: Flash, buffer: seq<nat>, w: WlState, cap: nat, ppz: nat, lp: nat, g: int)
    requires Ok(f, ppz) && WlOk(w, |f.blocks|) && lp < |f.ltp| && BufferOk(buffer, |f.ltp|, cap)
    requires w.enabled && w.counter[LunOf(lp, w.lunCnt)] + 1 < w.threshold
    requires w.current[LunOf(lp, w.lunCnt)] != -1 && f.blocks[w.current[LunOf(lp, w.lunCnt)]].CanWrite()
    ensures WriteWL(f, buffer, w, cap, ppz, lp, g).wl == w.(counter := w.counter[LunOf(lp, w.lunCnt) := w.counter[LunOf(lp, w.lunCnt)] + 1])
  {
    var lun := LunOf(lp, w.lunCnt);
    var w1 := w.(counter := w.counter[lun := w.counter[lun] + 1]);
    assert Tick(f, w, ppz, lun) == Rotation(f, w1, true);
    assert WriteWL(f, buffer, w, cap, ppz, lp, g) == WriteCurrent(f, buffer, w1, cap, ppz, lp, g);
    assert w1.current[lun] == w.current[lun];
  }

  /** The first loop of SSD::wlPopFreeBlock: pool entries leave the front until an erased block comes out. */
  method DrainPool(q0: seq<nat>, inPool0: seq<bool>, bs: seq<Block>) returns (q: seq<nat>, inPool: seq<bool>, b: int)
    requires Entries(q0, |bs|) && |inPool0| == |bs|
    ensures (q, inPool, b) == PopPool(q0, inPool0, bs)
  {
    q, inPool, b := q0, inPool0, -1;
    while q != [] && b == -1
      invariant Entries(q, |bs|) && |inPool| == |bs|
      invariant b == -1 ==> PopPool(q, inPool, bs) == PopPool(q0, inPool0, bs)
      invariant b != -1 ==> (q, inPool, b) == PopPool(q0, inPool0, bs)
      decreases |q|
    {
      var c := q[0];
      q, inPool := q[1..], inPool[c := false];
      if bs[c].IsErased() {
        b := c;
      }
    }
  }

  /** The fallback loop of SSD::wlPopFreeBlock: the LUN's blocks, lun, lun + step, ..., scanned for an erased one outside the pool. */
  method ScanLun(bs: seq<Block>, inPool: seq<bool>, lun: nat, step: nat) returns (b: int)
    requires step > 0 && |inPool| == |bs|
    ensures b == Fallback(bs, inPool, lun, step)
  {
    var i: nat := lun;
    while i < |bs|
      invariant Fallback(bs, inPool, i, step) == Fallback(bs, inPool, lun, step)
      decreases |bs| - i
    {
      if bs[i].IsErased() && !inPool[i] {
        return i;
      }
      i := i + step;
    }
    return -1;
  }

  /**
    The copy loop of SSD::wlRotate: every valid page of src, in slot order,
    is rewritten to the erased block dst (each write being
    SSD::writePageWithoutCaching's), leaving src with no valid page.
   */
  method CopyValidPages(f0: Flash, ppz: nat, src: nat, dst: nat) returns (f: Flash)
    requires Ok(f0, ppz) && src < |f0.blocks| && dst < |f0.blocks| && f0.blocks[dst].IsErased()
    ensures f == RotateCopy(f0, ppz, src, dst)
  {
    f := f0;
    for p := 0 to ppz
      invariant f == CopyPrefix(f0, ppz, src, dst, p)
    {
      CopyAdvance(f, f0, ppz, src, dst, p);
      var lp := f.blocks[src].ptl[p];
      if lp != Unused {
        f := Relocate(f, ppz, lp, dst, Unused);
      }
    }
    CopyDone(f0, ppz, src, dst);
  }

  /**
    The body of SSD::wlRotate on values: pop a free block of the LUN (the
    pool first, then the fallback scan); a LUN without a current block just
    takes it; otherwise the current block's valid pages are copied over, the
    old block is erased, its generation reset, and it goes back to the pool.
   */
  method RotateLun(f0: Flash, w0: WlState, ppz: nat, lun: nat) returns (f: Flash, w: WlState, ok: bool)
    requires Ok(f0, ppz) && WlOk(w0, |f0.blocks|) && lun < w0.lunCnt
    ensures f == Rotate(f0, w0, ppz, lun).flash && w == Rotate(f0, w0, ppz, lun).wl
    ensures ok == Rotate(f0, w0, ppz, lun).ok
  {
    var zones := |f0.blocks|;
    var cur := w0.current[lun];
    var q, inPool, b := DrainPool(w0.pools[lun], w0.inPool, f0.blocks);
    if b == -1 {
      b := ScanLun(f0.blocks, inPool, lun, w0.lunCnt);
    }
    f, w := f0, w0.(pools := w0.pools[lun := q], inPool := inPool);
    assert (w, b) == PopFree(w0, f0.blocks, lun);
    RotateUnfold(f0, w0, ppz, lun);
    if b == -1 {
      return f, w, false;
    }
    if cur == -1 {
      return f, Installed(w, zones, lun, b), true;
    }
    RotateOutUnfold(f0, w, ppz, lun, cur, b);
    f := CopyValidPages(f0, ppz, cur, b);
    f := FreeAt(f, ppz, cur);
    w := Installed(Pushed(w, cur), zones, lun, b);
    ok := true;
  }

  /** The device invariant: a consistent flash of the configured size, a well-formed buffer and pools. */
  ghost predicate DeviceOk(f: Flash, buffer: seq<nat>, w: WlState, ppz: nat, zones: nat, logicalPages: nat, cap: nat) {
    Ok(f, ppz) && |f.blocks| == zones && |f.ltp| == logicalPages &&
    BufferOk(buffer, logicalPages, cap) && WlOk(w, zones)
  }

  /** A rotation keeps the device invariant. */
  lemma RotateDeviceOk(f: Flash, buffer: seq<nat>, w: WlState, ppz: nat, zones: nat, logicalPages: nat, cap: nat, lun: nat)
    requires DeviceOk(f, buffer, w, ppz, zones, logicalPages, cap) && lun < w.lunCnt
    ensures DeviceOk(Rotate(f, w, ppz, lun).flash, buffer, Rotate(f, w, ppz, lun).wl, ppz, zones, logicalPages, cap)
  {
  }

  /**
    The remapping loop of SSD::compactBlock: the page in each of the first n
    slots of the compacted block z is pointed at that slot.
   */
  method RemapSlots(ltp0: seq<int>, s: seq<int>, z: nat, ppz: nat, n: nat) returns (ltp: seq<int>)
    requires n <= |s| && forall i :: 0 <= i < n ==> 0 <= s[i] < |ltp0|
    ensures ltp == Remapped(ltp0, s, z, ppz, n)
  {
    ltp := ltp0;
    for p := 0 to n
      invariant ltp == Remapped(ltp0, s, z, ppz, p)
    {
      ltp := ltp[s[p] := GetAddr(z, p, ppz)];
    }
  }

  /**
    SSD::compactBlock on values: the block is compacted by its own loop, its
    generation goes up by one, and then each surviving slot, in order, is
    remapped and counted as a physical write.
   */
  method CompactAndRemap(f0: Flash, ppz: nat, z: nat) returns (f: Flash)
    requires Ok(f0, ppz) && z < |f0.blocks|
    ensures f == CompactAt(f0, ppz, z)
  {
    CompactAtUnfold(f0, ppz, z);
    var b := CompactNoMappingUpdate(f0.blocks[z], f0.age);
    var nb := b.(gcGeneration := f0.blocks[z].gcGeneration + 1);
    assert nb == CompactedBlock(f0, z);
    var ltp := RemapSlots(f0.ltp, nb.ptl, z, ppz, nb.writePos);
    f := Flash(f0.blocks[z := nb], ltp, f0.writes + nb.writePos, f0.age + 1);
  }

  /**
    SSD::moveValidPagesTo(source, destination) on values: dst is marked as
    GC-written, then the slots of src are walked while dst has room and each
    valid page is rewritten to dst; kept says whether src still holds a
    valid page.
   */
  method CopyUntilFull(f0: Flash, ppz: nat, src: nat, dst: nat) returns (f: Flash, kept: bool)
    requires Ok(f0, ppz) && src < |f0.blocks| && dst < |f0.blocks|
    ensures (f, kept) == MovePages(f0, ppz, src, dst)
  {
    f := Retagged(f0, ppz, dst, f0.blocks[dst].(writtenByGc := true));
    ghost var t := f;
    var p := 0;
    while p < ppz && f.blocks[dst].CanWrite()
      invariant Ok(f, ppz) && |f.blocks| == |f0.blocks| && p <= ppz
      invariant MoveFrom(f, ppz, src, dst, p) == MoveFrom(t, ppz, src, dst, 0)
      decreases ppz - p
    {
      f := CopySlot(f, ppz, src, dst, p);
      p := p + 1;
    }
    MoveStops(f, ppz, src, dst, p);
    kept := !f.blocks[src].AllInvalid();
  }

  /** One slot of moveValidPagesTo: a valid page of src is relocated to dst, an empty slot is skipped. */
  method CopySlot(f0: Flash, ppz: nat, src: nat, dst: nat, p: nat) returns (f: Flash)
    requires Ok(f0, ppz) && src < |f0.blocks| && dst < |f0.blocks| && p < ppz && f0.blocks[dst].CanWrite()
    ensures Ok(f, ppz) && |f.blocks| == |f0.blocks|
    ensures MoveFrom(f, ppz, src, dst, p + 1) == MoveFrom(f0, ppz, src, dst, p)
  {
    OkShape(f0, ppz);
    f := f0;
    if f0.blocks[src].ptl[p] != Unused {
      MoveRelocates(f0, ppz, src, dst, p);
      f := Relocate(f0, ppz, f0.blocks[src].ptl[p], dst, Unused);
    } else {
      MoveSkips(f0, ppz, src, dst, p);
    }
  }

  /**
    The loop of SSD::moveValidPagesTo(source, destinationFun) on values:
    every valid page of src is sent where the callback says, unless that
    block is full, in which case the first such block is remembered.
   */
  method ScanPages(f0: Flash, ppz: nat, src: nat, destOf: (seq<Block>, nat) -> (int, int)) returns (s: Scan)
    requires Ok(f0, ppz) && src < |f0.blocks|
    ensures s == ScanFrom(f0, ppz, src, destOf, 0, -1)
  {
    var f := f0;
    var full := -1;
    var p := 0;
    while p < ppz
      invariant Ok(f, ppz) && |f.blocks| == |f0.blocks| && p <= ppz && FullOrNone(f, full)
      invariant ScanFrom(f, ppz, src, destOf, p, full) == ScanFrom(f0, ppz, src, destOf, 0, -1)
      decreases ppz - p
    {
      OkShape(f, ppz);
      var lp := f.blocks[src].ptl[p];
      if lp == Unused {
        ScanSkips(f, ppz, src, destOf, p, full);
      } else {
        StoredPage(f, ppz, src, p);
        var (d, g) := destOf(f.blocks, lp);
        if d < 0 || d >= |f.blocks| {
          return Scan(f, full, true);
        }
        if f.blocks[d].CanWrite() {
          ScanRelocates(f, ppz, src, destOf, p, full);
          RelocateKeepsFull(f, ppz, src, p, d, g, full);
          f := Relocate(f, ppz, lp, d, g);
        } else {
          ScanMeetsFull(f, ppz, src, destOf, p, full);
          if full == -1 {
            full := d;
          }
        }
      }
      p := p + 1;
    }
    s := Scan(f, full, false);
  }

  /** SSD::moveValidPagesTo(source, destinationFun) on values: the checks around the scan. */
  method MoveBy(f0: Flash, ppz: nat, src: nat, destOf: (seq<Block>, nat) -> (int, int)) returns (f: Flash, out: MoveOutcome)
    requires Ok(f0, ppz) && src < |f0.blocks|
    ensures (f, out) == MovePagesBy(f0, ppz, src, destOf)
  {
    if f0.blocks[src].AllValid() {
      return f0, Failed(VictimAllValid);
    }
    var s := ScanPages(f0, ppz, src, destOf);
    f := s.flash;
    if s.rejected {
      out := Failed(DestinationRejected);
    } else if f.blocks[src].AllInvalid() {
      out := Emptied;
    } else if s.firstFull == -1 {
      out := Failed(NoFullDestination);
    } else {
      out := Blocked(s.firstFull);
    }
  }

  /**
    One pass of the loop of SSD::compactUntilFreeBlock(gcBlockId,
    nextBlock) on values: the next victim's pages move into the GC block;
    an emptied victim ends the loop, otherwise the victim is compacted and
    becomes the GC block for the next pass.  The GC block reported with an
    emptied victim is -1 when that victim was the GC block itself (see
    Reclaim.Rounds).
   */
  method Round(f: Flash, ppz: nat, gc: nat, next: seq<Block> -> int, fuel: nat)
    returns (done: bool, r: Reclaimed, f': Flash, gc': nat, fuel': nat)
    requires Ok(f, ppz) && gc < |f.blocks|
    ensures done ==> r == Rounds(f, ppz, gc, next, fuel)
    ensures !done ==> Ok(f', ppz) && gc' < |f'.blocks| && fuel' < fuel &&
                      Rounds(f', ppz, gc', next, fuel') == Rounds(f, ppz, gc, next, fuel)
  {
    var v := next(f.blocks);
    if v < 0 || v >= |f.blocks| {
      return true, Aborted(NoVictim), f, gc, fuel;
    }
    var m, kept := CopyUntilFull(f, ppz, v, gc);
    if !kept {
      return true, Freed(FreeAt(m, ppz, v), v, Survivor(v, gc)), f, gc, fuel;
    }
    if fuel == 0 {
      return true, Aborted(RoundLimit), f, gc, fuel;
    }
    f' := CompactAndRemap(m, ppz, v);
    RoundsContinue(f, ppz, gc, next, fuel, m, f');
    done, r, gc', fuel' := false, Aborted(RoundLimit), v, Less(fuel);
  }

  /** The loop of SSD::compactUntilFreeBlock(gcBlockId, nextBlock) on values: passes run until one ends it. */
  method RunRounds(f0: Flash, ppz: nat, gc0: nat, next: seq<Block> -> int, fuel0: nat) returns (r: Reclaimed)
    requires Ok(f0, ppz) && gc0 < |f0.blocks|
    ensures r == Rounds(f0, ppz, gc0, next, fuel0)
  {
    var f: Flash, gc: nat, fuel: nat := f0, gc0, fuel0;
    var done := false;
    r := Aborted(RoundLimit);
    while !done
      invariant !done ==> Ok(f, ppz) && gc < |f.blocks| && Rounds(f, ppz, gc, next, fuel) == Rounds(f0, ppz, gc0, next, fuel0)
      invariant done ==> r == Rounds(f0, ppz, gc0, next, fuel0)
      decreases !done, fuel
    {
      done, r, f, gc, fuel := Round(f, ppz, gc, next, fuel);
    }
  }

  /** SSD::compactUntilFreeBlock(gcBlockId, nextBlock) on values: the GC block is prepared, then the rounds run. */
  method RunCompactUntilFree(f0: Flash, ppz: nat, gcBlock: int, next: seq<Block> -> int, fuel: nat) returns (r: Reclaimed)
    requires Ok(f0, ppz) && -1 <= gcBlock < |f0.blocks|
    ensures r == CompactUntilFree(f0, ppz, gcBlock, next, fuel)
  {
    if gcBlock == -1 || f0.blocks[gcBlock].AllValid() {
      var g := next(f0.blocks);
      if g < 0 || g >= |f0.blocks| {
        return Aborted(NoVictim);
      }
      var c := CompactAndRemap(f0, ppz, g);
      if c.blocks[g].AllValid() {
        return Aborted(GcBlockAllValid);
      }
      r := RunRounds(c, ppz, g, next, fuel);
    } else {
      r := RunRounds(f0, ppz, gcBlock, next, fuel);
    }
  }

  /**
    The loop of SSD::compactUntilFreeBlock(groupId, nextBlock,
    gcDestinationFun, updateGroupFun) on values, with the policy's state
    threaded through.
   */
  method RunGroupedRounds<S>(f0: Flash, ppz: nat, s0: S, next: seq<Block> -> int,
                             destOf: (seq<Block>, S, nat) -> (int, int),
                             update: (seq<Block>, S, int, nat) -> (S, bool), fuel0: nat) returns (r: Reclaimed, s: S)
    requires Ok(f0, ppz)
    ensures (r, s) == GroupedRounds(f0, ppz, s0, next, destOf, update, fuel0)
  {
    var f, fuel := f0, fuel0;
    s := s0;
    while true
      invariant Ok(f, ppz)
      invariant GroupedRounds(f, ppz, s, next, destOf, update, fuel) == GroupedRounds(f0, ppz, s0, next, destOf, update, fuel0)
      decreases fuel
    {
      var v := next(f.blocks);
      if v < 0 || v >= |f.blocks| {
        return Aborted(NoVictim), s;
      }
      var m, out := MoveBy(f, ppz, v, (bs: seq<Block>, lp: nat) => destOf(bs, s, lp));
      if out.Failed? {
        return Aborted(out.fault), s;
      }
      if out.Emptied? {
        return Freed(FreeAt(m, ppz, v), v, -1), s;
      }
      var d := out.full;
      if d == v {
        return Aborted(DestinationIsVictim), s;
      }
      var c := CompactAndRemap(m, ppz, v);
      var grp := m.blocks[d].group;
      var g := Retagged(c, ppz, v, c.blocks[v].(group := grp));
      if grp == -1 {
        return Aborted(UngroupedDestination), s;
      }
      var u := update(g.blocks, s, grp, v);
      var accepted;
      s, accepted := u.0, u.1;
      if !accepted {
        return Aborted(GroupUpdateRefused), s;
      }
      if fuel == 0 {
        return Aborted(RoundLimit), s;
      }
      f, fuel := g, Less(fuel);
    }
  }

  /**
    SSD::compactUntilFreeBlock(victimBlockList) on values: from the last
    block down, each block is compacted and then receives the valid pages of
    the block before it; the first block, if then empty, is erased.
   */
  method RunList(f0: Flash, ppz: nat, list: seq<nat>) returns (r: Reclaimed)
    requires Ok(f0, ppz) && forall k :: 0 <= k < |list| ==> list[k] < |f0.blocks|
    ensures r == ListReclaim(f0, ppz, list)
  {
    if |list| == 0 {
      return Aborted(EmptyVictimList);
    }
    var f := f0;
    var i: nat := |list| - 1;
    while i > 0
      invariant Ok(f, ppz) && |f.blocks| == |f0.blocks| && i < |list|
      invariant Chain(f, ppz, list, i) == Chain(f0, ppz, list, |list| - 1)
    {
      f := CompactAndRemap(f, ppz, list[i]);
      var kept;
      f, kept := CopyUntilFull(f, ppz, list[Less(i)], list[i]);
      i := Less(i);
    }
    if !f.blocks[list[0]].AllInvalid() {
      return Aborted(NotErasable);
    }
    r := Freed(EraseAt(f, ppz, list[0]), list[0], -1);
  }

  class Device {
    const ppz: nat
    const zones: nat
    const logicalPages: nat
    const writeBufferSize: nat

    var flash: Flash
    var writeBuffer: seq<nat>
    var wl: WlState

    ghost predicate Valid()
      reads this
    {
      DeviceOk(flash, writeBuffer, wl, ppz, zones, logicalPages, writeBufferSize)
    }

    /**
      SSD::SSD: every block erased, nothing mapped, an empty write buffer,
      wear leveling off, and every block offered to the free pool of its LUN.
     */
    constructor (zones: nat, ppz: nat, logicalPages: nat, writeBufferSize: nat)
      requires ppz > 0
      ensures Valid()
      ensures this.zones == zones && this.ppz == ppz && this.logicalPages == logicalPages
      ensures this.writeBufferSize == writeBufferSize
      ensures flash == Fresh(zones, ppz, logicalPages) && writeBuffer == []
      ensures wl == Initial(zones).(pools := wl.pools, inPool := wl.inPool)
      ensures forall b :: 0 <= b < zones ==> wl.inPool[b]
    {
      this.zones := zones;
      this.ppz := ppz;
      this.logicalPages := logicalPages;
      this.writeBufferSize := writeBufferSize;
      flash := Fresh(zones, ppz, logicalPages);
      writeBuffer := [];
      wl := Initial(zones);
      new;
      for b := 0 to zones
        invariant Valid() && flash == Fresh(zones, ppz, logicalPages) && writeBuffer == []
        invariant wl == Initial(zones).(pools := wl.pools, inPool := wl.inPool)
        invariant forall b' :: 0 <= b' < b ==> wl.inPool[b']
      {
        WlPushFreeBlock(b);
      }
    }

    // -------------------------------------------------------------------------
    // wear-leveling pools

    /** SSD::wlPushFreeBlock: b joins the back of its LUN's pool unless it is pooled already. */
    method WlPushFreeBlock(b: nat)
      requires Valid() && b < zones
      modifies this
      ensures Valid() && wl == Pushed(old(wl), b)
      ensures flash == old(flash) && writeBuffer == old(writeBuffer)
    {
      PushedOk(wl, zones, b);
      var lun := LunOf(b, wl.lunCnt);
      if !wl.inPool[b] {
        wl := wl.(pools := wl.pools[lun := wl.pools[lun] + [b]], inPool := wl.inPool[b := true]);
      }
    }

    /**
      SSD::wlPopFreeBlock: entries leave the front of the LUN's pool until an
      erased one comes out; failing that, the LUN's blocks are scanned for an
      erased block outside the pool.  -1 stands for the signal the source
      raises when there is none.
     */
    method WlPopFreeBlock(lun: nat) returns (b: int)
      requires Valid() && lun < wl.lunCnt
      modifies this
      ensures Valid() && (wl, b) == PopFree(old(wl), flash.blocks, lun)
      ensures flash == old(flash) && writeBuffer == old(writeBuffer)
    {
      var q, inPool;
      q, inPool, b := DrainPool(wl.pools[lun], wl.inPool, flash.blocks);
      if b == -1 {
        b := ScanLun(flash.blocks, inPool, lun, wl.lunCnt);
      }
      ghost var r := PopFree(wl, flash.blocks, lun);
      var w := wl.(pools := wl.pools[lun := q], inPool := inPool);
      assert w == r.0 && b == r.1;
      assert WlOk(w, zones);
      wl := w;
    }

    // -------------------------------------------------------------------------
    // host and GC writes

    /**
      SSD::writePageWithoutCaching: tag block d with the writer's group if it
      has none, clear lp's old slot, append lp to d and point the mapping at
      the new slot; one physical write.
     */
    method WritePageWithoutCaching(lp: nat, d: nat, g: int)
      requires Valid() && lp < logicalPages && d < zones && flash.blocks[d].CanWrite()
      modifies this
      ensures flash == Relocate(old(flash), ppz, lp, d, g)
      ensures writeBuffer == old(writeBuffer) && wl == old(wl)
      ensures Valid()
    {
      var f := Relocate(flash, ppz, lp, d, g);
      Install(f, writeBuffer, wl);
    }

    /**
      SSD::wlRotate: a LUN without a current block takes a free one;
      otherwise every valid page of the current block is copied to a free
      block, the old block is erased with its generation reset and pooled
      again, and the new block becomes current.  The counter restarts.
      ok is false where the source raises its signal (no free block).
     */
    method WlRotate(lun: nat) returns (ok: bool)
      requires Valid() && lun < wl.lunCnt
      modifies this
      ensures flash == Rotate(old(flash), old(wl), ppz, lun).flash && wl == Rotate(old(flash), old(wl), ppz, lun).wl
      ensures ok == Rotate(old(flash), old(wl), ppz, lun).ok
      ensures writeBuffer == old(writeBuffer)
      ensures Valid()
    {
      RotateDeviceOk(flash, writeBuffer, wl, ppz, zones, logicalPages, writeBufferSize, lun);
      var f, w;
      f, w, ok := RotateLun(flash, wl, ppz, lun);
      Install(f, writeBuffer, w);
    }

    /**
      SSD::writeWL's three public neighbours: writePage(lp, block, group)
      sends lp through the write buffer; the page the buffer pushes out (lp
      itself without a buffer) is written to block d.  ok is false where the
      source's block write fails its capacity check.
     */
    method WritePage(lp: nat, d: nat, g: int) returns (ok: bool)
      requires Valid() && lp < logicalPages && d < zones
      modifies this
      ensures var h := Cached(old(flash), old(writeBuffer), writeBufferSize, ppz, lp, d, g);
        flash == h.flash && writeBuffer == h.buffer && ok == h.ok
      ensures wl == old(wl) && Valid()
    {
      var t := Outgoing(writeBuffer, lp, writeBufferSize);
      OutgoingOk(writeBuffer, lp, writeBufferSize, logicalPages);
      Install(flash, t.buffer, wl);
      ok := true;
      if t.evicted != Lru.None {
        if flash.blocks[d].CanWrite() {
          WritePageWithoutCaching(t.evicted.value, d, g);
        } else {
          ok := false;
        }
      }
    }

    /**
      SSD::writePageWL: see WriteWL.  With wear leveling on, the LUN's
      counter is stepped, the LUN rotates at the threshold, and the page goes
      through the buffer towards the LUN's current block; ok is false where
      the source raises its signal (no free block) or a block write fails.
     */
    method WritePageWL(lp: nat, g: int) returns (ok: bool)
      requires Valid() && lp < logicalPages && (!wl.enabled ==> zones > 0)
      modifies this
      ensures var r := WriteWL(old(flash), old(writeBuffer), old(wl), writeBufferSize, ppz, lp, g);
        flash == r.flash && writeBuffer == r.buffer && wl == r.wl && ok == r.ok
      ensures Valid()
    {
      if !wl.enabled {
        ok := WritePage(lp, 0, g);
        return;
      }
      ok := WlTick(LunOf(lp, wl.lunCnt));
      if ok {
        ok := WriteToCurrent(lp, g);
      }
    }

    /** The first half of writePageWL: see Tick. */
    method WlTick(lun: nat) returns (ok: bool)
      requires Valid() && lun < wl.lunCnt
      modifies this
      ensures var a := Tick(old(flash), old(wl), ppz, lun); flash == a.flash && wl == a.wl && ok == a.ok
      ensures writeBuffer == old(writeBuffer) && Valid()
    {
      ghost var f0, w0 := flash, wl;
      ghost var w1 := w0.(counter := w0.counter[lun := w0.counter[lun] + 1]);
      TickSteps(f0, w0, ppz, lun);
      CountWrite(lun);
      assert flash == f0 && wl == w1;
      ok := true;
      if wl.counter[lun] >= wl.threshold {
        ok := WlRotate(lun);
      }
    }

    /** The LUN's write counter goes up by one. */
    method CountWrite(lun: nat)
      requires Valid() && lun < wl.lunCnt
      modifies this
      ensures wl == old(wl).(counter := old(wl).counter[lun := old(wl).counter[lun] + 1])
      ensures flash == old(flash) && writeBuffer == old(writeBuffer) && Valid()
    {
      wl := wl.(counter := wl.counter[lun := wl.counter[lun] + 1]);
    }

    /** The second half of writePageWL: see WriteCurrent. */
    method WriteToCurrent(lp: nat, g: int) returns (ok: bool)
      requires Valid() && lp < logicalPages
      modifies this
      ensures var r := WriteCurrent(old(flash), old(writeBuffer), old(wl), writeBufferSize, ppz, lp, g);
        flash == r.flash && writeBuffer == r.buffer && wl == r.wl && ok == r.ok
      ensures Valid()
    {
      var b := WlCurrentWriteBlockFor(lp);
      if b == -1 {
        ok := false;
      } else {
        ok := WritePage(lp, b, g);
      }
    }

    /**
      SSD::wlCurrentWriteBlockFor: rotate the LUN of lp when it has no
      current block, and again when its current block cannot take a write;
      answer the LUN's current block, or -1 where a rotation found no free
      block (the source raises its signal there).
     */
    method WlCurrentWriteBlockFor(lp: nat) returns (b: int)
      requires Valid()
      modifies this
      ensures var t := CurrentFor(old(flash), old(wl), ppz, lp);
        flash == t.flash && wl == t.wl && b == t.block
      ensures writeBuffer == old(writeBuffer) && Valid()
    {
      var lun := LunOf(lp, wl.lunCnt);
      if wl.current[lun] == -1 {
        var ok := WlRotate(lun);
        if !ok {
          return -1;
        }
      }
      ghost var f1, w1 := flash, wl;
      assert CurrentFor(old(flash), old(wl), ppz, lp) == Recheck(f1, w1, ppz, lun);
      if !flash.blocks[wl.current[lun]].CanWrite() {
        RotateUnfold(flash, wl, ppz, lun);
        var ok := WlRotate(lun);
        if !ok {
          return -1;
        }
      }
      b := wl.current[lun];
    }

    /** SSD::setWearLeveling. */
    method SetWearLeveling(enabled: bool)
      requires Valid()
      modifies this
      ensures wl == old(wl).(enabled := enabled) && flash == old(flash) && writeBuffer == old(writeBuffer)
      ensures Valid()
    {
      Install(flash, writeBuffer, wl.(enabled := enabled));
    }

    /** SSD::setWearLevelingThreshold: the threshold is never below 1. */
    method SetWearLevelingThreshold(t: nat)
      requires Valid()
      modifies this
      ensures wl == old(wl).(threshold := if t < 1 then 1 else t) && wl.threshold >= 1
      ensures flash == old(flash) && writeBuffer == old(writeBuffer) && Valid()
    {
      Install(flash, writeBuffer, wl.(threshold := if t < 1 then 1 else t));
    }

    // -------------------------------------------------------------------------
    // erase, compaction and moves

    /**
      SSD::eraseBlock(blockId), corrected: the slots of block z that still
      map a page are unmapped before the erase (the source erases them in
      place and leaves their mappings pointing at an erased block; see
      Mapping.EraseWithValidPageBreaksMapping).  With wear leveling on, z is
      offered to its LUN's pool.
     */
    method EraseBlock(z: nat)
      requires Valid() && z < zones
      modifies this
      ensures flash == Scrubbed(old(flash), ppz, z)
      ensures wl == if old(wl).enabled then Pushed(old(wl), z) else old(wl)
      ensures writeBuffer == old(writeBuffer) && Valid()
    {
      Install(Scrubbed(flash, ppz, z), writeBuffer, wl);
      if wl.enabled {
        WlPushFreeBlock(z);
      }
    }

    /**
      SSD::compactBlock: block z is compacted in place, its generation goes
      up and it is marked as written by GC, and every surviving page is
      remapped to its new slot.
     */
    method CompactBlock(z: nat)
      requires Valid() && z < zones
      modifies this
      ensures flash == CompactAt(old(flash), ppz, z)
      ensures writeBuffer == old(writeBuffer) && wl == old(wl) && Valid()
    {
      var f := CompactAndRemap(flash, ppz, z);
      Install(f, writeBuffer, wl);
    }

    /**
      SSD::moveValidPagesTo(sourceId, destinationId): marks dst as written
      by GC and moves src's valid pages into it in slot order while dst can
      take them; kept says whether src still holds a valid page.
     */
    method MoveValidPagesTo(src: nat, dst: nat) returns (kept: bool)
      requires Valid() && src < zones && dst < zones
      modifies this
      ensures (flash, kept) == MovePages(old(flash), ppz, src, dst)
      ensures writeBuffer == old(writeBuffer) && wl == old(wl) && Valid()
    {
      var f;
      f, kept := CopyUntilFull(flash, ppz, src, dst);
      Install(f, writeBuffer, wl);
    }

    /**
      SSD::moveValidPagesTo(sourceId, destinationFun): each valid page of src
      goes to the block destOf names for it, with that group; the outcome is
      Emptied, the first full destination met, or the fault the source's
      check raises for a victim all of whose pages are valid.
     */
    method MoveValidPagesBy(src: nat, destOf: (seq<Block>, nat) -> (int, int)) returns (out: MoveOutcome)
      requires Valid() && src < zones
      modifies this
      ensures (flash, out) == MovePagesBy(old(flash), ppz, src, destOf)
      ensures writeBuffer == old(writeBuffer) && wl == old(wl) && Valid()
    {
      var f;
      f, out := MoveBy(flash, ppz, src, destOf);
      Install(f, writeBuffer, wl);
    }

    // -------------------------------------------------------------------------
    // the three compactUntilFreeBlock variants

    /** SSD::compactUntilFreeBlock(gcBlockId, nextBlock): see Reclaim.CompactUntilFree. */
    method CompactUntilFreeBlock(gcBlock: int, next: seq<Block> -> int, fuel: nat) returns (r: Reclaimed)
      requires Valid() && -1 <= gcBlock < zones
      modifies this
      ensures r == CompactUntilFree(old(flash), ppz, gcBlock, next, fuel)
      ensures r.Freed? ==> flash == r.flash && wl == (if old(wl).enabled then Pushed(old(wl), r.free) else old(wl))
      ensures r.Aborted? ==> flash == old(flash) && wl == old(wl)
      ensures writeBuffer == old(writeBuffer) && Valid()
    {
      r := RunCompactUntilFree(flash, ppz, gcBlock, next, fuel);
      Commit(r);
    }

    /** SSD::compactUntilFreeBlock(groupId, nextBlock, gcDestinationFun, updateGroupFun): see Reclaim.GroupedRounds. */
    method CompactUntilFreeGrouped<S>(s0: S, next: seq<Block> -> int, destOf: (seq<Block>, S, nat) -> (int, int),
                                      update: (seq<Block>, S, int, nat) -> (S, bool), fuel: nat) returns (r: Reclaimed, s: S)
      requires Valid()
      modifies this
      ensures (r, s) == GroupedRounds(old(flash), ppz, s0, next, destOf, update, fuel)
      ensures r.Freed? ==> flash == r.flash && wl == (if old(wl).enabled then Pushed(old(wl), r.free) else old(wl))
      ensures r.Aborted? ==> flash == old(flash) && wl == old(wl)
      ensures writeBuffer == old(writeBuffer) && Valid()
    {
      r, s := RunGroupedRounds(flash, ppz, s0, next, destOf, update, fuel);
      Commit(r);
    }

    /** SSD::compactUntilFreeBlock(victimBlockList): see Reclaim.ListReclaim. */
    method CompactUntilFreeList(list: seq<nat>) returns (r: Reclaimed)
      requires Valid() && forall k :: 0 <= k < |list| ==> list[k] < zones
      modifies this
      ensures r == ListReclaim(old(flash), ppz, list)
      ensures r.Freed? ==> flash == r.flash && wl == (if old(wl).enabled then Pushed(old(wl), r.free) else old(wl))
      ensures r.Aborted? ==> flash == old(flash) && wl == old(wl)
      ensures writeBuffer == old(writeBuffer) && Valid()
    {
      r := RunList(flash, ppz, list);
      Commit(r);
    }

    /** Makes a reclamation's outcome the device state: its flash, and the freed block pooled when wear leveling is on. */
    method Commit(r: Reclaimed)
      requires Valid() && FreedOk(flash, r, ppz)
      modifies this
      ensures r.Freed? ==> flash == r.flash && wl == (if old(wl).enabled then Pushed(old(wl), r.free) else old(wl))
      ensures r.Aborted? ==> flash == old(flash) && wl == old(wl)
      ensures writeBuffer == old(writeBuffer) && Valid()
    {
      if r.Freed? {
        Install(r.flash, writeBuffer, wl);
        if wl.enabled {
          WlPushFreeBlock(r.free);
        }
      }
    }

    /** Replaces the whole mutable state by one that keeps the device invariant. */
    method Install(f: Flash, buffer: seq<nat>, w: WlState)
      requires DeviceOk(f, buffer, w, ppz, zones, logicalPages, writeBufferSize)
      modifies this
      ensures flash == f && writeBuffer == buffer && wl == w
      ensures Valid()
    {
      flash, writeBuffer, wl := f, buffer, w;
    }
  }
}
