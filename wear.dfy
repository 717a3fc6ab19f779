/**
  The SSD's naive wear leveling, as values: blocks are grouped into LUNs by
  id modulo the LUN count, each LUN keeps a queue of free (erased) blocks and
  a current block that host writes of its logical pages go to, and after a
  number of writes the current block is rotated: its valid pages move to a
  fresh block and it is erased and returned to the pool.
 */
module Wear {
  import opened Blocks
  import opened Mapping
  import opened Ftl
  import Lru

  /** Number of LUNs used when the device has at least that many blocks. */
  const DefaultLunCnt: nat := 64
  /** Initial rotation threshold. */
  const DefaultThreshold: nat := 1024

  /** The LUN of a block or logical page: its id modulo the LUN count (0 when there are none). */
  function LunOf(id: nat, lunCnt: nat): (l: nat)
    ensures lunCnt > 0 ==> l < lunCnt && l == id % lunCnt
    ensures lunCnt == 0 ==> l == 0
  {
    if lunCnt == 0 then 0 else id % lunCnt
  }

  /** The wear-leveling part of the device state. */
  datatype WlState = WlState(enabled: bool, lunCnt: nat, threshold: nat, pools: seq<seq<nat>>,
                             inPool: seq<bool>, current: seq<int>, counter: seq<nat>)

  /**
    The wear-leveling invariant: every pooled block sits, once, in the pool
    of its own LUN, a block's in-pool flag says exactly whether it is pooled,
    and each LUN's current block is a block or -1.
   */
  ghost predicate WlOk(w: WlState, zones: nat) {
    w.lunCnt >= 1 && w.threshold >= 1 &&
    |w.pools| == w.lunCnt && |w.current| == w.lunCnt && |w.counter| == w.lunCnt && |w.inPool| == zones &&
    (forall l, i :: 0 <= l < w.lunCnt && 0 <= i < |w.pools[l]| ==>
      w.pools[l][i] < zones && LunOf(w.pools[l][i], w.lunCnt) == l) &&
    (forall l :: 0 <= l < w.lunCnt ==> Lru.NoDup(w.pools[l])) &&
    (forall b :: 0 <= b < zones ==> (w.inPool[b] <==> b in w.pools[LunOf(b, w.lunCnt)])) &&
    (forall l :: 0 <= l < w.lunCnt ==> -1 <= w.current[l] < zones)
  }

  /** The state the constructor starts from, before any block is pooled. */
  function Initial(zones: nat): (w: WlState)
    ensures w.lunCnt == (if zones == 0 then 1 else if zones < DefaultLunCnt then zones else DefaultLunCnt)
    ensures WlOk(w, zones) && !w.enabled
    ensures forall l :: 0 <= l < w.lunCnt ==> w.pools[l] == [] && w.current[l] == -1 && w.counter[l] == 0
    ensures forall b :: 0 <= b < zones ==> !w.inPool[b]
  {
    var n := if DefaultLunCnt < zones then DefaultLunCnt else zones;
    var n := if n == 0 then 1 else n;
    WlState(false, n, DefaultThreshold, seq(n, _ => []), seq(zones, _ => false), seq(n, _ => -1), seq(n, _ => 0))
  }

  // ---------------------------------------------------------------------------
  // SSD::wlPushFreeBlock

  /** The state after block b is offered to its LUN's pool: appended at the back unless already pooled. */
  function Pushed(w: WlState, b: nat): (r: WlState)
    requires w.lunCnt >= 1 && |w.pools| == w.lunCnt && b < |w.inPool|
    ensures r == w.(pools := r.pools, inPool := r.inPool) && r.inPool == w.inPool[b := true]
    ensures !w.inPool[b] ==> r.pools == w.pools[LunOf(b, w.lunCnt) := w.pools[LunOf(b, w.lunCnt)] + [b]]
    ensures w.inPool[b] ==> r.pools == w.pools
  {
    var l := LunOf(b, w.lunCnt);
    if w.inPool[b] then w
    else w.(pools := w.pools[l := w.pools[l] + [b]], inPool := w.inPool[b := true])
  }

  /** Pushing keeps the invariant and leaves b pooled. */
  lemma PushedOk(w: WlState, zones: nat, b: nat)
    requires WlOk(w, zones) && b < zones
    ensures WlOk(Pushed(w, b), zones) && b in Pushed(w, b).pools[LunOf(b, w.lunCnt)]
  {
    var r := Pushed(w, b);
    var l := LunOf(b, w.lunCnt);
    if !w.inPool[b] {
      assert forall i :: 0 <= i < |w.pools[l]| ==> r.pools[l][i] == w.pools[l][i];
      assert r.pools[l][|w.pools[l]|] == b;
      forall b' | 0 <= b' < zones
        ensures r.inPool[b'] <==> b' in r.pools[LunOf(b', w.lunCnt)]
      {
        if LunOf(b', w.lunCnt) == l && b' != b {
          assert b' in r.pools[l] <==> b' in w.pools[l];
        }
      }
    }
  }

  // ---------------------------------------------------------------------------
  // SSD::wlPopFreeBlock

  /** Every pool entry is a block id. */
  ghost predicate Entries(q: seq<nat>, zones: nat) {
    forall i :: 0 <= i < |q| ==> q[i] < zones
  }

  /**
    The pool loop: entries leave the front of the queue, losing their
    in-pool flag, until one that is still erased comes out (-1 when the
    queue runs dry).
   */
  function PopPool(q: seq<nat>, inPool: seq<bool>, bs: seq<Block>): (r: (seq<nat>, seq<bool>, int))
    requires Entries(q, |bs|) && |inPool| == |bs|
    ensures |r.1| == |inPool| && |r.0| <= |q| && r.0 == q[|q| - |r.0|..]
    ensures forall b :: 0 <= b < |inPool| ==> (r.1[b] <==> inPool[b] && b !in q[..|q| - |r.0|])
    ensures r.2 != -1 ==> 0 <= r.2 < |bs| && bs[r.2].IsErased() && r.2 in q[..|q| - |r.0|]
    ensures r.2 == -1 ==> r.0 == [] && forall i :: 0 <= i < |q| ==> !bs[q[i]].IsErased()
    decreases |q|
  {
    if q == [] then (q, inPool, -1)
    else
      var b := q[0];
      if bs[b].IsErased() then
        assert q[..1] == [b];
        (q[1..], inPool[b := false], b)
      else
        var r := PopPool(q[1..], inPool[b := false], bs);
        assert q[1..][..|q[1..]| - |r.0|] == q[1..|q| - |r.0|];
        assert q[..|q| - |r.0|] == [b] + q[1..|q| - |r.0|];
        r
  }

  /**
    The fallback scan: the first block from b on, stepping by step, that is
    erased and not pooled (-1 when there is none).
   */
  function Fallback(bs: seq<Block>, inPool: seq<bool>, b: nat, step: nat): (r: int)
    requires step > 0 && |inPool| == |bs|
    ensures r != -1 ==> b <= r < |bs| && r % step == b % step && bs[r].IsErased() && !inPool[r]
    decreases |bs| - b
  {
    if b >= |bs| then -1
    else if bs[b].IsErased() && !inPool[b] then b
    else
      assert (b + step) % step == b % step by { ModStep(b, step); }
      Fallback(bs, inPool, b + step, step)
  }

  /** A block the scan passes over hands the answer on to the next block of the LUN. */
  lemma FallbackSkips(bs: seq<Block>, inPool: seq<bool>, b: nat, step: nat)
    requires step > 0 && |inPool| == |bs| && b < |bs| && !(bs[b].IsErased() && !inPool[b])
    ensures Fallback(bs, inPool, b, step) == Fallback(bs, inPool, b + step, step)
  {
  }

  /** Division with remainder has one answer: n == q * d + r with r < d fixes n % d. */
  lemma ModUnique(n: nat, d: nat, q: nat, r: nat)
    requires d > 0 && r < d && n == q * d + r
    ensures n % d == r
  {
    var q', r' := n / d, n % d;
    assert n == q' * d + r';
    if q' > q {
      MulGap(q', q, d);
    } else if q > q' {
      MulGap(q, q', d);
    }
  }

  /** A number below the divisor is its own remainder. */
  lemma ModBelow(n: nat, d: nat)
    requires n < d
    ensures n % d == n
  {
    ModUnique(n, d, 0, n);
  }

  /** A block of LUN lun has the remainder the fallback scan starting at lun steps through. */
  lemma SameLun(b: nat, lun: nat, lunCnt: nat)
    requires lun < lunCnt && LunOf(b, lunCnt) == lun
    ensures b % lunCnt == lun % lunCnt && lun <= b
  {
    ModBelow(lun, lunCnt);
    assert b == b / lunCnt * lunCnt + lun;
  }

  lemma ModStep(b: nat, step: nat)
    requires step > 0
    ensures (b + step) % step == b % step
  {
    var x := b / step;
    assert b == x * step + b % step;
    assert b + step == (x + 1) * step + b % step;
    ModUnique(b + step, step, x + 1, b % step);
  }

  /** Two numbers with the same remainder are a whole step apart. */
  lemma ModGap(b: nat, k: nat, step: nat)
    requires step > 0 && b < k && k % step == b % step
    ensures k >= b + step
  {
    var x, y := k / step, b / step;
    assert k == x * step + k % step && b == y * step + b % step;
    if x <= y {
      assert false;
    }
    MulGap(x, y, step);
  }

  /** The fallback scan misses no erased, unpooled block of its residue class. */
  lemma {:induction false} FallbackFinds(bs: seq<Block>, inPool: seq<bool>, b: nat, step: nat, k: nat)
    requires step > 0 && |inPool| == |bs| && b <= k < |bs| && k % step == b % step
    requires bs[k].IsErased() && !inPool[k]
    ensures Fallback(bs, inPool, b, step) != -1
    decreases |bs| - b
  {
    if !(bs[b].IsErased() && !inPool[b]) {
      assert b != k;
      ModGap(b, k, step);
      ModStep(b, step);
      FallbackFinds(bs, inPool, b + step, step, k);
    }
  }

  /**
    SSD::wlPopFreeBlock: first the LUN's pool, then the fallback scan over
    the LUN's blocks; -1 stands for the signal the source raises when no
    block is found.
   */
  function PopFree(w: WlState, bs: seq<Block>, lun: nat): (r: (WlState, int))
    requires WlOk(w, |bs|) && lun < w.lunCnt
    ensures r.0 == w.(pools := r.0.pools, inPool := r.0.inPool) && WlOk(r.0, |bs|)
    ensures r.1 != -1 ==> 0 <= r.1 < |bs| && bs[r.1].IsErased() && LunOf(r.1, w.lunCnt) == lun && !r.0.inPool[r.1]
  {
    var p := PopPool(w.pools[lun], w.inPool, bs);
    var w' := w.(pools := w.pools[lun := p.0], inPool := p.1);
    PopPoolOk(w, |bs|, lun, p);
    if p.2 != -1 then
      (w', p.2)
    else
      var b := Fallback(bs, p.1, lun, w.lunCnt);
      ModBelow(lun, w.lunCnt);
      (w', b)
  }

  /** Taking entries off the front of a pool keeps the invariant. */
  lemma PopPoolOk(w: WlState, zones: nat, lun: nat, p: (seq<nat>, seq<bool>, int))
    requires WlOk(w, zones) && lun < w.lunCnt
    requires |p.1| == zones && |p.0| <= |w.pools[lun]| && p.0 == w.pools[lun][|w.pools[lun]| - |p.0|..]
    requires forall b :: 0 <= b < zones ==> (p.1[b] <==> w.inPool[b] && b !in w.pools[lun][..|w.pools[lun]| - |p.0|])
    requires p.2 != -1 ==> p.2 in w.pools[lun][..|w.pools[lun]| - |p.0|]
    ensures WlOk(w.(pools := w.pools[lun := p.0], inPool := p.1), zones)
    ensures p.2 != -1 ==> !p.1[p.2]
  {
    var q := w.pools[lun];
    var k := |q| - |p.0|;
    var w' := w.(pools := w.pools[lun := p.0], inPool := p.1);
    assert forall i :: 0 <= i < |p.0| ==> p.0[i] == q[k + i];
    forall b | 0 <= b < zones
      ensures w'.inPool[b] <==> b in w'.pools[LunOf(b, w.lunCnt)]
    {
      if LunOf(b, w.lunCnt) == lun {
        assert q == q[..k] + p.0;
      }
    }
    assert Lru.NoDup(p.0) by {
      forall i, j | 0 <= i < j < |p.0| ensures p.0[i] != p.0[j] {
        assert p.0[i] == q[k + i] && p.0[j] == q[k + j];
      }
    }
    if p.2 != -1 {
      assert p.2 < zones by {
        var i :| 0 <= i < k && q[i] == p.2;
      }
    }
  }

  /** An erased block of the LUN is found, from the pool or by the fallback scan. */
  lemma PopFreeFinds(w: WlState, bs: seq<Block>, lun: nat, b: nat)
    requires WlOk(w, |bs|) && lun < w.lunCnt && b < |bs| && LunOf(b, w.lunCnt) == lun && bs[b].IsErased()
    ensures PopFree(w, bs, lun).1 != -1
  {
    var q := w.pools[lun];
    var p := PopPool(q, w.inPool, bs);
    if p.2 == -1 {
      // the whole queue was taken off, so b, pooled or not, has lost its flag
      assert q[..|q| - |p.0|] == q;
      assert w.inPool[b] ==> b in q;
      assert !p.1[b];
      SameLun(b, lun, w.lunCnt);
      FallbackFinds(bs, p.1, lun, w.lunCnt, b);
      assert PopFree(w, bs, lun).1 == Fallback(bs, p.1, lun, w.lunCnt);
    }
  }

  /** The pop fails exactly when the LUN has no erased block at all. */
  lemma PopFreeFails(w: WlState, bs: seq<Block>, lun: nat)
    requires WlOk(w, |bs|) && lun < w.lunCnt
    ensures PopFree(w, bs, lun).1 == -1 <==> forall b :: 0 <= b < |bs| && LunOf(b, w.lunCnt) == lun ==> !bs[b].IsErased()
  {
    forall b | 0 <= b < |bs| && LunOf(b, w.lunCnt) == lun && bs[b].IsErased()
      ensures PopFree(w, bs, lun).1 != -1
    {
      PopFreeFinds(w, bs, lun, b);
    }
  }

  // ---------------------------------------------------------------------------
  // SSD::wlRotate

  /**
    The state of the copy loop after slot p: src is empty up to p and dst
    has taken at most p pages.
   */
  ghost predicate CopyInv(f: Flash, f0: Flash, ppz: nat, src: nat, dst: nat, p: nat) {
    Ok(f, ppz) && |f.blocks| == |f0.blocks| && |f.ltp| == |f0.ltp| && src < |f.blocks| && dst < |f.blocks| &&
    p <= ppz && |f.blocks[src].ptl| == ppz && f.blocks[dst].writePos <= p &&
    (forall q :: 0 <= q < p ==> f.blocks[src].ptl[q] == Unused)
  }

  /** One turn of the copy loop: slot p of src is skipped when unused and otherwise its page is rewritten to dst. */
  function CopyStep(f: Flash, f0: Flash, ppz: nat, src: nat, dst: nat, p: nat): (r: Flash)
    requires CopyInv(f, f0, ppz, src, dst, p) && p < ppz
    ensures CopyInv(r, f0, ppz, src, dst, p + 1)
  {
    CopyAdvance(f, f0, ppz, src, dst, p);
    if f.blocks[src].ptl[p] == Unused then f
    else Relocate(f, ppz, f.blocks[src].ptl[p], dst, Unused)
  }

  /**
    A turn of the copy loop keeps its invariant: an unused slot is passed
    over, and the page in a used slot is a valid logical page for which dst
    has room.
   */
  lemma CopyAdvance(f: Flash, f0: Flash, ppz: nat, src: nat, dst: nat, p: nat)
    requires CopyInv(f, f0, ppz, src, dst, p) && p < ppz
    ensures f.blocks[src].ptl[p] == Unused ==> CopyInv(f, f0, ppz, src, dst, p + 1)
    ensures f.blocks[src].ptl[p] != Unused ==>
      0 <= f.blocks[src].ptl[p] < |f.ltp| && f.blocks[dst].CanWrite() &&
      CopyInv(Relocate(f, ppz, f.blocks[src].ptl[p], dst, Unused), f0, ppz, src, dst, p + 1)
  {
    OkShape(f, ppz);
    if f.blocks[src].ptl[p] != Unused {
      CopyRelocates(f, f0, ppz, src, dst, p);
    }
  }

  /** One relocation of the copy: the scanned prefix of src stays empty and dst has taken one more page. */
  lemma CopyRelocates(f: Flash, f0: Flash, ppz: nat, src: nat, dst: nat, p: nat)
    requires CopyInv(f, f0, ppz, src, dst, p) && p < ppz && f.blocks[src].ptl[p] != Unused
    ensures 0 <= f.blocks[src].ptl[p] < |f.ltp| && f.blocks[dst].CanWrite()
    ensures CopyInv(Relocate(f, ppz, f.blocks[src].ptl[p], dst, Unused), f0, ppz, src, dst, p + 1)
  {
    OkShape(f, ppz);
    assert src != dst;
    RelocateFrom(f, ppz, src, p, dst, Unused);
  }

  /**
    The flash after the first p turns of the copy loop.  Before each turn
    the page to copy, if any, is a valid logical page and dst has room for it.
   */
  function CopyPrefix(f0: Flash, ppz: nat, src: nat, dst: nat, p: nat): (r: Flash)
    requires Ok(f0, ppz) && src < |f0.blocks| && dst < |f0.blocks| && f0.blocks[dst].IsErased() && p <= ppz
    ensures CopyInv(r, f0, ppz, src, dst, p)
    decreases p
  {
    if p == 0 then OkShape(f0, ppz); f0
    else CopyStep(CopyPrefix(f0, ppz, src, dst, p - 1), f0, ppz, src, dst, p - 1)
  }

  /** A turn of the copy loop is a step of SSD::moveValidPagesTo's loop from src to dst. */
  lemma CopyMoves(f: Flash, f0: Flash, ppz: nat, src: nat, dst: nat, p: nat)
    requires CopyInv(f, f0, ppz, src, dst, p) && p < ppz
    ensures MoveFrom(f, ppz, src, dst, p) == MoveFrom(CopyStep(f, f0, ppz, src, dst, p), ppz, src, dst, p + 1)
  {
    OkShape(f, ppz);
    if f.blocks[src].ptl[p] == Unused {
      MoveSkips(f, ppz, src, dst, p);
    } else {
      MoveRelocates(f, ppz, src, dst, p);
    }
  }

  /** Finishing the copy from slot p on gives what the whole copy gives. */
  lemma {:induction false} CopyPrefixMoves(f0: Flash, ppz: nat, src: nat, dst: nat, p: nat)
    requires Ok(f0, ppz) && src < |f0.blocks| && dst < |f0.blocks| && f0.blocks[dst].IsErased() && p <= ppz
    ensures MoveFrom(CopyPrefix(f0, ppz, src, dst, p), ppz, src, dst, p) == MoveFrom(f0, ppz, src, dst, 0)
    decreases p
  {
    if p > 0 {
      CopyPrefixMoves(f0, ppz, src, dst, p - 1);
      CopyMoves(CopyPrefix(f0, ppz, src, dst, p - 1), f0, ppz, src, dst, p - 1);
    }
  }

  /**
    After all ppz turns the copy loop has done what moving every valid page
    of src to dst does, and src holds no valid page: an erased block always
    has room for the pages of another block.
   */
  lemma CopyDone(f0: Flash, ppz: nat, src: nat, dst: nat)
    requires Ok(f0, ppz) && src < |f0.blocks| && dst < |f0.blocks| && f0.blocks[dst].IsErased()
    ensures CopyPrefix(f0, ppz, src, dst, ppz) == MoveFrom(f0, ppz, src, dst, 0)
    ensures CopyPrefix(f0, ppz, src, dst, ppz).blocks[src].AllInvalid()
  {
    var f := CopyPrefix(f0, ppz, src, dst, ppz);
    CopyPrefixMoves(f0, ppz, src, dst, ppz);
    MoveStops(f, ppz, src, dst, ppz);
    OkShape(f, ppz);
    CountUsedZero(f.blocks[src].ptl);
  }

  /** The copy loop of a rotation: every valid page of src moves to the erased block dst. */
  function RotateCopy(f: Flash, ppz: nat, src: nat, dst: nat): (r: Flash)
    requires Ok(f, ppz) && src < |f.blocks| && dst < |f.blocks| && f.blocks[dst].IsErased()
    ensures Ok(r, ppz) && |r.blocks| == |f.blocks| && SameMapped(f, r) && r.age == f.age
    ensures r.blocks[src].AllInvalid()
  {
    CopyDone(f, ppz, src, dst);
    MoveFrom(f, ppz, src, dst, 0)
  }

  /** The result of a rotation: the new flash and wear-leveling states, and whether a free block was found. */
  datatype Rotation = Rotation(flash: Flash, wl: WlState, ok: bool)

  /**
    SSD::wlRotate(lun): a LUN without a current block just takes a free
    one; otherwise the current block's valid pages are copied to a free
    block, the old block is erased with its generation reset and pooled
    again, and the new block becomes current.  The counter restarts.
   */
  function Rotate(f: Flash, w: WlState, ppz: nat, lun: nat): (r: Rotation)
    requires Ok(f, ppz) && WlOk(w, |f.blocks|) && lun < w.lunCnt
    ensures Ok(r.flash, ppz) && |r.flash.blocks| == |f.blocks| && SameMapped(f, r.flash)
    ensures WlOk(r.wl, |f.blocks|) && r.wl.enabled == w.enabled && r.wl.lunCnt == w.lunCnt && r.wl.threshold == w.threshold
    ensures r.ok ==> 0 <= r.wl.current[lun] && r.wl.counter[lun] == 0 &&
                     r.wl.current[lun] < |f.blocks| && LunOf(r.wl.current[lun], w.lunCnt) == lun
    ensures forall l :: 0 <= l < w.lunCnt && l != lun ==> r.wl.current[l] == w.current[l] && r.wl.counter[l] == w.counter[l]
    ensures r.ok == (PopFree(w, f.blocks, lun).1 != -1)
  {
    var p := PopFree(w, f.blocks, lun);
    if p.1 == -1 then Rotation(f, p.0, false)
    else if w.current[lun] == -1 then Rotation(f, Installed(p.0, |f.blocks|, lun, p.1), true)
    else RotateOut(f, p.0, ppz, lun, w.current[lun], p.1)
  }

  /** The rotation proper: cur's valid pages go to the erased block b, cur is erased and pooled, and b becomes current. */
  function RotateOut(f: Flash, w: WlState, ppz: nat, lun: nat, cur: nat, b: nat): (r: Rotation)
    requires Ok(f, ppz) && WlOk(w, |f.blocks|) && lun < w.lunCnt
    requires cur < |f.blocks| && b < |f.blocks| && f.blocks[b].IsErased()
    ensures Ok(r.flash, ppz) && |r.flash.blocks| == |f.blocks| && SameMapped(f, r.flash)
    ensures WlOk(r.wl, |f.blocks|) && r.ok
    ensures r.wl.enabled == w.enabled && r.wl.lunCnt == w.lunCnt && r.wl.threshold == w.threshold
    ensures r.wl.current == w.current[lun := b] && r.wl.counter == w.counter[lun := 0]
  {
    var e := FreeAt(RotateCopy(f, ppz, cur, b), ppz, cur);
    PushedOk(w, |f.blocks|, cur);
    Rotation(e, Installed(Pushed(w, cur), |f.blocks|, lun, b), true)
  }

  /** The three cases of a rotation, spelled out for the device's method. */
  lemma RotateUnfold(f: Flash, w: WlState, ppz: nat, lun: nat)
    requires Ok(f, ppz) && WlOk(w, |f.blocks|) && lun < w.lunCnt
    ensures var p := PopFree(w, f.blocks, lun);
      var cur := w.current[lun];
      Rotate(f, w, ppz, lun) ==
        if p.1 == -1 then Rotation(f, p.0, false)
        else if cur == -1 then Rotation(f, Installed(p.0, |f.blocks|, lun, p.1), true)
        else RotateOut(f, p.0, ppz, lun, cur, p.1)
  {
  }

  /** The rotation proper, spelled out for the device's method. */
  lemma RotateOutUnfold(f: Flash, w: WlState, ppz: nat, lun: nat, cur: nat, b: nat)
    requires Ok(f, ppz) && WlOk(w, |f.blocks|) && lun < w.lunCnt
    requires cur < |f.blocks| && b < |f.blocks| && f.blocks[b].IsErased()
    ensures WlOk(Pushed(w, cur), |f.blocks|)
    ensures RotateOut(f, w, ppz, lun, cur, b) ==
      Rotation(FreeAt(RotateCopy(f, ppz, cur, b), ppz, cur), Installed(Pushed(w, cur), |f.blocks|, lun, b), true)
  {
    PushedOk(w, |f.blocks|, cur);
  }

  /** Block b becomes the LUN's current block, with a fresh write counter. */
  function Installed(w: WlState, zones: nat, lun: nat, b: nat): (r: WlState)
    requires WlOk(w, zones) && lun < w.lunCnt && b < zones
    ensures WlOk(r, zones) && r == w.(current := w.current[lun := b], counter := w.counter[lun := 0])
  {
    w.(current := w.current[lun := b], counter := w.counter[lun := 0])
  }

  /** A rotation fails exactly when the LUN has no erased block. */
  lemma RotateFails(f: Flash, w: WlState, ppz: nat, lun: nat)
    requires Ok(f, ppz) && WlOk(w, |f.blocks|) && lun < w.lunCnt
    ensures !Rotate(f, w, ppz, lun).ok <==>
            forall b :: 0 <= b < |f.blocks| && LunOf(b, w.lunCnt) == lun ==> !f.blocks[b].IsErased()
  {
    PopFreeFails(w, f.blocks, lun);
  }

  // ---------------------------------------------------------------------------
  // SSD::wlCurrentWriteBlockFor

  /** The states after looking up a LUN's write block, and that block (-1 when a rotation found no free block). */
  datatype Target = Target(flash: Flash, wl: WlState, block: int)

  /**
    SSD::wlCurrentWriteBlockFor(lp): the LUN of lp is rotated when it has
    no current block, and again when its current block cannot take a
    write; the answer is the LUN's current block after that.
   */
  function CurrentFor(f: Flash, w: WlState, ppz: nat, lp: nat): (r: Target)
    requires Ok(f, ppz) && WlOk(w, |f.blocks|)
    ensures Ok(r.flash, ppz) && |r.flash.blocks| == |f.blocks| && SameMapped(f, r.flash)
    ensures WlOk(r.wl, |f.blocks|) && r.wl.enabled == w.enabled && r.wl.lunCnt == w.lunCnt && r.wl.threshold == w.threshold
    ensures r.block != -1 ==> 0 <= r.block < |f.blocks| && r.block == r.wl.current[LunOf(lp, w.lunCnt)]
    ensures r.block != -1 ==> r.wl == w || r.wl.counter[LunOf(lp, w.lunCnt)] == 0
  {
    var lun := LunOf(lp, w.lunCnt);
    if w.current[lun] == -1 then
      var a := Rotate(f, w, ppz, lun);
      if !a.ok then Target(a.flash, a.wl, -1) else Recheck(a.flash, a.wl, ppz, lun)
    else Recheck(f, w, ppz, lun)
  }

  /** The second test of wlCurrentWriteBlockFor: a current block that cannot take a write is rotated out. */
  function Recheck(f: Flash, w: WlState, ppz: nat, lun: nat): (r: Target)
    requires Ok(f, ppz) && WlOk(w, |f.blocks|) && lun < w.lunCnt && w.current[lun] != -1
    ensures Ok(r.flash, ppz) && |r.flash.blocks| == |f.blocks| && SameMapped(f, r.flash)
    ensures WlOk(r.wl, |f.blocks|) && r.wl.enabled == w.enabled && r.wl.lunCnt == w.lunCnt && r.wl.threshold == w.threshold
    ensures r.block != -1 ==> 0 <= r.block < |f.blocks| && r.block == r.wl.current[lun]
    ensures r.block != -1 ==> r.wl == w || r.wl.counter[lun] == 0
    ensures f.blocks[w.current[lun]].CanWrite() ==> r == Target(f, w, w.current[lun])
    ensures r.block == -1 ==> forall b :: 0 <= b < |f.blocks| && LunOf(b, w.lunCnt) == lun ==> !r.flash.blocks[b].IsErased()
  {
    var c := w.current[lun];
    if f.blocks[c].CanWrite() then Target(f, w, c)
    else
      var a := Rotate(f, w, ppz, lun);
      RotateUnfold(f, w, ppz, lun);
      RotateFails(f, w, ppz, lun);
      Target(a.flash, a.wl, if a.ok then a.wl.current[lun] else -1)
  }

  /**
    What the lookup promises: a current block that can take a write is
    used as it is, with no state change; a LUN without a current block gets
    an erased block from a rotation that moves no page; and -1 comes back
    only when the LUN has no erased block left.
   */
  lemma CurrentForEffects(f: Flash, w: WlState, ppz: nat, lp: nat)
    requires Ok(f, ppz) && WlOk(w, |f.blocks|)
    ensures var r := CurrentFor(f, w, ppz, lp);
      var lun := LunOf(lp, w.lunCnt);
      (w.current[lun] != -1 && f.blocks[w.current[lun]].CanWrite() ==> r == Target(f, w, w.current[lun])) &&
      (w.current[lun] == -1 && r.block != -1 ==> r.flash == f && f.blocks[r.block].IsErased()) &&
      (r.block == -1 ==> forall b :: 0 <= b < |f.blocks| && LunOf(b, w.lunCnt) == lun ==> !r.flash.blocks[b].IsErased())
  {
    var lun := LunOf(lp, w.lunCnt);
    if w.current[lun] == -1 {
      RotateUnfold(f, w, ppz, lun);
      RotateFails(f, w, ppz, lun);
      var a := Rotate(f, w, ppz, lun);
      if a.ok {
        OkShape(f, ppz);
        assert a.flash == f && f.blocks[a.wl.current[lun]].IsErased();
      }
    }
  }
}
