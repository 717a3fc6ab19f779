/**
  The logical-to-physical mapping of the flash translation layer, on values.

  A physical address is zone * pagesPerZone + slot.  The device keeps, for
  every logical page, its physical address or Unused, and for every block
  slot the logical page stored there.  Consistent states that the two agree
  in both directions and that the blocks' valid counts add up to the number
  of mapped logical pages.  The functions below are the state changes the
  device performs on this pair, each proved to keep it consistent.
 */
module Mapping {
  import opened Blocks

  function GetZone(addr: nat, ppz: nat): nat
    requires ppz > 0
  {
    addr / ppz
  }

  function GetPage(addr: nat, ppz: nat): nat
    requires ppz > 0
  {
    addr % ppz
  }

  function GetAddr(zone: nat, pos: nat, ppz: nat): nat
  {
    zone * ppz + pos
  }

  lemma MulAtLeast(k: nat, n: nat)
    requires k >= 1
    ensures k * n >= n
  {
  }

  lemma MulGap(a: nat, b: nat, n: nat)
    requires a > b
    ensures a * n >= b * n + n
  {
    MulAtLeast(a - b, n);
    assert (a - b) * n == a * n - b * n;
  }

  /** getZone and getPage invert getAddr on every in-block position. */
  lemma AddrRoundTrip(z: nat, p: nat, ppz: nat)
    requires p < ppz
    ensures GetZone(GetAddr(z, p, ppz), ppz) == z && GetPage(GetAddr(z, p, ppz), ppz) == p
  {
    var a := z * ppz + p;
    var q, r := a / ppz, a % ppz;
    assert a == q * ppz + r;
    if q < z {
      MulGap(z, q, ppz);
    } else if q > z {
      MulGap(q, z, ppz);
    }
  }

  /** getAddr inverts the pair (getZone, getPage) on every address. */
  lemma AddrSplit(a: nat, ppz: nat)
    requires ppz > 0
    ensures GetAddr(GetZone(a, ppz), GetPage(a, ppz), ppz) == a && GetPage(a, ppz) < ppz
  {
  }

  /** Different (zone, slot) pairs have different addresses. */
  lemma AddrInjective(z1: nat, p1: nat, z2: nat, p2: nat, ppz: nat)
    requires p1 < ppz && p2 < ppz
    requires GetAddr(z1, p1, ppz) == GetAddr(z2, p2, ppz)
    ensures z1 == z2 && p1 == p2
  {
    AddrRoundTrip(z1, p1, ppz);
    AddrRoundTrip(z2, p2, ppz);
  }

  /** Sum of the blocks' valid counts. */
  function SumValid(bs: seq<Block>): nat
  {
    if bs == [] then 0 else SumValid(bs[..|bs| - 1]) + bs[|bs| - 1].validCnt
  }

  lemma {:induction false} SumValidUpdate(bs: seq<Block>, i: nat, b: Block)
    requires i < |bs|
    ensures SumValid(bs[i := b]) == SumValid(bs) - bs[i].validCnt + b.validCnt
  {
    var t := bs[i := b];
    if i == |bs| - 1 {
      assert t[..|t| - 1] == bs[..|bs| - 1];
    } else {
      assert t[..|t| - 1] == bs[..|bs| - 1][i := b];
      SumValidUpdate(bs[..|bs| - 1], i, b);
    }
  }

  /** The logical page stored at physical address a, or Unused when there is none. */
  function SlotAt(bs: seq<Block>, ppz: nat, a: int): int
    requires ppz > 0
  {
    if a >= 0 && GetZone(a, ppz) < |bs| && GetPage(a, ppz) < |bs[GetZone(a, ppz)].ptl|
    then bs[GetZone(a, ppz)].ptl[GetPage(a, ppz)]
    else Unused
  }

  ghost predicate BlocksWf(bs: seq<Block>, ppz: nat)
  {
    forall z :: 0 <= z < |bs| ==> |bs[z].ptl| == ppz && bs[z].Wf()
  }

  /** Every mapped logical page is stored at the slot its address names. */
  ghost predicate Forward(bs: seq<Block>, ltp: seq<int>, ppz: nat)
    requires ppz > 0
  {
    forall lp {:trigger SlotAt(bs, ppz, ltp[lp])} :: 0 <= lp < |ltp| && ltp[lp] != Unused ==> SlotAt(bs, ppz, ltp[lp]) == lp
  }

  /** Every used slot holds a logical page whose address is that slot. */
  ghost predicate Backward(bs: seq<Block>, ltp: seq<int>, ppz: nat)
  {
    forall z, p :: 0 <= z < |bs| && 0 <= p < |bs[z].ptl| && bs[z].ptl[p] != Unused ==>
      0 <= bs[z].ptl[p] < |ltp| && ltp[bs[z].ptl[p]] == GetAddr(z, p, ppz)
  }

  /** The device invariant on blocks and mapping. */
  ghost predicate Consistent(bs: seq<Block>, ltp: seq<int>, ppz: nat)
  {
    ppz > 0 && BlocksWf(bs, ppz) && Forward(bs, ltp, ppz) && Backward(bs, ltp, ppz) &&
    SumValid(bs) == CountUsed(ltp)
  }

  /** Unpacks Forward for one mapped logical page. */
  lemma MappedSlot(bs: seq<Block>, ltp: seq<int>, ppz: nat, lp: nat)
    requires Consistent(bs, ltp, ppz) && lp < |ltp| && ltp[lp] != Unused
    ensures ltp[lp] >= 0
    ensures GetZone(ltp[lp], ppz) < |bs| && GetPage(ltp[lp], ppz) < ppz
    ensures bs[GetZone(ltp[lp], ppz)].ptl[GetPage(ltp[lp], ppz)] == lp
  {
    assert SlotAt(bs, ppz, ltp[lp]) == lp;
  }

  /** The main invariant: a logical page is stored in at most one (block, slot) pair. */
  lemma UniqueSlot(bs: seq<Block>, ltp: seq<int>, ppz: nat, z1: nat, p1: nat, z2: nat, p2: nat)
    requires Consistent(bs, ltp, ppz)
    requires z1 < |bs| && z2 < |bs| && p1 < ppz && p2 < ppz
    requires bs[z1].ptl[p1] != Unused && bs[z1].ptl[p1] == bs[z2].ptl[p2]
    ensures z1 == z2 && p1 == p2
  {
    AddrInjective(z1, p1, z2, p2, ppz);
  }

  /** Two block sequences with equal slots, write positions and valid counts. */
  ghost predicate SameLayout(bs: seq<Block>, bs': seq<Block>)
  {
    |bs| == |bs'| &&
    forall z :: 0 <= z < |bs| ==>
      bs'[z].ptl == bs[z].ptl && bs'[z].writePos == bs[z].writePos && bs'[z].validCnt == bs[z].validCnt
  }

  lemma {:induction false} SumValidSameLayout(bs: seq<Block>, bs': seq<Block>)
    requires SameLayout(bs, bs')
    ensures SumValid(bs) == SumValid(bs')
  {
    if bs != [] {
      assert SameLayout(bs[..|bs| - 1], bs'[..|bs'| - 1]);
      SumValidSameLayout(bs[..|bs| - 1], bs'[..|bs'| - 1]);
    }
  }

  /** Tags (group, generation, age, GC flag) do not affect consistency. */
  lemma LayoutConsistent(bs: seq<Block>, bs': seq<Block>, ltp: seq<int>, ppz: nat)
    requires Consistent(bs, ltp, ppz) && SameLayout(bs, bs')
    ensures Consistent(bs', ltp, ppz)
  {
    SumValidSameLayout(bs, bs');
    forall lp | 0 <= lp < |ltp| && ltp[lp] != Unused ensures SlotAt(bs', ppz, ltp[lp]) == lp {
      MappedSlot(bs, ltp, ppz, lp);
    }
  }

  // ---------------------------------------------------------------------------
  // writePageWithoutCaching

  /** The group tag rule: a block takes the writer's group only while untagged (-1). */
  function Tagged(bs: seq<Block>, d: nat, g: int): (r: seq<Block>)
    requires d < |bs|
    ensures SameLayout(bs, r)
    ensures r[d].group == (if bs[d].group == -1 then g else bs[d].group)
    ensures forall z :: 0 <= z < |bs| && z != d ==> r[z] == bs[z]
    ensures forall z :: 0 <= z < |bs| ==> r[z].SameTags(bs[z])
  {
    if bs[d].group == -1 then bs[d := bs[d].(group := g)] else bs
  }

  /** The blocks after lp's current slot, if any, has been cleared. */
  function Invalidated(bs: seq<Block>, ltp: seq<int>, ppz: nat, lp: nat): (r: seq<Block>)
    requires Consistent(bs, ltp, ppz) && lp < |ltp|
    ensures |r| == |bs| && BlocksWf(r, ppz)
    ensures SumValid(r) == SumValid(bs) - (if ltp[lp] != Unused then 1 else 0)
    ensures forall z :: 0 <= z < |bs| ==> r[z].writePos == bs[z].writePos && r[z].group == bs[z].group
    ensures forall z :: 0 <= z < |bs| ==> r[z].SameTags(bs[z])
  {
    var a := ltp[lp];
    if a == Unused then bs
    else
      MappedSlot(bs, ltp, ppz, lp);
      var z, p := GetZone(a, ppz), GetPage(a, ppz);
      var nb := bs[z].SetUnused(p);
      SumValidUpdate(bs, z, nb);
      bs[z := nb]
  }

  /** The block sequence after writePageWithoutCaching's invalidate-then-append step (tags aside). */
  function WriteStep(bs: seq<Block>, ltp: seq<int>, ppz: nat, lp: nat, d: nat): (r: seq<Block>)
    requires Consistent(bs, ltp, ppz) && lp < |ltp| && d < |bs| && bs[d].CanWrite()
    ensures |r| == |bs| && BlocksWf(r, ppz)
    ensures r[d].ptl[bs[d].writePos] == lp && r[d].writePos == bs[d].writePos + 1
    ensures SumValid(r) == SumValid(bs) - (if ltp[lp] != Unused then 1 else 0) + 1
    ensures forall z :: 0 <= z < |bs| && z != d ==> r[z].writePos == bs[z].writePos
    ensures forall z :: 0 <= z < |bs| ==> r[z].SameTags(bs[z]) && r[z].group == bs[z].group
  {
    var bs2 := Invalidated(bs, ltp, ppz, lp);
    var nb := bs2[d].Write(lp).0;
    SumValidUpdate(bs2, d, nb);
    bs2[d := nb]
  }

  /** Unpacks BlocksWf for one block. */
  lemma WfAt(bs: seq<Block>, ppz: nat, z: nat)
    requires BlocksWf(bs, ppz) && z < |bs|
    ensures |bs[z].ptl| == ppz && bs[z].Wf()
  {
  }

  /** Replacing one block by a well-formed block of the same size keeps BlocksWf. */
  lemma BlocksWfUpdate(bs: seq<Block>, ppz: nat, z: nat, nb: Block)
    requires BlocksWf(bs, ppz) && z < |bs| && |nb.ptl| == ppz && nb.Wf()
    ensures BlocksWf(bs[z := nb], ppz)
  {
  }

  /** Which slot Invalidated changes: lp's old slot, if any, and nothing else. */
  lemma InvalidatedSlots(bs: seq<Block>, ltp: seq<int>, ppz: nat, lp: nat)
    requires Consistent(bs, ltp, ppz) && lp < |ltp|
    ensures ltp[lp] != Unused ==>
      ltp[lp] >= 0 && GetZone(ltp[lp], ppz) < |bs| && GetPage(ltp[lp], ppz) < ppz &&
      bs[GetZone(ltp[lp], ppz)].ptl[GetPage(ltp[lp], ppz)] == lp &&
      Invalidated(bs, ltp, ppz, lp)[GetZone(ltp[lp], ppz)].ptl[GetPage(ltp[lp], ppz)] == Unused
    ensures forall z' :: 0 <= z' < |bs| && (ltp[lp] == Unused || z' != GetZone(ltp[lp], ppz)) ==>
      Invalidated(bs, ltp, ppz, lp)[z'] == bs[z']
    ensures ltp[lp] != Unused ==> forall p' :: 0 <= p' < ppz && p' != GetPage(ltp[lp], ppz) ==>
      Invalidated(bs, ltp, ppz, lp)[GetZone(ltp[lp], ppz)].ptl[p'] == bs[GetZone(ltp[lp], ppz)].ptl[p']
  {
    if ltp[lp] != Unused {
      MappedSlot(bs, ltp, ppz, lp);
      WfAt(bs, ppz, GetZone(ltp[lp], ppz));
    }
  }

  /** Which slots WriteStep changes: lp's old slot (cleared) and the destination's write position. */
  lemma WriteStepSlots(bs: seq<Block>, ltp: seq<int>, ppz: nat, lp: nat, d: nat)
    requires Consistent(bs, ltp, ppz) && lp < |ltp| && d < |bs| && bs[d].CanWrite()
    ensures ltp[lp] != Unused ==>
      ltp[lp] >= 0 && GetZone(ltp[lp], ppz) < |bs| && GetPage(ltp[lp], ppz) < ppz &&
      bs[GetZone(ltp[lp], ppz)].ptl[GetPage(ltp[lp], ppz)] == lp &&
      WriteStep(bs, ltp, ppz, lp, d)[GetZone(ltp[lp], ppz)].ptl[GetPage(ltp[lp], ppz)] == Unused
    ensures forall z', p' ::
      (0 <= z' < |bs| && 0 <= p' < ppz && !(z' == d && p' == bs[d].writePos) &&
       !(ltp[lp] != Unused && z' == GetZone(ltp[lp], ppz) && p' == GetPage(ltp[lp], ppz)))
      ==> WriteStep(bs, ltp, ppz, lp, d)[z'].ptl[p'] == bs[z'].ptl[p']
    ensures forall z' :: 0 <= z' < |bs| && z' != d && (ltp[lp] == Unused || z' != GetZone(ltp[lp], ppz)) ==>
      WriteStep(bs, ltp, ppz, lp, d)[z'] == bs[z']
  {
    InvalidatedSlots(bs, ltp, ppz, lp);
    WfAt(bs, ppz, d);
    var bs2 := Invalidated(bs, ltp, ppz, lp);
    WfAt(bs2, ppz, d);
    var r := WriteStep(bs, ltp, ppz, lp, d);
    assert r == bs2[d := bs2[d].Write(lp).0];
    if ltp[lp] != Unused && GetZone(ltp[lp], ppz) == d {
      assert GetPage(ltp[lp], ppz) < bs[d].writePos;
    }
  }

  lemma WriteStepForward(bs: seq<Block>, ltp: seq<int>, ppz: nat, lp: nat, d: nat)
    requires Consistent(bs, ltp, ppz) && lp < |ltp| && d < |bs| && bs[d].CanWrite()
    ensures Forward(WriteStep(bs, ltp, ppz, lp, d), ltp[lp := GetAddr(d, bs[d].writePos, ppz)], ppz)
  {
    var bs3 := WriteStep(bs, ltp, ppz, lp, d);
    var ltp3 := ltp[lp := GetAddr(d, bs[d].writePos, ppz)];
    WriteStepSlots(bs, ltp, ppz, lp, d);
    AddrRoundTrip(d, bs[d].writePos, ppz);
    WfAt(bs, ppz, d);
    forall x | 0 <= x < |ltp3| && ltp3[x] != Unused ensures SlotAt(bs3, ppz, ltp3[x]) == x {
      if x != lp {
        MappedSlot(bs, ltp, ppz, x);
        var z, p := GetZone(ltp[x], ppz), GetPage(ltp[x], ppz);
        assert !(z == d && p == bs[d].writePos);
        assert bs3[z].ptl[p] == bs[z].ptl[p];
      }
    }
  }

  lemma WriteStepBackward(bs: seq<Block>, ltp: seq<int>, ppz: nat, lp: nat, d: nat)
    requires Consistent(bs, ltp, ppz) && lp < |ltp| && d < |bs| && bs[d].CanWrite()
    ensures Backward(WriteStep(bs, ltp, ppz, lp, d), ltp[lp := GetAddr(d, bs[d].writePos, ppz)], ppz)
  {
    var bs3 := WriteStep(bs, ltp, ppz, lp, d);
    var ltp3 := ltp[lp := GetAddr(d, bs[d].writePos, ppz)];
    var wp := bs[d].writePos;
    WriteStepSlots(bs, ltp, ppz, lp, d);
    forall z', p' | 0 <= z' < |bs3| && 0 <= p' < |bs3[z'].ptl| && bs3[z'].ptl[p'] != Unused
      ensures 0 <= bs3[z'].ptl[p'] < |ltp3| && ltp3[bs3[z'].ptl[p']] == GetAddr(z', p', ppz)
    {
      if !(z' == d && p' == wp) {
        if bs[z'].ptl[p'] == lp {
          AddrSplit(ltp[lp], ppz);
          AddrInjective(GetZone(ltp[lp], ppz), GetPage(ltp[lp], ppz), z', p', ppz);
        }
      }
    }
  }

  /** Writing lp to the writable block d after invalidating its old slot keeps consistency. */
  lemma WriteStepConsistent(bs: seq<Block>, ltp: seq<int>, ppz: nat, lp: nat, d: nat)
    requires Consistent(bs, ltp, ppz) && lp < |ltp| && d < |bs| && bs[d].CanWrite()
    ensures Consistent(WriteStep(bs, ltp, ppz, lp, d), ltp[lp := GetAddr(d, bs[d].writePos, ppz)], ppz)
  {
    WriteStepForward(bs, ltp, ppz, lp, d);
    WriteStepBackward(bs, ltp, ppz, lp, d);
    CountUsedUpdate(ltp, lp, GetAddr(d, bs[d].writePos, ppz));
  }

  /**
    SSD::writePageWithoutCaching on the state pair: tag the destination,
    invalidate lp's old slot, append lp to the destination and point the
    mapping at the new slot.
   */
  function AfterWrite(bs: seq<Block>, ltp: seq<int>, ppz: nat, lp: nat, d: nat, g: int): (r: (seq<Block>, seq<int>))
    requires Consistent(bs, ltp, ppz) && lp < |ltp| && d < |bs| && bs[d].CanWrite()
    ensures Consistent(r.0, r.1, ppz)
    ensures |r.0| == |bs| && |r.1| == |ltp|
  {
    var bs1 := Tagged(bs, d, g);
    LayoutConsistent(bs, bs1, ltp, ppz);
    WriteStepConsistent(bs1, ltp, ppz, lp, d);
    (WriteStep(bs1, ltp, ppz, lp, d), ltp[lp := GetAddr(d, bs[d].writePos, ppz)])
  }

  /**
    The four effects of writePageWithoutCaching: the old slot of lp, if any,
    is cleared; lp lands at the destination's old write position, which
    advances by one, and the mapping points there; the group is set only if
    it was -1; no other block changes; and the number of mapped pages grows
    exactly when lp was unmapped.
   */
  lemma AfterWriteEffects(bs: seq<Block>, ltp: seq<int>, ppz: nat, lp: nat, d: nat, g: int)
    requires Consistent(bs, ltp, ppz) && lp < |ltp| && d < |bs| && bs[d].CanWrite()
    ensures var (bs', ltp') := AfterWrite(bs, ltp, ppz, lp, d, g);
      var wp := bs[d].writePos;
      ltp' == ltp[lp := GetAddr(d, wp, ppz)] &&
      bs'[d].ptl[wp] == lp && bs'[d].writePos == wp + 1 &&
      bs'[d].group == (if bs[d].group == -1 then g else bs[d].group) &&
      (ltp[lp] != Unused ==>
        ltp[lp] >= 0 && GetZone(ltp[lp], ppz) < |bs| && GetPage(ltp[lp], ppz) < ppz &&
        bs[GetZone(ltp[lp], ppz)].ptl[GetPage(ltp[lp], ppz)] == lp &&
        bs'[GetZone(ltp[lp], ppz)].ptl[GetPage(ltp[lp], ppz)] == Unused) &&
      (forall z :: 0 <= z < |bs| && z != d && (ltp[lp] == Unused || z != GetZone(ltp[lp], ppz)) ==>
        bs'[z] == bs[z]) &&
      (forall z, p ::
        (0 <= z < |bs| && 0 <= p < ppz && !(z == d && p == wp) &&
         !(ltp[lp] != Unused && z == GetZone(ltp[lp], ppz) && p == GetPage(ltp[lp], ppz)))
        ==> bs'[z].ptl[p] == bs[z].ptl[p]) &&
      (forall z :: 0 <= z < |bs| && z != d ==> bs'[z].writePos == bs[z].writePos) &&
      CountUsed(ltp') == CountUsed(ltp) + (if ltp[lp] == Unused then 1 else 0)
  {
    var bs1 := Tagged(bs, d, g);
    LayoutConsistent(bs, bs1, ltp, ppz);
    WriteStepSlots(bs1, ltp, ppz, lp, d);
    CountUsedUpdate(ltp, lp, GetAddr(d, bs[d].writePos, ppz));
  }

  // ---------------------------------------------------------------------------
  // compactBlock

  ghost predicate Distinct(s: seq<int>, k: nat)
    requires k <= |s|
  {
    forall i, j :: 0 <= i < j < k ==> s[i] != s[j]
  }

  /** The mapping after the first k slots of s have been pointed at block z. */
  function Remapped(ltp: seq<int>, s: seq<int>, z: nat, ppz: nat, k: nat): (r: seq<int>)
    requires k <= |s| && forall i :: 0 <= i < k ==> 0 <= s[i] < |ltp|
    ensures |r| == |ltp|
  {
    if k == 0 then ltp else Remapped(ltp, s, z, ppz, k - 1)[s[k - 1] := GetAddr(z, k - 1, ppz)]
  }

  /** Pages outside the first k slots of s keep their mapping. */
  lemma {:induction false} RemappedOthers(ltp: seq<int>, s: seq<int>, z: nat, ppz: nat, k: nat)
    requires k <= |s| && forall i :: 0 <= i < k ==> 0 <= s[i] < |ltp|
    ensures forall x :: 0 <= x < |ltp| && x !in s[..k] ==> Remapped(ltp, s, z, ppz, k)[x] == ltp[x]
  {
    if k > 0 {
      RemappedOthers(ltp, s, z, ppz, k - 1);
      assert s[..k] == s[..k - 1] + [s[k - 1]];
    }
  }

  /** Each of the first k slots of s, if they are distinct, maps to its own new address. */
  lemma {:induction false} RemappedHits(ltp: seq<int>, s: seq<int>, z: nat, ppz: nat, k: nat)
    requires k <= |s| && forall i :: 0 <= i < k ==> 0 <= s[i] < |ltp|
    requires Distinct(s, k)
    ensures forall i :: 0 <= i < k ==> Remapped(ltp, s, z, ppz, k)[s[i]] == GetAddr(z, i, ppz)
  {
    if k > 0 {
      assert Distinct(s, k - 1);
      RemappedHits(ltp, s, z, ppz, k - 1);
    }
  }

  /** Remapping already mapped, distinct pages leaves the number of mapped pages alone. */
  lemma {:induction false} RemappedCount(ltp: seq<int>, s: seq<int>, z: nat, ppz: nat, k: nat)
    requires k <= |s| && forall i :: 0 <= i < k ==> 0 <= s[i] < |ltp|
    requires Distinct(s, k)
    requires forall i :: 0 <= i < k ==> ltp[s[i]] != Unused
    ensures CountUsed(Remapped(ltp, s, z, ppz, k)) == CountUsed(ltp)
  {
    if k > 0 {
      assert Distinct(s, k - 1);
      RemappedCount(ltp, s, z, ppz, k - 1);
      RemappedOthers(ltp, s, z, ppz, k - 1);
      var prev := Remapped(ltp, s, z, ppz, k - 1);
      assert s[k - 1] !in s[..k - 1];
      assert prev[s[k - 1]] == ltp[s[k - 1]];
      CountUsedUpdate(prev, s[k - 1], GetAddr(z, k - 1, ppz));
    }
  }

  lemma RemappedAt(ltp: seq<int>, s: seq<int>, z: nat, ppz: nat, k: nat)
    requires k <= |s| && forall i :: 0 <= i < k ==> 0 <= s[i] < |ltp|
    requires Distinct(s, k)
    requires forall i :: 0 <= i < k ==> ltp[s[i]] != Unused
    ensures forall i :: 0 <= i < k ==> Remapped(ltp, s, z, ppz, k)[s[i]] == GetAddr(z, i, ppz)
    ensures forall x :: 0 <= x < |ltp| && x !in s[..k] ==> Remapped(ltp, s, z, ppz, k)[x] == ltp[x]
    ensures CountUsed(Remapped(ltp, s, z, ppz, k)) == CountUsed(ltp)
  {
    RemappedOthers(ltp, s, z, ppz, k);
    RemappedHits(ltp, s, z, ppz, k);
    RemappedCount(ltp, s, z, ppz, k);
  }

  lemma {:induction false} SurvivorsDistinct(s: seq<int>)
    requires forall i, j :: 0 <= i < j < |s| && s[i] != Unused ==> s[i] != s[j]
    ensures Distinct(Survivors(s), |Survivors(s)|)
  {
    if s != [] {
      var init := s[..|s| - 1];
      SurvivorsDistinct(init);
      SurvivorsMembers(init);
      var last := s[|s| - 1];
      var S := Survivors(init);
      if last != Unused {
        forall i | 0 <= i < |init| ensures init[i] != last {
          assert s[i] == init[i];
        }
        assert last !in S;
        var T := S + [last];
        forall i, j | 0 <= i < j < |T| ensures T[i] != T[j] {
          if j == |S| { assert T[i] in S; }
        }
      }
    }
  }

  /** Facts about the survivors of block z that the remapping relies on. */
  lemma CompactSurvivors(bs: seq<Block>, ltp: seq<int>, ppz: nat, z: nat, nb: Block)
    requires Consistent(bs, ltp, ppz) && z < |bs|
    requires nb.Wf() && nb.ptl == Packed(bs[z].ptl) && nb.writePos == nb.validCnt == bs[z].validCnt
    ensures nb.writePos <= |nb.ptl| && nb.ptl[..nb.writePos] == Survivors(bs[z].ptl)
    ensures Distinct(nb.ptl, nb.writePos)
    ensures forall i :: 0 <= i < nb.writePos ==> 0 <= nb.ptl[i] < |ltp| && ltp[nb.ptl[i]] != Unused
    ensures forall x :: x in Survivors(bs[z].ptl) <==> x != Unused && x in bs[z].ptl
  {
    var old_ := bs[z];
    var w := nb.writePos;
    var S := Survivors(old_.ptl);
    PackedKeepsPages(old_);
    SurvivorsMembers(old_.ptl);
    forall i, j | 0 <= i < j < |old_.ptl| && old_.ptl[i] != Unused ensures old_.ptl[i] != old_.ptl[j] {
      assert GetAddr(z, i, ppz) != GetAddr(z, j, ppz) by { AddrRoundTrip(z, i, ppz); AddrRoundTrip(z, j, ppz); }
    }
    SurvivorsDistinct(old_.ptl);
    assert nb.ptl[..w] == S;
    forall i | 0 <= i < w ensures 0 <= nb.ptl[i] < |ltp| && ltp[nb.ptl[i]] != Unused {
      assert nb.ptl[i] == S[i] && S[i] in S;
      var q :| 0 <= q < |old_.ptl| && old_.ptl[q] == S[i];
    }
  }

  lemma CompactForward(bs: seq<Block>, ltp: seq<int>, ppz: nat, z: nat, nb: Block)
    requires Consistent(bs, ltp, ppz) && z < |bs|
    requires nb.Wf() && nb.ptl == Packed(bs[z].ptl) && nb.writePos == nb.validCnt == bs[z].validCnt
    requires nb.writePos <= |nb.ptl| && forall i :: 0 <= i < nb.writePos ==> 0 <= nb.ptl[i] < |ltp|
    ensures Forward(bs[z := nb], Remapped(ltp, nb.ptl, z, ppz, nb.writePos), ppz)
  {
    CompactSurvivors(bs, ltp, ppz, z, nb);
    var w := nb.writePos;
    var S := Survivors(bs[z].ptl);
    var ltp' := Remapped(ltp, nb.ptl, z, ppz, w);
    RemappedAt(ltp, nb.ptl, z, ppz, w);
    var bs' := bs[z := nb];
    WfAt(bs, ppz, z);
    PackedKeepsPages(bs[z]);
    forall x | 0 <= x < |ltp'| && ltp'[x] != Unused ensures SlotAt(bs', ppz, ltp'[x]) == x {
      if x in S {
        var i :| 0 <= i < w && nb.ptl[..w][i] == x;
        assert ltp'[x] == GetAddr(z, i, ppz) && nb.ptl[i] == x;
        SlotOfReplaced(bs, ppz, z, nb, i);
      } else {
        assert x !in nb.ptl[..w];
        assert ltp'[x] == ltp[x];
        MappedSlot(bs, ltp, ppz, x);
        WfAt(bs, ppz, GetZone(ltp[x], ppz));
        SlotOfOther(bs, ppz, z, nb, ltp[x], x);
      }
    }
  }

  /** The slot at address (z, i) after block z is replaced by nb. */
  lemma SlotOfReplaced(bs: seq<Block>, ppz: nat, z: nat, nb: Block, i: nat)
    requires z < |bs| && i < |nb.ptl| == ppz
    ensures SlotAt(bs[z := nb], ppz, GetAddr(z, i, ppz)) == nb.ptl[i]
  {
    AddrRoundTrip(z, i, ppz);
  }

  /** A page stored outside block z keeps its slot when block z is replaced. */
  lemma SlotOfOther(bs: seq<Block>, ppz: nat, z: nat, nb: Block, a: int, x: int)
    requires ppz > 0 && z < |bs| && a >= 0 && GetZone(a, ppz) < |bs|
    requires GetPage(a, ppz) < |bs[GetZone(a, ppz)].ptl| && bs[GetZone(a, ppz)].ptl[GetPage(a, ppz)] == x
    requires x !in bs[z].ptl
    ensures SlotAt(bs[z := nb], ppz, a) == x
  {
    assert x in bs[GetZone(a, ppz)].ptl;
  }

  lemma CompactBackward(bs: seq<Block>, ltp: seq<int>, ppz: nat, z: nat, nb: Block)
    requires Consistent(bs, ltp, ppz) && z < |bs|
    requires nb.Wf() && nb.ptl == Packed(bs[z].ptl) && nb.writePos == nb.validCnt == bs[z].validCnt
    requires nb.writePos <= |nb.ptl| && forall i :: 0 <= i < nb.writePos ==> 0 <= nb.ptl[i] < |ltp|
    ensures Backward(bs[z := nb], Remapped(ltp, nb.ptl, z, ppz, nb.writePos), ppz)
  {
    CompactSurvivors(bs, ltp, ppz, z, nb);
    var w := nb.writePos;
    var S := Survivors(bs[z].ptl);
    var ltp' := Remapped(ltp, nb.ptl, z, ppz, w);
    RemappedAt(ltp, nb.ptl, z, ppz, w);
    var bs' := bs[z := nb];
    forall z', p' | 0 <= z' < |bs'| && 0 <= p' < |bs'[z'].ptl| && bs'[z'].ptl[p'] != Unused
      ensures 0 <= bs'[z'].ptl[p'] < |ltp'| && ltp'[bs'[z'].ptl[p']] == GetAddr(z', p', ppz)
    {
      if z' != z {
        var x := bs[z'].ptl[p'];
        if x in S {
          var q :| 0 <= q < |bs[z].ptl| && bs[z].ptl[q] == x;
          AddrInjective(z, q, z', p', ppz);
        } else {
          assert x !in nb.ptl[..w];
        }
      } else {
        assert p' < w;
        assert nb.ptl[p'] == nb.ptl[..w][p'];
      }
    }
  }

  /**
    compactBlock on the state pair: the packed block replaces block z and
    every surviving page is remapped to its new slot.  Consistency is kept,
    and the remapping loop only touches in-range logical pages.
   */
  lemma CompactSum(bs: seq<Block>, ltp: seq<int>, ppz: nat, z: nat, nb: Block)
    requires Consistent(bs, ltp, ppz) && z < |bs|
    requires nb.Wf() && nb.ptl == Packed(bs[z].ptl) && nb.writePos == nb.validCnt == bs[z].validCnt
    requires nb.writePos <= |nb.ptl| && forall i :: 0 <= i < nb.writePos ==> 0 <= nb.ptl[i] < |ltp|
    ensures SumValid(bs[z := nb]) == CountUsed(Remapped(ltp, nb.ptl, z, ppz, nb.writePos))
  {
    CompactSurvivors(bs, ltp, ppz, z, nb);
    RemappedAt(ltp, nb.ptl, z, ppz, nb.writePos);
    SumValidUpdate(bs, z, nb);
  }

  /**
    compactBlock on the state pair: the packed block replaces block z and
    every surviving page is remapped to its new slot.  Consistency is kept,
    and the remapping loop only touches in-range logical pages.
   */
  lemma CompactConsistent(bs: seq<Block>, ltp: seq<int>, ppz: nat, z: nat, nb: Block)
    requires Consistent(bs, ltp, ppz) && z < |bs|
    requires nb.Wf() && nb.ptl == Packed(bs[z].ptl) && nb.writePos == nb.validCnt == bs[z].validCnt
    ensures nb.writePos <= |nb.ptl|
    ensures forall i :: 0 <= i < nb.writePos ==> 0 <= nb.ptl[i] < |ltp|
    ensures Consistent(bs[z := nb], Remapped(ltp, nb.ptl, z, ppz, nb.writePos), ppz)
  {
    CompactSurvivors(bs, ltp, ppz, z, nb);
    CompactForward(bs, ltp, ppz, z, nb);
    CompactBackward(bs, ltp, ppz, z, nb);
    CompactSum(bs, ltp, ppz, z, nb);
    PackedKeepsPages(bs[z]);
    WfAt(bs, ppz, z);
    BlocksWfUpdate(bs, ppz, z, nb);
  }

  // ---------------------------------------------------------------------------
  // erase

  /** Erasing a block that holds no valid page keeps consistency. */
  lemma EraseConsistent(bs: seq<Block>, ltp: seq<int>, ppz: nat, z: nat, nb: Block)
    requires Consistent(bs, ltp, ppz) && z < |bs| && bs[z].AllInvalid()
    requires nb.Wf() && |nb.ptl| == ppz && nb.AllInvalid()
    ensures Consistent(bs[z := nb], ltp, ppz)
  {
    CountUsedZero(bs[z].ptl);
    CountUsedZero(nb.ptl);
    forall lp | 0 <= lp < |ltp| && ltp[lp] != Unused ensures SlotAt(bs[z := nb], ppz, ltp[lp]) == lp {
      MappedSlot(bs, ltp, ppz, lp);
    }
    SumValidUpdate(bs, z, nb);
  }

  /**
    Erasing a block that still holds a valid page breaks consistency: the
    page's mapping then names an unused slot, and the valid counts no longer
    add up to the number of mapped pages.
   */
  lemma EraseWithValidPageBreaksMapping(bs: seq<Block>, ltp: seq<int>, ppz: nat, z: nat, p: nat, age: int)
    requires Consistent(bs, ltp, ppz) && z < |bs| && p < ppz && bs[z].ptl[p] != Unused
    ensures var bs' := bs[z := bs[z].Erase(age)];
      var lp := bs[z].ptl[p];
      0 <= lp < |ltp| && ltp[lp] != Unused && SlotAt(bs', ppz, ltp[lp]) == Unused &&
      SumValid(bs') < CountUsed(ltp) &&
      !Consistent(bs', ltp, ppz)
  {
    var lp := bs[z].ptl[p];
    AddrRoundTrip(z, p, ppz);
    CountUsedUpdate(bs[z].ptl, p, Unused);
    SumValidUpdate(bs, z, bs[z].Erase(age));
  }

  // ---------------------------------------------------------------------------
  // dropping a mapping

  lemma UnmapForward(bs: seq<Block>, ltp: seq<int>, ppz: nat, z: nat, p: nat)
    requires Consistent(bs, ltp, ppz) && z < |bs| && p < ppz && bs[z].ptl[p] != Unused
    ensures Forward(bs[z := bs[z].SetUnused(p)], ltp[bs[z].ptl[p] := Unused], ppz)
  {
    var bs' := bs[z := bs[z].SetUnused(p)];
    var ltp' := ltp[bs[z].ptl[p] := Unused];
    AddrRoundTrip(z, p, ppz);
    forall x | 0 <= x < |ltp'| && ltp'[x] != Unused ensures SlotAt(bs', ppz, ltp'[x]) == x {
      MappedSlot(bs, ltp, ppz, x);
    }
  }

  lemma UnmapBackward(bs: seq<Block>, ltp: seq<int>, ppz: nat, z: nat, p: nat)
    requires Consistent(bs, ltp, ppz) && z < |bs| && p < ppz && bs[z].ptl[p] != Unused
    ensures Backward(bs[z := bs[z].SetUnused(p)], ltp[bs[z].ptl[p] := Unused], ppz)
  {
    var lp := bs[z].ptl[p];
    var bs' := bs[z := bs[z].SetUnused(p)];
    var ltp' := ltp[lp := Unused];
    forall z', p' | 0 <= z' < |bs'| && 0 <= p' < |bs'[z'].ptl| && bs'[z'].ptl[p'] != Unused
      ensures 0 <= bs'[z'].ptl[p'] < |ltp'| && ltp'[bs'[z'].ptl[p']] == GetAddr(z', p', ppz)
    {
      if bs[z'].ptl[p'] == lp { AddrInjective(z, p, z', p', ppz); }
    }
  }

  /** Clears slot (z, p) and unmaps the logical page it held; consistency is kept. */
  function Unmapped(bs: seq<Block>, ltp: seq<int>, ppz: nat, z: nat, p: nat): (r: (seq<Block>, seq<int>))
    requires Consistent(bs, ltp, ppz) && z < |bs| && p < ppz && bs[z].ptl[p] != Unused
    ensures Consistent(r.0, r.1, ppz)
    ensures |r.0| == |bs| && |r.1| == |ltp| && r.0[z].ptl[p] == Unused
    ensures 0 <= bs[z].ptl[p] < |ltp| && r.1 == ltp[bs[z].ptl[p] := Unused]
    ensures r.0[z].writePos == bs[z].writePos && r.0[z].SameTags(bs[z]) && r.0[z].group == bs[z].group
    ensures forall q :: 0 <= q < ppz && q != p ==> r.0[z].ptl[q] == bs[z].ptl[q]
    ensures forall z' :: 0 <= z' < |bs| && z' != z ==> r.0[z'] == bs[z']
  {
    var lp := bs[z].ptl[p];
    var nb := bs[z].SetUnused(p);
    assert 0 <= lp < |ltp| && nb.ptl[p] == Unused;
    UnmapForward(bs, ltp, ppz, z, p);
    UnmapBackward(bs, ltp, ppz, z, p);
    SumValidUpdate(bs, z, nb);
    CountUsedUpdate(ltp, lp, Unused);
    (bs[z := nb], ltp[lp := Unused])
  }

  /** The state of a freshly constructed device is consistent. */
  lemma InitialConsistent(zones: nat, ppz: nat, logicalPages: nat)
    requires ppz > 0
    ensures Consistent(seq(zones, _ => NewBlock(ppz)), seq(logicalPages, _ => Unused), ppz)
  {
    var bs := seq(zones, _ => NewBlock(ppz));
    var ltp: seq<int> := seq(logicalPages, _ => Unused);
    CountUsedZero(ltp);
    SumValidZero(bs);
  }

  lemma {:induction false} SumValidZero(bs: seq<Block>)
    requires forall z :: 0 <= z < |bs| ==> bs[z].validCnt == 0
    ensures SumValid(bs) == 0
  {
    if bs != [] { SumValidZero(bs[..|bs| - 1]); }
  }
}
