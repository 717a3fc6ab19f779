/**
  The page-level state changes of the SSD as functions on a value: the block
  array, the logical-to-physical map, the physical write counter and the
  shared erase-age counter.  The SSD class's methods are proved to leave
  exactly these values behind; the properties of the garbage-collection
  building blocks (moving pages out of a victim, compacting, erasing) are
  proved here once.
 */
module Ftl {
  import opened Blocks
  import opened Mapping

  datatype Flash = Flash(blocks: seq<Block>, ltp: seq<int>, writes: nat, age: int)

  ghost predicate Ok(f: Flash, ppz: nat) {
    Consistent(f.blocks, f.ltp, ppz)
  }

  /** The same logical pages are mapped in f and g: no page was lost or invented. */
  ghost predicate SameMapped(f: Flash, g: Flash) {
    |g.ltp| == |f.ltp| && forall lp :: 0 <= lp < |f.ltp| ==> (g.ltp[lp] == Unused <==> f.ltp[lp] == Unused)
  }

  /** Reasons for which the source aborts (a failed `ensure`, a raised signal, an exception). */
  datatype Fault =
    | NoVictim              // a victim chooser found no block
    | VictimAllValid        // moving pages out of a block none of whose pages is stale
    | GcBlockAllValid       // the GC destination block has no room after compaction
    | NoFullDestination     // pages stayed behind but no full destination was recorded
    | DestinationRejected   // the destination callback's own check failed
    | DestinationIsVictim   // the full destination is the victim itself
    | UngroupedDestination  // the full destination carries no group
    | GroupUpdateRefused    // the group-update callback's own check failed
    | NotErasable           // a block about to be erased still holds valid pages
    | EmptyVictimList       // the explicit victim list is empty
    | NoFreeBlock           // no erased block is available
    | RoundLimit            // the reclamation loop ran out of its round budget

  // ---------------------------------------------------------------------------
  // single-page and single-block steps

  /** SSD::writePageWithoutCaching: lp moves to the next free slot of block d, in group g. */
  function Relocate(f: Flash, ppz: nat, lp: nat, d: nat, g: int): (r: Flash)
    requires Ok(f, ppz) && lp < |f.ltp| && d < |f.blocks| && f.blocks[d].CanWrite()
    ensures Ok(r, ppz) && |r.blocks| == |f.blocks| && |r.ltp| == |f.ltp|
    ensures r.writes == f.writes + 1 && r.age == f.age
  {
    var p := AfterWrite(f.blocks, f.ltp, ppz, lp, d, g);
    Flash(p.0, p.1, f.writes + 1, f.age)
  }

  /**
    Relocating the page stored at slot p of block src to block d: the slot is
    cleared, only d's write position moves, no other slot changes, and the set
    of mapped pages stays the same.
   */
  lemma RelocateFrom(f: Flash, ppz: nat, src: nat, p: nat, d: nat, g: int)
    requires Ok(f, ppz) && src < |f.blocks| && p < ppz && f.blocks[src].ptl[p] != Unused
    requires d < |f.blocks| && f.blocks[d].CanWrite()
    ensures 0 <= f.blocks[src].ptl[p] < |f.ltp|
    ensures var r := Relocate(f, ppz, f.blocks[src].ptl[p], d, g);
      SameMapped(f, r) &&
      r.blocks[src].ptl[p] == Unused &&
      (forall z :: 0 <= z < |f.blocks| && z != src && z != d ==> r.blocks[z] == f.blocks[z]) &&
      (forall q :: 0 <= q < ppz && q != p && src != d ==> r.blocks[src].ptl[q] == f.blocks[src].ptl[q]) &&
      (forall z :: 0 <= z < |f.blocks| && z != d ==> r.blocks[z].writePos == f.blocks[z].writePos) &&
      (forall z :: 0 <= z < |f.blocks| && z != d ==> (r.blocks[z].CanWrite() <==> f.blocks[z].CanWrite())) &&
      (forall z :: 0 <= z < |f.blocks| ==> |r.blocks[z].ptl| == |f.blocks[z].ptl|) &&
      r.blocks[d].writePos == f.blocks[d].writePos + 1
  {
    RelocateFromSlot(f, ppz, src, p, d, g);
    RelocateFromFrame(f, ppz, src, p, d, g);
  }

  /** The mapping half of RelocateFrom: the same pages stay mapped and the old slot is cleared. */
  lemma RelocateFromSlot(f: Flash, ppz: nat, src: nat, p: nat, d: nat, g: int)
    requires Ok(f, ppz) && src < |f.blocks| && p < ppz && f.blocks[src].ptl[p] != Unused
    requires d < |f.blocks| && f.blocks[d].CanWrite()
    ensures 0 <= f.blocks[src].ptl[p] < |f.ltp|
    ensures var r := Relocate(f, ppz, f.blocks[src].ptl[p], d, g);
      SameMapped(f, r) && r.blocks[src].ptl[p] == Unused
  {
    var lp := f.blocks[src].ptl[p];
    AddrRoundTrip(src, p, ppz);
    AfterWriteEffects(f.blocks, f.ltp, ppz, lp, d, g);
    OkShape(f, ppz);
  }

  /** The frame half of RelocateFrom: only d's write position moves and no other slot changes. */
  lemma RelocateFromFrame(f: Flash, ppz: nat, src: nat, p: nat, d: nat, g: int)
    requires Ok(f, ppz) && src < |f.blocks| && p < ppz && f.blocks[src].ptl[p] != Unused
    requires d < |f.blocks| && f.blocks[d].CanWrite()
    ensures 0 <= f.blocks[src].ptl[p] < |f.ltp|
    ensures var r := Relocate(f, ppz, f.blocks[src].ptl[p], d, g);
      (forall z :: 0 <= z < |f.blocks| && z != src && z != d ==> r.blocks[z] == f.blocks[z]) &&
      (forall q :: 0 <= q < ppz && q != p && src != d ==> r.blocks[src].ptl[q] == f.blocks[src].ptl[q]) &&
      (forall z :: 0 <= z < |f.blocks| && z != d ==> r.blocks[z].writePos == f.blocks[z].writePos) &&
      (forall z :: 0 <= z < |f.blocks| && z != d ==> (r.blocks[z].CanWrite() <==> f.blocks[z].CanWrite())) &&
      (forall z :: 0 <= z < |f.blocks| ==> |r.blocks[z].ptl| == |f.blocks[z].ptl|) &&
      r.blocks[d].writePos == f.blocks[d].writePos + 1
  {
    var lp := f.blocks[src].ptl[p];
    AddrRoundTrip(src, p, ppz);
    AfterWriteEffects(f.blocks, f.ltp, ppz, lp, d, g);
    OkShape(f, ppz);
    OkShape(Relocate(f, ppz, lp, d, g), ppz);
  }

  /** Unpacks the block shape that Ok guarantees. */
  lemma OkShape(f: Flash, ppz: nat)
    requires Ok(f, ppz)
    ensures ppz > 0
    ensures forall z :: 0 <= z < |f.blocks| ==> |f.blocks[z].ptl| == ppz && f.blocks[z].Wf()
  {
  }

  /** Unpacks Backward for one used slot. */
  lemma StoredPage(f: Flash, ppz: nat, z: nat, p: nat)
    requires Ok(f, ppz) && z < |f.blocks| && p < ppz && f.blocks[z].ptl[p] != Unused
    ensures 0 <= f.blocks[z].ptl[p] < |f.ltp| && f.ltp[f.blocks[z].ptl[p]] == GetAddr(z, p, ppz)
  {
  }

  /** A change to a block's tags (group, generation, GC flag) only. */
  function Retagged(f: Flash, ppz: nat, z: nat, nb: Block): (r: Flash)
    requires Ok(f, ppz) && z < |f.blocks|
    requires nb.ptl == f.blocks[z].ptl && nb.writePos == f.blocks[z].writePos
    requires nb.validCnt == f.blocks[z].validCnt
    ensures Ok(r, ppz) && r.blocks == f.blocks[z := nb] && r.ltp == f.ltp
    ensures r.writes == f.writes && r.age == f.age
  {
    LayoutConsistent(f.blocks, f.blocks[z := nb], f.ltp, ppz);
    f.(blocks := f.blocks[z := nb])
  }

  /** Block z after compaction, with its GC generation raised by one. */
  function CompactedBlock(f: Flash, z: nat): (nb: Block)
    requires z < |f.blocks| && f.blocks[z].Wf()
    ensures nb.Wf() && nb.ptl == Packed(f.blocks[z].ptl) && nb.writePos == nb.validCnt == f.blocks[z].validCnt
    ensures nb.writePos <= |nb.ptl| == |f.blocks[z].ptl| && nb.ptl[..nb.writePos] == Survivors(f.blocks[z].ptl)
    ensures nb.gcGeneration == f.blocks[z].gcGeneration + 1 && nb.writtenByGc && nb.group == f.blocks[z].group
  {
    PackedKeepsPages(f.blocks[z]);
    Compacted(f.blocks[z], f.age).(gcGeneration := f.blocks[z].gcGeneration + 1)
  }

  /**
    SSD::compactBlock: block z is compacted in place, its generation goes up
    by one, every surviving page is remapped to its new slot and counts as a
    physical write.
   */
  function CompactAt(f: Flash, ppz: nat, z: nat): (r: Flash)
    requires Ok(f, ppz) && z < |f.blocks|
    ensures Ok(r, ppz) && |r.blocks| == |f.blocks| && |r.ltp| == |f.ltp|
    ensures r.writes == f.writes + f.blocks[z].validCnt && r.age == f.age + 1
  {
    OkShape(f, ppz);
    var nb := CompactedBlock(f, z);
    CompactConsistent(f.blocks, f.ltp, ppz, z, nb);
    Flash(f.blocks[z := nb], Remapped(f.ltp, nb.ptl, z, ppz, nb.writePos),
          f.writes + nb.writePos, f.age + 1)
  }

  /** CompactAt spelled out: the compacted block in place, and the mapping remapped slot by slot. */
  lemma CompactAtUnfold(f: Flash, ppz: nat, z: nat)
    requires Ok(f, ppz) && z < |f.blocks|
    ensures f.blocks[z].Wf()
    ensures var nb := CompactedBlock(f, z);
      nb.writePos <= |nb.ptl| && (forall i :: 0 <= i < nb.writePos ==> 0 <= nb.ptl[i] < |f.ltp|) &&
      CompactAt(f, ppz, z) ==
        Flash(f.blocks[z := nb], Remapped(f.ltp, nb.ptl, z, ppz, nb.writePos), f.writes + nb.writePos, f.age + 1)
  {
    OkShape(f, ppz);
    CompactAtRemaps(f, ppz, z);
  }

  /** Each surviving page of a compacted block is mapped to its new slot. */
  lemma CompactAtRemaps(f: Flash, ppz: nat, z: nat)
    requires Ok(f, ppz) && z < |f.blocks|
    ensures var r := CompactAt(f, ppz, z);
      var nb := r.blocks[z];
      nb.writePos <= |nb.ptl| &&
      (forall i :: 0 <= i < nb.writePos ==> 0 <= nb.ptl[i] < |f.ltp| && r.ltp[nb.ptl[i]] == GetAddr(z, i, ppz)) &&
      (forall x :: 0 <= x < |f.ltp| && x !in nb.ptl[..nb.writePos] ==> r.ltp[x] == f.ltp[x])
  {
    OkShape(f, ppz);
    var nb := CompactedBlock(f, z);
    CompactSurvivors(f.blocks, f.ltp, ppz, z, nb);
    RemappedAt(f.ltp, nb.ptl, z, ppz, nb.writePos);
  }

  /** Compaction maps the same logical pages as before. */
  lemma CompactAtSameMapped(f: Flash, ppz: nat, z: nat)
    requires Ok(f, ppz) && z < |f.blocks|
    ensures SameMapped(f, CompactAt(f, ppz, z))
  {
    OkShape(f, ppz);
    var nb := CompactedBlock(f, z);
    var r := CompactAt(f, ppz, z);
    CompactSurvivors(f.blocks, f.ltp, ppz, z, nb);
    CompactAtRemaps(f, ppz, z);
    forall lp | 0 <= lp < |f.ltp| ensures r.ltp[lp] == Unused <==> f.ltp[lp] == Unused {
      if lp in nb.ptl[..nb.writePos] {
        var i :| 0 <= i < nb.writePos && nb.ptl[..nb.writePos][i] == lp;
        assert nb.ptl[i] == lp;
      }
    }
  }

  /**
    What compaction does: block z holds its former valid pages packed at the
    front in their old order, each of them is mapped to its new slot, the
    block is marked as GC-written with its generation raised, no other block
    changes, and the same pages are mapped.
   */
  lemma CompactAtEffects(f: Flash, ppz: nat, z: nat)
    requires Ok(f, ppz) && z < |f.blocks|
    ensures var r := CompactAt(f, ppz, z);
      var w := r.blocks[z].writePos;
      w == f.blocks[z].validCnt && w <= ppz &&
      r.blocks[z].ptl[..w] == Survivors(f.blocks[z].ptl) &&
      (forall i :: 0 <= i < w ==> 0 <= r.blocks[z].ptl[i] < |f.ltp| &&
                                  r.ltp[r.blocks[z].ptl[i]] == GetAddr(z, i, ppz)) &&
      r.blocks[z].gcGeneration == f.blocks[z].gcGeneration + 1 && r.blocks[z].writtenByGc &&
      r.blocks[z].group == f.blocks[z].group &&
      (forall z' :: 0 <= z' < |f.blocks| && z' != z ==> r.blocks[z'] == f.blocks[z']) &&
      SameMapped(f, r)
  {
    OkShape(f, ppz);
    CompactAtRemaps(f, ppz, z);
    CompactAtSameMapped(f, ppz, z);
  }

  /** Block::erase on a block without valid pages: consistency and the mapping are kept. */
  function EraseAt(f: Flash, ppz: nat, z: nat): (r: Flash)
    requires Ok(f, ppz) && z < |f.blocks| && f.blocks[z].AllInvalid()
    ensures Ok(r, ppz) && |r.blocks| == |f.blocks| && r.ltp == f.ltp
    ensures r.blocks[z].IsErased() && r.blocks[z].AllInvalid() && r.blocks[z].group == -1
    ensures r.blocks[z].eraseCount == f.blocks[z].eraseCount + 1 && r.blocks[z].gcAge == f.age
    ensures r.blocks[z].gcGeneration == f.blocks[z].gcGeneration
    ensures forall z' :: 0 <= z' < |f.blocks| && z' != z ==> r.blocks[z'] == f.blocks[z']
    ensures r.writes == f.writes && r.age == f.age + 1
  {
    EraseConsistent(f.blocks, f.ltp, ppz, z, f.blocks[z].Erase(f.age));
    Flash(f.blocks[z := f.blocks[z].Erase(f.age)], f.ltp, f.writes, f.age + 1)
  }

  /** The last step of every reclamation: erase the emptied victim and reset its generation. */
  function FreeAt(f: Flash, ppz: nat, z: nat): (r: Flash)
    requires Ok(f, ppz) && z < |f.blocks| && f.blocks[z].AllInvalid()
    ensures Ok(r, ppz) && |r.blocks| == |f.blocks| && r.ltp == f.ltp
    ensures r.blocks[z].IsErased() && r.blocks[z].AllInvalid() && r.blocks[z].gcGeneration == 0
    ensures forall z' :: 0 <= z' < |f.blocks| && z' != z ==> r.blocks[z'] == f.blocks[z']
    ensures r.writes == f.writes && r.age == f.age + 1
  {
    var e := EraseAt(f, ppz, z);
    Retagged(e, ppz, z, e.blocks[z].(gcGeneration := 0))
  }

  // ---------------------------------------------------------------------------
  // SSD::moveValidPagesTo(source, destination)

  /**
    The copy loop from slot p on: each valid page of src is relocated to dst
    while dst has room.  It keeps the same pages mapped, touches no block but
    src and dst, and if dst still has room at the end every scanned slot of
    src is empty.
   */
  function MoveFrom(f: Flash, ppz: nat, src: nat, dst: nat, p: nat): (r: Flash)
    requires Ok(f, ppz) && src < |f.blocks| && dst < |f.blocks| && p <= ppz
    ensures Ok(r, ppz) && |r.blocks| == |f.blocks| && r.age == f.age && SameMapped(f, r)
    ensures forall z :: 0 <= z < |f.blocks| && z != src && z != dst ==> r.blocks[z] == f.blocks[z]
    decreases ppz - p
  {
    if p == ppz || !f.blocks[dst].CanWrite() then f
    else if f.blocks[src].ptl[p] == Unused then MoveFrom(f, ppz, src, dst, p + 1)
    else
      RelocateFrom(f, ppz, src, p, dst, Unused);
      MoveFrom(Relocate(f, ppz, f.blocks[src].ptl[p], dst, Unused), ppz, src, dst, p + 1)
  }

  /** Writing a page changes no block's bookkeeping tags, and no group except the destination's. */
  lemma RelocateTags(f: Flash, ppz: nat, lp: nat, d: nat, g: int)
    requires Ok(f, ppz) && lp < |f.ltp| && d < |f.blocks| && f.blocks[d].CanWrite()
    ensures var r := Relocate(f, ppz, lp, d, g);
      (forall z :: 0 <= z < |f.blocks| ==> r.blocks[z].SameTags(f.blocks[z])) &&
      (forall z :: 0 <= z < |f.blocks| && z != d ==> r.blocks[z].group == f.blocks[z].group)
  {
    var bs1 := Tagged(f.blocks, d, g);
    LayoutConsistent(f.blocks, bs1, f.ltp, ppz);
    assert Relocate(f, ppz, lp, d, g).blocks == WriteStep(bs1, f.ltp, ppz, lp, d);
  }

  lemma MoveStops(f: Flash, ppz: nat, src: nat, dst: nat, p: nat)
    requires Ok(f, ppz) && src < |f.blocks| && dst < |f.blocks| && p <= ppz
    requires p == ppz || !f.blocks[dst].CanWrite()
    ensures MoveFrom(f, ppz, src, dst, p) == f
  {
  }

  lemma MoveSkips(f: Flash, ppz: nat, src: nat, dst: nat, p: nat)
    requires Ok(f, ppz) && src < |f.blocks| && dst < |f.blocks| && p < ppz
    requires f.blocks[dst].CanWrite() && f.blocks[src].ptl[p] == Unused
    ensures MoveFrom(f, ppz, src, dst, p) == MoveFrom(f, ppz, src, dst, p + 1)
  {
  }

  lemma MoveRelocates(f: Flash, ppz: nat, src: nat, dst: nat, p: nat)
    requires Ok(f, ppz) && src < |f.blocks| && dst < |f.blocks| && p < ppz
    requires f.blocks[dst].CanWrite() && f.blocks[src].ptl[p] != Unused
    ensures 0 <= f.blocks[src].ptl[p] < |f.ltp|
    ensures MoveFrom(f, ppz, src, dst, p) ==
            MoveFrom(Relocate(f, ppz, f.blocks[src].ptl[p], dst, Unused), ppz, src, dst, p + 1)
  {
    StoredPage(f, ppz, src, p);
  }

  /**
    The copy loop leaves the slots of src before p alone, and if dst still
    has room at the end, every slot of src from p on is empty.
   */
  lemma {:induction false} MoveFromSlots(f: Flash, ppz: nat, src: nat, dst: nat, p: nat)
    requires Ok(f, ppz) && src < |f.blocks| && dst < |f.blocks| && p <= ppz && src != dst
    ensures var r := MoveFrom(f, ppz, src, dst, p);
      KeptOrFlagged(f.blocks[src].ptl, r.blocks[src].ptl, p, !r.blocks[dst].CanWrite(), -1)
    decreases ppz - p, 1
  {
    OkShape(f, ppz);
    if p == ppz || !f.blocks[dst].CanWrite() {
      MoveStops(f, ppz, src, dst, p);
    } else {
      MoveStepSlots(f, ppz, src, dst, p);
    }
  }

  lemma {:induction false} MoveStepSlots(f: Flash, ppz: nat, src: nat, dst: nat, p: nat)
    requires Ok(f, ppz) && src < |f.blocks| && dst < |f.blocks| && p < ppz && src != dst
    requires f.blocks[dst].CanWrite()
    ensures var r := MoveFrom(f, ppz, src, dst, p);
      KeptOrFlagged(f.blocks[src].ptl, r.blocks[src].ptl, p, !r.blocks[dst].CanWrite(), -1)
    decreases ppz - p, 0
  {
    if f.blocks[src].ptl[p] == Unused {
      MoveFromSlots(f, ppz, src, dst, p + 1);
      MoveSkipSlots(f, ppz, src, dst, p);
    } else {
      MoveRelocates(f, ppz, src, dst, p);
      var f' := Relocate(f, ppz, f.blocks[src].ptl[p], dst, Unused);
      MoveFromSlots(f', ppz, src, dst, p + 1);
      MoveRelocateSlots(f, f', ppz, src, dst, p);
    }
  }

  lemma MoveSkipSlots(f: Flash, ppz: nat, src: nat, dst: nat, p: nat)
    requires Ok(f, ppz) && src < |f.blocks| && dst < |f.blocks| && p < ppz && src != dst
    requires f.blocks[dst].CanWrite() && f.blocks[src].ptl[p] == Unused
    requires var r := MoveFrom(f, ppz, src, dst, p + 1);
      KeptOrFlagged(f.blocks[src].ptl, r.blocks[src].ptl, p + 1, !r.blocks[dst].CanWrite(), -1)
    ensures var r := MoveFrom(f, ppz, src, dst, p);
      KeptOrFlagged(f.blocks[src].ptl, r.blocks[src].ptl, p, !r.blocks[dst].CanWrite(), -1)
  {
    OkShape(f, ppz);
    MoveSkips(f, ppz, src, dst, p);
    var r := MoveFrom(f, ppz, src, dst, p + 1);
    KeptSkip(f.blocks[src].ptl, r.blocks[src].ptl, p, !r.blocks[dst].CanWrite(), -1);
  }

  lemma MoveRelocateSlots(f: Flash, f': Flash, ppz: nat, src: nat, dst: nat, p: nat)
    requires Ok(f, ppz) && src < |f.blocks| && dst < |f.blocks| && p < ppz && src != dst
    requires f.blocks[dst].CanWrite() && f.blocks[src].ptl[p] != Unused && 0 <= f.blocks[src].ptl[p] < |f.ltp|
    requires f' == Relocate(f, ppz, f.blocks[src].ptl[p], dst, Unused)
    requires var r := MoveFrom(f', ppz, src, dst, p + 1);
      KeptOrFlagged(f'.blocks[src].ptl, r.blocks[src].ptl, p + 1, !r.blocks[dst].CanWrite(), -1)
    ensures var r := MoveFrom(f, ppz, src, dst, p);
      KeptOrFlagged(f.blocks[src].ptl, r.blocks[src].ptl, p, !r.blocks[dst].CanWrite(), -1)
  {
    OkShape(f, ppz);
    RelocateFrom(f, ppz, src, p, dst, Unused);
    MoveRelocates(f, ppz, src, dst, p);
    var r := MoveFrom(f', ppz, src, dst, p + 1);
    KeptRelocate(f.blocks[src].ptl, f'.blocks[src].ptl, r.blocks[src].ptl, p, !r.blocks[dst].CanWrite(), -1);
  }

  /** The whole operation: mark dst as GC-written, run the copy loop, report whether src kept pages. */
  function MovePages(f: Flash, ppz: nat, src: nat, dst: nat): (r: (Flash, bool))
    requires Ok(f, ppz) && src < |f.blocks| && dst < |f.blocks|
    ensures Ok(r.0, ppz) && |r.0.blocks| == |f.blocks| && r.0.age == f.age && SameMapped(f, r.0)
    ensures r.1 == !r.0.blocks[src].AllInvalid()
    ensures forall z :: 0 <= z < |f.blocks| && z != src && z != dst ==> r.0.blocks[z] == f.blocks[z]
    ensures r.0.blocks[dst].writtenByGc
  {
    var t := Retagged(f, ppz, dst, f.blocks[dst].(writtenByGc := true));
    MoveFromTags(t, ppz, src, dst, 0);
    var m := MoveFrom(t, ppz, src, dst, 0);
    (m, !m.blocks[src].AllInvalid())
  }

  /** A victim that keeps pages has filled its (distinct) destination; one that empties is all invalid. */
  lemma MovePagesFills(f: Flash, ppz: nat, src: nat, dst: nat)
    requires Ok(f, ppz) && src < |f.blocks| && dst < |f.blocks| && src != dst
    ensures MovePages(f, ppz, src, dst).1 ==> !MovePages(f, ppz, src, dst).0.blocks[dst].CanWrite()
  {
    var t := Retagged(f, ppz, dst, f.blocks[dst].(writtenByGc := true));
    var m := MoveFrom(t, ppz, src, dst, 0);
    MoveFromSlots(t, ppz, src, dst, 0);
    OkShape(m, ppz);
    OkShape(t, ppz);
    if m.blocks[dst].CanWrite() {
      CountUsedZero(m.blocks[src].ptl);
    }
  }

  /** The copy loop never changes a block's bookkeeping tags. */
  lemma {:induction false} MoveFromTags(f: Flash, ppz: nat, src: nat, dst: nat, p: nat)
    requires Ok(f, ppz) && src < |f.blocks| && dst < |f.blocks| && p <= ppz
    ensures forall z :: 0 <= z < |f.blocks| ==> MoveFrom(f, ppz, src, dst, p).blocks[z].SameTags(f.blocks[z])
    decreases ppz - p, 1
  {
    if p == ppz || !f.blocks[dst].CanWrite() {
      MoveStops(f, ppz, src, dst, p);
    } else {
      MoveStepTags(f, ppz, src, dst, p);
    }
  }

  lemma {:induction false} MoveStepTags(f: Flash, ppz: nat, src: nat, dst: nat, p: nat)
    requires Ok(f, ppz) && src < |f.blocks| && dst < |f.blocks| && p < ppz && f.blocks[dst].CanWrite()
    ensures forall z :: 0 <= z < |f.blocks| ==> MoveFrom(f, ppz, src, dst, p).blocks[z].SameTags(f.blocks[z])
    decreases ppz - p, 0
  {
    if f.blocks[src].ptl[p] == Unused {
      MoveSkips(f, ppz, src, dst, p);
      MoveFromTags(f, ppz, src, dst, p + 1);
    } else {
      MoveRelocates(f, ppz, src, dst, p);
      var lp := f.blocks[src].ptl[p];
      RelocateTags(f, ppz, lp, dst, Unused);
      MoveFromTags(Relocate(f, ppz, lp, dst, Unused), ppz, src, dst, p + 1);
    }
  }

  // ---------------------------------------------------------------------------
  // SSD::moveValidPagesTo(source, destinationFun)

  /** The state after the scan, the first full destination met (-1 if none), and whether the callback refused. */
  datatype Scan = Scan(flash: Flash, firstFull: int, rejected: bool)

  /** A full block recorded as first full destination, or none. */
  ghost predicate FullOrNone(f: Flash, d: int) {
    d == -1 || (0 <= d < |f.blocks| && !f.blocks[d].CanWrite())
  }

  /** The destination callback never names the source block. */
  ghost predicate NeverSelf(destOf: (seq<Block>, nat) -> (int, int), src: nat) {
    forall bs, x :: destOf(bs, x).0 != src
  }

  /**
    The scan loop from slot p on: each valid page of src goes where destOf
    says (a negative or out-of-range block is the callback refusing), unless
    that block is full, in which case the first such block is recorded.
   */
  function ScanFrom(f: Flash, ppz: nat, src: nat, destOf: (seq<Block>, nat) -> (int, int),
                    p: nat, firstFull: int): (r: Scan)
    requires Ok(f, ppz) && src < |f.blocks| && p <= ppz && FullOrNone(f, firstFull)
    ensures Ok(r.flash, ppz) && |r.flash.blocks| == |f.blocks| && r.flash.age == f.age
    ensures SameMapped(f, r.flash) && FullOrNone(r.flash, r.firstFull)
    ensures firstFull != -1 ==> r.firstFull == firstFull
    decreases ppz - p
  {
    if p == ppz then Scan(f, firstFull, false)
    else if f.blocks[src].ptl[p] == Unused then ScanFrom(f, ppz, src, destOf, p + 1, firstFull)
    else
      var lp := f.blocks[src].ptl[p];
      assert 0 <= lp < |f.ltp|;
      var (d, g) := destOf(f.blocks, lp);
      if d < 0 || d >= |f.blocks| then Scan(f, firstFull, true)
      else if f.blocks[d].CanWrite() then
        RelocateFrom(f, ppz, src, p, d, g);
        ScanFrom(Relocate(f, ppz, lp, d, g), ppz, src, destOf, p + 1, firstFull)
      else
        ScanFrom(f, ppz, src, destOf, p + 1, if firstFull == -1 then d else firstFull)
  }

  /**
    What a scan from slot p promises when no page is sent back to its own
    block: the slots before p are untouched, and unless the callback refused,
    a valid page left behind at or after p means a full destination was
    recorded.
   */
  ghost predicate KeepsOrRecords(f: Flash, s: Scan, src: nat, p: nat) {
    src < |f.blocks| && src < |s.flash.blocks| &&
    KeptOrFlagged(f.blocks[src].ptl, s.flash.blocks[src].ptl, p, s.rejected, s.firstFull)
  }

  /** The slot-level content of KeepsOrRecords: a is the victim before, c after. */
  ghost predicate KeptOrFlagged(a: seq<int>, c: seq<int>, p: nat, rejected: bool, firstFull: int) {
    p <= |a| == |c| &&
    (forall q :: 0 <= q < p ==> c[q] == a[q]) &&
    (!rejected ==> forall q :: p <= q < |a| && c[q] != Unused ==> firstFull != -1)
  }

  lemma KeptSkip(a: seq<int>, c: seq<int>, p: nat, rejected: bool, firstFull: int)
    requires p < |a| && a[p] == Unused && KeptOrFlagged(a, c, p + 1, rejected, firstFull)
    ensures KeptOrFlagged(a, c, p, rejected, firstFull)
  {
  }

  lemma KeptRelocate(a: seq<int>, b: seq<int>, c: seq<int>, p: nat, rejected: bool, firstFull: int)
    requires p < |a| == |b| && b[p] == Unused && forall q :: 0 <= q < |a| && q != p ==> b[q] == a[q]
    requires KeptOrFlagged(b, c, p + 1, rejected, firstFull)
    ensures KeptOrFlagged(a, c, p, rejected, firstFull)
  {
    assert c[p] == Unused;
  }

  lemma KeptFull(a: seq<int>, c: seq<int>, p: nat, rejected: bool, firstFull: int)
    requires p < |a| && firstFull != -1 && KeptOrFlagged(a, c, p + 1, rejected, firstFull)
    ensures KeptOrFlagged(a, c, p, rejected, firstFull)
  {
  }

  /** One scan step over an empty slot. */
  lemma ScanSkips(f: Flash, ppz: nat, src: nat, destOf: (seq<Block>, nat) -> (int, int), p: nat, firstFull: int)
    requires Ok(f, ppz) && src < |f.blocks| && p < ppz && FullOrNone(f, firstFull)
    requires f.blocks[src].ptl[p] == Unused
    ensures ScanFrom(f, ppz, src, destOf, p, firstFull) == ScanFrom(f, ppz, src, destOf, p + 1, firstFull)
  {
  }

  /** One scan step that relocates the page to a destination with room. */
  lemma ScanRelocates(f: Flash, ppz: nat, src: nat, destOf: (seq<Block>, nat) -> (int, int), p: nat, firstFull: int)
    requires Ok(f, ppz) && src < |f.blocks| && p < ppz && FullOrNone(f, firstFull)
    requires f.blocks[src].ptl[p] != Unused
    requires 0 <= f.blocks[src].ptl[p] && 0 <= destOf(f.blocks, f.blocks[src].ptl[p]).0 < |f.blocks|
    requires f.blocks[destOf(f.blocks, f.blocks[src].ptl[p]).0].CanWrite()
    ensures var lp := f.blocks[src].ptl[p];
      var d, g := destOf(f.blocks, lp).0, destOf(f.blocks, lp).1;
      ScanFrom(f, ppz, src, destOf, p, firstFull) == ScanFrom(Relocate(f, ppz, lp, d, g), ppz, src, destOf, p + 1, firstFull)
  {
  }

  /** One scan step that meets a full destination. */
  lemma ScanMeetsFull(f: Flash, ppz: nat, src: nat, destOf: (seq<Block>, nat) -> (int, int), p: nat, firstFull: int)
    requires Ok(f, ppz) && src < |f.blocks| && p < ppz && FullOrNone(f, firstFull)
    requires f.blocks[src].ptl[p] != Unused
    requires 0 <= f.blocks[src].ptl[p] && 0 <= destOf(f.blocks, f.blocks[src].ptl[p]).0 < |f.blocks|
    requires !f.blocks[destOf(f.blocks, f.blocks[src].ptl[p]).0].CanWrite()
    ensures var d := destOf(f.blocks, f.blocks[src].ptl[p]).0;
      ScanFrom(f, ppz, src, destOf, p, firstFull) ==
      ScanFrom(f, ppz, src, destOf, p + 1, if firstFull == -1 then d else firstFull)
  {
  }

  /** When no page is sent back to its own block, every scan keeps or records. */
  lemma {:induction false} ScanFromSelfFree(f: Flash, ppz: nat, src: nat, destOf: (seq<Block>, nat) -> (int, int),
                                            p: nat, firstFull: int)
    requires Ok(f, ppz) && src < |f.blocks| && p <= ppz && FullOrNone(f, firstFull)
    requires NeverSelf(destOf, src)
    ensures KeepsOrRecords(f, ScanFrom(f, ppz, src, destOf, p, firstFull), src, p)
    decreases ppz - p, 2
  {
    OkShape(f, ppz);
    if p == ppz {
      EndSelfFree(f, ppz, src, destOf, firstFull);
    } else if f.blocks[src].ptl[p] == Unused {
      ScanFromSelfFree(f, ppz, src, destOf, p + 1, firstFull);
      SkipSelfFree(f, ppz, src, destOf, p, firstFull);
    } else {
      OccupiedSelfFree(f, ppz, src, destOf, p, firstFull);
    }
  }

  /** The scan step at a valid page: relocate, meet a full block, or be refused. */
  lemma {:induction false} OccupiedSelfFree(f: Flash, ppz: nat, src: nat, destOf: (seq<Block>, nat) -> (int, int),
                                            p: nat, firstFull: int)
    requires Ok(f, ppz) && src < |f.blocks| && p < ppz && FullOrNone(f, firstFull)
    requires NeverSelf(destOf, src) && f.blocks[src].ptl[p] != Unused
    ensures KeepsOrRecords(f, ScanFrom(f, ppz, src, destOf, p, firstFull), src, p)
    decreases ppz - p, 1
  {
    var lp := f.blocks[src].ptl[p];
    StoredPage(f, ppz, src, p);
    var d, g := destOf(f.blocks, lp).0, destOf(f.blocks, lp).1;
    if d < 0 || d >= |f.blocks| {
      RejectSelfFree(f, ppz, src, destOf, p, firstFull);
    } else {
      DestinationSelfFree(f, ppz, src, destOf, p, firstFull);
    }
  }

  /** The scan step at a valid page whose destination is a block of the device. */
  lemma {:induction false} DestinationSelfFree(f: Flash, ppz: nat, src: nat, destOf: (seq<Block>, nat) -> (int, int),
                                               p: nat, firstFull: int)
    requires Ok(f, ppz) && src < |f.blocks| && p < ppz && FullOrNone(f, firstFull)
    requires NeverSelf(destOf, src) && f.blocks[src].ptl[p] != Unused && 0 <= f.blocks[src].ptl[p] < |f.ltp|
    requires 0 <= destOf(f.blocks, f.blocks[src].ptl[p]).0 < |f.blocks|
    ensures KeepsOrRecords(f, ScanFrom(f, ppz, src, destOf, p, firstFull), src, p)
    decreases ppz - p, 0
  {
    var lp := f.blocks[src].ptl[p];
    var d, g := destOf(f.blocks, lp).0, destOf(f.blocks, lp).1;
    if f.blocks[d].CanWrite() {
      var f' := Relocate(f, ppz, lp, d, g);
      RelocateKeepsFull(f, ppz, src, p, d, g, firstFull);
      ScanFromSelfFree(f', ppz, src, destOf, p + 1, firstFull);
      RelocateSelfFree(f, f', ppz, src, destOf, p, d, g, firstFull);
    } else {
      ScanFromSelfFree(f, ppz, src, destOf, p + 1, if firstFull == -1 then d else firstFull);
      FullSelfFree(f, ppz, src, destOf, p, firstFull);
    }
  }

  lemma EndSelfFree(f: Flash, ppz: nat, src: nat, destOf: (seq<Block>, nat) -> (int, int), firstFull: int)
    requires Ok(f, ppz) && src < |f.blocks| && FullOrNone(f, firstFull)
    ensures KeepsOrRecords(f, ScanFrom(f, ppz, src, destOf, ppz, firstFull), src, ppz)
  {
    OkShape(f, ppz);
    assert ScanFrom(f, ppz, src, destOf, ppz, firstFull) == Scan(f, firstFull, false);
  }

  lemma RejectSelfFree(f: Flash, ppz: nat, src: nat, destOf: (seq<Block>, nat) -> (int, int),
                       p: nat, firstFull: int)
    requires Ok(f, ppz) && src < |f.blocks| && p < ppz && FullOrNone(f, firstFull)
    requires f.blocks[src].ptl[p] != Unused && 0 <= f.blocks[src].ptl[p]
    requires var d := destOf(f.blocks, f.blocks[src].ptl[p]).0; d < 0 || d >= |f.blocks|
    ensures KeepsOrRecords(f, ScanFrom(f, ppz, src, destOf, p, firstFull), src, p)
  {
    OkShape(f, ppz);
    assert ScanFrom(f, ppz, src, destOf, p, firstFull) == Scan(f, firstFull, true);
  }

  lemma SkipSelfFree(f: Flash, ppz: nat, src: nat, destOf: (seq<Block>, nat) -> (int, int),
                     p: nat, firstFull: int)
    requires Ok(f, ppz) && src < |f.blocks| && p < ppz && FullOrNone(f, firstFull)
    requires f.blocks[src].ptl[p] == Unused
    requires KeepsOrRecords(f, ScanFrom(f, ppz, src, destOf, p + 1, firstFull), src, p + 1)
    ensures KeepsOrRecords(f, ScanFrom(f, ppz, src, destOf, p, firstFull), src, p)
  {
    OkShape(f, ppz);
    var r := ScanFrom(f, ppz, src, destOf, p + 1, firstFull);
    KeptSkip(f.blocks[src].ptl, r.flash.blocks[src].ptl, p, r.rejected, r.firstFull);
    ScanSkips(f, ppz, src, destOf, p, firstFull);
  }

  /** A relocation into a block with room leaves every full block full. */
  lemma RelocateKeepsFull(f: Flash, ppz: nat, src: nat, p: nat, d: nat, g: int, full: int)
    requires Ok(f, ppz) && src < |f.blocks| && p < ppz && f.blocks[src].ptl[p] != Unused
    requires d < |f.blocks| && f.blocks[d].CanWrite() && FullOrNone(f, full)
    ensures 0 <= f.blocks[src].ptl[p] < |f.ltp|
    ensures FullOrNone(Relocate(f, ppz, f.blocks[src].ptl[p], d, g), full)
  {
    RelocateFrom(f, ppz, src, p, d, g);
  }

  lemma RelocateSelfFree(f: Flash, f': Flash, ppz: nat, src: nat, destOf: (seq<Block>, nat) -> (int, int),
                         p: nat, d: nat, g: int, firstFull: int)
    requires Ok(f, ppz) && src < |f.blocks| && p < ppz && FullOrNone(f, firstFull)
    requires f.blocks[src].ptl[p] != Unused && 0 <= f.blocks[src].ptl[p] < |f.ltp|
    requires (d, g) == destOf(f.blocks, f.blocks[src].ptl[p]) && d < |f.blocks| && f.blocks[d].CanWrite() && d != src
    requires f' == Relocate(f, ppz, f.blocks[src].ptl[p], d, g) && FullOrNone(f', firstFull)
    requires KeepsOrRecords(f', ScanFrom(f', ppz, src, destOf, p + 1, firstFull), src, p + 1)
    ensures KeepsOrRecords(f, ScanFrom(f, ppz, src, destOf, p, firstFull), src, p)
  {
    OkShape(f, ppz);
    RelocateFrom(f, ppz, src, p, d, g);
    ScanRelocates(f, ppz, src, destOf, p, firstFull);
    var r := ScanFrom(f', ppz, src, destOf, p + 1, firstFull);
    KeptRelocate(f.blocks[src].ptl, f'.blocks[src].ptl, r.flash.blocks[src].ptl, p, r.rejected, r.firstFull);
  }

  lemma FullSelfFree(f: Flash, ppz: nat, src: nat, destOf: (seq<Block>, nat) -> (int, int),
                     p: nat, firstFull: int)
    requires Ok(f, ppz) && src < |f.blocks| && p < ppz && FullOrNone(f, firstFull)
    requires f.blocks[src].ptl[p] != Unused
    requires 0 <= f.blocks[src].ptl[p] && 0 <= destOf(f.blocks, f.blocks[src].ptl[p]).0 < |f.blocks|
    requires !f.blocks[destOf(f.blocks, f.blocks[src].ptl[p]).0].CanWrite()
    requires var d := destOf(f.blocks, f.blocks[src].ptl[p]).0;
      var ff := if firstFull == -1 then d else firstFull;
      KeepsOrRecords(f, ScanFrom(f, ppz, src, destOf, p + 1, ff), src, p + 1)
    ensures KeepsOrRecords(f, ScanFrom(f, ppz, src, destOf, p, firstFull), src, p)
  {
    var d := destOf(f.blocks, f.blocks[src].ptl[p]).0;
    var ff := if firstFull == -1 then d else firstFull;
    ScanMeetsFull(f, ppz, src, destOf, p, firstFull);
    var r := ScanFrom(f, ppz, src, destOf, p + 1, ff);
    KeptFull(f.blocks[src].ptl, r.flash.blocks[src].ptl, p, r.rejected, r.firstFull);
  }

  datatype MoveOutcome = Emptied | Blocked(full: nat) | Failed(fault: Fault)

  /**
    The whole operation: refuse a victim all of whose pages are valid, scan,
    then report Emptied when no valid page is left and otherwise the first
    full destination.
   */
  function MovePagesBy(f: Flash, ppz: nat, src: nat, destOf: (seq<Block>, nat) -> (int, int)): (r: (Flash, MoveOutcome))
    requires Ok(f, ppz) && src < |f.blocks|
    ensures Ok(r.0, ppz) && |r.0.blocks| == |f.blocks| && r.0.age == f.age && SameMapped(f, r.0)
    ensures r.1 == Failed(VictimAllValid) <==> f.blocks[src].AllValid()
    ensures r.1 == Emptied ==> r.0.blocks[src].AllInvalid()
    // the source's closing check that the reported destination is full always holds
    ensures r.1.Blocked? ==>
      !r.0.blocks[src].AllInvalid() && r.1.full < |f.blocks| && !r.0.blocks[r.1.full].CanWrite()
  {
    if f.blocks[src].AllValid() then (f, Failed(VictimAllValid))
    else
      var s := ScanFrom(f, ppz, src, destOf, 0, -1);
      if s.rejected then (s.flash, Failed(DestinationRejected))
      else if s.flash.blocks[src].AllInvalid() then (s.flash, Emptied)
      else if s.firstFull == -1 then
        CountUsedZero(s.flash.blocks[src].ptl);
        (s.flash, Failed(NoFullDestination))
      else (s.flash, Blocked(s.firstFull))
  }

  /** The missing-destination case cannot arise when no page is sent back to its own block. */
  lemma MovePagesBySelfFree(f: Flash, ppz: nat, src: nat, destOf: (seq<Block>, nat) -> (int, int))
    requires Ok(f, ppz) && src < |f.blocks| && NeverSelf(destOf, src)
    ensures MovePagesBy(f, ppz, src, destOf).1 != Failed(NoFullDestination)
  {
    if !f.blocks[src].AllValid() {
      var s := ScanFrom(f, ppz, src, destOf, 0, -1);
      ScanFromSelfFree(f, ppz, src, destOf, 0, -1);
      OkShape(f, ppz);
      if !s.rejected && s.firstFull == -1 {
        assert forall q :: 0 <= q < |s.flash.blocks[src].ptl| ==> s.flash.blocks[src].ptl[q] == Unused;
        CountUsedZero(s.flash.blocks[src].ptl);
        assert s.flash.blocks[src].AllInvalid();
      }
    }
  }

  /** Scanning slots that are all unused changes nothing and records nothing. */
  lemma {:induction false} ScanFromIdle(f: Flash, ppz: nat, src: nat, destOf: (seq<Block>, nat) -> (int, int),
                                        p: nat, firstFull: int)
    requires Ok(f, ppz) && src < |f.blocks| && p <= ppz && FullOrNone(f, firstFull)
    requires forall q :: p <= q < |f.blocks[src].ptl| ==> f.blocks[src].ptl[q] == Unused
    ensures ScanFrom(f, ppz, src, destOf, p, firstFull) == Scan(f, firstFull, false)
    decreases ppz - p
  {
    OkShape(f, ppz);
    if p < ppz {
      ScanFromIdle(f, ppz, src, destOf, p + 1, firstFull);
    }
  }

  /**
    A victim with no valid page is reported emptied at once, whatever the
    destination callback says, and the state is unchanged.
   */
  lemma MovePagesByIdle(f: Flash, ppz: nat, src: nat, destOf: (seq<Block>, nat) -> (int, int))
    requires Ok(f, ppz) && src < |f.blocks| && f.blocks[src].AllInvalid()
    ensures MovePagesBy(f, ppz, src, destOf) == (f, Emptied)
  {
    OkShape(f, ppz);
    CountUsedZero(f.blocks[src].ptl);
    ScanFromIdle(f, ppz, src, destOf, 0, -1);
  }

  // ---------------------------------------------------------------------------
  // erasing a block that still holds valid pages

  /**
    Block z with the pages in its slots [0, p) unmapped: each used slot is
    cleared and the logical page it held loses its mapping.  Only block z
    changes.
   */
  /** Slot q of block z cleared and the page it held, if any, unmapped. */
  function UnmapSlot(f: Flash, ppz: nat, z: nat, q: nat): (r: Flash)
    requires Ok(f, ppz) && z < |f.blocks| && q < |f.blocks[z].ptl|
    ensures Ok(r, ppz) && |r.blocks| == |f.blocks| && |r.ltp| == |f.ltp|
    ensures r.writes == f.writes && r.age == f.age
    ensures |r.blocks[z].ptl| == |f.blocks[z].ptl| && r.blocks[z].ptl[q] == Unused
    ensures r.blocks[z].SameTags(f.blocks[z]) && r.blocks[z].group == f.blocks[z].group
    ensures forall q' :: 0 <= q' < |f.blocks[z].ptl| && q' != q ==> r.blocks[z].ptl[q'] == f.blocks[z].ptl[q']
    ensures forall z' :: 0 <= z' < |f.blocks| && z' != z ==> r.blocks[z'] == f.blocks[z']
    ensures r.ltp == if f.blocks[z].ptl[q] == Unused then f.ltp else f.ltp[f.blocks[z].ptl[q] := Unused]
  {
    OkShape(f, ppz);
    if f.blocks[z].ptl[q] == Unused then f
    else
      var u := Unmapped(f.blocks, f.ltp, ppz, z, q);
      Flash(u.0, u.1, f.writes, f.age)
  }

  /**
    Block z with the pages in its slots [0, p) unmapped: each used slot is
    cleared and the logical page it held loses its mapping.  Only block z
    changes.
   */
  function UnmapPrefix(f: Flash, ppz: nat, z: nat, p: nat): (r: Flash)
    requires Ok(f, ppz) && z < |f.blocks| && p <= ppz
    ensures Ok(r, ppz) && |r.blocks| == |f.blocks| && |r.ltp| == |f.ltp|
    ensures r.writes == f.writes && r.age == f.age && |r.blocks[z].ptl| == |f.blocks[z].ptl|
    ensures r.blocks[z].SameTags(f.blocks[z]) && r.blocks[z].group == f.blocks[z].group
    ensures forall q :: 0 <= q < p ==> r.blocks[z].ptl[q] == Unused
    ensures forall q :: p <= q < ppz ==> r.blocks[z].ptl[q] == f.blocks[z].ptl[q]
    ensures forall z' :: 0 <= z' < |f.blocks| && z' != z ==> r.blocks[z'] == f.blocks[z']
    decreases p
  {
    OkShape(f, ppz);
    if p == 0 then f
    else
      var m := UnmapPrefix(f, ppz, z, Less(p));
      OkShape(m, ppz);
      UnmapSlot(m, ppz, z, Less(p))
  }

  /** Exactly the pages held in the unmapped slots lose their mapping; every other page keeps its address. */
  lemma {:induction false} UnmapPrefixMapping(f: Flash, ppz: nat, z: nat, p: nat)
    requires Ok(f, ppz) && z < |f.blocks| && p <= ppz
    ensures forall lp :: 0 <= lp < |f.ltp| ==>
      UnmapPrefix(f, ppz, z, p).ltp[lp] == (if lp in f.blocks[z].ptl[..p] then Unused else f.ltp[lp])
    decreases p
  {
    if p > 0 {
      var q := Less(p);
      var m := UnmapPrefix(f, ppz, z, q);
      UnmapPrefixMapping(f, ppz, z, q);
      OkShape(f, ppz);
      var s := f.blocks[z].ptl;
      UnmapPrefixUnfold(f, ppz, z, p);
      forall lp | 0 <= lp < |f.ltp|
        ensures UnmapPrefix(f, ppz, z, p).ltp[lp] == (if lp in s[..p] then Unused else f.ltp[lp])
      {
        PrefixMember(s, q, lp);
      }
    }
  }

  lemma PrefixMember(s: seq<int>, q: nat, x: int)
    requires q < |s|
    ensures x in s[..q + 1] <==> x in s[..q] || x == s[q]
  {
    assert s[..q + 1] == s[..q] + [s[q]];
  }

  lemma UnmapPrefixUnfold(f: Flash, ppz: nat, z: nat, p: nat)
    requires Ok(f, ppz) && z < |f.blocks| && 0 < p <= ppz
    ensures UnmapPrefix(f, ppz, z, p) == UnmapSlot(UnmapPrefix(f, ppz, z, Less(p)), ppz, z, Less(p))
    ensures UnmapPrefix(f, ppz, z, Less(p)).blocks[z].ptl[Less(p)] == f.blocks[z].ptl[Less(p)]
  {
    OkShape(f, ppz);
  }

  /**
    Erasing block z after unmapping the pages it holds: consistency is
    kept, the block is erased exactly as Block::erase does it, and nothing
    else changes.
   */
  function Scrubbed(f: Flash, ppz: nat, z: nat): (r: Flash)
    requires Ok(f, ppz) && z < |f.blocks|
    ensures Ok(r, ppz) && |r.blocks| == |f.blocks| && |r.ltp| == |f.ltp|
    ensures r.blocks[z].IsErased() && r.blocks[z].AllInvalid() && r.blocks[z].group == -1
    ensures r.blocks[z].eraseCount == f.blocks[z].eraseCount + 1 && r.blocks[z].gcAge == f.age
    ensures r.blocks[z].gcGeneration == f.blocks[z].gcGeneration
    ensures forall z' :: 0 <= z' < |f.blocks| && z' != z ==> r.blocks[z'] == f.blocks[z']
    ensures r.writes == f.writes && r.age == f.age + 1
  {
    var m := UnmapPrefix(f, ppz, z, ppz);
    OkShape(m, ppz);
    CountUsedZero(m.blocks[z].ptl);
    EraseAt(m, ppz, z)
  }

  /** The pages that erase unmaps are exactly the pages block z held. */
  lemma ScrubbedUnmaps(f: Flash, ppz: nat, z: nat)
    requires Ok(f, ppz) && z < |f.blocks|
    ensures forall lp :: 0 <= lp < |f.ltp| ==>
      Scrubbed(f, ppz, z).ltp[lp] == (if lp in f.blocks[z].ptl then Unused else f.ltp[lp])
  {
    OkShape(f, ppz);
    UnmapPrefixMapping(f, ppz, z, ppz);
    assert f.blocks[z].ptl[..ppz] == f.blocks[z].ptl;
  }

  /** A prefix of unused slots has nothing to unmap. */
  lemma {:induction false} UnmapPrefixNothing(f: Flash, ppz: nat, z: nat, p: nat)
    requires Ok(f, ppz) && z < |f.blocks| && p <= ppz
    requires forall q :: 0 <= q < p ==> f.blocks[z].ptl[q] == Unused
    ensures UnmapPrefix(f, ppz, z, p) == f
    decreases p
  {
    if p > 0 {
      UnmapPrefixNothing(f, ppz, z, Less(p));
    }
  }

  /** On a block without valid pages the corrected erase is the plain erase. */
  lemma ScrubbedEmpty(f: Flash, ppz: nat, z: nat)
    requires Ok(f, ppz) && z < |f.blocks| && f.blocks[z].AllInvalid()
    ensures Scrubbed(f, ppz, z) == EraseAt(f, ppz, z)
  {
    OkShape(f, ppz);
    CountUsedZero(f.blocks[z].ptl);
    UnmapPrefixNothing(f, ppz, z, ppz);
  }
}
