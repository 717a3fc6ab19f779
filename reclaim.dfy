/**
  The three variants of SSD::compactUntilFreeBlock as functions on a flash
  value: they run whole garbage-collection rounds until a victim block is
  empty, then erase it.  The block chooser, the destination chooser and the
  group bookkeeping belong to the caller's policy and are parameters here.
  The source loops until a victim empties; the functions take a round
  budget and report RoundLimit when it runs out.
 */
module Reclaim {
  import opened Blocks
  import opened Mapping
  import opened Ftl

  /** The outcome of a reclamation: the new state, the freed block and the GC block (-1 for none), or a fault. */
  datatype Reclaimed = Freed(flash: Flash, free: nat, gcBlock: int) | Aborted(fault: Fault)

  /**
    What every variant promises on success: the state is consistent, the
    same logical pages are mapped, and the returned block is erased and
    holds no valid page.
   */
  ghost predicate FreedOk(f: Flash, r: Reclaimed, ppz: nat) {
    r.Freed? ==>
      Ok(r.flash, ppz) && |r.flash.blocks| == |f.blocks| && SameMapped(f, r.flash) &&
      r.free < |f.blocks| && r.flash.blocks[r.free].IsErased() && r.flash.blocks[r.free].AllInvalid() &&
      r.flash.age > f.age
  }

  /** Being mapped is an equivalence between states, so it chains. */
  lemma SameMappedChain(f: Flash, g: Flash, h: Flash)
    requires SameMapped(f, g) && SameMapped(g, h)
    ensures SameMapped(f, h)
  {
  }

  /** A success reached from an intermediate state c is a success from f. */
  lemma FreedOkChain(f: Flash, c: Flash, r: Reclaimed, ppz: nat)
    requires SameMapped(f, c) && |c.blocks| == |f.blocks| && c.age >= f.age && FreedOk(c, r, ppz)
    ensures FreedOk(f, r, ppz)
  {
    if r.Freed? {
      SameMappedChain(f, c, r.flash);
    }
  }

  /** Erasing the emptied victim of a state that maps the same pages as f is a success from f. */
  lemma FreedAfterMove(f: Flash, m: Flash, ppz: nat, v: nat, gc: int)
    requires Ok(m, ppz) && SameMapped(f, m) && |m.blocks| == |f.blocks| && m.age >= f.age
    requires v < |m.blocks| && m.blocks[v].AllInvalid()
    ensures FreedOk(f, Freed(FreeAt(m, ppz, v), v, gc), ppz)
  {
    SameMappedChain(f, m, FreeAt(m, ppz, v));
  }

  // ---------------------------------------------------------------------------
  // compactUntilFreeBlock(gcBlockId, nextBlock)

  /**
    The loop of the first variant: move the valid pages of the next victim
    into the GC block; if the victim is then empty it is erased and its
    generation reset, otherwise the victim is compacted and becomes the
    GC block for the next round.  When the emptied victim is the GC block
    itself, no GC block is left (-1); the source returns the freed block
    as the GC block as well (see SelfVictimEmpties).
   */
  function Rounds(f: Flash, ppz: nat, gc: nat, next: seq<Block> -> int, fuel: nat): (r: Reclaimed)
    requires Ok(f, ppz) && gc < |f.blocks|
    ensures FreedOk(f, r, ppz) && (r.Freed? ==> -1 <= r.gcBlock < |f.blocks| && r.flash.blocks[r.free].gcGeneration == 0)
    ensures r.Freed? ==> r.free != r.gcBlock
    decreases fuel
  {
    var v := next(f.blocks);
    if v < 0 || v >= |f.blocks| then Aborted(NoVictim)
    else
      var (m, kept) := MovePages(f, ppz, v, gc);
      if !kept then
        FreedAfterMove(f, m, ppz, v, Survivor(v, gc));
        Freed(FreeAt(m, ppz, v), v, Survivor(v, gc))
      else if fuel == 0 then Aborted(RoundLimit)
      else
        var c := CompactAt(m, ppz, v);
        CompactAtSameMapped(m, ppz, v);
        SameMappedChain(f, m, c);
        var r := Rounds(c, ppz, v, next, Less(fuel));
        FreedOkChain(f, c, r, ppz);
        r
  }

  /** The GC block left after victim v is emptied into gc: none when the victim was gc itself. */
  function Survivor(v: nat, gc: nat): int {
    if v == gc then -1 else gc
  }

  /**
    The source as written: a GC block that is fully written and holds no
    valid page can be named as the victim, and moving its pages into
    itself moves nothing and reports it empty, so the source's loop ends
    at once and returns this block both as the freed block and as the GC
    block still in use.
   */
  lemma SelfVictimEmpties(f: Flash, ppz: nat, gc: nat)
    requires Ok(f, ppz) && gc < |f.blocks| && f.blocks[gc].AllInvalid()
    ensures !MovePages(f, ppz, gc, gc).1
  {
    var t := Retagged(f, ppz, gc, f.blocks[gc].(writtenByGc := true));
    OkShape(t, ppz);
    CountUsedZero(t.blocks[gc].ptl);
    MoveFromIdle(t, ppz, gc, gc, 0);
  }

  /**
    The loop of the first variant as the source writes it: the same rounds
    as Rounds, but an emptied victim is returned together with the GC block
    it was moved into, even when the two are the same block.
   */
  function RoundsAsWritten(f: Flash, ppz: nat, gc: nat, next: seq<Block> -> int, fuel: nat): Reclaimed
    requires Ok(f, ppz) && gc < |f.blocks|
    decreases fuel
  {
    var v := next(f.blocks);
    if v < 0 || v >= |f.blocks| then Aborted(NoVictim)
    else
      var (m, kept) := MovePages(f, ppz, v, gc);
      if !kept then Freed(FreeAt(m, ppz, v), v, gc)
      else if fuel == 0 then Aborted(RoundLimit)
      else RoundsAsWritten(CompactAt(m, ppz, v), ppz, v, next, Less(fuel))
  }

  /**
    The source's rounds and the corrected ones run alike: the same faults,
    the same final state and freed block; they differ only in the GC block
    handed back, which the correction drops when it is the freed block.
   */
  lemma {:induction false} AsWrittenAgrees(f: Flash, ppz: nat, gc: nat, next: seq<Block> -> int, fuel: nat)
    requires Ok(f, ppz) && gc < |f.blocks|
    ensures var a := RoundsAsWritten(f, ppz, gc, next, fuel);
      var r := Rounds(f, ppz, gc, next, fuel);
      (a.Aborted? ==> r == a) &&
      (a.Freed? ==> r == Freed(a.flash, a.free, if a.free == a.gcBlock then -1 else a.gcBlock))
    decreases fuel
  {
    var v := next(f.blocks);
    if 0 <= v < |f.blocks| {
      var mk := MovePages(f, ppz, v, gc);
      if !mk.1 {
        assert RoundsAsWritten(f, ppz, gc, next, fuel) == Freed(FreeAt(mk.0, ppz, v), v, gc);
        assert Rounds(f, ppz, gc, next, fuel) == Freed(FreeAt(mk.0, ppz, v), v, Survivor(v, gc));
      } else if fuel > 0 {
        var c := CompactAt(mk.0, ppz, v);
        assert RoundsAsWritten(f, ppz, gc, next, fuel) == RoundsAsWritten(c, ppz, v, next, Less(fuel));
        RoundsContinue(f, ppz, gc, next, fuel, mk.0, c);
        AsWrittenAgrees(c, ppz, v, next, Less(fuel));
      }
    }
  }

  /**
    The discrepancy on its input: an all-invalid GC block that the chooser
    names as the victim is freed in the first round; the source hands it
    back as the freed block and as the GC block, the correction as the
    freed block only.
   */
  lemma SelfVictimFreedTwice(f: Flash, ppz: nat, gc: nat, next: seq<Block> -> int, fuel: nat)
    requires Ok(f, ppz) && gc < |f.blocks| && f.blocks[gc].AllInvalid() && next(f.blocks) == gc
    ensures var a := RoundsAsWritten(f, ppz, gc, next, fuel);
      a.Freed? && a.free == gc && a.gcBlock == gc
    ensures var r := Rounds(f, ppz, gc, next, fuel);
      r.Freed? && r.free == gc && r.gcBlock == -1
  {
    SelfVictimEmpties(f, ppz, gc);
  }

  /** Moving from a block whose remaining slots are all unused changes nothing. */
  lemma {:induction false} MoveFromIdle(f: Flash, ppz: nat, src: nat, dst: nat, p: nat)
    requires Ok(f, ppz) && src < |f.blocks| && dst < |f.blocks| && p <= ppz
    requires forall q :: p <= q < |f.blocks[src].ptl| ==> f.blocks[src].ptl[q] == Unused
    ensures MoveFrom(f, ppz, src, dst, p) == f
    decreases ppz - p
  {
    OkShape(f, ppz);
    if p < ppz && f.blocks[dst].CanWrite() {
      MoveFromIdle(f, ppz, src, dst, p + 1);
    }
  }

  /** A round whose victim keeps pages hands over to the next round, with the compacted victim as GC block. */
  lemma RoundsContinue(f: Flash, ppz: nat, gc: nat, next: seq<Block> -> int, fuel: nat, m: Flash, c: Flash)
    requires Ok(f, ppz) && gc < |f.blocks| && 0 <= next(f.blocks) < |f.blocks| && fuel > 0
    requires MovePages(f, ppz, next(f.blocks), gc) == (m, true) && c == CompactAt(m, ppz, next(f.blocks))
    ensures Ok(c, ppz) && next(f.blocks) < |c.blocks|
    ensures Rounds(c, ppz, next(f.blocks), next, Less(fuel)) == Rounds(f, ppz, gc, next, fuel)
  {
  }

  /**
    The first variant: a missing or fully valid GC block is replaced by the
    next victim, compacted; it must then have room.  Then the rounds run.
   */
  function CompactUntilFree(f: Flash, ppz: nat, gcBlock: int, next: seq<Block> -> int, fuel: nat): (r: Reclaimed)
    requires Ok(f, ppz) && -1 <= gcBlock < |f.blocks|
    ensures FreedOk(f, r, ppz) && (r.Freed? ==> -1 <= r.gcBlock < |f.blocks| && r.flash.blocks[r.free].gcGeneration == 0)
    ensures r.Freed? ==> r.free != r.gcBlock
    ensures gcBlock != -1 && !f.blocks[gcBlock].AllValid() ==> r == Rounds(f, ppz, gcBlock, next, fuel)
  {
    if gcBlock == -1 || f.blocks[gcBlock].AllValid() then
      var g := next(f.blocks);
      if g < 0 || g >= |f.blocks| then Aborted(NoVictim)
      else
        var c := CompactAt(f, ppz, g);
        if c.blocks[g].AllValid() then Aborted(GcBlockAllValid)
        else
          CompactAtSameMapped(f, ppz, g);
          var r := Rounds(c, ppz, g, next, fuel);
          FreedOkChain(f, c, r, ppz);
          r
    else Rounds(f, ppz, gcBlock, next, fuel)
  }

  // ---------------------------------------------------------------------------
  // compactUntilFreeBlock(groupId, nextBlock, gcDestinationFun, updateGroupFun)

  /**
    The loop of the second variant, with the policy's state s threaded
    through: the victim's pages go where destOf says; an emptied victim is
    erased; otherwise the reported full destination must not be the victim,
    the victim is compacted, takes over the destination's group (which must
    be a real group), and the policy is told that the victim now serves that
    group (update answers the new policy state and whether its own checks
    passed).
   */
  function GroupedRounds<S>(f: Flash, ppz: nat, s: S, next: seq<Block> -> int,
                            destOf: (seq<Block>, S, nat) -> (int, int),
                            update: (seq<Block>, S, int, nat) -> (S, bool), fuel: nat): (r: (Reclaimed, S))
    requires Ok(f, ppz)
    ensures FreedOk(f, r.0, ppz) && (r.0.Freed? ==> r.0.gcBlock == -1 && r.0.flash.blocks[r.0.free].gcGeneration == 0)
    decreases fuel
  {
    var v := next(f.blocks);
    if v < 0 || v >= |f.blocks| then (Aborted(NoVictim), s)
    else
      var (m, out) := MovePagesBy(f, ppz, v, (bs: seq<Block>, lp: nat) => destOf(bs, s, lp));
      match out
      case Failed(e) => (Aborted(e), s)
      case Emptied =>
        FreedAfterMove(f, m, ppz, v, -1);
        (Freed(FreeAt(m, ppz, v), v, -1), s)
      case Blocked(d) =>
        if d == v then (Aborted(DestinationIsVictim), s)
        else
          var c := CompactAt(m, ppz, v);
          CompactAtSameMapped(m, ppz, v);
          var grp := m.blocks[d].group;
          var g := Retagged(c, ppz, v, c.blocks[v].(group := grp));
          if grp == -1 then (Aborted(UngroupedDestination), s)
          else
            var (s', accepted) := update(g.blocks, s, grp, v);
            if !accepted then (Aborted(GroupUpdateRefused), s')
            else if fuel == 0 then (Aborted(RoundLimit), s')
            else
              SameMappedChain(f, m, c);
              var r := GroupedRounds(g, ppz, s', next, destOf, update, Less(fuel));
              FreedOkChain(f, g, r.0, ppz);
              r
  }

  /**
    A victim with no valid page is freed in the first round of the second
    variant, and the policy state is not told: a GC head that the chooser
    names as the victim is freed while the policy still holds it as a head.
   */
  lemma GroupedIdleVictim<S>(f: Flash, ppz: nat, s: S, next: seq<Block> -> int,
                             destOf: (seq<Block>, S, nat) -> (int, int),
                             update: (seq<Block>, S, int, nat) -> (S, bool), fuel: nat)
    requires Ok(f, ppz) && 0 <= next(f.blocks) < |f.blocks| && f.blocks[next(f.blocks)].AllInvalid()
    ensures var v := next(f.blocks);
      GroupedRounds(f, ppz, s, next, destOf, update, fuel) == (Freed(FreeAt(f, ppz, v), v, -1), s)
  {
    MovePagesByIdle(f, ppz, next(f.blocks), (bs: seq<Block>, lp: nat) => destOf(bs, s, lp));
  }

  /** A destination chooser that, in no policy state, sends a page back to the given block. */
  ghost predicate NeverReturns<S(!new)>(destOf: (seq<Block>, S, nat) -> (int, int), v: int) {
    forall bs, s, lp :: destOf(bs, s, lp).0 != v
  }

  /**
    When the destination chooser never names a victim, a victim that keeps
    pages always has a full destination to report.
   */
  lemma {:induction false} GroupedRoundsSelfFree<S(!new)>(f: Flash, ppz: nat, s: S, next: seq<Block> -> int,
                                                     destOf: (seq<Block>, S, nat) -> (int, int),
                                                     update: (seq<Block>, S, int, nat) -> (S, bool), fuel: nat)
    requires Ok(f, ppz)
    requires forall bs :: NeverReturns(destOf, next(bs))
    ensures GroupedRounds(f, ppz, s, next, destOf, update, fuel).0 != Aborted(NoFullDestination)
    decreases fuel
  {
    var v := next(f.blocks);
    if 0 <= v < |f.blocks| {
      var dest := (bs: seq<Block>, lp: nat) => destOf(bs, s, lp);
      assert NeverReturns(destOf, v);
      assert NeverSelf(dest, v);
      MovePagesBySelfFree(f, ppz, v, dest);
      var (m, out) := MovePagesBy(f, ppz, v, dest);
      if out.Blocked? && out.full != v {
        var c := CompactAt(m, ppz, v);
        var grp := m.blocks[out.full].group;
        var g := Retagged(c, ppz, v, c.blocks[v].(group := grp));
        if grp != -1 {
          var (s', accepted) := update(g.blocks, s, grp, v);
          if accepted && fuel > 0 {
            GroupedRoundsSelfFree(g, ppz, s', next, destOf, update, Less(fuel));
          }
        }
      }
    }
  }

  // ---------------------------------------------------------------------------
  // compactUntilFreeBlock(victimBlockList)

  /**
    The chain loop of the third variant, for i from the given index down to
    1: compact list[i], then move the valid pages of list[i-1] into it.
    Blocks outside the list never change.
   */
  function Chain(f: Flash, ppz: nat, list: seq<nat>, i: nat): (r: Flash)
    requires Ok(f, ppz) && i < |list| && forall k :: 0 <= k < |list| ==> list[k] < |f.blocks|
    ensures Ok(r, ppz) && |r.blocks| == |f.blocks| && SameMapped(f, r) && r.age >= f.age
    decreases i
  {
    if i == 0 then f
    else
      var m := ChainStep(f, ppz, list[i], list[Less(i)]);
      var r := Chain(m, ppz, list, Less(i));
      SameMappedChain(f, m, r);
      r
  }

  /** Blocks outside the list never change along the chain. */
  lemma {:induction false} ChainFrame(f: Flash, ppz: nat, list: seq<nat>, i: nat, z: nat)
    requires Ok(f, ppz) && i < |list| && forall k :: 0 <= k < |list| ==> list[k] < |f.blocks|
    requires z < |f.blocks| && z !in list
    ensures Chain(f, ppz, list, i).blocks[z] == f.blocks[z]
    decreases i
  {
    if i > 0 {
      var m := ChainStep(f, ppz, list[i], list[Less(i)]);
      assert list[i] in list && list[Less(i)] in list;
      assert m.blocks[z] == f.blocks[z];
      ChainFrame(m, ppz, list, Less(i), z);
      assert Chain(f, ppz, list, i) == Chain(m, ppz, list, Less(i));
    }
  }

  /** One link of the chain: compact block `into`, then move the valid pages of `from` into it. */
  function ChainStep(f: Flash, ppz: nat, into: nat, from: nat): (m: Flash)
    requires Ok(f, ppz) && into < |f.blocks| && from < |f.blocks|
    ensures Ok(m, ppz) && |m.blocks| == |f.blocks| && SameMapped(f, m) && m.age >= f.age
    ensures forall z :: 0 <= z < |f.blocks| && z != into && z != from ==> m.blocks[z] == f.blocks[z]
  {
    var c := CompactAt(f, ppz, into);
    CompactAtEffects(f, ppz, into);
    var m := MovePages(c, ppz, from, into).0;
    SameMappedChain(f, c, m);
    m
  }

  /**
    The third variant: an empty list is an error; otherwise the chain runs
    from the last block down, and the first block, which must then hold no
    valid page, is erased (its generation is kept).
   */
  function ListReclaim(f: Flash, ppz: nat, list: seq<nat>): (r: Reclaimed)
    requires Ok(f, ppz) && forall k :: 0 <= k < |list| ==> list[k] < |f.blocks|
    ensures FreedOk(f, r, ppz)
    ensures r.Freed? <==> |list| > 0 && Chain(f, ppz, list, |list| - 1).blocks[list[0]].AllInvalid()
    ensures r.Freed? ==> r.free == list[0] && r.gcBlock == -1
    ensures |list| == 0 ==> r == Aborted(EmptyVictimList)
  {
    if |list| == 0 then Aborted(EmptyVictimList)
    else
      var m := Chain(f, ppz, list, |list| - 1);
      if !m.blocks[list[0]].AllInvalid() then Aborted(NotErasable)
      else Freed(EraseAt(m, ppz, list[0]), list[0], -1)
  }
}
