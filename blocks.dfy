/**
  Physical erase blocks ("zones") of the simulated flash device.

  A block is a fixed number of page slots written strictly in order.  Each
  slot holds the logical page id stored there, or Unused.  A block accepts
  writes while its write position is below its slot count; it is reset as a
  whole by erase, or repacked in place by compaction.
 */
module Blocks {
  /**
    One less than a positive budget or index.  Recursive definitions step
    down with it and the loops that follow them assign it, so both name the
    same term.
   */
  function Less(n: nat): (m: nat)
    requires n > 0
    ensures m + 1 == n
  {
    n - 1
  }


  /** The "unused" slot marker (the source uses the all-ones 64-bit value). */
  const Unused: int := -1

  /** Number of used slots in s, counted from the back so that it follows a left-to-right scan. */
  function CountUsed(s: seq<int>): (n: nat)
    ensures n <= |s|
  {
    if s == [] then 0 else CountUsed(s[..|s| - 1]) + (if s[|s| - 1] != Unused then 1 else 0)
  }

  /** The used slots of s, in slot order. */
  function Survivors(s: seq<int>): (r: seq<int>)
    ensures |r| == CountUsed(s)
  {
    if s == [] then [] else Survivors(s[..|s| - 1]) + (if s[|s| - 1] != Unused then [s[|s| - 1]] else [])
  }

  /** n unused slots. */
  function Blank(n: nat): (r: seq<int>)
    ensures |r| == n && forall i :: 0 <= i < n ==> r[i] == Unused
  {
    seq(n, _ => Unused)
  }

  /** The slot vector after compaction: survivors at the front, the rest unused. */
  function Packed(s: seq<int>): seq<int>
  {
    Survivors(s) + Blank(|s| - |Survivors(s)|)
  }

  datatype Block = Block(
    ptl: seq<int>,        // slot -> logical page id, or Unused
    writePos: nat,        // next slot to be written
    validCnt: nat,        // number of used slots
    eraseCount: nat,
    gcAge: int,
    gcGeneration: int,
    group: int,           // policy tag, -1 until the first write after erase
    writtenByGc: bool)
  {
    predicate CanWrite() { writePos < |ptl| }
    /** The bookkeeping tags other than the group agree (erase count, age, generation, GC flag). */
    predicate SameTags(b: Block) {
      eraseCount == b.eraseCount && gcAge == b.gcAge && gcGeneration == b.gcGeneration &&
      writtenByGc == b.writtenByGc
    }
    predicate FullyWritten() { writePos == |ptl| }
    predicate AllValid() { validCnt == |ptl| }
    predicate AllInvalid() { validCnt == 0 }
    predicate IsErased() { writePos == 0 }

    /** Block invariant: slots at and after the write position are unused,
        and the valid count is the number of used slots. */
    ghost predicate Wf() {
      writePos <= |ptl| &&
      (forall i :: writePos <= i < |ptl| ==> ptl[i] == Unused) &&
      (forall i :: 0 <= i < |ptl| ==> ptl[i] >= Unused) &&
      validCnt == CountUsed(ptl)
    }

    /** Block::write: stores lp at the write position and returns that position. */
    function Write(lp: nat): (r: (Block, nat))
      requires Wf() && CanWrite()
      ensures r.1 == writePos && r.0.writePos == writePos + 1
      ensures r.0.validCnt == validCnt + 1
      ensures |r.0.ptl| == |ptl| && r.0.ptl[r.1] == lp
      ensures forall i :: 0 <= i < |ptl| && i != r.1 ==> r.0.ptl[i] == ptl[i]
      ensures r.0.Wf()
      ensures r.0.group == group && r.0.gcGeneration == gcGeneration && r.0.writtenByGc == writtenByGc
      ensures r.0.eraseCount == eraseCount && r.0.gcAge == gcAge
    {
      CountUsedUpdate(ptl, writePos, lp);
      (this.(ptl := ptl[writePos := lp], writePos := writePos + 1, validCnt := validCnt + 1), writePos)
    }

    /** Block::setUnused: clears a used slot. */
    function SetUnused(pos: nat): (b: Block)
      requires Wf() && pos < |ptl| && ptl[pos] != Unused
      ensures b.validCnt + 1 == validCnt
      ensures |b.ptl| == |ptl| && b.ptl[pos] == Unused
      ensures forall i :: 0 <= i < |ptl| && i != pos ==> b.ptl[i] == ptl[i]
      ensures b.Wf()
      ensures b.writePos == writePos && b.group == group && b.gcGeneration == gcGeneration
      ensures b.writtenByGc == writtenByGc && b.eraseCount == eraseCount && b.gcAge == gcAge
    {
      CountUsedUpdate(ptl, pos, Unused);
      this.(ptl := ptl[pos := Unused], validCnt := validCnt - 1)
    }

    /** Block::erase: every slot unused, counters reset, erase count bumped. */
    function Erase(age: int): (b: Block)
      ensures b.Wf() && b.IsErased() && b.AllInvalid()
      ensures |b.ptl| == |ptl| && forall i :: 0 <= i < |ptl| ==> b.ptl[i] == Unused
      ensures b.group == -1 && !b.writtenByGc
      ensures b.eraseCount == eraseCount + 1 && b.gcAge == age && b.gcGeneration == gcGeneration
    {
      CountUsedBlank(|ptl|);
      this.(ptl := Blank(|ptl|), writePos := 0, validCnt := 0, eraseCount := eraseCount + 1,
            gcAge := age, writtenByGc := false, group := -1)
    }
  }

  /** A block fresh from the constructor: all slots unused. */
  function NewBlock(pagesPerZone: nat): (b: Block)
    ensures b.Wf() && b.IsErased() && b.AllInvalid() && |b.ptl| == pagesPerZone
    ensures b.group == -1 && b.gcGeneration == 0 && b.eraseCount == 0 && !b.writtenByGc
  {
    CountUsedBlank(pagesPerZone);
    Block(Blank(pagesPerZone), 0, 0, 0, -1, 0, -1, false)
  }

  // ---------------------------------------------------------------------------
  // Counting lemmas

  lemma {:induction false} CountUsedBlank(n: nat)
    ensures CountUsed(Blank(n)) == 0
  {
    if n > 0 {
      assert Blank(n)[..n - 1] == Blank(n - 1);
      CountUsedBlank(n - 1);
    }
  }

  /** Overwriting one slot changes the count by the change in that slot's use. */
  lemma {:induction false} CountUsedUpdate(s: seq<int>, i: nat, x: int)
    requires i < |s|
    ensures CountUsed(s[i := x]) ==
      CountUsed(s) - (if s[i] != Unused then 1 else 0) + (if x != Unused then 1 else 0)
  {
    var t := s[i := x];
    if i == |s| - 1 {
      assert t[..|t| - 1] == s[..|s| - 1];
    } else {
      assert t[..|t| - 1] == s[..|s| - 1][i := x];
      CountUsedUpdate(s[..|s| - 1], i, x);
    }
  }

  /** A slot vector with no used slot has count 0 and conversely. */
  lemma {:induction false} CountUsedZero(s: seq<int>)
    ensures CountUsed(s) == 0 <==> forall i :: 0 <= i < |s| ==> s[i] == Unused
  {
    if s != [] {
      CountUsedZero(s[..|s| - 1]);
      if CountUsed(s) == 0 {
        forall i | 0 <= i < |s| ensures s[i] == Unused {
          if i < |s| - 1 { assert s[i] == s[..|s| - 1][i]; }
        }
      }
    }
  }

  /** The survivors are exactly the used slots: no Unused among them, and x survives iff x is a used slot. */
  lemma {:induction false} SurvivorsMembers(s: seq<int>)
    ensures forall k :: 0 <= k < |Survivors(s)| ==> Survivors(s)[k] != Unused
    ensures forall x :: x in Survivors(s) <==> x != Unused && x in s
  {
    if s != [] {
      var init := s[..|s| - 1];
      SurvivorsMembers(init);
      assert s == init + [s[|s| - 1]];
    }
  }

  lemma {:induction false} SurvivorsAppend(s: seq<int>, x: int)
    ensures Survivors(s + [x]) == Survivors(s) + (if x != Unused then [x] else [])
  {
    assert (s + [x])[..|s + [x]| - 1] == s;
  }

  /** Survivors of a slot vector whose used slots already form a prefix are that prefix. */
  lemma {:induction false} SurvivorsOfPrefixed(s: seq<int>, w: nat)
    requires w <= |s|
    requires forall i :: 0 <= i < w ==> s[i] != Unused
    requires forall i :: w <= i < |s| ==> s[i] == Unused
    ensures Survivors(s) == s[..w]
  {
    if |s| > 0 {
      var init := s[..|s| - 1];
      if w == |s| {
        SurvivorsOfPrefixed(init, w - 1);
        assert init[..w - 1] + [s[|s| - 1]] == s[..w];
      } else {
        SurvivorsOfPrefixed(init, w);
        assert init[..w] == s[..w];
      }
    }
  }

  /** Compaction is idempotent: repacking a packed vector changes nothing. */
  lemma PackedIdempotent(s: seq<int>)
    ensures Packed(Packed(s)) == Packed(s)
  {
    var w := |Survivors(s)|;
    SurvivorsMembers(s);
    var p := Packed(s);
    assert |p| == |s|;
    assert forall i :: 0 <= i < w ==> p[i] == Survivors(s)[i];
    SurvivorsOfPrefixed(p, w);
    assert p[..w] == Survivors(s);
  }

  /** Compaction keeps exactly the logical pages that were stored, in the same order,
      and the number of them is the valid count. */
  lemma PackedKeepsPages(b: Block)
    requires b.Wf()
    ensures |Packed(b.ptl)| == |b.ptl|
    ensures Packed(b.ptl)[..b.validCnt] == Survivors(b.ptl)
    ensures forall x :: x != Unused ==> (x in Packed(b.ptl) <==> x in b.ptl)
  {
    SurvivorsMembers(b.ptl);
    var p := Packed(b.ptl);
    assert p[..b.validCnt] == Survivors(b.ptl);
    forall x | x != Unused ensures x in p <==> x in b.ptl {
      if x in p {
        var i :| 0 <= i < |p| && p[i] == x;
        assert i < b.validCnt;
        assert x in Survivors(b.ptl);
      }
      if x in b.ptl {
        assert x in Survivors(b.ptl);
        var k :| 0 <= k < |Survivors(b.ptl)| && Survivors(b.ptl)[k] == x;
        assert p[k] == x;
      }
    }
  }

  /**
    The block compaction leaves behind: the used slots packed to the front in
    their original order, every other slot unused, the write position right
    after the last used slot, one more erase, a fresh age and the GC flag set.
   */
  function Compacted(b: Block, age: int): (r: Block)
    requires b.Wf()
    ensures r.Wf() && |r.ptl| == |b.ptl| && r.writePos == r.validCnt == b.validCnt
    ensures r.ptl[..r.writePos] == Survivors(b.ptl)
    ensures forall x :: x != Unused ==> (x in r.ptl <==> x in b.ptl)
    ensures r.eraseCount == b.eraseCount + 1 && r.gcAge == age && r.writtenByGc
    ensures r.gcGeneration == b.gcGeneration && r.group == b.group
  {
    PackedKeepsPages(b);
    PackedShape(b, Packed(b.ptl), b.validCnt);
    b.(ptl := Packed(b.ptl), writePos := b.validCnt, eraseCount := b.eraseCount + 1,
       gcAge := age, writtenByGc := true)
  }

  /** One step of the compaction scan keeps "front == survivors of the scanned prefix". */
  lemma CompactStep(orig: seq<int>, ptl: seq<int>, w: nat, p: nat)
    requires |ptl| == |orig| && w <= p < |orig|
    requires ptl[..w] == Survivors(orig[..p]) && ptl[p..] == orig[p..]
    ensures var ptl' := if orig[p] != Unused then ptl[w := orig[p]] else ptl;
            var w' := if orig[p] != Unused then w + 1 else w;
            |ptl'| == |orig| && w' <= p + 1 &&
            ptl'[..w'] == Survivors(orig[..p + 1]) && ptl'[p + 1..] == orig[p + 1..]
  {
    assert orig[..p + 1] == orig[..p] + [orig[p]];
    SurvivorsAppend(orig[..p], orig[p]);
    assert ptl[p] == orig[p];
    if orig[p] != Unused {
      var ptl' := ptl[w := orig[p]];
      assert ptl'[..w] == ptl[..w];
      assert ptl'[..w + 1] == ptl'[..w] + [ptl'[w]];
      assert ptl'[p + 1..] == ptl[p + 1..];
    }
    assert ptl[p + 1..] == ptl[p..][1..];
    assert orig[p + 1..] == orig[p..][1..];
  }

  /**
    Block::compactNoMappingUpdate: packs the used slots to the front in their
    original order, fills the rest with Unused, and makes the block a
    GC-written block with a fresh age.
   */
  method CompactNoMappingUpdate(b: Block, age: int) returns (r: Block)
    requires b.Wf()
    ensures r == Compacted(b, age)
  {
    var ptl := b.ptl;
    var n := |ptl|;
    var w := 0;
    for p := 0 to n
      invariant |ptl| == n && w <= p
      invariant ptl[..w] == Survivors(b.ptl[..p])
      invariant ptl[p..] == b.ptl[p..]
    {
      CompactStep(b.ptl, ptl, w, p);
      if ptl[p] != Unused {
        ptl := ptl[w := ptl[p]];
        w := w + 1;
      }
    }
    assert b.ptl[..n] == b.ptl;
    var front := ptl[..w];
    for i := w to n
      invariant |ptl| == n
      invariant ptl[..w] == front
      invariant forall j :: w <= j < i ==> ptl[j] == Unused
    {
      ptl := ptl[i := Unused];
    }
    PackedShape(b, ptl, w);
    PackedKeepsPages(b);
    r := b.(ptl := ptl, writePos := w, validCnt := w, eraseCount := b.eraseCount + 1,
            gcAge := age, writtenByGc := true);
  }

  lemma PackedShape(b: Block, ptl: seq<int>, w: nat)
    requires b.Wf() && |ptl| == |b.ptl| && w <= |ptl|
    requires ptl[..w] == Survivors(b.ptl)
    requires forall j :: w <= j < |ptl| ==> ptl[j] == Unused
    ensures ptl == Packed(b.ptl) && w == b.validCnt
    ensures CountUsed(ptl) == w
    ensures forall i :: 0 <= i < |ptl| ==> ptl[i] >= Unused
  {
    SurvivorsMembers(b.ptl);
    assert ptl == ptl[..w] + ptl[w..];
    assert ptl == Packed(b.ptl);
    forall i | 0 <= i < w ensures ptl[i] != Unused && ptl[i] in b.ptl {
      assert ptl[i] == Survivors(b.ptl)[i];
      assert ptl[i] in Survivors(b.ptl);
    }
    SurvivorsOfPrefixed(ptl, w);
  }
}
