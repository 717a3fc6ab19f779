/**
  The greedy victim scans shared by the GC policies: singleGreedy,
  singleGreedyGeneration (GenerationalGC) and singleGreedyGroup (TwoAGC).
  Each walks the blocks in index order and keeps the first fully written
  block whose valid count is strictly below the best seen so far, among the
  blocks its filter admits.  The scan is a loop (ScanMin) proved against the
  recursive definition MinValid, whose meaning is proved once in MinValidIsMin.
 */
module Victims {
  import opened Blocks

  /** Which fully written blocks a scan admits. */
  datatype Filter =
    | AnyFull               // singleGreedy
    | Generation(gen: int)  // singleGreedyGeneration: this GC generation, and not all pages valid
    | Group(group: int)     // singleGreedyGroup: this group, or no group yet

  predicate Passes(b: Block, filter: Filter) {
    b.FullyWritten() &&
    match filter
    case AnyFull => true
    case Generation(g) => b.gcGeneration == g && !b.AllValid()
    case Group(g) => b.group == g || b.group == -1
  }

  /**
    The scan over the first n blocks: the index it holds after them, -1
    while no admitted block has been seen.  A later block replaces the held
    one only with a strictly smaller valid count.
   */
  function MinValid(bs: seq<Block>, filter: Filter, n: nat): (r: int)
    requires n <= |bs|
    ensures -1 <= r < n
    ensures r != -1 ==> Passes(bs[r], filter)
    decreases n
  {
    if n == 0 then -1
    else
      var r := MinValid(bs, filter, Less(n));
      var i := Less(n);
      if Passes(bs[i], filter) && (r == -1 || bs[i].validCnt < bs[r].validCnt) then i else r
  }

  /**
    What the scan finds: -1 exactly when no block among the first n is
    admitted; otherwise an admitted block with the smallest valid count,
    strictly smaller than that of every admitted block before it (the lowest
    index wins a tie).
   */
  lemma {:induction false} MinValidIsMin(bs: seq<Block>, filter: Filter, n: nat)
    requires n <= |bs|
    ensures var r := MinValid(bs, filter, n);
      (r == -1 <==> forall i :: 0 <= i < n ==> !Passes(bs[i], filter)) &&
      (r != -1 ==> forall i :: 0 <= i < n && Passes(bs[i], filter) ==> bs[r].validCnt <= bs[i].validCnt) &&
      (r != -1 ==> forall i :: 0 <= i < r && Passes(bs[i], filter) ==> bs[r].validCnt < bs[i].validCnt)
    decreases n
  {
    if n > 0 {
      MinValidIsMin(bs, filter, Less(n));
    }
  }

  /** The scanning loop of the three source functions. */
  method ScanMin(bs: seq<Block>, filter: Filter) returns (minIdx: int)
    ensures minIdx == MinValid(bs, filter, |bs|)
  {
    minIdx := -1;
    var i := 0;
    while i < |bs|
      invariant i <= |bs| && minIdx == MinValid(bs, filter, i)
    {
      if Passes(bs[i], filter) && (minIdx == -1 || bs[i].validCnt < bs[minIdx].validCnt) {
        minIdx := i;
      }
      i := i + 1;
      assert Less(i) == i - 1;
    }
  }

  /**
    The scan followed by the source's fatal check: a chosen block all of
    whose pages are valid raises a signal, answered here by -1, as is an
    empty choice.
   */
  function Greedy(bs: seq<Block>, filter: Filter): (r: int)
    ensures -1 <= r < |bs|
  {
    var m := MinValid(bs, filter, |bs|);
    if m != -1 && bs[m].AllValid() then -1 else m
  }

  /**
    A greedy choice is an admitted block with free room to gain (not all
    valid), minimal in valid count and the first such; with equally sized,
    well-formed blocks, -1 comes back exactly when every admitted block is
    all valid.
   */
  lemma GreedyPicks(bs: seq<Block>, filter: Filter)
    requires forall i :: 0 <= i < |bs| ==> bs[i].validCnt <= |bs[i].ptl|
    requires forall i, j :: 0 <= i < |bs| && 0 <= j < |bs| ==> |bs[i].ptl| == |bs[j].ptl|
    ensures var r := Greedy(bs, filter);
      (r == -1 <==> forall i :: 0 <= i < |bs| && Passes(bs[i], filter) ==> bs[i].AllValid()) &&
      (r != -1 ==> Passes(bs[r], filter) && !bs[r].AllValid()) &&
      (r != -1 ==> forall i :: 0 <= i < |bs| && Passes(bs[i], filter) ==> bs[r].validCnt <= bs[i].validCnt) &&
      (r != -1 ==> forall i :: 0 <= i < r && Passes(bs[i], filter) ==> bs[r].validCnt < bs[i].validCnt)
  {
    MinValidIsMin(bs, filter, |bs|);
  }

  /** The scan and the fatal check, as the source runs them. */
  method GreedyScan(bs: seq<Block>, filter: Filter) returns (r: int)
    ensures r == Greedy(bs, filter)
  {
    r := ScanMin(bs, filter);
    if r != -1 && bs[r].AllValid() {
      r := -1;
    }
  }
}
