/**
  DTE, the death-time-estimation policy.  Every logical page keeps the
  timestamps of its last eight host writes; its estimated death time is its
  last write plus the mean interval between those writes.  Host writes are
  collected until a block's worth is buffered, then sorted by estimated
  death time and split into four groups of similar death time, each group
  written to the writable blocks whose own estimated death time is lowest.
  All arithmetic is on 64-bit unsigned integers and wraps around, written
  out here with `% U64`.
 */
module Deathtime {
  import opened Blocks
  import opened Ftl
  import opened Ssd
  import opened PairSort
  import opened Wear
  import opened DteState
  import Mapping
  import Lru

  /** The number of timestamps kept per logical page. */
  const MaxHistory: nat := 8
  /** The number of death-time groups a flush is split into. */
  const GroupCount: nat := 4

  function Min(a: nat, b: nat): nat { if a < b then a else b }

  /** A history the policy can hold: at most MaxHistory stamps, each a 64-bit value. */
  predicate HistoryOk(h: seq<nat>) {
    |h| <= MaxHistory && forall k :: 0 <= k < |h| ==> h[k] < U64
  }

  // ---------------------------------------------------------------------------
  // write history and death-time estimate

  /**
    A page's history after a write at time t: t is appended and, when the
    history is already full, its oldest stamp drops out.  The result is the
    most recent stamps of the old history followed by t.
   */
  function Recorded(h: seq<nat>, t: nat): (r: seq<nat>)
    ensures |h| < MaxHistory ==> |r| == |h| + 1
    ensures |h| == MaxHistory ==> |r| == MaxHistory
    ensures 1 <= |r| <= |h| + 1 && r[|r| - 1] == t && r[..|r| - 1] == h[|h| - (|r| - 1)..]
    ensures HistoryOk(h) && t < U64 ==> HistoryOk(r)
  {
    var kept := if |h| >= MaxHistory then h[1..] else h;
    assert (kept + [t])[..|kept|] == kept;
    kept + [t]
  }

  /** The number of most recent stamps the estimate looks at. */
  function Window(h: seq<nat>): nat { Min(|h|, MaxHistory) }

  /**
    estimateDeathTime in closed form: with fewer than two stamps, the last
    one; otherwise the last stamp plus the wrapped distance from the oldest
    stamp of the window to the last, divided by the number of intervals.
   */
  function DeathTime(h: seq<nat>): (r: nat)
    requires |h| > 0
    ensures HistoryOk(h) ==> r < U64
  {
    if |h| < 2 then h[|h| - 1]
    else
      var c := Window(h);
      var last := h[|h| - 1];
      (last + ((last - h[|h| - c]) % U64) / (c - 1)) % U64
  }

  /** Wrapped subtraction composes: the distance a to c is the distance a to b plus b to c. */
  lemma WrapSub(a: int, b: int, c: int)
    ensures ((a - b) % U64 + (b - c) % U64) % U64 == (a - c) % U64
  {
    var x, y := a - b, b - c;
    var qx, qy := x / U64, y / U64;
    assert x == qx * U64 + x % U64;
    assert y == qy * U64 + y % U64;
    assert x % U64 + y % U64 == (x + y) - (qx + qy) * U64;
    ModShift(x + y, qx + qy);
  }

  lemma ModShift(z: int, k: int)
    ensures (z - k * U64) % U64 == z % U64
  {
    var w := z - k * U64;
    assert w == (w / U64) * U64 + w % U64;
    assert z == (w / U64 + k) * U64 + w % U64;
    DivUnique(z, w / U64 + k, w % U64);
  }

  /** Euclidean division has one quotient and remainder. */
  lemma DivUnique(z: int, q: int, r: int)
    requires z == q * U64 + r && 0 <= r < U64
    ensures z % U64 == r
  {
    var q', r' := z / U64, z % U64;
    assert z == q' * U64 + r';
    assert (q - q') * U64 == r' - r;
  }

  /**
    DTE::estimateDeathTime with the source's loop, walking back from the last
    stamp and summing the wrapped intervals of the window.  An empty history
    is excluded: the source reads its last element.
   */
  method EstimateDeathTime(h: seq<nat>) returns (r: nat)
    requires |h| > 0
    ensures r == DeathTime(h)
  {
    var n := |h|;
    if n < 2 {
      return h[n - 1];
    }
    var count := Window(h);
    var total := SumIntervals(h, count);
    r := (h[n - 1] + total / (count - 1)) % U64;
  }

  /** The interval loop of estimateDeathTime: the wrapped intervals between the last count stamps, summed with wrap-around. */
  method SumIntervals(h: seq<nat>, count: nat) returns (total: nat)
    requires 1 <= count <= |h|
    ensures total == (h[|h| - 1] - h[|h| - count]) % U64
  {
    var n := |h|;
    total := 0;
    var i := 0;
    while i < count - 1
      invariant 0 <= i <= count - 1
      invariant total == (h[n - 1] - h[n - 1 - i]) % U64
    {
      WrapSub(h[n - 1], h[n - 1 - i], h[n - 2 - i]);
      total := (total + (h[n - 1 - i] - h[n - 2 - i]) % U64) % U64;
      i := i + 1;
    }
  }

  /** The intervals between consecutive stamps from index lo onwards, summed exactly. */
  ghost function Gaps(h: seq<nat>, lo: nat): int
    decreases |h| - lo
  {
    if lo + 1 >= |h| then 0 else (h[lo + 1] - h[lo]) + Gaps(h, lo + 1)
  }

  /** The intervals telescope to the distance from h[lo] to the last stamp. */
  lemma {:induction false} GapsTelescope(h: seq<nat>, lo: nat)
    requires lo < |h|
    ensures Gaps(h, lo) == h[|h| - 1] as int - h[lo]
    decreases |h| - lo
  {
    if lo + 1 < |h| {
      GapsTelescope(h, lo + 1);
    }
  }

  /**
    What the estimate means: for a history in time order, the last stamp
    plus the mean (rounded down) of the intervals between the stamps of the
    window, wrapped to 64 bits.
   */
  lemma DeathTimeIsMeanGap(h: seq<nat>)
    requires 2 <= |h| && HistoryOk(h)
    requires forall i, j :: 0 <= i <= j < |h| ==> h[i] <= h[j]
    ensures DeathTime(h) == (h[|h| - 1] + Gaps(h, |h| - Window(h)) / (Window(h) - 1)) % U64
  {
    var c := Window(h);
    GapsTelescope(h, |h| - c);
    var d := h[|h| - 1] - h[|h| - c];
    assert 0 <= d < U64;
    DivUnique(d, 0, d);
  }

  // ---------------------------------------------------------------------------
  // flushing: sorting by death time and splitting into groups

  /** The (estimated death time, page) pairs of a flush, in buffer order. */
  function Estimates(hist: seq<seq<nat>>, pages: seq<nat>): (r: seq<Pair>)
    requires forall i :: 0 <= i < |pages| ==> pages[i] < |hist| && |hist[pages[i]]| > 0
  {
    seq(|pages|, i requires 0 <= i < |pages| => (DeathTime(hist[pages[i]]), pages[i]))
  }

  /** The order in which a flush hands pages to the groups. */
  function FlushOrder(hist: seq<seq<nat>>, pages: seq<nat>): seq<nat>
    requires forall i :: 0 <= i < |pages| ==> pages[i] < |hist| && |hist[pages[i]]| > 0
  {
    Ids(Sort(Estimates(hist, pages)))
  }

  /**
    A flush hands out every buffered page exactly as often as it is
    buffered, in order of estimated death time (the page id breaks ties).
   */
  lemma FlushOrderSorted(hist: seq<seq<nat>>, pages: seq<nat>)
    requires forall i :: 0 <= i < |pages| ==> pages[i] < |hist| && |hist[pages[i]]| > 0
    ensures var order := FlushOrder(hist, pages);
      forall i :: 0 <= i < |order| ==> order[i] < |hist| && |hist[order[i]]| > 0
    ensures var order := FlushOrder(hist, pages);
      multiset(order) == multiset(pages) &&
      forall i, j :: 0 <= i < j < |order| ==>
        DeathTime(hist[order[i]]) < DeathTime(hist[order[j]]) ||
        (DeathTime(hist[order[i]]) == DeathTime(hist[order[j]]) && order[i] <= order[j])
  {
    var e := Estimates(hist, pages);
    var s := Sort(e);
    IdsPerm(Sort(e), e);
    assert Ids(e) == pages;
    forall i | 0 <= i < |s| ensures s[i].1 < |hist| && |hist[s[i].1]| > 0 && s[i].0 == DeathTime(hist[s[i].1]) {
      assert s[i] in multiset(e);
      var k :| 0 <= k < |e| && e[k] == s[i];
    }
  }

  /** The part of FlushOrderSorted a flush needs: as many pages as buffered, each a page with a history. */
  lemma FlushOrderWithin(hist: seq<seq<nat>>, pages: seq<nat>)
    requires forall i :: 0 <= i < |pages| ==> pages[i] < |hist| && |hist[pages[i]]| > 0
    ensures var order := FlushOrder(hist, pages);
      |order| == |pages| && forall i :: 0 <= i < |order| ==> order[i] < |hist|
  {
    FlushOrderSorted(hist, pages);
    assert |multiset(FlushOrder(hist, pages))| == |multiset(pages)|;
  }

  /** Group g of a flush: entries [g*size, (g+1)*size) of the order, cut at its end. */
  function Chunk(s: seq<nat>, g: nat, size: nat): (r: seq<nat>)
  {
    s[Min(g * size, |s|)..Min(g * size + size, |s|)]
  }

  /**
    With the source's group size, the ceiling of a quarter, the four groups
    are consecutive, none longer than the group size, and together they are
    the whole order: every page goes to exactly one group.
   */
  lemma ChunksCover(s: seq<nat>)
    ensures var size := (|s| + GroupCount - 1) / GroupCount;
      Chunk(s, 0, size) + Chunk(s, 1, size) + Chunk(s, 2, size) + Chunk(s, 3, size) == s &&
      forall g :: 0 <= g < GroupCount ==> |Chunk(s, g, size)| <= size
  {
    var size := (|s| + GroupCount - 1) / GroupCount;
    assert Groups(s, 0, size) == [];
    GroupsStep(s, 0, size);
    GroupsStep(s, 1, size);
    GroupsStep(s, 2, size);
    GroupsStep(s, 3, size);
    GroupsCover(s);
  }

  /** The loop of flushPages that copies out one group's pages. */
  method ChunkOf(sorted: seq<Pair>, g: nat, size: nat) returns (pages: seq<nat>)
    ensures pages == Chunk(Ids(sorted), g, size)
  {
    pages := [];
    var i := g * size;
    while i < g * size + size && i < |sorted|
      invariant g * size <= i <= g * size + size
      invariant i > g * size ==> i <= |sorted|
      invariant pages == Ids(sorted)[Min(g * size, |sorted|)..Min(i, |sorted|)]
    {
      pages := pages + [sorted[i].1];
      i := i + 1;
    }
  }

  // ---------------------------------------------------------------------------
  // choosing blocks for a group

  /** The writable blocks among the first n, as (death time, id) pairs in id order. */
  function Writable(bs: seq<Block>, edt: seq<nat>, n: nat): (r: seq<Pair>)
    requires n <= |bs| && |edt| == |bs|
    decreases n
  {
    if n == 0 then []
    else Writable(bs, edt, Less(n)) + (if bs[Less(n)].CanWrite() then [(edt[Less(n)], Less(n))] else [])
  }

  /** Each writable block among the first n appears once, with its death time; nothing else appears. */
  lemma {:induction false} WritableCount(bs: seq<Block>, edt: seq<nat>, n: nat, p: Pair)
    requires n <= |bs| && |edt| == |bs|
    ensures multiset(Writable(bs, edt, n))[p] == if p.1 < n && bs[p.1].CanWrite() && p.0 == edt[p.1] then 1 else 0
    decreases n
  {
    if n > 0 {
      WritableCount(bs, edt, Less(n), p);
    }
  }

  /**
    selectBlocksForGroup: the writable blocks sorted by estimated death time,
    the first GroupCount of them.  The source's sort compares death times
    only, leaving the order among equal ones open; here the block id
    breaks ties.
   */
  function SelectBlocks(bs: seq<Block>, edt: seq<nat>): (r: seq<nat>)
    requires |edt| == |bs|
  {
    var s := Ids(Sort(Writable(bs, edt, |bs|)));
    s[..Min(GroupCount, |s|)]
  }

  /** Two equal entries of a sequence count twice. */
  lemma TwiceCounted(s: seq<Pair>, i: nat, j: nat)
    requires i < j < |s| && s[i] == s[j]
    ensures multiset(s)[s[i]] >= 2
  {
    assert s == s[..j] + [s[j]] + s[j + 1..];
    assert s[i] in s[..j];
  }

  /**
    The sorted writable list: each entry is a writable block with its death
    time, no block appears twice, and every writable block appears.
   */
  lemma SortedWritable(bs: seq<Block>, edt: seq<nat>)
    requires |edt| == |bs|
    ensures var s := Sort(Writable(bs, edt, |bs|));
      (forall i :: 0 <= i < |s| ==> s[i].1 < |bs| && bs[s[i].1].CanWrite() && s[i].0 == edt[s[i].1]) &&
      (forall i, j :: 0 <= i < j < |s| ==> s[i].1 != s[j].1) &&
      (forall z :: 0 <= z < |bs| && bs[z].CanWrite() ==> exists k :: 0 <= k < |s| && s[k].1 == z)
  {
    var s := Sort(Writable(bs, edt, |bs|));
    EntriesWritable(bs, edt, s);
    EntriesDistinct(bs, edt, s);
    WritableListed(bs, edt, s);
  }

  lemma EntriesWritable(bs: seq<Block>, edt: seq<nat>, s: seq<Pair>)
    requires |edt| == |bs| && multiset(s) == multiset(Writable(bs, edt, |bs|))
    ensures forall i :: 0 <= i < |s| ==> s[i].1 < |bs| && bs[s[i].1].CanWrite() && s[i].0 == edt[s[i].1]
  {
    forall i | 0 <= i < |s| ensures s[i].1 < |bs| && bs[s[i].1].CanWrite() && s[i].0 == edt[s[i].1] {
      WritableCount(bs, edt, |bs|, s[i]);
      assert s[i] in multiset(s);
    }
  }

  lemma EntriesDistinct(bs: seq<Block>, edt: seq<nat>, s: seq<Pair>)
    requires |edt| == |bs| && multiset(s) == multiset(Writable(bs, edt, |bs|))
    requires forall i :: 0 <= i < |s| ==> s[i].1 < |bs| && s[i].0 == edt[s[i].1]
    ensures forall i, j :: 0 <= i < j < |s| ==> s[i].1 != s[j].1
  {
    forall i, j | 0 <= i < j < |s| ensures s[i].1 != s[j].1 {
      if s[i].1 == s[j].1 {
        assert s[i] == s[j];
        TwiceCounted(s, i, j);
        WritableCount(bs, edt, |bs|, s[i]);
      }
    }
  }

  lemma WritableListed(bs: seq<Block>, edt: seq<nat>, s: seq<Pair>)
    requires |edt| == |bs| && multiset(s) == multiset(Writable(bs, edt, |bs|))
    ensures forall z :: 0 <= z < |bs| && bs[z].CanWrite() ==> exists k :: 0 <= k < |s| && s[k].1 == z
  {
    forall z | 0 <= z < |bs| && bs[z].CanWrite() ensures exists k :: 0 <= k < |s| && s[k].1 == z {
      WritableCount(bs, edt, |bs|, (edt[z], z));
      assert (edt[z], z) in multiset(s);
      var k :| 0 <= k < |s| && s[k] == (edt[z], z);
    }
  }

  /**
    What a selection holds: distinct writable blocks, at most GroupCount of
    them and fewer only when fewer are writable, in order of death time, and
    no writable block left out dies sooner than a selected one.
   */
  lemma SelectBlocksPicks(bs: seq<Block>, edt: seq<nat>)
    requires |edt| == |bs|
    ensures var r := SelectBlocks(bs, edt);
      |r| <= GroupCount && Lru.NoDup(r) &&
      (forall i :: 0 <= i < |r| ==> r[i] < |bs| && bs[r[i]].CanWrite()) &&
      (forall i, j :: 0 <= i < j < |r| ==> edt[r[i]] <= edt[r[j]]) &&
      (forall z :: 0 <= z < |bs| && bs[z].CanWrite() && z !in r ==>
        |r| == GroupCount && forall i :: 0 <= i < |r| ==> edt[r[i]] <= edt[z]) &&
      (r == [] <==> forall z :: 0 <= z < |bs| ==> !bs[z].CanWrite())
  {
    var s := Sort(Writable(bs, edt, |bs|));
    var r := SelectBlocks(bs, edt);
    SortedWritable(bs, edt);
    SelectBlocksUnfold(bs, edt);
    PrefixOrdered(bs, edt, s, r);
    PrefixSoonest(bs, edt, s, r);
  }

  lemma SelectBlocksUnfold(bs: seq<Block>, edt: seq<nat>)
    requires |edt| == |bs|
    ensures var s := Sort(Writable(bs, edt, |bs|));
      var r := SelectBlocks(bs, edt);
      Sorted(s) && |r| == Min(GroupCount, |s|) && forall i :: 0 <= i < |r| ==> r[i] == s[i].1
  {
  }

  /** The first GroupCount ids of a sorted list of distinct writable blocks are distinct, writable and ordered. */
  lemma PrefixOrdered(bs: seq<Block>, edt: seq<nat>, s: seq<Pair>, r: seq<nat>)
    requires |edt| == |bs| && Sorted(s)
    requires |r| == Min(GroupCount, |s|) && forall i :: 0 <= i < |r| ==> r[i] == s[i].1
    requires forall i :: 0 <= i < |s| ==> s[i].1 < |bs| && bs[s[i].1].CanWrite() && s[i].0 == edt[s[i].1]
    requires forall i, j :: 0 <= i < j < |s| ==> s[i].1 != s[j].1
    ensures |r| <= GroupCount && Lru.NoDup(r)
    ensures forall i :: 0 <= i < |r| ==> r[i] < |bs| && bs[r[i]].CanWrite()
    ensures forall i, j :: 0 <= i < j < |r| ==> edt[r[i]] <= edt[r[j]]
  {
    forall i, j | 0 <= i < j < |r| ensures edt[r[i]] <= edt[r[j]] {
      assert Le(s[i], s[j]);
    }
  }

  /** No writable block outside that prefix dies sooner than one inside; the prefix is empty only when nothing is writable. */
  lemma PrefixSoonest(bs: seq<Block>, edt: seq<nat>, s: seq<Pair>, r: seq<nat>)
    requires |edt| == |bs| && Sorted(s)
    requires |r| == Min(GroupCount, |s|) && forall i :: 0 <= i < |r| ==> r[i] == s[i].1
    requires forall i :: 0 <= i < |s| ==> s[i].1 < |bs| && bs[s[i].1].CanWrite() && s[i].0 == edt[s[i].1]
    requires forall z :: 0 <= z < |bs| && bs[z].CanWrite() ==> exists k :: 0 <= k < |s| && s[k].1 == z
    ensures forall z :: 0 <= z < |bs| && bs[z].CanWrite() && z !in r ==>
        |r| == GroupCount && forall i :: 0 <= i < |r| ==> r[i] < |bs| && edt[r[i]] <= edt[z]
    ensures r == [] <==> forall z :: 0 <= z < |bs| ==> !bs[z].CanWrite()
  {
    forall z | 0 <= z < |bs| && bs[z].CanWrite() && z !in r
      ensures |r| == GroupCount && forall i :: 0 <= i < |r| ==> r[i] < |bs| && edt[r[i]] <= edt[z]
    {
      var k :| 0 <= k < |s| && s[k].1 == z;
      assert k >= |r|;
      forall i | 0 <= i < |r| ensures r[i] < |bs| && edt[r[i]] <= edt[z] {
        assert Le(s[i], s[k]);
      }
    }
    if |s| > 0 {
      assert r[0] == s[0].1;
    }
  }

  // ---------------------------------------------------------------------------
  // block death time

  /** The estimates of the first n pages that have a history, summed with 64-bit wrap-around. */
  function TotalDeathTime(hist: seq<seq<nat>>, n: nat): (r: nat)
    requires n <= |hist|
    decreases n
  {
    if n == 0 then 0
    else
      var h := hist[Less(n)];
      (TotalDeathTime(hist, Less(n)) + (if h == [] then 0 else DeathTime(h))) % U64
  }

  /** The same sum, exactly. */
  ghost function SumDeathTime(hist: seq<seq<nat>>, n: nat): nat
    requires n <= |hist|
    decreases n
  {
    if n == 0 then 0
    else
      var h := hist[Less(n)];
      SumDeathTime(hist, Less(n)) + (if h == [] then 0 else DeathTime(h))
  }

  /** Adding to a wrapped sum wraps the exact sum. */
  lemma WrapAdd(a: int, b: int)
    ensures (a % U64 + b) % U64 == (a + b) % U64
  {
    var q := a / U64;
    assert a == q * U64 + a % U64;
    ModShift(a + b, q);
  }

  /** The wrapped total is the exact sum of the estimates modulo 2^64. */
  lemma {:induction false} TotalIsWrappedSum(hist: seq<seq<nat>>, n: nat)
    requires n <= |hist|
    ensures TotalDeathTime(hist, n) == SumDeathTime(hist, n) % U64
    decreases n
  {
    if n > 0 {
      TotalIsWrappedSum(hist, Less(n));
      var h := hist[Less(n)];
      WrapAdd(SumDeathTime(hist, Less(n)), if h == [] then 0 else DeathTime(h));
    }
  }

  /**
    updateBlockDeathTime's new value for a block with validPages valid
    pages: the wrapped total over all pages with a history, divided by
    validPages and rounded down; 0 for a block with no valid page.
   */
  function BlockDeathTime(hist: seq<seq<nat>>, validPages: nat): (r: nat)
    ensures r <= TotalDeathTime(hist, |hist|) && r < U64
    ensures validPages == 0 ==> r == 0
  {
    var t := TotalDeathTime(hist, |hist|);
    TotalDeathTimeBound(hist, |hist|);
    if validPages > 0 then
      DivBracket(t, validPages);
      t / validPages
    else 0
  }

  /** The value is the wrapped total divided by validPages, rounded down: it brackets the total between two multiples. */
  lemma BlockDeathTimeBrackets(hist: seq<seq<nat>>, validPages: nat)
    requires validPages > 0
    ensures var r := BlockDeathTime(hist, validPages);
      r * validPages <= TotalDeathTime(hist, |hist|) < (r + 1) * validPages
  {
    DivBracket(TotalDeathTime(hist, |hist|), validPages);
  }

  /** Division rounding down brackets the dividend between two multiples of the divisor. */
  lemma DivBracket(a: nat, b: nat)
    requires b > 0
    ensures a / b <= a && (a / b) * b <= a < (a / b + 1) * b
  {
    var q, m := a / b, a % b;
    assert a == q * b + m && m < b;
    assert (q + 1) * b == q * b + b;
    Mapping.MulAtLeast(b, q);
    assert q * b == b * q;
  }

  lemma TotalDeathTimeBound(hist: seq<seq<nat>>, n: nat)
    requires n <= |hist|
    ensures TotalDeathTime(hist, n) < U64
  {
  }

  /** The loop of updateBlockDeathTime over the pages' histories. */
  method SumEstimates(hist: seq<seq<nat>>) returns (total: nat)
    ensures total == TotalDeathTime(hist, |hist|)
  {
    total := 0;
    var p := 0;
    while p < |hist|
      invariant p <= |hist| && total == TotalDeathTime(hist, p)
    {
      if hist[p] != [] {
        var e := EstimateDeathTime(hist[p]);
        total := (total + e) % U64;
      } else {
        total := (total + 0) % U64;
      }
      p := p + 1;
      assert Less(p) == p - 1;
    }
  }

  // ---------------------------------------------------------------------------
  // victim choice

  /** How selectVictimBlock ranks full blocks, from the policy's name. */
  datatype Rule = ByDeathTime | ByValidCount | UnknownRule

  /** t occurs in s as a substring (std::string::contains). */
  predicate Contains(s: string, t: string)
    decreases |s|
  {
    (|t| <= |s| && s[..|t|] == t) || (|s| > 0 && Contains(s[1..], t))
  }

  /** A name containing "edt" ranks by death time, else one containing "greedy" by valid count. */
  function RuleOf(name: string): Rule {
    if Contains(name, "edt") then ByDeathTime
    else if Contains(name, "greedy") then ByValidCount
    else UnknownRule
  }

  /** The key of each block under a rule: its estimated death time, or its valid count. */
  function Keys(rule: Rule, edt: seq<nat>, bs: seq<Block>): (r: seq<nat>)
    requires |edt| == |bs|
    ensures |r| == |bs|
  {
    if rule == ByDeathTime then edt else seq(|bs|, i requires 0 <= i < |bs| => bs[i].validCnt)
  }

  /**
    The loop of selectVictimBlockEDT/Greedy over the first n entries of the
    full-block list: the smallest key seen and its block, starting from the
    all-ones key and the out-of-range id zones; an entry replaces the held
    one only with a strictly smaller key.
   */
  function Lowest(list: seq<nat>, key: seq<nat>, zones: nat, n: nat): (r: (nat, nat))
    requires n <= |list| && forall i :: 0 <= i < |list| ==> list[i] < |key|
    decreases n
  {
    if n == 0 then (U64 - 1, zones)
    else
      var r := Lowest(list, key, zones, Less(n));
      var b := list[Less(n)];
      if key[b] < r.0 then (key[b], b) else r
  }

  /**
    What the victim scan finds: zones exactly when no entry's key is below
    the all-ones sentinel; otherwise a listed block whose key is the
    smallest, and the first entry with that key.
   */
  lemma {:induction false} LowestIsMin(list: seq<nat>, key: seq<nat>, zones: nat, n: nat)
    requires n <= |list| && |key| == zones && forall i :: 0 <= i < |list| ==> list[i] < zones
    ensures var r := Lowest(list, key, zones, n);
      (r.1 == zones <==> forall i :: 0 <= i < n ==> key[list[i]] >= U64 - 1) &&
      (r.1 != zones ==>
        r.1 in list[..n] && r.0 == key[r.1] &&
        (forall i :: 0 <= i < n ==> key[r.1] <= key[list[i]]) &&
        (exists i :: 0 <= i < n && list[i] == r.1 && forall j :: 0 <= j < i ==> key[r.1] < key[list[j]])) &&
      (r.1 == zones ==> r.0 == U64 - 1)
    decreases n
  {
    if n > 0 {
      var m := Less(n);
      LowestIsMin(list, key, zones, m);
      var r := Lowest(list, key, zones, m);
      assert list[..n] == list[..m] + [list[m]];
      if key[list[m]] < r.0 {
        assert forall j :: 0 <= j < m ==> key[list[m]] < key[list[j]];
      } else if r.1 != zones {
        var i :| 0 <= i < m && list[i] == r.1 && forall j :: 0 <= j < i ==> key[r.1] < key[list[j]];
        assert list[..m] <= list[..n];
      }
    }
  }

  /** The victim a rule picks from the full-block list: zones when none. */
  function Victim(list: seq<nat>, rule: Rule, edt: seq<nat>, bs: seq<Block>): nat
    requires |edt| == |bs| && forall i :: 0 <= i < |list| ==> list[i] < |bs|
  {
    Lowest(list, Keys(rule, edt, bs), |bs|, |list|).1
  }

  /** The source's loop over the full-block list. */
  method LowestScan(list: seq<nat>, key: seq<nat>, zones: nat) returns (selected: nat)
    requires forall i :: 0 <= i < |list| ==> list[i] < |key|
    ensures selected == Lowest(list, key, zones, |list|).1
  {
    selected := zones;
    var smallest := U64 - 1;
    var i := 0;
    while i < |list|
      invariant i <= |list| && (smallest, selected) == Lowest(list, key, zones, i)
    {
      if key[list[i]] < smallest {
        smallest := key[list[i]];
        selected := list[i];
      }
      i := i + 1;
      assert Less(i) == i - 1;
    }
  }

  /** The pages stored in a block's slots, in slot order: what performGC queues for rewriting. */
  function Queued(s: seq<int>): (r: seq<nat>)
    ensures forall x: nat :: x in r <==> x as int in s
  {
    if s == [] then []
    else
      var init := Queued(s[..|s| - 1]);
      assert s == s[..|s| - 1] + [s[|s| - 1]];
      init + (if s[|s| - 1] >= 0 then [s[|s| - 1] as nat] else [])
  }

  /** The source's loop over the victim's slots. */
  method QueueValidPages(ptl: seq<int>) returns (q: seq<nat>)
    requires forall i :: 0 <= i < |ptl| ==> ptl[i] >= Unused
    ensures q == Queued(ptl)
  {
    q := [];
    for p := 0 to |ptl|
      invariant q == Queued(ptl[..p])
    {
      assert ptl[..p + 1][..p] == ptl[..p];
      if ptl[p] != Unused {
        q := q + [ptl[p] as nat];
      }
    }
    assert ptl[..|ptl|] == ptl;
  }

  /** The pages of a block's slots are mapped pages of the device. */
  lemma QueuedInRange(f: Flash, ppz: nat, z: nat)
    requires Ok(f, ppz) && z < |f.blocks|
    ensures forall i :: 0 <= i < |Queued(f.blocks[z].ptl)| ==> Queued(f.blocks[z].ptl)[i] < |f.ltp|
  {
    var q := Queued(f.blocks[z].ptl);
    OkShape(f, ppz);
    forall i | 0 <= i < |q| ensures q[i] < |f.ltp| {
      assert q[i] in q;
      var p :| 0 <= p < |f.blocks[z].ptl| && f.blocks[z].ptl[p] == q[i] as int;
      StoredPage(f, ppz, z, p);
    }
  }

  /** The first n groups of a flush, in order. */
  function Groups(s: seq<nat>, n: nat, size: nat): seq<nat>
  {
    s[..Min(n * size, |s|)]
  }

  /** One more group extends the groups written so far by its chunk. */
  lemma GroupsStep(s: seq<nat>, n: nat, size: nat)
    ensures Groups(s, n, size) + Chunk(s, n, size) == Groups(s, n + 1, size)
  {
    assert (n + 1) * size == n * size + size;
  }

  /** A group holds entries of the order only. */
  lemma ChunkWithin(s: seq<nat>, g: nat, size: nat, bound: nat)
    requires forall i :: 0 <= i < |s| ==> s[i] < bound
    ensures forall i :: 0 <= i < |Chunk(s, g, size)| ==> Chunk(s, g, size)[i] < bound
  {
    var lo, hi := Min(g * size, |s|), Min(g * size + size, |s|);
    var c := Chunk(s, g, size);
    assert c == s[lo..hi];
    forall i | 0 <= i < |c|
      ensures c[i] < bound
    {
      assert c[i] == s[lo + i];
    }
  }

  /** The collecting loop of selectBlocksForGroup. */
  method CollectWritable(bs: seq<Block>, edt: seq<nat>) returns (available: seq<Pair>)
    requires |edt| == |bs|
    ensures available == Writable(bs, edt, |bs|)
  {
    available := [];
    for z := 0 to |bs|
      invariant available == Writable(bs, edt, z)
    {
      if bs[z].CanWrite() {
        available := available + [(edt[z], z)];
      }
      assert Less(z + 1) == z;
    }
  }

  /** The ids of the first n entries (all of them when fewer). */
  method TakeFront(sorted: seq<Pair>, n: nat) returns (ids: seq<nat>)
    ensures ids == Ids(sorted)[..Min(n, |sorted|)]
  {
    ids := [];
    var i := 0;
    while i < n && i < |sorted|
      invariant i <= Min(n, |sorted|) && ids == Ids(sorted)[..i]
    {
      ids := ids + [sorted[i].1];
      i := i + 1;
    }
  }

  /** The GroupCount groups of a flush together are the whole order. */
  lemma GroupsCover(s: seq<nat>)
    ensures Groups(s, GroupCount, (|s| + GroupCount - 1) / GroupCount) == s
  {
    var size := (|s| + GroupCount - 1) / GroupCount;
    assert |s| + 3 == 4 * size + (|s| + 3) % 4;
  }

  // ---------------------------------------------------------------------------
  // the policy's state as a value

  /** Two lists whose entries are below a bound, one after the other. */
  lemma AppendWithin(a: seq<nat>, b: seq<nat>, bound: nat)
    requires (forall i :: 0 <= i < |a| ==> a[i] < bound) && forall i :: 0 <= i < |b| ==> b[i] < bound
    ensures forall i :: 0 <= i < |a + b| ==> (a + b)[i] < bound
  {
  }

  /** Taking blocks off a list keeps its entries in range. */
  lemma RemoveWithin(s: seq<nat>, x: nat, bound: nat)
    requires forall i :: 0 <= i < |s| ==> s[i] < bound
    ensures forall i :: 0 <= i < |Lru.Remove(s, x)| ==> Lru.Remove(s, x)[i] < bound
  {
    var r := Lru.Remove(s, x);
    forall i | 0 <= i < |r| ensures r[i] < bound {
      assert r[i] in r;
    }
  }

  /**
    DTE::performGC on a state: nothing to do without full blocks; a failure
    for a policy name with no rule; otherwise the rule's victim leaves the
    full list and, when it is a block, has its pages queued for rewriting, is
    erased (and offered to wear leveling when that is on) and joins the free
    list.  The write buffer, current block and death times are untouched.
   */
  function Gc(s: Run, d: Dims, rule: Rule): (r: (Run, bool))
    requires RunOk(s, d)
    ensures RunOk(r.0, d)
  {
    if s.full == [] then (s, true)
    else if rule == UnknownRule then (s, false)
    else
      var v := Victim(s.full, rule, s.edt, s.flash.blocks);
      RemoveWithin(s.full, v, d.zones);
      var rest := Lru.Remove(s.full, v);
      if v < d.zones then (Reclaimed(s.(full := rest), d, v), true) else (s.(full := rest), true)
  }

  /** The in-range half of performGC: v's pages queued, v erased (and offered to wear leveling when that is on) and freed. */
  function Reclaimed(s: Run, d: Dims, v: nat): (r: Run)
    requires RunOk(s, d) && v < d.zones
    ensures RunOk(r, d)
  {
    QueuedInRange(s.flash, d.ppz, v);
    PushedOk(s.wl, d.zones, v);
    var r := s.(flash := Scrubbed(s.flash, d.ppz, v), wl := if s.wl.enabled then Pushed(s.wl, v) else s.wl,
       free := s.free + [v], cached := s.cached + Queued(s.flash.blocks[v].ptl));
    AppendWithin(s.free, [v], d.zones);
    AppendWithin(s.cached, Queued(s.flash.blocks[v].ptl), d.lps);
    r
  }

  /** What Gc does, field by field. */
  lemma GcEffects(s: Run, d: Dims, rule: Rule)
    requires RunOk(s, d)
    ensures var r := Gc(s, d, rule);
      r.0.edt == s.edt && r.0.current == s.current && r.0.buffer == s.buffer &&
      (s.full == [] ==> r == (s, true)) &&
      (s.full != [] ==> (r.1 <==> rule != UnknownRule)) &&
      (!r.1 ==> r.0 == s)
    ensures var r := Gc(s, d, rule);
      r.1 && s.full != [] ==>
        var v := Victim(s.full, rule, s.edt, s.flash.blocks);
        r.0.full == Lru.Remove(s.full, v) &&
        (v < d.zones ==>
          r.0.cached == s.cached + Queued(s.flash.blocks[v].ptl) && r.0.flash == Scrubbed(s.flash, d.ppz, v) &&
          r.0.free == s.free + [v] && r.0.wl == (if s.wl.enabled then Pushed(s.wl, v) else s.wl)) &&
        (v >= d.zones ==> r.0 == s.(full := r.0.full))
  {
  }

  /** The guard shared by writePage and writeGroupPages: a GC exactly when fewer than GroupCount blocks are free. */
  function Topped(s: Run, d: Dims, rule: Rule): (r: (Run, bool))
    requires RunOk(s, d)
    ensures RunOk(r.0, d) && r.0.buffer == s.buffer && r.0.current == s.current && r.0.edt == s.edt
    ensures |s.free| >= GroupCount ==> r == (s, true)
    ensures |s.free| < GroupCount ==> r == Gc(s, d, rule)
  {
    if |s.free| < GroupCount then Gc(s, d, rule) else (s, true)
  }

  /**
    The block replacement of writePage on a state: the guarded GC, then the
    front of the free list becomes the current block; false when the GC
    fails, no block is free, or the new current block cannot be written.
   */
  function Advance(s: Run, d: Dims, rule: Rule): (r: (Run, bool))
    requires RunOk(s, d)
    ensures RunOk(r.0, d)
    ensures r.1 ==> r.0.flash.blocks[r.0.current].CanWrite()
  {
    var t := Topped(s, d, rule);
    if !t.1 || t.0.free == [] then (t.0, false)
    else
      var n := t.0.(current := t.0.free[0], free := t.0.free[1..]);
      (n, n.flash.blocks[n.current].CanWrite())
  }

  /**
    The renewal of an exhausted selection in writeGroupPages: the guarded
    GC, a failure without free blocks, then SelectBlocks of the state after
    the GC, which must not be empty.
   */
  function Renew(s: Run, d: Dims, rule: Rule): (r: (Run, seq<nat>, bool))
    requires RunOk(s, d)
    ensures RunOk(r.0, d) && r.0.current == s.current
    ensures r.2 ==> r.1 != [] && Lru.NoDup(r.1)
    ensures r.2 ==> forall i :: 0 <= i < |r.1| ==> r.1[i] < d.zones && r.0.flash.blocks[r.1[i]].CanWrite()
  {
    var t := Topped(s, d, rule);
    if !t.1 || t.0.free == [] then (t.0, [], false)
    else
      var sel := Selection(t.0);
      (t.0, sel, sel != [])
  }

  /** SelectBlocks on a state: the up to GroupCount writable blocks of lowest death time. */
  function Selection(s: Run): (r: seq<nat>)
    requires |s.edt| == |s.flash.blocks|
    ensures Lru.NoDup(r) && forall i :: 0 <= i < |r| ==> r[i] < |s.flash.blocks| && s.flash.blocks[r[i]].CanWrite()
  {
    SelectBlocksPicks(s.flash.blocks, s.edt);
    SelectBlocks(s.flash.blocks, s.edt)
  }

  /** One page of writeGroupPages on a state: a host write of lp towards block b (group -1), then b's death time refreshed. */
  function Put(s: Run, d: Dims, hist: seq<seq<nat>>, lp: nat, b: nat): (r: Run)
    requires RunOk(s, d) && lp < d.lps && b < d.zones
    ensures RunOk(r, d) && r.current == s.current && r.free == s.free && r.full == s.full && r.cached == s.cached
  {
    var h := Cached(s.flash, s.buffer, d.cap, d.ppz, lp, b, -1);
    s.(flash := h.flash, buffer := h.buffer, edt := s.edt[b := BlockDeathTime(hist, h.flash.blocks[b].validCnt)])
  }

  /**
    DTE::writeGroupPages on a state, with the selection still in hand: each
    page goes to the last selected block, which leaves the selection; an
    exhausted selection is renewed first.  The state is the one reached
    also when a renewal fails.
   */
  function GroupWrite(s: Run, d: Dims, hist: seq<seq<nat>>, rule: Rule, pages: seq<nat>, sel: seq<nat>): (r: (Run, bool))
    requires RunOk(s, d) && (forall i :: 0 <= i < |pages| ==> pages[i] < d.lps)
    requires forall i :: 0 <= i < |sel| ==> sel[i] < d.zones
    ensures RunOk(r.0, d) && r.0.current == s.current
    decreases |pages|, 1
  {
    if pages == [] then (s, true) else Placed(s, d, hist, rule, pages, sel)
  }

  /** GroupWrite of a non-empty group: its first page placed (Step), then the rest, unless the placing fails. */
  function Placed(s: Run, d: Dims, hist: seq<seq<nat>>, rule: Rule, pages: seq<nat>, sel: seq<nat>): (r: (Run, bool))
    requires RunOk(s, d) && pages != [] && (forall i :: 0 <= i < |pages| ==> pages[i] < d.lps)
    requires forall i :: 0 <= i < |sel| ==> sel[i] < d.zones
    ensures RunOk(r.0, d) && r.0.current == s.current
    decreases |pages|, 0
  {
    var n := Step(s, d, hist, rule, pages[0], sel);
    if !n.2 then (n.0, false) else GroupWrite(n.0, d, hist, rule, pages[1..], n.1)
  }

  /**
    One pass of the loop of writeGroupPages: an exhausted selection renewed
    (Renew), then lp written to the last selected block (Put), which leaves
    the selection.
   */
  function Step(s: Run, d: Dims, hist: seq<seq<nat>>, rule: Rule, lp: nat, sel: seq<nat>): (r: (Run, seq<nat>, bool))
    requires RunOk(s, d) && lp < d.lps && forall i :: 0 <= i < |sel| ==> sel[i] < d.zones
    ensures RunOk(r.0, d) && r.0.current == s.current && forall i :: 0 <= i < |r.1| ==> r.1[i] < d.zones
  {
    var n := if sel == [] then Renew(s, d, rule) else (s, sel, true);
    if !n.2 then (n.0, [], false)
    else (Put(n.0, d, hist, lp, n.1[|n.1| - 1]), n.1[..|n.1| - 1], true)
  }

  /**
    The group loop of flushPages on a state, from group g on: group g' gets
    Chunk(order, g', size) and the blocks SelectBlocks picks at its start;
    the first group that fails ends the flush.
   */
  function FlushRun(s: Run, d: Dims, hist: seq<seq<nat>>, rule: Rule, order: seq<nat>, size: nat, g: nat): (r: (Run, bool))
    requires RunOk(s, d) && forall i :: 0 <= i < |order| ==> order[i] < d.lps
    ensures RunOk(r.0, d) && r.0.current == s.current
    decreases GroupCount - g
  {
    if g >= GroupCount then (s, true)
    else
      ChunkWithin(order, g, size, d.lps);
      var w := GroupWrite(s, d, hist, rule, Chunk(order, g, size), Selection(s));
      if !w.1 then w else FlushRun(w.0, d, hist, rule, order, size, g + 1)
  }

  /** The histories with every page of c emptied: the last loop of flushPages. */
  function Cleared(hist: seq<seq<nat>>, c: seq<nat>): (r: seq<seq<nat>>)
    ensures |r| == |hist| && forall p :: 0 <= p < |hist| ==> r[p] == (if p in c then [] else hist[p])
  {
    seq(|hist|, p requires 0 <= p < |hist| => if p in c then [] else hist[p])
  }

  /** Every buffered page has a history, so flushPages can estimate it. */
  predicate Estimable(hist: seq<seq<nat>>, c: seq<nat>) {
    forall i :: 0 <= i < |c| ==> c[i] < |hist| && |hist[c[i]]| > 0
  }

  /**
    DTE::flushPages on a state: a failure, with nothing changed, where a
    buffered page has no history; otherwise the buffered pages in FlushOrder
    cut into GroupCount groups of the ceiling of a quarter (FlushRun), and,
    when every group is written, the histories of the pages then buffered
    emptied.
   */
  function Flush(s: Run, d: Dims, hist: seq<seq<nat>>, rule: Rule): (r: (Run, seq<seq<nat>>, bool))
    requires RunOk(s, d) && |hist| == d.lps
    ensures RunOk(r.0, d) && |r.1| == d.lps && r.0.current == s.current
    ensures !Estimable(hist, s.cached) ==> r == (s, hist, false)
  {
    if !Estimable(hist, s.cached) then (s, hist, false)
    else
      var f := Flushed(s, d, hist, rule);
      if !f.1 then (f.0, hist, false) else (f.0, Cleared(hist, f.0.cached), true)
  }

  /** The group writing of a flush: FlushOrder cut into GroupCount groups of the ceiling of a quarter. */
  function Flushed(s: Run, d: Dims, hist: seq<seq<nat>>, rule: Rule): (r: (Run, bool))
    requires RunOk(s, d) && |hist| == d.lps && Estimable(hist, s.cached)
    ensures RunOk(r.0, d) && r.0.current == s.current
  {
    FlushOrderWithin(hist, s.cached);
    FlushRun(s, d, hist, rule, FlushOrder(hist, s.cached), (|s.cached| + GroupCount - 1) / GroupCount, 0)
  }

  /** Flushed with its order and group size named. */
  lemma FlushedIs(s: Run, d: Dims, hist: seq<seq<nat>>, rule: Rule, order: seq<nat>, size: nat)
    requires RunOk(s, d) && |hist| == d.lps && Estimable(hist, s.cached)
    requires order == FlushOrder(hist, s.cached) && size == (|order| + GroupCount - 1) / GroupCount
    requires forall i :: 0 <= i < |order| ==> order[i] < d.lps
    ensures Flushed(s, d, hist, rule) == FlushRun(s, d, hist, rule, order, size, 0)
  {
    FlushOrderWithin(hist, s.cached);
  }

  /**
    The second half of writePage on a state: the stamp joins the page's
    history, the page joins the buffer, and a buffer of ppz pages is flushed
    and, when the flush succeeds, emptied.
   */
  function Buffered(s: Run, d: Dims, hist: seq<seq<nat>>, rule: Rule, lp: nat, t: nat): (r: (Run, seq<seq<nat>>, bool))
    requires RunOk(s, d) && |hist| == d.lps && lp < d.lps
    ensures RunOk(r.0, d) && |r.1| == d.lps
  {
    var h := hist[lp := Recorded(hist[lp], t)];
    var s1 := s.(cached := s.cached + [lp]);
    if |s1.cached| < d.ppz then (s1, h, true) else Drained(s1, d, h, rule)
  }

  /** A flush of a full buffer on a state: Flush, and, when it succeeds, an empty buffer. */
  function Drained(s: Run, d: Dims, hist: seq<seq<nat>>, rule: Rule): (r: (Run, seq<seq<nat>>, bool))
    requires RunOk(s, d) && |hist| == d.lps
    ensures RunOk(r.0, d) && |r.1| == d.lps
  {
    var f := Flush(s, d, hist, rule);
    if f.2 then (f.0.(cached := []), f.1, true) else f
  }

  /**
    DTE::writePage on a state: a current block that cannot be written is
    replaced first (Advance); then the write is buffered (Buffered).
   */
  function Written(s: Run, d: Dims, hist: seq<seq<nat>>, rule: Rule, lp: nat, t: nat): (r: (Run, seq<seq<nat>>, bool))
    requires RunOk(s, d) && |hist| == d.lps && lp < d.lps
    ensures RunOk(r.0, d) && |r.1| == d.lps
  {
    var a := if s.flash.blocks[s.current].CanWrite() then (s, true) else Advance(s, d, rule);
    if !a.1 then (a.0, hist, false) else Buffered(a.0, d, hist, rule, lp, t)
  }

  // ---------------------------------------------------------------------------
  // the policy object

  class DTE {
    const ssd: Device
    const gcAlgorithm: string
    /** The number of buffered pages that triggers a flush: one block's worth. */
    const bufferCount: nat
    var currentBlock: nat
    var freeBlocks: seq<nat>
    /**
      writeHistory[p]: the stamps of page p's recent host writes, oldest
      first; empty where the source's map has no entry for p or an emptied one.
     */
    var writeHistory: seq<seq<nat>>
    var blockDeathTime: seq<nat>
    /** The blocks eligible as victims.  Nothing in the source adds to it. */
    var fullBlocks: seq<nat>
    var cachedPageIds: seq<nat>

    ghost predicate Valid()
      reads this, ssd
    {
      ssd.Valid() && bufferCount == ssd.ppz &&
      PolicyOk(currentBlock, freeBlocks, fullBlocks, cachedPageIds, blockDeathTime, Dim()) &&
      |writeHistory| == ssd.logicalPages && (forall p :: 0 <= p < |writeHistory| ==> HistoryOk(writeHistory[p]))
    }

    /** The state the policy and its device change, as a value. */
    ghost function Snap(): Run
      reads this, ssd
    {
      Run(ssd.flash, ssd.writeBuffer, ssd.wl, currentBlock, freeBlocks, fullBlocks, cachedPageIds, blockDeathTime)
    }

    /** The device's sizes. */
    ghost function Dim(): Dims {
      Dims(ssd.ppz, ssd.zones, ssd.logicalPages, ssd.writeBufferSize)
    }

    /**
      DTE::DTE: block 0 is the current block, the others are free in order,
      every block's death time is 0 and nothing is buffered.  The source's
      check that block 0 is writable is required of the caller.
     */
    constructor (ssd: Device, gcAlgorithm: string)
      requires ssd.Valid() && ssd.zones > 0 && ssd.flash.blocks[0].CanWrite()
      ensures Valid() && this.ssd == ssd && this.gcAlgorithm == gcAlgorithm && bufferCount == ssd.ppz
      ensures currentBlock == 0 && freeBlocks == seq(ssd.zones - 1, i => i + 1)
      ensures writeHistory == seq(ssd.logicalPages, _ => []) && blockDeathTime == seq(ssd.zones, _ => 0)
      ensures fullBlocks == [] && cachedPageIds == []
    {
      this.ssd := ssd;
      this.gcAlgorithm := gcAlgorithm;
      bufferCount := ssd.ppz;
      var all: seq<nat> := [];
      for z := 0 to ssd.zones
        invariant all == seq(z, i => i)
      {
        all := all + [z];
      }
      currentBlock := all[0];
      freeBlocks := all[1..];
      writeHistory := seq(ssd.logicalPages, _ => []);
      blockDeathTime := seq(ssd.zones, _ => 0);
      fullBlocks := [];
      cachedPageIds := [];
    }

    /**
      DTE::writePage at time `timestamp` (the source reads the clock): a
      full current block is replaced first; then the stamp joins the page's
      history, the page joins the buffer, and a buffer of bufferCount pages
      is flushed and emptied.  ok is false where a fatal check fires.
     */
    method WritePage(lp: nat, timestamp: nat) returns (ok: bool)
      requires Valid() && lp < ssd.logicalPages && timestamp < U64
      modifies this, ssd
      ensures Valid()
      ensures ok ==> |cachedPageIds| < bufferCount
      ensures old(ssd.flash.blocks[currentBlock]).CanWrite() && |old(cachedPageIds)| + 1 < bufferCount ==>
        ok && writeHistory == old(writeHistory)[lp := Recorded(old(writeHistory)[lp], timestamp)] &&
        cachedPageIds == old(cachedPageIds) + [lp] && ssd.flash == old(ssd.flash)
      ensures old(ssd.flash.blocks[currentBlock]).CanWrite() && |old(cachedPageIds)| + 1 >= bufferCount && ok ==>
        cachedPageIds == [] && writeHistory[lp] == []
      ensures (Snap(), writeHistory, ok) == Written(old(Snap()), Dim(), old(writeHistory), RuleOf(gcAlgorithm), lp, timestamp)
    {
      if !ssd.flash.blocks[currentBlock].CanWrite() {
        ok := NextBlock();
        if !ok {
          return;
        }
      }
      ok := BufferPage(lp, timestamp);
    }

    /** The second half of writePage: record the write, buffer the page, flush a full buffer. */
    method BufferPage(lp: nat, timestamp: nat) returns (ok: bool)
      requires Valid() && lp < ssd.logicalPages && timestamp < U64
      modifies this, ssd
      ensures Valid()
      ensures ok ==> |cachedPageIds| < bufferCount
      ensures |old(cachedPageIds)| + 1 < bufferCount ==>
        ok && writeHistory == old(writeHistory)[lp := Recorded(old(writeHistory)[lp], timestamp)] &&
        cachedPageIds == old(cachedPageIds) + [lp] && ssd.flash == old(ssd.flash)
      ensures |old(cachedPageIds)| + 1 >= bufferCount && ok ==> cachedPageIds == [] && writeHistory[lp] == []
      ensures (Snap(), writeHistory, ok) == Buffered(old(Snap()), Dim(), old(writeHistory), RuleOf(gcAlgorithm), lp, timestamp)
    {
      Record(lp, timestamp);
      ok := true;
      if |cachedPageIds| >= bufferCount {
        assert cachedPageIds[|cachedPageIds| - 1] == lp;
        ok := FlushBuffer();
      }
    }

    /** The flush of a full buffer in writePage: flushPages, then an emptied buffer. */
    method FlushBuffer() returns (ok: bool)
      requires Valid()
      modifies this, ssd
      ensures Valid()
      ensures ok ==> cachedPageIds == [] && forall i :: 0 <= i < |old(cachedPageIds)| ==> writeHistory[old(cachedPageIds)[i]] == []
      ensures (Snap(), writeHistory, ok) == Drained(old(Snap()), Dim(), old(writeHistory), RuleOf(gcAlgorithm))
    {
      ghost var pre := cachedPageIds;
      ghost var order;
      ok, order := FlushPages();
      if !ok {
        return;
      }
      forall i | 0 <= i < |pre| ensures writeHistory[pre[i]] == [] {
        assert pre[i] == cachedPageIds[i];
      }
      cachedPageIds := [];
    }

    /** The history and buffer update of writePage. */
    method Record(lp: nat, t: nat)
      requires Valid() && lp < ssd.logicalPages && t < U64
      modifies this
      ensures Valid() && writeHistory == old(writeHistory)[lp := Recorded(old(writeHistory)[lp], t)]
      ensures cachedPageIds == old(cachedPageIds) + [lp]
      ensures currentBlock == old(currentBlock) && freeBlocks == old(freeBlocks) && fullBlocks == old(fullBlocks)
      ensures blockDeathTime == old(blockDeathTime)
    {
      writeHistory := writeHistory[lp := Recorded(writeHistory[lp], t)];
      cachedPageIds := cachedPageIds + [lp];
    }

    /**
      The block replacement of writePage: a GC when fewer than GroupCount
      blocks are free, then the front of the free list becomes the current
      block and must be writable.
     */
    method NextBlock() returns (ok: bool)
      requires Valid()
      modifies this, ssd
      ensures Valid() && writeHistory == old(writeHistory) && old(cachedPageIds) <= cachedPageIds
      ensures ok ==> ssd.flash.blocks[currentBlock].CanWrite()
      ensures (Snap(), ok) == Advance(old(Snap()), Dim(), RuleOf(gcAlgorithm))
    {
      ghost var s0 := Snap();
      GcEffects(s0, Dim(), RuleOf(gcAlgorithm));
      if |freeBlocks| < GroupCount {
        ok := PerformGC();
        if !ok {
          return;
        }
      }
      assert (Snap(), true) == Topped(s0, Dim(), RuleOf(gcAlgorithm));
      ok := TakeFree();
    }

    /** The end of the block replacement: the front of the free list becomes the current block. */
    method TakeFree() returns (ok: bool)
      requires Valid()
      modifies this
      ensures Valid() && writeHistory == old(writeHistory) && cachedPageIds == old(cachedPageIds)
      ensures old(freeBlocks) == [] ==> !ok && Snap() == old(Snap())
      ensures old(freeBlocks) != [] ==>
        Snap() == old(Snap()).(current := old(freeBlocks)[0], free := old(freeBlocks)[1..]) &&
        (ok <==> ssd.flash.blocks[currentBlock].CanWrite())
    {
      if freeBlocks == [] {
        // the source takes the front of an empty list
        return false;
      }
      currentBlock := freeBlocks[0];
      freeBlocks := freeBlocks[1..];
      ok := ssd.flash.blocks[currentBlock].CanWrite();
    }

    /**
      DTE::flushPages on the buffer: the buffered pages sorted by estimated
      death time (FlushOrder), cut into GroupCount groups of the ceiling of a
      quarter each, each group written by writeGroupPages; then every
      buffered page's history is emptied, including pages a GC queued
      meanwhile.  ok is false where a buffered page has no history (the
      source reads its last element) or a group write fails.  order is the
      concatenation of the groups handed out.
     */
    method FlushPages() returns (ok: bool, ghost order: seq<nat>)
      requires Valid()
      modifies this, ssd
      ensures Valid()
      ensures ok ==> forall i :: 0 <= i < |old(cachedPageIds)| ==> old(writeHistory)[old(cachedPageIds)[i]] != []
      ensures ok ==> order == FlushOrder(old(writeHistory), old(cachedPageIds))
      ensures ok ==> old(cachedPageIds) <= cachedPageIds
      ensures ok ==> forall p :: 0 <= p < |writeHistory| ==>
        writeHistory[p] == if p in cachedPageIds then [] else old(writeHistory)[p]
      ensures (Snap(), writeHistory, ok) == Flush(old(Snap()), Dim(), old(writeHistory), RuleOf(gcAlgorithm))
    {
      order := [];
      var pageIds := cachedPageIds;
      ok, order := FlushGroups(pageIds);
      if ok {
        ClearHistories();
      }
    }

    /** The estimating, sorting and group writing of flushPages. */
    method FlushGroups(pageIds: seq<nat>) returns (ok: bool, ghost order: seq<nat>)
      requires Valid() && pageIds == cachedPageIds
      modifies this, ssd
      ensures Valid() && writeHistory == old(writeHistory) && pageIds <= cachedPageIds
      ensures ok ==> forall i :: 0 <= i < |pageIds| ==> pageIds[i] < |writeHistory| && writeHistory[pageIds[i]] != []
      ensures ok ==> order == FlushOrder(writeHistory, pageIds)
      ensures !Estimable(writeHistory, pageIds) ==> !ok && Snap() == old(Snap())
      ensures Estimable(writeHistory, pageIds) ==> (Snap(), ok) == Flushed(old(Snap()), Dim(), writeHistory, RuleOf(gcAlgorithm))
    {
      order := [];
      ghost var s0 := Snap();
      var deathTimes := EstimateAll(pageIds);
      ok := deathTimes.Some?;
      if !ok {
        return;
      }
      var sorted := Sort(deathTimes.value);
      FlushOrderWithin(writeHistory, pageIds);
      assert Ids(sorted) == FlushOrder(writeHistory, pageIds);
      assert forall i :: 0 <= i < |sorted| ==> sorted[i].1 == Ids(sorted)[i];
      ok, order := WriteGroups(sorted);
      FlushedIs(s0, Dim(), writeHistory, RuleOf(gcAlgorithm), Ids(sorted), (|sorted| + GroupCount - 1) / GroupCount);
      if ok {
        GroupsCover(Ids(sorted));
      }
    }

    /** The group loop of flushPages: each quarter of the order, rounded up, to its group. */
    method WriteGroups(sorted: seq<Pair>) returns (ok: bool, ghost order: seq<nat>)
      requires Valid() && forall i :: 0 <= i < |sorted| ==> sorted[i].1 < ssd.logicalPages
      modifies this, ssd
      ensures Valid() && writeHistory == old(writeHistory) && old(cachedPageIds) <= cachedPageIds
      ensures ok ==> order == Groups(Ids(sorted), GroupCount, (|sorted| + GroupCount - 1) / GroupCount)
      ensures (Snap(), ok) ==
        FlushRun(old(Snap()), Dim(), writeHistory, RuleOf(gcAlgorithm), Ids(sorted), (|sorted| + GroupCount - 1) / GroupCount, 0)
    {
      order := [];
      ok := true;
      var groupSize := (|sorted| + GroupCount - 1) / GroupCount;
      ghost var s := Ids(sorted);
      ghost var goal := FlushRun(Snap(), Dim(), writeHistory, RuleOf(gcAlgorithm), s, groupSize, 0);
      for group := 0 to GroupCount
        invariant Valid() && writeHistory == old(writeHistory) && old(cachedPageIds) <= cachedPageIds
        invariant order == Groups(s, group, groupSize)
        invariant FlushRun(Snap(), Dim(), writeHistory, RuleOf(gcAlgorithm), s, groupSize, group) == goal
      {
        var pagesToWrite;
        ok, pagesToWrite := WriteGroup(sorted, group, groupSize);
        if !ok {
          return;
        }
        GroupsStep(s, group, groupSize);
        order := order + pagesToWrite;
      }
    }

    /** One pass of the group loop of flushPages: the group's chunk of the order, written by writeGroupPages. */
    method WriteGroup(sorted: seq<Pair>, group: nat, size: nat) returns (ok: bool, pages: seq<nat>)
      requires Valid() && forall i :: 0 <= i < |sorted| ==> sorted[i].1 < ssd.logicalPages
      modifies this, ssd
      ensures Valid() && writeHistory == old(writeHistory) && old(cachedPageIds) <= cachedPageIds
      ensures pages == Chunk(Ids(sorted), group, size)
      ensures forall i :: 0 <= i < |pages| ==> pages[i] < ssd.logicalPages
      ensures (Snap(), ok) == GroupWrite(old(Snap()), Dim(), writeHistory, RuleOf(gcAlgorithm), pages, Selection(old(Snap())))
      ensures group < GroupCount ==>
        FlushRun(old(Snap()), Dim(), writeHistory, RuleOf(gcAlgorithm), Ids(sorted), size, group) ==
        (if ok then FlushRun(Snap(), Dim(), writeHistory, RuleOf(gcAlgorithm), Ids(sorted), size, group + 1) else (Snap(), false))
    {
      pages := ChunkOf(sorted, group, size);
      ChunkWithin(Ids(sorted), group, size, ssd.logicalPages);
      ok := WriteGroupPages(pages, group);
    }

    /** The estimating loop of flushPages: None where a buffered page has no history. */
    method EstimateAll(pageIds: seq<nat>) returns (r: Lru.Option<seq<Pair>>)
      requires Valid() && forall i :: 0 <= i < |pageIds| ==> pageIds[i] < ssd.logicalPages
      ensures r.Some? <==> forall i :: 0 <= i < |pageIds| ==> writeHistory[pageIds[i]] != []
      ensures r.Some? ==> r.value == Estimates(writeHistory, pageIds)
    {
      var deathTimes: seq<Pair> := [];
      for i := 0 to |pageIds|
        invariant forall j :: 0 <= j < i ==> writeHistory[pageIds[j]] != []
        invariant deathTimes == Estimates(writeHistory, pageIds[..i])
      {
        if writeHistory[pageIds[i]] == [] {
          return Lru.None;
        }
        var e := EstimateDeathTime(writeHistory[pageIds[i]]);
        deathTimes := deathTimes + [(e, pageIds[i])];
      }
      assert pageIds[..|pageIds|] == pageIds;
      r := Lru.Some(deathTimes);
    }

    /** The last loop of flushPages: every page of the (possibly grown) buffer gets an empty history. */
    method ClearHistories()
      requires Valid()
      modifies this
      ensures Valid() && cachedPageIds == old(cachedPageIds) && currentBlock == old(currentBlock)
      ensures freeBlocks == old(freeBlocks) && fullBlocks == old(fullBlocks) && blockDeathTime == old(blockDeathTime)
      ensures forall p :: 0 <= p < |writeHistory| ==>
        writeHistory[p] == if p in cachedPageIds then [] else old(writeHistory)[p]
      ensures writeHistory == Cleared(old(writeHistory), cachedPageIds)
    {
      for k := 0 to |cachedPageIds|
        invariant Valid() && cachedPageIds == old(cachedPageIds) && currentBlock == old(currentBlock)
        invariant freeBlocks == old(freeBlocks) && fullBlocks == old(fullBlocks) && blockDeathTime == old(blockDeathTime)
        invariant forall p :: 0 <= p < |writeHistory| ==>
          writeHistory[p] == if p in cachedPageIds[..k] then [] else old(writeHistory)[p]
      {
        assert cachedPageIds[..k + 1] == cachedPageIds[..k] + [cachedPageIds[k]];
        writeHistory := writeHistory[cachedPageIds[k] := []];
      }
      assert cachedPageIds[..|cachedPageIds|] == cachedPageIds;
    }

    /**
      DTE::writeGroupPages: the pages go one by one to the selected blocks,
      taken from the back of the selection; an exhausted selection is
      renewed, after a GC when fewer than GroupCount blocks are free.  Every
      write lands in a writable block; ok is false where the source's checks
      fail (no free block, nothing writable).
     */
    method WriteGroupPages(pages: seq<nat>, group: nat) returns (ok: bool)
      requires Valid() && forall i :: 0 <= i < |pages| ==> pages[i] < ssd.logicalPages
      modifies this, ssd
      ensures Valid() && writeHistory == old(writeHistory) && old(cachedPageIds) <= cachedPageIds
      ensures (Snap(), ok) ==
        GroupWrite(old(Snap()), Dim(), writeHistory, RuleOf(gcAlgorithm), pages, Selection(old(Snap())))
    {
      var selected: seq<nat> := SelectBlocksForGroup(group);
      ghost var goal := GroupWrite(Snap(), Dim(), writeHistory, RuleOf(gcAlgorithm), pages, selected);
      var k := 0;
      while k < |pages|
        invariant k <= |pages|
        invariant Valid() && writeHistory == old(writeHistory) && old(cachedPageIds) <= cachedPageIds
        invariant Lru.NoDup(selected)
        invariant forall i :: 0 <= i < |selected| ==> selected[i] < ssd.zones && ssd.flash.blocks[selected[i]].CanWrite()
        invariant GroupWrite(Snap(), Dim(), writeHistory, RuleOf(gcAlgorithm), pages[k..], selected) == goal
      {
        assert pages[k..][0] == pages[k] && pages[k..][1..] == pages[k + 1..];
        ok, selected := PlacePage(pages[k], group, selected);
        if !ok {
          return;
        }
        k := k + 1;
      }
      ok := true;
    }

    /** One pass of the loop of writeGroupPages: see Step. */
    method PlacePage(lp: nat, group: nat, selected: seq<nat>) returns (ok: bool, rest: seq<nat>)
      requires Valid() && lp < ssd.logicalPages && Lru.NoDup(selected)
      requires forall i :: 0 <= i < |selected| ==> selected[i] < ssd.zones && ssd.flash.blocks[selected[i]].CanWrite()
      modifies this, ssd
      ensures Valid() && writeHistory == old(writeHistory) && old(cachedPageIds) <= cachedPageIds
      ensures Lru.NoDup(rest) && forall i :: 0 <= i < |rest| ==> rest[i] < ssd.zones && ssd.flash.blocks[rest[i]].CanWrite()
      ensures (Snap(), rest, ok) == Step(old(Snap()), Dim(), writeHistory, RuleOf(gcAlgorithm), lp, selected)
    {
      if selected == [] {
        ok, rest := PlaceRenewed(lp, group);
      } else {
        ok := true;
        rest := WriteToLast(lp, selected);
      }
    }

    /** PlacePage with an exhausted selection: Reselect, then the write to the last new block. */
    method PlaceRenewed(lp: nat, group: nat) returns (ok: bool, rest: seq<nat>)
      requires Valid() && lp < ssd.logicalPages
      modifies this, ssd
      ensures Valid() && writeHistory == old(writeHistory) && old(cachedPageIds) <= cachedPageIds
      ensures Lru.NoDup(rest) && forall i :: 0 <= i < |rest| ==> rest[i] < ssd.zones && ssd.flash.blocks[rest[i]].CanWrite()
      ensures (Snap(), rest, ok) == Step(old(Snap()), Dim(), writeHistory, RuleOf(gcAlgorithm), lp, [])
    {
      ok, rest := Reselect(group);
      if ok {
        rest := WriteToLast(lp, rest);
      } else {
        rest := [];
      }
    }

    /**
      The renewal of an exhausted selection in writeGroupPages: a GC when
      fewer than GroupCount blocks are free, a fault without free blocks,
      then a fresh selection, which must not be empty.
     */
    method Reselect(group: nat) returns (ok: bool, selected: seq<nat>)
      requires Valid()
      modifies this, ssd
      ensures Valid() && writeHistory == old(writeHistory) && old(cachedPageIds) <= cachedPageIds
      ensures ok ==> selected != [] && Lru.NoDup(selected)
      ensures ok ==> forall i :: 0 <= i < |selected| ==> selected[i] < ssd.zones && ssd.flash.blocks[selected[i]].CanWrite()
      ensures (Snap(), selected, ok) == Renew(old(Snap()), Dim(), RuleOf(gcAlgorithm))
    {
      selected := [];
      ghost var s0 := Snap();
      GcEffects(s0, Dim(), RuleOf(gcAlgorithm));
      if |freeBlocks| < GroupCount {
        ok := PerformGC();
        if !ok {
          return;
        }
      }
      assert (Snap(), true) == Topped(s0, Dim(), RuleOf(gcAlgorithm));
      if freeBlocks == [] {
        return false, [];
      }
      selected := SelectBlocksForGroup(group);
      // the source takes the last element of an empty selection
      ok := selected != [];
    }

    /** The step of writeGroupPages: the page goes to the last selected block, which leaves the selection. */
    method WriteToLast(lp: nat, selected: seq<nat>) returns (rest: seq<nat>)
      requires Valid() && lp < ssd.logicalPages && selected != [] && Lru.NoDup(selected)
      requires forall i :: 0 <= i < |selected| ==> selected[i] < ssd.zones && ssd.flash.blocks[selected[i]].CanWrite()
      modifies this, ssd
      ensures Valid() && writeHistory == old(writeHistory) && cachedPageIds == old(cachedPageIds)
      ensures rest == selected[..|selected| - 1] && Lru.NoDup(rest)
      ensures forall i :: 0 <= i < |rest| ==> rest[i] < ssd.zones && ssd.flash.blocks[rest[i]].CanWrite()
      ensures Snap() == Put(old(Snap()), Dim(), writeHistory, lp, selected[|selected| - 1])
    {
      var b := selected[|selected| - 1];
      rest := selected[..|selected| - 1];
      assert forall i :: 0 <= i < |rest| ==> rest[i] == selected[i] != b;
      WriteToSelected(lp, b, rest);
    }

    /**
      One page of writeGroupPages: the page goes through the device's write
      buffer towards block b, which has room, so the write succeeds; the
      other selected blocks keep their room; b's death time is refreshed.
     */
    method WriteToSelected(lp: nat, b: nat, rest: seq<nat>)
      requires Valid() && lp < ssd.logicalPages && b < ssd.zones && ssd.flash.blocks[b].CanWrite()
      requires b !in rest && forall i :: 0 <= i < |rest| ==> rest[i] < ssd.zones && ssd.flash.blocks[rest[i]].CanWrite()
      modifies this, ssd
      ensures Valid() && writeHistory == old(writeHistory) && cachedPageIds == old(cachedPageIds)
      ensures forall i :: 0 <= i < |rest| ==> ssd.flash.blocks[rest[i]].CanWrite()
      ensures var h := Cached(old(ssd.flash), old(ssd.writeBuffer), ssd.writeBufferSize, ssd.ppz, lp, b, -1);
        h.ok && ssd.flash == h.flash && ssd.writeBuffer == h.buffer
      ensures blockDeathTime == old(blockDeathTime)[b := BlockDeathTime(writeHistory, ssd.flash.blocks[b].validCnt)]
      ensures Snap() == Put(old(Snap()), Dim(), writeHistory, lp, b)
    {
      CachedEffects(ssd.flash, ssd.writeBuffer, ssd.writeBufferSize, ssd.ppz, lp, b, -1);
      CachedKeepsRoom(ssd.flash, ssd.writeBuffer, ssd.writeBufferSize, ssd.ppz, lp, b, -1);
      var written := ssd.WritePage(lp, b, -1);
      UpdateBlockDeathTime(b);
    }

    /** DTE::selectBlocksForGroup (the group is not used): see SelectBlocks and SelectBlocksPicks. */
    method SelectBlocksForGroup(group: nat) returns (selected: seq<nat>)
      requires Valid()
      ensures selected == SelectBlocks(ssd.flash.blocks, blockDeathTime)
      ensures Lru.NoDup(selected) && |selected| <= GroupCount
      ensures forall i :: 0 <= i < |selected| ==> selected[i] < ssd.zones && ssd.flash.blocks[selected[i]].CanWrite()
    {
      var bs := ssd.flash.blocks;
      var available := CollectWritable(bs, blockDeathTime);
      var sorted := Sort(available);
      selected := TakeFront(sorted, GroupCount);
      SelectBlocksPicks(bs, blockDeathTime);
    }

    /**
      DTE::updateBlockDeathTime: see BlockDeathTime.  The loop runs over
      every page with a history, not only the pages of block b.
     */
    method UpdateBlockDeathTime(b: nat)
      requires Valid() && b < ssd.zones
      modifies this
      ensures Valid() && blockDeathTime == old(blockDeathTime)[b := BlockDeathTime(writeHistory, ssd.flash.blocks[b].validCnt)]
      ensures writeHistory == old(writeHistory) && cachedPageIds == old(cachedPageIds) && currentBlock == old(currentBlock)
      ensures freeBlocks == old(freeBlocks) && fullBlocks == old(fullBlocks)
    {
      var total := SumEstimates(writeHistory);
      var validPages := ssd.flash.blocks[b].validCnt;
      var d := if validPages > 0 then total / validPages else 0;
      blockDeathTime := blockDeathTime[b := d];
    }

    /**
      DTE::performGC: nothing without full blocks; otherwise the victim of
      the policy's rule leaves the full list, and a victim in range has its
      pages queued in the buffer for rewriting, is erased (the corrected
      erase, which unmaps those pages) and joins the free list.  ok is false
      for a policy name with no rule (the source throws).
     */
    method PerformGC() returns (ok: bool)
      requires Valid()
      modifies this, ssd
      ensures Valid() && writeHistory == old(writeHistory) && blockDeathTime == old(blockDeathTime)
      ensures currentBlock == old(currentBlock) && ssd.writeBuffer == old(ssd.writeBuffer)
      ensures old(fullBlocks) == [] ==>
        ok && ssd.flash == old(ssd.flash) && fullBlocks == [] && freeBlocks == old(freeBlocks) &&
        cachedPageIds == old(cachedPageIds)
      ensures old(fullBlocks) != [] ==> (ok <==> RuleOf(gcAlgorithm) != UnknownRule)
      ensures !ok ==> ssd.flash == old(ssd.flash) && freeBlocks == old(freeBlocks) && cachedPageIds == old(cachedPageIds)
      ensures ok && old(fullBlocks) != [] ==>
        var v := Victim(old(fullBlocks), RuleOf(gcAlgorithm), old(blockDeathTime), old(ssd.flash).blocks);
        fullBlocks == Lru.Remove(old(fullBlocks), v) &&
        (v < ssd.zones ==>
          cachedPageIds == old(cachedPageIds) + Queued(old(ssd.flash).blocks[v].ptl) &&
          ssd.flash == Scrubbed(old(ssd.flash), ssd.ppz, v) && freeBlocks == old(freeBlocks) + [v]) &&
        (v >= ssd.zones ==>
          ssd.flash == old(ssd.flash) && freeBlocks == old(freeBlocks) && cachedPageIds == old(cachedPageIds))
      ensures (Snap(), ok) == Gc(old(Snap()), Dim(), RuleOf(gcAlgorithm))
    {
      GcEffects(Snap(), Dim(), RuleOf(gcAlgorithm));
      if fullBlocks == [] {
        return true;
      }
      var v;
      ok, v := SelectVictimBlock();
      if !ok {
        return;
      }
      if v < ssd.zones {
        ReclaimVictim(v);
      }
    }

    /**
      DTE::selectVictimBlock: the rule the policy's name selects, the scan
      of the full list under it (see Lowest), and the chosen block taken off
      the list, every occurrence of it.
     */
    method SelectVictimBlock() returns (ok: bool, v: nat)
      requires Valid()
      modifies this
      ensures Valid() && ok == (RuleOf(gcAlgorithm) != UnknownRule)
      ensures ok ==> v == Victim(old(fullBlocks), RuleOf(gcAlgorithm), blockDeathTime, ssd.flash.blocks)
      ensures ok ==> fullBlocks == Lru.Remove(old(fullBlocks), v)
      ensures !ok ==> fullBlocks == old(fullBlocks)
      ensures writeHistory == old(writeHistory) && blockDeathTime == old(blockDeathTime) && cachedPageIds == old(cachedPageIds)
      ensures currentBlock == old(currentBlock) && freeBlocks == old(freeBlocks)
    {
      var rule := RuleOf(gcAlgorithm);
      if rule == UnknownRule {
        return false, 0;
      }
      v := LowestScan(fullBlocks, Keys(rule, blockDeathTime, ssd.flash.blocks), ssd.zones);
      var rest := Lru.Remove(fullBlocks, v);
      forall i | 0 <= i < |rest| ensures rest[i] < ssd.zones {
        assert rest[i] in rest;
      }
      fullBlocks := rest;
      ok := true;
    }

    /** The in-range half of performGC: queue the victim's pages, erase it, free it. */
    method ReclaimVictim(v: nat)
      requires Valid() && v < ssd.zones
      modifies this, ssd
      ensures Valid() && cachedPageIds == old(cachedPageIds) + Queued(old(ssd.flash).blocks[v].ptl)
      ensures ssd.flash == Scrubbed(old(ssd.flash), ssd.ppz, v) && freeBlocks == old(freeBlocks) + [v]
      ensures writeHistory == old(writeHistory) && blockDeathTime == old(blockDeathTime)
      ensures currentBlock == old(currentBlock) && fullBlocks == old(fullBlocks) && ssd.writeBuffer == old(ssd.writeBuffer)
      ensures Snap() == Reclaimed(old(Snap()), Dim(), v)
    {
      OkShape(ssd.flash, ssd.ppz);
      var q := QueueValidPages(ssd.flash.blocks[v].ptl);
      QueuedInRange(ssd.flash, ssd.ppz, v);
      cachedPageIds := cachedPageIds + q;
      ssd.EraseBlock(v);
      freeBlocks := freeBlocks + [v];
    }
  }
}
