/**
  Sorting of (key, id) pairs in the order of std::pair's operator<: by key,
  then by id.  The order is total and antisymmetric, so a sorted
  permutation is unique (SortedUnique): whatever algorithm std::sort runs,
  its result is Sort's.
 */
module PairSort {
  type Pair = (nat, nat)

  predicate Le(a: Pair, b: Pair) {
    a.0 < b.0 || (a.0 == b.0 && a.1 <= b.1)
  }

  predicate Sorted(s: seq<Pair>) {
    forall i, j :: 0 <= i < j < |s| ==> Le(s[i], s[j])
  }

  /** x inserted before the first element it does not follow. */
  function Insert(x: Pair, s: seq<Pair>): (r: seq<Pair>)
    requires Sorted(s)
    ensures Sorted(r) && multiset(r) == multiset(s) + multiset{x} && |r| == |s| + 1
  {
    if s == [] then [x]
    else if Le(x, s[0]) then [x] + s
    else
      var t := Insert(x, s[1..]);
      assert s == [s[0]] + s[1..];
      FollowsAll(s[0], x, s[1..], t);
      [s[0]] + t
  }

  /** A lower bound of x and of every element of u bounds every element of t, which holds the same elements. */
  lemma FollowsAll(h: Pair, x: Pair, u: seq<Pair>, t: seq<Pair>)
    requires Le(h, x) && (forall k :: 0 <= k < |u| ==> Le(h, u[k]))
    requires multiset(t) == multiset(u) + multiset{x}
    ensures forall k :: 0 <= k < |t| ==> Le(h, t[k])
  {
    forall k | 0 <= k < |t|
      ensures Le(h, t[k])
    {
      assert t[k] in multiset(t);
      if t[k] != x {
        assert t[k] in multiset(u);
        var j :| 0 <= j < |u| && u[j] == t[k];
      }
    }
  }

  /** Insertion sort. */
  function Sort(s: seq<Pair>): (r: seq<Pair>)
    ensures Sorted(r) && multiset(r) == multiset(s) && |r| == |s|
  {
    if s == [] then []
    else
      assert s == s[..|s| - 1] + [s[|s| - 1]];
      Insert(s[|s| - 1], Sort(s[..|s| - 1]))
  }

  /** Two sorted sequences with the same elements are equal. */
  lemma {:induction false} SortedUnique(a: seq<Pair>, b: seq<Pair>)
    requires Sorted(a) && Sorted(b) && multiset(a) == multiset(b)
    ensures a == b
    decreases |a|
  {
    assert |a| == |multiset(a)| == |multiset(b)| == |b|;
    if |a| > 0 {
      SameHead(a, b);
      SameTail(a, b);
      SortedUnique(a[1..], b[1..]);
      assert a == [a[0]] + a[1..] && b == [b[0]] + b[1..];
    }
  }

  lemma SameHead(a: seq<Pair>, b: seq<Pair>)
    requires |a| > 0 && |b| > 0
    requires Sorted(a) && Sorted(b) && multiset(a) == multiset(b)
    ensures a[0] == b[0]
  {
    assert a[0] in multiset(b) && b[0] in multiset(a);
    var i :| 0 <= i < |b| && b[i] == a[0];
    var j :| 0 <= j < |a| && a[j] == b[0];
    assert Le(b[0], a[0]) && Le(a[0], b[0]);
  }

  lemma SameTail(a: seq<Pair>, b: seq<Pair>)
    requires |a| > 0 && |b| > 0 && a[0] == b[0]
    requires Sorted(a) && Sorted(b) && multiset(a) == multiset(b)
    ensures Sorted(a[1..]) && Sorted(b[1..]) && multiset(a[1..]) == multiset(b[1..])
  {
    assert a == [a[0]] + a[1..] && b == [b[0]] + b[1..];
    assert multiset(a[1..]) == multiset(a) - multiset{a[0]};
    assert multiset(b[1..]) == multiset(b) - multiset{b[0]};
  }

  /** The ids of a sequence of pairs, in order. */
  function Ids(s: seq<Pair>): seq<nat>
  {
    seq(|s|, i requires 0 <= i < |s| => s[i].1)
  }

  lemma IdsAppend(a: seq<Pair>, b: seq<Pair>)
    ensures Ids(a + b) == Ids(a) + Ids(b)
  {
  }

  /** Pairs with the same elements have ids with the same elements. */
  lemma {:induction false} IdsPerm(a: seq<Pair>, b: seq<Pair>)
    requires multiset(a) == multiset(b)
    ensures multiset(Ids(a)) == multiset(Ids(b))
    decreases |a|
  {
    if a == [] {
      assert |b| == |multiset(b)| == 0;
    } else {
      assert a[0] in multiset(b);
      var k :| 0 <= k < |b| && b[k] == a[0];
      var rest := b[..k] + b[k + 1..];
      PermTail(a, b, k);
      IdsPerm(a[1..], rest);
      IdsSplitAt(a, 0);
      IdsSplitAt(b, k);
      assert a[..0] + a[1..] == a[1..];
    }
  }

  /** Taking the first element out of a and an equal one out of b leaves the same elements. */
  lemma PermTail(a: seq<Pair>, b: seq<Pair>, k: nat)
    requires multiset(a) == multiset(b) && a != [] && k < |b| && b[k] == a[0]
    ensures multiset(a[1..]) == multiset(b[..k] + b[k + 1..])
  {
    SplitAt(a, 0);
    SplitAt(b, k);
    assert a[..0] + a[1..] == a[1..];
    assert multiset(a[1..]) == multiset(a) - multiset{a[0]};
    assert multiset(b[..k] + b[k + 1..]) == multiset(b) - multiset{b[k]};
  }

  /** Taking out the element at k takes it out of the elements. */
  lemma SplitAt(b: seq<Pair>, k: nat)
    requires k < |b|
    ensures multiset(b) == multiset(b[..k] + b[k + 1..]) + multiset{b[k]}
  {
    assert b == b[..k] + [b[k]] + b[k + 1..];
  }

  /** Taking out the element at k takes its id out of the ids. */
  lemma IdsSplitAt(b: seq<Pair>, k: nat)
    requires k < |b|
    ensures multiset(Ids(b)) == multiset(Ids(b[..k] + b[k + 1..])) + multiset{b[k].1}
  {
    var ids := Ids(b);
    assert Ids(b[..k] + b[k + 1..]) == ids[..k] + ids[k + 1..];
    assert ids == ids[..k] + [ids[k]] + ids[k + 1..];
  }
}
