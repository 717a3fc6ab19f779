/**
  The SSD's host write buffer: an LRU list of logical page ids, most recently
  written first.  A write that hits the buffer only moves the page to the
  front; a miss pushes it to the front and, once the list holds as many pages
  as the buffer size, drops the least recently written page, which is then
  written to flash.
 */
module Lru {
  datatype Option<T> = None | Some(value: T)

  predicate NoDup(s: seq<nat>) {
    forall i, j :: 0 <= i < j < |s| ==> s[i] != s[j]
  }

  /** The list with every occurrence of x taken out, the others in order. */
  function Remove(s: seq<nat>, x: nat): (r: seq<nat>)
    ensures forall y :: y in r <==> y in s && y != x
    ensures x in s ==> |r| < |s|
    ensures |r| <= |s|
    ensures NoDup(s) ==> NoDup(r)
  {
    if s == [] then []
    else if s[0] == x then Remove(s[1..], x)
    else
      var t := Remove(s[1..], x);
      assert forall i :: 1 <= i < |s| ==> s[i] in s[1..];
      assert NoDup(s) ==> NoDup(s[1..]) && s[0] !in s[1..] by {
        if NoDup(s) {
          forall i, j | 0 <= i < j < |s[1..]| ensures s[1..][i] != s[1..][j] {
            assert s[1..][i] == s[i + 1] && s[1..][j] == s[j + 1];
          }
          forall k | 0 <= k < |s[1..]| ensures s[1..][k] != s[0] {
            assert s[1..][k] == s[k + 1];
          }
        }
      }
      [s[0]] + t
  }

  /** The buffer after a write of lp, and the page the write pushes out to flash, if any. */
  datatype Touched = Touched(buffer: seq<nat>, evicted: Option<nat>)

  function Touch(buffer: seq<nat>, lp: nat, cap: nat): (r: Touched)
    requires cap > 0
    // a hit never reaches flash and keeps the same pages
    ensures lp in buffer ==> r.evicted == None && forall x :: x in r.buffer <==> x in buffer
    // a miss evicts exactly when the list reaches the buffer size, and then the oldest entry
    ensures lp !in buffer ==>
      (r.evicted != None <==> |buffer| + 1 >= cap) &&
      (r.evicted != None ==> r.evicted.value == (if buffer == [] then lp else buffer[|buffer| - 1]))
    // the written page is the most recent entry unless it was pushed straight out
    ensures r.evicted == Some(lp) || (|r.buffer| > 0 && r.buffer[0] == lp)
    // nothing is lost: buffered pages plus the evicted one are the old pages plus lp
    ensures forall x :: (x in r.buffer || r.evicted == Some(x)) <==> (x in buffer || x == lp)
    ensures NoDup(buffer) ==> NoDup(r.buffer) && (r.evicted != None ==> r.evicted.value !in r.buffer)
    ensures |buffer| < cap ==> |r.buffer| < cap
  {
    if lp in buffer then
      Touched([lp] + Remove(buffer, lp), None)
    else
      var b := [lp] + buffer;
      if |b| >= cap then
        assert b == b[..|b| - 1] + [b[|b| - 1]];
        assert forall x :: x in b <==> x in b[..|b| - 1] || x == b[|b| - 1];
        assert forall x :: x in b <==> x == lp || x in buffer;
        Touched(b[..|b| - 1], Some(b[|b| - 1]))
      else
        Touched(b, None)
  }
}
