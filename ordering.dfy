/** Newest-first ordering by creation time, shared by every list the store returns.
    The key is passed as a function so that messages, replies and admins share one sort. */
module Ordering {

  /** Every row is at least as new as every row after it. */
  ghost predicate NewestFirst<T>(s: seq<T>, at: T -> nat)
  {
    forall i, j :: 0 <= i < j < |s| ==> at(s[i]) >= at(s[j])
  }

  /** Places `x` before the first row that is not newer than it. */
  function InsertNewest<T>(x: T, s: seq<T>, at: T -> nat): (r: seq<T>)
    requires NewestFirst(s, at)
    ensures NewestFirst(r, at)
    ensures multiset(r) == multiset(s) + multiset{x}
    ensures |r| == |s| + 1
  {
    if s == [] || at(s[0]) <= at(x) then
      HeadBounds(s, at);
      ConsNewest(x, s, at);
      [x] + s
    else
      HeadBounds(s, at);
      var rest := InsertNewest(x, s[1..], at);
      assert s == [s[0]] + s[1..];
      BoundedByHead(x, s, rest, at);
      ConsNewest(s[0], rest, at);
      [s[0]] + rest
  }

  /** The tail of a newest-first list is newest first, and no row in it is newer than the head. */
  lemma HeadBounds<T>(s: seq<T>, at: T -> nat)
    requires NewestFirst(s, at)
    ensures s != [] ==> NewestFirst(s[1..], at)
    ensures forall k :: 0 <= k < |s| ==> at(s[k]) <= at(s[0])
  {
  }

  /** A row no older than every row of a newest-first list can go in front of it. */
  lemma ConsNewest<T>(h: T, s: seq<T>, at: T -> nat)
    requires NewestFirst(s, at)
    requires forall k :: 0 <= k < |s| ==> at(s[k]) <= at(h)
    ensures NewestFirst([h] + s, at)
  {
    var t := [h] + s;
    forall i, j | 0 <= i < j < |t| ensures at(t[i]) >= at(t[j]) {
      assert t[j] == s[j - 1];
      if i > 0 {
        assert t[i] == s[i - 1];
      }
    }
  }

  /** Whatever is built from `x` and the tail of `s` is no newer than `s`'s head. */
  lemma BoundedByHead<T>(x: T, s: seq<T>, rest: seq<T>, at: T -> nat)
    requires NewestFirst(s, at) && s != [] && at(x) < at(s[0])
    requires multiset(rest) == multiset(s[1..]) + multiset{x}
    ensures forall k :: 0 <= k < |rest| ==> at(rest[k]) <= at(s[0])
  {
    forall k | 0 <= k < |rest|
      ensures at(rest[k]) <= at(s[0])
    {
      var y := rest[k];
      assert y in multiset(rest);
      if y != x {
        assert y in multiset(s[1..]);
        var j :| 0 <= j < |s[1..]| && s[1..][j] == y;
        assert s[j + 1] == y;
      }
    }
  }

  /** The rows of `s`, each once per occurrence, newest first; equal timestamps in no promised order. */
  function SortNewest<T>(s: seq<T>, at: T -> nat): (r: seq<T>)
    ensures NewestFirst(r, at)
    ensures multiset(r) == multiset(s)
    ensures |r| == |s|
  {
    if s == [] then
      []
    else
      assert s == [s[0]] + s[1..];
      InsertNewest(s[0], SortNewest(s[1..], at), at)
  }
}
