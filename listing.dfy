/** The order of the poll listing: newest first by `createdAt`, ties kept in
    the order the directory listed them (the sort is stable). */
module Listing {
  import opened Polls

  /** Non-increasing in `createdAt`. */
  predicate NewestFirst(s: seq<Poll>)
  {
    forall i, j :: 0 <= i < j < |s| ==> s[i].createdAt >= s[j].createdAt
  }

  /** The polls of `s` created at instant `t`, in their order in `s`. */
  function CreatedAt(s: seq<Poll>, t: int): seq<Poll>
  {
    if s == [] then []
    else (if s[0].createdAt == t then [s[0]] else []) + CreatedAt(s[1..], t)
  }

  /** Places `p` before the first poll that is not newer than it. */
  function Insert(p: Poll, s: seq<Poll>): (r: seq<Poll>)
    requires NewestFirst(s)
    ensures NewestFirst(r)
    ensures multiset(r) == multiset(s) + multiset{p}
    ensures |r| == |s| + 1
    ensures r[0] == p || (s != [] && r[0] == s[0])
    decreases |s|
  {
    if s == [] || s[0].createdAt <= p.createdAt then [p] + s
    else
      assert s == [s[0]] + s[1..];
      [s[0]] + Insert(p, s[1..])
  }

  /** The listing order: a stable sort by `createdAt`, newest first. */
  function SortNewestFirst(s: seq<Poll>): (r: seq<Poll>)
    ensures NewestFirst(r)
    ensures multiset(r) == multiset(s)
    decreases |s|
  {
    if s == [] then []
    else
      assert s == [s[0]] + s[1..];
      Insert(s[0], SortNewestFirst(s[1..]))
  }

  /** A sequence with no poll created at `t` has none to filter. */
  lemma {:induction false} NoneCreatedAt(s: seq<Poll>, t: int)
    requires forall i :: 0 <= i < |s| ==> s[i].createdAt != t
    ensures CreatedAt(s, t) == []
    decreases |s|
  {
    if s != [] {
      NoneCreatedAt(s[1..], t);
    }
  }

  /** Inserting keeps the order among polls of equal age: `p` lands before
      every poll created at the same instant. */
  lemma {:induction false} InsertStable(p: Poll, s: seq<Poll>, t: int)
    requires NewestFirst(s)
    ensures CreatedAt(Insert(p, s), t) ==
            (if p.createdAt == t then [p] else []) + CreatedAt(s, t)
    decreases |s|
  {
    if s == [] || s[0].createdAt <= p.createdAt {
      assert ([p] + s)[1..] == s;
    } else {
      var r := [s[0]] + Insert(p, s[1..]);
      assert r[1..] == Insert(p, s[1..]);
      InsertStable(p, s[1..], t);
      if p.createdAt == t {
        assert s[0].createdAt != t;
      }
    }
  }

  /** The sort is stable: polls of equal age keep their relative order. */
  lemma {:induction false} SortStable(s: seq<Poll>, t: int)
    ensures CreatedAt(SortNewestFirst(s), t) == CreatedAt(s, t)
    decreases |s|
  {
    if s != [] {
      SortStable(s[1..], t);
      InsertStable(s[0], SortNewestFirst(s[1..]), t);
    }
  }

  /** A newest-first sequence is fixed by what it holds at each instant: any
      two newest-first sequences that agree on the polls of every instant,
      in order, are equal. So `SortNewestFirst` gives the one result every
      stable sort by this comparison gives. */
  lemma {:induction false} StableOrderUnique(a: seq<Poll>, b: seq<Poll>)
    requires NewestFirst(a) && NewestFirst(b)
    requires forall t :: CreatedAt(a, t) == CreatedAt(b, t)
    ensures a == b
    decreases |a|
  {
    if a == [] {
      if b != [] {
        assert false;
      }
    } else if b == [] {
      NoneCreatedAt(b, a[0].createdAt);
      assert false;
    } else {
      var m, n := a[0].createdAt, b[0].createdAt;
      if m > n {
        NoneCreatedAt(b, m);
        assert false;
      }
      if n > m {
        NoneCreatedAt(a, n);
        assert false;
      }
      assert CreatedAt(a, m)[0] == a[0];
      assert CreatedAt(b, m)[0] == b[0];
      assert a[0] == b[0];
      forall t
        ensures CreatedAt(a[1..], t) == CreatedAt(b[1..], t)
      {
        var head := if a[0].createdAt == t then [a[0]] else [];
        assert CreatedAt(a, t) == head + CreatedAt(a[1..], t);
        assert CreatedAt(b, t) == head + CreatedAt(b[1..], t);
        assert CreatedAt(a[1..], t) == CreatedAt(a, t)[|head|..];
        assert CreatedAt(b[1..], t) == CreatedAt(b, t)[|head|..];
      }
      StableOrderUnique(a[1..], b[1..]);
      assert a == [a[0]] + a[1..];
      assert b == [b[0]] + b[1..];
    }
  }
}
