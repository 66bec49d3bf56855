/** The poll store: a directory holding one record per poll id, and the four
    operations over it: create, look up, list and vote. */
module PollStore {
  import opened Polls
  import opened Listing

  /** No id occurs twice in a directory listing. */
  predicate Distinct(names: seq<string>)
  {
    forall i, j :: 0 <= i < j < |names| ==> names[i] != names[j]
  }

  /** The polls directory, keyed by poll id (the file name without `.json`). */
  class Store {
    var files: map<string, Record>

    /** Every readable record sits under its own id. */
    ghost predicate Valid()
      reads this
    {
      forall id :: id in files && files[id].Readable? ==> files[id].poll.id == id
    }

    /** Opens the directory with the records it already holds. */
    constructor (dir: map<string, Record>)
      requires forall id :: id in dir && dir[id].Readable? ==> dir[id].poll.id == id
      ensures Valid()
      ensures files == dir
    {
      files := dir;
    }

    /** Looks a poll up by id: missing and unreadable records both give None. */
    function GetPoll(id: string): (r: Option<Poll>)
      reads this
      ensures r.Some? <==> id in files && files[id].Readable?
      ensures r.Some? ==> files[id] == Readable(r.value)
      ensures Valid() && r.Some? ==> r.value.id == id
    {
      if id in files then
        match files[id]
        case Readable(p) => Some(p)
        case Unreadable => None
      else None
    }

    /** Reads the listed ids in order and keeps the polls that could be read. */
    function ReadAll(names: seq<string>): (r: seq<Poll>)
      reads this
      ensures |r| <= |names|
      ensures forall p :: p in r <==> exists n :: n in names && GetPoll(n) == Some(p)
      decreases |names|
    {
      if names == [] then []
      else
        (match GetPoll(names[0])
         case Some(p) => [p]
         case None => []) + ReadAll(names[1..])
    }

    /** The listing: the readable polls of the listed ids, newest first. */
    function GetAllPolls(names: seq<string>): (r: seq<Poll>)
      reads this
      ensures NewestFirst(r)
      ensures multiset(r) == multiset(ReadAll(names))
    {
      SortNewestFirst(ReadAll(names))
    }

    /** Creates a poll under `id`, created at `createdAt`, and writes it. */
    method CreatePoll(recipeIds: seq<string>, id: string, createdAt: int) returns (p: Poll)
      requires Valid()
      modifies this
      ensures Valid()
      ensures p == Poll(id, recipeIds, createdAt, InitialVotes(recipeIds))
      ensures files == old(files)[id := Readable(p)]
      ensures p.votes.Keys == Elements(recipeIds) && Total(p.votes) == 0
      ensures GetPoll(id) == Some(p)
      ensures forall other :: other != id ==> GetPoll(other) == old(GetPoll(other))
    {
      p := Poll(id, recipeIds, createdAt, InitialVotes(recipeIds));
      InitialTotal(recipeIds);
      files := files[id := Readable(p)];
    }

    /** Casts one vote for `recipeId` on poll `pollId`: reads the poll, bumps
        or adds the counter, writes the poll back and returns it. A poll that
        is missing or unreadable gives None and nothing is written. */
    method AddVote(pollId: string, recipeId: string) returns (r: Option<Poll>)
      requires Valid()
      modifies this
      ensures Valid()
      ensures r.None? <==> old(GetPoll(pollId)).None?
      ensures r.None? ==> files == old(files)
      ensures r.Some? ==>
                var before := old(GetPoll(pollId)).value;
                r.value == before.(votes := CastVote(before.votes, recipeId))
      ensures r.Some? ==> r.value.id == pollId
      ensures r.Some? ==> Total(r.value.votes) == Total(old(GetPoll(pollId)).value.votes) + 1
      ensures r.Some? ==> files == old(files)[pollId := Readable(r.value)]
    {
      var found := GetPoll(pollId);
      if found.None? {
        return None;
      }
      var poll := found.value;
      var votes := poll.votes;
      if recipeId in votes {
        votes := votes[recipeId := votes[recipeId] + 1];
      } else {
        votes := votes[recipeId := 1];
      }
      CastVoteTotal(poll.votes, recipeId);
      poll := poll.(votes := votes);
      files := files[pollId := Readable(poll)];
      r := Some(poll);
    }
  }

  /** A listed id contributes its own poll when it can be read, and nothing
      otherwise. */
  lemma ReadAllSingle(s: Store, name: string)
    ensures s.GetPoll(name).Some? ==> s.ReadAll([name]) == [s.GetPoll(name).value]
    ensures s.GetPoll(name).None? ==> s.ReadAll([name]) == []
  {
  }

  /** Reading two listings one after the other gives the two results in the
      same order: with `ReadAllSingle`, the polls come out one per readable
      listed id, in the order of the listing. */
  lemma {:induction false} ReadAllAppend(s: Store, a: seq<string>, b: seq<string>)
    ensures s.ReadAll(a + b) == s.ReadAll(a) + s.ReadAll(b)
    decreases |a|
  {
    if a != [] {
      assert (a + b)[0] == a[0];
      assert (a + b)[1..] == a[1..] + b;
      ReadAllAppend(s, a[1..], b);
    } else {
      assert a + b == b;
    }
  }

  /** With distinct listed ids, each readable poll appears in `ReadAll` once
      if its id is listed and never otherwise. */
  lemma {:induction false} ReadAllOnce(s: Store, names: seq<string>, p: Poll)
    requires s.Valid()
    requires Distinct(names)
    ensures multiset(s.ReadAll(names))[p] ==
            if p.id in names && s.GetPoll(p.id) == Some(p) then 1 else 0
    decreases |names|
  {
    if names != [] {
      var rest := names[1..];
      assert Distinct(rest);
      ReadAllOnce(s, rest, p);
      assert names == [names[0]] + rest;
      if names[0] == p.id {
        assert p.id !in rest;
      }
    }
  }

  /** When the directory listing names every stored id once, the listing
      holds every readable poll exactly once and nothing else. */
  lemma ListingExact(s: Store, names: seq<string>, p: Poll)
    requires s.Valid()
    requires Distinct(names)
    requires forall id :: id in s.files ==> id in names
    ensures multiset(s.GetAllPolls(names))[p] ==
            if p.id in s.files && s.files[p.id] == Readable(p) then 1 else 0
  {
    ReadAllOnce(s, names, p);
  }

  /** Polls created at the same instant keep the order of the directory
      listing. */
  lemma ListingStable(s: Store, names: seq<string>, t: int)
    ensures CreatedAt(s.GetAllPolls(names), t) == CreatedAt(s.ReadAll(names), t)
  {
    SortStable(s.ReadAll(names), t);
  }
}
