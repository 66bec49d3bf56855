/** The poll record and the pure logic over its vote map: the initial map that
    a new poll starts with, the effect of one vote, and the vote total. */
module Polls {

  datatype Option<T> = None | Some(value: T)

  /** A stored poll. `createdAt` is the creation instant in milliseconds, the
      value the listing compares; `votes` maps a recipe id to its count. */
  datatype Poll = Poll(id: string, recipeIds: seq<string>, createdAt: int, votes: map<string, nat>)

  /** What one poll file in the directory holds: a record that parses as a
      poll, or one that cannot be read or parsed. */
  datatype Record = Readable(poll: Poll) | Unreadable

  /** The ids that occur in a sequence, duplicates collapsed. */
  function Elements(ids: seq<string>): set<string>
  {
    set i | i in ids
  }

  /** One step of the reduce that builds the initial vote map: each id in
      turn is set to 0 in the accumulator. */
  function ZeroEach(acc: map<string, nat>, ids: seq<string>): (r: map<string, nat>)
    ensures r.Keys == acc.Keys + Elements(ids)
    ensures forall k :: k in r ==> r[k] == (if k in ids then 0 else acc[k])
    decreases |ids|
  {
    if ids == [] then acc
    else
      assert Elements(ids) == {ids[0]} + Elements(ids[1..]) by {
        assert ids == [ids[0]] + ids[1..];
      }
      ZeroEach(acc[ids[0] := 0], ids[1..])
  }

  /** The vote map a new poll starts with: the reduce starts from an empty map. */
  function InitialVotes(recipeIds: seq<string>): (r: map<string, nat>)
    ensures r.Keys == Elements(recipeIds)
    ensures forall k :: k in r ==> r[k] == 0
  {
    ZeroEach(map[], recipeIds)
  }

  /** The vote map after one vote for `recipeId`: an existing counter goes up
      by one, a missing one appears at 1; keys are never lost and no count
      goes down. */
  function CastVote(votes: map<string, nat>, recipeId: string): (r: map<string, nat>)
    ensures r.Keys == votes.Keys + {recipeId}
    ensures forall k :: k in votes ==> votes[k] <= r[k]
    ensures forall k :: k in votes && k != recipeId ==> r[k] == votes[k]
    ensures recipeId in votes ==> r[recipeId] == votes[recipeId] + 1
    ensures recipeId !in votes ==> r[recipeId] == 1
  {
    if recipeId in votes then votes[recipeId := votes[recipeId] + 1]
    else votes[recipeId := 1]
  }

  /** Several votes cast one after another. */
  function CastVotes(votes: map<string, nat>, recipeIds: seq<string>): map<string, nat>
    decreases |recipeIds|
  {
    if recipeIds == [] then votes else CastVotes(CastVote(votes, recipeIds[0]), recipeIds[1..])
  }

  /** Some key of a non-empty vote map. */
  ghost function SomeKey(votes: map<string, nat>): (k: string)
    requires votes != map[]
    ensures k in votes
  {
    var k :| k in votes; k
  }

  /** The sum of all counts in a vote map. */
  ghost function Total(votes: map<string, nat>): nat
    decreases |votes|
  {
    if votes == map[] then 0
    else
      var k := SomeKey(votes);
      votes[k] + Total(votes - {k})
  }

  /** The total can be split at any key, not only at the one `Total` picks. */
  lemma {:induction false} TotalWithout(votes: map<string, nat>, k: string)
    requires k in votes
    ensures Total(votes) == votes[k] + Total(votes - {k})
    decreases |votes|
  {
    var j := SomeKey(votes);
    if j != k {
      calc {
        Total(votes);
        votes[j] + Total(votes - {j});
        { TotalWithout(votes - {j}, k); }
        votes[j] + votes[k] + Total(votes - {j} - {k});
        { assert votes - {j} - {k} == votes - {k} - {j}; }
        votes[k] + votes[j] + Total(votes - {k} - {j});
        { TotalWithout(votes - {k}, j); }
        votes[k] + Total(votes - {k});
      }
    }
  }

  /** Changing one entry changes the total by the difference. */
  lemma TotalUpdate(votes: map<string, nat>, k: string, n: nat)
    ensures k in votes ==> Total(votes[k := n]) + votes[k] == Total(votes) + n
    ensures k !in votes ==> Total(votes[k := n]) == Total(votes) + n
  {
    var updated := votes[k := n];
    TotalWithout(updated, k);
    assert updated - {k} == votes - {k};
    if k in votes {
      TotalWithout(votes, k);
    } else {
      assert votes - {k} == votes;
    }
  }

  /** Each vote raises the total by exactly one. */
  lemma CastVoteTotal(votes: map<string, nat>, recipeId: string)
    ensures Total(CastVote(votes, recipeId)) == Total(votes) + 1
  {
    if recipeId in votes {
      TotalUpdate(votes, recipeId, votes[recipeId] + 1);
    } else {
      TotalUpdate(votes, recipeId, 1);
    }
  }

  /** A map whose counts are all zero totals zero. */
  lemma {:induction false} ZeroTotal(votes: map<string, nat>)
    requires forall k :: k in votes ==> votes[k] == 0
    ensures Total(votes) == 0
    decreases |votes|
  {
    if votes != map[] {
      ZeroTotal(votes - {SomeKey(votes)});
    }
  }

  /** A new poll's vote map totals zero. */
  lemma InitialTotal(recipeIds: seq<string>)
    ensures Total(InitialVotes(recipeIds)) == 0
  {
    ZeroTotal(InitialVotes(recipeIds));
  }

  /** A run of votes raises the total by the number of votes. */
  lemma {:induction false} CastVotesTotal(votes: map<string, nat>, recipeIds: seq<string>)
    ensures Total(CastVotes(votes, recipeIds)) == Total(votes) + |recipeIds|
    decreases |recipeIds|
  {
    if recipeIds != [] {
      CastVoteTotal(votes, recipeIds[0]);
      CastVotesTotal(CastVote(votes, recipeIds[0]), recipeIds[1..]);
    }
  }

  /** After k votes on a new poll the counts sum to k. */
  lemma VotesCounted(recipeIds: seq<string>, ballots: seq<string>)
    ensures Total(CastVotes(InitialVotes(recipeIds), ballots)) == |ballots|
  {
    InitialTotal(recipeIds);
    CastVotesTotal(InitialVotes(recipeIds), ballots);
  }

  /** A run of votes keeps every key and lowers no count. */
  lemma {:induction false} CastVotesMonotone(votes: map<string, nat>, recipeIds: seq<string>)
    ensures votes.Keys <= CastVotes(votes, recipeIds).Keys
    ensures forall k :: k in votes ==> votes[k] <= CastVotes(votes, recipeIds)[k]
    decreases |recipeIds|
  {
    if recipeIds != [] {
      CastVotesMonotone(CastVote(votes, recipeIds[0]), recipeIds[1..]);
    }
  }

  /** Three votes for X on a new poll over X and Y leave X at 3 and Y at 0. */
  lemma ThreeVotesForOne()
    ensures CastVotes(InitialVotes(["X", "Y"]), ["X", "X", "X"]) == map["X" := 3, "Y" := 0]
  {
  }
}
