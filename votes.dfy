/** Vote arithmetic. The votes on one target form a map from voter to vote
    row; the target's score is the sum of the scores of those rows. */
module Votes {
  import opened Records

  /** Some voter of a non-empty vote map; the same one every time. */
  ghost function Pick(votes: map<string, Vote>): (u: string)
    requires votes != map[]
    ensures u in votes
  {
    var u :| u in votes; u
  }

  /** The sum of the scores of all current votes. */
  ghost function Sum(votes: map<string, Vote>): int
    decreases |votes|
  {
    if votes == map[] then 0
    else
      var u := Pick(votes);
      assert |votes - {u}| < |votes| by { assert (votes - {u}).Keys == votes.Keys - {u}; }
      votes[u].score + Sum(votes - {u})
  }

  /** The sum does not depend on the order in which voters are taken. */
  lemma {:induction false} SumRemove(votes: map<string, Vote>, u: string)
    requires u in votes
    ensures Sum(votes) == votes[u].score + Sum(votes - {u})
    decreases |votes|
  {
    var w := Pick(votes);
    if w != u {
      var rest := votes - {w};
      assert (votes - {w}).Keys == votes.Keys - {w};
      assert (votes - {u}).Keys == votes.Keys - {u};
      SumRemove(rest, u);
      SumRemove(votes - {u}, w);
      assert rest - {u} == (votes - {u}) - {w};
    }
  }

  /** Replacing (or adding) the vote of `u` swaps its contribution to the sum. */
  lemma SumUpsert(votes: map<string, Vote>, u: string, v: Vote)
    ensures Sum(votes[u := v]) == v.score + Sum(votes - {u})
    ensures u in votes ==> Sum(votes[u := v]) == Sum(votes) - votes[u].score + v.score
    ensures u !in votes ==> Sum(votes[u := v]) == Sum(votes) + v.score
  {
    SumRemove(votes[u := v], u);
    assert votes[u := v] - {u} == votes - {u};
    if u in votes {
      SumRemove(votes, u);
    } else {
      assert votes - {u} == votes;
    }
  }

  /** Computes the score of a target from its votes. */
  method TotalScore(votes: map<string, Vote>) returns (s: int)
    ensures s == Sum(votes)
  {
    s := 0;
    var rest := votes;
    while rest != map[]
      invariant s + Sum(rest) == Sum(votes)
      decreases |rest|
    {
      var u :| u in rest;
      SumRemove(rest, u);
      s := s + rest[u].score;
      assert (rest - {u}).Keys == rest.Keys - {u};
      rest := rest - {u};
    }
  }

  /** Some vote of a non-empty set of votes; the same one every time. */
  ghost function PickVote(vs: set<Vote>): (v: Vote)
    requires vs != {}
    ensures v in vs
  {
    var v :| v in vs; v
  }

  /** The sum of the scores of a set of vote rows, as a reader of a question
      or answer would add up its `votes`. */
  ghost function SumSet(vs: set<Vote>): int
    decreases vs
  {
    if vs == {} then 0 else var v := PickVote(vs); v.score + SumSet(vs - {v})
  }

  lemma {:induction false} SumSetRemove(vs: set<Vote>, v: Vote)
    requires v in vs
    ensures SumSet(vs) == v.score + SumSet(vs - {v})
    decreases vs
  {
    var w := PickVote(vs);
    if w != v {
      SumSetRemove(vs - {w}, v);
      SumSetRemove(vs - {v}, w);
      assert vs - {w} - {v} == vs - {v} - {w};
    }
  }

  /** When every vote row is filed under its own author, the score of the
      target is the sum of the scores of its vote rows. */
  lemma {:induction false} SumIsSumOfRows(votes: map<string, Vote>)
    requires forall u :: u in votes ==> votes[u].author == u
    ensures Sum(votes) == SumSet(votes.Values)
    decreases |votes|
  {
    if votes != map[] {
      var u := Pick(votes);
      var rest := votes - {u};
      assert rest.Keys == votes.Keys - {u};
      SumIsSumOfRows(rest);
      assert rest.Values == votes.Values - {votes[u]} by {
        forall v | v in votes.Values
          ensures v in rest.Values <==> v != votes[u]
        {
          var w :| w in votes && votes[w] == v;
          if w != u { assert w in rest; }
        }
      }
      SumSetRemove(votes.Values, votes[u]);
    }
  }

  /** The votes after a sequence of ballots is cast in order, each one
      replacing the earlier vote of the same author. */
  function Replay(votes: map<string, Vote>, ballots: seq<Vote>): map<string, Vote>
    decreases |ballots|
  {
    if ballots == [] then votes
    else Replay(votes[ballots[0].author := ballots[0]], ballots[1..])
  }

  /** Is there a ballot of `u` among `ballots`? */
  predicate CastBy(ballots: seq<Vote>, u: string)
  {
    exists i :: 0 <= i < |ballots| && ballots[i].author == u
  }

  /** Index of the last ballot of `u`. */
  function LastBy(ballots: seq<Vote>, u: string): (i: nat)
    requires CastBy(ballots, u)
    ensures i < |ballots| && ballots[i].author == u
    ensures forall j :: i < j < |ballots| ==> ballots[j].author != u
    decreases |ballots|
  {
    var n := |ballots| - 1;
    if ballots[n].author == u then n
    else
      assert CastBy(ballots[..n], u) by {
        var i :| 0 <= i < |ballots| && ballots[i].author == u;
        assert i < n && ballots[..n][i] == ballots[i];
      }
      var i := LastBy(ballots[..n], u);
      assert ballots[..n][i] == ballots[i];
      i
  }

  /** After replaying ballots, a voter's vote is the last ballot they cast,
      or their vote from before if they cast none; nobody else gains a vote. */
  lemma {:induction false} ReplayLastWins(votes: map<string, Vote>, ballots: seq<Vote>, u: string)
    ensures u in Replay(votes, ballots) <==> u in votes || CastBy(ballots, u)
    ensures CastBy(ballots, u) ==> Replay(votes, ballots)[u] == ballots[LastBy(ballots, u)]
    ensures !CastBy(ballots, u) && u in votes ==> Replay(votes, ballots)[u] == votes[u]
    decreases |ballots|
  {
    if ballots != [] {
      var b := ballots[0];
      var tail := ballots[1..];
      ReplayLastWins(votes[b.author := b], tail, u);
      assert CastBy(ballots, u) <==> b.author == u || CastBy(tail, u) by {
        if CastBy(tail, u) {
          var i :| 0 <= i < |tail| && tail[i].author == u;
          assert ballots[i + 1] == tail[i];
        }
        if CastBy(ballots, u) && b.author != u {
          var i :| 0 <= i < |ballots| && ballots[i].author == u;
          assert tail[i - 1] == ballots[i];
        }
      }
      if CastBy(tail, u) {
        var k := LastBy(tail, u);
        var j := LastBy(ballots, u);
        assert ballots[k + 1] == tail[k];
        assert j == k + 1;
      } else if b.author == u {
        assert LastBy(ballots, u) == 0;
      }
    }
  }
}
