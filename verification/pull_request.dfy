/** The pull-request entity: a two-state machine (OPEN, then MERGED) over a reviewer
    list bounded by MaxReviewers, with the greedy reviewer fill and the in-place swap. */
module Entities {
  import opened Domain
  import opened Seqs

  const MaxReviewers := 2

  /** `PullRequestStatus` is a string in the source; anything other than the two known
      values (the zero entity's "" among them) is kept as Unrecognised. */
  datatype Status = Open | Merged | Unrecognised(text: OtherStatusText)

  /** A status text that is neither of the two known values. */
  type OtherStatusText = t: string | t != "OPEN" && t != "MERGED"

  /** The text of a status, as `string(pullRequest.Status)` gives it. */
  function StatusText(s: Status): (t: string)
    ensures t == "OPEN" <==> s == Open
    ensures t == "MERGED" <==> s == Merged
  {
    match s
    case Open => "OPEN"
    case Merged => "MERGED"
    case Unrecognised(t) => t
  }

  /** Distinct statuses have distinct texts, so the text read back names the status. */
  lemma StatusTextInjective(s1: Status, s2: Status)
    requires StatusText(s1) == StatusText(s2)
    ensures s1 == s2
  {
  }

  /** A pull request as a value: what the store holds and what list reads return. */
  datatype PullRequestRow = PullRequestRow(
    id: PullRequestID,
    name: string,
    authorId: UserID,
    status: Status,
    reviewers: seq<UserID>,
    createdAt: Timestamp,
    mergedAt: Option<Timestamp>)

  /** The reviewer part of the entity invariant: bounded, author excluded, no repeats. */
  ghost predicate ReviewersOk(authorId: UserID, reviewers: seq<UserID>)
  {
    |reviewers| <= MaxReviewers && authorId !in reviewers && NoDuplicates(reviewers)
  }

  /** The entity invariant: the reviewer rules, and a merge time exactly when merged. */
  ghost predicate WellFormed(row: PullRequestRow)
  {
    ReviewersOk(row.authorId, row.reviewers) && (row.mergedAt.Some? <==> row.status == Merged)
  }

  /** The reviewers the greedy fill appends: walking `candidates` in order, it stops once
      `room` of them were taken, and skips the author and anyone already `present` (which
      includes the ones it took earlier). */
  function Greedy(candidates: seq<UserID>, authorId: UserID, present: seq<UserID>, room: nat): seq<UserID>
  {
    if candidates == [] || room == 0 then []
    else if candidates[0] == authorId || candidates[0] in present then
      Greedy(candidates[1..], authorId, present, room)
    else
      [candidates[0]] + Greedy(candidates[1..], authorId, present + [candidates[0]], room - 1)
  }

  /** One step of the fill, at position `i` of the candidates. */
  lemma GreedyStep(candidates: seq<UserID>, i: nat, authorId: UserID, present: seq<UserID>, room: nat)
    requires i < |candidates| && room > 0
    ensures Greedy(candidates[i..], authorId, present, room) ==
      if candidates[i] == authorId || candidates[i] in present then Greedy(candidates[i + 1..], authorId, present, room)
      else [candidates[i]] + Greedy(candidates[i + 1..], authorId, present + [candidates[i]], room - 1)
  {
    assert candidates[i..][1..] == candidates[i + 1..];
  }

  /** The fill never takes the author or someone already present, never takes anyone twice,
      takes only candidates, and takes at most `room` of them. */
  lemma {:induction false} GreedyKeepsReviewersDistinct(candidates: seq<UserID>, authorId: UserID, present: seq<UserID>, room: nat)
    requires NoDuplicates(present) && authorId !in present
    ensures var added := Greedy(candidates, authorId, present, room);
      && NoDuplicates(present + added)
      && authorId !in added
      && (forall x :: x in added ==> x in candidates)
      && |added| <= room
  {
    if candidates != [] && room != 0 {
      var c, rest := candidates[0], candidates[1..];
      if c == authorId || c in present {
        GreedyKeepsReviewersDistinct(rest, authorId, present, room);
      } else {
        var present' := present + [c];
        assert NoDuplicates(present') by {
          forall i, j | 0 <= i < j < |present'| ensures present'[i] != present'[j] {
            if j == |present| { assert present'[i] == present[i]; }
          }
        }
        GreedyKeepsReviewersDistinct(rest, authorId, present', room - 1);
        var tail := Greedy(rest, authorId, present', room - 1);
        assert present + ([c] + tail) == present' + tail;
      }
    }
  }

  /** The eligible candidates: distinct candidate IDs other than the author and those present. */
  function EligibleIds(candidates: seq<UserID>, authorId: UserID, present: seq<UserID>): set<UserID>
  {
    Elements(candidates) - {authorId} - Elements(present)
  }

  /** The fill takes as many reviewers as it has room for, or all the eligible distinct
      candidates when there are fewer. */
  lemma {:induction false} GreedyCount(candidates: seq<UserID>, authorId: UserID, present: seq<UserID>, room: nat)
    ensures |Greedy(candidates, authorId, present, room)| == Min(room, |EligibleIds(candidates, authorId, present)|)
  {
    if candidates == [] {
      assert EligibleIds(candidates, authorId, present) == {};
    } else if room > 0 {
      var c, rest := candidates[0], candidates[1..];
      if c == authorId || c in present {
        GreedyCount(rest, authorId, present, room);
        SkippedCount(candidates, authorId, present, room);
      } else {
        GreedyCount(rest, authorId, present + [c], room - 1);
        TakenCount(candidates, authorId, present, room);
      }
    }
  }

  /** A skipped first candidate changes neither the fill nor the eligible set. */
  lemma SkippedCount(candidates: seq<UserID>, authorId: UserID, present: seq<UserID>, room: nat)
    requires candidates != [] && room > 0
    requires candidates[0] == authorId || candidates[0] in present
    ensures Greedy(candidates, authorId, present, room) == Greedy(candidates[1..], authorId, present, room)
    ensures EligibleIds(candidates, authorId, present) == EligibleIds(candidates[1..], authorId, present)
  {
    assert candidates == [candidates[0]] + candidates[1..];
    EligibleDropsSkipped(candidates[0], candidates[1..], authorId, present);
  }

  /** A taken first candidate adds one to the fill and is one of the eligible IDs. */
  lemma TakenCount(candidates: seq<UserID>, authorId: UserID, present: seq<UserID>, room: nat)
    requires candidates != [] && room > 0
    requires candidates[0] != authorId && candidates[0] !in present
    ensures |Greedy(candidates, authorId, present, room)| ==
      |Greedy(candidates[1..], authorId, present + [candidates[0]], room - 1)| + 1
    ensures |EligibleIds(candidates, authorId, present)| ==
      |EligibleIds(candidates[1..], authorId, present + [candidates[0]])| + 1
  {
    assert candidates == [candidates[0]] + candidates[1..];
    EligibleSplitsTaken(candidates[0], candidates[1..], authorId, present);
  }

  lemma EligibleDropsSkipped(c: UserID, rest: seq<UserID>, authorId: UserID, present: seq<UserID>)
    requires c == authorId || c in present
    ensures EligibleIds([c] + rest, authorId, present) == EligibleIds(rest, authorId, present)
  {
    assert Elements([c] + rest) == {c} + Elements(rest);
  }

  lemma EligibleSplitsTaken(c: UserID, rest: seq<UserID>, authorId: UserID, present: seq<UserID>)
    requires c != authorId && c !in present
    ensures |EligibleIds([c] + rest, authorId, present)| == |EligibleIds(rest, authorId, present + [c])| + 1
  {
    var later := EligibleIds(rest, authorId, present + [c]);
    assert Elements([c] + rest) == {c} + Elements(rest);
    assert Elements(present + [c]) == Elements(present) + {c};
    assert EligibleIds([c] + rest, authorId, present) == later + {c};
    assert c !in later;
  }

  class PullRequest {
    const id: PullRequestID
    const name: string
    const authorId: UserID
    const createdAt: Timestamp
    var status: Status
    var reviewers: seq<UserID>
    var mergedAt: Option<Timestamp>

    /** The entity invariant on this object's fields. */
    ghost predicate Valid()
      reads this
    {
      WellFormed(Row())
    }

    /** The fields of this object as a value. */
    function Row(): PullRequestRow
      reads this
    {
      PullRequestRow(id, name, authorId, status, reviewers, createdAt, mergedAt)
    }

    /** NewPullRequest: an OPEN pull request with no reviewers and no merge time. */
    constructor (id: PullRequestID, name: string, authorId: UserID, createdAt: Timestamp)
      ensures this.id == id && this.name == name && this.authorId == authorId && this.createdAt == createdAt
      ensures status == Open && reviewers == [] && mergedAt == None
      ensures Valid()
    {
      this.id := id;
      this.name := name;
      this.authorId := authorId;
      this.createdAt := createdAt;
      status := Open;
      reviewers := [];
      mergedAt := None;
    }

    /** What the repository builds from a stored row: every field copied, then the
        reviewer list installed through SetReviewers. */
    constructor Load(row: PullRequestRow)
      ensures Row() == row
    {
      id := row.id;
      name := row.name;
      authorId := row.authorId;
      createdAt := row.createdAt;
      status := row.status;
      reviewers := [];
      mergedAt := row.mergedAt;
      new;
      SetReviewers(row.reviewers);
    }

    /** Replaces the reviewer list as given, with no check at all. */
    method SetReviewers(list: seq<UserID>)
      modifies this
      ensures reviewers == list
      ensures status == old(status) && mergedAt == old(mergedAt)
      ensures Valid() <==> ReviewersOk(authorId, list) && (mergedAt.Some? <==> status == Merged)
    {
      reviewers := list;
    }

    /** A defensive copy: a new array that shares nothing with this object. */
    method Reviewers() returns (copy: array<UserID>)
      ensures fresh(copy) && copy[..] == reviewers
    {
      copy := new UserID[|reviewers|];
      forall i | 0 <= i < |reviewers| {
        copy[i] := reviewers[i];
      }
    }

    method IsReviewer(userId: UserID) returns (found: bool)
      ensures found <==> userId in reviewers
    {
      for i := 0 to |reviewers|
        invariant userId !in reviewers[..i]
      {
        if reviewers[i] == userId {
          return true;
        }
      }
      return false;
    }

    /** Under the invariant, "merged" is exactly "a merge time is recorded". */
    predicate IsMerged()
      reads this
      ensures Valid() ==> (IsMerged() <==> mergedAt.Some?)
    {
      status == Merged
    }

    /** Under the invariant, "fully assigned" is exactly "no room left". */
    predicate IsFullyAssigned()
      reads this
      ensures Valid() ==> (IsFullyAssigned() <==> MaxReviewers - |reviewers| <= 0)
    {
      |reviewers| == MaxReviewers
    }

    /** The loop of the greedy fill: each candidate that is neither the author nor already
        a reviewer is appended, until `limit` were appended. */
    method AppendEligible(candidates: seq<UserID>, limit: nat) returns (picked: seq<UserID>)
      modifies this
      ensures status == old(status) && mergedAt == old(mergedAt)
      ensures picked == Greedy(candidates, authorId, old(reviewers), limit)
      ensures reviewers == old(reviewers) + picked
    {
      picked := [];
      var i := 0;
      while i < |candidates|
        invariant 0 <= i <= |candidates|
        invariant status == old(status) && mergedAt == old(mergedAt)
        invariant reviewers == old(reviewers) + picked
        invariant |picked| <= limit
        invariant picked + Greedy(candidates[i..], authorId, reviewers, limit - |picked|)
                  == Greedy(candidates, authorId, old(reviewers), limit)
      {
        if |picked| == limit {
          break;
        }
        GreedyStep(candidates, i, authorId, reviewers, limit - |picked|);
        var isReviewer := IsReviewer(candidates[i]);
        if !(candidates[i] == authorId || isReviewer) {
          reviewers := reviewers + [candidates[i]];
          picked := picked + [candidates[i]];
        }
        i := i + 1;
      }
    }

    /** The greedy fill. Returns None (Go's nil) when nothing was added. A list already
        longer than MaxReviewers makes the slice capacity negative, which is a run-time
        panic in Go: `panics` reports it, with nothing changed. */
    method AddReviewers(candidates: seq<UserID>) returns (added: Option<seq<UserID>>, panics: bool)
      modifies this
      ensures status == old(status) && mergedAt == old(mergedAt)
      ensures panics <==> !old(IsMerged()) && candidates != [] && |old(reviewers)| > MaxReviewers
      ensures panics ==> reviewers == old(reviewers) && added == None
      ensures old(IsMerged() || IsFullyAssigned()) || candidates == [] ==>
        reviewers == old(reviewers) && added == None
      ensures !old(IsMerged() || IsFullyAssigned()) && candidates != [] && |old(reviewers)| <= MaxReviewers ==>
        var fill := Greedy(candidates, authorId, old(reviewers), MaxReviewers - |old(reviewers)|);
        reviewers == old(reviewers) + fill && added == (if fill == [] then None else Some(fill))
      ensures old(Valid()) ==> Valid() && !panics
    {
      if IsMerged() || IsFullyAssigned() || |candidates| == 0 {
        return None, false;
      }
      if |reviewers| > MaxReviewers {
        return None, true;
      }
      var limit: nat := MaxReviewers - |reviewers|;
      var picked := AppendEligible(candidates, limit);
      if old(Valid()) {
        GreedyKeepsReviewersDistinct(candidates, authorId, old(reviewers), limit);
      }
      if |picked| == 0 {
        return None, false;
      }
      return Some(picked), false;
    }

    /** Replaces `oldId` by `newId`, after checking, in this order: not merged, `oldId`
        assigned, `newId` neither the author nor already assigned. */
    method ReassignReviewer(oldId: UserID, newId: UserID) returns (err: Option<Error>)
      modifies this
      ensures status == old(status) && mergedAt == old(mergedAt)
      ensures old(status) == Merged ==> err == Some(PRMerged)
      ensures old(status) != Merged && oldId !in old(reviewers) ==> err == Some(NotAssigned)
      ensures old(status) != Merged && oldId in old(reviewers) && (newId == authorId || newId in old(reviewers)) ==>
        err == Some(NoCandidate)
      ensures err.None? <==>
        old(status) != Merged && oldId in old(reviewers) && newId != authorId && newId !in old(reviewers)
      ensures err.Some? ==> reviewers == old(reviewers)
      ensures err.None? ==> reviewers == old(reviewers)[IndexOf(old(reviewers), oldId) := newId]
      ensures old(Valid()) ==> Valid()
    {
      if IsMerged() {
        return Some(PRMerged);
      }
      var isAssigned := IsReviewer(oldId);
      if !isAssigned {
        return Some(NotAssigned);
      }
      if newId == authorId {
        return Some(NoCandidate);
      }
      for j := 0 to |reviewers|
        invariant newId !in reviewers[..j]
      {
        if reviewers[j] == newId {
          return Some(NoCandidate);
        }
      }
      for i := 0 to |reviewers|
        invariant oldId !in reviewers[..i]
      {
        if reviewers[i] == oldId {
          ghost var before := reviewers;
          reviewers := reviewers[i := newId];
          IndexOfIsFirst(before, oldId, i);
          SwapKeepsReviewersOk(authorId, before, i, newId);
          return None;
        }
      }
      // oldId was found above, so the search always returns: the trailing
      // ErrNotAssigned of the source is unreachable
      assert false;
    }

    /** Idempotent: only the first merge sets the status and records the time. */
    method Merge(at: Timestamp)
      modifies this
      ensures status == Merged
      ensures mergedAt == if old(status) == Merged then old(mergedAt) else Some(at)
      ensures reviewers == old(reviewers)
      ensures old(Valid()) ==> Valid()
    {
      if status == Merged {
        return;
      }
      status := Merged;
      mergedAt := Some(at);
    }
  }

  /** Putting an ID that is neither the author nor already present in one slot keeps
      the reviewer rules. */
  lemma SwapKeepsReviewersOk(authorId: UserID, reviewers: seq<UserID>, i: nat, newId: UserID)
    requires i < |reviewers| && newId != authorId && newId !in reviewers
    ensures ReviewersOk(authorId, reviewers) ==> ReviewersOk(authorId, reviewers[i := newId])
  {
  }
}
