/**
 Properties of the approval rule that relate several calls: what the two
 counts mean, which reviews can influence them, the last-review-wins
 behaviour, the bounds between them, and the threshold decision.
 */
module UtilsProperties {
  import opened Reviews
  import opened Utils

  /** The indices of the reviews `countApprovals` keeps. */
  ghost function TeamApprovalIndices(reviews: seq<Review>, teamMembers: seq<Login>): set<int>
  {
    set i | 0 <= i < |reviews| && reviews[i].state == Approved && reviews[i].login in teamMembers
  }

  /** `countApprovals` counts approving reviews by team members, one per
      review: the number of positions holding such a review. */
  lemma {:induction false} CountApprovalsCountsIndices(reviews: seq<Review>, teamMembers: seq<Login>)
    ensures CountApprovals(reviews, teamMembers) == |TeamApprovalIndices(reviews, teamMembers)|
  {
    if |reviews| > 0 {
      var n := |reviews|;
      var earlier := reviews[..n - 1];
      CountApprovalsCountsIndices(earlier, teamMembers);
      var before := TeamApprovalIndices(earlier, teamMembers);
      assert forall i :: 0 <= i < n - 1 ==> earlier[i] == reviews[i];
      if IsTeamApproval(reviews[n - 1], teamMembers) {
        assert TeamApprovalIndices(reviews, teamMembers) == before + {n - 1};
        assert n - 1 !in before;
      } else {
        assert TeamApprovalIndices(reviews, teamMembers) == before;
      }
    }
  }

  /** The reviews written by team members, in their original order. */
  function MemberReviews(reviews: seq<Review>, teamMembers: seq<Login>): seq<Review>
  {
    if |reviews| == 0 then []
    else
      var last := reviews[|reviews| - 1];
      var earlier := MemberReviews(reviews[..|reviews| - 1], teamMembers);
      if last.login in teamMembers then earlier + [last] else earlier
  }

  lemma {:induction false} MemberReviewsSameLatest(reviews: seq<Review>, teamMembers: seq<Login>)
    ensures LatestStates(MemberReviews(reviews, teamMembers), teamMembers) == LatestStates(reviews, teamMembers)
    ensures TeamApprovals(MemberReviews(reviews, teamMembers), teamMembers) == TeamApprovals(reviews, teamMembers)
  {
    if |reviews| > 0 {
      var n := |reviews|;
      var last := reviews[n - 1];
      var earlier := MemberReviews(reviews[..n - 1], teamMembers);
      MemberReviewsSameLatest(reviews[..n - 1], teamMembers);
      if last.login in teamMembers {
        assert (earlier + [last])[..|earlier|] == earlier;
      }
    }
  }

  /** Reviews by logins outside the team never matter: dropping all of them
      leaves both counts unchanged, whatever their states. */
  lemma NonMemberReviewsIgnored(reviews: seq<Review>, teamMembers: seq<Login>)
    ensures CheckApprovals(MemberReviews(reviews, teamMembers), teamMembers) == CheckApprovals(reviews, teamMembers)
    ensures CountApprovals(MemberReviews(reviews, teamMembers), teamMembers) == CountApprovals(reviews, teamMembers)
  {
    MemberReviewsSameLatest(reviews, teamMembers);
  }

  /** No reviews, or an empty team, give no approvals. */
  lemma EmptyInputsCountZero(reviews: seq<Review>, teamMembers: seq<Login>)
    ensures CheckApprovals([], teamMembers) == 0
    ensures CheckApprovals(reviews, []) == 0
    ensures CountApprovals([], teamMembers) == 0
    ensures CountApprovals(reviews, []) == 0
  {
    CountApprovalsCountsIndices(reviews, []);
    assert TeamApprovalIndices(reviews, []) == {};
  }

  /** Two review sequences that leave the same latest-state map keep doing so
      when the same reviews follow both. */
  lemma {:induction false} LatestStatesCongruence(p: seq<Review>, q: seq<Review>, rest: seq<Review>, teamMembers: seq<Login>)
    requires LatestStates(p, teamMembers) == LatestStates(q, teamMembers)
    ensures LatestStates(p + rest, teamMembers) == LatestStates(q + rest, teamMembers)
    decreases |rest|
  {
    if |rest| == 0 {
      assert p + rest == p;
      assert q + rest == q;
    } else {
      var front := rest[..|rest| - 1];
      LatestStatesCongruence(p, q, front, teamMembers);
      assert (p + rest)[..|p + rest| - 1] == p + front;
      assert (q + rest)[..|q + rest| - 1] == q + front;
    }
  }

  /** Last write wins: a review immediately followed by another review from
      the same login has no effect at all, wherever the pair stands in the
      sequence. */
  lemma LaterReviewOverrides(reviews: seq<Review>, teamMembers: seq<Login>, login: Login, first: State, second: State,
                             rest: seq<Review>)
    ensures LatestStates(reviews + [Review(login, first), Review(login, second)] + rest, teamMembers)
         == LatestStates(reviews + [Review(login, second)] + rest, teamMembers)
    ensures CheckApprovals(reviews + [Review(login, first), Review(login, second)] + rest, teamMembers)
         == CheckApprovals(reviews + [Review(login, second)] + rest, teamMembers)
  {
    var both := reviews + [Review(login, first), Review(login, second)];
    var one := reviews + [Review(login, second)];
    assert both[..|both| - 1] == reviews + [Review(login, first)];
    assert (reviews + [Review(login, first)])[..|reviews|] == reviews;
    assert one[..|one| - 1] == reviews;
    if login in teamMembers {
      var m := LatestStates(reviews, teamMembers);
      assert m[login := first][login := second] == m[login := second];
    }
    assert LatestStates(both, teamMembers) == LatestStates(one, teamMembers);
    LatestStatesCongruence(both, one, rest, teamMembers);
  }

  /** The appended review decides its author's entry. */
  lemma AppendedReviewDecides(reviews: seq<Review>, teamMembers: seq<Login>, review: Review)
    requires review.login in teamMembers
    ensures var latest := LatestStates(reviews + [review], teamMembers);
      review.login in latest && latest[review.login] == review.state
  {
  }

  /** The two orders of an approval and a change request by one member. */
  lemma LastWriteWinsScenarios()
    ensures CheckApprovals([Review("alice", Approved), Review("alice", ChangesRequested)], ["alice", "bob"]) == 0
    ensures CheckApprovals([Review("alice", ChangesRequested), Review("alice", Approved)], ["alice", "bob"]) == 1
  {
    var team := ["alice", "bob"];
    var ac := [Review("alice", Approved), Review("alice", ChangesRequested)];
    var ca := [Review("alice", ChangesRequested), Review("alice", Approved)];
    assert ac[..1] == [Review("alice", Approved)];
    assert ca[..1] == [Review("alice", ChangesRequested)];
    assert LatestStates(ac, team) == map["alice" := ChangesRequested];
    assert LatestStates(ca, team) == map["alice" := Approved];
    assert ApprovedKeys(map["alice" := ChangesRequested]) == {};
    assert ApprovedKeys(map["alice" := Approved]) == {"alice"};
  }

  /** A member approves, a member requests changes, an outsider approves:
      one approval. */
  lemma ScenarioOutsiderIgnored()
    ensures CheckApprovals([Review("alice", Approved), Review("bob", ChangesRequested), Review("carol", Approved)],
                           ["alice", "bob"]) == 1
  {
    var team := ["alice", "bob"];
    var rs := [Review("alice", Approved), Review("bob", ChangesRequested), Review("carol", Approved)];
    assert rs[..2] == [Review("alice", Approved), Review("bob", ChangesRequested)];
    assert rs[..2][..1] == [Review("alice", Approved)];
    assert "carol" !in team;
    var latest := map["alice" := Approved, "bob" := ChangesRequested];
    assert LatestStates(rs, team) == latest;
    assert ApprovedKeys(latest) == {"alice"};
  }

  /** `countApprovals` counts every approving review of a member, so a member
      who approved twice counts twice there and once in `checkApprovals`. */
  lemma DuplicateApprovalsCountedTwice()
    ensures CountApprovals([Review("alice", Approved), Review("alice", Approved)], ["alice"]) == 2
    ensures CheckApprovals([Review("alice", Approved), Review("alice", Approved)], ["alice"]) == 1
  {
    var rs := [Review("alice", Approved), Review("alice", Approved)];
    assert rs[..1] == [Review("alice", Approved)];
    assert LatestStates(rs, ["alice"]) == map["alice" := Approved];
    assert ApprovedKeys(map["alice" := Approved]) == {"alice"};
  }

  /** Appending one review changes the approver count by at most one, and only
      in the direction of its state: an approval cannot lower it, any other
      state cannot raise it, and a non-member's review leaves it unchanged. */
  lemma AppendedReviewMonotone(reviews: seq<Review>, teamMembers: seq<Login>, review: Review)
    ensures CheckApprovals(reviews + [review], teamMembers) <= CheckApprovals(reviews, teamMembers) + 1
    ensures review.state == Approved ==> CheckApprovals(reviews + [review], teamMembers) >= CheckApprovals(reviews, teamMembers)
    ensures review.state != Approved ==> CheckApprovals(reviews + [review], teamMembers) <= CheckApprovals(reviews, teamMembers)
    ensures review.login !in teamMembers ==> CheckApprovals(reviews + [review], teamMembers) == CheckApprovals(reviews, teamMembers)
  {
    var m := LatestStates(reviews, teamMembers);
    var all := reviews + [review];
    assert all[..|all| - 1] == reviews;
    var m' := LatestStates(all, teamMembers);
    ApprovedKeysAreApprovers(reviews, teamMembers);
    ApprovedKeysAreApprovers(all, teamMembers);
    if review.login in teamMembers {
      assert m' == m[review.login := review.state];
      SubsetCardinality(ApprovedKeys(m'), ApprovedKeys(m) + {review.login});
      if review.state == Approved {
        SubsetCardinality(ApprovedKeys(m), ApprovedKeys(m'));
      } else {
        SubsetCardinality(ApprovedKeys(m'), ApprovedKeys(m));
      }
    } else {
      assert m' == m;
    }
  }

  /** Distinct approvers never outnumber approving reviews: `checkApprovals`
      is at most `countApprovals`. */
  lemma {:induction false} CheckApprovalsAtMostCountApprovals(reviews: seq<Review>, teamMembers: seq<Login>)
    ensures CheckApprovals(reviews, teamMembers) <= CountApprovals(reviews, teamMembers)
  {
    if |reviews| > 0 {
      var n := |reviews|;
      var earlier := reviews[..n - 1];
      var last := reviews[n - 1];
      assert reviews == earlier + [last];
      CheckApprovalsAtMostCountApprovals(earlier, teamMembers);
      AppendedReviewMonotone(earlier, teamMembers, last);
    }
  }

  /** The decision: the requirement is met exactly when at least
      `requiredApprovals` distinct team members currently approve. */
  lemma ApprovalStatusMeansEnoughApprovers(reviews: seq<Review>, teamMembers: seq<Login>, requiredApprovals: int)
    ensures CheckApprovalStatus(requiredApprovals, CheckApprovals(reviews, teamMembers))
        <==> |Approvers(reviews, teamMembers)| >= requiredApprovals
  {
  }

  /** A further approving review never turns a met requirement into an unmet
      one. */
  lemma ApprovalStatusMonotone(reviews: seq<Review>, teamMembers: seq<Login>, review: Review, requiredApprovals: int)
    requires review.state == Approved
    requires CheckApprovalStatus(requiredApprovals, CheckApprovals(reviews, teamMembers))
    ensures CheckApprovalStatus(requiredApprovals, CheckApprovals(reviews + [review], teamMembers))
  {
    AppendedReviewMonotone(reviews, teamMembers, review);
  }

  /** Two approvals meet a requirement of two; one does not. */
  lemma ApprovalStatusExamples()
    ensures CheckApprovalStatus(2, 2)
    ensures !CheckApprovalStatus(2, 1)
  {
  }

  /** With an empty team only a requirement of zero or less is met. */
  lemma EmptyTeamDecision(reviews: seq<Review>, requiredApprovals: int)
    ensures CheckApprovalStatus(requiredApprovals, CheckApprovals(reviews, [])) <==> requiredApprovals <= 0
  {
  }
}
