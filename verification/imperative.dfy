/**
 The two loops of `checkApprovals`: one loop that fills the
 latest-state map, then one loop that counts its `Approved` entries.
 */
module UtilsImperative {
  import opened Reviews
  import opened Utils

  /** The first loop of `checkApprovals`: walk the reviews in order and let
      every team member's review overwrite that member's entry. */
  method FillLatestReviewByUser(reviews: seq<Review>, teamMembers: seq<Login>) returns (latestReviewByUser: map<Login, State>)
    ensures latestReviewByUser == LatestStates(reviews, teamMembers)
  {
    latestReviewByUser := map[];
    var i := 0;
    while i < |reviews|
      invariant 0 <= i <= |reviews|
      invariant latestReviewByUser == LatestStates(reviews[..i], teamMembers)
    {
      var review := reviews[i];
      assert reviews[..i + 1][..i] == reviews[..i];
      if IsReviewerInTeam(review.login, teamMembers) {
        latestReviewByUser := latestReviewByUser[review.login := review.state];
      }
      i := i + 1;
    }
    assert reviews[..i] == reviews;
  }

  /** The second loop of `checkApprovals`: count the entries whose state is
      `Approved`. Entries are visited in an arbitrary order, which the count
      does not depend on. */
  method CountApprovedEntries(latestReviewByUser: map<Login, State>) returns (count: nat)
    ensures count == |ApprovedKeys(latestReviewByUser)|
    ensures count <= |latestReviewByUser|
  {
    count := 0;
    var remaining := latestReviewByUser.Keys;
    ghost var visited: set<Login> := {};
    while remaining != {}
      invariant remaining + visited == latestReviewByUser.Keys
      invariant remaining !! visited
      invariant count == |ApprovedKeys(latestReviewByUser) * visited|
      invariant count <= |visited|
      decreases remaining
    {
      var login :| login in remaining;
      ghost var approved := ApprovedKeys(latestReviewByUser);
      if latestReviewByUser[login] == Approved {
        assert approved * (visited + {login}) == (approved * visited) + {login};
        count := count + 1;
      } else {
        assert approved * (visited + {login}) == approved * visited;
      }
      remaining := remaining - {login};
      visited := visited + {login};
    }
    assert visited == latestReviewByUser.Keys;
    assert ApprovedKeys(latestReviewByUser) * visited == ApprovedKeys(latestReviewByUser);
  }

  /** `checkApprovals` as written: the number of distinct team members whose
      last review approves. */
  method CheckApprovalsLoop(reviews: seq<Review>, teamMembers: seq<Login>) returns (count: nat)
    ensures count == |Approvers(reviews, teamMembers)|
    ensures count == CheckApprovals(reviews, teamMembers)
  {
    var latestReviewByUser := FillLatestReviewByUser(reviews, teamMembers);
    count := CountApprovedEntries(latestReviewByUser);
    ApprovedKeysAreApprovers(reviews, teamMembers);
  }
}
