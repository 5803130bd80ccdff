/**
 The approval decision rule: team membership, the two ways of counting team
 approvals (every approving review, or every member whose latest review
 approves), and the threshold comparison.
 */
module Utils {
  import opened Reviews

  /** `teamMembers.includes(reviewer)`: a left-to-right scan comparing logins
      by equality. */
  function IsReviewerInTeam(reviewer: Login, teamMembers: seq<Login>): (found: bool)
    ensures found <==> reviewer in teamMembers
  {
    if |teamMembers| == 0 then false
    else
      assert teamMembers == [teamMembers[0]] + teamMembers[1..];
      teamMembers[0] == reviewer || IsReviewerInTeam(reviewer, teamMembers[1..])
  }

  /** The filter condition of `countApprovals`: an approving review whose
      author is on the team. */
  predicate IsTeamApproval(review: Review, teamMembers: seq<Login>) {
    review.state == Approved && IsReviewerInTeam(review.login, teamMembers)
  }

  /** `reviews.filter(IsTeamApproval)`: the team approvals, in review order,
      duplicates kept. */
  function TeamApprovals(reviews: seq<Review>, teamMembers: seq<Login>): (kept: seq<Review>)
    ensures |kept| <= |reviews|
    ensures forall k :: 0 <= k < |kept| ==> kept[k] in reviews && IsTeamApproval(kept[k], teamMembers)
  {
    if |reviews| == 0 then []
    else
      var last := reviews[|reviews| - 1];
      var earlier := TeamApprovals(reviews[..|reviews| - 1], teamMembers);
      assert forall r :: r in reviews[..|reviews| - 1] ==> r in reviews;
      if IsTeamApproval(last, teamMembers) then earlier + [last] else earlier
  }

  /** `countApprovals`: the number of approving reviews by team members. A
      member who approved twice is counted twice. */
  function CountApprovals(reviews: seq<Review>, teamMembers: seq<Login>): (n: nat)
    ensures n <= |reviews|
  {
    |TeamApprovals(reviews, teamMembers)|
  }

  /** One pass of the first loop of `checkApprovals`: a review by a team
      member overwrites that member's entry; any other review is skipped. */
  function Record(latest: map<Login, State>, review: Review, teamMembers: seq<Login>): (updated: map<Login, State>)
    ensures review.login in teamMembers ==> review.login in updated && updated[review.login] == review.state
    ensures review.login !in teamMembers ==> updated == latest
    ensures updated.Keys - {review.login} == latest.Keys - {review.login}
    ensures forall u :: u in latest && u != review.login ==> u in updated && updated[u] == latest[u]
  {
    if IsReviewerInTeam(review.login, teamMembers) then latest[review.login := review.state]
    else latest
  }

  /** The team members who submitted at least one review. */
  ghost function TeamReviewers(reviews: seq<Review>, teamMembers: seq<Login>): set<Login>
  {
    set i | 0 <= i < |reviews| && reviews[i].login in teamMembers :: reviews[i].login
  }

  /** `latestReviewByUser` after the first loop of `checkApprovals`: the left
      fold of `Record` over the reviews, starting from the empty map. Its keys
      are exactly the team members who reviewed. */
  function LatestStates(reviews: seq<Review>, teamMembers: seq<Login>): (latest: map<Login, State>)
    ensures latest.Keys == TeamReviewers(reviews, teamMembers)
  {
    if |reviews| == 0 then map[]
    else
      var earlier := reviews[..|reviews| - 1];
      var last := reviews[|reviews| - 1];
      assert TeamReviewers(reviews, teamMembers) ==
        TeamReviewers(earlier, teamMembers) + (if last.login in teamMembers then {last.login} else {}) by {
        TeamReviewersSnoc(reviews, teamMembers);
      }
      Record(LatestStates(earlier, teamMembers), last, teamMembers)
  }

  lemma TeamReviewersSnoc(reviews: seq<Review>, teamMembers: seq<Login>)
    requires |reviews| > 0
    ensures var last := reviews[|reviews| - 1];
      TeamReviewers(reviews, teamMembers) ==
      TeamReviewers(reviews[..|reviews| - 1], teamMembers) + (if last.login in teamMembers then {last.login} else {})
  {
  }

  /** Review `i` is the last one its author submitted. */
  ghost predicate IsLast(reviews: seq<Review>, i: int)
    requires 0 <= i < |reviews|
  {
    forall j :: i < j < |reviews| ==> reviews[j].login != reviews[i].login
  }

  /** The reference meaning of `checkApprovals`: the team members whose last
      review approves. */
  ghost function Approvers(reviews: seq<Review>, teamMembers: seq<Login>): set<Login>
  {
    set i | 0 <= i < |reviews| && reviews[i].login in teamMembers && reviews[i].state == Approved && IsLast(reviews, i)
      :: reviews[i].login
  }

  /** The logins whose recorded state is `Approved`. */
  function ApprovedKeys(latest: map<Login, State>): set<Login>
  {
    set u | u in latest && latest[u] == Approved
  }

  /** A review that is its author's last one stays so when the final review is
      dropped, and a last review of the prefix stays last when the final
      review has another author. */
  lemma IsLastSnoc(reviews: seq<Review>, i: int)
    requires 0 <= i < |reviews| - 1
    ensures IsLast(reviews, i) <==>
      (IsLast(reviews[..|reviews| - 1], i) && reviews[|reviews| - 1].login != reviews[i].login)
  {
  }

  /** A team member's entry holds the state of that member's last review. */
  lemma {:induction false} LastReviewIsEntry(reviews: seq<Review>, teamMembers: seq<Login>, i: int)
    requires 0 <= i < |reviews| && reviews[i].login in teamMembers && IsLast(reviews, i)
    ensures reviews[i].login in LatestStates(reviews, teamMembers)
    ensures LatestStates(reviews, teamMembers)[reviews[i].login] == reviews[i].state
  {
    var n := |reviews|;
    if i < n - 1 {
      var earlier := reviews[..n - 1];
      IsLastSnoc(reviews, i);
      assert earlier[i] == reviews[i];
      LastReviewIsEntry(earlier, teamMembers, i);
    }
  }

  /** Every review is followed, possibly by itself, by the last review of the
      same author. */
  lemma {:induction false} HasLastReview(reviews: seq<Review>, i: int)
    requires 0 <= i < |reviews|
    ensures exists k :: i <= k < |reviews| && reviews[k].login == reviews[i].login && IsLast(reviews, k)
    decreases |reviews| - i
  {
    if !IsLast(reviews, i) {
      var j :| i < j < |reviews| && reviews[j].login == reviews[i].login;
      HasLastReview(reviews, j);
    }
  }

  /** Replacing the latest-state map by its reference meaning. */
  lemma ApprovedKeysAreApprovers(reviews: seq<Review>, teamMembers: seq<Login>)
    ensures ApprovedKeys(LatestStates(reviews, teamMembers)) == Approvers(reviews, teamMembers)
  {
    var latest := LatestStates(reviews, teamMembers);
    forall u | u in ApprovedKeys(latest) ensures u in Approvers(reviews, teamMembers) {
      assert u in TeamReviewers(reviews, teamMembers);
      var j :| 0 <= j < |reviews| && reviews[j].login in teamMembers && reviews[j].login == u;
      HasLastReview(reviews, j);
      var i :| j <= i < |reviews| && reviews[i].login == u && IsLast(reviews, i);
      LastReviewIsEntry(reviews, teamMembers, i);
    }
    forall u | u in Approvers(reviews, teamMembers) ensures u in ApprovedKeys(latest) {
      var i :| 0 <= i < |reviews| && reviews[i].login in teamMembers && reviews[i].state == Approved
        && IsLast(reviews, i) && reviews[i].login == u;
      LastReviewIsEntry(reviews, teamMembers, i);
    }
  }

  lemma SubsetCardinality<T>(small: set<T>, big: set<T>)
    requires small <= big
    ensures |small| <= |big|
  {
    assert big == small + (big - small);
  }

  /** `checkApprovals`: the number of entries of the latest-state map whose
      state is `Approved`, that is, the number of distinct team members whose
      last review approves; it never exceeds the number of distinct roster
      logins. */
  function CheckApprovals(reviews: seq<Review>, teamMembers: seq<Login>): (count: nat)
    ensures count == |Approvers(reviews, teamMembers)|
    ensures count <= |Roster(teamMembers)|
  {
    var latest := LatestStates(reviews, teamMembers);
    ApprovedKeysAreApprovers(reviews, teamMembers);
    SubsetCardinality(ApprovedKeys(latest), Roster(teamMembers));
    |ApprovedKeys(latest)|
  }

  /** `checkApprovalStatus`: the requirement is met when the actual number of
      approvals reaches the required number. */
  function CheckApprovalStatus(requiredApprovals: int, actualApprovals: int): bool
  {
    actualApprovals >= requiredApprovals
  }
}
