# Team approval rule

A Dafny model of the decision rule of a GitHub Action that checks whether a
pull request has enough approvals from members of one team. The rule lives in
`src/utils.js`. Its inputs are the pull request's reviews, oldest first, and
the team's roster.

- `isReviewerInTeam`: is a login on the roster?
- `countApprovals`: the number of approving reviews by team members.
  Duplicates are counted.
- `checkApprovals`: the number of distinct team members whose latest review
  is an approval. It walks the reviews and keeps one entry per team member in
  a map. A later review overwrites an earlier one. It then counts the
  `APPROVED` entries.
- `checkApprovalStatus`: the requirement is met when `actual >= required`.

Files:

- `reviews.dfy` (module `Reviews`): logins, review states, reviews, the
  roster as a set.
- `utils.dfy` (module `Utils`): the four operations as pure functions. It also
  holds the fold that builds the latest-state map (`LatestStates`) and the
  reference meaning of `checkApprovals` (`Approvers`: the team members whose
  last review, by position, approves).
- `imperative.dfy` (module `UtilsImperative`): the two loops of
  `checkApprovals` as written, proved equal to the functional model.
- `properties.dfy` (module `UtilsProperties`): lemmas relating several
  calls.

The functions are pure, so evaluating the same reviews and roster twice gives
the same count. Dafny guarantees this by construction and it needs no lemma.

## Model

| member | source | states |
|---|---|---|
| `Utils.IsReviewerInTeam` | src/utils.js:16-18 | true exactly when the login occurs somewhere in the roster list |
| `Utils.TeamApprovals` | src/utils.js:28-31 | every kept element is a review taken from `reviews` that approves and whose author is on the team; the result is no longer than `reviews` |
| `Utils.CountApprovals` | src/utils.js:27-32 | the count of kept reviews never exceeds the number of reviews |
| `UtilsProperties.CountApprovalsCountsIndices` | src/utils.js:27-32 | `countApprovals` equals the number of positions holding an approving review by a team member, so repeated approvals by one member all count |
| `UtilsProperties.DuplicateApprovalsCountedTwice` | src/utils.js:27-32 | two approvals by the same member count 2 in `countApprovals` but 1 in `checkApprovals` |
| `Utils.Record` | src/utils.js:86-88 | a team member's review sets that member's entry to its state; a review by anyone else leaves the map unchanged; no other entry changes |
| `Utils.LatestStates` | src/utils.js:84-89 | the keys of the latest-state map are exactly the team members who submitted at least one review |
| `Utils.LastReviewIsEntry` | src/utils.js:84-89 | for a team member's last review in sequence order, the map holds that member with exactly that review's state |
| `Utils.HasLastReview` | src/utils.js:85-88 | every review is followed, possibly by itself, by its author's last review, so every member in the map has a last review that decides the entry |
| `Utils.ApprovedKeysAreApprovers` | src/utils.js:90-94 | the map entries counted as `APPROVED` are exactly the team members whose last review approves |
| `Utils.CheckApprovals` | src/utils.js:82-96 | the result is the number of distinct team members whose last review approves, and is at most the number of distinct roster logins |
| `UtilsImperative.FillLatestReviewByUser` | src/utils.js:84-89 | the first loop builds the same map as the left fold, keyed by the team members who reviewed |
| `UtilsImperative.CountApprovedEntries` | src/utils.js:91-95 | the second loop counts exactly the entries whose state is `APPROVED`, at most one per entry |
| `UtilsImperative.CheckApprovalsLoop` | src/utils.js:82-96 | the loop version returns the number of distinct team members whose last review approves, equal to the functional model |
| `UtilsProperties.EmptyInputsCountZero` | src/utils.js:84-95 | no reviews, or an empty roster, give 0 for both counts |
| `UtilsProperties.MemberReviewsSameLatest` | src/utils.js:85-88 | keeping only the reviews by team members gives the same latest-state map and the same filtered approvals |
| `UtilsProperties.NonMemberReviewsIgnored` | src/utils.js:85-88 | removing every review by a non-member leaves both counts unchanged, whatever those reviews' states |
| `UtilsProperties.LatestStatesCongruence` | src/utils.js:85-88 | two review sequences that leave the same latest-state map still do so after the same further reviews are appended to both |
| `UtilsProperties.LaterReviewOverrides` | src/utils.js:85-88 | a review immediately followed by another review from the same login has no effect on the map or on the count, wherever the pair stands in the sequence |
| `UtilsProperties.AppendedReviewDecides` | src/utils.js:86-88 | after appending a team member's review, that member's entry is the appended review's state |
| `UtilsProperties.LastWriteWinsScenarios` | src/utils.js:85-88 | approval then change request by alice gives 0; the reverse order gives 1 |
| `UtilsProperties.ScenarioOutsiderIgnored` | src/utils.js:82-96 | alice approves, bob requests changes, outsider carol approves: the count is 1 |
| `UtilsProperties.AppendedReviewMonotone` | src/utils.js:84-95 | appending one review raises the count by at most one; an approval never lowers it; any other state never raises it; a review by a non-member leaves it unchanged |
| `UtilsProperties.CheckApprovalsAtMostCountApprovals` | src/utils.js:82-96 | `checkApprovals` never exceeds `countApprovals` (src/utils.js:27-32) on the same inputs |
| `Utils.CheckApprovalStatus` | src/utils.js:41-43 | no contract of its own (it is the comparison itself); its meaning is stated by the four `ApprovalStatus`/`EmptyTeamDecision` lemma rows for these lines |
| `UtilsProperties.ApprovalStatusMeansEnoughApprovers` | src/utils.js:41-43 | the requirement is met exactly when at least `required` distinct team members' last reviews approve |
| `UtilsProperties.ApprovalStatusMonotone` | src/utils.js:41-43 | once the requirement is met, a further approving review keeps it met |
| `UtilsProperties.ApprovalStatusExamples` | src/utils.js:41-43 | required 2 with 2 approvals is met; required 2 with 1 approval is not |
| `UtilsProperties.EmptyTeamDecision` | src/utils.js:41-43 | with an empty roster the requirement is met exactly when it is zero or less |

## Left out

- `getPullRequestReviews` and `getTeamMembers` (src/utils.js:52-74): network calls through the Octokit client. Their results are the two input sequences.
- `src/index.js`: reading the action inputs, the early exit when there is no pull request, the status updates and the top-level error handler. These are I/O wiring. Its `>=` decision (src/index.js:47) is the same comparison as `checkApprovalStatus`.
- Reviews without an author: the source reads `review.user.login` for every review (src/utils.js:86) and for every approving review (src/utils.js:30). A review whose `user` is null or missing makes `checkApprovals` throw a `TypeError`. That error ends the action with a failure exit (src/index.js:69-71). `countApprovals` throws only when such a review approves, and the action never calls it. Every modelled `Review` has a login, so that failure path is not represented and the counts are total.
- Parsing of `required_approvals` with `parseInt`, and NaN comparisons: the threshold is a Dafny `int`.
- Iteration order of the JavaScript `Map`: the model uses a Dafny `map`. The count depends only on the entries, not on their order.
- Review states: the source compares `review.state` with the string `'APPROVED'`. The model uses the five GitHub review states as a datatype. Only `Approved` is distinguished, so any other string behaves like a non-`Approved` state.
- The doc comment of `countApprovals` (src/utils.js:25) says it counts unique approvals. The code counts every approving review, duplicates included. The model follows the code; `DuplicateApprovalsCountedTwice` shows the difference.
