/**
 The review records the approval rule works on: one submitted pull request
 review, reduced to the two fields the rule reads (the reviewer's login and
 the review state).
 */
module Reviews {

  /** A GitHub user name. Logins are compared by plain string equality. */
  type Login = string

  /** The states a submitted pull request review can be in. Only `Approved`
      is ever inspected by the rule; the others matter only in that they are
      not `Approved`. */
  datatype State = Approved | ChangesRequested | Commented | Dismissed | Pending

  /** One review: `review.user.login` and `review.state`. The list of reviews is
      ordered by submission, so a later position means a later review. */
  datatype Review = Review(login: Login, state: State)

  /** The distinct logins of a team roster. The roster is a list and may
      repeat a login; membership only depends on this set. */
  function Roster(teamMembers: seq<Login>): set<Login>
  {
    set u | u in teamMembers
  }
}
