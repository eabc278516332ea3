/**
 * The signed-in user that the dashboard keeps in `State.user`: a name and a
 * role, or nobody.
 */
module Accounts {

  datatype User = User(name: string, role: string)

  /** `State.user`: null when nobody is signed in. */
  datatype Session = SignedOut | SignedIn(user: User)

  /** `State.user.role === 'admin'`. */
  predicate IsAdmin(s: Session)
    ensures IsAdmin(s) ==> s.SignedIn?
  {
    s.SignedIn? && s.user.role == "admin"
  }
}
