/**
 * The four user fields of the notification: those of the authenticated
 * user (Auth::user()), or fixed sentinels when nobody is logged in.
 */
module NotifiedUser {
  import opened Wrappers

  /** A PHP scalar as the mail view receives it: the numeric id or a string. */
  datatype Scalar = Int(number: int) | Str(text: string)

  /** The attributes of the authenticated user model that the closure reads. */
  datatype Account = Account(id: int, username: string, firstName: string, lastName: string)

  datatype UserFields = UserFields(id: Scalar, username: Scalar, firstName: Scalar, lastName: Scalar)

  /** The fields reported for a request without an authenticated user. */
  const Unauthenticated := UserFields(Str("N/A"), Str("unauthenticated"), Str("Unauthenticated User"), Str("N/A"))

  function ResolveUser(user: Option<Account>): (r: UserFields)
    ensures user.None? ==>
      r.id == Str("N/A") && r.username == Str("unauthenticated") &&
      r.firstName == Str("Unauthenticated User") && r.lastName == Str("N/A")
    // an authenticated user's own attributes are reported, each in its field
    ensures user.Some? ==>
      r.id == Int(user.value.id) && r.username == Str(user.value.username) &&
      r.firstName == Str(user.value.firstName) && r.lastName == Str(user.value.lastName)
  {
    match user
    case Some(account) => UserFields(Int(account.id), Str(account.username), Str(account.firstName), Str(account.lastName))
    case None => Unauthenticated
  }

  /**
   * The sentinels are reported exactly when there is no authenticated user:
   * whatever a user's names are, the numeric id tells the two apart.
   */
  lemma SentinelsIffUnauthenticated(user: Option<Account>)
    ensures ResolveUser(user) == Unauthenticated <==> user.None?
  {
  }

  /** Two authenticated users yield the same fields only if they have the same attributes. */
  lemma ResolveUserInjective(a: Account, b: Account)
    requires ResolveUser(Some(a)) == ResolveUser(Some(b))
    ensures a == b
  {
  }
}
