/**
 * The bearer-token middleware shared by the daily-record, friends and stats
 * routers. Verifying the signature is a foreign call: its outcome is the
 * `Token` value.
 */
module Auth {
  import opened Wrappers
  import opened Http

  /** The payload fields the routers read: `user.id`, the older `user_id`, and `user.adminLevel`. */
  datatype Claims = Claims(userId: Option<string>, legacyUserId: Option<string>, adminLevel: Option<int>)

  /** No token in the header, a token that fails verification, or the verified payload. */
  datatype Token = NoToken | Unverifiable | Verified(claims: Claims)

  datatype AuthOutcome = Denied(status: Status) | Granted(userId: string)

  /** `decoded.user?.id || decoded.user_id`, with a missing or empty id counting as absent. */
  function ClaimedUserId(c: Claims): string {
    if c.userId.GetOr("") != "" then c.userId.value else c.legacyUserId.GetOr("")
  }

  /**
   * `authMiddleware`: every failure answers 401; otherwise the request proceeds with
   * a non-empty user id, the payload's `user.id` taking precedence.
   */
  function Authenticate(t: Token): (r: AuthOutcome)
    ensures r.Denied? ==> r.status == Unauthorized
    ensures r.Granted? <==> t.Verified? && (t.claims.userId.GetOr("") != "" || t.claims.legacyUserId.GetOr("") != "")
    ensures r.Granted? ==> r.userId != ""
    ensures r.Granted? && t.claims.userId.GetOr("") != "" ==> r.userId == t.claims.userId.value
    ensures r.Granted? && t.claims.userId.GetOr("") == "" ==> r.userId == t.claims.legacyUserId.value
  {
    match t
    case NoToken => Denied(Unauthorized)
    case Unverifiable => Denied(Unauthorized)
    case Verified(c) => if ClaimedUserId(c) == "" then Denied(Unauthorized) else Granted(ClaimedUserId(c))
  }
}
