/** The two authentication gates put in front of the API routes. A gate reads
    the `Authorization` header, asks the token blacklist, has the token parsed
    and verified, applies the role rule, and either aborts the request with a
    status code or lets it through with the caller's identity in the request
    context. Token parsing and signature checking are an oracle `parse`. */
module Middleware {
  import opened Basics
  import opened Strings

  const JwtPrefix: string := "Bearer "

  const StatusUnauthorized: nat := 401
  const StatusForbidden: nat := 403
  const StatusInternalServerError: nat := 500

  /** The token claims the gates and the login read. Times are instants of the
      abstract clock. */
  datatype Claims = Claims(
    expiresAt: int,
    issuedAt: int,
    issuer: string,
    subject: string,
    isAdmin: bool,
    userID: nat)

  /** What the gate leaves in the request context: `userID` and `isAdmin`,
      each possibly unset. */
  datatype Context = Context(userID: Option<nat>, isAdmin: Option<bool>)

  datatype Outcome = Abort(code: nat) | Proceed(ctx: Context)

  /** The blacklist as the gate sees it at one instant: no client configured,
      a client whose lookup fails, or a client answering from its entries
      (token to expiry instant) at time `now`. */
  datatype RevocationView =
    | NoClient
    | Unreachable
    | Online(entries: map<string, int>, now: int)

  /** The blacklist holds the token and its entry has not expired. */
  predicate IsListed(view: RevocationView, token: string) {
    view.Online? && token in view.entries && view.now < view.entries[token]
  }

  /** The token after the prefix. */
  function BearerToken(header: string): string
    requires HasPrefix(header, JwtPrefix)
  {
    header[|JwtPrefix|..]
  }

  /** The role codes the gates compare: 1 for a moderator, 2 for a user. */
  function RoleCode(moderator: bool): nat {
    if moderator then 1 else 2
  }

  /** The role rule as written: reject when the caller's code differs from
      the route's and the caller's code is the user one. */
  predicate RoleRejected(role: bool, isAdmin: bool) {
    RoleCode(isAdmin) != RoleCode(role) && RoleCode(isAdmin) == 2
  }

  /** `WithAuthCheck(role)`: the gate of the protected routes. */
  function WithAuthCheck(role: bool, header: string, view: RevocationView, parse: string -> Option<Claims>): Outcome {
    if !HasPrefix(header, JwtPrefix) then Abort(StatusForbidden)
    else
      var token := BearerToken(header);
      if view.Unreachable? then Abort(StatusInternalServerError)
      else if IsListed(view, token) then Abort(StatusUnauthorized)
      else match parse(token)
        case None => Abort(StatusForbidden)
        case Some(claims) =>
          if RoleRejected(role, claims.isAdmin) then Abort(StatusForbidden)
          else Proceed(Context(Some(claims.userID), Some(claims.isAdmin)))
  }

  /** `WithAuthCheckLab5(role)`: the same gate, except that a request without
      the prefix goes on anonymously as user 0. */
  function WithAuthCheckLab5(role: bool, header: string, view: RevocationView, parse: string -> Option<Claims>): Outcome {
    if !HasPrefix(header, JwtPrefix) then Proceed(Context(Some(0), None))
    else
      var token := BearerToken(header);
      if view.Unreachable? then Abort(StatusInternalServerError)
      else if IsListed(view, token) then Abort(StatusUnauthorized)
      else match parse(token)
        case None => Abort(StatusForbidden)
        case Some(claims) =>
          if RoleRejected(role, claims.isAdmin) then Abort(StatusForbidden)
          else Proceed(Context(Some(claims.userID), Some(claims.isAdmin)))
  }

  /** Without the prefix, the strict gate refuses with 403 while the lenient
      one lets the request through as user 0 with no role set. */
  lemma MissingPrefix(role: bool, header: string, view: RevocationView, parse: string -> Option<Claims>)
    requires !HasPrefix(header, JwtPrefix)
    ensures WithAuthCheck(role, header, view, parse) == Abort(StatusForbidden)
    ensures WithAuthCheckLab5(role, header, view, parse) == Proceed(Context(Some(0), None))
  {
  }

  /** The blacklist is asked before the token is parsed: a listed token is
      refused with 401 whatever the parser would say, and a failing lookup
      gives 500, never a pass. */
  lemma BlacklistFirst(role: bool, header: string, view: RevocationView, parse: string -> Option<Claims>)
    requires HasPrefix(header, JwtPrefix)
    ensures view.Unreachable? ==> WithAuthCheck(role, header, view, parse) == Abort(StatusInternalServerError)
    ensures IsListed(view, BearerToken(header)) ==> WithAuthCheck(role, header, view, parse) == Abort(StatusUnauthorized)
    ensures view.Unreachable? ==> WithAuthCheckLab5(role, header, view, parse) == Abort(StatusInternalServerError)
    ensures IsListed(view, BearerToken(header)) ==> WithAuthCheckLab5(role, header, view, parse) == Abort(StatusUnauthorized)
  {
  }

  /** A token the parser rejects is refused with 403 once the blacklist has
      let it pass. */
  lemma UnparseableToken(role: bool, header: string, view: RevocationView, parse: string -> Option<Claims>)
    requires HasPrefix(header, JwtPrefix)
    requires !view.Unreachable? && !IsListed(view, BearerToken(header))
    requires parse(BearerToken(header)).None?
    ensures WithAuthCheck(role, header, view, parse) == Abort(StatusForbidden)
    ensures WithAuthCheckLab5(role, header, view, parse) == Abort(StatusForbidden)
  {
  }

  /** The role rule rejects exactly a non-moderator on a moderator route:
      moderators pass the user routes too. */
  lemma RoleRule(role: bool, isAdmin: bool)
    ensures RoleRejected(role, isAdmin) <==> role && !isAdmin
  {
  }

  /** When the strict gate lets a request through, it is exactly because the
      header has the prefix, the blacklist answered and does not hold the
      token, the token parsed and the role rule passed; the context then holds
      the claims' user id and admin flag and nothing else. */
  lemma StrictGatePasses(role: bool, header: string, view: RevocationView, parse: string -> Option<Claims>)
    ensures WithAuthCheck(role, header, view, parse).Proceed? <==>
      && HasPrefix(header, JwtPrefix)
      && !view.Unreachable?
      && !IsListed(view, BearerToken(header))
      && parse(BearerToken(header)).Some?
      && !(role && !parse(BearerToken(header)).value.isAdmin)
    ensures WithAuthCheck(role, header, view, parse).Proceed? ==>
      var claims := parse(BearerToken(header)).value;
      WithAuthCheck(role, header, view, parse).ctx == Context(Some(claims.userID), Some(claims.isAdmin))
  {
    if HasPrefix(header, JwtPrefix) && !view.Unreachable? && !IsListed(view, BearerToken(header)) {
      match parse(BearerToken(header))
      case None =>
      case Some(claims) => RoleRule(role, claims.isAdmin);
    }
  }

  /** A moderator route lets through only callers whose claims say admin. */
  lemma ModeratorRouteAdmitsAdmins(header: string, view: RevocationView, parse: string -> Option<Claims>)
    ensures WithAuthCheck(true, header, view, parse).Proceed? ==>
      WithAuthCheck(true, header, view, parse).ctx.isAdmin == Some(true)
  {
    StrictGatePasses(true, header, view, parse);
  }

  /** With the prefix present the two gates reach the same outcome. */
  lemma GatesAgree(role: bool, header: string, view: RevocationView, parse: string -> Option<Claims>)
    requires HasPrefix(header, JwtPrefix)
    ensures WithAuthCheckLab5(role, header, view, parse) == WithAuthCheck(role, header, view, parse)
  {
  }

  /** The header a client sends for a token starts with the prefix and gives
      the token back. */
  lemma BearerHeader(token: string)
    ensures HasPrefix(JwtPrefix + token, JwtPrefix)
    ensures BearerToken(JwtPrefix + token) == token
  {
    assert (JwtPrefix + token)[..|JwtPrefix|] == JwtPrefix;
    assert (JwtPrefix + token)[|JwtPrefix|..] == token;
  }
}
