/** The decision logic of the API handlers that sit between the gates and the
    repository: who the caller is, which order an endpoint acts on, what a
    login puts in the token, what a logout writes to the blacklist, which
    profile fields an update writes, and what the moderation endpoint passes
    and answers. Request decoding is reduced to its result (`None` when the
    body or the number does not parse); the HTTP reply to a status code and,
    where the handler chooses one, a message. */
module Handler {
  import opened Basics
  import opened Strings
  import opened Tables
  import Store
  import Middleware

  const StatusOK: nat := 200
  const StatusBadRequest: nat := 400
  const StatusForbidden: nat := 403
  const StatusInternalServerError: nat := 500

  const MessageLoggedOut: string := "Выход выполнен"
  const MessageLogoutDone: string := "Выход выполнен успешно"
  const MessageCompleted: string := "Заявка завершена"
  const MessageRejected: string := "Заявка отклонена"
  const TokenIssuer: string := "bitop-admin"

  /** `GetUserID`: the `userID` the gate left in the context; 0 when none was
      set (the error that comes with it is ignored by every caller). */
  function GetUserID(ctx: Middleware.Context): (id: nat)
    ensures ctx.userID.Some? ==> id == ctx.userID.value
    ensures ctx.userID.None? ==> id == 0
  {
    if ctx.userID.Some? then ctx.userID.value else 0
  }

  /** After either gate lets a request with the prefix through, the caller is
      the token's user; the lenient gate without the prefix makes it user 0. */
  lemma CallerIdentity(role: bool, header: string, view: Middleware.RevocationView, parse: string -> Option<Middleware.Claims>)
    ensures Middleware.WithAuthCheck(role, header, view, parse).Proceed? ==>
      GetUserID(Middleware.WithAuthCheck(role, header, view, parse).ctx)
        == parse(Middleware.BearerToken(header)).value.userID
    ensures !HasPrefix(header, Middleware.JwtPrefix) ==>
      GetUserID(Middleware.WithAuthCheckLab5(role, header, view, parse).ctx) == 0
  {
    Middleware.StrictGatePasses(role, header, view, parse);
  }

  /* ------------------------------------------------------------ blacklist */

  /** The token blacklist: token to the instant its entry expires, and
      whether the server answers. */
  class RevocationStore {
    var entries: map<string, int>
    var reachable: bool

    constructor(reachable: bool)
      ensures entries == map[] && this.reachable == reachable
    {
      entries := map[];
      this.reachable := reachable;
    }

    /** `WriteJWTToBlacklist`: keeps the token for `ttl` from `now`; a server
        that does not answer keeps nothing. */
    method Write(token: string, ttl: int, now: int)
      modifies this
      ensures reachable == old(reachable)
      ensures entries == if reachable then old(entries)[token := now + ttl] else old(entries)
    {
      if reachable {
        entries := entries[token := now + ttl];
      }
    }
  }

  /** What a gate sees of the configured blacklist at `now`; `null` is no
      client. */
  function ViewOf(store: RevocationStore?, now: int): Middleware.RevocationView
    reads store
  {
    if store == null then Middleware.NoClient
    else if store.reachable then Middleware.Online(store.entries, now)
    else Middleware.Unreachable
  }

  /** The logout writes the blacklist: the header has the prefix, the token
      parses, and it has time left. */
  predicate LogoutRevokes(header: string, parse: string -> Option<Middleware.Claims>, now: int) {
    && HasPrefix(header, Middleware.JwtPrefix)
    && parse(Middleware.BearerToken(header)).Some?
    && parse(Middleware.BearerToken(header)).value.expiresAt - now > 0
  }

  /** `LogoutUserAPI`: always a success; with a parsed token and a
      configured blacklist, the token is listed for exactly its remaining
      lifetime. */
  method LogoutUserAPI(header: string, parse: string -> Option<Middleware.Claims>, store: RevocationStore?, now: int)
    returns (code: nat, message: string)
    modifies store
    ensures code == StatusOK
    ensures message == if HasPrefix(header, Middleware.JwtPrefix) && parse(Middleware.BearerToken(header)).Some?
                       then MessageLogoutDone else MessageLoggedOut
    ensures store != null ==> store.reachable == old(store.reachable)
    ensures store != null && old(store.reachable) && LogoutRevokes(header, parse, now) ==>
      store.entries == old(store.entries)[Middleware.BearerToken(header) := parse(Middleware.BearerToken(header)).value.expiresAt]
    ensures store != null && !(old(store.reachable) && LogoutRevokes(header, parse, now)) ==>
      store.entries == old(store.entries)
  {
    code := StatusOK;
    if header == "" || !HasPrefix(header, Middleware.JwtPrefix) {
      return code, MessageLoggedOut;
    }
    var token := Middleware.BearerToken(header);
    var claims := parse(token);
    if claims.None? {
      return code, MessageLoggedOut;
    }
    if store != null {
      var ttl := claims.value.expiresAt - now;
      if ttl > 0 {
        store.Write(token, ttl, now);
      }
    }
    message := MessageLogoutDone;
  }

  /** Revocation: once the logout has listed a token, the same header is
      refused with 401 by both gates, on any route, until the token's expiry,
      whatever the parser says then. */
  lemma RevokedUntilExpiry(header: string, parse: string -> Option<Middleware.Claims>,
                           entries: map<string, int>, now: int, later: int, role: bool,
                           parseLater: string -> Option<Middleware.Claims>)
    requires LogoutRevokes(header, parse, now)
    requires later < parse(Middleware.BearerToken(header)).value.expiresAt
    ensures
      var token := Middleware.BearerToken(header);
      var view := Middleware.Online(entries[token := parse(token).value.expiresAt], later);
      && Middleware.WithAuthCheck(role, header, view, parseLater) == Middleware.Abort(Middleware.StatusUnauthorized)
      && Middleware.WithAuthCheckLab5(role, header, view, parseLater) == Middleware.Abort(Middleware.StatusUnauthorized)
  {
    var token := Middleware.BearerToken(header);
    var view := Middleware.Online(entries[token := parse(token).value.expiresAt], later);
    assert Middleware.IsListed(view, token);
    Middleware.BlacklistFirst(role, header, view, parseLater);
  }

  /** The logout and the gate end to end: after `LogoutUserAPI` has listed
      the token, the configured blacklist refuses the header until expiry. */
  method LogoutThenRetry(header: string, parse: string -> Option<Middleware.Claims>, store: RevocationStore,
                         now: int, later: int, role: bool)
    returns (outcome: Middleware.Outcome)
    requires store.reachable && LogoutRevokes(header, parse, now)
    requires later < parse(Middleware.BearerToken(header)).value.expiresAt
    modifies store
    ensures outcome == Middleware.Abort(Middleware.StatusUnauthorized)
  {
    var code, message := LogoutUserAPI(header, parse, store, now);
    RevokedUntilExpiry(header, parse, old(store.entries), now, later, role, parse);
    outcome := Middleware.WithAuthCheck(role, header, ViewOf(store, later), parse);
  }

  /* ------------------------------------------------------------ login */

  /** The claims `LoginUserAPI` signs for user `id`, issued at `now` and
      valid for `lifetime`. */
  function LoginClaims(id: nat, user: User, now: int, lifetime: int): (c: Middleware.Claims)
    ensures c.userID == id && c.isAdmin == user.isModerator
    ensures forall k :: 0 <= k < |c.subject| ==> IsDigit(c.subject[k])
    ensures DigitsValue(c.subject) == id
    ensures c.issuedAt == now && c.expiresAt == now + lifetime && c.issuer == TokenIssuer
  {
    NatToStringRoundTrip(id);
    Middleware.Claims(now + lifetime, now, TokenIssuer, NatToString(id), user.isModerator, id)
  }

  datatype LoginReply =
    | LoginFailed(code: nat)
    | LoggedIn(token: string, expiresIn: int, userID: nat, user: User)

  /** `LoginUserAPI`: authenticate with the hashed password, then sign the
      claims. `hash` and `sign` stand for the password hash and the token
      signer; `None` from `sign` is a signing failure. */
  function LoginUserAPI(repo: Store.Repository, login: string, password: string, hash: string -> string,
                        sign: Middleware.Claims -> Option<string>, now: int, lifetime: int): (r: LoginReply)
    reads repo
    ensures repo.AuthUser(login, hash(password)).Err? ==> r == LoginFailed(StatusForbidden)
    ensures repo.AuthUser(login, hash(password)).Ok? ==>
      var (id, user) := repo.AuthUser(login, hash(password)).value;
      && (r.LoggedIn? <==> sign(LoginClaims(id, user, now, lifetime)).Some?)
      && (sign(LoginClaims(id, user, now, lifetime)).None? ==> r == LoginFailed(StatusInternalServerError))
    ensures r.LoggedIn? ==>
      var (id, user) := repo.AuthUser(login, hash(password)).value;
      && r.userID == id && r.user == user && r.expiresIn == lifetime
      && sign(LoginClaims(id, user, now, lifetime)) == Some(r.token)
  {
    match repo.AuthUser(login, hash(password))
    case Err(_) => LoginFailed(StatusForbidden)
    case Ok((id, user)) =>
      match sign(LoginClaims(id, user, now, lifetime))
      case None => LoginFailed(StatusInternalServerError)
      case Some(token) => LoggedIn(token, lifetime, id, user)
  }

  /** A token from the login, sent back while unrevoked and accepted by the
      parser, lets its user through exactly the routes its role allows, as
      that user. */
  lemma LoginTokenPassesGate(id: nat, user: User, now: int, lifetime: int, token: string, role: bool,
                             view: Middleware.RevocationView, parse: string -> Option<Middleware.Claims>)
    requires parse(token) == Some(LoginClaims(id, user, now, lifetime))
    requires !view.Unreachable? && !Middleware.IsListed(view, token)
    ensures Middleware.WithAuthCheck(role, Middleware.JwtPrefix + token, view, parse).Proceed?
            <==> !role || user.isModerator
    ensures Middleware.WithAuthCheck(role, Middleware.JwtPrefix + token, view, parse).Proceed? ==>
      Middleware.WithAuthCheck(role, Middleware.JwtPrefix + token, view, parse).ctx
        == Middleware.Context(Some(id), Some(user.isModerator))
  {
    Middleware.BearerHeader(token);
    Middleware.StrictGatePasses(role, Middleware.JwtPrefix + token, view, parse);
  }

  /* ------------------------------------------------------------ profile */

  /** The update set `UpdateUserAPI` fills: "login" when a login was sent,
      "name" when a name was sent; the password is never part of it. */
  method BuildUserUpdates(login: Option<string>, name: Option<string>, password: Option<string>)
    returns (updates: map<string, string>)
    ensures "login" in updates <==> login.Some?
    ensures "name" in updates <==> name.Some?
    ensures login.Some? ==> updates["login"] == login.value
    ensures name.Some? ==> updates["name"] == name.value
    ensures forall k :: k in updates ==> k == "login" || k == "name"
    ensures "password" !in updates
    ensures |updates| == 0 <==> login.None? && name.None?
  {
    updates := map[];
    if login.Some? {
      updates := updates["login" := login.value];
    }
    if name.Some? {
      updates := updates["name" := name.value];
    }
    assert "login" != "name" && "password" != "login" && "password" != "name";
    if login.Some? {
      assert "login" in updates.Keys;
    } else if name.Some? {
      assert "name" in updates.Keys;
    }
  }

  datatype UserReply = UserFailed(code: nat) | UserUpdated(user: User)

  /** `UpdateUserAPI`: a request with nothing to update is refused before the
      repository is called; otherwise the repository applies the set. */
  method UpdateUserAPI(repo: Store.Repository, ctx: Middleware.Context,
                       input: Option<(Option<string>, Option<string>, Option<string>)>)
    returns (reply: UserReply)
    requires repo.Valid()
    modifies repo
    ensures repo.Valid()
    ensures input.None? || (input.value.0.None? && input.value.1.None?) ==>
      reply == UserFailed(StatusBadRequest) && repo.users == old(repo.users)
    ensures |repo.users| == |old(repo.users)|
    ensures reply.UserUpdated? && 1 <= GetUserID(ctx) <= |old(repo.users)| ==>
      var before := old(repo.users)[GetUserID(ctx) - 1];
      && input.Some?
      && repo.users[GetUserID(ctx) - 1] == before.(
           login := if input.value.0.Some? then input.value.0.value else before.login,
           fio := if input.value.1.Some? then input.value.1.value else before.fio)
    ensures reply.UserUpdated? <==>
      && input.Some? && (input.value.0.Some? || input.value.1.Some?)
      && !(input.value.0.Some? && input.value.0.value != ""
           && LoginHeldByOther(old(repo.users), input.value.0.value, GetUserID(ctx)))
    ensures reply.UserFailed? ==> reply.code == StatusBadRequest && repo.users == old(repo.users)
    ensures reply.UserUpdated? ==>
      reply.user == if 1 <= GetUserID(ctx) <= |repo.users| then repo.users[GetUserID(ctx) - 1].(password := "")
                    else User("", "", "", false)
    ensures forall j :: 0 <= j < |repo.users| && j + 1 != GetUserID(ctx) ==> repo.users[j] == old(repo.users)[j]
    ensures reply.UserUpdated? ==> reply.user.password == ""
    ensures repo.reactions == old(repo.reactions) && repo.syntheses == old(repo.syntheses) && repo.lines == old(repo.lines)
  {
    if input.None? {
      return UserFailed(StatusBadRequest);
    }
    var userID := GetUserID(ctx);
    var (login, name, password) := input.value;
    var updates := BuildUserUpdates(login, name, password);
    if |updates| == 0 {
      return UserFailed(StatusBadRequest);
    }
    var r := repo.UpdateUser(userID, updates);
    if r.Err? {
      return UserFailed(StatusBadRequest);
    }
    reply := UserUpdated(r.value);
  }

  /* ------------------------------------------------------------ own draft */

  /** `DeleteSynthesisAPI`: deletes the caller's own draft; a caller without
      a draft asks for id 0, which names no order (500). */
  method DeleteSynthesisAPI(repo: Store.Repository, ctx: Middleware.Context, now: nat) returns (code: nat)
    requires repo.Valid()
    modifies repo
    ensures repo.Valid()
    ensures var id := old(repo.GetSynthesisID(GetUserID(ctx)));
      && (id == 0 ==> code == StatusInternalServerError && repo.syntheses == old(repo.syntheses))
      && (id != 0 ==>
            && code == StatusOK
            && IsDraftOf(old(repo.syntheses)[id - 1], GetUserID(ctx))
            && repo.syntheses == old(repo.syntheses)[id - 1 := old(repo.syntheses)[id - 1].(status := Deleted, dateUpdate := now)])
    ensures repo.reactions == old(repo.reactions) && repo.lines == old(repo.lines) && repo.users == old(repo.users)
  {
    var userId := GetUserID(ctx);
    var id := repo.GetSynthesisID(userId);
    var outcome := repo.DeleteSynthesis(id, now);
    if outcome.Failed? {
      return StatusInternalServerError;
    }
    code := StatusOK;
  }

  /** `RemoveReactionFromSynthesisAPI`: takes one unit of the reaction out of
      the caller's own draft; nothing else is touched. */
  method RemoveReactionFromSynthesisAPI(repo: Store.Repository, ctx: Middleware.Context, reactionID: Option<Int64>)
    returns (code: nat)
    requires repo.Valid()
    modifies repo
    ensures repo.Valid()
    ensures repo.reactions == old(repo.reactions) && repo.syntheses == old(repo.syntheses) && repo.users == old(repo.users)
    ensures reactionID.None? ==> code == StatusBadRequest && repo.lines == old(repo.lines)
    ensures reactionID.Some? ==>
      var draft := old(repo.GetSynthesisID(GetUserID(ctx)));
      var rid := ToUint(reactionID.value as int);
      && (code == StatusOK <==> draft != 0 && repo.GetReaction(rid).Some? && Quantity(old(repo.lines), draft, rid) > 0)
      && (code != StatusOK ==> code == StatusBadRequest && repo.lines == old(repo.lines))
      && (code == StatusOK ==>
            var k := LineIndex(old(repo.lines), draft, rid).value;
            repo.lines == if old(repo.lines)[k].count == 1 then old(repo.lines)[..k] + old(repo.lines)[k + 1..]
                          else old(repo.lines)[k := old(repo.lines)[k].(count := old(repo.lines)[k].count - 1)])
      && forall s, r :: Quantity(repo.lines, s, r)
           == Quantity(old(repo.lines), s, r) - (if code == StatusOK && s == draft && r == rid then 1 else 0)
  {
    var userId := GetUserID(ctx);
    var synthesisID := repo.GetSynthesisID(userId);
    if reactionID.None? {
      return StatusBadRequest;
    }
    var outcome := repo.RemoveReactionFromSynthesis(synthesisID, ToUint(reactionID.value as int));
    if outcome.Failed? {
      return StatusBadRequest;
    }
    code := StatusOK;
  }

  /** `UpdateReactionInSynthesisAPI`: sets a line's volume in the caller's
      own draft. Both request fields are required, so a zero reaction id or a
      zero volume is refused before the repository is called. */
  method UpdateReactionInSynthesisAPI(repo: Store.Repository, ctx: Middleware.Context, input: Option<(nat, real)>)
    returns (code: nat)
    requires repo.Valid()
    modifies repo
    ensures repo.Valid()
    ensures repo.reactions == old(repo.reactions) && repo.syntheses == old(repo.syntheses) && repo.users == old(repo.users)
    ensures input.None? || input.value.0 == 0 || input.value.1 == 0.0 ==>
      code == StatusBadRequest && repo.lines == old(repo.lines)
    ensures code == StatusOK <==>
      var draft := old(repo.GetSynthesisID(GetUserID(ctx)));
      && input.Some? && input.value.0 != 0 && input.value.1 != 0.0
      && draft != 0 && repo.GetReaction(input.value.0).Some?
      && LineIndex(old(repo.lines), draft, input.value.0).Some?
    ensures code == StatusOK ==>
      var draft := old(repo.GetSynthesisID(GetUserID(ctx)));
      && input.Some? && draft != 0
      && LineIndex(old(repo.lines), draft, input.value.0).Some?
      && var k := LineIndex(old(repo.lines), draft, input.value.0).value;
         repo.lines == old(repo.lines)[k := old(repo.lines)[k].(volumeSM := input.value.1)]
    ensures code != StatusOK ==> code == StatusBadRequest && repo.lines == old(repo.lines)
  {
    var userId := GetUserID(ctx);
    var synthesisID := repo.GetSynthesisID(userId);
    if input.None? || input.value.0 == 0 || input.value.1 == 0.0 {
      return StatusBadRequest;
    }
    var outcome := repo.UpdateReactionInSynthesis(synthesisID, input.value.0, input.value.1);
    if outcome.Failed? {
      return StatusBadRequest;
    }
    code := StatusOK;
  }

  /* ------------------------------------------------------------ moderation */

  /** The moderator id the moderation endpoint passes to the repository,
      whoever the caller is. */
  const ModerationModeratorID: nat := 2

  /** The message of a successful moderation. */
  function ModerationMessage(newStatus: bool): (m: string)
    ensures m == MessageCompleted <==> newStatus
    ensures m == MessageRejected <==> !newStatus
  {
    MessagesDiffer();
    if newStatus then MessageCompleted else MessageRejected
  }

  lemma MessagesDiffer()
    ensures MessageCompleted != MessageRejected
  {
    assert MessageCompleted[7] != MessageRejected[7];
  }

  /** `CompleteOrRejectSynthesisAPI`: moderates order `id` in the name of
      moderator 2 and answers with the message of the decision. */
  method CompleteOrRejectSynthesisAPI(repo: Store.Repository, id: Option<Int64>, newStatus: Option<bool>, now: nat)
    returns (code: nat, message: string)
    requires repo.Valid()
    modifies repo
    ensures repo.Valid()
    ensures repo.reactions == old(repo.reactions) && repo.lines == old(repo.lines) && repo.users == old(repo.users)
    ensures id.None? || newStatus.None? ==> code == StatusBadRequest && repo.syntheses == old(repo.syntheses)
    ensures code == StatusOK <==> id.Some? && newStatus.Some? && HasStatus(old(repo.syntheses), ToUint(id.value as int), Formed)
    ensures code != StatusOK ==> code == StatusBadRequest && repo.syntheses == old(repo.syntheses)
    ensures code == StatusOK ==>
      var sid := ToUint(id.value as int);
      && message == ModerationMessage(newStatus.value)
      && repo.syntheses == old(repo.syntheses)[sid - 1 := old(repo.syntheses)[sid - 1].(
           status := if newStatus.value then Completed else Rejected,
           dateUpdate := now, dateFinish := Some(now), moderatorID := ModerationModeratorID)]
  {
    if id.None? || newStatus.None? {
      return StatusBadRequest, "";
    }
    var outcome := repo.CompleteOrRejectSynthesis(ToUint(id.value as int), ModerationModeratorID, newStatus.value, now);
    if outcome.Failed? {
      return StatusBadRequest, "";
    }
    code := StatusOK;
    message := ModerationMessage(newStatus.value);
  }

  /* ------------------------------------------------------------ the two add paths */

  datatype PageReply = Redirect(location: string) | PageError(code: nat)

  const CatalogPage: string := "/reaction"

  /** The page handler `AddReactionInSynthesis`: refuses a reaction that
      `GetReaction` rejects, and otherwise adds it to the draft of the
      context's user (the page route has no gate, so that is user 0). */
  method AddReactionInSynthesisPage(repo: Store.Repository, ctx: Middleware.Context, reactionID: Option<Int64>, now: nat)
    returns (reply: PageReply)
    requires repo.Valid()
    modifies repo
    ensures repo.Valid()
    ensures reactionID.None? ==> reply == PageError(StatusInternalServerError)
    ensures reactionID.Some? ==> reply == Redirect(CatalogPage)
    ensures reactionID.None? || old(repo.GetReaction(reactionID.value as int)).None? ==>
      repo.lines == old(repo.lines) && repo.syntheses == old(repo.syntheses)
    ensures reactionID.Some? && old(repo.GetReaction(reactionID.value as int)).Some? ==>
      var draft := repo.GetSynthesisID(GetUserID(ctx));
      var rid := reactionID.value as int;
      && draft != 0
      && (old(repo.GetSynthesisID(GetUserID(ctx))) != 0 ==> repo.syntheses == old(repo.syntheses))
      && (old(repo.GetSynthesisID(GetUserID(ctx))) == 0 ==>
            repo.syntheses == old(repo.syntheses) + [NewDraft(GetUserID(ctx), now)])
      && repo.lines == (match LineIndex(old(repo.lines), draft, rid)
           case Some(k) => old(repo.lines)[k := old(repo.lines)[k].(count := old(repo.lines)[k].count + 1)]
           case None => old(repo.lines) + [Line(draft, rid, 1, 0.0, 0.0)])
      && forall s, r ::
           Quantity(repo.lines, s, r) == Quantity(old(repo.lines), s, r) + (if s == draft && r == reactionID.value as int then 1 else 0)
    ensures repo.reactions == old(repo.reactions) && repo.users == old(repo.users)
  {
    if reactionID.None? {
      return PageError(StatusInternalServerError);
    }
    var id := reactionID.value as int;
    if repo.GetReaction(id).None? {
      return Redirect(CatalogPage);
    }
    var userId := GetUserID(ctx);
    var synthesisID := repo.AddReactionInSynthesis(ToUint(id), userId, now);
    reply := Redirect(CatalogPage);
  }

  /** `AddReactionInSynthesisAPI`: no check on the reaction at all, and a
      success answer for any numeric id: even a missing or soft-deleted
      reaction gets a line in the caller's draft. */
  method AddReactionInSynthesisAPI(repo: Store.Repository, ctx: Middleware.Context, reactionID: Option<Int64>, now: nat)
    returns (code: nat)
    requires repo.Valid()
    modifies repo
    ensures repo.Valid()
    ensures code == if reactionID.None? then StatusBadRequest else StatusOK
    ensures reactionID.None? ==> repo.lines == old(repo.lines) && repo.syntheses == old(repo.syntheses)
    ensures reactionID.Some? ==>
      var draft := repo.GetSynthesisID(GetUserID(ctx));
      var rid := ToUint(reactionID.value as int);
      && draft != 0
      && (old(repo.GetSynthesisID(GetUserID(ctx))) != 0 ==> repo.syntheses == old(repo.syntheses))
      && (old(repo.GetSynthesisID(GetUserID(ctx))) == 0 ==>
            repo.syntheses == old(repo.syntheses) + [NewDraft(GetUserID(ctx), now)])
      && repo.lines == (match LineIndex(old(repo.lines), draft, rid)
           case Some(k) => old(repo.lines)[k := old(repo.lines)[k].(count := old(repo.lines)[k].count + 1)]
           case None => old(repo.lines) + [Line(draft, rid, 1, 0.0, 0.0)])
      && forall s, r ::
           Quantity(repo.lines, s, r) == Quantity(old(repo.lines), s, r) + (if s == draft && r == ToUint(reactionID.value as int) then 1 else 0)
    ensures repo.reactions == old(repo.reactions) && repo.users == old(repo.users)
  {
    if reactionID.None? {
      return StatusBadRequest;
    }
    var userId := GetUserID(ctx);
    var synthesisID := repo.AddReactionInSynthesis(ToUint(reactionID.value as int), userId, now);
    code := StatusOK;
  }

  /** The two add paths part ways on a reaction `GetReaction` rejects: the
      page leaves the order lines alone, the API adds a line for it. */
  method AddPathsDiffer(repo: Store.Repository, ctx: Middleware.Context, id: Int64, now: nat)
    returns (pageLines: seq<Line>, apiLines: seq<Line>, draft: nat)
    requires repo.Valid() && repo.GetReaction(id as int).None?
    modifies repo
    ensures pageLines == old(repo.lines)
    ensures draft != 0 && draft == repo.GetSynthesisID(GetUserID(ctx))
    ensures Quantity(apiLines, draft, ToUint(id as int)) == Quantity(old(repo.lines), draft, ToUint(id as int)) + 1
  {
    var reply := AddReactionInSynthesisPage(repo, ctx, Some(id), now);
    pageLines := repo.lines;
    var code := AddReactionInSynthesisAPI(repo, ctx, Some(id), now);
    apiLines := repo.lines;
    draft := repo.GetSynthesisID(GetUserID(ctx));
  }
}
