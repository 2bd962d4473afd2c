/** The `auth` middleware: it takes the token from the Authorization
    header, verifies it, reloads the user it names and refuses suspended
    users, and hands the route a caller whose role flags are the stored
    ones. Token verification (`jwt.verify` with the server secret) is the
    parameter `verify`, a partial function from tokens to claims. */
module AuthMiddleware {
  import opened Common
  import opened Models

  const BearerPrefix := "Bearer "

  predicate OccursAt(s: string, pat: string, i: nat)
  {
    i + |pat| <= |s| && s[i..i + |pat|] == pat
  }

  /** The first index at or after `from` where `pat` occurs in `s`. */
  function IndexFrom(s: string, pat: string, from: nat): (r: Option<nat>)
    decreases |s| - from
    ensures r.Some? ==> from <= r.value && OccursAt(s, pat, r.value)
    ensures r.Some? ==> forall j :: from <= j < r.value ==> !OccursAt(s, pat, j)
    ensures r.None? ==> forall j :: from <= j ==> !OccursAt(s, pat, j)
  {
    if from + |pat| > |s| then None
    else if s[from..from + |pat|] == pat then Some(from)
    else IndexFrom(s, pat, from + 1)
  }

  /** `s.replace(pat, '')` with a string pattern: the first occurrence is
      removed, and a string without one is returned as it is. */
  function RemoveFirst(s: string, pat: string): (r: string)
    ensures (forall j :: !OccursAt(s, pat, j)) ==> r == s
    ensures (exists j :: OccursAt(s, pat, j)) ==> |r| == |s| - |pat|
  {
    match IndexFrom(s, pat, 0)
    case None => s
    case Some(i) => s[..i] + s[i + |pat|..]
  }

  /** `req.header('Authorization')?.replace('Bearer ', '')`. */
  function ExtractToken(header: Option<string>): (r: Option<string>)
    ensures r.None? <==> header.None?
    ensures r.Some? ==> |r.value| <= |header.value|
  {
    match header
    case None => None
    case Some(h) => Some(RemoveFirst(h, BearerPrefix))
  }

  /** A header of the form "Bearer <t>" yields exactly `t`. */
  lemma ExtractBearer(t: string)
    ensures ExtractToken(Some(BearerPrefix + t)) == Some(t)
  {
    var h := BearerPrefix + t;
    assert h[..|BearerPrefix|] == BearerPrefix && h[|BearerPrefix|..] == t;
    assert IndexFrom(h, BearerPrefix, 0) == Some(0);
    assert RemoveFirst(h, BearerPrefix) == h[..0] + h[|BearerPrefix|..];
    assert h[..0] + h[|BearerPrefix|..] == t;
  }

  /** A header without "Bearer " anywhere in it is the token itself. */
  lemma ExtractWithoutPrefix(h: string)
    requires forall j :: !OccursAt(h, BearerPrefix, j)
    ensures ExtractToken(Some(h)) == Some(h)
  {
  }

  /** Only the first "Bearer " goes: the token keeps a second one. */
  lemma ExtractRemovesOnlyFirst(h: string, i: nat)
    requires OccursAt(h, BearerPrefix, i)
    requires forall j: nat :: j < i ==> !OccursAt(h, BearerPrefix, j)
    ensures ExtractToken(Some(h)) == Some(h[..i] + h[i + |BearerPrefix|..])
  {
    var r := IndexFrom(h, BearerPrefix, 0);
    assert r.Some? && r.value == i;
  }

  /** The middleware. Missing or empty tokens, tokens that fail
      verification and tokens naming no stored user give 401; a suspended
      user gives 403; otherwise the claims, with `isAdmin` and
      `isSuspended` overwritten from the stored user. */
  function Authenticate(users: map<Id, User>, header: Option<string>,
                        verify: string -> Option<Claims>): (r: Status<Caller>)
    ensures (header.None? || ExtractToken(header) == Some("")) ==> r.Unauth401?
    ensures r.Ok? <==>
              Truthy(ExtractToken(header)) &&
              verify(ExtractToken(header).value).Some? &&
              verify(ExtractToken(header).value).value.userId in users &&
              !users[verify(ExtractToken(header).value).value.userId].isSuspended
    ensures r.Forbidden403? ==>
              Truthy(ExtractToken(header)) &&
              verify(ExtractToken(header).value).Some? &&
              var c := verify(ExtractToken(header).value).value;
              c.userId in users && users[c.userId].isSuspended
    ensures r.Unauth401? || r.Forbidden403? || r.Ok?
    ensures r.Ok? ==>
              var c := verify(ExtractToken(header).value).value;
              r.value == Caller(c.userId, c.username, users[c.userId].isAdmin, false)
  {
    var token := ExtractToken(header);
    if !Truthy(token) then Unauth401("No token, authorization denied")
    else
      match verify(token.value)
      case None => Unauth401("Token is not valid")
      case Some(decoded) =>
        if decoded.userId !in users then Unauth401("User not found")
        else
          var user := users[decoded.userId];
          if user.isSuspended then Forbidden403("Account Suspended")
          else Ok(Caller(decoded.userId, decoded.username, user.isAdmin, user.isSuspended))
  }

  /** Whatever a token claims, a suspended user is refused with 403. */
  lemma SuspendedAlwaysForbidden(users: map<Id, User>, header: Option<string>,
                                 verify: string -> Option<Claims>, id: Id)
    requires id in users && users[id].isSuspended
    requires Truthy(ExtractToken(header))
    requires verify(ExtractToken(header).value).Some?
    requires verify(ExtractToken(header).value).value.userId == id
    ensures Authenticate(users, header, verify) == Forbidden403("Account Suspended")
  {
  }

  /** The caller's role is the stored one: two stores that differ in a
      user's admin flag resolve the same token to callers that differ in
      exactly that flag. */
  lemma RoleComesFromStore(users: map<Id, User>, header: Option<string>,
                           verify: string -> Option<Claims>, id: Id, admin: bool)
    requires id in users
    requires Authenticate(users, header, verify).Ok?
    requires Authenticate(users, header, verify).value.userId == id
    ensures var users' := users[id := users[id].(isAdmin := admin)];
            Authenticate(users', header, verify) ==
              Ok(Authenticate(users, header, verify).value.(isAdmin := admin))
  {
  }
}
