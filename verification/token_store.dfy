/** The refresh-token lifecycle of the authentication service: register,
    login, refresh, sign-out and sign-out-all as transitions of the user
    and refresh-token tables. Password hashing and verification, and the
    generation of token strings, are done by libraries outside the model:
    the hash, the freshly generated token and the verification predicate
    are parameters. `now` is the clock reading of the request. */
module TokenStore {
  import opened Outcome

  const SecondsPerHour: int := 3600
  /** Refresh tokens are issued for two hours. */
  const TokenLifetime: int := 2 * SecondsPerHour
  const UserRoleName: string := "User"

  datatype User = User(username: string, passwordHash: string, roleId: int)
  datatype RefreshToken = RefreshToken(userId: int, token: string, expiresAt: int, isRevoked: bool)

  /** Users and tokens get their ids from their positions. */
  datatype AuthStore = AuthStore(roles: seq<string>, users: seq<User>, tokens: seq<RefreshToken>)

  datatype AuthError = UserAlreadyExists | RoleMissing | Unauthorized

  predicate UsernameTaken(users: seq<User>, username: string) {
    exists k :: 0 <= k < |users| && users[k].username == username
  }

  /** Position of the first element satisfying a search, as `FirstOrDefault`
      would find it. */
  function FirstRole(roles: seq<string>, name: string): (r: Option<nat>)
    ensures r.Some? ==> r.value < |roles| && roles[r.value] == name
    ensures r.Some? ==> forall k :: 0 <= k < r.value ==> roles[k] != name
    ensures r.None? ==> forall k :: 0 <= k < |roles| ==> roles[k] != name
  {
    if |roles| == 0 then None
    else if roles[0] == name then Some(0)
    else match FirstRole(roles[1..], name)
      case None => None
      case Some(i) => Some(i + 1)
  }

  function FirstUser(users: seq<User>, username: string): (r: Option<nat>)
    ensures r.Some? ==> r.value < |users| && users[r.value].username == username
    ensures r.Some? ==> forall k :: 0 <= k < r.value ==> users[k].username != username
    ensures r.None? <==> !UsernameTaken(users, username)
  {
    if |users| == 0 then None
    else if users[0].username == username then Some(0)
    else match FirstUser(users[1..], username)
      case None => None
      case Some(i) => Some(i + 1)
  }

  predicate LiveTokenOf(t: RefreshToken, userId: int) {
    t.userId == userId && !t.isRevoked
  }

  /** The first non-revoked token of a user. */
  function FirstLiveToken(ts: seq<RefreshToken>, userId: int): (r: Option<nat>)
    ensures r.Some? ==> r.value < |ts| && LiveTokenOf(ts[r.value], userId)
    ensures r.Some? ==> forall k :: 0 <= k < r.value ==> !LiveTokenOf(ts[k], userId)
    ensures r.None? ==> forall k :: 0 <= k < |ts| ==> !LiveTokenOf(ts[k], userId)
  {
    if |ts| == 0 then None
    else if LiveTokenOf(ts[0], userId) then Some(0)
    else match FirstLiveToken(ts[1..], userId)
      case None => None
      case Some(i) => Some(i + 1)
  }

  /** A token string that `RefreshTokenAsync` accepts at `now`. */
  predicate Redeemable(t: RefreshToken, token: string, now: int) {
    t.token == token && !t.isRevoked && t.expiresAt > now
  }

  function FirstRedeemable(ts: seq<RefreshToken>, token: string, now: int): (r: Option<nat>)
    ensures r.Some? ==> r.value < |ts| && Redeemable(ts[r.value], token, now)
    ensures r.Some? ==> forall k :: 0 <= k < r.value ==> !Redeemable(ts[k], token, now)
    ensures r.None? ==> forall k :: 0 <= k < |ts| ==> !Redeemable(ts[k], token, now)
  {
    if |ts| == 0 then None
    else if Redeemable(ts[0], token, now) then Some(0)
    else match FirstRedeemable(ts[1..], token, now)
      case None => None
      case Some(i) => Some(i + 1)
  }

  /** A token string that `SignOutAsync` accepts: expiry is not consulted. */
  predicate Revocable(t: RefreshToken, token: string) {
    t.token == token && !t.isRevoked
  }

  function FirstRevocable(ts: seq<RefreshToken>, token: string): (r: Option<nat>)
    ensures r.Some? ==> r.value < |ts| && Revocable(ts[r.value], token)
    ensures r.Some? ==> forall k :: 0 <= k < r.value ==> !Revocable(ts[k], token)
    ensures r.None? ==> forall k :: 0 <= k < |ts| ==> !Revocable(ts[k], token)
  {
    if |ts| == 0 then None
    else if Revocable(ts[0], token) then Some(0)
    else match FirstRevocable(ts[1..], token)
      case None => None
      case Some(i) => Some(i + 1)
  }

  /** Number of non-revoked tokens a user holds. */
  function LiveCount(ts: seq<RefreshToken>, userId: int): nat {
    if |ts| == 0 then 0
    else LiveCount(ts[..|ts| - 1], userId) + (if LiveTokenOf(ts[|ts| - 1], userId) then 1 else 0)
  }

  lemma LiveCountAppend(ts: seq<RefreshToken>, t: RefreshToken, userId: int)
    ensures LiveCount(ts + [t], userId) == LiveCount(ts, userId) + (if LiveTokenOf(t, userId) then 1 else 0)
  {
    assert (ts + [t])[..|ts|] == ts;
  }

  /** Replacing one token by another changes a user's count only by what
      the two tokens contribute. */
  lemma {:induction false} LiveCountUpdate(ts: seq<RefreshToken>, i: nat, t: RefreshToken, userId: int)
    requires i < |ts|
    ensures LiveCount(ts[i := t], userId) + (if LiveTokenOf(ts[i], userId) then 1 else 0)
            == LiveCount(ts, userId) + (if LiveTokenOf(t, userId) then 1 else 0)
  {
    var n := |ts| - 1;
    assert ts[i := t][..n] == if i == n then ts[..n] else ts[..n][i := t];
    if i < n {
      LiveCountUpdate(ts[..n], i, t, userId);
    }
  }

  lemma {:induction false} LiveCountZero(ts: seq<RefreshToken>, userId: int)
    requires forall k :: 0 <= k < |ts| ==> !LiveTokenOf(ts[k], userId)
    ensures LiveCount(ts, userId) == 0
  {
    if |ts| > 0 {
      LiveCountZero(ts[..|ts| - 1], userId);
    }
  }

  /** `RegisterUserAsync`: a taken username is rejected; otherwise one user
      with the "User" role and one live token for it are added. */
  function Register(s: AuthStore, username: string, passwordHash: string, newToken: string, now: int): (r: Result<AuthStore, AuthError>)
    ensures UsernameTaken(s.users, username) ==> r == Err(UserAlreadyExists)
    ensures !UsernameTaken(s.users, username) && UserRoleName !in s.roles ==> r == Err(RoleMissing)
    ensures !UsernameTaken(s.users, username) && UserRoleName in s.roles ==> r.Ok?
    ensures r.Ok? ==>
              && r.value.roles == s.roles
              && |r.value.users| == |s.users| + 1 && r.value.users[..|s.users|] == s.users
              && r.value.tokens == s.tokens + [RefreshToken(|s.users|, newToken, now + TokenLifetime, false)]
              && var u := r.value.users[|s.users|];
                 u.username == username && u.passwordHash == passwordHash
                 && 0 <= u.roleId < |s.roles| && s.roles[u.roleId] == UserRoleName
  {
    if UsernameTaken(s.users, username) then Err(UserAlreadyExists)
    else match FirstRole(s.roles, UserRoleName)
      case None => Err(RoleMissing)
      case Some(role) =>
        var users := s.users + [User(username, passwordHash, role)];
        assert users[..|s.users|] == s.users;
        Ok(AuthStore(s.roles, users, s.tokens + [RefreshToken(|s.users|, newToken, now + TokenLifetime, false)]))
  }

  /** `LoginUserAsync`: an unknown name or a failed password check is
      Unauthorized. On success the user's first live token is re-issued in
      place, or a token is added when the user had none. */
  function Login(s: AuthStore, username: string, password: string, verify: (string, string) -> bool,
                 newToken: string, now: int): (r: Result<AuthStore, AuthError>)
    ensures !UsernameTaken(s.users, username) ==> r == Err(Unauthorized)
    ensures UsernameTaken(s.users, username) ==>
              var u := FirstUser(s.users, username).value;
              (r.Ok? <==> verify(s.users[u].passwordHash, password)) && (r.Err? ==> r.error == Unauthorized)
    ensures r.Ok? ==> exists k :: 0 <= k < |s.users| && s.users[k].username == username && verify(s.users[k].passwordHash, password)
    ensures r.Ok? ==> r.value.roles == s.roles && r.value.users == s.users
  {
    match FirstUser(s.users, username)
    case None => Err(Unauthorized)
    case Some(uid) =>
      if !verify(s.users[uid].passwordHash, password) then Err(Unauthorized)
      else match FirstLiveToken(s.tokens, uid)
        case Some(i) => Ok(s.(tokens := s.tokens[i := s.tokens[i].(token := newToken, expiresAt := now + TokenLifetime)]))
        case None => Ok(s.(tokens := s.tokens + [RefreshToken(uid, newToken, now + TokenLifetime, false)]))
  }

  /** After a successful login the user holds a live token carrying the new
      string and expiry; the user's live-token count stays as it was when it
      was positive and becomes one otherwise; no other user's token changes.
      The token table changes in one of two ways: when the user had a live
      token, the first such row is re-issued in place with the new string
      and expiry and nothing is added; otherwise exactly one live row for
      the user is appended. */
  lemma LoginIssuesOneLiveToken(s: AuthStore, username: string, password: string, verify: (string, string) -> bool,
                                newToken: string, now: int)
    requires Login(s, username, password, verify, newToken, now).Ok?
    ensures var uid := FirstUser(s.users, username).value;
            var s' := Login(s, username, password, verify, newToken, now).value;
            && (exists k :: 0 <= k < |s'.tokens| && s'.tokens[k] == RefreshToken(uid, newToken, now + TokenLifetime, false))
            && LiveCount(s'.tokens, uid) == (if LiveCount(s.tokens, uid) == 0 then 1 else LiveCount(s.tokens, uid))
            && |s'.tokens| >= |s.tokens|
            && (forall k :: 0 <= k < |s.tokens| && s.tokens[k].userId != uid ==> s'.tokens[k] == s.tokens[k])
            && (forall k :: |s.tokens| <= k < |s'.tokens| ==> s'.tokens[k].userId == uid)
            && (LiveCount(s.tokens, uid) == 0 ==>
                  s'.tokens == s.tokens + [RefreshToken(uid, newToken, now + TokenLifetime, false)])
            && (LiveCount(s.tokens, uid) > 0 ==>
                  exists i :: 0 <= i < |s.tokens| && LiveTokenOf(s.tokens[i], uid)
                    && (forall k :: 0 <= k < i ==> !LiveTokenOf(s.tokens[k], uid))
                    && s'.tokens == s.tokens[i := s.tokens[i].(token := newToken, expiresAt := now + TokenLifetime)])
  {
    var uid := FirstUser(s.users, username).value;
    var r := Login(s, username, password, verify, newToken, now);
    var issued := RefreshToken(uid, newToken, now + TokenLifetime, false);
    match FirstLiveToken(s.tokens, uid)
    case Some(i) =>
      var t := s.tokens[i].(token := newToken, expiresAt := now + TokenLifetime);
      assert r == Ok(s.(tokens := s.tokens[i := t]));
      assert t == issued;
      assert r.value.tokens[i] == issued;
      LiveCountUpdate(s.tokens, i, t, uid);
      // the user already had a live token, so the count is positive
      LiveCountUpdate(s.tokens, i, s.tokens[i].(isRevoked := true), uid);
    case None =>
      assert r == Ok(s.(tokens := s.tokens + [issued]));
      LiveCountZero(s.tokens, uid);
      LiveCountAppend(s.tokens, issued, uid);
      assert r.value.tokens[|s.tokens|] == issued;
  }

  /** `RefreshTokenAsync`: only a matching, unrevoked, unexpired token is
      accepted; it is revoked and a new live token for the same user is added. */
  function Refresh(s: AuthStore, token: string, newToken: string, now: int): (r: Result<AuthStore, AuthError>)
    ensures (forall k :: 0 <= k < |s.tokens| ==> !Redeemable(s.tokens[k], token, now)) <==> r == Err(Unauthorized)
    ensures r.Ok? ==>
              && r.value.roles == s.roles && r.value.users == s.users
              && |r.value.tokens| == |s.tokens| + 1
              && exists i :: 0 <= i < |s.tokens| && Redeemable(s.tokens[i], token, now)
                   && r.value.tokens == s.tokens[i := s.tokens[i].(isRevoked := true)]
                                        + [RefreshToken(s.tokens[i].userId, newToken, now + TokenLifetime, false)]
  {
    match FirstRedeemable(s.tokens, token, now)
    case None => Err(Unauthorized)
    case Some(i) =>
      var t := s.tokens[i];
      Ok(s.(tokens := s.tokens[i := t.(isRevoked := true)] + [RefreshToken(t.userId, newToken, now + TokenLifetime, false)]))
  }

  /** A refresh hands over one live token for another: the holder's live
      count is unchanged and every other user's tokens are untouched. */
  lemma RefreshKeepsLiveCount(s: AuthStore, token: string, newToken: string, now: int, userId: int)
    requires Refresh(s, token, newToken, now).Ok?
    ensures LiveCount(Refresh(s, token, newToken, now).value.tokens, userId) == LiveCount(s.tokens, userId)
  {
    var i := FirstRedeemable(s.tokens, token, now).value;
    var t := s.tokens[i].(isRevoked := true);
    var mid := s.tokens[i := t];
    LiveCountUpdate(s.tokens, i, t, userId);
    LiveCountAppend(mid, RefreshToken(s.tokens[i].userId, newToken, now + TokenLifetime, false), userId);
  }

  /** A token string held by one token only cannot be redeemed twice. */
  lemma RefreshIsSingleUse(s: AuthStore, token: string, newToken: string, newToken2: string, now: int)
    requires Refresh(s, token, newToken, now).Ok?
    requires forall i, j :: 0 <= i < j < |s.tokens| ==> s.tokens[i].token != token || s.tokens[j].token != token
    requires newToken != token
    ensures Refresh(Refresh(s, token, newToken, now).value, token, newToken2, now) == Err(Unauthorized)
  {
    var s' := Refresh(s, token, newToken, now).value;
    var i := FirstRedeemable(s.tokens, token, now).value;
    forall k | 0 <= k < |s'.tokens|
      ensures !Redeemable(s'.tokens[k], token, now)
    {
      if k < |s.tokens| && k != i {
        assert s.tokens[i].token == token;
        if k < i {
          assert s.tokens[k].token != token;
        } else {
          assert s.tokens[k].token != token;
        }
      }
    }
  }

  /** `SignOutAsync`: an unknown or already revoked token is Unauthorized;
      otherwise exactly that token is revoked. */
  function SignOut(s: AuthStore, token: string): (r: Result<AuthStore, AuthError>)
    ensures (forall k :: 0 <= k < |s.tokens| ==> !Revocable(s.tokens[k], token)) <==> r == Err(Unauthorized)
    ensures r.Ok? ==>
              && r.value.roles == s.roles && r.value.users == s.users
              && exists i :: 0 <= i < |s.tokens| && Revocable(s.tokens[i], token)
                   && r.value.tokens == s.tokens[i := s.tokens[i].(isRevoked := true)]
  {
    match FirstRevocable(s.tokens, token)
    case None => Err(Unauthorized)
    case Some(i) => Ok(s.(tokens := s.tokens[i := s.tokens[i].(isRevoked := true)]))
  }

  /** A sign-out takes exactly one live token from its holder and leaves
      every other user's live-token count as it was. */
  lemma SignOutDropsOneLiveToken(s: AuthStore, token: string, userId: int)
    requires SignOut(s, token).Ok?
    ensures exists i :: 0 <= i < |s.tokens| && Revocable(s.tokens[i], token)
              && LiveCount(SignOut(s, token).value.tokens, userId) + (if s.tokens[i].userId == userId then 1 else 0)
                 == LiveCount(s.tokens, userId)
  {
    var i := FirstRevocable(s.tokens, token).value;
    LiveCountUpdate(s.tokens, i, s.tokens[i].(isRevoked := true), userId);
  }

  /** A token string held by one token only is dead after a sign-out: a
      second sign-out and a refresh with it are both Unauthorized. */
  lemma SignOutIsFinal(s: AuthStore, token: string, newToken: string, now: int)
    requires SignOut(s, token).Ok?
    requires forall i, j :: 0 <= i < j < |s.tokens| ==> s.tokens[i].token != token || s.tokens[j].token != token
    ensures SignOut(SignOut(s, token).value, token) == Err(Unauthorized)
    ensures Refresh(SignOut(s, token).value, token, newToken, now) == Err(Unauthorized)
  {
    var s' := SignOut(s, token).value;
    var i := FirstRevocable(s.tokens, token).value;
    forall k | 0 <= k < |s'.tokens|
      ensures !Revocable(s'.tokens[k], token) && !Redeemable(s'.tokens[k], token, now)
    {
      if k != i {
        assert s.tokens[i].token == token;
        if k < i {
          assert s.tokens[k].token != token;
        } else {
          assert s.tokens[k].token != token;
        }
      }
    }
  }

  function RevokeAll(ts: seq<RefreshToken>, userId: int): (r: seq<RefreshToken>)
    ensures |r| == |ts|
    ensures forall k :: 0 <= k < |ts| && ts[k].userId == userId ==> r[k] == ts[k].(isRevoked := true)
    ensures forall k :: 0 <= k < |ts| && ts[k].userId != userId ==> r[k] == ts[k]
  {
    if |ts| == 0 then []
    else
      var t := ts[|ts| - 1];
      RevokeAll(ts[..|ts| - 1], userId) + [if t.userId == userId then t.(isRevoked := true) else t]
  }

  /** `SignOutAllAsync`: revokes every token of the user; it never fails,
      even for an unknown user id. */
  function SignOutAll(s: AuthStore, userId: int): (r: AuthStore)
    ensures r.roles == s.roles && r.users == s.users && |r.tokens| == |s.tokens|
    ensures forall k :: 0 <= k < |s.tokens| && s.tokens[k].userId == userId ==> r.tokens[k].isRevoked
    ensures forall k :: 0 <= k < |s.tokens| ==>
              r.tokens[k].userId == s.tokens[k].userId && r.tokens[k].token == s.tokens[k].token
              && r.tokens[k].expiresAt == s.tokens[k].expiresAt
    ensures forall k :: 0 <= k < |s.tokens| && s.tokens[k].userId != userId ==> r.tokens[k] == s.tokens[k]
  {
    s.(tokens := RevokeAll(s.tokens, userId))
  }

  /** Signing out everywhere twice is the same as once, and leaves the user
      with no live token. */
  lemma SignOutAllIdempotent(s: AuthStore, userId: int)
    ensures SignOutAll(SignOutAll(s, userId), userId) == SignOutAll(s, userId)
    ensures LiveCount(SignOutAll(s, userId).tokens, userId) == 0
  {
    var r := SignOutAll(s, userId);
    assert SignOutAll(r, userId).tokens == r.tokens;
    LiveCountZero(r.tokens, userId);
  }

  /** Registration keeps usernames unique. */
  ghost predicate UsernamesUnique(users: seq<User>) {
    forall i, j :: 0 <= i < j < |users| ==> users[i].username != users[j].username
  }

  lemma RegisterKeepsUsernamesUnique(s: AuthStore, username: string, passwordHash: string, newToken: string, now: int)
    requires UsernamesUnique(s.users)
    requires Register(s, username, passwordHash, newToken, now).Ok?
    ensures UsernamesUnique(Register(s, username, passwordHash, newToken, now).value.users)
  {
    var users := Register(s, username, passwordHash, newToken, now).value.users;
    assert forall k :: 0 <= k < |s.users| ==> users[k] == s.users[k];
  }
}
