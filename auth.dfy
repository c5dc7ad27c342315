/**
 * Sessions of the web server when it is configured for OAuth: a session is
 * 32 random bytes, handed to the browser Base64-encoded in the `SESSION`
 * cookie, and the server keeps a table from session to the user's login and
 * an expiry time in seconds since the Unix epoch. The OAuth exchange, the
 * random generator, the clock and the lock around the table are not part
 * of this model: the session, the login and the time are parameters.
 */
module Auth {
  import opened Wrappers
  import opened Text
  import opened Ints
  import B = Base64
  import E = Errors

  const COOKIE_NAME: String := "SESSION"
  /** How often the table is swept: daily. */
  const SESSION_CHECK_SEC: nat := 24 * 60 * 60
  /** How long a session lives: seven days. */
  const SESSION_EXPIRE_SEC: nat := 7 * 24 * 60 * 60
  const SESSION_LEN: nat := 32

  type SessionData = s: seq<u8> | |s| == SESSION_LEN witness seq(32, _ => 0)

  datatype Session = Session(data: SessionData)

  /** The user data the OAuth server returns. */
  datatype Login = Login(id: String, username: String)

  /** What every request gets when the server runs without authentication. */
  const EMPTY_LOGIN: Login := Login([], [])

  /** The redirect to `/auth/login`. */
  datatype Rejection = AuthRedirect

  type Table = map<Session, (Login, nat)>

  /** `to_cookie`. */
  function ToCookie(s: Session): (c: String)
    ensures |c| == 44
  {
    B.EncodeLength(s.data);
    B.Encode(s.data)
  }

  /**
   * `from_cookie`: the cookie must be Base64 that decodes to exactly 32
   * bytes (the 40-byte buffer decoded into only matters for longer text,
   * which is refused either way); anything else is `Network`.
   */
  function FromCookie(cookie: String): (r: Result<Session, E.Error>)
    ensures r.Err? ==> r.error == E.Network
    ensures r.Ok? <==> B.Decode(cookie).Some? && |B.Decode(cookie).value| == SESSION_LEN
  {
    match B.Decode(cookie)
    case Some(data) => if |data| == SESSION_LEN then Ok(Session(data)) else Err(E.Network)
    case None => Err(E.Network)
  }

  /** Every session survives the trip through its cookie. */
  lemma CookieRoundTrip(s: Session)
    ensures FromCookie(ToCookie(s)) == Ok(s)
  {
    B.DecodeEncode(s.data);
  }

  /** A cookie that is accepted is exactly the cookie of the session it names: no two cookies name the same session. */
  lemma CookieCanonical(cookie: String)
    requires FromCookie(cookie).Ok?
    ensures ToCookie(FromCookie(cookie).value) == cookie
  {
    B.EncodeDecode(cookie);
  }

  const ATTRIBUTES: String := " SameSite=Lax; Path=/"

  /** The `Set-Cookie` header of a new session. */
  function SetCookie(s: Session): String {
    COOKIE_NAME + ['='] + ToCookie(s) + [';'] + ATTRIBUTES
  }

  lemma SplitHeader(name: String, value: String, attributes: String)
    requires '=' !in name && ';' !in value
    ensures SplitOnce(name + ['='] + value + [';'] + attributes, '=') == Some((name, value + [';'] + attributes))
    ensures SplitOnce(value + [';'] + attributes, ';') == Some((value, attributes))
  {
    assert name + ['='] + value + [';'] + attributes == name + ['='] + (value + [';'] + attributes);
    SplitOnceOf(name, '=', value + [';'] + attributes);
    SplitOnceOf(value, ';', attributes);
  }

  /** The cookie value is what stands between the first `=` and the first `;`. */
  lemma SetCookieValue(s: Session)
    ensures SplitOnce(SetCookie(s), '=') == Some((COOKIE_NAME, ToCookie(s) + [';'] + ATTRIBUTES))
    ensures SplitOnce(ToCookie(s) + [';'] + ATTRIBUTES, ';') == Some((ToCookie(s), ATTRIBUTES))
  {
    assert '=' !in COOKIE_NAME;
    B.OnlyAlphabet(s.data, ';');
    SplitHeader(COOKIE_NAME, ToCookie(s), ATTRIBUTES);
  }

  /**
   * The answer of the extractor for a request carrying `cookie` (the value
   * of the `SESSION` cookie, `None` when the header or the cookie is
   * missing) at time `now`: the login while the session has not expired,
   * the last second included, and a redirect in every other case.
   */
  function Check(sessions: Table, cookie: Option<String>, now: nat): (r: Result<Login, Rejection>)
    ensures r.Ok? <==> cookie.Some? && FromCookie(cookie.value).Ok?
                       && FromCookie(cookie.value).value in sessions && now <= sessions[FromCookie(cookie.value).value].1
    ensures r.Ok? ==> r.value == sessions[FromCookie(cookie.value).value].0
  {
    match cookie
    case None => Err(AuthRedirect)
    case Some(c) =>
      match FromCookie(c)
      case Err(_) => Err(AuthRedirect)
      case Ok(s) =>
        if s !in sessions then Err(AuthRedirect)
        else if now > sessions[s].1 then Err(AuthRedirect)
        else Ok(sessions[s].0)
  }

  /**
   * The extractor as written: on an expired session it asks the table's
   * `RwLock` for the write lock while the read guard it took for the
   * lookup is still alive, so that request gets no answer (`None`): the
   * lock blocks for good, or panics, and the session is not removed. In
   * every other case the answer is the one of `Check`: the requests left
   * unanswered are exactly those whose intended check removes a session.
   */
  function CheckAsWritten(sessions: Table, cookie: Option<String>, now: nat): (r: Option<Result<Login, Rejection>>)
    ensures r.None? <==> cookie.Some? && FromCookie(cookie.value).Ok?
                         && FromCookie(cookie.value).value in sessions && now > sessions[FromCookie(cookie.value).value].1
    ensures r.Some? ==> r.value == Check(sessions, cookie, now)
    ensures r.None? <==> Checked(sessions, cookie, now) != sessions
  {
    match cookie
    case None => Some(Err(AuthRedirect))
    case Some(c) =>
      match FromCookie(c)
      case Err(_) => Some(Err(AuthRedirect))
      case Ok(s) =>
        if s !in sessions then Some(Err(AuthRedirect))
        else if now > sessions[s].1 then None
        else Some(Ok(sessions[s].0))
  }

  /** As written, a request with a stored session past its expiry, not yet swept, is never answered. */
  lemma ExpiredNeverAnswered(sessions: Table, s: Session, now: nat)
    requires s in sessions && now > sessions[s].1
    ensures CheckAsWritten(sessions, Some(ToCookie(s)), now).None?
  {
    CookieRoundTrip(s);
  }

  /** The table after that check: an expired session it found is removed. */
  function Checked(sessions: Table, cookie: Option<String>, now: nat): (r: Table)
    ensures r.Keys <= sessions.Keys && forall s | s in r :: r[s] == sessions[s]
    ensures |sessions.Keys - r.Keys| <= 1
  {
    match cookie
    case None => sessions
    case Some(c) =>
      match FromCookie(c)
      case Err(_) => sessions
      case Ok(s) =>
        if s in sessions && now > sessions[s].1 then
          assert sessions.Keys - (sessions - {s}).Keys == {s};
          sessions - {s}
        else sessions
  }

  /** `retain(|_, (_, e)| *e > now)`. */
  function Swept(sessions: Table, now: nat): (r: Table)
    ensures forall s :: s in r <==> s in sessions && sessions[s].1 > now
    ensures forall s | s in r :: r[s] == sessions[s]
  {
    map s | s in sessions && sessions[s].1 > now :: sessions[s]
  }

  /** After a logout with `cookie`: the named session is gone; a cookie that is not a session is `Network`. */
  function LoggedOut(sessions: Table, cookie: Option<String>): (r: Result<Table, E.Error>)
    ensures cookie.None? ==> r == Ok(sessions)
    ensures cookie.Some? && FromCookie(cookie.value).Err? ==> r == Err(E.Network)
    ensures r.Ok? ==> forall s | s in r.value :: s in sessions && r.value[s] == sessions[s]
  {
    match cookie
    case None => Ok(sessions)
    case Some(c) =>
      match FromCookie(c)
      case Err(e) => Err(e)
      case Ok(s) => Ok(sessions - {s})
  }

  /** A session just created is accepted with its cookie until its expiry second, and refused after it. */
  lemma NewSessionLifetime(sessions: Table, s: Session, login: Login, now: nat, later: nat)
    ensures Check(sessions[s := (login, now + SESSION_EXPIRE_SEC)], Some(ToCookie(s)), later)
            == if later <= now + SESSION_EXPIRE_SEC then Ok(login) else Err(AuthRedirect)
  {
    CookieRoundTrip(s);
  }

  /** An expired session is refused and removed by the request that finds it. */
  lemma ExpiredRemoved(sessions: Table, s: Session, now: nat)
    requires s in sessions && now > sessions[s].1
    ensures Check(sessions, Some(ToCookie(s)), now) == Err(AuthRedirect)
    ensures s !in Checked(sessions, Some(ToCookie(s)), now)
  {
    CookieRoundTrip(s);
  }

  /** A sweep changes no later answer: whatever it removed would have been refused anyway. */
  lemma SweepInvisible(sessions: Table, swept: nat, cookie: Option<String>, now: nat)
    requires swept < now
    ensures Check(Swept(sessions, swept), cookie, now) == Check(sessions, cookie, now)
  {
  }

  /** After logging out, the cookie no longer opens a session. */
  lemma LogoutEnds(sessions: Table, cookie: String, now: nat)
    requires LoggedOut(sessions, Some(cookie)).Ok?
    ensures Check(LoggedOut(sessions, Some(cookie)).value, Some(cookie), now) == Err(AuthRedirect)
  {
  }

  /** The shared state of the OAuth configuration: the session table. */
  class OAuthState {
    var sessions: Table

    /** `OAuthState` as `Auth::new` builds it: no sessions yet. */
    constructor()
      ensures sessions == map[]
    {
      sessions := map[];
    }

    /**
     * The end of `login_authorized`: the session is stored with the login
     * and an expiry seven days from `now`, replacing any entry it had, and
     * the `Set-Cookie` header is returned. `None` when there was an entry
     * already: the assertion after the insertion fails and the request
     * panics, the table holding the new entry.
     */
    method Authorized(session: Session, login: Login, now: u64) returns (header: Option<String>)
      modifies this
      ensures sessions == old(sessions)[session := (login, now + SESSION_EXPIRE_SEC)]
      ensures header.Some? <==> session !in old(sessions)
      ensures header.Some? ==> header.value == SetCookie(session)
    {
      var cookie := SetCookie(session);
      var previous := session in sessions;
      sessions := sessions[session := (login, now + SESSION_EXPIRE_SEC)];
      header := if previous then None else Some(cookie);
    }

    /** What `background` does once a day: drop every session whose expiry is not after `now`. */
    method Sweep(now: u64)
      modifies this
      ensures sessions == Swept(old(sessions), now)
    {
      sessions := map s | s in sessions && sessions[s].1 > now :: sessions[s];
    }

    /** `logout`: removes the cookie's session when there is a cookie; its answer is the redirect to `/`. */
    method Logout(cookie: Option<String>) returns (r: Result<(), E.Error>)
      modifies this
      ensures LoggedOut(old(sessions), cookie).Ok? ==> r.Ok? && sessions == LoggedOut(old(sessions), cookie).value
      ensures LoggedOut(old(sessions), cookie).Err? ==> r == Err(LoggedOut(old(sessions), cookie).error) && sessions == old(sessions)
    {
      if cookie.Some? {
        var session := FromCookie(cookie.value);
        if session.Err? {
          return Err(session.error);
        }
        sessions := sessions - {session.value};
      }
      r := Ok(());
    }
  }

  /** `Auth`: without OAuth configuration, or with its shared state. */
  datatype Auth = NoAuth | OAuth(state: OAuthState)

  /**
   * `Login::from_request_parts` as intended: without OAuth everyone is the
   * empty login; with it, the answer of `Check`, an expired session being
   * removed on the way, the read guard of the lookup released before the
   * write lock is taken (as written, that request never gets an answer:
   * see `CheckAsWritten`).
   */
  method FromRequestParts(auth: Auth, cookie: Option<String>, now: u64) returns (r: Result<Login, Rejection>)
    modifies if auth.OAuth? then {auth.state} else {}
    ensures auth.NoAuth? ==> r == Ok(EMPTY_LOGIN)
    ensures auth.OAuth? ==> r == Check(old(auth.state.sessions), cookie, now)
    ensures auth.OAuth? ==> auth.state.sessions == Checked(old(auth.state.sessions), cookie, now)
  {
    if auth.NoAuth? {
      return Ok(EMPTY_LOGIN);
    }
    var state := auth.state;
    if cookie.None? {
      return Err(AuthRedirect);
    }
    var session := FromCookie(cookie.value);
    if session.Err? {
      return Err(AuthRedirect);
    }
    var s := session.value;
    if s !in state.sessions {
      return Err(AuthRedirect);
    }
    var (login, expires) := state.sessions[s];
    if now > expires {
      state.sessions := state.sessions - {s};
      return Err(AuthRedirect);
    }
    r := Ok(login);
  }
}
