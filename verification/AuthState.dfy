/** Accounts, sessions and one-time tokens: internal/auth/{standalone,token}.go, the handlers that ban,
    unban and change passwords, and the seeding program, one request at a time. */
module AuthState {
  import opened Tables

  /** Nanoseconds. */
  const SECOND := 1_000_000_000
  const HOUR := 3600 * SECOND
  const SESSION_LIFETIME := 30 * 24 * HOUR
  const VERIFY_LIFETIME := 24 * HOUR
  const RESET_LIFETIME := HOUR
  const MIN_PASSWORD := 8

  datatype Role = Admin | Moderator | Member | Guest

  datatype User = User(username: string, email: string, passwordHash: string, role: Role, banned: bool, verified: bool)

  datatype Session = Session(user: Id, expires: nat)

  datatype Kind = VerifyEmail | ResetPassword

  datatype Token = Token(user: Id, kind: Kind, expires: nat)

  /** Session rows by session id, token rows by their unique hash. */
  datatype State = State(users: map<Id, User>, sessions: map<string, Session>, tokens: map<string, Token>)

  /** The library calls: does a password match a stored hash, and the hash of a raw token. */
  datatype Crypto = Crypto(matches: (string, string) -> bool, digest: string -> string)

  /** Stored times are cut to whole seconds. */
  function Stored(t: nat): (s: nat)
    ensures s <= t < s + SECOND
  {
    t - t % SECOND
  }

  function Lifetime(k: Kind): nat {
    if k == VerifyEmail then VERIFY_LIFETIME else RESET_LIFETIME
  }

  function CanModerate(r: Role): bool {
    r == Admin || r == Moderator
  }

  // ----- Requests and responses -----

  /** The flags say which store calls succeed.  `swept`: the deletion of sessions; except in a reset its
      failure is only logged.  `saved` and `cleared`: the update of the user, and the deletion of the token;
      their failure is an error, but what was written before stays. */
  datatype Request =
    | Seed(username: string, email: string, hash: Option<string>, role: Role, banned: bool, verified: bool, now: nat)
    | Register(username: string, email: string, password: string, addressOk: bool, hash: Option<string>, sid: string,
      raw: string, now: nat)
    | Login(email: string, password: string, sid: string, now: nat)
    | Logout(sid: string, now: nat, swept: bool)
    | Visit(sid: string, now: nat, swept: bool)
    | Ban(sid: string, target: Id, now: nat, swept: bool)
    | Unban(sid: string, target: Id, now: nat, swept: bool)
    | ChangePassword(sid: string, current: string, password: string, confirm: string, hash: Option<string>, now: nat,
      swept: bool)
    | Forgot(email: string, raw: string, now: nat)
    | ShowReset(raw: string, now: nat)
    | Reset(raw: string, password: string, confirm: string, hash: Option<string>, now: nat, saved: bool, cleared: bool,
      swept: bool)
    | Verify(raw: string, now: nat, saved: bool, cleared: bool)

  datatype Response =
    | Rejected
    | Seeded(user: Id)
    | LoggedOut
    | SignedIn(user: Id, mailed: bool)  // a session was opened; `mailed`: so was a verification link
    | As(user: Id)                      // served as this user
    | Done(user: Id)                    // the user acted upon
    | Broken(user: Id)                  // an error, after the user was written
    | Mailed(user: Id)                  // a reset link was sent
    | MailLost(user: Id)                // the old links are gone, but no new one was stored

  // ----- Lookups -----

  ghost function UserByEmail(users: map<Id, User>, email: string): (r: Option<Id>)
    ensures r.Some? ==> r.value in users && users[r.value].email == email
    ensures r.None? ==> forall u <- users :: users[u].email != email
  {
    if exists u :: u in users && users[u].email == email then
      var u :| u in users && users[u].email == email;
      Some(u)
    else None
  }

  predicate UsernameTaken(users: map<Id, User>, username: string) {
    exists u <- users :: users[u].username == username
  }

  /** GetSession, GetUserByID and the ban check of AuthenticateRequest. */
  function Authenticated(s: State, sid: string, now: nat): Option<Id> {
    if sid == "" || sid !in s.sessions || now > s.sessions[sid].expires then None
    else if s.sessions[sid].user !in s.users || s.users[s.sessions[sid].user].banned then None
    else Some(s.sessions[sid].user)
  }

  /** AuthenticateRequest deletes the session of a banned user on the way. */
  function Visited(s: State, sid: string, now: nat, swept: bool): State {
    if swept && sid != "" && sid in s.sessions && now <= s.sessions[sid].expires
       && s.sessions[sid].user in s.users && s.users[s.sessions[sid].user].banned
    then s.(sessions := s.sessions - {sid}) else s
  }

  /** The token lookup: the hash, the kind and the expiry must all fit, and the user must exist. */
  function TokenUser(c: Crypto, s: State, raw: string, kind: Kind, now: nat): Option<Id> {
    var h := c.digest(raw);
    if raw == "" || h !in s.tokens || s.tokens[h].kind != kind || now > s.tokens[h].expires
      || s.tokens[h].user !in s.users then None
    else Some(s.tokens[h].user)
  }

  // ----- Writes -----

  function KillSessions(sessions: map<string, Session>, u: Id): map<string, Session> {
    map sid | sid in sessions && sessions[sid].user != u :: sessions[sid]
  }

  function ClearTokens(tokens: map<string, Token>, u: Id, kind: Kind): map<string, Token> {
    map h | h in tokens && !(tokens[h].user == u && tokens[h].kind == kind) :: tokens[h]
  }

  /** openSession: the insert fails when the id is taken. */
  function CanOpen(s: State, sid: string): bool {
    sid !in s.sessions
  }

  function Opened(s: State, sid: string, u: Id, now: nat): State {
    s.(sessions := s.sessions[sid := Session(u, Stored(now + SESSION_LIFETIME))])
  }

  /** issue: the old tokens of the kind go first; the insert fails when the hash is taken. */
  function Issued(c: Crypto, s: State, u: Id, kind: Kind, raw: string, now: nat): (State, bool) {
    var cleared := s.(tokens := ClearTokens(s.tokens, u, kind));
    if c.digest(raw) in cleared.tokens then (cleared, false)
    else (cleared.(tokens := cleared.tokens[c.digest(raw) := Token(u, kind, Stored(now + Lifetime(kind)))]), true)
  }

  function SetUser(s: State, u: Id, row: User): State {
    s.(users := s.users[u := row])
  }

  // ----- Each request -----

  predicate UsernameOk(username: string) {
    3 <= |username| <= 32
    && forall ch <- username :: 'a' <= ch <= 'z' || 'A' <= ch <= 'Z' || '0' <= ch <= '9' || ch == '_'
  }

  predicate FormOk(username: string, email: string, password: string, addressOk: bool) {
    UsernameOk(username) && email != "" && addressOk && |password| >= MIN_PASSWORD
  }

  /** The seeding program writes an account as it likes; names and e-mails are unique. */
  ghost function ServeSeed(s: State, r: Request): (State, Response)
    requires r.Seed?
  {
    if UserByEmail(s.users, r.email).Some? || UsernameTaken(s.users, r.username) || r.hash.None? then (s, Rejected)
    else
      var u := NextId(s.users.Keys);
      (SetUser(s, u, User(r.username, r.email, r.hash.value, r.role, r.banned, r.verified)), Seeded(u))
  }

  /** The first account becomes an administrator. */
  ghost function ServeRegister(c: Crypto, s: State, r: Request): (State, Response)
    requires r.Register?
  {
    if !FormOk(r.username, r.email, r.password, r.addressOk) then (s, Rejected)
    else if UserByEmail(s.users, r.email).Some? || UsernameTaken(s.users, r.username) || r.hash.None? then (s, Rejected)
    else
      var u := NextId(s.users.Keys);
      var with := SetUser(s, u,
        User(r.username, r.email, r.hash.value, if u == 1 then Admin else Member, false, false));
      if !CanOpen(with, r.sid) then (with, Rejected)
      else
        var (after, mailed) := Issued(c, Opened(with, r.sid, u, r.now), u, VerifyEmail, r.raw, r.now);
        (after, SignedIn(u, mailed))
  }

  ghost function ServeLogin(c: Crypto, s: State, r: Request): (State, Response)
    requires r.Login?
  {
    var found := UserByEmail(s.users, r.email);
    if r.email == "" || r.password == "" || found.None? then (s, Rejected)
    else
      var u := found.value;
      if !c.matches(s.users[u].passwordHash, r.password) || s.users[u].banned || !CanOpen(s, r.sid) then (s, Rejected)
      else (Opened(s, r.sid, u, r.now), SignedIn(u, false))
  }

  function Swept(s: State, u: Id, swept: bool): State {
    if swept then s.(sessions := KillSessions(s.sessions, u)) else s
  }

  function ServeLogout(s: State, sid: string, swept: bool): State {
    if sid == "" || !swept then s else s.(sessions := s.sessions - {sid})
  }

  /** May the viewer ban the target?  Administrators cannot be banned. */
  predicate MayBan(s: State, viewer: Option<Id>, target: Id) {
    && viewer.Some? && viewer.value in s.users && CanModerate(s.users[viewer.value].role)
    && target in s.users && s.users[target].role != Admin
  }

  function ServeBan(s: State, sid: string, target: Id, now: nat, swept: bool): (State, Response) {
    var seen := Visited(s, sid, now, swept);
    if !MayBan(seen, Authenticated(s, sid, now), target) then (seen, Rejected)
    else
      (Swept(SetUser(seen, target, seen.users[target].(banned := true)), target, swept), Done(target))
  }

  function ServeUnban(s: State, sid: string, target: Id, now: nat, swept: bool): (State, Response) {
    var seen := Visited(s, sid, now, swept);
    var viewer := Authenticated(s, sid, now);
    if viewer.None? || !CanModerate(seen.users[viewer.value].role) || target !in seen.users then (seen, Rejected)
    else (SetUser(seen, target, seen.users[target].(banned := false)), Done(target))
  }

  function ServeChangePassword(c: Crypto, s: State, r: Request): (State, Response)
    requires r.ChangePassword?
  {
    var seen := Visited(s, r.sid, r.now, r.swept);
    var viewer := Authenticated(s, r.sid, r.now);
    if viewer.None? then (seen, Rejected)
    else
      var u := viewer.value;
      if !c.matches(seen.users[u].passwordHash, r.current) || r.password != r.confirm || |r.password| < MIN_PASSWORD
        || r.hash.None?
      then (seen, Rejected)
      else
        (Swept(SetUser(seen, u, seen.users[u].(passwordHash := r.hash.value)), u, r.swept), Done(u))
  }

  /** A reset link goes to known users who are not banned. */
  ghost function ServeForgot(c: Crypto, s: State, r: Request): (State, Response)
    requires r.Forgot?
  {
    var found := UserByEmail(s.users, r.email);
    if found.None? || s.users[found.value].banned then (s, Rejected)
    else
      var (after, stored) := Issued(c, s, found.value, ResetPassword, r.raw, r.now);
      (after, if stored then Mailed(found.value) else MailLost(found.value))
  }

  function ServeShowReset(c: Crypto, s: State, raw: string, now: nat): (State, Response) {
    var u := TokenUser(c, s, raw, ResetPassword, now);
    (s, if u.Some? then As(u.value) else Rejected)
  }

  function ServeReset(c: Crypto, s: State, r: Request): (State, Response)
    requires r.Reset?
  {
    var found := TokenUser(c, s, r.raw, ResetPassword, r.now);
    if r.password != r.confirm || |r.password| < MIN_PASSWORD || r.hash.None? || found.None? || !r.saved
      then (s, Rejected)
    else
      var u := found.value;
      var saved := SetUser(s, u, s.users[u].(passwordHash := r.hash.value));
      if !r.cleared then (saved, Broken(u))
      else
        var cleared := saved.(tokens := saved.tokens - {c.digest(r.raw)});
        (Swept(cleared, u, r.swept), if r.swept then Done(u) else Broken(u))
  }

  /** A user who is verified already is not written. */
  function ServeVerify(c: Crypto, s: State, r: Request): (State, Response)
    requires r.Verify?
  {
    var found := TokenUser(c, s, r.raw, VerifyEmail, r.now);
    if found.None? || !(s.users[found.value].verified || r.saved) then (s, Rejected)
    else
      var u := found.value;
      var saved := SetUser(s, u, s.users[u].(verified := true));
      if !r.cleared then (saved, Broken(u)) else (saved.(tokens := saved.tokens - {c.digest(r.raw)}), Done(u))
  }

  ghost function Serve(c: Crypto, s: State, r: Request): (State, Response) {
    match r
    case Seed(_, _, _, _, _, _, _) => ServeSeed(s, r)
    case Register(_, _, _, _, _, _, _, _) => ServeRegister(c, s, r)
    case Login(_, _, _, _) => ServeLogin(c, s, r)
    case Logout(sid, _, swept) => (ServeLogout(s, sid, swept), LoggedOut)
    case Visit(sid, now, swept) => (Visited(s, sid, now, swept), Served(Authenticated(s, sid, now)))
    case Ban(sid, target, now, swept) => ServeBan(s, sid, target, now, swept)
    case Unban(sid, target, now, swept) => ServeUnban(s, sid, target, now, swept)
    case ChangePassword(_, _, _, _, _, _, _) => ServeChangePassword(c, s, r)
    case Forgot(_, _, _) => ServeForgot(c, s, r)
    case ShowReset(raw, now) => ServeShowReset(c, s, raw, now)
    case Reset(_, _, _, _, _, _, _, _) => ServeReset(c, s, r)
    case Verify(_, _, _, _) => ServeVerify(c, s, r)
  }

  function Served(viewer: Option<Id>): Response {
    if viewer.Some? then As(viewer.value) else Rejected
  }

  /** A request with the answer it got. */
  datatype Event = Event(req: Request, resp: Response)

  const EMPTY := State(map[], map[], map[])

  ghost function After(c: Crypto, run: seq<Request>): State {
    if run == [] then EMPTY else Serve(c, After(c, run[..|run| - 1]), run[|run| - 1]).0
  }

  /** What the outside saw: every request and its answer. */
  ghost function History(c: Crypto, run: seq<Request>): (h: seq<Event>)
    ensures |h| == |run|
    ensures forall i :: 0 <= i < |run| ==> h[i].req == run[i]
  {
    if run == [] then []
    else
      var n := |run| - 1;
      History(c, run[..n]) + [Event(run[n], Serve(c, After(c, run[..n]), run[n]).1)]
  }
}

/** Sessions over whole runs. */
module AuthSessions {
  import opened Tables
  import opened AuthState

  /** The event opened session `sid` for somebody. */
  predicate SignsIn(e: Event, sid: string) {
    (e.req.Register? || e.req.Login?) && e.req.sid == sid && e.resp.SignedIn?
  }

  /** The event opened session `sid` for `u`. */
  predicate Opens(e: Event, sid: string, u: Id) {
    SignsIn(e, sid) && e.resp.user == u
  }

  /** The event ends session `sid` of `u`: a logout of it, or a ban, password change or reset of `u`, whose
      deletion of sessions succeeds. */
  predicate Ends(e: Event, sid: string, u: Id) {
    || (e.req.Logout? && e.req.sid == sid && sid != "" && e.req.swept)
    || ((e.req.Ban? || e.req.ChangePassword? || e.req.Reset?) && e.resp == Done(u) && e.req.swept)
  }

  /** The last ban or unban of `u` was a ban, or there was none and `u` was seeded as banned. */
  function Banned(h: seq<Event>, u: Id): bool {
    if h == [] then false
    else
      var e := h[|h| - 1];
      if e.req.Seed? && e.resp == Seeded(u) then e.req.banned
      else if e.req.Ban? && e.resp == Done(u) then true
      else if e.req.Unban? && e.resp == Done(u) then false
      else Banned(h[..|h| - 1], u)
  }

  /** The event presents the cookie `sid`, in time, and the deletion of a banned user's session succeeds. */
  predicate Presents(e: Event, sid: string, expires: nat) {
    && (e.req.Visit? || e.req.Ban? || e.req.Unban? || e.req.ChangePassword?)
    && e.req.sid == sid && sid != "" && e.req.now <= expires && e.req.swept
  }

  /** After the events `h`, event `e` is the end of the session: it ends it, or presents it while its user
      is banned. */
  predicate Over(h: seq<Event>, e: Event, sid: string, row: Session) {
    Ends(e, sid, row.user) || (Presents(e, sid, row.expires) && Banned(h, row.user))
  }

  const THIRTY_DAYS := 2_592_000_000_000_000

  /** The row that opening event `e` stores for `u`. */
  function RowOf(e: Event, u: Id): Session {
    Session(u, Stored(e.req.now + THIRTY_DAYS))
  }

  /** Session `sid` was opened for `u` by event `i`, and nothing has ended it since. */
  ghost predicate OpenSince(h: seq<Event>, i: nat, sid: string, u: Id) {
    && i < |h| && Opens(h[i], sid, u)
    && forall j :: i < j < |h| ==> !Over(h[..j], h[j], sid, RowOf(h[i], u))
  }

  // ----- The sessions table is the open sessions of the history -----

  /** The open session under an id, read off the history. */
  function Open(h: seq<Event>, sid: string): Option<Session> {
    if h == [] then None else OpenAfter(h[..|h| - 1], Open(h[..|h| - 1], sid), h[|h| - 1], sid)
  }

  function OpenAfter(h: seq<Event>, before: Option<Session>, e: Event, sid: string): Option<Session> {
    if SignsIn(e, sid) then Some(RowOf(e, e.resp.user))
    else if before.Some? && Over(h, e, sid, before.value) then None
    else before
  }

  lemma OpenSnoc(h: seq<Event>, e: Event, sid: string)
    ensures Open(h + [e], sid) == OpenAfter(h, Open(h, sid), e, sid)
  {
    assert (h + [e])[..|h|] == h;
  }

  lemma BannedSnoc(h: seq<Event>, e: Event, u: Id)
    ensures Banned(h + [e], u) ==
            if e.req.Seed? && e.resp == Seeded(u) then e.req.banned
            else if e.req.Ban? && e.resp == Done(u) then true
            else if e.req.Unban? && e.resp == Done(u) then false
            else Banned(h, u)
  {
    assert (h + [e])[..|h|] == h;
  }

  function Row(s: State, sid: string): Option<Session> {
    if sid in s.sessions then Some(s.sessions[sid]) else None
  }

  /** Sessions belong to users who exist. */
  ghost predicate Healthy(s: State) {
    forall sid <- s.sessions :: s.sessions[sid].user in s.users
  }

  /** The history tells who is banned. */
  ghost predicate KnowsBans(s: State, h: seq<Event>) {
    forall u :: Banned(h, u) == IsBanned(s, u)
  }

  /** One request changes one session row as the history says. */
  ghost predicate RowStep(s: State, h: seq<Event>, r: Request, after: (State, Response), sid: string) {
    Row(after.0, sid) == OpenAfter(h, Row(s, sid), Event(r, after.1), sid)
  }

  lemma ServeRow(c: Crypto, s: State, h: seq<Event>, r: Request, sid: string)
    requires Healthy(s) && KnowsBans(s, h)
    ensures RowStep(s, h, r, Serve(c, s, r), sid)
  {
    match r
    case Register(_, _, _, _, _, _, _, _) => RegisterRow(c, s, h, r, sid);
    case Login(_, _, _, _) => LoginRow(c, s, h, r, sid);
    case Logout(_, _, _) =>
    case Seed(_, _, _, _, _, _, _) => SeedRow(s, h, r, sid);
    case Visit(_, _, _) => VisitRow(c, s, h, r, sid);
    case Ban(_, _, _, _) => BanRow(s, h, r, sid);
    case Unban(_, _, _, _) => UnbanRow(s, h, r, sid);
    case ChangePassword(_, _, _, _, _, _, _) => PasswordRow(c, s, h, r, sid);
    case Reset(_, _, _, _, _, _, _, _) => ResetRow(c, s, h, r, sid);
    case _ => OtherRow(c, s, h, r, sid);
  }

  lemma SeedRow(s: State, h: seq<Event>, r: Request, sid: string)
    requires r.Seed?
    ensures RowStep(s, h, r, ServeSeed(s, r), sid)
  {
  }

  lemma RegisterRow(c: Crypto, s: State, h: seq<Event>, r: Request, sid: string)
    requires r.Register?
    ensures RowStep(s, h, r, ServeRegister(c, s, r), sid)
  {
  }

  lemma LoginRow(c: Crypto, s: State, h: seq<Event>, r: Request, sid: string)
    requires r.Login?
    ensures RowStep(s, h, r, ServeLogin(c, s, r), sid)
  {
  }

  /** Presenting a cookie deletes its session exactly while its user is banned. */
  lemma VisitedRow(s: State, h: seq<Event>, e: Event, sid: string)
    requires Healthy(s) && KnowsBans(s, h)
    requires e.req.Visit? || e.req.Ban? || e.req.Unban? || e.req.ChangePassword?
    ensures var row := Row(s, sid);
            Row(Visited(s, e.req.sid, e.req.now, e.req.swept), sid)
            == if row.Some? && Presents(e, sid, row.value.expires) && Banned(h, row.value.user) then None else row
  {
  }

  lemma VisitRow(c: Crypto, s: State, h: seq<Event>, r: Request, sid: string)
    requires Healthy(s) && KnowsBans(s, h) && r.Visit?
    ensures RowStep(s, h, r, Serve(c, s, r), sid)
  {
    VisitedRow(s, h, Event(r, Served(Authenticated(s, r.sid, r.now))), sid);
  }

  lemma BanRow(s: State, h: seq<Event>, r: Request, sid: string)
    requires Healthy(s) && KnowsBans(s, h) && r.Ban?
    ensures RowStep(s, h, r, ServeBan(s, r.sid, r.target, r.now, r.swept), sid)
  {
    VisitedRow(s, h, Event(r, ServeBan(s, r.sid, r.target, r.now, r.swept).1), sid);
  }

  lemma UnbanRow(s: State, h: seq<Event>, r: Request, sid: string)
    requires Healthy(s) && KnowsBans(s, h) && r.Unban?
    ensures RowStep(s, h, r, ServeUnban(s, r.sid, r.target, r.now, r.swept), sid)
  {
    VisitedRow(s, h, Event(r, ServeUnban(s, r.sid, r.target, r.now, r.swept).1), sid);
  }

  lemma PasswordRow(c: Crypto, s: State, h: seq<Event>, r: Request, sid: string)
    requires Healthy(s) && KnowsBans(s, h) && r.ChangePassword?
    ensures RowStep(s, h, r, ServeChangePassword(c, s, r), sid)
  {
    VisitedRow(s, h, Event(r, ServeChangePassword(c, s, r).1), sid);
  }

  lemma ResetRow(c: Crypto, s: State, h: seq<Event>, r: Request, sid: string)
    requires r.Reset?
    ensures RowStep(s, h, r, ServeReset(c, s, r), sid)
  {
  }

  lemma OtherRow(c: Crypto, s: State, h: seq<Event>, r: Request, sid: string)
    requires r.Forgot? || r.ShowReset? || r.Verify?
    ensures RowStep(s, h, r, Serve(c, s, r), sid)
  {
  }

  lemma ServeHealthy(c: Crypto, s: State, r: Request)
    requires Healthy(s)
    ensures Healthy(Serve(c, s, r).0)
  {
    if r.Register? {
      RegisterHealthy(c, s, r);
    } else if r.Login? {
      LoginHealthy(c, s, r);
    } else {
      OthersHealthy(c, s, r);
    }
  }

  lemma RegisterHealthy(c: Crypto, s: State, r: Request)
    requires Healthy(s) && r.Register?
    ensures Healthy(ServeRegister(c, s, r).0)
  {
  }

  lemma LoginHealthy(c: Crypto, s: State, r: Request)
    requires Healthy(s) && r.Login?
    ensures Healthy(ServeLogin(c, s, r).0)
  {
  }

  lemma OthersHealthy(c: Crypto, s: State, r: Request)
    requires Healthy(s) && !r.Register? && !r.Login?
    ensures Healthy(Serve(c, s, r).0)
  {
  }

  predicate IsBanned(s: State, u: Id) {
    u in s.users && s.users[u].banned
  }

  /** Among accounts there, only a ban or an unban changes who is banned. */
  lemma BansOnly(c: Crypto, s: State, r: Request, u: Id)
    requires !r.Ban? && !r.Unban? && !r.Seed?
    ensures IsBanned(Serve(c, s, r).0, u) == IsBanned(s, u)
  {
    if r.Register? || r.Login? || r.Forgot? {
      AccountsKeepBans(c, s, r, u);
    }
  }

  lemma AccountsKeepBans(c: Crypto, s: State, r: Request, u: Id)
    requires r.Register? || r.Login? || r.Forgot?
    ensures IsBanned(Serve(c, s, r).0, u) == IsBanned(s, u)
  {
  }

  lemma ServeBans(c: Crypto, s: State, h: seq<Event>, r: Request, u: Id)
    requires Banned(h, u) == IsBanned(s, u)
    ensures Banned(h + [Event(r, Serve(c, s, r).1)], u) == IsBanned(Serve(c, s, r).0, u)
  {
    BannedSnoc(h, Event(r, Serve(c, s, r).1), u);
    if !r.Ban? && !r.Unban? && !r.Seed? {
      BansOnly(c, s, r, u);
    }
  }

  lemma {:induction false} RunTracks(c: Crypto, run: seq<Request>, sid: string)
    ensures Healthy(After(c, run)) && KnowsBans(After(c, run), History(c, run))
    ensures Row(After(c, run), sid) == Open(History(c, run), sid)
  {
    if run != [] {
      var front, r := run[..|run| - 1], run[|run| - 1];
      var s, h := After(c, front), History(c, front);
      RunTracks(c, front, sid);
      ServeRow(c, s, h, r, sid);
      ServeHealthy(c, s, r);
      forall u ensures Banned(History(c, run), u) == IsBanned(After(c, run), u) {
        ServeBans(c, s, h, r, u);
      }
      OpenSnoc(h, Event(r, Serve(c, s, r).1), sid);
    }
  }

  lemma OpenSinceSnoc(h: seq<Event>, e: Event, i: nat, sid: string, u: Id)
    requires i < |h|
    ensures OpenSince(h + [e], i, sid, u) <==> OpenSince(h, i, sid, u) && !Over(h, e, sid, RowOf(h[i], u))
  {
    var all := h + [e];
    assert all[|h|] == e && all[..|h|] == h && all[i] == h[i];
    forall j | i < j < |h| ensures all[..j] == h[..j] && all[j] == h[j] {
    }
    if OpenSince(all, i, sid, u) {
      forall j | i < j < |h| ensures !Over(h[..j], h[j], sid, RowOf(h[i], u)) {
        assert !Over(all[..j], all[j], sid, RowOf(all[i], u));
      }
    }
  }

  /** The session read off the history was opened by some event and not ended since. */
  lemma {:induction false} OpenMeans(h: seq<Event>, sid: string) returns (i: nat)
    ensures Open(h, sid).Some? ==>
              && OpenSince(h, i, sid, Open(h, sid).value.user)
              && Open(h, sid).value == RowOf(h[i], Open(h, sid).value.user)
  {
    i := 0;
    if h != [] {
      var n := |h| - 1;
      var front, e := h[..n], h[n];
      assert h == front + [e];
      OpenSnoc(front, e, sid);
      i := OpenMeans(front, sid);
      if Open(h, sid).Some? {
        if SignsIn(e, sid) {
          i := n;
        } else {
          OpenSinceSnoc(front, e, i, sid, Open(h, sid).value.user);
        }
      }
    }
  }

  /** A sign-in never succeeds while the session id is in use, so an opening that nothing has ended is
      the one in the table. */
  ghost predicate NoReopening(h: seq<Event>, sid: string) {
    forall j :: 0 <= j < |h| && Open(h[..j], sid).Some? ==> !SignsIn(h[j], sid)
  }

  lemma {:induction false} HistoryPrefix(c: Crypto, run: seq<Request>, j: nat)
    requires j <= |run|
    ensures History(c, run)[..j] == History(c, run[..j])
  {
    if j < |run| {
      var n := |run| - 1;
      HistoryPrefix(c, run[..n], j);
      assert run[..n][..j] == run[..j];
      assert History(c, run)[..j] == History(c, run[..n])[..j];
    } else {
      assert run[..j] == run;
    }
  }

  lemma HistoryAt(c: Crypto, run: seq<Request>, j: nat)
    requires j < |run|
    ensures History(c, run)[j] == Event(run[j], Serve(c, After(c, run[..j]), run[j]).1)
  {
    HistoryPrefix(c, run, j + 1);
    assert run[..j + 1][..j] == run[..j];
    assert History(c, run)[j] == History(c, run)[..j + 1][j];
  }

  lemma NotReopenedAt(c: Crypto, run: seq<Request>, j: nat, sid: string)
    requires j < |run| && Open(History(c, run)[..j], sid).Some?
    ensures !SignsIn(History(c, run)[j], sid)
  {
    HistoryPrefix(c, run, j);
    HistoryAt(c, run, j);
    RunTracks(c, run[..j], sid);
    if (run[j].Register? || run[j].Login?) && run[j].sid == sid {
      SignInNeedsFreeId(c, After(c, run[..j]), run[j], sid);
    }
  }

  lemma NeverReopened(c: Crypto, run: seq<Request>, sid: string)
    ensures NoReopening(History(c, run), sid)
  {
    forall j | 0 <= j < |run| && Open(History(c, run)[..j], sid).Some? ensures !SignsIn(History(c, run)[j], sid) {
      NotReopenedAt(c, run, j, sid);
    }
  }

  lemma SignInNeedsFreeId(c: Crypto, s: State, r: Request, sid: string)
    requires sid in s.sessions && (r.Register? || r.Login?) && r.sid == sid
    ensures !Serve(c, s, r).1.SignedIn?
  {
  }

  lemma {:induction false} OpenSinceIsOpen(h: seq<Event>, i: nat, sid: string, u: Id)
    requires OpenSince(h, i, sid, u) && NoReopening(h, sid)
    ensures Open(h, sid) == Some(RowOf(h[i], u))
  {
    var n := |h| - 1;
    var front, e := h[..n], h[n];
    assert h == front + [e];
    OpenSnoc(front, e, sid);
    if i < n {
      OpenSinceSnoc(front, e, i, sid, u);
      assert NoReopening(front, sid) by {
        forall j | 0 <= j < n && Open(front[..j], sid).Some?
          ensures !SignsIn(front[j], sid)
        {
          assert front[..j] == h[..j];
        }
      }
      OpenSinceIsOpen(front, i, sid, u);
      assert h[..n] == front;
    }
  }

  /** The session of `u` under `sid` is open and has not outlived its thirty days, cut to the second. */
  ghost predicate Live(h: seq<Event>, i: nat, sid: string, u: Id, now: nat) {
    OpenSince(h, i, sid, u) && now <= Stored(h[i].req.now + THIRTY_DAYS)
  }

  lemma LiveIsAuthenticated(c: Crypto, run: seq<Request>, i: nat, sid: string, u: Id, now: nat)
    requires sid != "" && Live(History(c, run), i, sid, u, now) && !Banned(History(c, run), u)
    ensures Authenticated(After(c, run), sid, now) == Some(u)
  {
    NeverReopened(c, run, sid);
    RunTracks(c, run, sid);
    OpenSinceIsOpen(History(c, run), i, sid, u);
    RowAuthenticates(After(c, run), History(c, run), sid, RowOf(History(c, run)[i], u), now);
  }

  lemma RowAuthenticates(s: State, h: seq<Event>, sid: string, row: Session, now: nat)
    requires Healthy(s) && KnowsBans(s, h) && !Banned(h, row.user)
    requires sid != "" && Row(s, sid) == Some(row) && now <= row.expires
    ensures Authenticated(s, sid, now) == Some(row.user)
  {
  }

  lemma AuthenticatedIsLive(c: Crypto, run: seq<Request>, sid: string, u: Id, now: nat) returns (i: nat)
    requires Authenticated(After(c, run), sid, now) == Some(u)
    ensures Live(History(c, run), i, sid, u, now) && !Banned(History(c, run), u)
  {
    RunTracks(c, run, sid);
    i := RowIsLive(After(c, run), History(c, run), sid, u, now);
  }

  lemma RowIsLive(s: State, h: seq<Event>, sid: string, u: Id, now: nat) returns (i: nat)
    requires Row(s, sid) == Open(h, sid) && KnowsBans(s, h) && Authenticated(s, sid, now) == Some(u)
    ensures Live(h, i, sid, u, now) && !Banned(h, u)
  {
    i := OpenMeans(h, sid);
  }

  /** Whole-run session exactness: after any requests, with failing deletions among them, a request with
      cookie `sid` is authenticated as `u` exactly when `u` is not banned now, the session was opened for `u`
      and has not outlived its thirty days (cut to the second), and since then there was no logout of
      it, no ban, password change or reset of `u`, and no request with it while `u` was banned, that deleted it. */
  lemma {:induction false} SessionExact(c: Crypto, run: seq<Request>, sid: string, u: Id, now: nat)
    requires sid != ""
    ensures Authenticated(After(c, run), sid, now) == Some(u)
       <==> !Banned(History(c, run), u) && exists i: nat :: Live(History(c, run), i, sid, u, now)
  {
    if Authenticated(After(c, run), sid, now) == Some(u) {
      var i := AuthenticatedIsLive(c, run, sid, u, now);
      assert exists i: nat :: Live(History(c, run), i, sid, u, now);
    }
    forall i: nat | Live(History(c, run), i, sid, u, now) && !Banned(History(c, run), u)
      ensures Authenticated(After(c, run), sid, now) == Some(u)
    {
      LiveIsAuthenticated(c, run, i, sid, u, now);
    }
  }

  /** So an authenticated user is not banned, and signed in at most thirty days ago. */
  lemma {:induction false} SessionSafety(c: Crypto, run: seq<Request>, sid: string, u: Id, now: nat) returns (i: nat)
    requires Authenticated(After(c, run), sid, now) == Some(u)
    ensures u in After(c, run).users && !After(c, run).users[u].banned
    ensures OpenSince(History(c, run), i, sid, u) && now <= run[i].now + THIRTY_DAYS
  {
    i := AuthenticatedIsLive(c, run, sid, u, now);
  }

  /** A session opened before a ban that deletes it is dead for good: an unban does not revive it. */
  lemma {:induction false} BanOutlivesUnban(c: Crypto, run: seq<Request>, sid: string, u: Id, ban: nat, now: nat)
    requires ban < |run| && run[ban].Ban? && History(c, run)[ban].resp == Done(u) && run[ban].swept
    requires forall j :: ban < j < |run| ==> !Opens(History(c, run)[j], sid, u)
    ensures Authenticated(After(c, run), sid, now) != Some(u)
  {
    if Authenticated(After(c, run), sid, now) == Some(u) {
      var h := History(c, run);
      assert Ends(h[ban], sid, u);
      var i := SessionSafety(c, run, sid, u, now);
      assert i < ban && Over(h[..ban], h[ban], sid, RowOf(h[i], u));
    }
  }

  /** When the deletion may fail: a session that was open at the ban of its user, and that nobody opened
      anew, works again after an unban exactly when the ban did not delete it, and neither did anything
      later, such as a request with it during the ban. */
  lemma {:induction false} OutlivesBanIff(c: Crypto, run: seq<Request>, i: nat, ban: nat, sid: string, u: Id, now: nat)
    requires sid != "" && ban < |run| && OpenSince(History(c, run)[..ban], i, sid, u)
    requires run[ban].Ban? && History(c, run)[ban].resp == Done(u)
    requires forall j :: i < j < |run| ==> !Opens(History(c, run)[j], sid, u)
    requires !Banned(History(c, run), u) && now <= Stored(run[i].now + THIRTY_DAYS)
    ensures var h := History(c, run);
            Authenticated(After(c, run), sid, now) == Some(u)
            <==> !run[ban].swept && forall j :: ban < j < |run| ==> !Over(h[..j], h[j], sid, RowOf(h[i], u))
  {
    SessionExact(c, run, sid, u, now);
    LiveIffOpen(c, run, i, ban, sid, u, now);
    OpenPastBan(History(c, run), i, ban, sid, u);
  }

  /** The opening in question is the only one that can be live. */
  lemma LiveIffOpen(c: Crypto, run: seq<Request>, i: nat, ban: nat, sid: string, u: Id, now: nat)
    requires sid != "" && ban <= |run| && OpenSince(History(c, run)[..ban], i, sid, u)
    requires forall j :: i < j < |run| ==> !Opens(History(c, run)[j], sid, u)
    requires now <= Stored(run[i].now + THIRTY_DAYS)
    ensures (exists k: nat :: Live(History(c, run), k, sid, u, now)) <==> OpenSince(History(c, run), i, sid, u)
  {
    var h := History(c, run);
    if k: nat :| Live(h, k, sid, u, now) {
      OnlyOpening(c, run, i, ban, k, sid, u);
    } else {
      assert !Live(h, i, sid, u, now);
    }
  }

  lemma OpenPastBan(h: seq<Event>, i: nat, ban: nat, sid: string, u: Id)
    requires ban < |h| && OpenSince(h[..ban], i, sid, u) && h[ban].req.Ban? && h[ban].resp == Done(u)
    ensures OpenSince(h, i, sid, u)
       <==> !h[ban].req.swept && forall j :: ban < j < |h| ==> !Over(h[..j], h[j], sid, RowOf(h[i], u))
  {
    var row := RowOf(h[i], u);
    assert h[..ban][i] == h[i];
    forall j | i < j < ban ensures !Over(h[..j], h[j], sid, row) {
      assert h[..ban][..j] == h[..j] && h[..ban][j] == h[j];
      assert !Over(h[..ban][..j], h[..ban][j], sid, RowOf(h[..ban][i], u));
    }
    assert Over(h[..ban], h[ban], sid, row) <==> h[ban].req.swept;
  }

  /** The session cannot have been opened before `i` and still be open. */
  lemma OnlyOpening(c: Crypto, run: seq<Request>, i: nat, ban: nat, k: nat, sid: string, u: Id)
    requires sid != "" && ban <= |run| && OpenSince(History(c, run)[..ban], i, sid, u)
    requires OpenSince(History(c, run), k, sid, u) && forall j :: i < j < |run| ==> !Opens(History(c, run)[j], sid, u)
    ensures k == i
  {
    var h := History(c, run);
    assert h[..ban][i] == h[i];
    if k < i {
      var front := h[..i];
      assert front[k] == h[k];
      forall j | k < j < i ensures !Over(front[..j], front[j], sid, RowOf(front[k], u)) {
        assert front[..j] == h[..j] && front[j] == h[j];
      }
      NeverReopened(c, run[..i], sid);
      HistoryPrefix(c, run, i);
      OpenSinceIsOpen(front, k, sid, u);
      NotReopenedAt(c, run, i, sid);
    }
  }
}
