/** The authentication service over its tables, updated in place. */
module AuthService {
  import opened Tables
  import opened AuthState

  class Service {
    const crypto: Crypto
    var users: map<Id, User>
    var sessions: map<string, Session>
    var tokens: map<string, Token>

    ghost function Tables(): State
      reads this
    {
      State(users, sessions, tokens)
    }

    /** UNIQUE (email). */
    ghost predicate Valid()
      reads this
    {
      forall a, b :: a in users && b in users && users[a].email == users[b].email ==> a == b
    }

    constructor (crypto: Crypto)
      ensures Valid() && Tables() == EMPTY && this.crypto == crypto
    {
      this.crypto := crypto;
      users, sessions, tokens := map[], map[], map[];
    }

    method FindByEmail(email: string) returns (found: Option<Id>)
      requires Valid()
      ensures found == UserByEmail(users, email)
    {
      var left := users.Keys;
      found := None;
      while left != {} && found.None?
        invariant left <= users.Keys
        invariant found.Some? ==> found.value in users && users[found.value].email == email
        invariant found.None? ==> forall u :: u in users && u !in left ==> users[u].email != email
        decreases left
      {
        var u :| u in left;
        if users[u].email == email { found := Some(u); }
        left := left - {u};
      }
    }

    method NewUserId() returns (id: Id)
      ensures id == NextId(users.Keys)
    {
      var left := users.Keys;
      id := 1;
      while left != {}
        invariant left <= users.Keys
        invariant id >= 1 && (id == 1 || id - 1 in users)
        invariant forall u :: u in users && u !in left ==> u < id
        decreases left
      {
        var u :| u in left;
        if u >= id { id := u + 1; }
        left := left - {u};
      }
    }

    // ----- Store calls -----

    method CreateUser(username: string, email: string, hash: string, role: Role) returns (u: Id)
      requires Valid() && UserByEmail(users, email).None?
      modifies this`users
      ensures Valid() && u == NextId(old(users).Keys)
      ensures Tables() == SetUser(old(Tables()), u, User(username, email, hash, role, false, false))
    {
      u := NewUserId();
      users := users[u := User(username, email, hash, role, false, false)];
    }

    /** Writes the whole row; the e-mail stays. */
    method UpdateUser(u: Id, row: User)
      requires Valid() && u in users && users[u].email == row.email
      modifies this`users
      ensures Valid() && Tables() == SetUser(old(Tables()), u, row)
    {
      users := users[u := row];
    }

    method CreateSession(sid: string, u: Id, now: nat) returns (ok: bool)
      modifies this`sessions
      ensures ok == CanOpen(old(Tables()), sid)
      ensures Tables() == if ok then Opened(old(Tables()), sid, u, now) else old(Tables())
    {
      ok := sid !in sessions;
      if ok {
        sessions := sessions[sid := Session(u, Stored(now + SESSION_LIFETIME))];
      }
    }

    /** A statement that fails changes nothing. */
    method DeleteSession(sid: string, up: bool)
      modifies this`sessions
      ensures Tables() == old(Tables()).(sessions := if up then old(sessions) - {sid} else old(sessions))
    {
      if up {
        sessions := sessions - {sid};
      }
    }

    method DeleteUserSessions(u: Id, up: bool)
      modifies this`sessions
      ensures Tables() == Swept(old(Tables()), u, up)
    {
      if up {
        sessions := map sid | sid in sessions && sessions[sid].user != u :: sessions[sid];
      }
    }

    /** Two calls without a transaction: clear the old tokens of the kind, then insert. */
    method Issue(u: Id, kind: Kind, raw: string, now: nat) returns (ok: bool)
      modifies this`tokens
      ensures (Tables(), ok) == Issued(crypto, old(Tables()), u, kind, raw, now)
    {
      tokens := map h | h in tokens && !(tokens[h].user == u && tokens[h].kind == kind) :: tokens[h];
      ok := crypto.digest(raw) !in tokens;
      if ok {
        tokens := tokens[crypto.digest(raw) := Token(u, kind, Stored(now + Lifetime(kind)))];
      }
    }

    method Lookup(raw: string, kind: Kind, now: nat) returns (found: Option<Id>)
      ensures found == TokenUser(crypto, Tables(), raw, kind, now)
    {
      found := None;
      if raw != "" {
        var h := crypto.digest(raw);
        if h in tokens && tokens[h].kind == kind {
          var t := tokens[h];
          if !(now > t.expires) && t.user in users {
            found := Some(t.user);
          }
        }
      }
    }

    /** AuthenticateRequest. */
    method Authenticate(sid: string, now: nat, swept: bool) returns (viewer: Option<Id>)
      requires Valid()
      modifies this`sessions
      ensures Valid() && Tables() == Visited(old(Tables()), sid, now, swept)
      ensures viewer == Authenticated(old(Tables()), sid, now)
    {
      if sid == "" || sid !in sessions {
        return None;
      }
      var row := sessions[sid];
      if now > row.expires || row.user !in users {
        return None;
      }
      if users[row.user].banned {
        DeleteSession(sid, swept);
        return None;
      }
      viewer := Some(row.user);
    }

    // ----- Requests -----

    method SeedUser(r: Request) returns (resp: Response)
      requires Valid() && r.Seed?
      modifies this
      ensures Valid() && (Tables(), resp) == ServeSeed(old(Tables()), r)
    {
      var taken := FindByEmail(r.email);
      if taken.Some? || UsernameTaken(users, r.username) || r.hash.None? {
        return Rejected;
      }
      var u := CreateUser(r.username, r.email, r.hash.value, r.role);
      var row := User(r.username, r.email, r.hash.value, r.role, r.banned, r.verified);
      UpdateUser(u, row);
      assert users == old(users)[u := row];
      resp := Seeded(u);
    }

    method Register(r: Request) returns (resp: Response)
      requires Valid() && r.Register?
      modifies this
      ensures Valid() && (Tables(), resp) == ServeRegister(crypto, old(Tables()), r)
    {
      if !FormOk(r.username, r.email, r.password, r.addressOk) {
        return Rejected;
      }
      var taken := FindByEmail(r.email);
      if taken.Some? || UsernameTaken(users, r.username) || r.hash.None? {
        return Rejected;
      }
      var u := CreateUser(r.username, r.email, r.hash.value, Member);
      if u == 1 {
        UpdateUser(u, users[u].(role := Admin));
      }
      var row := User(r.username, r.email, r.hash.value, if u == 1 then Admin else Member, false, false);
      assert users == old(users)[u := row];
      var started := CreateSession(r.sid, u, r.now);
      if !started {
        return Rejected;
      }
      var mailed := Issue(u, VerifyEmail, r.raw, r.now);
      resp := SignedIn(u, mailed);
    }

    method Login(r: Request) returns (resp: Response)
      requires Valid() && r.Login?
      modifies this
      ensures Valid() && (Tables(), resp) == ServeLogin(crypto, old(Tables()), r)
    {
      if r.email == "" || r.password == "" {
        return Rejected;
      }
      var found := FindByEmail(r.email);
      if found.None? {
        return Rejected;
      }
      var u := found.value;
      if !crypto.matches(users[u].passwordHash, r.password) || users[u].banned {
        return Rejected;
      }
      var started := CreateSession(r.sid, u, r.now);
      resp := if started then SignedIn(u, false) else Rejected;
    }

    method Logout(sid: string, swept: bool)
      requires Valid()
      modifies this
      ensures Valid() && Tables() == ServeLogout(old(Tables()), sid, swept)
    {
      if sid != "" {
        DeleteSession(sid, swept);
      }
    }

    method BanUser(sid: string, target: Id, now: nat, swept: bool) returns (resp: Response)
      requires Valid()
      modifies this
      ensures Valid() && (Tables(), resp) == ServeBan(old(Tables()), sid, target, now, swept)
    {
      var viewer := Authenticate(sid, now, swept);
      if viewer.None? || !CanModerate(users[viewer.value].role) || target !in users || users[target].role == Admin {
        return Rejected;
      }
      users := users[target := users[target].(banned := true)];
      DeleteUserSessions(target, swept);
      resp := Done(target);
    }

    method UnbanUser(sid: string, target: Id, now: nat, swept: bool) returns (resp: Response)
      requires Valid()
      modifies this
      ensures Valid() && (Tables(), resp) == ServeUnban(old(Tables()), sid, target, now, swept)
    {
      var viewer := Authenticate(sid, now, swept);
      if viewer.None? || !CanModerate(users[viewer.value].role) || target !in users {
        return Rejected;
      }
      users := users[target := users[target].(banned := false)];
      resp := Done(target);
    }

    method ChangePassword(r: Request) returns (resp: Response)
      requires Valid() && r.ChangePassword?
      modifies this
      ensures Valid() && (Tables(), resp) == ServeChangePassword(crypto, old(Tables()), r)
    {
      var viewer := Authenticate(r.sid, r.now, r.swept);
      if viewer.None? {
        return Rejected;
      }
      var u := viewer.value;
      if !crypto.matches(users[u].passwordHash, r.current) || r.password != r.confirm || |r.password| < MIN_PASSWORD
        || r.hash.None? {
        return Rejected;
      }
      users := users[u := users[u].(passwordHash := r.hash.value)];
      DeleteUserSessions(u, r.swept);
      resp := Done(u);
    }

    method ForgotPassword(r: Request) returns (resp: Response)
      requires Valid() && r.Forgot?
      modifies this
      ensures Valid() && (Tables(), resp) == ServeForgot(crypto, old(Tables()), r)
    {
      var found := FindByEmail(r.email);
      if found.None? || users[found.value].banned {
        return Rejected;
      }
      var stored := Issue(found.value, ResetPassword, r.raw, r.now);
      resp := if stored then Mailed(found.value) else MailLost(found.value);
    }

    method ConsumeReset(r: Request) returns (resp: Response)
      requires Valid() && r.Reset?
      modifies this
      ensures Valid() && (Tables(), resp) == ServeReset(crypto, old(Tables()), r)
    {
      if r.password != r.confirm || |r.password| < MIN_PASSWORD || r.hash.None? {
        return Rejected;
      }
      var found := Lookup(r.raw, ResetPassword, r.now);
      if found.None? || !r.saved {
        return Rejected;
      }
      var u := found.value;
      users := users[u := users[u].(passwordHash := r.hash.value)];
      if !r.cleared {
        return Broken(u);
      }
      tokens := tokens - {crypto.digest(r.raw)};
      DeleteUserSessions(u, r.swept);
      resp := if r.swept then Done(u) else Broken(u);
    }

    method ConsumeVerification(r: Request) returns (resp: Response)
      requires Valid() && r.Verify?
      modifies this
      ensures Valid() && (Tables(), resp) == ServeVerify(crypto, old(Tables()), r)
    {
      var found := Lookup(r.raw, VerifyEmail, r.now);
      if found.None? {
        return Rejected;
      }
      var u := found.value;
      if !users[u].verified {
        if !r.saved {
          return Rejected;
        }
        users := users[u := users[u].(verified := true)];
      }
      assert users == old(users)[u := old(users)[u].(verified := true)];
      if !r.cleared {
        return Broken(u);
      }
      tokens := tokens - {crypto.digest(r.raw)};
      resp := Done(u);
    }

    /** Whatever the request is. */
    method Handle(r: Request) returns (resp: Response)
      requires Valid()
      modifies this
      ensures Valid() && (Tables(), resp) == Serve(crypto, old(Tables()), r)
    {
      match r
      case Seed(_, _, _, _, _, _, _) => resp := SeedUser(r);
      case Register(_, _, _, _, _, _, _, _) => resp := Register(r);
      case Login(_, _, _, _) => resp := Login(r);
      case Logout(sid, _, swept) =>
        Logout(sid, swept);
        resp := LoggedOut;
      case Visit(sid, now, swept) =>
        var viewer := Authenticate(sid, now, swept);
        resp := Served(viewer);
      case Ban(sid, target, now, swept) => resp := BanUser(sid, target, now, swept);
      case Unban(sid, target, now, swept) => resp := UnbanUser(sid, target, now, swept);
      case ChangePassword(_, _, _, _, _, _, _) => resp := ChangePassword(r);
      case Forgot(_, _, _) => resp := ForgotPassword(r);
      case ShowReset(raw, now) =>
        var found := Lookup(raw, ResetPassword, now);
        resp := Served(found);
      case Reset(_, _, _, _, _, _, _, _) => resp := ConsumeReset(r);
      case Verify(_, _, _, _) => resp := ConsumeVerification(r);
    }
  }

  /** A new service that has served a run of requests has the tables and has given the answers that the
      whole-run results speak of. */
  method ServeRun(crypto: Crypto, run: seq<Request>) returns (service: Service, events: seq<Event>)
    ensures fresh(service) && service.crypto == crypto && service.Valid()
    ensures service.Tables() == After(crypto, run) && events == History(crypto, run)
  {
    service := new Service(crypto);
    events := [];
    for i := 0 to |run|
      invariant fresh(service) && service.crypto == crypto && service.Valid()
      invariant service.Tables() == After(crypto, run[..i]) && events == History(crypto, run[..i])
    {
      assert run[..i + 1][..i] == run[..i];
      var answer := service.Handle(run[i]);
      events := events + [Event(run[i], answer)];
    }
    assert run[..|run|] == run;
  }
}
