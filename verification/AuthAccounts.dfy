/** Accounts over whole runs: who there is, with which password and role, and what every request is
    answered, read off the history of requests and answers. */
module AuthAccounts {
  import opened Tables
  import opened AuthState
  import opened AuthSessions
  import AuthTokens

  // ----- Who has joined -----

  /** The registration form is filled in properly. */
  predicate GoodForm(r: Request)
    requires r.Register?
  {
    && 3 <= |r.username| <= 32
    && (forall ch <- r.username :: ch == '_' || '0' <= ch <= '9' || 'a' <= ch <= 'z' || 'A' <= ch <= 'Z')
    && r.email != "" && r.addressOk && |r.password| >= 8
  }

  /** After these accounts the request makes another one: no account has its name or e-mail. */
  predicate Joins(accounts: seq<User>, r: Request) {
    && (r.Seed? || (r.Register? && GoodForm(r))) && r.hash.Some?
    && forall a <- accounts :: a.email != r.email && a.username != r.username
  }

  /** The account as it begins.  The very first one to register is the administrator. */
  function Beginning(accounts: seq<User>, r: Request): User
    requires Joins(accounts, r)
  {
    if r.Seed? then User(r.username, r.email, r.hash.value, r.role, r.banned, r.verified)
    else User(r.username, r.email, r.hash.value, if accounts == [] then Admin else Member, false, false)
  }

  function JoinedAfter(accounts: seq<User>, r: Request): seq<User> {
    if Joins(accounts, r) then accounts + [Beginning(accounts, r)] else accounts
  }

  /** The accounts as they began, in the order of their ids: account `u` is entry u - 1. */
  function Joined(h: seq<Event>): seq<User> {
    if h == [] then [] else JoinedAfter(Joined(h[..|h| - 1]), h[|h| - 1].req)
  }

  predicate Known(h: seq<Event>, u: Id) {
    1 <= u <= |Joined(h)|
  }

  // ----- What became of an account -----

  /** The event stored a new password for `u`. */
  predicate Writes(e: Event, u: Id) {
    || (e.req.ChangePassword? && e.resp == Done(u))
    || (e.req.Reset? && (e.resp == Done(u) || e.resp == Broken(u)))
  }

  /** The password hash written last, after the one of the beginning. */
  function Written(h: seq<Event>, u: Id): Option<string> {
    if h == [] then None
    else if Writes(h[|h| - 1], u) then h[|h| - 1].req.hash
    else Written(h[..|h| - 1], u)
  }

  function HashOf(h: seq<Event>, u: Id): string
    requires Known(h, u)
  {
    if Written(h, u).Some? then Written(h, u).value else Joined(h)[u - 1].passwordHash
  }

  predicate Verifies(e: Event, u: Id) {
    e.req.Verify? && (e.resp == Done(u) || e.resp == Broken(u))
  }

  predicate VerifiedIn(h: seq<Event>, u: Id)
    requires Known(h, u)
  {
    Joined(h)[u - 1].verified || exists e <- h :: Verifies(e, u)
  }

  /** Name, e-mail and role stay as they began. */
  function Account(h: seq<Event>, u: Id): User
    requires Known(h, u)
  {
    Joined(h)[u - 1].(passwordHash := HashOf(h, u), banned := Banned(h, u), verified := VerifiedIn(h, u))
  }

  function AccountAt(h: seq<Event>, u: Id): Option<User> {
    if Known(h, u) then Some(Account(h, u)) else None
  }

  function UserAt(s: State, u: Id): Option<User> {
    if u in s.users then Some(s.users[u]) else None
  }

  // ----- One event more -----

  lemma JoinedSnoc(h: seq<Event>, e: Event)
    ensures Joined(h + [e]) == JoinedAfter(Joined(h), e.req)
  {
    assert (h + [e])[..|h|] == h;
  }

  lemma WrittenSnoc(h: seq<Event>, e: Event, u: Id)
    ensures Written(h + [e], u) == if Writes(e, u) then e.req.hash else Written(h, u)
  {
    assert (h + [e])[..|h|] == h;
  }

  lemma VerifiedSnoc(h: seq<Event>, e: Event, u: Id)
    ensures (exists x <- h + [e] :: Verifies(x, u)) <==> (exists x <- h :: Verifies(x, u)) || Verifies(e, u)
  {
    assert e in h + [e];
    if exists x <- h :: Verifies(x, u) {
      var x :| x in h && Verifies(x, u);
      assert x in h + [e];
    }
  }

  /** What an event changes in an account. */
  function Changed(a: User, e: Event, u: Id): User {
    a.(passwordHash := if Writes(e, u) && e.req.hash.Some? then e.req.hash.value else a.passwordHash,
       banned :=
         if e.req.Ban? && e.resp == Done(u) then true
         else if e.req.Unban? && e.resp == Done(u) then false
         else a.banned,
       verified := a.verified || Verifies(e, u))
  }

  lemma AccountSnoc(h: seq<Event>, e: Event, u: Id)
    requires !e.req.Seed? && !e.req.Register? && (Writes(e, u) ==> e.req.hash.Some?)
    ensures AccountAt(h + [e], u) == if Known(h, u) then Some(Changed(Account(h, u), e, u)) else None
  {
    JoinedSnoc(h, e);
    WrittenSnoc(h, e, u);
    BannedSnoc(h, e, u);
    VerifiedSnoc(h, e, u);
  }

  /** Nothing happens to an account before it is there. */
  ghost predicate Quiet(h: seq<Event>, u: Id) {
    Known(h, u) || (Written(h, u).None? && !Banned(h, u) && forall e <- h :: !Verifies(e, u))
  }

  /** The history tells about account `u` what the table holds. */
  ghost predicate Tells(s: State, h: seq<Event>, u: Id) {
    UserAt(s, u) == AccountAt(h, u) && Quiet(h, u)
  }

  ghost predicate TellsAll(s: State, h: seq<Event>) {
    forall u :: Tells(s, h, u)
  }

  /** The next id is the next place in the list. */
  lemma NextPlace(s: State, h: seq<Event>)
    requires TellsAll(s, h)
    ensures NextId(s.users.Keys) == |Joined(h)| + 1
  {
    var n := |Joined(h)|;
    assert forall u: Id :: u in s.users.Keys <==> 1 <= u <= n by {
      forall u: Id ensures u in s.users.Keys <==> 1 <= u <= n {
        assert Tells(s, h, u);
      }
    }
    if n > 0 {
      assert n in s.users.Keys;
    }
  }

  /** The e-mails and names in the table are those of the list. */
  lemma NamesTold(s: State, h: seq<Event>, r: Request)
    requires TellsAll(s, h) && (r.Seed? || r.Register?)
    ensures (UserByEmail(s.users, r.email).None? && !UsernameTaken(s.users, r.username))
       <==> forall a <- Joined(h) :: a.email != r.email && a.username != r.username
  {
    if UserByEmail(s.users, r.email).None? && !UsernameTaken(s.users, r.username) {
      forall a | a in Joined(h) ensures a.email != r.email && a.username != r.username {
        var i :| 0 <= i < |Joined(h)| && Joined(h)[i] == a;
        assert Tells(s, h, i + 1);
        assert i + 1 in s.users;
      }
    } else {
      var u :| u in s.users && (s.users[u].email == r.email || s.users[u].username == r.username);
      assert Tells(s, h, u);
      assert Joined(h)[u - 1] in Joined(h);
    }
  }

  // ----- One request -----

  /** The request adds no account and makes the changes its answer tells. */
  ghost predicate Edits(s: State, r: Request, after: (State, Response), u: Id) {
    && UserAt(after.0, u) == (if u in s.users then Some(Changed(s.users[u], Event(r, after.1), u)) else None)
    && (Writes(Event(r, after.1), u) ==> r.hash.Some? && u in s.users)
    && (Verifies(Event(r, after.1), u) || (r.Ban? && after.1 == Done(u)) ==> u in s.users)
  }

  lemma EditsTell(s: State, h: seq<Event>, r: Request, after: (State, Response), u: Id)
    requires Tells(s, h, u) && !r.Seed? && !r.Register? && Edits(s, r, after, u)
    ensures Tells(after.0, h + [Event(r, after.1)], u)
  {
    var e := Event(r, after.1);
    AccountSnoc(h, e, u);
    JoinedSnoc(h, e);
    WrittenSnoc(h, e, u);
    BannedSnoc(h, e, u);
    VerifiedSnoc(h, e, u);
  }

  lemma BanEdits(s: State, r: Request, u: Id)
    requires r.Ban?
    ensures Edits(s, r, ServeBan(s, r.sid, r.target, r.now, r.swept), u)
  {
  }

  lemma UnbanEdits(s: State, r: Request, u: Id)
    requires r.Unban?
    ensures Edits(s, r, ServeUnban(s, r.sid, r.target, r.now, r.swept), u)
  {
  }

  lemma PasswordEdits(c: Crypto, s: State, r: Request, u: Id)
    requires r.ChangePassword?
    ensures Edits(s, r, ServeChangePassword(c, s, r), u)
  {
  }

  lemma ResetEdits(c: Crypto, s: State, r: Request, u: Id)
    requires r.Reset?
    ensures Edits(s, r, ServeReset(c, s, r), u)
  {
  }

  lemma VerifyEdits(c: Crypto, s: State, r: Request, u: Id)
    requires r.Verify?
    ensures Edits(s, r, ServeVerify(c, s, r), u)
  {
  }

  lemma OthersEdit(c: Crypto, s: State, r: Request, u: Id)
    requires r.Login? || r.Logout? || r.Visit? || r.Forgot? || r.ShowReset?
    ensures Edits(s, r, Serve(c, s, r), u)
  {
  }

  lemma ServeEdits(c: Crypto, s: State, r: Request, u: Id)
    requires !r.Seed? && !r.Register?
    ensures Edits(s, r, Serve(c, s, r), u)
  {
    if r.Ban? {
      BanEdits(s, r, u);
    } else if r.Unban? {
      UnbanEdits(s, r, u);
    } else if r.ChangePassword? {
      PasswordEdits(c, s, r, u);
    } else if r.Reset? {
      ResetEdits(c, s, r, u);
    } else if r.Verify? {
      VerifyEdits(c, s, r, u);
    } else {
      OthersEdit(c, s, r, u);
    }
  }

  /** A request that may add an account adds it exactly when the list says so. */
  lemma AddsAccount(c: Crypto, s: State, h: seq<Event>, r: Request)
    requires TellsAll(s, h) && (r.Seed? || r.Register?)
    ensures var after := Serve(c, s, r);
            if Joins(Joined(h), r) then
              && after.0.users == s.users[|Joined(h)| + 1 := Beginning(Joined(h), r)]
              && (r.Seed? ==> after.1 == Seeded(|Joined(h)| + 1))
            else after.0.users == s.users && (r.Seed? ==> after.1 == Rejected)
  {
    NextPlace(s, h);
    NamesTold(s, h, r);
    if r.Seed? {
      SeedAdds(s, h, r);
    } else {
      RegisterAdds(c, s, h, r);
    }
  }

  lemma SeedAdds(s: State, h: seq<Event>, r: Request)
    requires r.Seed? && NextId(s.users.Keys) == |Joined(h)| + 1
    requires (UserByEmail(s.users, r.email).None? && !UsernameTaken(s.users, r.username))
        <==> forall a <- Joined(h) :: a.email != r.email && a.username != r.username
    ensures ServeSeed(s, r) ==
            if Joins(Joined(h), r)
              then (SetUser(s, |Joined(h)| + 1, Beginning(Joined(h), r)), Seeded(|Joined(h)| + 1))
            else (s, Rejected)
  {
  }

  lemma RegisterAdds(c: Crypto, s: State, h: seq<Event>, r: Request)
    requires r.Register? && NextId(s.users.Keys) == |Joined(h)| + 1
    requires (UserByEmail(s.users, r.email).None? && !UsernameTaken(s.users, r.username))
        <==> forall a <- Joined(h) :: a.email != r.email && a.username != r.username
    ensures ServeRegister(c, s, r).0.users ==
            if Joins(Joined(h), r) then s.users[|Joined(h)| + 1 := Beginning(Joined(h), r)] else s.users
  {
    FormsAgree(r);
  }

  lemma FormsAgree(r: Request)
    requires r.Register?
    ensures FormOk(r.username, r.email, r.password, r.addressOk) <==> GoodForm(r)
  {
  }

  lemma AddingTells(c: Crypto, s: State, h: seq<Event>, r: Request, u: Id)
    requires TellsAll(s, h) && (r.Seed? || r.Register?)
    ensures Tells(Serve(c, s, r).0, h + [Event(r, Serve(c, s, r).1)], u)
  {
    assert Tells(s, h, u);
    AddsAccount(c, s, h, r);
    AddedTells(s, h, Event(r, Serve(c, s, r).1), Serve(c, s, r).0, u);
  }

  lemma AddedTells(s: State, h: seq<Event>, e: Event, after: State, u: Id)
    requires Tells(s, h, u) && (e.req.Seed? || e.req.Register?)
    requires var place := |Joined(h)| + 1;
             if Joins(Joined(h), e.req) then
               && after.users == s.users[place := Beginning(Joined(h), e.req)]
               && (e.req.Seed? ==> e.resp == Seeded(place))
             else after.users == s.users && (e.req.Seed? ==> e.resp == Rejected)
    ensures Tells(after, h + [e], u)
  {
    if Joins(Joined(h), e.req) && u == |Joined(h)| + 1 {
      NewTells(s, h, e, after, u);
    } else {
      OldTells(s, h, e, after, u);
    }
  }

  lemma NewTells(s: State, h: seq<Event>, e: Event, after: State, u: Id)
    requires Tells(s, h, u) && Joins(Joined(h), e.req) && u == |Joined(h)| + 1
    requires after.users == s.users[u := Beginning(Joined(h), e.req)] && (e.req.Seed? ==> e.resp == Seeded(u))
    ensures Tells(after, h + [e], u)
  {
    JoinedSnoc(h, e);
    WrittenSnoc(h, e, u);
    BannedSnoc(h, e, u);
    VerifiedSnoc(h, e, u);
  }

  lemma OldTells(s: State, h: seq<Event>, e: Event, after: State, u: Id)
    requires Tells(s, h, u) && (e.req.Seed? || e.req.Register?) && UserAt(after, u) == UserAt(s, u)
    requires e.req.Seed? ==> e.resp != Seeded(u)
    requires Joins(Joined(h), e.req) ==> u != |Joined(h)| + 1
    ensures Tells(after, h + [e], u)
  {
    JoinedSnoc(h, e);
    WrittenSnoc(h, e, u);
    BannedSnoc(h, e, u);
    VerifiedSnoc(h, e, u);
  }

  lemma {:induction false} AccountsTold(c: Crypto, run: seq<Request>)
    ensures TellsAll(After(c, run), History(c, run))
  {
    if run != [] {
      var front, r := run[..|run| - 1], run[|run| - 1];
      var s, h := After(c, front), History(c, front);
      AccountsTold(c, front);
      forall u ensures Tells(After(c, run), History(c, run), u) {
        assert Tells(s, h, u);
        if r.Seed? || r.Register? {
          AddingTells(c, s, h, r, u);
        } else {
          ServeEdits(c, s, r, u);
          EditsTell(s, h, r, Serve(c, s, r), u);
        }
      }
    } else {
      forall u ensures Tells(EMPTY, [], u) {
      }
    }
  }

  /** After any run the accounts are those that joined, numbered from 1, each with the name, e-mail and role it
      began with, the password stored last, banned if the last ban or unban of it was a ban, and verified if
      ever a verification link of it was used. */
  lemma AccountsExact(c: Crypto, run: seq<Request>)
    ensures After(c, run).users == map u: Id | 1 <= u <= |Joined(History(c, run))| :: Account(History(c, run), u)
  {
    var s, h := After(c, run), History(c, run);
    AccountsTold(c, run);
    var told := map u: Id | 1 <= u <= |Joined(h)| :: Account(h, u);
    forall u: Id ensures (u in s.users <==> u in told) && (u in s.users ==> s.users[u] == told[u]) {
      assert Tells(s, h, u);
    }
  }

  /** Event `i` is the one that made account `u`. */
  ghost predicate BeginsAt(h: seq<Event>, i: nat, u: Id) {
    && i < |h| && Known(h, u) && |Joined(h[..i])| == u - 1 && Joins(Joined(h[..i]), h[i].req)
    && Joined(h)[u - 1] == Beginning(Joined(h[..i]), h[i].req)
  }

  /** Every account goes back to the request that made it. */
  lemma {:induction false} Origin(h: seq<Event>, u: Id) returns (i: nat)
    requires Known(h, u)
    ensures BeginsAt(h, i, u)
  {
    var n := |h| - 1;
    var front, e := h[..n], h[n];
    assert h == front + [e];
    JoinedSnoc(front, e);
    if Known(front, u) {
      i := Origin(front, u);
      assert front[..i] == h[..i] && front[i] == h[i];
    } else {
      i := n;
    }
  }

  /** Roles: a seeded account has the role it was seeded with; of the others the one with id 1 is an
      administrator and the rest are members.  So without seeding nobody is a moderator. */
  lemma RolesExact(c: Crypto, run: seq<Request>, u: Id)
    requires u in After(c, run).users
    ensures exists i :: 0 <= i < |run| && MadeBy(c, run, i, u)
              && After(c, run).users[u].role ==
                 if run[i].Seed? then run[i].role else if u == 1 then Admin else Member
  {
    AccountsTold(c, run);
    assert Tells(After(c, run), History(c, run), u);
    var i := Origin(History(c, run), u);
    HistoryPrefix(c, run, i);
    MadeThen(c, run, i, u);
  }

  /** Request `i` of the run made account `u`. */
  ghost predicate MadeBy(c: Crypto, run: seq<Request>, i: nat, u: Id) {
    && i < |run| && (run[i].Seed? || run[i].Register?)
    && u !in After(c, run[..i]).users && u in After(c, run[..i + 1]).users
  }

  lemma MadeThen(c: Crypto, run: seq<Request>, i: nat, u: Id)
    requires i < |run| && |Joined(History(c, run[..i]))| == u - 1 && Joins(Joined(History(c, run[..i])), run[i])
    ensures MadeBy(c, run, i, u)
  {
    var h := History(c, run[..i]);
    AccountsTold(c, run[..i]);
    assert Tells(After(c, run[..i]), h, u);
    AccountsTold(c, run[..i + 1]);
    assert run[..i + 1][..i] == run[..i];
    JoinedSnoc(h, Event(run[i], Serve(c, After(c, run[..i]), run[i]).1));
    assert Tells(After(c, run[..i + 1]), History(c, run[..i + 1]), u);
  }

  /** Without seeding the first account is the only administrator, and nobody is a moderator. */
  lemma FirstIsAdmin(c: Crypto, run: seq<Request>, u: Id)
    requires u in After(c, run).users && forall r <- run :: !r.Seed?
    ensures After(c, run).users[u].role == if u == 1 then Admin else Member
  {
    RolesExact(c, run, u);
    var i :| 0 <= i < |run| && MadeBy(c, run, i, u)
             && After(c, run).users[u].role == if run[i].Seed? then run[i].role else if u == 1 then Admin else Member;
    assert run[i] in run;
  }

  // ----- What every request is answered -----

  /** Event `j` of a run, and the history before it. */
  lemma {:induction false} Before(c: Crypto, run: seq<Request>, j: nat)
    requires j < |run|
    ensures var h := History(c, run)[..j];
            && TellsAll(After(c, run[..j]), h)
            && History(c, run)[j] == Event(run[j], Serve(c, After(c, run[..j]), run[j]).1)
            && h == History(c, run[..j])
  {
    HistoryPrefix(c, run, j);
    HistoryAt(c, run, j);
    AccountsTold(c, run[..j]);
  }

  /** The account with an e-mail is the one in the list. */
  lemma EmailTold(s: State, h: seq<Event>, email: string, u: Id)
    requires TellsAll(s, h) && UniqueEmails(h)
    ensures UserByEmail(s.users, email) == Some(u) <==> Known(h, u) && Joined(h)[u - 1].email == email
  {
    assert Tells(s, h, u);
    var found := UserByEmail(s.users, email);
    if found.Some? {
      assert Tells(s, h, found.value);
    }
  }

  ghost predicate UniqueEmails(h: seq<Event>) {
    forall i, j :: 0 <= i < j < |Joined(h)| ==> Joined(h)[i].email != Joined(h)[j].email
  }

  lemma {:induction false} EmailsUnique(h: seq<Event>)
    ensures UniqueEmails(h)
  {
    if h != [] {
      var front, e := h[..|h| - 1], h[|h| - 1];
      EmailsUnique(front);
      if Joins(Joined(front), e.req) {
        forall i | 0 <= i < |Joined(front)| ensures Joined(front)[i].email != e.req.email {
          assert Joined(front)[i] in Joined(front);
        }
      }
    }
  }

  /** A sign-in of `u` is justified: it is the account's e-mail, the password fits the hash stored last, the
      account is not banned, and the new session id is free. */
  ghost predicate MaySignIn(c: Crypto, h: seq<Event>, r: Request, u: Id)
    requires r.Login?
  {
    && Known(h, u) && r.email == Joined(h)[u - 1].email && r.email != ""
    && r.password != "" && c.matches(HashOf(h, u), r.password)
    && !Banned(h, u) && Open(h, r.sid).None?
  }

  /** A Login is answered with a sign-in exactly when it is justified, and otherwise rejected. */
  lemma {:induction false} LoginExact(c: Crypto, run: seq<Request>, j: nat, u: Id)
    requires j < |run| && run[j].Login?
    ensures var h, resp := History(c, run)[..j], History(c, run)[j].resp;
            && (resp == SignedIn(u, false) <==> MaySignIn(c, h, run[j], u))
            && (resp == Rejected || (resp.SignedIn? && !resp.mailed))
  {
    Before(c, run, j);
    RunTracks(c, run[..j], run[j].sid);
    EmailsUnique(History(c, run)[..j]);
    LoginStep(c, After(c, run[..j]), History(c, run)[..j], run[j], u);
  }

  lemma LoginStep(c: Crypto, s: State, h: seq<Event>, r: Request, u: Id)
    requires TellsAll(s, h) && UniqueEmails(h) && r.Login? && Row(s, r.sid) == Open(h, r.sid)
    ensures var resp := ServeLogin(c, s, r).1;
            && (resp == SignedIn(u, false) <==> MaySignIn(c, h, r, u))
            && (resp == Rejected || (resp.SignedIn? && !resp.mailed))
  {
    EmailTold(s, h, r.email, u);
    assert Tells(s, h, u);
  }

  /** The cookie stands for `u`: an open session of `u` within its thirty days, and `u` is not banned. */
  ghost predicate StandsFor(h: seq<Event>, sid: string, u: Id, now: nat) {
    sid != "" && !Banned(h, u) && exists i: nat :: Live(h, i, sid, u, now)
  }

  lemma StandsExact(c: Crypto, run: seq<Request>, sid: string, u: Id, now: nat)
    ensures Authenticated(After(c, run), sid, now) == Some(u) <==> StandsFor(History(c, run), sid, u, now)
  {
    if sid != "" {
      SessionExact(c, run, sid, u, now);
    }
  }

  /** Account `v` shows a valid cookie and has authority over the forum. */
  ghost predicate Rules(h: seq<Event>, sid: string, v: Id, now: nat) {
    StandsFor(h, sid, v, now) && Known(h, v) && (Joined(h)[v - 1].role == Admin || Joined(h)[v - 1].role == Moderator)
  }

  ghost predicate HasAuthority(h: seq<Event>, sid: string, now: nat) {
    exists v :: Rules(h, sid, v, now)
  }

  lemma RulesExact(c: Crypto, run: seq<Request>, sid: string, v: Id, now: nat)
    ensures Rules(History(c, run), sid, v, now)
       <==> Authenticated(After(c, run), sid, now) == Some(v) && CanModerate(After(c, run).users[v].role)
  {
    AccountsTold(c, run);
    assert Tells(After(c, run), History(c, run), v);
    StandsExact(c, run, sid, v, now);
  }

  lemma AuthorityExact(c: Crypto, run: seq<Request>, sid: string, now: nat)
    ensures var viewer := Authenticated(After(c, run), sid, now);
            HasAuthority(History(c, run), sid, now)
            <==> viewer.Some? && CanModerate(After(c, run).users[viewer.value].role)
  {
    var viewer := Authenticated(After(c, run), sid, now);
    if viewer.Some? {
      RulesExact(c, run, sid, viewer.value, now);
    }
    if v :| Rules(History(c, run), sid, v, now) {
      RulesExact(c, run, sid, v, now);
    }
  }

  /** A ban or an unban is done exactly when an administrator or a moderator shows a valid cookie and the
      target has an account, which for a ban is no administrator's; otherwise it is rejected. */
  ghost predicate BanAnswered(h: seq<Event>, r: Request, resp: Response)
    requires r.Ban? || r.Unban?
  {
    var done := HasAuthority(h, r.sid, r.now) && Known(h, r.target)
                && (r.Ban? ==> Joined(h)[r.target - 1].role != Admin);
    resp == if done then Done(r.target) else Rejected
  }

  /** What every ban and unban of a run is answered. */
  lemma {:induction false} BanExact(c: Crypto, run: seq<Request>, j: nat)
    requires j < |run| && (run[j].Ban? || run[j].Unban?)
    ensures BanAnswered(History(c, run)[..j], run[j], History(c, run)[j].resp)
  {
    Before(c, run, j);
    AuthorityExact(c, run[..j], run[j].sid, run[j].now);
    BanStep(c, After(c, run[..j]), History(c, run)[..j], run[j]);
  }

  lemma BanStep(c: Crypto, s: State, h: seq<Event>, r: Request)
    requires TellsAll(s, h) && (r.Ban? || r.Unban?)
    requires var viewer := Authenticated(s, r.sid, r.now);
             HasAuthority(h, r.sid, r.now) <==> viewer.Some? && CanModerate(s.users[viewer.value].role)
    ensures BanAnswered(h, r, Serve(c, s, r).1)
  {
    assert Tells(s, h, r.target);
  }

  /** A changed password is stored exactly for the account behind the cookie, when the current one fits and
      the new one is given twice and long enough. */
  ghost predicate PasswordAnswered(c: Crypto, h: seq<Event>, r: Request, resp: Response, u: Id)
    requires r.ChangePassword?
  {
    && (resp == Done(u) <==>
          && StandsFor(h, r.sid, u, r.now) && Known(h, u) && c.matches(HashOf(h, u), r.current)
          && r.password == r.confirm && |r.password| >= 8 && r.hash.Some?)
    && (resp == Rejected || resp.Done?)
  }

  /** What every change of a password is answered. */
  lemma {:induction false} PasswordExact(c: Crypto, run: seq<Request>, j: nat, u: Id)
    requires j < |run| && run[j].ChangePassword?
    ensures PasswordAnswered(c, History(c, run)[..j], run[j], History(c, run)[j].resp, u)
  {
    Before(c, run, j);
    StandsExact(c, run[..j], run[j].sid, u, run[j].now);
    PasswordStep(c, After(c, run[..j]), History(c, run)[..j], run[j], u);
  }

  lemma PasswordStep(c: Crypto, s: State, h: seq<Event>, r: Request, u: Id)
    requires TellsAll(s, h) && r.ChangePassword?
    requires Authenticated(s, r.sid, r.now) == Some(u) <==> StandsFor(h, r.sid, u, r.now)
    ensures PasswordAnswered(c, h, r, Serve(c, s, r).1, u)
  {
    assert Tells(s, h, u);
  }

  /** A registration signs in exactly when it joins and its session id is free; it has the next id, and a
      verification link is sent exactly when the hash of the link is not stored already. */
  predicate RegisterAnswered(c: Crypto, h: seq<Event>, r: Request, resp: Response, u: Id, mailed: bool)
    requires r.Register?
  {
    && (resp == SignedIn(u, mailed) <==>
          && Joins(Joined(h), r) && u == |Joined(h)| + 1 && Open(h, r.sid).None?
          && mailed == AuthTokens.Held(c, h, c.digest(r.raw)).None?)
    && (resp == Rejected || resp.SignedIn?)
  }

  /** What every registration is answered. */
  lemma {:induction false} RegisterExact(c: Crypto, run: seq<Request>, j: nat, u: Id, mailed: bool)
    requires j < |run| && run[j].Register?
    ensures RegisterAnswered(c, History(c, run)[..j], run[j], History(c, run)[j].resp, u, mailed)
  {
    Before(c, run, j);
    RunTracks(c, run[..j], run[j].sid);
    TokensAreTold(c, run[..j], c.digest(run[j].raw));
    RegisterStep(c, After(c, run[..j]), History(c, run)[..j], run[j], u, mailed);
  }

  lemma RegisterStep(c: Crypto, s: State, h: seq<Event>, r: Request, u: Id, mailed: bool)
    requires TellsAll(s, h) && r.Register? && Row(s, r.sid) == Open(h, r.sid)
    requires TokensTold(c, s, h, c.digest(r.raw))
    ensures RegisterAnswered(c, h, r, Serve(c, s, r).1, u, mailed)
  {
    NextPlace(s, h);
    NamesTold(s, h, r);
    FormsAgree(r);
    AuthTokens.NoTokenOfNew(s, NextId(s.users.Keys), c.digest(r.raw));
  }

  /** Seeding makes the next account exactly when it joins. */
  lemma {:induction false} SeedExact(c: Crypto, run: seq<Request>, j: nat)
    requires j < |run| && run[j].Seed?
    ensures var h := History(c, run)[..j];
            History(c, run)[j].resp == if Joins(Joined(h), run[j]) then Seeded(|Joined(h)| + 1) else Rejected
  {
    Before(c, run, j);
    AddsAccount(c, After(c, run[..j]), History(c, run)[..j], run[j]);
  }

  /** A visit is served as `u` exactly when the cookie stands for `u`. */
  lemma {:induction false} VisitExact(c: Crypto, run: seq<Request>, j: nat, u: Id)
    requires j < |run| && run[j].Visit?
    ensures var resp := History(c, run)[j].resp;
            && (resp == As(u) <==> StandsFor(History(c, run)[..j], run[j].sid, u, run[j].now))
            && (resp == Rejected || resp.As?)
  {
    Before(c, run, j);
    StandsExact(c, run[..j], run[j].sid, u, run[j].now);
  }

  // ----- One-time links -----

  /** The link under this raw token stands for `u`: issued to `u` for this purpose, within its lifetime, not
      replaced and not used up. */
  ghost predicate LinkFor(c: Crypto, h: seq<Event>, raw: string, kind: Kind, u: Id, now: nat) {
    raw != "" && exists i: nat :: AuthTokens.Usable(c, h, i, c.digest(raw), u, kind, now)
  }

  lemma LinkExact(c: Crypto, run: seq<Request>, raw: string, kind: Kind, u: Id, now: nat)
    ensures TokenUser(c, After(c, run), raw, kind, now) == Some(u) <==> LinkFor(c, History(c, run), raw, kind, u, now)
  {
    if raw != "" {
      AuthTokens.TokenExact(c, run, raw, kind, u, now);
    }
  }

  /** The e-mail is that of account `u`, which is not banned. */
  predicate MayReset(h: seq<Event>, r: Request, u: Id)
    requires r.Forgot?
  {
    Known(h, u) && Joined(h)[u - 1].email == r.email && !Banned(h, u)
  }

  /** The old links go exactly when the e-mail is that of an account that is not banned, and a new one is sent
      unless its hash is stored for something else. */
  predicate ForgotAnswered(c: Crypto, h: seq<Event>, r: Request, resp: Response, u: Id)
    requires r.Forgot?
  {
    && (resp == Mailed(u) <==> MayReset(h, r, u) && HashFree(c, h, r.raw, u))
    && (resp == MailLost(u) <==> MayReset(h, r, u) && !HashFree(c, h, r.raw, u))
    && (resp == Rejected || resp.Mailed? || resp.MailLost?)
  }

  /** What asking for a reset link is answered. */
  lemma {:induction false} ForgotExact(c: Crypto, run: seq<Request>, j: nat, u: Id)
    requires j < |run| && run[j].Forgot?
    ensures ForgotAnswered(c, History(c, run)[..j], run[j], History(c, run)[j].resp, u)
  {
    ForgotNext(c, run[..j], run[j], u);
    HistoryPrefix(c, run, j);
    HistoryAt(c, run, j);
  }

  lemma ForgotNext(c: Crypto, run: seq<Request>, r: Request, u: Id)
    requires r.Forgot?
    ensures ForgotAnswered(c, History(c, run), r, Serve(c, After(c, run), r).1, u)
  {
    AccountsTold(c, run);
    EmailsUnique(History(c, run));
    TokensAreTold(c, run, c.digest(r.raw));
    ForgotStep(c, After(c, run), History(c, run), r, u);
  }

  /** The history tells what is stored under a token's hash. */
  ghost predicate TokensTold(c: Crypto, s: State, h: seq<Event>, hash: string) {
    AuthTokens.TokensHealthy(s) && AuthTokens.Row(s, hash) == AuthTokens.Held(c, h, hash)
  }

  lemma TokensAreTold(c: Crypto, run: seq<Request>, hash: string)
    ensures TokensTold(c, After(c, run), History(c, run), hash)
  {
    AuthTokens.TokenTracks(c, run, hash);
  }

  /** Nothing is stored under the hash, or an older reset link of `u`, which goes. */
  predicate HashFree(c: Crypto, h: seq<Event>, raw: string, u: Id) {
    var held := AuthTokens.Held(c, h, c.digest(raw));
    held.None? || (held.value.user == u && held.value.kind == ResetPassword)
  }

  lemma ForgotStep(c: Crypto, s: State, h: seq<Event>, r: Request, u: Id)
    requires TellsAll(s, h) && UniqueEmails(h) && r.Forgot?
    requires TokensTold(c, s, h, c.digest(r.raw))
    ensures ForgotAnswered(c, h, r, Serve(c, s, r).1, u)
  {
    EmailTold(s, h, r.email, u);
    assert Tells(s, h, u);
  }

  /** A reset stores a new password exactly through a link that stands for the account, when the password is
      given twice and long enough and the store call succeeds; it is done when the calls after that do too. */
  ghost predicate ResetAnswered(c: Crypto, h: seq<Event>, r: Request, resp: Response, u: Id)
    requires r.Reset?
  {
    var stored := LinkFor(c, h, r.raw, ResetPassword, u, r.now) && r.password == r.confirm && |r.password| >= 8
                  && r.hash.Some? && r.saved;
    && (resp == Done(u) <==> stored && r.cleared && r.swept)
    && (resp == Broken(u) <==> stored && !(r.cleared && r.swept))
    && (resp == Rejected || resp.Done? || resp.Broken?)
  }

  /** What every reset is answered. */
  lemma {:induction false} ResetExact(c: Crypto, run: seq<Request>, j: nat, u: Id)
    requires j < |run| && run[j].Reset?
    ensures ResetAnswered(c, History(c, run)[..j], run[j], History(c, run)[j].resp, u)
  {
    Before(c, run, j);
    LinkExact(c, run[..j], run[j].raw, ResetPassword, u, run[j].now);
    ResetStep(c, After(c, run[..j]), History(c, run)[..j], run[j], u);
  }

  lemma ResetStep(c: Crypto, s: State, h: seq<Event>, r: Request, u: Id)
    requires r.Reset?
    requires TokenUser(c, s, r.raw, ResetPassword, r.now) == Some(u) <==> LinkFor(c, h, r.raw, ResetPassword, u, r.now)
    ensures ResetAnswered(c, h, r, Serve(c, s, r).1, u)
  {
  }

  /** An account is verified exactly through a link that stands for it; one that is verified already is not
      written again. */
  ghost predicate VerifyAnswered(c: Crypto, h: seq<Event>, r: Request, resp: Response, u: Id)
    requires r.Verify?
  {
    var marked := LinkFor(c, h, r.raw, VerifyEmail, u, r.now) && Known(h, u) && (VerifiedIn(h, u) || r.saved);
    && (resp == Done(u) <==> marked && r.cleared)
    && (resp == Broken(u) <==> marked && !r.cleared)
    && (resp == Rejected || resp.Done? || resp.Broken?)
  }

  /** What every use of a verification link is answered. */
  lemma {:induction false} VerifyExact(c: Crypto, run: seq<Request>, j: nat, u: Id)
    requires j < |run| && run[j].Verify?
    ensures VerifyAnswered(c, History(c, run)[..j], run[j], History(c, run)[j].resp, u)
  {
    Before(c, run, j);
    LinkExact(c, run[..j], run[j].raw, VerifyEmail, u, run[j].now);
    VerifyStep(c, After(c, run[..j]), History(c, run)[..j], run[j], u);
  }

  lemma VerifyStep(c: Crypto, s: State, h: seq<Event>, r: Request, u: Id)
    requires TellsAll(s, h) && r.Verify?
    requires TokenUser(c, s, r.raw, VerifyEmail, r.now) == Some(u) <==> LinkFor(c, h, r.raw, VerifyEmail, u, r.now)
    ensures VerifyAnswered(c, h, r, Serve(c, s, r).1, u)
  {
    assert Tells(s, h, u);
  }

  /** The reset form is shown to `u` exactly through a link that stands for `u`. */
  lemma {:induction false} ShowResetExact(c: Crypto, run: seq<Request>, j: nat, u: Id)
    requires j < |run| && run[j].ShowReset?
    ensures var h, r, resp := History(c, run)[..j], run[j], History(c, run)[j].resp;
            && (resp == As(u) <==> LinkFor(c, h, r.raw, ResetPassword, u, r.now))
            && (resp == Rejected || resp.As?)
  {
    Before(c, run, j);
    LinkExact(c, run[..j], run[j].raw, ResetPassword, u, run[j].now);
  }
}
