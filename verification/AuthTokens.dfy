/** One-time tokens over whole runs. */
module AuthTokens {
  import opened Tables
  import opened AuthState
  import opened AuthSessions

  /** The event sent `u` a token of the kind, stored under its hash. */
  predicate Issues(e: Event, u: Id, kind: Kind) {
    || (e.req.Register? && e.resp == SignedIn(u, true) && kind == VerifyEmail)
    || (e.req.Forgot? && e.resp == Mailed(u) && kind == ResetPassword)
  }

  /** The event issued a token, or at least cleared the older ones of its kind. */
  predicate Replaces(e: Event, u: Id, kind: Kind) {
    || Issues(e, u, kind)
    || (e.req.Register? && e.resp == SignedIn(u, false) && kind == VerifyEmail)
    || (e.req.Forgot? && e.resp == MailLost(u) && kind == ResetPassword)
  }

  /** The event acted on a token: it wrote the token's user. */
  predicate ActsOn(e: Event, kind: Kind) {
    ((e.req.Verify? && kind == VerifyEmail) || (e.req.Reset? && kind == ResetPassword))
      && (e.resp.Done? || e.resp.Broken?)
  }

  /** The event used a token up: it acted on it and deleted it. */
  predicate Consumes(c: Crypto, e: Event, hash: string, kind: Kind) {
    ActsOn(e, kind) && e.req.cleared && c.digest(e.req.raw) == hash
  }

  /** Event `i` issued the token, and since then it was neither replaced nor used. */
  ghost predicate ValidSince(c: Crypto, h: seq<Event>, i: nat, hash: string, u: Id, kind: Kind) {
    && i < |h| && Issues(h[i], u, kind) && c.digest(h[i].req.raw) == hash
    && forall j :: i < j < |h| ==> !Replaces(h[j], u, kind) && !Consumes(c, h[j], hash, kind)
  }

  // ----- The token table is the valid tokens of the history -----

  predicate IssuesHash(c: Crypto, e: Event, hash: string) {
    ((e.req.Register? && e.resp.SignedIn? && e.resp.mailed) || (e.req.Forgot? && e.resp.Mailed?))
      && c.digest(e.req.raw) == hash
  }

  /** A day for a verification link, an hour for a reset link. */
  function LastsFor(kind: Kind): nat {
    match kind
    case VerifyEmail => 86_400_000_000_000
    case ResetPassword => 3_600_000_000_000
  }

  function IssuedToken(e: Event): Token
    requires (e.req.Register? && e.resp.SignedIn?) || (e.req.Forgot? && e.resp.Mailed?)
  {
    var kind := if e.req.Register? then VerifyEmail else ResetPassword;
    Token(e.resp.user, kind, Stored(e.req.now + LastsFor(kind)))
  }

  function TokenStep(c: Crypto, before: Option<Token>, e: Event, hash: string): Option<Token> {
    if IssuesHash(c, e, hash) then Some(IssuedToken(e))
    else if before.Some? && (Replaces(e, before.value.user, before.value.kind)
      || Consumes(c, e, hash, before.value.kind)) then None
    else before
  }

  /** The token under a hash, read off the history. */
  function Held(c: Crypto, h: seq<Event>, hash: string): Option<Token> {
    if h == [] then None else TokenStep(c, Held(c, h[..|h| - 1], hash), h[|h| - 1], hash)
  }

  lemma HeldSnoc(c: Crypto, h: seq<Event>, e: Event, hash: string)
    ensures Held(c, h + [e], hash) == TokenStep(c, Held(c, h, hash), e, hash)
  {
    assert (h + [e])[..|h|] == h;
  }

  function Row(s: State, hash: string): Option<Token> {
    if hash in s.tokens then Some(s.tokens[hash]) else None
  }

  /** Tokens belong to users who exist; one per user and kind. */
  ghost predicate TokensHealthy(s: State) {
    && (forall h <- s.tokens :: s.tokens[h].user in s.users)
    && (forall a <- s.tokens, b <- s.tokens ::
          s.tokens[a].user == s.tokens[b].user && s.tokens[a].kind == s.tokens[b].kind ==> a == b)
  }

  lemma IssuedRow(c: Crypto, s: State, u: Id, kind: Kind, raw: string, now: nat, hash: string)
    ensures var (after, ok) := Issued(c, s, u, kind, raw, now);
            Row(after, hash) ==
              if ok && c.digest(raw) == hash then Some(Token(u, kind, Stored(now + LastsFor(kind))))
              else if hash in s.tokens && s.tokens[hash].user == u && s.tokens[hash].kind == kind then None
              else Row(s, hash)
  {
  }

  lemma IssuedHealthy(c: Crypto, s: State, u: Id, kind: Kind, raw: string, now: nat)
    requires TokensHealthy(s) && u in s.users
    ensures TokensHealthy(Issued(c, s, u, kind, raw, now).0)
  {
  }

  lemma ServeToken(c: Crypto, s: State, r: Request, hash: string)
    requires TokensHealthy(s)
    ensures Row(Serve(c, s, r).0, hash) == TokenStep(c, Row(s, hash), Event(r, Serve(c, s, r).1), hash)
  {
    match r
    case Register(_, _, _, _, _, _, _, _) => RegisterToken(c, s, r, hash);
    case Forgot(_, _, _) => ForgotToken(c, s, r, hash);
    case Reset(_, _, _, _, _, _, _, _) => ResetToken(c, s, r, hash);
    case Verify(_, _, _, _) => VerifyToken(c, s, r, hash);
    case _ => OthersLeaveTokens(c, s, r, hash);
  }

  lemma VerifyToken(c: Crypto, s: State, r: Request, hash: string)
    requires r.Verify?
    ensures Row(ServeVerify(c, s, r).0, hash) == TokenStep(c, Row(s, hash), Event(r, ServeVerify(c, s, r).1), hash)
  {
  }

  lemma OthersLeaveTokens(c: Crypto, s: State, r: Request, hash: string)
    requires !r.Register? && !r.Forgot? && !r.Reset? && !r.Verify?
    ensures Row(Serve(c, s, r).0, hash) == TokenStep(c, Row(s, hash), Event(r, Serve(c, s, r).1), hash)
  {
  }

  lemma RegisterToken(c: Crypto, s: State, r: Request, hash: string)
    requires TokensHealthy(s) && r.Register?
    ensures Row(ServeRegister(c, s, r).0, hash) == TokenStep(c, Row(s, hash), Event(r, ServeRegister(c, s, r).1), hash)
  {
    if ServeRegister(c, s, r).1.SignedIn? {
      SignedUpToken(c, s, r, hash);
    } else {
      RejectedKeepsTokens(c, s, r);
    }
  }

  lemma SignedUpToken(c: Crypto, s: State, r: Request, hash: string)
    requires TokensHealthy(s) && r.Register? && ServeRegister(c, s, r).1.SignedIn?
    ensures Row(ServeRegister(c, s, r).0, hash) == TokenStep(c, Row(s, hash), Event(r, ServeRegister(c, s, r).1), hash)
  {
    var u := NextId(s.users.Keys);
    RegisterIssues(c, s, r);
    IssuedRow(c, SignedUp(s, r), u, VerifyEmail, r.raw, r.now, hash);
    NoTokenOfNew(s, u, hash);
  }

  /** The account is there and signed in; the token is still to come. */
  ghost function SignedUp(s: State, r: Request): State
    requires r.Register? && r.hash.Some?
  {
    var u := NextId(s.users.Keys);
    var row := User(r.username, r.email, r.hash.value, if u == 1 then Admin else Member, false, false);
    Opened(SetUser(s, u, row), r.sid, u, r.now)
  }

  lemma RegisterIssues(c: Crypto, s: State, r: Request)
    requires r.Register? && ServeRegister(c, s, r).1.SignedIn?
    ensures r.hash.Some? && SignedUp(s, r).tokens == s.tokens
    ensures var u := NextId(s.users.Keys);
            var (after, mailed) := Issued(c, SignedUp(s, r), u, VerifyEmail, r.raw, r.now);
            ServeRegister(c, s, r) == (after, SignedIn(u, mailed))
  {
  }

  lemma NoTokenOfNew(s: State, u: Id, hash: string)
    requires TokensHealthy(s) && u !in s.users
    ensures hash in s.tokens ==> s.tokens[hash].user != u
  {
  }

  lemma RejectedKeepsTokens(c: Crypto, s: State, r: Request)
    requires r.Register? && !ServeRegister(c, s, r).1.SignedIn?
    ensures ServeRegister(c, s, r).0.tokens == s.tokens && s.users.Keys <= ServeRegister(c, s, r).0.users.Keys
  {
  }

  lemma ForgotToken(c: Crypto, s: State, r: Request, hash: string)
    requires r.Forgot?
    ensures Row(ServeForgot(c, s, r).0, hash) == TokenStep(c, Row(s, hash), Event(r, ServeForgot(c, s, r).1), hash)
  {
    if ServeForgot(c, s, r).1 != Rejected {
      IssuedRow(c, s, UserByEmail(s.users, r.email).value, ResetPassword, r.raw, r.now, hash);
    }
  }

  lemma ResetToken(c: Crypto, s: State, r: Request, hash: string)
    requires r.Reset?
    ensures Row(ServeReset(c, s, r).0, hash) == TokenStep(c, Row(s, hash), Event(r, ServeReset(c, s, r).1), hash)
  {
  }

  lemma ServeTokensHealthy(c: Crypto, s: State, r: Request)
    requires TokensHealthy(s)
    ensures TokensHealthy(Serve(c, s, r).0)
  {
    match r
    case Register(_, _, _, _, _, _, _, _) => RegisterHealthy(c, s, r);
    case Forgot(_, _, _) =>
      if ServeForgot(c, s, r).1 != Rejected {
        IssuedHealthy(c, s, UserByEmail(s.users, r.email).value, ResetPassword, r.raw, r.now);
      }
    case _ =>
      OthersIssueNothing(c, s, r);
      FewerTokens(s, Serve(c, s, r).0);
  }

  lemma RegisterHealthy(c: Crypto, s: State, r: Request)
    requires TokensHealthy(s) && r.Register?
    ensures TokensHealthy(ServeRegister(c, s, r).0)
  {
    if ServeRegister(c, s, r).1.SignedIn? {
      var u := NextId(s.users.Keys);
      var row := User(r.username, r.email, r.hash.value, if u == 1 then Admin else Member, false, false);
      IssuedHealthy(c, Opened(SetUser(s, u, row), r.sid, u, r.now), u, VerifyEmail, r.raw, r.now);
    } else {
      RejectedKeepsTokens(c, s, r);
    }
  }

  /** Some of the same tokens, and all the users. */
  ghost predicate Fewer(s: State, after: State) {
    && s.users.Keys <= after.users.Keys
    && (forall h <- after.tokens :: h in s.tokens && after.tokens[h] == s.tokens[h])
  }

  lemma OthersIssueNothing(c: Crypto, s: State, r: Request)
    requires !r.Register? && !r.Forgot?
    ensures Fewer(s, Serve(c, s, r).0)
  {
  }

  lemma FewerTokens(s: State, after: State)
    requires TokensHealthy(s) && Fewer(s, after)
    ensures TokensHealthy(after)
  {
  }

  lemma {:induction false} TokenTracks(c: Crypto, run: seq<Request>, hash: string)
    ensures TokensHealthy(After(c, run)) && Row(After(c, run), hash) == Held(c, History(c, run), hash)
  {
    if run != [] {
      var n := |run| - 1;
      var s := After(c, run[..n]);
      TokenTracks(c, run[..n], hash);
      ServeToken(c, s, run[n], hash);
      ServeTokensHealthy(c, s, run[n]);
      HeldSnoc(c, History(c, run[..n]), Event(run[n], Serve(c, s, run[n]).1), hash);
    }
  }

  /** At most one stored token per user and kind, in every reachable state. */
  lemma {:induction false} OneTokenPerKind(c: Crypto, run: seq<Request>, a: string, b: string)
    requires a in After(c, run).tokens && b in After(c, run).tokens
    requires After(c, run).tokens[a].user == After(c, run).tokens[b].user
             && After(c, run).tokens[a].kind == After(c, run).tokens[b].kind
    ensures a == b
  {
    TokenTracks(c, run, a);
  }

  lemma ValidSnoc(c: Crypto, h: seq<Event>, e: Event, i: nat, hash: string, u: Id, kind: Kind)
    requires i < |h|
    ensures ValidSince(c, h + [e], i, hash, u, kind)
       <==> ValidSince(c, h, i, hash, u, kind) && !Replaces(e, u, kind) && !Consumes(c, e, hash, kind)
  {
    var all := h + [e];
    if ValidSince(c, all, i, hash, u, kind) {
      assert all[|h|] == e;
      forall j | i < j < |h| ensures !Replaces(h[j], u, kind) && !Consumes(c, h[j], hash, kind) {
        assert all[j] == h[j];
      }
    }
  }

  lemma {:induction false} HeldMeans(c: Crypto, h: seq<Event>, hash: string) returns (i: nat)
    ensures Held(c, h, hash).Some? ==>
              var t := Held(c, h, hash).value;
              ValidSince(c, h, i, hash, t.user, t.kind) && t.expires == Stored(h[i].req.now + LastsFor(t.kind))
  {
    i := 0;
    if h != [] {
      var n := |h| - 1;
      var front, e := h[..n], h[n];
      assert h == front + [e];
      HeldSnoc(c, front, e, hash);
      i := HeldMeans(c, front, hash);
      if IssuesHash(c, e, hash) {
        i := n;
      } else if Held(c, h, hash).Some? {
        var t := Held(c, h, hash).value;
        ValidSnoc(c, front, e, i, hash, t.user, t.kind);
      }
    }
  }

  /** No hash is issued while it is stored. */
  ghost predicate NoReissue(c: Crypto, h: seq<Event>, hash: string) {
    forall j :: 0 <= j < |h| && Held(c, h[..j], hash).Some? && IssuesHash(c, h[j], hash)
      ==> Replaces(h[j], Held(c, h[..j], hash).value.user, Held(c, h[..j], hash).value.kind)
  }

  lemma IssueNeedsFreeHash(c: Crypto, s: State, r: Request, hash: string)
    requires TokensHealthy(s) && hash in s.tokens && IssuesHash(c, Event(r, Serve(c, s, r).1), hash)
    ensures Replaces(Event(r, Serve(c, s, r).1), s.tokens[hash].user, s.tokens[hash].kind)
  {
  }

  lemma NotReissuedAt(c: Crypto, run: seq<Request>, j: nat, hash: string)
    requires j < |run| && Held(c, History(c, run)[..j], hash).Some? && IssuesHash(c, History(c, run)[j], hash)
    ensures Replaces(History(c, run)[j], Held(c, History(c, run)[..j], hash).value.user,
            Held(c, History(c, run)[..j], hash).value.kind)
  {
    HistoryPrefix(c, run, j);
    HistoryAt(c, run, j);
    TokenTracks(c, run[..j], hash);
    IssueNeedsFreeHash(c, After(c, run[..j]), run[j], hash);
  }

  lemma NeverReissued(c: Crypto, run: seq<Request>, hash: string)
    ensures NoReissue(c, History(c, run), hash)
  {
    forall j | 0 <= j < |run| && Held(c, History(c, run)[..j], hash).Some? && IssuesHash(c, History(c, run)[j], hash)
      ensures Replaces(History(c, run)[j], Held(c, History(c, run)[..j], hash).value.user,
              Held(c, History(c, run)[..j], hash).value.kind)
    {
      NotReissuedAt(c, run, j, hash);
    }
  }

  /** The token issued by event `i` is the one stored. */
  ghost predicate HeldFrom(c: Crypto, h: seq<Event>, i: nat, hash: string, u: Id, kind: Kind) {
    i < |h| && Held(c, h, hash) == Some(Token(u, kind, Stored(h[i].req.now + LastsFor(kind))))
  }

  lemma {:induction false} ValidIsHeld(c: Crypto, h: seq<Event>, i: nat, hash: string, u: Id, kind: Kind)
    requires ValidSince(c, h, i, hash, u, kind) && NoReissue(c, h, hash)
    ensures HeldFrom(c, h, i, hash, u, kind)
  {
    var n := |h| - 1;
    var front, e := h[..n], h[n];
    LastApartEvent(h);
    if i == n {
      HeldAtIssue(c, front, e, hash, u, kind);
    } else {
      ValidSnoc(c, front, e, i, hash, u, kind);
      NoReissueFront(c, front, e, hash);
      ValidIsHeld(c, front, i, hash, u, kind);
      HeldStays(c, front, e, i, hash, u, kind);
    }
  }

  lemma LastApartEvent(h: seq<Event>)
    requires h != []
    ensures h == h[..|h| - 1] + [h[|h| - 1]]
  {
  }

  lemma HeldAtIssue(c: Crypto, front: seq<Event>, e: Event, hash: string, u: Id, kind: Kind)
    requires Issues(e, u, kind) && c.digest(e.req.raw) == hash
    ensures HeldFrom(c, front + [e], |front|, hash, u, kind)
  {
    HeldSnoc(c, front, e, hash);
  }

  lemma HeldStays(c: Crypto, front: seq<Event>, e: Event, i: nat, hash: string, u: Id, kind: Kind)
    requires HeldFrom(c, front, i, hash, u, kind) && NoReissue(c, front + [e], hash)
    requires !Replaces(e, u, kind) && !Consumes(c, e, hash, kind)
    ensures HeldFrom(c, front + [e], i, hash, u, kind)
  {
    var h := front + [e];
    assert h[..|front|] == front && h[|front|] == e;
    HeldSnoc(c, front, e, hash);
  }

  lemma NoReissueFront(c: Crypto, front: seq<Event>, e: Event, hash: string)
    requires NoReissue(c, front + [e], hash)
    ensures NoReissue(c, front, hash)
  {
    var h := front + [e];
    forall j | 0 <= j < |front| && Held(c, front[..j], hash).Some? && IssuesHash(c, front[j], hash)
      ensures Replaces(front[j], Held(c, front[..j], hash).value.user, Held(c, front[..j], hash).value.kind)
    {
      assert front[..j] == h[..j] && h[j] == front[j];
    }
  }

  /** The token was issued by event `i`, was neither replaced nor used since, and has not expired. */
  ghost predicate Usable(c: Crypto, h: seq<Event>, i: nat, hash: string, u: Id, kind: Kind, now: nat) {
    ValidSince(c, h, i, hash, u, kind) && now <= Stored(h[i].req.now + LastsFor(kind))
  }

  lemma AcceptedIsUsable(c: Crypto, run: seq<Request>, raw: string, kind: Kind, u: Id, now: nat) returns (i: nat)
    requires TokenUser(c, After(c, run), raw, kind, now) == Some(u)
    ensures Usable(c, History(c, run), i, c.digest(raw), u, kind, now)
  {
    TokenTracks(c, run, c.digest(raw));
    i := RowIsUsable(c, After(c, run), History(c, run), raw, kind, u, now);
  }

  lemma RowIsUsable(c: Crypto, s: State, h: seq<Event>, raw: string, kind: Kind, u: Id, now: nat) returns (i: nat)
    requires TokensHealthy(s) && Row(s, c.digest(raw)) == Held(c, h, c.digest(raw))
             && TokenUser(c, s, raw, kind, now) == Some(u)
    ensures Usable(c, h, i, c.digest(raw), u, kind, now)
  {
    i := HeldMeans(c, h, c.digest(raw));
  }

  lemma UsableIsAccepted(c: Crypto, run: seq<Request>, i: nat, raw: string, kind: Kind, u: Id, now: nat)
    requires raw != "" && Usable(c, History(c, run), i, c.digest(raw), u, kind, now)
    ensures TokenUser(c, After(c, run), raw, kind, now) == Some(u)
  {
    NeverReissued(c, run, c.digest(raw));
    TokenTracks(c, run, c.digest(raw));
    UsableRow(c, After(c, run), History(c, run), i, raw, kind, u, now);
  }

  lemma UsableRow(c: Crypto, s: State, h: seq<Event>, i: nat, raw: string, kind: Kind, u: Id, now: nat)
    requires raw != "" && TokensHealthy(s) && Row(s, c.digest(raw)) == Held(c, h, c.digest(raw))
             && NoReissue(c, h, c.digest(raw))
    requires Usable(c, h, i, c.digest(raw), u, kind, now)
    ensures TokenUser(c, s, raw, kind, now) == Some(u)
  {
    ValidIsHeld(c, h, i, c.digest(raw), u, kind);
  }

  /** Whole-run token exactness: a raw token is accepted for `u` under a kind exactly when a token of
      that hash and kind was issued to `u`, has not expired, and since then no newer token of the kind
      was issued to `u` and it was not used. */
  lemma TokenExact(c: Crypto, run: seq<Request>, raw: string, kind: Kind, u: Id, now: nat)
    requires raw != ""
    ensures TokenUser(c, After(c, run), raw, kind, now) == Some(u)
       <==> exists i: nat :: Usable(c, History(c, run), i, c.digest(raw), u, kind, now)
  {
    if TokenUser(c, After(c, run), raw, kind, now) == Some(u) {
      var i := AcceptedIsUsable(c, run, raw, kind, u, now);
      assert exists i: nat :: Usable(c, History(c, run), i, c.digest(raw), u, kind, now);
    }
    forall i: nat | Usable(c, History(c, run), i, c.digest(raw), u, kind, now)
      ensures TokenUser(c, After(c, run), raw, kind, now) == Some(u)
    {
      UsableIsAccepted(c, run, i, raw, kind, u, now);
    }
  }

  // ----- With an injective hash and fresh raw tokens -----

  ghost predicate Injective(c: Crypto) {
    forall a, b :: c.digest(a) == c.digest(b) ==> a == b
  }

  predicate IssuesAny(e: Event) {
    (e.req.Register? && e.resp.SignedIn? && e.resp.mailed) || (e.req.Forgot? && e.resp.Mailed?)
  }

  /** No raw token is ever drawn twice. */
  ghost predicate FreshTokens(h: seq<Event>) {
    forall i, j :: 0 <= i < j < |h| && IssuesAny(h[i]) && IssuesAny(h[j]) ==> h[i].req.raw != h[j].req.raw
  }

  /** The event acted on the raw token, under the kind. */
  predicate Uses(e: Event, raw: string, kind: Kind) {
    ActsOn(e, kind) && e.req.raw == raw
  }

  /** Every use of a raw token goes back to its own issue, to the same user and under the same kind, no
      longer ago than its lifetime, with no newer issue of the kind in between, and no other use whose
      deletion of the token succeeded. */
  lemma {:induction false} UseMeans(c: Crypto, run: seq<Request>, j: nat, raw: string, kind: Kind) returns (i: nat)
    requires Injective(c) && j < |run| && Uses(History(c, run)[j], raw, kind)
    ensures i < j && Issues(History(c, run)[i], History(c, run)[j].resp.user, kind) && run[i].raw == raw
    ensures run[j].now <= run[i].now + LastsFor(kind)
    ensures forall k :: i < k < j ==> !Replaces(History(c, run)[k], History(c, run)[j].resp.user, kind)
    ensures forall k :: i < k < j ==> !(Uses(History(c, run)[k], raw, kind) && run[k].cleared)
  {
    var h := History(c, run);
    HistoryPrefix(c, run, j);
    HistoryAt(c, run, j);
    var s := After(c, run[..j]);
    var u := h[j].resp.user;
    assert TokenUser(c, s, raw, kind, run[j].now) == Some(u);
    i := AcceptedIsUsable(c, run[..j], raw, kind, u, run[j].now);
    assert h[..j][i] == h[i];
    forall k | i < k < j ensures !Replaces(h[k], u, kind) && !(Uses(h[k], raw, kind) && run[k].cleared) {
      assert h[..j][k] == h[k];
    }
  }

  /** A raw token is used under one kind only, and again only after uses that failed to delete it: so it
      is used up at most once, and never used after that. */
  lemma {:induction false} UsedAtMostOnce(c: Crypto, run: seq<Request>, j: nat, k: nat, raw: string, kind: Kind,
                                          other: Kind)
    requires Injective(c) && FreshTokens(History(c, run))
    requires j <= k < |run| && Uses(History(c, run)[j], raw, kind) && Uses(History(c, run)[k], raw, other)
    ensures kind == other
    ensures j < k ==> !run[j].cleared && History(c, run)[j].resp.Broken?
  {
    var h := History(c, run);
    var a := UseMeans(c, run, j, raw, kind);
    var b := UseMeans(c, run, k, raw, other);
    assert IssuesAny(h[a]) && IssuesAny(h[b]);
    assert a == b;
    if j < k {
      assert !run[j].cleared;
      BrokenUnlessCleared(c, run, j, kind);
    }
  }

  lemma BrokenUnlessCleared(c: Crypto, run: seq<Request>, j: nat, kind: Kind)
    requires j < |run| && ActsOn(History(c, run)[j], kind) && !run[j].cleared
    ensures History(c, run)[j].resp.Broken?
  {
    HistoryAt(c, run, j);
    NotClearedBreaks(c, After(c, run[..j]), run[j]);
  }

  lemma NotClearedBreaks(c: Crypto, s: State, r: Request)
    requires (r.Verify? || r.Reset?) && !r.cleared
    ensures !Serve(c, s, r).1.Done?
  {
  }

  // ----- Showing the reset form -----

  lemma AfterSnoc(c: Crypto, run: seq<Request>, r: Request)
    ensures After(c, run + [r]) == Serve(c, After(c, run), r).0
  {
    assert (run + [r])[..|run|] == run;
  }

  lemma LastRequestApart(a: seq<Request>, b: seq<Request>)
    requires b != []
    ensures a + b == (a + b[..|b| - 1]) + [b[|b| - 1]]
  {
  }

  /** Showing the reset form at any point of a run changes nothing that follows. */
  lemma {:induction false} ShowResetIsHarmless(c: Crypto, before: seq<Request>, raw: string, now: nat,
                                               rest: seq<Request>)
    ensures After(c, before + [ShowReset(raw, now)] + rest) == After(c, before + rest)
  {
    if rest == [] {
      assert before + [ShowReset(raw, now)] + rest == before + [ShowReset(raw, now)] && before + rest == before;
      AfterSnoc(c, before, ShowReset(raw, now));
    } else {
      var n := |rest| - 1;
      ShowResetIsHarmless(c, before, raw, now, rest[..n]);
      LastRequestApart(before + [ShowReset(raw, now)], rest);
      LastRequestApart(before, rest);
      AfterSnoc(c, before + [ShowReset(raw, now)] + rest[..n], rest[n]);
      AfterSnoc(c, before + rest[..n], rest[n]);
    }
  }
}
