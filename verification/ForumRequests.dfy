/** Requests in flight.  A reply (internal/handler/post.go) and a new thread (internal/handler/thread.go)
    are sequences of store calls without a transaction; here any number of them interleave, one statement
    at a time, with edits, bans, deletions and failing calls. */
module ForumRequests {
  import opened Tables
  import opened ForumDb

  /** A request between two statements.  The statements of CreatePost are the nesting query and the
      insert; `seen` says whether the query found the row of the parent, if one is named. */
  datatype Request =
    // next: the query, the insert, UpdateLastPost, IncrementPostCount
    | ReplyChecked(thread: Id, user: Id, parent: Option<Id>, body: string, held: bool, at: Stamp)
    | ReplyPassed(thread: Id, user: Id, parent: Option<Id>, body: string, held: bool, at: Stamp, seen: bool)
    | ReplyStored(thread: Id, user: Id, at: Stamp)
    | ReplyBumped(user: Id)
    // next: CreateThread, the insert
    | ThreadChecked(sub: Id, user: Id, title: string, body: string, held: bool, at: Stamp)
    | ThreadStored(thread: Id, user: Id, body: string, held: bool)

  /** The tables, the requests in flight, and a record of what happened: replies stored per user, and
      what failing calls lost.  The handlers log a failed UpdateLastPost or IncrementPostCount and go on. */
  datatype System = System(
    db: Db,
    flight: map<nat, Request>,
    made: map<Id, nat>,
    lostBumps: map<Id, nat>,
    lostCounts: map<Id, nat>,
    bare: set<Id>)

  /** One statement of a request, or another request as a whole.  `up` says whether the statement succeeds. */
  datatype Label =
    | BeginReply(r: nat, thread: Id, user: Id, parent: Option<Id>, body: string, held: bool, at: Stamp)
    | CheckParent(r: nat, up: bool)
    | StoreReply(r: nat, up: bool)
    | BumpThread(r: nat, up: bool)
    | CountReply(r: nat, up: bool)
    | BeginThread(r: nat, sub: Id, user: Id, title: string, body: string, held: bool, at: Stamp)
    | StoreThread(r: nat, up: bool)
    | StoreOpening(r: nat, up: bool)
    | Edit(post: Id, body: string, held: bool, editor: Id)
    | SoftDelete(post: Id, editor: Id)
    | Lock(thread: Id, locked: bool)
    | MarkRead(user: Id, thread: Id, at: Stamp)
    | Register
    | SetBan(user: Id, banned: bool)
    | SetModerator(user: Id, moderator: bool)
    | HardDelete(thread: Id)

  function Tally(m: map<Id, nat>, k: Id): nat {
    if k in m then m[k] else 0
  }

  function Plus(m: map<Id, nat>, k: Id): map<Id, nat> {
    m[k := Tally(m, k) + 1]
  }

  function Drop(s: System, r: nat): System {
    s.(flight := s.flight - {r})
  }

  /** The checks of ReplyToThread before its first write. */
  predicate MayReply(db: Db, thread: Id, user: Id, body: string) {
    && user in db.users && !db.users[user].banned
    && thread in db.threads && (db.threads[thread].locked ==> db.users[user].moderator)
    && body != ""
  }

  predicate MayStartThread(db: Db, sub: Id, user: Id, title: string, body: string) {
    user in db.users && !db.users[user].banned && sub in db.subs && 0 < |title| <= 200 && body != ""
  }

  function CheckParentStep(s: System, r: nat, up: bool): System {
    if r !in s.flight || !s.flight[r].ReplyChecked? then s
    else
      var q := s.flight[r];
      if !up || !CheckPasses(s.db.posts, q.parent) then Drop(s, r)
      else
        var seen := q.parent.Some? ==> q.parent.value in s.db.posts;
        s.(flight := s.flight[r := ReplyPassed(q.thread, q.user, q.parent, q.body, q.held, q.at, seen)])
  }

  /** The post a request is about to insert. */
  function PostOf(q: Request): Post
    requires q.ReplyPassed? || q.ThreadStored?
  {
    NewPost(q.thread, q.user, if q.ReplyPassed? then q.parent else None, q.body, q.held)
  }

  ghost function StoreReplyStep(words: Tokenizer, s: System, r: nat, up: bool): System {
    if r !in s.flight || !s.flight[r].ReplyPassed? then s
    else
      var q := s.flight[r];
      var stored := InsertPost(words, s.db, PostOf(q));
      if !up || stored.Failed? then Drop(s, r)
      else s.(db := stored.value.0, flight := s.flight[r := ReplyStored(q.thread, q.user, q.at)],
        made := Plus(s.made, q.user))
  }

  function BumpThreadStep(s: System, r: nat, up: bool): System {
    if r !in s.flight || !s.flight[r].ReplyStored? then s
    else
      var q := s.flight[r];
      var next := s.(flight := s.flight[r := ReplyBumped(q.user)]);
      if up then next.(db := UpdateLastPost(s.db, q.thread, q.user, q.at))
      else if q.thread in s.db.threads then next.(lostBumps := Plus(s.lostBumps, q.thread))
      else next
  }

  function CountReplyStep(s: System, r: nat, up: bool): System {
    if r !in s.flight || !s.flight[r].ReplyBumped? then s
    else
      var u := s.flight[r].user;
      if up then Drop(s, r).(db := IncrementPostCount(s.db, u)) else Drop(s, r).(lostCounts := Plus(s.lostCounts, u))
  }

  ghost function StoreThreadStep(s: System, r: nat, up: bool): System {
    if r !in s.flight || !s.flight[r].ThreadChecked? then s
    else
      var q := s.flight[r];
      var stored := CreateThread(s.db, q.sub, q.user, q.title, q.at);
      if !up || stored.Failed? then Drop(s, r)
      else s.(db := stored.value.0, flight := s.flight[r := ThreadStored(stored.value.1, q.user, q.body, q.held)])
  }

  ghost function StoreOpeningStep(words: Tokenizer, s: System, r: nat, up: bool): System {
    if r !in s.flight || !s.flight[r].ThreadStored? then s
    else
      var q := s.flight[r];
      var stored := InsertPost(words, s.db, PostOf(q));
      if up && stored.Ok? then Drop(s, r).(db := stored.value.0)
      else if q.thread in s.db.threads then Drop(s, r).(bare := s.bare + {q.thread})
      else Drop(s, r)
  }

  ghost function HardDeleteStep(words: Tokenizer, s: System, t: Id): System {
    s.(db := DeleteThread(words, s.db, t), lostBumps := s.lostBumps - {t}, bare := s.bare - {t})
  }

  function NewUser(): User { User(0, false, false) }

  function PutUser(s: System, u: Id, row: User): System {
    s.(db := s.db.(users := s.db.users[u := row]))
  }

  /** A label whose conditions do not hold changes nothing. */
  ghost function Step(words: Tokenizer, s: System, l: Label): System {
    match l
    case BeginReply(r, t, u, parent, body, held, at) =>
      if r !in s.flight && MayReply(s.db, t, u, body)
        then s.(flight := s.flight[r := ReplyChecked(t, u, parent, body, held, at)]) else s
    case CheckParent(r, up) => CheckParentStep(s, r, up)
    case StoreReply(r, up) => StoreReplyStep(words, s, r, up)
    case BumpThread(r, up) => BumpThreadStep(s, r, up)
    case CountReply(r, up) => CountReplyStep(s, r, up)
    case BeginThread(r, sub, u, title, body, held, at) =>
      if r !in s.flight && MayStartThread(s.db, sub, u, title, body)
        then s.(flight := s.flight[r := ThreadChecked(sub, u, title, body, held, at)]) else s
    case StoreThread(r, up) => StoreThreadStep(s, r, up)
    case StoreOpening(r, up) => StoreOpeningStep(words, s, r, up)
    case Edit(p, body, held, u) => if u in s.db.users then s.(db := UpdatePost(words, s.db, p, body, held, u)) else s
    case SoftDelete(p, u) => if u in s.db.users then s.(db := DeletePost(words, s.db, p, u)) else s
    case Lock(t, locked) => s.(db := LockThread(s.db, t, locked))
    case MarkRead(u, t, at) => s.(db := MarkThreadRead(s.db, u, t, at))
    case Register => PutUser(s, NextId(s.db.users.Keys), NewUser())
    case SetBan(u, banned) => if u in s.db.users then PutUser(s, u, s.db.users[u].(banned := banned)) else s
    case SetModerator(u, moderator) =>
      if u in s.db.users then PutUser(s, u, s.db.users[u].(moderator := moderator)) else s
    case HardDelete(t) => HardDeleteStep(words, s, t)
  }

  // ----- What a label leaves alone -----

  /** The checks of a request. */
  predicate IsCheck(l: Label) {
    l.BeginReply? || l.CheckParent? || l.BeginThread?
  }

  predicate IsThreadStep(l: Label) {
    l.BumpThread? || l.StoreThread? || l.Lock?
  }

  predicate IsUserStep(l: Label) {
    l.CountReply? || l.Register? || l.SetBan? || l.SetModerator?
  }

  predicate IsPostStep(l: Label) {
    l.StoreReply? || l.StoreOpening? || l.Edit? || l.SoftDelete?
  }

  lemma ChecksLeaveTables(words: Tokenizer, s: System, l: Label)
    requires IsCheck(l)
    ensures Step(words, s, l) == s.(flight := Step(words, s, l).flight)
  {
    if l.CheckParent? {
      assert Step(words, s, l) == CheckParentStep(s, l.r, l.up);
    }
  }

  lemma ThreadStepsLeave(words: Tokenizer, s: System, l: Label)
    requires IsThreadStep(l)
    ensures LeavesAllButThreads(s, Step(words, s, l))
  {
    if l.BumpThread? {
      BumpLeaves(s, l.r, l.up);
    } else if l.StoreThread? {
      StoreThreadLeaves(s, l.r, l.up);
    }
  }

  ghost predicate LeavesAllButThreads(s: System, next: System) {
    && next.db == s.db.(threads := next.db.threads) && s.db.threads.Keys <= next.db.threads.Keys
    && next == s.(db := next.db, flight := next.flight, lostBumps := next.lostBumps)
  }

  lemma BumpLeaves(s: System, r: nat, up: bool)
    ensures LeavesAllButThreads(s, BumpThreadStep(s, r, up))
  {
  }

  lemma StoreThreadLeaves(s: System, r: nat, up: bool)
    ensures LeavesAllButThreads(s, StoreThreadStep(s, r, up))
  {
  }

  /** And every thread keeps its title. */
  lemma ThreadStepsKeepTitles(words: Tokenizer, s: System, l: Label, t: Id)
    requires IsThreadStep(l) && t in s.db.threads
    ensures SameTitle(s, Step(words, s, l), t)
  {
    if l.BumpThread? {
      BumpKeepsTitle(s, l.r, l.up, t);
    } else if l.StoreThread? {
      StoreKeepsTitle(s, l.r, l.up, t);
    }
  }

  predicate SameTitle(s: System, next: System, t: Id) {
    t in s.db.threads && t in next.db.threads && next.db.threads[t].title == s.db.threads[t].title
  }

  lemma BumpKeepsTitle(s: System, r: nat, up: bool, t: Id)
    requires t in s.db.threads
    ensures SameTitle(s, BumpThreadStep(s, r, up), t)
  {
  }

  lemma StoreKeepsTitle(s: System, r: nat, up: bool, t: Id)
    requires t in s.db.threads
    ensures SameTitle(s, StoreThreadStep(s, r, up), t)
  {
  }

  lemma UserStepsLeave(words: Tokenizer, s: System, l: Label)
    requires IsUserStep(l)
    ensures var next := Step(words, s, l);
            && next.db == s.db.(users := next.db.users)
            && next == s.(db := next.db, flight := next.flight, lostCounts := next.lostCounts)
  {
    if l.CountReply? {
      assert Step(words, s, l) == CountReplyStep(s, l.r, l.up);
    }
  }

  lemma MarksLeave(words: Tokenizer, s: System, l: Label)
    requires l.MarkRead?
    ensures Step(words, s, l) == s.(db := s.db.(readMarks := Step(words, s, l).db.readMarks))
  {
  }

  lemma PostStepsLeave(words: Tokenizer, s: System, l: Label)
    requires IsPostStep(l)
    ensures LeavesAllButPosts(s, Step(words, s, l))
  {
    match l
    case StoreReply(r, up) => StoreReplyLeaves(words, s, r, up);
    case StoreOpening(r, up) => StoreOpeningLeaves(words, s, r, up);
    case Edit(p, body, held, u) => UpdateLeaves(words, s.db, p, body, held, u);
    case SoftDelete(p, u) => DeleteLeaves(words, s.db, p, u);
  }

  ghost predicate LeavesAllButPosts(s: System, next: System) {
    && next.db == s.db.(posts := next.db.posts, index := next.db.index)
    && next == s.(db := next.db, flight := next.flight, made := next.made, bare := next.bare)
  }

  lemma StoreReplyLeaves(words: Tokenizer, s: System, r: nat, up: bool)
    ensures LeavesAllButPosts(s, StoreReplyStep(words, s, r, up))
  {
  }

  lemma StoreOpeningLeaves(words: Tokenizer, s: System, r: nat, up: bool)
    ensures LeavesAllButPosts(s, StoreOpeningStep(words, s, r, up))
  {
  }

  lemma UpdateLeaves(words: Tokenizer, db: Db, p: Id, body: string, held: bool, u: Id)
    ensures var after := UpdatePost(words, db, p, body, held, u);
            after == db.(posts := after.posts, index := after.index)
  {
  }

  lemma DeleteLeaves(words: Tokenizer, db: Db, p: Id, u: Id)
    ensures var after := DeletePost(words, db, p, u); after == db.(posts := after.posts, index := after.index)
  {
  }

  lemma TablesLeaveFlight(words: Tokenizer, s: System, l: Label)
    requires l.Edit? || l.SoftDelete? || l.Lock? || l.MarkRead? || l.Register? || l.SetBan? || l.SetModerator?
             || l.HardDelete?
    ensures Step(words, s, l).flight == s.flight
  {
  }

  // ----- Runs -----

  ghost function Exec(words: Tokenizer, s: System, run: seq<Label>): System {
    if run == [] then s
    else
      var n := |run| - 1;
      Step(words, Exec(words, s, run[..n]), run[n])
  }

  lemma ExecSnoc(words: Tokenizer, s: System, run: seq<Label>, l: Label)
    ensures Exec(words, s, run + [l]) == Step(words, Exec(words, s, run), l)
  {
    assert (run + [l])[..|run|] == run;
  }

  lemma ExecTwo(words: Tokenizer, s: System, a: Label, b: Label)
    ensures Exec(words, s, [a]) == Step(words, s, a)
    ensures Exec(words, s, [a, b]) == Step(words, Step(words, s, a), b)
  {
    ExecSnoc(words, s, [], a);
    ExecSnoc(words, s, [a], b);
    assert [] + [a] == [a] && [a] + [b] == [a, b];
  }

  lemma ExecThree(words: Tokenizer, s: System, a: Label, b: Label, c: Label)
    ensures Exec(words, s, [a, b, c]) == Step(words, Step(words, Step(words, s, a), b), c)
  {
    ExecTwo(words, s, a, b);
    ExecSnoc(words, s, [a, b], c);
    assert [a, b] + [c] == [a, b, c];
  }

  lemma ExecFour(words: Tokenizer, s: System, a: Label, b: Label, c: Label, d: Label)
    ensures Exec(words, s, [a, b, c, d]) == Step(words, Step(words, Step(words, Step(words, s, a), b), c), d)
  {
    ExecThree(words, s, a, b, c);
    ExecSnoc(words, s, [a, b, c], d);
    assert [a, b, c] + [d] == [a, b, c, d];
  }

  lemma ExecFive(words: Tokenizer, s: System, a: Label, b: Label, c: Label, d: Label, e: Label)
    ensures Exec(words, s, [a, b, c, d, e])
            == Step(words, Step(words, Step(words, Step(words, Step(words, s, a), b), c), d), e)
  {
    ExecFour(words, s, a, b, c, d);
    ExecSnoc(words, s, [a, b, c, d], e);
    assert [a, b, c, d] + [e] == [a, b, c, d, e];
  }

  lemma {:induction false} ExecConcat(words: Tokenizer, s: System, a: seq<Label>, b: seq<Label>)
    ensures Exec(words, s, a + b) == Exec(words, Exec(words, s, a), b)
  {
    if b == [] {
      assert a + b == a;
    } else {
      var front, l := b[..|b| - 1], b[|b| - 1];
      LastApart(a, b);
      ExecConcat(words, s, a, front);
      ExecSnoc(words, s, a + front, l);
      ExecSnoc(words, Exec(words, s, a), front, l);
    }
  }

  lemma LastApart(a: seq<Label>, b: seq<Label>)
    requires b != []
    ensures b[..|b| - 1] + [b[|b| - 1]] == b
    ensures a + b == a + b[..|b| - 1] + [b[|b| - 1]]
  {
  }

  /** An empty forum with the given subcategories. */
  function Init(subs: set<Id>): System {
    System(Db(map[], subs, map[], map[], map[], map[]), map[], map[], map[], map[], {})
  }

  // ----- Which requests are where -----

  /** Replies stored on `t` but not yet counted there. */
  function PendingBumps(flight: map<nat, Request>, t: Id): set<nat> {
    set r | r in flight && flight[r].ReplyStored? && flight[r].thread == t
  }

  /** New-thread requests whose thread is `t` and whose opening post is still to come. */
  function PendingOpenings(flight: map<nat, Request>, t: Id): set<nat> {
    set r | r in flight && flight[r].ThreadStored? && flight[r].thread == t
  }

  /** Replies of `u` stored but not yet counted on the user row. */
  function PendingCounts(flight: map<nat, Request>, u: Id): set<nat> {
    set r | r in flight && (flight[r].ReplyStored? || flight[r].ReplyBumped?) && flight[r].user == u
  }

  /** No request has written to thread `t` and still has something to write. */
  ghost predicate Idle(s: System, t: Id) {
    PendingBumps(s.flight, t) == {} && PendingOpenings(s.flight, t) == {}
  }

  /** Threads are hard-deleted only while idle. */
  ghost predicate Guarded(words: Tokenizer, s: System, run: seq<Label>) {
    forall i :: 0 <= i < |run| && run[i].HardDelete? ==> Idle(Exec(words, s, run[..i]), run[i].thread)
  }

  lemma GuardedSnoc(words: Tokenizer, s: System, run: seq<Label>, l: Label)
    ensures Guarded(words, s, run + [l])
            <==> Guarded(words, s, run) && (l.HardDelete? ==> Idle(Exec(words, s, run), l.thread))
  {
    var longer := run + [l];
    assert longer[..|run|] == run && longer[|run|] == l;
    if Guarded(words, s, longer) {
      forall i | 0 <= i < |run| && run[i].HardDelete? ensures Idle(Exec(words, s, run[..i]), run[i].thread) {
        assert longer[..i] == run[..i] && longer[i] == run[i];
      }
    }
    if Guarded(words, s, run) && (l.HardDelete? ==> Idle(Exec(words, s, run), l.thread)) {
      forall i | 0 <= i < |longer| && longer[i].HardDelete?
        ensures Idle(Exec(words, s, longer[..i]), longer[i].thread)
      {
        if i < |run| {
          assert longer[..i] == run[..i] && longer[i] == run[i];
        }
      }
    }
  }

  lemma {:induction false} GuardedConcat(words: Tokenizer, s: System, a: seq<Label>, b: seq<Label>)
    ensures Guarded(words, s, a + b) <==> Guarded(words, s, a) && Guarded(words, Exec(words, s, a), b)
  {
    if b == [] {
      assert a + b == a;
    } else {
      var front, l := b[..|b| - 1], b[|b| - 1];
      LastApart(a, b);
      GuardedConcat(words, s, a, front);
      ExecConcat(words, s, a, front);
      GuardedSnoc(words, s, a + front, l);
      GuardedSnoc(words, Exec(words, s, a), front, l);
    }
  }
}

/** References and nesting over whole runs. */
module ForumForestRuns {
  import opened Tables
  import opened ForumDb
  import opened ForumForest
  import opened ForumRequests

  /** Every user a request speaks for exists. */
  ghost predicate UsersKnown(s: System) {
    forall r <- s.flight :: s.flight[r].user in s.db.users
  }

  ghost predicate Sound(s: System) {
    Forest(s.db) && UsersKnown(s)
  }

  lemma {:induction false} StepSound(words: Tokenizer, s: System, l: Label)
    requires Sound(s)
    ensures Sound(Step(words, s, l))
  {
    if IsCheck(l) {
      RequestSound(words, s, l);
    } else if IsUserStep(l) {
      UserStepSound(words, s, l);
    } else if IsPostStep(l) {
      PostStepSound(words, s, l);
    } else {
      match l
      case BumpThread(r, up) => BumpThreadSound(s, r, up);
      case StoreThread(r, up) => StoreThreadSound(s, r, up);
      case HardDelete(t) => HardDeleteSound(words, s, t);
      case Lock(t, locked) => LockThreadKeepsForest(s.db, t, locked);
      case MarkRead(u, t, at) => MarkThreadReadKeepsForest(s.db, u, t, at);
    }
  }

  lemma UserStepSound(words: Tokenizer, s: System, l: Label)
    requires Sound(s) && IsUserStep(l)
    ensures Sound(Step(words, s, l))
  {
    match l
    case CountReply(r, up) => CountReplySound(s, r, up);
    case Register => PutUserSound(s, NextId(s.db.users.Keys), NewUser());
    case SetBan(u, banned) => if u in s.db.users { PutUserSound(s, u, s.db.users[u].(banned := banned)); }
    case SetModerator(u, moderator) =>
      if u in s.db.users { PutUserSound(s, u, s.db.users[u].(moderator := moderator)); }
  }

  lemma PostStepSound(words: Tokenizer, s: System, l: Label)
    requires Sound(s) && IsPostStep(l)
    ensures Sound(Step(words, s, l))
  {
    match l
    case StoreReply(r, up) => StoreReplySound(words, s, r, up);
    case StoreOpening(r, up) => StoreOpeningSound(words, s, r, up);
    case Edit(p, body, held, u) => if u in s.db.users { EditSound(words, s, p, body, held, u); }
    case SoftDelete(p, u) => if u in s.db.users { SoftDeleteSound(words, s, p, u); }
  }

  lemma RequestSound(words: Tokenizer, s: System, l: Label)
    requires Sound(s) && (l.BeginReply? || l.BeginThread? || l.CheckParent?)
    ensures Sound(Step(words, s, l))
  {
  }

  lemma PutUserSound(s: System, u: Id, row: User)
    requires Sound(s)
    ensures Sound(PutUser(s, u, row))
  {
    PutUserKeepsForest(s.db, u, row);
  }

  lemma SoundAfter(s: System, db: Db)
    requires Sound(s) && Forest(db) && db.users == s.db.users
    ensures Sound(s.(db := db))
  {
  }

  lemma EditSound(words: Tokenizer, s: System, p: Id, body: string, held: bool, u: Id)
    requires Sound(s) && u in s.db.users
    ensures Sound(s.(db := UpdatePost(words, s.db, p, body, held, u)))
  {
    UpdatePostKeepsForest(words, s.db, p, body, held, u);
    SoundAfter(s, UpdatePost(words, s.db, p, body, held, u));
  }

  lemma SoftDeleteSound(words: Tokenizer, s: System, p: Id, u: Id)
    requires Sound(s) && u in s.db.users
    ensures Sound(s.(db := DeletePost(words, s.db, p, u)))
  {
    DeletePostKeepsForest(words, s.db, p, u);
    SoundAfter(s, DeletePost(words, s.db, p, u));
  }

  lemma HardDeleteSound(words: Tokenizer, s: System, t: Id)
    requires Sound(s)
    ensures Sound(HardDeleteStep(words, s, t))
  {
    DeleteThreadKeepsForest(words, s.db, t);
  }

  lemma StoreReplySound(words: Tokenizer, s: System, r: nat, up: bool)
    requires Sound(s)
    ensures Sound(StoreReplyStep(words, s, r, up))
  {
    if r in s.flight && s.flight[r].ReplyPassed? {
      var p := PostOf(s.flight[r]);
      if InsertPost(words, s.db, p).Ok? {
        InsertPostKeepsForest(words, s.db, p);
      }
    }
  }

  lemma BumpThreadSound(s: System, r: nat, up: bool)
    requires Sound(s)
    ensures Sound(BumpThreadStep(s, r, up))
  {
    if r in s.flight && s.flight[r].ReplyStored? {
      var q := s.flight[r];
      UpdateLastPostKeepsForest(s.db, q.thread, q.user, q.at);
    }
  }

  lemma CountReplySound(s: System, r: nat, up: bool)
    requires Sound(s)
    ensures Sound(CountReplyStep(s, r, up))
  {
    if r in s.flight && s.flight[r].ReplyBumped? {
      var u := s.flight[r].user;
      PutUserKeepsForest(s.db, u, s.db.users[u].(postCount := s.db.users[u].postCount + 1));
    }
  }

  lemma StoreThreadSound(s: System, r: nat, up: bool)
    requires Sound(s)
    ensures Sound(StoreThreadStep(s, r, up))
  {
    if r in s.flight && s.flight[r].ThreadChecked? {
      var q := s.flight[r];
      if CreateThread(s.db, q.sub, q.user, q.title, q.at).Ok? {
        CreateThreadKeepsForest(s.db, q.sub, q.user, q.title, q.at);
      }
    }
  }

  lemma StoreOpeningSound(words: Tokenizer, s: System, r: nat, up: bool)
    requires Sound(s)
    ensures Sound(StoreOpeningStep(words, s, r, up))
  {
    if r in s.flight && s.flight[r].ThreadStored? {
      var p := PostOf(s.flight[r]);
      if InsertPost(words, s.db, p).Ok? {
        InsertPostKeepsForest(words, s.db, p);
      }
    }
  }

  lemma {:induction false} ExecSound(words: Tokenizer, s: System, run: seq<Label>)
    requires Sound(s)
    ensures Sound(Exec(words, s, run))
  {
    if run != [] {
      var n := |run| - 1;
      ExecSound(words, s, run[..n]);
      StepSound(words, Exec(words, s, run[..n]), run[n]);
    }
  }

  /** In every run, whatever is deleted under whatever is in flight, all references resolve and no
      parent is younger than its reply. */
  lemma {:induction false} ForestAlways(words: Tokenizer, subs: set<Id>, run: seq<Label>)
    ensures Forest(Exec(words, Init(subs), run).db)
  {
    ExecSound(words, Init(subs), run);
  }

  // ----- Steps that leave the shape of the posts alone -----

  /** The step inserts this post. */
  ghost predicate Inserts(words: Tokenizer, s: System, l: Label, p: Post) {
    && ((l.StoreReply? && l.r in s.flight && s.flight[l.r].ReplyPassed?)
       || (l.StoreOpening? && l.r in s.flight && s.flight[l.r].ThreadStored?))
    && l.up && p == PostOf(s.flight[l.r]) && InsertPost(words, s.db, p).Ok?
  }

  lemma InsertsOnly(words: Tokenizer, s: System, l: Label, p: Post)
    requires Inserts(words, s, l, p)
    ensures Step(words, s, l).db == InsertPost(words, s.db, p).value.0
  {
    if l.StoreReply? {
      assert StoreReplyStep(words, s, l.r, true).db == InsertPost(words, s.db, p).value.0;
    } else {
      assert StoreOpeningStep(words, s, l.r, true).db == InsertPost(words, s.db, p).value.0;
    }
  }

  /** Parents stay older, and nesting within its bound, if they were. */
  ghost predicate ShapeKept(before: map<Id, Post>, after: map<Id, Post>) {
    (ParentsOlder(before) ==> ParentsOlder(after)) && (Shallow(before) ==> Shallow(after))
  }

  lemma {:induction false} OtherStepsKeepShape(words: Tokenizer, s: System, l: Label)
    requires Sound(s) && forall p :: !Inserts(words, s, l, p)
    ensures ShapeKept(s.db.posts, Step(words, s, l).db.posts)
  {
    if IsPostStep(l) {
      match l
      case StoreReply(r, up) => NothingStored(words, s, l);
      case StoreOpening(r, up) => NothingStored(words, s, l);
      case Edit(p, body, held, u) => if u in s.db.users { UpdateShape(words, s, p, body, held, u); }
      case SoftDelete(p, u) => if u in s.db.users { SoftDeleteShape(words, s, p, u); }
    } else if l.HardDelete? {
      HardDeleteShape(words, s, l.thread);
    } else {
      OthersLeavePosts(words, s, l);
    }
  }

  lemma UpdateShape(words: Tokenizer, s: System, p: Id, body: string, held: bool, u: Id)
    requires Sound(s) && u in s.db.users
    ensures ShapeKept(s.db.posts, UpdatePost(words, s.db, p, body, held, u).posts)
  {
    UpdatePostKeepsForest(words, s.db, p, body, held, u);
  }

  lemma SoftDeleteShape(words: Tokenizer, s: System, p: Id, u: Id)
    requires Sound(s) && u in s.db.users
    ensures ShapeKept(s.db.posts, DeletePost(words, s.db, p, u).posts)
  {
    DeletePostKeepsForest(words, s.db, p, u);
  }

  lemma HardDeleteShape(words: Tokenizer, s: System, t: Id)
    ensures ShapeKept(s.db.posts, HardDeleteStep(words, s, t).db.posts)
  {
    DeleteThreadKeepsShape(words, s.db, t);
  }

  lemma NothingStored(words: Tokenizer, s: System, l: Label)
    requires (l.StoreReply? || l.StoreOpening?) && forall p :: !Inserts(words, s, l, p)
    ensures Step(words, s, l).db == s.db
  {
    if l.r in s.flight && (s.flight[l.r].ReplyPassed? || s.flight[l.r].ThreadStored?) {
      assert !Inserts(words, s, l, PostOf(s.flight[l.r]));
    }
  }

  lemma OthersLeavePosts(words: Tokenizer, s: System, l: Label)
    requires !l.StoreReply? && !l.StoreOpening? && !l.Edit? && !l.SoftDelete? && !l.HardDelete?
    ensures Step(words, s, l).db.posts == s.db.posts && Step(words, s, l).db.index == s.db.index
  {
    if IsCheck(l) {
      ChecksLeaveTables(words, s, l);
    } else if IsThreadStep(l) {
      ThreadStepsLeave(words, s, l);
    } else if IsUserStep(l) {
      UserStepsLeave(words, s, l);
    } else {
      MarksLeave(words, s, l);
    }
  }

  // ----- Parents strictly older -----

  /** The step stores a reply that names the id it gets. */
  ghost predicate StoresItself(words: Tokenizer, s: System, l: Label) {
    exists p :: Inserts(words, s, l, p) && p.parent == Some(NextId(s.db.posts.Keys))
  }

  lemma {:induction false} StepKeepsOlderIff(words: Tokenizer, s: System, l: Label)
    requires Sound(s) && ParentsOlder(s.db.posts)
    ensures ParentsOlder(Step(words, s, l).db.posts) <==> !StoresItself(words, s, l)
  {
    if p :| Inserts(words, s, l, p) {
      InsertsOnly(words, s, l, p);
      InsertPostKeepsOlderIff(words, s.db, p);
    } else {
      OtherStepsKeepShape(words, s, l);
    }
  }

  /** A stored reply names itself exactly when its thread exists and it named the id it is about to get. */
  lemma {:induction false} StoresItselfIff(words: Tokenizer, s: System, r: nat, up: bool)
    requires Sound(s)
    ensures StoresItself(words, s, StoreReply(r, up))
       <==> up && r in s.flight && s.flight[r].ReplyPassed? && s.flight[r].parent == Some(NextId(s.db.posts.Keys))
            && s.flight[r].thread in s.db.threads
  {
    if up && r in s.flight && s.flight[r].ReplyPassed? && s.flight[r].parent == Some(NextId(s.db.posts.Keys))
       && s.flight[r].thread in s.db.threads
    {
      assert Inserts(words, s, StoreReply(r, up), PostOf(s.flight[r]));
    }
  }

  // ----- What holds all along a run -----

  ghost predicate Throughout(words: Tokenizer, s: System, run: seq<Label>, holds: System -> bool) {
    forall i :: 0 <= i <= |run| ==> holds(Exec(words, s, run[..i]))
  }

  ghost predicate Never(words: Tokenizer, s: System, run: seq<Label>, breaks: (System, Label) -> bool) {
    forall i :: 0 <= i < |run| ==> !breaks(Exec(words, s, run[..i]), run[i])
  }

  lemma ThroughoutSnoc(words: Tokenizer, s: System, run: seq<Label>, l: Label, holds: System -> bool)
    ensures Throughout(words, s, run + [l], holds)
            <==> Throughout(words, s, run, holds) && holds(Exec(words, s, run + [l]))
  {
    var longer := run + [l];
    assert longer[..|run| + 1] == longer;
    forall i | 0 <= i <= |run| ensures longer[..i] == run[..i] {
    }
    if Throughout(words, s, longer, holds) {
      forall i | 0 <= i <= |run| ensures holds(Exec(words, s, run[..i])) {
        assert holds(Exec(words, s, longer[..i]));
      }
    }
  }

  lemma NeverSnoc(words: Tokenizer, s: System, run: seq<Label>, l: Label, breaks: (System, Label) -> bool)
    ensures Never(words, s, run + [l], breaks) <==> Never(words, s, run, breaks) && !breaks(Exec(words, s, run), l)
  {
    var longer := run + [l];
    assert longer[..|run|] == run && longer[|run|] == l;
    forall i | 0 <= i < |run| ensures longer[..i] == run[..i] && longer[i] == run[i] {
    }
    if Never(words, s, longer, breaks) {
      forall i | 0 <= i < |run| ensures !breaks(Exec(words, s, run[..i]), run[i]) {
        assert !breaks(Exec(words, s, longer[..i]), longer[i]);
      }
    }
  }

  /** What each step keeps exactly when it does not break it holds all along a run exactly when no step
      of the run breaks it. */
  lemma {:induction false} ThroughoutIffNever(words: Tokenizer, s: System, run: seq<Label>, holds: System -> bool,
                                              breaks: (System, Label) -> bool)
    requires Sound(s) && holds(s)
    requires forall z, l :: Sound(z) && holds(z) ==> (holds(Step(words, z, l)) <==> !breaks(z, l))
    ensures Throughout(words, s, run, holds) <==> Never(words, s, run, breaks)
  {
    if run == [] {
      assert run[..0] == [];
    } else {
      var front, l := run[..|run| - 1], run[|run| - 1];
      LastApart([], run);
      ThroughoutIffNever(words, s, front, holds, breaks);
      ThroughoutSnoc(words, s, front, l, holds);
      NeverSnoc(words, s, front, l, breaks);
      ExecSound(words, s, front);
      ExecSnoc(words, s, front, l);
      if Throughout(words, s, front, holds) {
        assert front[..|front|] == front;
        assert holds(Exec(words, s, front));
      }
    }
  }

  /** Parents are strictly older after every step of a run, so that the reply relation is a forest
      throughout, exactly when no step of the run stores a reply that names itself. */
  lemma {:induction false} OlderAlwaysIff(words: Tokenizer, subs: set<Id>, run: seq<Label>)
    ensures Throughout(words, Init(subs), run, (s: System) => ParentsOlder(s.db.posts))
       <==> Never(words, Init(subs), run, (s: System, l: Label) => StoresItself(words, s, l))
  {
    var holds := (s: System) => ParentsOlder(s.db.posts);
    var breaks := (s: System, l: Label) => StoresItself(words, s, l);
    forall s, l | Sound(s) && holds(s) ensures holds(Step(words, s, l)) <==> !breaks(s, l) {
      StepKeepsOlderIff(words, s, l);
    }
    ThroughoutIffNever(words, Init(subs), run, holds, breaks);
  }

  // ----- The bound on nesting -----

  /** The step stores a reply whose parent is at depth two or more by then. */
  ghost predicate LandsTooDeep(words: Tokenizer, s: System, l: Label) {
    exists p :: Inserts(words, s, l, p) && p.parent.Some? && p.parent.value in s.db.posts
      && Depth(s.db.posts, p.parent.value) >= 2
  }

  lemma {:induction false} StepKeepsShallowIff(words: Tokenizer, s: System, l: Label)
    requires Sound(s) && Shallow(s.db.posts)
    ensures Shallow(Step(words, s, l).db.posts) <==> !LandsTooDeep(words, s, l)
  {
    if p :| Inserts(words, s, l, p) {
      InsertsOnly(words, s, l, p);
      InsertPostKeepsShallowIff(words, s.db, p);
    } else {
      OtherStepsKeepShape(words, s, l);
    }
  }

  /** No post is nested more than twice all along a run exactly when no step of the run stores a reply
      whose parent is at depth two by then. */
  lemma {:induction false} ShallowAlwaysIff(words: Tokenizer, subs: set<Id>, run: seq<Label>)
    ensures Throughout(words, Init(subs), run, (s: System) => Shallow(s.db.posts))
       <==> Never(words, Init(subs), run, (s: System, l: Label) => LandsTooDeep(words, s, l))
  {
    var holds := (s: System) => Shallow(s.db.posts);
    var breaks := (s: System, l: Label) => LandsTooDeep(words, s, l);
    forall s, l | Sound(s) && holds(s) ensures holds(Step(words, s, l)) <==> !breaks(s, l) {
      StepKeepsShallowIff(words, s, l);
    }
    ThroughoutIffNever(words, Init(subs), run, holds, breaks);
  }
}
