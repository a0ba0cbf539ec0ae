/** Whole requests, served one at a time: the store calls of internal/handler/{post,thread,moderation}.go
    in their order. */
module ForumHandlers {
  import opened Tables
  import opened ForumDb
  import opened ForumRequests

  datatype Reply = Refused | NotFound | Empty | StoreError | Posted(id: Id)

  /** ReplyToThread: insert the post, then count it on the thread, then on the user. */
  ghost function Replied(words: Tokenizer, db: Db, t: Id, u: Id, parent: Option<Id>, body: string, held: bool,
                         at: Stamp): (Db, Reply) {
    if u !in db.users || db.users[u].banned then (db, Refused)
    else if t !in db.threads then (db, NotFound)
    else if db.threads[t].locked && !db.users[u].moderator then (db, Refused)
    else if body == "" then (db, Empty)
    else
      var stored := CreatePost(words, db, NewPost(t, u, parent, body, held));
      if stored.Failed? then (db, StoreError)
      else (IncrementPostCount(UpdateLastPost(stored.value.0, t, u, at), u), Posted(stored.value.1))
  }

  datatype Started = NotStarted | Incomplete | Thread(id: Id)

  /** CreateThread: the thread row, then its opening post.  No counter is touched. */
  ghost function ThreadStarted(words: Tokenizer, db: Db, sub: Id, u: Id, title: string, body: string, held: bool,
                               at: Stamp): (Db, Started) {
    if !MayStartThread(db, sub, u, title, body) then (db, NotStarted)
    else
      var row := CreateThread(db, sub, u, title, at);
      if row.Failed? then (db, NotStarted)
      else
        var (with, t) := row.value;
        var stored := CreatePost(words, with, NewPost(t, u, None, body, held));
        if stored.Failed? then (with, Incomplete) else (stored.value.0, Started.Thread(t))
  }

  /** ThreadPage: a full page load by a signed-in user marks the thread read; a partial one does not. */
  function PageOpened(db: Db, t: Id, viewer: Option<Id>, full: bool, at: Stamp): Db {
    if t in db.threads && full && viewer.Some? then MarkThreadRead(db, viewer.value, t, at) else db
  }

  /** The references of a reply resolve, itself included, and its parent is not nested twice. */
  ghost predicate MayAnswer(db: Db, parent: Option<Id>) {
    parent.Some? ==>
      && (parent.value in db.posts || parent.value == NextId(db.posts.Keys))
      && !TooDeep(db.posts, parent.value)
  }

  /** A reply is posted exactly by a known user who is not banned, with a text, in a thread that is there and open
      to them, to a post that may be answered; then there is one more post as asked for, the thread has one more
      reply and shows it as the last, the user has one more post, and nothing else has changed but the index.
      Otherwise nothing has changed. */
  lemma {:induction false} ReplyExact(words: Tokenizer, db: Db, t: Id, u: Id, parent: Option<Id>, body: string,
                                      held: bool, at: Stamp)
    ensures var (after, answer) := Replied(words, db, t, u, parent, body, held, at);
            var p := NextId(db.posts.Keys);
            && (answer.Posted? <==>
                  && u in db.users && !db.users[u].banned && t in db.threads && body != ""
                  && (!db.threads[t].locked || db.users[u].moderator) && MayAnswer(db, parent))
            && (!answer.Posted? ==> after == db)
            && (answer.Posted? ==>
                  && answer == Posted(p) && after.posts == db.posts[p := Post(t, u, parent, body, held, false, 0, None)]
                  && ReplyCounted(db, after, t, u, at) && after.subs == db.subs && after.readMarks == db.readMarks)
  {
    RepliedIf(words, db, t, u, parent, body, held, at);
  }

  predicate ReplyCounted(db: Db, after: Db, t: Id, u: Id, at: Stamp) {
    && t in db.threads && u in db.users
    && (var row := db.threads[t];
        after.threads == db.threads[t := ForumDb.Thread(row.sub, row.author, row.title, row.locked, row.replyCount + 1,
          at,
          Some(u))])
    && (var user := db.users[u];
        after.users == db.users[u := User(user.postCount + 1, user.banned, user.moderator)])
  }

  /** A thread is started exactly by a known user who is not banned, in a subcategory, with a title of 1 to 200
      characters and a text; then there is a thread with an opening post, and nobody's posts are counted.  With no
      failing call a thread is never left without its opening post. */
  lemma {:induction false} StartExact(words: Tokenizer, db: Db, sub: Id, u: Id, title: string, body: string, held: bool,
                                      at: Stamp)
    ensures var (after, answer) := ThreadStarted(words, db, sub, u, title, body, held, at);
            var t, p := NextId(db.threads.Keys), NextId(db.posts.Keys);
            && (answer == Started.Thread(t) <==>
                  u in db.users && !db.users[u].banned && sub in db.subs && 1 <= |title| <= 200 && body != "")
            && (answer == Started.Thread(t) || (answer == NotStarted && after == db))
            && (answer == Started.Thread(t) ==>
                  && after.threads == db.threads[t := ForumDb.Thread(sub, u, title, false, 0, at, Some(u))]
                  && after.posts == db.posts[p := Post(t, u, None, body, held, false, 0, None)]
                  && after.users == db.users && after.subs == db.subs && after.readMarks == db.readMarks)
  {
  }

  /** A reply served alone is the interleaved request with nothing in between. */
  lemma {:induction false} ReplyIsItsSteps(words: Tokenizer, s: System, r: nat, t: Id, u: Id, parent: Option<Id>,
                                           body: string, held: bool, at: Stamp)
    requires r !in s.flight
    ensures Exec(words, s, [BeginReply(r, t, u, parent, body, held, at), CheckParent(r, true), StoreReply(r, true),
            BumpThread(r, true), CountReply(r, true)]).db
         == Replied(words, s.db, t, u, parent, body, held, at).0
  {
    ReplySteps(words, s, r, BeginReply(r, t, u, parent, body, held, at));
    RepliedIf(words, s.db, t, u, parent, body, held, at);
    BeginsIf(words, s, r, t, u, parent, body, held, at);
    if MayReply(s.db, t, u, body) {
      BegunReply(words, s.(flight := s.flight[r := ReplyChecked(t, u, parent, body, held, at)]), r);
    } else {
      NoRequest(words, s, r);
    }
  }

  lemma ReplySteps(words: Tokenizer, s: System, r: nat, first: Label)
    ensures Exec(words, s, [first, CheckParent(r, true), StoreReply(r, true), BumpThread(r, true), CountReply(r, true)])
         == AfterCheck(words, CheckParentStep(Step(words, s, first), r, true), r)
  {
    ExecFive(words, s, first, CheckParent(r, true), StoreReply(r, true), BumpThread(r, true), CountReply(r, true));
  }

  /** The statements of a reply from the insert on. */
  ghost function AfterCheck(words: Tokenizer, s: System, r: nat): System {
    CountReplyStep(BumpThreadStep(StoreReplyStep(words, s, r, true), r, true), r, true)
  }

  lemma RepliedIf(words: Tokenizer, db: Db, t: Id, u: Id, parent: Option<Id>, body: string, held: bool, at: Stamp)
    ensures var stored := CreatePost(words, db, NewPost(t, u, parent, body, held));
            Replied(words, db, t, u, parent, body, held, at).0 ==
              if !MayReply(db, t, u, body) || stored.Failed? then db
              else IncrementPostCount(UpdateLastPost(stored.value.0, t, u, at), u)
  {
  }

  lemma BeginsIf(words: Tokenizer, s: System, r: nat, t: Id, u: Id, parent: Option<Id>, body: string, held: bool,
                 at: Stamp)
    requires r !in s.flight
    ensures Step(words, s, BeginReply(r, t, u, parent, body, held, at))
         == if MayReply(s.db, t, u, body) then s.(flight := s.flight[r := ReplyChecked(t, u, parent, body, held, at)])
            else s
  {
  }

  lemma NoRequest(words: Tokenizer, s: System, r: nat)
    requires r !in s.flight
    ensures AfterCheck(words, CheckParentStep(s, r, true), r) == s
  {
  }

  /** From the checks of the handler on. */
  lemma BegunReply(words: Tokenizer, s: System, r: nat)
    requires r in s.flight && s.flight[r].ReplyChecked?
    ensures var q := s.flight[r];
            var stored := CreatePost(words, s.db, NewPost(q.thread, q.user, q.parent, q.body, q.held));
            AfterCheck(words, CheckParentStep(s, r, true), r).db
            == if stored.Failed? then s.db
               else IncrementPostCount(UpdateLastPost(stored.value.0, q.thread, q.user, q.at), q.user)
  {
    var q := s.flight[r];
    var checked := CheckParentStep(s, r, true);
    if CheckPasses(s.db.posts, q.parent) {
      PassedReply(words, checked, r);
    } else {
      assert r !in checked.flight;
    }
  }

  lemma PassedReply(words: Tokenizer, s: System, r: nat)
    requires r in s.flight && s.flight[r].ReplyPassed?
    ensures var q := s.flight[r];
            var stored := InsertPost(words, s.db, PostOf(q));
            AfterCheck(words, s, r).db
            == if stored.Failed? then s.db
               else IncrementPostCount(UpdateLastPost(stored.value.0, q.thread, q.user, q.at), q.user)
  {
    if InsertPost(words, s.db, PostOf(s.flight[r])).Failed? {
      assert r !in StoreReplyStep(words, s, r, true).flight;
    }
  }

  /** So is a new thread. */
  lemma {:induction false} ThreadIsItsSteps(words: Tokenizer, s: System, r: nat, sub: Id, u: Id, title: string,
                                            body: string, held: bool, at: Stamp)
    requires r !in s.flight
    ensures Exec(words, s, [BeginThread(r, sub, u, title, body, held, at), StoreThread(r, true),
            StoreOpening(r, true)]).db
         == ThreadStarted(words, s.db, sub, u, title, body, held, at).0
  {
    var first := BeginThread(r, sub, u, title, body, held, at);
    ExecThree(words, s, first, StoreThread(r, true), StoreOpening(r, true));
    var begun := Step(words, s, first);
    if MayStartThread(s.db, sub, u, title, body) {
      BegunThread(words, begun, r);
    }
  }

  lemma BegunThread(words: Tokenizer, s: System, r: nat)
    requires r in s.flight && s.flight[r].ThreadChecked?
    ensures var q := s.flight[r];
            var row := CreateThread(s.db, q.sub, q.user, q.title, q.at);
            StoreOpeningStep(words, StoreThreadStep(s, r, true), r, true).db ==
            if row.Failed? then s.db
            else
              var (with, t) := row.value;
              var stored := CreatePost(words, with, NewPost(t, q.user, None, q.body, q.held));
              if stored.Failed? then with else stored.value.0
  {
    if CreateThread(s.db, s.flight[r].sub, s.flight[r].user, s.flight[r].title, s.flight[r].at).Failed? {
      assert r !in StoreThreadStep(s, r, true).flight;
    }
  }
}

/** Unread marks: what a listing says about a thread against what the viewer has seen. */
module Unread {
  import opened Tables
  import opened ForumDb
  import opened ForumRequests
  import opened ForumHandlers
  import opened Timestamps

  datatype Act =
    | Start(sub: Id, user: Id, title: string, body: string, held: bool, at: Moment)
    | Answer(thread: Id, user: Id, parent: Option<Id>, body: string, held: bool, at: Moment)
    | Open(thread: Id, viewer: Option<Id>, full: bool, at: Moment)
    | Remove(thread: Id, at: Moment)
    | Close(thread: Id, locked: bool, at: Moment)
    | Join(at: Moment)
    | Judge(user: Id, banned: bool, moderator: bool, at: Moment)

  ghost function Serve(words: Tokenizer, db: Db, a: Act): Db {
    match a
    case Start(sub, u, title, body, held, at) => ThreadStarted(words, db, sub, u, title, body, held, Text(at)).0
    case Answer(t, u, parent, body, held, at) => Replied(words, db, t, u, parent, body, held, Text(at)).0
    case Open(t, viewer, full, at) => PageOpened(db, t, viewer, full, Text(at))
    case Remove(t, _) => DeleteThread(words, db, t)
    case Close(t, locked, _) => LockThread(db, t, locked)
    case Join(_) => db.(users := db.users[NextId(db.users.Keys) := NewUser()])
    case Judge(u, banned, moderator, _) =>
      if u in db.users then db.(users := db.users[u := db.users[u].(banned := banned, moderator := moderator)]) else db
  }

  ghost function After(words: Tokenizer, db: Db, acts: seq<Act>): Db {
    if acts == [] then db else Serve(words, After(words, db, acts[..|acts| - 1]), acts[|acts| - 1])
  }

  /** What a request really did. */
  datatype Fact =
    | Began(thread: Id, at: Moment)
    | Answered(thread: Id, at: Moment)
    | Seen(thread: Id, viewer: Id, at: Moment)
    | Removed(thread: Id, at: Moment)
    | Nothing(at: Moment)

  ghost function FactOf(words: Tokenizer, db: Db, a: Act): (f: Fact)
    ensures f.at == a.at
  {
    match a
    case Start(sub, u, title, body, held, at) =>
      if MayStartThread(db, sub, u, title, body) then Began(NextId(db.threads.Keys), at) else Nothing(at)
    case Answer(t, u, parent, body, held, at) =>
      if Replied(words, db, t, u, parent, body, held, Text(at)).1.Posted? then Answered(t, at) else Nothing(at)
    case Open(t, viewer, full, at) =>
      if t in db.threads && full && viewer.Some? && viewer.value in db.users then Seen(t, viewer.value, at)
        else Nothing(at)
    case Remove(t, at) => Removed(t, at)
    case Close(_, _, at) => Nothing(at)
    case Join(at) => Nothing(at)
    case Judge(_, _, _, at) => Nothing(at)
  }

  ghost function Facts(words: Tokenizer, db: Db, acts: seq<Act>): (facts: seq<Fact>)
    ensures |facts| == |acts|
  {
    if acts == [] then []
    else
      var n := |acts| - 1;
      Facts(words, db, acts[..n]) + [FactOf(words, After(words, db, acts[..n]), acts[n])]
  }

  lemma {:induction false} FactTimes(words: Tokenizer, db: Db, acts: seq<Act>)
    ensures forall i :: 0 <= i < |acts| ==> Facts(words, db, acts)[i].at == acts[i].at
  {
    if acts != [] {
      var n := |acts| - 1;
      var front := Facts(words, db, acts[..n]);
      FactTimes(words, db, acts[..n]);
      forall i | 0 <= i < n ensures front[i].at == acts[i].at {
        assert acts[..n][i] == acts[i];
      }
    }
  }

  /** The flag of the listing query. */
  predicate ListedUnread(db: Db, viewer: Id, t: Id)
    requires t in db.threads
  {
    if viewer == 0 then false
    else if (viewer, t) !in db.readMarks then true
    else TextLess(db.readMarks[(viewer, t)], db.threads[t].lastPostAt)
  }

  // ----- What the facts say -----

  /** The fact starts the life of thread `t` over. */
  predicate Resets(f: Fact, t: Id) {
    (f.Began? || f.Removed?) && f.thread == t
  }

  /** Fact `i` belongs to the present life of thread `t`: a thread id may be used again after a removal. */
  ghost predicate Current(facts: seq<Fact>, i: nat, t: Id) {
    i < |facts| && forall k :: i < k < |facts| ==> !Resets(facts[k], t)
  }

  /** What counts as a post of the thread, and what as an opening of it by a viewer. */
  datatype Kind = Posts | OpeningsBy(viewer: Id)

  predicate Is(f: Fact, kind: Kind, t: Id) {
    match kind
    case Posts => (f.Began? || f.Answered?) && f.thread == t
    case OpeningsBy(viewer) => f.Seen? && f.thread == t && f.viewer == viewer
  }

  /** The viewer has opened the thread as a full page, and no post is in a later second than that. */
  ghost predicate UpToDate(facts: seq<Fact>, viewer: Id, t: Id)
    requires forall i :: 0 <= i < |facts| ==> IsTime(facts[i].at)
  {
    exists k :: 0 <= k < |facts| && Current(facts, k, t) && Is(facts[k], OpeningsBy(viewer), t)
      && forall j :: 0 <= j < |facts| && Current(facts, j, t) && Is(facts[j], Posts, t) ==>
           Second(facts[j].at) <= Second(facts[k].at)
  }

  // ----- The last post and the last opening -----

  function Last(facts: seq<Fact>, kind: Kind, t: Id): Option<Moment> {
    if facts == [] then None
    else
      var f := facts[|facts| - 1];
      if Is(f, kind, t) then Some(f.at)
      else if Resets(f, t) then None
      else Last(facts[..|facts| - 1], kind, t)
  }

  /** The thread row holds the last post. */
  ghost predicate TracksPosts(db: Db, facts: seq<Fact>, t: Id) {
    t in db.threads ==> Last(facts, Posts, t).Some? && db.threads[t].lastPostAt == Text(Last(facts, Posts, t).value)
  }

  /** The read mark holds the last opening. */
  ghost predicate TracksReads(db: Db, facts: seq<Fact>, viewer: Id, t: Id) {
    && ((viewer, t) in db.readMarks <==> Last(facts, OpeningsBy(viewer), t).Some?)
    && ((viewer, t) in db.readMarks
        ==> t in db.threads && db.readMarks[(viewer, t)] == Text(Last(facts, OpeningsBy(viewer), t).value))
  }

  lemma LastSnoc(facts: seq<Fact>, f: Fact, kind: Kind, t: Id)
    ensures Last(facts + [f], kind, t) == if Is(f, kind, t) then Some(f.at) else if Resets(f, t) then None
            else Last(facts, kind, t)
  {
    assert (facts + [f])[..|facts|] == facts;
  }

  /** What the posting requests do to threads and read marks. */
  lemma StartEffect(words: Tokenizer, db: Db, sub: Id, u: Id, title: string, body: string, held: bool, at: Stamp)
    ensures var after := ThreadStarted(words, db, sub, u, title, body, held, at).0;
            && after.readMarks == db.readMarks
            && (if MayStartThread(db, sub, u, title, body)
                then after.threads.Keys == db.threads.Keys + {NextId(db.threads.Keys)}
                  && after.threads[NextId(db.threads.Keys)].lastPostAt == at
                  && (forall t <- db.threads :: after.threads[t] == db.threads[t])
                else after == db)
  {
  }

  lemma AnswerEffect(words: Tokenizer, db: Db, t: Id, u: Id, parent: Option<Id>, body: string, held: bool, at: Stamp)
    ensures var r := Replied(words, db, t, u, parent, body, held, at);
            && r.0.readMarks == db.readMarks && r.0.threads.Keys == db.threads.Keys
            && (forall x <- db.threads :: x != t || !r.1.Posted? ==> r.0.threads[x] == db.threads[x])
            && (r.1.Posted? ==> t in db.threads && r.0.threads[t].lastPostAt == at)
  {
    var p := NewPost(t, u, parent, body, held);
    if MayReply(db, t, u, body) && CreatePost(words, db, p).Ok? {
      var stored := CreatePost(words, db, p).value.0;
      assert stored.threads == db.threads && stored.readMarks == db.readMarks;
      CountedEffect(stored, t, u, at);
    }
  }

  lemma CountedEffect(db: Db, t: Id, u: Id, at: Stamp)
    requires t in db.threads
    ensures var after := IncrementPostCount(UpdateLastPost(db, t, u, at), u);
            && after.readMarks == db.readMarks && after.threads.Keys == db.threads.Keys
            && (forall x <- db.threads :: x != t ==> after.threads[x] == db.threads[x])
            && after.threads[t].lastPostAt == at
  {
  }

  lemma QuietEffect(words: Tokenizer, db: Db, a: Act)
    requires a.Close? || a.Join? || a.Judge?
    ensures var after := Serve(words, db, a);
            && FactOf(words, db, a) == Fact.Nothing(a.at) && after.readMarks == db.readMarks
               && after.threads.Keys == db.threads.Keys
            && forall t <- db.threads :: after.threads[t].lastPostAt == db.threads[t].lastPostAt
  {
  }

  lemma ServeTracksPosts(words: Tokenizer, db: Db, facts: seq<Fact>, a: Act, t: Id)
    requires TracksPosts(db, facts, t)
    ensures TracksPosts(Serve(words, db, a), facts + [FactOf(words, db, a)], t)
  {
    if a.Start? {
      StartTracksPosts(words, db, facts, a, t);
    } else if a.Answer? {
      AnswerTracksPosts(words, db, facts, a, t);
    } else if a.Remove? {
      RemoveTracksPosts(words, db, facts, a, t);
    } else {
      RestTracksPosts(words, db, facts, a, t);
    }
  }

  lemma RemoveTracksPosts(words: Tokenizer, db: Db, facts: seq<Fact>, a: Act, t: Id)
    requires a.Remove? && TracksPosts(db, facts, t)
    ensures TracksPosts(Serve(words, db, a), facts + [FactOf(words, db, a)], t)
  {
    LastSnoc(facts, FactOf(words, db, a), Posts, t);
  }

  lemma StartTracksPosts(words: Tokenizer, db: Db, facts: seq<Fact>, a: Act, t: Id)
    requires a.Start? && TracksPosts(db, facts, t)
    ensures TracksPosts(Serve(words, db, a), facts + [FactOf(words, db, a)], t)
  {
    LastSnoc(facts, FactOf(words, db, a), Posts, t);
    StartEffect(words, db, a.sub, a.user, a.title, a.body, a.held, Text(a.at));
  }

  lemma AnswerTracksPosts(words: Tokenizer, db: Db, facts: seq<Fact>, a: Act, t: Id)
    requires a.Answer? && TracksPosts(db, facts, t)
    ensures TracksPosts(Serve(words, db, a), facts + [FactOf(words, db, a)], t)
  {
    LastSnoc(facts, FactOf(words, db, a), Posts, t);
    AnswerEffect(words, db, a.thread, a.user, a.parent, a.body, a.held, Text(a.at));
  }

  lemma RestTracksPosts(words: Tokenizer, db: Db, facts: seq<Fact>, a: Act, t: Id)
    requires (a.Open? || a.Close? || a.Join? || a.Judge?) && TracksPosts(db, facts, t)
    ensures TracksPosts(Serve(words, db, a), facts + [FactOf(words, db, a)], t)
  {
    if !a.Open? {
      QuietEffect(words, db, a);
    }
    LastSnoc(facts, FactOf(words, db, a), Posts, t);
  }

  lemma ServeTracksReads(words: Tokenizer, db: Db, facts: seq<Fact>, a: Act, viewer: Id, t: Id)
    requires TracksReads(db, facts, viewer, t)
    ensures TracksReads(Serve(words, db, a), facts + [FactOf(words, db, a)], viewer, t)
  {
    if a.Start? {
      StartTracksReads(words, db, facts, a, viewer, t);
    } else if a.Answer? {
      AnswerTracksReads(words, db, facts, a, viewer, t);
    } else if a.Open? {
      OpenTracksReads(words, db, facts, a, viewer, t);
    } else if a.Remove? {
      RemoveTracksReads(words, db, facts, a, viewer, t);
    } else {
      RestTracksReads(words, db, facts, a, viewer, t);
    }
  }

  lemma OpenTracksReads(words: Tokenizer, db: Db, facts: seq<Fact>, a: Act, viewer: Id, t: Id)
    requires a.Open? && TracksReads(db, facts, viewer, t)
    ensures TracksReads(Serve(words, db, a), facts + [FactOf(words, db, a)], viewer, t)
  {
    LastSnoc(facts, FactOf(words, db, a), OpeningsBy(viewer), t);
  }

  lemma RemoveTracksReads(words: Tokenizer, db: Db, facts: seq<Fact>, a: Act, viewer: Id, t: Id)
    requires a.Remove? && TracksReads(db, facts, viewer, t)
    ensures TracksReads(Serve(words, db, a), facts + [FactOf(words, db, a)], viewer, t)
  {
    LastSnoc(facts, FactOf(words, db, a), OpeningsBy(viewer), t);
  }

  lemma StartTracksReads(words: Tokenizer, db: Db, facts: seq<Fact>, a: Act, viewer: Id, t: Id)
    requires a.Start? && TracksReads(db, facts, viewer, t)
    ensures TracksReads(Serve(words, db, a), facts + [FactOf(words, db, a)], viewer, t)
  {
    LastSnoc(facts, FactOf(words, db, a), OpeningsBy(viewer), t);
    StartEffect(words, db, a.sub, a.user, a.title, a.body, a.held, Text(a.at));
  }

  lemma AnswerTracksReads(words: Tokenizer, db: Db, facts: seq<Fact>, a: Act, viewer: Id, t: Id)
    requires a.Answer? && TracksReads(db, facts, viewer, t)
    ensures TracksReads(Serve(words, db, a), facts + [FactOf(words, db, a)], viewer, t)
  {
    LastSnoc(facts, FactOf(words, db, a), OpeningsBy(viewer), t);
    AnswerEffect(words, db, a.thread, a.user, a.parent, a.body, a.held, Text(a.at));
  }

  lemma RestTracksReads(words: Tokenizer, db: Db, facts: seq<Fact>, a: Act, viewer: Id, t: Id)
    requires (a.Close? || a.Join? || a.Judge?) && TracksReads(db, facts, viewer, t)
    ensures TracksReads(Serve(words, db, a), facts + [FactOf(words, db, a)], viewer, t)
  {
    QuietEffect(words, db, a);
    LastSnoc(facts, Fact.Nothing(a.at), OpeningsBy(viewer), t);
  }

  lemma {:induction false} RunTracks(words: Tokenizer, subs: set<Id>, acts: seq<Act>, viewer: Id, t: Id)
    ensures TracksPosts(After(words, Init(subs).db, acts), Facts(words, Init(subs).db, acts), t)
    ensures TracksReads(After(words, Init(subs).db, acts), Facts(words, Init(subs).db, acts), viewer, t)
  {
    if acts != [] {
      var n := |acts| - 1;
      var db, facts := After(words, Init(subs).db, acts[..n]), Facts(words, Init(subs).db, acts[..n]);
      RunTracks(words, subs, acts[..n], viewer, t);
      ServeTracksPosts(words, db, facts, acts[n], t);
      ServeTracksReads(words, db, facts, acts[n], viewer, t);
    }
  }

  // ----- With a clock that does not run backwards the last is the latest -----

  function Instant(m: Moment): nat
    requires IsTime(m)
  {
    Second(m) * 1_000_000_000 + m.nanos
  }

  ghost predicate InOrder(facts: seq<Fact>) {
    && (forall i :: 0 <= i < |facts| ==> IsTime(facts[i].at))
    && (forall i, j :: 0 <= i < j < |facts| ==> Instant(facts[i].at) <= Instant(facts[j].at))
  }

  lemma LaterInstant(a: Moment, b: Moment)
    requires IsTime(a) && IsTime(b) && Instant(a) <= Instant(b)
    ensures Second(a) <= Second(b)
  {
  }

  lemma CurrentSnoc(front: seq<Fact>, f: Fact, i: nat, t: Id)
    requires i < |front|
    ensures Current(front + [f], i, t) <==> Current(front, i, t) && !Resets(f, t)
  {
    var facts := front + [f];
    if Current(facts, i, t) {
      assert facts[|front|] == f;
      forall k | i < k < |front| ensures !Resets(front[k], t) {
        assert facts[k] == front[k];
      }
    }
  }

  /** Fact `i` is the last of its kind, and none is in a later second. */
  ghost predicate Latest(facts: seq<Fact>, kind: Kind, t: Id, i: nat)
    requires forall k :: 0 <= k < |facts| ==> IsTime(facts[k].at)
  {
    && (Last(facts, kind, t).Some?
        ==> Current(facts, i, t) && Is(facts[i], kind, t) && facts[i].at == Last(facts, kind, t).value)
    && (forall j :: 0 <= j < |facts| && Current(facts, j, t) && Is(facts[j], kind, t)
          ==> Last(facts, kind, t).Some? && Second(facts[j].at) <= Second(Last(facts, kind, t).value))
  }

  lemma LatestStep(front: seq<Fact>, f: Fact, kind: Kind, t: Id, i: nat)
    requires InOrder(front + [f])
    requires (forall k :: 0 <= k < |front| ==> IsTime(front[k].at)) && Latest(front, kind, t, i)
    ensures Latest(front + [f], kind, t, if Is(f, kind, t) then |front| else i)
  {
    var facts := front + [f];
    LastSnoc(front, f, kind, t);
    if !Is(f, kind, t) && Last(facts, kind, t).Some? {
      CurrentSnoc(front, f, i, t);
    }
    forall j | 0 <= j < |facts| && Current(facts, j, t) && Is(facts[j], kind, t)
      ensures Last(facts, kind, t).Some? && Second(facts[j].at) <= Second(Last(facts, kind, t).value)
    {
      if j < |front| {
        CurrentSnoc(front, f, j, t);
        LaterInstant(facts[j].at, facts[|front|].at);
      }
    }
  }

  lemma {:induction false} LastIsLatest(facts: seq<Fact>, kind: Kind, t: Id) returns (i: nat)
    requires InOrder(facts)
    ensures Latest(facts, kind, t, i)
  {
    i := 0;
    if facts != [] {
      var n := |facts| - 1;
      assert facts == facts[..n] + [facts[n]];
      i := LastIsLatest(facts[..n], kind, t);
      LatestStep(facts[..n], facts[n], kind, t, i);
      if Is(facts[n], kind, t) { i := n; }
    }
  }

  /** Requests one at a time, on a clock that does not run backwards: a thread is listed as unread for a
      viewer exactly when they are signed in and never opened it as a full page, or some post of it falls in a
      strictly later second than every such opening. */
  lemma {:induction false} UnreadExact(words: Tokenizer, subs: set<Id>, acts: seq<Act>, viewer: Id, t: Id)
    requires InOrder(Facts(words, Init(subs).db, acts))
    requires t in After(words, Init(subs).db, acts).threads
    ensures ListedUnread(After(words, Init(subs).db, acts), viewer, t)
       <==> viewer != 0 && !UpToDate(Facts(words, Init(subs).db, acts), viewer, t)
  {
    var facts := Facts(words, Init(subs).db, acts);
    RunTracks(words, subs, acts, viewer, t);
    var p := LastIsLatest(facts, Posts, t);
    var k := LastIsLatest(facts, OpeningsBy(viewer), t);
    FlagMeaning(After(words, Init(subs).db, acts), facts, viewer, t, p, k);
  }

  lemma FlagMeaning(db: Db, facts: seq<Fact>, viewer: Id, t: Id, p: nat, k: nat)
    requires t in db.threads && InOrder(facts)
    requires TracksPosts(db, facts, t) && TracksReads(db, facts, viewer, t)
    requires Latest(facts, Posts, t, p) && Latest(facts, OpeningsBy(viewer), t, k)
    ensures ListedUnread(db, viewer, t) <==> viewer != 0 && !UpToDate(facts, viewer, t)
  {
    if (viewer, t) in db.readMarks {
      TextOrdersAsTime(facts[k].at, facts[p].at);
    }
  }
}
