/** Conservation of the counters over every interleaving. */
module ForumCounters {
  import opened Tables
  import opened ForumDb
  import opened ForumForest
  import opened ForumRequests
  import opened ForumForestRuns

  /** What there is to know about one thread: the stored reply count, if the row exists; its posts; the
      requests that still have to count a reply, or to store the opening post; what failing calls lost. */
  datatype View = View(row: Option<nat>, posts: set<Id>, bumps: set<nat>, openings: set<nat>, lost: nat, bare: bool)

  ghost function ViewOf(s: System, t: Id): View {
    View(
      if t in s.db.threads then Some(s.db.threads[t].replyCount) else None,
      PostsOf(s.db.posts, t), PendingBumps(s.flight, t), PendingOpenings(s.flight, t), Tally(s.lostBumps, t),
        t in s.bare)
  }

  /** Posts in the thread = replies counted + stored but not yet counted + lost by a failing call
      + one for the opening post, if it is in. */
  ghost predicate Balanced(v: View)
    requires v.row.Some?
  {
    |v.posts| == v.row.value + |v.bumps| + v.lost + (if v.bare || v.openings != {} then 0 else 1)
  }

  /** At most one opening post is still to come, and then it has not failed. */
  ghost predicate OneOpening(v: View) {
    |v.openings| <= 1 && (v.bare ==> v.openings == {})
  }

  /** Bookkeeping and pending writes only concern threads that exist. */
  ghost predicate NothingStray(v: View) {
    v.bumps == {} && v.openings == {} && !v.bare && v.lost == 0
  }

  ghost predicate ViewOk(v: View) {
    if v.row.Some? then Balanced(v) && OneOpening(v) else NothingStray(v)
  }

  ghost predicate ThreadOk(s: System, t: Id) {
    ViewOk(ViewOf(s, t))
  }

  ghost predicate Conserved(s: System) {
    forall t: Id :: ThreadOk(s, t)
  }

  // ----- How a view may change -----

  lemma OneMore(a: set<nat>, x: nat)
    requires x !in a
    ensures |a + {x}| == |a| + 1
  {
  }

  /** A reply is stored: one more post, and one more reply to count. */
  lemma {:induction false} ReplyAdded(v: View, id: Id, r: nat)
    requires ViewOk(v) && v.row.Some? && id !in v.posts && r !in v.bumps
    ensures ViewOk(v.(posts := v.posts + {id}, bumps := v.bumps + {r}))
  {
    OneMore(v.posts, id);
    OneMore(v.bumps, r);
  }

  /** One pending bump becomes one counted reply, or one lost. */
  lemma {:induction false} ReplyCounted(v: View, r: nat)
    requires ViewOk(v) && r in v.bumps
    ensures v.row.Some?
    ensures ViewOk(v.(bumps := v.bumps - {r}, row := Some(v.row.value + 1)))
    ensures ViewOk(v.(bumps := v.bumps - {r}, lost := v.lost + 1))
  {
    OneMore(v.bumps - {r}, r);
    assert v.bumps - {r} + {r} == v.bumps;
  }

  /** The thread row appears; its opening post is still to come. */
  lemma RowAdded(v: View, r: nat)
    requires ViewOk(v) && v.row.None? && v.posts == {}
    ensures ViewOk(v.(row := Some(0), openings := v.openings + {r}))
  {
    assert v.openings + {r} == {r};
  }

  /** The opening post arrives, or never will. */
  lemma OpeningSettled(v: View, r: nat, id: Id)
    requires ViewOk(v) && r in v.openings && id !in v.posts
    ensures v.row.Some? && v.openings - {r} == {}
    ensures ViewOk(v.(openings := {}, posts := v.posts + {id}))
    ensures ViewOk(v.(openings := {}, bare := true))
  {
    OneMore(v.posts, id);
    assert |v.openings - {r}| == |v.openings| - 1;
  }

  /** The thread row disappears, with its posts, when nothing is pending. */
  lemma RowRemoved(v: View)
    requires v.bumps == {} && v.openings == {}
    ensures ViewOk(v.(row := None, posts := {}, lost := 0, bare := false))
  {
  }

  // ----- How the pending sets change -----

  lemma PutRequest(flight: map<nat, Request>, r: nat, q: Request, t: Id)
    ensures PendingBumps(flight[r := q], t)
            == PendingBumps(flight, t) - {r} + (if q.ReplyStored? && q.thread == t then {r} else {})
    ensures PendingOpenings(flight[r := q], t)
            == PendingOpenings(flight, t) - {r} + (if q.ThreadStored? && q.thread == t then {r} else {})
  {
  }

  /** The request still has something to write to thread `t` after having written to it. */
  predicate Touches(q: Request, t: Id) {
    (q.ReplyStored? || q.ThreadStored?) && q.thread == t
  }

  lemma PutElsewhere(flight: map<nat, Request>, r: nat, q: Request, t: Id)
    requires (r in flight ==> !Touches(flight[r], t)) && !Touches(q, t)
    ensures PendingBumps(flight[r := q], t) == PendingBumps(flight, t)
    ensures PendingOpenings(flight[r := q], t) == PendingOpenings(flight, t)
  {
  }

  lemma DropElsewhere(flight: map<nat, Request>, r: nat, t: Id)
    requires r in flight ==> !Touches(flight[r], t)
    ensures PendingBumps(flight - {r}, t) == PendingBumps(flight, t)
    ensures PendingOpenings(flight - {r}, t) == PendingOpenings(flight, t)
  {
  }

  // ----- How the posts of a thread change -----

  lemma InsertPostCounts(words: Tokenizer, db: Db, p: Post, t: Id)
    requires InsertPost(words, db, p).Ok?
    ensures var (after, id) := InsertPost(words, db, p).value;
            && PostsOf(after.posts, t) == PostsOf(db.posts, t) + (if t == p.thread then {id} else {})
            && id !in PostsOf(db.posts, t)
            && after.threads == db.threads && p.thread in db.threads
  {
  }

  lemma NoThreadNoPosts(db: Db, t: Id)
    requires RefsOk(db) && t !in db.threads
    ensures PostsOf(db.posts, t) == {}
  {
    forall p | p in db.posts ensures db.posts[p].thread != t {
      assert PostRefs(db, db.posts[p]);
    }
  }

  lemma DeleteThreadCounts(words: Tokenizer, db: Db, t: Id, other: Id)
    requires other != t
    ensures PostsOf(DeleteThread(words, db, t).posts, other) == PostsOf(db.posts, other)
  {
  }

  lemma EditCounts(words: Tokenizer, db: Db, id: Id, body: string, held: bool, editor: Id, t: Id)
    ensures PostsOf(UpdatePost(words, db, id, body, held, editor).posts, t) == PostsOf(db.posts, t)
    ensures PostsOf(DeletePost(words, db, id, editor).posts, t) == PostsOf(db.posts, t)
  {
    if id in db.posts {
      var p := db.posts[id];
      SamePostsOf(db.posts, id, p.(body := body, held := held, editCount := p.editCount + 1, editedBy := Some(editor)),
        t);
      SamePostsOf(db.posts, id, p.(deleted := true, editedBy := Some(editor)), t);
    }
  }

  lemma SamePostsOf(posts: map<Id, Post>, id: Id, p: Post, t: Id)
    requires id in posts && posts[id].thread == p.thread
    ensures PostsOf(posts[id := p], t) == PostsOf(posts, t)
  {
  }

  // ----- Every step conserves -----

  lemma StoreReplyConserves(words: Tokenizer, s: System, r: nat, up: bool, t: Id)
    requires ThreadOk(s, t)
    ensures ThreadOk(StoreReplyStep(words, s, r, up), t)
  {
    if r in s.flight && s.flight[r].ReplyPassed? {
      var q := s.flight[r];
      if up && InsertPost(words, s.db, PostOf(q)).Ok? {
        if q.thread == t {
          StoredReplyView(words, s, r);
          ReplyAdded(ViewOf(s, t), NextId(s.db.posts.Keys), r);
        } else {
          StoredElsewhere(words, s, r, t);
        }
      } else {
        DropElsewhere(s.flight, r, t);
        assert ViewOf(StoreReplyStep(words, s, r, up), t) == ViewOf(s, t);
      }
    }
  }

  lemma StoredReplyView(words: Tokenizer, s: System, r: nat)
    requires r in s.flight && s.flight[r].ReplyPassed?
    requires InsertPost(words, s.db, PostOf(s.flight[r])).Ok?
    ensures var t := s.flight[r].thread;
            var v := ViewOf(s, t);
            var id := NextId(s.db.posts.Keys);
            && ViewOf(StoreReplyStep(words, s, r, true), t) == v.(posts := v.posts + {id}, bumps := v.bumps + {r})
            && v.row.Some? && id !in v.posts && r !in v.bumps
  {
    var q := s.flight[r];
    InsertPostCounts(words, s.db, PostOf(q), q.thread);
    PutRequest(s.flight, r, ReplyStored(q.thread, q.user, q.at), q.thread);
    NotPending(s.flight, r, q.thread);
  }

  lemma StoredElsewhere(words: Tokenizer, s: System, r: nat, t: Id)
    requires r in s.flight && s.flight[r].ReplyPassed? && s.flight[r].thread != t
    requires InsertPost(words, s.db, PostOf(s.flight[r])).Ok?
    ensures ViewOf(StoreReplyStep(words, s, r, true), t) == ViewOf(s, t)
  {
    var q := s.flight[r];
    InsertPostCounts(words, s.db, PostOf(q), t);
    PutElsewhere(s.flight, r, ReplyStored(q.thread, q.user, q.at), t);
  }

  lemma NotPending(flight: map<nat, Request>, r: nat, t: Id)
    requires r in flight ==> !Touches(flight[r], t)
    ensures r !in PendingBumps(flight, t) && r !in PendingOpenings(flight, t)
    ensures PendingBumps(flight, t) - {r} == PendingBumps(flight, t)
    ensures PendingOpenings(flight, t) - {r} == PendingOpenings(flight, t)
  {
  }

  lemma BumpThreadConserves(s: System, r: nat, up: bool, t: Id)
    requires ThreadOk(s, t)
    ensures ThreadOk(BumpThreadStep(s, r, up), t)
  {
    if r in s.flight && s.flight[r].ReplyStored? {
      if s.flight[r].thread == t {
        assert r in PendingBumps(s.flight, t);
        ReplyCounted(ViewOf(s, t), r);
        BumpedView(s, r, up);
      } else {
        BumpedElsewhere(s, r, up, t);
      }
    }
  }

  lemma BumpedElsewhere(s: System, r: nat, up: bool, t: Id)
    requires r in s.flight && s.flight[r].ReplyStored? && s.flight[r].thread != t
    ensures ViewOf(BumpThreadStep(s, r, up), t) == ViewOf(s, t)
  {
    PutElsewhere(s.flight, r, ReplyBumped(s.flight[r].user), t);
  }

  lemma BumpedView(s: System, r: nat, up: bool)
    requires r in s.flight && s.flight[r].ReplyStored? && s.flight[r].thread in s.db.threads
    ensures var t := s.flight[r].thread;
            var v := ViewOf(s, t);
            ViewOf(BumpThreadStep(s, r, up), t) ==
            (if up then v.(bumps := v.bumps - {r}, row := Some(v.row.value + 1))
              else v.(bumps := v.bumps - {r}, lost := v.lost + 1))
  {
    var q := s.flight[r];
    PutRequest(s.flight, r, ReplyBumped(q.user), q.thread);
    assert PendingOpenings(s.flight, q.thread) - {r} == PendingOpenings(s.flight, q.thread);
  }

  lemma CountReplyConserves(s: System, r: nat, up: bool, t: Id)
    requires ThreadOk(s, t)
    ensures ThreadOk(CountReplyStep(s, r, up), t)
  {
    if r in s.flight && s.flight[r].ReplyBumped? {
      DropElsewhere(s.flight, r, t);
      assert ViewOf(CountReplyStep(s, r, up), t) == ViewOf(s, t);
    }
  }

  lemma StoreThreadConserves(s: System, r: nat, up: bool, t: Id)
    requires Sound(s) && ThreadOk(s, t)
    ensures ThreadOk(StoreThreadStep(s, r, up), t)
  {
    if r in s.flight && s.flight[r].ThreadChecked? {
      var q := s.flight[r];
      if up && CreateThread(s.db, q.sub, q.user, q.title, q.at).Ok? {
        NewThreadView(s, r, t);
        if t == NextId(s.db.threads.Keys) {
          NoThreadNoPosts(s.db, t);
          RowAdded(ViewOf(s, t), r);
        }
      } else {
        DropElsewhere(s.flight, r, t);
        assert ViewOf(StoreThreadStep(s, r, up), t) == ViewOf(s, t);
      }
    }
  }

  lemma NewThreadView(s: System, r: nat, t: Id)
    requires r in s.flight && s.flight[r].ThreadChecked?
    requires CreateThread(s.db, s.flight[r].sub, s.flight[r].user, s.flight[r].title, s.flight[r].at).Ok?
    ensures var v := ViewOf(s, t);
            ViewOf(StoreThreadStep(s, r, true), t) ==
            (if t == NextId(s.db.threads.Keys) then v.(row := Some(0), openings := v.openings + {r}) else v)
  {
    var q := s.flight[r];
    PutRequest(s.flight, r, ThreadStored(NextId(s.db.threads.Keys), q.user, q.body, q.held), t);
    NotPending(s.flight, r, t);
  }

  lemma StoreOpeningConserves(words: Tokenizer, s: System, r: nat, up: bool, t: Id)
    requires ThreadOk(s, t)
    ensures ThreadOk(StoreOpeningStep(words, s, r, up), t)
  {
    if r in s.flight && s.flight[r].ThreadStored? {
      var q := s.flight[r];
      if q.thread != t {
        OpeningElsewhere(words, s, r, up, t);
      } else {
        assert r in PendingOpenings(s.flight, t);
        NewIdNotIn(s.db.posts, t);
        OpeningSettled(ViewOf(s, t), r, NextId(s.db.posts.Keys));
        if up && InsertPost(words, s.db, PostOf(q)).Ok? {
          OpeningStored(words, s, r);
        } else {
          OpeningLost(words, s, r, up);
        }
      }
    }
  }

  lemma NewIdNotIn(posts: map<Id, Post>, t: Id)
    ensures NextId(posts.Keys) !in PostsOf(posts, t)
  {
  }

  lemma OpeningElsewhere(words: Tokenizer, s: System, r: nat, up: bool, t: Id)
    requires r in s.flight && s.flight[r].ThreadStored? && s.flight[r].thread != t
    ensures ViewOf(StoreOpeningStep(words, s, r, up), t) == ViewOf(s, t)
  {
    var q := s.flight[r];
    var p := PostOf(q);
    if up && InsertPost(words, s.db, p).Ok? {
      InsertPostCounts(words, s.db, p, t);
      RequestGone(s, InsertPost(words, s.db, p).value.0, s.bare, r, t);
    } else {
      RequestGone(s, s.db, if q.thread in s.db.threads then s.bare + {q.thread} else s.bare, r, t);
    }
  }

  lemma RequestGone(s: System, db: Db, bare: set<Id>, r: nat, t: Id)
    requires r in s.flight ==> !Touches(s.flight[r], t)
    requires db.threads == s.db.threads && PostsOf(db.posts, t) == PostsOf(s.db.posts, t)
             && (t in bare <==> t in s.bare)
    ensures ViewOf(Drop(s, r).(db := db, bare := bare), t) == ViewOf(s, t)
  {
    DropElsewhere(s.flight, r, t);
  }

  lemma OpeningStored(words: Tokenizer, s: System, r: nat)
    requires r in s.flight && s.flight[r].ThreadStored?
    requires InsertPost(words, s.db, PostOf(s.flight[r])).Ok?
    ensures var t := s.flight[r].thread;
            var v := ViewOf(s, t);
            ViewOf(StoreOpeningStep(words, s, r, true), t)
              == v.(openings := v.openings - {r}, posts := v.posts + {NextId(s.db.posts.Keys)})
  {
    var q := s.flight[r];
    DropOpening(s.flight, r);
    InsertPostCounts(words, s.db, PostOf(q), q.thread);
  }

  lemma OpeningLost(words: Tokenizer, s: System, r: nat, up: bool)
    requires r in s.flight && s.flight[r].ThreadStored? && s.flight[r].thread in s.db.threads
    requires !up || InsertPost(words, s.db, PostOf(s.flight[r])).Failed?
    ensures var t := s.flight[r].thread;
            var v := ViewOf(s, t);
            ViewOf(StoreOpeningStep(words, s, r, up), t) == v.(openings := v.openings - {r}, bare := true)
  {
    DropOpening(s.flight, r);
  }

  lemma DropOpening(flight: map<nat, Request>, r: nat)
    requires r in flight && flight[r].ThreadStored?
    ensures PendingBumps(flight - {r}, flight[r].thread) == PendingBumps(flight, flight[r].thread)
    ensures PendingOpenings(flight - {r}, flight[r].thread) == PendingOpenings(flight, flight[r].thread) - {r}
  {
  }

  lemma HardDeleteConserves(words: Tokenizer, s: System, deleted: Id, t: Id)
    requires Sound(s) && ThreadOk(s, t) && Idle(s, deleted)
    ensures ThreadOk(HardDeleteStep(words, s, deleted), t)
  {
    if t != deleted {
      DeletedElsewhere(words, s, deleted, t);
    } else if t in s.db.threads {
      DeletedView(words, s, t);
      RowRemoved(ViewOf(s, t));
    } else {
      NoThreadNoPosts(s.db, t);
      NothingDeleted(words, s, t);
    }
  }

  lemma DeletedElsewhere(words: Tokenizer, s: System, deleted: Id, t: Id)
    requires t != deleted
    ensures ViewOf(HardDeleteStep(words, s, deleted), t) == ViewOf(s, t)
  {
    DeleteThreadCounts(words, s.db, deleted, t);
  }

  lemma DeletedView(words: Tokenizer, s: System, t: Id)
    requires t in s.db.threads
    ensures ViewOf(HardDeleteStep(words, s, t), t) == ViewOf(s, t).(row := None, posts := {}, lost := 0, bare := false)
  {
    NoPostsLeft(words, s.db, t);
  }

  lemma NoPostsLeft(words: Tokenizer, db: Db, t: Id)
    requires t in db.threads
    ensures PostsOf(DeleteThread(words, db, t).posts, t) == {}
  {
  }

  lemma NothingDeleted(words: Tokenizer, s: System, t: Id)
    requires t !in s.db.threads && ThreadOk(s, t)
    ensures ThreadOk(HardDeleteStep(words, s, t), t)
  {
  }

  lemma StepConserves(words: Tokenizer, s: System, l: Label)
    requires Sound(s) && Conserved(s)
    requires l.HardDelete? ==> Idle(s, l.thread)
    ensures Conserved(Step(words, s, l))
  {
    forall t: Id ensures ThreadOk(Step(words, s, l), t) {
      assert ThreadOk(s, t);
      ThreadStaysOk(words, s, l, t);
    }
  }

  lemma ThreadStaysOk(words: Tokenizer, s: System, l: Label, t: Id)
    requires Sound(s) && ThreadOk(s, t)
    requires l.HardDelete? ==> Idle(s, l.thread)
    ensures ThreadOk(Step(words, s, l), t)
  {
    if !IsRequestWrite(l) && !l.HardDelete? {
      OtherView(words, s, l, t);
    } else {
      match l
      case StoreReply(r, up) => StoreReplyConserves(words, s, r, up, t);
      case BumpThread(r, up) => BumpThreadConserves(s, r, up, t);
      case CountReply(r, up) => CountReplyConserves(s, r, up, t);
      case StoreThread(r, up) => StoreThreadConserves(s, r, up, t);
      case StoreOpening(r, up) => StoreOpeningConserves(words, s, r, up, t);
      case HardDelete(d) => HardDeleteConserves(words, s, d, t);
    }
  }

  /** A request writes to the tables. */
  predicate IsRequestWrite(l: Label) {
    l.StoreReply? || l.BumpThread? || l.CountReply? || l.StoreThread? || l.StoreOpening?
  }

  lemma EditView(words: Tokenizer, s: System, p: Id, body: string, held: bool, u: Id, t: Id)
    ensures ViewOf(s.(db := UpdatePost(words, s.db, p, body, held, u)), t) == ViewOf(s, t)
    ensures ViewOf(s.(db := DeletePost(words, s.db, p, u)), t) == ViewOf(s, t)
  {
    EditCounts(words, s.db, p, body, held, u, t);
  }

  /** No counter, no post and no pending write is concerned. */
  lemma OtherView(words: Tokenizer, s: System, l: Label, t: Id)
    requires !IsRequestWrite(l) && !l.HardDelete?
    ensures ViewOf(Step(words, s, l), t) == ViewOf(s, t)
  {
    if l.CheckParent? {
      CheckParentView(s, l.r, l.up, t);
    } else if l.BeginReply? || l.BeginThread? {
      BeginView(words, s, l, t);
    } else if IsPostStep(l) {
      RewriteView(words, s, l, t);
    } else if l.Lock? {
      LockView(s, l.thread, l.locked, t);
    } else if l.MarkRead? {
      MarksLeave(words, s, l);
    } else {
      TablesLeaveFlight(words, s, l);
      UserStepsLeave(words, s, l);
    }
  }

  lemma BeginView(words: Tokenizer, s: System, l: Label, t: Id)
    requires l.BeginReply? || l.BeginThread?
    ensures ViewOf(Step(words, s, l), t) == ViewOf(s, t)
  {
    ChecksLeaveTables(words, s, l);
    if l.r !in s.flight {
      PutElsewhere(s.flight, l.r, RequestOf(l), t);
    }
  }

  /** The request a label starts. */
  function RequestOf(l: Label): Request
    requires l.BeginReply? || l.BeginThread?
  {
    match l
    case BeginReply(_, thread, u, parent, body, held, at) => ReplyChecked(thread, u, parent, body, held, at)
    case BeginThread(_, sub, u, title, body, held, at) => ThreadChecked(sub, u, title, body, held, at)
  }

  lemma RewriteView(words: Tokenizer, s: System, l: Label, t: Id)
    requires l.Edit? || l.SoftDelete?
    ensures ViewOf(Step(words, s, l), t) == ViewOf(s, t)
  {
    if l.Edit? {
      EditView(words, s, l.post, l.body, l.held, l.editor, t);
    } else {
      EditView(words, s, l.post, "", false, l.editor, t);
    }
  }

  lemma LockView(s: System, thread: Id, locked: bool, t: Id)
    ensures ViewOf(s.(db := LockThread(s.db, thread, locked)), t) == ViewOf(s, t)
  {
  }

  lemma CheckParentView(s: System, r: nat, up: bool, t: Id)
    ensures ViewOf(CheckParentStep(s, r, up), t) == ViewOf(s, t)
  {
    var next := CheckParentStep(s, r, up);
    if r in s.flight && s.flight[r].ReplyChecked? {
      if r in next.flight {
        PutElsewhere(s.flight, r, next.flight[r], t);
      } else {
        DropElsewhere(s.flight, r, t);
      }
    }
  }

  lemma {:induction false} ExecConserves(words: Tokenizer, s: System, run: seq<Label>)
    requires Sound(s) && Conserved(s) && Guarded(words, s, run)
    ensures Sound(Exec(words, s, run)) && Conserved(Exec(words, s, run))
  {
    ExecSound(words, s, run);
    if run != [] {
      var n := |run| - 1;
      GuardedPrefix(words, s, run);
      ExecConserves(words, s, run[..n]);
      StepConserves(words, Exec(words, s, run[..n]), run[n]);
    }
  }

  lemma GuardedPrefix(words: Tokenizer, s: System, run: seq<Label>)
    requires run != [] && Guarded(words, s, run)
    ensures Guarded(words, s, run[..|run| - 1])
    ensures run[|run| - 1].HardDelete? ==> Idle(Exec(words, s, run[..|run| - 1]), run[|run| - 1].thread)
  {
    var front, l := run[..|run| - 1], run[|run| - 1];
    LastApart([], run);
    GuardedSnoc(words, s, front, l);
  }

  /** Conservation: in every interleaving, with failing calls, in which no thread is hard-deleted under
      a request that still has to write to it, every thread balances. */
  lemma {:induction false} CountersConserved(words: Tokenizer, subs: set<Id>, run: seq<Label>, t: Id)
    requires Guarded(words, Init(subs), run)
    requires t in Exec(words, Init(subs), run).db.threads
    ensures Balanced(ViewOf(Exec(words, Init(subs), run), t))
  {
    assert Conserved(Init(subs)) by {
      forall x: Id ensures ThreadOk(Init(subs), x) {
      }
    }
    ExecConserves(words, Init(subs), run);
    assert ThreadOk(Exec(words, Init(subs), run), t);
  }

  // ----- The home page -----

  function ThreadsIn(db: Db, sub: Id): set<Id> {
    set t | t in db.threads && db.threads[t].sub == sub
  }

  /** SUM(reply_count + 1) over some threads. */
  ghost function SumCounts(threads: map<Id, Thread>, ts: set<Id>): nat
    requires ts <= threads.Keys
    decreases ts
  {
    if ts == {} then 0
    else
      var t := MaxId(ts);
      SumCounts(threads, ts - {t}) + threads[t].replyCount + 1
  }

  ghost function SumLost(lost: map<Id, nat>, ts: set<Id>): nat
    decreases ts
  {
    if ts == {} then 0
    else
      var t := MaxId(ts);
      SumLost(lost, ts - {t}) + Tally(lost, t)
  }

  /** The posts that really are in some threads. */
  function RealPosts(posts: map<Id, Post>, ts: set<Id>): set<Id> {
    set p | p in posts && posts[p].thread in ts
  }

  lemma ThreadAtRest(s: System, t: Id)
    requires ThreadOk(s, t) && s.flight == map[] && t in s.db.threads
    ensures |PostsOf(s.db.posts, t)| + (if t in s.bare then 1 else 0)
            == s.db.threads[t].replyCount + 1 + Tally(s.lostBumps, t)
  {
    assert PendingBumps(s.flight, t) == {} && PendingOpenings(s.flight, t) == {};
  }

  lemma RealPostsSplit(posts: map<Id, Post>, ts: set<Id>, t: Id)
    requires t in ts
    ensures |RealPosts(posts, ts)| == |RealPosts(posts, ts - {t})| + |PostsOf(posts, t)|
  {
    assert RealPosts(posts, ts) == RealPosts(posts, ts - {t}) + PostsOf(posts, t);
    assert RealPosts(posts, ts - {t}) !! PostsOf(posts, t);
  }

  lemma BareSplit(bare: set<Id>, ts: set<Id>, t: Id)
    requires t in ts
    ensures |bare * ts| == |bare * (ts - {t})| + (if t in bare then 1 else 0)
  {
    assert bare * ts == bare * (ts - {t}) + (if t in bare then {t} else {});
  }

  /** The stored counters of some threads against the real number of posts, with nothing in flight. */
  lemma {:induction false} SumAtRest(s: System, ts: set<Id>)
    requires Conserved(s) && s.flight == map[] && ts <= s.db.threads.Keys
    ensures SumCounts(s.db.threads, ts) + SumLost(s.lostBumps, ts) == |RealPosts(s.db.posts, ts)| + |s.bare * ts|
    decreases ts
  {
    if ts == {} {
      assert RealPosts(s.db.posts, ts) == {};
    } else {
      var t := MaxId(ts);
      SumAtRest(s, ts - {t});
      assert ThreadOk(s, t);
      ThreadAtRest(s, t);
      RealPostsSplit(s.db.posts, ts, t);
      BareSplit(s.bare, ts, t);
    }
  }

  /** At rest the number of posts shown for a subcategory is the real number exactly when as many
      UpdateLastPost calls as opening posts were lost there; in particular when no call failed. */
  lemma PostCountExact(words: Tokenizer, subs: set<Id>, run: seq<Label>, sub: Id)
    requires Guarded(words, Init(subs), run)
    requires Exec(words, Init(subs), run).flight == map[]
    ensures var s := Exec(words, Init(subs), run);
            var ts := ThreadsIn(s.db, sub);
            SumCounts(s.db.threads, ts) == |RealPosts(s.db.posts, ts)| <==> SumLost(s.lostBumps, ts) == |s.bare * ts|
  {
    var s := Exec(words, Init(subs), run);
    assert Conserved(Init(subs)) by {
      forall x: Id ensures ThreadOk(Init(subs), x) {
      }
    }
    ExecConserves(words, Init(subs), run);
    SumAtRest(s, ThreadsIn(s.db, sub));
  }

  ghost predicate NoFailures(run: seq<Label>) {
    forall l <- run :: (l.BumpThread? || l.StoreOpening?) ==> l.up
  }

  lemma {:induction false} NothingLost(words: Tokenizer, subs: set<Id>, run: seq<Label>)
    requires NoFailures(run)
    ensures var s := Exec(words, Init(subs), run); s.bare == {} && s.lostBumps == map[]
  {
    if run != [] {
      var n := |run| - 1;
      assert run[n] in run;
      NothingLost(words, subs, run[..n]);
      ExecSound(words, Init(subs), run[..n]);
      NothingLostStep(words, Exec(words, Init(subs), run[..n]), run[n]);
    }
  }

  lemma NothingLostStep(words: Tokenizer, s: System, l: Label)
    requires Sound(s) && s.bare == {} && s.lostBumps == map[]
    requires (l.BumpThread? || l.StoreOpening?) ==> l.up
    ensures Step(words, s, l).bare == {} && Step(words, s, l).lostBumps == map[]
  {
    if l.HardDelete? {
      assert Step(words, s, l) == HardDeleteStep(words, s, l.thread);
    } else {
      NothingMoreLost(words, s, l);
    }
  }

  lemma NothingMoreLost(words: Tokenizer, s: System, l: Label)
    requires Sound(s) && !l.HardDelete?
    requires (l.BumpThread? || l.StoreOpening?) ==> l.up
    ensures Step(words, s, l).bare == s.bare && Step(words, s, l).lostBumps == s.lostBumps
  {
    if l.StoreOpening? {
      OpeningNotLost(words, s, l.r);
    } else if IsThreadStep(l) {
      ReplyNotLost(words, s, l);
    } else if IsCheck(l) {
      ChecksLeaveTables(words, s, l);
    } else if IsUserStep(l) {
      UserStepsLeave(words, s, l);
    } else if IsPostStep(l) {
      RewriteNotLost(words, s, l);
    } else {
      MarksLeave(words, s, l);
    }
  }

  /** An opening post with a known author and no parent can only fail for want of its thread. */
  lemma OpeningNotLost(words: Tokenizer, s: System, r: nat)
    requires Sound(s)
    ensures StoreOpeningStep(words, s, r, true).bare == s.bare
            && StoreOpeningStep(words, s, r, true).lostBumps == s.lostBumps
  {
    if r in s.flight && s.flight[r].ThreadStored? {
      assert s.flight[r].user in s.db.users;
    }
  }

  lemma ReplyNotLost(words: Tokenizer, s: System, l: Label)
    requires IsThreadStep(l) && (l.BumpThread? ==> l.up)
    ensures Step(words, s, l).bare == s.bare && Step(words, s, l).lostBumps == s.lostBumps
  {
    ThreadStepsLeave(words, s, l);
    if l.BumpThread? {
      assert Step(words, s, l) == BumpThreadStep(s, l.r, true);
    }
  }

  lemma RewriteNotLost(words: Tokenizer, s: System, l: Label)
    requires IsPostStep(l) && !l.StoreOpening?
    ensures Step(words, s, l).bare == s.bare && Step(words, s, l).lostBumps == s.lostBumps
  {
    PostStepsLeave(words, s, l);
    if l.StoreReply? {
      assert Step(words, s, l) == StoreReplyStep(words, s, l.r, l.up);
    }
  }

  lemma {:induction false} SumLostNone(ts: set<Id>)
    ensures SumLost(map[], ts) == 0
    decreases ts
  {
    if ts != {} { SumLostNone(ts - {MaxId(ts)}); }
  }

  /** With no failing call, the home page shows the real number of posts whenever nothing is in flight. */
  lemma {:induction false} PostCountReal(words: Tokenizer, subs: set<Id>, run: seq<Label>, sub: Id)
    requires Guarded(words, Init(subs), run) && NoFailures(run)
    requires Exec(words, Init(subs), run).flight == map[]
    ensures var db := Exec(words, Init(subs), run).db;
            SumCounts(db.threads, ThreadsIn(db, sub)) == |RealPosts(db.posts, ThreadsIn(db, sub))|
  {
    PostCountExact(words, subs, run, sub);
    NothingLost(words, subs, run);
    SumLostNone(ThreadsIn(Exec(words, Init(subs), run).db, sub));
  }
}

/** Each user's post count, over every interleaving, deletions included. */
module ForumPostCounts {
  import opened Tables
  import opened ForumDb
  import opened ForumForest
  import opened ForumRequests
  import opened ForumForestRuns

  /** post_count = replies stored - replies not yet counted - counts lost by a failing call.  Opening
      posts are never counted. */
  ghost predicate CountOk(s: System, u: Id) {
    if u in s.db.users then
      s.db.users[u].postCount + |PendingCounts(s.flight, u)| + Tally(s.lostCounts, u) == Tally(s.made, u)
    else PendingCounts(s.flight, u) == {} && Tally(s.lostCounts, u) == 0 && Tally(s.made, u) == 0
  }

  predicate Counts(q: Request, u: Id) {
    (q.ReplyStored? || q.ReplyBumped?) && q.user == u
  }

  lemma PutCounts(flight: map<nat, Request>, r: nat, q: Request, u: Id)
    ensures PendingCounts(flight[r := q], u) == PendingCounts(flight, u) - {r} + (if Counts(q, u) then {r} else {})
  {
  }

  lemma PutSameCounts(flight: map<nat, Request>, r: nat, q: Request, u: Id)
    requires if r in flight then Counts(flight[r], u) <==> Counts(q, u) else !Counts(q, u)
    ensures PendingCounts(flight[r := q], u) == PendingCounts(flight, u)
  {
  }

  lemma DropUncounted(flight: map<nat, Request>, r: nat, u: Id)
    requires r in flight ==> !Counts(flight[r], u)
    ensures PendingCounts(flight - {r}, u) == PendingCounts(flight, u)
  {
  }

  lemma StoreReplyCounts(words: Tokenizer, s: System, r: nat, up: bool, u: Id)
    requires UsersKnown(s) && CountOk(s, u)
    ensures CountOk(StoreReplyStep(words, s, r, up), u)
  {
    if r in s.flight && s.flight[r].ReplyPassed? {
      var q := s.flight[r];
      if up && InsertPost(words, s.db, PostOf(q)).Ok? {
        StoredReplyCounts(words, s, r, u);
      } else {
        DropUncounted(s.flight, r, u);
      }
    }
  }

  lemma StoredReplyCounts(words: Tokenizer, s: System, r: nat, u: Id)
    requires UsersKnown(s) && CountOk(s, u)
    requires r in s.flight && s.flight[r].ReplyPassed?
    requires InsertPost(words, s.db, PostOf(s.flight[r])).Ok?
    ensures CountOk(StoreReplyStep(words, s, r, true), u)
  {
    var q := s.flight[r];
    var next := StoreReplyStep(words, s, r, true);
    var stored := ReplyStored(q.thread, q.user, q.at);
    InsertLeavesUsers(words, s.db, PostOf(q));
    if q.user == u {
      PutCounts(s.flight, r, stored, u);
      OwnReply(s, next, r, u);
    } else {
      PutSameCounts(s.flight, r, stored, u);
      OthersReply(s, next, u, q.user);
    }
  }

  lemma InsertLeavesUsers(words: Tokenizer, db: Db, p: Post)
    requires InsertPost(words, db, p).Ok?
    ensures InsertPost(words, db, p).value.0.users == db.users
  {
  }

  lemma OwnReply(s: System, next: System, r: nat, u: Id)
    requires CountOk(s, u) && u in s.db.users && r in s.flight && s.flight[r].ReplyPassed?
    requires next.db.users == s.db.users && next.lostCounts == s.lostCounts && next.made == Plus(s.made, u)
    requires PendingCounts(next.flight, u) == PendingCounts(s.flight, u) - {r} + {r}
    ensures CountOk(next, u)
  {
    var before := PendingCounts(s.flight, u);
    assert r !in before;
    assert before - {r} == before && |before + {r}| == |before| + 1;
  }

  lemma OthersReply(s: System, next: System, u: Id, author: Id)
    requires CountOk(s, u) && author != u
    requires next.db.users == s.db.users && next.lostCounts == s.lostCounts && next.made == Plus(s.made, author)
    requires PendingCounts(next.flight, u) == PendingCounts(s.flight, u)
    ensures CountOk(next, u)
  {
  }

  lemma CountReplyCounts(s: System, r: nat, up: bool, u: Id)
    requires UsersKnown(s) && CountOk(s, u)
    ensures CountOk(CountReplyStep(s, r, up), u)
  {
    if r in s.flight && s.flight[r].ReplyBumped? {
      if s.flight[r].user != u {
        DropUncounted(s.flight, r, u);
      } else {
        assert r in PendingCounts(s.flight, u);
        assert PendingCounts(s.flight - {r}, u) == PendingCounts(s.flight, u) - {r};
      }
    }
  }

  /** The steps of requests that touch no user row. */
  predicate KeepsRows(l: Label) {
    l.BeginReply? || l.CheckParent? || l.BumpThread? || l.BeginThread? || l.StoreThread? || l.StoreOpening?
  }

  /** A request that keeps its share of the user's count. */
  lemma RequestCounts(s: System, next: System, u: Id)
    requires CountOk(s, u) && PendingCounts(next.flight, u) == PendingCounts(s.flight, u)
    requires SameRows(s, next)
    ensures CountOk(next, u)
  {
  }

  lemma OtherRequestCounts(words: Tokenizer, s: System, l: Label, u: Id)
    requires CountOk(s, u) && KeepsRows(l)
    ensures CountOk(Step(words, s, l), u)
  {
    OtherFlightCounts(words, s, l, u);
    OtherRowsCount(words, s, l);
    RequestCounts(s, Step(words, s, l), u);
  }

  lemma OtherRowsCount(words: Tokenizer, s: System, l: Label)
    requires KeepsRows(l)
    ensures var next := Step(words, s, l);
            SameRows(s, next)
  {
    if IsCheck(l) {
      ChecksLeaveTables(words, s, l);
    } else if l.StoreOpening? {
      OpeningRows(words, s, l.r, l.up);
    } else {
      ThreadStepsLeave(words, s, l);
    }
  }

  ghost predicate SameRows(s: System, next: System) {
    next.db.users == s.db.users && next.lostCounts == s.lostCounts && next.made == s.made
  }

  lemma OpeningRows(words: Tokenizer, s: System, r: nat, up: bool)
    ensures SameRows(s, StoreOpeningStep(words, s, r, up))
  {
  }

  lemma OtherCounts(words: Tokenizer, s: System, l: Label, u: Id)
    requires UsersKnown(s) && CountOk(s, u)
    requires !l.StoreReply? && !l.CountReply?
    ensures CountOk(Step(words, s, l), u)
  {
    if KeepsRows(l) {
      OtherRequestCounts(words, s, l, u);
    } else {
      TablesLeaveFlight(words, s, l);
      if IsUserStep(l) {
        UserRowsCount(words, s, l, u);
      } else {
        UsersUntouched(words, s, l);
        RequestCounts(s, Step(words, s, l), u);
      }
    }
  }

  lemma UsersUntouched(words: Tokenizer, s: System, l: Label)
    requires l.Edit? || l.SoftDelete? || l.Lock? || l.MarkRead? || l.HardDelete?
    ensures SameRows(s, Step(words, s, l))
  {
    if l.Lock? {
      ThreadStepsLeave(words, s, l);
    } else if l.MarkRead? {
      MarksLeave(words, s, l);
    } else if l.HardDelete? {
      assert Step(words, s, l) == HardDeleteStep(words, s, l.thread);
    } else {
      RewriteUsers(words, s, l);
    }
  }

  lemma RewriteUsers(words: Tokenizer, s: System, l: Label)
    requires l.Edit? || l.SoftDelete?
    ensures SameRows(s, Step(words, s, l))
  {
    if l.Edit? {
      UpdateLeaves(words, s.db, l.post, l.body, l.held, l.editor);
    } else {
      DeleteLeaves(words, s.db, l.post, l.editor);
    }
  }

  lemma UserRowsCount(words: Tokenizer, s: System, l: Label, u: Id)
    requires l.Register? || l.SetBan? || l.SetModerator?
    requires CountOk(s, u)
    ensures CountOk(Step(words, s, l), u)
  {
    TablesLeaveFlight(words, s, l);
  }

  lemma OtherFlightCounts(words: Tokenizer, s: System, l: Label, u: Id)
    requires KeepsRows(l)
    ensures PendingCounts(Step(words, s, l).flight, u) == PendingCounts(s.flight, u)
  {
    match l
    case BeginReply(r, t, v, parent, body, held, at) =>
      if r !in s.flight { PutSameCounts(s.flight, r, ReplyChecked(t, v, parent, body, held, at), u); }
    case BeginThread(r, sub, v, title, body, held, at) =>
      if r !in s.flight { PutSameCounts(s.flight, r, ThreadChecked(sub, v, title, body, held, at), u); }
    case CheckParent(r, up) => CheckParentCounts(s, r, up, u);
    case BumpThread(r, up) =>
      if r in s.flight && s.flight[r].ReplyStored? { PutSameCounts(s.flight, r, ReplyBumped(s.flight[r].user), u); }
    case StoreThread(r, up) =>
      if r in s.flight && s.flight[r].ThreadChecked? { ThreadRowCounts(s, r, up, u); }
    case StoreOpening(r, up) =>
      if r in s.flight && s.flight[r].ThreadStored? { DropUncounted(s.flight, r, u); }
  }

  lemma CheckParentCounts(s: System, r: nat, up: bool, u: Id)
    ensures PendingCounts(CheckParentStep(s, r, up).flight, u) == PendingCounts(s.flight, u)
  {
    var next := CheckParentStep(s, r, up);
    if r in s.flight && s.flight[r].ReplyChecked? {
      if r in next.flight {
        PutSameCounts(s.flight, r, next.flight[r], u);
      } else {
        DropUncounted(s.flight, r, u);
      }
    }
  }

  lemma ThreadRowCounts(s: System, r: nat, up: bool, u: Id)
    requires r in s.flight && s.flight[r].ThreadChecked?
    ensures PendingCounts(StoreThreadStep(s, r, up).flight, u) == PendingCounts(s.flight, u)
  {
    DropUncounted(s.flight, r, u);
    var q := s.flight[r];
    PutSameCounts(s.flight, r, ThreadStored(NextId(s.db.threads.Keys), q.user, q.body, q.held), u);
  }

  lemma {:induction false} ExecCounts(words: Tokenizer, subs: set<Id>, run: seq<Label>, u: Id)
    ensures CountOk(Exec(words, Init(subs), run), u)
  {
    if run != [] {
      var n := |run| - 1;
      var s := Exec(words, Init(subs), run[..n]);
      ExecCounts(words, subs, run[..n], u);
      ExecSound(words, Init(subs), run[..n]);
      match run[n]
      case StoreReply(r, up) => StoreReplyCounts(words, s, r, up, u);
      case CountReply(r, up) => CountReplyCounts(s, r, up, u);
      case _ => OtherCounts(words, s, run[n], u);
    }
  }

  /** In every interleaving, deletions at any moment included, a registered user's post count, plus
      what is still in flight or was lost, is the number of replies the user ever stored. */
  lemma {:induction false} PostCountIsReplies(words: Tokenizer, subs: set<Id>, run: seq<Label>, u: Id)
    requires u in Exec(words, Init(subs), run).db.users
    ensures var s := Exec(words, Init(subs), run);
            s.db.users[u].postCount + |PendingCounts(s.flight, u)| + Tally(s.lostCounts, u)
              == RepliesStored(words, Init(subs), run, u)
  {
    ExecCounts(words, subs, run, u);
    MadeIsStored(words, subs, run, u);
  }

  /** How many steps of the run stored a reply of `u`. */
  ghost function RepliesStored(words: Tokenizer, s: System, run: seq<Label>, u: Id): nat {
    if run == [] then 0
    else
      var n := |run| - 1;
      RepliesStored(words, s, run[..n], u) + if StoresReplyOf(words, Exec(words, s, run[..n]), run[n], u) then 1 else 0
  }

  /** The step adds a post, and it is a reply of `u`. */
  ghost predicate StoresReplyOf(words: Tokenizer, s: System, l: Label, u: Id) {
    && l.StoreReply? && l.r in s.flight && s.flight[l.r].ReplyPassed? && s.flight[l.r].user == u
    && |Step(words, s, l).db.posts| == |s.db.posts| + 1
  }

  lemma {:induction false} MadeIsStored(words: Tokenizer, subs: set<Id>, run: seq<Label>, u: Id)
    ensures Tally(Exec(words, Init(subs), run).made, u) == RepliesStored(words, Init(subs), run, u)
  {
    if run != [] {
      var n := |run| - 1;
      MadeIsStored(words, subs, run[..n], u);
      MadeStep(words, Exec(words, Init(subs), run[..n]), run[n], u);
    }
  }

  lemma MadeStep(words: Tokenizer, s: System, l: Label, u: Id)
    ensures Tally(Step(words, s, l).made, u) == Tally(s.made, u) + (if StoresReplyOf(words, s, l, u) then 1 else 0)
  {
    if l.StoreReply? {
      StoreReplyMade(words, s, l.r, l.up, u);
    } else {
      OthersMakeNothing(words, s, l);
    }
  }

  lemma OthersMakeNothing(words: Tokenizer, s: System, l: Label)
    requires !l.StoreReply?
    ensures Step(words, s, l).made == s.made
  {
    if IsCheck(l) {
      ChecksLeaveTables(words, s, l);
    } else if IsThreadStep(l) {
      ThreadStepsLeave(words, s, l);
    } else if IsUserStep(l) {
      UserStepsLeave(words, s, l);
    } else if l.StoreOpening? {
      OpeningRows(words, s, l.r, l.up);
    } else {
      UsersUntouched(words, s, l);
    }
  }

  lemma StoreReplyMade(words: Tokenizer, s: System, r: nat, up: bool, u: Id)
    ensures Tally(StoreReplyStep(words, s, r, up).made, u)
         == Tally(s.made, u) + (if StoresReplyOf(words, s, StoreReply(r, up), u) then 1 else 0)
  {
    StoresIff(words, s, r, up, u);
    if r in s.flight && s.flight[r].ReplyPassed? {
      StoredMakes(words, s, r, up);
    }
  }

  lemma StoresIff(words: Tokenizer, s: System, r: nat, up: bool, u: Id)
    ensures StoresReplyOf(words, s, StoreReply(r, up), u) <==>
            && r in s.flight && s.flight[r].ReplyPassed? && s.flight[r].user == u
            && |StoreReplyStep(words, s, r, up).db.posts| == |s.db.posts| + 1
  {
  }

  lemma StoredMakes(words: Tokenizer, s: System, r: nat, up: bool)
    requires r in s.flight && s.flight[r].ReplyPassed?
    ensures var next := StoreReplyStep(words, s, r, up);
            if up && InsertPost(words, s.db, PostOf(s.flight[r])).Ok? then
              next.made == Plus(s.made, s.flight[r].user) && |next.db.posts| == |s.db.posts| + 1
            else
              next.made == s.made && next.db.posts == s.db.posts
  {
    if InsertPost(words, s.db, PostOf(s.flight[r])).Ok? {
      InsertedPost(words, s.db, PostOf(s.flight[r]));
    }
  }

  lemma InsertedPost(words: Tokenizer, db: Db, p: Post)
    requires InsertPost(words, db, p).Ok?
    ensures |InsertPost(words, db, p).value.0.posts| == |db.posts| + 1
  {
    OneMorePost(db.posts, NextId(db.posts.Keys), p);
  }

  lemma OneMorePost(posts: map<Id, Post>, id: Id, p: Post)
    requires id !in posts
    ensures |posts[id := p]| == |posts| + 1
  {
    assert posts[id := p].Keys == posts.Keys + {id};
    assert |posts[id := p].Keys| == |posts[id := p]| && |posts.Keys| == |posts|;
  }
}
