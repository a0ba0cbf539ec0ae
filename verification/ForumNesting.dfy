/** The bound on nesting: CreatePost of internal/store/sqlite/post.go asks for the depth of the parent in
    one statement and inserts the reply in another. */
module ForumNesting {
  import opened Tables
  import opened ForumDb
  import opened ForumForest
  import opened ForumRequests
  import opened ForumForestRuns
  import opened ForumReuse

  // ----- The check right before the insert -----

  /** Whenever a reply has passed its check, the next step of the run is its insert. */
  ghost predicate AtOnce(words: Tokenizer, s: System, run: seq<Label>) {
    forall i, r ::
      0 <= i < |run| && r in Exec(words, s, run[..i]).flight && Exec(words, s, run[..i]).flight[r].ReplyPassed?
      ==> run[i].StoreReply? && run[i].r == r
  }

  /** A request that has passed its check after a step had passed it before, or does so in this step. */
  lemma PassedNow(words: Tokenizer, s: System, l: Label, r: nat)
    requires var next := Step(words, s, l); r in next.flight && next.flight[r].ReplyPassed?
    ensures var next := Step(words, s, l);
            if l == CheckParent(r, true) && r in s.flight && s.flight[r].ReplyChecked? then
              CheckPasses(s.db.posts, s.flight[r].parent) && next.db == s.db
                && next.flight[r].parent == s.flight[r].parent
              && (next.flight[r].seen <==> s.flight[r].parent.Some? ==> s.flight[r].parent.value in s.db.posts)
            else
              r in s.flight && s.flight[r] == next.flight[r] && !(l.StoreReply? && l.r == r)
  {
    if l.CheckParent? {
      CheckPassesOne(words, s, l.r, l.up, r);
    } else if l.StoreReply? {
      StoringPassesNothing(words, s, l.r, l.up, r);
    } else {
      OthersPassNothing(words, s, l, r);
    }
  }

  lemma CheckPassesOne(words: Tokenizer, s: System, x: nat, up: bool, r: nat)
    requires var next := CheckParentStep(s, x, up); r in next.flight && next.flight[r].ReplyPassed?
    ensures Step(words, s, CheckParent(x, up)) == CheckParentStep(s, x, up)
    ensures var next := CheckParentStep(s, x, up);
            if up && x == r && r in s.flight && s.flight[r].ReplyChecked? then
              CheckPasses(s.db.posts, s.flight[r].parent) && next.db == s.db
                && next.flight[r].parent == s.flight[r].parent
              && (next.flight[r].seen <==> s.flight[r].parent.Some? ==> s.flight[r].parent.value in s.db.posts)
            else
              r in s.flight && s.flight[r] == next.flight[r]
  {
  }

  lemma StoringPassesNothing(words: Tokenizer, s: System, x: nat, up: bool, r: nat)
    ensures Step(words, s, StoreReply(x, up)) == StoreReplyStep(words, s, x, up)
    ensures PassedBefore(s, StoreReplyStep(words, s, x, up), r)
    ensures r in StoreReplyStep(words, s, x, up).flight && StoreReplyStep(words, s, x, up).flight[r].ReplyPassed?
            ==> x != r
  {
  }

  /** If the request has passed its check, it had passed it before. */
  predicate PassedBefore(s: System, next: System, r: nat) {
    r in next.flight && next.flight[r].ReplyPassed? ==> r in s.flight && s.flight[r] == next.flight[r]
  }

  lemma OthersPassNothing(words: Tokenizer, s: System, l: Label, r: nat)
    requires !l.CheckParent? && !l.StoreReply?
    ensures PassedBefore(s, Step(words, s, l), r)
  {
    if IsCheck(l) {
      BeginningPassesNothing(words, s, l, r);
    } else if l.BumpThread? {
      BumpPassesNothing(s, l.r, l.up, r);
    } else if l.CountReply? {
      CountPassesNothing(s, l.r, l.up, r);
    } else if l.StoreThread? {
      RowPassesNothing(s, l.r, l.up, r);
    } else if l.StoreOpening? {
      OpeningPassesNothing(words, s, l.r, l.up, r);
    } else {
      TablesLeaveFlight(words, s, l);
    }
  }

  lemma BumpPassesNothing(s: System, x: nat, up: bool, r: nat)
    ensures PassedBefore(s, BumpThreadStep(s, x, up), r)
  {
  }

  lemma CountPassesNothing(s: System, x: nat, up: bool, r: nat)
    ensures PassedBefore(s, CountReplyStep(s, x, up), r)
  {
  }

  lemma RowPassesNothing(s: System, x: nat, up: bool, r: nat)
    ensures PassedBefore(s, StoreThreadStep(s, x, up), r)
  {
  }

  lemma OpeningPassesNothing(words: Tokenizer, s: System, x: nat, up: bool, r: nat)
    ensures PassedBefore(s, StoreOpeningStep(words, s, x, up), r)
  {
  }

  lemma BeginningPassesNothing(words: Tokenizer, s: System, l: Label, r: nat)
    requires l.BeginReply? || l.BeginThread?
    ensures PassedBefore(s, Step(words, s, l), r)
  {
  }

  lemma FreshCheckIsShallow(words: Tokenizer, s: System, l: Label, r: nat)
    requires Sound(s) && l == CheckParent(r, true) && r in s.flight && s.flight[r].ReplyChecked?
    requires var next := Step(words, s, l); r in next.flight && next.flight[r].ReplyPassed?
    ensures !LandsTooDeep(words, Step(words, s, l), StoreReply(r, true))
  {
    PassedNow(words, s, l, r);
    var parent := s.flight[r].parent;
    if parent.Some? && parent.value in s.db.posts {
      assert PostRefs(s.db, s.db.posts[parent.value]);
      PassedCheckIsShallow(s.db.posts, parent.value);
    }
  }

  /** When every check is followed by its insert at once, no post is nested more than twice all along the
      run, whatever else happens, hard deletions included. */
  lemma {:induction false} ShallowWhenAtOnce(words: Tokenizer, subs: set<Id>, run: seq<Label>)
    requires AtOnce(words, Init(subs), run)
    ensures Throughout(words, Init(subs), run, (s: System) => Shallow(s.db.posts))
  {
    ShallowAlwaysIff(words, subs, run);
    forall i | 0 <= i < |run| ensures !LandsTooDeep(words, Exec(words, Init(subs), run[..i]), run[i]) {
      AtOnceLands(words, subs, run, i);
    }
  }

  lemma AtOnceLands(words: Tokenizer, subs: set<Id>, run: seq<Label>, i: nat)
    requires AtOnce(words, Init(subs), run) && i < |run|
    ensures !LandsTooDeep(words, Exec(words, Init(subs), run[..i]), run[i])
  {
    var s := Exec(words, Init(subs), run[..i]);
    if LandsTooDeep(words, s, run[i]) {
      LandsAfterCheck(words, s, run[i]);
      AtOnceStores(words, subs, run, i, run[i].r);
    }
  }

  lemma AtOnceStores(words: Tokenizer, subs: set<Id>, run: seq<Label>, i: nat, r: nat)
    requires AtOnce(words, Init(subs), run) && i < |run|
    requires var s := Exec(words, Init(subs), run[..i]); r in s.flight && s.flight[r].ReplyPassed?
    ensures !LandsTooDeep(words, Exec(words, Init(subs), run[..i]), StoreReply(r, true))
  {
    if i > 0 {
      ExecLast(words, Init(subs), run, i);
      ExecSound(words, Init(subs), run[..i - 1]);
      CheckedJustNow(words, Exec(words, Init(subs), run[..i - 1]), run[i - 1], r);
    }
  }

  lemma ExecLast(words: Tokenizer, s: System, run: seq<Label>, i: nat)
    requires 0 < i <= |run|
    ensures Exec(words, s, run[..i]) == Step(words, Exec(words, s, run[..i - 1]), run[i - 1])
  {
    assert run[..i] == run[..i - 1] + [run[i - 1]];
    ExecSnoc(words, s, run[..i - 1], run[i - 1]);
  }

  /** Where every check is followed by its insert, a request that has passed did so in the last step. */
  lemma CheckedJustNow(words: Tokenizer, s: System, l: Label, r: nat)
    requires Sound(s) && forall x :: x in s.flight && s.flight[x].ReplyPassed? ==> l.StoreReply? && l.r == x
    requires var next := Step(words, s, l); r in next.flight && next.flight[r].ReplyPassed?
    ensures !LandsTooDeep(words, Step(words, s, l), StoreReply(r, true))
  {
    PassedNow(words, s, l, r);
    FreshCheckIsShallow(words, s, l, r);
  }

  lemma LandsAfterCheck(words: Tokenizer, s: System, l: Label)
    requires LandsTooDeep(words, s, l)
    ensures l.StoreReply? && l == StoreReply(l.r, true) && l.r in s.flight && s.flight[l.r].ReplyPassed?
  {
  }

  // ----- A parent that was there -----

  /** The parents that a check has seen are still there, and still at depth one at most. */
  ghost predicate SeenShallow(s: System) {
    forall r <- s.flight :: s.flight[r].ReplyPassed? && s.flight[r].seen && s.flight[r].parent.Some?
      ==> s.flight[r].parent.value in s.db.posts && Depth(s.db.posts, s.flight[r].parent.value) <= 1
  }

  /** A step that is no hard delete keeps every post, and its depth. */
  lemma {:induction false} DepthStays(words: Tokenizer, s: System, l: Label, q: Id)
    requires Sound(s) && !l.HardDelete? && q in s.db.posts
    ensures q in Step(words, s, l).db.posts && Depth(Step(words, s, l).db.posts, q) == Depth(s.db.posts, q)
  {
    if p :| Inserts(words, s, l, p) {
      InsertsOnly(words, s, l, p);
      InsertPostDepth(words, s.db, p, q);
    } else if l.Edit? {
      EditLeavesDepth(words, s, l, q);
    } else if l.SoftDelete? {
      DeleteLeavesDepth(words, s, l, q);
    } else if l.StoreReply? || l.StoreOpening? {
      NothingStored(words, s, l);
    } else {
      OthersLeavePosts(words, s, l);
    }
  }

  lemma EditLeavesDepth(words: Tokenizer, s: System, l: Label, q: Id)
    requires l.Edit? && q in s.db.posts
    ensures q in Step(words, s, l).db.posts && Depth(Step(words, s, l).db.posts, q) == Depth(s.db.posts, q)
  {
    var after := UpdatePost(words, s.db, l.post, l.body, l.held, l.editor);
    DepthFrame(s.db.posts, after.posts, q);
  }

  lemma DeleteLeavesDepth(words: Tokenizer, s: System, l: Label, q: Id)
    requires l.SoftDelete? && q in s.db.posts
    ensures q in Step(words, s, l).db.posts && Depth(Step(words, s, l).db.posts, q) == Depth(s.db.posts, q)
  {
    var after := DeletePost(words, s.db, l.post, l.editor);
    DepthFrame(s.db.posts, after.posts, q);
  }

  lemma {:induction false} StepKeepsSeen(words: Tokenizer, s: System, l: Label)
    requires Sound(s) && SeenShallow(s) && !l.HardDelete?
    ensures SeenShallow(Step(words, s, l))
  {
    var next := Step(words, s, l);
    forall r | r in next.flight && next.flight[r].ReplyPassed? && next.flight[r].seen && next.flight[r].parent.Some?
      ensures next.flight[r].parent.value in next.db.posts && Depth(next.db.posts, next.flight[r].parent.value) <= 1
    {
      SeenAfter(words, s, l, r);
    }
  }

  lemma SeenAfter(words: Tokenizer, s: System, l: Label, r: nat)
    requires Sound(s) && SeenShallow(s) && !l.HardDelete?
    requires var next := Step(words, s, l);
             r in next.flight && next.flight[r].ReplyPassed? && next.flight[r].seen && next.flight[r].parent.Some?
    ensures var next := Step(words, s, l);
            next.flight[r].parent.value in next.db.posts && Depth(next.db.posts, next.flight[r].parent.value) <= 1
  {
    PassedNow(words, s, l, r);
    if r in s.flight && s.flight[r].ReplyPassed? {
      DepthStays(words, s, l, s.flight[r].parent.value);
    } else {
      FreshSeen(words, s, l, r);
    }
  }

  lemma FreshSeen(words: Tokenizer, s: System, l: Label, r: nat)
    requires Sound(s) && l == CheckParent(r, true) && r in s.flight && s.flight[r].ReplyChecked?
    requires var next := Step(words, s, l);
             r in next.flight && next.flight[r].ReplyPassed? && next.flight[r].seen && next.flight[r].parent.Some?
    ensures var next := Step(words, s, l);
            next.flight[r].parent.value in next.db.posts && Depth(next.db.posts, next.flight[r].parent.value) <= 1
  {
    var parent := s.flight[r].parent.value;
    assert parent in s.db.posts;
    assert PostRefs(s.db, s.db.posts[parent]);
    PassedCheckIsShallow(s.db.posts, parent);
  }

  lemma {:induction false} SeenAlong(words: Tokenizer, s: System, run: seq<Label>)
    requires Sound(s) && SeenShallow(s) && forall l <- run :: !l.HardDelete?
    ensures SeenShallow(Exec(words, s, run))
  {
    if run != [] {
      var n := |run| - 1;
      assert run[n] in run;
      SeenAlong(words, s, run[..n]);
      ExecSound(words, s, run[..n]);
      StepKeepsSeen(words, Exec(words, s, run[..n]), run[n]);
    }
  }

  /** The step inserts a reply whose check had found no row of the parent it names. */
  ghost predicate StoresUnseen(s: System, l: Label) {
    l.StoreReply? && l.r in s.flight && s.flight[l.r].ReplyPassed? && !s.flight[l.r].seen
  }

  /** Without hard deletions, however checks and inserts interleave: no post is nested more than twice all
      along a run whose stored replies all named parents that existed at their checks. */
  lemma {:induction false} ShallowWhenSeen(words: Tokenizer, subs: set<Id>, run: seq<Label>)
    requires forall l <- run :: !l.HardDelete?
    requires Never(words, Init(subs), run, (s: System, l: Label) => StoresUnseen(s, l))
    ensures Throughout(words, Init(subs), run, (s: System) => Shallow(s.db.posts))
  {
    ShallowAlwaysIff(words, subs, run);
    forall i | 0 <= i < |run| ensures !LandsTooDeep(words, Exec(words, Init(subs), run[..i]), run[i]) {
      SeenUntil(words, subs, run, i);
      SeenLands(words, Exec(words, Init(subs), run[..i]), run[i]);
    }
  }

  lemma SeenUntil(words: Tokenizer, subs: set<Id>, run: seq<Label>, i: nat)
    requires i < |run| && forall l <- run :: !l.HardDelete?
    ensures SeenShallow(Exec(words, Init(subs), run[..i]))
  {
    forall l | l in run[..i] ensures !l.HardDelete? {
      assert l in run;
    }
    SeenAlong(words, Init(subs), run[..i]);
  }

  lemma SeenLands(words: Tokenizer, s: System, l: Label)
    requires SeenShallow(s) && !StoresUnseen(s, l)
    ensures !LandsTooDeep(words, s, l)
  {
  }

  // ----- A parent still to come -----

  lemma NextPost(words: Tokenizer, s: System, x: nat)
    requires x in s.flight && (s.flight[x].ReplyPassed? || s.flight[x].ThreadStored?)
    requires InsertPost(words, s.db, PostOf(s.flight[x])).Ok?
    ensures var id := NextId(s.db.posts.Keys);
            var next := if s.flight[x].ReplyPassed? then StoreReplyStep(words, s, x, true)
              else StoreOpeningStep(words, s, x, true);
            && next.db == InsertPost(words, s.db, PostOf(s.flight[x])).value.0 && NextId(next.db.posts.Keys) == id + 1
            && (forall y :: y != x ==>
                  (y in next.flight <==> y in s.flight) && (y in s.flight ==> next.flight[y] == s.flight[y]))
  {
    NextIdGrows(s.db.posts.Keys);
    assert s.db.posts[NextId(s.db.posts.Keys) := PostOf(s.flight[x])].Keys
           == s.db.posts.Keys + {NextId(s.db.posts.Keys)};
  }

  /** Two replies have passed their checks: `a` answers a post at depth one, `b` names the id that `a` is
      about to get.  Stored in this order, `b` lands at depth three. */
  lemma {:induction false} FutureParentLandsDeep(words: Tokenizer, s: System, a: nat, b: nat)
    requires a in s.flight && b in s.flight && a != b && s.flight[a].ReplyPassed? && s.flight[b].ReplyPassed?
    requires ForeignKeysHold(s.db, NextId(s.db.posts.Keys), PostOf(s.flight[a]))
    requires s.flight[b].thread in s.db.threads && s.flight[b].user in s.db.users
    requires s.flight[a].parent.Some? && s.flight[a].parent.value in s.db.posts
             && Depth(s.db.posts, s.flight[a].parent.value) == 1
    requires s.flight[b].parent == Some(NextId(s.db.posts.Keys))
    ensures !Shallow(StoreReplyStep(words, StoreReplyStep(words, s, a, true), b, true).db.posts)
  {
    var c := NextId(s.db.posts.Keys);
    NextPost(words, s, a);
    var mid := StoreReplyStep(words, s, a, true);
    InsertPostDepth(words, s.db, PostOf(s.flight[a]), c);
    assert Depth(mid.db.posts, c) == 2;
    NextPost(words, mid, b);
    var e := StoreReplyStep(words, mid, b, true);
    InsertPostDepth(words, mid.db, PostOf(mid.flight[b]), c);
    assert Depth(e.db.posts, c + 1) == 3 && c + 1 in e.db.posts;
  }

  function Asking(x: nat, t: Id, u: Id, parent: Id): seq<Label> {
    [BeginReply(x, t, u, Some(parent), "b", false, ""), CheckParent(x, true)]
  }

  function Passed(t: Id, u: Id, parent: Id, seen: bool): Request {
    ReplyPassed(t, u, Some(parent), "b", false, "", seen)
  }

  /** User `u` may reply in thread `t`. */
  ghost predicate MayPost(s: System, t: Id, u: Id) {
    u in s.db.users && !s.db.users[u].banned && t in s.db.threads && !s.db.threads[t].locked
  }

  lemma AskingPasses(words: Tokenizer, s: System, x: nat, t: Id, u: Id, parent: Id)
    requires MayPost(s, t, u) && x !in s.flight && !TooDeep(s.db.posts, parent)
    ensures Exec(words, s, Asking(x, t, u, parent))
            == s.(flight := s.flight[x := Passed(t, u, parent, parent in s.db.posts)])
  {
    var asked := ReplyChecked(t, u, Some(parent), "b", false, "");
    ExecTwo(words, s, Asking(x, t, u, parent)[0], CheckParent(x, true));
    var begun := Step(words, s, Asking(x, t, u, parent)[0]);
    assert begun == s.(flight := s.flight[x := asked]);
    assert Step(words, begun, CheckParent(x, true)) == CheckParentStep(begun, x, true);
    assert begun.flight[x := Passed(t, u, parent, parent in s.db.posts)]
           == s.flight[x := Passed(t, u, parent, parent in s.db.posts)];
  }

  /** A new thread with its opening post, and a user who may reply there. */
  lemma OpenedThread(words: Tokenizer, s: System, sub: Id) returns (run: seq<Label>, t: Id, u: Id, a: Id)
    requires Sound(s) && sub in s.db.subs
    ensures var e := Exec(words, s, run);
            && (forall l <- run :: !l.HardDelete?) && e.flight == s.flight && MayPost(e, t, u)
            && a in e.db.posts && e.db.posts[a].parent.None?
  {
    var x := NextId(s.flight.Keys);
    u, t, a := NextId(s.db.users.Keys), NextId(s.db.threads.Keys), NextId(s.db.posts.Keys);
    var opening := Opening(x, u, sub);
    run := opening + [StoreOpening(x, true)];
    OpeningSteps(words, s, x, u, sub);
    var asked := PutUser(s, u, NewUser()).(flight := s.flight[x := Asked(u, sub)]);
    var begun := StoreThreadStep(asked, x, true);
    RowOpened(asked, x);
    ExecConcat(words, s, opening, [StoreOpening(x, true)]);
    OpeningRun(words, begun, x);
    PutTwice(s.flight, x, Asked(u, sub), ThreadStored(t, u, "b", false));
    OpeningPosted(words, begun, x, t, u, s.flight);
  }

  lemma OpeningPosted(words: Tokenizer, s: System, x: nat, t: Id, u: Id, rest: map<nat, Request>)
    requires MayPost(s, t, u) && x !in rest && s.flight == rest[x := ThreadStored(t, u, "b", false)]
    ensures var e := StoreOpeningStep(words, s, x, true);
            var a := NextId(s.db.posts.Keys);
            e.flight == rest && MayPost(e, t, u) && a in e.db.posts && e.db.posts[a].parent.None?
  {
    assert s.flight - {x} == rest;
  }

  lemma RowOpened(s: System, x: nat)
    requires x in s.flight && s.flight[x].ThreadChecked? && s.flight[x].sub in s.db.subs
             && s.flight[x].user in s.db.users
    ensures var q := s.flight[x];
            var t := NextId(s.db.threads.Keys);
            var e := StoreThreadStep(s, x, true);
            && e.flight == s.flight[x := ThreadStored(t, q.user, q.body, q.held)] && e.db.posts == s.db.posts
               && e.db.users == s.db.users
            && t in e.db.threads && !e.db.threads[t].locked
  {
  }

  /** A reply to a post, stored. */
  lemma Answered(words: Tokenizer, s: System, t: Id, u: Id, a: Id) returns (run: seq<Label>, b: Id)
    requires MayPost(s, t, u) && a in s.db.posts && s.db.posts[a].parent.None?
    ensures var e := Exec(words, s, run);
            && (forall l <- run :: !l.HardDelete?) && MayPost(e, t, u)
            && a in e.db.posts && e.db.posts[a].parent.None?
            && b in e.db.posts && e.db.posts[b].parent == Some(a) && a < b
  {
    var x := NextId(s.flight.Keys);
    b := NextId(s.db.posts.Keys);
    AskingPasses(words, s, x, t, u, a);
    var asked := s.(flight := s.flight[x := Passed(t, u, a, true)]);
    run := Asking(x, t, u, a) + [StoreReply(x, true)];
    ExecConcat(words, s, Asking(x, t, u, a), [StoreReply(x, true)]);
    ExecTwo(words, asked, StoreReply(x, true), StoreReply(x, true));
    assert Step(words, asked, StoreReply(x, true)) == StoreReplyStep(words, asked, x, true);
    NextPost(words, asked, x);
  }

  lemma BothAsked(words: Tokenizer, s: System, x: nat, t: Id, u: Id, b: Id, c: Id)
    requires MayPost(s, t, u) && x !in s.flight && x + 1 !in s.flight && b in s.db.posts && c !in s.db.posts
             && !TooDeep(s.db.posts, b)
    ensures Exec(words, s, Asking(x, t, u, b) + Asking(x + 1, t, u, c))
         == s.(flight := s.flight[x := Passed(t, u, b, true)][x + 1 := Passed(t, u, c, false)])
  {
    AskingPasses(words, s, x, t, u, b);
    var one := s.(flight := s.flight[x := Passed(t, u, b, true)]);
    AskingPasses(words, one, x + 1, t, u, c);
    ExecConcat(words, s, Asking(x, t, u, b), Asking(x + 1, t, u, c));
  }

  lemma RaceLands(words: Tokenizer, s: System, x: nat, t: Id, u: Id, b: Id)
    requires MayPost(s, t, u) && b in s.db.posts && Depth(s.db.posts, b) == 1
    requires var c := NextId(s.db.posts.Keys);
             && x in s.flight && x + 1 in s.flight && s.flight[x] == Passed(t, u, b, true)
                && s.flight[x + 1] == Passed(t, u, c, false)
    ensures !Shallow(Exec(words, s, [StoreReply(x, true), StoreReply(x + 1, true)]).db.posts)
  {
    FutureParentLandsDeep(words, s, x, x + 1);
    StoredInTurn(words, s, x, x + 1);
  }

  /** Two more replies, checked before either is stored. */
  lemma Raced(words: Tokenizer, s: System, t: Id, u: Id, a: Id, b: Id) returns (run: seq<Label>)
    requires MayPost(s, t, u) && a in s.db.posts && s.db.posts[a].parent.None?
    requires b in s.db.posts && s.db.posts[b].parent == Some(a) && a < b
    ensures (forall l <- run :: !l.HardDelete?) && !Shallow(Exec(words, s, run).db.posts)
  {
    var x := NextId(s.flight.Keys);
    var c := NextId(s.db.posts.Keys);
    var asking, storing := Asking(x, t, u, b) + Asking(x + 1, t, u, c), [StoreReply(x, true), StoreReply(x + 1, true)];
    BothAsked(words, s, x, t, u, b, c);
    DepthOfAnswer(s.db.posts, a, b);
    RaceLands(words, Exec(words, s, asking), x, t, u, b);
    ExecConcat(words, s, asking, storing);
    run := asking + storing;
  }

  lemma DepthOfAnswer(posts: map<Id, Post>, a: Id, b: Id)
    requires a in posts && posts[a].parent.None? && b in posts && posts[b].parent == Some(a) && a < b
    ensures Depth(posts, b) == 1
  {
    assert Depth(posts, a) == 0;
  }

  lemma StoredInTurn(words: Tokenizer, s: System, a: nat, b: nat)
    ensures Exec(words, s, [StoreReply(a, true), StoreReply(b, true)])
            == StoreReplyStep(words, StoreReplyStep(words, s, a, true), b, true)
  {
    ExecTwo(words, s, StoreReply(a, true), StoreReply(b, true));
  }

  /** The hypothesis is needed: from every state, without a hard deletion, some users' replies end up
      nested three deep, because one names an id that is still to be handed out when it is checked. */
  lemma {:induction false} BoundCanBreak(words: Tokenizer, s: System, sub: Id) returns (run: seq<Label>)
    requires Sound(s) && sub in s.db.subs
    ensures (forall l <- run :: !l.HardDelete?) && !Shallow(Exec(words, s, run).db.posts)
  {
    var opening, t, u, a := OpenedThread(words, s, sub);
    var answering, b := Answered(words, Exec(words, s, opening), t, u, a);
    ExecConcat(words, s, opening, answering);
    var racing := Raced(words, Exec(words, s, opening + answering), t, u, a, b);
    ExecConcat(words, s, opening + answering, racing);
    run := opening + answering + racing;
  }
}
