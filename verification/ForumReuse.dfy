/** What a hard delete under a request in flight can do: DeleteThread of internal/handler/moderation.go
    frees a thread id, and the requests that have written to the thread still hold it. */
module ForumReuse {
  import opened Tables
  import opened ForumDb
  import opened ForumForest
  import opened ForumRequests
  import opened ForumForestRuns
  import opened ForumCounters

  // ----- Runs without failing calls -----

  /** A continuation in which threads are deleted only while idle and no counting call fails. */
  ghost predicate Orderly(words: Tokenizer, s: System, run: seq<Label>) {
    Guarded(words, s, run) && NoFailures(run)
  }

  lemma {:induction false} OrderlyConcat(words: Tokenizer, s: System, a: seq<Label>, b: seq<Label>)
    requires Orderly(words, s, a) && Orderly(words, Exec(words, s, a), b)
    ensures Orderly(words, s, a + b) && Exec(words, s, a + b) == Exec(words, Exec(words, s, a), b)
  {
    ExecConcat(words, s, a, b);
    GuardedConcat(words, s, a, b);
  }

  lemma OrderlyWithoutDeletes(words: Tokenizer, s: System, run: seq<Label>)
    requires NoFailures(run) && forall l <- run :: !l.HardDelete?
    ensures Orderly(words, s, run)
  {
    forall i | 0 <= i < |run| ensures !run[i].HardDelete? {
      assert run[i] in run;
    }
  }

  /** The subcategories stay, and thread ids are handed out from 1 on. */
  lemma {:induction false} ExecFixed(words: Tokenizer, s: System, run: seq<Label>)
    ensures Exec(words, s, run).db.subs == s.db.subs
    ensures 0 !in s.db.threads ==> 0 !in Exec(words, s, run).db.threads
  {
    if run != [] {
      var n := |run| - 1;
      ExecFixed(words, s, run[..n]);
      StepFixed(words, Exec(words, s, run[..n]), run[n]);
    }
  }

  lemma StepFixed(words: Tokenizer, s: System, l: Label)
    ensures Step(words, s, l).db.subs == s.db.subs
    ensures Step(words, s, l).db.threads.Keys <= s.db.threads.Keys + {NextId(s.db.threads.Keys)}
  {
    if IsCheck(l) {
      ChecksLeaveTables(words, s, l);
    } else if IsThreadStep(l) {
      ThreadStepsLeave(words, s, l);
      ThreadIds(words, s, l);
    } else if IsUserStep(l) {
      UserStepsLeave(words, s, l);
    } else if IsPostStep(l) {
      PostStepsLeave(words, s, l);
    } else if l.HardDelete? {
      assert Step(words, s, l) == HardDeleteStep(words, s, l.thread);
    } else {
      MarksLeave(words, s, l);
    }
  }

  lemma ThreadIds(words: Tokenizer, s: System, l: Label)
    requires IsThreadStep(l)
    ensures Step(words, s, l).db.threads.Keys <= s.db.threads.Keys + {NextId(s.db.threads.Keys)}
  {
    if l.BumpThread? {
      assert Step(words, s, l) == BumpThreadStep(s, l.r, l.up);
    } else if l.StoreThread? {
      assert Step(words, s, l) == StoreThreadStep(s, l.r, l.up);
    }
  }

  /** Nothing more is lost. */
  lemma {:induction false} ExecLosesNothing(words: Tokenizer, s: System, run: seq<Label>, t: Id)
    requires Sound(s) && NoFailures(run)
    ensures t !in s.bare ==> t !in Exec(words, s, run).bare
    ensures Tally(Exec(words, s, run).lostBumps, t) <= Tally(s.lostBumps, t)
  {
    if run != [] {
      var n := |run| - 1;
      assert run[n] in run;
      ExecLosesNothing(words, s, run[..n], t);
      ExecSound(words, s, run[..n]);
      StepLosesNothing(words, Exec(words, s, run[..n]), run[n], t);
    }
  }

  lemma StepLosesNothing(words: Tokenizer, s: System, l: Label, t: Id)
    requires Sound(s) && ((l.BumpThread? || l.StoreOpening?) ==> l.up)
    ensures t !in s.bare ==> t !in Step(words, s, l).bare
    ensures Tally(Step(words, s, l).lostBumps, t) <= Tally(s.lostBumps, t)
  {
    if l.HardDelete? {
      assert Step(words, s, l) == HardDeleteStep(words, s, l.thread);
    } else {
      NothingMoreLost(words, s, l);
    }
  }

  // ----- Finishing the requests in flight -----

  /** What is left of one request: before its first write it is given up, afterwards it is seen through. */
  function Rest(r: nat, q: Request): seq<Label> {
    match q
    case ReplyChecked(_, _, _, _, _, _) => [CheckParent(r, false)]
    case ReplyPassed(_, _, _, _, _, _, _) => [StoreReply(r, false)]
    case ReplyStored(_, _, _) => [BumpThread(r, true), CountReply(r, true)]
    case ReplyBumped(_) => [CountReply(r, true)]
    case ThreadChecked(_, _, _, _, _, _) => [StoreThread(r, false)]
    case ThreadStored(_, _, _, _) => [StoreOpening(r, true)]
  }

  lemma BumpAndCountRun(words: Tokenizer, s: System, r: nat)
    ensures Exec(words, s, [BumpThread(r, true), CountReply(r, true)])
            == CountReplyStep(BumpThreadStep(s, r, true), r, true)
  {
    ExecTwo(words, s, BumpThread(r, true), CountReply(r, true));
    IsItsStep(words, s, r);
    IsItsStep(words, BumpThreadStep(s, r, true), r);
  }

  lemma OpeningRun(words: Tokenizer, s: System, r: nat)
    ensures Exec(words, s, [StoreOpening(r, true)]) == StoreOpeningStep(words, s, r, true)
  {
    ExecTwo(words, s, StoreOpening(r, true), StoreOpening(r, true));
    IsItsStep(words, s, r);
  }

  lemma IsItsStep(words: Tokenizer, s: System, r: nat)
    ensures Step(words, s, BumpThread(r, true)) == BumpThreadStep(s, r, true)
    ensures Step(words, s, CountReply(r, true)) == CountReplyStep(s, r, true)
    ensures Step(words, s, StoreThread(r, true)) == StoreThreadStep(s, r, true)
    ensures Step(words, s, StoreOpening(r, true)) == StoreOpeningStep(words, s, r, true)
    ensures forall t :: Step(words, s, HardDelete(t)) == HardDeleteStep(words, s, t)
  {
  }

  lemma Finish(words: Tokenizer, s: System, r: nat)
    requires r in s.flight
    ensures var run := Rest(r, s.flight[r]);
            && Orderly(words, s, run)
            && Exec(words, s, run).flight == s.flight - {r} && Exec(words, s, run).db.threads.Keys == s.db.threads.Keys
  {
    var run := Rest(r, s.flight[r]);
    OrderlyWithoutDeletes(words, s, run);
    if s.flight[r].ReplyStored? {
      BumpAndCountRun(words, s, r);
      BumpAndCount(s, r);
    } else {
      assert run == [run[0]];
      ExecTwo(words, s, run[0], run[0]);
      LastStep(words, s, r);
    }
  }

  lemma BumpAndCount(s: System, r: nat)
    requires r in s.flight && s.flight[r].ReplyStored?
    ensures var e := CountReplyStep(BumpThreadStep(s, r, true), r, true);
            && e.flight == s.flight - {r} && e.db.threads.Keys == s.db.threads.Keys && e.db.posts == s.db.posts
            && (forall x <- s.db.threads :: x != s.flight[r].thread ==> e.db.threads[x] == s.db.threads[x])
            && (s.flight[r].thread in s.db.threads ==>
                  e.db.threads[s.flight[r].thread].replyCount == s.db.threads[s.flight[r].thread].replyCount + 1)
  {
    var q := ReplyBumped(s.flight[r].user);
    assert s.flight[r := q] - {r} == s.flight - {r};
  }

  lemma LastStep(words: Tokenizer, s: System, r: nat)
    requires r in s.flight && !s.flight[r].ReplyStored?
    ensures var e := Step(words, s, Rest(r, s.flight[r])[0]);
            e.flight == s.flight - {r} && e.db.threads.Keys == s.db.threads.Keys
  {
    match s.flight[r]
    case ReplyChecked(_, _, _, _, _, _) => assert CheckParentStep(s, r, false) == Drop(s, r);
    case ReplyPassed(_, _, _, _, _, _, _) => assert StoreReplyStep(words, s, r, false) == Drop(s, r);
    case ReplyBumped(_) => CountLeavesThreads(s, r);
    case ThreadChecked(_, _, _, _, _, _) => assert StoreThreadStep(s, r, false) == Drop(s, r);
    case ThreadStored(_, _, _, _) => OpeningLeavesThreads(words, s, r);
  }

  lemma CountLeavesThreads(s: System, r: nat)
    requires r in s.flight && s.flight[r].ReplyBumped?
    ensures var e := CountReplyStep(s, r, true); e.flight == s.flight - {r} && e.db.threads == s.db.threads
  {
  }

  lemma OpeningLeavesThreads(words: Tokenizer, s: System, r: nat)
    requires r in s.flight && s.flight[r].ThreadStored?
    ensures var e := StoreOpeningStep(words, s, r, true); e.flight == s.flight - {r} && e.db.threads == s.db.threads
  {
    StoreOpeningLeaves(words, s, r, true);
  }

  /** Every request but one is finished; no thread comes or goes. */
  lemma {:induction false} Drain(words: Tokenizer, s: System, keep: nat) returns (run: seq<Label>)
    ensures Orderly(words, s, run)
    ensures Exec(words, s, run).flight == (map r | r in s.flight && r == keep :: s.flight[r])
    ensures Exec(words, s, run).db.threads.Keys == s.db.threads.Keys
    decreases s.flight.Keys
  {
    if r :| r in s.flight && r != keep {
      var first := Rest(r, s.flight[r]);
      Finish(words, s, r);
      var next := Exec(words, s, first);
      assert next.flight.Keys == s.flight.Keys - {r};
      var more := Drain(words, next, keep);
      OrderlyConcat(words, s, first, more);
      run := first + more;
    } else {
      run := [];
    }
  }

  // ----- Deleting idle threads -----

  /** Every thread but those to keep is deleted, one by one. */
  lemma {:induction false} DeleteAll(words: Tokenizer, s: System, keep: set<Id>) returns (run: seq<Label>)
    requires forall x <- s.db.threads :: x !in keep ==> Idle(s, x)
    ensures Orderly(words, s, run)
    ensures var e := Exec(words, s, run);
            && e.flight == s.flight && e.db.threads.Keys == s.db.threads.Keys * keep
            && forall x <- e.db.threads ::
               e.db.threads[x] == s.db.threads[x] && PostsOf(e.db.posts, x) == PostsOf(s.db.posts, x)
    decreases s.db.threads.Keys
  {
    if t :| t in s.db.threads && t !in keep {
      var first := [HardDelete(t)];
      var next := OneDeleted(words, s, t);
      assert next.db.threads.Keys == s.db.threads.Keys - {t};
      forall x | x in next.db.threads && x !in keep ensures Idle(next, x) {
        assert Idle(s, x);
      }
      var more := DeleteAll(words, next, keep);
      OrderlyConcat(words, s, first, more);
      run := first + more;
    } else {
      run := [];
    }
  }

  lemma OneDeleted(words: Tokenizer, s: System, t: Id) returns (next: System)
    requires t in s.db.threads && Idle(s, t)
    ensures next == Exec(words, s, [HardDelete(t)]) && Orderly(words, s, [HardDelete(t)])
    ensures next.flight == s.flight && next.db.threads == s.db.threads - {t}
    ensures forall x :: x != t ==> PostsOf(next.db.posts, x) == PostsOf(s.db.posts, x)
  {
    ExecTwo(words, s, HardDelete(t), HardDelete(t));
    next := Step(words, s, HardDelete(t));
    assert [HardDelete(t)][..0] == [];
    forall x | x != t ensures PostsOf(next.db.posts, x) == PostsOf(s.db.posts, x) {
      DeleteThreadCounts(words, s.db, t, x);
    }
  }

  // ----- Starting threads until an id is handed out -----

  function Begin(x: nat, u: Id, sub: Id): Label {
    BeginThread(x, sub, u, "t", "b", false, "")
  }

  /** A new user `u` starts a thread. */
  function Opening(x: nat, u: Id, sub: Id): seq<Label> {
    [Register, Begin(x, u, sub), StoreThread(x, true)]
  }

  /** The thread row is there, its opening post still to come. */
  lemma Opened(words: Tokenizer, s: System, x: nat, sub: Id)
    requires Sound(s) && sub in s.db.subs && x !in s.flight
    ensures var u := NextId(s.db.users.Keys);
            var t := NextId(s.db.threads.Keys);
            var e := Exec(words, s, Opening(x, u, sub));
            && Orderly(words, s, Opening(x, u, sub))
            && e.flight == s.flight[x := ThreadStored(t, u, "b", false)]
            && e.db.threads.Keys == s.db.threads.Keys + {t} && e.db.threads[t].replyCount == 0
               && e.db.threads[t].sub == sub
            && e.db.posts == s.db.posts
  {
    var u := NextId(s.db.users.Keys);
    var known := PutUser(s, u, NewUser());
    OrderlyWithoutDeletes(words, s, Opening(x, u, sub));
    OpeningSteps(words, s, x, u, sub);
    AskedStored(known, s.flight, x, u, sub);
  }

  lemma AskedStored(s: System, flight: map<nat, Request>, x: nat, u: Id, sub: Id)
    requires sub in s.db.subs && u in s.db.users
    ensures var t := NextId(s.db.threads.Keys);
            var e := StoreThreadStep(s.(flight := flight[x := Asked(u, sub)]), x, true);
            && e.flight == flight[x := ThreadStored(t, u, "b", false)] && e.db.posts == s.db.posts
            && e.db.threads.Keys == s.db.threads.Keys + {t} && e.db.threads[t].replyCount == 0
               && e.db.threads[t].sub == sub
  {
    RowStored(s.(flight := flight[x := Asked(u, sub)]), x);
    PutTwice(flight, x, Asked(u, sub), ThreadStored(NextId(s.db.threads.Keys), u, "b", false));
  }

  lemma PutTwice(flight: map<nat, Request>, x: nat, p: Request, q: Request)
    ensures flight[x := p][x := q] == flight[x := q]
  {
  }

  function Asked(u: Id, sub: Id): Request {
    ThreadChecked(sub, u, "t", "b", false, "")
  }

  lemma OpeningSteps(words: Tokenizer, s: System, x: nat, u: Id, sub: Id)
    requires sub in s.db.subs && x !in s.flight && u == NextId(s.db.users.Keys)
    ensures Exec(words, s, Opening(x, u, sub))
            == StoreThreadStep(PutUser(s, u, NewUser()).(flight := s.flight[x := Asked(u, sub)]), x, true)
  {
    ExecThree(words, s, Register, Begin(x, u, sub), StoreThread(x, true));
    var known := PutUser(s, u, NewUser());
    assert Step(words, s, Register) == known;
    Begun(words, known, x, u, sub);
    IsItsStep(words, known.(flight := s.flight[x := Asked(u, sub)]), x);
  }

  lemma Begun(words: Tokenizer, s: System, x: nat, u: Id, sub: Id)
    requires sub in s.db.subs && x !in s.flight && u in s.db.users && !s.db.users[u].banned
    ensures Step(words, s, Begin(x, u, sub)) == s.(flight := s.flight[x := Asked(u, sub)])
  {
  }

  lemma RowStored(s: System, x: nat)
    requires x in s.flight && s.flight[x].ThreadChecked? && s.flight[x].sub in s.db.subs
             && s.flight[x].user in s.db.users
    ensures var q := s.flight[x];
            var t := NextId(s.db.threads.Keys);
            var e := StoreThreadStep(s, x, true);
            && e.flight == s.flight[x := ThreadStored(t, q.user, q.body, q.held)] && e.db.posts == s.db.posts
            && e.db.threads.Keys == s.db.threads.Keys + {t} && e.db.threads[t].replyCount == 0
               && e.db.threads[t].sub == q.sub
  {
  }

  /** A whole new thread. */
  lemma OneMoreThread(words: Tokenizer, s: System, sub: Id) returns (run: seq<Label>)
    requires Sound(s) && sub in s.db.subs
    ensures Orderly(words, s, run)
    ensures var e := Exec(words, s, run);
            e.flight == s.flight && e.db.threads.Keys == s.db.threads.Keys + {NextId(s.db.threads.Keys)}
  {
    var x, u := NextId(s.flight.Keys), NextId(s.db.users.Keys);
    Opened(words, s, x, sub);
    var mid := Exec(words, s, Opening(x, u, sub));
    Finish(words, mid, x);
    OrderlyConcat(words, s, Opening(x, u, sub), Rest(x, mid.flight[x]));
    run := Opening(x, u, sub) + Rest(x, mid.flight[x]);
    PutGone(s.flight, x, mid.flight[x]);
  }

  lemma PutGone(flight: map<nat, Request>, x: nat, q: Request)
    requires x !in flight
    ensures flight[x := q] - {x} == flight
  {
  }

  lemma NextIdGrows(ids: set<Id>)
    ensures NextId(ids + {NextId(ids)}) == NextId(ids) + 1
  {
    var n := NextId(ids);
    var more := ids + {n};
    assert n in more;
    assert MaxId(more) == n;
  }

  lemma {:induction false} Fill(words: Tokenizer, s: System, t: Id, sub: Id) returns (run: seq<Label>)
    requires Sound(s) && sub in s.db.subs && NextId(s.db.threads.Keys) <= t
    ensures Orderly(words, s, run)
    ensures Exec(words, s, run).flight == s.flight && NextId(Exec(words, s, run).db.threads.Keys) == t
    decreases t - NextId(s.db.threads.Keys)
  {
    if NextId(s.db.threads.Keys) == t {
      run := [];
    } else {
      var first := OneMoreThread(words, s, sub);
      var next := Exec(words, s, first);
      ExecSound(words, s, first);
      ExecFixed(words, s, first);
      NextIdGrows(s.db.threads.Keys);
      var more := Fill(words, next, t, sub);
      OrderlyConcat(words, s, first, more);
      run := first + more;
    }
  }

  // ----- The stray write -----

  /** The shown number of posts of a thread, against the real one. */
  ghost predicate Miscounted(s: System, t: Id)
    requires t in s.db.threads
  {
    s.db.threads[t].replyCount + 1 != |PostsOf(s.db.posts, t)|
  }

  /** A request of the deleted thread `t` and the new thread that got its id: whatever the first still
      writes, the new thread ends up miscounted. */
  lemma StrayWrite(words: Tokenizer, s: System, t: Id, r: nat, x: nat)
    requires Sound(s) && r != x && s.flight.Keys == {r, x}
    requires Touches(s.flight[r], t) && s.flight[x].ThreadStored? && s.flight[x].thread == t
    requires t in s.db.threads && s.db.threads[t].replyCount == 0 && PostsOf(s.db.posts, t) == {}
    ensures var run := Rest(r, s.flight[r]) + Rest(x, s.flight[x]);
            var e := Exec(words, s, run);
            && Orderly(words, s, run) && e.flight == map[]
            && e.db.threads.Keys == s.db.threads.Keys && e.db.threads[t].sub == s.db.threads[t].sub && Miscounted(e, t)
  {
    var first, last := Rest(r, s.flight[r]), Rest(x, s.flight[x]);
    Finish(words, s, r);
    ExecSound(words, s, first);
    FirstWrite(words, s, t, r, first);
    var mid := Exec(words, s, first);
    assert mid.flight == s.flight - {r} && mid.flight[x] == s.flight[x];
    SecondWrite(words, mid, t, x);
    OrderlyConcat(words, s, first, last);
    assert s.flight - {r} - {x} == map[];
  }

  lemma SecondWrite(words: Tokenizer, s: System, t: Id, x: nat)
    requires Sound(s) && x in s.flight && s.flight[x].ThreadStored? && s.flight[x].thread == t
    requires t in s.db.threads && s.db.threads[t].replyCount != |PostsOf(s.db.posts, t)|
    ensures var last := Rest(x, s.flight[x]);
            var e := Exec(words, s, last);
            && Orderly(words, s, last) && e.flight == s.flight - {x} && e.db.threads == s.db.threads && Miscounted(e, t)
  {
    assert Rest(x, s.flight[x]) == [StoreOpening(x, true)];
    OrderlyWithoutDeletes(words, s, [StoreOpening(x, true)]);
    OpeningRun(words, s, x);
    SecondOpening(words, s, t, x);
  }

  lemma SecondOpening(words: Tokenizer, s: System, t: Id, x: nat)
    requires Sound(s) && x in s.flight && s.flight[x].ThreadStored? && s.flight[x].thread == t
    requires t in s.db.threads && s.db.threads[t].replyCount != |PostsOf(s.db.posts, t)|
    ensures var e := StoreOpeningStep(words, s, x, true);
            e.flight == s.flight - {x} && e.db.threads == s.db.threads && Miscounted(e, t)
  {
    OpeningLeavesThreads(words, s, x);
    OpeningArrives(words, s, x, t);
  }

  /** A counted reply without a post, or a second opening post. */
  lemma FirstWrite(words: Tokenizer, s: System, t: Id, r: nat, run: seq<Label>)
    requires Sound(s) && r in s.flight && Touches(s.flight[r], t) && run == Rest(r, s.flight[r])
    requires t in s.db.threads && s.db.threads[t].replyCount == 0 && PostsOf(s.db.posts, t) == {}
    ensures var e := Exec(words, s, run);
            && t in e.db.threads && e.db.threads[t].sub == s.db.threads[t].sub
            && e.db.threads[t].replyCount != |PostsOf(e.db.posts, t)|
  {
    if s.flight[r].ReplyStored? {
      assert run == [BumpThread(r, true), CountReply(r, true)];
      StrayBump(words, s, t, r);
    } else {
      assert run == [StoreOpening(r, true)];
      StrayOpening(words, s, t, r);
    }
  }

  lemma StrayOpening(words: Tokenizer, s: System, t: Id, r: nat)
    requires Sound(s) && r in s.flight && s.flight[r].ThreadStored? && s.flight[r].thread == t
    requires t in s.db.threads && s.db.threads[t].replyCount == 0 && PostsOf(s.db.posts, t) == {}
    ensures var e := Exec(words, s, [StoreOpening(r, true)]);
            && t in e.db.threads && e.db.threads[t].sub == s.db.threads[t].sub
            && e.db.threads[t].replyCount == 0 && |PostsOf(e.db.posts, t)| == 1
  {
    OpeningRun(words, s, r);
    OpeningArrives(words, s, r, t);
  }

  lemma StrayBump(words: Tokenizer, s: System, t: Id, r: nat)
    requires r in s.flight && s.flight[r].ReplyStored? && s.flight[r].thread == t
    requires t in s.db.threads && s.db.threads[t].replyCount == 0 && PostsOf(s.db.posts, t) == {}
    ensures var e := Exec(words, s, [BumpThread(r, true), CountReply(r, true)]);
            && t in e.db.threads && e.db.threads[t].sub == s.db.threads[t].sub
            && e.db.threads[t].replyCount == 1 && PostsOf(e.db.posts, t) == {}
  {
    BumpAndCountRun(words, s, r);
    BumpAndCount(s, r);
    BumpKeepsSub(s, r, t);
  }

  lemma OpeningArrives(words: Tokenizer, s: System, x: nat, t: Id)
    requires Sound(s) && x in s.flight && s.flight[x].ThreadStored? && s.flight[x].thread == t && t in s.db.threads
    ensures var e := StoreOpeningStep(words, s, x, true);
            && e.db.threads == s.db.threads && |PostsOf(e.db.posts, t)| == |PostsOf(s.db.posts, t)| + 1
  {
    var q := s.flight[x];
    assert q.user in s.db.users;
    InsertPostCounts(words, s.db, PostOf(q), t);
  }

  lemma BumpKeepsSub(s: System, r: nat, t: Id)
    requires r in s.flight && s.flight[r].ReplyStored? && t in s.db.threads
    ensures var e := CountReplyStep(BumpThreadStep(s, r, true), r, true);
            t in e.db.threads && e.db.threads[t].sub == s.db.threads[t].sub
  {
    OneBumpKeepsSub(s, r, t);
    CountLeavesThreads(BumpThreadStep(s, r, true), r);
  }

  lemma OneBumpKeepsSub(s: System, r: nat, t: Id)
    requires r in s.flight && s.flight[r].ReplyStored? && t in s.db.threads
    ensures var e := BumpThreadStep(s, r, true);
            r in e.flight && e.flight[r].ReplyBumped? && t in e.db.threads && e.db.threads[t].sub == s.db.threads[t].sub
  {
  }

  // ----- An untimely deletion -----

  /** The home page shows the real number of posts of every subcategory. */
  ghost predicate ShowsRealCounts(s: System) {
    forall sub :: SumCounts(s.db.threads, ThreadsIn(s.db, sub)) == |RealPosts(s.db.posts, ThreadsIn(s.db, sub))|
  }

  /** At rest, with thread `t` the only one, shown with a wrong number of posts. */
  ghost predicate OnlyMiscounted(s: System, t: Id) {
    s.flight == map[] && s.db.threads.Keys == {t} && Miscounted(s, t)
  }

  /** Another request is still to write to the deleted thread `t`: everything else finishes, the other
      threads go, new ones come until `t` is handed out again, and then the request writes. */
  lemma {:induction false} StrayContinuation(words: Tokenizer, s: System, t: Id, r: nat, sub: Id)
      returns (run: seq<Label>)
    requires Sound(s) && t > 0 && t !in s.db.threads && sub in s.db.subs && r in s.flight && Touches(s.flight[r], t)
    ensures Orderly(words, s, run) && OnlyMiscounted(Exec(words, s, run), t)
            && Exec(words, s, run).db.threads[t].sub == sub
  {
    var clearing := Cleared(words, s, t, r);
    var empty := Exec(words, s, clearing);
    ExecSound(words, s, clearing);
    ExecFixed(words, s, clearing);
    var filling := Fill(words, empty, t, sub);
    var full := Exec(words, empty, filling);
    ExecSound(words, empty, filling);
    ExecFixed(words, empty, filling);
    OrderlyConcat(words, s, clearing, filling);
    var ending := LeftAlone(words, full, t, r, sub);
    OrderlyConcat(words, s, clearing + filling, ending);
    run := clearing + filling + ending;
  }

  /** The id is handed out, the stray write arrives, and the other threads go. */
  lemma LeftAlone(words: Tokenizer, s: System, t: Id, r: nat, sub: Id) returns (run: seq<Label>)
    requires Sound(s) && NextId(s.db.threads.Keys) == t && sub in s.db.subs
    requires s.flight.Keys == {r} && Touches(s.flight[r], t)
    ensures Orderly(words, s, run) && OnlyMiscounted(Exec(words, s, run), t)
            && Exec(words, s, run).db.threads[t].sub == sub
  {
    var writing := Reused(words, s, t, r, sub);
    var wrong := Exec(words, s, writing);
    var deleting := DeleteAll(words, wrong, {t});
    OrderlyConcat(words, s, writing, deleting);
    run := writing + deleting;
    assert wrong.db.threads.Keys * {t} == {t};
  }

  lemma Cleared(words: Tokenizer, s: System, t: Id, r: nat) returns (run: seq<Label>)
    requires t !in s.db.threads && r in s.flight && Touches(s.flight[r], t)
    ensures Orderly(words, s, run)
    ensures Exec(words, s, run).flight == map[r := s.flight[r]] && Exec(words, s, run).db.threads.Keys == {}
  {
    var draining := Drain(words, s, r);
    var quiet := Exec(words, s, draining);
    assert quiet.flight == map[r := s.flight[r]];
    forall x | x in quiet.db.threads ensures Idle(quiet, x) {
    }
    var deleting := DeleteAll(words, quiet, {});
    OrderlyConcat(words, s, draining, deleting);
    run := draining + deleting;
    assert quiet.db.threads.Keys * {} == {};
  }

  /** The id is handed out, and the stray write arrives. */
  lemma Reused(words: Tokenizer, s: System, t: Id, r: nat, sub: Id) returns (run: seq<Label>)
    requires Sound(s) && NextId(s.db.threads.Keys) == t && sub in s.db.subs
    requires s.flight.Keys == {r} && Touches(s.flight[r], t)
    ensures Orderly(words, s, run)
    ensures var e := Exec(words, s, run);
            e.flight == map[] && t in e.db.threads && e.db.threads[t].sub == sub && Miscounted(e, t)
  {
    var x, u := NextId(s.flight.Keys), NextId(s.db.users.Keys);
    var opening := Opening(x, u, sub);
    Opened(words, s, x, sub);
    NoThreadNoPosts(s.db, t);
    var mid := Exec(words, s, opening);
    ExecSound(words, s, opening);
    StrayWrite(words, mid, t, r, x);
    var writing := Rest(r, mid.flight[r]) + Rest(x, mid.flight[x]);
    OrderlyConcat(words, s, opening, writing);
    run := opening + writing;
  }

  lemma OneThreadShown(s: System, t: Id)
    requires OnlyMiscounted(s, t)
    ensures var ts := ThreadsIn(s.db, s.db.threads[t].sub); SumCounts(s.db.threads, ts) != |RealPosts(s.db.posts, ts)|
  {
    var ts := ThreadsIn(s.db, s.db.threads[t].sub);
    assert ts == {t} && MaxId(ts) == t && ts - {t} == {};
    assert SumCounts(s.db.threads, ts) == SumCounts(s.db.threads, {}) + s.db.threads[t].replyCount + 1;
    assert RealPosts(s.db.posts, ts) == PostsOf(s.db.posts, t);
  }

  /** After a guarded run: deleting thread `t` under a request that still has to write to it leaves a state
      from which, without any untimely deletion or failing count, the forum comes to rest with the
      reused thread `t` out of balance and a wrong number of posts on the home page. */
  lemma {:induction false} BusyDeleteMiscounts(words: Tokenizer, subs: set<Id>, before: seq<Label>, t: Id)
      returns (after: seq<Label>)
    requires var s := Exec(words, Init(subs), before); t in s.db.threads && !Idle(s, t)
    ensures var d := HardDeleteStep(words, Exec(words, Init(subs), before), t);
            var e := Exec(words, d, after);
            && Orderly(words, d, after) && e.flight == map[]
            && t in e.db.threads && !Balanced(ViewOf(e, t)) && !ShowsRealCounts(e)
  {
    var s := Exec(words, Init(subs), before);
    ExecSound(words, Init(subs), before);
    ExecFixed(words, Init(subs), before);
    after := AfterDelete(words, s, t);
    EndsWrong(Exec(words, HardDeleteStep(words, s, t), after), t);
  }

  lemma AfterDelete(words: Tokenizer, s: System, t: Id) returns (after: seq<Label>)
    requires Sound(s) && t > 0 && t in s.db.threads && !Idle(s, t)
    ensures var d := HardDeleteStep(words, s, t);
            var e := Exec(words, d, after);
            Orderly(words, d, after) && OnlyMiscounted(e, t) && t !in e.bare && Tally(e.lostBumps, t) == 0
  {
    HardDeleteSound(words, s, t);
    assert ThreadRefs(s.db, s.db.threads[t]);
    var r := SomePending(s, t);
    var sub := s.db.threads[t].sub;
    DeletedFacts(words, s, t);
    var d := HardDeleteStep(words, s, t);
    after := StrayContinuation(words, d, t, r, sub);
    ExecLosesNothing(words, d, after, t);
  }

  lemma EndsWrong(e: System, t: Id)
    requires OnlyMiscounted(e, t) && t !in e.bare && Tally(e.lostBumps, t) == 0
    ensures !Balanced(ViewOf(e, t)) && !ShowsRealCounts(e)
  {
    RestUnbalanced(e, t);
    OneThreadShown(e, t);
  }

  lemma DeletedFacts(words: Tokenizer, s: System, t: Id)
    requires t in s.db.threads
    ensures var d := HardDeleteStep(words, s, t);
            && t !in d.db.threads && d.flight == s.flight && d.db.subs == s.db.subs
            && t !in d.bare && Tally(d.lostBumps, t) == 0
  {
  }

  lemma SomePending(s: System, t: Id) returns (r: nat)
    requires !Idle(s, t)
    ensures r in s.flight && Touches(s.flight[r], t)
  {
    var pending := PendingBumps(s.flight, t) + PendingOpenings(s.flight, t);
    assert pending != {};
    r :| r in pending;
  }

  lemma RestUnbalanced(s: System, t: Id)
    requires OnlyMiscounted(s, t) && t !in s.bare && Tally(s.lostBumps, t) == 0
    ensures t in s.db.threads && !Balanced(ViewOf(s, t))
  {
    assert PendingBumps(s.flight, t) == {} && PendingOpenings(s.flight, t) == {};
  }

  // ----- Exactly when a deletion is harmless -----

  lemma DeleteKeepsGuarded(words: Tokenizer, subs: set<Id>, before: seq<Label>, t: Id, after: seq<Label>)
    requires Guarded(words, Init(subs), before) && Idle(Exec(words, Init(subs), before), t)
    requires Guarded(words, HardDeleteStep(words, Exec(words, Init(subs), before), t), after)
    ensures var run := before + [HardDelete(t)] + after;
            && Guarded(words, Init(subs), run)
            && Exec(words, Init(subs), run)
               == Exec(words, HardDeleteStep(words, Exec(words, Init(subs), before), t), after)
  {
    var first := before + [HardDelete(t)];
    ExecSnoc(words, Init(subs), before, HardDelete(t));
    IsItsStep(words, Exec(words, Init(subs), before), 0);
    GuardedSnoc(words, Init(subs), before, HardDelete(t));
    GuardedConcat(words, Init(subs), first, after);
    ExecConcat(words, Init(subs), first, after);
  }

  /** Every thread there is balances. */
  ghost predicate AllBalanced(s: System) {
    forall x <- s.db.threads :: Balanced(ViewOf(s, x))
  }

  /** After a guarded run, deleting a thread leaves every existing thread balanced in every guarded
      continuation exactly when no request has written to the thread and still has something to write. */
  lemma {:induction false} DeleteHarmlessIffIdle(words: Tokenizer, subs: set<Id>, before: seq<Label>, t: Id)
    requires Guarded(words, Init(subs), before) && t in Exec(words, Init(subs), before).db.threads
    ensures var s := Exec(words, Init(subs), before);
            var d := HardDeleteStep(words, s, t);
            Idle(s, t) <==> forall after :: Guarded(words, d, after) ==> AllBalanced(Exec(words, d, after))
  {
    var s := Exec(words, Init(subs), before);
    var d := HardDeleteStep(words, s, t);
    if Idle(s, t) {
      forall after | Guarded(words, d, after) ensures AllBalanced(Exec(words, d, after)) {
        DeleteKeepsGuarded(words, subs, before, t, after);
        forall x | x in Exec(words, d, after).db.threads ensures Balanced(ViewOf(Exec(words, d, after), x)) {
          CountersConserved(words, subs, before + [HardDelete(t)] + after, x);
        }
      }
    } else {
      var after := BusyDeleteMiscounts(words, subs, before, t);
      assert Guarded(words, d, after) && !AllBalanced(Exec(words, d, after));
    }
  }

  /** And, when no count or opening post was lost: the home page is right whenever the forum is at rest
      again, in every such continuation, exactly then. */
  lemma {:induction false} HomePageRightIffIdle(words: Tokenizer, subs: set<Id>, before: seq<Label>, t: Id)
    requires Orderly(words, Init(subs), before) && t in Exec(words, Init(subs), before).db.threads
    ensures var s := Exec(words, Init(subs), before);
            var d := HardDeleteStep(words, s, t);
            Idle(s, t) <==> forall after :: Orderly(words, d, after) && Exec(words, d, after).flight == map[]
                                            ==> ShowsRealCounts(Exec(words, d, after))
  {
    var s := Exec(words, Init(subs), before);
    var d := HardDeleteStep(words, s, t);
    if Idle(s, t) {
      forall after | Orderly(words, d, after) && Exec(words, d, after).flight == map[]
        ensures ShowsRealCounts(Exec(words, d, after))
      {
        DeleteKeepsGuarded(words, subs, before, t, after);
        forall sub {
          PostCountReal(words, subs, before + [HardDelete(t)] + after, sub);
        }
      }
    } else {
      var after := BusyDeleteMiscounts(words, subs, before, t);
      assert Orderly(words, d, after) && !ShowsRealCounts(Exec(words, d, after));
    }
  }
}
