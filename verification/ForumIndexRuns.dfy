/** Index agreement over whole runs. */
module ForumIndexRuns {
  import opened Tables
  import opened ForumDb
  import opened ForumForest
  import opened ForumRequests
  import opened ForumForestRuns
  import opened ForumIndex
  import PostLives

  lemma StoreReplyKeepsAgreement(words: Tokenizer, s: System, r: nat, up: bool)
    requires Agrees(words, s.db)
    ensures Agrees(words, StoreReplyStep(words, s, r, up).db)
  {
    if r in s.flight && s.flight[r].ReplyPassed? && InsertPost(words, s.db, PostOf(s.flight[r])).Ok? {
      InsertPostKeepsAgreement(words, s.db, PostOf(s.flight[r]));
    }
  }

  lemma StoreOpeningKeepsAgreement(words: Tokenizer, s: System, r: nat, up: bool)
    requires Agrees(words, s.db)
    ensures Agrees(words, StoreOpeningStep(words, s, r, up).db)
  {
    if r in s.flight && s.flight[r].ThreadStored? && InsertPost(words, s.db, PostOf(s.flight[r])).Ok? {
      InsertPostKeepsAgreement(words, s.db, PostOf(s.flight[r]));
    }
  }

  /** The other labels change neither the posts nor a title. */
  lemma OtherStepsLeaveText(words: Tokenizer, s: System, l: Label)
    requires !IsPostStep(l) && !l.HardDelete?
    ensures var after := Step(words, s, l).db;
            && after.index == s.db.index && after.posts == s.db.posts
            && forall t <- s.db.threads :: t in after.threads && after.threads[t].title == s.db.threads[t].title
  {
    OthersLeavePosts(words, s, l);
    forall t | t in s.db.threads
      ensures t in Step(words, s, l).db.threads && Step(words, s, l).db.threads[t].title == s.db.threads[t].title
    {
      TitlesStay(words, s, l, t);
    }
  }

  lemma TitlesStay(words: Tokenizer, s: System, l: Label, t: Id)
    requires !IsPostStep(l) && !l.HardDelete? && t in s.db.threads
    ensures t in Step(words, s, l).db.threads && Step(words, s, l).db.threads[t].title == s.db.threads[t].title
  {
    if IsCheck(l) {
      ChecksLeaveTables(words, s, l);
    } else if IsThreadStep(l) {
      ThreadStepsKeepTitles(words, s, l, t);
    } else if IsUserStep(l) {
      UserStepsLeave(words, s, l);
    } else {
      MarksLeave(words, s, l);
    }
  }

  lemma StepKeepsAgreement(words: Tokenizer, s: System, l: Label)
    requires Sound(s) && Agrees(words, s.db) && !l.HardDelete?
    ensures Agrees(words, Step(words, s, l).db)
  {
    if !IsPostStep(l) {
      OtherStepsLeaveText(words, s, l);
      OtherCallsKeepAgreement(words, s.db, Step(words, s, l).db);
    } else {
      match l
      case StoreReply(r, up) => StoreReplyKeepsAgreement(words, s, r, up);
      case StoreOpening(r, up) => StoreOpeningKeepsAgreement(words, s, r, up);
      case Edit(p, body, held, u) => UpdatePostKeepsAgreement(words, s.db, p, body, held, u);
      case SoftDelete(p, u) => DeletePostKeepsAgreement(words, s.db, p, u);
    }
  }

  /** In every run without a hard delete the index is the one rebuilt from the tables, so a search
      returns exactly the undeleted posts that a full scan would. */
  lemma {:induction false} IndexAlwaysAgrees(words: Tokenizer, subs: set<Id>, run: seq<Label>)
    requires forall l <- run :: !l.HardDelete?
    ensures Agrees(words, Exec(words, Init(subs), run).db)
  {
    if run == [] {
      forall id ensures AgreesAt(words, Init(subs).db, id) {
      }
    } else {
      var n := |run| - 1;
      IndexAlwaysAgrees(words, subs, run[..n]);
      ExecSound(words, Init(subs), run[..n]);
      StepKeepsAgreement(words, Exec(words, Init(subs), run[..n]), run[n]);
    }
  }

  lemma {:induction false} SearchAlwaysExact(words: Tokenizer, subs: set<Id>, run: seq<Label>, query: Query)
    requires forall l <- run :: !l.HardDelete?
    ensures var db := Exec(words, Init(subs), run).db;
            && db.index == Rebuild(words, db)
            && Hits(query, db) == Scan(words, query, db)
            && |Counted(query, db)| == |Hits(query, db)|
  {
    var db := Exec(words, Init(subs), run).db;
    IndexAlwaysAgrees(words, subs, run);
    ForestAlways(words, subs, run);
    AgreesIsRebuilt(words, db);
    SearchIsScan(words, query, db);
  }

  // ----- With hard deletions -----

  /** The step inserts a post under an id for which a posting lingers that is not under its own words. */
  ghost predicate InsertsOverStale(words: Tokenizer, s: System, l: Label) {
    exists p, w :: Inserts(words, s, l, p)
      && Lookup(s.db.index, NextId(s.db.posts.Keys), w).Some? && w !in RowWords(words, s.db.threads, p)
  }

  lemma OtherStepsKeepRows(words: Tokenizer, s: System, l: Label)
    requires Sound(s) && AgreesOnRows(words, s.db) && forall p :: !Inserts(words, s, l, p)
    ensures AgreesOnRows(words, Step(words, s, l).db)
  {
    if l.StoreReply? || l.StoreOpening? {
      NothingStored(words, s, l);
    } else if l.Edit? {
      UpdatePostKeepsRows(words, s.db, l.post, l.body, l.held, l.editor);
    } else if l.SoftDelete? {
      DeletePostKeepsRows(words, s.db, l.post, l.editor);
    } else if l.HardDelete? {
      HardDeleteKeepsRows(words, s, l.thread);
    } else {
      OtherStepsLeaveText(words, s, l);
      OtherCallsKeepRows(words, s.db, Step(words, s, l).db);
    }
  }

  lemma HardDeleteKeepsRows(words: Tokenizer, s: System, t: Id)
    requires Sound(s) && AgreesOnRows(words, s.db)
    ensures AgreesOnRows(words, HardDeleteStep(words, s, t).db)
  {
    if t in s.db.threads {
      DeleteThreadKeepsRows(words, s.db, t);
    }
  }

  lemma {:induction false} StepKeepsRowsIff(words: Tokenizer, s: System, l: Label)
    requires Sound(s) && AgreesOnRows(words, s.db)
    ensures AgreesOnRows(words, Step(words, s, l).db) <==> !InsertsOverStale(words, s, l)
  {
    if p :| Inserts(words, s, l, p) {
      InsertsOnly(words, s, l, p);
      InsertPostKeepsRowsIff(words, s.db, p);
    } else {
      OtherStepsKeepRows(words, s, l);
    }
  }

  /** All along any run, hard deletions included, every post there is filed as it should be exactly when no
      step inserts a post under an id with a lingering posting outside the post's own words. */
  lemma {:induction false} RowsAlwaysIff(words: Tokenizer, subs: set<Id>, run: seq<Label>)
    ensures Throughout(words, Init(subs), run, (s: System) => AgreesOnRows(words, s.db))
       <==> Never(words, Init(subs), run, (s: System, l: Label) => InsertsOverStale(words, s, l))
  {
    var holds := (s: System) => AgreesOnRows(words, s.db);
    var breaks := (s: System, l: Label) => InsertsOverStale(words, s, l);
    forall s, l | Sound(s) && holds(s) ensures holds(Step(words, s, l)) <==> !breaks(s, l) {
      StepKeepsRowsIff(words, s, l);
    }
    ThroughoutIffNever(words, Init(subs), run, holds, breaks);
  }

  /** In every such run every search is exact. */
  lemma {:induction false} SearchExactWithDeletions(words: Tokenizer, subs: set<Id>, run: seq<Label>, query: Query)
    requires Never(words, Init(subs), run, (s: System, l: Label) => InsertsOverStale(words, s, l))
    ensures var db := Exec(words, Init(subs), run).db;
            Hits(query, db) == Scan(words, query, db) && |Counted(query, db)| == |Hits(query, db)|
  {
    RowsAtEnd(words, subs, run);
    ForestAlways(words, subs, run);
    SearchIsScan(words, query, Exec(words, Init(subs), run).db);
  }

  /** And a word finds exactly the posts there that nobody has soft-deleted since they were stored and that have
      the word in their title or text. */
  lemma {:induction false} WordFinds(words: Tokenizer, subs: set<Id>, run: seq<Label>, p: Id, w: string)
    requires Never(words, Init(subs), run, (s: System, l: Label) => InsertsOverStale(words, s, l))
    ensures var db, deeds := Exec(words, Init(subs), run).db, PostLives.Deeds(words, Init(subs), run, p);
            p in Hits(Has(w), db) <==>
              && p in db.posts
              && !(exists j :: 0 <= j < |run| && deeds[j].Hidden? && PostLives.LivesSince(deeds, j))
              && db.posts[p].thread in db.threads
              && (w in words(db.threads[db.posts[p].thread].title) || w in words(db.posts[p].body))
  {
    RowsAtEnd(words, subs, run);
    ForestAlways(words, subs, run);
    FoundByWordIff(words, Exec(words, Init(subs), run).db, p, w);
    PostLives.DeletedIff(words, subs, run, p);
    if p in Exec(words, Init(subs), run).db.posts {
      assert PostRefs(Exec(words, Init(subs), run).db, Exec(words, Init(subs), run).db.posts[p]);
    }
  }

  lemma RowsAtEnd(words: Tokenizer, subs: set<Id>, run: seq<Label>)
    requires Never(words, Init(subs), run, (s: System, l: Label) => InsertsOverStale(words, s, l))
    ensures AgreesOnRows(words, Exec(words, Init(subs), run).db)
  {
    RowsAlwaysIff(words, subs, run);
    var holds := (s: System) => AgreesOnRows(words, s.db);
    assert Throughout(words, Init(subs), run, holds);
    assert run[..|run|] == run;
    assert holds(Exec(words, Init(subs), run[..|run|]));
  }
}
