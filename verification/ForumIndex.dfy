/** The full-text index kept by the triggers of migrations/001_initial.up.sql, and the search that joins
    it back to the posts (internal/store/sqlite/search.go). */
module ForumIndex {
  import opened Tables
  import opened ForumDb
  import opened ForumForest

  function Lookup(index: Postings, id: Id, w: string): Option<set<Place>> {
    if (id, w) in index then Some(index[(id, w)]) else None
  }

  /** What a row deserves to have filed under a token. */
  function Deserved(words: Tokenizer, threads: map<Id, Thread>, p: Post, w: string): Option<set<Place>> {
    if w in RowWords(words, threads, p) then Some(RowPlaces(words, threads, p, w)) else None
  }

  function Expected(words: Tokenizer, db: Db, id: Id, w: string): Option<set<Place>> {
    if id in db.posts then Deserved(words, db.threads, db.posts[id], w) else None
  }

  /** The postings filed under one row id are the ones the row deserves. */
  ghost predicate AgreesAt(words: Tokenizer, db: Db, id: Id) {
    forall w :: Lookup(db.index, id, w) == Expected(words, db, id, w)
  }

  ghost predicate Agrees(words: Tokenizer, db: Db) {
    forall id :: AgreesAt(words, db, id)
  }

  /** Agreement for the rows that exist; postings of deleted rows may linger. */
  ghost predicate AgreesOnRows(words: Tokenizer, db: Db) {
    forall id <- db.posts :: AgreesAt(words, db, id)
  }

  // ----- Agreement is equality with the rebuilt index -----

  /** The index built anew from all posts and the titles of their threads. */
  function Rebuild(words: Tokenizer, db: Db): Postings {
    Rows(words, db.threads, db.posts, db.posts.Keys)
  }

  lemma {:induction false} SameLookups(a: Postings, b: Postings)
    requires forall id, w :: Lookup(a, id, w) == Lookup(b, id, w)
    ensures a == b
  {
    forall k ensures k in a <==> k in b {
      assert Lookup(a, k.0, k.1) == Lookup(b, k.0, k.1);
    }
    forall k | k in a ensures a[k] == b[k] {
      assert Lookup(a, k.0, k.1) == Lookup(b, k.0, k.1);
    }
  }

  lemma RowsLookup(words: Tokenizer, threads: map<Id, Thread>, posts: map<Id, Post>, ids: set<Id>, id: Id, w: string)
    requires ids <= posts.Keys
    ensures Lookup(Rows(words, threads, posts, ids), id, w) == if id in ids then Deserved(words, threads, posts[id], w)
            else None
  {
  }

  lemma {:induction false} AgreesIsRebuilt(words: Tokenizer, db: Db)
    ensures Agrees(words, db) <==> db.index == Rebuild(words, db)
  {
    forall id, w ensures Lookup(Rebuild(words, db), id, w) == Expected(words, db, id, w) {
      RowsLookup(words, db.threads, db.posts, db.posts.Keys, id, w);
    }
    if Agrees(words, db) {
      forall id, w ensures Lookup(db.index, id, w) == Lookup(Rebuild(words, db), id, w) {
        assert AgreesAt(words, db, id);
      }
      SameLookups(db.index, Rebuild(words, db));
    }
  }

  // ----- Creating and editing posts -----

  /** After the insert trigger: the new row's postings, and under its other tokens what was there. */
  lemma {:induction false} IndexLookup(words: Tokenizer, index: Postings, threads: map<Id, Thread>, id: Id, p: Post,
                                       i: Id, w: string)
    requires p.thread in threads
    ensures Lookup(Index(words, index, threads, id, p), i, w) ==
            if i == id && Deserved(words, threads, p, w).Some? then Deserved(words, threads, p, w)
              else Lookup(index, i, w)
  {
    RowsLookup(words, threads, map[id := p], {id}, i, w);
  }

  lemma {:induction false} UnindexLookup(words: Tokenizer, index: Postings, threads: map<Id, Thread>, id: Id, p: Post,
                                         i: Id, w: string)
    ensures Lookup(Unindex(words, index, threads, id, p), i, w) ==
            if i == id && w in RowWords(words, threads, p) then None else Lookup(index, i, w)
  {
    RowsLookup(words, threads, map[id := p], {id}, i, w);
  }

  lemma {:induction false} InsertPostLookup(words: Tokenizer, db: Db, p: Post, i: Id, w: string)
    requires InsertPost(words, db, p).Ok?
    ensures var (after, id) := InsertPost(words, db, p).value;
            && Lookup(after.index, i, w) ==
               (if i == id && Deserved(words, db.threads, p, w).Some? then Deserved(words, db.threads, p, w)
                 else Lookup(db.index, i, w))
            && Expected(words, after, i, w)
               == (if i == id then Deserved(words, db.threads, p, w) else Expected(words, db, i, w))
  {
    IndexLookup(words, db.index, db.threads, NextId(db.posts.Keys), p, i, w);
  }

  lemma {:induction false} InsertPostKeepsAgreement(words: Tokenizer, db: Db, p: Post)
    requires Agrees(words, db) && InsertPost(words, db, p).Ok?
    ensures Agrees(words, InsertPost(words, db, p).value.0)
  {
    var after := InsertPost(words, db, p).value.0;
    forall i, w ensures Lookup(after.index, i, w) == Expected(words, after, i, w) {
      InsertPostLookup(words, db, p, i, w);
      assert AgreesAt(words, db, i);
    }
  }

  /** When postings of deleted rows linger, a new post keeps the agreement on rows exactly when the ones
      under the id it gets are all under tokens of its own. */
  lemma {:induction false} InsertPostKeepsRowsIff(words: Tokenizer, db: Db, p: Post)
    requires AgreesOnRows(words, db) && InsertPost(words, db, p).Ok?
    ensures AgreesOnRows(words, InsertPost(words, db, p).value.0)
       <==> (forall w :: Lookup(db.index, NextId(db.posts.Keys), w).Some? ==> w in RowWords(words, db.threads, p))
  {
    var (after, id) := InsertPost(words, db, p).value;
    forall i | i in db.posts ensures AgreesAt(words, after, i) {
      forall w ensures Lookup(after.index, i, w) == Expected(words, after, i, w) {
        InsertPostLookup(words, db, p, i, w);
        assert AgreesAt(words, db, i);
      }
    }
    NewRowAgreesIff(words, db, p);
    assert id in after.posts;
  }

  lemma {:induction false} NewRowAgreesIff(words: Tokenizer, db: Db, p: Post)
    requires InsertPost(words, db, p).Ok?
    ensures var (after, id) := InsertPost(words, db, p).value;
            AgreesAt(words, after, id)
            <==> (forall w :: Lookup(db.index, id, w).Some? ==> w in RowWords(words, db.threads, p))
  {
    var (after, id) := InsertPost(words, db, p).value;
    forall w
      ensures Lookup(after.index, id, w) == Expected(words, after, id, w)
         <==> (Lookup(db.index, id, w).Some? ==> w in RowWords(words, db.threads, p))
    {
      InsertPostLookup(words, db, p, id, w);
    }
  }

  /** The update trigger files under each token what the new text deserves. */
  lemma {:induction false} ReplacePostLookup(words: Tokenizer, db: Db, id: Id, p: Post, i: Id, w: string)
    requires id in db.posts && p.thread == db.posts[id].thread && p.thread in db.threads && AgreesAt(words, db, id)
    ensures Lookup(ReplacePost(words, db, id, p).index, i, w) ==
            if i == id then Deserved(words, db.threads, p, w) else Lookup(db.index, i, w)
  {
    var before := db.posts[id];
    var out := Unindex(words, db.index, db.threads, id, before);
    UnindexLookup(words, db.index, db.threads, id, before, i, w);
    IndexLookup(words, out, db.threads, id, p, i, w);
    assert Lookup(db.index, id, w) == Expected(words, db, id, w);
  }

  lemma {:induction false} ReplacePostKeepsAgreement(words: Tokenizer, db: Db, id: Id, p: Post)
    requires RefsOk(db) && Agrees(words, db) && id in db.posts && p.thread == db.posts[id].thread
    ensures Agrees(words, ReplacePost(words, db, id, p))
  {
    var after := ReplacePost(words, db, id, p);
    assert PostRefs(db, db.posts[id]) && AgreesAt(words, db, id);
    forall i, w ensures Lookup(after.index, i, w) == Expected(words, after, i, w) {
      ReplacePostLookup(words, db, id, p, i, w);
      assert AgreesAt(words, db, i);
    }
  }

  lemma {:induction false} UpdatePostKeepsAgreement(words: Tokenizer, db: Db, id: Id, body: string, held: bool,
                                                    editor: Id)
    requires RefsOk(db) && Agrees(words, db)
    ensures Agrees(words, UpdatePost(words, db, id, body, held, editor))
  {
    if id in db.posts {
      var edited := UpdateIsReplace(words, db, id, body, held, editor);
      ReplacePostKeepsAgreement(words, db, id, edited);
    }
  }

  lemma {:induction false} UpdateIsReplace(words: Tokenizer, db: Db, id: Id, body: string, held: bool, editor: Id)
      returns (edited: Post)
    requires id in db.posts
    ensures edited.thread == db.posts[id].thread
            && UpdatePost(words, db, id, body, held, editor) == ReplacePost(words, db, id, edited)
  {
    var p := db.posts[id];
    edited := p.(body := body, held := held, editCount := p.editCount + 1, editedBy := Some(editor));
  }

  lemma {:induction false} DeletePostKeepsAgreement(words: Tokenizer, db: Db, id: Id, moderator: Id)
    requires RefsOk(db) && Agrees(words, db)
    ensures Agrees(words, DeletePost(words, db, id, moderator))
  {
    if id in db.posts {
      ReplacePostKeepsAgreement(words, db, id, db.posts[id].(deleted := true, editedBy := Some(moderator)));
    }
  }

  /** With postings of deleted rows lingering, the update trigger keeps the rows agreeing. */
  lemma {:induction false} ReplacePostKeepsRows(words: Tokenizer, db: Db, id: Id, p: Post)
    requires RefsOk(db) && AgreesOnRows(words, db) && id in db.posts && p.thread == db.posts[id].thread
    ensures AgreesOnRows(words, ReplacePost(words, db, id, p))
  {
    var after := ReplacePost(words, db, id, p);
    assert PostRefs(db, db.posts[id]) && AgreesAt(words, db, id);
    forall i, w | i in after.posts ensures Lookup(after.index, i, w) == Expected(words, after, i, w) {
      ReplacePostLookup(words, db, id, p, i, w);
      assert AgreesAt(words, db, i);
    }
  }

  lemma {:induction false} UpdatePostKeepsRows(words: Tokenizer, db: Db, id: Id, body: string, held: bool, editor: Id)
    requires RefsOk(db) && AgreesOnRows(words, db)
    ensures AgreesOnRows(words, UpdatePost(words, db, id, body, held, editor))
  {
    if id in db.posts {
      var edited := UpdateIsReplace(words, db, id, body, held, editor);
      ReplacePostKeepsRows(words, db, id, edited);
    }
  }

  lemma {:induction false} DeletePostKeepsRows(words: Tokenizer, db: Db, id: Id, moderator: Id)
    requires RefsOk(db) && AgreesOnRows(words, db)
    ensures AgreesOnRows(words, DeletePost(words, db, id, moderator))
  {
    if id in db.posts {
      ReplacePostKeepsRows(words, db, id, db.posts[id].(deleted := true, editedBy := Some(moderator)));
    }
  }

  lemma OtherCallsKeepRows(words: Tokenizer, db: Db, after: Db)
    requires RefsOk(db) && AgreesOnRows(words, db)
    requires after.index == db.index && after.posts == db.posts
    requires forall t <- db.threads :: t in after.threads && after.threads[t].title == db.threads[t].title
    ensures AgreesOnRows(words, after)
  {
    forall id, w | id in after.posts ensures Lookup(after.index, id, w) == Expected(words, after, id, w) {
      assert PostRefs(db, db.posts[id]) && AgreesAt(words, db, id);
      assert Lookup(db.index, id, w) == Expected(words, db, id, w);
    }
  }

  /** Calls that change neither post bodies nor the titles of their threads. */
  lemma OtherCallsKeepAgreement(words: Tokenizer, db: Db, after: Db)
    requires RefsOk(db) && Agrees(words, db)
    requires after.index == db.index && after.posts == db.posts
    requires forall t <- db.threads :: t in after.threads && after.threads[t].title == db.threads[t].title
    ensures Agrees(words, after)
  {
    forall id, w ensures Lookup(after.index, id, w) == Expected(words, after, id, w) {
      assert AgreesAt(words, db, id);
      if id in db.posts { assert PostRefs(db, db.posts[id]); }
      assert Lookup(db.index, id, w) == Expected(words, db, id, w);
    }
  }

  // ----- Hard deletion of a thread -----

  lemma {:induction false} TriggeredLookup(words: Tokenizer, index: Postings, threads: map<Id, Thread>,
                                           posts: map<Id, Post>, out: set<Id>, again: set<Id>, id: Id, w: string)
    requires out <= posts.Keys && again <= posts.Keys
    ensures Lookup(Triggered(words, index, threads, posts, out, again), id, w) ==
            if id in again && w in RowWords(words, threads, posts[id]) then Deserved(words, threads, posts[id], w)
            else if id in out && w in RowWords(words, threads, posts[id]) then None
            else Lookup(index, id, w)
  {
    RowsLookup(words, threads, posts, out, id, w);
    RowsLookup(words, threads, posts, again, id, w);
  }

  lemma {:induction false} DeleteThreadLookup(words: Tokenizer, db: Db, t: Id, id: Id, w: string)
    requires t in db.threads
    ensures var gone := PostsOf(db.posts, t);
            var orphans := Orphans(db.posts, gone);
            var threads := db.threads - {t};
            Lookup(DeleteThread(words, db, t).index, id, w) ==
            if id in orphans && db.posts[id].thread in threads && w in RowWords(words, threads, db.posts[id])
            then Deserved(words, threads, db.posts[id], w)
            else if id in gone + orphans && w in RowWords(words, threads, db.posts[id]) then None
            else Lookup(db.index, id, w)
  {
    var gone := PostsOf(db.posts, t);
    var orphans := Orphans(db.posts, gone);
    var threads := db.threads - {t};
    TriggeredLookup(words, db.index, threads, db.posts, gone + orphans, Threaded(threads, db.posts, orphans), id, w);
  }

  /** The index after a hard delete: rows of other threads keep their postings; of a deleted post the
      tokens of the title that its body lacks are left behind, because the title could no longer be read. */
  lemma {:induction false} DeleteThreadIndex(words: Tokenizer, db: Db, t: Id, id: Id, w: string)
    requires RefsOk(db) && AgreesOnRows(words, db) && t in db.threads
    ensures Lookup(DeleteThread(words, db, t).index, id, w) ==
            if id !in PostsOf(db.posts, t) then Lookup(db.index, id, w)
            else if w in words(db.threads[t].title) && w !in words(db.posts[id].body)
            then Some(PlacesIn(Title, words(db.threads[t].title), w))
            else None
  {
    if id in PostsOf(db.posts, t) {
      assert AgreesAt(words, db, id);
      GoneLookup(words, db, t, id, w);
    } else if id in Orphans(db.posts, PostsOf(db.posts, t)) {
      assert AgreesAt(words, db, id);
      OrphanLookup(words, db, t, id, w);
    } else {
      DeleteThreadLookup(words, db, t, id, w);
    }
  }

  lemma {:induction false} GoneLookup(words: Tokenizer, db: Db, t: Id, id: Id, w: string)
    requires t in db.threads && id in PostsOf(db.posts, t) && AgreesAt(words, db, id)
    ensures Lookup(DeleteThread(words, db, t).index, id, w) ==
            if w in words(db.threads[t].title) && w !in words(db.posts[id].body)
            then Some(PlacesIn(Title, words(db.threads[t].title), w))
            else None
  {
    GoneOnly(words, db, t, id, w);
    GonePostings(words, db, t, id, w);
  }

  lemma {:induction false} GoneOnly(words: Tokenizer, db: Db, t: Id, id: Id, w: string)
    requires t in db.threads && id in PostsOf(db.posts, t)
    ensures Lookup(DeleteThread(words, db, t).index, id, w) ==
            if w in RowWords(words, db.threads - {t}, db.posts[id]) then None else Lookup(db.index, id, w)
  {
    DeleteThreadLookup(words, db, t, id, w);
  }

  lemma {:induction false} OrphanLookup(words: Tokenizer, db: Db, t: Id, id: Id, w: string)
    requires RefsOk(db) && t in db.threads && id in Orphans(db.posts, PostsOf(db.posts, t)) && AgreesAt(words, db, id)
    ensures Lookup(DeleteThread(words, db, t).index, id, w) == Lookup(db.index, id, w)
  {
    DeleteThreadLookup(words, db, t, id, w);
    OrphanPostings(words, db, t, id, w);
  }

  lemma {:induction false} GonePostings(words: Tokenizer, db: Db, t: Id, id: Id, w: string)
    requires t in db.threads && id in PostsOf(db.posts, t) && AgreesAt(words, db, id)
    ensures var title, body := words(db.threads[t].title), words(db.posts[id].body);
            && (w in RowWords(words, db.threads - {t}, db.posts[id]) <==> w in body)
            && (w !in body ==> Lookup(db.index, id, w) == if w in title then Some(PlacesIn(Title, title, w)) else None)
  {
    var title, body := words(db.threads[t].title), words(db.posts[id].body);
    assert Lookup(db.index, id, w) == Expected(words, db, id, w);
    assert TitleTokens(words, db.threads - {t}, db.posts[id]) == [];
    assert TitleTokens(words, db.threads, db.posts[id]) == title;
    if w !in body {
      assert PlacesIn(Body, body, w) == {};
      assert RowPlaces(words, db.threads, db.posts[id], w) == PlacesIn(Title, title, w);
    }
  }

  lemma {:induction false} OrphanPostings(words: Tokenizer, db: Db, t: Id, id: Id, w: string)
    requires RefsOk(db) && t in db.threads && id in Orphans(db.posts, PostsOf(db.posts, t)) && AgreesAt(words, db, id)
    ensures db.posts[id].thread in db.threads - {t}
    ensures Deserved(words, db.threads - {t}, db.posts[id], w) == Lookup(db.index, id, w)
  {
    assert PostRefs(db, db.posts[id]);
    assert Lookup(db.index, id, w) == Expected(words, db, id, w);
    assert TitleTokens(words, db.threads - {t}, db.posts[id]) == TitleTokens(words, db.threads, db.posts[id]);
  }

  lemma {:induction false} DeleteThreadExpects(words: Tokenizer, db: Db, t: Id, id: Id, w: string)
    requires RefsOk(db) && t in db.threads
    ensures Expected(words, DeleteThread(words, db, t), id, w) == if id in PostsOf(db.posts, t) then None
            else Expected(words, db, id, w)
  {
    if id in db.posts { assert PostRefs(db, db.posts[id]); }
  }

  /** The post has every token of the title in its body. */
  predicate Repeats(words: Tokenizer, title: string, p: Post) {
    forall w <- words(title) :: w in words(p.body)
  }

  lemma {:induction false} DeleteThreadAgreesAtIff(words: Tokenizer, db: Db, t: Id, id: Id)
    requires RefsOk(db) && Agrees(words, db) && t in db.threads
    ensures AgreesAt(words, DeleteThread(words, db, t), id)
       <==> (id in PostsOf(db.posts, t) ==> Repeats(words, db.threads[t].title, db.posts[id]))
  {
    var after := DeleteThread(words, db, t);
    forall w
      ensures Lookup(after.index, id, w) == Expected(words, after, id, w)
         <==> (id in PostsOf(db.posts, t) ==> w in words(db.threads[t].title) ==> w in words(db.posts[id].body))
    {
      DeleteThreadIndex(words, db, t, id, w);
      DeleteThreadExpects(words, db, t, id, w);
      assert AgreesAt(words, db, id);
    }
  }

  /** A hard delete keeps the full agreement exactly when every post of the thread has every token of the
      title in its body. */
  lemma {:induction false} DeleteThreadAgreesIff(words: Tokenizer, db: Db, t: Id)
    requires RefsOk(db) && Agrees(words, db) && t in db.threads
    ensures Agrees(words, DeleteThread(words, db, t))
       <==> forall id <- PostsOf(db.posts, t) :: Repeats(words, db.threads[t].title, db.posts[id])
  {
    var after := DeleteThread(words, db, t);
    if Agrees(words, after) {
      forall id | id in PostsOf(db.posts, t) ensures Repeats(words, db.threads[t].title, db.posts[id]) {
        assert AgreesAt(words, after, id);
        DeleteThreadAgreesAtIff(words, db, t, id);
      }
    }
    if forall id <- PostsOf(db.posts, t) :: Repeats(words, db.threads[t].title, db.posts[id]) {
      forall id ensures AgreesAt(words, after, id) {
        DeleteThreadAgreesAtIff(words, db, t, id);
      }
    }
  }

  /** The rows that remain keep agreeing, whatever the title. */
  lemma {:induction false} DeleteThreadKeepsRows(words: Tokenizer, db: Db, t: Id)
    requires RefsOk(db) && AgreesOnRows(words, db) && t in db.threads
    ensures AgreesOnRows(words, DeleteThread(words, db, t))
  {
    var after := DeleteThread(words, db, t);
    forall id, w | id in after.posts ensures Lookup(after.index, id, w) == Expected(words, after, id, w) {
      DeleteThreadIndex(words, db, t, id, w);
      DeleteThreadExpects(words, db, t, id, w);
      assert AgreesAt(words, db, id);
    }
  }

  // ----- The triggers of a cascade, in whatever order they fire -----

  /** The rows have the same text. */
  ghost predicate SameText(a: map<Id, Post>, b: map<Id, Post>, ids: set<Id>) {
    ids <= a.Keys && ids <= b.Keys && forall id <- ids :: a[id].thread == b[id].thread && a[id].body == b[id].body
  }

  lemma {:induction false} SameTextSame(words: Tokenizer, threads: map<Id, Thread>, p: Post, q: Post, w: string)
    requires p.thread == q.thread && p.body == q.body
    ensures RowWords(words, threads, p) == RowWords(words, threads, q)
    ensures Deserved(words, threads, p, w) == Deserved(words, threads, q, w)
  {
    assert TitleTokens(words, threads, p) == TitleTokens(words, threads, q);
  }

  lemma {:induction false} TriggeredNone(words: Tokenizer, index: Postings, threads: map<Id, Thread>,
                                         posts: map<Id, Post>)
    ensures Triggered(words, index, threads, posts, {}, {}) == index
  {
    forall id, w ensures Lookup(Triggered(words, index, threads, posts, {}, {}), id, w) == Lookup(index, id, w) {
      TriggeredLookup(words, index, threads, posts, {}, {}, id, w);
    }
    SameLookups(Triggered(words, index, threads, posts, {}, {}), index);
  }

  /** Firing some triggers and then others is firing them all, when no row put in again is taken out later. */
  lemma {:induction false} TriggeredTwice(words: Tokenizer, index: Postings, threads: map<Id, Thread>,
                                          posts: map<Id, Post>, now: map<Id, Post>,
                       out: set<Id>, again: set<Id>, more: set<Id>, moreAgain: set<Id>)
    requires out <= posts.Keys && again <= posts.Keys && moreAgain <= more && again !! more
             && SameText(posts, now, more)
    ensures Triggered(words, Triggered(words, index, threads, posts, out, again), threads, now, more, moreAgain)
         == Triggered(words, index, threads, posts, out + more, again + moreAgain)
  {
    var first := Triggered(words, index, threads, posts, out, again);
    var both := Triggered(words, first, threads, now, more, moreAgain);
    var all := Triggered(words, index, threads, posts, out + more, again + moreAgain);
    forall id, w ensures Lookup(both, id, w) == Lookup(all, id, w) {
      TriggeredLookup(words, index, threads, posts, out, again, id, w);
      TriggeredLookup(words, first, threads, now, more, moreAgain, id, w);
      TriggeredLookup(words, index, threads, posts, out + more, again + moreAgain, id, w);
      if id in more {
        SameTextSame(words, threads, posts[id], now[id], w);
      }
    }
    SameLookups(both, all);
  }

  /** The delete trigger of one row, and its update trigger when only the parent changes. */
  lemma {:induction false} OneTrigger(words: Tokenizer, index: Postings, threads: map<Id, Thread>, posts: map<Id, Post>,
                                      id: Id, p: Post)
    requires id in posts && p.thread == posts[id].thread && p.body == posts[id].body
    ensures Unindex(words, index, threads, id, posts[id]) == Triggered(words, index, threads, posts, {id}, {})
    ensures Reindex(words, index, threads, id, posts[id], p)
            == Triggered(words, index, threads, posts, {id}, Threaded(threads, posts, {id}))
  {
    var out := Unindex(words, index, threads, id, posts[id]);
    var again := Reindex(words, index, threads, id, posts[id], p);
    forall i, w ensures Lookup(out, i, w) == Lookup(Triggered(words, index, threads, posts, {id}, {}), i, w) {
      UnindexLookup(words, index, threads, id, posts[id], i, w);
      TriggeredLookup(words, index, threads, posts, {id}, {}, i, w);
    }
    SameLookups(out, Triggered(words, index, threads, posts, {id}, {}));
    forall i, w ensures Lookup(again, i, w)
      == Lookup(Triggered(words, index, threads, posts, {id}, Threaded(threads, posts, {id})), i, w) {
      OneReindexed(words, index, threads, posts, id, p, i, w);
    }
    SameLookups(again, Triggered(words, index, threads, posts, {id}, Threaded(threads, posts, {id})));
  }

  lemma {:induction false} OneReindexed(words: Tokenizer, index: Postings, threads: map<Id, Thread>,
                                        posts: map<Id, Post>, id: Id, p: Post, i: Id, w: string)
    requires id in posts && p.thread == posts[id].thread && p.body == posts[id].body
    ensures Lookup(Reindex(words, index, threads, id, posts[id], p), i, w)
         == Lookup(Triggered(words, index, threads, posts, {id}, Threaded(threads, posts, {id})), i, w)
  {
    var out := Unindex(words, index, threads, id, posts[id]);
    UnindexLookup(words, index, threads, id, posts[id], i, w);
    TriggeredLookup(words, index, threads, posts, {id}, Threaded(threads, posts, {id}), i, w);
    SameTextSame(words, threads, posts[id], p, w);
    if p.thread in threads {
      IndexLookup(words, out, threads, id, p, i, w);
    }
  }

  // ----- Search -----

  /** What MATCH sees of a row: its tokens and where they stand. */
  datatype Term = Term(column: Column, position: nat, token: string)

  type Query = set<Term> -> bool

  function Document(index: Postings, id: Id): set<Term> {
    set k, pl | k in index && k.0 == id && pl in index[k] :: Term(pl.column, pl.position, k.1)
  }

  /** The row's own text. */
  function OwnDocument(words: Tokenizer, db: Db, id: Id): set<Term>
    requires id in db.posts
  {
    Document(Row(words, db.threads, id, db.posts[id]), id)
  }

  /** The rows of the counting query: the index joined to the posts that are not deleted. */
  function Counted(query: Query, db: Db): set<Id> {
    set id | id in db.posts && Document(db.index, id) != {} && query(Document(db.index, id)) && !db.posts[id].deleted
  }

  /** The rows of the listing query, which joins the threads and the users as well. */
  function Hits(query: Query, db: Db): set<Id> {
    set id | id in Counted(query, db) && db.posts[id].thread in db.threads && db.posts[id].author in db.users
  }

  /** The answer without an index: every post that is not deleted, read in full. */
  function Scan(words: Tokenizer, query: Query, db: Db): set<Id> {
    set id | id in db.posts && !db.posts[id].deleted && OwnDocument(words, db, id) != {}
      && query(OwnDocument(words, db, id))
  }

  lemma {:induction false} DocumentHas(index: Postings, id: Id, x: Term)
    ensures x in Document(index, id) <==>
            Lookup(index, id, x.token).Some? && Place(x.column, x.position) in Lookup(index, id, x.token).value
  {
    if Lookup(index, id, x.token).Some? && Place(x.column, x.position) in Lookup(index, id, x.token).value {
      var k, pl := (id, x.token), Place(x.column, x.position);
      assert k in index && pl in index[k];
    }
  }

  lemma {:induction false} SameDocument(words: Tokenizer, db: Db, id: Id)
    requires id in db.posts && AgreesAt(words, db, id)
    ensures Document(db.index, id) == OwnDocument(words, db, id)
  {
    var row := Row(words, db.threads, id, db.posts[id]);
    forall x: Term ensures x in Document(db.index, id) <==> x in Document(row, id) {
      DocumentHas(db.index, id, x);
      DocumentHas(row, id, x);
      RowsLookup(words, db.threads, map[id := db.posts[id]], {id}, id, x.token);
      assert Lookup(db.index, id, x.token) == Expected(words, db, id, x.token);
    }
  }

  /** Search through the index returns exactly the undeleted posts a full scan would, and the separate
      count is the number of rows listed. */
  lemma {:induction false} SearchIsScan(words: Tokenizer, query: Query, db: Db)
    requires RefsOk(db) && AgreesOnRows(words, db)
    ensures Hits(query, db) == Scan(words, query, db)
    ensures |Counted(query, db)| == |Hits(query, db)|
  {
    forall id | id in db.posts ensures id in Hits(query, db) <==> id in Scan(words, query, db) {
      SameDocument(words, db, id);
      assert PostRefs(db, db.posts[id]);
    }
    forall id | id in Counted(query, db) ensures id in Hits(query, db) {
      assert PostRefs(db, db.posts[id]);
    }
    assert Counted(query, db) == Hits(query, db);
  }

  /** Search is right for every query exactly when each undeleted post is filed as its own text reads. */
  lemma {:induction false} SearchRightIff(words: Tokenizer, db: Db)
    requires RefsOk(db)
    ensures (forall query: Query :: Hits(query, db) == Scan(words, query, db))
       <==> forall id <- db.posts :: !db.posts[id].deleted ==> Document(db.index, id) == OwnDocument(words, db, id)
  {
    if forall id <- db.posts :: !db.posts[id].deleted ==> Document(db.index, id) == OwnDocument(words, db, id) {
      forall query: Query ensures Hits(query, db) == Scan(words, query, db) {
        FiledRight(words, db, query);
      }
    } else {
      var id :| id in db.posts && !db.posts[id].deleted && Document(db.index, id) != OwnDocument(words, db, id);
      var query := FiledWrong(words, db, id);
      assert Hits(query, db) != Scan(words, query, db);
    }
  }

  lemma FiledRight(words: Tokenizer, db: Db, query: Query)
    requires RefsOk(db)
    requires forall id <- db.posts :: !db.posts[id].deleted ==> Document(db.index, id) == OwnDocument(words, db, id)
    ensures Hits(query, db) == Scan(words, query, db)
  {
    forall id | id in db.posts && !db.posts[id].deleted
      ensures id in Hits(query, db) <==> id in Scan(words, query, db)
    {
      assert PostRefs(db, db.posts[id]);
      FoundBy(words, db, id, query);
    }
  }

  /** A query for what is filed, or for the own text when nothing is. */
  lemma FiledWrong(words: Tokenizer, db: Db, id: Id) returns (query: Query)
    requires RefsOk(db) && id in db.posts && !db.posts[id].deleted
             && Document(db.index, id) != OwnDocument(words, db, id)
    ensures id in Hits(query, db) <==> id !in Scan(words, query, db)
  {
    var filed, own := Document(db.index, id), OwnDocument(words, db, id);
    query := (text: set<Term>) => text == if filed != {} then filed else own;
    assert PostRefs(db, db.posts[id]);
    FoundBy(words, db, id, query);
  }

  lemma {:induction false} FoundBy(words: Tokenizer, db: Db, id: Id, query: Query)
    requires id in db.posts && !db.posts[id].deleted && db.posts[id].thread in db.threads
             && db.posts[id].author in db.users
    ensures id in Hits(query, db) <==> Document(db.index, id) != {} && query(Document(db.index, id))
    ensures id in Scan(words, query, db) <==> OwnDocument(words, db, id) != {} && query(OwnDocument(words, db, id))
  {
  }

  // ----- What a search finds -----

  /** The tokens of a title and of a body, each with its place. */
  function TermsOf(title: seq<string>, body: seq<string>): set<Term> {
    (set i | 0 <= i < |title| :: Term(Title, i, title[i])) + (set i | 0 <= i < |body| :: Term(Body, i, body[i]))
  }

  lemma {:induction false} OwnTerms(words: Tokenizer, db: Db, id: Id)
    requires id in db.posts && db.posts[id].thread in db.threads
    ensures OwnDocument(words, db, id)
            == TermsOf(words(db.threads[db.posts[id].thread].title), words(db.posts[id].body))
  {
    var p := db.posts[id];
    var title, body := words(db.threads[p.thread].title), words(p.body);
    var row := Row(words, db.threads, id, p);
    forall x: Term ensures x in Document(row, id) <==> x in TermsOf(title, body) {
      DocumentHas(row, id, x);
      RowsLookup(words, db.threads, map[id := p], {id}, id, x.token);
      TermPlaces(words, db.threads, p, x);
    }
  }

  lemma TermPlaces(words: Tokenizer, threads: map<Id, Thread>, p: Post, x: Term)
    requires p.thread in threads
    ensures x in TermsOf(words(threads[p.thread].title), words(p.body))
       <==> x.token in RowWords(words, threads, p)
            && Place(x.column, x.position) in RowPlaces(words, threads, p, x.token)
  {
    var title, body := words(threads[p.thread].title), words(p.body);
    assert TitleTokens(words, threads, p) == title;
    if x in TermsOf(title, body) {
      assert x.token in title + body;
    }
  }

  /** A search finds a post exactly when it is not deleted and its own title and text answer the query. */
  lemma {:induction false} FoundIff(words: Tokenizer, db: Db, id: Id, query: Query)
    requires AgreesOnRows(words, db)
    requires id in db.posts ==> db.posts[id].thread in db.threads && db.posts[id].author in db.users
    ensures id in Hits(query, db) <==>
              && id in db.posts && !db.posts[id].deleted
              && var text := TermsOf(words(db.threads[db.posts[id].thread].title), words(db.posts[id].body));
                 text != {} && query(text)
  {
    if id in db.posts {
      SameDocument(words, db, id);
      OwnTerms(words, db, id);
      if !db.posts[id].deleted {
        FoundBy(words, db, id, query);
      }
    }
  }

  /** The query for one word, in the title or in the text. */
  function Has(w: string): Query {
    (text: set<Term>) => exists x <- text :: x.token == w
  }

  /** So a word finds exactly the posts that are not deleted and have it in their title or text. */
  lemma {:induction false} FoundByWordIff(words: Tokenizer, db: Db, id: Id, w: string)
    requires RefsOk(db) && AgreesOnRows(words, db)
    ensures id in Hits(Has(w), db) <==>
              && id in db.posts && !db.posts[id].deleted
              && (w in words(db.threads[db.posts[id].thread].title) || w in words(db.posts[id].body))
  {
    if id in db.posts {
      assert PostRefs(db, db.posts[id]);
      TermsHave(words(db.threads[db.posts[id].thread].title), words(db.posts[id].body), w);
    }
    FoundIff(words, db, id, Has(w));
  }

  lemma TermsHave(title: seq<string>, body: seq<string>, w: string)
    ensures (exists x <- TermsOf(title, body) :: x.token == w) <==> w in title || w in body
  {
    if w in title {
      var i :| 0 <= i < |title| && title[i] == w;
      assert Term(Title, i, w) in TermsOf(title, body);
    }
    if w in body {
      var i :| 0 <= i < |body| && body[i] == w;
      assert Term(Body, i, w) in TermsOf(title, body);
    }
  }

  /** A soft delete takes the post out of every search, and no other. */
  lemma {:induction false} DeleteHides(words: Tokenizer, db: Db, id: Id, moderator: Id, query: Query)
    requires RefsOk(db) && AgreesOnRows(words, db)
    ensures Hits(query, DeletePost(words, db, id, moderator)) == Hits(query, db) - {id}
  {
    var after := DeletePost(words, db, id, moderator);
    DeletePostKeepsRows(words, db, id, moderator);
    forall i ensures i in Hits(query, after) <==> i in Hits(query, db) && i != id {
      if i in db.posts {
        assert PostRefs(db, db.posts[i]);
      }
      DeleteTouches(words, db, id, moderator, i);
      FoundIff(words, db, i, query);
      FoundIff(words, after, i, query);
    }
  }

  lemma DeleteTouches(words: Tokenizer, db: Db, id: Id, moderator: Id, i: Id)
    ensures var after := DeletePost(words, db, id, moderator);
            && after.threads == db.threads && after.users == db.users && after.posts.Keys == db.posts.Keys
            && (i in db.posts ==> SameWords(db.posts[i], after.posts[i])
                                  && after.posts[i].deleted == (db.posts[i].deleted || i == id))
  {
  }

  /** The same thread, author and text. */
  predicate SameWords(a: Post, b: Post) {
    a.thread == b.thread && a.author == b.author && a.body == b.body
  }

  /** After an edit the post is found by its new text, and every other as before. */
  lemma {:induction false} EditFinds(words: Tokenizer, db: Db, id: Id, body: string, held: bool, editor: Id,
                                     query: Query)
    requires RefsOk(db) && AgreesOnRows(words, db) && id in db.posts
    ensures var after := UpdatePost(words, db, id, body, held, editor);
            var text := TermsOf(words(db.threads[db.posts[id].thread].title), words(body));
            && (id in Hits(query, after) <==> !db.posts[id].deleted && text != {} && query(text))
            && Hits(query, after) - {id} == Hits(query, db) - {id}
  {
    var after := UpdatePost(words, db, id, body, held, editor);
    UpdatePostKeepsRows(words, db, id, body, held, editor);
    assert PostRefs(db, db.posts[id]);
    EditTouches(words, db, id, body, held, editor, id);
    FoundIff(words, after, id, query);
    forall i | i != id ensures i in Hits(query, after) <==> i in Hits(query, db) {
      EditLeaves(words, db, id, body, held, editor, i, query);
    }
  }

  lemma EditLeaves(words: Tokenizer, db: Db, id: Id, body: string, held: bool, editor: Id, i: Id, query: Query)
    requires RefsOk(db) && AgreesOnRows(words, db) && i != id
    ensures i in Hits(query, UpdatePost(words, db, id, body, held, editor)) <==> i in Hits(query, db)
  {
    var after := UpdatePost(words, db, id, body, held, editor);
    UpdatePostKeepsRows(words, db, id, body, held, editor);
    if i in db.posts {
      assert PostRefs(db, db.posts[i]);
    }
    EditTouches(words, db, id, body, held, editor, i);
    FoundIff(words, db, i, query);
    FoundIff(words, after, i, query);
  }

  lemma EditTouches(words: Tokenizer, db: Db, id: Id, body: string, held: bool, editor: Id, i: Id)
    ensures var after := UpdatePost(words, db, id, body, held, editor);
            && after.threads == db.threads && after.users == db.users && after.posts.Keys == db.posts.Keys
            && (i in db.posts ==>
                  && SameWords(after.posts[i], if i == id then db.posts[i].(body := body) else db.posts[i])
                  && after.posts[i].deleted == db.posts[i].deleted)
  {
  }

  // ----- A title that comes back -----

  /** The query for one word in the title. */
  function TitleHas(w: string): Query {
    (text: set<Term>) => exists x <- text :: x.column == Title && x.token == w
  }

  /** A posting under the word stands in the title. */
  predicate InTitle(places: Option<set<Place>>) {
    places.Some? && exists pl <- places.value :: pl.column == Title
  }

  lemma {:induction false} TitleHasIff(index: Postings, id: Id, w: string)
    ensures TitleHas(w)(Document(index, id)) <==> InTitle(Lookup(index, id, w))
  {
    if TitleHas(w)(Document(index, id)) {
      var x :| x in Document(index, id) && x.column == Title && x.token == w;
      DocumentHas(index, id, x);
      assert Place(Title, x.position) in Lookup(index, id, w).value;
    }
    if InTitle(Lookup(index, id, w)) {
      var pl :| pl in Lookup(index, id, w).value && pl.column == Title;
      DocumentHas(index, id, Term(Title, pl.position, w));
      assert Term(Title, pl.position, w) in Document(index, id);
    }
  }

  lemma {:induction false} TitlePlaces(tokens: seq<string>, w: string)
    ensures (exists pl <- PlacesIn(Title, tokens, w) :: pl.column == Title) <==> w in tokens
    ensures forall pl <- PlacesIn(Body, tokens, w) :: pl.column != Title
  {
    if w in tokens {
      var i :| 0 <= i < |tokens| && tokens[i] == w;
      assert Place(Title, i) in PlacesIn(Title, tokens, w);
    }
  }

  lemma {:induction false} DeservedInTitle(words: Tokenizer, threads: map<Id, Thread>, p: Post, w: string)
    requires p.thread in threads
    ensures InTitle(Deserved(words, threads, p, w)) <==> w in words(threads[p.thread].title)
  {
    var title := words(threads[p.thread].title);
    assert TitleTokens(words, threads, p) == title;
    TitlePlaces(title, w);
    TitlePlaces(words(p.body), w);
    if w in title {
      var pl :| pl in PlacesIn(Title, title, w) && pl.column == Title;
      assert w in title + words(p.body);
      assert pl in RowPlaces(words, threads, p, w);
    }
  }

  /** Why the agreement matters: when a new post gets the id of a hard-deleted one, it is found by a title
      word that its own title lacks exactly for the words of the old title that neither the old body nor
      the new text has. */
  lemma {:induction false} DeletedTitleComesBackIff(words: Tokenizer, db: Db, t: Id, p: Post, w: string)
    requires RefsOk(db) && Agrees(words, db) && t in db.threads
    requires var after := DeleteThread(words, db, t);
             InsertPost(words, after, p).Ok? && !p.deleted
               && InsertPost(words, after, p).value.1 in PostsOf(db.posts, t)
    ensures var after := DeleteThread(words, db, t);
            var (later, id) := InsertPost(words, after, p).value;
            (id in Hits(TitleHas(w), later) && id !in Scan(words, TitleHas(w), later))
            <==> w in words(db.threads[t].title) && w !in words(db.posts[id].body)
                 && w !in RowWords(words, after.threads, p)
  {
    var after := DeleteThread(words, db, t);
    var (later, id) := InsertPost(words, after, p).value;
    FoundByTitle(words, later, id, w);
    InsertPostLookup(words, after, p, id, w);
    DeservedInTitle(words, after.threads, p, w);
    LeftInTitle(words, db, t, id, w);
  }

  lemma LeftInTitle(words: Tokenizer, db: Db, t: Id, id: Id, w: string)
    requires RefsOk(db) && AgreesOnRows(words, db) && t in db.threads && id in PostsOf(db.posts, t)
    ensures InTitle(Lookup(DeleteThread(words, db, t).index, id, w))
       <==> w in words(db.threads[t].title) && w !in words(db.posts[id].body)
  {
    DeleteThreadIndex(words, db, t, id, w);
    TitlePlaces(words(db.threads[t].title), w);
  }

  lemma {:induction false} FoundByTitle(words: Tokenizer, db: Db, id: Id, w: string)
    requires id in db.posts && !db.posts[id].deleted && db.posts[id].thread in db.threads
             && db.posts[id].author in db.users
    ensures id in Hits(TitleHas(w), db) <==> InTitle(Lookup(db.index, id, w))
    ensures id in Scan(words, TitleHas(w), db) <==> w in words(db.threads[db.posts[id].thread].title)
  {
    var p := db.posts[id];
    TitleHasIff(db.index, id, w);
    TitleHasIff(Row(words, db.threads, id, p), id, w);
    RowsLookup(words, db.threads, map[id := p], {id}, id, w);
    DeservedInTitle(words, db.threads, p, w);
  }
}
