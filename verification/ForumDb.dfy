/** The forum tables and what each store call does to them: internal/store/sqlite/{thread,post,user,
    read_status}.go over the schema of migrations/001_initial.up.sql. */
module ForumDb {
  import opened Tables

  datatype Result<+T> = Ok(value: T) | Failed(error: Error)

  datatype Error = TooDeeplyNested | ForeignKeyViolation

  /** The DATETIME columns hold text and are compared as text. */
  type Stamp = string

  /** The tokenizer of the full-text index. */
  type Tokenizer = string -> seq<string>

  datatype Column = Title | Body

  /** Where a token stands in a row. */
  datatype Place = Place(column: Column, position: nat)

  /** The full-text index: for a row id and a token, where the token stands in the row. */
  type Postings = map<(Id, string), set<Place>>

  datatype User = User(postCount: nat, banned: bool, moderator: bool)

  datatype Thread = Thread(sub: Id, author: Id, title: string, locked: bool, replyCount: nat, lastPostAt: Stamp,
    lastPostBy: Option<Id>)

  datatype Post = Post(thread: Id, author: Id, parent: Option<Id>, body: string, held: bool, deleted: bool,
    editCount: nat, editedBy: Option<Id>)

  datatype Db = Db(
    users: map<Id, User>,
    subs: set<Id>,
    threads: map<Id, Thread>,
    posts: map<Id, Post>,
    index: Postings,
    readMarks: map<(Id, Id), Stamp>)

  // ----- The full-text index and its triggers. -----

  function PlacesIn(column: Column, tokens: seq<string>, w: string): set<Place> {
    set i | 0 <= i < |tokens| && tokens[i] == w :: Place(column, i)
  }

  function TitleOf(threads: map<Id, Thread>, t: Id): Option<string> {
    if t in threads then Some(threads[t].title) else None
  }

  /** A NULL title has no tokens. */
  function TitleTokens(words: Tokenizer, threads: map<Id, Thread>, p: Post): seq<string> {
    var title := TitleOf(threads, p.thread);
    if title.Some? then words(title.value) else []
  }

  function RowWords(words: Tokenizer, threads: map<Id, Thread>, p: Post): set<string> {
    set w | w in TitleTokens(words, threads, p) + words(p.body)
  }

  function RowPlaces(words: Tokenizer, threads: map<Id, Thread>, p: Post, w: string): set<Place> {
    PlacesIn(Title, TitleTokens(words, threads, p), w) + PlacesIn(Body, words(p.body), w)
  }

  /** The postings of some rows. */
  function Rows(words: Tokenizer, threads: map<Id, Thread>, posts: map<Id, Post>, ids: set<Id>): Postings
    requires ids <= posts.Keys
  {
    map id, w | id in ids && w in RowWords(words, threads, posts[id]) ::
      (id, w) := RowPlaces(words, threads, posts[id], w)
  }

  function Row(words: Tokenizer, threads: map<Id, Thread>, id: Id, p: Post): Postings {
    Rows(words, threads, map[id := p], {id})
  }

  /** AFTER INSERT: the row's postings replace older ones under the same row id and token.  Nothing is
      added for a post whose thread row is missing. */
  function Index(words: Tokenizer, index: Postings, threads: map<Id, Thread>, id: Id, p: Post): Postings {
    if p.thread in threads then index + Row(words, threads, id, p) else index
  }

  /** BEFORE DELETE: the 'delete' command takes out whatever is filed under the row id and a token of the
      values it is given, in either column.  The title is read from the thread row at that moment. */
  function Unindex(words: Tokenizer, index: Postings, threads: map<Id, Thread>, id: Id, p: Post): Postings {
    index - Row(words, threads, id, p).Keys
  }

  /** AFTER UPDATE: the old row is taken out and the new row put in. */
  function Reindex(words: Tokenizer, index: Postings, threads: map<Id, Thread>, id: Id, before: Post,
                   p: Post): Postings {
    Index(words, Unindex(words, index, threads, id, before), threads, id, p)
  }

  // ----- Store calls on threads. -----

  /** Inserts the thread row; the opening post is a separate call. */
  ghost function CreateThread(db: Db, sub: Id, author: Id, title: string, at: Stamp): Result<(Db, Id)> {
    if sub !in db.subs || author !in db.users then Failed(ForeignKeyViolation)
    else
      var id := NextId(db.threads.Keys);
      Ok((db.(threads := db.threads[id := Thread(sub, author, title, false, 0, at, Some(author))]), id))
  }

  /** Overwrites the last-post columns and counts one more reply; no row, no effect. */
  function UpdateLastPost(db: Db, t: Id, user: Id, at: Stamp): Db {
    if t in db.threads then
      var row := db.threads[t];
      db.(threads := db.threads[t := row.(replyCount := row.replyCount + 1, lastPostAt := at,
        lastPostBy := Some(user))])
    else db
  }

  function LockThread(db: Db, t: Id, locked: bool): Db {
    if t in db.threads then db.(threads := db.threads[t := db.threads[t].(locked := locked)]) else db
  }

  // ----- Store calls on posts. -----

  /** The depth check: the parent's parent has a parent. */
  predicate TooDeep(posts: map<Id, Post>, parent: Id) {
    && parent in posts && posts[parent].parent.Some?
    && posts[parent].parent.value in posts && posts[posts[parent].parent.value].parent.Some?
  }

  /** The foreign keys of a row about to be inserted under `id`.  The new row counts as a parent key,
      so a row may name itself. */
  predicate ForeignKeysHold(db: Db, id: Id, p: Post) {
    && p.thread in db.threads && p.author in db.users
    && (p.parent.Some? ==> p.parent.value in db.posts || p.parent.value == id)
  }

  function NewPost(thread: Id, author: Id, parent: Option<Id>, body: string, held: bool): Post {
    Post(thread, author, parent, body, held, false, 0, None)
  }

  /** The query before the insert. */
  predicate CheckPasses(posts: map<Id, Post>, parent: Option<Id>) {
    parent.Some? ==> !TooDeep(posts, parent.value)
  }

  ghost function InsertPost(words: Tokenizer, db: Db, p: Post): Result<(Db, Id)> {
    var id := NextId(db.posts.Keys);
    if !ForeignKeysHold(db, id, p) then Failed(ForeignKeyViolation)
    else Ok((db.(posts := db.posts[id := p], index := Index(words, db.index, db.threads, id, p)), id))
  }

  /** The query and the insert, with nothing in between. */
  ghost function CreatePost(words: Tokenizer, db: Db, p: Post): Result<(Db, Id)> {
    if !CheckPasses(db.posts, p.parent) then Failed(TooDeeplyNested) else InsertPost(words, db, p)
  }

  function ReplacePost(words: Tokenizer, db: Db, id: Id, p: Post): Db
    requires id in db.posts
  {
    db.(posts := db.posts[id := p], index := Reindex(words, db.index, db.threads, id, db.posts[id], p))
  }

  function UpdatePost(words: Tokenizer, db: Db, id: Id, body: string, held: bool, editor: Id): Db {
    if id in db.posts then
      var p := db.posts[id];
      ReplacePost(words, db, id, p.(body := body, held := held, editCount := p.editCount + 1, editedBy := Some(editor)))
    else db
  }

  /** The soft delete. */
  function DeletePost(words: Tokenizer, db: Db, id: Id, moderator: Id): Db {
    if id in db.posts then ReplacePost(words, db, id, db.posts[id].(deleted := true, editedBy := Some(moderator)))
      else db
  }

  function IncrementPostCount(db: Db, u: Id): Db {
    if u in db.users then db.(users := db.users[u := db.users[u].(postCount := db.users[u].postCount + 1)]) else db
  }

  function MarkThreadRead(db: Db, u: Id, t: Id, at: Stamp): Db {
    if u in db.users && t in db.threads then db.(readMarks := db.readMarks[(u, t) := at]) else db
  }

  // ----- Deleting a thread: CASCADE to its posts and read marks, SET NULL on replies elsewhere. -----

  function PostsOf(posts: map<Id, Post>, t: Id): set<Id> {
    set p | p in posts && posts[p].thread == t
  }

  function Replies(posts: map<Id, Post>, parents: set<Id>): set<Id> {
    set p | p in posts && posts[p].parent.Some? && posts[p].parent.value in parents
  }

  /** Replies in other threads to one of the posts `gone`. */
  function Orphans(posts: map<Id, Post>, gone: set<Id>): set<Id> {
    set p | p in posts && p !in gone && posts[p].parent.Some? && posts[p].parent.value in gone
  }

  function Detach(p: Post, gone: set<Id>): Post {
    if p.parent.Some? && p.parent.value in gone then p.(parent := None) else p
  }

  function Survivors(posts: map<Id, Post>, gone: set<Id>): map<Id, Post> {
    map p | p in posts && p !in gone :: Detach(posts[p], gone)
  }

  /** Some rows taken out of the index, and some put in again. */
  function Triggered(words: Tokenizer, index: Postings, threads: map<Id, Thread>, posts: map<Id, Post>, out: set<Id>,
                     again: set<Id>): Postings
    requires out <= posts.Keys && again <= posts.Keys
  {
    index - Rows(words, threads, posts, out).Keys + Rows(words, threads, posts, again)
  }

  /** The rows of `ids` whose thread row exists. */
  function Threaded(threads: map<Id, Thread>, posts: map<Id, Post>, ids: set<Id>): set<Id>
    requires ids <= posts.Keys
  {
    set id | id in ids && posts[id].thread in threads
  }

  /** The thread row goes first, so the triggers of its posts find no title: of a deleted post only the
      tokens of its body are taken out.  The replies elsewhere are taken out and put in again. */
  function DeleteThread(words: Tokenizer, db: Db, t: Id): Db {
    if t !in db.threads then db
    else
      var threads := db.threads - {t};
      var gone := PostsOf(db.posts, t);
      var orphans := Orphans(db.posts, gone);
      db.(threads := threads,
          posts := Survivors(db.posts, gone),
          index := Triggered(words, db.index, threads, db.posts, gone + orphans, Threaded(threads, db.posts, orphans)),
          readMarks := map k | k in db.readMarks && k.1 != t :: db.readMarks[k])
  }
}

/** References resolve, and replies form a forest. */
module ForumForest {
  import opened Tables
  import opened ForumDb

  ghost predicate PostRefs(db: Db, p: Post) {
    && p.thread in db.threads && p.author in db.users
    && (p.parent.Some? ==> p.parent.value in db.posts)
    && (p.editedBy.Some? ==> p.editedBy.value in db.users)
  }

  ghost predicate ThreadRefs(db: Db, t: Thread) {
    t.sub in db.subs && t.author in db.users && (t.lastPostBy.Some? ==> t.lastPostBy.value in db.users)
  }

  /** Every foreign key resolves. */
  ghost predicate RefsOk(db: Db) {
    && (forall t <- db.threads :: ThreadRefs(db, db.threads[t]))
    && (forall p <- db.posts :: PostRefs(db, db.posts[p]))
    && (forall k <- db.readMarks :: k.0 in db.users && k.1 in db.threads)
  }

  /** Parents are older: the parent relation has no cycle. */
  ghost predicate ParentsOlder(posts: map<Id, Post>) {
    forall p <- posts :: posts[p].parent.Some? ==> posts[p].parent.value < p
  }

  /** Parents are older or the post itself. */
  ghost predicate ParentsNotYounger(posts: map<Id, Post>) {
    forall p <- posts :: posts[p].parent.Some? ==> posts[p].parent.value <= p
  }

  /** How many ancestors a post has. */
  ghost function Depth(posts: map<Id, Post>, id: Id): nat
    decreases id
  {
    if id in posts && posts[id].parent.Some? && posts[id].parent.value < id
    then 1 + Depth(posts, posts[id].parent.value) else 0
  }

  /** The bound the nesting check is there for. */
  ghost predicate Shallow(posts: map<Id, Post>) {
    forall p <- posts :: Depth(posts, p) <= 2
  }

  /** What every step keeps. */
  ghost predicate Forest(db: Db) {
    RefsOk(db) && ParentsNotYounger(db.posts)
  }

  // ----- Creating a post -----

  /** The depth of a post depends on the older posts only. */
  lemma {:induction false} DepthFrame(a: map<Id, Post>, b: map<Id, Post>, id: Id)
    requires forall p :: p <= id ==> (p in a <==> p in b)
    requires forall p :: p <= id && p in a ==> a[p].parent == b[p].parent
    ensures Depth(a, id) == Depth(b, id)
    decreases id
  {
    if id in a && a[id].parent.Some? && a[id].parent.value < id {
      DepthFrame(a, b, a[id].parent.value);
    }
  }

  lemma {:induction false} PassedCheckIsShallow(posts: map<Id, Post>, parent: Id)
    requires ParentsNotYounger(posts) && !TooDeep(posts, parent)
    requires parent in posts && posts[parent].parent.Some? ==> posts[parent].parent.value in posts
    ensures Depth(posts, parent) <= 1
  {
    if parent in posts && posts[parent].parent.Some? {
      var grand := posts[parent].parent.value;
      assert posts[grand].parent.None?;
      assert Depth(posts, grand) == 0;
    }
  }

  /** Among strictly older parents the query is exact: it refuses the parents at depth two or more. */
  lemma {:induction false} CheckIsExact(db: Db, parent: Id)
    requires Forest(db) && ParentsOlder(db.posts) && parent in db.posts
    ensures TooDeep(db.posts, parent) <==> Depth(db.posts, parent) >= 2
  {
    assert PostRefs(db, db.posts[parent]);
    if TooDeep(db.posts, parent) {
      var grand := db.posts[parent].parent.value;
      assert Depth(db.posts, grand) >= 1;
      assert Depth(db.posts, parent) == 1 + Depth(db.posts, grand);
    } else {
      PassedCheckIsShallow(db.posts, parent);
    }
  }

  /** An insert leaves the older posts where they are; the new one is one deeper than its parent. */
  lemma {:induction false} InsertPostDepth(words: Tokenizer, db: Db, p: Post, q: Id)
    requires InsertPost(words, db, p).Ok?
    ensures var (after, id) := InsertPost(words, db, p).value;
            && (q in db.posts ==> Depth(after.posts, q) == Depth(db.posts, q))
            && Depth(after.posts, id) ==
               (if p.parent.Some? && p.parent.value != id then 1 + Depth(db.posts, p.parent.value) else 0)
  {
    var (after, id) := InsertPost(words, db, p).value;
    if q in db.posts {
      DepthFrame(db.posts, after.posts, q);
    }
    if p.parent.Some? && p.parent.value != id {
      assert p.parent.value in db.posts;
      DepthFrame(db.posts, after.posts, p.parent.value);
    }
  }

  /** The insert keeps the bound exactly when the parent it finds then is at depth one at most. */
  lemma {:induction false} InsertPostKeepsShallowIff(words: Tokenizer, db: Db, p: Post)
    requires Shallow(db.posts) && InsertPost(words, db, p).Ok?
    ensures Shallow(InsertPost(words, db, p).value.0.posts)
       <==> (p.parent.Some? && p.parent.value in db.posts ==> Depth(db.posts, p.parent.value) <= 1)
  {
    var (after, id) := InsertPost(words, db, p).value;
    forall q | q in after.posts && q != id ensures Depth(after.posts, q) <= 2 {
      InsertPostDepth(words, db, p, q);
    }
    InsertPostDepth(words, db, p, id);
    assert id in after.posts;
  }

  /** A new post, wherever its parent lives, keeps the forest. */
  lemma {:induction false} InsertPostKeepsForest(words: Tokenizer, db: Db, p: Post)
    requires Forest(db) && InsertPost(words, db, p).Ok?
    requires p.editedBy.Some? ==> p.editedBy.value in db.users
    ensures Forest(InsertPost(words, db, p).value.0)
  {
    var (after, id) := InsertPost(words, db, p).value;
    forall q | q in after.posts ensures PostRefs(after, after.posts[q]) {
      if q != id { assert PostRefs(db, db.posts[q]); }
    }
  }

  /** With its check right before the insert, a new post keeps the bound on nesting as well. */
  lemma {:induction false} CreatePostKeepsForest(words: Tokenizer, db: Db, p: Post)
    requires Forest(db) && Shallow(db.posts) && CreatePost(words, db, p).Ok?
    requires p.editedBy.Some? ==> p.editedBy.value in db.users
    ensures Forest(CreatePost(words, db, p).value.0) && Shallow(CreatePost(words, db, p).value.0.posts)
  {
    InsertPostKeepsForest(words, db, p);
    InsertPostKeepsShallowIff(words, db, p);
    if p.parent.Some? && p.parent.value in db.posts {
      assert PostRefs(db, db.posts[p.parent.value]);
      PassedCheckIsShallow(db.posts, p.parent.value);
    }
  }

  /** Strictly older parents are kept exactly when the new post does not name the id it is about to get. */
  lemma {:induction false} InsertPostKeepsOlderIff(words: Tokenizer, db: Db, p: Post)
    requires ParentsOlder(db.posts) && InsertPost(words, db, p).Ok?
    ensures ParentsOlder(InsertPost(words, db, p).value.0.posts) <==> p.parent != Some(NextId(db.posts.Keys))
  {
    var (after, id) := InsertPost(words, db, p).value;
    assert after.posts[id] == p;
    if p.parent != Some(id) {
      forall q | q in after.posts && after.posts[q].parent.Some? ensures after.posts[q].parent.value < q {
        if q != id { assert after.posts[q] == db.posts[q]; }
      }
    }
  }

  /** In every forum, a reply that names the next id as its parent is accepted, and is its own parent. */
  lemma {:induction false} SelfParentAccepted(words: Tokenizer, db: Db, thread: Id, author: Id, body: string,
                                              held: bool)
    requires thread in db.threads && author in db.users
    ensures var id := NextId(db.posts.Keys);
            var r := CreatePost(words, db, NewPost(thread, author, Some(id), body, held));
            r.Ok? && r.value.1 == id && r.value.0.posts[id].parent == Some(id) && !ParentsOlder(r.value.0.posts)
  {
    var id := NextId(db.posts.Keys);
    var r := CreatePost(words, db, NewPost(thread, author, Some(id), body, held));
    assert id in r.value.0.posts;
  }

  // ----- Deleting a thread -----

  lemma {:induction false} DepthShrinks(posts: map<Id, Post>, gone: set<Id>, id: Id)
    ensures Depth(Survivors(posts, gone), id) <= Depth(posts, id)
    decreases id
  {
    var left := Survivors(posts, gone);
    if id in left && left[id].parent.Some? && left[id].parent.value < id {
      DepthShrinks(posts, gone, left[id].parent.value);
    }
  }

  /** Deleting a thread, with its cascades, keeps the forest. */
  lemma DeleteThreadKeepsForest(words: Tokenizer, db: Db, t: Id)
    requires Forest(db)
    ensures Forest(DeleteThread(words, db, t))
  {
    if t in db.threads {
      var after := DeleteThread(words, db, t);
      DeleteThreadPostRefs(words, db, t);
      forall x | x in after.threads ensures ThreadRefs(after, after.threads[x]) {
        assert ThreadRefs(db, db.threads[x]);
      }
    }
  }

  lemma DeleteThreadPostRefs(words: Tokenizer, db: Db, t: Id)
    requires RefsOk(db) && t in db.threads
    ensures var after := DeleteThread(words, db, t); forall q <- after.posts :: PostRefs(after, after.posts[q])
  {
    var after := DeleteThread(words, db, t);
    forall q | q in after.posts ensures PostRefs(after, after.posts[q]) {
      assert PostRefs(db, db.posts[q]);
    }
  }

  lemma {:induction false} DeleteThreadKeepsShape(words: Tokenizer, db: Db, t: Id)
    ensures ParentsOlder(db.posts) ==> ParentsOlder(DeleteThread(words, db, t).posts)
    ensures Shallow(db.posts) ==> Shallow(DeleteThread(words, db, t).posts)
  {
    if t in db.threads && Shallow(db.posts) {
      var after := DeleteThread(words, db, t);
      forall q | q in after.posts ensures Depth(after.posts, q) <= 2 {
        DepthShrinks(db.posts, PostsOf(db.posts, t), q);
      }
    }
  }

  // ----- The other calls do not touch parents -----

  /** Rows of `b` are rows of `a` with the same references, or none. */
  ghost predicate SameShape(a: Db, b: Db) {
    && b.posts.Keys == a.posts.Keys
    && (forall p <- a.posts ::
          && a.posts[p].parent == b.posts[p].parent && a.posts[p].thread == b.posts[p].thread
          && a.posts[p].author == b.posts[p].author)
    && (forall p <- b.posts :: b.posts[p].editedBy.Some? ==> b.posts[p].editedBy.value in b.users)
    && a.threads.Keys <= b.threads.Keys && a.users.Keys <= b.users.Keys && b.subs == a.subs
    && (forall t <- b.threads :: ThreadRefs(b, b.threads[t]))
    && (forall k <- b.readMarks :: k.0 in b.users && k.1 in b.threads)
  }

  lemma SameShapeKeepsForest(a: Db, b: Db)
    requires Forest(a) && SameShape(a, b)
    ensures Forest(b) && (ParentsOlder(a.posts) <==> ParentsOlder(b.posts)) && (Shallow(a.posts) <==> Shallow(b.posts))
  {
    forall p | p in b.posts ensures PostRefs(b, b.posts[p]) && Depth(b.posts, p) == Depth(a.posts, p) {
      assert PostRefs(a, a.posts[p]);
      DepthFrame(a.posts, b.posts, p);
    }
    forall p | p in a.posts && a.posts[p].parent.Some? ensures b.posts[p].parent == a.posts[p].parent {
    }
  }

  lemma EditsAreRefs(db: Db)
    requires RefsOk(db)
    ensures forall p <- db.posts :: db.posts[p].editedBy.Some? ==> db.posts[p].editedBy.value in db.users
  {
    forall p | p in db.posts && db.posts[p].editedBy.Some? ensures db.posts[p].editedBy.value in db.users {
      assert PostRefs(db, db.posts[p]);
    }
  }

  lemma {:induction false} CreateThreadKeepsForest(db: Db, sub: Id, author: Id, title: string, at: Stamp)
    requires Forest(db) && CreateThread(db, sub, author, title, at).Ok?
    ensures Forest(CreateThread(db, sub, author, title, at).value.0)
  {
    EditsAreRefs(db);
    SameShapeKeepsForest(db, CreateThread(db, sub, author, title, at).value.0);
  }

  lemma UpdateLastPostKeepsForest(db: Db, t: Id, user: Id, at: Stamp)
    requires Forest(db) && user in db.users
    ensures Forest(UpdateLastPost(db, t, user, at))
  {
    EditsAreRefs(db);
    SameShapeKeepsForest(db, UpdateLastPost(db, t, user, at));
  }

  lemma LockThreadKeepsForest(db: Db, t: Id, locked: bool)
    requires Forest(db)
    ensures Forest(LockThread(db, t, locked))
  {
    EditsAreRefs(db);
    SameShapeKeepsForest(db, LockThread(db, t, locked));
  }

  /** An edited row keeps its references. */
  lemma ReplacePostShape(words: Tokenizer, db: Db, id: Id, p: Post)
    requires RefsOk(db) && id in db.posts
    requires p.parent == db.posts[id].parent && p.thread == db.posts[id].thread && p.author == db.posts[id].author
    requires p.editedBy.Some? && p.editedBy.value in db.users
    ensures SameShape(db, ReplacePost(words, db, id, p))
  {
    EditsAreRefs(db);
  }

  lemma {:induction false} UpdatePostKeepsForest(words: Tokenizer, db: Db, id: Id, body: string, held: bool, editor: Id)
    requires Forest(db) && editor in db.users
    ensures Forest(UpdatePost(words, db, id, body, held, editor))
    ensures ParentsOlder(db.posts) <==> ParentsOlder(UpdatePost(words, db, id, body, held, editor).posts)
    ensures Shallow(db.posts) <==> Shallow(UpdatePost(words, db, id, body, held, editor).posts)
  {
    if id in db.posts {
      var p := db.posts[id];
      var edited := p.(body := body, held := held, editCount := p.editCount + 1, editedBy := Some(editor));
      ReplacePostShape(words, db, id, edited);
      SameShapeKeepsForest(db, ReplacePost(words, db, id, edited));
    }
  }

  lemma DeletePostKeepsForest(words: Tokenizer, db: Db, id: Id, moderator: Id)
    requires Forest(db) && moderator in db.users
    ensures Forest(DeletePost(words, db, id, moderator))
    ensures ParentsOlder(db.posts) <==> ParentsOlder(DeletePost(words, db, id, moderator).posts)
    ensures Shallow(db.posts) <==> Shallow(DeletePost(words, db, id, moderator).posts)
  {
    if id in db.posts {
      var deleted := db.posts[id].(deleted := true, editedBy := Some(moderator));
      ReplacePostShape(words, db, id, deleted);
      SameShapeKeepsForest(db, ReplacePost(words, db, id, deleted));
    }
  }

  lemma PutUserKeepsForest(db: Db, u: Id, row: User)
    requires Forest(db)
    ensures Forest(db.(users := db.users[u := row]))
  {
    var after := db.(users := db.users[u := row]);
    EditsAreRefs(db);
    forall t | t in after.threads ensures ThreadRefs(after, after.threads[t]) {
      assert ThreadRefs(db, db.threads[t]);
    }
    SameShapeKeepsForest(db, after);
  }

  lemma MarkThreadReadKeepsForest(db: Db, u: Id, t: Id, at: Stamp)
    requires Forest(db)
    ensures Forest(MarkThreadRead(db, u, t, at))
  {
    EditsAreRefs(db);
    SameShapeKeepsForest(db, MarkThreadRead(db, u, t, at));
  }
}
