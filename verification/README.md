# Forum Forge: a verified model

Forum Forge is a forum server in Go over SQLite. This project models the parts of it that keep state
over many requests, or that compute something easy to get wrong, and proves what they promise.

| Files | What they model |
|---|---|
| `Tables`, `ForumDb` | the forum tables as maps, every store call with its foreign keys, cascades and search-index triggers, and the reply forest |
| `ForumRequests`, `ForumNesting` | replies and new threads in flight, one statement at a time, in any interleaving, with failing calls, bans and deletions; references, parents and nesting over whole runs |
| `ForumCounters`, `ForumReuse` | the counters those requests maintain, and what a hard delete under one of them does |
| `ForumLives` | where every post, thread and user row comes from and what became of it, column by column, told by the labels of a run |
| `ForumIndex`, `ForumIndexRuns` | the full-text index against the index rebuilt from the tables, and search against a scan |
| `ForumHandlers`, `Timestamps` | requests served one at a time; unread marks; the order of timestamp text |
| `ForumUnreadRuns` | unread marks while replies interleave |
| `ForumListings`, `Paging`, `SearchWindow` | COUNT and joined queries, pages, page bars |
| `ForumStore` | the store and three handlers as an object whose methods write row by row |
| `Limiter` | the sliding-window rate limiter: the object with its slices pruned in place, and its whole runs, with clocks that are in order, late by a bounded skew, or in any order |
| `AuthState`, `AuthTokens`, `AuthAccounts`, `AuthService` | accounts, sessions and one-time tokens: pure requests, whole runs with the answer to every request, and the object |
| `SqlSplit`, `Text` | the statement splitter of the migration runner, over Go's line and trimming functions |
| `Ordering` | moving categories and subcategories up and down |
| `Crop`, `Snippet`, `Quote` | the avatar crop, the search excerpt, the quote block |

Code that changes state step by step is a class or a method with a loop, proved equal to a specification
function (`ForumStore.Store`, `RateLimiter.Limiter`, `AuthService.Service`, `OrderingAdmin.Admin`,
`SqlSplit.SplitSql`, `Paging.ListPage` and so on). What the repository promises is then proved of the
specification functions, for every input, every run or every reachable state.

## How the model reads the source

- Tables are maps from row ids. A new id is one more than the largest in the table (ids are not
  AUTOINCREMENT), so deleting the last row frees its id.
- A run of the forum is a sequence of labels, each one statement of a request in flight or another
  request as a whole. CreatePost is two statements, the nesting query and the insert. The label says
  whether the statement succeeds. ReplyToThread and CreateThread log a failed counter update and go on,
  so failures are part of the conservation law.
- Nobody's role is changed by a request; moderators come from the seeding program, which is one of the account
  requests and may run at any moment.
- Account requests carry flags for the store calls whose failure the source passes over or reports after
  a change: deleting a user's sessions or one session, deleting a used token, writing a new password hash.
- The full-text index is kept as FTS5 keeps it: postings are filed under a row id and a token. The
  'delete' command takes out what is filed under the tokens of the values it is given, in either column;
  an insert replaces what is filed under its own tokens. FTS5 documents nothing about a 'delete' with
  values other than those stored; this is what its index structure makes of one.
- Times of the forum are calendar moments; the DATETIME columns hold their text. Times of the limiter,
  the sessions and the tokens are nanosecond counts; stored expiries are cut to whole seconds.
- The tokenizer of the index, the MATCH query, password checking, the token hash, lowercasing, splitting a
  query into fields and case-insensitive matching are function parameters: every result holds whatever
  they are, except where an injective hash and fresh random tokens are asked for.
- Go's 64-bit wrap-around is modelled where a request or a setting can reach it: page offsets, the
  rounding-up sum of the page count, and the search window.

## What the code does that its promises do not say

Each of these has its exact condition proved.

- **A reply can be its own parent.** SQLite counts the row being inserted as a parent key, and the depth
  check finds no row. A reply whose `parent_id` is the id it is about to get is therefore stored. Parents are
  strictly older all along a run exactly when no step stores such a reply (`SelfParentAccepted`,
  `OlderAlwaysIff`); references and "no parent is younger" hold in every run.
- **Replies can be nested three deep.** The check and the insert are two statements. A reply that names an
  id still to be handed out passes its check, because there is no such row, and another reply may take that id at
  depth two before the insert. The bound holds all along a run exactly when no reply finds its parent
  at depth two when it is inserted; it does whenever each check is followed by its insert at once, and, without hard
  deletions, whenever every stored reply named a parent that existed at its check. From every state there
  is a run that breaks it (`ShallowAlwaysIff`, `ShallowWhenAtOnce`, `ShallowWhenSeen`, `BoundCanBreak`).
- **A hard-deleted thread leaves title words in the index.** The delete trigger reads the title from a thread
  row that is already gone, so only the tokens of the body are taken out. The index still agrees exactly when
  every post of the thread has every token of the title in its body; a later post that gets a freed id is found
  by a title word it lacks exactly for the words of the old title that neither the old body nor the new text
  has (`DeleteThreadAgreesIff`, `DeletedTitleComesBackIff`). All along a run with hard deletions the posts there are
  filed as they should be, and search is exact, exactly when no step inserts a post under an id for which a
  posting lingers outside the post's own words (`RowsAlwaysIff`, `SearchExactWithDeletions`).
- **A later reply can hide from a viewer.** UpdateLastPost overwrites `last_post_at`, so the listing shows the
  stamp counted last. Whatever interleaves or fails, the comparison with the read marks tells rightly whether
  anything was posted after a mark exactly when the row shows the latest stamp posted in the thread. With every
  reply of the thread counted that is so exactly when none counted before the last has a later stamp; two replies
  counted the other way round hide the later one from a viewer who opened the thread at the earlier
  (`UnreadRightIff`, `UnreadInterleaved`, `LatestWhenInOrder`, `LaterReplyHidden`).
- **Deleting a thread under a request in flight can put wrong numbers on the home page.** The id may be handed out
  again while the request still holds it. The deletion leaves every existing thread balanced in every
  continuation exactly when no request has written to the thread and still has something to write; otherwise
  there is a continuation, without a failing count or another such deletion, after which the forum is at rest and the
  home page shows a wrong number of posts (`DeleteHarmlessIffIdle`, `HomePageRightIffIdle`, `BusyDeleteMiscounts`).
- **The limiter needs a clock.** The middleware reads the time before `Allow` takes the mutex, so calls can be
  out of order. When no call is more than `skew` before an earlier one, windows of a length are bounded in every
  run exactly when the length is at most the limiter's window less the skew, or it is not positive, or the limit
  is 1 and it is at most the limiter's window (`SkewBoundIff`). With times in any order the bound on the limiter's
  own window holds of all runs exactly when the limit is 1 or the window is empty (`AnyOrderBoundIff`).
- **A ban may leave sessions behind.** Deleting the sessions of a banned user may fail, and is then logged. A
  session that was open at the ban works again after an unban exactly when the ban did not delete it and neither
  did anything since, such as a request with it during the ban (`OutlivesBanIff`).
- **A used token stays when its deletion fails.** The mark or the new password is stored before that, and the
  caller is told of the failure; the token can then be used again under its kind. It is used up at most once, and
  never used after (`UsedAtMostOnce`).
- **Far pages wrap around.** The page number comes from the URL and the offset is a 64-bit product; SQLite
  reads a negative offset as zero. A page is the slice it should be exactly when the product fits or the
  wrapped offset lies behind the last row; page 368934881474191034 of a listing by 25 shows page 1
  (`PageRightIff`, `FarPageShowsFirst`).
- **The page count can wrap around**, because the page size is a setting without an upper limit; with the
  largest size and two rows it is -1, and making the page bar panics (`TotalPagesRightIff`, `WrappedTotal`).
- **The search window is empty on the two largest page numbers**, where two pages further on is no longer
  a 64-bit number (`BuildSearchPagination`).
- **An excerpt can panic.** Lowercasing may lengthen a text, and the match is searched in the lowercased
  text but the excerpt is cut from the original: slicing fails exactly when the word is found more than
  fifty bytes behind the end of the body. With a separate word after k letters U+023A, two bytes that lowercase to
  three, it fails for k above 51 and for no smaller k (`PanicsIff`, `LengtheningPanics`). Also, the code takes the
  first word of the query that occurs, where its comment says the earliest match.
- **A quote reads back exactly when the name has no newline** (`QuoteRoundTripIff`).
- **A move and the opposite move restore the order exactly when the row was not already at the end it
  moved to**, or is alone (`MoveBackRestoresIff`).

## Model

| member | source | states |
|---|---|---|
| `ForumForest.InsertPostKeepsForest` | internal/store/sqlite/post.go:118-131 | the insert keeps every foreign key resolving and no parent younger than its reply, wherever the parent lives |
| `ForumForest.InsertPostKeepsShallowIff` | internal/store/sqlite/post.go:118-131 | the insert keeps nesting at most two deep if and only if the parent it finds then is at depth one at most |
| `ForumForest.CheckIsExact` | internal/store/sqlite/post.go:96-112 | among strictly older parents the depth query refuses exactly the parents at depth two or more |
| `ForumForest.CreatePostKeepsForest` | internal/store/sqlite/post.go:95-131 | with the query right before the insert, a stored post keeps references, parents and the bound on nesting |
| `ForumForest.PassedCheckIsShallow` | internal/store/sqlite/post.go:96-112 | a parent that passes the depth check has at most one ancestor, so the reply lands at depth two or less |
| `ForumForest.InsertPostKeepsOlderIff` | internal/store/sqlite/post.go:118-131 | parents stay strictly older if and only if the new post does not name the id it is about to get |
| `ForumForest.SelfParentAccepted` | internal/store/sqlite/post.go:95-131 | in every forum, a reply that names the next id is stored and is its own parent |
| `ForumForest.DeleteThreadKeepsForest` | migrations/001_initial.up.sql:60-73 | a hard delete, with posts cascading and parents set to NULL in other threads, keeps the forest |
| `ForumForest.DeleteThreadKeepsShape` | migrations/001_initial.up.sql:60-73 | it keeps parents strictly older, and the bound on nesting |
| `ForumForest.UpdatePostKeepsForest` | internal/store/sqlite/post.go:251-271 | an edit keeps the forest, and keeps parents older and nesting bounded if and only if they were |
| `ForumForest.DeletePostKeepsForest` | internal/store/sqlite/post.go:274-288 | so does a soft delete |
| `ForumForest.CreateThreadKeepsForest` | internal/store/sqlite/thread.go:87-117 | a new thread row keeps the forest |
| `ForumForestRuns.StepSound` | internal/handler/post.go:359-378 | every statement of every request in flight, and every ban, promotion, edit and deletion, keeps the forest and the users behind the requests |
| `ForumForestRuns.ForestAlways` | migrations/001_initial.up.sql:45-73 | in every run, whatever is deleted or banned under whatever is in flight: references resolve, and no parent is younger |
| `ForumForestRuns.StoresItselfIff` | internal/handler/post.go:324-329 | an insert stores a reply that is its own parent if and only if it succeeds, the thread exists and the reply named the next id |
| `ForumForestRuns.OlderAlwaysIff` | internal/handler/post.go:324-329 | all along a run parents are strictly older, so the reply relation has no cycle, if and only if no step stores a reply that names itself |
| `ForumForestRuns.ShallowAlwaysIff` | internal/store/sqlite/post.go:95-131 | all along a run nesting is at most two deep if and only if no step stores a reply whose parent is at depth two by then |
| `ForumNesting.ShallowWhenAtOnce` | internal/store/sqlite/post.go:95-131 | so it is in every run in which each check is followed by its insert at once, hard deletions included |
| `ForumNesting.ShallowWhenSeen` | internal/store/sqlite/post.go:100-112 | and in every interleaving without hard deletions whose stored replies all named parents that existed at their checks |
| `ForumNesting.FutureParentLandsDeep` | internal/store/sqlite/post.go:95-131 | a reply checked against an id still to come lands at depth three when a reply at depth two gets that id |
| `ForumNesting.BoundCanBreak` | internal/store/sqlite/post.go:95-131 | from every state some run without hard deletions nests a reply three deep |
| `ForumCounters.ReplyAdded` | internal/handler/post.go:359-363 | a stored reply adds one post and one pending count, which balance |
| `ForumCounters.ReplyCounted` | internal/store/sqlite/thread.go:231-245 | a pending count becomes one counted reply, or one lost, and the thread stays balanced |
| `ForumCounters.OpeningSettled` | internal/handler/thread.go:341-350 | the opening post arrives, or never will, and the thread stays balanced |
| `ForumCounters.StepConserves` | internal/handler/post.go:359-378 | every store call keeps every thread balanced, a hard delete too while nothing is pending on the thread |
| `ForumCounters.CountersConserved` | internal/handler/post.go:359-378 | conservation in every interleaving: posts = reply_count + stored but not yet counted + lost by failing calls + the opening post if it is in |
| `ForumCounters.SumAtRest` | internal/store/sqlite/category.go:254-279 | with nothing in flight, SUM(reply_count + 1) over any threads against the posts really there, with what failures lost on each side |
| `ForumCounters.PostCountExact` | internal/store/sqlite/category.go:254-279 | at rest the home page shows the real number of posts if and only if as many counts as opening posts were lost there |
| `ForumCounters.PostCountReal` | internal/store/sqlite/category.go:254-279 | with no failing call it shows the real number whenever nothing is in flight |
| `ForumReuse.BusyDeleteMiscounts` | internal/handler/moderation.go:256-305 | after any run, a hard delete under a pending write has a continuation, with no failing count and no other such deletion, that ends at rest with the reused thread out of balance and a wrong number on the home page |
| `ForumReuse.DeleteHarmlessIffIdle` | internal/store/sqlite/thread.go:271-277 | after a guarded run, deleting a thread leaves every existing thread balanced in every guarded continuation if and only if nothing is pending on the thread |
| `ForumReuse.HomePageRightIffIdle` | internal/store/sqlite/category.go:254-279 | and, with no count or opening post lost, the home page is right whenever the forum is at rest again, in every such continuation, if and only if nothing is pending |
| `ForumPostCounts.PostCountIsReplies` | internal/store/sqlite/user.go:127-134 | in every run, hard deletes included: a user's post_count + what is in flight or lost = the replies the user ever stored; opening posts never count |
| `PostLives.PostsTold` | internal/store/sqlite/post.go:118-131 | after any run, with failing calls and deletions at any moment: a post is there while its life lasts, and thread, author, parent, text, deletion mark, number of edits and last editor are what its life says |
| `PostLives.DeletedIff` | internal/store/sqlite/post.go:274-288 | a post is there and deleted if and only if a known user soft-deleted it while it was there and it was neither removed nor replaced since; edits do not bring it back |
| `PostLives.TextIsLast` | internal/store/sqlite/post.go:251-271 | a post holds the text written last, by the insert or by the last edit of a known user |
| `PostLives.PostComesFrom` | internal/handler/post.go:280-378 | every post goes back to a request for this text, by this author, to this parent in this thread, begun when the author was known and not banned and the thread was there and open to them |
| `ThreadLives.ThreadsTold` | internal/store/sqlite/thread.go:231-277 | after any run a thread has the subcategory, author and title it began with, the lock set last, as many replies as were counted, and the user and time counted last |
| `ThreadLives.ThreadComesFrom` | internal/handler/thread.go:237-350 | every thread goes back to a permitted request for this title in this subcategory |
| `UserLives.UsersTold` | internal/store/sqlite/user.go:127-162 | after any run a user is banned as last judged, a moderator as last promoted or demoted, with as many posts as were counted |
| `UserLives.NoPostWhileBanned` | internal/handler/post.go:280-345 | no post was asked for by an author whose last verdict was a ban, nor, unless by a moderator, in a thread whose last lock was set |
| `ForumIndex.AgreesIsRebuilt` | migrations/001_initial.up.sql:180-205 | agreement row by row and token by token is equality with the index built anew from all posts and their titles |
| `ForumIndex.InsertPostKeepsAgreement` | migrations/001_initial.up.sql:190-193 | the insert trigger keeps the index equal to the rebuilt one |
| `ForumIndex.InsertPostKeepsRowsIff` | migrations/001_initial.up.sql:190-193 | with postings of deleted rows lingering, it keeps the rows agreeing if and only if those under the new id are all under tokens of the new post |
| `ForumIndex.UpdatePostKeepsAgreement` | migrations/001_initial.up.sql:200-205 | the update trigger keeps the agreement over edits |
| `ForumIndex.DeletePostKeepsAgreement` | internal/store/sqlite/post.go:274-288 | and over soft deletes |
| `ForumIndex.DeleteThreadIndex` | migrations/001_initial.up.sql:195-198 | the index after a hard delete: of a deleted post exactly the title tokens that its body lacks stay behind, with their places in the title |
| `ForumIndex.DeleteThreadAgreesIff` | migrations/001_initial.up.sql:195-198 | a hard delete keeps the agreement if and only if every post of the thread has every token of the title in its body |
| `ForumIndex.TriggeredTwice` | migrations/001_initial.up.sql:195-205 | firing some triggers and then others is firing them together, when no row put in again is taken out later |
| `ForumIndex.DeleteThreadKeepsRows` | migrations/001_initial.up.sql:195-205 | the rows that remain keep agreeing, whatever the title |
| `ForumIndex.SearchIsScan` | internal/store/sqlite/search.go:28-55 | search through the index returns exactly the undeleted posts a full scan would, and the count is the number of rows listed |
| `ForumIndex.SearchRightIff` | internal/store/sqlite/search.go:28-55 | whatever is in the index: every query returns what the scan would if and only if every undeleted post is filed as its own text reads |
| `ForumIndex.FoundIff` | internal/store/sqlite/search.go:28-55 | a search finds a post if and only if it is not deleted and the tokens of its title and its text answer the query |
| `ForumIndex.FoundByWordIff` | internal/store/sqlite/search.go:28-55 | so a word finds exactly the posts that are not deleted and have it in their title or text |
| `ForumIndex.DeleteHides` | internal/store/sqlite/post.go:274-288 | a soft delete takes the post, and no other, out of every search |
| `ForumIndex.EditFinds` | internal/store/sqlite/post.go:251-271 | after an edit the post is found by its new text, and every other as before |
| `ForumIndex.DeletedTitleComesBackIff` | internal/store/sqlite/search.go:39-55 | a new post with a freed id is found by a title word its title lacks if and only if the word is in the old title and neither in the old body nor in the new text |
| `ForumIndexRuns.IndexAlwaysAgrees` | migrations/001_initial.up.sql:180-205 | in every run without a hard delete the index agrees |
| `ForumIndexRuns.SearchAlwaysExact` | internal/store/sqlite/search.go:28-55 | in every such run the index is the rebuilt one, search is the scan, and its count is right |
| `ForumIndexRuns.RowsAlwaysIff` | migrations/001_initial.up.sql:180-205 | all along any run, hard deletions included, every post there is filed under its own words if and only if no step inserts a post under an id with a lingering posting outside the post's own words |
| `ForumIndexRuns.SearchExactWithDeletions` | internal/store/sqlite/search.go:28-55 | in every such run search is the scan and its count is right |
| `ForumIndexRuns.WordFinds` | internal/store/sqlite/search.go:28-55 | and a word finds exactly the posts there that have it and that nobody has soft-deleted since they were stored |
| `ForumHandlers.ReplyIsItsSteps` | internal/handler/post.go:359-378 | a reply served alone is the interleaved request with nothing in between |
| `ForumHandlers.ThreadIsItsSteps` | internal/handler/thread.go:331-350 | so is a new thread |
| `ForumHandlers.ReplyExact` | internal/handler/post.go:280-378 | a reply is posted if and only if the user is known and not banned, the thread is there and open to them, there is a text, and the parent may be answered; then post, thread and user rows are these, and nothing else has changed but the index |
| `ForumHandlers.StartExact` | internal/handler/thread.go:237-350 | a thread is started if and only if the user is known and not banned, the subcategory exists, the title has 1 to 200 characters and there is a text; then it has its row and opening post, and nobody's posts are counted |
| `Timestamps.TextOrdersAsTime` | internal/store/sqlite/thread.go:231-240 | the fixed-width text of two moments orders as the moments do, down to the second |
| `Unread.UnreadExact` | internal/store/sqlite/thread.go:153-177 | a thread is listed unread if and only if the viewer is signed in and never opened it as a full page, or some post falls in a strictly later second than every such opening |
| `ForumUnreadRuns.RunShows` | internal/store/sqlite/thread.go:231-245 | after any run, whatever interleaves or fails: the thread row shows the stamp counted last, and the read mark the viewer's last opening in the thread's present life |
| `ForumUnreadRuns.UnreadRightIff` | internal/store/sqlite/thread.go:153-177 | after any run, with failing calls and deletions at any moment: comparing marks with the shown stamp tells for every mark whether something was posted after it in the thread's present life if and only if the row shows the latest stamp posted there |
| `ForumUnreadRuns.LatestWhenInOrder` | internal/store/sqlite/thread.go:231-245 | with every reply counted and no untimely deletion, the row shows the stamp counted last; it is the latest posted if and only if no reply counted before has a later one, and so when replies are counted in order |
| `ForumUnreadRuns.UnreadInterleaved` | internal/store/sqlite/thread.go:153-177 | when the row shows the latest stamp posted, a thread is listed unread if and only if the viewer is signed in and has not opened it in its present life, or something was posted after their last opening |
| `ForumUnreadRuns.LaterReplyHidden` | internal/store/sqlite/thread.go:231-245 | in every state with two replies waiting, counting the later first hides it from a viewer who opens the thread at the stamp of the earlier |
| `ForumListings.JoinLosesNothing` | internal/store/sqlite/post.go:143-183 | with intact references the COUNT query and the joined query see the same rows, for threads, posts of a thread, posts of a user and search hits |
| `ForumListings.ListsExactly` | internal/store/sqlite/post.go:143-249 | in every reachable state: the threads of a subcategory, the posts of a thread, deleted or not, and exactly those posts of a user that nobody has soft-deleted since they were stored |
| `ForumListings.ListingAlwaysWhole` | internal/store/sqlite/thread.go:129-206 | in every reachable state, for every order and page size: the count is the number of rows, and the pages up to the last announced are the whole result |
| `ForumListings.ShownIffCounted` | internal/store/sqlite/post.go:227-249 | a row is on one of the announced pages if and only if the COUNT query counts it |
| `ForumListings.ShownOnce` | internal/store/sqlite/post.go:227-249 | and in one place only |
| `ForumStore.Store.CreateUser` | internal/store/sqlite/user.go:44-64 | a new user row, neither banned nor a moderator, with nothing counted, under the next id |
| `ForumStore.Store.CreateThread` | internal/store/sqlite/thread.go:87-117 | the insert, or the foreign-key error that changes nothing |
| `ForumStore.Store.UpdateLastPost` | internal/store/sqlite/thread.go:231-245 | overwrites the last-post columns and counts one reply |
| `ForumStore.Store.IncrementPostCount` | internal/store/sqlite/user.go:127-134 | counts one reply of the user |
| `ForumStore.Store.CreatePost` | internal/store/sqlite/post.go:95-131 | the depth check, the insert with its foreign keys checked after the row is there, and the trigger: the specified state or an error that changes nothing |
| `ForumStore.Store.UpdatePost` | internal/store/sqlite/post.go:251-271 | the edit with its trigger |
| `ForumStore.Store.DeletePost` | internal/store/sqlite/post.go:274-288 | the soft delete with its trigger |
| `ForumStore.Store.DeleteThread` | internal/store/sqlite/thread.go:271-277 | the cascades, row by row and trigger by trigger, in any order, reach the specified state |
| `ForumStore.Store.CascadePosts` | migrations/001_initial.up.sql:62-62 | deleting the posts in any order, each with its delete trigger and then the updates of its replies, inside the thread too, leaves the specified rows and index |
| `ForumStore.Store.DetachReplies` | migrations/001_initial.up.sql:64-64 | the replies to one deleted post, in any thread and any order, lose their parent, each with its update trigger |
| `ForumStore.Store.MarkThreadRead` | internal/store/sqlite/read_status.go:11-22 | the upsert of one read mark |
| `ForumStore.Store.ReplyToThread` | internal/handler/post.go:280-378 | the handler, check by check and call by call, is the specified reply |
| `ForumStore.Store.StartThread` | internal/handler/thread.go:237-350 | the handler is the specified new thread; it counts nothing |
| `ForumStore.Store.ThreadPage` | internal/handler/post.go:76-126 | a full page load by a signed-in user, and nothing else, marks the thread read |
| `LimiterSpec.PruneCounts` | internal/middleware/ratelimit.go:43-50 | pruning keeps each event after the cutoff as often as it was there, and no other |
| `LimiterSpec.PruneConcat` | internal/middleware/ratelimit.go:43-50 | in their order: pruning goes through the list piece by piece |
| `RateLimiter.Limiter.Allow` | internal/middleware/ratelimit.go:39-63 | the new list and the answer for the key, and that no other key's list changes |
| `RateLimiter.AdmitSlice` | internal/middleware/ratelimit.go:43-62 | pruning, the limit, the wait of at least a second and the append, on a slice in its own array |
| `RateLimiter.PruneInPlace` | internal/middleware/ratelimit.go:44-50 | compacting the slice in its own array leaves exactly the events after the cutoff, in order |
| `RateLimiter.Append` | internal/middleware/ratelimit.go:61-61 | appending in place or into a larger array |
| `OneKey.KeptLooksLikeLog` | internal/middleware/ratelimit.go:43-50 | at any cutoff no call has gone past, the pruned list and the complete log look alike |
| `OneKey.RefinesReference` | internal/middleware/ratelimit.go:39-63 | on an ordered clock the limiter that forgets allows exactly what the one that keeps its whole log allows |
| `OneKey.ReferenceBounded` | internal/middleware/ratelimit.go:39-63 | the limiter that keeps its log bounds every rolling window, whatever the clock does |
| `OneKey.SkewBounded` | internal/middleware/ratelimit.go:39-63 | when no call is more than `skew` before an earlier one, every window shorter by the skew holds at most limit allowed calls |
| `OneKey.BackwardsBreaksBound` | internal/middleware/ratelimit.go:43-62 | for every limit above 1 and every real window, one call late by `back`, at most the window, puts one event too many in every window longer than `back` |
| `OneKey.DenialMeaning` | internal/middleware/ratelimit.go:52-59 | a denial means the kept list is full from its first event on, and the wait is exactly the time until that leaves, or a second when less is left |
| `LimiterRuns.KeysIndependent` | internal/middleware/ratelimit.go:39-63 | after any run the list of a key depends on the calls of that key alone |
| `LimiterRuns.RollingWindowBound` | internal/middleware/ratelimit.go:39-63 | in every run in which no key's clock runs backwards, every window (t - window, t] of every key holds at most limit allowed calls |
| `LimiterRuns.DecidesAsFullLog` | internal/middleware/ratelimit.go:39-63 | in such a run each answer is the one counting the complete log would give |
| `LimiterRuns.SkewBoundIff` | internal/middleware/ratelimit.go:39-63 | with times late by at most `skew`, windows of a length are bounded in every run if and only if the length is not positive, or at most window less skew, or the limit is 1 and it is at most the window |
| `LimiterRuns.AnyOrderBoundIff` | internal/middleware/ratelimit.go:39-63 | for times in any order the bound on the limiter's own window holds of all runs if and only if the limit is 1 or the window is empty |
| `LimiterRuns.RetryIsExact` | internal/middleware/ratelimit.go:52-59 | a denied key stays denied, however often it asks, until its first kept event leaves; with no call in between it is allowed from that instant on; the wait it was told is exactly the time left, or a second when less is left |
| `AuthSessions.RunTracks` | internal/auth/standalone.go:237-308 | after any run the session table holds exactly the sessions the history leaves open |
| `AuthSessions.SessionExact` | internal/auth/standalone.go:348-388 | with failing deletions among the requests: a cookie is authenticated as u if and only if u is not banned now, its session was opened for u and is within its thirty days, and since then no logout of it, no ban, password change or reset of u, and no request with it during a ban of u deleted it |
| `AuthSessions.SessionSafety` | internal/auth/standalone.go:348-388 | so an authenticated user is not banned now and signed in at most thirty days ago |
| `AuthSessions.BanOutlivesUnban` | internal/handler/user.go:149-223 | a session opened before a ban that deletes it stays dead after an unban |
| `AuthSessions.OutlivesBanIff` | internal/handler/moderation.go:343-351 | a session open at a ban works again after an unban if and only if the ban failed to delete it and nothing since did |
| `AuthSessions.NeverReopened` | internal/auth/standalone.go:294-308 | a sign-in never succeeds under a session id that is still open |
| `AuthAccounts.AccountsExact` | internal/store/sqlite/user.go:44-64 | after any run the accounts are those that joined, numbered from 1, each with the name, e-mail and role it began with, the hash written last by registration, change or reset, banned if its last ban or unban was a ban, verified if ever a verification link of it was used |
| `AuthAccounts.LoginExact` | internal/auth/standalone.go:237-270 | in every run a login signs in as u if and only if the e-mail is that of u, the password matches the hash last written for u, u is not banned and the session id is free; otherwise it is rejected |
| `AuthAccounts.BanExact` | internal/handler/moderation.go:308-356 | in every run a ban or unban is done if and only if the cookie stands for an administrator or a moderator and the target has an account, which for a ban is no administrator's; otherwise it is rejected |
| `AuthAccounts.RolesExact` | internal/auth/standalone.go:216-227 | in every reachable state a seeded account has the role it was seeded with, and of the others the one with id 1 is an administrator and the rest are members |
| `AuthAccounts.FirstIsAdmin` | internal/auth/standalone.go:216-227 | without seeding, the first account is the only administrator and nobody is a moderator |
| `AuthAccounts.RegisterExact` | internal/auth/standalone.go:172-232 | a registration signs in as the next account if and only if the form is good, name and e-mail are new and the session id is free; a link is sent if and only if its hash is not stored |
| `AuthAccounts.SeedExact` | cmd/seed/main.go:164-176 | seeding makes the next account if and only if name and e-mail are new |
| `AuthAccounts.VisitExact` | internal/auth/standalone.go:348-388 | a visit is served as u if and only if the cookie stands for u |
| `AuthAccounts.PasswordExact` | internal/handler/settings.go:155-213 | a changed password is stored for u if and only if the cookie stands for u, the current password matches the hash last written, and the new one is given twice with at least 8 characters |
| `AuthTokens.OneTokenPerKind` | internal/auth/token.go:80-100 | after any run there is at most one stored token for a user and kind |
| `AuthTokens.TokenTracks` | internal/store/sqlite/auth_token.go:38-87 | after any run the token table holds exactly the tokens the history leaves valid |
| `AuthTokens.TokenExact` | internal/auth/token.go:172-196 | a raw token is accepted for u under a kind if and only if it was issued to u under it, has not expired, was not used and no newer one was issued |
| `AuthTokens.UseMeans` | internal/auth/token.go:105-153 | every use goes back to its own issue, same user and kind, within its lifetime, with no newer issue between, and no other use that deleted the token |
| `AuthTokens.UsedAtMostOnce` | internal/auth/token.go:105-153 | a raw token is used under one kind only, and again only after uses that failed to delete it and said so |
| `AuthTokens.ShowResetIsHarmless` | internal/auth/token.go:125-131 | showing the reset form anywhere in a run changes nothing that follows |
| `AuthAccounts.ForgotExact` | internal/handler/auth.go:223-243 | a reset link is sent to u if and only if the e-mail is that of u, u is not banned, and the hash of the link is free but for older links of u; only that last condition failing leaves u without a link |
| `AuthAccounts.ShowResetExact` | internal/auth/token.go:125-131 | the reset form is shown to u if and only if the link stands for u |
| `AuthAccounts.ResetExact` | internal/auth/token.go:136-153 | a reset stores a password for u if and only if the link stands for u, the password is given twice with at least 8 characters, and the store call succeeds; it is done if and only if the later calls succeed too |
| `AuthAccounts.VerifyExact` | internal/auth/token.go:105-120 | u is marked verified if and only if the link stands for u and u was verified before or the store call succeeds; it is done if and only if the link is deleted too |
| `AuthService.Service.Register` | internal/auth/standalone.go:172-232 | the account, its session and its verification link, or the rejection, with the state each leaves |
| `AuthService.Service.SeedUser` | cmd/seed/main.go:164-176 | the account with its role and marks, or the rejection |
| `AuthService.Service.Login` | internal/auth/standalone.go:237-270 | the session opened, or the rejection |
| `AuthService.Service.Logout` | internal/auth/standalone.go:286-291 | the session is gone, unless deleting it fails |
| `AuthService.Service.Authenticate` | internal/auth/standalone.go:348-388 | the user behind a cookie, and the session of a banned user deleted on the way |
| `AuthService.Service.BanUser` | internal/handler/moderation.go:308-356 | the mark, and the deleted sessions unless that call fails; or the refusal to ban an administrator |
| `AuthService.Service.UnbanUser` | internal/handler/user.go:195-223 | the mark is taken back, no session revived |
| `AuthService.Service.ChangePassword` | internal/handler/settings.go:155-213 | the new hash, and every session of the user deleted unless that call fails |
| `AuthService.Service.Issue` | internal/auth/token.go:80-100 | the older tokens of the kind go first, then the new one is stored unless its hash is taken |
| `AuthService.Service.ForgotPassword` | internal/handler/auth.go:223-243 | a link for a known user who is not banned; no change otherwise |
| `AuthService.Service.ConsumeReset` | internal/auth/token.go:136-153 | the new hash, the token used up, the sessions deleted, each as far as its call succeeds and the calls before it did not stop the request |
| `AuthService.Service.ConsumeVerification` | internal/auth/token.go:105-120 | the mark set and the token used up, or the change so far when a call fails |
| `AuthService.ServeRun` | internal/auth/standalone.go:172-388 | a new service that has served any run of requests has exactly the tables, and has given exactly the answers, that the whole-run results speak of |
| `SqlSplit.SplitSql` | internal/database/migrate.go:229-266 | the loop over lines computes what the line machine computes |
| `SqlSplit.SplitConserves` | internal/database/migrate.go:234-265 | for every input: the lines that are neither blank nor comments can be cut into well-formed statements and an unfinished rest in one way only; the output is these statements, in order, and the rest is dropped |
| `SqlSplit.ClosedIffWellFormed` | internal/database/migrate.go:245-262 | the groups of lines the splitter closes are exactly the well-formed statements: plain ones ended by their only last semicolon, triggers closed by their only END; line |
| `SqlSplit.NoiseIff` | internal/database/migrate.go:235-238 | a line is skipped if and only if it has only spaces, or two dashes behind its indent |
| `SqlSplit.EndsIff` | internal/database/migrate.go:257-257 | a line ends a statement if and only if its last character but spaces is a semicolon |
| `SqlSplit.OpensIff` | internal/database/migrate.go:246-248 | a line opens a trigger if and only if CREATE TRIGGER or CREATE OR REPLACE TRIGGER stands behind its indent, in either case |
| `SqlSplit.ClosesIff` | internal/database/migrate.go:250-250 | a line closes a trigger if and only if it is END; between spaces, in either case |
| `SqlSplit.NoiseIgnored` | internal/database/migrate.go:234-238 | blank and comment lines make no difference anywhere |
| `SqlSplit.ScanGroups` | internal/database/migrate.go:245-262 | statements that close themselves come back one by one when written one after the other |
| `SqlSplit.PlainIsClosed` | internal/database/migrate.go:257-261 | a plain statement closes at its last line |
| `SqlSplit.TriggerIsClosed` | internal/database/migrate.go:246-255 | a trigger closes only at its END; line, with any semicolons before |
| `SqlSplit.PrintSplit` | internal/database/migrate.go:229-266 | any list of well-formed statements, written with blank and comment lines in between, splits into exactly that list |
| `SqlSplit.SplitAgain` | internal/database/migrate.go:229-266 | for every input, joining the statements and splitting again gives the same list |
| `Text.SplitJoin` | internal/database/migrate.go:234-234 | splitting lines undoes joining them |
| `Paging.ListPage` | internal/store/sqlite/post.go:143-183 | the page asked for, the first when none is, by the size asked for, by 25 when none is: its rows while their place fits in 64 bits, and the least number of pages that hold the rows while the rounding-up sum fits |
| `Paging.TotalPagesRightIff` | internal/store/sqlite/post.go:238-241 | the page count is the least that holds the rows, at least one, if and only if the rounding-up sum fits, or one page is enough and the wrapped quotient is zero |
| `Paging.WrappedTotal` | internal/store/sqlite/post.go:238-241 | the largest page size and two rows give -1 pages |
| `Paging.PageRightIff` | internal/store/sqlite/post.go:144-152 | a page is the slice it should be if and only if the offset fits in 64 bits, or the wrapped one lies behind the last row |
| `Paging.FarPageShowsFirst` | internal/store/sqlite/post.go:144-152 | a far page that shows what page 1 shows, for every listing |
| `Paging.PagesFull` | internal/store/sqlite/search.go:18-88 | every page but the last is full, and the last is not empty unless the listing is |
| `Paging.LaterPages` | internal/store/sqlite/search.go:18-88 | a page behind the last is empty if and only if its offset has not wrapped to a row |
| `Paging.PagesPartition` | internal/store/sqlite/thread.go:129-206 | pages 1 to the last, one after the other, are the listing |
| `Paging.AskedPagesJoin` | internal/store/sqlite/post.go:143-183 | asking for pages 1 to the last one announced, by any size, and joining what is shown gives every row once, in order |
| `Paging.RowShownOnce` | internal/store/sqlite/thread.go:129-206 | row i is at one place of one page |
| `Paging.BuildPagination` | internal/handler/thread.go:77-93 | the bar lists every page, its links lead to pages that exist, and a negative count panics |
| `SearchWindow.BuildSearchPagination` | internal/handler/search.go:117-146 | the offered pages are the centred window if and only if two pages on is a 64-bit number, or there are no pages; otherwise none is offered |
| `SearchWindow.CentredIsUnique` | internal/handler/search.go:117-146 | the centred window: consecutive pages within 1..total, min(5, total) of them, the current one among them and in the middle unless an end is too close: this leaves no choice |
| `SearchWindow.LinksInWindow` | internal/handler/search.go:136-146 | the next and previous links of a page that exists lead into the window |
| `Ordering.ListedInOrder` | internal/store/sqlite/category.go:86-90 | the listing has every row once, a smaller display_order first, and of equal ones the smaller id |
| `Ordering.ListingIsUnique` | internal/store/sqlite/category.go:86-90 | there is no other such order |
| `Ordering.ReorderShownIff` | internal/store/sqlite/category.go:105-119 | the next listing shows the order written if and only if it names every row once, from any tied or gapped orders before |
| `Ordering.MoveIsExchange` | internal/handler/admin.go:440-494 | after a move the next listing is the old one with exactly those neighbours exchanged; at the ends it is the same |
| `Ordering.MoveBackRestoresIff` | internal/handler/admin.go:440-494 | a move and its opposite restore the listing if and only if the row was not at that end, or is alone |
| `Ordering.MoveUpTimes` | internal/handler/admin.go:440-466 | k moves up carry a row over the k rows before it, which keep their order |
| `OrderingAdmin.Admin.MoveCategoryUp` | internal/handler/admin.go:440-466 | the handler, swapping in the listed slice and writing row by row, makes the specified move |
| `OrderingAdmin.Admin.MoveCategoryDown` | internal/handler/admin.go:468-494 | so does moving down |
| `OrderingAdmin.Admin.MoveSubcategoryUp` | internal/handler/admin.go:608-639 | the move in one category; every other category's orders stay |
| `OrderingAdmin.Admin.MoveSubcategoryDown` | internal/handler/admin.go:641-672 | so does moving down |
| `OrderingAdmin.Admin.ReorderCategories` | internal/store/sqlite/category.go:105-119 | one UPDATE for each id, in a loop |
| `OrderingAdmin.Admin.ReorderSubcategories` | internal/store/sqlite/category.go:222-236 | one UPDATE for each id, in a loop |
| `OrderingAdmin.Admin.IndexOfRow` | internal/handler/admin.go:732-739 | the first place of the id, or -1 |
| `OrderingAdmin.ReorderedInside` | internal/store/sqlite/category.go:222-236 | seen from one category the updates are those of its own rows; other categories see none |
| `OrderingAdmin.MoveSeenInListings` | internal/handler/admin.go:608-672 | a move is an adjacent exchange in its category's listing, and every other category lists what it did |
| `Crop.CropAndScale` | internal/upload/upload.go:221-242 | every destination pixel is the source pixel at the sampled place, in the colour model of the destination |
| `Crop.SquareIsCentred` | internal/upload/upload.go:225-231 | the square touches two opposite sides, and on each axis the margins differ by at most one |
| `Crop.PixelsInBounds` | internal/upload/upload.go:233-239 | every pixel read lies in the square and in the picture |
| `Crop.SampleMonotone` | internal/upload/upload.go:236-237 | the sampling never steps back |
| `Crop.ShownOn` | internal/upload/upload.go:236-237 | each column of the square is shown on one gapless run of columns, with its exact ends |
| `Crop.EvenShare` | internal/upload/upload.go:236-237 | the columns share the destination evenly, up to one |
| `Crop.ShowsAllIff` | internal/upload/upload.go:236-237 | every column is shown if and only if the picture is not scaled down |
| `Crop.NeverRepeatsIff` | internal/upload/upload.go:236-237 | no column is repeated if and only if the picture is not scaled up |
| `Crop.SameSizeUnchanged` | internal/upload/upload.go:236-237 | a square of the wanted size is left as it is |
| `Snippet.BuildSnippet` | internal/store/sqlite/search.go:95-137 | the two loops over the words compute the specified excerpt, or panic where it does |
| `Snippet.FirstHitFound` | internal/store/sqlite/search.go:100-116 | the excerpt is placed by the first word of the query that occurs, at its leftmost occurrence; by none if and only if none occurs |
| `Snippet.PanicsIff` | internal/store/sqlite/search.go:117-121 | slicing panics if and only if the word is found more than fifty bytes behind the end of the body |
| `Snippet.LengtheningPanics` | internal/store/sqlite/search.go:97-121 | a family of inputs: k letters whose lowercase is a byte longer, and a word, panic if and only if k is above 51 |
| `Snippet.ExcerptBounds` | internal/store/sqlite/search.go:101-121 | otherwise: at most 200 bytes within the body, beginning at most 50 before the word, and holding it if and only if it ends within them; always if it has at most 150 |
| `Snippet.ExcerptHoldsWord` | internal/store/sqlite/search.go:101-121 | where lowercasing goes byte by byte, the excerpt of the body has the word in its place if and only if the word ends within the 200 bytes |
| `Snippet.UnescapeEscape` | internal/store/sqlite/search.go:121-121 | unescaping undoes escaping |
| `Snippet.EscapedIsInert` | internal/store/sqlite/search.go:121-121 | no tag bracket and no quote of the body is left |
| `Snippet.OneWordRoundTrip` | internal/store/sqlite/search.go:123-136 | for a one-word query, taking the tags out and unescaping gives back the bytes excerpted |
| `Snippet.UnchangedIff` | internal/store/sqlite/search.go:132-134 | marking changes nothing if and only if the word matches nowhere |
| `Snippet.ExcerptIsMarked` | internal/store/sqlite/search.go:123-136 | the excerpt is what marking each word of the query in turn leads to, and nothing else is: each match of the escaped word, the leftmost that do not overlap, goes between tags, no plain character begins a match, and words that are empty or do not compile are passed over |
| `Snippet.SomethingMarkedIff` | internal/store/sqlite/search.go:123-136 | the excerpt has a mark if and only if some word of the query that compiles matches in the escaped piece of the body; otherwise it is that piece |
| `Quote.BuildQuoteText` | internal/handler/post.go:496-509 | the loop over the lines builds the specified block |
| `Quote.QuoteRoundTripIff` | internal/handler/post.go:496-509 | dropping the header and the markers gives back the body, or its first 500 characters and three dots when it is longer, if and only if the name has no newline |
| `Quote.EveryLineMarked` | internal/handler/post.go:503-507 | every line of the block but the two empty ones at its end carries the marker |

## Left out

- HTTP, cookies, CSRF, templates, captchas, spam checks, markdown, image codecs, mail, configuration: plumbing around the modelled steps.
- view_count, pins, drafts, attachments, reactions, reports and private messages: they touch none of the modelled columns.
- Anything finer than one SQL statement: SQLite runs one at a time.
- FTS5's own totals of rows and tokens, its ranking, and the error it may give when a row is deleted from the index twice, as the replies inside a hard-deleted thread are.
- Accounts at a finer grain than one request: UpdateUser writes the whole row, and `issue` deletes and inserts without a transaction, so the session and token results do not hold there.
- UpdateThread: no handler calls it, and a title changed under the index would make the delete trigger read the wrong title.
- DeleteExpiredAuthTokens: nothing calls it; expired rows are rejected by lookup anyway.
- The row id of an auth token, the raw random bytes and the bcrypt cost: tokens are keyed by their unique hash.
- Trimming and lowercasing of form values (usernames, e-mails, titles): the values are taken as the handlers use them, and lengths are counted in characters where Go counts bytes.
- ORDER BY: a listing is any order of its rows that has each once; ties are broken in one way for all its pages, and rows do not change between pages.
- The other columns of the home page (last post, last poster, last title): only its sum of counters is modelled.
- Held posts: only ThreadPage filters them, after paging.
- The memory limit of Go's time type, and saturation in its subtraction: times are unbounded integers.
- Other failing calls of account requests: a failing read, or a failing write of a ban, an unban or a changed password, ends the request before any change; creating a user, a session or a token fails only for a name, e-mail, id or hash already taken.
- `ForumStore.Store.DeleteThread`: leaves out the error FTS5 may give when a reply inside the deleted thread is taken out of the index twice, by its detaching and by its own deletion.
- `ForumStore.Store.StartThread`: the length of a title is counted in characters, where the source counts bytes.
- The rest of the seeding program (categories, threads, posts, counts): only the accounts it makes.
- `ForumStore.Store.CreateUser`: only the columns of the forum model; names, e-mails and their uniqueness are part of the account model.
- `RateLimiter.Limiter.constructor`: asks for a limit of at least 1, because below it the source reads the first element of an empty list and panics.
- `SearchWindow.BuildSearchPagination`: asks for a page of at least 1, which the handler ensures, and a page count below the largest 64-bit number, which no count divided by 20 reaches.
- `Crop.CropAndScale`: computes on unbounded integers; the product of an avatar's side and a picture's fits in 64 bits.
- `Snippet.OneWordRoundTrip`: several words are not covered, because a later word can match inside the tags of an earlier one.
- The Retry-After header: handlers round the wait that `RetryIsExact` speaks of.
- The guards that keep categories with subcategories, and subcategories with threads, from being deleted; new categories list last only until a deletion leaves a gap.
