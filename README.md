# Reddit collection pipeline: post ingestion, batched comment ingestion, comment cleaning

This project models three scripts of a pipeline that fills a relational store with forum (subreddit) data:

- **Post ingestion** (`posts_table_populate`). For each forum the script:
  - resolves the forum's id;
  - loads the ids of the posts already stored for it, once;
  - merges four remote listings (top, hot, new, controversial) into one dictionary keyed by post id;
  - drops the stored ids and normalises the rest into rows;
  - writes the rows' authors, then the rows, with "insert, ignore on key conflict";
  - adds the reported row count to a running total.

  A failure in one forum is logged and the next forum is processed.
- **Comment ingestion** (`populate_comments_table`). For each forum:
  - the work set is the forum's posts that have no comment row yet;
  - each post's comments are fetched and buffered with their authors;
  - after every post a flush check fires on every `batch_size`-th post and on the last post;
  - a flush with rows writes the authors, then the comment frame, then empties both buffers;
  - the total grows by the number of rows in the frame.
- **Comment cleaning** (`cleaned_comments_populate`):
  - selects up to 100 comments that have no cleaned row;
  - cleans each text: removes `http…` runs, keeps ASCII letters and whitespace, lowercases, splits into words, removes stop words and counts the words;
  - writes one cleaned row per selected comment with "ignore on conflict".

Modules:

- `Store` (`store.dfy`) holds the tables as a value `Db`, one map per table from primary key to row.
  - Every query or write through the store client takes a `storeError` flag. When the flag is set, the answer is the client's error convention: no row, no rows, or a count of 0.
  - `AppendComments` is the exception. The comment frame is written with `to_sql` on the engine, not through the client, so its flag means that the write raises (`None`), and the raise abandons the forum.
  - `InsertIgnore` is the shared "ON CONFLICT DO NOTHING" fold.
- `PostIngest` (`post_ingest.dfy`) holds:
  - the insertion-ordered dictionary of the merged fetch;
  - the listing loops and the per-forum and whole-run methods;
  - the functions those methods are proved against.
- `CommentIngest` (`comment_ingest.dfy`) holds:
  - the work set and its listing;
  - the per-post collection;
  - the batch state and the flush;
  - the loop as methods, proved equal to the fold `Run`;
  - the flush schedule arithmetic.
- `CommentCleaner` (`comment_cleaner.dfy`) holds:
  - `CleanText` and its parts, as functions with their properties;
  - the selection rule and the cleaning loop, as methods.

The store and the remote API are values, so the model has no objects. Each loop of the scripts is a `method` with a loop, proved equal to a specification function. The properties are proved about those functions.

The remote API and the store's failures are inputs:

- A listing, or one post's comment fetch, is the sequence of items it yields before it finishes or raises.
- Store faults are booleans, one per store call of a forum.
- The comment writes are indexed by flush number: `authorWriteFails` and `commentWriteFails` are the sets of flush numbers whose write fails.

## Model

| member | source | states |
|---|---|---|
| Store.SubredditId | src/data_collection_scripts/posts_table_populate.py:104-117 | the id is found exactly when the forum is registered and the lookup has no store error; a found id is the named forum's own subreddit_id (otherwise the script raises "not found") |
| Store.PostIdsOf | src/data_collection_scripts/posts_table_populate.py:120-129 | without a store error, exactly the ids of the stored posts of that forum; with one, no id |
| Store.ProcessedPostIds | populate_comments_table.py:58-69 | the forum's stored posts that have a comment row: every one of them without a store error, and never another id |
| Store.InsertIgnoreKeys | src/data_collection_scripts/posts_table_populate.py:88-100 | after "insert … on conflict do nothing" the table's keys are its old keys plus the keys of the batch |
| Store.InsertIgnoreKeeps | src/data_collection_scripts/posts_table_populate.py:97 | a stored row is never replaced by a conflicting row of the batch |
| Store.InsertIgnoreCount | src/data_collection_scripts/posts_table_populate.py:100 | the reported row count is exactly the number of keys the table gained |
| Store.InsertIgnoreFromBatch | src/data_collection_scripts/posts_table_populate.py:88-100 | every row the insert adds is a row of the batch, stored under its own key |
| Store.InsertIgnoreAdds | src/data_collection_scripts/posts_table_populate.py:88-100 | the same for all new keys at once: each new key holds a row of the batch whose key it is |
| Store.InsertIgnoreAllPresent | src/data_collection_scripts/posts_table_populate.py:97 | re-inserting keys that are all stored changes nothing and reports 0 rows |
| Store.InsertIgnoreAllNew | src/comment_cleaner.py:74-82 | a batch of distinct, new keys is stored row by row under its keys and reports its length |
| Store.UpsertAuthors | src/data_collection_scripts/posts_table_populate.py:66-81 | an empty batch or a store error writes nothing; otherwise every fullname of the batch is stored, a stored fullname keeps its first name, a new one gets the batch's name, and no other table changes |
| Store.UpsertAuthorsAllPresent | populate_comments_table.py:16-31 | writing authors that are all stored already leaves the store unchanged |
| Store.BulkUpsertPosts | src/data_collection_scripts/posts_table_populate.py:84-101 | an empty batch or a store error returns 0 with no change; only the posts table changes; stored posts keep their rows; every new post is a row of the batch under its own id; the count is the number of new posts and is at most the batch length |
| Store.BulkUpsertPostsStoresAll | src/data_collection_scripts/posts_table_populate.py:84-101 | with every row's forum and author stored and no store error, every id of the batch is stored afterwards |
| Store.AppendComments | populate_comments_table.py:154-157 | the frame append succeeds exactly when there is no store error, the rows' ids are distinct and new, and their posts and authors are stored; it then stores every row under its id, the table grows by the frame's length, and the old rows stay |
| Store.BulkInsertCleaned | src/comment_cleaner.py:69-87 | an empty batch or a store error returns 0 with no change; otherwise only the cleaned table changes, stored rows stay, every new row is a row of the batch under its own id, the count is the number of new rows, and a positive count means every id of the batch is stored |
| PostIngest.PutValid | src/data_collection_scripts/posts_table_populate.py:31 | assigning `posts[post.id] = post` keeps the dictionary well formed: distinct ids in insertion order, each value under its own id |
| PostIngest.PutAllValid | src/data_collection_scripts/posts_table_populate.py:27-55 | any number of assignments keep the dictionary well formed |
| PostIngest.PutAllAppend | src/data_collection_scripts/posts_table_populate.py:29-59 | draining one listing and then another is the same as assigning their concatenated yields |
| PostIngest.PutAllContents | src/data_collection_scripts/posts_table_populate.py:27-59 | after the assignments the dictionary's ids are the old ids plus the assigned ids; an assigned id holds the last post assigned with that id; every other id keeps its value |
| PostIngest.PutAllOrderBound | src/data_collection_scripts/posts_table_populate.py:61-63 | the dictionary never holds more ids than were assigned into it |
| PostIngest.DrainListing | src/data_collection_scripts/posts_table_populate.py:29-35 | every post a listing yields before it finishes or raises is assigned in order; a raise only ends that listing |
| PostIngest.FetchDiversePosts | src/data_collection_scripts/posts_table_populate.py:24-63 | the merged list is the values of all four listings' yields assigned in order (top, hot, new, controversial), whichever listings raised |
| PostIngest.MergedPostsDedup | src/data_collection_scripts/posts_table_populate.py:24-63 | the merged list has one record per post id; its ids are exactly the ids any listing yielded; each record is the last one yielded for its id; it is no longer than all yields together |
| PostIngest.ValuesOf | src/data_collection_scripts/posts_table_populate.py:63 | `list(posts.values())` has one entry per stored id, in insertion order, each the value stored under that id |
| PostIngest.NewPostRowsFrom | src/data_collection_scripts/posts_table_populate.py:152-179 | every row comes from a fetched post not stored at forum start; it carries the resolved subreddit_id and the post's author fullname (None without an author); the post's other fields pass through unchanged |
| PostIngest.NewPostRowsCover | src/data_collection_scripts/posts_table_populate.py:152-179 | every fetched post not stored at forum start yields its row |
| PostIngest.NoRowForStoredPost | src/data_collection_scripts/posts_table_populate.py:140-154 | no row is built for an id in the set loaded at forum start |
| PostIngest.BatchAuthorsSpec | src/data_collection_scripts/posts_table_populate.py:152-160 | the author accumulator's fullnames are exactly those of new posts with an author |
| PostIngest.BatchAuthorsLastWins | src/data_collection_scripts/posts_table_populate.py:156-157 | each accumulated fullname maps to the name of the last new post carrying that fullname: later assignments overwrite earlier ones |
| PostIngest.RowAuthorsInBatch | src/data_collection_scripts/posts_table_populate.py:156-166 | every author fullname a row names is in the accumulator that is written before the rows |
| PostIngest.IngestForum | src/data_collection_scripts/posts_table_populate.py:138-188 | the forum's iteration equals the per-forum function: missing forum fails with no change, no new row skips with no write, else authors then posts, and the added count is the post write's count |
| PostIngest.PostsTablePopulate | src/data_collection_scripts/posts_table_populate.py:132-200 | the run processes every forum in turn whatever happened to the earlier ones, and the total is the sum of the forums' counts |
| PostIngest.IngestForumStoresOnlyNewPosts | src/data_collection_scripts/posts_table_populate.py:140-188 | every post row a forum adds is the normalised row of a fetched post that was not stored for the forum at its start, with the forum's id |
| PostIngest.IngestForumAccounting | src/data_collection_scripts/posts_table_populate.py:181-188 | a forum adds exactly the number of new post rows; stored posts are unchanged; forums, comments and cleaned rows are untouched; authors only gain rows and keep their names |
| PostIngest.RunPostsAccounting | src/data_collection_scripts/posts_table_populate.py:132-200 | the run's total is exactly the number of post rows it added (so it never decreases); stored posts and author names are kept; the other tables are untouched |
| PostIngest.UnregisteredForumDropsOut | src/data_collection_scripts/posts_table_populate.py:196-200 | a forum that is not registered affects neither the store nor the total: the run equals the run without it |
| PostIngest.NewRowKeysCover | src/data_collection_scripts/posts_table_populate.py:152-179 | every fetched id is either stored at forum start or the id of an emitted row |
| PostIngest.RowRefsStoredAfterAuthors | src/data_collection_scripts/posts_table_populate.py:185-187 | once the author write succeeds, every row's forum and author are stored, so the post write's foreign keys hold |
| PostIngest.WriteNewPostsStoresAll | src/data_collection_scripts/posts_table_populate.py:181-188 | without store errors, every fetched id is stored after the forum's writes |
| PostIngest.RowKeysAreNewIds | src/data_collection_scripts/posts_table_populate.py:152-164 | the ids of the emitted rows are fetched ids that were not stored at forum start |
| PostIngest.BatchAuthorsShrink | src/data_collection_scripts/posts_table_populate.py:152-160 | a larger set of stored ids never adds authors to the accumulator, and a non-empty accumulator implies a non-empty row list |
| PostIngest.WriteNewPostsAccounting | src/data_collection_scripts/posts_table_populate.py:181-188 | the writes add exactly the reported number of posts, keep stored posts and author names, and change only the authors and posts tables |
| PostIngest.WriteStoredPostsIsNoop | src/data_collection_scripts/posts_table_populate.py:181-188 | when every fetched id and every accumulated author is stored already, the writes change nothing and add 0 |
| PostIngest.WriteNewPostsIdempotent | src/data_collection_scripts/posts_table_populate.py:138-188 | repeating a forum's writes with the same fetch on the resulting store changes nothing and adds 0 |
| PostIngest.IngestForumIdempotent | src/data_collection_scripts/posts_table_populate.py:138-188 | running a forum twice with the same listings and no store errors: the second run changes nothing and adds 0 |
| CommentIngest.WorkSetExact | populate_comments_table.py:49-91 | without store errors, a post is in the work set exactly when it is stored for the forum and has no comment row |
| CommentIngest.ListOfSet | populate_comments_table.py:91 | `list(set)` lists every element of the work set exactly once, in some order |
| CommentIngest.AppendPostComments | populate_comments_table.py:118-144 | one post's loop appends that post's rows to the buffer and its authors to the accumulator |
| CommentIngest.PostRowsFrom | populate_comments_table.py:118-144 | every buffered row comes from a fetched item that has a body, and its post_id is the post being processed |
| CommentIngest.PostRowsCover | populate_comments_table.py:118-144 | every fetched item that has a body yields its row with the post's id |
| CommentIngest.AddAuthorsCoversRows | populate_comments_table.py:122-127 | the accumulator only grows, and every author fullname a row names is in it |
| CommentIngest.AddAuthorsKeys | populate_comments_table.py:118-127 | the accumulator's fullnames are its old ones plus those of the fetched comments with an author; a fullname no such comment carries keeps its name |
| CommentIngest.AddAuthorsLastWins | populate_comments_table.py:125-127 | each fullname a fetched comment carries maps to the author name of the last comment carrying it |
| CommentIngest.Flush | populate_comments_table.py:148-166 | an empty buffer skips the flush with nothing written or reset; a flush that does not raise empties both buffers, counts the frame's rows, keeps the stored comments, and stores each buffered row under its own id, so the table grows by exactly those rows; a flush that raises keeps both buffers and the comment table as they were |
| CommentIngest.FlushStoresOnlyBuffered | populate_comments_table.py:152-157 | every comment row a flush stores is a row of its buffer |
| CommentIngest.FlushAfterAuthorsSucceeds | populate_comments_table.py:152-157 | with no store error, a buffer whose authors are all accumulated, whose posts are stored and whose ids are distinct and new is written without raising: the author write comes first |
| CommentIngest.ProcessPost | populate_comments_table.py:113-166 | one iteration equals the step function: the post's rows are collected, even after a failed fetch, and then the flush check runs |
| CommentIngest.FlushBatch | populate_comments_table.py:149-166 | the flush block equals the flush function |
| CommentIngest.PopulateBatches | populate_comments_table.py:106-166 | the batch loop over the listed work set equals the fold of the step function from empty buffers |
| CommentIngest.PopulateForumComments | populate_comments_table.py:77-168 | the per-forum block equals the per-forum function, whose work list lists the work set once |
| CommentIngest.RunAccounting | populate_comments_table.py:159-160 | the running count grows by exactly the comment rows the store gains; stored comments and author names stay; posts, forums and cleaned rows are untouched |
| CommentIngest.RunStoresOnlyFetchedPosts | populate_comments_table.py:113-166 | every comment row the loop stores belongs to a listed post whose fetch yielded a comment |
| CommentIngest.RunCompletedStoresAll | populate_comments_table.py:113-166 | a loop that completes has stored the ids of every buffered row and of every row the remaining posts yielded |
| CommentIngest.RunWithoutFaultsCompletes | populate_comments_table.py:113-166 | with a nonzero batch size, no write error and rows whose ids are distinct and new, the loop completes |
| CommentIngest.FlushPointsBeforeLast | populate_comments_table.py:148 | before the last post, the flush check has fired once per full batch of posts: `m / batch_size` times among the first m posts |
| CommentIngest.FlushPointCount | populate_comments_table.py:148 | over n posts the flush check fires `ceil(n / batch_size)` times, counting the last post |
| CommentIngest.ForumAccounting | populate_comments_table.py:80-166 | one forum adds exactly the number of comment rows it stored, keeps stored comments and author names, and leaves posts, forums and cleaned rows unchanged |
| CommentIngest.ForumStoresOnlyPendingPosts | populate_comments_table.py:82-166 | a forum stores comment rows only for posts of its work set whose fetch yielded a comment |
| CommentIngest.ForumWithoutFaultsCompletes | populate_comments_table.py:80-166 | with no store errors, a nonzero batch size and fresh distinct comment ids, a forum never fails |
| CommentIngest.CommentlessPostStaysPending | populate_comments_table.py:58-69 | a post whose fetch yields no comment stays in the forum's work set for the next run |
| CommentIngest.PopulateCommentsTable | populate_comments_table.py:72-179 | the run equals the fold of the per-forum function over the forums in order, each forum processed whatever happened to the earlier ones, and each forum's work list lists its work set once |
| CommentIngest.RunCommentsAccounting | populate_comments_table.py:72-179 | the run's total is exactly the number of comment rows added across forums; stored comments and author names stay; posts, forums and cleaned rows are unchanged |
| CommentIngest.UnregisteredForumSkipped | populate_comments_table.py:80-174 | a forum that is not registered affects neither the store nor the total: the run equals the run without it |
| CommentCleaner.SkipNonSpace | src/comment_cleaner.py:53 | `\S+` consumes the longest run of non-whitespace characters |
| CommentCleaner.StripUrlsRemovesAll | src/comment_cleaner.py:53 | after the URL substitution no "http" followed by a non-whitespace character remains |
| CommentCleaner.StripUrlsKeepsClean | src/comment_cleaner.py:53 | text without such a run passes the URL substitution unchanged |
| CommentCleaner.StripUrlsIdempotent | src/comment_cleaner.py:53 | applying the URL substitution twice is the same as applying it once |
| CommentCleaner.KeepLettersAndSpace | src/comment_cleaner.py:55 | a character survives exactly when it occurs in the text and is an ASCII letter or whitespace |
| CommentCleaner.LowerLettersAndSpace | src/comment_cleaner.py:55-56 | after filtering and lowercasing only lowercase ASCII letters and whitespace remain |
| CommentCleaner.TakeWord | src/comment_cleaner.py:57 | a word is the longest whitespace-free prefix |
| CommentCleaner.Split | src/comment_cleaner.py:57 | `split()` yields non-empty, whitespace-free words made of the text's characters |
| CommentCleaner.SplitKeepsText | src/comment_cleaner.py:57 | the words, concatenated, are the text with its whitespace removed: no non-whitespace character is lost or reordered |
| CommentCleaner.SplitJoin | src/comment_cleaner.py:57-64 | splitting the single-space join of words gives back those words |
| CommentCleaner.JoinAlphabet | src/comment_cleaner.py:64 | joining lowercase-letter words with single spaces yields only lowercase letters and spaces |
| CommentCleaner.JoinSingleSpaced | src/comment_cleaner.py:64 | the join of words has no leading, trailing or doubled space, and is empty only for no words |
| CommentCleaner.RemoveStopWords | src/comment_cleaner.py:59 | a word is kept exactly when it is a token and not a stop word |
| CommentCleaner.RemoveStopWordsAppend | src/comment_cleaner.py:59 | the filter works token by token: filtering a concatenation concatenates the filtered parts, so kept tokens keep their order |
| CommentCleaner.CleanText | src/comment_cleaner.py:51-66 | the cleaned body holds only lowercase ASCII letters separated by single spaces; its words are the cleaning pipeline's kept tokens in order, none a stop word; word_count is their number, 0 exactly when the body is empty |
| CommentCleaner.GetComments | src/comment_cleaner.py:27-48 | the answer is a selection (`IsSelection`): a store error selects nothing; otherwise it selects min(100, pending) distinct comments that have no cleaned row, all of them when at most 100 are pending, each with its stored body |
| CommentCleaner.ChooseIds | src/comment_cleaner.py:37-43 | `LIMIT 100` with no ORDER BY: up to the limit distinct ids of the set, all of them when the set fits |
| CommentCleaner.CleanRows | src/comment_cleaner.py:98-109 | one result row per fetched comment, in order, each the comment's id with its cleaned body and word count |
| CommentCleaner.CleanedCommentsPopulate | src/comment_cleaner.py:90-111 | the comments cleaned are get_comments' selection (`IsSelection` with the fetch error): min(100, pending) distinct uncleaned comments, each with its stored body; an empty selection or a write error writes nothing and counts 0; only cleaned rows change and stored ones stay; without a write error every selected comment gets exactly the cleaned row of its stored body and the count is the number selected |
| CommentCleaner.CleanedRowsAllStored | src/comment_cleaner.py:100-111 | the rows of a selection are all inserted, each under its comment's id, and the count is their number |
| CommentCleaner.CleanedRowsFresh | src/comment_cleaner.py:37-43 | rows built from a selection have distinct ids, none already cleaned, each naming a stored comment |

## Left out

- The remote API and its client: session setup, `replace_more`, and how a listing or a comment tree is fetched. A listing is given as the posts it yields and whether it then raised. A comment fetch is given as its flattened items, each a comment or a `MoreComments` placeholder without a body. The `limit` and `time_interval` arguments only shape the listings, so they are not parameters.
- Logging, progress bars, the module-level script blocks and their outer try/finally.
- The configuration constant list: the forum names are a parameter.
- The store client: the SQL text, the engine and connections are not part of this model. Its convention is kept: an error becomes no row, no rows or 0, written as an explicit `storeError` flag per call. The cleaner imports its client from a `clients` module; that module is not part of this model, and the same convention is assumed for it.
- Timestamp conversion: `ToUtc` wraps the epoch value. The calendar arithmetic of the datetime and frame libraries is not modelled.
- Store.AppendComments: the frame append is modelled as one all-or-nothing transaction. A partial write before a constraint error is not modelled.
- CommentIngest.ForumWithoutFaultsCompletes: it assumes the fetched comment ids are distinct and not yet stored. The append has no conflict clause, so a duplicate id makes the write raise; a later post of the same forum then stays pending until the next run.
- CommentIngest.AppendPostComments: the script records a comment's author (populate_comments_table.py:125) before it builds the row dict (lines 129-143). A raise while building that dict keeps the author in the accumulator with no row. The model treats each fetched item as one step, so that case is not modelled.
- The `raised` flag of a comment fetch only records that the script logs the error. Items yielded before the raise stay in the buffer, as in the script, and the flush check still runs.
- A zero `batch_size` makes the modulo raise after the first post's comments are collected, which abandons the forum. A negative one divides like Python: the zero test of `%` is the same. CommentIngest.FlushPointCount and CommentIngest.FlushPointsBeforeLast are stated for a positive batch size only.
- Text cleaning: `\s` and `str.isspace` use the Unicode whitespace set that `IsSpace` lists. Characters are code points; there is no normalisation.
- `lower()` only matters for ASCII letters here, because every other letter was removed before it. An upper-case "HTTP" run is not a URL for the substitution, so its letters survive as "http…".
- The NLTK stop-word download: the stop words are a parameter.
- CommentCleaner.CleanedCommentsPopulate: the script returns nothing. The model returns the selection and the insert count so that the contract can name them.
- The sentiment scorer, the export script, the legacy script variants and the connection test are not part of this model. They repeat the same select-and-insert pattern with I/O or floating-point scores.
