/** The relational store the ingestion scripts write to, as a value.

    Each table is a map from its primary key to its row. The thin SQL client
    turns every store error into an empty answer (no row, no rows, zero
    affected rows); each query and write here therefore takes a `storeError`
    flag that stands for "this call hit an error", and answers the way the
    client does when it is set. */
module Store {

  datatype Option<T> = None | Some(value: T)

  /** An absolute UTC timestamp made from an epoch value; the calendar
      conversion itself is not modelled. */
  datatype Timestamp = Utc(epochSeconds: real)

  function ToUtc(epoch: real): Timestamp
  {
    Utc(epoch)
  }

  /** An author reference of a remote record: stable fullname and display name. */
  datatype Author = Author(fullname: string, name: string)

  /** The author_fullname a row gets: the author's fullname, or None when
      the record has no author. */
  function AuthorFullname(a: Option<Author>): Option<string>
  {
    if a.Some? then Some(a.value.fullname) else None
  }

  datatype PostRow = PostRow(
    postId: string,
    subredditId: int,
    authorFullname: Option<string>,
    title: string,
    flair: Option<string>,
    selftext: string,
    url: string,
    createdUtc: Timestamp,
    score: int,
    numComments: int,
    upvoteRatio: real,
    stickied: bool)

  datatype CommentRow = CommentRow(
    commentId: string,
    postId: string,
    authorFullname: Option<string>,
    parentId: string,
    body: string,
    createdUtc: Timestamp,
    score: int,
    depth: int,
    isSubmitter: bool,
    stickied: bool)

  datatype CleanedRow = CleanedRow(commentId: string, cleanedBody: string, wordCount: int)

  /** The tables: subreddit name to subreddit_id, author_fullname to
      author_name, and posts, comments and cleaned comments by their ids. */
  datatype Db = Db(
    subreddits: map<string, int>,
    authors: map<string, string>,
    posts: map<string, PostRow>,
    comments: map<string, CommentRow>,
    cleaned: map<string, CleanedRow>)

  /** Why a forum's run stopped early. */
  datatype Outcome = Completed | Skipped | Failed

  // ---------------------------------------------------------------------
  // Queries
  // ---------------------------------------------------------------------

  /** get_subreddit_id: the id of a registered forum, or None where the
      script raises its "not found" error. A store error reads as "no row",
      so it ends the same way. */
  function SubredditId(db: Db, name: string, storeError: bool): (r: Option<int>)
    ensures r.Some? <==> !storeError && name in db.subreddits
    ensures r.Some? ==> r.value == db.subreddits[name]
  {
    if !storeError && name in db.subreddits then Some(db.subreddits[name]) else None
  }

  /** get_existing_post_ids / get_post_ids_for_subreddit: the ids of the
      posts stored for one forum, or an empty answer on a store error. */
  function PostIdsOf(db: Db, subredditId: int, storeError: bool): (r: set<string>)
    ensures r <= db.posts.Keys
    ensures forall id :: id in r ==> db.posts[id].subredditId == subredditId
    ensures !storeError ==> forall id :: id in db.posts && db.posts[id].subredditId == subredditId ==> id in r
    ensures storeError ==> r == {}
  {
    if storeError then {}
    else set id | id in db.posts && db.posts[id].subredditId == subredditId
  }

  /** True when at least one comment row points at the post. */
  predicate HasComment(db: Db, postId: string)
  {
    exists c :: c in db.comments && db.comments[c].postId == postId
  }

  /** get_processed_post_ids: the forum's posts that already have at least
      one comment row (the join of posts with comments, each post once), or
      nothing on a store error. */
  function ProcessedPostIds(db: Db, subredditId: int, storeError: bool): (r: set<string>)
    ensures r <= PostIdsOf(db, subredditId, storeError)
    ensures forall id :: id in r ==> HasComment(db, id)
    ensures !storeError ==> forall id :: id in PostIdsOf(db, subredditId, false) && HasComment(db, id) ==> id in r
  {
    if storeError then {}
    else set id | id in db.posts && db.posts[id].subredditId == subredditId && HasComment(db, id)
  }

  // ---------------------------------------------------------------------
  // Writes
  // ---------------------------------------------------------------------

  /** The keys a batch of rows carries. */
  function KeysOf<R>(rows: seq<R>, key: R -> string): set<string>
  {
    set i | 0 <= i < |rows| :: key(rows[i])
  }

  /** The primary keys of the posts, comments and cleaned_comments tables. */
  function PostKey(r: PostRow): string { r.postId }
  function CommentKey(r: CommentRow): string { r.commentId }
  function CleanedKey(r: CleanedRow): string { r.commentId }

  /** No two rows of the batch share a key. */
  predicate DistinctKeys<R>(rows: seq<R>, key: R -> string)
  {
    forall i, j :: 0 <= i < j < |rows| ==> key(rows[i]) != key(rows[j])
  }

  /** The keys of a concatenation are the keys of its parts. */
  lemma KeysOfAppend<R>(a: seq<R>, b: seq<R>, key: R -> string)
    ensures KeysOf(a + b, key) == KeysOf(a, key) + KeysOf(b, key)
  {
    var ab := a + b;
    forall k | k in KeysOf(ab, key) ensures k in KeysOf(a, key) + KeysOf(b, key) {
      var i :| 0 <= i < |ab| && key(ab[i]) == k;
      if i >= |a| { assert ab[i] == b[i - |a|]; }
    }
    forall k | k in KeysOf(b, key) ensures k in KeysOf(ab, key) {
      var i :| 0 <= i < |b| && key(b[i]) == k;
      assert ab[i + |a|] == b[i];
    }
    forall k | k in KeysOf(a, key) ensures k in KeysOf(ab, key) {
      var i :| 0 <= i < |a| && key(a[i]) == k;
      assert ab[i] == a[i];
    }
  }

  /** The keys of a non-empty batch: its last row's key and the others'. */
  lemma KeysOfSnoc<R>(rows: seq<R>, key: R -> string)
    requires rows != []
    ensures KeysOf(rows, key) == KeysOf(rows[..|rows| - 1], key) + {key(rows[|rows| - 1])}
  {
    var init := rows[..|rows| - 1];
    forall k | k in KeysOf(rows, key) ensures k in KeysOf(init, key) + {key(rows[|rows| - 1])} {
      var i :| 0 <= i < |rows| && key(rows[i]) == k;
      if i < |rows| - 1 { assert init[i] == rows[i]; }
    }
    forall k | k in KeysOf(init, key) ensures k in KeysOf(rows, key) {
      var i :| 0 <= i < |init| && key(init[i]) == k;
      assert rows[i] == init[i];
    }
  }

  /** The keys of a non-empty batch: its first row's key and the rest's. */
  lemma KeysOfCons<R>(rows: seq<R>, key: R -> string)
    requires rows != []
    ensures KeysOf(rows, key) == {key(rows[0])} + KeysOf(rows[1..], key)
  {
    forall k | k in KeysOf(rows, key) ensures k in {key(rows[0])} + KeysOf(rows[1..], key) {
      var i :| 0 <= i < |rows| && key(rows[i]) == k;
      if i > 0 { assert rows[1..][i - 1] == rows[i]; }
    }
    forall k | k in KeysOf(rows[1..], key) ensures k in KeysOf(rows, key) {
      var i :| 0 <= i < |rows[1..]| && key(rows[1..][i]) == k;
      assert rows[1..][i] == rows[i + 1];
    }
  }

  /** A batch insert with "do nothing on key conflict": rows go in one by one,
      a row whose key is already present (in the table or earlier in the
      batch) is dropped. The count is the number of rows actually inserted. */
  function InsertIgnore<R>(table: map<string, R>, rows: seq<R>, key: R -> string): (map<string, R>, nat)
    decreases |rows|
  {
    if rows == [] then (table, 0)
    else
      var k := key(rows[0]);
      if k in table then InsertIgnore(table, rows[1..], key)
      else
        var res := InsertIgnore(table[k := rows[0]], rows[1..], key);
        (res.0, res.1 + 1)
  }

  /** After the insert the table holds its old keys and the batch's keys. */
  lemma {:induction false} InsertIgnoreKeys<R>(table: map<string, R>, rows: seq<R>, key: R -> string)
    ensures InsertIgnore(table, rows, key).0.Keys == table.Keys + KeysOf(rows, key)
    decreases |rows|
  {
    if rows != [] {
      var k := key(rows[0]);
      KeysOfCons(rows, key);
      if k in table {
        InsertIgnoreKeys(table, rows[1..], key);
      } else {
        InsertIgnoreKeys(table[k := rows[0]], rows[1..], key);
      }
    }
  }

  /** Rows already stored keep their values: a conflict changes nothing. */
  lemma {:induction false} InsertIgnoreKeeps<R>(table: map<string, R>, rows: seq<R>, key: R -> string)
    ensures forall k :: k in table ==> k in InsertIgnore(table, rows, key).0 && InsertIgnore(table, rows, key).0[k] == table[k]
    decreases |rows|
  {
    if rows != [] {
      var k := key(rows[0]);
      if k in table {
        InsertIgnoreKeeps(table, rows[1..], key);
      } else {
        InsertIgnoreKeeps(table[k := rows[0]], rows[1..], key);
      }
    }
  }

  /** The count is the number of keys the table gained. */
  lemma {:induction false} InsertIgnoreCount<R>(table: map<string, R>, rows: seq<R>, key: R -> string)
    ensures InsertIgnore(table, rows, key).1 == |InsertIgnore(table, rows, key).0| - |table|
    decreases |rows|
  {
    if rows != [] {
      var k := key(rows[0]);
      if k in table {
        InsertIgnoreCount(table, rows[1..], key);
      } else {
        var table' := table[k := rows[0]];
        InsertIgnoreCount(table', rows[1..], key);
        assert |table'| == |table| + 1;
      }
    }
  }

  /** The three together. */
  lemma InsertIgnoreSpec<R>(table: map<string, R>, rows: seq<R>, key: R -> string)
    ensures InsertIgnore(table, rows, key).0.Keys == table.Keys + KeysOf(rows, key)
    ensures forall k :: k in table ==> InsertIgnore(table, rows, key).0[k] == table[k]
    ensures InsertIgnore(table, rows, key).1 == |InsertIgnore(table, rows, key).0| - |table|
  {
    InsertIgnoreKeys(table, rows, key);
    InsertIgnoreKeeps(table, rows, key);
    InsertIgnoreCount(table, rows, key);
  }

  /** Every row the insert adds is a row of the batch, stored under its own key. */
  lemma {:induction false} InsertIgnoreFromBatch<R>(table: map<string, R>, rows: seq<R>, key: R -> string, k: string)
    requires k in InsertIgnore(table, rows, key).0 && k !in table
    ensures exists i :: 0 <= i < |rows| && key(rows[i]) == k && InsertIgnore(table, rows, key).0[k] == rows[i]
    decreases |rows|
  {
    var res := InsertIgnore(table, rows, key);
    var k0 := key(rows[0]);
    if k0 in table {
      InsertIgnoreFromBatch(table, rows[1..], key, k);
      var j :| 0 <= j < |rows[1..]| && key(rows[1..][j]) == k && res.0[k] == rows[1..][j];
      assert rows[j + 1] == rows[1..][j];
    } else if k == k0 {
      InsertIgnoreSpec(table[k0 := rows[0]], rows[1..], key);
      assert key(rows[0]) == k && res.0[k] == rows[0];
    } else {
      InsertIgnoreFromBatch(table[k0 := rows[0]], rows[1..], key, k);
      var j :| 0 <= j < |rows[1..]| && key(rows[1..][j]) == k && res.0[k] == rows[1..][j];
      assert rows[j + 1] == rows[1..][j];
    }
  }

  /** Every row the insert adds is a row of the batch, under its own key. */
  lemma InsertIgnoreAdds<R>(table: map<string, R>, rows: seq<R>, key: R -> string)
    ensures forall k :: k in InsertIgnore(table, rows, key).0 && k !in table ==>
      InsertIgnore(table, rows, key).0[k] in rows && key(InsertIgnore(table, rows, key).0[k]) == k
  {
    var res := InsertIgnore(table, rows, key).0;
    forall k | k in res && k !in table ensures res[k] in rows && key(res[k]) == k {
      InsertIgnoreFromBatch(table, rows, key, k);
    }
  }

  /** When every key of the batch is already present, the insert changes
      nothing and reports zero rows: re-inserting stored ids is a no-op. */
  lemma InsertIgnoreAllPresent<R>(table: map<string, R>, rows: seq<R>, key: R -> string)
    requires KeysOf(rows, key) <= table.Keys
    ensures InsertIgnore(table, rows, key) == (table, 0)
  {
    var res := InsertIgnore(table, rows, key);
    InsertIgnoreSpec(table, rows, key);
    assert res.0.Keys == table.Keys;
    assert res.0 == table;
  }

  /** When the batch keys are distinct and all new, every row is inserted
      under its key and the count is the batch length. */
  lemma {:induction false} InsertIgnoreAllNew<R>(table: map<string, R>, rows: seq<R>, key: R -> string)
    requires DistinctKeys(rows, key)
    requires KeysOf(rows, key) !! table.Keys
    ensures InsertIgnore(table, rows, key).1 == |rows|
    ensures forall i :: 0 <= i < |rows| ==>
      key(rows[i]) in InsertIgnore(table, rows, key).0 && InsertIgnore(table, rows, key).0[key(rows[i])] == rows[i]
    decreases |rows|
  {
    if rows != [] {
      var k := key(rows[0]);
      assert k in KeysOf(rows, key);
      var t := table[k := rows[0]];
      assert KeysOf(rows[1..], key) !! t.Keys by {
        forall i | 0 <= i < |rows[1..]| ensures key(rows[1..][i]) !in t.Keys {
          assert rows[1..][i] == rows[i + 1];
          assert key(rows[i + 1]) in KeysOf(rows, key);
        }
      }
      assert DistinctKeys(rows[1..], key) by {
        forall i, j | 0 <= i < j < |rows[1..]| ensures key(rows[1..][i]) != key(rows[1..][j]) {
          assert rows[1..][i] == rows[i + 1] && rows[1..][j] == rows[j + 1];
        }
      }
      InsertIgnoreAllNew(t, rows[1..], key);
      InsertIgnoreSpec(t, rows[1..], key);
      var res := InsertIgnore(t, rows[1..], key);
      forall i | 0 <= i < |rows|
        ensures key(rows[i]) in InsertIgnore(table, rows, key).0 && InsertIgnore(table, rows, key).0[key(rows[i])] == rows[i]
      {
        if i == 0 {
          assert key(rows[0]) in t;
        } else {
          assert rows[1..][i - 1] == rows[i];
        }
      }
    }
  }

  /** bulk_upsert_authors: nothing happens for an empty batch or when the
      write hits a store error; otherwise every fullname of the batch gets a
      row, and a fullname already stored keeps its first-seen name. */
  function UpsertAuthors(db: Db, batch: map<string, string>, storeError: bool): (db': Db)
    ensures db'.authors.Keys == if storeError then db.authors.Keys else db.authors.Keys + batch.Keys
    ensures forall f :: f in db.authors ==> db'.authors[f] == db.authors[f]
    ensures forall f :: f in db'.authors && f !in db.authors ==> db'.authors[f] == batch[f]
    ensures db' == db.(authors := db'.authors)
  {
    if batch == map[] || storeError then db
    else db.(authors := batch + db.authors)
  }

  /** Writing authors that are all stored already changes nothing. */
  lemma UpsertAuthorsAllPresent(db: Db, batch: map<string, string>)
    requires batch.Keys <= db.authors.Keys
    ensures UpsertAuthors(db, batch, false) == db
  {
    if batch != map[] {
      assert batch + db.authors == db.authors;
    }
  }

  /** The foreign keys of a post row: its forum is registered and its
      author, when it has one, is stored. */
  predicate PostRefsStored(db: Db, r: PostRow)
  {
    && r.subredditId in db.subreddits.Values
    && (r.authorFullname.Some? ==> r.authorFullname.value in db.authors)
  }

  /** bulk_upsert_posts: an empty batch returns 0 without a write. A store
      error, including a foreign-key violation by a row that would be
      inserted, rolls the whole batch back and reads as 0. Otherwise the
      rows are inserted with "do nothing on conflict" and the count is the
      number of new rows. */
  function BulkUpsertPosts(db: Db, rows: seq<PostRow>, storeError: bool): (res: (Db, nat))
    ensures res.0 == db.(posts := res.0.posts)
    ensures res.0.posts.Keys >= db.posts.Keys
    ensures forall k :: k in db.posts ==> res.0.posts[k] == db.posts[k]
    ensures res.1 == |res.0.posts| - |db.posts|
    ensures rows == [] || storeError ==> res == (db, 0)
    ensures res.1 <= |rows|
    ensures res.0.posts.Keys <= db.posts.Keys + KeysOf(rows, PostKey)
    ensures forall k :: k in res.0.posts && k !in db.posts ==> res.0.posts[k] in rows && res.0.posts[k].postId == k
  {
    if rows == [] || storeError then (db, 0)
    else if !(forall r :: r in rows && r.postId !in db.posts ==> PostRefsStored(db, r)) then (db, 0)
    else
      var ins := InsertIgnore(db.posts, rows, PostKey);
      InsertIgnoreSpec(db.posts, rows, PostKey);
      InsertIgnoreAdds(db.posts, rows, PostKey);
      KeysOfBound(rows, PostKey);
      (db.(posts := ins.0), ins.1)
  }

  /** With no store error and every reference of the batch stored, the
      post write stores a row under every id of the batch. */
  lemma BulkUpsertPostsStoresAll(db: Db, rows: seq<PostRow>)
    requires forall r :: r in rows ==> PostRefsStored(db, r)
    ensures BulkUpsertPosts(db, rows, false).0.posts.Keys == db.posts.Keys + KeysOf(rows, PostKey)
  {
    InsertIgnoreKeys(db.posts, rows, PostKey);
  }

  /** A batch carries at most as many keys as rows. */
  lemma {:induction false} KeysOfBound<R>(rows: seq<R>, key: R -> string)
    ensures |KeysOf(rows, key)| <= |rows|
    decreases |rows|
  {
    if rows != [] {
      var last := |rows| - 1;
      assert KeysOf(rows, key) == KeysOf(rows[..last], key) + {key(rows[last])} by {
        forall i | 0 <= i < last ensures rows[..last][i] == rows[i] { }
        forall k | k in KeysOf(rows, key) ensures k in KeysOf(rows[..last], key) + {key(rows[last])} {
          var i :| 0 <= i < |rows| && key(rows[i]) == k;
          if i < last { assert rows[..last][i] == rows[i]; }
        }
      }
      KeysOfBound(rows[..last], key);
    }
  }

  /** The foreign keys of a comment row: its post and, when present, its author are stored. */
  predicate CommentRefsStored(db: Db, r: CommentRow)
  {
    && r.postId in db.posts
    && (r.authorFullname.Some? ==> r.authorFullname.value in db.authors)
  }

  /** A plain append of comment rows (no conflict clause): the write goes
      through only when there is no store error, the rows' ids are distinct
      and new, and every row's references are stored. */
  predicate AppendAccepted(db: Db, rows: seq<CommentRow>, storeError: bool)
  {
    && !storeError
    && DistinctKeys(rows, CommentKey)
    && KeysOf(rows, CommentKey) !! db.comments.Keys
    && forall r :: r in rows ==> CommentRefsStored(db, r)
  }

  /** The dataframe append of a comment batch: one transaction that either
      stores every row under its id or raises and stores none (None). */
  function AppendComments(db: Db, rows: seq<CommentRow>, storeError: bool): (r: Option<Db>)
    ensures r.Some? <==> AppendAccepted(db, rows, storeError)
    ensures r.Some? ==> r.value == db.(comments := r.value.comments)
    ensures r.Some? ==> r.value.comments.Keys == db.comments.Keys + KeysOf(rows, CommentKey)
    ensures r.Some? ==> |r.value.comments| == |db.comments| + |rows|
    ensures r.Some? ==> forall k :: k in db.comments ==> r.value.comments[k] == db.comments[k]
    ensures r.Some? ==> forall i :: 0 <= i < |rows| ==> r.value.comments[rows[i].commentId] == rows[i]
  {
    if !AppendAccepted(db, rows, storeError) then None
    else
      InsertIgnoreAllNew(db.comments, rows, CommentKey);
      InsertIgnoreSpec(db.comments, rows, CommentKey);
      var ins := InsertIgnore(db.comments, rows, CommentKey);
      Some(db.(comments := ins.0))
  }

  /** The foreign key of a cleaned row: the comment it annotates is stored. */
  predicate CleanedRefStored(db: Db, r: CleanedRow)
  {
    r.commentId in db.comments
  }

  /** bulk_insert_cleaned_comments: an empty batch returns 0 without a write;
      a store error (a foreign-key violation included) rolls back and
      returns 0; otherwise the rows are inserted with "do nothing on
      conflict" and the count is the number of new rows. */
  function BulkInsertCleaned(db: Db, rows: seq<CleanedRow>, storeError: bool): (res: (Db, nat))
    ensures res.0 == db.(cleaned := res.0.cleaned)
    ensures res.0.cleaned.Keys >= db.cleaned.Keys
    ensures forall k :: k in db.cleaned ==> res.0.cleaned[k] == db.cleaned[k]
    ensures res.1 == |res.0.cleaned| - |db.cleaned|
    ensures rows == [] || storeError ==> res == (db, 0)
    ensures res.1 > 0 ==> res.0.cleaned.Keys == db.cleaned.Keys + KeysOf(rows, CleanedKey)
    ensures res.0.cleaned.Keys <= db.cleaned.Keys + KeysOf(rows, CleanedKey)
    ensures forall k :: k in res.0.cleaned && k !in db.cleaned ==> res.0.cleaned[k] in rows && res.0.cleaned[k].commentId == k
  {
    if rows == [] || storeError then (db, 0)
    else if !(forall r :: r in rows && r.commentId !in db.cleaned ==> CleanedRefStored(db, r)) then (db, 0)
    else
      var ins := InsertIgnore(db.cleaned, rows, CleanedKey);
      InsertIgnoreSpec(db.cleaned, rows, CleanedKey);
      InsertIgnoreAdds(db.cleaned, rows, CleanedKey);
      (db.(cleaned := ins.0), ins.1)
  }
}
