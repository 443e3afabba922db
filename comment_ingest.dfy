/** Comment ingestion: for each forum, the posts that have no comment row
    yet are fetched one at a time; their comments are buffered with their
    authors and written in batches counted in posts, authors first. */
module CommentIngest {
  import opened Store

  /** A comment as the flattened comment tree yields it. */
  datatype RawComment = RawComment(
    id: string,
    author: Option<Author>,
    parentId: string,
    body: string,
    createdUtc: real,
    score: int,
    depth: int,
    isSubmitter: bool,
    stickied: bool)

  /** An item of the flattened tree: a comment, or a continuation
      placeholder that has no body. */
  datatype CommentItem = Comment(c: RawComment) | MoreComments

  /** One post's fetch: the items it yielded, and whether it then raised
      (a fetch that raises at once yielded nothing). */
  datatype CommentFetch = CommentFetch(items: seq<CommentItem>, raised: bool)

  /** Which store calls of one forum hit an error: the id lookup, the two
      id loads, and, by flush number, the author write and the comment write. */
  datatype CommentFaults = CommentFaults(
    lookup: bool,
    postIds: bool,
    processedIds: bool,
    authorWriteFails: set<nat>,
    commentWriteFails: set<nat>)

  /** One forum of the run: its name, what fetching each post yields, and
      which of its store calls fail. */
  datatype ForumComments = ForumComments(name: string, fetch: string -> CommentFetch, faults: CommentFaults)

  // ---------------------------------------------------------------------
  // The work set
  // ---------------------------------------------------------------------

  /** The forum's stored posts minus those with at least one comment row. */
  function WorkSet(db: Db, sid: int, faults: CommentFaults): set<string>
  {
    PostIdsOf(db, sid, faults.postIds) - ProcessedPostIds(db, sid, faults.processedIds)
  }

  /** With no store error the work set is exactly the forum's posts that
      have no comment row. */
  lemma WorkSetExact(db: Db, sid: int, faults: CommentFaults)
    requires !faults.postIds && !faults.processedIds
    ensures forall id :: id in WorkSet(db, sid, faults) <==>
      id in db.posts && db.posts[id].subredditId == sid && !HasComment(db, id)
  {
  }

  /** `xs` lists every element of `s` exactly once. */
  ghost predicate Enumerates(xs: seq<string>, s: set<string>)
  {
    && (forall i, j :: 0 <= i < j < |xs| ==> xs[i] != xs[j])
    && (forall x :: x in xs <==> x in s)
  }

  /** list(s) for a set whose iteration order is unspecified: the elements
      are taken in an arbitrary order. */
  method ListOfSet(s: set<string>) returns (xs: seq<string>)
    ensures Enumerates(xs, s)
    ensures |xs| == |s|
  {
    xs := [];
    var rest := s;
    while rest != {}
      invariant rest <= s
      invariant forall i, j :: 0 <= i < j < |xs| ==> xs[i] != xs[j]
      invariant forall x :: x in xs <==> x in s - rest
      invariant |xs| + |rest| == |s|
      decreases rest
    {
      var x :| x in rest;
      assert x !in xs;
      xs := xs + [x];
      rest := rest - {x};
    }
  }

  // ---------------------------------------------------------------------
  // Per-post processing
  // ---------------------------------------------------------------------

  /** The row stored for a comment of post `postId`. */
  function NormalizeComment(c: RawComment, postId: string): CommentRow
  {
    CommentRow(c.id, postId, AuthorFullname(c.author), c.parentId, c.body, ToUtc(c.createdUtc),
               c.score, c.depth, c.isSubmitter, c.stickied)
  }

  /** The rows a post's items produce: one per item with a body, in order. */
  function PostRows(items: seq<CommentItem>, postId: string): seq<CommentRow>
    decreases |items|
  {
    if items == [] then []
    else
      var rows := PostRows(items[..|items| - 1], postId);
      match items[|items| - 1]
      case MoreComments => rows
      case Comment(c) => rows + [NormalizeComment(c, postId)]
  }

  /** The author accumulator after the items: each comment with an author
      sets fullname to name, later ones overwriting earlier ones. */
  function AddAuthors(acc: map<string, string>, items: seq<CommentItem>): map<string, string>
    decreases |items|
  {
    if items == [] then acc
    else
      var acc' := AddAuthors(acc, items[..|items| - 1]);
      match items[|items| - 1]
      case MoreComments => acc'
      case Comment(c) => if c.author.Some? then acc'[c.author.value.fullname := c.author.value.name] else acc'
  }

  /** The per-post try block: every item the fetch yields before it
      finishes or raises is looked at; items without a body are skipped;
      a raise only ends this post. */
  method AppendPostComments(comments: seq<CommentRow>, authors: map<string, string>, postId: string, fetched: CommentFetch)
    returns (comments': seq<CommentRow>, authors': map<string, string>)
    ensures comments' == comments + PostRows(fetched.items, postId)
    ensures authors' == AddAuthors(authors, fetched.items)
  {
    var items := fetched.items;
    comments', authors' := comments, authors;
    for i := 0 to |items|
      invariant comments' == comments + PostRows(items[..i], postId)
      invariant authors' == AddAuthors(authors, items[..i])
    {
      assert items[..i + 1][..i] == items[..i];
      if items[i].MoreComments? {
        continue;
      }
      var c := items[i].c;
      var authorFullname: Option<string> := None;
      if c.author.Some? {
        authorFullname := Some(c.author.value.fullname);
        authors' := authors'[c.author.value.fullname := c.author.value.name];
      }
      comments' := comments' + [CommentRow(c.id, postId, authorFullname, c.parentId, c.body, ToUtc(c.createdUtc),
                                           c.score, c.depth, c.isSubmitter, c.stickied)];
    }
    assert items[..|items|] == items;
  }

  /** Every row of a post carries that post's id and comes from one of its
      items that has a body. */
  lemma {:induction false} PostRowsFrom(items: seq<CommentItem>, postId: string)
    ensures forall r :: r in PostRows(items, postId) ==>
      r.postId == postId && exists c :: Comment(c) in items && r == NormalizeComment(c, postId)
    decreases |items|
  {
    if items != [] {
      var init := items[..|items| - 1];
      PostRowsFrom(init, postId);
      forall r | r in PostRows(items, postId)
        ensures exists c :: Comment(c) in items && r == NormalizeComment(c, postId)
      {
        if r in PostRows(init, postId) {
          var c :| Comment(c) in init && r == NormalizeComment(c, postId);
          assert Comment(c) in items;
        } else {
          assert Comment(items[|items| - 1].c) in items;
        }
      }
    }
  }

  /** A row names an author only if the accumulator holds that author. */
  lemma {:induction false} AddAuthorsCoversRows(acc: map<string, string>, items: seq<CommentItem>, postId: string)
    ensures acc.Keys <= AddAuthors(acc, items).Keys
    ensures forall r :: r in PostRows(items, postId) && r.authorFullname.Some? ==>
      r.authorFullname.value in AddAuthors(acc, items)
    decreases |items|
  {
    if items != [] {
      AddAuthorsCoversRows(acc, items[..|items| - 1], postId);
    }
  }

  /** Every item with a body yields its row: no comment is lost. */
  lemma {:induction false} PostRowsCover(items: seq<CommentItem>, postId: string)
    ensures forall c :: Comment(c) in items ==> NormalizeComment(c, postId) in PostRows(items, postId)
    decreases |items|
  {
    if items != [] {
      var init := items[..|items| - 1];
      PostRowsCover(init, postId);
      forall c | Comment(c) in items ensures NormalizeComment(c, postId) in PostRows(items, postId) {
        if Comment(c) != items[|items| - 1] {
          var i :| 0 <= i < |items| && items[i] == Comment(c);
          assert init[i] == Comment(c);
        }
      }
    }
  }

  /** The author an item names: a comment's author, none for a placeholder. */
  function ItemAuthor(item: CommentItem): Option<Author>
  {
    if item.Comment? then item.c.author else None
  }

  /** The fullnames the items name. */
  function ItemFullnames(items: seq<CommentItem>): set<string>
  {
    set i | 0 <= i < |items| && ItemAuthor(items[i]).Some? :: ItemAuthor(items[i]).value.fullname
  }

  /** Item `i` is the last item naming an author with fullname `f`. */
  predicate LastAuthorItem(items: seq<CommentItem>, i: int, f: string)
    requires 0 <= i < |items|
  {
    && ItemAuthor(items[i]).Some? && ItemAuthor(items[i]).value.fullname == f
    && forall j :: i < j < |items| && ItemAuthor(items[j]).Some? ==> ItemAuthor(items[j]).value.fullname != f
  }

  lemma ItemFullnamesSnoc(items: seq<CommentItem>)
    requires items != []
    ensures var n := |items| - 1;
      ItemFullnames(items) == ItemFullnames(items[..n]) + (if ItemAuthor(items[n]).Some? then {ItemAuthor(items[n]).value.fullname} else {})
  {
    var n := |items| - 1;
    var init := items[..n];
    forall f | f in ItemFullnames(items)
      ensures f in ItemFullnames(init) || (ItemAuthor(items[n]).Some? && f == ItemAuthor(items[n]).value.fullname)
    {
      var i :| 0 <= i < |items| && ItemAuthor(items[i]).Some? && ItemAuthor(items[i]).value.fullname == f;
      if i < n { assert init[i] == items[i]; }
    }
    forall f | f in ItemFullnames(init) ensures f in ItemFullnames(items) {
      var i :| 0 <= i < |init| && ItemAuthor(init[i]).Some? && ItemAuthor(init[i]).value.fullname == f;
      assert items[i] == init[i];
    }
  }

  /** The accumulator gains exactly the fullnames of the comments that have
      an author: a comment without author, or a placeholder, adds nothing;
      a fullname the items do not name keeps its old name. */
  lemma {:induction false} AddAuthorsKeys(acc: map<string, string>, items: seq<CommentItem>)
    ensures AddAuthors(acc, items).Keys == acc.Keys + ItemFullnames(items)
    ensures forall f :: f in acc && f !in ItemFullnames(items) ==> AddAuthors(acc, items)[f] == acc[f]
    decreases |items|
  {
    if items != [] {
      AddAuthorsKeys(acc, items[..|items| - 1]);
      ItemFullnamesSnoc(items);
    }
  }

  /** A fullname the items name maps to the name of the LAST comment with
      that fullname: a later assignment overwrites an earlier one. */
  lemma {:induction false} AddAuthorsLastWins(acc: map<string, string>, items: seq<CommentItem>)
    ensures forall f :: f in ItemFullnames(items) ==>
      (f in AddAuthors(acc, items)
       && exists i :: 0 <= i < |items| && LastAuthorItem(items, i, f) && ItemAuthor(items[i]).value.name == AddAuthors(acc, items)[f])
    decreases |items|
  {
    AddAuthorsKeys(acc, items);
    if items != [] {
      var n := |items| - 1;
      var init := items[..n];
      AddAuthorsLastWins(acc, init);
      ItemFullnamesSnoc(items);
      var res := AddAuthors(acc, items);
      forall f | f in ItemFullnames(items)
        ensures exists i :: 0 <= i < |items| && LastAuthorItem(items, i, f) && ItemAuthor(items[i]).value.name == res[f]
      {
        if ItemAuthor(items[n]).Some? && ItemAuthor(items[n]).value.fullname == f {
          assert LastAuthorItem(items, n, f);
        } else {
          var i :| 0 <= i < |init| && LastAuthorItem(init, i, f) && ItemAuthor(init[i]).value.name == AddAuthors(acc, init)[f];
          assert items[i] == init[i];
          forall j | i < j < |items| && ItemAuthor(items[j]).Some? ensures ItemAuthor(items[j]).value.fullname != f {
            if j < n { assert items[j] == init[j]; }
          }
          assert LastAuthorItem(items, i, f);
        }
      }
    }
  }

  // ---------------------------------------------------------------------
  // Batching and flushing
  // ---------------------------------------------------------------------

  /** The loop's state: the store, the comment buffer, the author
      accumulator, the comments counted so far and the flushes done. */
  datatype BatchState = BatchState(
    db: Db,
    comments: seq<CommentRow>,
    authors: map<string, string>,
    added: nat,
    flushes: nat)

  /** The flush check after the post at index `idx` of `n`: every
      batch_size-th post, and the last one. */
  predicate IsFlushPoint(idx: nat, n: nat, batchSize: int)
    requires batchSize != 0
  {
    (idx + 1) % batchSize == 0 || idx + 1 == n
  }

  /** The state after a successful flush into `db'`: the batch is counted,
      both accumulators are empty and the next flush has the next number. */
  function Flushed(st: BatchState, db': Db): BatchState
  {
    BatchState(db', [], map[], st.added + |st.comments|, st.flushes + 1)
  }

  /** A triggered flush. An empty buffer: nothing is written and nothing
      reset. Otherwise the authors are written, then the comments; when the
      comment write raises, the second component is true and the author
      write stays; when it succeeds, the count grows by the number of rows
      in the batch and both accumulators are emptied. */
  function Flush(st: BatchState, faults: CommentFaults): (res: (BatchState, bool))
    ensures st.comments == [] ==> res == (st, false)
    ensures st.comments != [] && !res.1 ==>
      && res.0.comments == [] && res.0.authors == map[]
      && res.0.added == st.added + |st.comments|
      && |res.0.db.comments| == |st.db.comments| + |st.comments|
      && res.0.db.comments.Keys == st.db.comments.Keys + KeysOf(st.comments, CommentKey)
    ensures st.comments != [] && !res.1 ==>
      && (forall k :: k in st.db.comments ==> res.0.db.comments[k] == st.db.comments[k])
      && (forall i :: 0 <= i < |st.comments| ==> res.0.db.comments[st.comments[i].commentId] == st.comments[i])
    ensures res.1 ==> res.0.comments == st.comments && res.0.authors == st.authors && res.0.db.comments == st.db.comments
  {
    if st.comments == [] then (st, false)
    else
      var db1 := UpsertAuthors(st.db, st.authors, st.flushes in faults.authorWriteFails);
      match AppendComments(db1, st.comments, st.flushes in faults.commentWriteFails)
      case None => (st.(db := db1), true)
      case Some(db2) => (Flushed(st, db2), false)
  }

  /** A flush stores only rows of its buffer: every comment row the store
      gains is one of the buffered rows. */
  lemma FlushStoresOnlyBuffered(st: BatchState, faults: CommentFaults)
    ensures var st' := Flush(st, faults).0;
      forall k :: k in st'.db.comments && k !in st.db.comments ==> st'.db.comments[k] in st.comments
  {
    if st.comments != [] {
      var db1 := UpsertAuthors(st.db, st.authors, st.flushes in faults.authorWriteFails);
      var appended := AppendComments(db1, st.comments, st.flushes in faults.commentWriteFails);
      if appended.Some? {
        forall k | k in appended.value.comments && k !in st.db.comments
          ensures appended.value.comments[k] in st.comments
        {
          var i :| 0 <= i < |st.comments| && CommentKey(st.comments[i]) == k;
          assert st.comments[i] in st.comments;
        }
      }
    }
  }

  /** The authors go in before the comments: when the accumulator covers
      every author the buffer names, the buffer's posts are stored and its
      ids are distinct and new, a flush without store error never raises. */
  lemma FlushAfterAuthorsSucceeds(st: BatchState, faults: CommentFaults)
    requires st.flushes !in faults.authorWriteFails && st.flushes !in faults.commentWriteFails
    requires forall r :: r in st.comments && r.authorFullname.Some? ==> r.authorFullname.value in st.authors
    requires forall r :: r in st.comments ==> r.postId in st.db.posts
    requires DistinctKeys(st.comments, CommentKey) && KeysOf(st.comments, CommentKey) !! st.db.comments.Keys
    ensures !Flush(st, faults).1
  {
    if st.comments != [] {
      var db1 := UpsertAuthors(st.db, st.authors, false);
      assert AppendAccepted(db1, st.comments, false);
    }
  }

  /** The buffer and the author accumulator after one more post. */
  function Collect(st: BatchState, f: ForumComments, postId: string): BatchState
  {
    var fetched := f.fetch(postId);
    st.(comments := st.comments + PostRows(fetched.items, postId),
        authors := AddAuthors(st.authors, fetched.items))
  }

  /** One iteration of the loop over the listed posts: collect the post,
      then run the flush check. The second component is true when the forum
      ends here: a zero batch size fails the modulo, a raising write
      abandons the remaining posts. */
  function Step(st: BatchState, f: ForumComments, work: seq<string>, idx: nat, batchSize: int): (BatchState, bool)
    requires idx < |work|
  {
    var st1 := Collect(st, f, work[idx]);
    if batchSize == 0 then (st1, true)
    else if !IsFlushPoint(idx, |work|, batchSize) then (st1, false)
    else Flush(st1, f.faults)
  }

  /** The loop from post `idx` on, ending with the store, the count and how
      the forum ended. */
  function Run(st: BatchState, f: ForumComments, work: seq<string>, idx: nat, batchSize: int): (Db, nat, Outcome)
    requires idx <= |work|
    decreases |work| - idx
  {
    if idx == |work| then (st.db, st.added, Completed)
    else
      var (st', stop) := Step(st, f, work, idx, batchSize);
      if stop then (st'.db, st'.added, Failed) else Run(st', f, work, idx + 1, batchSize)
  }

  /** One forum: resolve the id, skip a forum without posts or without work,
      else run the loop over `work`, the listed work set. */
  function ForumSpec(db: Db, f: ForumComments, batchSize: int, work: seq<string>): (Db, nat, Outcome)
  {
    match SubredditId(db, f.name, f.faults.lookup)
    case None => (db, 0, Failed)
    case Some(sid) =>
      if PostIdsOf(db, sid, f.faults.postIds) == {} then (db, 0, Skipped)
      else if WorkSet(db, sid, f.faults) == {} then (db, 0, Skipped)
      else Run(BatchState(db, [], map[], 0, 0), f, work, 0, batchSize)
  }

  /** The per-forum try block of populate_comments_table. `work` is the
      order in which the work set was listed. */
  method PopulateForumComments(db: Db, f: ForumComments, batchSize: int)
    returns (db': Db, added: nat, outcome: Outcome, work: seq<string>)
    ensures (db', added, outcome) == ForumSpec(db, f, batchSize, work)
    ensures var sid := SubredditId(db, f.name, f.faults.lookup);
      sid.Some? && PostIdsOf(db, sid.value, f.faults.postIds) != {} ==> Enumerates(work, WorkSet(db, sid.value, f.faults))
  {
    var sid := SubredditId(db, f.name, f.faults.lookup);
    if sid.None? {
      return db, 0, Failed, [];
    }
    var allPostIds := PostIdsOf(db, sid.value, f.faults.postIds);
    if allPostIds == {} {
      return db, 0, Skipped, [];
    }
    var processed := ProcessedPostIds(db, sid.value, f.faults.processedIds);
    work := ListOfSet(allPostIds - processed);
    if work == [] {
      return db, 0, Skipped, work;
    }

    db', added, outcome := PopulateBatches(db, f, work, batchSize);
  }

  /** The body of the loop over the listed posts: fetch and buffer one
      post, then, at a flush point with a non-empty buffer, write the
      authors, then the comments, count them and reset both accumulators. */
  method ProcessPost(st: BatchState, f: ForumComments, work: seq<string>, idx: nat, batchSize: int)
    returns (st': BatchState, stop: bool)
    requires idx < |work|
    ensures (st', stop) == Step(st, f, work, idx, batchSize)
  {
    var comments, authors := AppendPostComments(st.comments, st.authors, work[idx], f.fetch(work[idx]));
    st', stop := st.(comments := comments, authors := authors), false;
    if batchSize == 0 {
      return st', true;
    }
    if (idx + 1) % batchSize == 0 || idx + 1 == |work| {
      st', stop := FlushBatch(st', f.faults);
    }
  }

  /** A triggered flush: nothing to do for an empty buffer; otherwise the
      authors are written, then the comments, which are counted and, with
      the authors, cleared from the buffer. */
  method FlushBatch(st: BatchState, faults: CommentFaults) returns (st': BatchState, raised: bool)
    ensures (st', raised) == Flush(st, faults)
  {
    if st.comments == [] {
      return st, false;
    }
    var db1 := UpsertAuthors(st.db, st.authors, st.flushes in faults.authorWriteFails);
    var appended := AppendComments(db1, st.comments, st.flushes in faults.commentWriteFails);
    if appended.None? {
      return st.(db := db1), true;
    }
    st', raised := Flushed(st, appended.value), false;
  }

  /** The loop over the listed posts of one forum. */
  method PopulateBatches(db: Db, f: ForumComments, work: seq<string>, batchSize: int)
    returns (db': Db, added: nat, outcome: Outcome)
    ensures (db', added, outcome) == Run(BatchState(db, [], map[], 0, 0), f, work, 0, batchSize)
  {
    var st := BatchState(db, [], map[], 0, 0);
    for idx := 0 to |work|
      invariant Run(st, f, work, idx, batchSize) == Run(BatchState(db, [], map[], 0, 0), f, work, 0, batchSize)
    {
      var stop;
      st, stop := ProcessPost(st, f, work, idx, batchSize);
      if stop {
        return st.db, st.added, Failed;
      }
    }
    return st.db, st.added, Completed;
  }

  // ---------------------------------------------------------------------
  // Properties of the loop
  // ---------------------------------------------------------------------

  /** What the rest of the loop does to the store: the count grows by
      exactly the number of comment rows the store gains, stored comments
      stay, posts, forums and cleaned rows are untouched, and authors only
      gain rows and keep their names. */
  lemma {:induction false} RunAccounting(st: BatchState, f: ForumComments, work: seq<string>, idx: nat, batchSize: int)
    requires idx <= |work|
    ensures var (db', added, _) := Run(st, f, work, idx, batchSize);
      && added == st.added + (|db'.comments| - |st.db.comments|)
      && st.db.comments.Keys <= db'.comments.Keys
      && (forall k :: k in st.db.comments ==> db'.comments[k] == st.db.comments[k])
      && db'.posts == st.db.posts && db'.subreddits == st.db.subreddits && db'.cleaned == st.db.cleaned
      && st.db.authors.Keys <= db'.authors.Keys
      && (forall a :: a in st.db.authors ==> db'.authors[a] == st.db.authors[a])
    decreases |work| - idx
  {
    if idx < |work| && batchSize != 0 {
      var st1 := Collect(st, f, work[idx]);
      if !IsFlushPoint(idx, |work|, batchSize) {
        RunAccounting(st1, f, work, idx + 1, batchSize);
      } else {
        var (st2, raised) := Flush(st1, f.faults);
        if !raised {
          RunAccounting(st2, f, work, idx + 1, batchSize);
        }
      }
    }
  }

  /** The posts a comment row may belong to: listed in the work set and
      yielding at least one comment. */
  predicate YieldsRows(f: ForumComments, work: seq<string>, postId: string)
  {
    postId in work && PostRows(f.fetch(postId).items, postId) != []
  }

  /** Every comment row the loop stores belongs to a listed post whose
      fetch yielded a comment: a post with nothing to store gets no row, so
      it stays in the next run's work set. */
  lemma {:induction false} RunStoresOnlyFetchedPosts(st: BatchState, f: ForumComments, work: seq<string>, idx: nat, batchSize: int)
    requires idx <= |work|
    requires forall r :: r in st.comments ==> YieldsRows(f, work, r.postId)
    ensures var (db', _, _) := Run(st, f, work, idx, batchSize);
      forall k :: k in db'.comments && k !in st.db.comments ==> YieldsRows(f, work, db'.comments[k].postId)
    decreases |work| - idx
  {
    if idx < |work| && batchSize != 0 {
      var fetched := f.fetch(work[idx]);
      var rows := PostRows(fetched.items, work[idx]);
      var st1 := Collect(st, f, work[idx]);
      PostRowsFrom(fetched.items, work[idx]);
      assert forall r :: r in st1.comments ==> YieldsRows(f, work, r.postId) by {
        forall r | r in st1.comments ensures YieldsRows(f, work, r.postId) {
          if r in rows { assert r.postId == work[idx]; }
        }
      }
      if !IsFlushPoint(idx, |work|, batchSize) {
        RunStoresOnlyFetchedPosts(st1, f, work, idx + 1, batchSize);
      } else {
        var (st2, raised) := Flush(st1, f.faults);
        FlushStoresOnlyBuffered(st1, f.faults);
        if !raised {
          RunStoresOnlyFetchedPosts(st2, f, work, idx + 1, batchSize);
          RunAccounting(st2, f, work, idx + 1, batchSize);
        }
      }
    }
  }

  /** The rows the posts from `idx` on produce, in order. */
  function RowsFrom(f: ForumComments, work: seq<string>, idx: nat): seq<CommentRow>
    requires idx <= |work|
    decreases |work| - idx
  {
    if idx == |work| then [] else PostRows(f.fetch(work[idx]).items, work[idx]) + RowsFrom(f, work, idx + 1)
  }

  /** Nothing is left in the buffer of a forum that completes: the last post
      always triggers the flush check, so the store ends up with every
      comment row collected from the buffer onwards. */
  lemma {:induction false} RunCompletedStoresAll(st: BatchState, f: ForumComments, work: seq<string>, idx: nat, batchSize: int)
    requires idx < |work| || (idx == |work| && st.comments == [])
    ensures var (db', _, outcome) := Run(st, f, work, idx, batchSize);
      outcome == Completed ==>
        db'.comments.Keys == st.db.comments.Keys + KeysOf(st.comments + RowsFrom(f, work, idx), CommentKey)
    decreases |work| - idx
  {
    if idx == |work| {
      assert st.comments + RowsFrom(f, work, idx) == [];
    } else if batchSize != 0 {
      var fetched := f.fetch(work[idx]);
      var rows := PostRows(fetched.items, work[idx]);
      var st1 := Collect(st, f, work[idx]);
      assert st.comments + RowsFrom(f, work, idx) == st1.comments + RowsFrom(f, work, idx + 1);
      if !IsFlushPoint(idx, |work|, batchSize) {
        RunCompletedStoresAll(st1, f, work, idx + 1, batchSize);
      } else {
        var (st2, raised) := Flush(st1, f.faults);
        if !raised {
          RunCompletedStoresAll(st2, f, work, idx + 1, batchSize);
          KeysOfAppend(st1.comments, RowsFrom(f, work, idx + 1), CommentKey);
          KeysOfAppend(st2.comments, RowsFrom(f, work, idx + 1), CommentKey);
        }
      }
    }
  }

  /** A batch with distinct keys splits into two with distinct, disjoint keys. */
  lemma DistinctKeysSplit(a: seq<CommentRow>, b: seq<CommentRow>)
    requires DistinctKeys(a + b, CommentKey)
    ensures DistinctKeys(a, CommentKey) && DistinctKeys(b, CommentKey)
    ensures KeysOf(a, CommentKey) !! KeysOf(b, CommentKey)
  {
    var ab := a + b;
    forall i, j | 0 <= i < j < |a| ensures CommentKey(a[i]) != CommentKey(a[j]) {
      assert ab[i] == a[i] && ab[j] == a[j];
    }
    forall i, j | 0 <= i < j < |b| ensures CommentKey(b[i]) != CommentKey(b[j]) {
      assert ab[|a| + i] == b[i] && ab[|a| + j] == b[j];
    }
    forall k | k in KeysOf(a, CommentKey) ensures k !in KeysOf(b, CommentKey) {
      var i :| 0 <= i < |a| && CommentKey(a[i]) == k;
      forall j | 0 <= j < |b| ensures CommentKey(b[j]) != k {
        assert ab[i] == a[i] && ab[|a| + j] == b[j];
      }
    }
  }

  /** The loop state from which no write can be refused: the posts still
      to come and those buffered are stored, the accumulator holds every
      author the buffer names, and the comment ids still to be written are
      distinct and new. */
  predicate Ready(st: BatchState, f: ForumComments, work: seq<string>, idx: nat)
    requires idx <= |work|
  {
    && (forall k :: idx <= k < |work| ==> work[k] in st.db.posts)
    && (forall r :: r in st.comments ==> r.postId in st.db.posts)
    && (forall r :: r in st.comments && r.authorFullname.Some? ==> r.authorFullname.value in st.authors)
    && DistinctKeys(st.comments + RowsFrom(f, work, idx), CommentKey)
    && KeysOf(st.comments + RowsFrom(f, work, idx), CommentKey) !! st.db.comments.Keys
  }

  /** Buffering the next post keeps the state ready. */
  lemma CollectReady(st: BatchState, f: ForumComments, work: seq<string>, idx: nat)
    requires idx < |work| && Ready(st, f, work, idx)
    ensures Ready(Collect(st, f, work[idx]), f, work, idx + 1)
  {
    var fetched := f.fetch(work[idx]);
    var rows := PostRows(fetched.items, work[idx]);
    var st1 := Collect(st, f, work[idx]);
    assert st.comments + RowsFrom(f, work, idx) == st1.comments + RowsFrom(f, work, idx + 1);
    PostRowsFrom(fetched.items, work[idx]);
    AddAuthorsCoversRows(st.authors, fetched.items, work[idx]);
    forall r | r in st1.comments ensures r.postId in st1.db.posts {
      if r in rows { assert r.postId == work[idx]; }
    }
  }

  /** From a ready state with no write faults a flush goes through, and
      the state after it is ready again. */
  lemma FlushReady(st: BatchState, f: ForumComments, work: seq<string>, idx: nat)
    requires idx <= |work| && Ready(st, f, work, idx)
    requires f.faults.authorWriteFails == {} && f.faults.commentWriteFails == {}
    ensures !Flush(st, f.faults).1 && Ready(Flush(st, f.faults).0, f, work, idx)
  {
    if st.comments != [] {
      var rest := RowsFrom(f, work, idx);
      DistinctKeysSplit(st.comments, rest);
      KeysOfAppend(st.comments, rest, CommentKey);
      FlushAfterAuthorsSucceeds(st, f.faults);
      var db1 := UpsertAuthors(st.db, st.authors, false);
      var db2 := AppendComments(db1, st.comments, false).value;
      assert Flush(st, f.faults) == (Flushed(st, db2), false);
      assert db2.posts == st.db.posts;
      assert db2.comments.Keys == st.db.comments.Keys + KeysOf(st.comments, CommentKey);
      assert Flushed(st, db2).comments == [];
      EmptyAppend(rest);
    }
  }

  /** An emptied buffer followed by the remaining rows is the remaining
      rows. Stated once here: left to the solver inside the callers above,
      this step makes their proofs much more expensive. */
  lemma EmptyAppend(rows: seq<CommentRow>)
    ensures [] + rows == rows
  {
  }

  /** Writing the authors first is what keeps the comment writes valid:
      when no write hits a store error, every listed post is stored and the
      comment ids still to come are distinct and new, every flush goes
      through and the forum completes. */
  lemma {:induction false} RunWithoutFaultsCompletes(st: BatchState, f: ForumComments, work: seq<string>, idx: nat, batchSize: int)
    requires idx <= |work| && batchSize != 0
    requires f.faults.authorWriteFails == {} && f.faults.commentWriteFails == {}
    requires Ready(st, f, work, idx)
    ensures Run(st, f, work, idx, batchSize).2 == Completed
    decreases |work| - idx
  {
    if idx < |work| {
      var st1 := Collect(st, f, work[idx]);
      CollectReady(st, f, work, idx);
      if !IsFlushPoint(idx, |work|, batchSize) {
        RunWithoutFaultsCompletes(st1, f, work, idx + 1, batchSize);
      } else {
        FlushReady(st1, f, work, idx + 1);
        RunWithoutFaultsCompletes(Flush(st1, f.faults).0, f, work, idx + 1, batchSize);
      }
    }
  }

  // ---------------------------------------------------------------------
  // The flush schedule
  // ---------------------------------------------------------------------

  /** How many of the indices below `m` trigger the flush check in a list of `n` posts. */
  function FlushPointsBelow(m: nat, n: nat, batchSize: int): nat
    requires batchSize != 0
  {
    if m == 0 then 0
    else FlushPointsBelow(m - 1, n, batchSize) + (if IsFlushPoint(m - 1, n, batchSize) then 1 else 0)
  }

  lemma {:induction false} MulAtLeast(d: int, b: int)
    requires d >= 1 && b > 0
    ensures d * b >= b
    decreases d
  {
    if d > 1 {
      MulAtLeast(d - 1, b);
      assert d * b == (d - 1) * b + b;
    }
  }

  /** Euclidean division has one quotient and one remainder. */
  lemma DivUnique(m: int, b: int, q: int, r: int)
    requires b > 0 && 0 <= r < b && m == q * b + r
    ensures m / b == q && m % b == r
  {
    var q0, r0 := m / b, m % b;
    if q0 < q {
      MulAtLeast(q - q0, b);
      assert false;
    } else if q0 > q {
      MulAtLeast(q0 - q, b);
      assert false;
    }
  }

  /** Counting one more index adds one flush exactly when it completes a batch. */
  lemma DivStep(m: nat, b: nat)
    requires b > 0 && m > 0
    ensures m / b == (m - 1) / b + (if m % b == 0 then 1 else 0)
  {
    var q, r := (m - 1) / b, (m - 1) % b;
    assert m - 1 == q * b + r;
    if r == b - 1 {
      DivUnique(m, b, q + 1, 0);
    } else {
      DivUnique(m, b, q, r + 1);
    }
  }

  lemma {:induction false} FlushPointsBeforeLast(m: nat, n: nat, b: nat)
    requires b > 0 && m < n
    ensures FlushPointsBelow(m, n, b) == m / b
  {
    if m > 0 {
      FlushPointsBeforeLast(m - 1, n, b);
      DivStep(m, b);
    }
  }

  /** Batches are counted in posts: a forum with `n` posts to process hits
      the flush check ceil(n / batch_size) times (25, 25 and 10 posts for 60
      posts and a batch size of 25). */
  lemma FlushPointCount(n: nat, b: nat)
    requires b > 0 && n > 0
    ensures FlushPointsBelow(n, n, b) == (n + b - 1) / b
  {
    FlushPointsBeforeLast(n - 1, n, b);
    DivUnique(n + b - 1, b, (n - 1) / b + 1, (n - 1) % b);
  }

  // ---------------------------------------------------------------------
  // populate_comments_table
  // ---------------------------------------------------------------------

  /** A forum's iteration, whatever its outcome, counts exactly the comment
      rows it adds and only adds to the store. */
  lemma ForumAccounting(db: Db, f: ForumComments, batchSize: int, work: seq<string>)
    ensures var (db', added, _) := ForumSpec(db, f, batchSize, work);
      && added == |db'.comments| - |db.comments|
      && db.comments.Keys <= db'.comments.Keys
      && (forall k :: k in db.comments ==> db'.comments[k] == db.comments[k])
      && db'.posts == db.posts && db'.subreddits == db.subreddits && db'.cleaned == db.cleaned
      && db.authors.Keys <= db'.authors.Keys
      && (forall a :: a in db.authors ==> db'.authors[a] == db.authors[a])
  {
    RunAccounting(BatchState(db, [], map[], 0, 0), f, work, 0, batchSize);
  }

  /** Every comment row a forum adds belongs to a post of its work set,
      i.e. a post of the forum that had no comment row, whose fetch yielded
      at least one comment. */
  lemma ForumStoresOnlyPendingPosts(db: Db, f: ForumComments, batchSize: int, work: seq<string>, sid: int)
    requires SubredditId(db, f.name, f.faults.lookup) == Some(sid)
    requires Enumerates(work, WorkSet(db, sid, f.faults))
    ensures var (db', _, _) := ForumSpec(db, f, batchSize, work);
      forall k :: k in db'.comments && k !in db.comments ==>
        var p := db'.comments[k].postId;
        p in WorkSet(db, sid, f.faults) && PostRows(f.fetch(p).items, p) != []
  {
    RunStoresOnlyFetchedPosts(BatchState(db, [], map[], 0, 0), f, work, 0, batchSize);
  }

  /** A forum whose store calls all succeed, with a non-zero batch size and
      comment ids that are distinct and new, never fails: the authors of
      each batch are written before its comments, so no comment write is
      refused. */
  lemma ForumWithoutFaultsCompletes(db: Db, f: ForumComments, batchSize: int, work: seq<string>, sid: int)
    requires SubredditId(db, f.name, f.faults.lookup) == Some(sid)
    requires !f.faults.postIds && !f.faults.processedIds
    requires f.faults.authorWriteFails == {} && f.faults.commentWriteFails == {}
    requires batchSize != 0
    requires Enumerates(work, WorkSet(db, sid, f.faults))
    requires DistinctKeys(RowsFrom(f, work, 0), CommentKey) && KeysOf(RowsFrom(f, work, 0), CommentKey) !! db.comments.Keys
    ensures ForumSpec(db, f, batchSize, work).2 != Failed
  {
    var st := BatchState(db, [], map[], 0, 0);
    EmptyAppend(RowsFrom(f, work, 0));
    forall k | 0 <= k < |work| ensures work[k] in db.posts {
      assert work[k] in WorkSet(db, sid, f.faults);
    }
    assert Ready(st, f, work, 0);
    RunWithoutFaultsCompletes(st, f, work, 0, batchSize);
  }

  /** A post that yields no comment gets no comment row, so with the id
      loads succeeding it is in the forum's work set again on the next run:
      such a post is fetched on every run. */
  lemma CommentlessPostStaysPending(db: Db, f: ForumComments, batchSize: int, work: seq<string>, sid: int, p: string)
    requires SubredditId(db, f.name, f.faults.lookup) == Some(sid)
    requires !f.faults.postIds && !f.faults.processedIds
    requires Enumerates(work, WorkSet(db, sid, f.faults))
    requires p in WorkSet(db, sid, f.faults) && PostRows(f.fetch(p).items, p) == []
    ensures p in WorkSet(ForumSpec(db, f, batchSize, work).0, sid, f.faults)
  {
    var db' := ForumSpec(db, f, batchSize, work).0;
    ForumStoresOnlyPendingPosts(db, f, batchSize, work, sid);
    ForumAccounting(db, f, batchSize, work);
    assert !HasComment(db', p) by {
      forall c | c in db'.comments ensures db'.comments[c].postId != p {
        if c in db.comments {
          assert !HasComment(db, p);
        }
      }
    }
  }

  /** The whole run over the forums, each forum with the order `works[i]`
      in which its work set was listed: every forum is processed with the
      store the forums before it left, whatever their outcome, and the
      counts add up. */
  function RunComments(db: Db, forums: seq<ForumComments>, works: seq<seq<string>>, batchSize: int): (Db, nat)
    requires |works| == |forums|
    decreases |forums|
  {
    if forums == [] then (db, 0)
    else
      var n := |forums| - 1;
      var (db1, total) := RunComments(db, forums[..n], works[..n], batchSize);
      var (db2, added, _) := ForumSpec(db1, forums[n], batchSize, works[n]);
      (db2, total + added)
  }

  /** `work` lists the work set of the store the forum starts from, when the
      forum resolves and has posts (otherwise the list is not looked at). */
  ghost predicate ListsWorkSet(db: Db, f: ForumComments, work: seq<string>)
  {
    var sid := SubredditId(db, f.name, f.faults.lookup);
    sid.Some? && PostIdsOf(db, sid.value, f.faults.postIds) != {} ==> Enumerates(work, WorkSet(db, sid.value, f.faults))
  }

  /** Each forum's list enumerates the work set of the store it starts from. */
  ghost predicate ListsWorkSets(db: Db, forums: seq<ForumComments>, works: seq<seq<string>>, batchSize: int)
    requires |works| == |forums|
    decreases |forums|
  {
    forums == [] ||
    var n := |forums| - 1;
    && ListsWorkSets(db, forums[..n], works[..n], batchSize)
    && ListsWorkSet(RunComments(db, forums[..n], works[..n], batchSize).0, forums[n], works[n])
  }

  /** The run's total is exactly the number of comment rows the store
      gained; stored comments and author names stay; posts, forums and
      cleaned rows are untouched. */
  lemma {:induction false} RunCommentsAccounting(db: Db, forums: seq<ForumComments>, works: seq<seq<string>>, batchSize: int)
    requires |works| == |forums|
    ensures var (db', total) := RunComments(db, forums, works, batchSize);
      && total == |db'.comments| - |db.comments|
      && db.comments.Keys <= db'.comments.Keys
      && (forall k :: k in db.comments ==> db'.comments[k] == db.comments[k])
      && db'.posts == db.posts && db'.subreddits == db.subreddits && db'.cleaned == db.cleaned
      && db.authors.Keys <= db'.authors.Keys
      && (forall a :: a in db.authors ==> db'.authors[a] == db.authors[a])
    decreases |forums|
  {
    if forums != [] {
      var n := |forums| - 1;
      RunCommentsAccounting(db, forums[..n], works[..n], batchSize);
      var db1 := RunComments(db, forums[..n], works[..n], batchSize).0;
      ForumAccounting(db1, forums[n], batchSize, works[n]);
    }
  }

  /** Running one more forum: the fold over `forums + [f]` is the fold over
      `forums` followed by `f`. */
  lemma RunCommentsSnoc(db: Db, forums: seq<ForumComments>, works: seq<seq<string>>, batchSize: int,
                        f: ForumComments, work: seq<string>)
    requires |works| == |forums|
    ensures RunComments(db, forums + [f], works + [work], batchSize).0
      == ForumSpec(RunComments(db, forums, works, batchSize).0, f, batchSize, work).0
    ensures RunComments(db, forums + [f], works + [work], batchSize).1
      == RunComments(db, forums, works, batchSize).1 + ForumSpec(RunComments(db, forums, works, batchSize).0, f, batchSize, work).1
  {
    assert (forums + [f])[..|forums|] == forums;
    assert (works + [work])[..|works|] == works;
  }

  /** Listing one more forum's work set. */
  lemma ListsWorkSetsSnoc(db: Db, forums: seq<ForumComments>, works: seq<seq<string>>, batchSize: int,
                          f: ForumComments, work: seq<string>)
    requires |works| == |forums|
    requires ListsWorkSets(db, forums, works, batchSize)
    requires ListsWorkSet(RunComments(db, forums, works, batchSize).0, f, work)
    ensures ListsWorkSets(db, forums + [f], works + [work], batchSize)
  {
    assert (forums + [f])[..|forums|] == forums;
    assert (works + [work])[..|works|] == works;
  }

  /** A forum that is not registered fails with no change. */
  lemma UnregisteredForumFails(db: Db, f: ForumComments, batchSize: int, work: seq<string>)
    requires f.name !in db.subreddits
    ensures ForumSpec(db, f, batchSize, work) == (db, 0, Failed)
  {
  }

  /** An unregistered forum at the end of the list changes neither the
      store nor the total. */
  lemma UnregisteredLastForum(db: Db, forums: seq<ForumComments>, works: seq<seq<string>>, batchSize: int,
                              f: ForumComments, work: seq<string>)
    requires |works| == |forums| && f.name !in db.subreddits
    ensures RunComments(db, forums + [f], works + [work], batchSize) == RunComments(db, forums, works, batchSize)
  {
    RunCommentsSnoc(db, forums, works, batchSize, f, work);
    RunCommentsAccounting(db, forums, works, batchSize);
    UnregisteredForumFails(RunComments(db, forums, works, batchSize).0, f, batchSize, work);
  }

  /** A forum that is not registered fails without touching the store, and
      the forums after it run as if it were not listed. */
  lemma {:induction false} UnregisteredForumSkipped(db: Db, forums: seq<ForumComments>, works: seq<seq<string>>, batchSize: int, i: nat)
    requires |works| == |forums| && i < |forums| && forums[i].name !in db.subreddits
    ensures RunComments(db, forums, works, batchSize)
      == RunComments(db, forums[..i] + forums[i + 1..], works[..i] + works[i + 1..], batchSize)
    decreases |forums|
  {
    var n := |forums| - 1;
    var fs, ws := forums[..n], works[..n];
    assert forums == fs + [forums[n]] && works == ws + [works[n]];
    if i == n {
      assert forums[..i] + forums[i + 1..] == fs && works[..i] + works[i + 1..] == ws;
      UnregisteredLastForum(db, fs, ws, batchSize, forums[n], works[n]);
    } else {
      var fs', ws' := fs[..i] + fs[i + 1..], ws[..i] + ws[i + 1..];
      assert |fs'| == n - 1 == |ws'|;
      assert forums[..i] + forums[i + 1..] == fs' + [forums[n]];
      assert works[..i] + works[i + 1..] == ws' + [works[n]];
      UnregisteredForumSkipped(db, fs, ws, batchSize, i);
      RunCommentsSnoc(db, fs, ws, batchSize, forums[n], works[n]);
      RunCommentsSnoc(db, fs', ws', batchSize, forums[n], works[n]);
    }
  }

  /** populate_comments_table: every forum in turn, whatever happened to the
      ones before it; `works` records the order in which each forum's work
      set was listed. */
  method PopulateCommentsTable(db: Db, forums: seq<ForumComments>, batchSize: int)
    returns (db': Db, total: nat, ghost works: seq<seq<string>>)
    ensures |works| == |forums|
    ensures (db', total) == RunComments(db, forums, works, batchSize)
    ensures ListsWorkSets(db, forums, works, batchSize)
  {
    db', total, works := db, 0, [];
    for i := 0 to |forums|
      invariant |works| == i
      invariant (db', total) == RunComments(db, forums[..i], works, batchSize)
      invariant ListsWorkSets(db, forums[..i], works, batchSize)
    {
      var added, outcome, work;
      db', added, outcome, work := PopulateForumComments(db', forums[i], batchSize);
      total := total + added;
      assert forums[..i + 1] == forums[..i] + [forums[i]];
      assert ListsWorkSet(RunComments(db, forums[..i], works, batchSize).0, forums[i], work);
      RunCommentsSnoc(db, forums[..i], works, batchSize, forums[i], work);
      ListsWorkSetsSnoc(db, forums[..i], works, batchSize, forums[i], work);
      works := works + [work];
    }
    assert forums[..|forums|] == forums;
  }
}
