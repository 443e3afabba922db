/** Post ingestion: merge four listings of a forum into one collection keyed
    by post id, drop the posts already stored for that forum, normalise the
    rest into rows, write their authors and then the rows, and keep a
    running total across forums. */
module PostIngest {
  import opened Store

  /** A post as the remote listing yields it. */
  datatype RawPost = RawPost(
    id: string,
    author: Option<Author>,
    title: string,
    flair: Option<string>,
    selftext: string,
    url: string,
    createdUtc: real,
    score: int,
    numComments: int,
    upvoteRatio: real,
    stickied: bool)

  /** One listing call: the posts it yielded, and whether it then raised
      (a call that raises at once yielded nothing). */
  datatype Listing = Listing(yielded: seq<RawPost>, raised: bool)

  // ---------------------------------------------------------------------
  // The insertion-ordered dictionary the fetch fills
  // ---------------------------------------------------------------------

  /** A dictionary from post id to post that remembers the order in which
      ids were first inserted; assigning to a present id replaces the value
      and keeps the position. */
  datatype PostDict = PostDict(order: seq<string>, byId: map<string, RawPost>)

  const EmptyDict: PostDict := PostDict([], map[])

  ghost predicate Valid(d: PostDict)
  {
    && (forall i, j :: 0 <= i < j < |d.order| ==> d.order[i] != d.order[j])
    && (forall k :: k in d.byId <==> k in d.order)
    && (forall k :: k in d.byId ==> d.byId[k].id == k)
  }

  /** posts[p.id] = p */
  function Put(d: PostDict, p: RawPost): PostDict
  {
    if p.id in d.byId then PostDict(d.order, d.byId[p.id := p])
    else PostDict(d.order + [p.id], d.byId[p.id := p])
  }

  /** The dictionary after assigning every post of `s`, in order. */
  function PutAll(d: PostDict, s: seq<RawPost>): PostDict
    decreases |s|
  {
    if s == [] then d else Put(PutAll(d, s[..|s| - 1]), s[|s| - 1])
  }

  lemma PutValid(d: PostDict, p: RawPost)
    requires Valid(d)
    ensures Valid(Put(d, p))
  {
  }

  lemma {:induction false} PutAllValid(d: PostDict, s: seq<RawPost>)
    requires Valid(d)
    ensures Valid(PutAll(d, s))
    decreases |s|
  {
    if s != [] {
      PutAllValid(d, s[..|s| - 1]);
      PutValid(PutAll(d, s[..|s| - 1]), s[|s| - 1]);
    }
  }

  /** list(posts.values()) */
  function Values(d: PostDict): seq<RawPost>
    requires Valid(d)
  {
    seq(|d.order|, i requires 0 <= i < |d.order| => d.byId[d.order[i]])
  }

  /** The id a fetched post is keyed by. */
  function RawKey(p: RawPost): string { p.id }


  /** The position of the last post of `s` that carries `id`. */
  function LastIndexWithId(s: seq<RawPost>, id: string): (i: nat)
    requires id in KeysOf(s, RawKey)
    ensures i < |s| && s[i].id == id
    ensures forall j :: i < j < |s| ==> s[j].id != id
    decreases |s|
  {
    KeysOfSnoc(s, RawKey);
    if s[|s| - 1].id == id then |s| - 1 else LastIndexWithId(s[..|s| - 1], id)
  }

  lemma {:induction false} PutAllAppend(d: PostDict, a: seq<RawPost>, b: seq<RawPost>)
    ensures PutAll(d, a + b) == PutAll(PutAll(d, a), b)
    decreases |b|
  {
    if b == [] {
      assert a + b == a;
    } else {
      var ab := a + b;
      assert ab[..|ab| - 1] == a + b[..|b| - 1];
      assert ab[|ab| - 1] == b[|b| - 1];
      PutAllAppend(d, a, b[..|b| - 1]);
    }
  }

  /** After assigning `s`, the dictionary holds exactly the ids it held
      before and the ids of `s`; an id of `s` maps to the LAST post of `s`
      with that id, any other id keeps its old value. */
  lemma {:induction false} PutAllContents(d: PostDict, s: seq<RawPost>)
    requires Valid(d)
    ensures PutAll(d, s).byId.Keys == d.byId.Keys + KeysOf(s, RawKey)
    ensures forall k :: k in PutAll(d, s).byId ==>
      PutAll(d, s).byId[k] == if k in KeysOf(s, RawKey) then s[LastIndexWithId(s, k)] else d.byId[k]
    decreases |s|
  {
    if s != [] {
      var init := s[..|s| - 1];
      var p := s[|s| - 1];
      PutAllContents(d, init);
      KeysOfSnoc(s, RawKey);
      forall k | k in PutAll(d, s).byId
        ensures PutAll(d, s).byId[k] == if k in KeysOf(s, RawKey) then s[LastIndexWithId(s, k)] else d.byId[k]
      {
        if k != p.id && k in KeysOf(init, RawKey) {
          LastIndexSnoc(s, k);
        }
      }
    }
  }

  /** Appending a post with another id leaves the last position of `id`
      where it was. */
  lemma LastIndexSnoc(s: seq<RawPost>, id: string)
    requires s != [] && s[|s| - 1].id != id && id in KeysOf(s[..|s| - 1], RawKey)
    ensures id in KeysOf(s, RawKey) && LastIndexWithId(s, id) == LastIndexWithId(s[..|s| - 1], id)
  {
    KeysOfSnoc(s, RawKey);
  }

  lemma {:induction false} PutAllOrderBound(d: PostDict, s: seq<RawPost>)
    requires Valid(d)
    ensures |PutAll(d, s).order| <= |d.order| + |s|
    decreases |s|
  {
    if s != [] { PutAllOrderBound(d, s[..|s| - 1]); }
  }

  // ---------------------------------------------------------------------
  // fetch_diverse_posts
  // ---------------------------------------------------------------------

  /** Everything the four listings yielded, in the order they are drained. */
  function AllYielded(top: Listing, hot: Listing, newest: Listing, controversial: Listing): seq<RawPost>
  {
    top.yielded + hot.yielded + newest.yielded + controversial.yielded
  }

  /** The merged collection: one entry per id yielded by any listing. */
  function MergedPosts(top: Listing, hot: Listing, newest: Listing, controversial: Listing): seq<RawPost>
  {
    PutAllValid(EmptyDict, AllYielded(top, hot, newest, controversial));
    Values(PutAll(EmptyDict, AllYielded(top, hot, newest, controversial)))
  }

  /** One of the four guarded loops: every post the listing yields before it
      finishes or raises is assigned to the dictionary; a raise only ends
      this listing. */
  method DrainListing(posts: PostDict, listing: Listing) returns (posts': PostDict)
    requires Valid(posts)
    ensures Valid(posts')
    ensures posts' == PutAll(posts, listing.yielded)
  {
    var s := listing.yielded;
    posts' := posts;
    for i := 0 to |s|
      invariant Valid(posts')
      invariant posts' == PutAll(posts, s[..i])
    {
      assert s[..i + 1][..i] == s[..i];
      PutValid(posts', s[i]);
      posts' := Put(posts', s[i]);
    }
    assert s[..|s|] == s;
  }

  /** fetch_diverse_posts: drain top, hot, new and controversial into one
      dictionary keyed by id and return its values. */
  method FetchDiversePosts(top: Listing, hot: Listing, newest: Listing, controversial: Listing)
    returns (result: seq<RawPost>)
    ensures result == MergedPosts(top, hot, newest, controversial)
  {
    var posts := EmptyDict;
    posts := DrainListing(posts, top);
    posts := DrainListing(posts, hot);
    posts := DrainListing(posts, newest);
    posts := DrainListing(posts, controversial);
    PutAllAppend(EmptyDict, top.yielded, hot.yielded);
    PutAllAppend(EmptyDict, top.yielded + hot.yielded, newest.yielded);
    PutAllAppend(EmptyDict, top.yielded + hot.yielded + newest.yielded, controversial.yielded);
    result := Values(posts);
  }

  /** The merged fetch holds one record per id, its ids are exactly those
      any listing yielded (whichever listings raised), each record is the
      last one yielded for its id, and it is no longer than all yields. */
  lemma MergedPostsDedup(top: Listing, hot: Listing, newest: Listing, controversial: Listing)
    ensures var r := MergedPosts(top, hot, newest, controversial);
      forall i, j :: 0 <= i < j < |r| ==> r[i].id != r[j].id
    ensures KeysOf(MergedPosts(top, hot, newest, controversial), RawKey) == KeysOf(AllYielded(top, hot, newest, controversial), RawKey)
    ensures var all := AllYielded(top, hot, newest, controversial);
      var r := MergedPosts(top, hot, newest, controversial);
      forall i :: 0 <= i < |r| ==> r[i].id in KeysOf(all, RawKey) && r[i] == all[LastIndexWithId(all, r[i].id)]
    ensures |MergedPosts(top, hot, newest, controversial)| <= |AllYielded(top, hot, newest, controversial)|
  {
    var all := AllYielded(top, hot, newest, controversial);
    var d := PutAll(EmptyDict, all);
    PutAllValid(EmptyDict, all);
    ValuesOf(d);
    PutAllContents(EmptyDict, all);
    PutAllOrderBound(EmptyDict, all);
  }

  /** The values of a valid dictionary: one per stored id, in insertion
      order, each the value stored under its own id. */
  lemma ValuesOf(d: PostDict)
    requires Valid(d)
    ensures |Values(d)| == |d.order|
    ensures forall i, j :: 0 <= i < j < |Values(d)| ==> Values(d)[i].id != Values(d)[j].id
    ensures KeysOf(Values(d), RawKey) == d.byId.Keys
    ensures forall i :: 0 <= i < |Values(d)| ==> Values(d)[i].id in d.byId && Values(d)[i] == d.byId[Values(d)[i].id]
  {
    var r := Values(d);
    forall k | k in d.byId ensures k in KeysOf(r, RawKey) {
      var i :| 0 <= i < |d.order| && d.order[i] == k;
      assert r[i].id == k;
    }
  }

  // ---------------------------------------------------------------------
  // Normalising fetched posts
  // ---------------------------------------------------------------------

  /** The row stored for a fetched post of the forum `subredditId`. */
  function NormalizePost(p: RawPost, subredditId: int): PostRow
  {
    PostRow(p.id, subredditId, AuthorFullname(p.author), p.title, p.flair, p.selftext, p.url,
            ToUtc(p.createdUtc), p.score, p.numComments, p.upvoteRatio, p.stickied)
  }

  /** The row carries the post's author fullname (None without author), its
      timestamp converted, and its other fields unchanged. */
  predicate RowOf(r: PostRow, p: RawPost)
  {
    && r.postId == p.id
    && r.authorFullname == AuthorFullname(p.author)
    && r.title == p.title && r.flair == p.flair && r.selftext == p.selftext && r.url == p.url
    && r.createdUtc == ToUtc(p.createdUtc) && r.score == p.score && r.numComments == p.numComments
    && r.upvoteRatio == p.upvoteRatio && r.stickied == p.stickied
  }

  /** The rows built from the posts whose ids were not stored at forum start. */
  function NewPostRows(posts: seq<RawPost>, existing: set<string>, subredditId: int): seq<PostRow>
    decreases |posts|
  {
    if posts == [] then []
    else
      var p := posts[|posts| - 1];
      var rows := NewPostRows(posts[..|posts| - 1], existing, subredditId);
      if p.id in existing then rows else rows + [NormalizePost(p, subredditId)]
  }

  /** The author accumulator: fullname to name over the new posts that have
      an author, a later post overwriting an earlier one. */
  function BatchAuthors(posts: seq<RawPost>, existing: set<string>): map<string, string>
    decreases |posts|
  {
    if posts == [] then map[]
    else
      var p := posts[|posts| - 1];
      var acc := BatchAuthors(posts[..|posts| - 1], existing);
      if p.id in existing || p.author.None? then acc
      else acc[p.author.value.fullname := p.author.value.name]
  }

  /** Every row comes from a fetched post whose id was not stored at
      forum start, and carries the resolved subreddit_id, that post's author
      fullname (None without author) and its fields unchanged. */
  lemma {:induction false} NewPostRowsFrom(posts: seq<RawPost>, existing: set<string>, subredditId: int)
    ensures forall r :: r in NewPostRows(posts, existing, subredditId) ==>
      r.subredditId == subredditId && exists p :: p in posts && p.id !in existing && RowOf(r, p)
    decreases |posts|
  {
    if posts != [] {
      var init := posts[..|posts| - 1];
      NewPostRowsFrom(init, existing, subredditId);
      forall r | r in NewPostRows(posts, existing, subredditId)
        ensures exists p :: p in posts && p.id !in existing && RowOf(r, p)
      {
        if r in NewPostRows(init, existing, subredditId) {
          var p :| p in init && p.id !in existing && RowOf(r, p);
          assert p in posts;
        } else {
          assert RowOf(r, posts[|posts| - 1]);
        }
      }
    }
  }

  /** Every fetched post whose id was not stored at forum start gets its row. */
  lemma {:induction false} NewPostRowsCover(posts: seq<RawPost>, existing: set<string>, subredditId: int)
    ensures forall p :: p in posts && p.id !in existing ==> NormalizePost(p, subredditId) in NewPostRows(posts, existing, subredditId)
    decreases |posts|
  {
    if posts != [] {
      var init := posts[..|posts| - 1];
      NewPostRowsCover(init, existing, subredditId);
      forall p | p in posts && p.id !in existing
        ensures NormalizePost(p, subredditId) in NewPostRows(posts, existing, subredditId)
      {
        if p != posts[|posts| - 1] {
          var i :| 0 <= i < |posts| && posts[i] == p;
          assert init[i] == p;
        }
      }
    }
  }

  /** A post whose id is in the set loaded at forum start never produces a row. */
  lemma NoRowForStoredPost(posts: seq<RawPost>, existing: set<string>, subredditId: int)
    ensures forall r :: r in NewPostRows(posts, existing, subredditId) ==> r.postId !in existing
  {
    NewPostRowsFrom(posts, existing, subredditId);
  }

  /** The accumulator holds exactly the fullnames of the new posts that have
      an author; a post without author adds nothing. */
  lemma {:induction false} BatchAuthorsSpec(posts: seq<RawPost>, existing: set<string>)
    ensures forall f :: f in BatchAuthors(posts, existing) <==>
      exists p :: p in posts && p.id !in existing && p.author.Some? && p.author.value.fullname == f
    decreases |posts|
  {
    if posts != [] {
      var init := posts[..|posts| - 1];
      var last := posts[|posts| - 1];
      BatchAuthorsSpec(init, existing);
      assert forall p :: p in init ==> p in posts;
      forall f | exists p :: p in posts && p.id !in existing && p.author.Some? && p.author.value.fullname == f
        ensures f in BatchAuthors(posts, existing)
      {
        var p :| p in posts && p.id !in existing && p.author.Some? && p.author.value.fullname == f;
        if p != last {
          var i :| 0 <= i < |posts| && posts[i] == p;
          assert init[i] == p;
        }
      }
    }
  }

  /** Post `i` is the last new post whose author has fullname `f`. */
  predicate LastAuthorPost(posts: seq<RawPost>, existing: set<string>, i: int, f: string)
    requires 0 <= i < |posts|
  {
    && posts[i].id !in existing && posts[i].author.Some? && posts[i].author.value.fullname == f
    && forall j :: i < j < |posts| && posts[j].id !in existing && posts[j].author.Some? ==> posts[j].author.value.fullname != f
  }

  /** Each fullname of the accumulator maps to the name of the LAST new
      post with that fullname: a later assignment overwrites an earlier one. */
  lemma {:induction false} BatchAuthorsLastWins(posts: seq<RawPost>, existing: set<string>)
    ensures forall f :: f in BatchAuthors(posts, existing) ==>
      exists i :: 0 <= i < |posts| && LastAuthorPost(posts, existing, i, f) && posts[i].author.value.name == BatchAuthors(posts, existing)[f]
    decreases |posts|
  {
    if posts != [] {
      var n := |posts| - 1;
      var init := posts[..n];
      var last := posts[n];
      BatchAuthorsLastWins(init, existing);
      var acc := BatchAuthors(posts, existing);
      forall f | f in acc
        ensures exists i :: 0 <= i < |posts| && LastAuthorPost(posts, existing, i, f) && posts[i].author.value.name == acc[f]
      {
        if last.id !in existing && last.author.Some? && last.author.value.fullname == f {
          assert LastAuthorPost(posts, existing, n, f);
        } else {
          var i :| 0 <= i < |init| && LastAuthorPost(init, existing, i, f) && init[i].author.value.name == BatchAuthors(init, existing)[f];
          assert posts[i] == init[i];
          forall j | i < j < |posts| && posts[j].id !in existing && posts[j].author.Some?
            ensures posts[j].author.value.fullname != f
          {
            if j < n { assert posts[j] == init[j]; }
          }
          assert LastAuthorPost(posts, existing, i, f);
        }
      }
    }
  }

  /** Every author fullname a row references is a key of the accumulator
      written just before the rows. */
  lemma RowAuthorsInBatch(posts: seq<RawPost>, existing: set<string>, subredditId: int)
    ensures forall r :: r in NewPostRows(posts, existing, subredditId) && r.authorFullname.Some? ==>
      r.authorFullname.value in BatchAuthors(posts, existing)
  {
    NewPostRowsFrom(posts, existing, subredditId);
    BatchAuthorsSpec(posts, existing);
  }

  // ---------------------------------------------------------------------
  // posts_table_populate
  // ---------------------------------------------------------------------

  /** Which store calls of one forum hit an error: the id lookup, the load
      of stored ids, the author write and the post write. */
  datatype PostFaults = PostFaults(lookup: bool, existingIds: bool, authorWrite: bool, postWrite: bool)

  /** One forum of the run: its name, what its four listings yield and
      which of its store calls fail. */
  datatype ForumPosts = ForumPosts(
    name: string,
    top: Listing,
    hot: Listing,
    newest: Listing,
    controversial: Listing,
    faults: PostFaults)

  const NoPostFaults: PostFaults := PostFaults(false, false, false, false)

  /** One forum's iteration: the store afterwards, the posts it inserted and how it ended. */
  function IngestForumSpec(db: Db, f: ForumPosts): (Db, nat, Outcome)
  {
    match SubredditId(db, f.name, f.faults.lookup)
    case None => (db, 0, Failed)
    case Some(sid) =>
      WriteNewPosts(db, sid, MergedPosts(f.top, f.hot, f.newest, f.controversial),
                    PostIdsOf(db, sid, f.faults.existingIds), f.faults)
  }

  /** The part of a forum's iteration after id resolution: no row, no write;
      otherwise the authors, then the rows. */
  function WriteNewPosts(db: Db, sid: int, all: seq<RawPost>, existing: set<string>, faults: PostFaults): (Db, nat, Outcome)
  {
    var rows := NewPostRows(all, existing, sid);
    if rows == [] then (db, 0, Skipped)
    else
      var db1 := UpsertAuthors(db, BatchAuthors(all, existing), faults.authorWrite);
      var (db2, n) := BulkUpsertPosts(db1, rows, faults.postWrite);
      (db2, n, Completed)
  }

  /** The whole run: forums one after another, totals added up. */
  function RunPosts(db: Db, forums: seq<ForumPosts>): (Db, nat)
    decreases |forums|
  {
    if forums == [] then (db, 0)
    else
      var (db1, n, _) := IngestForumSpec(db, forums[0]);
      var (db2, m) := RunPosts(db1, forums[1..]);
      (db2, n + m)
  }

  /** The body of the per-forum try block. */
  method IngestForum(db: Db, f: ForumPosts) returns (db': Db, added: nat, outcome: Outcome)
    ensures (db', added, outcome) == IngestForumSpec(db, f)
  {
    var sid := SubredditId(db, f.name, f.faults.lookup);
    if sid.None? {
      return db, 0, Failed;
    }
    var subredditId := sid.value;
    var existing := PostIdsOf(db, subredditId, f.faults.existingIds);
    var all := FetchDiversePosts(f.top, f.hot, f.newest, f.controversial);

    var rows: seq<PostRow> := [];
    var authors: map<string, string> := map[];
    for i := 0 to |all|
      invariant rows == NewPostRows(all[..i], existing, subredditId)
      invariant authors == BatchAuthors(all[..i], existing)
    {
      var p := all[i];
      assert all[..i + 1][..i] == all[..i];
      if p.id in existing {
        continue;
      }
      var authorFullname: Option<string>;
      if p.author.Some? {
        authors := authors[p.author.value.fullname := p.author.value.name];
        authorFullname := Some(p.author.value.fullname);
      } else {
        authorFullname := None;
      }
      rows := rows + [PostRow(p.id, subredditId, authorFullname, p.title, p.flair, p.selftext, p.url,
                              ToUtc(p.createdUtc), p.score, p.numComments, p.upvoteRatio, p.stickied)];
    }
    assert all[..|all|] == all;

    if rows == [] {
      return db, 0, Skipped;
    }
    db' := UpsertAuthors(db, authors, f.faults.authorWrite);
    var written := BulkUpsertPosts(db', rows, f.faults.postWrite);
    db', added, outcome := written.0, written.1, Completed;
  }

  /** posts_table_populate: every forum in turn, whatever happened to the
      ones before it; the total only ever grows. */
  method PostsTablePopulate(db: Db, forums: seq<ForumPosts>) returns (db': Db, total: nat)
    ensures (db', total) == RunPosts(db, forums)
  {
    db', total := db, 0;
    for i := 0 to |forums|
      invariant RunPosts(db', forums[i..]).0 == RunPosts(db, forums).0
      invariant total + RunPosts(db', forums[i..]).1 == RunPosts(db, forums).1
    {
      assert forums[i..][1..] == forums[i + 1..];
      var added, outcome;
      db', added, outcome := IngestForum(db', forums[i]);
      total := total + added;
    }
  }

  // ---------------------------------------------------------------------
  // Properties of a forum's iteration and of the run
  // ---------------------------------------------------------------------

  /** Every post row a forum adds is the normalised row, under the
      forum's id, of a fetched post whose id was not stored at forum start. */
  lemma IngestForumStoresOnlyNewPosts(db: Db, f: ForumPosts, sid: int)
    requires SubredditId(db, f.name, f.faults.lookup) == Some(sid)
    ensures var db' := IngestForumSpec(db, f).0;
      forall k :: k in db'.posts && k !in db.posts ==>
        exists p :: p in MergedPosts(f.top, f.hot, f.newest, f.controversial)
          && p.id == k && p.id !in PostIdsOf(db, sid, f.faults.existingIds)
          && db'.posts[k] == NormalizePost(p, sid)
  {
    var all := MergedPosts(f.top, f.hot, f.newest, f.controversial);
    var existing := PostIdsOf(db, sid, f.faults.existingIds);
    var rows := NewPostRows(all, existing, sid);
    NewPostRowsFrom(all, existing, sid);
    var db' := IngestForumSpec(db, f).0;
    forall k | k in db'.posts && k !in db.posts
      ensures exists p :: p in all && p.id == k && p.id !in existing && db'.posts[k] == NormalizePost(p, sid)
    {
      var r := db'.posts[k];
      assert r in rows && r.postId == k;
      var p :| p in all && p.id !in existing && RowOf(r, p);
      assert r == NormalizePost(p, sid);
    }
  }

  /** The count a forum adds is exactly the number of new post rows; stored
      posts are never changed; the forum list, comments and cleaned rows are
      untouched; authors only gain rows and keep their names. */
  lemma IngestForumAccounting(db: Db, f: ForumPosts)
    ensures var (db', n, _) := IngestForumSpec(db, f);
      && n == |db'.posts| - |db.posts|
      && db.posts.Keys <= db'.posts.Keys
      && (forall k :: k in db.posts ==> db'.posts[k] == db.posts[k])
      && db'.subreddits == db.subreddits && db'.comments == db.comments && db'.cleaned == db.cleaned
      && db.authors.Keys <= db'.authors.Keys
      && (forall a :: a in db.authors ==> db'.authors[a] == db.authors[a])
  {
    match SubredditId(db, f.name, f.faults.lookup)
    case None =>
    case Some(sid) =>
      WriteNewPostsAccounting(db, sid, MergedPosts(f.top, f.hot, f.newest, f.controversial),
                              PostIdsOf(db, sid, f.faults.existingIds), f.faults);
  }

  /** The run's total is exactly how many post rows the store gained, and
      the run only ever adds to the store. */
  lemma {:induction false} RunPostsAccounting(db: Db, forums: seq<ForumPosts>)
    ensures var (db', total) := RunPosts(db, forums);
      && total == |db'.posts| - |db.posts|
      && db.posts.Keys <= db'.posts.Keys
      && (forall k :: k in db.posts ==> db'.posts[k] == db.posts[k])
      && db'.subreddits == db.subreddits && db'.comments == db.comments && db'.cleaned == db.cleaned
      && db.authors.Keys <= db'.authors.Keys
      && (forall a :: a in db.authors ==> db'.authors[a] == db.authors[a])
    decreases |forums|
  {
    if forums != [] {
      IngestForumAccounting(db, forums[0]);
      var (db1, _, _) := IngestForumSpec(db, forums[0]);
      RunPostsAccounting(db1, forums[1..]);
    }
  }

  /** A forum that is not registered fails at id resolution, adds nothing
      and leaves the store as it was: the run is the run without it. */
  lemma {:induction false} UnregisteredForumDropsOut(db: Db, forums: seq<ForumPosts>, i: nat)
    requires i < |forums| && forums[i].name !in db.subreddits
    ensures RunPosts(db, forums) == RunPosts(db, forums[..i] + forums[i + 1..])
    decreases i
  {
    if i == 0 {
      assert forums[..0] + forums[1..] == forums[1..];
    } else {
      var rest := forums[..i] + forums[i + 1..];
      assert rest[0] == forums[0];
      assert rest[1..] == forums[1..][..i - 1] + forums[1..][i..];
      IngestForumAccounting(db, forums[0]);
      var (db1, _, _) := IngestForumSpec(db, forums[0]);
      UnregisteredForumDropsOut(db1, forums[1..], i - 1);
    }
  }

  /** Each fetched id is either stored at forum start or the key of a row. */
  lemma NewRowKeysCover(all: seq<RawPost>, existing: set<string>, sid: int)
    ensures KeysOf(all, RawKey) <= existing + KeysOf(NewPostRows(all, existing, sid), PostKey)
  {
    var rows := NewPostRows(all, existing, sid);
    NewPostRowsCover(all, existing, sid);
    forall k | k in KeysOf(all, RawKey) && k !in existing ensures k in KeysOf(rows, PostKey) {
      var i :| 0 <= i < |all| && all[i].id == k;
      assert all[i] in all;
      var j :| 0 <= j < |rows| && rows[j] == NormalizePost(all[i], sid);
      assert PostKey(rows[j]) == k;
    }
  }

  /** Once the accumulator is written, every reference of every row is stored. */
  lemma RowRefsStoredAfterAuthors(db: Db, sid: int, all: seq<RawPost>, existing: set<string>)
    requires sid in db.subreddits.Values
    ensures var db1 := UpsertAuthors(db, BatchAuthors(all, existing), false);
      forall r :: r in NewPostRows(all, existing, sid) ==> PostRefsStored(db1, r)
  {
    RowAuthorsInBatch(all, existing, sid);
    NewPostRowsFrom(all, existing, sid);
  }

  /** With no store error, authors are in place before the posts that
      reference them, so every fetched post is stored once the forum is done. */
  lemma WriteNewPostsStoresAll(db: Db, sid: int, all: seq<RawPost>, existing: set<string>)
    requires sid in db.subreddits.Values && existing <= db.posts.Keys
    ensures KeysOf(all, RawKey) <= WriteNewPosts(db, sid, all, existing, NoPostFaults).0.posts.Keys
  {
    var rows := NewPostRows(all, existing, sid);
    NewRowKeysCover(all, existing, sid);
    if rows != [] {
      var db1 := UpsertAuthors(db, BatchAuthors(all, existing), false);
      RowRefsStoredAfterAuthors(db, sid, all, existing);
      BulkUpsertPostsStoresAll(db1, rows);
    }
  }

  /** The keys of the rows are fetched ids that were not stored at forum start. */
  lemma RowKeysAreNewIds(all: seq<RawPost>, existing: set<string>, sid: int)
    ensures KeysOf(NewPostRows(all, existing, sid), PostKey) <= KeysOf(all, RawKey) - existing
  {
    var rows := NewPostRows(all, existing, sid);
    NewPostRowsFrom(all, existing, sid);
    forall j | 0 <= j < |rows| ensures PostKey(rows[j]) in KeysOf(all, RawKey) - existing {
      assert rows[j] in rows;
      var p :| p in all && p.id !in existing && RowOf(rows[j], p);
      var i :| 0 <= i < |all| && all[i] == p;
    }
  }

  /** A larger stored set yields fewer authors; no row means no author. */
  lemma BatchAuthorsShrink(all: seq<RawPost>, ex0: set<string>, ex1: set<string>, sid: int)
    requires ex0 <= ex1
    ensures BatchAuthors(all, ex1).Keys <= BatchAuthors(all, ex0).Keys
    ensures BatchAuthors(all, ex0) != map[] ==> NewPostRows(all, ex0, sid) != []
  {
    BatchAuthorsSpec(all, ex1);
    BatchAuthorsSpec(all, ex0);
    NewPostRowsCover(all, ex0, sid);
    if BatchAuthors(all, ex0) != map[] {
      var a :| a in BatchAuthors(all, ex0);
      var p :| p in all && p.id !in ex0 && p.author.Some? && p.author.value.fullname == a;
      assert NormalizePost(p, sid) in NewPostRows(all, ex0, sid);
    }
  }

  /** What a forum's write does to the store: post rows gained are counted
      exactly, stored rows stay, and only authors and posts change. */
  lemma WriteNewPostsAccounting(db: Db, sid: int, all: seq<RawPost>, existing: set<string>, faults: PostFaults)
    ensures var (db', n, _) := WriteNewPosts(db, sid, all, existing, faults);
      && n == |db'.posts| - |db.posts|
      && db.posts.Keys <= db'.posts.Keys
      && (forall k :: k in db.posts ==> db'.posts[k] == db.posts[k])
      && db' == db.(authors := db'.authors, posts := db'.posts)
      && db.authors.Keys <= db'.authors.Keys
      && (forall a :: a in db.authors ==> db'.authors[a] == db.authors[a])
  {
  }

  /** A second write whose ids and authors are all stored changes nothing. */
  lemma WriteStoredPostsIsNoop(db1: Db, sid: int, all: seq<RawPost>, ex0: set<string>, ex1: set<string>)
    requires ex0 <= ex1 && KeysOf(all, RawKey) <= db1.posts.Keys
    requires BatchAuthors(all, ex0) != map[] ==> BatchAuthors(all, ex0).Keys <= db1.authors.Keys
    ensures WriteNewPosts(db1, sid, all, ex1, NoPostFaults).0 == db1
    ensures WriteNewPosts(db1, sid, all, ex1, NoPostFaults).1 == 0
  {
    var rows := NewPostRows(all, ex1, sid);
    if rows != [] {
      var batch := BatchAuthors(all, ex1);
      BatchAuthorsShrink(all, ex0, ex1, sid);
      UpsertAuthorsAllPresent(db1, batch);
      RowKeysAreNewIds(all, ex1, sid);
      InsertIgnoreAllPresent(db1.posts, rows, PostKey);
    }
  }

  /** Writing the same fetched posts a second time, against the store the
      first write left and with no store error, inserts nothing and changes
      nothing. */
  lemma WriteNewPostsIdempotent(db: Db, sid: int, all: seq<RawPost>)
    requires sid in db.subreddits.Values
    ensures var db1 := WriteNewPosts(db, sid, all, PostIdsOf(db, sid, false), NoPostFaults).0;
      WriteNewPosts(db1, sid, all, PostIdsOf(db1, sid, false), NoPostFaults).0 == db1
      && WriteNewPosts(db1, sid, all, PostIdsOf(db1, sid, false), NoPostFaults).1 == 0
  {
    var ex0 := PostIdsOf(db, sid, false);
    var db1 := WriteNewPosts(db, sid, all, ex0, NoPostFaults).0;
    WriteNewPostsStoresAll(db, sid, all, ex0);
    WriteNewPostsAccounting(db, sid, all, ex0, NoPostFaults);
    BatchAuthorsShrink(all, ex0, ex0, sid);
    WriteStoredPostsIsNoop(db1, sid, all, ex0, PostIdsOf(db1, sid, false));
  }

  /** Running a forum a second time against the same remote data, with no
      store error, inserts nothing and changes nothing. */
  lemma IngestForumIdempotent(db: Db, f: ForumPosts)
    requires f.faults == NoPostFaults
    ensures var (db1, _, _) := IngestForumSpec(db, f);
      var (db2, n2, _) := IngestForumSpec(db1, f);
      db2 == db1 && n2 == 0
  {
    if f.name in db.subreddits {
      var sid := db.subreddits[f.name];
      var all := MergedPosts(f.top, f.hot, f.newest, f.controversial);
      WriteNewPostsIdempotent(db, sid, all);
    }
  }
}
