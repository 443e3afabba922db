/** The comment cleaner: comments without a cleaned row are read in batches
    of at most 100; each body loses its URLs, every character that is not an
    ASCII letter or whitespace and its stop words; the words left are stored
    lower-cased, joined by single spaces, with their count. */
module CommentCleaner {
  import opened Store

  // ---------------------------------------------------------------------
  // Characters
  // ---------------------------------------------------------------------

  /** Python's str.isspace, which both `\s` in a str pattern and
      str.split() use: tab to carriage return, the four information
      separators, space, next line, no-break space and the Unicode
      space separators, line and paragraph separators. */
  predicate IsSpace(c: char)
  {
    || '\t' <= c <= '\r'
    || '\U{001C}' <= c <= ' '
    || c == '\U{0085}' || c == '\U{00A0}' || c == '\U{1680}'
    || '\U{2000}' <= c <= '\U{200A}'
    || c == '\U{2028}' || c == '\U{2029}' || c == '\U{202F}' || c == '\U{205F}' || c == '\U{3000}'
  }

  predicate IsAsciiLetter(c: char)
  {
    'a' <= c <= 'z' || 'A' <= c <= 'Z'
  }

  predicate IsLowerLetter(c: char)
  {
    'a' <= c <= 'z'
  }

  /** str.lower on the characters that survive the letter filter: ASCII
      capitals move to lower case, whitespace is left alone. */
  function LowerChar(c: char): char
  {
    if 'A' <= c <= 'Z' then (c as int + 32) as char else c
  }

  // ---------------------------------------------------------------------
  // URL removal: re.sub(r"http\S+", "", text)
  // ---------------------------------------------------------------------

  /** The pattern matches here: "http" followed by a non-space character. */
  predicate IsUrlAt(s: string)
  {
    |s| >= 5 && s[0] == 'h' && s[1] == 't' && s[2] == 't' && s[3] == 'p' && !IsSpace(s[4])
  }

  /** No position of the text starts a match. */
  predicate NoUrl(s: string)
  {
    forall i :: 0 <= i < |s| ==> !IsUrlAt(s[i..])
  }

  /** What follows the greedy `\S+`: the text after its leading run of
      non-space characters. */
  function SkipNonSpace(s: string): (r: string)
    ensures |r| <= |s| && r == s[|s| - |r|..]
    ensures r == [] || IsSpace(r[0])
    ensures forall i :: 0 <= i < |s| - |r| ==> !IsSpace(s[i])
  {
    if s == [] || IsSpace(s[0]) then s else SkipNonSpace(s[1..])
  }

  /** The leftmost-first, non-overlapping substitution: a match is cut out
      up to the next whitespace; any other character is kept and the scan
      moves on by one. */
  function StripUrls(s: string): string
    decreases |s|
  {
    if s == [] then []
    else if IsUrlAt(s) then StripUrls(SkipNonSpace(s[4..]))
    else [s[0]] + StripUrls(s[1..])
  }

  /** The output starts with a copy of the input's first `j` characters,
      followed by whitespace or nothing. */
  lemma {:induction false} StripUrlsHead(s: string) returns (j: nat)
    ensures j <= |s| && j <= |StripUrls(s)|
    ensures forall k :: 0 <= k < j ==> StripUrls(s)[k] == s[k]
    ensures j == |StripUrls(s)| || IsSpace(StripUrls(s)[j])
    decreases |s|
  {
    if s == [] {
      j := 0;
    } else if IsUrlAt(s) {
      var u := SkipNonSpace(s[4..]);
      j := 0;
      if u != [] {
        assert StripUrls(u)[0] == u[0];
      }
    } else {
      var t := s[1..];
      var j' := StripUrlsHead(t);
      j := j' + 1;
      var r := StripUrls(s);
      assert r == [s[0]] + StripUrls(t);
      forall k | 0 < k < j ensures r[k] == s[k] {
        assert r[k] == StripUrls(t)[k - 1];
        assert s[k] == t[k - 1];
      }
    }
  }

  /** After the substitution no "http" followed by a non-space character
      is left: a cut never glues two pieces into a new match, because what
      follows a cut is whitespace. */
  lemma {:induction false} StripUrlsRemovesAll(s: string)
    ensures NoUrl(StripUrls(s))
    decreases |s|
  {
    if s != [] {
      if IsUrlAt(s) {
        StripUrlsRemovesAll(SkipNonSpace(s[4..]));
      } else {
        var t := s[1..];
        var rt := StripUrls(t);
        var r := StripUrls(s);
        assert r == [s[0]] + rt;
        StripUrlsRemovesAll(t);
        StripUrlsHeadKept(s);
        forall i | 0 < i < |r| ensures !IsUrlAt(r[i..]) {
          assert r[i..] == rt[i - 1..];
        }
      }
    }
  }

  /** A character kept by the scan does not start a match in the output. */
  lemma StripUrlsHeadKept(s: string)
    requires s != [] && !IsUrlAt(s)
    ensures !IsUrlAt(StripUrls(s))
  {
    var t := s[1..];
    var rt := StripUrls(t);
    var r := StripUrls(s);
    assert r == [s[0]] + rt;
    var j := StripUrlsHead(t);
    if |r| >= 5 {
      assert r[0] == s[0];
      if j >= 4 {
        assert r[1] == rt[0] == t[0] == s[1];
        assert r[2] == rt[1] == t[1] == s[2];
        assert r[3] == rt[2] == t[2] == s[3];
        assert r[4] == rt[3] == t[3] == s[4];
      } else {
        assert r[j + 1] == rt[j];
        assert IsSpace(r[j + 1]);
      }
    }
  }

  /** Text without a match passes through unchanged; with the lemma above,
      the substitution is idempotent. */
  lemma {:induction false} StripUrlsKeepsClean(s: string)
    requires NoUrl(s)
    ensures StripUrls(s) == s
    decreases |s|
  {
    if s != [] {
      assert !IsUrlAt(s[0..]);
      assert s[0..] == s;
      forall i | 0 <= i < |s[1..]| ensures !IsUrlAt(s[1..][i..]) {
        assert s[1..][i..] == s[i + 1..];
      }
      StripUrlsKeepsClean(s[1..]);
    }
  }

  lemma StripUrlsIdempotent(s: string)
    ensures StripUrls(StripUrls(s)) == StripUrls(s)
  {
    StripUrlsRemovesAll(s);
    StripUrlsKeepsClean(StripUrls(s));
  }

  // ---------------------------------------------------------------------
  // Letter filter and case: re.sub(r"[^a-zA-Z\s]", "", text).lower()
  // ---------------------------------------------------------------------

  /** Only ASCII letters and whitespace stay, in their order. */
  function KeepLettersAndSpace(s: string): (r: string)
    ensures |r| <= |s|
    ensures forall c :: c in r <==> c in s && (IsAsciiLetter(c) || IsSpace(c))
    decreases |s|
  {
    if s == [] then []
    else (if IsAsciiLetter(s[0]) || IsSpace(s[0]) then [s[0]] else []) + KeepLettersAndSpace(s[1..])
  }

  function Lower(s: string): string
  {
    seq(|s|, i requires 0 <= i < |s| => LowerChar(s[i]))
  }

  /** After the filter and the case change, every character is a
      lower-case letter or whitespace. */
  lemma LowerLettersAndSpace(s: string)
    ensures forall c :: c in Lower(KeepLettersAndSpace(s)) ==> IsLowerLetter(c) || IsSpace(c)
  {
    var k := KeepLettersAndSpace(s);
    forall c | c in Lower(k) ensures IsLowerLetter(c) || IsSpace(c) {
      var i :| 0 <= i < |k| && Lower(k)[i] == c;
      assert k[i] in k;
    }
  }

  // ---------------------------------------------------------------------
  // Words: str.split() and " ".join
  // ---------------------------------------------------------------------

  /** A token of str.split(): non-empty, no whitespace. */
  predicate IsWord(w: string)
  {
    w != [] && forall c :: c in w ==> !IsSpace(c)
  }

  /** The leading run of non-space characters. */
  function TakeWord(s: string): (w: string)
    ensures |w| <= |s| && w == s[..|w|]
    ensures forall c :: c in w ==> !IsSpace(c)
    ensures |w| == |s| || IsSpace(s[|w|])
  {
    if s == [] || IsSpace(s[0]) then [] else [s[0]] + TakeWord(s[1..])
  }

  /** str.split() with no separator: the maximal runs of non-space
      characters, in order. */
  function Split(s: string): (ws: seq<string>)
    ensures forall w :: w in ws ==> IsWord(w) && forall c :: c in w ==> c in s
    decreases |s|
  {
    if s == [] then []
    else if IsSpace(s[0]) then Split(s[1..])
    else
      var w := TakeWord(s);
      [w] + Split(s[|w|..])
  }

  function Join(ws: seq<string>): string
  {
    if ws == [] then []
    else if |ws| == 1 then ws[0]
    else ws[0] + " " + Join(ws[1..])
  }

  function RemoveSpaces(s: string): string
  {
    if s == [] then [] else (if IsSpace(s[0]) then [] else [s[0]]) + RemoveSpaces(s[1..])
  }

  function Concat(ws: seq<string>): string
  {
    if ws == [] then [] else ws[0] + Concat(ws[1..])
  }

  lemma {:induction false} RemoveSpacesAppend(a: string, b: string)
    ensures RemoveSpaces(a + b) == RemoveSpaces(a) + RemoveSpaces(b)
    decreases |a|
  {
    if a != [] {
      assert (a + b)[1..] == a[1..] + b;
      RemoveSpacesAppend(a[1..], b);
    } else {
      assert a + b == b;
    }
  }

  lemma {:induction false} RemoveSpacesOfWord(w: string)
    requires forall c :: c in w ==> !IsSpace(c)
    ensures RemoveSpaces(w) == w
    decreases |w|
  {
    if w != [] {
      assert w[0] in w;
      RemoveSpacesOfWord(w[1..]);
    }
  }

  /** Splitting loses only the whitespace: the words, put back together,
      are the text's non-space characters in order. */
  lemma {:induction false} SplitKeepsText(s: string)
    ensures Concat(Split(s)) == RemoveSpaces(s)
    decreases |s|
  {
    if s != [] {
      if IsSpace(s[0]) {
        SplitKeepsText(s[1..]);
      } else {
        var w := TakeWord(s);
        var rest := s[|w|..];
        assert s == w + rest;
        RemoveSpacesAppend(w, rest);
        RemoveSpacesOfWord(w);
        SplitKeepsText(rest);
        assert Split(s) == [w] + Split(rest);
      }
    }
  }

  /** The word taken from a word followed by whitespace or nothing is that word. */
  lemma {:induction false} TakeWordOf(w: string, rest: string)
    requires forall c :: c in w ==> !IsSpace(c)
    requires rest == [] || IsSpace(rest[0])
    ensures TakeWord(w + rest) == w
    decreases |w|
  {
    if w == [] {
      assert w + rest == rest;
    } else {
      assert w[0] in w;
      assert (w + rest)[1..] == w[1..] + rest;
      TakeWordOf(w[1..], rest);
    }
  }

  /** Splitting a word followed by whitespace or nothing gives the word,
      then the words of the rest. */
  lemma SplitWordThen(w: string, rest: string)
    requires IsWord(w)
    requires rest == [] || IsSpace(rest[0])
    ensures Split(w + rest) == [w] + Split(rest)
  {
    assert w[0] in w;
    TakeWordOf(w, rest);
    assert (w + rest)[0] == w[0];
    assert (w + rest)[|w|..] == rest;
  }

  /** Joining words with single spaces and splitting again gives the words
      back. */
  lemma {:induction false} SplitJoin(ws: seq<string>)
    requires forall w :: w in ws ==> IsWord(w)
    ensures Split(Join(ws)) == ws
    decreases |ws|
  {
    if ws != [] {
      var w := ws[0];
      assert IsWord(w);
      if |ws| == 1 {
        SplitWordThen(w, []);
        assert w + [] == w;
      } else {
        var rest := " " + Join(ws[1..]);
        assert Join(ws) == w + rest;
        SplitWordThen(w, rest);
        assert rest[1..] == Join(ws[1..]);
        assert forall v :: v in ws[1..] ==> v in ws;
        SplitJoin(ws[1..]);
      }
    }
  }

  /** The characters of joined words: theirs and single spaces. */
  lemma {:induction false} JoinAlphabet(ws: seq<string>)
    requires forall w :: w in ws ==> forall c :: c in w ==> IsLowerLetter(c)
    ensures forall c :: c in Join(ws) ==> IsLowerLetter(c) || c == ' '
    decreases |ws|
  {
    if |ws| > 1 {
      assert forall w :: w in ws[1..] ==> w in ws;
      JoinAlphabet(ws[1..]);
      assert ws[0] in ws;
    } else if |ws| == 1 {
      assert ws[0] in ws;
    }
  }

  /** Single spaces between the words, none at either end. */
  predicate SingleSpaced(s: string)
  {
    && (s != [] ==> s[0] != ' ' && s[|s| - 1] != ' ')
    && forall i :: 0 <= i < |s| - 1 && s[i] == ' ' ==> s[i + 1] != ' '
  }

  lemma {:induction false} JoinSingleSpaced(ws: seq<string>)
    requires forall w :: w in ws ==> IsWord(w)
    ensures SingleSpaced(Join(ws))
    ensures ws != [] ==> Join(ws) != []
    decreases |ws|
  {
    if ws != [] {
      var w := ws[0];
      assert IsWord(w);
      assert w[0] in w && w[|w| - 1] in w;
      if |ws| == 1 {
        forall i | 0 <= i < |w| - 1 ensures w[i] != ' ' {
          assert w[i] in w;
        }
      } else {
        var j := Join(ws[1..]);
        assert forall v :: v in ws[1..] ==> v in ws;
        JoinSingleSpaced(ws[1..]);
        var s := w + " " + j;
        assert Join(ws) == s;
        forall i | 0 <= i < |s| - 1 ensures s[i] == ' ' ==> s[i + 1] != ' ' {
          if i < |w| {
            assert s[i] == w[i] && w[i] in w;
          } else if i > |w| {
            assert s[i] == j[i - |w| - 1] && s[i + 1] == j[i - |w|];
          }
        }
        assert s[|s| - 1] == j[|j| - 1];
      }
    }
  }

  // ---------------------------------------------------------------------
  // Stop words and the whole cleaning
  // ---------------------------------------------------------------------

  /** The words that are not stop words, in order. */
  function RemoveStopWords(ws: seq<string>, stopWords: set<string>): (r: seq<string>)
    ensures |r| <= |ws|
    ensures forall w :: w in r <==> w in ws && w !in stopWords
    decreases |ws|
  {
    if ws == [] then []
    else (if ws[0] in stopWords then [] else [ws[0]]) + RemoveStopWords(ws[1..], stopWords)
  }

  /** Dropping stop words keeps the order: the filter of two pieces is
      the filter of the first followed by that of the second. */
  lemma {:induction false} RemoveStopWordsAppend(a: seq<string>, b: seq<string>, stopWords: set<string>)
    ensures RemoveStopWords(a + b, stopWords) == RemoveStopWords(a, stopWords) + RemoveStopWords(b, stopWords)
    decreases |a|
  {
    if a == [] {
      assert a + b == b;
    } else {
      assert (a + b)[1..] == a[1..] + b;
      RemoveStopWordsAppend(a[1..], b, stopWords);
    }
  }

  /** The words clean_text keeps. */
  function CleanWords(text: string, stopWords: set<string>): seq<string>
  {
    RemoveStopWords(Split(Lower(KeepLettersAndSpace(StripUrls(text)))), stopWords)
  }

  /** clean_text: the cleaned body and its word count. The body is made of
      lower-case letters and single spaces; splitting it gives back exactly
      the kept words, so the count is the number of its words and it is
      zero exactly when the body is empty; no stop word is left; and its
      words are the filtered text's words with the stop words taken out. */
  function CleanText(text: string, stopWords: set<string>): (r: (string, nat))
    ensures forall c :: c in r.0 ==> IsLowerLetter(c) || c == ' '
    ensures SingleSpaced(r.0)
    ensures Split(r.0) == CleanWords(text, stopWords)
    ensures r.1 == |Split(r.0)|
    ensures r.1 == 0 <==> r.0 == []
    ensures forall w :: w in Split(r.0) ==> w !in stopWords
    ensures Join(Split(r.0)) == r.0
  {
    var letters := Lower(KeepLettersAndSpace(StripUrls(text)));
    var kept := RemoveStopWords(Split(letters), stopWords);
    LowerLettersAndSpace(StripUrls(text));
    SplitJoin(kept);
    JoinAlphabet(kept);
    JoinSingleSpaced(kept);
    (Join(kept), |kept|)
  }

  // ---------------------------------------------------------------------
  // cleaned_comments_populate
  // ---------------------------------------------------------------------

  /** The row limit of the selection query. */
  const SelectLimit := 100

  /** A selected comment: its id and its body. */
  datatype Pending = Pending(commentId: string, body: string)

  /** The comments with no cleaned row (the anti-join). */
  function Candidates(db: Db): set<string>
  {
    set id | id in db.comments.Keys && id !in db.cleaned
  }

  /** The id a selected comment is keyed by. */
  function PendingKey(p: Pending): string { p.commentId }

  /** get_comments' answer: nothing on a store error; otherwise
      min(100, pending) comments without a cleaned row, in no particular
      order, each once, each with its stored body, and all of them when
      there are no more than 100. */
  predicate IsSelection(db: Db, storeError: bool, sel: seq<Pending>)
  {
    && (storeError ==> sel == [])
    && (!storeError ==> |sel| == if |Candidates(db)| < SelectLimit then |Candidates(db)| else SelectLimit)
    && KeysOf(sel, PendingKey) <= Candidates(db)
    && (!storeError && |Candidates(db)| <= SelectLimit ==> KeysOf(sel, PendingKey) == Candidates(db))
    && (forall i :: 0 <= i < |sel| ==> sel[i].commentId in db.comments && sel[i].body == db.comments[sel[i].commentId].body)
    && (forall i, j :: 0 <= i < j < |sel| ==> sel[i].commentId != sel[j].commentId)
  }

  /** get_comments: the selection query. */
  method GetComments(db: Db, storeError: bool) returns (sel: seq<Pending>)
    ensures IsSelection(db, storeError, sel)
  {
    if storeError {
      return [];
    }
    var ids := ChooseIds(Candidates(db), SelectLimit);
    sel := seq(|ids|, i requires 0 <= i < |ids| => Pending(ids[i], db.comments[ids[i]].body));
    assert KeysOf(sel, PendingKey) == set i | 0 <= i < |ids| :: ids[i] by {
      forall k | k in KeysOf(sel, PendingKey) ensures k in ids {
        var i :| 0 <= i < |sel| && sel[i].commentId == k;
      }
      forall i | 0 <= i < |ids| ensures ids[i] in KeysOf(sel, PendingKey) {
        assert sel[i].commentId == ids[i];
      }
    }
  }

  /** LIMIT without ORDER BY: up to `limit` elements of `s`, each once, in
      an order the store chooses; all of `s` when it is small enough. */
  method ChooseIds(s: set<string>, limit: nat) returns (ids: seq<string>)
    ensures |ids| == if |s| < limit then |s| else limit
    ensures forall i :: 0 <= i < |ids| ==> ids[i] in s
    ensures |s| <= limit ==> (set i | 0 <= i < |ids| :: ids[i]) == s
    ensures forall i, j :: 0 <= i < j < |ids| ==> ids[i] != ids[j]
  {
    ids := [];
    var rest := s;
    while rest != {} && |ids| < limit
      invariant rest <= s
      invariant forall x :: x in ids <==> x in s - rest
      invariant |ids| + |rest| == |s|
      invariant |ids| <= limit
      invariant forall i, j :: 0 <= i < j < |ids| ==> ids[i] != ids[j]
      decreases rest
    {
      var id :| id in rest;
      assert id !in ids;
      ids := ids + [id];
      rest := rest - {id};
    }
    assert (set i | 0 <= i < |ids| :: ids[i]) == s - rest by {
      forall x | x in s - rest ensures x in (set i | 0 <= i < |ids| :: ids[i]) {
        var i :| 0 <= i < |ids| && ids[i] == x;
      }
    }
    forall i | 0 <= i < |ids| ensures ids[i] in s {
      assert ids[i] in ids;
    }
  }

  /** The cleaned row of a selected comment. */
  function CleanRow(p: Pending, stopWords: set<string>): CleanedRow
  {
    var cleaned := CleanText(p.body, stopWords);
    CleanedRow(p.commentId, cleaned.0, cleaned.1)
  }

  /** The loop of cleaned_comments_populate: one result row per selected
      comment, in order, each the comment's cleaned row. */
  method CleanRows(selected: seq<Pending>, stopWords: set<string>) returns (results: seq<CleanedRow>)
    ensures |results| == |selected|
    ensures forall k :: 0 <= k < |results| ==> results[k] == CleanRow(selected[k], stopWords)
  {
    results := [];
    for i := 0 to |selected|
      invariant |results| == i
      invariant forall k :: 0 <= k < i ==> results[k] == CleanRow(selected[k], stopWords)
    {
      var row := CleanRow(selected[i], stopWords);
      assert (results + [row])[..i] == results;
      results := results + [row];
    }
  }

  /** cleaned_comments_populate: select with get_comments, clean each
      selected comment's stored body in order, write the batch once. Only the cleaned rows change and the
      stored ones keep their values; without a write error every selected
      comment gets exactly its cleaned row and the count is the number
      selected; an empty selection writes nothing. */
  method CleanedCommentsPopulate(db: Db, stopWords: set<string>, fetchError: bool, insertError: bool)
    returns (db': Db, selected: seq<Pending>, inserted: nat)
    ensures selected == [] ==> db' == db && inserted == 0
    ensures db' == db.(cleaned := db'.cleaned)
    ensures db.cleaned.Keys <= db'.cleaned.Keys
    ensures forall k :: k in db.cleaned ==> db'.cleaned[k] == db.cleaned[k]
    ensures inserted == |db'.cleaned| - |db.cleaned|
    ensures insertError ==> db' == db && inserted == 0
    ensures !insertError ==> inserted == |selected|
    ensures !insertError ==> forall i :: 0 <= i < |selected| ==>
      (selected[i].commentId in db'.cleaned && db'.cleaned[selected[i].commentId] == CleanRow(selected[i], stopWords))
    ensures IsSelection(db, fetchError, selected)
  {
    selected := GetComments(db, fetchError);
    if selected == [] {
      return db, selected, 0;
    }
    var results := CleanRows(selected, stopWords);
    var written := BulkInsertCleaned(db, results, insertError);
    if insertError {
      assert written == (db, 0);
      return db, selected, 0;
    }
    db', inserted := written.0, written.1;
    CleanedRowsAllStored(db, selected, results);
    forall i | 0 <= i < |selected|
      ensures selected[i].commentId in db'.cleaned && db'.cleaned[selected[i].commentId] == CleanRow(selected[i], stopWords)
    {
      assert results[i] == CleanRow(selected[i], stopWords);
    }
  }

  /** The cleaned rows of a selection all go in: each under its comment's
      id, and the count is the number of rows. */
  lemma CleanedRowsAllStored(db: Db, selected: seq<Pending>, results: seq<CleanedRow>)
    requires KeysOf(selected, PendingKey) <= Candidates(db)
    requires forall i, j :: 0 <= i < j < |selected| ==> selected[i].commentId != selected[j].commentId
    requires |results| == |selected| > 0
    requires forall k :: 0 <= k < |results| ==> results[k].commentId == selected[k].commentId
    ensures BulkInsertCleaned(db, results, false).1 == |results|
    ensures forall i :: 0 <= i < |results| ==>
      (results[i].commentId in BulkInsertCleaned(db, results, false).0.cleaned
       && BulkInsertCleaned(db, results, false).0.cleaned[results[i].commentId] == results[i])
  {
    CleanedRowsFresh(db, selected, results);
    InsertIgnoreAllNew(db.cleaned, results, CleanedKey);
  }

  /** The cleaned rows of a selection have the selection's distinct, new
      ids, and each names a stored comment. */
  lemma CleanedRowsFresh(db: Db, selected: seq<Pending>, results: seq<CleanedRow>)
    requires KeysOf(selected, PendingKey) <= Candidates(db)
    requires forall i, j :: 0 <= i < j < |selected| ==> selected[i].commentId != selected[j].commentId
    requires |results| == |selected|
    requires forall k :: 0 <= k < |results| ==> results[k].commentId == selected[k].commentId
    ensures DistinctKeys(results, CleanedKey)
    ensures KeysOf(results, CleanedKey) !! db.cleaned.Keys
    ensures forall r :: r in results ==> CleanedRefStored(db, r)
  {
    forall k | k in KeysOf(results, CleanedKey) ensures k !in db.cleaned {
      var i :| 0 <= i < |results| && CleanedKey(results[i]) == k;
      assert selected[i].commentId in KeysOf(selected, PendingKey);
    }
    forall r | r in results ensures CleanedRefStored(db, r) {
      var i :| 0 <= i < |results| && results[i] == r;
      assert selected[i].commentId in KeysOf(selected, PendingKey);
    }
  }
}
