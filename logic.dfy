/**
 * logic.py, outside the two sentence groupers: turning an article into the
 * chunk rows it is stored as, the duplicate decision of `save_if_new`, the
 * pagination cursor of `recent_urls` and the date of a version-1 UUID.
 */
module Logic {
  import opened Wrappers
  import opened Text
  import opened Uuid
  import opened Chunker
  import Db
  import Rehydrate
  import Util

  /** The token budget `_save_article` gives `_group_sentences_with_overlap`. */
  const ChunkBudget: nat := 100
  /** The page size of `recent_urls`. */
  const RecentLimit: nat := 10

  /** `[sentence.strip() for sentence in sentences]`. */
  function StripAll(sentences: seq<string>): (r: seq<string>)
    ensures |r| == |sentences|
  {
    seq(|sentences|, i requires 0 <= i < |sentences| => Strip(sentences[i]))
  }

  /** `zip(a, b)`: pairs by position, as long as the shorter one. */
  function Zip<A, B>(a: seq<A>, b: seq<B>): (r: seq<(A, B)>)
    ensures |r| == if |a| <= |b| then |a| else |b|
    ensures forall k :: 0 <= k < |r| ==> r[k] == (a[k], b[k])
  {
    if a == [] || b == [] then [] else [(a[0], b[0])] + Zip(a[1..], b[1..])
  }

  /** The sentences `_save_article` groups: `nltk.sent_tokenize` of the collapsed text, each stripped. */
  function ArticleSentences(text: string, sentTokenize: string -> seq<string>): seq<string> {
    StripAll(sentTokenize(CollapseWhitespace(text)))
  }

  /**
   * The chunk texts `_save_article` stores for an article: the groups of
   * its sentences joined, preceded by the title when the title does not
   * occur in the text.
   */
  function ArticleTexts(text: string, title: string, sentTokenize: string -> seq<string>, tokens: string -> nat): seq<string>
    requires AllBisectionsEnd(ArticleSentences(text, sentTokenize), ChunkBudget, tokens)
  {
    ChunkTexts(CollapseWhitespace(title), CollapseWhitespace(text),
               OverlapGroups(ArticleSentences(text, sentTokenize), ChunkBudget, tokens))
  }

  /**
   * `_save_article`: the page row and the chunk texts zipped with their
   * vectors, handed to `upsert_chunks`, and what that call does with them:
   * the chunk rounds it submits and the exception it raises when chunks
   * are left. `sentTokenize`, `tokens`, `encode` and `execute` stand for
   * `nltk.sent_tokenize`, the tiktoken token count, the Gemini embedder and
   * the concurrent chunk inserts. The grouping returns only when the
   * bisections of every sentence end.
   */
  method SaveArticle(
    text: string, fingerprint: seq<real>, url: string, title: string, userId: Uuid, urlId: Option<Uuid>,
    sentTokenize: string -> seq<string>, tokens: string -> nat, encode: seq<string> -> seq<seq<real>>,
    execute: (nat, seq<Db.ChunkRow>) -> seq<bool>)
    returns (page: Db.PageRow, chunks: seq<(string, seq<real>)>, rounds: seq<seq<Db.ChunkRow>>, r: Result<(), Db.UpsertError>)
    requires AllBisectionsEnd(ArticleSentences(text, sentTokenize), ChunkBudget, tokens)
    ensures page == Db.PageRow(userId, urlId, url, CollapseWhitespace(title), CollapseWhitespace(text), fingerprint)
    ensures Collapsed(page.title) && Collapsed(page.textContent)
    // the groups: non-empty, within budget, every part of every sentence in order, with the overlap copies
    ensures var sentences := ArticleSentences(text, sentTokenize);
      GroupedWithOverlap(OverlapGroups(sentences, ChunkBudget, tokens), AllParts(sentences, ChunkBudget, tokens), ChunkBudget, tokens)
    // chunk texts and vectors are paired by position
    ensures var texts := ArticleTexts(text, title, sentTokenize, tokens);
      chunks == Zip(texts, encode(texts))
    // the retry rounds of `upsert_chunks`, and its exception exactly when chunk rows are left after them
    ensures rounds == Db.Submitted(Db.Denormalize(page, chunks), execute, 0, 1)
    ensures r.Failure? <==> Db.Leftover(Db.Denormalize(page, chunks), execute, 0, 1) != []
    ensures r.Failure? ==> r.error.count == |Db.Leftover(Db.Denormalize(page, chunks), execute, 0, 1)|
  {
    var cleanText := CollapseWhitespace(text);
    var cleanTitle := CollapseWhitespace(title);
    CollapseWhitespaceIsCollapsed(text);
    CollapseWhitespaceIsCollapsed(title);
    var sentences := StripAll(sentTokenize(cleanText));
    var sentenceGroups := GroupWithOverlap(sentences, ChunkBudget, tokens);
    var groupTexts := ChunkTexts(cleanTitle, cleanText, sentenceGroups);
    var vectors := encode(groupTexts);
    page := Db.PageRow(userId, urlId, url, cleanTitle, cleanText, fingerprint);
    chunks := Zip(groupTexts, vectors);
    var pageWrites;
    pageWrites, rounds, r := Db.UpsertChunks(page, chunks, execute);
  }

  /**
   * The chunk texts of `_save_article`: each group joined with spaces,
   * preceded by the title when the title does not occur in the text.
   */
  function ChunkTexts(title: string, text: string, groups: seq<seq<string>>): (texts: seq<string>)
    ensures IsSubstring(title, text) ==> |texts| == |groups|
    ensures !IsSubstring(title, text) ==> |texts| == |groups| + 1 && texts[0] == title
    ensures forall k :: 0 <= k < |groups| ==> texts[|texts| - |groups| + k] == Join(groups[k], " ")
  {
    var joined := seq(|groups|, k requires 0 <= k < |groups| => Join(groups[k], " "));
    if IsSubstring(title, text) then joined else [title] + joined
  }

  /**
   * `save_if_new` from the fingerprint on: the page is a duplicate when
   * `similar_page_exists` finds a match scoring `topScore` at or above the
   * threshold, and `False` is returned. Otherwise the article goes through
   * `_save_article`: `written` is the page row and chunks it hands to
   * `upsert_chunks`, and the result is `True`, or the exception
   * `upsert_chunks` raises when chunk rows are still left after its last
   * round. The page row is written in both cases.
   */
  method SaveIfNew(
    url: string, title: string, text: string, userId: Uuid, urlId: Option<Uuid>,
    fingerprint: seq<real>, topScore: Option<real>,
    sentTokenize: string -> seq<string>, tokens: string -> nat, encode: seq<string> -> seq<seq<real>>,
    execute: (nat, seq<Db.ChunkRow>) -> seq<bool>)
    returns (r: Result<bool, Db.UpsertError>, written: Option<(Db.PageRow, seq<(string, seq<real>)>)>)
    requires !Db.SimilarPageExists(topScore) ==> AllBisectionsEnd(ArticleSentences(text, sentTokenize), ChunkBudget, tokens)
    ensures r == Success(false) <==> Db.SimilarPageExists(topScore)
    ensures written.Some? <==> !Db.SimilarPageExists(topScore)
    ensures written.Some? ==>
      written.value.0 == Db.PageRow(userId, urlId, url, CollapseWhitespace(title), CollapseWhitespace(text), fingerprint)
    ensures written.Some? ==>
      var texts := ArticleTexts(text, title, sentTokenize, tokens);
      written.value.1 == Zip(texts, encode(texts))
    // saved exactly when no similar page exists and every chunk row got in
    ensures r == Success(true) <==>
      written.Some? && Db.Leftover(Db.Denormalize(written.value.0, written.value.1), execute, 0, 1) == []
    ensures r.Failure? ==>
      written.Some? && r.error.count == |Db.Leftover(Db.Denormalize(written.value.0, written.value.1), execute, 0, 1)| > 0
  {
    if Db.SimilarPageExists(topScore) {
      return Success(false), None;
    }
    var page, chunks, rounds, upserted := SaveArticle(text, fingerprint, url, title, userId, urlId, sentTokenize, tokens, encode, execute);
    written := Some((page, chunks));
    if upserted.Failure? {
      return Failure(upserted.error), written;
    }
    r := Success(true);
  }

  // ---------------------------------------------------------------------
  // Dates of version-1 UUIDs

  /** The field ranges every `uuid.UUID` has, which `UUID.time` relies on. */
  predicate TimeFieldsInRange(u: Uuid) {
    u.timeLow < TwoTo32 && u.timeMid < TwoTo16
  }

  /**
   * `_uuid1_to_datetime`, with a `datetime` written as the number of
   * microseconds since 1582-10-15 00:00:00: the UUID time (100-ns units)
   * floor-divided by ten.
   */
  function Uuid1ToDatetime(u: Uuid): (micros: nat)
    requires TimeFieldsInRange(u)
    ensures micros * 10 <= Time(u) < micros * 10 + 10
  {
    Time(u) / 10
  }

  /** 1970-01-01 00:00:00 in microseconds since 1582-10-15 00:00:00. */
  const UnixEpochMicros: int := 12219292800000000

  // ---------------------------------------------------------------------
  // recent_urls

  /** A row of `DB.recent_urls`. */
  datatype RecentRow = RecentRow(fullUrl: string, title: string, urlId: Uuid)

  /** A row after `recent_urls` has added `saved_at` and `saved_at_human`. */
  datatype RecentEntry = RecentEntry(fullUrl: string, title: string, urlId: Uuid, savedAt: nat, savedAtHuman: string)

  /** `min(xs)`. */
  function Min(xs: seq<int>): (m: int)
    requires xs != []
    ensures m in xs
    ensures forall x :: x in xs ==> m <= x
  {
    if |xs| == 1 then xs[0]
    else
      var rest := Min(xs[1..]);
      assert forall x :: x in xs[1..] ==> rest <= x;
      assert forall x :: x in xs ==> x == xs[0] || x in xs[1..];
      if xs[0] <= rest then xs[0] else rest
  }

  /** The `saved_at` of each entry. */
  function SavedAts(entries: seq<RecentEntry>): (ts: seq<int>)
    ensures |ts| == |entries|
    ensures forall k :: 0 <= k < |ts| ==> ts[k] == entries[k].savedAt
  {
    seq(|entries|, k requires 0 <= k < |entries| => entries[k].savedAt)
  }

  /**
   * `recent_urls` after the query: each row gets its save date from its
   * UUID and that date's label (`ageOf` stands for the day and month
   * components of `relativedelta(now, saved_at)`, which read the clock);
   * a full page of ten rows also yields the oldest save date as the cursor
   * for the next page.
   */
  method RecentUrls(rows: seq<RecentRow>, ageOf: nat -> (int, int))
    returns (entries: seq<RecentEntry>, oldestSavedAt: Option<int>)
    requires forall k :: 0 <= k < |rows| ==> TimeFieldsInRange(rows[k].urlId)
    ensures |entries| == |rows|
    ensures forall k :: 0 <= k < |rows| ==>
      entries[k].fullUrl == rows[k].fullUrl && entries[k].title == rows[k].title &&
      entries[k].urlId == rows[k].urlId && entries[k].savedAt == Uuid1ToDatetime(rows[k].urlId) &&
      entries[k].savedAtHuman == Util.HumanizeDatetime(ageOf(entries[k].savedAt).0, ageOf(entries[k].savedAt).1)
    ensures oldestSavedAt.Some? <==> |rows| == RecentLimit
    ensures oldestSavedAt.Some? ==>
      (exists k :: 0 <= k < |entries| && oldestSavedAt.value == entries[k].savedAt) &&
      forall k :: 0 <= k < |entries| ==> oldestSavedAt.value <= entries[k].savedAt
  {
    entries := [];
    for i := 0 to |rows|
      invariant |entries| == i
      invariant forall k :: 0 <= k < i ==>
        entries[k].fullUrl == rows[k].fullUrl && entries[k].title == rows[k].title &&
        entries[k].urlId == rows[k].urlId && entries[k].savedAt == Uuid1ToDatetime(rows[k].urlId) &&
        entries[k].savedAtHuman == Util.HumanizeDatetime(ageOf(entries[k].savedAt).0, ageOf(entries[k].savedAt).1)
    {
      var savedAt := Uuid1ToDatetime(rows[i].urlId);
      var age := ageOf(savedAt);
      var savedAtHuman := Util.HumanizeDatetime(age.0, age.1);
      entries := entries + [RecentEntry(rows[i].fullUrl, rows[i].title, rows[i].urlId, savedAt, savedAtHuman)];
    }
    if entries != [] && |entries| == RecentLimit {
      var ts := SavedAts(entries);
      var oldest := Min(ts);
      oldestSavedAt := Some(oldest);
      forall k | 0 <= k < |entries| ensures oldest <= entries[k].savedAt {
        assert ts[k] in ts;
      }
    } else {
      oldestSavedAt := None;
    }
  }

  // ---------------------------------------------------------------------
  // Properties

  /**
   * The date `_uuid1_to_datetime` reads from a UUID that
   * `uuid_from_timestamp` built is the instant it was built for, in
   * microseconds since the Unix epoch, shifted by the distance between the
   * two epochs, whenever that instant was not bumped and fits in 60 bits.
   */
  lemma SavedAtOfReplayedUuid(nanoseconds: int, clockSeq: int, node: nat)
    requires 0 <= nanoseconds / 100 + Rehydrate.UuidEpochOffset < TwoTo60
    ensures var u := FromTimestamp(Rehydrate.NextTimestamp(None, nanoseconds), clockSeq, node);
      Uuid1ToDatetime(u) == nanoseconds / 1000 + UnixEpochMicros
  {
    var ts := Rehydrate.NextTimestamp(None, nanoseconds);
    assert ts == nanoseconds / 100 + Rehydrate.UuidEpochOffset;
    TimeOfFromTimestamp(ts, clockSeq, node);
    assert ts % TwoTo60 == ts;
    ModMul(nanoseconds, 100, 10);
    DivModUnique(ts, 10, nanoseconds / 100 / 10 + UnixEpochMicros, (nanoseconds / 100) % 10);
  }
}
