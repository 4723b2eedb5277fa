/**
 * db.py: the logic around the Cassandra queries. `search` folds the rows of
 * an approximate-nearest-neighbour query into one entry per page and ranks
 * the pages; `upsert_chunks` writes a page row and then retries the chunk
 * rows that failed; `similar_page_exists` applies the duplicate threshold to
 * the best fingerprint match. The queries themselves are inputs.
 */
module Db {
  import opened Wrappers
  import opened Uuid
  import opened StableSort

  const NResults: nat := 10
  const NResultsPerPage: nat := 3
  const SimilarityThreshold: real := 0.95

  // ---------------------------------------------------------------------
  // search

  /** One row of the ANN query: `full_url, title, chunk, url_id, score`. */
  datatype AnnRow = AnnRow(fullUrl: string, title: string, chunk: string, urlId: Uuid, score: real)

  /** One entry of the result: `{'full_url': url, 'chunks': ..., 'title': ..., 'url_id': ..., 'total_score': ...}`. */
  datatype PageResult = PageResult(
    fullUrl: string,
    chunks: seq<(string, real)>,
    title: Option<string>,
    urlId: Option<Uuid>,
    totalScore: real)

  /** The value the `defaultdict` factory creates for a URL seen for the first time. */
  function EmptyDoc(url: string): PageResult {
    PageResult(url, [], None, None, 0.0)
  }

  /** Python's `s[:n]`. */
  function Prefix<T>(s: seq<T>, n: nat): (r: seq<T>)
    ensures |r| == if |s| <= n then |s| else n
    ensures r <= s
  {
    if |s| <= n then s else s[..n]
  }

  function HasUrl(url: string): AnnRow -> bool {
    (row: AnnRow) => row.fullUrl == url
  }

  /** The rows for `url`, in result order. */
  function RowsFor(rows: seq<AnnRow>, url: string): seq<AnnRow> {
    Filter(rows, HasUrl(url))
  }

  function SumScores(rows: seq<AnnRow>): real {
    if rows == [] then 0.0 else SumScores(rows[..|rows| - 1]) + rows[|rows| - 1].score
  }

  function Chunks(rows: seq<AnnRow>): seq<(string, real)> {
    seq(|rows|, i requires 0 <= i < |rows| => (rows[i].chunk, rows[i].score))
  }

  /**
   * What `search` reports for `url`: the chunks of its first three rows, the
   * title and url_id of the last of those three, and the sum of the scores
   * of all its rows.
   */
  function Aggregate(rows: seq<AnnRow>, url: string): PageResult {
    Summary(RowsFor(rows, url), url)
  }

  /** The entry for `url` made from `all`, the rows that carry it. */
  function Summary(all: seq<AnnRow>, url: string): PageResult {
    var kept := Prefix(all, NResultsPerPage);
    if kept == [] then EmptyDoc(url)
    else PageResult(url, Chunks(kept), Some(kept[|kept| - 1].title), Some(kept[|kept| - 1].urlId), SumScores(all))
  }

  /** The distinct URLs of `rows` in order of first appearance (the dict's insertion order). */
  function Urls(rows: seq<AnnRow>): seq<string> {
    if rows == [] then []
    else
      var seen := Urls(rows[..|rows| - 1]);
      if rows[|rows| - 1].fullUrl in seen then seen else seen + [rows[|rows| - 1].fullUrl]
  }

  /** `L`: one entry per URL, in first-appearance order. */
  function Grouped(rows: seq<AnnRow>): seq<PageResult> {
    var urls := Urls(rows);
    seq(|urls|, i requires 0 <= i < |urls| => Aggregate(rows, urls[i]))
  }

  /** The sort key of `reverse=True`: ascending on the negated total. */
  function NegScore(p: PageResult): real {
    -p.totalScore
  }

  /** `sorted(L, key=total_score, reverse=True)[:N_RESULTS]`. */
  function Ranked(rows: seq<AnnRow>): seq<PageResult> {
    Prefix(SortBy(Grouped(rows), NegScore), NResults)
  }

  /** `search`, given the rows the ANN query returned, in order. */
  method Search(rows: seq<AnnRow>) returns (results: seq<PageResult>)
    ensures results == Ranked(rows)
  {
    var docs: map<string, PageResult> := map[];
    var urls: seq<string> := [];
    for i := 0 to |rows|
      invariant SearchLoop(rows[..i], docs, urls)
    {
      var row := rows[i];
      var doc := if row.fullUrl in docs then docs[row.fullUrl] else EmptyDoc(row.fullUrl);
      ghost var before := doc;
      doc := doc.(totalScore := doc.totalScore + row.score);
      if |doc.chunks| < NResultsPerPage {
        doc := doc.(chunks := doc.chunks + [(row.chunk, row.score)], title := Some(row.title), urlId := Some(row.urlId));
      }
      SearchStep(rows, i, docs, urls, before, doc);
      if row.fullUrl !in docs {
        urls := urls + [row.fullUrl];
      }
      docs := docs[row.fullUrl := doc];
    }
    assert rows[..|rows|] == rows;
    var listed := seq(|urls|, k requires 0 <= k < |urls| && urls[k] in docs => docs[urls[k]]);
    SearchFinish(rows, docs, urls, listed);
    results := Prefix(SortBy(listed, NegScore), NResults);
  }

  /** The loop invariant of `search`: the dict holds the aggregate of every URL seen so far. */
  ghost predicate SearchLoop(seen: seq<AnnRow>, docs: map<string, PageResult>, urls: seq<string>) {
    && urls == Urls(seen)
    && (forall u :: u in docs <==> u in urls)
    && (forall u :: Aggregate(seen, u) == if u in docs then docs[u] else EmptyDoc(u))
  }

  lemma SearchStep(rows: seq<AnnRow>, i: int, docs: map<string, PageResult>, urls: seq<string>, d: PageResult, doc: PageResult)
    requires 0 <= i < |rows| && SearchLoop(rows[..i], docs, urls)
    requires d == if rows[i].fullUrl in docs then docs[rows[i].fullUrl] else EmptyDoc(rows[i].fullUrl)
    requires doc.fullUrl == d.fullUrl && doc.totalScore == d.totalScore + rows[i].score
    requires |d.chunks| < NResultsPerPage ==>
      doc.chunks == d.chunks + [(rows[i].chunk, rows[i].score)] &&
      doc.title == Some(rows[i].title) && doc.urlId == Some(rows[i].urlId)
    requires |d.chunks| >= NResultsPerPage ==>
      doc.chunks == d.chunks && doc.title == d.title && doc.urlId == d.urlId
    ensures SearchLoop(rows[..i + 1], docs[rows[i].fullUrl := doc],
      if rows[i].fullUrl in docs then urls else urls + [rows[i].fullUrl])
  {
    var seen, row := rows[..i], rows[i];
    assert rows[..i + 1] == seen + [row];
    assert (seen + [row])[..|seen|] == seen;
    assert row.fullUrl in docs <==> row.fullUrl in urls;
    assert d == Aggregate(seen, row.fullUrl);
    SearchStepDocs(seen, row, docs, d, doc);
  }

  lemma SearchStepDocs(seen: seq<AnnRow>, row: AnnRow, docs: map<string, PageResult>, d: PageResult, doc: PageResult)
    requires forall u :: Aggregate(seen, u) == if u in docs then docs[u] else EmptyDoc(u)
    requires d == Aggregate(seen, row.fullUrl)
    requires doc.fullUrl == d.fullUrl && doc.totalScore == d.totalScore + row.score
    requires |d.chunks| < NResultsPerPage ==>
      doc.chunks == d.chunks + [(row.chunk, row.score)] && doc.title == Some(row.title) && doc.urlId == Some(row.urlId)
    requires |d.chunks| >= NResultsPerPage ==>
      doc.chunks == d.chunks && doc.title == d.title && doc.urlId == d.urlId
    ensures forall u :: Aggregate(seen + [row], u) == if u in docs[row.fullUrl := doc] then docs[row.fullUrl := doc][u] else EmptyDoc(u)
  {
    AggregateSnoc(seen, row);
    assert Aggregate(seen, row.fullUrl).fullUrl == row.fullUrl;
    assert Aggregate(seen + [row], row.fullUrl) == doc;
  }

  lemma SearchFinish(rows: seq<AnnRow>, docs: map<string, PageResult>, urls: seq<string>, listed: seq<PageResult>)
    requires SearchLoop(rows, docs, urls)
    requires |listed| == |urls| && forall k :: 0 <= k < |urls| ==> urls[k] in docs && listed[k] == docs[urls[k]]
    ensures listed == Grouped(rows)
  {
    UrlsCover(rows);
    forall k | 0 <= k < |urls| ensures listed[k] == Grouped(rows)[k] {
      assert urls[k] in docs;
    }
  }

  // ---------------------------------------------------------------------
  // upsert_chunks

  /** The `saved_pages` row `upsert_chunks` writes first. */
  datatype PageRow = PageRow(
    userId: Uuid,
    urlId: Option<Uuid>,
    fullUrl: string,
    title: string,
    textContent: string,
    fingerprint: seq<real>)

  /** A `saved_chunks` row, denormalised with the page's columns. */
  datatype ChunkRow = ChunkRow(
    userId: Uuid,
    urlId: Option<Uuid>,
    fullUrl: string,
    title: string,
    chunk: string,
    embedding: seq<real>)

  /** The exception `upsert_chunks` raises: "Failed to insert {n} chunks". */
  datatype UpsertError = FailedToInsert(count: nat)

  /** `denormalized_chunks` (db.py:107-108). */
  function Denormalize(page: PageRow, chunks: seq<(string, seq<real>)>): seq<ChunkRow> {
    seq(|chunks|, i requires 0 <= i < |chunks| =>
      ChunkRow(page.userId, page.urlId, page.fullUrl, page.title, chunks[i].0, chunks[i].1))
  }

  /**
   * The items a round leaves for the next: those paired by `zip` with a
   * false success flag, in order; `zip` stops at the shorter of the two.
   */
  function Failed<T>(items: seq<T>, flags: seq<bool>): (r: seq<T>)
    ensures |r| <= |items|
  {
    if items == [] || flags == [] then []
    else (if !flags[0] then [items[0]] else []) + Failed(items[1..], flags[1..])
  }

  /**
   * The batches the retry loop submits, starting at round `round` with
   * backoff `backoff` half-seconds: it stops when nothing is left or the
   * backoff reaches 60 seconds. `execute(k, items)` stands for the success
   * flags `execute_concurrent_with_args` reports in round `k`.
   */
  function Submitted(items: seq<ChunkRow>, execute: (nat, seq<ChunkRow>) -> seq<bool>, round: nat, backoff: nat): seq<seq<ChunkRow>>
    requires backoff >= 1
    decreases 120 - backoff
  {
    if items == [] || backoff >= 120 then []
    else [items] + Submitted(Failed(items, execute(round, items)), execute, round + 1, 2 * backoff)
  }

  /** The items still unwritten when that loop stops. */
  function Leftover(items: seq<ChunkRow>, execute: (nat, seq<ChunkRow>) -> seq<bool>, round: nat, backoff: nat): seq<ChunkRow>
    requires backoff >= 1
    decreases 120 - backoff
  {
    if items == [] || backoff >= 120 then items
    else Leftover(Failed(items, execute(round, items)), execute, round + 1, 2 * backoff)
  }

  /**
   * `upsert_chunks`: the page row is written once, then the chunk rows are
   * submitted until none fails or the backoff reaches 60 seconds; the
   * result is the exception raised when some remain.
   */
  method UpsertChunks(page: PageRow, chunks: seq<(string, seq<real>)>, execute: (nat, seq<ChunkRow>) -> seq<bool>)
    returns (pageWrites: seq<PageRow>, rounds: seq<seq<ChunkRow>>, r: Result<(), UpsertError>)
    ensures pageWrites == [page]
    ensures rounds == Submitted(Denormalize(page, chunks), execute, 0, 1)
    ensures r.Failure? <==> Leftover(Denormalize(page, chunks), execute, 0, 1) != []
    ensures r.Failure? ==> r.error.count == |Leftover(Denormalize(page, chunks), execute, 0, 1)|
  {
    pageWrites := [page];
    var all := Denormalize(page, chunks);
    var items := all;
    var backoff: nat := 1;
    var round: nat := 0;
    rounds := [];
    while items != [] && backoff < 120
      invariant backoff >= 1
      invariant rounds + Submitted(items, execute, round, backoff) == Submitted(all, execute, 0, 1)
      invariant Leftover(items, execute, round, backoff) == Leftover(all, execute, 0, 1)
      decreases 120 - backoff
    {
      var flags := execute(round, items);
      var next := Failed(items, flags);
      assert Submitted(items, execute, round, backoff) == [items] + Submitted(next, execute, round + 1, 2 * backoff);
      assert (rounds + [items]) + Submitted(next, execute, round + 1, 2 * backoff)
        == rounds + ([items] + Submitted(next, execute, round + 1, 2 * backoff));
      rounds := rounds + [items];
      items := next;
      backoff := 2 * backoff;
      round := round + 1;
    }
    if items != [] {
      r := Failure(FailedToInsert(|items|));
    } else {
      r := Success(());
    }
  }

  // ---------------------------------------------------------------------
  // similar_page_exists

  /** `similar_page_exists`, given the score of the best match (None when the query returns no row). */
  function SimilarPageExists(topScore: Option<real>): (similar: bool)
    ensures topScore.None? ==> !similar
    ensures topScore.Some? ==> (similar <==> topScore.value >= SimilarityThreshold)
  {
    match topScore
    case None => false
    case Some(score) => score >= SimilarityThreshold
  }

  // ---------------------------------------------------------------------
  // Properties of search

  lemma SumScoresSnoc(rows: seq<AnnRow>, row: AnnRow)
    ensures SumScores(rows + [row]) == SumScores(rows) + row.score
  {
    assert (rows + [row])[..|rows|] == rows;
  }

  /** The effect of one more row on the aggregate of each URL: the loop body of `search`. */
  lemma AggregateSnoc(rows: seq<AnnRow>, row: AnnRow)
    ensures var before := Aggregate(rows, row.fullUrl);
      var after := Aggregate(rows + [row], row.fullUrl);
      after.fullUrl == row.fullUrl &&
      after.totalScore == before.totalScore + row.score &&
      (|before.chunks| < NResultsPerPage ==>
        after.chunks == before.chunks + [(row.chunk, row.score)] &&
        after.title == Some(row.title) && after.urlId == Some(row.urlId)) &&
      (|before.chunks| >= NResultsPerPage ==>
        after.chunks == before.chunks && after.title == before.title && after.urlId == before.urlId)
    ensures forall u :: u != row.fullUrl ==> Aggregate(rows + [row], u) == Aggregate(rows, u)
  {
    RowsForSnoc(rows, row, row.fullUrl);
    SummarySnoc(RowsFor(rows, row.fullUrl), row);
    forall u | u != row.fullUrl
      ensures Aggregate(rows + [row], u) == Aggregate(rows, u)
    {
      RowsForSnoc(rows, row, u);
      assert RowsFor(rows + [row], u) == RowsFor(rows, u);
    }
  }

  lemma RowsForSnoc(rows: seq<AnnRow>, row: AnnRow, u: string)
    ensures RowsFor(rows + [row], u) == RowsFor(rows, u) + if row.fullUrl == u then [row] else []
  {
    FilterAppend(rows, [row], HasUrl(u));
    FilterOne(row, HasUrl(u));
  }

  lemma SummarySnoc(all: seq<AnnRow>, row: AnnRow)
    ensures var before := Summary(all, row.fullUrl);
      var after := Summary(all + [row], row.fullUrl);
      after.fullUrl == row.fullUrl &&
      after.totalScore == before.totalScore + row.score &&
      (|before.chunks| < NResultsPerPage ==>
        after.chunks == before.chunks + [(row.chunk, row.score)] &&
        after.title == Some(row.title) && after.urlId == Some(row.urlId)) &&
      (|before.chunks| >= NResultsPerPage ==>
        after.chunks == before.chunks && after.title == before.title && after.urlId == before.urlId)
  {
    SumScoresSnoc(all, row);
    var kept := Prefix(all, NResultsPerPage);
    if |all| < NResultsPerPage {
      assert Prefix(all + [row], NResultsPerPage) == kept + [row];
      assert Chunks(kept + [row]) == Chunks(kept) + [(row.chunk, row.score)];
    } else {
      assert Prefix(all + [row], NResultsPerPage) == kept;
    }
  }

  /** A URL is listed exactly when some row carries it. */
  lemma {:induction false} UrlsCover(rows: seq<AnnRow>)
    ensures forall u :: u in Urls(rows) <==> RowsFor(rows, u) != []
  {
    if rows != [] {
      var init, last := rows[..|rows| - 1], rows[|rows| - 1];
      assert rows == init + [last];
      UrlsCover(init);
      assert Urls(rows) == if last.fullUrl in Urls(init) then Urls(init) else Urls(init) + [last.fullUrl];
      forall u ensures u in Urls(rows) <==> RowsFor(rows, u) != [] {
        FilterAppend(init, [last], HasUrl(u));
        FilterOne(last, HasUrl(u));
        assert RowsFor(rows, u) == RowsFor(init, u) + Filter([last], HasUrl(u));
      }
    }
  }

  /** No URL is listed twice. */
  lemma {:induction false} UrlsDistinct(rows: seq<AnnRow>)
    ensures forall i, j :: 0 <= i < j < |Urls(rows)| ==> Urls(rows)[i] != Urls(rows)[j]
  {
    if rows != [] {
      UrlsDistinct(rows[..|rows| - 1]);
    }
  }

  /**
   * First-appearance order: every row of a later-listed URL comes after
   * some row of each earlier-listed URL.
   */
  ghost predicate InFirstAppearanceOrder(rows: seq<AnnRow>) {
    forall i, j, k :: 0 <= i < j < |Urls(rows)| && 0 <= k < |rows| && rows[k].fullUrl == Urls(rows)[j] ==>
      exists k' :: 0 <= k' < k && rows[k'].fullUrl == Urls(rows)[i]
  }

  /** `search` lists the URLs in the order in which they first occur in the rows. */
  lemma {:induction false} UrlsFirstAppearance(rows: seq<AnnRow>)
    ensures InFirstAppearanceOrder(rows)
  {
    if rows != [] {
      var init := rows[..|rows| - 1];
      UrlsFirstAppearance(init);
      UrlsCover(init);
      UrlsDistinct(rows);
      forall i, j, k | 0 <= i < j < |Urls(rows)| && 0 <= k < |rows| && rows[k].fullUrl == Urls(rows)[j]
        ensures exists k' :: 0 <= k' < k && rows[k'].fullUrl == Urls(rows)[i]
      {
        FirstAppearanceStep(rows, init, i, j, k);
      }
    }
  }

  /** One case of the step of `UrlsFirstAppearance`: the row `k` is in `init` or is the last row. */
  lemma FirstAppearanceStep(rows: seq<AnnRow>, init: seq<AnnRow>, i: int, j: int, k: int)
    requires rows != [] && init == rows[..|rows| - 1]
    requires InFirstAppearanceOrder(init)
    requires forall u :: u in Urls(init) <==> RowsFor(init, u) != []
    requires forall a, b :: 0 <= a < b < |Urls(rows)| ==> Urls(rows)[a] != Urls(rows)[b]
    requires 0 <= i < j < |Urls(rows)| && 0 <= k < |rows| && rows[k].fullUrl == Urls(rows)[j]
    ensures exists k' :: 0 <= k' < k && rows[k'].fullUrl == Urls(rows)[i]
  {
    if k < |init| {
      UrlsCover(init);
      FirstAppearanceInInit(rows, init, i, j, k);
    } else {
      // every listed URL before the last row's own has a row in `init`
      var urls, seen := Urls(rows), Urls(init);
      assert i < |seen| && urls[i] == seen[i];
      assert seen[i] in seen;
      var w := RowsFor(init, urls[i])[0];
      FilterMember(init, HasUrl(urls[i]), w);
      var m :| 0 <= m < |init| && init[m] == w;
      assert rows[m].fullUrl == urls[i];
    }
  }

  /** The case of `FirstAppearanceStep` where the row `k` is in `init`. */
  lemma FirstAppearanceInInit(rows: seq<AnnRow>, init: seq<AnnRow>, i: int, j: int, k: int)
    requires rows != [] && init == rows[..|rows| - 1]
    requires InFirstAppearanceOrder(init)
    requires forall u :: u in Urls(init) <==> RowsFor(init, u) != []
    requires 0 <= i < j < |Urls(rows)| && 0 <= k < |init| && rows[k].fullUrl == Urls(rows)[j]
    ensures exists k' :: 0 <= k' < k && rows[k'].fullUrl == Urls(rows)[i]
  {
    var urls, seen := Urls(rows), Urls(init);
    assert init[k] == rows[k];
    if j < |seen| {
      assert urls[i] == seen[i] && urls[j] == seen[j];
      var k' :| 0 <= k' < k && init[k'].fullUrl == seen[i];
      assert rows[k'] == init[k'];
    } else {
      // the last row introduced urls[j], so no earlier row carries it
      var last := rows[|rows| - 1];
      assert last.fullUrl !in seen && urls == seen + [last.fullUrl];
      assert urls[j] == last.fullUrl;
      FilterHas(init, HasUrl(urls[j]), k);
      assert false;
    }
  }


  /**
   * Each listed page carries one to three chunks, and a title and url_id
   * (those of its last kept row).
   */
  lemma GroupedPagesFilled(rows: seq<AnnRow>)
    ensures forall p :: p in Grouped(rows) ==>
      1 <= |p.chunks| <= NResultsPerPage && p.title.Some? && p.urlId.Some?
  {
    UrlsCover(rows);
  }

  /**
   * A page keeps the chunks of the first three rows that carry its URL, in
   * result order, and the title and url_id of the last of those; its total
   * sums all of them.
   */
  lemma AggregateFirstThreeRows(rows: seq<AnnRow>, url: string)
    requires RowsFor(rows, url) != []
    ensures var all, p := RowsFor(rows, url), Aggregate(rows, url);
      var n := |p.chunks|;
      && n == (if |all| < NResultsPerPage then |all| else NResultsPerPage)
      && (forall k :: 0 <= k < n ==> all[k] in rows && all[k].fullUrl == url)
      && (forall k :: 0 <= k < n ==> p.chunks[k] == (all[k].chunk, all[k].score))
      && p.title == Some(all[n - 1].title) && p.urlId == Some(all[n - 1].urlId)
      && p.totalScore == SumScores(all)
  {
    var all := RowsFor(rows, url);
    forall k | 0 <= k < |all| ensures all[k] in rows && all[k].fullUrl == url {
      FilterMember(rows, HasUrl(url), all[k]);
    }
  }

  lemma {:induction false} SumScoresAppend(a: seq<AnnRow>, b: seq<AnnRow>)
    ensures SumScores(a + b) == SumScores(a) + SumScores(b)
  {
    if b != [] {
      var init := b[..|b| - 1];
      assert a + b == (a + init) + [b[|b| - 1]];
      SumScoresSnoc(a + init, b[|b| - 1]);
      SumScoresAppend(a, init);
    } else {
      assert a + b == a;
    }
  }

  /**
   * A page's total counts its rows beyond the third as well as the ones
   * whose chunks it keeps.
   */
  lemma TotalScoreCountsDroppedRows(rows: seq<AnnRow>, url: string)
    requires RowsFor(rows, url) != []
    ensures var all := RowsFor(rows, url);
      var kept := Prefix(all, NResultsPerPage);
      Aggregate(rows, url).totalScore == SumScores(kept) + SumScores(all[|kept|..])
  {
    var all := RowsFor(rows, url);
    var kept := Prefix(all, NResultsPerPage);
    assert all == kept + all[|kept|..];
    SumScoresAppend(kept, all[|kept|..]);
  }

  /** At most ten pages come back, and fewer only when fewer URLs occur. */
  lemma RankedLength(rows: seq<AnnRow>)
    ensures |Ranked(rows)| == if |Urls(rows)| <= NResults then |Urls(rows)| else NResults
  {
    SortByLength(Grouped(rows), NegScore);
  }

  /** The pages come back by total score, highest first. */
  lemma RankedDescending(rows: seq<AnnRow>)
    ensures forall i, j :: 0 <= i < j < |Ranked(rows)| ==> Ranked(rows)[i].totalScore >= Ranked(rows)[j].totalScore
  {
    var sorted := SortBy(Grouped(rows), NegScore);
    SortByCorrect(Grouped(rows), NegScore);
    forall i, j | 0 <= i < j < |Ranked(rows)|
      ensures Ranked(rows)[i].totalScore >= Ranked(rows)[j].totalScore
    {
      assert NegScore(sorted[i]) <= NegScore(sorted[j]);
    }
  }

  /** A page left out scores no more than any page returned. */
  lemma RankedIsTop(rows: seq<AnnRow>)
    ensures forall p, q :: p in Grouped(rows) && p !in Ranked(rows) && q in Ranked(rows) ==>
      p.totalScore <= q.totalScore
  {
    var sorted := SortBy(Grouped(rows), NegScore);
    SortByCorrect(Grouped(rows), NegScore);
    var top := Ranked(rows);
    forall p, q | p in Grouped(rows) && p !in top && q in top
      ensures p.totalScore <= q.totalScore
    {
      assert p in multiset(sorted);
      var j :| 0 <= j < |sorted| && sorted[j] == p;
      var i :| 0 <= i < |top| && top[i] == q;
      assert sorted[i] == q;
      assert NegScore(sorted[i]) <= NegScore(sorted[j]);
    }
  }

  lemma WithKeyPrefix<T>(s: seq<T>, n: nat, key: T -> real, v: real)
    ensures WithKey(Prefix(s, n), key, v) <= WithKey(s, key, v)
  {
    if |s| > n {
      assert s == s[..n] + s[n..];
      WithKeyAppend(s[..n], s[n..], key, v);
    }
  }

  /**
   * Ties keep first-appearance order: the returned pages with any given
   * total are the first of the pages with that total, in URL order.
   */
  lemma RankedStable(rows: seq<AnnRow>)
    ensures forall v :: WithKey(Ranked(rows), NegScore, v) <= WithKey(Grouped(rows), NegScore, v)
  {
    var sorted := SortBy(Grouped(rows), NegScore);
    SortByCorrect(Grouped(rows), NegScore);
    forall v ensures WithKey(Ranked(rows), NegScore, v) <= WithKey(Grouped(rows), NegScore, v) {
      WithKeyPrefix(sorted, NResults, NegScore, v);
    }
  }

  // ---------------------------------------------------------------------
  // Properties of upsert_chunks

  /**
   * What a round keeps, exactly: the items at the positions whose flag is
   * false, each once, in their original order. `idx` lists those positions.
   */
  lemma FailedInOrder<T>(items: seq<T>, flags: seq<bool>) returns (idx: seq<nat>)
    ensures |idx| == |Failed(items, flags)| && Increasing(idx)
    ensures forall j :: 0 <= j < |idx| ==>
      idx[j] < |items| && idx[j] < |flags| && !flags[idx[j]] && Failed(items, flags)[j] == items[idx[j]]
    ensures forall i :: 0 <= i < |items| && i < |flags| && !flags[i] ==> i in idx
  {
    idx := FailedPositions(flags, |items|);
    FailedPositionsPick(items, flags);
    FailedPositionsIncreasing(flags, |items|);
    FailedPositionsComplete(flags, |items|);
  }

  /** Strictly increasing positions. */
  predicate Increasing(idx: seq<nat>) {
    forall j, j' :: 0 <= j < j' < |idx| ==> idx[j] < idx[j']
  }

  /** Every position one further on. */
  function Shift(idx: seq<nat>): (r: seq<nat>)
    ensures |r| == |idx| && forall j :: 0 <= j < |idx| ==> r[j] == idx[j] + 1
  {
    seq(|idx|, j requires 0 <= j < |idx| => idx[j] + 1)
  }

  /** The positions below `n` whose flag is false. */
  ghost function FailedPositions(flags: seq<bool>, n: nat): seq<nat> {
    if n == 0 || flags == [] then []
    else (if !flags[0] then [0] else []) + Shift(FailedPositions(flags[1..], n - 1))
  }

  /** `r` is the items at the positions `idx`, each of which has a false flag. */
  ghost predicate Picks<T>(items: seq<T>, flags: seq<bool>, idx: seq<nat>, r: seq<T>) {
    && |idx| == |r|
    && forall j :: 0 <= j < |idx| ==>
      idx[j] < |items| && idx[j] < |flags| && !flags[idx[j]] && r[j] == items[idx[j]]
  }

  lemma {:induction false} FailedPositionsPick<T>(items: seq<T>, flags: seq<bool>)
    ensures Picks(items, flags, FailedPositions(flags, |items|), Failed(items, flags))
  {
    if items != [] && flags != [] {
      FailedPositionsPick(items[1..], flags[1..]);
      PicksCons(items, flags, FailedPositions(flags[1..], |items| - 1), Failed(items[1..], flags[1..]));
    }
  }

  lemma PicksCons<T>(items: seq<T>, flags: seq<bool>, rest: seq<nat>, r': seq<T>)
    requires items != [] && flags != [] && Picks(items[1..], flags[1..], rest, r')
    ensures Picks(items, flags, (if !flags[0] then [0] else []) + Shift(rest), (if !flags[0] then [items[0]] else []) + r')
  {
    var idx := (if !flags[0] then [0] else []) + Shift(rest);
    var r := (if !flags[0] then [items[0]] else []) + r';
    var h := if !flags[0] then 1 else 0;
    forall j | h <= j < |idx|
      ensures idx[j] < |items| && idx[j] < |flags| && !flags[idx[j]] && r[j] == items[idx[j]]
    {
      var i := rest[j - h];
      assert idx[j] == i + 1 && r[j] == r'[j - h] == items[1..][i];
      assert !flags[1..][i];
    }
  }

  lemma {:induction false} FailedPositionsIncreasing(flags: seq<bool>, n: nat)
    ensures Increasing(FailedPositions(flags, n))
  {
    if n != 0 && flags != [] {
      FailedPositionsIncreasing(flags[1..], n - 1);
      var idx, rest := FailedPositions(flags, n), FailedPositions(flags[1..], n - 1);
      var h := if !flags[0] then 1 else 0;
      forall j, j' | 0 <= j < j' < |idx| ensures idx[j] < idx[j'] {
        assert idx[j'] == rest[j' - h] + 1;
        if j >= h {
          assert idx[j] == rest[j - h] + 1;
        }
      }
    }
  }

  lemma {:induction false} FailedPositionsComplete(flags: seq<bool>, n: nat)
    ensures forall i :: 0 <= i < n && i < |flags| && !flags[i] ==> i in FailedPositions(flags, n)
  {
    if n != 0 && flags != [] {
      FailedPositionsComplete(flags[1..], n - 1);
      var idx, rest := FailedPositions(flags, n), FailedPositions(flags[1..], n - 1);
      var h := if !flags[0] then 1 else 0;
      forall i | 0 < i < n && i < |flags| && !flags[i] ensures i in idx {
        assert !flags[1..][i - 1];
        var j :| 0 <= j < |rest| && rest[j] == i - 1;
        assert idx[h + j] == i;
      }
    }
  }

  /** A round keeps exactly the items reported as failed, and none reported as written. */
  lemma {:induction false} FailedMembers<T>(items: seq<T>, flags: seq<bool>)
    ensures forall x :: x in Failed(items, flags) <==>
      exists i :: 0 <= i < |items| && i < |flags| && !flags[i] && items[i] == x
  {
    if items != [] && flags != [] {
      FailedMembers(items[1..], flags[1..]);
      forall x ensures x in Failed(items, flags) <==>
        exists i :: 0 <= i < |items| && i < |flags| && !flags[i] && items[i] == x
      {
        if x in Failed(items[1..], flags[1..]) {
          var i :| 0 <= i < |items[1..]| && i < |flags[1..]| && !flags[1..][i] && items[1..][i] == x;
          assert items[i + 1] == x && !flags[i + 1];
        }
        if exists i :: 0 <= i < |items| && i < |flags| && !flags[i] && items[i] == x {
          var i :| 0 <= i < |items| && i < |flags| && !flags[i] && items[i] == x;
          if i > 0 {
            assert items[1..][i - 1] == x && !flags[1..][i - 1];
          }
        }
      }
    }
  }

  /** With distinct items, an item reported as written is never submitted again. */
  lemma SucceededNotResubmitted<T>(items: seq<T>, flags: seq<bool>, i: int)
    requires forall a, b :: 0 <= a < b < |items| ==> items[a] != items[b]
    requires 0 <= i < |items| && i < |flags| && flags[i]
    ensures items[i] !in Failed(items, flags)
  {
    FailedMembers(items, flags);
  }

  /** Each round after the first resubmits exactly the failures of the one before. */
  lemma {:induction false} SubmittedRounds(items: seq<ChunkRow>, execute: (nat, seq<ChunkRow>) -> seq<bool>, round: nat, backoff: nat)
    requires backoff >= 1
    decreases 120 - backoff
    ensures var s := Submitted(items, execute, round, backoff);
      (s != [] ==> s[0] == items) &&
      forall k :: 0 <= k < |s| - 1 ==> s[k + 1] == Failed(s[k], execute(round + k, s[k]))
  {
    if items != [] && backoff < 120 {
      var next := Failed(items, execute(round, items));
      SubmittedRounds(next, execute, round + 1, 2 * backoff);
      var s := Submitted(items, execute, round, backoff);
      var rest := Submitted(next, execute, round + 1, 2 * backoff);
      assert s == [items] + rest;
      forall k | 0 <= k < |s| - 1
        ensures s[k + 1] == Failed(s[k], execute(round + k, s[k]))
      {
        if k > 0 {
          assert s[k] == rest[k - 1] && s[k + 1] == rest[k];
          assert round + 1 + (k - 1) == round + k;
        }
      }
    }
  }

  /** The rounds the loop can still run with `backoff` half-seconds: one per doubling below 60 seconds. */
  function RoundsLeft(backoff: nat): nat
    requires backoff >= 1
    decreases 120 - backoff
  {
    if backoff >= 120 then 0 else 1 + RoundsLeft(2 * backoff)
  }

  /**
   * The loop stops within the rounds its backoff allows, and before they
   * run out only because nothing is left.
   */
  lemma {:induction false} SubmittedBound(items: seq<ChunkRow>, execute: (nat, seq<ChunkRow>) -> seq<bool>, round: nat, backoff: nat)
    requires backoff >= 1
    decreases 120 - backoff
    ensures |Submitted(items, execute, round, backoff)| <= RoundsLeft(backoff)
    ensures |Submitted(items, execute, round, backoff)| < RoundsLeft(backoff) ==>
      Leftover(items, execute, round, backoff) == []
  {
    if items != [] && backoff < 120 {
      SubmittedBound(Failed(items, execute(round, items)), execute, round + 1, 2 * backoff);
    }
  }

  /**
   * The retry loop of `upsert_chunks` runs at most seven rounds (backoff
   * 0.5, 1, 2, 4, 8, 16 and 32 seconds), and it can only raise after the
   * seventh.
   */
  lemma RetryAtMostSevenRounds(items: seq<ChunkRow>, execute: (nat, seq<ChunkRow>) -> seq<bool>)
    ensures |Submitted(items, execute, 0, 1)| <= 7
    ensures Leftover(items, execute, 0, 1) != [] ==> |Submitted(items, execute, 0, 1)| == 7
  {
    assert RoundsLeft(128) == 0;
    assert RoundsLeft(64) == 1;
    assert RoundsLeft(32) == 2;
    assert RoundsLeft(16) == 3;
    assert RoundsLeft(8) == 4;
    assert RoundsLeft(4) == 5;
    assert RoundsLeft(2) == 6;
    assert RoundsLeft(1) == 7;
    SubmittedBound(items, execute, 0, 1);
  }

  /** What is left when the loop stops is the failures of its last round, or everything if it never ran. */
  lemma {:induction false} LeftoverOfLastRound(items: seq<ChunkRow>, execute: (nat, seq<ChunkRow>) -> seq<bool>, round: nat, backoff: nat)
    requires backoff >= 1
    decreases 120 - backoff
    ensures var s := Submitted(items, execute, round, backoff);
      Leftover(items, execute, round, backoff) ==
        if s == [] then items else Failed(s[|s| - 1], execute(round + |s| - 1, s[|s| - 1]))
  {
    if items != [] && backoff < 120 {
      var next := Failed(items, execute(round, items));
      LeftoverOfLastRound(next, execute, round + 1, 2 * backoff);
      var s, s' := Submitted(items, execute, round, backoff), Submitted(next, execute, round + 1, 2 * backoff);
      assert s == [items] + s';
      var leftover := Leftover(next, execute, round + 1, 2 * backoff);
      assert Leftover(items, execute, round, backoff) == leftover;
      if s' == [] {
        assert leftover == next && s == [items];
      } else {
        var n' := |s'| - 1;
        assert leftover == Failed(s'[n'], execute(round + 1 + n', s'[n']));
        assert |s| - 1 == n' + 1 && s[|s| - 1] == s'[n'];
      }
    }
  }
}
