/**
 * The two sentence groupers of logic.py. Both fold a list of sentences into
 * groups whose token counts stay within a budget; the token count of a
 * string (`len(_tokenize(s))`) is a parameter.
 */
module Chunker {
  import opened Text

  /** Total token count of a group. */
  function TokenSum(g: seq<string>, tokens: string -> nat): nat {
    if g == [] then 0 else TokenSum(g[..|g| - 1], tokens) + tokens(g[|g| - 1])
  }

  /** The groups laid end to end. */
  function Flatten(gs: seq<seq<string>>): seq<string> {
    if gs == [] then [] else Flatten(gs[..|gs| - 1]) + gs[|gs| - 1]
  }

  /** A group that is over budget has a single entry. */
  ghost predicate WithinBudget(g: seq<string>, maxTokens: int, tokens: string -> nat) {
    |g| >= 2 ==> TokenSum(g, tokens) <= maxTokens
  }

  // ---------------------------------------------------------------------
  // _group_sentences_by_tokens

  /**
   * `_group_sentences_by_tokens`: greedy grouping. A sentence that does not
   * fit closes the current group, even when that group is still empty.
   */
  method GroupByTokens(sentences: seq<string>, maxTokens: int, tokens: string -> nat)
    returns (groups: seq<seq<string>>)
    ensures GroupedByTokens(groups, sentences, maxTokens, tokens)
  {
    groups := [];
    var current: seq<string> := [];
    var count := 0;
    for i := 0 to |sentences|
      invariant ByTokensLoop(sentences, i, groups, current, maxTokens, tokens)
      invariant count == TokenSum(current, tokens)
    {
      groups, current, count := AddByTokens(sentences, i, groups, current, count, maxTokens, tokens);
    }
    ByTokensFinish(sentences, groups, current, maxTokens, tokens);
    if current != [] {
      groups := groups + [current];
    }
  }

  /**
   * The body of the loop of `_group_sentences_by_tokens`: sentence `i`
   * joins the current group if the running count stays within budget, and
   * otherwise closes it and starts the next one.
   */
  method AddByTokens(sentences: seq<string>, i: int, groups0: seq<seq<string>>, current0: seq<string>, count0: int,
                     maxTokens: int, tokens: string -> nat)
    returns (groups: seq<seq<string>>, current: seq<string>, count: int)
    requires ByTokensLoop(sentences, i, groups0, current0, maxTokens, tokens) && i < |sentences|
    requires count0 == TokenSum(current0, tokens)
    ensures ByTokensLoop(sentences, i + 1, groups, current, maxTokens, tokens)
    ensures count == TokenSum(current, tokens)
  {
    var sentence := sentences[i];
    var tokenCount := tokens(sentence);
    if count0 + tokenCount <= maxTokens {
      ByTokensAppend(sentences, i, groups0, current0, maxTokens, tokens);
      groups, current, count := groups0, current0 + [sentence], count0 + tokenCount;
    } else {
      ByTokensClose(sentences, i, groups0, current0, maxTokens, tokens);
      groups, current, count := groups0 + [current0], [sentence], tokenCount;
    }
  }

  /**
   * What `_group_sentences_by_tokens` promises: the groups concatenate to
   * the sentences; only the first group can be empty, and it is exactly
   * when the first sentence alone is over budget; a group of two or more
   * sentences is within budget; and every group was closed only because
   * the first sentence of the next one did not fit.
   */
  ghost predicate GroupedByTokens(groups: seq<seq<string>>, sentences: seq<string>, maxTokens: int, tokens: string -> nat) {
    && Flatten(groups) == sentences
    && (forall k :: 1 <= k < |groups| ==> groups[k] != [])
    && ((|groups| > 0 && groups[0] == []) <==> (|sentences| > 0 && tokens(sentences[0]) > maxTokens))
    && (forall k :: 0 <= k < |groups| ==> WithinBudget(groups[k], maxTokens, tokens))
    && (forall k :: 1 <= k < |groups| ==> TokenSum(groups[k - 1], tokens) + tokens(groups[k][0]) > maxTokens)
  }

  /**
   * The invariant of the greedy loop: closed groups after the first are
   * non-empty, every group (the open one too) is a singleton or within
   * budget, and each group was closed because the next one's first
   * sentence did not fit.
   */
  ghost predicate Greedy(groups: seq<seq<string>>, current: seq<string>, maxTokens: int, tokens: string -> nat) {
    && (forall k :: 1 <= k < |groups| ==> groups[k] != [])
    && (forall k :: 0 <= k < |groups| ==> WithinBudget(groups[k], maxTokens, tokens))
    && (forall k :: 1 <= k < |groups| ==> TokenSum(groups[k - 1], tokens) + tokens(groups[k][0]) > maxTokens)
    && WithinBudget(current, maxTokens, tokens)
    && (|groups| > 0 ==> current != [] && TokenSum(groups[|groups| - 1], tokens) + tokens(current[0]) > maxTokens)
  }

  /** The loop state of `GroupByTokens` after the first `i` sentences. */
  ghost predicate ByTokensLoop(sentences: seq<string>, i: int, groups: seq<seq<string>>, current: seq<string>,
                               maxTokens: int, tokens: string -> nat) {
    && 0 <= i <= |sentences|
    && Flatten(groups) + current == sentences[..i]
    && (i == 0 ==> groups == [] && current == [])
    && ((|groups| > 0 && groups[0] == []) <==> (i > 0 && tokens(sentences[0]) > maxTokens))
    && Greedy(groups, current, maxTokens, tokens)
  }

  lemma ByTokensAppend(sentences: seq<string>, i: int, groups: seq<seq<string>>, current: seq<string>,
                       maxTokens: int, tokens: string -> nat)
    requires ByTokensLoop(sentences, i, groups, current, maxTokens, tokens) && i < |sentences|
    requires TokenSum(current, tokens) + tokens(sentences[i]) <= maxTokens
    ensures ByTokensLoop(sentences, i + 1, groups, current + [sentences[i]], maxTokens, tokens)
    ensures TokenSum(current + [sentences[i]], tokens) == TokenSum(current, tokens) + tokens(sentences[i])
  {
    assert sentences[..i + 1] == sentences[..i] + [sentences[i]];
    GreedyAppend(groups, current, sentences[i], maxTokens, tokens);
  }

  lemma ByTokensClose(sentences: seq<string>, i: int, groups: seq<seq<string>>, current: seq<string>,
                      maxTokens: int, tokens: string -> nat)
    requires ByTokensLoop(sentences, i, groups, current, maxTokens, tokens) && i < |sentences|
    requires TokenSum(current, tokens) + tokens(sentences[i]) > maxTokens
    ensures ByTokensLoop(sentences, i + 1, groups + [current], [sentences[i]], maxTokens, tokens)
    ensures TokenSum([sentences[i]], tokens) == tokens(sentences[i])
  {
    assert sentences[..i + 1] == sentences[..i] + [sentences[i]];
    assert i > 0 ==> |groups| > 0 || current != [];
    GreedyClose(groups, current, sentences[i], maxTokens, tokens);
    FlattenAppend(groups, current);
  }

  lemma ByTokensFinish(sentences: seq<string>, groups: seq<seq<string>>, current: seq<string>,
                       maxTokens: int, tokens: string -> nat)
    requires ByTokensLoop(sentences, |sentences|, groups, current, maxTokens, tokens)
    ensures GroupedByTokens(if current != [] then groups + [current] else groups, sentences, maxTokens, tokens)
  {
    assert sentences[..|sentences|] == sentences;
    if current != [] {
      FlattenAppend(groups, current);
      GreedyFinish(groups, current, maxTokens, tokens);
      if |sentences| > 0 && groups == [] {
        assert current[0] == sentences[0];
      }
    }
  }

  lemma GreedyAppend(groups: seq<seq<string>>, current: seq<string>, s: string, maxTokens: int, tokens: string -> nat)
    requires Greedy(groups, current, maxTokens, tokens)
    requires TokenSum(current, tokens) + tokens(s) <= maxTokens
    ensures Greedy(groups, current + [s], maxTokens, tokens)
    ensures TokenSum(current + [s], tokens) == TokenSum(current, tokens) + tokens(s)
  {
    AppendToken(current, s, tokens);
  }

  lemma GreedyClose(groups: seq<seq<string>>, current: seq<string>, s: string, maxTokens: int, tokens: string -> nat)
    requires Greedy(groups, current, maxTokens, tokens)
    requires |groups| > 0 ==> current != []
    requires TokenSum(current, tokens) + tokens(s) > maxTokens
    ensures Greedy(groups + [current], [s], maxTokens, tokens)
    ensures TokenSum([s], tokens) == tokens(s)
  {
    AppendToken([], s, tokens);
    var gs := groups + [current];
    assert forall k :: 0 <= k < |groups| ==> gs[k] == groups[k];
  }

  lemma GreedyFinish(groups: seq<seq<string>>, current: seq<string>, maxTokens: int, tokens: string -> nat)
    requires Greedy(groups, current, maxTokens, tokens)
    requires current != []
    ensures forall k :: 1 <= k < |groups + [current]| ==> (groups + [current])[k] != []
    ensures forall k :: 0 <= k < |groups + [current]| ==> WithinBudget((groups + [current])[k], maxTokens, tokens)
    ensures forall k :: 1 <= k < |groups + [current]| ==>
      TokenSum((groups + [current])[k - 1], tokens) + tokens((groups + [current])[k][0]) > maxTokens
  {
    var gs := groups + [current];
    assert forall k :: 0 <= k < |groups| ==> gs[k] == groups[k];
  }

  // ---------------------------------------------------------------------
  // _group_sentences_with_overlap

  /** The bisection of an over-budget part: its first and second half of words. */
  function Halves(part: string): (halves: (string, string))
    ensures Words(halves.0) == Words(part)[..|Words(part)| / 2]
    ensures Words(halves.1) == Words(part)[|Words(part)| / 2..]
  {
    var words := Words(part);
    var mid := |words| / 2;
    WordsOfJoin(words[..mid]);
    WordsOfJoin(words[mid..]);
    (Join(words[..mid], " "), Join(words[mid..], " "))
  }

  /**
   * Whether the work queue empties for a part `q`: `q` fits, or the second
   * half queued after bisecting it does. The first half is never examined
   * again. A part of at most one word has that word (or nothing) as its
   * second half, which bisects to itself, so then the half must fit.
   */
  ghost predicate BisectionEnds(q: string, maxTokens: int, tokens: string -> nat)
    decreases |Words(q)|
  {
    || tokens(q) <= maxTokens
    || (|Words(q)| <= 1 && tokens(Halves(q).1) <= maxTokens)
    || (|Words(q)| >= 2 && BisectionEnds(Halves(q).1, maxTokens, tokens))
  }

  /** Decreases with each bisection of a part whose bisections end. */
  function PartMeasure(q: string, maxTokens: int, tokens: string -> nat): nat {
    2 * |Words(q)| + (if tokens(q) > maxTokens then 1 else 0)
  }

  /**
   * The parts one sentence is processed as: itself if it fits, otherwise
   * the first half of its words (not checked again) followed by the parts
   * of the second half.
   */
  function SentenceParts(q: string, maxTokens: int, tokens: string -> nat): (parts: seq<string>)
    requires BisectionEnds(q, maxTokens, tokens)
    ensures parts != []
    decreases PartMeasure(q, maxTokens, tokens)
  {
    if tokens(q) <= maxTokens then [q]
    else
      BisectionProgress(q, maxTokens, tokens);
      [Halves(q).0] + SentenceParts(Halves(q).1, maxTokens, tokens)
  }

  /** The bisections of every sentence end. */
  ghost predicate AllBisectionsEnd(sentences: seq<string>, maxTokens: int, tokens: string -> nat) {
    forall i :: 0 <= i < |sentences| ==> BisectionEnds(sentences[i], maxTokens, tokens)
  }

  /** All parts of all sentences, in processing order. */
  function AllParts(sentences: seq<string>, maxTokens: int, tokens: string -> nat): seq<string>
    requires AllBisectionsEnd(sentences, maxTokens, tokens)
  {
    if sentences == [] then []
    else
      AllParts(sentences[..|sentences| - 1], maxTokens, tokens)
        + SentenceParts(sentences[|sentences| - 1], maxTokens, tokens)
  }

  /**
   * The stream of entries appended to groups: each part, preceded by a copy
   * of the part before it where `copied` says so.
   */
  function WithCopies(parts: seq<string>, copied: seq<bool>): seq<string>
    requires |copied| == |parts|
  {
    if parts == [] then []
    else
      var n := |parts| - 1;
      WithCopies(parts[..n], copied[..n]) + (if copied[n] && n > 0 then [parts[n - 1]] else []) + [parts[n]]
  }

  /** The state of the grouping between two parts: closed groups, the open group and `last_sentence`. */
  datatype Overlap = Overlap(groups: seq<seq<string>>, current: seq<string>, last: string)

  /** Lines 94-96: the previous part is appended again when there is one and it fits the open group. */
  predicate CopiesLast(st: Overlap, maxTokens: int, tokens: string -> nat) {
    st.last != "" && TokenSum(st.current, tokens) + tokens(st.last) <= maxTokens
  }

  /** The open group after that copy. */
  function Grown(st: Overlap, maxTokens: int, tokens: string -> nat): seq<string> {
    if CopiesLast(st, maxTokens, tokens) then st.current + [st.last] else st.current
  }

  /**
   * One part, lines 93-108: after the copy, the part joins the open group
   * if it fits; otherwise the open group is closed (when non-empty) and the
   * part opens the next one. Either way it becomes `last_sentence`.
   */
  function OverlapStep(st: Overlap, part: string, maxTokens: int, tokens: string -> nat): Overlap {
    var grown := Grown(st, maxTokens, tokens);
    if TokenSum(grown, tokens) + tokens(part) <= maxTokens then Overlap(st.groups, grown + [part], part)
    else Overlap(if grown != [] then st.groups + [grown] else st.groups, [part], part)
  }

  /** The state after a flat list of parts, one step per part from the empty state. */
  function OverlapParts(parts: seq<string>, maxTokens: int, tokens: string -> nat): Overlap {
    if parts == [] then Overlap([], [], "")
    else OverlapStep(OverlapParts(parts[..|parts| - 1], maxTokens, tokens), parts[|parts| - 1], maxTokens, tokens)
  }

  /** Lines 111-112: the open group is closed when non-empty. */
  function Closed(st: Overlap): seq<seq<string>> {
    if st.current != [] then st.groups + [st.current] else st.groups
  }

  /** Whether the previous part is copied before each part. */
  function CopyFlags(parts: seq<string>, maxTokens: int, tokens: string -> nat): (flags: seq<bool>)
    ensures |flags| == |parts|
  {
    seq(|parts|, k requires 0 <= k < |parts| => CopiesLast(OverlapParts(parts[..k], maxTokens, tokens), maxTokens, tokens))
  }

  /**
   * The reference for `_group_sentences_with_overlap`: the sentences are
   * first cut into their parts, then the parts are grouped one by one.
   */
  function OverlapGroups(sentences: seq<string>, maxTokens: int, tokens: string -> nat): seq<seq<string>>
    requires AllBisectionsEnd(sentences, maxTokens, tokens)
  {
    Closed(OverlapParts(AllParts(sentences, maxTokens, tokens), maxTokens, tokens))
  }

  /**
   * What grouping `parts` with overlap promises: every group is non-empty
   * and a singleton or within budget; the groups concatenate to the parts
   * in order, each preceded by a copy of the part before it exactly when
   * that part is non-empty and fits the open group; and a group was closed
   * only because the first entry of the next one did not fit.
   */
  ghost predicate GroupedWithOverlap(groups: seq<seq<string>>, parts: seq<string>, maxTokens: int, tokens: string -> nat) {
    && GroupsFilled(groups, maxTokens, tokens)
    && Flatten(groups) == WithCopies(parts, CopyFlags(parts, maxTokens, tokens))
    && CopyRule(parts, maxTokens, tokens)
    && ClosedOnOverflow(groups, maxTokens, tokens)
  }

  /** Every group is non-empty and a singleton or within budget. */
  ghost predicate GroupsFilled(groups: seq<seq<string>>, maxTokens: int, tokens: string -> nat) {
    forall k :: 0 <= k < |groups| ==> groups[k] != [] && WithinBudget(groups[k], maxTokens, tokens)
  }

  /** Part `k` is preceded by a copy of part `k - 1` exactly when that part is non-empty and fits the open group. */
  ghost predicate CopyRule(parts: seq<string>, maxTokens: int, tokens: string -> nat) {
    var flags := CopyFlags(parts, maxTokens, tokens);
    forall k :: 0 <= k < |parts| ==>
      (flags[k] <==>
         (k > 0 && parts[k - 1] != "" &&
          TokenSum(OverlapParts(parts[..k], maxTokens, tokens).current, tokens) + tokens(parts[k - 1]) <= maxTokens))
  }

  /** A group was closed only because the first entry of the next one did not fit. */
  ghost predicate ClosedOnOverflow(groups: seq<seq<string>>, maxTokens: int, tokens: string -> nat) {
    forall k :: 1 <= k < |groups| ==> groups[k] != [] && TokenSum(groups[k - 1], tokens) + tokens(groups[k][0]) > maxTokens
  }

  /**
   * `_group_sentences_with_overlap`. Each sentence goes through a work
   * queue that holds at most one part: an over-budget part is bisected by
   * words, the first half is handled now and the second half queued. Before
   * every part, the previous part is appended again to the open group if
   * it fits there; the part then joins the open group or starts a new one.
   */
  method GroupWithOverlap(sentences: seq<string>, maxTokens: int, tokens: string -> nat)
    returns (groups: seq<seq<string>>)
    requires AllBisectionsEnd(sentences, maxTokens, tokens)
    ensures groups == OverlapGroups(sentences, maxTokens, tokens)
    ensures GroupedWithOverlap(groups, AllParts(sentences, maxTokens, tokens), maxTokens, tokens)
  {
    groups := [];
    var current: seq<string> := [];
    var count := 0;
    var last := "";
    ghost var done: seq<string> := [];
    for i := 0 to |sentences|
      invariant done == AllParts(sentences[..i], maxTokens, tokens)
      invariant Overlap(groups, current, last) == OverlapParts(done, maxTokens, tokens)
      invariant count == TokenSum(current, tokens)
    {
      AllPartsNext(sentences, i, maxTokens, tokens);
      groups, current, count, last := AddSentence(sentences[i], groups, current, count, last, done, maxTokens, tokens);
      done := done + SentenceParts(sentences[i], maxTokens, tokens);
    }
    assert sentences[..|sentences|] == sentences;
    if current != [] {
      groups := groups + [current];
    }
    OverlapGroupsCorrect(done, maxTokens, tokens);
  }

  /**
   * The body of the `for sentence in sentences` loop of
   * `_group_sentences_with_overlap`: the work queue of one sentence.
   */
  method AddSentence(sentence: string, groups0: seq<seq<string>>, current0: seq<string>, count0: nat,
                     last0: string, ghost done0: seq<string>, maxTokens: int, tokens: string -> nat)
    returns (groups: seq<seq<string>>, current: seq<string>, count: nat, last: string)
    requires BisectionEnds(sentence, maxTokens, tokens)
    requires Overlap(groups0, current0, last0) == OverlapParts(done0, maxTokens, tokens)
    requires count0 == TokenSum(current0, tokens)
    ensures Overlap(groups, current, last) == OverlapParts(done0 + SentenceParts(sentence, maxTokens, tokens), maxTokens, tokens)
    ensures count == TokenSum(current, tokens)
  {
    groups, current, count, last := groups0, current0, count0, last0;
    ghost var done := done0;
    var queue := [sentence];
    while queue != []
      invariant |queue| <= 1 && (queue != [] ==> BisectionEnds(queue[0], maxTokens, tokens))
      invariant done + Pending(queue, maxTokens, tokens) == done0 + SentenceParts(sentence, maxTokens, tokens)
      invariant Overlap(groups, current, last) == OverlapParts(done, maxTokens, tokens)
      invariant count == TokenSum(current, tokens)
      decreases if queue == [] then 0 else PartMeasure(queue[0], maxTokens, tokens) + 1
    {
      ghost var pending := Pending(queue, maxTokens, tokens);
      var part, tokenCount;
      part, tokenCount, queue := NextPart(queue, maxTokens, tokens);
      ShiftPart(done, part, Pending(queue, maxTokens, tokens), pending);
      OverlapPartsSnoc(done, part, maxTokens, tokens);
      groups, current, count, last := AddPart(part, tokenCount, groups, current, count, last, maxTokens, tokens);
      done := done + [part];
    }
    assert done == done + Pending(queue, maxTokens, tokens);
  }

  /** Moving the next part from the pending parts onto the done ones keeps their concatenation. */
  lemma ShiftPart(done: seq<string>, part: string, rest: seq<string>, pending: seq<string>)
    requires [part] + rest == pending
    ensures (done + [part]) + rest == done + pending
  {
  }

  /**
   * Lines 82-91 of `_group_sentences_with_overlap`: pops the next part and,
   * if it is over budget, bisects it, keeping the first half and queueing
   * the second.
   */
  method NextPart(queue0: seq<string>, maxTokens: int, tokens: string -> nat)
    returns (part: string, tokenCount: nat, queue: seq<string>)
    requires |queue0| == 1 && BisectionEnds(queue0[0], maxTokens, tokens)
    ensures tokenCount == tokens(part)
    ensures tokens(queue0[0]) <= maxTokens ==> part == queue0[0] && queue == []
    ensures tokens(queue0[0]) > maxTokens ==> part == Halves(queue0[0]).0 && queue == [Halves(queue0[0]).1]
    ensures |queue| <= 1 && (queue != [] ==> BisectionEnds(queue[0], maxTokens, tokens))
    ensures [part] + Pending(queue, maxTokens, tokens) == SentenceParts(queue0[0], maxTokens, tokens)
    ensures queue != [] ==> PartMeasure(queue[0], maxTokens, tokens) < PartMeasure(queue0[0], maxTokens, tokens)
  {
    part := queue0[0];
    queue := queue0[1..];
    tokenCount := tokens(part);
    if tokenCount > maxTokens {
      BisectionProgress(part, maxTokens, tokens);
      var halves := Halves(part);
      queue := [halves.1];
      part := halves.0;
      tokenCount := tokens(part);
    }
  }

  /**
   * Lines 93-108 of `_group_sentences_with_overlap` for one part: the
   * previous part is appended again if it still fits the open group, then
   * the part is placed.
   */
  method AddPart(part: string, tokenCount: nat, groups0: seq<seq<string>>, current0: seq<string>, count0: nat,
                 last0: string, maxTokens: int, tokens: string -> nat)
    returns (groups: seq<seq<string>>, current: seq<string>, count: nat, last: string)
    requires tokenCount == tokens(part) && count0 == TokenSum(current0, tokens)
    ensures Overlap(groups, current, last) == OverlapStep(Overlap(groups0, current0, last0), part, maxTokens, tokens)
    ensures count == TokenSum(current, tokens)
  {
    var grown, grownCount := current0, count0;
    if last0 != "" && count0 + tokens(last0) <= maxTokens {
      AppendToken(current0, last0, tokens);
      grown, grownCount := current0 + [last0], count0 + tokens(last0);
    }
    groups, current, count := PlacePart(part, tokenCount, groups0, grown, grownCount, maxTokens, tokens);
    last := part;
  }

  /**
   * Lines 99-106: the part joins the open group if it fits; otherwise the
   * open group is closed, unless it is empty, and the part starts the next.
   */
  method PlacePart(part: string, tokenCount: nat, groups0: seq<seq<string>>, current0: seq<string>, count0: nat,
                   maxTokens: int, tokens: string -> nat)
    returns (groups: seq<seq<string>>, current: seq<string>, count: nat)
    requires tokenCount == tokens(part) && count0 == TokenSum(current0, tokens)
    ensures count0 + tokenCount <= maxTokens ==> groups == groups0 && current == current0 + [part]
    ensures count0 + tokenCount > maxTokens ==>
      groups == (if current0 != [] then groups0 + [current0] else groups0) && current == [part]
    ensures count == TokenSum(current, tokens)
  {
    if count0 + tokenCount <= maxTokens {
      AppendToken(current0, part, tokens);
      groups, current, count := groups0, current0 + [part], count0 + tokenCount;
    } else {
      groups := groups0;
      if current0 != [] {
        groups := groups0 + [current0];
      }
      AppendToken([], part, tokens);
      current, count := [part], tokenCount;
    }
  }

  /** The parts still to come from the work queue. */
  function Pending(queue: seq<string>, maxTokens: int, tokens: string -> nat): seq<string>
    requires queue != [] ==> BisectionEnds(queue[0], maxTokens, tokens)
  {
    if queue == [] then [] else SentenceParts(queue[0], maxTokens, tokens)
  }

  lemma AllPartsNext(sentences: seq<string>, i: int, maxTokens: int, tokens: string -> nat)
    requires AllBisectionsEnd(sentences, maxTokens, tokens) && 0 <= i < |sentences|
    ensures AllBisectionsEnd(sentences[..i], maxTokens, tokens) && AllBisectionsEnd(sentences[..i + 1], maxTokens, tokens)
    ensures AllParts(sentences[..i + 1], maxTokens, tokens)
         == AllParts(sentences[..i], maxTokens, tokens) + SentenceParts(sentences[i], maxTokens, tokens)
  {
    assert sentences[..i + 1][..i] == sentences[..i];
  }

  lemma OverlapPartsSnoc(parts: seq<string>, part: string, maxTokens: int, tokens: string -> nat)
    ensures OverlapParts(parts + [part], maxTokens, tokens) == OverlapStep(OverlapParts(parts, maxTokens, tokens), part, maxTokens, tokens)
  {
    assert (parts + [part])[..|parts|] == parts;
  }

  lemma CopyFlagsSnoc(parts: seq<string>, part: string, maxTokens: int, tokens: string -> nat)
    ensures CopyFlags(parts + [part], maxTokens, tokens)
         == CopyFlags(parts, maxTokens, tokens) + [CopiesLast(OverlapParts(parts, maxTokens, tokens), maxTokens, tokens)]
  {
    var ps := parts + [part];
    var flags, flags0 := CopyFlags(ps, maxTokens, tokens), CopyFlags(parts, maxTokens, tokens);
    forall k | 0 <= k < |parts| ensures flags[k] == flags0[k] {
      assert ps[..k] == parts[..k];
    }
    assert ps[..|parts|] == parts;
  }

  /**
   * The shape the grouping keeps: the groups spell `stream`, the closed
   * groups are non-empty, and the greedy invariant of the by-tokens grouper
   * holds of the closed and open groups.
   */
  ghost predicate OverlapShape(groups: seq<seq<string>>, current: seq<string>, stream: seq<string>,
                               maxTokens: int, tokens: string -> nat) {
    && Flatten(groups) + current == stream
    && (forall k :: 0 <= k < |groups| ==> groups[k] != [])
    && Greedy(groups, current, maxTokens, tokens)
  }

  /** The copy keeps the shape and adds the previous part to the stream. */
  lemma GrownShape(st: Overlap, stream: seq<string>, maxTokens: int, tokens: string -> nat)
    requires OverlapShape(st.groups, st.current, stream, maxTokens, tokens)
    ensures var grown := Grown(st, maxTokens, tokens);
      && OverlapShape(st.groups, grown, stream + (if CopiesLast(st, maxTokens, tokens) then [st.last] else []), maxTokens, tokens)
      && (grown == [] ==> st.groups == [])
  {
    if CopiesLast(st, maxTokens, tokens) {
      GreedyAppend(st.groups, st.current, st.last, maxTokens, tokens);
      assert Flatten(st.groups) + (st.current + [st.last]) == Flatten(st.groups) + st.current + [st.last];
    }
  }

  /** A part that fits joins the open group. */
  lemma JoinShape(groups: seq<seq<string>>, current: seq<string>, stream: seq<string>, part: string,
                  maxTokens: int, tokens: string -> nat)
    requires OverlapShape(groups, current, stream, maxTokens, tokens)
    requires TokenSum(current, tokens) + tokens(part) <= maxTokens
    ensures OverlapShape(groups, current + [part], stream + [part], maxTokens, tokens)
  {
    GreedyAppend(groups, current, part, maxTokens, tokens);
    assert Flatten(groups) + (current + [part]) == stream + [part];
  }

  /** A part that does not fit closes a non-empty open group and opens the next. */
  lemma CloseShape(groups: seq<seq<string>>, current: seq<string>, stream: seq<string>, part: string,
                   maxTokens: int, tokens: string -> nat)
    requires OverlapShape(groups, current, stream, maxTokens, tokens)
    requires current != [] && TokenSum(current, tokens) + tokens(part) > maxTokens
    ensures OverlapShape(groups + [current], [part], stream + [part], maxTokens, tokens)
  {
    GreedyClose(groups, current, part, maxTokens, tokens);
    FlattenAppend(groups, current);
    var gs := groups + [current];
    assert forall k :: 0 <= k < |groups| ==> gs[k] == groups[k];
  }

  /** One step keeps the shape, adding the copy (if any) and the part to the stream. */
  lemma StepShape(st: Overlap, stream: seq<string>, part: string, maxTokens: int, tokens: string -> nat)
    requires OverlapShape(st.groups, st.current, stream, maxTokens, tokens)
    ensures var st' := OverlapStep(st, part, maxTokens, tokens);
      OverlapShape(st'.groups, st'.current,
                   stream + (if CopiesLast(st, maxTokens, tokens) then [st.last] else []) + [part], maxTokens, tokens)
  {
    var grown := Grown(st, maxTokens, tokens);
    var stream1 := stream + (if CopiesLast(st, maxTokens, tokens) then [st.last] else []);
    GrownShape(st, stream, maxTokens, tokens);
    if TokenSum(grown, tokens) + tokens(part) <= maxTokens {
      JoinShape(st.groups, grown, stream1, part, maxTokens, tokens);
    } else if grown != [] {
      CloseShape(st.groups, grown, stream1, part, maxTokens, tokens);
    } else {
      AppendToken([], part, tokens);
    }
  }

  /** The fold over the parts keeps the shape, with `last_sentence` the last part. */
  lemma {:induction false} OverlapPartsShape(parts: seq<string>, maxTokens: int, tokens: string -> nat)
    ensures var st := OverlapParts(parts, maxTokens, tokens);
      && OverlapShape(st.groups, st.current, WithCopies(parts, CopyFlags(parts, maxTokens, tokens)), maxTokens, tokens)
      && st.last == (if parts == [] then "" else parts[|parts| - 1])
  {
    if parts != [] {
      var n := |parts| - 1;
      var init, part := parts[..n], parts[n];
      assert parts == init + [part];
      OverlapPartsShape(init, maxTokens, tokens);
      var st0 := OverlapParts(init, maxTokens, tokens);
      var copy := CopiesLast(st0, maxTokens, tokens);
      StepShape(st0, WithCopies(init, CopyFlags(init, maxTokens, tokens)), part, maxTokens, tokens);
      CopyFlagsSnoc(init, part, maxTokens, tokens);
      AppendPart(init, CopyFlags(init, maxTokens, tokens), part, copy);
    }
  }

  /** The reference grouping meets its promise. */
  lemma OverlapGroupsCorrect(parts: seq<string>, maxTokens: int, tokens: string -> nat)
    ensures GroupedWithOverlap(Closed(OverlapParts(parts, maxTokens, tokens)), parts, maxTokens, tokens)
  {
    ClosedShape(parts, maxTokens, tokens);
    CopyFlagsRule(parts, maxTokens, tokens);
  }

  lemma ClosedShape(parts: seq<string>, maxTokens: int, tokens: string -> nat)
    ensures var groups := Closed(OverlapParts(parts, maxTokens, tokens));
      && GroupsFilled(groups, maxTokens, tokens)
      && Flatten(groups) == WithCopies(parts, CopyFlags(parts, maxTokens, tokens))
      && ClosedOnOverflow(groups, maxTokens, tokens)
  {
    var st := OverlapParts(parts, maxTokens, tokens);
    OverlapPartsShape(parts, maxTokens, tokens);
    if st.current != [] {
      FlattenAppend(st.groups, st.current);
      GreedyFinish(st.groups, st.current, maxTokens, tokens);
      var gs := st.groups + [st.current];
      assert forall k :: 0 <= k < |st.groups| ==> gs[k] == st.groups[k];
    }
  }

  lemma CopyFlagsRule(parts: seq<string>, maxTokens: int, tokens: string -> nat)
    ensures CopyRule(parts, maxTokens, tokens)
  {
    var flags := CopyFlags(parts, maxTokens, tokens);
    forall k | 0 <= k < |parts|
      ensures flags[k] <==>
        (k > 0 && parts[k - 1] != "" &&
         TokenSum(OverlapParts(parts[..k], maxTokens, tokens).current, tokens) + tokens(parts[k - 1]) <= maxTokens)
    {
      OverlapPartsShape(parts[..k], maxTokens, tokens);
      if k > 0 {
        assert parts[..k][k - 1] == parts[k - 1];
      }
    }
  }

  /**
   * When the bisections of `q` end, its second half's do too and have a
   * smaller measure, so the work queue empties.
   */
  lemma BisectionProgress(q: string, maxTokens: int, tokens: string -> nat)
    requires BisectionEnds(q, maxTokens, tokens) && tokens(q) > maxTokens
    ensures BisectionEnds(Halves(q).1, maxTokens, tokens)
    ensures PartMeasure(Halves(q).1, maxTokens, tokens) < PartMeasure(q, maxTokens, tokens)
  {
    var n := |Words(q)|;
    var right := Halves(q).1;
    assert |Words(right)| == n - n / 2;
    if n <= 1 {
      assert tokens(right) <= maxTokens;
      assert PartMeasure(right, maxTokens, tokens) == 2 * n;
    } else {
      assert BisectionEnds(right, maxTokens, tokens);
      assert PartMeasure(right, maxTokens, tokens) <= 2 * (n - n / 2) + 1;
    }
  }

  /**
   * Otherwise the queue never empties: `q` is over budget and its
   * bisections do not end from the second half either, which is queued next.
   */
  lemma BisectionNeverEnds(q: string, maxTokens: int, tokens: string -> nat)
    requires !BisectionEnds(q, maxTokens, tokens)
    ensures tokens(q) > maxTokens
    ensures !BisectionEnds(Halves(q).1, maxTokens, tokens)
  {
    var ws := Words(q);
    if |ws| <= 1 {
      var right := Halves(q).1;
      assert ws[|ws| / 2..] == ws;
      assert Words(right)[|Words(right)| / 2..] == Words(right);
      assert Halves(right).1 == right;
    }
  }

  /** For instance a lone word over the budget bisects into "" and itself. */
  lemma LoneOverBudgetWordRequeued(w: string, maxTokens: int, tokens: string -> nat)
    requires IsWord(w) && tokens(w) > maxTokens
    ensures Halves(w) == ("", w)
    ensures !BisectionEnds(w, maxTokens, tokens)
  {
    WordsOfOneWord(w);
  }

  // ---------------------------------------------------------------------
  // Lemmas

  lemma AppendToken(g: seq<string>, s: string, tokens: string -> nat)
    ensures TokenSum(g + [s], tokens) == TokenSum(g, tokens) + tokens(s)
  {
    assert (g + [s])[..|g|] == g;
  }

  lemma FlattenAppend(gs: seq<seq<string>>, g: seq<string>)
    ensures Flatten(gs + [g]) == Flatten(gs) + g
  {
    assert (gs + [g])[..|gs|] == gs;
  }

  lemma AppendPart(parts: seq<string>, copied: seq<bool>, part: string, copy: bool)
    requires |copied| == |parts|
    ensures WithCopies(parts + [part], copied + [copy])
         == WithCopies(parts, copied) + (if copy && parts != [] then [parts[|parts| - 1]] else []) + [part]
  {
    var ps, cs, n := parts + [part], copied + [copy], |parts|;
    assert ps[..n] == parts && cs[..n] == copied;
    assert cs[n] == copy && ps[n] == part;
    assert n > 0 ==> ps[n - 1] == parts[n - 1];
    assert WithCopies(ps, cs) == WithCopies(ps[..n], cs[..n]) + (if cs[n] && n > 0 then [ps[n - 1]] else []) + [ps[n]];
  }
}
