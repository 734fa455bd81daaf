/**
  The pure calculations of the site search widget: id assignment at load time,
  the query (lunr's ranking mapped back to documents and cut to a fixed
  limit), highlighting of term matches, the excerpt window around the first
  match in a document's content, and the rendering of one result.

  Two foreign engines are abstract inputs here:
  - lunr's ranking of a term is a ranked list of refs (document ids);
  - the JavaScript RegExp built from the search term is a `Matcher`: the
    number of its capture groups, and for each string the sorted, disjoint
    spans a global case-insensitive match finds in it (the first span is the
    first match).
 */
module SearchCore {
  import opened JsBuiltins

  datatype Option<+T> = None | Some(value: T)

  /** Maximum number of results a query returns. */
  const SEARCH_RESULT_LIMIT: nat := 3
  /** Characters of context the excerpt keeps before the first match. */
  const EXCERPT_BEFORE: nat := 40
  /** Characters of context the excerpt keeps after the computed match end. */
  const EXCERPT_AFTER: nat := 120

  const MARK_OPEN: string := "<mark>"
  const MARK_CLOSE: string := "</mark>"
  const ELLIPSIS: string := "..."

  function Min(a: int, b: int): int {
    if a <= b then a else b
  }

  // ---------------------------------------------------------------------------
  // Documents and id assignment

  /** A record of the search index: `title`, `content` and `url` as fetched;
      `id` is None until loading assigns one. */
  datatype Doc = Doc(id: Option<nat>, title: string, content: string, url: string)

  /** Every document's id is its position in the collection. */
  predicate IdsArePositions(docs: seq<Doc>) {
    forall k :: 0 <= k < |docs| ==> docs[k].id == Some(k)
  }

  /** Doc `k` with its id set to `k`, everything else as fetched. */
  function WithIds(records: seq<Doc>): (docs: seq<Doc>)
    ensures |docs| == |records|
    ensures IdsArePositions(docs)
    ensures forall k :: 0 <= k < |docs| ==>
      docs[k].title == records[k].title && docs[k].content == records[k].content && docs[k].url == records[k].url
  {
    seq(|records|, k requires 0 <= k < |records| => records[k].(id := Some(k)))
  }

  /** The `forEach` loop of `load`: sets each doc's id to its index, in place. */
  method AssignIds(docs: array<Doc>)
    modifies docs
    ensures docs[..] == WithIds(old(docs[..]))
  {
    for i := 0 to docs.Length
      invariant forall k :: 0 <= k < i ==> docs[k] == old(docs[k]).(id := Some(k))
      invariant forall k :: i <= k < docs.Length ==> docs[k] == old(docs[k])
    {
      docs[i] := docs[i].(id := Some(i));
    }
  }

  /** The ids carried by a collection. */
  function IdSet(docs: seq<Doc>): set<nat> {
    set k | 0 <= k < |docs| && docs[k].id.Some? :: docs[k].id.value
  }

  /** After loading N docs the ids are exactly 0..N-1, each used once. */
  lemma IdsAreDenseAndDistinct(records: seq<Doc>)
    ensures forall k: nat :: k in IdSet(WithIds(records)) <==> k < |records|
    ensures forall i, j :: 0 <= i < j < |records| ==> WithIds(records)[i].id != WithIds(records)[j].id
  {
    var docs := WithIds(records);
    forall k: nat | k < |records|
      ensures k in IdSet(docs)
    {
      assert docs[k].id == Some(k);
    }
  }

  // ---------------------------------------------------------------------------
  // Query

  /** Every ref of the ranking names a loaded doc (lunr only returns refs of
      the docs it was built from). */
  predicate RefsIn(refs: seq<nat>, n: nat) {
    forall i :: 0 <= i < |refs| ==> refs[i] < n
  }

  /** `ranking.map(r => docs[r.ref])`. */
  function MapRefs(docs: seq<Doc>, refs: seq<nat>): (r: seq<Doc>)
    requires RefsIn(refs, |docs|)
    ensures |r| == |refs|
    ensures forall i :: 0 <= i < |r| ==> r[i] == docs[refs[i]]
  {
    if refs == [] then []
    else [docs[refs[0]]] + MapRefs(docs, refs[1..])
  }

  /** `search(term)`, with lunr's ranking of `term` given as `ranked`.
      Nothing is returned (JavaScript `undefined`) while no docs are loaded. */
  function Search(docs: Option<seq<Doc>>, ranked: seq<nat>): (r: Option<seq<Doc>>)
    requires docs.Some? ==> RefsIn(ranked, |docs.value|)
    ensures r.None? <==> docs.None?
    ensures r.Some? ==> |r.value| == Min(|ranked|, SEARCH_RESULT_LIMIT)
    ensures r.Some? ==> r.value <= MapRefs(docs.value, ranked)
  {
    if docs.None? then None
    else Some(JsSlice(MapRefs(docs.value, ranked), 0, SEARCH_RESULT_LIMIT))
  }

  /** On docs loaded with their ids, result i is the doc whose id is the i-th
      ranked ref: the ids make the ref lookup by position correct. */
  lemma SearchFollowsRanking(records: seq<Doc>, ranked: seq<nat>, i: nat)
    requires RefsIn(ranked, |records|)
    requires i < Min(|ranked|, SEARCH_RESULT_LIMIT)
    ensures var r := Search(Some(WithIds(records)), ranked);
      r.Some? && i < |r.value| && r.value[i].id == Some(ranked[i])
      && r.value[i].title == records[ranked[i]].title
      && r.value[i].content == records[ranked[i]].content
      && r.value[i].url == records[ranked[i]].url
  {
  }

  /** A worked query: of two fetched documents, lunr ranks only the first for
      the term "cats"; the search returns that document alone, with id 0. */
  lemma CatsSearched()
    ensures Search(Some(WithIds([Doc(None, "Cats", "Cats are great pets", "/cats"),
                                 Doc(None, "Dogs", "Dogs are loyal", "/dogs")])), [0])
      == Some([Doc(Some(0), "Cats", "Cats are great pets", "/cats")])
  {
  }

  // ---------------------------------------------------------------------------
  // Highlighting

  /** A match of the term in a string: characters start..end. */
  datatype Span = Span(start: nat, end: nat)

  /** Spans sorted, disjoint, and inside pos..n. */
  predicate SpansWithin(spans: seq<Span>, pos: nat, n: nat) {
    && (forall i :: 0 <= i < |spans| ==> pos <= spans[i].start <= spans[i].end <= n)
    && (forall i, j :: 0 <= i < j < |spans| ==> spans[i].end <= spans[j].start)
  }

  /** A piece of a highlighted string: text left as it is, or a match. */
  datatype Segment = Plain(text: string) | Marked(text: string)

  /** The characters of the pieces, without markers. */
  function Text(segs: seq<Segment>): string {
    if segs == [] then "" else segs[0].text + Text(segs[1..])
  }

  /** The texts of the marked pieces, in order. */
  function MarkedTexts(segs: seq<Segment>): seq<string> {
    if segs == [] then []
    else if segs[0].Marked? then [segs[0].text] + MarkedTexts(segs[1..])
    else MarkedTexts(segs[1..])
  }

  /** The pieces as markup: each match wrapped in `<mark>`...`</mark>`. */
  function Markup(segs: seq<Segment>): string {
    if segs == [] then ""
    else
      (if segs[0].Marked? then MARK_OPEN + segs[0].text + MARK_CLOSE else segs[0].text)
      + Markup(segs[1..])
  }

  /** The texts of the spans of `s`. */
  function SpanTexts(s: string, spans: seq<Span>): (ts: seq<string>)
    requires SpansWithin(spans, 0, |s|)
    ensures |ts| == |spans|
  {
    seq(|spans|, i requires 0 <= i < |spans| => s[spans[i].start..spans[i].end])
  }

  /** `s` from `pos` on, cut at the spans: plain text and matches alternate,
      starting and ending with a (possibly empty) plain piece. */
  function Segments(s: string, pos: nat, spans: seq<Span>): (segs: seq<Segment>)
    requires pos <= |s| && SpansWithin(spans, pos, |s|)
    ensures |segs| == 2 * |spans| + 1
    decreases |spans|
  {
    if spans == [] then
      [Plain(s[pos..])]
    else
      [Plain(s[pos..spans[0].start]), Marked(s[spans[0].start..spans[0].end])]
      + Segments(s, spans[0].end, spans[1..])
  }

  /** Dropping the first span leaves spans that start after its end. */
  lemma SpansTail(spans: seq<Span>, pos: nat, n: nat)
    requires spans != [] && SpansWithin(spans, pos, n)
    ensures SpansWithin(spans[1..], spans[0].end, n)
  {
    forall i | 0 <= i < |spans| - 1
      ensures spans[0].end <= spans[1..][i].start
    {
      assert spans[1..][i] == spans[i + 1];
    }
  }

  /** Unfolds the segments of a non-empty span list one step. */
  lemma SegmentsStep(s: string, pos: nat, spans: seq<Span>)
    requires pos <= |s| && SpansWithin(spans, pos, |s|) && spans != []
    ensures SpansWithin(spans[1..], spans[0].end, |s|)
    ensures var rest := Segments(s, spans[0].end, spans[1..]);
      var segs := Segments(s, pos, spans);
      && segs[0] == Plain(s[pos..spans[0].start])
      && segs[1..] == [Marked(s[spans[0].start..spans[0].end])] + rest
      && segs[1..][0] == Marked(s[spans[0].start..spans[0].end])
      && segs[1..][1..] == rest
  {
    SpansTail(spans, pos, |s|);
    var rest := Segments(s, spans[0].end, spans[1..]);
    var segs := Segments(s, pos, spans);
    assert segs[1..] == [Marked(s[spans[0].start..spans[0].end])] + rest;
  }

  /** The cut loses no text and adds none. */
  lemma {:induction false} SegmentsKeepText(s: string, pos: nat, spans: seq<Span>)
    requires pos <= |s| && SpansWithin(spans, pos, |s|)
    ensures Text(Segments(s, pos, spans)) == s[pos..]
    decreases |spans|
  {
    if spans == [] {
      assert Text(Segments(s, pos, spans)) == s[pos..] + Text([]);
    } else {
      var sp := spans[0];
      SegmentsStep(s, pos, spans);
      SegmentsKeepText(s, sp.end, spans[1..]);
      assert s[pos..] == s[pos..sp.start] + s[sp.start..sp.end] + s[sp.end..];
    }
  }

  /** The marked pieces are exactly the spans' texts, in order. */
  lemma {:induction false} SegmentsMarkSpans(s: string, pos: nat, spans: seq<Span>)
    requires pos <= |s| && SpansWithin(spans, pos, |s|)
    ensures var marked := MarkedTexts(Segments(s, pos, spans));
      && |marked| == |spans|
      && forall i :: 0 <= i < |spans| ==> marked[i] == s[spans[i].start..spans[i].end]
    decreases |spans|
  {
    if spans == [] {
      assert MarkedTexts(Segments(s, pos, spans)) == MarkedTexts([]);
    } else {
      var sp := spans[0];
      var tail := spans[1..];
      SegmentsStep(s, pos, spans);
      SegmentsMarkSpans(s, sp.end, tail);
      var segs := Segments(s, pos, spans);
      var marked := MarkedTexts(segs);
      assert marked == MarkedTexts(segs[1..]);
      assert marked == [s[sp.start..sp.end]] + MarkedTexts(Segments(s, sp.end, tail));
      forall i | 0 <= i < |spans|
        ensures marked[i] == s[spans[i].start..spans[i].end]
      {
        if i > 0 {
          assert spans[i] == tail[i - 1];
        }
      }
    }
  }

  /** The text between the matches: the i-th gap runs from the end of match
      i - 1 (or `pos`) to the start of match i (or the end of `s`). */
  function Gap(s: string, pos: nat, spans: seq<Span>, i: nat): string
    requires pos <= |s| && SpansWithin(spans, pos, |s|) && i <= |spans|
  {
    var from := if i == 0 then pos else spans[i - 1].end;
    var to := if i == |spans| then |s| else spans[i].start;
    s[from..to]
  }

  /** The cut places every match at its own position: piece 2i + 1 is match
      i, marked, and piece 2i is the plain gap before it (the last one, the
      rest of `s`). */
  lemma {:induction false} SegmentsAtSpans(s: string, pos: nat, spans: seq<Span>)
    requires pos <= |s| && SpansWithin(spans, pos, |s|)
    ensures var segs := Segments(s, pos, spans);
      && (forall i :: 0 <= i < |spans| ==> segs[2 * i + 1] == Marked(s[spans[i].start..spans[i].end]))
      && (forall i: nat :: i <= |spans| ==> segs[2 * i] == Plain(Gap(s, pos, spans, i)))
    decreases |spans|
  {
    var segs := Segments(s, pos, spans);
    if spans == [] {
      assert segs == [Plain(s[pos..])];
    } else {
      var tail := spans[1..];
      var e := spans[0].end;
      SegmentsStep(s, pos, spans);
      SegmentsAtSpans(s, e, tail);
      var rest := Segments(s, e, tail);
      assert segs == [Plain(s[pos..spans[0].start]), Marked(s[spans[0].start..spans[0].end])] + rest;
      forall i | 0 <= i < |spans|
        ensures segs[2 * i + 1] == Marked(s[spans[i].start..spans[i].end])
      {
        if i > 0 {
          assert spans[i] == tail[i - 1];
          assert segs[2 * i + 1] == rest[2 * (i - 1) + 1];
        }
      }
      forall i: nat | i <= |spans|
        ensures segs[2 * i] == Plain(Gap(s, pos, spans, i))
      {
        if i > 0 {
          assert segs[2 * i] == rest[2 * (i - 1)];
          assert Gap(s, pos, spans, i) == Gap(s, e, tail, i - 1);
        }
      }
    }
  }

  /** Every match adds the length of one marker pair to the markup. */
  lemma {:induction false} SegmentsMarkupLength(s: string, pos: nat, spans: seq<Span>)
    requires pos <= |s| && SpansWithin(spans, pos, |s|)
    ensures |Markup(Segments(s, pos, spans))| == |s| - pos + |spans| * (|MARK_OPEN| + |MARK_CLOSE|)
    decreases |spans|
  {
    if spans == [] {
      assert Markup(Segments(s, pos, spans)) == s[pos..] + Markup([]);
    } else {
      SegmentsStep(s, pos, spans);
      SegmentsMarkupLength(s, spans[0].end, spans[1..]);
    }
  }

  /** `string.replace(matcher, '<mark>$&</mark>')` for a global matcher whose
      matches in `s` are `spans`. */
  function HighlightWords(s: string, spans: seq<Span>): (r: string)
    requires SpansWithin(spans, 0, |s|)
    ensures |r| == |s| + |spans| * (|MARK_OPEN| + |MARK_CLOSE|)
    ensures spans == [] ==> r == s
    // the markup of a cut of `s` whose text is `s` and whose marked pieces
    // are exactly the matches
    ensures var segs := Segments(s, 0, spans);
      r == Markup(segs) && Text(segs) == s && MarkedTexts(segs) == SpanTexts(s, spans)
    // in which every match is marked at its own position and the text
    // between the matches is left as it is
    ensures var segs := Segments(s, 0, spans);
      && (forall i :: 0 <= i < |spans| ==> segs[2 * i + 1] == Marked(s[spans[i].start..spans[i].end]))
      && (forall i: nat :: i <= |spans| ==> segs[2 * i] == Plain(Gap(s, 0, spans, i)))
  {
    var segs := Segments(s, 0, spans);
    SegmentsKeepText(s, 0, spans);
    SegmentsMarkSpans(s, 0, spans);
    SegmentsMarkupLength(s, 0, spans);
    SegmentsAtSpans(s, 0, spans);
    Markup(segs)
  }

  // ---------------------------------------------------------------------------
  // Excerpt and rendering

  /** The term's RegExp: the number of its capture groups, and the spans a
      global match finds in each string. */
  datatype Matcher = Matcher(groups: nat, matches: string -> seq<Span>)

  ghost predicate MatcherWellFormed(m: Matcher) {
    forall s :: SpansWithin(m.matches(s), 0, |s|)
  }

  /** `contentMatch.length`: the length of the match array (the whole match
      and one entry per capture group), not the length of the matched text. */
  function MatchArrayLength(m: Matcher): (k: nat)
    ensures k >= 1
  {
    m.groups + 1
  }

  /** The window `content.slice(start - 40, end + 120)` around the first match,
      with `end = start + contentMatch.length`; None when nothing matches. */
  function ExcerptWindow(content: string, m: Matcher): (w: Option<string>)
    ensures w.Some? <==> m.matches(content) != []
    // at most 160 characters plus the match-array length, however long the match
    ensures w.Some? ==> |w.value| <= EXCERPT_BEFORE + EXCERPT_AFTER + MatchArrayLength(m)
    // away from both ends of the content it is the plain substring
    ensures w.Some? ==>
      var start := m.matches(content)[0].start;
      var k := MatchArrayLength(m);
      EXCERPT_BEFORE <= start && start + k + EXCERPT_AFTER <= |content| ==>
        w.value == content[start - EXCERPT_BEFORE..start + k + EXCERPT_AFTER]
    // near the content's end the window is clamped to it
    ensures w.Some? ==>
      var start := m.matches(content)[0].start;
      var k := MatchArrayLength(m);
      EXCERPT_BEFORE <= start <= |content| + EXCERPT_BEFORE && |content| < start + k + EXCERPT_AFTER ==>
        w.value == content[start - EXCERPT_BEFORE..]
    // a match within the first 40 characters makes the begin negative: it is
    // taken back from the content's end, or clamped to 0 when that reaches
    // past the front
    ensures w.Some? ==>
      var start := m.matches(content)[0].start;
      var k := MatchArrayLength(m);
      var from := |content| + start - EXCERPT_BEFORE;
      var to := Min(start + k + EXCERPT_AFTER, |content|);
      start < EXCERPT_BEFORE ==>
        && (0 <= from < to ==> w.value == content[from..to])
        && (0 <= to <= from ==> w.value == [])
        && (from < 0 ==> w.value == content[..to])
  {
    var found := m.matches(content);
    if found == [] then None
    else
      var start := found[0].start;
      var end := start + MatchArrayLength(m);
      Some(JsSlice(content, start - EXCERPT_BEFORE, end + EXCERPT_AFTER))
  }

  /** A first match within the first 40 characters makes the slice begin
      negative, so it counts from the end of the content: once the content is
      at least 160 + k characters long, the excerpt is empty although the
      content matched. */
  lemma ExcerptEmptyForEarlyMatch(content: string, m: Matcher)
    requires m.matches(content) != []
    requires m.matches(content)[0].start < EXCERPT_BEFORE
    requires |content| >= EXCERPT_BEFORE + EXCERPT_AFTER + MatchArrayLength(m)
    ensures ExcerptWindow(content, m) == Some("")
  {
  }

  /** A first match within the first 40 characters of content no longer than
      start + k + 120: the negative begin counts back from the end, so the
      excerpt is the last 40 - start characters of the content, which begin
      after the match's first character whenever the content is longer than
      40. */
  lemma ExcerptTailForEarlyMatch(content: string, m: Matcher)
    requires m.matches(content) != []
    requires m.matches(content)[0].start < EXCERPT_BEFORE < |content| + m.matches(content)[0].start
    requires |content| <= m.matches(content)[0].start + MatchArrayLength(m) + EXCERPT_AFTER
    ensures var start := m.matches(content)[0].start;
      && ExcerptWindow(content, m) == Some(content[|content| - (EXCERPT_BEFORE - start)..])
      && (EXCERPT_BEFORE < |content| ==> start < |content| - (EXCERPT_BEFORE - start))
  {
  }

  /** A match at `start` in a content of at most 40 - start characters: the
      negative begin clamps to 0 and the excerpt is the whole content. */
  lemma ExcerptWholeForShortContent(content: string, m: Matcher)
    requires m.matches(content) != []
    requires m.matches(content)[0].start + |content| <= EXCERPT_BEFORE
    ensures ExcerptWindow(content, m) == Some(content)
  {
  }

  /** The window ends k + 120 characters after the match start, whatever the
      match's own length: a match longer than that is cut off. */
  lemma ExcerptCutsLongMatch(content: string, m: Matcher)
    requires MatcherWellFormed(m)
    requires m.matches(content) != []
    requires EXCERPT_BEFORE <= m.matches(content)[0].start
    requires m.matches(content)[0].end > m.matches(content)[0].start + MatchArrayLength(m) + EXCERPT_AFTER
    ensures var w := ExcerptWindow(content, m);
      w.Some? && w.value == content[m.matches(content)[0].start - EXCERPT_BEFORE
                                    ..m.matches(content)[0].start + MatchArrayLength(m) + EXCERPT_AFTER]
  {
  }

  /** One rendered result: link target, highlighted title, and the
      highlighted excerpt between ellipses when the content matched. */
  datatype Entry = Entry(url: string, title: string, excerpt: Option<string>)

  /** `renderSearchResult(searchTerm, result)`, the term given by its matcher. */
  function RenderSearchResult(doc: Doc, m: Matcher): (e: Entry)
    requires MatcherWellFormed(m)
    ensures e.url == doc.url
    ensures e.title == HighlightWords(doc.title, m.matches(doc.title))
    ensures e.excerpt.Some? <==> m.matches(doc.content) != []
    ensures e.excerpt.Some? ==>
      var w := ExcerptWindow(doc.content, m).value;
      e.excerpt.value == ELLIPSIS + HighlightWords(w, m.matches(w)) + ELLIPSIS
  {
    var title := HighlightWords(doc.title, m.matches(doc.title));
    match ExcerptWindow(doc.content, m)
    case None => Entry(doc.url, title, None)
    case Some(w) => Entry(doc.url, title, Some(ELLIPSIS + HighlightWords(w, m.matches(w)) + ELLIPSIS))
  }

  /** `results.map(renderSearchResult.bind(this, searchTerm))`. */
  function RenderAll(results: seq<Doc>, m: Matcher): (es: seq<Entry>)
    requires MatcherWellFormed(m)
    ensures |es| == |results|
    ensures forall i :: 0 <= i < |es| ==> es[i] == RenderSearchResult(results[i], m)
  {
    seq(|results|, i requires 0 <= i < |results| => RenderSearchResult(results[i], m))
  }

  /** Highlighting a string with a single match. */
  lemma HighlightOneSpan(s: string, sp: Span)
    requires sp.start <= sp.end <= |s|
    ensures HighlightWords(s, [sp]) == s[..sp.start] + MARK_OPEN + s[sp.start..sp.end] + MARK_CLOSE + s[sp.end..]
  {
    var segs := Segments(s, 0, [sp]);
    assert Segments(s, sp.end, []) == [Plain(s[sp.end..])];
    assert segs == [Plain(s[..sp.start]), Marked(s[sp.start..sp.end])] + [Plain(s[sp.end..])];
    assert segs[1..] == [Marked(s[sp.start..sp.end]), Plain(s[sp.end..])];
    assert segs[1..][1..] == [Plain(s[sp.end..])];
    assert Markup(segs[1..][1..]) == s[sp.end..] + Markup([]);
    assert Markup(segs[1..]) == MARK_OPEN + s[sp.start..sp.end] + MARK_CLOSE + Markup(segs[1..][1..]);
    assert Markup(segs) == s[..sp.start] + Markup(segs[1..]);
  }

  /** The worked query continued: the term "cats" matches the whole title
      "Cats" (case-insensitively), which is rendered as one marked word. */
  lemma CatsTitleHighlighted()
    ensures HighlightWords("Cats", [Span(0, 4)]) == "<mark>Cats</mark>"
  {
  }
}
