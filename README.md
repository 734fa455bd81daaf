# Site search widget — Dafny model

This project models the in-browser search widget of a static documentation
site (`js/components/search.js`). The widget shows a results panel when the
search field gets focus. The first time it is shown, it loads the site's
document index, assigning each document its position as id. Each settled
keystroke runs the query through the full-text library (lunr). The widget
keeps at most three results and renders each with a highlighted title and an
excerpt around the first match. Escape, the arrow keys and a click outside
close the panel or move the focus between results.

The model has three modules:

- `JsBuiltins` (`js_builtins.dfy`): the JavaScript built-ins the widget relies
  on. `String.prototype.slice` / `Array.prototype.slice` follow their
  ECMAScript rules: a negative index counts from the end, and every index is
  clamped. `String.prototype.trim` removes JavaScript white space and line
  terminators.
- `SearchCore` (`search_core.dfy`): the pure calculations. These are id
  assignment, `search`, `highlightWords`, the excerpt window and
  `renderSearchResult`. lunr's ranking of a term is an input, a ranked list of
  refs. The term's RegExp is a `Matcher`: its capture-group count, and the
  sorted, disjoint match spans it finds in any string.
- `SearchWidget` (`search_widget.dfy`): the widget state as a class
  `Widget`. Its fields are visibility, the document listeners (a multiset),
  the loaded docs, the panel's `data-state` and content, the focused result
  and the number of loads in flight. `Valid()` states three invariants: both
  listeners are bound exactly while the panel is shown, once each; a focused
  result exists; loaded docs carry their position as id.

The model follows the code as written, including these behaviours:

- The excerpt's end is `start + contentMatch.length`. That is the length of
  the match array (capture groups + 1), not the length of the matched text.
  `ExcerptCutsLongMatch` shows that a long match is cut off.
- When the first match is within 40 characters of the start, the slice's
  begin is negative and counts from the end of the content.
  `ExcerptEmptyForEarlyMatch` shows that the excerpt is then empty once the
  content is at least 160 + k characters long. `ExcerptTailForEarlyMatch`
  shows that in shorter content the excerpt is the content's last 40 - start
  characters. Once the content is longer than 40 characters, that window
  begins after the match's first character, so the excerpt loses at least
  the start of the match.
- After a successful load, the continuation calls `search()` without a term
  when the field holds a non-empty term and the panel is shown, and drops the
  result. It neither re-runs nor renders the last query. The
  panel keeps whatever it showed, normally the "Loading..." message in state
  `loading` (`Widget.LoadSucceeded`).
- Typing a term before the docs are loaded reads `.length` of `undefined`.
  The handler ends in a TypeError (`NotLoadedTypeError`) and writes nothing.
- A term that lunr's query parser rejects makes `index.search` throw. The
  handler ends there (`QueryError`) and writes nothing, so the previous
  results stay on the panel.
- A load that fails after another one has succeeded still writes the
  failure. The results on screen are replaced by "Failed to load search
  data", in state `loading-error`, although the docs are loaded and the next
  keystroke searches normally (`Widget.LoadFailed` leaves `docs` as it is).
- Nothing prevents a second load from starting. Hiding and showing again
  while a load is in flight starts another one, counted in `pendingLoads`.

## Model

| member | source | states |
|---|---|---|
| `JsBuiltins.JsSlice` | js/components/search.js:60 | `slice`: in-range arguments give the substring; a negative begin or end counts from the end; an end past the length is clamped to it and a begin reaching back past the front to 0; an end at or before the resolved begin, or a begin past the length, gives the empty string; the value is stated for every combination of signs; the length never exceeds the string's or the distance from the clamped begin to the end |
| `JsBuiltins.Trim` | js/components/search.js:151 | `trim`: the result is empty exactly when every character is white space; otherwise it is the middle of the value between its leading and trailing white space, and starts and ends with a non-space character |
| `SearchCore.WithIds` | js/components/search.js:29-32 | after loading, doc k has id k and keeps its fetched title, content and url |
| `SearchCore.AssignIds` | js/components/search.js:29-32 | the in-place `forEach` loop leaves the array equal to `WithIds` of its old contents |
| `SearchCore.IdsAreDenseAndDistinct` | js/components/search.js:29-32 | the ids of N loaded docs are exactly 0..N-1, each used once |
| `SearchCore.MapRefs` | js/components/search.js:41-43 | mapping the ranking gives, in ranked order, the doc at each ref |
| `SearchCore.Search` | js/components/search.js:37-46 | returns nothing while no docs are loaded; once loaded, returns min(ranked, 3) docs, a prefix of the ranking mapped through the docs |
| `SearchCore.SearchFollowsRanking` | js/components/search.js:24-43 | on docs loaded with ids, result i is the doc whose id is the i-th ranked ref, with its fetched fields |
| `SearchCore.CatsSearched` | js/components/search.js:29-43 | of two docs, a ranking naming only the first returns exactly that doc, with id 0 |
| `SearchCore.Segments` | js/components/search.js:77 | the cut `replace` makes: plain and matched pieces alternate, 2n + 1 pieces for n matches |
| `SearchCore.SegmentsAtSpans` | js/components/search.js:77 | piece 2i + 1 is match i, marked, and piece 2i is the unchanged text between match i - 1 and match i |
| `SearchCore.SegmentsKeepText` | js/components/search.js:75-79 | cutting a string at its matches loses and adds no text |
| `SearchCore.SegmentsMarkSpans` | js/components/search.js:75-79 | the marked pieces are exactly the matched texts, in order |
| `SearchCore.SegmentsMarkupLength` | js/components/search.js:75-79 | each match adds exactly one `<mark>`/`</mark>` pair to the length |
| `SearchCore.HighlightWords` | js/components/search.js:75-79 | the highlighted string is the markup of a cut of the input in which every match is wrapped in `<mark>`…`</mark>` at its own position and the text between matches is unchanged; no matches leaves it unchanged; the length grows by 13 per match |
| `SearchCore.HighlightOneSpan` | js/components/search.js:75-79 | a single match is wrapped in `<mark>`…`</mark>` with the text before and after unchanged |
| `SearchCore.MatchArrayLength` | js/components/search.js:59 | `contentMatch.length` is the match array's length: at least 1, one more than the capture groups |
| `SearchCore.ExcerptWindow` | js/components/search.js:55-60 | a window exists exactly when the content matches; it is at most 160 + k characters for match-array length k, whatever the match's length; away from both ends it is the substring from start-40 to start+k+120; near the end it is clamped to the content; for a match in the first 40 characters it starts at length + start - 40, or at 0 when that is negative |
| `SearchCore.ExcerptTailForEarlyMatch` | js/components/search.js:58-60 | a first match before position 40 in content no longer than start + k + 120 gives the content's last 40 - start characters, which begin after the match's first character once the content exceeds 40 |
| `SearchCore.ExcerptEmptyForEarlyMatch` | js/components/search.js:58-60 | a first match before position 40 in content of at least 160 + k characters gives an empty excerpt |
| `SearchCore.ExcerptWholeForShortContent` | js/components/search.js:58-60 | when start + length of content is at most 40 the excerpt is the whole content |
| `SearchCore.ExcerptCutsLongMatch` | js/components/search.js:58-60 | a match longer than k + 120 characters is cut at start + k + 120 |
| `SearchCore.CatsTitleHighlighted` | js/components/search.js:75-79 | the title "Cats" matched as a whole renders as `<mark>Cats</mark>` |
| `SearchCore.RenderSearchResult` | js/components/search.js:48-73 | a result links to the doc's url, has its highlighted title, and has an excerpt exactly when the content matches, made of the highlighted window between ellipses |
| `SearchCore.RenderAll` | js/components/search.js:156 | results are rendered one entry per result, in order |
| `SearchWidget.FocusTarget` | js/components/search.js:132-146 | with no focused result the first one is targeted (if any); otherwise the result `offset` away, and a target outside the results leaves the focus unchanged (no wrap) |
| `SearchWidget.ArrowDownWalksForward` | js/components/search.js:132-146 | n ArrowDown presses from no focus focus result min(n-1, count-1) |
| `SearchWidget.ArrowDownFrom` | js/components/search.js:132-146 | n ArrowDown presses from result j focus result min(j+n, count-1) |
| `SearchWidget.ArrowUpWalksBack` | js/components/search.js:132-146 | n ArrowUp presses from result j focus result max(j-n, 0) |
| `SearchWidget.Widget.constructor` | js/components/search.js:11-15 | the widget starts hidden, with no listeners, no docs and no focused result |
| `SearchWidget.Widget.SetState` | js/components/search.js:81-89 | the state is always written; the content (and any focused result with it) is replaced only when a description is given |
| `SearchWidget.Widget.StartLoad` | js/components/search.js:17-19 | starting a load shows "Loading..." in state `loading` and adds one load in flight |
| `SearchWidget.Widget.Show` | js/components/search.js:91-114 | run as the field's focus handler (line 148), it leaves no result focused; already shown, nothing else changes; newly shown, it binds the two listeners once each and starts a load exactly when no docs are loaded |
| `SearchWidget.Widget.IsVisible` | js/components/search.js:126-130 | the panel is shown exactly while the document listeners are bound |
| `SearchWidget.Widget.Reveal` | js/components/search.js:93-96 | on a hidden panel, shows it and adds one listener of each kind, changing nothing else |
| `SearchWidget.Widget.Hide` | js/components/search.js:116-124 | idempotent; it unbinds both listeners and changes nothing else |
| `SearchWidget.Widget.LoadSucceeded` | js/components/search.js:99-106 | the docs become the fetched records with ids 0..N-1; the panel, its state and focus are unchanged |
| `SearchWidget.Widget.LoadFailed` | js/components/search.js:107-109 | the state becomes `loading-error` with the failure message and no result keeps the focus; docs are left as they were |
| `SearchWidget.Widget.MoveFocus` | js/components/search.js:132-146 | the focus becomes `FocusTarget` of the old focus, the number of rendered results and the offset |
| `SearchWidget.Widget.ShowSearchOutcome` | js/components/search.js:155-161 | rendered entries are written and kept by `setState('has-results')`; no entries give `no-results` with `No results for "<term>"` |
| `SearchWidget.Widget.InputSettled` | js/components/search.js:149-168 | empty trimmed term: `no-term` with "Enter a search term"; term before load: TypeError, nothing written; term lunr rejects: query error, nothing written; otherwise `no-results` naming the term, or `has-results` with the first three ranked docs rendered |
| `SearchWidget.Widget.OnDocumentKeyDown` | js/components/search.js:180-195 | Escape hides; ArrowUp/ArrowDown move the focus by -1/+1 and prevent the default; other keys change nothing |
| `SearchWidget.Widget.OnDocumentMouseDown` | js/components/search.js:197-203 | a press outside `.search` hides the panel; inside it changes nothing |

## Left out

- Fetching `/api/search.json` and parsing it (js/components/search.js:21-22) are network I/O. `LoadSucceeded` takes the fetched records and `LoadFailed` stands for any rejection. A response that parses but is not an array of records is not modelled.
- Building the lunr index and scoring (js/components/search.js:24-33, 41) belong to a foreign library. The ranking is an input, or None when lunr's query parser rejects the term. Its refs are required to name loaded docs, as lunr only returns refs of the docs it indexed. lunr's string refs are modelled as the numbers they index with.
- The JavaScript RegExp engine, and building the term matcher from `searchTerm.split(' ').join('|')` (js/components/search.js:50, 77), are a foreign engine. `Matcher` supplies the group count and the match spans. A term that is not a valid pattern throws a SyntaxError in the source; this is not modelled.
- Debounce timing (js/components/search.js:149, 168), promise scheduling and the `/` keyup handler that focuses and selects the field (js/components/search.js:170-177) are event-loop and timer mechanics.
- DOM operations and the HTML template's markup and classes (js/components/search.js:65-71) are UI. A rendered result is an `Entry` (url, highlighted title, optional excerpt), not a markup string. As in the source, nothing is HTML-escaped.
- Escape's `searchInput.blur()` (js/components/search.js:183) is not modelled. Focus changes the browser makes by default are not modelled either: clicking anywhere (a result, the panel's padding, a divider or the status message) or tabbing. After such a click inside `.search`, the model keeps the focused result, while on the page the next arrow key starts again from the first result. The focused result changes only through `moveFocus`, when the panel content is replaced, and when the field takes the focus (`Widget.Show`).
- `search()` as called by the load continuation (js/components/search.js:102-105): its result is discarded, so the call is modelled as changing nothing. Whether lunr accepts an undefined term is not modelled.
- Strings are sequences of Unicode characters, not UTF-16 code units. Slice positions therefore differ from JavaScript's for characters outside the Basic Multilingual Plane.
