/**
  The search widget's state machine: the results panel's visibility, the
  document-level listeners bound while it is visible, the lazily loaded
  documents, the panel's `data-state` and content, and which rendered result
  has the keyboard focus.

  The DOM is represented by the fields of `Widget`; the fetch of the index is
  split into the synchronous start (inside `Show`) and the two promise
  continuations `LoadSucceeded` and `LoadFailed`, which the event loop may run
  at any later point.
 */
module SearchWidget {
  import opened JsBuiltins
  import opened SearchCore

  /** The values the widget writes to the panel's `data-state`; `NotLoaded` is
      the value the page markup starts with. */
  datatype PanelState = NotLoaded | Loading | LoadingError | HasResults | NoResults | NoTerm

  /** The two handlers bound on `document` while the panel is shown. */
  datatype Listener = MouseDown | KeyDown

  /** The panel's content: the page's own markup, a status message, or the
      rendered results (whose entries are the focusable `.search-result`s). */
  datatype Panel = PageMarkup(html: string) | Message(description: string) | Results(entries: seq<Entry>)

  datatype Key = Escape | ArrowUp | ArrowDown | OtherKey

  /** How a run of the input handler ends: normally, by the TypeError of
      reading `.length` on the `undefined` that `search` returns before load,
      or by the QueryParseError lunr throws for a term that misuses its query
      syntax (such as an unknown `field:` prefix). */
  datatype InputOutcome = Handled | NotLoadedTypeError | QueryError

  const LOADING_TEXT: string := "Loading..."
  const LOAD_ERROR_TEXT: string := "Failed to load search data \U{1F62D}"
  const NO_TERM_TEXT: string := "Enter a search term"

  function NoResultsText(term: string): string {
    "No results for \"" + term + "\""
  }

  /** Number of `.search-result` elements in the document. */
  function ResultCount(p: Panel): nat {
    if p.Results? then |p.entries| else 0
  }

  /** The result `moveFocus(offset)` focuses: the first one when no result has
      the focus, otherwise the one `offset` places on, if it exists. */
  function FocusTarget(focused: Option<nat>, count: nat, offset: int): (r: Option<nat>)
    requires focused.Some? ==> focused.value < count
    ensures r.Some? ==> r.value < count
    ensures focused.None? ==> (r.Some? <==> count > 0) && (r.Some? ==> r.value == 0)
    ensures focused.Some? ==> r.Some?
    ensures focused.Some? && r != focused ==> r.value == focused.value + offset
    // no wrap-around: a target outside the results leaves the focus where it is
    ensures focused.Some? && !(0 <= focused.value + offset < count) ==> r == focused
    ensures focused.Some? && 0 <= focused.value + offset < count ==> r == Some(focused.value + offset)
  {
    if focused.None? then
      if count > 0 then Some(0) else None
    else if 0 <= focused.value + offset < count then Some(focused.value + offset)
    else focused
  }

  /** The focus after `times` calls of `moveFocus(offset)`. */
  function RepeatMoveFocus(focused: Option<nat>, count: nat, offset: int, times: nat): (r: Option<nat>)
    requires focused.Some? ==> focused.value < count
    ensures r.Some? ==> r.value < count
    decreases times
  {
    if times == 0 then focused
    else RepeatMoveFocus(FocusTarget(focused, count, offset), count, offset, times - 1)
  }

  lemma {:induction false} ArrowDownFrom(count: nat, j: nat, times: nat)
    requires j < count
    ensures RepeatMoveFocus(Some(j), count, 1, times) == Some(Min(j + times, count - 1))
    decreases times
  {
    if times > 0 {
      var next := FocusTarget(Some(j), count, 1);
      if j + 1 < count {
        ArrowDownFrom(count, j + 1, times - 1);
      } else {
        ArrowDownFrom(count, j, times - 1);
      }
    }
  }

  /** Pressing ArrowDown `times` times with no result focused focuses the first
      result and then walks forward one result per press, stopping at the
      last one. */
  lemma {:induction false} ArrowDownWalksForward(count: nat, times: nat)
    requires 0 < count && 0 < times
    ensures RepeatMoveFocus(None, count, 1, times) == Some(Min(times - 1, count - 1))
  {
    ArrowDownFrom(count, 0, times - 1);
  }

  /** Pressing ArrowUp walks back one result per press, stopping at the first. */
  lemma {:induction false} ArrowUpWalksBack(count: nat, j: nat, times: nat)
    requires j < count
    ensures RepeatMoveFocus(Some(j), count, -1, times) == Some(if j < times then 0 else j - times)
    decreases times
  {
    if times > 0 {
      if 0 < j {
        ArrowUpWalksBack(count, j - 1, times - 1);
      } else {
        ArrowUpWalksBack(count, j, times - 1);
      }
    }
  }

  class Widget {
    /** The panel has the `show` class. */
    var visible: bool
    /** Handlers currently registered on `document`, with multiplicity. */
    var listeners: multiset<Listener>
    /** The loaded documents, None until a load has succeeded. */
    var docs: Option<seq<Doc>>
    /** The panel's `data-state` attribute. */
    var dataState: PanelState
    /** The panel's `innerHTML`. */
    var panel: Panel
    /** Index of the `.search-result` that is `document.activeElement`, if any. */
    var focused: Option<nat>
    /** Loads started whose promise has not settled yet. */
    var pendingLoads: nat

    ghost predicate Valid()
      reads this
    {
      // the two document listeners are bound exactly while the panel is shown,
      // one of each
      && listeners == (if visible then multiset{MouseDown, KeyDown} else multiset{})
      // a focused result is one of the rendered results
      && (focused.Some? ==> focused.value < ResultCount(panel))
      // loaded docs carry their position as id
      && (docs.Some? ==> IdsArePositions(docs.value))
    }

    /** The widget as the page's markup sets it up: panel hidden, nothing loaded. */
    constructor (initialState: PanelState, initialContent: string)
      ensures Valid()
      ensures !visible && listeners == multiset{} && docs == None && pendingLoads == 0
      ensures dataState == initialState && panel == PageMarkup(initialContent) && focused == None
    {
      visible := false;
      listeners := multiset{};
      docs := None;
      dataState := initialState;
      panel := PageMarkup(initialContent);
      focused := None;
      pendingLoads := 0;
    }

    function IsVisible(): (r: bool)
      requires Valid()
      reads this
      // the panel is shown exactly while the document listeners are bound
      ensures r <==> MouseDown in listeners
      ensures r <==> KeyDown in listeners
    {
      visible
    }

    /** `setState(state, description)`: the state is always written; the
        content is replaced (dropping any focused result) only when a
        description is given. */
    method SetState(state: PanelState, description: Option<string>)
      requires Valid()
      modifies this
      ensures Valid()
      ensures dataState == state
      ensures description.Some? ==> panel == Message(description.value) && focused == None
      ensures description.None? ==> panel == old(panel) && focused == old(focused)
      ensures visible == old(visible) && listeners == old(listeners)
      ensures docs == old(docs) && pendingLoads == old(pendingLoads)
    {
      dataState := state;
      if description.Some? {
        panel := Message(description.value);
        focused := None;
      }
    }

    /** The synchronous part of `load()`: announce loading and start the fetch. */
    method StartLoad()
      requires Valid()
      modifies this
      ensures Valid()
      ensures dataState == Loading && panel == Message(LOADING_TEXT) && focused == None
      ensures pendingLoads == old(pendingLoads) + 1
      ensures visible == old(visible) && listeners == old(listeners) && docs == old(docs)
    {
      SetState(Loading, Some(LOADING_TEXT));
      pendingLoads := pendingLoads + 1;
    }

    /** The first steps of `show()` on a hidden panel: add the `show` class
        and bind the two document listeners. */
    method Reveal()
      requires Valid() && !visible
      modifies this
      ensures Valid() && visible
      ensures listeners == old(listeners) + multiset{MouseDown, KeyDown}
      ensures docs == old(docs) && dataState == old(dataState) && panel == old(panel)
      ensures focused == old(focused) && pendingLoads == old(pendingLoads)
    {
      visible := true;
      listeners := listeners + multiset{MouseDown};
      listeners := listeners + multiset{KeyDown};
    }

    /** `show()`, run as the focus handler of the search field: the field has
        taken the focus, so no result has it any more. `loadStarted` tells
        whether it began a load. */
    method Show() returns (loadStarted: bool)
      requires Valid()
      modifies this
      ensures Valid() && visible && focused == None
      ensures listeners == multiset{MouseDown, KeyDown}
      ensures docs == old(docs)
      // already shown: only the focus has moved to the field
      ensures old(visible) ==> !loadStarted && listeners == old(listeners)
      // a load starts exactly when the panel is newly shown and nothing is loaded
      ensures loadStarted <==> !old(visible) && old(docs).None?
      ensures loadStarted ==>
        dataState == Loading && panel == Message(LOADING_TEXT)
        && pendingLoads == old(pendingLoads) + 1
      ensures !loadStarted ==>
        dataState == old(dataState) && panel == old(panel) && pendingLoads == old(pendingLoads)
    {
      focused := None;
      loadStarted := false;
      if !IsVisible() {
        Reveal();
        if docs.None? {
          StartLoad();
          loadStarted := true;
        }
      }
    }

    /** `hide()`: unbinds the document listeners; idempotent. */
    method Hide()
      requires Valid()
      modifies this
      ensures Valid() && !visible && listeners == multiset{}
      ensures old(!visible) ==> unchanged(this)
      ensures docs == old(docs) && dataState == old(dataState) && panel == old(panel)
      ensures focused == old(focused) && pendingLoads == old(pendingLoads)
    {
      if IsVisible() {
        assert listeners == multiset{MouseDown} + multiset{KeyDown};
        visible := false;
        listeners := listeners - multiset{MouseDown};
        assert listeners == multiset{KeyDown};
        listeners := listeners - multiset{KeyDown};
      }
    }

    /** The fulfilled continuation of a load: `docs` holds the fetched records,
        each with its position as id. When the field holds a non-empty term and
        the panel is shown, the continuation then calls `search()` without a
        term and drops what it returns, so neither the panel nor its state
        changes: the panel keeps what it showed, normally "Loading...". */
    method LoadSucceeded(records: seq<Doc>)
      requires Valid() && pendingLoads > 0
      modifies this
      ensures Valid()
      ensures docs == Some(WithIds(records))
      ensures pendingLoads == old(pendingLoads) - 1
      ensures visible == old(visible) && listeners == old(listeners)
      ensures dataState == old(dataState) && panel == old(panel) && focused == old(focused)
    {
      var loaded := new Doc[|records|](i requires 0 <= i < |records| => records[i]);
      assert loaded[..] == records;
      AssignIds(loaded);
      docs := Some(loaded[..]);
      pendingLoads := pendingLoads - 1;
    }

    /** The rejected continuation of a load: report the failure, whatever the
        panel shows by then. `docs` is left as it is: unset after a lone
        failure, so the next `Show` loads again, but loaded when an overlapping
        load has already succeeded. */
    method LoadFailed()
      requires Valid() && pendingLoads > 0
      modifies this
      ensures Valid()
      ensures dataState == LoadingError && panel == Message(LOAD_ERROR_TEXT) && focused == None
      ensures pendingLoads == old(pendingLoads) - 1
      ensures docs == old(docs) && visible == old(visible) && listeners == old(listeners)
    {
      SetState(LoadingError, Some(LOAD_ERROR_TEXT));
      pendingLoads := pendingLoads - 1;
    }

    /** `moveFocus(offset)`. */
    method MoveFocus(offset: int)
      requires Valid()
      modifies this
      ensures Valid()
      ensures focused == FocusTarget(old(focused), ResultCount(old(panel)), offset)
      ensures visible == old(visible) && listeners == old(listeners) && docs == old(docs)
      ensures dataState == old(dataState) && panel == old(panel) && pendingLoads == old(pendingLoads)
    {
      var count := ResultCount(panel);
      var target: Option<nat>;
      if focused.Some? {
        var t := focused.value + offset;
        target := if 0 <= t < count then Some(t) else None;
      } else {
        target := if 0 < count then Some(0) else None;
      }
      if target.Some? {
        focused := target;
      }
    }

    /** Writes the outcome of a query for the non-empty `term`: the rendered
        results, or a message naming the term when there are none. */
    method ShowSearchOutcome(term: string, entries: seq<Entry>)
      requires Valid()
      modifies this
      ensures Valid() && focused == None
      ensures visible == old(visible) && listeners == old(listeners)
      ensures docs == old(docs) && pendingLoads == old(pendingLoads)
      ensures entries == [] ==> dataState == NoResults && panel == Message(NoResultsText(term))
      ensures entries != [] ==> dataState == HasResults && panel == Results(entries)
    {
      if |entries| > 0 {
        panel := Results(entries);
        focused := None;
        SetState(HasResults, None);
      } else {
        SetState(NoResults, Some(NoResultsText(term)));
      }
    }

    /** The debounced input handler, run with the search field's value, lunr's
        ranking of the trimmed term (None when lunr rejects the term) and the
        RegExp built from it. */
    method InputSettled(value: string, ranked: Option<seq<nat>>, m: Matcher) returns (outcome: InputOutcome)
      requires Valid() && MatcherWellFormed(m)
      requires docs.Some? && ranked.Some? ==> RefsIn(ranked.value, |docs.value|)
      modifies this
      ensures Valid()
      ensures visible == old(visible) && listeners == old(listeners)
      ensures docs == old(docs) && pendingLoads == old(pendingLoads)
      // an empty term asks for one
      ensures Trim(value) == "" ==>
        outcome == Handled && dataState == NoTerm && panel == Message(NO_TERM_TEXT) && focused == None
      // a term before the docs are loaded throws; nothing is written
      ensures Trim(value) != "" && docs == None ==>
        outcome == NotLoadedTypeError
        && dataState == old(dataState) && panel == old(panel) && focused == old(focused)
      // a term lunr rejects throws; nothing is written
      ensures Trim(value) != "" && docs != None && ranked == None ==>
        outcome == QueryError
        && dataState == old(dataState) && panel == old(panel) && focused == old(focused)
      // otherwise the search outcome is shown
      ensures Trim(value) != "" && docs != None && ranked != None ==>
        var results := Search(docs, ranked.value).value;
        && outcome == Handled && focused == None
        && (results == [] ==> dataState == NoResults && panel == Message(NoResultsText(Trim(value))))
        && (results != [] ==> dataState == HasResults && panel == Results(RenderAll(results, m)))
    {
      var term := Trim(value);
      if term == "" {
        SetState(NoTerm, Some(NO_TERM_TEXT));
        return Handled;
      }
      if docs.None? {
        return NotLoadedTypeError;
      }
      if ranked.None? {
        return QueryError;
      }
      var results := Search(docs, ranked.value);
      var entries := RenderAll(results.value, m);
      ShowSearchOutcome(term, entries);
      outcome := Handled;
    }

    /** `onDocumentKeyDown(event)`; `defaultPrevented` tells whether the
        handler called `event.preventDefault()`. Blurring the search field on
        Escape is not modelled. */
    method OnDocumentKeyDown(key: Key) returns (defaultPrevented: bool)
      requires Valid() && KeyDown in listeners
      modifies this
      ensures Valid()
      ensures docs == old(docs) && dataState == old(dataState) && panel == old(panel)
      ensures pendingLoads == old(pendingLoads)
      ensures key == Escape ==>
        !visible && listeners == multiset{} && focused == old(focused) && !defaultPrevented
      ensures key == ArrowUp || key == ArrowDown ==>
        var offset := if key == ArrowUp then -1 else 1;
        && focused == FocusTarget(old(focused), ResultCount(panel), offset)
        && visible && listeners == old(listeners) && defaultPrevented
      ensures key == OtherKey ==> unchanged(this) && !defaultPrevented
    {
      defaultPrevented := false;
      if key == Escape {
        Hide();
      } else if key == ArrowUp {
        MoveFocus(-1);
        defaultPrevented := true;
      } else if key == ArrowDown {
        MoveFocus(1);
        defaultPrevented := true;
      }
    }

    /** `onDocumentMouseDown(event)`; `insideSearch` tells whether the target
        has an ancestor with the `search` class. */
    method OnDocumentMouseDown(insideSearch: bool)
      requires Valid() && MouseDown in listeners
      modifies this
      ensures Valid()
      ensures insideSearch ==> unchanged(this)
      ensures !insideSearch ==> !visible && listeners == multiset{}
      ensures docs == old(docs) && dataState == old(dataState) && panel == old(panel)
      ensures focused == old(focused) && pendingLoads == old(pendingLoads)
    {
      if !insideSearch {
        Hide();
      }
    }
  }
}
