/** The main window (`Browser`) and its tab strip: which tabs exist, which one
    is current, what the address bar shows, and what reaches the history file.

    Each tab is reduced to the address it was last told to load; the web
    engine behind it is not modelled. Handlers that reach for the current tab
    through `currentWidget()` fail with `NoCurrentTab` once the strip is
    empty, as the Python code would raise on `None`.
 */
module Browser {
  import opened Results
  import opened Address
  import opened HistoryStore
  import opened Text

  /** The page every new tab opens and the Home button loads. */
  const HomeUrl: string := "https://search.louiml.net"

  datatype Tab = Tab(url: string)

  datatype Window = Window(
    tabs: seq<Tab>,      // the tab strip, left to right
    current: int,        // `currentIndex()`: -1 when the strip is empty
    addressBar: string,  // the text of the address field
    history: File)       // history.txt

  /** The tab strip's invariant: the current index names a tab, or is -1 when there is none. */
  predicate Valid(w: Window) {
    if |w.tabs| == 0 then w.current == -1 else 0 <= w.current < |w.tabs|
  }

  /** `currentWidget()`: the current tab, or nothing. */
  function CurrentTab(w: Window): (t: Option<Tab>)
    ensures Valid(w) ==> (t.Some? <==> |w.tabs| > 0)
    ensures t.Some? ==> t.value in w.tabs
  {
    if 0 <= w.current < |w.tabs| then Some(w.tabs[w.current]) else None
  }

  /** The window as constructed: one tab on the home page; the address bar is
      still empty, since the first tab's address reaches it only through a
      later address-change event. */
  function Start(history: File): (w: Window)
    ensures Valid(w) && |w.tabs| == 1 && CurrentTab(w) == Some(Tab(HomeUrl))
    ensures w.history == history && w.addressBar == ""
  {
    Window([Tab(HomeUrl)], 0, "", history)
  }

  /** `create_new_tab`: a home-page tab is added at the end of the strip and
      made current; the resulting tab change copies its address into the
      address bar. The history file is not touched. */
  function CreateNewTab(w: Window): (w': Window)
    ensures Valid(w')
    ensures |w'.tabs| == |w.tabs| + 1
    ensures forall i :: 0 <= i < |w.tabs| ==> w'.tabs[i] == w.tabs[i]
    ensures CurrentTab(w') == Some(Tab(HomeUrl)) && w'.current == |w'.tabs| - 1
    ensures w'.addressBar == HomeUrl && w'.history == w.history
  {
    w.(tabs := w.tabs + [Tab(HomeUrl)], current := |w.tabs|, addressBar := HomeUrl)
  }

  /** `close_tab`: `removeTab(index)` drops that tab and keeps the others in
      order; an index outside the strip is ignored. Which tab becomes current
      is the toolkit's decision, passed in as `pick` (any index it names is
      brought into range). */
  function CloseTab(w: Window, index: int, pick: nat): (w': Window)
    ensures 0 <= index < |w.tabs| ==> Valid(w')
    ensures w'.addressBar == w.addressBar && w'.history == w.history
    ensures !(0 <= index < |w.tabs|) ==> w' == w
    ensures 0 <= index < |w.tabs| ==>
      && |w'.tabs| == |w.tabs| - 1
      && (forall i :: 0 <= i < index ==> w'.tabs[i] == w.tabs[i])
      && (forall i :: index <= i < |w'.tabs| ==> w'.tabs[i] == w.tabs[i + 1])
  {
    if 0 <= index < |w.tabs| then
      var rest := w.tabs[..index] + w.tabs[index + 1..];
      var next := if |rest| == 0 then -1 else if pick < |rest| then pick else |rest| - 1;
      w.(tabs := rest, current := next)
    else
      w
  }

  /** Closing leaves the toolkit free to make any remaining tab current: the
      model does not fix that choice. */
  lemma CloseTabAnyCurrent(w: Window, index: int, j: nat)
    requires 0 <= index < |w.tabs| && j < |w.tabs| - 1
    ensures CloseTab(w, index, j).current == j
  {
  }

  /** `on_tab_changed`: the address bar follows the current tab. With no tab
      left, `currentWidget()` is None and the handler raises. */
  function CurrentChanged(w: Window): (r: Result<Window>)
    ensures r.Err? <==> CurrentTab(w).None?
    ensures r.Ok? ==> r.value == w.(addressBar := CurrentTab(w).value.url)
  {
    match CurrentTab(w)
    case None => Err(NoCurrentTab)
    case Some(t) => Ok(w.(addressBar := t.url))
  }

  /** A click on the tab at `index`. Clicking another tab makes it current,
      and the tab-change event shows its address. Clicking the tab that is
      already current raises no tab-change event, so the address field keeps
      whatever it holds, typed text included. A click can only land on a tab
      of the strip; an index outside it is answered with `Err` only so that
      the function is total, and does not stand for anything the program does. */
  function SelectTab(w: Window, index: int): (r: Result<Window>)
    ensures r.Ok? <==> 0 <= index < |w.tabs|
    ensures r.Ok? ==> Valid(r.value) && r.value.tabs == w.tabs && r.value.history == w.history
    ensures r.Ok? ==> r.value.current == index
    ensures r.Ok? && index != w.current ==> r.value.addressBar == w.tabs[index].url
    ensures r.Ok? && index == w.current ==> r.value == w
  {
    if !(0 <= index < |w.tabs|) then Err(NoCurrentTab)
    else if index == w.current then Ok(w)
    else CurrentChanged(w.(current := index))
  }

  /** The current tab is told to load `url`; every other tab is left alone. */
  function LoadInCurrent(w: Window, url: string): (w': Window)
    requires CurrentTab(w).Some?
    ensures Valid(w) ==> Valid(w')
    ensures |w'.tabs| == |w.tabs| && w'.current == w.current
    ensures CurrentTab(w') == Some(Tab(url))
    ensures forall i :: 0 <= i < |w.tabs| && i != w.current ==> w'.tabs[i] == w.tabs[i]
    ensures w'.addressBar == w.addressBar && w'.history == w.history
  {
    w.(tabs := w.tabs[w.current := Tab(url)])
  }

  /** `navigate_to_url` with typed text: the current tab loads the resolved
      address and exactly that address, not the typed text, is appended to
      the history file. The address bar is left as it is; the tab's report
      of its new address is the separate event `UrlChanged`. */
  function Navigate(w: Window, text: string): (r: Result<Window>)
    ensures r.Err? <==> CurrentTab(w).None?
    ensures r.Ok? ==>
      && (Valid(w) ==> Valid(r.value))
      && |r.value.tabs| == |w.tabs| && r.value.current == w.current
      && CurrentTab(r.value) == Some(Tab(Resolve(text)))
      && (forall i :: 0 <= i < |w.tabs| && i != w.current ==> r.value.tabs[i] == w.tabs[i])
      && r.value.history == Append(w.history, Resolve(text))
      && r.value.addressBar == w.addressBar
  {
    if CurrentTab(w).None? then Err(NoCurrentTab)
    else
      var url := Resolve(text);
      var w' := LoadInCurrent(w, url);
      Ok(w'.(history := Append(w.history, url)))
  }

  /** Pressing Enter in the address field navigates to the field's text. */
  function Submit(w: Window): (r: Result<Window>)
    ensures r.Err? <==> CurrentTab(w).None?
    ensures r.Ok? ==>
      && CurrentTab(r.value) == Some(Tab(Resolve(w.addressBar)))
      && r.value.history == Append(w.history, Resolve(w.addressBar))
      && r.value.addressBar == w.addressBar
      && |r.value.tabs| == |w.tabs| && r.value.current == w.current
      && (forall i :: 0 <= i < |w.tabs| && i != w.current ==> r.value.tabs[i] == w.tabs[i])
  {
    Navigate(w, w.addressBar)
  }

  /** `navigate_home`: the current tab loads the home page. Unlike typed
      navigation it writes nothing to the history file itself; the visit is
      recorded, and the address field updated, when the tab then reports the
      home page (`UrlChanged`). */
  function Home(w: Window): (r: Result<Window>)
    ensures r.Err? <==> CurrentTab(w).None?
    ensures r.Ok? ==> CurrentTab(r.value) == Some(Tab(HomeUrl))
    ensures r.Ok? ==> r.value.history == w.history && r.value.addressBar == w.addressBar
    ensures r.Ok? ==> |r.value.tabs| == |w.tabs| && r.value.current == w.current
    ensures r.Ok? ==> forall i :: 0 <= i < |w.tabs| && i != w.current ==> r.value.tabs[i] == w.tabs[i]
  {
    if CurrentTab(w).None? then Err(NoCurrentTab) else Ok(LoadInCurrent(w, HomeUrl))
  }

  /** A tab reports a new address (`urlChanged`): the address bar shows it and
      `add_to_history` appends it, whichever tab reported it. `source` is the
      reporting tab's position, or outside the strip for a tab that was closed
      (a removed tab is not destroyed and may still report). */
  function UrlChanged(w: Window, source: int, url: string): (w': Window)
    ensures Valid(w) ==> Valid(w')
    ensures |w'.tabs| == |w.tabs| && w'.current == w.current
    ensures w'.addressBar == url && w'.history == Append(w.history, url)
    ensures 0 <= source < |w.tabs| ==> w'.tabs[source] == Tab(url)
    ensures forall i :: 0 <= i < |w.tabs| && i != source ==> w'.tabs[i] == w.tabs[i]
  {
    var tabs := if 0 <= source < |w.tabs| then w.tabs[source := Tab(url)] else w.tabs;
    w.(tabs := tabs, addressBar := url, history := Append(w.history, url))
  }

  /** Typed navigation adds exactly one row to the history as the dialog will
      read it back, the resolved address, after all earlier rows. */
  lemma NavigateRecordsOne(w: Window, text: string)
    requires Valid(w) && |w.tabs| > 0
    requires WellFormed(w.history) && '\n' !in text
    ensures Navigate(w, text).Ok?
    ensures Load(Navigate(w, text).value.history) == Ok(Entries(w.history) + [Strip(Resolve(text))])
  {
    AppendThenLoad(w.history, Resolve(text));
  }

  /** Typed navigation is recorded twice once the tab reports the page it
      reached. With the report taken as an event after `navigate_to_url`
      returns, the resolved address comes first and the reported address,
      written by `add_to_history`, second. */
  lemma NavigateThenReport(w: Window, text: string, reported: string)
    requires Valid(w) && |w.tabs| > 0
    requires WellFormed(w.history) && '\n' !in text && '\n' !in reported
    ensures Navigate(w, text).Ok?
    ensures var w2 := UrlChanged(Navigate(w, text).value, w.current, reported);
      && Load(w2.history) == Ok(Entries(w.history) + [Strip(Resolve(text)), Strip(reported)])
      && w2.addressBar == reported
      && CurrentTab(w2) == Some(Tab(reported))
  {
    var url := Resolve(text);
    SingleLine(text);
    var w1 := Navigate(w, text).value;
    assert w1.history == Append(w.history, url);
    AppendThenLoad(w.history, url);
    var w2 := UrlChanged(w1, w.current, reported);
    assert w2.history == Append(w1.history, reported);
    AppendThenLoad(w1.history, reported);
    assert Entries(w1.history) == Entries(w.history) + [Strip(url)];
    assert Entries(w2.history) == Entries(w1.history) + [Strip(reported)];
    var before := Entries(w.history);
    assert before + [Strip(url)] + [Strip(reported)] == before + [Strip(url), Strip(reported)];
    assert Load(w2.history) == Ok(Entries(w2.history));
  }

  /** `navigate_home` itself leaves the history file as it was; the tab's
      later report (`UrlChanged`) is what records the home page. */
  lemma HomeRecordsNothing(w: Window)
    requires Valid(w) && |w.tabs| > 0
    ensures Home(w).Ok? && Load(Home(w).value.history) == Load(w.history)
  {
  }

  /** Every address change a tab reports adds one history row. */
  lemma UrlChangeRecordsOne(w: Window, source: int, url: string)
    requires WellFormed(w.history) && '\n' !in url
    ensures Load(UrlChanged(w, source, url).history) == Ok(Entries(w.history) + [Strip(url)])
  {
    AppendThenLoad(w.history, url);
  }

  /** Closing the only tab leaves a window in which the tab-change handler,
      typed navigation and Home all fail; opening a new tab makes navigation
      possible again. */
  lemma CloseLastTab(w: Window, pick: nat, text: string)
    requires Valid(w) && |w.tabs| == 1
    ensures var closed := CloseTab(w, 0, pick);
      && |closed.tabs| == 0
      && CurrentChanged(closed).Err?
      && Navigate(closed, text).Err?
      && Home(closed).Err?
      && Navigate(CreateNewTab(closed), text).Ok?
  {
  }
}
