/**
  Runs in which the window does not do what it seems to: each is one that the gateway can give,
  from a page that it can answer with.
 */
module LiveFailures {
  import opened Bytes
  import opened LiveArrivals
  import opened LiveRuns
  import opened LiveWindow
  import opened Timeline

  const FIRST := Flow("a", Key(1, 0), "")
  const SECOND := Flow("b", Key(2, 0), "")

  /** The whole of a list of one row, in a window of `window`. */
  function Whole(f: Flow, window: nat, follow: bool): (View, Page)
  {
    (View(map[], [], window, None, None, 0, false, true, follow), Page([f], None, None, 1, false))
  }

  lemma OneRow(f: Flow, window: nat, follow: bool)
    requires window >= 1
    ensures var (v, page) := Whole(f, window, follow);
      && IsList([f]) && IsPage([f], 0, window, page)
      && ApplyPage(v, page) == View(map[f.id := f], [f.id], window, None, None, 1, false, true, follow)
  {
    assert Ids([f]) == [f.id] && [f][..0] == [];
    assert ById([f]) == ById([])[f.id := f];
  }

  lemma OneEvent(v: View, r: seq<Flow>, e: Event)
    requires Keyed(v) && Possible(v, r, e) && Keyed(ViewAfter(v, r, e))
    ensures Legal(v, r, [e]) && After(v, r, [e]) == (ViewAfter(v, r, e), ListAfter(v, r, e))
    ensures AllFit(v, r, [e]) <==> FitsNext(v, r, e)
    ensures AllCounted(v, r, [e]) <==> CountFits(v, r, e)
  {
    hide Possible, ViewAfter, ListAfter, FitsNext, CountFits;
    assert [e][1..] == [];
  }

  lemma FirstEvent(v: View, r: seq<Flow>, e: Event, es: seq<Event>)
    requires Keyed(v) && Possible(v, r, e) && Legal(ViewAfter(v, r, e), ListAfter(v, r, e), es)
    ensures Legal(v, r, [e] + es) && After(v, r, [e] + es) == After(ViewAfter(v, r, e), ListAfter(v, r, e), es)
    ensures AllFit(v, r, [e] + es) <==> FitsNext(v, r, e) && AllFit(ViewAfter(v, r, e), ListAfter(v, r, e), es)
    ensures AllCounted(v, r, [e] + es) <==> CountFits(v, r, e) && AllCounted(ViewAfter(v, r, e), ListAfter(v, r, e), es)
  {
    hide Possible, ViewAfter, ListAfter, FitsNext, CountFits;
    assert ([e] + es)[1..] == es;
  }

  /**
    An arrival that a full window did not take moves the list's end past it; when it leaves
    the list again the window is the whole of the list, and not at its end.
   */
  lemma SuffixButNotAtEnd()
    ensures exists v: View, page: Page, es: seq<Event> |
              IsPage([FIRST], 0, v.window, page) && Legal(ApplyPage(v, page), [FIRST], es) ::
              var (w, all) := After(ApplyPage(v, page), [FIRST], es);
              AllFit(ApplyPage(v, page), [FIRST], es) && all == [FIRST] && w.order == ["a"] && !w.atEnd
  {
    var (v, page) := Whole(FIRST, 1, false);
    OneRow(FIRST, 1, false);
    var a, r := ApplyPage(v, page), [FIRST];
    assert Place(r, SECOND.key) == 1 && Arrive(r, SECOND) == [FIRST, SECOND];
    var b, q := a.(matched := 2, atEnd := false, next := Some(FIRST.key)), [FIRST, SECOND];
    assert ViewAfter(a, r, Added(SECOND)) == b && FitsNext(a, r, Added(SECOND));
    assert q[..1] + q[2..] == [FIRST] && ViewAfter(b, q, Unmatched(1)) == b.(matched := 1);
    hide ViewAfter, ListAfter, Legal, AllFit, After, ApplyPage, IsPage, Arrive;
    OneEvent(b, q, Unmatched(1));
    FirstEvent(a, r, Added(SECOND), [Unmatched(1)]);
    var es := [Added(SECOND)] + [Unmatched(1)];
    assert IsPage([FIRST], 0, v.window, page) && Legal(ApplyPage(v, page), [FIRST], es);
  }

  /** A window that slid has rows before it and no backward cursor. */
  lemma PrevIsStale()
    ensures exists v: View, page: Page, es: seq<Event> |
              IsPage([FIRST], 0, v.window, page) && Legal(ApplyPage(v, page), [FIRST], es) ::
              var (w, all) := After(ApplyPage(v, page), [FIRST], es);
              AllFit(ApplyPage(v, page), [FIRST], es) && all == [FIRST, SECOND] && w.order == ["b"] && w.prev.None?
  {
    var (v, page) := Whole(FIRST, 1, true);
    OneRow(FIRST, 1, true);
    var a, r := ApplyPage(v, page), [FIRST];
    assert Place(r, SECOND.key) == 1 && Arrive(r, SECOND) == [FIRST, SECOND];
    assert (["a"] + ["b"])[1..] == ["b"];
    var w := ViewAfter(a, r, Added(SECOND));
    assert w.order == ["b"] && w.prev.None? && Keyed(w) && FitsNext(a, r, Added(SECOND));
    hide ViewAfter, ListAfter, Legal, AllFit, After, ApplyPage, IsPage, Arrive;
    OneEvent(a, r, Added(SECOND));
    assert IsPage([FIRST], 0, v.window, page) && Legal(ApplyPage(v, page), [FIRST], [Added(SECOND)]);
  }

  /** An older flow that starts to match is put after newer rows. */
  lemma OlderArrivalIsMisplaced()
    ensures exists v: View, page: Page, es: seq<Event> |
              IsPage([SECOND], 0, v.window, page) && Legal(ApplyPage(v, page), [SECOND], es) ::
              var (w, all) := After(ApplyPage(v, page), [SECOND], es);
              !AllFit(ApplyPage(v, page), [SECOND], es) && all == [FIRST, SECOND] && w.order == ["b", "a"]
  {
    var (v, page) := Whole(SECOND, 2, false);
    OneRow(SECOND, 2, false);
    var a, r := ApplyPage(v, page), [SECOND];
    assert Place(r, FIRST.key) == 0 && Arrive(r, FIRST) == [FIRST, SECOND];
    assert (["b"] + ["a"])[0..] == ["b", "a"];
    var w := ViewAfter(a, r, Added(FIRST));
    assert r[0] == SECOND && !FitsNext(a, r, Added(FIRST));
    assert w.order == ["b", "a"] && Keyed(w);
    hide ViewAfter, ListAfter, Legal, AllFit, After, ApplyPage, IsPage, Arrive;
    OneEvent(a, r, Added(FIRST));
    assert IsPage([SECOND], 0, v.window, page) && Legal(ApplyPage(v, page), [SECOND], [Added(FIRST)]);
  }

  /** A row that the stream never told of leaves without an event, and stays in the window. */
  lemma DepartureIsUnseen()
    ensures exists v: View, page: Page, es: seq<Event> |
              IsPage([FIRST], 0, v.window, page) && Legal(ApplyPage(v, page), [FIRST], es) ::
              var (w, all) := After(ApplyPage(v, page), [FIRST], es);
              !AllFit(ApplyPage(v, page), [FIRST], es) && all == [] && w.order == ["a"]
  {
    var (v, page) := Whole(FIRST, 1, false);
    OneRow(FIRST, 1, false);
    var a, r := ApplyPage(v, page), [FIRST];
    assert r[..0] + r[1..] == [] && ListAfter(a, r, Left(0)) == [] && !FitsNext(a, r, Left(0));
    hide ViewAfter, ListAfter, Legal, AllFit, After, ApplyPage, IsPage;
    assert ViewAfter(a, r, Left(0)) == a by { StaysPut(a, r, 0); }
    OneEvent(a, r, Left(0));
    assert IsPage([FIRST], 0, v.window, page) && Legal(ApplyPage(v, page), [FIRST], [Left(0)]);
  }

  lemma StaysPut(v: View, r: seq<Flow>, i: nat)
    requires Keyed(v) && Possible(v, r, Left(i))
    ensures ViewAfter(v, r, Left(i)) == v
  {}

  const BOTH := [FIRST, SECOND]

  /** The last page of a list of two rows, one to a page. */
  function LastPage(follow: bool): (View, Page) {
    (View(map[], [], 1, None, None, 0, false, true, follow), Page([SECOND], None, Some(SECOND.key), 2, false))
  }

  /** And the first. */
  function FirstPage(): (View, Page) {
    (View(map[], [], 1, None, None, 0, false, true, false), Page([FIRST], Some(FIRST.key), None, 2, false))
  }

  lemma OnePage(v: View, f: Flow, next: Option<Key>, prev: Option<Key>, matched: nat, capped: bool)
    ensures ApplyPage(v, Page([f], next, prev, matched, capped)) ==
            View(map[f.id := f], [f.id], v.window, next, prev, matched, capped, next.None?, v.follow && next.None?)
  {
    assert Ids([f]) == [f.id];
    assert ById([f]) == ById([])[f.id := f];
  }

  /** A row listed before the window and told of for the first time is put after the newest one, and counted twice. */
  lemma ListedArrivalIsRepeated()
    ensures exists v: View, page: Page, es: seq<Event> |
              IsPage(BOTH, 1, v.window, page) && Legal(ApplyPage(v, page), BOTH, es) ::
              var (w, all) := After(ApplyPage(v, page), BOTH, es);
              && !AllFit(ApplyPage(v, page), BOTH, es) && !AllCounted(ApplyPage(v, page), BOTH, es)
              && all == BOTH && w.order == ["a"] && w.atEnd && w.matched == 3 && !w.capped
  {
    var (v, page) := LastPage(true);
    OnePage(v, SECOND, None, page.prev, 2, false);
    var a := ApplyPage(v, page);
    assert BOTH[0].id == FIRST.id && Arrive(BOTH, FIRST) == BOTH && BOTH[1..2] == [SECOND];
    assert (["b"] + ["a"])[1..] == ["a"];
    var w := ViewAfter(a, BOTH, Added(FIRST));
    assert w.order == ["a"] && Keyed(w) && BOTH[1].id == "b";
    assert !FitsNext(a, BOTH, Added(FIRST)) && !CountFits(a, BOTH, Added(FIRST));
    hide ViewAfter, ListAfter, Legal, AllFit, AllCounted, After, ApplyPage, IsPage, Arrive;
    OneEvent(a, BOTH, Added(FIRST));
    assert IsPage(BOTH, 1, v.window, page) && Legal(ApplyPage(v, page), BOTH, [Added(FIRST)]);
  }

  /** Under a filter the page after a cursor carries the count of what is left from there on. */
  lemma NextPageMiscounts()
    ensures exists v: View, page: Page, es: seq<Event> |
              IsPage(BOTH, 0, v.window, page) && Legal(ApplyPage(v, page), BOTH, es) ::
              var (w, all) := After(ApplyPage(v, page), BOTH, es);
              && AllFit(ApplyPage(v, page), BOTH, es) && !AllCounted(ApplyPage(v, page), BOTH, es)
              && all == BOTH && w.order == ["b"] && w.matched == 1 && !w.capped
  {
    var (v, page) := FirstPage();
    var more := Page([SECOND], None, Some(SECOND.key), 1, false);
    OnePage(v, FIRST, page.next, None, 2, false);
    var a := ApplyPage(v, page);
    OnePage(a, SECOND, None, more.prev, 1, false);
    var e := Load(1, more);
    assert BOTH[0..1] == [FIRST] && BOTH[1..2] == [SECOND];
    assert Possible(a, BOTH, e) && FitsNext(a, BOTH, e) && !CountFits(a, BOTH, e);
    assert ViewAfter(a, BOTH, e) == ApplyPage(a, more) && ListAfter(a, BOTH, e) == BOTH;
    hide ViewAfter, ListAfter, Legal, AllFit, AllCounted, After, ApplyPage, IsPage, Possible;
    OneEvent(a, BOTH, e);
    assert IsPage(BOTH, 0, v.window, page) by { FirstPageFits(); }
    assert Legal(ApplyPage(v, page), BOTH, [e]);
  }

  lemma FirstPageFits()
    ensures IsPage(BOTH, 0, 1, FirstPage().1)
  {
    assert BOTH[0..1] == [FIRST];
  }

  /** A page that the scan cap cut short takes itself for the end of the list. */
  lemma CutPageIsNotTheEnd()
    ensures exists v: View, page: Page |
              IsPage(BOTH, 0, v.window, page) && page.flows == [FIRST] && page.capped ::
              ApplyPage(v, page).atEnd && !AgreesWith(ApplyPage(v, page), BOTH)
  {
    var v := View(map[], [], 2, None, None, 0, false, true, false);
    var page := Page([FIRST], None, None, 1, true);
    assert BOTH[0..1] == [FIRST];
    assert IsPage(BOTH, 0, v.window, page) && !FitsPage(BOTH, 0, page) && IsList(BOTH);
    LoadKeepsExactly(v, BOTH, 0, page);
  }

  /** Paging back once the earlier rows have left finds nothing: the pane is blank, and the list is not. */
  lemma PageBackIsBlank()
    ensures exists v: View, page: Page, es: seq<Event> |
              IsPage(BOTH, 1, v.window, page) && Legal(ApplyPage(v, page), BOTH, es) ::
              var (w, all) := After(ApplyPage(v, page), BOTH, es);
              && AllFit(ApplyPage(v, page), BOTH, es) && !AllCounted(ApplyPage(v, page), BOTH, es)
              && all == [SECOND] && w.atEnd && Blank(w, all)
  {
    var (v, page) := LastPage(false);
    OnePage(v, SECOND, None, page.prev, 2, false);
    var a, none, q := ApplyPage(v, page), Page([], None, None, 0, false), [SECOND];
    var e, back := Left(0), Load(0, none);
    assert BOTH[1..2] == q && BOTH[..0] + BOTH[1..] == q && BOTH[0].id !in a.flows;
    assert ViewAfter(a, BOTH, e) == a && ListAfter(a, BOTH, e) == q && FitsNext(a, BOTH, e) && !CountFits(a, BOTH, e);
    assert Ids([]) == [] && q[0..0] == [];
    assert Possible(a, q, back) && FitsNext(a, q, back);
    var w := ViewAfter(a, q, back);
    assert w.atEnd && Keyed(w) && Blank(w, q) && ListAfter(a, q, back) == q;
    hide ViewAfter, ListAfter, Legal, AllFit, AllCounted, After, ApplyPage, IsPage, Possible, Blank;
    OneEvent(a, q, back);
    FirstEvent(a, BOTH, e, [back]);
    var es := [e] + [back];
    assert IsPage(BOTH, 1, v.window, page) && Legal(ApplyPage(v, page), BOTH, es);
  }
}
