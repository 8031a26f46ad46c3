/**
  The window over whole runs of events: when it agrees with the list all along, when its count
  is right, where it ends, and what paging reaches from it.
 */
module LiveRuns {
  import opened Bytes
  import opened LiveArrivals
  import opened LiveWindow
  import opened Timeline

  /** The rows outside the window when a page has just come. */
  function LoadBeyond(r: seq<Flow>, lo: nat, page: Page): Beyond
    requires lo + |page.flows| <= |r|
  {
    var at := PageStart(r, lo, page);
    Beyond(IdSet(r[at + |page.flows|..]), if page.prev.None? then IdSet(r[..at]) else {})
  }

  /** What one event changes outside the window. */
  function BeyondAfter(v: View, r: seq<Flow>, e: Event, b: Beyond): Beyond
    requires Keyed(v) && Possible(v, r, e)
  {
    match e
    case Load(lo, page) => LoadBeyond(r, lo, page)
    case Added(f) => ArrivalBeyond(v, r, f, b)
    case Unmatched(i) => Beyond(b.missed - {r[i].id}, b.behind - {r[i].id})
    case Left(i) => Beyond(b.missed - {r[i].id}, b.behind - {r[i].id})
    case Updated(_, _) => b
    case Follow(_) => b
  }

  /** The page or the arrival fits, or the silent departure is from outside the window. */
  predicate FitsNext(v: View, r: seq<Flow>, e: Event)
    requires Keyed(v) && Possible(v, r, e)
  {
    && (e.Load? ==> FitsPage(r, e.lo, e.page))
    && (e.Added? ==> Fits(v, r, e.f))
    && (e.Left? ==> r[e.i].id !in v.flows)
  }

  /** Whatever happens next, if it fits, the window still agrees with the list. */
  lemma StepKeeps(v: View, cut: Cut, e: Event, b: Beyond) returns (t: Cut)
    requires Shows(v, cut) && Possible(v, cut.All(), e) && Tracks(v, cut, b)
    requires Keyed(v) && FitsNext(v, cut.All(), e)
    ensures t.All() == ListAfter(v, cut.All(), e) && Shows(ViewAfter(v, cut.All(), e), t)
    ensures Tracks(ViewAfter(v, cut.All(), e), t, BeyondAfter(v, cut.All(), e, b))
  {
    hide IsIndex, Fits, Trim, SlidOff, ArrivalBeyond, Arrive, LoadBeyond;
    match e
    case Load(lo, page) =>
      t := LoadKeeps(v, cut.All(), lo, page);
      LoadTracks(v, cut.All(), lo, page, t);
    case Added(f) =>
      t := AddKeeps(v, cut, f, b);
      assert Ingest(v, f, true).prev == v.prev by { IngestKeepsPrev(v, f); }
    case Updated(i, f) => t := UpdateKeeps(v, cut, i, f);
    case Unmatched(i) => t := DropKeeps(v, cut, i);
    case Left(i) => t := LeftKeeps(v, cut, i);
    case Follow(on) => t := cut;
  }

  lemma IngestKeepsPrev(v: View, f: Flow)
    requires Keyed(v)
    ensures Ingest(v, f, true).prev == v.prev
  {}

  lemma LoadTracks(v: View, r: seq<Flow>, lo: nat, page: Page, t: Cut)
    requires IsList(r) && IsPage(r, lo, v.window, page)
    requires var at := PageStart(r, lo, page);
      at + |page.flows| <= |r| && t == Cut(r[..at], page.flows, r[at + |page.flows|..])
    ensures Tracks(ApplyPage(v, page), t, LoadBeyond(r, lo, page))
  {
    if page.prev.Some? { NoneBehind(r, lo, v.window, page); }
  }

  /** Each event in turn is one that can happen. */
  predicate Legal(v: View, r: seq<Flow>, es: seq<Event>)
    decreases |es|
  {
    Keyed(v) && (es != [] ==> Possible(v, r, es[0]) && Legal(ViewAfter(v, r, es[0]), ListAfter(v, r, es[0]), es[1..]))
  }

  /** The window and the list once all the events have happened. */
  function After(v: View, r: seq<Flow>, es: seq<Event>): (View, seq<Flow>)
    requires Legal(v, r, es)
    decreases |es|
  {
    if es == [] then (v, r) else After(ViewAfter(v, r, es[0]), ListAfter(v, r, es[0]), es[1..])
  }

  /** What all the events have left outside the window. */
  function BeyondAll(v: View, r: seq<Flow>, es: seq<Event>, b: Beyond): Beyond
    requires Legal(v, r, es)
    decreases |es|
  {
    if es == [] then b
    else BeyondAll(ViewAfter(v, r, es[0]), ListAfter(v, r, es[0]), es[1..], BeyondAfter(v, r, es[0], b))
  }

  /** Every page, every arrival and every silent departure fits when it comes. */
  predicate AllFit(v: View, r: seq<Flow>, es: seq<Event>)
    requires Legal(v, r, es)
    decreases |es|
  {
    es != [] ==> FitsNext(v, r, es[0]) && AllFit(ViewAfter(v, r, es[0]), ListAfter(v, r, es[0]), es[1..])
  }

  /** The window agrees with the list after each of the events. */
  ghost predicate AlwaysAgrees(v: View, r: seq<Flow>, es: seq<Event>)
    requires Legal(v, r, es)
    decreases |es|
  {
    AgreesWith(v, r) && (es != [] ==> AlwaysAgrees(ViewAfter(v, r, es[0]), ListAfter(v, r, es[0]), es[1..]))
  }

  lemma {:induction false} RunKeeps(v: View, cut: Cut, es: seq<Event>, b: Beyond) returns (t: Cut)
    requires Shows(v, cut) && Legal(v, cut.All(), es) && AllFit(v, cut.All(), es) && Tracks(v, cut, b)
    ensures After(v, cut.All(), es).1 == t.All() && Shows(After(v, cut.All(), es).0, t)
    ensures Tracks(After(v, cut.All(), es).0, t, BeyondAll(v, cut.All(), es, b))
    decreases |es|
  {
    hide Shows, ViewAfter, ListAfter, Possible, Tracks, BeyondAfter, FitsNext, Keyed;
    if es == [] {
      t := cut;
    } else {
      var next := StepKeeps(v, cut, es[0], b);
      t := RunKeeps(ViewAfter(v, cut.All(), es[0]), next, es[1..], BeyondAfter(v, cut.All(), es[0], b));
    }
  }

  /** The window agrees with the list all along if and only if every event fits when it comes. */
  lemma {:induction false} RunAgreesExactly(v: View, cut: Cut, es: seq<Event>)
    requires Shows(v, cut) && Legal(v, cut.All(), es)
    ensures AlwaysAgrees(v, cut.All(), es) <==> AllFit(v, cut.All(), es)
    decreases |es|
  {
    hide Shows, ViewAfter, ListAfter, Possible, Keyed, Fits, Arrive, Ingest;
    assert AgreesWith(v, cut.All());
    if es != [] {
      var w, r := ViewAfter(v, cut.All(), es[0]), ListAfter(v, cut.All(), es[0]);
      if es[0].Load? {
        StepIsLoad(v, cut, es[0]);
        LoadKeepsExactly(v, cut.All(), es[0].lo, es[0].page);
      } else if es[0].Added? {
        ArrivalKeepsExactly(v, cut, es[0].f);
        StepIsIngest(v, cut.All(), es[0]);
      } else if es[0].Left? {
        StepIsDeparture(v, cut.All(), es[0]);
        DepartureKeepsExactly(v, cut, es[0].i);
      }
      if FitsNext(v, cut.All(), es[0]) {
        var next := StepKeeps(v, cut, es[0], Beyond(IdSet(cut.after), BehindIds(v.prev, cut.before)));
        RunAgreesExactly(w, next, es[1..]);
      }
    }
  }

  lemma StepIsLoad(v: View, cut: Cut, e: Event)
    requires Shows(v, cut) && Keyed(v) && Possible(v, cut.All(), e) && e.Load?
    ensures v.window >= 1 && IsList(cut.All()) && IsPage(cut.All(), e.lo, v.window, e.page)
    ensures ViewAfter(v, cut.All(), e) == ApplyPage(v, e.page) && ListAfter(v, cut.All(), e) == cut.All()
  {
    hide ApplyPage, IsPage, IsList;
  }

  lemma StepIsIngest(v: View, r: seq<Flow>, e: Event)
    requires Keyed(v) && Possible(v, r, e) && e.Added?
    ensures ViewAfter(v, r, e) == Ingest(v, e.f, true) && ListAfter(v, r, e) == Arrive(r, e.f)
  {
    hide Ingest, Arrive, Possible;
  }

  lemma StepIsDeparture(v: View, r: seq<Flow>, e: Event)
    requires Keyed(v) && Possible(v, r, e) && e.Left?
    ensures e.i < |r| && ViewAfter(v, r, e) == v && ListAfter(v, r, e) == r[..e.i] + r[e.i + 1..]
  {}

  /**
    From the first page on, through every run of pages, arrivals, changes, departures and
    toggles: the window is a contiguous run of the list, with the right cursor, all along if
    and only if every page, arrival and silent departure fits; and then the rows outside it
    are those that the events have left there.
   */
  lemma WindowAlwaysAgrees(v: View, r: seq<Flow>, lo: nat, page: Page, es: seq<Event>) returns (t: Cut)
    requires v.window >= 1 && IsList(r) && IsPage(r, lo, v.window, page)
    requires Legal(ApplyPage(v, page), r, es)
    ensures AlwaysAgrees(ApplyPage(v, page), r, es) <==> FitsPage(r, lo, page) && AllFit(ApplyPage(v, page), r, es)
    ensures FitsPage(r, lo, page) && AllFit(ApplyPage(v, page), r, es) ==>
              var (w, all) := After(ApplyPage(v, page), r, es);
              && t.All() == all && Shows(w, t)
              && Tracks(w, t, BeyondAll(ApplyPage(v, page), r, es, LoadBeyond(r, lo, page)))
  {
    t := Cut([], [], []);
    LoadKeepsExactly(v, r, lo, page);
    if FitsPage(r, lo, page) {
      t := LoadKeeps(v, r, lo, page);
      LoadTracks(v, r, lo, page, t);
      hide Shows, IsPage, IsList, ApplyPage, Tracks, LoadBeyond, PageStart;
      RunAgreesExactly(ApplyPage(v, page), t, es);
      if AllFit(ApplyPage(v, page), r, es) {
        t := RunKeeps(ApplyPage(v, page), t, es, LoadBeyond(r, lo, page));
      }
    }
  }

  // ---- the count ----

  /** The count goes with the list: the whole list's with a page, one more for a row new to it, none gone unseen. */
  predicate CountFits(v: View, r: seq<Flow>, e: Event)
    requires Keyed(v) && Possible(v, r, e)
  {
    match e
    case Load(_, page) => page.capped || page.matched == |r|
    case Added(f) => v.capped || (f.id in v.flows <==> Listed(r, f.id))
    case Left(_) => v.capped
    case Updated(_, _) => true
    case Unmatched(_) => true
    case Follow(_) => true
  }

  predicate AllCounted(v: View, r: seq<Flow>, es: seq<Event>)
    requires Legal(v, r, es)
    decreases |es|
  {
    es != [] ==> CountFits(v, r, es[0]) && AllCounted(ViewAfter(v, r, es[0]), ListAfter(v, r, es[0]), es[1..])
  }

  /** The count is right after each of the events. */
  predicate AlwaysCounted(v: View, r: seq<Flow>, es: seq<Event>)
    requires Legal(v, r, es)
    decreases |es|
  {
    CountRight(v, r) && (es != [] ==> AlwaysCounted(ViewAfter(v, r, es[0]), ListAfter(v, r, es[0]), es[1..]))
  }

  lemma CountKeepsExactly(v: View, r: seq<Flow>, e: Event)
    requires Keyed(v) && Possible(v, r, e) && CountRight(v, r)
    ensures CountRight(ViewAfter(v, r, e), ListAfter(v, r, e)) <==> CountFits(v, r, e)
  {}

  /** Over any run, placed rightly or not, the count is right all along if and only if every event counts. */
  lemma {:induction false} CountAlwaysRightExactly(v: View, r: seq<Flow>, es: seq<Event>)
    requires Legal(v, r, es) && CountRight(v, r)
    ensures AlwaysCounted(v, r, es) <==> AllCounted(v, r, es)
    decreases |es|
  {
    hide ViewAfter, ListAfter, Possible, Keyed, CountRight, CountFits;
    if es != [] {
      CountKeepsExactly(v, r, es[0]);
      if CountFits(v, r, es[0]) {
        CountAlwaysRightExactly(ViewAfter(v, r, es[0]), ListAfter(v, r, es[0]), es[1..]);
      }
    }
  }

  /**
    Approximate or not, the count moves with the list: how far it is off stays the same at every
    event that counts, and at no other. A page brings its own count.
   */
  lemma CountMovesExactly(v: View, r: seq<Flow>, e: Event)
    requires Keyed(v) && Possible(v, r, e)
    ensures var w, q := ViewAfter(v, r, e), ListAfter(v, r, e);
      if e.Load? then w.matched == e.page.matched && w.capped == e.page.capped
      else
        && w.capped == v.capped
        && (w.matched - |q| == v.matched - |r| <==>
              && (e.Added? ==> (e.f.id in v.flows <==> Listed(r, e.f.id)))
              && (e.Unmatched? ==> v.matched > 0)
              && !e.Left?)
  {}

  // ---- following ----

  /** Toggling following on is for a window at the list's end. */
  predicate AllFollowEnds(v: View, r: seq<Flow>, es: seq<Event>)
    requires Legal(v, r, es)
    decreases |es|
  {
    es != [] ==>
      && (es[0].Follow? && es[0].on ==> v.atEnd)
      && AllFollowEnds(ViewAfter(v, r, es[0]), ListAfter(v, r, es[0]), es[1..])
  }

  predicate StopsFollowing(e: Event) {
    e == Follow(false) || (e.Load? && e.page.next.Some?)
  }

  /** Then only a window at the end follows, in every run: paging away from it is how following stops. */
  lemma {:induction false} FollowsOnlyTheEnd(v: View, r: seq<Flow>, es: seq<Event>)
    requires Legal(v, r, es) && AllFollowEnds(v, r, es) && (v.follow ==> v.atEnd)
    ensures After(v, r, es).0.follow ==> After(v, r, es).0.atEnd
    ensures After(v, r, es).0.follow && !v.follow ==> Follow(true) in es
    ensures v.follow && !After(v, r, es).0.follow ==> exists e <- es :: StopsFollowing(e)
    decreases |es|
  {
    hide Possible, Keyed, ListAfter, ViewAfter;
    if es != [] {
      FollowStep(v, r, es[0]);
      assert es == [es[0]] + es[1..] && es[0] in es;
      FollowsOnlyTheEnd(ViewAfter(v, r, es[0]), ListAfter(v, r, es[0]), es[1..]);
    }
  }

  lemma FollowStep(v: View, r: seq<Flow>, e: Event)
    requires Keyed(v) && Possible(v, r, e) && (v.follow ==> v.atEnd) && (e.Follow? && e.on ==> v.atEnd)
    ensures var w := ViewAfter(v, r, e);
      && (w.follow ==> w.atEnd) && (w.follow && !v.follow ==> e == Follow(true))
      && (v.follow && !w.follow ==> StopsFollowing(e))
  {}

  // ---- ordinary runs ----

  /** What a capture does as it goes on: flows come after all others, and none leaves unseen. */
  predicate Ordinary(v: View, r: seq<Flow>, e: Event) {
    match e
    case Load(lo, page) => FitsPage(r, lo, page) && (page.capped || page.matched == |r|)
    case Added(f) =>
      && (forall i | 0 <= i < |r| :: Before(r[i].key, f.key))
      && (v.next.Some? ==> Before(v.next.value, f.key))
    case Left(_) => false
    case Updated(_, _) => true
    case Unmatched(_) => true
    case Follow(_) => true
  }

  predicate AllOrdinary(v: View, r: seq<Flow>, es: seq<Event>)
    requires Legal(v, r, es)
    decreases |es|
  {
    es != [] ==> Ordinary(v, r, es[0]) && AllOrdinary(ViewAfter(v, r, es[0]), ListAfter(v, r, es[0]), es[1..])
  }

  lemma OrdinaryFits(v: View, cut: Cut, e: Event)
    requires Shows(v, cut) && Keyed(v) && Possible(v, cut.All(), e) && Ordinary(v, cut.All(), e)
    ensures FitsNext(v, cut.All(), e) && CountFits(v, cut.All(), e)
  {
    if e.Added? {
      var r, f := cut.All(), e.f;
      assert !Listed(r, f.id);
      if f.id in v.flows { ShownIsListed(v, cut, f.id); }
      if v.next.None? && v.order != [] {
        var last := v.order[|v.order| - 1];
        ShownIsListed(v, cut, last);
        LastIsThere(v, cut);
        assert r[|r| - 1] == cut.shown[|cut.shown| - 1];
      }
    }
  }

  /** In an ordinary run every event fits: the window agrees with the list and its count is right, all along. */
  lemma {:induction false} OrdinaryRunAgrees(v: View, cut: Cut, es: seq<Event>)
    requires Shows(v, cut) && CountRight(v, cut.All()) && Legal(v, cut.All(), es) && AllOrdinary(v, cut.All(), es)
    ensures AllFit(v, cut.All(), es) && AlwaysAgrees(v, cut.All(), es) && AlwaysCounted(v, cut.All(), es)
    decreases |es|
  {
    hide Shows, ViewAfter, ListAfter, Possible, Keyed, FitsNext, CountFits, CountRight, Ordinary;
    assert AgreesWith(v, cut.All());
    if es != [] {
      OrdinaryFits(v, cut, es[0]);
      CountKeepsExactly(v, cut.All(), es[0]);
      var next := StepKeeps(v, cut, es[0], Beyond(IdSet(cut.after), BehindIds(v.prev, cut.before)));
      OrdinaryRunAgrees(ViewAfter(v, cut.All(), es[0]), next, es[1..]);
    }
  }

  // ---- paging ----

  /**
    The page that the cursor asks for begins right after the window, and becomes a window that
    agrees if and only if it has all the rows there are when it has no cursor.
   */
  lemma NextPageFollows(v: View, cut: Cut, lo: nat, page: Page)
    requires Shows(v, cut) && v.next.Some? && IsPage(cut.All(), lo, v.window, page)
    requires Separates(cut.All(), lo, v.next.value)
    ensures lo == |cut.before| + |cut.shown| && page.flows <= cut.after
    ensures Shows(ApplyPage(v, page), Cut(cut.before + cut.shown, page.flows, cut.after[|page.flows|..]))
            <==> (page.next.None? ==> page.flows == cut.after)
  {
    var r, s, n := cut.All(), |cut.before| + |cut.shown|, |page.flows|;
    PageNextSkipsNone(v, cut);
    SamePlace(r, s, lo, v.next.value);
    assert IsList(r) && v.window >= 1;
    hide Shows, IsList, Separates;
    assert r[..s] == cut.before + cut.shown && r[s..] == cut.after;
    assert r[s..][..n] == page.flows && r[s..][n..] == r[s + n..];
    var t := Cut(cut.before + cut.shown, page.flows, cut.after[n..]);
    assert t.All() == r && |t.before| + |t.shown| == lo + n;
    assert t.after == [] <==> page.flows == cut.after;
    if page.next.None? ==> page.flows == cut.after { PageAgrees(v, page, t); }
    if Shows(ApplyPage(v, page), t) && page.next.None? { AtItsEnd(v, page, t); }
  }

  lemma AtItsEnd(v: View, page: Page, t: Cut)
    requires Shows(ApplyPage(v, page), t) && page.next.None?
    ensures t.after == []
  {}

  /**
    When the window ends where the list does, over any run from a page: exactly when every
    row that lay past the page, or arrived past the window since, has left the list. At the
    end there are none; not being at the end does not mean that there are some.
   */
  lemma SuffixExactly(v: View, r: seq<Flow>, lo: nat, page: Page, es: seq<Event>, t: Cut)
    requires v.window >= 1 && IsList(r) && IsPage(r, lo, v.window, page) && FitsPage(r, lo, page)
    requires Legal(ApplyPage(v, page), r, es) && AllFit(ApplyPage(v, page), r, es)
    requires t.All() == After(ApplyPage(v, page), r, es).1 && Shows(After(ApplyPage(v, page), r, es).0, t)
    ensures var missed := BeyondAll(ApplyPage(v, page), r, es, LoadBeyond(r, lo, page)).missed;
      (t.after == [] <==> missed == {}) && (After(ApplyPage(v, page), r, es).0.atEnd ==> missed == {})
  {
    var w := After(ApplyPage(v, page), r, es).0;
    WindowTracks(v, r, lo, page, es, t);
    hide After, BeyondAll, AllFit, Legal, IsPage, IsList;
    if t.after != [] { assert t.after[0].id in IdSet(t.after); }
  }

  lemma WindowTracks(v: View, r: seq<Flow>, lo: nat, page: Page, es: seq<Event>, t: Cut)
    requires v.window >= 1 && IsList(r) && IsPage(r, lo, v.window, page) && FitsPage(r, lo, page)
    requires Legal(ApplyPage(v, page), r, es) && AllFit(ApplyPage(v, page), r, es)
    requires t.All() == After(ApplyPage(v, page), r, es).1 && Shows(After(ApplyPage(v, page), r, es).0, t)
    ensures Tracks(After(ApplyPage(v, page), r, es).0, t,
                   BeyondAll(ApplyPage(v, page), r, es, LoadBeyond(r, lo, page)))
  {
    var u := WindowAlwaysAgrees(v, r, lo, page, es);
    hide After, BeyondAll, AllFit, Legal, AlwaysAgrees, IsPage, IsList, Tracks, Shows;
    CutIsUnique(After(ApplyPage(v, page), r, es).0, t, u);
  }

  /**
    Paging back reaches every row before the window, over any run from a page, exactly when
    every row that slid off the front, or arrived there past the backward cursor, since the
    last page came has left the list; or lay before a page without one.
   */
  lemma PrevExactly(v: View, r: seq<Flow>, lo: nat, page: Page, es: seq<Event>, t: Cut)
    requires v.window >= 1 && IsList(r) && IsPage(r, lo, v.window, page) && FitsPage(r, lo, page)
    requires Legal(ApplyPage(v, page), r, es) && AllFit(ApplyPage(v, page), r, es)
    requires t.All() == After(ApplyPage(v, page), r, es).1 && Shows(After(ApplyPage(v, page), r, es).0, t)
    ensures var w := After(ApplyPage(v, page), r, es).0;
      (forall g <- t.before :: w.prev.Some? && Before(g.key, w.prev.value))
      <==> BeyondAll(ApplyPage(v, page), r, es, LoadBeyond(r, lo, page)).behind == {}
  {
    var w := After(ApplyPage(v, page), r, es).0;
    WindowTracks(v, r, lo, page, es, t);
    hide After, BeyondAll, AllFit, Legal, IsPage, IsList;
    if g :| g in t.before && Behind(w.prev, g.key) { assert g.id in BehindIds(w.prev, t.before); }
  }

  /** There are rows, the window shows none of them, and neither cursor leads to any. */
  predicate Blank(v: View, r: seq<Flow>) {
    && r != [] && v.order == []
    && forall g <- r :: Behind(v.prev, g.key) && (v.next.Some? ==> !Before(v.next.value, g.key))
  }

  /** A pane is blank, over any run from a page, exactly when every row of the list is one that it left behind. */
  lemma BlankExactly(v: View, r: seq<Flow>, lo: nat, page: Page, es: seq<Event>)
    requires v.window >= 1 && IsList(r) && IsPage(r, lo, v.window, page) && FitsPage(r, lo, page)
    requires Legal(ApplyPage(v, page), r, es) && AllFit(ApplyPage(v, page), r, es)
    ensures var (w, all) := After(ApplyPage(v, page), r, es);
      Blank(w, all)
      <==> all != [] && BeyondAll(ApplyPage(v, page), r, es, LoadBeyond(r, lo, page)).behind == IdSet(all)
  {
    var t := WindowAlwaysAgrees(v, r, lo, page, es);
    var (w, all) := After(ApplyPage(v, page), r, es);
    hide After, BeyondAll, AllFit, Legal, AlwaysAgrees, IsPage, LoadBeyond;
    if Blank(w, all) { BlankIsBehind(w, t); }
    if all != [] && BehindIds(w.prev, t.before) == IdSet(all) { BehindIsBlank(w, t); }
  }

  lemma BlankIsBehind(w: View, t: Cut)
    requires Shows(w, t) && Blank(w, t.All())
    ensures BehindIds(w.prev, t.before) == IdSet(t.All())
  {
    hide IsIndex, IsList;
    assert |t.shown| == |Ids(t.shown)| == 0;
    forall g <- t.All() ensures g in t.before && Behind(w.prev, g.key) {}
  }

  lemma BehindIsBlank(w: View, t: Cut)
    requires Shows(w, t) && t.All() != [] && BehindIds(w.prev, t.before) == IdSet(t.All())
    ensures Blank(w, t.All())
  {
    var r, n := t.All(), |t.before|;
    forall k | 0 <= k < |r| ensures k < n && Behind(w.prev, r[k].key) {
      assert r[k].id in BehindIds(w.prev, t.before);
      var f :| f in t.before && f.id == r[k].id && Behind(w.prev, f.key);
      var j :| 0 <= j < n && t.before[j] == f;
      assert r[j] == f;
      assert j == k;
    }
    assert Behind(w.prev, r[|r| - 1].key);
    assert |t.shown| == 0 && |t.after| == 0 && r == t.before;
    forall g <- r ensures Behind(w.prev, g.key) && AtMost(g.key, g.key) {
      var k :| 0 <= k < |r| && r[k] == g;
    }
  }
}
