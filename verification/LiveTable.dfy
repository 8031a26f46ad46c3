/**
  The table a pane draws its window into. Between draws the pane only notes what changed; a
  draw slides the rows when the window slid and rebuilds them when it did not. The result is
  the table a rebuild would give.
 */
module LiveTable {
  import opened Bytes
  import opened LiveArrivals
  import opened LiveFailures
  import opened LiveRuns
  import opened LiveWindow

  /** The pane with its table: `rendered` names the rows, `table` is what they were drawn from. */
  datatype Screen = Screen(view: View, rendered: seq<string>, table: seq<Flow>, changed: set<string>, dirty: bool)

  /** Every row drawn afresh. */
  function Rebuilt(v: View, ids: seq<string>): (rows: seq<Flow>)
    requires forall id <- ids :: id in v.flows
    ensures |rows| == |ids|
  {
    seq(|ids|, k requires 0 <= k < |ids| => v.flows[ids[k]])
  }

  function IndexOf(ids: seq<string>, id: string): (k: Option<nat>)
    ensures k.Some? ==> k.value < |ids| && ids[k.value] == id
    ensures k.None? ==> id !in ids
  {
    if ids == [] then None
    else if ids[0] == id then Some(0)
    else match IndexOf(ids[1..], id) case None => None case Some(k) => Some(k + 1)
  }

  /** How many rows left the front, if `ids` is `was` slid: rows gone in front, rows new at the end. */
  function SlideBy(was: seq<string>, ids: seq<string>): (n: Option<nat>)
    ensures n.Some? ==> n.value <= |was| && was[n.value..] <= ids
  {
    if was == [] || ids == [] then None
    else match IndexOf(was, ids[0])
      case None => None
      case Some(drop) => if was[drop..] <= ids then Some(drop) else None
  }

  /**
    The window slid from `was` to `ids`, by the first of its new rows' place among the old ones, if
    and only if the old rows from there on are the first of the new.
   */
  lemma SlidesExactly(was: seq<string>, ids: seq<string>, n: nat)
    ensures SlideBy(was, ids) == Some(n) <==>
            && n < |was| && ids != [] && was[n] == ids[0] && (forall j | 0 <= j < n :: was[j] != ids[0])
            && |was| - n <= |ids| && was[n..] == ids[..|was| - n]
  {
    if ids != [] {
      var k := IndexOf(was, ids[0]);
      FirstIndex(was, ids[0]);
      assert k == Some(n) && |was| - n <= |ids| ==> (was[n..] <= ids <==> was[n..] == ids[..|was| - n]);
    }
  }

  lemma {:induction false} FirstIndex(ids: seq<string>, id: string)
    ensures var k := IndexOf(ids, id);
      k.Some? ==> forall j | 0 <= j < k.value :: ids[j] != id
  {
    if ids != [] && ids[0] != id {
      FirstIndex(ids[1..], id);
    }
  }

  /** Puts the window's rows in the table. */
  function Render(s: Screen, force: bool): Screen
    requires |s.table| == |s.rendered| && forall id <- s.view.order :: id in s.view.flows
  {
    var ids := s.view.order;
    if ids == s.rendered && !force then s
    else
      var rows := match SlideBy(s.rendered, ids)
        case Some(drop) =>
          if force then Rebuilt(s.view, ids)
          else s.table[drop..] + Rebuilt(s.view, ids[|s.rendered| - drop..])
        case None => Rebuilt(s.view, ids);
      s.(rendered := ids, table := rows)
  }

  /** Redraws the rows that are noted as changed and still there. */
  function Redraw(s: Screen): Screen
    requires |s.table| == |s.rendered|
  {
    var rows := seq(|s.table|, k requires 0 <= k < |s.table| =>
      if s.rendered[k] in s.changed && s.rendered[k] in s.view.flows then s.view.flows[s.rendered[k]] else s.table[k]);
    s.(table := rows, changed := {})
  }

  function Flush(s: Screen): Screen
    requires |s.table| == |s.rendered| && forall id <- s.view.order :: id in s.view.flows
  {
    if !s.dirty then s
    else
      var t := Render(s.(dirty := false), false);
      assert |t.table| == |t.rendered|;
      Redraw(t)
  }

  /** The table has the rows that it is said to have, and the window's fields hang together. */
  predicate Sound(s: Screen) {
    |s.table| == |s.rendered| && Keyed(s.view)
  }

  /** What one event does to the pane and its notes; a page is drawn at once. */
  function ScreenAfter(s: Screen, r: seq<Flow>, e: Event): Screen
    requires Sound(s) && Possible(s.view, r, e)
  {
    var v := ViewAfter(s.view, r, e);
    match e
    case Load(lo, page) =>
      LoadedThere(s.view, page);
      Render(s.(view := v, rendered := [], table := []), true)
    case Added(f) =>
      s.(view := v, dirty := true, changed := if f.id in s.view.flows then s.changed + {f.id} else s.changed)
    case Updated(_, f) =>
      s.(view := v, dirty := true, changed := if f.id in s.view.flows then s.changed + {f.id} else s.changed)
    case Unmatched(_) => s.(view := v, dirty := true)
    case Left(_) => s
    case Follow(_) => s.(view := v)
  }

  lemma {:induction false} ByIdThere(fs: seq<Flow>)
    ensures forall f <- fs :: f.id in ById(fs)
  {
    if fs != [] {
      ByIdThere(fs[..|fs| - 1]);
      assert fs == fs[..|fs| - 1] + [fs[|fs| - 1]];
    }
  }

  lemma LoadedThere(v: View, page: Page)
    ensures forall id <- ApplyPage(v, page).order :: id in ApplyPage(v, page).flows
  {
    ByIdThere(page.flows);
    forall id <- Ids(page.flows) ensures id in ById(page.flows) {
      var k :| 0 <= k < |page.flows| && Ids(page.flows)[k] == id;
      assert page.flows[k] in page.flows;
    }
  }

  // ---- the table is what a rebuild would give ----

  /** A row drawn from the flow as it is, or noted as changed, or no longer in the window. */
  predicate RowCurrent(s: Screen, k: nat)
    requires k < |s.table| == |s.rendered|
  {
    var id := s.rendered[k];
    id in s.view.flows && id !in s.changed ==> s.table[k] == s.view.flows[id]
  }

  predicate Drawn(s: Screen) {
    && |s.table| == |s.rendered|
    && (forall id <- s.view.order :: id in s.view.flows)
    && (forall k | 0 <= k < |s.table| :: RowCurrent(s, k))
    && (!s.dirty ==> s.rendered == s.view.order && s.table == Rebuilt(s.view, s.view.order))
  }

  /** How many rows the next draw drops off the front; all of them, if it rebuilds. */
  function Dropped(s: Screen): (d: nat)
    ensures d <= |s.rendered| && s.rendered[d..] <= s.view.order
  {
    if s.view.order == s.rendered then 0
    else match SlideBy(s.rendered, s.view.order) case Some(drop) => drop case None => |s.rendered|
  }

  lemma RenderedBy(s: Screen)
    requires |s.table| == |s.rendered| && forall id <- s.view.order :: id in s.view.flows
    ensures var d, ids, t := Dropped(s), s.view.order, Render(s, false);
      t.rendered == ids && t.view == s.view && t.changed == s.changed
      && t.table == s.table[d..] + Rebuilt(s.view, ids[|s.rendered| - d..])
  {
    var ids := s.view.order;
    assert ids == s.rendered ==> Rebuilt(s.view, ids[|s.rendered|..]) == [];
    assert ids[0..] == ids;
  }

  /** The rows that the next draw keeps are current or noted. */
  predicate KeptCurrent(s: Screen)
    requires |s.table| == |s.rendered|
  {
    forall k | Dropped(s) <= k < |s.table| :: RowCurrent(s, k)
  }

  predicate CanFlush(s: Screen) {
    |s.table| == |s.rendered| && (forall id <- s.view.order :: id in s.view.flows) && s.dirty
  }

  lemma KeptInPlace(s: Screen, k: nat)
    requires |s.table| == |s.rendered| && (forall id <- s.view.order :: id in s.view.flows)
    requires Dropped(s) <= k < |s.table|
    ensures var j, t := k - Dropped(s), Render(s, false);
      && t.rendered == s.view.order && t.view == s.view && t.changed == s.changed && |t.table| == |s.view.order|
      && j < |s.view.order| && s.view.order[j] == s.rendered[k] && t.table[j] == s.table[k]
  {
    RenderedBy(s);
    hide Render, SlideBy, Rebuilt;
    var d := Dropped(s);
    assert s.view.order[k - d] == s.rendered[d..][k - d] == s.rendered[k];
  }

  /** A row that the draw keeps is right if and only if it was current or noted. */
  lemma KeptRow(s: Screen, k: nat)
    requires CanFlush(s) && Dropped(s) <= k < |s.table|
    ensures var j, f := k - Dropped(s), Flush(s);
      j < |s.view.order| && |f.table| == |s.view.order|
      && (f.table[j] == s.view.flows[s.view.order[j]] <==> RowCurrent(s, k))
  {
    KeptInPlace(s.(dirty := false), k);
    hide Render, SlideBy, Rebuilt;
  }

  /** A row that it draws is right. */
  lemma NewRow(s: Screen, j: nat)
    requires CanFlush(s) && |s.table| - Dropped(s) <= j < |s.view.order|
    ensures |Flush(s).table| == |s.view.order| && Flush(s).table[j] == s.view.flows[s.view.order[j]]
  {
    var u, d, ids := s.(dirty := false), Dropped(s), s.view.order;
    RenderedBy(u);
    var t := Render(u, false);
    assert ids[|s.rendered| - d..][j - (|s.rendered| - d)] == ids[j];
    hide Render, SlideBy;
    assert t.table[j] == s.view.flows[ids[j]];
  }

  lemma FlushOrder(s: Screen)
    requires CanFlush(s)
    ensures var f := Flush(s);
      f.rendered == s.view.order && f.view == s.view && |f.table| == |s.view.order| && !f.dirty
  {
    RenderedBy(s.(dirty := false));
    hide Render, SlideBy;
  }

  /** A draw leaves the table that a rebuild would if and only if each row it keeps is current or noted. */
  lemma FlushExactly(s: Screen)
    requires CanFlush(s)
    ensures Flush(s).rendered == s.view.order && Flush(s).view == s.view
    ensures Flush(s).table == Rebuilt(s.view, s.view.order) <==> KeptCurrent(s)
  {
    var d, ids := Dropped(s), s.view.order;
    FlushOrder(s);
    hide Flush, RowCurrent, Dropped;
    var f, b := Flush(s), Rebuilt(s.view, ids);
    if KeptCurrent(s) {
      forall j | 0 <= j < |ids| ensures f.table[j] == b[j] {
        if j < |s.table| - d { KeptRow(s, j + d); } else { NewRow(s, j); }
      }
      assert f.table == b;
    }
    if f.table == b {
      forall k | d <= k < |s.table| ensures RowCurrent(s, k) {
        KeptRow(s, k);
        assert f.table[k - d] == b[k - d];
      }
    }
  }

  /** So sliding and redrawing a table whose rows are current or noted is rebuilding it. */
  lemma FlushIsRebuild(s: Screen)
    requires Drawn(s)
    ensures Flush(s).rendered == s.view.order
    ensures Flush(s).table == Rebuilt(s.view, s.view.order)
    ensures Drawn(Flush(s)) && !Flush(s).dirty && (s.dirty ==> Flush(s).changed == {})
  {
    if s.dirty {
      FlushExactly(s);
    }
  }

  // ---- between draws ----

  /** An arrival that is no return of a row still on screen, or is one that will be repainted or has not changed. */
  predicate Harmless(s: Screen, f: Flow)
    requires |s.table| == |s.rendered|
  {
    || f.id in s.view.flows
    || !Takes(s.view)
    || forall k | 0 <= k < |s.rendered| && s.rendered[k] == f.id :: f.id in s.changed || s.table[k] == f
  }

  lemma IngestKeyed(v: View, cut: Cut, f: Flow)
    requires Shows(v, cut)
    ensures Keyed(v) && Keyed(Ingest(v, f, true))
    ensures f.id !in v.flows && Takes(v) ==> f.id in Ingest(v, f, true).flows && Ingest(v, f, true).flows[f.id] == f
  {
    Basics(v, cut);
    ShownDistinct(cut);
    assert v.order == Ids(cut.shown);
    hide Shows, IsIndex, Ids;
    if f.id !in v.flows && Takes(v) {
      TakenKeyed(v, f);
    }
  }

  lemma TakenKeyed(v: View, f: Flow)
    requires Keyed(v) && f.id !in v.flows && Takes(v)
    requires forall i, j | 0 <= i < j < |v.order| :: v.order[i] != v.order[j]
    ensures var w := Ingest(v, f, true); Keyed(w) && f.id in w.flows && w.flows[f.id] == f
  {
    var ids := v.order + [f.id];
    var n := if |ids| > v.window then |ids| - v.window else 0;
    LaterAreOthers(ids, n);
    assert ids[n..][|ids| - n - 1] == f.id;
    forall id <- ids[n..] ensures id in v.flows || id == f.id {}
  }

  lemma LaterAreOthers(ids: seq<string>, n: nat)
    requires n <= |ids| && forall i, j | 0 <= i < j < |ids| :: ids[i] != ids[j]
    ensures forall id <- ids[n..] :: id !in ids[..n]
  {
    forall id <- ids[n..] ensures id !in ids[..n] {
      var k :| 0 <= k < |ids[n..]| && ids[n..][k] == id;
      assert ids[n + k] == id;
    }
  }

  /** An arrival keeps every row current or noted if and only if it is harmless. */
  lemma ArrivalKeepsDrawnExactly(s: Screen, cut: Cut, f: Flow)
    requires Drawn(s) && Shows(s.view, cut) && Possible(s.view, cut.All(), Added(f))
    ensures Sound(s) && (Drawn(ScreenAfter(s, cut.All(), Added(f))) <==> Harmless(s, f))
  {
    IngestKeyed(s.view, cut, f);
    hide Possible, Shows;
    var t := ScreenAfter(s, cut.All(), Added(f));
    assert t.view == Ingest(s.view, f, true);
    if Harmless(s, f) {
      forall k | 0 <= k < |t.table| ensures RowCurrent(t, k) { assert RowCurrent(s, k); }
    }
    if Drawn(t) {
      forall k | 0 <= k < |s.rendered| && s.rendered[k] == f.id
        ensures f.id in s.view.flows || !Takes(s.view) || f.id in s.changed || s.table[k] == f
      {
        assert RowCurrent(t, k);
      }
    }
  }

  /** Every other event keeps every row current or noted. */
  lemma EventKeepsDrawn(s: Screen, cut: Cut, e: Event)
    requires Drawn(s) && Shows(s.view, cut) && Possible(s.view, cut.All(), e) && !e.Added?
    ensures Sound(s) && Drawn(ScreenAfter(s, cut.All(), e))
  {
    Basics(s.view, cut);
    var t := ScreenAfter(s, cut.All(), e);
    if e.Load? {
      PageKeepsDrawn(s, cut.All(), e.lo, e.page);
    } else {
      if !e.Left? {
        var next := StepKeeps(s.view, cut, e, Beyond(IdSet(cut.after), BehindIds(s.view.prev, cut.before)));
        Basics(t.view, next);
      }
      EventKeepsNotes(s, cut.All(), e);
    }
  }

  lemma PageKeepsDrawn(s: Screen, r: seq<Flow>, lo: nat, page: Page)
    requires Sound(s) && Possible(s.view, r, Load(lo, page))
    ensures Drawn(ScreenAfter(s, r, Load(lo, page)))
    ensures var t := ScreenAfter(s, r, Load(lo, page));
      t.rendered == t.view.order && t.table == Rebuilt(t.view, t.view.order)
  {
    LoadedThere(s.view, page);
    hide Possible, ApplyPage;
    var t := ScreenAfter(s, r, Load(lo, page));
    assert t.rendered == t.view.order && t.table == Rebuilt(t.view, t.view.order);
  }

  lemma EventKeepsNotes(s: Screen, r: seq<Flow>, e: Event)
    requires Drawn(s) && Sound(s) && Possible(s.view, r, e) && !e.Load? && !e.Added?
    ensures var t := ScreenAfter(s, r, e);
      t.rendered == s.rendered && t.table == s.table && forall k | 0 <= k < |t.table| :: RowCurrent(t, k)
  {
    hide Possible;
    var t := ScreenAfter(s, r, e);
    forall k | 0 <= k < |t.table| ensures RowCurrent(t, k) { assert RowCurrent(s, k); }
  }

  // ---- whole runs ----

  /** Something happens to the list, or the pane is drawn. */
  datatype Step = Happens(e: Event) | Draws

  predicate Ready(s: Screen, r: seq<Flow>, step: Step) {
    step.Happens? ==> Possible(s.view, r, step.e)
  }

  function After(s: Screen, r: seq<Flow>, step: Step): (Screen, seq<Flow>)
    requires Sound(s) && Ready(s, r, step)
  {
    match step
    case Happens(e) => (ScreenAfter(s, r, e), ListAfter(s.view, r, e))
    case Draws => (Flush(s), r)
  }

  /** Each step in turn is one that can come next. */
  predicate LegalSteps(s: Screen, r: seq<Flow>, steps: seq<Step>)
    decreases |steps|
  {
    Sound(s) &&
    (steps != [] ==> Ready(s, r, steps[0]) && var (t, q) := After(s, r, steps[0]); LegalSteps(t, q, steps[1..]))
  }

  function AfterAll(s: Screen, r: seq<Flow>, steps: seq<Step>): (end: (Screen, seq<Flow>))
    requires LegalSteps(s, r, steps)
    ensures Sound(end.0)
    decreases |steps|
  {
    if steps == [] then (s, r)
    else var (t, q) := After(s, r, steps[0]); AfterAll(t, q, steps[1..])
  }

  /** Every arrival fits the window when it comes. */
  predicate AllFit(s: Screen, r: seq<Flow>, steps: seq<Step>)
    requires LegalSteps(s, r, steps)
    decreases |steps|
  {
    steps != [] ==>
      && (steps[0].Happens? ==> FitsNext(s.view, r, steps[0].e))
      && var (t, q) := After(s, r, steps[0]); AllFit(t, q, steps[1..])
  }

  /** Every arrival is harmless to the table when it comes. */
  predicate AllHarmless(s: Screen, r: seq<Flow>, steps: seq<Step>)
    requires LegalSteps(s, r, steps)
    decreases |steps|
  {
    steps != [] ==>
      && (steps[0].Happens? && steps[0].e.Added? ==> Harmless(s, steps[0].e.f))
      && var (t, q) := After(s, r, steps[0]); AllHarmless(t, q, steps[1..])
  }

  /** After each step the table's rows are current or noted. */
  predicate AlwaysDrawn(s: Screen, r: seq<Flow>, steps: seq<Step>)
    requires LegalSteps(s, r, steps)
    decreases |steps|
  {
    Drawn(s) && (steps != [] ==> var (t, q) := After(s, r, steps[0]); AlwaysDrawn(t, q, steps[1..]))
  }

  /**
    In every run of events and draws the window agrees with the list, and the next draw of a
    changed pane shows the window's rows as they are in the list if and only if the rows it
    keeps are current or noted.
   */
  lemma {:induction false} TableAlwaysAgrees(s: Screen, cut: Cut, steps: seq<Step>) returns (t: Cut)
    requires Shows(s.view, cut) && LegalSteps(s, cut.All(), steps) && AllFit(s, cut.All(), steps)
    ensures var (last, all) := AfterAll(s, cut.All(), steps);
      && t.All() == all && Shows(last.view, t) && Sound(last)
      && (last.dirty ==> (Flush(last).table == t.shown <==> KeptCurrent(last)))
    decreases |steps|
  {
    hide Shows, ScreenAfter, Flush, ListAfter, Sound, Ready, KeptCurrent;
    if steps == [] {
      t := cut;
      FlushShowsTheList(s, cut);
    } else {
      var next := StepShows(s, cut, steps[0]);
      var (u, _) := After(s, cut.All(), steps[0]);
      t := TableAlwaysAgrees(u, next, steps[1..]);
    }
  }

  /** The rows are current or noted all along if and only if every arrival is harmless; and then every draw is right. */
  lemma {:induction false} TableDrawnExactly(s: Screen, cut: Cut, steps: seq<Step>) returns (t: Cut)
    requires Drawn(s) && Shows(s.view, cut) && LegalSteps(s, cut.All(), steps) && AllFit(s, cut.All(), steps)
    ensures AlwaysDrawn(s, cut.All(), steps) <==> AllHarmless(s, cut.All(), steps)
    ensures AllHarmless(s, cut.All(), steps) ==>
              var (last, all) := AfterAll(s, cut.All(), steps);
              t.All() == all && Shows(last.view, t) && Drawn(last) && Flush(last).table == t.shown
    decreases |steps|
  {
    hide Drawn, Shows, ScreenAfter, Flush, ListAfter, Sound, Ready, Harmless, FitsNext;
    t := cut;
    if steps == [] {
      DrawnShowsTheList(s, cut);
    } else {
      var (u, _) := After(s, cut.All(), steps[0]);
      StepDrawn(s, cut, steps[0]);
      if Drawn(u) {
        var next := StepShows(s, cut, steps[0]);
        t := TableDrawnExactly(u, next, steps[1..]);
      } else {
        NotDrawnFirst(u, ListOf(s, cut.All(), steps[0]), steps[1..]);
      }
    }
  }

  function ListOf(s: Screen, r: seq<Flow>, step: Step): seq<Flow>
    requires Sound(s) && Ready(s, r, step)
  {
    After(s, r, step).1
  }

  lemma NotDrawnFirst(s: Screen, r: seq<Flow>, steps: seq<Step>)
    requires LegalSteps(s, r, steps) && !Drawn(s)
    ensures !AlwaysDrawn(s, r, steps)
  {}

  lemma StepShows(s: Screen, cut: Cut, step: Step) returns (next: Cut)
    requires Shows(s.view, cut) && Sound(s) && Ready(s, cut.All(), step)
    requires step.Happens? ==> FitsNext(s.view, cut.All(), step.e)
    ensures var (t, q) := After(s, cut.All(), step); next.All() == q && Shows(t.view, next)
  {
    hide Shows, FitsNext, Possible;
    match step
    case Happens(e) =>
      next := StepKeeps(s.view, cut, e, Beyond(IdSet(cut.after), BehindIds(s.view.prev, cut.before)));
      ScreenView(s, cut.All(), e);
    case Draws =>
      next := cut;
      FlushView(s);
  }

  lemma StepDrawn(s: Screen, cut: Cut, step: Step)
    requires Drawn(s) && Shows(s.view, cut) && Sound(s) && Ready(s, cut.All(), step)
    ensures Drawn(After(s, cut.All(), step).0) <==>
            (step.Happens? && step.e.Added? ==> Harmless(s, step.e.f))
  {
    hide Drawn, Shows, Possible, Harmless;
    match step
    case Happens(e) =>
      if e.Added? { ArrivalKeepsDrawnExactly(s, cut, e.f); } else { EventKeepsDrawn(s, cut, e); }
    case Draws =>
      FlushIsRebuild(s);
  }

  lemma ScreenView(s: Screen, r: seq<Flow>, e: Event)
    requires Sound(s) && Possible(s.view, r, e)
    ensures ScreenAfter(s, r, e).view == ViewAfter(s.view, r, e)
  {
    hide Possible, SlideBy;
  }

  lemma FlushView(s: Screen)
    requires |s.table| == |s.rendered| && forall id <- s.view.order :: id in s.view.flows
    ensures Flush(s).view == s.view
  {}

  lemma RebuiltShows(v: View, cut: Cut)
    requires Shows(v, cut)
    ensures (forall id <- v.order :: id in v.flows) && Rebuilt(v, v.order) == cut.shown
  {
    Basics(v, cut);
    assert forall k | 0 <= k < |cut.shown| :: cut.shown[k] in cut.shown;
  }

  lemma FlushShowsTheList(s: Screen, cut: Cut)
    requires Sound(s) && Shows(s.view, cut)
    ensures s.dirty ==> (Flush(s).table == cut.shown <==> KeptCurrent(s))
  {
    RebuiltShows(s.view, cut);
    if s.dirty { FlushExactly(s); }
  }

  lemma DrawnShowsTheList(s: Screen, cut: Cut)
    requires Drawn(s) && Shows(s.view, cut)
    ensures Flush(s).table == cut.shown
  {
    RebuiltShows(s.view, cut);
    FlushIsRebuild(s);
  }

  // ---- a run that goes the other way ----

  /** A new pane whose window holds one row. */
  const EMPTY := Screen(View(map[], [], 1, None, None, 0, false, true, false), [], [], {}, false)

  /** Gone and back between two draws, a row keeps its old cells: the next draw shows what it was. */
  lemma ReturningRowIsStale()
    ensures exists steps | LegalSteps(EMPTY, [], steps) ::
              var (last, all) := AfterAll(EMPTY, [], steps);
              AllFit(EMPTY, [], steps) && last.dirty && last.view.order == ["a"]
              && Flush(last).table == [FIRST] && all == [FIRST.(shown := "changed")]
  {
    var back := FIRST.(shown := "changed");
    var v := View(map["a" := FIRST], ["a"], 1, None, None, 1, false, true, false);
    var n, a := EMPTY.(view := v, dirty := true), Screen(v, ["a"], [FIRST], {}, false);
    RowBack(EMPTY, n, FIRST);
    RowDrawn(n, a);
    hide ScreenAfter, Possible, ListAfter, FitsNext, Flush, LegalSteps, AfterAll, AllFit, Sound;
    var steps := RowReturns(a, back);
    FirstStep(n, [FIRST], Draws, steps);
    FirstStep(EMPTY, [], Happens(Added(FIRST)), [Draws] + steps);
  }

  lemma RowReturns(a: Screen, back: Flow) returns (steps: seq<Step>)
    requires a ==
             Screen(View(map["a" := FIRST], ["a"], 1, None, None, 1, false, true, false), ["a"], [FIRST], {}, false)
    requires back.id == "a"
    ensures LegalSteps(a, [FIRST], steps) && AllFit(a, [FIRST], steps)
    ensures var (last, all) := AfterAll(a, [FIRST], steps);
      last.dirty && last.view.order == ["a"] && Flush(last).table == [FIRST] && all == [back]
  {
    var b := a.(view := a.view.(matched := 0, flows := map[], order := []), dirty := true);
    var c := a.(view := a.view.(flows := map["a" := back]), dirty := true);
    RowGone(a, b);
    RowBack(b, c, back);
    StaleDraw(c, back);
    hide ScreenAfter, Possible, ListAfter, FitsNext, Flush, LegalSteps, AfterAll, AllFit, Sound;
    NoSteps(c, [back]);
    FirstStep(b, [], Happens(Added(back)), []);
    FirstStep(a, [FIRST], Happens(Unmatched(0)), [Happens(Added(back))] + []);
    steps := [Happens(Unmatched(0))] + ([Happens(Added(back))] + []);
  }

  lemma NoSteps(s: Screen, r: seq<Flow>)
    requires Sound(s)
    ensures LegalSteps(s, r, []) && AfterAll(s, r, []) == (s, r) && AllFit(s, r, [])
  {}

  lemma FirstStep(s: Screen, r: seq<Flow>, step: Step, steps: seq<Step>)
    requires Sound(s) && Ready(s, r, step)
    requires LegalSteps(After(s, r, step).0, After(s, r, step).1, steps)
    ensures LegalSteps(s, r, [step] + steps)
    ensures AfterAll(s, r, [step] + steps) == AfterAll(After(s, r, step).0, After(s, r, step).1, steps)
    ensures AllFit(s, r, [step] + steps) <==>
            (step.Happens? ==> FitsNext(s.view, r, step.e)) && AllFit(After(s, r, step).0, After(s, r, step).1, steps)
  {
    hide ScreenAfter, Flush, ListAfter, Ready, FitsNext;
    assert ([step] + steps)[1..] == steps;
  }

  lemma RowDrawn(n: Screen, a: Screen)
    requires n.view == View(map["a" := FIRST], ["a"], 1, None, None, 1, false, true, false)
    requires n.rendered == [] && n.table == [] && n.changed == {} && n.dirty
    requires a == Screen(n.view, ["a"], [FIRST], {}, false)
    ensures Sound(n) && Flush(n) == a
  {
    assert Rebuilt(n.view, ["a"]) == [FIRST];
  }

  lemma RowGone(a: Screen, b: Screen)
    requires a ==
             Screen(View(map["a" := FIRST], ["a"], 1, None, None, 1, false, true, false), ["a"], [FIRST], {}, false)
    requires b == a.(view := a.view.(matched := 0, flows := map[], order := []), dirty := true)
    ensures Sound(a) && Possible(a.view, [FIRST], Unmatched(0))
    ensures ScreenAfter(a, [FIRST], Unmatched(0)) == b && ListAfter(a.view, [FIRST], Unmatched(0)) == []
  {
    assert Without(["a"], "a") == [];
  }

  lemma RowBack(b: Screen, c: Screen, back: Flow)
    requires b.view == View(map[], [], 1, None, None, 0, false, true, false) && |b.table| == |b.rendered|
    requires c == b.(view := b.view.(flows := map["a" := back], order := ["a"], matched := 1), dirty := true)
    requires back.id == "a"
    ensures Sound(b) && Sound(c) && Possible(b.view, [], Added(back)) && FitsNext(b.view, [], Added(back))
    ensures ScreenAfter(b, [], Added(back)) == c && ListAfter(b.view, [], Added(back)) == [back]
  {
    assert [] + ["a"] == ["a"];
  }

  lemma StaleDraw(c: Screen, back: Flow)
    requires c.rendered == ["a"] == c.view.order && c.table == [FIRST] && c.changed == {} && c.dirty
    requires c.view.flows == map["a" := back]
    ensures Flush(c).table == [FIRST]
  {}
}
