/**
  The session pane as an object: the fields and methods of its window model and of drawing
  it, each method proved to do what `LiveWindow` and `LiveTable` say.
 */
module SessionPane {
  import opened Bytes
  import opened Timeline
  import W = LiveWindow
  import T = LiveTable

  class Pane {
    var flows: map<string, W.Flow>
    var order: seq<string>
    const window: nat
    var next: Option<Key>
    var prev: Option<Key>
    var matched: nat
    var capped: bool
    var atEnd: bool
    var follow: bool
    var changed: set<string>
    var rendered: seq<string>
    var dirty: bool
    var table: seq<W.Flow>   // the rows of the table widget, as drawn

    function View(): W.View
      reads this
    {
      W.View(flows, order, window, next, prev, matched, capped, atEnd, follow)
    }

    function Screen(): T.Screen
      reads this
    {
      T.Screen(View(), rendered, table, changed, dirty)
    }

    /** The table has the rows that it is said to have, and the window's are there to be drawn. */
    predicate Drawable()
      reads this
    {
      |table| == |rendered| && forall id <- order :: id in flows
    }

    predicate Valid()
      reads this
    {
      window >= 1 && Drawable() && Distinct(order)
    }

    constructor (window: nat)
      requires window >= 1
      ensures Valid() && this.window == window && Screen() ==
              T.Screen(W.View(map[], [], window, None, None, 0, false, true, false), [], [], {}, false)
    {
      this.window := window;
      flows, order, next, prev, matched, capped, atEnd, follow := map[], [], None, None, 0, false, true, false;
      changed, rendered, dirty, table := {}, [], false, [];
    }

    /** Adopts a page from the gateway as the window, and draws it. */
    method ApplyPage(page: W.Page)
      requires window >= 1
      modifies this
      ensures Drawable() && (Valid() <==> W.DistinctIds(page.flows))
      ensures View() == W.ApplyPage(old(View()), page)
      ensures Screen() ==
              T.Render(old(Screen()).(view := W.ApplyPage(old(View()), page), rendered := [], table := []), true)
    {
      hide W.ApplyPage, T.Render;
      T.LoadedThere(View(), page);
      Adopt(page);
      rendered, table := [], [];
      assert forall id <- View().order :: id in View().flows;
      RenderPage(true);
      PageDistinct(old(View()), page);
    }

    /** Takes the page's rows and cursors for the window's own. */
    method Adopt(page: W.Page)
      modifies this`flows, this`order, this`next, this`prev, this`matched, this`capped, this`atEnd, this`follow
      ensures View() == W.ApplyPage(old(View()), page)
    {
      hide W.ById, W.Ids;
      TakeRows(page);
      next, prev, matched, capped := page.next, page.prev, page.matched, page.capped;
      atEnd := next.None?;
      if !atEnd {
        follow := false; // a view off the end takes no arrivals
      }
    }

    method TakeRows(page: W.Page)
      modifies this`flows, this`order
      ensures flows == W.ById(page.flows) && order == W.Ids(page.flows)
    {
      flows, order := map[], [];
      for k := 0 to |page.flows|
        invariant flows == W.ById(page.flows[..k]) && order == W.Ids(page.flows[..k])
      {
        var f := page.flows[k];
        assert page.flows[..k + 1][..k] == page.flows[..k];
        flows, order := flows[f.id := f], order + [f.id];
      }
      assert page.flows[..|page.flows|] == page.flows;
    }

    /** Folds one live flow into the window; says whether the window changed. */
    method Ingest(f: W.Flow, added: bool) returns (redraw: bool)
      requires Valid()
      modifies this
      ensures Valid() && View() == W.Ingest(old(View()), f, added)
      ensures Screen() == old(Screen()).(view := View(), dirty := true,
                changed := if f.id in old(flows) then old(changed) + {f.id} else old(changed))
      ensures redraw <==> order != old(order)
    {
      hide W.Trim;
      dirty := true;
      if f.id in flows {
        flows := flows[f.id := f];
        changed := changed + {f.id};
        return false;
      }
      if !added {
        return false;
      }
      matched := matched + 1;
      if !atEnd {
        return false;
      }
      if |order| >= window && !follow {
        var last := flows[order[|order| - 1]];
        atEnd := false;
        next := Some(last.key);
        return false;
      }
      Append(f);
      return true;
    }

    /** Puts a new flow at the window's end. */
    method Append(f: W.Flow)
      requires Valid() && f.id !in flows
      modifies this`flows, this`order
      ensures Valid()
      ensures var v := old(View());
        View() == W.Trim(v.(flows := v.flows[f.id := f], order := v.order + [f.id]))
      ensures order != old(order)
    {
      flows := flows[f.id := f];
      order := order + [f.id];
      assert Valid();
      TrimFront();
      Grew(old(order), f.id, |old(order)| + 1 - |order|);
    }

    /** Drops rows off the window's front while it holds too many. */
    method TrimFront()
      requires Valid()
      modifies this`flows, this`order
      ensures Valid()
      ensures View() == W.Trim(old(View()))
      ensures |order| <= |old(order)| && order == old(order)[|old(order)| - |order|..]
    {
      ghost var n := 0;
      assert order[0..] == order && old(order)[..0] == [];
      while |order| > window
        invariant n <= |old(order)| && order == old(order)[n..] && (n > 0 ==> |order| >= window)
        invariant flows == old(flows) - (set id <- old(order)[..n])
      {
        assert old(order)[..n + 1] == old(order)[..n] + [order[0]];
        flows := flows - {order[0]};
        order := order[1..];
        n := n + 1;
      }
      LaterStay(old(flows), old(order), n);
    }

    /** A flow stopped matching. */
    method Drop(id: string) returns (redraw: bool)
      requires Valid()
      modifies this
      ensures Valid() && View() == W.Drop(old(View()), id)
      ensures Screen() == old(Screen()).(view := View(), dirty := true)
      ensures redraw <==> id in old(flows)
    {
      dirty := true;
      if matched > 0 {
        matched := matched - 1;
      }
      if id !in flows {
        return false;
      }
      flows := flows - {id};
      WithoutDistinct(order, id);
      order := W.Without(order, id);
      return true;
    }

    /**
      Turns to the next page, if there is one: the query to send is the one after the cursor,
      and the rows after it are exactly those after the window.
     */
    method PageNext(ghost cut: W.Cut) returns (after: Option<Key>)
      requires W.Shows(View(), cut)
      ensures after.None? ==> cut.after == []
      ensures after.Some? ==> forall i | 0 <= i < |cut.All()| ::
                Before(after.value, cut.All()[i].key) <==> i >= |cut.before| + |cut.shown|
    {
      if next.Some? {
        W.PageNextSkipsNone(View(), cut);
      }
      after := next;
    }

    /** Puts the window's rows in the table. */
    method RenderPage(force: bool)
      requires Drawable()
      modifies this`rendered, this`table
      ensures Drawable() && Screen() == T.Render(old(Screen()), force)
    {
      var ids := order;
      if ids == rendered && !force {
        return;
      }
      var slid := false;
      if !force {
        slid := SlideRows(ids);
      }
      if !slid {
        table := [];
        for k := 0 to |ids|
          invariant |table| == k && forall j | 0 <= j < k :: table[j] == flows[ids[j]]
        {
          assert ids[k] in order;
          table := table + [flows[ids[k]]];
        }
        assert table == T.Rebuilt(View(), ids);
      }
      rendered := ids;
    }

    /** Moves the rows that stay and draws only the new ones; false when the window did not just slide. */
    method SlideRows(ids: seq<string>) returns (slid: bool)
      requires Drawable() && forall id <- ids :: id in flows
      modifies this`table
      ensures slid <==> T.SlideBy(rendered, ids).Some?
      ensures !slid ==> table == old(table)
      ensures slid ==> var drop := T.SlideBy(rendered, ids).value;
        table == old(table)[drop..] + T.Rebuilt(View(), ids[|rendered| - drop..])
    {
      if rendered == [] || ids == [] {
        return false;
      }
      var at := T.IndexOf(rendered, ids[0]);
      if at.None? {
        return false;
      }
      var drop := at.value;
      var kept := rendered[drop..];
      if |ids| < |kept| || ids[..|kept|] != kept {
        return false;
      }
      table := table[drop..];
      ghost var base := table;
      for k := |kept| to |ids|
        invariant table == base + T.Rebuilt(View(), ids[|kept|..k])
      {
        assert ids[|kept|..k + 1] == ids[|kept|..k] + [ids[k]];
        table := table + [flows[ids[k]]];
      }
      assert ids[|kept|..|ids|] == ids[|kept|..];
      return true;
    }

    /** Draws whatever changed since the last time. */
    method Flush()
      requires Valid()
      modifies this
      ensures Valid() && Screen() == T.Flush(old(Screen()))
    {
      if !dirty {
        return;
      }
      dirty := false;
      RenderPage(false);
      RedrawChanged();
    }

    method RedrawChanged()
      requires |table| == |rendered|
      modifies this`table, this`changed
      ensures |table| == |rendered| && Screen() == T.Redraw(old(Screen()))
    {
      var pending, rows := changed, table;
      changed := {};
      for k := 0 to |rendered|
        invariant |table| == |rendered| && changed == {}
        invariant forall j | 0 <= j < k ::
                    table[j] == (if rendered[j] in pending && rendered[j] in flows then flows[rendered[j]] else rows[j])
        invariant forall j | k <= j < |rows| :: table[j] == rows[j]
      {
        if rendered[k] in pending && rendered[k] in flows {
          table := table[k := flows[rendered[k]]];
        }
      }
      assert table == T.Redraw(old(Screen())).table;
    }
  }

  predicate Distinct(ids: seq<string>) {
    forall i, j | 0 <= i < j < |ids| :: ids[i] != ids[j]
  }

  lemma PageDistinct(v: W.View, page: W.Page)
    ensures Distinct(W.ApplyPage(v, page).order) <==> W.DistinctIds(page.flows)
  {
    assert forall k | 0 <= k < |page.flows| :: W.Ids(page.flows)[k] == page.flows[k].id;
  }

  /** Dropping the first of a window's rows leaves the others there. */
  lemma LaterStay(flows: map<string, W.Flow>, order: seq<string>, n: nat)
    requires n <= |order| && Distinct(order) && forall id <- order :: id in flows
    ensures Distinct(order[n..]) && forall id <- order[n..] :: id in flows - (set gone <- order[..n])
  {
    T.LaterAreOthers(order, n);
  }

  lemma {:induction false} WithoutDistinct(order: seq<string>, id: string)
    requires Distinct(order)
    ensures Distinct(W.Without(order, id)) && forall x <- W.Without(order, id) :: x in order && x != id
  {
    if order != [] {
      var rest := W.Without(order[1..], id);
      WithoutDistinct(order[1..], id);
      forall k | 0 <= k < |rest| ensures rest[k] != order[0] {
        assert rest[k] in order[1..];
      }
    }
  }

  lemma Grew(was: seq<string>, id: string, n: nat)
    requires id !in was && n <= |was|
    ensures (was + [id])[n..] != was
  {
    var now := (was + [id])[n..];
    if n == 1 {
      assert now[|was| - 1] == id;
    }
  }
}
