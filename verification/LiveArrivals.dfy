/**
  What the window does with a flow that the stream speaks of for the first time: exactly which
  of them it takes rightly, and which rows it leaves outside.
 */
module LiveArrivals {
  import opened Bytes
  import opened LiveWindow
  import opened Timeline

  /** The window holds the end of the list and may grow or slide. */
  predicate Takes(v: View) {
    v.atEnd && (|v.order| < v.window || v.follow)
  }

  /** Where the window ends: its cursor, or its last row if that becomes the cursor. */
  function Bound(v: View): Key
    requires v.next.None? ==> v.order != [] && v.order[|v.order| - 1] in v.flows
  {
    if v.next.Some? then v.next.value else v.flows[v.order[|v.order| - 1]].key
  }

  /**
    The flows that the window can be told of as added: one that it shows; one that is listed
    elsewhere, but if it would be taken then only the last row; a new one after every row, if
    it would be taken; and if not, one outside the window.
   */
  predicate Fits(v: View, r: seq<Flow>, f: Flow)
    requires Keyed(v)
  {
    f.id in v.flows ||
    if Listed(r, f.id) then Takes(v) ==> r[|r| - 1].id == f.id
    else if Takes(v) then forall i | 0 <= i < |r| :: Before(r[i].key, f.key)
    else v.order == [] || Before(f.key, v.flows[v.order[0]].key) || Before(Bound(v), f.key)
  }

  lemma ArriveKeepsList(r: seq<Flow>, f: Flow)
    requires IsList(r) && forall i | 0 <= i < |r| :: r[i].id == f.id <==> r[i].key == f.key
    ensures IsList(Arrive(r, f)) && |Arrive(r, f)| == |r| + if Listed(r, f.id) then 0 else 1
  {
    if !Listed(r, f.id) {
      InsertKeepsList(r, f, Place(r, f.key));
    }
  }

  lemma InsertKeepsList(r: seq<Flow>, f: Flow, p: nat)
    requires IsList(r) && !Listed(r, f.id) && (forall i | 0 <= i < |r| :: r[i].key != f.key)
    requires p <= |r| && (forall i | 0 <= i < p :: Before(r[i].key, f.key)) && (p < |r| ==> !Before(r[p].key, f.key))
    ensures IsList(r[..p] + [f] + r[p..])
  {
    var q := r[..p] + [f] + r[p..];
    forall i | p <= i < |r| ensures Before(f.key, r[i].key) {
      assert i > p ==> Before(r[p].key, r[i].key);
    }
    assert forall j | 0 <= j < |q| :: q[j] == if j < p then r[j] else if j == p then f else r[j - 1];
  }

  /** A window at the end takes a new row. */
  lemma AppendAgrees(v: View, cut: Cut, f: Flow)
    requires Shows(v, cut) && v.atEnd && f.id !in v.flows && !Listed(cut.All(), f.id) && IsList(cut.All() + [f])
    ensures var w := v.(matched := v.matched + 1, flows := v.flows[f.id := f], order := v.order + [f.id]);
      Agrees(w, cut.(shown := cut.shown + [f])) && cut.(shown := cut.shown + [f]).All() == cut.All() + [f]
  {
    var more := cut.(shown := cut.shown + [f]);
    assert more.All() == cut.All() + [f];
    IndexSnoc(v.flows, cut.shown, f);
    assert Ids(more.shown) == v.order + [f.id];
  }

  /** What an arrival that fits changes outside the window: rows slide off the front, or the arrival stays out. */
  function ArrivalBeyond(v: View, r: seq<Flow>, f: Flow, b: Beyond): Beyond
    requires Keyed(v)
  {
    if f.id in v.flows || (Listed(r, f.id) && !Takes(v)) then b
    else if Takes(v) then b.(behind := b.behind - {f.id} + SlidOff(v, f))
    else if Before(Bound(v), f.key) then b.(missed := b.missed + {f.id})
    else b.(behind := b.behind + if Behind(v.prev, f.key) then {f.id} else {})
  }

  /** The rows that make way for `f` at the window's end and are not where the backward cursor leads. */
  function SlidOff(v: View, f: Flow): set<string>
    requires Keyed(v)
  {
    var n := if |v.order| + 1 > v.window then |v.order| + 1 - v.window else 0;
    set id <- v.order[..n] | Behind(v.prev, v.flows[id].key) :: id
  }

  /** An arrival that fits keeps the agreement. */
  lemma AddKeeps(v: View, cut: Cut, f: Flow, b: Beyond) returns (t: Cut)
    requires Shows(v, cut) && Possible(v, cut.All(), Added(f)) && Tracks(v, cut, b)
    requires Keyed(v) && Fits(v, cut.All(), f)
    ensures t.All() == Arrive(cut.All(), f) && Shows(Ingest(v, f, true), t)
    ensures Tracks(v, t, ArrivalBeyond(v, cut.All(), f, b))
  {
    hide IsList, IsIndex, Trim, CursorRight, IdSet, BehindIds;
    if f.id in v.flows {
      ShownIsListed(v, cut, f.id);
      t := UpdateKeeps(v, cut, IndexIn(cut.All(), f.id), f);
    } else if Listed(cut.All(), f.id) {
      t := ListedKeeps(v, cut, f);
    } else if Takes(v) {
      t := TakenKeeps(v, cut, f);
    } else {
      t := PassedKeeps(v, cut, f);
    }
  }

  /** A flow listed outside the window stays there, unless it is the list's last row and is taken. */
  lemma ListedKeeps(v: View, cut: Cut, f: Flow) returns (t: Cut)
    requires Shows(v, cut) && Possible(v, cut.All(), Added(f)) && Keyed(v) && Fits(v, cut.All(), f)
    requires f.id !in v.flows && Listed(cut.All(), f.id)
    ensures t.All() == Arrive(cut.All(), f) && Shows(Ingest(v, f, true), t) && IdSet(t.after) == IdSet(cut.after)
    ensures BehindIds(v.prev, t.before) ==
            if Takes(v) then BehindIds(v.prev, cut.before) - {f.id} + SlidOff(v, f) else BehindIds(v.prev, cut.before)
  {
    var r, i := cut.All(), IndexIn(cut.All(), f.id);
    ArriveKeepsList(r, f);
    InWindow(v, cut, i);
    if !Takes(v) {
      t := Replace(cut, i, [f]);
      ReplaceAll(cut, i, [f]);
      ReplaceTracks(v.prev, cut, i, f);
      assert t.All() == r[i := f];
      if v.atEnd { LastSeparates(v, cut); }
      ReplaceSeparated(cut, i, [f], Bound(v));
    } else {
      t := LastRowTaken(v, cut, i, f);
    }
  }

  lemma LastRowTaken(v: View, cut: Cut, i: nat, f: Flow) returns (t: Cut)
    requires Shows(v, cut) && Keyed(v) && Takes(v) && i < |cut.All()|
    requires cut.All()[|cut.All()| - 1].id == f.id == cut.All()[i].id && cut.All()[i].key == f.key
    requires f.id !in v.flows && IsList(cut.All()[i := f])
    ensures t.All() == cut.All()[i := f] && Shows(Ingest(v, f, true), t) && t.after == cut.after
    ensures BehindIds(v.prev, t.before) == BehindIds(v.prev, cut.before) - {f.id} + SlidOff(v, f)
  {
    var r := cut.All();
    InWindow(v, cut, |r| - 1);
    assert cut.shown == [] && cut.after == [] && cut.before == r && i == |r| - 1;
    t := Cut(r[..i], [f], []);
    assert t.All() == r[i := f];
    FewerIds(v.prev, r, i);
    assert r[..i] + r[i + 1..] == r[..i];
    assert Ids(t.shown) == [f.id] == v.order + [f.id];
    assert v.flows == map[];
    var w := v.(matched := v.matched + 1, flows := v.flows[f.id := f], order := v.order + [f.id]);
    assert w.order[0..] == w.order && w.flows - (set id <- w.order[..0]) == w.flows;
  }

  /** A new flow after every row, at the end of a window that takes it. */
  lemma TakenKeeps(v: View, cut: Cut, f: Flow) returns (t: Cut)
    requires Shows(v, cut) && Possible(v, cut.All(), Added(f)) && Keyed(v) && Fits(v, cut.All(), f)
    requires f.id !in v.flows && !Listed(cut.All(), f.id) && Takes(v)
    ensures t.All() == Arrive(cut.All(), f) && Shows(Ingest(v, f, true), t) && IdSet(t.after) == IdSet(cut.after)
    ensures BehindIds(v.prev, t.before) == BehindIds(v.prev, cut.before) - {f.id} + SlidOff(v, f)
  {
    hide Shows, Possible, Keyed, Fits, Takes, Listed, Agrees, Arrive, Ingest, Trim, SlidOff, IdSet, BehindIds;
    var w := TakenAppends(v, cut, f);
    t := TrimKeeps(w, cut.(shown := cut.shown + [f]));
    SlidOffTracks(v, cut, f, t);
  }

  lemma TakenAppends(v: View, cut: Cut, f: Flow) returns (w: View)
    requires Shows(v, cut) && Possible(v, cut.All(), Added(f)) && Keyed(v) && Fits(v, cut.All(), f)
    requires f.id !in v.flows && !Listed(cut.All(), f.id) && Takes(v)
    ensures w == v.(matched := v.matched + 1, flows := v.flows[f.id := f], order := v.order + [f.id])
    ensures Ingest(v, f, true) == Trim(w) && Agrees(w, cut.(shown := cut.shown + [f]))
    ensures cut.(shown := cut.shown + [f]).All() == Arrive(cut.All(), f)
  {
    w := IngestTakes(v, f);
    hide Ingest, Trim;
    ArrivesLast(cut.All(), f);
    hide Arrive, IsList, Listed, Fits, IsIndex, Possible;
    AppendAgrees(v, cut, f);
  }

  lemma IngestTakes(v: View, f: Flow) returns (w: View)
    requires Keyed(v) && f.id !in v.flows && Takes(v)
    ensures w == v.(matched := v.matched + 1, flows := v.flows[f.id := f], order := v.order + [f.id])
    ensures Ingest(v, f, true) == Trim(w)
  {
    w := v.(matched := v.matched + 1, flows := v.flows[f.id := f], order := v.order + [f.id]);
  }

  lemma ArrivesLast(r: seq<Flow>, f: Flow)
    requires IsList(r) && !Listed(r, f.id) && forall i | 0 <= i < |r| :: Before(r[i].key, f.key)
    ensures Arrive(r, f) == r + [f] && IsList(r + [f])
  {
    assert Place(r, f.key) == |r|;
    assert r[..|r|] + [f] + r[|r|..] == r + [f];
  }

  lemma SlidOffTracks(v: View, cut: Cut, f: Flow, t: Cut)
    requires Shows(v, cut) && Keyed(v) && f.id !in v.flows && !Listed(cut.All(), f.id)
    requires var n := if |v.order| + 1 > v.window then |v.order| + 1 - v.window else 0;
      n <= |cut.shown| + 1 && t == Advance(cut.(shown := cut.shown + [f]), n)
    ensures IdSet(t.after) == IdSet(cut.after)
    ensures BehindIds(v.prev, t.before) == BehindIds(v.prev, cut.before) - {f.id} + SlidOff(v, f)
  {
    var n := if |v.order| + 1 > v.window then |v.order| + 1 - v.window else 0;
    assert n <= |cut.shown|;
    assert t.before == cut.before + cut.shown[..n];
    assert cut.shown[..n] == (cut.shown + [f])[..n];
    forall g <- cut.before ensures g.id != f.id {
      var k :| 0 <= k < |cut.before| && cut.before[k] == g;
      assert cut.All()[k] == g;
    }
    forall k | 0 <= k < n ensures v.order[..n][k] == cut.shown[..n][k].id && v.flows[v.order[k]] == cut.shown[k] {
      assert cut.shown[k] in cut.shown;
    }
    assert BehindIds(v.prev, cut.shown[..n]) == SlidOff(v, f) by { SlidOffIds(v, cut.shown, f, n); }
  }

  lemma SlidOffIds(v: View, shown: seq<Flow>, f: Flow, n: nat)
    requires Keyed(v) && n <= |shown| == |v.order|
    requires n == if |v.order| + 1 > v.window then |v.order| + 1 - v.window else 0
    requires forall k | 0 <= k < n :: v.order[k] == shown[k].id && v.flows[v.order[k]] == shown[k]
    ensures BehindIds(v.prev, shown[..n]) == SlidOff(v, f)
  {
    forall g <- shown[..n] ensures g.id in v.order[..n] && v.flows[g.id] == g {
      var k :| 0 <= k < n && shown[..n][k] == g;
      assert v.order[..n][k] == g.id;
    }
    forall id <- v.order[..n] ensures v.flows[id] in shown[..n] && v.flows[id].id == id {
      var k :| 0 <= k < n && v.order[..n][k] == id;
      assert shown[..n][k] == v.flows[id];
    }
  }

  /** A new flow that the window does not take, before it or after it. */
  lemma PassedKeeps(v: View, cut: Cut, f: Flow) returns (t: Cut)
    requires Shows(v, cut) && Possible(v, cut.All(), Added(f)) && Keyed(v) && Fits(v, cut.All(), f)
    requires f.id !in v.flows && !Listed(cut.All(), f.id) && !Takes(v)
    ensures t.All() == Arrive(cut.All(), f) && Shows(Ingest(v, f, true), t)
    ensures if Before(Bound(v), f.key)
            then IdSet(t.after) == IdSet(cut.after) + {f.id} && t.before == cut.before
            else t.after == cut.after && BehindIds(v.prev, t.before) ==
                 BehindIds(v.prev, cut.before) + if Behind(v.prev, f.key) then {f.id} else {}
  {
    ArriveKeepsList(cut.All(), f);
    if v.atEnd { LastSeparates(v, cut); }
    hide IsIndex, Arrive, IsList, IdSet, BehindIds;
    if Before(Bound(v), f.key) {
      t := PutAfter(v.prev, cut, f, Bound(v));
    } else {
      t := PutBefore(v, cut, f, Bound(v));
    }
    PassedAgrees(v, cut, f, t);
  }

  lemma PutAfter(prev: Option<Key>, cut: Cut, f: Flow, c: Key) returns (t: Cut)
    requires !Listed(cut.All(), f.id) && Separated(cut, c) && Before(c, f.key)
    ensures t.All() == Arrive(cut.All(), f) && t.before == cut.before && t.shown == cut.shown
    ensures IdSet(t.after) == IdSet(cut.after) + {f.id} && forall g <- t.after :: g in cut.after || g == f
  {
    var r, p := cut.All(), Place(cut.All(), f.key);
    var q := PlaceAfter(cut, f.key, c);
    hide Place;
    t := cut.(after := cut.after[..q] + [f] + cut.after[q..]);
    MoreIds(prev, cut.after, q, f);
    InsertInThird(cut.before, cut.shown, cut.after, q, f);
    hide IdSet, BehindIds, Separated;
    forall g <- t.after ensures g in cut.after || g == f {
      var j :| 0 <= j < |t.after| && t.after[j] == g;
    }
  }

  lemma InsertInThird<T>(a: seq<T>, b: seq<T>, c: seq<T>, q: nat, x: T)
    requires q <= |c|
    ensures var all, p := a + b + c, |a| + |b| + q; a + b + (c[..q] + [x] + c[q..]) == all[..p] + [x] + all[p..]
  {}

  lemma InsertInFirst<T>(a: seq<T>, b: seq<T>, c: seq<T>, p: nat, x: T)
    requires p <= |a|
    ensures var all := a + b + c; (a[..p] + [x] + a[p..]) + b + c == all[..p] + [x] + all[p..]
  {}

  lemma PutBefore(v: View, cut: Cut, f: Flow, c: Key) returns (t: Cut)
    requires Shows(v, cut) && Keyed(v) && Separated(cut, c) && !Before(c, f.key) && f.id !in v.flows
    requires Possible(v, cut.All(), Added(f)) && !Listed(cut.All(), f.id)
    requires v.order == [] || Before(f.key, v.flows[v.order[0]].key)
    ensures t.All() == Arrive(cut.All(), f) && t.after == cut.after && t.shown == cut.shown
    ensures BehindIds(v.prev, t.before) ==
            BehindIds(v.prev, cut.before) + if Behind(v.prev, f.key) then {f.id} else {}
    ensures forall g <- t.before :: g in cut.before || g == f
  {
    var r, p := cut.All(), Place(cut.All(), f.key);
    PlaceBefore(v, cut, f, c);
    hide Place, Shows, Keyed, Separated, IsList;
    t := cut.(before := cut.before[..p] + [f] + cut.before[p..]);
    MoreIds(v.prev, cut.before, p, f);
    InsertInFirst(cut.before, cut.shown, cut.after, p, f);
    hide IdSet, BehindIds;
    forall g <- t.before ensures g in cut.before || g == f {
      var j :| 0 <= j < |t.before| && t.before[j] == g;
    }
  }

  lemma PlaceAfter(cut: Cut, k: Key, c: Key) returns (q: nat)
    requires Separated(cut, c) && Before(c, k)
    ensures q <= |cut.after| && Place(cut.All(), k) == |cut.before| + |cut.shown| + q
  {
    var r, n := cut.All(), |cut.before| + |cut.shown|;
    var p := Place(r, k);
    forall i | 0 <= i < n ensures Before(r[i].key, k) {
      assert r[i] == if i < |cut.before| then cut.before[i] else cut.shown[i - |cut.before|];
    }
    q := p - n;
  }

  lemma PlaceBefore(v: View, cut: Cut, f: Flow, c: Key)
    requires Shows(v, cut) && Keyed(v) && Separated(cut, c) && !Before(c, f.key) && f.id !in v.flows
    requires Possible(v, cut.All(), Added(f))
    requires v.order == [] || Before(f.key, v.flows[v.order[0]].key)
    ensures Place(cut.All(), f.key) <= |cut.before|
  {
    var r, n := cut.All(), |cut.before|;
    if cut.shown != [] {
      assert r[n] == cut.shown[0] && cut.shown[0] in cut.shown;
      assert !Before(r[n].key, f.key);
    } else if cut.after != [] {
      assert r[n] == cut.after[0] && cut.after[0] in cut.after;
      assert !Before(r[n].key, f.key);
    }
  }

  lemma PassedAgrees(v: View, cut: Cut, f: Flow, t: Cut)
    requires Shows(v, cut) && Keyed(v) && f.id !in v.flows && !Takes(v) && Separated(cut, Bound(v))
    requires t.shown == cut.shown && IsList(t.All())
    requires if Before(Bound(v), f.key)
             then t.before == cut.before && forall g <- t.after :: g in cut.after || g == f
             else t.after == cut.after && forall g <- t.before :: g in cut.before || g == f
    ensures Shows(Ingest(v, f, true), t)
  {}

  /** The last row of a window at the end becomes its cursor when the window lets an arrival pass. */
  lemma LastSeparates(v: View, cut: Cut)
    requires Shows(v, cut) && v.atEnd && v.order != []
    ensures v.order[|v.order| - 1] in v.flows
    ensures Separated(cut, v.flows[v.order[|v.order| - 1]].key)
  {
    hide IsIndex;
    LastIsThere(v, cut);
    var r, n := cut.All(), |cut.before|;
    var last := cut.shown[|cut.shown| - 1];
    assert r[|r| - 1] == last;
    forall g <- cut.before ensures AtMost(g.key, last.key) {
      var k :| 0 <= k < n && cut.before[k] == g;
      assert r[k] == g;
    }
    forall g <- cut.shown ensures AtMost(g.key, last.key) {
      var k :| 0 <= k < |cut.shown| && cut.shown[k] == g;
      assert r[n + k] == g;
    }
  }

  // ---- exactly those arrivals ----

  /** An arrival that does not fit leaves the window with no place in the list. */
  lemma MisfitBreaks(v: View, cut: Cut, f: Flow, t: Cut)
    requires Shows(v, cut) && Possible(v, cut.All(), Added(f)) && Keyed(v)
    requires t.All() == Arrive(cut.All(), f) && Shows(Ingest(v, f, true), t)
    ensures Fits(v, cut.All(), f)
  {
    var r, q := cut.All(), t.All();
    if f.id !in v.flows {
      ArriveKeepsList(r, f);
      if Listed(r, f.id) {
        if Takes(v) { TakenIsLast(v, f, t); }
      } else if Takes(v) {
        TakenIsLast(v, f, t);
        var p := Place(r, f.key);
        assert q[p] == f;
        assert p == |r|;
      } else if v.order != [] {
        assert q[Place(r, f.key)] == f;
        PassedIsOutside(v, f, t, Place(r, f.key));
      }
    }
  }

  lemma TakenIsLast(v: View, f: Flow, t: Cut)
    requires Keyed(v) && f.id !in v.flows && Takes(v) && Shows(Ingest(v, f, true), t)
    ensures t.All() != [] && t.All()[|t.All()| - 1].id == f.id
  {
    var w := Ingest(v, f, true);
    assert w.order[|w.order| - 1] == f.id;
    assert t.shown[|t.shown| - 1].id == f.id;
  }

  lemma PassedIsOutside(v: View, f: Flow, t: Cut, i: nat)
    requires Keyed(v) && f.id !in v.flows && !Takes(v) && v.order != [] && Shows(Ingest(v, f, true), t)
    requires i < |t.All()| && t.All()[i] == f
    ensures Before(f.key, v.flows[v.order[0]].key) || Before(Bound(v), f.key)
  {
    var r, n := t.All(), |t.before|;
    var w := Ingest(v, f, true);
    assert w.order == v.order && w.flows == v.flows && w.next == Some(Bound(v));
    InWindow(w, t, i);
    if i < n {
      assert r[n] == t.shown[0] && t.shown[0] in t.shown;
      assert Before(r[i].key, r[n].key);
    } else {
      assert r[i] == t.after[i - n - |t.shown|] && r[i] in t.after;
    }
  }

  /** An arrival keeps the window in agreement with the list if and only if it fits. */
  lemma ArrivalKeepsExactly(v: View, cut: Cut, f: Flow)
    requires Shows(v, cut) && Possible(v, cut.All(), Added(f))
    ensures Keyed(v) && (AgreesWith(Ingest(v, f, true), Arrive(cut.All(), f)) <==> Fits(v, cut.All(), f))
  {
    Basics(v, cut);
    hide Shows, Fits, Possible, Ingest, Arrive;
    if Fits(v, cut.All(), f) {
      var t := AddKeeps(v, cut, f, Beyond(IdSet(cut.after), BehindIds(v.prev, cut.before)));
    }
    if AgreesWith(Ingest(v, f, true), Arrive(cut.All(), f)) {
      var t: Cut :| t.All() == Arrive(cut.All(), f) && Shows(Ingest(v, f, true), t);
      MisfitBreaks(v, cut, f, t);
    }
  }

  lemma LeftKeeps(v: View, cut: Cut, i: nat) returns (t: Cut)
    requires Shows(v, cut) && i < |cut.All()| && cut.All()[i].id !in v.flows
    ensures t.All() == cut.All()[..i] + cut.All()[i + 1..] && Shows(v, t)
    ensures var id := cut.All()[i].id;
      && IdSet(t.after) == IdSet(cut.after) - {id}
      && BehindIds(v.prev, t.before) == BehindIds(v.prev, cut.before) - {id}
  {
    t := RowRemoved(v, cut, i);
    InWindow(v, cut, i);
    hide IsIndex, IsList, Separated, IdSet, BehindIds;
  }

  /** A silent departure keeps the agreement just when it is from outside the window. */
  lemma DepartureKeepsExactly(v: View, cut: Cut, i: nat)
    requires Shows(v, cut) && i < |cut.All()|
    ensures var r := cut.All();
      AgreesWith(v, r[..i] + r[i + 1..]) <==> r[i].id !in v.flows
  {
    hide IsIndex, CursorRight;
    var r := cut.All();
    var q := r[..i] + r[i + 1..];
    if r[i].id !in v.flows {
      var t := LeftKeeps(v, cut, i);
    }
    if AgreesWith(v, q) {
      var t: Cut :| t.All() == q && Shows(v, t);
      DepartedIsNotShown(v, r, i, t);
    }
  }

  lemma DepartedIsNotShown(v: View, r: seq<Flow>, i: nat, t: Cut)
    requires IsList(r) && i < |r| && t.All() == r[..i] + r[i + 1..] && Shows(v, t)
    ensures r[i].id !in v.flows
  {
    var q := t.All();
    forall id <- v.flows ensures id != r[i].id {
      ShownIsListed(v, t, id);
      var j :| 0 <= j < |q| && q[j].id == id;
      assert q[j] == r[if j < i then j else j + 1];
    }
  }
}
