/**
  A session pane's window onto a list that lives in the gateway: at most so many rows, a
  cursor past the last of them, and stream events that grow, change and shrink the list
  underneath. `SessionPane` (in its own file) is the pane itself, method by method.

  The gateway is modelled by what it promises: an ordered list of matching flows, pages that
  are contiguous runs of it, and events that arrive with the changes they report. It says a
  flow was added the first time that it tells this subscription of it, whether or not the
  flow is new to the list, and whatever its place there.
 */
module LiveWindow {
  import opened Bytes
  import opened Timeline

  datatype Flow = Flow(id: string, key: Key, shown: string)

  /** A page as the gateway hands it back. */
  datatype Page = Page(flows: seq<Flow>, next: Option<Key>, prev: Option<Key>, matched: nat, capped: bool)

  datatype View = View(
    flows: map<string, Flow>, order: seq<string>, window: nat, next: Option<Key>, prev: Option<Key>,
    matched: nat, capped: bool, atEnd: bool, follow: bool)

  // ---- what each event does to the window ----

  function Ids(fs: seq<Flow>): (r: seq<string>)
    ensures |r| == |fs|
  {
    seq(|fs|, k requires 0 <= k < |fs| => fs[k].id)
  }

  function ById(fs: seq<Flow>): map<string, Flow> {
    if fs == [] then map[] else ById(fs[..|fs| - 1])[fs[|fs| - 1].id := fs[|fs| - 1]]
  }

  /** A page from the gateway becomes the window. */
  function ApplyPage(v: View, page: Page): View {
    var atEnd := page.next.None?;
    View(ById(page.flows), Ids(page.flows), v.window, page.next, page.prev, page.matched, page.capped,
         atEnd, v.follow && atEnd)
  }

  /** Drops rows off the front until the window's size is met. */
  function Trim(v: View): View {
    var n := if |v.order| > v.window then |v.order| - v.window else 0;
    v.(order := v.order[n..], flows := v.flows - (set id <- v.order[..n]))
  }

  /** One live flow, first seen (`added`) or changed. */
  function Ingest(v: View, f: Flow, added: bool): View
    requires v.window >= 1
    requires v.atEnd && |v.order| >= v.window ==> v.order[|v.order| - 1] in v.flows
  {
    if f.id in v.flows then v.(flows := v.flows[f.id := f])
    else if !added then v
    else
      var w := v.(matched := v.matched + 1);
      if !v.atEnd then w
      else if |v.order| >= v.window && !v.follow then
        w.(atEnd := false, next := Some(v.flows[v.order[|v.order| - 1]].key))
      else Trim(w.(flows := v.flows[f.id := f], order := v.order + [f.id]))
  }

  function Without(order: seq<string>, id: string): seq<string> {
    if order == [] then []
    else if order[0] == id then Without(order[1..], id)
    else [order[0]] + Without(order[1..], id)
  }

  /** A flow that no longer matches. */
  function Drop(v: View, id: string): View {
    var w := v.(matched := if v.matched > 0 then v.matched - 1 else 0);
    if id !in v.flows then w else w.(flows := v.flows - {id}, order := Without(v.order, id))
  }

  // ---- the list in the gateway ----

  /** The pane's fields hang together. */
  predicate Keyed(v: View) {
    v.window >= 1 && (v.atEnd <==> v.next.None?) && forall id <- v.order :: id in v.flows
  }

  /** Rows in strict timeline order, each with its own id. */
  predicate IsList(r: seq<Flow>) {
    && (forall i, j | 0 <= i < j < |r| :: Before(r[i].key, r[j].key))
    && (forall i, j | 0 <= i < j < |r| :: r[i].id != r[j].id)
  }

  /** `c` separates the first `n` rows from the others. */
  predicate Separates(r: seq<Flow>, n: nat, c: Key)
    requires n <= |r|
  {
    && (forall i | 0 <= i < n :: r[i].key == c || Before(r[i].key, c))
    && (forall i | n <= i < |r| :: Before(c, r[i].key))
  }

  /**
    What the gateway promises of a page: rows from `lo` on, and what its cursors lead to if it
    has them. Without one there may be rows all the same, and the count may be of fewer rows.
   */
  predicate IsPage(r: seq<Flow>, lo: nat, window: nat, page: Page) {
    var hi := lo + |page.flows|;
    && hi <= |r| && |page.flows| <= window && r[lo..hi] == page.flows
    && (page.next.Some? ==> Separates(r, hi, page.next.value))
    && (page.prev.Some? ==> page.flows != [] && page.prev.value == page.flows[0].key)
  }

  /** A page with rows and no cursor to more of them reaches the end of the list. */
  predicate FitsPage(r: seq<Flow>, lo: nat, page: Page) {
    page.next.None? && page.flows != [] ==> lo + |page.flows| == |r|
  }

  /** Where the page stands once it is the window: with no rows and no cursor, at the list's end. */
  function PageStart(r: seq<Flow>, lo: nat, page: Page): nat {
    if page.next.None? && page.flows == [] then |r| else lo
  }

  predicate Listed(r: seq<Flow>, id: string) {
    exists i | 0 <= i < |r| :: r[i].id == id
  }

  function IndexIn(r: seq<Flow>, id: string): (i: nat)
    requires Listed(r, id)
    ensures i < |r| && r[i].id == id
  {
    if r[0].id == id then 0
    else
      assert Listed(r[1..], id) by { var i :| 0 <= i < |r| && r[i].id == id; assert r[1..][i - 1].id == id; }
      1 + IndexIn(r[1..], id)
  }

  /** How many rows come before the position `k`. */
  function Place(r: seq<Flow>, k: Key): (p: nat)
    ensures p <= |r|
    ensures forall i | 0 <= i < p :: Before(r[i].key, k)
    ensures p < |r| ==> !Before(r[p].key, k)
  {
    if r == [] || !Before(r[0].key, k) then 0 else 1 + Place(r[1..], k)
  }

  /** The list with `f` in its place, or with its row made `f`. */
  function Arrive(r: seq<Flow>, f: Flow): seq<Flow> {
    if Listed(r, f.id) then r[IndexIn(r, f.id) := f]
    else var p := Place(r, f.key); r[..p] + [f] + r[p..]
  }

  datatype Event =
    | Load(lo: nat, page: Page)    // a query came back
    | Added(f: Flow)               // the stream's first word of a flow that matches
    | Updated(i: nat, f: Flow)     // row `i` changed
    | Unmatched(i: nat)            // row `i` left the list
    | Left(i: nat)                 // and so it did, but the stream had never told of it and says nothing
    | Follow(on: bool)             // the user toggled following

  /** What can happen next. A flow keeps its position, and no two share one. */
  predicate Possible(v: View, r: seq<Flow>, e: Event) {
    match e
    case Load(lo, page) => IsPage(r, lo, v.window, page)
    case Added(f) => forall i | 0 <= i < |r| :: r[i].id == f.id <==> r[i].key == f.key
    case Updated(i, f) => i < |r| && f.id == r[i].id && f.key == r[i].key
    case Unmatched(i) => i < |r|
    case Left(i) => i < |r|
    case Follow(_) => true
  }

  function ListAfter(v: View, r: seq<Flow>, e: Event): seq<Flow>
    requires Possible(v, r, e)
  {
    match e
    case Load(_, _) => r
    case Added(f) => Arrive(r, f)
    case Updated(i, f) => r[i := f]
    case Unmatched(i) => r[..i] + r[i + 1..]
    case Left(i) => r[..i] + r[i + 1..]
    case Follow(_) => r
  }

  function ViewAfter(v: View, r: seq<Flow>, e: Event): View
    requires Keyed(v) && Possible(v, r, e)
  {
    match e
    case Load(_, page) => ApplyPage(v, page)
    case Added(f) => Ingest(v, f, true)
    case Updated(_, f) => Ingest(v, f, false)
    case Unmatched(i) => Drop(v, r[i].id)
    case Left(_) => v
    case Follow(on) => v.(follow := on)
  }

  // ---- the window agrees with the list ----

  /** The list, cut around the window. */
  datatype Cut = Cut(before: seq<Flow>, shown: seq<Flow>, after: seq<Flow>) {
    function All(): seq<Flow> {
      before + shown + after
    }
  }

  /** `m` finds each of these flows by its id, and nothing else. */
  predicate IsIndex(m: map<string, Flow>, fs: seq<Flow>) {
    && (forall f <- fs :: f.id in m && m[f.id] == f)
    && (forall id <- m :: m[id] in fs && m[id].id == id)
  }

  predicate AtMost(a: Key, b: Key) {
    a == b || Before(a, b)
  }

  /** Every row up to the window's end is at or before `c`, and every later one after it. */
  predicate Separated(cut: Cut, c: Key) {
    && (forall f <- cut.before :: AtMost(f.key, c))
    && (forall f <- cut.shown :: AtMost(f.key, c))
    && (forall f <- cut.after :: Before(c, f.key))
  }

  /** The cursor is absent exactly at the end, and otherwise leads to the row after the window. */
  predicate CursorRight(v: View, cut: Cut) {
    && (v.atEnd <==> v.next.None?)
    && (v.atEnd ==> cut.after == [])
    && (v.next.Some? ==> Separated(cut, v.next.value))
  }

  /** The window is a contiguous run of the list, as it is, and its cursor is right. */
  predicate Shows(v: View, cut: Cut) {
    Agrees(v, cut) && |cut.shown| <= v.window
  }

  /** The same, of a window that may have outgrown its size. */
  predicate Agrees(v: View, cut: Cut) {
    && IsList(cut.All()) && 1 <= v.window
    && v.order == Ids(cut.shown) && IsIndex(v.flows, cut.shown)
    && CursorRight(v, cut)
  }

  /** A count that is not said to be approximate is the length of the list. */
  predicate CountRight(v: View, r: seq<Flow>) {
    v.capped || v.matched == |r|
  }

  // ---- the rows outside the window ----

  function IdSet(fs: seq<Flow>): set<string> {
    set f <- fs :: f.id
  }

  /** The backward cursor does not lead to this position. */
  predicate Behind(prev: Option<Key>, k: Key) {
    prev.None? || !Before(k, prev.value)
  }

  function BehindIds(prev: Option<Key>, fs: seq<Flow>): set<string> {
    set f <- fs | Behind(prev, f.key) :: f.id
  }

  /** What a run has left outside the window: rows past its end, and rows before it that paging back does not reach. */
  datatype Beyond = Beyond(missed: set<string>, behind: set<string>)

  predicate Tracks(v: View, cut: Cut, b: Beyond) {
    b.missed == IdSet(cut.after) && b.behind == BehindIds(v.prev, cut.before)
  }

  lemma SameIds(prev: Option<Key>, fs: seq<Flow>, i: nat, f: Flow)
    requires i < |fs| && fs[i].id == f.id && fs[i].key == f.key
    ensures IdSet(fs[..i] + [f] + fs[i + 1..]) == IdSet(fs)
    ensures BehindIds(prev, fs[..i] + [f] + fs[i + 1..]) == BehindIds(prev, fs)
  {
    var gs := fs[..i] + [f] + fs[i + 1..];
    hide IdSet, BehindIds;
    AmongIds(prev, fs, gs);
    AmongIds(prev, gs, fs);
  }

  lemma AmongIds(prev: Option<Key>, fs: seq<Flow>, gs: seq<Flow>)
    requires |fs| == |gs| && forall j | 0 <= j < |fs| :: fs[j].id == gs[j].id && fs[j].key == gs[j].key
    ensures IdSet(fs) <= IdSet(gs) && BehindIds(prev, fs) <= BehindIds(prev, gs)
  {
    forall f <- fs ensures exists g <- gs :: g.id == f.id && g.key == f.key {
      var j :| 0 <= j < |fs| && fs[j] == f;
      assert gs[j] in gs;
    }
  }

  lemma FewerIds(prev: Option<Key>, fs: seq<Flow>, i: nat)
    requires i < |fs| && DistinctIds(fs)
    ensures IdSet(fs[..i] + fs[i + 1..]) == IdSet(fs) - {fs[i].id}
    ensures BehindIds(prev, fs[..i] + fs[i + 1..]) == BehindIds(prev, fs) - {fs[i].id}
  {
    var gs := fs[..i] + fs[i + 1..];
    forall f <- fs ensures f in gs <==> f.id != fs[i].id {
      var j :| 0 <= j < |fs| && fs[j] == f;
      if j < i { assert gs[j] == f; } else if j > i { assert gs[j - 1] == f; }
      else { assert forall m | 0 <= m < |gs| :: gs[m] == fs[if m < i then m else m + 1]; }
    }
  }

  lemma MoreIds(prev: Option<Key>, fs: seq<Flow>, i: nat, f: Flow)
    requires i <= |fs|
    ensures IdSet(fs[..i] + [f] + fs[i..]) == IdSet(fs) + {f.id}
    ensures BehindIds(prev, fs[..i] + [f] + fs[i..]) == BehindIds(prev, fs) + if Behind(prev, f.key) then {f.id} else {}
  {
    assert fs == fs[..i] + fs[i..];
    var gs := fs[..i] + [f] + fs[i..];
    assert gs[i] == f;
    assert forall g :: g in gs <==> g in fs || g == f;
  }

  // ---- each event keeps the agreement ----

  lemma {:induction false} ByIdIndexes(fs: seq<Flow>)
    requires DistinctIds(fs)
    ensures IsIndex(ById(fs), fs)
  {
    if fs != [] {
      var front, last := fs[..|fs| - 1], fs[|fs| - 1];
      ByIdIndexes(front);
      assert last.id !in ById(front);
      IndexSnoc(ById(front), front, last);
      assert fs == front + [last];
    }
  }

  lemma IndexSnoc(m: map<string, Flow>, fs: seq<Flow>, f: Flow)
    requires IsIndex(m, fs) && f.id !in m
    ensures IsIndex(m[f.id := f], fs + [f])
  {}

  /** The index of fewer rows. */
  lemma IndexFewer(m: map<string, Flow>, fs: seq<Flow>, gone: set<string>, gs: seq<Flow>)
    requires IsIndex(m, fs)
    requires forall g <- gs :: g in fs && g.id !in gone
    requires forall f <- fs :: f.id in gone || f in gs
    ensures IsIndex(m - gone, gs)
  {}

  predicate DistinctIds(fs: seq<Flow>) {
    forall i, j | 0 <= i < j < |fs| :: fs[i].id != fs[j].id
  }

  /** Removing one row from a list with distinct ids removes its entry from the index. */
  lemma IndexWithout(m: map<string, Flow>, fs: seq<Flow>, k: nat)
    requires IsIndex(m, fs) && k < |fs| && DistinctIds(fs)
    ensures IsIndex(m - {fs[k].id}, fs[..k] + fs[k + 1..])
  {
    hide IsIndex;
    var gs, id := fs[..k] + fs[k + 1..], fs[k].id;
    forall g <- gs ensures g in fs && g.id !in {id} {
      var j :| 0 <= j < |gs| && gs[j] == g;
      assert g == if j < k then fs[j] else fs[j + 1];
    }
    forall f <- fs ensures f.id in {id} || f in gs {
      var j :| 0 <= j < |fs| && fs[j] == f;
      if j != k { assert gs[if j < k then j else j - 1] == f; }
    }
    IndexFewer(m, fs, {id}, gs);
  }

  lemma IdsWithout(fs: seq<Flow>, k: nat)
    requires k < |fs| && DistinctIds(fs)
    ensures Without(Ids(fs), fs[k].id) == Ids(fs[..k] + fs[k + 1..])
  {
    WithoutAt(Ids(fs), fs[k].id, k);
    hide Without;
    assert Ids(fs[..k] + fs[k + 1..]) == Ids(fs)[..k] + Ids(fs)[k + 1..];
  }

  lemma {:induction false} WithoutAt(order: seq<string>, id: string, k: nat)
    requires k < |order| && order[k] == id && forall j | 0 <= j < |order| && j != k :: order[j] != id
    ensures Without(order, id) == order[..k] + order[k + 1..]
  {
    if k == 0 {
      WithoutNone(order[1..], id);
    } else {
      WithoutAt(order[1..], id, k - 1);
      assert order[..k] == [order[0]] + order[1..][..k - 1];
      assert order[k + 1..] == order[1..][k..];
    }
  }

  lemma {:induction false} WithoutNone(order: seq<string>, id: string)
    requires id !in order
    ensures Without(order, id) == order
  {
    if order != [] {
      WithoutNone(order[1..], id);
    }
  }

  lemma LoadKeeps(v: View, r: seq<Flow>, lo: nat, page: Page) returns (t: Cut)
    requires v.window >= 1 && IsList(r) && IsPage(r, lo, v.window, page) && FitsPage(r, lo, page)
    ensures t.All() == r && Shows(ApplyPage(v, page), t)
    ensures var at := PageStart(r, lo, page);
      at + |page.flows| <= |r| && t == Cut(r[..at], page.flows, r[at + |page.flows|..])
  {
    PageStands(v, r, lo, page);
    hide IsPage, FitsPage, PageStart;
    t := CutAround(r, PageStart(r, lo, page), page.flows);
    PageAgrees(v, page, t);
  }

  lemma PageStands(v: View, r: seq<Flow>, lo: nat, page: Page)
    requires IsPage(r, lo, v.window, page) && FitsPage(r, lo, page)
    ensures var at := PageStart(r, lo, page);
      var hi := at + |page.flows|;
      && hi <= |r| && |page.flows| <= v.window && r[at..hi] == page.flows
      && (page.next.None? ==> hi == |r|) && (page.next.Some? ==> Separates(r, hi, page.next.value))
  {
    hide Separates;
  }

  lemma CutAround(r: seq<Flow>, at: nat, fs: seq<Flow>) returns (t: Cut)
    requires at + |fs| <= |r| && r[at..at + |fs|] == fs
    ensures t == Cut(r[..at], fs, r[at + |fs|..]) && t.All() == r
  {
    t := Cut(r[..at], fs, r[at + |fs|..]);
    ThreeParts(r, at, at + |fs|);
  }

  lemma PageAgrees(v: View, page: Page, t: Cut)
    requires IsList(t.All()) && t.shown == page.flows && |t.shown| <= v.window && v.window >= 1
    requires page.next.None? ==> t.after == []
    requires page.next.Some? ==> Separates(t.All(), |t.before| + |t.shown|, page.next.value)
    ensures Shows(ApplyPage(v, page), t)
  {
    hide IsIndex, IsList, ById, Separates, Separated, Ids;
    ShownDistinct(t);
    ByIdIndexes(page.flows);
    if page.next.Some? { CutSeparated(t, page.next.value); }
  }

  /** A page becomes a window that agrees with the list if and only if it fits. */
  lemma LoadKeepsExactly(v: View, r: seq<Flow>, lo: nat, page: Page)
    requires v.window >= 1 && IsList(r) && IsPage(r, lo, v.window, page)
    ensures AgreesWith(ApplyPage(v, page), r) <==> FitsPage(r, lo, page)
  {
    hide Shows, IsPage, IsList;
    if FitsPage(r, lo, page) {
      var t := LoadKeeps(v, r, lo, page);
    }
    if AgreesWith(ApplyPage(v, page), r) {
      var t: Cut :| t.All() == r && Shows(ApplyPage(v, page), t);
      ShownAtPage(v, r, lo, page, t);
    }
  }

  lemma ShownAtPage(v: View, r: seq<Flow>, lo: nat, page: Page, t: Cut)
    requires IsList(r) && IsPage(r, lo, v.window, page) && t.All() == r && Shows(ApplyPage(v, page), t)
    ensures FitsPage(r, lo, page)
  {
    assert |t.shown| == |Ids(t.shown)| == |Ids(page.flows)| == |page.flows|;
    if page.flows != [] {
      var n := |t.before|;
      assert r[lo] == r[lo..lo + |page.flows|][0] == page.flows[0];
      assert r[n] == t.shown[0] && Ids(t.shown)[0] == Ids(page.flows)[0];
      assert n == lo;
    }
  }

  lemma ThreeParts<T>(s: seq<T>, i: nat, j: nat)
    requires i <= j <= |s|
    ensures s[..i] + s[i..j] + s[j..] == s
  {}

  /** The backward cursor of a page leads to every row before it. */
  lemma NoneBehind(r: seq<Flow>, lo: nat, window: nat, page: Page)
    requires IsList(r) && IsPage(r, lo, window, page) && page.prev.Some?
    ensures BehindIds(page.prev, r[..lo]) == {}
  {
    assert page.flows[0] == r[lo..lo + |page.flows|][0] == r[lo];
    forall f <- r[..lo] ensures Before(f.key, r[lo].key) {
      var k :| 0 <= k < lo && r[..lo][k] == f;
    }
  }

  lemma CutSeparated(cut: Cut, c: Key)
    requires Separates(cut.All(), |cut.before| + |cut.shown|, c)
    ensures Separated(cut, c)
  {
    var r, b, s := cut.All(), |cut.before|, |cut.before| + |cut.shown|;
    forall f <- cut.before ensures AtMost(f.key, c) {
      var k :| 0 <= k < b && cut.before[k] == f;
      assert r[k] == f;
    }
    forall f <- cut.shown ensures AtMost(f.key, c) {
      var k :| 0 <= k < |cut.shown| && cut.shown[k] == f;
      assert r[b + k] == f;
    }
    forall f <- cut.after ensures Before(c, f.key) {
      var k :| 0 <= k < |cut.after| && cut.after[k] == f;
      assert r[s + k] == f;
    }
  }

  /** Rows dropped off the window's front are rows before it. */
  lemma TrimKeeps(v: View, cut: Cut) returns (t: Cut)
    requires Agrees(v, cut)
    ensures t.All() == cut.All() && Shows(Trim(v), t)
    ensures var n := if |v.order| > v.window then |v.order| - v.window else 0;
      n <= |cut.shown| && t == Advance(cut, n)
  {
    hide IsIndex, IsList, Separated, Ids;
    var n := if |v.order| > v.window then |v.order| - v.window else 0;
    t := Advance(cut, n);
    AdvanceShows(cut, n);
    TrimIndexes(v, cut, n);
    if v.next.Some? { TrimSeparated(cut, n, v.next.value); }
  }

  /** The window begins `n` rows later. */
  function Advance(cut: Cut, n: nat): (t: Cut)
    requires n <= |cut.shown|
    ensures t.shown == cut.shown[n..] && t.after == cut.after
  {
    Cut(cut.before + cut.shown[..n], cut.shown[n..], cut.after)
  }

  lemma AdvanceShows(cut: Cut, n: nat)
    requires n <= |cut.shown|
    ensures Advance(cut, n).All() == cut.All() && Ids(cut.shown[n..]) == Ids(cut.shown)[n..]
  {
    assert cut.shown == cut.shown[..n] + cut.shown[n..];
  }

  lemma TrimSeparated(cut: Cut, n: nat, c: Key)
    requires n <= |cut.shown| && Separated(cut, c)
    ensures Separated(Advance(cut, n), c)
  {}

  lemma TrimIndexes(v: View, cut: Cut, n: nat)
    requires Agrees(v, cut) && n <= |cut.shown|
    ensures IsIndex(v.flows - (set id <- v.order[..n]), cut.shown[n..])
  {
    ShownDistinct(cut);
    hide IsIndex, CursorRight, IsList, Ids;
    FrontAndRest(cut.shown, n);
    IndexFewer(v.flows, cut.shown, (set id <- v.order[..n]), cut.shown[n..]);
  }

  /** The first `n` rows and the others have no id in common, and are all of them. */
  lemma FrontAndRest(fs: seq<Flow>, n: nat)
    requires DistinctIds(fs) && n <= |fs|
    ensures forall g <- fs[n..] :: g in fs && g.id !in Ids(fs)[..n]
    ensures forall f <- fs :: f.id in Ids(fs)[..n] || f in fs[n..]
  {
    var front, rest := Ids(fs)[..n], fs[n..];
    forall g <- rest ensures g in fs && g.id !in front {
      var j :| 0 <= j < |rest| && rest[j] == g;
      assert g == fs[n + j];
      forall k | 0 <= k < n ensures front[k] != g.id {
        assert fs[k].id != fs[n + j].id;
      }
    }
    forall f <- fs ensures f.id in front || f in rest {
      var j :| 0 <= j < |fs| && fs[j] == f;
      if j < n { assert front[j] == f.id; } else { assert rest[j - n] == f; }
    }
  }

  lemma ShownDistinct(cut: Cut)
    requires IsList(cut.All())
    ensures DistinctIds(cut.shown)
  {
    var b := |cut.before|;
    assert forall i | 0 <= i < |cut.shown| :: cut.shown[i] == cut.All()[b + i];
  }

  /** What the window shows is listed. */
  lemma ShownIsListed(v: View, cut: Cut, id: string)
    requires Shows(v, cut) && id in v.flows
    ensures Listed(cut.All(), id)
  {
    var k :| 0 <= k < |cut.shown| && cut.shown[k] == v.flows[id];
    assert cut.All()[|cut.before| + k] == cut.shown[k];
  }

  lemma LastIsThere(v: View, cut: Cut)
    requires Shows(v, cut) && v.order != []
    ensures v.order[|v.order| - 1] in v.flows && v.flows[v.order[|v.order| - 1]] == cut.shown[|cut.shown| - 1]
  {
    assert cut.shown[|cut.shown| - 1] in cut.shown;
  }

  /** Where row `i` is, and the list with that row replaced by none or one. */
  function Replace(cut: Cut, i: nat, put: seq<Flow>): Cut
    requires i < |cut.All()|
  {
    var b, s := |cut.before|, |cut.before| + |cut.shown|;
    if i < b then cut.(before := cut.before[..i] + put + cut.before[i + 1..])
    else if i < s then cut.(shown := cut.shown[..i - b] + put + cut.shown[i - b + 1..])
    else cut.(after := cut.after[..i - s] + put + cut.after[i - s + 1..])
  }

  lemma ReplaceAll(cut: Cut, i: nat, put: seq<Flow>)
    requires i < |cut.All()|
    ensures Replace(cut, i, put).All() == cut.All()[..i] + put + cut.All()[i + 1..]
  {}

  lemma ReplaceSeparated(cut: Cut, i: nat, put: seq<Flow>, c: Key)
    requires i < |cut.All()| && Separated(cut, c) && forall f <- put :: f.key == cut.All()[i].key
    ensures Separated(Replace(cut, i, put), c)
  {
    var f, b, s := cut.All()[i], |cut.before|, |cut.before| + |cut.shown|;
    assert if i < b then f == cut.before[i] else if i < s then f == cut.shown[i - b] else f == cut.after[i - s];
  }

  lemma ReplaceTracks(prev: Option<Key>, cut: Cut, i: nat, f: Flow)
    requires i < |cut.All()| && cut.All()[i].id == f.id && cut.All()[i].key == f.key
    ensures var t := Replace(cut, i, [f]);
      IdSet(t.after) == IdSet(cut.after) && BehindIds(prev, t.before) == BehindIds(prev, cut.before)
  {
    var b, s := |cut.before|, |cut.before| + |cut.shown|;
    if i < b { assert cut.All()[i] == cut.before[i]; SameIds(prev, cut.before, i, f); }
    if i >= s { assert cut.All()[i] == cut.after[i - s]; SameIds(prev, cut.after, i - s, f); }
  }

  lemma RemoveTracks(prev: Option<Key>, cut: Cut, i: nat)
    requires i < |cut.All()| && IsList(cut.All())
    ensures var t, id := Replace(cut, i, []), cut.All()[i].id;
      IdSet(t.after) == IdSet(cut.after) - {id} && BehindIds(prev, t.before) == BehindIds(prev, cut.before) - {id}
  {
    var r, b, s := cut.All(), |cut.before|, |cut.before| + |cut.shown|;
    assert forall k | 0 <= k < b :: cut.before[k] == r[k];
    assert forall k | 0 <= k < |cut.after| :: cut.after[k] == r[s + k];
    assert cut.before[..|cut.before|] + [] == cut.before;
    if i < b { FewerIds(prev, cut.before, i); assert cut.before[..i] + [] == cut.before[..i]; }
    if i >= s { FewerIds(prev, cut.after, i - s); assert cut.after[..i - s] + [] == cut.after[..i - s]; }
  }

  lemma InWindow(v: View, cut: Cut, i: nat)
    requires Shows(v, cut) && i < |cut.All()|
    ensures cut.All()[i].id in v.flows <==> |cut.before| <= i < |cut.before| + |cut.shown|
  {
    var r, b := cut.All(), |cut.before|;
    if r[i].id in v.flows {
      var k :| 0 <= k < |cut.shown| && cut.shown[k] == v.flows[r[i].id];
      assert r[b + k].id == r[i].id;
    }
    if b <= i < b + |cut.shown| {
      assert r[i] == cut.shown[i - b];
    }
  }

  lemma UpdateKeeps(v: View, cut: Cut, i: nat, f: Flow) returns (t: Cut)
    requires Shows(v, cut) && Possible(v, cut.All(), Updated(i, f))
    ensures t.All() == cut.All()[i := f] && Shows(Ingest(v, f, false), t)
    ensures IdSet(t.after) == IdSet(cut.after) && BehindIds(v.prev, t.before) == BehindIds(v.prev, cut.before)
  {
    hide IsIndex;
    t := Replace(cut, i, [f]);
    ReplaceAll(cut, i, [f]);
    ReplaceTracks(v.prev, cut, i, f);
    assert t.All() == cut.All()[i := f];
    InWindow(v, cut, i);
    if v.next.Some? { ReplaceSeparated(cut, i, [f], v.next.value); }
    if f.id in v.flows { IndexUpdate(v, cut, i - |cut.before|, f); }
  }

  lemma IndexUpdate(v: View, cut: Cut, k: nat, f: Flow)
    requires Shows(v, cut) && k < |cut.shown| && cut.shown[k].id == f.id
    ensures var fs := cut.shown[..k] + [f] + cut.shown[k + 1..];
      IsIndex(v.flows[f.id := f], fs) && Ids(fs) == v.order
  {
    var fs := cut.shown[..k] + [f] + cut.shown[k + 1..];
    assert fs == cut.shown[k := f] && Ids(fs) == v.order;
    ShownDistinct(cut);
    hide CursorRight, IsList, IsIndex;
    IndexReplace(v.flows, cut.shown, k, f);
  }

  lemma IndexReplace(m: map<string, Flow>, fs: seq<Flow>, k: nat, f: Flow)
    requires IsIndex(m, fs) && DistinctIds(fs) && k < |fs| && fs[k].id == f.id
    ensures IsIndex(m[f.id := f], fs[k := f])
  {
    var gs, m' := fs[k := f], m[f.id := f];
    assert gs[k] == f;
    forall g <- gs ensures g.id in m' && m'[g.id] == g {
      var j :| 0 <= j < |gs| && gs[j] == g;
      assert j != k ==> fs[j] == g;
    }
    forall id <- m' ensures m'[id] in gs && m'[id].id == id {
      if id != f.id {
        var j :| 0 <= j < |fs| && fs[j] == m[id];
        assert gs[j] == m[id];
      }
    }
  }

  lemma DropKeeps(v: View, cut: Cut, i: nat) returns (t: Cut)
    requires Shows(v, cut) && i < |cut.All()|
    ensures t.All() == cut.All()[..i] + cut.All()[i + 1..] && Shows(Drop(v, cut.All()[i].id), t)
    ensures var id := cut.All()[i].id;
      && IdSet(t.after) == IdSet(cut.after) - {id}
      && BehindIds(v.prev, t.before) == BehindIds(v.prev, cut.before) - {id}
  {
    t := RowRemoved(v, cut, i);
    InWindow(v, cut, i);
    ShownDistinct(cut);
    hide IsIndex, Without, IsList, Separated, IdSet, BehindIds;
    if cut.All()[i].id in v.flows {
      assert cut.All()[i] == cut.shown[i - |cut.before|];
      ShownRemoved(v.flows, cut.shown, i - |cut.before|);
    }
  }

  /** The list without row `i`, cut where it was. */
  lemma RowRemoved(v: View, cut: Cut, i: nat) returns (t: Cut)
    requires Shows(v, cut) && i < |cut.All()|
    ensures t == Replace(cut, i, []) && t.All() == cut.All()[..i] + cut.All()[i + 1..]
    ensures IsList(t.All()) && CursorRight(v, t)
    ensures |cut.before| <= i < |cut.before| + |cut.shown| || t.shown == cut.shown
    ensures var id := cut.All()[i].id;
      && IdSet(t.after) == IdSet(cut.after) - {id}
      && BehindIds(v.prev, t.before) == BehindIds(v.prev, cut.before) - {id}
  {
    t := Replace(cut, i, []);
    ReplaceAll(cut, i, []);
    RemoveTracks(v.prev, cut, i);
    var r := cut.All();
    assert r[..i] + [] == r[..i];
    RemovalKeepsList(r, i);
    hide IsIndex, IsList, IdSet, BehindIds, Separated;
    if v.next.Some? { ReplaceSeparated(cut, i, [], v.next.value); }
  }

  lemma ShownRemoved(flows: map<string, Flow>, fs: seq<Flow>, k: nat)
    requires IsIndex(flows, fs) && DistinctIds(fs) && k < |fs|
    ensures var gs, id := fs[..k] + [] + fs[k + 1..], fs[k].id;
      IsIndex(flows - {id}, gs) && Without(Ids(fs), id) == Ids(gs)
  {
    hide IsIndex, DistinctIds, Ids, Without;
    IndexWithout(flows, fs, k);
    IdsWithout(fs, k);
    assert fs[..k] + [] == fs[..k];
  }

  lemma RemovalKeepsList(r: seq<Flow>, i: nat)
    requires IsList(r) && i < |r|
    ensures IsList(r[..i] + r[i + 1..])
  {
    var t := r[..i] + r[i + 1..];
    assert forall j | 0 <= j < |t| :: t[j] == if j < i then r[j] else r[j + 1];
  }

  lemma Basics(v: View, cut: Cut)
    requires Shows(v, cut)
    ensures Keyed(v)
  {
    forall id <- v.order ensures id in v.flows {
      var k :| 0 <= k < |cut.shown| && Ids(cut.shown)[k] == id;
      assert cut.shown[k] in cut.shown;
    }
  }

  /** Some cut of the list shows the window. */
  ghost predicate AgreesWith(v: View, r: seq<Flow>) {
    exists cut: Cut :: cut.All() == r && Shows(v, cut)
  }

  /** What agreement says of the pane's own fields. */
  lemma ShowsMeans(v: View, cut: Cut)
    requires Shows(v, cut)
    ensures |v.order| <= v.window
    ensures forall i, j | 0 <= i < j < |v.order| :: v.order[i] != v.order[j]
    ensures forall id :: id in v.flows <==> id in v.order
    ensures forall k | 0 <= k < |v.order| ::
              v.order[k] in v.flows && v.flows[v.order[k]] == cut.All()[|cut.before| + k]
    ensures v.atEnd <==> v.next.None?
  {
    ShownDistinct(cut);
    Basics(v, cut);
    forall k | 0 <= k < |v.order|
      ensures v.order[k] in v.flows && v.flows[v.order[k]] == cut.All()[|cut.before| + k]
    {
      assert cut.shown[k] in cut.shown && cut.All()[|cut.before| + k] == cut.shown[k];
    }
    forall id <- v.flows ensures id in v.order {
      var k :| 0 <= k < |cut.shown| && cut.shown[k] == v.flows[id];
      assert v.order[k] == id;
    }
  }

  // ---- paging ----

  /** Paging forward loses no row: what lies after the cursor is exactly what lies after the window. */
  lemma PageNextSkipsNone(v: View, cut: Cut)
    requires Shows(v, cut) && v.next.Some?
    ensures forall i | 0 <= i < |cut.All()| ::
              Before(v.next.value, cut.All()[i].key) <==> i >= |cut.before| + |cut.shown|
  {
    var r, b, s := cut.All(), |cut.before|, |cut.before| + |cut.shown|;
    forall i | 0 <= i < |r| ensures Before(v.next.value, r[i].key) <==> i >= s {
      if i < b { assert r[i] == cut.before[i]; }
      else if i < s { assert r[i] == cut.shown[i - b]; }
      else { assert r[i] == cut.after[i - s]; }
    }
  }

  /** A window that agrees with the list does so at one place only. */
  lemma CutIsUnique(v: View, a: Cut, b: Cut)
    requires Shows(v, a) && Shows(v, b) && a.All() == b.All()
    ensures a == b
  {
    var r := a.All();
    assert |a.shown| == |Ids(a.shown)| == |Ids(b.shown)| == |b.shown|;
    if v.next.Some? {
      PageNextSkipsNone(v, a);
      PageNextSkipsNone(v, b);
      SamePlace(r, |a.before| + |a.shown|, |b.before| + |b.shown|, v.next.value);
    }
    assert |a.before| == |b.before|;
    assert a.before == r[..|a.before|] == b.before;
    assert a.shown == r[|a.before|..|a.before| + |a.shown|] == b.shown;
    assert a.after == r[|a.before| + |a.shown|..] == b.after;
  }

  lemma SamePlace(r: seq<Flow>, m: nat, n: nat, c: Key)
    requires m <= |r| && n <= |r|
    requires forall i | 0 <= i < |r| :: Before(c, r[i].key) <==> i >= m
    requires forall i | 0 <= i < |r| :: Before(c, r[i].key) <==> i >= n
    ensures m == n
  {
    if m < |r| { assert Before(c, r[m].key) && m >= n; }
    if n < |r| { assert Before(c, r[n].key) && n >= m; }
  }
}
