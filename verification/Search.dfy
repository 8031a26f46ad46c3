/**
  One search, as the server runs it: session by session and page by page, until enough has been
  found or scanned. The gateway is a parameter, held to what its pages promise; a page without a
  cursor may still have left rows unread, when the gateway's own scan budget cut it short.
 */
module Search {
  import opened Bytes
  import opened Cursors
  import opened Lists
  import opened Paging
  import opened Timeline

  const LIMIT_MAX := 500

  /** One gateway page; `scanned` counts what the gateway looked at, matching or not. */
  datatype Page = Page(rows: seq<Row>, next: Option<Key>, scanned: nat)

  type Query = (Session, Option<Key>, nat) -> Page

  /** What is asked for: how many matches, after how many rows to stop, the criterion applied here, and of whom. */
  datatype Ask = Ask(limit: nat, maxScan: nat, post: Option<bool>, query: Query)

  /** What a page promises: the first rows after the position, and a cursor to its last row if there is one. */
  predicate Promised(rows: seq<Row>, after: Option<Key>, page: Page) {
    && page.rows <= RowsAfter(rows, after)
    && (page.next.Some? ==> page.rows != [] && page.next.value == page.rows[|page.rows| - 1].key)
  }

  ghost predicate Honest(query: Query, s: Session) {
    && Ordered(s.rows)
    && (s.available ==>
          forall after: Option<Key>, n: nat :: n >= 1 ==> Promised(s.rows, after, query(s, after, n)))
  }

  ghost predicate AllHonest(query: Query, ss: seq<Session>) {
    forall s <- ss :: Honest(query, s)
  }

  /** A page with a cursor leaves exactly the rows after that cursor. */
  lemma PageAdvances(rows: seq<Row>, after: Option<Key>, page: Page)
    requires Ordered(rows) && Promised(rows, after, page) && page.next.Some?
    ensures RowsAfter(rows, after) == page.rows + RowsAfter(rows, page.next)
    ensures |RowsAfter(rows, page.next)| < |RowsAfter(rows, after)|
  {
    hide RowsAfter, Ordered;
    var i := RowsAfterIsSuffix(rows, after);
    PageSplits(rows, i, page.rows);
    AfterKey(rows, i + |page.rows| - 1);
  }

  lemma PageSplits(rows: seq<Row>, i: nat, page: seq<Row>)
    requires i <= |rows| && page != [] && page <= rows[i..]
    ensures i + |page| <= |rows| && rows[i + |page| - 1] == page[|page| - 1]
    ensures rows[i..] == page + rows[i + |page|..]
  {
    assert rows[i..][|page| - 1] == rows[i + |page| - 1];
    assert rows[i..][|page|..] == rows[i + |page|..];
  }

  /** Rows to ask the gateway for at once: twice the matches wanted, and no more than 500. */
  function PageSize(limit: nat): (n: nat)
    ensures n <= 500 && n <= 2 * limit && (n == 500 || n == 2 * limit)
  {
    if limit * 2 < LIMIT_MAX then limit * 2 else LIMIT_MAX
  }

  /** The page after a position. */
  ghost function PageAt(s: Session, at: Option<Key>, q: Ask): (page: Page)
    requires Honest(q.query, s) && s.available && q.limit >= 1
    ensures Promised(s.rows, at, page)
    ensures page.next.Some? ==>
      && RowsAfter(s.rows, at) == page.rows + RowsAfter(s.rows, page.next)
      && |RowsAfter(s.rows, page.next)| < |RowsAfter(s.rows, at)|
  {
    hide RowsAfter, Ordered;
    var page := q.query(s, at, PageSize(q.limit));
    assert Promised(s.rows, at, page);
    if page.next.Some? then
      PageAdvances(s.rows, at, page);
      page
    else page
  }

  // ---- what the gateway's pages hold ----

  /** The rows that the pages lead through, from one cursor to the next. */
  ghost function Served(s: Session, at: Option<Key>, q: Ask): seq<Row>
    requires Honest(q.query, s) && s.available && q.limit >= 1
    decreases |RowsAfter(s.rows, at)|
  {
    var page := PageAt(s, at, q);
    if page.next.None? then page.rows else page.rows + Served(s, page.next, q)
  }

  ghost function ServedHits(s: Session, at: Option<Key>, q: Ask): seq<Hit>
    requires Honest(q.query, s) && q.limit >= 1
  {
    if s.available then Matching(Served(s, at, q), q.post, s.id) else []
  }

  ghost function ServedFrom(ss: seq<Session>, after: Option<Key>, q: Ask): seq<Hit>
    requires AllHonest(q.query, ss) && q.limit >= 1
  {
    if ss == [] then [] else ServedHits(ss[0], after, q) + ServedFrom(ss[1..], None, q)
  }

  /** The last of those pages has no cursor although a match lies past it. */
  ghost predicate CutShort(s: Session, at: Option<Key>, q: Ask)
    requires Honest(q.query, s) && s.available && q.limit >= 1
    decreases |RowsAfter(s.rows, at)|
  {
    var page := PageAt(s, at, q);
    if page.next.None? then Matching(RowsAfter(s.rows, at)[|page.rows|..], q.post, s.id) != []
    else CutShort(s, page.next, q)
  }

  ghost predicate AnyCut(ss: seq<Session>, after: Option<Key>, q: Ask)
    requires AllHonest(q.query, ss) && q.limit >= 1
  {
    ss != [] && ((ss[0].available && CutShort(ss[0], after, q)) || AnyCut(ss[1..], None, q))
  }

  lemma {:induction false} SessionServed(s: Session, at: Option<Key>, q: Ask)
    requires Honest(q.query, s) && s.available && q.limit >= 1
    ensures ServedHits(s, at, q) <= SessionHits(s, at, q.post)
    ensures CutShort(s, at, q) <==> ServedHits(s, at, q) != SessionHits(s, at, q.post)
    decreases |RowsAfter(s.rows, at)|
  {
    hide Ordered, RowsAfter, Matching, Honest;
    var page := PageAt(s, at, q);
    if page.next.None? {
      var rest := RowsAfter(s.rows, at)[|page.rows|..];
      assert RowsAfter(s.rows, at) == page.rows + rest;
      MatchingAppend(page.rows, rest, q.post, s.id);
    } else {
      SessionServed(s, page.next, q);
      MatchingAppend(page.rows, Served(s, page.next, q), q.post, s.id);
      MatchingAppend(page.rows, RowsAfter(s.rows, page.next), q.post, s.id);
    }
  }

  /** The pages lead to every match if and only if none of them is cut short of one. */
  lemma {:induction false} ServedExactly(ss: seq<Session>, after: Option<Key>, q: Ask)
    requires AllHonest(q.query, ss) && q.limit >= 1
    ensures |ServedFrom(ss, after, q)| <= |HitsFrom(ss, after, q.post)|
    ensures |ServedFrom(ss, after, q)| == |HitsFrom(ss, after, q.post)| <==> !AnyCut(ss, after, q)
    ensures !AnyCut(ss, after, q) ==> ServedFrom(ss, after, q) == HitsFrom(ss, after, q.post)
    decreases |ss|
  {
    hide Honest, ServedHits, SessionHits, CutShort;
    if ss != [] {
      ServedExactly(ss[1..], None, q);
      ServedHere(ss[0], after, q);
    }
  }

  lemma ServedHere(s: Session, at: Option<Key>, q: Ask)
    requires Honest(q.query, s) && q.limit >= 1
    ensures |ServedHits(s, at, q)| <= |SessionHits(s, at, q.post)|
    ensures |ServedHits(s, at, q)| == |SessionHits(s, at, q.post)| <==> !(s.available && CutShort(s, at, q))
    ensures !(s.available && CutShort(s, at, q)) ==> ServedHits(s, at, q) == SessionHits(s, at, q.post)
  {
    if s.available { SessionServed(s, at, q); }
  }

  // ---- the search ----

  /** What reading a session came to: it stopped early, or the session could not be read, or neither. */
  datatype Scan = Scan(matched: seq<Hit>, scanned: nat, stopped: bool, failed: bool)

  /** Reading a session from a position, page by page, with what was found and scanned before. */
  ghost function ScanOf(s: Session, at: Option<Key>, matched: seq<Hit>, scanned: nat, q: Ask): Scan
    requires Honest(q.query, s) && q.limit >= 1
    decreases |RowsAfter(s.rows, at)|
  {
    if |matched| >= q.limit || scanned >= q.maxScan then Scan(matched, scanned, true, false)
    else if !s.available then Scan(matched, scanned, false, true)
    else
      var page := PageAt(s, at, q);
      var found, read := matched + Matching(page.rows, q.post, s.id), scanned + page.scanned;
      if page.next.None? then Scan(found, read, false, false) else ScanOf(s, page.next, found, read, q)
  }

  datatype Result = BadToken | Unavailable | Found(answer: Answer)

  /** The page of rows to return, and the cursor if there may be more to read. */
  function MakeAnswer(matched: seq<Hit>, limit: nat, complete: bool, scanned: nat): Answer {
    var rows := if |matched| <= limit then matched else matched[..limit];
    var next := if (|matched| > limit || !complete) && rows != [] then Some(TokenOf(rows[|rows| - 1])) else None;
    Answer(rows, |matched|, complete, next, scanned)
  }

  /** Going through the sessions, from a position in the first of them, with what was found and scanned before. */
  ghost function SearchFrom(ss: seq<Session>, named: bool, after: Option<Key>,
                            matched: seq<Hit>, scanned: nat, q: Ask): Result
    requires AllHonest(q.query, ss) && q.limit >= 1
    decreases |ss|
  {
    if ss == [] then Found(MakeAnswer(matched, q.limit, true, scanned))
    else
      var scan := ScanOf(ss[0], after, matched, scanned, q);
      if scan.failed && named then Unavailable
      else if |scan.matched| >= q.limit || scan.scanned >= q.maxScan then
        Found(MakeAnswer(scan.matched, q.limit, !scan.stopped && |ss| == 1, scan.scanned))
      else SearchFrom(ss[1..], named, None, scan.matched, scan.scanned, q)
  }

  ghost function SearchOf(ss: seq<Session>, named: bool, cursor: string, q: Ask): Result
    requires AllHonest(q.query, ss) && q.limit >= 1
  {
    match Where(ss, cursor)
    case None => BadToken
    case Some(_) => var (list, first) := LedTo(ss, cursor, q); SearchFrom(list, named, first, [], 0, q)
  }

  /** The sessions that a readable cursor leaves, and where to start in the first. */
  ghost function LedTo(ss: seq<Session>, cursor: string, q: Ask): (to: (seq<Session>, Option<Key>))
    requires AllHonest(q.query, ss) && Where(ss, cursor).Some?
    ensures AllHonest(q.query, to.0) && to == Where(ss, cursor).value
  {
    WhereHonest(ss, cursor, q);
    Where(ss, cursor).value
  }

  lemma WhereHonest(ss: seq<Session>, cursor: string, q: Ask)
    requires AllHonest(q.query, ss) && Where(ss, cursor).Some?
    ensures AllHonest(q.query, Where(ss, cursor).value.0) && (|ss| == 1 ==> Where(ss, cursor).value.0 == ss)
  {
    hide Honest, ParseSearchToken, Drop;
    if cursor != [] {
      var sid := ParseSearchToken(cursor).0;
      var k := DropIsSuffix(ss, sid);
      if exists s <- ss :: s.id == sid {
        var s :| s in ss && s.id == sid;
        var j :| 0 <= j < |ss| && ss[j] == s;
        assert |ss| == 1 ==> ss[k..] == ss;
      }
    }
  }

  // ---- what it finds ----

  lemma {:induction false} ScanFinds(s: Session, at: Option<Key>, matched: seq<Hit>, scanned: nat, q: Ask)
    returns (rest: seq<Hit>)
    requires Honest(q.query, s) && q.limit >= 1
    ensures var scan := ScanOf(s, at, matched, scanned, q);
      && scan.matched + rest == matched + ServedHits(s, at, q)
      && (!scan.stopped ==> rest == [])
      && (scan.stopped ==> |scan.matched| >= q.limit || scan.scanned >= q.maxScan)
      && (scan.failed ==> !s.available)
      && (!s.available && |matched| < q.limit && scanned < q.maxScan ==> scan.failed)
    decreases |RowsAfter(s.rows, at)|
  {
    hide Ordered, RowsAfter, Matching, Honest;
    rest := ServedHits(s, at, q);
    if |matched| < q.limit && scanned < q.maxScan && s.available {
      var page := PageAt(s, at, q);
      var here := Matching(page.rows, q.post, s.id);
      if page.next.None? {
        rest := [];
      } else {
        rest := ScanFinds(s, page.next, matched + here, scanned + page.scanned, q);
        MatchingAppend(page.rows, Served(s, page.next, q), q.post, s.id);
        assert matched + here + ServedHits(s, page.next, q) == matched + (here + ServedHits(s, page.next, q));
      }
    }
  }

  lemma AnswerIsRight(left: seq<Hit>, matched: seq<Hit>, rest: seq<Hit>, limit: nat, complete: bool, scanned: nat)
    requires matched + rest == left && (complete ==> rest == []) && limit >= 1
    ensures IsAnswer(left, limit, MakeAnswer(matched, limit, complete, scanned))
  {
    hide SearchToken;
  }

  /** Whatever the limits and the page boundaries, a search answers rightly about the matches it is led to. */
  lemma {:induction false} SearchAnswers(ss: seq<Session>, named: bool, after: Option<Key>,
                                         matched: seq<Hit>, scanned: nat, q: Ask)
    requires AllHonest(q.query, ss) && q.limit >= 1
    ensures var r := SearchFrom(ss, named, after, matched, scanned, q);
      && !r.BadToken?
      && (r.Found? ==> IsAnswer(matched + ServedFrom(ss, after, q), q.limit, r.answer))
      && (r.Found? && !r.answer.complete ==> r.answer.total >= q.limit || r.answer.scanned >= q.maxScan)
      && (r.Unavailable? ==> named && exists s <- ss :: !s.available)
    decreases |ss|
  {
    hide Honest, ScanOf, ServedHits, IsAnswer;
    var left := matched + ServedFrom(ss, after, q);
    if ss == [] {
      assert left == matched;
      AnswerIsRight(left, matched, [], q.limit, true, scanned);
    } else {
      var here := ScanFinds(ss[0], after, matched, scanned, q);
      var scan, later := ScanOf(ss[0], after, matched, scanned, q), ServedFrom(ss[1..], None, q);
      assert left == matched + ServedHits(ss[0], after, q) + later == scan.matched + (here + later);
      if scan.failed && named {
        assert ss[0] in ss;
      } else if |scan.matched| >= q.limit || scan.scanned >= q.maxScan {
        AnswerIsRight(left, scan.matched, here + later, q.limit, !scan.stopped && |ss| == 1, scan.scanned);
      } else {
        assert here + later == later;
        SearchAnswers(ss[1..], named, None, scan.matched, scan.scanned, q);
      }
    }
  }

  predicate IsAsk(q: Ask) {
    1 <= q.limit <= LIMIT_MAX && q.maxScan >= 1
  }

  /**
    A search fails on exactly the unreadable cursors, and on an unavailable session only when
    it is the one that is named. What it finds is a right answer about the matches after the
    cursor, unless a page was cut short; and a complete answer is right if and only if none was.
   */
  lemma SearchIsRight(ss: seq<Session>, named: bool, cursor: string, q: Ask)
    requires AllHonest(q.query, ss) && IsAsk(q)
    ensures var r, left := SearchOf(ss, named, cursor, q), Remaining(ss, cursor, q.post);
      && (r.BadToken? <==> left.None?)
      && (r.Unavailable? ==> named && exists s <- ss :: !s.available)
      && (named && |ss| == 1 ==> (r.Unavailable? <==> !r.BadToken? && !ss[0].available))
      && (r.Found? && !r.answer.complete ==> r.answer.total >= q.limit || r.answer.scanned >= q.maxScan)
      && (r.Found? ==>
            var (list, first) := LedTo(ss, cursor, q);
            && (!AnyCut(list, first, q) ==> IsAnswer(left.value, q.limit, r.answer))
            && (r.answer.complete ==> (IsAnswer(left.value, q.limit, r.answer) <==> !AnyCut(list, first, q))))
  {
    hide Honest, HitsFrom, ServedFrom, AnyCut, SearchFrom, Where;
    if Where(ss, cursor).Some? {
      var (list, first) := LedTo(ss, cursor, q);
      WhereHonest(ss, cursor, q);
      SearchAnswers(list, named, first, [], 0, q);
      ServedExactly(list, first, q);
      assert [] + ServedFrom(list, first, q) == ServedFrom(list, first, q);
      SearchesThese(ss, cursor);
      if named && |ss| == 1 { NamedUnavailable(ss, named, first, q); }
    }
  }

  /** Where a cursor leads are some of the sessions. */
  lemma SearchesThese(ss: seq<Session>, cursor: string)
    requires Where(ss, cursor).Some?
    ensures forall s <- Where(ss, cursor).value.0 :: s in ss
  {
    hide ParseSearchToken, Drop;
    if cursor != [] {
      var k := DropIsSuffix(ss, ParseSearchToken(cursor).0);
    }
  }

  lemma NamedUnavailable(ss: seq<Session>, named: bool, first: Option<Key>, q: Ask)
    requires AllHonest(q.query, ss) && IsAsk(q) && named && |ss| == 1
    ensures SearchFrom(ss, named, first, [], 0, q).Unavailable? <==> !ss[0].available
  {
    hide Honest, ScanOf;
    var rest := ScanFinds(ss[0], first, [], 0, q);
  }

  // ---- searches that leave matches out of reach ----

  /** There are matches that the answer did not return, and no cursor that leads to them. */
  predicate Strands(left: seq<Hit>, a: Answer) {
    a.next.None? && a.rows < left
  }

  /** A right answer strands matches if and only if it found none although there are some. */
  lemma StrandsWithNone(left: seq<Hit>, limit: nat, a: Answer)
    requires limit >= 1 && IsAnswer(left, limit, a)
    ensures Strands(left, a) <==> left != [] && a.total == 0
  {
    hide SearchToken;
  }

  /** The rows of a session that the budget pays for, whatever is found among them, and what is then scanned. */
  ghost function Afforded(s: Session, at: Option<Key>, scanned: nat, q: Ask): (seq<Row>, nat)
    requires Honest(q.query, s) && q.limit >= 1
    decreases |RowsAfter(s.rows, at)|
  {
    if scanned >= q.maxScan || !s.available then ([], scanned)
    else
      var page := PageAt(s, at, q);
      if page.next.None? then (page.rows, scanned + page.scanned)
      else
        var (rows, read) := Afforded(s, page.next, scanned + page.scanned, q);
        (page.rows + rows, read)
  }

  /** The matches among all the rows that the budget pays for. */
  ghost function AffordedHits(ss: seq<Session>, after: Option<Key>, scanned: nat, q: Ask): seq<Hit>
    requires AllHonest(q.query, ss) && q.limit >= 1
  {
    if ss == [] || scanned >= q.maxScan then []
    else
      var (rows, read) := Afforded(ss[0], after, scanned, q);
      Matching(rows, q.post, ss[0].id) + AffordedHits(ss[1..], None, read, q)
  }

  lemma {:induction false} ScanKeepsMatches(s: Session, at: Option<Key>, matched: seq<Hit>, scanned: nat, q: Ask)
    requires Honest(q.query, s) && q.limit >= 1
    ensures matched <= ScanOf(s, at, matched, scanned, q).matched
    decreases |RowsAfter(s.rows, at)|
  {
    hide Ordered, RowsAfter, Matching, Honest;
    if |matched| < q.limit && scanned < q.maxScan && s.available {
      var page := PageAt(s, at, q);
      if page.next.Some? {
        ScanKeepsMatches(s, page.next, matched + Matching(page.rows, q.post, s.id), scanned + page.scanned, q);
      }
    }
  }

  /** Reading a session finds nothing if and only if the rows paid for hold no match; and then it reads them all. */
  lemma {:induction false} ScanFindsNone(s: Session, at: Option<Key>, scanned: nat, q: Ask)
    requires Honest(q.query, s) && q.limit >= 1
    ensures var scan, (rows, read) := ScanOf(s, at, [], scanned, q), Afforded(s, at, scanned, q);
      && (scan.matched == [] <==> Matching(rows, q.post, s.id) == [])
      && (scan.matched == [] ==> scan.scanned == read)
    decreases |RowsAfter(s.rows, at)|
  {
    hide Ordered, RowsAfter, Matching, Honest;
    NoRows(q.post, s.id);
    if scanned < q.maxScan && s.available {
      var page := PageAt(s, at, q);
      var here, read := Matching(page.rows, q.post, s.id), scanned + page.scanned;
      assert [] + here == here;
      if page.next.Some? {
        MatchingAppend(page.rows, Afforded(s, page.next, read, q).0, q.post, s.id);
        ScanKeepsMatches(s, page.next, here, read, q);
        ScanFindsNone(s, page.next, read, q);
      }
    }
  }

  lemma NoRows(post: Option<bool>, sid: string)
    ensures Matching([], post, sid) == []
  {}

  lemma {:induction false} SearchKeepsMatches(ss: seq<Session>, named: bool, after: Option<Key>,
                                              matched: seq<Hit>, scanned: nat, q: Ask)
    requires AllHonest(q.query, ss) && q.limit >= 1
    ensures var r := SearchFrom(ss, named, after, matched, scanned, q); r.Found? ==> r.answer.total >= |matched|
    decreases |ss|
  {
    hide Honest, ScanOf;
    if ss != [] {
      ScanKeepsMatches(ss[0], after, matched, scanned, q);
      var scan := ScanOf(ss[0], after, matched, scanned, q);
      SearchKeepsMatches(ss[1..], named, None, scan.matched, scan.scanned, q);
    }
  }

  /** A search finds nothing if and only if the rows that its budget pays for hold no match. */
  lemma {:induction false} SearchFindsNone(ss: seq<Session>, named: bool, after: Option<Key>, scanned: nat, q: Ask)
    requires AllHonest(q.query, ss) && q.limit >= 1 && scanned < q.maxScan
    ensures var r := SearchFrom(ss, named, after, [], scanned, q);
      r.Found? ==> (r.answer.total == 0 <==> AffordedHits(ss, after, scanned, q) == [])
    decreases |ss|
  {
    hide Honest, ScanOf, Afforded;
    if ss != [] {
      ScanFindsNone(ss[0], after, scanned, q);
      var scan := ScanOf(ss[0], after, [], scanned, q);
      if scan.matched == [] {
        if scan.scanned < q.maxScan { SearchFindsNone(ss[1..], named, None, scan.scanned, q); }
      } else {
        SearchKeepsMatches(ss[1..], named, None, scan.matched, scan.scanned, q);
      }
    }
  }

  lemma StrandsFrom(ss: seq<Session>, named: bool, first: Option<Key>, q: Ask)
    requires AllHonest(q.query, ss) && IsAsk(q)
    ensures var r, led := SearchFrom(ss, named, first, [], 0, q), ServedFrom(ss, first, q);
      r.Found? ==> (Strands(led, r.answer) <==> led != [] && AffordedHits(ss, first, 0, q) == [])
  {
    hide AllHonest, ServedFrom, SearchFrom, AffordedHits, IsAnswer, Strands;
    SearchAnswers(ss, named, first, [], 0, q);
    SearchFindsNone(ss, named, first, 0, q);
    var r, led := SearchFrom(ss, named, first, [], 0, q), ServedFrom(ss, first, q);
    assert [] + led == led;
    if r.Found? { StrandsWithNone(led, q.limit, r.answer); }
  }

  /**
    A search whose pages are not cut short strands matches if and only if there are any after
    the cursor, and none of them is among the rows that the search's budget pays for.
   */
  lemma StrandsExactly(ss: seq<Session>, named: bool, cursor: string, q: Ask)
    requires AllHonest(q.query, ss) && IsAsk(q) && Where(ss, cursor).Some?
    ensures var (list, first) := LedTo(ss, cursor, q);
      var r, left := SearchOf(ss, named, cursor, q), Remaining(ss, cursor, q.post).value;
      r.Found? && !AnyCut(list, first, q) ==>
        (Strands(left, r.answer) <==> left != [] && AffordedHits(list, first, 0, q) == [])
  {
    hide AllHonest, ServedFrom, HitsFrom, SearchFrom, AffordedHits, AnyCut, Strands, Where;
    var (list, first) := LedTo(ss, cursor, q);
    StrandsFrom(list, named, first, q);
    ServedExactly(list, first, q);
  }

  // ---- one search after another ----

  /** Successive searches from `cursor`, each from the cursor of the one before, none cut short by the gateway. */
  ghost predicate AreSearches(ss: seq<Session>, named: bool, post: Option<bool>, cursor: string,
                              runs: List<(Ask, Answer)>)
    decreases runs
  {
    runs.Cons? ==>
      var (q, a) := runs.head;
      && AllHonest(q.query, ss) && IsAsk(q) && q.post == post
      && Where(ss, cursor).Some? && SearchOf(ss, named, cursor, q) == Found(a)
      && (var (list, first) := LedTo(ss, cursor, q); !AnyCut(list, first, q))
      && (runs.tail.Cons? ==> a.next.Some? && AreSearches(ss, named, post, a.next.value, runs.tail))
  }

  function Answers(runs: List<(Ask, Answer)>): (answers: List<(nat, Answer)>)
    ensures answers.Cons? <==> runs.Cons?
  {
    match runs case Nil => Nil case Cons((q, a), rest) => Cons((q.limit, a), Answers(rest))
  }

  /** They read the ordered match list on from the cursor, and to its end if the last is complete. */
  lemma SearchesReadOn(ss: seq<Session>, named: bool, post: Option<bool>, cursor: string, runs: List<(Ask, Answer)>)
    requires IsCatalog(ss) && Writable(ss) && AreSearches(ss, named, post, cursor, runs) && runs.Cons?
    ensures var left, answers := Remaining(ss, cursor, post), Answers(runs);
      && left.Some? && AllRows(answers) <= left.value && Length(runs) <= |left.value| + 1
      && (Last(answers).complete && Last(answers).next.None? ==> AllRows(answers) == left.value)
  {
    hide IsCatalog, Writable;
    SearchesAreChain(ss, named, post, cursor, runs);
    PagingReadsOn(ss, post, cursor, Answers(runs));
    PagingEnds(ss, post, cursor, Answers(runs));
    AsMany(runs);
  }

  lemma {:induction false} AsMany(runs: List<(Ask, Answer)>)
    ensures Length(Answers(runs)) == Length(runs)
  {
    if runs.Cons? { AsMany(runs.tail); }
  }

  lemma {:induction false} SearchesAreChain(ss: seq<Session>, named: bool, post: Option<bool>, cursor: string,
                                            runs: List<(Ask, Answer)>)
    requires AreSearches(ss, named, post, cursor, runs)
    ensures IsChain(ss, post, cursor, Answers(runs))
    decreases runs
  {
    hide AllHonest, SearchOf, AnyCut, IsAnswer, Where, Remaining;
    if runs.Cons? {
      SearchIsRight(ss, named, cursor, runs.head.0);
      if runs.tail.Cons? { SearchesAreChain(ss, named, post, runs.head.1.next.value, runs.tail); }
    }
  }

  // ---- the loops ----

  function Apart(a: int, b: int): nat {
    if a < b then b - a else a - b
  }

  /** The number from 1 to 500 that is nearest. */
  function Clamp(limit: int): (n: nat)
    ensures 1 <= n <= 500 && forall m: nat | 1 <= m <= 500 :: Apart(limit, n) <= Apart(limit, m)
  {
    if limit < 1 then 1 else if limit > LIMIT_MAX then LIMIT_MAX else limit
  }

  function AtLeastOne(n: int): (r: nat)
    ensures r >= 1 && r >= n && (r == 1 || r == n)
  {
    if n < 1 then 1 else n
  }

  /** The matches of a page's rows. */
  method MatchPage(rows: seq<Row>, post: Option<bool>, sid: string) returns (hits: seq<Hit>)
    ensures hits == Matching(rows, post, sid)
  {
    hits := [];
    assert rows[..0] == [];
    for k := 0 to |rows|
      invariant hits == Matching(rows[..k], post, sid)
    {
      MatchingSnoc(rows, k, post, sid);
      if MatchesPost(rows[k], post) {
        hits := hits + [Hit(sid, rows[k])];
      }
    }
    assert rows[..|rows|] == rows;
  }

  lemma MatchingSnoc(rows: seq<Row>, k: nat, post: Option<bool>, sid: string)
    requires k < |rows|
    ensures Matching(rows[..k + 1], post, sid) ==
            Matching(rows[..k], post, sid) + (if MatchesPost(rows[k], post) then [Hit(sid, rows[k])] else [])
  {
    assert rows[..k + 1] == rows[..k] + [rows[k]];
    MatchingAppend(rows[..k], [rows[k]], post, sid);
  }

  /** Reads one session page by page until it ends or enough has been found or scanned. */
  method ScanSession(s: Session, start: Option<Key>, before: seq<Hit>, scannedBefore: nat, q: Ask)
    returns (scan: Scan)
    requires Honest(q.query, s) && IsAsk(q)
    ensures scan == ScanOf(s, start, before, scannedBefore, q)
  {
    hide RowsAfter, Ordered, Matching, Honest;
    var matched, at := before, start;
    var scanned: nat := scannedBefore;
    while true
      invariant ScanOf(s, at, matched, scanned, q) == ScanOf(s, start, before, scannedBefore, q)
      decreases |RowsAfter(s.rows, at)|
    {
      if |matched| >= q.limit || scanned >= q.maxScan {
        return Scan(matched, scanned, true, false);
      }
      if !s.available {
        return Scan(matched, scanned, false, true);
      }
      var page := q.query(s, at, PageSize(q.limit));
      assert page == PageAt(s, at, q);
      scanned := scanned + page.scanned;
      var hits := MatchPage(page.rows, q.post, s.id);
      matched := matched + hits;
      if page.next.None? {
        return Scan(matched, scanned, false, false);
      }
      at := page.next;
    }
  }

  /** One search: over one named session, or all of them, from a cursor or from the start. */
  method Search(ss: seq<Session>, named: bool, cursor: string, limit: int, maxScan: int,
                post: Option<bool>, query: Query)
    returns (r: Result)
    requires IsCatalog(ss) && AllHonest(query, ss)
    ensures r == SearchOf(ss, named, cursor, Ask(Clamp(limit), AtLeastOne(maxScan), post, query))
    ensures r.Found? ==> |r.answer.rows| == Least(r.answer.total, Clamp(limit))
    ensures r.Found? && !r.answer.complete ==>
              r.answer.total >= Clamp(limit) || r.answer.scanned >= AtLeastOne(maxScan)
  {
    hide ParseSearchToken, Drop, Ordered, Honest, SearchFrom;
    var q := Ask(Clamp(limit), AtLeastOne(maxScan), post, query);
    var resumeSid, resumeAt, list := [], None, ss;
    if cursor != [] {
      var (sid, pos) := ParseSearchToken(cursor);
      if pos.BadCursor? {
        return BadToken;
      }
      resumeSid, resumeAt := sid, if pos.At? then Some(pos.key) else None;
      list := SkipTo(ss, sid);
    }
    ghost var first := if exists s <- ss :: s.id == resumeSid then resumeAt else None;
    WhereHonest(ss, cursor, q);
    SkippedTo(ss, list, resumeSid, resumeAt);
    hide SkipTo, IsCatalog;
    r := SearchSessions(list, named, resumeSid, resumeAt, q, first);
    FoundRows(ss, named, cursor, q);
  }

  function Least(a: nat, b: nat): nat {
    if a < b then a else b
  }

  lemma FoundRows(ss: seq<Session>, named: bool, cursor: string, q: Ask)
    requires AllHonest(q.query, ss) && IsAsk(q)
    ensures var r := SearchOf(ss, named, cursor, q);
      && (r.Found? ==> |r.answer.rows| == Least(r.answer.total, q.limit))
      && (r.Found? && !r.answer.complete ==> r.answer.total >= q.limit || r.answer.scanned >= q.maxScan)
  {
    hide Honest, SearchFrom, ServedFrom, Where;
    if Where(ss, cursor).Some? {
      var (list, first) := LedTo(ss, cursor, q);
      SearchAnswers(list, named, first, [], 0, q);
    }
  }

  /** Goes through the sessions, from the position in the first of them. */
  method SearchSessions(list: seq<Session>, named: bool, resumeSid: string, resumeAt: Option<Key>, q: Ask,
                        ghost first: Option<Key>)
    returns (r: Result)
    requires IsCatalog(list) && AllHonest(q.query, list) && IsAsk(q)
    requires forall i | 0 <= i < |list| ::
               (if list[i].id == resumeSid then resumeAt else None) == (if i == 0 then first else None)
    ensures r == SearchFrom(list, named, first, [], 0, q)
  {
    hide Ordered, Honest, ScanOf, MakeAnswer;
    var matched: seq<Hit>, scanned: nat, complete := [], 0, true;
    assert list[0..] == list;
    var i := 0;
    while i < |list|
      invariant i <= |list| && complete
      invariant SearchFrom(list[i..], named, if i == 0 then first else None, matched, scanned, q) ==
                SearchFrom(list, named, first, [], 0, q)
    {
      var s := list[i];
      assert list[i..][0] == s && list[i..][1..] == list[i + 1..] && |list[i..]| == |list| - i;
      ghost var rest := ScanFinds(s, if i == 0 then first else None, matched, scanned, q);
      var scan := ScanSession(s, if s.id == resumeSid then resumeAt else None, matched, scanned, q);
      matched, scanned := scan.matched, scan.scanned;
      if scan.failed && named {
        return Unavailable;
      }
      if scan.stopped {
        complete := false;
      }
      if |matched| >= q.limit || scanned >= q.maxScan {
        if (list[|list| - 1].id, list[|list| - 1].title) != (s.id, s.title) {
          complete := false;
        }
        NotLast(list, i);
        return Found(MakeAnswer(matched, q.limit, complete, scanned));
      }
      i := i + 1;
    }
    assert list[i..] == [];
    return Found(MakeAnswer(matched, q.limit, complete, scanned));
  }

  lemma NotLast(ss: seq<Session>, i: nat)
    requires i < |ss| && IsCatalog(ss)
    ensures i < |ss| - 1 ==> ss[|ss| - 1].id != ss[i].id
  {}

  /** Only the first of the sessions left can be the one to resume in. */
  lemma SkippedTo(ss: seq<Session>, list: seq<Session>, sid: string, at: Option<Key>)
    requires IsCatalog(ss) && (list == SkipTo(ss, sid) || (at.None? && list == ss))
    ensures IsCatalog(list)
    ensures forall i | 0 <= i < |list| ::
              (if list[i].id == sid then at else None) ==
              (if i == 0 then (if exists s <- ss :: s.id == sid then at else None) else None)
  {
    if exists s <- ss :: s.id == sid {
      var k := DropIsSuffix(ss, sid);
      var s :| s in ss && s.id == sid;
      var j :| 0 <= j < |ss| && ss[j] == s;
      SuffixIsCatalog(ss, k);
      OthersAfter(ss, k);
      hide Drop, IsCatalog;
    }
  }

  lemma OthersAfter(ss: seq<Session>, k: nat)
    requires IsCatalog(ss) && k < |ss|
    ensures ss[k..][0] == ss[k] && forall i | 0 < i < |ss[k..]| :: ss[k..][i].id != ss[k].id
  {
    hide Ordered;
  }

  // ---- searches that go wrong ----

  const FIRST := Row(Key(1, 0), false, "1")
  const SECOND := Row(Key(2, 0), false, "2")
  const SOCKET := Row(Key(3, 0), true, "3")
  const THREE := Session("s", "", true, [FIRST, SECOND, SOCKET])

  /** A gateway that fills its pages, and looks at every row for it. */
  function Fills(s: Session, after: Option<Key>, n: nat): Page {
    var rows := RowsAfter(s.rows, after);
    if n == 0 || |rows| <= n then Page(rows, None, |rows|) else Page(rows[..n], Some(rows[n - 1].key), |rows|)
  }

  /** One whose scan budget ends after the first row that its filter matches. */
  function Cuts(s: Session, after: Option<Key>, n: nat): Page {
    var rows := RowsAfter(s.rows, after);
    Page(if |rows| <= 1 then rows else rows[..1], None, 20000)
  }

  lemma FillsHonestly(s: Session)
    requires Ordered(s.rows)
    ensures Honest(Fills, s)
  {
    hide RowsAfter, Ordered;
  }

  lemma CutsHonestly(s: Session)
    requires Ordered(s.rows)
    ensures Honest(Cuts, s)
  {
    hide RowsAfter, Ordered;
  }

  lemma ThreeRows()
    ensures Ordered(THREE.rows) && RowsAfter(THREE.rows, None) == THREE.rows
    ensures RowsAfter(THREE.rows, Some(Key(2, 0))) == [SOCKET]
    ensures Matching([FIRST, SECOND], Some(true), "s") == []
    ensures Matching([SOCKET], Some(true), "s") == [Hit("s", SOCKET)]
    ensures HitsFrom([THREE], None, Some(true)) == [Hit("s", SOCKET)]
  {
    assert THREE.rows[1..] == [SECOND, SOCKET] && [SECOND, SOCKET][1..] == [SOCKET];
    assert [FIRST, SECOND][1..] == [SECOND] && [SECOND][1..] == [] && [SOCKET][1..] == [];
    assert THREE.rows == [FIRST, SECOND] + [SOCKET] && THREE.rows[2..] == [SOCKET];
    AfterKey(THREE.rows, 1);
    MatchingAppend([FIRST, SECOND], [SOCKET], Some(true), "s");
    assert [THREE][1..] == [];
  }

  /**
    A budget spent on pages without a match: the search finds nothing, is not complete, and no
    cursor leads to the match that is left, although no page was cut short.
   */
  lemma StrandedSearch()
    ensures AllHonest(Fills, [THREE])
    ensures var q := Ask(1, 1, Some(true), Fills);
      var r := SearchFrom([THREE], true, None, [], 0, q);
      && IsAsk(q) && !AnyCut([THREE], None, q)
      && r.Found? && !r.answer.complete && Strands(HitsFrom([THREE], None, Some(true)), r.answer)
  {
    var q := Ask(1, 1, Some(true), Fills);
    ThreeRows();
    FillsHonestly(THREE);
    hide HitsFrom, Matching, RowsAfter, Honest;
    assert [FIRST, SECOND] == THREE.rows[..2];
    assert PageAt(THREE, None, q) == Page([FIRST, SECOND], Some(Key(2, 0)), 3);
    assert PageAt(THREE, Some(Key(2, 0)), q) == Page([SOCKET], None, 1);
    assert [] + Matching([FIRST, SECOND], Some(true), "s") == [];
    assert ScanOf(THREE, Some(Key(2, 0)), [], 3, q) == Scan([], 3, true, false);
    assert ScanOf(THREE, None, [], 0, q) == Scan([], 3, true, false);
    NoRows(q.post, "s");
    assert [SOCKET][1..] == [] && !CutShort(THREE, Some(Key(2, 0)), q);
    assert !CutShort(THREE, None, q) && [THREE][1..] == [] && !AnyCut([], None, q);
  }

  /** A page cut short by the gateway: the search takes its one match for all of them, and there are three. */
  lemma CutSearch()
    ensures AllHonest(Cuts, [THREE])
    ensures var q := Ask(100, 400, None, Cuts);
      var r := SearchFrom([THREE], true, None, [], 0, q);
      && IsAsk(q) && |HitsFrom([THREE], None, None)| == 3
      && r.Found? && r.answer.complete && r.answer.next.None? && r.answer.total == 1
  {
    var q := Ask(100, 400, None, Cuts);
    ThreeRows();
    CutsHonestly(THREE);
    AllThree();
    hide HitsFrom, Matching, RowsAfter, Honest;
    assert PageAt(THREE, None, q) == Page([FIRST], None, 20000) by { assert THREE.rows[..1] == [FIRST]; }
    assert [] + [Hit("s", FIRST)] == [Hit("s", FIRST)];
    assert ScanOf(THREE, None, [], 0, q) == Scan([Hit("s", FIRST)], 20000, false, false);
  }

  lemma AllThree()
    ensures Matching([FIRST], None, "s") == [Hit("s", FIRST)]
    ensures |HitsFrom([THREE], None, None)| == 3
  {
    OneMatch(FIRST);
    OneMatch(SECOND);
    OneMatch(SOCKET);
    hide Matching;
    MatchingAppend([FIRST], [SECOND], None, "s");
    MatchingAppend([FIRST, SECOND], [SOCKET], None, "s");
    assert [FIRST] + [SECOND] == [FIRST, SECOND] && [FIRST, SECOND] + [SOCKET] == THREE.rows;
    assert [THREE][1..] == [] && HitsFrom([], None, None) == [];
  }

  lemma OneMatch(r: Row)
    ensures Matching([r], None, "s") == [Hit("s", r)]
  {
    assert [r][1..] == [];
  }
}
