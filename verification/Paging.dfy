/**
  The matches of a search over every session, and what its cursors lead to: following them
  reads the whole of the ordered match list, each match once. `Search` (in its own file) is one
  search as the server runs it, a page at a time.
 */
module Paging {
  import opened Bytes
  import opened Lists
  import opened Timeline
  import opened Cursors

  datatype Row = Row(key: Key, websocket: bool, id: string)

  /** A session and the rows its filter matches; `available` unless its bundle is outdated or missing. */
  datatype Session = Session(id: string, title: string, available: bool, rows: seq<Row>)

  datatype Hit = Hit(sid: string, row: Row)

  // ---- the match list ----

  predicate Ordered(rows: seq<Row>) {
    forall i, j | 0 <= i < j < |rows| :: Before(rows[i].key, rows[j].key)
  }

  /** Sessions with their own ids, and rows in strict order. */
  predicate IsCatalog(ss: seq<Session>) {
    && (forall i, j | 0 <= i < j < |ss| :: ss[i].id != ss[j].id)
    && (forall s <- ss :: Ordered(s.rows))
  }

  /** Every id and position can be written into a token. */
  predicate Writable(ss: seq<Session>) {
    forall s <- ss :: '|' !in s.id && forall r <- s.rows :: InRange(r.key)
  }

  function RowsAfter(rows: seq<Row>, after: Option<Key>): seq<Row> {
    if after.None? || rows == [] || Before(after.value, rows[0].key) then rows
    else RowsAfter(rows[1..], after)
  }

  /** The criterion applied here rather than in the gateway. */
  predicate MatchesPost(r: Row, websocket: Option<bool>) {
    websocket.None? || r.websocket == websocket.value
  }

  function Matching(rows: seq<Row>, post: Option<bool>, sid: string): seq<Hit> {
    if rows == [] then []
    else (if MatchesPost(rows[0], post) then [Hit(sid, rows[0])] else []) + Matching(rows[1..], post, sid)
  }

  function SessionHits(s: Session, after: Option<Key>, post: Option<bool>): seq<Hit> {
    if s.available then Matching(RowsAfter(s.rows, after), post, s.id) else []
  }

  /** All matches of these sessions, in session and then time order; in the first, only those after the position. */
  function HitsFrom(ss: seq<Session>, after: Option<Key>, post: Option<bool>): seq<Hit> {
    if ss == [] then [] else SessionHits(ss[0], after, post) + HitsFrom(ss[1..], None, post)
  }

  /** From the session of that id on; all of them, if there is none. */
  function SkipTo(ss: seq<Session>, sid: string): seq<Session> {
    if exists s <- ss :: s.id == sid then Drop(ss, sid) else ss
  }

  function Drop(ss: seq<Session>, sid: string): seq<Session> {
    if ss == [] || ss[0].id == sid then ss else Drop(ss[1..], sid)
  }

  /** Where a cursor leads: to the first session left, and perhaps a position in it. */
  function Where(ss: seq<Session>, cursor: string): Option<(seq<Session>, Option<Key>)> {
    if cursor == [] then Some((ss, None))
    else
      var (sid, pos) := ParseSearchToken(cursor);
      match pos
      case BadCursor => None
      case NoCursor => Some((SkipTo(ss, sid), None))
      case At(k) => Some((SkipTo(ss, sid), if exists s <- ss :: s.id == sid then Some(k) else None))
  }

  /** The matches a cursor leaves to be read; a token that cannot be read leaves no answer. */
  function Remaining(ss: seq<Session>, cursor: string, post: Option<bool>): Option<seq<Hit>> {
    match Where(ss, cursor)
    case None => None
    case Some((list, first)) => Some(HitsFrom(list, first, post))
  }

  // ---- what an answer says ----

  datatype Answer = Answer(rows: seq<Hit>, total: nat, complete: bool, next: Option<string>, scanned: nat)

  function TokenOf(h: Hit): string {
    SearchToken(h.sid, h.row.key)
  }

  /** A right answer about the matches `left`: the first of them, and how to go on. */
  predicate IsAnswer(left: seq<Hit>, limit: nat, a: Answer) {
    && a.rows <= left && |a.rows| == (if a.total <= limit then a.total else limit)
    && (a.complete ==> a.total == |left|)
    && (a.next.Some? <==> a.rows != [] && (a.total > limit || !a.complete))
    && (a.next.Some? ==> a.next == Some(TokenOf(a.rows[|a.rows| - 1])))
    && (a.next.None? && a.complete ==> a.rows == left)
  }

  // ---- positions within the list ----

  lemma {:induction false} AfterKey(rows: seq<Row>, j: nat)
    requires Ordered(rows) && j < |rows|
    ensures RowsAfter(rows, Some(rows[j].key)) == rows[j + 1..]
  {
    if j > 0 {
      assert Before(rows[0].key, rows[j].key);
      AfterKey(rows[1..], j - 1);
    } else if |rows| > 1 {
      assert Before(rows[0].key, rows[1].key);
    }
  }

  lemma {:induction false} RowsAfterIsSuffix(rows: seq<Row>, after: Option<Key>) returns (i: nat)
    ensures i <= |rows| && RowsAfter(rows, after) == rows[i..]
  {
    if after.None? || rows == [] || Before(after.value, rows[0].key) {
      i := 0;
    } else {
      i := RowsAfterIsSuffix(rows[1..], after);
      i := i + 1;
    }
  }

  lemma {:induction false} MatchingAppend(a: seq<Row>, b: seq<Row>, post: Option<bool>, sid: string)
    ensures Matching(a + b, post, sid) == Matching(a, post, sid) + Matching(b, post, sid)
  {
    if a == [] {
      assert a + b == b;
    } else {
      assert (a + b)[1..] == a[1..] + b;
      MatchingAppend(a[1..], b, post, sid);
      var first := if MatchesPost(a[0], post) then [Hit(sid, a[0])] else [];
      var more, others := Matching(a[1..], post, sid), Matching(b, post, sid);
      assert first + (more + others) == (first + more) + others;
    }
  }

  /** The rows up to and including the one behind the `m`-th match. */
  lemma {:induction false} MatchingAt(rows: seq<Row>, post: Option<bool>, sid: string, m: nat) returns (j: nat)
    requires 0 < m <= |Matching(rows, post, sid)|
    ensures j < |rows| && Matching(rows, post, sid)[m - 1] == Hit(sid, rows[j])
    ensures Matching(rows[j + 1..], post, sid) == Matching(rows, post, sid)[m..]
  {
    var first := if MatchesPost(rows[0], post) then [Hit(sid, rows[0])] else [];
    var more := Matching(rows[1..], post, sid);
    assert Matching(rows, post, sid) == first + more;
    hide Matching, MatchesPost;
    if m == |first| {
      j := 0;
      assert (first + more)[m..] == more;
    } else {
      j := MatchingAt(rows[1..], post, sid, m - |first|);
      assert rows[1..][j + 1..] == rows[j + 2..];
      assert (first + more)[m..] == more[m - |first|..];
      j := j + 1;
    }
  }

  lemma HitsOfAfter(s: Session, after: Option<Key>, post: Option<bool>, m: nat)
    requires Ordered(s.rows) && 0 < m <= |SessionHits(s, after, post)|
    ensures var h := SessionHits(s, after, post)[m - 1];
      && h.sid == s.id && h.row in s.rows
      && SessionHits(s, Some(h.row.key), post) == SessionHits(s, after, post)[m..]
  {
    var i := RowsAfterIsSuffix(s.rows, after);
    hide RowsAfter, Matching;
    var j := MatchingAt(s.rows[i..], post, s.id, m);
    AfterKey(s.rows, i + j);
    hide Ordered;
    assert s.rows[i..][j] == s.rows[i + j];
    assert s.rows[i..][j + 1..] == s.rows[i + j + 1..];
  }

  /** A match is a row of one of the sessions. */
  lemma {:induction false} HitOrigin(ss: seq<Session>, after: Option<Key>, post: Option<bool>, m: nat) returns (k: nat)
    requires IsCatalog(ss) && 0 < m <= |HitsFrom(ss, after, post)|
    ensures k < |ss|
    ensures var h := HitsFrom(ss, after, post)[m - 1]; h.sid == ss[k].id && h.row in ss[k].rows
    decreases |ss|
  {
    hide SessionHits;
    var first := SessionHits(ss[0], after, post);
    if m <= |first| {
      HitsOfAfter(ss[0], after, post, m);
      k := 0;
    } else {
      k := HitOrigin(ss[1..], None, post, m - |first|);
      k := k + 1;
    }
  }

  /** Resuming after a match leaves exactly the matches after it. */
  lemma {:induction false} ResumesAfter(ss: seq<Session>, after: Option<Key>, post: Option<bool>, m: nat)
    requires IsCatalog(ss) && 0 < m <= |HitsFrom(ss, after, post)|
    ensures var h := HitsFrom(ss, after, post)[m - 1];
      HitsFrom(Drop(ss, h.sid), Some(h.row.key), post) == HitsFrom(ss, after, post)[m..]
    decreases |ss|
  {
    hide SessionHits;
    var first, more := SessionHits(ss[0], after, post), HitsFrom(ss[1..], None, post);
    if m <= |first| {
      HitsOfAfter(ss[0], after, post, m);
      assert (first + more)[m..] == first[m..] + more;
    } else {
      ResumesAfter(ss[1..], None, post, m - |first|);
      var k := HitOrigin(ss[1..], None, post, m - |first|);
      assert ss[k + 1].id != ss[0].id;
      assert (first + more)[m..] == more[m - |first|..];
    }
  }

  lemma {:induction false} DropIsSuffix(ss: seq<Session>, sid: string) returns (k: nat)
    ensures k <= |ss| && Drop(ss, sid) == ss[k..]
    ensures forall j | 0 <= j < k :: ss[j].id != sid
    ensures k < |ss| ==> ss[k].id == sid
  {
    if ss == [] || ss[0].id == sid {
      k := 0;
    } else {
      k := DropIsSuffix(ss[1..], sid);
      k := k + 1;
    }
  }

  lemma {:induction false} DropInSuffix(ss: seq<Session>, k: nat, sid: string)
    requires k <= |ss| && forall j | 0 <= j < k :: ss[j].id != sid
    ensures Drop(ss, sid) == Drop(ss[k..], sid)
  {
    if k > 0 {
      DropInSuffix(ss[1..], k - 1, sid);
      assert ss[1..][k - 1..] == ss[k..];
    }
  }

  /** The cursor of an answer leads to exactly the matches that the answer did not return. */
  lemma NextResumes(ss: seq<Session>, cursor: string, post: Option<bool>, limit: nat, a: Answer)
    requires IsCatalog(ss) && Writable(ss)
    requires Remaining(ss, cursor, post).Some? && IsAnswer(Remaining(ss, cursor, post).value, limit, a) && a.next.Some?
    ensures Remaining(ss, a.next.value, post) == Some(Remaining(ss, cursor, post).value[|a.rows|..])
  {
    var k, after := StartOf(ss, cursor, post);
    LastRow(Remaining(ss, cursor, post).value, limit, a);
    SuffixIsCatalog(ss, k);
    hide HitsFrom, Remaining, IsAnswer, IsCatalog, Writable, Drop;
    var h := HitsFrom(ss[k..], after, post)[|a.rows| - 1];
    ResumesAfter(ss[k..], after, post, |a.rows|);
    var j := HitOrigin(ss[k..], after, post, |a.rows|);
    assert ss[k..][j] == ss[k + j] && ss[k + j] in ss;
    OthersBefore(ss, k, j);
    DropInSuffix(ss, k, h.sid);
    TokenLeads(ss, h, post);
  }

  /** A cursor is the token of the last row returned. */
  lemma LastRow(left: seq<Hit>, limit: nat, a: Answer)
    requires IsAnswer(left, limit, a) && a.next.Some?
    ensures 0 < |a.rows| <= |left| && a.next.value == TokenOf(left[|a.rows| - 1])
  {}

  lemma SuffixIsCatalog(ss: seq<Session>, k: nat)
    requires IsCatalog(ss) && k <= |ss|
    ensures IsCatalog(ss[k..])
  {
    hide Ordered;
  }

  lemma OthersBefore(ss: seq<Session>, k: nat, j: nat)
    requires IsCatalog(ss) && k + j < |ss|
    ensures forall i | 0 <= i < k :: ss[i].id != ss[k + j].id
  {
    hide Ordered;
  }

  /** The token of a match leads to the session it is in, after it. */
  lemma TokenLeads(ss: seq<Session>, h: Hit, post: Option<bool>)
    requires Writable(ss) && exists s <- ss :: s.id == h.sid && h.row in s.rows
    ensures Remaining(ss, TokenOf(h), post) == Some(HitsFrom(Drop(ss, h.sid), Some(h.row.key), post))
  {
    hide HitsFrom, ParseSearchToken, SearchToken;
    var s :| s in ss && s.id == h.sid && h.row in s.rows;
    SearchTokenRoundTrip(h.sid, h.row.key);
    SearchTokenThere(h.sid, h.row.key);
  }

  lemma SearchTokenThere(sid: string, k: Key)
    ensures SearchToken(sid, k) != []
  {}

  /** Where a readable cursor starts: a session, and perhaps a position in it. */
  lemma StartOf(ss: seq<Session>, cursor: string, post: Option<bool>) returns (k: nat, after: Option<Key>)
    requires Remaining(ss, cursor, post).Some?
    ensures k <= |ss| && Remaining(ss, cursor, post) == Some(HitsFrom(ss[k..], after, post))
  {
    hide HitsFrom, ParseSearchToken;
    assert ss[0..] == ss;
    k, after := 0, None;
    if cursor != [] {
      var (sid, pos) := ParseSearchToken(cursor);
      if exists s <- ss :: s.id == sid {
        k := DropIsSuffix(ss, sid);
        after := if pos.At? then Some(pos.key) else None;
      }
    }
  }

  // ---- following the cursors ----

  /** Successive searches from `cursor`, each from the cursor of the one before, with whatever limits. */
  predicate IsChain(ss: seq<Session>, post: Option<bool>, cursor: string, answers: List<(nat, Answer)>)
    decreases answers
  {
    answers.Cons? ==>
      var left := Remaining(ss, cursor, post);
      var (limit, a) := answers.head;
      && left.Some? && IsAnswer(left.value, limit, a)
      && (answers.tail.Cons? ==> a.next.Some? && IsChain(ss, post, a.next.value, answers.tail))
  }

  function AllRows(answers: List<(nat, Answer)>): seq<Hit> {
    match answers case Nil => [] case Cons((_, a), rest) => a.rows + AllRows(rest)
  }

  function Last(answers: List<(nat, Answer)>): Answer
    requires answers.Cons?
  {
    if answers.tail.Nil? then answers.head.1 else Last(answers.tail)
  }

  /**
    Nothing is lost and nothing repeated: the rows of successive searches are the first of
    the matches, each once and in order; an answer that is complete and has no cursor ends
    them, and any other cursor leads to exactly the matches still unread.
   */
  lemma {:induction false} PagingReadsOn(ss: seq<Session>, post: Option<bool>, cursor: string,
                                            answers: List<(nat, Answer)>)
    requires IsCatalog(ss) && Writable(ss) && IsChain(ss, post, cursor, answers) && answers.Cons?
    ensures var left, last := Remaining(ss, cursor, post).value, Last(answers);
      && AllRows(answers) <= left
      && (last.complete && last.next.None? ==> AllRows(answers) == left)
      && (last.next.Some? ==> Remaining(ss, last.next.value, post) == Some(left[|AllRows(answers)|..]))
    decreases answers
  {
    hide Remaining, IsAnswer;
    var left, rest := Remaining(ss, cursor, post).value, answers.tail;
    var (limit, a) := answers.head;
    RowsFirst(left, limit, a);
    if a.next.Some? {
      NextResumes(ss, cursor, post, limit, a);
    }
    if rest.Nil? {
      assert a.rows + [] == a.rows;
    } else {
      PagingReadsOn(ss, post, a.next.value, rest);
      var more := AllRows(rest);
      assert left[|a.rows|..][|more|..] == left[|a.rows + more|..];
    }
  }

  lemma RowsFirst(left: seq<Hit>, limit: nat, a: Answer)
    requires IsAnswer(left, limit, a)
    ensures |a.rows| <= |left| && left == a.rows + left[|a.rows|..]
    ensures a.next.None? && a.complete ==> a.rows == left
  {}

  /** Following the cursors comes to an end: each but the last answer has a row that no other has. */
  lemma {:induction false} PagingEnds(ss: seq<Session>, post: Option<bool>, cursor: string,
                                      answers: List<(nat, Answer)>)
    requires IsCatalog(ss) && Writable(ss) && IsChain(ss, post, cursor, answers) && answers.Cons?
    ensures Length(answers) <= |Remaining(ss, cursor, post).value| + 1
    decreases answers
  {
    hide Remaining, IsAnswer;
    var left, rest := Remaining(ss, cursor, post).value, answers.tail;
    var (limit, a) := answers.head;
    if rest.Cons? {
      LastRow(left, limit, a);
      NextResumes(ss, cursor, post, limit, a);
      PagingEnds(ss, post, a.next.value, rest);
    }
  }

  /** Where a match stands: in its session's timeline. */
  predicate HitBefore(a: Hit, b: Hit) {
    a.sid == b.sid ==> Before(a.row.key, b.row.key)
  }

  lemma {:induction false} MatchingInOrder(rows: seq<Row>, post: Option<bool>, sid: string)
    requires Ordered(rows)
    ensures forall h <- Matching(rows, post, sid) :: h.sid == sid && h.row in rows
    ensures forall i, j | 0 <= i < j < |Matching(rows, post, sid)| ::
              HitBefore(Matching(rows, post, sid)[i], Matching(rows, post, sid)[j])
  {
    if rows != [] {
      MatchingInOrder(rows[1..], post, sid);
      forall r <- rows[1..] ensures Before(rows[0].key, r.key) {
        var k :| 0 <= k < |rows[1..]| && rows[1..][k] == r;
        assert rows[k + 1] == r;
      }
    }
  }

  lemma SessionHitsInOrder(s: Session, after: Option<Key>, post: Option<bool>)
    requires Ordered(s.rows)
    ensures forall h <- SessionHits(s, after, post) :: h.sid == s.id
    ensures forall i, j | 0 <= i < j < |SessionHits(s, after, post)| ::
              HitBefore(SessionHits(s, after, post)[i], SessionHits(s, after, post)[j])
  {
    var i := RowsAfterIsSuffix(s.rows, after);
    hide RowsAfter, Matching;
    MatchingInOrder(s.rows[i..], post, s.id);
  }

  /** In time order within each session, and none of them twice. */
  predicate InOrderOnce(hits: seq<Hit>) {
    forall i, j | 0 <= i < j < |hits| :: HitBefore(hits[i], hits[j]) && hits[i] != hits[j]
  }

  /** The match list is in time order within each session, and holds no match twice. */
  lemma {:induction false} MatchesInOrder(ss: seq<Session>, after: Option<Key>, post: Option<bool>)
    requires IsCatalog(ss)
    ensures InOrderOnce(HitsFrom(ss, after, post))
    decreases |ss|
  {
    if ss != [] {
      var first, more := SessionHits(ss[0], after, post), HitsFrom(ss[1..], None, post);
      SuffixIsCatalog(ss, 1);
      SessionHitsInOrder(ss[0], after, post);
      MatchesInOrder(ss[1..], None, post);
      hide Ordered, SessionHits, InOrderOnce, HitBefore;
      forall j | 0 <= j < |more| ensures more[j].sid != ss[0].id {
        var k := HitOrigin(ss[1..], None, post, j + 1);
        assert ss[1..][k] == ss[k + 1];
      }
      JoinInOrder(first, more, ss[0].id);
    }
  }

  lemma JoinInOrder(a: seq<Hit>, b: seq<Hit>, sid: string)
    requires (forall h <- a :: h.sid == sid) && (forall j | 0 <= j < |b| :: b[j].sid != sid)
    requires forall i, j | 0 <= i < j < |a| :: HitBefore(a[i], a[j])
    requires InOrderOnce(b)
    ensures InOrderOnce(a + b)
  {}

  // ---- exactly what is in the list ----

  predicate Meets(r: Row, post: Option<bool>) {
    post == None || post == Some(r.websocket)
  }

  lemma {:induction false} MatchingExactly(rows: seq<Row>, post: Option<bool>, sid: string, h: Hit)
    ensures h in Matching(rows, post, sid) <==> h.sid == sid && h.row in rows && Meets(h.row, post)
  {
    if rows != [] {
      MatchingExactly(rows[1..], post, sid, h);
      assert rows == [rows[0]] + rows[1..];
    }
  }

  lemma {:induction false} AfterExactly(rows: seq<Row>, k: Key, r: Row)
    requires Ordered(rows)
    ensures r in RowsAfter(rows, Some(k)) <==> r in rows && Before(k, r.key)
  {
    if rows != [] {
      assert rows == [rows[0]] + rows[1..];
      if Before(k, rows[0].key) {
        if r in rows {
          var j :| 0 <= j < |rows| && rows[j] == r;
          assert j > 0 ==> Before(rows[0].key, rows[j].key);
        }
      } else {
        AfterExactly(rows[1..], k, r);
      }
    }
  }

  /** A row of session `i` that is a match after the position in the first session. */
  predicate IsMatch(ss: seq<Session>, after: Option<Key>, post: Option<bool>, i: nat, h: Hit)
    requires i < |ss|
  {
    && ss[i].available && h.sid == ss[i].id && h.row in ss[i].rows && Meets(h.row, post)
    && (i == 0 && after.Some? ==> Before(after.value, h.row.key))
  }

  /** The list holds exactly the rows of available sessions that meet the criterion, from the position on. */
  lemma {:induction false} HitsExactly(ss: seq<Session>, after: Option<Key>, post: Option<bool>, h: Hit)
    requires IsCatalog(ss)
    ensures h in HitsFrom(ss, after, post) <==> exists i | 0 <= i < |ss| :: IsMatch(ss, after, post, i, h)
    decreases |ss|
  {
    hide Matching, RowsAfter, Ordered, Meets;
    if ss != [] {
      HitsExactly(ss[1..], None, post, h);
      MatchingExactly(RowsAfter(ss[0].rows, after), post, ss[0].id, h);
      assert after == None ==> RowsAfter(ss[0].rows, after) == ss[0].rows by { NoPosition(ss[0].rows); }
      if after.Some? { AfterExactly(ss[0].rows, after.value, h.row); }
      assert h in SessionHits(ss[0], after, post) <==> IsMatch(ss, after, post, 0, h);
      forall i | 0 < i < |ss| ensures IsMatch(ss, after, post, i, h) <==> IsMatch(ss[1..], None, post, i - 1, h) {}
      if h in HitsFrom(ss[1..], None, post) {
        var i :| 0 <= i < |ss[1..]| && IsMatch(ss[1..], None, post, i, h);
        assert IsMatch(ss, after, post, i + 1, h);
      }
    }
  }

  lemma NoPosition(rows: seq<Row>)
    ensures RowsAfter(rows, None) == rows
  {}

  /** The session of that id is not after this one, and if it is this one then the position is before the row. */
  predicate NotBefore(ss: seq<Session>, sid: string, k: Key, i: nat, h: Hit) {
    forall j | i <= j < |ss| && ss[j].id == sid :: j == i && Before(k, h.row.key)
  }

  lemma MatchFrom(ss: seq<Session>, n: nat, sid: string, k: Key, post: Option<bool>, i: nat, h: Hit)
    requires IsCatalog(ss) && n < |ss| && i < |ss| && ss[n].id == sid
    ensures (IsMatch(ss, None, post, i, h) && NotBefore(ss, sid, k, i, h))
            <==> i >= n && IsMatch(ss[n..], Some(k), post, i - n, h)
  {
    hide Ordered, Meets;
    assert i >= n ==> ss[n..][i - n] == ss[i];
  }

  /**
    A cursor leaves exactly the matches after its position in the session that it names, and
    those of later sessions; or all of them, if there is no such session.
   */
  lemma CursorLeaves(ss: seq<Session>, sid: string, k: Key, post: Option<bool>, h: Hit)
    requires IsCatalog(ss) && InRange(k) && '|' !in sid
    ensures var left := Remaining(ss, SearchToken(sid, k), post);
      && left.Some?
      && (h in left.value <==>
            exists i | 0 <= i < |ss| ::
              IsMatch(ss, None, post, i, h) && NotBefore(ss, sid, k, i, h))
  {
    SearchTokenRoundTrip(sid, k);
    SearchTokenThere(sid, k);
    hide SearchToken, ParseSearchToken, HitsFrom, Meets, Ordered;
    var left := Remaining(ss, SearchToken(sid, k), post);
    if s :| s in ss && s.id == sid {
      var n := DropIsSuffix(ss, sid);
      var m :| 0 <= m < |ss| && ss[m] == s;
      assert ss[n].id == sid;
      SuffixIsCatalog(ss, n);
      HitsExactly(ss[n..], Some(k), post, h);
      hide Drop, IsCatalog, IsMatch;
      forall i | 0 <= i < |ss|
        ensures (IsMatch(ss, None, post, i, h) && NotBefore(ss, sid, k, i, h))
                <==> i >= n && IsMatch(ss[n..], Some(k), post, i - n, h)
      {
        MatchFrom(ss, n, sid, k, post, i, h);
      }
      if i :| 0 <= i < |ss[n..]| && IsMatch(ss[n..], Some(k), post, i, h) {
        assert IsMatch(ss, None, post, n + i, h);
      }
    } else {
      HitsExactly(ss, None, post, h);
      assert forall j | 0 <= j < |ss| :: ss[j] in ss;
    }
  }

  /** The same from the beginning: what is read is the full match list, session by session. */
  lemma PagingReadsAll(ss: seq<Session>, post: Option<bool>, answers: List<(nat, Answer)>)
    requires IsCatalog(ss) && Writable(ss) && IsChain(ss, post, [], answers) && answers.Cons?
    ensures AllRows(answers) <= HitsFrom(ss, None, post)
    ensures Last(answers).complete && Last(answers).next.None? ==> AllRows(answers) == HitsFrom(ss, None, post)
  {
    PagingReadsOn(ss, post, [], answers);
  }
}
