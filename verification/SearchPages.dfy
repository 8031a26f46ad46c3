/**
  What a search reads, page by page: the gateway's pages of every session, in order, until
  enough has been found or scanned. This fixes the answer altogether.
 */
module SearchPages {
  import opened Bytes
  import opened Paging
  import opened Search
  import opened Timeline

  /** What one page brings. */
  datatype Read = Read(hits: seq<Hit>, scanned: nat)

  /** The pages of a session, from one cursor to the next. */
  ghost function PagesOf(s: Session, at: Option<Key>, q: Ask): (ps: seq<Read>)
    requires Honest(q.query, s) && q.limit >= 1
    ensures ps == [] <==> !s.available
    decreases |RowsAfter(s.rows, at)|
  {
    if !s.available then []
    else
      var page := PageAt(s, at, q);
      [Read(Matching(page.rows, q.post, s.id), page.scanned)]
      + if page.next.None? then [] else PagesOf(s, page.next, q)
  }

  ghost function AllPages(ss: seq<Session>, after: Option<Key>, q: Ask): seq<Read>
    requires AllHonest(q.query, ss) && q.limit >= 1
  {
    if ss == [] then [] else PagesOf(ss[0], after, q) + AllPages(ss[1..], None, q)
  }

  /** The matches wanted have been found, or the rows allowed have been looked at. */
  predicate Enough(matched: seq<Hit>, scanned: nat, q: Ask) {
    |matched| >= q.limit || scanned >= q.maxScan
  }

  /** What has been found and scanned, and which pages were left unread. */
  datatype Progress = Progress(matched: seq<Hit>, scanned: nat, unread: seq<Read>)

  /** Reads page after page until it is enough, with so much found and scanned before. */
  function ReadPages(ps: seq<Read>, matched: seq<Hit>, scanned: nat, q: Ask): (p: Progress)
    ensures p.unread != [] ==> Enough(p.matched, p.scanned, q)
    decreases |ps|
  {
    if ps == [] || Enough(matched, scanned, q) then Progress(matched, scanned, ps)
    else ReadPages(ps[1..], matched + ps[0].hits, scanned + ps[0].scanned, q)
  }

  /** Pages read first, and others after them if those were not enough. */
  lemma {:induction false} ReadsOn(a: seq<Read>, b: seq<Read>, matched: seq<Hit>, scanned: nat, q: Ask)
    ensures var first := ReadPages(a, matched, scanned, q);
      ReadPages(a + b, matched, scanned, q) ==
      if first.unread == [] then ReadPages(b, first.matched, first.scanned, q)
      else first.(unread := first.unread + b)
    decreases |a|
  {
    hide Enough;
    if a == [] {
      assert a + b == b;
    } else if !Enough(matched, scanned, q) {
      assert (a + b)[1..] == a[1..] + b;
      ReadsOn(a[1..], b, matched + a[0].hits, scanned + a[0].scanned, q);
    }
  }

  /** Reading a session is reading its pages. */
  lemma {:induction false} ScanReadsPages(s: Session, at: Option<Key>, matched: seq<Hit>, scanned: nat, q: Ask)
    requires Honest(q.query, s) && q.limit >= 1
    ensures var scan, p := ScanOf(s, at, matched, scanned, q), ReadPages(PagesOf(s, at, q), matched, scanned, q);
      && scan.matched == p.matched && scan.scanned == p.scanned
      && (scan.failed <==> !s.available && !Enough(matched, scanned, q))
      && (s.available ==> (scan.stopped <==> p.unread != []))
    decreases |RowsAfter(s.rows, at)|
  {
    hide Ordered, RowsAfter, Matching, Honest;
    if !Enough(matched, scanned, q) && s.available {
      var page := PageAt(s, at, q);
      var here := Read(Matching(page.rows, q.post, s.id), page.scanned);
      var rest := if page.next.None? then [] else PagesOf(s, page.next, q);
      assert ([here] + rest)[1..] == rest;
      if page.next.Some? {
        ScanReadsPages(s, page.next, matched + here.hits, scanned + here.scanned, q);
      }
    }
  }

  /**
    A search reads the pages of all the sessions in order until it is enough, and says how
    many matches it found and how many rows were looked at. It is complete exactly when no
    page was left, and there was not enough yet or the last session is one that has pages.
   */
  lemma {:induction false} SearchReadsPages(ss: seq<Session>, named: bool, after: Option<Key>,
                                            matched: seq<Hit>, scanned: nat, q: Ask)
    requires AllHonest(q.query, ss) && q.limit >= 1 && !Enough(matched, scanned, q)
    ensures var r, p := SearchFrom(ss, named, after, matched, scanned, q),
                        ReadPages(AllPages(ss, after, q), matched, scanned, q);
      && (r.Found? ==>
            && r.answer.rows <= p.matched && r.answer.total == |p.matched| && r.answer.scanned == p.scanned
            && (r.answer.complete <==>
                  p.unread == [] && (Enough(p.matched, p.scanned, q) ==> ss != [] && ss[|ss| - 1].available)))
    decreases |ss|
  {
    hide Honest, ScanOf, PagesOf;
    if ss != [] {
      var pages, others := PagesOf(ss[0], after, q), AllPages(ss[1..], None, q);
      ScanReadsPages(ss[0], after, matched, scanned, q);
      ReadsOn(pages, others, matched, scanned, q);
      var scan := ScanOf(ss[0], after, matched, scanned, q);
      if scan.failed {
        SearchReadsPages(ss[1..], named, None, scan.matched, scan.scanned, q);
      } else if Enough(scan.matched, scan.scanned, q) {
        PagesBehind(ss, q);
      } else {
        SearchReadsPages(ss[1..], named, None, scan.matched, scan.scanned, q);
      }
    }
  }

  /** An available session at the end has pages. */
  lemma {:induction false} PagesBehind(ss: seq<Session>, q: Ask)
    requires AllHonest(q.query, ss) && q.limit >= 1 && ss != []
    ensures |ss| > 1 && ss[|ss| - 1].available ==> AllPages(ss[1..], None, q) != []
    decreases |ss|
  {
    hide Honest;
    if |ss| > 1 {
      PagesBehind(ss[1..], q);
      assert ss[1..][|ss| - 2] == ss[|ss| - 1];
    }
  }
}
