/**
  What the device's own DNS answers said each address is called. At most sixteen answers are
  kept for an address; what they say agrees with what the whole history would.
 */
module DnsNames {
  import opened Bytes

  const KEEP := 16

  /** One answer about an address: when, which name was asked for, and in which lookup. */
  datatype Answer = Answer(ts: int, name: string, flow: string)

  /** A resource record: an address, one whose address cannot be read, or something else. */
  datatype Record = Address(ip: string) | Unreadable | Other

  /** A finished lookup; `ts` is nought when the response carries no timestamp, and `now` is the clock then. */
  datatype Lookup = Lookup(id: string, questions: seq<string>, ts: int, now: int, answers: seq<Record>)

  datatype Hostname = Hostname(name: string, flow: string, candidates: set<string>)

  // ---- learning ----

  function StripDots(name: string): (r: string)
    ensures r <= name && (r == [] || r[|r| - 1] != '.')
    ensures forall k | |r| <= k < |name| :: name[k] == '.'
  {
    if name != [] && name[|name| - 1] == '.' then StripDots(name[..|name| - 1]) else name
  }

  /** What each of a lookup's addresses is remembered as. */
  function AnswerOf(l: Lookup): Answer
    requires l.questions != []
  {
    Answer(if l.ts != 0 then l.ts else l.now, StripDots(l.questions[0]), l.id)
  }

  /** How often a lookup names `ip`. */
  function Mentions(records: seq<Record>, ip: string): nat {
    if records == [] then 0
    else Mentions(records[..|records| - 1], ip) + if records[|records| - 1] == Address(ip) then 1 else 0
  }

  function Repeat(a: Answer, n: nat): seq<Answer> {
    seq(n, _ => a)
  }

  /** Everything ever learned about `ip`, in the order it was learned. */
  function History(ls: seq<Lookup>, ip: string): seq<Answer> {
    if ls == [] then []
    else
      var l := ls[|ls| - 1];
      History(ls[..|ls| - 1], ip)
      + if l.questions == [] then [] else Repeat(AnswerOf(l), Mentions(l.answers, ip))
  }

  function LastFew(s: seq<Answer>): (r: seq<Answer>)
    ensures |r| <= 16
  {
    if |s| <= KEEP then s else s[|s| - KEEP..]
  }

  lemma LastFewExactly(s: seq<Answer>)
    ensures |LastFew(s)| == (if |s| < 16 then |s| else 16) && LastFew(s) == s[|s| - |LastFew(s)|..]
  {}

  // ---- looking up ----

  predicate Eligible(a: Answer, before: int) {
    before == 0 || a.ts <= before
  }

  function EligibleOf(s: seq<Answer>, before: int): seq<Answer> {
    if s == [] then []
    else
      EligibleOf(s[..|s| - 1], before) + if Eligible(s[|s| - 1], before) then [s[|s| - 1]] else []
  }

  /** The first of the answers with the latest time. */
  function Latest(s: seq<Answer>): (a: Answer)
    requires s != []
    ensures a in s && forall b <- s :: b.ts <= a.ts
  {
    if |s| == 1 then s[0]
    else
      var best, last := Latest(s[..|s| - 1]), s[|s| - 1];
      assert s == s[..|s| - 1] + [last];
      if last.ts > best.ts then last else best
  }

  /** The name of the latest answer given in time, with the other names given in time. */
  function NameIn(answers: seq<Answer>, before: int): Option<Hostname> {
    var some := EligibleOf(answers, before);
    if some == [] then None
    else
      var a := Latest(some);
      Some(Hostname(a.name, a.flow, (set b <- some :: b.name) - {a.name}))
  }

  // ---- what a name says, and what is remembered ----

  /** Answer `i` was given in time, and no other in time is later, or as late and learned before it. */
  predicate IsChosen(s: seq<Answer>, before: int, i: nat)
    requires i < |s|
  {
    && (before == 0 || s[i].ts <= before)
    && forall j | 0 <= j < |s| && (before == 0 || s[j].ts <= before) ::
         s[j].ts < s[i].ts || (s[j].ts == s[i].ts && i <= j)
  }

  lemma ChosenMore(front: seq<Answer>, last: Answer, before: int, k: nat)
    requires k < |front| && IsChosen(front, before, k)
    ensures IsChosen(front + [last], before, if Eligible(last, before) && last.ts > front[k].ts then |front| else k)
  {
    var s := front + [last];
    assert forall j | 0 <= j < |front| :: s[j] == front[j];
  }

  lemma ChosenFirst(front: seq<Answer>, last: Answer, before: int)
    requires Eligible(last, before) && forall a <- front :: !Eligible(a, before)
    ensures IsChosen(front + [last], before, |front|)
  {
    var s := front + [last];
    assert forall j | 0 <= j < |front| :: s[j] in front;
  }

  lemma {:induction false} LatestChosen(s: seq<Answer>, before: int) returns (i: nat)
    requires EligibleOf(s, before) != []
    ensures i < |s| && IsChosen(s, before, i) && s[i] == Latest(EligibleOf(s, before))
  {
    var front, last := s[..|s| - 1], s[|s| - 1];
    assert s == front + [last];
    var some := EligibleOf(front, before);
    assert EligibleOf(s, before) == some + if Eligible(last, before) then [last] else [];
    EligibleAre(front, before);
    hide IsChosen, EligibleOf, Eligible;
    if some == [] {
      i := |front|;
      ChosenFirst(front, last, before);
      assert some + [last] == [last];
    } else {
      i := LatestChosen(front, before);
      ChosenMore(front, last, before, i);
      if Eligible(last, before) {
        assert (some + [last])[..|some|] == some;
        i := if last.ts > front[i].ts then |front| else i;
      } else {
        assert some + [] == some;
      }
    }
  }

  /**
    The name of the answers known at a time: there is none exactly when none of them was given
    by then, and it is that of the latest, the first learned of several, with the names of the
    others as candidates.
   */
  lemma NameExactly(s: seq<Answer>, before: int)
    ensures var h := NameIn(s, before);
      && (h.None? <==> forall a <- s :: before != 0 && a.ts > before)
      && (h.Some? ==>
            && (exists i | 0 <= i < |s| && IsChosen(s, before, i) ::
                  s[i].name == h.value.name && s[i].flow == h.value.flow)
            && forall name ::
                 name in h.value.candidates <==>
                 name != h.value.name && exists a <- s :: a.name == name && (before == 0 || a.ts <= before))
  {
    EligibleAre(s, before);
    var some := EligibleOf(s, before);
    if some == [] {
      forall a <- s ensures before != 0 && a.ts > before { assert a in some <==> Eligible(a, before); }
    } else {
      var i := LatestChosen(s, before);
      hide Latest, EligibleOf;
      assert some[0] in some;
    }
  }

  /** What is learned about an address: the asked-for name and the time of every lookup that names it. */
  lemma {:induction false} HistoryExactly(ls: seq<Lookup>, ip: string, a: Answer)
    ensures a in History(ls, ip) <==>
            exists l <- ls | l.questions != [] && Address(ip) in l.answers ::
              a == Answer(if l.ts != 0 then l.ts else l.now, StripDots(l.questions[0]), l.id)
  {
    if ls != [] {
      var front, l := ls[..|ls| - 1], ls[|ls| - 1];
      HistoryExactly(front, ip, a);
      MentionsExactly(l.answers, ip);
      hide Mentions, StripDots;
      assert ls == front + [l];
    }
  }

  lemma {:induction false} MentionsExactly(records: seq<Record>, ip: string)
    ensures Mentions(records, ip) > 0 <==> Address(ip) in records
  {
    if records != [] {
      MentionsExactly(records[..|records| - 1], ip);
      assert records == records[..|records| - 1] + [records[|records| - 1]];
    }
  }

  // ---- the few agree with the whole ----

  /** Learned in time order, and answers of one time are of one lookup. */
  predicate InOrder(s: seq<Answer>) {
    forall i, j | 0 <= i < j < |s| :: s[i].ts < s[j].ts || s[i] == s[j]
  }

  lemma {:induction false} EligibleAppend(a: seq<Answer>, b: seq<Answer>, before: int)
    ensures EligibleOf(a + b, before) == EligibleOf(a, before) + EligibleOf(b, before)
    decreases |b|
  {
    if b == [] {
      assert a + b == a;
    } else {
      assert (a + b)[..|a + b| - 1] == a + b[..|b| - 1];
      EligibleAppend(a, b[..|b| - 1], before);
    }
  }

  lemma {:induction false} EligibleAre(s: seq<Answer>, before: int)
    ensures forall a :: a in EligibleOf(s, before) <==> a in s && Eligible(a, before)
  {
    hide Eligible;
    if s != [] {
      var front, last := s[..|s| - 1], s[|s| - 1];
      EligibleAre(front, before);
      assert s == front + [last];
      forall a ensures a in EligibleOf(s, before) <==> a in s && Eligible(a, before) {
        assert a in s <==> a in front || a == last;
      }
    }
  }

  lemma {:induction false} EligibleInOrder(s: seq<Answer>, before: int)
    requires InOrder(s)
    ensures InOrder(EligibleOf(s, before))
  {
    if s != [] {
      var front, last := s[..|s| - 1], s[|s| - 1];
      EligibleInOrder(front, before);
      EligibleAre(front, before);
      hide Eligible;
      forall a <- EligibleOf(front, before) ensures a.ts < last.ts || a == last {
        var k :| 0 <= k < |front| && front[k] == a;
        assert s[k] == a;
      }
    }
  }

  /** In an ordered history the latest answer is the last one. */
  lemma {:induction false} LatestIsLast(s: seq<Answer>)
    requires InOrder(s) && s != []
    ensures Latest(s) == s[|s| - 1]
  {
    if |s| > 1 {
      LatestIsLast(s[..|s| - 1]);
      assert s[|s| - 2].ts < s[|s| - 1].ts || s[|s| - 2] == s[|s| - 1];
    }
  }

  /**
    A name that the few answers give is the one that the whole history gives, with no other
    candidates than it has; and they give none exactly when every answer given in time, if
    there is one, is older than the few.
   */
  lemma BoundedAgrees(full: seq<Answer>, before: int)
    requires InOrder(full)
    ensures var few, whole := NameIn(LastFew(full), before), NameIn(full, before);
      && (few.Some? ==>
            && whole.Some? && few.value.name == whole.value.name && few.value.flow == whole.value.flow
            && few.value.candidates <= whole.value.candidates)
      && (few.None? <==> forall i | 0 <= i < |full| && Eligible(full[i], before) :: i < |full| - KEEP)
  {
    hide EligibleOf, Latest, InOrder;
    var n := if |full| <= KEEP then 0 else |full| - KEEP;
    assert LastFew(full) == full[n..];
    NoneLeft(full, n, before);
    if EligibleOf(full[n..], before) != [] {
      SameLatest(full, n, before);
    }
  }

  /** If any of the kept answers is in time, they hold the latest of all that are. */
  lemma SameLatest(full: seq<Answer>, n: nat, before: int)
    requires InOrder(full) && n <= |full| && EligibleOf(full[n..], before) != []
    ensures var few, whole := EligibleOf(full[n..], before), EligibleOf(full, before);
      && whole != [] && Latest(few) == Latest(whole)
      && forall a <- few :: a in whole
  {
    assert full == full[..n] + full[n..];
    EligibleAppend(full[..n], full[n..], before);
    SuffixInOrder(full, n);
    EligibleAre(full[n..], before);
    EligibleAre(full, before);
    EligibleInOrder(full[n..], before);
    EligibleInOrder(full, before);
    hide EligibleOf, InOrder, Latest;
    var few, whole := EligibleOf(full[n..], before), EligibleOf(full, before);
    LatestIsLast(few);
    LatestIsLast(whole);
    assert whole[|whole| - 1] == few[|few| - 1];
  }

  lemma NoneLeft(full: seq<Answer>, n: nat, before: int)
    requires n <= |full|
    ensures EligibleOf(full[n..], before) == [] <==> forall i | 0 <= i < |full| && Eligible(full[i], before) :: i < n
  {
    var kept := full[n..];
    EligibleAre(kept, before);
    hide EligibleOf, Eligible;
    var few := EligibleOf(kept, before);
    if few != [] {
      assert few[0] in kept;
      var k :| 0 <= k < |kept| && kept[k] == few[0];
      assert full[n + k] == few[0];
    }
    forall i | n <= i < |full| ensures full[i] in kept { assert kept[i - n] == full[i]; }
  }

  lemma SuffixInOrder(s: seq<Answer>, n: nat)
    requires InOrder(s) && n <= |s|
    ensures InOrder(s[n..])
  {}

  // ---- in whatever order they were learned ----

  /** How many of the answers are no longer kept. */
  function Forgotten(s: seq<Answer>): (n: nat)
    ensures n <= |s| && s[n..] == LastFew(s)
  {
    if |s| <= KEEP then 0 else |s| - KEEP
  }

  /** One of the forgotten answers given in time is as late as every kept one that was. */
  predicate Overtaken(full: seq<Answer>, before: int) {
    exists i | 0 <= i < Forgotten(full) && Eligible(full[i], before) ::
      forall j | Forgotten(full) <= j < |full| && Eligible(full[j], before) :: full[j].ts <= full[i].ts
  }

  predicate SameName(a: Option<Hostname>, b: Option<Hostname>) {
    a.Some? && b.Some? && a.value.name == b.value.name && a.value.flow == b.value.flow
  }

  /**
    The full history gives the name that the forgotten answers alone give, if one of them
    overtakes those kept, and otherwise the name that the kept ones give. So the two names
    agree exactly when none does, or when it says the same.
   */
  lemma BoundedExactly(full: seq<Answer>, before: int)
    ensures var few, whole := NameIn(LastFew(full), before), NameIn(full, before);
      var gone := NameIn(full[..Forgotten(full)], before);
      && (Overtaken(full, before) ==> SameName(whole, gone))
      && (few.Some? && !Overtaken(full, before) ==>
            SameName(whole, few) && few.value.candidates <= whole.value.candidates)
      && (few.Some? ==> (SameName(few, whole) <==> (Overtaken(full, before) ==> SameName(few, gone))))
  {
    var n := Forgotten(full);
    var kept, lost := EligibleOf(full[n..], before), EligibleOf(full[..n], before);
    assert full == full[..n] + full[n..];
    EligibleAppend(full[..n], full[n..], before);
    if Overtaken(full, before) { OvertakenThen(full, before); }
    if lost != [] && (kept == [] || Latest(kept).ts <= Latest(lost).ts) { OvertakenIf(full, before); }
    if lost == [] {
      assert lost + kept == kept;
    } else if kept == [] {
      assert lost + kept == lost;
    } else {
      LatestOfBoth(lost, kept);
    }
    hide EligibleOf, Eligible, Latest, Overtaken;
    if kept != [] && !Overtaken(full, before) {
      assert Latest(lost + kept) == Latest(kept);
      NamesAmong(kept, lost + kept);
    }
  }

  lemma NamesAmong(few: seq<Answer>, whole: seq<Answer>)
    requires forall a <- few :: a in whole
    ensures (set b <- few :: b.name) <= (set b <- whole :: b.name)
  {}

  /** The latest of all is the later of the latest, and the earlier learned if neither is. */
  lemma {:induction false} LatestOfBoth(a: seq<Answer>, b: seq<Answer>)
    requires a != [] && b != []
    ensures Latest(a + b) == if Latest(b).ts > Latest(a).ts then Latest(b) else Latest(a)
    decreases |b|
  {
    assert (a + b)[..|a + b| - 1] == a + b[..|b| - 1];
    if |b| == 1 {
      assert a + b[..0] == a;
    } else {
      LatestOfBoth(a, b[..|b| - 1]);
    }
  }

  /** The eligible answers of the first `n`, and of the others, by their positions. */
  lemma EligibleAt(full: seq<Answer>, n: nat, before: int)
    requires n <= |full|
    ensures forall i | 0 <= i < n && Eligible(full[i], before) :: full[i] in EligibleOf(full[..n], before)
    ensures forall j | n <= j < |full| && Eligible(full[j], before) :: full[j] in EligibleOf(full[n..], before)
    ensures forall a <- EligibleOf(full[..n], before) :: exists i | 0 <= i < n :: full[i] == a && Eligible(a, before)
    ensures forall a <- EligibleOf(full[n..], before) ::
              exists j | n <= j < |full| :: full[j] == a && Eligible(a, before)
  {
    EligibleAre(full[..n], before);
    EligibleAre(full[n..], before);
    hide EligibleOf, Eligible;
    forall i | 0 <= i < n ensures full[i] in full[..n] { assert full[..n][i] == full[i]; }
    forall j | n <= j < |full| ensures full[j] in full[n..] { assert full[n..][j - n] == full[j]; }
    forall a <- full[..n] ensures exists i | 0 <= i < n :: full[i] == a {
      var i :| 0 <= i < n && full[..n][i] == a;
      assert full[i] == a;
    }
    forall a <- full[n..] ensures exists j | n <= j < |full| :: full[j] == a {
      var j :| 0 <= j < |full| - n && full[n..][j] == a;
      assert full[n + j] == a;
    }
  }

  lemma OvertakenThen(full: seq<Answer>, before: int)
    requires Overtaken(full, before)
    ensures var n := Forgotten(full);
      var kept, lost := EligibleOf(full[n..], before), EligibleOf(full[..n], before);
      lost != [] && (kept == [] || Latest(kept).ts <= Latest(lost).ts)
  {
    EligibleAt(full, Forgotten(full), before);
    hide EligibleOf, Eligible, Latest, LastFew, Forgotten;
  }

  lemma OvertakenIf(full: seq<Answer>, before: int)
    requires var n := Forgotten(full);
      var kept, lost := EligibleOf(full[n..], before), EligibleOf(full[..n], before);
      lost != [] && (kept == [] || Latest(kept).ts <= Latest(lost).ts)
    ensures Overtaken(full, before)
  {
    var n := Forgotten(full);
    EligibleAt(full, n, before);
    hide EligibleOf, Eligible, Latest, LastFew, Forgotten;
    var i :| 0 <= i < n && full[i] == Latest(EligibleOf(full[..n], before)) && Eligible(full[i], before);
  }

  // ---- learned as lookups finish ----

  /** Lookups finish one after another in time. */
  predicate OneByOne(ls: seq<Lookup>) {
    forall i, j | 0 <= i < j < |ls| && ls[i].questions != [] && ls[j].questions != [] ::
      AnswerOf(ls[i]).ts < AnswerOf(ls[j]).ts
  }

  /** Then every address's history is ordered, with ties only within one lookup. */
  lemma {:induction false} HistoryInOrder(ls: seq<Lookup>, ip: string)
    requires OneByOne(ls)
    ensures InOrder(History(ls, ip))
  {
    if ls != [] {
      var front, l := ls[..|ls| - 1], ls[|ls| - 1];
      HistoryInOrder(front, ip);
      HistoryIsLearned(front, ip);
      hide Mentions, StripDots;
      forall a <- History(front, ip) ensures l.questions != [] ==> a.ts < AnswerOf(l).ts {
        var k :| 0 <= k < |front| && front[k].questions != [] && AnswerOf(front[k]) == a;
        assert ls[k] == front[k];
      }
    }
  }

  /** Every answer remembered is the answer of one of the lookups. */
  lemma {:induction false} HistoryIsLearned(ls: seq<Lookup>, ip: string)
    ensures forall a <- History(ls, ip) :: exists k :: 0 <= k < |ls| && ls[k].questions != [] && AnswerOf(ls[k]) == a
  {
    if ls != [] {
      var front, l := ls[..|ls| - 1], ls[|ls| - 1];
      HistoryIsLearned(front, ip);
      hide Mentions, AnswerOf;
      forall a <- History(ls, ip) ensures exists k :: 0 <= k < |ls| && ls[k].questions != [] && AnswerOf(ls[k]) == a {
        if a in History(front, ip) {
          var k :| 0 <= k < |front| && front[k].questions != [] && AnswerOf(front[k]) == a;
          assert ls[k] == front[k];
        } else {
          assert ls[|ls| - 1] == l;
        }
      }
    }
  }

  // ---- the cache itself ----

  class Names {
    var byIp: map<string, seq<Answer>>
    ghost var learned: seq<Lookup>

    function Seen(ip: string): seq<Answer>
      reads this
    {
      if ip in byIp then byIp[ip] else []
    }

    /** Each address is remembered by the last few of everything learned about it. */
    ghost predicate Valid()
      reads this
    {
      forall ip: string :: Seen(ip) == LastFew(History(learned, ip))
    }

    constructor ()
      ensures Valid() && learned == []
    {
      byIp, learned := map[], [];
    }

    /** Learns from a finished lookup, if it has a response with a question in it. */
    method Learn(l: Lookup)
      requires Valid()
      modifies this
      ensures Valid() && learned == old(learned) + [l]
    {
      learned := learned + [l];
      if l.questions == [] {
        SkippedLookup(old(learned), l);
        return;
      }
      NothingYet(old(learned), AnswerOf(l));
      hide LastFew, History, AnswerOf, Expected;
      TakeRecords(l.answers, AnswerOf(l), old(learned));
      HistoryMore(old(learned), l);
    }

    /** Remembers `a` about each address among the records. */
    method TakeRecords(records: seq<Record>, a: Answer, ghost was: seq<Lookup>)
      requires forall ip: string :: Seen(ip) == Expected(was, a, [], ip)
      modifies this`byIp
      ensures forall ip: string :: Seen(ip) == Expected(was, a, records, ip)
    {
      hide LastFew, History, Expected;
      assert records[..0] == [];
      for k := 0 to |records|
        invariant forall ip: string :: Seen(ip) == Expected(was, a, records[..k], ip)
      {
        ExpectedMore(was, a, records, k);
        if records[k].Address? {
          Remember(records[k].ip, a);
        }
      }
      assert records[..|records|] == records;
    }

    /** Adds one answer about an address, and forgets the oldest past the bound. */
    method Remember(ip: string, a: Answer)
      modifies this`byIp
      ensures Seen(ip) == LastFew(old(Seen(ip)) + [a])
      ensures forall other: string :: other != ip ==> Seen(other) == old(Seen(other))
    {
      byIp := byIp[ip := Seen(ip) + [a]];
      byIp := byIp[ip := LastFew(byIp[ip])];
    }

    /** The name a connection to `ip` opened at `before` goes by. */
    method NameOf(ip: string, before: int) returns (h: Option<Hostname>)
      requires Valid()
      ensures h == NameIn(LastFew(History(learned, ip)), before)
      ensures OneByOne(learned) && h.Some? ==>
        var whole := NameIn(History(learned, ip), before);
        whole.Some? && h.value.name == whole.value.name && h.value.candidates <= whole.value.candidates
      ensures h.Some? ==>
        var full := History(learned, ip);
        SameName(h, NameIn(full, before)) <==>
        (Overtaken(full, before) ==> SameName(h, NameIn(full[..Forgotten(full)], before)))
    {
      h := NameIn(Seen(ip), before);
      BoundedExactly(History(learned, ip), before);
      if OneByOne(learned) {
        HistoryInOrder(learned, ip);
        BoundedAgrees(History(learned, ip), before);
      }
    }
  }

  /** What is remembered about `ip` once the first of a lookup's records are in. */
  function Expected(ls: seq<Lookup>, a: Answer, records: seq<Record>, ip: string): seq<Answer> {
    LastFew(History(ls, ip) + Repeat(a, Mentions(records, ip)))
  }

  lemma NothingYet(ls: seq<Lookup>, a: Answer)
    ensures forall ip: string :: Expected(ls, a, [], ip) == LastFew(History(ls, ip))
  {
    forall ip: string ensures Expected(ls, a, [], ip) == LastFew(History(ls, ip)) {
      assert History(ls, ip) + Repeat(a, 0) == History(ls, ip);
    }
  }

  lemma ExpectedMore(ls: seq<Lookup>, a: Answer, records: seq<Record>, k: nat)
    requires k < |records|
    ensures forall ip: string ::
              Expected(ls, a, records[..k + 1], ip) ==
              if records[k] == Address(ip) then LastFew(Expected(ls, a, records[..k], ip) + [a])
              else Expected(ls, a, records[..k], ip)
  {
    assert records[..k + 1][..k] == records[..k];
    hide LastFew, History;
    forall ip: string ensures Expected(ls, a, records[..k + 1], ip) ==
      (if records[k] == Address(ip) then LastFew(Expected(ls, a, records[..k], ip) + [a])
       else Expected(ls, a, records[..k], ip))
    {
      var n := Mentions(records[..k], ip);
      FewOfMore(History(ls, ip) + Repeat(a, n), a);
      RepeatMore(History(ls, ip), a, n);
    }
  }

  lemma HistoryMore(ls: seq<Lookup>, l: Lookup)
    requires l.questions != []
    ensures forall ip: string :: LastFew(History(ls + [l], ip)) == Expected(ls, AnswerOf(l), l.answers, ip)
  {
    assert (ls + [l])[..|ls|] == ls;
  }

  lemma SkippedLookup(ls: seq<Lookup>, l: Lookup)
    requires l.questions == []
    ensures forall ip: string :: History(ls + [l], ip) == History(ls, ip)
  {
    assert (ls + [l])[..|ls|] == ls;
  }

  lemma FewOfMore(s: seq<Answer>, a: Answer)
    ensures LastFew(LastFew(s) + [a]) == LastFew(s + [a])
  {}

  lemma RepeatMore(s: seq<Answer>, a: Answer, n: nat)
    ensures s + Repeat(a, n) + [a] == s + Repeat(a, n + 1)
  {}
}
