/** What a DACK makes the sender retransmit: the first twenty distinct live numbers, in the
    order the holes ask for them, whose pacing timer lets the round through; and exactly
    when it does not. */
module WalkTheorems {
  import opened VmacTypes
  import opened SenderRing

  /** Every live number's slot holds a copy of the frame with that number. */
  ghost predicate Intact(q: Query) {
    forall s: u16 :: Live(q.seqno, s) ==> CopyOf(q, s).Some? && CopyOf(q, s).value.seqno == s
  }

  ghost predicate AllBelow(numbers: seq<u16>, seqno: u16) {
    forall s :: s in numbers ==> s < seqno
  }

  ghost predicate Distinct(numbers: seq<u16>) {
    forall i, j :: 0 <= i < j < |numbers| ==> numbers[i] != numbers[j]
  }

  /** The occurrences in the list that are eligible by the timers before the walk. */
  function Open(q: Query, timer: Timers, numbers: seq<u16>): seq<u16> {
    if numbers == [] then []
    else
      var front, s := numbers[..|numbers| - 1], numbers[|numbers| - 1];
      if Eligible(q, timer, s) then Open(q, timer, front) + [s] else Open(q, timer, front)
  }

  /** The list without repeats, each number at its first place. */
  function Firsts(numbers: seq<u16>): seq<u16> {
    if numbers == [] then []
    else
      var front, s := numbers[..|numbers| - 1], numbers[|numbers| - 1];
      if s in front then Firsts(front) else Firsts(front) + [s]
  }

  function Picks(q: Query, timer: Timers, numbers: seq<u16>): seq<u16> {
    Take(Firsts(Open(q, timer, numbers)), MAX_RETX)
  }

  /** Adding six to the round overflows the pacing byte; the stamped timer is then no more
      than the round. */
  predicate PacingWraps(q: Query) {
    q.round + 6 >= U8_LIMIT
  }

  /** The occurrences the walk acts on: a stamped number is eligible again only if pacing
      wraps. */
  function Calls(q: Query, timer: Timers, numbers: seq<u16>): seq<u16> {
    if PacingWraps(q) then Open(q, timer, numbers) else Firsts(Open(q, timer, numbers))
  }

  /** The timers after each number of the list was paced for the round. */
  function Stamp(q: Query, timer: Timers, numbers: seq<u16>): Timers {
    if numbers == [] then timer
    else Stamp(q, timer, numbers[..|numbers| - 1])[TxSlot(numbers[|numbers| - 1]) := Paced(q.round)]
  }

  ghost predicate AllLive(q: Query, numbers: seq<u16>) {
    forall s :: s in numbers ==> Live(q.seqno, s)
  }

  /** The kept copies of the numbers, in order. */
  ghost function CopiesOf(q: Query, numbers: seq<u16>): seq<Frame>
    requires Intact(q) && AllLive(q, numbers)
  {
    seq(|numbers|, k requires 0 <= k < |numbers| => assert numbers[k] in numbers; CopyOf(q, numbers[k]).value)
  }

  // ---- lists ----

  lemma {:induction false} OpenIs(q: Query, timer: Timers, numbers: seq<u16>)
    ensures forall s :: s in Open(q, timer, numbers) <==> s in numbers && Eligible(q, timer, s)
  {
    if numbers != [] {
      var front, s := numbers[..|numbers| - 1], numbers[|numbers| - 1];
      OpenIs(q, timer, front);
      assert numbers == front + [s];
    }
  }

  lemma {:induction false} FirstsIs(numbers: seq<u16>)
    ensures Distinct(Firsts(numbers))
    ensures forall s :: s in Firsts(numbers) <==> s in numbers
  {
    if numbers != [] {
      var front, s := numbers[..|numbers| - 1], numbers[|numbers| - 1];
      FirstsIs(front);
      assert numbers == front + [s];
    }
  }

  lemma FirstsSnoc(numbers: seq<u16>, s: u16)
    ensures Firsts(numbers + [s]) == if s in numbers then Firsts(numbers) else Firsts(numbers) + [s]
  {
    assert (numbers + [s])[..|numbers|] == numbers;
  }

  lemma DistinctFront(numbers: seq<u16>)
    requires numbers != [] && Distinct(numbers)
    ensures Distinct(numbers[..|numbers| - 1]) && numbers[|numbers| - 1] !in numbers[..|numbers| - 1]
  {
  }

  lemma TakeOfLonger(numbers: seq<u16>, s: u16, n: nat)
    requires n <= |numbers|
    ensures Take(numbers + [s], n) == Take(numbers, n)
  {
  }

  /** A list whose first n entries are distinct starts with its n first occurrences. */
  lemma {:induction false} FirstsOfDistinct(numbers: seq<u16>, n: nat)
    requires Distinct(Take(numbers, n))
    ensures Take(Firsts(numbers), n) == Take(numbers, n)
  {
    if numbers != [] {
      var front, s := numbers[..|numbers| - 1], numbers[|numbers| - 1];
      assert numbers == front + [s];
      FirstsSnoc(front, s);
      if |numbers| <= n {
        DistinctFront(numbers);
        FirstsOfDistinct(front, n);
        assert Firsts(front) == Take(Firsts(front), n) by { FirstsNoLonger(front); }
      } else {
        TakeOfLonger(front, s, n);
        FirstsOfDistinct(front, n);
        TakeOfLonger(Firsts(front), s, n);
      }
    }
  }

  /** A repeat at the start makes no difference to the first occurrences. */
  lemma {:induction false} FirstsOfRepeat(s: u16, rest: seq<u16>)
    ensures Firsts([s, s] + rest) == Firsts([s] + rest)
  {
    if rest == [] {
      assert [s, s] + rest == [s] + [s] && [s] + rest == [s];
      FirstsSnoc([s], s);
    } else {
      var front, last := rest[..|rest| - 1], rest[|rest| - 1];
      FirstsOfRepeat(s, front);
      assert rest == front + [last];
      Associates([s, s], front, [last]);
      Associates([s], front, [last]);
      FirstsSnoc([s, s] + front, last);
      FirstsSnoc([s] + front, last);
      RepeatIsIn(s, front, last);
    }
  }

  lemma RepeatIsIn(s: u16, rest: seq<u16>, t: u16)
    ensures t in [s, s] + rest <==> t in [s] + rest
  {
  }

  lemma {:induction false} FirstsAgain(numbers: seq<u16>)
    ensures Firsts(Firsts(numbers)) == Firsts(numbers)
  {
    FirstsIs(numbers);
    var firsts := Firsts(numbers);
    assert Take(firsts, |firsts|) == firsts;
    FirstsOfDistinct(firsts, |firsts|);
    FirstsNoLonger(firsts);
    assert Take(Firsts(firsts), |firsts|) == Firsts(firsts);
  }

  lemma {:induction false} FirstsNoLonger(numbers: seq<u16>)
    ensures |Firsts(numbers)| <= |numbers|
    ensures numbers != [] ==> Firsts(numbers) != [] && Firsts(numbers)[0] == numbers[0]
  {
    if numbers != [] { FirstsNoLonger(numbers[..|numbers| - 1]); }
  }

  lemma {:induction false} RangeIs(le: u16, re: u16)
    ensures |Range(le, re)| == Max(re - le, 0)
    ensures forall k :: 0 <= k < |Range(le, re)| ==> Range(le, re)[k] == le + k
    decreases re
  {
    if le < re { RangeIs(le, re - 1); }
  }

  lemma RangeCons(le: u16, re: u16)
    requires le < re
    ensures Range(le, re) == [le] + Range(le + 1, re)
  {
    RangeIs(le, re);
    RangeIs(le + 1, re);
  }

  lemma CandidatesSnoc(holes: seq<Hole>, last: Hole, seqno: u16)
    ensures Candidates(holes + [last], seqno) == Candidates(holes, seqno) + Range(last.le, Min(last.re, seqno))
  {
    assert (holes + [last])[..|holes|] == holes;
  }

  lemma {:induction false} CandidatesJoin(a: seq<Hole>, b: seq<Hole>, seqno: u16)
    ensures Candidates(a + b, seqno) == Candidates(a, seqno) + Candidates(b, seqno)
  {
    if b == [] {
      assert a + b == a;
    } else {
      var front, last := b[..|b| - 1], b[|b| - 1];
      assert b == front + [last] && a + b == a + front + [last];
      CandidatesJoin(a, front, seqno);
      CandidatesSnoc(a + front, last, seqno);
      CandidatesSnoc(front, last, seqno);
      Associates(Candidates(a, seqno), Candidates(front, seqno), Range(last.le, Min(last.re, seqno)));
    }
  }

  lemma CandidatesCons(hole: Hole, holes: seq<Hole>, seqno: u16)
    requires hole.re <= seqno
    ensures Candidates([hole] + holes, seqno) == Range(hole.le, hole.re) + Candidates(holes, seqno)
  {
    assert [hole][..0] == [];
    CandidatesJoin([hole], holes, seqno);
  }

  lemma {:induction false} CandidatesAreBelow(holes: seq<Hole>, seqno: u16)
    ensures AllBelow(Candidates(holes, seqno), seqno)
    ensures forall s :: s in Candidates(holes, seqno) ==> exists hole :: hole in holes && hole.le <= s < hole.re
  {
    if holes != [] {
      var front, last := holes[..|holes| - 1], holes[|holes| - 1];
      CandidatesAreBelow(front, seqno);
      RangeIs(last.le, Min(last.re, seqno));
      forall s | s in Candidates(holes, seqno)
        ensures s < seqno && exists hole :: hole in holes && hole.le <= s < hole.re
      {
        if s in Candidates(front, seqno) {
          var hole :| hole in front && hole.le <= s < hole.re;
          assert hole in holes;
        } else {
          assert last in holes;
        }
      }
    }
  }

  // ---- timers ----

  /** Pacing live numbers touches their slots only. */
  lemma {:induction false} StampAt(q: Query, timer: Timers, picks: seq<u16>, s: u16)
    requires Live(q.seqno, s) && AllLive(q, picks)
    ensures Stamp(q, timer, picks)[TxSlot(s)] == if s in picks then Paced(q.round) else timer[TxSlot(s)]
  {
    if picks != [] {
      var front, p := picks[..|picks| - 1], picks[|picks| - 1];
      assert picks == front + [p] && p in picks;
      StampAt(q, timer, front, s);
      if p < s { TxSlotsApart(p, s); } else if s < p { TxSlotsApart(s, p); }
    }
  }

  lemma StampSnoc(q: Query, timer: Timers, picks: seq<u16>, s: u16)
    ensures Stamp(q, timer, picks + [s]) == Stamp(q, timer, picks)[TxSlot(s) := Paced(q.round)]
  {
    assert (picks + [s])[..|picks|] == picks;
  }

  lemma {:induction false} StampedSlot(q: Query, timer: Timers, picks: seq<u16>, k: nat)
    requires k < WINDOW_TX
    ensures Stamp(q, timer, picks)[k] == Paced(q.round) || Stamp(q, timer, picks)[k] == timer[k]
  {
    if picks != [] { StampedSlot(q, timer, picks[..|picks| - 1], k); }
  }

  // ---- walks ----

  lemma {:induction false} QueueGrows(q: Query, w: Walk, numbers: seq<u16>)
    ensures w.queued <= WalkOver(q, w, numbers).queued && w.handed <= WalkOver(q, w, numbers).handed
    ensures w.counter <= WalkOver(q, w, numbers).counter
  {
    if numbers != [] { QueueGrows(q, w, numbers[..|numbers| - 1]); }
  }

  /** The list is live, eligible, and without repeats unless pacing wraps. */
  ghost predicate Callable(q: Query, timer: Timers, calls: seq<u16>) {
    && AllLive(q, calls)
    && (forall s :: s in calls ==> Eligible(q, timer, s))
    && (PacingWraps(q) || Distinct(calls))
  }

  lemma CallsAreCallable(q: Query, timer: Timers, numbers: seq<u16>)
    requires AllBelow(numbers, q.seqno)
    ensures Callable(q, timer, Calls(q, timer, numbers))
    ensures forall s :: s in Calls(q, timer, numbers) <==> s in numbers && Eligible(q, timer, s)
  {
    OpenIs(q, timer, numbers);
    FirstsIs(Open(q, timer, numbers));
  }

  lemma CallableFront(q: Query, timer: Timers, front: seq<u16>, s: u16)
    requires Callable(q, timer, front + [s])
    ensures Callable(q, timer, front) && Live(q.seqno, s) && Eligible(q, timer, s)
    ensures PacingWraps(q) || s !in front
  {
    var calls := front + [s];
    assert calls[..|front|] == front && calls[|front|] == s && s in calls;
    assert forall x :: x in front ==> x in calls;
    if Distinct(calls) { DistinctFront(calls); }
  }

  /** Whatever was called before, the next call is eligible when it is met. */
  lemma NextIsEligible(q: Query, timer: Timers, front: seq<u16>, s: u16)
    requires Callable(q, timer, front + [s])
    ensures Eligible(q, Stamp(q, timer, front), s)
  {
    CallableFront(q, timer, front, s);
    StampAt(q, timer, front, s);
  }

  /** While there is budget, every call so far has been stamped. */
  lemma {:induction false} StampedWhileBudget(q: Query, timer: Timers, calls: seq<u16>)
    requires Callable(q, timer, calls)
    ensures var w := WalkOver(q, Start(timer), calls); w.counter < MAX_RETX ==> w.timer == Stamp(q, timer, calls)
  {
    if calls != [] {
      var front, s := calls[..|calls| - 1], calls[|calls| - 1];
      assert calls == front + [s];
      CallableFront(q, timer, front, s);
      StampedWhileBudget(q, timer, front);
      NextIsEligible(q, timer, front, s);
    }
  }

  /** A number already called is eligible no more, unless pacing wraps. */
  lemma NotAgain(q: Query, timer: Timers, calls: seq<u16>, s: u16)
    requires AllLive(q, calls) && Live(q.seqno, s)
    requires !Eligible(q, timer, s) ==> s !in calls
    requires !Eligible(q, timer, s) || (!PacingWraps(q) && s in calls)
    ensures !Eligible(q, Stamp(q, timer, calls), s)
  {
    StampAt(q, timer, calls, s);
  }

  /** An occurrence that is not a call changes nothing. */
  lemma SkippedVisit(q: Query, timer: Timers, front: seq<u16>, s: u16, w: Walk)
    requires AllBelow(front, q.seqno) && s < q.seqno
    requires w == WalkOver(q, Start(timer), Calls(q, timer, front))
    requires !Eligible(q, timer, s) || (!PacingWraps(q) && s in Open(q, timer, front))
    ensures Visit(q, w, s) == w
  {
    var calls := Calls(q, timer, front);
    CallsAreCallable(q, timer, front);
    StampedWhileBudget(q, timer, calls);
    OpenIs(q, timer, front);
    if w.counter < MAX_RETX && s >= Oldest(q.seqno) { NotAgain(q, timer, calls, s); }
  }

  /** The walk over a list is the walk over its calls. */
  lemma {:induction false} OnlyCallsCount(q: Query, timer: Timers, numbers: seq<u16>)
    requires AllBelow(numbers, q.seqno)
    ensures WalkOver(q, Start(timer), numbers) == WalkOver(q, Start(timer), Calls(q, timer, numbers))
  {
    if numbers != [] {
      var front, s := numbers[..|numbers| - 1], numbers[|numbers| - 1];
      assert numbers == front + [s];
      assert forall x :: x in front ==> x in numbers;
      assert s in numbers;
      OnlyCallsCount(q, timer, front);
      var open := Open(q, timer, front);
      FirstsSnoc(open, s);
      WalkOverSnoc(q, Start(timer), Calls(q, timer, front), s);
      if !Eligible(q, timer, s) || (!PacingWraps(q) && s in open) {
        SkippedVisit(q, timer, front, s, WalkOver(q, Start(timer), Calls(q, timer, front)));
      }
    }
  }

  /** Each of the first twenty calls that is for number 500 finds the word behind the ring
      set, by an older timer or by an earlier call of the same walk. */
  ghost predicate WordsSet(q: Query, timer: Timers, calls: seq<u16>) {
    forall j :: 0 <= j < |calls| && j < MAX_RETX && calls[j] == WINDOW_TX ==> WordBehind(Stamp(q, timer, calls[..j]))
  }

  /** The walk has queued the first twenty calls, and nothing else. */
  ghost predicate Answered(q: Query, timer: Timers, calls: seq<u16>, w: Walk)
    requires Intact(q) && AllLive(q, calls)
  {
    var picks := Take(calls, MAX_RETX);
    assert AllLive(q, picks) by { forall s | s in picks ensures s in calls {} }
    && w.counter == |picks|
    && w.timer == Stamp(q, timer, picks)
    && w.queued == CopiesOf(q, picks)
    && w.skb2 == if picks == [] then None else Some(w.queued[|picks| - 1])
  }

  lemma CopiesSnoc(q: Query, picks: seq<u16>, s: u16)
    requires Intact(q) && AllLive(q, picks + [s])
    ensures AllLive(q, picks) && Live(q.seqno, s)
    ensures CopiesOf(q, picks + [s]) == CopiesOf(q, picks) + [CopyOf(q, s).value]
  {
    assert (picks + [s])[|picks|] == s && s in picks + [s];
    assert forall x :: x in picks ==> x in picks + [s];
  }

  lemma WordsSetFront(q: Query, timer: Timers, front: seq<u16>, s: u16)
    requires WordsSet(q, timer, front + [s])
    ensures WordsSet(q, timer, front)
    ensures |front| < MAX_RETX && s == WINDOW_TX ==> WordBehind(Stamp(q, timer, front))
  {
    var calls := front + [s];
    assert calls[|front|] == s && calls[..|front|] == front;
    forall j | 0 <= j < |front| && j < MAX_RETX && front[j] == WINDOW_TX
      ensures WordBehind(Stamp(q, timer, front[..j]))
    {
      assert calls[j] == front[j] && calls[..j] == front[..j];
    }
  }

  /** With the words set the calls are answered in order. */
  lemma {:induction false} CallsAnswered(q: Query, timer: Timers, calls: seq<u16>)
    requires Intact(q) && Callable(q, timer, calls) && WordsSet(q, timer, calls)
    ensures Answered(q, timer, calls, WalkOver(q, Start(timer), calls))
  {
    if calls != [] {
      var front, s := calls[..|calls| - 1], calls[|calls| - 1];
      assert calls == front + [s];
      CallableFront(q, timer, front, s);
      WordsSetFront(q, timer, front, s);
      CallsAnswered(q, timer, front);
      NextAnswered(q, timer, front, s, WalkOver(q, Start(timer), front));
    }
  }

  lemma NextAnswered(q: Query, timer: Timers, front: seq<u16>, s: u16, w: Walk)
    requires Intact(q) && Callable(q, timer, front + [s]) && AllLive(q, front)
    requires Answered(q, timer, front, w)
    requires |front| < MAX_RETX && s == WINDOW_TX ==> WordBehind(Stamp(q, timer, front))
    ensures Answered(q, timer, front + [s], Visit(q, w, s))
  {
    NextIsEligible(q, timer, front, s);
    if |front| < MAX_RETX {
      assert Take(front, MAX_RETX) == front && Take(front + [s], MAX_RETX) == front + [s];
      CopiesSnoc(q, front, s);
      StampSnoc(q, timer, front, s);
    } else {
      assert Take(front + [s], MAX_RETX) == Take(front, MAX_RETX);
    }
  }
}
