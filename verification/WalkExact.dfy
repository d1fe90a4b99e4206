/** Exactly when the sender queues the first twenty distinct eligible numbers in order: the
    word behind the ring and the wrap of the pacing byte decide. */
module WalkExact {
  import opened VmacTypes
  import opened SenderRing
  import opened WalkTheorems
  import opened WalkBuffers

  ghost function QueuedFor(q: Query, timer: Timers, numbers: seq<u16>): seq<Frame> {
    WalkOver(q, Start(timer), numbers).queued
  }

  /** The first twenty calls are distinct, and find the word set where they need it. */
  ghost predicate InOrder(q: Query, timer: Timers, calls: seq<u16>) {
    Distinct(Take(calls, MAX_RETX)) && WordsSet(q, timer, calls)
  }

  /** The list starts with 500 twice: the first call finds the word null and no older copy,
      so it only sets the word, and the rest is answered in order. */
  ghost predicate SecondTry(q: Query, timer: Timers, calls: seq<u16>) {
    && |calls| >= 2 && calls[0] == WINDOW_TX == calls[1]
    && !WordBehind(timer) && Paced(q.round) != 0
    && Distinct(Take(calls[1..], MAX_RETX))
  }

  lemma TakeLive(q: Query, calls: seq<u16>)
    requires AllLive(q, calls)
    ensures AllLive(q, Take(calls, MAX_RETX))
  {
    forall s | s in Take(calls, MAX_RETX) ensures s in calls {}
  }

  lemma PicksLive(q: Query, timer: Timers, numbers: seq<u16>)
    requires AllBelow(numbers, q.seqno)
    ensures AllLive(q, Picks(q, timer, numbers)) && Distinct(Picks(q, timer, numbers))
    ensures forall s :: s in Picks(q, timer, numbers) ==> s in numbers && Eligible(q, timer, s)
    ensures Picks(q, timer, numbers) == Take(Firsts(Calls(q, timer, numbers)), MAX_RETX)
  {
    var open := Open(q, timer, numbers);
    var firsts, picks := Firsts(open), Picks(q, timer, numbers);
    OpenIs(q, timer, numbers);
    FirstsIs(open);
    FirstsAgain(open);
    forall s | s in picks ensures s in numbers && Eligible(q, timer, s) { assert s in firsts; }
    forall i, j | 0 <= i < j < |picks| ensures picks[i] != picks[j] { assert firsts[i] != firsts[j]; }
  }

  /** Copies of live numbers are alike only for the same list. */
  lemma CopiesDiffer(q: Query, a: seq<u16>, b: seq<u16>)
    requires Intact(q) && AllLive(q, a) && AllLive(q, b)
    ensures CopiesOf(q, a) == CopiesOf(q, b) <==> a == b
  {
    if CopiesOf(q, a) == CopiesOf(q, b) {
      assert |CopiesOf(q, a)| == |a| && |CopiesOf(q, b)| == |b|;
      forall k | 0 <= k < |a| ensures a[k] == b[k] {
        assert a[k] in a && b[k] in b && CopiesOf(q, a)[k] == CopiesOf(q, b)[k];
      }
    }
  }

  /** With the words set, a number is queued twice exactly if pacing wraps and its eligible
      occurrences repeat among the first twenty. */
  lemma RepeatsDecide(q: Query, timer: Timers, numbers: seq<u16>)
    requires Intact(q) && AllBelow(numbers, q.seqno) && WordsSet(q, timer, Calls(q, timer, numbers))
    ensures AllLive(q, Picks(q, timer, numbers))
    ensures QueuedFor(q, timer, numbers) == CopiesOf(q, Picks(q, timer, numbers)) <==>
            !PacingWraps(q) || Distinct(Take(Open(q, timer, numbers), MAX_RETX))
  {
    var calls := Calls(q, timer, numbers);
    CallsAreCallable(q, timer, numbers);
    OnlyCallsCount(q, timer, numbers);
    CallsAnswered(q, timer, calls);
    TakeLive(q, calls);
    PicksLive(q, timer, numbers);
    CopiesDiffer(q, Take(calls, MAX_RETX), Picks(q, timer, numbers));
    if PacingWraps(q) && Distinct(Take(calls, MAX_RETX)) { FirstsOfDistinct(calls, MAX_RETX); }
  }

  /** A call for 500 that finds the word null queues the copy before it once more: the same
      frame, in the same buffer. */
  lemma NullWordRepeats(q: Query, timer: Timers, front: seq<u16>, rest: seq<u16>)
    requires Intact(q) && front != [] && |front| < MAX_RETX && Callable(q, timer, front + [WINDOW_TX] + rest)
    requires WordsSet(q, timer, front) && !WordBehind(Stamp(q, timer, front))
    ensures var queued := QueuedFor(q, timer, front + [WINDOW_TX] + rest);
            |queued| > |front| && queued[|front|] == queued[|front| - 1]
    ensures var handed := WalkOver(q, Start(timer), front + [WINDOW_TX] + rest).handed;
            |handed| > |front| && handed[|front|] == handed[|front| - 1]
  {
    var calls: seq<u16> := front + [WINDOW_TX];
    var all := calls + rest;
    assert all[..|calls|] == calls;
    assert forall s :: s in calls ==> s in all;
    assert !PacingWraps(q) ==> Distinct(calls) by {
      if Distinct(all) { forall i, j | 0 <= i < j < |calls| ensures calls[i] != calls[j] { assert all[i] != all[j]; } }
    }
    CallableFront(q, timer, front, WINDOW_TX);
    CallsAnswered(q, timer, front);
    CallsAccounted(q, timer, front);
    NextIsEligible(q, timer, front, WINDOW_TX);
    assert Take(front, MAX_RETX) == front;
    WalkOverSnoc(q, Start(timer), front, WINDOW_TX);
    WalkJoin(q, Start(timer), calls, rest);
    QueueGrows(q, WalkOver(q, Start(timer), calls), rest);
  }

  lemma RepeatIsNoAnswer(q: Query, queued: seq<Frame>, picks: seq<u16>, k: nat)
    requires Intact(q) && AllLive(q, picks) && Distinct(picks)
    requires k + 1 < |queued| && queued[k] == queued[k + 1]
    ensures queued != CopiesOf(q, picks)
  {
    var copies := CopiesOf(q, picks);
    if k + 1 < |copies| {
      assert picks[k] in picks && picks[k + 1] in picks;
      assert copies[k].seqno == picks[k] != picks[k + 1] == copies[k + 1].seqno;
    }
  }

  /** If stamping writes zeros and the word is null, 500 is never copied. */
  lemma {:induction false} Never500(q: Query, timer: Timers, calls: seq<u16>)
    requires Intact(q) && AllLive(q, calls) && Paced(q.round) == 0 && !WordBehind(timer)
    ensures var w := WalkOver(q, Start(timer), calls);
            && !WordBehind(w.timer)
            && (w.skb2.Some? ==> w.skb2.value.seqno != WINDOW_TX)
            && (forall frame :: frame in w.queued ==> frame.seqno != WINDOW_TX)
  {
    if calls != [] {
      var front, s := calls[..|calls| - 1], calls[|calls| - 1];
      assert calls == front + [s] && s in calls;
      assert forall x :: x in front ==> x in calls;
      Never500(q, timer, front);
    }
  }

  /** No other live number shares slot 0 with 500. */
  lemma NoRival(q: Query, s: u16)
    requires Live(q.seqno, s) && Live(q.seqno, WINDOW_TX) && s != WINDOW_TX
    ensures TxSlot(s) != 0
  {
    if s < WINDOW_TX { TxSlotsApart(s, WINDOW_TX); } else { TxSlotsApart(WINDOW_TX, s); }
  }

  /** The first call is for 500 and finds the word null: nothing is queued, slot 0 is paced. */
  lemma EmptyFirstCall(q: Query, timer: Timers, rest: seq<u16>)
    requires Callable(q, timer, [WINDOW_TX] + rest) && !WordBehind(timer)
    ensures QueuedFor(q, timer, [WINDOW_TX] + rest) == QueuedFor(q, timer[0 := Paced(q.round)], rest)
    ensures PacingWraps(q) ==> Callable(q, timer[0 := Paced(q.round)], rest)
    ensures forall s :: s in rest && s != WINDOW_TX ==> Eligible(q, timer[0 := Paced(q.round)], s)
  {
    var first: seq<u16> := [WINDOW_TX];
    assert (first + rest)[0] == WINDOW_TX && WINDOW_TX in first + rest;
    WalkJoin(q, Start(timer), first, rest);
    assert first[..0] == [] && TxSlot(WINDOW_TX) == 0;
    assert WalkOver(q, Start(timer), first) == Visit(q, Start(timer), WINDOW_TX);
    forall s | s in rest ensures s in first + rest && (s != WINDOW_TX ==> TxSlot(s) != 0) {
      assert s in first + rest;
      if s != WINDOW_TX { NoRival(q, s); }
    }
  }

  lemma FirstQueued(q: Query, timer: Timers, s: u16, rest: seq<u16>)
    requires Intact(q) && Live(q.seqno, s) && Eligible(q, timer, s) && s != WINDOW_TX
    ensures QueuedFor(q, timer, [s] + rest) != [] && QueuedFor(q, timer, [s] + rest)[0].seqno == s
  {
    WalkJoin(q, Start(timer), [s], rest);
    assert [s][..0] == [];
    assert WalkOver(q, Start(timer), [s]) == Visit(q, Start(timer), s);
    QueueGrows(q, Visit(q, Start(timer), s), rest);
  }

  /** What happens if the very first call is for 500 and finds the word null. */
  lemma NullWordFirst(q: Query, timer: Timers, rest: seq<u16>, picks: seq<u16>)
    requires Intact(q) && Callable(q, timer, [WINDOW_TX] + rest) && !WordBehind(timer)
    requires AllLive(q, picks) && picks == Take(Firsts([WINDOW_TX] + rest), MAX_RETX)
    ensures QueuedFor(q, timer, [WINDOW_TX] + rest) == CopiesOf(q, picks) <==> SecondTry(q, timer, [WINDOW_TX] + rest)
  {
    var calls: seq<u16> := [WINDOW_TX] + rest;
    EmptyFirstCall(q, timer, rest);
    FirstsNoLonger(calls);
    assert picks[0] == WINDOW_TX && picks[0] in picks;
    assert CopiesOf(q, picks)[0].seqno == WINDOW_TX;
    assert calls[1..] == rest;
    var timer' := timer[0 := Paced(q.round)];
    if rest == [] {
      assert QueuedFor(q, timer, calls) == [];
    } else if rest[0] != WINDOW_TX {
      assert rest[0] in calls && rest == [rest[0]] + rest[1..];
      FirstQueued(q, timer', rest[0], rest[1..]);
    } else {
      assert calls[0] == calls[1];
      if Paced(q.round) == 0 {
        Never500(q, timer, calls);
      } else {
        SecondTryServes(q, timer', rest);
        assert calls == [WINDOW_TX, WINDOW_TX] + rest[1..] && rest == [WINDOW_TX] + rest[1..];
        FirstsOfRepeat(WINDOW_TX, rest[1..]);
        TakeLive(q, rest) by { forall s | s in rest ensures s in calls {} }
        CopiesDiffer(q, Take(rest, MAX_RETX), picks);
        FirstsIs(rest);
        if Distinct(Take(rest, MAX_RETX)) {
          FirstsOfDistinct(rest, MAX_RETX);
        } else {
          PrefixDistinct(Firsts(rest), MAX_RETX);
        }
      }
    }
  }

  lemma PrefixDistinct(numbers: seq<u16>, n: nat)
    requires Distinct(numbers)
    ensures Distinct(Take(numbers, n))
  {
  }

  lemma SecondTryServes(q: Query, timer: Timers, calls: seq<u16>)
    requires Intact(q) && Callable(q, timer, calls) && Paced(q.round) != 0 && timer[0] == Paced(q.round)
    ensures AllLive(q, Take(calls, MAX_RETX))
    ensures QueuedFor(q, timer, calls) == CopiesOf(q, Take(calls, MAX_RETX))
  {
    forall j | 0 <= j < |calls| && j < MAX_RETX && calls[j] == WINDOW_TX
      ensures WordBehind(Stamp(q, timer, calls[..j]))
    {
      StampedSlot(q, timer, calls[..j], 0);
    }
    CallsAnswered(q, timer, calls);
    TakeLive(q, calls);
  }

  /** The first call that finds the word null, if there is one. */
  lemma {:induction false} FirstNull(q: Query, timer: Timers, calls: seq<u16>) returns (j: nat)
    requires !WordsSet(q, timer, calls)
    ensures j < |calls| && j < MAX_RETX && calls[j] == WINDOW_TX && !WordBehind(Stamp(q, timer, calls[..j]))
    ensures WordsSet(q, timer, calls[..j])
  {
    j :| 0 <= j < |calls| && j < MAX_RETX && calls[j] == WINDOW_TX && !WordBehind(Stamp(q, timer, calls[..j]));
    var front := calls[..j];
    if !WordsSet(q, timer, front) {
      j := FirstNull(q, timer, front);
      assert front[..j] == calls[..j];
    }
  }

  /** A null word at the start is found by the first call for 500. */
  lemma NullStartIsFirst(q: Query, timer: Timers, calls: seq<u16>, j: nat)
    requires 0 < j <= |calls| && j < MAX_RETX && WordsSet(q, timer, calls[..j])
    ensures calls[0] == WINDOW_TX ==> WordBehind(timer)
  {
    assert calls[..j][0] == calls[0] && calls[..j][..0] == [];
  }

  /** What happens if some call finds the word null. */
  lemma NullWordDecides(q: Query, timer: Timers, calls: seq<u16>, picks: seq<u16>)
    requires Intact(q) && Callable(q, timer, calls) && !WordsSet(q, timer, calls)
    requires AllLive(q, picks) && Distinct(picks) && picks == Take(Firsts(calls), MAX_RETX)
    ensures QueuedFor(q, timer, calls) == CopiesOf(q, picks) <==> SecondTry(q, timer, calls)
  {
    var j := FirstNull(q, timer, calls);
    var rest := calls[j + 1..];
    assert calls == calls[..j] + [WINDOW_TX] + rest;
    if j == 0 {
      assert calls == [WINDOW_TX] + rest && calls[..0] == [];
      NullWordFirst(q, timer, rest, picks);
    } else {
      NullWordRepeats(q, timer, calls[..j], rest);
      RepeatIsNoAnswer(q, QueuedFor(q, timer, calls), picks, j - 1);
      NullStartIsFirst(q, timer, calls, j);
    }
  }

  /** For any holes, rounds and timers: exactly when the sender queues the first twenty
      distinct live numbers whose timer allows the round, each once and in walk order. */
  lemma AnswersExactly(q: Query, timer: Timers, numbers: seq<u16>)
    requires Intact(q) && AllBelow(numbers, q.seqno)
    ensures AllLive(q, Picks(q, timer, numbers))
    ensures var calls := Calls(q, timer, numbers);
            QueuedFor(q, timer, numbers) == CopiesOf(q, Picks(q, timer, numbers)) <==>
            InOrder(q, timer, calls) || SecondTry(q, timer, calls)
  {
    var calls, picks := Calls(q, timer, numbers), Picks(q, timer, numbers);
    CallsAreCallable(q, timer, numbers);
    PicksLive(q, timer, numbers);
    OnlyCallsCount(q, timer, numbers);
    if WordsSet(q, timer, calls) {
      RepeatsDecide(q, timer, numbers);
      if !PacingWraps(q) { PrefixDistinct(calls, MAX_RETX); }
      assert !SecondTry(q, timer, calls) by { if |calls| > 0 { assert calls[..0] == []; } }
    } else {
      NullWordDecides(q, timer, calls, picks);
    }
  }

  /** While pacing fits its byte: the code's test behind the ring does no harm exactly when
      500 is no pick, or one of the timers 0 to 7 is set when the walk comes to it. */
  lemma PastEndWord(q: Query, timer: Timers, numbers: seq<u16>)
    requires Intact(q) && AllBelow(numbers, q.seqno) && q.round + 6 < U8_LIMIT
    ensures AllLive(q, Picks(q, timer, numbers))
    ensures var picks := Picks(q, timer, numbers);
            QueuedFor(q, timer, numbers) == CopiesOf(q, picks) <==>
            forall j :: 0 <= j < |picks| && picks[j] == WINDOW_TX ==> WordBehind(Stamp(q, timer, picks[..j]))
  {
    var calls, picks := Calls(q, timer, numbers), Picks(q, timer, numbers);
    AnswersExactly(q, timer, numbers);
    CallsAreCallable(q, timer, numbers);
    PrefixDistinct(calls, MAX_RETX);
    assert !SecondTry(q, timer, calls);
    forall j | 0 <= j < |picks| ensures picks[j] == calls[j] && picks[..j] == calls[..j] {}
    assert WordsSet(q, timer, calls) <==>
      forall j :: 0 <= j < |picks| && picks[j] == WINDOW_TX ==> WordBehind(Stamp(q, timer, picks[..j]));
  }

  /** The walk itself sets the word: all timers are zero, number 1 is paced, 500 is queued. */
  lemma WalkSetsWord(q: Query, timer: Timers)
    requires Intact(q) && q.seqno == 501 && q.round == 100 && forall k :: 0 <= k < WINDOW_TX ==> timer[k] == 0
    ensures !WordBehind(timer)
    ensures QueuedFor(q, timer, Candidates([Hole(1, 2), Hole(500, 501)], q.seqno)) ==
            [CopyOf(q, 1).value, CopyOf(q, 500).value]
  {
    TwoHoles(q);
    assert TxSlot(1) == 1 && TxSlot(500) == 0 && Live(501, 1) && Live(501, 500);
    var first := Visit(q, Start(timer), 1);
    assert first.timer[1] == 106;
    TwoVisits(q, timer);
  }

  /** The walk itself clears the word: round 250 paces number 1 to zero, and number 1 is
      queued again in place of 500. */
  lemma WalkClearsWord(q: Query, timer: Timers)
    requires Intact(q) && q.seqno == 501 && q.round == 250
    requires timer[1] == 5 && forall k :: 0 <= k < POINTER_SIZE && k != 1 ==> timer[k] == 0
    ensures WordBehind(timer)
    ensures QueuedFor(q, timer, Candidates([Hole(1, 2), Hole(500, 501)], q.seqno)) ==
            [CopyOf(q, 1).value, CopyOf(q, 1).value]
  {
    TwoHoles(q);
    assert TxSlot(1) == 1 && TxSlot(500) == 0 && Live(501, 1) && Live(501, 500);
    var first := Visit(q, Start(timer), 1);
    assert !WordBehind(first.timer);
    TwoVisits(q, timer);
  }

  lemma TwoHoles(q: Query)
    requires q.seqno == 501
    ensures Candidates([Hole(1, 2), Hole(500, 501)], q.seqno) == [1, 500]
  {
    var holes := [Hole(1, 2), Hole(500, 501)];
    assert holes[..1] == [Hole(1, 2)] && holes[..1][..0] == [];
    assert Range(1, 2) == [1] && Range(500, 501) == [500];
    assert Candidates(holes[..1], q.seqno) == [1];
  }

  lemma TwoVisits(q: Query, timer: Timers)
    ensures WalkOver(q, Start(timer), [1, 500]) == Visit(q, Visit(q, Start(timer), 1), 500)
  {
    assert [1, 500][..1] == [1] && [1][..0] == [];
    assert WalkOver(q, Start(timer), [1]) == Visit(q, Start(timer), 1);
  }
}
