/** Exactly which numbers an answer sends again, in one walk and over whole runs: those asked
    for, among the last 500 sent, and not sent again for any of the last five rounds. */
module AnswerLaws {
  import opened VmacTypes
  import opened ReceiverWindow
  import opened SenderRing
  import opened WalkTheorems
  import opened Protocol
  import opened ProtocolSafety

  ghost predicate Queued(frames: seq<Frame>, s: u16) {
    exists frame :: frame in frames && frame.seqno == s
  }

  /** Number s of the list is met at k, with budget left. */
  ghost predicate MetAt(q: Query, timer: Timers, numbers: seq<u16>, s: u16, k: int) {
    0 <= k < |numbers| && numbers[k] == s && WalkOver(q, Start(timer), numbers[..k]).counter < 20
  }

  ghost predicate Met(q: Query, timer: Timers, numbers: seq<u16>, s: u16) {
    exists k :: MetAt(q, timer, numbers, s, k)
  }

  /** What a walk did with number s: it was queued exactly if it was met, is one of the last
      500, and its timer was no later than the round; and then the timer is six above. */
  ghost predicate Treated(q: Query, timer: Timers, numbers: seq<u16>, s: u16, w: Walk) {
    && (Queued(w.queued, s) <==>
          Met(q, timer, numbers, s) && q.seqno <= s + 500 && timer[s % 500] <= q.round)
    && (s < q.seqno <= s + 500 ==>
          w.timer[s % 500] == if Queued(w.queued, s) then (q.round + 6) % 256 else timer[s % 500])
  }

  lemma QueuedSnoc(frames: seq<Frame>, frame: Frame, s: u16)
    ensures Queued(frames + [frame], s) <==> Queued(frames, s) || frame.seqno == s
  {
    assert frame in frames + [frame];
    if Queued(frames, s) {
      var kept :| kept in frames && kept.seqno == s;
      assert kept in frames + [frame];
    }
  }

  lemma MetSnoc(q: Query, timer: Timers, front: seq<u16>, x: u16, s: u16)
    ensures Met(q, timer, front + [x], s) <==>
            Met(q, timer, front, s) || (x == s && WalkOver(q, Start(timer), front).counter < 20)
  {
    var numbers := front + [x];
    assert numbers[..|front|] == front && numbers[|front|] == x;
    if Met(q, timer, front, s) {
      var k :| MetAt(q, timer, front, s, k);
      assert numbers[..k] == front[..k] && MetAt(q, timer, numbers, s, k);
    }
    if x == s && WalkOver(q, Start(timer), front).counter < 20 { assert MetAt(q, timer, numbers, s, |front|); }
    if Met(q, timer, numbers, s) {
      var k :| MetAt(q, timer, numbers, s, k);
      if k < |front| { assert numbers[..k] == front[..k] && MetAt(q, timer, front, s, k); }
    }
  }

  /** The last copy made is on the queue. */
  ghost predicate LastIsQueued(w: Walk) {
    w.skb2.Some? ==> Queued(w.queued, w.skb2.value.seqno)
  }

  lemma VisitKeepsLast(q: Query, w: Walk, x: u16)
    requires LastIsQueued(w)
    ensures LastIsQueued(Visit(q, w, x))
  {
    var after := Visit(q, w, x);
    if after.queued != w.queued { QueuedSnoc(w.queued, after.skb2.value, after.skb2.value.seqno); }
  }

  /** A visit queues the number, or nothing new. */
  lemma VisitQueues(q: Query, w: Walk, x: u16, s: u16)
    requires Intact(q) && x < q.seqno && LastIsQueued(w) && s != WINDOW_TX
    ensures var after := Visit(q, w, x);
            Queued(after.queued, s) <==>
              Queued(w.queued, s) || (x == s && w.counter < MAX_RETX && Eligible(q, w.timer, x))
  {
    var after := Visit(q, w, x);
    if w.counter < MAX_RETX && Eligible(q, w.timer, x) {
      assert Live(q.seqno, x);
      if after.skb2.Some? { QueuedSnoc(w.queued, after.skb2.value, s); }
    }
  }

  lemma VisitPaces(q: Query, w: Walk, x: u16, s: u16)
    requires Live(q.seqno, s) && x < q.seqno
    ensures var paced := x == s && w.counter < MAX_RETX && Eligible(q, w.timer, x);
            Visit(q, w, x).timer[TxSlot(s)] == if paced then Paced(q.round) else w.timer[TxSlot(s)]
  {
    if x < s && x >= Oldest(q.seqno) { TxSlotsApart(x, s); } else if s < x { TxSlotsApart(s, x); }
  }

  lemma NextTreated(q: Query, timer: Timers, front: seq<u16>, x: u16, s: u16, w: Walk)
    requires Intact(q) && x < q.seqno && s != WINDOW_TX && s < q.seqno
    requires w == WalkOver(q, Start(timer), front) && LastIsQueued(w) && Treated(q, timer, front, s, w)
    ensures Treated(q, timer, front + [x], s, Visit(q, w, x))
  {
    MetSnoc(q, timer, front, x, s);
    VisitQueues(q, w, x, s);
    if Live(q.seqno, s) { VisitPaces(q, w, x, s); }
  }

  /** For any numbers, round, timers and word behind the ring: a number below seq, other than
      500, is queued exactly if the walk meets it with budget left, it is one of the last 500,
      and its timer was no later than the round; its timer is then six above the round, in a
      byte, and otherwise unchanged. */
  lemma {:induction false} QueuedExactly(q: Query, timer: Timers, numbers: seq<u16>, s: u16)
    requires Intact(q) && AllBelow(numbers, q.seqno) && s != 500 && s < q.seqno
    ensures var w := WalkOver(q, Start(timer), numbers);
            Treated(q, timer, numbers, s, w) && LastIsQueued(w)
  {
    if numbers != [] {
      var front, x := numbers[..|numbers| - 1], numbers[|numbers| - 1];
      assert numbers == front + [x] && x in numbers;
      assert forall y :: y in front ==> y in numbers;
      QueuedExactly(q, timer, front, s);
      NextTreated(q, timer, front, x, s, WalkOver(q, Start(timer), front));
      VisitKeepsLast(q, WalkOver(q, Start(timer), front), x);
    }
  }

  lemma {:induction false} BudgetShrinks(q: Query, timer: Timers, numbers: seq<u16>, k: nat)
    requires k <= |numbers|
    ensures WalkOver(q, Start(timer), numbers[..k]).counter <= WalkOver(q, Start(timer), numbers).counter
  {
    assert numbers == numbers[..k] + numbers[k..];
    WalkJoin(q, Start(timer), numbers[..k], numbers[k..]);
    QueueGrows(q, WalkOver(q, Start(timer), numbers[..k]), numbers[k..]);
  }

  /** A walk that ends with budget left queues a number other than 500 exactly if the list has
      it, it is one of the last 500, and its timer was no later than the round. */
  lemma AskedIsQueued(q: Query, timer: Timers, numbers: seq<u16>, s: u16)
    requires Intact(q) && AllBelow(numbers, q.seqno) && s != 500
    requires WalkOver(q, Start(timer), numbers).counter < 20
    ensures Queued(WalkOver(q, Start(timer), numbers).queued, s) <==>
            s in numbers && s < q.seqno <= s + 500 && timer[s % 500] <= q.round
  {
    if s < q.seqno {
      QueuedExactly(q, timer, numbers, s);
      if s in numbers {
        var k :| 0 <= k < |numbers| && numbers[k] == s;
        BudgetShrinks(q, timer, numbers, k);
        assert MetAt(q, timer, numbers, s, k);
      }
    } else {
      WalkQueuesCandidates(q, timer, numbers);
    }
  }

  /** Number 500 is met with budget left and a timer the round has reached, while one of the
      timers 0 to 7 is set. */
  ghost predicate FoundAt(q: Query, timer: Timers, numbers: seq<u16>, k: int) {
    && MetAt(q, timer, numbers, 500, k)
    && var met := WalkOver(q, Start(timer), numbers[..k]).timer;
       met[0] <= q.round && exists j :: 0 <= j < 8 && met[j] != 0
  }

  /** Number 500 is queued exactly if, live, it is found so at some turn of the walk. */
  lemma {:induction false} FiveHundredExactly(q: Query, timer: Timers, numbers: seq<u16>)
    requires Intact(q) && AllBelow(numbers, q.seqno)
    ensures LastIsQueued(WalkOver(q, Start(timer), numbers))
    ensures Queued(WalkOver(q, Start(timer), numbers).queued, 500) <==>
            q.seqno <= 1000 && exists k :: FoundAt(q, timer, numbers, k)
  {
    if numbers != [] {
      var front, x := numbers[..|numbers| - 1], numbers[|numbers| - 1];
      assert numbers == front + [x] && x in numbers;
      assert forall y :: y in front ==> y in numbers;
      FiveHundredExactly(q, timer, front);
      var w := WalkOver(q, Start(timer), front);
      VisitKeepsLast(q, w, x);
      VisitQueues500(q, w, x);
      assert numbers[..|front|] == front;
      forall k | 0 <= k < |front| ensures FoundAt(q, timer, numbers, k) <==> FoundAt(q, timer, front, k) {
        assert numbers[..k] == front[..k];
      }
      assert FoundAt(q, timer, numbers, |front|) <==>
        x == 500 && w.counter < 20 && w.timer[0] <= q.round && WordBehind(w.timer);
    }
  }

  lemma VisitQueues500(q: Query, w: Walk, x: u16)
    requires Intact(q) && x < q.seqno && LastIsQueued(w)
    ensures var after := Visit(q, w, x);
            Queued(after.queued, 500) <==>
              || Queued(w.queued, 500)
              || (x == 500 && q.seqno <= 1000 && w.counter < 20 && w.timer[0] <= q.round && WordBehind(w.timer))
  {
    var after := Visit(q, w, x);
    assert TxSlot(500) == 0;
    if w.counter < MAX_RETX && Eligible(q, w.timer, x) {
      assert Live(q.seqno, x);
      if after.skb2.Some? { QueuedSnoc(w.queued, after.skb2.value, 500); }
    }
  }

  // ---- over runs ----

  lemma {:induction false} CandidatesHold(holes: seq<Hole>, seqno: u16, s: u16)
    ensures s in Candidates(holes, seqno) <==> s < seqno && exists hole :: hole in holes && hole.le <= s < hole.re
  {
    CandidatesAreBelow(holes, seqno);
    if holes != [] {
      var front, last := holes[..|holes| - 1], holes[|holes| - 1];
      CandidatesHold(front, seqno, s);
      RangeIs(last.le, Min(last.re, seqno));
      if s < seqno && last.le <= s < last.re { assert Range(last.le, Min(last.re, seqno))[s - last.le] == s; }
      forall hole | hole in holes ensures hole in front || hole == last {}
    }
  }

  /** The timer of a live number other than 500 is six above the latest round it was sent
      again for, and zero if it was not. */
  ghost predicate TimerTells(sys: System, s: u16) {
    var timer := sys.tx.timer[s % 500];
    && (forall r :: r in sys.resent && r.frame.seqno == s ==> r.dack.round + 6 <= timer)
    && (timer == 0 || exists r :: r in sys.resent && r.frame.seqno == s && r.dack.round + 6 == timer)
  }

  ghost predicate TimersTell(sys: System) {
    && (forall r :: r in sys.resent ==> r.frame.seqno < sys.tx.seqno)
    && (forall s: u16 :: s < sys.tx.seqno <= s + 500 && s != 500 ==> TimerTells(sys, s))
  }

  lemma SendTells(sys: System, payload: seq<u8>)
    requires TimersTell(sys) && sys.tx.seqno < U16_LIMIT - 1
    ensures TimersTell(Step(sys, Send(payload)))
  {
    var sys' := Step(sys, Send(payload));
    forall s: u16 | s < sys'.tx.seqno <= s + 500 && s != 500 ensures TimerTells(sys', s) {
      if s < sys.tx.seqno {
        TxSlotsApart(s, sys.tx.seqno);
        assert TimerTells(sys, s);
      }
    }
  }

  lemma LogTells(sys: System, dack: Dack, s: u16)
    ensures (exists r :: r in LogOf(sys, dack) && r.frame.seqno == s) <==> Queued(Answering(sys, dack).queued, s)
    ensures forall r :: r in LogOf(sys, dack) ==> r.dack == dack
  {
    var log, queued := LogOf(sys, dack), Answering(sys, dack).queued;
    if Queued(queued, s) {
      var k :| 0 <= k < |queued| && queued[k].seqno == s;
      assert log[k] in log;
    }
    forall r | r in log ensures r.dack == dack && r.frame in queued {
      var k :| 0 <= k < |log| && log[k] == r;
      assert queued[k] == r.frame;
    }
  }

  lemma AnswerTreats(sys: System, dack: Dack, s: u16)
    requires Sturdy(sys) && s != 500 && s < sys.tx.seqno
    ensures Treated(QueryOf(sys.tx, dack), sys.tx.timer, Candidates(dack.holes, sys.tx.seqno), s, Answering(sys, dack))
  {
    CandidatesAreBelow(dack.holes, sys.tx.seqno);
    QueuedExactly(QueryOf(sys.tx, dack), sys.tx.timer, Candidates(dack.holes, sys.tx.seqno), s);
  }

  lemma AnswerTellsOf(sys: System, dack: Dack, s: u16)
    requires Sturdy(sys) && TimerTells(sys, s) && dack.round + 6 < U8_LIMIT
    requires s < sys.tx.seqno <= s + 500 && s != 500
    ensures TimerTells(Step(sys, Answer(dack)), s)
  {
    var sys', log := Step(sys, Answer(dack)), LogOf(sys, dack);
    AnswerTreats(sys, dack, s);
    LogTells(sys, dack, s);
    if Queued(Answering(sys, dack).queued, s) {
      var r :| r in log && r.frame.seqno == s;
      assert r in sys'.resent && r.dack.round + 6 == sys'.tx.timer[s % 500];
    } else if sys.tx.timer[s % 500] != 0 {
      var r :| r in sys.resent && r.frame.seqno == s && r.dack.round + 6 == sys.tx.timer[s % 500];
      assert r in sys'.resent;
    }
  }

  lemma AnswerTells(sys: System, dack: Dack)
    requires Sturdy(sys) && TimersTell(sys) && dack.round + 6 < U8_LIMIT
    ensures TimersTell(Step(sys, Answer(dack)))
  {
    var sys' := Step(sys, Answer(dack));
    LoggedFrames(sys, dack);
    forall s: u16 | s < sys'.tx.seqno <= s + 500 && s != 500 ensures TimerTells(sys', s) {
      assert TimerTells(sys, s);
      AnswerTellsOf(sys, dack, s);
    }
  }

  lemma StepTells(d: Discipline, sys: System, e: Event)
    requires Sturdy(sys) && TimersTell(sys) && d.counted && Enabled(d, sys, e)
    ensures TimersTell(Step(sys, e))
  {
    match e
    case Send(payload) => SendTells(sys, payload);
    case Answer(dack) => AnswerTells(sys, dack);
    case _ =>
      var sys' := Step(sys, e);
      assert sys'.tx == sys.tx && sys'.resent == sys.resent;
      forall s: u16 | s < sys'.tx.seqno <= s + 500 && s != 500 ensures TimerTells(sys', s) {
        assert TimerTells(sys, s);
      }
  }

  lemma {:induction false} EveryTimerTells(d: Discipline, tx: Tx, garbage: Window, before: u16, events: seq<Event>)
    requires d.counted && After(d, Initial(tx, garbage, before), events).Some?
    ensures TimersTell(After(d, Initial(tx, garbage, before), events).value)
  {
    if events != [] {
      var front, e := events[..|events| - 1], events[|events| - 1];
      EveryTimerTells(d, tx, garbage, before, front);
      EveryRunIsSafe(d, tx, garbage, before, front);
      StepTells(d, After(d, Initial(tx, garbage, before), front).value, e);
    }
  }

  /** In every run of answers whose rounds fit the pacing byte: an answer that ends with budget
      left sends a number other than 500 again exactly if the DACK asks for it, it is one of
      the last 500 sent, and each time it was sent again before was for a round at least six
      below. */
  lemma EveryAnswerResends(
    d: Discipline, tx: Tx, garbage: Window, before: u16, events: seq<Event>, dack: Dack, s: u16)
    requires d.counted && After(d, Initial(tx, garbage, before), events).Some?
    requires var sys := After(d, Initial(tx, garbage, before), events).value;
             dack in sys.dacks && Answering(sys, dack).counter < 20
    requires s != 500
    ensures var sys := After(d, Initial(tx, garbage, before), events).value;
            Queued(Answering(sys, dack).queued, s) <==>
              && s < |sys.history| <= s + 500
              && (exists hole :: hole in dack.holes && hole.le <= s < hole.re)
              && (forall r :: r in sys.resent && r.frame.seqno == s ==> r.dack.round + 6 <= dack.round)
  {
    EveryRunIsSafe(d, tx, garbage, before, events);
    EveryTimerTells(d, tx, garbage, before, events);
    var sys := After(d, Initial(tx, garbage, before), events).value;
    CandidatesAreBelow(dack.holes, sys.tx.seqno);
    CandidatesHold(dack.holes, sys.tx.seqno, s);
    AskedIsQueued(QueryOf(sys.tx, dack), sys.tx.timer, Candidates(dack.holes, sys.tx.seqno), s);
    if s < sys.tx.seqno <= s + 500 { assert TimerTells(sys, s); }
  }
}
