/** Pacing: between two retransmissions of one number the round advances by six. */
module ProtocolPacing {
  import opened VmacTypes
  import opened ReceiverWindow
  import opened SenderRing
  import opened WalkTheorems
  import opened WalkExact
  import opened WalkBuffers
  import opened Protocol
  import opened ProtocolSafety

  /** Later retransmissions of a number are at least six rounds above earlier ones. */
  ghost predicate SixApart(log: seq<Resent>) {
    forall i, j :: 0 <= i < j < |log| && log[i].frame.seqno == log[j].frame.seqno ==>
      log[i].dack.round + 6 <= log[j].dack.round
  }

  /** A live number's timer stands at least six above every round it was resent for. */
  ghost predicate TimersAhead(tx: Tx, log: seq<Resent>) {
    forall r :: r in log ==>
      r.frame.seqno < tx.seqno
      && (Live(tx.seqno, r.frame.seqno) ==> r.dack.round + 6 <= tx.timer[TxSlot(r.frame.seqno)])
  }

  /** A newer frame resets only the timer of the number it makes too old to ask for. */
  lemma SendKeepsTimers(tx: Tx, payload: seq<u8>, id: nat, log: seq<Resent>)
    requires TimersAhead(tx, log) && tx.seqno < U16_LIMIT - 1
    ensures TimersAhead(Transmit(tx, payload, id).0, log)
  {
    var tx' := Transmit(tx, payload, id).0;
    forall r | r in log && Live(tx'.seqno, r.frame.seqno)
      ensures tx'.timer[TxSlot(r.frame.seqno)] == tx.timer[TxSlot(r.frame.seqno)] && Live(tx.seqno, r.frame.seqno)
    {
      TxSlotsApart(r.frame.seqno, tx.seqno);
    }
  }

  /** The timers after a walk are those of the calls it reached, all stamped; what it queued
      are kept copies of these calls. */
  lemma {:induction false} ReachedCalls(q: Query, timer: Timers, calls: seq<u16>) returns (n: nat)
    requires Intact(q) && Callable(q, timer, calls)
    ensures n <= |calls|
    ensures var w := WalkOver(q, Start(timer), calls);
            && w.timer == Stamp(q, timer, calls[..n])
            && (w.counter < MAX_RETX ==> n == |calls|)
            && (forall frame :: frame in w.queued || w.skb2 == Some(frame) ==> frame.seqno in calls[..n])
  {
    n := |calls|;
    if calls != [] {
      var front, s := calls[..|calls| - 1], calls[|calls| - 1];
      assert calls == front + [s] && calls[..n] == calls;
      CallableFront(q, timer, front, s);
      var m := ReachedCalls(q, timer, front);
      var w := WalkOver(q, Start(timer), front);
      if w.counter >= MAX_RETX {
        n := m;
        assert calls[..n] == front[..n];
      } else {
        assert front[..m] == front;
        NextIsEligible(q, timer, front, s);
        StampSnoc(q, timer, front, s);
      }
    }
  }

  lemma CopiesDifferent(q: Query, picks: seq<u16>)
    requires Intact(q) && AllLive(q, picks) && Distinct(picks)
    ensures AllDifferent(CopiesOf(q, picks))
  {
    var copies := CopiesOf(q, picks);
    forall k | 0 <= k < |copies| ensures copies[k].seqno == picks[k] { assert picks[k] in picks; }
  }

  /** While pacing fits its byte, one walk queues no number twice, exactly if it makes no
      echo. */
  lemma EchoesDecide(q: Query, timer: Timers, calls: seq<u16>)
    requires Intact(q) && Callable(q, timer, calls) && !PacingWraps(q)
    ensures AllDifferent(QueuedFor(q, timer, calls)) <==> !Echoes(q, timer, calls)
  {
    if WordsSet(q, timer, calls) {
      CallsAnswered(q, timer, calls);
      CallsAccounted(q, timer, calls);
      TakeLive(q, calls);
      PrefixDistinct(calls, MAX_RETX);
      CopiesDifferent(q, Take(calls, MAX_RETX));
    } else {
      var j := FirstNull(q, timer, calls);
      var rest := calls[j + 1..];
      assert calls == calls[..j] + [WINDOW_TX] + rest;
      if j > 0 {
        NullWordRepeats(q, timer, calls[..j], rest);
        NullWordIsEcho(q, timer, calls, j);
      } else {
        assert calls == [WINDOW_TX] + rest;
        NullFirstIsNoEcho(q, timer, rest);
      }
    }
  }

  /** All calls before the null word found copies. */
  lemma NullWordIsEcho(q: Query, timer: Timers, calls: seq<u16>, j: nat)
    requires Intact(q) && Callable(q, timer, calls)
    requires 0 < j < |calls| && j < MAX_RETX && calls[j] == WINDOW_TX
    requires WordsSet(q, timer, calls[..j]) && !WordBehind(Stamp(q, timer, calls[..j]))
    ensures Echoes(q, timer, calls)
  {
    var front := calls[..j];
    forall x | x in front ensures x in calls {}
    CallsAnswered(q, timer, front);
    CallsAccounted(q, timer, front);
    assert EchoesAt(q, timer, front, calls[j]);
  }

  /** Calls that are not for 500 always find their copy. */
  lemma NoEchoWithout500(q: Query, timer: Timers, calls: seq<u16>)
    requires Intact(q) && AllLive(q, calls) && calls != []
    requires forall k :: 0 < k < |calls| ==> calls[k] != WINDOW_TX
    ensures !Echoes(q, timer, calls)
  {
    forall j | 0 <= j < |calls| ensures !EchoesAt(q, timer, calls[..j], calls[j]) {
      if j > 0 { assert calls[j] in calls && CopyOf(q, calls[j]).Some?; }
    }
  }

  lemma NullFirstIsNoEcho(q: Query, timer: Timers, rest: seq<u16>)
    requires Intact(q) && Callable(q, timer, [WINDOW_TX] + rest) && !PacingWraps(q) && !WordBehind(timer)
    ensures AllDifferent(QueuedFor(q, timer, [WINDOW_TX] + rest)) && !Echoes(q, timer, [WINDOW_TX] + rest)
  {
    var calls: seq<u16> := [WINDOW_TX] + rest;
    var timer' := timer[0 := Paced(q.round)];
    EmptyFirstCall(q, timer, rest);
    forall k | 0 <= k < |rest| ensures rest[k] != WINDOW_TX && rest[k] in calls {
      assert calls[0] == WINDOW_TX && calls[k + 1] == rest[k];
    }
    forall i, j | 0 <= i < j < |rest| ensures rest[i] != rest[j] {
      assert calls[i + 1] == rest[i] && calls[j + 1] == rest[j];
    }
    forall k | 0 < k < |calls| ensures calls[k] != WINDOW_TX { assert calls[k] == rest[k - 1]; }
    NoEchoWithout500(q, timer, calls);
    CallsAnswered(q, timer', rest);
    TakeLive(q, rest);
    PrefixDistinct(rest, MAX_RETX);
    CopiesDifferent(q, Take(rest, MAX_RETX));
  }

  /** The calls of an answer are live and unpaced. */
  lemma AnswerCalls(sys: System, dack: Dack)
    requires Sturdy(sys)
    ensures var q, calls := QueryOf(sys.tx, dack), CallsOf(sys.tx, dack);
            && Intact(q) && Callable(q, sys.tx.timer, calls)
            && Answering(sys, dack) == WalkOver(q, Start(sys.tx.timer), calls)
  {
    var q, numbers := QueryOf(sys.tx, dack), Candidates(dack.holes, sys.tx.seqno);
    CandidatesAreBelow(dack.holes, sys.tx.seqno);
    CallsAreCallable(q, sys.tx.timer, numbers);
    OnlyCallsCount(q, sys.tx.timer, numbers);
  }

  /** Answering leaves each timer it touches at round + 6, and queues only such numbers. */
  lemma AnswerStamps(sys: System, dack: Dack)
    requires Sturdy(sys) && dack.round + 6 < U8_LIMIT
    ensures var walk := Answering(sys, dack);
            && (forall s: u16 :: Live(sys.tx.seqno, s) ==> walk.timer[TxSlot(s)] >= sys.tx.timer[TxSlot(s)])
            && (forall frame :: frame in walk.queued ==>
                  && Live(sys.tx.seqno, frame.seqno)
                  && sys.tx.timer[TxSlot(frame.seqno)] <= dack.round
                  && walk.timer[TxSlot(frame.seqno)] == dack.round + 6)
  {
    AnswerCalls(sys, dack);
    var n := ReachedCalls(QueryOf(sys.tx, dack), sys.tx.timer, CallsOf(sys.tx, dack));
    var reached := CallsOf(sys.tx, dack)[..n];
    forall x | x in reached ensures x in CallsOf(sys.tx, dack) {}
    StampedReached(QueryOf(sys.tx, dack), sys.tx.timer, reached);
  }

  lemma StampedReached(q: Query, timer: Timers, reached: seq<u16>)
    requires q.round + 6 < U8_LIMIT && AllLive(q, reached) && forall x :: x in reached ==> Eligible(q, timer, x)
    ensures var after := Stamp(q, timer, reached);
            && (forall s: u16 :: Live(q.seqno, s) ==> after[TxSlot(s)] >= timer[TxSlot(s)])
            && (forall s :: s in reached ==> timer[TxSlot(s)] <= q.round && after[TxSlot(s)] == q.round + 6)
  {
    forall s: u16 | Live(q.seqno, s)
      ensures Stamp(q, timer, reached)[TxSlot(s)] == if s in reached then q.round + 6 else timer[TxSlot(s)]
    {
      StampAt(q, timer, reached, s);
    }
  }

  lemma AnswerKeepsTimers(sys: System, dack: Dack)
    requires Sturdy(sys) && TimersAhead(sys.tx, sys.resent) && dack.round + 6 < U8_LIMIT
    ensures var sys' := Step(sys, Answer(dack)); TimersAhead(sys'.tx, sys'.resent)
  {
    AnswerStamps(sys, dack);
    var walk, log := Answering(sys, dack), LogOf(sys, dack);
    forall r | r in log ensures r.frame in walk.queued && r.dack == dack {
      var k :| 0 <= k < |log| && log[k] == r;
      assert walk.queued[k] == r.frame;
    }
  }

  lemma LogJoins(log: seq<Resent>, more: seq<Resent>, queued: seq<Frame>, dack: Dack)
    requires SixApart(log) && |more| == |queued|
    requires forall k :: 0 <= k < |more| ==> more[k].frame == queued[k] && more[k].dack == dack
    requires forall r, frame :: r in log && frame in queued && r.frame.seqno == frame.seqno ==>
               r.dack.round + 6 <= dack.round
    ensures SixApart(log + more) <==> AllDifferent(queued)
  {
    var all, past := log + more, |log|;
    if AllDifferent(queued) {
      forall i, j | 0 <= i < j < |all| && all[i].frame.seqno == all[j].frame.seqno
        ensures all[i].dack.round + 6 <= all[j].dack.round
      {
        if i < past <= j {
          assert log[i] in log && queued[j - past] in queued;
        } else if past <= i {
          assert false;
        }
      }
    } else {
      var i, j :| 0 <= i < j < |queued| && queued[i].seqno == queued[j].seqno;
      assert all[past + i] == more[i] && all[past + j] == more[j];
    }
  }

  /** Answering a DACK whose round fits the pacing byte keeps all retransmissions of a number
      six rounds apart, exactly if the walk makes no echo. */
  lemma AnswerKeepsSixApart(sys: System, dack: Dack)
    requires Sturdy(sys) && SixApart(sys.resent) && TimersAhead(sys.tx, sys.resent) && dack.round + 6 < U8_LIMIT
    ensures SixApart(Step(sys, Answer(dack)).resent) <==> !MakesEcho(sys.tx, dack)
  {
    EchoesOfAnswer(sys, dack);
    LaterRounds(sys, dack);
    LogJoins(sys.resent, LogOf(sys, dack), Answering(sys, dack).queued, dack);
  }

  lemma EchoesOfAnswer(sys: System, dack: Dack)
    requires Sturdy(sys) && dack.round + 6 < U8_LIMIT
    ensures AllDifferent(Answering(sys, dack).queued) <==> !MakesEcho(sys.tx, dack)
  {
    AnswerCalls(sys, dack);
    EchoesDecide(QueryOf(sys.tx, dack), sys.tx.timer, CallsOf(sys.tx, dack));
  }

  lemma LaterRounds(sys: System, dack: Dack)
    requires Sturdy(sys) && TimersAhead(sys.tx, sys.resent) && dack.round + 6 < U8_LIMIT
    ensures forall r, frame ::
              r in sys.resent && frame in Answering(sys, dack).queued && r.frame.seqno == frame.seqno ==>
                r.dack.round + 6 <= dack.round
  {
    AnswerStamps(sys, dack);
  }

  /** Over every run and every interleaving of sends, arrivals and DACKs, if a number is
      retransmitted for round r1 and later for round r2, then r2 >= r1 + 6. */
  lemma {:induction false} EveryRunIsPaced(d: Discipline, tx: Tx, garbage: Window, before: u16, events: seq<Event>)
    requires d.counted && d.single && After(d, Initial(tx, garbage, before), events).Some?
    ensures var sys := After(d, Initial(tx, garbage, before), events).value;
            SixApart(sys.resent) && TimersAhead(sys.tx, sys.resent)
  {
    if events != [] {
      var front, e := events[..|events| - 1], events[|events| - 1];
      EveryRunIsPaced(d, tx, garbage, before, front);
      EveryRunIsSafe(d, tx, garbage, before, front);
      var mid := After(d, Initial(tx, garbage, before), front).value;
      match e
      case Send(payload) => SendKeepsTimers(mid.tx, payload, |mid.history|, mid.resent);
      case Answer(dack) => AnswerKeepsTimers(mid, dack); AnswerKeepsSixApart(mid, dack);
      case _ =>
    }
  }

  predicate LetsThrough(timer: u8, round: u16) {
    round >= timer
  }

  /** Six rounds of pacing is what the byte timer gives exactly when adding six to the round
      fits the byte: every round let through afterwards is then at least six above. */
  lemma PacingNeedsByte(round: u16)
    ensures (forall next: u16 :: LetsThrough(Paced(round), next) ==> next >= round + 6) <==> round + 6 < U8_LIMIT
  {
    if round + 6 >= U8_LIMIT {
      assert LetsThrough(Paced(round), Paced(round)) && Paced(round) < round + 6;
    }
  }
}
