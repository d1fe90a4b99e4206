/** Runs in which the words outside the two arrays do harm, so that the conditions of the
    safety and pacing theorems are not idle. */
module ProtocolFailures {
  import opened VmacTypes
  import opened ReceiverWindow
  import opened ReceiverTheorems
  import opened HoleScan
  import opened HoleScanTheorems
  import opened SenderRing
  import opened WalkTheorems
  import opened WalkExact
  import opened Protocol
  import opened ProtocolSafety
  import opened ProtocolPacing

  function Sends(payloads: seq<seq<u8>>): seq<Event> {
    seq(|payloads|, k requires 0 <= k < |payloads| => Send(payloads[k]))
  }

  /** Everything has been sent and nothing has arrived. */
  ghost predicate JustSent(sys: System, garbage: Window, payloads: seq<seq<u8>>) {
    && sys.tx.seqno == |payloads| && sys.history == payloads
    && sys.rx == Fresh(garbage) && sys.accepted == {} && sys.requests == [] && sys.resent == []
    && (forall s: u16 :: s < |payloads| ==> Frame(s, payloads[s]) in sys.air)
    && (forall k :: 0 <= k < WINDOW_TX && k < |payloads| ==> sys.tx.timer[k] == 0)
  }

  lemma AfterSnoc(d: Discipline, sys: System, events: seq<Event>, e: Event)
    requires After(d, sys, events).Some? && Enabled(d, After(d, sys, events).value, e)
    ensures After(d, sys, events + [e]) == Some(Step(After(d, sys, events).value, e))
  {
    assert (events + [e])[..|events|] == events;
  }

  lemma {:induction false} AllSent(d: Discipline, tx: Tx, garbage: Window, before: u16, payloads: seq<seq<u8>>)
    requires |payloads| < U16_LIMIT
    ensures After(d, Initial(tx, garbage, before), Sends(payloads)).Some?
    ensures JustSent(After(d, Initial(tx, garbage, before), Sends(payloads)).value, garbage, payloads)
  {
    if payloads != [] {
      var front, last := payloads[..|payloads| - 1], payloads[|payloads| - 1];
      AllSent(d, tx, garbage, before, front);
      assert Sends(payloads) == Sends(front) + [Send(last)] && payloads == front + [last];
      AfterSnoc(d, Initial(tx, garbage, before), Sends(front), Send(last));
      OneSent(After(d, Initial(tx, garbage, before), Sends(front)).value, garbage, front, last);
    }
  }

  lemma OneSent(sys: System, garbage: Window, front: seq<seq<u8>>, last: seq<u8>)
    requires JustSent(sys, garbage, front) && |front| < U16_LIMIT - 1
    ensures JustSent(Step(sys, Send(last)), garbage, front + [last])
  {
    var sys' := Step(sys, Send(last));
    forall k | 0 <= k < WINDOW_TX && k < |front| + 1 ensures sys'.tx.timer[k] == 0 {
      if |front| < WINDOW_TX { assert TxSlot(|front|) == |front|; }
    }
  }

  /** The first arrival of all: everything before it reads missing but, perhaps, number 0. */
  lemma FirstArrival(garbage: Window, s: u16, now: u64)
    requires 5 <= s < WINDOW
    ensures var (rx, outcome) := Arrive(Fresh(garbage), s, now);
            && outcome == Accepted(Some(s / 5))
            && rx.latest == s && rx.round == s && rx.lastin == s && rx.secondFrame == 0
            && (forall t: u16 :: 0 < t <= s ==> (MissingIn(rx.window)(t) <==> t < s))
  {
    var rx := Arrive(Fresh(garbage), s, now).0;
    forall t: u16 | 0 < t <= s ensures MissingIn(rx.window)(t) <==> t < s {
      AcceptedAt(Fresh(garbage), s, now, t);
    }
  }

  lemma RunEndsAt(m: nat -> bool, i: u16, re: u16, hi: u16)
    requires i <= re < hi && (forall s: nat :: i <= s < re ==> m(s)) && (re == hi - 1 || !m(re))
    ensures RunEnd(m, i, hi) == re
  {
    var atEnd := m(re);
    RunEndIsMaximal(m, i, hi);
  }

  lemma {:induction false} TooOldToWalk(q: Query, w: Walk, numbers: seq<u16>)
    requires forall s :: s in numbers ==> s < Oldest(q.seqno)
    ensures WalkOver(q, w, numbers) == w
  {
    if numbers != [] {
      var front, s := numbers[..|numbers| - 1], numbers[|numbers| - 1];
      assert numbers == front + [s] && s in numbers;
      assert forall x :: x in front ==> x in numbers;
      TooOldToWalk(q, w, front);
    }
  }

  /** The range below the oldest live number is walked without effect. */
  lemma WalkFromOldest(q: Query, w: Walk, le: u16, re: u16)
    requires le <= Oldest(q.seqno) <= re
    ensures WalkOver(q, w, Range(le, re)) == WalkOver(q, w, Range(Oldest(q.seqno), re))
  {
    RangeSplit(le, Oldest(q.seqno), re);
    RangeIs(le, Oldest(q.seqno));
    WalkJoin(q, w, Range(le, Oldest(q.seqno)), Range(Oldest(q.seqno), re));
    TooOldToWalk(q, w, Range(le, Oldest(q.seqno)));
  }

  /** Without a live 500 an answer makes no echo. */
  lemma NoEchoIfTooOld(sys: System, dack: Dack)
    requires Sturdy(sys) && !Live(sys.tx.seqno, WINDOW_TX)
    ensures !MakesEcho(sys.tx, dack)
  {
    AnswerCalls(sys, dack);
    var q, calls := QueryOf(sys.tx, dack), CallsOf(sys.tx, dack);
    if calls != [] {
      forall k | 0 < k < |calls| ensures calls[k] != WINDOW_TX { assert calls[k] in calls; }
      NoEchoWithout500(q, sys.tx.timer, calls);
    }
  }

  // ---- an echo ----

  /** 999 frames are sent, 505 is the only one to arrive, and its DACK is answered. */
  ghost function EchoEvents(payloads: seq<seq<u8>>, now: u64, dack: Dack): seq<Event>
    requires |payloads| == 999
  {
    Sends(payloads) + [Arrival(Frame(505, payloads[505]), now)] + [Build] + [Answer(dack)]
  }

  lemma OneGap(m: nat -> bool, i: u16, hi: u16)
    requires i < hi && forall s: nat :: i <= s < hi - 1 ==> m(s)
    requires m(i)
    ensures Gaps(m, hi, i) == [Hole(i, hi - 1)]
  {
    RunEndsAt(m, i, hi - 1, hi);
    assert Gaps(m, hi, hi) == [];
  }

  /** The one run of a scan whose whole range is missing but, perhaps, number 0. */
  lemma OneLongRun(w: Window, round: u16) returns (le: u16)
    requires 0 < round && 5 * round < WINDOW
    requires forall t: u16 :: 0 < t < 5 * round ==> MissingIn(w)(t)
    ensures le <= 1 && Runs(w, round) == [Hole(le, ScanEnd(round) - 1)]
  {
    var m, hi := MissingIn(w), ScanEnd(round);
    assert ScanStart(hi) == 0;
    le := if m(0) then 0 else 1;
    OneGap(m, le, hi);
    assert Gaps(m, hi, 0) == [Hole(le, hi - 1)];
  }

  /** Without a run that starts at a multiple of 700, the word before the window is idle. */
  lemma NoStrayRead(w: Window, before: u16, round: u16)
    requires forall run :: run in Runs(w, round) ==> !Wraps(run.le) || run.le <= ScanStart(ScanEnd(round)) + 1
    ensures Holes(w, before, round) == Runs(w, round)
  {
    HolesAreFirstRuns(w, before, round);
  }

  lemma CandidatesOfOne(hole: Hole, seqno: u16)
    requires hole.re <= seqno
    ensures Candidates([hole], seqno) == Range(hole.le, hole.re)
  {
    CandidatesSnoc([], hole, seqno);
    assert [] + [hole] == [hole];
  }

  lemma CandidatesOfTwo(a: Hole, b: Hole, seqno: u16)
    requires a.re <= seqno && b.re <= seqno
    ensures Candidates([a, b], seqno) == Range(a.le, a.re) + Range(b.le, b.re)
  {
    CandidatesOfOne(a, seqno);
    CandidatesSnoc([a], b, seqno);
    assert [a] + [b] == [a, b];
  }

  lemma FirstTwo(q: Query, w: Walk, a: u16, re: u16)
    requires a + 1 < re
    ensures WalkOver(q, w, Range(a, re)) == WalkOver(q, Visit(q, Visit(q, w, a), a + 1), Range(a + 2, re))
  {
    RangeCons(a, re);
    RangeCons(a + 1, re);
    WalkStarts(q, w, a, Range(a + 1, re));
    WalkStarts(q, Visit(q, w, a), a + 1, Range(a + 2, re));
  }

  lemma WalkStarts(q: Query, w: Walk, s: u16, rest: seq<u16>)
    ensures WalkOver(q, w, [s] + rest) == WalkOver(q, Visit(q, w, s), rest)
  {
    WalkJoin(q, w, [s], rest);
    assert [s][..0] == [];
  }

  /** The oldest live number is 499, and it is copied; 500 finds the word null and queues 499
      again. */
  lemma EchoOf499(q: Query, timer: Timers, le: u16, re: u16)
    requires q.seqno == 999 && q.round == 101 && Intact(q) && le <= 1 && 501 < re <= q.seqno
    requires forall k :: 0 <= k < WINDOW_TX ==> timer[k] == 0
    ensures var queued := QueuedFor(q, timer, Candidates([Hole(le, re)], q.seqno));
            |queued| >= 2 && queued[0] == queued[1] && queued[0].seqno == 499
  {
    var start, low := Start(timer), Oldest(q.seqno);
    CandidatesOfOne(Hole(le, re), q.seqno);
    WalkFromOldest(q, start, le, re);
    FirstTwo(q, start, low, re);
    assert Live(q.seqno, low) && Live(q.seqno, low + 1) && TxSlot(low) == 499 && TxSlot(low + 1) == 0;
    var first := Visit(q, start, low);
    assert first.timer == timer[499 := 107] && !WordBehind(first.timer);
    QueueGrows(q, Visit(q, first, low + 1), Range(low + 2, re));
  }

  /** The state in which the DACK of the echo is answered. */
  ghost predicate BeforeEcho(sys: System, dack: Dack) {
    && dack in sys.dacks && dack.round == 101 && sys.resent == []
    && (exists le: u16, re: u16 :: le <= 1 && 501 < re < 999 && dack.holes == [Hole(le, re)])
    && sys.tx.seqno == 999 && Intact(QueryOf(sys.tx, dack))
    && (forall k :: 0 <= k < WINDOW_TX ==> sys.tx.timer[k] == 0)
  }

  lemma EchoAnswered(sys: System, dack: Dack)
    requires BeforeEcho(sys, dack)
    ensures !SixApart(Step(sys, Answer(dack)).resent)
  {
    var le: u16, re: u16 :| le <= 1 && 501 < re < 999 && dack.holes == [Hole(le, re)];
    EchoOf499(QueryOf(sys.tx, dack), sys.tx.timer, le, re);
    var queued, log := Answering(sys, dack).queued, Step(sys, Answer(dack)).resent;
    assert log[0].frame == queued[0] && log[1].frame == queued[1] && log[0].dack == dack == log[1].dack;
  }

  lemma EchoBuilt(sent: System, garbage: Window, payloads: seq<seq<u8>>, now: u64) returns (dack: Dack)
    requires |payloads| == 999 && JustSent(sent, garbage, payloads) && Sturdy(sent)
    ensures var arrived := Step(sent, Arrival(Frame(505, payloads[505]), now));
            && arrived.requests == [101] && !Misleads(arrived, 101)
            && BeforeEcho(Step(arrived, Build), dack)
  {
    FirstArrival(garbage, 505, now);
    var arrived := Step(sent, Arrival(Frame(505, payloads[505]), now));
    assert arrived.requests == [101];
    dack := BuiltDack(arrived);
    var le := OneLongRun(arrived.rx.window, dack.round);
    NoStrayRead(arrived.rx.window, arrived.before, dack.round);
    assert dack.holes == [Hole(le, ScanEnd(dack.round) - 1)];
  }

  /** Whatever was sent and whatever memory held: a run with in-window arrivals and faithful
      scans, whose one answer has a round that fits the pacing byte, sends 499 twice for the
      same DACK. */
  lemma PacingFails(tx: Tx, garbage: Window, before: u16, payloads: seq<seq<u8>>, now: u64) returns (dack: Dack)
    requires |payloads| == 999
    ensures dack.round + 6 < U8_LIMIT
    ensures var d := Discipline(true, true, true, false);
            var end := After(d, Initial(tx, garbage, before), EchoEvents(payloads, now, dack));
            end.Some? && !SixApart(end.value.resent)
  {
    var d, sys0 := Discipline(true, true, true, false), Initial(tx, garbage, before);
    var events, arrival := Sends(payloads), Arrival(Frame(505, payloads[505]), now);
    AllSent(d, tx, garbage, before, payloads);
    EveryRunIsSafe(d, tx, garbage, before, events);
    var sent := After(d, sys0, events).value;
    dack := EchoBuilt(sent, garbage, payloads, now);
    AfterSnoc(d, sys0, events, arrival);
    AfterSnoc(d, sys0, events + [arrival], Build);
    AfterSnoc(d, sys0, events + [arrival] + [Build], Answer(dack));
    EchoAnswered(Step(Step(sent, arrival), Build), dack);
  }

  // ---- a misled scan ----

  /** 1199 frames are sent; 699 and 710 arrive, and the scan after the second is misled. */
  ghost function MisledEvents(payloads: seq<seq<u8>>, now: u64, dack: Dack): seq<Event>
    requires |payloads| == 1199
  {
    Sends(payloads) + [Arrival(Frame(699, payloads[699]), now)] + [Build]
    + [Arrival(Frame(710, payloads[710]), now)] + [Build] + [Answer(dack)]
  }

  /** What the window holds after 699 and then 710. */
  lemma SecondArrival(rx: Rx, now: u64)
    requires rx.latest == 699 == rx.lastin && rx.round == 699
    requires forall t: u16 :: 0 < t <= 699 ==> (MissingIn(rx.window)(t) <==> t < 699)
    ensures var (rx', outcome) := Arrive(rx, 710, now);
            && outcome == Accepted(Some(142))
            && (forall t: u16 :: 11 <= t <= 710 ==> (MissingIn(rx'.window)(t) <==> t != 699 && t != 710))
            && !MissingIn(rx'.window)(10)
  {
    var rx' := Arrive(rx, 710, now).0;
    forall t: u16 | 11 <= t <= 710 ensures MissingIn(rx'.window)(t) <==> t != 699 && t != 710 {
      AcceptedAt(rx, 710, now, t);
      assert t <= 699 ==> (MissingIn(rx.window)(t) <==> t < 699);
    }
    assert Slot(10) == Slot(710);
    AcceptedAt(rx, 710, now, 710);
  }

  /** The runs of [a, hi) when only a and mid read received before the last number. */
  lemma TwoGaps(m: nat -> bool, a: u16, mid: u16, hi: u16)
    requires a + 1 < mid < mid + 1 < hi && !m(a) && !m(mid)
    requires forall s: nat :: a + 1 <= s < hi && s != mid ==> m(s)
    ensures Gaps(m, hi, a) == [Hole(a + 1, mid), Hole(mid + 1, hi - 1)]
  {
    RunEndsAt(m, a + 1, mid, hi);
    OneGap(m, mid + 1, hi);
    assert Gaps(m, hi, a) == Gaps(m, hi, a + 1);
    assert Gaps(m, hi, a + 1) == [Hole(a + 1, mid)] + Gaps(m, hi, mid + 1);
  }

  lemma TwoRuns(w: Window, round: u16)
    requires round == 142 && !MissingIn(w)(10)
    requires forall t: u16 :: 11 <= t <= 710 ==> (MissingIn(w)(t) <==> t != 699 && t != 710)
    ensures Runs(w, round) == [Hole(11, 699), Hole(700, 709)]
  {
    TwoGaps(MissingIn(w), 10, 699, ScanEnd(round));
  }

  lemma MisledHoles(w: Window, round: u16) returns (le: u16)
    requires round == 142 && !MissingIn(w)(10)
    requires forall t: u16 :: 11 <= t <= 710 ==> (MissingIn(w)(t) <==> t != 699 && t != 710)
    ensures le < 700 && Holes(w, 0, round) == [Hole(11, 699), Hole(le, 709)]
  {
    TwoRuns(w, round);
    HoleOfRun(w, 0, round, 0);
    HoleOfRun(w, 0, round, 1);
    le := Holes(w, 0, round)[1].le;
  }

  /** The oldest live number, 699, is the first frame the answer queues. */
  lemma Asks699(q: Query, timer: Timers, le: u16, re: u16)
    requires q.seqno == 1199 && q.round == 142 && Intact(q) && le < 700 < re < q.seqno
    requires forall k :: 0 <= k < WINDOW_TX ==> timer[k] == 0
    ensures var queued := QueuedFor(q, timer, Candidates([Hole(11, 699), Hole(le, re)], q.seqno));
            queued != [] && queued[0].seqno == 699
  {
    var start, low := Start(timer), Oldest(q.seqno);
    CandidatesOfTwo(Hole(11, low), Hole(le, re), q.seqno);
    WalkJoin(q, start, Range(11, low), Range(le, re));
    RangeIs(11, low);
    TooOldToWalk(q, start, Range(11, low));
    WalkFromOldest(q, start, le, re);
    RangeCons(low, re);
    FirstQueued(q, timer, low, Range(low + 1, re));
  }

  /** The state in which the DACK of the misled scan is answered. */
  ghost predicate BeforeMisledAnswer(sys: System, dack: Dack) {
    && dack in sys.dacks && dack.round == 142 && 699 in dack.seen && sys.resent == []
    && (exists le: u16, re: u16 :: le < 700 < re < 1199 && dack.holes == [Hole(11, 699), Hole(le, re)])
    && sys.tx.seqno == 1199 && Intact(QueryOf(sys.tx, dack))
    && (forall k :: 0 <= k < WINDOW_TX ==> sys.tx.timer[k] == 0)
  }

  lemma MisledAnswered(sys: System, dack: Dack)
    requires BeforeMisledAnswer(sys, dack)
    ensures exists r :: r in Step(sys, Answer(dack)).resent && r.frame.seqno in r.dack.seen
  {
    var le: u16, re: u16 :| le < 700 < re < 1199 && dack.holes == [Hole(11, 699), Hole(le, re)];
    Asks699(QueryOf(sys.tx, dack), sys.tx.timer, le, re);
    var queued, log := Answering(sys, dack).queued, Step(sys, Answer(dack)).resent;
    assert log[0].frame == queued[0] && log[0].dack == dack && log[0] in log;
  }

  lemma MisledBuilt(mid: System, payloads: seq<seq<u8>>, now: u64) returns (dack: Dack)
    requires |payloads| == 1199 && Sturdy(mid) && mid.tx.seqno == 1199 && mid.before == 0
    requires mid.requests == [] && mid.resent == [] && 699 in mid.accepted
    requires forall k :: 0 <= k < WINDOW_TX ==> mid.tx.timer[k] == 0
    requires mid.rx.latest == 699 == mid.rx.lastin && mid.rx.round == 699
    requires forall t: u16 :: 0 < t <= 699 ==> (MissingIn(mid.rx.window)(t) <==> t < 699)
    ensures var arrived := Step(mid, Arrival(Frame(710, payloads[710]), now));
            && arrived.requests == [142]
            && BeforeMisledAnswer(Step(arrived, Build), dack)
  {
    SecondArrival(mid.rx, now);
    var arrived := Step(mid, Arrival(Frame(710, payloads[710]), now));
    assert arrived.requests == [142];
    dack := BuiltDack(arrived);
    var le := MisledHoles(arrived.rx.window, dack.round);
    assert dack.holes == [Hole(11, 699), Hole(le, 709)];
  }

  /** Whatever was sent and whatever memory held: a run with in-window arrivals retransmits
      699 for a DACK that was built after 699 had been accepted. */
  lemma SoundnessFails(tx: Tx, garbage: Window, before: u16, payloads: seq<seq<u8>>, now: u64) returns (dack: Dack)
    requires |payloads| == 1199 && before == 0
    ensures var d := Discipline(true, false, true, true);
            var end := After(d, Initial(tx, garbage, before), MisledEvents(payloads, now, dack));
            end.Some? && exists r :: r in end.value.resent && r.frame.seqno in r.dack.seen
  {
    var d, sys0 := Discipline(true, false, true, true), Initial(tx, garbage, before);
    var first, second := Arrival(Frame(699, payloads[699]), now), Arrival(Frame(710, payloads[710]), now);
    var events := Sends(payloads);
    AllSent(d, tx, garbage, before, payloads);
    FirstArrival(garbage, 699, now);
    AfterSnoc(d, sys0, events, first);
    AfterSnoc(d, sys0, events + [first], Build);
    var mid := After(d, sys0, events + [first] + [Build]).value;
    EveryRunIsSafe(d, tx, garbage, before, events + [first] + [Build]);
    dack := MisledBuilt(mid, payloads, now);
    NoEchoIfTooOld(mid, dack);
    SecondArrival(mid.rx, now);
    AfterSnoc(d, sys0, events + [first] + [Build], second);
    AfterSnoc(d, sys0, events + [first] + [Build] + [second], Build);
    AfterSnoc(d, sys0, events + [first] + [Build] + [second] + [Build], Answer(dack));
    MisledAnswered(Step(Step(mid, second), Build), dack);
  }

  // ---- a wrapped pacing byte ----

  /** What the window holds after 1250 as the first arrival of all. */
  lemma LateFirstArrival(garbage: Window, now: u64)
    ensures var (rx, outcome) := Arrive(Fresh(garbage), 1250, now);
            && outcome == Accepted(Some(250))
            && rx.latest == 1250 == rx.lastin && rx.round == 1250 && rx.secondFrame == 0
            && (forall t: u16 :: 551 <= t <= 1250 ==> (MissingIn(rx.window)(t) <==> t < 1250))
            && !MissingIn(rx.window)(550)
  {
    var rx := Arrive(Fresh(garbage), 1250, now).0;
    forall t: u16 | 551 <= t <= 1250 ensures MissingIn(rx.window)(t) <==> t < 1250 {
      AcceptedAt(Fresh(garbage), 1250, now, t);
    }
    assert Slot(550) == Slot(1250);
  }

  lemma LateSecondArrival(rx: Rx, now: u64)
    requires rx.latest == 1250 == rx.lastin && rx.round == 1250
    requires forall t: u16 :: 551 <= t <= 1250 ==> (MissingIn(rx.window)(t) <==> t < 1250)
    ensures var (rx', outcome) := Arrive(rx, 1255, now);
            && outcome == Accepted(Some(251))
            && (forall t: u16 :: 556 <= t <= 1255 ==> (MissingIn(rx'.window)(t) <==> t != 1250 && t != 1255))
            && !MissingIn(rx'.window)(555)
  {
    var rx' := Arrive(rx, 1255, now).0;
    forall t: u16 | 556 <= t <= 1255 ensures MissingIn(rx'.window)(t) <==> t != 1250 && t != 1255 {
      AcceptedAt(rx, 1255, now, t);
      assert t <= 1250 ==> (MissingIn(rx.window)(t) <==> t < 1250);
    }
    assert Slot(555) == Slot(1255);
    AcceptedAt(rx, 1255, now, 1255);
  }

  lemma HolesOf250(w: Window, before: u16, round: u16)
    requires round == 250 && !MissingIn(w)(550)
    requires forall t: u16 :: 551 <= t <= 1250 ==> (MissingIn(w)(t) <==> t < 1250)
    ensures Runs(w, round) == [Hole(551, 1249)] && Holes(w, before, round) == Runs(w, round)
  {
    var m, hi := MissingIn(w), ScanEnd(round);
    OneGap(m, 551, hi);
    assert Gaps(m, hi, 550) == Gaps(m, hi, 551);
    NoStrayRead(w, before, round);
  }

  lemma HolesOf251(w: Window, before: u16, round: u16)
    requires round == 251 && !MissingIn(w)(555)
    requires forall t: u16 :: 556 <= t <= 1255 ==> (MissingIn(w)(t) <==> t != 1250 && t != 1255)
    ensures Runs(w, round) == [Hole(556, 1250), Hole(1251, 1254)] && Holes(w, before, round) == Runs(w, round)
  {
    TwoGaps(MissingIn(w), 555, 1250, ScanEnd(round));
    NoStrayRead(w, before, round);
  }

  /** The oldest live number is asked for by the first hole, and all timers are clear. */
  ghost predicate AsksOldest(sys: System, dack: Dack) {
    && Sturdy(sys) && sys.tx.seqno == 1260
    && dack.holes != [] && dack.holes[0].le <= 760 < dack.holes[0].re <= 1260
    && (forall k :: 0 <= k < WINDOW_TX ==> sys.tx.timer[k] == 0)
  }

  lemma OldestGoesFirst(sys: System, dack: Dack)
    requires AsksOldest(sys, dack)
    ensures var log := LogOf(sys, dack); log != [] && log[0].frame.seqno == 760 && log[0].dack == dack
    ensures !MakesEcho(sys.tx, dack)
  {
    var q, start, first, low := QueryOf(sys.tx, dack), Start(sys.tx.timer), dack.holes[0], Oldest(sys.tx.seqno);
    NoEchoIfTooOld(sys, dack);
    assert dack.holes == [first] + dack.holes[1..];
    CandidatesCons(first, dack.holes[1..], q.seqno);
    WalkJoin(q, start, Range(first.le, first.re), Candidates(dack.holes[1..], q.seqno));
    WalkFromOldest(q, start, first.le, first.re);
    RangeCons(low, first.re);
    FirstQueued(q, sys.tx.timer, low, Range(low + 1, first.re));
    QueueGrows(q, WalkOver(q, start, Range(first.le, first.re)), Candidates(dack.holes[1..], q.seqno));
  }

  /** Each timer after a walk is as before or paced. */
  lemma {:induction false} TimersPaced(q: Query, w: Walk, numbers: seq<u16>, k: nat)
    requires k < WINDOW_TX
    ensures WalkOver(q, w, numbers).timer[k] == w.timer[k] || WalkOver(q, w, numbers).timer[k] == Paced(q.round)
  {
    if numbers != [] { TimersPaced(q, w, numbers[..|numbers| - 1], k); }
  }

  /** The first half: the DACK for round 250 is answered, and paces everything to zero. */
  lemma WrapFirstHalf(sent: System, garbage: Window, payloads: seq<seq<u8>>, now: u64) returns (dack: Dack)
    requires |payloads| == 1260 && JustSent(sent, garbage, payloads) && Sturdy(sent)
    ensures var arrived := Step(sent, Arrival(Frame(1250, payloads[1250]), now));
            && arrived.requests == [250] && !Misleads(arrived, 250)
            && var built := Step(arrived, Build);
               dack in built.dacks && dack.round == 250 && built.requests == [] && built.resent == []
               && built.tx == sent.tx && built.rx == arrived.rx && built.air == sent.air
               && (Sturdy(built) ==> AsksOldest(built, dack))
  {
    LateFirstArrival(garbage, now);
    var arrived := Step(sent, Arrival(Frame(1250, payloads[1250]), now));
    assert arrived.requests == [250];
    dack := BuiltDack(arrived);
    HolesOf250(arrived.rx.window, arrived.before, dack.round);
  }

  lemma WrapSecondHalf(mid: System, payloads: seq<seq<u8>>, now: u64) returns (dack: Dack)
    requires |payloads| == 1260 && mid.tx.seqno == 1260 && mid.requests == []
    requires mid.rx.latest == 1250 == mid.rx.lastin && mid.rx.round == 1250
    requires forall t: u16 :: 551 <= t <= 1250 ==> (MissingIn(mid.rx.window)(t) <==> t < 1250)
    requires forall k :: 0 <= k < WINDOW_TX ==> mid.tx.timer[k] == 0
    ensures var arrived := Step(mid, Arrival(Frame(1255, payloads[1255]), now));
            && arrived.requests == [251] && !Misleads(arrived, 251)
            && var built := Step(arrived, Build);
               dack in built.dacks && dack.round == 251 && built.resent == mid.resent
               && (Sturdy(built) ==> AsksOldest(built, dack))
  {
    LateSecondArrival(mid.rx, now);
    var arrived := Step(mid, Arrival(Frame(1255, payloads[1255]), now));
    assert arrived.requests == [251];
    dack := BuiltDack(arrived);
    HolesOf251(arrived.rx.window, arrived.before, dack.round);
  }

  ghost function WrapStart(payloads: seq<seq<u8>>, now: u64, first: Dack): seq<Event>
    requires |payloads| == 1260
  {
    Sends(payloads) + [Arrival(Frame(1250, payloads[1250]), now)] + [Build] + [Answer(first)]
  }

  /** 1260 frames are sent, only 1250 and 1255 arrive, and both their DACKs are answered. */
  ghost function WrapEvents(payloads: seq<seq<u8>>, now: u64, first: Dack, second: Dack): seq<Event>
    requires |payloads| == 1260
  {
    WrapStart(payloads, now, first) + [Arrival(Frame(1255, payloads[1255]), now)] + [Build] + [Answer(second)]
  }

  /** The state after the first answer. */
  ghost predicate Halfway(sys: System, payloads: seq<seq<u8>>)
    requires |payloads| == 1260
  {
    && sys.tx.seqno == 1260 && sys.requests == [] && Frame(1255, payloads[1255]) in sys.air
    && sys.rx.latest == 1250 == sys.rx.lastin && sys.rx.round == 1250 && sys.rx.secondFrame == 0
    && (forall t: u16 :: 551 <= t <= 1250 ==> (MissingIn(sys.rx.window)(t) <==> t < 1250))
    && (forall k :: 0 <= k < WINDOW_TX ==> sys.tx.timer[k] == 0)
    && sys.resent != [] && sys.resent[0].frame.seqno == 760 && sys.resent[0].dack.round == 250
  }

  lemma StaysHalfway(half: System, dack: Dack, payloads: seq<seq<u8>>)
    requires |payloads| == 1260 && half.tx.seqno == 1260 && half.requests == []
    requires Frame(1255, payloads[1255]) in half.air
    requires half.rx.latest == 1250 == half.rx.lastin && half.rx.round == 1250 && half.rx.secondFrame == 0
    requires forall t: u16 :: 551 <= t <= 1250 ==> (MissingIn(half.rx.window)(t) <==> t < 1250)
    requires AsksOldest(half, dack) && half.resent == [] && dack.round == 250
    requires var log := LogOf(half, dack); log != [] && log[0].frame.seqno == 760 && log[0].dack == dack
    ensures Halfway(Step(half, Answer(dack)), payloads)
  {
    forall k | 0 <= k < WINDOW_TX ensures Step(half, Answer(dack)).tx.timer[k] == 0 {
      TimersPaced(QueryOf(half.tx, dack), Start(half.tx.timer), Candidates(dack.holes, half.tx.seqno), k);
    }
  }

  lemma WrapHalf(tx: Tx, garbage: Window, before: u16, payloads: seq<seq<u8>>, now: u64) returns (first: Dack)
    requires |payloads| == 1260
    ensures first.round == 250
    ensures var d := Discipline(true, true, false, true);
            var mid := After(d, Initial(tx, garbage, before), WrapStart(payloads, now, first));
            mid.Some? && Halfway(mid.value, payloads)
  {
    var d, sys0, events := Discipline(true, true, false, true), Initial(tx, garbage, before), Sends(payloads);
    AllSent(d, tx, garbage, before, payloads);
    EveryRunIsSafe(d, tx, garbage, before, events);
    var sent := After(d, sys0, events).value;
    LateFirstArrival(garbage, now);
    first := WrapFirstHalf(sent, garbage, payloads, now);
    var half := AnswerAfterBuild(d, tx, garbage, before, events, Arrival(Frame(1250, payloads[1250]), now), first);
    StaysHalfway(half, first, payloads);
  }

  /** Whatever was sent and whatever memory held: a run with in-window arrivals, faithful scans
      and no echo, in which number 760 is sent again for round 250 and once more for 251. */
  lemma PacingWrapFails(tx: Tx, garbage: Window, before: u16, payloads: seq<seq<u8>>, now: u64)
    returns (first: Dack, second: Dack)
    requires |payloads| == 1260
    ensures first.round == 250 && second.round == 251
    ensures var d := Discipline(true, true, false, true);
            var end := After(d, Initial(tx, garbage, before), WrapEvents(payloads, now, first, second));
            end.Some? && !SixApart(end.value.resent)
  {
    var d, late := Discipline(true, true, false, true), Arrival(Frame(1255, payloads[1255]), now);
    first := WrapHalf(tx, garbage, before, payloads, now);
    var events := WrapStart(payloads, now, first);
    var mid := After(d, Initial(tx, garbage, before), events).value;
    LateSecondArrival(mid.rx, now);
    second := WrapSecondHalf(mid, payloads, now);
    var full := AnswerAfterBuild(d, tx, garbage, before, events, late, second);
    TwiceTooClose(mid.resent, LogOf(full, second));
  }

  lemma TwiceTooClose(log: seq<Resent>, more: seq<Resent>)
    requires log != [] && more != [] && log[0].frame.seqno == more[0].frame.seqno
    requires log[0].dack.round == 250 && more[0].dack.round == 251
    ensures !SixApart(log + more)
  {
    assert (log + more)[0] == log[0] && (log + more)[|log|] == more[0];
  }

  /** An arrival, a scan that is not misled, and an answer without an echo go on a run. */
  lemma AnswerAfterBuild(
    d: Discipline, tx: Tx, garbage: Window, before: u16, events: seq<Event>, arrival: Event, dack: Dack)
    returns (built: System)
    requires d == Discipline(true, true, false, true) && arrival.Arrival?
    requires After(d, Initial(tx, garbage, before), events).Some?
    requires var sys := After(d, Initial(tx, garbage, before), events).value;
             && Enabled(d, sys, arrival)
             && var arrived := Step(sys, arrival);
                arrived.requests != [] && !Misleads(arrived, arrived.requests[0])
                && dack in Step(arrived, Build).dacks
                && (Sturdy(Step(arrived, Build)) ==> AsksOldest(Step(arrived, Build), dack))
    ensures built == Step(Step(After(d, Initial(tx, garbage, before), events).value, arrival), Build)
    ensures Sturdy(built) && AsksOldest(built, dack)
    ensures var log := LogOf(built, dack); log != [] && log[0].frame.seqno == 760 && log[0].dack == dack
    ensures After(d, Initial(tx, garbage, before), events + [arrival] + [Build] + [Answer(dack)]) ==
            Some(Step(built, Answer(dack)))
  {
    var sys0 := Initial(tx, garbage, before);
    AfterSnoc(d, sys0, events, arrival);
    AfterSnoc(d, sys0, events + [arrival], Build);
    EveryRunIsSafe(d, tx, garbage, before, events + [arrival] + [Build]);
    built := After(d, sys0, events + [arrival] + [Build]).value;
    OldestGoesFirst(built, dack);
    AfterSnoc(d, sys0, events + [arrival] + [Build], Answer(dack));
  }
}
