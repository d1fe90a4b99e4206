/** Safety of every run: what is retransmitted is what was first sent; and it was missing,
    exactly unless the word before the window misled the scan. */
module ProtocolSafety {
  import opened VmacTypes
  import opened ReceiverWindow
  import opened ReceiverTheorems
  import opened HoleScan
  import opened HoleScanTheorems
  import opened SenderRing
  import opened WalkTheorems
  import opened WalkBuffers
  import opened Protocol

  /** The ring holds, for each of the last 500 numbers, the frame first sent with it. */
  ghost predicate RingHolds(tx: Tx, history: seq<seq<u8>>) {
    && tx.seqno == |history|
    && forall s: u16 :: Live(tx.seqno, s) ==>
         tx.copies[TxSlot(s)].Some? && tx.copies[TxSlot(s)].value.frame == Frame(s, history[s])
  }

  ghost predicate Genuine(frame: Frame, history: seq<seq<u8>>) {
    frame.seqno < |history| && frame.payload == history[frame.seqno]
  }

  ghost predicate Increasing(rounds: seq<u16>) {
    forall i, j :: 0 <= i < j < |rounds| ==> rounds[i] < rounds[j]
  }

  /** Rounds are asked for and built in increasing order, and never run ahead of `latest`. */
  ghost predicate RoundsInOrder(sys: System) {
    && Triggered(sys.rx)
    && Increasing(sys.built + sys.requests)
    && (forall r :: r in sys.requests ==> 0 < r <= sys.rx.round / 5)
    && (forall r :: r in sys.built ==> r <= sys.rx.round / 5)
  }

  /** No live number under the DACK's holes had been accepted when it was built. */
  ghost predicate Truthful(dack: Dack, seqno: u16) {
    forall hole :: hole in dack.holes ==>
      hole.re <= seqno && forall s: u16 :: hole.le <= s < hole.re && Live(seqno, s) ==> s !in dack.seen
  }

  /** What every run keeps. */
  ghost predicate Sturdy(sys: System) {
    && RingHolds(sys.tx, sys.history)
    && (forall frame :: frame in sys.air ==> Genuine(frame, sys.history))
    && Marked(sys.rx, sys.accepted)
    && (sys.rx.latest == 0 || sys.rx.latest < sys.tx.seqno)
    && RoundsInOrder(sys)
    && (forall r :: r in sys.resent && !r.shared ==> Genuine(r.frame, sys.history))
    && (forall frame :: frame in sys.delivered ==> Genuine(frame, sys.history))
  }

  /** What a run with faithful scans keeps besides. */
  ghost predicate Safe(sys: System) {
    && Sturdy(sys)
    && (forall dack :: dack in sys.dacks ==> Truthful(dack, sys.tx.seqno))
    && (forall r :: r in sys.resent ==> r.frame.seqno !in r.dack.seen)
  }

  /** Whatever the holes, the round, the timers and the word they make behind the ring, a walk
      queues kept copies of live candidates and nothing else. */
  lemma {:induction false} WalkQueuesCandidates(q: Query, timer: Timers, numbers: seq<u16>)
    requires Intact(q) && AllBelow(numbers, q.seqno)
    ensures var w := WalkOver(q, Start(timer), numbers);
            forall frame :: frame in w.queued || w.skb2 == Some(frame) ==>
              frame.seqno in numbers && Live(q.seqno, frame.seqno) && CopyOf(q, frame.seqno) == Some(frame)
  {
    if numbers != [] {
      var front, s := numbers[..|numbers| - 1], numbers[|numbers| - 1];
      assert numbers == front + [s];
      assert forall x :: x in front ==> x in numbers;
      assert s in numbers && (s >= Oldest(q.seqno) ==> Live(q.seqno, s));
      WalkQueuesCandidates(q, timer, front);
    }
  }

  /** Sending keeps the ring: only the number that just stopped being live loses its slot. */
  lemma TransmitHolds(tx: Tx, history: seq<seq<u8>>, payload: seq<u8>, id: nat)
    requires RingHolds(tx, history) && tx.seqno < U16_LIMIT - 1
    ensures RingHolds(Transmit(tx, payload, id).0, history + [payload])
    ensures Transmit(tx, payload, id).1 == Frame(tx.seqno, payload)
  {
    var tx' := Transmit(tx, payload, id).0;
    forall s: u16 | Live(tx'.seqno, s)
      ensures tx'.copies[TxSlot(s)].Some? && tx'.copies[TxSlot(s)].value.frame == Frame(s, (history + [payload])[s])
    {
      if s < tx.seqno {
        TxSlotsApart(s, tx.seqno);
        assert Live(tx.seqno, s);
      }
    }
  }

  lemma SendIsSafe(sys: System, payload: seq<u8>)
    requires sys.tx.seqno < U16_LIMIT - 1
    ensures Sturdy(sys) ==> Sturdy(Step(sys, Send(payload)))
    ensures Safe(sys) ==> Safe(Step(sys, Send(payload)))
  {
    var sys' := Step(sys, Send(payload));
    if Sturdy(sys) { TransmitHolds(sys.tx, sys.history, payload, |sys.history|); }
    if Safe(sys) {
      forall dack | dack in sys'.dacks
        ensures Truthful(dack, sys'.tx.seqno)
      {
        assert forall s: u16 :: s < sys.tx.seqno && Live(sys'.tx.seqno, s) ==> Live(sys.tx.seqno, s);
      }
    }
  }

  lemma IncreasingSnoc(rounds: seq<u16>, r: u16)
    requires Increasing(rounds) && forall x :: x in rounds ==> x < r
    ensures Increasing(rounds + [r])
  {
    forall i | 0 <= i < |rounds| ensures rounds[i] < r { assert rounds[i] in rounds; }
  }

  /** A new request is above every round asked for or built before. */
  lemma ArrivalKeepsOrder(sys: System, frame: Frame, now: u64)
    requires RoundsInOrder(sys) && !Arrive(sys.rx, frame.seqno, now).1.DivideError?
    ensures RoundsInOrder(Step(sys, Arrival(frame, now)))
  {
    var sys' := Step(sys, Arrival(frame, now));
    var (rx', outcome) := Arrive(sys.rx, frame.seqno, now);
    ArriveKeepsTrigger(sys.rx, frame.seqno, now);
    if outcome.Accepted? && outcome.request.Some? {
      var r := outcome.request.value;
      IncreasingSnoc(sys.built + sys.requests, r);
      assert sys'.built + sys'.requests == sys.built + sys.requests + [r];
    } else {
      assert sys'.built + sys'.requests == sys.built + sys.requests;
    }
  }

  lemma ArrivalIsSafe(sys: System, frame: Frame, now: u64)
    requires Sturdy(sys) && frame in sys.air && !Arrive(sys.rx, frame.seqno, now).1.DivideError?
    ensures Sturdy(Step(sys, Arrival(frame, now)))
    ensures Safe(sys) ==> Safe(Step(sys, Arrival(frame, now)))
  {
    ArriveKeepsMarked(sys.rx, sys.accepted, frame.seqno, now);
    ArrivalKeepsOrder(sys, frame, now);
  }

  ghost function BuiltDack(sys: System): Dack
    requires sys.requests != []
  {
    Dack(sys.requests[0], Holes(sys.rx.window, sys.before, sys.requests[0]), sys.accepted)
  }

  /** No live number that reads missing had been accepted, even if the scan runs late and its
      slot was recycled: a recycled slot's number is too old to be live. */
  lemma LiveMissing(sys: System, s: u16)
    requires Sturdy(sys) && Live(sys.tx.seqno, s) && s <= sys.rx.latest && MissingIn(sys.rx.window)(s)
    ensures s !in sys.accepted
  {
    assert InWindow(sys.rx, s);
  }

  lemma HoleInRange(sys: System, round: u16, k: nat)
    requires Sturdy(sys) && round in sys.requests && k < |Runs(sys.rx.window, round)|
    ensures |Holes(sys.rx.window, sys.before, round)| == |Runs(sys.rx.window, round)|
    ensures var hole := Holes(sys.rx.window, sys.before, round)[k];
            hole.re <= sys.rx.latest && hole.re <= sys.tx.seqno
  {
    assert 5 * round <= sys.rx.latest;
    HoleOfRun(sys.rx.window, sys.before, round, k);
  }

  /** A hole asks for an accepted live number only if it took one in. */
  lemma HoleIsTruthful(sys: System, round: u16, k: nat, s: u16)
    requires Sturdy(sys) && round in sys.requests && k < |Runs(sys.rx.window, round)|
    requires |Holes(sys.rx.window, sys.before, round)| == |Runs(sys.rx.window, round)|
    requires var hole := Holes(sys.rx.window, sys.before, round)[k];
             hole.le <= s < hole.re && Live(sys.tx.seqno, s) && s in sys.accepted
    ensures TakesIn(sys, round, Runs(sys.rx.window, round)[k])
  {
    HoleInRange(sys, round, k);
    HoleOfRun(sys.rx.window, sys.before, round, k);
    if s != Runs(sys.rx.window, round)[k].le - 1 { LiveMissing(sys, s); }
  }

  /** And then it does ask for it. */
  lemma HoleTakesIn(sys: System, round: u16, k: nat)
    requires k < |Runs(sys.rx.window, round)| && TakesIn(sys, round, Runs(sys.rx.window, round)[k])
    ensures |Holes(sys.rx.window, sys.before, round)| == |Runs(sys.rx.window, round)|
    ensures var hole, run := Holes(sys.rx.window, sys.before, round)[k], Runs(sys.rx.window, round)[k];
            hole.le <= run.le - 1 < hole.re
  {
    HoleOfRun(sys.rx.window, sys.before, round, k);
  }

  lemma SameLength(w: Window, before: u16, round: u16)
    ensures |Holes(w, before, round)| == |Runs(w, round)|
  {
    var hi := ScanEnd(round);
    ScanShape(MissingIn(w), LeftMissingIn(w, before), hi, ScanStart(hi), HOLES_MAX);
  }

  /** Exactly when a built DACK asks for no live number that was accepted: unless the word
      before the window misleads its scan. */
  lemma BuiltIsTruthful(sys: System)
    requires Sturdy(sys) && sys.requests != []
    ensures Truthful(BuiltDack(sys), sys.tx.seqno) <==> !Misleads(sys, sys.requests[0])
  {
    var round := sys.requests[0];
    assert round in sys.requests;
    SameLength(sys.rx.window, sys.before, round);
    if Misleads(sys, round) {
      MisledIsUntruthful(sys, round);
    } else {
      FaithfulIsTruthful(sys, round);
    }
  }

  lemma MisledIsUntruthful(sys: System, round: u16)
    requires Misleads(sys, round)
    ensures !Truthful(Dack(round, Holes(sys.rx.window, sys.before, round), sys.accepted), sys.tx.seqno)
  {
    var runs, holes := Runs(sys.rx.window, round), Holes(sys.rx.window, sys.before, round);
    var run :| run in runs && TakesIn(sys, round, run);
    var k :| 0 <= k < |runs| && runs[k] == run;
    HoleTakesIn(sys, round, k);
    assert holes[k] in holes;
  }

  lemma FaithfulIsTruthful(sys: System, round: u16)
    requires Sturdy(sys) && round in sys.requests && !Misleads(sys, round)
    ensures Truthful(Dack(round, Holes(sys.rx.window, sys.before, round), sys.accepted), sys.tx.seqno)
  {
    var runs, holes := Runs(sys.rx.window, round), Holes(sys.rx.window, sys.before, round);
    SameLength(sys.rx.window, sys.before, round);
    forall hole | hole in holes
      ensures hole.re <= sys.tx.seqno
      ensures forall s: u16 :: hole.le <= s < hole.re && Live(sys.tx.seqno, s) ==> s !in sys.accepted
    {
      var k :| 0 <= k < |holes| && holes[k] == hole;
      HoleInRange(sys, round, k);
      assert runs[k] in runs && !TakesIn(sys, round, runs[k]);
      forall s: u16 | hole.le <= s < hole.re && Live(sys.tx.seqno, s) ensures s !in sys.accepted {
        if s in sys.accepted { HoleIsTruthful(sys, round, k, s); }
      }
    }
  }

  lemma BuildIsSafe(sys: System)
    requires Sturdy(sys) && sys.requests != []
    ensures Sturdy(Step(sys, Build))
    ensures Safe(sys) && !Misleads(sys, sys.requests[0]) ==> Safe(Step(sys, Build))
  {
    BuiltIsTruthful(sys);
    var sys' := Step(sys, Build);
    assert sys'.built + sys'.requests == sys.built + sys.requests;
    assert forall r :: r in sys'.requests ==> r in sys.requests;
    assert sys.requests[0] in sys.requests;
  }

  /** What an answer logs: kept copies of live numbers under the DACK's holes. */
  lemma LoggedFrames(sys: System, dack: Dack)
    requires Sturdy(sys)
    ensures forall r :: r in LogOf(sys, dack) ==>
              && r.dack == dack && Genuine(r.frame, sys.history) && Live(sys.tx.seqno, r.frame.seqno)
              && exists hole :: hole in dack.holes && hole.le <= r.frame.seqno < hole.re
  {
    var walk, log := Answering(sys, dack), LogOf(sys, dack);
    CandidatesAreBelow(dack.holes, sys.tx.seqno);
    WalkQueuesCandidates(QueryOf(sys.tx, dack), sys.tx.timer, Candidates(dack.holes, sys.tx.seqno));
    forall r | r in log ensures r.frame in walk.queued && r.dack == dack {
      var k :| 0 <= k < |log| && log[k] == r;
      assert walk.queued[k] == r.frame;
    }
  }

  /** Answering any DACK ever built keeps the invariants. The frames of buffers handed over
      once are the ones first sent. */
  lemma AnswerIsSafe(sys: System, dack: Dack)
    requires Sturdy(sys) && dack in sys.dacks
    ensures Sturdy(Step(sys, Answer(dack)))
    ensures Safe(sys) ==> Safe(Step(sys, Answer(dack)))
  {
    LoggedFrames(sys, dack);
    if Safe(sys) {
      forall r | r in LogOf(sys, dack) ensures r.frame.seqno !in r.dack.seen {
        var hole :| hole in dack.holes && hole.le <= r.frame.seqno < hole.re;
      }
    }
  }

  /** An answer hands over each buffer once exactly if it makes no echo. */
  lemma AnswerHandsOnce(sys: System, dack: Dack)
    requires Sturdy(sys)
    ensures (forall r :: r in LogOf(sys, dack) ==> !r.shared) <==> !MakesEcho(sys.tx, dack)
  {
    CandidatesAreBelow(dack.holes, sys.tx.seqno);
    HandedOnce(QueryOf(sys.tx, dack), sys.tx.timer, Candidates(dack.holes, sys.tx.seqno));
    SharedInLog(Answering(sys, dack).handed, LogOf(sys, dack));
  }

  lemma SharedInLog(handed: seq<nat>, log: seq<Resent>)
    requires |log| == |handed| && forall k :: 0 <= k < |log| ==> log[k].shared == Shared(handed, k)
    ensures (forall r :: r in log ==> !r.shared) <==> !SomeTwice(handed)
  {
    if SomeTwice(handed) {
      var i, j :| 0 <= i < j < |handed| && handed[i] == handed[j];
      assert Shared(handed, i) && log[i] in log;
    } else {
      forall r | r in log ensures !r.shared {
        var k :| 0 <= k < |log| && log[k] == r;
        NoneShared(handed, k);
      }
    }
  }

  lemma NoneShared(handed: seq<nat>, k: nat)
    requires k < |handed| && !SomeTwice(handed)
    ensures !Shared(handed, k)
  {
  }

  lemma InitiallySafe(tx: Tx, garbage: Window, before: u16)
    ensures Safe(Initial(tx, garbage, before))
  {
    FreshRefines(garbage);
  }

  lemma StepIsSafe(d: Discipline, sys: System, e: Event)
    requires Sturdy(sys) && Enabled(d, sys, e)
    ensures Sturdy(Step(sys, e))
    ensures d.scans && Safe(sys) ==> Safe(Step(sys, e))
  {
    match e
    case Send(payload) => SendIsSafe(sys, payload);
    case Arrival(frame, now) => ArrivalIsSafe(sys, frame, now);
    case Build => BuildIsSafe(sys);
    case Answer(dack) => AnswerIsSafe(sys, dack);
  }

  /** Every run whatever keeps the ring, the order of the rounds, and the bytes: each frame
      sent again from a buffer handed over once is byte-identical to the one first sent; and
      without echoes that is every frame sent again. Every run whose scans are not misled is
      safe besides: a retransmitted number had not been accepted when the DACK asking for it
      was built. */
  lemma {:induction false} EveryRunIsSafe(d: Discipline, tx: Tx, garbage: Window, before: u16, events: seq<Event>)
    requires After(d, Initial(tx, garbage, before), events).Some?
    ensures var sys := After(d, Initial(tx, garbage, before), events).value;
            && Sturdy(sys) && sys.before == before
            && (d.scans ==> Safe(sys))
            && (d.single ==> forall r :: r in sys.resent ==> !r.shared && Genuine(r.frame, sys.history))
  {
    InitiallySafe(tx, garbage, before);
    if events != [] {
      var front, e := events[..|events| - 1], events[|events| - 1];
      EveryRunIsSafe(d, tx, garbage, before, front);
      var mid := After(d, Initial(tx, garbage, before), front).value;
      StepIsSafe(d, mid, e);
      if d.single && e.Answer? { AnswerHandsOnce(mid, e.dack); }
    }
  }
}
