/** Exactly-once delivery, for runs whose arrivals are no older than the window. */
module ProtocolDelivery {
  import opened VmacTypes
  import opened ReceiverWindow
  import opened ReceiverTheorems
  import opened SenderRing
  import opened Protocol

  ghost predicate Contains(frames: seq<Frame>, s: u16) {
    exists k :: 0 <= k < |frames| && frames[k].seqno == s
  }

  /** The frames passed upward are the accepted numbers, each once. */
  ghost predicate DeliveredOnce(sys: System) {
    && Decides(sys.rx, sys.accepted) && Marked(sys.rx, sys.accepted) && LastMarked(sys.rx, sys.accepted)
    && AllDifferent(sys.delivered)
    && (forall s: u16 :: s in sys.accepted <==> Contains(sys.delivered, s))
  }

  lemma ContainsSnoc(frames: seq<Frame>, frame: Frame, s: u16)
    ensures Contains(frames + [frame], s) <==> Contains(frames, s) || s == frame.seqno
  {
    var all := frames + [frame];
    if Contains(frames, s) {
      var k :| 0 <= k < |frames| && frames[k].seqno == s;
      assert all[k] == frames[k];
    }
    assert all[|frames|] == frame;
  }

  lemma ArrivalDeliversOnce(sys: System, frame: Frame, now: u64)
    requires DeliveredOnce(sys) && InWindow(sys.rx, frame.seqno)
    ensures var sys' := Step(sys, Arrival(frame, now));
            && DeliveredOnce(sys')
            && sys'.delivered == sys.delivered + if frame.seqno in sys.accepted then [] else [frame]
  {
    var sys' := Step(sys, Arrival(frame, now));
    ArriveDecides(sys.rx, sys.accepted, frame.seqno, now);
    ArriveKeepsMarked(sys.rx, sys.accepted, frame.seqno, now);
    ArriveNeverDividesByZero(sys.rx, sys.accepted, frame.seqno, now);
    if frame.seqno !in sys.accepted {
      assert !Contains(sys.delivered, frame.seqno);
      forall s: u16
        ensures s in sys'.accepted <==> Contains(sys'.delivered, s)
      {
        ContainsSnoc(sys.delivered, frame, s);
      }
    }
  }

  lemma NextDelivered(sys: System, frame: Frame, now: u64)
    requires DeliveredOnce(sys) && InWindow(sys.rx, frame.seqno)
    ensures var outcome := Arrive(sys.rx, frame.seqno, now).1;
            !outcome.DivideError? && (outcome.Accepted? <==> !Contains(sys.delivered, frame.seqno))
  {
    ArriveDecides(sys.rx, sys.accepted, frame.seqno, now);
    ArriveNeverDividesByZero(sys.rx, sys.accepted, frame.seqno, now);
  }

  /** Over every run with in-window arrivals, from an allocation whose slot 0 does not hold
      one, each number is delivered upward at most once, and exactly when it was accepted; the
      next in-window arrival is delivered exactly when its number never was, and never
      divides by zero. */
  lemma {:induction false} EveryRunDeliversOnce(
    d: Discipline, tx: Tx, garbage: Window, before: u16, events: seq<Event>)
    requires d.inWindow && garbage[0] != 1
    requires After(d, Initial(tx, garbage, before), events).Some?
    ensures var sys := After(d, Initial(tx, garbage, before), events).value;
            && DeliveredOnce(sys)
            && (forall frame: Frame, now: u64 :: InWindow(sys.rx, frame.seqno) ==>
                  var outcome := Arrive(sys.rx, frame.seqno, now).1;
                  !outcome.DivideError? && (outcome.Accepted? <==> !Contains(sys.delivered, frame.seqno)))
  {
    FreshRefines(garbage);
    FreshDecides(garbage, 0);
    if events != [] {
      var front, e := events[..|events| - 1], events[|events| - 1];
      EveryRunDeliversOnce(d, tx, garbage, before, front);
      var mid := After(d, Initial(tx, garbage, before), front).value;
      if e.Arrival? { ArrivalDeliversOnce(mid, e.frame, e.now); }
    }
    var sys := After(d, Initial(tx, garbage, before), events).value;
    forall frame: Frame, now: u64 | InWindow(sys.rx, frame.seqno)
      ensures var outcome := Arrive(sys.rx, frame.seqno, now).1;
              !outcome.DivideError? && (outcome.Accepted? <==> !Contains(sys.delivered, frame.seqno))
    {
      NextDelivered(sys, frame, now);
    }
  }

  /** And from an allocation whose slot 0 holds one, the shortest run fails: the first frame is
      sent, arrives for the first time, and is dropped. */
  lemma FirstFrameLost(d: Discipline, tx: Tx, garbage: Window, before: u16, payload: seq<u8>, now: u64)
    requires garbage[0] == 1
    ensures var end := After(d, Initial(tx, garbage, before), [Send(payload), Arrival(Frame(0, payload), now)]);
            end.Some? && end.value.delivered == []
  {
    var start, frame := Initial(tx, garbage, before), Frame(0, payload);
    var events := [Send(payload), Arrival(frame, now)];
    assert events[..1] == [Send(payload)] && events[..1][..0] == [];
    assert After(d, start, events[..1][..0]) == Some(start);
    assert After(d, start, events[..1]) == Some(Step(start, Send(payload)));
    FreshDecides(garbage, now);
  }
}
