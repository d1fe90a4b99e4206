/** Sender, receiver, DACK request queue and a channel that loses, repeats and reorders. */
module Protocol {
  import opened VmacTypes
  import opened ReceiverWindow
  import opened HoleScan
  import opened HoleScanTheorems
  import opened SenderRing
  import opened WalkTheorems
  import opened WalkBuffers

  /** A built DACK; `seen` records the numbers accepted when it was built. */
  datatype Dack = Dack(round: u16, holes: seq<Hole>, seen: set<u16>)

  /** A retransmission; `shared` says that its buffer was handed over more than once. */
  datatype Resent = Resent(frame: Frame, dack: Dack, shared: bool)

  /** `air` and `dacks` hold everything ever put on the channel: any of it may arrive any
      number of times, in any order, or never. What the driver makes of a buffer it is given
      twice is not known; such a buffer puts no frame there. `before` is the word in front of
      the window, which nothing writes. The other histories are logs. */
  datatype System = System(
    tx: Tx,
    history: seq<seq<u8>>,
    rx: Rx,
    before: u16,
    accepted: set<u16>,
    delivered: seq<Frame>,
    requests: seq<u16>,
    built: seq<u16>,
    air: set<Frame>,
    dacks: set<Dack>,
    resent: seq<Resent>)

  datatype Event =
    | Send(payload: seq<u8>)
    | Arrival(frame: Frame, now: u64)
    | Build
    | Answer(dack: Dack)

  /** What a run may be assumed to keep to: arrivals no older than the window; scans that
      the word before the window does not mislead; rounds whose pacing fits its byte; answers
      that the word behind the ring does not turn into echoes. A run without a discipline is
      any run at all. */
  datatype Discipline = Discipline(inWindow: bool, scans: bool, counted: bool, single: bool)

  function Initial(tx: Tx, garbage: Window, before: u16): System {
    System(tx.(seqno := 0), [], Fresh(garbage), before, {}, [], [], [], {}, {}, [])
  }

  ghost predicate AllDifferent(frames: seq<Frame>) {
    forall i, j :: 0 <= i < j < |frames| ==> frames[i].seqno != frames[j].seqno
  }

  /** The hole of the run takes in the live accepted number before it, because the word
      before the window reads zero. */
  ghost predicate TakesIn(sys: System, round: u16, run: Hole) {
    sys.before == 0 && ReadsBefore(ScanEnd(round), run.le)
    && Live(sys.tx.seqno, run.le - 1) && run.le - 1 in sys.accepted
  }

  ghost predicate Misleads(sys: System, round: u16) {
    exists run :: run in Runs(sys.rx.window, round) && TakesIn(sys, round, run)
  }

  function QueryOf(tx: Tx, dack: Dack): Query {
    Query(tx.copies, tx.seqno, dack.round)
  }

  function CallsOf(tx: Tx, dack: Dack): seq<u16> {
    Calls(QueryOf(tx, dack), tx.timer, Candidates(dack.holes, tx.seqno))
  }

  ghost predicate MakesEcho(tx: Tx, dack: Dack) {
    Echoes(QueryOf(tx, dack), tx.timer, CallsOf(tx, dack))
  }

  ghost predicate Enabled(d: Discipline, sys: System, e: Event) {
    match e
    case Send(payload) => sys.tx.seqno < U16_LIMIT - 1 // one epoch of sequence numbers
    case Arrival(frame, now) =>
      && frame in sys.air
      && !Arrive(sys.rx, frame.seqno, now).1.DivideError?
      && (d.inWindow ==> InWindow(sys.rx, frame.seqno))
    case Build => sys.requests != [] && (d.scans ==> !Misleads(sys, sys.requests[0]))
    case Answer(dack) =>
      && dack in sys.dacks
      && (d.counted ==> dack.round + 6 < U8_LIMIT)
      && (d.single ==> !MakesEcho(sys.tx, dack))
  }

  /** The walk of the sender over a DACK. */
  ghost function Answering(sys: System, dack: Dack): Walk {
    WalkOver(QueryOf(sys.tx, dack), Start(sys.tx.timer), Candidates(dack.holes, sys.tx.seqno))
  }

  ghost predicate Shared(handed: seq<nat>, k: nat)
    requires k < |handed|
  {
    exists i :: 0 <= i < |handed| && i != k && handed[i] == handed[k]
  }

  lemma {:induction false} HandedAsQueued(q: Query, timer: Timers, numbers: seq<u16>)
    ensures var w := WalkOver(q, Start(timer), numbers); |w.handed| == |w.queued|
  {
    if numbers != [] { HandedAsQueued(q, timer, numbers[..|numbers| - 1]); }
  }

  /** What an answer logs, in the order of the queue. */
  ghost function LogOf(sys: System, dack: Dack): (log: seq<Resent>)
    ensures var w := Answering(sys, dack);
            && |log| == |w.queued| == |w.handed|
            && forall k :: 0 <= k < |log| ==> log[k] == Resent(w.queued[k], dack, Shared(w.handed, k))
  {
    HandedAsQueued(QueryOf(sys.tx, dack), sys.tx.timer, Candidates(dack.holes, sys.tx.seqno));
    var w := Answering(sys, dack);
    seq(|w.queued|, k requires 0 <= k < |w.queued| => Resent(w.queued[k], dack, Shared(w.handed, k)))
  }

  ghost function Step(sys: System, e: Event): System
    requires e.Build? ==> sys.requests != []
  {
    match e
    case Send(payload) =>
      var (tx, frame, freed) := Transmit(sys.tx, payload, |sys.history|);
      sys.(tx := tx, history := sys.history + [payload], air := sys.air + {frame})
    case Arrival(frame, now) =>
      var (rx, outcome) := Arrive(sys.rx, frame.seqno, now);
      if outcome.Accepted? then
        sys.(rx := rx, accepted := sys.accepted + {frame.seqno}, delivered := sys.delivered + [frame],
             requests := sys.requests + if outcome.request.Some? then [outcome.request.value] else [])
      else sys.(rx := rx)
    case Build =>
      var round := sys.requests[0];
      var dack := Dack(round, Holes(sys.rx.window, sys.before, round), sys.accepted);
      sys.(requests := sys.requests[1..], built := sys.built + [round], dacks := sys.dacks + {dack})
    case Answer(dack) =>
      var log := LogOf(sys, dack);
      sys.(tx := sys.tx.(timer := Answering(sys, dack).timer),
           air := sys.air + (set r | r in log && !r.shared :: r.frame),
           resent := sys.resent + log)
  }

  /** The state after the events, if each was enabled in its turn. */
  ghost function After(d: Discipline, sys: System, events: seq<Event>): Option<System> {
    if events == [] then Some(sys)
    else
      match After(d, sys, events[..|events| - 1])
      case None => None
      case Some(mid) =>
        var e := events[|events| - 1];
        if Enabled(d, mid, e) then Some(Step(mid, e)) else None
  }
}
