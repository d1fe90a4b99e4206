/** The data branch of the receiver (vmac/rx.c): window advance, duplicate drop,
    inter-arrival estimate and DACK trigger. */
module ReceiverWindow {
  import opened VmacTypes

  type Window = w: seq<u16> | |w| == WINDOW witness seq(WINDOW, _ => 0)

  /** The fields of one receiver entry that the data branch reads or writes. */
  datatype Rx = Rx(
    window: Window,
    latest: u16,
    round: u16,
    lastin: u16,
    firstFrame: u32,
    secondFrame: u32,
    alpha: u32)

  datatype Outcome =
    | Dropped                       // a repeat, freed
    | DivideError                   // the estimate would divide by zero
    | Accepted(request: Option<u16>) // passed upward, with the DACK round asked for, if any

  function Slot(s: nat): (k: nat)
    ensures k < WINDOW
  {
    s % WINDOW
  }

  /** A new entry; the allocator leaves the window as it found it. */
  function Fresh(garbage: Window): Rx {
    Rx(garbage, 0, 0, 0, 0, 0, 0)
  }

  predicate InWindow(rx: Rx, s: u16) {
    s + WINDOW > rx.latest
  }

  /** The window after `latest` moved from lo to hi, one cleared slot at a time. */
  ghost function Advance(w: Window, lo: u16, hi: u16): Window
    decreases hi
  {
    if hi <= lo then w else Advance(w, lo, hi - 1)[Slot(hi) := 0]
  }

  /** The marking of the arrived frame, behind the code's lower bound. */
  ghost function Mark(rx: Rx, s: u16): Rx {
    if s >= (if rx.latest >= WINDOW then Slot(rx.latest) else 0) then
      rx.(window := rx.window[Slot(s) := 1])
    else rx
  }

  /** Elapsed time per sequence number. Both operands are unsigned longs, so a
      negative sequence gap becomes a huge divisor. */
  function PerFrame(now: u64, first: u32, s: u16, lastin: u16): u32
    requires s != lastin
  {
    (((now - first) % U64_LIMIT) / ((s - lastin) % U64_LIMIT)) % U32_LIMIT
  }

  predicate DividesByZero(rx: Rx, s: u16) {
    rx.firstFrame != 0 && rx.secondFrame == 0 && s == rx.lastin
  }

  /** The inter-arrival estimate, taken once from the first two accepted frames. */
  ghost function Estimate(rx: Rx, s: u16, now: u64): Rx
    requires !DividesByZero(rx, s)
  {
    if rx.firstFrame == 0 then rx.(firstFrame := now % U32_LIMIT)
    else if rx.secondFrame == 0 then
      rx.(firstFrame := 0, secondFrame := now % U32_LIMIT, alpha := PerFrame(now, rx.firstFrame, s, rx.lastin))
    else rx
  }

  /** One data frame with sequence number s arriving at time now. */
  ghost function Arrive(rx: Rx, s: u16, now: u64): (Rx, Outcome) {
    if s <= rx.latest && rx.window[Slot(s)] == 1 then (rx, Dropped)
    else
      var advanced :=
        if rx.latest < s then rx.(window := Advance(rx.window, rx.latest, s), latest := s) else rx;
      var marked := Mark(advanced, s);
      if DividesByZero(marked, s) then (marked.(secondFrame := now % U32_LIMIT), DivideError)
      else
        var last := Estimate(marked, s, now).(lastin := s);
        if last.round <= s - 5 then (last.(round := s), Accepted(Some(s / 5)))
        else (last, Accepted(None))
  }

  /** The receiver entry as the code keeps it: fields updated in place. */
  class EncodingRx {
    const window: array<u16>
    var latest: u16
    var round: u16
    var lastin: u16
    var firstFrame: u32
    var secondFrame: u32
    var alpha: u32

    ghost predicate Valid()
      reads this
    {
      window.Length == WINDOW
    }

    ghost function State(): Rx
      requires Valid()
      reads this, window
    {
      Rx(window[..], latest, round, lastin, firstFrame, secondFrame, alpha)
    }

    constructor (memory: array<u16>)
      requires memory.Length == WINDOW
      ensures Valid() && window == memory
      ensures State() == Fresh(memory[..])
    {
      window := memory;
      latest, round, lastin := 0, 0, 0;
      firstFrame, secondFrame, alpha := 0, 0, 0;
    }

    method AdvanceTo(s: u16)
      requires Valid() && latest < s
      modifies this`latest, window
      ensures State() == old(State()).(window := Advance(old(window[..]), old(latest), s), latest := s)
    {
      while latest < s
        invariant old(latest) <= latest <= s
        invariant window[..] == Advance(old(window[..]), old(latest), latest)
      {
        latest := latest + 1;
        window[if latest >= WINDOW then latest % WINDOW else latest] := 0;
      }
    }

    method MarkArrived(s: u16)
      requires Valid()
      modifies window
      ensures State() == Mark(old(State()), s)
    {
      if s >= (if latest >= WINDOW then latest % WINDOW else 0) {
        window[if s >= WINDOW then s % WINDOW else s] := 1;
      }
    }

    /** The estimate; `fails` is the division by zero. */
    method TakeEstimate(s: u16, now: u64) returns (fails: bool)
      requires Valid()
      modifies `firstFrame, `secondFrame, `alpha
      ensures fails == DividesByZero(old(State()), s)
      ensures State() == if fails then old(State()).(secondFrame := now % U32_LIMIT) else Estimate(old(State()), s, now)
    {
      if firstFrame == 0 {
        firstFrame := now % U32_LIMIT;
      } else if secondFrame == 0 {
        secondFrame := now % U32_LIMIT;
        if s == lastin {
          return true;
        }
        alpha := PerFrame(now, firstFrame, s, lastin);
        firstFrame := 0;
      }
      return false;
    }

    method RxData(s: u16, now: u64) returns (outcome: Outcome)
      requires Valid()
      modifies this, window
      ensures Valid()
      ensures (State(), outcome) == Arrive(old(State()), s, now)
    {
      if latest < s {
        AdvanceTo(s);
      } else if window[if s >= WINDOW then s % WINDOW else s] == 1 {
        return Dropped;
      }
      MarkArrived(s);
      var fails := TakeEstimate(s, now);
      if fails {
        return DivideError;
      }
      lastin := s;
      if round <= s - 5 {
        round := s / 5;
        outcome := Accepted(Some(round));
        round := s;
      } else {
        outcome := Accepted(None);
      }
    }
  }
}
