/** The sender: numbering and keeping copies of data frames (vmac/tx.c), answering a DACK
    (vmac/rx.c), and the end of an entry (vmac/clean.c). */
module SenderRing {
  import opened VmacTypes

  /** A socket buffer: which allocation it is, and the frame in it. */
  datatype SkBuff = SkBuff(id: nat, frame: Frame)

  type Copies = c: seq<Option<SkBuff>> | |c| == WINDOW_TX witness seq(WINDOW_TX, _ => None)
  type Timers = t: seq<u8> | |t| == WINDOW_TX witness seq(WINDOW_TX, _ => 0)

  datatype Tx = Tx(copies: Copies, timer: Timers, seqno: u16)

  function TxSlot(s: nat): (k: nat)
    ensures k < WINDOW_TX
  {
    s % WINDOW_TX
  }

  lemma TxSlotsApart(a: nat, b: nat)
    requires a < b < a + WINDOW_TX
    ensures TxSlot(a) != TxSlot(b)
  {
  }

  /** The oldest number the liveness test lets a DACK ask for. */
  function Oldest(seqno: u16): u16 {
    if seqno < WINDOW_TX then 0 else seqno - WINDOW_TX
  }

  predicate Live(seqno: u16, s: u16) {
    Oldest(seqno) <= s < seqno
  }

  /** Sending one payload whose copy is allocation `id`: the new entry, the frame on the
      air, and the allocation freed because the new copy took its slot. */
  function Transmit(tx: Tx, payload: seq<u8>, id: nat): (Tx, Frame, Option<nat>) {
    var s := tx.seqno;
    var frame := Frame(s, payload);
    var displaced := if s >= WINDOW_TX && tx.copies[TxSlot(s)].Some? then Some(tx.copies[TxSlot(s)].value.id) else None;
    (Tx(tx.copies[TxSlot(s) := Some(SkBuff(id, frame))], tx.timer[TxSlot(s) := 0], (s + 1) % U16_LIMIT),
     frame, displaced)
  }

  /** What stays fixed while one DACK is answered. */
  datatype Query = Query(copies: Copies, seqno: u16, round: u16)

  /** The loop's variables: pacing timers, budget used, the last copy made, the frames queued,
      and which buffer each queue entry holds: the copies are numbered from one as they are
      made, so the last copy is number `counter`. */
  datatype Walk = Walk(timer: Timers, counter: nat, skb2: Option<Frame>, queued: seq<Frame>, handed: seq<nat>)

  predicate Eligible(q: Query, timer: Timers, s: u16) {
    q.round >= timer[TxSlot(s)] && s >= Oldest(q.seqno)
  }

  /** The pointer-sized word behind the ring is not null: it is made of the first eight
      pacing timers, which follow the ring in the entry. */
  predicate WordBehind(timer: Timers) {
    exists k :: 0 <= k < POINTER_SIZE && timer[k] != 0
  }

  /** The test for a copy. For number 500 the code reads the word behind the ring, where
      the walk itself writes; the copy is then taken from slot 0. */
  predicate HasCopy(q: Query, timer: Timers, s: u16) {
    if s == WINDOW_TX then WordBehind(timer) else q.copies[TxSlot(s)].Some?
  }

  function CopyOf(q: Query, s: u16): Option<Frame> {
    match q.copies[TxSlot(s)]
    case Some(buffer) => Some(buffer.frame)
    case None => None
  }

  function Paced(round: u16): u8 {
    (round + 6) % U8_LIMIT
  }

  /** The loop body for one number. */
  function Visit(q: Query, w: Walk, s: u16): Walk {
    if !Eligible(q, w.timer, s) || w.counter >= MAX_RETX then w
    else
      var copied := if HasCopy(q, w.timer, s) then w.(skb2 := CopyOf(q, s), counter := w.counter + 1) else w;
      var paced := copied.(timer := w.timer[TxSlot(s) := Paced(q.round)]);
      if paced.skb2.Some? then
        paced.(queued := w.queued + [paced.skb2.value], handed := w.handed + [paced.counter])
      else paced
  }

  /** The loop body for each number of a list in turn. */
  function WalkOver(q: Query, w: Walk, numbers: seq<u16>): Walk {
    if numbers == [] then w
    else Visit(q, WalkOver(q, w, numbers[..|numbers| - 1]), numbers[|numbers| - 1])
  }

  function Range(le: u16, re: u16): seq<u16>
    decreases re
  {
    if le >= re then [] else Range(le, re - 1) + [re - 1]
  }

  /** The numbers the holes ask for, in the order the loops meet them. */
  function Candidates(holes: seq<Hole>, seqno: u16): seq<u16> {
    if holes == [] then []
    else
      var last := holes[|holes| - 1];
      Candidates(holes[..|holes| - 1], seqno) + Range(last.le, Min(last.re, seqno))
  }

  function Start(timer: Timers): Walk {
    Walk(timer, 0, None, [], [])
  }

  lemma WalkOverSnoc(q: Query, w: Walk, numbers: seq<u16>, s: u16)
    ensures WalkOver(q, w, numbers + [s]) == Visit(q, WalkOver(q, w, numbers), s)
  {
    assert (numbers + [s])[..|numbers|] == numbers;
  }

  lemma Associates(a: seq<u16>, b: seq<u16>, c: seq<u16>)
    ensures a + b + c == a + (b + c)
  {
  }

  lemma {:induction false} WalkJoin(q: Query, w: Walk, a: seq<u16>, b: seq<u16>)
    ensures WalkOver(q, w, a + b) == WalkOver(q, WalkOver(q, w, a), b)
  {
    if b == [] {
      assert a + b == a;
    } else {
      var front, s := b[..|b| - 1], b[|b| - 1];
      WalkJoin(q, w, a, front);
      assert b == front + [s];
      Associates(a, front, [s]);
      WalkOverSnoc(q, w, a + front, s);
      WalkOverSnoc(q, WalkOver(q, w, a), front, s);
    }
  }

  /** Once the budget is spent the rest of the list changes nothing. */
  lemma {:induction false} SpentWalkSkips(q: Query, w: Walk, rest: seq<u16>)
    requires w.counter >= MAX_RETX
    ensures WalkOver(q, w, rest) == w
  {
    if rest != [] { SpentWalkSkips(q, w, rest[..|rest| - 1]); }
  }

  lemma {:induction false} RangeSplit(le: u16, mid: u16, re: u16)
    requires le <= mid <= re
    ensures Range(le, re) == Range(le, mid) + Range(mid, re)
    decreases re
  {
    if mid < re { RangeSplit(le, mid, re - 1); }
  }

  lemma WalkOneMore(q: Query, w: Walk, le: u16, end: u16)
    requires le < end
    ensures WalkOver(q, w, Range(le, end)) == WalkOver(q, Visit(q, w, le), Range(le + 1, end))
  {
    RangeSplit(le, le + 1, end);
    assert Range(le, le + 1) == [le] && WalkOver(q, w, [le]) == Visit(q, w, le);
    WalkJoin(q, w, [le], Range(le + 1, end));
  }

  /** The sender entry as the code keeps it. */
  class EncodingTx {
    const buffer: array<Option<SkBuff>>
    const timer: array<u8>
    var seqno: u16

    ghost predicate Valid()
      reads this
    {
      buffer.Length == WINDOW_TX == timer.Length
    }

    ghost function State(): Tx
      requires Valid()
      reads this, buffer, timer
    {
      Tx(buffer[..], timer[..], seqno)
    }

    constructor (buffers: array<Option<SkBuff>>, timers: array<u8>)
      requires buffers.Length == WINDOW_TX == timers.Length
      ensures Valid() && buffer == buffers && timer == timers
      ensures State() == Tx(buffers[..], timers[..], 0)
    {
      buffer, timer, seqno := buffers, timers, 0;
    }

    method Send(payload: seq<u8>, id: nat) returns (frame: Frame, freed: Option<nat>)
      requires Valid()
      modifies this, buffer, timer
      ensures Valid() && (State(), frame, freed) == Transmit(old(State()), payload, id)
    {
      var s := seqno;
      seqno := (seqno + 1) % U16_LIMIT;
      timer[s % WINDOW_TX] := 0;
      frame := Frame(s, payload);
      var displaced: Option<SkBuff> := None;
      if s >= WINDOW_TX {
        displaced := buffer[s % WINDOW_TX];
      }
      buffer[s % WINDOW_TX] := Some(SkBuff(id, frame));
      freed := if displaced.Some? then Some(displaced.value.id) else None;
    }

    /** The body of the inner loop; `spent` is its break. */
    method AnswerNumber(le: u16, q: Query, before: Walk) returns (after: Walk, spent: bool)
      requires Valid() && q.copies == buffer[..] && q.seqno == seqno && before.timer == timer[..]
      modifies timer
      ensures after.timer == timer[..] && after == Visit(q, before, le)
      ensures spent ==> after.counter >= MAX_RETX
    {
      var skb2, counter, queued, handed := before.skb2, before.counter, before.queued, before.handed;
      if q.round >= timer[if le >= WINDOW_TX then le % WINDOW_TX else le]
         && le >= (if q.seqno < WINDOW_TX then 0 else q.seqno - WINDOW_TX) {
        if MAX_RETX <= counter {
          return before, true;
        }
        if (if le == WINDOW_TX then WordBehind(timer[..]) else buffer[le % WINDOW_TX].Some?) {
          skb2 := CopyOf(q, le);
          counter := counter + 1;
        }
        timer[le % WINDOW_TX] := Paced(q.round);
        if skb2.Some? {
          queued, handed := queued + [skb2.value], handed + [counter];
        }
      }
      return Walk(timer[..], counter, skb2, queued, handed), false;
    }

    /** The inner loop: one hole. */
    method AnswerHole(hole: Hole, q: Query, before: Walk) returns (after: Walk)
      requires Valid() && q.copies == buffer[..] && q.seqno == seqno && before.timer == timer[..]
      modifies timer
      ensures after.timer == timer[..] && after == WalkOver(q, before, Range(hole.le, Min(hole.re, q.seqno)))
    {
      var le: u16, spent := hole.le, false;
      ghost var end: u16 := Min(hole.re, q.seqno);
      ghost var total := WalkOver(q, before, Range(hole.le, end));
      after := before;
      while le < hole.re && le < q.seqno
        invariant q.copies == buffer[..] && after.timer == timer[..]
        invariant WalkOver(q, after, Range(le, end)) == total
      {
        WalkOneMore(q, after, le, end);
        after, spent := AnswerNumber(le, q, after);
        if spent {
          SpentWalkSkips(q, after, Range(le + 1, end));
          break;
        }
        le := le + 1;
      }
    }

    /** The DACK branch: every hole in turn, twenty frames at most. */
    method OnDack(holes: seq<Hole>, round: u16) returns (queued: seq<Frame>, handed: seq<nat>)
      requires Valid()
      modifies timer
      ensures var walk := WalkOver(Query(buffer[..], seqno, round), Start(old(timer[..])), Candidates(holes, seqno));
              timer[..] == walk.timer && queued == walk.queued && handed == walk.handed
    {
      var q := Query(buffer[..], seqno, round);
      var walk := Start(timer[..]);
      ghost var start := walk;
      var i := 0;
      while i < |holes|
        invariant i <= |holes| && q.copies == buffer[..]
        invariant walk.timer == timer[..] && walk == WalkOver(q, start, Candidates(holes[..i], q.seqno))
      {
        assert holes[..i + 1][..i] == holes[..i];
        WalkJoin(q, start, Candidates(holes[..i], q.seqno), Range(holes[i].le, Min(holes[i].re, q.seqno)));
        walk := AnswerHole(holes[i], q, walk);
        i := i + 1;
      }
      assert holes[..i] == holes;
      queued, handed := walk.queued, walk.handed;
    }

    /** The end of the entry: free the copies the loop visits, in slot order. */
    method Cleanup() returns (freed: seq<nat>)
      requires Valid()
      ensures freed == Freed(State().copies, if seqno < WINDOW_TX then seqno else WINDOW_TX)
    {
      freed := [];
      var i := 0;
      while i < (if seqno < WINDOW_TX then seqno else WINDOW_TX)
        invariant i <= (if seqno < WINDOW_TX then seqno else WINDOW_TX)
        invariant freed == Freed(buffer[..], i)
      {
        if buffer[i].Some? {
          freed := freed + [buffer[i].value.id];
        }
        i := i + 1;
      }
    }
  }

  /** The allocations held by the first n slots. */
  function Freed(copies: Copies, n: nat): seq<nat>
    requires n <= WINDOW_TX
  {
    if n == 0 then []
    else if copies[n - 1].Some? then Freed(copies, n - 1) + [copies[n - 1].value.id]
    else Freed(copies, n - 1)
  }
}
