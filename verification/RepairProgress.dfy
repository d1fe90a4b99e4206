/** Repair: the receiver builds a DACK, the sender answers it, everything it queued arrives.
    Each exchange repairs the first twenty missing numbers that can be asked for, and over
    exchanges of growing rounds every missing number has its turn. */
module RepairProgress {
  import opened VmacTypes
  import opened ReceiverWindow
  import opened ReceiverTheorems
  import opened HoleScan
  import opened HoleScanTheorems
  import opened SenderRing
  import opened WalkTheorems
  import opened WalkExact

  /** The missing numbers of [i, end), in ascending order. */
  function Listed(m: nat -> bool, i: nat, end: u16): seq<u16>
    decreases end - i
  {
    if i >= end then [] else if m(i) then [i] + Listed(m, i + 1, end) else Listed(m, i + 1, end)
  }

  /** The missing numbers a DACK for this round can report: all it scans but the last. */
  function Reportable(rx: Rx, round: u16): seq<u16> {
    Listed(MissingIn(rx.window), ScanStart(ScanEnd(round)), Max(ScanEnd(round) - 1, 0))
  }

  /** Sender, receiver, and the numbers the receiver has accepted. */
  datatype Link = Link(tx: Tx, rx: Rx, got: set<u16>)

  ghost function Deliver(link: Link, s: u16, now: u64): Link {
    var (rx, outcome) := Arrive(link.rx, s, now);
    link.(rx := rx, got := Gained(link.got, s, outcome))
  }

  /** The queued frames arrive in order, each at its own time. */
  ghost function DeliverAll(link: Link, frames: seq<Frame>, clock: u16 -> u64): Link {
    if frames == [] then link
    else
      var s := frames[|frames| - 1].seqno;
      Deliver(DeliverAll(link, frames[..|frames| - 1], clock), s, clock(s))
  }

  function QueryFor(tx: Tx, round: u16): Query {
    Query(tx.copies, tx.seqno, round)
  }

  /** What the DACK for the round asks for. */
  function Asked(link: Link, round: u16, before: u16): seq<u16> {
    Candidates(Holes(link.rx.window, before, round), link.tx.seqno)
  }

  ghost function Exchange(link: Link, round: u16, before: u16, clock: u16 -> u64): Link {
    var w := WalkOver(QueryFor(link.tx, round), Start(link.tx.timer), Asked(link, round, before));
    DeliverAll(link, w.queued, clock).(tx := link.tx.(timer := w.timer))
  }

  /** The receiver's invariants, for the set of accepted numbers. */
  ghost predicate Sound(rx: Rx, got: set<u16>) {
    Refines(rx, got) && Marked(rx, got) && LastMarked(rx, got) && Triggered(rx)
  }

  /** The invariants of both sides. */
  ghost predicate Linked(link: Link) {
    && Sound(link.rx, link.got)
    && Intact(QueryFor(link.tx, 0))
    && (link.rx.latest == 0 || link.rx.latest < link.tx.seqno)
  }

  /** The DACK for the round was asked for, and the word before the window is not where it
      does harm. */
  ghost predicate Scanned(link: Link, round: u16, before: u16) {
    && 0 < round && 5 * round <= link.rx.latest
    && (before != 0 || StaysInside(ScanEnd(round), Runs(link.rx.window, round)))
  }

  /** And neither is the word behind the ring. */
  ghost predicate Undisturbed(link: Link, round: u16, before: u16) {
    && Scanned(link, round, before)
    && WordsSet(QueryFor(link.tx, round), link.tx.timer,
                Calls(QueryFor(link.tx, round), link.tx.timer, Asked(link, round, before)))
  }

  lemma {:induction false} ListedIs(m: nat -> bool, i: nat, end: u16)
    ensures Distinct(Listed(m, i, end))
    ensures forall s :: s in Listed(m, i, end) <==> i <= s < end && m(s)
    decreases end - i
  {
    if i < end {
      ListedIs(m, i + 1, end);
      forall s | s in Listed(m, i, end) ensures i <= s < end && m(s) {}
    }
  }

  lemma {:induction false} ListedRun(m: nat -> bool, i: u16, j: u16, end: u16)
    requires i <= j <= end && forall s: nat :: i <= s < j ==> m(s)
    ensures Listed(m, i, end) == Range(i, j) + Listed(m, j, end)
    decreases j - i
  {
    if i < j {
      RangeCons(i, j);
      ListedRun(m, i + 1, j, end);
      assert [i] + (Range(i + 1, j) + Listed(m, j, end)) == Range(i, j) + Listed(m, j, end);
    }
  }

  /** A run up to its end, and what is missing behind it. */
  lemma RunThenRest(m: nat -> bool, i: u16, re: u16, hi: u16)
    requires i <= re < hi && (forall s: nat :: i <= s < re ==> m(s)) && (re == hi - 1 || !m(re))
    ensures Listed(m, i, hi - 1) == Range(i, re) + Listed(m, re + 1, hi - 1)
  {
    ListedRun(m, i, re, hi - 1);
  }

  /** The first gap lists its run, and the missing numbers behind it follow. */
  lemma FirstGapLists(m: nat -> bool, hi: u16, i: u16, seqno: u16, rest: seq<Hole>)
    requires i < hi <= seqno && m(i)
    requires var next := RunEnd(m, i, hi) + 1;
             rest == Gaps(m, hi, next) && Candidates(rest, seqno) == Listed(m, next, hi - 1)
    ensures Candidates([Hole(i, RunEnd(m, i, hi))] + rest, seqno) == Listed(m, i, hi - 1)
  {
    var re := RunEnd(m, i, hi);
    RunEndIsMaximal(m, i, hi);
    CandidatesCons(Hole(i, re), rest, seqno);
    RunThenRest(m, i, re, hi);
  }

  /** Walking all the gaps meets the missing numbers in ascending order. */
  lemma {:induction false} GapsListMissing(m: nat -> bool, hi: u16, i: u16, seqno: u16)
    requires i <= hi <= seqno && hi > 0
    ensures Candidates(Gaps(m, hi, i), seqno) == Listed(m, i, hi - 1)
    decreases hi - i
  {
    if i < hi && m(i) {
      GapsListMissing(m, hi, RunEnd(m, i, hi) + 1, seqno);
      FirstGapLists(m, hi, i, seqno, Gaps(m, hi, RunEnd(m, i, hi) + 1));
    } else if i < hi {
      GapsListMissing(m, hi, i + 1, seqno);
    }
  }

  lemma {:induction false} NonEmptyHolesCount(holes: seq<Hole>, seqno: u16)
    requires forall hole :: hole in holes ==> hole.le < hole.re <= seqno
    ensures |Candidates(holes, seqno)| >= |holes|
  {
    if holes != [] {
      var front, last := holes[..|holes| - 1], holes[|holes| - 1];
      assert holes == front + [last] && last in holes;
      assert forall hole :: hole in front ==> hole in holes;
      NonEmptyHolesCount(front, seqno);
      RangeIs(last.le, last.re);
    }
  }

  /** Only the last gap can be empty. */
  lemma EarlyGapIsNotEmpty(m: nat -> bool, hi: u16, i: u16, k: nat)
    requires i <= hi && k + 1 < |Gaps(m, hi, i)|
    ensures Gaps(m, hi, i)[k].le < Gaps(m, hi, i)[k].re < hi
  {
    var gaps := Gaps(m, hi, i);
    GapsAreMaximalRuns(m, hi, i);
    assert gaps[k] in gaps && gaps[k + 1] in gaps && gaps[k].re < gaps[k + 1].le;
  }

  /** So forty holes hold at least thirty-nine numbers. */
  lemma CappedHolesAreEnough(m: nat -> bool, hi: u16, i: u16, seqno: u16)
    requires i <= hi <= seqno
    ensures var gaps := Gaps(m, hi, i);
            && Candidates(Take(gaps, HOLES_MAX), seqno) <= Candidates(gaps, seqno)
            && (|gaps| > HOLES_MAX ==> |Candidates(Take(gaps, HOLES_MAX), seqno)| >= MAX_RETX)
  {
    var gaps := Gaps(m, hi, i);
    var capped := Take(gaps, HOLES_MAX);
    assert capped + gaps[|capped|..] == gaps;
    CandidatesJoin(capped, gaps[|capped|..], seqno);
    if |gaps| > HOLES_MAX {
      forall hole | hole in capped ensures hole.le < hole.re <= seqno {
        var k :| 0 <= k < |capped| && capped[k] == hole;
        EarlyGapIsNotEmpty(m, hi, i, k);
      }
      NonEmptyHolesCount(capped, seqno);
    }
  }

  /** Without the first k missing numbers, the list is what followed them. */
  lemma {:induction false} ListedAfter(m: nat -> bool, m': nat -> bool, i: nat, end: u16, k: nat)
    requires k <= |Listed(m, i, end)|
    requires forall s: nat :: i <= s < end ==> (m'(s) <==> m(s) && s !in Listed(m, i, end)[..k])
    ensures Listed(m', i, end) == Listed(m, i, end)[k..]
    decreases end - i
  {
    if i < end {
      ListedIs(m, i + 1, end);
      var list, rest := Listed(m, i, end), Listed(m, i + 1, end);
      if m(i) && k > 0 {
        assert list[..k] == [i] + rest[..k - 1] && list[k..] == rest[k - 1..];
        ListedAfter(m, m', i + 1, end, k - 1);
      } else if m(i) {
        ListedAfter(m, m', i + 1, end, 0);
        assert list[0..] == [i] + rest[0..];
      } else {
        ListedAfter(m, m', i + 1, end, k);
      }
    }
  }

  /** One retransmitted frame that was missing is accepted, marks its own slot, and asks
      for no DACK. */
  lemma DeliverOne(rx: Rx, got: set<u16>, s: u16, now: u64)
    requires Sound(rx, got) && s <= rx.latest && InWindow(rx, s) && s !in got
    ensures var (rx', outcome) := Arrive(rx, s, now);
            && outcome == Accepted(None)
            && Sound(rx', got + {s})
            && rx'.window == rx.window[Slot(s) := 1] && rx'.latest == rx.latest
  {
    ArriveRefines(rx, got, s, now);
    ArriveKeepsMarked(rx, got, s, now);
    ArriveNeverDividesByZero(rx, got, s, now);
    ArriveKeepsTrigger(rx, s, now);
  }

  function Numbers(frames: seq<Frame>): seq<u16> {
    if frames == [] then [] else Numbers(frames[..|frames| - 1]) + [frames[|frames| - 1].seqno]
  }

  ghost function Elements(numbers: seq<u16>): set<u16> {
    set s | s in numbers
  }

  ghost predicate Hit(numbers: seq<u16>, slot: nat) {
    exists p :: p in numbers && Slot(p) == slot
  }

  ghost predicate Deliverable(rx: Rx, got: set<u16>, numbers: seq<u16>) {
    Distinct(numbers) && forall s :: s in numbers ==> s <= rx.latest && InWindow(rx, s) && s !in got
  }

  lemma DeliverableFront(rx: Rx, got: set<u16>, front: seq<u16>, s: u16)
    requires Deliverable(rx, got, front + [s])
    ensures Deliverable(rx, got, front) && s !in front && s <= rx.latest && InWindow(rx, s) && s !in got
  {
    var numbers := front + [s];
    assert numbers[|front|] == s && s in numbers;
    forall x | x in front ensures x in numbers && x != s {
      var k :| 0 <= k < |front| && front[k] == x;
      assert numbers[k] == x;
    }
    forall i, j | 0 <= i < j < |front| ensures front[i] != front[j] { assert numbers[i] != numbers[j]; }
  }

  /** Everything queued arrives: all of it is accepted, and only its slots are marked. */
  lemma {:induction false} DeliverAllMarks(link: Link, frames: seq<Frame>, clock: u16 -> u64)
    requires Sound(link.rx, link.got) && Deliverable(link.rx, link.got, Numbers(frames))
    ensures var end := DeliverAll(link, frames, clock);
            && end.got == link.got + Elements(Numbers(frames)) && end.tx == link.tx
            && Sound(end.rx, end.got) && end.rx.latest == link.rx.latest
            && (forall k :: 0 <= k < WINDOW ==>
                  end.rx.window[k] == if Hit(Numbers(frames), k) then 1 else link.rx.window[k])
  {
    var numbers := Numbers(frames);
    if frames == [] {
      assert link.got + Elements(numbers) == link.got;
    } else {
      var front, s := frames[..|frames| - 1], frames[|frames| - 1].seqno;
      DeliverableFront(link.rx, link.got, Numbers(front), s);
      DeliverAllMarks(link, front, clock);
      var mid := DeliverAll(link, front, clock);
      DeliverOne(mid.rx, mid.got, s, clock(s));
      assert link.got + Elements(numbers) == mid.got + {s};
      forall k | 0 <= k < WINDOW
        ensures Hit(numbers, k) <==> Hit(Numbers(front), k) || Slot(s) == k
      {
        HitSnoc(Numbers(front), s, k);
      }
    }
  }

  lemma HitSnoc(numbers: seq<u16>, s: u16, k: nat)
    ensures Hit(numbers + [s], k) <==> Hit(numbers, k) || Slot(s) == k
  {
    assert s in numbers + [s] && forall p :: p in numbers + [s] <==> p in numbers || p == s;
  }

  lemma HitInRange(picks: seq<u16>, lo: nat, s: nat)
    requires lo <= s < lo + WINDOW && forall p :: p in picks ==> lo <= p < lo + WINDOW
    ensures Hit(picks, Slot(s)) <==> s in picks
  {
    if Hit(picks, Slot(s)) {
      var p :| p in picks && Slot(p) == Slot(s);
      if p < s { SlotsApart(p, s); } else if s < p { SlotsApart(s, p); }
    }
  }

  /** The first forty gaps list a prefix of the missing numbers, long enough for the budget. */
  lemma CappedGapsList(m: nat -> bool, hi: u16, i: u16, seqno: u16)
    requires i <= hi <= seqno && hi > 0
    ensures var numbers, list := Candidates(Take(Gaps(m, hi, i), HOLES_MAX), seqno), Listed(m, i, hi - 1);
            numbers <= list && Take(numbers, MAX_RETX) == Take(list, MAX_RETX)
  {
    var gaps := Gaps(m, hi, i);
    GapsListMissing(m, hi, i, seqno);
    CappedHolesAreEnough(m, hi, i, seqno);
    if |gaps| <= HOLES_MAX { assert Take(gaps, HOLES_MAX) == gaps; }
  }

  lemma DistinctPrefix(numbers: seq<u16>, list: seq<u16>)
    requires numbers <= list && Distinct(list)
    ensures Distinct(numbers)
  {
    forall i, j | 0 <= i < j < |numbers| ensures numbers[i] != numbers[j] { assert list[i] != list[j]; }
  }

  /** What the DACK asks for: a prefix of the missing numbers, long enough for the budget. */
  lemma AskedFor(link: Link, round: u16, before: u16)
    requires Linked(link) && Scanned(link, round, before)
    ensures var numbers, list := Asked(link, round, before), Reportable(link.rx, round);
            && numbers <= list && Distinct(numbers) && AllBelow(numbers, link.tx.seqno)
            && Take(numbers, MAX_RETX) == Take(list, MAX_RETX)
  {
    var m, hi := MissingIn(link.rx.window), ScanEnd(round);
    HolesAreFirstRuns(link.rx.window, before, round);
    CappedGapsList(m, hi, ScanStart(hi), link.tx.seqno);
    ListedIs(m, ScanStart(hi), hi - 1);
    DistinctPrefix(Asked(link, round, before), Reportable(link.rx, round));
    CandidatesAreBelow(Holes(link.rx.window, before, round), link.tx.seqno);
  }

  function PicksFor(link: Link, round: u16, before: u16): seq<u16> {
    Picks(QueryFor(link.tx, round), link.tx.timer, Asked(link, round, before))
  }

  lemma {:induction false} OpenOfDistinct(q: Query, timer: Timers, numbers: seq<u16>)
    requires Distinct(numbers)
    ensures Distinct(Open(q, timer, numbers)) && Firsts(Open(q, timer, numbers)) == Open(q, timer, numbers)
  {
    if numbers != [] {
      var front, s := numbers[..|numbers| - 1], numbers[|numbers| - 1];
      DistinctFront(numbers);
      OpenOfDistinct(q, timer, front);
      OpenIs(q, timer, front);
      FirstsSnoc(Open(q, timer, front), s);
    }
  }

  /** The answer is the kept copies of the picks, and the picks are paced. */
  lemma PicksAnswered(link: Link, round: u16, before: u16)
    requires Linked(link) && Undisturbed(link, round, before)
    ensures var q, picks := QueryFor(link.tx, round), PicksFor(link, round, before);
            var w := WalkOver(q, Start(link.tx.timer), Asked(link, round, before));
            && Intact(q) && AllLive(q, picks) && Distinct(picks)
            && w.timer == Stamp(q, link.tx.timer, picks) && w.queued == CopiesOf(q, picks)
  {
    var q, timer, numbers := QueryFor(link.tx, round), link.tx.timer, Asked(link, round, before);
    assert Intact(q) by { assert forall s: u16 :: CopyOf(q, s) == CopyOf(QueryFor(link.tx, 0), s); }
    AskedFor(link, round, before);
    OpenOfDistinct(q, timer, numbers);
    CallsAreCallable(q, timer, numbers);
    OnlyCallsCount(q, timer, numbers);
    CallsAnswered(q, timer, Calls(q, timer, numbers));
    PicksLive(q, timer, numbers);
  }

  lemma {:induction false} NumbersOfCopies(q: Query, picks: seq<u16>)
    requires Intact(q) && AllLive(q, picks)
    ensures Numbers(CopiesOf(q, picks)) == picks
  {
    if picks != [] {
      var front, s := picks[..|picks| - 1], picks[|picks| - 1];
      assert picks == front + [s] && s in picks;
      CopiesSnoc(q, front, s);
      NumbersOfCopies(q, front);
    }
  }

  /** A missing live number of the scanned range is in the window and can be delivered. */
  lemma MissingIsDeliverable(link: Link, round: u16, s: u16)
    requires Linked(link) && 0 < round && 5 * round <= link.rx.latest
    requires s in Reportable(link.rx, round) && Live(link.tx.seqno, s)
    ensures ScanStart(ScanEnd(round)) <= s < ScanEnd(round) - 1
    ensures s <= link.rx.latest && InWindow(link.rx, s) && s !in link.got
  {
    ListedIs(MissingIn(link.rx.window), ScanStart(ScanEnd(round)), ScanEnd(round) - 1);
    assert MissingIn(link.rx.window)(s);
  }

  lemma PicksAreMissing(link: Link, round: u16, before: u16)
    requires Linked(link) && Undisturbed(link, round, before)
    ensures forall s :: s in PicksFor(link, round, before) ==> s in Reportable(link.rx, round) && Live(link.tx.seqno, s)
    ensures Distinct(PicksFor(link, round, before))
  {
    AskedFor(link, round, before);
    PicksLive(QueryFor(link.tx, round), link.tx.timer, Asked(link, round, before));
  }

  lemma PicksAreDeliverable(link: Link, round: u16, before: u16)
    requires Linked(link) && Undisturbed(link, round, before)
    ensures Deliverable(link.rx, link.got, PicksFor(link, round, before))
    ensures forall s :: s in PicksFor(link, round, before) ==> ScanStart(ScanEnd(round)) <= s < ScanEnd(round) - 1
  {
    PicksAreMissing(link, round, before);
    forall s | s in PicksFor(link, round, before)
      ensures s <= link.rx.latest && InWindow(link.rx, s) && s !in link.got
      ensures ScanStart(ScanEnd(round)) <= s < ScanEnd(round) - 1
    {
      MissingIsDeliverable(link, round, s);
    }
  }

  /** One exchange delivers the picks and nothing else. */
  lemma ExchangeDelivers(link: Link, round: u16, before: u16, clock: u16 -> u64)
    requires Linked(link) && Undisturbed(link, round, before)
    ensures var end, picks := Exchange(link, round, before, clock), PicksFor(link, round, before);
            && Linked(end) && end.got == link.got + Elements(picks)
            && end.rx.latest == link.rx.latest && end.tx.seqno == link.tx.seqno
            && end.tx == link.tx.(timer := Stamp(QueryFor(link.tx, round), link.tx.timer, picks))
            && (forall k :: 0 <= k < WINDOW ==> end.rx.window[k] == if Hit(picks, k) then 1 else link.rx.window[k])
  {
    var q, picks := QueryFor(link.tx, round), PicksFor(link, round, before);
    PicksAnswered(link, round, before);
    NumbersOfCopies(q, picks);
    PicksAreDeliverable(link, round, before);
    DeliverAllMarks(link, CopiesOf(q, picks), clock);
    var end := Exchange(link, round, before, clock);
    assert forall s: u16 :: CopyOf(QueryFor(end.tx, 0), s) == CopyOf(QueryFor(link.tx, 0), s);
  }

  lemma ExchangeGives(link: Link, round: u16, before: u16, clock: u16 -> u64)
    requires Linked(link) && Undisturbed(link, round, before)
    ensures var end := Exchange(link, round, before, clock);
            && Linked(end) && end.got == link.got + Elements(PicksFor(link, round, before))
            && end.rx.latest == link.rx.latest
  {
    ExchangeDelivers(link, round, before, clock);
  }

  /** Within the scanned range exactly the picks stop being missing. */
  lemma PicksNoLongerMissing(link: Link, round: u16, before: u16, clock: u16 -> u64, s: nat)
    requires Linked(link) && Undisturbed(link, round, before)
    requires ScanStart(ScanEnd(round)) <= s < ScanEnd(round) - 1
    ensures var end, picks := Exchange(link, round, before, clock), PicksFor(link, round, before);
            MissingIn(end.rx.window)(s) <==> MissingIn(link.rx.window)(s) && s !in picks
  {
    ExchangeDelivers(link, round, before, clock);
    PicksAreDeliverable(link, round, before);
    HitInRange(PicksFor(link, round, before), ScanStart(ScanEnd(round)), s);
  }

  lemma {:induction false} OpenStarts(q: Query, timer: Timers, numbers: seq<u16>, n: nat)
    requires n <= |numbers| && forall k :: 0 <= k < n ==> Eligible(q, timer, numbers[k])
    ensures n <= |Open(q, timer, numbers)| && Open(q, timer, numbers)[..n] == numbers[..n]
  {
    if n < |numbers| {
      var front := numbers[..|numbers| - 1];
      assert front[..n] == numbers[..n];
      OpenStarts(q, timer, front, n);
    } else if n > 0 {
      var front, s := numbers[..n - 1], numbers[n - 1];
      OpenStarts(q, timer, front, n - 1);
      OpenNoLonger(q, timer, front);
      assert numbers == front + [s];
    }
  }

  lemma {:induction false} OpenNoLonger(q: Query, timer: Timers, numbers: seq<u16>)
    ensures |Open(q, timer, numbers)| <= |numbers|
  {
    if numbers != [] { OpenNoLonger(q, timer, numbers[..|numbers| - 1]); }
  }

  /** As far as the missing numbers are ready, the picks follow their order. */
  lemma PicksStart(link: Link, round: u16, before: u16, n: nat)
    requires Linked(link) && Undisturbed(link, round, before)
    requires n <= |Reportable(link.rx, round)| && n <= MAX_RETX
    requires forall k :: 0 <= k < n ==>
               Eligible(QueryFor(link.tx, round), link.tx.timer, Reportable(link.rx, round)[k])
    ensures n <= |PicksFor(link, round, before)|
    ensures PicksFor(link, round, before)[..n] == Reportable(link.rx, round)[..n]
  {
    var q, timer, numbers := QueryFor(link.tx, round), link.tx.timer, Asked(link, round, before);
    AskedFor(link, round, before);
    assert numbers[..n] == Take(numbers, MAX_RETX)[..n] == Reportable(link.rx, round)[..n];
    OpenOfDistinct(q, timer, numbers);
    OpenStarts(q, timer, numbers, n);
  }

  /** Without the first k of its missing numbers, the scanned range lists the rest. */
  lemma ListedAfterExchange(link: Link, round: u16, before: u16, clock: u16 -> u64, end: u16, k: nat)
    requires Linked(link) && Undisturbed(link, round, before) && end < ScanEnd(round)
    requires var list := Listed(MissingIn(link.rx.window), ScanStart(ScanEnd(round)), end);
             k <= |list| && forall s: u16 :: s < end ==> (s in PicksFor(link, round, before) <==> s in list[..k])
    ensures Listed(MissingIn(Exchange(link, round, before, clock).rx.window), ScanStart(ScanEnd(round)), end) ==
            Listed(MissingIn(link.rx.window), ScanStart(ScanEnd(round)), end)[k..]
  {
    var m, m' := MissingIn(link.rx.window), MissingIn(Exchange(link, round, before, clock).rx.window);
    var start := ScanStart(ScanEnd(round));
    forall s: nat | start <= s < end ensures m'(s) <==> m(s) && s !in Listed(m, start, end)[..k] {
      PicksNoLongerMissing(link, round, before, clock, s);
    }
    ListedAfter(m, m', start, end, k);
  }

  /** If all missing numbers are ready, the picks are the first twenty of them. */
  lemma PicksAreFirst(link: Link, round: u16, before: u16)
    requires Linked(link) && Undisturbed(link, round, before)
    requires forall s :: s in Reportable(link.rx, round) ==> Eligible(QueryFor(link.tx, round), link.tx.timer, s)
    ensures PicksFor(link, round, before) == Take(Reportable(link.rx, round), MAX_RETX)
  {
    var list, numbers := Reportable(link.rx, round), Asked(link, round, before);
    var n := |Take(list, MAX_RETX)|;
    forall k | 0 <= k < n ensures Eligible(QueryFor(link.tx, round), link.tx.timer, list[k]) { assert list[k] in list; }
    PicksStart(link, round, before, n);
    AskedFor(link, round, before);
    OpenOfDistinct(QueryFor(link.tx, round), link.tx.timer, numbers);
    OpenNoLonger(QueryFor(link.tx, round), link.tx.timer, numbers);
    var picks := PicksFor(link, round, before);
    assert |picks| == n && picks[..n] == picks;
  }

  /** If all missing numbers are live and unpaced, one exchange repairs the first twenty of
      them, or all. */
  lemma ExchangeRepairs(link: Link, round: u16, before: u16, clock: u16 -> u64)
    requires Linked(link) && Undisturbed(link, round, before)
    requires forall s :: s in Reportable(link.rx, round) ==> Eligible(QueryFor(link.tx, round), link.tx.timer, s)
    ensures var end, list := Exchange(link, round, before, clock), Reportable(link.rx, round);
            var repaired := Take(list, MAX_RETX);
            && Linked(end) && end.got == link.got + Elements(repaired)
            && Reportable(end.rx, round) == list[|repaired|..]
  {
    ExchangeGives(link, round, before, clock);
    PicksAreFirst(link, round, before);
    AllPicked(link, round, before, clock);
  }

  lemma AllPicked(link: Link, round: u16, before: u16, clock: u16 -> u64)
    requires Linked(link) && Undisturbed(link, round, before)
    requires PicksFor(link, round, before) == Take(Reportable(link.rx, round), MAX_RETX)
    ensures var list := Reportable(link.rx, round);
            Reportable(Exchange(link, round, before, clock).rx, round) == list[|Take(list, MAX_RETX)|..]
  {
    ListedAfterExchange(link, round, before, clock, ScanEnd(round) - 1, |Take(Reportable(link.rx, round), MAX_RETX)|);
  }
}
