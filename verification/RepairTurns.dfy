/** Repair over a run: DACKs of growing rounds, with sends and arrivals in between. A missing
    number that stays scanned, live and unpaced is repaired once the ones below it had their
    turns, twenty at a time; newer missing numbers only join behind it. */
module RepairTurns {
  import opened VmacTypes
  import opened ReceiverWindow
  import opened ReceiverTheorems
  import opened HoleScan
  import opened SenderRing
  import opened WalkTheorems
  import opened RepairProgress

  /** What may happen between two exchanges. */
  datatype Doing = Sends(payload: seq<u8>, id: nat) | Gets(s: u16, now: u64)

  /** Sends and arrivals, then the DACK for the round. */
  datatype Turn = Turn(meanwhile: seq<Doing>, round: u16, before: u16)

  /** Within the epoch; arrivals no older than the window, of frames that were sent. */
  predicate Possible(link: Link, doing: Doing) {
    match doing
    case Sends(payload, id) => link.tx.seqno < U16_LIMIT - 1
    case Gets(s, now) => InWindow(link.rx, s) && s < link.tx.seqno
  }

  ghost function Do(link: Link, doing: Doing): Link {
    match doing
    case Sends(payload, id) => link.(tx := Transmit(link.tx, payload, id).0)
    case Gets(s, now) => Deliver(link, s, now)
  }

  ghost function DoAll(link: Link, doings: seq<Doing>): Link
    decreases |doings|
  {
    if doings == [] then link else DoAll(Do(link, doings[0]), doings[1..])
  }

  ghost predicate AllPossible(link: Link, doings: seq<Doing>)
    decreases |doings|
  {
    doings == [] || (Possible(link, doings[0]) && AllPossible(Do(link, doings[0]), doings[1..]))
  }

  ghost function TurnOf(link: Link, turn: Turn, clock: u16 -> u64): Link {
    Exchange(DoAll(link, turn.meanwhile), turn.round, turn.before, clock)
  }

  ghost function AfterTurns(link: Link, turns: seq<Turn>, clock: u16 -> u64): Link
    decreases |turns|
  {
    if turns == [] then link else AfterTurns(TurnOf(link, turns[0], clock), turns[1..], clock)
  }

  /** The list's numbers up to x are live, and paced for no later round. */
  ghost predicate ReadyUpTo(tx: Tx, round: u16, list: seq<u16>, x: u16) {
    forall s :: s in list && s <= x ==> Eligible(QueryFor(tx, round), tx.timer, s)
  }

  /** Number x, unless received, is scanned, and it and what is missing below it are ready. */
  ghost predicate Waits(link: Link, round: u16, x: u16) {
    x in link.got
    || (x in Reportable(link.rx, round) && ReadyUpTo(link.tx, round, Reportable(link.rx, round), x))
  }

  /** Rounds grow, each exchange is undisturbed, and x waits in all of them. */
  ghost predicate Undergoes(link: Link, turns: seq<Turn>, clock: u16 -> u64, from: u16, x: u16)
    decreases |turns|
  {
    turns != [] ==>
      var turn := turns[0];
      var mid := DoAll(link, turn.meanwhile);
      && from < turn.round
      && AllPossible(link, turn.meanwhile)
      && Undisturbed(mid, turn.round, turn.before)
      && Waits(mid, turn.round, x)
      && Undergoes(TurnOf(link, turn, clock), turns[1..], clock, turn.round, x)
  }

  /** How many missing numbers the DACK for the round scans below x. */
  function Rank(link: Link, round: u16, x: u16): nat {
    |Listed(MissingIn(link.rx.window), ScanStart(ScanEnd(round)), x)|
  }

  // ---- what sends and arrivals keep ----

  lemma TransmitKeepsIntact(tx: Tx, payload: seq<u8>, id: nat)
    requires Intact(QueryFor(tx, 0)) && tx.seqno < U16_LIMIT - 1
    ensures Intact(QueryFor(Transmit(tx, payload, id).0, 0))
  {
    var tx' := Transmit(tx, payload, id).0;
    forall s: u16 | Live(tx'.seqno, s)
      ensures CopyOf(QueryFor(tx', 0), s).Some? && CopyOf(QueryFor(tx', 0), s).value.seqno == s
    {
      if s < tx.seqno {
        TxSlotsApart(s, tx.seqno);
        assert Live(tx.seqno, s);
      }
    }
  }

  lemma ArrivalKeepsLink(link: Link, s: u16, now: u64)
    requires Linked(link) && InWindow(link.rx, s) && s < link.tx.seqno
    ensures Linked(Deliver(link, s, now)) && link.got <= Deliver(link, s, now).got
    ensures link.rx.latest <= Deliver(link, s, now).rx.latest
  {
    ArriveRefines(link.rx, link.got, s, now);
    ArriveKeepsMarked(link.rx, link.got, s, now);
    ArriveNeverDividesByZero(link.rx, link.got, s, now);
    ArriveKeepsTrigger(link.rx, s, now);
    assert Deliver(link, s, now).rx.latest <= Max(link.rx.latest, s);
  }

  lemma DoKeeps(link: Link, doing: Doing)
    requires Linked(link) && Possible(link, doing)
    ensures Linked(Do(link, doing)) && link.got <= Do(link, doing).got
    ensures link.rx.latest <= Do(link, doing).rx.latest
  {
    match doing
    case Sends(payload, id) => TransmitKeepsIntact(link.tx, payload, id);
    case Gets(s, now) => ArrivalKeepsLink(link, s, now);
  }

  lemma {:induction false} DoAllKeeps(link: Link, doings: seq<Doing>)
    requires Linked(link) && AllPossible(link, doings)
    ensures var end := DoAll(link, doings);
            Linked(end) && link.got <= end.got && link.rx.latest <= end.rx.latest
    decreases |doings|
  {
    if doings != [] {
      DoKeeps(link, doings[0]);
      DoAllKeeps(Do(link, doings[0]), doings[1..]);
    }
  }

  /** What is missing in the window later was missing before, unless it is newer. */
  lemma MissedBefore(link: Link, doing: Doing, s: u16)
    requires Linked(link) && Possible(link, doing)
    requires s <= link.rx.latest && InWindow(Do(link, doing).rx, s) && MissingIn(Do(link, doing).rx.window)(s)
    ensures MissingIn(link.rx.window)(s)
  {
    if doing.Gets? && !Arrive(link.rx, doing.s, doing.now).1.Dropped? {
      AcceptedAt(link.rx, doing.s, doing.now, s);
    }
  }

  lemma {:induction false} MissedAllAlong(link: Link, doings: seq<Doing>, s: u16)
    requires Linked(link) && AllPossible(link, doings)
    requires s <= link.rx.latest && InWindow(DoAll(link, doings).rx, s) && MissingIn(DoAll(link, doings).rx.window)(s)
    ensures MissingIn(link.rx.window)(s)
    decreases |doings|
  {
    if doings != [] {
      var next := Do(link, doings[0]);
      DoKeeps(link, doings[0]);
      MissedAllAlong(next, doings[1..], s);
      DoAllKeeps(next, doings[1..]);
      MissedBefore(link, doings[0], s);
    }
  }

  // ---- ranks ----

  lemma {:induction false} ListedSplit(m: nat -> bool, i: nat, x: u16, end: u16)
    requires i <= x <= end
    ensures Listed(m, i, end) == Listed(m, i, x) + Listed(m, x, end)
    decreases x - i
  {
    if i < x { ListedSplit(m, i + 1, x, end); }
  }

  /** A list that starts later and misses less is no longer. */
  lemma {:induction false} ListedShrinks(m: nat -> bool, m': nat -> bool, i: nat, i': nat, end: u16)
    requires i <= i' && forall s: nat :: i' <= s < end && m'(s) ==> m(s)
    ensures |Listed(m', i', end)| <= |Listed(m, i, end)|
    decreases end - i
  {
    if i < end {
      if i < i' {
        ListedShrinks(m, m', i + 1, i', end);
      } else {
        ListedShrinks(m, m', i + 1, i' + 1, end);
      }
    }
  }

  /** Number x stands in the list of missing numbers at its rank. */
  lemma StandsAtRank(link: Link, round: u16, x: u16)
    requires 0 < round && 5 * round < U16_LIMIT && x in Reportable(link.rx, round)
    ensures var list, rank := Reportable(link.rx, round), Rank(link, round, x);
            && rank < |list| && list[rank] == x
            && list[..rank] == Listed(MissingIn(link.rx.window), ScanStart(ScanEnd(round)), x)
            && (forall k :: 0 <= k <= rank ==> list[k] in list && list[k] <= x)
  {
    var m, start, end := MissingIn(link.rx.window), ScanStart(ScanEnd(round)), ScanEnd(round) - 1;
    ListedIs(m, start, end);
    ListedIs(m, start, x);
    ListedSplit(m, start, x, end);
    var below, list := Listed(m, start, x), Reportable(link.rx, round);
    assert Listed(m, x, end)[0] == x;
    forall k | 0 <= k < |below| ensures list[k] <= x { assert below[k] in below; }
  }

  /** One exchange repairs x, or twenty missing numbers below it. */
  lemma TurnRepairs(link: Link, round: u16, before: u16, clock: u16 -> u64, x: u16)
    requires Linked(link) && Undisturbed(link, round, before)
    requires x in Reportable(link.rx, round) && ReadyUpTo(link.tx, round, Reportable(link.rx, round), x)
    ensures var end := Exchange(link, round, before, clock);
            x in end.got || Rank(end, round, x) + MAX_RETX == Rank(link, round, x)
  {
    var list, rank := Reportable(link.rx, round), Rank(link, round, x);
    StandsAtRank(link, round, x);
    ExchangeDelivers(link, round, before, clock);
    var n := if rank < MAX_RETX then rank + 1 else MAX_RETX;
    PicksStart(link, round, before, n);
    var picks := PicksFor(link, round, before);
    if rank < MAX_RETX {
      assert picks[rank] == picks[..n][rank] == x && x in picks;
    } else {
      assert picks == picks[..MAX_RETX] == list[..MAX_RETX] == list[..rank][..MAX_RETX];
      InReportable(link, round, x);
      ListedAfterExchange(link, round, before, clock, x, MAX_RETX);
    }
  }

  lemma InReportable(link: Link, round: u16, x: u16)
    requires 0 < round && 5 * round < U16_LIMIT && x in Reportable(link.rx, round)
    ensures ScanStart(ScanEnd(round)) <= x < ScanEnd(round) - 1
  {
    ListedIs(MissingIn(link.rx.window), ScanStart(ScanEnd(round)), ScanEnd(round) - 1);
  }

  /** Between two exchanges nothing joins below x: what is missing there was missing before. */
  lemma NothingJoins(link: Link, doings: seq<Doing>, mid: Link, round: u16, x: u16, s: nat)
    requires Linked(link) && AllPossible(link, doings) && x <= link.rx.latest && mid == DoAll(link, doings)
    requires 0 < round && 5 * round <= mid.rx.latest
    requires x in Reportable(mid.rx, round) && ReadyUpTo(mid.tx, round, Reportable(mid.rx, round), x)
    requires ScanStart(ScanEnd(round)) <= s < x && MissingIn(mid.rx.window)(s)
    ensures MissingIn(link.rx.window)(s)
  {
    DoAllKeeps(link, doings);
    InReportable(mid, round, x);
    ListedIs(MissingIn(mid.rx.window), ScanStart(ScanEnd(round)), ScanEnd(round) - 1);
    assert s in Reportable(mid.rx, round);
    assert Eligible(QueryFor(mid.tx, round), mid.tx.timer, s);
    MissedAllAlong(link, doings, s);
  }

  lemma RankFalls(link: Link, doings: seq<Doing>, mid: Link, from: u16, round: u16, x: u16)
    requires Linked(link) && AllPossible(link, doings) && x <= link.rx.latest && mid == DoAll(link, doings)
    requires from <= round && 0 < round && 5 * round <= mid.rx.latest
    requires x in Reportable(mid.rx, round) && ReadyUpTo(mid.tx, round, Reportable(mid.rx, round), x)
    ensures Rank(mid, round, x) <= Rank(link, from, x)
  {
    var m, m', start := MissingIn(link.rx.window), MissingIn(mid.rx.window), ScanStart(ScanEnd(round));
    forall s: nat | start <= s < x && m'(s) ensures m(s) {
      NothingJoins(link, doings, mid, round, x, s);
    }
    LaterStart(from, round);
    ListedShrinks(m, m', ScanStart(ScanEnd(from)), start, x);
  }

  lemma LaterStart(from: u16, round: u16)
    requires from <= round && 5 * round < U16_LIMIT
    ensures ScanStart(ScanEnd(from)) <= ScanStart(ScanEnd(round))
  {
  }

  lemma ExchangeKeeps(link: Link, round: u16, before: u16, clock: u16 -> u64)
    requires Linked(link) && Undisturbed(link, round, before)
    ensures var end := Exchange(link, round, before, clock);
            Linked(end) && link.got <= end.got && end.rx.latest == link.rx.latest
  {
    ExchangeGives(link, round, before, clock);
  }

  lemma WaitsBelowLatest(link: Link, round: u16, x: u16)
    requires Linked(link) && 0 < round && 5 * round <= link.rx.latest && Waits(link, round, x)
    ensures x <= link.rx.latest
  {
    if x !in link.got { InReportable(link, round, x); }
  }

  /** One turn: x is repaired, or its rank falls by twenty. */
  lemma OneTurn(link: Link, turn: Turn, clock: u16 -> u64, x: u16)
    requires Linked(link) && AllPossible(link, turn.meanwhile)
    requires var mid := DoAll(link, turn.meanwhile);
             Undisturbed(mid, turn.round, turn.before) && Waits(mid, turn.round, x)
    ensures var mid, end := DoAll(link, turn.meanwhile), TurnOf(link, turn, clock);
            && Linked(end) && link.got <= mid.got <= end.got && x <= end.rx.latest
            && (x in end.got || Rank(end, turn.round, x) + MAX_RETX == Rank(mid, turn.round, x))
  {
    var mid := DoAll(link, turn.meanwhile);
    DoAllKeeps(link, turn.meanwhile);
    ExchangeKeeps(mid, turn.round, turn.before, clock);
    WaitsBelowLatest(mid, turn.round, x);
    if x !in mid.got { TurnRepairs(mid, turn.round, turn.before, clock, x); }
  }

  lemma {:induction false} GotStays(link: Link, turns: seq<Turn>, clock: u16 -> u64, from: u16, x: u16)
    requires Linked(link) && x in link.got
    ensures Undergoes(link, turns, clock, from, x) ==> x in AfterTurns(link, turns, clock).got
    decreases |turns|
  {
    if Undergoes(link, turns, clock, from, x) && turns != [] {
      OneTurn(link, turns[0], clock, x);
      GotStays(TurnOf(link, turns[0], clock), turns[1..], clock, turns[0].round, x);
    }
  }

  /** From the state after an exchange: enough further turns repair x. */
  lemma {:induction false} RankRunsOut(link: Link, turns: seq<Turn>, clock: u16 -> u64, from: u16, x: u16)
    requires Linked(link) && x <= link.rx.latest
    ensures Undergoes(link, turns, clock, from, x) && (x in link.got || Rank(link, from, x) < MAX_RETX * |turns|) ==>
              x in AfterTurns(link, turns, clock).got
    decreases |turns|
  {
    if Undergoes(link, turns, clock, from, x) {
      if x in link.got {
        GotStays(link, turns, clock, from, x);
      } else if turns != [] {
        var turn := turns[0];
        OneTurn(link, turn, clock, x);
        if x !in DoAll(link, turn.meanwhile).got {
          RankFalls(link, turn.meanwhile, DoAll(link, turn.meanwhile), from, turn.round, x);
        }
        RankRunsOut(TurnOf(link, turn, clock), turns[1..], clock, turn.round, x);
      }
    }
  }

  /** A number that waits in every turn, with rank missing numbers below it at the first scan,
      is repaired after rank / 20 + 1 exchanges of growing rounds, whatever is sent and
      arrives in between. */
  lemma MissingIsRepaired(link: Link, turns: seq<Turn>, clock: u16 -> u64, x: u16)
    requires Linked(link) && turns != []
    ensures var first := turns[0];
            && Undergoes(link, turns, clock, 0, x)
            && Rank(DoAll(link, first.meanwhile), first.round, x) < MAX_RETX * |turns| ==>
              x in AfterTurns(link, turns, clock).got
  {
    if Undergoes(link, turns, clock, 0, x) {
      OneTurn(link, turns[0], clock, x);
      RankRunsOut(TurnOf(link, turns[0], clock), turns[1..], clock, turns[0].round, x);
    }
  }

  // ---- the conditions can be met ----

  /** Frames 0 to 5 * round + 5 were sent with clear timers, and of those up to 5 * round only
      the last was received. */
  ghost predicate OnlyLastReceived(link: Link, round: u16) {
    && 5 <= round < 98 && Linked(link) && link.tx.seqno == 5 * round + 6 && link.rx.latest == 5 * round
    && (forall k :: 0 <= k < WINDOW_TX ==> link.tx.timer[k] == 0)
    && (forall t: u16 :: t < link.rx.latest ==> MissingIn(link.rx.window)(t))
  }

  lemma OnlyLastArrives(tx: Tx, garbage: Window, now: u64, round: u16) returns (link: Link)
    requires 5 <= round < 98 && tx.seqno == 5 * round + 6 && Intact(QueryFor(tx, 0))
    requires garbage[0] == 0 && forall k :: 0 <= k < WINDOW_TX ==> tx.timer[k] == 0
    ensures link == Deliver(Link(tx, Fresh(garbage), {}), 5 * round, now) && OnlyLastReceived(link, round)
  {
    var start, s := Link(tx, Fresh(garbage), {}), 5 * round;
    FreshRefines(garbage);
    ArrivalKeepsLink(start, s, now);
    link := Deliver(start, s, now);
    forall t: u16 | t < s ensures MissingIn(link.rx.window)(t) {
      AcceptedAt(Fresh(garbage), s, now, t);
    }
  }

  lemma SmallIsUndisturbed(link: Link, round: u16, before: u16)
    requires 0 < round && 5 * round <= link.rx.latest && link.tx.seqno < WINDOW_TX && before != 0
    ensures Undisturbed(link, round, before)
  {
    var q, numbers := QueryFor(link.tx, round), Asked(link, round, before);
    CandidatesAreBelow(Holes(link.rx.window, before, round), link.tx.seqno);
    CallsAreCallable(q, link.tx.timer, numbers);
    var calls := Calls(q, link.tx.timer, numbers);
    forall j | 0 <= j < |calls| ensures calls[j] != WINDOW_TX { assert calls[j] in calls && calls[j] in numbers; }
  }

  lemma AllListed(m: nat -> bool, end: u16)
    requires forall s: nat :: s < end ==> m(s)
    ensures Listed(m, 0, end) == Range(0, end)
  {
    ListedRun(m, 0, end, end);
    assert Listed(m, end, end) == [];
  }

  /** Then everything below is reported, each number at its own rank. */
  lemma FirstWaits(link: Link, round: u16, x: u16)
    requires OnlyLastReceived(link, round) && x < 5 * round - 1
    ensures Reportable(link.rx, round) == Range(0, 5 * round - 1)
    ensures Waits(link, round, x) && Rank(link, round, x) == x
  {
    var m, end: u16 := MissingIn(link.rx.window), 5 * round - 1;
    assert ScanEnd(round) == 5 * round && ScanStart(5 * round) == 0;
    AllListed(m, end);
    AllListed(m, x);
    RangeIs(0, end);
    RangeIs(0, x);
    assert Range(0, end)[x] == x;
  }

  /** The first exchange picks numbers 0 to 19. */
  lemma FirstTwentyGo(link: Link, round: u16, before: u16)
    requires OnlyLastReceived(link, round) && before != 0
    ensures Undisturbed(link, round, before)
    ensures forall s: u16 :: s in PicksFor(link, round, before) <==> s < MAX_RETX
  {
    SmallIsUndisturbed(link, round, before);
    FirstWaits(link, round, 0);
    PicksAreFirst(link, round, before);
    TakeOfRange(5 * round - 1, MAX_RETX);
  }

  lemma TakeOfRange(end: u16, n: nat)
    requires n <= end
    ensures forall s: u16 :: s in Take(Range(0, end), n) <==> s < n
  {
    RangeIs(0, end);
    forall s: u16 | s < n ensures s in Take(Range(0, end), n) { assert Take(Range(0, end), n)[s] == s; }
  }

  lemma FirstExchange(link: Link, round: u16, before: u16, clock: u16 -> u64)
    requires OnlyLastReceived(link, round) && before != 0
    ensures var end := Exchange(link, round, before, clock);
            && Linked(end) && end.rx.latest == 5 * round && end.tx.seqno == 5 * round + 6
            && end.tx.timer == Stamp(QueryFor(link.tx, round), link.tx.timer, PicksFor(link, round, before))
  {
    SmallIsUndisturbed(link, round, before);
    ExchangeDelivers(link, round, before, clock);
  }

  /** After it the others are still missing, and unpaced. */
  lemma AfterFirst(link: Link, round: u16, before: u16, clock: u16 -> u64, s: u16)
    requires OnlyLastReceived(link, round) && before != 0 && s < 5 * round - 1
    ensures var end := Exchange(link, round, before, clock);
            && (MissingIn(end.rx.window)(s) <==> s >= MAX_RETX)
            && (s >= MAX_RETX ==> end.tx.timer[TxSlot(s)] == 0)
  {
    FirstTwentyGo(link, round, before);
    FirstExchange(link, round, before, clock);
    PicksNoLongerMissing(link, round, before, clock, s);
    PicksAreMissing(link, round, before);
    StampAt(QueryFor(link.tx, round), link.tx.timer, PicksFor(link, round, before), s);
  }

  /** A newer number arrives, and the older ones stay as they were. */
  lemma NewerArrives(link: Link, s: u16, now: u64, t: u16)
    requires Linked(link) && link.rx.latest < s < link.tx.seqno && t < link.rx.latest && s < WINDOW
    ensures var end := Deliver(link, s, now);
            && Linked(end) && end.rx.latest == s && end.tx == link.tx
            && (MissingIn(end.rx.window)(t) <==> MissingIn(link.rx.window)(t))
  {
    ArrivalKeepsLink(link, s, now);
    ArriveRefines(link.rx, link.got, s, now);
    AcceptedAt(link.rx, s, now, t);
  }

  /** The state that the next DACK finds. */
  ghost function Later(link: Link, round: u16, before: u16, clock: u16 -> u64, now: u64): Link
    requires round < 98
  {
    Deliver(Exchange(link, round, before, clock), 5 * round + 5, now)
  }

  lemma SecondState(link: Link, round: u16, before: u16, clock: u16 -> u64, now: u64, s: u16)
    requires OnlyLastReceived(link, round) && before != 0 && s < 5 * round - 1
    ensures var end, mid := Exchange(link, round, before, clock), Later(link, round, before, clock, now);
            && Possible(end, Gets(5 * round + 5, now))
            && mid.rx.latest == 5 * round + 5 && mid.tx.seqno == 5 * round + 6
            && (MissingIn(mid.rx.window)(s) <==> s >= MAX_RETX)
            && (s >= MAX_RETX ==> mid.tx.timer[TxSlot(s)] == 0)
  {
    FirstExchange(link, round, before, clock);
    AfterFirst(link, round, before, clock, s);
    NewerArrives(Exchange(link, round, before, clock), 5 * round + 5, now, s);
  }

  /** The others wait, missing still, and unpaced. */
  lemma SecondWaits(link: Link, round: u16, before: u16, clock: u16 -> u64, now: u64, x: u16)
    requires OnlyLastReceived(link, round) && before != 0 && MAX_RETX <= x < 5 * round - 1
    ensures var mid := Later(link, round, before, clock, now);
            && Possible(Exchange(link, round, before, clock), Gets(5 * round + 5, now))
            && Undisturbed(mid, round + 1, before) && Waits(mid, round + 1, x)
  {
    var mid := Later(link, round, before, clock, now);
    forall s: u16 | s <= x
      ensures MissingIn(mid.rx.window)(s) ==> mid.tx.timer[TxSlot(s)] == 0
    {
      SecondState(link, round, before, clock, now, s);
    }
    SecondState(link, round, before, clock, now, x);
    SmallIsUndisturbed(mid, round + 1, before);
    UnpacedWaits(mid, round + 1, x);
  }

  lemma UnpacedWaits(link: Link, round: u16, x: u16)
    requires 0 < round && 5 * round < link.tx.seqno < WINDOW_TX && x < 5 * round - 1
    requires MissingIn(link.rx.window)(x)
    requires forall s: u16 :: s <= x && MissingIn(link.rx.window)(s) ==> link.tx.timer[TxSlot(s)] == 0
    ensures Waits(link, round, x)
  {
    ListedIs(MissingIn(link.rx.window), 0, 5 * round - 1);
  }

  /** The conditions can be met, also where a turn repairs twenty others: of 0 to 5 * round only
      the last was received, the DACK of the round gets 0 to 19 repaired, and each number from
      20 on waits for this DACK and the next. */
  lemma TurnsHappen(tx: Tx, garbage: Window, now: u64, clock: u16 -> u64, round: u16, x: u16)
    returns (link: Link, turns: seq<Turn>)
    requires 5 <= round < 98 && tx.seqno == 5 * round + 6 && Intact(QueryFor(tx, 0))
    requires garbage[0] == 0 && forall k :: 0 <= k < WINDOW_TX ==> tx.timer[k] == 0
    requires MAX_RETX <= x < 5 * round - 1
    ensures Linked(link) && |turns| == 2 && Undergoes(link, turns, clock, 0, x)
    ensures turns[0].meanwhile == [] && Rank(link, turns[0].round, x) == x
    ensures MissingIn(TurnOf(link, turns[0], clock).rx.window)(x)
    ensures x < 2 * MAX_RETX ==> x in AfterTurns(link, turns, clock).got
  {
    link := OnlyLastArrives(tx, garbage, now, round);
    turns := TwoTurns(link, round, 1, clock, now, x);
    FirstWaits(link, round, x);
    AfterFirst(link, round, 1, clock, x);
    MissingIsRepaired(link, turns, clock, x);
  }

  lemma TwoTurns(link: Link, round: u16, before: u16, clock: u16 -> u64, now: u64, x: u16)
    returns (turns: seq<Turn>)
    requires OnlyLastReceived(link, round) && before != 0 && MAX_RETX <= x < 5 * round - 1
    ensures turns == [Turn([], round, before), Turn([Gets(5 * round + 5, now)], round + 1, before)]
    ensures Undergoes(link, turns, clock, 0, x)
    ensures TurnOf(link, turns[0], clock) == Exchange(link, round, before, clock)
  {
    FirstWaits(link, round, x);
    SmallIsUndisturbed(link, round, before);
    SecondWaits(link, round, before, clock, now, x);
    var end, mid := Exchange(link, round, before, clock), Later(link, round, before, clock, now);
    turns := BothTurns(link, end, mid, 5 * round + 5, now, round, before, clock, x);
  }

  lemma BothTurns(link: Link, end: Link, mid: Link, s: u16, now: u64, round: u16, before: u16, clock: u16 -> u64,
                  x: u16)
    returns (turns: seq<Turn>)
    requires 0 < round < U16_LIMIT - 1 && end == Exchange(link, round, before, clock) && mid == Deliver(end, s, now)
    requires Undisturbed(link, round, before) && Waits(link, round, x)
    requires Possible(end, Gets(s, now)) && Undisturbed(mid, round + 1, before) && Waits(mid, round + 1, x)
    ensures turns == [Turn([], round, before), Turn([Gets(s, now)], round + 1, before)]
    ensures Undergoes(link, turns, clock, 0, x) && TurnOf(link, turns[0], clock) == end
  {
    var second := LastTurn(end, mid, s, now, round + 1, before, clock, round, x);
    turns := FirstTurn(link, end, round, before, second, clock, x);
  }

  lemma FirstTurn(link: Link, end: Link, round: u16, before: u16, second: Turn, clock: u16 -> u64, x: u16)
    returns (turns: seq<Turn>)
    requires 0 < round && Undisturbed(link, round, before) && Waits(link, round, x)
    requires end == Exchange(link, round, before, clock) && Undergoes(end, [second], clock, round, x)
    ensures turns == [Turn([], round, before), second] && Undergoes(link, turns, clock, 0, x)
    ensures TurnOf(link, turns[0], clock) == end
  {
    turns := [Turn([], round, before), second];
    assert turns[1..] == [second];
  }

  lemma LastTurn(link: Link, mid: Link, s: u16, now: u64, round: u16, before: u16, clock: u16 -> u64, from: u16,
                 x: u16)
    returns (turn: Turn)
    requires Possible(link, Gets(s, now)) && from < round && mid == Deliver(link, s, now)
    requires Undisturbed(mid, round, before) && Waits(mid, round, x)
    ensures turn == Turn([Gets(s, now)], round, before) && Undergoes(link, [turn], clock, from, x)
  {
    turn := Turn([Gets(s, now)], round, before);
    assert DoAll(mid, turn.meanwhile[1..]) == mid;
    assert DoAll(link, turn.meanwhile) == mid;
    assert [turn][1..] == [];
  }
}
