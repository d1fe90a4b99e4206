/** The three-rung rate ladder of vmac/rate.c, moved by loss reports. */
module RateLadder {
  import opened VmacTypes

  type Triple = t: seq<u8> | |t| == 3 witness [0, 0, 0]

  /** The global rungs, and for one encoding the rounds of its last raise and fall of each. */
  datatype Rates = Rates(idx: Triple, inc: Triple, dec: Triple)

  /** Missing frames by rung, reported for a round. */
  datatype Report = Report(rate: Triple, round: u8)

  const INITIAL: Triple := [2, 3, 11]

  function High(r: Report): int {
    r.round * 7 / 10
  }

  function Low(r: Report): int {
    r.round / 2
  }

  /** The room a rung has below it; the lowest may go down to zero. */
  predicate MayFall(idx: Triple, k: nat)
    requires k < 3
  {
    if k == 0 then idx[0] > 0 else (idx[k] as int) - 1 > idx[k - 1]
  }

  predicate MayRise(idx: Triple, k: nat)
    requires k < 3
  {
    if k == 2 then idx[2] < 35 else idx[k] < (idx[k + 1] as int) - 1 && idx[k] < (if k == 0 then 10 else 11)
  }

  /** One below, where 34 does not exist. */
  function Lower(k: nat, x: u8): u8
    requires x > 0
  {
    if k == 2 && x - 1 == 34 then 11 else x - 1
  }

  /** One above, where 12 does not exist. */
  function Upper(k: nat, x: u8): u8
    requires x < 255
  {
    if k == 2 && x + 1 == 12 then 35 else x + 1
  }

  predicate Falls(s: Rates, r: Report, k: nat)
    requires k < 3
  {
    r.rate[k] > Low(r) && MayFall(s.idx, k) && s.dec[k] < r.round
  }

  predicate Rises(s: Rates, r: Report, k: nat)
    requires k < 3
  {
    r.rate[k] < High(r) && MayRise(s.idx, k) && s.inc[k] + 2 < r.round && r.round != s.dec[k]
  }

  function Fall(s: Rates, r: Report, k: nat): Rates
    requires k < 3
  {
    if Falls(s, r, k) then s.(idx := s.idx[k := Lower(k, s.idx[k])], dec := s.dec[k := r.round]) else s
  }

  function Rise(s: Rates, r: Report, k: nat): Rates
    requires k < 3
  {
    if Rises(s, r, k) then s.(idx := s.idx[k := Upper(k, s.idx[k])], inc := s.inc[k := r.round]) else s
  }

  /** One report: falls from the lowest rung up, then rises from the highest down. */
  function Adapt(s: Rates, r: Report): Rates {
    Rise(Rise(Rise(Fall(Fall(Fall(s, r, 0), r, 1), r, 2), r, 2), r, 1), r, 0)
  }

  class RateControl {
    const rate_idx: array<u8>

    ghost predicate Valid()
      reads this
    {
      rate_idx.Length == 3
    }

    /** rate_init. */
    constructor ()
      ensures Valid() && fresh(rate_idx) && rate_idx[..] == INITIAL
    {
      rate_idx := new u8[3][2, 3, 11];
    }

    ghost function With(inc: array<u8>, dec: array<u8>): Rates
      requires Valid() && inc.Length == 3 && dec.Length == 3
      reads this, rate_idx, inc, dec
    {
      Rates(rate_idx[..], inc[..], dec[..])
    }

    method FallRung(r: Report, k: nat, inc: array<u8>, dec: array<u8>)
      requires Valid() && inc.Length == 3 && dec.Length == 3 && k < 3
      requires inc != dec && inc != rate_idx && dec != rate_idx
      modifies rate_idx, dec
      ensures With(inc, dec) == Fall(old(With(inc, dec)), r, k)
    {
      if r.rate[k] > r.round / 2
         && (if k == 0 then rate_idx[0] > 0 else (rate_idx[k] as int) - 1 > rate_idx[k - 1])
         && dec[k] < r.round {
        rate_idx[k] := rate_idx[k] - 1;
        if k == 2 && rate_idx[2] == 34 {
          rate_idx[2] := 11;
        }
        dec[k] := r.round;
      }
    }

    method RiseRung(r: Report, k: nat, inc: array<u8>, dec: array<u8>)
      requires Valid() && inc.Length == 3 && dec.Length == 3 && k < 3
      requires inc != dec && inc != rate_idx && dec != rate_idx
      modifies rate_idx, inc
      ensures With(inc, dec) == Rise(old(With(inc, dec)), r, k)
    {
      if r.rate[k] < r.round * 7 / 10
         && (if k == 2 then rate_idx[2] < 35
             else rate_idx[k] < (rate_idx[k + 1] as int) - 1 && rate_idx[k] < (if k == 0 then 10 else 11))
         && inc[k] + 2 < r.round && r.round != dec[k] {
        rate_idx[k] := rate_idx[k] + 1;
        if k == 2 && rate_idx[2] == 12 {
          rate_idx[2] := 35;
        }
        inc[k] := r.round;
      }
    }

    /** rate_c; a report that finds the lock taken is ignored. */
    method Adjust(r: Report, inc: array<u8>, dec: array<u8>, busy: bool)
      requires Valid() && inc.Length == 3 && dec.Length == 3
      requires inc != dec && inc != rate_idx && dec != rate_idx
      modifies rate_idx, inc, dec
      ensures With(inc, dec) == if busy then old(With(inc, dec)) else Adapt(old(With(inc, dec)), r)
    {
      if busy {
        return;
      }
      FallRung(r, 0, inc, dec);
      FallRung(r, 1, inc, dec);
      FallRung(r, 2, inc, dec);
      RiseRung(r, 2, inc, dec);
      RiseRung(r, 1, inc, dec);
      RiseRung(r, 0, inc, dec);
    }
  }

  // ---- the ladder's invariant and the bound on its moves ----

  ghost predicate Laddered(idx: Triple) {
    && idx[0] < idx[1] <= idx[2]
    && (idx[1] == idx[2] ==> idx[1] == 11)
    && idx[0] <= 10 && idx[1] <= 11 && (idx[2] <= 11 || idx[2] == 35)
  }

  /** A report for the encoding watched, or for another one, which moves the shared rungs
      by its own marks. */
  datatype Event = Own(report: Report) | Other(report: Report, inc: Triple, dec: Triple)

  /** Whether one report raises and lowers the rung, as 0 or 1 each. */
  ghost function Moves(s: Rates, r: Report, k: nat): (nat, nat)
    requires k < 3
  {
    var low := Fall(Fall(Fall(s, r, 0), r, 1), r, 2);
    var before := if k == 2 then low else if k == 1 then Rise(low, r, 2) else Rise(Rise(low, r, 2), r, 1);
    var fell := if k == 0 then s else if k == 1 then Fall(s, r, 0) else Fall(Fall(s, r, 0), r, 1);
    (if Rises(before, r, k) then 1 else 0, if Falls(fell, r, k) then 1 else 0)
  }

  /** Rungs raised and lowered by the watched encoding, over a run from rate_init and from
      cleared marks. */
  ghost function Run(events: seq<Event>, k: nat): (Rates, nat, nat)
    requires k < 3
  {
    if events == [] then (Rates(INITIAL, [0, 0, 0], [0, 0, 0]), 0, 0)
    else
      var (s, raised, lowered) := Run(events[..|events| - 1], k);
      match events[|events| - 1]
      case Own(report) =>
        var (up, down) := Moves(s, report, k);
        (Adapt(s, report), raised + up, lowered + down)
      case Other(report, inc, dec) =>
        (s.(idx := Adapt(Rates(s.idx, inc, dec), report).idx), raised, lowered)
  }

  lemma AdaptKeepsLadder(s: Rates, r: Report)
    requires Laddered(s.idx)
    ensures Laddered(Adapt(s, r).idx)
  {
  }

  /** A raise moves the mark by at least three rounds, a fall by at least one. */
  lemma MovesAreMarked(s: Rates, r: Report, k: nat)
    requires k < 3
    ensures var (up, down) := Moves(s, r, k);
            Adapt(s, r).inc[k] >= s.inc[k] + 3 * up && Adapt(s, r).dec[k] >= s.dec[k] + down
  {
  }

  /** Under any reports for any encodings the rungs stay a ladder, and one encoding raises a
      rung at most 85 times and lowers it at most 255 times ever. */
  lemma {:induction false} LadderHolds(events: seq<Event>, k: nat)
    requires k < 3
    ensures var (s, raised, lowered) := Run(events, k);
            && Laddered(s.idx)
            && 3 * raised <= s.inc[k] && lowered <= s.dec[k]
            && raised <= 85 && lowered <= 255
  {
    if events != [] {
      var front := events[..|events| - 1];
      LadderHolds(front, k);
      var s := Run(front, k).0;
      match events[|events| - 1]
      case Own(report) => AdaptKeepsLadder(s, report); MovesAreMarked(s, report, k);
      case Other(report, inc, dec) => AdaptKeepsLadder(Rates(s.idx, inc, dec), report);
    }
  }

  /** One report never lowers a rung and raises it again. */
  lemma NoRungMovesTwice(s: Rates, r: Report, k: nat)
    requires k < 3
    ensures var (up, down) := Moves(s, r, k); up + down <= 1
  {
    var low := Fall(Fall(Fall(s, r, 0), r, 1), r, 2);
    assert forall j: nat, x: Rates :: j < 3 ==> Rise(x, r, j).dec == x.dec;
    assert Moves(s, r, k).1 == 1 ==> low.dec[k] == r.round;
  }

  /** Where the rung below stood when this one was judged for a fall: it rises only later. */
  function Beneath(s: Rates, t: Rates, k: nat): int
    requires k < 3
  {
    if k == 0 then -1 else Min(s.idx[k - 1], t.idx[k - 1])
  }

  function Fallen(s: Rates, r: Report): Rates {
    Fall(Fall(Fall(s, r, 0), r, 1), r, 2)
  }

  lemma FallenIs(s: Rates, r: Report, k: nat)
    requires k < 3
    ensures var low := Fallen(s, r);
            && low.inc == s.inc && low.idx[k] <= s.idx[k]
            && (low.idx[k] < s.idx[k] <==>
                  && 2 * r.rate[k] > r.round && s.dec[k] < r.round
                  && (s.idx[k] as int) - 1 > if k == 0 then -1 else low.idx[k - 1])
            && (low.idx[k] < s.idx[k] ==> low.idx[k] == if k == 2 && s.idx[2] == 35 then 11 else s.idx[k] - 1)
            && low.dec[k] == if low.idx[k] < s.idx[k] then r.round else s.dec[k]
  {
    var one := Fall(s, r, 0);
    var two := Fall(one, r, 1);
    assert Fallen(s, r) == Fall(two, r, 2);
  }

  lemma RisenIs(low: Rates, r: Report, k: nat)
    requires k < 3
    ensures var t := Rise(Rise(Rise(low, r, 2), r, 1), r, 0);
            && t.dec == low.dec && t.idx[k] >= low.idx[k]
            && (t.idx[k] > low.idx[k] <==>
                  && 10 * r.rate[k] + 10 <= 7 * r.round && low.inc[k] + 3 <= r.round && low.dec[k] != r.round
                  && low.idx[k] < (if k == 0 then 10 else if k == 1 then 11 else 35)
                  && (k < 2 ==> low.idx[k] + 1 < t.idx[k + 1]))
            && (t.idx[k] > low.idx[k] ==> t.idx[k] == if k == 2 && low.idx[2] == 11 then 35 else low.idx[k] + 1)
            && t.inc[k] == if t.idx[k] > low.idx[k] then r.round else low.inc[k]
  {
    var one := Rise(low, r, 2);
    var two := Rise(one, r, 1);
    assert Rise(Rise(Rise(low, r, 2), r, 1), r, 0) == Rise(two, r, 0);
  }

  /** Exactly when a report lowers a rung, and by how much: more than half of the round's
      frames were missing at it, it was not lowered for this round or a later one, and there is
      room above the rung below. */
  lemma LossLowers(s: Rates, r: Report, k: nat)
    requires k < 3
    ensures var t := Adapt(s, r);
            && (t.idx[k] < s.idx[k] <==>
                  2 * r.rate[k] > r.round && s.dec[k] < r.round && s.idx[k] - 1 > Beneath(s, t, k))
            && (t.idx[k] < s.idx[k] ==> t.idx[k] == if k == 2 && s.idx[2] == 35 then 11 else s.idx[k] - 1)
            && t.dec[k] == if t.idx[k] < s.idx[k] then r.round else s.dec[k]
  {
    FallenIs(s, r, k);
    RisenIs(Fallen(s, r), r, k);
    if k > 0 {
      FallenIs(s, r, k - 1);
      RisenIs(Fallen(s, r), r, k - 1);
    }
  }

  /** Exactly when a report raises a rung that it did not lower, and by how much: fewer than
      seven tenths of the round's frames, counted down, were missing at it, it was raised at least
      three rounds ago, not lowered for this one, and there is room below the rung above and its
      own limit. */
  lemma FewLossesRaise(s: Rates, r: Report, k: nat)
    requires k < 3
    ensures var t := Adapt(s, r);
            && (t.idx[k] > s.idx[k] <==>
                  && t.idx[k] >= s.idx[k]
                  && 10 * r.rate[k] + 10 <= 7 * r.round && s.inc[k] + 3 <= r.round && s.dec[k] != r.round
                  && s.idx[k] < (if k == 0 then 10 else if k == 1 then 11 else 35)
                  && (k < 2 ==> s.idx[k] + 1 < t.idx[k + 1]))
            && (t.idx[k] > s.idx[k] ==> t.idx[k] == if k == 2 && s.idx[2] == 11 then 35 else s.idx[k] + 1)
            && t.inc[k] == if t.idx[k] > s.idx[k] then r.round else s.inc[k]
  {
    FallenIs(s, r, k);
    RisenIs(Fallen(s, r), r, k);
  }
}
