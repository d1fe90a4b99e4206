/** What a DACK reports, slot by slot of the window, and when it is sent, in numbers. */
module HoleLaws {
  import opened VmacTypes
  import opened ReceiverWindow
  import opened HoleScan
  import opened HoleScanTheorems

  /** Where a missing run starts, a gap starts. */
  lemma {:induction false} GapStarts(m: nat -> bool, hi: u16, i: u16, le: u16)
    requires i <= le < hi && m(le) && (le == i || !m(le - 1))
    ensures exists k :: 0 <= k < |Gaps(m, hi, i)| && Gaps(m, hi, i)[k].le == le
    decreases hi - i
  {
    if le == i {
      assert Gaps(m, hi, i)[0].le == le;
    } else if m(i) {
      var re := RunEnd(m, i, hi);
      RunEndIsMaximal(m, i, hi);
      GapStarts(m, hi, re + 1, le);
      var k :| 0 <= k < |Gaps(m, hi, re + 1)| && Gaps(m, hi, re + 1)[k].le == le;
      assert Gaps(m, hi, i)[k + 1].le == le;
    } else {
      GapStarts(m, hi, i + 1, le);
      assert Gaps(m, hi, i) == Gaps(m, hi, i + 1);
    }
  }

  /** The DACK has room for everything up to s: it has fewer than forty holes, or its fortieth
      reaches beyond s. */
  predicate HasRoom(holes: seq<Hole>, s: nat) {
    |holes| < 40 || s < holes[39].re
  }

  /** Then a gap that starts no later than right behind s is among those the holes stand for. */
  lemma GapIsRun(w: Window, before: u16, round: u16, j: nat, s: nat)
    requires HasRoom(Holes(w, before, round), s)
    requires var gaps := Gaps(MissingIn(w), ScanEnd(round), ScanStart(ScanEnd(round)));
             j < |gaps| && gaps[j].le <= s + 1
    ensures |Holes(w, before, round)| == |Runs(w, round)|
    ensures j < |Runs(w, round)|
  {
    var m, hi, start := MissingIn(w), ScanEnd(round), ScanStart(ScanEnd(round));
    ScanShape(m, LeftMissingIn(w, before), hi, start, HOLES_MAX);
    GapsAreOrdered(m, hi, start);
  }

  lemma GapIsHole(w: Window, before: u16, round: u16, k: nat, s: nat)
    requires k < |Runs(w, round)| && |Holes(w, before, round)| == |Runs(w, round)|
    requires var run := Runs(w, round)[k];
             run.le <= s < run.re || (s == run.le - 1 && before == 0 && ReadsBefore(ScanEnd(round), run.le))
    ensures Covered(Holes(w, before, round), s)
  {
    HoleOfRun(w, before, round, k);
    assert Holes(w, before, round)[k].le <= s < Holes(w, before, round)[k].re;
  }

  /** Number s is claimed missing because the word before the window was read for its right
      neighbour, a multiple of 700. */
  predicate ClaimedInError(w: Window, before: u16, start: nat, s: nat) {
    before == 0 && s % 700 == 699 && start < s && w[0] == 0
  }

  lemma OneReadsZero(w: Window, before: u16, hi: u16, run: Hole, hole: Hole, s: nat)
    requires MissingIn(w)(run.le)
    requires if before == 0 && ReadsBefore(hi, run.le) then hole.le < run.le else hole.le == run.le
    requires forall t: nat :: hole.le <= t < hole.re && t != run.le - 1 ==> MissingIn(w)(t)
    requires hole.le <= s < hole.re
    ensures w[s % 700] == 0 || ClaimedInError(w, before, ScanStart(hi), s)
  {
    if s != run.le - 1 { assert MissingIn(w)(s); }
  }

  lemma HoleReadsZero(w: Window, before: u16, round: u16, k: nat, s: nat)
    requires k < |Runs(w, round)| && |Holes(w, before, round)| == |Runs(w, round)|
    requires var hole := Holes(w, before, round)[k]; hole.le <= s < hole.re
    ensures w[s % 700] == 0 || ClaimedInError(w, before, ScanStart(ScanEnd(round)), s)
  {
    HoleOfRun(w, before, round, k);
    OneReadsZero(w, before, ScanEnd(round), Runs(w, round)[k], Holes(w, before, round)[k], s);
  }

  lemma CoveredReadsZero(w: Window, before: u16, round: u16, s: nat)
    requires Covered(Holes(w, before, round), s)
    ensures w[s % 700] == 0 || ClaimedInError(w, before, ScanStart(ScanEnd(round)), s)
  {
    var holes, hi := Holes(w, before, round), ScanEnd(round);
    ScanShape(MissingIn(w), LeftMissingIn(w, before), hi, ScanStart(hi), HOLES_MAX);
    var k :| 0 <= k < |holes| && holes[k].le <= s < holes[k].re;
    HoleReadsZero(w, before, round, k, s);
  }

  lemma ZeroIsCovered(w: Window, before: u16, round: u16, s: u16)
    requires ScanStart(ScanEnd(round)) <= s < ScanEnd(round) - 1 && HasRoom(Holes(w, before, round), s)
    requires w[s % 700] == 0
    ensures Covered(Holes(w, before, round), s)
  {
    var gaps := Gaps(MissingIn(w), ScanEnd(round), ScanStart(ScanEnd(round)));
    assert MissingIn(w)(s);
    GapsCoverMissing(MissingIn(w), ScanEnd(round), ScanStart(ScanEnd(round)), s);
    var k :| 0 <= k < |gaps| && gaps[k].le <= s < gaps[k].re;
    GapIsRun(w, before, round, k, s);
    GapIsHole(w, before, round, k, s);
  }

  lemma GapBehind(w: Window, hi: u16, start: u16, s: u16) returns (k: nat)
    requires start <= s < hi - 1 && w[s % 700] != 0 && w[(s + 1) % 700] == 0
    ensures k < |Gaps(MissingIn(w), hi, start)| && Gaps(MissingIn(w), hi, start)[k].le == s + 1
  {
    var m, le: u16 := MissingIn(w), s + 1;
    assert m(le) && !m(s) && le - 1 == s;
    GapStarts(m, hi, start, le);
    k :| 0 <= k < |Gaps(m, hi, start)| && Gaps(m, hi, start)[k].le == le;
  }

  lemma NextWraps(s: nat)
    requires s % 700 == 699
    ensures (s + 1) % 700 == 0
  {
  }

  lemma ErrorIsCovered(w: Window, before: u16, round: u16, s: u16)
    requires ScanStart(ScanEnd(round)) <= s < ScanEnd(round) - 1 && HasRoom(Holes(w, before, round), s)
    requires w[s % 700] != 0 && ClaimedInError(w, before, ScanStart(ScanEnd(round)), s)
    ensures Covered(Holes(w, before, round), s)
  {
    NextWraps(s);
    var k := GapBehind(w, ScanEnd(round), ScanStart(ScanEnd(round)), s);
    assert ReadsBefore(ScanEnd(round), s + 1);
    GapIsRun(w, before, round, k, s);
    GapIsHole(w, before, round, k, s);
  }

  /** For any window, word before it and round: of the 700 numbers below five times the round,
      in sixteen bits, and but for the last of them, the DACK reports, as far as its forty holes
      reach, exactly those whose slot reads zero, and in error the one before a multiple of 700
      that is missing, if the word before the window is zero. */
  lemma ReportsZeros(w: Window, before: u16, round: u16, s: u16)
    requires var hi := 5 * round % 65536; hi - 700 <= s < hi - 1
    requires HasRoom(Holes(w, before, round), s)
    ensures Covered(Holes(w, before, round), s) <==>
            w[s % 700] == 0 || ClaimedInError(w, before, Max(5 * round % 65536 - 700, 0), s)
  {
    if w[s % 700] == 0 {
      ZeroIsCovered(w, before, round, s);
    } else if ClaimedInError(w, before, ScanStart(ScanEnd(round)), s) {
      ErrorIsCovered(w, before, round, s);
    } else if Covered(Holes(w, before, round), s) {
      CoveredReadsZero(w, before, round, s);
    }
  }

  // ---- the delay ----

  /** The remainder of a C `long` by two is r. */
  predicate Leaves(bits: int, r: int) {
    (bits - r) % 2 == 0 && if bits < 0 then -1 <= r <= 0 else 0 <= r <= 1
  }

  lemma ParityIs(bits: int, r: int)
    requires Leaves(bits, r)
    ensures Parity(bits) == r
  {
  }

  /** The delay for estimate `alpha` with n missing and remainder r: with five or fewer missing,
      twice the estimate for each number not missing and for the remainder, in jiffies; with
      more, for each missing one. The estimate counts at most 100; zero becomes one jiffy, and
      more than 100 become ten. */
  lemma DelayIs(alpha: u32, n: u8, bits: int, r: int)
    requires Leaves(bits, r)
    ensures var a := if alpha < 100 then alpha else 100;
            var full := 2 * a * ((if n <= 5 then 5 - n else n) + r);
            Delay(alpha, n, bits) == if full == 0 then 1 else if full <= 100 then full else 10
  {
    ParityIs(bits, r);
  }

  lemma Distributes(a: int, x: int)
    ensures 2 * a * (x + 1) == 2 * a * x + 2 * a
  {
  }

  /** Between one and a hundred jiffies, a further missing number up to the fifth shortens the
      delay by twice the estimate. */
  lemma DelayFallsWithLoss(alpha: u32, n: u8, bits: int, r: int)
    requires Leaves(bits, r) && alpha <= 100 && n < 5
    requires 0 < 2 * alpha * (4 - n + r) && 2 * alpha * (5 - n + r) <= 100
    ensures Delay(alpha, n + 1, bits) == Delay(alpha, n, bits) - 2 * alpha
  {
    DelayIs(alpha, n, bits, r);
    DelayIs(alpha, n + 1, bits, r);
    Distributes(alpha, 4 - n + r);
  }

  /** A further one beyond the sixth lengthens it so. */
  lemma DelayGrowsBeyond(alpha: u32, n: u8, bits: int, r: int)
    requires Leaves(bits, r) && alpha <= 100 && 5 < n < 255
    requires 0 < 2 * alpha * (n + r) && 2 * alpha * (n + 1 + r) <= 100
    ensures Delay(alpha, n + 1, bits) == Delay(alpha, n, bits) + 2 * alpha
  {
    Distributes(alpha, n + r);
    DelayIs(alpha, n, bits, r);
    DelayIs(alpha, n + 1, bits, r);
  }

  /** An odd random word, of either sign, moves the delay by twice the estimate. */
  lemma DelayFollowsParity(alpha: u32, n: u8, odd: int, even: int)
    requires odd % 2 == 1 && even % 2 == 0 && alpha <= 100 && n <= 5
    requires 0 < 2 * alpha * (4 - n) && 2 * alpha * (6 - n) <= 100
    ensures Delay(alpha, n, odd) == Delay(alpha, n, even) + if odd < 0 then -2 * alpha else 2 * alpha
  {
    DelayIs(alpha, n, odd, if odd < 0 then -1 else 1);
    DelayIs(alpha, n, even, 0);
    Distributes(alpha, 4 - n);
    Distributes(alpha, 5 - n);
  }

  /** Where the laws start from: nothing missing, an even word, and an estimate up to ten give
      ten times the estimate; five missing give one jiffy; estimates above 100 count as 100. */
  lemma DelayStarts(alpha: u32, n: u8, bits: int)
    ensures bits % 2 == 0 && 1 <= alpha <= 10 ==> Delay(alpha, 0, bits) == 10 * alpha
    ensures bits % 2 == 0 && 10 < alpha ==> Delay(alpha, 0, bits) == 10
    ensures bits % 2 == 0 ==> Delay(alpha, 5, bits) == 1
    ensures alpha > 100 ==> Delay(alpha, n, bits) == Delay(100, n, bits)
  {
    if bits % 2 == 0 {
      DelayIs(alpha, 0, bits, 0);
      DelayIs(alpha, 5, bits, 0);
    }
  }
}
