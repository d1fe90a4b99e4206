/** What the holes of a DACK are: the maximal missing runs, and nothing else. */
module HoleScanTheorems {
  import opened VmacTypes
  import opened ReceiverWindow
  import opened HoleScan

  /** The maximal missing runs from i on, each cut one short of the scan's end. */
  function Gaps(m: nat -> bool, hi: u16, i: u16): seq<Hole>
    decreases hi - i
  {
    if i >= hi then []
    else if m(i) then [Hole(i, RunEnd(m, i, hi))] + Gaps(m, hi, RunEnd(m, i, hi) + 1)
    else Gaps(m, hi, i + 1)
  }

  /** No missing number stands immediately left of i, apart from the start of the scan. */
  ghost predicate AtEdge(m: nat -> bool, hi: u16, i: u16) {
    i <= ScanStart(hi) || i >= hi || !m(i - 1)
  }

  /** The left neighbour is read from the window, except where the index leaves the array. */
  ghost predicate ReadsNeighbours(m: nat -> bool, left: nat -> bool, before: u16) {
    forall t: nat :: 0 < t ==> left(t) == if Wraps(t) then before == 0 else m(t - 1)
  }

  /** Starts of holes for which the code reads in front of the array, and acts on it. */
  predicate ReadsBefore(hi: u16, le: u16) {
    Wraps(le) && le > ScanStart(hi) + 1
  }

  /** No hole of the list starts where the code looks in front of the array. */
  ghost predicate StaysInside(hi: u16, holes: seq<Hole>) {
    forall hole :: hole in holes ==> !ReadsBefore(hi, hole.le)
  }

  ghost predicate Covered(holes: seq<Hole>, s: nat) {
    exists k :: 0 <= k < |holes| && holes[k].le <= s < holes[k].re
  }

  /** The hole is a maximal missing run of [start, hi), cut one short of the end; it can
      be empty only there. */
  ghost predicate MaximalRun(m: nat -> bool, start: nat, hi: u16, hole: Hole) {
    && start <= hole.le <= hole.re < hi
    && (forall s :: hole.le <= s < hole.re ==> m(s))
    && m(hole.le)
    && (hole.le == start || !m(hole.le - 1))
    && (hole.re == hi - 1 || !m(hole.re))
  }

  ghost predicate Ordered(holes: seq<Hole>) {
    forall j, k :: 0 <= j < k < |holes| ==> holes[j].re < holes[k].le
  }

  /** The list is the maximal missing runs of [start, hi), in order. */
  ghost predicate MaximalRuns(m: nat -> bool, start: u16, hi: u16, holes: seq<Hole>) {
    && (forall hole :: hole in holes ==> MaximalRun(m, start, hi, hole))
    && Ordered(holes)
    && (forall s: nat :: start <= s < hi - 1 && m(s) ==> Covered(holes, s))
  }

  lemma {:induction false} RunEndIsMaximal(m: nat -> bool, i: u16, hi: u16)
    requires i < hi
    ensures forall s :: i <= s < RunEnd(m, i, hi) ==> m(s)
    ensures RunEnd(m, i, hi) == hi - 1 || !m(RunEnd(m, i, hi))
    decreases hi - i
  {
    if m(i) && i < hi - 1 { RunEndIsMaximal(m, i + 1, hi); }
  }

  lemma WindowReadsNeighbours(w: Window, before: u16)
    ensures ReadsNeighbours(MissingIn(w), LeftMissingIn(w, before), before)
  {
    forall t: nat | 0 < t && !Wraps(t)
      ensures Slot(t - 1) == t % WINDOW - 1
    {
    }
  }

  /** Where the left edge search can only look inside the array, it never moves. */
  lemma LeftEdgeStays(m: nat -> bool, left: nat -> bool, before: u16, hi: u16, i: u16)
    requires ReadsNeighbours(m, left, before)
    requires i < hi && AtEdge(m, hi, i) && ScanStart(hi) <= i
    ensures LeftEdge(left, ScanStart(hi), i) == i <==> !(before == 0 && ReadsBefore(hi, i))
  {
  }

  lemma ConsEqual<T>(a: T, s: seq<T>, b: T, t: seq<T>)
    ensures [a] + s == [b] + t <==> a == b && s == t
  {
    assert ([a] + s)[0] == a && ([a] + s)[1..] == s && ([b] + t)[0] == b && ([b] + t)[1..] == t;
  }

  lemma StaysInsideCons(hi: u16, hole: Hole, rest: seq<Hole>)
    ensures StaysInside(hi, [hole] + rest) <==> !ReadsBefore(hi, hole.le) && StaysInside(hi, rest)
  {
    if StaysInside(hi, [hole] + rest) {
      assert ([hole] + rest)[0] == hole;
      forall other | other in rest ensures !ReadsBefore(hi, other.le) { assert other in [hole] + rest; }
    }
  }

  /** The scan stopped at the missing number i: what its first hole and its remainder decide. */
  lemma GapCompares(m: nat -> bool, left: nat -> bool, hi: u16, i: u16, room: nat)
    requires i < hi && room > 0 && m(i)
    ensures var re := RunEnd(m, i, hi);
            && Take(Gaps(m, hi, i), room) == [Hole(i, re)] + Take(Gaps(m, hi, re + 1), room - 1)
            && (Scan(m, left, hi, i, room) == Take(Gaps(m, hi, i), room) <==>
                  LeftEdge(left, ScanStart(hi), i) == i
                  && Scan(m, left, hi, re + 1, room - 1) == Take(Gaps(m, hi, re + 1), room - 1))
  {
    var re, le := RunEnd(m, i, hi), LeftEdge(left, ScanStart(hi), i);
    var gaps, scan := Take(Gaps(m, hi, re + 1), room - 1), Scan(m, left, hi, re + 1, room - 1);
    TakeCons(Hole(i, re), Gaps(m, hi, re + 1), room);
    ConsEqual(Hole(le, re), scan, Hole(i, re), gaps);
  }

  /** The code reports the true gaps exactly when no gap among the first forty starts at a
      multiple of 700 past the scan's start while the word before the array reads zero. */
  lemma {:induction false} ScanIsGaps(m: nat -> bool, left: nat -> bool, before: u16, hi: u16, i: u16, room: nat)
    requires ReadsNeighbours(m, left, before) && AtEdge(m, hi, i) && ScanStart(hi) <= i
    ensures Scan(m, left, hi, i, room) == Take(Gaps(m, hi, i), room) <==>
            before != 0 || StaysInside(hi, Take(Gaps(m, hi, i), room))
    decreases hi - i
  {
    if i >= hi || room == 0 {
      assert Take(Gaps(m, hi, i), room) == [];
    } else if m(i) {
      var re := RunEnd(m, i, hi);
      RunEndIsMaximal(m, i, hi);
      LeftEdgeStays(m, left, before, hi, i);
      GapCompares(m, left, hi, i, room);
      StaysInsideCons(hi, Hole(i, re), Take(Gaps(m, hi, re + 1), room - 1));
      ScanIsGaps(m, left, before, hi, re + 1, room - 1);
    } else {
      ScanIsGaps(m, left, before, hi, i + 1, room);
    }
  }

  lemma CoveredCons(hole: Hole, holes: seq<Hole>, s: nat)
    ensures Covered([hole] + holes, s) <==> hole.le <= s < hole.re || Covered(holes, s)
  {
    var all := [hole] + holes;
    if hole.le <= s < hole.re { assert all[0] == hole; }
    if Covered(holes, s) {
      var k :| 0 <= k < |holes| && holes[k].le <= s < holes[k].re;
      assert all[k + 1] == holes[k];
    }
  }

  lemma {:induction false} GapsAreRuns(m: nat -> bool, hi: u16, i: u16, hole: Hole)
    requires i <= hi && hole in Gaps(m, hi, i)
    ensures MaximalRun(m, i, hi, hole)
    decreases hi - i
  {
    if m(i) {
      RunEndIsMaximal(m, i, hi);
      if hole != Hole(i, RunEnd(m, i, hi)) { GapsAreRuns(m, hi, RunEnd(m, i, hi) + 1, hole); }
    } else {
      GapsAreRuns(m, hi, i + 1, hole);
    }
  }

  lemma {:induction false} GapsAreOrdered(m: nat -> bool, hi: u16, i: u16)
    requires i <= hi
    ensures Ordered(Gaps(m, hi, i))
    decreases hi - i
  {
    if i < hi {
      if m(i) {
        var re := RunEnd(m, i, hi);
        GapsAreOrdered(m, hi, re + 1);
        forall other | other in Gaps(m, hi, re + 1) ensures re < other.le { GapsAreRuns(m, hi, re + 1, other); }
      } else {
        GapsAreOrdered(m, hi, i + 1);
      }
    }
  }

  lemma {:induction false} GapsCoverMissing(m: nat -> bool, hi: u16, i: u16, s: nat)
    requires i <= s < hi - 1 && m(s)
    ensures Covered(Gaps(m, hi, i), s)
    decreases hi - i
  {
    if m(i) {
      var re := RunEnd(m, i, hi);
      RunEndIsMaximal(m, i, hi);
      CoveredCons(Hole(i, re), Gaps(m, hi, re + 1), s);
      if re < s { GapsCoverMissing(m, hi, re + 1, s); }
    } else {
      GapsCoverMissing(m, hi, i + 1, s);
    }
  }

  /** The gaps are the maximal missing runs, in order and non-adjacent, and every missing
      number below the scan's last one lies in a gap. */
  lemma GapsAreMaximalRuns(m: nat -> bool, hi: u16, i: u16)
    requires i <= hi
    ensures MaximalRuns(m, i, hi, Gaps(m, hi, i))
  {
    forall hole | hole in Gaps(m, hi, i) ensures MaximalRun(m, i, hi, hole) { GapsAreRuns(m, hi, i, hole); }
    GapsAreOrdered(m, hi, i);
    forall s: nat | i <= s < hi - 1 && m(s) ensures Covered(Gaps(m, hi, i), s) { GapsCoverMissing(m, hi, i, s); }
  }

  /** The holes of a DACK are the first forty maximal missing runs of the scanned range
      exactly when the word before the array is not zero or none of those runs starts at a
      multiple of 700 past the start of the range. */
  lemma HolesAreFirstRuns(w: Window, before: u16, round: u16)
    ensures var hi := ScanEnd(round);
            var runs := Gaps(MissingIn(w), hi, ScanStart(hi));
            && MaximalRuns(MissingIn(w), ScanStart(hi), hi, runs)
            && (Holes(w, before, round) == Take(runs, HOLES_MAX) <==>
                  before != 0 || StaysInside(hi, Take(runs, HOLES_MAX)))
  {
    var hi := ScanEnd(round);
    WindowReadsNeighbours(w, before);
    ScanIsGaps(MissingIn(w), LeftMissingIn(w, before), before, hi, ScanStart(hi), HOLES_MAX);
    GapsAreMaximalRuns(MissingIn(w), hi, ScanStart(hi));
  }

  /** The runs a DACK for the round stands for. */
  function Runs(w: Window, round: u16): seq<Hole> {
    Take(Gaps(MissingIn(w), ScanEnd(round), ScanStart(ScanEnd(round))), HOLES_MAX)
  }

  /** Each hole has the right edge of its run, and the left edge the search finds for it. */
  lemma {:induction false} ScanShape(m: nat -> bool, left: nat -> bool, hi: u16, i: u16, room: nat)
    ensures var scan, runs := Scan(m, left, hi, i, room), Take(Gaps(m, hi, i), room);
            && |scan| == |runs|
            && (forall k :: 0 <= k < |scan| ==> scan[k] == Hole(LeftEdge(left, ScanStart(hi), runs[k].le), runs[k].re))
    decreases hi - i
  {
    if i < hi && room > 0 {
      if m(i) {
        var re := RunEnd(m, i, hi);
        TakeCons(Hole(i, re), Gaps(m, hi, re + 1), room);
        ScanShape(m, left, hi, re + 1, room - 1);
      } else {
        ScanShape(m, left, hi, i + 1, room);
      }
    }
  }

  lemma {:induction false} LeftEdgeRuns(m: nat -> bool, left: nat -> bool, start: nat, t: u16)
    requires start <= t && forall u: nat :: start < u <= t ==> left(u) == m(u - 1)
    ensures start <= LeftEdge(left, start, t)
    ensures forall s: nat :: LeftEdge(left, start, t) <= s < t ==> m(s)
    decreases t
  {
    if left(t) && t > 0 && start < t - 1 { LeftEdgeRuns(m, left, start, t - 1); }
  }

  /** Where the search reads in front of the array and finds zero, its hole takes in the
      received number before the run, and beyond that only missing ones. */
  lemma LeftEdgeMoves(m: nat -> bool, left: nat -> bool, hi: u16, i: u16)
    requires ReadsNeighbours(m, left, 0) && ReadsBefore(hi, i) && i < hi
    ensures var le := LeftEdge(left, ScanStart(hi), i);
            ScanStart(hi) <= le < i && forall s: nat :: le <= s < i - 1 ==> m(s)
  {
    var start := ScanStart(hi);
    assert LeftEdge(left, start, i) == LeftEdge(left, start, i - 1);
    forall u: nat | start < u <= i - 1 ensures left(u) == m(u - 1) {
      assert !Wraps(u);
    }
    LeftEdgeRuns(m, left, start, i - 1);
  }

  /** The holes against the runs they stand for: the right edge agrees; so does the left one
      unless it is read in front of the array, and then the hole takes in the number before. */
  lemma HoleOfRun(w: Window, before: u16, round: u16, k: nat)
    requires k < |Runs(w, round)|
    ensures |Holes(w, before, round)| == |Runs(w, round)|
    ensures var hi, run, hole := ScanEnd(round), Runs(w, round)[k], Holes(w, before, round)[k];
            && MaximalRun(MissingIn(w), ScanStart(hi), hi, run) && hole.re == run.re
            && (if before == 0 && ReadsBefore(hi, run.le) then hole.le < run.le else hole.le == run.le)
            && (forall s: nat :: hole.le <= s < hole.re && s != run.le - 1 ==> MissingIn(w)(s))
  {
    var m, left, hi := MissingIn(w), LeftMissingIn(w, before), ScanEnd(round);
    var runs := Gaps(m, hi, ScanStart(hi));
    WindowReadsNeighbours(w, before);
    ScanShape(m, left, hi, ScanStart(hi), HOLES_MAX);
    GapsAreMaximalRuns(m, hi, ScanStart(hi));
    var run := runs[k];
    assert run in runs && Runs(w, round)[k] == run;
    if before == 0 && ReadsBefore(hi, run.le) {
      LeftEdgeMoves(m, left, hi, run.le);
    } else {
      LeftEdgeStays(m, left, before, hi, run.le);
    }
  }

  lemma {:induction false} ScanSkips(m: nat -> bool, left: nat -> bool, hi: u16, i: u16, j: u16, room: nat)
    requires i <= j <= hi && forall s: nat :: i <= s < j ==> !m(s)
    ensures Scan(m, left, hi, i, room) == Scan(m, left, hi, j, room)
    decreases j - i
  {
    if i < j { ScanSkips(m, left, hi, i + 1, j, room); }
  }

  lemma StrayScan(w: Window, m: nat -> bool, left: nat -> bool, hi: u16, i: u16, room: nat)
    requires m == MissingIn(w) && left == LeftMissingIn(w, 0) && room > 0 && hi == 710 && i == 700
    requires w[0] == 0 && forall k :: 0 < k < WINDOW ==> w[k] == 1
    ensures |Scan(m, left, hi, i, room)| > 0 && Scan(m, left, hi, i, room)[0] == Hole(699, 701)
  {
    assert m(i) && !m(i + 1) && RunEnd(m, i, hi) == i + 1;
    assert left(i) && !left(i - 1) && LeftEdge(left, ScanStart(hi), i) == i - 1;
  }

  /** The failing case of the stray word: with 699 received and 700 missing, the DACK for
      round 142 reports a hole that starts at 699. */
  lemma StrayWordClaimsReceived(w: Window, round: u16)
    requires w[0] == 0 && (forall k :: 0 < k < WINDOW ==> w[k] == 1) && round == 142
    ensures !MissingIn(w)(699) && MissingIn(w)(700) && Covered(Holes(w, 0, round), 699)
  {
    var m, left, hi := MissingIn(w), LeftMissingIn(w, 0), ScanEnd(round);
    assert forall s: nat :: 10 <= s < 700 ==> !m(s);
    ScanSkips(m, left, hi, ScanStart(hi), 700, HOLES_MAX);
    StrayScan(w, m, left, hi, 700, HOLES_MAX);
    assert Holes(w, 0, round)[0] == Hole(699, 701);
  }

  lemma ProductSign(slope: nat, x: int)
    requires x >= -1
    ensures slope * x < 0 <==> slope > 0 && x == -1
  {
    if x >= 0 {
      assert slope * x >= 0;
    } else {
      assert slope * x == 0 - slope;
    }
  }

  /** The timer's delay is between 1 and 100 jiffies, except that with five numbers missing
      and a non-zero estimate a negative odd random word makes it negative. */
  lemma DelayInRange(alpha: u32, loss: u8, bits: int)
    ensures 1 <= Delay(alpha, loss, bits) <= 100 <==> alpha == 0 || loss != 5 || Parity(bits) >= 0
  {
    var spare := if loss <= 5 then 5 - loss else loss;
    ProductSign(2 * (if alpha >= 100 then 100 else alpha), spare + Parity(bits));
  }
}
