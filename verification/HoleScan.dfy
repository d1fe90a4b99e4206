/** The hole scan and send delay of `prepDACK` (vmac/dack.c). */
module HoleScan {
  import opened VmacTypes
  import opened ReceiverWindow

  /** The numbers whose slot reads as missing. */
  function MissingIn(w: Window): nat -> bool {
    (i: nat) => w[Slot(i)] == 0
  }

  predicate Wraps(t: nat) {
    t % WINDOW == 0
  }

  /** The numbers whose left neighbour reads as missing. For a multiple of the window size
      the code indexes one place before the array and reads `before`. */
  function LeftMissingIn(w: Window, before: u16): nat -> bool {
    (t: nat) => (if Wraps(t) then before else w[t % WINDOW - 1]) == 0
  }

  /** One past the last number a DACK for this round looks at. */
  function ScanEnd(round: u16): u16 {
    (round * 5) % U16_LIMIT
  }

  function ScanStart(hi: u16): u16 {
    if hi < WINDOW then 0 else hi - WINDOW
  }

  /** The backward search for the left edge of the run at t. */
  function LeftEdge(leftMissing: nat -> bool, start: nat, t: u16): (le: u16)
    ensures le <= t
  {
    if leftMissing(t) && t > 0 && start < t - 1 then LeftEdge(leftMissing, start, t - 1) else t
  }

  /** The forward search for the right edge; it stops one short of the scan's end. */
  function RunEnd(missing: nat -> bool, i: u16, hi: u16): (re: u16)
    requires i < hi
    ensures i <= re < hi
    decreases hi - i
  {
    if missing(i) && i < hi - 1 then RunEnd(missing, i + 1, hi) else i
  }

  /** What the code's loop reports from i on, with room for that many more holes. */
  function Scan(missing: nat -> bool, leftMissing: nat -> bool, hi: u16, i: u16, room: nat): seq<Hole>
    decreases hi - i
  {
    if i >= hi || room == 0 then []
    else if missing(i) then
      var re := RunEnd(missing, i, hi);
      [Hole(LeftEdge(leftMissing, ScanStart(hi), i), re)] + Scan(missing, leftMissing, hi, re + 1, room - 1)
    else Scan(missing, leftMissing, hi, i + 1, room)
  }

  function Holes(w: Window, before: u16, round: u16): seq<Hole> {
    Scan(MissingIn(w), LeftMissingIn(w, before), ScanEnd(round), ScanStart(ScanEnd(round)), HOLES_MAX)
  }

  /** Numbers covered by the holes. */
  function Width(holes: seq<Hole>): int {
    if holes == [] then 0
    else Width(holes[..|holes| - 1]) + holes[|holes| - 1].re - holes[|holes| - 1].le
  }

  /** The remainder of a C `long` by two. */
  function Parity(bits: int): int {
    if bits < 0 then -(-bits % 2) else bits % 2
  }

  /** Twice the capped estimate for each number not missing, give or take one. */
  function Duration(alpha: u32, loss: u8, bits: int): int {
    var spare := if loss <= 5 then 5 - loss else loss;
    var slope := 2 * (if alpha >= 100 then 100 else alpha);
    slope * (spare + Parity(bits))
  }

  function Clamp(duration: int): int {
    if duration == 0 then 1 else if duration > 100 then 10 else duration
  }

  /** Jiffies until the DACK is sent; loss is the byte the scan counted in. */
  function Delay(alpha: u32, loss: u8, bits: int): int {
    Clamp(Duration(alpha, loss, bits))
  }

  /** `loss++` on the byte counter. */
  function Bump(loss: u8): u8 {
    (loss + 1) % U8_LIMIT
  }

  lemma BumpCounts(n: nat)
    ensures Bump(n % U8_LIMIT) == (n + 1) % U8_LIMIT
  {
  }

  /** The first inner loop: back from i over zero words, counting on from n. */
  method SearchLeft(window: array<u16>, before: u16, start: u16, i: u16, counted: u8, ghost n: nat)
    returns (tmp: u16, loss: u8, ghost m: nat)
    requires window.Length == WINDOW && counted == n % U8_LIMIT
    ensures tmp == LeftEdge(LeftMissingIn(window[..], before), start, i)
    ensures m == n + i - tmp && loss == m % U8_LIMIT
  {
    tmp, loss, m := i, counted, n;
    while (if tmp % WINDOW == 0 then before else window[tmp % WINDOW - 1]) == 0 && tmp > 0 && start < tmp - 1
      invariant tmp <= i
      invariant LeftEdge(LeftMissingIn(window[..], before), start, tmp) ==
                LeftEdge(LeftMissingIn(window[..], before), start, i)
      invariant m == n + i - tmp && loss == m % U8_LIMIT
    {
      BumpCounts(m);
      tmp, loss, m := tmp - 1, Bump(loss), m + 1;
    }
  }

  /** The second inner loop: forward from i over missing numbers, counting on from n. */
  method SearchRight(window: array<u16>, hi: u16, i: u16, counted: u8, ghost n: nat)
    returns (re: u16, loss: u8, ghost m: nat)
    requires window.Length == WINDOW && counted == n % U8_LIMIT && i < hi
    ensures re == RunEnd(MissingIn(window[..]), i, hi)
    ensures m == n + re - i && loss == m % U8_LIMIT
  {
    re, loss, m := i, counted, n;
    while window[re % WINDOW] == 0 && re < hi - 1
      invariant i <= re < hi
      invariant RunEnd(MissingIn(window[..]), re, hi) == RunEnd(MissingIn(window[..]), i, hi)
      invariant m == n + re - i && loss == m % U8_LIMIT
    {
      BumpCounts(m);
      re, loss, m := re + 1, Bump(loss), m + 1;
    }
  }

  /** Both edges of the hole around the missing number i where the scan met it. */
  method FindHole(window: array<u16>, before: u16, hi: u16, i: u16, counted: u8, ghost n: nat)
    returns (hole: Hole, loss: u8)
    requires window.Length == WINDOW && i < hi && counted == n % U8_LIMIT
    ensures hole.le == LeftEdge(LeftMissingIn(window[..], before), ScanStart(hi), i)
    ensures hole.re == RunEnd(MissingIn(window[..]), i, hi)
    ensures loss == (n + hole.re - hole.le) % U8_LIMIT
  {
    var le, re;
    ghost var m;
    le, loss, m := SearchLeft(window, before, if hi < WINDOW then 0 else hi - WINDOW, i, counted, n);
    re, loss, m := SearchRight(window, hi, i, loss, m);
    hole := Hole(le, re);
  }

  /** One hole found: it moves from the scan's remainder to the holes found so far. */
  lemma ScanFinds(m: nat -> bool, left: nat -> bool, hi: u16, i: u16, room: nat, found: seq<Hole>, hole: Hole)
    requires i < hi && room > 0 && m(i)
    requires hole == Hole(LeftEdge(left, ScanStart(hi), i), RunEnd(m, i, hi))
    ensures found + [hole] + Scan(m, left, hi, hole.re + 1, room - 1) == found + Scan(m, left, hi, i, room)
    ensures Width(found + [hole]) == Width(found) + hole.re - hole.le
  {
    assert (found + [hole])[..|found|] == found;
  }

  /** One hole, stored behind the others. */
  method StoreHole(window: array<u16>, before: u16, hi: u16, i: u16, counted: u8, holesy: array<Hole>, holes: nat,
                   ghost m: nat -> bool, ghost left: nat -> bool)
    returns (re: u16, loss: u8)
    requires window.Length == WINDOW && i < hi
    requires m == MissingIn(window[..]) && left == LeftMissingIn(window[..], before) && m(i)
    requires holes < holesy.Length == HOLES_MAX
    requires 0 <= Width(holesy[..holes]) && counted == Width(holesy[..holes]) % U8_LIMIT
    modifies holesy
    ensures i <= re < hi
    ensures holesy[..holes + 1] + Scan(m, left, hi, re + 1, HOLES_MAX - holes - 1) ==
            old(holesy[..holes]) + Scan(m, left, hi, i, HOLES_MAX - holes)
    ensures 0 <= Width(holesy[..holes + 1]) && loss == Width(holesy[..holes + 1]) % U8_LIMIT
  {
    ghost var found := holesy[..holes];
    var hole;
    hole, loss := FindHole(window, before, hi, i, counted, Width(found));
    holesy[holes] := hole;
    assert holesy[..holes + 1] == found + [hole];
    ScanFinds(m, left, hi, i, HOLES_MAX - holes, found, hole);
    re := hole.re;
  }

  /** One turn of the scan's loop: past a received number, or past a whole hole. */
  method ScanTurn(window: array<u16>, before: u16, hi: u16, i: u16, counted: u8, holesy: array<Hole>, holes: nat,
                  ghost m: nat -> bool, ghost left: nat -> bool)
    returns (next: u16, loss: u8, found: nat)
    requires window.Length == WINDOW && i < hi
    requires m == MissingIn(window[..]) && left == LeftMissingIn(window[..], before)
    requires holes < holesy.Length == HOLES_MAX
    requires 0 <= Width(holesy[..holes]) && counted == Width(holesy[..holes]) % U8_LIMIT
    modifies holesy
    ensures i < next <= hi && holes <= found <= HOLES_MAX
    ensures holesy[..found] + Scan(m, left, hi, next, HOLES_MAX - found) ==
            old(holesy[..holes]) + Scan(m, left, hi, i, HOLES_MAX - holes)
    ensures 0 <= Width(holesy[..found]) && loss == Width(holesy[..found]) % U8_LIMIT
  {
    next, loss, found := i, counted, holes;
    if window[i % WINDOW] == 0 {
      next, loss := StoreHole(window, before, hi, i, loss, holesy, holes, m, left);
      found := found + 1;
    }
    next := next + 1;
  }

  /** The scan over the live entry. `before` is the word in front of the window array. */
  method ScanHoles(window: array<u16>, before: u16, round: u16) returns (holesy: array<Hole>, holes: nat, loss: u8)
    requires window.Length == WINDOW
    ensures fresh(holesy) && holesy.Length == HOLES_MAX && holes <= HOLES_MAX
    ensures holesy[..holes] == Holes(window[..], before, round)
    ensures loss == Width(holesy[..holes]) % U8_LIMIT
  {
    var lattmp: u16 := (round * 5) % U16_LIMIT;
    var i: u16 := if lattmp < WINDOW then 0 else lattmp - WINDOW;
    holesy := new Hole[HOLES_MAX](_ => Hole(0, 0));
    holes, loss := 0, 0;
    ghost var w: Window := window[..];
    ghost var m, left, all := MissingIn(w), LeftMissingIn(w, before), Holes(w, before, round);
    while i < lattmp && holes < HOLES_MAX
      invariant holes <= HOLES_MAX && window[..] == w
      invariant holesy[..holes] + Scan(m, left, lattmp, i, HOLES_MAX - holes) == all
      invariant 0 <= Width(holesy[..holes]) && loss == Width(holesy[..holes]) % U8_LIMIT
      decreases lattmp - i
    {
      i, loss, holes := ScanTurn(window, before, lattmp, i, loss, holesy, holes, m, left);
    }
  }

  /** The part of `prepDACK` before the lock: the holes and the delay for the timer. */
  method PrepareDack(rx: EncodingRx, before: u16, round: u16, bits: int)
    returns (holesy: array<Hole>, holes: nat, delay: int)
    requires rx.Valid()
    modifies rx`alpha
    ensures holesy.Length == HOLES_MAX && holes <= HOLES_MAX
    ensures holesy[..holes] == Holes(rx.window[..], before, round)
    ensures delay == Delay(old(rx.alpha), Width(holesy[..holes]) % U8_LIMIT, bits)
    ensures rx.alpha == Min(old(rx.alpha), 100)
  {
    var loss;
    holesy, holes, loss := ScanHoles(rx.window, before, round);
    if loss <= 5 {
      loss := 5 - loss;
    }
    if rx.alpha >= 100 {
      rx.alpha := 100;
    }
    delay := 2 * rx.alpha * (loss + Parity(bits));
    if delay == 0 {
      delay := 1;
    }
    if delay > 100 {
      delay := 10;
    }
  }
}
