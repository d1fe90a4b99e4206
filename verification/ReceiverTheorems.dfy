/** What the receiver's window means: it is a set of accepted sequence numbers,
    seen through the last 700 of them. */
module ReceiverTheorems {
  import opened VmacTypes
  import opened ReceiverWindow

  /** Every accepted frame still inside the window has its slot set. */
  ghost predicate Marked(rx: Rx, got: set<u16>) {
    && (forall s :: s in got ==> s <= rx.latest)
    && (forall s :: s in got && InWindow(rx, s) ==> rx.window[Slot(s)] == 1)
  }

  /** The window's slots are exactly the membership of `got`, for the last 700 numbers. */
  ghost predicate Refines(rx: Rx, got: set<u16>) {
    && (forall s :: s in got ==> s <= rx.latest)
    && (forall s: u16 :: s <= rx.latest && InWindow(rx, s) ==>
          rx.window[Slot(s)] == if s in got then 1 else 0)
  }

  /** The frames accepted once s has been handled. */
  ghost function Gained(got: set<u16>, s: u16, outcome: Outcome): set<u16> {
    if outcome.Accepted? then got + {s} else got
  }

  /** The DACK trigger: `round` is the number whose arrival last asked for a DACK. */
  ghost predicate Triggered(rx: Rx) {
    rx.round <= rx.latest < rx.round + 5
  }

  /** The last accepted frame is marked and in the window, once there is one. */
  ghost predicate LastMarked(rx: Rx, got: set<u16>) {
    if got == {} then rx.firstFrame == 0
    else rx.lastin <= rx.latest && InWindow(rx, rx.lastin) && rx.window[Slot(rx.lastin)] == 1
  }

  lemma SlotsApart(a: nat, b: nat)
    requires a < b < a + WINDOW
    ensures Slot(a) != Slot(b)
  {
  }

  /** After the advance, new numbers are missing and the rest of the window is as before. */
  lemma {:induction false} AdvanceAt(w: Window, lo: u16, hi: u16, s: u16)
    requires lo <= hi && hi < s + WINDOW && s <= hi
    ensures Advance(w, lo, hi)[Slot(s)] == if s > lo then 0 else w[Slot(s)]
    decreases hi
  {
    if lo < hi {
      if s < hi {
        AdvanceAt(w, lo, hi - 1, s);
        SlotsApart(s, hi);
      }
    }
  }

  /** A frame ahead of the window, as the accepted branch leaves the slots. */
  lemma AcceptedAt(rx: Rx, s: u16, now: u64, t: u16)
    requires !Arrive(rx, s, now).1.Dropped? && InWindow(rx, s)
    requires InWindow(Arrive(rx, s, now).0, t) && t <= Arrive(rx, s, now).0.latest
    ensures Arrive(rx, s, now).0.latest == Max(rx.latest, s)
    ensures Arrive(rx, s, now).0.window[Slot(t)] ==
            if t == s then 1 else if t > rx.latest then 0 else rx.window[Slot(t)]
  {
    if rx.latest < s { AdvanceAt(rx.window, rx.latest, s, t); }
    if t < s { SlotsApart(t, s); } else if s < t { SlotsApart(s, t); }
  }

  /** Whatever arrives, however old, an accepted frame in the window keeps its mark. */
  lemma ArriveKeepsMarked(rx: Rx, got: set<u16>, s: u16, now: u64)
    requires Marked(rx, got)
    ensures Marked(Arrive(rx, s, now).0, Gained(got, s, Arrive(rx, s, now).1))
  {
    var (rx', outcome) := Arrive(rx, s, now);
    var got' := Gained(got, s, outcome);
    forall t | t in got' && InWindow(rx', t)
      ensures t <= rx'.latest && rx'.window[Slot(t)] == 1
    {
      if InWindow(rx, s) && !outcome.Dropped? { AcceptedAt(rx, s, now, t); }
    }
  }

  /** An in-window arrival is dropped exactly when it is a repeat, and the window goes
      on describing the set of accepted frames. */
  lemma ArriveRefines(rx: Rx, got: set<u16>, s: u16, now: u64)
    requires Refines(rx, got) && InWindow(rx, s)
    ensures var (rx', outcome) := Arrive(rx, s, now);
            && (outcome.Dropped? <==> s in got)
            && (!outcome.DivideError? ==> Refines(rx', Gained(got, s, outcome)))
  {
    var (rx', outcome) := Arrive(rx, s, now);
    if !outcome.Dropped? {
      forall t: u16 | t <= rx'.latest && InWindow(rx', t)
        ensures rx'.window[Slot(t)] == if t in got + {s} then 1 else 0
      {
        AcceptedAt(rx, s, now, t);
      }
    }
  }

  /** An arrival below the window keeps the refinement exactly when its slot is already
      taken or the code's lower bound, which is weaker than a window test, stops the mark. */
  lemma StaleArrivalRefines(rx: Rx, got: set<u16>, s: u16, now: u64)
    requires Refines(rx, got) && !InWindow(rx, s) && !Arrive(rx, s, now).1.DivideError?
    ensures var (rx', outcome) := Arrive(rx, s, now);
            Refines(rx', Gained(got, s, outcome)) <==>
            rx.window[Slot(s)] == 1 || s < Slot(rx.latest)
  {
    var (rx', outcome) := Arrive(rx, s, now);
    // the number in the window that shares the slot of s
    var t := rx.latest - (rx.latest - s) % WINDOW;
    assert t <= rx.latest && InWindow(rx, t) && Slot(t) == Slot(s);
    forall u: u16 | u <= rx.latest && InWindow(rx, u) && u != t
      ensures Slot(u) != Slot(t)
    {
      if u < t { SlotsApart(u, t); } else { SlotsApart(t, u); }
    }
  }

  /** The unzeroed allocation describes "nothing accepted" exactly when slot 0 reads zero. */
  lemma FreshRefines(garbage: Window)
    ensures Refines(Fresh(garbage), {}) <==> garbage[0] == 0
    ensures Marked(Fresh(garbage), {}) && LastMarked(Fresh(garbage), {}) && Triggered(Fresh(garbage))
  {
    assert Slot(0) == 0;
    assert Refines(Fresh(garbage), {}) ==> InWindow(Fresh(garbage), 0);
  }

  /** What decides a drop: the slot of a number in the window holds one exactly if the number
      is in `got`. Any other word reads as not received. */
  ghost predicate Decides(rx: Rx, got: set<u16>) {
    && (forall s :: s in got ==> s <= rx.latest)
    && (forall s: u16 :: s <= rx.latest && InWindow(rx, s) ==> (rx.window[Slot(s)] == 1 <==> s in got))
  }

  /** An in-window arrival is dropped exactly when it is a repeat, whatever else the window
      holds, and that goes on. */
  lemma ArriveDecides(rx: Rx, got: set<u16>, s: u16, now: u64)
    requires Decides(rx, got) && InWindow(rx, s)
    ensures var (rx', outcome) := Arrive(rx, s, now);
            && (outcome.Dropped? <==> s in got)
            && (!outcome.DivideError? ==> Decides(rx', Gained(got, s, outcome)))
  {
    var (rx', outcome) := Arrive(rx, s, now);
    if !outcome.Dropped? {
      forall t: u16 | t <= rx'.latest && InWindow(rx', t)
        ensures rx'.window[Slot(t)] == 1 <==> t in got + {s}
      {
        AcceptedAt(rx, s, now, t);
      }
    }
  }

  /** The unzeroed allocation decides rightly exactly unless slot 0 holds one; then the first
      arrival of number 0 is dropped. */
  lemma FreshDecides(garbage: Window, now: u64)
    ensures Decides(Fresh(garbage), {}) <==> garbage[0] != 1
    ensures Arrive(Fresh(garbage), 0, now).1.Dropped? <==> garbage[0] == 1
  {
    assert Slot(0) == 0;
    assert Decides(Fresh(garbage), {}) ==> InWindow(Fresh(garbage), 0);
  }

  /** The number of the window whose slot an older number shares. */
  function Sharing(rx: Rx, s: u16): (t: u16)
    requires s <= rx.latest
    ensures t <= rx.latest && InWindow(rx, t) && Slot(t) == Slot(s)
  {
    rx.latest - (rx.latest - s) % WINDOW
  }

  lemma SharesAlone(rx: Rx, s: u16, u: u16)
    requires s <= rx.latest && u <= rx.latest && InWindow(rx, u) && u != Sharing(rx, s)
    ensures Slot(u) != Slot(s)
  {
    var t := Sharing(rx, s);
    if u < t { SlotsApart(u, t); } else { SlotsApart(t, u); }
  }

  /** An arrival below the window is judged by the number that shares its slot: rightly
      exactly if both were received or neither was. Drops go on being right exactly if the
      other was received or the code's lower bound stops the mark. */
  lemma StaleArrivalDecides(rx: Rx, got: set<u16>, s: u16, now: u64)
    requires Decides(rx, got) && !InWindow(rx, s)
    ensures var (rx', outcome) := Arrive(rx, s, now);
            var t := Sharing(rx, s);
            && ((outcome.Dropped? <==> s in got) <==> ((t in got) == (s in got)))
            && (!outcome.DivideError? ==>
                  (Decides(rx', Gained(got, s, outcome)) <==> t in got || s < Slot(rx.latest)))
  {
    var t := Sharing(rx, s);
    forall u: u16 | u <= rx.latest && InWindow(rx, u) && u != t ensures Slot(u) != Slot(s) { SharesAlone(rx, s, u); }
  }

  /** The two failing cases: a first arrival of 0 is dropped because 700 was received, and a
      repeat of 0 is passed on because 700 was not. */
  lemma StaleArrivalFails(rx: Rx, got: set<u16>, now: u64)
    requires Decides(rx, got) && rx.latest == 701 && (0 in got) != (700 in got)
    ensures 700 in got ==> Arrive(rx, 0, now).1.Dropped?
    ensures 0 in got ==> !Arrive(rx, 0, now).1.Dropped?
  {
    assert Sharing(rx, 0) == 700;
    StaleArrivalDecides(rx, got, 0, now);
  }

  /** The divisor of the estimate is never zero while arrivals stay in the window. */
  lemma ArriveNeverDividesByZero(rx: Rx, got: set<u16>, s: u16, now: u64)
    requires LastMarked(rx, got) && Marked(rx, got) && InWindow(rx, s)
    ensures var (rx', outcome) := Arrive(rx, s, now);
            !outcome.DivideError? && LastMarked(rx', Gained(got, s, outcome))
  {
    var (rx', outcome) := Arrive(rx, s, now);
    if !outcome.Dropped? { AcceptedAt(rx, s, now, s); }
  }

  /** The trigger holds after every arrival of any age. A request is made only by a frame
      that advances `latest`; its round is above the one of the previous request, and the
      five-fold round that the scan computes from it is at most `latest`. */
  lemma ArriveKeepsTrigger(rx: Rx, s: u16, now: u64)
    requires Triggered(rx) && !Arrive(rx, s, now).1.DivideError?
    ensures var (rx', outcome) := Arrive(rx, s, now);
            && Triggered(rx')
            && (outcome.Accepted? && outcome.request.Some? <==> s >= rx.round + 5)
            && (outcome.Accepted? && outcome.request.Some? ==>
                  var r := outcome.request.value;
                  rx.latest < s == rx'.latest && rx.round / 5 < r == rx'.round / 5 && 5 * r <= rx'.latest)
            && (!(outcome.Accepted? && outcome.request.Some?) ==> rx'.round == rx.round)
  {
  }

  // ---- the inter-arrival estimate ----

  lemma {:induction false} ProductSteps(a: int, b: int, d: nat)
    requires a < b
    ensures a * d + d <= b * d
  {
    if d > 0 {
      ProductSteps(a, b, d - 1);
      assert a * d == a * (d - 1) + a && b * d == b * (d - 1) + b;
    }
  }

  /** A quotient is the only factor that fits. */
  lemma QuotientIs(x: nat, d: nat, q: nat)
    requires d > 0 && q * d <= x < q * d + d
    ensures x / d == q
  {
    var p := x / d;
    assert x == p * d + x % d;
    if p < q { ProductSteps(p, q, d); } else if q < p { ProductSteps(q, p, d); }
  }

  lemma ModuloSheds(k: nat, c: nat)
    ensures (U32_LIMIT * k + c) % U32_LIMIT == c % U32_LIMIT
  {
  }

  lemma QuotientSheds(a: nat, b: nat, d: nat)
    requires d > 0
    ensures (a * d + b) / d == a + b / d
  {
    assert b == b / d * d + b % d;
    assert (a + b / d) * d == a * d + b / d * d;
    QuotientIs(a * d + b, d, a + b / d);
  }

  lemma QuotientBounds(v: nat, d: nat, lo: nat, hi: nat)
    requires d > 0 && lo * d <= v < hi * d
    ensures lo <= v / d < hi
  {
    var z := v / d;
    assert v == z * d + v % d;
    if z < lo { ProductSteps(z, lo, d); } else if z > hi { ProductSteps(hi, z, d); }
  }

  /** A remainder of the high word raises the quotient by less than a word. */
  lemma HighWordRaises(low: nat, t: nat, gap: nat)
    requires 0 < t < gap < U16_LIMIT
    ensures 0 < (low + U32_LIMIT * t) / gap - low / gap < U32_LIMIT
  {
    var x, r := low / gap, low % gap;
    assert low == x * gap + r;
    QuotientSheds(x, r + U32_LIMIT * t, gap);
    QuotientBounds(r + U32_LIMIT * t, gap, 1, U32_LIMIT);
  }

  lemma HighWordSplits(low: nat, high: nat, gap: nat)
    requires gap > 0
    ensures (low + U32_LIMIT * high) / gap == U32_LIMIT * (high / gap) + (low + U32_LIMIT * (high % gap)) / gap
  {
    var k, t := high / gap, high % gap;
    assert high == k * gap + t;
    Scaled(k, gap);
    QuotientSheds(U32_LIMIT * k, low + U32_LIMIT * t, gap);
  }

  lemma {:induction false} Scaled(k: nat, d: nat)
    ensures (U32_LIMIT * k) * d == U32_LIMIT * (k * d)
  {
    if d > 0 {
      Scaled(k, d - 1);
      assert (U32_LIMIT * k) * d == (U32_LIMIT * k) * (d - 1) + U32_LIMIT * k;
      assert k * d == k * (d - 1) + k;
    }
  }

  /** The quotient n is a multiple of the word, and a rest that shows whether the gap divides
      the high word. */
  lemma HighWordParts(low: nat, high: nat, gap: nat, n: int, x: int) returns (k: nat, y: nat)
    requires 0 < gap < U16_LIMIT && n == (low + U32_LIMIT * high) / gap && x == low / gap
    ensures n == U32_LIMIT * k + y
    ensures if high % gap == 0 then y == x else 0 < y - x < U32_LIMIT
  {
    var t := high % gap;
    k, y := high / gap, (low + U32_LIMIT * t) / gap;
    HighWordSplits(low, high, gap);
    if t == 0 { assert low + U32_LIMIT * t == low; } else { HighWordRaises(low, t, gap); }
  }

  /** A high word on the elapsed time goes unnoticed exactly if the gap divides it. */
  lemma HighWordDecides(low: nat, high: nat, gap: nat, n: int, x: int)
    requires 0 < gap < U16_LIMIT && n == (low + U32_LIMIT * high) / gap && x == low / gap
    ensures n % U32_LIMIT == x % U32_LIMIT <==> high % gap == 0
  {
    var t := high % gap;
    var k, y := HighWordParts(low, high, gap, n, x);
    WordsApart(n, k, x, y, t);
  }

  lemma WordsApart(n: int, k: nat, x: int, y: nat, t: nat)
    requires n == U32_LIMIT * k + y && if t == 0 then y == x else 0 < y - x < U32_LIMIT
    ensures n % U32_LIMIT == x % U32_LIMIT <==> t == 0
  {
    ModuloSheds(k, y);
    if t > 0 { NotCongruent(x, y); }
  }

  lemma NotCongruent(x: int, y: int)
    requires 0 < y - x < U32_LIMIT
    ensures x % U32_LIMIT != y % U32_LIMIT
  {
  }

  lemma Wrapped(x: int)
    requires 0 <= x + U64_LIMIT < 2 * U64_LIMIT
    ensures x % U64_LIMIT == if x < 0 then x + U64_LIMIT else x
  {
  }

  lemma PerNumber(now: u64, first: u32, s: u16, lastin: u16, elapsed: int, gap: int)
    requires s > lastin && first <= now && elapsed == now - first && gap == s - lastin
    ensures PerFrame(now, first, s, lastin) == (elapsed / gap) % U32_LIMIT
  {
    Wrapped(elapsed);
    Wrapped(gap);
  }

  lemma NewerEstimate(first: u32, s: u16, lastin: u16, now: u64, start: u64)
    requires first == start % U32_LIMIT && s > lastin && start <= now
    ensures PerFrame(now, first, s, lastin) == ((now - start) / (s - lastin)) % U32_LIMIT <==>
            start / U32_LIMIT % (s - lastin) == 0
  {
    var low: nat, high: nat, gap: nat := now - start, start / U32_LIMIT, s - lastin;
    PerNumber(now, first, s, lastin, low + U32_LIMIT * high, gap);
    HighWordDecides(low, high, gap, (low + U32_LIMIT * high) / gap, low / gap);
  }

  lemma OlderEstimate(first: u32, s: u16, lastin: u16, now: u64)
    requires s < lastin && first <= now
    ensures PerFrame(now, first, s, lastin) == if now - first >= U64_LIMIT - (lastin - s) then 1 else 0
  {
    var gap: int := s - lastin;
    Wrapped(now - first);
    Wrapped(gap);
    QuotientIs(now - first, gap + U64_LIMIT, if now - first >= gap + U64_LIMIT then 1 else 0);
  }

  /** With the first frame at time `start`, of which the entry keeps the low word: for a newer
      second frame the estimate is the elapsed time per number, exactly if the gap divides
      the high word of `start`. For an older one, whose negative gap reads as a huge divisor,
      it is zero, or one when the clock is that huge too. */
  lemma EstimateIs(rx: Rx, s: u16, now: u64, start: u64)
    requires rx.firstFrame == start % U32_LIMIT != 0 && rx.secondFrame == 0 && s != rx.lastin && start <= now
    ensures var alpha := Estimate(rx, s, now).alpha;
            if s > rx.lastin then
              alpha == ((now - start) / (s - rx.lastin)) % U32_LIMIT <==> start / U32_LIMIT % (s - rx.lastin) == 0
            else
              alpha == if now - rx.firstFrame >= U64_LIMIT - (rx.lastin - s) then 1 else 0
  {
    if s > rx.lastin {
      NewerEstimate(rx.firstFrame, s, rx.lastin, now, start);
    } else {
      OlderEstimate(rx.firstFrame, s, rx.lastin, now);
    }
  }

  /** Some five minutes after boot the high word shows: two numbers in six jiffies are
      estimated at 2147483651 jiffies each, not three. */
  lemma EstimateFails(rx: Rx, now: u64, start: u64)
    requires start == U32_LIMIT + 4 && now == U32_LIMIT + 10
    requires rx.firstFrame == start % U32_LIMIT && rx.secondFrame == 0 && rx.lastin == 1
    ensures (now - start) / 2 == 3 && Estimate(rx, 3, now).alpha == 0x8000_0003
  {
    Wrapped(now - rx.firstFrame);
    QuotientIs(now - rx.firstFrame, 2, 0x8000_0003);
  }

  // ---- requests and estimates over arrivals ----

  /** A repeat changes nothing at all. */
  lemma DropsChangeNothing(rx: Rx, s: u16, now: u64)
    ensures Arrive(rx, s, now).1.Dropped? <==> s <= rx.latest && rx.window[s % 700] == 1
    ensures Arrive(rx, s, now).1.Dropped? ==> Arrive(rx, s, now).0 == rx
  {
  }

  /** After a request made by number s, the next one is made by the first number that is five
      or more above it, for a fifth of that number; others before it ask for nothing and leave
      that so. */
  lemma RequestsFiveApart(rx: Rx, s: u16, now: u64, next: u16, later: u64)
    requires Triggered(rx) && Arrive(rx, s, now).1.Accepted? && Arrive(rx, s, now).1.request.Some?
    requires var first := Arrive(rx, s, now).0; !Arrive(first, next, later).1.DivideError?
    ensures var first := Arrive(rx, s, now).0;
            var (rx', outcome) := Arrive(first, next, later);
            && Arrive(rx, s, now).1.request == Some(s / 5)
            && (outcome == Accepted(Some(next / 5)) <==> next >= s + 5)
            && (next < s + 5 ==> (outcome.Dropped? || outcome == Accepted(None)) && rx'.round == first.round)
  {
    ArriveKeepsTrigger(rx, s, now);
    ArriveKeepsTrigger(Arrive(rx, s, now).0, next, later);
  }

  lemma ArrivalNotes(rx: Rx, s: u16, now: u64)
    requires !Arrive(rx, s, now).1.Dropped? && !Arrive(rx, s, now).1.DivideError?
    ensures var rx' := Arrive(rx, s, now).0;
            && rx'.lastin == s
            && (rx.firstFrame == 0 ==> rx'.firstFrame == now % U32_LIMIT && rx'.alpha == rx.alpha)
            && (rx.firstFrame == 0 || rx.secondFrame != 0 ==> rx'.secondFrame == rx.secondFrame)
            && (rx.firstFrame != 0 && rx.secondFrame == 0 && s != rx.lastin ==>
                  rx'.alpha == Estimate(rx, s, now).alpha && rx'.secondFrame == now % U32_LIMIT)
  {
  }

  /** A new entry, its first frame s1 at time t1, and a newer frame s2 at t2: the estimate is
      the time that passed for each number, exactly if the gap divides the high word of t1;
      before the second frame it is zero. */
  lemma FirstTwoEstimate(garbage: Window, s1: u16, t1: u64, s2: u16, t2: u64)
    requires !Arrive(Fresh(garbage), s1, t1).1.Dropped? && t1 % U32_LIMIT != 0 && s1 < s2 && t1 <= t2
    ensures var one := Arrive(Fresh(garbage), s1, t1).0;
            var (two, outcome) := Arrive(one, s2, t2);
            && one.alpha == 0 && outcome.Accepted?
            && (two.alpha == ((t2 - t1) / (s2 - s1)) % U32_LIMIT <==> t1 / U32_LIMIT % (s2 - s1) == 0)
            && two.secondFrame == t2 % U32_LIMIT
  {
    ArrivalNotes(Fresh(garbage), s1, t1);
    var one := Arrive(Fresh(garbage), s1, t1).0;
    assert one.latest == s1 && one.firstFrame == t1 % U32_LIMIT;
    ArrivalNotes(one, s2, t2);
    EstimateIs(one, s2, t2, t1);
  }

  /** The entry after arrivals, each a number and a time. */
  ghost function AfterArrivals(rx: Rx, arrivals: seq<(u16, u64)>): Rx {
    if arrivals == [] then rx
    else
      var (s, now) := arrivals[|arrivals| - 1];
      Arrive(AfterArrivals(rx, arrivals[..|arrivals| - 1]), s, now).0
  }

  /** The estimate is taken once: after it, no arrivals change it, however many, unless its
      second frame came at a multiple of 2^32 jiffies. */
  lemma {:induction false} EstimateStays(rx: Rx, arrivals: seq<(u16, u64)>)
    requires rx.secondFrame != 0
    ensures var end := AfterArrivals(rx, arrivals); end.alpha == rx.alpha && end.secondFrame == rx.secondFrame
  {
    if arrivals != [] {
      var front := arrivals[..|arrivals| - 1];
      var (s, now) := arrivals[|arrivals| - 1];
      EstimateStays(rx, front);
      var mid := AfterArrivals(rx, front);
      DropsChangeNothing(mid, s, now);
      if !Arrive(mid, s, now).1.Dropped? { ArrivalNotes(mid, s, now); }
    }
  }
}
