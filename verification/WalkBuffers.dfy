/** Which buffers the sender hands over: each copy once, exactly unless the word behind the
    ring makes an echo of an earlier copy. */
module WalkBuffers {
  import opened VmacTypes
  import opened SenderRing
  import opened WalkTheorems

  /** How many of the calls find a copy, if each was stamped in its turn. */
  function CopiesMade(q: Query, timer: Timers, calls: seq<u16>): nat {
    if calls == [] then 0
    else
      var front, s := calls[..|calls| - 1], calls[|calls| - 1];
      CopiesMade(q, timer, front) + if HasCopy(q, Stamp(q, timer, front), s) then 1 else 0
  }

  /** With budget left, a call finds no copy of its own behind calls that did: the buffer made
      last is handed over once more. */
  predicate EchoesAt(q: Query, timer: Timers, front: seq<u16>, s: u16) {
    !HasCopy(q, Stamp(q, timer, front), s) && 0 < CopiesMade(q, timer, front) < MAX_RETX
  }

  ghost predicate Echoes(q: Query, timer: Timers, calls: seq<u16>) {
    exists j :: 0 <= j < |calls| && EchoesAt(q, timer, calls[..j], calls[j])
  }

  function UpTo(n: nat): seq<nat> {
    seq(n, k requires 0 <= k < n => k + 1)
  }

  ghost predicate SomeTwice(handed: seq<nat>) {
    exists i, j :: 0 <= i < j < |handed| && handed[i] == handed[j]
  }

  lemma EchoesSnoc(q: Query, timer: Timers, front: seq<u16>, s: u16)
    ensures Echoes(q, timer, front + [s]) <==> Echoes(q, timer, front) || EchoesAt(q, timer, front, s)
  {
    var calls := front + [s];
    assert calls[..|front|] == front && calls[|front|] == s;
    forall j | 0 <= j < |front| ensures calls[..j] == front[..j] && calls[j] == front[j] {}
    if Echoes(q, timer, front) {
      var j :| 0 <= j < |front| && EchoesAt(q, timer, front[..j], front[j]);
      assert EchoesAt(q, timer, calls[..j], calls[j]);
    }
    if EchoesAt(q, timer, front, s) { assert EchoesAt(q, timer, calls[..|front|], calls[|front|]); }
  }

  lemma CopiesMadeSnoc(q: Query, timer: Timers, front: seq<u16>, s: u16)
    ensures CopiesMade(q, timer, front + [s]) ==
            CopiesMade(q, timer, front) + if HasCopy(q, Stamp(q, timer, front), s) then 1 else 0
  {
    assert (front + [s])[..|front|] == front;
  }

  /** The hand-overs so far are each copy made once, or, after an echo, more than that. */
  ghost predicate HandsOver(echoed: bool, handed: seq<nat>, counter: nat) {
    if echoed then SomeTwice(handed) && |handed| > counter else handed == UpTo(counter)
  }

  /** The walk's counter and buffers after its calls. */
  ghost predicate Accounted(q: Query, timer: Timers, calls: seq<u16>, w: Walk) {
    && w.counter == Min(CopiesMade(q, timer, calls), MAX_RETX)
    && (w.skb2.Some? <==> w.counter > 0)
    && |w.queued| == |w.handed|
    && HandsOver(Echoes(q, timer, calls), w.handed, w.counter)
  }

  lemma HandsNext(echoed: bool, handed: seq<nat>, counter: nat)
    requires HandsOver(echoed, handed, counter)
    ensures HandsOver(echoed, handed + [counter + 1], counter + 1)
  {
    if echoed {
      var i, j :| 0 <= i < j < |handed| && handed[i] == handed[j];
      assert (handed + [counter + 1])[i] == (handed + [counter + 1])[j];
    } else {
      assert UpTo(counter + 1) == UpTo(counter) + [counter + 1];
    }
  }

  lemma HandsAgain(echoed: bool, handed: seq<nat>, counter: nat)
    requires HandsOver(echoed, handed, counter) && counter > 0
    ensures HandsOver(true, handed + [counter], counter)
  {
    var after := handed + [counter];
    if echoed {
      var i, j :| 0 <= i < j < |handed| && handed[i] == handed[j];
      assert after[i] == after[j];
    } else {
      assert after[counter - 1] == after[counter];
    }
  }

  /** What one visit adds, by whether the number has a copy. */
  lemma VisitAdds(q: Query, w: Walk, s: u16)
    requires Eligible(q, w.timer, s) && w.counter < MAX_RETX && (HasCopy(q, w.timer, s) ==> CopyOf(q, s).Some?)
    ensures var made, after := HasCopy(q, w.timer, s), Visit(q, w, s);
            && after.counter == w.counter + (if made then 1 else 0)
            && (after.skb2.Some? <==> made || w.skb2.Some?)
            && after.handed == w.handed + (if made || w.skb2.Some? then [after.counter] else [])
            && |after.queued| == |w.queued| + (if made || w.skb2.Some? then 1 else 0)
  {
  }

  lemma NextMakes(q: Query, timer: Timers, front: seq<u16>, s: u16, w: Walk, after: Walk)
    requires Accounted(q, timer, front, w) && w.counter < MAX_RETX && HasCopy(q, Stamp(q, timer, front), s)
    requires after.counter == w.counter + 1 && after.skb2.Some? && after.handed == w.handed + [after.counter]
    requires |after.queued| == |w.queued| + 1
    ensures Accounted(q, timer, front + [s], after)
  {
    EchoesSnoc(q, timer, front, s);
    CopiesMadeSnoc(q, timer, front, s);
    assert !EchoesAt(q, timer, front, s);
    HandsNext(Echoes(q, timer, front), w.handed, w.counter);
  }

  lemma NextEchoes(q: Query, timer: Timers, front: seq<u16>, s: u16, w: Walk, after: Walk)
    requires Accounted(q, timer, front, w) && w.counter < MAX_RETX && !HasCopy(q, Stamp(q, timer, front), s)
    requires after.counter == w.counter && after.skb2.Some? == w.skb2.Some?
    requires after.handed == w.handed + if w.skb2.Some? then [w.counter] else []
    requires |after.queued| == |w.queued| + if w.skb2.Some? then 1 else 0
    ensures Accounted(q, timer, front + [s], after)
  {
    EchoesSnoc(q, timer, front, s);
    CopiesMadeSnoc(q, timer, front, s);
    if w.counter > 0 {
      assert EchoesAt(q, timer, front, s);
      HandsAgain(Echoes(q, timer, front), w.handed, w.counter);
    } else {
      assert !EchoesAt(q, timer, front, s) && after.handed == w.handed;
    }
  }

  lemma NextAccounted(q: Query, timer: Timers, front: seq<u16>, s: u16, w: Walk)
    requires Intact(q) && Callable(q, timer, front + [s])
    requires Accounted(q, timer, front, w) && (w.counter < MAX_RETX ==> w.timer == Stamp(q, timer, front))
    ensures Accounted(q, timer, front + [s], Visit(q, w, s))
  {
    CallableFront(q, timer, front, s);
    if w.counter < MAX_RETX {
      NextIsEligible(q, timer, front, s);
      VisitAdds(q, w, s);
      if HasCopy(q, w.timer, s) {
        NextMakes(q, timer, front, s, w, Visit(q, w, s));
      } else {
        NextEchoes(q, timer, front, s, w, Visit(q, w, s));
      }
    } else {
      EchoesSnoc(q, timer, front, s);
      CopiesMadeSnoc(q, timer, front, s);
    }
  }

  lemma {:induction false} CallsAccounted(q: Query, timer: Timers, calls: seq<u16>)
    requires Intact(q) && Callable(q, timer, calls)
    ensures Accounted(q, timer, calls, WalkOver(q, Start(timer), calls))
  {
    if calls != [] {
      var front, s := calls[..|calls| - 1], calls[|calls| - 1];
      assert calls == front + [s];
      CallableFront(q, timer, front, s);
      CallsAccounted(q, timer, front);
      StampedWhileBudget(q, timer, front);
      NextAccounted(q, timer, front, s, WalkOver(q, Start(timer), front));
    }
  }

  lemma UpToIsDistinct(n: nat)
    ensures !SomeTwice(UpTo(n))
  {
  }

  /** For any holes, round and timers: no buffer is handed over twice, and the queue gets as
      many entries as copies were made, exactly if the walk makes no echo. */
  lemma HandedOnce(q: Query, timer: Timers, numbers: seq<u16>)
    requires Intact(q) && AllBelow(numbers, q.seqno)
    ensures var w, calls := WalkOver(q, Start(timer), numbers), Calls(q, timer, numbers);
            && (!SomeTwice(w.handed) <==> !Echoes(q, timer, calls))
            && (|w.queued| == w.counter <==> !Echoes(q, timer, calls))
            && (!Echoes(q, timer, calls) ==> w.handed == UpTo(w.counter))
  {
    var calls := Calls(q, timer, numbers);
    CallsAreCallable(q, timer, numbers);
    OnlyCallsCount(q, timer, numbers);
    CallsAccounted(q, timer, calls);
    UpToIsDistinct(WalkOver(q, Start(timer), calls).counter);
  }
}
