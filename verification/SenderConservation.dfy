/** The life of the ring copies: made by a send, freed by overwrite or by cleanup. */
module SenderConservation {
  import opened VmacTypes
  import opened SenderRing

  /** An entry after some sends, and the copies freed meanwhile; copy k is that of send k. */
  datatype Life = Life(tx: Tx, freed: seq<nat>)

  /** Send number n. */
  ghost function SendOne(before: Life, payload: seq<u8>, n: nat): Life {
    var (tx', frame, displaced) := Transmit(before.tx, payload, n);
    Life(tx', before.freed + if displaced.Some? then [displaced.value] else [])
  }

  ghost function AfterSends(tx: Tx, payloads: seq<seq<u8>>): Life {
    if payloads == [] then Life(tx.(seqno := 0), [])
    else
      var n := |payloads| - 1;
      SendOne(AfterSends(tx, payloads[..n]), payloads[n], n)
  }

  function VisitedSlots(seqno: u16): nat {
    if seqno < WINDOW_TX then seqno else WINDOW_TX
  }

  /** Everything freed once the entry has been cleaned up. */
  ghost function FreedInAll(life: Life): seq<nat> {
    life.freed + Freed(life.tx.copies, VisitedSlots(life.tx.seqno))
  }

  ghost predicate EachOnce(freed: seq<nat>, n: nat) {
    && (forall i, j :: 0 <= i < j < |freed| ==> freed[i] != freed[j])
    && (forall k :: k in freed <==> 0 <= k < n)
  }

  /** In one epoch: copies are freed in send order, and the slots hold the last 500. */
  ghost predicate InOrder(life: Life, n: nat) {
    && life.tx.seqno == n
    && life.freed == seq(Oldest(n), k => k)
    && forall s: u16 :: Live(n, s) ==> life.tx.copies[TxSlot(s)].Some? && life.tx.copies[TxSlot(s)].value.id == s
  }

  predicate HoldsOther(copy: Option<SkBuff>) {
    copy.Some? && copy.value.id != 65500
  }

  /** After the numbers wrapped, copy 65500 is not freed and soon in no slot. */
  ghost predicate Leaked(life: Life, n: nat) {
    && life.tx.seqno == n % U16_LIMIT
    && 65500 !in life.freed
    && forall k :: 0 <= k < WINDOW_TX && (n == U16_LIMIT ==> k != 0) ==> HoldsOther(life.tx.copies[k])
  }

  /** A send in the epoch frees the copy 500 sends older, if there is one. */
  lemma SendKeepsOrder(before: Life, payload: seq<u8>, n: nat)
    requires n < U16_LIMIT - 1 && InOrder(before, n)
    ensures InOrder(SendOne(before, payload, n), n + 1)
  {
    var after := SendOne(before, payload, n);
    if n >= WINDOW_TX {
      assert Live(n, n - WINDOW_TX) && TxSlot(n - WINDOW_TX) == TxSlot(n);
    }
    forall s: u16 | Live(n + 1, s)
      ensures after.tx.copies[TxSlot(s)].Some? && after.tx.copies[TxSlot(s)].value.id == s
    {
      if s < n {
        TxSlotsApart(s, n);
        assert Live(n, s);
      }
    }
  }

  /** The send that uses number 65535 wraps the counter to zero. */
  lemma SendWraps(before: Life, payload: seq<u8>)
    requires InOrder(before, U16_LIMIT - 1)
    ensures Leaked(SendOne(before, payload, U16_LIMIT - 1), U16_LIMIT)
  {
    var n: u16 := U16_LIMIT - 1;
    var after := SendOne(before, payload, n);
    assert Live(n, n - WINDOW_TX) && TxSlot(n - WINDOW_TX) == TxSlot(n) == 35;
    forall k | 0 < k < WINDOW_TX
      ensures HoldsOther(after.tx.copies[k])
    {
      var s: u16 := n - WINDOW_TX + (k + 465) % WINDOW_TX;
      assert TxSlot(s) == k && Live(n, s);
      assert k != 0 ==> s != 65500;
    }
  }

  /** After the wrap slot 0 is overwritten without a free, because its number is below 500. */
  lemma SendKeepsLeak(before: Life, payload: seq<u8>, n: nat)
    requires n >= U16_LIMIT && Leaked(before, n)
    ensures Leaked(SendOne(before, payload, n), n + 1)
  {
    if n > U16_LIMIT { assert HoldsOther(before.tx.copies[TxSlot(before.tx.seqno)]); }
  }

  lemma {:induction false} LifeOfSends(tx: Tx, payloads: seq<seq<u8>>)
    ensures var n := |payloads|;
            if n < U16_LIMIT then InOrder(AfterSends(tx, payloads), n) else Leaked(AfterSends(tx, payloads), n)
  {
    var n := |payloads|;
    if n > 0 {
      var front, last := payloads[..n - 1], payloads[n - 1];
      LifeOfSends(tx, front);
      var before := AfterSends(tx, front);
      if n < U16_LIMIT { SendKeepsOrder(before, last, n - 1); }
      else if n == U16_LIMIT { SendWraps(before, last); }
      else { SendKeepsLeak(before, last, n - 1); }
    }
  }

  lemma {:induction false} FreedIs(copies: Copies, n: nat)
    requires n <= WINDOW_TX && forall k :: 0 <= k < n ==> copies[k].Some?
    ensures |Freed(copies, n)| == n
    ensures forall k :: 0 <= k < n ==> Freed(copies, n)[k] == copies[k].value.id
  {
    if n > 0 { FreedIs(copies, n - 1); }
  }

  lemma {:induction false} FreedOnlyHeld(copies: Copies, n: nat, id: nat)
    requires n <= WINDOW_TX && id in Freed(copies, n)
    ensures exists k :: 0 <= k < n && copies[k].Some? && copies[k].value.id == id
    decreases n
  {
    if !(copies[n - 1].Some? && copies[n - 1].value.id == id) { FreedOnlyHeld(copies, n - 1, id); }
  }

  /** The cleanup of an unwrapped entry frees the copies of the last 500 sends. */
  lemma CleanupFreesRest(life: Life, n: nat)
    requires n < U16_LIMIT && InOrder(life, n)
    ensures var rest := Freed(life.tx.copies, VisitedSlots(n));
            && |rest| == VisitedSlots(n)
            && (forall i, j :: 0 <= i < j < |rest| ==> rest[i] != rest[j])
            && (forall id :: id in rest <==> Oldest(n) <= id < n)
  {
    var copies, visited := life.tx.copies, VisitedSlots(n);
    var rest := Freed(copies, visited);
    forall k | 0 <= k < visited
      ensures copies[k].Some? && Oldest(n) <= copies[k].value.id < n && TxSlot(copies[k].value.id) == k
    {
      var s: u16 := if n < WINDOW_TX then k else Oldest(n) + (k - Oldest(n)) % WINDOW_TX;
      assert Live(n, s) && TxSlot(s) == k;
    }
    FreedIs(copies, visited);
    forall id: u16 | Oldest(n) <= id < n
      ensures id in rest
    {
      assert Live(n, id) && rest[TxSlot(id)] == id;
    }
  }

  lemma EpochFreesEachOnce(life: Life, n: nat)
    requires n < U16_LIMIT && InOrder(life, n)
    ensures EachOnce(FreedInAll(life), n)
  {
    var early, rest, all := life.freed, Freed(life.tx.copies, VisitedSlots(n)), FreedInAll(life);
    CleanupFreesRest(life, n);
    assert forall k :: 0 <= k < |early| ==> early[k] == k;
    forall id | 0 <= id < n
      ensures id in all
    {
      if id < Oldest(n) { assert early[id] == id && all[id] == id; } else { assert id in rest; }
    }
    forall i | 0 <= i < |all|
      ensures if i < |early| then all[i] == i else all[i] in rest
    {
    }
  }

  /** Every copy made is freed exactly once, by overwrite or by cleanup, exactly when fewer
      than 65536 frames were sent: the wrap of the counter makes both places lose copies. */
  lemma CopiesAreConserved(tx: Tx, payloads: seq<seq<u8>>)
    ensures EachOnce(FreedInAll(AfterSends(tx, payloads)), |payloads|) <==> |payloads| < U16_LIMIT
  {
    var n, life := |payloads|, AfterSends(tx, payloads);
    LifeOfSends(tx, payloads);
    if n < U16_LIMIT {
      EpochFreesEachOnce(life, n);
    } else if 65500 in FreedInAll(life) {
      FreedOnlyHeld(life.tx.copies, VisitedSlots(life.tx.seqno), 65500);
    }
  }
}
