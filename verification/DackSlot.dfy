/** The fields of the pending-DACK slot as the two critical sections change them in place,
    and the sections as uninterrupted runs of the steps of the protocol. */
module DackSlot {
  import opened VmacTypes
  import opened PendingDack

  /** dac_info and its timer. */
  class DackInfo {
    var send: bool
    var dack: Option<nat>
    var armed: bool

    constructor ()
      ensures !send && dack.None? && armed
    {
      send, dack, armed := false, None, true;
    }

    /** The fields are those of the protocol's state. */
    predicate Mirrors(s: State)
      reads this
    {
      send == s.send && dack == s.dack && armed == s.armed
    }

    /** prepDACK under the lock: the old frame, and whether it is to be freed. */
    method Store(skb: nat, luck: bool, ghost s: State) returns (ptr: Option<nat>, frees: bool)
      requires Mirrors(s) && s.gen == GenLocked(skb, luck)
      modifies this
      ensures Mirrors(Generated(s, if s.send then 2 else 3))
      ensures Generated(s, if s.send then 2 else 3).gen == GenUnlocking(ptr, frees)
    {
      StoreSection(s);
      ptr, frees := None, false;
      if send {
        frees := luck;
        if dack.Some? {
          frees := true;
        }
        ptr := dack;
        send := true;
        dack := Some(skb);
      } else {
        dack := Some(skb);
        send := true;
        armed := true;
      }
    }

    /** __sendDACK under the lock: the frame to hand over, if the slot was pending. */
    method Take(ghost s: State) returns (fires: bool, ptr: Option<nat>)
      requires Mirrors(s) && s.cb.CbLocked?
      modifies this
      ensures fires == s.send
      ensures fires ==> Mirrors(Called(s, 3)) && Called(s, 3).cb == CbEmptied(ptr)
      ensures !fires ==> Mirrors(s) && Called(s, 1) == s.(lock := Free, cb := CbIdle)
    {
      TakeSection(s);
      fires, ptr := send, None;
      if send {
        send := false;
        ptr := dack;
        dack := None;
      }
    }
  }

  function Generated(s: State, n: nat): State {
    if n == 0 then s else GeneratorStep(Generated(s, n - 1))
  }

  function Called(s: State, n: nat): State {
    if n == 0 then s else CallbackStep(Called(s, n - 1))
  }

  /** The generator's section replaces a pending DACK, or stores the first and arms the
      timer. */
  lemma StoreSection(s: State)
    requires s.gen.GenLocked?
    ensures var ptr := if s.send then s.dack else None;
            var frees := s.send && (s.gen.frees || s.dack.Some?);
            Generated(s, if s.send then 2 else 3) ==
            s.(send := true, dack := Some(s.gen.skb), armed := s.armed || !s.send, gen := GenUnlocking(ptr, frees))
  {
    assert Generated(s, 1) == GeneratorStep(s);
    assert Generated(s, 2) == GeneratorStep(Generated(s, 1));
  }

  /** The callback's section empties a pending slot. */
  lemma TakeSection(s: State)
    requires s.cb.CbLocked?
    ensures Called(s, 1) == if s.send then s.(send := false, cb := CbCleared) else s.(lock := Free, cb := CbIdle)
    ensures s.send ==> Called(s, 3) == s.(send := false, dack := None, cb := CbEmptied(s.dack))
  {
    assert Called(s, 1) == CallbackStep(s);
    assert Called(s, 2) == CallbackStep(Called(s, 1));
  }
}
