/** Bringing interfaces up keeps the bookkeeping sound, exactly if no stale key is refused. */
module KeyBringUp {
  import opened KeyBooks
  import opened KeySlots
  import opened KeyOperations
  import opened KeyBalance
  import opened KeyWiring
  import opened KeyInvariant
  import opened KeyTeardown
  import opened KeyRestore

  /** The list holds the interface's keys, each once. */
  ghost predicate Lists(keys: map<KeyId, Key>, ks: seq<KeyId>, i: IfId) {
    Distinct(ks) && forall k :: k in ks <==> k in keys && keys[k].iface == i
  }

  lemma {:induction false} EnableAllAddresses(dev: Device, b: Books, ks: seq<KeyId>, drv: KeyId -> Answer)
    requires Honest(dev, b) && forall k :: k in ks ==> k in b.keys
    ensures var r := EnableAll(dev, b, ks, drv);
            SameAddresses(b.keys, r.keys) && Honest(dev, r) && r.pending == b.pending
  {
    if ks != [] {
      var front, k := ks[..|ks| - 1], ks[|ks| - 1];
      assert ks == front + [k];
      EnableAllAddresses(dev, b, front, drv);
      TurnAddresses(dev, EnableAll(dev, b, front, drv), k, drv);
    }
  }

  lemma TurnAddresses(dev: Device, b: Books, k: KeyId, drv: KeyId -> Answer)
    requires Honest(dev, b) && k in b.keys
    ensures var r := EnableTurn(dev, b, k, drv);
            SameAddresses(b.keys, r.keys) && Honest(dev, r) && r.pending == b.pending
  {
    var up := Adjust(dev, b, b.keys[k].iface, 1);
    EnableAddresses(dev, up, k, drv(k));
  }

  /** Addresses stay, and so do the keys of other interfaces. */
  lemma {:induction false} MembersKeep(
    dev: Device, b: Books, lists: map<IfId, seq<KeyId>>, members: seq<IfId>, drv: KeyId -> Answer)
    requires Honest(dev, b) && forall j :: j in members ==> Lists(b.keys, Listed(lists, j), j)
    ensures var r := EnableMembers(dev, b, lists, members, drv);
            && SameAddresses(b.keys, r.keys) && Honest(dev, r) && r.pending == b.pending
            && (forall k :: k in b.keys && b.keys[k].iface !in members ==> r.keys[k] == b.keys[k])
  {
    if members != [] {
      var front, i := members[..|members| - 1], members[|members| - 1];
      assert members == front + [i];
      MembersKeep(dev, b, lists, front, drv);
      var t := EnableMembers(dev, b, lists, front, drv);
      assert Lists(b.keys, Listed(lists, i), i);
      EnableAllAddresses(dev, t, Listed(lists, i), drv);
      forall k | k in b.keys && b.keys[k].iface !in members
        ensures EnableMembers(dev, b, lists, members, drv).keys[k] == b.keys[k]
      {
        EnableKeeps(dev, t, Listed(lists, i), drv, k);
      }
    }
  }

  lemma SameRaised(dev: Device, keys: map<KeyId, Key>, other: map<KeyId, Key>, ks: seq<KeyId>, drv: KeyId -> Answer)
    requires forall k :: k in ks ==> k in keys && k in other && other[k] == keys[k]
    ensures Raised(dev, other, ks, drv) == Raised(dev, keys, ks, drv)
  {
  }

  /** Each interface's count rises over its need by the keys raised on its own list. */
  lemma {:induction false} MembersGap(
    dev: Device, b: Books, lists: map<IfId, seq<KeyId>>, members: seq<IfId>, drv: KeyId -> Answer, j: IfId)
    requires Paired(dev) && Honest(dev, b) && Distinct(members)
    requires forall i :: i in members ==> Lists(b.keys, Listed(lists, i), i)
    ensures Gap(dev, EnableMembers(dev, b, lists, members, drv), j) ==
            Gap(dev, b, j) + if j in members then |Raised(dev, b.keys, Listed(lists, j), drv)| else 0
  {
    if members != [] {
      var front, i := members[..|members| - 1], members[|members| - 1];
      assert members == front + [i] && i in members;
      ElementsOfFront(members);
      assert i !in front by { assert i !in Elements(front); }
      MembersGap(dev, b, lists, front, drv, j);
      MembersKeep(dev, b, lists, front, drv);
      var t, ks := EnableMembers(dev, b, lists, front, drv), Listed(lists, i);
      assert Lists(b.keys, ks, i);
      if j == i {
        EnableGap(dev, t, ks, drv, i);
        SameRaised(dev, b.keys, t.keys, ks, drv);
      } else {
        EnableElsewhere(dev, t, ks, drv, i, j);
      }
    }
  }

  lemma SoundLists(dev: Device, s: Table, j: IfId)
    requires Sound(dev, s, {})
    ensures Lists(s.books.keys, Listed(s.slots.lists, j), j)
  {
    ListedKeys(dev, s, {}, j);
  }

  /** A reset leaves each member short of all it needs. */
  lemma ResetGap(dev: Device, s: Table, i: IfId, j: IfId)
    requires Paired(dev) && Sound(dev, s, {}) && !KindOf(dev, i).Vlan?
    ensures Gap(dev, s.books.(needed := Reset(s.books.needed, Members(dev, i))), j) ==
            if j in Members(dev, i) then -Count(s.books.pending, j) - |Needy(s.books.keys, j)| else 0
  {
    ResetShares(dev, s.books.needed, i, j);
    assert Gap(dev, s.books, j) == 0;
  }

  /** What a reset and the enabling leave over the need of each interface: its stale refused
      keys, less the decrements it has pending. */
  lemma BringUpGap(dev: Device, s: Table, i: IfId, drv: KeyId -> Answer, j: IfId)
    requires Paired(dev) && Sound(dev, s, {}) && !KindOf(dev, i).Vlan?
    ensures Gap(dev, BringUp(dev, s, i, drv).books, j) ==
            if j in Members(dev, i) then
              |Stales(dev, s.books.keys, Listed(s.slots.lists, j), drv)| - Count(s.books.pending, j)
            else 0
  {
    var members := Members(dev, i);
    var reset := s.books.(needed := Reset(s.books.needed, members));
    forall m ensures Lists(reset.keys, Listed(s.slots.lists, m), m) { SoundLists(dev, s, m); }
    MembersDistinct(dev, i);
    MembersGap(dev, reset, s.slots.lists, members, drv, j);
    ResetGap(dev, s, i, j);
    if j in members { RaisedIs(dev, s.books.keys, Listed(s.slots.lists, j), drv, j); }
  }

  /** Each member has as many decrements pending as stale keys refused; so nothing pending
      and none refused will do. */
  ghost predicate PendingMeetsStale(dev: Device, s: Table, i: IfId, drv: KeyId -> Answer) {
    forall j :: j in Members(dev, i) ==>
      Count(s.books.pending, j) == |Stales(dev, s.books.keys, Listed(s.slots.lists, j), drv)|
  }

  /** From any sound state, coming up keeps the bookkeeping sound exactly if, on each member,
      the pending decrements are as many as the stale keys refused. */
  lemma BringUpSound(dev: Device, s: Table, i: IfId, drv: KeyId -> Answer)
    requires Paired(dev) && Sound(dev, s, {}) && !KindOf(dev, i).Vlan?
    ensures Sound(dev, BringUp(dev, s, i, drv), {}) <==> PendingMeetsStale(dev, s, i, drv)
  {
    var members, keys, r := Members(dev, i), s.books.keys, BringUp(dev, s, i, drv);
    var reset := s.books.(needed := Reset(s.books.needed, members));
    forall m ensures Lists(keys, Listed(s.slots.lists, m), m) { SoundLists(dev, s, m); }
    MembersKeep(dev, reset, s.slots.lists, members, drv);
    FlagsWired(keys, r.books.keys, {}, s.slots);
    if PendingMeetsStale(dev, s, i, drv) {
      forall j ensures Count(r.books.pending, j) >= 0 && Gap(dev, r.books, j) == 0 {
        BringUpGap(dev, s, i, drv, j);
        assert Gap(dev, s.books, j) == 0;
      }
    } else {
      var j :| j in members
        && Count(s.books.pending, j) != |Stales(dev, s.books.keys, Listed(s.slots.lists, j), drv)|;
      BringUpGap(dev, s, i, drv, j);
      assert Gap(dev, r.books, j) != 0;
    }
  }

  /** The usual case: nothing pending, as the warnings ask, and no stale key refused. */
  lemma NothingPending(dev: Device, s: Table, i: IfId, drv: KeyId -> Answer)
    requires Sound(dev, s, {})
    requires forall j :: j in Members(dev, i) ==> Count(s.books.pending, j) == 0
    ensures PendingMeetsStale(dev, s, i, drv) <==>
            forall k :: k in s.books.keys && s.books.keys[k].iface in Members(dev, i) ==>
              !Stale(dev, s.books.keys[k], drv(k))
  {
    var keys := s.books.keys;
    forall j ensures Lists(keys, Listed(s.slots.lists, j), j) { SoundLists(dev, s, j); }
    forall k | k in keys && keys[k].iface in Members(dev, i) && Stale(dev, keys[k], drv(k))
      ensures !PendingMeetsStale(dev, s, i, drv)
    {
      var j := keys[k].iface;
      assert k in Listed(s.slots.lists, j) && k in Stales(dev, keys, Listed(s.slots.lists, j), drv);
      assert |Stales(dev, keys, Listed(s.slots.lists, j), drv)| > 0;
    }
    if forall k :: k in keys && keys[k].iface in Members(dev, i) ==> !Stale(dev, keys[k], drv(k)) {
      forall j | j in Members(dev, i) ensures Stales(dev, keys, Listed(s.slots.lists, j), drv) == {} {}
    }
  }
}
