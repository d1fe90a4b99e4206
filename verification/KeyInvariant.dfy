/** Every operation keeps the key bookkeeping balanced and free of dangling keys. */
module KeyInvariant {
  import opened KeyBooks
  import opened KeySlots
  import opened KeyOperations
  import opened KeyBalance
  import opened KeyWiring

  /** Keys in `flight` are on the books and out of the slots. */
  ghost predicate Sound(dev: Device, s: Table, flight: set<KeyId>) {
    && Balanced(dev, s.books)
    && Honest(dev, s.books)
    && Wired(s.books.keys, flight, s.slots)
  }

  lemma DestroySound(dev: Device, s: Table, flight: set<KeyId>, k: KeyId, delay: bool)
    requires Paired(dev) && Sound(dev, s, flight) && k in s.books.keys && k in flight
    ensures Sound(dev, s.(books := Destroy(dev, s.books, k, delay)), flight - {k})
  {
    DestroyNeutral(dev, s.books, k, delay);
    NeutralBalanced(dev, s.books, Destroy(dev, s.books, k, delay));
    LeaveWired(s.books.keys, flight, s.slots, k);
  }

  lemma VacateSound(dev: Device, s: Table, flight: set<KeyId>, k: KeyId)
    requires Sound(dev, s, flight) && Attached(s.books.keys, flight, k)
    ensures Sound(dev, s.(slots := Vacate(s.slots, k, s.books.keys[k])), flight + {k})
  {
    VacateWired(s.books.keys, flight, s.slots, k);
  }

  lemma FreeSound(dev: Device, s: Table, k: KeyId, delay: bool)
    requires Paired(dev) && Sound(dev, s, {}) && k in s.books.keys
    ensures Sound(dev, Free(dev, s, k, delay), {})
    ensures Free(dev, s, k, delay).books.keys == s.books.keys - {k}
  {
    VacateSound(dev, s, {}, k);
    DestroySound(dev, s.(slots := Vacate(s.slots, k, s.books.keys[k])), {} + {k}, k, delay);
    DestroyNeutral(dev, s.books, k, delay);
    assert {} + {k} - {k} == {};
  }

  /** A key fit to be linked. */
  predicate Linkable(key: Key) {
    !key.uploaded && Exists(PlaceOf(key))
  }

  lemma EnterSound(dev: Device, s: Table, k: KeyId, key: Key)
    requires Paired(dev) && Sound(dev, s, {}) && k !in s.books.keys && Linkable(key)
    ensures Sound(dev, s.(books := Enter(dev, s.books, k, key)), {k})
  {
    EnterNeutral(dev, s.books, k, key);
    NeutralBalanced(dev, s.books, Enter(dev, s.books, k, key));
    EnterWired(s.books.keys, {}, s.slots, k, key);
    assert {} + {k} == {k};
  }

  lemma InstallSound(dev: Device, s: Table, k: KeyId, key: Key)
    requires Paired(dev) && Sound(dev, s, {}) && k !in s.books.keys && Linkable(key)
    ensures Sound(dev, Install(dev, s, k, key), {})
  {
    EnterSound(dev, s, k, key);
    var entered := Enter(dev, s.books, k, key);
    var prior := Held(s.slots.at, PlaceOf(key));
    var from := if prior.Some? then s.books.keys[prior.value].iface else 0;
    OccupyWired(entered.keys, {k}, s.slots, k, from);
    var t := Table(entered, Occupy(s.slots, k, key, prior, from));
    if prior.Some? {
      assert Displaced({k}, k, prior) == {prior.value};
      DestroySound(dev, t, {prior.value}, prior.value, true);
      assert {prior.value} - {prior.value} == {};
    } else {
      assert Displaced({k}, k, prior) == {};
    }
  }

  lemma InstallHolds(dev: Device, s: Table, k: KeyId, key: Key)
    requires Paired(dev) && Honest(dev, s.books) && Closed(s) && k !in s.books.keys && !key.uploaded
    ensures Install(dev, s, k, key).books.keys[k] == key
  {
    var prior := Held(s.slots.at, PlaceOf(key));
    if prior.Some? { DestroyNeutral(dev, Enter(dev, s.books, k, key), prior.value, true); }
  }

  lemma EnableAddresses(dev: Device, b: Books, k: KeyId, drv: Answer)
    requires k in b.keys && Honest(dev, b)
    ensures SameAddresses(b.keys, EnableHw(dev, b, k, drv).keys) && Honest(dev, EnableHw(dev, b, k, drv))
  {
    var r := EnableHw(dev, b, k, drv);
    assert r.keys == b.keys[k := r.keys[k]];
    assert r.keys[k].uploaded ==> dev.setKey;
  }

  lemma EnableSound(dev: Device, s: Table, k: KeyId, drv: Answer)
    requires Paired(dev) && Sound(dev, s, {}) && k in s.books.keys && !s.books.keys[k].uploaded
    ensures Sound(dev, s.(books := EnableHw(dev, s.books, k, drv)), {})
  {
    var r := EnableHw(dev, s.books, k, drv);
    EnableNeutral(dev, s.books, k, drv);
    NeutralBalanced(dev, s.books, r);
    EnableAddresses(dev, s.books, k, drv);
    FlagsWired(s.books.keys, r.keys, {}, s.slots);
  }

  /** The end of ieee80211_key_link: the hardware is asked, and a refused key is freed. */
  lemma FinishSound(dev: Device, s: Table, k: KeyId, drv: Answer)
    requires Paired(dev) && Sound(dev, s, {}) && k in s.books.keys && !s.books.keys[k].uploaded
    ensures Sound(dev, Finish(dev, s, k, drv).0, {})
  {
    EnableSound(dev, s, k, drv);
    if Finish(dev, s, k, drv).1 != 0 {
      FreeSound(dev, s.(books := EnableHw(dev, s.books, k, drv)), k, true);
    }
  }

  lemma LinkSound(dev: Device, s: Table, k: KeyId, key: Key, drv: Answer)
    requires Paired(dev) && Sound(dev, s, {}) && k !in s.books.keys && Linkable(key)
    ensures Sound(dev, Link(dev, s, k, key, drv).0, {})
  {
    InstallSound(dev, s, k, key);
    InstallHolds(dev, s, k, key);
    FinishSound(dev, Install(dev, s, k, key), k, drv);
  }

  lemma UpdateThenDrop(keys: map<KeyId, Key>, k: KeyId, key: Key)
    ensures keys[k := key] - {k} == keys - {k}
  {
  }

  lemma WithdrawSound(dev: Device, s: Table, k: KeyId)
    requires Paired(dev) && Sound(dev, s, {}) && k in s.books.keys
    ensures Sound(dev, s.(books := Withdraw(dev, s.books, k)), {})
  {
    var r := Withdraw(dev, s.books, k);
    WithdrawNeutral(dev, s.books, k);
    NeutralBalanced(dev, s.books, r);
    FlagsWired(s.books.keys, r.keys, {}, s.slots);
  }

  lemma RemoveSound(dev: Device, s: Table, k: KeyId)
    requires Paired(dev) && Sound(dev, s, {}) && k in s.books.keys
    ensures Sound(dev, Remove(dev, s, k), {})
    ensures Remove(dev, s, k).books.keys == s.books.keys - {k}
  {
    WithdrawSound(dev, s, k);
    WithdrawNeutral(dev, s.books, k);
    FreeSound(dev, s.(books := Withdraw(dev, s.books, k)), k, false);
    UpdateThenDrop(s.books.keys, k, s.books.keys[k].(uploaded := false));
  }

  lemma PaySound(dev: Device, s: Table, flight: set<KeyId>, i: IfId)
    requires Paired(dev) && Sound(dev, s, flight)
    ensures Sound(dev, s.(books := Pay(dev, s.books, i)), flight)
  {
    PayNeutral(dev, s.books, i);
    NeutralBalanced(dev, s.books, Pay(dev, s.books, i));
  }

  lemma FreeAtSound(dev: Device, s: Table, p: Place)
    requires Paired(dev) && Sound(dev, s, {})
    ensures Sound(dev, FreeAt(dev, s, p), {})
  {
    var k := Held(s.slots.at, p);
    if k.Some? { FreeSound(dev, s, k.value, true); }
  }

  lemma {:induction false} FreePlacesSound(dev: Device, s: Table, t: StaId, group: bool, n: nat)
    requires Paired(dev) && Sound(dev, s, {})
    ensures Sound(dev, FreePlaces(dev, s, t, group, n), {})
  {
    if n > 0 {
      FreePlacesSound(dev, s, t, group, n - 1);
      FreeAtSound(dev, FreePlaces(dev, s, t, group, n - 1), NextPlace(t, group, n - 1));
    }
  }

  /** A key is enabled exactly when the hardware took it, or it can be done in software and
      the driver does not forbid that. */
  lemma EnabledIs(dev: Device, b: Books, k: KeyId, drv: Answer)
    requires k in b.keys && !b.keys[k].uploaded
    ensures var key := b.keys[k];
            EnableCode(dev, key, drv) == 0 <==>
              || EnableHw(dev, b, k, drv).keys[k].uploaded
              || (!key.tainted && key.software && (!dev.swControl || (!Unsupported(dev, key, drv) && drv.ret == 1)))
  {
  }

  /** The eight bytes of the TX MIC key, where a station's comparison passes over them. */
  predicate PassedOver(kind: Kind, next: Key, j: nat) {
    kind == Other(true) && next.tkip && |next.bytes| == TKIP_LEN && !next.pairwise && 16 <= j < 24
  }

  lemma IdenticalIs(kind: Kind, prior: Key, next: Key)
    ensures Identical(kind, prior, next) <==>
            && |prior.bytes| == |next.bytes|
            && forall j :: 0 <= j < |next.bytes| && !PassedOver(kind, next, j) ==> prior.bytes[j] == next.bytes[j]
  {
    if |prior.bytes| == |next.bytes| {
      var a, c := Compared(kind, next, prior.bytes), Compared(kind, next, next.bytes);
      assert |a| == |next.bytes| == |c|;
      forall j | 0 <= j < |next.bytes|
        ensures a[j] == (if PassedOver(kind, next, j) then 0 else prior.bytes[j])
        ensures c[j] == (if PassedOver(kind, next, j) then 0 else next.bytes[j])
      {
      }
      assert a == c <==> forall j :: 0 <= j < |next.bytes| ==> a[j] == c[j];
    }
  }
}
