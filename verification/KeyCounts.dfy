/** What each way of freeing keys does to the counts: which decrements are taken at once, and
    which stay pending. */
module KeyCounts {
  import opened VmacTypes
  import opened KeyBooks
  import opened KeySlots
  import opened KeyOperations
  import opened KeyBalance
  import opened KeyInvariant
  import opened KeyTeardown

  function At(i: IfId, j: IfId): int {
    if i == j then 1 else 0
  }

  /** What one destruction does to the counts: delayed, it leaves the key's demand in the count
      and adds a pending decrement; at once, it takes one off the share. A key in the hardware
      without tailroom first gets its demand back. */
  lemma DestroyCounts(dev: Device, b: Books, k: KeyId, delay: bool, j: IfId)
    requires Paired(dev) && Honest(dev, b) && k in b.keys
    ensures var r, key := Destroy(dev, b, k, delay), b.keys[k];
            && Count(r.pending, j) == Count(b.pending, j) + (if delay then At(key.iface, j) else 0)
            && Share(dev, r.needed, j) == Share(dev, b.needed, j)
                 + (if key.uploaded && key.noRoom then At(key.iface, j) else 0)
                 - (if delay then 0 else At(key.iface, j))
  {
    var i, off := b.keys[k].iface, DisableHw(dev, b, k);
    ShareAdjusted(dev, b.needed, i, 1, j);
    ShareAdjusted(dev, off.needed, i, -1, j);
  }

  /** A key withdrawn by its driver gives up its demand at once; nothing more is pending. */
  lemma RemoveCounts(dev: Device, s: Table, k: KeyId, j: IfId)
    requires Paired(dev) && Sound(dev, s, {}) && k in s.books.keys
    ensures var r, key := Remove(dev, s, k).books, s.books.keys[k];
            && Count(r.pending, j) == Count(s.books.pending, j)
            && Share(dev, r.needed, j) ==
               Share(dev, s.books.needed, j) - (if key.uploaded && key.noRoom then 0 else At(key.iface, j))
  {
    var t, i := s.(books := Withdraw(dev, s.books, k)), s.books.keys[k].iface;
    WithdrawSound(dev, s, k);
    WithdrawNeutral(dev, s.books, k);
    ShareAdjusted(dev, s.books.needed, i, 1, j);
    DestroyCounts(dev, t.books, k, false, j);
  }

  /** ieee80211_delayed_tailroom_dec takes what is pending off the share. */
  lemma PayCounts(dev: Device, b: Books, i: IfId, j: IfId)
    requires Paired(dev)
    ensures var r := Pay(dev, b, i);
            && Count(r.pending, j) == (if j == i then 0 else Count(b.pending, j))
            && Share(dev, r.needed, j) == Share(dev, b.needed, j) - (if j == i then Count(b.pending, i) else 0)
  {
    ShareAdjusted(dev, b.needed, i, -Count(b.pending, i), j);
  }

  lemma {:induction false} CollectPending(dev: Device, s: Table, members: seq<IfId>, j: IfId)
    ensures Count(Collect(dev, s, members).0.books.pending, j) == if j in members then 0 else Count(s.books.pending, j)
  {
    if members != [] {
      var front, i := members[..|members| - 1], members[|members| - 1];
      assert members == front + [i];
      CollectPending(dev, s, front, j);
      assert Collect(dev, s, members).0.books.pending == Collect(dev, s, front).0.books.pending[i := 0];
    }
  }

  /** ieee80211_free_keys leaves nothing pending on the interface and its VLANs, and elsewhere
      what was pending. */
  lemma TeardownPending(dev: Device, s: Table, i: IfId, j: IfId)
    requires Paired(dev) && Sound(dev, s, {})
    ensures Count(FreeKeys(dev, s, i).books.pending, j) ==
            if j in Members(dev, i) then 0 else Count(s.books.pending, j)
  {
    var (t, got) := Collect(dev, s, Members(dev, i));
    MembersDistinct(dev, i);
    CollectSound(dev, s, Members(dev, i));
    CollectPays(dev, s, Members(dev, i));
    CollectPending(dev, s, Members(dev, i), j);
    forall k | k in Elements(got) ensures k in t.books.keys {}
    DestroyAllRemoves(dev, t.books, got);
  }

  /** The station's keys on the interface. */
  ghost function StationKeys(keys: map<KeyId, Key>, t: StaId, j: IfId): set<KeyId> {
    set k | k in keys && keys[k].sta == Some(t) && keys[k].iface == j
  }

  lemma FreeAtPending(dev: Device, s: Table, p: Place, t: StaId, j: IfId)
    requires Paired(dev) && Sound(dev, s, {}) && (p == Ptk(t, p.idx) || p == Gtk(t, p.idx))
    ensures var r := FreeAt(dev, s, p).books;
            Count(r.pending, j) + |StationKeys(r.keys, t, j)| ==
            Count(s.books.pending, j) + |StationKeys(s.books.keys, t, j)|
  {
    var k := Held(s.slots.at, p);
    if k.Some? {
      DestroyCounts(dev, s.books, k.value, true, j);
      DestroyNeutral(dev, s.books, k.value, true);
      StationKeysWithout(s.books.keys, k.value, t, j);
    }
  }

  lemma StationKeysWithout(keys: map<KeyId, Key>, k: KeyId, t: StaId, j: IfId)
    requires k in keys && keys[k].sta == Some(t)
    ensures |StationKeys(keys - {k}, t, j)| == |StationKeys(keys, t, j)| - At(keys[k].iface, j)
  {
    if keys[k].iface == j {
      assert StationKeys(keys - {k}, t, j) == StationKeys(keys, t, j) - {k};
    } else {
      assert StationKeys(keys - {k}, t, j) == StationKeys(keys, t, j);
    }
  }

  lemma {:induction false} PlacesPending(dev: Device, s: Table, t: StaId, group: bool, n: nat, j: IfId)
    requires Paired(dev) && Sound(dev, s, {})
    ensures var r := FreePlaces(dev, s, t, group, n).books;
            Count(r.pending, j) + |StationKeys(r.keys, t, j)| ==
            Count(s.books.pending, j) + |StationKeys(s.books.keys, t, j)|
  {
    if n > 0 {
      PlacesPending(dev, s, t, group, n - 1, j);
      FreePlacesSound(dev, s, t, group, n - 1);
      FreeAtPending(dev, FreePlaces(dev, s, t, group, n - 1), NextPlace(t, group, n - 1), t, j);
    }
  }

  /** ieee80211_free_sta_keys leaves one decrement pending for each key of the station. */
  lemma StationPending(dev: Device, s: Table, t: StaId, j: IfId)
    requires Paired(dev) && Sound(dev, s, {})
    ensures Count(FreeStation(dev, s, t).books.pending, j) ==
            Count(s.books.pending, j) + |StationKeys(s.books.keys, t, j)|
  {
    var mid := FreePlaces(dev, s, t, true, ALL_KEYS);
    FreePlacesSound(dev, s, t, true, ALL_KEYS);
    PlacesPending(dev, s, t, true, ALL_KEYS, j);
    PlacesPending(dev, mid, t, false, DEFAULT_KEYS, j);
    StationFreed(dev, s, t);
    assert StationKeys(FreeStation(dev, s, t).books.keys, t, j) == {};
  }
}
