/** What linking a key comes to: the return value, the flags, the counts, and which keys and
    defaults give way, from the key, the device and the driver's answer alone. */
module KeyLinks {
  import opened VmacTypes
  import opened KeyBooks
  import opened KeySlots
  import opened KeyOperations
  import opened KeyBalance
  import opened KeyWiring
  import opened KeyInvariant
  import opened KeyRuns
  import opened KeyCounts

  /** The key reaches the driver: it is not tainted, the driver has set_key and knows the
      key's station, and it is no group key of a VLAN, nor of a station unless the driver
      supports those. */
  predicate Reaching(dev: Device, key: Key, drv: Answer) {
    && !key.tainted && dev.setKey
    && (key.sta.Some? ==> drv.stationUp && (key.pairwise || dev.perStaGtk))
    && (KindOf(dev, key.iface).Vlan? ==> key.pairwise)
  }

  /** The driver was asked for the linked key and took it. */
  predicate Took(dev: Device, key: Key, drv: Answer) {
    !dev.wowlan && Reaching(dev, key, drv) && drv.ret == 0
  }

  lemma FinishResult(dev: Device, s: Table, k: KeyId, drv: Answer)
    requires k in s.books.keys && !s.books.keys[k].uploaded
    ensures var (r, code) := Finish(dev, s, k, drv);
            var key := s.books.keys[k];
            var took := Reaching(dev, key, drv) && drv.ret == 0;
            && (code == 0 || code == -22)
            && (code == 0 <==>
                  took || (!key.tainted && key.software && (dev.swControl ==> Reaching(dev, key, drv) && drv.ret == 1)))
            && (code == 0 ==>
                  && k in r.books.keys
                  && r.books.keys[k] == key.(uploaded := took, noRoom := if took then drv.noRoom else key.noRoom))
  {
  }

  /** A link that is no re-installation returns zero exactly if it is not for the hardware yet
      (wowlan), or the driver took the key, or the key is untainted, can be done in software, and
      the driver, if it controls that, answered one; otherwise -EINVAL. A linked key is uploaded
      exactly if the driver took it, and has the flags the driver left. */
  lemma LinkResult(dev: Device, s: Table, k: KeyId, key: Key, drv: Answer)
    requires Paired(dev) && Honest(dev, s.books) && Closed(s) && k !in s.books.keys && Linkable(key)
    requires !Reinstalled(dev, s, key)
    ensures var (r, code) := Link(dev, s, k, key, drv);
            var took := Took(dev, key, drv);
            && (code == 0 || code == -22)
            && (code == 0 <==>
                  || dev.wowlan || took
                  || (!key.tainted && key.software && (dev.swControl ==> Reaching(dev, key, drv) && drv.ret == 1)))
            && (code == 0 ==>
                  && k in r.books.keys
                  && r.books.keys[k] == key.(uploaded := took, noRoom := if took then drv.noRoom else key.noRoom))
  {
    InstallKeys(dev, s, k, key);
    if !dev.wowlan { FinishResult(dev, Install(dev, s, k, key), k, drv); }
  }

  // ---- counts ----

  lemma InstallCounts(dev: Device, s: Table, k: KeyId, key: Key, j: IfId)
    requires Paired(dev) && Honest(dev, s.books) && Closed(s) && k !in s.books.keys && Linkable(key)
    ensures var r, b := Install(dev, s, k, key).books, s.books;
            var prior := Held(s.slots.at, PlaceOf(key));
            && Count(r.pending, j) == Count(b.pending, j)
                 + (if prior.Some? then At(b.keys[prior.value].iface, j) else 0)
            && Share(dev, r.needed, j) == Share(dev, b.needed, j) + At(key.iface, j)
                 + (if prior.Some? && !Needs(b.keys[prior.value]) then At(b.keys[prior.value].iface, j) else 0)
  {
    var prior, entered := Held(s.slots.at, PlaceOf(key)), Enter(dev, s.books, k, key);
    EnterHonest(dev, s.books, k, key);
    ShareAdjusted(dev, s.books.needed, key.iface, 1, j);
    if prior.Some? { DestroyCounts(dev, entered, prior.value, true, j); }
  }

  lemma FinishCounts(dev: Device, s: Table, k: KeyId, drv: Answer, j: IfId)
    requires Paired(dev) && Honest(dev, s.books) && k in s.books.keys && !s.books.keys[k].uploaded
    ensures var (r, code) := Finish(dev, s, k, drv);
            var key := s.books.keys[k];
            var took := Reaching(dev, key, drv) && drv.ret == 0;
            && Count(r.books.pending, j) == Count(s.books.pending, j) + (if code != 0 then At(key.iface, j) else 0)
            && Share(dev, r.books.needed, j) ==
               Share(dev, s.books.needed, j) - (if took && drv.noRoom then At(key.iface, j) else 0)
  {
    var key, enabled := s.books.keys[k], EnableHw(dev, s.books, k, drv);
    FinishResult(dev, s, k, drv);
    ShareAdjusted(dev, s.books.needed, key.iface, -1, j);
    EnableAddresses(dev, s.books, k, drv);
    if Finish(dev, s, k, drv).1 != 0 { DestroyCounts(dev, enabled, k, true, j); }
  }

  /** A link raises the share of the key's interface by one, unless the driver took the key with
      neither tailroom flag; a failed link leaves that in place and one more decrement pending.
      The key it displaces leaves its demand, or gets it back, and one decrement pending. */
  lemma LinkCounts(dev: Device, s: Table, k: KeyId, key: Key, drv: Answer, j: IfId)
    requires Paired(dev) && Honest(dev, s.books) && Closed(s) && k !in s.books.keys && Linkable(key)
    requires !Reinstalled(dev, s, key)
    ensures var (r, code) := Link(dev, s, k, key, drv);
            var b, prior := s.books, Held(s.slots.at, PlaceOf(key));
            && Count(r.books.pending, j) == Count(b.pending, j)
                 + (if prior.Some? then At(b.keys[prior.value].iface, j) else 0)
                 + (if code != 0 then At(key.iface, j) else 0)
            && Share(dev, r.books.needed, j) == Share(dev, b.needed, j)
                 + (if prior.Some? && !Needs(b.keys[prior.value]) then At(b.keys[prior.value].iface, j) else 0)
                 + (if Took(dev, key, drv) && drv.noRoom then 0 else At(key.iface, j))
  {
    InstallKeys(dev, s, k, key);
    InstallCounts(dev, s, k, key, j);
    if !dev.wowlan { FinishCounts(dev, Install(dev, s, k, key), k, drv, j); }
  }

  // ---- what gives way ----

  /** Two keys for the same use: the same index of one interface's own keys, of one station's
      pairwise keys, or of one station's group keys. */
  predicate SameUse(a: Key, b: Key) {
    && a.idx == b.idx && a.sta == b.sta
    && if a.sta.None? then a.iface == b.iface else a.pairwise == b.pairwise
  }

  /** A link that is no re-installation unlinks exactly the key for the same use, if there is
      one, and leaves all others as they were. */
  lemma LinkDisplaces(dev: Device, s: Table, k: KeyId, key: Key, drv: Answer, o: KeyId)
    requires Paired(dev) && Sound(dev, s, {}) && k !in s.books.keys && Linkable(key) && !Reinstalled(dev, s, key)
    requires o in s.books.keys
    ensures var r := Link(dev, s, k, key, drv).0;
            if SameUse(s.books.keys[o], key) then o !in r.books.keys
            else o in r.books.keys && r.books.keys[o] == s.books.keys[o]
  {
    LinkKeys(dev, s, k, key, drv);
    assert Attached(s.books.keys, {}, o);
    LinkOthers(dev, s, k, key, drv, o);
  }

  lemma InstallOthers(dev: Device, s: Table, k: KeyId, key: Key, o: KeyId)
    requires Paired(dev) && Honest(dev, s.books) && Closed(s) && k !in s.books.keys && Linkable(key) && o != k
    ensures var r := Install(dev, s, k, key).books.keys;
            o in r ==> o in s.books.keys && r[o] == s.books.keys[o]
  {
    var prior := Held(s.slots.at, PlaceOf(key));
    EnterHonest(dev, s.books, k, key);
    if prior.Some? { DestroyNeutral(dev, Enter(dev, s.books, k, key), prior.value, true); }
  }

  lemma LinkOthers(dev: Device, s: Table, k: KeyId, key: Key, drv: Answer, o: KeyId)
    requires Paired(dev) && Honest(dev, s.books) && Closed(s) && k !in s.books.keys && Linkable(key) && o != k
    ensures var r := Link(dev, s, k, key, drv).0.books.keys;
            o in r ==> o in s.books.keys && r[o] == s.books.keys[o]
  {
    InstallOthers(dev, s, k, key, o);
    InstallKeys(dev, s, k, key);
    var t := Install(dev, s, k, key);
    EnableAddresses(dev, t.books, k, drv);
    if Finish(dev, t, k, drv).1 != 0 { DestroyNeutral(dev, EnableHw(dev, t.books, k, drv), k, true); }
  }

  /** Pointers where those to `gone` were led to `next`. */
  ghost predicate Moved(was: map<IfId, KeyId>, now: map<IfId, KeyId>, gone: Option<KeyId>, next: Option<KeyId>) {
    forall i :: Held(now, i) == if gone.Some? && Held(was, i) == gone then next else Held(was, i)
  }

  ghost predicate DefaultsMoved(was: Slots, now: Slots, gone: Option<KeyId>, next: Option<KeyId>) {
    && Moved(was.unicast, now.unicast, gone, next)
    && Moved(was.multicast, now.multicast, gone, next)
    && Moved(was.mgmt, now.mgmt, gone, next)
  }

  lemma PointersVacate(
    keys: map<KeyId, Key>, flight: set<KeyId>, pointers: map<IfId, KeyId>, lo: nat, hi: nat, k: KeyId)
    requires Aimed(keys, flight, pointers, lo, hi) && k in keys
    ensures Moved(pointers, Cleared(pointers, k, keys[k]), Some(k), None)
  {
  }

  /** Freeing a key clears the defaults that led to it and moves no other. */
  lemma FreeClearsDefaults(dev: Device, s: Table, k: KeyId, delay: bool)
    requires Sound(dev, s, {}) && k in s.books.keys
    ensures DefaultsMoved(s.slots, Free(dev, s, k, delay).slots, Some(k), None)
  {
    VacatePointers(s.slots, k, s.books.keys[k]);
    PointersVacate(s.books.keys, {}, s.slots.unicast, 0, DEFAULT_KEYS, k);
    PointersVacate(s.books.keys, {}, s.slots.multicast, 0, DEFAULT_KEYS, k);
    PointersVacate(s.books.keys, {}, s.slots.mgmt, DEFAULT_KEYS, ALL_KEYS, k);
  }

  lemma PointersFollow(
    keys: map<KeyId, Key>, at: map<Place, KeyId>, pointers: map<IfId, KeyId>, lo: nat, hi: nat, k: KeyId, key: Key)
    requires Aimed(keys, {}, pointers, lo, hi) && Seated(keys, {}, at)
    ensures var prior := Held(at, PlaceOf(key));
            Moved(pointers, Followed(pointers, k, key, prior, lo, hi), prior, Some(k))
  {
  }

  lemma InstallMovesDefaults(dev: Device, s: Table, k: KeyId, key: Key)
    requires Paired(dev) && Sound(dev, s, {}) && k !in s.books.keys && Linkable(key)
    ensures DefaultsMoved(s.slots, Install(dev, s, k, key).slots, Held(s.slots.at, PlaceOf(key)), Some(k))
  {
    var prior := Held(s.slots.at, PlaceOf(key));
    OccupyPointers(s.slots, k, key, prior, if prior.Some? then s.books.keys[prior.value].iface else 0);
    PointersFollow(s.books.keys, s.slots.at, s.slots.unicast, 0, DEFAULT_KEYS, k, key);
    PointersFollow(s.books.keys, s.slots.at, s.slots.multicast, 0, DEFAULT_KEYS, k, key);
    PointersFollow(s.books.keys, s.slots.at, s.slots.mgmt, DEFAULT_KEYS, ALL_KEYS, k, key);
  }

  /** After a link the defaults that led to the key it displaced lead to the new one, or
      nowhere if the link failed; no other default moves. */
  lemma LinkMovesDefaults(dev: Device, s: Table, k: KeyId, key: Key, drv: Answer)
    requires Paired(dev) && Sound(dev, s, {}) && k !in s.books.keys && Linkable(key) && !Reinstalled(dev, s, key)
    ensures var (r, code) := Link(dev, s, k, key, drv);
            DefaultsMoved(s.slots, r.slots, Held(s.slots.at, PlaceOf(key)), if code == 0 then Some(k) else None)
  {
    var t := Install(dev, s, k, key);
    InstallMovesDefaults(dev, s, k, key);
    InstallSound(dev, s, k, key);
    InstallHolds(dev, s, k, key);
    if !dev.wowlan && Finish(dev, t, k, drv).1 != 0 {
      EnableSound(dev, t, k, drv);
      FreeClearsDefaults(dev, t.(books := EnableHw(dev, t.books, k, drv)), k, true);
      NeverBefore(s.books.keys, s.slots.unicast, 0, DEFAULT_KEYS, k);
      NeverBefore(s.books.keys, s.slots.multicast, 0, DEFAULT_KEYS, k);
      NeverBefore(s.books.keys, s.slots.mgmt, DEFAULT_KEYS, ALL_KEYS, k);
    }
  }

  lemma NeverBefore(keys: map<KeyId, Key>, pointers: map<IfId, KeyId>, lo: nat, hi: nat, k: KeyId)
    requires Aimed(keys, {}, pointers, lo, hi) && k !in keys
    ensures forall i :: Held(pointers, i) != Some(k)
  {
  }

  lemma {:induction false} WithoutBefore(list: seq<KeyId>, k: KeyId, o: KeyId)
    requires o in list
    ensures Without(list + [k], o) == Without(list, o) + [k]
  {
    assert (list + [k])[1..] == list[1..] + [k];
    if list[0] != o { WithoutBefore(list[1..], k, o); }
  }

  /** A linked key goes to the end of its interface's list, from which only the key it
      displaced is gone. */
  lemma LinkAppends(dev: Device, s: Table, k: KeyId, key: Key, drv: Answer)
    requires Paired(dev) && Sound(dev, s, {}) && k !in s.books.keys && Linkable(key) && !Reinstalled(dev, s, key)
    ensures var (r, code) := Link(dev, s, k, key, drv);
            var list, prior := Listed(s.slots.lists, key.iface), Held(s.slots.at, PlaceOf(key));
            code == 0 ==>
              Listed(r.slots.lists, key.iface) ==
              (if prior.Some? && prior.value in list then Without(list, prior.value) else list) + [k]
  {
    var list, prior := Listed(s.slots.lists, key.iface), Held(s.slots.at, PlaceOf(key));
    if prior.Some? {
      var o := prior.value;
      assert Attached(s.books.keys, {}, o);
      assert o in list <==> s.books.keys[o].iface == key.iface;
      if o in list { WithoutBefore(list, k, o); }
    }
  }
}
