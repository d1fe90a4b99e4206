/** Which keys are in the hardware: over whole runs only such as the driver is ever asked for,
    and after an interface came up exactly those the driver took or still has. */
module KeyUploads {
  import opened KeyBooks
  import opened KeySlots
  import opened KeyOperations
  import opened KeyBalance
  import opened KeyWiring
  import opened KeyInvariant
  import opened KeyTeardown
  import opened KeyBringUp
  import opened KeyRuns
  import opened KeyLinks

  /** The driver takes keys, this is no group key of a VLAN, and none of a station unless the
      driver supports those. */
  predicate Supported(dev: Device, key: Key) {
    && dev.setKey
    && (key.sta.Some? ==> key.pairwise || dev.perStaGtk)
    && (KindOf(dev, key.iface).Vlan? ==> key.pairwise)
  }

  ghost predicate AllSupported(dev: Device, keys: map<KeyId, Key>) {
    forall k :: k in keys && keys[k].uploaded ==> Supported(dev, keys[k])
  }

  /** Enabling a key: what it does to the key. */
  function EnabledKey(dev: Device, key: Key, drv: Answer): Key {
    if key.tainted then key.(uploaded := false)
    else if Reaching(dev, key, drv) && drv.ret == 0 then key.(uploaded := true, noRoom := drv.noRoom)
    else key
  }

  lemma EnableSets(dev: Device, b: Books, k: KeyId, drv: Answer)
    requires k in b.keys
    ensures EnableHw(dev, b, k, drv).keys == b.keys[k := EnabledKey(dev, b.keys[k], drv)]
  {
    assert b.keys[k := b.keys[k]] == b.keys;
  }

  /** The list is enabled: each of its keys once, by its own answer. */
  lemma {:induction false} AllEnabled(dev: Device, b: Books, ks: seq<KeyId>, drv: KeyId -> Answer, k: KeyId)
    requires Distinct(ks) && (forall x :: x in ks ==> x in b.keys) && k in b.keys
    ensures EnableAll(dev, b, ks, drv).keys.Keys == b.keys.Keys
    ensures EnableAll(dev, b, ks, drv).keys[k] == if k in ks then EnabledKey(dev, b.keys[k], drv(k)) else b.keys[k]
  {
    if ks != [] {
      var front, x := ks[..|ks| - 1], ks[|ks| - 1];
      assert ks == front + [x];
      ElementsOfFront(ks);
      assert x !in front by { assert x !in Elements(front); }
      AllEnabled(dev, b, front, drv, k);
      AllEnabled(dev, b, front, drv, x);
      var t := EnableAll(dev, b, front, drv);
      EnableSets(dev, Adjust(dev, t, t.keys[x].iface, 1), x, drv(x));
    }
  }

  lemma {:induction false} MembersEnabled(
    dev: Device, b: Books, lists: map<IfId, seq<KeyId>>, members: seq<IfId>, drv: KeyId -> Answer, k: KeyId)
    requires Honest(dev, b) && Distinct(members) && k in b.keys
    requires forall i :: i in members ==> Lists(b.keys, Listed(lists, i), i)
    ensures k in EnableMembers(dev, b, lists, members, drv).keys
    ensures EnableMembers(dev, b, lists, members, drv).keys[k] ==
            if b.keys[k].iface in members then EnabledKey(dev, b.keys[k], drv(k)) else b.keys[k]
  {
    if members != [] {
      var front, i := members[..|members| - 1], members[|members| - 1];
      assert members == front + [i] && i in members;
      ElementsOfFront(members);
      assert i !in front by { assert i !in Elements(front); }
      MembersEnabled(dev, b, lists, front, drv, k);
      MembersKeep(dev, b, lists, front, drv);
      assert Lists(b.keys, Listed(lists, i), i);
      AllEnabled(dev, EnableMembers(dev, b, lists, front, drv), Listed(lists, i), drv, k);
    }
  }

  /** After an interface and its VLANs came up, each of their keys is in the hardware exactly
      if it is untainted and the driver was asked and took it, or had it before; and no other
      key has changed. */
  lemma BringUpUploads(dev: Device, s: Table, i: IfId, drv: KeyId -> Answer, k: KeyId)
    requires Paired(dev) && Sound(dev, s, {}) && k in s.books.keys
    ensures k in BringUp(dev, s, i, drv).books.keys
    ensures var key, after := s.books.keys[k], BringUp(dev, s, i, drv).books.keys[k];
            if key.iface in Members(dev, i) then
              after.uploaded <==> !key.tainted && (key.uploaded || (Reaching(dev, key, drv(k)) && drv(k).ret == 0))
            else after == key
  {
    MembersDistinct(dev, i);
    forall j ensures Lists(s.books.keys, Listed(s.slots.lists, j), j) { SoundLists(dev, s, j); }
    var reset := s.books.(needed := Reset(s.books.needed, Members(dev, i)));
    MembersEnabled(dev, reset, s.slots.lists, Members(dev, i), drv, k);
  }

  lemma LinkSupported(dev: Device, s: Table, k: KeyId, key: Key, drv: Answer)
    requires Paired(dev) && Sound(dev, s, {}) && k !in s.books.keys && Linkable(key)
    requires AllSupported(dev, s.books.keys)
    ensures AllSupported(dev, Link(dev, s, k, key, drv).0.books.keys)
  {
    if !Reinstalled(dev, s, key) {
      var (r, code) := Link(dev, s, k, key, drv);
      LinkResult(dev, s, k, key, drv);
      LinkKeys(dev, s, k, key, drv);
      forall o | o in r.books.keys && r.books.keys[o].uploaded ensures Supported(dev, r.books.keys[o]) {
        if o != k { LinkOthers(dev, s, k, key, drv, o); }
      }
    }
  }

  lemma BringUpSupported(dev: Device, s: Table, i: IfId, drv: KeyId -> Answer)
    requires Paired(dev) && Sound(dev, s, {}) && AllSupported(dev, s.books.keys)
    ensures AllSupported(dev, BringUp(dev, s, i, drv).books.keys)
  {
    var r := BringUp(dev, s, i, drv).books.keys;
    var reset := s.books.(needed := Reset(s.books.needed, Members(dev, i)));
    forall j ensures Lists(s.books.keys, Listed(s.slots.lists, j), j) { SoundLists(dev, s, j); }
    MembersKeep(dev, reset, s.slots.lists, Members(dev, i), drv);
    MembersDistinct(dev, i);
    forall k | k in r && r[k].uploaded ensures Supported(dev, r[k]) {
      MembersEnabled(dev, reset, s.slots.lists, Members(dev, i), drv, k);
    }
  }

  lemma StepSupported(dev: Device, s: Table, e: Event)
    requires Paired(dev) && Sound(dev, s, {}) && Enabled(dev, s, e) && AllSupported(dev, s.books.keys)
    ensures AllSupported(dev, Step(dev, s, e).books.keys)
  {
    match e
    case LinkKey(k, key, drv) => LinkSupported(dev, s, k, key, drv);
    case FreeKey(k, delay) => FreeSound(dev, s, k, delay);
    case RemoveKey(k) => RemoveSound(dev, s, k);
    case FreeAll(i) => FreeKeysSound(dev, s, i);
    case FreeSta(t) => StationFreed(dev, s, t);
    case ComeUp(i, answers) => BringUpSupported(dev, s, i, answers);
    case _ =>
  }

  /** In every run no group key of a VLAN, and none of a station without the driver's support
      for those, is ever in the hardware; nor any key if the driver takes none. */
  lemma {:induction false} EveryUploadIsSupported(dev: Device, events: seq<Event>)
    requires Paired(dev) && After(dev, events).Some?
    ensures AllSupported(dev, After(dev, events).value.books.keys)
  {
    if events != [] {
      var front := events[..|events| - 1];
      EveryUploadIsSupported(dev, front);
      EveryRunIsSound(dev, front);
      StepSupported(dev, After(dev, front).value, events[|events| - 1]);
    }
  }
}
