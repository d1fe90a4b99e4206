/** The functions of vmac/key.c as they work on their fields, proved to compute the
    operations and never to take more off a count than it holds. */
module KeyTable {
  import opened VmacTypes
  import opened KeyBooks
  import opened KeySlots
  import opened KeyOperations
  import opened KeyBalance
  import opened KeyWiring
  import opened KeyInvariant
  import opened KeyTeardown
  import opened KeyRestore

  class KeyTable {
    const dev: Device
    var keys: map<KeyId, Key>
    var needed: map<IfId, int>
    var pending: map<IfId, int>
    var at: map<Place, KeyId>
    var lists: map<IfId, seq<KeyId>>
    var unicast: map<IfId, KeyId>
    var multicast: map<IfId, KeyId>
    var mgmt: map<IfId, KeyId>
    var warned: bool // the warning of decrease_tailroom_need_count has fired

    function Booked(): Books
      reads this
    {
      Books(keys, needed, pending)
    }

    function Placed(): Slots
      reads this
    {
      Slots(at, lists, unicast, multicast, mgmt)
    }

    function State(): Table
      reads this
    {
      Table(Booked(), Placed())
    }

    ghost predicate Sane()
      reads this
    {
      Paired(dev) && Balanced(dev, Booked()) && Honest(dev, Booked())
    }

    constructor (dev: Device)
      ensures this.dev == dev
      ensures State() == Table(Books(map[], map[], map[]), Slots(map[], map[], map[], map[], map[]))
    {
      this.dev := dev;
      keys, needed, pending := map[], map[], map[];
      at, lists, unicast, multicast, mgmt := map[], map[], map[], map[], map[];
      warned := false;
    }

    /** update_vlan_tailroom_need_count. */
    method UpdateVlans(i: IfId, delta: int)
      requires Paired(dev)
      modifies `needed
      ensures needed == Bumped(old(needed), Vlans(dev, i), delta)
    {
      var vlans := Vlans(dev, i);
      ghost var was := needed;
      assert Bumped(was, vlans[..0], delta) == was;
      for n := 0 to |vlans|
        invariant needed == Bumped(was, vlans[..n], delta)
      {
        BumpNext(dev, was, i, n, delta);
        needed := needed[vlans[n] := Count(needed, vlans[n]) + delta];
      }
      assert vlans[..|vlans|] == vlans;
    }

    method Increment(i: IfId)
      requires Paired(dev)
      modifies `needed
      ensures needed == Adjusted(dev, old(needed), i, 1)
    {
      OwnIsLast(dev, needed, i, 1);
      UpdateVlans(i, 1);
      needed := needed[i := Count(needed, i) + 1];
    }

    method Decrease(i: IfId, delta: int)
      requires Paired(dev)
      modifies `needed, `warned
      ensures needed == Adjusted(dev, old(needed), i, -delta)
      ensures warned == (old(warned) || Count(old(needed), i) < delta)
    {
      if Count(needed, i) < delta { warned := true; }
      OwnIsLast(dev, needed, i, -delta);
      UpdateVlans(i, -delta);
      needed := needed[i := Count(needed, i) - delta];
    }

    method EnableHwAccel(k: KeyId, drv: Answer) returns (code: int)
      requires Paired(dev) && k in keys
      modifies `keys, `needed, `warned
      ensures Booked() == EnableHw(dev, old(Booked()), k, drv)
      ensures old(Count(needed, keys[k].iface)) >= 1 ==> warned == old(warned)
      ensures code == EnableCode(dev, old(keys[k]), drv)
    {
      var key := keys[k];
      if key.tainted {
        keys := keys[k := key.(uploaded := false)];
        return -EINVAL;
      }
      var ret := -EOPNOTSUPP;
      if !Unsupported(dev, key, drv) {
        ret := drv.ret;
        if ret == 0 {
          keys := keys[k := key.(uploaded := true, noRoom := drv.noRoom)];
          if drv.noRoom { Decrease(key.iface, 1); }
          return 0;
        }
      }
      if !key.software { return -EINVAL; }
      if ret == 1 { return 0; }
      return if dev.swControl then -EINVAL else 0;
    }

    method ResetTailroom(i: IfId)
      modifies `needed
      ensures needed == Reset(old(needed), Members(dev, i))
    {
      var vlans := Vlans(dev, i);
      ghost var was, members := needed, Members(dev, i);
      needed := needed[i := 0];
      ResetFirst(was, i, members);
      for n := 0 to |vlans|
        invariant needed == Reset(was, members[..n + 1])
      {
        ResetNext(was, members, n + 1);
        needed := needed[vlans[n] := 0];
      }
      assert members[..|vlans| + 1] == members;
    }

    method EnableOne(k: KeyId, drv: KeyId -> Answer)
      requires Paired(dev) && k in keys
      modifies `keys, `needed, `warned
      ensures Booked() == EnableTurn(dev, old(Booked()), k, drv)
      ensures old(Count(needed, keys[k].iface)) >= 0 ==> warned == old(warned)
    {
      Increment(keys[k].iface);
      var _ := EnableHwAccel(k, drv(k));
    }

    /** ieee80211_enable_keys, past its warnings. */
    method EnableKeys(i: IfId, drv: KeyId -> Answer)
      requires Paired(dev)
      requires forall k :: k in Listed(lists, i) ==> k in keys && keys[k].iface == i
      modifies `keys, `needed, `warned
      ensures Booked() == EnableAll(dev, old(Booked()), Listed(lists, i), drv)
      ensures old(Count(needed, i)) >= 0 ==> warned == old(warned)
    {
      var ks := Listed(lists, i);
      ghost var was := Booked();
      for n := 0 to |ks|
        invariant Booked() == EnableAll(dev, was, ks[..n], drv)
        invariant Count(was.needed, i) >= 0 ==> warned == old(warned)
      {
        EnableNext(dev, was, ks, n, drv, i);
        EnableOne(ks[n], drv);
      }
      assert ks[..|ks|] == ks;
    }

    method DisableHwAccel(k: KeyId)
      requires Paired(dev) && k in keys
      modifies `keys, `needed
      ensures Booked() == DisableHw(dev, old(Booked()), k)
    {
      var key := keys[k];
      if dev.setKey && key.uploaded {
        if key.noRoom { Increment(key.iface); }
        keys := keys[k := key.(uploaded := false)];
      }
    }

    /** __ieee80211_key_destroy. */
    method DestroyKey(k: KeyId, delay: bool)
      requires Sane() && k in keys
      modifies `keys, `needed, `pending, `warned
      ensures Booked() == Destroy(dev, old(Booked()), k, delay)
      ensures Sane() && warned == old(warned)
    {
      var i := keys[k].iface;
      DisableNeutral(dev, Booked(), k);
      NeutralBalanced(dev, Booked(), DisableHw(dev, Booked(), k));
      DestroyNeutral(dev, Booked(), k, delay);
      NeutralBalanced(dev, Booked(), Destroy(dev, Booked(), k, delay));
      DisableHwAccel(k);
      if delay {
        pending := pending[i := Count(pending, i) + 1];
      } else {
        CountsCover(dev, Booked(), k);
        Decrease(i, 1);
      }
      keys := keys - {k};
    }

    /** __ieee80211_set_default_key. */
    method PutDefault(i: IfId, idx: int, uni: bool, multi: bool)
      modifies `unicast, `multicast
      ensures Placed() == SetDefault(old(Placed()), i, idx, uni, multi)
    {
      var key := DataKey(Placed(), i, idx);
      if uni { unicast := Put(unicast, i, key); }
      if multi { multicast := Put(multicast, i, key); }
    }

    /** __ieee80211_set_default_mgmt_key. */
    method PutDefaultMgmt(i: IfId, idx: int)
      modifies `mgmt
      ensures Placed() == SetDefaultMgmt(old(Placed()), i, idx)
    {
      mgmt := Put(mgmt, i, MgmtKey(Placed(), i, idx));
    }

    /** ieee80211_set_default_key, under the mutex. */
    method SetDefaultKey(i: IfId, idx: int, uni: bool, multi: bool)
      requires Wired(keys, {}, Placed())
      modifies `unicast, `multicast
      ensures Wired(keys, {}, Placed())
      ensures if uni then LeadsTo(keys, old(unicast), unicast, i, idx, 0, DEFAULT_KEYS)
              else unicast == old(unicast)
      ensures if multi then LeadsTo(keys, old(multicast), multicast, i, idx, 0, DEFAULT_KEYS)
              else multicast == old(multicast)
    {
      DefaultWired(keys, {}, Placed(), i, idx, uni, multi);
      PutLeads(keys, at, unicast, i, idx, 0, DEFAULT_KEYS);
      PutLeads(keys, at, multicast, i, idx, 0, DEFAULT_KEYS);
      PutDefault(i, idx, uni, multi);
    }

    /** ieee80211_set_default_mgmt_key, under the mutex. */
    method SetDefaultMgmtKey(i: IfId, idx: int)
      requires Wired(keys, {}, Placed())
      modifies `mgmt
      ensures Wired(keys, {}, Placed())
      ensures LeadsTo(keys, old(mgmt), mgmt, i, idx, DEFAULT_KEYS, ALL_KEYS)
    {
      DefaultMgmtWired(keys, {}, Placed(), i, idx);
      PutLeads(keys, at, mgmt, i, idx, DEFAULT_KEYS, ALL_KEYS);
      PutDefaultMgmt(i, idx);
    }

    /** The default pointers of ieee80211_key_replace. */
    method FollowDefaults(i: IfId, gone: KeyId, idx: int)
      modifies `unicast, `multicast, `mgmt
      ensures Placed() == Retarget(old(Placed()), i, gone, idx)
    {
      var uni := Held(unicast, i) == Some(gone);
      var multi := Held(multicast, i) == Some(gone);
      var management := Held(mgmt, i) == Some(gone);
      if uni { PutDefault(i, idx, true, false); }
      if multi { PutDefault(i, idx, false, true); }
      if management { PutDefaultMgmt(i, idx); }
    }

    /** ieee80211_key_replace with no new key. */
    method VacateSlot(k: KeyId)
      requires k in keys
      modifies `at, `lists, `unicast, `multicast, `mgmt
      ensures Placed() == Vacate(old(Placed()), k, keys[k])
    {
      var key := keys[k];
      if key.sta.None? { FollowDefaults(key.iface, k, -1); }
      at := at - {PlaceOf(key)};
      lists := Unlist(lists, key.iface, k);
    }

    /** ieee80211_key_replace with a new key. */
    method OccupySlot(k: KeyId, prior: Option<KeyId>)
      requires k in keys && (prior.Some? ==> prior.value in keys)
      modifies `at, `lists, `unicast, `multicast, `mgmt
      ensures Placed() == Occupy(old(Placed()), k, keys[k], prior, if prior.Some? then keys[prior.value].iface else 0)
    {
      var key := keys[k];
      lists := List(lists, key.iface, k);
      at := at[PlaceOf(key) := k];
      if prior.Some? {
        if key.sta.None? { FollowDefaults(key.iface, prior.value, key.idx); }
        lists := Unlist(lists, keys[prior.value].iface, prior.value);
      }
    }

    method FreeKey(k: KeyId, delay: bool)
      requires Sane() && k in keys
      modifies this
      ensures State() == Free(dev, old(State()), k, delay)
      ensures warned == old(warned)
      ensures Sane()
    {
      VacateSlot(k);
      DestroyKey(k, delay);
    }

    method DelayedDec(i: IfId)
      requires Sane()
      modifies `needed, `pending, `warned
      ensures Booked() == Pay(dev, old(Booked()), i)
      ensures Sane() && warned == old(warned)
    {
      PayCovered(dev, Booked(), i);
      Decrease(i, Count(pending, i));
      pending := pending[i := 0];
    }

    method RemoveKey(k: KeyId)
      requires Sane() && k in keys
      modifies this
      ensures State() == Remove(dev, old(State()), k)
      ensures warned == old(warned)
    {
      WithdrawNeutral(dev, Booked(), k);
      NeutralBalanced(dev, Booked(), Withdraw(dev, Booked(), k));
      var key := keys[k];
      if key.uploaded {
        keys := keys[k := key.(uploaded := false)];
        if key.noRoom { Increment(key.iface); }
      }
      FreeKey(k, false);
    }

    method EnterKey(k: KeyId, key: Key)
      requires Sane() && k !in keys && !key.uploaded
      modifies `keys, `needed
      ensures Booked() == Enter(dev, old(Booked()), k, key)
      ensures Sane()
    {
      EntrySane(dev, Booked(), k, key);
      keys := keys[k := key];
      Increment(key.iface);
    }

    /** The new key is counted and takes its slot. */
    method PlaceKey(k: KeyId, key: Key, prior: Option<KeyId>)
      requires Sane() && k !in keys && !key.uploaded && (prior.Some? ==> prior.value in keys)
      modifies this
      ensures Booked() == Enter(dev, old(Booked()), k, key)
      ensures Placed() == Occupy(old(Placed()), k, key, prior, if prior.Some? then old(keys)[prior.value].iface else 0)
      ensures Sane() && warned == old(warned)
    {
      EnterKey(k, key);
      OccupySlot(k, prior);
    }

    /** ieee80211_key_link up to the hardware. */
    method InstallKey(k: KeyId, key: Key)
      requires Sane() && Closed(State()) && k !in keys && !key.uploaded
      modifies this
      ensures State() == Install(dev, old(State()), k, key)
      ensures warned == old(warned)
      ensures Sane()
    {
      var prior := Held(at, PlaceOf(key));
      PlaceKey(k, key, prior);
      if prior.Some? { DestroyKey(prior.value, true); }
    }

    /** The end of ieee80211_key_link. */
    method FinishLink(k: KeyId, drv: Answer) returns (code: int)
      requires Sane() && k in keys && !keys[k].uploaded
      modifies this
      ensures (State(), code) == Finish(dev, old(State()), k, drv)
      ensures warned == old(warned)
    {
      EnabledSane(dev, Booked(), k, drv);
      code := EnableHwAccel(k, drv);
      if code != 0 { FreeKey(k, true); }
    }

    /** ieee80211_key_link. */
    method LinkKey(k: KeyId, key: Key, drv: Answer) returns (code: int)
      requires Paired(dev) && Sound(dev, State(), {}) && k !in keys && Linkable(key)
      modifies this
      ensures (State(), code) == Link(dev, old(State()), k, key, drv)
      ensures warned == old(warned)
      ensures Sound(dev, State(), {})
    {
      LinkSound(dev, State(), k, key, drv);
      InstallHolds(dev, State(), k, key);
      var prior := Held(at, PlaceOf(key));
      if prior.Some? && Identical(KindOf(dev, key.iface), keys[prior.value], key) { return 0; }
      InstallKey(k, key);
      if dev.wowlan { return 0; }
      code := FinishLink(k, drv);
    }

    /** Takes the keys of the interface out of slots and lists. */
    method VacateList(i: IfId)
      requires forall k :: k in Listed(lists, i) ==> k in keys
      modifies `at, `lists, `unicast, `multicast, `mgmt
      ensures Placed() == VacateAll(old(Placed()), Listed(old(lists), i), keys)
    {
      var ks := Listed(lists, i);
      ghost var was := Placed();
      assert VacateAll(was, ks[..0], keys) == was;
      for n := 0 to |ks|
        invariant Placed() == VacateAll(was, ks[..n], keys)
      {
        assert ks[..n + 1][..n] == ks[..n];
        VacateSlot(ks[n]);
      }
      assert ks[..|ks|] == ks;
    }

    method FreeKeysIface(i: IfId, ghost flight: set<KeyId>) returns (got: seq<KeyId>)
      requires Paired(dev) && Sound(dev, State(), flight)
      modifies this
      ensures State() == FreeIface(dev, old(State()), i)
      ensures warned == old(warned)
      ensures got == Listed(old(lists), i)
    {
      ListedKeys(dev, State(), flight, i);
      got := Listed(lists, i);
      DelayedDec(i);
      VacateList(i);
    }

    method DestroyCollected(ks: seq<KeyId>)
      requires Sane() && Distinct(ks) && Elements(ks) <= keys.Keys
      modifies `keys, `needed, `pending, `warned
      ensures Booked() == DestroyAll(dev, old(Booked()), ks)
      ensures warned == old(warned)
    {
      ghost var was := Booked();
      assert DestroyAll(dev, was, ks[..0]) == was;
      for n := 0 to |ks|
        invariant Booked() == DestroyAll(dev, was, ks[..n])
        invariant Sane() && warned == old(warned)
      {
        NextToDestroy(dev, was, ks, n);
        DestroyKey(ks[n], false);
      }
      assert ks[..|ks|] == ks;
    }

    /** The interfaces in turn, as ieee80211_free_keys goes over one and then its VLANs. */
    method CollectFrom(members: seq<IfId>) returns (got: seq<KeyId>)
      requires Paired(dev) && Sound(dev, State(), {}) && Distinct(members)
      modifies this
      ensures (State(), got) == Collect(dev, old(State()), members)
      ensures warned == old(warned)
    {
      ghost var was := State();
      got := [];
      for n := 0 to |members|
        invariant (State(), got) == Collect(dev, was, members[..n]) && warned == old(warned)
      {
        CollectNext(dev, was, members, n);
        var more := FreeKeysIface(members[n], Elements(got));
        got := got + more;
      }
      assert members[..|members|] == members;
    }

    method CollectKeys(i: IfId) returns (got: seq<KeyId>)
      requires Paired(dev) && Sound(dev, State(), {})
      modifies this
      ensures (State(), got) == Collect(dev, old(State()), Members(dev, i))
      ensures warned == old(warned)
      ensures Sane() && Distinct(got) && Elements(got) <= keys.Keys
    {
      CollectedSane(dev, State(), i);
      MembersDistinct(dev, i);
      got := CollectFrom(Members(dev, i));
    }

    /** ieee80211_free_keys. */
    method FreeAllKeys(i: IfId)
      requires Paired(dev) && Sound(dev, State(), {})
      modifies this
      ensures State() == FreeKeys(dev, old(State()), i)
      ensures warned == old(warned)
    {
      ghost var t := Collect(dev, State(), Members(dev, i)).0;
      var got := CollectKeys(i);
      assert State() == t;
      DestroyCollected(got);
      assert State() == t.(books := DestroyAll(dev, t.books, got));
    }

    /** One turn of the loops of ieee80211_free_sta_keys. */
    method FreeKeyAt(p: Place)
      requires Paired(dev) && Sound(dev, State(), {})
      modifies this
      ensures State() == FreeAt(dev, old(State()), p)
      ensures warned == old(warned)
      ensures Sound(dev, State(), {})
    {
      FreeAtSound(dev, State(), p);
      var k := Held(at, p);
      if k.Some? { FreeKey(k.value, true); }
    }

    method FreeStaKeys(t: StaId)
      requires Paired(dev) && Sound(dev, State(), {})
      modifies this
      ensures State() == FreeStation(dev, old(State()), t)
      ensures warned == old(warned)
      ensures Sound(dev, State(), {})
    {
      ghost var was := State();
      for n := 0 to ALL_KEYS
        invariant State() == FreePlaces(dev, was, t, true, n)
        invariant Sound(dev, State(), {}) && warned == old(warned)
      {
        FreeKeyAt(Gtk(t, n));
      }
      ghost var mid := State();
      for n := 0 to DEFAULT_KEYS
        invariant State() == FreePlaces(dev, mid, t, false, n)
        invariant Sound(dev, State(), {}) && warned == old(warned)
      {
        FreeKeyAt(Ptk(t, n));
      }
    }
  }

  lemma EnabledSane(dev: Device, b: Books, k: KeyId, drv: Answer)
    requires Paired(dev) && Balanced(dev, b) && Honest(dev, b) && k in b.keys && !b.keys[k].uploaded
    ensures var r := EnableHw(dev, b, k, drv);
            Balanced(dev, r) && Honest(dev, r) && k in r.keys
    ensures Count(b.needed, b.keys[k].iface) >= 1
  {
    EnableNeutral(dev, b, k, drv);
    NeutralBalanced(dev, b, EnableHw(dev, b, k, drv));
    EnableAddresses(dev, b, k, drv);
    CountsCover(dev, b, k);
  }

  lemma EntrySane(dev: Device, b: Books, k: KeyId, key: Key)
    requires Paired(dev) && Balanced(dev, b) && Honest(dev, b) && k !in b.keys && !key.uploaded
    ensures var r := Enter(dev, b, k, key);
            Balanced(dev, r) && Honest(dev, r)
  {
    EnterNeutral(dev, b, k, key);
    NeutralBalanced(dev, b, Enter(dev, b, k, key));
  }

  lemma CollectNext(dev: Device, s: Table, members: seq<IfId>, n: nat)
    requires Paired(dev) && Sound(dev, s, {}) && Distinct(members) && n < |members|
    ensures var (t, got) := Collect(dev, s, members[..n]);
            && Sound(dev, t, Elements(got))
            && Collect(dev, s, members[..n + 1]) ==
               (FreeIface(dev, t, members[n]), got + Listed(t.slots.lists, members[n]))
  {
    CollectSound(dev, s, members[..n]);
    assert members[..n + 1][..n] == members[..n];
  }

  lemma CollectedSane(dev: Device, s: Table, i: IfId)
    requires Paired(dev) && Sound(dev, s, {})
    ensures var (t, got) := Collect(dev, s, Members(dev, i));
            && Balanced(dev, t.books) && Honest(dev, t.books)
            && Distinct(got) && Elements(got) <= t.books.keys.Keys
  {
    MembersDistinct(dev, i);
    CollectSound(dev, s, Members(dev, i));
    CollectPays(dev, s, Members(dev, i));
  }

  lemma NextToDestroy(dev: Device, b: Books, ks: seq<KeyId>, n: nat)
    requires Paired(dev) && Honest(dev, b) && Distinct(ks) && Elements(ks) <= b.keys.Keys && n < |ks|
    ensures var t := DestroyAll(dev, b, ks[..n]);
            ks[n] in t.keys && DestroyAll(dev, b, ks[..n + 1]) == Destroy(dev, t, ks[n], false)
  {
    assert Elements(ks[..n]) <= Elements(ks) && ks[n] in Elements(ks);
    DestroyAllRemoves(dev, b, ks[..n]);
    assert ks[..n + 1][..n] == ks[..n];
  }

  /** A key that needs tailroom is covered by its interface's count. */
  lemma CountsCover(dev: Device, b: Books, k: KeyId)
    requires Paired(dev) && Balanced(dev, b) && k in b.keys && !b.keys[k].uploaded
    ensures Count(b.needed, b.keys[k].iface) >= 1
  {
    CountsSuffice(dev, b, b.keys[k].iface);
    assert k in Needy(b.keys, b.keys[k].iface);
  }

  lemma PayCovered(dev: Device, b: Books, i: IfId)
    requires Paired(dev) && Balanced(dev, b) && Honest(dev, b)
    ensures Count(b.needed, i) >= Count(b.pending, i)
    ensures Balanced(dev, Pay(dev, b, i)) && Honest(dev, Pay(dev, b, i))
  {
    CountsSuffice(dev, b, i);
    PayNeutral(dev, b, i);
    NeutralBalanced(dev, b, Pay(dev, b, i));
  }

  /** The counts after the loop over the interfaces. */
  function Bumped(needed: map<IfId, int>, done: seq<IfId>, delta: int): map<IfId, int> {
    map j | j in needed.Keys + (set v | v in done) :: Count(needed, j) + if j in done then delta else 0
  }

  lemma BumpOne(needed: map<IfId, int>, done: seq<IfId>, v: IfId, delta: int)
    requires v !in done
    ensures var b := Bumped(needed, done, delta);
            Bumped(needed, done + [v], delta) == b[v := Count(b, v) + delta]
  {
  }

  lemma BumpNext(dev: Device, needed: map<IfId, int>, i: IfId, n: nat, delta: int)
    requires Paired(dev) && n < |Vlans(dev, i)|
    ensures var vlans := Vlans(dev, i);
            var b := Bumped(needed, vlans[..n], delta);
            Bumped(needed, vlans[..n + 1], delta) == b[vlans[n] := Count(b, vlans[n]) + delta]
  {
    var vlans := Vlans(dev, i);
    assert vlans[..n + 1] == vlans[..n] + [vlans[n]];
    BumpOne(needed, vlans[..n], vlans[n], delta);
  }

  lemma OwnIsLast(dev: Device, needed: map<IfId, int>, i: IfId, delta: int)
    requires Paired(dev)
    ensures var b := Bumped(needed, Vlans(dev, i), delta);
            Adjusted(dev, needed, i, delta) == b[i := Count(b, i) + delta]
  {
    assert i !in Vlans(dev, i);
    BumpOne(needed, Vlans(dev, i), i, delta);
    BumpedIsAdjusted(dev, needed, i, delta);
  }

  lemma BumpedIsAdjusted(dev: Device, needed: map<IfId, int>, i: IfId, delta: int)
    ensures Bumped(needed, Vlans(dev, i) + [i], delta) == Adjusted(dev, needed, i, delta)
  {
  }

  lemma ResetFirst(needed: map<IfId, int>, i: IfId, members: seq<IfId>)
    requires members != [] && members[0] == i
    ensures Reset(needed, members[..1]) == needed[i := 0]
  {
    assert members[..1] == [i];
  }

  lemma ResetNext(needed: map<IfId, int>, members: seq<IfId>, n: nat)
    requires n < |members|
    ensures Reset(needed, members[..n + 1]) == Reset(needed, members[..n])[members[n] := 0]
  {
    assert members[..n + 1] == members[..n] + [members[n]];
    ResetOne(needed, members[..n], members[n]);
  }

  lemma ResetOne(needed: map<IfId, int>, done: seq<IfId>, v: IfId)
    ensures Reset(needed, done + [v]) == Reset(needed, done)[v := 0]
  {
  }

  lemma EnableNext(dev: Device, b: Books, ks: seq<KeyId>, n: nat, drv: KeyId -> Answer, i: IfId)
    requires Paired(dev) && n < |ks|
    requires forall k :: k in ks ==> k in b.keys && b.keys[k].iface == i
    ensures var t := EnableAll(dev, b, ks[..n], drv);
            && ks[n] in t.keys && t.keys[ks[n]].iface == i && (Count(b.needed, i) >= 0 ==> Count(t.needed, i) >= 0)
            && EnableAll(dev, b, ks[..n + 1], drv) == EnableTurn(dev, t, ks[n], drv)
  {
    assert ks[..n + 1][..n] == ks[..n];
    assert forall k :: k in ks[..n] ==> k in ks;
    EnableKeeps(dev, b, ks[..n], drv, ks[n]);
    if Count(b.needed, i) >= 0 { EnableCounts(dev, b, ks[..n], drv, i); }
  }

  /** The interface's pointer leads to the linked key of that index in its range, and is null
      if there is none; no other interface's pointer moved. */
  ghost predicate LeadsTo(
    keys: map<KeyId, Key>, was: map<IfId, KeyId>, pointers: map<IfId, KeyId>, i: IfId, idx: int, lo: nat, hi: nat)
  {
    && (forall j :: j != i ==> Held(pointers, j) == Held(was, j))
    && (forall k :: Held(pointers, i) == Some(k) <==>
          k in keys && lo <= idx == keys[k].idx < hi && PlaceOf(keys[k]) == IfSlot(i, keys[k].idx))
  }

  lemma PutLeads(
    keys: map<KeyId, Key>, at: map<Place, KeyId>, pointers: map<IfId, KeyId>, i: IfId, idx: int, lo: nat, hi: nat)
    requires Seated(keys, {}, at)
    ensures var held := if lo <= idx < hi then Held(at, IfSlot(i, idx)) else None;
            LeadsTo(keys, pointers, Put(pointers, i, held), i, idx, lo, hi)
  {
    forall k | k in keys && idx >= 0 && PlaceOf(keys[k]) == IfSlot(i, idx)
      ensures Held(at, IfSlot(i, idx)) == Some(k)
    {
      assert Attached(keys, {}, k);
    }
  }
}
