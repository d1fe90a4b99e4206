/** No dangling keys: every slot, list and default pointer leads to keys in use, and every
    key outside `flight` is in exactly one slot and on exactly one list. */
module KeyWiring {
  import opened VmacTypes
  import opened KeyBooks
  import opened KeySlots

  ghost predicate Attached(keys: map<KeyId, Key>, flight: set<KeyId>, k: KeyId) {
    k in keys && k !in flight
  }

  ghost predicate Seated(keys: map<KeyId, Key>, flight: set<KeyId>, at: map<Place, KeyId>) {
    && (forall p :: p in at ==> Attached(keys, flight, at[p]) && PlaceOf(keys[at[p]]) == p)
    && (forall k :: Attached(keys, flight, k) ==> Held(at, PlaceOf(keys[k])) == Some(k))
  }

  ghost predicate Distinct(ks: seq<KeyId>) {
    forall a, c :: 0 <= a < c < |ks| ==> ks[a] != ks[c]
  }

  ghost predicate OnLists(keys: map<KeyId, Key>, flight: set<KeyId>, lists: map<IfId, seq<KeyId>>) {
    && (forall i :: Distinct(Listed(lists, i)))
    && (forall i, k :: k in Listed(lists, i) <==> Attached(keys, flight, k) && keys[k].iface == i)
  }

  /** Every pointer leads to an attached key of its interface with lo <= index < hi. */
  ghost predicate Aimed(keys: map<KeyId, Key>, flight: set<KeyId>, pointers: map<IfId, KeyId>, lo: nat, hi: nat) {
    forall i :: i in pointers ==>
      && Attached(keys, flight, pointers[i])
      && lo <= keys[pointers[i]].idx < hi
      && PlaceOf(keys[pointers[i]]) == IfSlot(i, keys[pointers[i]].idx)
  }

  ghost predicate Wired(keys: map<KeyId, Key>, flight: set<KeyId>, slots: Slots) {
    && (forall k :: k in keys ==> Exists(PlaceOf(keys[k])))
    && Seated(keys, flight, slots.at)
    && OnLists(keys, flight, slots.lists)
    && Aimed(keys, flight, slots.unicast, 0, DEFAULT_KEYS)
    && Aimed(keys, flight, slots.multicast, 0, DEFAULT_KEYS)
    && Aimed(keys, flight, slots.mgmt, DEFAULT_KEYS, ALL_KEYS)
  }

  /** Flags and counts do not matter here. */
  ghost predicate SameAddresses(keys: map<KeyId, Key>, other: map<KeyId, Key>) {
    other.Keys == keys.Keys
    && forall k :: k in keys ==>
         other[k].iface == keys[k].iface && other[k].idx == keys[k].idx && PlaceOf(other[k]) == PlaceOf(keys[k])
  }

  lemma FlagsWired(keys: map<KeyId, Key>, other: map<KeyId, Key>, flight: set<KeyId>, slots: Slots)
    requires Wired(keys, flight, slots) && SameAddresses(keys, other)
    ensures Wired(other, flight, slots)
  {
    forall k | k in other ensures Exists(PlaceOf(other[k])) {
      assert Exists(PlaceOf(keys[k]));
    }
    forall k | Attached(other, flight, k) ensures Held(slots.at, PlaceOf(other[k])) == Some(k) {
      assert Attached(keys, flight, k);
    }
    forall i, k ensures k in Listed(slots.lists, i) <==> Attached(other, flight, k) && other[k].iface == i {
      assert k in Listed(slots.lists, i) <==> Attached(keys, flight, k) && keys[k].iface == i;
    }
  }

  lemma {:induction false} WithoutIs(list: seq<KeyId>, k: KeyId)
    requires Distinct(list)
    ensures Distinct(Without(list, k)) && forall x :: x in Without(list, k) <==> x in list && x != k
  {
    if list != [] {
      assert Distinct(list[1..]) by {
        forall a, c | 0 <= a < c < |list| - 1 ensures list[1..][a] != list[1..][c] {
          assert list[a + 1] != list[c + 1];
        }
      }
      forall x ensures x in list <==> x == list[0] || x in list[1..] {
        if x in list { var a :| 0 <= a < |list| && list[a] == x; assert a > 0 ==> list[1..][a - 1] == x; }
      }
      forall x | x in list[1..] ensures x != list[0] {
        var a :| 0 <= a < |list| - 1 && list[1..][a] == x;
        assert list[0] != list[a + 1];
      }
      if list[0] != k {
        WithoutIs(list[1..], k);
        var rest := Without(list[1..], k);
        forall a, c | 0 <= a < c < |rest| + 1 ensures ([list[0]] + rest)[a] != ([list[0]] + rest)[c] {
          assert rest[c - 1] in rest;
        }
      }
    }
  }

  lemma VacateSeated(keys: map<KeyId, Key>, flight: set<KeyId>, at: map<Place, KeyId>, k: KeyId)
    requires Seated(keys, flight, at) && Attached(keys, flight, k)
    ensures Seated(keys, flight + {k}, at - {PlaceOf(keys[k])})
  {
  }

  lemma UnlistOnLists(keys: map<KeyId, Key>, flight: set<KeyId>, lists: map<IfId, seq<KeyId>>, k: KeyId)
    requires OnLists(keys, flight, lists) && Attached(keys, flight, k)
    ensures OnLists(keys, flight + {k}, Unlist(lists, keys[k].iface, k))
  {
    var r := Unlist(lists, keys[k].iface, k);
    WithoutIs(Listed(lists, keys[k].iface), k);
    forall i, x
      ensures Distinct(Listed(r, i))
      ensures x in Listed(r, i) <==> Attached(keys, flight + {k}, x) && keys[x].iface == i
    {
      assert Distinct(Listed(lists, i));
      assert x in Listed(lists, i) <==> Attached(keys, flight, x) && keys[x].iface == i;
    }
  }

  lemma ListOnLists(keys: map<KeyId, Key>, flight: set<KeyId>, lists: map<IfId, seq<KeyId>>, k: KeyId)
    requires OnLists(keys, flight, lists) && k in keys && k in flight
    ensures OnLists(keys, flight - {k}, List(lists, keys[k].iface, k))
  {
    var r := List(lists, keys[k].iface, k);
    assert k !in Listed(lists, keys[k].iface);
    forall i, x
      ensures Distinct(Listed(r, i))
      ensures x in Listed(r, i) <==> Attached(keys, flight - {k}, x) && keys[x].iface == i
    {
      assert Distinct(Listed(lists, i));
      assert x in Listed(lists, i) <==> Attached(keys, flight, x) && keys[x].iface == i;
    }
  }

  /** A pointer to a key that goes is cleared. */
  function Cleared(pointers: map<IfId, KeyId>, k: KeyId, key: Key): map<IfId, KeyId> {
    if key.sta.None? && Held(pointers, key.iface) == Some(k) then pointers - {key.iface} else pointers
  }

  /** Pointers to k are cleared; a station's key has none. */
  lemma VacateAimed(
    keys: map<KeyId, Key>, flight: set<KeyId>, pointers: map<IfId, KeyId>, lo: nat, hi: nat,
    k: KeyId, r: map<IfId, KeyId>)
    requires Aimed(keys, flight, pointers, lo, hi) && Attached(keys, flight, k)
    requires r == Cleared(pointers, k, keys[k])
    ensures Aimed(keys, flight + {k}, r, lo, hi)
  {
  }

  /** A pointer to `gone` is set anew, any other is kept. */
  function Renewed(pointers: map<IfId, KeyId>, i: IfId, gone: KeyId, next: Option<KeyId>): map<IfId, KeyId> {
    if Held(pointers, i) == Some(gone) then Put(pointers, i, next) else pointers
  }

  /** The defaults are set from one and the same slot array. */
  lemma RetargetPointers(slots: Slots, i: IfId, gone: KeyId, idx: int)
    ensures var r := Retarget(slots, i, gone, idx);
            && r.unicast == Renewed(slots.unicast, i, gone, DataKey(slots, i, idx))
            && r.multicast == Renewed(slots.multicast, i, gone, DataKey(slots, i, idx))
            && r.mgmt == Renewed(slots.mgmt, i, gone, MgmtKey(slots, i, idx))
  {
  }

  lemma VacatePointers(slots: Slots, k: KeyId, key: Key)
    ensures var r := Vacate(slots, k, key);
            && r.unicast == Cleared(slots.unicast, k, key)
            && r.multicast == Cleared(slots.multicast, k, key)
            && r.mgmt == Cleared(slots.mgmt, k, key)
  {
    if key.sta.None? { RetargetPointers(slots, key.iface, k, -1); }
  }

  lemma VacateWired(keys: map<KeyId, Key>, flight: set<KeyId>, slots: Slots, k: KeyId)
    requires Wired(keys, flight, slots) && Attached(keys, flight, k)
    ensures Wired(keys, flight + {k}, Vacate(slots, k, keys[k]))
  {
    var r := Vacate(slots, k, keys[k]);
    VacateSeated(keys, flight, slots.at, k);
    UnlistOnLists(keys, flight, slots.lists, k);
    VacatePointers(slots, k, keys[k]);
    VacateAimed(keys, flight, slots.unicast, 0, DEFAULT_KEYS, k, r.unicast);
    VacateAimed(keys, flight, slots.multicast, 0, DEFAULT_KEYS, k, r.multicast);
    VacateAimed(keys, flight, slots.mgmt, DEFAULT_KEYS, ALL_KEYS, k, r.mgmt);
  }

  /** The keys outside slots and lists once k has taken its slot from `prior`. */
  function Displaced(flight: set<KeyId>, k: KeyId, prior: Option<KeyId>): set<KeyId> {
    flight - {k} + if prior.Some? then {prior.value} else {}
  }

  lemma OccupySeated(keys: map<KeyId, Key>, flight: set<KeyId>, at: map<Place, KeyId>, k: KeyId)
    requires Seated(keys, flight, at) && k in keys && k in flight
    ensures Seated(keys, Displaced(flight, k, Held(at, PlaceOf(keys[k]))), at[PlaceOf(keys[k]) := k])
  {
  }

  /** A pointer to the displaced key, led to index idx within its range. */
  function Followed(
    pointers: map<IfId, KeyId>, k: KeyId, key: Key, prior: Option<KeyId>, lo: nat, hi: nat): map<IfId, KeyId>
  {
    if key.sta.None? && prior.Some? && Held(pointers, key.iface) == prior
    then Put(pointers, key.iface, if lo <= key.idx < hi then Some(k) else None)
    else pointers
  }

  lemma OccupyAt(slots: Slots, k: KeyId, key: Key, prior: Option<KeyId>, priorIface: IfId)
    ensures Occupy(slots, k, key, prior, priorIface).at == slots.at[PlaceOf(key) := k]
  {
  }

  lemma OccupyPointers(slots: Slots, k: KeyId, key: Key, prior: Option<KeyId>, priorIface: IfId)
    ensures var r := Occupy(slots, k, key, prior, priorIface);
            && r.unicast == Followed(slots.unicast, k, key, prior, 0, DEFAULT_KEYS)
            && r.multicast == Followed(slots.multicast, k, key, prior, 0, DEFAULT_KEYS)
            && r.mgmt == Followed(slots.mgmt, k, key, prior, DEFAULT_KEYS, ALL_KEYS)
  {
    if prior.Some? && key.sta.None? {
      var placed := slots.(at := slots.at[PlaceOf(key) := k], lists := List(slots.lists, key.iface, k));
      RetargetPointers(placed, key.iface, prior.value, key.idx);
    }
  }

  /** Pointers to the displaced key follow to the new one, within their own range. */
  lemma OccupyAimed(
    keys: map<KeyId, Key>, flight: set<KeyId>, at: map<Place, KeyId>, pointers: map<IfId, KeyId>, lo: nat, hi: nat,
    k: KeyId, r: map<IfId, KeyId>)
    requires Seated(keys, flight, at) && Aimed(keys, flight, pointers, lo, hi) && k in keys && k in flight
    requires r == Followed(pointers, k, keys[k], Held(at, PlaceOf(keys[k])), lo, hi)
    ensures Aimed(keys, Displaced(flight, k, Held(at, PlaceOf(keys[k]))), r, lo, hi)
  {
  }

  lemma OccupyOnLists(keys: map<KeyId, Key>, flight: set<KeyId>, lists: map<IfId, seq<KeyId>>, k: KeyId, prior: KeyId)
    requires OnLists(keys, flight, lists) && k in keys && k in flight && Attached(keys, flight, prior)
    ensures OnLists(keys, Displaced(flight, k, Some(prior)),
                    Unlist(List(lists, keys[k].iface, k), keys[prior].iface, prior))
  {
    ListOnLists(keys, flight, lists, k);
    UnlistOnLists(keys, flight - {k}, List(lists, keys[k].iface, k), prior);
  }

  lemma OccupyWired(keys: map<KeyId, Key>, flight: set<KeyId>, slots: Slots, k: KeyId, priorIface: IfId)
    requires Wired(keys, flight, slots) && k in keys && k in flight
    requires var prior := Held(slots.at, PlaceOf(keys[k]));
             prior.Some? ==> prior.value in keys && priorIface == keys[prior.value].iface
    ensures var prior := Held(slots.at, PlaceOf(keys[k]));
            Wired(keys, Displaced(flight, k, prior), Occupy(slots, k, keys[k], prior, priorIface))
  {
    var prior := Held(slots.at, PlaceOf(keys[k]));
    var r := Occupy(slots, k, keys[k], prior, priorIface);
    OccupySeated(keys, flight, slots.at, k);
    if prior.Some? {
      OccupyOnLists(keys, flight, slots.lists, k, prior.value);
    } else {
      ListOnLists(keys, flight, slots.lists, k);
      assert Displaced(flight, k, None) == flight - {k};
    }
    OccupyPointers(slots, k, keys[k], prior, priorIface);
    OccupyAimed(keys, flight, slots.at, slots.unicast, 0, DEFAULT_KEYS, k, r.unicast);
    OccupyAimed(keys, flight, slots.at, slots.multicast, 0, DEFAULT_KEYS, k, r.multicast);
    OccupyAimed(keys, flight, slots.at, slots.mgmt, DEFAULT_KEYS, ALL_KEYS, k, r.mgmt);
  }

  lemma EnterAimed(
    keys: map<KeyId, Key>, flight: set<KeyId>, pointers: map<IfId, KeyId>, lo: nat, hi: nat, k: KeyId, key: Key)
    requires Aimed(keys, flight, pointers, lo, hi) && k !in keys
    ensures Aimed(keys[k := key], flight + {k}, pointers, lo, hi)
  {
  }

  lemma EnterSeated(keys: map<KeyId, Key>, flight: set<KeyId>, at: map<Place, KeyId>, k: KeyId, key: Key)
    requires Seated(keys, flight, at) && k !in keys
    ensures Seated(keys[k := key], flight + {k}, at)
  {
  }

  /** A key enters in flight. */
  lemma EnterWired(keys: map<KeyId, Key>, flight: set<KeyId>, slots: Slots, k: KeyId, key: Key)
    requires Wired(keys, flight, slots) && k !in keys && Exists(PlaceOf(key))
    ensures Wired(keys[k := key], flight + {k}, slots)
  {
    EnterSeated(keys, flight, slots.at, k, key);
    EnterOnLists(keys, flight, slots.lists, k, key);
    EnterAimed(keys, flight, slots.unicast, 0, DEFAULT_KEYS, k, key);
    EnterAimed(keys, flight, slots.multicast, 0, DEFAULT_KEYS, k, key);
    EnterAimed(keys, flight, slots.mgmt, DEFAULT_KEYS, ALL_KEYS, k, key);
  }

  lemma EnterOnLists(keys: map<KeyId, Key>, flight: set<KeyId>, lists: map<IfId, seq<KeyId>>, k: KeyId, key: Key)
    requires OnLists(keys, flight, lists) && k !in keys
    ensures OnLists(keys[k := key], flight + {k}, lists)
  {
    forall i, x
      ensures x in Listed(lists, i) <==> Attached(keys[k := key], flight + {k}, x) && keys[k := key][x].iface == i
    {
      assert x in Listed(lists, i) <==> Attached(keys, flight, x) && keys[x].iface == i;
    }
  }

  lemma LeaveAimed(keys: map<KeyId, Key>, flight: set<KeyId>, pointers: map<IfId, KeyId>, lo: nat, hi: nat, k: KeyId)
    requires Aimed(keys, flight, pointers, lo, hi) && k in flight
    ensures Aimed(keys - {k}, flight - {k}, pointers, lo, hi)
  {
  }

  lemma LeaveSeated(keys: map<KeyId, Key>, flight: set<KeyId>, at: map<Place, KeyId>, k: KeyId)
    requires Seated(keys, flight, at) && k in flight
    ensures Seated(keys - {k}, flight - {k}, at)
  {
  }

  /** A key in flight goes. */
  lemma LeaveWired(keys: map<KeyId, Key>, flight: set<KeyId>, slots: Slots, k: KeyId)
    requires Wired(keys, flight, slots) && k in flight
    ensures Wired(keys - {k}, flight - {k}, slots)
  {
    LeaveSeated(keys, flight, slots.at, k);
    LeaveOnLists(keys, flight, slots.lists, k);
    LeaveAimed(keys, flight, slots.unicast, 0, DEFAULT_KEYS, k);
    LeaveAimed(keys, flight, slots.multicast, 0, DEFAULT_KEYS, k);
    LeaveAimed(keys, flight, slots.mgmt, DEFAULT_KEYS, ALL_KEYS, k);
  }

  lemma LeaveOnLists(keys: map<KeyId, Key>, flight: set<KeyId>, lists: map<IfId, seq<KeyId>>, k: KeyId)
    requires OnLists(keys, flight, lists) && k in flight
    ensures OnLists(keys - {k}, flight - {k}, lists)
  {
    forall i, x ensures x in Listed(lists, i) <==> Attached(keys - {k}, flight - {k}, x) && (keys - {k})[x].iface == i {
      assert x in Listed(lists, i) <==> Attached(keys, flight, x) && keys[x].iface == i;
    }
  }

  lemma DefaultWired(keys: map<KeyId, Key>, flight: set<KeyId>, slots: Slots, i: IfId, idx: int, uni: bool, multi: bool)
    requires Wired(keys, flight, slots)
    ensures Wired(keys, flight, SetDefault(slots, i, idx, uni, multi))
  {
  }

  lemma DefaultMgmtWired(keys: map<KeyId, Key>, flight: set<KeyId>, slots: Slots, i: IfId, idx: int)
    requires Wired(keys, flight, slots)
    ensures Wired(keys, flight, SetDefaultMgmt(slots, i, idx))
  {
  }

  /** Nothing leads to a key that is gone or in flight. */
  predicate Reaches(slots: Slots, k: KeyId) {
    || k in slots.at.Values
    || k in slots.unicast.Values
    || k in slots.multicast.Values
    || k in slots.mgmt.Values
    || exists i :: i in slots.lists && k in slots.lists[i]
  }

  lemma NothingDangles(keys: map<KeyId, Key>, flight: set<KeyId>, slots: Slots, k: KeyId)
    requires Wired(keys, flight, slots)
    ensures Reaches(slots, k) <==> Attached(keys, flight, k)
  {
    if Attached(keys, flight, k) {
      assert PlaceOf(keys[k]) in slots.at;
    } else {
      forall i | i in slots.lists ensures k !in slots.lists[i] {
        assert Listed(slots.lists, i) == slots.lists[i];
      }
    }
  }
}
