/** Where vmac/key.c keeps its keys: the slots of interfaces and stations, each interface's
    list, and the default pointers. */
module KeySlots {
  import opened VmacTypes
  import opened KeyBooks

  const DEFAULT_KEYS: nat := 4
  const ALL_KEYS: nat := 6

  /** sdata->keys[idx], sta->ptk[idx] or sta->gtk[idx]. */
  datatype Place = IfSlot(iface: IfId, idx: nat) | Ptk(sta: StaId, idx: nat) | Gtk(sta: StaId, idx: nat)

  /** Slots, lists and pointers that are not null or empty. */
  datatype Slots = Slots(
    at: map<Place, KeyId>,
    lists: map<IfId, seq<KeyId>>,
    unicast: map<IfId, KeyId>,
    multicast: map<IfId, KeyId>,
    mgmt: map<IfId, KeyId>)

  function PlaceOf(key: Key): Place {
    match key.sta
    case None => IfSlot(key.iface, key.idx)
    case Some(t) => if key.pairwise then Ptk(t, key.idx) else Gtk(t, key.idx)
  }

  /** The slot arrays have this place. */
  predicate Exists(p: Place) {
    p.idx < if p.Ptk? then DEFAULT_KEYS else ALL_KEYS
  }

  function Held<T>(m: map<T, KeyId>, x: T): Option<KeyId> {
    if x in m then Some(m[x]) else None
  }

  function Put(m: map<IfId, KeyId>, i: IfId, next: Option<KeyId>): map<IfId, KeyId> {
    if next.Some? then m[i := next.value] else m - {i}
  }

  function Listed(lists: map<IfId, seq<KeyId>>, i: IfId): seq<KeyId> {
    if i in lists then lists[i] else []
  }

  /** The keys that __ieee80211_set_default_key and its mgmt twin look up. */
  function DataKey(slots: Slots, i: IfId, idx: int): Option<KeyId> {
    if 0 <= idx < DEFAULT_KEYS then Held(slots.at, IfSlot(i, idx)) else None
  }

  function MgmtKey(slots: Slots, i: IfId, idx: int): Option<KeyId> {
    if DEFAULT_KEYS <= idx < ALL_KEYS then Held(slots.at, IfSlot(i, idx)) else None
  }

  /** ieee80211_set_default_key. */
  function SetDefault(slots: Slots, i: IfId, idx: int, uni: bool, multi: bool): Slots {
    var key := DataKey(slots, i, idx);
    slots.(unicast := if uni then Put(slots.unicast, i, key) else slots.unicast,
           multicast := if multi then Put(slots.multicast, i, key) else slots.multicast)
  }

  /** ieee80211_set_default_mgmt_key. */
  function SetDefaultMgmt(slots: Slots, i: IfId, idx: int): Slots {
    slots.(mgmt := Put(slots.mgmt, i, MgmtKey(slots, i, idx)))
  }

  function Without(list: seq<KeyId>, k: KeyId): seq<KeyId> {
    if list == [] then [] else if list[0] == k then list[1..] else [list[0]] + Without(list[1..], k)
  }

  /** Where the interface's defaults that led to `gone` are set anew, from index idx. */
  function Retarget(slots: Slots, i: IfId, gone: KeyId, idx: int): Slots {
    var uni := Held(slots.unicast, i) == Some(gone);
    var multi := Held(slots.multicast, i) == Some(gone);
    var data := SetDefault(slots, i, idx, uni, multi);
    if Held(slots.mgmt, i) == Some(gone) then SetDefaultMgmt(data, i, idx) else data
  }

  function List(lists: map<IfId, seq<KeyId>>, i: IfId, k: KeyId): map<IfId, seq<KeyId>> {
    lists[i := Listed(lists, i) + [k]]
  }

  function Unlist(lists: map<IfId, seq<KeyId>>, i: IfId, k: KeyId): map<IfId, seq<KeyId>> {
    lists[i := Without(Listed(lists, i), k)]
  }

  /** ieee80211_key_replace with no new key: k leaves its slot, its list and the defaults. */
  function Vacate(slots: Slots, k: KeyId, key: Key): Slots {
    var aimed := if key.sta.Some? then slots else Retarget(slots, key.iface, k, -1);
    aimed.(at := slots.at - {PlaceOf(key)}, lists := Unlist(slots.lists, key.iface, k))
  }

  /** ieee80211_key_replace with a new key k and the old one of its slot, if there is one.
      When a station moved, the old key is on another interface's list. */
  function Occupy(slots: Slots, k: KeyId, key: Key, prior: Option<KeyId>, priorIface: IfId): Slots {
    var i := key.iface;
    var listed := List(slots.lists, i, k);
    var placed := slots.(at := slots.at[PlaceOf(key) := k], lists := listed);
    if prior.None? then placed
    else
      var aimed := if key.sta.Some? then placed else Retarget(placed, i, prior.value, key.idx);
      aimed.(lists := Unlist(listed, priorIface, prior.value))
  }

  /** Vacates the keys in order; those of a list are always linked. */
  function VacateAll(slots: Slots, ks: seq<KeyId>, keys: map<KeyId, Key>): Slots {
    if ks == [] then slots
    else
      var t := VacateAll(slots, ks[..|ks| - 1], keys);
      var k := ks[|ks| - 1];
      if k in keys then Vacate(t, k, keys[k]) else t
  }
}
