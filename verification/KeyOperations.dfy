/** The operations of vmac/key.c on the whole bookkeeping. */
module KeyOperations {
  import opened VmacTypes
  import opened KeyBooks
  import opened KeySlots

  const TKIP_LEN: nat := 32

  datatype Table = Table(books: Books, slots: Slots)

  /** The key bytes compared for re-installation; a station ignores a group key's TX MIC. */
  function Compared(kind: Kind, next: Key, bytes: seq<u8>): seq<u8> {
    if kind == Other(true) && next.tkip && |next.bytes| == TKIP_LEN == |bytes| && !next.pairwise
    then bytes[..16] + [0, 0, 0, 0, 0, 0, 0, 0] + bytes[24..]
    else bytes
  }

  /** ieee80211_key_identical. */
  predicate Identical(kind: Kind, prior: Key, next: Key) {
    |prior.bytes| == |next.bytes| && Compared(kind, next, prior.bytes) == Compared(kind, next, next.bytes)
  }

  /** Every slot's key exists. */
  ghost predicate Closed(s: Table) {
    forall p :: p in s.slots.at ==> s.slots.at[p] in s.books.keys
  }

  /** ieee80211_key_free of a linked key. */
  function Free(dev: Device, s: Table, k: KeyId, delay: bool): Table
    requires k in s.books.keys
  {
    Table(Destroy(dev, s.books, k, delay), Vacate(s.slots, k, s.books.keys[k]))
  }

  /** The part of ieee80211_key_link that puts the key in its slot and destroys the old one. */
  function Install(dev: Device, s: Table, k: KeyId, key: Key): (r: Table)
    requires k !in s.books.keys && Closed(s)
    ensures k in r.books.keys
  {
    var entered := Enter(dev, s.books, k, key);
    match Held(s.slots.at, PlaceOf(key))
    case None => Table(entered, Occupy(s.slots, k, key, None, 0))
    case Some(o) =>
      Table(Destroy(dev, entered, o, true), Occupy(s.slots, k, key, Some(o), s.books.keys[o].iface))
  }

  /** The end of ieee80211_key_link: the hardware is asked, and a refused key is freed. */
  function Finish(dev: Device, s: Table, k: KeyId, drv: Answer): (Table, int)
    requires k in s.books.keys
  {
    var enabled := s.(books := EnableHw(dev, s.books, k, drv));
    var code := EnableCode(dev, s.books.keys[k], drv);
    (if code != 0 then Free(dev, enabled, k, true) else enabled, code)
  }

  /** ieee80211_key_link of the fresh key k: the new state and the return value. */
  function Link(dev: Device, s: Table, k: KeyId, key: Key, drv: Answer): (Table, int)
    requires k !in s.books.keys && Closed(s)
  {
    var prior := Held(s.slots.at, PlaceOf(key));
    if prior.Some? && Identical(KindOf(dev, key.iface), s.books.keys[prior.value], key) then (s, 0)
    else if dev.wowlan then (Install(dev, s, k, key), 0)
    else Finish(dev, Install(dev, s, k, key), k, drv)
  }

  /** ieee80211_remove_key. */
  function Remove(dev: Device, s: Table, k: KeyId): Table
    requires k in s.books.keys
  {
    Free(dev, s.(books := Withdraw(dev, s.books, k)), k, false)
  }

  /** ieee80211_free_keys_iface: the keys it collects are those of the interface's list. */
  function FreeIface(dev: Device, s: Table, i: IfId): Table {
    Table(Pay(dev, s.books, i), VacateAll(s.slots, Listed(s.slots.lists, i), s.books.keys))
  }

  /** The interfaces' keys leave slots and lists, interface by interface, and are collected. */
  function Collect(dev: Device, s: Table, members: seq<IfId>): (Table, seq<KeyId>) {
    if members == [] then (s, [])
    else
      var i := members[|members| - 1];
      var (t, got) := Collect(dev, s, members[..|members| - 1]);
      (FreeIface(dev, t, i), got + Listed(t.slots.lists, i))
  }

  /** An interface and the VLANs on its list. */
  function Members(dev: Device, i: IfId): seq<IfId> {
    [i] + Vlans(dev, i)
  }

  /** ieee80211_free_keys. */
  function FreeKeys(dev: Device, s: Table, i: IfId): Table {
    var (t, got) := Collect(dev, s, Members(dev, i));
    t.(books := DestroyAll(dev, t.books, got))
  }

  /** One turn of the loops of ieee80211_free_sta_keys. A slot that is not null always leads
      to a linked key, so the last case does not occur. */
  function FreeAt(dev: Device, s: Table, p: Place): Table {
    match Held(s.slots.at, p)
    case None => s
    case Some(k) => if k in s.books.keys then Free(dev, s, k, true) else s
  }

  function NextPlace(t: StaId, group: bool, n: nat): Place {
    if group then Gtk(t, n) else Ptk(t, n)
  }

  function FreePlaces(dev: Device, s: Table, t: StaId, group: bool, n: nat): Table {
    if n == 0 then s
    else FreeAt(dev, FreePlaces(dev, s, t, group, n - 1), NextPlace(t, group, n - 1))
  }

  /** ieee80211_free_sta_keys. */
  function FreeStation(dev: Device, s: Table, t: StaId): Table {
    FreePlaces(dev, FreePlaces(dev, s, t, true, ALL_KEYS), t, false, DEFAULT_KEYS)
  }

  /** ieee80211_enable_keys for each of the interfaces. */
  function EnableMembers(
    dev: Device, b: Books, lists: map<IfId, seq<KeyId>>, members: seq<IfId>, drv: KeyId -> Answer): Books
  {
    if members == [] then b
    else
      var front := EnableMembers(dev, b, lists, members[..|members| - 1], drv);
      EnableAll(dev, front, Listed(lists, members[|members| - 1]), drv)
  }

  /** The interface and its VLANs come up again: ieee80211_reset_crypto_tx_tailroom, then
      ieee80211_enable_keys for each. */
  function BringUp(dev: Device, s: Table, i: IfId, drv: KeyId -> Answer): Table {
    var members := Members(dev, i);
    var reset := s.books.(needed := Reset(s.books.needed, members));
    s.(books := EnableMembers(dev, reset, s.slots.lists, members, drv))
  }
}
