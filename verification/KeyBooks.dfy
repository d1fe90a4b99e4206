/** What vmac/key.c counts: the keys in use and, for each interface, how many of them make
    it reserve tailroom. */
module KeyBooks {
  import opened VmacTypes

  const EINVAL: int := 22
  const EOPNOTSUPP: int := 95

  type KeyId = nat
  type IfId = nat
  type StaId = nat

  /** An access point with the VLAN interfaces on its list, such a VLAN, or any other. */
  datatype Kind = AccessPoint(vlans: seq<IfId>) | Vlan(master: IfId) | Other(station: bool)

  /** What the driver offers, and the interfaces. */
  datatype Device = Device(setKey: bool, perStaGtk: bool, swControl: bool, wowlan: bool, kinds: map<IfId, Kind>)

  /** A key. `noRoom` is neither GENERATE_MMIC nor RESERVE_TAILROOM, as the driver set them;
      `software` is a cipher that can be done in software. */
  datatype Key = Key(
    idx: nat,
    pairwise: bool,
    iface: IfId,
    sta: Option<StaId>,
    uploaded: bool,
    tainted: bool,
    noRoom: bool,
    software: bool,
    tkip: bool,
    bytes: seq<u8>)

  /** The linked keys, crypto_tx_tailroom_needed_cnt and crypto_tx_tailroom_pending_dec. */
  datatype Books = Books(keys: map<KeyId, Key>, needed: map<IfId, int>, pending: map<IfId, int>)

  /** The answer to one SET_KEY: whether the driver knows the station, its return value, and
      the flags it leaves on the key. */
  datatype Answer = Answer(stationUp: bool, ret: int, noRoom: bool)

  /** A count never written is still zero. */
  function Count(counts: map<IfId, int>, i: IfId): int {
    if i in counts then counts[i] else 0
  }

  function KindOf(dev: Device, i: IfId): Kind {
    if i in dev.kinds then dev.kinds[i] else Other(false)
  }

  function Vlans(dev: Device, i: IfId): seq<IfId> {
    var kind := KindOf(dev, i);
    if kind.AccessPoint? then kind.vlans else []
  }

  /** increment_tailroom_need_count and decrease_tailroom_need_count. */
  function Adjusted(dev: Device, needed: map<IfId, int>, i: IfId, delta: int): map<IfId, int> {
    map j | j in needed.Keys + {i} + (set v | v in Vlans(dev, i)) ::
      Count(needed, j) + if j == i || j in Vlans(dev, i) then delta else 0
  }

  function Adjust(dev: Device, b: Books, i: IfId, delta: int): Books {
    b.(needed := Adjusted(dev, b.needed, i, delta))
  }

  predicate Unsupported(dev: Device, key: Key, drv: Answer) {
    || !dev.setKey
    || (key.sta.Some? && !key.pairwise && !dev.perStaGtk)
    || (key.sta.Some? && !drv.stationUp)
    || (KindOf(dev, key.iface).Vlan? && !key.pairwise)
  }

  predicate Accepted(dev: Device, key: Key, drv: Answer) {
    !key.tainted && !Unsupported(dev, key, drv) && drv.ret == 0
  }

  /** The return value of ieee80211_key_enable_hw_accel. */
  function EnableCode(dev: Device, key: Key, drv: Answer): int {
    var ret := if Unsupported(dev, key, drv) then -EOPNOTSUPP else drv.ret;
    if key.tainted then -EINVAL
    else if ret == 0 then 0
    else if !key.software then -EINVAL
    else if ret == 1 then 0
    else if dev.swControl then -EINVAL
    else 0
  }

  /** ieee80211_key_enable_hw_accel. */
  function EnableHw(dev: Device, b: Books, k: KeyId, drv: Answer): Books
    requires k in b.keys
  {
    var key := b.keys[k];
    if key.tainted then b.(keys := b.keys[k := key.(uploaded := false)])
    else if !Accepted(dev, key, drv) then b
    else
      var up := b.(keys := b.keys[k := key.(uploaded := true, noRoom := drv.noRoom)]);
      if drv.noRoom then Adjust(dev, up, key.iface, -1) else up
  }

  /** ieee80211_key_disable_hw_accel. */
  function DisableHw(dev: Device, b: Books, k: KeyId): Books
    requires k in b.keys
  {
    var key := b.keys[k];
    if !dev.setKey || !key.uploaded then b
    else
      var off := b.(keys := b.keys[k := key.(uploaded := false)]);
      if key.noRoom then Adjust(dev, off, key.iface, 1) else off
  }

  /** The count that a destroyed key of interface i gives up, now or later. */
  function GiveUp(dev: Device, b: Books, i: IfId, delay: bool): Books {
    if delay then b.(pending := b.pending[i := Count(b.pending, i) + 1]) else Adjust(dev, b, i, -1)
  }

  /** __ieee80211_key_destroy. */
  function Destroy(dev: Device, b: Books, k: KeyId, delay: bool): Books
    requires k in b.keys
  {
    var given := GiveUp(dev, DisableHw(dev, b, k), b.keys[k].iface, delay);
    given.(keys := given.keys - {k})
  }

  /** A new key enters with its need counted. */
  function Enter(dev: Device, b: Books, k: KeyId, key: Key): Books {
    Adjust(dev, b.(keys := b.keys[k := key]), key.iface, 1)
  }

  /** ieee80211_remove_key up to the freeing: the driver has removed the key already. */
  function Withdraw(dev: Device, b: Books, k: KeyId): Books
    requires k in b.keys
  {
    var key := b.keys[k];
    if !key.uploaded then b
    else
      var off := b.(keys := b.keys[k := key.(uploaded := false)]);
      if key.noRoom then Adjust(dev, off, key.iface, 1) else off
  }

  /** ieee80211_delayed_tailroom_dec, and the start of ieee80211_free_keys_iface. */
  function Pay(dev: Device, b: Books, i: IfId): Books {
    Adjust(dev, b, i, -Count(b.pending, i)).(pending := b.pending[i := 0])
  }

  /** Destroys the keys in order, without delay; distinct linked keys are all still there in
      their turn. */
  function DestroyAll(dev: Device, b: Books, ks: seq<KeyId>): Books {
    if ks == [] then b
    else
      var t := DestroyAll(dev, b, ks[..|ks| - 1]);
      var k := ks[|ks| - 1];
      if k in t.keys then Destroy(dev, t, k, false) else t
  }

  /** ieee80211_reset_crypto_tx_tailroom, which does it to an interface and its VLANs. */
  function Reset(needed: map<IfId, int>, members: seq<IfId>): map<IfId, int> {
    map j | j in needed.Keys + (set v | v in members) :: if j in members then 0 else Count(needed, j)
  }

  /** One turn of the loop of ieee80211_enable_keys. */
  function EnableTurn(dev: Device, b: Books, k: KeyId, drv: KeyId -> Answer): Books {
    if k in b.keys then EnableHw(dev, Adjust(dev, b, b.keys[k].iface, 1), k, drv(k)) else b
  }

  /** ieee80211_enable_keys, for an interface with this list. */
  function EnableAll(dev: Device, b: Books, ks: seq<KeyId>, drv: KeyId -> Answer): Books {
    if ks == [] then b else EnableTurn(dev, EnableAll(dev, b, ks[..|ks| - 1], drv), ks[|ks| - 1], drv)
  }
}
