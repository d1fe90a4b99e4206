/** Runs of the operations of vmac/key.c, each under the key mutex. */
module KeyRuns {
  import opened VmacTypes
  import opened KeyBooks
  import opened KeySlots
  import opened KeyOperations
  import opened KeyBalance
  import opened KeyWiring
  import opened KeyInvariant
  import opened KeyTeardown
  import opened KeyBringUp

  datatype Event =
    | LinkKey(k: KeyId, key: Key, drv: Answer)
    | FreeKey(k: KeyId, delay: bool)
    | RemoveKey(k: KeyId)
    | FreeAll(i: IfId)
    | FreeSta(t: StaId)
    | DelayedDec(i: IfId)
    | Default(i: IfId, idx: int, uni: bool, multi: bool)
    | DefaultMgmt(i: IfId, idx: int)
    | ComeUp(i: IfId, answers: KeyId -> Answer)

  const EMPTY: Table := Table(Books(map[], map[], map[]), Slots(map[], map[], map[], map[], map[]))

  /** Interfaces come up, a VLAN along with its access point, when as many decrements are
      pending as stale keys are refused. */
  ghost predicate Enabled(dev: Device, s: Table, e: Event) {
    match e
    case LinkKey(k, key, drv) => k !in s.books.keys && Linkable(key) && Closed(s)
    case FreeKey(k, delay) => k in s.books.keys
    case RemoveKey(k) => k in s.books.keys
    case ComeUp(i, answers) =>
      !KindOf(dev, i).Vlan? && PendingMeetsStale(dev, s, i, answers)
    case _ => true
  }

  ghost function Step(dev: Device, s: Table, e: Event): Table
    requires Enabled(dev, s, e)
  {
    match e
    case LinkKey(k, key, drv) => Link(dev, s, k, key, drv).0
    case FreeKey(k, delay) => Free(dev, s, k, delay)
    case RemoveKey(k) => Remove(dev, s, k)
    case FreeAll(i) => FreeKeys(dev, s, i)
    case FreeSta(t) => FreeStation(dev, s, t)
    case DelayedDec(i) => s.(books := Pay(dev, s.books, i))
    case Default(i, idx, uni, multi) => s.(slots := SetDefault(s.slots, i, idx, uni, multi))
    case DefaultMgmt(i, idx) => s.(slots := SetDefaultMgmt(s.slots, i, idx))
    case ComeUp(i, answers) => BringUp(dev, s, i, answers)
  }

  /** The state after the events, if each was enabled in its turn. */
  ghost function After(dev: Device, events: seq<Event>): Option<Table> {
    if events == [] then Some(EMPTY)
    else
      match After(dev, events[..|events| - 1])
      case None => None
      case Some(mid) =>
        if Enabled(dev, mid, events[|events| - 1]) then Some(Step(dev, mid, events[|events| - 1])) else None
  }

  lemma EmptySound(dev: Device)
    ensures Sound(dev, EMPTY, {})
  {
    forall i ensures Gap(dev, EMPTY.books, i) == 0 {
      assert Needy(map[], i) == {};
    }
  }

  lemma StepSound(dev: Device, s: Table, e: Event)
    requires Paired(dev) && Sound(dev, s, {}) && Enabled(dev, s, e)
    ensures Sound(dev, Step(dev, s, e), {})
  {
    match e
    case LinkKey(k, key, drv) => LinkSound(dev, s, k, key, drv);
    case FreeKey(k, delay) => FreeSound(dev, s, k, delay);
    case RemoveKey(k) => RemoveSound(dev, s, k);
    case FreeAll(i) => FreeKeysSound(dev, s, i);
    case FreeSta(t) => StationFreed(dev, s, t);
    case DelayedDec(i) => PaySound(dev, s, {}, i);
    case Default(i, idx, uni, multi) => DefaultWired(s.books.keys, {}, s.slots, i, idx, uni, multi);
    case DefaultMgmt(i, idx) => DefaultMgmtWired(s.books.keys, {}, s.slots, i, idx);
    case ComeUp(i, answers) => BringUpSound(dev, s, i, answers);
  }

  /** In every run the counts balance and no key dangles. */
  lemma {:induction false} EveryRunIsSound(dev: Device, events: seq<Event>)
    requires Paired(dev) && After(dev, events).Some?
    ensures Sound(dev, After(dev, events).value, {})
  {
    if events == [] {
      EmptySound(dev);
    } else {
      EveryRunIsSound(dev, events[..|events| - 1]);
      StepSound(dev, After(dev, events[..|events| - 1]).value, events[|events| - 1]);
    }
  }

  /** In every run an interface that is not a VLAN needs tailroom for its pending decrements
      and its needy keys, and a VLAN for its own and its access point's. */
  lemma NeededIs(dev: Device, events: seq<Event>, i: IfId)
    requires Paired(dev) && After(dev, events).Some?
    ensures var b := After(dev, events).value.books;
            var own := Count(b.pending, i) + |Needy(b.keys, i)|;
            match KindOf(dev, i)
            case Vlan(m) => Count(b.needed, i) == own + Count(b.pending, m) + |Needy(b.keys, m)|
            case _ => Count(b.needed, i) == own
  {
    EveryRunIsSound(dev, events);
    var b := After(dev, events).value.books;
    assert Gap(dev, b, i) == 0;
    if KindOf(dev, i).Vlan? {
      var m := KindOf(dev, i).master;
      assert KindOf(dev, i) == Vlan(m) && i in Vlans(dev, m);
      assert Gap(dev, b, m) == 0;
    }
  }

  /** In every run a key can be reached from a slot, list or default pointer exactly while
      it is linked, and from its own slot. */
  lemma ReachedWhileLinked(dev: Device, events: seq<Event>, k: KeyId)
    requires Paired(dev) && After(dev, events).Some?
    ensures var s := After(dev, events).value;
            && (Reaches(s.slots, k) <==> k in s.books.keys)
            && (forall p :: Held(s.slots.at, p) == Some(k) <==> k in s.books.keys && PlaceOf(s.books.keys[k]) == p)
  {
    EveryRunIsSound(dev, events);
    var s := After(dev, events).value;
    NothingDangles(s.books.keys, {}, s.slots, k);
    if k in s.books.keys {
      assert Attached(s.books.keys, {}, k);
    }
  }

  lemma EnterHonest(dev: Device, b: Books, k: KeyId, key: Key)
    requires Honest(dev, b) && !key.uploaded
    ensures Honest(dev, Enter(dev, b, k, key)) && Enter(dev, b, k, key).keys == b.keys[k := key]
  {
  }

  lemma InstallKeys(dev: Device, s: Table, k: KeyId, key: Key)
    requires Paired(dev) && Honest(dev, s.books) && Closed(s) && k !in s.books.keys && Linkable(key)
    ensures var r := Install(dev, s, k, key);
            var prior := Held(s.slots.at, PlaceOf(key));
            && r.books.keys.Keys == s.books.keys.Keys + {k} - (if prior.Some? then {prior.value} else {})
            && r.books.keys[k] == key && Honest(dev, r.books)
  {
    EnterHonest(dev, s.books, k, key);
    var prior := Held(s.slots.at, PlaceOf(key));
    if prior.Some? { DestroyNeutral(dev, Enter(dev, s.books, k, key), prior.value, true); }
  }

  lemma InstallPlace(dev: Device, s: Table, k: KeyId, key: Key)
    requires k !in s.books.keys && Closed(s)
    ensures Install(dev, s, k, key).slots.at == s.slots.at[PlaceOf(key) := k]
  {
    var prior := Held(s.slots.at, PlaceOf(key));
    OccupyAt(s.slots, k, key, prior, if prior.Some? then s.books.keys[prior.value].iface else 0);
  }

  lemma FinishKeys(dev: Device, s: Table, k: KeyId, drv: Answer)
    requires Paired(dev) && Honest(dev, s.books) && k in s.books.keys
    ensures var (r, code) := Finish(dev, s, k, drv);
            && r.books.keys.Keys == s.books.keys.Keys - (if code == 0 then {} else {k})
            && r.slots.at == if code == 0 then s.slots.at else s.slots.at - {PlaceOf(s.books.keys[k])}
  {
    EnableAddresses(dev, s.books, k, drv);
    if Finish(dev, s, k, drv).1 != 0 {
      DestroyNeutral(dev, EnableHw(dev, s.books, k, drv), k, true);
    }
  }

  /** What is left of the old key in the slot: nothing, unless the new one was identical. */
  predicate Reinstalled(dev: Device, s: Table, key: Key)
    requires Held(s.slots.at, PlaceOf(key)).Some? ==> s.slots.at[PlaceOf(key)] in s.books.keys
  {
    var prior := Held(s.slots.at, PlaceOf(key));
    prior.Some? && Identical(KindOf(dev, key.iface), s.books.keys[prior.value], key)
  }

  lemma LinkKeys(dev: Device, s: Table, k: KeyId, key: Key, drv: Answer)
    requires Paired(dev) && Honest(dev, s.books) && Closed(s) && k !in s.books.keys && Linkable(key)
    requires !Reinstalled(dev, s, key)
    ensures var (r, code) := Link(dev, s, k, key, drv);
            var prior := Held(s.slots.at, PlaceOf(key));
            r.books.keys.Keys == s.books.keys.Keys + (if code == 0 then {k} else {})
              - (if prior.Some? then {prior.value} else {})
  {
    InstallKeys(dev, s, k, key);
    FinishKeys(dev, Install(dev, s, k, key), k, drv);
  }

  lemma LinkPlace(dev: Device, s: Table, k: KeyId, key: Key, drv: Answer)
    requires Paired(dev) && Honest(dev, s.books) && Closed(s) && k !in s.books.keys && Linkable(key)
    requires !Reinstalled(dev, s, key)
    ensures var (r, code) := Link(dev, s, k, key, drv);
            Held(r.slots.at, PlaceOf(key)) == if code == 0 then Some(k) else None
  {
    InstallKeys(dev, s, k, key);
    InstallPlace(dev, s, k, key);
    FinishKeys(dev, Install(dev, s, k, key), k, drv);
  }

  /** A link of an identical key changes nothing. Any other link frees the old key of the
      slot; the new one is then in the slot if the link succeeds, and freed if it fails. */
  lemma LinkOutcome(dev: Device, s: Table, k: KeyId, key: Key, drv: Answer)
    requires Paired(dev) && Honest(dev, s.books) && Closed(s) && k !in s.books.keys && Linkable(key)
    ensures var (r, code) := Link(dev, s, k, key, drv);
            var prior := Held(s.slots.at, PlaceOf(key));
            if Reinstalled(dev, s, key) then r == s && code == 0
            else
              && r.books.keys.Keys == s.books.keys.Keys + (if code == 0 then {k} else {})
                 - (if prior.Some? then {prior.value} else {})
              && Held(r.slots.at, PlaceOf(key)) == if code == 0 then Some(k) else None
  {
    if !Reinstalled(dev, s, key) {
      LinkKeys(dev, s, k, key, drv);
      LinkPlace(dev, s, k, key, drv);
    }
  }
}
