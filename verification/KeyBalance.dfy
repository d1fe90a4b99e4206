/** Tailroom accounting: each interface's needed count is its pending decrements plus its
    keys that need tailroom, and a VLAN adds the count of its access point. */
module KeyBalance {
  import opened KeyBooks

  /** Not (in hardware with neither MMIC generation nor reserved tailroom). */
  predicate Needs(key: Key) {
    !(key.uploaded && key.noRoom)
  }

  ghost function Needy(keys: map<KeyId, Key>, i: IfId): set<KeyId> {
    set k | k in keys && keys[k].iface == i && Needs(keys[k])
  }

  /** The interface's own share of its count. */
  function Share(dev: Device, needed: map<IfId, int>, i: IfId): int {
    match KindOf(dev, i)
    case Vlan(m) => Count(needed, i) - Count(needed, m)
    case _ => Count(needed, i)
  }

  /** How far the interface's count is from what it should be. */
  ghost function Gap(dev: Device, b: Books, i: IfId): int {
    Share(dev, b.needed, i) - Count(b.pending, i) - |Needy(b.keys, i)|
  }

  /** Access points and VLANs name each other. */
  ghost predicate Paired(dev: Device) {
    && (forall i, m :: KindOf(dev, i) == Vlan(m) ==> i in Vlans(dev, m))
    && (forall i, v :: v in Vlans(dev, i) ==> KindOf(dev, v) == Vlan(i))
    && (forall i, a, c :: 0 <= a < c < |Vlans(dev, i)| ==> Vlans(dev, i)[a] != Vlans(dev, i)[c])
  }

  ghost predicate Balanced(dev: Device, b: Books) {
    forall i :: Count(b.pending, i) >= 0 && Gap(dev, b, i) == 0
  }

  /** Nothing is in the hardware if it takes no keys. */
  ghost predicate Honest(dev: Device, b: Books) {
    forall k :: k in b.keys && b.keys[k].uploaded ==> dev.setKey
  }

  lemma ShareAdjusted(dev: Device, needed: map<IfId, int>, i: IfId, delta: int, j: IfId)
    requires Paired(dev)
    ensures Share(dev, Adjusted(dev, needed, i, delta), j) == Share(dev, needed, j) + if j == i then delta else 0
  {
  }

  /** How a key's entry or change moves the number of needy keys. */
  function Change(keys: map<KeyId, Key>, k: KeyId, key: Key): int {
    (if Needs(key) then 1 else 0) - (if k in keys && Needs(keys[k]) then 1 else 0)
  }

  lemma NeedyChanges(keys: map<KeyId, Key>, k: KeyId, key: Key, i: IfId)
    requires k in keys ==> keys[k].iface == key.iface
    ensures |Needy(keys[k := key], i)| == |Needy(keys, i)| + if i == key.iface then Change(keys, k, key) else 0
  {
    var change := if i == key.iface then Change(keys, k, key) else 0;
    if change == 1 {
      assert Needy(keys[k := key], i) == Needy(keys, i) + {k};
    } else if change == -1 {
      assert Needy(keys[k := key], i) == Needy(keys, i) - {k};
    } else {
      assert Needy(keys[k := key], i) == Needy(keys, i);
    }
  }

  lemma NeedyWithout(keys: map<KeyId, Key>, k: KeyId, i: IfId)
    requires k in keys
    ensures |Needy(keys - {k}, i)| == |Needy(keys, i)| - if i == keys[k].iface && Needs(keys[k]) then 1 else 0
  {
    if i == keys[k].iface && Needs(keys[k]) {
      assert Needy(keys - {k}, i) == Needy(keys, i) - {k};
    } else {
      assert Needy(keys - {k}, i) == Needy(keys, i);
    }
  }

  /** The step keeps every gap and the sign of the pending counts. */
  ghost predicate Neutral(dev: Device, b: Books, r: Books) {
    forall i :: Gap(dev, r, i) == Gap(dev, b, i) && (Count(b.pending, i) >= 0 ==> Count(r.pending, i) >= 0)
  }

  lemma NeutralTrans(dev: Device, b: Books, t: Books, r: Books)
    requires Neutral(dev, b, t) && Neutral(dev, t, r)
    ensures Neutral(dev, b, r)
  {
    forall i ensures Gap(dev, r, i) == Gap(dev, b, i) && (Count(b.pending, i) >= 0 ==> Count(r.pending, i) >= 0) {
      assert Gap(dev, r, i) == Gap(dev, t, i);
    }
  }

  lemma NeutralBalanced(dev: Device, b: Books, r: Books)
    requires Balanced(dev, b) && Neutral(dev, b, r)
    ensures Balanced(dev, r)
  {
    forall i ensures Count(r.pending, i) >= 0 && Gap(dev, r, i) == 0 {
      assert Gap(dev, b, i) == 0;
    }
  }

  /** A key enters or changes, and its interface's count follows. */
  lemma SwapNeutral(dev: Device, b: Books, k: KeyId, key: Key, r: Books)
    requires Paired(dev) && (k in b.keys ==> b.keys[k].iface == key.iface)
    requires r.keys == b.keys[k := key] && r.pending == b.pending
    requires var delta := Change(b.keys, k, key);
             r.needed == Adjusted(dev, b.needed, key.iface, delta) || (delta == 0 && r.needed == b.needed)
    ensures Neutral(dev, b, r)
  {
    forall i ensures Gap(dev, r, i) == Gap(dev, b, i) {
      NeedyChanges(b.keys, k, key, i);
      ShareAdjusted(dev, b.needed, key.iface, Change(b.keys, k, key), i);
    }
  }

  lemma EnterNeutral(dev: Device, b: Books, k: KeyId, key: Key)
    requires Paired(dev) && k !in b.keys && Needs(key)
    ensures Neutral(dev, b, Enter(dev, b, k, key))
  {
    SwapNeutral(dev, b, k, key, Enter(dev, b, k, key));
  }

  /** Exactly when an upload keeps the counts in step, for any key and answer: unless the key
      was in the hardware already, needing no room, and is withdrawn as tainted or accepted
      a second time. */
  lemma EnableNeutral(dev: Device, b: Books, k: KeyId, drv: Answer)
    requires Paired(dev) && k in b.keys
    ensures var key := b.keys[k];
            Neutral(dev, b, EnableHw(dev, b, k, drv)) <==> Needs(key) || (!key.tainted && !Accepted(dev, key, drv))
  {
    var key, r := b.keys[k], EnableHw(dev, b, k, drv);
    assert b.keys[k := key] == b.keys;
    if Needs(key) || (!key.tainted && !Accepted(dev, key, drv)) {
      SwapNeutral(dev, b, k, r.keys[k], r);
    } else {
      var i := key.iface;
      NeedyChanges(b.keys, k, r.keys[k], i);
      ShareAdjusted(dev, b.needed, i, -1, i);
      assert Gap(dev, r, i) == Gap(dev, b, i) - 1;
    }
  }

  lemma DisableNeutral(dev: Device, b: Books, k: KeyId)
    requires Paired(dev) && Honest(dev, b) && k in b.keys
    ensures var r := DisableHw(dev, b, k);
            Neutral(dev, b, r) && r.keys == b.keys[k := b.keys[k].(uploaded := false)]
  {
    var r := DisableHw(dev, b, k);
    assert b.keys[k := b.keys[k]] == b.keys;
    SwapNeutral(dev, b, k, b.keys[k].(uploaded := false), r);
  }

  lemma WithdrawNeutral(dev: Device, b: Books, k: KeyId)
    requires Paired(dev) && k in b.keys
    ensures var r := Withdraw(dev, b, k);
            Neutral(dev, b, r) && r.keys == b.keys[k := b.keys[k].(uploaded := false)]
  {
    var r := Withdraw(dev, b, k);
    assert b.keys[k := b.keys[k]] == b.keys;
    SwapNeutral(dev, b, k, b.keys[k].(uploaded := false), r);
  }

  /** A key out of the hardware leaves; its need becomes a pending decrement, or is taken
      off at once. */
  lemma LeaveNeutral(dev: Device, b: Books, k: KeyId, delay: bool, r: Books)
    requires Paired(dev) && k in b.keys && !b.keys[k].uploaded
    requires r == GiveUp(dev, b, b.keys[k].iface, delay).(keys := b.keys - {k})
    ensures Neutral(dev, b, r)
  {
    var at := b.keys[k].iface;
    forall i ensures Gap(dev, r, i) == Gap(dev, b, i) && Count(r.pending, i) >= Count(b.pending, i) {
      NeedyWithout(b.keys, k, i);
      ShareAdjusted(dev, b.needed, at, -1, i);
    }
  }

  lemma DestroyNeutral(dev: Device, b: Books, k: KeyId, delay: bool)
    requires Paired(dev) && Honest(dev, b) && k in b.keys
    ensures var r := Destroy(dev, b, k, delay);
            Neutral(dev, b, r) && r.keys == b.keys - {k} && Honest(dev, r)
  {
    var off := DisableHw(dev, b, k);
    var r := Destroy(dev, b, k, delay);
    DisableNeutral(dev, b, k);
    assert r.keys == b.keys - {k};
    LeaveNeutral(dev, off, k, delay, r);
    NeutralTrans(dev, b, off, r);
  }

  lemma PayGap(dev: Device, b: Books, i: IfId, j: IfId)
    requires Paired(dev)
    ensures Gap(dev, Pay(dev, b, i), j) == Gap(dev, b, j)
  {
    var due := Count(b.pending, i);
    ShareAdjusted(dev, b.needed, i, -due, j);
    assert Pay(dev, b, i).needed == Adjusted(dev, b.needed, i, -due);
    assert Pay(dev, b, i).keys == b.keys;
  }

  lemma PayNeutral(dev: Device, b: Books, i: IfId)
    requires Paired(dev)
    ensures Neutral(dev, b, Pay(dev, b, i))
  {
    var r := Pay(dev, b, i);
    forall j ensures Gap(dev, r, j) == Gap(dev, b, j) && (Count(b.pending, j) >= 0 ==> Count(r.pending, j) >= 0) {
      PayGap(dev, b, i, j);
    }
  }

  /** No decrement exceeds the count: it covers all the pending ones and every needy key. */
  lemma CountsSuffice(dev: Device, b: Books, i: IfId)
    requires Paired(dev) && Balanced(dev, b)
    ensures Count(b.needed, i) >= Count(b.pending, i) + |Needy(b.keys, i)|
  {
    assert Gap(dev, b, i) == 0;
    if KindOf(dev, i).Vlan? {
      var m := KindOf(dev, i).master;
      assert KindOf(dev, i) == Vlan(m) && i in Vlans(dev, m);
      assert Gap(dev, b, m) == 0;
    }
  }
}
