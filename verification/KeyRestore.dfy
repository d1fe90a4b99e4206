/** Bringing an interface up again: its count is reset and its keys are enabled anew. */
module KeyRestore {
  import opened KeyBooks
  import opened KeyBalance
  import opened KeyOperations
  import opened KeyWiring
  import opened KeyTeardown

  /** A key that still claims to be in the hardware without tailroom, and is refused. */
  predicate Stale(dev: Device, key: Key, drv: Answer) {
    !Needs(key) && !key.tainted && !Accepted(dev, key, drv)
  }

  lemma TurnShare(dev: Device, b: Books, k: KeyId, drv: KeyId -> Answer, i: IfId)
    requires Paired(dev) && k in b.keys
    ensures var key := b.keys[k];
            Share(dev, EnableTurn(dev, b, k, drv).needed, i) == Share(dev, b.needed, i) +
              if i != key.iface || (Accepted(dev, key, drv(k)) && drv(k).noRoom) then 0 else 1
  {
    var i0 := b.keys[k].iface;
    ShareAdjusted(dev, b.needed, i0, 1, i);
    ShareAdjusted(dev, Adjusted(dev, b.needed, i0, 1), i0, -1, i);
  }

  lemma TurnKey(dev: Device, b: Books, k: KeyId, drv: KeyId -> Answer)
    requires k in b.keys
    ensures var r := EnableTurn(dev, b, k, drv);
            && k in r.keys && r.keys == b.keys[k := r.keys[k]] && r.pending == b.pending
            && r.keys[k].iface == b.keys[k].iface
            && (Needs(r.keys[k]) <==>
                 !(Accepted(dev, b.keys[k], drv(k)) && drv(k).noRoom) && !Stale(dev, b.keys[k], drv(k)))
  {
    assert b.keys[k := b.keys[k]] == b.keys;
  }

  lemma TurnGap(dev: Device, b: Books, k: KeyId, drv: KeyId -> Answer, i: IfId)
    requires Paired(dev) && k in b.keys
    ensures var key := b.keys[k];
            Gap(dev, EnableTurn(dev, b, k, drv), i) == Gap(dev, b, i) +
              if i != key.iface then 0 else if Needs(key) || Stale(dev, key, drv(k)) then 1 else 0
  {
    TurnShare(dev, b, k, drv, i);
    TurnKey(dev, b, k, drv);
    NeedyChanges(b.keys, k, EnableTurn(dev, b, k, drv).keys[k], i);
  }

  /** The keys of ks that raise the count more than they raise the need. */
  ghost function Raised(dev: Device, keys: map<KeyId, Key>, ks: seq<KeyId>, drv: KeyId -> Answer): set<KeyId> {
    set k | k in ks && k in keys && (Needs(keys[k]) || Stale(dev, keys[k], drv(k)))
  }

  lemma {:induction false} EnableKeeps(dev: Device, b: Books, ks: seq<KeyId>, drv: KeyId -> Answer, k: KeyId)
    requires k in b.keys
    ensures var r := EnableAll(dev, b, ks, drv).keys;
            k in r && r[k].iface == b.keys[k].iface && (k !in ks ==> r[k] == b.keys[k])
  {
    if ks != [] {
      var front, last := ks[..|ks| - 1], ks[|ks| - 1];
      assert ks == front + [last];
      EnableKeeps(dev, b, front, drv, k);
      var t := EnableAll(dev, b, front, drv);
      if last in t.keys { TurnKey(dev, t, last, drv); }
    }
  }

  lemma {:induction false} EnableGap(dev: Device, b: Books, ks: seq<KeyId>, drv: KeyId -> Answer, i: IfId)
    requires Paired(dev) && Distinct(ks) && forall k :: k in ks ==> k in b.keys && b.keys[k].iface == i
    ensures Gap(dev, EnableAll(dev, b, ks, drv), i) == Gap(dev, b, i) + |Raised(dev, b.keys, ks, drv)|
  {
    if ks == [] {
      assert Raised(dev, b.keys, ks, drv) == {};
    } else {
      var front, k := ks[..|ks| - 1], ks[|ks| - 1];
      assert ks == front + [k];
      ElementsOfFront(ks);
      assert k !in front by { assert k !in Elements(front); }
      EnableGap(dev, b, front, drv, i);
      EnableKeeps(dev, b, front, drv, k);
      TurnGap(dev, EnableAll(dev, b, front, drv), k, drv, i);
      RaisedMore(dev, b.keys, front, k, drv);
    }
  }

  lemma RaisedMore(dev: Device, keys: map<KeyId, Key>, ks: seq<KeyId>, k: KeyId, drv: KeyId -> Answer)
    requires k !in ks && k in keys
    ensures |Raised(dev, keys, ks + [k], drv)| == |Raised(dev, keys, ks, drv)| +
              if Needs(keys[k]) || Stale(dev, keys[k], drv(k)) then 1 else 0
  {
    assert Raised(dev, keys, ks + [k], drv) == Raised(dev, keys, ks, drv) +
        if Needs(keys[k]) || Stale(dev, keys[k], drv(k)) then {k} else {};
  }

  lemma {:induction false} EnableElsewhere(
    dev: Device, b: Books, ks: seq<KeyId>, drv: KeyId -> Answer, i: IfId, j: IfId)
    requires Paired(dev) && Distinct(ks) && (forall k :: k in ks ==> k in b.keys && b.keys[k].iface == i) && j != i
    ensures Gap(dev, EnableAll(dev, b, ks, drv), j) == Gap(dev, b, j)
  {
    if ks != [] {
      var front, k := ks[..|ks| - 1], ks[|ks| - 1];
      ElementsOfFront(ks);
      assert k !in front by { assert k !in Elements(front); }
      EnableElsewhere(dev, b, front, drv, i, j);
      EnableKeeps(dev, b, front, drv, k);
      TurnGap(dev, EnableAll(dev, b, front, drv), k, drv, j);
    }
  }

  ghost function Stales(dev: Device, keys: map<KeyId, Key>, ks: seq<KeyId>, drv: KeyId -> Answer): set<KeyId> {
    set k | k in ks && k in keys && Stale(dev, keys[k], drv(k))
  }

  lemma RaisedIs(dev: Device, keys: map<KeyId, Key>, ks: seq<KeyId>, drv: KeyId -> Answer, i: IfId)
    requires forall k :: k in ks <==> k in keys && keys[k].iface == i
    ensures |Raised(dev, keys, ks, drv)| == |Needy(keys, i)| + |Stales(dev, keys, ks, drv)|
  {
    assert Raised(dev, keys, ks, drv) == Needy(keys, i) + Stales(dev, keys, ks, drv);
    assert Needy(keys, i) !! Stales(dev, keys, ks, drv);
  }

  /** From a share of zero, as a reset leaves it, ieee80211_enable_keys balances the interface
      exactly if as many stale keys are refused as decrements are pending. */
  lemma EnableRestores(dev: Device, b: Books, ks: seq<KeyId>, drv: KeyId -> Answer, i: IfId)
    requires Paired(dev) && Share(dev, b.needed, i) == 0
    requires Distinct(ks) && forall k :: k in ks <==> k in b.keys && b.keys[k].iface == i
    ensures Gap(dev, EnableAll(dev, b, ks, drv), i) == 0 <==> |Stales(dev, b.keys, ks, drv)| == Count(b.pending, i)
  {
    EnableGap(dev, b, ks, drv, i);
    RaisedIs(dev, b.keys, ks, drv, i);
  }

  /** A count that starts at zero or above never falls below while keys are enabled. */
  lemma {:induction false} EnableCounts(dev: Device, b: Books, ks: seq<KeyId>, drv: KeyId -> Answer, i: IfId)
    requires Paired(dev) && Count(b.needed, i) >= 0 && forall k :: k in ks ==> k in b.keys && b.keys[k].iface == i
    ensures Count(EnableAll(dev, b, ks, drv).needed, i) >= 0
  {
    if ks != [] {
      var front, k := ks[..|ks| - 1], ks[|ks| - 1];
      assert ks == front + [k];
      EnableCounts(dev, b, front, drv, i);
      EnableKeeps(dev, b, front, drv, k);
    }
  }

  /** A reset takes the share of an interface and of its VLANs, whatever it was; a VLAN that
      is reset alone owes its master's count. No other interface's share moves. */
  lemma ResetShares(dev: Device, needed: map<IfId, int>, i: IfId, j: IfId)
    requires Paired(dev)
    ensures var after := Reset(needed, Members(dev, i));
            Share(dev, after, j) ==
              if j !in Members(dev, i) then Share(dev, needed, j)
              else if KindOf(dev, i).Vlan? then -Count(needed, KindOf(dev, i).master)
              else 0
  {
    var kind := KindOf(dev, j);
    if kind.Vlan? {
      assert kind == Vlan(kind.master) && j in Vlans(dev, kind.master);
    }
    if j in Vlans(dev, i) { assert kind == Vlan(i); }
  }
}
