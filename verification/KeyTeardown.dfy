/** Freeing all keys of an interface leaves nothing of them: no key, no slot, no count. */
module KeyTeardown {
  import opened VmacTypes
  import opened KeyBooks
  import opened KeySlots
  import opened KeyOperations
  import opened KeyBalance
  import opened KeyWiring
  import opened KeyInvariant

  function Elements(ks: seq<KeyId>): set<KeyId> {
    set k | k in ks
  }

  lemma ElementsOfFront(ks: seq<KeyId>)
    requires ks != [] && Distinct(ks)
    ensures Elements(ks) == Elements(ks[..|ks| - 1]) + {ks[|ks| - 1]}
    ensures ks[|ks| - 1] !in Elements(ks[..|ks| - 1]) && Distinct(ks[..|ks| - 1])
  {
  }

  lemma {:induction false} VacateAllSound(dev: Device, s: Table, flight: set<KeyId>, ks: seq<KeyId>)
    requires Sound(dev, s, flight) && Distinct(ks)
    requires forall k :: k in ks ==> Attached(s.books.keys, flight, k)
    ensures Sound(dev, s.(slots := VacateAll(s.slots, ks, s.books.keys)), flight + Elements(ks))
  {
    if ks == [] {
      assert flight + Elements(ks) == flight;
    } else {
      var front := ks[..|ks| - 1];
      ElementsOfFront(ks);
      VacateAllSound(dev, s, flight, front);
      VacateSound(dev, s.(slots := VacateAll(s.slots, front, s.books.keys)), flight + Elements(front), ks[|ks| - 1]);
      assert flight + Elements(ks) == flight + Elements(front) + {ks[|ks| - 1]};
    }
  }

  lemma {:induction false} DestroyAllRemoves(dev: Device, b: Books, ks: seq<KeyId>)
    requires Paired(dev) && Honest(dev, b) && Distinct(ks) && Elements(ks) <= b.keys.Keys
    ensures var r := DestroyAll(dev, b, ks);
            r.keys == b.keys - Elements(ks) && r.pending == b.pending && Honest(dev, r)
  {
    if ks == [] {
      assert b.keys - Elements(ks) == b.keys;
    } else {
      var front, k := ks[..|ks| - 1], ks[|ks| - 1];
      ElementsOfFront(ks);
      DestroyAllRemoves(dev, b, front);
      DestroyNeutral(dev, DestroyAll(dev, b, front), k, false);
      assert b.keys - Elements(front) - {k} == b.keys - Elements(ks);
    }
  }

  lemma {:induction false} DestroyAllSound(dev: Device, s: Table, flight: set<KeyId>, ks: seq<KeyId>)
    requires Paired(dev) && Sound(dev, s, flight) && Distinct(ks)
    requires Elements(ks) <= flight && Elements(ks) <= s.books.keys.Keys
    ensures Sound(dev, s.(books := DestroyAll(dev, s.books, ks)), flight - Elements(ks))
  {
    if ks == [] {
      assert flight - Elements(ks) == flight;
    } else {
      var front, k := ks[..|ks| - 1], ks[|ks| - 1];
      ElementsOfFront(ks);
      DestroyAllSound(dev, s, flight, front);
      DestroyAllRemoves(dev, s.books, front);
      var t := s.(books := DestroyAll(dev, s.books, front));
      var left := flight - Elements(front);
      assert left - {k} == flight - Elements(ks);
      DestroySound(dev, t, left, k, false);
    }
  }

  lemma ListedKeys(dev: Device, s: Table, flight: set<KeyId>, i: IfId)
    requires Sound(dev, s, flight)
    ensures var ks := Listed(s.slots.lists, i);
            Distinct(ks) && forall k :: k in ks <==> Attached(s.books.keys, flight, k) && s.books.keys[k].iface == i
  {
    assert OnLists(s.books.keys, flight, s.slots.lists);
  }

  lemma FreeIfaceSound(dev: Device, s: Table, flight: set<KeyId>, i: IfId)
    requires Paired(dev) && Sound(dev, s, flight)
    ensures var r := FreeIface(dev, s, i);
            Sound(dev, r, flight + Elements(Listed(s.slots.lists, i)))
  {
    var ks := Listed(s.slots.lists, i);
    forall k | k in ks ensures Attached(s.books.keys, flight, k) {}
    VacateAllSound(dev, s, flight, ks);
    PaySound(dev, s.(slots := VacateAll(s.slots, ks, s.books.keys)), flight + Elements(ks), i);
  }

  /** The keys of the members, each once. */
  ghost predicate Gathered(keys: map<KeyId, Key>, got: seq<KeyId>, members: seq<IfId>) {
    Distinct(got) && forall k :: k in got <==> k in keys && keys[k].iface in members
  }

  lemma GatherMore(keys: map<KeyId, Key>, got: seq<KeyId>, members: seq<IfId>, ks: seq<KeyId>, i: IfId)
    requires Gathered(keys, got, members) && i !in members
    requires Distinct(ks) && forall k :: k in ks <==> Attached(keys, Elements(got), k) && keys[k].iface == i
    ensures Gathered(keys, got + ks, members + [i])
  {
    forall a, c | 0 <= a < c < |got + ks| ensures (got + ks)[a] != (got + ks)[c] {
      if a < |got| <= c {
        assert got[a] in got && ks[c - |got|] in ks;
      }
    }
    forall k ensures k in got + ks <==> k in keys && keys[k].iface in members + [i] {
      assert k in ks <==> Attached(keys, Elements(got), k) && keys[k].iface == i;
      assert k in got <==> k in keys && keys[k].iface in members;
    }
  }

  lemma ElementsJoin(ks: seq<KeyId>, more: seq<KeyId>)
    ensures Elements(ks + more) == Elements(ks) + Elements(more)
  {
  }

  lemma {:induction false} CollectPays(dev: Device, s: Table, members: seq<IfId>)
    ensures var t := Collect(dev, s, members).0;
            && t.books.keys == s.books.keys
            && (forall i :: i in members ==> Count(t.books.pending, i) == 0)
  {
    if members != [] {
      var front, i := members[..|members| - 1], members[|members| - 1];
      CollectPays(dev, s, front);
      var t := Collect(dev, s, front).0;
      assert Collect(dev, s, members).0.books.pending == t.books.pending[i := 0];
      forall j | j in members ensures Count(t.books.pending[i := 0], j) == 0 {
        assert j == i || j in front;
      }
    }
  }

  lemma {:induction false} CollectSound(dev: Device, s: Table, members: seq<IfId>)
    requires Paired(dev) && Sound(dev, s, {}) && Distinct(members)
    ensures var (t, got) := Collect(dev, s, members);
            && Sound(dev, t, Elements(got))
            && Gathered(s.books.keys, got, members)
  {
    if members == [] {
      assert Elements([]) == {};
    } else {
      var front, i := members[..|members| - 1], members[|members| - 1];
      assert members == front + [i];
      ElementsOfFront(members);
      assert i !in front by { assert i !in Elements(front); }
      CollectSound(dev, s, front);
      CollectPays(dev, s, front);
      var (t, got) := Collect(dev, s, front);
      var ks := Listed(t.slots.lists, i);
      FreeIfaceSound(dev, t, Elements(got), i);
      ElementsJoin(got, ks);
      ListedKeys(dev, t, Elements(got), i);
      GatherMore(t.books.keys, got, front, ks, i);
    }
  }

  lemma MembersDistinct(dev: Device, i: IfId)
    requires Paired(dev)
    ensures Distinct(Members(dev, i))
  {
    assert i !in Vlans(dev, i);
  }

  /** ieee80211_free_keys keeps the bookkeeping sound and removes exactly the keys of the
      interface and its VLANs. */
  lemma FreeKeysSound(dev: Device, s: Table, i: IfId)
    requires Paired(dev) && Sound(dev, s, {})
    ensures var r := FreeKeys(dev, s, i);
            && Sound(dev, r, {})
            && (forall k :: k in r.books.keys <==> k in s.books.keys && s.books.keys[k].iface !in Members(dev, i))
            && (forall k :: k in r.books.keys ==> r.books.keys[k] == s.books.keys[k])
            && (forall j :: j in Members(dev, i) ==> Count(r.books.pending, j) == 0)
  {
    MembersDistinct(dev, i);
    CollectSound(dev, s, Members(dev, i));
    CollectPays(dev, s, Members(dev, i));
    var (t, got) := Collect(dev, s, Members(dev, i));
    DestroyAllSound(dev, t, Elements(got), got);
    DestroyAllRemoves(dev, t.books, got);
    assert Elements(got) - Elements(got) == {};
  }

  lemma SharesGone(dev: Device, s: Table, i: IfId, j: IfId)
    requires Paired(dev) && Sound(dev, s, {}) && j in Members(dev, i)
    ensures var r := FreeKeys(dev, s, i).books;
            Share(dev, r.needed, j) == 0 == Count(r.pending, j)
  {
    FreeKeysSound(dev, s, i);
    var r := FreeKeys(dev, s, i).books;
    assert Gap(dev, r, j) == 0;
    assert Needy(r.keys, j) == {};
  }

  /** No WARN_ON at the end of ieee80211_free_keys fires: an access point and its VLANs, or
      any interface that is not a VLAN, end at zero, and a lone VLAN ends at its master's
      count. */
  lemma TeardownBalances(dev: Device, s: Table, i: IfId)
    requires Paired(dev) && Sound(dev, s, {})
    ensures var r := FreeKeys(dev, s, i).books;
            match KindOf(dev, i)
            case Vlan(m) => Count(r.needed, i) == Count(r.needed, m) && Count(r.pending, i) == 0
            case _ => forall j :: j in Members(dev, i) ==> Count(r.needed, j) == 0 == Count(r.pending, j)
  {
    SharesGone(dev, s, i, i);
    var r := FreeKeys(dev, s, i).books;
    forall j | j in Vlans(dev, i) ensures Count(r.needed, j) == 0 == Count(r.pending, j) {
      assert KindOf(dev, j) == Vlan(i);
      SharesGone(dev, s, i, j);
    }
  }

  /** Exactly the keys that satisfy `gone` have left. */
  ghost predicate Left(keys: map<KeyId, Key>, r: map<KeyId, Key>, gone: Key -> bool) {
    && (forall k :: k in r ==> k in keys && r[k] == keys[k])
    && (forall k :: k in keys ==> (k in r <==> !gone(keys[k])))
  }

  lemma LeftTwice(
    keys: map<KeyId, Key>, t: map<KeyId, Key>, r: map<KeyId, Key>, f: Key -> bool, g: Key -> bool, h: Key -> bool)
    requires Left(keys, t, f) && Left(t, r, g) && forall x :: h(x) <==> f(x) || g(x)
    ensures Left(keys, r, h)
  {
    forall k | k in keys ensures k in r <==> !h(keys[k]) {
      assert k in t <==> !f(keys[k]);
    }
  }

  predicate InRow(key: Key, t: StaId, group: bool, n: nat) {
    key.sta == Some(t) && key.pairwise != group && key.idx < n
  }

  lemma RowGrows(key: Key, t: StaId, group: bool, n: nat)
    ensures InRow(key, t, group, n + 1) <==> InRow(key, t, group, n) || PlaceOf(key) == NextPlace(t, group, n)
  {
  }

  lemma {:induction false} PlacesFreed(dev: Device, s: Table, t: StaId, group: bool, n: nat)
    requires Paired(dev) && Sound(dev, s, {})
    ensures Left(s.books.keys, FreePlaces(dev, s, t, group, n).books.keys, (x: Key) => InRow(x, t, group, n))
  {
    if n > 0 {
      var front, p := FreePlaces(dev, s, t, group, n - 1), NextPlace(t, group, n - 1);
      PlacesFreed(dev, s, t, group, n - 1);
      FreePlacesSound(dev, s, t, group, n - 1);
      FreedAt(dev, front, p);
      var f, g := (x: Key) => InRow(x, t, group, n - 1), (x: Key) => PlaceOf(x) == p;
      var h := (x: Key) => InRow(x, t, group, n);
      forall x: Key ensures h(x) <==> f(x) || g(x) { RowGrows(x, t, group, n - 1); }
      LeftTwice(s.books.keys, front.books.keys, FreeAt(dev, front, p).books.keys, f, g, h);
    }
  }

  lemma FreedAt(dev: Device, s: Table, p: Place)
    requires Paired(dev) && Sound(dev, s, {})
    ensures Left(s.books.keys, FreeAt(dev, s, p).books.keys, (x: Key) => PlaceOf(x) == p)
  {
    var k := Held(s.slots.at, p);
    if k.Some? {
      FreeSound(dev, s, k.value, true);
      DestroyNeutral(dev, s.books, k.value, true);
    }
    forall x | x in s.books.keys ensures PlaceOf(s.books.keys[x]) == p <==> k == Some(x) {
      assert Attached(s.books.keys, {}, x);
    }
  }

  /** ieee80211_free_sta_keys removes exactly the keys of the station. */
  lemma StationFreed(dev: Device, s: Table, t: StaId)
    requires Paired(dev) && Sound(dev, s, {})
    ensures var r := FreeStation(dev, s, t);
            Sound(dev, r, {}) && Left(s.books.keys, r.books.keys, (x: Key) => x.sta == Some(t))
  {
    var mid := FreePlaces(dev, s, t, true, ALL_KEYS);
    FreePlacesSound(dev, s, t, true, ALL_KEYS);
    FreePlacesSound(dev, mid, t, false, DEFAULT_KEYS);
    PlacesFreed(dev, s, t, true, ALL_KEYS);
    PlacesFreed(dev, mid, t, false, DEFAULT_KEYS);
    forall k | k in s.books.keys
      ensures k in FreeStation(dev, s, t).books.keys <==> s.books.keys[k].sta != Some(t)
    {
      assert Exists(PlaceOf(s.books.keys[k]));
    }
  }
}
