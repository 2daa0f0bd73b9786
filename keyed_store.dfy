/** The key-to-entry table of a schema collection, as values: the map
    itself, and the order in which a scan of the hash table visits its keys.

    The order of a scan is whatever the buckets and chains make it. The
    model leaves it abstract except for two things: every key is visited
    exactly once, and inserting or removing one key leaves the relative
    order of the others as it was. The second is an assumption of the model:
    libxml2 rehashes the whole table when it grows, and nothing in the
    collection depends on the order. */
module KeyedStore {

  /** Namespace URIs, compared exactly. */
  type Key = string

  /** The keys `s` visits. */
  function Elems(s: seq<Key>): set<Key> {
    set k | k in s
  }

  /** `s` visits every key of `keys`, each exactly once: its first key is
      one of them and the rest visits the others. */
  predicate IsScanOf(s: seq<Key>, keys: set<Key>) {
    if s == [] then keys == {}
    else s[0] in keys && IsScanOf(s[1..], keys - {s[0]})
  }

  /** A scan visits as many keys as the table holds, so `get_length` and the
      range check of `get_namespaceURI` agree with the scan. */
  lemma {:induction false} ScanLength(s: seq<Key>, keys: set<Key>)
    requires IsScanOf(s, keys)
    ensures |s| == |keys|
  {
    if s != [] {
      ScanLength(s[1..], keys - {s[0]});
    }
  }

  /** A scan visits exactly the table's keys. */
  lemma {:induction false} ScanElems(s: seq<Key>, keys: set<Key>)
    requires IsScanOf(s, keys)
    ensures Elems(s) == keys
  {
    if s != [] {
      ScanElems(s[1..], keys - {s[0]});
      assert s == [s[0]] + s[1..];
      assert Elems(s) == {s[0]} + Elems(s[1..]);
    }
  }

  /** Visiting one key more adds that key. */
  lemma ElemsStep(s: seq<Key>, i: nat)
    requires i < |s|
    ensures Elems(s[..i + 1]) == Elems(s[..i]) + {s[i]}
  {
  }

  /** In a scan, the key at position `i` was not visited before. */
  lemma {:induction false} ElemsFresh(s: seq<Key>, keys: set<Key>, i: nat)
    requires IsScanOf(s, keys) && i < |s|
    ensures s[i] !in Elems(s[..i])
  {
    if i > 0 {
      ElemsFresh(s[1..], keys - {s[0]}, i - 1);
      ScanElems(s[1..], keys - {s[0]});
      assert s[..i] == [s[0]] + s[1..][..i - 1];
      assert s[i] == s[1..][i - 1];
      assert s[i] in Elems(s[1..]);
      assert Elems(s[..i]) == {s[0]} + Elems(s[1..][..i - 1]);
    }
  }

  /** `s` without the keys in `ks`, the others in their order. */
  function Drop(s: seq<Key>, ks: set<Key>): (r: seq<Key>)
    ensures |r| <= |s|
  {
    if s == [] then []
    else (if s[0] in ks then [] else [s[0]]) + Drop(s[1..], ks)
  }

  lemma {:induction false} DropConcat(a: seq<Key>, b: seq<Key>, ks: set<Key>)
    ensures Drop(a + b, ks) == Drop(a, ks) + Drop(b, ks)
  {
    if a == [] {
      assert a + b == b;
    } else {
      assert (a + b)[0] == a[0];
      assert (a + b)[1..] == a[1..] + b;
      DropConcat(a[1..], b, ks);
    }
  }

  /** Inserting a dropped key anywhere does not change what remains. */
  lemma DropInsert(s: seq<Key>, p: nat, k: Key, ks: set<Key>)
    requires p <= |s| && k in ks
    ensures Drop(s[..p] + [k] + s[p..], ks) == Drop(s, ks)
  {
    var pre, post := s[..p], s[p..];
    assert Drop([k], ks) == [] by {
      assert [k][1..] == [];
    }
    DropConcat(pre + [k], post, ks);
    DropConcat(pre, [k], ks);
    assert Drop(pre + [k], ks) == Drop(pre, ks);
    DropConcat(pre, post, ks);
    assert pre + post == s;
  }

  /** Dropping no key that occurs is the identity. */
  lemma {:induction false} DropNone(s: seq<Key>, ks: set<Key>)
    requires Elems(s) !! ks
    ensures Drop(s, ks) == s
  {
    if s != [] {
      assert s[0] in Elems(s);
      assert Elems(s[1..]) <= Elems(s);
      DropNone(s[1..], ks);
    }
  }

  /** Dropping two sets of keys one after the other is dropping their
      union. */
  lemma {:induction false} DropUnion(s: seq<Key>, a: set<Key>, b: set<Key>)
    ensures Drop(s, a + b) == Drop(Drop(s, b), a)
  {
    if s != [] {
      DropUnion(s[1..], a, b);
      if s[0] !in b {
        assert Drop(s, b) == [s[0]] + Drop(s[1..], b);
        assert Drop(s, b)[1..] == Drop(s[1..], b);
      } else {
        assert Drop(s, b) == Drop(s[1..], b);
      }
    }
  }

  /** Dropping keys from a scan leaves a scan of the remaining keys. */
  lemma {:induction false} DropScan(s: seq<Key>, keys: set<Key>, ks: set<Key>)
    requires IsScanOf(s, keys)
    ensures IsScanOf(Drop(s, ks), keys - ks)
  {
    if s != [] {
      DropScan(s[1..], keys - {s[0]}, ks);
      if s[0] in ks {
        assert keys - {s[0]} - ks == keys - ks;
        assert Drop(s, ks) == Drop(s[1..], ks);
      } else {
        var r := Drop(s, ks);
        assert r == [s[0]] + Drop(s[1..], ks);
        assert r[1..] == Drop(s[1..], ks);
        assert keys - {s[0]} - ks == (keys - ks) - {s[0]};
      }
    }
  }

  /** Inserting a new key anywhere in a scan gives a scan of the larger key
      set. */
  lemma {:induction false} InsertScan(s: seq<Key>, keys: set<Key>, p: nat, k: Key)
    requires IsScanOf(s, keys) && k !in keys && p <= |s|
    ensures IsScanOf(s[..p] + [k] + s[p..], keys + {k})
  {
    var t := s[..p] + [k] + s[p..];
    if p == 0 {
      assert t == [k] + s;
      assert t[1..] == s;
      assert (keys + {k}) - {k} == keys;
    } else {
      var rest := s[1..];
      InsertScan(rest, keys - {s[0]}, p - 1, k);
      var u := rest[..p - 1] + [k] + rest[p - 1..];
      assert t == [s[0]] + u;
      assert t[1..] == u;
      assert (keys - {s[0]}) + {k} == (keys + {k}) - {s[0]};
    }
  }

  /** `s` with `k` inserted at position `p`. */
  function InsertAt(s: seq<Key>, p: nat, k: Key): (r: seq<Key>)
    requires p <= |s|
    ensures |r| == |s| + 1
  {
    s[..p] + [k] + s[p..]
  }

  /** Inserting a new key anywhere in a scan gives a scan of the larger key
      set in which the other keys keep their order. */
  lemma InsertAtScan(s: seq<Key>, keys: set<Key>, p: nat, k: Key)
    requires IsScanOf(s, keys) && k !in keys && p <= |s|
    ensures IsScanOf(InsertAt(s, p, k), keys + {k})
    ensures k in InsertAt(s, p, k)
    ensures Drop(InsertAt(s, p, k), {k}) == s
  {
    InsertScan(s, keys, p, k);
    DropInsert(s, p, k, {k});
    ScanElems(s, keys);
    DropNone(s, {k});
    assert InsertAt(s, p, k)[p] == k;
  }

  /** Merging `other` into `self`: every key of either, `self` winning where
      both have one. */
  function Merged<V>(self: map<Key, V>, other: map<Key, V>): (m: map<Key, V>)
    ensures m.Keys == self.Keys + other.Keys
    ensures forall k :: k in self ==> m[k] == self[k]
    ensures forall k :: k in other && k !in self ==> m[k] == other[k]
  {
    other + self
  }

  /** The pairs of `m` whose key is in `ks`. */
  function Restrict<V>(m: map<Key, V>, ks: set<Key>): (r: map<Key, V>)
    ensures r.Keys == m.Keys * ks
    ensures forall k :: k in r ==> r[k] == m[k]
  {
    map k | k in m && k in ks :: m[k]
  }

  /** Restricting to a superset of the keys changes nothing. */
  lemma RestrictAll<V>(m: map<Key, V>, ks: set<Key>)
    requires m.Keys <= ks
    ensures Restrict(m, ks) == m
  {
  }

  /** Merging the same collection twice adds nothing the second time. */
  lemma MergeIdempotent<V>(self: map<Key, V>, other: map<Key, V>)
    ensures Merged(Merged(self, other), other) == Merged(self, other)
  {
  }

  /** A merge grows the table by exactly the keys `self` did not have. */
  lemma MergedSize<V>(self: map<Key, V>, other: map<Key, V>)
    ensures |Merged(self, other)| == |self| + |other.Keys - self.Keys|
  {
  }

  /** Merging a collection into itself changes nothing. */
  lemma MergeSelf<V>(self: map<Key, V>)
    ensures Merged(self, self) == self
  {
  }

  /** One step of a merge that visits the keys of `other` one by one: the
      key is new to the merge exactly when `self` lacks it, and then it is
      the only key the step adds. */
  lemma MergeVisit<V>(self: map<Key, V>, other: map<Key, V>, done: set<Key>, k: Key)
    requires k in other && k !in done
    ensures var m := Merged(self, Restrict(other, done));
      && (k in m <==> k in self)
      && (k in self ==> Merged(self, Restrict(other, done + {k})) == m)
      && (k !in self ==> Merged(self, Restrict(other, done + {k})) == m[k := other[k]])
      && (k !in self ==> m[k := other[k]].Keys - self.Keys == (m.Keys - self.Keys) + {k})
  {
  }

  /** Storing under a key adds that key. */
  lemma StoreKeys<V>(m: map<Key, V>, k: Key, v: V)
    ensures m[k := v].Keys == m.Keys + {k}
  {
  }

  /** Storing under a key after removing it is storing over it. */
  lemma RemoveThenStore<V>(m: map<Key, V>, k: Key, v: V)
    ensures (m - {k})[k := v] == m[k := v]
  {
  }

  /** Removing a key shrinks the table by one exactly when it was there. */
  lemma RemovedSize<V>(m: map<Key, V>, k: Key)
    ensures |m - {k}| == if k in m then |m| - 1 else |m|
  {
  }

  /** Removing a key twice removes it once: the table and the scan order
      the second `remove` leaves are those the first left. */
  lemma RemoveIdempotent<V>(m: map<Key, V>, s: seq<Key>, k: Key)
    ensures (m - {k}) - {k} == m - {k}
    ensures Drop(Drop(s, {k}), {k}) == Drop(s, {k})
  {
    DropUnion(s, {k}, {k});
    assert {k} + {k} == {k};
  }

  /** Storing under a key grows the table only when the key is new: a
      replacing `add` does not change the length. */
  lemma ReplacedSize<V>(m: map<Key, V>, k: Key, v: V)
    ensures |m[k := v]| == if k in m then |m| else |m| + 1
  {
  }
}
