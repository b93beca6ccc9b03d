/**
  dict.c: a dictionary of byte keys over the hash index, refining a map together with the
  order in which its keys were inserted.

  destroyNotify is modelled by the sequence of values it has been called on.
 */
module Dict {
  import opened HashHandle
  import opened HashIndex
  import opened Seqs
  import opened StableOrder

  ghost function KeysOf<V>(s: seq<Handle<V>>): seq<Key> {
    seq(|s|, i requires 0 <= i < |s| => s[i].key)
  }

  /** The items are exactly the owners of the keys, one item per key. */
  ghost predicate Owned<V>(s: seq<Handle<V>>, owner: map<Key, Handle<V>>) {
    && (forall h {:trigger h in s} | h in s :: h.key in owner && owner[h.key] == h)
    && (forall k {:trigger k in owner} | k in owner :: owner[k] in s && owner[k].key == k)
  }

  ghost predicate DataMatches<V>(owner: map<Key, Handle<V>>, contents: map<Key, V>)
    reads owner.Values`data
  {
    && owner.Keys == contents.Keys
    && forall k {:trigger contents[k]} {:trigger owner[k].data} | k in owner :: contents[k] == owner[k].data
  }

  lemma OwnedWithout<V>(s: seq<Handle<V>>, owner: map<Key, Handle<V>>, k: nat)
    requires Owned(s, owner) && Distinct(s) && k < |s|
    ensures Owned(Without(s, k), owner - {s[k].key})
    ensures KeysOf(Without(s, k)) == Without(KeysOf(s), k)
  {
    WithoutMembers(s, k);
    var r := Without(s, k);
    assert s[k] in s;
    forall h | h in r ensures h.key in owner - {s[k].key} && owner[h.key] == h {
      assert h in s && h != s[k];
    }
    assert KeysOf(r) == Without(KeysOf(s), k);
  }

  lemma OwnedAdded<V>(s: seq<Handle<V>>, owner: map<Key, Handle<V>>, add: Handle<V>)
    requires Owned(s, owner) && add.key !in owner
    ensures Owned(s + [add], owner[add.key := add])
    ensures KeysOf(s + [add]) == KeysOf(s) + [add.key]
  {
    var r := s + [add];
    forall h | h in r ensures h.key in owner[add.key := add] && owner[add.key := add][h.key] == h {
      assert h == add || h in s;
    }
  }

  lemma MatchesWithout<V>(owner: map<Key, Handle<V>>, contents: map<Key, V>, key: Key)
    requires DataMatches(owner, contents)
    ensures DataMatches(owner - {key}, contents - {key})
  {
    var owner', contents' := owner - {key}, contents - {key};
    forall k | k in owner' ensures contents'[k] == owner'[k].data {
      assert contents[k] == owner[k].data;
    }
  }

  lemma MatchesAdded<V>(owner: map<Key, Handle<V>>, contents: map<Key, V>, add: Handle<V>)
    requires DataMatches(owner, contents)
    ensures DataMatches(owner[add.key := add], contents[add.key := add.data])
  {
    var owner', contents' := owner[add.key := add], contents[add.key := add.data];
    forall k | k in owner' ensures contents'[k] == owner'[k].data {
      assert k != add.key ==> contents[k] == owner[k].data;
    }
  }

  lemma KeyAt<V>(s: seq<Handle<V>>, owner: map<Key, Handle<V>>, k: nat)
    requires Owned(s, owner) && k < |s|
    ensures s[k].key in owner && owner[s[k].key] == s[k]
  {
    assert s[k] in s;
  }

  lemma KeyOwned<V>(s: seq<Handle<V>>, owner: map<Key, Handle<V>>, key: Key)
    requires Owned(s, owner)
    ensures key in owner <==> exists i | 0 <= i < |s| :: s[i].key == key
    ensures key in owner <==> key in KeysOf(s)
  {
    if key in owner {
      var i :| 0 <= i < |s| && s[i] == owner[key];
      assert KeysOf(s)[i] == key;
    }
    if key in KeysOf(s) {
      var i :| 0 <= i < |s| && KeysOf(s)[i] == key;
      KeyAt(s, owner, i);
    }
    if i :| 0 <= i < |s| && s[i].key == key {
      KeyAt(s, owner, i);
    }
  }

  // ---------------------------------------------------------------- the default order

  /** memcmp over the first `n` bytes. */
  function Memcmp(a: Key, b: Key, n: nat): int
    requires n <= |a| && n <= |b|
    decreases n
  {
    if n == 0 then 0
    else if a[0] < b[0] then -1
    else if a[0] > b[0] then 1
    else Memcmp(a[1..], b[1..], n - 1)
  }

  /** fcitx_dict_item_default_compare */
  function DefaultCompare(a: Key, b: Key): int {
    var r := Memcmp(a, b, if |a| < |b| then |a| else |b|);
    if r != 0 then r else if |a| < |b| then -1 else if |a| > |b| then 1 else 0
  }

  lemma DefaultCompareStep(a: Key, b: Key)
    requires a != [] && b != []
    ensures DefaultCompare(a, b) ==
            if a[0] < b[0] then -1 else if a[0] > b[0] then 1 else DefaultCompare(a[1..], b[1..])
  {
  }

  /** The default comparison is a total order on keys: it tells different keys apart. */
  lemma {:induction false} DefaultCompareTotal(a: Key, b: Key)
    ensures DefaultCompare(a, b) == -DefaultCompare(b, a)
    ensures DefaultCompare(a, b) == 0 <==> a == b
    decreases |a|
  {
    if a == [] || b == [] {
    } else {
      DefaultCompareStep(a, b);
      DefaultCompareStep(b, a);
      DefaultCompareTotal(a[1..], b[1..]);
      assert a == [a[0]] + a[1..] && b == [b[0]] + b[1..];
    }
  }

  /** At byte `i` the keys part, and `a` is the one with the smaller byte. */
  predicate SmallerAt(a: Key, b: Key, i: nat) {
    i < |a| && i < |b| && a[..i] == b[..i] && a[i] < b[i]
  }

  /** One key is below the other if it is a proper prefix of it, or has the smaller byte where they part. */
  lemma {:induction false} DefaultCompareMeans(a: Key, b: Key)
    ensures DefaultCompare(a, b) < 0 <==> a < b || exists i :: SmallerAt(a, b, i)
    decreases |a|
  {
    hide DefaultCompare, SmallerAt;
    if a == [] || b == [] {
      EmptyKey(a, b);
    } else {
      DefaultCompareStep(a, b);
      if a[0] == b[0] {
        DefaultCompareMeans(a[1..], b[1..]);
        TailsDecide(a, b);
      } else {
        FirstByteDecides(a, b);
      }
    }
  }

  lemma EmptyKey(a: Key, b: Key)
    requires a == [] || b == []
    ensures DefaultCompare(a, b) < 0 <==> a < b
    ensures forall i :: !SmallerAt(a, b, i)
  {
  }

  lemma SmallerTail(a: Key, b: Key, i: nat)
    requires a != [] && b != [] && a[0] == b[0]
    ensures SmallerAt(a, b, i + 1) <==> SmallerAt(a[1..], b[1..], i)
    ensures !SmallerAt(a, b, 0)
  {
    if i < |a| - 1 && i < |b| - 1 {
      assert a[..i + 1] == [a[0]] + a[1..][..i] && b[..i + 1] == [b[0]] + b[1..][..i];
      assert a[..i + 1][1..] == a[1..][..i] && b[..i + 1][1..] == b[1..][..i];
    }
  }

  lemma TailsDecide(a: Key, b: Key)
    requires a != [] && b != [] && a[0] == b[0]
    ensures (exists i :: SmallerAt(a, b, i)) <==> exists i :: SmallerAt(a[1..], b[1..], i)
    ensures a < b <==> a[1..] < b[1..]
  {
    hide SmallerAt;
    assert a == [a[0]] + a[1..] && b == [b[0]] + b[1..];
    if i: nat :| SmallerAt(a, b, i) {
      SmallerTail(a, b, if i == 0 then 0 else i - 1);
    }
    if i: nat :| SmallerAt(a[1..], b[1..], i) {
      SmallerTail(a, b, i);
    }
  }

  lemma FirstByteDecides(a: Key, b: Key)
    requires a != [] && b != [] && a[0] != b[0]
    ensures a[0] < b[0] <==> exists i :: SmallerAt(a, b, i)
    ensures !(a < b)
  {
    if a[0] < b[0] {
      assert SmallerAt(a, b, 0);
    }
    forall i: nat ensures SmallerAt(a, b, i) ==> i == 0 {
      SamePrefix(a, b, i);
    }
  }

  lemma SamePrefix(a: Key, b: Key, i: nat)
    requires a != [] && b != []
    ensures SmallerAt(a, b, i) && i > 0 ==> a[0] == b[0]
  {
    if SmallerAt(a, b, i) {
      if i > 0 {
        assert a[..i][0] == a[0] && b[..i][0] == b[0];
      }
    }
  }

  lemma {:induction false} DefaultCompareTransitive(a: Key, b: Key, c: Key)
    requires DefaultCompare(a, b) <= 0 && DefaultCompare(b, c) <= 0
    ensures DefaultCompare(a, c) <= 0
    decreases |a|
  {
    if a == [] || b == [] || c == [] {
    } else {
      DefaultCompareStep(a, b);
      DefaultCompareStep(b, c);
      DefaultCompareStep(a, c);
      if a[0] == b[0] == c[0] {
        DefaultCompareTransitive(a[1..], b[1..], c[1..]);
      }
    }
  }

  /** fcitx_dict_item_compare with the default callback. */
  function ByKey<V>(x: Handle<V>, y: Handle<V>): int {
    DefaultCompare(x.key, y.key)
  }

  lemma ByKeyPreorders<V>(dom: set<Handle<V>>)
    ensures Preorder(ByKey, dom)
  {
    forall x, y | x in dom && y in dom ensures Le(ByKey, x, y) || Le(ByKey, y, x) {
      DefaultCompareTotal(x.key, y.key);
    }
    forall x, y, z | x in dom && y in dom && z in dom && Le(ByKey, x, y) && Le(ByKey, y, z)
      ensures Le(ByKey, x, z)
    {
      DefaultCompareTransitive(x.key, y.key, z.key);
    }
  }

  lemma SortedByKey<V>(s: seq<Handle<V>>, owner: map<Key, Handle<V>>)
    requires Owned(s, owner) && Distinct(s) && Sorted(ByKey, s)
    ensures forall i, j | 0 <= i < j < |s| :: DefaultCompare(KeysOf(s)[i], KeysOf(s)[j]) < 0
  {
    forall i, j | 0 <= i < j < |s| ensures DefaultCompare(KeysOf(s)[i], KeysOf(s)[j]) < 0 {
      assert Le(ByKey, s[i], s[j]);
      assert s[i] in s && s[j] in s;
      DefaultCompareTotal(s[i].key, s[j].key);
    }
  }

  // ---------------------------------------------------------------- filtering

  /** Whether a removal by `func` takes the entry of `k`. */
  ghost predicate Goes<V>(m: map<Key, V>, func: (Key, V) -> bool, k: Key) {
    k in m && func(k, m[k])
  }

  /** The keys that a removal by `func` leaves, in order. */
  ghost function KeptKeys<V>(keys: seq<Key>, m: map<Key, V>, func: (Key, V) -> bool): seq<Key> {
    if keys == [] then []
    else
      var k, rest := keys[|keys| - 1], KeptKeys(keys[..|keys| - 1], m, func);
      if Goes(m, func, k) then rest else rest + [k]
  }

  /** The values that a removal by `func` lets go, in order. */
  ghost function LostValues<V>(keys: seq<Key>, m: map<Key, V>, func: (Key, V) -> bool): seq<V> {
    if keys == [] then []
    else
      var k, rest := keys[|keys| - 1], LostValues(keys[..|keys| - 1], m, func);
      if Goes(m, func, k) then rest + [m[k]] else rest
  }

  ghost function KeptItems<V>(s: seq<Handle<V>>, m: map<Key, V>, func: (Key, V) -> bool): seq<Handle<V>> {
    if s == [] then []
    else
      var h, rest := s[|s| - 1], KeptItems(s[..|s| - 1], m, func);
      if Goes(m, func, h.key) then rest else rest + [h]
  }

  /** What is left of `m` when `func` has been asked about `keys`. */
  ghost function Surviving<V>(m: map<Key, V>, func: (Key, V) -> bool, keys: seq<Key>): map<Key, V> {
    map k | k in m && !(k in keys && func(k, m[k])) :: m[k]
  }

  lemma KeptStep<V>(s: seq<Handle<V>>, m: map<Key, V>, func: (Key, V) -> bool, i: nat)
    requires i < |s|
    ensures KeptItems(s[..i + 1], m, func) ==
            if Goes(m, func, s[i].key) then KeptItems(s[..i], m, func) else KeptItems(s[..i], m, func) + [s[i]]
  {
    assert s[..i + 1][..i] == s[..i];
  }

  lemma LostStep<V>(s: seq<Handle<V>>, m: map<Key, V>, func: (Key, V) -> bool, i: nat)
    requires i < |s|
    ensures LostValues(KeysOf(s[..i + 1]), m, func) ==
            LostValues(KeysOf(s[..i]), m, func) + (if Goes(m, func, s[i].key) then [m[s[i].key]] else [])
  {
    var keys := KeysOf(s[..i + 1]);
    assert keys[..i] == KeysOf(s[..i]) && keys[i] == s[i].key;
  }

  lemma SurvivingStep<V>(s: seq<Handle<V>>, m: map<Key, V>, func: (Key, V) -> bool, i: nat)
    requires i < |s|
    ensures Surviving(m, func, KeysOf(s[..i + 1])) ==
            if Goes(m, func, s[i].key) then Surviving(m, func, KeysOf(s[..i])) - {s[i].key}
            else Surviving(m, func, KeysOf(s[..i]))
  {
    assert KeysOf(s[..i + 1]) == KeysOf(s[..i]) + [s[i].key];
  }

  /** The list with the first `i` of the items `s` already filtered. */
  ghost function Filtered<V>(s: seq<Handle<V>>, m: map<Key, V>, func: (Key, V) -> bool, i: nat): seq<Handle<V>>
    requires i <= |s|
  {
    KeptItems(s[..i], m, func) + s[i..]
  }

  lemma FilterNext<V>(s: seq<Handle<V>>, m: map<Key, V>, func: (Key, V) -> bool, i: nat)
    requires i < |s|
    ensures var k := |KeptItems(s[..i], m, func)|;
            var f := Filtered(s, m, func, i);
            && k < |f| && f[k] == s[i] && At(f, k + 1) == At(s, i + 1)
            && Filtered(s, m, func, i + 1) == if Goes(m, func, s[i].key) then Without(f, k) else f
  {
    KeptStep(s, m, func, i);
    var kept := KeptItems(s[..i], m, func);
    assert s[i..] == [s[i]] + s[i + 1..];
    if Goes(m, func, s[i].key) {
      assert Without(kept + s[i..], |kept|) == kept + s[i + 1..];
    } else {
      ConcatAssociates(kept, [s[i]], s[i + 1..]);
    }
  }

  lemma SurvivingAll<V>(m: map<Key, V>, func: (Key, V) -> bool, keys: seq<Key>)
    requires forall k | k in m :: k in keys
    ensures Surviving(m, func, keys) == map k | k in m && !func(k, m[k]) :: m[k]
  {
  }

  lemma OwnersListed<V>(s: seq<Handle<V>>, owner: map<Key, Handle<V>>)
    requires Owned(s, owner)
    ensures forall k | k in owner :: k in KeysOf(s)
    ensures forall i | 0 <= i < |s| :: s[i].key in owner
  {
    forall k | k in owner ensures k in KeysOf(s) {
      KeyOwned(s, owner, k);
    }
    forall i | 0 <= i < |s| ensures s[i].key in owner {
      assert s[i] in s;
    }
  }

  lemma {:induction false} KeptItemsKeys<V>(s: seq<Handle<V>>, m: map<Key, V>, func: (Key, V) -> bool)
    ensures KeysOf(KeptItems(s, m, func)) == KeptKeys(KeysOf(s), m, func)
  {
    if s != [] {
      var d := s[..|s| - 1];
      KeptItemsKeys(d, m, func);
      assert KeysOf(s)[..|s| - 1] == KeysOf(d);
      var r := KeptItems(d, m, func);
      assert KeysOf(r + [s[|s| - 1]]) == KeysOf(r) + [s[|s| - 1].key];
    } else {
      assert KeysOf(s) == [];
    }
  }

  /** The values of `keys`, in that order; a key that is not in the map has none. */
  ghost function ValuesOf<V>(keys: seq<Key>, m: map<Key, V>): seq<V> {
    if keys == [] then []
    else ValuesOf(keys[..|keys| - 1], m) + (if keys[|keys| - 1] in m then [m[keys[|keys| - 1]]] else [])
  }

  /** The entries of `keys` with their values copied. */
  ghost function Copied<V>(m: map<Key, V>, copyFunc: V -> V, keys: seq<Key>): map<Key, V> {
    map k | k in m && k in keys :: copyFunc(m[k])
  }

  /** The items `s` are linked forwards and carry the entries `m`, each key once. */
  ghost predicate Listed<V>(s: seq<Handle<V>>, m: map<Key, V>)
    reads s`next, s`data
  {
    forall i {:trigger s[i].next} {:trigger s[i].data} | 0 <= i < |s| ::
      && s[i].next == At(s, i + 1) && s[i].key in m && m[s[i].key] == s[i].data && s[i].key !in KeysOf(s[..i])
  }

  lemma CopiedStep<V>(s: seq<Handle<V>>, m: map<Key, V>, copyFunc: V -> V, i: nat)
    requires i < |s| && s[i].key in m
    ensures Copied(m, copyFunc, KeysOf(s[..i + 1]))
            == Copied(m, copyFunc, KeysOf(s[..i]))[s[i].key := copyFunc(m[s[i].key])]
    ensures KeysOf(s[..i + 1]) == KeysOf(s[..i]) + [s[i].key]
  {
    assert KeysOf(s[..i + 1]) == KeysOf(s[..i]) + [s[i].key];
  }

  lemma CopiedAll<V>(m: map<Key, V>, copyFunc: V -> V, keys: seq<Key>)
    requires forall k | k in m :: k in keys
    ensures Copied(m, copyFunc, keys) == map k | k in m :: copyFunc(m[k])
  {
  }

  lemma NewKey<V>(s: seq<Handle<V>>, owner: map<Key, Handle<V>>, i: nat)
    requires Owned(s, owner) && Distinct(s) && i < |s|
    ensures s[i].key !in KeysOf(s[..i])
  {
    KeyAt(s, owner, i);
    forall j | 0 <= j < i ensures s[j].key != s[i].key {
      KeyAt(s, owner, j);
    }
  }

  // ---------------------------------------------------------------- the dictionary

  class Dict<V> {
    const hasNotify: bool
    const index: HashIndex<V>
    ghost var owner: map<Key, Handle<V>>
    ghost var contents: map<Key, V>  // the map the dictionary stands for
    ghost var notified: seq<V>

    ghost predicate Valid()
      reads this, index, index.buckets
      reads index.items`prev, index.items`next, index.items`hhPrev, index.items`hhNext, index.items`hashv
      reads owner.Values`data
    {
      index.Valid() && Owned(index.items, owner) && DataMatches(owner, contents)
    }

    /** The keys in insertion order. */
    ghost function Order(): seq<Key>
      reads this, index
    {
      KeysOf(index.items)
    }

    constructor (hashFcn: Key -> Hash, hasNotify: bool)
      ensures Valid() && contents == map[] && Order() == [] && notified == []
      ensures this.hasNotify == hasNotify && index.hashFcn == hashFcn && fresh(index) && fresh(index.buckets)
    {
      this.hasNotify := hasNotify;
      index := new HashIndex<V>(hashFcn);
      owner, contents, notified := map[], map[], [];
    }

    /** fcitx_dict_insert */
    method Insert(key: Key, value: V, replace: bool) returns (ok: bool)
      requires Valid()
      modifies this, index, index.buckets, index.items
      ensures Valid()
      ensures index.buckets == old(index.buckets) || fresh(index.buckets)
      ensures forall i | 0 <= i < |index.items| :: index.items[i] in old(index.items) || fresh(index.items[i])
      ensures ok == (replace || key !in old(contents))
      ensures contents == if ok then old(contents)[key := value] else old(contents)
      ensures Order() == if key in old(contents) then old(Order()) else old(Order()) + [key]
      ensures notified == if key in old(contents) && replace && hasNotify then old(notified) + [old(contents)[key]]
                          else old(notified)
    {
      hide HashIndex.Valid;
      KeyOwned(index.items, owner, key);
      var item := index.Find(key);
      if item != null {
        if replace {
          ReplaceData(item, value);
        }
        return replace;
      }
      AddItem(key, value);
      return true;
    }

    /** The replacing branch of fcitx_dict_insert. */
    method ReplaceData(item: Handle<V>, value: V)
      requires Valid() && item in index.items
      modifies this`notified, this`contents, item`data
      ensures Valid() && item.key in old(contents)
      ensures contents == old(contents)[item.key := value]
      ensures notified == if hasNotify then old(notified) + [old(contents)[item.key]] else old(notified)
    {
      hide HashIndex.Valid;
      if hasNotify {
        notified := notified + [item.data];
      }
      KeyIn(item);
      item.data := value;
      contents := contents[item.key := value];
    }

    lemma KeyIn(item: Handle<V>)
      requires Owned(index.items, owner) && item in index.items && DataMatches(owner, contents)
      ensures item.key in contents && owner[item.key] == item && contents[item.key] == item.data
    {
    }

    /** The creating branch of fcitx_dict_insert. */
    method AddItem(key: Key, value: V)
      requires Valid() && key !in owner
      modifies this`owner, this`contents, index, index.buckets
      modifies index.items`next, index.items`hhPrev, index.items`hhNext
      ensures Valid() && (index.buckets == old(index.buckets) || fresh(index.buckets))
      ensures forall i | 0 <= i < |index.items| :: index.items[i] in old(index.items) || fresh(index.items[i])
      ensures contents == old(contents)[key := value] && Order() == old(Order()) + [key]
    {
      hide HashIndex.Valid;
      var add := new Handle<V>(key, value);
      OwnedAdded(index.items, owner, add);
      index.Add(add);
      MatchesAdded(owner, contents, add);
      owner, contents := owner[key := add], contents[key := value];
    }

    /** fcitx_dict_lookup */
    method Lookup(key: Key) returns (found: bool, item: Handle?<V>)
      requires Valid()
      ensures found <==> key in contents
      ensures found ==> item != null && item.key == key && item.data == contents[key]
    {
      hide HashIndex.Valid;
      KeyOwned(index.items, owner, key);
      item := index.Find(key);
      found := item != null;
    }

    /** fcitx_dict_remove: with a place for the value it is handed over, else it is notified. */
    method Remove(key: Key, wantData: bool) returns (ok: bool, dataOut: seq<V>)
      requires Valid()
      modifies this`owner, this`contents, this`notified, index, index.buckets
      modifies index.items`prev, index.items`next, index.items`hhPrev, index.items`hhNext
      ensures Valid() && index.buckets == old(index.buckets)
      ensures ok == (key in old(contents)) && contents == old(contents) - {key}
      ensures dataOut == if ok && wantData then [old(contents)[key]] else []
      ensures notified == if ok && !wantData && hasNotify then old(notified) + [old(contents)[key]] else old(notified)
      ensures !ok ==> Order() == old(Order())
      ensures forall i | 0 <= i < |index.items| :: index.items[i] in old(index.items)
      ensures ok ==> exists k | 0 <= k < |old(Order())| :: old(Order())[k] == key && Order() == Without(old(Order()), k)
    {
      hide HashIndex.Valid;
      KeyOwned(index.items, owner, key);
      var item := index.Find(key);
      dataOut := [];
      if item == null {
        return false, [];
      }
      ghost var k :| 0 <= k < |index.items| && index.items[k] == item;
      if wantData {
        dataOut := [item.data];
      }
      assert Order()[k] == key;
      WithoutFrom(index.items, k);
      DeleteItem(item, k, !wantData);
      ok := true;
    }

    /** HASH_DEL of one item, and the notification when the value goes with it. */
    method DeleteItem(item: Handle<V>, ghost k: nat, notify: bool)
      requires Valid() && k < |index.items| && index.items[k] == item
      modifies this`owner, this`contents, this`notified, index, index.buckets
      modifies index.items`prev, index.items`next, index.items`hhPrev, index.items`hhNext
      ensures Valid() && index.items == Without(old(index.items), k) && index.buckets == old(index.buckets)
      ensures item.key in old(contents) && owner == old(owner) - {item.key}
      ensures contents == old(contents) - {item.key} && Order() == Without(old(Order()), k)
      ensures notified == if notify && hasNotify then old(notified) + [old(contents)[item.key]] else old(notified)
    {
      hide HashIndex.Valid;
      KeyIn(item);
      if notify && hasNotify {
        notified := notified + [item.data];
      }
      Disown(item, k);
      owner, contents := owner - {item.key}, contents - {item.key};
    }

    method Disown(item: Handle<V>, ghost k: nat)
      requires Valid() && k < |index.items| && index.items[k] == item
      modifies index, index.buckets
      modifies index.items`prev, index.items`next, index.items`hhPrev, index.items`hhNext
      ensures index.Valid() && index.items == Without(old(index.items), k) && index.buckets == old(index.buckets)
      ensures Order() == Without(old(Order()), k)
      ensures Owned(index.items, owner - {item.key}) && DataMatches(owner - {item.key}, contents - {item.key})
    {
      hide HashIndex.Valid;
      index.ItemsDistinct();
      OwnedWithout(index.items, owner, k);
      index.Delete(item, k);
      MatchesWithout(owner, contents, item.key);
    }

    /** fcitx_dict_size */
    method Size() returns (n: nat)
      requires Valid()
      ensures n == |Order()|
    {
      return if index.head != null then index.numItems else 0;
    }

    // -------------------------------------------------------------- whole-dictionary operations

    /** The dictionary once the first `i` of the items `s` have been offered to `func`. */
    ghost predicate RemovedUpto(s: seq<Handle<V>>, m: map<Key, V>, func: (Key, V) -> bool, i: nat)
      reads this`contents, index`items
    {
      && i <= |s|
      && (forall j | 0 <= j < |index.items| :: index.items[j] in s)
      && index.items == Filtered(s, m, func, i)
      && contents == Surviving(m, func, KeysOf(s[..i]))
    }

    /** One turn of the loop of fcitx_dict_remove_if. */
    method RemoveStep(item: Handle<V>, func: (Key, V) -> bool,
                      ghost s: seq<Handle<V>>, ghost m: map<Key, V>, ghost i: nat)
      returns (nextItem: Handle?<V>)
      requires Valid() && i < |s| && item == s[i] && s[i].key in m && RemovedUpto(s, m, func, i)
      modifies this`owner, this`contents, this`notified, index, index.buckets
      modifies s`prev, s`next, s`hhPrev, s`hhNext
      ensures Valid() && index.buckets == old(index.buckets)
      ensures RemovedUpto(s, m, func, i + 1) && nextItem == At(s, i + 1)
      ensures notified == old(notified) + (if hasNotify && func(s[i].key, m[s[i].key]) then [m[s[i].key]] else [])
    {
      hide HashIndex.Valid, KeptItems, Filtered;
      ghost var k := |KeptItems(s[..i], m, func)|;
      FilterNext(s, m, func, i);
      SurvivingStep(s, m, func, i);
      KeyIn(item);
      nextItem := index.Next(item, k);
      if func(item.key, item.data) {
        DeleteItem(item, k, true);
        assert forall j | 0 <= j < |index.items| :: index.items[j] in s by {
          WithoutFrom(old(index.items), k);
        }
      }
    }

    /** The values notified for the first `i` of the items `s`. */
    ghost function Lost(s: seq<Handle<V>>, m: map<Key, V>, func: (Key, V) -> bool, i: nat): seq<V>
      requires i <= |s|
    {
      if hasNotify then LostValues(KeysOf(s[..i]), m, func) else []
    }

    lemma LostNext(n: seq<V>, s: seq<Handle<V>>, m: map<Key, V>, func: (Key, V) -> bool, i: nat)
      requires i < |s| && s[i].key in m
      ensures n + Lost(s, m, func, i + 1) ==
              (n + Lost(s, m, func, i)) + (if hasNotify && func(s[i].key, m[s[i].key]) then [m[s[i].key]] else [])
    {
      LostStep(s, m, func, i);
      ConcatAssociates(n, Lost(s, m, func, i), if hasNotify && func(s[i].key, m[s[i].key]) then [m[s[i].key]] else []);
    }

    lemma NothingRemoved(func: (Key, V) -> bool)
      requires Valid()
      ensures index.Valid() && RemovedUpto(index.items, contents, func, 0) && Lost(index.items, contents, func, 0) == []
      ensures forall i | 0 <= i < |index.items| :: index.items[i].key in contents
    {
      hide HashIndex.Valid;
      OwnersListed(index.items, owner);
      ghost var s := index.items;
      assert s[..0] == [] && KeysOf(s[..0]) == [] && s[0..] == s;
      assert Filtered(s, contents, func, 0) == [] + s == s;
      assert Surviving(contents, func, []) == contents;
      assert forall j | 0 <= j < |s| :: s[j] in s;
    }

    /** The loop of fcitx_dict_remove_if: walks the list, saving the successor before an item may go. */
    method RemoveLoop(func: (Key, V) -> bool)
      requires Valid()
      modifies this`owner, this`contents, this`notified, index, index.buckets
      modifies index.items`prev, index.items`next, index.items`hhPrev, index.items`hhNext
      ensures Valid() && index.buckets == old(index.buckets)
      ensures RemovedUpto(old(index.items), old(contents), func, |old(index.items)|)
      ensures notified == old(notified) + Lost(old(index.items), old(contents), func, |old(index.items)|)
    {
      hide HashIndex.Valid, Dict.Valid, RemovedUpto, Lost;
      ghost var s, m, n := index.items, contents, notified;
      NothingRemoved(func);
      ghost var i := 0;
      var item := index.First();
      while item != null
        invariant Valid() && index.buckets == old(index.buckets)
        invariant i <= |s| && RemovedUpto(s, m, func, i) && item == At(s, i)
        invariant notified == n + Lost(s, m, func, i)
        decreases |s| - i
      {
        LostNext(n, s, m, func, i);
        item := RemoveStep(item, func, s, m, i);
        i := i + 1;
      }
    }

    lemma RemovedAll(s: seq<Handle<V>>, m: map<Key, V>, func: (Key, V) -> bool)
      requires RemovedUpto(s, m, func, |s|) && forall k | k in m :: k in KeysOf(s)
      ensures s[..|s|] == s
      ensures Order() == KeptKeys(KeysOf(s), m, func)
      ensures contents == map k | k in m && !func(k, m[k]) :: m[k]
    {
      assert s[..|s|] == s;
      assert index.items == KeptItems(s, m, func) + [] == KeptItems(s, m, func);
      KeptItemsKeys(s, m, func);
      SurvivingAll(m, func, KeysOf(s));
    }

    /** fcitx_dict_remove_if: exactly the entries `func` picks go, and each is notified once, in order. */
    method RemoveIf(func: (Key, V) -> bool)
      requires Valid()
      modifies this`owner, this`contents, this`notified, index, index.buckets
      modifies index.items`prev, index.items`next, index.items`hhPrev, index.items`hhNext
      ensures Valid() && index.buckets == old(index.buckets)
      ensures contents == map k | k in old(contents) && !func(k, old(contents)[k]) :: old(contents)[k]
      ensures Order() == KeptKeys(old(Order()), old(contents), func)
      ensures notified == old(notified) + (if hasNotify then LostValues(old(Order()), old(contents), func) else [])
      ensures forall i | 0 <= i < |index.items| :: index.items[i] in old(index.items)
    {
      hide HashIndex.Valid;
      OwnersListed(index.items, owner);
      RemoveLoop(func);
      RemovedAll(old(index.items), old(contents), func);
    }

    /** What fcitx_dict_remove_all has left of the items `s` and the entries `m` after `i` removals. */
    ghost predicate RemovedFirst(s: seq<Handle<V>>, m: map<Key, V>, n: seq<V>, i: nat)
      reads this`contents, this`notified, index`items
    {
      && i <= |s| && index.items == s[i..]
      && (forall k | k in contents :: k in m && m[k] == contents[k])
      && notified == n + if hasNotify then ValuesOf(KeysOf(s[..i]), m) else []
    }

    /** One turn of the loop of fcitx_dict_remove_all. */
    method RemoveFirst(item: Handle<V>, ghost s: seq<Handle<V>>, ghost m: map<Key, V>, ghost n: seq<V>, ghost i: nat)
      requires Valid() && RemovedFirst(s, m, n, i) && i < |s| && item == s[i]
      modifies this`owner, this`contents, this`notified, index, index.buckets
      modifies s`prev, s`next, s`hhPrev, s`hhNext
      ensures Valid() && RemovedFirst(s, m, n, i + 1) && index.buckets == old(index.buckets)
    {
      hide HashIndex.Valid;
      assert index.items[0] == item && forall j | 0 <= j < |index.items| :: index.items[j] == s[i + j];
      KeyIn(item);
      ValuesStep(s, m, n, i);
      assert Without(s[i..], 0) == s[i + 1..];
      DeleteItem(item, 0, true);
    }

    /** fcitx_dict_remove_all: every value is notified once, in order. */
    method RemoveAll()
      requires Valid()
      modifies this`owner, this`contents, this`notified, index, index.buckets
      modifies index.items`prev, index.items`next, index.items`hhPrev, index.items`hhNext
      ensures Valid() && index.buckets == old(index.buckets)
      ensures contents == map[] && Order() == []
      ensures notified == old(notified) + if hasNotify then ValuesOf(old(Order()), old(contents)) else []
    {
      hide HashIndex.Valid, Dict.Valid, ValuesOf;
      ghost var s, m, n := index.items, contents, notified;
      ghost var i := 0;
      NoneRemoved();
      IndexIsValid();
      var item := index.First();
      while item != null
        invariant Valid() && RemovedFirst(s, m, n, i) && index.buckets == old(index.buckets) && item == At(s, i)
        decreases |s| - i
      {
        RemoveFirst(item, s, m, n, i);
        i := i + 1;
        IndexIsValid();
        item := index.First();
      }
      assert s[..i] == s;
      NothingLeft();
    }

    lemma IndexIsValid()
      requires Valid()
      ensures index.Valid()
    {
      hide HashIndex.Valid;
    }

    lemma NothingLeft()
      requires Valid() && index.items == []
      ensures contents == map[] && Order() == []
    {
      hide HashIndex.Valid;
      OwnersListed(index.items, owner);
      assert KeysOf(index.items) == [];
    }

    lemma NoneRemoved()
      requires Valid()
      ensures RemovedFirst(index.items, contents, notified, 0)
    {
      hide HashIndex.Valid;
      assert index.items[..0] == [] && KeysOf(index.items[..0]) == [];
      assert notified + [] == notified;
    }

    lemma ValuesStep(s: seq<Handle<V>>, m: map<Key, V>, n: seq<V>, i: nat)
      requires i < |s| && s[i].key in m
      ensures n + (if hasNotify then ValuesOf(KeysOf(s[..i + 1]), m) else [])
              == (if hasNotify then (n + ValuesOf(KeysOf(s[..i]), m)) + [m[s[i].key]] else n + [])
    {
      var keys := KeysOf(s[..i + 1]);
      assert keys[..i] == KeysOf(s[..i]) && keys[i] == s[i].key;
      if hasNotify {
        ConcatAssociates(n, ValuesOf(KeysOf(s[..i]), m), [m[s[i].key]]);
      }
    }

    /** After `i` items of the one cloned, whose entries are `m`. */
    ghost predicate ClonedUpto(s: seq<Handle<V>>, m: map<Key, V>, copyFunc: V -> V, i: nat)
      reads this, index
    {
      && i <= |s| && notified == [] && Order() == KeysOf(s[..i])
      && contents == Copied(m, copyFunc, KeysOf(s[..i]))
    }

    /** One turn of the loop of fcitx_dict_clone, over items `s` that are not this dictionary's. */
    method CloneItem(item: Handle<V>, copyFunc: V -> V, ghost s: seq<Handle<V>>, ghost m: map<Key, V>, ghost i: nat)
      returns (next: Handle?<V>)
      requires Valid() && Listed(s, m) && i < |s| && item == s[i] && ClonedUpto(s, m, copyFunc, i)
      requires forall j | 0 <= j < |s| :: s[j] !in index.items && s[j] as object !in {this, index, index.buckets}
      modifies this, index, index.buckets, index.items
      ensures Valid() && Listed(s, m) && ClonedUpto(s, m, copyFunc, i + 1) && next == At(s, i + 1)
      ensures index.buckets == old(index.buckets) || fresh(index.buckets)
      ensures forall i | 0 <= i < |index.items| :: index.items[i] in old(index.items) || fresh(index.items[i])
    {
      hide HashIndex.Valid, Dict.Valid;
      next := item.next;
      assert next == s[i].next;
      CopiedStep(s, m, copyFunc, i);
      var data := copyFunc(item.data);
      var ok := Insert(item.key, data, false);
    }

    /** fcitx_dict_clone: the same keys in the same order, each with the copy of its value. */
    static method Clone(other: Dict<V>, copyFunc: V -> V) returns (dict: Dict<V>)
      requires other.Valid()
      ensures fresh(dict) && fresh(dict.index) && fresh(dict.index.buckets)
      ensures forall i | 0 <= i < |dict.index.items| :: fresh(dict.index.items[i])
      ensures dict.Valid() && dict.hasNotify == other.hasNotify && dict.notified == []
      ensures dict.Order() == other.Order()
      ensures dict.contents == map k | k in other.contents :: copyFunc(other.contents[k])
    {
      hide HashIndex.Valid, Dict.Valid, Listed;
      ghost var s, m := other.index.items, other.contents;
      ghost var i := 0;
      var item := other.FirstToClone();
      dict := new Dict<V>(other.index.hashFcn, other.hasNotify);
      dict.NothingCloned(s, m, copyFunc);
      while item != null
        invariant fresh(dict) && fresh(dict.index) && fresh(dict.index.buckets)
        invariant forall j | 0 <= j < |dict.index.items| :: fresh(dict.index.items[j])
        invariant dict.Valid() && Listed(s, m) && dict.ClonedUpto(s, m, copyFunc, i) && item == At(s, i)
        decreases |s| - i
      {
        item := dict.CloneItem(item, copyFunc, s, m, i);
        i := i + 1;
      }
      assert s[..i] == s;
      CopiedAll(m, copyFunc, KeysOf(s));
    }

    method FirstToClone() returns (item: Handle?<V>)
      requires Valid()
      ensures item == At(index.items, 0) && Listed(index.items, contents)
      ensures forall k | k in contents :: k in KeysOf(index.items)
    {
      AllListed();
      item := index.First();
    }

    lemma AllListed()
      requires Valid()
      ensures Listed(index.items, contents) && index.Valid()
      ensures forall k | k in contents :: k in KeysOf(index.items)
    {
      OwnersListed(index.items, owner);
      forall i | 0 <= i < |index.items|
        ensures index.items[i].key in contents && contents[index.items[i].key] == index.items[i].data
        ensures index.items[i].key !in KeysOf(index.items[..i]) && index.items[i].next == At(index.items, i + 1)
      {
        NewKey(index.items, owner, i);
        KeyIn(index.items[i]);
      }
    }

    lemma NothingCloned(s: seq<Handle<V>>, m: map<Key, V>, copyFunc: V -> V)
      requires contents == map[] && Order() == [] && notified == []
      ensures ClonedUpto(s, m, copyFunc, 0)
    {
      assert s[..0] == [] && KeysOf(s[..0]) == [];
      assert Copied(m, copyFunc, []) == map[];
    }

    /** fcitx_dict_sort: the same entries in another order; every lookup answers as before. */
    method Sort(cmp: Cmp<Handle<V>>)
      requires Valid()
      modifies index`head, index`tail, index`items, index.items`prev, index.items`next
      ensures Valid() && multiset(index.items) == multiset(old(index.items))
      ensures Preorder(cmp, Elements(old(index.items))) ==> StableSorted(cmp, old(index.items), index.items)
    {
      hide HashIndex.Valid;
      ghost var s := index.items;
      index.Sort(cmp, Elements(s));
      assert Over(s, Elements(s));
      assert forall h {:trigger h in s} | h in s :: h in index.items;
    }

    /** fcitx_dict_sort without a callback: the keys end up in strictly ascending byte order. */
    method SortByKey()
      requires Valid()
      modifies index`head, index`tail, index`items, index.items`prev, index.items`next
      ensures Valid() && multiset(index.items) == multiset(old(index.items))
      ensures forall i, j | 0 <= i < j < |Order()| :: DefaultCompare(Order()[i], Order()[j]) < 0
    {
      hide HashIndex.Valid;
      ByKeyPreorders(Elements(index.items));
      Sort(ByKey);
      index.ItemsDistinct();
      SortedByKey(index.items, owner);
    }
  }
}
