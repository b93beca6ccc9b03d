/**
  handler-table.c: objects in a pool, threaded by ids into one list per key.

  The keys are found through the hash index, which refines an insertion-ordered map; here the
  table holds that map. free_func is modelled by the sequence of objects it has been called on.
 */
module HandlerTable {
  import opened Seqs
  import opened ObjPool

  type Key = seq<bv8>

  class HandlerKey {
    const name: Key
    var first: int
    var last: int

    constructor (name: Key)
      ensures this.name == name && first == INVALID_ID && last == INVALID_ID
    {
      this.name := name;
      first, last := INVALID_ID, INVALID_ID;
    }
  }

  datatype HandlerObj<O> = HandlerObj(prev: int, next: int, key: HandlerKey?, obj: O)

  /** The ids `l` form one doubly linked list of objects that belong to `key`. */
  ghost predicate Threaded<O>(o: seq<HandlerObj<O>>, l: seq<int>, key: HandlerKey) {
    && Distinct(l)
    && (forall i | 0 <= i < |l| :: 0 <= l[i] < |o|)
    && (forall i {:trigger o[l[i]]} | 0 <= i < |l| ::
          o[l[i]].key == key && o[l[i]].prev == IdAt(l, i - 1) && o[l[i]].next == IdAt(l, i + 1))
  }

  lemma ThreadedSame<O>(o: seq<HandlerObj<O>>, o': seq<HandlerObj<O>>, l: seq<int>, key: HandlerKey)
    requires Threaded(o, l, key) && |o| <= |o'|
    requires forall i {:trigger o'[l[i]]} {:trigger o[l[i]]} | 0 <= i < |l| :: o'[l[i]] == o[l[i]]
    ensures Threaded(o', l, key)
  {
  }

  lemma ThreadedGrown<O>(o: seq<HandlerObj<O>>, o': seq<HandlerObj<O>>, l: seq<int>, key: HandlerKey)
    requires Threaded(o, l, key) && o <= o'
    ensures Threaded(o', l, key)
  {
    ThreadedSame(o, o', l, key);
  }

  lemma ThreadedAppend<O>(o: seq<HandlerObj<O>>, o': seq<HandlerObj<O>>, l: seq<int>, key: HandlerKey, id: nat, obj: O)
    requires Threaded(o, l, key) && id < |o'| && |o| <= |o'| && id !in l
    requires o'[id] == HandlerObj(IdAt(l, |l| - 1), INVALID_ID, key, obj)
    requires forall i {:trigger o'[l[i]]} {:trigger o[l[i]]} | 0 <= i < |l| - 1 :: o'[l[i]] == o[l[i]]
    requires l != [] ==> o'[l[|l| - 1]] == o[l[|l| - 1]].(next := id)
    ensures Threaded(o', l + [id], key)
  {
    var r := l + [id];
    forall i | 0 <= i < |r|
      ensures o'[r[i]].key == key && o'[r[i]].prev == IdAt(r, i - 1) && o'[r[i]].next == IdAt(r, i + 1)
    {
      if i < |l| {
        assert o[l[i]].next == IdAt(l, i + 1);
      }
    }
  }

  lemma ThreadedPrepend<O>(o: seq<HandlerObj<O>>, o': seq<HandlerObj<O>>, l: seq<int>, key: HandlerKey, id: nat, obj: O)
    requires Threaded(o, l, key) && id < |o'| && |o| <= |o'| && id !in l
    requires o'[id] == HandlerObj(INVALID_ID, IdAt(l, 0), key, obj)
    requires forall i | 0 < i < |l| :: o'[l[i]] == o[l[i]]
    requires l != [] ==> o'[l[0]] == o[l[0]].(prev := id)
    ensures Threaded(o', [id] + l, key)
  {
    var r := [id] + l;
    forall i | 0 <= i < |r|
      ensures o'[r[i]].key == key && o'[r[i]].prev == IdAt(r, i - 1) && o'[r[i]].next == IdAt(r, i + 1)
    {
      if i > 0 {
        assert o[l[i - 1]].prev == IdAt(l, i - 2);
      }
    }
  }

  lemma ThreadedRemove<O>(o: seq<HandlerObj<O>>, o': seq<HandlerObj<O>>, l: seq<int>, key: HandlerKey, k: nat)
    requires Threaded(o, l, key) && k < |l| && |o| == |o'|
    requires forall i {:trigger o'[l[i]]} {:trigger o[l[i]]} | 0 <= i < |l| && i != k ::
               o'[l[i]] == if i == k - 1 then o[l[i]].(next := IdAt(l, k + 1))
                           else if i == k + 1 then o[l[i]].(prev := IdAt(l, k - 1)) else o[l[i]]
    ensures Threaded(o', Without(l, k), key)
  {
    var r := Without(l, k);
    WithoutDistinct(l, k);
    forall i | 0 <= i < |r|
      ensures o'[r[i]].key == key && o'[r[i]].prev == IdAt(r, i - 1) && o'[r[i]].next == IdAt(r, i + 1)
    {
      var u := if i < k then i else i + 1;
      assert r[i] == l[u] && o[l[u]].prev == IdAt(l, u - 1) && o[l[u]].next == IdAt(l, u + 1);
    }
  }

  /** Every key's list is threaded between its ends, and every live id is on exactly its key's list. */
  ghost predicate Table<O>(o: seq<HandlerObj<O>>, live: set<int>,
                           keys: map<Key, HandlerKey>, lists: map<Key, seq<int>>) {
    && lists.Keys == keys.Keys
    && (forall k | k in keys :: keys[k].name == k && Threaded(o, lists[k], keys[k]))
    && (forall k, i | k in lists && 0 <= i < |lists[k]| :: lists[k][i] in live)
    && (forall id | id in live :: 0 <= id < |o| && OnItsList(o[id].key, id, keys, lists))
  }

  ghost predicate OnItsList(key: HandlerKey?, id: int, keys: map<Key, HandlerKey>, lists: map<Key, seq<int>>) {
    key != null && key.name in keys && keys[key.name] == key && key.name in lists && id in lists[key.name]
  }

  lemma TableKeys<O>(o: seq<HandlerObj<O>>, live: set<int>, keys: map<Key, HandlerKey>, lists: map<Key, seq<int>>)
    requires Table(o, live, keys, lists)
    ensures lists.Keys == keys.Keys && forall k | k in keys :: keys[k].name == k
    ensures forall id | id in live :: 0 <= id < |o|
  {
  }

  /** A key without objects joins the table. */
  lemma TableNewKey<O>(o: seq<HandlerObj<O>>, live: set<int>, keys: map<Key, HandlerKey>, lists: map<Key, seq<int>>,
                       key: HandlerKey)
    requires Table(o, live, keys, lists) && key.name !in keys
    ensures Table(o, live, keys[key.name := key], lists[key.name := []])
  {
    forall id | id in live ensures OnItsList(o[id].key, id, keys[key.name := key], lists[key.name := []]) {
      assert OnItsList(o[id].key, id, keys, lists);
    }
  }

  /** Changing objects that are not on the list of `k` leaves that list threaded. */
  lemma OtherLists<O>(o: seq<HandlerObj<O>>, o': seq<HandlerObj<O>>, live: set<int>,
                      keys: map<Key, HandlerKey>, lists: map<Key, seq<int>>, changed: set<int>, name: Key)
    requires Table(o, live, keys, lists) && |o| <= |o'|
    requires forall id | id in live && id !in changed :: o'[id] == o[id]
    requires forall id | id in changed && id in live :: o[id].key != null && o[id].key.name == name
    ensures forall k | k in keys && k != name :: Threaded(o', lists[k], keys[k])
  {
    forall k | k in keys && k != name ensures Threaded(o', lists[k], keys[k]) {
      var l := lists[k];
      forall i | 0 <= i < |l| ensures o'[l[i]] == o[l[i]] {
        assert l[i] in live && o[l[i]].key == keys[k];
      }
      ThreadedSame(o, o', l, keys[k]);
    }
  }

  lemma TableAppend<O>(o: seq<HandlerObj<O>>, o': seq<HandlerObj<O>>, live: set<int>,
                       keys: map<Key, HandlerKey>, lists: map<Key, seq<int>>, key: HandlerKey, id: nat, obj: O)
    requires Table(o, live, keys, lists) && key.name in keys && keys[key.name] == key
    requires |o| <= |o'| && id < |o'| && id !in live
    requires var l := lists[key.name];
             && o'[id] == HandlerObj(IdAt(l, |l| - 1), INVALID_ID, key, obj)
             && (l != [] ==> o'[l[|l| - 1]] == o[l[|l| - 1]].(next := id))
             && forall j | j in live && j != IdAt(l, |l| - 1) :: o'[j] == o[j]
    ensures Table(o', live + {id}, keys, lists[key.name := lists[key.name] + [id]])
    ensures forall j | j in live :: o'[j].obj == o[j].obj
  {
    var l := lists[key.name];
    var last := IdAt(l, |l| - 1);
    assert l != [] ==> last in live && o[l[|l| - 1]].key == key;
    OtherLists(o, o', live, keys, lists, {last}, key.name);
    ThreadedAppend(o, o', l, key, id, obj);
    TableGrows(o, o', live, keys, lists, key, id, l + [id]);
  }

  lemma TablePrepend<O>(o: seq<HandlerObj<O>>, o': seq<HandlerObj<O>>, live: set<int>,
                        keys: map<Key, HandlerKey>, lists: map<Key, seq<int>>, key: HandlerKey, id: nat, obj: O)
    requires Table(o, live, keys, lists) && key.name in keys && keys[key.name] == key
    requires |o| <= |o'| && id < |o'| && id !in live
    requires var l := lists[key.name];
             && o'[id] == HandlerObj(INVALID_ID, IdAt(l, 0), key, obj)
             && (l != [] ==> o'[l[0]] == o[l[0]].(prev := id))
             && forall j | j in live && j != IdAt(l, 0) :: o'[j] == o[j]
    ensures Table(o', live + {id}, keys, lists[key.name := [id] + lists[key.name]])
    ensures forall j | j in live :: o'[j].obj == o[j].obj
  {
    var l := lists[key.name];
    var first := IdAt(l, 0);
    assert l != [] ==> first in live && o[l[0]].key == key;
    OtherLists(o, o', live, keys, lists, {first}, key.name);
    ThreadedPrepend(o, o', l, key, id, obj);
    TableGrows(o, o', live, keys, lists, key, id, [id] + l);
  }

  /** Putting the new id on its key's list keeps every live id on exactly its list. */
  lemma TableGrows<O>(o: seq<HandlerObj<O>>, o': seq<HandlerObj<O>>, live: set<int>,
                      keys: map<Key, HandlerKey>, lists: map<Key, seq<int>>, key: HandlerKey, id: nat, l': seq<int>)
    requires Table(o, live, keys, lists) && key.name in keys && keys[key.name] == key
    requires |o| <= |o'| && id < |o'| && id !in live && o'[id].key == key
    requires forall j | j in live :: o'[j].key == o[j].key
    requires forall x :: x in l' <==> x == id || x in lists[key.name]
    requires Threaded(o', l', key)
    requires forall k | k in keys && k != key.name :: Threaded(o', lists[k], keys[k])
    ensures Table(o', live + {id}, keys, lists[key.name := l'])
  {
    var lists' := lists[key.name := l'];
    forall k, i | k in lists' && 0 <= i < |lists'[k]| ensures lists'[k][i] in live + {id} {
      if k == key.name {
        assert l'[i] in l';
        if l'[i] != id {
          var j :| 0 <= j < |lists[k]| && lists[k][j] == l'[i];
        }
      }
    }
    forall j | j in live + {id} ensures 0 <= j < |o'| && OnItsList(o'[j].key, j, keys, lists') {
      if j in live {
        assert OnItsList(o[j].key, j, keys, lists);
      }
    }
  }

  /** Element `k` of the list of `key` taken out, its neighbours linked to each other. */
  ghost predicate Unlinked<O>(o: seq<HandlerObj<O>>, o': seq<HandlerObj<O>>, l: seq<int>, k: nat) {
    && k < |l| && |o'| == |o|
    && (forall i | 0 <= i < |l| :: 0 <= l[i] < |o|)
    && (forall i {:trigger o'[l[i]]} {:trigger o[l[i]]} | 0 <= i < |l| && i != k ::
          o'[l[i]] == if i == k - 1 then o[l[i]].(next := IdAt(l, k + 1))
                      else if i == k + 1 then o[l[i]].(prev := IdAt(l, k - 1)) else o[l[i]])
    && (forall j | 0 <= j < |o| && j != IdAt(l, k - 1) && j != IdAt(l, k + 1) :: o'[j] == o[j])
  }

  lemma TableRemove<O>(o: seq<HandlerObj<O>>, o': seq<HandlerObj<O>>, live: set<int>,
                       keys: map<Key, HandlerKey>, lists: map<Key, seq<int>>, key: HandlerKey, k: nat)
    requires Table(o, live, keys, lists) && key.name in keys && keys[key.name] == key
    requires Unlinked(o, o', lists[key.name], k)
    ensures var l := lists[key.name]; Table(o', live - {l[k]}, keys, lists[key.name := Without(l, k)])
    ensures forall j | j in live :: o'[j].obj == o[j].obj
  {
    hide Without, OnItsList;
    var l := lists[key.name];
    var changed := {IdAt(l, k - 1), IdAt(l, k + 1)};
    UnlinkedOnList(o, live, keys, lists, key, k - 1);
    UnlinkedOnList(o, live, keys, lists, key, k + 1);
    OtherLists(o, o', live, keys, lists, changed, key.name);
    ThreadedRemove(o, o', l, key, k);
    WithoutMembers(l, k);
    TableShrinks(o, o', live, keys, lists, key, l[k], Without(l, k));
  }

  lemma UnlinkedOnList<O>(o: seq<HandlerObj<O>>, live: set<int>, keys: map<Key, HandlerKey>, lists: map<Key, seq<int>>,
                          key: HandlerKey, i: int)
    requires Table(o, live, keys, lists) && key.name in keys && keys[key.name] == key
    ensures var j := IdAt(lists[key.name], i); j == INVALID_ID || (j in live && o[j].key == key)
  {
    if 0 <= i < |lists[key.name]| {
      assert o[lists[key.name][i]].key == key;
    }
  }

  lemma ListMember<O>(o: seq<HandlerObj<O>>, live: set<int>, keys: map<Key, HandlerKey>, lists: map<Key, seq<int>>,
                      name: Key, id: int)
    requires Table(o, live, keys, lists) && name in keys && id in lists[name]
    ensures id in live && 0 <= id < |o| && o[id].key == keys[name] && keys[name].name == name
  {
    var at :| 0 <= at < |lists[name]| && lists[name][at] == id;
    assert o[lists[name][at]].key == keys[name];
  }

  lemma TableShrinks<O>(o: seq<HandlerObj<O>>, o': seq<HandlerObj<O>>, live: set<int>,
                        keys: map<Key, HandlerKey>, lists: map<Key, seq<int>>, key: HandlerKey, id: int, l': seq<int>)
    requires Table(o, live, keys, lists) && key.name in keys && keys[key.name] == key && id in lists[key.name]
    requires |o| == |o'| && forall j | j in live :: o'[j].key == o[j].key
    requires forall x :: x in l' <==> x != id && x in lists[key.name]
    requires Threaded(o', l', key)
    requires forall k | k in keys && k != key.name :: Threaded(o', lists[k], keys[k])
    ensures Table(o', live - {id}, keys, lists[key.name := l'])
  {
    hide Threaded;
    var lists' := lists[key.name := l'];
    forall k, i | k in lists' && 0 <= i < |lists'[k]| ensures lists'[k][i] in live - {id} {
      assert lists'[k][i] in lists'[k];
      ListMember(o, live, keys, lists, key.name, id);
      ListMember(o, live, keys, lists, k, lists'[k][i]);
    }
    forall j | j in live - {id} ensures 0 <= j < |o'| && OnItsList(o'[j].key, j, keys, lists') {
      StaysOnItsList(o, live, keys, lists, key, id, l', j);
    }
  }

  lemma StaysOnItsList<O>(o: seq<HandlerObj<O>>, live: set<int>, keys: map<Key, HandlerKey>, lists: map<Key, seq<int>>,
                          key: HandlerKey, id: int, l': seq<int>, j: int)
    requires Table(o, live, keys, lists) && key.name in keys && j in live && j != id
    requires forall x :: x in l' <==> x != id && x in lists[key.name]
    ensures 0 <= j < |o| && OnItsList(o[j].key, j, keys, lists[key.name := l'])
  {
    assert OnItsList(o[j].key, j, keys, lists);
  }

  /** Every live id lies on exactly one key's list, once, and the lists hold nothing else. */
  lemma ExactlyOneList<O>(o: seq<HandlerObj<O>>, live: set<int>, keys: map<Key, HandlerKey>, lists: map<Key, seq<int>>,
                          id: int)
    requires Table(o, live, keys, lists)
    ensures id in live <==> exists k, i :: k in lists && 0 <= i < |lists[k]| && lists[k][i] == id
    ensures forall k, i, k', i' | k in lists && 0 <= i < |lists[k]| && lists[k][i] == id
                               && k' in lists && 0 <= i' < |lists[k']| && lists[k'][i'] == id :: k == k' && i == i'
  {
    if id in live {
      assert OnItsList(o[id].key, id, keys, lists);
    }
    forall k, i | k in lists && 0 <= i < |lists[k]| && lists[k][i] == id ensures o[id].key == keys[k] {
      ListMember(o, live, keys, lists, k, id);
    }
  }

  /** A key goes away together with all its objects. */
  lemma TableDropKey<O>(o: seq<HandlerObj<O>>, live: set<int>, keys: map<Key, HandlerKey>, lists: map<Key, seq<int>>,
                        key: HandlerKey)
    requires Table(o, live, keys, lists) && key.name in keys && keys[key.name] == key
    ensures Table(o, live - Elements(lists[key.name]), keys - {key.name}, lists - {key.name})
  {
    var l := lists[key.name];
    var live', keys', lists' := live - Elements(l), keys - {key.name}, lists - {key.name};
    forall k, i | k in lists' && 0 <= i < |lists'[k]| ensures lists'[k][i] in live' {
      assert o[lists[k][i]].key == keys[k];
    }
    forall j | j in live' ensures 0 <= j < |o| && OnItsList(o[j].key, j, keys', lists') {
      assert OnItsList(o[j].key, j, keys, lists);
    }
  }

  ghost predicate Ends(keys: map<Key, HandlerKey>, lists: map<Key, seq<int>>)
    reads keys.Values
  {
    && lists.Keys == keys.Keys
    && forall k | k in keys :: keys[k].first == IdAt(lists[k], 0) && keys[k].last == IdAt(lists[k], |lists[k]| - 1)
  }

  /** Only the key called `name` was touched, and its ends are those of its new list. */
  twostate lemma EndsUpdated(keys: map<Key, HandlerKey>, new lists: map<Key, seq<int>>, new name: Key, new l: seq<int>)
    requires old(Ends(keys, lists)) && name in keys
    requires forall k | k in keys :: keys[k].name == k
    requires forall k | k in keys && k != name :: unchanged(keys[k])
    requires keys[name].first == IdAt(l, 0) && keys[name].last == IdAt(l, |l| - 1)
    ensures Ends(keys, lists[name := l])
  {
  }

  class HandlerTable<O(0)> {
    const objs: ObjPool<HandlerObj<O>>
    const hasFree: bool
    var keys: map<Key, HandlerKey>
    ghost var lists: map<Key, seq<int>>
    ghost var freed: seq<O>

    ghost predicate Valid()
      reads this, objs, objs.slots, objs.objs, keys.Values
    {
      && objs.Valid() && objs.slots.Length >= 2
      && Table(objs.objs[..], objs.Live(), keys, lists)
      && Ends(keys, lists)
    }

    constructor (objSize: nat, hasFree: bool)
      ensures Valid() && keys == map[] && lists == map[] && freed == [] && this.hasFree == hasFree
      ensures fresh(objs) && fresh(objs.slots) && fresh(objs.objs)
    {
      objs := new ObjPool<HandlerObj<O>>(objSize, 4);
      this.hasFree := hasFree;
      keys, lists, freed := map[], map[], [];
    }

    /** fcitx_handler_table_find_key */
    method FindKey(name: Key, create: bool) returns (key: HandlerKey?)
      requires Valid()
      modifies this`keys, this`lists
      ensures Valid()
      ensures key == null <==> name !in old(keys) && !create
      ensures key != null ==> name in keys && keys[name] == key
      ensures name in old(keys) || !create ==> keys == old(keys) && lists == old(lists)
      ensures name !in old(keys) && create ==>
                keys == old(keys)[name := key] && lists == old(lists)[name := []] && fresh(key)
    {
      hide ObjPool.Valid, Table;
      TableKeys(objs.objs[..], objs.Live(), keys, lists);
      if name in keys {
        return keys[name];
      }
      if !create {
        return null;
      }
      key := new HandlerKey(name);
      TableNewKey(objs.objs[..], objs.Live(), keys, lists, key);
      keys, lists := keys[name := key], lists[name := []];
    }

    lemma AboutKey(key: HandlerKey)
      requires Valid() && key.name in keys && keys[key.name] == key
      ensures lists.Keys == keys.Keys && Threaded(objs.objs[..], lists[key.name], key)
      ensures key.first == IdAt(lists[key.name], 0) && key.last == IdAt(lists[key.name], |lists[key.name]| - 1)
      ensures forall i | 0 <= i < |lists[key.name]| :: lists[key.name][i] in objs.Live()
      ensures forall k | k in keys :: keys[k].name == k
      ensures forall id | id in objs.Live() :: 0 <= id < objs.objs.Length
      ensures objs.slots.Length == objs.objs.Length
    {
    }

    /** fcitx_handler_key_append: the new id goes to the end of the key's list, and of no other. */
    method KeyAppend(key: HandlerKey, obj: O) returns (newId: nat)
      requires Valid() && key.name in keys && keys[key.name] == key
      modifies this`lists, objs, objs.slots, objs.objs, key
      ensures Valid()
      ensures newId !in old(objs.Live()) && objs.Live() == old(objs.Live()) + {newId}
      ensures lists == old(lists)[key.name := old(lists[key.name]) + [newId]]
      ensures newId < objs.objs.Length && objs.objs[newId].obj == obj
      ensures forall id | id in old(objs.Live()) :: objs.objs[id].obj == old(objs.objs[id].obj)
      ensures objs.slots == old(objs.slots) || fresh(objs.slots)
      ensures objs.objs == old(objs.objs) || fresh(objs.objs)
    {
      hide ObjPool.Valid, ObjPool.Live, Table, Threaded, Ends;
      AboutKey(key);
      ghost var o, live, l := objs.objs[..], objs.Live(), lists[key.name];
      newId := objs.AllocId();
      assert newId !in l;
      ThreadedGrown(o, objs.objs[..], l, key);
      LinkLast(objs.objs, newId, key, obj, l);
      TableAppend(o, objs.objs[..], live, keys, lists, key, newId, obj);
      EndsUpdated(keys, lists, key.name, l + [newId]);
      lists := lists[key.name := l + [newId]];
    }

    /** The relinking of fcitx_handler_key_append. */
    static method LinkLast(a: array<HandlerObj<O>>, newId: nat, key: HandlerKey, obj: O, ghost l: seq<int>)
      requires newId < a.Length && newId !in l && Threaded(a[..], l, key)
      requires key.last == IdAt(l, |l| - 1) && key.first == IdAt(l, 0)
      modifies a, key
      ensures key.last == newId && key.first == IdAt(l + [newId], 0)
      ensures a[newId] == HandlerObj(IdAt(l, |l| - 1), INVALID_ID, key, obj)
      ensures l != [] ==> a[l[|l| - 1]] == old(a[l[|l| - 1]]).(next := newId)
      ensures forall j | 0 <= j < a.Length && j != newId && j != IdAt(l, |l| - 1) :: a[j] == old(a[j])
    {
      var id := key.last;
      if id == INVALID_ID {
        key.first, key.last := newId, newId;
        a[newId] := HandlerObj(INVALID_ID, INVALID_ID, key, obj);
      } else {
        key.last := newId;
        a[newId] := HandlerObj(id, INVALID_ID, key, obj);
        a[id] := a[id].(next := newId);
      }
    }

    /** fcitx_handler_key_prepend: the new id goes to the front of the key's list, and of no other. */
    method KeyPrepend(key: HandlerKey, obj: O) returns (newId: nat)
      requires Valid() && key.name in keys && keys[key.name] == key
      modifies this`lists, objs, objs.slots, objs.objs, key
      ensures Valid()
      ensures newId !in old(objs.Live()) && objs.Live() == old(objs.Live()) + {newId}
      ensures lists == old(lists)[key.name := [newId] + old(lists[key.name])]
      ensures newId < objs.objs.Length && objs.objs[newId].obj == obj
      ensures forall id | id in old(objs.Live()) :: objs.objs[id].obj == old(objs.objs[id].obj)
      ensures objs.slots == old(objs.slots) || fresh(objs.slots)
      ensures objs.objs == old(objs.objs) || fresh(objs.objs)
    {
      hide ObjPool.Valid, ObjPool.Live, Table, Threaded, Ends;
      AboutKey(key);
      ghost var o, live, l := objs.objs[..], objs.Live(), lists[key.name];
      newId := objs.AllocId();
      assert newId !in l;
      ThreadedGrown(o, objs.objs[..], l, key);
      LinkFirst(objs.objs, newId, key, obj, l);
      TablePrepend(o, objs.objs[..], live, keys, lists, key, newId, obj);
      EndsUpdated(keys, lists, key.name, [newId] + l);
      lists := lists[key.name := [newId] + l];
    }

    /** The relinking of fcitx_handler_key_prepend. */
    static method LinkFirst(a: array<HandlerObj<O>>, newId: nat, key: HandlerKey, obj: O, ghost l: seq<int>)
      requires newId < a.Length && newId !in l && Threaded(a[..], l, key)
      requires key.last == IdAt(l, |l| - 1) && key.first == IdAt(l, 0)
      modifies a, key
      ensures key.first == newId && key.last == IdAt([newId] + l, |l|)
      ensures a[newId] == HandlerObj(INVALID_ID, IdAt(l, 0), key, obj)
      ensures l != [] ==> a[l[0]] == old(a[l[0]]).(prev := newId)
      ensures forall j | 0 <= j < a.Length && j != newId && j != IdAt(l, 0) :: a[j] == old(a[j])
    {
      var id := key.first;
      if id == INVALID_ID {
        key.first, key.last := newId, newId;
        a[newId] := HandlerObj(INVALID_ID, INVALID_ID, key, obj);
      } else {
        key.first := newId;
        a[newId] := HandlerObj(INVALID_ID, id, key, obj);
        a[id] := a[id].(prev := newId);
      }
    }

    /** The keys are the old ones and, if it was not there, a new one called `name`. */
    twostate predicate NewKeyOnly(new was: map<Key, HandlerKey>, new name: Key)
      reads this
    {
      && name in keys && keys == was[name := keys[name]]
      && (name in was ==> keys == was) && (name !in was ==> fresh(keys[name]))
    }

    /** The pool's arrays are the old ones, or the new ones of a reallocation. */
    twostate predicate NewArraysOnly()
      reads this, objs
    {
      && (objs.slots == old(objs.slots) || fresh(objs.slots))
      && (objs.objs == old(objs.objs) || fresh(objs.objs))
    }

    /** fcitx_handler_table_append */
    method Append(name: Key, obj: O) returns (newId: nat)
      requires Valid()
      modifies this`keys, this`lists, objs, objs.slots, objs.objs, keys.Values
      ensures Valid() && newId < objs.objs.Length && objs.objs[newId].obj == obj
      ensures newId !in old(objs.Live()) && objs.Live() == old(objs.Live()) + {newId}
      ensures lists == old(lists)[name := (if name in old(lists) then old(lists)[name] else []) + [newId]]
      ensures NewKeyOnly(old(keys), name) && NewArraysOnly()
      ensures forall id | id in old(objs.Live()) :: objs.objs[id].obj == old(objs.objs[id].obj)
    {
      hide ObjPool.Valid, ObjPool.Live, Table, Threaded, Ends;
      AboutNames();
      var key := FindKey(name, true);
      AboutNames();
      newId := KeyAppend(key, obj);
    }

    /** fcitx_handler_table_prepend */
    method Prepend(name: Key, obj: O) returns (newId: nat)
      requires Valid()
      modifies this`keys, this`lists, objs, objs.slots, objs.objs, keys.Values
      ensures Valid() && newId < objs.objs.Length && objs.objs[newId].obj == obj
      ensures newId !in old(objs.Live()) && objs.Live() == old(objs.Live()) + {newId}
      ensures lists == old(lists)[name := [newId] + (if name in old(lists) then old(lists)[name] else [])]
      ensures NewKeyOnly(old(keys), name) && NewArraysOnly()
      ensures forall id | id in old(objs.Live()) :: objs.objs[id].obj == old(objs.objs[id].obj)
    {
      hide ObjPool.Valid, ObjPool.Live, Table, Threaded, Ends;
      AboutNames();
      var key := FindKey(name, true);
      AboutNames();
      newId := KeyPrepend(key, obj);
    }

    lemma AboutNames()
      requires Valid()
      ensures lists.Keys == keys.Keys && forall k | k in keys :: keys[k].name == k
      ensures forall id | id in objs.Live() :: 0 <= id < objs.objs.Length
      ensures objs.slots.Length == objs.objs.Length
    {
    }

    /** fcitx_obj_pool_free_id tells rightly whether the id is in use. */
    ghost predicate Honest(id: int)
      reads objs
    {
      OffsetHonest(id, objs.eleSize, objs.slots.Length)
    }

    ghost predicate AllHonest(l: seq<int>)
      reads objs
    {
      forall i | 0 <= i < |l| :: Honest(l[i])
    }

    /** As long as the pool has at most 2^32 bytes, it does so for every live id. */
    lemma SmallPoolIsHonest()
      requires Valid() && objs.slots.Length * objs.eleSize <= 0x1_0000_0000
      ensures forall id | id in objs.Live() :: Honest(id)
    {
      hide Table, Threaded, Ends, FreeList, OffsetHonest;
      forall id | id in objs.Live() ensures Honest(id) {
        SlotsAreHonest(id, objs.eleSize, objs.slots.Length);
      }
    }

    /** The free function, when there is one, is called on `obj`. */
    ghost function Freed(freed: seq<O>, obj: O): seq<O> {
      if hasFree then freed + [obj] else freed
    }

    lemma AboutId(id: int)
      requires Valid() && id in objs.Live()
      ensures 0 <= id < objs.objs.Length
      ensures var key := objs.objs[id].key;
              key != null && key.name in keys && keys[key.name] == key && key.name in lists && id in lists[key.name]
    {
    }

    /** fcitx_handler_table_remove_by_id: the id leaves its key's list and the pool, and nothing else moves. */
    method RemoveById(id: int) returns (ghost k: nat)
      requires Valid() && (id == INVALID_ID || (id in objs.Live() && Honest(id)))
      modifies this`lists, this`freed, objs`nextFree, objs`free, objs.slots, objs.objs, keys.Values
      ensures Valid()
      ensures id == INVALID_ID ==> lists == old(lists) && freed == old(freed) && objs.Live() == old(objs.Live())
      ensures id != INVALID_ID ==>
                && objs.Live() == old(objs.Live()) - {id}
                && var name := old(objs.objs[id].key.name);
                k < |old(lists)[name]| && old(lists)[name][k] == id &&
                  lists == old(lists)[name := Without(old(lists)[name], k)]
      ensures id != INVALID_ID ==> freed == Freed(old(freed), old(objs.objs[id].obj))
      ensures forall j | j in objs.Live() :: objs.objs[j].obj == old(objs.objs[j].obj)
    {
      hide ObjPool.Valid, ObjPool.Live, Table, Threaded, Ends;
      if id == INVALID_ID {
        return 0;
      }
      AboutId(id);
      var key := objs.objs[id].key;
      k :| 0 <= k < |lists[key.name]| && lists[key.name][k] == id;
      UnlinkId(id, key, k);
      freed := Freed(freed, objs.objs[id].obj);
      lists := lists[key.name := Without(lists[key.name], k)];
      var ok := objs.FreeId(id);
    }

    /** Everything fcitx_handler_table_remove_by_id does before it gives the id back. */
    method UnlinkId(id: int, key: HandlerKey, ghost k: nat)
      requires Valid() && key.name in keys && keys[key.name] == key
      requires key.name in lists && k < |lists[key.name]| && lists[key.name][k] == id
      modifies objs.objs, key
      ensures var lists' := lists[key.name := Without(lists[key.name], k)];
              Table(objs.objs[..], objs.Live() - {id}, keys, lists') && Ends(keys, lists') && objs.Valid()
      ensures forall j | j in objs.Live() :: 0 <= j < objs.objs.Length && objs.objs[j].obj == old(objs.objs[j].obj)
    {
      hide ObjPool.Valid, ObjPool.Live, Table, Threaded, Ends;
      AboutKey(key);
      ghost var o, l := objs.objs[..], lists[key.name];
      Unlink(objs.objs, key, id, l, k);
      TableRemove(o, objs.objs[..], objs.Live(), keys, lists, key, k);
      EndsUpdated(keys, lists, key.name, Without(l, k));
    }

    /** The relinking of fcitx_handler_table_remove_by_id. */
    static method Unlink(a: array<HandlerObj<O>>, key: HandlerKey, id: int, ghost l: seq<int>, ghost k: nat)
      requires Threaded(a[..], l, key) && k < |l| && l[k] == id
      requires key.last == IdAt(l, |l| - 1) && key.first == IdAt(l, 0)
      modifies a, key
      ensures Unlinked(old(a[..]), a[..], l, k) && a[id].obj == old(a[id].obj)
      ensures key.first == IdAt(Without(l, k), 0) && key.last == IdAt(Without(l, k), |l| - 2)
    {
      var prev, next := a[id].prev, a[id].next;
      if prev == INVALID_ID {
        key.first := next;
      } else {
        a[prev] := a[prev].(next := next);
      }
      if next == INVALID_ID {
        key.last := prev;
      } else {
        a[next] := a[next].(prev := prev);
      }
    }

    /** The objects of the ids `l`, in order. */
    ghost function ObjsOf(o: seq<HandlerObj<O>>, l: seq<int>): seq<O>
      requires forall i | 0 <= i < |l| :: 0 <= l[i] < |o|
    {
      seq(|l|, i requires 0 <= i < |l| => o[l[i]].obj)
    }

    /** What freeing the objects of `l` in order adds to the log. */
    ghost function FreedObjs(o: seq<HandlerObj<O>>, l: seq<int>): (r: seq<O>)
      requires forall i | 0 <= i < |l| :: 0 <= l[i] < |o|
      ensures |r| == if hasFree then |l| else 0
    {
      if hasFree then ObjsOf(o, l) else []
    }

    lemma FreedStep(o: seq<HandlerObj<O>>, l: seq<int>, i: nat, freed: seq<O>)
      requires i < |l| && forall i | 0 <= i < |l| :: 0 <= l[i] < |o|
      ensures Freed(freed + FreedObjs(o, l[..i]), o[l[i]].obj) == freed + FreedObjs(o, l[..i + 1])
    {
      assert l[..i + 1] == l[..i] + [l[i]];
      assert ObjsOf(o, l[..i + 1]) == ObjsOf(o, l[..i]) + [o[l[i]].obj];
    }

    /** fcitx_handler_table_free_key: every object of the key is freed once, in list order, and the key goes. */
    method FreeKey(key: HandlerKey)
      requires Valid() && key.name in keys && keys[key.name] == key
      requires key.name in lists && AllHonest(lists[key.name])
      modifies this`keys, this`lists, this`freed, objs`nextFree, objs`free, objs.slots
      ensures Valid()
      ensures keys == old(keys) - {key.name} && lists == old(lists) - {key.name}
      ensures objs.Live() == old(objs.Live()) - Elements(old(lists)[key.name])
      ensures forall i | 0 <= i < |old(lists)[key.name]| :: 0 <= old(lists)[key.name][i] < objs.objs.Length
      ensures freed == old(freed) + FreedObjs(old(objs.objs[..]), old(lists)[key.name])
    {
      hide ObjPool.Valid, ObjPool.Live, Table, Threaded, Ends;
      AboutKey(key);
      ghost var live, l := objs.Live(), lists[key.name];
      FreeObjects(key, l);
      TableDropKey(objs.objs[..], live, keys, lists, key);
      EndsDropped(keys, lists, key.name);
      keys, lists := keys - {key.name}, lists - {key.name};
    }

    lemma EndsDropped(keys: map<Key, HandlerKey>, lists: map<Key, seq<int>>, name: Key)
      requires Ends(keys, lists)
      ensures Ends(keys - {name}, lists - {name})
    {
    }

    lemma ElementsStep(l: seq<int>, i: nat)
      requires i < |l| && Distinct(l)
      ensures l[..i + 1] == l[..i] + [l[i]]
      ensures Elements(l[..i + 1]) == Elements(l[..i]) + {l[i]} && l[i] !in Elements(l[..i])
    {
    }

    /** The loop of fcitx_handler_table_free_key. */
    method FreeObjects(key: HandlerKey, ghost l: seq<int>)
      requires objs.Valid() && AllHonest(l) && objs.slots.Length == objs.objs.Length
      requires Threaded(objs.objs[..], l, key) && key.first == IdAt(l, 0)
      requires forall i | 0 <= i < |l| :: l[i] in objs.Live()
      modifies this`freed, objs`nextFree, objs`free, objs.slots
      ensures objs.Valid() && objs.Live() == old(objs.Live()) - Elements(l)
      ensures freed == old(freed) + FreedObjs(objs.objs[..], l)
    {
      hide ObjPool.Valid, ObjPool.Live, Freed, FreedObjs, OffsetHonest;
      var id := key.first;
      ghost var i, o := 0, objs.objs[..];
      while id != INVALID_ID
        invariant 0 <= i <= |l| && id == IdAt(l, i)
        invariant objs.Valid() && objs.Live() == old(objs.Live()) - Elements(l[..i])
        invariant freed == old(freed) + FreedObjs(o, l[..i])
        decreases |l| - i
      {
        var nextId := objs.objs[id].next;
        assert Honest(l[i]);
        freed := Freed(freed, objs.objs[id].obj);
        var ok := objs.FreeId(id);
        ElementsStep(l, i);
        FreedStep(o, l, i, old(freed));
        id, i := nextId, i + 1;
      }
      assert l[..i] == l;
    }

    lemma DropAfter(lists: map<Key, seq<int>>, name: Key, l: seq<int>)
      ensures lists[name := l] - {name} == lists - {name}
    {
    }

    lemma OneLess(l: seq<int>, k: nat)
      requires k < |l|
      ensures |Without(l, k)| == |l| - 1
    {
    }

    lemma EndsOfNone(l: seq<int>, n: nat)
      requires forall i | 0 <= i < |l| :: 0 <= l[i] < n
      ensures IdAt(l, |l| - 1) == INVALID_ID && IdAt(l, 0) == INVALID_ID <==> l == []
    {
    }

    lemma NothingFreed(o: seq<HandlerObj<O>>, freed: seq<O>)
      ensures Elements<int>([]) == {} && freed + FreedObjs(o, []) == freed
    {
    }

    /** fcitx_handler_table_remove_by_id_full, for a live id: the key goes with its last object. */
    method RemoveByIdFull(id: int) returns (ghost k: nat)
      requires Valid() && id in objs.Live() && Honest(id)
      modifies this`keys, this`lists, this`freed, objs`nextFree, objs`free, objs.slots, objs.objs, keys.Values
      ensures Valid() && objs.Live() == old(objs.Live()) - {id}
      ensures freed == Freed(old(freed), old(objs.objs[id].obj))
      ensures var name := old(objs.objs[id].key.name);
              var l := old(lists)[name];
              && k < |l| && l[k] == id && keys == (if |l| == 1 then old(keys) - {name} else old(keys))
              && lists == if |l| == 1 then old(lists) - {name} else old(lists)[name := Without(l, k)]
    {
      hide ObjPool.Valid, ObjPool.Live, Table, Threaded, Ends, Freed, FreedObjs, ObjsOf, Without, IdAt, Elements;
      AboutId(id);
      var key := objs.objs[id].key;
      ghost var l := lists[key.name];
      k := RemoveById(id);
      AboutKey(key);
      OneLess(l, k);
      EndsOfNone(lists[key.name], objs.objs.Length);
      NothingFreed(objs.objs[..], freed);
      DropAfter(old(lists), key.name, lists[key.name]);
      if key.last == INVALID_ID && key.first == INVALID_ID {
        FreeKey(key);
      }
    }

    /** fcitx_handler_table_remove_key: the objects of that key and no others. */
    method RemoveKey(name: Key)
      requires Valid() && (name in lists ==> AllHonest(lists[name]))
      modifies this`keys, this`lists, this`freed, objs`nextFree, objs`free, objs.slots
      ensures Valid()
      ensures keys == old(keys) - {name}
      ensures name !in old(keys) ==> lists == old(lists) && freed == old(freed) && objs.Live() == old(objs.Live())
      ensures name in old(keys) ==>
                && name in old(lists) && lists == old(lists) - {name}
                && objs.Live() == old(objs.Live()) - Elements(old(lists)[name])
                && (forall i | 0 <= i < |old(lists)[name]| :: 0 <= old(lists)[name][i] < old(objs.objs.Length))
                && freed == old(freed) + FreedObjs(old(objs.objs[..]), old(lists)[name])
    {
      hide ObjPool.Valid, ObjPool.Live, Table, Threaded, Ends;
      AboutNames();
      var key := FindKey(name, false);
      if key != null {
        FreeKey(key);
      }
    }
  }
}
