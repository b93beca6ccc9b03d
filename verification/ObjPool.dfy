/**
  objpool.c: an id allocator over one growing array. The word in front of each slot is the
  next free id, INVALID_ID at the end of the free list, or ALLOCED_ID while the slot is in use.

  The byte buffer is modelled by two arrays, one of link words and one of payloads; the byte
  offset that fcitx_obj_pool_free_id computes is kept, with its truncation to 32 bits.
 */
module ObjPool {
  import opened Seqs

  const INVALID_ID := -1
  const ALLOCED_ID := -2

  /** fcitx_utils_align_to */
  function AlignTo(len: nat, align: nat): nat
    requires align > 0
  {
    var left := len % align;
    if left != 0 then len + align - left else len
  }

  /** Element `i` of an id sequence, or INVALID_ID outside it. */
  function IdAt(s: seq<int>, i: int): int {
    if 0 <= i < |s| then s[i] else INVALID_ID
  }

  /** The unsigned 32-bit byte offset of slot `i`. */
  function Offset32(i: int, eleSize: nat): nat {
    (i * eleSize) % 0x1_0000_0000
  }

  /** The memory of a pool: the word at each byte offset. */
  type Words = nat -> int

  /** fcitx_obj_pool_free_id finds id `i` in use, in a pool of `alloc` bytes. */
  predicate FoundInUse(words: Words, i: int, eleSize: nat, alloc: nat) {
    Offset32(i, eleSize) < alloc && words(Offset32(i, eleSize)) == ALLOCED_ID
  }

  /** Id `i` is in use, in a pool of `cap` slots. */
  predicate InUse(words: Words, i: int, eleSize: nat, cap: nat) {
    0 <= i < cap && words(i * eleSize) == ALLOCED_ID
  }

  /** The 32-bit offset of `i` is its own if there is such a slot, and behind the buffer otherwise. */
  predicate OffsetHonest(i: int, eleSize: nat, cap: nat) {
    if 0 <= i < cap then i * eleSize < 0x1_0000_0000 else Offset32(i, eleSize) >= cap * eleSize
  }

  /** Whatever is in memory, exactly the ids with an honest offset are told right. */
  lemma OffsetIsHonest(i: int, eleSize: nat, cap: nat)
    requires eleSize > 0
    ensures (forall words: Words :: FoundInUse(words, i, eleSize, cap * eleSize) <==> InUse(words, i, eleSize, cap))
            <==> OffsetHonest(i, eleSize, cap)
  {
    hide Offset32;
    OffsetOf(i, eleSize);
    if 0 <= i < cap {
      MulMono(i + 1, cap, eleSize);
    }
    if !OffsetHonest(i, eleSize, cap) {
      var words: Words := if 0 <= i < cap then x => if x == i * eleSize then ALLOCED_ID else 0 else x => ALLOCED_ID;
      assert FoundInUse(words, i, eleSize, cap * eleSize) != InUse(words, i, eleSize, cap);
    }
  }

  lemma OffsetOf(i: int, eleSize: nat)
    ensures Offset32(i, eleSize) < 0x1_0000_0000
    ensures i >= 0 ==> i * eleSize >= 0 && (i * eleSize < 0x1_0000_0000 <==> Offset32(i, eleSize) == i * eleSize)
  {
    if i >= 0 {
      MulMono(0, i, eleSize);
    }
  }

  /** The offset of id `i`, and of the invalid id, is honest in every pool that leaves room for it in 32 bits. */
  lemma SmallIdsAreHonest(i: int, eleSize: nat, cap: nat)
    requires eleSize > 0 && cap as int * eleSize - 0x1_0000_0000 <= i * eleSize < 0x1_0000_0000
    ensures OffsetHonest(i, eleSize, cap)
  {
    if i >= cap {
      MulMono(cap, i, eleSize);
    } else if i < 0 {
      MulMono(i, -1, eleSize);
    }
  }

  lemma SlotInside(i: nat, eleSize: nat, cap: nat)
    requires i < cap
    ensures 0 <= i * eleSize && i * eleSize + eleSize <= cap * eleSize
  {
    assert (cap - (i + 1)) * eleSize >= 0;
    assert cap * eleSize == (cap - (i + 1)) * eleSize + i * eleSize + eleSize;
  }

  lemma SlotsAreHonest(i: nat, eleSize: nat, cap: nat)
    requires eleSize > 0 && i < cap && cap * eleSize <= 0x1_0000_0000
    ensures OffsetHonest(i, eleSize, cap)
  {
    hide OffsetHonest;
    SlotInside(i, eleSize, cap);
    SmallIdsAreHonest(i, eleSize, cap);
  }

  /**
    Elements are aligned to four bytes, so in every pool id 2^30 has the offset of slot 0: it is found
    in use, and freed, whenever id 0 is in use.
   */
  lemma WrappedIdIsFreed(words: Words, eleSize: nat, cap: nat)
    requires eleSize > 0 && eleSize % 4 == 0 && InUse(words, 0, eleSize, cap) && cap <= 0x4000_0000
    ensures FoundInUse(words, 0x4000_0000, eleSize, cap * eleSize) && !InUse(words, 0x4000_0000, eleSize, cap)
    ensures !OffsetHonest(0x4000_0000, eleSize, cap)
  {
    var q := eleSize / 4;
    assert 0x4000_0000 * eleSize == q * 0x1_0000_0000;
    assert Offset32(0x4000_0000, eleSize) == 0 == 0 * eleSize;
    MulMono(1, cap, eleSize);
  }

  lemma HonestSlot(i: int, eleSize: nat, cap: nat)
    requires eleSize > 0 && OffsetHonest(i, eleSize, cap)
    ensures 0 <= i < cap ==> Offset32(i, eleSize) == i * eleSize < cap * eleSize && Offset32(i, eleSize) / eleSize == i
    ensures !(0 <= i < cap) ==> Offset32(i, eleSize) >= cap * eleSize
  {
    if 0 <= i < cap {
      OffsetOf(i, eleSize);
      MulMono(i + 1, cap, eleSize);
      DivExact(i, eleSize);
    }
  }

  lemma MulMono(a: int, b: int, c: nat)
    requires a <= b
    ensures a * c <= b * c
  {
    assert (b - a) * c >= 0;
  }

  lemma DivExact(i: int, m: nat)
    requires m > 0
    ensures (i * m) / m == i
  {
    var q, r := (i * m) / m, (i * m) % m;
    assert m * (i - q) == r;
    if i - q >= 1 { MulMono(1, i - q, m); } else if i - q <= -1 { MulMono(i - q, -1, m); }
  }

  /** The link words that growing from `cap` slots writes: the new id, the loop, and the end mark. */
  predicate GrowthWrites(cap: nat, w: int) {
    w == cap || cap + 1 <= w < 2 * cap - 1 || w == if cap + 1 <= 2 * cap - 1 then 2 * cap - 1 else cap + 1
  }

  /** They all lie inside the doubled buffer exactly when the old one had at least two slots. */
  lemma GrowthFits(cap: nat)
    ensures (forall w | GrowthWrites(cap, w) :: w < 2 * cap) <==> cap >= 2
  {
    assert GrowthWrites(cap, cap);
    if cap == 1 {
      assert GrowthWrites(cap, 2);
    }
  }

  ghost predicate FreeList(w: seq<int>, free: seq<int>) {
    && Distinct(free)
    && (forall i | 0 <= i < |free| :: 0 <= free[i] < |w|)
    && (forall i {:trigger w[free[i]]} | 0 <= i < |free| :: w[free[i]] == IdAt(free, i + 1))
    && (forall k | 0 <= k < |w| :: w[k] == ALLOCED_ID <==> k !in free)
  }

  function Range(lo: nat, hi: nat): seq<int>
    requires lo <= hi
  {
    seq(hi - lo, i => lo + i)
  }

  /** Slots from `lo` on threaded one after the other, those below all in use. */
  lemma ThreadedFrom(w: seq<int>, lo: nat)
    requires lo < |w| && w[|w| - 1] == INVALID_ID
    requires forall k | 0 <= k < lo :: w[k] == ALLOCED_ID
    requires forall k | lo <= k < |w| - 1 :: w[k] == k + 1
    ensures FreeList(w, Range(lo, |w|))
  {
    var free := Range(lo, |w|);
    forall k | 0 <= k < |w| ensures w[k] == ALLOCED_ID <==> k !in free {
      if k >= lo {
        assert free[k - lo] == k;
      }
    }
  }

  class ObjPool<T(0)> {
    const eleSize: nat
    var slots: array<int>
    var objs: array<T>
    var nextFree: int
    ghost var free: seq<int>

    /** The free list is acyclic, and the slots not on it are exactly the allocated ones. */
    ghost predicate Valid()
      reads this, slots
    {
      && eleSize > 0 && eleSize % 4 == 0
      && slots.Length == objs.Length >= 1 && slots as object != objs
      && FreeList(slots[..], free) && nextFree == IdAt(free, 0)
    }

    ghost function Live(): set<int>
      reads this, slots
    {
      set k | 0 <= k < slots.Length && slots[k] == ALLOCED_ID
    }

    /** fcitx_obj_pool_init_with_prealloc */
    constructor (size: nat, prealloc: nat)
      requires prealloc >= 1
      ensures Valid() && Live() == {} && slots.Length == prealloc && fresh(slots) && fresh(objs)
      ensures size + 4 <= eleSize < size + 8 && eleSize % 4 == 0
    {
      eleSize := AlignTo(size + 4, 4);
      nextFree := 0;
      slots := new int[prealloc];
      objs := new T[prealloc];
      free := Range(0, prealloc);
      new;
      var i := 0;
      while i < prealloc - 1
        invariant 0 <= i <= prealloc - 1 && slots.Length == prealloc == objs.Length && fresh(slots) && fresh(objs)
        invariant slots as object != objs && eleSize == AlignTo(size + 4, 4) && nextFree == 0
        invariant free == Range(0, prealloc)
        invariant forall k | 0 <= k < i :: slots[k] == k + 1
      {
        slots[i] := i + 1;
        i := i + 1;
      }
      slots[i] := INVALID_ID;
      ThreadedFrom(slots[..], 0);
    }

    /** fcitx_obj_pool_alloc_id */
    method AllocId() returns (id: nat)
      requires Valid() && (free == [] ==> slots.Length >= 2)
      modifies this`slots, this`objs, this`nextFree, this`free, slots
      ensures Valid() && id !in old(Live()) && Live() == old(Live()) + {id}
      ensures slots.Length == if old(free) == [] then 2 * old(slots.Length) else old(slots.Length)
      ensures id == if old(free) == [] then old(slots.Length) else old(free[0])
      ensures old(objs[..]) <= objs[..]
      ensures slots == old(slots) || fresh(slots)
      ensures objs == old(objs) || fresh(objs)
      ensures id < slots.Length == objs.Length && slots as object != objs
    {
      if nextFree >= 0 {
        id := Pop();
      } else {
        id := Grow();
      }
    }

    /** The popping path of fcitx_obj_pool_alloc_id. */
    method Pop() returns (id: nat)
      requires Valid() && nextFree >= 0
      modifies this`nextFree, this`free, slots
      ensures Valid() && free == old(free[1..]) && id == old(free[0])
      ensures id !in old(Live()) && Live() == old(Live()) + {id}
    {
      id := nextFree;
      nextFree := slots[id];
      slots[id] := ALLOCED_ID;
      ghost var was := free;
      free := free[1..];
      assert forall i | 0 <= i < |free| :: free[i] == was[i + 1] && was[i + 1] != was[0];
    }

    /** The doubling path of fcitx_obj_pool_alloc_id. */
    method Grow() returns (id: nat)
      requires Valid() && nextFree < 0 && slots.Length >= 2
      modifies this`slots, this`objs, this`nextFree, this`free
      ensures Valid() && id == old(slots.Length) && slots.Length == 2 * old(slots.Length)
      ensures id !in old(Live()) && Live() == old(Live()) + {id}
      ensures old(objs[..]) <= objs[..]
      ensures fresh(slots) && fresh(objs)
    {
      assert free == [];
      id := slots.Length;
      var w := new int[2 * id];
      var o := new T[2 * id];
      forall k | 0 <= k < id {
        w[k] := slots[k];
      }
      forall k | 0 <= k < id {
        o[k] := objs[k];
      }
      nextFree := id + 1;
      ThreadGrown(w, id);
      free := Range(id + 1, 2 * id);
      slots, objs := w, o;
    }

    /** Takes slot `cap` of a doubled array and threads the slots behind it. */
    static method ThreadGrown(w: array<int>, cap: nat)
      requires w.Length == 2 * cap && cap >= 2
      requires forall k | 0 <= k < cap :: w[k] == ALLOCED_ID
      modifies w
      ensures FreeList(w[..], Range(cap + 1, 2 * cap))
      ensures forall k | 0 <= k < 2 * cap :: w[k] == ALLOCED_ID <==> k <= cap
    {
      w[cap] := ALLOCED_ID;
      var i := cap + 1;
      while i < 2 * cap - 1
        invariant cap + 1 <= i <= 2 * cap - 1
        invariant forall k | cap + 1 <= k < i :: w[k] == k + 1
        invariant forall k | 0 <= k <= cap :: w[k] == ALLOCED_ID
      {
        w[i] := i + 1;
        i := i + 1;
      }
      w[i] := INVALID_ID;
      ThreadedFrom(w[..], cap + 1);
    }

    /** fcitx_obj_pool_free_id: an id that is not live is refused and nothing changes. */
    method FreeId(i: int) returns (ok: bool)
      requires Valid() && OffsetHonest(i, eleSize, slots.Length)
      modifies this`nextFree, this`free, slots
      ensures Valid() && ok == (i in old(Live()))
      ensures ok ==> free == [i] + old(free) && Live() == old(Live()) - {i}
      ensures !ok ==> free == old(free) && nextFree == old(nextFree) && slots[..] == old(slots[..])
    {
      HonestSlot(i, eleSize, slots.Length);
      var offset := Offset32(i, eleSize);
      if offset >= slots.Length * eleSize {
        return false;
      }
      var k := offset / eleSize;
      if slots[k] != ALLOCED_ID {
        return false;
      }
      slots[k] := nextFree;
      nextFree := i;
      free := [i] + free;
      return true;
    }
  }
}
