/**
  memory-pool.c: blocks cut one after the other from chunks; a chunk with little left moves to the
  array of full ones. Addresses are numbers; what malloc returns is a parameter.
 */
module MemoryPool {
  import opened Seqs
  import ObjPool

  /** FCITX_MEMORY_POOL_PAGE_SIZE and FCITX_MEMORY_CHUNK_FULL_SIZE */
  const PAGE_SIZE := 8192
  const FULL_SIZE := 16

  /** sizeof(int) */
  const ALIGN := 4

  datatype Chunk = Chunk(cur: nat, end: nat, memory: nat)

  /** A block handed out: `size` bytes from `addr` on. */
  datatype Block = Block(addr: nat, size: nat)

  predicate ChunkOk(c: Chunk) {
    0 < c.memory <= c.cur <= c.end && c.memory < c.end
  }

  predicate Apart(c: Chunk, d: Chunk) {
    c.end <= d.memory || d.end <= c.memory
  }

  predicate Inside(b: Block, c: Chunk) {
    c.memory <= b.addr && b.addr + b.size <= c.cur
  }

  predicate Disjoint(b: Block, d: Block) {
    b.addr + b.size <= d.addr || d.addr + d.size <= b.addr
  }

  ghost predicate ChunksOk(all: seq<Chunk>) {
    && Distinct(all)
    && (forall c | c in all :: ChunkOk(c))
    && forall c, d | c in all && d in all && c != d :: Apart(c, d)
  }

  ghost predicate BlocksOk(all: seq<Chunk>, blocks: seq<Block>) {
    && (forall i | 0 <= i < |blocks| :: Housed(all, blocks[i]))
    && forall i, j | 0 <= i < j < |blocks| :: Disjoint(blocks[i], blocks[j])
  }

  ghost predicate Housed(all: seq<Chunk>, b: Block) {
    exists c :: c in all && Inside(b, c)
  }

  /** The addresses that have to be given back. */
  ghost function Memories(all: seq<Chunk>): (r: seq<nat>)
    ensures |r| == |all|
  {
    seq(|all|, i requires 0 <= i < |all| => all[i].memory)
  }

  // Order does not matter.

  lemma {:induction false} DistinctCounts<T>(s: seq<T>, x: T)
    requires Distinct(s)
    ensures multiset(s)[x] <= 1
  {
    if s == [] {
    } else {
      DistinctCounts(s[1..], x);
      assert s == [s[0]] + s[1..];
      assert s[0] !in s[1..];
    }
  }

  lemma CountTwice<T>(s: seq<T>, i: nat, j: nat)
    requires i < j < |s| && s[i] == s[j]
    ensures multiset(s)[s[i]] >= 2
  {
    assert s == s[..j] + s[j..];
    assert s[i] in s[..j] && s[j] in s[j..];
  }

  lemma Permuted<T>(s: seq<T>, r: seq<T>)
    requires multiset(s) == multiset(r)
    ensures forall x :: x in s <==> x in r
    ensures Distinct(s) ==> Distinct(r)
  {
    forall x ensures x in s <==> x in r {
      assert x in multiset(s) <==> x in multiset(r);
    }
    if Distinct(s) {
      forall i, j | 0 <= i < j < |r| ensures r[i] != r[j] {
        DistinctCounts(s, r[i]);
        if r[i] == r[j] {
          CountTwice(r, i, j);
        }
      }
    }
  }

  lemma PermutedOk(s: seq<Chunk>, r: seq<Chunk>, blocks: seq<Block>)
    requires multiset(s) == multiset(r) && ChunksOk(s) && BlocksOk(s, blocks)
    ensures ChunksOk(r) && BlocksOk(r, blocks)
  {
    Permuted(s, r);
    forall i | 0 <= i < |blocks| ensures Housed(r, blocks[i]) {
      assert Housed(s, blocks[i]);
    }
  }

  /** Cutting a block off the free end of a chunk. */
  lemma CutOk(all: seq<Chunk>, blocks: seq<Block>, k: nat, b: Block)
    requires ChunksOk(all) && BlocksOk(all, blocks) && k < |all|
    requires all[k].cur <= b.addr && b.addr + b.size <= all[k].end
    ensures var all' := all[k := all[k].(cur := b.addr + b.size)]; ChunksOk(all') && BlocksOk(all', blocks + [b])
  {
    var c, c' := all[k], all[k].(cur := b.addr + b.size);
    var all' := all[k := c'];
    assert c in all && ChunkOk(c);
    assert all'[k] == c' && Inside(b, c');
    assert forall d | d in all' :: d == c' || d in all;
    forall i | 0 <= i < |all| && i != k ensures Apart(all[i], c) && Apart(c, all[i]) {
      assert all[i] != c;
    }
    assert forall i | 0 <= i < |all'| && i != k :: Apart(all'[i], c');
    forall i | 0 <= i < |blocks| ensures Housed(all', blocks[i]) && Disjoint(blocks[i], b) {
      var d :| d in all && Inside(blocks[i], d);
      var j :| 0 <= j < |all| && all[j] == d;
      assert all'[j] in all' && Inside(blocks[i], all'[j]);
    }
  }

  /** A new chunk, apart from the others, with its first block. */
  lemma GrowOk(all: seq<Chunk>, blocks: seq<Block>, c: Chunk)
    requires ChunksOk(all) && BlocksOk(all, blocks) && ChunkOk(c) && forall i | 0 <= i < |all| :: Apart(all[i], c)
    ensures ChunksOk(all + [c]) && BlocksOk(all + [c], blocks + [Block(c.memory, c.cur - c.memory)])
  {
    var all', b := all + [c], Block(c.memory, c.cur - c.memory);
    assert all'[|all|] == c && Inside(b, c);
    assert forall d | d in all' :: d == c || d in all;
    assert forall d | d in all :: Apart(d, c);
    forall i | 0 <= i < |blocks| ensures Housed(all', blocks[i]) && Disjoint(blocks[i], b) {
      var d :| d in all && Inside(blocks[i], d);
      assert d in all';
    }
  }

  // utarray

  /** utarray_remove_quick: the last element takes the place of the removed one. */
  function RemoveQuick<T>(s: seq<T>, pos: nat): (r: seq<T>)
    requires pos < |s|
    ensures |r| == |s| - 1
  {
    if |s| - 1 != pos then s[pos := s[|s| - 1]][..|s| - 1] else s[..|s| - 1]
  }

  lemma RemoveQuickPermutes<T>(s: seq<T>, pos: nat)
    requires pos < |s|
    ensures multiset(RemoveQuick(s, pos) + [s[pos]]) == multiset(s)
  {
    var last := s[|s| - 1];
    assert s == s[..|s| - 1] + [last];
    if |s| - 1 != pos {
      var r := s[pos := last];
      assert r == r[..|s| - 1] + [last];
      assert multiset(r) == multiset(s) - multiset{s[pos]} + multiset{last};
    }
  }

  /** fcitx_utils_align_to for a pointer */
  function AlignPtr(p: nat): (r: nat)
    ensures p <= r < p + ALIGN && r % ALIGN == 0
  {
    ObjPool.AlignTo(p, ALIGN)
  }

  class MemoryPool {
    var chunks: seq<Chunk>
    var fullchunks: seq<Chunk>
    /** The blocks handed out since the last clear, and the addresses given to free. */
    ghost var blocks: seq<Block>
    ghost var freed: seq<nat>

    ghost function All(): seq<Chunk>
      reads this
    {
      fullchunks + chunks
    }

    /** Blocks lie disjointly in chunks, and every chunk is in one place of one of the arrays. */
    ghost predicate Sound()
      reads this
    {
      ChunksOk(All()) && BlocksOk(All(), blocks)
    }

    /** And the chunks still searched are exactly those with more than a little left. */
    ghost predicate Valid()
      reads this
    {
      Sound() && (forall c | c in chunks :: Roomy(c)) && forall c | c in fullchunks :: !Roomy(c)
    }

    /** fcitx_memory_pool_new */
    constructor ()
      ensures Valid() && chunks == fullchunks == [] && blocks == [] && freed == []
    {
      chunks, fullchunks := [], [];
      blocks, freed := [], [];
    }

    /** The search for a chunk with room, cutting the block off the first one found. */
    method CutFromChunk(size: nat, align: bool) returns (k: nat, result: nat)
      requires Valid()
      modifies `chunks, `blocks
      ensures Sound() && k <= |chunks| == old(|chunks|)
      ensures k == |chunks| ==> chunks == old(chunks) && blocks == old(blocks)
      ensures k < |chunks| ==> chunks == old(chunks)[k := old(chunks)[k].(cur := result + size)]
                               && blocks == old(blocks) + [Block(result, size)] && (align ==> result % ALIGN == 0)
      ensures forall i | 0 <= i < k :: !Fits(old(chunks)[i], size, align)
      ensures k < |chunks| ==> Fits(old(chunks)[k], size, align) && StartsIn(old(chunks)[k], align, result)
    {
      k, result := 0, 0;
      while k < |chunks|
        invariant 0 <= k <= |chunks|
        invariant forall i | 0 <= i < k :: !Fits(chunks[i], size, align)
      {
        var chunk := chunks[k];
        result := if align then AlignPtr(chunk.cur) else chunk.cur;
        var new_ := result + size;
        if new_ <= chunk.end {
          ghost var all := All();
          CutOk(all, blocks, |fullchunks| + k, Block(result, size));
          chunks := chunks[k := chunk.(cur := new_)];
          blocks := blocks + [Block(result, size)];
          assert All() == all[|fullchunks| + k := chunk.(cur := new_)];
          return;
        }
        k := k + 1;
      }
    }

    /** The chunk size for a block: whole pages. */
    static function ChunkSize(size: nat): (r: nat)
      ensures size <= r < size + 8192 && r % 8192 == 0
    {
      ((size + PAGE_SIZE - 1) / PAGE_SIZE) * PAGE_SIZE
    }

    /** The chunk at `memory`, with its first block cut off. */
    static function NewChunk(size: nat, memory: nat): (c: Chunk)
      ensures c.memory == memory && c.cur == memory + size
      ensures c.end % 8192 == memory % 8192 && c.cur <= c.end < c.cur + 8192
    {
      Chunk(memory + size, memory + ChunkSize(size), memory)
    }

    /** A new chunk behind the others. */
    method Grow(size: nat, memory: nat)
      requires Sound() && size > 0 && memory > 0
      requires forall c | c in All() :: Apart(c, Chunk(memory, memory + ChunkSize(size), memory))
      modifies `chunks, `blocks
      ensures Sound() && chunks == old(chunks) + [NewChunk(size, memory)]
      ensures blocks == old(blocks) + [Block(memory, size)] && All() == old(All()) + [NewChunk(size, memory)]
      ensures multiset(Memories(All())) == old(multiset(Memories(All()))) + multiset{memory}
    {
      var c := NewChunk(size, memory);
      forall i | 0 <= i < |All()| ensures Apart(All()[i], c) {
        assert All()[i] in All();
      }
      GrowOk(All(), blocks, c);
      GrowMemories(All(), c);
      chunks := chunks + [c];
      blocks := blocks + [Block(memory, size)];
      assert All() == old(All()) + [c];
    }

    /** fcitx_memory_pool_alloc_align; malloc would return `memory`, away from the live chunks and aligned. */
    method AllocAlign(size: nat, align: bool, memory: nat) returns (result: nat)
      requires Valid() && size > 0
      requires memory > 0 && memory % ALIGN == 0
      requires forall c | c in All() :: Apart(c, Chunk(memory, memory + ChunkSize(size), memory))
      modifies `chunks, `fullchunks, `blocks
      ensures Valid() && blocks == old(blocks) + [Block(result, size)]
      ensures align ==> result % 4 == 0
      ensures var grown := forall i | 0 <= i < |old(chunks)| :: !Fits(old(chunks)[i], size, align);
              && multiset(Memories(All()))
                 == old(multiset(Memories(All()))) + (if grown then multiset{memory} else multiset{})
              && (grown ==> result == memory
                            && multiset(All()) == old(multiset(All())) + multiset{NewChunk(size, memory)})
      ensures forall k | 0 <= k < |old(chunks)| && FirstFit(old(chunks), k, size, align) ::
                StartsIn(old(chunks)[k], align, result)
    {
      hide ChunksOk, BlocksOk, Memories;
      ghost var all0 := All();
      var k;
      k, result := CutFromChunk(size, align);
      if k < |chunks| {
        CutMemories(all0, All(), |fullchunks| + k);
      } else {
        result := memory;
        Grow(size, memory);
      }
      assert forall i | 0 <= i < |chunks| && i != k :: chunks[i] == old(chunks)[i] && chunks[i] in old(chunks);
      RetireIfFull(k);
    }

    /** The chunk that was cut from moves to the full ones if little is left of it. */
    method RetireIfFull(k: nat)
      requires Sound() && k < |chunks|
      requires (forall i | 0 <= i < |chunks| && i != k :: Roomy(chunks[i])) && forall c | c in fullchunks :: !Roomy(c)
      modifies `chunks, `fullchunks
      ensures Valid() && multiset(All()) == old(multiset(All()))
      ensures multiset(Memories(All())) == old(multiset(Memories(All())))
    {
      if chunks[k].end - chunks[k].cur <= FULL_SIZE {
        Retire(k);
      }
    }

    /** A chunk moves to the full ones. */
    method Retire(k: nat)
      requires Sound() && k < |chunks| && !Roomy(chunks[k])
      requires (forall i | 0 <= i < |chunks| && i != k :: Roomy(chunks[i])) && forall c | c in fullchunks :: !Roomy(c)
      modifies `chunks, `fullchunks
      ensures Valid() && multiset(Memories(All())) == old(multiset(Memories(All())))
      ensures multiset(All()) == old(multiset(All()))
      ensures fullchunks == old(fullchunks) + [old(chunks)[k]] && chunks == RemoveQuick(old(chunks), k)
    {
      ghost var all := All();
      RemoveQuickPermutes(chunks, k);
      fullchunks := fullchunks + [chunks[k]];
      chunks := RemoveQuick(chunks, k);
      RetireMemories(old(fullchunks), old(chunks), k);
      PermutedOk(all, All(), blocks);
    }

    /** fcitx_memory_pool_clear: every chunk's memory is freed, once. */
    method Clear()
      requires Valid()
      modifies this
      ensures Valid() && chunks == fullchunks == [] && blocks == []
      ensures freed == old(freed + Memories(All())) && Distinct(old(Memories(All())))
    {
      ghost var all := All();
      DistinctMemories(all);
      FreeChunks(fullchunks);
      FreeChunks(chunks);
      MemoriesConcat(fullchunks, chunks);
      ConcatAssociates(old(freed), Memories(fullchunks), Memories(chunks));
      chunks, fullchunks := [], [];
      blocks := [];
    }

    /** utarray_clear with fcitx_memory_chunk_free on every element */
    method FreeChunks(a: seq<Chunk>)
      requires forall c | c in a :: ChunkOk(c)
      modifies `freed
      ensures freed == old(freed) + Memories(a)
    {
      var i := 0;
      while i < |a|
        invariant 0 <= i <= |a| && freed == old(freed) + Memories(a)[..i]
      {
        assert a[i] in a;
        if a[i].memory != 0 {
          freed := freed + [a[i].memory];
        }
        i := i + 1;
        assert Memories(a)[..i] == Memories(a)[..i - 1] + [a[i - 1].memory];
      }
      assert Memories(a)[..i] == Memories(a);
    }
  }

  predicate Roomy(c: Chunk) {
    c.end - c.cur > 16
  }

  /** There is room for the block in the chunk. */
  predicate Fits(c: Chunk, size: nat, align: bool) {
    (if align then AlignPtr(c.cur) else c.cur) + size <= c.end
  }

  /** It begins where the free part does, or at the next multiple of four. */
  predicate StartsIn(c: Chunk, align: bool, addr: nat) {
    if align then c.cur <= addr < c.cur + 4 && addr % 4 == 0 else addr == c.cur
  }

  predicate FirstFit(chunks: seq<Chunk>, k: nat, size: nat, align: bool)
    requires k < |chunks|
  {
    Fits(chunks[k], size, align) && forall i | 0 <= i < k :: !Fits(chunks[i], size, align)
  }

  lemma CutMemories(all: seq<Chunk>, all': seq<Chunk>, k: nat)
    requires k < |all| && |all'| == |all| && all'[k].memory == all[k].memory
    requires forall i | 0 <= i < |all| && i != k :: all'[i] == all[i]
    ensures Memories(all') == Memories(all)
  {
  }

  lemma GrowMemories(all: seq<Chunk>, c: Chunk)
    ensures multiset(Memories(all + [c])) == multiset(Memories(all)) + multiset{c.memory}
  {
    assert Memories(all + [c]) == Memories(all) + [c.memory];
  }

  lemma MemoriesConcat(a: seq<Chunk>, b: seq<Chunk>)
    ensures Memories(a + b) == Memories(a) + Memories(b)
  {
  }

  lemma RetireMemories(full: seq<Chunk>, chunks: seq<Chunk>, k: nat)
    requires k < |chunks|
    ensures var now := full + [chunks[k]] + RemoveQuick(chunks, k);
            multiset(now) == multiset(full + chunks) && multiset(Memories(now)) == multiset(Memories(full + chunks))
  {
    var c, rest := chunks[k], RemoveQuick(chunks, k);
    RemoveQuickPermutes(chunks, k);
    RemoveQuickPermutes(Memories(chunks), k);
    assert Memories(rest) == RemoveQuick(Memories(chunks), k);
    MemoriesConcat(full, chunks);
    MemoriesConcat(full + [c], rest);
    MemoriesConcat(full, [c]);
    assert Memories([c]) == [c.memory];
  }

  lemma DistinctMemories(all: seq<Chunk>)
    requires ChunksOk(all)
    ensures Distinct(Memories(all))
  {
    forall i, j | 0 <= i < j < |all| ensures all[i].memory != all[j].memory {
      assert all[i] in all && all[j] in all && all[i] != all[j];
    }
  }
}
