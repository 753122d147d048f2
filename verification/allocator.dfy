/** MemoryPoolAllocator of allocators.h: blocks handed out of a list of chunks. Addresses are numbers; what the base
    allocator grants is part of the input of every call. */
module Allocators {
  import opened Wrappers

  const HEADER: nat := 24
  const NULL: nat := 0

  /** `RAPIDJSON_ALIGN` to eight bytes. */
  function Align(n: nat): (r: nat)
    ensures n <= r < n + 8 && r % 8 == 0
  {
    (n + 7) / 8 * 8
  }

  /** ---- Chunks and blocks as values ---- */

  /** A chunk: where its memory starts, how much there is, and how much is in use. */
  datatype View = View(buffer: nat, capacity: nat, size: nat)

  /** The blocks in use: their sizes, aligned, by address. */
  type Blocks = map<nat, nat>

  predicate Apart(a: int, m: int, b: int, n: int) {
    a + m <= b || b + n <= a
  }

  /** A chunk within its own memory, aligned. */
  ghost predicate SoundChunk(c: View) {
    c.buffer % 8 == 0 && c.buffer > HEADER && c.size <= c.capacity && c.size % 8 == 0
  }

  /** Headers and memory of two chunks do not overlap. */
  ghost predicate ChunksApart(c: View, d: View) {
    Apart(c.buffer - HEADER, HEADER + c.capacity, d.buffer - HEADER, HEADER + d.capacity)
  }

  ghost predicate SoundChunks(cs: seq<View>) {
    && (forall i | 0 <= i < |cs| :: SoundChunk(cs[i]))
    && (forall i, j | 0 <= i < j < |cs| :: SoundChunk(cs[i]) && SoundChunk(cs[j]) && ChunksApart(cs[i], cs[j]))
  }

  /** A block lies in what a chunk has in use. */
  ghost predicate Within(c: View, p: nat, n: nat) {
    c.buffer <= p && p + n <= c.buffer + c.size
  }

  ghost predicate Placed(cs: seq<View>, p: nat, n: nat) {
    p % 8 == 0 && n % 8 == 0 && n > 0 && exists i | 0 <= i < |cs| :: Within(cs[i], p, n)
  }

  /** Every block is aligned and lies in one chunk, and no two overlap. */
  ghost predicate SoundBlocks(cs: seq<View>, blocks: Blocks) {
    && (forall p | p in blocks :: Placed(cs, p, blocks[p]))
    && (forall p, q | p in blocks && q in blocks && p != q :: Apart(p, blocks[p], q, blocks[q]))
  }

  ghost predicate Sound(cs: seq<View>, blocks: Blocks) {
    cs != [] && SoundChunks(cs) && SoundBlocks(cs, blocks)
  }

  /** The head chunk, with n more bytes in use. */
  function Grown(cs: seq<View>, n: nat): seq<View>
    requires cs != []
  {
    [cs[0].(size := cs[0].size + n)] + cs[1..]
  }

  /** The first byte of the head chunk that is not in use. */
  function Top(cs: seq<View>): nat
    requires cs != []
  {
    cs[0].buffer + cs[0].size
  }

  lemma GrownSound(cs: seq<View>, n: nat)
    requires cs != [] && SoundChunks(cs) && n % 8 == 0 && cs[0].size + n <= cs[0].capacity
    ensures SoundChunks(Grown(cs, n))
  {
    var ds := Grown(cs, n);
    assert forall i | 0 <= i < |cs| :: SoundChunk(cs[i]) && ds[i].buffer == cs[i].buffer && ds[i].capacity == cs[i].capacity;
    assert SoundChunk(ds[0]) by { Evens(cs[0].size, n); }
    forall i, j | 0 <= i < j < |ds|
      ensures SoundChunk(ds[i]) && SoundChunk(ds[j]) && ChunksApart(ds[i], ds[j])
    {
      assert ChunksApart(cs[i], cs[j]);
    }
  }

  lemma Evens(a: nat, b: nat)
    requires a % 8 == 0 && b % 8 == 0
    ensures (a + b) % 8 == 0
  {
  }

  lemma GrownPlaced(cs: seq<View>, n: nat, p: nat, size: nat)
    requires cs != [] && Placed(cs, p, size)
    ensures Placed(Grown(cs, n), p, size)
  {
    var i :| 0 <= i < |cs| && Within(cs[i], p, size);
    assert Within(Grown(cs, n)[i], p, size);
  }

  /** A placed block ends at or below the top, or lies in another chunk. */
  lemma BelowTop(cs: seq<View>, p: nat, size: nat, at: nat, n: nat)
    requires cs != [] && SoundChunks(cs) && Placed(cs, p, size)
    requires at == Top(cs) && at + n <= cs[0].buffer + cs[0].capacity
    ensures Apart(p, size, at, n)
  {
    var i :| 0 <= i < |cs| && Within(cs[i], p, size);
    if i > 0 {
      assert ChunksApart(cs[0], cs[i]);
    }
  }

  /** A block at the top of the head chunk overlaps no other. */
  lemma PlaceAtTop(cs: seq<View>, blocks: Blocks, n: nat)
    requires Sound(cs, blocks) && n > 0 && n % 8 == 0 && cs[0].size + n <= cs[0].capacity
    ensures Top(cs) !in blocks && Sound(Grown(cs, n), blocks[Top(cs) := n])
  {
    hide SoundChunks, Placed;
    var at, ds := Top(cs), Grown(cs, n);
    GrownSound(cs, n);
    NoneAtTop(cs, blocks, n);
    forall p | p in blocks
      ensures Placed(ds, p, blocks[p]) && Apart(p, blocks[p], at, n)
    {
      GrownPlaced(cs, n, p, blocks[p]);
      BelowTop(cs, p, blocks[p], at, n);
    }
    TopPlaced(cs, n);
  }

  lemma NoneAtTop(cs: seq<View>, blocks: Blocks, n: nat)
    requires Sound(cs, blocks) && n > 0 && cs[0].size + n <= cs[0].capacity
    ensures Top(cs) !in blocks
  {
    hide SoundChunks;
    forall p | p in blocks
      ensures p != Top(cs)
    {
      BelowTop(cs, p, blocks[p], Top(cs), n);
      assert Placed(cs, p, blocks[p]);
    }
  }

  lemma TopPlaced(cs: seq<View>, n: nat)
    requires cs != [] && SoundChunks(cs) && n > 0 && n % 8 == 0
    ensures Placed(Grown(cs, n), Top(cs), n)
  {
    Evens(cs[0].buffer, cs[0].size);
    assert Within(Grown(cs, n)[0], Top(cs), n);
  }

  /** Only a block of the head chunk that ends at the top can be where the code looks for the last allocation. */
  lemma LastBlock(cs: seq<View>, blocks: Blocks, p: nat, n: nat)
    requires Sound(cs, blocks) && p in blocks && blocks[p] == n && p + n == Top(cs)
    ensures Within(cs[0], p, n)
  {
    hide SoundChunks, Within, Top, Apart;
    assert Placed(cs, p, n);
    var i :| 0 <= i < |cs| && Within(cs[i], p, n);
    if i > 0 {
      OtherChunk(cs, i, p, n);
    }
  }

  /** A block of another chunk does not end at the top of the head chunk. */
  lemma OtherChunk(cs: seq<View>, i: nat, p: nat, n: nat)
    requires SoundChunks(cs) && 0 < i < |cs| && Within(cs[i], p, n) && n > 0
    ensures p + n != Top(cs)
  {
    assert SoundChunk(cs[0]) && SoundChunk(cs[i]) && ChunksApart(cs[0], cs[i]);
  }

  /** The last block can grow in place. */
  lemma GrowLast(cs: seq<View>, blocks: Blocks, p: nat, more: nat)
    requires Sound(cs, blocks) && p in blocks && p + blocks[p] == Top(cs) && more % 8 == 0 && cs[0].size + more <= cs[0].capacity
    ensures Sound(Grown(cs, more), blocks[p := blocks[p] + more])
  {
    hide SoundChunks, Placed;
    var n, ds := blocks[p], Grown(cs, more);
    LastBlock(cs, blocks, p, n);
    GrownSound(cs, more);
    forall q | q in blocks && q != p
      ensures Placed(ds, q, blocks[q]) && Apart(q, blocks[q], p, n + more)
    {
      GrownPlaced(cs, more, q, blocks[q]);
      BelowTop(cs, q, blocks[q], Top(cs), more);
      assert Apart(p, n, q, blocks[q]);
    }
    LastPlaced(cs, p, n, more);
  }

  lemma LastPlaced(cs: seq<View>, p: nat, n: nat, more: nat)
    requires cs != [] && Placed(cs, p, n) && Within(cs[0], p, n) && more % 8 == 0
    ensures Placed(Grown(cs, more), p, n + more)
  {
    Evens(n, more);
    assert Within(Grown(cs, more)[0], p, n + more);
  }

  /** A block that is given up, or taken for smaller. */
  lemma Fewer(cs: seq<View>, blocks: Blocks, p: nat, n: nat)
    requires Sound(cs, blocks) && p in blocks && n % 8 == 0 && 0 < n <= blocks[p]
    ensures Sound(cs, blocks - {p}) && Sound(cs, blocks[p := n])
  {
    hide SoundChunks, Placed;
    SmallerPlaced(cs, p, blocks[p], n);
    forall q | q in blocks && q != p
      ensures Apart(q, blocks[q], p, n)
    {
      assert Apart(p, blocks[p], q, blocks[q]);
    }
  }

  lemma SmallerPlaced(cs: seq<View>, p: nat, n: nat, m: nat)
    requires Placed(cs, p, n) && 0 < m <= n && m % 8 == 0
    ensures Placed(cs, p, m)
  {
    var i :| 0 <= i < |cs| && Within(cs[i], p, n);
    assert Within(cs[i], p, m);
  }

  /** A new chunk in memory that no chunk has. */
  lemma AddOne(cs: seq<View>, blocks: Blocks, c: View)
    requires Sound(cs, blocks) && SoundChunk(c) && forall i | 0 <= i < |cs| :: SoundChunk(cs[i]) ==> ChunksApart(c, cs[i])
    ensures Sound([c] + cs, blocks)
  {
    hide Placed;
    var ds := [c] + cs;
    forall i, j | 0 <= i < j < |ds|
      ensures SoundChunk(ds[i]) && SoundChunk(ds[j]) && ChunksApart(ds[i], ds[j])
    {
      if i > 0 {
        assert ChunksApart(cs[i - 1], cs[j - 1]);
      }
    }
    forall p | p in blocks
      ensures Placed(ds, p, blocks[p])
    {
      MorePlaced(cs, c, p, blocks[p]);
    }
  }

  lemma MorePlaced(cs: seq<View>, c: View, p: nat, n: nat)
    requires Placed(cs, p, n)
    ensures Placed([c] + cs, p, n)
  {
    var i :| 0 <= i < |cs| && Within(cs[i], p, n);
    assert Within(([c] + cs)[i + 1], p, n);
  }

  /** Sums over chunks. */
  function Used(cs: seq<View>): nat {
    if cs == [] then 0 else cs[0].size + Used(cs[1..])
  }

  function Capacities(cs: seq<View>): nat {
    if cs == [] then 0 else cs[0].capacity + Capacities(cs[1..])
  }

  /** SIZE NEVER EXCEEDS CAPACITY. */
  lemma {:induction false} UsedWithinCapacity(cs: seq<View>)
    requires forall i | 0 <= i < |cs| :: SoundChunk(cs[i])
    ensures Used(cs) <= Capacities(cs)
  {
    if cs != [] {
      assert SoundChunk(cs[0]);
      UsedWithinCapacity(cs[1..]);
    }
  }

  /** ---- The allocator ---- */

  class ChunkHeader {
    const buffer: nat
    const capacity: nat
    const next: ChunkHeader?
    var size: nat

    constructor (buffer: nat, capacity: nat, next: ChunkHeader?)
      ensures this.buffer == buffer && this.capacity == capacity && this.next == next && size == 0
    {
      this.buffer, this.capacity, this.next := buffer, capacity, next;
      size := 0;
    }
  }

  /** The i-th chunk is linked to the next one, and the last one to none. */
  ghost predicate LinkAt(chain: seq<ChunkHeader>, i: nat)
    requires i < |chain|
  {
    if i + 1 < |chain| then chain[i].next == chain[i + 1] else chain[i].next == null
  }

  /** The list of chunks from the head on. */
  ghost predicate Linked(chain: seq<ChunkHeader>, head: ChunkHeader) {
    && chain != [] && chain[0] == head
    && (forall i | 0 <= i < |chain| :: LinkAt(chain, i))
    && (forall i, j | 0 <= i < j < |chain| :: chain[i] != chain[j])
  }

  lemma LinkedPush(chain: seq<ChunkHeader>, head: ChunkHeader, c: ChunkHeader)
    requires Linked(chain, head) && c.next == head && c !in chain
    ensures Linked([c] + chain, c)
  {
    var more := [c] + chain;
    forall i | 0 <= i < |more|
      ensures LinkAt(more, i)
    {
      if i > 0 {
        assert LinkAt(chain, i - 1);
      }
    }
  }

  /** What the base allocator may grant: memory for a header and a chunk, apart from all it has granted before. */
  ghost predicate Grantable(cs: seq<View>, base: nat, capacity: nat) {
    var c := View(base + HEADER, capacity, 0);
    SoundChunk(c) && forall i | 0 <= i < |cs| :: SoundChunk(cs[i]) ==> ChunksApart(c, cs[i])
  }

  /** n bytes at two places, perhaps in two states of memory. */
  ghost predicate SameBytes(m: int -> int, a: nat, m': int -> int, b: nat, n: nat) {
    forall k | 0 <= k < n :: SameByte(m, a, m', b, k)
  }

  ghost predicate SameByte(m: int -> int, a: nat, m': int -> int, b: nat, k: nat) {
    m(a + k) == m'(b + k)
  }

  lemma FewerBytes(m: int -> int, a: nat, m': int -> int, b: nat, n: nat, fewer: nat)
    requires SameBytes(m, a, m', b, n) && fewer <= n
    ensures SameBytes(m, a, m', b, fewer)
  {
  }

  function Max(a: nat, b: nat): nat {
    if a > b then a else b
  }

  class MemoryPoolAllocator {
    const chunkCapacity: nat
    var chunkHead: ChunkHeader
    /** Every byte of memory, by address. */
    var memory: int -> int
    /** The chunks from the head on, and the blocks in use. */
    ghost var chain: seq<ChunkHeader>
    ghost var blocks: Blocks

    ghost function Views(): (cs: seq<View>)
      reads this, chain
      ensures |cs| == |chain|
    {
      seq(|chain|, i requires 0 <= i < |chain| reads this, chain => View(chain[i].buffer, chain[i].capacity, chain[i].size))
    }

    ghost predicate Valid()
      reads this, chain
    {
      Linked(chain, chunkHead) && Sound(Views(), blocks)
    }

    /** The first chunk lies in memory of the allocator's own or of the user. */
    constructor (chunkCapacity: nat, buffer: nat, capacity: nat)
      requires buffer % 8 == 0 && buffer > HEADER
      ensures Valid() && blocks == map[] && fresh(chain) && Views() == [View(buffer, capacity, 0)]
    {
      this.chunkCapacity := chunkCapacity;
      var c := new ChunkHeader(buffer, capacity, null);
      chunkHead := c;
      memory := a => 0;
      chain := [c];
      blocks := map[];
    }

    /** `AddChunk`; grant is what the base allocator returns. */
    method AddChunk(capacity: nat, grant: Maybe<nat>) returns (ok: bool)
      requires Valid() && (grant.Some? ==> Grantable(Views(), grant.value, capacity))
      modifies this`chunkHead, this`chain
      ensures Valid() && (ok <==> grant.Some?)
      ensures Views() == if ok then [View(grant.value + HEADER, capacity, 0)] + old(Views()) else old(Views())
      ensures chain == (if ok then [chunkHead] + old(chain) else old(chain)) && (ok ==> fresh(chunkHead)) && (!ok ==> chunkHead == old(chunkHead))
    {
      hide Sound;
      ok := grant.Some?;
      if ok {
        ghost var cs := Views();
        AddOne(cs, blocks, View(grant.value + HEADER, capacity, 0));
        var chunk := new ChunkHeader(grant.value + HEADER, capacity, chunkHead);
        LinkedPush(chain, chunkHead, chunk);
        chunkHead := chunk;
        chain := [chunk] + chain;
        assert Views() == [View(grant.value + HEADER, capacity, 0)] + cs;
      }
    }

    /** `Malloc` HANDS OUT a block apart from every other, or nothing. */
    method Malloc(size: nat, grant: Maybe<nat>) returns (r: nat)
      requires Valid() && (grant.Some? ==> Grantable(Views(), grant.value, Max(chunkCapacity, Align(size))))
      modifies this`chunkHead, this`chain, this`blocks, chunkHead
      ensures Valid() && fresh(set c | c in chain && c !in old(chain))
      ensures r == NULL <==> size == 0 || (old(chunkHead.size + Align(size) > chunkHead.capacity) && grant.None?)
      ensures r == NULL ==> blocks == old(blocks)
      ensures r != NULL ==> r % 8 == 0 && r !in old(blocks) && blocks == old(blocks)[r := Align(size)]
    {
      hide Sound, Align;
      if size == 0 {
        return NULL;
      }
      AlignPositive(size);
      var aligned := Align(size);
      ghost var all := chain;
      HeadView();
      if chunkHead.size + aligned > chunkHead.capacity {
        var ok := AddChunk(if chunkCapacity > aligned then chunkCapacity else aligned, grant);
        if !ok {
          return NULL;
        }
      }
      HeadView();
      PlaceAtTop(Views(), blocks, aligned);
      TopIs(Views(), blocks);
      r := chunkHead.buffer + chunkHead.size;
      ghost var cs := Views();
      chunkHead.size := chunkHead.size + aligned;
      blocks := blocks[r := aligned];
      assert Views() == Grown(cs, aligned);
    }

    /** `memcpy` */
    method Copy(to: nat, from: nat, n: nat)
      modifies this`memory
      ensures SameBytes(memory, to, old(memory), from, n)
      ensures forall a | !(to <= a < to + n) :: memory(a) == old(memory)(a)
    {
      var was := memory;
      memory := a => if to <= a < to + n then was(from + (a - to)) else was(a);
    }

    /** `Realloc`, for a block in use and its size: the block keeps what it holds, wherever it goes. */
    method Realloc(p: nat, originalSize: nat, newSize: nat, grant: Maybe<nat>) returns (r: nat)
      requires Valid() && (grant.Some? ==> Grantable(Views(), grant.value, Max(chunkCapacity, Align(newSize))))
      requires p != NULL ==> p in blocks && blocks[p] == Align(originalSize)
      modifies this`chunkHead, this`chain, this`blocks, this`memory, chunkHead
      ensures Valid() && fresh(set c | c in chain && c !in old(chain))
      ensures newSize == 0 ==> r == NULL
      ensures r == NULL ==> blocks == old(blocks) && memory == old(memory)
      ensures r != NULL ==> (r == p || r !in old(blocks))
      ensures r != NULL && p == NULL ==> blocks == old(blocks)[r := Align(newSize)] && memory == old(memory)
      ensures r != NULL && p != NULL ==> blocks == (old(blocks) - {p})[r := Align(newSize)]
      ensures r != NULL && p != NULL ==> SameBytes(memory, r, old(memory), p, if originalSize < newSize then originalSize else newSize)
      ensures forall a: nat | a < r || a >= r + Align(originalSize) :: memory(a) == old(memory)(a)
    {
      hide Sound, Align;
      if p == NULL {
        r := Malloc(newSize, grant);
        return;
      }
      if newSize == 0 {
        return NULL;
      }
      AlignPositive(newSize);
      var original, wanted := Align(originalSize), Align(newSize);
      AlignTwice(newSize);
      AlignAtLeast(originalSize);
      ghost var held := blocks;
      if original >= wanted {
        ghost var cs := Views();
        Fewer(cs, blocks, p, wanted);
        blocks := blocks[p := wanted];
        assert Views() == cs;
        assert blocks == (held - {p})[p := wanted];
        return p;
      }
      HeadView();
      if p + original == chunkHead.buffer + chunkHead.size {
        var increment := wanted - original;
        if chunkHead.size + increment <= chunkHead.capacity {
          ghost var cs := Views();
          BlockMultiple(cs, blocks, p);
          Differences(wanted, original);
          GrowLast(cs, blocks, p, increment);
          chunkHead.size := chunkHead.size + increment;
          blocks := blocks[p := wanted];
          assert Views() == Grown(cs, increment);
          assert blocks == (held - {p})[p := wanted];
          return p;
        }
      }
      r := Malloc(wanted, grant);
      if r != NULL {
        ghost var cs := Views();
        BlockMultiple(cs, blocks, p);
        Fewer(cs, blocks, p, blocks[p]);
        blocks := blocks - {p};
        assert blocks == (held - {p})[r := wanted];
        Copy(r, p, original);
        assert Views() == cs;
        FewerBytes(memory, r, old(memory), p, original, if originalSize < newSize then originalSize else newSize);
      }
    }

    /** `Clear` frees every chunk but the first. */
    method Clear()
      requires Valid()
      modifies this`chunkHead, this`chain, this`blocks, chain
      ensures Valid() && blocks == map[] && chain == [old(chain)[|old(chain)| - 1]] && chunkHead.size == 0
    {
      hide Sound, SoundChunks, Linked;
      ghost var all := Views();
      SoundParts(all, blocks);
      blocks := map[];
      assert Views() == all;
      ghost var k: nat := 0;
      while true
        invariant k < |old(chain)| && chain == old(chain)[k..] && Linked(chain, chunkHead)
        invariant Views() == all[k..] && SoundChunks(Views()) && blocks == map[]
        decreases |old(chain)| - k
      {
        LinkedNext(chain, chunkHead);
        if chunkHead.next == null {
          break;
        }
        LinkedPop(chain, chunkHead);
        SoundTail(all[k..]);
        chunkHead := chunkHead.next;
        chain := chain[1..];
        k := k + 1;
        assert all[k..] == all[k - 1..][1..] && chain == old(chain)[k..];
        assert Views() == all[k..];
      }
      ghost var cs := Views();
      LinkedHead(chain, chunkHead);
      chunkHead.size := 0;
      SoundEmpty(cs);
      assert Views() == [cs[0].(size := 0)];
    }

    /** The loops that walk the list. */
    method Size() returns (size: nat)
      requires Valid()
      ensures size == Used(Views()) <= Capacities(Views())
    {
      WithinCapacity();
      size := 0;
      var c: ChunkHeader? := chunkHead;
      ghost var k: nat := 0;
      assert Views()[0..] == Views();
      while c != null
        invariant k <= |chain| && c == (if k < |chain| then chain[k] else null) && size + Used(Views()[k..]) == Used(Views())
        decreases |chain| - k
      {
        assert Views()[k..][1..] == Views()[k + 1..] && Views()[k..][0].size == c.size;
        assert LinkAt(chain, k);
        size := size + c.size;
        c := c.next;
        k := k + 1;
      }
    }

    method Capacity() returns (capacity: nat)
      requires Valid()
      ensures capacity == Capacities(Views())
    {
      capacity := 0;
      var c: ChunkHeader? := chunkHead;
      ghost var k: nat := 0;
      assert Views()[0..] == Views();
      while c != null
        invariant k <= |chain| && c == (if k < |chain| then chain[k] else null) && capacity + Capacities(Views()[k..]) == Capacities(Views())
        decreases |chain| - k
      {
        assert Views()[k..][1..] == Views()[k + 1..] && Views()[k..][0].capacity == c.capacity;
        assert LinkAt(chain, k);
        capacity := capacity + c.capacity;
        c := c.next;
        k := k + 1;
      }
    }

    lemma WithinCapacity()
      requires Valid()
      ensures Used(Views()) <= Capacities(Views())
    {
      hide Used, Capacities, SoundBlocks;
      EachSound(Views());
      UsedWithinCapacity(Views());
    }

    /** The head of the list is the first view. */
    lemma HeadView()
      requires Valid()
      ensures Views() != [] && Views()[0] == View(chunkHead.buffer, chunkHead.capacity, chunkHead.size)
    {
      hide Sound;
    }
  }

  lemma AlignPositive(n: nat)
    requires n > 0
    ensures Align(n) > 0 && Align(n) % 8 == 0 && Align(n) >= n
  {
  }

  lemma TopIs(cs: seq<View>, blocks: Blocks)
    requires Sound(cs, blocks)
    ensures Top(cs) == cs[0].buffer + cs[0].size > 0 && Top(cs) % 8 == 0
  {
    assert SoundChunk(cs[0]);
    Evens(cs[0].buffer, cs[0].size);
  }

  lemma AlignTwice(n: nat)
    ensures Align(Align(n)) == Align(n)
  {
  }

  lemma AlignAtLeast(n: nat)
    ensures Align(n) >= n && Align(n) % 8 == 0
  {
  }

  lemma Differences(a: nat, b: nat)
    requires a % 8 == 0 && b % 8 == 0 && a >= b
    ensures (a - b) % 8 == 0
  {
  }

  lemma BlockMultiple(cs: seq<View>, blocks: Blocks, p: nat)
    requires Sound(cs, blocks) && p in blocks
    ensures blocks[p] % 8 == 0 && blocks[p] > 0
  {
    assert Placed(cs, p, blocks[p]);
  }

  lemma EachSound(cs: seq<View>)
    requires SoundChunks(cs)
    ensures forall i | 0 <= i < |cs| :: SoundChunk(cs[i])
  {
  }

  lemma LinkedNext(chain: seq<ChunkHeader>, head: ChunkHeader)
    requires Linked(chain, head)
    ensures head.next == null <==> |chain| == 1
  {
    assert LinkAt(chain, 0);
  }

  lemma LinkedHead(chain: seq<ChunkHeader>, head: ChunkHeader)
    requires Linked(chain, head)
    ensures chain != [] && chain[0] == head
  {
  }

  lemma SoundParts(cs: seq<View>, blocks: Blocks)
    requires Sound(cs, blocks)
    ensures SoundChunks(cs) && cs != []
  {
  }

  lemma LinkedPop(chain: seq<ChunkHeader>, head: ChunkHeader)
    requires Linked(chain, head) && head.next != null
    ensures Linked(chain[1..], head.next)
  {
    LinkedNext(chain, head);
    assert LinkAt(chain, 0);
    forall i | 0 <= i < |chain| - 1
      ensures LinkAt(chain[1..], i)
    {
      assert LinkAt(chain, i + 1);
    }
  }

  lemma SoundTail(cs: seq<View>)
    requires SoundChunks(cs) && cs != []
    ensures SoundChunks(cs[1..])
  {
    forall i, j | 0 <= i < j < |cs| - 1
      ensures SoundChunk(cs[1..][i]) && SoundChunk(cs[1..][j]) && ChunksApart(cs[1..][i], cs[1..][j])
    {
      assert ChunksApart(cs[i + 1], cs[j + 1]);
    }
  }

  lemma SoundEmpty(cs: seq<View>)
    requires SoundChunks(cs) && |cs| == 1
    ensures Sound([cs[0].(size := 0)], map[])
  {
    assert SoundChunk(cs[0]);
  }
}
