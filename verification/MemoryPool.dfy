/** The pool allocator: blocks are cut off the head chunk of a list, never freed one by one, and
    grown in place when they are the last block of the head chunk. */
module MemoryPool {
  import opened Bytes

  const ALIGNMENT := 8
  const SIZEOF_SHARED_DATA := 32
  const SIZEOF_CHUNK_HEADER := 24

  /** RAPIDJSON_ALIGN. */
  function Align(x: nat): (r: nat)
    ensures x <= r < x + ALIGNMENT && r % ALIGNMENT == 0
  {
    (x + 7) / 8 * 8
  }

  lemma AlignTwice(x: nat)
    ensures Align(Align(x)) == Align(x) && (x > 0 <==> Align(x) > 0)
  {
  }

  /** A chunk: its header at an address, then its buffer. */
  datatype Chunk = Chunk(at: nat, capacity: nat, size: nat) {
    function Buffer(): nat { at + SIZEOF_CHUNK_HEADER }

    function End(): nat { Buffer() + capacity }

    /** The first free address. */
    function Top(): nat { Buffer() + size }

    predicate Ok() { at > 0 && at % ALIGNMENT == 0 && size % ALIGNMENT == 0 && size <= capacity }

    predicate Apart(from: nat, to: nat) { to <= at || End() <= from }

    /** Does the block lie in the used part of the buffer? */
    predicate Has(p: nat, n: nat) { Buffer() <= p && p + n <= Top() }
  }

  /** The chunks' memory does not overlap, headers included. */
  predicate Separate(chunks: seq<Chunk>) {
    forall i, j :: 0 <= i < j < |chunks| ==> chunks[i].Apart(chunks[j].at, chunks[j].End())
  }

  predicate AllOk(chunks: seq<Chunk>) {
    forall i :: 0 <= i < |chunks| ==> chunks[i].Ok()
  }

  predicate AllApart(chunks: seq<Chunk>, from: nat, to: nat) {
    forall i :: 0 <= i < |chunks| ==> chunks[i].Apart(from, to)
  }

  predicate InSome(chunks: seq<Chunk>, p: nat, n: nat) {
    exists i :: 0 <= i < |chunks| && chunks[i].Has(p, n)
  }

  predicate Disjoint(p: nat, n: nat, q: nat, m: nat) { p + n <= q || q + m <= p }

  /** The blocks handed out: aligned, not empty, each inside one chunk, and pairwise disjoint. */
  predicate Blocks(chunks: seq<Chunk>, live: map<nat, nat>) {
    && (forall p <- live :: p > 0 && p % ALIGNMENT == 0 && live[p] > 0 && live[p] % ALIGNMENT == 0)
    && (forall p <- live :: InSome(chunks, p, live[p]))
    && (forall p <- live, q <- live :: p != q ==> Disjoint(p, live[p], q, live[q]))
  }

  ghost predicate Sound(chunks: seq<Chunk>, live: map<nat, nat>) {
    |chunks| > 0 && AllOk(chunks) && Separate(chunks) && Blocks(chunks, live)
  }

  // ---- what the head chunk gives

  /** A block that ends at the head chunk's top is the last block of the head chunk. */
  lemma LastOfHead(chunks: seq<Chunk>, p: nat, n: nat)
    requires |chunks| > 0 && AllOk(chunks) && Separate(chunks)
    requires n > 0 && InSome(chunks, p, n) && p + n == chunks[0].Top()
    ensures chunks[0].Has(p, n)
  {
    var i :| 0 <= i < |chunks| && chunks[i].Has(p, n);
    assert chunks[i].Ok() && chunks[0].Ok();
    assert i > 0 ==> chunks[0].Apart(chunks[i].at, chunks[i].End());
  }

  /** Above the head chunk's top there is no block. */
  lemma AboveTop(chunks: seq<Chunk>, p: nat, n: nat, m: nat)
    requires |chunks| > 0 && AllOk(chunks) && Separate(chunks)
    requires n > 0 && InSome(chunks, p, n) && chunks[0].size + m <= chunks[0].capacity
    ensures Disjoint(p, n, chunks[0].Top(), m)
  {
    var i :| 0 <= i < |chunks| && chunks[i].Has(p, n);
    assert chunks[i].Ok() && chunks[0].Ok();
    assert i > 0 ==> chunks[0].Apart(chunks[i].at, chunks[i].End());
  }

  function Grown(chunks: seq<Chunk>, m: nat): seq<Chunk>
    requires |chunks| > 0
  {
    chunks[0 := chunks[0].(size := chunks[0].size + m)]
  }

  lemma GrownKeeps(chunks: seq<Chunk>, m: nat)
    requires |chunks| > 0 && AllOk(chunks) && Separate(chunks)
    requires m % ALIGNMENT == 0 && chunks[0].size + m <= chunks[0].capacity
    ensures AllOk(Grown(chunks, m)) && Separate(Grown(chunks, m))
    ensures forall p, n :: InSome(chunks, p, n) ==> InSome(Grown(chunks, m), p, n)
  {
    var next := Grown(chunks, m);
    assert chunks[0].Ok();
    forall i, j | 0 <= i < j < |next| ensures next[i].Apart(next[j].at, next[j].End()) {
      assert chunks[i].Apart(chunks[j].at, chunks[j].End());
    }
    forall p, n | InSome(chunks, p, n) ensures InSome(next, p, n) {
      var i :| 0 <= i < |chunks| && chunks[i].Has(p, n);
      assert next[i].Has(p, n);
    }
  }

  /** A block may be put in, or replaced, where it meets no other. */
  lemma PutKeeps(chunks: seq<Chunk>, next: seq<Chunk>, live: map<nat, nat>, p: nat, n: nat)
    requires Blocks(chunks, live) && InSome(next, p, n)
    requires forall q <- live :: InSome(chunks, q, live[q]) ==> InSome(next, q, live[q])
    requires p > 0 && p % ALIGNMENT == 0 && n > 0 && n % ALIGNMENT == 0
    requires forall q <- live :: q != p ==> Disjoint(q, live[q], p, n)
    ensures Blocks(next, live[p := n])
  {
    hide InSome;
  }

  lemma Adjoining(q: nat, k: nat, p: nat, n: nat, m: nat)
    requires k > 0 && Disjoint(q, k, p, n) && Disjoint(q, k, p + n, m)
    ensures Disjoint(q, k, p, n + m)
  {
  }

  lemma AlignedSum(a: nat, b: nat)
    requires a % ALIGNMENT == 0 && b % ALIGNMENT == 0
    ensures (a + b) % ALIGNMENT == 0
  {
  }

  /** A block cut off the head chunk is apart from all others. */
  lemma CutKeeps(chunks: seq<Chunk>, live: map<nat, nat>, m: nat)
    requires Sound(chunks, live)
    requires m > 0 && m % ALIGNMENT == 0 && chunks[0].size + m <= chunks[0].capacity
    ensures var p := chunks[0].Top();
            p > 0 && p !in live && Sound(Grown(chunks, m), live[p := m])
  {
    var p := chunks[0].Top();
    assert chunks[0].Ok();
    GrownKeeps(chunks, m);
    assert Grown(chunks, m)[0].Has(p, m);
    hide InSome, AllOk, Separate;
    forall q <- live ensures Disjoint(q, live[q], p, m) && q != p {
      AboveTop(chunks, q, live[q], m);
    }
    PutKeeps(chunks, Grown(chunks, m), live, p, m);
  }

  lemma ApartFromGrown(chunks: seq<Chunk>, live: map<nat, nat>, q: nat, p: nat, m: nat)
    requires Sound(chunks, live) && p in live && q in live && q != p && p + live[p] == chunks[0].Top()
    requires chunks[0].size + m <= chunks[0].capacity
    ensures Disjoint(q, live[q], p, live[p] + m)
  {
    hide InSome, AllOk, Separate, Blocks, Disjoint;
    LiveApart(chunks, live, q, p);
    LiveBlock(chunks, live, q);
    AboveTop(chunks, q, live[q], m);
    Adjoining(q, live[q], p, live[p], m);
  }

  /** The last block of the head chunk grown in place is still apart from all others. */
  lemma GrowKeeps(chunks: seq<Chunk>, live: map<nat, nat>, p: nat, m: nat)
    requires Sound(chunks, live) && p in live && p + live[p] == chunks[0].Top()
    requires m % ALIGNMENT == 0 && chunks[0].size + m <= chunks[0].capacity
    ensures chunks[0].Has(p, live[p]) && Sound(Grown(chunks, m), live[p := live[p] + m])
  {
    GrownKeeps(chunks, m);
    LastOfHead(chunks, p, live[p]);
    assert Grown(chunks, m)[0].Has(p, live[p] + m);
    LiveBlock(chunks, live, p);
    hide InSome, AllOk, Separate, Blocks, Disjoint;
    forall q <- live | q != p ensures Disjoint(q, live[q], p, live[p] + m) {
      ApartFromGrown(chunks, live, q, p, m);
    }
    AlignedSum(live[p], m);
    hide Sound;
    PutKeeps(chunks, Grown(chunks, m), live, p, live[p] + m);
  }

  lemma ShrinkKeeps(chunks: seq<Chunk>, live: map<nat, nat>, p: nat, n: nat)
    requires Sound(chunks, live) && p in live && 0 < n <= live[p] && n % ALIGNMENT == 0
    ensures p > 0 && Sound(chunks, live[p := n])
  {
    assert InSome(chunks, p, n) by {
      assert InSome(chunks, p, live[p]);
      var i :| 0 <= i < |chunks| && chunks[i].Has(p, live[p]);
      assert chunks[i].Has(p, n);
    }
    forall q <- live | q != p ensures Disjoint(q, live[q], p, n) {
      assert Disjoint(q, live[q], p, live[p]);
    }
    PutKeeps(chunks, chunks, live, p, n);
  }

  lemma AddedKeeps(chunks: seq<Chunk>, live: map<nat, nat>, c: Chunk)
    requires Sound(chunks, live) && c.Ok() && AllApart(chunks, c.at, c.End())
    ensures Sound([c] + chunks, live)
  {
    var next := [c] + chunks;
    forall i, j | 0 <= i < j < |next| ensures next[i].Apart(next[j].at, next[j].End()) {
      if i == 0 {
        assert chunks[j - 1].Apart(c.at, c.End());
      } else {
        assert chunks[i - 1].Apart(chunks[j - 1].at, chunks[j - 1].End());
      }
    }
    forall p <- live ensures InSome(next, p, live[p]) {
      var i :| 0 <= i < |chunks| && chunks[i].Has(p, live[p]);
      assert next[i + 1].Has(p, live[p]);
    }
  }

  lemma DropKeeps(chunks: seq<Chunk>, live: map<nat, nat>, p: nat)
    requires Sound(chunks, live)
    ensures Sound(chunks, live - {p})
  {
  }

  lemma LiveApart(chunks: seq<Chunk>, live: map<nat, nat>, p: nat, q: nat)
    requires Sound(chunks, live) && p in live && q in live && p != q
    ensures Disjoint(p, live[p], q, live[q])
  {
  }

  lemma LiveBlock(chunks: seq<Chunk>, live: map<nat, nat>, p: nat)
    requires Sound(chunks, live) && p in live
    ensures p > 0 && p % ALIGNMENT == 0 && live[p] > 0 && live[p] % ALIGNMENT == 0 && InSome(chunks, p, live[p])
  {
  }

  /** No byte belongs to two blocks, and every byte of a block lies in some chunk's buffer. */
  lemma NoByteTwice(chunks: seq<Chunk>, live: map<nat, nat>, p: nat, q: nat, a: nat)
    requires Sound(chunks, live) && p in live && q in live && p <= a < p + live[p] && q <= a < q + live[q]
    ensures p == q
    ensures p % 8 == 0
    ensures exists i :: 0 <= i < |chunks| && chunks[i].at + 24 <= a < chunks[i].at + 24 + chunks[i].capacity
  {
    LiveBlock(chunks, live, p);
    if p != q { LiveApart(chunks, live, p, q); }
    var i :| 0 <= i < |chunks| && chunks[i].Has(p, live[p]);
    assert chunks[i].Ok();
  }

  function TotalSize(chunks: seq<Chunk>): nat {
    if chunks == [] then 0 else chunks[0].size + TotalSize(chunks[1..])
  }

  function TotalCapacity(chunks: seq<Chunk>): nat {
    if chunks == [] then 0 else chunks[0].capacity + TotalCapacity(chunks[1..])
  }

  lemma {:induction false} SizeWithinCapacity(chunks: seq<Chunk>)
    requires AllOk(chunks)
    ensures TotalSize(chunks) <= TotalCapacity(chunks)
  {
    if chunks != [] {
      assert chunks[0].Ok();
      SizeWithinCapacity(chunks[1..]);
    }
  }

  /** What the memory holds from p on. */
  ghost function Stored(memory: int -> Byte, p: nat, n: nat): seq<Byte> {
    seq(n, i requires 0 <= i < n => memory(p + i))
  }

  class MemoryPoolAllocator {
    var chunkCapacity: nat
    var chunks: seq<Chunk>        // the chunk list, head first
    var memory: int -> Byte
    ghost var live: map<nat, nat> // the blocks handed out, with their sizes

    ghost predicate Valid()
      reads this
    {
      Sound(chunks, live)
    }

    /** What the base allocator's next answer has to be: aligned memory that is not in use. */
    predicate Free(at: nat, capacity: nat)
      reads this
    {
      at > 0 && at % ALIGNMENT == 0 && AllApart(chunks, at, at + SIZEOF_CHUNK_HEADER + capacity)
    }

    /** The capacity of the chunk that is added for a block of this size. */
    function NextCapacity(size: nat): nat
      reads this
    {
      if chunkCapacity > Align(size) then chunkCapacity else Align(size)
    }

    /** With memory at an address from the base allocator. */
    constructor (chunkSize: nat, at: nat)
      requires at > 0 && at % ALIGNMENT == 0
      ensures Valid() && live == map[] && TotalCapacity(chunks) == 0 && chunkCapacity == chunkSize
    {
      chunkCapacity := chunkSize;
      chunks := [Chunk(at + SIZEOF_SHARED_DATA, 0, 0)];
      memory := a => 0;
      live := map[];
    }

    /** With the user's buffer, which is aligned first. */
    constructor WithBuffer(buffer: nat, size: nat, chunkSize: nat)
      requires buffer > 0 && size >= (Align(buffer) - buffer) + SIZEOF_SHARED_DATA + SIZEOF_CHUNK_HEADER
      ensures Valid() && live == map[] && chunkCapacity == chunkSize
      ensures |chunks| == 1 && buffer + 32 <= chunks[0].at < buffer + 40 && chunks[0].End() == buffer + size
      ensures chunks[0].capacity == buffer + size - chunks[0].at - 24
    {
      var shared := Align(buffer);
      var rest := size - (shared - buffer);
      chunkCapacity := chunkSize;
      chunks := [Chunk(shared + SIZEOF_SHARED_DATA, rest - SIZEOF_SHARED_DATA - SIZEOF_CHUNK_HEADER, 0)];
      memory := a => 0;
      live := map[];
    }

    method AddChunk(capacity: nat, at: nat)
      requires Valid() && Free(at, capacity)
      modifies this`chunks
      ensures Valid() && chunks == [Chunk(at, capacity, 0)] + old(chunks)
    {
      AddedKeeps(chunks, live, Chunk(at, capacity, 0));
      chunks := [Chunk(at, capacity, 0)] + chunks;
    }

    /** The chunks once there is room for the size at the head: a chunk is added when the head
        chunk has no room. */
    ghost function WithRoom(size: nat, at: nat): (r: seq<Chunk>)
      reads this
      requires |chunks| > 0
      ensures |r| > 0
    {
      if chunks[0].size + Align(size) <= chunks[0].capacity then chunks
      else [Chunk(at, NextCapacity(size), 0)] + chunks
    }

    /** A new block, apart from all live ones; 0 stands for NULL. */
    method Malloc(size: nat, at: nat) returns (p: nat)
      requires Valid() && Free(at, NextCapacity(size))
      modifies this`chunks, this`live
      ensures Valid()
      ensures size == 0 ==> p == 0 && live == old(live) && chunks == old(chunks)
      ensures size > 0 ==> p > 0 && p !in old(live) && live == old(live)[p := Align(size)]
      ensures size > 0 ==>
                var room := old(WithRoom(size, at)); p == room[0].Top() && chunks == Grown(room, Align(size))
      ensures size > 0 && old(chunks[0].size) + Align(size) <= old(chunks[0].capacity) ==> |chunks| == |old(chunks)|
      ensures size > 0 && old(chunks[0].size) + Align(size) > old(chunks[0].capacity) ==>
                && |chunks| == |old(chunks)| + 1 && chunks[1..] == old(chunks)
                && chunks[0].capacity >= chunkCapacity && chunks[0].capacity >= Align(size)
                && (chunks[0].capacity == chunkCapacity || chunks[0].capacity == Align(size))
    {
      hide AllOk, Blocks, Separate, AllApart;
      if size == 0 { return 0; }
      ghost var room := WithRoom(size, at);
      var aligned := Align(size);
      if chunks[0].size + aligned > chunks[0].capacity {
        AddChunk(if chunkCapacity > aligned then chunkCapacity else aligned, at);
      }
      assert chunks == room;
      hide Sound;
      p := chunks[0].Top();
      CutKeeps(chunks, live, aligned);
      chunks := chunks[0 := chunks[0].(size := chunks[0].size + aligned)];
      live := live[p := aligned];
    }

    /** memcpy within the memory. */
    method Copy(to: nat, from: nat, n: nat)
      modifies this`memory
      ensures Stored(memory, to, n) == Stored(old(memory), from, n)
      ensures forall q, m: nat :: Disjoint(q, m, to, n) ==> Stored(memory, q, m) == Stored(old(memory), q, m)
    {
      var m := memory;
      memory := a => if to <= a < to + n then m(from + (a - to)) else m(a);
    }

    /** Is the block the last one of the head chunk, with room for m bytes above it? */
    ghost predicate CanGrow(p: nat, m: nat)
      reads this
      requires |chunks| > 0 && p in live
    {
      chunks[0].Has(p, live[p]) && p + live[p] == chunks[0].Top() && chunks[0].size + m <= chunks[0].capacity
    }

    /** A block is grown in place exactly when it is the last block of the head chunk and there is
        room; otherwise its contents move to a new block.  No other block's contents change.  Null
        asks for a new block, and size 0 gives the block up. */
    method Realloc(originalPtr: nat, originalSize: nat, newSize: nat, at: nat) returns (p: nat)
      requires Valid() && Free(at, NextCapacity(newSize))
      requires originalPtr != 0 ==> originalPtr in live && live[originalPtr] == Align(originalSize)
      modifies this`chunks, this`live, this`memory
      ensures Valid()
      ensures newSize == 0 ==> p == 0 && live == old(live) - {originalPtr} && memory == old(memory)
      ensures newSize > 0 ==> p > 0 && live == (old(live) - {originalPtr})[p := Align(newSize)]
      ensures newSize > 0 && p != originalPtr ==>
                p !in old(live) && chunks == Grown(old(WithRoom(Align(newSize), at)), Align(newSize))
      ensures originalPtr != 0 && Align(newSize) <= Align(originalSize) ==> chunks == old(chunks)
      ensures newSize > 0 && originalPtr != 0 ==>
                (p == originalPtr <==> Align(newSize) <= Align(originalSize)
                                       || old(CanGrow(originalPtr, Align(newSize) - live[originalPtr])))
      ensures newSize > Align(originalSize) && originalPtr != 0 ==>
                Stored(memory, p, Align(originalSize)) == Stored(old(memory), originalPtr, Align(originalSize))
      ensures forall q <- old(live) :: Stored(memory, q, old(live)[q]) == Stored(old(memory), q, old(live)[q])
    {
      AlignTwice(newSize);
      hide Sound, Stored, Align, Grown;
      if originalPtr == 0 {
        if 0 in live { LiveBlock(chunks, live, 0); }
        p := Malloc(newSize, at);
        assert newSize > 0 ==> p !in old(live);
        return;
      }
      if newSize == 0 {
        GiveUp(originalPtr);
        return 0;
      }
      var original, aligned := Align(originalSize), Align(newSize);
      LiveBlock(chunks, live, originalPtr);
      if original >= aligned {
        Shrink(originalPtr, aligned);
        return originalPtr;
      }
      var grown := GrowInPlace(originalPtr, original, aligned);
      if grown { return originalPtr; }
      p := Move(originalPtr, original, aligned, at);
    }

    /** The end of Realloc: a new block, with the old one's contents. */
    method Move(originalPtr: nat, original: nat, aligned: nat, at: nat) returns (p: nat)
      requires Valid() && Free(at, NextCapacity(aligned)) && aligned > 0
      requires originalPtr in live && live[originalPtr] == original < aligned == Align(aligned)
      modifies this`chunks, this`live, this`memory
      ensures Valid() && p > 0 && p !in old(live)
      ensures live == (old(live) - {originalPtr})[p := aligned]
      ensures chunks == Grown(old(WithRoom(aligned, at)), aligned)
      ensures Stored(memory, p, original) == Stored(old(memory), originalPtr, original)
      ensures forall q <- old(live) :: Stored(memory, q, old(live)[q]) == Stored(old(memory), q, old(live)[q])
    {
      hide Sound, Stored, Grown;
      ghost var before := live;
      p := Malloc(aligned, at);
      forall q <- before ensures Disjoint(q, before[q], p, original) {
        LiveApart(chunks, live, q, p);
      }
      Copy(p, originalPtr, original);
      GiveUp(originalPtr);
    }

    /** The branch of Realloc that expands the block where it is. */
    method GrowInPlace(originalPtr: nat, original: nat, aligned: nat) returns (grown: bool)
      requires Valid() && originalPtr in live && live[originalPtr] == original < aligned && aligned % ALIGNMENT == 0
      modifies this`chunks, this`live
      ensures Valid() && grown == old(CanGrow(originalPtr, aligned - original))
      ensures if grown then live == old(live)[originalPtr := aligned] else live == old(live) && chunks == old(chunks)
    {
      hide AllOk, Separate, Blocks, InSome;
      LiveBlock(chunks, live, originalPtr);
      if originalPtr == chunks[0].Top() - original {
        var increment := aligned - original;
        if chunks[0].size + increment <= chunks[0].capacity {
          GrowKeeps(chunks, live, originalPtr, increment);
          hide Sound;
          chunks := chunks[0 := chunks[0].(size := chunks[0].size + increment)];
          live := live[originalPtr := aligned];
          return true;
        }
      }
      return false;
    }

    /** The caller no longer uses the block. */
    ghost method GiveUp(p: nat)
      requires Valid()
      modifies this`live
      ensures Valid() && live == old(live) - {p}
    {
      DropKeeps(chunks, live, p);
      live := live - {p};
    }

    /** The caller uses only the start of the block; the allocator keeps no note of it. */
    ghost method Shrink(p: nat, n: nat)
      requires Valid() && p in live && 0 < n <= live[p] && n % ALIGNMENT == 0
      modifies this`live
      ensures Valid() && live == old(live)[p := n]
    {
      ShrinkKeeps(chunks, live, p, n);
      live := live[p := n];
    }

    /** Deallocates all chunks but the first, which is emptied. */
    method Clear()
      requires Valid()
      modifies this`chunks, this`live
      ensures Valid() && live == map[]
      ensures |chunks| == 1 && chunks[0] == old(chunks[|chunks| - 1]).(size := 0)
    {
      live := map[];
      while |chunks| > 1
        invariant Valid() && live == map[] && chunks[|chunks| - 1] == old(chunks[|chunks| - 1])
        decreases |chunks|
      {
        chunks := chunks[1..];
      }
      chunks := [chunks[0].(size := 0)];
    }

    method Capacity() returns (capacity: nat)
      ensures capacity == TotalCapacity(chunks)
    {
      capacity := 0;
      for k := 0 to |chunks|
        invariant capacity + TotalCapacity(chunks[k..]) == TotalCapacity(chunks)
      {
        assert chunks[k..][1..] == chunks[k + 1..];
        capacity := capacity + chunks[k].capacity;
      }
    }

    /** Never more than the capacity. */
    method Size() returns (size: nat)
      requires Valid()
      ensures size == TotalSize(chunks) <= TotalCapacity(chunks)
    {
      size := 0;
      for k := 0 to |chunks|
        invariant size + TotalSize(chunks[k..]) == TotalSize(chunks)
      {
        assert chunks[k..][1..] == chunks[k + 1..];
        size := size + chunks[k].size;
      }
      SizeWithinCapacity(chunks);
    }
  }
}
