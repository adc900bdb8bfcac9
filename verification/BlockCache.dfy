/** limine-install.c: reads and writes at any offset of a device that is accessed in whole
    blocks, through a cache of one block that is written back late. */
module BlockCache {
  import opened Words

  // ---------- overlays and overwrites ----------

  /** s with the bytes d in place of what was at loc. */
  function Overwrite(s: seq<byte>, loc: nat, d: seq<byte>): (r: seq<byte>)
    ensures |r| == |s|
  {
    seq(|s|, i requires 0 <= i < |s| => if loc <= i < loc + |d| then d[i - loc] else s[i])
  }

  /** Writing into the cached block writes into what the block is laid over. */
  lemma OverwriteInBlock(s: seq<byte>, base: nat, c: seq<byte>, offset: nat, d: seq<byte>)
    requires base + |c| <= |s| && offset + |d| <= |c|
    ensures Overwrite(s, base, Overwrite(c, offset, d)) == Overwrite(Overwrite(s, base, c), base + offset, d)
  {
  }

  /** Two adjoining writes are one. */
  lemma OverwriteAdjoining(s: seq<byte>, loc: nat, d: seq<byte>, e: seq<byte>)
    ensures Overwrite(Overwrite(s, loc, d), loc + |d|, e) == Overwrite(s, loc, d + e)
  {
  }

  lemma OverwriteSame(s: seq<byte>, base: nat, n: nat)
    requires base + n <= |s|
    ensures Overwrite(s, base, s[base..base + n]) == s
  {
  }

  lemma OverwriteTwice(s: seq<byte>, base: nat, c: seq<byte>)
    requires base + |c| <= |s|
    ensures Overwrite(Overwrite(s, base, c), base, c) == Overwrite(s, base, c)
    ensures Overwrite(s, base, c)[base..base + |c|] == c
  {
  }

  /** The buffer held, after n bytes of s from loc on have been read into it. */
  function ReadInto(held: seq<byte>, s: seq<byte>, loc: nat, n: nat): seq<byte> {
    if loc + n <= |s| then Overwrite(held, 0, s[loc..loc + n]) else held
  }

  ghost predicate ReadSoFar(held: seq<byte>, s: seq<byte>, loc: nat, n: nat, now: seq<byte>) {
    now == ReadInto(held, s, loc, n) && (n > 0 ==> loc + n <= |s|)
  }

  lemma ReadMore(held: seq<byte>, s: seq<byte>, loc: nat, n: nat, more: nat, x: nat, before: seq<byte>, now: seq<byte>)
    requires ReadSoFar(held, s, loc, n, before) && x == loc + n && x + more <= |s| && n + more <= |held|
    requires now == Overwrite(before, n, s[x..x + more])
    ensures ReadSoFar(held, s, loc, n + more, now)
  {
  }

  /** s with the first n bytes of d written from loc on. */
  ghost predicate WrittenSoFar(s: seq<byte>, loc: nat, d: seq<byte>, n: nat, now: seq<byte>) {
    n <= |d| && now == Overwrite(s, loc, d[..n]) && (n > 0 ==> loc + n <= |s|)
  }

  lemma WriteMore(s: seq<byte>, loc: nat, d: seq<byte>, n: nat, more: nat, x: nat, before: seq<byte>, now: seq<byte>)
    requires WrittenSoFar(s, loc, d, n, before) && n + more <= |d| && x == loc + n && x + more <= |s|
    requires now == Overwrite(before, x, d[n..n + more])
    ensures WrittenSoFar(s, loc, d, n + more, now)
  {
  }

  // ---------- blocks ----------

  /** Where a block of n bytes starts. */
  function Start(block: nat, n: nat): nat {
    if block == 0 then 0 else Start(block - 1, n) + n
  }

  /** Where the block with the byte x ends. */
  function BlockEnd(x: nat, n: nat): (e: nat)
    requires n > 0
    ensures x < e <= x + n
  {
    if x < n then n else n + BlockEnd(x - n, n)
  }

  lemma {:induction false} StartIs(block: nat, n: nat)
    ensures Start(block, n) == block * n
  {
    if block > 0 {
      StartIs(block - 1, n);
      assert block * n == (block - 1) * n + n;
    }
  }

  lemma {:induction false} BlockEndFrom(block: nat, r: nat, n: nat)
    requires r < n
    ensures BlockEnd(Start(block, n) + r, n) == Start(block, n) + n
  {
    if block > 0 { BlockEndFrom(block - 1, r, n); }
  }

  lemma BlockOf(x: nat, n: nat)
    requires n > 0
    ensures Start(x / n, n) + x % n == x && Start(x / n, n) + n == BlockEnd(x, n)
  {
    StartIs(x / n, n);
    assert x == x / n * n + x % n;
    BlockEndFrom(x / n, x % n, n);
  }

  lemma {:induction false} BlockEndsOrdered(x: nat, y: nat, n: nat)
    requires n > 0 && x <= y
    ensures BlockEnd(x, n) <= BlockEnd(y, n)
    decreases x
  {
    if x >= n { BlockEndsOrdered(x - n, y - n, n); }
  }

  lemma {:induction false} SameBlock(x: nat, y: nat, n: nat)
    requires n > 0 && x <= y < BlockEnd(x, n)
    ensures BlockEnd(y, n) == BlockEnd(x, n)
    decreases x
  {
    if x >= n { SameBlock(x - n, y - n, n); }
  }

  /** The device has the whole of every block that the count bytes from loc on lie in. */
  ghost predicate HasBlocks(size: nat, n: nat, loc: nat, count: nat)
    requires n > 0
  {
    count > 0 ==> BlockEnd(loc + count - 1, n) <= size
  }

  lemma HasBlockOf(size: nat, n: nat, loc: nat, count: nat, x: nat)
    requires n > 0 && loc <= x < loc + count && HasBlocks(size, n, loc, count)
    ensures BlockEnd(x, n) <= size && loc + count <= size
  {
    BlockEndsOrdered(x, loc + count - 1, n);
  }

  lemma LacksBlockOf(size: nat, n: nat, loc: nat, count: nat, x: nat)
    requires n > 0 && loc <= x < loc + count && BlockEnd(x, n) > size
    ensures !HasBlocks(size, n, loc, count)
  {
    BlockEndsOrdered(x, loc + count - 1, n);
  }

  // ---------- the cache ----------

  class Cache {
    const disk: array<byte>         // what is on the device
    const cache: array<byte>        // one block
    var cachedBlock: nat
    var dirty: bool

    /** The device as it is left by device_init: the first block read, nothing to write back. */
    constructor (disk: array<byte>, cache: array<byte>)
      requires disk != cache && 0 < cache.Length <= disk.Length && cache[..] == disk[..cache.Length]
      ensures Valid() && !dirty && this.disk == disk && this.cache == cache
    {
      this.disk, this.cache, this.cachedBlock, this.dirty := disk, cache, 0, false;
    }

    ghost function Base(): nat
      reads this`cachedBlock
    {
      Start(cachedBlock, cache.Length)
    }

    ghost predicate Valid()
      reads this, disk, cache
    {
      && disk != cache && cache.Length > 0
      && Base() + cache.Length <= disk.Length
      && (!dirty ==> cache[..] == disk[Base()..Base() + cache.Length])
    }

    /** What the device holds for its users: the disk, overlaid by the cached block. */
    ghost function Logical(): (s: seq<byte>)
      reads this, disk, cache
      ensures |s| == disk.Length
    {
      Overwrite(disk[..], Base(), cache[..])
    }

    /** device_flush_cache */
    method FlushCache()
      requires Valid()
      modifies this`dirty, disk
      ensures Valid() && !dirty
      ensures disk[..] == Logical() == old(Logical())
    {
      if !dirty {
        OverwriteSame(disk[..], Base(), cache.Length);
        return;
      }
      var start := cachedBlock * cache.Length;
      StartIs(cachedBlock, cache.Length);
      OverwriteTwice(disk[..], start, cache[..]);
      forall i | 0 <= i < cache.Length {
        disk[start + i] := cache[i];
      }
      assert disk[..] == old(Overwrite(disk[..], start, cache[..]));
      dirty := false;
    }

    /** A read of one block; past the end of the device it comes back short. */
    method ReadBlock(start: nat) returns (ok: bool)
      requires disk != cache && cache.Length > 0
      modifies cache
      ensures ok <==> start + cache.Length <= disk.Length
      ensures ok ==> cache[..] == disk[start..start + cache.Length]
    {
      var got := if start >= disk.Length then 0
                 else if disk.Length - start < cache.Length then disk.Length - start else cache.Length;
      forall i | 0 <= i < got {
        cache[i] := disk[start + i];
      }
      ok := got == cache.Length;
    }

    /** device_cache_block */
    method CacheBlock(block: nat) returns (ok: bool)
      requires Valid()
      modifies this, disk, cache
      ensures ok <==> Start(block, cache.Length) + cache.Length <= disk.Length
      ensures ok ==> Valid() && cachedBlock == block && Logical() == old(Logical())
      ensures !ok ==> disk[..] == old(Logical())
    {
      if cachedBlock == block {
        return true;
      }
      FlushCache();
      var start := block * cache.Length;
      StartIs(block, cache.Length);
      ok := ReadBlock(start);
      if ok {
        cachedBlock := block;
        OverwriteSame(disk[..], start, cache.Length);
      }
    }

    /** The block of x, the place of x in it, and how many of the bytes from x on, no more
        than left, lie in it. */
    method Locate(x: nat, left: nat) returns (block: nat, offset: nat, chunk: nat)
      requires cache.Length > 0 && left > 0
      ensures Start(block, cache.Length) + offset == x
      ensures Start(block, cache.Length) + cache.Length == BlockEnd(x, cache.Length)
      ensures 0 < chunk <= left && offset + chunk <= cache.Length
    {
      BlockOf(x, cache.Length);
      block := x / cache.Length;
      chunk := left;
      offset := x % cache.Length;
      if chunk > cache.Length - offset {
        chunk := cache.Length - offset;
      }
    }

    /** The bytes of the cached block from offset on are those of the device. */
    lemma CachedBytes(offset: nat, n: nat)
      requires Valid() && offset + n <= cache.Length
      ensures Logical()[Base() + offset..Base() + offset + n] == cache[offset..offset + n]
    {
    }

    /** Reads part of a block into the buffer, at a place. */
    method ReadChunk(buffer: array<byte>, at: nat, block: nat, offset: nat, chunk: nat, ghost x: nat) returns (ok: bool)
      requires Valid() && at + chunk <= buffer.Length && buffer != disk && buffer != cache
      requires offset + chunk <= cache.Length && x == Start(block, cache.Length) + offset
      modifies this, disk, cache, buffer
      ensures ok <==> Start(block, cache.Length) + cache.Length <= disk.Length
      ensures ok ==> Valid() && Logical() == old(Logical())
      ensures ok ==> buffer[..] == Overwrite(old(buffer[..]), at, old(Logical())[x..x + chunk])
      ensures !ok ==> disk[..] == old(Logical()) && buffer[..] == old(buffer[..])
    {
      ok := CacheBlock(block);
      if ok {
        CachedBytes(offset, chunk);
        forall i | 0 <= i < chunk {
          buffer[at + i] := cache[offset + i];
        }
      }
    }

    /** _device_read */
    method DeviceRead(buffer: array<byte>, loc: nat, count: nat) returns (ok: bool)
      requires Valid() && count <= buffer.Length && buffer != disk && buffer != cache
      modifies this, disk, cache, buffer
      ensures ok <==> HasBlocks(disk.Length, cache.Length, loc, count)
      ensures ok ==> Valid() && Logical() == old(Logical()) && (count > 0 ==> loc + count <= disk.Length)
      ensures ok ==> buffer[..] == ReadInto(old(buffer[..]), old(Logical()), loc, count)
      ensures !ok ==> disk[..] == old(Logical())
    {
      ghost var was, held := Logical(), buffer[..];
      var progress := 0;
      while progress < count
        invariant 0 <= progress <= count && Valid() && Logical() == was
        invariant HasBlocks(disk.Length, cache.Length, loc, progress)
        invariant ReadSoFar(held, was, loc, progress, buffer[..])
      {
        var x := loc + progress;
        var block, offset, chunk := Locate(x, count - progress);
        ghost var before := buffer[..];
        ok := ReadChunk(buffer, progress, block, offset, chunk, x);
        if !ok {
          LacksBlockOf(disk.Length, cache.Length, loc, count, x);
          return;
        }
        SameBlock(x, x + chunk - 1, cache.Length);
        ReadMore(held, was, loc, progress, chunk, x, before, buffer[..]);
        progress := progress + chunk;
      }
      ok := true;
    }

    /** Writes into part of a block. */
    method WriteChunk(data: seq<byte>, block: nat, offset: nat, ghost x: nat) returns (ok: bool)
      requires Valid() && offset + |data| <= cache.Length && x == Start(block, cache.Length) + offset
      modifies this, disk, cache
      ensures ok <==> Start(block, cache.Length) + cache.Length <= disk.Length
      ensures ok ==> Valid() && Logical() == Overwrite(old(Logical()), x, data)
      ensures !ok ==> disk[..] == old(Logical())
    {
      ok := CacheBlock(block);
      if ok {
        OverwriteInBlock(disk[..], Base(), cache[..], offset, data);
        ghost var held := cache[..];
        forall i | 0 <= i < |data| {
          cache[offset + i] := data[i];
        }
        assert cache[..] == Overwrite(held, offset, data);
        dirty := true;
      }
    }

    /** _device_write.  A write that fails has reached the disk up to some block. */
    method DeviceWrite(data: seq<byte>, loc: nat) returns (ok: bool)
      requires Valid()
      modifies this, disk, cache
      ensures ok <==> HasBlocks(disk.Length, cache.Length, loc, |data|)
      ensures ok ==> Valid() && Logical() == Overwrite(old(Logical()), loc, data)
      ensures ok && data != [] ==> loc + |data| <= disk.Length
      ensures !ok ==> exists n :: 0 <= n < |data| && disk[..] == Overwrite(old(Logical()), loc, data[..n])
    {
      ghost var was := Logical();
      var progress := 0;
      while progress < |data|
        invariant 0 <= progress <= |data| && Valid()
        invariant HasBlocks(disk.Length, cache.Length, loc, progress)
        invariant WrittenSoFar(was, loc, data, progress, Logical())
      {
        var x := loc + progress;
        var block, offset, chunk := Locate(x, |data| - progress);
        ghost var before := Logical();
        ok := WriteChunk(data[progress..progress + chunk], block, offset, x);
        if !ok {
          LacksBlockOf(disk.Length, cache.Length, loc, |data|, x);
          return;
        }
        SameBlock(x, x + chunk - 1, cache.Length);
        WriteMore(was, loc, data, progress, chunk, x, before, Logical());
        progress := progress + chunk;
      }
      assert data[..progress] == data;
      ok := true;
    }
  }
}
