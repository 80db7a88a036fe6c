/**
  The loader's FAT12 reader (src/storage/fs/fat.c): FAT entries through the cache, cluster
  chains, and file reads, in place.  The image is fixed; a storage read fails when it would run
  past the image's end.  fs_offset is 0.
*/
module FatReader {
  import opened Wrappers
  import opened Bytes
  import opened Arith
  import opened Fat12
  import opened FatCache
  import opened FatFile

  /** The block _fat_read_fat_data reads for a byte: it starts at the byte's sector. */
  function BlockOf(g: Geometry, off: nat): nat
    requires g.sectorSize > 0
  {
    off - off % g.sectorSize
  }

  /** Entry n's two bytes lie in two blocks. */
  predicate Split(g: Geometry, n: nat)
    requires g.clusterSize > 0
  {
    EntryOffset(g, n) % g.clusterSize == g.clusterSize - 1
  }

  /** The blocks a lookup of entry n asks for. */
  function EntryBlocks(g: Geometry, n: nat): seq<nat>
    requires GeometryOk(g)
  {
    var off := EntryOffset(g, n);
    if Split(g, n) then [BlockOf(g, off), BlockOf(g, off + 1)] else [BlockOf(g, off)]
  }

  /** A remainder by a divisor of m is at most the remainder by m. */
  lemma ModDivisor(x: nat, m: nat, k: nat)
    requires m > 0 && k > 0 && m % k == 0
    ensures x % k <= x % m
  {
    var r := x % m;
    Regroup(x / m, m / k, r / k, k);
    DivModUnique(x, (x / m) * (m / k) + r / k, k, r % k);
  }

  lemma Regroup(a: nat, b: nat, c: nat, k: nat)
    ensures (a * b + c) * k == a * (b * k) + c * k
  {
  }

  lemma BlockAligned(x: nat, k: nat)
    requires k > 0
    ensures (x - x % k) % k == 0
  {
    assert x == (x / k) * k + x % k;
    DivModUnique(x - x % k, x / k, k, 0);
  }

  /** The blocks that hold entry n lie on the disk, whether or not the entry lies in the table. */
  predicate OnDisk(d: Disk, g: Geometry, n: nat) { EntryOffset(g, n) + 2 + g.clusterSize <= |d| }

  lemma TableOnDisk(d: Disk, g: Geometry, n: nat)
    requires DiskOk(d, g) && n <= LAST_LOADER
    ensures OnDisk(d, g, n)
  {
    assert n * 3 / 2 <= LAST_LOADER * 3 / 2;
  }

  /** Reads of an entry stay on the disk, and the bytes asked for lie in the block read. */
  lemma EntryBlocksOk(d: Disk, g: Geometry, n: nat)
    requires GeometryOk(g) && OnDisk(d, g, n)
    ensures AllReadable(d, g.clusterSize, g.sectorSize, EntryBlocks(g, n))
    ensures EntryOffset(g, n) + 2 <= |d|
    ensures EntryOffset(g, n) % g.sectorSize + (if Split(g, n) then 1 else 2) <= g.clusterSize
    ensures (EntryOffset(g, n) + 1) % g.sectorSize + 1 <= g.clusterSize
  {
    var off := EntryOffset(g, n);
    ModDivisor(off, g.clusterSize, g.sectorSize);
    ModDivisor(off + 1, g.clusterSize, g.sectorSize);
    BlockAligned(off, g.sectorSize);
    BlockAligned(off + 1, g.sectorSize);
  }

  datatype ReadResult = Done | Failed | Panicked

  /** memcpy */
  method Memcpy(dst: array<byte>, at: nat, src: array<byte>, from: nat, n: nat)
    requires dst != src && at + n <= dst.Length && from + n <= src.Length
    modifies dst
    ensures dst[..] == Write(old(dst[..]), at, src[from..from + n])
  {
    forall i | 0 <= i < n {
      dst[at + i] := src[from + i];
    }
  }

  class FatReader {
    const disk: Disk
    const g: Geometry
    const clust: array<nat>
    const rank: array<byte>
    const buf: array2<byte>  // one row for each cache entry
    ghost var cache: Cache   // the three arrays as a value

    ghost predicate Valid()
      reads this, clust, rank, buf
    {
      && DiskOk(disk, g)
      && clust.Length == WAYS && rank.Length == WAYS && buf.Length0 == WAYS && buf.Length1 == g.clusterSize
      && Coherent(cache, disk, g.clusterSize, g.sectorSize)
      && (forall i :: 0 <= i < WAYS ==> cache.clust[i] == clust[i] && cache.rank[i] == rank[i])
      && (forall i, j :: 0 <= i < WAYS && 0 <= j < g.clusterSize ==> cache.line[i][j] == buf[i, j])
    }

    /** The memory of the cache as the driver finds it; the source leaves it uninitialised. */
    constructor (disk: Disk, g: Geometry, clust: array<nat>, rank: array<byte>, buf: array2<byte>, ghost cache: Cache)
      requires DiskOk(disk, g)
      requires clust.Length == WAYS && rank.Length == WAYS && buf.Length0 == WAYS && buf.Length1 == g.clusterSize
      requires Coherent(cache, disk, g.clusterSize, g.sectorSize)
      requires forall i :: 0 <= i < WAYS ==> cache.clust[i] == clust[i] && cache.rank[i] == rank[i]
      requires forall i, j :: 0 <= i < WAYS && 0 <= j < g.clusterSize ==> cache.line[i][j] == buf[i, j]
      ensures Valid() && this.disk == disk && this.g == g && this.cache == cache
      ensures this.clust == clust && this.rank == rank && this.buf == buf
    {
      this.disk, this.g, this.clust, this.rank, this.buf, this.cache := disk, g, clust, rank, buf, cache;
    }

    /** _fat_cache_touch */
    method TouchEntry(idx: nat)
      requires Valid() && idx < WAYS
      modifies this`cache, rank
      ensures Valid() && cache == old(cache).(rank := Touch(old(cache).rank, idx))
    {
      ghost var r := cache.rank;
      for i := 0 to WAYS
        invariant cache == old(cache) && rank[idx] == r[idx]
        invariant forall j :: 0 <= j < i && j != idx ==> rank[j] == Touch(r, idx)[j]
        invariant forall j :: i <= j < WAYS ==> rank[j] == r[j]
      {
        if i == idx {
          continue;
        }
        if rank[i] < rank[idx] {
          rank[i] := rank[i] + 1;
        }
      }
      rank[idx] := 0;
      assert forall j :: 0 <= j < WAYS ==> rank[j] == Touch(r, idx)[j];
      cache := cache.(rank := Touch(r, idx));
    }

    /** _fat_try_cache */
    method TryCache(tmp: array<byte>, a: nat) returns (hit: bool)
      requires Valid() && tmp.Length == g.clusterSize && tmp != rank
      modifies this`cache, rank, tmp
      ensures Valid()
      ensures hit <==> Lookup(old(cache).clust, a, WAYS).Some?
      ensures if hit then tmp[..] == Served(old(cache), a, tmp[..]) && cache == Access(old(cache), a, tmp[..])
              else cache == old(cache)
    {
      for i := 0 to WAYS
        invariant Valid() && cache == old(cache)
        invariant Lookup(cache.clust, a, i).None?
      {
        if clust[i] == a {
          LookupFirst(cache.clust, a, i);
          if rank[i] != 0 {
            TouchEntry(i);
          }
          forall j | 0 <= j < g.clusterSize {
            tmp[j] := buf[i, j];
          }
          assert tmp[..] == cache.line[i];
          return true;
        }
      }
      return false;
    }

    /** _fat_add_cache */
    method AddCache(tmp: array<byte>, a: nat)
      requires Valid() && tmp.Length == g.clusterSize && tmp != rank
      requires Lookup(cache.clust, a, WAYS).None?
      requires Readable(disk, g.clusterSize, g.sectorSize, a) && tmp[..] == Block(disk, g.clusterSize, a)
      modifies this`cache, clust, rank, buf
      ensures Valid() && cache == Access(old(cache), a, tmp[..])
    {
      var entry := 0;
      for i := 1 to WAYS
        invariant entry == Oldest(cache.rank, i)
      {
        if rank[i] > rank[entry] {
          entry := i;
        }
      }
      Replace(entry, tmp, a);
      TouchEntry(entry);
    }

    /** A way takes over another block. */
    method Replace(entry: nat, tmp: array<byte>, a: nat)
      requires Valid() && tmp.Length == g.clusterSize && entry < WAYS && Lookup(cache.clust, a, WAYS).None?
      requires Readable(disk, g.clusterSize, g.sectorSize, a) && tmp[..] == Block(disk, g.clusterSize, a)
      modifies this`cache, clust, buf
      ensures Valid() && cache == Cache(old(cache).clust[entry := a], old(cache).rank, old(cache).line[entry := tmp[..]])
    {
      clust[entry] := a;
      forall j | 0 <= j < g.clusterSize {
        buf[entry, j] := tmp[j];
      }
      cache := Cache(cache.clust[entry := a], cache.rank, cache.line[entry := tmp[..]]);
    }

    /** The storage driver's read of one cluster-sized block. */
    method StorageRead(tmp: array<byte>, a: nat) returns (ok: bool)
      requires tmp.Length == g.clusterSize
      modifies tmp
      ensures ok <==> a + g.clusterSize <= |disk|
      ensures ok ==> tmp[..] == Block(disk, g.clusterSize, a)
    {
      ok := a + g.clusterSize <= |disk|;
      if ok {
        forall j | 0 <= j < g.clusterSize {
          tmp[j] := disk[a + j];
        }
      }
    }

    /** The block at a, from the cache or from the disk. */
    method Fetch(tmp: array<byte>, a: nat) returns (ok: bool)
      requires Valid() && tmp.Length == g.clusterSize && tmp != rank && a % g.sectorSize == 0
      modifies this`cache, clust, rank, buf, tmp
      ensures Valid() && ok == (a + g.clusterSize <= |disk| || Lookup(old(cache).clust, a, WAYS).Some?)
      ensures ok ==> tmp[..] == Served(old(cache), a, tmp[..]) && cache == Access(old(cache), a, tmp[..])
      ensures ok && a + g.clusterSize <= |disk| ==> tmp[..] == Block(disk, g.clusterSize, a)
      ensures !ok ==> cache == old(cache)
    {
      if a + g.clusterSize <= |disk| {
        AccessCoherent(cache, disk, g.clusterSize, g.sectorSize, a);
      }
      ok := TryCache(tmp, a);
      if !ok {
        ok := StorageRead(tmp, a);
        if ok {
          AddCache(tmp, a);
        }
      }
    }

    /**
      _fat_read_fat_data for one or two bytes.  The source loads four and masks; the bytes
      masked away may lie beyond the block and are not modelled.  A block beyond the disk gives all ones,
      or what the uninitialised cache claims that it holds.
    */
    method ReadFatData(tmp: array<byte>, off: nat, sz: nat) returns (r: nat)
      requires Valid() && tmp.Length == g.clusterSize && tmp != rank && 1 <= sz <= 2
      requires off % g.sectorSize + sz <= g.clusterSize
      modifies this`cache, clust, rank, buf, tmp
      ensures Valid()
      ensures BlockOf(g, off) + g.clusterSize <= |disk| ==>
        && off + sz <= |disk| && r == (if sz == 1 then disk[off] else Le16(disk, off))
        && cache == Access(old(cache), BlockOf(g, off), Block(disk, g.clusterSize, BlockOf(g, off)))
      ensures BlockOf(g, off) + g.clusterSize > |disk| && Lookup(old(cache).clust, BlockOf(g, off), WAYS).None? ==>
        r == 0xFFFF_FFFF && cache == old(cache)
      ensures BlockOf(g, off) + g.clusterSize > |disk| && Lookup(old(cache).clust, BlockOf(g, off), WAYS).Some? ==>
        && tmp[..] == Served(old(cache), BlockOf(g, off), tmp[..]) && cache == Access(old(cache), BlockOf(g, off), tmp[..])
        && r == (if sz == 1 then tmp[off % g.sectorSize] else Le16(tmp[..], off % g.sectorSize))
    {
      var readAddr := off - off % g.sectorSize;
      BlockAligned(off, g.sectorSize);
      var ok := Fetch(tmp, readAddr);
      if !ok {
        return 0xFFFF_FFFF;
      }
      r := Load(tmp, off - readAddr, sz);
      if readAddr + g.clusterSize <= |disk| {
        LoadIsDisk(tmp[..], disk, readAddr, off, sz, off - readAddr);
      }
    }

    /** Little-endian load from the block just read. */
    method Load(tmp: array<byte>, p: nat, sz: nat) returns (r: nat)
      requires 1 <= sz <= 2 && p + sz <= tmp.Length
      ensures r == if sz == 1 then tmp[p] else Le16(tmp[..], p)
    {
      if sz == 1 {
        r := tmp[p];
      } else {
        r := tmp[p] as nat + 256 * (tmp[p + 1] as nat);
      }
    }

    static lemma LoadIsDisk(t: seq<byte>, d: Disk, a: nat, off: nat, sz: nat, p: nat)
      requires a + |t| <= |d| && t == d[a..a + |t|] && off == a + p && 1 <= sz <= 2 && p + sz <= |t|
      ensures t[p] == d[off] && (sz == 2 ==> Le16(t, p) == Le16(d, off))
    {
      assert sz == 2 ==> t[p + 1] == d[off + 1];
    }

    /** The two bytes that hold entry n, from one block or from two (lines 176-183). */
    method ReadEntryWord(tmp: array<byte>, off: nat, ghost n: nat) returns (w: nat)
      requires Valid() && tmp.Length == g.clusterSize && tmp != rank && OnDisk(disk, g, n) && off == EntryOffset(g, n)
      modifies this`cache, clust, rank, buf, tmp
      ensures Valid() && off + 2 <= |disk| && w == Le16(disk, off)
      ensures AllReadable(disk, g.clusterSize, g.sectorSize, EntryBlocks(g, n))
      ensures cache == Run(old(cache), disk, g.clusterSize, g.sectorSize, EntryBlocks(g, n))
    {
      EntryBlocksOk(disk, g, n);
      RunOne(cache, disk, g, EntryBlocks(g, n));
      assert Readable(disk, g.clusterSize, g.sectorSize, EntryBlocks(g, n)[0]);
      if off % g.clusterSize == g.clusterSize - 1 {
        assert Readable(disk, g.clusterSize, g.sectorSize, EntryBlocks(g, n)[1]);
        var lo := ReadFatData(tmp, off, 1);
        var hi := ReadFatData(tmp, off + 1, 1);
        assert lo == disk[off] as nat && hi == disk[off + 1] as nat;
        w := lo + 256 * hi;
      } else {
        w := ReadFatData(tmp, off, 2);
      }
    }

    /** _fat_get_fat_entry */
    method GetFatEntry(tmp: array<byte>, n: nat) returns (e: nat)
      requires Valid() && tmp.Length == g.clusterSize && tmp != rank && OnDisk(disk, g, n)
      modifies this`cache, clust, rank, buf, tmp
      ensures Valid() && EntryOffset(g, n) + 2 <= |disk|
      ensures e == Entry(disk, g, n)
      ensures AllReadable(disk, g.clusterSize, g.sectorSize, EntryBlocks(g, n))
      ensures cache == Run(old(cache), disk, g.clusterSize, g.sectorSize, EntryBlocks(g, n))
    {
      e := ReadEntryWord(tmp, g.fatOffset + n * 3 / 2, n);
      ToolEntryIsEntry(disk, g, n);
      if n % 2 == 1 {
        e := e / 16;
      }
      e := e % 0x1000;
    }

    /** _fat_get_next_cluster */
    method NextCluster(tmp: array<byte>, c: nat) returns (r: nat)
      requires Valid() && tmp.Length == g.clusterSize && tmp != rank && (c < g.rootFirst || ClusterOk(g, c))
      modifies this`cache, clust, rank, buf, tmp
      ensures Valid()
      ensures r == if c < g.rootFirst then 0 else Next(disk, g, LAST_LOADER, c)
    {
      if c < g.dataOffset {
        if c < g.rootFirst {
          return 0;
        }
        r := if c + g.clusterSize < g.dataOffset then c + g.clusterSize else 0;
        return;
      }
      var num := (c - g.dataOffset) / g.clusterSize + 2;
      TableOnDisk(disk, g, num);
      var e := GetFatEntry(tmp, num);
      assert num == ClusterNum(g, c);
      r := 0;
      if e >= 0x002 && e <= 0xff0 {
        r := ClusterAt(g, e);
      }
    }

    /** Lines 241-255: walk to the cluster that holds offset off. */
    method Seek(tmp: array<byte>, first: nat, off: nat) returns (c: nat, rest: nat)
      requires Valid() && tmp.Length == g.clusterSize && tmp != rank && ClusterOk(g, first)
      modifies this`cache, clust, rank, buf, tmp
      ensures Valid()
      ensures c == Nth(disk, g, LAST_LOADER, first, off / g.clusterSize)
      ensures c != 0 ==> rest == off % g.clusterSize
    {
      c, rest := first, off;
      ghost var k := 0;
      while rest >= g.clusterSize
        invariant Valid() && ClusterOk(g, c)
        invariant off == k * g.clusterSize + rest && c == Nth(disk, g, LAST_LOADER, first, k)
        decreases rest
      {
        DivModShift(k, rest, g.clusterSize);
        DivAtLeastOne(rest, g.clusterSize);
        c := NextCluster(tmp, c);
        if c == 0 {
          NthEnds(disk, g, LAST_LOADER, first, k + 1, off / g.clusterSize);
          return;
        }
        rest := rest - g.clusterSize;
        k := k + 1;
        assert k * g.clusterSize == (k - 1) * g.clusterSize + g.clusterSize;
      }
      DivModUnique(off, k, g.clusterSize, rest);
    }

    /** memcpy out of the cluster just read. */
    method CopyPart(out: array<byte>, pos: nat, tmp: array<byte>, from: nat, n: nat, ghost c: nat, ghost f: nat)
      requires out != tmp && tmp.Length == g.clusterSize && c + g.clusterSize <= |disk|
      requires tmp[..] == Block(disk, g.clusterSize, c) && pos + n <= out.Length && from + n <= g.clusterSize && f == from
      modifies out
      ensures out[..] == Write(old(out[..]), pos, disk[c..c + g.clusterSize][f..f + n])
    {
      assert tmp[from..from + n] == tmp[..][from..from + n];
      Memcpy(out, pos, tmp, from, n);
    }

    /** One round of the copy loop (lines 260-283). */
    method CopyCluster(out: array<byte>, tmp: array<byte>, c: nat, sz: nat, pos: nat, rest: nat)
      returns (ok: bool, next: nat)
      requires Valid() && ClusterOk(g, c) && tmp.Length == g.clusterSize && tmp != rank && out != rank && out != tmp
      requires pos < sz <= out.Length && rest < g.clusterSize
      modifies this`cache, clust, rank, buf, out, tmp
      ensures Valid()
      ensures CopyRound(disk, g, old(out[..]), c, sz, pos, rest) == if ok then Some((out[..], next)) else None
    {
      next := c;
      ok := StorageRead(tmp, c);
      if !ok {
        return;
      }
      if sz - pos <= g.clusterSize - rest {
        CopyPart(out, pos, tmp, rest, sz - pos, c, rest);
      } else {
        CopyPart(out, pos, tmp, 0, g.clusterSize - rest, c, 0);
        next := NextCluster(tmp, c);
        ok := next != 0;
      }
    }

    /** The copy loop (lines 258-288). */
    method CopyAll(out: array<byte>, tmp: array<byte>, c: nat, sz: nat, off: nat) returns (ok: bool)
      requires Valid() && ClusterOk(g, c) && tmp.Length == g.clusterSize && tmp != rank && out != rank && out != tmp
      requires sz <= out.Length && off < g.clusterSize
      modifies this`cache, clust, rank, buf, out, tmp
      ensures Valid()
      ensures CopyLoop(disk, g, old(out[..]), c, sz, 0, off) == if ok then Some(out[..]) else None
    {
      ghost var all := CopyLoop(disk, g, out[..], c, sz, 0, off);
      var pos: nat, at: nat, rest: nat := 0, c, off;
      ok := true;
      while pos < sz
        invariant Valid() && ClusterOk(g, at) && rest < g.clusterSize && ok
        invariant CopyLoop(disk, g, out[..], at, sz, pos, rest) == all
        decreases sz - pos
      {
        CopyRounds(disk, g, out[..], at, sz, pos, rest);
        ok, at := CopyCluster(out, tmp, at, sz, pos, rest);
        if !ok {
          return;
        }
        rest := 0;
        pos := pos + g.clusterSize;
      }
    }

    /** _fat_file_read; a read past a regular file's size panics. */
    method FileRead(first: nat, isDir: bool, size: nat, out: array<byte>, sz: nat, off: nat) returns (r: ReadResult)
      requires Valid() && ClusterOk(g, first) && sz <= out.Length && out != rank
      modifies this`cache, clust, rank, buf, out
      ensures Valid()
      ensures r == Panicked <==> !isDir && off + sz > size
      ensures r == Panicked ==> out[..] == old(out[..]) && cache == old(cache)
      ensures r != Panicked ==> Read(disk, g, old(out[..]), first, sz, off) == if r == Done then Some(out[..]) else None
    {
      if !isDir && off + sz > size {
        return Panicked;
      }
      var tmp := new byte[g.clusterSize](_ => 0);
      var c: nat, rest: nat := Seek(tmp, first, off);
      if c == 0 {
        return Failed;
      }
      var ok := CopyAll(out, tmp, c, sz, rest);
      return if ok then Done else Failed;
    }
  }

  lemma LookupFirst(clust: seq<nat>, a: nat, i: nat)
    requires |clust| == WAYS && i < WAYS && clust[i] == a && Lookup(clust, a, i).None?
    ensures Lookup(clust, a, WAYS) == Some(i)
  {
    assert Lookup(clust, a, 1).None? || i < 1;
    assert Lookup(clust, a, 2).None? || i < 2;
    assert Lookup(clust, a, 3).None? || i < 3;
  }

  lemma DivAtLeastOne(x: nat, m: nat)
    requires 0 < m <= x
    ensures x / m >= 1
  {
    DivModId(x, m);
  }

  lemma RunOne(c: Cache, d: Disk, g: Geometry, blocks: seq<nat>)
    requires GeometryOk(g) && Shaped(c, g.clusterSize) && AllReadable(d, g.clusterSize, g.sectorSize, blocks) && 1 <= |blocks| <= 2
    ensures var cs := g.clusterSize;
            var c1 := Access(c, blocks[0], Block(d, cs, blocks[0]));
            && (|blocks| == 1 ==> Run(c, d, cs, g.sectorSize, blocks) == c1)
            && (|blocks| == 2 ==> Run(c, d, cs, g.sectorSize, blocks) == Access(c1, blocks[1], Block(d, cs, blocks[1])))
  {
    var one := blocks[..1];
    assert one[..0] == [] && Run(c, d, g.clusterSize, g.sectorSize, []) == c;
    assert Run(c, d, g.clusterSize, g.sectorSize, one) == Access(c, blocks[0], Block(d, g.clusterSize, blocks[0]));
    if |blocks| == 1 {
      assert blocks == one;
    }
  }
}
