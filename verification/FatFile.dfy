/**
  _fat_file_read (src/storage/fs/fat.c, lines 225-292) as a function on values, what it
  delivers, and the exact condition under which that is the file's content.
*/
module FatFile {
  import opened Wrappers
  import opened Bytes
  import opened Arith
  import opened Fat12

  /** The chain from c has a k-th cluster and it lies on the disk. */
  predicate Has(d: Disk, g: Geometry, c: nat, k: nat)
    requires DiskOk(d, g) && ClusterOk(g, c)
  {
    var n := Nth(d, g, LAST_LOADER, c, k);
    n != 0 && n + g.clusterSize <= |d|
  }

  /** Byte o of the chain's k-th cluster is b. */
  predicate ByteAt(d: Disk, g: Geometry, c: nat, k: nat, o: nat, b: byte)
    requires DiskOk(d, g) && ClusterOk(g, c) && o < g.clusterSize
  {
    Has(d, g, c, k) && d[Nth(d, g, LAST_LOADER, c, k) + o] == b
  }

  /** Byte x of the chain's clusters laid end to end is b. */
  predicate IsByte(d: Disk, g: Geometry, c: nat, x: nat, b: byte)
    requires DiskOk(d, g) && ClusterOk(g, c)
  {
    ByteAt(d, g, c, x / g.clusterSize, x % g.clusterSize, b)
  }

  /** The copy loop: cluster c, `pos` bytes counted so far, `off` into the current cluster. */
  function CopyLoop(d: Disk, g: Geometry, buf: seq<byte>, c: nat, sz: nat, pos: nat, off: nat): (r: Option<seq<byte>>)
    requires DiskOk(d, g) && ClusterOk(g, c) && off < g.clusterSize && sz <= |buf|
    ensures r.Some? ==> |r.value| == |buf|
    decreases sz - pos
  {
    if pos >= sz then Some(buf)
    else if c + g.clusterSize > |d| then None
    else
      var tmp := d[c..c + g.clusterSize];
      if sz - pos <= g.clusterSize - off then
        CopyLoop(d, g, Write(buf, pos, tmp[off..off + (sz - pos)]), c, sz, pos + g.clusterSize, 0)
      else
        var b := Write(buf, pos, tmp[..g.clusterSize - off]);
        var n := Next(d, g, LAST_LOADER, c);
        if n == 0 then None else CopyLoop(d, g, b, n, sz, pos + g.clusterSize, 0)
  }

  /** One round of it: the buffer, and the cluster to go on with. */
  function CopyRound(d: Disk, g: Geometry, buf: seq<byte>, c: nat, sz: nat, pos: nat, off: nat): (r: Option<(seq<byte>, nat)>)
    requires DiskOk(d, g) && ClusterOk(g, c) && off < g.clusterSize && pos < sz <= |buf|
    ensures r.Some? ==> |r.value.0| == |buf| && ClusterOk(g, r.value.1)
  {
    if c + g.clusterSize > |d| then None
    else if sz - pos <= g.clusterSize - off then
      Some((Write(buf, pos, d[c..c + g.clusterSize][off..off + (sz - pos)]), c))
    else
      var n := Next(d, g, LAST_LOADER, c);
      if n == 0 then None else Some((Write(buf, pos, d[c..c + g.clusterSize][0..0 + (g.clusterSize - off)]), n))
  }

  lemma CopyRounds(d: Disk, g: Geometry, buf: seq<byte>, c: nat, sz: nat, pos: nat, off: nat)
    requires DiskOk(d, g) && ClusterOk(g, c) && off < g.clusterSize && pos < sz <= |buf|
    ensures CopyLoop(d, g, buf, c, sz, pos, off)
      == match CopyRound(d, g, buf, c, sz, pos, off)
         case None => None
         case Some(r) => CopyLoop(d, g, r.0, r.1, sz, pos + g.clusterSize, 0)
  {
    if c + g.clusterSize <= |d| {
      var tmp := d[c..c + g.clusterSize];
      assert sz - pos > g.clusterSize - off ==> tmp[..g.clusterSize - off] == tmp[0..0 + (g.clusterSize - off)];
    }
  }

  /** A whole read: skip off / clusterSize clusters, then copy. */
  function Read(d: Disk, g: Geometry, buf: seq<byte>, first: nat, sz: nat, off: nat): Option<seq<byte>>
    requires DiskOk(d, g) && ClusterOk(g, first) && sz <= |buf|
  {
    var c := Nth(d, g, LAST_LOADER, first, off / g.clusterSize);
    if c == 0 then None else CopyLoop(d, g, buf, c, sz, 0, off % g.clusterSize)
  }

  // ---------------------------------------------------------------- chains

  lemma {:induction false} NthShift(d: Disk, g: Geometry, c: nat, j: nat, k: nat)
    requires DiskOk(d, g) && ClusterOk(g, c) && Nth(d, g, LAST_LOADER, c, j) != 0
    ensures Nth(d, g, LAST_LOADER, Nth(d, g, LAST_LOADER, c, j), k) == Nth(d, g, LAST_LOADER, c, j + k)
  {
    if k == 0 {
    } else {
      NthShift(d, g, c, j, k - 1);
    }
  }

  lemma NthOne(d: Disk, g: Geometry, c: nat)
    requires DiskOk(d, g) && ClusterOk(g, c) && c != 0
    ensures Nth(d, g, LAST_LOADER, c, 1) == Next(d, g, LAST_LOADER, c)
  {
    assert Nth(d, g, LAST_LOADER, c, 0) == c;
  }

  lemma ByteAtShift(d: Disk, g: Geometry, c: nat, j: nat, k: nat, o: nat, b: byte)
    requires DiskOk(d, g) && ClusterOk(g, c) && o < g.clusterSize && Nth(d, g, LAST_LOADER, c, j) != 0
    ensures ByteAt(d, g, Nth(d, g, LAST_LOADER, c, j), k, o, b) <==> ByteAt(d, g, c, j + k, o, b)
  {
    NthShift(d, g, c, j, k);
  }

  /** Skipping the clusters below offset off drops their bytes. */
  lemma ByteShift(d: Disk, g: Geometry, c: nat, off: nat, x: nat, b: byte)
    requires DiskOk(d, g) && ClusterOk(g, c) && Nth(d, g, LAST_LOADER, c, off / g.clusterSize) != 0
    ensures IsByte(d, g, Nth(d, g, LAST_LOADER, c, off / g.clusterSize), off % g.clusterSize + x, b)
            <==> IsByte(d, g, c, off + x, b)
  {
    var cs := g.clusterSize;
    DivModSplit(off, x, cs);
    ByteAtShift(d, g, c, off / cs, (off % cs + x) / cs, (off % cs + x) % cs, b);
  }

  // ---------------------------------------------------------------- the read theorem

  /** off is at a cluster boundary, or the read stays inside one cluster. */
  predicate Straight(cs: nat, sz: nat, off: nat)
    requires cs > 0
  {
    off % cs == 0 || off % cs + sz <= cs
  }

  /** The number of clusters, counted from the one at `off`, that a read of sz > 0 bytes touches, less one. */
  function LastOf(g: Geometry, sz: nat, off: nat): nat
    requires g.clusterSize > 0 && sz > 0
  {
    (off + sz - 1) / g.clusterSize
  }

  ghost predicate Delivers(d: Disk, g: Geometry, c: nat, buf: seq<byte>, r: seq<byte>, sz: nat, pos: nat, off: nat)
    requires DiskOk(d, g) && ClusterOk(g, c)
  {
    && |r| == |buf|
    && (forall i :: pos <= i < sz && i < |r| ==> IsByte(d, g, c, off + i - pos, r[i]))
    && (forall i :: 0 <= i < |r| && !(pos <= i < sz) ==> r[i] == buf[i])
  }

  /** The copy loop succeeds exactly when the chain reaches far enough, with the right bytes. */
  ghost predicate CopiesRight(d: Disk, g: Geometry, buf: seq<byte>, c: nat, sz: nat, pos: nat, off: nat)
    requires DiskOk(d, g) && ClusterOk(g, c) && off < g.clusterSize && sz <= |buf| && pos < sz
  {
    var r := CopyLoop(d, g, buf, c, sz, pos, off);
    && (r.Some? <==> forall j :: 0 <= j <= LastOf(g, sz - pos, off) ==> Has(d, g, c, j))
    && (r.Some? ==> Delivers(d, g, c, buf, r.value, sz, pos, off))
  }

  lemma {:induction false} CopyStraight(d: Disk, g: Geometry, buf: seq<byte>, c: nat, sz: nat, pos: nat, off: nat)
    requires DiskOk(d, g) && ClusterOk(g, c) && c != 0 && off < g.clusterSize && sz <= |buf| && pos < sz
    requires off == 0 || off + (sz - pos) <= g.clusterSize
    ensures CopiesRight(d, g, buf, c, sz, pos, off)
    decreases sz - pos
  {
    var cs := g.clusterSize;
    if c + cs > |d| {
      CopyNone(d, g, buf, c, sz, pos, off);
    } else if sz - pos <= cs - off {
      CopyLast(d, g, buf, c, sz, pos, off);
    } else {
      var n := Next(d, g, LAST_LOADER, c);
      var b := Write(buf, pos, d[c..c + cs]);
      if n != 0 {
        CopyStraight(d, g, b, n, sz, pos + cs, 0);
      }
      CopyMore(d, g, buf, b, c, n, sz, pos);
    }
  }

  lemma CopyNone(d: Disk, g: Geometry, buf: seq<byte>, c: nat, sz: nat, pos: nat, off: nat)
    requires DiskOk(d, g) && ClusterOk(g, c) && c + g.clusterSize > |d|
    requires off < g.clusterSize && sz <= |buf| && pos < sz
    ensures CopiesRight(d, g, buf, c, sz, pos, off)
  {
    assert Nth(d, g, LAST_LOADER, c, 0) == c;
    assert !Has(d, g, c, 0);
  }

  lemma CopyMore(d: Disk, g: Geometry, buf: seq<byte>, b: seq<byte>, c: nat, n: nat, sz: nat, pos: nat)
    requires DiskOk(d, g) && ClusterOk(g, c) && c != 0 && c + g.clusterSize <= |d|
    requires sz <= |buf| && pos + g.clusterSize < sz
    requires n == Next(d, g, LAST_LOADER, c) && b == Write(buf, pos, d[c..c + g.clusterSize])
    requires n != 0 ==> CopiesRight(d, g, b, n, sz, pos + g.clusterSize, 0)
    ensures CopiesRight(d, g, buf, c, sz, pos, 0)
  {
    assert Nth(d, g, LAST_LOADER, c, 0) == c;
    CopyUnfolds(d, g, buf, c, sz, pos, n);
    NextHas(d, g, c, n, sz - pos);
    if n != 0 {
      var r := CopyLoop(d, g, b, n, sz, pos + g.clusterSize, 0);
      if r.Some? {
        CopyStep(d, g, buf, b, c, sz, pos, r.value);
      }
    }
  }

  /** What the chain from c has to have for n bytes, in terms of the next cluster. */
  lemma NextHas(d: Disk, g: Geometry, c: nat, next: nat, n: nat)
    requires DiskOk(d, g) && ClusterOk(g, c) && c != 0 && next == Next(d, g, LAST_LOADER, c) && Has(d, g, c, 0)
    requires n > g.clusterSize
    ensures (forall j :: 0 <= j <= LastOf(g, n, 0) ==> Has(d, g, c, j))
      <==> next != 0 && forall j :: 0 <= j <= LastOf(g, n - g.clusterSize, 0) ==> Has(d, g, next, j)
  {
    NthOne(d, g, c);
    LastShift(g, n);
    if next == 0 {
      assert !Has(d, g, c, 1);
    } else {
      HasShift(d, g, c, LastOf(g, n - g.clusterSize, 0));
    }
  }

  /** The loop takes a whole cluster and goes on with the next one. */
  lemma CopyUnfolds(d: Disk, g: Geometry, buf: seq<byte>, c: nat, sz: nat, pos: nat, n: nat)
    requires DiskOk(d, g) && ClusterOk(g, c) && c + g.clusterSize <= |d| && n == Next(d, g, LAST_LOADER, c)
    requires sz <= |buf| && pos + g.clusterSize < sz
    ensures CopyLoop(d, g, buf, c, sz, pos, 0)
         == if n == 0 then None
            else CopyLoop(d, g, Write(buf, pos, d[c..c + g.clusterSize]), n, sz, pos + g.clusterSize, 0)
  {
    assert d[c..c + g.clusterSize][..g.clusterSize] == d[c..c + g.clusterSize];
  }

  lemma LastShift(g: Geometry, n: nat)
    requires 0 < g.clusterSize < n
    ensures LastOf(g, n, 0) == LastOf(g, n - g.clusterSize, 0) + 1
  {
    var cs := g.clusterSize;
    var x := n - cs - 1;
    assert x + cs == (x / cs + 1) * cs + x % cs;
    DivModUnique(x + cs, x / cs + 1, cs, x % cs);
  }

  /** The clusters of the rest of the chain are the clusters of the chain, one later. */
  lemma HasShift(d: Disk, g: Geometry, c: nat, last: nat)
    requires DiskOk(d, g) && ClusterOk(g, c) && c != 0 && Next(d, g, LAST_LOADER, c) != 0 && Has(d, g, c, 0)
    ensures var n := Next(d, g, LAST_LOADER, c);
            (forall j :: 0 <= j <= last ==> Has(d, g, n, j)) <==> (forall j :: 0 <= j <= last + 1 ==> Has(d, g, c, j))
  {
    NthOne(d, g, c);
    var n := Next(d, g, LAST_LOADER, c);
    forall j: nat ensures Has(d, g, n, j) == Has(d, g, c, j + 1) {
      NthShift(d, g, c, 1, j);
    }
    if forall j :: 0 <= j <= last ==> Has(d, g, n, j) {
      forall j | 0 <= j <= last + 1 ensures Has(d, g, c, j) {
        if j > 0 { assert Has(d, g, n, j - 1); }
      }
    }
    if forall j :: 0 <= j <= last + 1 ==> Has(d, g, c, j) {
      forall j | 0 <= j <= last ensures Has(d, g, n, j) {
        assert Has(d, g, c, j + 1);
      }
    }
  }

  lemma CopyLast(d: Disk, g: Geometry, buf: seq<byte>, c: nat, sz: nat, pos: nat, off: nat)
    requires DiskOk(d, g) && ClusterOk(g, c) && c != 0 && off < g.clusterSize && sz <= |buf| && pos < sz
    requires c + g.clusterSize <= |d| && off + (sz - pos) <= g.clusterSize
    ensures CopiesRight(d, g, buf, c, sz, pos, off)
  {
    var cs := g.clusterSize;
    DivModUnique(off + sz - pos - 1, 0, cs, off + sz - pos - 1);
    assert Nth(d, g, LAST_LOADER, c, 0) == c;
    var part := d[c..c + cs][off..off + (sz - pos)];
    var r := Write(buf, pos, part);
    assert CopyLoop(d, g, r, c, sz, pos + cs, 0) == Some(r);
    forall i | pos <= i < sz ensures IsByte(d, g, c, off + i - pos, r[i]) {
      DivModUnique(off + i - pos, 0, cs, off + i - pos);
      assert Nth(d, g, LAST_LOADER, c, 0) == c;
      assert r[i] == part[i - pos] == d[c + off + (i - pos)];
    }
  }

  /** One full cluster copied, and the rest by induction. */
  lemma CopyStep(d: Disk, g: Geometry, buf: seq<byte>, b: seq<byte>, c: nat, sz: nat, pos: nat, r: seq<byte>)
    requires DiskOk(d, g) && ClusterOk(g, c) && c != 0 && Has(d, g, c, 0) && Next(d, g, LAST_LOADER, c) != 0
    requires sz <= |buf| && pos + g.clusterSize < sz && b == Write(buf, pos, d[c..c + g.clusterSize])
    requires Delivers(d, g, Next(d, g, LAST_LOADER, c), b, r, sz, pos + g.clusterSize, 0)
    ensures Delivers(d, g, c, buf, r, sz, pos, 0)
  {
    var cs := g.clusterSize;
    NthOne(d, g, c);
    forall i | pos <= i < sz ensures IsByte(d, g, c, i - pos, r[i]) {
      if i < pos + cs {
        DivModUnique(i - pos, 0, cs, i - pos);
        assert r[i] == b[i] == d[c + (i - pos)];
      } else {
        assert IsByte(d, g, Next(d, g, LAST_LOADER, c), 0 + i - (pos + cs), r[i]);
        DivModUnique(cs, 1, cs, 0);
        ByteShift(d, g, c, cs, i - pos - cs, r[i]);
      }
    }
  }

  /**
    A read that starts at a cluster boundary or stays inside one cluster returns success exactly
    when the chain has all the clusters it touches; then it has put bytes [off, off + sz) of the
    file in the buffer and touched nothing behind them.
  */
  lemma ReadStraight(d: Disk, g: Geometry, buf: seq<byte>, first: nat, sz: nat, off: nat)
    requires DiskOk(d, g) && ClusterOk(g, first) && first != 0 && 0 < sz <= |buf| && Straight(g.clusterSize, sz, off)
    ensures Read(d, g, buf, first, sz, off).Some? <==>
              forall k :: off / g.clusterSize <= k <= LastOf(g, sz, off) ==> Has(d, g, first, k)
    ensures Read(d, g, buf, first, sz, off).Some? ==>
              Delivers(d, g, first, buf, Read(d, g, buf, first, sz, off).value, sz, 0, off)
  {
    var k0, o := off / g.clusterSize, off % g.clusterSize;
    var c := Nth(d, g, LAST_LOADER, first, k0);
    LastSum(g, sz, off);
    if c == 0 {
      assert !Has(d, g, first, k0);
    } else {
      CopyStraight(d, g, buf, c, sz, 0, o);
      HasFrom(d, g, first, k0, LastOf(g, sz, o));
      if CopyLoop(d, g, buf, c, sz, 0, o).Some? {
        DeliversFrom(d, g, first, c, o, buf, CopyLoop(d, g, buf, c, sz, 0, o).value, sz, off);
      }
    }
  }

  /** So it succeeds when the chain reaches to its last cluster. */
  lemma ReadWithin(d: Disk, g: Geometry, buf: seq<byte>, first: nat, sz: nat, off: nat, last: nat)
    requires DiskOk(d, g) && ClusterOk(g, first) && first != 0 && 0 < sz <= |buf| && Straight(g.clusterSize, sz, off)
    requires last == LastOf(g, sz, off) && forall k :: 0 <= k <= last ==> Has(d, g, first, k)
    ensures Read(d, g, buf, first, sz, off).Some?
    ensures Delivers(d, g, first, buf, Read(d, g, buf, first, sz, off).value, sz, 0, off)
  {
    var q, r := Divide(off, g.clusterSize);
    ReadStraight(d, g, buf, first, sz, off);
    assert forall k :: q <= k <= last ==> Has(d, g, first, k);
  }

  lemma DeliversFrom(d: Disk, g: Geometry, first: nat, c: nat, o: nat, buf: seq<byte>, r: seq<byte>, sz: nat, off: nat)
    requires DiskOk(d, g) && ClusterOk(g, first) && c != 0
    requires c == Nth(d, g, LAST_LOADER, first, off / g.clusterSize) && o == off % g.clusterSize
    requires Delivers(d, g, c, buf, r, sz, 0, o)
    ensures Delivers(d, g, first, buf, r, sz, 0, off)
  {
    forall i | 0 <= i < sz && i < |r| ensures IsByte(d, g, first, off + i, r[i]) {
      var x := o + i;
      assert IsByte(d, g, c, x, r[i]);
      ByteShift(d, g, first, off, i, r[i]);
    }
  }

  lemma LastSum(g: Geometry, sz: nat, off: nat)
    requires 0 < g.clusterSize && 0 < sz
    ensures LastOf(g, sz, off) == off / g.clusterSize + LastOf(g, sz, off % g.clusterSize)
  {
    DivModSplit(off, sz - 1, g.clusterSize);
  }

  lemma HasFrom(d: Disk, g: Geometry, first: nat, k0: nat, last: nat)
    requires DiskOk(d, g) && ClusterOk(g, first) && Nth(d, g, LAST_LOADER, first, k0) != 0
    ensures (forall j :: 0 <= j <= last ==> Has(d, g, Nth(d, g, LAST_LOADER, first, k0), j)) <==>
            (forall k :: k0 <= k <= k0 + last ==> Has(d, g, first, k))
  {
    var c := Nth(d, g, LAST_LOADER, first, k0);
    forall j: nat ensures Has(d, g, c, j) == Has(d, g, first, k0 + j) {
      NthShift(d, g, first, k0, j);
    }
    if forall j :: 0 <= j <= last ==> Has(d, g, c, j) {
      forall k | k0 <= k <= k0 + last ensures Has(d, g, first, k) {
        assert Has(d, g, c, k - k0);
      }
    }
    if forall k :: k0 <= k <= k0 + last ==> Has(d, g, first, k) {
      forall j | 0 <= j <= last ensures Has(d, g, c, j) {
        assert Has(d, g, first, k0 + j);
      }
    }
  }

  // ---------------------------------------------------------------- the condition is exact

  ghost predicate ReadsRight(d: Disk, g: Geometry, buf: seq<byte>, first: nat, sz: nat, off: nat)
    requires DiskOk(d, g) && ClusterOk(g, first) && sz <= |buf|
  {
    Read(d, g, buf, first, sz, off).Some? ==> Delivers(d, g, first, buf, Read(d, g, buf, first, sz, off).value, sz, 0, off)
  }

  /** The fields of a FAT12 boot sector the geometry is computed from. */
  datatype Boot = Boot(bytesPerSector: nat, sectorsPerCluster: nat, reservedSectors: nat, fatCopies: nat,
                       rootDirEntries: nat, sectorsPerFat: nat)

  /** Every field is used and fits its width, a cluster fits 16 bits, and the root directory fills its clusters. */
  predicate BootOk(b: Boot) {
    && 0 < b.bytesPerSector < 0x1_0000 && 0 < b.sectorsPerCluster < 0x100
    && b.bytesPerSector * b.sectorsPerCluster < 0x1_0000
    && 0 < b.reservedSectors < 0x1_0000 && 0 < b.fatCopies < 0x100
    && 0 < b.rootDirEntries < 0x1_0000 && 0 < b.sectorsPerFat < 0x1_0000
    && (32 * b.rootDirEntries) % (b.bytesPerSector * b.sectorsPerCluster) == 0
  }

  /** fs_fat_init */
  function GeometryOf(b: Boot): Geometry {
    var fat := b.reservedSectors * b.bytesPerSector;
    var root := fat + b.sectorsPerFat * b.bytesPerSector * b.fatCopies;
    Geometry(b.bytesPerSector, b.bytesPerSector * b.sectorsPerCluster, fat, root, root + 32 * b.rootDirEntries)
  }

  /** A file that starts at data cluster n is read right. */
  ghost predicate FileReadsRight(d: Disk, g: Geometry, buf: seq<byte>, n: nat, sz: nat, off: nat)
    requires DiskOk(d, g) && 2 <= n <= LAST_LOADER && sz <= |buf|
  {
    FileCluster(g, n);
    ReadsRight(d, g, buf, ClusterAt(g, n), sz, off)
  }

  /** Reads of sz bytes at off are right for every file on every image with such sectors and clusters. */
  ghost predicate AlwaysRight(sector: nat, perCluster: nat, sz: nat, off: nat) {
    forall d: Disk, b: Boot, buf: seq<byte>, n: nat :: Given(d, b, buf, n, sector, perCluster, sz) ==>
      FileReadsRight(d, GeometryOf(b), buf, n, sz, off)
  }

  ghost predicate Given(d: Disk, b: Boot, buf: seq<byte>, n: nat, sector: nat, perCluster: nat, sz: nat) {
    && BootOk(b) && b.bytesPerSector == sector && b.sectorsPerCluster == perCluster
    && DiskOk(d, GeometryOf(b)) && 2 <= n <= LAST_LOADER && sz <= |buf|
  }

  lemma FileCluster(g: Geometry, n: nat)
    requires g.clusterSize > 0 && g.rootFirst <= g.dataOffset && 2 <= n <= LAST_LOADER
    ensures ClusterOk(g, ClusterAt(g, n))
  {
    NumAt(g, n);
  }

  /** A read that starts inside cluster c and leaves it delivers the first byte of c, not the one asked for. */
  lemma CopyCrossing(d: Disk, g: Geometry, buf: seq<byte>, c: nat, n: nat, sz: nat, o: nat)
    requires DiskOk(d, g) && ClusterOk(g, c) && c != 0 && sz <= |buf| && 0 < o < g.clusterSize < o + sz
    requires c + g.clusterSize <= |d| && n == Next(d, g, LAST_LOADER, c) && n != 0
    requires g.clusterSize < sz ==> forall j :: 0 <= j <= LastOf(g, sz - g.clusterSize, 0) ==> Has(d, g, n, j)
    ensures CopyLoop(d, g, buf, c, sz, 0, o).Some? && CopyLoop(d, g, buf, c, sz, 0, o).value[0] == d[c]
  {
    var cs := g.clusterSize;
    var b := Write(buf, 0, d[c..c + cs][..cs - o]);
    assert b[0] == d[c];
    assert CopyLoop(d, g, buf, c, sz, 0, o) == CopyLoop(d, g, b, n, sz, cs, 0);
    if cs < sz {
      CopyStraight(d, g, b, n, sz, cs, 0);
    }
  }

  /** Such a read of a file from first: the byte asked for, if it differs from the cluster's first one, is not delivered. */
  lemma CrossingBad(d: Disk, g: Geometry, buf: seq<byte>, first: nat, c: nat, n: nat, sz: nat, off: nat, o: nat)
    requires DiskOk(d, g) && ClusterOk(g, first) && ClusterOk(g, c) && |buf| == sz && c != 0 && n != 0
    requires 0 < o < g.clusterSize < o + sz && o == off % g.clusterSize
    requires c == Nth(d, g, LAST_LOADER, first, off / g.clusterSize)
    requires c + g.clusterSize <= |d| && n == Next(d, g, LAST_LOADER, c)
    requires g.clusterSize < sz ==> forall j :: 0 <= j <= LastOf(g, sz - g.clusterSize, 0) ==> Has(d, g, n, j)
    requires d[c] != d[c + o]
    ensures !ReadsRight(d, g, buf, first, sz, off)
  {
    CopyCrossing(d, g, buf, c, n, sz, o);
    var r := CopyLoop(d, g, buf, c, sz, 0, o);
    assert Read(d, g, buf, first, sz, off) == r;
    assert !IsByte(d, g, first, off + 0 - 0, r.value[0]);
  }

  /**
    An image on which data cluster 2 is its own successor, so that a file that starts there never ends;
    the cluster's first byte is 0 and byte o is 1.
  */
  ghost predicate Endless(d: Disk, g: Geometry, o: nat) {
    && DiskOk(d, g) && 0 < o < g.clusterSize && g.dataOffset + g.clusterSize <= |d|
    && Entry(d, g, 2) == 2 && d[g.dataOffset] == 0 && d[g.dataOffset + o] == 1
  }

  lemma {:induction false} EndlessChain(d: Disk, g: Geometry, o: nat, k: nat)
    requires Endless(d, g, o)
    ensures ClusterOk(g, g.dataOffset) && Next(d, g, LAST_LOADER, g.dataOffset) == g.dataOffset
    ensures Nth(d, g, LAST_LOADER, g.dataOffset, k) == g.dataOffset && Has(d, g, g.dataOffset, k)
  {
    DivModUnique(0, 0, g.clusterSize, 0);
    assert ClusterAt(g, 2) == g.dataOffset;
    if k == 0 {
    } else {
      EndlessChain(d, g, o, k - 1);
    }
  }

  lemma EndlessImage(b: Boot, o: nat) returns (d: Disk)
    requires BootOk(b) && b.sectorsPerFat * b.bytesPerSector >= 5 && 0 < o < b.bytesPerSector * b.sectorsPerCluster
    ensures Endless(d, GeometryOf(b), o)
  {
    var g := GeometryOf(b);
    BootGeometryOk(b);
    d := seq(g.dataOffset + g.clusterSize + 7000,
             i => if i == g.fatOffset + 3 then 2 else if i == g.dataOffset + o then 1 else 0);
    assert g.fatOffset + 4 < g.rootFirst;
  }

  lemma BootGeometryOk(b: Boot)
    requires BootOk(b)
    ensures var g := GeometryOf(b);
      && GeometryOk(g) && g.rootFirst >= g.fatOffset + b.sectorsPerFat * b.bytesPerSector
  {
    var s, p := b.bytesPerSector, b.sectorsPerCluster;
    MulMonotone(1, p, s);
    assert s * p == p * s;
    DivModUnique(s * p, p, s, 0);
    MulMonotone(1, b.reservedSectors, s);
    DivModUnique(b.reservedSectors * s, b.reservedSectors, s, 0);
    var fat := b.sectorsPerFat * s;
    MulMonotone(1, b.fatCopies, fat);
    assert fat * b.fatCopies == b.fatCopies * fat;
  }

  /** On that image a read that is not straight delivers a 0 for a 1. */
  lemma EndlessBad(d: Disk, g: Geometry, buf: seq<byte>, sz: nat, off: nat)
    requires g.clusterSize > 0 && Endless(d, g, off % g.clusterSize) && |buf| == sz && !Straight(g.clusterSize, sz, off)
    ensures ClusterOk(g, g.dataOffset) && !ReadsRight(d, g, buf, g.dataOffset, sz, off)
  {
    var c, o := g.dataOffset, off % g.clusterSize;
    EndlessChain(d, g, o, off / g.clusterSize);
    forall j: nat
      ensures Has(d, g, c, j)
    {
      EndlessChain(d, g, o, j);
    }
    CrossingBad(d, g, buf, c, c, c, sz, off, o);
  }

  /** Sectors and clusters of any size have such an image. */
  lemma StraightNeeded(sector: nat, perCluster: nat, sz: nat, off: nat)
    requires 0 < sector < 0x1_0000 && 0 < perCluster < 0x100 && sector * perCluster < 0x1_0000
    requires !Straight(sector * perCluster, sz, off)
    ensures !AlwaysRight(sector, perCluster, sz, off)
  {
    var cs := sector * perCluster;
    var b := Boot(sector, perCluster, 1, 2, cs, 6200);
    MulMonotone(1, perCluster, sector);
    DivModUnique(32 * cs, 32, cs, 0);
    var d := EndlessImage(b, off % cs);
    var g := GeometryOf(b);
    var buf := seq(sz, _ => 0 as byte);
    EndlessBad(d, g, buf, sz, off);
    assert ClusterAt(g, 2) == g.dataOffset;
    assert Given(d, b, buf, 2, sector, perCluster, sz);
    assert !FileReadsRight(d, g, buf, 2, sz, off);
  }

  /**
    Whatever the sectors and clusters, reads of sz bytes at off are right for every file on every image
    exactly when they are straight.
  */
  lemma StraightIsExact(sector: nat, perCluster: nat, sz: nat, off: nat)
    requires 0 < sector < 0x1_0000 && 0 < perCluster < 0x100 && sector * perCluster < 0x1_0000 && sz > 0
    ensures sector * perCluster > 0
    ensures AlwaysRight(sector, perCluster, sz, off) <==> Straight(sector * perCluster, sz, off)
  {
    MulMonotone(1, perCluster, sector);
    if Straight(sector * perCluster, sz, off) {
      forall d: Disk, b: Boot, buf: seq<byte>, n: nat | Given(d, b, buf, n, sector, perCluster, sz)
        ensures FileReadsRight(d, GeometryOf(b), buf, n, sz, off)
      {
        FileCluster(GeometryOf(b), n);
        ReadStraight(d, GeometryOf(b), buf, ClusterAt(GeometryOf(b), n), sz, off);
      }
    } else {
      StraightNeeded(sector, perCluster, sz, off);
    }
  }
}
