/**
  The FAT12 allocation table and cluster chains on a disk image, without any caching.

  Entries follow "FAT Data Structure" of Microsoft's FAT specification (fatgen103): 12 bits
  each, two entries in three bytes.  The host tool's reader is tools/sector_mapper/src/fat.c;
  the loader's cached reader (src/storage/fs/fat.c) is in FatReader.
*/
module Fat12 {
  import opened Bytes
  import opened Arith

  /** Byte offsets and sizes the boot sector gives. */
  datatype Geometry = Geometry(sectorSize: nat, clusterSize: nat, fatOffset: nat, rootFirst: nat, dataOffset: nat)

  const LAST_LOADER: nat := 0xff0 // the loader follows entries up to and including this one
  const LAST_TOOL: nat := 0xfef   // the tool stops one earlier

  predicate GeometryOk(g: Geometry) {
    && 0 < g.sectorSize && 0 < g.clusterSize && g.clusterSize % g.sectorSize == 0
    && g.fatOffset % g.sectorSize == 0
    && 0 < g.fatOffset <= g.rootFirst <= g.dataOffset
    && (g.dataOffset - g.rootFirst) % g.clusterSize == 0
  }

  // ---------------------------------------------------------------- the packed table

  /** Byte k of the three that hold the entries e and o. */
  function GroupByte(e: nat, o: nat, k: nat): byte
    requires e < 0x1000 && o < 0x1000
  {
    if k == 0 then e % 256 else if k == 1 then e / 256 + 16 * (o % 16) else o / 16
  }

  /** The table as the specification packs it: two entries in three bytes. */
  function Pack(entries: seq<nat>): (r: seq<byte>)
    requires Entries12(entries)
    ensures |r| == |entries| / 2 * 3
  {
    seq(|entries| / 2 * 3, i requires 0 <= i < |entries| / 2 * 3 =>
      GroupByte(entries[2 * (i / 3)], entries[2 * (i / 3) + 1], i % 3))
  }

  /** Where the two bytes that hold entry n begin. */
  function EntryOffset(g: Geometry, n: nat): nat { g.fatOffset + n * 3 / 2 }

  /** Entry n, read back from its three-byte group. */
  function Entry(d: Disk, g: Geometry, n: nat): (r: nat)
    requires EntryOffset(g, n) + 2 <= |d|
    ensures r < 0x1000
  {
    var p := g.fatOffset + 3 * (n / 2);
    var lo: nat, mid: nat := d[p], d[p + 1];
    if n % 2 == 0 then lo + 256 * (mid % 16)
    else
      var hi: nat := d[p + 2];
      mid / 16 + 16 * hi
  }

  lemma EntryOfGroup(d: Disk, g: Geometry, n: nat, p: nat, e: nat, o: nat)
    requires e < 0x1000 && o < 0x1000 && p == g.fatOffset + 3 * (n / 2) && p + 3 <= |d|
    requires d[p] == e % 256 && d[p + 1] == e / 256 + 16 * (o % 16) && d[p + 2] == o / 16
    ensures EntryOffset(g, n) + 2 <= |d| && Entry(d, g, n) == if n % 2 == 0 then e else o
  {
    assert n * 3 / 2 == 3 * (n / 2) + n % 2;
  }

  predicate Entries12(entries: seq<nat>) {
    |entries| % 2 == 0 && forall i :: 0 <= i < |entries| ==> entries[i] < 0x1000
  }

  predicate HoldsTable(d: Disk, f: nat, entries: seq<nat>) {
    Entries12(entries) && f + |entries| / 2 * 3 <= |d| && d[f..f + |entries| / 2 * 3] == Pack(entries)
  }

  lemma PackedGroup(d: Disk, f: nat, entries: seq<nat>, q: nat, p: nat)
    requires HoldsTable(d, f, entries) && 2 * q < |entries| && p == f + 3 * q
    ensures 2 * q + 1 < |entries| && p + 3 <= |d|
    ensures d[p] == entries[2 * q] % 256
    ensures d[p + 1] == entries[2 * q] / 256 + 16 * (entries[2 * q + 1] % 16)
    ensures d[p + 2] == entries[2 * q + 1] / 16
  {
    var s := d[f..f + |entries| / 2 * 3];
    assert d[p] == s[3 * q] && d[p + 1] == s[3 * q + 1] && d[p + 2] == s[3 * q + 2];
  }

  /** Unpacking inverts packing. */
  lemma EntryOfPack(d: Disk, g: Geometry, entries: seq<nat>, n: nat)
    requires HoldsTable(d, g.fatOffset, entries) && n < |entries|
    ensures EntryOffset(g, n) + 2 <= |d| && Entry(d, g, n) == entries[n]
  {
    var q := n / 2;
    var p := g.fatOffset + 3 * q;
    PackedGroup(d, g.fatOffset, entries, q, p);
    EntryOfGroup(d, g, n, p, entries[2 * q], entries[2 * q + 1]);
  }

  /** _get_fat_entry of the tool: two bytes, shifted for odd entries; all ones when they cannot be read. */
  function ToolEntry(d: Disk, g: Geometry, n: nat): nat {
    if EntryOffset(g, n) + 2 > |d| then 0xFFFF_FFFF
    else
      var w := Le16(d, EntryOffset(g, n));
      (if n % 2 == 1 then w / 16 else w) % 0x1000
  }

  lemma ToolEntryIsEntry(d: Disk, g: Geometry, n: nat)
    requires EntryOffset(g, n) + 2 <= |d|
    ensures ToolEntry(d, g, n) == Entry(d, g, n)
  {
    assert n * 3 / 2 == 3 * (n / 2) + n % 2;
    var p := g.fatOffset + 3 * (n / 2);
    if n % 2 == 0 {
      LowTwelve(d[p], d[p + 1]);
    } else {
      HighTwelve(d[p + 1], d[p + 2]);
    }
  }

  lemma LowTwelve(lo: byte, mid: byte)
    ensures (lo as int + 256 * mid as int) % 0x1000 == lo as int + 256 * (mid % 16)
  {
    var q: nat, r: nat := mid as int / 16, mid as int % 16;
    DivModUnique(lo as int + 256 * mid as int, q, 0x1000, lo as int + 256 * r);
  }

  lemma HighTwelve(mid: byte, hi: byte)
    ensures ((mid as int + 256 * hi as int) / 16) % 0x1000 == mid / 16 + 16 * hi as int
  {
    var q: nat, r: nat := mid as int / 16, mid as int % 16;
    DivModUnique(mid as int + 256 * hi as int, q + 16 * hi as int, 16, r);
  }

  // ---------------------------------------------------------------- cluster chains

  /** A byte offset that can be a cluster: in the root directory or a numbered data cluster. */
  predicate ClusterOk(g: Geometry, c: nat) {
    g.clusterSize > 0 && g.rootFirst <= c &&
    (c >= g.dataOffset ==> (c - g.dataOffset) / g.clusterSize + 2 <= LAST_LOADER)
  }

  function ClusterNum(g: Geometry, c: nat): nat
    requires g.clusterSize > 0 && g.dataOffset <= c
  {
    (c - g.dataOffset) / g.clusterSize + 2
  }

  function ClusterAt(g: Geometry, n: nat): nat
    requires n >= 2
  {
    g.dataOffset + (n - 2) * g.clusterSize
  }

  /** Every entry of every cluster, and the cluster-sized block around it, lies on the disk. */
  predicate DiskOk(d: Disk, g: Geometry) {
    GeometryOk(g) && EntryOffset(g, LAST_LOADER) + 2 + g.clusterSize <= |d|
  }

  /** The cluster after c, 0 when there is none; `last` is the greatest entry followed. */
  function Next(d: Disk, g: Geometry, last: nat, c: nat): (r: nat)
    requires DiskOk(d, g) && ClusterOk(g, c) && last <= LAST_LOADER
    ensures r == 0 || ClusterOk(g, r)
  {
    if c < g.dataOffset then
      if c + g.clusterSize < g.dataOffset then c + g.clusterSize else 0
    else
      var e := Entry(d, g, ClusterNum(g, c));
      if 2 <= e <= last then NumAt(g, e); ClusterAt(g, e) else 0
  }

  lemma NumAt(g: Geometry, n: nat)
    requires g.clusterSize > 0 && n >= 2
    ensures ClusterNum(g, ClusterAt(g, n)) == n && ClusterAt(g, n) >= g.dataOffset
  {
    DivModUnique((n - 2) * g.clusterSize, n - 2, g.clusterSize, 0);
  }

  /** The loader and the tool disagree on the successor exactly at the reserved entry 0xff0. */
  lemma LoaderAndToolAgree(d: Disk, g: Geometry, c: nat)
    requires DiskOk(d, g) && ClusterOk(g, c)
    ensures Next(d, g, LAST_LOADER, c) == Next(d, g, LAST_TOOL, c)
            <==> !(c >= g.dataOffset && Entry(d, g, ClusterNum(g, c)) == 0xff0)
  {
  }

  /** The k-th cluster of the chain from c, 0 past its end. */
  function Nth(d: Disk, g: Geometry, last: nat, c: nat, k: nat): (r: nat)
    requires DiskOk(d, g) && ClusterOk(g, c) && last <= LAST_LOADER
    ensures r == 0 || ClusterOk(g, r)
  {
    if k == 0 then c
    else
      var p := Nth(d, g, last, c, k - 1);
      if p == 0 then 0 else Next(d, g, last, p)
  }

  lemma {:induction false} NthEnds(d: Disk, g: Geometry, last: nat, c: nat, j: nat, k: nat)
    requires DiskOk(d, g) && ClusterOk(g, c) && last <= LAST_LOADER && j <= k
    ensures Nth(d, g, last, c, j) == 0 ==> Nth(d, g, last, c, k) == 0
  {
    if j >= k {
    } else {
      NthEnds(d, g, last, c, j, k - 1);
    }
  }
}
