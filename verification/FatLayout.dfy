/**
  A FAT12 file system as its specification lays it out on disk (directory entries, the root directory, the
  packed table and the files' clusters), and what the loader finds and reads there.
*/
module FatLayout {
  import opened Wrappers
  import opened Bytes
  import opened Arith
  import opened Fat12
  import opened FatName
  import opened FatPath
  import FatFile
  import SectorMap

  // ---------------------------------------------------------------- the volume

  /** n copies one behind the other. */
  function Copies(part: seq<byte>, n: nat): (r: seq<byte>) {
    if n == 0 then [] else part + Copies(part, n - 1)
  }

  /** Reserved sectors, the copies of the table, the root directory and the data area, one behind the other. */
  predicate Volume(d: Disk, b: FatFile.Boot, reserved: seq<byte>, table: seq<byte>, root: seq<byte>, data: seq<byte>) {
    && d == reserved + Copies(table, b.fatCopies) + root + data
    && |reserved| == b.reservedSectors * b.bytesPerSector && |table| == b.sectorsPerFat * b.bytesPerSector
    && |root| == 32 * b.rootDirEntries
  }

  lemma {:induction false} CopiesLength(part: seq<byte>, n: nat)
    ensures |Copies(part, n)| == |part| * n
    ensures n > 0 ==> |part| <= |Copies(part, n)| && Copies(part, n)[..|part|] == part
  {
    if n == 0 {
    } else {
      CopiesLength(part, n - 1);
      assert |part| * n == |part| + |part| * (n - 1);
    }
  }

  /** The offsets taken from the boot sector are where the first table, the root directory and the data area start. */
  lemma VolumeParts(d: Disk, b: FatFile.Boot, reserved: seq<byte>, table: seq<byte>, root: seq<byte>, data: seq<byte>)
    requires Volume(d, b, reserved, table, root, data) && b.fatCopies > 0
    ensures var g := FatFile.GeometryOf(b);
      && g.sectorSize == b.bytesPerSector && g.clusterSize == b.bytesPerSector * b.sectorsPerCluster
      && g.fatOffset + |table| <= g.rootFirst <= g.dataOffset <= |d|
      && d[g.fatOffset..g.fatOffset + |table|] == table && d[g.rootFirst..g.dataOffset] == root && d[g.dataOffset..] == data
  {
    var g, all := FatFile.GeometryOf(b), Copies(table, b.fatCopies);
    CopiesLength(table, b.fatCopies);
    var front := reserved + all;
    assert |reserved| == g.fatOffset && |front| == g.rootFirst && |front + root| == g.dataOffset;
    assert d[..g.rootFirst] == front;
    assert d[g.fatOffset..g.fatOffset + |table|] == front[g.fatOffset..g.fatOffset + |table|] == all[..|table|];
  }

  /** The boot sector of a FAT12 volume, with this loader's two words in front of the signature. */
  datatype BootSector = BootSector(jump: seq<byte>, name: seq<byte>, boot: FatFile.Boot, totalSectors: word, media: byte,
                                   sectorsPerTrack: word, heads: word, hidden: dword, totalBig: dword,
                                   ext: seq<byte>, code: seq<byte>, mapSector: word, stage2Addr: word)

  predicate BootSectorOk(s: BootSector) {
    && |s.jump| == 3 && |s.name| == 8 && |s.ext| == 26 && |s.code| == 444
    && s.boot.bytesPerSector < 0x1_0000 && s.boot.sectorsPerCluster < 0x100 && s.boot.reservedSectors < 0x1_0000
    && s.boot.fatCopies < 0x100 && s.boot.rootDirEntries < 0x1_0000 && s.boot.sectorsPerFat < 0x1_0000
  }

  /** Its fields up to the hidden and total sectors. */
  function FrontBytes(s: BootSector): (r: seq<byte>)
    requires BootSectorOk(s)
    ensures |r| == 36
  {
    s.jump + s.name + (Put16(s.boot.bytesPerSector) + [s.boot.sectorsPerCluster] + Put16(s.boot.reservedSectors)
      + [s.boot.fatCopies] + Put16(s.boot.rootDirEntries) + Put16(s.totalSectors) + [s.media] + Put16(s.boot.sectorsPerFat)
      + Put16(s.sectorsPerTrack) + Put16(s.heads) + Put32(s.hidden) + Put32(s.totalBig))
  }

  /** The sector, with its signature. */
  function BootBytes(s: BootSector): (r: seq<byte>)
    requires BootSectorOk(s)
    ensures |r| == 512
  {
    FrontBytes(s) + (s.ext + s.code) + (Put16(s.mapSector) + Put16(s.stage2Addr) + [0x55, 0xAA])
  }

  /** The word that round 2 writes and stage 1 reads is the one behind the boot code. */
  lemma MapSectorPlace(s: BootSector)
    requires BootSectorOk(s)
    ensures Le16(BootBytes(s), SectorMap.BOOT_FIELD) == s.mapSector
  {
    var tail := Put16(s.mapSector) + Put16(s.stage2Addr) + [0x55, 0xAA];
    assert BootBytes(s)[506..] == tail;
    assert BootBytes(s)[506] == tail[0] && BootBytes(s)[507] == tail[1];
    ReadBack16(s.mapSector);
  }

  // ---------------------------------------------------------------- directory entries

  /** The attribute byte, lowest bit first. */
  datatype Attr = Attr(readOnly: bool, hidden: bool, system: bool, volume: bool,
                       directory: bool, archive: bool, device: bool, reserved: bool)

  function Bit(b: bool, v: byte): byte { if b then v else 0 }

  function AttrByte(a: Attr): byte {
    Bit(a.readOnly, 0x01) + Bit(a.hidden, 0x02) + Bit(a.system, 0x04) + Bit(a.volume, 0x08)
      + Bit(a.directory, 0x10) + Bit(a.archive, 0x20) + Bit(a.device, 0x40) + Bit(a.reserved, 0x80)
  }

  /** A directory entry and its 32 bytes, after "FAT Directory Structure". */
  datatype Dirent = Dirent(name: seq<byte>, attr: Attr, vfat: seq<byte>, time: word, date: word, start: word, size: dword)

  predicate DirentOk(e: Dirent) { |e.name| == 11 && |e.vfat| == 10 }

  function Encode(e: Dirent): (r: seq<byte>)
    requires DirentOk(e)
    ensures |r| == 32
  {
    e.name + [AttrByte(e.attr)] + e.vfat + Put16(e.time) + Put16(e.date) + Put16(e.start) + Put32(e.size)
  }

  /** Labels, devices and reserved entries are never looked at. */
  predicate PassedOver(a: Attr) { a.volume || a.device || a.reserved }

  lemma AttrBits(a: Attr)
    ensures Hidden(AttrByte(a)) <==> PassedOver(a)
    ensures AttrByte(a) / 16 % 2 == 1 <==> a.directory
  {
  }

  lemma EncodeFields(e: Dirent, r: seq<byte>)
    requires DirentOk(e) && r == Encode(e)
    ensures r[..11] == e.name && r[11] == AttrByte(e.attr) && Le16(r, 26) == e.start && Le32(r, 28) == e.size
  {
    ReadBack16(e.start);
    ReadBack32(e.size);
    assert r[26..28] == Put16(e.start) && r[28..32] == Put32(e.size);
    assert r[26] == Put16(e.start)[0] && r[27] == Put16(e.start)[1];
    var s := Put32(e.size);
    assert r[28] == s[0] && r[29] == s[1] && r[30] == s[2] && r[31] == s[3];
  }

  /** What is made of an encoded entry: it is matched unless passed over, and gives start, size and kind. */
  lemma EntryRead(g: Geometry, block: seq<byte>, i: nat, e: Dirent, name: Name)
    requires DirentOk(e) && 32 * i + 32 <= |block| && block[32 * i..32 * i + 32] == Encode(e)
    ensures Matches(block, i, name) <==> Accepts(block[32 * i..], name) && !PassedOver(e.attr)
    ensures HandleOf(g, block, i) == Handle(g.dataOffset + (e.start - 2) * g.clusterSize, e.size, e.attr.directory)
  {
    var r := block[32 * i..32 * i + 32];
    EncodeFields(e, r);
    AttrBits(e.attr);
    assert block[32 * i + 11] == r[11];
  }

  // ---------------------------------------------------------------- the root directory

  /** The root directory is contiguous, and ends where the data area starts. */
  lemma {:induction false} RootChain(d: Disk, g: Geometry, last: nat, k: nat)
    requires DiskOk(d, g) && g.rootFirst < g.dataOffset && last <= LAST_LOADER
    ensures ClusterOk(g, g.rootFirst)
    ensures Nth(d, g, last, g.rootFirst, k)
      == if g.rootFirst + k * g.clusterSize < g.dataOffset then g.rootFirst + k * g.clusterSize else 0
  {
    if k == 0 {
    } else {
      RootChain(d, g, last, k - 1);
      MulStep(k - 1, g.clusterSize);
    }
  }

  /** The 32 bytes at p, and what follows them up to end, accept the name and are no label, device or reserved entry. */
  predicate EntryAt(d: Disk, p: nat, end: nat, name: Name)
    requires p + 32 <= end <= |d|
  {
    Accepts(d[p..end], name) && d[p + 11] / 8 % 2 == 0 && d[p + 11] / 64 % 2 == 0 && d[p + 11] < 128
  }

  /** The handle that the 32 bytes at p stand for. */
  function HandleAt(d: Disk, g: Geometry, p: nat): Handle
    requires p + 32 <= |d|
  {
    Handle(g.dataOffset + (Le16(d, p + 26) - 2) * g.clusterSize, Le32(d, p + 28), d[p + 11] / 16 % 2 == 1)
  }

  /** Entry i of the root directory; the comparison can read on to the end of its cluster. */
  predicate RootMatch(d: Disk, g: Geometry, i: nat, name: Name)
    requires g.clusterSize > 0 && EntryFits(d, g, i)
  {
    EntryAt(d, g.rootFirst + 32 * i, EntryEnd(g, i), name)
  }

  /** Where the cluster with entry i of the root directory ends. */
  function EntryEnd(g: Geometry, i: nat): nat
    requires g.clusterSize > 0
  {
    g.rootFirst + 32 * i + (g.clusterSize - 32 * i % g.clusterSize)
  }

  predicate EntryFits(d: Disk, g: Geometry, i: nat)
    requires g.clusterSize > 0
  {
    g.rootFirst + 32 * i + 32 <= EntryEnd(g, i) <= |d|
  }

  /** The root directory has `clusters` clusters of `per` entries, and lies on the disk. */
  predicate RootOk(d: Disk, g: Geometry, clusters: nat, per: nat) {
    && DiskOk(d, g) && g.clusterSize == 32 * per && clusters > 0
    && g.dataOffset == g.rootFirst + clusters * g.clusterSize && g.dataOffset <= |d|
  }

  lemma RootCluster(d: Disk, g: Geometry, clusters: nat, per: nat, k: nat)
    requires RootOk(d, g, clusters, per)
    ensures g.rootFirst < g.dataOffset && ClusterOk(g, g.rootFirst)
    ensures k < clusters ==> g.rootFirst + k * g.clusterSize + g.clusterSize <= g.dataOffset
    ensures k < clusters ==> Nth(d, g, LAST_LOADER, g.rootFirst, k) == g.rootFirst + k * g.clusterSize
    ensures k >= clusters ==> Nth(d, g, LAST_LOADER, g.rootFirst, k) == 0
    ensures FatFile.Has(d, g, g.rootFirst, k) <==> k < clusters
  {
    MulMonotone(0, clusters, g.clusterSize);
    if k < clusters {
      MulMonotone(k, clusters, g.clusterSize);
    } else {
      MulMonotone(clusters, k, g.clusterSize);
    }
    RootChain(d, g, LAST_LOADER, k);
  }

  lemma RootLength(d: Disk, g: Geometry, clusters: nat, per: nat)
    requires RootOk(d, g, clusters, per)
    ensures ClusterOk(g, g.rootFirst) && Length(d, g, g.rootFirst, clusters) && DirOk(d, g, RootHandle(g))
  {
    RootCluster(d, g, clusters, per, clusters);
    forall k | 0 <= k < clusters
      ensures FatFile.Has(d, g, g.rootFirst, k)
    {
      RootCluster(d, g, clusters, per, k);
    }
  }

  /** The number of entry j of cluster k. */
  function EntryNo(per: nat, k: nat, j: nat): nat { k * per + j }

  /** Where entry j of cluster k of the root directory is. */
  lemma EntryPlace(d: Disk, g: Geometry, clusters: nat, per: nat, k: nat, j: nat)
    requires RootOk(d, g, clusters, per) && k < clusters && j < per
    ensures var i := EntryNo(per, k, j);
      32 * i == k * g.clusterSize + 32 * j && 32 * i % g.clusterSize == 32 * j && EntryFits(d, g, i)
  {
    RootCluster(d, g, clusters, per, k);
    InCluster32(per, k, j, g.clusterSize, k * g.clusterSize);
  }

  lemma InCluster32(per: nat, k: nat, j: nat, cs: nat, at: nat)
    requires cs == 32 * per && j < per && at == k * cs
    ensures 32 * EntryNo(per, k, j) == at + 32 * j && (at + 32 * j) % cs == 32 * j
  {
    Times32(k, per);
    DivModUnique(at + 32 * j, k, cs, 32 * j);
  }

  lemma Times32(k: nat, per: nat)
    ensures k * (32 * per) == 32 * (k * per)
  {
  }

  lemma EntryIs(d: Disk, g: Geometry, clusters: nat, per: nat, k: nat, j: nat, name: Name)
    requires RootOk(d, g, clusters, per) && k < clusters && j < per
    ensures ClusterOk(g, g.rootFirst) && FatFile.Has(d, g, g.rootFirst, k) && EntryFits(d, g, EntryNo(per, k, j))
    ensures EntryMatches(d, g, g.rootFirst, k, j, name) <==> RootMatch(d, g, EntryNo(per, k, j), name)
  {
    RootCluster(d, g, clusters, per, k);
    EntryPlace(d, g, clusters, per, k, j);
    BlockMatch(d, g, g.rootFirst + k * g.clusterSize, j, DirBlock(d, g, g.rootFirst, k), name);
    assert g.clusterSize / DIRENT == per;
  }

  lemma EntryHandle(d: Disk, g: Geometry, clusters: nat, per: nat, k: nat, j: nat)
    requires RootOk(d, g, clusters, per) && k < clusters && j < per
    ensures ClusterOk(g, g.rootFirst) && FatFile.Has(d, g, g.rootFirst, k) && EntryFits(d, g, EntryNo(per, k, j))
    ensures HandleOf(g, DirBlock(d, g, g.rootFirst, k), j) == HandleAt(d, g, g.rootFirst + 32 * EntryNo(per, k, j))
  {
    RootCluster(d, g, clusters, per, k);
    EntryPlace(d, g, clusters, per, k, j);
    BlockHandle(d, g, g.rootFirst + k * g.clusterSize, j, DirBlock(d, g, g.rootFirst, k));
  }

  /** Entry j of a cluster-sized block of the disk. */
  lemma BlockHandle(d: Disk, g: Geometry, n: nat, j: nat, block: seq<byte>)
    requires n + g.clusterSize <= |d| && block == d[n..n + g.clusterSize] && 32 * j + 32 <= g.clusterSize
    ensures HandleOf(g, block, j) == HandleAt(d, g, n + 32 * j)
  {
    var p := n + 32 * j;
    var e := block[32 * j..32 * j + 32];
    assert e[11] == d[p + 11] && e[26] == d[p + 26] && e[27] == d[p + 27];
    assert e[28] == d[p + 28] && e[29] == d[p + 29] && e[30] == d[p + 30] && e[31] == d[p + 31];
  }

  lemma BlockMatch(d: Disk, g: Geometry, n: nat, j: nat, block: seq<byte>, name: Name)
    requires n + g.clusterSize <= |d| && block == d[n..n + g.clusterSize] && 32 * j + 32 <= g.clusterSize
    ensures Matches(block, j, name) <==> EntryAt(d, n + 32 * j, n + g.clusterSize, name)
  {
    assert block[32 * j..] == d[n + 32 * j..n + g.clusterSize];
    assert block[32 * j + 11] == d[n + 32 * j + 11];
  }

  /**
    A lookup in the root directory goes through all of its n 32-byte entries in order and takes the first that
    accepts the name and is no label, device or reserved entry; i is n if there is none.
  */
  lemma RootFind(d: Disk, g: Geometry, clusters: nat, per: nat, n: nat, name: Name) returns (i: nat)
    requires RootOk(d, g, clusters, per) && n == EntryNo(per, clusters, 0) && name != CURRENT
    ensures DirOk(d, g, RootHandle(g)) && i <= n && g.rootFirst + 32 * n == g.dataOffset
    ensures forall x :: 0 <= x < i ==> EntryFits(d, g, x) && !RootMatch(d, g, x, name)
    ensures if i == n then Find(d, g, RootHandle(g), name) == None
            else EntryFits(d, g, i) && RootMatch(d, g, i, name)
                 && Find(d, g, RootHandle(g), name) == Some(HandleAt(d, g, g.rootFirst + 32 * i))
  {
    RootLength(d, g, clusters, per);
    LengthUnique(d, g, g.rootFirst, DirLength(d, g, RootHandle(g)), clusters);
    Times32(clusters, per);
    var m, j := FindFromFirst(d, g, g.rootFirst, name, 0, clusters);
    j := if m == clusters then 0 else j;
    i := EntryNo(per, m, j);
    NoneAmong(d, g, clusters, per, m, j, name);
    if m < clusters {
      EntryIs(d, g, clusters, per, m, j, name);
      EntryHandle(d, g, clusters, per, m, j);
      MulMonotone(m, clusters, per);
    }
  }

  lemma NoneAmong(d: Disk, g: Geometry, clusters: nat, per: nat, m: nat, j: nat, name: Name)
    requires RootOk(d, g, clusters, per) && m <= clusters && j < per && (m == clusters ==> j == 0)
    requires ClusterOk(g, g.rootFirst) && NoneBefore(d, g, g.rootFirst, name, 0, m, j)
    ensures forall x :: 0 <= x < EntryNo(per, m, j) ==> EntryFits(d, g, x) && !RootMatch(d, g, x, name)
  {
    forall x | 0 <= x < EntryNo(per, m, j)
      ensures EntryFits(d, g, x) && !RootMatch(d, g, x, name)
    {
      var k', j' := Split(x, per, m, j);
      EntryIs(d, g, clusters, per, k', j', name);
    }
  }

  /** The place of entry x among clusters of per entries, when it is before entry j of cluster m. */
  lemma Split(x: nat, per: nat, m: nat, j: nat) returns (k: nat, r: nat)
    requires per > 0 && x < EntryNo(per, m, j) && j < per
    ensures x == EntryNo(per, k, r) && r < per && (k < m || (k == m && r < j))
  {
    k, r := x / per, x % per;
    DivModId(x, per);
    if k > m {
      MulMonotone(m, k, per);
    }
  }

  lemma LengthUnique(d: Disk, g: Geometry, c: nat, a: nat, b: nat)
    requires DiskOk(d, g) && ClusterOk(g, c) && Length(d, g, c, a) && Length(d, g, c, b)
    ensures a == b
  {
  }

  /** A path that starts with a separator is walked from the root directory, any other from the one given. */
  lemma WhereItStarts(d: Disk, g: Geometry, dir: Handle, cs: seq<Name>)
    requires DiskOk(d, g) && cs != [] && forall i :: 0 <= i < |cs| ==> Component(cs[i])
    ensures DescendOk(d, g, RootHandle(g), cs) ==>
      && WalkOk(d, g, StartDir(g, Some(dir), [47] + Join(cs)), Relative([47] + Join(cs)))
      && FindFileSpec(d, g, Some(dir), [47] + Join(cs))
         == match Descend(d, g, RootHandle(g), cs) case Some(h) => Found(h) case None => NotFound
    ensures DescendOk(d, g, dir, cs) ==>
      && WalkOk(d, g, StartDir(g, Some(dir), Join(cs)), Relative(Join(cs)))
      && FindFileSpec(d, g, Some(dir), Join(cs))
         == match Descend(d, g, dir, cs) case Some(h) => Found(h) case None => NotFound
  {
    var path := Join(cs);
    assert Component(cs[0]);
    assert path != [] && path[0] == cs[0][0];
    assert cs[0][0] in cs[0];
    assert ([47] + path)[1..] == path;
    WalkIsDescend(d, g, RootHandle(g), cs, path);
    WalkIsDescend(d, g, dir, cs, path);
  }

  // ---------------------------------------------------------------- a file as it is stored

  /** Entry i of the root directory is e. */
  predicate RootHolds(d: Disk, g: Geometry, i: nat, e: Dirent)
    requires g.clusterSize > 0 && EntryFits(d, g, i) && DirentOk(e)
  {
    d[g.rootFirst + 32 * i..g.rootFirst + 32 * i + 32] == Encode(e)
  }

  lemma HoldsIs(d: Disk, g: Geometry, p: nat, end: nat, e: Dirent, name: Name)
    requires p + 32 <= end <= |d| && DirentOk(e) && d[p..p + 32] == Encode(e)
    ensures HandleAt(d, g, p) == Handle(g.dataOffset + (e.start - 2) * g.clusterSize, e.size, e.attr.directory)
    ensures EntryAt(d, p, end, name) <==> Accepts(d[p..end], name) && !PassedOver(e.attr)
  {
    var r := d[p..p + 32];
    EncodeFields(e, r);
    AttrBits(e.attr);
    assert r[11] == d[p + 11] && r[26] == d[p + 26] && r[27] == d[p + 27];
    assert r[28] == d[p + 28] && r[29] == d[p + 29] && r[30] == d[p + 30] && r[31] == d[p + 31];
  }

  lemma StoredMatches(d: Disk, g: Geometry, i: nat, e: Dirent, base: seq<byte>, ext: seq<byte>)
    requires g.clusterSize > 0 && EntryFits(d, g, i) && DirentOk(e) && RootHolds(d, g, i, e)
    requires Is83(base, ext) && e.name == Padded(base, ext)
    ensures RootMatch(d, g, i, Dotted(base, ext)) <==> !PassedOver(e.attr)
  {
    var p := g.rootFirst + 32 * i;
    var end := EntryEnd(g, i);
    HoldsIs(d, g, p, end, e, Dotted(base, ext));
    EncodeFields(e, Encode(e));
    assert d[p..p + 11] == Encode(e)[..11];
    assert d[p..end] == Padded(base, ext) + d[p + 11..end];
    PaddedAccepted(base, ext, d[p + 11..end]);
  }

  lemma NotCurrent(base: seq<byte>, ext: seq<byte>)
    requires Is83(base, ext)
    ensures Dotted(base, ext) != CURRENT
  {
    assert Dotted(base, ext)[0] == base[0] != DOT;
  }

  /** For instance "KERNEL.BIN", by its entry "KERNEL  BIN", and "." by the directory itself. */
  lemma KernelBin(tail: seq<byte>)
    ensures Accepts([75, 69, 82, 78, 69, 76, 32, 32, 66, 73, 78] + tail, [75, 69, 82, 78, 69, 76, 46, 66, 73, 78])
  {
    var base: seq<byte>, ext: seq<byte> := [75, 69, 82, 78, 69, 76], [66, 73, 78];
    assert Padded(base, ext) == [75, 69, 82, 78, 69, 76, 32, 32, 66, 73, 78];
    assert Dotted(base, ext) == [75, 69, 82, 78, 69, 76, 46, 66, 73, 78];
    PaddedAccepted(base, ext, tail);
  }

  lemma ThisDirectory(d: Disk, g: Geometry, dir: Handle)
    requires DiskOk(d, g) && DirOk(d, g, dir)
    ensures Find(d, g, dir, [46]) == Some(dir)
  {
  }

  /** Entry i of the root directory is e, under this 8.3 name, which no entry before it matches. */
  ghost predicate FirstNamed(d: Disk, g: Geometry, clusters: nat, per: nat, i: nat, e: Dirent, base: seq<byte>, ext: seq<byte>)
    requires RootOk(d, g, clusters, per)
  {
    && i < EntryNo(per, clusters, 0) && EntryFits(d, g, i) && DirentOk(e) && RootHolds(d, g, i, e)
    && Is83(base, ext) && e.name == Padded(base, ext) && !PassedOver(e.attr)
    && forall x :: 0 <= x < i && EntryFits(d, g, x) ==> !RootMatch(d, g, x, Dotted(base, ext))
  }

  /** A stored 8.3 entry that nothing before it matches is found, with its start cluster, size and kind. */
  lemma StoredIsFound(d: Disk, g: Geometry, clusters: nat, per: nat, i: nat, e: Dirent, base: seq<byte>, ext: seq<byte>)
    requires RootOk(d, g, clusters, per) && FirstNamed(d, g, clusters, per, i, e, base, ext)
    ensures DirOk(d, g, RootHandle(g))
    ensures Find(d, g, RootHandle(g), Dotted(base, ext))
         == Some(Handle(g.dataOffset + (e.start - 2) * g.clusterSize, e.size, e.attr.directory))
  {
    var name := Dotted(base, ext);
    NotCurrent(base, ext);
    StoredMatches(d, g, i, e, base, ext);
    var k := RootFind(d, g, clusters, per, EntryNo(per, clusters, 0), name);
    assert k == i;
    HoldsIs(d, g, g.rootFirst + 32 * i, EntryEnd(g, i), e, name);
  }

  /** The packed table links these cluster numbers, in order, and ends the chain behind the last. */
  predicate Linked(entries: seq<nat>, ns: seq<nat>) {
    && ns != []
    && (forall k :: 0 <= k < |ns| ==> 2 <= ns[k] <= LAST_LOADER && ns[k] < |entries|)
    && (forall k :: 0 <= k < |ns| - 1 ==> entries[ns[k]] == ns[k + 1])
    && entries[ns[|ns| - 1]] > LAST_LOADER
  }

  /** Where data cluster n is. */
  function DataAt(g: Geometry, n: nat): (r: nat)
    requires n >= 2
    ensures r >= g.dataOffset
  {
    g.dataOffset + (n - 2) * g.clusterSize
  }

  /** The successor of a data cluster is the one its table entry names. */
  lemma DataNext(d: Disk, g: Geometry, entries: seq<nat>, last: nat, n: nat)
    requires DiskOk(d, g) && HoldsTable(d, g.fatOffset, entries) && 2 <= n <= LAST_LOADER && n < |entries|
    requires last <= LAST_LOADER
    ensures ClusterOk(g, DataAt(g, n))
    ensures Next(d, g, last, DataAt(g, n)) == if 2 <= entries[n] <= last then DataAt(g, entries[n]) else 0
  {
    NumAt(g, n);
    assert DataAt(g, n) == ClusterAt(g, n);
    EntryOfPack(d, g, entries, n);
  }

  lemma {:induction false} ChainOfTable(d: Disk, g: Geometry, entries: seq<nat>, ns: seq<nat>, k: nat)
    requires DiskOk(d, g) && HoldsTable(d, g.fatOffset, entries) && Linked(entries, ns) && k <= |ns|
    ensures ClusterOk(g, DataAt(g, ns[0]))
    ensures Nth(d, g, LAST_LOADER, DataAt(g, ns[0]), k) == if k < |ns| then DataAt(g, ns[k]) else 0
  {
    DataNext(d, g, entries, LAST_LOADER, ns[0]);
    if k == 0 {
    } else {
      ChainOfTable(d, g, entries, ns, k - 1);
      DataNext(d, g, entries, LAST_LOADER, ns[k - 1]);
    }
  }

  /** Byte o of cluster k of a file with these clusters is b. */
  predicate ByteIn(d: Disk, g: Geometry, ns: seq<nat>, k: nat, o: nat, b: byte) {
    k < |ns| && 2 <= ns[k] && o < g.clusterSize && DataAt(g, ns[k]) + g.clusterSize <= |d| && d[DataAt(g, ns[k]) + o] == b
  }

  /** A file that is stored in a chain of the table, its bytes in order and its clusters on the disk. */
  ghost predicate FileStored(d: Disk, g: Geometry, entries: seq<nat>, ns: seq<nat>, content: seq<byte>) {
    && DiskOk(d, g) && HoldsTable(d, g.fatOffset, entries) && Linked(entries, ns)
    && (forall k :: 0 <= k < |ns| ==> DataAt(g, ns[k]) + g.clusterSize <= |d|)
    && forall x :: 0 <= x < |content| ==> ByteIn(d, g, ns, Quot(x, g.clusterSize), Rem(x, g.clusterSize), content[x])
  }

  function Quot(x: nat, m: nat): nat
    requires m > 0
  {
    x / m
  }

  function Rem(x: nat, m: nat): nat
    requires m > 0
  {
    x % m
  }

  lemma StoredHas(d: Disk, g: Geometry, entries: seq<nat>, ns: seq<nat>, content: seq<byte>, k: nat)
    requires FileStored(d, g, entries, ns, content) && k < |ns|
    ensures ClusterOk(g, DataAt(g, ns[0])) && FatFile.Has(d, g, DataAt(g, ns[0]), k)
    ensures Nth(d, g, LAST_LOADER, DataAt(g, ns[0]), k) == DataAt(g, ns[k])
  {
    ChainOfTable(d, g, entries, ns, k);
  }

  lemma StoredByte(d: Disk, g: Geometry, entries: seq<nat>, ns: seq<nat>, content: seq<byte>, x: nat, b: byte)
    requires FileStored(d, g, entries, ns, content) && x < |content|
    ensures ClusterOk(g, DataAt(g, ns[0])) && Quot(x, g.clusterSize) < |ns|
    ensures FatFile.IsByte(d, g, DataAt(g, ns[0]), x, b) <==> b == content[x]
  {
    var k, o := Quot(x, g.clusterSize), Rem(x, g.clusterSize);
    assert ByteIn(d, g, ns, k, o, content[x]);
    StoredHas(d, g, entries, ns, content, k);
    assert FatFile.IsByte(d, g, DataAt(g, ns[0]), x, b) == FatFile.ByteAt(d, g, DataAt(g, ns[0]), k, o, b);
  }

  lemma StoredReaches(d: Disk, g: Geometry, entries: seq<nat>, ns: seq<nat>, content: seq<byte>, x: nat, last: nat)
    requires FileStored(d, g, entries, ns, content) && x < |content| && last == Quot(x, g.clusterSize)
    ensures ClusterOk(g, DataAt(g, ns[0])) && forall k :: 0 <= k <= last ==> FatFile.Has(d, g, DataAt(g, ns[0]), k)
  {
    StoredByte(d, g, entries, ns, content, x, content[x]);
    forall k | 0 <= k <= last
      ensures FatFile.Has(d, g, DataAt(g, ns[0]), k)
    {
      StoredHas(d, g, entries, ns, content, k);
    }
  }

  /** Reading it from its first cluster, straight and within its length, gives its content. */
  lemma StoredIsRead(d: Disk, g: Geometry, entries: seq<nat>, ns: seq<nat>, content: seq<byte>,
                     buf: seq<byte>, sz: nat, off: nat)
    requires FileStored(d, g, entries, ns, content) && 0 < sz <= |buf| && off + sz <= |content|
    requires FatFile.Straight(g.clusterSize, sz, off)
    ensures ClusterOk(g, DataAt(g, ns[0]))
    ensures FatFile.Read(d, g, buf, DataAt(g, ns[0]), sz, off) == Some(Write(buf, 0, content[off..off + sz]))
  {
    var first := DataAt(g, ns[0]);
    var last := Quot(off + sz - 1, g.clusterSize);
    StoredReaches(d, g, entries, ns, content, off + sz - 1, last);
    FatFile.ReadWithin(d, g, buf, first, sz, off, last);
    StoredDelivered(d, g, entries, ns, content, buf, FatFile.Read(d, g, buf, first, sz, off).value, sz, off);
  }

  lemma StoredDelivered(d: Disk, g: Geometry, entries: seq<nat>, ns: seq<nat>, content: seq<byte>,
                        buf: seq<byte>, r: seq<byte>, sz: nat, off: nat)
    requires FileStored(d, g, entries, ns, content) && sz <= |buf| && off + sz <= |content|
    requires ClusterOk(g, DataAt(g, ns[0])) && FatFile.Delivers(d, g, DataAt(g, ns[0]), buf, r, sz, 0, off)
    ensures r == Write(buf, 0, content[off..off + sz])
  {
    forall i | 0 <= i < sz
      ensures r[i] == content[off + i]
    {
      assert FatFile.IsByte(d, g, DataAt(g, ns[0]), off + i - 0, r[i]);
      StoredByte(d, g, entries, ns, content, off + i, r[i]);
    }
    IsWritten(buf, r, content[off..off + sz]);
  }

  lemma IsWritten(buf: seq<byte>, r: seq<byte>, s: seq<byte>)
    requires |r| == |buf| && |s| <= |buf| && (forall i :: 0 <= i < |s| ==> r[i] == s[i])
    requires forall i :: |s| <= i < |buf| ==> r[i] == buf[i]
    ensures r == Write(buf, 0, s)
  {
  }

  /**
    A file stored in the root directory as the specification says is found by its name, with its size, and
    reading it through the handle found gives back what was stored.
  */
  lemma StoredIsFoundAndRead(d: Disk, g: Geometry, clusters: nat, per: nat, i: nat, e: Dirent, base: seq<byte>, ext: seq<byte>,
                             entries: seq<nat>, ns: seq<nat>, content: seq<byte>, buf: seq<byte>, sz: nat, off: nat)
    returns (h: Handle)
    requires RootOk(d, g, clusters, per) && FirstNamed(d, g, clusters, per, i, e, base, ext)
    requires FileStored(d, g, entries, ns, content) && e.start == ns[0] && e.size == |content|
    requires 0 < sz <= |buf| && off + sz <= |content| && FatFile.Straight(g.clusterSize, sz, off)
    ensures DirOk(d, g, RootHandle(g)) && Find(d, g, RootHandle(g), Dotted(base, ext)) == Some(h)
    ensures h.size == |content| && h.isDir == e.attr.directory && 0 <= h.first && ClusterOk(g, h.first)
    ensures FatFile.Read(d, g, buf, h.first, sz, off) == Some(Write(buf, 0, content[off..off + sz]))
  {
    StoredIsFound(d, g, clusters, per, i, e, base, ext);
    h := Handle(g.dataOffset + (e.start - 2) * g.clusterSize, e.size, e.attr.directory);
    assert h.first == DataAt(g, ns[0]);
    StoredIsRead(d, g, entries, ns, content, buf, sz, off);
  }
}
