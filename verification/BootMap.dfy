/**
  End to end: the host tool lists a file's clusters from the FAT (tools/sector_mapper/src/fat.c),
  maps stage 2, links the map file on the image, and stage 1 walks the result.
*/
module BootMap {
  import opened Wrappers
  import opened Bytes
  import opened Arith
  import opened Fat12
  import opened SectorMap
  import opened SectorWalk
  import MapBytes

  // ---------------------------------------------------------------- a file's clusters

  /** _get_next_cluster of the tool. */
  function ToolNext(d: Disk, g: Geometry, c: nat): nat
    requires DiskOk(d, g) && ClusterOk(g, c)
  {
    if c < g.dataOffset then
      if c + g.clusterSize < g.dataOffset then c + g.clusterSize else 0
    else
      var e := ToolEntry(d, g, ClusterNum(g, c));
      if 2 <= e < 0xff0 then ClusterAt(g, e) else 0
  }

  lemma ToolNextIsNext(d: Disk, g: Geometry, c: nat)
    requires DiskOk(d, g) && ClusterOk(g, c)
    ensures ToolNext(d, g, c) == Next(d, g, LAST_TOOL, c)
  {
    if c >= g.dataOffset {
      ToolEntryIsEntry(d, g, ClusterNum(g, c));
    }
  }

  /** The first n clusters of the chain from first; None when the chain is shorter. */
  function ClusterList(d: Disk, g: Geometry, first: nat, n: nat): (r: Option<seq<nat>>)
    requires DiskOk(d, g) && ClusterOk(g, first)
    ensures r.Some? ==> |r.value| == n
  {
    if n == 0 then Some([])
    else
      var l := ClusterList(d, g, first, n - 1);
      var c := Nth(d, g, LAST_TOOL, first, n - 1);
      if l.None? || c == 0 then None else Some(l.value + [c])
  }

  /** The number of clusters a file of this size has. */
  function ClusterCount(g: Geometry, size: nat): nat
    requires g.clusterSize > 0
  {
    size / g.clusterSize + (if size % g.clusterSize != 0 then 1 else 0)
  }

  /** The file's clusters in order: element k is the k-th cluster of the chain. */
  lemma {:induction false} ListIsChain(d: Disk, g: Geometry, first: nat, n: nat, k: nat)
    requires DiskOk(d, g) && ClusterOk(g, first) && k < n && ClusterList(d, g, first, n).Some?
    ensures ClusterList(d, g, first, n).value[k] == Nth(d, g, LAST_TOOL, first, k) != 0
  {
    if k >= n - 1 {
    } else {
      ListIsChain(d, g, first, n - 1, k);
    }
  }

  /** The chain has a k-th cluster. */
  predicate Reaches(d: Disk, g: Geometry, first: nat, k: nat)
    requires DiskOk(d, g) && ClusterOk(g, first)
  {
    Nth(d, g, LAST_TOOL, first, k) != 0
  }

  /** There is a list exactly when the chain has that many clusters. */
  lemma {:induction false} ChainHasList(d: Disk, g: Geometry, first: nat, n: nat)
    requires DiskOk(d, g) && ClusterOk(g, first)
    ensures ClusterList(d, g, first, n).Some? <==> forall k :: 0 <= k < n ==> Reaches(d, g, first, k)
  {
    if n == 0 {
    } else {
      ChainHasList(d, g, first, n - 1);
      assert Reaches(d, g, first, n - 1) == (Nth(d, g, LAST_TOOL, first, n - 1) != 0);
    }
  }

  lemma CountAt(n: nat, q: nat, r: nat, cs: nat, size: nat)
    requires cs > 0 && r < cs && size == q * cs + r
    ensures n * cs < size <==> n < q || (n == q && r > 0)
  {
    if n <= q {
      MulMonotone(n, q, cs);
    } else {
      MulMonotone(q, n, cs);
    }
  }

  lemma CountStep(g: Geometry, size: nat, n: nat)
    requires g.clusterSize > 0
    ensures n * g.clusterSize < size <==> n < ClusterCount(g, size)
  {
    DivModId(size, g.clusterSize);
    CountAt(n, size / g.clusterSize, size % g.clusterSize, g.clusterSize, size);
  }

  /** fat_get_file_clusters */
  method GetFileClusters(d: Disk, g: Geometry, first: nat, size: nat) returns (r: Option<seq<nat>>)
    requires DiskOk(d, g) && ClusterOk(g, first)
    ensures r == ClusterList(d, g, first, ClusterCount(g, size))
  {
    var list: seq<nat>, pos: nat, clust: nat := [], 0, first;
    ghost var n := 0;
    assert 0 * g.clusterSize == 0;
    CountStep(g, size, 0);
    while pos < size
      invariant 0 <= n <= ClusterCount(g, size) && pos == n * g.clusterSize
      invariant pos < size <==> n < ClusterCount(g, size)
      invariant ClusterList(d, g, first, n) == Some(list) && clust == Nth(d, g, LAST_TOOL, first, n)
      decreases ClusterCount(g, size) - n
    {
      if clust == 0 {
        NoList(d, g, first, n + 1, ClusterCount(g, size));
        return None;
      }
      list := list + [clust];
      pos := pos + g.clusterSize;
      ToolNextIsNext(d, g, clust);
      clust := ToolNext(d, g, clust);
      MulStep(n, g.clusterSize);
      CountStep(g, size, n + 1);
      n := n + 1;
    }
    return Some(list);
  }

  lemma {:induction false} NoList(d: Disk, g: Geometry, first: nat, n: nat, m: nat)
    requires DiskOk(d, g) && ClusterOk(g, first) && n <= m && ClusterList(d, g, first, n).None?
    ensures ClusterList(d, g, first, m).None?
  {
    if n >= m {
    } else {
      NoList(d, g, first, n, m - 1);
    }
  }

  // ---------------------------------------------------------------- from the linked map to the walk

  lemma {:induction false} ExtentsStorable(cl: seq<nat>)
    requires |cl| < 0x1_0000 && forall i :: 0 <= i < |cl| ==> 0 < SectorOf(cl[i]) < 0x1_0000
    ensures Storable(Extents(cl))
    ensures forall k :: 0 <= k < |Extents(cl)| ==> Extents(cl)[k].count <= |cl|
  {
    if |cl| <= 1 {
    } else {
      ExtentsStorable(cl[..|cl| - 1]);
    }
  }

  /** The map clusters decode to the chunks of the map, their link fields zero. */
  ghost predicate MapFile(img: Disk, mc: seq<nat>, es: seq<Extent>)
    requires MapClusters(img, mc)
  {
    forall c :: 0 <= c < |mc| ==>
      ChunkHolds(img[mc[c]..mc[c] + SECTOR], es, c) && Le16(img, mc[c] + NEXT_FIELD) == 0
  }

  lemma ChunkBytesKept(img: Disk, mc: seq<nat>, c: nat, x: nat)
    requires MapClusters(img, mc) && c < |mc| && x < NEXT_FIELD
    ensures LinkUpTo(img, mc, |mc|)[mc[c] + x] == img[mc[c] + x]
  {
    forall i | 0 <= i < |mc| ensures !(FieldOf(mc, i) <= mc[c] + x < FieldOf(mc, i) + 2) {
      if i > 0 {
        if mc[c] < mc[i - 1] {
          MultiplesApart(mc[c], mc[i - 1], SECTOR);
        } else if mc[i - 1] < mc[c] {
          MultiplesApart(mc[i - 1], mc[c], SECTOR);
        }
      }
    }
    LinkOther(img, mc, |mc|, mc[c] + x);
  }

  lemma LinkValue(img: Disk, mc: seq<nat>, c: nat)
    requires MapClusters(img, mc) && c < |mc| && Le16(img, mc[c] + NEXT_FIELD) == 0
    ensures Le16(LinkUpTo(img, mc, |mc|), mc[c] + NEXT_FIELD) == if c + 1 < |mc| then SectorOf(mc[c + 1]) else 0
  {
    if c + 1 < |mc| {
      LinkField(img, mc, |mc|, c + 1);
    } else {
      forall i | 0 <= i < |mc| ensures FieldOf(mc, i) + 2 <= FieldOf(mc, c + 1) || FieldOf(mc, c + 1) + 2 <= FieldOf(mc, i) {
        FieldsApart(img, mc, i, c + 1);
      }
      LinkOther(img, mc, |mc|, mc[c] + NEXT_FIELD);
      LinkOther(img, mc, |mc|, mc[c] + NEXT_FIELD + 1);
    }
  }

  lemma ChunkHoldsKept(a: seq<byte>, b: seq<byte>, es: seq<Extent>, c: nat)
    requires ChunkHolds(a, es, c) && |b| == SECTOR && forall x :: 0 <= x < NEXT_FIELD ==> a[x] == b[x]
    ensures ChunkHolds(b, es, c)
  {
    forall j | 0 <= j < PER_CHUNK ensures EntryAt(b, j) == SlotOf(es, PER_CHUNK * c + j) {
      assert EntryAt(a, j) == SlotOf(es, PER_CHUNK * c + j);
    }
  }

  lemma WordOfSlice(img: Disk, at: nat, x: nat)
    requires at + SECTOR <= |img| && x + 2 <= SECTOR
    ensures Le16(img[at..at + SECTOR], x) == Le16(img, at + x)
  {
  }

  lemma LinkedChunk(img: Disk, img': Disk, mc: seq<nat>, es: seq<Extent>, c: nat)
    requires MapClusters(img, mc) && MapFile(img, mc, es) && img' == LinkUpTo(img, mc, |mc|) && c < |mc|
    ensures ChunkHolds(img'[mc[c]..mc[c] + SECTOR], es, c)
    ensures Le16(img'[mc[c]..mc[c] + SECTOR], NEXT_FIELD) == if c + 1 < |mc| then SectorOf(mc[c + 1]) else 0
  {
    var a, b := img[mc[c]..mc[c] + SECTOR], img'[mc[c]..mc[c] + SECTOR];
    forall x | 0 <= x < NEXT_FIELD ensures a[x] == b[x] {
      ChunkBytesKept(img, mc, c, x);
    }
    ChunkHoldsKept(a, b, es, c);
    LinkValue(img, mc, c);
    WordOfSlice(img', mc[c], NEXT_FIELD);
  }

  lemma ChunkIsLinked(img': Disk, ss: seq<nat>, es: seq<Extent>, c: nat, at: nat)
    requires c < |ss| && 0 < ss[c] < 0x1_0000 && at == SECTOR * ss[c] && at + SECTOR <= |img'|
    requires ChunkHolds(img'[at..at + SECTOR], es, c)
    requires Le16(img'[at..at + SECTOR], NEXT_FIELD) == if c + 1 < |ss| then ss[c + 1] else 0
    ensures LinkedOne(img', ss, es, c)
  {
    assert SectorAt(img', ss[c]) == img'[at..at + SECTOR];
  }

  /** Linking a map file makes its chunks a list in order. */
  lemma LinkingLinks(img: Disk, mc: seq<nat>, es: seq<Extent>)
    requires MapClusters(img, mc) && MapFile(img, mc, es)
    ensures Linked(LinkUpTo(img, mc, |mc|), Sectors(mc), es)
  {
    forall c | 0 <= c < |Sectors(mc)| ensures LinkedOne(LinkUpTo(img, mc, |mc|), Sectors(mc), es, c) {
      LinkedAfter(img, LinkUpTo(img, mc, |mc|), mc, es, c);
    }
  }

  lemma LinkedAfter(img: Disk, img': Disk, mc: seq<nat>, es: seq<Extent>, c: nat)
    requires MapClusters(img, mc) && MapFile(img, mc, es) && img' == LinkUpTo(img, mc, |mc|) && c < |mc|
    ensures LinkedOne(img', Sectors(mc), es, c)
  {
    LinkedChunk(img, img', mc, es, c);
    MapSectors(img, mc, c);
    ChunkIsLinked(img', Sectors(mc), es, c, mc[c]);
  }

  lemma MapSectors(img: Disk, mc: seq<nat>, c: nat)
    requires MapClusters(img, mc) && c < |mc|
    ensures 0 < Sectors(mc)[c] < 0x1_0000 && mc[c] == SECTOR * Sectors(mc)[c] && mc[c] + SECTOR <= |img|
    ensures c + 1 < |mc| ==> Sectors(mc)[c + 1] == SectorOf(mc[c + 1])
  {
  }

  /**
    The linked map, walked from the boot sector's pointer, visits the map file's sectors in order,
    ends after the last, and yields the sectors of the mapped clusters in file order.
  */
  lemma LinkedMapLoads(img: Disk, mc: seq<nat>, sc: seq<nat>, fuel: nat)
    requires MapClusters(img, mc) && sc != [] && |sc| < 0x1_0000
    requires forall i :: 0 <= i < |sc| ==> 0 < SectorOf(sc[i]) < 0x1_0000
    requires |mc| == NumChunks(|Extents(sc)|) && MapFile(img, mc, Extents(sc)) && fuel >= |mc|
    ensures var img' := LinkUpTo(img, mc, |mc|);
            LoadMap(img', Le16(img', BOOT_FIELD), fuel) == Some(Loaded(Sectors(sc), Sectors(mc)))
  {
    var es := Extents(sc);
    ExtentsStorable(sc);
    LinkingLinks(img, mc, es);
    LinkField(img, mc, |mc|, 0);
    WalkLinked(LinkUpTo(img, mc, |mc|), Sectors(mc), es, 0, fuel);
    assert es[0..] == es && Sectors(mc)[0..] == Sectors(mc);
    ExpandExtents(sc);
  }

  /** The words round 2 writes: byte 506 of the boot sector names the first map sector, byte 508 of each chunk the next. */
  lemma LinkWords(img: Disk, mc: seq<nat>)
    requires MapClusters(img, mc)
    ensures mc != [] ==> Le16(LinkUpTo(img, mc, |mc|), 506) == mc[0] / 512
    ensures forall i :: 0 <= i < |mc| - 1 ==> Le16(LinkUpTo(img, mc, |mc|), mc[i] + 508) == mc[i + 1] / 512
  {
    if mc != [] {
      LinkField(img, mc, |mc|, 0);
    }
    forall i | 0 <= i < |mc| - 1
      ensures Le16(LinkUpTo(img, mc, |mc|), mc[i] + 508) == mc[i + 1] / 512
    {
      LinkField(img, mc, |mc|, i + 1);
    }
  }

  // ---------------------------------------------------------------- the whole image

  /** A floppy image as the tool accepts it: 512-byte clusters, the FAT in front of the data area. */
  predicate ImageOk(d: Disk, g: Geometry) {
    && DiskOk(d, g) && g.clusterSize == SECTOR
    && SECTOR <= g.fatOffset
    && g.dataOffset % SECTOR == 0 && g.dataOffset < 0x100_0000 && g.dataOffset <= |d|
  }

  /** The FAT has an entry for the cluster, in front of the data area. */
  predicate HasEntry(g: Geometry, c: nat) {
    g.clusterSize > 0 && g.dataOffset <= c && EntryOffset(g, ClusterNum(g, c)) + 2 <= g.dataOffset
  }

  /** The clusters of a file in the data area. */
  predicate InData(d: Disk, g: Geometry, cl: seq<nat>) {
    forall i :: 0 <= i < |cl| ==>
      && g.dataOffset <= cl[i] && cl[i] % SECTOR == 0 && cl[i] + SECTOR <= |d|
      && 0 < SectorOf(cl[i]) < 0x1_0000
  }

  lemma NextInData(d: Disk, g: Geometry, c: nat)
    requires ImageOk(d, g) && ClusterOk(g, c) && g.dataOffset <= c && c % SECTOR == 0
    ensures 0 < SectorOf(c) < 0x1_0000
    ensures var n := Next(d, g, LAST_TOOL, c); n == 0 || (g.dataOffset <= n && n % SECTOR == 0)
  {
    DivModSplit(g.dataOffset, c - g.dataOffset, SECTOR);
    var e := Entry(d, g, ClusterNum(g, c));
    if 2 <= e {
      AtSector(g, e);
    }
  }

  lemma AtSector(g: Geometry, e: nat)
    requires g.clusterSize == SECTOR && g.dataOffset % SECTOR == 0 && e >= 2
    ensures ClusterAt(g, e) >= g.dataOffset && ClusterAt(g, e) % SECTOR == 0
  {
    DivModSplit(g.dataOffset, (e - 2) * SECTOR, SECTOR);
    DivModUnique((e - 2) * SECTOR, e - 2, SECTOR, 0);
  }

  lemma {:induction false} NthInData(d: Disk, g: Geometry, first: nat, k: nat)
    requires ImageOk(d, g) && ClusterOk(g, first) && g.dataOffset <= first && first % SECTOR == 0
    ensures var c := Nth(d, g, LAST_TOOL, first, k);
            c == 0 || (g.dataOffset <= c && c % SECTOR == 0 && 0 < SectorOf(c) < 0x1_0000)
  {
    if k == 0 {
      NextInData(d, g, first);
    } else {
      NthInData(d, g, first, k - 1);
      var p := Nth(d, g, LAST_TOOL, first, k - 1);
      if p != 0 {
        NextInData(d, g, p);
        var c := Next(d, g, LAST_TOOL, p);
        if c != 0 {
          NextInData(d, g, c);
        }
      }
    }
  }

  lemma SameFatSameNext(d: Disk, d': Disk, g: Geometry, c: nat)
    requires ImageOk(d, g) && ImageOk(d', g) && ClusterOk(g, c) && HasEntry(g, c)
    requires forall x :: SECTOR <= x < g.dataOffset ==> x < |d'| && d'[x] == d[x]
    ensures Next(d', g, LAST_TOOL, c) == Next(d, g, LAST_TOOL, c)
  {
  }

  /** Images that agree on the FAT have the same chains. */
  lemma {:induction false} SameFatSameChain(d: Disk, d': Disk, g: Geometry, first: nat, k: nat)
    requires ImageOk(d, g) && ImageOk(d', g) && |d'| == |d| && ClusterOk(g, first)
    requires forall j :: 0 <= j < k ==> HasEntry(g, Nth(d, g, LAST_TOOL, first, j))
    requires forall x :: SECTOR <= x < g.dataOffset ==> d'[x] == d[x]
    ensures Nth(d', g, LAST_TOOL, first, k) == Nth(d, g, LAST_TOOL, first, k)
  {
    if k == 0 {
    } else {
      SameFatSameChain(d, d', g, first, k - 1);
      var p := Nth(d, g, LAST_TOOL, first, k - 1);
      if p != 0 {
        SameFatSameNext(d, d', g, p);
      }
    }
  }

  lemma {:induction false} SameChainSameList(d: Disk, d': Disk, g: Geometry, first: nat, n: nat)
    requires ImageOk(d, g) && ImageOk(d', g) && |d'| == |d| && ClusterOk(g, first)
    requires forall j :: 0 <= j < n ==> HasEntry(g, Nth(d, g, LAST_TOOL, first, j))
    requires forall x :: SECTOR <= x < g.dataOffset ==> d'[x] == d[x]
    ensures ClusterList(d', g, first, n) == ClusterList(d, g, first, n)
  {
    if n == 0 {
    } else {
      SameChainSameList(d, d', g, first, n - 1);
      SameFatSameChain(d, d', g, first, n - 1);
    }
  }

  /** A file: its first cluster and its size. */
  datatype File = File(first: nat, size: nat)

  ghost predicate FileHas(d: Disk, g: Geometry, f: File, cl: seq<nat>)
    requires ImageOk(d, g)
  {
    && ClusterOk(g, f.first) && g.dataOffset <= f.first && f.first % SECTOR == 0
    && ClusterList(d, g, f.first, ClusterCount(g, f.size)) == Some(cl)
    && forall i :: 0 <= i < |cl| ==> cl[i] + SECTOR <= |d| && HasEntry(g, cl[i])
  }

  lemma SameFile(d: Disk, d': Disk, g: Geometry, f: File, cl: seq<nat>)
    requires ImageOk(d, g) && |d'| == |d| && FileHas(d, g, f, cl)
    requires forall x :: SECTOR <= x < g.dataOffset ==> d'[x] == d[x]
    ensures ImageOk(d', g) && FileHas(d', g, f, cl)
  {
    forall j | 0 <= j < |cl|
      ensures HasEntry(g, Nth(d, g, LAST_TOOL, f.first, j))
    {
      ListIsChain(d, g, f.first, |cl|, j);
    }
    SameChainSameList(d, d', g, f.first, ClusterCount(g, f.size));
  }

  /** The clusters hold these bytes. */
  ghost predicate Contains(d: Disk, cl: seq<nat>, bytes: seq<byte>) {
    && |bytes| == SECTOR * |cl|
    && forall c :: 0 <= c < |cl| ==>
         cl[c] + SECTOR <= |d| && d[cl[c]..cl[c] + SECTOR] == bytes[SECTOR * c..SECTOR * c + SECTOR]
  }

  /** What round 1 wrote, copied to the image, is a map file. */
  lemma WrittenIsMapFile(img: Disk, mc: seq<nat>, es: seq<Extent>)
    requires MapClusters(img, mc) && Contains(img, mc, MapBytes.FileBytes(es))
    ensures |mc| == NumChunks(|es|) && MapFile(img, mc, es)
  {
    forall c | 0 <= c < |mc|
      ensures ChunkHolds(img[mc[c]..mc[c] + SECTOR], es, c) && Le16(img, mc[c] + NEXT_FIELD) == 0
    {
      MapBytes.ChunkInFile(es, |mc|, c);
      MapBytes.ChunkReadBack(es, c);
      WordOfSlice(img, mc[c], NEXT_FIELD);
    }
  }

  lemma FileInData(d: Disk, g: Geometry, f: File, cl: seq<nat>)
    requires ImageOk(d, g) && FileHas(d, g, f, cl)
    ensures InData(d, g, cl)
  {
    forall i | 0 <= i < |cl| ensures g.dataOffset <= cl[i] && cl[i] % SECTOR == 0 && 0 < SectorOf(cl[i]) < 0x1_0000 {
      ListIsChain(d, g, f.first, |cl|, i);
      NthInData(d, g, f.first, i);
    }
  }

  /** Bytes below the data area, but for the boot sector's pointer, and bytes of clusters outside the map file stay. */
  lemma OutsideKept(img: Disk, mc: seq<nat>, g: Geometry, x: nat)
    requires ImageOk(img, g) && MapClusters(img, mc) && InData(img, g, mc) && x < |img|
    requires x < g.dataOffset ==> x < BOOT_FIELD || BOOT_FIELD + 2 <= x
    requires g.dataOffset <= x ==> forall i :: 0 <= i < |mc| ==> x < mc[i] || mc[i] + SECTOR <= x
    ensures LinkUpTo(img, mc, |mc|)[x] == img[x]
  {
    LinkOther(img, mc, |mc|, x);
  }

  /**
    For a FAT12 image holding stage 2 and, on disjoint clusters, the file round 1 writes for it: after
    round 2 the image has the same files, walking the map from the boot sector's pointer visits the map
    file's clusters in order, and the sectors it loads are the stage-2 clusters in file order with
    the bytes they had before.
  */
  lemma BootLoadsStage2(img: Disk, g: Geometry, stage2: File, mapFile: File, sc: seq<nat>, mc: seq<nat>)
    requires ImageOk(img, g) && FileHas(img, g, stage2, sc) && FileHas(img, g, mapFile, mc)
    requires sc != [] && |sc| < 0x1_0000 && Contains(img, mc, MapBytes.FileBytes(Extents(sc)))
    requires forall i, j :: 0 <= i < j < |mc| ==> mc[i] != mc[j]
    requires forall i, j :: 0 <= i < |sc| && 0 <= j < |mc| ==> sc[i] != mc[j]
    ensures MapClusters(img, mc)
    ensures var img' := LinkUpTo(img, mc, |mc|);
            && ImageOk(img', g) && FileHas(img', g, stage2, sc) && FileHas(img', g, mapFile, mc)
            && LoadMap(img', Le16(img', BOOT_FIELD), |mc|) == Some(Loaded(Sectors(sc), Sectors(mc)))
            && forall k :: 0 <= k < |sc| ==>
                 (SECTOR * Sectors(sc)[k] + SECTOR <= |img'|
                  && SectorAt(img', Sectors(sc)[k]) == img[sc[k]..sc[k] + SECTOR])
  {
    FileInData(img, g, stage2, sc);
    FileInData(img, g, mapFile, mc);
    assert MapClusters(img, mc);
    WrittenIsMapFile(img, mc, Extents(sc));
    var img' := LinkUpTo(img, mc, |mc|);
    LinkedMapLoads(img, mc, sc, |mc|);
    forall x | SECTOR <= x < g.dataOffset ensures img'[x] == img[x] {
      OutsideKept(img, mc, g, x);
    }
    SameFile(img, img', g, stage2, sc);
    SameFile(img, img', g, mapFile, mc);
    forall k | 0 <= k < |sc|
      ensures SECTOR * Sectors(sc)[k] + SECTOR <= |img'|
      ensures SectorAt(img', Sectors(sc)[k]) == img[sc[k]..sc[k] + SECTOR]
    {
      Stage2Loaded(img, mc, g, sc, k);
    }
  }

  lemma Stage2Loaded(img: Disk, mc: seq<nat>, g: Geometry, sc: seq<nat>, k: nat)
    requires ImageOk(img, g) && MapClusters(img, mc) && InData(img, g, mc) && InData(img, g, sc) && k < |sc|
    requires forall j :: 0 <= j < |mc| ==> sc[k] != mc[j]
    ensures var img' := LinkUpTo(img, mc, |mc|);
            SECTOR * Sectors(sc)[k] + SECTOR <= |img'|
            && SectorAt(img', Sectors(sc)[k]) == img[sc[k]..sc[k] + SECTOR]
  {
    assert SECTOR * Sectors(sc)[k] == sc[k];
    Stage2Kept(img, mc, g, sc, k);
  }

  lemma Stage2Kept(img: Disk, mc: seq<nat>, g: Geometry, sc: seq<nat>, k: nat)
    requires ImageOk(img, g) && MapClusters(img, mc) && InData(img, g, mc) && InData(img, g, sc) && k < |sc|
    requires forall j :: 0 <= j < |mc| ==> sc[k] != mc[j]
    ensures LinkUpTo(img, mc, |mc|)[sc[k]..sc[k] + SECTOR] == img[sc[k]..sc[k] + SECTOR]
  {
    forall x | sc[k] <= x < sc[k] + SECTOR ensures LinkUpTo(img, mc, |mc|)[x] == img[x] {
      forall i | 0 <= i < |mc| ensures x < mc[i] || mc[i] + SECTOR <= x {
        if sc[k] < mc[i] {
          MultiplesApart(sc[k], mc[i], SECTOR);
        } else {
          MultiplesApart(mc[i], sc[k], SECTOR);
        }
      }
      OutsideKept(img, mc, g, x);
    }
  }
}
