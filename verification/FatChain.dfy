/**
  Reads that are not straight, on files whose chains end: the image is an ordinary one, its data clusters
  numbered 2, 3, 4, ... making up one file.
*/
module FatChain {
  import opened Bytes
  import opened Arith
  import opened Fat12
  import opened FatFile

  /** Every cluster is followed by the next one, the last by none. */
  function Successor(n: nat): nat { if 2 <= n < LAST_LOADER then n + 1 else 0xfff }

  function Table(): (r: seq<nat>)
    ensures Entries12(r) && |r| == LAST_LOADER + 2
  {
    seq(LAST_LOADER + 2, n requires 0 <= n => Successor(n))
  }

  /** The image; byte o of the file's cluster q is 1 and the cluster's first byte is 0. */
  ghost predicate Ladder(d: Disk, g: Geometry, q: nat, o: nat) {
    && DiskOk(d, g) && 0 < o < g.clusterSize && q + 2 <= LAST_LOADER
    && (forall n :: 2 <= n <= LAST_LOADER ==> EntryOffset(g, n) + 2 <= |d| && Entry(d, g, n) == Successor(n))
    && (forall n :: 2 <= n <= LAST_LOADER ==> ClusterAt(g, n) + g.clusterSize <= |d|)
    && d[ClusterAt(g, q + 2)] == 0 && d[ClusterAt(g, q + 2) + o] == 1
  }

  lemma NextOnLadder(d: Disk, g: Geometry, q: nat, o: nat, n: nat)
    requires Ladder(d, g, q, o) && 2 <= n <= LAST_LOADER
    ensures ClusterOk(g, ClusterAt(g, n))
    ensures Next(d, g, LAST_LOADER, ClusterAt(g, n)) == if n < LAST_LOADER then ClusterAt(g, n + 1) else 0
  {
    NumAt(g, n);
  }

  lemma {:induction false} LadderChain(d: Disk, g: Geometry, q: nat, o: nat, n: nat, k: nat)
    requires Ladder(d, g, q, o) && 2 <= n <= LAST_LOADER && n + k <= LAST_LOADER + 1
    ensures ClusterOk(g, ClusterAt(g, n))
    ensures Nth(d, g, LAST_LOADER, ClusterAt(g, n), k) == if n + k <= LAST_LOADER then ClusterAt(g, n + k) else 0
    ensures n + k <= LAST_LOADER ==> Has(d, g, ClusterAt(g, n), k)
  {
    NextOnLadder(d, g, q, o, n);
    if k == 0 {
    } else {
      LadderChain(d, g, q, o, n, k - 1);
      NextOnLadder(d, g, q, o, n + k - 1);
    }
  }

  /** Where a read starts that leaves its cluster, and how many clusters it needs behind the next one. */
  lemma Reaches(cs: nat, sz: nat, off: nat) returns (q: nat, o: nat, last: nat)
    requires cs > 0 && !Straight(cs, sz, off)
    ensures q == off / cs && o == off % cs && last == if sz > cs then (sz - cs - 1) / cs else 0
    ensures q + 1 + last <= (off + sz - 1) / cs
  {
    q, o := Divide(off, cs);
    last := 0;
    if sz > cs {
      var r;
      last, r := Divide(sz - cs - 1, cs);
    }
    DivModSplit(off, sz - 1, cs);
    Crosses(cs, o, sz);
  }

  lemma Crosses(cs: nat, o: nat, sz: nat)
    requires 0 < o < cs < o + sz
    ensures (o + (sz - 1)) / cs >= 1
    ensures sz > cs ==> 1 + (sz - cs - 1) / cs <= (o + (sz - 1)) / cs
  {
    var r := o + (sz - 1);
    DivModShift(1, r - cs, cs);
    if sz > cs {
      DivMonotone(sz - cs - 1, r - cs, cs);
    }
  }

  lemma DivMonotone(x: nat, y: nat, m: nat)
    requires m > 0 && x <= y
    ensures x / m <= y / m
  {
    DivModId(x, m);
    DivModId(y, m);
    if y / m < x / m {
      MulMonotone(y / m, x / m, m);
    }
  }

  lemma LadderReaches(d: Disk, g: Geometry, q: nat, o: nat, n: nat, c: nat, last: nat)
    requires Ladder(d, g, q, o) && 2 <= n && n + last <= LAST_LOADER && c == ClusterAt(g, n)
    ensures ClusterOk(g, c) && forall j :: 0 <= j <= last ==> Has(d, g, c, j)
  {
    LadderChain(d, g, q, o, n, 0);
    forall j | 0 <= j <= last
      ensures Has(d, g, c, j)
    {
      LadderChain(d, g, q, o, n, j);
    }
  }

  /** On that image a read that is not straight delivers a 0 for a 1. */
  lemma LadderBad(d: Disk, g: Geometry, buf: seq<byte>, sz: nat, off: nat)
    requires g.clusterSize > 0 && Ladder(d, g, off / g.clusterSize, off % g.clusterSize)
    requires |buf| == sz && !Straight(g.clusterSize, sz, off) && (off + sz - 1) / g.clusterSize + 2 <= LAST_LOADER
    ensures ClusterOk(g, ClusterAt(g, 2)) && !ReadsRight(d, g, buf, ClusterAt(g, 2), sz, off)
  {
    var cs := g.clusterSize;
    var q, o, last := Reaches(cs, sz, off);
    var first, c, n := ClusterAt(g, 2), ClusterAt(g, q + 2), ClusterAt(g, q + 3);
    LadderChain(d, g, q, o, 2, q);
    NextOnLadder(d, g, q, o, q + 2);
    LadderReaches(d, g, q, o, q + 3, n, last);
    CrossingBad(d, g, buf, first, c, n, sz, off, o);
  }

  /** The chain from c ends. */
  ghost predicate Ends(d: Disk, g: Geometry, c: nat)
    requires DiskOk(d, g) && ClusterOk(g, c)
  {
    exists k: nat :: Nth(d, g, LAST_LOADER, c, k) == 0
  }

  /** A table at f, and zeros but for a 1 at mark behind it. */
  lemma Marked(f: nat, table: seq<byte>, mark: nat, size: nat) returns (d: Disk)
    requires f + |table| <= mark < size
    ensures |d| == size && d[f..f + |table|] == table && d[mark] == 1
    ensures forall i :: f + |table| <= i < size && i != mark ==> d[i] == 0
  {
    d := seq(size, i requires 0 <= i =>
      if f <= i < f + |table| then table[i - f] else if i == mark then 1 else 0);
  }

  lemma LadderImage(b: Boot, q: nat, o: nat) returns (d: Disk)
    requires BootOk(b) && b.sectorsPerFat * b.bytesPerSector >= 6200
    requires q + 2 <= LAST_LOADER && 0 < o < b.bytesPerSector * b.sectorsPerCluster
    ensures Ladder(d, GeometryOf(b), q, o)
  {
    var g := GeometryOf(b);
    BootGeometryOk(b);
    var c, top := ClusterAt(g, q + 2), ClusterAt(g, LAST_LOADER) + g.clusterSize;
    ClustersInOrder(g, q + 2);
    d := Marked(g.fatOffset, Pack(Table()), c + o, top + 7000);
    HoldsLadder(d, g, top);
  }

  /** The table of the ladder, on a disk as large as it needs. */
  lemma HoldsLadder(d: Disk, g: Geometry, top: nat)
    requires HoldsTable(d, g.fatOffset, Table()) && top == ClusterAt(g, LAST_LOADER) + g.clusterSize <= |d|
    ensures forall n :: 2 <= n <= LAST_LOADER ==> EntryOffset(g, n) + 2 <= |d| && Entry(d, g, n) == Successor(n)
    ensures forall n :: 2 <= n <= LAST_LOADER ==> ClusterAt(g, n) + g.clusterSize <= |d|
  {
    forall n | 2 <= n <= LAST_LOADER
      ensures EntryOffset(g, n) + 2 <= |d| && Entry(d, g, n) == Successor(n)
      ensures ClusterAt(g, n) + g.clusterSize <= |d|
    {
      EntryOfPack(d, g, Table(), n);
      ClustersInOrder(g, n);
    }
  }

  lemma ClustersInOrder(g: Geometry, n: nat)
    requires 2 <= n <= LAST_LOADER
    ensures g.dataOffset <= ClusterAt(g, n) <= ClusterAt(g, LAST_LOADER)
  {
    MulMonotone(n - 2, LAST_LOADER - 2, g.clusterSize);
  }

  /** Reads of sz bytes at off are right for every file with an end, on every image with such sectors and clusters. */
  ghost predicate RightOnEnding(sector: nat, perCluster: nat, sz: nat, off: nat) {
    forall d: Disk, b: Boot, buf: seq<byte>, n: nat ::
      Given(d, b, buf, n, sector, perCluster, sz) && EndsAt(d, GeometryOf(b), n) ==>
        FileReadsRight(d, GeometryOf(b), buf, n, sz, off)
  }

  /** The chain of the file that starts at data cluster n ends. */
  ghost predicate EndsAt(d: Disk, g: Geometry, n: nat)
    requires DiskOk(d, g) && 2 <= n <= LAST_LOADER
  {
    FileCluster(g, n);
    Ends(d, g, ClusterAt(g, n))
  }

  lemma StraightNeededOnEnding(sector: nat, perCluster: nat, sz: nat, off: nat)
    requires 0 < sector < 0x1_0000 && 0 < perCluster < 0x100 && sector * perCluster < 0x1_0000
    requires !Straight(sector * perCluster, sz, off) && (off + sz - 1) / (sector * perCluster) + 2 <= LAST_LOADER
    ensures !RightOnEnding(sector, perCluster, sz, off)
  {
    var cs := sector * perCluster;
    var b := Boot(sector, perCluster, 1, 2, cs, 6200);
    MulMonotone(1, perCluster, sector);
    MulMonotone(1, sector, 6200);
    DivModUnique(32 * cs, 32, cs, 0);
    var q, o, last := Reaches(cs, sz, off);
    var d := LadderImage(b, q, o);
    var g := GeometryOf(b);
    var buf := seq(sz, _ => 0 as byte);
    LadderBad(d, g, buf, sz, off);
    LadderChain(d, g, q, o, 2, LAST_LOADER - 1);
    assert Given(d, b, buf, 2, sector, perCluster, sz) && EndsAt(d, g, 2);
    assert !FileReadsRight(d, g, buf, 2, sz, off);
  }

  /**
    On files whose chains end, too: a read within the longest chain there can be is right for every such
    file on every image exactly when it is straight.
  */
  lemma StraightIsExactOnEnding(sector: nat, perCluster: nat, sz: nat, off: nat)
    requires 0 < sector < 0x1_0000 && 0 < perCluster < 0x100 && sector * perCluster < 0x1_0000 && sz > 0
    requires sector * perCluster > 0 && (off + sz - 1) / (sector * perCluster) + 2 <= LAST_LOADER
    ensures RightOnEnding(sector, perCluster, sz, off) <==> Straight(sector * perCluster, sz, off)
  {
    if Straight(sector * perCluster, sz, off) {
      StraightIsExact(sector, perCluster, sz, off);
      forall d: Disk, b: Boot, buf: seq<byte>, n: nat
        | Given(d, b, buf, n, sector, perCluster, sz) && EndsAt(d, GeometryOf(b), n)
        ensures FileReadsRight(d, GeometryOf(b), buf, n, sz, off)
      {
      }
    } else {
      StraightNeededOnEnding(sector, perCluster, sz, off);
    }
  }
}
