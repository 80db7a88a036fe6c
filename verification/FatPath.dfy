/**
  Directory search and path lookup: _fat_fs_find and _fat_pop_file (src/storage/fs/fat.c) and
  fs_findfile (src/storage/fs/fs.c).  Handles are closed and their memory freed in the source;
  that is left out.
*/
module FatPath {
  import opened Wrappers
  import opened Bytes
  import opened Arith
  import opened Fat12
  import opened FatName
  import FatFile
  import FatReader

  const SEP: byte := 47
  const DIRENT: nat := 32

  /** file_hand_t: where the file starts, its size, and whether it is a directory. */
  datatype Handle = Handle(first: int, size: nat, isDir: bool)

  function RootHandle(g: Geometry): Handle { Handle(g.rootFirst, 0, true) }

  // ---------------------------------------------------------------- directory entries

  /** Volume label, device or reserved. */
  predicate Hidden(attr: byte) { attr / 8 % 2 == 1 || attr / 64 % 2 == 1 || attr / 128 == 1 }

  /** Entry i of a directory cluster matches the name. */
  predicate Matches(block: seq<byte>, i: nat, name: Name)
    requires DIRENT * i + DIRENT <= |block|
  {
    Accepts(block[DIRENT * i..], name) && !Hidden(block[DIRENT * i + 11])
  }

  /** _fat_pop_file */
  function HandleOf(g: Geometry, block: seq<byte>, i: nat): Handle
    requires DIRENT * i + DIRENT <= |block|
  {
    var e := block[DIRENT * i..DIRENT * i + DIRENT];
    Handle(g.dataOffset + (Le16(e, 26) - 2) * g.clusterSize, Le32(e, 28), e[11] / 16 % 2 == 1)
  }

  /** The first of the entries i, i + 1, ... of the cluster that matches. */
  function InCluster(block: seq<byte>, name: Name, i: nat): (r: Option<nat>)
    ensures r.Some? ==> i <= r.value < |block| / DIRENT && Matches(block, r.value, name)
    ensures r.Some? ==> forall j :: i <= j < r.value ==> !Matches(block, j, name)
    ensures r.None? ==> forall j :: i <= j < |block| / DIRENT ==> !Matches(block, j, name)
    decreases |block| / DIRENT - i
  {
    if i >= |block| / DIRENT then None
    else if Matches(block, i, name) then Some(i)
    else InCluster(block, name, i + 1)
  }

  // ---------------------------------------------------------------- directories

  /** The chain from c has exactly len clusters that can be read: it is acyclic. */
  ghost predicate Length(d: Disk, g: Geometry, c: nat, len: nat)
    requires DiskOk(d, g) && ClusterOk(g, c)
  {
    !FatFile.Has(d, g, c, len) && forall k :: 0 <= k < len ==> FatFile.Has(d, g, c, k)
  }

  ghost predicate DirOk(d: Disk, g: Geometry, h: Handle)
    requires DiskOk(d, g)
  {
    h.isDir && 0 <= h.first && ClusterOk(g, h.first) && exists len :: Length(d, g, h.first, len)
  }

  ghost function DirLength(d: Disk, g: Geometry, h: Handle): (len: nat)
    requires DiskOk(d, g) && DirOk(d, g, h)
    ensures Length(d, g, h.first, len)
  {
    var len :| Length(d, g, h.first, len);
    len
  }

  function DirBlock(d: Disk, g: Geometry, c: nat, k: nat): (r: seq<byte>)
    requires DiskOk(d, g) && ClusterOk(g, c) && FatFile.Has(d, g, c, k)
    ensures |r| == g.clusterSize
  {
    var n := Nth(d, g, LAST_LOADER, c, k);
    d[n..n + g.clusterSize]
  }

  /** The first matching entry of clusters k, k + 1, ... of a directory of len clusters. */
  ghost function FindFrom(d: Disk, g: Geometry, c: nat, name: Name, k: nat, len: nat): Option<Handle>
    requires DiskOk(d, g) && ClusterOk(g, c) && Length(d, g, c, len) && k <= len
    decreases len - k
  {
    if k == len then None
    else
      var block := DirBlock(d, g, c, k);
      var i := InCluster(block, name, 0);
      if i.Some? then Some(HandleOf(g, block, i.value)) else FindFrom(d, g, c, name, k + 1, len)
  }

  const CURRENT: Name := [DOT]

  /** Looking one name up in a directory. */
  ghost function Find(d: Disk, g: Geometry, dir: Handle, name: Name): Option<Handle>
    requires DiskOk(d, g) && DirOk(d, g, dir)
  {
    if name == CURRENT then Some(dir) else FindFrom(d, g, dir.first, name, 0, DirLength(d, g, dir))
  }

  /** Entry i of cluster k of the directory matches. */
  ghost predicate EntryMatches(d: Disk, g: Geometry, c: nat, k: nat, i: nat, name: Name)
    requires DiskOk(d, g) && ClusterOk(g, c)
  {
    FatFile.Has(d, g, c, k) && i < g.clusterSize / DIRENT && Matches(DirBlock(d, g, c, k), i, name)
  }

  /** Nothing matches in clusters k..m-1, nor before entry i of cluster m. */
  ghost predicate NoneBefore(d: Disk, g: Geometry, c: nat, name: Name, k: nat, m: nat, i: nat)
    requires DiskOk(d, g) && ClusterOk(g, c)
  {
    && (forall m', i' :: k <= m' < m ==> !EntryMatches(d, g, c, m', i', name))
    && (forall i' :: 0 <= i' < i ==> !EntryMatches(d, g, c, m, i', name))
  }

  lemma ScanCluster(d: Disk, g: Geometry, c: nat, k: nat, name: Name)
    requires DiskOk(d, g) && ClusterOk(g, c) && FatFile.Has(d, g, c, k)
    ensures var r := InCluster(DirBlock(d, g, c, k), name, 0);
            if r.None? then forall i: nat :: !EntryMatches(d, g, c, k, i, name)
            else EntryMatches(d, g, c, k, r.value, name) && forall i :: 0 <= i < r.value ==> !EntryMatches(d, g, c, k, i, name)
  {
  }

  lemma NoneBeforeExtend(d: Disk, g: Geometry, c: nat, name: Name, k: nat, m: nat, i: nat)
    requires DiskOk(d, g) && ClusterOk(g, c) && k < m
    requires NoneBefore(d, g, c, name, k + 1, m, i) && forall j: nat :: !EntryMatches(d, g, c, k, j, name)
    ensures NoneBefore(d, g, c, name, k, m, i)
  {
  }

  /** The search finds an entry exactly when one matches, and then the first in directory order. */
  lemma {:induction false} FindFromFirst(d: Disk, g: Geometry, c: nat, name: Name, k: nat, len: nat)
    returns (m: nat, i: nat)
    requires DiskOk(d, g) && ClusterOk(g, c) && Length(d, g, c, len) && k <= len
    ensures k <= m <= len && NoneBefore(d, g, c, name, k, m, i)
    ensures var r := FindFrom(d, g, c, name, k, len);
            if m < len then EntryMatches(d, g, c, m, i, name) && r == Some(HandleOf(g, DirBlock(d, g, c, m), i)) else r == None
    decreases len - k
  {
    m, i := len, 0;
    if k >= len {
    } else {
      ScanCluster(d, g, c, k, name);
      var hit := InCluster(DirBlock(d, g, c, k), name, 0);
      if hit.Some? {
        m, i := k, hit.value;
      } else {
        m, i := FindFromFirst(d, g, c, name, k + 1, len);
        NoneBeforeExtend(d, g, c, name, k, m, i);
      }
    }
  }

  // ---------------------------------------------------------------- paths

  /** strchr from position i: the first separator, or the length. */
  function SepFrom(path: Name, i: nat): (r: nat)
    requires i <= |path|
    ensures i <= r <= |path| && (r < |path| ==> path[r] == SEP)
    ensures forall j :: i <= j < r ==> path[j] != SEP
    decreases |path| - i
  {
    if i == |path| || path[i] == SEP then i else SepFrom(path, i + 1)
  }

  /** What fs_findfile answers; Unset is success without a file having been looked up. */
  datatype Lookup = Found(h: Handle) | NotFound | Unset

  /** Every directory the walk enters is acyclic. */
  ghost predicate WalkOk(d: Disk, g: Geometry, dir: Handle, path: Name)
    requires DiskOk(d, g)
    decreases |path|
  {
    DirOk(d, g, dir) &&
    var s := SepFrom(path, 0);
    (s < |path| ==>
       var h := Find(d, g, dir, path[..s]);
       h.Some? && h.value.isDir ==> WalkOk(d, g, h.value, path[s + 1..]))
  }

  /** The walk from directory dir, by recursion on the path. */
  ghost function Walk(d: Disk, g: Geometry, dir: Handle, path: Name): Lookup
    requires DiskOk(d, g) && WalkOk(d, g, dir, path)
    decreases |path|
  {
    var s := SepFrom(path, 0);
    if path == [] then Unset
    else if s == |path| then
      var h := Find(d, g, dir, path);
      if h.None? then NotFound else Found(h.value)
    else
      var h := Find(d, g, dir, path[..s]);
      if h.None? || !h.value.isDir then NotFound else Walk(d, g, h.value, path[s + 1..])
  }

  /** Where fs_findfile starts, and what it walks. */
  function StartDir(g: Geometry, dir: Option<Handle>, path: Name): Handle {
    if (path != [] && path[0] == SEP) || dir.None? then RootHandle(g) else dir.value
  }

  function Relative(path: Name): Name {
    if path != [] && path[0] == SEP then path[1..] else path
  }

  ghost function FindFileSpec(d: Disk, g: Geometry, dir: Option<Handle>, path: Name): Lookup
    requires DiskOk(d, g) && WalkOk(d, g, StartDir(g, dir, path), Relative(path))
  {
    if Relative(path) == [] then NotFound else Walk(d, g, StartDir(g, dir, path), Relative(path))
  }

  // ---------------------------------------------------------------- component lists

  predicate Component(c: Name) { c != [] && SEP !in c }

  function Join(cs: seq<Name>): Name {
    if |cs| == 0 then [] else if |cs| == 1 then cs[0] else cs[0] + [SEP] + Join(cs[1..])
  }

  ghost predicate DescendOk(d: Disk, g: Geometry, dir: Handle, cs: seq<Name>)
    requires DiskOk(d, g)
    decreases |cs|
  {
    DirOk(d, g, dir) &&
    (|cs| > 1 ==>
       var h := Find(d, g, dir, cs[0]);
       h.Some? && h.value.isDir ==> DescendOk(d, g, h.value, cs[1..]))
  }

  /** Look up each component in the directory the one before it names. */
  ghost function Descend(d: Disk, g: Geometry, dir: Handle, cs: seq<Name>): Option<Handle>
    requires DiskOk(d, g) && cs != [] && DescendOk(d, g, dir, cs)
    decreases |cs|
  {
    var h := Find(d, g, dir, cs[0]);
    if |cs| == 1 then h
    else if h.None? || !h.value.isDir then None
    else Descend(d, g, h.value, cs[1..])
  }

  lemma {:induction false} SepOfJoin(path: Name, c: Name, i: nat)
    requires Component(c) && i <= |c| <= |path| && path[..|c|] == c
    requires |c| < |path| ==> path[|c|] == SEP
    ensures SepFrom(path, i) == |c|
    decreases |c| - i
  {
    if i >= |c| {
    } else {
      assert path[i] == path[..|c|][i] == c[i];
      SepOfJoin(path, c, i + 1);
    }
  }

  /** Walking a joined path is descending through its components; no component is skipped, merged or looked up twice. */
  lemma {:induction false} WalkIsDescend(d: Disk, g: Geometry, dir: Handle, cs: seq<Name>, path: Name)
    requires DiskOk(d, g) && cs != [] && (forall i :: 0 <= i < |cs| ==> Component(cs[i])) && path == Join(cs)
    ensures WalkOk(d, g, dir, path) <==> DescendOk(d, g, dir, cs)
    ensures DescendOk(d, g, dir, cs) ==>
              Walk(d, g, dir, path) == match Descend(d, g, dir, cs) case Some(h) => Found(h) case None => NotFound
    decreases |cs|
  {
    assert Component(cs[0]);
    SepOfJoin(path, cs[0], 0);
    if |cs| <= 1 {
    } else {
      assert path[..|cs[0]|] == cs[0] && path[|cs[0]| + 1..] == Join(cs[1..]);
      if DirOk(d, g, dir) {
        var h := Find(d, g, dir, cs[0]);
        if h.Some? {
          WalkIsDescend(d, g, h.value, cs[1..], path[|cs[0]| + 1..]);
        }
      }
    }
  }

  /**
    The last character decides what success means: with a separator there no file is looked up, and
    without one success always comes with a file.
  */
  lemma {:induction false} WalkAnswers(d: Disk, g: Geometry, dir: Handle, path: Name)
    requires DiskOk(d, g) && WalkOk(d, g, dir, path) && path != []
    ensures path[|path| - 1] == SEP ==> !Walk(d, g, dir, path).Found?
    ensures path[|path| - 1] != SEP ==> !Walk(d, g, dir, path).Unset?
    decreases |path|
  {
    var s := SepFrom(path, 0);
    if s == |path| {
      assert path[|path| - 1] != SEP;
    } else {
      var tail := path[s + 1..];
      var h := Find(d, g, dir, path[..s]);
      if tail != [] && h.Some? && h.value.isDir {
        assert tail[|tail| - 1] == path[|path| - 1];
        WalkAnswers(d, g, h.value, tail);
      }
    }
  }

  /** fs_findfile succeeds with a file if and only if it succeeds and the path does not end in a separator. */
  lemma FindFileAnswers(d: Disk, g: Geometry, dir: Option<Handle>, path: Name)
    requires DiskOk(d, g) && WalkOk(d, g, StartDir(g, dir, path), Relative(path))
    requires !FindFileSpec(d, g, dir, path).NotFound?
    ensures path != [] && (FindFileSpec(d, g, dir, path).Found? <==> path[|path| - 1] != SEP)
  {
    var rel := Relative(path);
    assert rel[|rel| - 1] == path[|path| - 1];
    WalkAnswers(d, g, StartDir(g, dir, path), rel);
  }

  /** A trailing separator after an existing directory is reported as success without a file. */
  lemma TrailingSeparator(d: Disk, g: Geometry, dir: Handle, c: Name)
    requires DiskOk(d, g) && DirOk(d, g, dir) && Component(c)
    requires Find(d, g, dir, c).Some? && DirOk(d, g, Find(d, g, dir, c).value)
    ensures WalkOk(d, g, dir, c + [SEP]) && Walk(d, g, dir, c + [SEP]) == Unset
  {
    var path := c + [SEP];
    SepOfJoin(path, c, 0);
    assert path[..|c|] == c && path[|c| + 1..] == [];
  }

  // ---------------------------------------------------------------- the methods

  /** A file handle in memory. */
  class FileHand {
    var h: Handle

    constructor (h: Handle)
      ensures this.h == h
    {
      this.h := h;
    }
  }

  /** The directory a handle pointer stands for; null is the root. */
  function Of(g: Geometry, dir: FileHand?): Handle
    reads dir
  {
    if dir == null then RootHandle(g) else dir.h
  }

  lemma ReadCluster(d: Disk, g: Geometry, buf: seq<byte>, c: nat, k: nat, pos: nat)
    requires DiskOk(d, g) && ClusterOk(g, c) && |buf| == g.clusterSize && pos == k * g.clusterSize
    ensures var r := FatFile.Read(d, g, buf, c, g.clusterSize, pos);
            (r.Some? <==> FatFile.Has(d, g, c, k)) && (r.Some? ==> r.value == DirBlock(d, g, c, k))
  {
    var cs := g.clusterSize;
    DivModUnique(pos, k, cs, 0);
    DivModUnique(pos + cs - 1, k, cs, cs - 1);
    FatFile.ReadStraight(d, g, buf, c, cs, pos);
    var r := FatFile.Read(d, g, buf, c, cs, pos);
    if r.Some? {
      forall i | 0 <= i < cs ensures r.value[i] == DirBlock(d, g, c, k)[i] {
        assert FatFile.IsByte(d, g, c, pos + i - 0, r.value[i]);
        DivModUnique(pos + i, k, cs, i);
        ByteOfCluster(d, g, c, k, i, pos + i, r.value[i]);
      }
    }
  }

  lemma ByteOfCluster(d: Disk, g: Geometry, c: nat, k: nat, i: nat, x: nat, b: byte)
    requires DiskOk(d, g) && ClusterOk(g, c) && x / g.clusterSize == k && x % g.clusterSize == i
    requires FatFile.IsByte(d, g, c, x, b)
    ensures FatFile.Has(d, g, c, k) && DirBlock(d, g, c, k)[i] == b
  {
    assert FatFile.ByteAt(d, g, c, k, i, b);
  }

  /** The inner loop of _fat_fs_find. */
  method ScanEntries(dirents: array<byte>, name: Name) returns (hit: Option<nat>)
    ensures hit == InCluster(dirents[..], name, 0)
  {
    ghost var block := dirents[..];
    for i := 0 to dirents.Length / DIRENT
      invariant InCluster(block, name, i) == InCluster(block, name, 0)
    {
      var ok := FatStrcmp(dirents[..][DIRENT * i..], name);
      if ok && !Hidden(dirents[DIRENT * i + 11]) {
        return Some(i);
      }
    }
    return None;
  }

  /**
    _fat_fs_find; dir is null for the root directory.  The result may be written over the directory's own
    handle, but for the name ".": the source then copies from the block it has just allocated.
  */
  method FsFind(r: FatReader.FatReader, dir: FileHand?, file: FileHand, name: Name) returns (ok: bool)
    requires r.Valid() && (dir == file ==> name != CURRENT)
    requires DirOk(r.disk, r.g, Of(r.g, dir))
    modifies r, r.clust, r.rank, r.buf, file
    ensures r.Valid()
    ensures var f := Find(r.disk, r.g, old(Of(r.g, dir)), name);
            ok == f.Some? && file.h == if ok then f.value else old(file.h)
  {
    var d := Of(r.g, dir);
    if name == CURRENT {
      file.h := d;
      return true;
    }
    var hit := SearchDir(r, d, name, DirLength(r.disk, r.g, d));
    ok := hit.Some?;
    if ok {
      file.h := hit.value;
    }
  }

  /** The outer loop of _fat_fs_find: one cluster at a time, until a read fails. */
  method SearchDir(r: FatReader.FatReader, dir: Handle, name: Name, ghost len: nat) returns (hit: Option<Handle>)
    requires r.Valid() && dir.isDir && 0 <= dir.first && ClusterOk(r.g, dir.first) && Length(r.disk, r.g, dir.first, len)
    modifies r, r.clust, r.rank, r.buf
    ensures r.Valid()
    ensures hit == FindFrom(r.disk, r.g, dir.first, name, 0, len)
  {
    ghost var d, g, c, k := r.disk, r.g, dir.first, 0;
    ghost var all := FindFrom(d, g, c, name, 0, len);
    var dirents := new byte[r.g.clusterSize](_ => 0);
    var pos: nat := 0;
    while true
      invariant r.Valid()
      invariant 0 <= k <= len && pos == k * g.clusterSize
      invariant FindFrom(d, g, c, name, k, len) == all
      decreases len - k
    {
      ReadCluster(d, g, dirents[..], c, k, pos);
      var res := r.FileRead(dir.first, dir.isDir, dir.size, dirents, r.g.clusterSize, pos);
      if res != FatReader.Done {
        return None;
      }
      var i := ScanEntries(dirents, name);
      if i.Some? {
        return Some(HandleOf(r.g, dirents[..], i.value));
      }
      MulStep(k, g.clusterSize);
      pos := pos + r.g.clusterSize;
      k := k + 1;
    }
  }

  /** The C string that starts at p. */
  function CString(mem: seq<byte>, p: nat): (r: Name)
    ensures p + |r| <= |mem| || r == []
    ensures 0 !in r
    decreases |mem| - p
  {
    if p >= |mem| || mem[p] == 0 then [] else [mem[p]] + CString(mem, p + 1)
  }

  lemma {:induction false} CStringOf(mem: seq<byte>, p: nat, name: Name)
    requires p + |name| < |mem| && mem[p..p + |name|] == name && 0 !in name && mem[p + |name|] == 0
    ensures CString(mem, p) == name
    decreases |name|
  {
    if name == [] {
    } else {
      assert mem[p] == mem[p..p + |name|][0] == name[0];
      assert name[0] in name;
      assert mem[p + 1..p + 1 + |name[1..]|] == name[1..];
      CStringOf(mem, p + 1, name[1..]);
    }
  }

  lemma StringAtIs(mem: seq<byte>, p: nat, rest: Name)
    requires StringAt(mem, p, rest, 0)
    ensures CString(mem, p) == rest
  {
    assert mem[p..p + |rest|] == rest;
    CStringOf(mem, p, rest);
  }

  /** strchr for the separator in the C string at p: its position, or None for NULL. */
  method StrchrSep(mem: array<byte>, p: nat, ghost rest: Name) returns (s: Option<nat>)
    requires StringAt(mem[..], p, rest, 0)
    ensures s == if SepFrom(rest, 0) < |rest| then Some(p + SepFrom(rest, 0)) else None
  {
    var i := p;
    while mem[i] != 0
      invariant p <= i <= p + |rest| && SepFrom(rest, i - p) == SepFrom(rest, 0)
      invariant i - p < |rest| ==> mem[i] == rest[i - p]
      decreases mem.Length - i
    {
      if mem[i] == SEP {
        return Some(i);
      }
      i := i + 1;
      assert i - p < |rest| ==> rest[i - p] == mem[..][p + (i - p)];
    }
    return None;
  }

  /** fs_findfile's answer. */
  datatype Status = Success | Failure

  /** How a lookup shows: in the answer, and in the caller's handle. */
  predicate Reports(l: Lookup, st: Status, was: Handle, now: Handle) {
    match l
    case Found(h) => st == Success && now == h
    case NotFound => st == Failure && now == was
    case Unset => st == Success && now == was
  }

  /**
    fs_findfile: the path is copied, cut at each separator in place, and walked with two handles,
    so that no lookup reads and writes the same one.
  */
  method FindFile(r: FatReader.FatReader, dir0: FileHand?, file: FileHand, path: Name) returns (st: Status)
    requires r.Valid() && (dir0 == file ==> path != CURRENT) && 0 !in path
    requires WalkOk(r.disk, r.g, StartDir(r.g, if dir0 == null then None else Some(dir0.h), path), Relative(path))
    modifies r, r.clust, r.rank, r.buf, file
    ensures r.Valid()
    ensures Reports(FindFileSpec(r.disk, r.g, old(if dir0 == null then None else Some(dir0.h)), path),
                    st, old(file.h), file.h)
    ensures st == Success ==> path != [] && (path[|path| - 1] == SEP ==> file.h == old(file.h))
  {
    ghost var start := if dir0 == null then None else Some(dir0.h);
    if !FindFileSpec(r.disk, r.g, start, path).NotFound? {
      FindFileAnswers(r.disk, r.g, start, path);
    }
    var dir := dir0;
    var rel := path;
    if path != [] && path[0] == SEP {
      dir := null;
      rel := path[1..];
    }
    if rel == [] {
      return Failure;
    }
    st := WalkPath(r, dir, file, rel);
  }

  /** Cut the path at the separator and look the component in front of it up (lines 32-36). */
  method LookupCut(r: FatReader.FatReader, dir: FileHand?, into: FileHand, buf: array<byte>, cpath: nat, sep: nat, ghost rest: Name)
    returns (ok: bool)
    requires r.Valid() && dir != into && buf != r.rank
    requires DirOk(r.disk, r.g, Of(r.g, dir))
    requires StringAt(buf[..], cpath, rest, 0) && SepFrom(rest, 0) < |rest| && sep == cpath + SepFrom(rest, 0)
    modifies r, r.clust, r.rank, r.buf, into, buf
    ensures r.Valid()
    ensures StringAt(buf[..], sep + 1, rest[SepFrom(rest, 0) + 1..], 0)
    ensures var f := Find(r.disk, r.g, old(Of(r.g, dir)), rest[..SepFrom(rest, 0)]);
            ok == f.Some? && into.h == if ok then f.value else old(into.h)
  {
    ghost var name := rest[..SepFrom(rest, 0)];
    ghost var was := buf[..];
    buf[sep] := 0;
    assert StringAt(buf[..], cpath, name, 0) by {
      assert forall j :: 0 <= j < |name| ==> name[j] == rest[j] == was[cpath + j];
    }
    StringAtIs(buf[..], cpath, name);
    ok := FsFind(r, dir, into, CString(buf[..], cpath));
    ghost var tail := rest[SepFrom(rest, 0) + 1..];
    forall j | 0 <= j < |tail| ensures tail[j] == buf[..][sep + 1 + j] && tail[j] != 0 {
      assert tail[j] == rest[SepFrom(rest, 0) + 1 + j] == was[cpath + (SepFrom(rest, 0) + 1 + j)];
    }
  }

  method Strdup(path: Name) returns (buf: array<byte>)
    requires 0 !in path
    ensures fresh(buf) && StringAt(buf[..], 0, path, 0)
  {
    buf := new byte[|path| + 1](i requires 0 <= i => if i < |path| then path[i] else 0);
  }

  /** The last component (lines 47-53). */
  method LookupLast(r: FatReader.FatReader, dir: FileHand?, file: FileHand, buf: array<byte>, cpath: nat, ghost rest: Name)
    returns (ok: bool)
    requires r.Valid() && (dir == file ==> rest != CURRENT) && StringAt(buf[..], cpath, rest, 0)
    requires DirOk(r.disk, r.g, Of(r.g, dir))
    modifies r, r.clust, r.rank, r.buf, file
    ensures r.Valid()
    ensures var f := Find(r.disk, r.g, old(Of(r.g, dir)), rest);
            ok == f.Some? && file.h == if ok then f.value else old(file.h)
  {
    StringAtIs(buf[..], cpath, rest);
    ok := FsFind(r, dir, file, CString(buf[..], cpath));
  }

  /** One directory deeper: the component is looked up into tdir2, which then replaces tdir1 (lines 32-46). */
  method Deeper(r: FatReader.FatReader, dir: FileHand?, tdir1: FileHand, tdir2: FileHand, buf: array<byte>,
                cpath: nat, sep: nat, ghost rest: Name)
    returns (ok: bool)
    requires r.Valid() && dir != tdir2 && tdir1 != tdir2 && buf != r.rank
    requires StringAt(buf[..], cpath, rest, 0) && SepFrom(rest, 0) < |rest| && sep == cpath + SepFrom(rest, 0)
    requires WalkOk(r.disk, r.g, Of(r.g, dir), rest)
    modifies r, r.clust, r.rank, r.buf, tdir1, tdir2, buf
    ensures r.Valid()
    ensures StringAt(buf[..], sep + 1, rest[SepFrom(rest, 0) + 1..], 0)
    ensures var all := Walk(r.disk, r.g, old(Of(r.g, dir)), rest);
            if ok then WalkOk(r.disk, r.g, tdir1.h, rest[SepFrom(rest, 0) + 1..])
                       && Walk(r.disk, r.g, tdir1.h, rest[SepFrom(rest, 0) + 1..]) == all
            else all == NotFound
  {
    ok := LookupCut(r, dir, tdir2, buf, cpath, sep, rest);
    if !ok || !tdir2.h.isDir {
      return false;
    }
    tdir1.h := tdir2.h;
  }

  /** Lines 20-66 of fs_findfile. */
  method WalkPath(r: FatReader.FatReader, dir0: FileHand?, file: FileHand, path: Name) returns (st: Status)
    requires r.Valid() && (dir0 == file ==> path != CURRENT) && 0 !in path
    requires WalkOk(r.disk, r.g, Of(r.g, dir0), path)
    modifies r, r.clust, r.rank, r.buf, file
    ensures r.Valid()
    ensures Reports(Walk(r.disk, r.g, old(Of(r.g, dir0)), path),
                    st, old(file.h), file.h)
  {
    var buf := Strdup(path);
    var tdir1 := new FileHand(RootHandle(r.g));
    var tdir2 := new FileHand(RootHandle(r.g));
    st := WalkLoop(r, dir0, file, tdir1, tdir2, buf, path);
  }

  method WalkLoop(r: FatReader.FatReader, dir0: FileHand?, file: FileHand, tdir1: FileHand, tdir2: FileHand,
                  buf: array<byte>, ghost path: Name)
    returns (st: Status)
    requires r.Valid() && (dir0 == file ==> path != CURRENT)
    requires tdir1 != tdir2 && tdir1 != file && tdir2 != file && dir0 != tdir2
    requires buf != r.rank && StringAt(buf[..], 0, path, 0)
    requires WalkOk(r.disk, r.g, Of(r.g, dir0), path)
    modifies r, r.clust, r.rank, r.buf, file, tdir1, tdir2, buf
    ensures r.Valid()
    ensures Reports(Walk(r.disk, r.g, old(Of(r.g, dir0)), path),
                    st, old(file.h), file.h)
  {
    ghost var all := Walk(r.disk, r.g, Of(r.g, dir0), path);
    var dir := dir0;
    var cpath: nat := 0;
    ghost var rest := path;
    while buf[cpath] != 0
      invariant r.Valid() && file.h == old(file.h) && StringAt(buf[..], cpath, rest, 0)
      invariant dir == tdir1 || (dir == dir0 && rest == path)
      invariant WalkOk(r.disk, r.g, Of(r.g, dir), rest)
      invariant Walk(r.disk, r.g, Of(r.g, dir), rest) == all
      decreases |rest|
    {
      var sep := StrchrSep(buf, cpath, rest);
      if sep.None? {
        var ok := LookupLast(r, dir, file, buf, cpath, rest);
        return if ok then Success else Failure;
      }
      var ok := Deeper(r, dir, tdir1, tdir2, buf, cpath, sep.value, rest);
      if !ok {
        return Failure;
      }
      dir, cpath, rest := tdir1, sep.value + 1, rest[SepFrom(rest, 0) + 1..];
      assert StringAt(buf[..], cpath, rest, 0);
    }
    return Success;
  }
}
