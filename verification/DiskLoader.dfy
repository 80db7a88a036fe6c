/** The ELF loader (src/exec/fmt/elf.c) on top of the FAT file read (src/storage/fs/fat.c), whose result is right only for straight reads. */
module DiskLoader {
  import opened Wrappers
  import opened Bytes
  import opened Arith
  import opened Fat12
  import FatFile
  import opened Loader

  /** An open file: its first cluster and its size. */
  datatype Handle = Handle(first: nat, size: nat)

  ghost predicate HandleOk(d: Disk, g: Geometry, f: Handle) { DiskOk(d, g) && ClusterOk(g, f.first) && f.first != 0 }

  /** The file's clusters hold these bytes. */
  ghost predicate Holding(d: Disk, g: Geometry, f: Handle, file: Mem)
    requires HandleOk(d, g, f)
  {
    |file| == f.size && forall x :: 0 <= x < |file| ==> FatFile.IsByte(d, g, f.first, x, file[x])
  }

  /** _fat_file_read into memory; None when it fails or stops the machine for reading behind the end. */
  function ReadInto(d: Disk, g: Geometry, f: Handle, mem: Mem, at: nat, sz: nat, off: nat): (r: Option<Mem>)
    requires DiskOk(d, g) && ClusterOk(g, f.first) && at + sz <= |mem|
    ensures r.Some? ==> |r.value| == |mem|
  {
    if off + sz > f.size then None
    else
      var part := FatFile.Read(d, g, mem[at..at + sz], f.first, sz, off);
      if part.None? || |part.value| != sz then None else Some(Write(mem, at, part.value))
  }

  /** One segment read from the disk. */
  function PlaceRead(d: Disk, g: Geometry, f: Handle, st: State, p: Phdr): (r: Option<State>)
    requires DiskOk(d, g) && ClusterOk(g, f.first) && p.load && Inside(p, |st.mem|)
    ensures r.Some? ==> |r.value.mem| == |st.mem|
  {
    var m := if p.filesz > 0 then ReadInto(d, g, f, st.mem, p.paddr, p.filesz, p.offset) else Some(st.mem);
    if m.None? then None
    else Some(State(Write(m.value, p.paddr + p.filesz, ZeroBytes(p)), Min(p.paddr, st.begin), Max(st.end, p.paddr + p.memsz)))
  }

  function LoadRead(d: Disk, g: Geometry, f: Handle, st: State, ps: seq<Phdr>): Option<State>
    requires DiskOk(d, g) && ClusterOk(g, f.first) && AllInside(ps, |st.mem|)
    decreases |ps|
  {
    if ps == [] then Some(st)
    else if !ps[0].load then LoadRead(d, g, f, st, ps[1..])
    else
      var r := PlaceRead(d, g, f, st, ps[0]);
      if r.None? then None else LoadRead(d, g, f, r.value, ps[1..])
  }

  // ---------------------------------------------------------------- straight reads are the file's bytes

  lemma ByteInCluster(cs: nat, sz: nat, off: nat, k: nat) returns (x: nat)
    requires cs > 0 && sz > 0 && off / cs <= k <= (off + sz - 1) / cs
    ensures off <= x < off + sz && x / cs == k
  {
    DivModId(off, cs);
    DivModId(off + sz - 1, cs);
    if k == off / cs {
      x := off;
    } else {
      x := k * cs;
      DivModUnique(x, k, cs, 0);
      MulMonotone(off / cs, k, cs);
      MulMonotone(k, (off + sz - 1) / cs, cs);
    }
  }

  lemma LongEnough(d: Disk, g: Geometry, f: Handle, file: Mem, sz: nat, off: nat, k: nat)
    requires HandleOk(d, g, f) && Holding(d, g, f, file) && sz > 0 && off + sz <= |file|
    requires off / g.clusterSize <= k <= FatFile.LastOf(g, sz, off)
    ensures FatFile.Has(d, g, f.first, k)
  {
    var x := ByteInCluster(g.clusterSize, sz, off, k);
    assert FatFile.IsByte(d, g, f.first, x, file[x]);
  }

  lemma SameBytes(d: Disk, g: Geometry, f: Handle, file: Mem, buf: Mem, r: Mem, sz: nat, off: nat)
    requires HandleOk(d, g, f) && Holding(d, g, f, file) && off + sz <= |file| && |buf| == sz
    requires FatFile.Delivers(d, g, f.first, buf, r, sz, 0, off)
    ensures r == file[off..off + sz]
  {
    forall i | 0 <= i < sz
      ensures r[i] == file[off + i]
    {
      assert FatFile.IsByte(d, g, f.first, off + i - 0, r[i]);
      assert FatFile.IsByte(d, g, f.first, off + i, file[off + i]);
    }
  }

  lemma StraightPart(d: Disk, g: Geometry, f: Handle, file: Mem, buf: Mem, sz: nat, off: nat)
    requires HandleOk(d, g, f) && Holding(d, g, f, file) && |buf| == sz > 0 && off + sz <= |file|
    requires FatFile.Straight(g.clusterSize, sz, off)
    ensures FatFile.Read(d, g, buf, f.first, sz, off) == Some(file[off..off + sz])
  {
    forall k | off / g.clusterSize <= k <= FatFile.LastOf(g, sz, off)
      ensures FatFile.Has(d, g, f.first, k)
    {
      LongEnough(d, g, f, file, sz, off, k);
    }
    FatFile.ReadStraight(d, g, buf, f.first, sz, off);
    SameBytes(d, g, f, file, buf, FatFile.Read(d, g, buf, f.first, sz, off).value, sz, off);
  }

  /** A straight read delivers the file's bytes, or fails when they are not all there. */
  lemma StraightRead(d: Disk, g: Geometry, f: Handle, file: Mem, mem: Mem, at: nat, sz: nat, off: nat)
    requires HandleOk(d, g, f) && Holding(d, g, f, file) && at + sz <= |mem| && sz > 0
    requires FatFile.Straight(g.clusterSize, sz, off)
    ensures ReadInto(d, g, f, mem, at, sz, off)
         == if off + sz <= |file| then Some(Write(mem, at, file[off..off + sz])) else None
  {
    if off + sz <= |file| {
      StraightPart(d, g, f, file, mem[at..at + sz], sz, off);
    }
  }

  /** Every segment starts at a cluster boundary of the file, or its file bytes stay inside one cluster. */
  predicate AllStraight(g: Geometry, ps: seq<Phdr>)
    requires g.clusterSize > 0
  {
    forall k :: 0 <= k < |ps| && ps[k].load && ps[k].filesz > 0 ==>
      FatFile.Straight(g.clusterSize, ps[k].filesz, ps[k].offset)
  }

  lemma PlaceStraight(d: Disk, g: Geometry, f: Handle, file: Mem, st: State, p: Phdr)
    requires HandleOk(d, g, f) && Holding(d, g, f, file) && p.load && Inside(p, |st.mem|)
    requires p.filesz > 0 ==> FatFile.Straight(g.clusterSize, p.filesz, p.offset)
    ensures PlaceRead(d, g, f, st, p) == if Readable(p, file) then Some(Place(st, p, file)) else None
  {
    if p.filesz > 0 {
      StraightRead(d, g, f, file, st.mem, p.paddr, p.filesz, p.offset);
    }
    if Readable(p, file) {
      NothingWritten(st.mem, p.paddr);
      WriteJoin(st.mem, p.paddr, FileBytes(p, file), ZeroBytes(p));
    }
  }

  /** With straight segments, loading from the disk is loading the file's bytes. */
  lemma {:induction false} StraightLoad(d: Disk, g: Geometry, f: Handle, file: Mem, st: State, ps: seq<Phdr>)
    requires HandleOk(d, g, f) && Holding(d, g, f, file) && AllInside(ps, |st.mem|) && AllStraight(g, ps)
    ensures LoadRead(d, g, f, st, ps) == Load(st, ps, file)
    decreases |ps|
  {
    if ps == [] {
    } else {
      var rest := ps[1..];
      assert forall k :: 0 <= k < |rest| ==> rest[k] == ps[k + 1];
      if !ps[0].load {
        StraightLoad(d, g, f, file, st, rest);
      } else {
        PlaceStraight(d, g, f, file, st, ps[0]);
        if Readable(ps[0], file) {
          StraightLoad(d, g, f, file, Place(st, ps[0], file), rest);
        }
      }
    }
  }

  /** So pairwise disjoint straight segments all end up in memory as the file's bytes followed by zeros. */
  lemma SegmentsRead(d: Disk, g: Geometry, f: Handle, file: Mem, st: State, ps: seq<Phdr>, k: nat)
    requires HandleOk(d, g, f) && Holding(d, g, f, file) && AllInside(ps, |st.mem|) && AllStraight(g, ps)
    requires LoadRead(d, g, f, st, ps).Some? && Disjoint(ps) && k < |ps|
    ensures Holds(LoadRead(d, g, f, st, ps).value.mem, ps[k], file)
  {
    StraightLoad(d, g, f, file, st, ps);
    SegmentsLoaded(st, ps, file, k);
  }
}
