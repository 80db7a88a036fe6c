/**
  Loading an ELF image and the modules behind it: _elf_load_phdr (src/exec/fmt/elf.c) and
  _exec_load_modules (src/exec/exec.c).  Memory is an array of bytes that starts at address 0.
  Addresses do not wrap: everything that is placed lies inside the array.
*/
module Loader {
  import opened Wrappers
  import opened Bytes
  import opened Arith

  /** A program header; load is whether its type is PT_LOAD. */
  datatype Phdr = Phdr(load: bool, offset: dword, vaddr: dword, paddr: dword, filesz: dword, memsz: dword)

  /** What the loader changes: memory and the bounds of the loaded image. */
  datatype State = State(mem: Mem, begin: nat, end: nat)

  /** exec_elf_init on a cleared handle. */
  const NO_BEGIN: nat := 0xFFFF_FFFF

  // ---------------------------------------------------------------- segments

  function Extent(p: Phdr): nat { Max(p.filesz, p.memsz) }

  predicate Inside(p: Phdr, size: nat) { p.load ==> p.paddr + Extent(p) <= size }

  predicate AllInside(ps: seq<Phdr>, size: nat) { forall i :: 0 <= i < |ps| ==> Inside(ps[i], size) }

  /** The file holds the bytes of the segment. */
  predicate Readable(p: Phdr, file: Mem) { p.load && p.filesz > 0 ==> p.offset + p.filesz <= |file| }

  function FileBytes(p: Phdr, file: Mem): (r: Mem)
    requires p.load && Readable(p, file)
    ensures |r| == p.filesz
  {
    if p.filesz > 0 then file[p.offset..p.offset + p.filesz] else []
  }

  function ZeroBytes(p: Phdr): (r: Mem)
    ensures |r| == Extent(p) - p.filesz
  {
    Zeros(if p.filesz < p.memsz then p.memsz - p.filesz else 0)
  }

  /** The memory of a segment: file bytes, then zeros. */
  function Fill(p: Phdr, file: Mem): (r: Mem)
    requires p.load && Readable(p, file)
    ensures |r| == Extent(p)
  {
    FileBytes(p, file) + ZeroBytes(p)
  }

  function Place(st: State, p: Phdr, file: Mem): State
    requires p.load && Readable(p, file) && Inside(p, |st.mem|)
  {
    State(Write(st.mem, p.paddr, Fill(p, file)), Min(p.paddr, st.begin), Max(st.end, p.paddr + p.memsz))
  }

  function Load(st: State, ps: seq<Phdr>, file: Mem): Option<State>
    requires AllInside(ps, |st.mem|)
    decreases |ps|
  {
    if ps == [] then Some(st)
    else if !ps[0].load then Load(st, ps[1..], file)
    else if !Readable(ps[0], file) then None
    else Load(Place(st, ps[0], file), ps[1..], file)
  }

  /** The bounds, the segment whose bytes cannot be read included. */
  function BoundsAfter(begin: nat, end: nat, ps: seq<Phdr>, file: Mem): (nat, nat)
    decreases |ps|
  {
    if ps == [] then (begin, end)
    else
      var p := ps[0];
      if !p.load then BoundsAfter(begin, end, ps[1..], file)
      else
        var b, e := Min(p.paddr, begin), Max(end, p.paddr + p.memsz);
        if Readable(p, file) then BoundsAfter(b, e, ps[1..], file) else (b, e)
  }

  // ---------------------------------------------------------------- what a load leaves behind

  /** Address i belongs to the segment. */
  predicate Covers(p: Phdr, i: nat) { p.load && p.paddr <= i < p.paddr + Extent(p) }

  predicate Covered(ps: seq<Phdr>, i: nat) { exists k :: 0 <= k < |ps| && Covers(ps[k], i) }

  predicate Apart(p: Phdr, q: Phdr) {
    p.load && q.load ==> p.paddr + Extent(p) <= q.paddr || q.paddr + Extent(q) <= p.paddr
  }

  predicate Disjoint(ps: seq<Phdr>) { forall i, j :: 0 <= i < j < |ps| ==> Apart(ps[i], ps[j]) }

  /** The load goes through exactly when the file holds every segment. */
  lemma {:induction false} LoadsIff(st: State, ps: seq<Phdr>, file: Mem)
    requires AllInside(ps, |st.mem|)
    ensures Load(st, ps, file).Some? == forall i :: 0 <= i < |ps| ==> Readable(ps[i], file)
    decreases |ps|
  {
    if ps == [] {
    } else {
      assert forall i :: 1 <= i < |ps| ==> ps[i] == ps[1..][i - 1];
      if !ps[0].load {
        LoadsIff(st, ps[1..], file);
      } else if Readable(ps[0], file) {
        LoadsIff(Place(st, ps[0], file), ps[1..], file);
      }
    }
  }

  /** Memory outside the segments is left alone. */
  lemma {:induction false} OutsideUntouched(st: State, ps: seq<Phdr>, file: Mem, i: nat)
    requires AllInside(ps, |st.mem|) && Load(st, ps, file).Some?
    requires i < |st.mem| && !Covered(ps, i)
    ensures |Load(st, ps, file).value.mem| == |st.mem| && Load(st, ps, file).value.mem[i] == st.mem[i]
    decreases |ps|
  {
    if ps == [] {
    } else {
      assert forall k :: 0 <= k < |ps| - 1 ==> ps[1..][k] == ps[k + 1];
      if ps[0].load {
        assert !Covers(ps[0], i);
        OutsideUntouched(Place(st, ps[0], file), ps[1..], file, i);
      } else {
        OutsideUntouched(st, ps[1..], file, i);
      }
    }
  }

  lemma {:induction false} LengthKept(st: State, ps: seq<Phdr>, file: Mem)
    requires AllInside(ps, |st.mem|) && Load(st, ps, file).Some?
    ensures |Load(st, ps, file).value.mem| == |st.mem|
    decreases |ps|
  {
    if ps == [] {
    } else {
      if ps[0].load {
        LengthKept(Place(st, ps[0], file), ps[1..], file);
      } else {
        LengthKept(st, ps[1..], file);
      }
    }
  }

  /** The segment's memory is its file bytes followed by zeros. */
  predicate Holds(m: Mem, p: Phdr, file: Mem) {
    p.load ==>
      && p.paddr + Extent(p) <= |m| && Readable(p, file)
      && (forall a :: p.paddr <= a < p.paddr + p.filesz ==> m[a] == file[p.offset + (a - p.paddr)])
      && (forall a :: p.paddr + p.filesz <= a < p.paddr + p.memsz ==> m[a] == 0)
  }

  lemma FillHolds(m: Mem, p: Phdr, file: Mem)
    requires p.load && Readable(p, file) && p.paddr + Extent(p) <= |m|
    requires forall a :: p.paddr <= a < p.paddr + Extent(p) ==> m[a] == Fill(p, file)[a - p.paddr]
    ensures Holds(m, p, file)
  {
  }

  /** Whatever the order of the headers, pairwise disjoint segments all end up in memory. */
  lemma {:induction false} SegmentsLoaded(st: State, ps: seq<Phdr>, file: Mem, k: nat)
    requires AllInside(ps, |st.mem|) && Load(st, ps, file).Some? && Disjoint(ps) && k < |ps|
    ensures Holds(Load(st, ps, file).value.mem, ps[k], file)
    decreases |ps|
  {
    var rest := ps[1..];
    assert forall i :: 0 <= i < |rest| ==> rest[i] == ps[i + 1];
    if !ps[0].load {
      if k > 0 {
        SegmentsLoaded(st, rest, file, k - 1);
      }
    } else {
      var mid := Place(st, ps[0], file);
      if k > 0 {
        SegmentsLoaded(mid, rest, file, k - 1);
      } else {
        FirstSegmentStays(mid, ps[0], rest, file);
      }
    }
  }

  lemma FirstSegmentStays(mid: State, p: Phdr, rest: seq<Phdr>, file: Mem)
    requires p.load && Readable(p, file) && p.paddr + Extent(p) <= |mid.mem|
    requires forall a :: p.paddr <= a < p.paddr + Extent(p) ==> mid.mem[a] == Fill(p, file)[a - p.paddr]
    requires AllInside(rest, |mid.mem|) && Load(mid, rest, file).Some?
    requires forall i :: 0 <= i < |rest| ==> Apart(p, rest[i])
    ensures Holds(Load(mid, rest, file).value.mem, p, file)
  {
    var m := Load(mid, rest, file).value.mem;
    LengthKept(mid, rest, file);
    forall a | p.paddr <= a < p.paddr + Extent(p)
      ensures m[a] == Fill(p, file)[a - p.paddr]
    {
      assert !Covered(rest, a);
      OutsideUntouched(mid, rest, file, a);
    }
    FillHolds(m, p, file);
  }

  /** b is the least of the start and the segments' first addresses, and e the greatest of the ends. */
  predicate Bounds(b: nat, e: nat, b0: nat, e0: nat, ps: seq<Phdr>) {
    && b <= b0 && e0 <= e
    && (forall i :: 0 <= i < |ps| && ps[i].load ==> b <= ps[i].paddr && ps[i].paddr + ps[i].memsz <= e)
    && (b == b0 || exists i :: 0 <= i < |ps| && ps[i].load && ps[i].paddr == b)
    && (e == e0 || exists i :: 0 <= i < |ps| && ps[i].load && ps[i].paddr + ps[i].memsz == e)
  }

  lemma {:induction false} BoundsExact(st: State, ps: seq<Phdr>, file: Mem)
    requires AllInside(ps, |st.mem|) && Load(st, ps, file).Some?
    ensures var r := Load(st, ps, file).value; Bounds(r.begin, r.end, st.begin, st.end, ps)
    decreases |ps|
  {
    if ps == [] {
    } else {
      var rest := ps[1..];
      assert forall i :: 1 <= i < |ps| ==> ps[i] == rest[i - 1];
      assert forall i :: 0 <= i < |rest| ==> rest[i] == ps[i + 1];
      var p := ps[0];
      BoundsExact(if p.load then Place(st, p, file) else st, rest, file);
    }
  }

  // ---------------------------------------------------------------- the check against the first megabyte

  const ONE_MIB: nat := 0x10_0000

  /** What _elf_phdr_check asks for: virtual addresses at or above 1 MiB. */
  predicate CheckOk(ps: seq<Phdr>) { forall i :: 0 <= i < |ps| && ps[i].load ==> ps[i].vaddr >= ONE_MIB }

  /** _elf_phdr_check */
  method CheckPhdrs(ps: seq<Phdr>) returns (ok: bool)
    ensures ok == CheckOk(ps)
    ensures ok <==> forall i :: 0 <= i < |ps| && ps[i].load ==> ps[i].vaddr >= 0x10_0000
  {
    for i := 0 to |ps|
      invariant forall k :: 0 <= k < i && ps[k].load ==> ps[k].vaddr >= ONE_MIB
    {
      if ps[i].load && ps[i].vaddr < ONE_MIB {
        return false;
      }
    }
    return true;
  }

  /** Whatever the file and the memory, a load changes nothing below 1 MiB. */
  ghost predicate LowKept(ps: seq<Phdr>, size: nat)
    requires AllInside(ps, size)
  {
    forall st: State, file: Mem {:trigger Load(st, ps, file)} ::
      |st.mem| == size && Load(st, ps, file).Some? ==> KeepsBelow(st.mem, Load(st, ps, file).value.mem, ONE_MIB)
  }

  predicate KeepsBelow(m: Mem, m': Mem, limit: nat) {
    |m'| == |m| && forall a :: 0 <= a < limit && a < |m| ==> m'[a] == m[a]
  }

  /** No segment has memory below 1 MiB. */
  predicate NoneLow(ps: seq<Phdr>) {
    forall k :: 0 <= k < |ps| && ps[k].load && Extent(ps[k]) > 0 ==> ps[k].paddr >= ONE_MIB
  }

  /** A file of zeros zeroes everything the segments cover. */
  lemma {:induction false} ZeroLoad(st: State, ps: seq<Phdr>, file: Mem, a: nat)
    requires AllInside(ps, |st.mem|) && Load(st, ps, file).Some? && a < |st.mem|
    requires (forall x :: 0 <= x < |file| ==> file[x] == 0) && (st.mem[a] == 0 || Covered(ps, a))
    ensures |Load(st, ps, file).value.mem| == |st.mem| && Load(st, ps, file).value.mem[a] == 0
    decreases |ps|
  {
    if ps == [] {
    } else {
      var p, rest := ps[0], ps[1..];
      var next := if p.load then Place(st, p, file) else st;
      if st.mem[a] != 0 && !Covers(p, a) {
        var k :| 0 <= k < |ps| && Covers(ps[k], a);
        assert rest[k - 1] == ps[k];
      }
      ZeroLoad(next, rest, file, a);
    }
  }

  /** Loads leave the first megabyte alone if and only if no physical address points into it, checked or not. */
  lemma LowExact(ps: seq<Phdr>, size: nat)
    requires AllInside(ps, size)
    ensures LowKept(ps, size) <==> NoneLow(ps)
  {
    if NoneLow(ps) {
      forall st: State, file: Mem | |st.mem| == size && Load(st, ps, file).Some?
        ensures KeepsBelow(st.mem, Load(st, ps, file).value.mem, ONE_MIB)
      {
        LengthKept(st, ps, file);
        forall a | 0 <= a < ONE_MIB && a < size
          ensures Load(st, ps, file).value.mem[a] == st.mem[a]
        {
          OutsideUntouched(st, ps, file, a);
        }
      }
    } else {
      var k :| 0 <= k < |ps| && ps[k].load && Extent(ps[k]) > 0 && ps[k].paddr < ONE_MIB;
      var a := ps[k].paddr;
      var st := State(seq(size, i => 1), NO_BEGIN, 0);
      var file := Zeros(0x2_0000_0000);
      LoadsIff(st, ps, file);
      assert Covers(ps[k], a);
      ZeroLoad(st, ps, file, a);
      assert !KeepsBelow(st.mem, Load(st, ps, file).value.mem, ONE_MIB);
    }
  }

  /** The check is enough when segments are linked where they are loaded. */
  lemma CheckEnough(ps: seq<Phdr>, size: nat)
    requires AllInside(ps, size) && CheckOk(ps)
    requires forall k :: 0 <= k < |ps| && ps[k].load ==> ps[k].paddr == ps[k].vaddr
    ensures LowKept(ps, size)
  {
    LowExact(ps, size);
  }

  /** Otherwise it is not: this header of a kernel linked high passes, and its load reaches down to 4 KiB. */
  lemma CheckMisses(size: nat)
    requires size >= ONE_MIB
    ensures var ps := [Phdr(true, 0, 0xC000_1000, 0x1000, 1, 1)];
      CheckOk(ps) && AllInside(ps, size) && !LowKept(ps, size)
  {
    var ps := [Phdr(true, 0, 0xC000_1000, 0x1000, 1, 1)];
    LowExact(ps, size);
    assert !NoneLow(ps) by {
      assert ps[0].load && Extent(ps[0]) > 0 && ps[0].paddr < ONE_MIB;
    }
  }

  // ---------------------------------------------------------------- modules

  /** What opening a module's path gives; the size is the directory entry's, the data what can be read. */
  datatype ModFile = NotFound | Found(size: nat, data: Mem)

  predicate Usable(f: ModFile) { f.Found? && f.size <= |f.data| }

  /** The ALIGN macro, whose two arms are the wrong way round. */
  function Align(p: nat, a: nat): (r: nat)
    requires a > 0
    ensures r >= p
  {
    if p % a != 0 then p else p + (a - p % a)
  }

  /** So it moves only addresses that are aligned already, and aligns none. */
  lemma AlignNeverAligns(p: nat, a: nat)
    requires a > 0
    ensures Align(p, a) % a == 0 <==> p % a == 0
    ensures p % a == 0 ==> Align(p, a) == p + a
  {
    if p % a == 0 {
      assert p == (p / a) * a;
      DivModUnique(p + a, p / a + 1, a, 0);
    }
  }

  /** Memory and the addresses given to the modules. */
  datatype Placed = Placed(mem: Mem, addrs: seq<nat>)

  /** All modules fit below the end of memory. */
  predicate Fits(addr: nat, fs: seq<ModFile>, size: nat)
    decreases |fs|
  {
    fs == [] || fs[0].NotFound?
    || (&& Align(addr, 8) + fs[0].size <= size
        && (Usable(fs[0]) ==> Fits(Align(addr, 8) + fs[0].size, fs[1..], size)))
  }

  function PlaceModules(mem: Mem, addr: nat, fs: seq<ModFile>): Option<Placed>
    requires Fits(addr, fs, |mem|)
    decreases |fs|
  {
    if fs == [] then Some(Placed(mem, []))
    else if !Usable(fs[0]) then None
    else
      var at := Align(addr, 8);
      match PlaceModules(Write(mem, at, fs[0].data[..fs[0].size]), at + fs[0].size, fs[1..])
      case None => None
      case Some(p) => Some(Placed(p.mem, [at] + p.addrs))
  }

  lemma {:induction false} ModulesIff(mem: Mem, addr: nat, fs: seq<ModFile>)
    requires Fits(addr, fs, |mem|)
    ensures PlaceModules(mem, addr, fs).Some? == forall i :: 0 <= i < |fs| ==> Usable(fs[i])
    decreases |fs|
  {
    if fs == [] {
    } else {
      assert forall i :: 1 <= i < |fs| ==> fs[i] == fs[1..][i - 1];
      if Usable(fs[0]) {
        var at := Align(addr, 8);
        ModulesIff(Write(mem, at, fs[0].data[..fs[0].size]), at + fs[0].size, fs[1..]);
      }
    }
  }

  /** Every module lies where its record says, behind the one before, and nothing below the first one's place changes. */
  predicate Stacked(mem: Mem, addr: nat, fs: seq<ModFile>, p: Placed) {
    && |p.mem| == |mem| && |p.addrs| == |fs| && addr <= |mem|
    && (forall a :: 0 <= a < Align(addr, 8) && a < |mem| ==> p.mem[a] == mem[a])
    && (forall i :: 0 <= i < |fs| ==> ModuleThere(addr, fs[i], p, i))
    && (forall i, j :: 0 <= i < j < |fs| ==> p.addrs[i] + fs[i].size <= p.addrs[j])
  }

  predicate ModuleThere(addr: nat, f: ModFile, p: Placed, i: nat)
    requires i < |p.addrs|
  {
    && Usable(f) && Align(addr, 8) <= p.addrs[i] && p.addrs[i] + f.size <= |p.mem|
    && p.mem[p.addrs[i]..p.addrs[i] + f.size] == f.data[..f.size]
  }

  lemma {:induction false} ModulesStacked(mem: Mem, addr: nat, fs: seq<ModFile>)
    requires Fits(addr, fs, |mem|) && addr <= |mem| && PlaceModules(mem, addr, fs).Some?
    ensures Stacked(mem, addr, fs, PlaceModules(mem, addr, fs).value)
    decreases |fs|
  {
    if fs == [] {
    } else {
      var f, rest, at := fs[0], fs[1..], Align(addr, 8);
      var mid := Write(mem, at, f.data[..f.size]);
      ModulesStacked(mid, at + f.size, rest);
      StackOnTop(mem, addr, at, fs, mid, PlaceModules(mid, at + f.size, rest).value, PlaceModules(mem, addr, fs).value);
    }
  }

  /** Where each module goes: eight bytes behind the end of what is before it if that is a multiple of eight, else right there. */
  lemma {:induction false} ModuleAddresses(mem: Mem, addr: nat, fs: seq<ModFile>, i: nat)
    requires Fits(addr, fs, |mem|) && PlaceModules(mem, addr, fs).Some? && i < |fs|
    ensures var p := PlaceModules(mem, addr, fs).value;
      |p.addrs| == |fs| && fs[i].Found?
      && var end := if i == 0 then addr else p.addrs[i - 1] + ModSize(fs[i - 1]);
         p.addrs[i] == if end % 8 == 0 then end + 8 else end
    decreases |fs|
  {
    var f, rest, at := fs[0], fs[1..], Align(addr, 8);
    var mid := Write(mem, at, f.data[..f.size]);
    AlignNeverAligns(addr, 8);
    if rest == [] {
    } else {
      ModuleAddresses(mid, at + f.size, rest, if i > 0 then i - 1 else 0);
      var q := PlaceModules(mid, at + f.size, rest).value;
      assert PlaceModules(mem, addr, fs).value.addrs == [at] + q.addrs;
    }
  }

  function ModSize(f: ModFile): nat { if f.Found? then f.size else 0 }

  lemma StackOnTop(mem: Mem, addr: nat, at: nat, fs: seq<ModFile>, mid: Mem, q: Placed, p: Placed)
    requires fs != [] && Usable(fs[0]) && at == Align(addr, 8) && at + fs[0].size <= |mem|
    requires mid == Write(mem, at, fs[0].data[..fs[0].size])
    requires Stacked(mid, at + fs[0].size, fs[1..], q) && p == Placed(q.mem, [at] + q.addrs)
    ensures Stacked(mem, addr, fs, p)
  {
    FirstThere(mem, addr, at, fs[0], mid, q, p, fs[1..]);
    forall i | 0 <= i < |fs|
      ensures ModuleThere(addr, fs[i], p, i)
    {
      if i > 0 {
        LaterThere(addr, at, fs, mid, q, p, i);
      }
    }
    forall i, j | 0 <= i < j < |fs|
      ensures p.addrs[i] + fs[i].size <= p.addrs[j]
    {
      LaterThere(addr, at, fs, mid, q, p, j);
      if i > 0 {
        assert fs[i] == fs[1..][i - 1] && fs[j] == fs[1..][j - 1];
      }
    }
  }

  lemma FirstThere(mem: Mem, addr: nat, at: nat, f: ModFile, mid: Mem, q: Placed, p: Placed, rest: seq<ModFile>)
    requires Usable(f) && at == Align(addr, 8) && at + f.size <= |mem| && mid == Write(mem, at, f.data[..f.size])
    requires Stacked(mid, at + f.size, rest, q) && p == Placed(q.mem, [at] + q.addrs)
    ensures ModuleThere(addr, f, p, 0) && forall a :: 0 <= a < at ==> p.mem[a] == mem[a]
  {
    assert p.mem[at..at + f.size] == f.data[..f.size];
  }

  lemma LaterThere(addr: nat, at: nat, fs: seq<ModFile>, mid: Mem, q: Placed, p: Placed, i: nat)
    requires fs != [] && Usable(fs[0]) && at == Align(addr, 8)
    requires Stacked(mid, at + fs[0].size, fs[1..], q) && p == Placed(q.mem, [at] + q.addrs)
    requires 0 < i < |fs|
    ensures ModuleThere(addr, fs[i], p, i) && at + fs[0].size <= p.addrs[i]
  {
    assert fs[i] == fs[1..][i - 1] && ModuleThere(at + fs[0].size, fs[1..][i - 1], q, i - 1);
  }

  // ---------------------------------------------------------------- image and modules together

  /** No segment reaches the place of the first module. */
  predicate Below(ps: seq<Phdr>, end: nat) {
    forall k :: 0 <= k < |ps| && ps[k].load ==> ps[k].paddr + Extent(ps[k]) <= Align(end, 8)
  }

  /** Segments no larger in the file than in memory end at data_end at the latest. */
  lemma FilesFitMemory(st: State, ps: seq<Phdr>, file: Mem)
    requires AllInside(ps, |st.mem|) && Load(st, ps, file).Some?
    requires forall k :: 0 <= k < |ps| && ps[k].load ==> ps[k].filesz <= ps[k].memsz
    ensures Below(ps, Load(st, ps, file).value.end)
  {
    BoundsExact(st, ps, file);
  }

  /**
    After the image and then the modules are loaded, every segment and every module is in memory, and
    all of their ranges are apart.
  */
  lemma EverythingLoaded(st: State, ps: seq<Phdr>, file: Mem, fs: seq<ModFile>)
    requires AllInside(ps, |st.mem|) && Load(st, ps, file).Some? && Disjoint(ps)
    requires var r := Load(st, ps, file).value;
      Below(ps, r.end) && r.end <= |r.mem| && Fits(r.end, fs, |r.mem|) && PlaceModules(r.mem, r.end, fs).Some?
    ensures var r := Load(st, ps, file).value; var p := PlaceModules(r.mem, r.end, fs).value;
      && (forall k :: 0 <= k < |ps| ==> Holds(p.mem, ps[k], file))
      && Stacked(r.mem, r.end, fs, p)
      && (forall k, i :: 0 <= k < |ps| && ps[k].load && 0 <= i < |fs|
           ==> ps[k].paddr + Extent(ps[k]) <= p.addrs[i])
  {
    var r := Load(st, ps, file).value;
    var p := PlaceModules(r.mem, r.end, fs).value;
    ModulesStacked(r.mem, r.end, fs);
    forall k | 0 <= k < |ps|
      ensures Holds(p.mem, ps[k], file)
    {
      SegmentsLoaded(st, ps, file, k);
    }
    forall k, i | 0 <= k < |ps| && ps[k].load && 0 <= i < |fs|
      ensures ps[k].paddr + Extent(ps[k]) <= p.addrs[i]
    {
      assert ModuleThere(r.end, fs[i], p, i);
    }
  }

  /** Whatever modules are placed behind end, the segments stay as they are. */
  ghost predicate Harmless(mem: Mem, end: nat, ps: seq<Phdr>, file: Mem) {
    forall fs: seq<ModFile> {:trigger PlaceModules(mem, end, fs)} ::
      Fits(end, fs, |mem|) && PlaceModules(mem, end, fs).Some? ==>
        forall k :: 0 <= k < |ps| ==> Holds(PlaceModules(mem, end, fs).value.mem, ps[k], file)
  }

  /** The module that changes every byte from its place up to address last. */
  function Spoiler(mem: Mem, at: nat, last: nat): (f: ModFile)
    requires at <= last < |mem|
    ensures Usable(f) && f.size == last - at + 1 && f.data[last - at] != mem[last]
  {
    Found(last - at + 1, seq(last - at + 1, i requires 0 <= i < last - at + 1 => (mem[at + i] as int + 1) % 256))
  }

  lemma SpoilerSpoils(mem: Mem, end: nat, p: Phdr, file: Mem)
    requires p.load && Holds(mem, p, file) && p.filesz > p.memsz
    requires end <= |mem| && p.paddr + Extent(p) > Align(end, 8)
    ensures var fs := [Spoiler(mem, Align(end, 8), p.paddr + p.filesz - 1)];
      Fits(end, fs, |mem|) && PlaceModules(mem, end, fs).Some? && !Holds(PlaceModules(mem, end, fs).value.mem, p, file)
  {
    var at, last: nat := Align(end, 8), p.paddr + p.filesz - 1;
    var f := Spoiler(mem, at, last);
    assert [f][1..] == [];
    var m := Write(mem, at, f.data[..f.size]);
    assert PlaceModules(m, at + f.size, []) == Some(Placed(m, []));
    assert PlaceModules(mem, end, [f]).value.mem == m;
    assert m[last] == f.data[last - at] != mem[last] == file[p.offset + (last - p.paddr)];
  }

  lemma BelowIsHarmless(st: State, ps: seq<Phdr>, file: Mem)
    requires AllInside(ps, |st.mem|) && Load(st, ps, file).Some? && Disjoint(ps)
    requires var r := Load(st, ps, file).value; r.end <= |r.mem| && Below(ps, r.end)
    ensures var r := Load(st, ps, file).value; Harmless(r.mem, r.end, ps, file)
  {
    var r := Load(st, ps, file).value;
    forall fs: seq<ModFile> | Fits(r.end, fs, |r.mem|) && PlaceModules(r.mem, r.end, fs).Some?
      ensures forall k :: 0 <= k < |ps| ==> Holds(PlaceModules(r.mem, r.end, fs).value.mem, ps[k], file)
    {
      EverythingLoaded(st, ps, file, fs);
    }
  }

  lemma ReachingIsHarmed(mem: Mem, end: nat, ps: seq<Phdr>, file: Mem, k: nat)
    requires k < |ps| && ps[k].load && Holds(mem, ps[k], file) && ps[k].filesz > ps[k].memsz
    requires end <= |mem| && ps[k].paddr + Extent(ps[k]) > Align(end, 8)
    ensures !Harmless(mem, end, ps, file)
  {
    SpoilerSpoils(mem, end, ps[k], file);
    assert PlaceModules(mem, end, [Spoiler(mem, Align(end, 8), ps[k].paddr + ps[k].filesz - 1)]).Some?;
  }

  /** Modules leave a loaded image alone, whatever they are, if and only if no segment reaches their place. */
  lemma HarmlessExact(st: State, ps: seq<Phdr>, file: Mem)
    requires AllInside(ps, |st.mem|) && Load(st, ps, file).Some? && Disjoint(ps)
    requires Load(st, ps, file).value.end <= |Load(st, ps, file).value.mem|
    ensures var r := Load(st, ps, file).value; Harmless(r.mem, r.end, ps, file) <==> Below(ps, r.end)
  {
    var r := Load(st, ps, file).value;
    if Below(ps, r.end) {
      BelowIsHarmless(st, ps, file);
    } else {
      var k :| 0 <= k < |ps| && ps[k].load && ps[k].paddr + Extent(ps[k]) > Align(r.end, 8);
      SegmentsLoaded(st, ps, file, k);
      BoundsExact(st, ps, file);
      ReachingIsHarmed(r.mem, r.end, ps, file, k);
    }
  }

  // ---------------------------------------------------------------- the loading loops

  /** exec_hand_t, as far as loading changes it, with the memory it loads into. */
  class Exec {
    const mem: array<byte>
    var dataBegin: nat
    var dataEnd: nat

    constructor (mem: array<byte>)
      ensures this.mem == mem && dataBegin == NO_BEGIN && dataEnd == 0
    {
      this.mem, dataBegin, dataEnd := mem, NO_BEGIN, 0;
    }

    ghost function Value(): State
      reads this, mem
    {
      State(mem[..], dataBegin, dataEnd)
    }

    /** A file read into memory: all of it, or an error and what there is of it. */
    method Read(data: Mem, at: nat, size: nat, off: nat) returns (ok: bool)
      requires at + size <= mem.Length
      modifies mem
      ensures ok == (off + size <= |data|)
      ensures ok ==> mem[..] == Write(old(mem[..]), at, data[off..off + size])
      ensures forall i :: 0 <= i < mem.Length && !(at <= i < at + size) ==> mem[i] == old(mem[i])
    {
      ok := off + size <= |data|;
      var there: nat := if ok then size else if off <= |data| then |data| - off else 0;
      forall i | 0 <= i < there {
        mem[at + i] := data[off + i];
      }
    }

    /** memset with zero */
    method Clear(at: nat, size: nat)
      requires at + size <= mem.Length
      modifies mem
      ensures mem[..] == Write(old(mem[..]), at, Zeros(size))
    {
      forall i | 0 <= i < size {
        mem[at + i] := 0;
      }
    }

    /** The bytes that come from the file. */
    method FillFile(p: Phdr, file: Mem) returns (ok: bool)
      requires p.load && Inside(p, mem.Length)
      modifies mem
      ensures ok == Readable(p, file)
      ensures ok ==> mem[..] == Write(old(mem[..]), p.paddr, FileBytes(p, file))
      ensures forall i :: 0 <= i < mem.Length && !Covers(p, i) ==> mem[i] == old(mem[i])
    {
      NothingWritten(mem[..], p.paddr);
      ok := true;
      if p.filesz > 0 {
        ok := Read(file, p.paddr, p.filesz, p.offset);
      }
    }

    /** The zeros behind them. */
    method FillZeros(p: Phdr)
      requires Inside(p, mem.Length) && p.load
      modifies mem
      ensures mem[..] == Write(old(mem[..]), p.paddr + p.filesz, ZeroBytes(p))
    {
      NothingWritten(mem[..], p.paddr + p.filesz);
      if p.filesz < p.memsz {
        Clear(p.paddr + p.filesz, p.memsz - p.filesz);
      }
    }

    /** The bytes of a segment. */
    method FillSegment(p: Phdr, file: Mem) returns (ok: bool)
      requires p.load && Inside(p, mem.Length)
      modifies mem
      ensures ok == Readable(p, file)
      ensures ok ==> mem[..] == Write(old(mem[..]), p.paddr, Fill(p, file))
      ensures forall i :: 0 <= i < mem.Length && !Covers(p, i) ==> mem[i] == old(mem[i])
    {
      ok := FillFile(p, file);
      if ok {
        WriteJoin(old(mem[..]), p.paddr, FileBytes(p, file), ZeroBytes(p));
        FillZeros(p);
      }
    }

    /** The body of the loop for a loadable segment. */
    method LoadSegment(p: Phdr, file: Mem) returns (ok: bool)
      requires p.load && Inside(p, mem.Length)
      modifies this, mem
      ensures ok == Readable(p, file)
      ensures ok ==> Value() == Place(old(Value()), p, file)
      ensures (dataBegin, dataEnd) == (Min(p.paddr, old(dataBegin)), Max(old(dataEnd), p.paddr + p.memsz))
      ensures forall i :: 0 <= i < mem.Length && !Covers(p, i) ==> mem[i] == old(mem[i])
    {
      if p.paddr < dataBegin {
        dataBegin := p.paddr;
      }
      if p.paddr + p.memsz > dataEnd {
        dataEnd := p.paddr + p.memsz;
      }
      ok := FillSegment(p, file);
    }

    /** _elf_load_phdr */
    method LoadPhdrs(ps: seq<Phdr>, file: Mem) returns (ok: bool)
      requires AllInside(ps, mem.Length)
      modifies this, mem
      ensures Load(old(Value()), ps, file) == if ok then Some(Value()) else None
      ensures (dataBegin, dataEnd) == BoundsAfter(old(dataBegin), old(dataEnd), ps, file)
      ensures forall i :: 0 <= i < mem.Length && !Covered(ps, i) ==> mem[i] == old(mem[i])
    {
      ghost var goal := Load(Value(), ps, file);
      ghost var bounds := BoundsAfter(dataBegin, dataEnd, ps, file);
      var i: nat := 0;
      while i < |ps|
        invariant i <= |ps| && AllInside(ps[i..], mem.Length) && Load(Value(), ps[i..], file) == goal
        invariant BoundsAfter(dataBegin, dataEnd, ps[i..], file) == bounds
        invariant forall x :: 0 <= x < mem.Length && !Covered(ps, x) ==> mem[x] == old(mem[x])
      {
        assert ps[i..][1..] == ps[i + 1..];
        if ps[i].load {
          ok := LoadSegment(ps[i], file);
          if !ok {
            return;
          }
        }
        i := i + 1;
      }
      return true;
    }

    /** One module (lines 75-95). */
    method LoadModule(f: ModFile, addr: nat) returns (ok: bool, at: nat)
      requires f.Found? ==> Align(addr, 8) + f.size <= mem.Length
      modifies mem
      ensures ok == Usable(f) && at == Align(addr, 8)
      ensures ok ==> mem[..] == Write(old(mem[..]), at, f.data[..f.size])
      ensures forall i :: 0 <= i < mem.Length && i < at ==> mem[i] == old(mem[i])
    {
      at := Align(addr, 8);
      if f.NotFound? {
        return false, at;
      }
      ok := Read(f.data, at, f.size, 0);
      assert ok ==> f.data[0..f.size] == f.data[..f.size];
    }

    /** _exec_load_modules; the addresses are those stored in the module records. */
    method LoadModules(fs: seq<ModFile>) returns (ok: bool, addrs: seq<nat>)
      requires Fits(dataEnd, fs, mem.Length)
      modifies mem
      ensures PlaceModules(old(mem[..]), dataEnd, fs) == if ok then Some(Placed(mem[..], addrs)) else None
      ensures forall i :: 0 <= i < mem.Length && i < dataEnd ==> mem[i] == old(mem[i])
    {
      ghost var goal := PlaceModules(mem[..], dataEnd, fs);
      var addr: nat := dataEnd;
      addrs := [];
      var i: nat := 0;
      ghost var rest := fs;
      OntoNothing(goal);
      while i < |fs|
        invariant i <= |fs| && rest == fs[i..] && Fits(addr, rest, mem.Length)
        invariant goal == Onto(addrs, PlaceModules(mem[..], addr, rest))
        invariant dataEnd <= addr && forall x :: 0 <= x < mem.Length && x < dataEnd ==> mem[x] == old(mem[x])
      {
        OntoStep(addrs, mem[..], addr, rest);
        assert rest[1..] == fs[i + 1..];
        var at;
        ok, at := LoadModule(fs[i], addr);
        if !ok {
          return;
        }
        addrs := addrs + [at];
        addr := at + fs[i].size;
        rest := rest[1..];
        i := i + 1;
      }
      assert addrs + [] == addrs;
      return true, addrs;
    }
  }

  /** The rest of a placement behind the addresses given so far. */
  function Onto(addrs: seq<nat>, rest: Option<Placed>): Option<Placed> {
    if rest.None? then None else Some(Placed(rest.value.mem, addrs + rest.value.addrs))
  }

  lemma OntoNothing(rest: Option<Placed>)
    ensures Onto([], rest) == rest
  {
    if rest.Some? {
      assert [] + rest.value.addrs == rest.value.addrs;
    }
  }

  lemma OntoStep(addrs: seq<nat>, mem: Mem, addr: nat, fs: seq<ModFile>)
    requires fs != [] && Fits(addr, fs, |mem|)
    ensures var at := Align(addr, 8);
      Onto(addrs, PlaceModules(mem, addr, fs))
        == if !Usable(fs[0]) then None
           else Onto(addrs + [at],
                     PlaceModules(Write(mem, at, fs[0].data[..fs[0].size]), at + fs[0].size, fs[1..]))
  {
    if Usable(fs[0]) {
      var at := Align(addr, 8);
      var r := PlaceModules(Write(mem, at, fs[0].data[..fs[0].size]), at + fs[0].size, fs[1..]);
      if r.Some? {
        assert addrs + ([at] + r.value.addrs) == (addrs + [at]) + r.value.addrs;
      }
    }
  }

  lemma NothingWritten(m: Mem, at: nat)
    requires at <= |m|
    ensures Write(m, at, []) == m
  {
  }

  lemma WriteJoin(m: Mem, at: nat, s: Mem, t: Mem)
    requires at + |s| + |t| <= |m|
    ensures Write(Write(m, at, s), at + |s|, t) == Write(m, at, s + t)
  {
  }
}
