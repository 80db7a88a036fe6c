/** The tag builder of src/exec/multiboot.c: a cursor moved through a zeroed buffer that is written in place. */
module MultibootBuilder {
  import opened Wrappers
  import opened Bytes
  import opened Multiboot

  /** How many bytes answering takes; a failing memory request has written part of its tag by then. */
  function Need(e: Env, w: Wish): nat
    requires EnvOk(e)
  {
    if w == Request(BASIC_MEMINFO) then 16 else |EncAll(AnswerWish(e, w).tags)|
  }

  /** The preallocation is large enough; the source does not check this. */
  ghost predicate Room(e: Env, ws: seq<Wish>, used: nat)
    requires EnvOk(e)
  {
    ws == [] ||
    (var a := AnswerWish(e, ws[0]);
     && used + Need(e, ws[0]) <= PREALLOC
     && (a.ok ==> Room(e, ws[1..], used + |EncAll(a.tags)|)))
  }

  lemma NeedIsLength(e: Env, w: Wish)
    requires EnvOk(e) && AnswerWish(e, w).ok
    ensures Need(e, w) == |EncAll(AnswerWish(e, w).tags)|
  {
    if w == Request(BASIC_MEMINFO) {
      var tags := AnswerWish(e, w).tags;
      assert tags[1..] == [];
      assert EncAll(tags) == Enc(tags[0]);
    }
  }

  /** For a build that succeeds, room means just that the finished structure fits. */
  lemma {:induction false} RoomIsFit(e: Env, ws: seq<Wish>, used: nat, total: nat)
    requires EnvOk(e) && used <= PREALLOC
    requires Process(e, ws).ok && total == |EncAll(Process(e, ws).tags)|
    ensures Room(e, ws, used) == (used + total <= PREALLOC)
  {
    if ws == [] {
      assert total == 0;
    } else {
      var a, rest := AnswerWish(e, ws[0]), Process(e, ws[1..]);
      assert a.ok && rest.ok && Process(e, ws).tags == a.tags + rest.tags;
      NeedIsLength(e, ws[0]);
      EncAppend(a.tags, rest.tags);
      var n := |EncAll(a.tags)|;
      assert Room(e, ws, used) == (used + n <= PREALLOC && Room(e, ws[1..], used + n));
      if used + n <= PREALLOC {
        RoomIsFit(e, ws[1..], used + n, total - n);
      }
    }
  }

  // ---------------------------------------------------------------- the room a build takes, from what goes in

  function ModuleRoom(ms: seq<Module>, k: nat): nat
    decreases |ms| - k
  {
    if k >= |ms| then 0 else Stride(16 + |ms[k].name| + 1) + ModuleRoom(ms, k + 1)
  }

  function RegionCount(replies: seq<Reply>, k: nat): nat
    decreases |replies| - k
  {
    if k >= |replies| || replies[k].Stop? then 0
    else 1 + if replies[k].More? then RegionCount(replies, k + 1) else 0
  }

  predicate AcpiOldOk(e: Env)
    requires EnvOk(e)
  {
    e.rsdp.Some? && SumsToZero(e.rsdp.value[..20])
  }

  predicate AcpiNewOk(e: Env)
    requires EnvOk(e)
  {
    AcpiOldOk(e) && e.rsdp.value[15] == 2 && SumsToZero(e.rsdp.value[..36])
  }

  /** The bytes that one request takes up. */
  function RequestRoom(e: Env, r: dword): nat
    requires EnvOk(e)
  {
    if r == CMDLINE then if e.cmdline.Some? then Stride(8 + |e.cmdline.value| + 1) else 0
    else if r == BOOTLOADER_NAME then Stride(8 + |LOADER|)
    else if r == MODULE then ModuleRoom(e.modules, 0)
    else if r == BASIC_MEMINFO then 16
    else if r == MMAP then 16 + 24 * RegionCount(e.replies, 0)
    else if r == ACPI_OLD then if AcpiOldOk(e) then 32 else 0
    else if r == ACPI_NEW then if AcpiNewOk(e) then 48 else 0
    else 0
  }

  predicate Honoured(e: Env, w: Wish) { Supported(w) && (w.r == BASIC_MEMINFO ==> e.upper.Some?) }

  /** The bytes for all requests up to the first one that is refused. */
  function RoomFor(e: Env, ws: seq<Wish>): nat
    requires EnvOk(e)
  {
    if ws == [] || !ws[0].Request? then 0
    else RequestRoom(e, ws[0].r) + if Honoured(e, ws[0]) then RoomFor(e, ws[1..]) else 0
  }

  lemma {:induction false} ModuleRoomExact(ms: seq<Module>, k: nat)
    requires k <= |ms|
    ensures |EncAll(ModuleTagsFrom(ms, k))| == ModuleRoom(ms, k)
    decreases |ms| - k
  {
    if k == |ms| {
    } else {
      ModuleRoomExact(ms, k + 1);
      EncCons(ModuleTag(ms[k]), ModuleTagsFrom(ms, k + 1));
    }
  }

  lemma EncCons(t: Tag, tags: seq<Tag>)
    ensures |EncAll([t] + tags)| == Stride(SizeOf(t)) + |EncAll(tags)|
  {
    assert ([t] + tags)[1..] == tags;
  }

  lemma EncOne(t: Tag)
    ensures |EncAll([t])| == Stride(SizeOf(t))
  {
    EncCons(t, []);
    assert [t] + [] == [t];
  }

  lemma {:induction false} RegionRoomExact(replies: seq<Reply>, k: nat)
    requires k <= |replies|
    ensures |RegionsFrom(replies, k)| == 24 * RegionCount(replies, k)
    decreases |replies| - k
  {
    if k == |replies| {
    } else {
      RegionRoomExact(replies, k + 1);
    }
  }

  lemma RequestRoomExact(e: Env, w: Wish)
    requires EnvOk(e)
    ensures Need(e, w) == if w.Request? then RequestRoom(e, w.r) else 0
  {
    if w == Request(MODULE) {
      ModuleRoomExact(e.modules, 0);
    } else if w == Request(MMAP) {
      MmapRoom(e.replies);
    } else if w == Request(ACPI_OLD) || w == Request(ACPI_NEW) {
      AcpiRoom(e, w);
    } else if w == Request(CMDLINE) || w == Request(BOOTLOADER_NAME) {
      TextRoom(e, w);
    }
  }

  lemma MmapRoom(replies: seq<Reply>)
    ensures |EncAll([MmapTag(replies)])| == 16 + 24 * RegionCount(replies, 0)
  {
    RegionRoomExact(replies, 0);
    EncOne(MmapTag(replies));
  }

  lemma TextRoom(e: Env, w: Wish)
    requires EnvOk(e) && (w == Request(CMDLINE) || w == Request(BOOTLOADER_NAME))
    ensures |EncAll(AnswerWish(e, w).tags)| == RequestRoom(e, w.r)
  {
    EncOne(Tag(BOOTLOADER_NAME, LOADER));
    if e.cmdline.Some? {
      EncOne(Tag(CMDLINE, e.cmdline.value + [0]));
    }
  }

  lemma AcpiRoom(e: Env, w: Wish)
    requires EnvOk(e) && (w == Request(ACPI_OLD) || w == Request(ACPI_NEW))
    ensures |EncAll(AnswerWish(e, w).tags)| == RequestRoom(e, w.r)
  {
    if e.rsdp.Some? {
      EncOne(Tag(ACPI_OLD, e.rsdp.value[..20]));
      EncOne(Tag(ACPI_NEW, e.rsdp.value[..36]));
    }
  }

  lemma HonouredExact(e: Env, w: Wish)
    requires EnvOk(e)
    ensures AnswerWish(e, w).ok == Honoured(e, w)
  {
  }

  /** The preallocation is large enough if and only if the sizes of what is asked for add up to no more. */
  lemma {:induction false} RoomExact(e: Env, ws: seq<Wish>, used: nat)
    requires EnvOk(e) && used <= PREALLOC
    ensures Room(e, ws, used) <==> used + RoomFor(e, ws) <= PREALLOC
    decreases |ws|
  {
    if ws == [] {
    } else {
      RequestRoomExact(e, ws[0]);
      HonouredExact(e, ws[0]);
      var a := AnswerWish(e, ws[0]);
      if a.ok {
        NeedIsLength(e, ws[0]);
        if used + |EncAll(a.tags)| <= PREALLOC {
          RoomExact(e, ws[1..], used + |EncAll(a.tags)|);
        }
      }
    }
  }

  /** A command line of 1008 bytes does not fit. */
  lemma LongCommandLine(e: Env, ws: seq<Wish>)
    requires EnvOk(e) && e.cmdline.Some? && |e.cmdline.value| >= 1008 && ws == [Request(CMDLINE)]
    ensures Process(e, ws).ok && |Image(Process(e, ws).tags)| > PREALLOC && !Room(e, ws, 8)
  {
    RoomExact(e, ws, 8);
    EncOne(Process(e, ws).tags[0]);
  }

  lemma ByteSumStep(m: Mem, i: nat)
    requires i < |m|
    ensures (Sum(m[..i]) % 256 + m[i]) % 256 == Sum(m[..i + 1]) % 256
  {
    SumStep(m, i);
  }

  /** The buffer while a tag is being written: header still blank, finished tags, the draft, zeros. */
  function Layout(done: Mem, draft: Mem): (r: Mem)
    requires 8 + |done| + |draft| <= PREALLOC
    ensures |r| == PREALLOC
  {
    Zeros(8) + done + draft + Zeros(PREALLOC - 8 - |done| - |draft|)
  }

  lemma LayoutAt(done: Mem, draft: Mem, i: nat)
    requires 8 + |done| + |draft| <= PREALLOC && i < PREALLOC
    ensures Layout(done, draft)[i] ==
      if i < 8 then 0
      else if i < 8 + |done| then done[i - 8]
      else if i < 8 + |done| + |draft| then draft[i - 8 - |done|]
      else 0
  {
  }

  /** A finished draft turns into a tag: its padding is there already. */
  lemma LayoutFinish(done: Mem, draft: Mem, pad: nat)
    requires 8 + |done| + |draft| + pad <= PREALLOC
    ensures Layout(done, draft) == Layout(done + (draft + Zeros(pad)), [])
  {
    var a, b := Layout(done, draft), Layout(done + (draft + Zeros(pad)), []);
    forall i | 0 <= i < PREALLOC
      ensures a[i] == b[i]
    {
      LayoutAt(done, draft, i);
      LayoutAt(done + (draft + Zeros(pad)), [], i);
    }
  }

  lemma FinishedLayout(done: Mem, p: Mem)
    requires 8 + |done| <= PREALLOC && |p| == 4
    ensures p + Layout(done, [])[4..] == p + Zeros(4) + done + Zeros(PREALLOC - (8 + |done|))
  {
    var a, b := p + Layout(done, [])[4..], p + Zeros(4) + done + Zeros(PREALLOC - (8 + |done|));
    forall i | 0 <= i < PREALLOC
      ensures a[i] == b[i]
    {
      LayoutAt(done, [], i);
    }
  }

  lemma FinishedImage(done: Mem, m: Mem)
    requires 8 + |done| <= PREALLOC && m == Put32(8 + |done|) + Layout(done, [])[4..]
    ensures |ImageOf(done)| <= PREALLOC && m == ImageOf(done) + Zeros(PREALLOC - |ImageOf(done)|)
  {
    var size: dword := 8 + |done|;
    assert size % TWO32 == size;
    assert |ImageOf(done)| == 8 + |done|;
    FinishedLayout(done, Put32(size));
  }

  /** A tag before its padding. */
  function Draft(t: Tag): Mem { Put32(t.typ) + Put32(SizeOf(t) % TWO32) + t.body }

  lemma TagAdded(tags: seq<Tag>, t: Tag)
    ensures EncAll(tags + [t]) == EncAll(tags) + Enc(t)
  {
    EncAppend(tags, [t]);
    assert [t][1..] == [];
    assert EncAll([t]) == Enc(t);
  }

  lemma SizeInPlace(m: Mem, done: Mem, draft: Mem, size: dword)
    requires |draft| >= 8 && 8 + |done| + |draft| <= PREALLOC && m == Layout(done, draft)
    requires draft[4..8] == Put32(size)
    ensures Le32(m, 8 + |done| + 4) == size
  {
    var p, at := Put32(size), 8 + |done| + 4;
    forall i | 0 <= i < 4
      ensures m[at + i] == p[i]
    {
      LayoutAt(done, draft, at + i);
      assert p[i] == draft[4..8][i] == draft[4 + i];
    }
    assert m[at..at + 4] == p;
    Le32At(m, at, size);
  }

  lemma DraftSize(t: Tag)
    requires SizeOf(t) < TWO32
    ensures Draft(t)[4..8] == Put32(SizeOf(t))
  {
  }

  lemma ShortDraft(typ: word, body: Mem)
    requires SizeOf(Tag(typ, body)) < TWO32
    ensures Put16(typ) + Zeros(2) + Put32(8 + |body|) + body == Draft(Tag(typ, body))
  {
    WordIsDword(typ);
  }

  lemma Regroup(a: Mem, b: Mem, c: Mem, d: Mem, f: Mem)
    ensures a + b + c + d + f == a + b + (c + d + f)
  {
  }

  /** The draft of a tag with two words and a tail after its size. */
  lemma LongDraft(t: Tag, c: dword, d: dword, tail: Mem)
    requires SizeOf(t) < TWO32 && t.body == Put32(c) + Put32(d) + tail
    ensures Put32(t.typ) + Put32(SizeOf(t)) + Put32(c) + Put32(d) + tail == Draft(t)
  {
    Regroup(Put32(t.typ), Put32(SizeOf(t)), Put32(c), Put32(d), tail);
  }

  lemma MeminfoDraft(lower: Option<word>, upper: word)
    ensures Put32(BASIC_MEMINFO) + Put32(16) + Put32(if lower.Some? then lower.value else 640) + Put32(upper)
      == Draft(MeminfoTag(lower, upper))
  {
  }

  // ---------------------------------------------------------------- memory map

  /** The memory map tag while it grows: its size word counts the regions so far. */
  function MapDraft(rs: Mem): (r: Mem)
    requires |rs| <= PREALLOC
    ensures |r| == 16 + |rs|
  {
    Put32(MMAP) + Put32(16 + |rs|) + Put32(24) + Put32(0) + rs
  }

  lemma MapDraftSize(rs: Mem, more: Mem)
    requires |rs| <= PREALLOC
    ensures (MapDraft(rs) + more)[4..8] == Put32(16 + |rs|)
  {
  }

  lemma MapDraftGrows(rs: Mem, more: Mem)
    requires |rs| + |more| <= PREALLOC
    ensures var d := MapDraft(rs) + more;
      d[..4] + Put32(16 + |rs| + |more|) + d[8..] == MapDraft(rs + more)
  {
    var d := MapDraft(rs) + more;
    assert d[..4] == Put32(MMAP);
    assert d[8..] == Put32(24) + Put32(0) + (rs + more);
    Regroup(d[..4], Put32(16 + |rs + more|), Put32(24), Put32(0), rs + more);
  }

  lemma MapStarts()
    ensures Put32(MMAP) + Put32(16) + Put32(24) + Put32(0) == MapDraft([])
  {
  }

  lemma MapEnds(replies: seq<Reply>)
    requires |Regions(replies)| <= PREALLOC
    ensures MapDraft(Regions(replies)) == Draft(MmapTag(replies))
  {
    LongDraft(MmapTag(replies), 24, 0, Regions(replies));
  }

  /** One answer moves its region from what is left to what is there. */
  lemma RegionsStep(replies: seq<Reply>, k: nat, rs: Mem)
    requires Ends(replies, k) && !replies[k].Stop?
    ensures |RegionsFrom(replies, k)| >= 24
    ensures var b := RegionBytes(replies[k].region);
      rs + RegionsFrom(replies, k) == if replies[k].More? then (rs + b) + RegionsFrom(replies, k + 1) else rs + b
    ensures replies[k].More? ==> Ends(replies, k + 1)
  {
  }

  /** How far the memory map is: what is there and what is left make up the whole. */
  ghost predicate Progress(replies: seq<Reply>, k: nat, rs: Mem, more: bool) {
    && |rs| <= |Regions(replies)|
    && if more then Ends(replies, k) && |rs| == 24 * k && rs + RegionsFrom(replies, k) == Regions(replies)
       else rs == Regions(replies)
  }

  lemma RegionParts(d: Mem, g: Region)
    ensures d + Put64(g.base) + Put64(g.length) + Put32(MapType(g.typ)) + Zeros(4) == d + RegionBytes(g)
  {
  }

  class Builder {
    const buf: array<byte>
    var next: nat
    ghost var tags: seq<Tag>
    ghost var done: Mem
    ghost var draft: Mem

    /** The finished tags are tied to their bytes. */
    ghost predicate Tied()
      reads this
    {
      done == EncAll(tags)
    }

    /** The buffer holds the finished bytes and the draft. */
    ghost predicate Valid()
      reads this, buf
    {
      && buf.Length == PREALLOC
      && next == 8 + |done|
      && next + |draft| <= PREALLOC
      && buf[..] == Layout(done, draft)
    }

    /** Nothing but finished tags. */
    ghost predicate Ready()
      reads this, buf
    {
      Valid() && draft == [] && Tied()
    }

    constructor ()
      ensures Ready() && fresh(buf) && tags == []
    {
      buf := new byte[PREALLOC](i => 0);
      next, tags, done, draft := 8, [], [], [];
    }

    /** Writes a field of the tag under the cursor. */
    method Put(off: nat, s: Mem)
      requires Valid() && off == |draft| && next + off + |s| <= PREALLOC
      modifies this`draft, buf
      ensures Valid() && draft == old(draft) + s
    {
      ghost var d := draft;
      forall i | 0 <= i < |s| {
        buf[next + off + i] := s[i];
      }
      draft := draft + s;
      forall i | 0 <= i < PREALLOC
        ensures buf[i] == Layout(done, draft)[i]
      {
        LayoutAt(done, d, i);
        LayoutAt(done, draft, i);
      }
    }

    /** Leaves a field as it is: the buffer was zeroed. */
    ghost method Skip(n: nat)
      requires Valid() && next + |draft| + n <= PREALLOC
      modifies this`draft
      ensures Valid() && draft == old(draft) + Zeros(n)
    {
      ghost var d := draft;
      draft := draft + Zeros(n);
      forall i | 0 <= i < PREALLOC
        ensures buf[i] == Layout(done, draft)[i]
      {
        LayoutAt(done, d, i);
        LayoutAt(done, draft, i);
      }
    }

    /** Overwrites the size word of the tag under the cursor. */
    method SetSize(size: dword)
      requires Valid() && |draft| >= 8
      modifies this`draft, buf
      ensures Valid() && draft == old(draft)[..4] + Put32(size) + old(draft)[8..]
    {
      ghost var d := draft;
      var s := Put32(size);
      forall i | 0 <= i < 4 {
        buf[next + 4 + i] := s[i];
      }
      draft := d[..4] + s + d[8..];
      forall i | 0 <= i < PREALLOC
        ensures buf[i] == Layout(done, draft)[i]
      {
        LayoutAt(done, d, i);
        LayoutAt(done, draft, i);
      }
    }

    /** NEXT_TAG: the size is read back from the buffer. */
    method Advance(ghost t: Tag)
      requires Valid() && Tied() && draft == Draft(t) && next + |Enc(t)| <= PREALLOC
      modifies this
      ensures Ready() && tags == old(tags) + [t] && next == old(next) + |Enc(t)|
    {
      DraftSize(t);
      SizeInPlace(buf[..], done, draft, SizeOf(t));
      var size: nat := Le32(buf[..], next + 4);
      var pad := if size % 8 != 0 then 8 - size % 8 else 0;
      next := next + size + pad;
      LayoutFinish(done, draft, pad);
      TagAdded(tags, t);
      tags, done, draft := tags + [t], done + Enc(t), [];
    }

    // -------------------------------------------------------------- tags

    /** A tag whose type is written as 16 bits, the flags after it staying zero. */
    method EmitShort(typ: word, body: Mem)
      requires Ready() && next + |Enc(Tag(typ, body))| <= PREALLOC
      modifies this, buf
      ensures Ready() && tags == old(tags) + [Tag(typ, body)]
    {
      ShortDraft(typ, body);
      Put(0, Put16(typ));
      Skip(2);
      Put(4, Put32(8 + |body|));
      Put(8, body);
      Advance(Tag(typ, body));
    }

    /** Type and size words and the two words after them. */
    method Start(typ: dword, size: dword, c: dword, d: dword)
      requires Ready() && next + 16 <= PREALLOC
      modifies this`draft, buf
      ensures Valid() && draft == Put32(typ) + Put32(size) + Put32(c) + Put32(d)
    {
      Put(0, Put32(typ));
      Put(4, Put32(size));
      Put(8, Put32(c));
      Put(12, Put32(d));
    }

    /** _mboot2_poptag_module */
    method EmitModule(m: Module)
      requires Ready() && next + |Enc(ModuleTag(m))| <= PREALLOC
      modifies this, buf
      ensures Ready() && tags == old(tags) + [ModuleTag(m)] && next == old(next) + |Enc(ModuleTag(m))|
    {
      var end := (m.start + m.size) % TWO32;
      LongDraft(ModuleTag(m), m.start, end, m.name + [0]);
      Start(MODULE, 16 + |m.name| + 1, m.start, end);
      Put(16, m.name + [0]);
      Advance(ModuleTag(m));
    }

    /** _mboot2_poptag_meminfo */
    method EmitMeminfo(lower: Option<word>, upper: Option<word>) returns (ok: bool)
      requires Ready() && next + 16 <= PREALLOC
      modifies this, buf
      ensures ok == upper.Some?
      ensures ok ==> Ready() && tags == old(tags) + [MeminfoTag(lower, upper.value)]
    {
      Put(0, Put32(BASIC_MEMINFO));
      Put(4, Put32(16));
      var low := if lower.Some? then lower.value else 640;
      Put(8, Put32(low));
      if upper.None? {
        return false;
      }
      Put(12, Put32(upper.value));
      MeminfoDraft(lower, upper.value);
      Advance(MeminfoTag(lower, upper.value));
      return true;
    }

    /** The fields of a memory map entry; its last word is left zero. */
    method PutRegion(off: nat, g: Region)
      requires Valid() && off == |draft| && next + off + 24 <= PREALLOC
      modifies this`draft, buf
      ensures Valid() && draft == old(draft) + RegionBytes(g)
    {
      Put(off, Put64(g.base));
      Put(off + 8, Put64(g.length));
      Put(off + 16, Put32(MapType(g.typ)));
      Skip(4);
      RegionParts(old(draft), g);
    }

    /** One entry of the memory map, and the size word that grows with it. */
    method AddRegion(idx: nat, g: Region, ghost rs: Mem)
      requires Valid() && |rs| == 24 * idx && next + 40 + |rs| <= PREALLOC && draft == MapDraft(rs)
      modifies this`draft, buf
      ensures Valid() && draft == MapDraft(rs + RegionBytes(g))
    {
      PutRegion(16 + 24 * idx, g);
      ghost var b := RegionBytes(g);
      MapDraftSize(rs, b);
      SizeInPlace(buf[..], done, draft, 16 + |rs|);
      MapDraftGrows(rs, b);
      var size: nat := Le32(buf[..], next + 4);
      SetSize(size + 24);
    }

    /** One round of the loop over the BIOS's answers. */
    method FillStep(replies: seq<Reply>, idx: nat, ghost rs: Mem) returns (more: bool, ghost rs': Mem)
      requires Valid() && next + 16 + |Regions(replies)| <= PREALLOC
      requires Progress(replies, idx, rs, true) && draft == MapDraft(rs)
      modifies this`draft, buf
      ensures Valid() && Progress(replies, idx + 1, rs', more) && draft == MapDraft(rs')
    {
      var reply := replies[idx];
      if reply.Stop? {
        return false, rs;
      }
      RegionsStep(replies, idx, rs);
      AddRegion(idx, reply.region, rs);
      return reply.More?, rs + RegionBytes(reply.region);
    }

    method FillMap(replies: seq<Reply>)
      requires Valid() && Ends(replies, 0) && draft == MapDraft([]) && next + 16 + |Regions(replies)| <= PREALLOC
      modifies this`draft, buf
      ensures Valid() && draft == MapDraft(Regions(replies))
    {
      ghost var rs: Mem := [];
      var idx: nat := 0;
      var more := true;
      while more
        invariant Valid() && Progress(replies, idx, rs, more) && draft == MapDraft(rs)
        decreases |replies| - idx
      {
        more, rs := FillStep(replies, idx, rs);
        idx := idx + 1;
      }
    }

    /** _mboot2_poptag_mmap */
    method EmitMmap(replies: seq<Reply>)
      requires Ready() && Ends(replies, 0) && next + |Enc(MmapTag(replies))| <= PREALLOC
      modifies this, buf
      ensures Ready() && tags == old(tags) + [MmapTag(replies)]
    {
      Start(MMAP, 16, 24, 0);
      MapStarts();
      FillMap(replies);
      MapEnds(replies);
      Advance(MmapTag(replies));
    }

    // -------------------------------------------------------------- ACPI

    /** The running byte checksum over m[from..to]. */
    static method Checksum(m: Mem, from: nat, to: nat, start: byte) returns (sum: byte)
      requires from <= to <= |m| && start == Sum(m[..from]) % 256
      ensures sum == Sum(m[..to]) % 256
    {
      sum := start;
      var i := from;
      while i < to
        invariant from <= i <= to && sum == Sum(m[..i]) % 256
      {
        ByteSumStep(m, i);
        sum := (sum as int + m[i] as int) % 256;
        i := i + 1;
      }
    }

    /** _mboot2_poptag_acpiold; a bad table is passed over. */
    method EmitAcpiOld(e: Env)
      requires EnvOk(e) && Ready() && next + |EncAll(AnswerTo(e, ACPI_OLD).tags)| <= PREALLOC
      modifies this, buf
      ensures Ready() && tags == old(tags) + AnswerTo(e, ACPI_OLD).tags
    {
      if e.rsdp.Some? {
        var sum := Checksum(e.rsdp.value, 0, 20, 0);
        if sum == 0 {
          OneTag(Tag(ACPI_OLD, e.rsdp.value[..20]));
          EmitShort(14, e.rsdp.value[..20]);
          return;
        }
      }
      assert tags + [] == tags;
    }

    /** _mboot2_poptag_acpinew */
    method EmitAcpiNew(e: Env)
      requires EnvOk(e) && Ready() && next + |EncAll(AnswerTo(e, ACPI_NEW).tags)| <= PREALLOC
      modifies this, buf
      ensures Ready() && tags == old(tags) + AnswerTo(e, ACPI_NEW).tags
    {
      if e.rsdp.Some? && e.rsdp.value[15] == 2 {
        var sum := Checksum(e.rsdp.value, 0, 20, 0);
        if sum == 0 {
          sum := Checksum(e.rsdp.value, 20, 36, sum);
          if sum == 0 {
            OneTag(Tag(ACPI_NEW, e.rsdp.value[..36]));
            EmitShort(15, e.rsdp.value[..36]);
            return;
          }
        }
      }
      assert tags + [] == tags;
    }

    // -------------------------------------------------------------- requests

    method EmitNth(ms: seq<Module>, i: nat)
      requires Ready() && i < |ms| && next + |EncAll(ModuleTagsFrom(ms, i))| <= PREALLOC
      modifies this, buf
      ensures Ready() && tags + ModuleTagsFrom(ms, i + 1) == old(tags) + ModuleTagsFrom(ms, i)
      ensures next + |EncAll(ModuleTagsFrom(ms, i + 1))| == old(next) + |EncAll(ModuleTagsFrom(ms, i))|
    {
      ModulesStep(old(tags), ms, i);
      EmitModule(ms[i]);
    }

    method EmitModules(ms: seq<Module>)
      requires Ready() && next + |EncAll(ModuleTags(ms))| <= PREALLOC
      modifies this, buf
      ensures Ready() && tags == old(tags) + ModuleTags(ms)
    {
      var i: nat := 0;
      while i < |ms|
        invariant i <= |ms| && Ready() && tags + ModuleTagsFrom(ms, i) == old(tags) + ModuleTags(ms)
        invariant next + |EncAll(ModuleTagsFrom(ms, i))| <= PREALLOC
      {
        EmitNth(ms, i);
        i := i + 1;
      }
      assert tags + [] == tags;
    }

    /** One requested kind of information. */
    method Honour(e: Env, r: dword) returns (ok: bool)
      requires Ready() && EnvOk(e) && next + Need(e, Request(r)) <= PREALLOC
      modifies this, buf
      ensures ok == AnswerTo(e, r).ok
      ensures ok ==> Ready() && tags == old(tags) + AnswerTo(e, r).tags
    {
      ok := true;
      if r == CMDLINE {
        if e.cmdline.Some? {
          OneTag(Tag(CMDLINE, e.cmdline.value + [0]));
          EmitShort(1, e.cmdline.value + [0]);
        } else {
          assert tags + [] == tags;
        }
      } else if r == BOOTLOADER_NAME {
        OneTag(Tag(BOOTLOADER_NAME, LOADER));
        EmitShort(2, LOADER);
      } else if r == MODULE {
        EmitModules(e.modules);
      } else if r == BASIC_MEMINFO {
        ok := EmitMeminfo(e.lower, e.upper);
      } else if r == MMAP {
        OneTag(MmapTag(e.replies));
        EmitMmap(e.replies);
      } else if r == ACPI_OLD {
        EmitAcpiOld(e);
      } else if r == ACPI_NEW {
        EmitAcpiNew(e);
      } else {
        ok := false;
      }
    }

    /** The tags written and the wishes left lead to this result, and there is room for it. */
    ghost predicate Leads(e: Env, ws: seq<Wish>, goal: Option<seq<Tag>>)
      requires EnvOk(e)
      reads this, buf
    {
      Ready() && Room(e, ws, next) && Whole(tags, e, ws) == goal
    }

    /** One request out of a longer list of wishes. */
    method HonourFirst(e: Env, r: dword, ghost ws: seq<Wish>, ghost goal: Option<seq<Tag>>) returns (ok: bool)
      requires EnvOk(e) && Leads(e, [Request(r)] + ws, goal)
      modifies this, buf
      ensures if ok then Leads(e, ws, goal) else goal == None
    {
      WholeStep(tags, e, Request(r), ws, next);
      ok := Honour(e, r);
      EncAppend(old(tags), AnswerTo(e, r).tags);
    }

    /** The loop over the n requests of a header tag. */
    method HonourAll(e: Env, h: Mem, at: nat, n: nat, ghost later: seq<Wish>, ghost goal: Option<seq<Tag>>)
      returns (ok: bool)
      requires EnvOk(e) && at + 4 * n <= |h| && Leads(e, Requests(h, at, n) + later, goal)
      modifies this, buf
      ensures if ok then Leads(e, later, goal) else goal == None
    {
      var i: nat := 0;
      while i < n
        invariant i <= n && Leads(e, Requests(h, at + 4 * i, n - i) + later, goal)
      {
        var r := Le32(h, at + 4 * i);
        RequestsStep(h, at, n, i, later);
        i := i + 1;
        ok := HonourFirst(e, r, Requests(h, at + 4 * i, n - i) + later, goal);
        if !ok {
          return;
        }
      }
      assert Requests(h, at + 4 * i, 0) + later == later;
      return true;
    }

    /** One header tag. */
    method HonourTag(e: Env, h: Mem, at: nat, ghost later: seq<Wish>, ghost goal: Option<seq<Tag>>)
      returns (ok: bool)
      requires EnvOk(e) && Terminated(h, at) && Le16(h, at) != END
      requires Leads(e, TagWishes(h, at) + later, goal)
      modifies this, buf
      ensures if ok then Leads(e, later, goal) else goal == None
    {
      if Le16(h, at) == INFORMATION_REQUEST {
        TagEnds(h, at);
        ok := HonourAll(e, h, at + 8, (Le32(h, at + 4) - 8) / 4, later, goal);
      } else if Le16(h, at + 2) % 2 == 0 {
        WholeStep(tags, e, Refused, later, next);
        ok := false;
      } else {
        assert [] + later == later;
        ok := true;
      }
    }

    /** One round of the loop over the header's tags. */
    method HonourAt(e: Env, h: Mem, at: nat, ghost goal: Option<seq<Tag>>) returns (ok: bool, at': nat)
      requires EnvOk(e) && |h| >= 16 && Terminated(h, at) && at < Bound(h) && Le16(h, at) != END
      requires Leads(e, Wishes(h, at), goal)
      modifies this, buf
      ensures at < at' <= |h| && Terminated(h, at')
      ensures if ok then Leads(e, Wishes(h, at'), goal) else goal == None
    {
      WishesStep(h, at);
      at' := at + Stride(Le32(h, at + 4));
      ok := HonourTag(e, h, at, Wishes(h, at'), goal);
    }

    /** The loop over the header's tags. */
    method HonourHeader(e: Env, h: Mem, ghost goal: Option<seq<Tag>>) returns (ok: bool)
      requires EnvOk(e) && |h| >= 16 && Terminated(h, 16) && Leads(e, Wishes(h, 16), goal)
      modifies this, buf
      ensures if ok then Leads(e, [], goal) else goal == None
    {
      var at: nat := 16;
      while at < Bound(h) && Le16(h, at) != END
        invariant Terminated(h, at) && Leads(e, Wishes(h, at), goal)
        decreases |h| - at
      {
        ok, at := HonourAt(e, h, at, goal);
        if !ok {
          return;
        }
      }
      return true;
    }

    /** The total size goes to the front. */
    method Close()
      requires Ready()
      modifies buf
      ensures |Image(tags)| <= PREALLOC && buf[..] == Image(tags) + Zeros(PREALLOC - |Image(tags)|)
    {
      var p := Put32(next);
      forall i | 0 <= i < 4 {
        buf[i] := p[i];
      }
      assert buf[..] == p + Layout(done, [])[4..];
      FinishedImage(done, buf[..]);
    }
  }

  /**
    The preallocation holds the structure with these tags and zeros behind it, and a reader that steps
    with NEXT_TAG from offset 8 to the size in the first word meets just these tags.
  */
  ghost predicate Shows(m: Mem, tags: seq<Tag>) {
    && |m| == PREALLOC
    && 8 <= Le32(m, 0) == |Image(tags)| <= PREALLOC
    && m == Image(tags) + Zeros(PREALLOC - |Image(tags)|)
    && TagsFrom(m[..Le32(m, 0)], 8) == Some(tags)
  }

  lemma ImageShows(m: Mem, tags: seq<Tag>)
    requires |Image(tags)| <= PREALLOC && m == Image(tags) + Zeros(PREALLOC - |Image(tags)|)
    ensures Shows(m, tags)
  {
    var a := Image(tags);
    WalkFindsTags(tags);
    assert m[..|a|] == a;
    assert m[0] == a[0] && m[1] == a[1] && m[2] == a[2] && m[3] == a[3];
  }

  /**
    multiboot2_parse.  The header is END-terminated, and what is to be written fits the preallocation,
    which the source does not check.
  */
  method Parse(h: Mem, e: Env) returns (r: Option<array<byte>>)
    requires |h| >= 16 && EnvOk(e)
    requires HeadOk(h) ==> Terminated(h, 16) && Room(e, Wishes(h, 16), 8)
    ensures r.None? == Built(h, e).None?
    ensures r.Some? ==> Shows(r.value[..], Built(h, e).value)
  {
    if !HeadOk(h) {
      return None;
    }
    var b := new Builder();
    ghost var goal := Built(h, e);
    LeadsToBuilt(b, h, e, goal);
    var ok := b.HonourHeader(e, h, goal);
    if !ok {
      return None;
    }
    NothingLeft(b, e, goal);
    b.Close();
    ImageShows(b.buf[..], b.tags);
    return Some(b.buf);
  }

  lemma LeadsToBuilt(b: Builder, h: Mem, e: Env, goal: Option<seq<Tag>>)
    requires |h| >= 16 && EnvOk(e) && HeadOk(h) && Terminated(h, 16) && Room(e, Wishes(h, 16), 8)
    requires b.Ready() && b.tags == [] && goal == Built(h, e)
    ensures b.Leads(e, Wishes(h, 16), goal)
  {
    assert [] + Process(e, Wishes(h, 16)).tags == Process(e, Wishes(h, 16)).tags;
  }

  lemma NothingLeft(b: Builder, e: Env, goal: Option<seq<Tag>>)
    requires EnvOk(e) && b.Leads(e, [], goal)
    ensures b.Ready() && goal == Some(b.tags)
  {
    assert b.tags + [] == b.tags;
  }

  /** A header tag's requests lie inside it, and the next tag behind it. */
  lemma TagEnds(h: Mem, at: nat)
    requires Terminated(h, at) && Le16(h, at) != END
    ensures var size := Le32(h, at + 4);
      && size >= 8 && at + Stride(size) <= |h| && Terminated(h, at + Stride(size))
      && at + 8 + 4 * ((size - 8) / 4) <= |h|
  {
    var size := Le32(h, at + 4);
    assert Terminated(h, at + Stride(size)) && 4 * ((size - 8) / 4) <= size - 8;
  }

  lemma WishesStep(h: Mem, at: nat)
    requires |h| >= 16 && Terminated(h, at) && at < Bound(h) && Le16(h, at) != END
    ensures var after := at + Stride(Le32(h, at + 4));
      && at < after <= |h| && Terminated(h, after)
      && Wishes(h, at) == TagWishes(h, at) + Wishes(h, after)
  {
    TagEnds(h, at);
  }

  lemma ModulesStep(tags: seq<Tag>, ms: seq<Module>, i: nat)
    requires i < |ms|
    ensures var t, all, rest := ModuleTag(ms[i]), ModuleTagsFrom(ms, i), ModuleTagsFrom(ms, i + 1);
      (tags + [t]) + rest == tags + all && |EncAll(all)| == |Enc(t)| + |EncAll(rest)|
  {
    var t, all, rest := ModuleTag(ms[i]), ModuleTagsFrom(ms, i), ModuleTagsFrom(ms, i + 1);
    assert all == [t] + rest && all[1..] == rest;
    assert EncAll(all) == Enc(t) + EncAll(rest);
  }

  lemma RequestsStep(h: Mem, at: nat, n: nat, i: nat, later: seq<Wish>)
    requires i < n && at + 4 * n <= |h|
    ensures Requests(h, at + 4 * i, n - i) + later
      == [Request(Le32(h, at + 4 * i))] + (Requests(h, at + 4 * (i + 1), n - (i + 1)) + later)
  {
  }

  /** The whole list of tags, when these are there and these wishes are left. */
  function Whole(tags: seq<Tag>, e: Env, ws: seq<Wish>): Option<seq<Tag>>
    requires EnvOk(e)
  {
    if Process(e, ws).ok then Some(tags + Process(e, ws).tags) else None
  }

  lemma WholeStep(tags: seq<Tag>, e: Env, w: Wish, ws: seq<Wish>, used: nat)
    requires EnvOk(e) && Room(e, [w] + ws, used)
    ensures var a := AnswerWish(e, w);
      && used + Need(e, w) <= PREALLOC
      && (a.ok ==> Need(e, w) == |EncAll(a.tags)| && Room(e, ws, used + |EncAll(a.tags)|))
      && Whole(tags, e, [w] + ws) == if a.ok then Whole(tags + a.tags, e, ws) else None
  {
    var a, all := AnswerWish(e, w), [w] + ws;
    assert all[0] == w && all[1..] == ws;
    if a.ok {
      NeedIsLength(e, w);
      var p := Process(e, ws);
      assert Process(e, all) == Answer(p.ok, a.tags + p.tags);
      assert tags + (a.tags + p.tags) == (tags + a.tags) + p.tags;
    }
  }

  lemma OneTag(t: Tag)
    ensures EncAll([t]) == Enc(t)
  {
    assert [t][1..] == [];
  }

  lemma WordIsDword(w: word)
    ensures Put16(w) + Zeros(2) == Put32(w)
  {
  }
}
