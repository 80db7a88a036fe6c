/**
  What the Multiboot 2 information structure holds and how it is laid out: the reference for the tag
  builder of src/exec/multiboot.c.  What the BIOS answers, and the RSDP found in memory, are parameters.
*/
module Multiboot {
  import opened Wrappers
  import opened Bytes

  type qword = x: int | 0 <= x < TWO64

  const TWO32: nat := 0x1_0000_0000
  const TWO64: nat := 0x1_0000_0000_0000_0000
  const MAGIC: dword := 0xE852_50D6
  const PREALLOC: nat := 1024

  const END: word := 0
  const INFORMATION_REQUEST: word := 1

  const CMDLINE: dword := 1
  const BOOTLOADER_NAME: dword := 2
  const MODULE: dword := 3
  const BASIC_MEMINFO: dword := 4
  const MMAP: dword := 6
  const ACPI_OLD: dword := 14
  const ACPI_NEW: dword := 15

  /** "LBoot" with its NUL. */
  const LOADER: Mem := [76, 66, 111, 111, 116, 0]

  function Put64(q: qword): (r: Mem)
    ensures |r| == 8
  {
    Put32(q % TWO32) + Put32(q / TWO32)
  }

  // ---------------------------------------------------------------- tags

  /** A tag: its type word and what follows the size word. */
  datatype Tag = Tag(typ: dword, body: Mem)

  function SizeOf(t: Tag): nat { 8 + |t.body| }

  /** The step that NEXT_TAG takes over a tag of this size. */
  function Stride(size: nat): (r: nat)
    ensures size <= r < size + 8 && r % 8 == 0
  {
    size + (if size % 8 != 0 then 8 - size % 8 else 0)
  }

  function Enc(t: Tag): (r: Mem)
    ensures |r| == Stride(SizeOf(t))
  {
    Put32(t.typ) + Put32(SizeOf(t) % TWO32) + t.body + Zeros(Stride(SizeOf(t)) - SizeOf(t))
  }

  lemma SumOfEights(a: nat, b: nat)
    requires a % 8 == 0 && b % 8 == 0
    ensures (a + b) % 8 == 0
  {
  }

  function EncAll(tags: seq<Tag>): (r: Mem)
    ensures |r| % 8 == 0
  {
    if tags == [] then []
    else
      var first, rest := Enc(tags[0]), EncAll(tags[1..]);
      SumOfEights(|first|, |rest|);
      first + rest
  }

  lemma Associative(a: Mem, b: Mem, c: Mem)
    ensures a + (b + c) == (a + b) + c
  {
  }

  lemma {:induction false} EncAppend(a: seq<Tag>, b: seq<Tag>)
    ensures EncAll(a + b) == EncAll(a) + EncAll(b)
  {
    if a == [] {
      assert a + b == b;
    } else {
      var t, rest := a[0], a[1..];
      EncAppend(rest, b);
      assert (a + b)[0] == t && (a + b)[1..] == rest + b;
      Associative(Enc(t), EncAll(rest), EncAll(b));
    }
  }

  /** The finished structure: total size, a reserved word, the tags. */
  function Image(tags: seq<Tag>): Mem { ImageOf(EncAll(tags)) }

  function ImageOf(e: Mem): Mem { Put32((8 + |e|) % TWO32) + Zeros(4) + e }

  /** What a kernel sees that goes from tag to tag with NEXT_TAG, every one of them at a multiple of 8, to the end. */
  function TagsFrom(m: Mem, at: nat): Option<seq<Tag>>
    requires at <= |m|
    decreases |m| - at
  {
    if at == |m| then Some([])
    else if at % 8 != 0 || at + 8 > |m| then None
    else
      var size := Le32(m, at + 4);
      if size < 8 || at + Stride(size) > |m| then None
      else
        match TagsFrom(m, at + Stride(size))
        case None => None
        case Some(rest) => Some([Tag(Le32(m, at), m[at + 8..at + size])] + rest)
  }

  lemma Le32At(m: Mem, at: nat, d: dword)
    requires at + 4 <= |m| && m[at..at + 4] == Put32(d)
    ensures Le32(m, at) == d
  {
    ReadBack32(d);
    var q := m[at..at + 4];
    assert m[at] == q[0] && m[at + 1] == q[1] && m[at + 2] == q[2] && m[at + 3] == q[3];
  }

  lemma SliceOfSlice(m: Mem, a: nat, b: nat, i: nat, j: nat)
    requires a <= b <= |m| && i <= j <= b - a
    ensures m[a..b][i..j] == m[a + i..a + j]
  {
    var p, q := m[a..b], m[a + i..a + j];
    assert forall k :: 0 <= k < j - i ==> p[i..j][k] == p[i + k] == m[a + (i + k)] == q[k];
  }

  lemma Parts(a: Mem, b: Mem, c: Mem, d: Mem, e: Mem)
    requires |a| == 4 && |b| == 4 && e == a + b + c + d
    ensures e[0..4] == a && e[4..8] == b && e[8..8 + |c|] == c
  {
    var ab, abc := a + b, a + b + c;
    assert ab[0..4] == a && ab[4..8] == b;
    assert abc[0..4] == ab[0..4] && abc[4..8] == ab[4..8] && abc[8..8 + |c|] == c;
    assert e[0..4] == abc[0..4] && e[4..8] == abc[4..8] && e[8..8 + |c|] == abc[8..8 + |c|];
  }

  lemma EncParts(t: Tag)
    requires SizeOf(t) < TWO32
    ensures Enc(t)[0..4] == Put32(t.typ) && Enc(t)[4..8] == Put32(SizeOf(t)) && Enc(t)[8..SizeOf(t)] == t.body
  {
    var size: dword := SizeOf(t);
    assert size % TWO32 == size;
    Parts(Put32(t.typ), Put32(size), t.body, Zeros(Stride(SizeOf(t)) - SizeOf(t)), Enc(t));
  }

  lemma TagAt(m: Mem, at: nat, t: Tag)
    requires SizeOf(t) < TWO32 && at + |Enc(t)| <= |m| && m[at..at + |Enc(t)|] == Enc(t)
    ensures Le32(m, at) == t.typ && Le32(m, at + 4) == SizeOf(t)
    ensures m[at + 8..at + SizeOf(t)] == t.body
  {
    EncParts(t);
    var e := Enc(t);
    SliceOfSlice(m, at, at + |e|, 0, 4);
    SliceOfSlice(m, at, at + |e|, 4, 8);
    SliceOfSlice(m, at, at + |e|, 8, SizeOf(t));
    Le32At(m, at, t.typ);
    Le32At(m, at + 4, SizeOf(t));
  }

  lemma CutFirst(m: Mem, at: nat, a: Mem, b: Mem)
    requires at <= |m| && m[at..] == a + b
    ensures at + |a| <= |m| && m[at..at + |a|] == a && m[at + |a|..] == b
  {
    assert m[at..][..|a|] == a && m[at..][|a|..] == b;
  }

  lemma WalkStep(m: Mem, at: nat, t: Tag, rest: seq<Tag>)
    requires at % 8 == 0 && SizeOf(t) < TWO32 && at + |Enc(t)| <= |m| && m[at..at + |Enc(t)|] == Enc(t)
    requires TagsFrom(m, at + |Enc(t)|) == Some(rest)
    ensures TagsFrom(m, at) == Some([t] + rest)
  {
    TagAt(m, at, t);
  }

  lemma {:induction false} WalkFrom(m: Mem, at: nat, tags: seq<Tag>)
    requires at % 8 == 0 && at <= |m| < TWO32 && m[at..] == EncAll(tags)
    ensures TagsFrom(m, at) == Some(tags)
    decreases tags
  {
    if tags == [] {
    } else {
      var t, rest := tags[0], tags[1..];
      var n := |Enc(t)|;
      CutFirst(m, at, Enc(t), EncAll(rest));
      SumOfEights(at, n);
      WalkFrom(m, at + n, rest);
      WalkStep(m, at, t, rest);
      assert [t] + rest == tags;
    }
  }

  lemma ImageParts(e: Mem, m: Mem)
    requires 8 + |e| < TWO32 && m == ImageOf(e)
    ensures |m| == 8 + |e| && m[0..4] == Put32(|m|) && m[8..] == e
  {
    var size: dword := 8 + |e|;
    assert size % TWO32 == size;
    var ab := Put32(size) + Zeros(4);
    assert m == ab + e && ab[0..4] == Put32(size);
    assert m[0..4] == ab[0..4];
  }

  /** Walking the finished structure from offset 8 lands exactly on its size and finds exactly the tags. */
  lemma WalkFindsTags(tags: seq<Tag>)
    requires 8 + |EncAll(tags)| < TWO32
    ensures var m := Image(tags); |m| == Le32(m, 0) && |m| >= 8 && TagsFrom(m, 8) == Some(tags)
  {
    var m := Image(tags);
    ImageParts(EncAll(tags), m);
    Le32At(m, 0, |m|);
    WalkFrom(m, 8, tags);
  }

  // ---------------------------------------------------------------- what is answered

  datatype Module = Module(start: dword, size: dword, name: Mem)

  datatype Region = Region(base: qword, length: qword, typ: dword)

  /** One answer to the memory map call: none at all, or a region and whether there are more. */
  datatype Reply = Stop | More(region: Region) | Last(region: Region)

  /** Strings are without their NUL. */
  datatype Env = Env(cmdline: Option<Mem>, modules: seq<Module>, lower: Option<word>, upper: Option<word>,
                     replies: seq<Reply>, rsdp: Option<Mem>)

  /** From answer k on there is one without a successor. */
  ghost predicate Ends(replies: seq<Reply>, k: nat) { exists i :: k <= i < |replies| && !replies[i].More? }

  /** The RSDP is there to be read, and the BIOS comes to an end. */
  ghost predicate EnvOk(e: Env) {
    && (e.rsdp.Some? ==> |e.rsdp.value| >= 36)
    && Ends(e.replies, 0)
  }

  function MapType(t: dword): dword { if t == 1 then 1 else if t == 3 then 3 else if t == 4 then 4 else 0 }

  function RegionBytes(r: Region): (b: Mem)
    ensures |b| == 24
  {
    Put64(r.base) + Put64(r.length) + Put32(MapType(r.typ)) + Zeros(4)
  }

  /** The regions of the answers from k on, up to the last one that is used. */
  function RegionsFrom(replies: seq<Reply>, k: nat): Mem
    decreases |replies| - k
  {
    if k >= |replies| then []
    else match replies[k]
      case Stop => []
      case Last(g) => RegionBytes(g)
      case More(g) => RegionBytes(g) + RegionsFrom(replies, k + 1)
  }

  function Regions(replies: seq<Reply>): Mem { RegionsFrom(replies, 0) }

  predicate SumsToZero(m: Mem) { Sum(m) % 256 == 0 }

  function ModuleTag(m: Module): Tag {
    Tag(MODULE, Put32(m.start) + Put32((m.start + m.size) % TWO32) + (m.name + [0]))
  }

  /** The tags of the modules from k on. */
  function ModuleTagsFrom(ms: seq<Module>, k: nat): seq<Tag>
    decreases |ms| - k
  {
    if k >= |ms| then [] else [ModuleTag(ms[k])] + ModuleTagsFrom(ms, k + 1)
  }

  function ModuleTags(ms: seq<Module>): seq<Tag> { ModuleTagsFrom(ms, 0) }

  function MeminfoTag(lower: Option<word>, upper: word): Tag {
    Tag(BASIC_MEMINFO, Put32(if lower.Some? then lower.value else 640) + Put32(upper))
  }

  function MmapTag(replies: seq<Reply>): Tag { Tag(MMAP, Put32(24) + Put32(0) + Regions(replies)) }

  /** Tags, and whether the build goes on after them. */
  datatype Answer = Answer(ok: bool, tags: seq<Tag>)

  function AnswerTo(e: Env, r: dword): Answer
    requires EnvOk(e)
  {
    if r == CMDLINE then
      Answer(true, if e.cmdline.Some? then [Tag(CMDLINE, e.cmdline.value + [0])] else [])
    else if r == BOOTLOADER_NAME then Answer(true, [Tag(BOOTLOADER_NAME, LOADER)])
    else if r == MODULE then Answer(true, ModuleTags(e.modules))
    else if r == BASIC_MEMINFO then
      if e.upper.None? then Answer(false, []) else Answer(true, [MeminfoTag(e.lower, e.upper.value)])
    else if r == MMAP then Answer(true, [MmapTag(e.replies)])
    else if r == ACPI_OLD then
      Answer(true, if e.rsdp.Some? && SumsToZero(e.rsdp.value[..20])
                   then [Tag(ACPI_OLD, e.rsdp.value[..20])] else [])
    else if r == ACPI_NEW then
      Answer(true, if e.rsdp.Some? && e.rsdp.value[15] == 2
                      && SumsToZero(e.rsdp.value[..20]) && SumsToZero(e.rsdp.value[..36])
                   then [Tag(ACPI_NEW, e.rsdp.value[..36])] else [])
    else Answer(false, [])
  }

  // ---------------------------------------------------------------- header

  /** What the kernel's header asks for: a kind of information, or something that cannot be honoured. */
  datatype Wish = Request(r: dword) | Refused

  predicate HeadOk(h: Mem)
    requires |h| >= 16
  {
    && Le32(h, 0) == MAGIC
    && Le32(h, 4) == 0
    && (Le32(h, 0) + Le32(h, 4) + Le32(h, 8) + Le32(h, 12)) % TWO32 == 0
  }

  /** The header length is added to a pointer to the header structure, so it counts in units of 16 bytes. */
  function Bound(h: Mem): nat
    requires |h| >= 16
  {
    16 * Le32(h, 8)
  }

  /** From at on there is a chain of tags, none smaller than its own fixed part, up to an END tag. */
  predicate Terminated(h: Mem, at: nat)
    decreases |h| - at
  {
    && at + 8 <= |h|
    && (Le16(h, at) == END || (Le32(h, at + 4) >= 8 && Terminated(h, at + Stride(Le32(h, at + 4)))))
  }

  function Requests(h: Mem, at: nat, n: nat): seq<Wish>
    requires at + 4 * n <= |h|
    decreases n
  {
    if n == 0 then [] else [Request(Le32(h, at))] + Requests(h, at + 4, n - 1)
  }

  /** The wishes of the header tag. */
  function TagWishes(h: Mem, at: nat): seq<Wish>
    requires Terminated(h, at) && Le16(h, at) != END
  {
    var size := Le32(h, at + 4);
    assert Terminated(h, at + Stride(size)) && 4 * ((size - 8) / 4) <= size - 8;
    if Le16(h, at) == INFORMATION_REQUEST then Requests(h, at + 8, (size - 8) / 4)
    else if Le16(h, at + 2) % 2 == 1 then []
    else [Refused]
  }

  /** The wishes of the tags from at on, up to an END tag or to the bound. */
  function WishesTo(h: Mem, at: nat, bound: nat): seq<Wish>
    requires Terminated(h, at)
    decreases |h| - at
  {
    if at >= bound || Le16(h, at) == END then []
    else TagWishes(h, at) + WishesTo(h, at + Stride(Le32(h, at + 4)), bound)
  }

  /** What the coded loop goes through. */
  function Wishes(h: Mem, at: nat): seq<Wish>
    requires |h| >= 16 && Terminated(h, at)
  {
    WishesTo(h, at, Bound(h))
  }

  // ---------------------------------------------------------------- the header's length

  /** An information request without entries, or an optional tag of another kind. */
  predicate AsksNothing(h: Mem, at: nat)
    requires Terminated(h, at) && Le16(h, at) != END
  {
    if Le16(h, at) == INFORMATION_REQUEST then Le32(h, at + 4) < 12 else Le16(h, at + 2) % 2 == 1
  }

  lemma AsksNothingIs(h: Mem, at: nat)
    requires Terminated(h, at) && Le16(h, at) != END
    ensures AsksNothing(h, at) <==> TagWishes(h, at) == []
  {
  }

  /** The tags between lo and hi, up to the END tag, ask for nothing. */
  predicate Silent(h: Mem, at: nat, lo: nat, hi: nat)
    requires Terminated(h, at)
    decreases |h| - at
  {
    at >= hi || Le16(h, at) == END
    || ((at >= lo ==> AsksNothing(h, at)) && Silent(h, at + Stride(Le32(h, at + 4)), lo, hi))
  }

  lemma {:induction false} BoundMatters(h: Mem, at: nat, lo: nat, hi: nat)
    requires Terminated(h, at) && lo <= hi
    ensures WishesTo(h, at, lo) == WishesTo(h, at, hi) <==> Silent(h, at, lo, hi)
    decreases |h| - at
  {
    if at >= hi || Le16(h, at) == END {
    } else {
      var next := at + Stride(Le32(h, at + 4));
      BoundMatters(h, next, lo, hi);
      AsksNothingIs(h, at);
      if at < lo {
        SamePrefix(TagWishes(h, at), WishesTo(h, next, lo), WishesTo(h, next, hi));
      } else {
        assert WishesTo(h, at, lo) == [] && WishesTo(h, next, lo) == [];
      }
    }
  }

  lemma SamePrefix(p: seq<Wish>, a: seq<Wish>, b: seq<Wish>)
    ensures p + a == p + b <==> a == b
  {
    assert (p + a)[|p|..] == a && (p + b)[|p|..] == b;
  }

  /**
    Counting the header's length in units of 16 bytes asks for the same as counting it in bytes, if and
    only if the tags between the two bounds, up to the END tag, ask for nothing.
  */
  lemma HeaderLengthExact(h: Mem)
    requires |h| >= 16 && Terminated(h, 16)
    ensures Wishes(h, 16) == WishesTo(h, 16, Le32(h, 8)) <==> Silent(h, 16, Le32(h, 8), Bound(h))
  {
    BoundMatters(h, 16, Le32(h, 8), Bound(h));
  }

  /** The chain's END tag lies inside the length. */
  predicate EndsWithin(h: Mem, at: nat, length: nat)
    requires Terminated(h, at)
    decreases |h| - at
  {
    at < length && (Le16(h, at) == END || EndsWithin(h, at + Stride(Le32(h, at + 4)), length))
  }

  /** A header whose length covers its END tag is read alike either way. */
  lemma {:induction false} CoveredIsSilent(h: Mem, at: nat, lo: nat, hi: nat)
    requires Terminated(h, at) && lo <= hi && EndsWithin(h, at, lo)
    ensures Silent(h, at, lo, hi)
    decreases |h| - at
  {
    if Le16(h, at) == END {
    } else {
      CoveredIsSilent(h, at + Stride(Le32(h, at + 4)), lo, hi);
    }
  }

  /** Words one behind the other. */
  function Words(ws: seq<dword>): (r: Mem)
    ensures |r| == 4 * |ws|
  {
    if ws == [] then [] else Put32(ws[0]) + Words(ws[1..])
  }

  lemma {:induction false} WordAt(ws: seq<dword>, k: nat)
    requires k < |ws|
    ensures Le32(Words(ws), 4 * k) == ws[k]
  {
    var m, rest := Words(ws), Words(ws[1..]);
    if k == 0 {
      assert m[0..4] == Put32(ws[0]);
      Le32At(m, 0, ws[0]);
    } else {
      WordAt(ws[1..], k - 1);
      assert m[4..] == rest;
      assert forall x :: 4 <= x < |m| ==> m[x] == m[4..][x - 4];
    }
  }

  /** A header of 16 bytes by its length, behind which a tag that cannot be honoured and an END tag happen to follow. */
  const SHORT_WORDS: seq<dword> := [MAGIC, 0, 16, 0x17AD_AF1A, 2, 8, 0, 8]

  const SHORT_HEADER: Mem := Words(SHORT_WORDS)

  lemma ShortHeaderWords()
    ensures var h := SHORT_HEADER;
      && |h| == 32 && HeadOk(h) && Le32(h, 8) == 16 && Le16(h, 16) == 2 && Le16(h, 18) == 0 && Le32(h, 20) == 8
      && Le16(h, 24) == END
  {
    WordAt(SHORT_WORDS, 0);
    WordAt(SHORT_WORDS, 1);
    WordAt(SHORT_WORDS, 2);
    WordAt(SHORT_WORDS, 3);
    WordAt(SHORT_WORDS, 4);
    WordAt(SHORT_WORDS, 5);
    WordAt(SHORT_WORDS, 6);
  }

  lemma ShortHeaderWishes()
    ensures HeadOk(SHORT_HEADER) && Terminated(SHORT_HEADER, 16)
    ensures WishesTo(SHORT_HEADER, 16, Le32(SHORT_HEADER, 8)) == [] && Wishes(SHORT_HEADER, 16) == [Refused]
  {
    ShortHeaderWords();
    var h := SHORT_HEADER;
    assert Stride(8) == 8;
    assert Terminated(h, 24) && Terminated(h, 16);
    assert TagWishes(h, 16) == [Refused] && WishesTo(h, 24, Bound(h)) == [];
  }

  /** Its magic and checksum are right, and yet the build is refused. */
  lemma ShortHeaderRefused(e: Env)
    requires EnvOk(e)
    ensures HeadOk(SHORT_HEADER) && Terminated(SHORT_HEADER, 16)
    ensures Process(e, WishesTo(SHORT_HEADER, 16, Le32(SHORT_HEADER, 8))).ok
    ensures Built(SHORT_HEADER, e) == None
  {
    ShortHeaderWishes();
    assert Process(e, []).ok && !Process(e, [Refused]).ok;
  }

  // ---------------------------------------------------------------- the whole build

  function AnswerWish(e: Env, w: Wish): Answer
    requires EnvOk(e)
  {
    if w.Request? then AnswerTo(e, w.r) else Answer(false, [])
  }

  function Process(e: Env, ws: seq<Wish>): Answer
    requires EnvOk(e)
  {
    if ws == [] then Answer(true, [])
    else
      var a := AnswerWish(e, ws[0]);
      if !a.ok then a
      else
        var rest := Process(e, ws[1..]);
        Answer(rest.ok, a.tags + rest.tags)
  }

  /** multiboot2_parse */
  function Built(h: Mem, e: Env): Option<seq<Tag>>
    requires |h| >= 16 && (HeadOk(h) ==> Terminated(h, 16)) && EnvOk(e)
  {
    if !HeadOk(h) then None
    else
      var a := Process(e, Wishes(h, 16));
      if a.ok then Some(a.tags) else None
  }

  predicate Supported(w: Wish) {
    w.Request? && w.r in {CMDLINE, BOOTLOADER_NAME, MODULE, BASIC_MEMINFO, MMAP, ACPI_OLD, ACPI_NEW}
  }

  /** The build succeeds exactly when everything asked for is known, and upper memory is known if memory is asked for. */
  lemma {:induction false} ProcessOk(e: Env, ws: seq<Wish>)
    requires EnvOk(e)
    ensures Process(e, ws).ok
      == forall i :: 0 <= i < |ws| ==> Supported(ws[i]) && (ws[i].r == BASIC_MEMINFO ==> e.upper.Some?)
  {
    if ws == [] {
    } else {
      ProcessOk(e, ws[1..]);
      assert forall i :: 0 <= i < |ws| - 1 ==> ws[i + 1] == ws[1..][i];
      assert ws[0] == ws[0];
    }
  }

  predicate AllOfType(tags: seq<Tag>, ws: seq<Wish>) {
    forall t :: t in tags ==> Request(t.typ) in ws && t.typ != 0
  }

  /** Every module gets its tag, in order. */
  lemma {:induction false} ModuleTagAt(ms: seq<Module>, k: nat, i: nat)
    requires k <= i < |ms|
    ensures |ModuleTagsFrom(ms, k)| == |ms| - k && ModuleTagsFrom(ms, k)[i - k] == ModuleTag(ms[i])
    decreases |ms| - k
  {
    if k < i {
      ModuleTagAt(ms, k + 1, i);
    } else if k + 1 < |ms| {
      ModuleTagAt(ms, k + 1, k + 1);
    }
  }

  lemma {:induction false} ModuleTypes(ms: seq<Module>, k: nat)
    ensures forall t :: t in ModuleTagsFrom(ms, k) ==> t.typ == MODULE
    decreases |ms| - k
  {
    if k >= |ms| {
    } else {
      ModuleTypes(ms, k + 1);
    }
  }

  lemma AnswerTypes(e: Env, w: Wish)
    requires EnvOk(e)
    ensures AllOfType(AnswerWish(e, w).tags, [w])
  {
    ModuleTypes(e.modules, 0);
    assert w in [w];
  }

  /** Nothing is reported that was not asked for, and the tag that ends a Multiboot 2 structure is never written. */
  lemma {:induction false} OnlyRequested(e: Env, ws: seq<Wish>)
    requires EnvOk(e)
    ensures AllOfType(Process(e, ws).tags, ws)
  {
    if ws == [] {
    } else {
      AnswerTypes(e, ws[0]);
      OnlyRequested(e, ws[1..]);
    }
  }
}
