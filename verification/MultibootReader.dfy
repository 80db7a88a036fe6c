/**
  What a kernel reads in the Multiboot 2 information structure, byte by byte, against section 3.6 of the
  Multiboot2 Specification; and the header with which it asks for it, after section 3.1.
*/
module MultibootReader {
  import opened Wrappers
  import opened Bytes
  import opened Multiboot

  function Le64(m: Mem, i: nat): nat
    requires i + 8 <= |m|
  {
    Le32(m, i) + 0x1_0000_0000 * Le32(m, i + 4)
  }

  // ---------------------------------------------------------------- single tags

  /** A module tag: type 3, start and end address, the name with its NUL. */
  predicate ModuleSeen(t: Tag, m: Module) {
    && t.typ == 3 && |t.body| == 8 + |m.name| + 1
    && Le32(t.body, 0) == m.start
    && (m.start + m.size < 0x1_0000_0000 ==> Le32(t.body, 4) == m.start + m.size)
    && t.body[8..] == m.name + [0]
  }

  /** Basic memory: type 4, lower (640 when unknown) and upper memory in KiB. */
  predicate MeminfoSeen(t: Tag, e: Env) {
    && t.typ == 4 && |t.body| == 8 && e.upper.Some?
    && Le32(t.body, 0) == (if e.lower.Some? then e.lower.value else 640)
    && Le32(t.body, 4) == e.upper.value
  }

  /** The regions the BIOS lists, in order: up to the last answer, or to the one that is none. */
  function Listed(replies: seq<Reply>, k: nat): seq<Region>
    decreases |replies| - k
  {
    if k >= |replies| || replies[k].Stop? then []
    else [replies[k].region] + if replies[k].More? then Listed(replies, k + 1) else []
  }

  /** A region at offset p: base and length in 64 bits, the type, a zero word; types but 1, 3 and 4 become 0. */
  predicate RegionSeen(b: Mem, p: nat, r: Region) {
    && p + 24 <= |b|
    && Le64(b, p) == r.base && Le64(b, p + 8) == r.length
    && Le32(b, p + 16) == (if r.typ == 1 || r.typ == 3 || r.typ == 4 then r.typ else 0)
    && Le32(b, p + 20) == 0
  }

  /** The memory map: type 6, entries of 24 bytes in version 0, one for each region. */
  predicate MmapSeen(t: Tag, regions: seq<Region>) {
    && t.typ == 6 && |t.body| == 8 + 24 * |regions|
    && Le32(t.body, 0) == 24 && Le32(t.body, 4) == 0
    && forall i :: 0 <= i < |regions| ==> RegionSeen(t.body, 8 + 24 * i, regions[i])
  }

  /** The sum of the bytes is a multiple of 256. */
  predicate Checked(m: Mem, n: nat)
    requires n <= |m|
  {
    Sum(m[..n]) % 256 == 0
  }

  /** What the tags that answer request r are, as they are read. */
  predicate Seen(e: Env, r: dword, tags: seq<Tag>)
    requires EnvOk(e)
  {
    if r == 1 then
      if e.cmdline.Some? then |tags| == 1 && tags[0].typ == 1 && tags[0].body == e.cmdline.value + [0] else tags == []
    else if r == 2 then |tags| == 1 && tags[0].typ == 2 && tags[0].body == [76, 66, 111, 111, 116, 0]
    else if r == 3 then |tags| == |e.modules| && forall i :: 0 <= i < |tags| ==> ModuleSeen(tags[i], e.modules[i])
    else if r == 4 then |tags| == 1 && MeminfoSeen(tags[0], e)
    else if r == 6 then |tags| == 1 && MmapSeen(tags[0], Listed(e.replies, 0))
    else if r == 14 then
      if e.rsdp.Some? && Checked(e.rsdp.value, 20)
      then |tags| == 1 && tags[0].typ == 14 && tags[0].body == e.rsdp.value[..20] else tags == []
    else if r == 15 then
      if e.rsdp.Some? && e.rsdp.value[15] == 2 && Checked(e.rsdp.value, 20) && Checked(e.rsdp.value, 36)
      then |tags| == 1 && tags[0].typ == 15 && tags[0].body == e.rsdp.value[..36] else tags == []
    else false
  }

  lemma TwoWords(a: dword, b: dword, rest: Mem, m: Mem)
    requires m == Put32(a) + Put32(b) + rest
    ensures Le32(m, 0) == a && Le32(m, 4) == b && m[8..] == rest
  {
    Parts(Put32(a), Put32(b), rest, [], m);
    Le32At(m, 0, a);
    Le32At(m, 4, b);
  }

  lemma ModuleIsSeen(m: Module)
    ensures ModuleSeen(ModuleTag(m), m)
  {
    TwoWords(m.start, (m.start + m.size) % TWO32, m.name + [0], ModuleTag(m).body);
  }

  lemma MeminfoIsSeen(e: Env)
    requires e.upper.Some?
    ensures MeminfoSeen(MeminfoTag(e.lower, e.upper.value), e)
  {
    var t := MeminfoTag(e.lower, e.upper.value);
    TwoWords(if e.lower.Some? then e.lower.value else 640, e.upper.value, [], t.body + []);
    assert t.body + [] == t.body;
  }

  lemma ReadBack64(q: qword)
    ensures Le64(Put64(q), 0) == q
  {
    TwoWords(q % TWO32, q / TWO32, [], Put64(q) + []);
    assert Put64(q) + [] == Put64(q);
  }

  /** What holds of a piece of a body holds of the body. */
  lemma PieceReads(b: Mem, p: nat, s: Mem, i: nat)
    requires p + |s| <= |b| && b[p..p + |s|] == s
    ensures i + 4 <= |s| ==> Le32(b, p + i) == Le32(s, i)
    ensures i + 8 <= |s| ==> Le64(b, p + i) == Le64(s, i)
  {
    assert forall x :: 0 <= x < |s| ==> s[x] == b[p + x];
  }

  lemma FourParts(a: Mem, b: Mem, c: Mem, d: Mem, s: Mem)
    requires |a| == 8 && |b| == 8 && |c| == 4 && |d| == 4 && s == a + b + c + d
    ensures s[0..8] == a && s[8..16] == b && s[16..20] == c && s[20..24] == d
  {
    var ab, abc := a + b, a + b + c;
    assert ab[0..8] == a && ab[8..16] == b;
    assert abc[0..8] == ab[0..8] && abc[8..16] == ab[8..16] && abc[16..20] == c;
    assert s[0..8] == abc[0..8] && s[8..16] == abc[8..16] && s[16..20] == abc[16..20] && s[20..24] == d;
  }

  lemma RegionIsSeen(b: Mem, p: nat, r: Region)
    requires p + 24 <= |b| && b[p..p + 24] == RegionBytes(r)
    ensures RegionSeen(b, p, r)
  {
    var s := RegionBytes(r);
    FourParts(Put64(r.base), Put64(r.length), Put32(MapType(r.typ)), Zeros(4), s);
    ReadBack64(r.base);
    ReadBack64(r.length);
    PieceReads(s, 0, Put64(r.base), 0);
    PieceReads(s, 8, Put64(r.length), 0);
    Le32At(s, 16, MapType(r.typ));
    PieceReads(b, p, s, 0);
    PieceReads(b, p, s, 8);
    PieceReads(b, p, s, 16);
    PieceReads(b, p, s, 20);
    assert s[20] == 0 && s[21] == 0 && s[22] == 0 && s[23] == 0;
  }

  lemma Behind(a: Mem, b: Mem, i: nat, j: nat)
    requires i <= j <= |b|
    ensures (a + b)[|a| + i..|a| + j] == b[i..j]
  {
    assert (a + b)[|a|..] == b;
    SliceOfSlice(a + b, |a|, |a + b|, i, j);
  }

  lemma {:induction false} RegionAt(replies: seq<Reply>, k: nat, i: nat)
    requires k <= |replies|
    ensures |RegionsFrom(replies, k)| == 24 * |Listed(replies, k)|
    ensures i < |Listed(replies, k)| ==>
      RegionsFrom(replies, k)[24 * i..24 * i + 24] == RegionBytes(Listed(replies, k)[i])
    decreases |replies| - k
  {
    if k == |replies| || replies[k].Stop? {
    } else if replies[k].More? {
      RegionAt(replies, k + 1, if i > 0 then i - 1 else 0);
      var first, rest := RegionBytes(replies[k].region), RegionsFrom(replies, k + 1);
      if i == 0 {
        assert (first + rest)[0..24] == first;
      } else if i < |Listed(replies, k)| {
        Behind(first, rest, 24 * (i - 1), 24 * i);
      }
    } else {
      assert RegionsFrom(replies, k)[0..24] == RegionsFrom(replies, k);
    }
  }

  lemma MmapIsSeen(replies: seq<Reply>)
    ensures MmapSeen(MmapTag(replies), Listed(replies, 0))
  {
    var b, rest := MmapTag(replies).body, Regions(replies);
    TwoWords(24, 0, rest, b);
    RegionAt(replies, 0, 0);
    forall i | 0 <= i < |Listed(replies, 0)|
      ensures RegionSeen(b, 8 + 24 * i, Listed(replies, 0)[i])
    {
      RegionInMap(replies, b, i);
    }
  }

  lemma RegionInMap(replies: seq<Reply>, b: Mem, i: nat)
    requires i < |Listed(replies, 0)| && |b| >= 8 && b[8..] == Regions(replies)
    ensures RegionSeen(b, 8 + 24 * i, Listed(replies, 0)[i])
  {
    RegionAt(replies, 0, i);
    SliceOfSlice(b, 8, |b|, 24 * i, 24 * i + 24);
    RegionIsSeen(b, 8 + 24 * i, Listed(replies, 0)[i]);
  }

  lemma ModulesAreSeen(e: Env)
    requires EnvOk(e)
    ensures Seen(e, 3, ModuleTags(e.modules))
  {
    if e.modules != [] {
      ModuleTagAt(e.modules, 0, 0);
    }
    forall i | 0 <= i < |e.modules|
      ensures ModuleSeen(ModuleTags(e.modules)[i], e.modules[i])
    {
      ModuleTagAt(e.modules, 0, i);
      ModuleIsSeen(e.modules[i]);
    }
  }

  /** Every request that is honoured is answered by the tags the specification gives it. */
  lemma AnswerIsSeen(e: Env, r: dword)
    requires EnvOk(e) && AnswerTo(e, r).ok
    ensures Seen(e, r, AnswerTo(e, r).tags)
  {
    if r == MODULE {
      ModulesAreSeen(e);
    } else if r == BASIC_MEMINFO {
      MeminfoIsSeen(e);
    } else if r == MMAP {
      MmapIsSeen(e.replies);
    }
  }

  // ---------------------------------------------------------------- the whole structure

  /** The tags fall into groups that answer the requests one after the other. */
  ghost predicate AllSeen(e: Env, ws: seq<Wish>, tags: seq<Tag>)
    requires EnvOk(e)
    decreases |ws|
  {
    if ws == [] then tags == []
    else ws[0].Request? && exists n: nat :: FirstSeen(e, ws[0].r, tags, n) && AllSeen(e, ws[1..], tags[n..])
  }

  predicate FirstSeen(e: Env, r: dword, tags: seq<Tag>, n: nat)
    requires EnvOk(e)
  {
    n <= |tags| && Seen(e, r, tags[..n])
  }

  lemma {:induction false} ProcessIsSeen(e: Env, ws: seq<Wish>)
    requires EnvOk(e) && Process(e, ws).ok
    ensures AllSeen(e, ws, Process(e, ws).tags)
    decreases |ws|
  {
    if ws == [] {
    } else {
      var a, rest := AnswerWish(e, ws[0]), Process(e, ws[1..]);
      var tags := a.tags + rest.tags;
      ProcessIsSeen(e, ws[1..]);
      AnswerIsSeen(e, ws[0].r);
      assert tags[..|a.tags|] == a.tags && tags[|a.tags|..] == rest.tags;
      assert FirstSeen(e, ws[0].r, tags, |a.tags|);
    }
  }

  /** A kernel that walks a finished structure reads the answers to its requests, in order, and nothing else. */
  lemma KernelReads(e: Env, ws: seq<Wish>, m: Mem)
    requires EnvOk(e) && Process(e, ws).ok && m == Image(Process(e, ws).tags) && |m| < TWO32
    ensures |m| >= 8 && Le32(m, 0) == |m| && TagsFrom(m, 8).Some? && AllSeen(e, ws, TagsFrom(m, 8).value)
  {
    var tags := Process(e, ws).tags;
    assert |m| == 8 + |EncAll(tags)|;
    WalkFindsTags(tags);
    ProcessIsSeen(e, ws);
  }

  // ---------------------------------------------------------------- asking for it

  /** Padding to a multiple of eight bytes. */
  function PadWords(n: nat): (r: seq<dword>)
    ensures |r| == n % 2
  {
    if n % 2 == 1 then [0] else []
  }

  /** Magic, architecture, length and checksum, and the start of an information request tag for n types. */
  function FirstWords(n: nat): (r: seq<dword>)
    requires 4 * n + 40 < TWO32
    ensures |r| == 6
  {
    var length := 32 + 4 * (n + n % 2);
    [0xE852_50D6, 0, length, (2 * 0x1_0000_0000 - 0xE852_50D6 - length) % 0x1_0000_0000, 1, 8 + 4 * n]
  }

  /** A header that requests these types, with its END tag. */
  function HeaderWords(reqs: seq<dword>): seq<dword>
    requires 4 * |reqs| + 40 < TWO32
  {
    FirstWords(|reqs|) + reqs + (PadWords(|reqs|) + [0, 8])
  }

  function Asked(reqs: seq<dword>): (r: seq<Wish>)
    ensures |r| == |reqs| && forall i :: 0 <= i < |r| ==> r[i] == Request(reqs[i])
  {
    seq(|reqs|, i requires 0 <= i < |reqs| => Request(reqs[i]))
  }

  lemma {:induction false} RequestsAt(h: Mem, at: nat, n: nat, i: nat)
    requires at + 4 * n <= |h|
    ensures |Requests(h, at, n)| == n && (i < n ==> Requests(h, at, n)[i] == Request(Le32(h, at + 4 * i)))
    decreases n
  {
    if n == 0 {
    } else {
      var k := if i > 0 then i - 1 else 0;
      RequestsAt(h, at + 4, n - 1, k);
      assert i > 0 ==> at + 4 + 4 * k == at + 4 * i;
    }
  }

  lemma RequestsAre(h: Mem, at: nat, reqs: seq<dword>)
    requires at + 4 * |reqs| <= |h| && forall i :: 0 <= i < |reqs| ==> Le32(h, at + 4 * i) == reqs[i]
    ensures Requests(h, at, |reqs|) == Asked(reqs)
  {
    RequestsAt(h, at, |reqs|, 0);
    forall i | 0 <= i < |reqs|
      ensures Requests(h, at, |reqs|)[i] == Asked(reqs)[i]
    {
      RequestsAt(h, at, |reqs|, i);
    }
  }

  lemma HeaderPlaces(reqs: seq<dword>, ws: seq<dword>)
    requires 4 * |reqs| + 40 < TWO32 && ws == HeaderWords(reqs)
    ensures |ws| == 8 + |reqs| + |reqs| % 2 && ws[..6] == FirstWords(|reqs|) && ws[6..6 + |reqs|] == reqs
    ensures ws[|ws| - 2] == 0
  {
  }

  /** A head of four words like these is accepted. */
  lemma HeadIsOk(h: Mem, length: dword)
    requires |h| >= 16 && Le32(h, 0) == 0xE852_50D6 && Le32(h, 4) == 0 && Le32(h, 8) == length
    requires Le32(h, 12) == (2 * 0x1_0000_0000 - 0xE852_50D6 - length) % 0x1_0000_0000
    ensures HeadOk(h)
  {
    Complement(0xE852_50D6, length, Le32(h, 12));
    assert Le32(h, 0) + Le32(h, 4) + Le32(h, 8) + Le32(h, 12) == 0xE852_50D6 + length + Le32(h, 12);
  }

  lemma Complement(a: dword, b: dword, c: dword)
    requires c == (2 * 0x1_0000_0000 - a - b) % 0x1_0000_0000
    ensures (a + b + c) % TWO32 == 0
  {
    var x := 2 * TWO32 - a - b;
    assert c == if x >= 2 * TWO32 then 0 else if x >= TWO32 then x - TWO32 else x;
  }

  lemma LowWord(h: Mem, i: nat)
    requires i + 4 <= |h| && Le32(h, i) < 0x1_0000
    ensures Le16(h, i) == Le32(h, i)
  {
  }

  lemma PadStride(n: nat)
    ensures Stride(8 + 4 * n) == 8 + 4 * (n + n % 2)
  {
  }

  lemma HeadReads(n: nat, first: seq<dword>, ws: seq<dword>, h: Mem)
    requires 4 * n + 40 < TWO32 && first == FirstWords(n) && |ws| == 8 + n + n % 2 && ws[..6] == first && h == Words(ws)
    ensures |h| == 4 * |ws| && HeadOk(h) && Le32(h, 8) == |h| && Le16(h, 16) == 1 && Le32(h, 20) == 8 + 4 * n
  {
    forall k | 0 <= k < 6
      ensures Le32(h, 4 * k) == first[k]
    {
      assert ws[k] == ws[..6][k];
      WordAt(ws, k);
    }
    assert Le32(h, 4 * 0) == first[0] && Le32(h, 4 * 1) == first[1] && Le32(h, 4 * 2) == first[2];
    assert Le32(h, 4 * 3) == first[3] && Le32(h, 4 * 4) == first[4] && Le32(h, 4 * 5) == first[5];
    HeadIsOk(h, first[2]);
    LowWord(h, 16);
  }

  lemma RequestsRead(reqs: seq<dword>, ws: seq<dword>, h: Mem)
    requires |ws| >= 6 + |reqs| && ws[6..6 + |reqs|] == reqs && h == Words(ws)
    ensures Requests(h, 24, |reqs|) == Asked(reqs)
  {
    forall i | 0 <= i < |reqs|
      ensures Le32(h, 24 + 4 * i) == reqs[i]
    {
      assert ws[6 + i] == ws[6..6 + |reqs|][i];
      WordAt(ws, 6 + i);
    }
    RequestsAre(h, 24, reqs);
  }

  /** One information request tag at 16 and an END tag behind it. */
  lemma OneTag(h: Mem, n: nat, end: nat, asked: seq<Wish>)
    requires end == 24 + 4 * (n + n % 2) && |h| == end + 8 && Bound(h) > 16
    requires Le16(h, 16) == INFORMATION_REQUEST && Le32(h, 20) == 8 + 4 * n && Le16(h, end) == END
    requires Requests(h, 24, n) == asked
    ensures Terminated(h, 16) && Wishes(h, 16) == asked
  {
    PadStride(n);
    assert Terminated(h, end);
    assert Terminated(h, 16);
    assert WishesTo(h, end, Bound(h)) == [];
    assert TagWishes(h, 16) == asked && asked + [] == asked;
  }

  /** The loader finds the requests of such a header, in order. */
  lemma HeaderAsks(reqs: seq<dword>, h: Mem)
    requires 4 * |reqs| + 40 < TWO32 && h == Words(HeaderWords(reqs))
    ensures |h| >= 16 && HeadOk(h) && Terminated(h, 16) && Wishes(h, 16) == Asked(reqs)
  {
    var ws, n := HeaderWords(reqs), |reqs|;
    HeaderPlaces(reqs, ws);
    HeadReads(n, FirstWords(n), ws, h);
    RequestsRead(reqs, ws, h);
    var k := |ws| - 2;
    WordAt(ws, k);
    LowWord(h, 4 * k);
    OneTag(h, n, 4 * k, Asked(reqs));
  }

  /** The types the loader can answer. */
  predicate Answerable(e: Env, r: dword) { r in {1, 2, 3, 4, 6, 14, 15} && (r == 4 ==> e.upper.Some?) }

  /** A kernel that asks for what can be answered reads just the answers, in the order it asked. */
  lemma AskedIsRead(e: Env, reqs: seq<dword>, h: Mem) returns (m: Mem)
    requires EnvOk(e) && 4 * |reqs| + 40 < TWO32 && h == Words(HeaderWords(reqs))
    requires forall i :: 0 <= i < |reqs| ==> Answerable(e, reqs[i])
    ensures |h| >= 16 && Terminated(h, 16) && Built(h, e).Some? && m == Image(Built(h, e).value)
    ensures |m| < TWO32 ==> |m| >= 8 && Le32(m, 0) == |m|
                            && TagsFrom(m, 8).Some? && AllSeen(e, Asked(reqs), TagsFrom(m, 8).value)
  {
    HeaderAsks(reqs, h);
    ProcessOk(e, Asked(reqs));
    m := Image(Built(h, e).value);
    if |m| < TWO32 {
      KernelReads(e, Asked(reqs), m);
    }
  }

  /** In particular it finds every module, in order, with its addresses and its name. */
  lemma {:induction false} ModulesAreRead(e: Env, ws: seq<Wish>, tags: seq<Tag>) returns (p: nat)
    requires EnvOk(e) && AllSeen(e, ws, tags) && Request(3) in ws
    ensures p + |e.modules| <= |tags| && Seen(e, 3, tags[p..p + |e.modules|])
    decreases |ws|
  {
    var n: nat :| FirstSeen(e, ws[0].r, tags, n) && AllSeen(e, ws[1..], tags[n..]);
    p := 0;
    if ws[0] != Request(3) {
      assert Request(3) in ws[1..];
      p := ModulesAreRead(e, ws[1..], tags[n..]);
      TagsOfTags(tags, n, p, p + |e.modules|);
      p := n + p;
    }
  }

  lemma TagsOfTags(tags: seq<Tag>, n: nat, i: nat, j: nat)
    requires n <= |tags| && i <= j <= |tags| - n
    ensures tags[n..][i..j] == tags[n + i..n + j]
  {
  }
}
