/**
  The second pass of the host tool (tools/sector_mapper/src/main.c, lines 202-213), which links
  the map's chunks on the image, and the walk over the linked map that loads stage 2.
*/
module SectorWalk {
  import opened Wrappers
  import opened Bytes
  import opened Arith
  import opened SectorMap

  // ---------------------------------------------------------------- one chunk

  /** The words of one extent of a chunk. */
  function EntryAt(b: seq<byte>, j: nat): Extent
    requires |b| == SECTOR && j < 128
  {
    Extent(Le16(b, 4 * j), Le16(b, 4 * j + 2))
  }

  /** The sectors extents j, j + 1, ... of a chunk stand for, and whether a zero sector ended the map. */
  function DecodeChunk(b: seq<byte>, j: nat): (seq<nat>, bool)
    requires |b| == SECTOR && j <= PER_CHUNK
    decreases PER_CHUNK - j
  {
    if j == PER_CHUNK then ([], false)
    else
      var e := EntryAt(b, j);
      if e.sector == 0 then ([], true)
      else var (rest, ended) := DecodeChunk(b, j + 1); (SectorsOf(e) + rest, ended)
  }

  /** The chunk holds extents 127c, 127c + 1, ... of the map. */
  ghost predicate ChunkHolds(b: seq<byte>, es: seq<Extent>, c: nat) {
    |b| == SECTOR && forall j :: 0 <= j < PER_CHUNK ==> EntryAt(b, j) == SlotOf(es, PER_CHUNK * c + j)
  }

  /** Sectors and counts fit the map's 16-bit words, and no extent looks like the end. */
  predicate Storable(es: seq<Extent>) {
    forall k :: 0 <= k < |es| ==> 0 < es[k].sector < 0x1_0000 && es[k].count < 0x1_0000
  }

  function ChunkEnd(es: seq<Extent>, c: nat): nat { Min(PER_CHUNK * c + PER_CHUNK, |es|) }

  lemma {:induction false} ExpandConcat(a: seq<Extent>, b: seq<Extent>)
    ensures Expand(a + b) == Expand(a) + Expand(b)
  {
    if b == [] {
      assert a + b == a;
    } else {
      var n := |b| - 1;
      assert (a + b)[..|a + b| - 1] == a + b[..n];
      ExpandConcat(a, b[..n]);
    }
  }

  lemma ExpandSplit(es: seq<Extent>, a: nat, m: nat)
    requires a <= m <= |es|
    ensures Expand(es[a..]) == Expand(es[a..m]) + Expand(es[m..])
  {
    assert es[a..] == es[a..m] + es[m..];
    ExpandConcat(es[a..m], es[m..]);
  }

  lemma ExpandFirst(es: seq<Extent>, k: nat, end: nat)
    requires k < end <= |es|
    ensures Expand(es[k..end]) == SectorsOf(es[k]) + Expand(es[k + 1..end])
  {
    assert es[k..end] == [es[k]] + es[k + 1..end];
    assert [es[k]][..0] == [] && Expand([es[k]]) == Expand([]) + SectorsOf(es[k]);
    ExpandConcat([es[k]], es[k + 1..end]);
  }

  /** Decoding a chunk gives the sectors of its extents; the end mark is seen exactly when the chunk is not full. */
  lemma {:induction false} DecodeIsExpand(b: seq<byte>, es: seq<Extent>, c: nat, j: nat)
    requires ChunkHolds(b, es, c) && Storable(es) && j <= PER_CHUNK && PER_CHUNK * c + j <= ChunkEnd(es, c)
    ensures DecodeChunk(b, j) == (Expand(es[PER_CHUNK * c + j..ChunkEnd(es, c)]), |es| < PER_CHUNK * c + PER_CHUNK)
    decreases PER_CHUNK - j
  {
    var k, end := PER_CHUNK * c + j, ChunkEnd(es, c);
    if k == end {
      assert j < PER_CHUNK ==> EntryAt(b, j) == SlotOf(es, k);
      assert Expand(es[k..end]) == [];
    } else {
      assert EntryAt(b, j) == SlotOf(es, k) == es[k];
      DecodeIsExpand(b, es, c, j + 1);
      ExpandFirst(es, k, end);
    }
  }

  // ---------------------------------------------------------------- the walk

  /** What stage 1 loads, and from which chunks it read the map. */
  datatype Loaded = Loaded(sectors: seq<nat>, chunks: seq<nat>)

  function SectorAt(img: Disk, s: nat): (r: seq<byte>)
    requires SECTOR * s + SECTOR <= |img|
    ensures |r| == SECTOR
  {
    img[SECTOR * s..SECTOR * s + SECTOR]
  }

  /** Follow the chunk list from sector s for at most `fuel` chunks; None when it is longer or leaves the disk. */
  function LoadMap(img: Disk, s: nat, fuel: nat): Option<Loaded>
    decreases fuel
  {
    if fuel == 0 || SECTOR * s + SECTOR > |img| then None
    else
      var b := SectorAt(img, s);
      var (sectors, ended) := DecodeChunk(b, 0);
      var next := Le16(b, NEXT_FIELD);
      if ended || next == 0 then Some(Loaded(sectors, [s]))
      else
        var r := LoadMap(img, next, fuel - 1);
        if r.None? then None else Some(Loaded(sectors + r.value.sectors, [s] + r.value.chunks))
  }

  /** Chunk c lies at its sector, holds its part of the map, and points at the next. */
  ghost predicate LinkedOne(img: Disk, ss: seq<nat>, es: seq<Extent>, c: nat)
    requires c < |ss|
  {
    && 0 < ss[c] < 0x1_0000 && SECTOR * ss[c] + SECTOR <= |img|
    && ChunkHolds(SectorAt(img, ss[c]), es, c)
    && Le16(SectorAt(img, ss[c]), NEXT_FIELD) == if c + 1 < |ss| then ss[c + 1] else 0
  }

  ghost predicate Linked(img: Disk, ss: seq<nat>, es: seq<Extent>) {
    forall c :: 0 <= c < |ss| ==> LinkedOne(img, ss, es, c)
  }

  lemma ChunkBounds(n: nat, c: nat)
    requires c < NumChunks(n)
    ensures PER_CHUNK * c < n
    ensures c + 1 < NumChunks(n) <==> PER_CHUNK * c + PER_CHUNK < n
  {
  }

  /** What is left of the walk at chunk c: the sectors of the remaining extents, from the remaining chunks. */
  function Rest(ss: seq<nat>, es: seq<Extent>, c: nat): Loaded
    requires c < |ss| && PER_CHUNK * c <= |es|
  {
    Loaded(Expand(es[PER_CHUNK * c..]), ss[c..])
  }

  lemma WalkOne(img: Disk, s: nat, es: seq<Extent>, c: nat, fuel: nat)
    requires SECTOR * s + SECTOR <= |img| && ChunkHolds(SectorAt(img, s), es, c) && Storable(es)
    requires PER_CHUNK * c <= |es| && fuel > 0
    ensures var here := Expand(es[PER_CHUNK * c..ChunkEnd(es, c)]);
            var next := Le16(SectorAt(img, s), NEXT_FIELD);
            LoadMap(img, s, fuel) ==
            if |es| < PER_CHUNK * c + PER_CHUNK || next == 0 then Some(Loaded(here, [s]))
            else
              var r := LoadMap(img, next, fuel - 1);
              if r.None? then None else Some(Loaded(here + r.value.sectors, [s] + r.value.chunks))
  {
    DecodeIsExpand(SectorAt(img, s), es, c, 0);
  }

  lemma WalkLast(img: Disk, s: nat, es: seq<Extent>, c: nat, fuel: nat)
    requires SECTOR * s + SECTOR <= |img| && ChunkHolds(SectorAt(img, s), es, c) && Storable(es)
    requires PER_CHUNK * c <= |es| <= PER_CHUNK * c + PER_CHUNK && fuel > 0 && Le16(SectorAt(img, s), NEXT_FIELD) == 0
    ensures LoadMap(img, s, fuel) == Some(Loaded(Expand(es[PER_CHUNK * c..]), [s]))
  {
    WalkOne(img, s, es, c, fuel);
    assert es[PER_CHUNK * c..ChunkEnd(es, c)] == es[PER_CHUNK * c..];
  }

  lemma WalkStep(img: Disk, s: nat, es: seq<Extent>, c: nat, fuel: nat, rest: Loaded)
    requires SECTOR * s + SECTOR <= |img| && ChunkHolds(SectorAt(img, s), es, c) && Storable(es)
    requires PER_CHUNK * c + PER_CHUNK <= |es| && fuel > 0 && Le16(SectorAt(img, s), NEXT_FIELD) != 0
    requires LoadMap(img, Le16(SectorAt(img, s), NEXT_FIELD), fuel - 1) == Some(rest)
    ensures LoadMap(img, s, fuel) ==
            Some(Loaded(Expand(es[PER_CHUNK * c..PER_CHUNK * c + PER_CHUNK]) + rest.sectors, [s] + rest.chunks))
  {
    WalkOne(img, s, es, c, fuel);
  }

  lemma LinkedAt(img: Disk, ss: seq<nat>, es: seq<Extent>, c: nat)
    requires Linked(img, ss, es) && c < |ss|
    ensures 0 < ss[c] && SECTOR * ss[c] + SECTOR <= |img| && ChunkHolds(SectorAt(img, ss[c]), es, c)
    ensures Le16(SectorAt(img, ss[c]), NEXT_FIELD) == if c + 1 < |ss| then ss[c + 1] else 0
    ensures c + 1 < |ss| ==> 0 < ss[c + 1]
  {
    assert LinkedOne(img, ss, es, c);
    assert c + 1 < |ss| ==> LinkedOne(img, ss, es, c + 1);
  }

  lemma RestStep(ss: seq<nat>, es: seq<Extent>, c: nat)
    requires c + 1 < |ss| && PER_CHUNK * c + PER_CHUNK <= |es|
    ensures var r := Rest(ss, es, c + 1);
            Rest(ss, es, c) == Loaded(Expand(es[PER_CHUNK * c..PER_CHUNK * c + PER_CHUNK]) + r.sectors, [ss[c]] + r.chunks)
  {
    ExpandSplit(es, PER_CHUNK * c, PER_CHUNK * c + PER_CHUNK);
    assert PER_CHUNK * (c + 1) == PER_CHUNK * c + PER_CHUNK;
    assert ss[c..] == [ss[c]] + ss[c + 1..];
  }

  /** Walking a linked map visits its chunks in order, stops behind the last, and yields the map's sectors. */
  lemma {:induction false} WalkLinked(img: Disk, ss: seq<nat>, es: seq<Extent>, c: nat, fuel: nat)
    requires Linked(img, ss, es) && Storable(es) && |ss| == NumChunks(|es|) && c < |ss| && fuel >= |ss| - c
    ensures PER_CHUNK * c <= |es|
    ensures LoadMap(img, ss[c], fuel) == Some(Rest(ss, es, c))
    decreases |ss| - c
  {
    ChunkBounds(|es|, c);
    LinkedAt(img, ss, es, c);
    if c + 1 < |ss| {
      WalkLinked(img, ss, es, c + 1, fuel - 1);
      WalkStep(img, ss[c], es, c, fuel, Rest(ss, es, c + 1));
      RestStep(ss, es, c);
    } else {
      WalkLast(img, ss[c], es, c, fuel);
      assert ss[c..] == [ss[c]];
    }
  }

  // ---------------------------------------------------------------- linking

  /** The field that points at map cluster i. */
  function FieldOf(mc: seq<nat>, i: nat): nat
    requires i <= |mc|
  {
    if i == 0 then BOOT_FIELD else mc[i - 1] + NEXT_FIELD
  }

  /** The clusters of the map file: whole sectors behind the boot sector, inside the image, numbered with 16 bits. */
  predicate MapClusters(img: Disk, mc: seq<nat>) {
    && SECTOR <= |img|
    && (forall i :: 0 <= i < |mc| ==> mc[i] % SECTOR == 0 && SECTOR <= mc[i] && mc[i] + SECTOR <= |img| && SectorOf(mc[i]) < 0x1_0000)
    && (forall i, j :: 0 <= i < j < |mc| ==> mc[i] != mc[j])
  }

  /** The image after n rounds of _round2's loop. */
  function LinkUpTo(img: Disk, mc: seq<nat>, n: nat): (r: Disk)
    requires MapClusters(img, mc) && n <= |mc|
    ensures |r| == |img|
  {
    if n == 0 then img else PutWord(LinkUpTo(img, mc, n - 1), FieldOf(mc, n - 1), SectorOf(mc[n - 1]))
  }

  /** Byte x belongs to one of the first n link fields. */
  predicate InField(mc: seq<nat>, n: nat, x: nat)
    requires n <= |mc|
  {
    exists i :: 0 <= i < n && FieldOf(mc, i) <= x < FieldOf(mc, i) + 2
  }

  lemma FieldsApart(img: Disk, mc: seq<nat>, i: nat, j: nat)
    requires MapClusters(img, mc) && i < j <= |mc|
    ensures FieldOf(mc, i) + 2 <= FieldOf(mc, j) || FieldOf(mc, j) + 2 <= FieldOf(mc, i)
  {
    if i > 0 {
      if mc[i - 1] < mc[j - 1] {
        MultiplesApart(mc[i - 1], mc[j - 1], SECTOR);
      } else {
        MultiplesApart(mc[j - 1], mc[i - 1], SECTOR);
      }
    }
  }

  /** After n rounds each of the first n fields holds its map sector. */
  lemma {:induction false} LinkField(img: Disk, mc: seq<nat>, n: nat, i: nat)
    requires MapClusters(img, mc) && i < n <= |mc|
    ensures Le16(LinkUpTo(img, mc, n), FieldOf(mc, i)) == SectorOf(mc[i])
  {
    if i >= n - 1 {
    } else {
      LinkField(img, mc, n - 1, i);
      FieldsApart(img, mc, i, n - 1);
    }
  }

  /** Nothing but the first n link fields has changed. */
  lemma {:induction false} LinkOther(img: Disk, mc: seq<nat>, n: nat, x: nat)
    requires MapClusters(img, mc) && n <= |mc| && x < |img| && !InField(mc, n, x)
    ensures LinkUpTo(img, mc, n)[x] == img[x]
  {
    if n == 0 {
    } else {
      assert !(FieldOf(mc, n - 1) <= x < FieldOf(mc, n - 1) + 2);
      assert !InField(mc, n - 1, x);
      LinkOther(img, mc, n - 1, x);
    }
  }

  /** pwrite of a 16-bit word. */
  method WriteWord(img: array<byte>, at: nat, w: nat)
    requires at + 2 <= img.Length && w < 0x1_0000
    modifies img
    ensures img[..] == PutWord(old(img[..]), at, w)
  {
    img[at] := w % 256;
    img[at + 1] := w / 256;
  }

  /** _round2's loop, on the image in place; pwrite succeeds. */
  method Round2(img: array<byte>, mc: seq<nat>)
    requires MapClusters(img[..], mc)
    modifies img
    ensures img[..] == LinkUpTo(old(img[..]), mc, |mc|)
  {
    ghost var img0 := img[..];
    var pre := BOOT_FIELD;
    for i := 0 to |mc|
      invariant img[..] == LinkUpTo(img0, mc, i) && pre == FieldOf(mc, i)
    {
      assert SectorOf(mc[i]) % 0x1_0000 == SectorOf(mc[i]);
      assert LinkUpTo(img0, mc, i + 1) == PutWord(LinkUpTo(img0, mc, i), FieldOf(mc, i), SectorOf(mc[i]));
      WriteWord(img, pre, SectorOf(mc[i]) % 0x1_0000);
      pre := mc[i] + NEXT_FIELD;
    }
  }

  // ---------------------------------------------------------------- the walk as stage 1 codes it

  /**
    stage1/inc/read_sector_map.inc within one loaded chunk, from the entry at cursor j on.  Its test
    for the end of the chunk compares %dx, which holds the drive number and never reaches the bound,
    so the cursor runs on: over the link field as one more entry, where a count of 0 means 65536
    rounds, and past it into memory that is not the chunk's (None).
  */
  function AsmEntries(b: seq<byte>, j: nat): Option<seq<nat>>
    requires |b| == SECTOR && j <= 128
    decreases 128 - j
  {
    if j == 128 then None
    else
      var e := EntryAt(b, j);
      if e.sector == 0 then Some([])
      else
        var r := AsmEntries(b, j + 1);
        var n := if e.count == 0 then 0x1_0000 else e.count;
        if r.None? then None else Some(SectorsOf(Extent(e.sector, n)) + r.value)
  }

  predicate CountsNonzero(b: seq<byte>)
    requires |b| == SECTOR
  {
    forall j :: 0 <= j < PER_CHUNK ==> EntryAt(b, j).sector != 0 ==> EntryAt(b, j).count != 0
  }

  /** On a chunk the coded walk stays inside the chunk, and loads what the map's format says, exactly when no chunk follows. */
  lemma {:induction false} AsmExact(b: seq<byte>, j: nat)
    requires |b| == SECTOR && j <= PER_CHUNK && CountsNonzero(b)
    ensures AsmEntries(b, j) == Some(DecodeChunk(b, j).0) <==> DecodeChunk(b, j).1 || Le16(b, NEXT_FIELD) == 0
    ensures AsmEntries(b, j).Some? <==> DecodeChunk(b, j).1 || Le16(b, NEXT_FIELD) == 0
    decreases PER_CHUNK - j
  {
    if j == PER_CHUNK {
      assert AsmEntries(b, 128) == None;
      assert EntryAt(b, j).sector == Le16(b, NEXT_FIELD);
    } else if EntryAt(b, j).sector != 0 {
      AsmExact(b, j + 1);
    }
  }

  lemma CountsOfMap(b: seq<byte>, es: seq<Extent>)
    requires ChunkHolds(b, es, 0) && Storable(es) && forall k :: 0 <= k < |es| ==> es[k].count >= 1
    ensures CountsNonzero(b)
  {
    forall j | 0 <= j < PER_CHUNK ensures EntryAt(b, j).sector != 0 ==> EntryAt(b, j).count != 0 {
      assert EntryAt(b, j) == SlotOf(es, PER_CHUNK * 0 + j);
    }
  }

  lemma AsmFirstChunk(b: seq<byte>, es: seq<Extent>)
    requires ChunkHolds(b, es, 0) && Storable(es) && CountsNonzero(b)
    ensures AsmEntries(b, 0) == Some(Expand(es[0..ChunkEnd(es, 0)])) <==> |es| < PER_CHUNK || Le16(b, NEXT_FIELD) == 0
    ensures AsmEntries(b, 0).Some? <==> |es| < PER_CHUNK || Le16(b, NEXT_FIELD) == 0
  {
    DecodeIsExpand(b, es, 0, 0);
    AsmExact(b, 0);
  }

  /** A map is walked as documented by the code exactly when it has one chunk. */
  lemma AsmStopsAtOneChunk(img: Disk, ss: seq<nat>, es: seq<Extent>)
    requires Linked(img, ss, es) && Storable(es) && ss != [] && |ss| == NumChunks(|es|)
    requires forall k :: 0 <= k < |es| ==> es[k].count >= 1
    ensures SECTOR * ss[0] + SECTOR <= |img|
    ensures AsmEntries(SectorAt(img, ss[0]), 0) == Some(Expand(es)) <==> |ss| == 1
  {
    LinkedAt(img, ss, es, 0);
    ChunkBounds(|es|, 0);
    CountsOfMap(SectorAt(img, ss[0]), es);
    AsmFirstChunk(SectorAt(img, ss[0]), es);
    if |ss| == 1 {
      assert es[0..ChunkEnd(es, 0)] == es;
    }
  }
}
