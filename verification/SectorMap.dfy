/**
  The stage-2 sector map: the host tool's two passes (tools/sector_mapper/src/main.c) and the
  walk that stage 1 makes over the result, as tools/sector_mapper/inc/sector_map.h describes
  it.  Sectors and clusters are 512 bytes.
*/
module SectorMap {
  import opened Bytes
  import opened Arith

  const SECTOR: nat := 512
  const PER_CHUNK: nat := 127        // (512 - 4) / 4 entries
  const NEXT_FIELD: nat := 508       // offset of next_chunk in a chunk
  const BOOT_FIELD: nat := 506       // offset of stage2_map_sector in the boot sector

  /** sector_map_entry_t */
  datatype Extent = Extent(sector: nat, count: nat)

  const NO_EXTENT := Extent(0, 0)

  function SectorOf(cluster: nat): nat { cluster / SECTOR }

  // ---------------------------------------------------------------- run lengths

  /** One more cluster: it starts an extent of its own, or lengthens the last one if it follows directly. */
  function Grown(r: seq<Extent>, prev: nat, last: nat): (r': seq<Extent>)
    requires r != []
    ensures r' != []
  {
    if last != prev + SECTOR then r + [Extent(SectorOf(last), 1)]
    else r[|r| - 1 := Extent(r[|r| - 1].sector, r[|r| - 1].count + 1)]
  }

  /** The last extent ends with this cluster. */
  predicate EndsAt(r: seq<Extent>, cluster: nat)
    requires r != []
  {
    var e := r[|r| - 1];
    e.count >= 1 && e.sector + e.count == SectorOf(cluster) + 1
  }

  /** The extents of a cluster list, in order: a new one wherever a cluster does not follow its predecessor. */
  function Extents(cl: seq<nat>): (r: seq<Extent>)
    ensures |r| <= |cl| && (cl != [] ==> r != [])
  {
    if cl == [] then []
    else
      var n := |cl| - 1;
      if n == 0 then [Extent(SectorOf(cl[0]), 1)]
      else
        Grown(Extents(cl[..n]), cl[n - 1], cl[n])
  }

  function SectorsOf(e: Extent): (r: seq<nat>)
    ensures |r| == e.count
  {
    seq(e.count, i => e.sector + i)
  }

  function Expand(es: seq<Extent>): seq<nat> {
    if es == [] then [] else Expand(es[..|es| - 1]) + SectorsOf(es[|es| - 1])
  }

  function Sectors(cl: seq<nat>): (r: seq<nat>)
    ensures |r| == |cl|
  {
    seq(|cl|, i requires 0 <= i < |cl| => SectorOf(cl[i]))
  }

  lemma ExpandGrown(r: seq<Extent>, e: Extent)
    requires r != [] && e == r[|r| - 1].(count := r[|r| - 1].count + 1)
    ensures Expand(r[|r| - 1 := e]) == Expand(r) + [e.sector + e.count - 1]
  {
    var m := |r| - 1;
    assert r[m := e][..m] == r[..m];
    assert SectorsOf(e) == SectorsOf(r[m]) + [e.sector + e.count - 1];
  }

  lemma ExpandAppended(r: seq<Extent>, s: nat)
    ensures Expand(r + [Extent(s, 1)]) == Expand(r) + [s]
  {
    assert (r + [Extent(s, 1)])[..|r|] == r;
    assert SectorsOf(Extent(s, 1)) == [s];
  }

  /** Expanding the extents gives the cluster list back, and the last extent ends at the last cluster. */
  lemma {:induction false} ExpandExtents(cl: seq<nat>)
    requires cl != []
    ensures Expand(Extents(cl)) == Sectors(cl)
    ensures EndsAt(Extents(cl), cl[|cl| - 1])
  {
    var n := |cl| - 1;
    if n == 0 {
      OneCluster(cl);
    } else {
      var r := Extents(cl[..n]);
      ExpandExtents(cl[..n]);
      GrownEnds(r, cl[n - 1], cl[n]);
      GrownExpands(r, cl[n - 1], cl[n]);
      SectorsSnoc(cl, n);
    }
  }

  lemma OneCluster(cl: seq<nat>)
    requires |cl| == 1
    ensures Expand(Extents(cl)) == Sectors(cl) && EndsAt(Extents(cl), cl[0])
  {
    ExpandAppended([], SectorOf(cl[0]));
    assert Extents(cl) == [] + [Extent(SectorOf(cl[0]), 1)];
    assert Expand([]) == [];
  }

  lemma SectorsSnoc(cl: seq<nat>, n: nat)
    requires n + 1 == |cl|
    ensures Sectors(cl) == Sectors(cl[..n]) + [SectorOf(cl[n])]
  {
  }

  lemma GrownEnds(r: seq<Extent>, prev: nat, last: nat)
    requires r != [] && EndsAt(r, prev)
    ensures EndsAt(Grown(r, prev, last), last)
  {
  }

  lemma GrownExpands(r: seq<Extent>, prev: nat, last: nat)
    requires r != [] && EndsAt(r, prev)
    ensures Expand(Grown(r, prev, last)) == Expand(r) + [SectorOf(last)]
  {
    if last == prev + SECTOR {
      var e := Extent(r[|r| - 1].sector, r[|r| - 1].count + 1);
      assert e.sector + e.count - 1 == SectorOf(last);
      ExpandGrown(r, e);
    } else {
      ExpandAppended(r, SectorOf(last));
    }
  }

  predicate Aligned(cl: seq<nat>) {
    forall i :: 0 <= i < |cl| ==> cl[i] % SECTOR == 0
  }

  predicate Maximal(es: seq<Extent>) {
    && (forall k :: 0 <= k < |es| ==> es[k].count >= 1)
    && (forall k :: 1 <= k < |es| ==> es[k - 1].sector + es[k - 1].count != es[k].sector)
  }

  lemma GrownMaximal(r: seq<Extent>, prev: nat, last: nat)
    requires r != [] && Maximal(r) && EndsAt(r, prev) && prev % SECTOR == 0 && last % SECTOR == 0
    ensures Maximal(Grown(r, prev, last))
  {
    var g, m := Grown(r, prev, last), |r| - 1;
    if last != prev + SECTOR {
      assert SectorOf(last) != SectorOf(prev) + 1;
      assert forall k :: 0 <= k < |r| ==> g[k] == r[k];
    } else {
      assert forall k :: 0 <= k < m ==> g[k] == r[k];
      assert g[m].sector == r[m].sector;
    }
  }

  /** No two neighbouring extents could have been one. */
  lemma {:induction false} ExtentsMaximal(cl: seq<nat>)
    requires Aligned(cl)
    ensures Maximal(Extents(cl))
  {
    if |cl| <= 1 {
    } else {
      var n := |cl| - 1;
      ExtentsMaximal(cl[..n]);
      ExpandExtents(cl[..n]);
      GrownMaximal(Extents(cl[..n]), cl[n - 1], cl[n]);
    }
  }

  // ---------------------------------------------------------------- chunks

  function NumChunks(n: nat): nat { n / PER_CHUNK + (if n % PER_CHUNK != 0 then 1 else 0) }

  /** A map entry holds 16-bit words. */
  function Stored(e: Extent): Extent { Extent(e.sector % 0x1_0000, e.count % 0x1_0000) }

  /** Entry k of the zero-initialised chunk table. */
  function SlotOf(es: seq<Extent>, k: nat): Extent { if k < |es| then Stored(es[k]) else NO_EXTENT }

  /** The counting loop (lines 97-108). */
  method CountChunks(cl: seq<nat>) returns (entries: nat, chunks: nat)
    requires cl != []
    ensures entries == |Extents(cl)| && chunks == NumChunks(entries)
  {
    entries := 1;
    for i := 1 to |cl|
      invariant entries == |Extents(cl[..i])|
    {
      assert cl[..i + 1][..i] == cl[..i];
      if cl[i] != cl[i - 1] + SECTOR {
        entries := entries + 1;
      }
    }
    assert cl[..|cl|] == cl;
    chunks := entries / PER_CHUNK;
    if entries % PER_CHUNK != 0 {
      chunks := chunks + 1;
    }
  }

  /** The table holds the extents, chunk by chunk, and zeros behind them. */
  ghost predicate Filled(chunks: array2<Extent>, es: seq<Extent>)
    reads chunks
  {
    chunks.Length1 == PER_CHUNK &&
    forall c, i :: 0 <= c < chunks.Length0 && 0 <= i < PER_CHUNK ==> chunks[c, i] == SlotOf(es, PER_CHUNK * c + i)
  }

  /** Write the last extent of es', the table so far holding es. */
  method PutSlot(chunks: array2<Extent>, c: nat, i: nat, e: Extent, ghost es: seq<Extent>, ghost es': seq<Extent>)
    requires Filled(chunks, es) && c < chunks.Length0 && i < PER_CHUNK
    requires PER_CHUNK * c + i + 1 == |es'| && |es| <= |es'| <= |es| + 1
    requires es'[..|es'| - 1] == es[..|es'| - 1] && e == Stored(es'[|es'| - 1])
    modifies chunks
    ensures Filled(chunks, es')
  {
    chunks[c, i] := e;
    forall c', i' | 0 <= c' < chunks.Length0 && 0 <= i' < PER_CHUNK
      ensures chunks[c', i'] == SlotOf(es', PER_CHUNK * c' + i')
    {
      var k := PER_CHUNK * c' + i';
      assert k < |es'| - 1 ==> es'[k] == es'[..|es'| - 1][k] == es[..|es'| - 1][k] == es[k];
    }
  }

  /** What cluster i adds to the extents. */
  lemma ExtentsStep(cl: seq<nat>, i: nat, es: seq<Extent>, es': seq<Extent>)
    requires 1 <= i < |cl| && es == Extents(cl[..i]) && es' == Extents(cl[..i + 1])
    ensures es != []
    ensures es' == if cl[i] != cl[i - 1] + SECTOR then es + [Extent(SectorOf(cl[i]), 1)]
                   else es[|es| - 1 := Extent(es[|es| - 1].sector, es[|es| - 1].count + 1)]
  {
    assert cl[..i + 1][..i] == cl[..i];
  }

  lemma SlotCounted(es: seq<Extent>, k: nat)
    requires k < |es|
    ensures var e := SlotOf(es, k);
            SlotOf(es[k := Extent(es[k].sector, es[k].count + 1)], k) == Extent(e.sector, (e.count + 1) % 0x1_0000)
  {
  }

  /** One cluster of the filling loop (lines 118-134). */
  method PutCluster(cl: seq<nat>, i: nat, chunks: array2<Extent>, cChunk: nat, cMap: nat, ghost es: seq<Extent>)
    returns (cChunk': nat, cMap': nat)
    requires 1 <= i < |cl| && es == Extents(cl[..i]) && es != [] && Filled(chunks, es) && cMap < PER_CHUNK
    requires PER_CHUNK * cChunk + cMap == |es| - 1
    requires |Extents(cl[..i + 1])| <= PER_CHUNK * chunks.Length0
    modifies chunks
    ensures Filled(chunks, Extents(cl[..i + 1])) && cMap' < PER_CHUNK
    ensures PER_CHUNK * cChunk' + cMap' == |Extents(cl[..i + 1])| - 1
  {
    ghost var es' := Extents(cl[..i + 1]);
    ExtentsStep(cl, i, es, es');
    cChunk', cMap' := cChunk, cMap;
    if cl[i] != cl[i - 1] + SECTOR {
      cChunk', cMap' := NextSlot(cChunk, cMap);
      PutSlot(chunks, cChunk', cMap', Extent(SectorOf(cl[i]) % 0x1_0000, 1), es, es');
    } else {
      Count(chunks, cChunk, cMap, es, es');
    }
  }

  /** The slot behind this one, in the next chunk if this is its last. */
  method NextSlot(c: nat, i: nat) returns (c': nat, i': nat)
    requires i < PER_CHUNK
    ensures i' < PER_CHUNK && PER_CHUNK * c' + i' == PER_CHUNK * c + i + 1
  {
    c', i' := c, i + 1;
    if i' >= PER_CHUNK {
      i' := 0;
      c' := c' + 1;
    }
  }

  /** One more sector in the last extent. */
  method Count(chunks: array2<Extent>, c: nat, i: nat, ghost es: seq<Extent>, ghost es': seq<Extent>)
    requires Filled(chunks, es) && es != [] && c < chunks.Length0 && i < PER_CHUNK && PER_CHUNK * c + i == |es| - 1
    requires es' == es[|es| - 1 := Extent(es[|es| - 1].sector, es[|es| - 1].count + 1)]
    modifies chunks
    ensures Filled(chunks, es')
  {
    SlotCounted(es, |es| - 1);
    var e := chunks[c, i];
    PutSlot(chunks, c, i, Extent(e.sector, (e.count + 1) % 0x1_0000), es, es');
  }

  lemma ChunksSuffice(n: nat)
    ensures n <= PER_CHUNK * NumChunks(n) && (n > 0 ==> NumChunks(n) > 0)
  {
  }

  /** _round1's table: counted first, then filled; the filling pass stays inside the counted chunks. */
  method Round1(cl: seq<nat>) returns (chunks: array2<Extent>)
    requires cl != []
    ensures fresh(chunks) && chunks.Length0 == NumChunks(|Extents(cl)|) && Filled(chunks, Extents(cl))
  {
    var entries, n := CountChunks(cl);
    ChunksSuffice(entries);
    ExtentsGrow(cl, 1);
    chunks := new Extent[n, PER_CHUNK]((c, i) => NO_EXTENT);
    var cMap: nat, cChunk: nat := 0, 0;
    ghost var es := Extents(cl[..1]);
    PutSlot(chunks, 0, 0, Extent(SectorOf(cl[0]) % 0x1_0000, 1), [], es);
    for i := 1 to |cl|
      invariant es == Extents(cl[..i]) && es != []
      invariant PER_CHUNK * cChunk + cMap == |es| - 1 && cMap < PER_CHUNK
      invariant Filled(chunks, es)
    {
      ExtentsGrow(cl, i + 1);
      cChunk, cMap := PutCluster(cl, i, chunks, cChunk, cMap, es);
      es := Extents(cl[..i + 1]);
    }
    assert cl[..|cl|] == cl;
  }

  lemma {:induction false} ExtentsGrow(cl: seq<nat>, i: nat)
    requires i <= |cl|
    ensures |Extents(cl[..i])| <= |Extents(cl)|
    decreases |cl| - i
  {
    if i == |cl| {
      assert cl[..i] == cl;
    } else {
      assert cl[..i + 1][..i] == cl[..i];
      ExtentsGrow(cl, i + 1);
    }
  }
}
