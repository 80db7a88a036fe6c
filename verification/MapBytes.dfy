/** The map file: the chunk table of the first pass as the bytes that are written (tools/sector_mapper/src/main.c, lines 97-145). */
module MapBytes {
  import opened Bytes
  import opened SectorMap
  import opened SectorWalk

  /** sector_map_entry_t */
  function EntryBytes(e: Extent): (r: seq<byte>)
    ensures |r| == 4
  {
    Put16(e.sector % 0x1_0000) + Put16(e.count % 0x1_0000)
  }

  /** The first n entries of chunk c. */
  function EntriesBytes(es: seq<Extent>, c: nat, n: nat): (r: seq<byte>)
    ensures |r| == 4 * n
  {
    if n == 0 then [] else EntriesBytes(es, c, n - 1) + EntryBytes(SlotOf(es, PER_CHUNK * c + n - 1))
  }

  /** sector_map_chunk_t: 127 entries, the link, and a reserved word. */
  function ChunkBytes(es: seq<Extent>, c: nat): (r: seq<byte>)
    ensures |r| == SECTOR
  {
    EntriesBytes(es, c, PER_CHUNK) + Zeros(4)
  }

  /** The first n chunks one behind the other. */
  function ChunksBytes(es: seq<Extent>, n: nat): (r: seq<byte>)
    ensures |r| == SECTOR * n
  {
    if n == 0 then [] else ChunksBytes(es, n - 1) + ChunkBytes(es, n - 1)
  }

  function FileBytes(es: seq<Extent>): seq<byte> { ChunksBytes(es, NumChunks(|es|)) }

  // ---------------------------------------------------------------- reading it back

  lemma {:induction false} EntryInEntries(es: seq<Extent>, c: nat, n: nat, j: nat)
    requires j < n
    ensures EntriesBytes(es, c, n)[4 * j..4 * j + 4] == EntryBytes(SlotOf(es, PER_CHUNK * c + j))
  {
    var all := EntriesBytes(es, c, n - 1);
    if j == n - 1 {
    } else {
      EntryInEntries(es, c, n - 1, j);
      assert EntriesBytes(es, c, n)[4 * j..4 * j + 4] == all[4 * j..4 * j + 4];
    }
  }

  lemma EntryReadBack(b: seq<byte>, j: nat, e: Extent)
    requires |b| == SECTOR && j < PER_CHUNK && b[4 * j..4 * j + 4] == EntryBytes(e)
    ensures EntryAt(b, j) == Stored(e)
  {
    var p := b[4 * j..4 * j + 4];
    ReadBack16(e.sector % 0x1_0000);
    ReadBack16(e.count % 0x1_0000);
    assert p[0] == b[4 * j] && p[1] == b[4 * j + 1] && p[2] == b[4 * j + 2] && p[3] == b[4 * j + 3];
  }

  lemma EntryOfChunk(es: seq<Extent>, c: nat, j: nat)
    requires j < PER_CHUNK
    ensures EntryAt(ChunkBytes(es, c), j) == SlotOf(es, PER_CHUNK * c + j)
  {
    var b, e := ChunkBytes(es, c), SlotOf(es, PER_CHUNK * c + j);
    EntryInEntries(es, c, PER_CHUNK, j);
    assert b[4 * j..4 * j + 4] == EntriesBytes(es, c, PER_CHUNK)[4 * j..4 * j + 4];
    EntryReadBack(b, j, e);
    assert Stored(e) == e;
  }

  /** A chunk read back holds its part of the map, and its link is zero. */
  lemma ChunkReadBack(es: seq<Extent>, c: nat)
    ensures ChunkHolds(ChunkBytes(es, c), es, c) && Le16(ChunkBytes(es, c), NEXT_FIELD) == 0
  {
    var b := ChunkBytes(es, c);
    forall j | 0 <= j < PER_CHUNK
      ensures EntryAt(b, j) == SlotOf(es, PER_CHUNK * c + j)
    {
      EntryOfChunk(es, c, j);
    }
    assert b[NEXT_FIELD] == 0 && b[NEXT_FIELD + 1] == 0;
  }

  /** The words of a chunk on disk: sector and count of each entry, zeros behind the last, the link, a reserved word. */
  lemma ChunkWords(es: seq<Extent>, c: nat, j: nat)
    requires j < 127
    ensures var b, k := ChunkBytes(es, c), 127 * c + j;
      && Le16(b, 4 * j) == (if k < |es| then es[k].sector % 0x1_0000 else 0)
      && Le16(b, 4 * j + 2) == (if k < |es| then es[k].count % 0x1_0000 else 0)
      && Le16(b, 508) == 0 && Le16(b, 510) == 0
  {
    ChunkReadBack(es, c);
    var b := ChunkBytes(es, c);
    assert EntryAt(b, j) == SlotOf(es, 127 * c + j);
    assert b[510] == 0 && b[511] == 0;
  }

  lemma {:induction false} ChunkInFile(es: seq<Extent>, n: nat, c: nat)
    requires c < n
    ensures ChunksBytes(es, n)[SECTOR * c..SECTOR * c + SECTOR] == ChunkBytes(es, c)
  {
    var all := ChunksBytes(es, n - 1);
    if c == n - 1 {
    } else {
      ChunkInFile(es, n - 1, c);
      assert ChunksBytes(es, n)[SECTOR * c..SECTOR * c + SECTOR] == all[SECTOR * c..SECTOR * c + SECTOR];
    }
  }

  // ---------------------------------------------------------------- writing it

  /** One chunk as write puts it out. */
  method WriteChunk(chunks: array2<Extent>, c: nat, ghost es: seq<Extent>) returns (b: seq<byte>)
    requires Filled(chunks, es) && c < chunks.Length0
    ensures b == ChunkBytes(es, c)
  {
    b := [];
    for i := 0 to PER_CHUNK
      invariant b == EntriesBytes(es, c, i)
    {
      b := b + EntryBytes(chunks[c, i]);
    }
    b := b + Zeros(4);
  }

  /** _round1 from the clusters of stage 2 to the bytes of the map file. */
  method Round1File(cl: seq<nat>) returns (file: seq<byte>)
    requires cl != []
    ensures file == FileBytes(Extents(cl))
  {
    var chunks := Round1(cl);
    file := [];
    for c := 0 to chunks.Length0
      invariant file == ChunksBytes(Extents(cl), c) && Filled(chunks, Extents(cl))
    {
      var b := WriteChunk(chunks, c, Extents(cl));
      file := file + b;
    }
  }
}
