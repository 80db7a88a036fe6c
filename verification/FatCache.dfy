/**
  The four-way ranked cache in front of the FAT (src/storage/fs/fat.c, lines 90-156) as a value:
  what it returns, and which entry it gives up.
*/
module FatCache {
  import opened Wrappers
  import opened Bytes

  const WAYS: nat := 4

  /** Block addresses, ranks (0 is the latest use) and buffers of the cache entries. */
  datatype Cache = Cache(clust: seq<nat>, rank: seq<nat>, line: seq<seq<byte>>)

  predicate Shaped(c: Cache, size: nat) {
    |c.clust| == WAYS && |c.rank| == WAYS && |c.line| == WAYS && forall i :: 0 <= i < WAYS ==> |c.line[i]| == size
  }

  /** _fat_cache_touch */
  function Touch(rank: seq<nat>, idx: nat): (r: seq<nat>)
    requires |rank| == WAYS && idx < WAYS
    ensures |r| == WAYS
  {
    seq(WAYS, i requires 0 <= i < WAYS =>
      if i == idx then 0 else if rank[i] < rank[idx] then rank[i] + 1 else rank[i])
  }

  /** The first of the first n entries with the greatest rank. */
  function Oldest(rank: seq<nat>, n: nat): (r: nat)
    requires |rank| == WAYS && 1 <= n <= WAYS
    ensures r < n && forall i :: 0 <= i < n ==> rank[i] <= rank[r]
  {
    if n == 1 then 0
    else
      var r := Oldest(rank, n - 1);
      if rank[n - 1] > rank[r] then n - 1 else r
  }

  function Lookup(clust: seq<nat>, a: nat, n: nat): (r: Option<nat>)
    requires |clust| == WAYS && n <= WAYS
    ensures r.Some? ==> r.value < n && clust[r.value] == a
    ensures r.None? ==> forall i :: 0 <= i < n ==> clust[i] != a
  {
    if n == 0 then None
    else
      var r := Lookup(clust, a, n - 1);
      if r.None? && clust[n - 1] == a then Some(n - 1) else r
  }

  /** The cache after the block at address a, with these contents on disk, has been asked for. */
  function Access(c: Cache, a: nat, block: seq<byte>): (r: Cache)
    requires Shaped(c, |block|)
    ensures Shaped(r, |block|)
  {
    var hit := Lookup(c.clust, a, WAYS);
    if hit.Some? then
      if c.rank[hit.value] != 0 then c.(rank := Touch(c.rank, hit.value)) else c
    else
      var v := Oldest(c.rank, WAYS);
      Cache(c.clust[v := a], Touch(c.rank, v), c.line[v := block])
  }

  /** What the caller gets. */
  function Served(c: Cache, a: nat, block: seq<byte>): seq<byte>
    requires Shaped(c, |block|)
  {
    var hit := Lookup(c.clust, a, WAYS);
    if hit.Some? then c.line[hit.value] else block
  }

  // ---------------------------------------------------------------- coherence

  /** A block address a lookup can ask for. */
  predicate Readable(d: Disk, size: nat, sector: nat, a: nat) {
    sector > 0 && a % sector == 0 && a + size <= |d|
  }

  function Block(d: Disk, size: nat, a: nat): (r: seq<byte>)
    requires a + size <= |d|
    ensures |r| == size
  {
    d[a..a + size]
  }

  /** Every entry whose address can be asked for holds what the disk holds there. */
  ghost predicate Coherent(c: Cache, d: Disk, size: nat, sector: nat) {
    Shaped(c, size) &&
    forall i :: 0 <= i < WAYS && Readable(d, size, sector, c.clust[i]) ==> c.line[i] == Block(d, size, c.clust[i])
  }

  /** A lookup serves the disk's bytes, and hit, miss and eviction keep the cache coherent. */
  lemma AccessCoherent(c: Cache, d: Disk, size: nat, sector: nat, a: nat)
    requires Coherent(c, d, size, sector) && Readable(d, size, sector, a)
    ensures Served(c, a, Block(d, size, a)) == Block(d, size, a)
    ensures Coherent(Access(c, a, Block(d, size, a)), d, size, sector)
  {
  }

  predicate AllReadable(d: Disk, size: nat, sector: nat, run: seq<nat>) {
    forall i :: 0 <= i < |run| ==> Readable(d, size, sector, run[i])
  }

  /** The cache after a run of lookups. */
  function Run(c: Cache, d: Disk, size: nat, sector: nat, run: seq<nat>): (r: Cache)
    requires Shaped(c, size) && AllReadable(d, size, sector, run)
    ensures Shaped(r, size)
  {
    if run == [] then c
    else
      var n := |run| - 1;
      Access(Run(c, d, size, sector, run[..n]), run[n], Block(d, size, run[n]))
  }

  /** Whatever the initial ranks, every lookup of every run is served with the disk's bytes. */
  lemma {:induction false} RunCoherent(c: Cache, d: Disk, size: nat, sector: nat, run: seq<nat>, a: nat)
    requires Coherent(c, d, size, sector) && AllReadable(d, size, sector, run) && Readable(d, size, sector, a)
    ensures Coherent(Run(c, d, size, sector, run), d, size, sector)
    ensures Served(Run(c, d, size, sector, run), a, Block(d, size, a)) == Block(d, size, a)
  {
    if run == [] {
    } else {
      var n := |run| - 1;
      RunCoherent(c, d, size, sector, run[..n], run[n]);
      AccessCoherent(Run(c, d, size, sector, run[..n]), d, size, sector, run[n]);
    }
    AccessCoherent(Run(c, d, size, sector, run), d, size, sector, a);
  }

  // ---------------------------------------------------------------- replacement

  /** order lists the entries, their ranks strictly increasing. */
  predicate Orders(order: seq<nat>, rank: seq<nat>) {
    && |order| == WAYS && |rank| == WAYS
    && (forall k :: 0 <= k < WAYS ==> order[k] < WAYS)
    && rank[order[0]] < rank[order[1]] < rank[order[2]] < rank[order[3]]
  }

  /** The block addresses, most recently used first. */
  function ByAge(c: Cache, order: seq<nat>): (r: seq<nat>)
    requires |c.clust| == WAYS && Orders(order, c.rank)
    ensures |r| == WAYS
  {
    seq(WAYS, k requires 0 <= k < WAYS => c.clust[order[k]])
  }

  function IndexOf(l: seq<nat>, a: nat): (r: nat)
    requires a in l
    ensures r < |l| && l[r] == a
  {
    if l[0] == a then 0 else 1 + IndexOf(l[1..], a)
  }

  /** Textbook least-recently-used replacement on a list of addresses, latest first. */
  function LruStep(l: seq<nat>, a: nat): seq<nat>
    requires |l| == WAYS
  {
    if a in l then var k := IndexOf(l, a); [a] + l[..k] + l[k + 1..]
    else [a] + l[..WAYS - 1]
  }

  function LruRun(l: seq<nat>, run: seq<nat>): (r: seq<nat>)
    requires |l| == WAYS
    ensures |r| == WAYS
  {
    if run == [] then l else LruStep(LruRun(l, run[..|run| - 1]), run[|run| - 1])
  }

  function ToFront(order: seq<nat>, k: nat): seq<nat>
    requires k < |order|
  {
    [order[k]] + order[..k] + order[k + 1..]
  }

  predicate Distinct(l: seq<nat>) {
    forall i, j :: 0 <= i < j < |l| ==> l[i] != l[j]
  }

  /** Pairwise distinct ranks, whatever they are, put the entries in an order; equal ones do not. */
  lemma DistinctRanksOrder(rank: seq<nat>)
    requires |rank| == WAYS
    ensures Distinct(rank) <==> exists order :: Orders(order, rank)
  {
    if Distinct(rank) {
      var order := SortFour(rank);
    }
    if order :| Orders(order, rank) {
      forall i, j | 0 <= i < j < WAYS
        ensures rank[i] != rank[j]
      {
        var a := PlaceOf(order, rank, i);
        var b := PlaceOf(order, rank, j);
      }
    }
  }

  lemma SortFour(rank: seq<nat>) returns (order: seq<nat>)
    requires |rank| == WAYS && Distinct(rank)
    ensures Orders(order, rank)
  {
    var a, b := if rank[0] < rank[1] then 0 else 1, if rank[0] < rank[1] then 1 else 0;
    var c, d := if rank[2] < rank[3] then 2 else 3, if rank[2] < rank[3] then 3 else 2;
    assert rank[a] < rank[b] && rank[c] < rank[d] && rank[a] != rank[c] && rank[b] != rank[d];
    var first, second := if rank[a] < rank[c] then a else c, if rank[a] < rank[c] then c else a;
    var last, third := if rank[b] < rank[d] then d else b, if rank[b] < rank[d] then b else d;
    if rank[b] < rank[c] {
      order := [a, b, c, d];
    } else if rank[d] < rank[a] {
      order := [c, d, a, b];
    } else {
      order := [first, if rank[second] < rank[third] then second else third,
                if rank[second] < rank[third] then third else second, last];
    }
  }

  /** Where an entry stands in the order. */
  lemma PlaceOf(order: seq<nat>, rank: seq<nat>, i: nat) returns (k: nat)
    requires Orders(order, rank) && i < WAYS
    ensures k < WAYS && order[k] == i
  {
    k := if order[0] == i then 0 else if order[1] == i then 1 else if order[2] == i then 2 else 3;
  }

  /** Touching an entry moves it to the front of the order and leaves the others in theirs. */
  lemma TouchMovesToFront(order: seq<nat>, rank: seq<nat>, k: nat)
    requires Orders(order, rank) && k < WAYS
    ensures Orders(ToFront(order, k), Touch(rank, order[k]))
  {
    var o := ToFront(order, k);
    assert forall j :: 0 <= j < WAYS ==> o[j] == if j == 0 then order[k] else if j <= k then order[j - 1] else order[j];
  }

  /** The entry given up is the last in the order. */
  lemma OldestIsLast(order: seq<nat>, rank: seq<nat>)
    requires Orders(order, rank)
    ensures Oldest(rank, WAYS) == order[WAYS - 1]
  {
    var k := PlaceOf(order, rank, Oldest(rank, WAYS));
  }

  /** One lookup does what textbook LRU does. */
  lemma AccessIsLru(c: Cache, order: seq<nat>, a: nat, block: seq<byte>) returns (order': seq<nat>)
    requires Shaped(c, |block|) && Orders(order, c.rank) && Distinct(c.clust)
    ensures Orders(order', Access(c, a, block).rank) && Distinct(Access(c, a, block).clust)
    ensures ByAge(Access(c, a, block), order') == LruStep(ByAge(c, order), a)
  {
    var hit := Lookup(c.clust, a, WAYS);
    var k := PlaceOf(order, c.rank, if hit.Some? then hit.value else Oldest(c.rank, WAYS));
    order' := ToFront(order, k);
    if hit.Some? {
      AgeAfterHit(c, order, a, k);
      TouchFirst(order, c.rank, k);
    } else {
      OldestIsLast(order, c.rank);
      DistinctUpdate(c.clust, order[k], a);
      AgeAfterMiss(c, order, a, Access(c, a, block));
    }
  }

  lemma TouchFirst(order: seq<nat>, rank: seq<nat>, k: nat)
    requires Orders(order, rank) && k < WAYS
    ensures rank[order[k]] == 0 ==> Touch(rank, order[k]) == rank
  {
  }

  lemma PlaceOfAddress(c: Cache, order: seq<nat>, a: nat, k: nat)
    requires |c.clust| == WAYS && Distinct(c.clust) && Orders(order, c.rank) && k < WAYS && c.clust[order[k]] == a
    ensures a in ByAge(c, order) && IndexOf(ByAge(c, order), a) == k
  {
    var l := ByAge(c, order);
    assert l[k] == a;
    assert order[IndexOf(l, a)] == order[k];
  }

  lemma FrontByAge(c: Cache, order: seq<nat>, k: nat)
    requires |c.clust| == WAYS && Orders(order, c.rank) && k < WAYS
    ensures var l, r := ByAge(c, order), c.(rank := Touch(c.rank, order[k]));
      Orders(ToFront(order, k), r.rank) ==> ByAge(r, ToFront(order, k)) == [l[k]] + l[..k] + l[k + 1..]
  {
    var o := ToFront(order, k);
    assert forall j :: 0 <= j < WAYS ==> o[j] == if j == 0 then order[k] else if j <= k then order[j - 1] else order[j];
  }

  lemma AgeAfterHit(c: Cache, order: seq<nat>, a: nat, k: nat)
    requires |c.clust| == WAYS && Distinct(c.clust) && Orders(order, c.rank) && k < WAYS && c.clust[order[k]] == a
    ensures var r := c.(rank := Touch(c.rank, order[k]));
      Orders(ToFront(order, k), r.rank) && ByAge(r, ToFront(order, k)) == LruStep(ByAge(c, order), a)
  {
    TouchMovesToFront(order, c.rank, k);
    PlaceOfAddress(c, order, a, k);
    FrontByAge(c, order, k);
  }

  lemma DistinctUpdate(l: seq<nat>, v: nat, a: nat)
    requires Distinct(l) && v < |l| && a !in l
    ensures Distinct(l[v := a])
  {
  }

  lemma AgeAfterMiss(c: Cache, order: seq<nat>, a: nat, r: Cache)
    requires |c.clust| == WAYS && |c.line| == WAYS && Orders(order, c.rank) && a !in c.clust
    requires r.clust == c.clust[order[WAYS - 1] := a] && r.rank == Touch(c.rank, order[WAYS - 1])
    ensures Orders(ToFront(order, WAYS - 1), r.rank)
    ensures ByAge(r, ToFront(order, WAYS - 1)) == LruStep(ByAge(c, order), a)
  {
    TouchMovesToFront(order, c.rank, WAYS - 1);
    var l, o := ByAge(c, order), ToFront(order, WAYS - 1);
    assert a !in l;
    assert o == [order[3], order[0], order[1], order[2]];
    assert l[..WAYS - 1] == [l[0], l[1], l[2]];
    assert ByAge(r, o) == [a, l[0], l[1], l[2]];
  }

  /** From pairwise distinct ranks, every run keeps the cache in exactly the LRU order of its addresses. */
  lemma {:induction false} RunIsLru(c: Cache, order: seq<nat>, d: Disk, size: nat, sector: nat, run: seq<nat>)
    returns (order': seq<nat>)
    requires Shaped(c, size) && AllReadable(d, size, sector, run) && Orders(order, c.rank) && Distinct(c.clust)
    ensures var r := Run(c, d, size, sector, run);
            Orders(order', r.rank) && Distinct(r.clust) && ByAge(r, order') == LruRun(ByAge(c, order), run)
  {
    order' := order;
    if run == [] {
    } else {
      var n := |run| - 1;
      var o := RunIsLru(c, order, d, size, sector, run[..n]);
      order' := AccessIsLru(Run(c, d, size, sector, run[..n]), o, run[n], Block(d, size, run[n]));
    }
  }

  /** An address held twice: the order by age after a lookup is not the one LRU leaves. */
  lemma SameAddressTwice(line: seq<byte>)
    ensures var c := Cache([10, 10, 20, 30], [2, 0, 1, 3], seq(WAYS, i => line));
      var r := Access(c, 10, line);
      && Orders([1, 2, 0, 3], c.rank) && Orders([0, 1, 2, 3], r.rank)
      && ByAge(r, [0, 1, 2, 3]) == [10, 10, 20, 30]
      && LruStep(ByAge(c, [1, 2, 0, 3]), 10) == [10, 20, 10, 30]
  {
    var c := Cache([10, 10, 20, 30], [2, 0, 1, 3], seq(WAYS, i => line));
    assert ByAge(c, [1, 2, 0, 3]) == [10, 20, 10, 30];
    assert IndexOf([10, 20, 10, 30], 10) == 0;
    assert Lookup(c.clust, 10, 1) == Some(0);
    assert Access(c, 10, line).rank == Touch(c.rank, 0) == [0, 1, 2, 3];
  }

  const ZERO_RANKS: seq<nat> := [0, 0, 0, 0]

  lemma OldestOfZero(n: nat)
    requires 1 <= n <= WAYS
    ensures Oldest(ZERO_RANKS, n) == 0
  {
    if n > 1 {
      OldestOfZero(n - 1);
    }
  }

  /**
    From ranks that are all zero no run ever ranks an entry: entries 1 to 3 keep their addresses, and
    entry 0 takes every block that is not theirs.
  */
  lemma {:induction false} ZeroRanksStay(c: Cache, d: Disk, size: nat, sector: nat, run: seq<nat>)
    requires Shaped(c, size) && AllReadable(d, size, sector, run) && c.rank == ZERO_RANKS
    ensures var r := Run(c, d, size, sector, run);
            r.rank == ZERO_RANKS && r.clust[1..] == c.clust[1..] && r.line[1..] == c.line[1..]
    ensures run != [] && run[|run| - 1] !in c.clust[1..] ==>
              Run(c, d, size, sector, run).clust[0] == run[|run| - 1]
  {
    if run == [] {
    } else {
      var n := |run| - 1;
      var m := Run(c, d, size, sector, run[..n]);
      ZeroRanksStay(c, d, size, sector, run[..n]);
      OldestOfZero(WAYS);
      ZeroStep(m, run[n], Block(d, size, run[n]));
    }
  }

  lemma ZeroStep(c: Cache, a: nat, block: seq<byte>)
    requires Shaped(c, |block|) && c.rank == ZERO_RANKS && Oldest(ZERO_RANKS, WAYS) == 0
    ensures var r := Access(c, a, block);
            && r.rank == ZERO_RANKS && r.clust[1..] == c.clust[1..] && r.line[1..] == c.line[1..]
            && (a !in c.clust[1..] ==> r.clust[0] == a)
  {
    assert Touch(c.rank, 0) == ZERO_RANKS;
    var hit := Lookup(c.clust, a, WAYS);
    if hit.Some? && hit.value > 0 {
      assert c.clust[1..][hit.value - 1] == a;
    }
  }

  /** So the cache is not LRU from there: two blocks asked for in turn displace each other. */
  lemma ZeroRanksThrash(c: Cache, d: Disk, size: nat, sector: nat, a: nat, b: nat, order: seq<nat>)
    requires Shaped(c, size) && AllReadable(d, size, sector, [a, b]) && c.rank == ZERO_RANKS
    requires a != b && a !in c.clust[1..] && b !in c.clust[1..] && |order| == WAYS
    ensures a !in Run(c, d, size, sector, [a, b]).clust
    ensures a in LruRun(order, [a, b])
  {
    var run := [a, b];
    var r := Run(c, d, size, sector, run);
    ZeroRanksStay(c, d, size, sector, run);
    assert r.clust == [b] + c.clust[1..];
    LruKeepsPrevious(order, a, b);
  }

  lemma LruKeepsPrevious(order: seq<nat>, a: nat, b: nat)
    requires |order| == WAYS && a != b
    ensures a in LruRun(order, [a, b])
  {
    assert [a, b][..1] == [a] && [a][..0] == [];
    var l := LruStep(order, a);
    assert LruRun(order, []) == order && LruRun(order, [a]) == l && l[0] == a;
    assert LruStep(l, b)[1] == a;
  }
}
