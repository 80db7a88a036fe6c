/**
  From which uninitialised ranks the FAT cache becomes a least-recently-used one.  Entries are told apart
  by their index, so nothing is assumed about the addresses they start with.
*/
module FatLru {
  import opened Wrappers
  import opened Bytes
  import opened FatCache

  // ---------------------------------------------------------------- spread ranks

  function Bit(b: bool): nat { if b then 1 else 0 }

  /** How many entries have a rank below k. */
  function Below(rank: seq<nat>, k: nat): nat
    requires |rank| == WAYS
  {
    Bit(rank[0] < k) + Bit(rank[1] < k) + Bit(rank[2] < k) + Bit(rank[3] < k)
  }

  /** At most one rank is 0, at most two are below 2, and at most three below 3. */
  predicate Spread(rank: seq<nat>)
    requires |rank| == WAYS
  {
    Below(rank, 1) <= 1 && Below(rank, 2) <= 2 && Below(rank, 3) <= 3
  }

  /** No use of an entry spreads crowded ranks or crowds spread ones. */
  lemma TouchSpread(rank: seq<nat>, w: nat)
    requires |rank| == WAYS && w < WAYS
    ensures Spread(Touch(rank, w)) <==> Spread(rank)
  {
  }

  lemma ZeroIsCrowded()
    ensures !Spread(ZERO_RANKS)
  {
  }

  lemma DistinctIsSpread(rank: seq<nat>)
    requires |rank| == WAYS && Distinct(rank)
    ensures Spread(rank)
  {
  }

  predicate Entries(uses: seq<nat>) { forall i :: 0 <= i < |uses| ==> uses[i] < WAYS }

  /** The ranks after these entries were used in turn. */
  function Touches(rank: seq<nat>, uses: seq<nat>): (r: seq<nat>)
    requires |rank| == WAYS && Entries(uses)
    ensures |r| == WAYS
  {
    if uses == [] then rank else Touch(Touches(rank, uses[..|uses| - 1]), uses[|uses| - 1])
  }

  lemma {:induction false} TouchesSpread(rank: seq<nat>, uses: seq<nat>)
    requires |rank| == WAYS && Entries(uses)
    ensures Spread(Touches(rank, uses)) <==> Spread(rank)
  {
    if uses == [] {
    } else {
      var n := |uses| - 1;
      TouchesSpread(rank, uses[..n]);
      TouchSpread(Touches(rank, uses[..n]), uses[n]);
    }
  }

  lemma TouchesStep(rank: seq<nat>, uses: seq<nat>, w: nat)
    requires |rank| == WAYS && Entries(uses) && w < WAYS
    ensures Touches(rank, uses + [w]) == Touch(Touches(rank, uses), w)
  {
    assert (uses + [w])[..|uses|] == uses;
  }

  // ---------------------------------------------------------------- the order of use

  /** w becomes the latest. */
  function UseNow(l: seq<nat>, w: nat): (r: seq<nat>)
    ensures |r| == if w in l then |l| else |l| + 1
  {
    if w in l then ToFront(l, IndexOf(l, w)) else [w] + l
  }

  /** The entries used, latest use first. */
  function Recent(uses: seq<nat>): seq<nat> {
    if uses == [] then [] else UseNow(Recent(uses[..|uses| - 1]), uses[|uses| - 1])
  }

  lemma StepRecent(uses: seq<nat>, w: nat)
    ensures Recent(uses + [w]) == UseNow(Recent(uses), w)
  {
    assert (uses + [w])[..|uses|] == uses;
  }

  /** The used entries, and no others, have ranks below their number: their places in the order of use. */
  predicate ByUse(rank: seq<nat>, l: seq<nat>) {
    && |rank| == WAYS && |l| <= WAYS
    && (forall k :: 0 <= k < |l| ==> l[k] < WAYS && rank[l[k]] == k)
    && (forall i :: 0 <= i < WAYS && rank[i] < |l| ==> l[rank[i]] == i)
  }

  lemma InByUse(rank: seq<nat>, l: seq<nat>, w: nat)
    requires ByUse(rank, l) && w < WAYS
    ensures w in l <==> rank[w] < |l|
    ensures w in l ==> IndexOf(l, w) == rank[w]
  {
  }

  lemma UseAgain(rank: seq<nat>, l: seq<nat>, w: nat)
    requires ByUse(rank, l) && w < WAYS && rank[w] < |l|
    ensures ByUse(Touch(rank, w), ToFront(l, rank[w]))
  {
    var k, r := rank[w], ToFront(l, rank[w]);
    assert forall j :: 0 <= j < |l| ==> r[j] == if j == 0 then w else if j <= k then l[j - 1] else l[j];
  }

  lemma Two(rank: seq<nat>, k: nat, i: nat, j: nat)
    requires |rank| == WAYS && i < WAYS && j < WAYS && i != j && rank[i] < k && rank[j] < k
    ensures Below(rank, k) >= 2
  {
  }

  lemma Three(rank: seq<nat>, k: nat, i: nat, j: nat, m: nat)
    requires |rank| == WAYS && i < WAYS && j < WAYS && m < WAYS && i != j && i != m && j != m
    requires rank[i] < k && rank[j] < k && rank[m] < k
    ensures Below(rank, k) >= 3
  {
  }

  lemma AllFour(rank: seq<nat>, k: nat, a: nat, b: nat, c: nat, d: nat)
    requires |rank| == WAYS && a < WAYS && b < WAYS && c < WAYS && d < WAYS
    requires a != b && a != c && a != d && b != c && b != d && c != d
    ensures rank[a] < k && rank[b] < k && rank[c] < k && rank[d] < k ==> Below(rank, k) == 4
  {
  }

  lemma FiveOfFour(a: nat, b: nat, c: nat, d: nat, e: nat)
    requires a < WAYS && b < WAYS && c < WAYS && d < WAYS && e < WAYS
    ensures a == b || a == c || a == d || a == e || b == c || b == d || b == e || c == d || c == e || d == e
  {
  }

  /** Two entries that are not used yet are not both next in rank. */
  lemma NoTie(rank: seq<nat>, l: seq<nat>, w: nat, i: nat)
    requires ByUse(rank, l) && Spread(rank) && w < WAYS && i < WAYS && w != i
    requires rank[w] >= |l| && rank[i] >= |l|
    ensures |l| <= 2 && (rank[w] > |l| || rank[i] > |l|)
  {
    if |l| == 0 {
      if rank[w] == rank[i] == 0 {
        Two(rank, 1, w, i);
      }
    } else if |l| == 1 {
      if rank[w] == rank[i] == 1 {
        Three(rank, 2, w, i, l[0]);
      }
    } else {
      if |l| > 2 {
        FiveOfFour(l[0], l[1], l[2], w, i);
      } else {
        AllFour(rank, 3, l[0], l[1], w, i);
      }
    }
  }

  lemma FewUsed(rank: seq<nat>, l: seq<nat>, w: nat)
    requires ByUse(rank, l) && w < WAYS && rank[w] >= |l|
    ensures |l| < WAYS
  {
    if |l| == WAYS {
      FiveOfFour(l[0], l[1], l[2], l[3], w);
    }
  }

  lemma UseFirst(rank: seq<nat>, l: seq<nat>, w: nat)
    requires ByUse(rank, l) && Spread(rank) && w < WAYS && rank[w] >= |l|
    ensures ByUse(Touch(rank, w), [w] + l)
  {
    FewUsed(rank, l, w);
    var t, r := Touch(rank, w), [w] + l;
    assert forall j :: 0 <= j < |r| ==> r[j] == if j == 0 then w else l[j - 1];
    forall i | 0 <= i < WAYS && i != w && rank[i] >= |l|
      ensures t[i] > |l|
    {
      NoTie(rank, l, w, i);
    }
  }

  lemma UseKeeps(rank: seq<nat>, l: seq<nat>, w: nat)
    requires ByUse(rank, l) && Spread(rank) && w < WAYS
    ensures ByUse(Touch(rank, w), UseNow(l, w))
  {
    InByUse(rank, l, w);
    if rank[w] < |l| {
      UseAgain(rank, l, w);
    } else {
      UseFirst(rank, l, w);
    }
  }

  /** From spread ranks the ranks tell the order of use, whatever is used. */
  lemma {:induction false} SpreadTellsUse(rank: seq<nat>, uses: seq<nat>)
    requires |rank| == WAYS && Entries(uses) && Spread(rank)
    ensures ByUse(Touches(rank, uses), Recent(uses))
  {
    if uses == [] {
    } else {
      var n := |uses| - 1;
      SpreadTellsUse(rank, uses[..n]);
      TouchesSpread(rank, uses[..n]);
      UseKeeps(Touches(rank, uses[..n]), Recent(uses[..n]), uses[n]);
    }
  }

  lemma ByUseDistinct(rank: seq<nat>, l: seq<nat>)
    requires ByUse(rank, l) && |l| == WAYS
    ensures Distinct(rank)
  {
    forall i | 0 <= i < WAYS
      ensures rank[i] < WAYS
    {
      if rank[i] >= WAYS {
        FewUsed(rank, l, i);
      }
    }
  }

  // ---------------------------------------------------------------- what is given up

  /** What a miss replaces is right: an entry not used yet, or the one whose last use is longest ago. */
  predicate VictimOk(rank: seq<nat>, l: seq<nat>)
    requires |rank| == WAYS
  {
    if |l| < WAYS then Oldest(rank, WAYS) !in l else Oldest(rank, WAYS) == l[WAYS - 1]
  }

  /** As long as entries are unused one of them has a rank beyond all used ones. */
  lemma SomeUnused(rank: seq<nat>, l: seq<nat>)
    requires ByUse(rank, l) && |l| < WAYS
    ensures exists i :: 0 <= i < WAYS && rank[i] >= |l|
  {
    if rank[0] < |l| && rank[1] < |l| && rank[2] < |l| && rank[3] < |l| {
      FiveOfFour(rank[0], rank[1], rank[2], rank[3], 3);
    }
  }

  lemma ByUseVictim(rank: seq<nat>, l: seq<nat>)
    requires ByUse(rank, l)
    ensures VictimOk(rank, l)
  {
    var v := Oldest(rank, WAYS);
    InByUse(rank, l, v);
    if |l| == WAYS {
      assert rank[l[3]] == 3;
      if rank[v] >= WAYS {
        FewUsed(rank, l, v);
      }
    } else {
      SomeUnused(rank, l);
    }
  }

  // ---------------------------------------------------------------- runs of lookups

  /** The entry that a lookup of address a uses: the one found, or the one given up. */
  function UsedBy(c: Cache, a: nat): (w: nat)
    requires |c.clust| == WAYS && |c.rank| == WAYS
    ensures w < WAYS
  {
    var hit := Lookup(c.clust, a, WAYS);
    if hit.Some? then hit.value else Oldest(c.rank, WAYS)
  }

  lemma AccessTouches(c: Cache, a: nat, block: seq<byte>)
    requires Shaped(c, |block|)
    ensures Access(c, a, block).rank == Touch(c.rank, UsedBy(c, a))
  {
  }

  /** The entries a run of lookups uses. */
  function Uses(c: Cache, d: Disk, size: nat, sector: nat, run: seq<nat>): (r: seq<nat>)
    requires Shaped(c, size) && AllReadable(d, size, sector, run)
    ensures Entries(r)
  {
    if run == [] then []
    else
      var n := |run| - 1;
      Uses(c, d, size, sector, run[..n]) + [UsedBy(Run(c, d, size, sector, run[..n]), run[n])]
  }

  lemma {:induction false} RunTouches(c: Cache, d: Disk, size: nat, sector: nat, run: seq<nat>)
    requires Shaped(c, size) && AllReadable(d, size, sector, run)
    ensures Run(c, d, size, sector, run).rank == Touches(c.rank, Uses(c, d, size, sector, run))
  {
    if run == [] {
    } else {
      var n := |run| - 1;
      RunTouches(c, d, size, sector, run[..n]);
      var m := Run(c, d, size, sector, run[..n]);
      AccessTouches(m, run[n], Block(d, size, run[n]));
      TouchesStep(c.rank, Uses(c, d, size, sector, run[..n]), UsedBy(m, run[n]));
    }
  }

  /** No run of lookups makes crowded ranks an order, or loses one that can still be reached. */
  lemma RunSpread(c: Cache, d: Disk, size: nat, sector: nat, run: seq<nat>)
    requires Shaped(c, size) && AllReadable(d, size, sector, run)
    ensures Spread(Run(c, d, size, sector, run).rank) <==> Spread(c.rank)
    ensures Distinct(Run(c, d, size, sector, run).rank) ==> Spread(c.rank)
  {
    RunTouches(c, d, size, sector, run);
    TouchesSpread(c.rank, Uses(c, d, size, sector, run));
    if Distinct(Run(c, d, size, sector, run).rank) {
      DistinctIsSpread(Run(c, d, size, sector, run).rank);
    }
  }

  /** After this run a miss would give up the right entry. */
  predicate GivesUpOldest(c: Cache, d: Disk, size: nat, sector: nat, run: seq<nat>)
    requires Shaped(c, size) && AllReadable(d, size, sector, run)
  {
    VictimOk(Run(c, d, size, sector, run).rank, Recent(Uses(c, d, size, sector, run)))
  }

  /** From spread ranks every run ends with the ranks in the order of use. */
  lemma SpreadIsLru(c: Cache, d: Disk, size: nat, sector: nat, run: seq<nat>)
    requires Shaped(c, size) && AllReadable(d, size, sector, run) && Spread(c.rank)
    ensures ByUse(Run(c, d, size, sector, run).rank, Recent(Uses(c, d, size, sector, run)))
    ensures GivesUpOldest(c, d, size, sector, run)
  {
    RunTouches(c, d, size, sector, run);
    SpreadTellsUse(c.rank, Uses(c, d, size, sector, run));
    ByUseVictim(Run(c, d, size, sector, run).rank, Recent(Uses(c, d, size, sector, run)));
  }

  // ---------------------------------------------------------------- crowded ranks

  /** The entries that n misses in a row replace. */
  function Misses(rank: seq<nat>, n: nat): (r: seq<nat>)
    requires |rank| == WAYS
    ensures |r| == n && Entries(r)
  {
    if n == 0 then []
    else
      var r := Misses(rank, n - 1);
      r + [Oldest(Touches(rank, r), WAYS)]
  }

  /** The ranks after n misses, and the order of use. */
  function Missed(rank: seq<nat>, n: nat): (r: seq<nat>)
    requires |rank| == WAYS
    ensures |r| == WAYS
  {
    Touches(rank, Misses(rank, n))
  }

  function MissOrder(rank: seq<nat>, n: nat): seq<nat>
    requires |rank| == WAYS
  {
    Recent(Misses(rank, n))
  }

  /** After n misses the next one gives up the right entry. */
  predicate RightAt(rank: seq<nat>, n: nat)
    requires |rank| == WAYS
  {
    VictimOk(Missed(rank, n), MissOrder(rank, n))
  }

  /** An entry's rank is at most its place in the order of use. */
  predicate Aged(rank: seq<nat>, l: seq<nat>) {
    |rank| == WAYS && |l| <= WAYS && Entries(l) && Distinct(l) && forall k :: 0 <= k < |l| ==> rank[l[k]] <= k
  }

  /** The states of four and more misses: all entries used, the last one in the order next. */
  predicate Turning(rank: seq<nat>, l: seq<nat>) {
    Aged(rank, l) && |l| == WAYS && Oldest(rank, WAYS) == l[3]
  }

  function Turn(l: seq<nat>): seq<nat>
    requires |l| == WAYS
  {
    [l[3], l[0], l[1], l[2]]
  }

  lemma {:induction false} OldestIsFirst(rank: seq<nat>, n: nat)
    requires |rank| == WAYS && 1 <= n <= WAYS
    ensures forall i :: 0 <= i < Oldest(rank, n) ==> rank[i] < rank[Oldest(rank, n)]
  {
    if n == 1 {
    } else {
      OldestIsFirst(rank, n - 1);
    }
  }

  /** The ranks in the order of use after one more miss. */
  lemma TurnRanks(rank: seq<nat>, l: seq<nat>, rank': seq<nat>, l': seq<nat>)
    requires Turning(rank, l) && rank' == Touch(rank, l[3]) && l' == Turn(l)
    ensures rank[l[0]] <= rank[l[3]] && rank[l[1]] <= rank[l[3]] && rank[l[2]] <= rank[l[3]]
    ensures rank'[l'[0]] == 0
    ensures rank'[l'[1]] == rank[l[0]] + Bit(rank[l[0]] < rank[l[3]])
    ensures rank'[l'[2]] == rank[l[1]] + Bit(rank[l[1]] < rank[l[3]])
    ensures rank'[l'[3]] == rank[l[2]] + Bit(rank[l[2]] < rank[l[3]])
  {
  }

  /** The two entries used longest ago have the same rank. */
  predicate Tied(rank: seq<nat>, l: seq<nat>) {
    && Turning(rank, l) && rank[l[0]] == 0
    && rank[l[1]] == (if rank[l[3]] == 0 then 0 else 1) && rank[l[2]] == rank[l[3]] <= 2
  }

  lemma StaysTied(rank: seq<nat>, l: seq<nat>, rank': seq<nat>, l': seq<nat>)
    requires Tied(rank, l) && rank' == Touch(rank, l[3]) && l' == Turn(l) && Turning(rank', l')
    ensures Tied(rank', l')
  {
    TurnRanks(rank, l, rank', l');
  }

  lemma TieGivesUpFirst(rank: seq<nat>, l: seq<nat>)
    requires Tied(rank, l)
    ensures l[3] < l[2]
  {
    OldestIsFirst(rank, WAYS);
  }

  /** Two more misses bring crowded ranks to a tie. */
  lemma GetsTied(r: seq<nat>, l: seq<nat>, r': seq<nat>, l': seq<nat>, r'': seq<nat>, l'': seq<nat>)
    requires Turning(r, l) && r' == Touch(r, l[3]) && l' == Turn(l)
    requires Turning(r', l') && r'' == Touch(r', l'[3]) && l'' == Turn(l')
    requires Turning(r'', l'') && !Spread(r)
    ensures Tied(r'', l'')
  {
    TurnRanks(r, l, r', l');
    TurnRanks(r', l', r'', l'');
    if r[l[1]] == 1 && r[l[2]] == 2 && r[l[3]] == 3 {
      ByUseDistinct(r, l);
      DistinctIsSpread(r);
    }
  }

  lemma AgeNew(rank: seq<nat>, l: seq<nat>, w: nat)
    requires Aged(rank, l) && |l| < WAYS && w < WAYS && w !in l
    ensures Aged(Touch(rank, w), [w] + l)
  {
    var r := [w] + l;
    assert forall k :: 0 <= k < |r| ==> r[k] == if k == 0 then w else l[k - 1];
  }

  lemma AgeLast(rank: seq<nat>, l: seq<nat>)
    requires Aged(rank, l) && |l| == WAYS
    ensures Aged(Touch(rank, l[3]), Turn(l))
  {
  }

  lemma UseLast(l: seq<nat>)
    requires Distinct(l) && |l| == WAYS
    ensures UseNow(l, l[3]) == Turn(l)
  {
    assert IndexOf(l, l[3]) == 3;
    assert l[..3] == [l[0], l[1], l[2]] && l[3 + 1..] == [];
  }

  /** As long as the right entries are given up, they are four different ones in turn. */
  predicate Filled(rank: seq<nat>, n: nat)
    requires |rank| == WAYS
  {
    Aged(Missed(rank, n), MissOrder(rank, n)) && |MissOrder(rank, n)| == (if n < WAYS then n else WAYS)
  }

  lemma MissStep(rank: seq<nat>, n: nat)
    requires |rank| == WAYS && RightAt(rank, n) && Filled(rank, n)
    ensures Filled(rank, n + 1)
    ensures n >= WAYS ==>
      && Turning(Missed(rank, n), MissOrder(rank, n))
      && Missed(rank, n + 1) == Touch(Missed(rank, n), MissOrder(rank, n)[3])
      && MissOrder(rank, n + 1) == Turn(MissOrder(rank, n))
  {
    var r, l, v := Missed(rank, n), MissOrder(rank, n), Oldest(Missed(rank, n), WAYS);
    TouchesStep(rank, Misses(rank, n), v);
    StepRecent(Misses(rank, n), v);
    if n < WAYS {
      AgeNew(r, l, v);
    } else {
      AgeLast(r, l);
      UseLast(l);
    }
  }

  lemma {:induction false} FilledTo(rank: seq<nat>, n: nat)
    requires |rank| == WAYS && forall i :: 0 <= i < n ==> RightAt(rank, i)
    ensures Filled(rank, n)
  {
    if n == 0 {
    } else {
      FilledTo(rank, n - 1);
      MissStep(rank, n - 1);
    }
  }

  lemma SpreadGoesRight(rank: seq<nat>, n: nat)
    requires |rank| == WAYS && Spread(rank)
    ensures ByUse(Missed(rank, n), MissOrder(rank, n))
    ensures forall i: nat :: i <= n ==> RightAt(rank, i)
  {
    SpreadTellsUse(rank, Misses(rank, n));
    forall i: nat | i <= n
      ensures RightAt(rank, i)
    {
      SpreadTellsUse(rank, Misses(rank, i));
      ByUseVictim(Missed(rank, i), MissOrder(rank, i));
    }
  }

  /** These entries, used in turn, leave pairwise distinct ranks. */
  predicate Sorts(rank: seq<nat>, uses: seq<nat>)
    requires |rank| == WAYS
  {
    Entries(uses) && Distinct(Touches(rank, uses))
  }

  /** Some uses of the entries make the ranks pairwise distinct, and so an order, if and only if they are spread. */
  lemma SpreadExact(rank: seq<nat>)
    requires |rank| == WAYS
    ensures Spread(rank) <==> exists uses: seq<nat> :: Sorts(rank, uses)
  {
    if Spread(rank) {
      SpreadGoesRight(rank, WAYS);
      FilledTo(rank, WAYS);
      ByUseDistinct(Missed(rank, WAYS), MissOrder(rank, WAYS));
      assert Sorts(rank, Misses(rank, WAYS));
    }
    forall uses: seq<nat> | Sorts(rank, uses)
      ensures Spread(rank)
    {
      DistinctIsSpread(Touches(rank, uses));
      TouchesSpread(rank, uses);
    }
  }

  const MANY: nat := 9

  lemma TurnAt(rank: seq<nat>, n: nat)
    requires |rank| == WAYS && WAYS <= n <= MANY && forall i :: 0 <= i <= MANY ==> RightAt(rank, i)
    ensures Turning(Missed(rank, n), MissOrder(rank, n))
    ensures Missed(rank, n + 1) == Touch(Missed(rank, n), MissOrder(rank, n)[3])
    ensures MissOrder(rank, n + 1) == Turn(MissOrder(rank, n))
  {
    FilledTo(rank, n);
    MissStep(rank, n);
  }

  lemma CrowdedTies(rank: seq<nat>)
    requires |rank| == WAYS && !Spread(rank) && forall n :: 0 <= n <= MANY ==> RightAt(rank, n)
    ensures Tied(Missed(rank, 6), MissOrder(rank, 6))
  {
    TurnAt(rank, 4);
    TurnAt(rank, 5);
    TurnAt(rank, 6);
    TouchesSpread(rank, Misses(rank, 4));
    GetsTied(Missed(rank, 4), MissOrder(rank, 4), Missed(rank, 5), MissOrder(rank, 5),
             Missed(rank, 6), MissOrder(rank, 6));
  }

  lemma TiedNext(rank: seq<nat>, n: nat)
    requires |rank| == WAYS && 6 <= n < MANY && forall i :: 0 <= i <= MANY ==> RightAt(rank, i)
    requires Tied(Missed(rank, n), MissOrder(rank, n))
    ensures Tied(Missed(rank, n + 1), MissOrder(rank, n + 1))
  {
    TurnAt(rank, n);
    TurnAt(rank, n + 1);
    StaysTied(Missed(rank, n), MissOrder(rank, n), Missed(rank, n + 1), MissOrder(rank, n + 1));
  }

  lemma FirstGoes(rank: seq<nat>, n: nat)
    requires |rank| == WAYS && 6 <= n <= MANY && forall i :: 0 <= i <= MANY ==> RightAt(rank, i)
    requires Tied(Missed(rank, n), MissOrder(rank, n))
    ensures MissOrder(rank, n)[3] < MissOrder(rank, n)[2]
    ensures MissOrder(rank, n + 1) == Turn(MissOrder(rank, n))
  {
    TurnAt(rank, n);
    TieGivesUpFirst(Missed(rank, n), MissOrder(rank, n));
  }

  /**
    From crowded ranks one of ten misses in a row gives up a wrong entry: of two tied entries the first
    goes, so four right ones in turn would each have to stand before the next, in a cycle.
  */
  lemma CrowdedGoesWrong(rank: seq<nat>)
    requires |rank| == WAYS && !Spread(rank)
    ensures exists n :: 0 <= n <= MANY && !RightAt(rank, n)
  {
    if forall n :: 0 <= n <= MANY ==> RightAt(rank, n) {
      CrowdedTies(rank);
      TiedNext(rank, 6);
      TiedNext(rank, 7);
      TiedNext(rank, 8);
      FirstGoes(rank, 6);
      FirstGoes(rank, 7);
      FirstGoes(rank, 8);
      FirstGoes(rank, 9);
    }
  }

  // ---------------------------------------------------------------- least recently used, exactly

  /** Blocks to read, none of them twice, that the cache does not claim to hold. */
  predicate Fresh(c: Cache, d: Disk, size: nat, sector: nat, run: seq<nat>) {
    AllReadable(d, size, sector, run) && Distinct(run) && forall i :: 0 <= i < |run| ==> run[i] !in c.clust
  }

  lemma {:induction false} FreshMisses(c: Cache, d: Disk, size: nat, sector: nat, run: seq<nat>, n: nat)
    requires Shaped(c, size) && Fresh(c, d, size, sector, run) && n <= |run|
    ensures forall x :: x in Run(c, d, size, sector, run[..n]).clust ==> x in c.clust || x in run[..n]
    ensures Uses(c, d, size, sector, run[..n]) == Misses(c.rank, n)
  {
    if n == 0 {
    } else {
      FreshMisses(c, d, size, sector, run, n - 1);
      assert run[..n][..n - 1] == run[..n - 1];
      var m := Run(c, d, size, sector, run[..n - 1]);
      RunTouches(c, d, size, sector, run[..n - 1]);
      NotBefore(run, n - 1);
      assert run[n - 1] !in m.clust;
      AddsOnly(m, run[n - 1], Block(d, size, run[n - 1]));
    }
  }

  lemma NotBefore(run: seq<nat>, n: nat)
    requires Distinct(run) && n < |run|
    ensures run[n] !in run[..n]
  {
  }

  lemma AddsOnly(c: Cache, a: nat, block: seq<byte>)
    requires Shaped(c, |block|)
    ensures forall x :: x in Access(c, a, block).clust ==> x in c.clust || x == a
    ensures a !in c.clust ==> UsedBy(c, a) == Oldest(c.rank, WAYS)
  {
  }

  /**
    Whatever is asked for, what a miss replaces is an entry not used yet or the one whose last use is
    longest ago, if and only if the ranks are spread at the start.
  */
  lemma LruExact(c: Cache, d: Disk, size: nat, sector: nat, unread: seq<nat>)
    requires Shaped(c, size) && Fresh(c, d, size, sector, unread) && |unread| == MANY
    ensures Spread(c.rank)
      <==> forall run: seq<nat> :: AllReadable(d, size, sector, run) ==> GivesUpOldest(c, d, size, sector, run)
  {
    forall run: seq<nat> | AllReadable(d, size, sector, run) && Spread(c.rank)
      ensures GivesUpOldest(c, d, size, sector, run)
    {
      SpreadIsLru(c, d, size, sector, run);
    }
    if !Spread(c.rank) {
      CrowdedGoesWrong(c.rank);
      var n :| 0 <= n <= MANY && !RightAt(c.rank, n);
      FreshMisses(c, d, size, sector, unread, n);
      RunTouches(c, d, size, sector, unread[..n]);
      assert AllReadable(d, size, sector, unread[..n]) && !GivesUpOldest(c, d, size, sector, unread[..n]);
    }
  }
}
