/**
  The allocation table of src/mm/alloc.c as a value: the slots of all table blocks,
  in chain order, as one sequence.

  The source computes in 32-bit words.  Every table reachable from alloc_init describes
  addresses below HEAP_LIMIT, so none of its sums wraps (lemma AllocHeap.NothingWraps).
*/
module AllocTable {
  import opened Wrappers

  /** alloc_ent_t, with the two flag bits as booleans. */
  datatype Ent = Ent(valid: bool, used: bool, addr: nat, size: nat) {
    predicate Free() { valid && !used }

    predicate Used() { valid && used }

    function End(): nat { addr + size }

    predicate Covers(a: int) { valid && addr <= a < addr + size }

    function Span(): Range { Range(addr, size) }
  }

  datatype Range = Range(start: nat, size: nat) {
    predicate Has(a: int) { start <= a < start + size }
  }

  type Table = seq<Ent>

  // ---------------------------------------------------------------- invariants

  ghost predicate Covered(t: Table, a: int) {
    exists i :: 0 <= i < |t| && t[i].Covers(a)
  }

  /** The VALID entries are nonempty, pairwise disjoint and cover exactly [lo, hi). */
  ghost predicate Tiled(t: Table, lo: nat, hi: nat) {
    && (forall i :: 0 <= i < |t| && t[i].valid ==> 0 < t[i].size && lo <= t[i].addr && t[i].End() <= hi)
    && (forall i, j :: 0 <= i < |t| && 0 <= j < |t| && i != j && t[i].valid && t[j].valid ==>
          t[i].End() <= t[j].addr || t[j].End() <= t[i].addr)
    && (forall a :: lo <= a < hi ==> Covered(t, a))
  }

  /** No free entry ends where another free entry begins. */
  ghost predicate Coalesced(t: Table) {
    forall i, j :: 0 <= i < |t| && 0 <= j < |t| && t[i].Free() && t[j].Free() ==> t[i].End() != t[j].addr
  }

  ghost function UsedRanges(t: Table): set<Range> {
    set i | 0 <= i < |t| && t[i].Used() :: t[i].Span()
  }

  ghost function FreeRanges(t: Table): set<Range> {
    set i | 0 <= i < |t| && t[i].Free() :: t[i].Span()
  }

  // ---------------------------------------------------------------- slots

  /** Number of slots among the first n that hold no entry. */
  function CountUpTo(t: Table, n: nat): nat
    requires n <= |t|
  {
    if n == 0 then 0 else CountUpTo(t, n - 1) + (if t[n - 1].valid then 0 else 1)
  }

  /** free_ents in the source. */
  function CountInvalid(t: Table): nat { CountUpTo(t, |t|) }

  /** The slot _add_alloc fills: the first one in chain order that is not VALID. */
  function FirstInvalid(t: Table): (r: Option<nat>)
    ensures r.Some? ==> r.value < |t| && !t[r.value].valid
    ensures r.Some? ==> forall i :: 0 <= i < r.value ==> t[i].valid
    ensures r.None? ==> forall i :: 0 <= i < |t| ==> t[i].valid
  {
    if t == [] then None
    else
      var r := FirstInvalid(t[..|t| - 1]);
      if r.Some? then r
      else if t[|t| - 1].valid then None
      else Some(|t| - 1)
  }

  lemma {:induction false} CountSamePrefix(t: Table, u: Table, n: nat)
    requires n <= |t| && n <= |u| && forall i :: 0 <= i < n ==> t[i] == u[i]
    ensures CountUpTo(t, n) == CountUpTo(u, n)
  {
    if n == 0 {
    } else {
      CountSamePrefix(t, u, n - 1);
    }
  }

  lemma {:induction false} CountUpdateUpTo(t: Table, k: nat, e: Ent, n: nat)
    requires k < n <= |t|
    ensures CountUpTo(t[k := e], n) ==
            CountUpTo(t, n) + (if t[k].valid then 0 else -1) + (if e.valid then 0 else 1)
  {
    if k == n - 1 {
      CountSamePrefix(t, t[k := e], k);
    } else {
      CountUpdateUpTo(t, k, e, n - 1);
    }
  }

  lemma CountUpdate(t: Table, k: nat, e: Ent)
    requires k < |t|
    ensures CountInvalid(t[k := e]) ==
            CountInvalid(t) + (if t[k].valid then 0 else -1) + (if e.valid then 0 else 1)
  {
    CountUpdateUpTo(t, k, e, |t|);
  }

  const NO_ENT := Ent(false, false, 0, 0)

  /** memset of a new table block: n slots without an entry. */
  function Blank(n: nat): Table { seq(n, _ => NO_ENT) }

  lemma {:induction false} CountAppendBlank(t: Table, n: nat, m: nat)
    requires m <= n
    ensures CountUpTo(t + Blank(n), |t| + m) == CountInvalid(t) + m
  {
    if m == 0 {
      CountSamePrefix(t, t + Blank(n), |t|);
    } else {
      CountAppendBlank(t, n, m - 1);
    }
  }

  lemma {:induction false} CountedSlot(t: Table, n: nat)
    requires n <= |t|
    ensures CountUpTo(t, n) > 0 <==> exists i :: 0 <= i < n && !t[i].valid
  {
    if n == 0 {
    } else {
      CountedSlot(t, n - 1);
    }
  }

  /** A slot is available exactly when the count says so. */
  lemma SlotAvailable(t: Table)
    ensures FirstInvalid(t).Some? <==> CountInvalid(t) > 0
  {
    CountedSlot(t, |t|);
  }

  // ---------------------------------------------------------------- used ranges under updates

  lemma UsedUpdate(t: Table, k: nat, e: Ent)
    requires k < |t|
    requires t[k].Used() ==> forall i :: 0 <= i < |t| && i != k && t[i].Used() ==> t[i].Span() != t[k].Span()
    ensures UsedRanges(t[k := e]) ==
            UsedRanges(t) - (if t[k].Used() then {t[k].Span()} else {}) + (if e.Used() then {e.Span()} else {})
  {
    var t' := t[k := e];
    forall r | r in UsedRanges(t) && !(t[k].Used() && r == t[k].Span())
      ensures r in UsedRanges(t')
    {
      var i :| 0 <= i < |t| && t[i].Used() && t[i].Span() == r;
      assert t'[i].Used();
    }
    if e.Used() {
      assert t'[k].Used();
    }
    forall r | r in UsedRanges(t')
      ensures (r in UsedRanges(t) && !(t[k].Used() && r == t[k].Span())) || (e.Used() && r == e.Span())
    {
      var i :| 0 <= i < |t'| && t'[i].Used() && t'[i].Span() == r;
      if i != k {
        assert t[i].Used();
      }
    }
  }

  lemma UsedAppendBlank(t: Table, n: nat)
    ensures UsedRanges(t + Blank(n)) == UsedRanges(t)
  {
    var u := t + Blank(n);
    forall r | r in UsedRanges(t) ensures r in UsedRanges(u) {
      var i :| 0 <= i < |t| && t[i].Used() && t[i].Span() == r;
      assert u[i].Used();
    }
    forall r | r in UsedRanges(u) ensures r in UsedRanges(t) {
      var i :| 0 <= i < |u| && u[i].Used() && u[i].Span() == r;
      assert t[i].Used();
    }
  }

  lemma TiledAppendBlank(t: Table, n: nat, lo: nat, hi: nat)
    requires Tiled(t, lo, hi) && Coalesced(t)
    ensures Tiled(t + Blank(n), lo, hi) && Coalesced(t + Blank(n))
  {
    var u := t + Blank(n);
    forall a | lo <= a < hi ensures Covered(u, a) {
      assert Covered(t, a);
      var i :| 0 <= i < |t| && t[i].Covers(a);
      assert u[i].Covers(a);
    }
  }

  /** In a tiled table two used entries never share a range. */
  lemma UsedDistinct(t: Table, lo: nat, hi: nat, k: nat)
    requires Tiled(t, lo, hi) && k < |t| && t[k].valid
    ensures forall i :: 0 <= i < |t| && i != k && t[i].valid ==> t[i].Span() != t[k].Span()
  {
  }

  // ---------------------------------------------------------------- splitting and joining

  /** Entry k gives up its front [addr, cut) to the unused slot q; both halves keep the tiling. */
  lemma SplitKeepsTiling(t: Table, lo: nat, hi: nat, k: nat, q: nat, front: Ent, back: Ent)
    requires Tiled(t, lo, hi)
    requires k < |t| && q < |t| && t[k].valid && !t[q].valid
    requires front.valid && back.valid && 0 < front.size && 0 < back.size
    requires front.addr == t[k].addr && front.End() == back.addr && back.End() == t[k].End()
    ensures Tiled(t[q := front][k := back], lo, hi)
  {
    var u := t[q := front][k := back];
    forall a | lo <= a < hi ensures Covered(u, a) {
      assert Covered(t, a);
      var i :| 0 <= i < |t| && t[i].Covers(a);
      if i == k {
        assert u[q].Covers(a) || u[k].Covers(a);
      } else {
        assert u[i].Covers(a);
      }
    }
  }

  /** Entry k takes over its neighbour m, whose slot becomes unused. */
  lemma JoinKeepsTiling(t: Table, lo: nat, hi: nat, k: nat, m: nat, joined: Ent, gone: Ent)
    requires Tiled(t, lo, hi)
    requires k < |t| && m < |t| && k != m && t[k].valid && t[m].valid
    requires t[m].End() == t[k].addr || t[k].End() == t[m].addr
    requires joined.valid && !gone.valid
    requires joined.addr == (if t[m].End() == t[k].addr then t[m].addr else t[k].addr)
    requires joined.size == t[k].size + t[m].size
    ensures Tiled(t[k := joined][m := gone], lo, hi)
  {
    var u := t[k := joined][m := gone];
    forall a | lo <= a < hi ensures Covered(u, a) {
      assert Covered(t, a);
      var i :| 0 <= i < |t| && t[i].Covers(a);
      if i == k || i == m {
        assert u[k].Covers(a);
      } else {
        assert u[i].Covers(a);
      }
    }
  }

  /** Flag changes do not move anything. */
  lemma MarkKeepsTiling(t: Table, lo: nat, hi: nat, k: nat, e: Ent)
    requires Tiled(t, lo, hi) && k < |t| && t[k].valid
    requires e.valid && e.addr == t[k].addr && e.size == t[k].size
    ensures Tiled(t[k := e], lo, hi)
  {
    var u := t[k := e];
    forall a | lo <= a < hi ensures Covered(u, a) {
      assert Covered(t, a);
      var i :| 0 <= i < |t| && t[i].Covers(a);
      assert u[i].Covers(a);
    }
  }

  // ---------------------------------------------------------------- canonical free list

  ghost predicate UsedAt(used: set<Range>, a: int) {
    exists r :: r in used && r.Has(a)
  }

  /** r is a maximal stretch of [lo, hi) that no range of `used` touches. */
  ghost predicate IsGap(used: set<Range>, lo: nat, hi: nat, r: Range) {
    && 0 < r.size && lo <= r.start && r.start + r.size <= hi
    && (forall a :: r.Has(a) ==> !UsedAt(used, a))
    && (r.start == lo || UsedAt(used, r.start - 1))
    && (r.start + r.size == hi || UsedAt(used, r.start + r.size))
  }

  /** An address of the heap is used or lies in a free entry, never both. */
  lemma UsedXorFree(t: Table, lo: nat, hi: nat, a: int)
    requires Tiled(t, lo, hi) && lo <= a < hi
    ensures UsedAt(UsedRanges(t), a) <==> !exists i :: 0 <= i < |t| && t[i].Free() && t[i].Covers(a)
  {
    assert Covered(t, a);
    var i :| 0 <= i < |t| && t[i].Covers(a);
    if t[i].used {
      assert t[i].Span() in UsedRanges(t) && t[i].Span().Has(a);
    }
  }

  /** A free entry starts where a stretch of unused addresses starts. */
  lemma FreeEntryFrom(t: Table, lo: nat, hi: nat, a: int) returns (i: nat)
    requires Tiled(t, lo, hi) && lo <= a < hi && !UsedAt(UsedRanges(t), a)
    ensures i < |t| && t[i].Free() && t[i].Covers(a)
  {
    UsedXorFree(t, lo, hi, a);
    i :| 0 <= i < |t| && t[i].Free() && t[i].Covers(a);
  }

  lemma NotUsedInFree(t: Table, lo: nat, hi: nat, i: nat, a: int)
    requires Tiled(t, lo, hi) && i < |t| && t[i].Free() && t[i].Covers(a)
    ensures !UsedAt(UsedRanges(t), a)
  {
    UsedXorFree(t, lo, hi, a);
  }

  /** Just past a free entry there is no second free entry, so the address is used or outside. */
  lemma FreeEntryStopsAtUsed(t: Table, lo: nat, hi: nat, i: nat)
    requires Tiled(t, lo, hi) && Coalesced(t) && i < |t| && t[i].Free()
    ensures t[i].End() == hi || UsedAt(UsedRanges(t), t[i].End())
    ensures t[i].addr == lo || UsedAt(UsedRanges(t), t[i].addr - 1)
  {
    if t[i].End() < hi && !UsedAt(UsedRanges(t), t[i].End()) {
      var j := FreeEntryFrom(t, lo, hi, t[i].End());
    }
    if lo < t[i].addr && !UsedAt(UsedRanges(t), t[i].addr - 1) {
      var j := FreeEntryFrom(t, lo, hi, t[i].addr - 1);
    }
  }

  /** Unused addresses that follow one another lie in one free entry. */
  lemma OneFreeEntryHolds(t: Table, lo: nat, hi: nat, a: nat, b: nat) returns (i: nat)
    requires Tiled(t, lo, hi) && Coalesced(t)
    requires lo <= a < b <= hi && forall x :: a <= x < b ==> !UsedAt(UsedRanges(t), x)
    ensures i < |t| && t[i].Free() && t[i].addr <= a && b <= t[i].End()
  {
    i := FreeEntryFrom(t, lo, hi, a);
    FreeEntryStopsAtUsed(t, lo, hi, i);
  }

  /** The free entries are exactly the maximal gaps between the used ranges. */
  lemma FreeEntriesAreTheGaps(t: Table, lo: nat, hi: nat, r: Range)
    requires Tiled(t, lo, hi) && Coalesced(t)
    ensures r in FreeRanges(t) <==> IsGap(UsedRanges(t), lo, hi, r)
  {
    if r in FreeRanges(t) {
      var i :| 0 <= i < |t| && t[i].Free() && t[i].Span() == r;
      FreeEntryStopsAtUsed(t, lo, hi, i);
      forall a | r.Has(a) ensures !UsedAt(UsedRanges(t), a) {
        NotUsedInFree(t, lo, hi, i, a);
      }
    }
    if IsGap(UsedRanges(t), lo, hi, r) {
      var end := r.start + r.size;
      forall x | r.start <= x < end ensures !UsedAt(UsedRanges(t), x) {
        assert r.Has(x);
      }
      var i := OneFreeEntryHolds(t, lo, hi, r.start, end);
      if t[i].addr < r.start { NotUsedInFree(t, lo, hi, i, r.start - 1); }
      if end < t[i].End() { NotUsedInFree(t, lo, hi, i, end); }
      assert t[i].Span() == r;
    }
  }

  /** Two canonical tables with the same used ranges have the same free ranges, whatever their slot order. */
  lemma UsedDeterminesFree(t: Table, u: Table, lo: nat, hi: nat)
    requires Tiled(t, lo, hi) && Coalesced(t) && Tiled(u, lo, hi) && Coalesced(u)
    requires UsedRanges(t) == UsedRanges(u)
    ensures FreeRanges(t) == FreeRanges(u)
  {
    forall r ensures r in FreeRanges(t) <==> r in FreeRanges(u) {
      FreeEntriesAreTheGaps(t, lo, hi, r);
      FreeEntriesAreTheGaps(u, lo, hi, r);
    }
  }
}
