/**
  What one call of alloc and free (src/mm/alloc.c) does to the allocation table, as functions
  on values, and what every run of such calls keeps.
*/
module AllocHeap {
  import opened Wrappers
  import opened AllocTable
  import opened Arith

  const BLOCK_SLOTS: nat := 128
  const BLOCK_BYTES: nat := 1540       // 128 entries of 12 bytes and a pointer
  const MIN_ALIGN: nat := 4
  const HEAP_LIMIT: nat := 0xFFFF_8000 // aligning an address of the heap upwards stays below 2^32
  const SPARE_SLOTS: nat := 88

  /** The bit fields of the flags word: SETALIGN, the low four bits, 16B and NONEWBLOCK. */
  datatype Flags = Flags(setAlign: bool, shift: nat, low16: bool, noNewBlock: bool)

  const GROW_FLAGS := Flags(false, 0, false, true)

  /** A request as _find_free sees it; the window's end is exclusive. */
  datatype Request = Request(sz: nat, align: nat, wstart: nat, wend: nat)

  function RequestOf(sz: nat, f: Flags): (q: Request)
    ensures q.align > 0 && q.sz == sz
  {
    Request(sz, if f.setAlign then Pow2(f.shift) else MIN_ALIGN,
            if f.low16 then 0 else 0x10000, if f.low16 then 0xFFFF else 0xFFFF_FFFF)
  }

  // ---------------------------------------------------------------- placing a request in an entry

  function AlignUp(a: nat, align: nat): (r: nat)
    requires align > 0
    ensures a <= r < a + align
  {
    if a % align != 0 then a + (align - a % align) else a
  }

  lemma AlignUpIsLeast(a: nat, align: nat)
    requires align > 0
    ensures AlignUp(a, align) % align == 0
    ensures forall p :: a <= p && p % align == 0 ==> AlignUp(a, align) <= p
  {
    var r := AlignUp(a, align);
    assert a == (a / align) * align + a % align;
    if a % align != 0 {
      assert r == (a / align + 1) * align;
      DivModUnique(r, a / align + 1, align, 0);
    }
    forall p | a <= p && p % align == 0 ensures r <= p {
      if p < r {
        MultiplesApart(p, r, align);
      }
    }
  }

  /** Where the request would start inside entry e. */
  function Place(e: Ent, q: Request): nat
    requires q.align > 0
  {
    AlignUp(Max(e.addr, q.wstart), q.align)
  }

  predicate Fits(e: Ent, q: Request)
    requires q.align > 0
  {
    e.Free() && Place(e, q) + q.sz <= Min(e.End(), q.wend)
  }

  /** The entry selected after scanning the first n slots: the smallest that fits, the first of equals. */
  function Best(t: Table, q: Request, n: nat): (r: Option<nat>)
    requires q.align > 0 && n <= |t|
    ensures r.Some? ==> r.value < n && Fits(t[r.value], q)
  {
    if n == 0 then None
    else
      var b := Best(t, q, n - 1);
      if !Fits(t[n - 1], q) then b
      else if b.None? || t[n - 1].size < t[b.value].size then Some(n - 1)
      else b
  }

  lemma {:induction false} BestIsSmallest(t: Table, q: Request, n: nat)
    requires q.align > 0 && n <= |t|
    ensures Best(t, q, n).None? ==> forall i :: 0 <= i < n ==> !Fits(t[i], q)
    ensures Best(t, q, n).Some? ==> forall i :: 0 <= i < n && Fits(t[i], q) ==> t[Best(t, q, n).value].size <= t[i].size
  {
    if n == 0 {
    } else {
      BestIsSmallest(t, q, n - 1);
    }
  }

  /** p is an aligned place for the request: inside the window and the heap, clear of all used ranges. */
  ghost predicate Placeable(t: Table, lo: nat, hi: nat, q: Request, p: nat)
    requires q.align > 0
  {
    && p % q.align == 0
    && q.wstart <= p && p + q.sz <= q.wend
    && lo <= p && p + q.sz <= hi
    && forall a :: p <= a < p + q.sz ==> !UsedAt(UsedRanges(t), a)
  }

  lemma FitIsPlaceable(t: Table, lo: nat, hi: nat, q: Request, k: nat)
    requires Tiled(t, lo, hi) && q.align > 0 && k < |t| && Fits(t[k], q)
    ensures Placeable(t, lo, hi, q, Place(t[k], q))
  {
    AlignUpIsLeast(Max(t[k].addr, q.wstart), q.align);
    forall a | Place(t[k], q) <= a < Place(t[k], q) + q.sz ensures !UsedAt(UsedRanges(t), a) {
      NotUsedInFree(t, lo, hi, k, a);
    }
  }

  lemma PlaceableFits(t: Table, lo: nat, hi: nat, q: Request, p: nat) returns (k: nat)
    requires Tiled(t, lo, hi) && Coalesced(t) && q.align > 0 && q.sz > 0 && Placeable(t, lo, hi, q, p)
    ensures k < |t| && Fits(t[k], q)
  {
    k := OneFreeEntryHolds(t, lo, hi, p, p + q.sz);
    AlignUpIsLeast(Max(t[k].addr, q.wstart), q.align);
  }

  /** The scan comes back empty exactly when the heap has no aligned room left in the window. */
  lemma ScanFailsIffNoRoom(t: Table, lo: nat, hi: nat, q: Request)
    requires Tiled(t, lo, hi) && Coalesced(t) && q.align > 0 && q.sz > 0
    ensures Best(t, q, |t|).None? <==> !exists p :: Placeable(t, lo, hi, q, p)
  {
    BestIsSmallest(t, q, |t|);
    if p :| Placeable(t, lo, hi, q, p) {
      var k := PlaceableFits(t, lo, hi, q, p);
    }
    if Best(t, q, |t|).Some? {
      FitIsPlaceable(t, lo, hi, q, Best(t, q, |t|).value);
    }
  }

  /** The request with the window as inc/mm/alloc.h documents it, its end inclusive. */
  function Documented(q: Request): Request { q.(wend := q.wend + 1) }

  /**
    Where the documented window has room, the scan fails nevertheless if and only if every place in it
    needs the window's last byte.
  */
  lemma LastByteUnused(t: Table, lo: nat, hi: nat, q: Request)
    requires Tiled(t, lo, hi) && Coalesced(t) && q.align > 0 && q.sz > 0
    ensures Best(t, q, |t|).None?
      <==> forall p: nat :: Placeable(t, lo, hi, Documented(q), p) ==> p + q.sz == q.wend + 1
  {
    ScanFailsIffNoRoom(t, lo, hi, q);
    forall p: nat
      ensures Placeable(t, lo, hi, q, p) <==> Placeable(t, lo, hi, Documented(q), p) && p + q.sz != q.wend + 1
    {
    }
  }

  /** The input: a free 16 bytes at the end of the 16-bit window are not used. */
  lemma LastByteInput()
    ensures var q := Request(16, 4, 0, 0xFFFF); var t := [Ent(true, false, 0xFFF0, 16)];
      Best(t, q, 1).None? && Placeable(t, 0xFFF0, 0x1_0000, Documented(q), 0xFFF0)
  {
    var t := [Ent(true, false, 0xFFF0, 16)];
    assert UsedRanges(t) == {};
  }

  // ---------------------------------------------------------------- cutting the block out of its entry

  /** _add_alloc; None stands for its panic. */
  function AddEntry(t: Table, e: Ent): (r: Option<Table>)
    ensures r.Some? ==> |r.value| == |t|
  {
    var q := FirstInvalid(t);
    if q.None? then None else Some(t[q.value := e])
  }

  /** Leave the bytes of entry k below p in an entry of their own. */
  function SplitBefore(t: Table, k: nat, p: nat): (r: Option<Table>)
    requires k < |t| && t[k].addr <= p < t[k].End()
    ensures r.Some? ==> |r.value| == |t|
  {
    var e := t[k];
    if e.addr == p then Some(t)
    else
      var r := AddEntry(t, Ent(true, false, e.addr, p - e.addr));
      if r.None? then None else Some(r.value[k := e.(addr := p, size := e.size - (p - e.addr))])
  }

  /** Turn the first sz bytes of entry k into a used entry. */
  function TakeFront(t: Table, k: nat, sz: nat): (r: Option<Table>)
    requires k < |t| && sz <= t[k].size
    ensures r.Some? ==> |r.value| == |t|
  {
    var e := t[k];
    if e.size == sz then Some(t[k := e.(used := true)])
    else AddEntry(t[k := e.(addr := e.addr + sz, size := e.size - sz)], Ent(true, true, e.addr, sz))
  }

  function Carve(t: Table, k: nat, p: nat, sz: nat): (r: Option<Table>)
    requires k < |t| && t[k].addr <= p && 0 < sz && p + sz <= t[k].End()
    ensures r.Some? ==> |r.value| == |t|
  {
    var r := SplitBefore(t, k, p);
    if r.None? then None else TakeFront(r.value, k, sz)
  }

  /** Only at address p may two free entries meet. */
  ghost predicate CoalescedBut(t: Table, p: nat) {
    forall i, j :: 0 <= i < |t| && 0 <= j < |t| && t[i].Free() && t[j].Free() && t[i].End() == t[j].addr
                   ==> t[j].addr == p
  }

  lemma SplitCoalesced(t: Table, k: nat, q: nat, front: Ent, back: Ent)
    requires Coalesced(t) && k < |t| && q < |t| && t[k].Free() && !t[q].valid
    requires 0 < front.size && 0 < back.size
    requires front.addr == t[k].addr && front.End() == back.addr && back.End() == t[k].End()
    ensures CoalescedBut(t[q := front][k := back], back.addr)
  {
  }

  lemma TakeCoalesced(t: Table, lo: nat, hi: nat, k: nat, u: Table)
    requires Tiled(t, lo, hi) && k < |t| && t[k].Free() && CoalescedBut(t, t[k].addr) && |u| == |t|
    requires forall i :: 0 <= i < |u| && i != k && u[i].Free() ==> u[i] == t[i]
    requires u[k].Free() ==> t[k].addr < u[k].addr < t[k].End() && u[k].End() == t[k].End()
    ensures Coalesced(u)
  {
    forall i, j | 0 <= i < |u| && 0 <= j < |u| && u[i].Free() && u[j].Free() ensures u[i].End() != u[j].addr {
      assert i != k ==> t[i].End() <= t[k].addr || t[k].End() <= t[i].addr;
      assert j != k ==> t[j].End() <= t[k].addr || t[k].End() <= t[j].addr;
    }
  }

  lemma SplitBeforeOk(t: Table, lo: nat, hi: nat, k: nat, p: nat)
    requires Tiled(t, lo, hi) && Coalesced(t) && CountInvalid(t) >= 1
    requires k < |t| && t[k].Free() && t[k].addr <= p < t[k].End()
    ensures SplitBefore(t, k, p).Some?
    ensures var u := SplitBefore(t, k, p).value;
            && Tiled(u, lo, hi) && CoalescedBut(u, p)
            && u[k] == Ent(true, false, p, t[k].End() - p)
            && UsedRanges(u) == UsedRanges(t)
            && CountInvalid(u) + 1 >= CountInvalid(t)
  {
    SlotAvailable(t);
    if t[k].addr != p {
      var q := FirstInvalid(t).value;
      var front := Ent(true, false, t[k].addr, p - t[k].addr);
      var back := t[k].(addr := p, size := t[k].size - (p - t[k].addr));
      assert Tiled(t[q := front][k := back], lo, hi) by { SplitKeepsTiling(t, lo, hi, k, q, front, back); }
      assert CoalescedBut(t[q := front][k := back], p) by { SplitCoalesced(t, k, q, front, back); }
      assert UsedRanges(t[q := front][k := back]) == UsedRanges(t) by {
        UsedUpdate(t, q, front);
        UsedUpdate(t[q := front], k, back);
      }
      CountUpdate(t, q, front);
      CountUpdate(t[q := front], k, back);
    }
  }

  lemma TakeFrontOk(t: Table, lo: nat, hi: nat, k: nat, sz: nat)
    requires Tiled(t, lo, hi) && CountInvalid(t) >= 1
    requires k < |t| && t[k].Free() && 0 < sz <= t[k].size && CoalescedBut(t, t[k].addr)
    ensures TakeFront(t, k, sz).Some?
    ensures var u := TakeFront(t, k, sz).value;
            && Tiled(u, lo, hi) && Coalesced(u)
            && UsedRanges(u) == UsedRanges(t) + {Range(t[k].addr, sz)}
            && CountInvalid(u) + 1 >= CountInvalid(t)
  {
    var front := Ent(true, true, t[k].addr, sz);
    var back := Ent(true, false, t[k].addr + sz, t[k].size - sz);
    TakeFrontUnfolds(t, k, sz, front, back);
    if t[k].size == sz {
      TakeWholeOk(t, lo, hi, k, front);
    } else {
      TakePartOk(t, lo, hi, k, back, front);
    }
  }

  lemma TakeFrontUnfolds(t: Table, k: nat, sz: nat, front: Ent, back: Ent)
    requires k < |t| && t[k].Free() && sz <= t[k].size
    requires front == Ent(true, true, t[k].addr, sz) && back == Ent(true, false, t[k].addr + sz, t[k].size - sz)
    ensures TakeFront(t, k, sz) == if t[k].size == sz then Some(t[k := front]) else AddEntry(t[k := back], front)
  {
  }

  lemma TakeWholeOk(t: Table, lo: nat, hi: nat, k: nat, e: Ent)
    requires Tiled(t, lo, hi) && k < |t| && t[k].Free() && CoalescedBut(t, t[k].addr)
    requires e.Used() && e.Span() == t[k].Span()
    ensures var u := t[k := e];
            && Tiled(u, lo, hi) && Coalesced(u)
            && UsedRanges(u) == UsedRanges(t) + {e.Span()}
            && CountInvalid(u) == CountInvalid(t)
  {
    var u := t[k := e];
    CountUpdate(t, k, e);
    assert Coalesced(u) by { TakeCoalesced(t, lo, hi, k, u); }
    assert UsedRanges(u) == UsedRanges(t) + {e.Span()} by { UsedUpdate(t, k, e); }
    assert Tiled(u, lo, hi) by { MarkKeepsTiling(t, lo, hi, k, e); }
  }

  lemma TakePartOk(t: Table, lo: nat, hi: nat, k: nat, back: Ent, front: Ent)
    requires Tiled(t, lo, hi) && CountInvalid(t) >= 1
    requires k < |t| && t[k].Free() && CoalescedBut(t, t[k].addr)
    requires back.Free() && front.Used() && 0 < front.size && 0 < back.size
    requires front.addr == t[k].addr && front.End() == back.addr && back.End() == t[k].End()
    ensures AddEntry(t[k := back], front).Some?
    ensures var u := AddEntry(t[k := back], front).value;
            && Tiled(u, lo, hi) && Coalesced(u)
            && UsedRanges(u) == UsedRanges(t) + {front.Span()}
            && CountInvalid(u) + 1 >= CountInvalid(t)
  {
    var t1 := t[k := back];
    CountUpdate(t, k, back);
    SlotAvailable(t1);
    var q := FirstInvalid(t1).value;
    var u := t1[q := front];
    CountUpdate(t1, q, front);
    assert Coalesced(u) by { TakeCoalesced(t, lo, hi, k, u); }
    assert UsedRanges(u) == UsedRanges(t) + {front.Span()} by {
      UsedUpdate(t, k, back);
      UsedUpdate(t1, q, front);
    }
    assert Tiled(u, lo, hi) by {
      SplitKeepsTiling(t, lo, hi, k, q, front, back);
      assert t[q := front][k := back] == u;
    }
  }

  /** Cutting a fitting block out of a free entry adds exactly one used range and keeps the table canonical. */
  lemma CarveOk(t: Table, lo: nat, hi: nat, k: nat, q: Request)
    requires Tiled(t, lo, hi) && Coalesced(t) && CountInvalid(t) >= 2
    requires q.align > 0 && q.sz > 0 && k < |t| && Fits(t[k], q)
    ensures Carve(t, k, Place(t[k], q), q.sz).Some?
    ensures var p := Place(t[k], q);
            var u := Carve(t, k, p, q.sz).value;
            && Tiled(u, lo, hi) && Coalesced(u)
            && UsedRanges(u) == UsedRanges(t) + {Range(p, q.sz)} && Range(p, q.sz) !in UsedRanges(t)
            && CountInvalid(u) + 2 >= CountInvalid(t)
  {
    var p := Place(t[k], q);
    SplitBeforeOk(t, lo, hi, k, p);
    TakeFrontOk(SplitBefore(t, k, p).value, lo, hi, k, q.sz);
    NotUsedInFree(t, lo, hi, k, p);
    assert Range(p, q.sz).Has(p);
  }

  // ---------------------------------------------------------------- alloc

  /** Table slots, addresses of the table blocks (the first lies below the heap), and the heap's bounds. */
  datatype Heap = Heap(table: Table, blocks: seq<nat>, lo: nat, hi: nat)

  datatype PanicKind = ZeroBytes | NoSlot | NoMemory | BadFree

  datatype Result = Ok(heap: Heap, addr: nat) | Panic(kind: PanicKind)

  /** The selection and cut of _find_free, with alloc's panic on NULL. */
  function Take(h: Heap, q: Request): Result
    requires q.align > 0 && q.sz > 0
  {
    var b := Best(h.table, q, |h.table|);
    if b.None? then Panic(NoMemory)
    else
      var p := Place(h.table[b.value], q);
      var t := Carve(h.table, b.value, p, q.sz);
      if t.None? then Panic(NoSlot) else Ok(h.(table := t.value), p)
  }

  /** free_ents < ALLOC_BLOCK_SZ * 0.7 */
  predicate Low(t: Table) { 10 * CountInvalid(t) < 7 * BLOCK_SLOTS }

  /** Allocate and chain one more table block. */
  function Grow(h: Heap): Result {
    var r := Take(h, RequestOf(BLOCK_BYTES, GROW_FLAGS));
    if r.Panic? then r
    else Ok(r.heap.(table := r.heap.table + Blank(BLOCK_SLOTS), blocks := r.heap.blocks + [r.addr]), r.addr)
  }

  /** alloc(sz, f), its recursion unfolded: at most one growth, then the selection. */
  function Alloc(h: Heap, sz: nat, f: Flags): Result {
    if sz == 0 then Panic(ZeroBytes)
    else if Low(h.table) && !f.noNewBlock then
      var g := Grow(h);
      if g.Panic? then g else Take(g.heap, RequestOf(sz, f))
    else Take(h, RequestOf(sz, f))
  }

  ghost function TableRanges(blocks: seq<nat>): set<Range> {
    set i | 1 <= i < |blocks| :: Range(blocks[i], BLOCK_BYTES)
  }

  /** The allocator's invariant, but for the number of spare slots. */
  ghost predicate Canonical(h: Heap) {
    && 0 < h.lo && h.hi <= HEAP_LIMIT
    && Tiled(h.table, h.lo, h.hi) && Coalesced(h.table)
    && 1 <= |h.blocks| && |h.table| == BLOCK_SLOTS * |h.blocks|
    && TableRanges(h.blocks) <= UsedRanges(h.table)
  }

  ghost predicate HeapOk(h: Heap) {
    Canonical(h) && CountInvalid(h.table) >= SPARE_SLOTS
  }

  /** No room for the request in this heap. */
  ghost predicate NoRoom(h: Heap, q: Request)
    requires q.align > 0
  {
    !exists p :: Placeable(h.table, h.lo, h.hi, q, p)
  }

  /** h1 is h with the range r newly used, r being a smallest fitting choice for q. */
  ghost predicate Taken(h: Heap, h1: Heap, q: Request, addr: nat)
    requires q.align > 0
  {
    && h1.lo == h.lo && h1.hi == h.hi && h1.blocks == h.blocks
    && Placeable(h.table, h.lo, h.hi, q, addr)
    && UsedRanges(h1.table) == UsedRanges(h.table) + {Range(addr, q.sz)}
    && Range(addr, q.sz) !in UsedRanges(h.table)
    && exists k: nat :: SmallestHost(h.table, q, k) && addr == Place(h.table[k], q)
  }

  ghost predicate SmallestHost(t: Table, q: Request, k: nat)
    requires q.align > 0
  {
    k < |t| && Fits(t[k], q) && forall i :: 0 <= i < |t| && Fits(t[i], q) ==> t[k].size <= t[i].size
  }

  lemma TakeOk(h: Heap, q: Request)
    requires Canonical(h) && CountInvalid(h.table) >= 2 && q.align > 0 && q.sz > 0
    ensures match Take(h, q)
            case Ok(h1, addr) => Canonical(h1) && Taken(h, h1, q, addr)
                                 && CountInvalid(h1.table) + 2 >= CountInvalid(h.table)
            case Panic(k) => k == NoMemory
    ensures Take(h, q).Panic? <==> NoRoom(h, q)
  {
    var t := h.table;
    ScanFailsIffNoRoom(t, h.lo, h.hi, q);
    BestIsSmallest(t, q, |t|);
    var b := Best(t, q, |t|);
    if b.Some? {
      CarveOk(t, h.lo, h.hi, b.value, q);
      FitIsPlaceable(t, h.lo, h.hi, q, b.value);
      assert SmallestHost(t, q, b.value);
    }
  }

  /** h1 is h with one table block more, itself cut out of the heap. */
  ghost predicate Grown(h: Heap, h1: Heap) {
    && h1.lo == h.lo && h1.hi == h.hi
    && |h1.blocks| == |h.blocks| + 1 && h1.blocks[..|h.blocks|] == h.blocks
    && var r := Range(h1.blocks[|h.blocks|], BLOCK_BYTES);
       UsedRanges(h1.table) == UsedRanges(h.table) + {r} && r !in UsedRanges(h.table)
  }

  lemma TableRangesAppend(blocks: seq<nat>, b: nat)
    requires |blocks| >= 1
    ensures TableRanges(blocks + [b]) == TableRanges(blocks) + {Range(b, BLOCK_BYTES)}
  {
    var bs := blocks + [b];
    assert bs[|blocks|] == b;
    forall r | r in TableRanges(blocks) ensures r in TableRanges(bs) {
      var i :| 1 <= i < |blocks| && r == Range(blocks[i], BLOCK_BYTES);
      assert bs[i] == blocks[i];
    }
  }

  lemma GrowOk(h: Heap)
    requires HeapOk(h)
    ensures match Grow(h)
            case Ok(g, _) => Canonical(g) && Grown(h, g) && CountInvalid(g.table) >= SPARE_SLOTS + 126
            case Panic(k) => k == NoMemory
    ensures Grow(h).Panic? <==> NoRoom(h, RequestOf(BLOCK_BYTES, GROW_FLAGS))
  {
    var q := RequestOf(BLOCK_BYTES, GROW_FLAGS);
    TakeOk(h, q);
    var r := Take(h, q);
    if r.Ok? {
      var t := r.heap.table;
      CountAppendBlank(t, BLOCK_SLOTS, BLOCK_SLOTS);
      TiledAppendBlank(t, BLOCK_SLOTS, h.lo, h.hi);
      UsedAppendBlank(t, BLOCK_SLOTS);
      TableRangesAppend(h.blocks, r.addr);
    }
  }

  /**
    The recursion of _find_free and alloc as the source writes it: after one growth the table is
    not low any more, so the same call, repeated, selects without growing again.
  */
  lemma AllocUnfolds(h: Heap, sz: nat, f: Flags)
    requires sz > 0
    ensures f.noNewBlock || !Low(h.table) ==> Alloc(h, sz, f) == Take(h, RequestOf(sz, f))
    ensures !f.noNewBlock && Low(h.table) && Grow(h).Panic? ==> Alloc(h, sz, f) == Grow(h)
    ensures !f.noNewBlock && Low(h.table) && Grow(h).Ok? ==>
              !Low(Grow(h).heap.table) && Alloc(h, sz, f) == Alloc(Grow(h).heap, sz, f)
  {
    var r := Take(h, RequestOf(BLOCK_BYTES, GROW_FLAGS));
    if r.Ok? {
      CountAppendBlank(r.heap.table, BLOCK_SLOTS, BLOCK_SLOTS);
    }
  }

  /** The heap _find_free finally selects from. */
  function Base(h: Heap): Heap {
    if Low(h.table) && Grow(h).Ok? then Grow(h).heap else h
  }

  /**
    One call of alloc from any good heap.  It never runs out of slots; it panics for lack of
    memory exactly when the table has to grow and cannot, or the request has no aligned room in
    its window; otherwise the block is aligned, in the window, clear of everything in use, and
    cut from a smallest entry that fits.
  */
  lemma AllocOk(h: Heap, sz: nat, f: Flags)
    requires HeapOk(h) && !f.noNewBlock && sz > 0
    ensures match Alloc(h, sz, f)
            case Ok(h1, addr) => HeapOk(h1) && Taken(Base(h), h1, RequestOf(sz, f), addr)
            case Panic(k) => k == NoMemory
    ensures Base(h) == h || Grown(h, Base(h))
    ensures HeapOk(Base(h))
    ensures Alloc(h, sz, f).Panic? <==>
            (Low(h.table) && NoRoom(h, RequestOf(BLOCK_BYTES, GROW_FLAGS))) || NoRoom(Base(h), RequestOf(sz, f))
  {
    GrowOk(h);
    var q := RequestOf(sz, f);
    if Low(h.table) {
      if Grow(h).Ok? {
        TakeOk(Grow(h).heap, q);
      }
    } else {
      TakeOk(h, q);
    }
  }

  /** sz bytes from p on lie in the heap and nothing of them is in use. */
  ghost predicate Clear(h: Heap, p: nat, sz: nat) {
    h.lo <= p && p + sz <= h.hi && forall a :: p <= a < p + sz ==> !UsedAt(UsedRanges(h.table), a)
  }

  /** What a caller of alloc may rely on: below 64 KiB or not below it, aligned as asked or to four bytes, and free. */
  ghost predicate AsAsked(h: Heap, sz: nat, f: Flags, p: nat) {
    && (if f.low16 then p + sz <= 0xFFFF else 0x1_0000 <= p && p + sz <= 0xFFFF_FFFF)
    && p % (if f.setAlign then Pow2(f.shift) else 4) == 0
    && Clear(h, p, sz)
  }

  /** A table block can be had: 1540 bytes at or above 64 KiB, aligned to four bytes. */
  ghost predicate BlockPlace(h: Heap, p: nat) {
    0x1_0000 <= p && p + 1540 <= 0xFFFF_FFFF && p % 4 == 0 && Clear(h, p, 1540)
  }

  lemma PlaceableIsAsAsked(h: Heap, sz: nat, f: Flags)
    ensures forall p: nat :: Placeable(h.table, h.lo, h.hi, RequestOf(sz, f), p) <==> AsAsked(h, sz, f, p)
    ensures forall p: nat :: Placeable(h.table, h.lo, h.hi, RequestOf(BLOCK_BYTES, GROW_FLAGS), p) <==> BlockPlace(h, p)
  {
  }

  /**
    What the flags mean.  From any good heap a successful alloc returns a place as asked for, on the heap
    it selects from; it panics if and only if the table is low and has no place for a block, or there is
    no place as asked for.
  */
  lemma AllocAsAsked(h: Heap, sz: nat, f: Flags)
    requires HeapOk(h) && !f.noNewBlock && sz > 0
    ensures match Alloc(h, sz, f)
            case Ok(h1, addr) => AsAsked(Base(h), sz, f, addr) && Range(addr, sz) in UsedRanges(h1.table)
            case Panic(k) => k == NoMemory
    ensures Alloc(h, sz, f).Panic?
      <==> (CountInvalid(h.table) < 90 && !exists p: nat :: BlockPlace(h, p)) || !exists p: nat :: AsAsked(Base(h), sz, f, p)
  {
    AllocOk(h, sz, f);
    PlaceableIsAsAsked(h, sz, f);
    PlaceableIsAsAsked(Base(h), sz, f);
  }

  /** So does the table block of a growth: it is cut out of a place for one, and there is none exactly when it fails. */
  lemma GrowAsAsked(h: Heap)
    requires HeapOk(h)
    ensures Grow(h).Ok? ==> BlockPlace(h, Grow(h).heap.blocks[|h.blocks|])
    ensures Grow(h).Panic? <==> !exists p: nat :: BlockPlace(h, p)
  {
    GrowOk(h);
    PlaceableIsAsAsked(h, BLOCK_BYTES, GROW_FLAGS);
    TakeOk(h, RequestOf(BLOCK_BYTES, GROW_FLAGS));
  }

  /** The flags word: bits 0 to 3 the alignment, bit 4 SETALIGN, bit 5 16B, bit 31 NONEWBLOCK. */
  function FlagsOf(w: nat): Flags {
    Flags(w / 16 % 2 == 1, w % 16, w / 32 % 2 == 1, w / 0x8000_0000 % 2 == 1)
  }

  /** ALLOC_FLAG_ALIGN(n), with or without ALLOC_FLAG_16B, asks for a multiple of 2^n, n at most 15. */
  lemma FlagWords(n: nat, low: bool)
    ensures FlagsOf(Min(n, 15) + 0x10 + (if low then 0x20 else 0)) == Flags(true, Min(n, 15), low, false)
    ensures FlagsOf(if low then 0x20 else 0) == Flags(false, 0, low, false)
    ensures FlagsOf(0x8000_0000) == GROW_FLAGS
  {
  }

  /** The 32-bit sums of _find_free and _do_free do not wrap on a good heap. */
  lemma NothingWraps(h: Heap, k: nat, sz: nat, f: Flags)
    requires Canonical(h) && k < |h.table| && h.table[k].valid && f.shift < 16
    ensures h.table[k].End() < 0x1_0000_0000
    ensures Place(h.table[k], RequestOf(sz, f)) < 0x1_0000_0000
  {
    Pow2Monotone(f.shift, 15);
    assert Pow2(15) == 0x8000;
  }

  // ---------------------------------------------------------------- free

  /** The used entry with this address among the first n slots. */
  function FindUsed(t: Table, a: nat, n: nat): (r: Option<nat>)
    requires n <= |t|
    ensures r.Some? ==> r.value < n && t[r.value].Used() && t[r.value].addr == a
    ensures r.None? ==> forall i :: 0 <= i < n && t[i].Used() ==> t[i].addr != a
  {
    if n == 0 then None
    else
      var r := FindUsed(t, a, n - 1);
      if r.None? && t[n - 1].Used() && t[n - 1].addr == a then Some(n - 1) else r
  }

  /** The free entry that ends at a. */
  function FindPre(t: Table, a: nat, n: nat): (r: Option<nat>)
    requires n <= |t|
    ensures r.Some? ==> r.value < n && t[r.value].Free() && t[r.value].End() == a
    ensures r.None? ==> forall i :: 0 <= i < n && t[i].Free() ==> t[i].End() != a
  {
    if n == 0 then None
    else
      var r := FindPre(t, a, n - 1);
      if r.None? && t[n - 1].Free() && t[n - 1].End() == a then Some(n - 1) else r
  }

  /** The lowest free entry that starts above a; the entry just chosen as `pre` is not considered. */
  function FindPost(t: Table, a: nat, n: nat): (r: Option<nat>)
    requires n <= |t|
    ensures r.Some? ==> r.value < n && t[r.value].Free() && t[r.value].addr > a
    ensures r.Some? ==> forall i :: 0 <= i < n && t[i].Free() && t[i].addr > a ==> t[r.value].addr <= t[i].addr
    ensures r.None? ==> forall i :: 0 <= i < n && t[i].Free() ==> t[i].addr <= a
  {
    if n == 0 then None
    else
      var r := FindPost(t, a, n - 1);
      if t[n - 1].Free() && t[n - 1].addr > a && (r.None? || t[n - 1].addr < t[r.value].addr) then Some(n - 1) else r
  }

  function Gone(e: Ent): Ent { e.(valid := false, used := false) }

  /** Merge the free entry before the block into the block's entry. */
  function JoinPre(t: Table, k: nat, pre: Option<nat>): Table
    requires k < |t| && (pre.Some? ==> pre.value < |t|)
  {
    if pre.None? then t
    else t[k := t[k].(addr := t[pre.value].addr, size := t[k].size + t[pre.value].size)][pre.value := Gone(t[pre.value])]
  }

  function JoinPost(t: Table, k: nat, post: Option<nat>): Table
    requires k < |t| && (post.Some? ==> post.value < |t|)
  {
    if post.None? || t[k].End() != t[post.value].addr then t
    else t[k := t[k].(size := t[k].size + t[post.value].size)][post.value := Gone(t[post.value])]
  }

  /** _do_free; None when no used entry has this address. */
  function DoFree(t: Table, a: nat): (r: Option<Table>)
    ensures r.Some? ==> |r.value| == |t|
  {
    var k := FindUsed(t, a, |t|);
    if k.None? then None
    else
      var t1 := JoinPre(t, k.value, FindPre(t, a, |t|));
      var t2 := JoinPost(t1, k.value, FindPost(t, a, |t|));
      Some(t2[k.value := t2[k.value].(used := false)])
  }

  lemma DoFreeUnfolds(t: Table, a: nat, k: nat, t1: Table, t2: Table, t3: Table)
    requires FindUsed(t, a, |t|) == Some(k)
    requires t1 == JoinPre(t, k, FindPre(t, a, |t|)) && t2 == JoinPost(t1, k, FindPost(t, a, |t|))
    requires t3 == t2[k := t2[k].(used := false)]
    ensures DoFree(t, a) == Some(t3)
  {
  }

  function Free(h: Heap, a: nat): Result {
    var t := DoFree(h.table, a);
    if t.None? then Panic(BadFree) else Ok(h.(table := t.value), a)
  }

  /** Merging with a free entry that ends at the block keeps the table canonical; the block's range grows downwards. */
  lemma JoinPreOk(t: Table, lo: nat, hi: nat, k: nat, u: Table)
    requires Tiled(t, lo, hi) && Coalesced(t) && k < |t| && t[k].Used()
    requires u == JoinPre(t, k, FindPre(t, t[k].addr, |t|))
    ensures |u| == |t| && Tiled(u, lo, hi) && Coalesced(u) && CountInvalid(u) >= CountInvalid(t)
    ensures u[k].Used() && u[k].End() == t[k].End() && u[k].addr <= t[k].addr
    ensures forall i :: 0 <= i < |u| && u[i].Free() ==> u[i] == t[i] && u[i].End() != u[k].addr
    ensures UsedRanges(u) == UsedRanges(t) - {t[k].Span()} + {u[k].Span()}
  {
    var pre := FindPre(t, t[k].addr, |t|);
    if pre.Some? {
      var joined := JoinPreIs(t, k, pre.value, u);
      JoinOk(t, lo, hi, k, pre.value, joined, u);
      NoneEndsWhereFreeStarts(t, u, pre.value);
    } else {
      OutAndIn(t, k);
    }
  }

  lemma OutAndIn(t: Table, k: nat)
    requires k < |t| && t[k].Used()
    ensures UsedRanges(t) == UsedRanges(t) - {t[k].Span()} + {t[k].Span()}
  {
    assert t[k].Span() in UsedRanges(t);
  }

  lemma JoinPreIs(t: Table, k: nat, m: nat, u: Table) returns (joined: Ent)
    requires k < |t| && m < |t| && t[k].Used() && t[m].Free() && t[m].End() == t[k].addr
    requires u == JoinPre(t, k, Some(m))
    ensures joined == Ent(true, true, t[m].addr, t[k].size + t[m].size)
    ensures u == t[k := joined][m := Gone(t[m])] && u[k] == joined
  {
    joined := Ent(true, true, t[m].addr, t[k].size + t[m].size);
  }

  lemma NoneEndsWhereFreeStarts(t: Table, u: Table, m: nat)
    requires Coalesced(t) && m < |t| == |u| && t[m].Free()
    requires forall i :: 0 <= i < |u| && u[i].Free() ==> u[i] == t[i]
    ensures forall i :: 0 <= i < |u| && u[i].Free() ==> u[i].End() != t[m].addr
  {
  }

  lemma FewerFreeCoalesced(t: Table, u: Table)
    requires Coalesced(t) && |u| == |t| && forall i :: 0 <= i < |u| && u[i].Free() ==> u[i] == t[i]
    ensures Coalesced(u)
  {
  }

  lemma JoinOk(t: Table, lo: nat, hi: nat, k: nat, m: nat, joined: Ent, u: Table)
    requires Tiled(t, lo, hi) && Coalesced(t) && k < |t| && m < |t| && t[k].Used() && t[m].Free()
    requires t[m].End() == t[k].addr || t[k].End() == t[m].addr
    requires joined.Used() && joined.size == t[k].size + t[m].size
    requires joined.addr == (if t[m].End() == t[k].addr then t[m].addr else t[k].addr)
    requires u == t[k := joined][m := Gone(t[m])]
    ensures Tiled(u, lo, hi) && Coalesced(u)
    ensures forall i :: 0 <= i < |u| && u[i].Free() ==> u[i] == t[i] && i != m
    ensures UsedRanges(u) == UsedRanges(t) - {t[k].Span()} + {joined.Span()}
    ensures CountInvalid(u) == CountInvalid(t) + 1
  {
    assert Coalesced(u) by { FewerFreeCoalesced(t, u); }
    assert Tiled(u, lo, hi) by { JoinKeepsTiling(t, lo, hi, k, m, joined, Gone(t[m])); }
    CountUpdate(t, k, joined);
    CountUpdate(t[k := joined], m, Gone(t[m]));
    assert UsedRanges(u) == UsedRanges(t) - {t[k].Span()} + {joined.Span()} by {
      UsedDistinct(t, lo, hi, k);
      UsedUpdate(t, k, joined);
      UsedUpdate(t[k := joined], m, Gone(t[m]));
    }
  }

  /** Releasing an isolated used entry: no free entry touches it, so the table stays canonical. */
  lemma ReleaseOk(t: Table, lo: nat, hi: nat, k: nat)
    requires Tiled(t, lo, hi) && Coalesced(t) && k < |t| && t[k].Used()
    requires forall i :: 0 <= i < |t| && t[i].Free() ==> t[i].End() != t[k].addr && t[i].addr != t[k].End()
    ensures var v := t[k := t[k].(used := false)];
            && Tiled(v, lo, hi) && Coalesced(v)
            && UsedRanges(v) == UsedRanges(t) - {t[k].Span()}
            && CountInvalid(v) == CountInvalid(t)
  {
    var e := t[k].(used := false);
    assert Tiled(t[k := e], lo, hi) by { MarkKeepsTiling(t, lo, hi, k, e); }
    CountUpdate(t, k, e);
    assert UsedRanges(t[k := e]) == UsedRanges(t) - {t[k].Span()} by {
      UsedDistinct(t, lo, hi, k);
      UsedUpdate(t, k, e);
    }
  }

  /** Merging with the free entry at the block's end, if there is one, and releasing the block. */
  lemma JoinPostOk(t: Table, lo: nat, hi: nat, k: nat, post: Option<nat>)
    requires Tiled(t, lo, hi) && Coalesced(t) && k < |t| && t[k].Used()
    requires forall i :: 0 <= i < |t| && t[i].Free() ==> t[i].End() != t[k].addr
    requires post.Some? ==> post.value < |t| && t[post.value].Free()
    requires forall i :: 0 <= i < |t| && t[i].Free() && t[i].addr == t[k].End() ==> post == Some(i)
    ensures var u := JoinPost(t, k, post);
            var v := u[k := u[k].(used := false)];
            && |u| == |t| && Tiled(v, lo, hi) && Coalesced(v)
            && UsedRanges(v) == UsedRanges(t) - {t[k].Span()}
            && CountInvalid(v) >= CountInvalid(t)
  {
    var u := JoinPost(t, k, post);
    if post.Some? && t[k].End() == t[post.value].addr {
      JoinOk(t, lo, hi, k, post.value, t[k].(size := t[k].size + t[post.value].size), u);
      JoinedIsNew(t, lo, hi, k, u[k]);
    }
    ReleaseOk(u, lo, hi, k);
  }

  /** A used range that starts where entry k starts is entry k's own. */
  lemma JoinedIsNew(t: Table, lo: nat, hi: nat, k: nat, e: Ent)
    requires Tiled(t, lo, hi) && k < |t| && t[k].Used() && e.addr == t[k].addr && e.size != t[k].size
    ensures e.Span() !in UsedRanges(t)
  {
  }

  /** free succeeds exactly on the start of a used range, and removes exactly that range. */
  lemma FreeOk(t: Table, lo: nat, hi: nat, a: nat)
    requires Tiled(t, lo, hi) && Coalesced(t)
    ensures DoFree(t, a).Some? <==> exists r :: r in UsedRanges(t) && r.start == a
    ensures DoFree(t, a).Some? ==>
              var u := DoFree(t, a).value;
              && Tiled(u, lo, hi) && Coalesced(u)
              && UsedRanges(u) == (set r | r in UsedRanges(t) && r.start != a)
              && CountInvalid(u) >= CountInvalid(t)
  {
    var f := FindUsed(t, a, |t|);
    if f.Some? {
      var k := f.value;
      assert t[k].Span() in UsedRanges(t) && t[k].Span().start == a;
      var t1 := JoinPre(t, k, FindPre(t, a, |t|));
      JoinPreOk(t, lo, hi, k, t1);
      var post := FindPost(t, a, |t|);
      NextFreeIsPost(t, lo, hi, k);
      JoinPostOk(t1, lo, hi, k, post);
      FreedRanges(t, t1, lo, hi, k, a);
    }
  }

  /** A free entry that begins at the end of used entry k is the one FindPost selects. */
  lemma NextFreeIsPost(t: Table, lo: nat, hi: nat, k: nat)
    requires Tiled(t, lo, hi) && k < |t| && t[k].Used()
    ensures forall i :: 0 <= i < |t| && t[i].Free() && t[i].addr == t[k].End() ==>
              FindPost(t, t[k].addr, |t|) == Some(i)
  {
  }

  lemma FreedRanges(t: Table, t1: Table, lo: nat, hi: nat, k: nat, a: nat)
    requires Tiled(t, lo, hi) && k < |t| && t[k].Used() && t[k].addr == a
    requires Tiled(t1, lo, hi) && |t1| == |t| && t1[k].Used() && t1[k].addr <= a
    requires UsedRanges(t1) == UsedRanges(t) - {t[k].Span()} + {t1[k].Span()}
    requires t1[k].End() == t[k].End()
    ensures UsedRanges(t1) - {t1[k].Span()} == set r | r in UsedRanges(t) && r.start != a
  {
    forall r | r in UsedRanges(t) ensures r.start == a <==> r == t[k].Span() {
      var i :| 0 <= i < |t| && t[i].Used() && t[i].Span() == r;
    }
    forall r | r in UsedRanges(t) && r != t[k].Span() ensures r != t1[k].Span() {
      var i :| 0 <= i < |t| && t[i].Used() && t[i].Span() == r;
    }
  }

  /** free keeps a good heap good, unless it is handed the address of one of the table's own blocks. */
  lemma FreeKeepsHeap(h: Heap, a: nat)
    requires HeapOk(h) && Free(h, a).Ok?
    ensures HeapOk(Free(h, a).heap) <==> a !in h.blocks[1..]
  {
    FreeOk(h.table, h.lo, h.hi, a);
    var h1 := Free(h, a).heap;
    if a in h.blocks[1..] {
      var i :| 1 <= i < |h.blocks| && h.blocks[i] == a;
      assert Range(a, BLOCK_BYTES) in TableRanges(h.blocks);
    } else {
      forall r | r in TableRanges(h.blocks) ensures r in UsedRanges(h1.table) {
        var i :| 1 <= i < |h.blocks| && r == Range(h.blocks[i], BLOCK_BYTES);
        assert h.blocks[i] in h.blocks[1..];
      }
    }
  }

  /** On every good heap that has grown, free takes the address of each grown block and breaks the heap. */
  lemma FreedTableBlock(h: Heap, i: nat)
    requires HeapOk(h) && 1 <= i < |h.blocks|
    ensures Free(h, h.blocks[i]).Ok? && !HeapOk(Free(h, h.blocks[i]).heap)
  {
    assert Range(h.blocks[i], BLOCK_BYTES) in TableRanges(h.blocks);
    FreeOk(h.table, h.lo, h.hi, h.blocks[i]);
    assert h.blocks[i] == h.blocks[1..][i - 1];
    FreeKeepsHeap(h, h.blocks[i]);
  }

  /** Freeing the block just allocated brings back the used and the free ranges the selection started from. */
  lemma AllocThenFree(h: Heap, sz: nat, f: Flags)
    requires HeapOk(h) && !f.noNewBlock && Alloc(h, sz, f).Ok?
    ensures var r := Alloc(h, sz, f);
            var b := Free(r.heap, r.addr);
            && b.Ok?
            && UsedRanges(b.heap.table) == UsedRanges(Base(h).table)
            && FreeRanges(b.heap.table) == FreeRanges(Base(h).table)
    ensures !Low(h.table) ==> Base(h) == h
  {
    AllocOk(h, sz, f);
    FreeUndoes(Base(h), Alloc(h, sz, f).heap, RequestOf(sz, f), Alloc(h, sz, f).addr);
  }

  lemma FreeUndoes(h: Heap, h1: Heap, q: Request, a: nat)
    requires Canonical(h) && Canonical(h1) && q.align > 0 && q.sz > 0 && Taken(h, h1, q, a)
    ensures var b := Free(h1, a);
            && b.Ok?
            && UsedRanges(b.heap.table) == UsedRanges(h.table)
            && FreeRanges(b.heap.table) == FreeRanges(h.table)
  {
    FreeOk(h1.table, h.lo, h.hi, a);
    assert Range(a, q.sz) in UsedRanges(h1.table);
    UsedStarts(h.table, h.lo, h.hi, a);
    UsedDeterminesFree(h.table, Free(h1, a).heap.table, h.lo, h.hi);
  }

  lemma UsedStarts(t: Table, lo: nat, hi: nat, a: nat)
    requires Tiled(t, lo, hi) && !UsedAt(UsedRanges(t), a)
    ensures forall x :: x in UsedRanges(t) ==> x.start != a
  {
    forall x | x in UsedRanges(t) ensures x.start != a {
      assert x.Has(x.start);
    }
  }

  /** Every address of the heap has exactly one owner: a used range or a free range. */
  lemma OneOwner(h: Heap, a: int) returns (r: Range)
    requires Canonical(h) && h.lo <= a < h.hi
    ensures r in UsedRanges(h.table) + FreeRanges(h.table) && r.Has(a)
    ensures forall x :: x in UsedRanges(h.table) + FreeRanges(h.table) && x.Has(a) ==> x == r
    ensures UsedRanges(h.table) !! FreeRanges(h.table)
  {
    var t := h.table;
    assert Covered(t, a);
    var i :| 0 <= i < |t| && t[i].Covers(a);
    r := t[i].Span();
    forall x | x in UsedRanges(t) + FreeRanges(t) && x.Has(a) ensures x == r {
      var j :| 0 <= j < |t| && t[j].valid && t[j].Span() == x;
    }
  }

  // ---------------------------------------------------------------- alloc_init

  /** The size left behind the first table block, in 32 bits. */
  function SizeLeft(base: nat, size: nat): nat { (size - (AlignUp(base, 4) + BLOCK_BYTES - base)) % 0x1_0000_0000 }

  function Init(base: nat, size: nat): Heap {
    var first := AlignUp(base, 4);
    var lo := first + BLOCK_BYTES;
    Heap(Blank(BLOCK_SLOTS)[0 := Ent(true, false, lo, SizeLeft(base, size))], [first], lo, base + size)
  }

  lemma InitTiled(base: nat, size: nat)
    requires AlignUp(base, 4) - base + BLOCK_BYTES < size && base + size <= HEAP_LIMIT
    ensures var h := Init(base, size); Tiled(h.table, h.lo, h.hi) && Coalesced(h.table)
  {
    var h := Init(base, size);
    forall a | h.lo <= a < h.hi ensures Covered(h.table, a) {
      assert h.table[0].Covers(a);
    }
  }

  lemma InitCount(base: nat, size: nat)
    ensures CountInvalid(Init(base, size).table) == BLOCK_SLOTS - 1
  {
    CountAppendBlank([], BLOCK_SLOTS, BLOCK_SLOTS);
    assert [] + Blank(BLOCK_SLOTS) == Blank(BLOCK_SLOTS);
    CountUpdate(Blank(BLOCK_SLOTS), 0, Init(base, size).table[0]);
  }

  /** After alloc_init all memory behind the first table block is one free range. */
  lemma InitOk(base: nat, size: nat)
    requires AlignUp(base, 4) - base + BLOCK_BYTES < size && base + size <= HEAP_LIMIT
    ensures HeapOk(Init(base, size)) && UsedRanges(Init(base, size).table) == {}
    ensures TableRanges(Init(base, size).blocks) == {}
  {
    InitCount(base, size);
    InitTiled(base, size);
  }

  /** The heap alloc_init sets up is a good one if and only if the size goes beyond the first table block. */
  lemma InitExact(base: nat, size: nat)
    requires base + size <= HEAP_LIMIT
    ensures HeapOk(Init(base, size)) <==> AlignUp(base, 4) - base + BLOCK_BYTES < size
    ensures HeapOk(Init(base, size)) ==>
      UsedRanges(Init(base, size).table) == {} && TableRanges(Init(base, size).blocks) == {}
  {
    if AlignUp(base, 4) - base + BLOCK_BYTES < size {
      InitOk(base, size);
    } else {
      var h := Init(base, size);
      assert h.table[0].valid && h.lo >= h.hi;
    }
  }

  // ---------------------------------------------------------------- whole runs

  datatype Op = OpAlloc(sz: nat, flags: Flags) | OpFree(addr: nat)

  /** The heap and the ranges the client holds, or the panic the machine stopped with. */
  datatype World = Running(h: Heap, live: set<Range>) | Halted(kind: PanicKind)

  function Step(w: World, op: Op): World {
    match w
    case Halted(_) => w
    case Running(h, live) =>
      match op
      case OpAlloc(sz, f) =>
        var r := Alloc(h, sz, f);
        if r.Panic? then Halted(r.kind) else Running(r.heap, live + {Range(r.addr, sz)})
      case OpFree(a) =>
        var r := Free(h, a);
        if r.Panic? then Halted(r.kind) else Running(r.heap, set x | x in live && x.start != a)
  }

  function Run(w: World, ops: seq<Op>): World
    decreases |ops|
  {
    if ops == [] then w else Run(Step(w, ops[0]), ops[1..])
  }

  /** What a client may do: it has no access to the internal flag and never frees a table block. */
  predicate Allowed(w: World, op: Op) {
    match w
    case Halted(_) => true
    case Running(h, _) =>
      match op
      case OpAlloc(_, f) => !f.noNewBlock
      case OpFree(a) => a !in (if |h.blocks| > 0 then h.blocks[1..] else [])
  }

  predicate ClientRun(w: World, ops: seq<Op>)
    decreases |ops|
  {
    ops == [] || (Allowed(w, ops[0]) && ClientRun(Step(w, ops[0]), ops[1..]))
  }

  ghost predicate WorldOk(w: World, lo: nat, hi: nat) {
    match w
    case Halted(k) => k != NoSlot
    case Running(h, live) =>
      && HeapOk(h) && h.lo == lo && h.hi == hi
      && UsedRanges(h.table) == live + TableRanges(h.blocks)
      && live !! TableRanges(h.blocks)
  }

  /** Growing adds the new block to the used ranges and to the table blocks alike. */
  lemma BaseRanges(h: Heap) returns (grown: set<Range>)
    requires HeapOk(h)
    ensures UsedRanges(Base(h).table) == UsedRanges(h.table) + grown
    ensures TableRanges(Base(h).blocks) == TableRanges(h.blocks) + grown
    ensures grown !! UsedRanges(h.table)
  {
    GrowOk(h);
    grown := {};
    if Low(h.table) && Grow(h).Ok? {
      var b := Grow(h).heap;
      var n := |h.blocks|;
      grown := {Range(b.blocks[n], BLOCK_BYTES)};
      assert b.blocks == h.blocks + [b.blocks[n]];
      TableRangesAppend(h.blocks, b.blocks[n]);
    }
  }

  /** The ranges after a successful alloc: the old ones, the grown table block if any, and the new block. */
  lemma AllocRanges(h: Heap, sz: nat, f: Flags) returns (grown: set<Range>)
    requires HeapOk(h) && !f.noNewBlock && sz > 0 && Alloc(h, sz, f).Ok?
    ensures var r := Alloc(h, sz, f);
            && HeapOk(r.heap) && r.heap.lo == h.lo && r.heap.hi == h.hi
            && UsedRanges(r.heap.table) == UsedRanges(h.table) + grown + {Range(r.addr, sz)}
            && TableRanges(r.heap.blocks) == TableRanges(h.blocks) + grown
            && Range(r.addr, sz) !in UsedRanges(h.table) + grown
            && grown !! UsedRanges(h.table)
  {
    AllocOk(h, sz, f);
    grown := BaseRanges(h);
  }

  lemma AllocStepOk(h: Heap, live: set<Range>, sz: nat, f: Flags)
    requires WorldOk(Running(h, live), h.lo, h.hi) && !f.noNewBlock
    ensures WorldOk(Step(Running(h, live), OpAlloc(sz, f)), h.lo, h.hi)
  {
    if Alloc(h, sz, f).Ok? {
      var grown := AllocRanges(h, sz, f);
    } else if sz > 0 {
      AllocOk(h, sz, f);
    }
  }

  lemma FreeStepOk(h: Heap, live: set<Range>, a: nat)
    requires WorldOk(Running(h, live), h.lo, h.hi) && a !in h.blocks[1..]
    ensures WorldOk(Step(Running(h, live), OpFree(a)), h.lo, h.hi)
  {
    FreeOk(h.table, h.lo, h.hi, a);
    if Free(h, a).Ok? {
      FreeKeepsHeap(h, a);
      forall r | r in TableRanges(h.blocks) ensures r.start != a {
        var i :| 1 <= i < |h.blocks| && r == Range(h.blocks[i], BLOCK_BYTES);
        assert h.blocks[i] in h.blocks[1..];
      }
    }
  }

  /**
    Every run of allocations and frees keeps the allocator's invariant: the entries tile the heap,
    the free ones are coalesced, the used ones are exactly the client's live blocks and the grown
    table blocks, and the table never runs out of slots.
  */
  lemma {:induction false} RunKeeps(w: World, ops: seq<Op>, lo: nat, hi: nat)
    requires WorldOk(w, lo, hi) && ClientRun(w, ops)
    ensures WorldOk(Run(w, ops), lo, hi)
    decreases |ops|
  {
    if ops == [] {
    } else {
      if w.Running? {
        match ops[0]
        case OpAlloc(sz, f) => AllocStepOk(w.h, w.live, sz, f);
        case OpFree(a) => FreeStepOk(w.h, w.live, a);
      }
      RunKeeps(Step(w, ops[0]), ops[1..], lo, hi);
    }
  }

  /** Every state reachable from alloc_init. */
  lemma ReachableOk(base: nat, size: nat, ops: seq<Op>)
    requires AlignUp(base, 4) - base + BLOCK_BYTES < size && base + size <= HEAP_LIMIT
    requires ClientRun(Running(Init(base, size), {}), ops)
    ensures WorldOk(Run(Running(Init(base, size), {}), ops), AlignUp(base, 4) + BLOCK_BYTES, base + size)
  {
    InitOk(base, size);
    RunKeeps(Running(Init(base, size), {}), ops, AlignUp(base, 4) + BLOCK_BYTES, base + size);
  }

  /** No byte is handed out twice: in every good state the live blocks and the table blocks are pairwise disjoint. */
  lemma LiveDisjoint(h: Heap, live: set<Range>, r: Range, s: Range)
    requires WorldOk(Running(h, live), h.lo, h.hi)
    requires r in live + TableRanges(h.blocks) && s in live + TableRanges(h.blocks) && r != s
    ensures r.start + r.size <= s.start || s.start + s.size <= r.start
  {
    var t := h.table;
    var i :| 0 <= i < |t| && t[i].Used() && t[i].Span() == r;
    var j :| 0 <= j < |t| && t[j].Used() && t[j].Span() == s;
    assert t[i].End() == r.start + r.size && t[j].End() == s.start + s.size;
  }
}
