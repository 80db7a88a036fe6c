/**
  The allocator of src/mm/alloc.c in its own form: a chain of table blocks whose slots are
  changed in place.  Every method is proved equal to its function in AllocHeap.

  A panic is a result, after which the machine has stopped.
*/
module Alloc {
  import opened Wrappers
  import opened AllocTable
  import AllocHeap

  type Flags = AllocHeap.Flags
  type PanicKind = AllocHeap.PanicKind

  const SLOTS: nat := AllocHeap.BLOCK_SLOTS

  class AllocBlock {
    const address: nat
    const entries: array<Ent>
    var next: AllocBlock?

    constructor (address: nat)
      ensures this.address == address && next == null
      ensures fresh(entries) && entries[..] == Blank(SLOTS)
    {
      this.address := address;
      next := null;
      entries := new Ent[SLOTS](_ => NO_ENT);
      new;
      assert entries[..] == Blank(SLOTS);
    }
  }

  /** A pointer to a slot: NULL, or a block and an index in it; n, the block's place in the chain, is for the proofs. */
  datatype Slot = Null | At(block: AllocBlock, idx: nat, n: nat)

  /** The pointer designates slot o of the chain. */
  ghost predicate Points(chain: seq<AllocBlock>, s: Slot, o: Option<nat>) {
    match s
    case Null => o.None?
    case At(block, idx, n) => n < |chain| && chain[n] == block && idx < SLOTS && o == Some(SLOTS * n + idx)
  }

  ghost function Arrays(chain: seq<AllocBlock>): set<object> {
    set b | b in chain :: b.entries
  }

  ghost function Addresses(chain: seq<AllocBlock>): (r: seq<nat>)
    ensures |r| == |chain|
  {
    seq(|chain|, i requires 0 <= i < |chain| => chain[i].address as nat)
  }

  /** The blocks are linked in order, end in NULL, and share nothing. */
  ghost predicate Chained(chain: seq<AllocBlock>)
    reads chain
  {
    && 1 <= |chain|
    && (forall i {:trigger chain[i].next} :: 0 <= i < |chain| - 1 ==> chain[i].next == chain[i + 1])
    && chain[|chain| - 1].next == null
    && (forall i, j :: 0 <= i < j < |chain| ==> chain[i] != chain[j] && chain[i].entries != chain[j].entries)
  }

  /** The blocks' slots, in chain order, are the table. */
  ghost predicate Holds(chain: seq<AllocBlock>, table: Table)
    reads Arrays(chain)
  {
    && |table| == SLOTS * |chain|
    && (forall n :: 0 <= n < |chain| ==> chain[n].entries.Length == SLOTS)
    && (forall n, i :: 0 <= n < |chain| && 0 <= i < SLOTS ==> chain[n].entries[i] == table[SLOTS * n + i])
  }

  class Allocator {
    var firstBlock: AllocBlock
    ghost var chain: seq<AllocBlock>
    ghost var table: Table       // all slots of the chain, in order
    ghost var repr: set<object>  // the blocks and their slot arrays
    ghost const lo: nat
    ghost const hi: nat

    ghost predicate Valid()
      reads this, chain, Arrays(chain)
    {
      && Chained(chain) && chain[0] == firstBlock
      && Holds(chain, table)
      && forall b :: b in chain ==> b in repr && b.entries in repr
    }

    /** The state as a value. */
    ghost function Abs(): AllocHeap.Heap
      reads this
    {
      AllocHeap.Heap(table, Addresses(chain), lo, hi)
    }

    /** An allocator whose table is one blank block. */
    constructor (block: AllocBlock, ghost lo: nat, ghost hi: nat)
      requires block.next == null && block.entries[..] == Blank(SLOTS)
      ensures Valid() && repr == {block, block.entries} && chain == [block]
      ensures Abs() == AllocHeap.Heap(Blank(SLOTS), [block.address], lo, hi)
    {
      firstBlock := block;
      chain := [block];
      table := Blank(SLOTS);
      repr := {block, block.entries};
      this.lo := lo;
      this.hi := hi;
      new;
      BlankHolds(block);
    }

    /** Lines 14-17. */
    static method AlignBase(base: nat) returns (r: nat)
      ensures r == AllocHeap.AlignUp(base, 4)
    {
      r := base;
      if r % 4 != 0 {
        r := r + (4 - r % 4);
      }
    }

    /** alloc_init */
    static method Init(base: nat, size: nat) returns (a: Allocator)
      ensures fresh(a) && fresh(a.repr) && a.Valid()
      ensures a.Abs() == AllocHeap.Init(base, size)
    {
      var newbase := AlignBase(base);
      var block := new AllocBlock(newbase);
      newbase := newbase + AllocHeap.BLOCK_BYTES;
      a := new Allocator(block, newbase, base + size);
      var left: nat := (size - (newbase - base)) % 0x1_0000_0000;
      assert left == AllocHeap.SizeLeft(base, size);
      a.AddFirst(Ent(true, false, newbase, left));
    }

    /** The first entry of a blank table. */
    method AddFirst(al: Ent)
      requires Valid() && table == Blank(SLOTS)
      modifies this`table, Arrays(chain)
      ensures Valid() && table == Blank(SLOTS)[0 := al]
    {
      FirstOfBlank();
      var ok := AddAlloc(al);
    }

    static lemma FirstOfBlank()
      ensures FirstInvalid(Blank(SLOTS)) == Some(0)
    {
      assert !Blank(SLOTS)[0].valid;
    }

    lemma BlankHolds(block: AllocBlock)
      requires chain == [block] && firstBlock == block && block.next == null && repr == {block, block.entries}
      requires table == Blank(SLOTS) && block.entries[..] == Blank(SLOTS)
      ensures Valid() && Addresses(chain) == [block.address]
    {
      assert forall i :: 0 <= i < SLOTS ==> block.entries[i] == block.entries[..][i];
    }

    /** A read through a slot pointer. */
    method Get(ghost k: nat, s: Slot) returns (e: Ent)
      requires Valid() && s.At? && Points(chain, s, Some(k))
      ensures k < |table| && e == table[k]
    {
      e := s.block.entries[s.idx];
    }

    /** A write through a slot pointer. */
    method Put(ghost k: nat, s: Slot, e: Ent)
      requires Valid() && s.At? && Points(chain, s, Some(k))
      modifies this`table, Arrays(chain)
      ensures Valid() && k < |old(table)| && table == old(table)[k := e]
    {
      s.block.entries[s.idx] := e;
      table := table[k := e];
      assert forall n :: 0 <= n < |chain| && n != s.n ==> chain[n].entries != s.block.entries;
    }

    /** _add_alloc; fails (panics in the source) when no slot is left. */
    method AddAlloc(al: Ent) returns (ok: bool)
      requires Valid()
      modifies this`table, Arrays(chain)
      ensures Valid()
      ensures AllocHeap.AddEntry(old(table), al) == if ok then Some(table) else None
      ensures !ok ==> table == old(table)
    {
      var block: AllocBlock? := firstBlock;
      var n: nat := 0;
      ghost var t := table;
      while block != null
        invariant n <= |chain| && block == (if n < |chain| then chain[n] else null)
        invariant Valid() && table == t
        invariant forall k :: 0 <= k < SLOTS * n ==> t[k].valid
        decreases |chain| - n
      {
        for i := 0 to SLOTS
          invariant Valid() && table == t
          invariant forall k :: 0 <= k < SLOTS * n + i ==> t[k].valid
        {
          if !block.entries[i].valid {
            Put(SLOTS * n + i, At(block, i, n), al);
            return true;
          }
        }
        block := block.next;
        n := n + 1;
      }
      return false;
    }

    lemma HoldsMore(chain: seq<AllocBlock>, table: Table, block: AllocBlock)
      requires Holds(chain, table) && block.entries.Length == SLOTS
      ensures Holds(chain + [block], table + block.entries[..])
    {
    }

    /** _add_alloc_block */
    method AddAllocBlock(block: AllocBlock)
      requires Valid() && block !in chain && block.entries !in Arrays(chain)
      requires block.next == null && block.entries.Length == SLOTS
      modifies this`chain, this`repr, this`table, chain
      ensures Valid() && chain == old(chain) + [block] && repr == old(repr) + {block, block.entries}
      ensures table == old(table) + block.entries[..]
    {
      var last := firstBlock;
      ghost var n := 0;
      while last.next != null
        invariant n < |chain| && last == chain[n]
        decreases |chain| - n
      {
        last := last.next;
        n := n + 1;
      }
      last.next := block;
      HoldsMore(chain, table, block);
      chain := chain + [block];
      table := table + block.entries[..];
      repr := repr + {block, block.entries};
    }

    /** The scan of _find_free: the entry to take, where in it the request starts, and the unused slots. */
    method Scan(q: AllocHeap.Request) returns (best: Slot, start: nat, freeEnts: nat)
      requires Valid() && q.align > 0
      ensures freeEnts == CountInvalid(table)
      ensures Selected(q, |table|, best, start)
    {
      best, start, freeEnts := Null, 0, 0;
      var block: AllocBlock? := firstBlock;
      var n: nat := 0;
      ghost var k: nat := 0;
      while block != null
        invariant n <= |chain| && block == (if n < |chain| then chain[n] else null) && k == SLOTS * n
        invariant Selected(q, k, best, start)
        invariant freeEnts == CountUpTo(table, k)
        decreases |chain| - n
      {
        for i := 0 to SLOTS
          invariant k == SLOTS * n + i
          invariant Selected(q, k, best, start)
          invariant freeEnts == CountUpTo(table, k)
        {
          var ent := block.entries[i];
          best, start := Consider(q, k, At(block, i, n), ent, best, start);
          if !ent.valid {
            freeEnts := freeEnts + 1;
          }
          k := k + 1;
        }
        block := block.next;
        n := n + 1;
      }
    }

    /** One entry of the scan (lines 96-129). */
    method Consider(q: AllocHeap.Request, ghost k: nat, s: Slot, ent: Ent, best: Slot, start: nat)
      returns (best': Slot, start': nat)
      requires Valid() && q.align > 0 && s.At? && Points(chain, s, Some(k)) && ent == table[k]
      requires Selected(q, k, best, start)
      ensures Selected(q, k + 1, best', start')
    {
      best', start' := best, start;
      if ent.valid && !ent.used {
        var from := ent.addr;
        var end := from + ent.size;
        if from < q.wstart {
          from := q.wstart;
        }
        if end > q.wend {
          end := q.wend;
        }
        if from % q.align != 0 {
          from := from + (q.align - from % q.align);
        }
        assert from == AllocHeap.Place(ent, q);
        if from > end || end - from < q.sz {
          return;
        }
        assert AllocHeap.Fits(ent, q);
        if best.At? {
          if ent.size < best.block.entries[best.idx].size {
            best', start' := s, from;
          }
        } else {
          best', start' := s, from;
        }
      }
    }

    /** best points to the best of the first k slots, start is where the request goes in it. */
    ghost predicate Selected(q: AllocHeap.Request, k: nat, best: Slot, start: nat)
      requires q.align > 0
      reads this
    {
      && k <= |table|
      && var b := AllocHeap.Best(table, q, k);
         Points(chain, best, b) && (b.Some? ==> start == AllocHeap.Place(table[b.value], q))
    }

    /** Give the bytes of the entry below start an entry of their own (lines 156-167). */
    method CutBefore(ghost k: nat, entry: Slot, start: nat) returns (ok: bool)
      requires Valid() && entry.At? && Points(chain, entry, Some(k))
      requires table[k].addr <= start < table[k].End()
      modifies this`table, Arrays(chain)
      ensures Valid()
      ensures AllocHeap.SplitBefore(old(table), k, start) == if ok then Some(table) else None
    {
      var ent := Get(k, entry);
      ok := true;
      if ent.addr != start {
        ok := AddAlloc(Ent(true, false, ent.addr, start - ent.addr));
        if ok {
          Put(k, entry, ent.(addr := start, size := ent.size - (start - ent.addr)));
        }
      }
    }

    /** Turn the first sz bytes of the entry into a used entry (lines 169-178). */
    method CutFront(ghost k: nat, entry: Slot, sz: nat) returns (ok: bool, addr: nat)
      requires Valid() && entry.At? && Points(chain, entry, Some(k)) && sz <= table[k].size
      modifies this`table, Arrays(chain)
      ensures Valid() && addr == old(table)[k].addr
      ensures AllocHeap.TakeFront(old(table), k, sz) == if ok then Some(table) else None
    {
      var ent := Get(k, entry);
      addr := ent.addr;
      if ent.size == sz {
        Put(k, entry, ent.(used := true));
        ok := true;
      } else {
        Put(k, entry, ent.(addr := ent.addr + sz, size := ent.size - sz));
        ok := AddAlloc(Ent(true, true, ent.addr, sz));
      }
    }

    /** How a call ends: with a panic, with NULL, or with an address and a new state. */
    static ghost predicate Ends(r: AllocHeap.Result, addr: Option<nat>, panic: Option<PanicKind>, h: AllocHeap.Heap) {
      if panic.Some? then r == AllocHeap.Panic(panic.value)
      else if addr.None? then r == AllocHeap.Panic(AllocHeap.NoMemory)
      else r == AllocHeap.Ok(h, addr.value)
    }

    /** The part of _find_free behind the growth test (lines 150-180). */
    method Finish(best: Slot, start: nat, q: AllocHeap.Request) returns (addr: Option<nat>, panic: Option<PanicKind>)
      requires Valid() && q.align > 0 && q.sz > 0 && Selected(q, |table|, best, start)
      modifies this`table, Arrays(chain)
      ensures Valid()
      ensures Ends(AllocHeap.Take(old(Abs()), q), addr, panic, Abs())
    {
      addr, panic := None, None;
      if best.At? {
        ghost var k := SLOTS * best.n + best.idx;
        var ok := CutBefore(k, best, start);
        if ok {
          var a;
          ok, a := CutFront(k, best, q.sz);
          addr := Some(a);
        }
        if !ok {
          panic := Some(AllocHeap.NoSlot);
        }
      }
    }

    /** Lines 139-144: one more table block, itself allocated. */
    method GrowTable() returns (panic: Option<PanicKind>)
      requires Valid()
      modifies this`chain, this`repr, this`table, repr
      ensures Valid() && fresh(repr - old(repr))
      ensures var r := AllocHeap.Grow(old(Abs()));
              if panic.Some? then r == AllocHeap.Panic(panic.value) else r.Ok? && r.heap == Abs()
      decreases 1, 0
    {
      var newblock;
      newblock, panic := Allocate(AllocHeap.BLOCK_BYTES, AllocHeap.GROW_FLAGS);
      if panic.None? {
        ghost var was := chain;
        var block := new AllocBlock(newblock);
        AddAllocBlock(block);
        assert Addresses(chain) == Addresses(was) + [newblock];
      }
    }

    /** _find_free, with its recursive call of alloc for a new table block. */
    method FindFree(sz: nat, f: Flags) returns (addr: Option<nat>, panic: Option<PanicKind>)
      requires Valid() && sz > 0
      modifies this`chain, this`repr, this`table, repr
      ensures Valid() && fresh(repr - old(repr))
      ensures Ends(AllocHeap.Alloc(old(Abs()), sz, f), addr, panic, Abs())
      decreases if f.noNewBlock then 0 else if AllocHeap.Low(table) then 2 else 1, 0
    {
      var q := AllocHeap.RequestOf(sz, f);
      var best, start, freeEnts := Scan(q);
      AllocHeap.AllocUnfolds(Abs(), sz, f);
      if 10 * freeEnts < 7 * SLOTS && !f.noNewBlock {
        panic := GrowTable();
        if panic.Some? {
          return None, panic;
        }
        addr, panic := FindFree(sz, f);
      } else {
        addr, panic := Finish(best, start, q);
      }
    }

    /** alloc */
    method Allocate(sz: nat, f: Flags) returns (addr: nat, panic: Option<PanicKind>)
      requires Valid()
      modifies this`chain, this`repr, this`table, repr
      ensures Valid() && fresh(repr - old(repr))
      ensures var r := AllocHeap.Alloc(old(Abs()), sz, f);
              if panic.Some? then r == AllocHeap.Panic(panic.value) else r == AllocHeap.Ok(Abs(), addr)
      decreases if f.noNewBlock then 0 else if AllocHeap.Low(table) then 2 else 1, 1
    {
      if sz == 0 {
        return 0, Some(AllocHeap.ZeroBytes);
      }
      var a;
      a, panic := FindFree(sz, f);
      if panic.Some? {
        return 0, panic;
      }
      if a.None? {
        return 0, Some(AllocHeap.NoMemory);
      }
      return a.value, None;
    }

    /** The three pointers of _do_free after the first k slots. */
    ghost predicate Seen(a: nat, k: nat, pre: Slot, ent: Slot, post: Slot)
      reads this
    {
      && k <= |table|
      && Points(chain, pre, AllocHeap.FindPre(table, a, k))
      && Points(chain, ent, AllocHeap.FindUsed(table, a, k))
      && Points(chain, post, AllocHeap.FindPost(table, a, k))
    }

    /** The search loop of _do_free. */
    method Search(a: nat) returns (pre: Slot, ent: Slot, post: Slot)
      requires Valid()
      ensures Seen(a, |table|, pre, ent, post)
    {
      pre, ent, post := Null, Null, Null;
      var block: AllocBlock? := firstBlock;
      var n: nat := 0;
      while block != null
        invariant n <= |chain| && block == (if n < |chain| then chain[n] else null)
        invariant Seen(a, SLOTS * n, pre, ent, post)
        decreases |chain| - n
      {
        pre, ent, post := SearchBlock(a, block, n, pre, ent, post);
        block := block.next;
        n := n + 1;
      }
    }

    lemma SlotIn(n: nat, i: nat, k: nat)
      requires Valid() && n < |chain| && i < SLOTS && k == SLOTS * n + i
      ensures Points(chain, At(chain[n], i, n), Some(k)) && k < |table|
    {
    }

    /** The slots of one block. */
    method SearchBlock(a: nat, block: AllocBlock, n: nat, pre: Slot, ent: Slot, post: Slot)
      returns (pre': Slot, ent': Slot, post': Slot)
      requires Valid() && n < |chain| && block == chain[n] && Seen(a, SLOTS * n, pre, ent, post)
      ensures Seen(a, SLOTS * (n + 1), pre', ent', post')
    {
      pre', ent', post' := pre, ent, post;
      ghost var k: nat := SLOTS * n;
      for i := 0 to SLOTS
        invariant k == SLOTS * n + i && Seen(a, k, pre', ent', post')
      {
        SlotIn(n, i, k);
        pre', ent', post' := Classify(a, k, At(block, i, n), pre', ent', post');
        k := k + 1;
      }
      assert k == SLOTS * (n + 1);
    }

    /** The slots seen so far when entry k replaces none of them, and which it replaces. */
    lemma SeenNext(a: nat, k: nat, pre: Slot, ent: Slot, post: Slot)
      requires Valid() && k < |table| && Seen(a, k, pre, ent, post)
      ensures var e := table[k];
        && (AllocHeap.FindPre(table, a, k + 1) ==
             if pre == Null && e.Free() && e.End() == a then Some(k) else AllocHeap.FindPre(table, a, k))
        && (AllocHeap.FindUsed(table, a, k + 1) ==
             if ent == Null && e.valid && e.used && e.addr == a then Some(k) else AllocHeap.FindUsed(table, a, k))
        && (AllocHeap.FindPost(table, a, k + 1) ==
             if e.Free() && e.addr > a && (post == Null || e.addr < table[AllocHeap.FindPost(table, a, k).value].addr) then Some(k)
             else AllocHeap.FindPost(table, a, k))
    {
    }

    /** One entry of the search (lines 222-242). */
    method Classify(a: nat, ghost k: nat, s: Slot, pre: Slot, ent: Slot, post: Slot)
      returns (pre': Slot, ent': Slot, post': Slot)
      requires Valid() && s.At? && Points(chain, s, Some(k))
      requires Seen(a, k, pre, ent, post)
      ensures Seen(a, k + 1, pre', ent', post')
    {
      pre', ent', post' := pre, ent, post;
      var e := Get(k, s);
      SeenNext(a, k, pre, ent, post);
      if e.valid {
        if e.used {
          if ent == Null && e.addr == a {
            ent' := s;
          }
        } else if pre == Null && e.addr + e.size == a {
          pre' := s;
        } else if e.addr > a {
          if post == Null || e.addr < post.block.entries[post.idx].addr {
            post' := s;
          }
        }
      }
    }

    /** The larger entry is written, and the one it took in. */
    method Join(ghost k: nat, s: Slot, e: Ent, ghost k': nat, s': Slot, e': Ent)
      requires Valid() && s.At? && Points(chain, s, Some(k)) && s'.At? && Points(chain, s', Some(k'))
      modifies this`table, Arrays(chain)
      ensures Valid() && k < |old(table)| && k' < |old(table)| && table == old(table)[k := e][k' := e']
    {
      Put(k, s, e);
      Put(k', s', e');
    }

    /** Merge the free entry before the block into the block's entry (lines 251-255). */
    method MergePre(ghost k: nat, ghost o: Option<nat>, ent: Slot, pre: Slot)
      requires Valid() && ent.At? && Points(chain, ent, Some(k)) && Points(chain, pre, o)
      modifies this`table, Arrays(chain)
      ensures Valid() && table == AllocHeap.JoinPre(old(table), k, o)
    {
      if pre.At? {
        var e := Get(k, ent);
        var n := Get(o.value, pre);
        Join(k, ent, e.(addr := n.addr, size := e.size + n.size), o.value, pre, AllocHeap.Gone(n));
      }
    }

    /** Merge the free entry at the block's end, if `post` is that entry (lines 256-259). */
    method MergePost(ghost k: nat, ghost o: Option<nat>, ent: Slot, post: Slot)
      requires Valid() && ent.At? && Points(chain, ent, Some(k)) && Points(chain, post, o)
      modifies this`table, Arrays(chain)
      ensures Valid() && table == AllocHeap.JoinPost(old(table), k, o)
    {
      if post.At? {
        var e := Get(k, ent);
        var n := Get(o.value, post);
        if e.addr + e.size == n.addr {
          Join(k, ent, e.(size := e.size + n.size), o.value, post, AllocHeap.Gone(n));
        }
      }
    }

    /** Both merges, and the used mark taken off (lines 250-261). */
    method Release(a: nat, ghost k: nat, pre: Slot, ent: Slot, post: Slot)
      requires Valid() && Seen(a, |table|, pre, ent, post) && ent.At? && Points(chain, ent, Some(k))
      modifies this`table, Arrays(chain)
      ensures Valid() && AllocHeap.DoFree(old(table), a) == Some(table)
    {
      ghost var t := table;
      MergePre(k, AllocHeap.FindPre(t, a, |t|), ent, pre);
      ghost var t1 := table;
      MergePost(k, AllocHeap.FindPost(t, a, |t|), ent, post);
      ghost var t2 := table;
      var e := Get(k, ent);
      Put(k, ent, e.(used := false));
      AllocHeap.DoFreeUnfolds(t, a, k, t1, t2, table);
    }

    /** _do_free */
    method DoFree(a: nat) returns (ok: bool)
      requires Valid()
      modifies this`table, Arrays(chain)
      ensures Valid()
      ensures if ok then AllocHeap.DoFree(old(table), a) == Some(table)
              else AllocHeap.DoFree(old(table), a) == None && table == old(table)
    {
      var pre, ent, post := Search(a);
      if ent == Null {
        return false;
      }
      Release(a, SLOTS * ent.n + ent.idx, pre, ent, post);
      return true;
    }

    /** free; panics when the address was not allocated. */
    method Free(a: nat) returns (panic: Option<PanicKind>)
      requires Valid()
      modifies this`table, Arrays(chain)
      ensures Valid()
      ensures var r := AllocHeap.Free(old(Abs()), a);
              if panic.Some? then r == AllocHeap.Panic(panic.value) else r == AllocHeap.Ok(Abs(), a)
    {
      var ok := DoFree(a);
      panic := if ok then None else Some(AllocHeap.BadFree);
    }
  }
}
