/** The ring buffer of src/data/fifo.c, used by one process at a time. */
module Fifo {
  import opened Bytes

  function Wrap(x: nat, size: nat): nat { if x >= size then x - size else x }

  /** fifo_getused, fifo_getfree; head may for a moment stand at size (see FifoIsr). */
  function Used(head: nat, tail: nat, size: nat): nat
    requires tail < size && head <= size
  {
    if head <= tail then tail - head else size - (head - tail)
  }

  function Free(head: nat, tail: nat, size: nat): nat
    requires tail < size && head <= size
  {
    if head <= tail then size - (tail - head) - 1 else head - tail - 1
  }

  /** The slots from head on hold q, and the next free slot is tail. */
  predicate Ring(buf: seq<byte>, head: nat, tail: nat, q: seq<byte>) {
    && 1 <= |buf| && tail < |buf| && head <= |buf|
    && |q| == Used(head, tail, |buf|)
    && forall i :: 0 <= i < |q| ==> q[i] == buf[Wrap(head + i, |buf|)]
  }

  /** One slot always stays empty; used and free slots add up to the rest. */
  lemma RingBounds(buf: seq<byte>, head: nat, tail: nat, q: seq<byte>)
    requires Ring(buf, head, tail, q)
    ensures |q| < |buf| && Free(head, tail, |buf|) == |buf| - 1 - |q|
    ensures Wrap(head + |q|, |buf|) == tail
  {
  }

  /** A byte written at the tail joins the queue at its end. */
  lemma RingWrite(buf: seq<byte>, head: nat, tail: nat, q: seq<byte>, b: byte)
    requires Ring(buf, head, tail, q) && Free(head, tail, |buf|) >= 1
    ensures Ring(buf[tail := b], head, Wrap(tail + 1, |buf|), q + [b])
  {
    RingBounds(buf, head, tail, q);
  }

  /** Moving the head on drops the first byte of the queue. */
  lemma RingRead(buf: seq<byte>, head: nat, tail: nat, q: seq<byte>)
    requires Ring(buf, head, tail, q) && head < |buf| && q != []
    ensures q[0] == buf[head] && Ring(buf, head + 1, tail, q[1..])
  {
    forall i | 0 <= i < |q[1..]| ensures q[1..][i] == buf[Wrap(head + 1 + i, |buf|)] {
      assert q[1..][i] == q[i + 1] == buf[Wrap(head + (i + 1), |buf|)];
    }
  }

  /** A head at the end of the buffer means the same as one at its start. */
  lemma RingWrap(buf: seq<byte>, tail: nat, q: seq<byte>)
    requires Ring(buf, |buf|, tail, q)
    ensures Ring(buf, 0, tail, q)
  {
    forall i | 0 <= i < |q| ensures q[i] == buf[Wrap(0 + i, |buf|)] {
      assert q[i] == buf[Wrap(|buf| + i, |buf|)];
    }
  }

  class Queue {
    const buf: array<byte>
    var head: nat
    var tail: nat
    ghost var q: seq<byte>  // the bytes waiting, oldest first

    ghost predicate Valid()
      reads this, buf
    {
      head < buf.Length && Ring(buf[..], head, tail, q)
    }

    /** fifo_init */
    constructor (size: nat)
      requires size >= 1
      ensures Valid() && fresh(buf) && buf.Length == size && q == []
    {
      buf := new byte[size](_ => 0);
      head, tail, q := 0, 0, [];
    }

    /** fifo_getfree: how many bytes still fit. */
    method GetFree() returns (n: nat)
      requires Valid()
      ensures n == buf.Length - 1 - |q|
    {
      RingBounds(buf[..], head, tail, q);
      if head <= tail {
        n := (buf.Length - (tail - head)) - 1;
      } else {
        n := (head - tail) - 1;
      }
    }

    /** fifo_getused */
    method GetUsed() returns (n: nat)
      requires Valid()
      ensures n == |q|
    {
      if head <= tail {
        n := tail - head;
      } else {
        n := buf.Length - (head - tail);
      }
    }

    /** _fifo_write_byte */
    method WriteByte(b: byte)
      requires Valid() && |q| < buf.Length - 1
      modifies this, buf
      ensures Valid() && q == old(q) + [b]
    {
      RingBounds(buf[..], head, tail, q);
      RingWrite(buf[..], head, tail, q, b);
      buf[tail] := b;
      tail := tail + 1;
      if tail >= buf.Length {
        tail := 0;
      }
      q := q + [b];
    }

    /** _fifo_read_byte */
    method ReadByte() returns (b: byte)
      requires Valid() && q != []
      modifies this
      ensures Valid() && old(q) == [b] + q
    {
      RingRead(buf[..], head, tail, q);
      b := buf[head];
      head := head + 1;
      q := q[1..];
      if head >= buf.Length {
        RingWrap(buf[..], tail, q);
        head := 0;
      }
    }

    /** fifo_write: all of the data or none. */
    method Write(data: seq<byte>) returns (ok: bool)
      requires Valid()
      modifies this, buf
      ensures Valid()
      ensures ok <==> |old(q)| + |data| <= buf.Length - 1
      ensures q == if ok then old(q) + data else old(q)
    {
      var room := GetFree();
      if room < |data| {
        return false;
      }
      for i := 0 to |data|
        invariant Valid() && q == old(q) + data[..i]
      {
        WriteByte(data[i]);
        assert data[..i + 1] == data[..i] + [data[i]];
      }
      assert data[..|data|] == data;
      return true;
    }

    /** fifo_read into a buffer (or, for a null buffer in the source, into nothing). */
    method Read(out: array?<byte>, sz: nat) returns (ok: bool)
      requires Valid() && out != buf && (out != null ==> sz <= out.Length)
      modifies this, out
      ensures Valid()
      ensures ok <==> sz <= |old(q)|
      ensures q == if ok then old(q)[sz..] else old(q)
      ensures out != null ==> out[..] == if ok then old(q)[..sz] + old(out[sz..]) else old(out[..])
    {
      var used := GetUsed();
      if used < sz {
        return false;
      }
      for i := 0 to sz
        invariant Valid() && q == old(q)[i..]
        invariant out != null ==> out[..i] == old(q)[..i] && out[i..] == old(out[i..])
      {
        var b := ReadByte();
        if out != null {
          out[i] := b;
        }
      }
      assert out != null ==> out[..] == out[..sz] + out[sz..];
      return true;
    }
  }
}
