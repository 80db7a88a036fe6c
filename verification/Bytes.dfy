/** Bytes and little-endian words. */
module Bytes {
  type byte = x: int | 0 <= x < 256

  type word = x: int | 0 <= x < 0x1_0000

  type dword = x: int | 0 <= x < 0x1_0000_0000

  /** What a disk or an image of one holds. */
  type Disk = seq<byte>

  /** What a stretch of memory holds. */
  type Mem = seq<byte>

  function Le16(s: seq<byte>, i: nat): word
    requires i + 2 <= |s|
  {
    s[i] as int + 256 * s[i + 1] as int
  }

  function Put16(w: word): (r: seq<byte>)
    ensures |r| == 2
  {
    [w % 256, w / 256]
  }

  function Le32(s: seq<byte>, i: nat): dword
    requires i + 4 <= |s|
  {
    Le16(s, i) + 0x1_0000 * Le16(s, i + 2)
  }

  function Put32(d: dword): (r: seq<byte>)
    ensures |r| == 4
  {
    Put16(d % 0x1_0000) + Put16(d / 0x1_0000)
  }

  function Zeros(n: nat): (r: seq<byte>)
    ensures |r| == n && forall i :: 0 <= i < n ==> r[i] == 0
  {
    seq(n, i => 0)
  }

  /** The string at p of a memory whose strings end in nul is t. */
  ghost predicate StringAt<T>(m: seq<T>, p: int, t: seq<T>, nul: T) {
    && 0 <= p && p + |t| < |m|
    && m[p + |t|] == nul
    && nul !in t
    && forall i :: 0 <= i < |t| ==> m[p + i] == t[i]
  }

  /** The bytes s written over m from place at on. */
  function Write(m: seq<byte>, at: nat, s: seq<byte>): (r: seq<byte>)
    requires at + |s| <= |m|
    ensures |r| == |m|
    ensures forall i :: 0 <= i < |m| ==> r[i] == if at <= i < at + |s| then s[i - at] else m[i]
  {
    m[..at] + s + m[at + |s|..]
  }

  /** The word w written over m at place at. */
  function PutWord(m: seq<byte>, at: nat, w: nat): (r: seq<byte>)
    requires at + 2 <= |m| && w < 0x1_0000
    ensures |r| == |m| && Le16(r, at) == w
    ensures forall x :: 0 <= x < |m| && x != at && x != at + 1 ==> r[x] == m[x]
  {
    m[at := w % 256][at + 1 := w / 256]
  }

  lemma PutWordWrites(m: seq<byte>, at: nat, w: word)
    requires at + 2 <= |m|
    ensures PutWord(m, at, w) == Write(m, at, Put16(w))
  {
  }

  function Sum(m: seq<byte>): nat { if m == [] then 0 else Sum(m[..|m| - 1]) + m[|m| - 1] }

  lemma SumStep(m: seq<byte>, i: nat)
    requires i < |m|
    ensures Sum(m[..i + 1]) == Sum(m[..i]) + m[i]
  {
    assert m[..i + 1][..i] == m[..i];
  }

  lemma {:induction false} SumAppend(a: seq<byte>, b: seq<byte>)
    ensures Sum(a + b) == Sum(a) + Sum(b)
  {
    if b == [] {
      assert a + b == a;
    } else {
      var n := |b| - 1;
      SumAppend(a, b[..n]);
      assert (a + b)[..|a + b| - 1] == a + b[..n];
    }
  }

  /** The least significant byte comes first. */
  lemma LittleEndian()
    ensures Put32(0x12345678) == [0x78, 0x56, 0x34, 0x12] && Le32([0x78, 0x56, 0x34, 0x12], 0) == 0x12345678
    ensures Sum([0x12]) == 0x12
  {
  }

  /** A stored word reads back. */
  lemma ReadBack16(w: word)
    ensures Le16(Put16(w), 0) == w
  {
  }

  lemma ReadBack32(d: dword)
    ensures Le32(Put32(d), 0) == d
  {
    var lo, hi := d % 0x1_0000, d / 0x1_0000;
    ReadBack16(lo);
    ReadBack16(hi);
    assert Put32(d)[0] == Put16(lo)[0] && Put32(d)[1] == Put16(lo)[1];
    assert Put32(d)[2] == Put16(hi)[0] && Put32(d)[3] == Put16(hi)[1];
  }
}
