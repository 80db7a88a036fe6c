/**
  Matching a file name against a directory entry: _fat_strcmp (src/storage/fs/fat.c, lines
  301-326), which the host tool shares (tools/sector_mapper/src/fat.c, lines 150-175).

  The cursor into the entry's name is not bounded by the eleven bytes of the name: skipping
  spaces and matching characters may run on into the attribute byte and what follows.  The
  entry is therefore given with all the bytes behind it; beyond those the model reads NUL.
*/
module FatName {
  import opened Wrappers
  import opened Bytes

  const SPACE: byte := 32
  const DOT: byte := 46
  const NAME_LEN: nat := 11

  type Name = seq<byte>

  function At(fat: seq<byte>, k: nat): byte { if k < |fat| then fat[k] else 0 }

  /** The first index from k on that holds no space. */
  function SkipSpaces(fat: seq<byte>, k: nat): (r: nat)
    ensures k <= r && At(fat, r) != SPACE
    ensures forall j :: k <= j < r ==> At(fat, j) == SPACE
    decreases |fat| - k
  {
    if At(fat, k) == SPACE then SkipSpaces(fat, k + 1) else k
  }

  /** Where the cursor stands once name[i..] has been matched from cursor k; None on a mismatch. */
  function Cursor(fat: seq<byte>, name: Name, i: nat, k: nat): (r: Option<nat>)
    requires i <= |name|
    ensures r.Some? ==> k <= r.value
    decreases |name| - i
  {
    if i == |name| then Some(k)
    else if name[i] == DOT then Cursor(fat, name, i + 1, SkipSpaces(fat, k))
    else if At(fat, k) != name[i] then None
    else Cursor(fat, name, i + 1, k + 1)
  }

  /** _fat_strcmp returns 0. */
  predicate Accepts(fat: seq<byte>, name: Name) {
    var r := Cursor(fat, name, 0, 0);
    r.Some? && forall j :: r.value <= j < NAME_LEN ==> At(fat, j) == SPACE
  }

  method FatStrcmp(fat: seq<byte>, name: Name) returns (ok: bool)
    ensures ok <==> Accepts(fat, name)
  {
    var fidx: nat, i: nat := 0, 0;
    while i < |name|
      invariant i <= |name|
      invariant Cursor(fat, name, i, fidx) == Cursor(fat, name, 0, 0)
    {
      if name[i] == DOT {
        ghost var from := fidx;
        while At(fat, fidx) == SPACE
          invariant SkipSpaces(fat, fidx) == SkipSpaces(fat, from)
          decreases |fat| - fidx
        {
          fidx := fidx + 1;
        }
        i := i + 1;
        continue;
      }
      if At(fat, fidx) != name[i] {
        return false;
      }
      i := i + 1;
      fidx := fidx + 1;
    }
    ghost var from := fidx;
    while fidx < NAME_LEN
      invariant from <= fidx && forall j :: from <= j < fidx && j < NAME_LEN ==> At(fat, j) == SPACE
      decreases NAME_LEN - fidx
    {
      if At(fat, fidx) != SPACE {
        return false;
      }
      fidx := fidx + 1;
    }
    return true;
  }

  // ---------------------------------------------------------------- 8.3 names are found

  function Spaces(n: nat): (r: seq<byte>)
    ensures |r| == n
  {
    seq(n, _ => SPACE)
  }

  /** Characters of one part of an 8.3 name. */
  predicate Plain(s: seq<byte>) {
    forall i :: 0 <= i < |s| ==> s[i] != SPACE && s[i] != DOT && s[i] != 0
  }

  predicate Is83(base: seq<byte>, ext: seq<byte>) {
    1 <= |base| <= 8 && |ext| <= 3 && Plain(base) && Plain(ext)
  }

  /** The padded form of "FAT Directory Structure": eight bytes and three. */
  function Padded(base: seq<byte>, ext: seq<byte>): (r: seq<byte>)
    requires Is83(base, ext)
    ensures |r| == NAME_LEN
  {
    base + Spaces(8 - |base|) + ext + Spaces(3 - |ext|)
  }

  function Dotted(base: seq<byte>, ext: seq<byte>): Name {
    if ext == [] then base else base + [DOT] + ext
  }

  /** Matching plain characters that stand at the cursor. */
  lemma {:induction false} CursorPlain(fat: seq<byte>, name: Name, i: nat, k: nat, part: seq<byte>)
    requires i + |part| <= |name| && part == name[i..i + |part|] && Plain(part)
    requires forall j :: 0 <= j < |part| ==> At(fat, k + j) == part[j]
    ensures Cursor(fat, name, i, k) == Cursor(fat, name, i + |part|, k + |part|)
    decreases |part|
  {
    if part == [] {
    } else {
      assert part[0] == name[i] && At(fat, k + 0) == part[0];
      var rest := part[1..];
      forall j | 0 <= j < |rest| ensures At(fat, k + 1 + j) == rest[j] {
        assert At(fat, k + (j + 1)) == part[j + 1];
      }
      CursorPlain(fat, name, i + 1, k + 1, rest);
    }
  }

  /** Every 8.3 name is accepted by its own padded encoding, whatever follows it in the entry. */
  lemma PaddedAccepted(base: seq<byte>, ext: seq<byte>, tail: seq<byte>)
    requires Is83(base, ext)
    ensures Accepts(Padded(base, ext) + tail, Dotted(base, ext))
  {
    var fat, name, b := Padded(base, ext) + tail, Dotted(base, ext), |base|;
    forall j | 0 <= j < |base| ensures At(fat, 0 + j) == base[j] {
    }
    CursorPlain(fat, name, 0, 0, base);
    if ext != [] {
      ExtAccepted(base, ext, tail, fat, name);
    }
  }

  lemma ExtAccepted(base: seq<byte>, ext: seq<byte>, tail: seq<byte>, fat: seq<byte>, name: Name)
    requires Is83(base, ext) && ext != [] && fat == Padded(base, ext) + tail && name == base + [DOT] + ext
    ensures Cursor(fat, name, |base|, |base|) == Some(8 + |ext|)
    ensures forall j :: 8 + |ext| <= j < NAME_LEN ==> At(fat, j) == SPACE
  {
    var b := |base|;
    PaddedAt(base, ext, tail, fat);
    assert At(fat, 8 + 0) == ext[0];
    assert SkipSpaces(fat, b) == 8;
    assert name[b + 1..b + 1 + |ext|] == ext;
    CursorPlain(fat, name, b + 1, 8, ext);
  }

  lemma PaddedAt(base: seq<byte>, ext: seq<byte>, tail: seq<byte>, fat: seq<byte>)
    requires Is83(base, ext) && fat == Padded(base, ext) + tail
    ensures forall j :: 0 <= j < |ext| ==> At(fat, 8 + j) == ext[j]
    ensures forall j :: |base| <= j < 8 || 8 + |ext| <= j < NAME_LEN ==> At(fat, j) == SPACE
  {
  }

  // ---------------------------------------------------------------- what acceptance means

  function Without(s: seq<byte>, c: byte): seq<byte> {
    if s == [] then [] else (if s[0] == c then [] else [s[0]]) + Without(s[1..], c)
  }

  predicate SpaceFree(name: Name) {
    forall i :: 0 <= i < |name| ==> name[i] != SPACE && name[i] != 0
  }

  /** The name, without dots, is the entry's name, without padding. */
  predicate Agree(fat: seq<byte>, name: Name)
    requires |fat| >= NAME_LEN
  {
    Without(name, DOT) == Without(fat[..NAME_LEN], SPACE)
  }

  /** The byte that stops the cursor behind the name: the first from the attribute byte on that is no space. */
  function Guard(fat: seq<byte>): byte { At(fat, SkipSpaces(fat, NAME_LEN)) }

  lemma {:induction false} WithoutAppend(s: seq<byte>, t: seq<byte>, c: byte)
    ensures Without(s + t, c) == Without(s, c) + Without(t, c)
  {
    if s == [] {
      assert s + t == t;
    } else {
      assert (s + t)[1..] == s[1..] + t;
      WithoutAppend(s[1..], t, c);
    }
  }

  lemma {:induction false} WithoutAll(s: seq<byte>, c: byte)
    requires forall i :: 0 <= i < |s| ==> s[i] == c
    ensures Without(s, c) == []
  {
    if s == [] {
    } else {
      WithoutAll(s[1..], c);
    }
  }

  /** The padding-free name between two cursor positions. */
  function Between(fat: seq<byte>, k: nat, m: nat): seq<byte>
    requires |fat| >= NAME_LEN
  {
    if k <= m && k <= NAME_LEN then Without(fat[k..if m < NAME_LEN then m else NAME_LEN], SPACE) else []
  }

  lemma BetweenSplit(fat: seq<byte>, k: nat, l: nat, m: nat)
    requires |fat| >= NAME_LEN && k <= l <= m && k <= NAME_LEN
    ensures Between(fat, k, m) == Between(fat, k, l) + Between(fat, l, m)
  {
    var m' := if m < NAME_LEN then m else NAME_LEN;
    var l' := if l < NAME_LEN then l else NAME_LEN;
    assert fat[k..m'] == fat[k..l'] + fat[l'..m'];
    WithoutAppend(fat[k..l'], fat[l'..m'], SPACE);
  }

  lemma BetweenSpaces(fat: seq<byte>, k: nat, m: nat)
    requires |fat| >= NAME_LEN && k <= m
    requires forall j :: k <= j < m && j < NAME_LEN ==> At(fat, j) == SPACE
    ensures Between(fat, k, m) == []
  {
    if k <= NAME_LEN {
      var part := fat[k..if m < NAME_LEN then m else NAME_LEN];
      forall i | 0 <= i < |part| ensures part[i] == SPACE {
        assert At(fat, k + i) == SPACE;
      }
      WithoutAll(part, SPACE);
    }
  }

  /** While the guard is not in the name, only characters inside the eleven bytes are ever matched. */
  lemma {:induction false} CursorReads(fat: seq<byte>, name: Name, i: nat, k: nat)
    requires |fat| >= NAME_LEN && i <= |name| && SpaceFree(name) && k <= SkipSpaces(fat, NAME_LEN)
    requires Guard(fat) == DOT || Guard(fat) !in name
    requires Cursor(fat, name, i, k).Some?
    ensures Without(name[i..], DOT) == Between(fat, k, Cursor(fat, name, i, k).value)
    decreases |name| - i
  {
    var end := Cursor(fat, name, i, k).value;
    if i == |name| {
      BetweenSpaces(fat, k, k);
    } else {
      assert name[i..][1..] == name[i + 1..];
      if name[i] == DOT {
        var l := SkipSpaces(fat, k);
        assert l <= SkipSpaces(fat, NAME_LEN);
        CursorReads(fat, name, i + 1, l);
        if k <= NAME_LEN {
          BetweenSplit(fat, k, l, end);
          BetweenSpaces(fat, k, l);
        }
      } else {
        assert At(fat, k) == name[i];
        assert k < NAME_LEN;
        CursorReads(fat, name, i + 1, k + 1);
        BetweenSplit(fat, k, k + 1, end);
        assert fat[k..k + 1] == [name[i]];
        assert Without([name[i]], SPACE) == [name[i]] + Without([], SPACE);
      }
    }
  }

  /** An accepted name is the entry's own, provided the guard byte cannot be mistaken for one of its characters. */
  lemma AcceptedAgrees(fat: seq<byte>, name: Name)
    requires |fat| >= NAME_LEN && SpaceFree(name) && Accepts(fat, name)
    requires Guard(fat) == DOT || Guard(fat) !in name
    ensures Agree(fat, name)
  {
    CursorReads(fat, name, 0, 0);
    var end := Cursor(fat, name, 0, 0).value;
    assert name[0..] == name;
    if end <= NAME_LEN {
      BetweenSplit(fat, 0, end, NAME_LEN);
      BetweenSpaces(fat, end, NAME_LEN);
    }
  }

  ghost predicate TailSafe(tail: seq<byte>) {
    forall f: seq<byte>, name: Name {:trigger Accepts(f + tail, name)} ::
      |f| == NAME_LEN && SpaceFree(name) && Accepts(f + tail, name) ==> Agree(f + tail, name)
  }

  lemma GuardOfTail(f: seq<byte>, tail: seq<byte>, k: nat)
    requires |f| == NAME_LEN
    ensures SkipSpaces(f + tail, NAME_LEN + k) == NAME_LEN + SkipSpaces(tail, k)
    decreases |tail| - k
  {
    if At(tail, k) == SPACE {
      GuardOfTail(f, tail, k + 1);
    }
  }

  /**
    The bytes behind the name decide: no name is ever accepted by an entry with a different name
    exactly when the first of them that is no space is NUL or a dot.
  */
  lemma TailExact(tail: seq<byte>)
    ensures TailSafe(tail) <==> At(tail, SkipSpaces(tail, 0)) == 0 || At(tail, SkipSpaces(tail, 0)) == DOT
  {
    var b := At(tail, SkipSpaces(tail, 0));
    if b == 0 || b == DOT {
      forall f: seq<byte>, name: Name | |f| == NAME_LEN && SpaceFree(name) && Accepts(f + tail, name)
        ensures Agree(f + tail, name)
      {
        GuardOfTail(f, tail, 0);
        AcceptedAgrees(f + tail, name);
      }
    } else {
      WrongName(tail, b);
    }
  }

  /** The entry named A also answers to "A." followed by the guard byte. */
  lemma WrongName(tail: seq<byte>, b: byte)
    requires b == At(tail, SkipSpaces(tail, 0)) && b != 0 && b != DOT
    ensures !TailSafe(tail)
  {
    var f: seq<byte> := [65] + Spaces(10);
    var fat := f + tail;
    var name: Name := [65, DOT, b];
    GuardOfTail(f, tail, 0);
    var g := SkipSpaces(fat, NAME_LEN);
    assert At(fat, 0) == 65;
    assert forall j :: 1 <= j < NAME_LEN ==> At(fat, j) == SPACE;
    SkipOver(fat, 1, NAME_LEN);
    assert Cursor(fat, name, 3, g + 1) == Some(g + 1);
    assert Cursor(fat, name, 2, g) == Some(g + 1);
    assert Cursor(fat, name, 1, 1) == Some(g + 1);
    assert Accepts(fat, name);
    assert name[1..] == [DOT, b] && name[1..][1..] == [b] && [b][1..] == [];
    assert Without([b], DOT) == [b] + Without([], DOT);
    assert |Without(name, DOT)| == 2;
    assert fat[..NAME_LEN] == f && f[1..] == Spaces(10);
    WithoutAll(Spaces(10), SPACE);
    assert |Without(f, SPACE)| == 1;
  }

  lemma SkipOver(fat: seq<byte>, k: nat, m: nat)
    requires k <= m && forall j :: k <= j < m ==> At(fat, j) == SPACE
    ensures SkipSpaces(fat, k) == SkipSpaces(fat, m)
    decreases m - k
  {
    if k < m {
      SkipOver(fat, k + 1, m);
    }
  }

  /**
    Two dots are accepted by an entry of eleven spaces and by no other: the dots of the argument are
    skipped, those of the entry are not.
  */
  lemma ParentExact(fat: seq<byte>)
    ensures Accepts(fat, [DOT, DOT]) <==> forall j :: 0 <= j < NAME_LEN ==> At(fat, j) == SPACE
  {
    var name: Name := [DOT, DOT];
    var k := SkipSpaces(fat, 0);
    assert SkipSpaces(fat, k) == k;
    assert Cursor(fat, name, 2, k) == Some(k);
    assert Cursor(fat, name, 1, k) == Some(k);
    assert Cursor(fat, name, 0, 0) == Some(k);
    if forall j :: 0 <= j < NAME_LEN ==> At(fat, j) == SPACE {
      SkipOver(fat, 0, NAME_LEN);
    }
  }

  /** So the parent entry is never found by its name. */
  lemma ParentNeverFound(tail: seq<byte>)
    ensures !Accepts([DOT, DOT] + Spaces(9) + tail, [DOT, DOT])
  {
    var fat := [DOT, DOT] + Spaces(9) + tail;
    ParentExact(fat);
    assert At(fat, 0) == DOT;
  }
}
