/**
  The configuration parser (src/config/config.c), which cuts the text in place.  Pointers into the
  text are positions, and NULL is -1.  Copies made with alloc and strcpy are values; a failing alloc
  stops the machine and is left out.
*/
module Config {
  import opened Wrappers
  import opened Bytes
  import opened Printing
  import opened ConfigText
  import Strtoul

  lemma CharAt(s: Text, p: int, t: Text, i: nat)
    requires StringAt(s, p, t, NUL) && i <= |t|
    ensures (s[p + i] == NUL) == (i == |t|) && (i < |t| ==> s[p + i] == t[i])
  {
  }

  /** The text with the n characters from p on set to NUL. */
  ghost function Zeroed(s: Text, p: nat, n: nat): Text
    requires p + n <= |s|
  {
    s[..p] + seq(n, i => NUL) + s[p + n..]
  }

  lemma ZeroedAt(s: Text, p: nat, n: nat, i: nat)
    requires p + n <= |s| && i < |s|
    ensures |Zeroed(s, p, n)| == |s| && Zeroed(s, p, n)[i] == if p <= i < p + n then NUL else s[i]
  {
  }

  lemma OneMoreZero(s: Text, p: nat, n: nat)
    requires p + n < |s|
    ensures Zeroed(s, p, n)[p + n := NUL] == Zeroed(s, p, n + 1)
  {
    var a, b := Zeroed(s, p, n)[p + n := NUL], Zeroed(s, p, n + 1);
    forall i | 0 <= i < |s|
      ensures a[i] == b[i]
    {
      ZeroedAt(s, p, n, i);
      ZeroedAt(s, p, n + 1, i);
    }
  }

  lemma PrefixString(s: Text, p: int, t: Text, n: nat)
    requires StringAt(s, p, t, NUL) && n < |t|
    ensures StringAt(s[p + n := NUL], p, t[..n], NUL)
  {
  }

  lemma SuffixString(s: Text, p: int, t: Text, n: nat)
    requires StringAt(s, p, t, NUL) && n <= |t|
    ensures StringAt(s, p + n, t[n..], NUL)
  {
  }

  lemma {:induction false} FindFirst(t: Text, c: char, n: nat)
    requires n <= |t| && c !in t[..n] && (n < |t| ==> t[n] == c)
    ensures Find(t, c) == n
  {
    if n == 0 {
    } else {
      assert t[0] == t[..n][0];
      assert t[1..][..n - 1] == t[..n][1..];
      FindFirst(t[1..], c, n - 1);
    }
  }

  /** strchr */
  method Strchr(buf: array<char>, p: nat, c: char, ghost t: Text) returns (at: int)
    requires StringAt(buf[..], p, t, NUL) && c != NUL
    ensures at == if Find(t, c) < |t| then p + Find(t, c) else -1
  {
    var i: nat := 0;
    while buf[p + i] != NUL
      invariant i <= |t| && c !in t[..i]
      decreases |t| - i
    {
      CharAt(buf[..], p, t, i);
      if buf[p + i] == c {
        FindFirst(t, c, i);
        return p + i;
      }
      assert t[..i + 1] == t[..i] + [t[i]];
      i := i + 1;
    }
    CharAt(buf[..], p, t, i);
    FindFirst(t, c, i);
    return -1;
  }

  /** strlen and strcpy */
  method Copy(buf: array<char>, p: nat, ghost t: Text) returns (r: Text)
    requires StringAt(buf[..], p, t, NUL)
    ensures r == t
  {
    var i: nat := 0;
    while buf[p + i] != NUL
      invariant i <= |t|
      decreases |t| - i
    {
      CharAt(buf[..], p, t, i);
      i := i + 1;
    }
    CharAt(buf[..], p, t, i);
    r := buf[p..p + i];
    assert r == t;
  }

  // ---------------------------------------------------------------- _get_line

  lemma EndOfLine(t: Text)
    requires LF in t
    ensures Find(t, LF) < |t|
    ensures LineLen(t) == if Find(t, CR) < Find(t, LF) then Find(t, CR) else Find(t, LF)
  {
    var n := if Find(t, CR) < Find(t, LF) then Find(t, CR) else Find(t, LF);
    assert Eol(t[n]);
    assert !(LineLen(t) < n);
    assert !(n < LineLen(t));
  }

  /** The loop that overwrites the line ends. */
  method ZeroRun(buf: array<char>, p: nat, ghost t: Text) returns (end: nat)
    requires StringAt(buf[..], p, t, NUL)
    modifies buf
    ensures end == p + EolRun(t) && buf[..] == Zeroed(old(buf[..]), p, EolRun(t))
    ensures (buf[end] == NUL) == (EolRun(t) == |t|)
  {
    end := p;
    ghost var s := buf[..];
    while buf[end] == CR || buf[end] == LF
      invariant p <= end <= p + EolRun(t)
      invariant buf[..] == Zeroed(s, p, end - p)
      decreases p + |t| - end
    {
      assert buf[..][end] == s[end];
      CharAt(s, p, t, end - p);
      OneMoreZero(s, p, end - p);
      buf[end] := NUL;
      end := end + 1;
    }
    assert buf[..][end] == s[end];
    CharAt(s, p, t, end - p);
  }

  /** What _get_line leaves: the line cut off, and the rest untouched behind it. */
  ghost predicate LineCut(s: Text, s': Text, p: nat, t: Text) {
    if LF in t then
      && |s'| == |s|
      && StringAt(s', p, t[..LineLen(t)], NUL)
      && StringAt(s', p + NextLine(t), t[NextLine(t)..], NUL)
    else s' == s
  }

  /** Zeroing from l to n cuts the string there. */
  lemma CutHolds(s: Text, p: nat, t: Text, l: nat, n: nat)
    requires StringAt(s, p, t, NUL) && l < n <= |t|
    ensures var z := Zeroed(s, p + l, n - l);
      |z| == |s| && StringAt(z, p, t[..l], NUL) && StringAt(z, p + n, t[n..], NUL)
  {
    var z := Zeroed(s, p + l, n - l);
    forall i | 0 <= i < |s|
      ensures z[i] == if p + l <= i < p + n then NUL else s[i]
    {
      ZeroedAt(s, p + l, n - l, i);
    }
    forall i | 0 <= i < |t| - n
      ensures z[p + n + i] == t[n..][i]
    {
      assert s[p + (n + i)] == t[n + i];
    }
  }

  lemma ZeroingCuts(s: Text, p: nat, t: Text)
    requires StringAt(s, p, t, NUL) && LF in t
    ensures LineCut(s, Zeroed(s, p + LineLen(t), EolRun(t[LineLen(t)..])), p, t)
  {
    CutHolds(s, p, t, LineLen(t), NextLine(t));
  }

  /** Where the line ends, or -1. */
  method LineEnd(buf: array<char>, p: nat, ghost t: Text) returns (end: int)
    requires StringAt(buf[..], p, t, NUL)
    ensures end == if LF in t then p + LineLen(t) else -1
  {
    var endCr := Strchr(buf, p, CR, t);
    var endLf := Strchr(buf, p, LF, t);
    if LF in t {
      EndOfLine(t);
    }
    // A null line-feed pointer is below every address, so a carriage return alone ends nothing.
    end := if endCr != -1 && endCr < endLf then endCr else endLf;
  }

  /** _get_line; next keeps its value when the text ends with the line ends. */
  method GetLine(buf: array<char>, p: nat, next: int, ghost t: Text) returns (next': int)
    requires StringAt(buf[..], p, t, NUL)
    modifies buf
    ensures LineCut(old(buf[..]), buf[..], p, t)
    ensures next' == if LF !in t then -1 else if NextLine(t) < |t| then p + NextLine(t) else next
  {
    var end := LineEnd(buf, p, t);
    next' := next;
    if end != -1 {
      SuffixString(buf[..], p, t, LineLen(t));
      ZeroingCuts(buf[..], p, t);
      end := ZeroRun(buf, end, t[LineLen(t)..]);
      if buf[end] != NUL {
        next' := end;
      }
    } else {
      next' := -1;
    }
  }

  // ---------------------------------------------------------------- _config_parse

  /** The line at the front of the text. */
  function FirstOf(t: Text): Text { if LF in t then t[..LineLen(t)] else t }

  /** The lines behind it. */
  function RestOf(t: Text): seq<Text> {
    if LF in t && NextLine(t) < |t| then Lines(t[NextLine(t)..]) else []
  }

  lemma LinesFrom(c: Cfg, t: Text)
    ensures ApplyLines(c, Lines(t))
      == var r := ApplyLine(c, FirstOf(t)); if r.ok then ApplyLines(r.cfg, RestOf(t)) else r
  {
    assert Lines(t) == [FirstOf(t)] + RestOf(t);
    assert Lines(t)[1..] == RestOf(t);
  }

  /** What is left to read at a line once it has been used: the key, or the whole line. */
  function Used(t: Text): Text { if Assigns(t) then Key(t) else t }

  lemma UsedSaysNothing(c: Cfg, t: Text)
    requires LF !in t
    ensures LF !in Used(t) && ApplyLines(c, Lines(Used(t))) == Outcome(true, c)
  {
    assert !Assigns(Used(t));
    assert Lines(Used(t)) == [Used(t)];
    assert [Used(t)][1..] == [];
  }

  /** config_data_t */
  class Settings {
    var version: nat
    var kernelPath: Option<Text>
    var kernelCmdline: Option<Text>
    var modules: seq<Text>

    function Value(): Cfg
      reads this
    {
      Cfg(version, kernelPath, kernelCmdline, modules)
    }

    constructor ()
      ensures Value() == BLANK
    {
      version, kernelPath, kernelCmdline, modules := 0, None, None, [];
    }

    method Set(key: Text, val: Text) returns (ok: bool)
      modifies this
      ensures Outcome(ok, Value()) == SetKey(old(Value()), key, val)
    {
      if key == "CFGVER" {
        var v, _ := Strtoul.Strtoul(val, 10);
        version := v % 256;
        return version == 1;
      } else if key == "KERNEL" {
        kernelPath := Some(val);
      } else if key == "CMDLINE" {
        kernelCmdline := Some(val);
      } else if key == "MODULE" {
        if |modules| == MAX_MODULES {
          return false;
        }
        modules := modules + [val];
      }
      return true;
    }

    /** One line, already cut off: its first '=' becomes a NUL. */
    method Line(buf: array<char>, p: nat, ghost t: Text) returns (ok: bool)
      requires StringAt(buf[..], p, t, NUL)
      modifies this, buf
      ensures Outcome(ok, Value()) == ApplyLine(old(Value()), t)
      ensures StringAt(buf[..], p, Used(t), NUL)
      ensures forall i :: p + |t| <= i < buf.Length ==> buf[i] == old(buf[i])
    {
      var eq := Strchr(buf, p, '=', t);
      if eq == -1 {
        return true;
      }
      PrefixString(buf[..], p, t, eq - p);
      SuffixString(buf[..], p, t, eq + 1 - p);
      buf[eq] := NUL;
      var key := Copy(buf, p, Key(t));
      var val := Copy(buf, eq + 1, Val(t));
      ok := Set(key, val);
    }

    /** One round of the parser's loop on the text t at p. */
    method Round(buf: array<char>, p: nat, next: int, ghost t: Text) returns (ok: bool, next': int)
      requires StringAt(buf[..], p, t, NUL)
      modifies this, buf
      ensures Outcome(ok, Value()) == ApplyLine(old(Value()), FirstOf(t))
      ensures next' == if LF !in t then -1 else if NextLine(t) < |t| then p + NextLine(t) else next
      ensures StringAt(buf[..], p, Used(FirstOf(t)), NUL)
      ensures LF in t ==> StringAt(buf[..], p + NextLine(t), t[NextLine(t)..], NUL)
    {
      next' := GetLine(buf, p, next, t);
      ok := Line(buf, p, FirstOf(t));
    }

    /**
      _config_parse does what the lines say.  Every line takes effect once: when the text ends in a line
      end the stale next pointer brings the last line back, and by then it says nothing.
    */
    method Parse(buf: array<char>, ghost t: Text) returns (ok: bool)
      requires StringAt(buf[..], 0, t, NUL)
      modifies this, buf
      ensures Outcome(ok, Value()) == ApplyLines(old(Value()), Lines(t))
    {
      var next, line := -1, 0;
      ghost var rest, stale, goal := t, false, ApplyLines(Value(), Lines(t));
      while line != -1
        invariant line == -1 || StringAt(buf[..], line, rest, NUL)
        invariant goal == if line == -1 then Outcome(true, Value()) else ApplyLines(Value(), Lines(rest))
        invariant next == -1 || next == line
        invariant stale ==> LF !in rest
        decreases if line == -1 then 0 else 1, !stale, |rest|
      {
        LinesFrom(Value(), rest);
        ok, next := Round(buf, line, next, rest);
        if !ok {
          return false;
        }
        line := next;
        if LF in rest {
          if NextLine(rest) < |rest| {
            rest := rest[NextLine(rest)..];
          } else {
            UsedSaysNothing(Value(), FirstOf(rest));
            rest, stale := Used(FirstOf(rest)), true;
          }
        }
      }
      return true;
    }
  }
}
