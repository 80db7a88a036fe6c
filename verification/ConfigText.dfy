/**
  What a configuration text means, line by line: the reference that the destructive parser of
  src/config/config.c is measured against.
*/
module ConfigText {
  import opened Wrappers
  import opened Printing
  import Strtoul

  const CR: char := '\r'
  const LF: char := '\n'
  const NUL: char := '\0'
  const MAX_MODULES: nat := 4

  // ---------------------------------------------------------------- characters

  /** strchr on a text without NUL: the first place of c, or the length. */
  function Find(t: Text, c: char): (n: nat)
    ensures n <= |t| && (n < |t| ==> t[n] == c) && forall i :: 0 <= i < n ==> t[i] != c
  {
    if t == [] || t[0] == c then 0 else 1 + Find(t[1..], c)
  }

  predicate Eol(c: char) { c == CR || c == LF }

  /** The first line-end character of either kind, or the length. */
  function LineLen(t: Text): (n: nat)
    ensures n <= |t| && (n < |t| ==> Eol(t[n])) && forall i :: 0 <= i < n ==> !Eol(t[i])
  {
    if t == [] || Eol(t[0]) then 0 else 1 + LineLen(t[1..])
  }

  /** How many line-end characters the text starts with. */
  function EolRun(t: Text): (n: nat)
    ensures n <= |t| && (n < |t| ==> !Eol(t[n])) && forall i :: 0 <= i < n ==> Eol(t[i])
  {
    if t == [] || !Eol(t[0]) then 0 else 1 + EolRun(t[1..])
  }

  // ---------------------------------------------------------------- lines

  /** Where the text after the first line and its run of line ends starts. */
  function NextLine(t: Text): (n: nat)
    requires LF in t
    ensures LineLen(t) < n <= |t|
  {
    LineLen(t) + EolRun(t[LineLen(t)..])
  }

  /** The lines: as long as a line feed is left the text is cut, at a carriage return too. */
  function Lines(t: Text): (r: seq<Text>)
    ensures |r| > 0
    decreases |t|
  {
    if LF !in t then [t]
    else [t[..LineLen(t)]] + (if NextLine(t) == |t| then [] else Lines(t[NextLine(t)..]))
  }

  // ---------------------------------------------------------------- effect

  datatype Cfg = Cfg(version: nat, kernelPath: Option<Text>, kernelCmdline: Option<Text>, modules: seq<Text>)

  /** Whether the parser goes on, and the settings as it leaves them. */
  datatype Outcome = Outcome(ok: bool, cfg: Cfg)

  const BLANK: Cfg := Cfg(0, None, None, [])

  function VersionOf(val: Text): nat { Strtoul.Parse(val, 10) % 256 }

  function SetKey(c: Cfg, key: Text, val: Text): Outcome {
    if key == "CFGVER" then Outcome(VersionOf(val) == 1, c.(version := VersionOf(val)))
    else if key == "KERNEL" then Outcome(true, c.(kernelPath := Some(val)))
    else if key == "CMDLINE" then Outcome(true, c.(kernelCmdline := Some(val)))
    else if key == "MODULE" then
      if |c.modules| == MAX_MODULES then Outcome(false, c) else Outcome(true, c.(modules := c.modules + [val]))
    else Outcome(true, c)
  }

  predicate Assigns(line: Text) { Find(line, '=') < |line| }

  function Key(line: Text): Text { line[..Find(line, '=')] }

  function Val(line: Text): Text
    requires Assigns(line)
  {
    line[Find(line, '=') + 1..]
  }

  lemma {:induction false} FindAt(s: Text, c: char, n: nat)
    requires n <= |s| && c !in s[..n] && (n < |s| ==> s[n] == c)
    ensures Find(s, c) == n
  {
    if n > 0 {
      assert s[0] == s[..n][0];
      assert s[1..][..n - 1] == s[..n][1..];
      FindAt(s[1..], c, n - 1);
    } else {
    }
  }

  /** A line that holds no equals sign says nothing; else the key is what stands before the first one, the value what follows. */
  lemma LineSays(key: Text, val: Text)
    requires '=' !in key
    ensures !Assigns(key)
    ensures var line := key + ['='] + val; Assigns(line) && Key(line) == key && Val(line) == val
  {
    FindAt(key, '=', |key|);
    var line := key + ['='] + val;
    assert line[..|key|] == key;
    FindAt(line, '=', |key|);
    assert line[|key| + 1..] == val;
  }

  /** The version is a decimal number, of which the low eight bits are kept. */
  lemma VersionDigits(n: nat)
    requires n < 0x1_0000_0000
    ensures VersionOf(Body(n, 10, true)) == n % 256
  {
    Strtoul.BodyValue(n, 10);
    Strtoul.ParseNumber(Body(n, 10, true), 10, n);
  }

  /** So a CFGVER line is accepted if and only if its number is 1 modulo 256. */
  lemma VersionLine(c: Cfg, n: nat)
    requires n < 0x1_0000_0000
    ensures ApplyLine(c, "CFGVER=" + Body(n, 10, true)).ok <==> n % 256 == 1
  {
    assert "CFGVER=" == "CFGVER" + ['='];
    LineSays("CFGVER", Body(n, 10, true));
    VersionDigits(n);
  }

  function ApplyLine(c: Cfg, line: Text): Outcome {
    if Assigns(line) then SetKey(c, Key(line), Val(line)) else Outcome(true, c)
  }

  function ApplyLines(c: Cfg, lines: seq<Text>): Outcome
    decreases |lines|
  {
    if lines == [] then Outcome(true, c)
    else
      var r := ApplyLine(c, lines[0]);
      if r.ok then ApplyLines(r.cfg, lines[1..]) else r
  }

  // ---------------------------------------------------------------- what a whole file says

  /** The value the line gives to the key, if it does. */
  function Given(line: Text, key: Text): seq<Text> {
    if Assigns(line) && Key(line) == key then [Val(line)] else []
  }

  /** The values given to a key, in file order. */
  function Values(lines: seq<Text>, key: Text): seq<Text> {
    if lines == [] then [] else Given(lines[0], key) + Values(lines[1..], key)
  }

  function LastOf(vs: seq<Text>, before: Option<Text>): Option<Text> {
    if vs == [] then before else Some(vs[|vs| - 1])
  }

  predicate VersionsOk(vs: seq<Text>) { forall i :: 0 <= i < |vs| ==> VersionOf(vs[i]) == 1 }

  predicate Acceptable(room: int, lines: seq<Text>) {
    VersionsOk(Values(lines, "CFGVER")) && |Values(lines, "MODULE")| <= room
  }

  /** The settings after the given values of the four keys, when all of them are accepted. */
  function Settled(c: Cfg, version: seq<Text>, kernel: seq<Text>, cmdline: seq<Text>, modules: seq<Text>): Cfg {
    Cfg(if version == [] then c.version else 1,
        LastOf(kernel, c.kernelPath),
        LastOf(cmdline, c.kernelCmdline),
        c.modules + modules)
  }

  function Meaning(c: Cfg, lines: seq<Text>): Cfg {
    Settled(c, Values(lines, "CFGVER"), Values(lines, "KERNEL"), Values(lines, "CMDLINE"), Values(lines, "MODULE"))
  }

  lemma VersionsOkConcat(a: seq<Text>, b: seq<Text>)
    ensures VersionsOk(a + b) == (VersionsOk(a) && VersionsOk(b))
  {
    assert forall i :: 0 <= i < |a| ==> (a + b)[i] == a[i];
    assert forall i :: 0 <= i < |b| ==> (a + b)[i + |a|] == b[i];
  }

  lemma AcceptableStep(room: int, lines: seq<Text>)
    requires lines != []
    ensures Acceptable(room, lines)
      == (VersionsOk(Given(lines[0], "CFGVER")) && Acceptable(room - |Given(lines[0], "MODULE")|, lines[1..]))
  {
    VersionsOkConcat(Given(lines[0], "CFGVER"), Values(lines[1..], "CFGVER"));
  }

  lemma SettledTwice(c: Cfg, v: seq<Text>, k: seq<Text>, l: seq<Text>, m: seq<Text>,
                     v': seq<Text>, k': seq<Text>, l': seq<Text>, m': seq<Text>)
    ensures Settled(Settled(c, v, k, l, m), v', k', l', m') == Settled(c, v + v', k + k', l + l', m + m')
  {
    assert (c.modules + m) + m' == c.modules + (m + m');
  }

  lemma LineMeaning(c: Cfg, line: Text)
    requires |c.modules| <= MAX_MODULES
    ensures ApplyLine(c, line).ok
        == (VersionsOk(Given(line, "CFGVER")) && |c.modules| + |Given(line, "MODULE")| <= MAX_MODULES)
    ensures ApplyLine(c, line).ok ==>
      ApplyLine(c, line).cfg
        == Settled(c, Given(line, "CFGVER"), Given(line, "KERNEL"), Given(line, "CMDLINE"), Given(line, "MODULE"))
  {
    if Assigns(line) {
      var key := Key(line);
      assert c.modules + [] == c.modules;
      if key == "CFGVER" {
        assert VersionsOk([Val(line)]) == (VersionOf([Val(line)][0]) == 1);
      }
    } else {
      assert c.modules + [] == c.modules;
    }
  }

  /**
    A file is accepted exactly when every CFGVER in it is 1 and it does not name more modules than
    there is room for; then the last KERNEL and the last CMDLINE hold, and the modules are in file order.
  */
  lemma {:induction false} ParseMeaning(c: Cfg, lines: seq<Text>)
    requires |c.modules| <= MAX_MODULES
    ensures ApplyLines(c, lines).ok == Acceptable(MAX_MODULES - |c.modules|, lines)
    ensures ApplyLines(c, lines).ok ==> ApplyLines(c, lines).cfg == Meaning(c, lines)
    decreases |lines|
  {
    if lines == [] {
      assert c.modules + [] == c.modules;
    } else {
      var line, rest := lines[0], lines[1..];
      var r := ApplyLine(c, line);
      LineMeaning(c, line);
      AcceptableStep(MAX_MODULES - |c.modules|, lines);
      if r.ok {
        ParseMeaning(r.cfg, rest);
        SettledTwice(c, Given(line, "CFGVER"), Given(line, "KERNEL"), Given(line, "CMDLINE"), Given(line, "MODULE"),
                     Values(rest, "CFGVER"), Values(rest, "KERNEL"), Values(rest, "CMDLINE"), Values(rest, "MODULE"));
      }
    }
  }

  /** A file, read into blank settings, may say CFGVER=1 and at most four modules. */
  lemma FileMeaning(lines: seq<Text>)
    ensures ApplyLines(BLANK, lines).ok <==> VersionsOk(Values(lines, "CFGVER")) && |Values(lines, "MODULE")| <= 4
    ensures ApplyLines(BLANK, lines).ok ==>
      ApplyLines(BLANK, lines).cfg
        == Cfg(if Values(lines, "CFGVER") == [] then 0 else 1, LastOf(Values(lines, "KERNEL"), None),
               LastOf(Values(lines, "CMDLINE"), None), Values(lines, "MODULE"))
  {
    ParseMeaning(BLANK, lines);
    assert [] + Values(lines, "MODULE") == Values(lines, "MODULE");
  }

  // ---------------------------------------------------------------- line ends

  function NonEmpty(lines: seq<Text>): seq<Text> {
    if lines == [] then []
    else Keep(lines[0]) + NonEmpty(lines[1..])
  }

  function Keep(line: Text): seq<Text> { if line == [] then [] else [line] }

  /** Plain splitting at every line feed. */
  function SplitLf(t: Text): seq<Text>
    decreases |t|
  {
    if LF !in t then [t] else [t[..Find(t, LF)]] + SplitLf(t[Find(t, LF) + 1..])
  }

  function DropCr(t: Text): Text {
    if t == [] then [] else (if t[0] == CR then [] else [t[0]]) + DropCr(t[1..])
  }

  /** Lines end in LF or in CR LF. */
  predicate CrBeforeLf(t: Text) { forall i :: 0 <= i < |t| && t[i] == CR ==> i + 1 < |t| && t[i + 1] == LF }

  lemma {:induction false} EmptyLinesSayNothing(c: Cfg, lines: seq<Text>)
    ensures ApplyLines(c, lines) == ApplyLines(c, NonEmpty(lines))
    decreases |lines|
  {
    if lines == [] {
    } else {
      var r := ApplyLine(c, lines[0]);
      var rest := NonEmpty(lines[1..]);
      EmptyLinesSayNothing(r.cfg, lines[1..]);
      if lines[0] != [] {
        assert NonEmpty(lines) == [lines[0]] + rest;
        assert ([lines[0]] + rest)[1..] == rest;
      } else {
        assert NonEmpty(lines) == rest;
      }
    }
  }

  lemma SplitCons(s: Text, u: Text)
    requires LF !in s
    ensures SplitLf(s + [LF] + u) == [s] + SplitLf(u)
  {
    var t := s + [LF] + u;
    assert t[|s|] == LF;
    assert forall i :: 0 <= i < |s| ==> t[i] == s[i] != LF;
    assert Find(t, LF) == |s|;
    assert t[..|s|] == s && t[|s| + 1..] == u;
  }

  lemma {:induction false} DropCrCut(t: Text, n: nat)
    requires n <= |t| && CR !in t[..n]
    ensures DropCr(t) == t[..n] + DropCr(t[n..])
  {
    if n > 0 {
      assert t[0] == t[..n][0];
      assert t[1..][..n - 1] == t[..n][1..];
      DropCrCut(t[1..], n - 1);
      assert t[1..][n - 1..] == t[n..];
    } else {
      assert t[0..] == t;
    }
  }

  /** The lines after the first one. */
  function LaterLines(t: Text): seq<Text>
    requires LF in t
  {
    if NextLine(t) == |t| then [] else Lines(t[NextLine(t)..])
  }

  lemma SameLaterLines(t: Text, u: Text)
    requires LF in t && LF in u && t[NextLine(t)..] == u[NextLine(u)..]
    ensures LaterLines(t) == LaterLines(u)
  {
    assert |t[NextLine(t)..]| == |t| - NextLine(t);
    assert |u[NextLine(u)..]| == |u| - NextLine(u);
  }

  lemma FirstLineCut(t: Text, u: Text)
    requires LF in t && u == t[LineLen(t)..]
    ensures LF in u && LineLen(u) == 0 && LaterLines(u) == LaterLines(t)
  {
    assert u[Find(t, LF) - LineLen(t)] == LF;
    assert u[0..] == u;
    assert NextLine(t) == LineLen(t) + NextLine(u);
    assert t[NextLine(t)..] == u[NextLine(u)..];
    SameLaterLines(t, u);
  }

  lemma NothingKept(rest: seq<Text>)
    ensures Keep([]) + rest == rest
  {
  }

  lemma KeepFirst(t: Text)
    requires LF in t
    ensures NonEmpty(Lines(t)) == Keep(t[..LineLen(t)]) + NonEmpty(LaterLines(t))
  {
    var first, later := t[..LineLen(t)], LaterLines(t);
    assert Lines(t) == [first] + later;
    assert ([first] + later)[1..] == later;
  }

  /** The first line can be taken off. */
  lemma FirstLine(t: Text, u: Text)
    requires LF in t && u == t[LineLen(t)..]
    ensures LF in u && NonEmpty(Lines(t)) == Keep(t[..LineLen(t)]) + NonEmpty(Lines(u))
  {
    FirstLineCut(t, u);
    KeepFirst(t);
    KeepFirst(u);
  }

  lemma EolRunStep(t: Text, u: Text)
    requires LF in t && Eol(t[0]) && u == t[1..]
    ensures LineLen(t) == 0 && NextLine(t) == 1 + EolRun(u) && t[NextLine(t)..] == u[EolRun(u)..]
  {
    assert t[0..] == t;
  }

  /** A run of line ends of length one. */
  lemma LastEol(t: Text, u: Text)
    requires LF in t && Eol(t[0]) && u == t[1..] && (u == [] || !Eol(u[0]))
    ensures NonEmpty(LaterLines(t)) == NonEmpty(Lines(u))
  {
    EolRunStep(t, u);
    assert EolRun(u) == 0 && u[0..] == u;
    assert u == [] ==> Lines(u) == [[]];
  }

  /** A longer one. */
  lemma MoreEols(t: Text, u: Text)
    requires LF in t && Eol(t[0]) && u == t[1..] && LF in u && Eol(u[0])
    ensures LaterLines(t) == LaterLines(u) && u[..LineLen(u)] == []
  {
    EolRunStep(t, u);
    EolRunStep(u, u[1..]);
    assert EolRun(u) == 1 + EolRun(u[1..]);
    SameLaterLines(t, u);
  }

  /** A carriage return is never last before the end of the line feeds. */
  lemma EolThenLf(t: Text, u: Text)
    requires LF in t && CrBeforeLf(t) && u == t[1..] && u != [] && Eol(u[0])
    ensures LF in u
  {
    assert u[0] == t[1];
    if u[0] == CR {
      assert t[2] == LF && u[1] == t[2];
    }
  }

  /** A leading line end changes the lines by an empty line at most. */
  lemma LeadingEol(t: Text, u: Text)
    requires LF in t && Eol(t[0]) && CrBeforeLf(t) && u == t[1..]
    ensures NonEmpty(Lines(t)) == NonEmpty(Lines(u))
  {
    KeepFirst(t);
    NothingKept(NonEmpty(LaterLines(t)));
    if u != [] && Eol(u[0]) {
      EolThenLf(t, u);
      MoreEols(t, u);
      KeepFirst(u);
    } else {
      LastEol(t, u);
    }
  }

  lemma CrMeansLf(t: Text, i: nat)
    requires CrBeforeLf(t) && i < |t| && t[i] == CR
    ensures LF in t
  {
    assert t[i + 1] in t;
  }

  lemma NoLf(t: Text)
    requires CrBeforeLf(t) && LF !in t
    ensures DropCr(t) == t
  {
    forall i | 0 <= i < |t|
      ensures t[i] != CR
    {
      if t[i] == CR {
        CrMeansLf(t, i);
      }
    }
    assert t[..|t|] == t && t[|t|..] == [];
    DropCrCut(t, |t|);
  }

  lemma CrBeforeLfSuffix(t: Text, n: nat)
    requires n <= |t| && CrBeforeLf(t)
    ensures CrBeforeLf(t[n..])
  {
    assert forall i :: 0 <= i < |t[n..]| ==> t[n..][i] == t[i + n];
  }

  lemma SplitLine(s: Text, v: Text, t: Text)
    requires LF !in s && t == s + [LF] + v
    ensures NonEmpty(SplitLf(t)) == Keep(s) + NonEmpty(SplitLf(v))
  {
    SplitCons(s, v);
    assert ([s] + SplitLf(v))[1..] == SplitLf(v);
  }

  /** A text w that starts with a line feed is a line end and what follows it. */
  lemma LfCut(s: Text, w: Text, v: Text)
    requires w != [] && w[0] == LF && v == w[1..]
    ensures s + w == s + [LF] + v && w == [] + [LF] + v
  {
  }

  /** What SplitLf makes of a line s and the text w from its line feed on. */
  lemma SplitAtLf(s: Text, w: Text, t: Text)
    requires LF !in s && w != [] && w[0] == LF && t == s + w
    ensures NonEmpty(SplitLf(t)) == Keep(s) + NonEmpty(SplitLf(w))
  {
    var v := w[1..];
    LfCut(s, w, v);
    SplitLine(s, v, t);
    SplitLine([], v, w);
    NothingKept(NonEmpty(SplitLf(v)));
  }

  lemma SplitFirst(t: Text)
    requires LF in t && CrBeforeLf(t)
    ensures var l := LineLen(t);
      NonEmpty(SplitLf(DropCr(t))) == Keep(t[..l]) + NonEmpty(SplitLf(DropCr(t[l..])))
  {
    var l := LineLen(t);
    CrBeforeLfSuffix(t, l);
    DropCrCut(t, l);
    StartsWithLf(t[l..]);
    SplitAtLf(t[..l], DropCr(t[l..]), DropCr(t));
  }

  lemma SplitLeading(t: Text)
    requires t != [] && Eol(t[0]) && CrBeforeLf(t)
    ensures NonEmpty(SplitLf(DropCr(t))) == NonEmpty(SplitLf(DropCr(t[1..])))
  {
    var v := t[1..];
    if t[0] == LF {
      LfCut([], DropCr(t), DropCr(v));
      SplitLine([], DropCr(v), DropCr(t));
      NothingKept(NonEmpty(SplitLf(DropCr(v))));
    }
  }

  /** Under either convention the lines are those of plain splitting, empty ones apart. */
  lemma {:induction false} LinesAreSplit(t: Text)
    requires CrBeforeLf(t)
    ensures NonEmpty(Lines(t)) == NonEmpty(SplitLf(DropCr(t)))
    decreases |t|
  {
    var l := LineLen(t);
    if LF !in t {
      NoLf(t);
    } else if l == 0 {
      SplitLeading(t);
      LeadingEol(t, t[1..]);
      CrBeforeLfSuffix(t, 1);
      LinesAreSplit(t[1..]);
    } else {
      SplitFirst(t);
      FirstLine(t, t[l..]);
      CrBeforeLfSuffix(t, l);
      LinesAreSplit(t[l..]);
    }
  }

  lemma StartsWithLf(u: Text)
    requires u != [] && Eol(u[0]) && CrBeforeLf(u)
    ensures DropCr(u) != [] && DropCr(u)[0] == LF
  {
    if u[0] == CR {
      assert u[1..][0] == LF;
    }
  }

  /** Two texts that differ only in the choice between LF and CR LF configure the same. */
  lemma LineEndsDoNotMatter(c: Cfg, t: Text, u: Text)
    requires CrBeforeLf(t) && CrBeforeLf(u) && DropCr(t) == DropCr(u)
    ensures ApplyLines(c, Lines(t)) == ApplyLines(c, Lines(u))
  {
    LinesAreSplit(t);
    LinesAreSplit(u);
    EmptyLinesSayNothing(c, Lines(t));
    EmptyLinesSayNothing(c, Lines(u));
  }

  // ---------------------------------------------------------------- carriage returns alone

  /** The text behind the first line and the line ends after it. */
  function Behind(t: Text): (r: Text)
    ensures t != [] ==> |r| < |t|
  {
    t[LineLen(t) + EolRun(t[LineLen(t)..])..]
  }

  /** The lines when every line-end character of either kind ends a line. */
  function EolLines(t: Text): seq<Text>
    decreases |t|
  {
    if t == [] then [] else [t[..LineLen(t)]] + EolLines(Behind(t))
  }

  /** What is left behind the last line feed and the line ends directly after it. */
  function Remainder(t: Text): Text
    decreases |t|
  {
    if LF !in t then t else if NextLine(t) == |t| then [] else Remainder(t[NextLine(t)..])
  }

  predicate CrFree(lines: seq<Text>) { forall l :: l in lines ==> CR !in l }

  lemma KeepCons(line: Text, rest: seq<Text>)
    ensures NonEmpty([line] + rest) == Keep(line) + NonEmpty(rest)
  {
    assert ([line] + rest)[1..] == rest;
  }

  lemma KeepFirstEol(t: Text)
    requires t != []
    ensures NonEmpty(EolLines(t)) == Keep(t[..LineLen(t)]) + NonEmpty(EolLines(Behind(t)))
  {
    KeepCons(t[..LineLen(t)], EolLines(Behind(t)));
  }

  lemma {:induction false} EolLinesCrFree(t: Text)
    ensures CrFree(NonEmpty(EolLines(t)))
    decreases |t|
  {
    if t == [] {
    } else {
      KeepFirstEol(t);
      EolLinesCrFree(Behind(t));
      assert CR !in t[..LineLen(t)];
    }
  }

  lemma WholeText(t: Text)
    requires LF !in t
    ensures NonEmpty(Lines(t)) == Keep(t) && (CR !in t ==> NonEmpty(EolLines(t)) == Keep(t))
  {
    assert [t][1..] == [];
    if CR !in t && t != [] {
      forall i | 0 <= i < |t|
        ensures !Eol(t[i])
      {
        assert t[i] in t;
      }
      assert LineLen(t) == |t| && t[|t|..] == [] && t[..|t|] == t;
      KeepFirstEol(t);
      assert Behind(t) == [] && EolLines([]) == [];
    }
  }

  lemma KeepCancels(a: seq<Text>, b: seq<Text>, c: seq<Text>, x: seq<Text>, y: seq<Text>)
    requires x == a + b && y == a + c
    ensures x == y <==> b == c
  {
    assert x[|a|..] == b && y[|a|..] == c;
  }

  lemma BehindIsRest(t: Text, rest: Text)
    requires LF in t && rest == t[NextLine(t)..]
    ensures Behind(t) == rest
  {
  }

  lemma LoneCrWhole(t: Text)
    requires LF !in t
    ensures NonEmpty(Lines(t)) == NonEmpty(EolLines(t)) <==> CR !in t
  {
    WholeText(t);
    if CR in t {
      EolLinesCrFree(t);
      assert t in Keep(t);
    }
  }

  /** The first line is the same under both readings. */
  lemma LoneCrStep(t: Text, rest: Text)
    requires LF in t && rest == t[NextLine(t)..]
    ensures NonEmpty(Lines(t)) == NonEmpty(EolLines(t)) <==> NonEmpty(LaterLines(t)) == NonEmpty(EolLines(rest))
  {
    KeepFirst(t);
    KeepFirstEol(t);
    BehindIsRest(t, rest);
    KeepCancels(Keep(t[..LineLen(t)]), NonEmpty(LaterLines(t)), NonEmpty(EolLines(rest)),
                NonEmpty(Lines(t)), NonEmpty(EolLines(t)));
  }

  lemma RestOf(t: Text, rest: Text)
    requires LF in t && rest == t[NextLine(t)..]
    ensures rest == [] ==> LaterLines(t) == EolLines(rest) && Remainder(t) == []
    ensures rest != [] ==> LaterLines(t) == Lines(rest) && Remainder(t) == Remainder(rest)
  {
    assert |rest| == |t| - NextLine(t);
  }

  /**
    Every carriage return ends a line as a line feed does, empty lines apart, if and only if none is left
    behind the last line feed and the line ends directly after it.
  */
  lemma {:induction false} LoneCrExact(t: Text)
    ensures NonEmpty(Lines(t)) == NonEmpty(EolLines(t)) <==> CR !in Remainder(t)
    decreases |t|
  {
    if LF !in t {
      LoneCrWhole(t);
    } else {
      var rest := t[NextLine(t)..];
      LoneCrStep(t, rest);
      RestOf(t, rest);
      if rest != [] {
        LoneCrExact(rest);
      }
    }
  }
}
