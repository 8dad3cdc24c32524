/** The line pass: every line trimmed, empty lines dropped. */
module CssLines {
  import opened Common

  const LF := '\n'
  const CR := '\r'

  /** Unicode White_Space. */
  predicate IsSpace(c: char) {
    var n := c as int;
    || 0x09 <= n <= 0x0D || n == 0x20 || n == 0x85 || n == 0xA0 || n == 0x1680
    || 0x2000 <= n <= 0x200A || n == 0x2028 || n == 0x2029 || n == 0x202F || n == 0x205F || n == 0x3000
  }

  function LineLen(s: string): (n: nat)
    ensures n <= |s| && LF !in s[..n]
    ensures n < |s| ==> s[n] == LF
  {
    if s == [] || s[0] == LF then 0
    else
      var n := LineLen(s[1..]);
      assert s[..n + 1] == [s[0]] + s[1..][..n];
      n + 1
  }

  function DropCr(line: string): string {
    if line != [] && line[|line| - 1] == CR then line[..|line| - 1] else line
  }

  /** Lines end at LF or CR LF; what follows the last terminator is a line unless it is empty. */
  function Lines(s: string): (ls: seq<string>)
    ensures forall l | l in ls :: LF !in l
  {
    if s == [] then []
    else
      var n := LineLen(s);
      if n == |s| then assert s[..n] == s; [s] else [DropCr(s[..n])] + Lines(s[n + 1..])
  }

  function TrimStart(s: string): string {
    if s != [] && IsSpace(s[0]) then TrimStart(s[1..]) else s
  }

  function TrimEnd(s: string): string {
    if s != [] && IsSpace(s[|s| - 1]) then TrimEnd(s[..|s| - 1]) else s
  }

  function Trim(s: string): string { TrimEnd(TrimStart(s)) }

  /** A line worth keeping, as it is kept. */
  predicate Trimmed(l: string) {
    l != [] && LF !in l && !IsSpace(l[0]) && !IsSpace(l[|l| - 1])
  }

  function Line(l: string): string {
    var t := Trim(l);
    if t == [] then [] else t + [LF]
  }

  function Padded(ls: seq<string>): string {
    if ls == [] then []
    else Line(ls[0]) + Padded(ls[1..])
  }

  function TrimmedLines(ls: seq<string>): seq<string> {
    if ls == [] then []
    else (if Trim(ls[0]) == [] then [] else [Trim(ls[0])]) + TrimmedLines(ls[1..])
  }

  function NonSpace(s: string): string {
    if s == [] then [] else (if IsSpace(s[0]) then [] else [s[0]]) + NonSpace(s[1..])
  }

  // ---- which lines there are, and what trimming leaves of them ----

  /** `ls` are the lines of `s`: each ends at the first LF, or at a CR LF, or where `s` ends. */
  ghost predicate Splits(s: string, ls: seq<string>)
    decreases |ls|
  {
    if ls == [] then s == []
    else LF !in ls[0] && (IsLastLine(s, ls) || IsLine(s, ls))
  }

  predicate IsLastLine(s: string, ls: seq<string>)
    requires ls != []
  {
    |ls| == 1 && s != [] && s == ls[0]
  }

  ghost predicate IsLine(s: string, ls: seq<string>)
    requires ls != []
    decreases |ls|, 0
  {
    exists rest :: Ends(s, ls[0], rest) && Splits(rest, ls[1..])
  }

  /** `s` is the line, its terminator and the rest: CR LF, or LF alone. */
  predicate Ends(s: string, l: string, rest: string) {
    s == l + [CR] + [LF] + rest || (s == l + [LF] + rest && DropCr(l) == l)
  }

  lemma LineLenOf(l: string, rest: string)
    requires LF !in l
    ensures LineLen(l + [LF] + rest) == |l|
  {
    var s := l + [LF] + rest;
    var n := LineLen(s);
    assert s[|l|] == LF && s[..|l|] == l;
    assert n == |l|;
  }

  lemma LinesCons(l: string, rest: string)
    requires LF !in l
    ensures Lines(l + [LF] + rest) == [DropCr(l)] + Lines(rest)
  {
    var s := l + [LF] + rest;
    LineLenOf(l, rest);
    assert s[..|l|] == l && s[|l| + 1..] == rest;
  }

  lemma EndsLine(s: string, l: string, rest: string)
    requires LF !in l && Ends(s, l, rest)
    ensures Lines(s) == [l] + Lines(rest)
  {
    if s == l + [CR] + [LF] + rest {
      LinesCons(l + [CR], rest);
      assert DropCr(l + [CR]) == l;
    } else {
      LinesCons(l, rest);
    }
  }

  lemma FirstLineEnds(s: string, n: nat)
    requires n == LineLen(s) < |s|
    ensures Ends(s, DropCr(s[..n]), s[n + 1..])
  {
    var line, rest := s[..n], s[n + 1..];
    SplitAt(s, n);
    if DropCr(line) != line {
      LastOf(line);
    }
  }

  lemma {:induction false} LinesSplit(s: string)
    ensures Splits(s, Lines(s))
    decreases |s|
  {
    var n := LineLen(s);
    var ls := Lines(s);
    if s == [] {
    } else if n == |s| {
      assert IsLastLine(s, ls);
    } else {
      FirstLineEnds(s, n);
      LinesSplit(s[n + 1..]);
      assert ls[1..] == Lines(s[n + 1..]);
      assert IsLine(s, ls);
    }
  }

  lemma {:induction false} SplitIsLines(s: string, ls: seq<string>)
    requires Splits(s, ls)
    ensures ls == Lines(s)
    decreases |ls|
  {
    if ls != [] {
      if IsLastLine(s, ls) {
        assert LineLen(s) == |s|;
      } else {
        var rest :| Ends(s, ls[0], rest) && Splits(rest, ls[1..]);
        SplitIsLines(rest, ls[1..]);
        EndsLine(s, ls[0], rest);
        assert ls == [ls[0]] + ls[1..];
      }
    }
  }

  lemma LinesExactly(s: string, ls: seq<string>)
    ensures ls == Lines(s) <==> Splits(s, ls)
  {
    LinesSplit(s);
    if Splits(s, ls) { SplitIsLines(s, ls); }
  }

  predicate IsBlank(s: string) { forall i | 0 <= i < |s| :: IsSpace(s[i]) }

  /** `s` is `t` between blanks, and `t` neither begins nor ends with a space. */
  ghost predicate IsMiddle(s: string, t: string) {
    && (t == [] || (!IsSpace(t[0]) && !IsSpace(t[|t| - 1])))
    && exists a, b :: s == a + t + b && IsBlank(a) && IsBlank(b)
  }

  lemma {:induction false} TrimStartSplits(s: string) returns (a: string)
    ensures IsBlank(a) && s == a + TrimStart(s)
  {
    a := [];
    if s != [] && IsSpace(s[0]) {
      var rest := TrimStartSplits(s[1..]);
      a := [s[0]] + rest;
    }
  }

  lemma {:induction false} TrimEndSplits(s: string) returns (b: string)
    ensures IsBlank(b) && s == TrimEnd(s) + b
  {
    b := [];
    if s != [] && IsSpace(s[|s| - 1]) {
      var rest := TrimEndSplits(s[..|s| - 1]);
      b := rest + [s[|s| - 1]];
    }
  }

  lemma {:induction false} TrimStartOf(a: string, t: string)
    requires IsBlank(a) && (t == [] || !IsSpace(t[0]))
    ensures TrimStart(a + t) == t
  {
    if a == [] {
      assert a + t == t;
    } else {
      TrimStartOf(a[1..], t);
      DropOfConcat(a, t, 1);
    }
  }

  lemma {:induction false} TrimEndOf(t: string, b: string)
    requires IsBlank(b) && (t == [] || !IsSpace(t[|t| - 1]))
    ensures TrimEnd(t + b) == t
  {
    if b == [] {
      assert t + b == t;
    } else {
      var rest := b[..|b| - 1];
      TrimEndOf(t, rest);
      assert (t + b)[..|t + b| - 1] == t + rest;
    }
  }

  /** Trimming takes the spaces off both ends, all of them, and nothing from between. */
  lemma TrimExactly(s: string, t: string)
    ensures t == Trim(s) <==> IsMiddle(s, t)
  {
    var a := TrimStartSplits(s);
    var b := TrimEndSplits(TrimStart(s));
    TrimStartKeeps(s);
    TrimEndKeeps(TrimStart(s));
    assert s == a + Trim(s) + b;
    if IsMiddle(s, t) {
      var x, y :| s == x + t + y && IsBlank(x) && IsBlank(y);
      MiddleIsTrim(x, t, y);
    }
  }

  lemma MiddleIsTrim(x: string, t: string, y: string)
    requires IsBlank(x) && IsBlank(y) && (t == [] || (!IsSpace(t[0]) && !IsSpace(t[|t| - 1])))
    ensures Trim(x + t + y) == t
  {
    if t == [] {
      assert x + t + y == (x + y) + [];
      TrimStartOf(x + y, []);
    } else {
      Associative(x, t, y);
      TrimStartOf(x, t + y);
      TrimEndOf(t, y);
    }
  }

  /** `ts` are, in order, the middles of those of `ls` that are not blank. */
  ghost predicate AreMiddles(ls: seq<string>, ts: seq<string>) {
    if ls == [] then ts == []
    else if IsBlank(ls[0]) then AreMiddles(ls[1..], ts)
    else ts != [] && IsMiddle(ls[0], ts[0]) && AreMiddles(ls[1..], ts[1..])
  }

  lemma BlankTrims(s: string)
    ensures IsBlank(s) <==> Trim(s) == []
  {
    TrimExactly(s, []);
    if IsBlank(s) {
      assert s == s + [] + [] && IsBlank([]);
    }
    if IsMiddle(s, []) {
      var a, b :| s == a + [] + b && IsBlank(a) && IsBlank(b);
      assert forall i | 0 <= i < |s| :: s[i] == if i < |a| then a[i] else b[i - |a|];
    }
  }

  lemma {:induction false} TrimmedLinesAreMiddles(ls: seq<string>)
    ensures AreMiddles(ls, TrimmedLines(ls))
  {
    if ls != [] {
      TrimmedLinesAreMiddles(ls[1..]);
      BlankTrims(ls[0]);
      TrimExactly(ls[0], Trim(ls[0]));
      if Trim(ls[0]) == [] {
        assert TrimmedLines(ls) == TrimmedLines(ls[1..]);
      } else {
        assert TrimmedLines(ls)[1..] == TrimmedLines(ls[1..]);
      }
    }
  }

  /** Each line with a line feed after it. */
  function Terminated(ls: seq<string>): string {
    if ls == [] then [] else ls[0] + [LF] + Terminated(ls[1..])
  }

  lemma {:induction false} PaddedIsTerminated(ls: seq<string>)
    ensures Padded(ls) == Terminated(TrimmedLines(ls))
  {
    if ls != [] {
      PaddedIsTerminated(ls[1..]);
      if Trim(ls[0]) == [] {
        assert TrimmedLines(ls) == TrimmedLines(ls[1..]);
      } else {
        assert TrimmedLines(ls)[1..] == TrimmedLines(ls[1..]);
      }
    }
  }

  // ---- the non-space characters are kept, in order ----

  lemma {:induction false} NonSpaceConcat(a: string, b: string)
    ensures NonSpace(a + b) == NonSpace(a) + NonSpace(b)
  {
    if a == [] {
      assert a + b == b;
    } else {
      NonSpaceConcat(a[1..], b);
      assert (a + b)[1..] == a[1..] + b;
      Associative(if IsSpace(a[0]) then [] else [a[0]], NonSpace(a[1..]), NonSpace(b));
    }
  }

  lemma NonSpaceOne(c: char)
    ensures NonSpace([c]) == if IsSpace(c) then [] else [c]
  {
    assert [c][1..] == [];
  }

  lemma NonSpaceSnoc(s: string, c: char)
    ensures NonSpace(s + [c]) == NonSpace(s) + (if IsSpace(c) then [] else [c])
  {
    NonSpaceConcat(s, [c]);
    NonSpaceOne(c);
  }

  lemma LastOf(s: string)
    requires s != []
    ensures s == s[..|s| - 1] + [s[|s| - 1]]
  {
  }

  lemma {:induction false} TrimEndKeeps(s: string)
    ensures NonSpace(TrimEnd(s)) == NonSpace(s) && TrimEnd(s) <= s
    ensures TrimEnd(s) == [] || !IsSpace(TrimEnd(s)[|TrimEnd(s)| - 1])
  {
    if s != [] && IsSpace(s[|s| - 1]) {
      TrimEndKeeps(s[..|s| - 1]);
      LastOf(s);
      NonSpaceSnoc(s[..|s| - 1], s[|s| - 1]);
    }
  }

  lemma {:induction false} TrimStartKeeps(s: string)
    ensures NonSpace(TrimStart(s)) == NonSpace(s)
    ensures forall c | c in TrimStart(s) :: c in s
    ensures TrimStart(s) == [] || !IsSpace(TrimStart(s)[0])
  {
    if s != [] && IsSpace(s[0]) {
      TrimStartKeeps(s[1..]);
    }
  }

  lemma TrimKeeps(s: string)
    ensures NonSpace(Trim(s)) == NonSpace(s)
    ensures LF !in s && Trim(s) != [] ==> Trimmed(Trim(s))
  {
    TrimStartKeeps(s);
    TrimEndKeeps(TrimStart(s));
  }

  lemma LineKeeps(l: string)
    ensures NonSpace(Line(l)) == NonSpace(l)
  {
    TrimKeeps(l);
    NonSpaceSnoc(Trim(l), LF);
  }

  lemma TerminatorAddsNothing(l: string)
    ensures NonSpace(l + [LF]) == NonSpace(DropCr(l))
  {
    NonSpaceSnoc(l, LF);
    if DropCr(l) != l {
      LastOf(l);
      NonSpaceSnoc(DropCr(l), CR);
    }
  }

  lemma PaddedCons(l: string, ls: seq<string>)
    ensures Padded([l] + ls) == Line(l) + Padded(ls)
  {
    assert ([l] + ls)[1..] == ls;
  }

  lemma PaddingTurn(result: string, l: string, ls: seq<string>)
    ensures
      var next := if Trim(l) == [] then result else result + Trim(l) + [LF];
      result + Padded([l] + ls) == next + Padded(ls)
  {
    PaddedCons(l, ls);
    Associative(result, Line(l), Padded(ls));
    if Trim(l) == [] {
      assert result + Line(l) == result;
    } else {
      Associative(result, Trim(l), [LF]);
    }
  }

  lemma {:induction false} PaddedKeeps(s: string)
    ensures NonSpace(Padded(Lines(s))) == NonSpace(s)
    decreases |s|
  {
    var n := LineLen(s);
    if s == [] {
    } else if n == |s| {
      LineKeeps(s);
      assert [s] == [s] + [];
      PaddedCons(s, []);
      NonSpaceConcat(Line(s), Padded([]));
    } else {
      var line, rest := DropCr(s[..n]), s[n + 1..];
      PaddedKeeps(rest);
      PaddedCons(line, Lines(rest));
      LineKeeps(line);
      NonSpaceConcat(Line(line), Padded(Lines(rest)));
      TerminatorAddsNothing(s[..n]);
      NonSpaceConcat(s[..n] + [LF], rest);
      SplitAt(s, n);
    }
  }

  // ---- and the result is nothing but trimmed lines ----

  lemma {:induction false} TrimmedLinesAreTrimmed(ls: seq<string>)
    requires forall l | l in ls :: LF !in l
    ensures forall l | l in TrimmedLines(ls) :: Trimmed(l)
  {
    if ls != [] {
      TrimKeeps(ls[0]);
      TrimmedLinesAreTrimmed(ls[1..]);
    }
  }

  lemma LinesOfLine(l: string, rest: string)
    requires Trimmed(l)
    ensures Lines(l + [LF] + rest) == [l] + Lines(rest)
  {
    var s := l + [LF] + rest;
    var n := LineLen(s);
    assert s[|l|] == LF && s[..|l|] == l;
    assert n == |l|;
    assert s[n + 1..] == rest;
  }

  lemma {:induction false} LinesOfPadded(ls: seq<string>)
    requires forall l | l in ls :: LF !in l
    ensures Lines(Padded(ls)) == TrimmedLines(ls)
  {
    if ls != [] {
      LinesOfPadded(ls[1..]);
      TrimKeeps(ls[0]);
      if Trim(ls[0]) != [] {
        LinesOfLine(Trim(ls[0]), Padded(ls[1..]));
      } else {
        assert [] + Padded(ls[1..]) == Padded(ls[1..]);
      }
    }
  }

  lemma {:induction false} TrimFixesTrimmed(l: string)
    requires Trimmed(l)
    ensures Trim(l) == l
  {
  }

  lemma {:induction false} PaddedOfTrimmed(ls: seq<string>)
    requires forall l | l in ls :: LF !in l
    ensures Padded(TrimmedLines(ls)) == Padded(ls)
  {
    if ls != [] {
      PaddedOfTrimmed(ls[1..]);
      TrimKeeps(ls[0]);
      var t := Trim(ls[0]);
      if t != [] {
        TrimFixesTrimmed(t);
        assert TrimmedLines(ls) == [t] + TrimmedLines(ls[1..]);
        PaddedCons(t, TrimmedLines(ls[1..]));
      } else {
        assert TrimmedLines(ls) == TrimmedLines(ls[1..]);
        assert Padded(ls) == Padded(ls[1..]);
      }
    }
  }

  /**
   * The line pass keeps the non-space characters in order, leaves the middles of the non-blank
   * lines, each on a line of its own, and has nothing left to do when run again.
   */
  lemma LinePass(s: string)
    ensures
      var r := Padded(Lines(s));
      && NonSpace(r) == NonSpace(s)
      && (forall l | l in Lines(r) :: Trimmed(l))
      && AreMiddles(Lines(s), Lines(r)) && r == Terminated(Lines(r))
      && Padded(Lines(r)) == r
  {
    PaddedKeeps(s);
    LinesOfPadded(Lines(s));
    TrimmedLinesAreTrimmed(Lines(s));
    TrimmedLinesAreMiddles(Lines(s));
    PaddedIsTerminated(Lines(s));
    PaddedOfTrimmed(Lines(s));
  }
}
