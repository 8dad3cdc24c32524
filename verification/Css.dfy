/** `strip_css_comments`: the scanner over bytes, then the pass over lines. */
module Css {
  import opened Common
  import opened CssLexer
  import CssLines
  import Text
  import Utf8

  // ---- the scanner's output, by position ----

  function StringEnd(css: seq<byte>, i: nat, q: byte): (n: nat)
    requires i <= |css|
    ensures i <= n <= |css|
    decreases |css| - i
  {
    if i == |css| then i
    else if css[i] == BACKSLASH && i + 1 < |css| then StringEnd(css, i + 2, q)
    else if css[i] == q then i + 1
    else StringEnd(css, i + 1, q)
  }

  predicate CommentAt(css: seq<byte>, i: nat) {
    i + 1 < |css| && css[i] == SLASH && css[i + 1] == STAR
  }

  function CommentEnd(css: seq<byte>, i: nat): (n: nat)
    requires CommentAt(css, i)
    ensures i < n <= |css|
  {
    match FindClose(css, i + 2)
    case Some(end) => end + 2
    case None => |css|
  }

  /** The end of the string, comment or byte at `i`. */
  function Next(css: seq<byte>, i: nat): (n: nat)
    requires i < |css|
    ensures i < n <= |css|
  {
    if IsQuote(css[i]) then StringEnd(css, i + 1, css[i])
    else if CommentAt(css, i) then CommentEnd(css, i)
    else i + 1
  }

  /** What is kept of the input from `i` on, when `i` is outside strings. */
  function Out(css: seq<byte>, i: nat): seq<byte>
    requires i <= |css|
    decreases |css| - i
  {
    if i == |css| then []
    else (if CommentAt(css, i) then [] else css[i..Next(css, i)]) + Out(css, Next(css, i))
  }

  /** The same when `i` is inside a string quoted `quote`. */
  function OutFrom(css: seq<byte>, i: nat, quote: Option<byte>): seq<byte>
    requires i <= |css|
  {
    match quote
    case None => Out(css, i)
    case Some(q) => css[i..StringEnd(css, i, q)] + Out(css, StringEnd(css, i, q))
  }

  // ---- which is the lexer's, comments left out ----

  lemma {:induction false} StringEndOf(css: seq<byte>, i: nat, q: byte)
    requires i <= |css|
    ensures StringEnd(css, i, q) == i + StringBodyLen(css[i..], q)
    decreases |css| - i
  {
    if i < |css| {
      if css[i] == BACKSLASH && i + 1 < |css| {
        StringEndOf(css, i + 2, q);
        SliceOfDrop(css, i, 2);
      } else {
        StringEndOf(css, i + 1, q);
        SliceOfDrop(css, i, 1);
      }
    }
  }

  lemma {:induction false} FindCloseShifts(s: seq<byte>, n: nat, from: nat)
    requires n + from <= |s|
    ensures
      var whole, part := FindClose(s, n + from), FindClose(s[n..|s|], from);
      whole == if part.Some? then Some(n + part.value) else None
    decreases |s| - n - from
  {
    if n + from < |s| && !ClosesAt(s, n + from) {
      FindCloseShifts(s, n, from + 1);
    }
  }

  /** The piece the scanner finds at `i` is the lexer's first piece of what is left there. */
  lemma FirstAt(css: seq<byte>, i: nat, s: seq<byte>, n: nat)
    requires i < |css| && s == css[i..] && n == Next(css, i)
    ensures First(s).Text() == css[i..n] && (First(s).Comment? <==> CommentAt(css, i))
  {
    assert s[..n - i] == css[i..n];
    if IsQuote(css[i]) {
      StringEndOf(css, i + 1, css[i]);
      assert s[1..] == css[i + 1..];
    } else if CommentAt(css, i) {
      FindCloseShifts(css, i, 2);
      assert css[i..|css|] == s;
    }
  }

  lemma {:induction false} OutIsKept(css: seq<byte>, i: nat, s: seq<byte>)
    requires i <= |css| && s == css[i..]
    ensures Out(css, i) == Kept(Lex(s))
    decreases |css| - i
  {
    if i < |css| {
      var n := Next(css, i);
      FirstAt(css, i, s, n);
      SliceOfDrop(css, i, n - i);
      KeptFirst(s, css[i..n], css[n..]);
      OutIsKept(css, n, css[n..]);
    }
  }

  // ---- the loop ----

  /** What is written, what is held in the run and what is still to read make up the whole output. */
  ghost predicate Progress(css: seq<byte>, out: seq<byte>, run: nat, i: nat, quote: Option<byte>) {
    && run <= i <= |css|
    && out + css[run..i] + OutFrom(css, i, quote) == Out(css, 0)
  }

  lemma Hold(css: seq<byte>, out: seq<byte>, run: nat, i: nat, quote: Option<byte>, j: nat, next: Option<byte>)
    requires Progress(css, out, run, i, quote) && i <= j <= |css|
    requires OutFrom(css, i, quote) == css[i..j] + OutFrom(css, j, next)
    ensures Progress(css, out, run, j, next)
  {
    SliceJoin(css, run, i, j);
    Associative(out, css[run..i], css[i..j]);
    Associative(out + css[run..i], css[i..j], OutFrom(css, j, next));
  }

  lemma TurnInString(css: seq<byte>, out: seq<byte>, run: nat, i: nat, q: byte)
    requires i < |css| && IsQuote(q) && Progress(css, out, run, i, Some(q))
    ensures css[i] == BACKSLASH && i + 1 < |css| ==> Progress(css, out, run, i + 2, Some(q))
    ensures !(css[i] == BACKSLASH && i + 1 < |css|) ==>
              Progress(css, out, run, i + 1, if css[i] == q then None else Some(q))
  {
    var j := if css[i] == BACKSLASH && i + 1 < |css| then i + 2 else i + 1;
    if css[i] == q {
      Hold(css, out, run, i, Some(q), j, None);
    } else {
      var n := StringEnd(css, i, q);
      SliceJoin(css, i, j, n);
      Associative(css[i..j], css[j..n], Out(css, n));
      Hold(css, out, run, i, Some(q), j, Some(q));
    }
  }

  lemma TurnOutside(css: seq<byte>, out: seq<byte>, run: nat, i: nat)
    requires i < |css| && !CommentAt(css, i) && Progress(css, out, run, i, None)
    ensures Progress(css, out, run, i + 1, if IsQuote(css[i]) then Some(css[i]) else None)
  {
    if IsQuote(css[i]) {
      var n := StringEnd(css, i + 1, css[i]);
      SliceJoin(css, i, i + 1, n);
      Associative(css[i..i + 1], css[i + 1..n], Out(css, n));
      Hold(css, out, run, i, None, i + 1, Some(css[i]));
    } else {
      Hold(css, out, run, i, None, i + 1, None);
    }
  }

  lemma Flush(css: seq<byte>, out: seq<byte>, run: nat, i: nat)
    requires Progress(css, out, run, i, None) && CommentAt(css, i)
    ensures Progress(css, out + css[run..i], CommentEnd(css, i), CommentEnd(css, i), None)
  {
    var j := CommentEnd(css, i);
    assert out + css[run..i] + css[j..j] == out + css[run..i];
  }

  /** Comments start and end between whole characters. */
  lemma CommentIsCleanCut(css: seq<byte>, i: nat)
    requires Utf8.Valid(css) && CommentAt(css, i)
    ensures Utf8.IsBoundary(css, i) && Utf8.IsBoundary(css, i + 2) && Utf8.IsBoundary(css, CommentEnd(css, i))
  {
    Utf8.AsciiStandsAlone(css, i);
    Utf8.AsciiStandsAlone(css, i + 1);
    var end := FindClose(css, i + 2);
    if end.Some? { Utf8.AsciiStandsAlone(css, end.value + 1); }
  }

  /** Searching the rest of the input finds the end of the comment. */
  lemma SearchFindsEnd(css: seq<byte>, i: nat)
    requires CommentAt(css, i)
    ensures
      var end := FindClose(css[i + 2..|css|], 0);
      CommentEnd(css, i) == if end.Some? then i + 2 + end.value + 2 else |css|
  {
    FindCloseShifts(css, i + 2, 0);
  }

  /** Slicing a string, which the source's language allows only between whole characters. */
  function Slice(css: seq<byte>, from: nat, to: nat): (s: seq<byte>)
    requires Utf8.Valid(css)
    requires from <= to <= |css|
    requires Utf8.IsBoundary(css, from) && Utf8.IsBoundary(css, to)
    ensures s == css[from..to] && Utf8.Valid(s)
  {
    SliceIsValid(css, from, to);
    css[from..to]
  }

  lemma SliceIsValid(css: seq<byte>, from: nat, to: nat)
    requires Utf8.Valid(css) && from <= to <= |css|
    requires Utf8.IsBoundary(css, from) && Utf8.IsBoundary(css, to)
    ensures Utf8.Valid(css[from..to])
  {
    Utf8.ValidParts(css, to);
    if 0 < from < to { assert css[..to][from] == css[from]; }
    Utf8.ValidParts(css[..to], from);
    assert css[..to][from..] == css[from..to];
  }

  /** What precedes the comment at `i` can be sliced off, and so can what follows it. */
  lemma CommentCanBeCut(css: seq<byte>, out: seq<byte>, run: nat, i: nat, end: nat)
    requires Utf8.Valid(css) && Utf8.Valid(out) && Utf8.IsBoundary(css, run)
    requires run <= i && CommentAt(css, i) && end == CommentEnd(css, i)
    ensures Utf8.IsBoundary(css, i) && Utf8.IsBoundary(css, i + 2) && Utf8.IsBoundary(css, end)
    ensures Utf8.Valid(out + css[run..i])
  {
    CommentIsCleanCut(css, i);
    SliceIsValid(css, run, i);
    Utf8.ValidConcat(out, css[run..i]);
  }

  /** The search for the end of the comment at `i` in the rest of the input. */
  method EndOfComment(css: seq<byte>, i: nat) returns (next: nat)
    requires Utf8.Valid(css) && CommentAt(css, i) && Utf8.IsBoundary(css, i + 2)
    ensures next == CommentEnd(css, i)
  {
    SearchFindsEnd(css, i);
    var rest := Slice(css, i + 2, |css|);
    match FindClose(rest, 0) {
      case Some(end) => next := i + 2 + end + 2;
      case None => next := |css|;
    }
  }

  /** Flush what precedes the comment at `i`, then skip to its end, or to the end of the input. */
  method CutComment(css: seq<byte>, out: seq<byte>, run: nat, i: nat) returns (flushed: seq<byte>, next: nat)
    requires Utf8.Valid(css) && Utf8.Valid(out) && Utf8.IsBoundary(css, run)
    requires Progress(css, out, run, i, None) && CommentAt(css, i)
    ensures i < next <= |css| && Utf8.IsBoundary(css, next) && Utf8.Valid(flushed)
    ensures Progress(css, flushed, next, next, None)
  {
    CommentCanBeCut(css, out, run, i, CommentEnd(css, i));
    Flush(css, out, run, i);
    flushed := out + Slice(css, run, i);
    next := EndOfComment(css, i);
  }

  lemma Finish(css: seq<byte>, out: seq<byte>, run: nat, quote: Option<byte>)
    requires Utf8.Valid(css) && Utf8.Valid(out) && Utf8.IsBoundary(css, run)
    requires Progress(css, out, run, |css|, quote)
    ensures out + css[run..|css|] == Out(css, 0) && Utf8.Valid(out + css[run..|css|])
  {
    assert OutFrom(css, |css|, quote) == [];
    SliceIsValid(css, run, |css|);
    Utf8.ValidConcat(out, css[run..|css|]);
  }

  /** The scanner keeps the input but its comments, and cuts it only between whole characters. */
  method Scan(css: seq<byte>) returns (out: seq<byte>)
    requires Utf8.Valid(css)
    ensures out == Out(css, 0)
    ensures Utf8.Valid(out)
  {
    out := [];
    var i: nat := 0;
    var run: nat := 0;
    var quote: Option<byte> := None;
    while i < |css|
      invariant Progress(css, out, run, i, quote)
      invariant quote.Some? ==> IsQuote(quote.value)
      invariant Utf8.IsBoundary(css, run) && Utf8.Valid(out)
    {
      if quote.Some? {
        TurnInString(css, out, run, i, quote.value);
        if css[i] == BACKSLASH && i + 1 < |css| {
          i := i + 2;
          continue;
        }
        if css[i] == quote.value {
          quote := None;
        }
        i := i + 1;
      } else if css[i] == QUOTE || css[i] == APOSTROPHE {
        TurnOutside(css, out, run, i);
        quote := Some(css[i]);
        i := i + 1;
      } else if css[i] == SLASH && i + 1 < |css| && css[i + 1] == STAR {
        out, i := CutComment(css, out, run, i);
        run := i;
      } else {
        TurnOutside(css, out, run, i);
        i := i + 1;
      }
    }
    Finish(css, out, run, quote);
    out := out + Slice(css, run, |css|);
  }

  method DropPadding(out: string) returns (result: string)
    ensures result == CssLines.Padded(CssLines.Lines(out))
  {
    result := [];
    var lines := CssLines.Lines(out);
    assert lines[0..] == lines;
    for n := 0 to |lines|
      invariant result + CssLines.Padded(lines[n..]) == CssLines.Padded(lines)
    {
      var trimmed := CssLines.Trim(lines[n]);
      SplitAt(lines, n);
      CssLines.PaddingTurn(result, lines[n], lines[n + 1..]);
      if trimmed == [] {
        continue;
      }
      result := result + trimmed;
      result := result + [CssLines.LF];
    }
  }

  /** The stylesheet that ships: comments out, then padding out. */
  method StripCssComments(css: seq<byte>) returns (result: string)
    requires Utf8.Valid(css)
    ensures Utf8.Valid(Kept(Lex(css)))
    ensures result == CssLines.Padded(CssLines.Lines(Text.Decode(Kept(Lex(css)))))
    ensures CssLines.NonSpace(result) == CssLines.NonSpace(Text.Decode(Kept(Lex(css))))
    ensures CssLines.AreMiddles(CssLines.Lines(Text.Decode(Kept(Lex(css)))), CssLines.Lines(result))
    ensures result == CssLines.Terminated(CssLines.Lines(result))
    ensures forall l | l in CssLines.Lines(result) :: CssLines.Trimmed(l)
  {
    var out := Scan(css);
    OutIsKept(css, 0, css);
    result := DropPadding(Text.Decode(out));
    CssLines.LinePass(Text.Decode(out));
  }
}
