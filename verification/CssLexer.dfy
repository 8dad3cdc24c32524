/**
 * What a stylesheet is made of, as far as comment removal goes: an independent
 * description of the pieces, and the lexer that finds them.
 */
module CssLexer {
  import opened Common

  const QUOTE: byte := 0x22       // "
  const APOSTROPHE: byte := 0x27  // '
  const BACKSLASH: byte := 0x5C
  const SLASH: byte := 0x2F
  const STAR: byte := 0x2A

  datatype Piece = Plain(b: byte) | Quoted(text: seq<byte>) | Comment(text: seq<byte>) {
    function Text(): seq<byte> { if Plain? then [b] else text }
  }

  predicate IsQuote(b: byte) { b == QUOTE || b == APOSTROPHE }

  // ---- the pieces, described ----

  predicate OpensComment(s: seq<byte>) { |s| >= 2 && s[0] == SLASH && s[1] == STAR }

  predicate ClosesAt(s: seq<byte>, k: nat) { k + 1 < |s| && s[k] == STAR && s[k + 1] == SLASH }

  /** Escape pairs and bytes that are neither a backslash nor the quote. */
  predicate Units(body: seq<byte>, q: byte) {
    body == []
    || (body[0] == BACKSLASH && |body| >= 2 && Units(body[2..], q))
    || (body[0] != BACKSLASH && body[0] != q && Units(body[1..], q))
  }

  predicate ClosedString(t: seq<byte>) {
    |t| >= 2 && IsQuote(t[0]) && t[|t| - 1] == t[0] && Units(t[1..|t| - 1], t[0])
  }

  /** A string the input ends inside of, perhaps on a backslash with nothing to escape. */
  predicate OpenString(t: seq<byte>) {
    |t| >= 1 && IsQuote(t[0])
    && (Units(t[1..], t[0]) || (|t| >= 2 && t[|t| - 1] == BACKSLASH && Units(t[1..|t| - 1], t[0])))
  }

  predicate ClosedComment(t: seq<byte>) {
    |t| >= 4 && OpensComment(t) && ClosesAt(t, |t| - 2) && forall k | 2 <= k < |t| - 2 :: !ClosesAt(t, k)
  }

  predicate OpenComment(t: seq<byte>) {
    OpensComment(t) && forall k | 2 <= k < |t| :: !ClosesAt(t, k)
  }

  function Concat(ps: seq<Piece>): seq<byte> {
    if ps == [] then [] else ps[0].Text() + Concat(ps[1..])
  }

  /** Every piece is a whole one, and only the last may be cut off by the end of the input. */
  predicate WellFormed(ps: seq<Piece>) {
    ps == [] || (WellFormed(ps[1..]) && Leads(ps[0], ps[1..]))
  }

  /** What may come before `rest`: a comment or string cut off by the end of the input has nothing after it. */
  predicate Leads(p: Piece, rest: seq<Piece>) {
    match p
    case Plain(b) => !IsQuote(b) && !OpensComment([b] + Concat(rest))
    case Quoted(t) => ClosedString(t) || (OpenString(t) && rest == [])
    case Comment(t) => ClosedComment(t) || (OpenComment(t) && rest == [])
  }

  /** The text with its comments left out. */
  function Kept(ps: seq<Piece>): seq<byte> {
    if ps == [] then [] else (if ps[0].Comment? then [] else ps[0].Text()) + Kept(ps[1..])
  }

  /** A comment leaves nothing, any other piece its text, and what pieces leave stands in their order. */
  lemma {:induction false} KeptExactly(p: Piece, a: seq<Piece>, b: seq<Piece>)
    ensures Kept([]) == [] && Kept([p]) == match p case Plain(c) => [c] case Quoted(t) => t case Comment(_) => []
    ensures Kept(a + b) == Kept(a) + Kept(b)
    decreases |a|
  {
    assert [p][1..] == [];
    if a == [] {
      assert a + b == b;
    } else {
      KeptExactly(p, a[1..], b);
      DropOfConcat(a, b, 1);
      Associative(if a[0].Comment? then [] else a[0].Text(), Kept(a[1..]), Kept(b));
    }
  }

  // ---- the lexer ----

  /** Bytes up to and including the closing quote, or all of them. */
  function StringBodyLen(s: seq<byte>, q: byte): (n: nat)
    ensures n <= |s|
  {
    if s == [] then 0
    else if s[0] == BACKSLASH && |s| >= 2 then 2 + StringBodyLen(s[2..], q)
    else if s[0] == q then 1
    else 1 + StringBodyLen(s[1..], q)
  }

  /** Where the first `*``/` at or after `from` starts. */
  function FindClose(s: seq<byte>, from: nat): (r: Option<nat>)
    requires from <= |s|
    ensures r.Some? ==> from <= r.value && ClosesAt(s, r.value)
    decreases |s| - from
  {
    if from == |s| then None
    else if ClosesAt(s, from) then Some(from)
    else FindClose(s, from + 1)
  }

  lemma {:induction false} FindCloseFindsFirst(s: seq<byte>, from: nat)
    requires from <= |s|
    ensures
      var r := FindClose(s, from);
      forall k | from <= k < (if r.Some? then r.value else |s|) :: !ClosesAt(s, k)
    decreases |s| - from
  {
    if from < |s| && !ClosesAt(s, from) {
      FindCloseFindsFirst(s, from + 1);
    }
  }

  function CommentLen(s: seq<byte>): (n: nat)
    requires OpensComment(s)
    ensures 2 <= n <= |s|
  {
    match FindClose(s, 2)
    case Some(end) => end + 2
    case None => |s|
  }

  function First(s: seq<byte>): (p: Piece)
    requires s != []
    ensures 0 < |p.Text()| <= |s| && p.Text() == s[..|p.Text()|]
  {
    if IsQuote(s[0]) then Quoted(s[..1 + StringBodyLen(s[1..], s[0])])
    else if OpensComment(s) then Comment(s[..CommentLen(s)])
    else Plain(s[0])
  }

  function Lex(s: seq<byte>): seq<Piece> {
    if s == [] then []
    else [First(s)] + Lex(s[|First(s).Text()|..])
  }

  // ---- the lexer finds the pieces, and there is only one way to find them ----

  /** A string's bytes up to `n`: to the quote, to the end, or to a last backslash. */
  predicate Body(s: seq<byte>, q: byte, n: nat)
    requires n <= |s|
  {
    || (n >= 1 && s[n - 1] == q && Units(s[..n - 1], q))
    || (n == |s| && Units(s, q))
    || (n == |s| >= 1 && s[n - 1] == BACKSLASH && Units(s[..n - 1], q))
  }

  /** The first `k` bytes are one unit. */
  predicate Unit(s: seq<byte>, q: byte, k: nat) {
    k <= |s| && if k == 2 then s[0] == BACKSLASH else k == 1 && s[0] != BACKSLASH && s[0] != q
  }

  lemma UnitAhead(s: seq<byte>, q: byte, k: nat, n: nat)
    requires Unit(s, q, k) && k <= n <= |s| && Units(s[k..][..n - k], q)
    ensures Units(s[..n], q)
  {
    var t := s[..n];
    assert t[k..] == s[k..][..n - k];
    assert t[0] == s[0];
  }

  lemma BodyStep(s: seq<byte>, q: byte, k: nat, rest: seq<byte>, n: nat)
    requires IsQuote(q) && Unit(s, q, k) && rest == s[k..] && n <= |rest| && Body(rest, q, n)
    ensures Body(s, q, k + n)
  {
    if n >= 1 && Units(rest[..n - 1], q) {
      UnitAhead(s, q, k, k + n - 1);
      assert s[k + n - 1] == rest[n - 1];
    } else {
      assert s[k..][..n] == rest && s[..k + n] == s;
      UnitAhead(s, q, k, k + n);
    }
  }

  lemma {:induction false} BodyIsWhole(s: seq<byte>, q: byte)
    requires IsQuote(q)
    ensures Body(s, q, StringBodyLen(s, q))
  {
    if s != [] && s[0] == BACKSLASH && |s| >= 2 {
      BodyIsWhole(s[2..], q);
      BodyStep(s, q, 2, s[2..], StringBodyLen(s[2..], q));
    } else if |s| >= 1 && s[0] != q && s[0] != BACKSLASH {
      BodyIsWhole(s[1..], q);
      BodyStep(s, q, 1, s[1..], StringBodyLen(s[1..], q));
    }
  }

  lemma QuotedIsWhole(s: seq<byte>)
    requires s != [] && IsQuote(s[0])
    ensures
      var n := 1 + StringBodyLen(s[1..], s[0]);
      ClosedString(s[..n]) || (OpenString(s[..n]) && s[n..] == [])
  {
    var n := 1 + StringBodyLen(s[1..], s[0]);
    var t := s[..n];
    BodyIsWhole(s[1..], s[0]);
    assert t[1..] == s[1..][..n - 1];
    if n >= 2 { assert t[1..n - 1] == s[1..][..n - 2]; }
    if n == |s| { assert t[1..] == s[1..]; }
  }

  lemma CommentIsWhole(s: seq<byte>)
    requires OpensComment(s)
    ensures
      var n := CommentLen(s);
      ClosedComment(s[..n]) || (OpenComment(s[..n]) && s[n..] == [])
  {
    var n := CommentLen(s);
    FindCloseFindsFirst(s, 2);
    assert forall k | 0 <= k < n - 1 :: ClosesAt(s[..n], k) <==> ClosesAt(s, k);
  }

  /** The first piece is a whole one, or the input ends inside it. */
  lemma FirstIsWhole(s: seq<byte>)
    requires s != []
    ensures
      var t := First(s).Text();
      match First(s)
      case Plain(b) => !IsQuote(b) && !OpensComment(s)
      case Quoted(_) => ClosedString(t) || (OpenString(t) && s[|t|..] == [])
      case Comment(_) => ClosedComment(t) || (OpenComment(t) && s[|t|..] == [])
  {
    if IsQuote(s[0]) {
      QuotedIsWhole(s);
    } else if OpensComment(s) {
      CommentIsWhole(s);
    }
  }

  lemma Cons(p: Piece, rest: seq<Piece>)
    ensures WellFormed([p] + rest) <==> WellFormed(rest) && Leads(p, rest)
    ensures Concat([p] + rest) == p.Text() + Concat(rest)
    ensures Kept([p] + rest) == (if p.Comment? then [] else p.Text()) + Kept(rest)
  {
    assert ([p] + rest)[1..] == rest;
  }

  lemma KeptFirst(s: seq<byte>, t: seq<byte>, rest: seq<byte>)
    requires s != [] && t == First(s).Text() && rest == s[|t|..]
    ensures Kept(Lex(s)) == (if First(s).Comment? then [] else t) + Kept(Lex(rest))
  {
    Cons(First(s), Lex(rest));
  }

  lemma {:induction false} LexIsWellFormed(s: seq<byte>)
    ensures WellFormed(Lex(s)) && Concat(Lex(s)) == s
  {
    if s != [] {
      var p := First(s);
      var rest := s[|p.Text()|..];
      LexIsWellFormed(rest);
      FirstIsWhole(s);
      assert s == p.Text() + rest;
      Cons(p, Lex(rest));
    }
  }

  lemma {:induction false} BodyLenOfUnits(body: seq<byte>, q: byte, rest: seq<byte>)
    requires IsQuote(q) && Units(body, q)
    ensures StringBodyLen(body + rest, q) == |body| + StringBodyLen(rest, q)
  {
    var s := body + rest;
    if body == [] {
      assert s == rest;
    } else if body[0] == BACKSLASH {
      BodyLenOfUnits(body[2..], q, rest);
      DropOfConcat(body, rest, 2);
    } else {
      BodyLenOfUnits(body[1..], q, rest);
      DropOfConcat(body, rest, 1);
    }
  }

  lemma QuotedLen(t: seq<byte>, rest: seq<byte>)
    requires ClosedString(t) || (OpenString(t) && rest == [])
    ensures 1 + StringBodyLen((t + rest)[1..], t[0]) == |t|
  {
    var q := t[0];
    if ClosedString(t) {
      var body := t[1..|t| - 1];
      assert (t + rest)[1..] == body + ([q] + rest);
      BodyLenOfUnits(body, q, [q] + rest);
    } else {
      assert (t + rest)[1..] == t[1..];
      if Units(t[1..], q) {
        assert t[1..] == t[1..] + [];
        BodyLenOfUnits(t[1..], q, []);
      } else {
        var body := t[1..|t| - 1];
        assert t[1..] == body + [BACKSLASH];
        BodyLenOfUnits(body, q, [BACKSLASH]);
        assert StringBodyLen([BACKSLASH], q) == 1;
      }
    }
  }

  lemma CommentLenOf(t: seq<byte>, rest: seq<byte>)
    requires ClosedComment(t) || (OpenComment(t) && rest == [])
    ensures OpensComment(t + rest) && CommentLen(t + rest) == |t|
  {
    var s := t + rest;
    FindCloseFindsFirst(s, 2);
    assert forall k | 0 <= k < |t| - 1 :: ClosesAt(s, k) <==> ClosesAt(t, k);
    if ClosedComment(t) {
      assert ClosesAt(s, |t| - 2);
    } else {
      assert s == t;
    }
  }

  lemma FirstOf(p: Piece, rest: seq<Piece>)
    requires Leads(p, rest)
    ensures var s := p.Text() + Concat(rest); s != [] && First(s) == p
  {
    var t := p.Text();
    DropOfConcat(t, Concat(rest), |t|);
    match p {
      case Plain(_) =>
      case Quoted(_) => QuotedLen(t, Concat(rest));
      case Comment(_) => CommentLenOf(t, Concat(rest));
    }
  }

  lemma LexPiece(s: seq<byte>, p: Piece, rest: seq<byte>)
    requires s != [] && p == First(s) && s == p.Text() + rest
    ensures Lex(s) == [p] + Lex(rest)
  {
    assert s[|p.Text()|..] == rest;
  }

  /** Unique reading: however a text is cut into whole pieces, it is the lexer's cut. */
  lemma {:induction false} LexIsUnique(ps: seq<Piece>)
    requires WellFormed(ps)
    ensures Lex(Concat(ps)) == ps
  {
    if ps != [] {
      LexIsUnique(ps[1..]);
      FirstOf(ps[0], ps[1..]);
      LexPiece(Concat(ps), ps[0], Concat(ps[1..]));
      assert ps == [ps[0]] + ps[1..];
    }
  }

  /** The lexer's cut is the only way to cut `s` into whole pieces. */
  lemma LexExactly(s: seq<byte>, ps: seq<Piece>)
    ensures WellFormed(ps) && Concat(ps) == s <==> ps == Lex(s)
  {
    LexIsWellFormed(s);
    if WellFormed(ps) && Concat(ps) == s {
      LexIsUnique(ps);
    }
  }

  // ---- small inputs ----

  /** One piece is kept whole, or not at all. */
  lemma OnePiece(p: Piece)
    requires p.Quoted? || p.Comment?
    requires Leads(p, [])
    ensures Lex(p.Text()) == [p] && Kept(Lex(p.Text())) == if p.Comment? then [] else p.Text()
  {
    Cons(p, []);
    assert [p] + [] == [p] && p.Text() + [] == p.Text();
    KeptExactly(p, [], []);
    LexExactly(p.Text(), [p]);
  }

  lemma {:induction false} PlainUnits(body: seq<byte>, q: byte)
    requires forall i | 0 <= i < |body| :: body[i] != q && body[i] != 0x5C
    ensures Units(body, q)
  {
    if body != [] {
      PlainUnits(body[1..], q);
    }
  }

  /** What stands between quotes, of either kind, is kept, comments and the other kind of quote included. */
  lemma QuotedIsKept(q: byte, body: seq<byte>)
    requires (q == 0x22 || q == 0x27) && forall i | 0 <= i < |body| :: body[i] != q && body[i] != 0x5C
    ensures var s := [q] + body + [q]; Kept(Lex(s)) == s
  {
    var s := [q] + body + [q];
    PlainUnits(body, q);
    assert s[1..|s| - 1] == body;
    OnePiece(Quoted(s));
  }

  /** A quote after a backslash does not end the string. */
  lemma EscapedQuoteIsKept(q: byte, body: seq<byte>)
    requires (q == 0x22 || q == 0x27) && forall i | 0 <= i < |body| :: body[i] != q && body[i] != 0x5C
    ensures var s := [q] + ([0x5C, q] + body) + [q]; Kept(Lex(s)) == s
  {
    var inner := [0x5C, q] + body;
    var s := [q] + inner + [q];
    PlainUnits(body, q);
    assert inner[2..] == body;
    assert s[1..|s| - 1] == inner;
    OnePiece(Quoted(s));
  }

  /** A comment goes, quotes in it included. */
  lemma CommentGoes(body: seq<byte>)
    requires 0x2A !in body
    ensures Kept(Lex([0x2F, 0x2A] + body + [0x2A, 0x2F])) == []
  {
    var s := [0x2F, 0x2A] + body + [0x2A, 0x2F];
    assert forall k | 2 <= k < |s| - 2 :: s[k] == body[k - 2] && s[k] in body;
    OnePiece(Comment(s));
  }
}
