/**
 * The order of map keys. The serializer sorts entries by their keys' encodings, byte by byte; the
 * decoder wants keys in order of length, then byte by byte.
 */
module KeyOrder {
  import opened Common
  import opened Cbor
  import opened CborEncode
  import Radix
  import Text

  // ---- lexicographic order ----

  lemma {:induction false} LexTotal(a: seq<byte>, b: seq<byte>)
    ensures LexLess(a, b) || LexLess(b, a) || a == b
    ensures !(LexLess(a, b) && LexLess(b, a)) && !LexLess(a, a)
  {
    if a != [] && b != [] {
      LexTotal(a[1..], b[1..]);
      assert a == [a[0]] + a[1..] && b == [b[0]] + b[1..];
    }
    if a != [] {
      LexTotal(a[1..], a[1..]);
    }
  }

  lemma {:induction false} LexTransitive(a: seq<byte>, b: seq<byte>, c: seq<byte>)
    requires LexLess(a, b) && LexLess(b, c)
    ensures LexLess(a, c)
  {
    if a != [] && a[0] == b[0] == c[0] {
      LexTransitive(a[1..], b[1..], c[1..]);
    }
  }

  /** Between strings of one length a difference decides, whatever follows. */
  lemma {:induction false} LexDecided(a: seq<byte>, b: seq<byte>, x: seq<byte>, y: seq<byte>)
    requires |a| == |b| && LexLess(a, b)
    ensures LexLess(a + x, b + y)
  {
    assert (a + x)[0] == a[0] && (b + y)[0] == b[0];
    if a[0] == b[0] {
      LexDecided(a[1..], b[1..], x, y);
      DropOfConcat(a, x, 1);
      DropOfConcat(b, y, 1);
    }
  }

  lemma {:induction false} LexAfterCommon(p: seq<byte>, x: seq<byte>, y: seq<byte>)
    requires LexLess(x, y)
    ensures LexLess(p + x, p + y)
  {
    if p == [] {
      assert p + x == x && p + y == y;
    } else {
      LexAfterCommon(p[1..], x, y);
      DropOfConcat(p, x, 1);
      DropOfConcat(p, y, 1);
    }
  }

  // ---- heads are ordered as the lengths they hold ----

  lemma {:induction false} BigEndianOrdered(width: nat, m: nat, n: nat)
    requires m < n < Radix.Power(256, width)
    ensures LexLess(BigEndian(width, m), BigEndian(width, n))
  {
    var p, q := BigEndian(width - 1, m / 256), BigEndian(width - 1, n / 256);
    if m / 256 < n / 256 {
      BigEndianOrdered(width - 1, m / 256, n / 256);
      LexDecided(p, q, [m % 256], [n % 256]);
    } else {
      assert p == q && m % 256 < n % 256;
      LexAfterCommon(p, [m % 256], [n % 256]);
    }
  }

  lemma FirstByteDecides(a: seq<byte>, b: seq<byte>)
    requires a != [] && b != [] && a[0] < b[0]
    ensures LexLess(a, b)
  {
  }

  lemma HeadsOrdered(major: nat, m: nat, n: nat, x: seq<byte>, y: seq<byte>)
    requires major < 7 && m < n <= U64_MAX
    ensures LexLess(PrintHead(major, m) + x, PrintHead(major, n) + y)
  {
    var i, j := ShortestInfo(m), ShortestInfo(n);
    if i < j {
      FirstByteDecides(PrintHead(major, m) + x, PrintHead(major, n) + y);
    } else {
      var width := ArgWidth(i).value;
      Capacities();
      BigEndianOrdered(width, m, n);
      LexAfterCommon([major * 32 + i], BigEndian(width, m), BigEndian(width, n));
      LexDecided(PrintHead(major, m), PrintHead(major, n), x, y);
    }
  }

  function EncodedKey(utf8: seq<byte>): seq<byte> { PrintHead(3, |utf8|) + utf8 }

  /** Sorting encoded keys byte by byte is sorting keys by length first. */
  lemma EncodedOrderIsKeyOrder(a: seq<byte>, b: seq<byte>)
    requires |a| <= U64_MAX && |b| <= U64_MAX
    ensures LexLess(EncodedKey(a), EncodedKey(b)) <==> KeyLess(a, b)
  {
    LexTotal(EncodedKey(a), EncodedKey(b));
    LexTotal(a, b);
    if |a| < |b| {
      HeadsOrdered(3, |a|, |b|, a, b);
    } else if |b| < |a| {
      HeadsOrdered(3, |b|, |a|, b, a);
    } else if LexLess(a, b) {
      LexAfterCommon(PrintHead(3, |a|), a, b);
    } else if LexLess(b, a) {
      LexAfterCommon(PrintHead(3, |a|), b, a);
    }
  }

  // ---- sorting ----

  predicate Before(a: string, b: string) {
    LexLess(EncodedKey(Text.Encode(a)), EncodedKey(Text.Encode(b)))
  }

  lemma HeadLength(n: nat)
    ensures |PrintHead(3, n)| == 1 + ArgWidth(PrintHead(3, n)[0] as int % 32).value
  {
  }

  lemma EncodedKeyInjective(a: seq<byte>, b: seq<byte>)
    requires EncodedKey(a) == EncodedKey(b)
    ensures a == b
  {
    HeadLength(|a|);
    HeadLength(|b|);
    var n := |PrintHead(3, |a|)|;
    assert EncodedKey(a)[0] == PrintHead(3, |a|)[0] && EncodedKey(b)[0] == PrintHead(3, |b|)[0];
    assert a == EncodedKey(a)[n..] && b == EncodedKey(b)[n..];
  }

  lemma BeforeIsTotal(a: string, b: string)
    ensures Before(a, b) || Before(b, a) || a == b
    ensures !(Before(a, b) && Before(b, a)) && !Before(a, a)
  {
    var x, y := Text.Encode(a), Text.Encode(b);
    LexTotal(EncodedKey(x), EncodedKey(y));
    LexTotal(EncodedKey(x), EncodedKey(x));
    if EncodedKey(x) == EncodedKey(y) {
      EncodedKeyInjective(x, y);
      Text.DecodeOfEncode(a);
      Text.DecodeOfEncode(b);
    }
  }

  lemma BeforeTransitive(a: string, b: string, c: string)
    requires Before(a, b) && Before(b, c)
    ensures Before(a, c)
  {
    LexTransitive(EncodedKey(Text.Encode(a)), EncodedKey(Text.Encode(b)), EncodedKey(Text.Encode(c)));
  }

  ghost predicate IsLeast(k: string, keys: set<string>) {
    k in keys && forall j | j in keys && j != k :: Before(k, j)
  }

  lemma {:induction false} HasLeast(keys: set<string>)
    requires keys != {}
    ensures exists k :: IsLeast(k, keys)
  {
    var some :| some in keys;
    var rest := keys - {some};
    assert forall j | j in keys :: j == some || j in rest;
    if rest == {} {
      assert IsLeast(some, keys);
    } else {
      HasLeast(rest);
      var least :| IsLeast(least, rest);
      BeforeIsTotal(some, least);
      if Before(least, some) {
        assert IsLeast(least, keys);
      } else {
        forall j | j in keys && j != some ensures Before(some, j) {
          if j != least {
            assert Before(least, j);
            BeforeTransitive(some, least, j);
          }
        }
        assert IsLeast(some, keys);
      }
    }
  }

  /** The keys in the order the serializer writes them. */
  ghost function SortedKeys(keys: set<string>): (r: seq<string>)
    ensures |r| == |keys|
    ensures forall k :: k in r <==> k in keys
    decreases |keys|
  {
    if keys == {} then []
    else
      HasLeast(keys);
      var k :| IsLeast(k, keys);
      assert keys == {k} + (keys - {k});
      [k] + SortedKeys(keys - {k})
  }

  lemma SortedKeysStep(keys: set<string>)
    requires keys != {}
    ensures var r := SortedKeys(keys); IsLeast(r[0], keys) && r[1..] == SortedKeys(keys - {r[0]})
  {
    HasLeast(keys);
  }

  ghost predicate Ascends(keys: seq<string>) {
    forall i, j | 0 <= i < j < |keys| :: Before(keys[i], keys[j])
  }

  lemma AscendsCons(keys: seq<string>)
    requires keys != [] && Ascends(keys[1..]) && forall j | 0 < j < |keys| :: Before(keys[0], keys[j])
    ensures Ascends(keys)
  {
    forall i, j | 0 < i < j < |keys| ensures Before(keys[i], keys[j]) {
      assert Before(keys[1..][i - 1], keys[1..][j - 1]);
    }
  }

  lemma AscendsTail(keys: seq<string>)
    requires keys != [] && Ascends(keys)
    ensures Ascends(keys[1..])
  {
    forall i, j | 0 <= i < j < |keys| - 1 ensures Before(keys[1..][i], keys[1..][j]) {
      assert Before(keys[i + 1], keys[j + 1]);
    }
  }

  lemma SortedKeysHead(keys: set<string>, r: seq<string>, j: nat)
    requires keys != {} && r == SortedKeys(keys) && 0 < j < |r|
    ensures Before(r[0], r[j])
  {
    SortedKeysStep(keys);
    assert r[j] == r[1..][j - 1];
    assert r[1..][j - 1] in SortedKeys(keys - {r[0]});
  }

  lemma {:induction false} SortedKeysAscend(keys: set<string>)
    ensures Ascends(SortedKeys(keys))
    decreases |keys|
  {
    var r := SortedKeys(keys);
    if r != [] {
      SortedKeysStep(keys);
      SortedKeysAscend(keys - {r[0]});
      forall j | 0 < j < |r| ensures Before(r[0], r[j]) {
        SortedKeysHead(keys, r, j);
      }
      AscendsCons(r);
    }
  }

  lemma AscendingDiffer(keys: seq<string>, i: nat, j: nat)
    requires Ascends(keys) && i < j < |keys|
    ensures keys[i] != keys[j]
  {
    BeforeIsTotal(keys[i], keys[i]);
  }
}
