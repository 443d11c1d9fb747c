/** Strings as the bytes Rust stores and compares: UTF-8, section 3 of RFC 3629. */
module Utf8 {
  import opened Store

  function Encode(c: char): (r: seq<int>)
    ensures r != []
  {
    var n := c as int;
    if n < 0x80 then [n]
    else if n < 0x800 then [0xC0 + n / 0x40, 0x80 + n % 0x40]
    else if n < 0x1_0000 then [0xE0 + n / 0x40 / 0x40, 0x80 + n / 0x40 % 0x40, 0x80 + n % 0x40]
    else [0xF0 + n / 0x40 / 0x40 / 0x40, 0x80 + n / 0x40 / 0x40 % 0x40, 0x80 + n / 0x40 % 0x40, 0x80 + n % 0x40]
  }

  lemma EncodeExamples()
    ensures Encode('$') == [0x24] && Encode('\U{A3}') == [0xC2, 0xA3]
    ensures Encode('\U{20AC}') == [0xE2, 0x82, 0xAC] && Encode('\U{10348}') == [0xF0, 0x90, 0x8D, 0x88]
  { }

  function Bytes(s: string): seq<int> {
    if s == "" then [] else Encode(s[0]) + Bytes(s[1..])
  }

  /** The order of byte slices: the smaller byte at the first difference, or the prefix. */
  predicate BytesInOrder(a: seq<int>, b: seq<int>) {
    |a| == 0 || (|b| > 0 && (a[0] < b[0] || (a[0] == b[0] && BytesInOrder(a[1..], b[1..]))))
  }

  lemma {:induction false} DecidedAt(a: seq<int>, b: seq<int>, k: nat)
    requires k < |a| && k < |b| && a[..k] == b[..k] && a[k] < b[k]
    ensures BytesInOrder(a, b) && !BytesInOrder(b, a)
  {
    if k > 0 {
      assert a[0] == a[..k][0] && b[0] == b[..k][0];
      assert a[1..][..k - 1] == a[..k][1..] && b[1..][..k - 1] == b[..k][1..];
      DecidedAt(a[1..], b[1..], k - 1);
    }
  }

  lemma {:induction false} CommonStart(p: seq<int>, a: seq<int>, b: seq<int>)
    ensures BytesInOrder(p + a, p + b) <==> BytesInOrder(a, b)
  {
    if p == [] { assert p + a == a && p + b == b; } else {
      assert (p + a)[1..] == p[1..] + a && (p + b)[1..] == p[1..] + b;
      CommonStart(p[1..], a, b);
    }
  }

  /** Characters and their encodings are in one order, and the encodings part before either ends. */
  lemma EncodeLess(c: char, d: char) returns (k: nat)
    requires c < d
    ensures k < |Encode(c)| && k < |Encode(d)| && Encode(c)[..k] == Encode(d)[..k] && Encode(c)[k] < Encode(d)[k]
  {
    if |Encode(c)| != |Encode(d)| || |Encode(d)| == 1 { k := 0; }
    else if |Encode(d)| < 4 { k := ShortLess(c, d); }
    else { k := LongLess(c, d); }
  }

  lemma ShortLess(c: char, d: char) returns (k: nat)
    requires c < d && 1 < |Encode(c)| == |Encode(d)| < 4
    ensures k < |Encode(d)| && Encode(c)[..k] == Encode(d)[..k] && Encode(c)[k] < Encode(d)[k]
  {
    var n, m, size := c as int, d as int, |Encode(d)|;
    SixBits(n, m);
    SixBits(n / 0x40, m / 0x40);
    k := if n / 0x40 == m / 0x40 then size - 1
         else if size == 2 || n / 0x40 / 0x40 == m / 0x40 / 0x40 then size - 2 else 0;
  }

  lemma LongLess(c: char, d: char) returns (k: nat)
    requires c < d && |Encode(c)| == |Encode(d)| == 4
    ensures k < 4 && Encode(c)[..k] == Encode(d)[..k] && Encode(c)[k] < Encode(d)[k]
  {
    var n, m := c as int, d as int;
    SixBits(n, m);
    SixBits(n / 0x40, m / 0x40);
    SixBits(n / 0x40 / 0x40, m / 0x40 / 0x40);
    k := if n / 0x40 == m / 0x40 then 3
         else if n / 0x40 / 0x40 == m / 0x40 / 0x40 then 2
         else if n / 0x40 / 0x40 / 0x40 == m / 0x40 / 0x40 / 0x40 then 1 else 0;
  }

  lemma SixBits(n: nat, m: nat)
    ensures n / 0x40 == m / 0x40 ==> (n < m <==> n % 0x40 < m % 0x40)
    ensures n / 0x40 != m / 0x40 ==> (n < m <==> n / 0x40 < m / 0x40)
  { }

  lemma SmallerFirst(c: char, a: seq<int>, d: char, b: seq<int>)
    requires c < d
    ensures BytesInOrder(Encode(c) + a, Encode(d) + b) && !BytesInOrder(Encode(d) + b, Encode(c) + a)
  {
    var k := EncodeLess(c, d);
    var s, t := Encode(c) + a, Encode(d) + b;
    assert s[..k] == Encode(c)[..k] && t[..k] == Encode(d)[..k];
    DecidedAt(s, t, k);
  }

  /** `str::cmp` compares bytes; comparing characters by code point is the same. */
  lemma {:induction false} LexIsByteOrder(a: string, b: string)
    ensures Lex(a, b) <==> BytesInOrder(Bytes(a), Bytes(b))
  {
    if a != "" && b != "" {
      if a[0] == b[0] {
        LexIsByteOrder(a[1..], b[1..]);
        CommonStart(Encode(a[0]), Bytes(a[1..]), Bytes(b[1..]));
      } else if a[0] < b[0] {
        SmallerFirst(a[0], Bytes(a[1..]), b[0], Bytes(b[1..]));
      } else {
        SmallerFirst(b[0], Bytes(b[1..]), a[0], Bytes(a[1..]));
      }
    }
  }
}
