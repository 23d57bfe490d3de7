/** Bytes and the big-endian reading and writing of unsigned integers,
    as a JavaScript DataView does it with its default (big-endian) byte order. */
module Bytes {

  /** One octet, as held by a Uint8Array element. */
  type byte = x: int | 0 <= x < 256

  /** 2^64: the number of values a BigUint64 slot can hold. */
  const TWO_64: nat := 0x1_0000_0000_0000_0000

  function Pow256(n: nat): (p: nat)
    ensures p >= 1
  {
    if n == 0 then 1 else 256 * Pow256(n - 1)
  }

  lemma Pow256Eight()
    ensures Pow256(8) == TWO_64
  {
  }

  /** The n-byte big-endian form of v (the low n bytes of v, most significant first). */
  function BeBytes(v: nat, n: nat): (r: seq<byte>)
    ensures |r| == n
  {
    if n == 0 then [] else BeBytes(v / 256, n - 1) + [v % 256]
  }

  /** The unsigned integer a byte string denotes when read big-endian. */
  function BeValue(s: seq<byte>): (v: nat)
    ensures v < Pow256(|s|)
  {
    if s == [] then 0 else BeValue(s[..|s| - 1]) * 256 + s[|s| - 1]
  }

  /** Reading back what was written big-endian gives the value, whenever it fits. */
  lemma {:induction false} BeValueOfBeBytes(v: nat, n: nat)
    requires v < Pow256(n)
    ensures BeValue(BeBytes(v, n)) == v
  {
    if n > 0 {
      var prefix := BeBytes(v / 256, n - 1);
      assert BeBytes(v, n) == prefix + [v % 256];
      assert (prefix + [v % 256])[..n - 1] == prefix;
      BeValueOfBeBytes(v / 256, n - 1);
    }
  }

  /** Byte i of the big-endian form of v is digit n-1-i of v in base 256. */
  lemma {:induction false} BeBytesAt(v: nat, n: nat, i: nat)
    requires i < n
    ensures BeBytes(v, n)[i] == (v / Pow256(n - 1 - i)) % 256
  {
    if i < n - 1 {
      BeBytesAt(v / 256, n - 1, i);
      assert BeBytes(v, n)[i] == BeBytes(v / 256, n - 1)[i];
      DivDiv(v, 256, Pow256(n - 2 - i));
      assert Pow256(n - 1 - i) == 256 * Pow256(n - 2 - i);
    }
  }

  /** x comes strictly before y in byte-by-byte (lexicographic) order: they
      agree up to some position, where x holds the smaller byte. */
  predicate LexLess(x: seq<byte>, y: seq<byte>)
  {
    exists k :: 0 <= k < |x| && k < |y| && x[..k] == y[..k] && x[k] < y[k]
  }

  /** Writing big-endian keeps order: a smaller value gives a byte string that
      comes first byte by byte. */
  lemma {:induction false} BeBytesOrder(a: nat, b: nat, n: nat)
    requires a < b < Pow256(n)
    ensures LexLess(BeBytes(a, n), BeBytes(b, n))
  {
    assert n > 0;
    var x, y := BeBytes(a, n), BeBytes(b, n);
    var px, py := BeBytes(a / 256, n - 1), BeBytes(b / 256, n - 1);
    assert x == px + [a % 256] && y == py + [b % 256];
    if a / 256 == b / 256 {
      assert x[..n - 1] == px == py == y[..n - 1];
      assert x[n - 1] < y[n - 1];
    } else {
      assert a / 256 < b / 256 < Pow256(n - 1);
      BeBytesOrder(a / 256, b / 256, n - 1);
      var k :| 0 <= k < n - 1 && px[..k] == py[..k] && px[k] < py[k];
      assert x[..k] == px[..k] && y[..k] == py[..k];
      assert x[k] == px[k] && y[k] == py[k];
    }
  }

  /** A common prefix does not change the order. */
  lemma LexLessPrefix(p: seq<byte>, x: seq<byte>, y: seq<byte>)
    requires LexLess(x, y)
    ensures LexLess(p + x, p + y)
  {
    var k :| 0 <= k < |x| && k < |y| && x[..k] == y[..k] && x[k] < y[k];
    assert (p + x)[..|p| + k] == p + x[..k] && (p + y)[..|p| + k] == p + y[..k];
    assert (p + x)[|p| + k] == x[k] && (p + y)[|p| + k] == y[k];
  }

  lemma DivDiv(a: nat, b: nat, c: nat)
    requires b > 0 && c > 0
    ensures a / b / c == a / (b * c)
  {
    var q, r := a / b, a % b;
    var q2, r2 := q / c, q % c;
    assert a == b * q + r;
    assert q == c * q2 + r2;
    assert a == (b * c) * q2 + (b * r2 + r) by {
      calc {
        a;
        b * q + r;
        b * (c * q2 + r2) + r;
        (b * c) * q2 + (b * r2 + r);
      }
    }
    assert b * r2 <= b * (c - 1) by { MulLe(b, r2, c - 1); }
    DivUnique(a, b * c, q2, b * r2 + r);
  }

  lemma MulLe(b: nat, x: nat, y: nat)
    requires x <= y
    ensures b * x <= b * y
  {
  }

  lemma DivUnique(a: int, d: int, q: int, r: int)
    requires d > 0 && a == d * q + r && 0 <= r < d
    ensures a / d == q
  {
    var q', r' := a / d, a % d;
    assert d * (q - q') == r' - r;
    if q > q' {
      MulLe(d, 1, q - q');
    } else if q < q' {
      MulLe(d, 1, q' - q);
    }
  }
}
