/** Byte strings read as numbers: little-endian for the codecs, big-endian for hashes. */
module Numbers {
  import opened Core

  function Pow256(n: nat): (p: nat)
    ensures p > 0
  {
    if n == 0 then 1 else 256 * Pow256(n - 1)
  }

  /** The `n` low-order bytes of `v`, least significant first. */
  function LE(n: nat, v: nat): (r: Bytes)
    ensures |r| == n
  {
    if n == 0 then [] else [v % 256] + LE(n - 1, v / 256)
  }

  function FromLE(b: Bytes): (v: nat)
    ensures v < Pow256(|b|)
  {
    if b == [] then 0 else b[0] + 256 * FromLE(b[1..])
  }

  lemma {:induction false} LEInverse(n: nat, v: nat)
    requires v < Pow256(n)
    ensures FromLE(LE(n, v)) == v
  {
    if n > 0 {
      assert LE(n, v)[1..] == LE(n - 1, v / 256);
      LEInverse(n - 1, v / 256);
    }
  }

  lemma {:induction false} FromLEInverse(b: Bytes)
    ensures LE(|b|, FromLE(b)) == b
  {
    if b != [] {
      FromLEInverse(b[1..]);
      assert b == [b[0]] + b[1..];
    }
  }

  /** One more high-order byte: what `value |= byte << 8 * i` adds. */
  lemma {:induction false} FromLEAppend(b: Bytes, x: byte)
    ensures FromLE(b + [x]) == FromLE(b) + x * Pow256(|b|)
  {
    if b == [] {
      assert b + [x] == [x];
      assert [x][1..] == [];
    } else {
      assert (b + [x])[1..] == b[1..] + [x];
      FromLEAppend(b[1..], x);
      assert 256 * (x * Pow256(|b[1..]|)) == x * (256 * Pow256(|b[1..]|));
    }
  }

  /** One more high-order byte written: what `push_back((value >> shift) & 0xFF)` appends. */
  lemma {:induction false} LEAppend(n: nat, v: nat)
    ensures LE(n + 1, v) == LE(n, v) + [(v / Pow256(n)) % 256]
  {
    if n == 0 {
      assert LE(0, v / 256) == [];
      assert v / 1 == v;
    } else {
      LEAppend(n - 1, v / 256);
      assert Pow256(n) == 256 * Pow256(n - 1);
      DivDiv(v, Pow256(n - 1));
    }
  }

  lemma DivDiv(v: nat, p: nat)
    requires p > 0
    ensures (v / 256) / p == v / (256 * p)
  {
    var q := v / (256 * p);
    var r := v % (256 * p);
    assert v == 256 * p * q + r;
    assert v / 256 == p * q + r / 256 by {
      assert v == 256 * (p * q) + r;
    }
    assert 0 <= r / 256 < p;
    DivUnique(p * q + r / 256, p, q, r / 256);
  }

  lemma DivUnique(v: int, p: nat, q: int, r: int)
    requires p > 0 && 0 <= r < p && v == p * q + r
    ensures v / p == q
  {
    var d := v / p - q;
    assert p * d == r - v % p by {
      assert v == p * (v / p) + v % p;
      assert p * (v / p) - p * q == p * d;
    }
    MulMonotone(1, d, p);
    MulMonotone(d, -1, p);
  }

  lemma MulMonotone(a: int, b: int, p: nat)
    ensures a <= b ==> a * p <= b * p
  {
  }

  /** Hash bytes as the big-endian integer they spell. */
  function BE(b: Bytes): (v: nat)
    ensures v < Pow256(|b|)
  {
    if b == [] then 0 else
      MulMonotone(b[0], 255, Pow256(|b| - 1));
      b[0] * Pow256(|b| - 1) + BE(b[1..])
  }

  /** The ordering std::array's `<=>` gives two byte arrays of one length. */
  predicate LexLess(a: Bytes, b: Bytes)
    requires |a| == |b|
  {
    a != [] && (a[0] < b[0] || (a[0] == b[0] && LexLess(a[1..], b[1..])))
  }

  lemma {:induction false} LexTotal(a: Bytes, b: Bytes)
    requires |a| == |b|
    ensures a == b || LexLess(a, b) || LexLess(b, a)
  {
    if a != [] && a[0] == b[0] {
      LexTotal(a[1..], b[1..]);
      assert a == [a[0]] + a[1..] && b == [b[0]] + b[1..];
    }
  }

  lemma DigitOrder(x: nat, y: nat, p: nat, l: nat, m: nat)
    requires l < p && m < p
    ensures x * p + l < y * p + m <==> x < y || (x == y && l < m)
  {
    if x < y {
      MulMonotone(x + 1, y, p);
    } else if y < x {
      MulMonotone(y + 1, x, p);
    }
  }

  /** Lexicographic order on equally long byte strings is numeric order. */
  lemma {:induction false} LexIsNumeric(a: Bytes, b: Bytes)
    requires |a| == |b|
    ensures LexLess(a, b) <==> BE(a) < BE(b)
  {
    if a != [] {
      LexIsNumeric(a[1..], b[1..]);
      DigitOrder(a[0], b[0], Pow256(|a| - 1), BE(a[1..]), BE(b[1..]));
    }
  }

  lemma BEInjective(a: Bytes, b: Bytes)
    requires |a| == |b| && BE(a) == BE(b)
    ensures a == b
  {
    LexTotal(a, b);
    LexIsNumeric(a, b);
    LexIsNumeric(b, a);
  }
}
