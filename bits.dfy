/**
 * Fixed-width unsigned register values (`u32`, `u64`) as their bits.
 *
 * A `Word` is the sequence of a value's bits, least significant first:
 * `x[i]` is the coefficient of 2^i. The bitwise operators the register
 * macros use (`&`, `|`, `!`, `<<`, `>>`) act bit by bit on words of one
 * length, and `ToNat`/`FromNat` translate between a word and the number it
 * denotes, so the constants of the register tables keep their numeric form.
 */
module Bits {

  /** The integer type a register is declared with. */
  datatype Width = U32 | U64

  function Size(w: Width): nat
  {
    if w == U32 then 32 else 64
  }

  /** x[i] is bit i of the value. */
  type Word = seq<bool>

  /** 2^n */
  function Pow2(n: nat): (r: nat)
    ensures r >= 1
  {
    if n == 0 then 1 else 2 * Pow2(n - 1)
  }

  function Zeros(len: nat): Word
  {
    seq(len, i => false)
  }

  /** The word of length `len` whose low `n` bits are set: `(1 << n) - 1`. */
  function Low(n: nat, len: nat): Word
  {
    seq(len, i => i < n)
  }

  function And(a: Word, b: Word): Word
    requires |a| == |b|
  {
    seq(|a|, i requires 0 <= i < |a| => a[i] && b[i])
  }

  function Or(a: Word, b: Word): Word
    requires |a| == |b|
  {
    seq(|a|, i requires 0 <= i < |a| => a[i] || b[i])
  }

  function Not(a: Word): Word
  {
    seq(|a|, i requires 0 <= i < |a| => !a[i])
  }

  /**
   * `a << s` within the word's width: bits shifted past the top are lost,
   * and a shift by the whole width or more gives zero.
   */
  function Shl(a: Word, s: nat): Word
  {
    seq(|a|, i requires 0 <= i < |a| => i >= s && a[i - s])
  }

  /** `a >> s`: zeros come in at the top. */
  function Shr(a: Word, s: nat): Word
  {
    seq(|a|, i requires 0 <= i < |a| => i + s < |a| && a[i + s])
  }

  /** Every bit set in `a` is set in `b`, that is `a & b == a`. */
  predicate Within(a: Word, b: Word)
    requires |a| == |b|
  {
    forall i :: 0 <= i < |a| && a[i] ==> b[i]
  }

  /** No bit is set in both, that is `a & b == 0`. */
  predicate Disjoint(a: Word, b: Word)
    requires |a| == |b|
  {
    forall i :: 0 <= i < |a| ==> !(a[i] && b[i])
  }

  /** The number a word denotes. */
  function ToNat(x: Word): nat
  {
    if |x| == 0 then 0 else (if x[0] then 1 else 0) + 2 * ToNat(x[1..])
  }

  /** The low `len` bits of `v` as a word: `v as uN` for N = len. Bit i is `(v / 2^i) % 2`. */
  function FromNat(v: nat, len: nat): (r: Word)
    ensures |r| == len
  {
    seq(len, i requires 0 <= i < len => (v / Pow2(i)) % 2 == 1)
  }

  /** `FromNat` peels off the lowest bit and continues with `v / 2`. */
  lemma FromNatCons(v: nat, len: nat)
    requires len > 0
    ensures FromNat(v, len) == [v % 2 == 1] + FromNat(v / 2, len - 1)
  {
    var a, b := FromNat(v, len), [v % 2 == 1] + FromNat(v / 2, len - 1);
    forall i | 0 < i < len
      ensures a[i] == b[i]
    {
      DivMod2(v, Pow2(i - 1));
    }
  }

  /** The number in bits `o .. o+n-1` of `t`: `(t >> o) & ((1 << n) - 1)`. */
  function Extract(t: nat, o: nat, n: nat): nat
  {
    (t / Pow2(o)) % Pow2(n)
  }

  /** `t` with the number in bits `o .. o+n-1` replaced by `v % 2^n`. */
  function Insert(t: nat, o: nat, n: nat, v: nat): int
  {
    t - Pow2(o) * Extract(t, o, n) + Pow2(o) * (v % Pow2(n))
  }

  lemma {:induction false} ToNatBound(x: Word)
    ensures ToNat(x) < Pow2(|x|)
  {
    if |x| > 0 {
      ToNatBound(x[1..]);
    }
  }

  lemma {:induction false} ToNatFromNat(v: nat, len: nat)
    ensures ToNat(FromNat(v, len)) == v % Pow2(len)
  {
    if len > 0 {
      var r := FromNat(v, len);
      FromNatCons(v, len);
      assert r[1..] == FromNat(v / 2, len - 1);
      ToNatFromNat(v / 2, len - 1);
      DivMod2(v, Pow2(len - 1));
    }
  }

  /** v % (2 * p) splits into the low bit and the rest; v / (2 * p) drops the low bit first. */
  lemma DivMod2(v: nat, p: nat)
    requires p >= 1
    ensures v % (2 * p) == v % 2 + 2 * ((v / 2) % p)
    ensures v / (2 * p) == (v / 2) / p
  {
    var q := (v / 2) / p;
    var r := (v / 2) % p;
    assert v / 2 == p * q + r;
    assert v == 2 * p * q + (2 * r + v % 2);
    DivModUnique(v, 2 * p, q, 2 * r + v % 2);
  }

  lemma DivModUnique(a: int, d: int, q: int, r: int)
    requires d > 0 && 0 <= r < d && a == d * q + r
    ensures a / d == q && a % d == r
  {
    var q', r' := a / d, a % d;
    if q' > q {
      MulAtLeast(d, q' - q);
    } else if q' < q {
      MulAtLeast(d, q - q');
    }
  }

  lemma MulAtLeast(d: int, k: int)
    requires d > 0 && k >= 1
    ensures d * k >= d
  {
    assert d * k == d + d * (k - 1);
  }

  lemma {:induction false} FromNatToNat(x: Word)
    ensures FromNat(ToNat(x), |x|) == x
  {
    if |x| > 0 {
      var v := ToNat(x);
      FromNatCons(v, |x|);
      assert v % 2 == 1 <==> x[0];
      assert v / 2 == ToNat(x[1..]);
      FromNatToNat(x[1..]);
      assert x == [x[0]] + x[1..];
    }
  }

  /** Two words of one width are equal exactly when their numbers are. */
  lemma ToNatInjective(a: Word, b: Word)
    requires |a| == |b|
    ensures ToNat(a) == ToNat(b) <==> a == b
  {
    if ToNat(a) == ToNat(b) {
      FromNatToNat(a);
      FromNatToNat(b);
    }
  }

  /** The word `Low(n, len)` denotes (1 << n) - 1. */
  lemma {:induction false} ToNatLow(n: nat, len: nat)
    requires n <= len
    ensures ToNat(Low(n, len)) == Pow2(n) - 1
  {
    if len > 0 {
      var x := Low(n, len);
      if n == 0 {
        assert x[1..] == Low(0, len - 1);
        ToNatLow(0, len - 1);
      } else {
        assert x[1..] == Low(n - 1, len - 1);
        ToNatLow(n - 1, len - 1);
      }
    }
  }

  lemma {:induction false} Pow2Add(a: nat, b: nat)
    ensures Pow2(a + b) == Pow2(a) * Pow2(b)
  {
    if b > 0 {
      Pow2Add(a, b - 1);
    }
  }

  /** The powers of two the register layouts use. */
  lemma Pow2Values()
    ensures Pow2(0) == 1 && Pow2(1) == 2 && Pow2(2) == 4 && Pow2(6) == 64 && Pow2(8) == 0x100
    ensures Pow2(20) == 0x10_0000 && Pow2(24) == 0x100_0000 && Pow2(25) == 0x200_0000
    ensures Pow2(26) == 0x400_0000 && Pow2(28) == 0x1000_0000 && Pow2(32) == 0x1_0000_0000
  {
    assert Pow2(4) == 0x10 && Pow2(8) == 0x100;
    assert Pow2(16) == 0x1_0000 by {
      Pow2Add(8, 8);
    }
    assert Pow2(20) == 0x10_0000 by {
      Pow2Add(16, 4);
    }
    assert Pow2(24) == 0x100_0000 by {
      Pow2Add(16, 8);
    }
    assert Pow2(26) == 2 * (2 * Pow2(24));
    assert Pow2(28) == 0x1000_0000 by {
      Pow2Add(24, 4);
    }
    Pow2Add(16, 16);
  }

  lemma {:induction false} Pow2Mono(a: nat, b: nat)
    requires a <= b
    ensures Pow2(a) <= Pow2(b)
  {
    if a < b {
      Pow2Mono(a, b - 1);
    }
  }

  /** Reducing a number that already fits does nothing. */
  lemma ModOfSmaller(x: nat, d: nat)
    requires x < d
    ensures x % d == x && x / d == 0
  {
    DivModUnique(x, d, 0, x);
  }

  /** Masking the low `n` bits of `v` leaves `v % 2^n`. */
  lemma {:induction false} FromNatAndLow(v: nat, n: nat, len: nat)
    ensures And(FromNat(v, len), Low(n, len)) == FromNat(v % Pow2(n), len)
  {
    var lhs := And(FromNat(v, len), Low(n, len));
    if n == 0 {
      FromNatOfZero(len);
      assert lhs == Zeros(len);
    } else if len > 0 {
      var m := v % Pow2(n);
      DivMod2(v, Pow2(n - 1));
      assert m % 2 == v % 2 && m / 2 == (v / 2) % Pow2(n - 1);
      FromNatAndLow(v / 2, n - 1, len - 1);
      FromNatCons(v, len);
      FromNatCons(m, len);
      assert lhs[1..] == And(FromNat(v / 2, len - 1), Low(n - 1, len - 1));
      assert lhs == [lhs[0]] + lhs[1..];
    }
  }

  lemma FromNatOfZero(len: nat)
    ensures FromNat(0, len) == Zeros(len)
  {
  }

  /** The `len`-bit word of `2^n - 1` is `Low(n, len)`: `(1 << n) - 1` as a word. */
  lemma FromNatOfLow(n: nat, len: nat)
    requires n <= len
    ensures FromNat(Pow2(n) - 1, len) == Low(n, len)
  {
    Pow2Mono(n, len);
    ToNatFromNat(Pow2(n) - 1, len);
    ModOfSmaller(Pow2(n) - 1, Pow2(len));
    ToNatLow(n, len);
    ToNatInjective(FromNat(Pow2(n) - 1, len), Low(n, len));
  }

  /** The low `k` bits of a word and the rest: x == x[..k] + 2^k * x[k..]. */
  lemma {:induction false} ToNatSplit(x: Word, k: nat)
    requires k <= |x|
    ensures ToNat(x) == ToNat(x[..k]) + Pow2(k) * ToNat(x[k..])
  {
    if k > 0 {
      var b := if x[0] then 1 else 0;
      var lo, t := ToNat(x[..k][1..]), ToNat(x[k..]);
      ToNatSplit(x[1..], k - 1);
      assert x[1..][..k - 1] == x[..k][1..];
      assert x[1..][k - 1..] == x[k..];
      assert ToNat(x) == b + 2 * (lo + Pow2(k - 1) * t);
      assert ToNat(x[..k]) == b + 2 * lo;
      Distribute(b, lo, Pow2(k - 1), t);
    } else {
      assert x[k..] == x;
    }
  }

  lemma Distribute(b: int, lo: int, p: int, t: int)
    ensures b + 2 * (lo + p * t) == (b + 2 * lo) + (2 * p) * t
  {
  }

  /** Zero bits on top add nothing. */
  lemma {:induction false} ToNatZeroExtend(x: Word, m: nat)
    ensures ToNat(x + Zeros(m)) == ToNat(x)
  {
    if |x| == 0 {
      ToNatOfZeros(m);
      assert x + Zeros(m) == Zeros(m);
    } else {
      assert (x + Zeros(m))[1..] == x[1..] + Zeros(m);
      ToNatZeroExtend(x[1..], m);
    }
  }

  lemma {:induction false} ToNatOfZeros(m: nat)
    ensures ToNat(Zeros(m)) == 0
  {
    if m > 0 {
      assert Zeros(m)[1..] == Zeros(m - 1);
      ToNatOfZeros(m - 1);
    }
  }

  /** The first `k` bits of `v` as a word of length `len` are `v` as a `k`-bit word. */
  lemma FromNatPrefix(v: nat, k: nat, len: nat)
    requires k <= len
    ensures FromNat(v, len)[..k] == FromNat(v, k)
  {
  }

  /** The number of a disjoint union is the sum of the numbers. */
  lemma {:induction false} ToNatOrDisjoint(a: Word, b: Word)
    requires |a| == |b| && Disjoint(a, b)
    ensures ToNat(Or(a, b)) == ToNat(a) + ToNat(b)
  {
    if |a| > 0 {
      assert Or(a, b)[1..] == Or(a[1..], b[1..]);
      ToNatOrDisjoint(a[1..], b[1..]);
    }
  }

  /**
   * A word whose set bits all fit below the top after shifting by `s`:
   * its shifted number is the number times 2^s.
   */
  lemma ToNatShl(x: Word, s: nat, n: nat)
    requires n + s <= |x| && Within(x, Low(n, |x|))
    ensures ToNat(Shl(x, s)) == Pow2(s) * ToNat(x)
  {
    var y := Shl(x, s);
    var len := |x|;
    var body := x[..len - s];
    ToNatSplit(y, s);
    assert y[..s] == Zeros(s);
    ToNatOfZeros(s);
    assert y[s..] == body;
    assert x == body + Zeros(s) by {
      assert forall i | len - s <= i < len :: !x[i];
    }
    ToNatZeroExtend(body, s);
    assert ToNat(y) == Pow2(s) * ToNat(body);
    assert ToNat(x) == ToNat(body);
  }

  lemma Substitute(t: int, l: int, p: int, u: int, m: int, q: int, h: int)
    requires t == l + p * u && u == m + q * h
    ensures t == l + p * m + p * (q * h)
  {
  }

  /** A word cut into bits below `o`, bits `o..o+n-1`, and the bits above. */
  lemma ToNatSplit3(x: Word, o: nat, n: nat)
    requires o + n <= |x|
    ensures ToNat(x) == ToNat(x[..o]) + Pow2(o) * ToNat(x[o..o + n]) + Pow2(o) * (Pow2(n) * ToNat(x[o + n..]))
  {
    var rest := x[o..];
    assert rest[..n] == x[o..o + n];
    assert rest[n..] == x[o + n..];
    ToNatSplit(x, o);
    ToNatSplit(rest, n);
    Substitute(ToNat(x), ToNat(x[..o]), Pow2(o), ToNat(rest), ToNat(x[o..o + n]), Pow2(n), ToNat(x[o + n..]));
  }

  /** The number held in bits `o..o+n-1` of `x` is `(x / 2^o) % 2^n`. */
  lemma ToNatSlice(x: Word, o: nat, n: nat)
    requires o + n <= |x|
    ensures ToNat(x[o..o + n]) == (ToNat(x) / Pow2(o)) % Pow2(n)
    ensures ToNat(x[o..o + n]) < Pow2(n)
  {
    var t, l, m, h := ToNat(x), ToNat(x[..o]), ToNat(x[o..o + n]), ToNat(x[o + n..]);
    assert t == l + Pow2(o) * m + Pow2(o) * (Pow2(n) * h) && l < Pow2(o) && m < Pow2(n) by {
      ToNatSplit3(x, o, n);
      ToNatBound(x[..o]);
      ToNatBound(x[o..o + n]);
    }
    SliceArith(t, l, Pow2(o), m, Pow2(n), h);
  }

  lemma SliceArith(t: int, l: int, p: int, m: int, q: int, h: int)
    requires t == l + p * m + p * (q * h)
    requires 0 <= l < p && 0 <= m < q && h >= 0
    ensures (t / p) % q == m
  {
    assert t == p * (m + q * h) + l;
    DivModUnique(t, p, m + q * h, l);
    DivModUnique(m + q * h, q, h, m);
  }

  /**
   * Two words that differ only in bits `o..o+n-1` differ in number by the
   * difference of those bits' numbers, times 2^o.
   */
  lemma ToNatReplaceSlice(x: Word, y: Word, o: nat, n: nat)
    requires |x| == |y| && o + n <= |x|
    requires x[..o] == y[..o] && x[o + n..] == y[o + n..]
    ensures ToNat(x) == ToNat(y) - Pow2(o) * ToNat(y[o..o + n]) + Pow2(o) * ToNat(x[o..o + n])
  {
    var l, h := ToNat(x[..o]), ToNat(x[o + n..]);
    assert ToNat(x) == l + Pow2(o) * ToNat(x[o..o + n]) + Pow2(o) * (Pow2(n) * h) by {
      ToNatSplit3(x, o, n);
    }
    assert ToNat(y) == l + Pow2(o) * ToNat(y[o..o + n]) + Pow2(o) * (Pow2(n) * h) by {
      ToNatSplit3(y, o, n);
    }
  }

  /**
   * `x1` replaces bits `o .. o+n1-1` of `raw` and `x` then replaces the
   * `n2` bits above them: bits `o .. o+n1+n2-1` of `x` hold both numbers,
   * and everything above is still `raw`'s.
   */
  lemma AdjacentSlices(raw: Word, x1: Word, x: Word, o: nat, n1: nat, n2: nat)
    requires |raw| == |x1| == |x| && o + n1 + n2 <= |raw|
    requires x1[o + n1..] == raw[o + n1..]
    requires x[..o + n1] == x1[..o + n1] && x[o + n1 + n2..] == x1[o + n1 + n2..]
    ensures ToNat(x[o..o + n1 + n2]) == ToNat(x1[o..o + n1]) + Pow2(n1) * ToNat(x[o + n1..o + n1 + n2])
    ensures x[o + n1 + n2..] == raw[o + n1 + n2..]
  {
    var part := x[o..o + n1 + n2];
    assert part[..n1] == x1[o..o + n1] by {
      assert part[..n1] == x[..o + n1][o..] == x1[..o + n1][o..];
    }
    assert part[n1..] == x[o + n1..o + n1 + n2];
    assert x1[o + n1 + n2..] == x1[o + n1..][n2..];
    assert raw[o + n1 + n2..] == raw[o + n1..][n2..];
    ToNatSplit(part, n1);
  }
}
