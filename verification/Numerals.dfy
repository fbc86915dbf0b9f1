/** Numbers as little-endian digit sequences.  Registers that the source assembles with
    shifts and ors of disjoint fields, and takes apart with masks and shifts, are such
    numbers: base 4 for two-bit fields, base 256 for bytes. */
module Numerals {

  /** A byte as a number.  (The modules about chip contents need the bits of a byte and have
      a bit-vector for it.) */
  type octet = n: nat | n < 256

  /** The value of the digits `d`, least significant first. */
  function Pack(d: seq<nat>, b: nat): nat {
    if d == [] then 0 else d[0] + b * Pack(d[1..], b)
  }

  /** Digit `i` of `w`: mask after `i` shifts. */
  function Digit(w: nat, b: nat, i: nat): nat
    requires b > 0
    decreases i
  {
    if i == 0 then w % b else Digit(w / b, b, i - 1)
  }

  function Power(b: nat, n: nat): (p: nat)
    ensures b > 0 ==> p > 0
  {
    if n == 0 then 1 else b * Power(b, n - 1)
  }

  ghost predicate Digits(d: seq<nat>, b: nat) {
    forall i | 0 <= i < |d| :: d[i] < b
  }

  predicate IsPowerOfTwo(s: nat) {
    s == 1 || (s > 0 && s % 2 == 0 && IsPowerOfTwo(s / 2))
  }

  lemma {:induction false} PowerIsPowerOfTwo(k: nat)
    ensures IsPowerOfTwo(Power(2, k))
  {
    if k > 0 {
      PowerIsPowerOfTwo(k - 1);
    }
  }

  lemma {:induction false} Exponent(s: nat) returns (k: nat)
    requires IsPowerOfTwo(s)
    ensures s == Power(2, k)
  {
    if s == 1 {
      k := 0;
    } else {
      k := Exponent(s / 2);
      k := k + 1;
    }
  }

  lemma DivMod(x: nat, b: nat, y: nat)
    requires x < b
    ensures (x + b * y) % b == x && (x + b * y) / b == y
  {
    var w := x + b * y;
    var q, r := w / b, w % b;
    assert w == b * q + r;
    if q > y {
      Above(b, q, y);
    } else if q < y {
      Above(b, y, q);
    }
  }

  lemma Above(b: nat, p: nat, q: nat)
    requires b > 0 && p > q
    ensures b * p >= b * q + b
  {
    var k := p - q;
    assert b * (q + k) == b * q + b * k;
    AtLeast(b, k);
  }

  lemma AtLeast(b: nat, k: nat)
    requires k >= 1
    ensures b * k >= b
  {
  }

  lemma QuotientBound(w: nat, b: nat, p: nat)
    requires b > 0 && w < b * p
    ensures w / b < p
  {
    var q := w / b;
    assert w == b * q + w % b;
    if q > p {
      Above(b, q, p);
    }
  }

  /** Taking apart what was put together. */
  lemma {:induction false} DigitOfPack(d: seq<nat>, b: nat, i: nat)
    requires b > 0 && Digits(d, b) && i < |d|
    ensures Digit(Pack(d, b), b, i) == d[i]
    decreases i
  {
    DivMod(d[0], b, Pack(d[1..], b));
    if i > 0 {
      DigitOfPack(d[1..], b, i - 1);
    }
  }

  lemma {:induction false} PackBound(d: seq<nat>, b: nat)
    requires b > 0 && Digits(d, b)
    ensures Pack(d, b) < Power(b, |d|)
  {
    if d != [] {
      PackBound(d[1..], b);
      Above(b, Power(b, |d| - 1), Pack(d[1..], b));
    }
  }

  /** Putting together what was taken apart. */
  lemma {:induction false} PackOfDigits(w: nat, b: nat, d: seq<nat>)
    requires b > 0 && w < Power(b, |d|) && forall i | 0 <= i < |d| :: d[i] == Digit(w, b, i)
    ensures Pack(d, b) == w
    decreases |d|
  {
    if d != [] {
      var n := |d| - 1;
      QuotientBound(w, b, Power(b, n));
      forall i | 0 <= i < n ensures d[1..][i] == Digit(w / b, b, i) {
        assert d[i + 1] == Digit(w, b, i + 1);
      }
      PackOfDigits(w / b, b, d[1..]);
      assert d[0] == Digit(w, b, 0) == w % b;
    }
  }

  lemma {:induction false} PackConcat(c: seq<nat>, d: seq<nat>, b: nat)
    ensures Pack(c + d, b) == Pack(c, b) + Power(b, |c|) * Pack(d, b)
  {
    if c == [] {
      assert c + d == d;
    } else {
      PackConcat(c[1..], d, b);
      assert (c + d)[1..] == c[1..] + d;
      var p, q := Power(b, |c| - 1), Pack(d, b);
      assert b * (Pack(c[1..], b) + p * q) == b * Pack(c[1..], b) + b * (p * q);
      assert b * (p * q) == (b * p) * q;
    }
  }

  /** One more field, shifted into place. */
  lemma PackAppend(d: seq<nat>, x: nat, b: nat)
    ensures Pack(d + [x], b) == Pack(d, b) + Power(b, |d|) * x
  {
    PackConcat(d, [x], b);
    assert Pack([x], b) == x + b * Pack([], b);
  }

  lemma {:induction false} DigitBound(w: nat, b: nat, i: nat)
    requires b > 0
    ensures Digit(w, b, i) < b
    decreases i
  {
    if i > 0 {
      DigitBound(w / b, b, i - 1);
    }
  }

  /** `w` shifted right by `n` digits. */
  function Shifted(w: nat, b: nat, n: nat): nat
    requires b > 0
  {
    if n == 0 then w else Shifted(w, b, n - 1) / b
  }

  lemma {:induction false} ShiftedDigit(w: nat, b: nat, n: nat)
    requires b > 0
    ensures Shifted(w, b, n) % b == Digit(w, b, n)
    decreases n
  {
    if n > 0 {
      ShiftedAgain(w, b, n);
      ShiftedDigit(w / b, b, n - 1);
    }
  }

  lemma {:induction false} ShiftedAgain(w: nat, b: nat, n: nat)
    requires b > 0 && n > 0
    ensures Shifted(w, b, n) == Shifted(w / b, b, n - 1)
    decreases n
  {
    if n > 1 {
      ShiftedAgain(w, b, n - 1);
    }
  }
}
