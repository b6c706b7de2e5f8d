/** Polynomials over GF(2), and the register that divides them by the generator of CRC-32. */
module Gf2 {
  import opened Bits

  /** Coefficients, the highest power first. */
  type Poly = seq<Bit>

  function Zeros(n: nat): (z: Poly)
    ensures |z| == n
  {
    seq(n, _ => 0)
  }

  function Plus(a: Bit, b: Bit): Bit {
    if a == b then 0 else 1
  }

  function Sum(a: Poly, b: Poly): (s: Poly)
    requires |a| == |b|
    ensures |s| == |a|
  {
    seq(|a|, i requires 0 <= i < |a| => Plus(a[i], b[i]))
  }

  function Scale(c: Bit, p: Poly): (s: Poly)
    ensures |s| == |p|
  {
    if c == 1 then p else Zeros(|p|)
  }

  /** The carry-less product. */
  function Product(q: Poly, g: Poly): (p: Poly)
    requires g != []
    ensures |p| == |q| + |g| - 1
  {
    if q == [] then Zeros(|g| - 1)
    else
      var n := |q| - 1;
      Sum(Product(q[..n], g) + [0], Zeros(n) + Scale(q[n], g))
  }

  /** The coefficient of x^k in the generator. */
  function GeneratorTerm(k: nat): Bit {
    if k in {32, 26, 23, 22, 16, 12, 11, 10, 8, 7, 5, 4, 2, 1, 0} then 1 else 0
  }

  function Generator(): (g: Poly)
    ensures |g| == 33 && forall i | 0 <= i < 33 :: g[i] == GeneratorTerm(32 - i)
  {
    seq(33, i requires 0 <= i < 33 => GeneratorTerm(32 - i))
  }

  function Complement(p: Poly): (c: Poly)
    ensures |c| == |p|
  {
    seq(|p|, i requires 0 <= i < |p| => 1 - p[i])
  }

  /** The message times x^32, with its first 32 coefficients complemented. */
  function Dividend(message: Poly): Poly {
    var p := message + Zeros(32);
    Complement(p[..32]) + p[32..]
  }

  /** `r` is the remainder of the dividend, with some quotient. */
  ghost predicate IsRemainder(message: Poly, r: Poly) {
    |r| == 32 && exists q: Poly ::
      |q| == |message| && Dividend(message) == Sum(Product(q, Generator()), Zeros(|message|) + r)
  }

  // ----- the shift register

  /** One shift: the coefficient that falls out takes a multiple of the generator with it. */
  function Shifted(r: Poly): (s: Poly)
    requires |r| == 32
    ensures |s| == 32
  {
    Sum(r[1..] + [0], Scale(r[0], Generator()[1..]))
  }

  /** The next message bit enters at the top. */
  function Enter(r: Poly, m: Bit): (s: Poly)
    requires |r| == 32
    ensures |s| == 32
  {
    Shifted(Sum(r, [m] + Zeros(31)))
  }

  function EnterAll(r: Poly, message: Poly): (s: Poly)
    requires |r| == 32
    ensures |s| == 32
  {
    if message == [] then r
    else
      var n := |message| - 1;
      Enter(EnterAll(r, message[..n]), message[n])
  }

  lemma {:induction false} EnterAppend(r: Poly, a: Poly, b: Poly)
    requires |r| == 32
    ensures EnterAll(r, a + b) == EnterAll(EnterAll(r, a), b)
  {
    hide Enter;
    if b == [] {
      assert a + b == a;
    } else {
      var n := |b| - 1;
      assert (a + b)[..|a| + n] == a + b[..n];
      EnterAppend(r, a, b[..n]);
    }
  }

  // ----- sums

  lemma SumAssociates(a: Poly, b: Poly, c: Poly)
    requires |a| == |b| == |c|
    ensures Sum(Sum(a, b), c) == Sum(a, Sum(b, c))
  {
  }

  lemma SumAppend(a: Poly, b: Poly, x: Poly, y: Poly)
    requires |a| == |b| && |x| == |y|
    ensures Sum(a + x, b + y) == Sum(a, b) + Sum(x, y)
  {
  }

  lemma SumZeros(a: Poly)
    ensures Sum(a, Zeros(|a|)) == a && Sum(Zeros(|a|), a) == a
  {
  }

  lemma ZerosAppend(m: nat, n: nat)
    ensures Zeros(m) + Zeros(n) == Zeros(m + n)
  {
  }

  /** A shift is linear. */
  lemma ShiftedSum(a: Poly, b: Poly)
    requires |a| == |b| == 32
    ensures Shifted(Sum(a, b)) == Sum(Shifted(a), Shifted(b))
  {
    var g := Generator()[1..];
    ScaleSum(a[0], b[0], g);
    assert Sum(a, b)[1..] + [0] == Sum(a[1..] + [0], b[1..] + [0]);
    SumSwap(a[1..] + [0], b[1..] + [0], Scale(a[0], g), Scale(b[0], g));
  }

  lemma ScaleSum(a: Bit, b: Bit, g: Poly)
    ensures Scale(Plus(a, b), g) == Sum(Scale(a, g), Scale(b, g))
  {
  }

  lemma SumSwap(a: Poly, b: Poly, c: Poly, d: Poly)
    requires |a| == |b| == |c| == |d|
    ensures Sum(Sum(a, b), Sum(c, d)) == Sum(Sum(a, c), Sum(b, d))
  {
  }

  // ----- the register divides

  /** The sum the register has to divide after `message`, from the start value `r`. */
  function Started(r: Poly, message: Poly): (p: Poly)
    requires |r| == 32
    ensures |p| == |message| + 32
  {
    Sum(message + Zeros(32), r + Zeros(|message|))
  }

  lemma StartedSnoc(r: Poly, message: Poly, m: Bit)
    requires |r| == 32
    ensures Started(r, message + [m]) == Sum(Started(r, message) + [0], Zeros(|message|) + ([m] + Zeros(32)))
  {
  }

  /** What one bit takes out of the sum is a multiple of the generator. */
  lemma EnterDivides(r: Poly, m: Bit)
    requires |r| == 32
    ensures Sum(r + [0], [m] + Zeros(32)) == Sum(Scale(Plus(r[0], m), Generator()), [0] + Enter(r, m))
  {
    var t := Sum(r, [m] + Zeros(31));
    assert t[0] == Plus(r[0], m) && t[1..] == r[1..];
    assert Generator()[0] == 1;
    var g := Scale(t[0], Generator());
    assert g[1..] == Scale(t[0], Generator()[1..]);
    Twice(r[1..] + [0], g[1..]);
    assert Sum(r + [0], [m] + Zeros(32)) == [t[0]] + (r[1..] + [0]);
    assert Sum(g, [0] + Enter(r, m)) == [g[0]] + Sum(g[1..], Enter(r, m));
  }

  lemma Twice(a: Poly, g: Poly)
    requires |a| == |g|
    ensures Sum(g, Sum(a, g)) == a
  {
  }

  lemma ProductSnoc(q: Poly, b: Bit)
    ensures Product(q + [b], Generator()) == Sum(Product(q, Generator()) + [0], Zeros(|q|) + Scale(b, Generator()))
  {
    assert (q + [b])[..|q|] == q;
  }

  /** One more bit below, and a sum that is zero above the register. */
  lemma Lower(p: Poly, n: nat, r: Poly, s: Poly)
    requires |p| == n + 32 && |r| == 32 && |s| == 33
    ensures Sum(Sum(p, Zeros(n) + r) + [0], Zeros(n) + s) == Sum(p + [0], Zeros(n) + Sum(r + [0], s))
  {
    var z := Zeros(n);
    var lhs, rhs := Sum(Sum(p, z + r) + [0], z + s), Sum(p + [0], z + Sum(r + [0], s));
    forall i | 0 <= i < |lhs|
      ensures lhs[i] == rhs[i]
    {
      if i < n {
        assert (z + r)[i] == 0 && (z + s)[i] == 0;
      } else {
        assert (z + s)[i] == s[i - n] && (z + Sum(r + [0], s))[i] == Plus((r + [0])[i - n], s[i - n]);
        assert (Sum(p, z + r) + [0])[i] == Plus((p + [0])[i], (r + [0])[i - n]);
      }
    }
  }

  lemma Split(p: Poly, n: nat, g: Poly, r: Poly)
    requires |p| == n + 33 && |g| == 33 && |r| == 32
    ensures Sum(p, Zeros(n) + Sum(g, [0] + r)) == Sum(Sum(p, Zeros(n) + g), Zeros(n + 1) + r)
  {
    SumAppend(Zeros(n), Zeros(n), g, [0] + r);
    SumZeros(Zeros(n));
    assert Zeros(n) + ([0] + r) == Zeros(n + 1) + r;
    SumAssociates(p, Zeros(n) + g, Zeros(n) + ([0] + r));
  }

  /** Whatever it starts from, the register holds the remainder. */
  lemma {:induction false} RegisterDivides(r: Poly, message: Poly) returns (q: Poly)
    requires |r| == 32
    ensures |q| == |message|
    ensures Started(r, message) == Sum(Product(q, Generator()), Zeros(|message|) + EnterAll(r, message))
  {
    if message == [] {
      q := [];
      assert Zeros(0) + r == r && [] + Zeros(32) == Zeros(32) && r + Zeros(0) == r;
    } else {
      var n := |message| - 1;
      var m := message[n];
      var front := message[..n];
      assert front + [m] == message;
      hide Sum, Zeros, Scale, Product, Enter, Generator, Plus;
      var q0 := RegisterDivides(r, front);
      var r0 := EnterAll(r, front);
      var top := Plus(r0[0], m);
      q := q0 + [top];
      StartedSnoc(r, front, m);
      Lower(Product(q0, Generator()), n, r0, [m] + Zeros(32));
      EnterDivides(r0, m);
      Split(Product(q0, Generator()) + [0], n, Scale(top, Generator()), Enter(r0, m));
      ProductSnoc(q0, top);
    }
  }

  lemma StartedOnes(message: Poly)
    ensures Started(Complement(Zeros(32)), message) == Dividend(message)
  {
    var p := message + Zeros(32);
    var ones := Complement(Zeros(32)) + Zeros(|message|);
    assert forall i | 0 <= i < |p| :: ones[i] == if i < 32 then 1 else 0;
  }

  /** Started with ones, it holds the remainder of the complemented message. */
  lemma OnesRemainder(message: Poly)
    ensures IsRemainder(message, EnterAll(Complement(Zeros(32)), message))
  {
    var q := RegisterDivides(Complement(Zeros(32)), message);
    StartedOnes(message);
  }

  // ----- entering several bits at once

  function ShiftedBy(r: Poly, n: nat): (s: Poly)
    requires |r| == 32
    ensures |s| == 32
  {
    if n == 0 then r else Shifted(ShiftedBy(r, n - 1))
  }

  lemma {:induction false} ShiftedFirst(r: Poly, n: nat)
    requires |r| == 32
    ensures ShiftedBy(Shifted(r), n) == ShiftedBy(r, n + 1)
  {
    if n > 0 {
      ShiftedFirst(r, n - 1);
    } else {
      assert ShiftedBy(r, 1) == Shifted(ShiftedBy(r, 0));
    }
  }

  lemma {:induction false} ShiftedBySum(a: Poly, b: Poly, n: nat)
    requires |a| == |b| == 32
    ensures ShiftedBy(Sum(a, b), n) == Sum(ShiftedBy(a, n), ShiftedBy(b, n))
  {
    hide Sum, Shifted;
    if n > 0 {
      ShiftedBySum(a, b, n - 1);
      ShiftedSum(ShiftedBy(a, n - 1), ShiftedBy(b, n - 1));
    }
  }

  /** Leading zeros take nothing with them. */
  lemma {:induction false} ShiftedZeros(p: Poly, n: nat)
    requires |p| + n == 32
    ensures ShiftedBy(Zeros(n) + p, n) == p + Zeros(n)
    decreases n
  {
    if n == 0 {
      assert Zeros(0) + p == p && p + Zeros(0) == p;
    } else {
      assert Zeros(n) + p == Zeros(n - 1) + ([0] + p);
      ShiftedZeros([0] + p, n - 1);
      ShiftedZero(p + Zeros(n - 1));
      hide Shifted;
      assert ([0] + p) + Zeros(n - 1) == [0] + (p + Zeros(n - 1));
      assert (p + Zeros(n - 1)) + [0] == p + Zeros(n);
    }
  }

  lemma ShiftedZero(p: Poly)
    requires |p| == 31
    ensures Shifted([0] + p) == p + [0]
  {
    assert ([0] + p)[1..] == p;
    SumZeros(p + [0]);
  }

  /** Bits that enter one by one may as well be added first and shifted out together. */
  lemma {:induction false} EnterIsShift(r: Poly, message: Poly)
    requires |r| == 32 && |message| <= 32
    ensures EnterAll(r, message) == ShiftedBy(Sum(r, message + Zeros(32 - |message|)), |message|)
  {
    hide Shifted;
    if message == [] {
      assert [] + Zeros(32) == Zeros(32);
      SumZeros(r);
    } else {
      var n := |message| - 1;
      var front, m := message[..n], message[n];
      EnterIsShift(r, front);
      var before := Sum(r, front + Zeros(32 - n));
      var bit := [m] + Zeros(31 - n);
      OneMoreBit(r, front, m);
      hide Sum;
      assert front + [m] == message;
      ShiftedBySum(before, Zeros(n) + bit, n);
      ShiftedZeros(bit, n);
      assert bit + Zeros(n) == [m] + Zeros(31);
    }
  }

  lemma OneMoreBit(r: Poly, front: Poly, m: Bit)
    requires |r| == 32 && |front| < 32
    ensures var n := |front|;
      Sum(r, front + [m] + Zeros(31 - n)) == Sum(Sum(r, front + Zeros(32 - n)), Zeros(n) + ([m] + Zeros(31 - n)))
  {
  }

  // ----- there is only one remainder

  /** The coefficients above the generator's degree determine the quotient. */
  lemma {:induction false} TopDetermines(p: Poly, q: Poly)
    requires |p| == |q|
    requires forall i | 0 <= i < |p| :: Product(p, Generator())[i] == Product(q, Generator())[i]
    ensures p == q
  {
    hide Product, Generator;
    if p != [] {
      var n := |p| - 1;
      assert p[..n] + [p[n]] == p && q[..n] + [q[n]] == q;
      TopOf(p[..n], p[n]);
      TopOf(q[..n], q[n]);
      TopDetermines(p[..n], q[..n]);
      assert Product(p, Generator())[n] == Product(q, Generator())[n];
    }
  }

  lemma TopOf(q: Poly, b: Bit)
    ensures var p := Product(q + [b], Generator());
      && (forall i | 0 <= i < |q| :: p[i] == Product(q, Generator())[i])
      && p[|q|] == Plus(Product(q, Generator())[|q|], b)
  {
    ProductSnoc(q, b);
    hide Product;
  }

  /** The remainder is determined by what it is the remainder of. */
  lemma OneRemainder(message: Poly, r: Poly, s: Poly)
    requires IsRemainder(message, r) && IsRemainder(message, s)
    ensures r == s
  {
    var n := |message|;
    var p: Poly :| |p| == n && Dividend(message) == Sum(Product(p, Generator()), Zeros(n) + r);
    var q: Poly :| |q| == n && Dividend(message) == Sum(Product(q, Generator()), Zeros(n) + s);
    hide Product, Dividend, Generator, Sum, Zeros;
    SameSum(Product(p, Generator()), r, Product(q, Generator()), s, n);
    TopDetermines(p, q);
  }

  lemma SameSum(a: Poly, r: Poly, b: Poly, s: Poly, n: nat)
    requires |a| == |b| == n + 32 && |r| == |s| == 32
    requires Sum(a, Zeros(n) + r) == Sum(b, Zeros(n) + s)
    ensures forall i | 0 <= i < n :: a[i] == b[i]
    ensures a == b ==> r == s
  {
    var c, d := Sum(a, Zeros(n) + r), Sum(b, Zeros(n) + s);
    assert forall i | 0 <= i < n :: c[i] == a[i] && d[i] == b[i];
    forall i | 0 <= i < 32
      ensures a == b ==> r[i] == s[i]
    {
      assert c[n + i] == Plus(a[n + i], r[i]) && d[n + i] == Plus(b[n + i], s[i]);
    }
  }
}
