/**
 getFileCRC: CRC-32 folded over 64 KiB blocks, with the update rule of RFC 1952
 section 8, proved to be the remainder of polynomial division.
 */
module Crc {
  import opened Bits
  import opened Gf2

  const BLOCK_SIZE: nat := 65536
  const POLYNOMIAL: nat := 0xEDB88320
  const ONES: nat := 0xFFFFFFFF

  /** One bit of the table computation. */
  function Shift(c: nat): nat {
    if c % 2 == 1 then Xor(POLYNOMIAL, c / 2) else c / 2
  }

  function Shifts(c: nat, n: nat): nat
    decreases n
  {
    if n == 0 then c else Shifts(Shift(c), n - 1)
  }

  /** The running remainder after one more byte. */
  function AddByte(c: nat, b: Byte): nat {
    Xor(Shifts(Xor(c, b) % 256, 8), c / 256)
  }

  function AddBytes(c: nat, data: seq<Byte>): nat
    decreases |data|
  {
    if data == [] then c else AddBytes(AddByte(c, data[0]), data[1..])
  }

  /** binascii.crc32(data, crc): complement, run, complement. */
  function Update(crc: nat, data: seq<Byte>): nat {
    Xor(AddBytes(Xor(crc, ONES), data), ONES)
  }

  lemma ParityTwice(a: nat, m: nat, x: nat)
    requires x % 2 == (a + m) % 2
    ensures (x + m) % 2 == a % 2
  {
  }

  lemma {:induction false} XorTwice(a: nat, m: nat)
    ensures Xor(Xor(a, m), m) == a
    decreases a + m
  {
    if a == 0 && m == 0 {
      assert Xor(0, 0) == 0;
    } else {
      hide Xor;
      XorTwice(a / 2, m / 2);
      XorHalves(a, m);
      var x := Xor(a, m);
      XorHalves(x, m);
      assert Xor(x, m) / 2 == a / 2;
      assert Xor(x, m) % 2 == a % 2 by { ParityTwice(a, m, x); }
    }
  }

  lemma {:induction false} AddBytesAppend(c: nat, a: seq<Byte>, b: seq<Byte>)
    ensures AddBytes(c, a + b) == AddBytes(AddBytes(c, a), b)
    decreases |a|
  {
    if a == [] {
      assert a + b == b;
    } else {
      assert (a + b)[1..] == a[1..] + b;
      AddBytesAppend(AddByte(c, a[0]), a[1..], b);
    }
  }

  /** Continuing a CRC is the CRC of the concatenation: the two inner complements cancel. */
  lemma UpdateAppend(crc: nat, a: seq<Byte>, b: seq<Byte>)
    ensures Update(Update(crc, a), b) == Update(crc, a + b)
  {
    XorTwice(AddBytes(Xor(crc, ONES), a), ONES);
    AddBytesAppend(Xor(crc, ONES), a, b);
  }

  lemma EmptyCrc()
    ensures Update(0, []) == 0
  {
    XorTwice(0, ONES);
  }

  // ----- the remainder

  const BOUND: nat := 0x1_0000_0000

  /** The low `n` bits, the least significant first. */
  function LowBits(x: nat, n: nat): (p: Poly)
    ensures |p| == n
  {
    if n == 0 then [] else [x % 2] + LowBits(x / 2, n - 1)
  }

  /** A file as a polynomial: its bits in order, the least significant of each byte first. */
  function FileBits(file: seq<Byte>): (p: Poly)
    ensures |p| == 8 * |file|
  {
    if file == [] then [] else LowBits(file[0], 8) + FileBits(file[1..])
  }

  /**
   CRC-32: 32 bits whose complement, read with the least significant bit as the
   highest power, is the remainder of the file's polynomial.
   */
  ghost predicate IsCrc(file: seq<Byte>, crc: nat) {
    crc < BOUND && IsRemainder(FileBits(file), Complement(LowBits(crc, 32)))
  }

  lemma {:induction false} LowXor(a: nat, b: nat, n: nat)
    ensures LowBits(Xor(a, b), n) == Sum(LowBits(a, n), LowBits(b, n))
  {
    if n > 0 {
      XorHalves(a, b);
      hide Xor;
      LowXor(a / 2, b / 2, n - 1);
      SumFirst(a % 2, LowBits(a / 2, n - 1), b % 2, LowBits(b / 2, n - 1));
    }
  }

  lemma SumFirst(x: Bit, a: Poly, y: Bit, b: Poly)
    requires |a| == |b|
    ensures Sum([x] + a, [y] + b) == [(x + y) % 2] + Sum(a, b)
  {
  }

  /** Bits above the value are zero. */
  lemma {:induction false} LowAbove(x: nat, n: nat, m: nat)
    requires x < Pow2(n)
    ensures LowBits(x, n + m) == LowBits(x, n) + Zeros(m)
  {
    if n == 0 {
      LowZero(m);
    } else {
      LowAbove(x / 2, n - 1, m);
    }
  }

  lemma {:induction false} LowZero(m: nat)
    ensures LowBits(0, m) == Zeros(m)
  {
    if m > 0 {
      LowZero(m - 1);
    }
  }

  lemma LowDouble(x: nat, y: nat, b: Bit, n: nat)
    requires x == 2 * y + b
    ensures LowBits(x, n + 1) == [b] + LowBits(y, n)
  {
    assert x / 2 == y && x % 2 == b;
  }

  lemma LowNibble(x: nat, y: nat, b0: Bit, b1: Bit, b2: Bit, b3: Bit, n: nat)
    requires x == 16 * y + 8 * b3 + 4 * b2 + 2 * b1 + b0
    ensures LowBits(x, n + 4) == [b0, b1, b2, b3] + LowBits(y, n)
  {
    hide LowBits;
    var y3 := 2 * y + b3;
    var y2 := 2 * y3 + b2;
    var y1 := 2 * y2 + b1;
    LowDouble(y3, y, b3, n);
    LowDouble(y2, y3, b2, n + 1);
    LowDouble(y1, y2, b1, n + 2);
    LowDouble(x, y1, b0, n + 3);
  }

  /** The bits of a number in two parts. */
  lemma LowFirst(x: nat, n: nat)
    ensures LowBits(x, 1 + n) == [x % 2] + LowBits(x / 2, n)
  {
  }

  lemma {:induction false} LowSplit(h: nat, l: nat, k: nat, n: nat)
    requires l < Pow2(k)
    ensures LowBits(l + h * Pow2(k), k + n) == LowBits(l, k) + LowBits(h, n)
    decreases k
  {
    hide LowBits;
    if k == 0 {
      NoBits(l);
    } else {
      var half := h * Pow2(k - 1);
      Twice(h, Pow2(k - 1), Pow2(k));
      LowFirst(l, k - 1);
      LowFirst(l + 2 * half, k - 1 + n);
      assert (l + 2 * half) / 2 == l / 2 + half && (l + 2 * half) % 2 == l % 2;
      LowSplit(h, l / 2, k - 1, n);
      assert [l % 2] + (LowBits(l / 2, k - 1) + LowBits(h, n)) == ([l % 2] + LowBits(l / 2, k - 1)) + LowBits(h, n);
    }
  }

  lemma NoBits(x: nat)
    ensures LowBits(x, 0) == []
  {
  }

  lemma Twice(h: nat, p: nat, q: nat)
    requires q == 2 * p
    ensures h * q == 2 * (h * p)
  {
  }

  /** The low byte and the rest. */
  lemma LowByte(x: nat, h: nat, l: nat, n: nat)
    requires x == l + h * 256 && l < 256
    ensures LowBits(x, 8 + n) == LowBits(l, 8) + LowBits(h, n)
  {
    hide LowBits;
    Pow2Is256();
    LowSplit(h, l, 8, n);
  }

  /** Four bits of the constant are four terms of the generator. */
  lemma PolynomialNibble(x: nat, y: nat, k: nat, b0: Bit, b1: Bit, b2: Bit, b3: Bit)
    requires k <= 28 && x == 16 * y + 8 * b3 + 4 * b2 + 2 * b1 + b0
    requires GeneratorTerm(31 - k) == b0 && GeneratorTerm(30 - k) == b1
    requires GeneratorTerm(29 - k) == b2 && GeneratorTerm(28 - k) == b3
    requires LowBits(y, 28 - k) == Generator()[5 + k..]
    ensures LowBits(x, 32 - k) == Generator()[1 + k..]
  {
    hide LowBits, Generator, GeneratorTerm;
    LowNibble(x, y, b0, b1, b2, b3, 28 - k);
    assert Generator()[1 + k..] == [b0, b1, b2, b3] + Generator()[5 + k..];
  }

  /** The constant of the code is the generator below its leading term. */
  lemma PolynomialBits()
    ensures LowBits(POLYNOMIAL, 32) == Generator()[1..]
  {
    NoBits(0);
    hide LowBits, Generator;
    PolynomialNibble(0xE, 0, 28, 0, 1, 1, 1);
    PolynomialNibble(0xED, 0xE, 24, 1, 0, 1, 1);
    PolynomialNibble(0xEDB, 0xED, 20, 1, 1, 0, 1);
    PolynomialNibble(0xEDB8, 0xEDB, 16, 0, 0, 0, 1);
    PolynomialNibble(0xEDB88, 0xEDB8, 12, 0, 0, 0, 1);
    PolynomialNibble(0xEDB883, 0xEDB88, 8, 1, 1, 0, 0);
    PolynomialNibble(0xEDB8832, 0xEDB883, 4, 0, 1, 0, 0);
    PolynomialNibble(0xEDB88320, 0xEDB8832, 0, 0, 0, 0, 0);
  }

  lemma BoundIsPow2()
    ensures Pow2(32) == BOUND
  {
    Pow2Is256();
    Pow2Add(8, 8);
    Pow2Add(16, 16);
    hide Pow2;
  }

  lemma XorBelow(a: nat, b: nat)
    requires a < BOUND && b < BOUND
    ensures Xor(a, b) < BOUND
  {
    BoundIsPow2();
    XorBound(a, b, 32);
    hide Xor, Pow2;
  }

  /** The low 32 bits of a number that is shorter than that. */
  lemma LowShort(x: nat, n: nat)
    requires n <= 32 && x < Pow2(n)
    ensures LowBits(x, 32) == LowBits(x, n) + Zeros(32 - n)
  {
    LowAbove(x, n, 32 - n);
  }

  lemma ShiftBits(c: nat)
    requires c < BOUND
    ensures Shift(c) < BOUND && LowBits(Shift(c), 32) == Shifted(LowBits(c, 32))
  {
    var r := LowBits(c, 32);
    BoundIsPow2();
    assert r == [c % 2] + LowBits(c / 2, 31);
    LowShort(c / 2, 31);
    var half := LowBits(c / 2, 32);
    assert r[1..] + [0] == half;
    hide LowBits, Pow2;
    if c % 2 == 1 {
      XorBelow(POLYNOMIAL, c / 2);
      LowXor(POLYNOMIAL, c / 2, 32);
      PolynomialBits();
      SumCommutes(Generator()[1..], half);
    } else {
      SumZeros(half);
    }
    hide Xor, Generator;
  }

  lemma SumCommutes(a: Poly, b: Poly)
    requires |a| == |b|
    ensures Sum(a, b) == Sum(b, a)
  {
  }

  lemma {:induction false} ShiftsBits(c: nat, n: nat)
    requires c < BOUND
    ensures Shifts(c, n) < BOUND && LowBits(Shifts(c, n), 32) == ShiftedBy(LowBits(c, 32), n)
    decreases n
  {
    hide Shift, Shifted, LowBits;
    if n > 0 {
      ShiftBits(c);
      ShiftsBits(Shift(c), n - 1);
      ShiftedFirst(LowBits(c, 32), n - 1);
    }
  }

  /** The parts of the byte step, as bits of the register with the byte added. */
  lemma BytePieces(c: nat, b: Byte)
    requires c < BOUND
    ensures Xor(c, b) < BOUND
    ensures var x := Sum(LowBits(c, 32), LowBits(b, 8) + Zeros(24));
      && LowBits(Xor(c, b) % 256, 32) == x[..8] + Zeros(24)
      && LowBits(c / 256, 32) == x[8..] + Zeros(8)
  {
    hide LowBits, Xor, Pow2;
    XorBelow(c, b);
    var y := Xor(c, b);
    LowXor(c, b, 32);
    Pow2Is256();
    LowShort(b, 8);
    LowByte(c, c / 256, c % 256, 24);
    LowByte(y, y / 256, y % 256, 24);
    LowShort(y % 256, 8);
    Pow2Is24();
    LowShort(c / 256, 24);
    TopByte(LowBits(c % 256, 8), LowBits(c / 256, 24), LowBits(b, 8));
  }

  lemma Pow2Is24()
    ensures Pow2(24) == 0x100_0000
  {
    Pow2Is256();
    Pow2Add(8, 8);
    Pow2Add(16, 8);
    hide Pow2;
  }

  lemma TopByte(l: Poly, h: Poly, m: Poly)
    requires |l| == |m| == 8 && |h| == 24
    ensures Sum(l + h, m + Zeros(24)) == Sum(l, m) + h
  {
  }

  /** The table step is the byte's bits entering the register. */
  lemma AddByteBits(c: nat, b: Byte)
    requires c < BOUND
    ensures AddByte(c, b) < BOUND && LowBits(AddByte(c, b), 32) == EnterAll(LowBits(c, 32), LowBits(b, 8))
  {
    hide LowBits, Xor, Shifts, ShiftedBy, EnterAll;
    var x := Sum(LowBits(c, 32), LowBits(b, 8) + Zeros(24));
    BytePieces(c, b);
    var y := Xor(c, b) % 256;
    ShiftsBits(y, 8);
    XorBelow(Shifts(y, 8), c / 256);
    LowXor(Shifts(y, 8), c / 256, 32);
    EnterIsShift(LowBits(c, 32), LowBits(b, 8));
    Halves(x);
    ShiftedBySum(x[..8] + Zeros(24), Zeros(8) + x[8..], 8);
    ShiftedZeros(x[8..], 8);
    hide Sum, Zeros;
  }

  lemma Halves(x: Poly)
    requires |x| == 32
    ensures x == Sum(x[..8] + Zeros(24), Zeros(8) + x[8..])
  {
  }

  lemma {:induction false} AddBytesBits(c: nat, data: seq<Byte>)
    requires c < BOUND
    ensures AddBytes(c, data) < BOUND
    ensures LowBits(AddBytes(c, data), 32) == EnterAll(LowBits(c, 32), FileBits(data))
    decreases |data|
  {
    hide LowBits, AddByte;
    if data == [] {
      EnterNothing(LowBits(c, 32));
    } else {
      AddByteBits(c, data[0]);
      AddBytesBits(AddByte(c, data[0]), data[1..]);
      EnterAppend(LowBits(c, 32), LowBits(data[0], 8), FileBits(data[1..]));
    }
  }

  lemma EnterNothing(r: Poly)
    requires |r| == 32
    ensures EnterAll(r, []) == r
  {
  }

  lemma {:induction false} LowOnes(n: nat)
    ensures LowBits(Pow2(n) - 1, n) == Complement(Zeros(n))
  {
    if n > 0 {
      var x := Pow2(n) - 1;
      assert x == 2 * (Pow2(n - 1) - 1) + 1;
      LowDouble(x, Pow2(n - 1) - 1, 1, n - 1);
      LowOnes(n - 1);
      assert [1] + Complement(Zeros(n - 1)) == Complement(Zeros(n));
    }
  }

  lemma SumOnes(p: Poly)
    ensures Sum(Zeros(|p|), p) == p
    ensures Complement(Sum(p, Complement(Zeros(|p|)))) == p
  {
  }

  /** Complement, run, complement is the CRC-32 of the file. */
  lemma UpdateIsCrc(file: seq<Byte>)
    ensures IsCrc(file, Update(0, file))
  {
    hide LowBits, Xor, AddBytes, EnterAll, FileBits, IsRemainder;
    var ones := Complement(Zeros(32));
    BoundIsPow2();
    LowOnes(32);
    LowZero(32);
    XorBelow(0, ONES);
    LowXor(0, ONES, 32);
    SumOnes(ones);
    var start := Xor(0, ONES);
    AddBytesBits(start, file);
    var c := AddBytes(start, file);
    XorBelow(c, ONES);
    LowXor(c, ONES, 32);
    SumOnes(LowBits(c, 32));
    OnesRemainder(FileBits(file));
    hide Sum, Complement, Zeros, Pow2;
  }

  /** A file has one CRC only. */
  lemma OneCrc(file: seq<Byte>, crc: nat, other: nat)
    requires IsCrc(file, crc) && IsCrc(file, other)
    ensures crc == other
  {
    hide IsRemainder, LowBits;
    OneRemainder(FileBits(file), Complement(LowBits(crc, 32)), Complement(LowBits(other, 32)));
    SameComplement(LowBits(crc, 32), LowBits(other, 32));
    BoundIsPow2();
    SameBits(crc, other, 32);
  }

  lemma SameComplement(p: Poly, q: Poly)
    requires Complement(p) == Complement(q)
    ensures p == q
  {
    assert forall i | 0 <= i < |p| :: p[i] == 1 - Complement(p)[i] && q[i] == 1 - Complement(q)[i];
  }

  lemma {:induction false} SameBits(x: nat, y: nat, n: nat)
    requires x < Pow2(n) && y < Pow2(n) && LowBits(x, n) == LowBits(y, n)
    ensures x == y
  {
    if n > 0 {
      assert LowBits(x, n)[0] == x % 2 && LowBits(y, n)[0] == y % 2;
      assert LowBits(x, n)[1..] == LowBits(x / 2, n - 1) && LowBits(y, n)[1..] == LowBits(y / 2, n - 1);
      SameBits(x / 2, y / 2, n - 1);
    }
  }

  /** getFileCRC over a readable file. */
  method FileCrc(file: seq<Byte>) returns (crc: nat)
    ensures crc == Update(0, file) && IsCrc(file, crc)
  {
    hide Update, IsCrc;
    var pos := 0;
    var str := file[pos..if |file| - pos < BLOCK_SIZE then |file| else pos + BLOCK_SIZE];
    pos := pos + |str|;
    crc := 0;
    EmptyCrc();
    while |str| != 0
      invariant |str| <= pos <= |file| && str == file[pos - |str|..pos]
      invariant |str| == 0 ==> pos == |file|
      invariant crc == Update(0, file[..pos - |str|])
      decreases |file| - pos + |str|
    {
      UpdateAppend(0, file[..pos - |str|], str);
      assert file[..pos - |str|] + str == file[..pos];
      crc := Update(crc, str);
      str := file[pos..if |file| - pos < BLOCK_SIZE then |file| else pos + BLOCK_SIZE];
      pos := pos + |str|;
    }
    assert file[..pos] == file;
    UpdateIsCrc(file);
  }
}
