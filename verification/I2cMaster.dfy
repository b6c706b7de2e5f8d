/** i2c_master.c: every routine adds to the bus exactly the wave `I2cBus` decodes. */
module I2cMaster {
  import opened Bits
  import opened I2cBus

  class Master {
    var lastSda: Bit  // m_nLastSDA
    var lastScl: Bit  // m_nLastSCL
    var line: Line    // the wired-AND bus now
    ghost var wave: seq<Line>  // the bus so far

    ghost function Last(): Line
      reads this
    {
      Line(lastSda, lastScl)
    }

    constructor (lastSda: Bit, lastScl: Bit)
      ensures wave == [] && Last() == Line(lastSda, lastScl)
    {
      this.lastSda, this.lastScl := lastSda, lastScl;
      line := Line(lastSda, lastScl);
      wave := [];
    }

    /** i2c_master_setDC, with the slave's own drive of SDA (1 is released). */
    method SetDC(sda: nat, scl: nat, slave: Bit)
      modifies this
      ensures Last() == Line(sda % 2, scl % 2)
      ensures line == Line(if sda % 2 == 1 then slave else 0, scl % 2)
      ensures wave == old(wave) + [line]
    {
      lastSda, lastScl := sda % 2, scl % 2;
      line := Line(if lastSda == 1 then slave else 0, lastScl);
      wave := wave + [line];
    }

    /** i2c_master_getDC. */
    method GetDC() returns (bit: Bit)
      ensures bit == line.sda
    {
      bit := line.sda;
    }

    /** The clock loop of i2c_master_init, with a slave on the bus. */
    method ClockOut(slave: Slave, n: nat)
      requires n > 0
      modifies this
      ensures wave == old(wave) + Clocks(slave, n) && Last() == High(1)
    {
      var i := 0;
      while i < n
        invariant 0 <= i <= n && wave == old(wave) + Clocks(slave, i)
        invariant i > 0 ==> Last() == High(1)
      {
        SetDC(1, 0, 1);
        SetDC(1, 1, Drive(slave, i));
        i := i + 1;
      }
    }

    /** i2c_master_init. */
    method Init(slave: Slave)
      modifies this
      ensures wave == old(wave) + InitWave(slave) && Last() == High(1)
    {
      hide Clocks, Drive;
      SetDC(1, 0, 1);
      SetDC(0, 0, 1);
      SetDC(1, 0, 1);
      assert wave == old(wave) + [Low(1), Low(0), Low(1)];
      ClockOut(slave, INIT_CLOCKS);
      StopCondition(Drive(slave, INIT_CLOCKS - 1));
    }

    method StartCondition()
      modifies this
      ensures wave == old(wave) + StartWave(old(Last())) && Last() == High(0)
    {
      SetDC(1, lastScl, 1);
      SetDC(1, 1, 1);
      SetDC(0, 1, 1);
    }

    method StopCondition(slave: Bit := 1)
      modifies this
      ensures wave == old(wave) + StopWave(old(Last()), slave) && Last() == High(1)
    {
      SetDC(0, lastScl, 1);
      SetDC(0, 1, 1);
      SetDC(1, 1, slave);
    }

    /** i2c_master_setAck. */
    method SetAck(level: Bit)
      modifies this
      ensures wave == old(wave) + SetAckWave(old(Last()), level) && Last() == Low(1)
    {
      SetDC(lastSda, 0, 1);
      SetDC(level, 0, 1);
      SetDC(level, 1, 1);
      SetDC(level, 0, 1);
      SetDC(1, 0, 1);
    }

    /** i2c_master_getAck returns the level the slave holds during the ninth clock. */
    method GetAck(slave: Bit) returns (ack: Bit)
      modifies this
      ensures ack == slave
      ensures wave == old(wave) + GetAckWave(old(Last()), slave) && Last() == Low(1)
    {
      SetDC(lastSda, 0, 1);
      SetDC(1, 0, 1);
      SetDC(1, 1, slave);
      ack := GetDC();
      SetDC(1, 0, 1);
    }

    /** i2c_master_writeByte. */
    method WriteByte(wrdata: Byte)
      modifies this
      ensures wave == old(wave) + WriteWave(old(Last()), wrdata) && Last() == Low(wrdata % 2)
    {
      hide Shr, WriteBits, BitsN;
      ghost var bits := BitsOf(wrdata);
      NoneWritten(bits);
      SetDC(lastSda, 0, 1);
      var i := 7;
      while i >= 0
        invariant -1 <= i <= 7
        invariant wave == old(wave) + ([Low(old(lastSda))] + WriteBits(bits[..7 - i]))
        invariant i == -1 ==> Last() == Low(wrdata % 2)
      {
        var dat := Shr(wrdata, i);
        NextWritten(wrdata, 7 - i);
        SetDC(dat, 0, 1);
        SetDC(dat, 1, 1);
        SetDC(dat, 0, 1);
        i := i - 1;
      }
      assert bits[..8] == bits;
    }

    /** i2c_master_readByte returns the byte the slave clocks out, most significant bit first. */
    method ReadByte(slave: seq<Bit>) returns (retVal: Byte)
      requires |slave| == 8
      modifies this
      ensures retVal == Value(slave)
      ensures wave == old(wave) + ReadWave(old(Last()), slave) && Last() == Low(1)
    {
      hide Value, Or, ReadBits, Pow2;
      NoBits(slave);
      var acc := 0;
      SetDC(lastSda, 0, 1);
      var i := 0;
      while i < 8
        invariant 0 <= i <= 8
        invariant acc == Value(slave[..i]) * Pow2(8 - i) && acc < 256
        invariant wave == old(wave) + ([Low(old(lastSda))] + ReadBits(slave[..i]))
      {
        SetDC(1, 0, 1);
        SetDC(1, 1, slave[i]);
        var k := GetDC();
        NextBit(slave, i);
        acc := Or(acc, k * Pow2(7 - i));
        i := i + 1;
      }
      assert slave[..8] == slave;
      SetDC(1, 0, 1);
      retVal := acc;
    }

    /** One operation; a byte travels with its acknowledge. Returns what the slave answered. */
    method Perform(op: Op) returns (answer: nat)
      modifies this
      ensures wave == old(wave) + OpWave(old(Last()), op) && Last() == LastAfter(op)
      ensures op.Write? ==> answer == op.slaveAck
      ensures op.Read? ==> answer == op.slaveByte
    {
      answer := 0;
      match op
      case Start => StartCondition();
      case Stop => StopCondition();
      case Write(b, ack) =>
        WriteByte(b);
        answer := GetAck(ack);
      case Read(b, ack) =>
        ValueOfByte(b);
        answer := ReadByte(BitsOf(b));
        SetAck(ack);
    }

    /** Any sequence of operations puts on the bus the wave that `RecoveredIffWellFormed` is about. */
    method PerformAll(ops: seq<Op>)
      modifies this
      ensures wave == old(wave) + Wave(old(Last()), ops)
    {
      hide OpWave;
      var i := 0;
      while i < |ops|
        invariant 0 <= i <= |ops|
        invariant old(wave) + Wave(old(Last()), ops) == wave + Wave(Last(), ops[i..])
      {
        assert ops[i..][0] == ops[i] && ops[i..][1..] == ops[i + 1..];
        var answer := Perform(ops[i]);
        i := i + 1;
      }
      assert ops[|ops|..] == [];
    }
  }

  lemma ValueOfByte(b: Byte)
    ensures Value(BitsOf(b)) == b
  {
    Pow2Is256();
    ValueOfBits(b, 8);
  }

  lemma NoneWritten(bits: seq<Bit>)
    ensures WriteBits(bits[..0]) == []
  {
  }

  /** One pass of writeByte's loop puts the next bit on the bus. */
  lemma NextWritten(b: Byte, j: nat)
    requires j < 8
    ensures var bits, bit := BitsOf(b), Shr(b, 7 - j) % 2;
      WriteBits(bits[..j + 1]) == WriteBits(bits[..j]) + [Low(bit), High(bit), Low(bit)]
    ensures j == 7 ==> Shr(b, 7 - j) == b
  {
    hide BitsN;
    var bits := BitsOf(b);
    BitIsShift(b, 8, j);
    assert bits[..j + 1][..j] == bits[..j];
  }

  lemma NoBits(slave: seq<Bit>)
    ensures Value(slave[..0]) == 0 && Pow2(0) == 1 && ReadBits(slave[..0]) == []
  {
  }

  /** One pass of readByte's loop: the bit lands just below the ones read before. */
  lemma NextBit(slave: seq<Bit>, i: nat)
    requires i < |slave| == 8
    ensures Or(Value(slave[..i]) * Pow2(8 - i), slave[i] * Pow2(7 - i)) == Value(slave[..i + 1]) * Pow2(7 - i)
    ensures Value(slave[..i + 1]) * Pow2(7 - i) < 256
    ensures ReadBits(slave[..i + 1]) == ReadBits(slave[..i]) + [Low(1), High(slave[i])]
  {
    assert slave[..i + 1][..i] == slave[..i];
    OrNextBit(Value(slave[..i]), slave[i], 7 - i);
    TopBitsBound(slave[..i + 1], 7 - i);
  }

  /** `retVal |= k << n` where the bits of `retVal` so far stand above bit n. */
  lemma OrNextBit(v: nat, k: Bit, n: nat)
    ensures Or(v * Pow2(n + 1), k * Pow2(n)) == (2 * v + k) * Pow2(n)
  {
    assert Pow2(n + 1) == 2 * Pow2(n);
    assert v * Pow2(n + 1) == (2 * v) * Pow2(n);
    if k == 0 {
      OrZero(v * Pow2(n + 1));
    } else {
      OrDisjoint(Pow2(n), v, n + 1);
    }
  }

  /** Bits seen so far, shifted to the top of the byte, stay a byte. */
  lemma TopBitsBound(bits: seq<Bit>, n: nat)
    requires |bits| + n == 8
    ensures Value(bits) * Pow2(n) < 256
  {
    ValueBound(bits);
    Pow2Add(|bits|, n);
    Pow2Is256();
    Scale(Value(bits), Pow2(|bits|), Pow2(n));
  }

  lemma Scale(a: nat, b: nat, p: nat)
    requires a < b && 0 < p
    ensures a * p < b * p
  {
    assert b * p == a * p + (b - a) * p;
  }

  lemma {:induction false} ValueBound(bits: seq<Bit>)
    ensures Value(bits) < Pow2(|bits|)
  {
    if bits != [] {
      ValueBound(bits[..|bits| - 1]);
    }
  }
}
