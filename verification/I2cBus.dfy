/**
 The waveform of the bit-banged I2C master and the bus decoder that reads it
 back, after UM10204 sections 3.1.3 to 3.1.6.
 */
module I2cBus {
  import opened Bits

  datatype Line = Line(sda: Bit, scl: Bit)

  datatype BusEvent = StartSeen | StopSeen | ByteSeen(value: int, ack: Bit)

  // ----- the decoder

  datatype Pending = None | Some(bit: Bit)

  /**
   `pending` is the bit sampled at the last SCL rise. It counts when SCL falls
   again, unless a START or STOP came in between. Bits count only while the bus
   is busy; nine of them are a byte and its acknowledge.
   */
  datatype Decoder = Decoder(prev: Line, pending: Pending, bits: seq<Bit>, busy: bool, events: seq<BusEvent>)

  function Value(bits: seq<Bit>): nat {
    if bits == [] then 0 else 2 * Value(bits[..|bits| - 1]) + bits[|bits| - 1]
  }

  function Commit(d: Decoder): Decoder {
    if !d.busy || d.pending.None? then d.(pending := None)
    else
      var bits := d.bits + [d.pending.bit];
      if |bits| == 9 then
        d.(pending := None, bits := [], events := d.events + [ByteSeen(Value(bits[..8]), bits[8])])
      else d.(pending := None, bits := bits)
  }

  function Sample(d: Decoder, l: Line): Decoder {
    var e :=
      if d.prev.scl == 1 && l.scl == 1 && d.prev.sda != l.sda then
        if l.sda == 0 then d.(pending := None, bits := [], busy := true, events := d.events + [StartSeen])
        else d.(pending := None, bits := [], busy := false, events := d.events + [StopSeen])
      else if d.prev.scl == 0 && l.scl == 1 then d.(pending := Some(l.sda))
      else if d.prev.scl == 1 && l.scl == 0 then Commit(d)
      else d;
    e.(prev := l)
  }

  function Decode(d: Decoder, wave: seq<Line>): Decoder {
    if wave == [] then d else Sample(Decode(d, wave[..|wave| - 1]), wave[|wave| - 1])
  }

  lemma {:induction false} DecodeAppend(d: Decoder, a: seq<Line>, b: seq<Line>)
    ensures Decode(d, a + b) == Decode(Decode(d, a), b)
  {
    if b == [] {
      assert a + b == a;
    } else {
      var n := |b| - 1;
      assert (a + b)[..|a| + n] == a + b[..n];
      DecodeAppend(d, a, b[..n]);
    }
  }

  // ----- the master's waveform, with the slave's contribution to each high phase

  function Low(sda: Bit): Line { Line(sda, 0) }

  function High(sda: Bit): Line { Line(sda, 1) }

  function StartWave(last: Line): seq<Line> {
    [Line(1, last.scl), High(1), High(0)]
  }

  /** The slave may still hold SDA down when the master lets go of it. */
  function StopWave(last: Line, slave: Bit := 1): seq<Line> {
    [Line(0, last.scl), High(0), High(slave)]
  }

  /** The bit loop of writeByte. */
  function WriteBits(bits: seq<Bit>): seq<Line> {
    if bits == [] then []
    else
      var b := bits[|bits| - 1];
      WriteBits(bits[..|bits| - 1]) + [Low(b), High(b), Low(b)]
  }

  function WriteWave(last: Line, b: Byte): seq<Line> {
    [Low(last.sda)] + WriteBits(BitsOf(b))
  }

  function GetAckWave(last: Line, ack: Bit): seq<Line> {
    [Low(last.sda), Low(1), High(ack), Low(1)]
  }

  function SetAckWave(last: Line, level: Bit): seq<Line> {
    [Low(last.sda), Low(level), High(level), Low(level), Low(1)]
  }

  /** The bit loop of readByte: the master releases SDA and the slave holds each bit. */
  function ReadBits(bits: seq<Bit>): seq<Line> {
    if bits == [] then []
    else ReadBits(bits[..|bits| - 1]) + [Low(1), High(bits[|bits| - 1])]
  }

  function ReadWave(last: Line, bits: seq<Bit>): seq<Line> {
    [Low(last.sda)] + ReadBits(bits) + [Low(1)]
  }

  /** The low `n` bits of `b`, most significant first. */
  function BitsN(b: nat, n: nat): (bits: seq<Bit>)
    ensures |bits| == n
  {
    if n == 0 then [] else BitsN(b / 2, n - 1) + [b % 2]
  }

  function BitsOf(b: Byte): seq<Bit> {
    BitsN(b, 8)
  }

  /** The issued operations; a byte is a writeByte with getAck, or a readByte with setAck. */
  datatype Op = Start | Stop | Write(b: Byte, slaveAck: Bit) | Read(slaveByte: Byte, ack: Bit)

  function OpWave(last: Line, op: Op): seq<Line> {
    match op
    case Start => StartWave(last)
    case Stop => StopWave(last)
    case Write(b, ack) => WriteWave(last, b) + GetAckWave(Low(b % 2), ack)
    case Read(b, ack) => ReadWave(last, BitsOf(b)) + SetAckWave(Low(1), ack)
  }

  function LastAfter(op: Op): Line {
    match op
    case Start => High(0)
    case Stop => High(1)
    case _ => Low(1)
  }

  function Wave(last: Line, ops: seq<Op>): seq<Line>
    decreases |ops|
  {
    if ops == [] then [] else OpWave(last, ops[0]) + Wave(LastAfter(ops[0]), ops[1..])
  }

  function Issued(ops: seq<Op>): seq<BusEvent>
    decreases |ops|
  {
    if ops == [] then []
    else
      [match ops[0]
       case Start => StartSeen
       case Stop => StopSeen
       case Write(b, ack) => ByteSeen(b, ack)
       case Read(b, ack) => ByteSeen(b, ack)] + Issued(ops[1..])
  }

  // ----- bits

  lemma {:induction false} ValueOfBits(b: nat, n: nat)
    requires b < Pow2(n)
    ensures Value(BitsN(b, n)) == b
  {
    if n > 0 {
      ValueOfBits(b / 2, n - 1);
      assert BitsN(b, n)[..n - 1] == BitsN(b / 2, n - 1);
    }
  }

  /** Shifting and masking, as writeByte does, picks the bits most significant first. */
  lemma {:induction false} BitIsShift(b: nat, n: nat, j: nat)
    requires j < n
    ensures BitsN(b, n)[j] == Shr(b, n - 1 - j) % 2
  {
    if j < n - 1 {
      BitIsShift(b / 2, n - 1, j);
    }
  }

  lemma Decode0(d: Decoder)
    ensures Decode(d, []) == d
  {
  }

  lemma Decode1(d: Decoder, a: Line)
    ensures Decode(d, [a]) == Sample(d, a)
  {
    assert [a][..0] == [];
  }

  lemma Decode2(d: Decoder, a: Line, b: Line)
    ensures Decode(d, [a, b]) == Sample(Sample(d, a), b)
  {
    assert [a, b] == [a] + [b];
    DecodeAppend(d, [a], [b]);
    Decode1(d, a);
    Decode1(Sample(d, a), b);
  }

  lemma Decode3(d: Decoder, a: Line, b: Line, c: Line)
    ensures Decode(d, [a, b, c]) == Sample(Sample(Sample(d, a), b), c)
  {
    assert [a, b, c] == [a, b] + [c];
    DecodeAppend(d, [a, b], [c]);
    Decode2(d, a, b);
    Decode1(Sample(Sample(d, a), b), c);
  }

  /** One clock pulse on a quiet bus hands a busy decoder one bit, however SDA moves while SCL is low. */
  lemma ClockBit(d: Decoder, x: Bit, b: Bit, y: Bit)
    requires d.prev.scl == 0 && d.pending == None
    ensures Sample(Sample(Sample(d, Low(x)), High(b)), Low(y)) == Commit(d.(pending := Some(b))).(prev := Low(y))
  {
  }

  lemma LowQuiet(d: Decoder, x: Bit)
    requires d.prev.scl == 0
    ensures Sample(d, Low(x)) == d.(prev := Low(x))
  {
  }

  /** SCL falls, or stays low, with no bit pending. */
  lemma FirstLow(d: Decoder, x: Bit)
    requires d.pending == None
    ensures Sample(d, Low(x)) == d.(prev := Low(x))
  {
  }

  lemma LastBit(b: Byte)
    ensures BitsOf(b)[7] == b % 2
  {
  }

  function Taken(d: Decoder, bits: seq<Bit>): Decoder {
    if d.busy then d.(bits := d.bits + bits) else d
  }

  lemma {:induction false} WriteBitsDecoded(d: Decoder, bits: seq<Bit>)
    requires d.prev.scl == 0 && d.pending == None && |d.bits| + |bits| <= 8
    ensures Decode(d, WriteBits(bits)) == Taken(d, bits).(prev := if bits == [] then d.prev else Low(bits[|bits| - 1]))
  {
    Decode0(d);
    hide Decode, Sample;
    if bits != [] {
      var n := |bits| - 1;
      var b := bits[n];
      WriteBitsDecoded(d, bits[..n]);
      DecodeAppend(d, WriteBits(bits[..n]), [Low(b), High(b), Low(b)]);
      var e := Decode(d, WriteBits(bits[..n]));
      Decode3(e, Low(b), High(b), Low(b));
      ClockBit(e, b, b, b);
      assert bits[..n] + [b] == bits;
    }
  }

  lemma {:induction false} ReadBitsDecoded(d: Decoder, bits: seq<Bit>)
    requires d.prev.scl == 0 && d.pending == None && |d.bits| + |bits| <= 8
    ensures Decode(d, ReadBits(bits) + [Low(1)]) == Taken(d, bits).(prev := Low(1))
  {
    hide Decode, Sample;
    if bits == [] {
      assert ReadBits(bits) + [Low(1)] == [Low(1)];
      LowQuiet(d, 1);
      Decode1(d, Low(1));
    } else {
      var n := |bits| - 1;
      var b := bits[n];
      ReadBitsDecoded(d, bits[..n]);
      var e := Decode(d, ReadBits(bits[..n]) + [Low(1)]);
      assert ReadBits(bits) + [Low(1)] == (ReadBits(bits[..n]) + [Low(1)]) + [High(b), Low(1)];
      DecodeAppend(d, ReadBits(bits[..n]) + [Low(1)], [High(b), Low(1)]);
      Decode2(e, High(b), Low(1));
      ClockBit(e, 1, b, 1);
      LowQuiet(e, 1);
      assert bits[..n] + [b] == bits;
    }
  }

  // ----- what the decoder makes of any sequence of operations

  /** Where the bus stands between operations; `Clocked` is a byte sent with no START before it. */
  datatype Phase = Free | Started | Busy | Clocked

  function LastOf(p: Phase): Line {
    match p
    case Free => High(1)
    case Started => High(0)
    case _ => Low(1)
  }

  predicate At(d: Decoder, p: Phase) {
    && d.pending == None && d.bits == [] && d.busy == (p.Started? || p.Busy?)
    && (if p.Free? || p.Started? then d.prev == LastOf(p) else d.prev.scl == 0)
  }

  function Next(p: Phase, op: Op): Phase {
    match op
    case Start => Started
    case Stop => Free
    case _ => if p.Started? || p.Busy? then Busy else Clocked
  }

  function EventOf(op: Op): BusEvent {
    match op
    case Start => StartSeen
    case Stop => StopSeen
    case Write(b, ack) => ByteSeen(b, ack)
    case Read(b, ack) => ByteSeen(b, ack)
  }

  function Emitted(p: Phase, op: Op): seq<BusEvent> {
    match op
    case Start => if p.Started? then [StopSeen, StartSeen] else [StartSeen]
    case Stop => if p.Free? then [StartSeen, StopSeen] else [StopSeen]
    case _ => if p.Started? || p.Busy? then [EventOf(op)] else []
  }

  function AllEmitted(p: Phase, ops: seq<Op>): seq<BusEvent>
    decreases |ops|
  {
    if ops == [] then [] else Emitted(p, ops[0]) + AllEmitted(Next(p, ops[0]), ops[1..])
  }

  /** Eight bits and an acknowledge. */
  lemma NinthBit(d: Decoder, b: Byte, x: Bit, ack: Bit)
    requires d.prev.scl == 0 && d.pending == None && d.bits == []
    ensures Commit(Taken(d, BitsOf(b)).(pending := Some(ack)))
         == (if d.busy then d.(events := d.events + [ByteSeen(b, ack)]) else d)
  {
    assert Pow2(8) == 256 by { Pow2Is256(); }
    ValueOfBits(b, 8);
    var bits := BitsOf(b) + [ack];
    assert bits[..8] == BitsOf(b);
    assert [] + BitsOf(b) == BitsOf(b);
  }

  lemma WriteDecoded(d: Decoder, last: Line, b: Byte, ack: Bit)
    requires d.pending == None && d.bits == []
    ensures Decode(d, OpWave(last, Write(b, ack)))
         == (if d.busy then d.(events := d.events + [ByteSeen(b, ack)]) else d).(prev := Low(1))
  {
    hide Sample, Decode, BitsN;
    var bits := BitsOf(b);
    var d1 := Sample(d, Low(last.sda));
    FirstLow(d, last.sda);
    var d2 := Taken(d1, bits).(prev := Low(b % 2));
    WriteBitsDecoded(d1, bits);
    LastBit(b);
    Decode1(d, Low(last.sda));
    DecodeAppend(d, [Low(last.sda)], WriteBits(bits));
    DecodeAppend(d, WriteWave(last, b), GetAckWave(Low(b % 2), ack));
    Decode1(d2, Low(b % 2));
    Decode3(d2, Low(1), High(ack), Low(1));
    assert GetAckWave(Low(b % 2), ack) == [Low(b % 2)] + [Low(1), High(ack), Low(1)];
    DecodeAppend(d2, [Low(b % 2)], [Low(1), High(ack), Low(1)]);
    LowQuiet(d2, b % 2);
    ClockBit(d2, 1, ack, 1);
    NinthBit(d1, b, 1, ack);
  }

  lemma ReadDecoded(d: Decoder, last: Line, b: Byte, ack: Bit)
    requires d.pending == None && d.bits == []
    ensures Decode(d, OpWave(last, Read(b, ack)))
         == (if d.busy then d.(events := d.events + [ByteSeen(b, ack)]) else d).(prev := Low(1))
  {
    hide Sample, Decode, BitsN;
    var bits := BitsOf(b);
    var d1 := Sample(d, Low(last.sda));
    FirstLow(d, last.sda);
    var d2 := Taken(d1, bits).(prev := Low(1));
    Decode1(d, Low(last.sda));
    ReadBitsDecoded(d1, bits);
    DecodeAppend(d, [Low(last.sda)], ReadBits(bits) + [Low(1)]);
    assert ReadWave(last, bits) == [Low(last.sda)] + (ReadBits(bits) + [Low(1)]);
    var ackWave := [Low(1), Low(ack)] + [High(ack), Low(ack), Low(1)];
    assert SetAckWave(Low(1), ack) == ackWave;
    DecodeAppend(d, ReadWave(last, bits), ackWave);
    DecodeAppend(d2, [Low(1), Low(ack)], [High(ack), Low(ack), Low(1)]);
    Decode2(d2, Low(1), Low(ack));
    var d3 := d2.(prev := Low(ack));
    LowQuiet(d2, 1);
    LowQuiet(d2.(prev := Low(1)), ack);
    Decode3(d3, High(ack), Low(ack), Low(1));
    LowQuiet(d3, ack);
    ClockBit(d3, ack, ack, ack);
    LowQuiet(Commit(d3.(pending := Some(ack))).(prev := Low(ack)), 1);
    NinthBit(d1, b, ack, ack);
  }

  /** One operation, from any of the four phases, well-formed there or not. */
  lemma OpDecoded(d: Decoder, p: Phase, op: Op)
    requires At(d, p)
    ensures var e := Decode(d, OpWave(LastOf(p), op));
      At(e, Next(p, op)) && e.events == d.events + Emitted(p, op) && LastAfter(op) == LastOf(Next(p, op))
  {
    hide Decode, WriteWave, ReadWave;
    var last := LastOf(p);
    match op
    case Start => Decode3(d, Line(1, last.scl), High(1), High(0));
    case Stop => Decode3(d, Line(0, last.scl), High(0), High(1));
    case Write(b, ack) => WriteDecoded(d, last, b, ack);
    case Read(b, ack) => ReadDecoded(d, last, b, ack);
  }

  /** The decoder's whole output for any sequence of operations. */
  lemma {:induction false} RunDecoded(d: Decoder, p: Phase, ops: seq<Op>)
    requires At(d, p)
    ensures Decode(d, Wave(LastOf(p), ops)).events == d.events + AllEmitted(p, ops)
    decreases |ops|
  {
    Decode0(d);
    hide At, OpWave, Emitted, Decode, Next, LastOf, LastAfter;
    if ops != [] {
      var e := Decode(d, OpWave(LastOf(p), ops[0]));
      OpDecoded(d, p, ops[0]);
      DecodeAppend(d, OpWave(LastOf(p), ops[0]), Wave(LastAfter(ops[0]), ops[1..]));
      RunDecoded(e, Next(p, ops[0]), ops[1..]);
    }
  }

  // ----- exactly the well-formed runs are recovered

  /** START only from a free bus or after a byte, STOP and bytes only between START and STOP. */
  predicate WellFormed(p: Phase, ops: seq<Op>)
    decreases |ops|
  {
    ops == [] ||
    ( && (match ops[0]
          case Start => p.Free? || p.Busy?
          case Stop => p.Started? || p.Busy?
          case _ => p.Started? || p.Busy?)
      && WellFormed(Next(p, ops[0]), ops[1..]))
  }

  /** Once bytes are clocked with no START, the next event the bus shows is a START or a STOP. */
  lemma {:induction false} ClockedIsSilent(ops: seq<Op>)
    ensures var es := AllEmitted(Clocked, ops); es == [] || !es[0].ByteSeen?
    decreases |ops|
  {
    if ops != [] {
      ClockedIsSilent(ops[1..]);
    }
  }

  lemma {:induction false} EmittedIffWellFormed(p: Phase, ops: seq<Op>)
    requires !p.Clocked?
    ensures AllEmitted(p, ops) == Issued(ops) <==> WellFormed(p, ops)
    decreases |ops|
  {
    if ops != [] {
      var op, next := ops[0], Next(p, ops[0]);
      if next.Clocked? {
        ClockedIsSilent(ops[1..]);
        assert Issued(ops)[0] == EventOf(op);
      } else {
        EmittedIffWellFormed(next, ops[1..]);
        var rest, issued := AllEmitted(next, ops[1..]), Issued(ops[1..]);
        if Emitted(p, op) == [EventOf(op)] {
          assert ([EventOf(op)] + rest)[1..] == rest;
          assert ([EventOf(op)] + issued)[1..] == issued;
        } else {
          assert AllEmitted(p, ops)[0] != Issued(ops)[0];
        }
      }
    }
  }

  const IdleDecoder: Decoder := Decoder(High(1), None, [], false, [])

  /**
   From an idle bus the decoder recovers exactly the issued START, byte,
   acknowledge and STOP events if and only if the operations are well-formed.
   */
  lemma RecoveredIffWellFormed(ops: seq<Op>)
    ensures Decode(IdleDecoder, Wave(High(1), ops)).events == Issued(ops) <==> WellFormed(Free, ops)
  {
    RunDecoded(IdleDecoder, Free, ops);
    EmittedIffWellFormed(Free, ops);
    assert [] + AllEmitted(Free, ops) == AllEmitted(Free, ops);
  }

  // ----- what the slave does while SCL is low does not matter

  /** The same clock and the same SDA wherever SCL is high. */
  predicate Agree(a: seq<Line>, b: seq<Line>) {
    |a| == |b| && forall i | 0 <= i < |a| :: a[i].scl == b[i].scl && (a[i].scl == 1 ==> a[i] == b[i])
  }

  predicate Same(d: Decoder, e: Decoder) {
    d.(prev := e.prev) == e && d.prev.scl == e.prev.scl && (d.prev.scl == 1 ==> d.prev == e.prev)
  }

  lemma {:induction false} LowPhasesIgnored(d: Decoder, a: seq<Line>, b: seq<Line>)
    requires Agree(a, b)
    ensures Same(Decode(d, a), Decode(d, b))
  {
    if a != [] {
      var n := |a| - 1;
      LowPhasesIgnored(d, a[..n], b[..n]);
    }
  }

  // ----- SDA moves while SCL is high only to signal START and STOP (UM10204 section 3.1.3)

  function HighEdges(prev: Line, wave: seq<Line>): nat {
    if wave == [] then 0
    else
      var before := if |wave| == 1 then prev else wave[|wave| - 2];
      var l := wave[|wave| - 1];
      HighEdges(prev, wave[..|wave| - 1]) + (if before.scl == 1 && l.scl == 1 && before.sda != l.sda then 1 else 0)
  }

  function Signals(events: seq<BusEvent>): nat {
    if events == [] then 0
    else Signals(events[..|events| - 1]) + (if events[|events| - 1].ByteSeen? then 0 else 1)
  }

  lemma SampleSignals(d: Decoder, l: Line)
    ensures Signals(Sample(d, l).events)
      == Signals(d.events) + (if d.prev.scl == 1 && l.scl == 1 && d.prev.sda != l.sda then 1 else 0)
  {
    var e := Sample(d, l);
    if |e.events| > |d.events| {
      assert e.events[..|e.events| - 1] == d.events;
    }
  }

  lemma {:induction false} EdgesAreSignals(d: Decoder, wave: seq<Line>)
    ensures Signals(Decode(d, wave).events) == Signals(d.events) + HighEdges(d.prev, wave)
    ensures Decode(d, wave).prev == if wave == [] then d.prev else wave[|wave| - 1]
  {
    if wave != [] {
      var n := |wave| - 1;
      EdgesAreSignals(d, wave[..n]);
      SampleSignals(Decode(d, wave[..n]), wave[n]);
    }
  }

  /** In a well-formed run SDA changes under a high SCL exactly once for every START and STOP, and never otherwise. */
  lemma StableExceptSignals(ops: seq<Op>)
    requires WellFormed(Free, ops)
    ensures HighEdges(High(1), Wave(High(1), ops)) == Signals(Issued(ops))
  {
    RecoveredIffWellFormed(ops);
    EdgesAreSignals(IdleDecoder, Wave(High(1), ops));
  }

  // ----- i2c_master_init

  /**
   A slave caught in the middle of a transfer: it has bits still to drive, one a
   clock, and then lets go; or it takes `toAck` more bits, acknowledges them as a
   byte, and goes on so for every byte it is sent.
   */
  datatype Slave = Sending(pending: seq<Bit>) | Receiving(toAck: nat)

  /** What the slave does to SDA from the fall of SCL before clock `k` to the fall after it; 1 is released. */
  function Drive(slave: Slave, k: nat): Bit {
    match slave
    case Sending(pending) => if k < |pending| then pending[k] else 1
    case Receiving(toAck) => if k >= toAck && (k - toAck) % 9 == 0 then 0 else 1
  }

  /** `n` clock pulses with SDA released by the master. */
  function Clocks(slave: Slave, n: nat): seq<Line> {
    if n == 0 then [] else Clocks(slave, n - 1) + [Low(1), High(Drive(slave, n - 1))]
  }

  const INIT_CLOCKS: nat := 28

  /** The initialisation. SCL stays high from its last clock through its STOP, so the slave keeps that clock's bit. */
  function InitWave(slave: Slave): seq<Line> {
    [Low(1), Low(0), Low(1)] + Clocks(slave, INIT_CLOCKS) + StopWave(High(1), Drive(slave, INIT_CLOCKS - 1))
  }

  /** The slave holds SDA down in the last of the clocks. */
  predicate HoldsOn(slave: Slave) {
    match slave
    case Sending(pending) => |pending| >= INIT_CLOCKS && pending[INIT_CLOCKS - 1] == 0
    case Receiving(toAck) => toAck < INIT_CLOCKS && toAck % 9 == 0
  }

  /** Whatever the bus was doing, initialisation frees it if and only if no slave holds on to the last clock. */
  lemma InitFrees(d: Decoder, slave: Slave)
    ensures At(Decode(d, InitWave(slave)), Free) <==> !HoldsOn(slave)
  {
    var n := INIT_CLOCKS - 1;
    var bit := Drive(slave, n);
    var before := [Low(1), Low(0), Low(1)] + Clocks(slave, n) + [Low(1)];
    var tail := [High(bit)] + [High(0), High(0), High(bit)];
    assert InitWave(slave) == before + tail;
    DecodeAppend(d, before, tail);
    var e := Decode(d, before);
    DecodeAppend(e, [High(bit)], [High(0), High(0), High(bit)]);
    Decode1(e, High(bit));
    var f := Sample(e, High(bit));
    Decode3(f, High(0), High(0), High(bit));
    hide Decode;
    StopFrees(f, bit);
    LastBitHeld(slave);
  }

  lemma StopFrees(f: Decoder, atStop: Bit)
    requires f.prev.scl == 1
    ensures At(Sample(Sample(Sample(f, High(0)), High(0)), High(atStop)), Free) <==> atStop == 1
  {
  }

  lemma LastBitHeld(slave: Slave)
    ensures Drive(slave, INIT_CLOCKS - 1) == 0 <==> HoldsOn(slave)
  {
  }

  /** A slave caught anywhere in a byte it sends and its acknowledge is always freed. */
  lemma SenderFreed(d: Decoder, pending: seq<Bit>)
    requires |pending| <= 9
    ensures At(Decode(d, InitWave(Sending(pending))), Free)
  {
    InitFrees(d, Sending(pending));
  }

  /** A slave caught anywhere in a byte it is sent is freed unless its acknowledge was due at the first clock. */
  lemma ReceiverFreed(d: Decoder, toAck: nat)
    requires toAck <= 8
    ensures At(Decode(d, InitWave(Receiving(toAck))), Free) <==> toAck != 0
  {
    InitFrees(d, Receiving(toAck));
  }

  /** Slaves that hold on: one about to acknowledge, whose fourth acknowledge meets the STOP, and 28 zeros to send. */
  lemma SlavesThatHoldOn(d: Decoder)
    ensures !At(Decode(d, InitWave(Receiving(0))), Free)
    ensures !At(Decode(d, InitWave(Sending(seq(INIT_CLOCKS, _ => 0)))), Free)
  {
    InitFrees(d, Receiving(0));
    InitFrees(d, Sending(seq(INIT_CLOCKS, _ => 0)));
  }
}
