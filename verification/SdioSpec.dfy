/**
 The SDIO slave's buffer protocol on values: what one load and one end-of-read
 interrupt do to the two buffer lists, and what every run of them keeps.
 `SdioSlave` proves the pointer code against these functions.
 */
module SdioSpec {
  import opened Bits

  const RX_BUFFER_SIZE: nat := 512
  const RX_BUFFER_NUM: nat := 4

  type Bytes = seq<Byte>

  /** The fields of the status word the host polls (SLC_HOST_CONF_W2). */
  datatype Status = Status(commCnt: nat, rdEmpty: bool, rxLength: nat, rxAvailable: bool)

  /**
   `toSend` and `sended` are the fills of the two linked lists, head first.
   `started` is the hardware's side: the receive link runs and its end-of-read
   interrupt is still to come.
   */
  datatype Slave = Slave(toSend: seq<Bytes>, sended: seq<Bytes>, hasRead: bool, started: bool, status: Status)

  const InitialSlave: Slave :=
    Slave([], [[], [], [], []], true, false, Status(7, true, 0, false))

  // ----- operations

  /** rx_buff_load_done: announce `n` bytes and start the link; nothing at all for 0. */
  function LoadDone(s: Slave, n: nat): Slave {
    if n == 0 then s
    else
      var len := if n > RX_BUFFER_SIZE then RX_BUFFER_SIZE else n;
      s.(started := true, status := s.status.(rdEmpty := false, rxAvailable := true, rxLength := len))
  }

  datatype Filled = Filled(toSend: seq<Bytes>, sended: seq<Bytes>, accepted: nat, returned: nat)

  /** The copy loop of sdio_load_data, with the count it returns and the count it took. */
  function FillBuffers(toSend: seq<Bytes>, sended: seq<Bytes>, data: Bytes): Filled
    requires sended != [] && FillShape(sended)
    decreases |sended|
  {
    var room := RX_BUFFER_SIZE - |sended[0]|;
    if data == [] then Filled(toSend, sended, 0, 0)
    else if |data| < room then Filled(toSend, sended[0 := sended[0] + data], |data|, 0)
    else
      var full := toSend + [sended[0] + data[..room]];
      if |sended| == 1 then Filled(full, [], room, room)
      else
        var rest := FillBuffers(full, sended[1..], data[room..]);
        rest.(accepted := room + rest.accepted, returned := room + rest.returned)
  }

  /** sdio_try_to_load. */
  function TryToLoad(s: Slave): Slave {
    if s.hasRead && s.toSend != [] then LoadDone(s, |s.toSend[0]|).(hasRead := false) else s
  }

  function LoadFills(s: Slave, data: Bytes): Filled
    requires Shape(s)
  {
    if s.sended == [] then Filled(s.toSend, [], 0, 0) else FillBuffers(s.toSend, s.sended, data)
  }

  /** The tail of sdio_load_data: an empty queue gets the partly filled buffer and is started. */
  function Promote(s: Slave): Slave {
    if s.toSend == [] && s.sended != [] then TryToLoad(s.(toSend := [s.sended[0]], sended := s.sended[1..])) else s
  }

  /** sdio_load_data. */
  function Load(s: Slave, data: Bytes): Slave
    requires Shape(s)
  {
    var f := LoadFills(s, data);
    Promote(s.(toSend := f.toSend, sended := f.sended))
  }

  /** Announce the next buffer, promoting a partly filled spare one when the queue is empty. */
  function Restart(s: Slave): Slave
    requires s.toSend == [] ==> s.sended != []
  {
    if s.toSend != [] then
      LoadDone(s, |s.toSend[0]|).(hasRead := false)
    else if s.sended[0] != [] then
      LoadDone(s.(toSend := [s.sended[0]], sended := s.sended[1..]), |s.sended[0]|).(hasRead := false)
    else s
  }

  /** The RX-EOF branch of sdio_slave_isr: rx_buff_read_done, then sdio_read_done_process. */
  function ReadDone(s: Slave): Slave
    requires s.toSend != []
  {
    Restart(s.(started := false, hasRead := true, toSend := s.toSend[1..], sended := s.sended + [[]],
      status := Status((s.status.commCnt + 1) % 8, true, 0, false)))
  }

  // ----- invariants

  /** Every spare buffer after the first is empty and the first is not full. */
  predicate FillShape(sended: seq<Bytes>) {
    forall i | 0 <= i < |sended| :: |sended[i]| < RX_BUFFER_SIZE && (i > 0 ==> sended[i] == [])
  }

  /** Every queued buffer after the first is exactly full. */
  predicate QueueShape(toSend: seq<Bytes>) {
    forall i | 0 <= i < |toSend| :: |toSend[i]| <= RX_BUFFER_SIZE && (i > 0 ==> |toSend[i]| == RX_BUFFER_SIZE)
  }

  predicate Shape(s: Slave) {
    |s.toSend| + |s.sended| == RX_BUFFER_NUM && FillShape(s.sended) && QueueShape(s.toSend)
  }

  predicate Quiet(s: Slave) {
    !s.started && s.status.rdEmpty && s.status.rxLength == 0 && !s.status.rxAvailable
  }

  /** Nothing queued and nothing waiting to be queued. */
  predicate Idle(s: Slave) {
    s.toSend == [] && s.hasRead && Quiet(s) && s.sended != [] && s.sended[0] == []
  }

  /** The head buffer is announced with its true length and the link runs. */
  predicate Streaming(s: Slave) {
    && s.toSend != [] && s.toSend[0] != [] && !s.hasRead && s.started
    && !s.status.rdEmpty && s.status.rxAvailable && s.status.rxLength == |s.toSend[0]|
  }

  /** Buffers are queued but the link was never started for them. */
  predicate Stranded(s: Slave) {
    && s.toSend != [] && Quiet(s)
    && (if s.hasRead then |s.toSend[0]| == RX_BUFFER_SIZE else s.toSend[0] == [])
  }

  predicate Inv(s: Slave) {
    Shape(s) && (Idle(s) || Streaming(s) || Stranded(s))
  }

  // ----- contents

  function Flat(bufs: seq<Bytes>): Bytes {
    if bufs == [] then [] else bufs[0] + Flat(bufs[1..])
  }

  lemma {:induction false} FlatAppend(a: seq<Bytes>, b: seq<Bytes>)
    ensures Flat(a + b) == Flat(a) + Flat(b)
  {
    if a == [] {
      assert a + b == b;
    } else {
      assert (a + b)[1..] == a[1..] + b;
      FlatAppend(a[1..], b);
    }
  }

  lemma {:induction false} FlatSpare(sended: seq<Bytes>)
    requires FillShape(sended)
    ensures Flat(sended) == if sended == [] then [] else sended[0]
  {
    if |sended| > 1 {
      FlatSpare(sended[1..]);
    }
  }

  // ----- one call

  function Capacity(sended: seq<Bytes>): nat
    requires FillShape(sended)
  {
    if sended == [] then 0 else RX_BUFFER_SIZE * |sended| - |sended[0]|
  }

  /** The copy loop keeps the shape of both lists and only appends full buffers to the queue. */
  lemma {:induction false} FillKeepsShape(toSend: seq<Bytes>, sended: seq<Bytes>, data: Bytes)
    requires sended != [] && FillShape(sended)
    ensures var f := FillBuffers(toSend, sended, data);
      && FillShape(f.sended) && toSend <= f.toSend
      && |f.toSend| + |f.sended| == |toSend| + |sended|
      && (forall i | |toSend| <= i < |f.toSend| :: |f.toSend[i]| == RX_BUFFER_SIZE)
    decreases |sended|
  {
    var room := RX_BUFFER_SIZE - |sended[0]|;
    if |data| >= room && |sended| > 1 {
      FillKeepsShape(toSend + [sended[0] + data[..room]], sended[1..], data[room..]);
    }
  }

  /** The copy loop stops short only when the pool is exhausted, and returns what it took up to the last full buffer. */
  lemma {:induction false} FillCounts(toSend: seq<Bytes>, sended: seq<Bytes>, data: Bytes)
    requires sended != [] && FillShape(sended)
    ensures var f := FillBuffers(toSend, sended, data);
      && f.accepted == (if |data| <= Capacity(sended) then |data| else Capacity(sended))
      && |f.toSend| == |toSend| + (|sended[0]| + f.accepted) / RX_BUFFER_SIZE
      && f.returned == f.accepted -
        (if |sended[0]| + f.accepted < RX_BUFFER_SIZE then f.accepted
         else (|sended[0]| + f.accepted) % RX_BUFFER_SIZE)
    decreases |sended|
  {
    var room := RX_BUFFER_SIZE - |sended[0]|;
    if |data| >= room && |sended| > 1 {
      FillCounts(toSend + [sended[0] + data[..room]], sended[1..], data[room..]);
    }
  }

  lemma {:induction false} FlatOne(toSend: seq<Bytes>, chunk: Bytes)
    ensures Flat(toSend + [chunk]) == Flat(toSend) + chunk
  {
    FlatAppend(toSend, [chunk]);
    assert Flat([chunk]) == chunk + Flat([]);
  }

  lemma Splice(queued: Bytes, head: Bytes, data: Bytes, room: nat, n: nat)
    requires room + n <= |data|
    ensures (queued + (head + data[..room])) + ([] + data[room..][..n]) == queued + (head + data[..room + n])
  {
    assert data[..room] + data[room..][..n] == data[..room + n];
  }

  /** The copy loop takes a prefix of its input, in order. */
  lemma {:induction false} FillConserves(toSend: seq<Bytes>, sended: seq<Bytes>, data: Bytes)
    requires sended != [] && FillShape(sended)
    ensures FillBuffers(toSend, sended, data).accepted <= |data|
    ensures var f := FillBuffers(toSend, sended, data);
      Flat(f.toSend) + Flat(f.sended) == Flat(toSend) + (sended[0] + data[..f.accepted])
    decreases |sended|
  {
    var room := RX_BUFFER_SIZE - |sended[0]|;
    var f := FillBuffers(toSend, sended, data);
    if |data| < room {
      FlatSpare(f.sended);
      assert data[..|data|] == data;
      assert data == [] ==> sended[0] + data == sended[0];
    } else {
      var chunk := sended[0] + data[..room];
      FlatOne(toSend, chunk);
      if |sended| > 1 {
        FillConserves(toSend + [chunk], sended[1..], data[room..]);
        Splice(Flat(toSend), sended[0], data, room, f.accepted - room);
      }
    }
  }

  /**
   The returned count is the accepted count exactly when the call ended on a
   buffer boundary (or took nothing): the last partial chunk is never counted.
   */
  lemma {:induction false} ReturnedCountExact(s: Slave, data: Bytes)
    requires Inv(s)
    ensures var f := LoadFills(s, data);
      f.returned == f.accepted <==>
        f.accepted == 0 || (|s.sended[0]| + f.accepted) % RX_BUFFER_SIZE == 0
  {
    if s.sended != [] {
      FillCounts(s.toSend, s.sended, data);
    }
  }

  lemma LoadWithoutSpare(s: Slave, data: Bytes)
    requires Shape(s) && s.sended == []
    ensures Load(s, data) == s && LoadFills(s, data).returned == 0
  {
  }

  /** A load leaves a transfer in flight alone, and starts one only for an idle load of 1 to 511 bytes. */
  lemma {:induction false} LoadPhase(s: Slave, data: Bytes)
    requires Inv(s)
    ensures var f := LoadFills(s, data); |f.toSend| + |f.sended| == RX_BUFFER_NUM
    ensures var t := Load(s, data);
      && Inv(t)
      && (Stranded(s) ==> Stranded(t))
      && (s.sended == [] ==> t == s)
      && (Streaming(s) ==> Streaming(t) && t.toSend[0] == s.toSend[0] && t.status == s.status)
      && (Idle(s) ==> (if 1 <= |data| <= 511 then Streaming(t) else Stranded(t)))
  {
    if s.sended != [] {
      FillKeepsShape(s.toSend, s.sended, data);
      FillCounts(s.toSend, s.sended, data);
      var f := FillBuffers(s.toSend, s.sended, data);
      if s.toSend != [] {
        assert f.toSend[0] == s.toSend[0];
      } else if f.toSend == [] {
        assert |data| < RX_BUFFER_SIZE;
        assert f.sended[0] == data;
      } else {
        assert |data| >= RX_BUFFER_SIZE;
      }
    }
  }

  lemma {:induction false} PromoteKeeps(s: Slave)
    ensures Flat(Promote(s).toSend) + Flat(Promote(s).sended) == Flat(s.toSend) + Flat(s.sended)
  {
    if s.toSend == [] && s.sended != [] {
      assert s.sended == [s.sended[0]] + s.sended[1..];
      FlatAppend([s.sended[0]], s.sended[1..]);
    }
  }

  /** A load accepts a prefix of its input, cut short only when the pool empties, and keeps every byte in order. */
  lemma {:induction false} LoadKeeps(s: Slave, data: Bytes)
    requires Inv(s)
    ensures var f := LoadFills(s, data); var t := Load(s, data);
      && f.accepted == (if |data| <= Capacity(s.sended) then |data| else Capacity(s.sended))
      && Flat(t.toSend) + Flat(t.sended) == Flat(s.toSend) + Flat(s.sended) + data[..f.accepted]
  {
    var f := LoadFills(s, data);
    PromoteKeeps(s.(toSend := f.toSend, sended := f.sended));
    if s.sended != [] {
      FillConserves(s.toSend, s.sended, data);
      FillCounts(s.toSend, s.sended, data);
      FlatSpare(s.sended);
    }
  }

  /** The buffers holding bytes for the host. */
  function Waiting(s: Slave): nat {
    |s.toSend| + (if s.sended != [] && s.sended[0] != [] then 1 else 0)
  }

  /** After an end-of-read interrupt the link runs again unless nothing at all waits. */
  lemma {:induction false} ReadDonePhase(s: Slave)
    requires Inv(s) && Streaming(s)
    ensures var t := ReadDone(s);
      && Shape(t)
      && (if |s.toSend| == 1 && (s.sended == [] || s.sended[0] == []) then Idle(t) else Streaming(t))
      && Waiting(t) == Waiting(s) - 1
  {
    var sd := s.sended + [[]];
    assert FillShape(sd);
  }

  lemma {:induction false} RestartKeeps(s: Slave)
    requires s.toSend == [] ==> s.sended != []
    ensures Flat(Restart(s).toSend) + Flat(Restart(s).sended) == Flat(s.toSend) + Flat(s.sended)
  {
    if s.toSend == [] && s.sended[0] != [] {
      assert s.sended == [s.sended[0]] + s.sended[1..];
      FlatAppend([s.sended[0]], s.sended[1..]);
    }
  }

  /** One end-of-read interrupt hands the host exactly the head buffer. */
  lemma {:induction false} ReadDoneKeeps(s: Slave)
    requires s.toSend != []
    ensures var t := ReadDone(s);
      s.toSend[0] + (Flat(t.toSend) + Flat(t.sended)) == Flat(s.toSend) + Flat(s.sended)
  {
    RestartKeeps(s.(started := false, hasRead := true, toSend := s.toSend[1..], sended := s.sended + [[]],
      status := Status((s.status.commCnt + 1) % 8, true, 0, false)));
    FlatAppend(s.sended, [[]]);
    assert Flat([[]]) == [] + Flat([]);
  }

  // ----- all runs

  datatype Event = LoadCall(data: Bytes) | ReadDoneIntr

  /** A slave together with the bytes its loads accepted and the bytes the host has read. */
  datatype System = System(slave: Slave, accepted: Bytes, delivered: Bytes)

  const InitialSystem: System := System(InitialSlave, [], [])

  /** The end-of-read interrupt comes only while the link runs; otherwise the event does not happen. */
  function Step(y: System, e: Event): System
    requires Inv(y.slave)
  {
    match e
    case LoadCall(data) =>
      System(Load(y.slave, data), y.accepted + data[..AcceptedLen(y.slave, data)], y.delivered)
    case ReadDoneIntr =>
      if y.slave.started then
        System(ReadDone(y.slave), y.accepted, y.delivered + y.slave.toSend[0])
      else y
  }

  function AcceptedLen(s: Slave, data: Bytes): (n: nat)
    requires Inv(s)
    ensures n <= |data|
  {
    LoadKeeps(s, data);
    LoadFills(s, data).accepted
  }

  function Run(y: System, events: seq<Event>): (z: System)
    requires Inv(y.slave)
    ensures Inv(z.slave)
    decreases |events|
  {
    if events == [] then y
    else
      StepKeeps(y, events[0]);
      Run(Step(y, events[0]), events[1..])
  }

  /** The byte ledger: read by the host, then queued, then the partly filled spare buffer. */
  predicate Conserved(y: System) {
    y.accepted == y.delivered + (Flat(y.slave.toSend) + Flat(y.slave.sended))
  }

  lemma {:induction false} StepKeeps(y: System, e: Event)
    requires Inv(y.slave)
    ensures Inv(Step(y, e).slave)
    ensures y.delivered <= Step(y, e).delivered
  {
    match e
    case LoadCall(data) => LoadPhase(y.slave, data);
    case ReadDoneIntr => if y.slave.started { ReadDonePhase(y.slave); }
  }

  lemma {:induction false} StepConserves(y: System, e: Event)
    requires Inv(y.slave) && Conserved(y)
    ensures Conserved(Step(y, e))
  {
    match e
    case LoadCall(data) => LoadKeeps(y.slave, data);
    case ReadDoneIntr => if y.slave.started { ReadDoneKeeps(y.slave); }
  }

  /** Over every run nothing is lost, duplicated or reordered. */
  lemma {:induction false} RunConserves(y: System, events: seq<Event>)
    requires Inv(y.slave) && Conserved(y)
    ensures Conserved(Run(y, events))
    ensures y.delivered <= Run(y, events).delivered
    decreases |events|
  {
    if events != [] {
      StepKeeps(y, events[0]);
      StepConserves(y, events[0]);
      RunConserves(Step(y, events[0]), events[1..]);
    }
  }

  /** Over every run from power-up, what the host has read is a prefix of what was accepted. */
  lemma {:induction false} HostReadsPrefix(events: seq<Event>)
    ensures Inv(InitialSlave)
    ensures Run(InitialSystem, events).delivered <= Run(InitialSystem, events).accepted
    ensures Conserved(Run(InitialSystem, events))
  {
    InitialInv();
    RunConserves(InitialSystem, events);
  }

  /** The end-of-read interrupts of a run. */
  function Reads(y: System, events: seq<Event>): nat
    requires Inv(y.slave)
    decreases |events|
  {
    if events == [] then 0
    else
      StepKeeps(y, events[0]);
      (if events[0].ReadDoneIntr? && y.slave.started then 1 else 0) + Reads(Step(y, events[0]), events[1..])
  }

  lemma StepCounts(y: System, e: Event)
    requires Inv(y.slave) && y.slave.status.commCnt < 8
    ensures Step(y, e).slave.status.commCnt
      == (y.slave.status.commCnt + (if e.ReadDoneIntr? && y.slave.started then 1 else 0)) % 8
  {
    hide FillBuffers, FillShape, QueueShape;
  }

  /** Over every run the three bits of comm_cnt count the host's reads from 7 on. */
  lemma {:induction false} CommCounts(y: System, events: seq<Event>)
    requires Inv(y.slave) && y.slave.status.commCnt < 8
    ensures Run(y, events).slave.status.commCnt == (y.slave.status.commCnt + Reads(y, events)) % 8
    decreases |events|
  {
    hide Inv, Step;
    if events != [] {
      StepKeeps(y, events[0]);
      StepCounts(y, events[0]);
      CommCounts(Step(y, events[0]), events[1..]);
      CountOn(y.slave.status.commCnt, if events[0].ReadDoneIntr? && y.slave.started then 1 else 0,
        Reads(Step(y, events[0]), events[1..]));
    }
  }

  lemma CountOn(a: nat, b: nat, c: nat)
    requires a < 8 && b <= 1
    ensures ((a + b) % 8 + c) % 8 == (a + (b + c)) % 8
  {
  }

  lemma InitialInv()
    ensures Inv(InitialSlave) && Idle(InitialSlave) && Conserved(InitialSystem)
  {
    var spare: seq<Bytes> := [[], [], [], []];
    assert FillShape(spare);
    FlatSpare(spare);
  }

  /** Every load made while nothing is queued carries between 1 and 511 bytes. */
  predicate IdleLoadsSized(y: System, events: seq<Event>)
    requires Inv(y.slave)
    decreases |events|
  {
    events == [] ||
    ( StepKeeps(y, events[0]);
      && (events[0].LoadCall? && y.slave.toSend == [] ==> 1 <= |events[0].data| <= 511)
      && IdleLoadsSized(Step(y, events[0]), events[1..]))
  }

  /** Once stranded, always stranded: no later load or interrupt ever delivers another byte. */
  lemma {:induction false} StrandedForever(y: System, events: seq<Event>)
    requires Inv(y.slave) && Stranded(y.slave)
    ensures Stranded(Run(y, events).slave)
    ensures Run(y, events).delivered == y.delivered
    decreases |events|
  {
    if events != [] {
      StepKeeps(y, events[0]);
      match events[0] {
        case LoadCall(data) => LoadPhase(y.slave, data);
        case ReadDoneIntr =>
      }
      StrandedForever(Step(y, events[0]), events[1..]);
    }
  }

  /**
   Exactly the runs whose idle loads are all of 1 to 511 bytes leave queued data
   announced and in transfer; every other run ends stranded.
   */
  lemma {:induction false} StrandedIffIdleLoadMissized(y: System, events: seq<Event>)
    requires Inv(y.slave) && !Stranded(y.slave)
    ensures !Stranded(Run(y, events).slave) <==> IdleLoadsSized(y, events)
    decreases |events|
  {
    if events != [] {
      var z := Step(y, events[0]);
      StepKeeps(y, events[0]);
      match events[0] {
        case LoadCall(data) => LoadPhase(y.slave, data);
        case ReadDoneIntr => if y.slave.started { ReadDonePhase(y.slave); }
      }
      if Stranded(z.slave) {
        StrandedForever(z, events[1..]);
      } else {
        StrandedIffIdleLoadMissized(z, events[1..]);
      }
    }
  }

  /** A first load of 0 bytes, or of 512 and more, is accepted, and no later run ever delivers any of it. */
  lemma MissizedFirstLoadStrands(data: Bytes, later: seq<Event>)
    requires data == [] || |data| >= 512
    ensures Inv(InitialSlave)
    ensures var z := Run(InitialSystem, [LoadCall(data)] + later); Stranded(z.slave) && z.delivered == []
  {
    InitialInv();
    LoadPhase(InitialSlave, data);
    var events := [LoadCall(data)] + later;
    assert events[1..] == later;
    StrandedForever(Step(InitialSystem, events[0]), later);
  }

  /** A first load of 100 bytes is accepted whole, and the caller is told 0. */
  lemma FirstLoadUncounted(data: Bytes)
    requires |data| == 100
    ensures var f := LoadFills(InitialSlave, data); f.accepted == 100 && f.returned == 0
  {
  }

  function Interrupts(n: nat): (events: seq<Event>)
    ensures |events| == n
  {
    seq(n, _ => ReadDoneIntr)
  }

  /** With no further loads, a run that is not stranded drains: one interrupt per waiting buffer delivers everything. */
  lemma {:induction false} Drains(y: System, n: nat)
    requires Inv(y.slave) && !Stranded(y.slave) && Conserved(y)
    requires n >= Waiting(y.slave)
    ensures var z := Run(y, Interrupts(n)); Idle(z.slave) && z.accepted == y.accepted && z.delivered == y.accepted
    decreases n
  {
    var events := Interrupts(n);
    if n == 0 {
      FlatSpare(y.slave.sended);
    } else {
      StepKeeps(y, events[0]);
      StepConserves(y, events[0]);
      assert events[1..] == Interrupts(n - 1);
      if y.slave.started {
        ReadDonePhase(y.slave);
      }
      Drains(Step(y, events[0]), n - 1);
    }
  }
}
