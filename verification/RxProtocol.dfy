/** The sizes of the UART's hardware FIFOs and software rings. */
module Sizes {
  const UART_FIFO_LEN: nat := 128
  const UART_TX_BUFFER_SIZE: nat := 256
  const UART_RX_BUFFER_SIZE: nat := 256

  function Min(a: nat, b: nat): nat {
    if a <= b then a else b
  }
}

/** The receive ring between the hardware FIFO, the receive task and the application, over every run. */
module RxProtocol {
  import opened Bits
  import opened Sizes

  /** The ring, the receive FIFO, and whether the receive interrupts are enabled. */
  datatype Side = Side(ring: seq<Byte>, fifo: seq<Byte>, ena: bool)

  function Space(s: Side): int {
    UART_RX_BUFFER_SIZE - |s.ring|
  }

  /** Uart_rx_buff_enq: the whole FIFO or, if that would fill the ring, nothing. */
  function Enqueue(s: Side): Side {
    if |s.fifo| >= Space(s) then s
    else
      var t := s.(ring := s.ring + s.fifo, fifo := []);
      t.(ena := s.ena || Space(t) >= UART_FIFO_LEN)
  }

  /** rx_buff_deq. */
  function Dequeue(s: Side, n: nat): Side {
    var t := s.(ring := s.ring[Min(n, |s.ring|)..]);
    t.(ena := s.ena || Space(t) >= UART_FIFO_LEN)
  }

  function Dequeued(s: Side, n: nat): seq<Byte> {
    s.ring[..Min(n, |s.ring|)]
  }

  /**
   `posted` counts the receive task's waiting events; the histories record what
   the FIFO took in and what the application got.
   */
  datatype Rx = Rx(side: Side, posted: nat, arrived: seq<Byte>, delivered: seq<Byte>)

  datatype Action = Arrive(b: Byte) | RxInterrupt | RxTask | Read(n: nat)

  const InitialRx: Rx := Rx(Side([], [], true), 0, [], [])

  function Step(s: Rx, a: Action): Rx {
    match a
    case Arrive(b) =>
      if |s.side.fifo| >= UART_FIFO_LEN then s
      else s.(side := s.side.(fifo := s.side.fifo + [b]), arrived := s.arrived + [b])
    case RxInterrupt =>
      if s.side.ena && s.side.fifo != [] then s.(side := s.side.(ena := false), posted := s.posted + 1) else s
    case RxTask =>
      if s.posted > 0 then s.(side := Enqueue(s.side), posted := s.posted - 1) else s
    case Read(n) =>
      s.(side := Dequeue(s.side, n), delivered := s.delivered + Dequeued(s.side, n))
  }

  function Run(s: Rx, actions: seq<Action>): Rx
    decreases |actions|
  {
    if actions == [] then s else Run(Step(s, actions[0]), actions[1..])
  }

  /** Delivered, then ringed, then still in the FIFO, is exactly what arrived. */
  predicate Ledger(s: Rx) {
    s.arrived == s.delivered + (s.side.ring + s.side.fifo)
  }

  /**
   With the interrupts off and no event waiting, the ring is at least half full:
   the next read that empties it to half turns them on.
   */
  predicate Wakeable(s: Rx) {
    s.side.ena || s.posted > 0 || Space(s.side) <= UART_FIFO_LEN
  }

  predicate Inv(s: Rx) {
    |s.side.ring| < UART_RX_BUFFER_SIZE && |s.side.fifo| <= UART_FIFO_LEN && Ledger(s) && Wakeable(s)
  }

  lemma ReadLedger(s: Rx, n: nat)
    requires Inv(s)
    ensures Ledger(Step(s, Read(n)))
  {
    var k := Min(n, |s.side.ring|);
    assert s.side.ring == s.side.ring[..k] + s.side.ring[k..];
    assert s.delivered + ((s.side.ring[..k] + s.side.ring[k..]) + s.side.fifo)
        == (s.delivered + s.side.ring[..k]) + (s.side.ring[k..] + s.side.fifo);
  }

  lemma StepKeeps(s: Rx, a: Action)
    requires Inv(s)
    ensures Inv(Step(s, a))
  {
    match a
    case Arrive(b) =>
      assert s.side.ring + (s.side.fifo + [b]) == (s.side.ring + s.side.fifo) + [b];
    case RxInterrupt =>
    case RxTask =>
      assert (s.side.ring + s.side.fifo) + [] == s.side.ring + s.side.fifo;
    case Read(n) => ReadLedger(s, n);
  }

  /**
   Over every run the application gets exactly the arrived bytes, once and in
   order, and the ring is never completely full.
   */
  lemma {:induction false} RunKeeps(s: Rx, actions: seq<Action>)
    requires Inv(s)
    ensures Inv(Run(s, actions))
    ensures Run(s, actions).delivered <= Run(s, actions).arrived
    decreases |actions|
  {
    if actions != [] {
      StepKeeps(s, actions[0]);
      RunKeeps(Step(s, actions[0]), actions[1..]);
    }
  }

  /** From reset, the application has a prefix of what arrived, and only the ring and the FIFO lie between. */
  lemma RunFromReset(actions: seq<Action>)
    ensures var z := Run(InitialRx, actions);
      && z.arrived == z.delivered + (z.side.ring + z.side.fifo)
      && |z.side.ring| < UART_RX_BUFFER_SIZE
      && (!z.side.ena && z.posted == 0 ==> |z.side.ring| >= UART_RX_BUFFER_SIZE - UART_FIFO_LEN)
  {
    RunKeeps(InitialRx, actions);
  }

  lemma {:induction false} Run4(s: Rx, a: Action, b: Action, c: Action, d: Action)
    ensures Run(s, [a, b, c, d]) == Step(Step(Step(Step(s, a), b), c), d)
  {
    hide Step;
    var s1 := Step(s, a);
    var s2 := Step(s1, b);
    var s3 := Step(s2, c);
    assert [a, b, c, d][1..] == [b, c, d];
    assert [b, c, d][1..] == [c, d];
    assert [c, d][1..] == [d];
    assert [d][1..] == [];
    assert Run(s3, [d]) == Run(Step(s3, d), []);
    assert Run(s2, [c, d]) == Run(s3, [d]);
    assert Run(s1, [b, c, d]) == Run(s2, [c, d]);
  }

  /** A read of everything empties the ring and turns the interrupts on. */
  lemma ReadAll(s: Rx)
    requires Inv(s)
    ensures var t := Step(s, Read(UART_RX_BUFFER_SIZE));
      Inv(t) && t.side.ring == [] && t.side.ena && t.side.fifo == s.side.fifo && t.arrived == s.arrived
  {
    StepKeeps(s, Read(UART_RX_BUFFER_SIZE));
  }

  /** An interrupt and a task event then move the whole FIFO into the empty ring. */
  lemma EmptyFifo(s: Rx)
    requires Inv(s) && s.side.ring == [] && s.side.ena
    ensures var t := Step(Step(s, RxInterrupt), RxTask);
      Inv(t) && t.arrived == s.arrived && t.side.fifo == []
  {
    StepKeeps(s, RxInterrupt);
    StepKeeps(Step(s, RxInterrupt), RxTask);
    hide Ledger;
  }

  /**
   From any reachable state, one full read, one interrupt, one task event and one
   more full read deliver everything that has arrived.
   */
  lemma CatchesUp(s: Rx)
    requires Inv(s)
    ensures var all := Read(UART_RX_BUFFER_SIZE);
      Run(s, [all, RxInterrupt, RxTask, all]).delivered == s.arrived
  {
    var all := Read(UART_RX_BUFFER_SIZE);
    Run4(s, all, RxInterrupt, RxTask, all);
    hide Run, Step;
    ReadAll(s);
    EmptyFifo(Step(s, all));
    ReadAll(Step(Step(Step(s, all), RxInterrupt), RxTask));
  }

  lemma {:induction false} RunSnoc(s: Rx, actions: seq<Action>, a: Action)
    ensures Run(s, actions + [a]) == Step(Run(s, actions), a)
    decreases |actions|
  {
    hide Step;
    if actions == [] {
      assert [] + [a] == [a];
      assert Run(Step(s, a), []) == Step(s, a);
    } else {
      assert (actions + [a])[1..] == actions[1..] + [a];
      RunSnoc(Step(s, actions[0]), actions[1..], a);
    }
  }

  /**
   In every run a task event moves the whole FIFO, and leaves it alone only where
   ring and FIFO together would fill the ring.
   */
  lemma TaskMovesAll(s: Rx, actions: seq<Action>)
    requires Inv(s) && Run(s, actions).posted > 0
    ensures var t, u := Run(s, actions), Run(s, actions + [RxTask]);
      && u.posted == t.posted - 1 && u.delivered == t.delivered
      && (if |t.side.ring| + |t.side.fifo| < 256
          then u.side.ring == t.side.ring + t.side.fifo && u.side.fifo == []
          else u.side == t.side)
  {
    RunSnoc(s, actions, RxTask);
    hide Run;
  }

  /** Some interrupt of these arrivals and interrupts finds bytes in the FIFO. */
  predicate FindsBytes(s: Rx, actions: seq<Action>)
    decreases |actions|
  {
    actions != [] &&
    ((actions[0].RxInterrupt? && s.side.fifo != []) || FindsBytes(Step(s, actions[0]), actions[1..]))
  }

  /**
   While neither the task nor a read runs, any number of interrupts post one event
   if they are enabled and one of them finds bytes, with the interrupts off from
   then on; otherwise they post none.
   */
  lemma {:induction false} OneEventPosted(s: Rx, actions: seq<Action>)
    requires forall a | a in actions :: a.Arrive? || a.RxInterrupt?
    ensures var t := Run(s, actions); var fires := s.side.ena && FindsBytes(s, actions);
      && t.posted == (if fires then s.posted + 1 else s.posted)
      && (t.side.ena <==> s.side.ena && !fires)
      && t.side.ring == s.side.ring && t.delivered == s.delivered
    decreases |actions|
  {
    if actions != [] {
      OneEventPosted(Step(s, actions[0]), actions[1..]);
    }
  }

  /** In every run a read of `n` bytes delivers the first min(n, ring) bytes of the ring, and no others. */
  lemma ReadDelivers(s: Rx, actions: seq<Action>, n: nat)
    requires Inv(s)
    ensures var t, u := Run(s, actions), Run(s, actions + [Read(n)]);
      && |u.delivered| == |t.delivered| + (if n <= |t.side.ring| then n else |t.side.ring|)
      && u.delivered + u.side.ring == t.delivered + t.side.ring && t.delivered <= u.delivered
      && u.side.fifo == t.side.fifo
  {
    RunSnoc(s, actions, Read(n));
    hide Run;
    var t := Run(s, actions);
    var k := Min(n, |t.side.ring|);
    assert t.side.ring == t.side.ring[..k] + t.side.ring[k..];
    assert (t.delivered + t.side.ring[..k]) + t.side.ring[k..] == t.delivered + (t.side.ring[..k] + t.side.ring[k..]);
  }
}
