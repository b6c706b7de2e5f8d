/**
 The transmit ring shared by a task and the UART interrupts, one memory access
 at a time. The task runs tx_buff_enq or uart_rx_intr_enable; an interrupt may
 arrive between any two of its steps, whenever its enable bit is set.
 */
module TxProtocol {
  import opened Bits
  import opened Ring
  import opened Sizes

  /** UART_INT_ENA: the transmit-empty bit and the two receive bits. */
  datatype Ena = Ena(tx: bool, rx: bool)

  /**
   Where the task stands; `off` bytes are already counted in the ring, `n` are
   being copied. `Overrun` ends a call that has created the ring for more bytes
   than it holds, `NullCopy` one that is about to copy through a null pUartBuff:
   the source would go on.
   */
  datatype Pc =
    | Idle
    | ReadMask
    | WriteMask(reg: Ena)
    | Check
    | Create
    | Copy
    | Memcpy(off: nat, n: nat)
    | AdvanceIn(off: nat, n: nat)
    | WrapIn(off: nat, n: nat)
    | TakeSpace(off: nat, n: nat)
    | ReadUnmask
    | WriteUnmask(reg: Ena)
    | Overrun
    | NullCopy
    | ReadEnable
    | WriteEnable(reg: Ena)

  /**
   `heap` is the free heap, as the bytes os_malloc would hand out; `accepted`
   records the bytes of every call that was not refused.
   */
  datatype Tx = Tx(ring: Buff, heap: seq<Byte>, ena: Ena, fifo: seq<Byte>, wire: seq<Byte>,
                   pc: Pc, data: seq<Byte>, accepted: seq<Byte>)

  /** The task begins a call, takes a step, or an interrupt, the hardware or another user of the heap acts. */
  datatype Action =
    | Call(d: seq<Byte>)
    | Enable
    | TaskStep
    | TxInterrupt
    | RxInterrupt
    | Shift
    | Heap(free: seq<Byte>)

  /** The part of the call's data the next os_memcpy copies. */
  function NextChunk(s: Tx, off: nat): Pc
    requires s.ring.Buff? && off <= |s.data| && s.ring.inPos <= |s.ring.bytes|
  {
    Pc.Memcpy(off, Min(|s.ring.bytes| - s.ring.inPos, |s.data| - off))
  }

  /** The next access of tx_buff_enq with Uart_Buf_Init and Uart_Buf_Cpy, or of uart_rx_intr_enable. */
  function TaskNext(s: Tx): Tx
    requires Inv(s)
  {
    match s.pc
    case Idle => s
    case ReadMask => s.(pc := WriteMask(s.ena))
    case WriteMask(reg) => s.(ena := reg.(tx := false), pc := Check)
    case Check =>
      if s.ring.Null? then s.(pc := Create)
      else if |s.data| > Space(s.ring) then s.(pc := ReadUnmask)
      else s.(pc := Copy)
    case Create =>
      if |s.heap| <= UART_TX_BUFFER_SIZE then s.(pc := ReadUnmask)
      else
        var ring := NewBuff(s.heap, UART_TX_BUFFER_SIZE);
        s.(ring := ring,
           pc := if |s.data| <= UART_TX_BUFFER_SIZE then Copy else if ring.Hollow? then NullCopy else Overrun)
    case Copy =>
      if s.data == [] then s.(pc := ReadUnmask)
      else if s.ring.Hollow? then s.(pc := NullCopy)
      else s.(pc := NextChunk(s, 0))
    case Memcpy(off, n) => s.(ring := Ring.Memcpy(s.ring, s.data[off..off + n]), pc := AdvanceIn(off, n))
    case AdvanceIn(off, n) => s.(ring := s.ring.(inPos := s.ring.inPos + n), pc := Pc.WrapIn(off, n))
    case WrapIn(off, n) => s.(ring := Ring.WrapIn(s.ring), pc := Pc.TakeSpace(off, n))
    case TakeSpace(off, n) =>
      var t := s.(ring := Ring.TakeSpace(s.ring, n));
      if off + n == |s.data| then t.(accepted := s.accepted + s.data, pc := ReadUnmask)
      else t.(pc := NextChunk(t, off + n))
    case ReadUnmask => s.(pc := WriteUnmask(s.ena))
    case WriteUnmask(reg) => s.(ena := reg.(tx := true), pc := Idle, data := [])
    case Overrun => s
    case NullCopy => s
    case ReadEnable => s.(pc := WriteEnable(s.ena))
    case WriteEnable(reg) => s.(ena := reg.(rx := true), pc := Idle)
  }

  /** What one interrupt moves: as much of the ring as the hardware FIFO has room for. */
  function Moved(s: Tx): nat
    requires Bounded(s)
  {
    Min(UART_FIFO_LEN - |s.fifo|, Fill(s.ring))
  }

  /** The TXFIFO_EMPTY branch of the handler, which runs to completion. */
  function TxIntr(s: Tx): Tx
    requires Bounded(s)
  {
    var n := Moved(s);
    s.(fifo := s.fifo + Queued(s.ring)[..n], ring := TakeOut(s.ring, n), ena := s.ena.(tx := n < Fill(s.ring)))
  }

  /** Without bytes to send the interrupt only turns itself off. */
  lemma NullIntr(s: Tx)
    requires Bounded(s) && !s.ring.Buff?
    ensures Moved(s) == 0 && TxIntr(s) == s.(ena := s.ena.(tx := false))
  {
    assert s.fifo + [] == s.fifo;
  }

  function Step(s: Tx, a: Action): Tx
    requires Inv(s)
  {
    match a
    case Call(d) => if s.pc.Idle? then s.(pc := ReadMask, data := d) else s
    case Enable => if s.pc.Idle? then s.(pc := ReadEnable) else s
    case TaskStep => TaskNext(s)
    case TxInterrupt => if s.ena.tx then TxIntr(s) else s
    case RxInterrupt => s.(ena := s.ena.(rx := false))
    case Shift => if s.fifo == [] then s else s.(fifo := s.fifo[1..], wire := s.wire + [s.fifo[0]])
    case Heap(free) => s.(heap := free)
  }

  // ----- invariant

  predicate Bounded(s: Tx) {
    && Sized(s.ring) && |s.fifo| <= UART_FIFO_LEN
    && (s.ring.Buff? ==> |s.ring.bytes| == UART_TX_BUFFER_SIZE)
    && (s.ring.Hollow? ==> s.ring.size == UART_TX_BUFFER_SIZE)
  }

  /** Outside the call's critical section. */
  predicate Unmasked(pc: Pc) {
    pc.Idle? || pc.ReadMask? || pc.WriteMask? || pc.ReadEnable? || pc.WriteEnable?
  }

  function Off(pc: Pc): nat {
    match pc
    case Memcpy(off, n) => off
    case AdvanceIn(off, n) => off
    case WrapIn(off, n) => off
    case TakeSpace(off, n) => off
    case _ => 0
  }

  predicate ChunkOk(s: Tx, off: nat, n: nat)
    requires Bounded(s)
  {
    && s.ring.Buff? && 0 < n && off + n <= |s.data| && |s.data| - off <= s.ring.space
    && End(s.ring) + n <= |s.ring.bytes| && (off + n < |s.data| ==> End(s.ring) + n == |s.ring.bytes|)
  }

  /** The copied bytes already stand behind the counted ones. */
  predicate Landed(s: Tx, off: nat, n: nat)
    requires Bounded(s) && ChunkOk(s, off, n)
  {
    Content(s.ring.bytes, s.ring.outPos, Fill(s.ring) + n) == Queued(s.ring) + s.data[off..off + n]
  }

  predicate Placed(s: Tx)
    requires Bounded(s)
  {
    match s.pc
    case Create => s.ring.Null?
    case Copy => !s.ring.Null? && InPlace(s.ring) && |s.data| <= Space(s.ring)
    case Memcpy(off, n) => ChunkOk(s, off, n) && InPlace(s.ring)
    case AdvanceIn(off, n) => ChunkOk(s, off, n) && InPlace(s.ring) && Landed(s, off, n)
    case WrapIn(off, n) => ChunkOk(s, off, n) && s.ring.inPos == End(s.ring) + n && Landed(s, off, n)
    case TakeSpace(off, n) =>
      ChunkOk(s, off, n) && s.ring.inPos == Wrap(End(s.ring) + n, |s.ring.bytes|) && Landed(s, off, n)
    case _ => InPlace(s.ring)
  }

  /** What has reached the hardware. */
  function Sent(s: Tx): seq<Byte> {
    s.wire + s.fifo
  }

  /**
   Bytes on the wire, then in the hardware FIFO, then counted in the ring, are the
   accepted bytes and the part of the current call already counted.
   */
  predicate Ledger(s: Tx)
    requires Bounded(s)
  {
    && Off(s.pc) <= |s.data| && Off(s.pc) <= Fill(s.ring)
    && Sent(s) + Queued(s.ring) == s.accepted + s.data[..Off(s.pc)]
  }

  /**
   The mask: outside the call's critical section a non-empty ring is enabled, also
   in the value uart_rx_intr_enable is about to write back; inside it nothing is.
   */
  predicate Masking(s: Tx)
    requires Bounded(s)
  {
    if Unmasked(s.pc) then Fill(s.ring) > 0 ==> s.ena.tx && (s.pc.WriteEnable? ==> s.pc.reg.tx)
    else !s.ena.tx
  }

  predicate Inv(s: Tx) {
    Bounded(s) && Placed(s) && Ledger(s) && Masking(s)
  }

  /** After uart_init, which makes the ring when the heap has room for it. */
  predicate Reset(s: Tx) {
    && s == Tx(s.ring, s.heap, Ena(false, true), [], [], Idle, [], [])
    && (match s.ring
        case Null => true
        case Hollow(size) => size == UART_TX_BUFFER_SIZE
        case Buff(bytes, inPos, outPos, space) =>
          inPos == outPos == 0 && space == |bytes| == UART_TX_BUFFER_SIZE)
  }

  lemma ResetInv(s: Tx)
    requires Reset(s)
    ensures Inv(s)
  {
  }

  /** A copy lands behind the counted bytes, in the task's critical section. */
  lemma CopyLands(s: Tx)
    requires Inv(s) && s.pc.Memcpy?
    ensures Inv(TaskNext(s)) && Queued(TaskNext(s).ring) == Queued(s.ring)
  {
    hide Content, Copied, Queued, Wrap, Ring.Memcpy;
    MemcpyLands(s.ring, s.data[s.pc.off..s.pc.off + s.pc.n]);
  }

  /** Counting a copied chunk in makes it the tail of the ring. */
  lemma ChunkCounts(s: Tx)
    requires Inv(s) && s.pc.TakeSpace?
    ensures Bounded(TaskNext(s))
    ensures Queued(TaskNext(s).ring) == Queued(s.ring) + s.data[s.pc.off..s.pc.off + s.pc.n]
    ensures Placed(TaskNext(s)) && Masking(TaskNext(s))
  {
    hide Content, Ledger;
  }

  lemma Extend(sent: seq<Byte>, queued: seq<Byte>, accepted: seq<Byte>, data: seq<Byte>, off: nat, n: nat)
    requires off + n <= |data| && sent + queued == accepted + data[..off]
    ensures sent + (queued + data[off..off + n]) == accepted + data[..off + n]
  {
    assert sent + (queued + data[off..off + n]) == (sent + queued) + data[off..off + n];
  }

  lemma ChunkLedger(s: Tx)
    requires Inv(s) && s.pc.TakeSpace?
    ensures Bounded(TaskNext(s)) && Ledger(TaskNext(s))
  {
    PlacedChunk(s);
    ChunkCounts(s);
    hide Queued, Placed;
    Extend(Sent(s), Queued(s.ring), s.accepted, s.data, s.pc.off, s.pc.n);
    assert s.data[..|s.data|] == s.data;
  }

  lemma PlacedChunk(s: Tx)
    requires Inv(s) && s.pc.TakeSpace?
    ensures ChunkOk(s, s.pc.off, s.pc.n)
  {
  }

  /** A fresh ring is empty and in place. */
  lemma CreateKeeps(s: Tx)
    requires Inv(s) && s.pc.Create?
    ensures Inv(TaskNext(s)) && Queued(TaskNext(s).ring) == []
  {
  }

  lemma WrapKeeps(s: Tx)
    requires Inv(s) && s.pc.WrapIn?
    ensures Inv(TaskNext(s)) && Queued(TaskNext(s).ring) == Queued(s.ring)
  {
    ModWrap(s.ring.inPos, |s.ring.bytes|);
    SameBytes(s.ring, TaskNext(s).ring);
    hide Content, Queued, Fill, Sent;
  }

  /** Entering Uart_Buf_Cpy: its first chunk fits. */
  lemma CopyStarts(s: Tx)
    requires Inv(s) && s.pc.Copy?
    ensures Inv(TaskNext(s)) && TaskNext(s).ring == s.ring
  {
    hide Content, Queued;
  }

  /** The steps that only move the task on, or write the enable register. */
  predicate Plain(pc: Pc) {
    !pc.Create? && !pc.Copy? && !pc.Memcpy? && !pc.AdvanceIn? && !pc.WrapIn? && !pc.TakeSpace?
  }

  lemma PlainKeeps(s: Tx)
    requires Inv(s) && Plain(s.pc)
    ensures Inv(TaskNext(s)) && TaskNext(s).ring == s.ring
  {
    hide Content, Queued, End, ChunkOk, Landed;
  }

  lemma AdvanceKeeps(s: Tx)
    requires Inv(s) && s.pc.AdvanceIn?
    ensures Inv(TaskNext(s)) && Queued(TaskNext(s).ring) == Queued(s.ring)
  {
    SameBytes(s.ring, TaskNext(s).ring);
    hide Content, Queued, Fill, End, Sent;
  }

  lemma TaskNextKeeps(s: Tx)
    requires Inv(s)
    ensures Inv(TaskNext(s))
  {
    match s.pc
    case Create => CreateKeeps(s);
    case Copy => CopyStarts(s);
    case Memcpy(off, n) => CopyLands(s);
    case AdvanceIn(off, n) => AdvanceKeeps(s);
    case WrapIn(off, n) => WrapKeeps(s);
    case TakeSpace(off, n) =>
      ChunkCounts(s);
      ChunkLedger(s);
    case _ =>
      PlainKeeps(s);
      hide Inv;
  }

  lemma EnabledInPlace(s: Tx)
    requires Inv(s) && s.ena.tx
    ensures Unmasked(s.pc) && InPlace(s.ring)
  {
    hide Content, Queued, End;
  }

  /** An interrupt takes the front of the ring, and can only run when no chunk is half in. */
  lemma TxIntrTakes(s: Tx)
    requires Inv(s) && s.ena.tx
    ensures Unmasked(s.pc)
    ensures var t := TxIntr(s);
      && Bounded(t) && InPlace(t.ring)
      && Sent(t) == Sent(s) + Queued(s.ring)[..Moved(s)] && Queued(t.ring) == Queued(s.ring)[Moved(s)..]
  {
    hide Queued, Content, Placed, Ledger, InPlace, TakeOut;
    EnabledInPlace(s);
    TakeOutFront(s.ring, Moved(s));
  }

  lemma TxIntrKeeps(s: Tx)
    requires Inv(s) && s.ena.tx
    ensures Inv(TxIntr(s))
  {
    TxIntrTakes(s);
    hide Content, Queued, InPlace, TakeOut, Sent;
    SplitAt(Sent(s), Queued(s.ring), Moved(s));
  }

  lemma SplitAt(sent: seq<Byte>, queued: seq<Byte>, n: nat)
    requires n <= |queued|
    ensures (sent + queued[..n]) + queued[n..] == sent + queued
  {
  }

  lemma ShiftSent(s: Tx)
    requires Inv(s)
    ensures Sent(Step(s, Shift)) == Sent(s)
  {
    hide Ledger, Placed;
    if s.fifo != [] {
      assert s.fifo == [s.fifo[0]] + s.fifo[1..];
    }
  }

  /** The other steps leave the ring and the task where they are. */
  lemma SameRingKeeps(s: Tx, t: Tx)
    requires Inv(s) && t == s.(fifo := t.fifo, wire := t.wire, heap := t.heap, ena := s.ena.(rx := t.ena.rx))
    requires |t.fifo| <= UART_FIFO_LEN && Sent(t) == Sent(s)
    ensures Inv(t)
  {
    hide Content, Queued, Sent;
  }

  lemma StepKeeps(s: Tx, a: Action)
    requires Inv(s)
    ensures Inv(Step(s, a))
  {
    hide Content, Queued;
    match a
    case Call(d) =>
    case Enable =>
    case TaskStep => TaskNextKeeps(s);
    case TxInterrupt => if s.ena.tx { TxIntrKeeps(s); }
    case RxInterrupt => SameRingKeeps(s, Step(s, a));
    case Shift =>
      ShiftSent(s);
      SameRingKeeps(s, Step(s, a));
    case Heap(free) => SameRingKeeps(s, Step(s, a));
  }

  function Run(s: Tx, actions: seq<Action>): (t: Tx)
    requires Inv(s)
    ensures Inv(t)
    decreases |actions|
  {
    if actions == [] then s
    else
      StepKeeps(s, actions[0]);
      Run(Step(s, actions[0]), actions[1..])
  }

  // ----- refinement of an atomic FIFO

  /** The specification: a queue that may not have been made yet, and everything taken from it. */
  datatype Fifo = Fifo(made: bool, queue: seq<Byte>, taken: seq<Byte>)

  datatype Label =
    | Stutter
    | Make
    | Enqueue(d: seq<Byte>)
    | Refuse(d: seq<Byte>)
    | NoMemory(d: seq<Byte>)
    | Dequeue(k: nat)

  predicate Allowed(f: Fifo, l: Label) {
    match l
    case Stutter => true
    case Make => !f.made && f.queue == []
    case Enqueue(d) => f.made && |f.queue| + |d| <= 256
    case Refuse(d) => f.made && |f.queue| + |d| > 256
    case NoMemory(d) => !f.made
    case Dequeue(k) => k <= |f.queue|
  }

  function Apply(f: Fifo, l: Label): Fifo {
    match l
    case Make => f.(made := true)
    case Enqueue(d) => f.(queue := f.queue + d)
    case Dequeue(k) => if k <= |f.queue| then f.(queue := f.queue[k..], taken := f.taken + f.queue[..k]) else f
    case _ => f
  }

  /** A state as the specification sees it: the half-counted part of a call is not yet in the queue. */
  function View(s: Tx): Fifo
    requires Inv(s)
  {
    Fifo(!s.ring.Null?, Queued(s.ring)[..Fill(s.ring) - Off(s.pc)], Sent(s))
  }

  /**
   What the step is to the specification: a call takes effect when its last byte
   is counted, or when its length or the heap's size is looked at and found wanting.
   */
  function LabelOf(s: Tx, a: Action): Label
    requires Inv(s)
  {
    match a
    case TaskStep =>
      (match s.pc
       case Check => if !s.ring.Null? && |s.data| > Space(s.ring) then Refuse(s.data) else Stutter
       case Create => if |s.heap| <= UART_TX_BUFFER_SIZE then NoMemory(s.data) else Make
       case Copy => if s.data == [] then Enqueue([]) else Stutter
       case TakeSpace(off, n) => if off + n == |s.data| then Enqueue(s.data) else Stutter
       case _ => Stutter)
    case TxInterrupt => if s.ena.tx then Dequeue(Moved(s)) else Stutter
    case _ => Stutter
  }

  lemma Tail(sent: seq<Byte>, queued: seq<Byte>, accepted: seq<Byte>, counted: seq<Byte>)
    requires sent + queued == accepted + counted && |counted| <= |queued|
    ensures queued == queued[..|queued| - |counted|] + counted
  {
    var whole := sent + queued;
    assert whole[|whole| - |counted|..] == queued[|queued| - |counted|..];
    assert whole[|whole| - |counted|..] == counted;
  }

  /** The counted part of the current call is the tail of the ring. */
  lemma LedgerTail(s: Tx)
    requires Inv(s)
    ensures Queued(s.ring) == Queued(s.ring)[..Fill(s.ring) - Off(s.pc)] + s.data[..Off(s.pc)]
  {
    hide Queued, Placed, Masking, Sent;
    Tail(Sent(s), Queued(s.ring), s.accepted, s.data[..Off(s.pc)]);
  }

  lemma QueueGrows(older: seq<Byte>, data: seq<Byte>, off: nat, n: nat)
    requires off + n <= |data|
    ensures var q := (older + data[..off]) + data[off..off + n];
      && q[..|older|] == older
      && (off + n == |data| ==> q == older + data)
  {
    if off + n == |data| {
      assert data[..off] + data[off..off + n] == data;
    }
  }

  /** The queue behind a counted chunk, by its parts. */
  lemma ChunkQueue(s: Tx)
    requires Inv(s) && s.pc.TakeSpace?
    ensures s.pc.off + s.pc.n <= |s.data| && s.pc.off <= Fill(s.ring)
    ensures Bounded(TaskNext(s)) && Fill(TaskNext(s).ring) == Fill(s.ring) + s.pc.n
    ensures var older, q := View(s).queue, Queued(TaskNext(s).ring);
      && q[..|older|] == older && |older| == Fill(s.ring) - s.pc.off
      && (s.pc.off + s.pc.n == |s.data| ==> q == older + s.data)
  {
    PlacedChunk(s);
    ChunkCounts(s);
    LedgerTail(s);
    QueueGrows(View(s).queue, s.data, s.pc.off, s.pc.n);
    hide Queued, Placed, Masking, Ledger;
  }

  lemma TakeSpaceRefines(s: Tx)
    requires Inv(s) && s.pc.TakeSpace?
    ensures Inv(TaskNext(s))
    ensures View(TaskNext(s)) == Apply(View(s), LabelOf(s, TaskStep))
    ensures Allowed(View(s), LabelOf(s, TaskStep))
  {
    ChunkCounts(s);
    ChunkLedger(s);
    PlacedChunk(s);
    ChunkQueue(s);
    hide Queued, Inv, End;
    var t := TaskNext(s);
    if s.pc.off + s.pc.n == |s.data| {
      assert Queued(t.ring)[..Fill(t.ring)] == Queued(t.ring);
    }
  }

  /** The steps that change neither the queue nor what was sent. */
  lemma SameQueueRefines(s: Tx, t: Tx)
    requires Inv(s) && Inv(t) && Off(t.pc) == Off(s.pc) && t.ring.Null? == s.ring.Null?
    requires Queued(t.ring) == Queued(s.ring) && Sent(t) == Sent(s)
    ensures View(t) == View(s)
  {
    hide Content, Placed, Ledger;
  }

  lemma CreateRefines(s: Tx)
    requires Inv(s) && s.pc.Create?
    ensures Inv(TaskNext(s))
    ensures View(TaskNext(s)) == Apply(View(s), LabelOf(s, TaskStep))
    ensures Allowed(View(s), LabelOf(s, TaskStep))
  {
    CreateKeeps(s);
    hide Content, Ledger;
  }

  lemma PlainRefines(s: Tx)
    requires Inv(s) && Plain(s.pc)
    ensures Inv(TaskNext(s))
    ensures View(TaskNext(s)) == Apply(View(s), LabelOf(s, TaskStep))
    ensures Allowed(View(s), LabelOf(s, TaskStep))
  {
    PlainKeeps(s);
    hide Queued, Placed, Ledger, Masking;
    SameQueueRefines(s, TaskNext(s));
  }

  lemma CopyRefines(s: Tx)
    requires Inv(s) && s.pc.Copy?
    ensures Inv(TaskNext(s))
    ensures View(TaskNext(s)) == Apply(View(s), LabelOf(s, TaskStep))
    ensures Allowed(View(s), LabelOf(s, TaskStep))
  {
    CopyStarts(s);
    hide Queued, Ledger, Masking;
    SameQueueRefines(s, TaskNext(s));
    assert View(s).queue + [] == View(s).queue;
  }

  lemma TaskRefines(s: Tx)
    requires Inv(s)
    ensures Inv(TaskNext(s))
    ensures View(TaskNext(s)) == Apply(View(s), LabelOf(s, TaskStep))
    ensures Allowed(View(s), LabelOf(s, TaskStep))
  {
    match s.pc
    case Create => CreateRefines(s);
    case Copy =>
      CopyRefines(s);
      hide Inv;
    case Memcpy(off, n) =>
      CopyLands(s);
      SameQueueRefines(s, TaskNext(s));
      hide Inv;
    case AdvanceIn(off, n) =>
      AdvanceKeeps(s);
      SameQueueRefines(s, TaskNext(s));
      hide Inv;
    case WrapIn(off, n) =>
      WrapKeeps(s);
      SameQueueRefines(s, TaskNext(s));
      hide Inv;
    case TakeSpace(off, n) =>
      TakeSpaceRefines(s);
      hide Inv;
    case _ =>
      PlainRefines(s);
      hide Inv;
  }

  lemma TxIntrRefines(s: Tx)
    requires Inv(s) && s.ena.tx
    ensures Inv(TxIntr(s)) && Moved(s) <= |View(s).queue|
    ensures View(TxIntr(s)) == Apply(View(s), Dequeue(Moved(s)))
  {
    TxIntrKeeps(s);
    TxIntrTakes(s);
    hide Queued, Placed, Ledger;
    var t := TxIntr(s);
    assert Queued(s.ring)[..Fill(s.ring)] == Queued(s.ring);
    assert Queued(t.ring)[..Fill(t.ring)] == Queued(t.ring);
  }

  /** Every step of every interleaving is one atomic FIFO operation, or none. */
  lemma StepRefines(s: Tx, a: Action)
    requires Inv(s)
    ensures Inv(Step(s, a))
    ensures Allowed(View(s), LabelOf(s, a))
    ensures View(Step(s, a)) == Apply(View(s), LabelOf(s, a))
  {
    StepKeeps(s, a);
    hide Queued, Placed, Ledger;
    match a
    case Call(d) =>
    case Enable =>
    case TaskStep => TaskRefines(s);
    case TxInterrupt => if s.ena.tx { TxIntrRefines(s); }
    case RxInterrupt =>
    case Shift => ShiftSent(s);
    case Heap(free) =>
  }

  function Labels(s: Tx, actions: seq<Action>): seq<Label>
    requires Inv(s)
    decreases |actions|
  {
    if actions == [] then []
    else
      StepKeeps(s, actions[0]);
      [LabelOf(s, actions[0])] + Labels(Step(s, actions[0]), actions[1..])
  }

  predicate AllowedRun(f: Fifo, labels: seq<Label>)
    decreases |labels|
  {
    labels == [] || (Allowed(f, labels[0]) && AllowedRun(Apply(f, labels[0]), labels[1..]))
  }

  function ApplyAll(f: Fifo, labels: seq<Label>): Fifo
    decreases |labels|
  {
    if labels == [] then f else ApplyAll(Apply(f, labels[0]), labels[1..])
  }

  /** Whatever its callers do, the atomic FIFO is bounded, made once, and refuses exactly what it cannot take whole. */
  lemma {:induction false} AllowedRunsBounded(f: Fifo, labels: seq<Label>)
    requires |f.queue| <= 256 && (f.queue != [] ==> f.made) && AllowedRun(f, labels)
    ensures var g := ApplyAll(f, labels);
      && |g.queue| <= 256 && (g.queue != [] ==> g.made) && (f.made ==> g.made && Make !in labels)
      && forall d :: Allowed(g, Refuse(d)) <==> g.made && !Allowed(g, Enqueue(d))
    decreases |labels|
  {
    if labels != [] {
      AllowedRunsBounded(Apply(f, labels[0]), labels[1..]);
    }
  }

  /** Every interleaving of the task, the interrupts and the hardware is a run of the atomic FIFO. */
  lemma {:induction false} RunRefines(s: Tx, actions: seq<Action>)
    requires Inv(s)
    ensures AllowedRun(View(s), Labels(s, actions))
    ensures View(Run(s, actions)) == ApplyAll(View(s), Labels(s, actions))
    decreases |actions|
  {
    hide Inv;
    if actions != [] {
      StepRefines(s, actions[0]);
      RunRefines(Step(s, actions[0]), actions[1..]);
      var labels := Labels(s, actions);
      assert labels[1..] == Labels(Step(s, actions[0]), actions[1..]);
    }
  }

  /** The bytes of the accepted calls, in order. */
  function Accepted(labels: seq<Label>): seq<Byte> {
    if labels == [] then [] else (if labels[0].Enqueue? then labels[0].d else []) + Accepted(labels[1..])
  }

  lemma ApplyConserves(f: Fifo, l: Label)
    ensures var g := Apply(f, l); g.taken + g.queue == f.taken + f.queue + (if l.Enqueue? then l.d else [])
  {
    match l
    case Enqueue(d) =>
    case Dequeue(k) => if k <= |f.queue| { assert f.queue[..k] + f.queue[k..] == f.queue; }
    case _ =>
  }

  lemma {:induction false} FifoConserves(f: Fifo, labels: seq<Label>)
    ensures var g := ApplyAll(f, labels); g.taken + g.queue == f.taken + f.queue + Accepted(labels)
    decreases |labels|
  {
    if labels != [] {
      ApplyConserves(f, labels[0]);
      FifoConserves(Apply(f, labels[0]), labels[1..]);
      hide Apply;
    }
  }

  /**
   From reset, with or without a ring, the hardware has received the accepted
   calls' bytes in call order, the rest of them waiting in the ring.
   */
  lemma HardwareSeesCallOrder(s: Tx, actions: seq<Action>)
    requires Reset(s)
    ensures Inv(s)
    ensures var t := Run(s, actions); Sent(t) + View(t).queue == Accepted(Labels(s, actions))
  {
    ResetInv(s);
    RunRefines(s, actions);
    FifoConserves(View(s), Labels(s, actions));
    assert View(s) == Fifo(!s.ring.Null?, [], []);
    hide Inv;
  }

  // ----- each call takes effect once, in call order

  /** A call that has begun and has neither taken effect nor been refused. */
  predicate Undecided(pc: Pc) {
    InCall(pc) && !pc.ReadUnmask? && !pc.WriteUnmask?
  }

  predicate InCall(pc: Pc) {
    !pc.Idle? && !pc.ReadEnable? && !pc.WriteEnable?
  }

  function Calls(s: Tx, actions: seq<Action>): seq<seq<Byte>>
    requires Inv(s)
    decreases |actions|
  {
    if actions == [] then []
    else
      StepKeeps(s, actions[0]);
      (if actions[0].Call? && s.pc.Idle? then [actions[0].d] else []) + Calls(Step(s, actions[0]), actions[1..])
  }

  function Decided(labels: seq<Label>): seq<seq<Byte>> {
    if labels == [] then []
    else
      (match labels[0] case Enqueue(d) => [d] case Refuse(d) => [d] case NoMemory(d) => [d] case _ => [])
        + Decided(labels[1..])
  }

  function Current(s: Tx): seq<seq<Byte>> {
    if Undecided(s.pc) then [s.data] else []
  }

  /** The calls made are exactly the enqueues and refusals of the specification run, in order, plus one under way. */
  lemma {:induction false} CallsTakeEffectOnce(s: Tx, actions: seq<Action>)
    requires Inv(s)
    ensures Current(s) + Calls(s, actions) == Decided(Labels(s, actions)) + Current(Run(s, actions))
    decreases |actions|
  {
    hide Inv, Step, LabelOf, Current;
    if actions != [] {
      var a := actions[0];
      var t := Step(s, a);
      StepKeeps(s, a);
      CallsTakeEffectOnce(t, actions[1..]);
      var labels := Labels(s, actions);
      assert labels[1..] == Labels(t, actions[1..]);
      OneDecision(s, a);
      Regroup(Current(s), if a.Call? && s.pc.Idle? then [a.d] else [], Calls(t, actions[1..]),
        Decided([labels[0]]), Current(t), Decided(labels[1..]), Current(Run(s, actions)));
    }
  }

  lemma Regroup<T>(x: seq<T>, call: seq<T>, calls: seq<T>, decision: seq<T>, y: seq<T>, decisions: seq<T>, z: seq<T>)
    requires x + call == decision + y && y + calls == decisions + z
    ensures x + (call + calls) == (decision + decisions) + z
  {
    assert x + (call + calls) == (x + call) + calls;
    assert (decision + y) + calls == decision + (y + calls);
  }

  lemma OneDecision(s: Tx, a: Action)
    requires Inv(s)
    ensures Current(s) + (if a.Call? && s.pc.Idle? then [a.d] else [])
      == Decided([LabelOf(s, a)]) + Current(Step(s, a))
  {
    if a.TaskStep? && s.pc.TakeSpace? {
      PlacedChunk(s);
    }
    hide Inv, TxIntr, Ring.Memcpy, Ring.WrapIn, Ring.TakeSpace, NewBuff;
  }

  // ----- a call with nothing in between

  /** The current chunk is a non-empty part of the call's data. */
  predicate Chunked(pc: Pc, data: seq<Byte>) {
    match pc
    case Memcpy(off, n) => 0 < n && off + n <= |data|
    case AdvanceIn(off, n) => 0 < n && off + n <= |data|
    case WrapIn(off, n) => 0 < n && off + n <= |data|
    case TakeSpace(off, n) => 0 < n && off + n <= |data|
    case _ => true
  }

  lemma InvChunked(s: Tx)
    requires Inv(s)
    ensures Chunked(s.pc, s.data)
  {
    hide Content, Queued;
  }

  /** How far the task is from returning. */
  function Distance(s: Tx): nat
    requires Chunked(s.pc, s.data)
  {
    match s.pc
    case Idle => 0
    case Overrun => 0
    case NullCopy => 0
    case WriteUnmask(_) => 1
    case ReadUnmask => 2
    case TakeSpace(off, n) => 3 + 4 * (|s.data| - off - n)
    case WrapIn(off, n) => 4 + 4 * (|s.data| - off - n)
    case AdvanceIn(off, n) => 5 + 4 * (|s.data| - off - n)
    case Memcpy(off, n) => 6 + 4 * (|s.data| - off - n)
    case Copy => 7 + 4 * |s.data|
    case Create => 8 + 4 * |s.data|
    case Check => 9 + 4 * |s.data|
    case WriteMask(_) => 10 + 4 * |s.data|
    case ReadMask => 11 + 4 * |s.data|
    case WriteEnable(_) => 1
    case ReadEnable => 2
  }

  /** The source would go on over memory that is not the ring's. */
  predicate Wild(pc: Pc) {
    pc.Overrun? || pc.NullCopy?
  }

  predicate Stopped(pc: Pc) {
    pc.Idle? || Wild(pc)
  }

  lemma TaskAdvances(s: Tx)
    requires Inv(s) && !Stopped(s.pc)
    ensures Inv(TaskNext(s)) && Chunked(s.pc, s.data) && Chunked(TaskNext(s).pc, TaskNext(s).data)
    ensures Distance(TaskNext(s)) < Distance(s)
  {
    hide Inv;
    TaskNextKeeps(s);
    InvChunked(s);
    InvChunked(TaskNext(s));
    hide Ring.Memcpy, Ring.WrapIn, Ring.TakeSpace, NewBuff;
  }

  /** The task runs on alone until it returns or goes wild. */
  function Finish(s: Tx): (t: Tx)
    requires Inv(s)
    ensures Inv(t) && Stopped(t.pc)
    decreases (InvChunked(s); Distance(s))
  {
    if Stopped(s.pc) then s
    else
      TaskAdvances(s);
      Finish(TaskNext(s))
  }

  /** The call has not yet looked for the ring. */
  predicate Early(pc: Pc) {
    pc.ReadMask? || pc.WriteMask? || pc.Check? || pc.Create?
  }

  /** The call will make a ring on a heap of so many bytes. */
  predicate Makes(s: Tx) {
    Early(s.pc) && s.ring.Null? && |s.heap| > UART_TX_BUFFER_SIZE
  }

  /** A call overruns the ring it makes when it carries more bytes than the ring holds. */
  predicate Overruns(s: Tx) {
    Makes(s) && |s.heap| >= STRUCT_SIZE + UART_TX_BUFFER_SIZE && |s.data| > UART_TX_BUFFER_SIZE
  }

  /** It copies through a null pointer when the ring it makes, or finds, is hollow. */
  predicate CopiesToNull(s: Tx) {
    && s.data != []
    && ( || (Makes(s) && |s.heap| < STRUCT_SIZE + UART_TX_BUFFER_SIZE)
         || ((Early(s.pc) || s.pc.Copy?) && s.ring.Hollow? && |s.data| <= s.ring.size))
  }

  /** What a call that is not decided yet will do to the queue, left alone. */
  function AfterCall(f: Fifo, d: seq<Byte>, free: nat): Fifo {
    if !f.made && free <= UART_TX_BUFFER_SIZE then f
    else if |f.queue| + |d| <= UART_TX_BUFFER_SIZE then Fifo(true, f.queue + d, f.taken)
    else f
  }

  /**
   A call left alone overruns the ring in exactly one case and copies through null
   in exactly two; otherwise it returns, appends its data whole if it fits and
   leaves the ring as it was if not, and ends with the interrupt enabled.
   */
  lemma {:induction false} FinishedCall(s: Tx)
    requires Inv(s) && InCall(s.pc)
    ensures var t := Finish(s);
      && (t.pc.Overrun? <==> s.pc.Overrun? || Overruns(s))
      && (t.pc.NullCopy? <==> s.pc.NullCopy? || CopiesToNull(s))
      && (t.pc.Idle? ==>
        && t.ena.tx
        && View(t) == (if Undecided(s.pc) then AfterCall(View(s), s.data, |s.heap|) else View(s)))
    decreases (InvChunked(s); Distance(s))
  {
    if !Stopped(s.pc) {
      TaskAdvances(s);
      TaskRefines(s);
      OneTaskStep(s);
      hide Inv;
      if InCall(TaskNext(s).pc) {
        FinishedCall(TaskNext(s));
      }
    }
  }

  lemma OneTaskStep(s: Tx)
    requires Inv(s) && InCall(s.pc) && !Wild(s.pc)
    ensures Inv(TaskNext(s))
    ensures var t := TaskNext(s);
      && (t.pc.Overrun? || Overruns(t) <==> Overruns(s))
      && (t.pc.NullCopy? || CopiesToNull(t) <==> CopiesToNull(s))
      && (t.pc.Idle? ==> t.ena.tx && !Undecided(s.pc))
      && (!InCall(t.pc) ==> t.pc.Idle?)
      && (!Undecided(s.pc) ==> !Undecided(t.pc) && View(t) == View(s))
      && (Undecided(s.pc) && Undecided(t.pc) && !Wild(t.pc) ==>
        t.data == s.data && AfterCall(View(t), s.data, |t.heap|) == AfterCall(View(s), s.data, |s.heap|))
      && (Undecided(s.pc) && !Undecided(t.pc) ==> View(t) == AfterCall(View(s), s.data, |s.heap|))
  {
    TaskRefines(s);
    ControlFacts(s);
    LabelFacts(s);
    hide Inv, View, TaskNext, LabelOf, Overruns, CopiesToNull;
    if LabelOf(s, TaskStep).Make? {
      assert View(s).queue == [];
    }
  }

  /** Where one task step of a call leads, the queue apart. */
  lemma ControlFacts(s: Tx)
    requires Inv(s) && InCall(s.pc) && !Wild(s.pc)
    ensures var t := TaskNext(s);
      && (t.pc.Overrun? || Overruns(t) <==> Overruns(s))
      && (t.pc.NullCopy? || CopiesToNull(t) <==> CopiesToNull(s))
      && (t.pc.Idle? ==> t.ena.tx && !Undecided(s.pc))
      && (!InCall(t.pc) ==> t.pc.Idle?)
      && t.heap == s.heap && (InCall(t.pc) ==> t.data == s.data)
  {
    RingFacts(s);
    hide Inv, Ring.Memcpy, Ring.WrapIn, Ring.TakeSpace;
  }

  lemma RingFacts(s: Tx)
    requires Inv(s)
    ensures s.pc.Create? ==> s.ring.Null?
    ensures s.pc.Copy? ==> !s.ring.Null? && |s.data| <= Space(s.ring)
    ensures s.ring.Hollow? ==> s.ring.size == UART_TX_BUFFER_SIZE
  {
  }

  /** Which label a task step of a call can have. */
  lemma LabelFacts(s: Tx)
    requires Inv(s) && InCall(s.pc) && !Wild(s.pc)
    ensures var t, l := TaskNext(s), LabelOf(s, TaskStep);
      && (!Undecided(s.pc) ==> !Undecided(t.pc) && l == Stutter)
      && (Undecided(s.pc) && Undecided(t.pc) && !Wild(t.pc) ==>
        l == Stutter || (l == Make && |s.heap| > UART_TX_BUFFER_SIZE && |s.data| <= UART_TX_BUFFER_SIZE))
      && (Undecided(s.pc) && !Undecided(t.pc) ==>
        || l == Enqueue(s.data) || l == Refuse(s.data)
        || (l == NoMemory(s.data) && |s.heap| <= UART_TX_BUFFER_SIZE))
  {
    hide Inv, Ring.Memcpy, Ring.WrapIn, Ring.TakeSpace, NewBuff;
  }

  // ----- a whole call as one operation

  /** tx_buff_enq with nothing in between, where it returns. */
  function Enqueued(s: Tx, d: seq<Byte>): Tx
    requires Inv(s) && s.pc.Idle?
  {
    var ring := if s.ring.Null? && |s.heap| > UART_TX_BUFFER_SIZE then NewBuff(s.heap, UART_TX_BUFFER_SIZE) else s.ring;
    var t := s.(ring := ring, ena := s.ena.(tx := true), data := []);
    if !ring.Null? && |d| <= Space(ring) then t.(ring := Filled(ring, d), accepted := s.accepted + d) else t
  }

  /** Uart_Buf_Cpy, which leaves a hollow ring alone when there is nothing to copy. */
  function Filled(ring: Buff, d: seq<Byte>): Buff
    requires InPlace(ring) && !ring.Null? && |d| <= Space(ring)
  {
    if ring.Buff? then Cpy(ring, d) else ring
  }

  /** How a call from an idle task ends, by what it finds. */
  lemma EndsByCase(s: Tx, d: seq<Byte>)
    requires Inv(s) && s.pc.Idle?
    ensures var c := s.(pc := ReadMask, data := d);
      match s.ring
      case Null =>
        && (Overruns(c) <==> |s.heap| >= STRUCT_SIZE + UART_TX_BUFFER_SIZE && |d| > UART_TX_BUFFER_SIZE)
        && (CopiesToNull(c) <==> UART_TX_BUFFER_SIZE < |s.heap| < STRUCT_SIZE + UART_TX_BUFFER_SIZE && d != [])
      case Hollow(size) => !Overruns(c) && (CopiesToNull(c) <==> d != [] && |d| <= size)
      case Buff(_, _, _, _) => !Overruns(c) && !CopiesToNull(c)
  {
    hide Inv;
  }

  /** The state after a call that returns, by what it finds. */
  lemma EnqueuedByCase(s: Tx, d: seq<Byte>)
    requires Inv(s) && s.pc.Idle?
    ensures InPlace(s.ring)
    ensures var t := s.(ena := s.ena.(tx := true), data := []);
      Enqueued(s, d) ==
      if s.ring.Null? && |s.heap| <= UART_TX_BUFFER_SIZE then t
      else
        var ring := if s.ring.Null? then NewBuff(s.heap, UART_TX_BUFFER_SIZE) else s.ring;
        if |d| > Space(ring) then t.(ring := ring)
        else t.(ring := Filled(ring, d), accepted := s.accepted + d)
  {
  }

  lemma FinishStep(s: Tx)
    requires Inv(s) && !Stopped(s.pc)
    ensures Inv(TaskNext(s)) && Finish(s) == Finish(TaskNext(s))
  {
    TaskAdvances(s);
    hide Inv;
  }

  /** The four accesses that copy a chunk. */
  lemma FinishChunk(s: Tx) returns (u: Tx)
    requires Inv(s) && s.pc.Memcpy?
    ensures Fits(s.ring, s.data[s.pc.off..s.pc.off + s.pc.n])
    ensures var c := Chunk(s.ring, s.data[s.pc.off..s.pc.off + s.pc.n]); var t := s.(ring := c);
      u == if s.pc.off + s.pc.n == |s.data| then t.(accepted := s.accepted + s.data, pc := ReadUnmask)
           else t.(pc := NextChunk(t, s.pc.off + s.pc.n))
    ensures Inv(u) && Finish(s) == Finish(u)
  {
    hide Inv, Finish, Fits, Ring.Memcpy, Ring.WrapIn, Ring.TakeSpace;
    ChunkFits(s);
    var s1 := TaskNext(s);
    FinishStep(s);
    var s2 := TaskNext(s1);
    FinishStep(s1);
    var s3 := TaskNext(s2);
    FinishStep(s2);
    u := TaskNext(s3);
    FinishStep(s3);
  }

  lemma ChunkFits(s: Tx)
    requires Inv(s) && s.pc.Memcpy?
    ensures s.pc.off + s.pc.n <= |s.data| && Fits(s.ring, s.data[s.pc.off..s.pc.off + s.pc.n])
  {
    hide Content;
  }

  /** The two accesses that unmask. */
  lemma FinishUnmask(s: Tx)
    requires Inv(s) && s.pc.ReadUnmask?
    ensures Finish(s) == s.(ena := s.ena.(tx := true), pc := Idle, data := [])
  {
    FinishStep(s);
    FinishStep(TaskNext(s));
    hide Inv;
  }

  /** How a call that has copied its data into `ring` returns. */
  function Done(s: Tx, ring: Buff): Tx {
    s.(ring := ring, accepted := s.accepted + s.data, ena := s.ena.(tx := true), pc := Idle, data := [])
  }

  /** The last chunk. */
  lemma FinishLast(s: Tx)
    requires Inv(s) && s.pc.Memcpy? && s.pc.off + s.pc.n == |s.data|
    ensures Fits(s.ring, s.data[s.pc.off..]) && Finish(s) == Done(s, Chunk(s.ring, s.data[s.pc.off..]))
  {
    hide Inv, Finish, TaskNext, Chunk, Fits;
    assert s.data[s.pc.off..s.pc.off + s.pc.n] == s.data[s.pc.off..];
    var u := FinishChunk(s);
    FinishUnmask(u);
  }

  /** Uart_Buf_Cpy's one or two chunks. */
  lemma FinishCopy(s: Tx)
    requires Inv(s) && s.pc.Copy? && s.ring.Buff?
    ensures s.ring.Buff? && InPlace(s.ring) && |s.data| <= s.ring.space
    ensures Finish(s) == Done(s, Cpy(s.ring, s.data))
  {
    CopyBegins(s);
    CopyNext(s);
    FinishStep(s);
    if s.data == [] {
      FinishNothing(s);
    } else if |s.data| <= |s.ring.bytes| - s.ring.inPos {
      FinishOne(s, TaskNext(s));
    } else {
      FinishTwo(s, TaskNext(s));
    }
    hide Inv, Finish, TaskNext, Cpy, InPlace, NextChunk;
  }

  lemma FinishNothing(s: Tx)
    requires Inv(s) && s.pc.Copy? && s.data == []
    ensures InPlace(s.ring) && !s.ring.Null?
    ensures Finish(s) == Done(s, Filled(s.ring, s.data))
  {
    FinishStep(s);
    hide Finish;
    FinishUnmask(s.(pc := ReadUnmask));
    assert s.accepted + s.data == s.accepted;
  }

  lemma FinishOne(s: Tx, s1: Tx)
    requires s.ring.Buff? && InPlace(s.ring) && 0 < |s.data| <= s.ring.space
    requires |s.data| <= |s.ring.bytes| - s.ring.inPos
    requires Inv(s1) && s1 == s.(pc := NextChunk(s, 0))
    ensures Finish(s1) == Done(s, Cpy(s.ring, s.data))
  {
    OnlyChunk(s.ring, s.data);
    hide Inv, Finish, Chunk, Fits, Cpy, InPlace;
    assert s.data[0..] == s.data;
    FinishLast(s1);
  }

  lemma FinishTwo(s: Tx, s1: Tx)
    requires NeedsTwo(s.ring, s.data) && Inv(s1) && s1 == s.(pc := NextChunk(s, 0))
    ensures Finish(s1) == Done(s, Cpy(s.ring, s.data))
  {
    var tail := |s.ring.bytes| - s.ring.inPos;
    SecondChunk(s.ring, s.data);
    hide Inv, Finish, Chunk, Fits, Cpy, InPlace;
    var u := FinishChunk(s1);
    assert s.data[0..tail] == s.data[..tail];
    assert u.pc.off == tail && u.pc.n == |s.data| - tail;
    FinishLast(u);
  }

  lemma CopyNext(s: Tx)
    requires Inv(s) && s.pc.Copy? && s.ring.Buff?
    ensures s.ring.Buff? && s.ring.inPos <= |s.ring.bytes|
    ensures TaskNext(s) == s.(pc := if s.data == [] then ReadUnmask else NextChunk(s, 0))
    ensures s.data != [] && |s.ring.bytes| - s.ring.inPos < |s.data| ==> NeedsTwo(s.ring, s.data)
  {
    CopyBegins(s);
    hide Inv, InPlace;
  }

  lemma OnlyChunk(b: Buff, data: seq<Byte>)
    requires b.Buff? && InPlace(b) && |data| <= b.space
    ensures data == [] ==> Cpy(b, data) == b
    ensures data != [] && |data| <= |b.bytes| - b.inPos ==> Fits(b, data) && Cpy(b, data) == Chunk(b, data)
  {
    hide Chunk;
  }

  predicate NeedsTwo(b: Buff, data: seq<Byte>) {
    && b.Buff? && InPlace(b) && |data| <= b.space <= |b.bytes|
    && b.inPos < |b.bytes| && |b.bytes| - b.inPos < |data|
  }

  /** Behind a chunk up to the end of the buffer, the rest goes to its start. */
  lemma SecondChunk(b: Buff, data: seq<Byte>)
    requires NeedsTwo(b, data)
    ensures var tail := |b.bytes| - b.inPos;
      && Fits(b, data[..tail])
      && (var c := Chunk(b, data[..tail]);
          && c.Buff? && c.inPos == 0 && |c.bytes| == |b.bytes|
          && Fits(c, data[tail..]) && Cpy(b, data) == Chunk(c, data[tail..]))
  {
    ChunkInPlace(b, data[..|b.bytes| - b.inPos]);
    hide Chunk;
  }

  lemma CopyBegins(s: Tx)
    requires Inv(s) && s.pc.Copy? && s.ring.Buff?
    ensures s.ring.Buff? && InPlace(s.ring) && |s.data| <= s.ring.space <= |s.ring.bytes| == UART_TX_BUFFER_SIZE
    ensures s.ring.inPos < |s.ring.bytes|
  {
    hide Content;
  }

  /** A call from an idle task, left alone, is one atomic operation on the ring if it returns. */
  lemma CallIsEnqueued(s: Tx, d: seq<Byte>)
    requires Inv(s) && s.pc.Idle?
    ensures Inv(Step(s, Call(d)))
    ensures var c := Step(s, Call(d)); var t := Finish(c);
      && (t.pc.Overrun? <==> Overruns(c)) && (t.pc.NullCopy? <==> CopiesToNull(c))
      && (t.pc.Idle? ==> t == Enqueued(s, d))
  {
    hide Inv, Finish, Filled, NewBuff, NextChunk, Ring.Memcpy, Ring.WrapIn, Ring.TakeSpace;
    StepKeeps(s, Call(d));
    var s0 := Step(s, Call(d));
    FinishedCall(s0);
    FinishStep(s0);
    var s1 := TaskNext(s0);
    FinishStep(s1);
    var s2 := TaskNext(s1);
    FinishStep(s2);
    var s3 := TaskNext(s2);
    if !s.ring.Null? {
      FinishDecided(s3);
    } else {
      FinishStep(s3);
      var s4 := TaskNext(s3);
      if Wild(s4.pc) {
        FinishWild(s4);
      } else {
        FinishDecided(s4);
      }
    }
  }

  lemma FinishWild(s: Tx)
    requires Inv(s) && Wild(s.pc)
    ensures Finish(s) == s
  {
    hide Inv;
  }

  /** Once the length or the heap has been looked at. */
  lemma FinishDecided(s: Tx)
    requires Inv(s) && (s.pc.Copy? || s.pc.ReadUnmask?)
    ensures s.pc.Copy? ==> !s.ring.Null? && InPlace(s.ring) && |s.data| <= Space(s.ring)
    ensures Finish(s).pc.Idle? ==>
      Finish(s) == if s.pc.Copy? then Done(s, Filled(s.ring, s.data))
                   else s.(ena := s.ena.(tx := true), pc := Idle, data := [])
  {
    if s.pc.ReadUnmask? {
      FinishUnmask(s);
    } else if s.data == [] {
      FinishNothing(s);
    } else if s.ring.Buff? {
      FinishCopy(s);
    } else {
      FinishStep(s);
      FinishWild(TaskNext(s));
    }
    RingFacts(s);
    hide Finish, Cpy;
  }

  lemma HeapReset(s: Tx, free: seq<Byte>)
    requires Reset(s)
    ensures Inv(s) && Reset(Step(s, Heap(free))) && Step(s, Heap(free)) == s.(heap := free)
  {
    ResetInv(s);
  }

  /** From reset without a ring, 257 bytes on a heap with room for the ring overrun it. */
  lemma OversizedCallOverruns(s: Tx, free: seq<Byte>, d: seq<Byte>)
    requires Reset(s) && s.ring.Null? && |free| >= 284 && |d| == 257
    ensures Inv(s) && Inv(Step(s, Heap(free)))
    ensures var t := Step(Step(s, Heap(free)), Call(d)); Inv(t) && Finish(t).pc == Overrun
  {
    HeapReset(s, free);
    hide Step;
    ResetInv(s.(heap := free));
    CallIsEnqueued(s.(heap := free), d);
    hide Inv;
  }

  /** From reset without a ring, one byte on a heap of 257 bytes is copied through a null pointer. */
  lemma TightHeapCopiesToNull(s: Tx, free: seq<Byte>, x: Byte)
    requires Reset(s) && s.ring.Null? && |free| == 257
    ensures Inv(s) && Inv(Step(s, Heap(free)))
    ensures var t := Step(Step(s, Heap(free)), Call([x])); Inv(t) && Finish(t).pc == NullCopy
  {
    HeapReset(s, free);
    hide Step;
    ResetInv(s.(heap := free));
    CallIsEnqueued(s.(heap := free), [x]);
    hide Inv;
  }

  // ----- nothing is stranded

  /** Interrupts taken with room in the hardware FIFO. */
  function UsefulInterrupts(s: Tx, actions: seq<Action>): nat
    requires Inv(s)
    decreases |actions|
  {
    if actions == [] then 0
    else
      StepKeeps(s, actions[0]);
      (if actions[0].TxInterrupt? && |s.fifo| < UART_FIFO_LEN then 1 else 0)
        + UsefulInterrupts(Step(s, actions[0]), actions[1..])
  }

  predicate NoCall(actions: seq<Action>) {
    forall i | 0 <= i < |actions| :: !actions[i].Call?
  }

  lemma StepDrains(s: Tx, a: Action)
    requires Inv(s) && !InCall(s.pc) && !a.Call?
    ensures Inv(Step(s, a)) && !InCall(Step(s, a).pc) && Step(s, a).accepted == s.accepted
    ensures Fill(Step(s, a).ring) <= Fill(s.ring)
    ensures a.TxInterrupt? && |s.fifo| < UART_FIFO_LEN && Fill(s.ring) > 0 ==> Fill(Step(s, a).ring) < Fill(s.ring)
  {
    StepKeeps(s, a);
    hide Queued, Placed, Ledger;
  }

  /**
   With no further calls the ring drains, whatever else the task does: one useful
   interrupt per byte is always enough, and everything reaches the hardware.
   */
  lemma {:induction false} Drains(s: Tx, actions: seq<Action>)
    requires Inv(s) && !InCall(s.pc) && NoCall(actions)
    requires UsefulInterrupts(s, actions) >= Fill(s.ring)
    ensures var t := Run(s, actions); Fill(t.ring) == 0 && Sent(t) == s.accepted
    decreases |actions|
  {
    if actions == [] {
      assert s.accepted + s.data[..0] == s.accepted;
      assert Sent(s) + Queued(s.ring) == Sent(s);
    } else {
      StepDrains(s, actions[0]);
      hide Inv;
      Drains(Step(s, actions[0]), actions[1..]);
    }
  }

  // ----- the shared enable register

  /** Between the read and the write of the register, when masking and when unmasking. */
  predicate InWindow(pc: Pc) {
    pc.WriteMask? || pc.WriteUnmask?
  }

  /** The run ends just as the call returns. */
  predicate Returns(s: Tx, actions: seq<Action>)
    requires Inv(s)
    decreases |actions|
  {
    if actions == [] then s.pc.Idle?
    else
      !s.pc.Idle? && (StepKeeps(s, actions[0]); Returns(Step(s, actions[0]), actions[1..]))
  }

  /** A receive interrupt came while the task stood in a window, or outside the windows. */
  predicate Came(s: Tx, actions: seq<Action>, window: bool)
    requires Inv(s)
    decreases |actions|
  {
    actions != [] &&
    ( || (actions[0].RxInterrupt? && InWindow(s.pc) == window)
      || (StepKeeps(s, actions[0]); Came(Step(s, actions[0]), actions[1..], window)))
  }

  /** The receive bits as the task will leave them, if no interrupt comes outside its windows. */
  function Kept(s: Tx): bool {
    if InWindow(s.pc) then s.pc.reg.rx else s.ena.rx
  }

  lemma StepKept(s: Tx, a: Action)
    requires Inv(s) && InCall(s.pc)
    ensures InCall(Step(s, a).pc) || Step(s, a).pc.Idle?
    ensures Kept(Step(s, a)) == (Kept(s) && !(a.RxInterrupt? && !InWindow(s.pc)))
  {
    hide Queued, Placed, Ledger;
  }

  /** From anywhere in a call to its return, exactly the interrupts outside the two windows count. */
  lemma {:induction false} ReceiveMaskAtReturn(s: Tx, actions: seq<Action>)
    requires Inv(s) && (InCall(s.pc) || s.pc.Idle?) && Returns(s, actions)
    ensures Run(s, actions).ena.rx == (Kept(s) && !Came(s, actions, false))
    ensures RxInterrupt in actions <==> Came(s, actions, false) || Came(s, actions, true)
    decreases |actions|
  {
    hide Inv, Step, Kept;
    if actions == [] {
      IdleKept(s);
    } else {
      StepKeeps(s, actions[0]);
      StepKept(s, actions[0]);
      ReceiveMaskAtReturn(Step(s, actions[0]), actions[1..]);
      assert actions == [actions[0]] + actions[1..];
    }
  }

  lemma IdleKept(s: Tx)
    requires s.pc.Idle?
    ensures Kept(s) == s.ena.rx
  {
  }

  /**
   Masking and unmasking each read the whole register and write it back. A whole
   call returns with the receive bits other than the interrupts left them if and
   only if they were set, a receive interrupt came, and every one that came fell
   in one of the two windows.
   */
  lemma CallLosesReceiveMask(s: Tx, actions: seq<Action>)
    requires Inv(s) && s.pc.ReadMask? && Returns(s, actions)
    ensures Run(s, actions).ena.rx != (s.ena.rx && RxInterrupt !in actions)
       <==> s.ena.rx && RxInterrupt in actions && !Came(s, actions, false)
  {
    ReceiveMaskAtReturn(s, actions);
    hide Inv;
  }

  /**
   uart_rx_intr_enable writes back the whole register too. Whatever a transmit
   interrupt has done in between, a ring that still holds bytes stays enabled.
   */
  lemma {:induction false} EnableKeepsTransmitMask(s: Tx, between: seq<Action>)
    requires Inv(s) && s.pc.WriteEnable? && TaskStep !in between
    ensures var t := Run(s, between + [TaskStep]);
      t.pc.Idle? && t.ena.rx && (Fill(t.ring) > 0 ==> t.ena.tx)
    decreases |between|
  {
    hide Content, Queued, Placed, Ledger;
    var later := between + [TaskStep];
    StepKeeps(s, later[0]);
    if between == [] {
      assert later[1..] == [];
    } else {
      assert later[1..] == between[1..] + [TaskStep];
      EnableKeepsTransmitMask(Step(s, later[0]), between[1..]);
    }
  }

  lemma {:induction false} EnableWrites(s: Tx, first: seq<Action>, between: seq<Action>)
    requires Inv(s) && s.pc.ReadEnable? && TaskStep !in first && TaskStep !in between
    ensures var t := Run(s, first + ([TaskStep] + (between + [TaskStep])));
      t.pc.Idle? && t.ena.rx && (Fill(t.ring) > 0 ==> t.ena.tx)
    decreases |first|
  {
    hide Content, Queued, Placed, Ledger;
    var rest := [TaskStep] + (between + [TaskStep]);
    var all := first + rest;
    StepKeeps(s, all[0]);
    if first == [] {
      assert all == rest && all[1..] == between + [TaskStep];
      EnableKeepsTransmitMask(Step(s, TaskStep), between);
    } else {
      assert all[1..] == first[1..] + rest;
      EnableWrites(Step(s, all[0]), first[1..], between);
    }
  }

  /**
   A whole call of uart_rx_intr_enable, with any interrupts and any bytes sent
   around its read and before its write: the receive interrupts end on, and a ring
   that still holds bytes stays enabled.
   */
  lemma EnableCall(s: Tx, first: seq<Action>, between: seq<Action>)
    requires Inv(s) && s.pc.Idle? && TaskStep !in first && TaskStep !in between
    ensures var t := Run(s, [Enable] + (first + ([TaskStep] + (between + [TaskStep]))));
      t.pc.Idle? && t.ena.rx && (Fill(t.ring) > 0 ==> t.ena.tx)
  {
    var rest := first + ([TaskStep] + (between + [TaskStep]));
    assert ([Enable] + rest)[1..] == rest;
    StepKeeps(s, Enable);
    assert Step(s, Enable).pc == ReadEnable;
    hide Inv, Step;
    EnableWrites(Step(s, Enable), first, between);
  }

  // ----- the loss at two inputs

  /** The states of a call with no data on an empty ring. */
  predicate Quiet(s: Tx, ena: Ena, pc: Pc) {
    && Reset(s) && s.ring.Buff? && (Unmasked(pc) || !ena.tx)
    && (pc.Idle? || pc.ReadMask? || pc.WriteMask? || pc.Check? || pc.Copy? || pc.ReadUnmask? || pc.WriteUnmask?)
  }

  function EmptyNext(ena: Ena, pc: Pc, a: Action): (Ena, Pc) {
    match a
    case RxInterrupt => (ena.(rx := false), pc)
    case Call(d) => (ena, if pc.Idle? then ReadMask else pc)
    case TaskStep =>
      (match pc
       case ReadMask => (ena, WriteMask(ena))
       case WriteMask(reg) => (reg.(tx := false), Check)
       case Check => (ena, Copy)
       case Copy => (ena, ReadUnmask)
       case ReadUnmask => (ena, WriteUnmask(ena))
       case WriteUnmask(reg) => (reg.(tx := true), Idle)
       case _ => (ena, pc))
    case _ => (ena, pc)
  }

  lemma QuietInv(s: Tx, ena: Ena, pc: Pc)
    requires Quiet(s, ena, pc)
    ensures Inv(s.(ena := ena, pc := pc))
  {
  }

  function Alone(n: nat): seq<Action> {
    if n == 0 then [] else [TaskStep] + Alone(n - 1)
  }

  lemma EmptyStep(s: Tx, ena: Ena, pc: Pc, a: Action, rest: seq<Action>)
    requires Quiet(s, ena, pc) && (a == Call([]) || a.TaskStep? || a.RxInterrupt?)
    ensures var t := s.(ena := ena, pc := pc); var (e, p) := EmptyNext(ena, pc, a); var u := s.(ena := e, pc := p);
      Inv(t) && Inv(u) && Run(t, [a] + rest) == Run(u, rest)
  {
    QuietInv(s, ena, pc);
    hide Inv;
    assert ([a] + rest)[1..] == rest;
    assert Step(s.(ena := ena, pc := pc), a)
      == s.(ena := EmptyNext(ena, pc, a).0, pc := EmptyNext(ena, pc, a).1);
    StepKeeps(s.(ena := ena, pc := pc), a);
  }

  /** `n` task steps with nothing in between. */
  function EmptyAfter(ena: Ena, pc: Pc, n: nat): (Ena, Pc)
    decreases n
  {
    if n == 0 then (ena, pc)
    else
      var (e, p) := EmptyNext(ena, pc, TaskStep);
      EmptyAfter(e, p, n - 1)
  }

  lemma {:induction false} EmptyAlone(s: Tx, ena: Ena, pc: Pc, n: nat, rest: seq<Action>)
    requires Quiet(s, ena, pc)
    ensures var t := s.(ena := ena, pc := pc); var (e, p) := EmptyAfter(ena, pc, n); var u := s.(ena := e, pc := p);
      Inv(t) && Inv(u) && Run(t, Alone(n) + rest) == Run(u, rest)
    decreases n
  {
    hide Inv, Run, Reset;
    QuietInv(s, ena, pc);
    if n == 0 {
      assert Alone(n) + rest == rest;
    } else {
      assert Alone(n) + rest == [TaskStep] + (Alone(n - 1) + rest);
      EmptyStep(s, ena, pc, TaskStep, Alone(n - 1) + rest);
      var (e, p) := EmptyNext(ena, pc, TaskStep);
      EmptyAlone(s, e, p, n - 1, rest);
    }
  }

  lemma EmptyRun(s: Tx, ena: Ena, pc: Pc, n: nat)
    requires Quiet(s, ena, pc)
    ensures var t := s.(ena := ena, pc := pc); var (e, p) := EmptyAfter(ena, pc, n); var u := s.(ena := e, pc := p);
      Inv(t) && Run(t, Alone(n)) == u
  {
    EmptyAlone(s, ena, pc, n, []);
    assert Alone(n) + [] == Alone(n);
    hide Inv;
  }

  /** From reset, a receive interrupt between the read and the write of the mask is undone by an empty call. */
  lemma LostWhileMasking(s: Tx)
    requires Reset(s) && s.ring.Buff?
    ensures Inv(s)
    ensures var t := Run(s, [Call([])] + ([TaskStep] + ([RxInterrupt] + Alone(5)))); t.pc.Idle? && t.ena.rx
  {
    hide Inv, Run, Alone;
    var on, lost := Ena(false, true), Ena(false, false);
    assert s == s.(ena := on, pc := Idle);
    EmptyStep(s, on, Idle, Call([]), [TaskStep] + ([RxInterrupt] + Alone(5)));
    EmptyStep(s, on, ReadMask, TaskStep, [RxInterrupt] + Alone(5));
    EmptyStep(s, on, WriteMask(on), RxInterrupt, Alone(5));
    EmptyRun(s, lost, WriteMask(on), 5);
    assert EmptyAfter(lost, WriteMask(on), 5) == (Ena(true, true), Idle);
  }

  /** The same between the read and the write that unmask. */
  lemma LostWhileUnmasking(s: Tx)
    requires Reset(s) && s.ring.Buff?
    ensures Inv(s)
    ensures var t := Run(s, [Call([])] + (Alone(5) + ([RxInterrupt] + Alone(1)))); t.pc.Idle? && t.ena.rx
  {
    hide Inv, Run, Alone;
    var on, lost := Ena(false, true), Ena(false, false);
    assert s == s.(ena := on, pc := Idle);
    EmptyStep(s, on, Idle, Call([]), Alone(5) + ([RxInterrupt] + Alone(1)));
    EmptyAlone(s, on, ReadMask, 5, [RxInterrupt] + Alone(1));
    assert EmptyAfter(on, ReadMask, 5) == (on, WriteUnmask(on));
    EmptyStep(s, on, WriteUnmask(on), RxInterrupt, Alone(1));
    EmptyRun(s, lost, WriteUnmask(on), 1);
    assert EmptyAfter(lost, WriteUnmask(on), 1) == (Ena(true, true), Idle);
  }
}
