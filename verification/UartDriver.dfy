/** The UART's software ring buffers and the routines that fill and drain them (UART_BUFF_EN = 1). */
module UartDriver {
  import opened Bits
  import opened Ring
  import opened Sizes
  import RxProtocol
  import TxProtocol

  /** struct UartBuffer; positions are offsets from pUartBuff, which may be null. */
  class UartBuffer {
    const size: nat
    const buff: array?<Byte>
    var inPos: nat
    var outPos: nat
    var space: nat

    ghost predicate Valid()
      reads this, buff
    {
      && 0 < size && InPlace(View())
      && (if buff == null then inPos == outPos == 0 && space == size else buff.Length == size)
    }

    ghost function View(): Buff
      reads this, buff
    {
      if buff == null then Hollow(size) else Buff(buff[..], inPos, outPos, space)
    }

    ghost function Bytes(): seq<Byte>
      reads this, buff
      requires Valid()
    {
      Queued(View())
    }

    /** Uart_Buf_Init, once its heap check has passed: the struct first, then the bytes if they are left. */
    constructor (size: nat, heap: seq<Byte>)
      requires 0 < size < |heap|
      ensures Valid() && this.size == size && View() == NewBuff(heap, size) && Bytes() == []
      ensures buff != null ==> fresh(buff)
    {
      this.size := size;
      if |heap| < STRUCT_SIZE + size {
        buff := null;
      } else {
        buff := new Byte[size](i requires 0 <= i < size && STRUCT_SIZE + size <= |heap| => heap[STRUCT_SIZE + i]);
      }
      inPos, outPos, space := 0, 0, size;
    }

    /** One os_memcpy into the ring with its position and space updates. */
    method CopyChunk(data: seq<Byte>)
      requires Valid() && buff != null && |data| <= space && inPos + |data| <= buff.Length
      modifies this`inPos, this`space, buff
      ensures Valid() && View() == Chunk(old(View()), data) && Bytes() == old(Bytes()) + data
      ensures inPos == Wrap(old(inPos) + |data|, buff.Length) && space == old(space) - |data|
    {
      ghost var b := View();
      forall i | 0 <= i < |data| {
        buff[inPos + i] := data[i];
      }
      assert buff[..] == Copied(b.bytes, inPos, data);
      inPos := inPos + |data|;
      inPos := inPos % buff.Length;
      space := space - |data|;
      ChunkAppends(b, data);
      ChunkInPlace(b, data);
      hide Content, Copied;
      assert View() == Chunk(b, data);
    }

    /** Uart_Buf_Cpy. */
    method Cpy(data: seq<Byte>)
      requires Valid() && buff != null && |data| <= space
      modifies this`inPos, this`space, buff
      ensures Valid() && View() == Ring.Cpy(old(View()), data) && Bytes() == old(Bytes()) + data
    {
      ghost var b := View();
      CpyAppends(b, data);
      hide Content, Chunk;
      if |data| == 0 {
        return;
      }
      var tailLen := buff.Length - inPos;
      if tailLen >= |data| {
        CopyChunk(data);
      } else {
        CopyChunk(data[..tailLen]);
        CopyChunk(data[tailLen..]);
      }
    }

    /** tx_fifo_insert: the bytes written to the hardware FIFO, in order. */
    method FifoInsert(dataLen: nat) returns (sent: seq<Byte>)
      requires Valid() && dataLen <= size - space
      modifies this`outPos, this`space
      ensures Valid() && Fill(old(View())) == size - old(space) && View() == TakeOut(old(View()), dataLen)
      ensures sent == old(Bytes())[..dataLen] && Bytes() == old(Bytes())[dataLen..]
    {
      ghost var b := View();
      TakeOutFront(b, dataLen);
      if buff != null {
        TakeFront(b.bytes, b.outPos, Fill(b), dataLen);
      }
      hide Content, Wrap;
      sent := SendLoop(dataLen, b);
      space := space + dataLen;
      assert View() == TakeOut(b, dataLen);
    }

    /** The loop of tx_fifo_insert and the reduction of the out position behind it. */
    method SendLoop(dataLen: nat, ghost b: Buff) returns (sent: seq<Byte>)
      requires Valid() && b == View() && dataLen <= size - space
      modifies this`outPos
      ensures buff == null ==> sent == [] && outPos == 0
      ensures buff != null ==>
        sent == Content(b.bytes, b.outPos, dataLen) && outPos == Wrap(b.outPos + dataLen, size) < size
    {
      hide Content, End;
      if buff != null {
        NoContent(b.bytes, b.outPos);
      }
      sent := [];
      var i := 0;
      while i < dataLen
        invariant 0 <= i <= dataLen && (buff == null ==> outPos == 0 && sent == [])
        invariant buff != null ==>
          outPos == Wrap(b.outPos + i, size) < size && sent == Content(b.bytes, b.outPos, i)
      {
        ContentNext(b.bytes, b.outPos, i);
        sent := sent + [buff[outPos]];
        outPos := outPos + 1;
        if outPos == size {
          outPos := 0;
        }
        i := i + 1;
      }
      ModWrap(outPos, size);
      outPos := outPos % size;
    }

    /** One os_memcpy out of the ring with its position and space updates. */
    method TakeChunk(n: nat) returns (data: seq<Byte>)
      requires Valid() && buff != null && n <= buff.Length - space && outPos + n <= buff.Length
      modifies this`outPos, this`space
      ensures Valid() && data + Bytes() == old(Bytes()) && |data| == n
    {
      ghost var b := View();
      TakeOutFront(b, n);
      TakeSlice(b, n);
      hide Queued, InPlace;
      data := buff[outPos..outPos + n];
      outPos := outPos + n;
      ModWrap(outPos, buff.Length);
      outPos := outPos % buff.Length;
      space := space + n;
      assert View() == TakeOut(b, n);
    }

    /**
     The first branch of rx_buff_deq: no wrap after the advance. It stays inside
     the buffer only because a ring that is never completely full has equal
     positions only when it is empty.
     */
    method TakeStraight(n: nat) returns (data: seq<Byte>)
      requires Valid() && buff != null && space > 0 && outPos <= inPos && n <= buff.Length - space
      modifies this`outPos, this`space
      ensures Valid() && data + Bytes() == old(Bytes()) && |data| == n
    {
      ghost var b := View();
      TakeOutFront(b, n);
      StraightInside(b, n);
      TakeSlice(b, n);
      hide Queued, InPlace;
      data := buff[outPos..outPos + n];
      outPos := outPos + n;
      space := space + n;
      assert View() == TakeOut(b, n);
    }

    /** rx_buff_deq without its interrupt re-enable. */
    method Take(dataLen: nat) returns (data: seq<Byte>)
      requires Valid() && buff != null && space > 0
      modifies this`outPos, this`space
      ensures Valid() && space > 0
      ensures data + Bytes() == old(Bytes()) && |data| == Min(dataLen, |old(Bytes())|)
    {
      hide Content;
      var bufLen := buff.Length - space;
      var tailLen := buff.Length - outPos;
      var len := if dataLen > bufLen then bufLen else dataLen;
      if outPos <= inPos {
        data := TakeStraight(len);
      } else if len > tailLen {
        data := TakeChunk(tailLen);
        var rest := TakeChunk(len - tailLen);
        data := data + rest;
      } else {
        data := TakeChunk(len);
      }
    }

    /** One byte of Uart_rx_buff_enq's loop; `space` is settled after the loop. */
    method PutByte(x: Byte, ghost fill: nat)
      requires buff != null && fill < buff.Length && outPos < buff.Length && inPos == Wrap(outPos + fill, buff.Length)
      modifies this`inPos, buff
      ensures inPos == Wrap(outPos + (fill + 1), buff.Length)
      ensures Content(buff[..], outPos, fill + 1) == old(Content(buff[..], outPos, fill)) + [x]
    {
      ghost var b := buff[..];
      CopyExtends(b, outPos, fill, [x]);
      buff[inPos] := x;
      assert buff[..] == Copied(b, inPos, [x]);
      inPos := inPos + 1;
      if inPos == buff.Length {
        inPos := 0;
      }
    }

    /** The copy loop of Uart_rx_buff_enq. */
    method Receive(fifo: seq<Byte>)
      requires Valid() && buff != null && |fifo| < space
      modifies this`inPos, this`space, buff
      ensures Valid() && space > 0 && Bytes() == old(Bytes()) + fifo
    {
      hide Content;
      ghost var fill := buff.Length - space;
      var i := 0;
      while i < |fifo|
        invariant 0 <= i <= |fifo| && space == old(space) && inPos == Wrap(outPos + (fill + i), buff.Length)
        invariant Content(buff[..], outPos, fill + i) == old(Bytes()) + fifo[..i]
      {
        PutByte(fifo[i], fill + i);
        i := i + 1;
      }
      assert fifo[..|fifo|] == fifo;
      space := space - |fifo|;
    }
  }

  /** In a ring that is never completely full, bytes taken at or before the in position stop short of the end. */
  lemma StraightInside(b: Buff, n: nat)
    requires b.Buff? && InPlace(b) && b.space > 0 && b.outPos <= b.inPos && n <= Fill(b)
    ensures b.outPos + n < |b.bytes| && Wrap(b.outPos + n, |b.bytes|) == b.outPos + n
  {
  }

  class Uart {
    var tx: UartBuffer?
    var rx: UartBuffer?
    var txFifo: seq<Byte>  // UART_FIFO, transmit side
    var rxFifo: seq<Byte>  // UART_FIFO, receive side
    var txEmptyEna: bool   // UART_TXFIFO_EMPTY_INT_ENA
    var rxEna: bool        // UART_RXFIFO_FULL_INT_ENA and UART_RXFIFO_TOUT_INT_ENA

    ghost predicate Valid()
      reads this, tx, rx, if tx == null then {} else {tx.buff}, if rx == null then {} else {rx.buff}
    {
      && (tx != null ==> tx.Valid() && tx.size == UART_TX_BUFFER_SIZE)
      && (rx != null ==> rx.Valid() && rx.size == UART_RX_BUFFER_SIZE && rx.space > 0)
      && (tx != null && rx != null ==> tx != rx && (tx.buff != null ==> tx.buff != rx.buff))
      && |txFifo| <= UART_FIFO_LEN && |rxFifo| <= UART_FIFO_LEN
      && (TxBytes() != [] ==> txEmptyEna)
    }

    /** The receive side has its ring; without it the source follows a null pointer. */
    ghost predicate Receives()
      reads this, rx
    {
      rx != null && rx.buff != null
    }

    /** uart_init: the transmit ring is taken from the heap first, then the receive ring from what it leaves. */
    constructor (heap: seq<Byte>)
      ensures Valid() && TxProtocol.Reset(TxView(heap)) && rxEna && rxFifo == []
      ensures tx == null <==> |heap| <= 256
      ensures Receives() <==> |heap| >= 568
      ensures Receives() ==> rx.Valid() && rx.Bytes() == []
    {
      var rest := Left(heap, UART_TX_BUFFER_SIZE);
      if |heap| > UART_TX_BUFFER_SIZE {
        tx := new UartBuffer(UART_TX_BUFFER_SIZE, heap);
      } else {
        tx := null;
      }
      if |rest| > UART_RX_BUFFER_SIZE {
        rx := new UartBuffer(UART_RX_BUFFER_SIZE, rest);
      } else {
        rx := null;
      }
      txFifo, rxFifo, txEmptyEna, rxEna := [], [], false, true;
    }

    ghost function TxBytes(): seq<Byte>
      reads this, tx, if tx == null then {} else {tx.buff}
      requires tx != null ==> tx.Valid()
    {
      if tx == null then [] else tx.Bytes()
    }

    /** The transmit side between calls, as the protocol sees it, its histories begun now. */
    ghost function TxView(heap: seq<Byte>): TxProtocol.Tx
      reads this, tx, if tx == null then {} else {tx.buff}
      requires tx != null ==> tx.Valid()
    {
      TxProtocol.Tx(if tx == null then Null else tx.View(), heap, TxProtocol.Ena(txEmptyEna, rxEna), txFifo, [],
        TxProtocol.Idle, [], txFifo + TxBytes())
    }

    lemma TxInv(heap: seq<Byte>)
      requires Valid()
      ensures TxProtocol.Inv(TxView(heap)) && TxProtocol.Bounded(TxView(heap))
    {
      var s := TxView(heap);
      assert s.wire + s.fifo == s.fifo;
      assert s.accepted + s.data[..0] == s.accepted;
    }

    ghost function RxSide(): RxProtocol.Side
      reads this, rx, if rx == null then {} else {rx.buff}
      requires rx != null && rx.Valid()
    {
      RxProtocol.Side(rx.Bytes(), rxFifo, rxEna)
    }

    /** Uart_Buf_Cpy into the transmit ring, or how the call goes wild. */
    method CpyTx(data: seq<Byte>) returns (end: TxProtocol.Pc)
      requires tx != null && tx.Valid()
      modifies tx`inPos, tx`space, tx.buff
      ensures end == if data != [] && tx.buff == null then TxProtocol.NullCopy
                     else if |data| > old(tx.space) then TxProtocol.Overrun else TxProtocol.Idle
      ensures end.Idle? ==>
        && tx.Valid() && old(|data| <= Space(tx.View())) && tx.View() == TxProtocol.Filled(old(tx.View()), data)
        && TxBytes() == old(TxBytes()) + data && txFifo + TxBytes() == old(txFifo + TxBytes()) + data
    {
      hide InPlace, Queued, Ring.Cpy;
      if |data| != 0 && tx.buff == null {
        return TxProtocol.NullCopy;
      }
      if |data| > tx.space {
        return TxProtocol.Overrun;
      }
      if tx.buff != null {
        tx.Cpy(data);
      }
      assert old(TxBytes()) + [] == old(TxBytes());
      assert txFifo + (old(TxBytes()) + data) == (txFifo + old(TxBytes())) + data;
      end := TxProtocol.Idle;
    }

    /** The first call's branch of tx_buff_enq: a new ring, and the data into it. */
    method TxCreate(data: seq<Byte>, heap: seq<Byte>) returns (end: TxProtocol.Pc)
      requires tx == null && |heap| > UART_TX_BUFFER_SIZE
      modifies this`tx
      ensures end == if data != [] && |heap| < STRUCT_SIZE + UART_TX_BUFFER_SIZE then TxProtocol.NullCopy
                     else if |data| > UART_TX_BUFFER_SIZE then TxProtocol.Overrun else TxProtocol.Idle
      ensures tx != null && fresh(tx) && (tx.buff != null ==> fresh(tx.buff)) && tx.size == UART_TX_BUFFER_SIZE
      ensures end.Idle? ==>
        var ring := NewBuff(heap, UART_TX_BUFFER_SIZE);
        && tx.Valid() && InPlace(ring) && |data| <= Space(ring) && tx.View() == TxProtocol.Filled(ring, data)
        && TxBytes() == data
    {
      tx := new UartBuffer(UART_TX_BUFFER_SIZE, heap);
      end := CpyTx(data);
      hide InPlace, Queued, TxProtocol.Filled;
      assert [] + data == data;
    }

    /** The body of tx_buff_enq, by what it finds. */
    method TxSteps(data: seq<Byte>, heap: seq<Byte>) returns (end: TxProtocol.Pc)
      requires Valid()
      modifies this`tx, this`txEmptyEna, tx, if tx == null then {} else {tx.buff}
      ensures end ==
        if old(tx) == null && |heap| <= 256 then TxProtocol.Idle
        else if old(tx) == null then
          (if data != [] && |heap| < 284 then TxProtocol.NullCopy
           else if |data| > 256 then TxProtocol.Overrun else TxProtocol.Idle)
        else if |data| <= old(tx.space) && data != [] && old(tx.buff) == null then TxProtocol.NullCopy
        else TxProtocol.Idle
      ensures TxProtocol.Inv(old(TxView(heap)))
      ensures end.Idle? ==> Valid() && txEmptyEna && TxView(heap) == TxProtocol.Enqueued(old(TxView(heap)), data)
      ensures end.Idle? && old(tx) == null && 256 < |heap| ==> TxBytes() == data
      ensures end.Idle? && old(tx) != null && |data| <= old(tx.space) ==> TxBytes() == old(TxBytes()) + data
      ensures old(tx) == null && |heap| <= 256 ==> tx == null
      ensures old(tx) != null && |data| > old(tx.space) ==> TxBytes() == old(TxBytes())
    {
      hide InPlace, Queued, NewBuff, TxProtocol.Filled, TxProtocol.Inv, TxProtocol.Enqueued, TxProtocol.Bounded;
      TxInv(heap);
      TxProtocol.EnqueuedByCase(TxView(heap), data);
      txEmptyEna := false;
      end := TxProtocol.Idle;
      if tx == null {
        if |heap| > UART_TX_BUFFER_SIZE {
          end := TxCreate(data, heap);
        }
      } else if |data| <= tx.space {
        end := CpyTx(data);
      }
      if end.Idle? {
        txEmptyEna := true;
      }
    }

    /**
     tx_buff_enq, left alone, and how it ends. A call that creates the ring does
     not look at the free space, and no call at pUartBuff: where the source would
     copy over other memory the method stops.
     */
    method TxBuffEnq(data: seq<Byte>, heap: seq<Byte>) returns (end: TxProtocol.Pc)
      requires Valid()
      modifies this`tx, this`txEmptyEna, tx, if tx == null then {} else {tx.buff}
      ensures TxProtocol.Inv(old(TxView(heap)))
      ensures var c := old(TxView(heap)).(pc := TxProtocol.ReadMask, data := data);
        && (end.Overrun? <==> TxProtocol.Overruns(c)) && (end.NullCopy? <==> TxProtocol.CopiesToNull(c))
        && (end.Idle? || end.Overrun? || end.NullCopy?)
      ensures end.Idle? ==> Valid() && txEmptyEna && TxView(heap) == TxProtocol.Enqueued(old(TxView(heap)), data)
      ensures end.Idle? && old(tx) == null && 256 < |heap| ==> TxBytes() == data
      ensures end.Idle? && old(tx) != null && |old(TxBytes())| + |data| <= 256 ==>
        TxBytes() == old(TxBytes()) + data
      ensures old(tx) == null && |heap| <= 256 ==> end.Idle? && tx == null
      ensures old(tx) != null && |old(TxBytes())| + |data| > 256 ==>
        end.Idle? && TxBytes() == old(TxBytes())
    {
      hide InPlace, Queued, TxProtocol.Inv, TxProtocol.Enqueued, TxProtocol.Overruns, TxProtocol.CopiesToNull;
      TxInv(heap);
      TxProtocol.EndsByCase(TxView(heap), data);
      end := TxSteps(data, heap);
    }

    /** tx_start_uart_buffer on a ring; it turns the interrupt on again only while bytes remain. */
    method TxStart()
      requires tx != null && tx.Valid() && |txFifo| <= UART_FIFO_LEN
      modifies this`txFifo, this`txEmptyEna, tx`outPos, tx`space
      ensures tx.Valid()
      ensures var n := Min(UART_FIFO_LEN - |old(txFifo)|, |old(TxBytes())|);
        && txFifo == old(txFifo) + old(TxBytes())[..n] && TxBytes() == old(TxBytes())[n..]
        && |old(TxBytes())| == Fill(old(tx.View())) && tx.View() == TakeOut(old(tx.View()), n)
        && (txEmptyEna <==> old(txEmptyEna) || n < |old(TxBytes())|)
    {
      hide End, Queued, TakeOut;
      var remain := UART_FIFO_LEN - |txFifo|;
      var dataLen := tx.size - tx.space;
      var sent;
      if dataLen > remain {
        sent := tx.FifoInsert(remain);
        txEmptyEna := true;
      } else {
        sent := tx.FifoInsert(dataLen);
      }
      txFifo := txFifo + sent;
    }

    /** The TXFIFO_EMPTY branch of uart0_rx_intr_handler. */
    method TxEmptyInterrupt()
      requires Valid()
      modifies this`txFifo, this`txEmptyEna, if tx == null then {} else {tx}
      ensures Valid() && TxProtocol.Bounded(old(TxView([])))
      ensures TxView([]) == TxProtocol.TxIntr(old(TxView([])))
      ensures var n := Min(128 - |old(txFifo)|, |old(TxBytes())|);
        txFifo == old(txFifo) + old(TxBytes())[..n] && TxBytes() == old(TxBytes())[n..]
      ensures txEmptyEna <==> TxBytes() != []
    {
      TxInv([]);
      if tx == null {
        TxProtocol.NullIntr(TxView([]));
      }
      hide InPlace, Queued, TakeOut, TxProtocol.Inv;
      ghost var fifo, bytes := txFifo, TxBytes();
      txEmptyEna := false;
      if tx != null {
        TxStart();
        ghost var n := Min(UART_FIFO_LEN - |fifo|, |bytes|);
        Regroup(fifo, bytes, n);
      }
    }

    lemma Regroup(fifo: seq<Byte>, bytes: seq<Byte>, n: nat)
      requires n <= |bytes|
      ensures (fifo + bytes[..n]) + bytes[n..] == fifo + bytes
    {
    }

    /** Uart_rx_buff_enq: all of the receive FIFO, or nothing when it would fill the ring. */
    method RxBuffEnq()
      requires Valid() && Receives()
      modifies this`rxFifo, this`rxEna, rx, rx.buff
      ensures Valid() && rx == old(rx) && RxSide() == RxProtocol.Enqueue(old(RxSide()))
      ensures if |old(rx.Bytes())| + |old(rxFifo)| < 256
        then rx.Bytes() == old(rx.Bytes()) + old(rxFifo) && rxFifo == [] && rxEna == (old(rxEna) || |rx.Bytes()| <= 128)
        else rx.Bytes() == old(rx.Bytes()) && rxFifo == old(rxFifo) && rxEna == old(rxEna)
    {
      if |rxFifo| < rx.space {
        rx.Receive(rxFifo);
        rxFifo := [];
        if rx.space >= UART_FIFO_LEN {
          rxEna := true;
        }
      }
    }

    /** rx_buff_deq. */
    method RxBuffDeq(dataLen: nat) returns (data: seq<Byte>)
      requires Valid() && Receives()
      modifies this`rxEna, rx
      ensures Valid() && rx == old(rx)
      ensures RxSide() == RxProtocol.Dequeue(old(RxSide()), dataLen)
      ensures data == RxProtocol.Dequeued(old(RxSide()), dataLen)
      ensures data + rx.Bytes() == old(rx.Bytes())
      ensures |data| == if dataLen <= |old(rx.Bytes())| then dataLen else |old(rx.Bytes())|
      ensures rxEna == (old(rxEna) || |rx.Bytes()| <= 128)
    {
      data := rx.Take(dataLen);
      if rx.space >= UART_FIFO_LEN {
        rxEna := true;
      }
    }

    /** One event of the receive protocol, on the driver; `posted` counts the task's waiting events. */
    method ServeRx(a: RxProtocol.Action, posted: nat, ghost s: RxProtocol.Rx) returns (nowPosted: nat, data: seq<Byte>)
      requires Valid() && Receives() && s.side == RxSide() && s.posted == posted
      modifies this`rxFifo, this`rxEna, rx, rx.buff
      ensures Valid() && rx == old(rx)
      ensures var t := RxProtocol.Step(s, a);
        t.side == RxSide() && t.posted == nowPosted && t.delivered == s.delivered + data
    {
      nowPosted, data := posted, [];
      match a
      case Arrive(b) =>
        if |rxFifo| < UART_FIFO_LEN {
          rxFifo := rxFifo + [b];
        }
      case RxInterrupt =>
        if rxEna && rxFifo != [] {
          rxEna := false;
          nowPosted := posted + 1;
        }
      case RxTask =>
        if posted > 0 {
          RxBuffEnq();
          nowPosted := posted - 1;
        }
      case Read(n) =>
        data := RxBuffDeq(n);
    }

    /** Any sequence of arrivals, interrupts, task events and reads is the run that `RunKeeps` is about. */
    method ServeRxAll(actions: seq<RxProtocol.Action>) returns (delivered: seq<Byte>)
      requires Valid() && Receives()
      modifies this`rxFifo, this`rxEna, rx, rx.buff
      ensures Valid() && rx == old(rx)
      ensures var z := RxProtocol.Run(RxProtocol.Rx(old(RxSide()), 0, [], []), actions);
        z.side == RxSide() && z.delivered == delivered
    {
      ghost var s := RxProtocol.Rx(RxSide(), 0, [], []);
      ghost var z := RxProtocol.Run(s, actions);
      hide RxProtocol.Step, InPlace;
      var posted := 0;
      delivered := [];
      var i := 0;
      while i < |actions|
        invariant 0 <= i <= |actions| && Valid() && rx == old(rx)
        invariant s.side == RxSide() && s.posted == posted && s.delivered == delivered
        invariant z == RxProtocol.Run(s, actions[i..])
      {
        assert actions[i..][0] == actions[i] && actions[i..][1..] == actions[i + 1..];
        var data;
        posted, data := ServeRx(actions[i], posted, s);
        delivered := delivered + data;
        s := RxProtocol.Step(s, actions[i]);
        i := i + 1;
      }
    }
  }
}
