/** A byte ring read as a sequence: the meaning of (buffer, out position, fill). */
module Ring {
  import opened Bits

  /** `x` reduced below `n`, for x < 2n: one lap at most. */
  function Wrap(x: nat, n: nat): nat {
    if x >= n then x - n else x
  }

  function Content(b: seq<Byte>, out: nat, fill: nat): (c: seq<Byte>)
    requires out < |b| && fill <= |b|
    ensures |c| == fill && forall i | 0 <= i < fill :: c[i] == b[Wrap(out + i, |b|)]
  {
    seq(fill, i requires 0 <= i < fill => b[Wrap(out + i, |b|)])
  }

  /** os_memcpy of `data` to position `pos`. */
  function Copied(b: seq<Byte>, pos: nat, data: seq<Byte>): (c: seq<Byte>)
    requires pos + |data| <= |b|
    ensures |c| == |b|
    ensures forall i | 0 <= i < |b| :: c[i] == if pos <= i < pos + |data| then data[i - pos] else b[i]
  {
    b[..pos] + data + b[pos + |data|..]
  }

  /** Bytes written just behind the fill extend the content and disturb nothing. */
  lemma CopyExtends(b: seq<Byte>, out: nat, fill: nat, data: seq<Byte>)
    requires out < |b| && fill + |data| <= |b|
    requires Wrap(out + fill, |b|) + |data| <= |b|
    ensures var c := Copied(b, Wrap(out + fill, |b|), data);
      && Content(c, out, fill) == Content(b, out, fill)
      && Content(c, out, fill + |data|) == Content(b, out, fill) + data
  {
    var c := Copied(b, Wrap(out + fill, |b|), data);
    assert forall i | 0 <= i < fill :: Content(c, out, fill)[i] == Content(b, out, fill)[i];
    var longer := Content(c, out, fill + |data|);
    assert forall i | 0 <= i < fill + |data| ::
        longer[i] == if i < fill then Content(b, out, fill)[i] else data[i - fill];
  }

  /** Taking bytes from the front of the content is advancing the out position. */
  lemma TakeFront(b: seq<Byte>, out: nat, fill: nat, k: nat)
    requires out < |b| && k <= fill <= |b| && 0 < |b|
    ensures Wrap(out + k, |b|) < |b|
    ensures Content(b, out, k) == Content(b, out, fill)[..k]
    ensures Content(b, Wrap(out + k, |b|), fill - k) == Content(b, out, fill)[k..]
  {
    var rest := Content(b, Wrap(out + k, |b|), fill - k);
    assert forall i | 0 <= i < fill - k :: rest[i] == Content(b, out, fill)[k + i];
  }

  lemma NoContent(b: seq<Byte>, out: nat)
    requires out < |b|
    ensures Content(b, out, 0) == [] && Wrap(out, |b|) == out
  {
  }

  /** One more byte of content, and the position behind it. */
  lemma ContentNext(b: seq<Byte>, out: nat, i: nat)
    requires out < |b| && i < |b|
    ensures Content(b, out, i + 1) == Content(b, out, i) + [b[Wrap(out + i, |b|)]]
    ensures Wrap(out + (i + 1), |b|) == if Wrap(out + i, |b|) + 1 == |b| then 0 else Wrap(out + i, |b|) + 1
  {
  }

  /** Content that does not cross the end of the buffer is a slice of it. */
  lemma Slice(b: seq<Byte>, out: nat, fill: nat)
    requires out < |b| && out + fill <= |b|
    ensures Content(b, out, fill) == b[out..out + fill]
  {
    assert forall i | 0 <= i < fill :: Content(b, out, fill)[i] == b[out..out + fill][i];
  }

  lemma ModWrap(x: nat, n: nat)
    requires 0 < n && x <= n
    ensures x % n == Wrap(x, n)
  {
  }

  // ----- struct UartBuffer

  /** sizeof(struct UartBuffer): seven words of four bytes. */
  const STRUCT_SIZE: nat := 28

  /**
   The buffer a pointer leads to, if any; positions are offsets from pUartBuff. A
   hollow one has its struct, but a null pUartBuff and its whole size free.
   */
  datatype Buff =
    | Null
    | Hollow(size: nat)
    | Buff(bytes: seq<Byte>, inPos: nat, outPos: nat, space: nat)

  /** The Space field. */
  function Space(b: Buff): nat
    requires !b.Null?
  {
    if b.Hollow? then b.size else b.space
  }

  predicate Sized(b: Buff) {
    b.Buff? ==> b.outPos < |b.bytes| && b.space <= |b.bytes|
  }

  function Fill(b: Buff): nat
    requires Sized(b)
  {
    if b.Buff? then |b.bytes| - b.space else 0
  }

  /** What the ring holds by its space count. */
  function Queued(b: Buff): (q: seq<Byte>)
    requires Sized(b)
    ensures |q| == Fill(b)
  {
    if b.Buff? then Content(b.bytes, b.outPos, Fill(b)) else []
  }

  /** Just behind the counted bytes. */
  function End(b: Buff): nat
    requires Sized(b) && b.Buff?
  {
    Wrap(b.outPos + Fill(b), |b.bytes|)
  }

  /** The in position is no part of what the ring holds. */
  lemma SameBytes(b: Buff, c: Buff)
    requires b.Buff? && c.Buff? && Sized(b) && c == b.(inPos := c.inPos)
    ensures Sized(c) && Fill(c) == Fill(b) && End(c) == End(b) && Queued(c) == Queued(b)
  {
  }

  /** Between calls the in position is just behind the counted bytes. */
  predicate InPlace(b: Buff) {
    Sized(b) && (b.Buff? ==> b.inPos == End(b))
  }

  /**
   Uart_Buf_Init past its test of the free heap, which does not count the struct:
   the struct is there, the bytes only if they are left behind it.
   */
  function NewBuff(heap: seq<Byte>, size: nat): (b: Buff)
    requires size < |heap|
    ensures !b.Null?
  {
    if |heap| < STRUCT_SIZE + size then Hollow(size) else Buff(heap[STRUCT_SIZE..STRUCT_SIZE + size], 0, 0, size)
  }

  /** The free heap behind what Uart_Buf_Init takes. */
  function Left(heap: seq<Byte>, size: nat): seq<Byte>
    requires STRUCT_SIZE <= size
  {
    if |heap| <= size then heap
    else if |heap| < STRUCT_SIZE + size then heap[STRUCT_SIZE..]
    else heap[STRUCT_SIZE + size..]
  }

  /** os_memcpy to the in position. */
  function Memcpy(b: Buff, data: seq<Byte>): Buff
    requires b.Buff? && b.inPos + |data| <= |b.bytes|
  {
    b.(bytes := Copied(b.bytes, b.inPos, data))
  }

  /** The copy lands just behind the counted bytes and disturbs none of them. */
  lemma MemcpyLands(b: Buff, data: seq<Byte>)
    requires b.Buff? && InPlace(b) && |data| <= b.space && b.inPos + |data| <= |b.bytes|
    ensures var m := Memcpy(b, data);
      && m == Buff(m.bytes, b.inPos, b.outPos, b.space) && |m.bytes| == |b.bytes|
      && Queued(m) == Queued(b)
      && Content(m.bytes, m.outPos, Fill(m) + |data|) == Queued(b) + data
  {
    hide Content, Copied;
    CopyExtends(b.bytes, b.outPos, Fill(b), data);
  }

  function WrapIn(b: Buff): Buff
    requires b.Buff? && |b.bytes| > 0
  {
    b.(inPos := b.inPos % |b.bytes|)
  }

  function TakeSpace(b: Buff, n: nat): Buff
    requires b.Buff? && n <= b.space
  {
    b.(space := b.space - n)
  }

  predicate Fits(b: Buff, data: seq<Byte>) {
    b.Buff? && InPlace(b) && |data| <= b.space && b.inPos + |data| <= |b.bytes|
  }

  /** One of Uart_Buf_Cpy's copies, with its position and space updates. */
  function Chunk(b: Buff, data: seq<Byte>): Buff
    requires Fits(b, data)
  {
    var c := Memcpy(b, data);
    TakeSpace(WrapIn(c.(inPos := c.inPos + |data|)), |data|)
  }

  lemma ChunkInPlace(b: Buff, data: seq<Byte>)
    requires Fits(b, data)
    ensures var c := Chunk(b, data);
      && c.Buff? && |c.bytes| == |b.bytes| && c.outPos == b.outPos && c.space == b.space - |data|
      && c.inPos == Wrap(b.inPos + |data|, |b.bytes|) && InPlace(c)
  {
    ModWrap(b.inPos + |data|, |b.bytes|);
    hide Content, Copied;
  }

  lemma ChunkAppends(b: Buff, data: seq<Byte>)
    requires Fits(b, data)
    ensures var c := Chunk(b, data);
      && c.Buff? && InPlace(c) && Queued(c) == Queued(b) + data
      && c.inPos == Wrap(b.inPos + |data|, |b.bytes|) && |c.bytes| == |b.bytes|
  {
    hide Content, Copied, Wrap;
    ChunkInPlace(b, data);
    CopyExtends(b.bytes, b.outPos, Fill(b), data);
  }

  /** Uart_Buf_Cpy. */
  function Cpy(b: Buff, data: seq<Byte>): Buff
    requires b.Buff? && InPlace(b) && |data| <= b.space
  {
    var tailLen := |b.bytes| - b.inPos;
    if data == [] then b
    else if tailLen >= |data| then Chunk(b, data)
    else
      ChunkAppends(b, data[..tailLen]);
      Chunk(Chunk(b, data[..tailLen]), data[tailLen..])
  }

  lemma CpyAppends(b: Buff, data: seq<Byte>)
    requires b.Buff? && InPlace(b) && |data| <= b.space
    ensures var c := Cpy(b, data);
      c.Buff? && InPlace(c) && Queued(c) == Queued(b) + data && |c.bytes| == |b.bytes|
  {
    hide Content;
    var tailLen := |b.bytes| - b.inPos;
    if data == [] {
      assert Queued(b) + data == Queued(b);
    } else if tailLen >= |data| {
      ChunkAppends(b, data);
    } else {
      ChunkAppends(b, data[..tailLen]);
      ChunkAppends(Chunk(b, data[..tailLen]), data[tailLen..]);
      hide Chunk;
      assert data[..tailLen] + data[tailLen..] == data;
      assert (Queued(b) + data[..tailLen]) + data[tailLen..] == Queued(b) + (data[..tailLen] + data[tailLen..]);
    }
  }

  /** tx_fifo_insert: the out position and the space count after `n` bytes have gone. */
  function TakeOut(b: Buff, n: nat): Buff
    requires Sized(b) && n <= Fill(b)
  {
    if b.Buff? then b.(outPos := Wrap(b.outPos + n, |b.bytes|), space := b.space + n) else b
  }

  lemma TakeOutFront(b: Buff, n: nat)
    requires Sized(b) && n <= Fill(b)
    ensures var c := TakeOut(b, n);
      && c.Buff? == b.Buff? && (b.Buff? || c == b) && Sized(c) && Queued(c) == Queued(b)[n..]
      && (InPlace(b) ==> InPlace(c)) && (b.Buff? ==> End(c) == End(b) && c.bytes == b.bytes)
  {
    if b.Buff? {
      TakeFront(b.bytes, b.outPos, Fill(b), n);
      hide Content;
    }
  }

  /** Bytes that do not cross the end of the buffer leave it as one slice. */
  lemma TakeSlice(b: Buff, n: nat)
    requires b.Buff? && Sized(b) && n <= Fill(b) && b.outPos + n <= |b.bytes|
    ensures b.bytes[b.outPos..b.outPos + n] == Queued(b)[..n]
  {
    TakeFront(b.bytes, b.outPos, Fill(b), n);
    Slice(b.bytes, b.outPos, n);
  }
}
