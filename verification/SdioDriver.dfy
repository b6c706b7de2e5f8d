/**
 The SDIO slave's buffer manager as the driver runs it: four heap nodes moved
 between two hand-linked lists. Every method is proved against `SdioSpec`.
 */
module SdioDriver {
  import opened Bits
  import opened SdioSpec

  /** struct sdio_list; `tail` is the offset of the C `tail` pointer from `buffer`. */
  class SdioList {
    const buffer: array<Byte>
    var tail: nat
    var next: SdioList?
    ghost var fill: Bytes

    ghost predicate Valid()
      reads this`tail, this`fill, buffer
    {
      buffer.Length == RX_BUFFER_SIZE && tail == |fill| <= RX_BUFFER_SIZE && buffer[..tail] == fill
    }

    constructor ()
      ensures Valid() && fresh(buffer) && fill == [] && next == null
    {
      buffer := new Byte[RX_BUFFER_SIZE];
      tail, next, fill := 0, null, [];
    }

    /** os_memcpy to `tail`, then advance it. */
    method Append(data: Bytes)
      requires Valid() && |fill| + |data| <= RX_BUFFER_SIZE
      modifies this`tail, this`fill, buffer
      ensures Valid() && fill == old(fill) + data
    {
      forall i | 0 <= i < |data| {
        buffer[tail + i] := data[i];
      }
      tail, fill := tail + |data|, fill + data;
      assert buffer[..tail] == buffer[..old(tail)] + buffer[old(tail)..tail];
    }

    method Reset()
      requires Valid()
      modifies this`tail, this`fill
      ensures Valid() && fill == []
    {
      tail, fill := 0, [];
    }
  }

  /** struct sdio_queue, as rx_que uses it. */
  datatype Descriptor = Descriptor(blocksize: nat, datalen: nat, bufPtr: array?<Byte>)

  /** Each node points to its successor and the last one to nothing. */
  ghost predicate Linked(list: seq<SdioList>)
    reads list`next
  {
    && (forall i {:trigger list[i].next} | 0 <= i < |list| - 1 :: list[i].next == list[i + 1])
    && (list != [] ==> list[|list| - 1].next == null)
  }

  ghost predicate Distinct(list: seq<SdioList>) {
    forall i, j | 0 <= i < j < |list| :: list[i] != list[j]
  }

  lemma {:induction false} DistinctCount(list: seq<SdioList>)
    requires Distinct(list)
    ensures |set n | n in list| == |list|
  {
    if list != [] {
      var rest := list[..|list| - 1];
      DistinctCount(rest);
      assert (set n | n in list) == (set n | n in rest) + {list[|list| - 1]};
    }
  }

  ghost predicate Disjoint(a: seq<SdioList>, b: seq<SdioList>) {
    forall i, j | 0 <= i < |a| && 0 <= j < |b| :: a[i] != b[j]
  }

  ghost predicate Holds(list: seq<SdioList>, fills: seq<Bytes>)
    reads list`fill
  {
    |list| == |fills| && forall i | 0 <= i < |list| :: list[i].fill == fills[i]
  }

  class SdioSlave {
    var headToSend: SdioList?
    var tailToSend: SdioList?
    var headSended: SdioList?
    var tailSended: SdioList?
    var hasRead: bool
    var rxQue: Descriptor
    var status: Status
    var started: bool  // SLC_RXLINK_START: the link runs until its end-of-read interrupt

    ghost var nodes: set<SdioList>
    ghost var owner: map<array<Byte>, SdioList>  // which node each buffer is embedded in
    ghost var queue: seq<SdioList>
    ghost var spare: seq<SdioList>
    ghost var queued: seq<Bytes>
    ghost var filling: seq<Bytes>

    ghost function Footprint(): set<object>
      reads this
    {
      {this} + nodes + owner.Keys
    }

    ghost function View(): Slave
      reads this
    {
      Slave(queued, filling, hasRead, started, status)
    }

    /** Both lists are acyclic, disjoint and correctly ended. */
    ghost predicate Lists()
      reads this`nodes, this`queue, this`spare, this`headToSend, this`tailToSend, this`headSended, this`tailSended
      reads nodes`next
    {
      && InNodes(queue) && InNodes(spare)
      && Distinct(queue) && Distinct(spare) && Disjoint(queue, spare)
      && Linked(queue) && Linked(spare)
      && headToSend == (if queue == [] then null else queue[0])
      && headSended == (if spare == [] then null else spare[0])
      && (queue != [] ==> tailToSend == queue[|queue| - 1])
      && (spare != [] ==> tailSended == spare[|spare| - 1])
    }

    ghost predicate InNodes(list: seq<SdioList>)
      reads this`nodes
    {
      forall i | 0 <= i < |list| :: list[i] in nodes
    }

    ghost predicate Buffers()
      reads this`nodes, this`owner, nodes`tail, nodes`fill, owner.Keys
    {
      forall n | n in nodes :: n.buffer in owner && owner[n.buffer] == n && n.Valid()
    }

    ghost predicate Fills()
      reads this`nodes, this`queue, this`spare, this`queued, this`filling, nodes`fill
    {
      InNodes(queue) && InNodes(spare) && Holds(queue, queued) && Holds(spare, filling)
    }

    ghost predicate Valid()
      reads Footprint()
    {
      Lists() && Buffers() && Fills() && Inv(View()) && Described() && |nodes| == RX_BUFFER_NUM
    }

    /** In every valid state the two lists together hold exactly the allocated nodes, each once. */
    lemma ListsHoldAllNodes()
      requires Valid()
      ensures Distinct(queue + spare) && forall n | n in nodes :: n in queue + spare
    {
      var all := queue + spare;
      assert forall i | 0 <= i < |all| :: all[i] == if i < |queue| then queue[i] else spare[i - |queue|];
      DistinctCount(all);
      var held := set n | n in all;
      assert held <= nodes;
      assert |nodes - held| == |nodes| - |held|;
    }

    /** While the link runs, its descriptor shows the head of the send queue. */
    ghost predicate Described()
      reads this`rxQue, this`started, this`queue, this`queued
    {
      && rxQue.blocksize == RX_BUFFER_SIZE
      && (started ==> queue != [] && queued != [] && rxQue.bufPtr == queue[0].buffer && rxQue.datalen == |queued[0]|)
    }

    method AppendTo(n: SdioList, data: Bytes)
      requires Buffers() && n in nodes && |n.fill| + |data| <= RX_BUFFER_SIZE
      modifies n`tail, n`fill, n.buffer
      ensures Buffers() && n.fill == old(n.fill) + data
    {
      n.Append(data);
    }

    method ResetOf(n: SdioList)
      requires Buffers() && n in nodes
      modifies n`tail, n`fill
      ensures Buffers() && n.fill == []
    {
      n.Reset();
    }

    /** os_memcpy to the tail of the first spare buffer. */
    method CopyToSpare(data: Bytes)
      requires Lists() && Buffers() && Fills() && spare != [] && |filling[0]| + |data| <= RX_BUFFER_SIZE
      modifies headSended`tail, headSended`fill, headSended.buffer, this`filling
      ensures Buffers() && Fills() && filling == old(filling[0 := filling[0] + data])
    {
      AppendTo(headSended, data);
      filling := filling[0 := filling[0] + data];
    }

    /** Empty the head buffer of the send queue: its tail goes back to the start. */
    method ResetHead()
      requires Lists() && Buffers() && Fills() && queue != []
      modifies headToSend`tail, headToSend`fill, this`queued
      ensures Buffers() && Fills() && queued == old(queued[0 := []])
    {
      ResetOf(headToSend);
      queued := queued[0 := []];
    }

    /** The links of sdio_load_data's list move: the first spare node goes to the end of the send queue. */
    method LinkSpareToQueue()
      requires Lists() && spare != []
      modifies this`headToSend, this`tailToSend, this`headSended, nodes`next, this`queue, this`spare
      ensures Lists()
      ensures queue == old(queue + [spare[0]]) && spare == old(spare[1..])
    {
      ghost var q, s := queue, spare;
      if headToSend == null {
        tailToSend := headSended;
        headToSend := tailToSend;
      } else {
        tailToSend.next := headSended;
        tailToSend := tailToSend.next;
      }
      headSended := headSended.next;
      tailToSend.next := null;
      queue, spare := q + [s[0]], s[1..];
      assert forall i | 0 <= i < |spare| ::
        s[i + 1] != s[0] && spare[i] == s[i + 1] && spare[i].next == old(s[i + 1].next);
    }

    /** Move the first spare buffer to the end of the send queue. */
    method MoveToQueue()
      requires Lists() && Fills() && spare != []
      modifies this`headToSend, this`tailToSend, this`headSended, nodes`next,
               this`queue, this`spare, this`queued, this`filling
      ensures Lists() && Fills()
      ensures queue == old(queue + [spare[0]]) && spare == old(spare[1..])
      ensures queued == old(queued + [filling[0]]) && filling == old(filling[1..])
    {
      LinkSpareToQueue();
      queued, filling := queued + [filling[0]], filling[1..];
    }

    /** The same while the link is stopped, when its descriptor shows nothing. */
    method MoveIdle()
      requires Lists() && Fills() && Described() && !started && spare != []
      modifies this`headToSend, this`tailToSend, this`headSended, nodes`next,
               this`queue, this`spare, this`queued, this`filling
      ensures Lists() && Fills() && Described()
      ensures queue == old(queue + [spare[0]]) && spare == old(spare[1..])
      ensures queued == old(queued + [filling[0]]) && filling == old(filling[1..])
    {
      hide Lists, Fills;
      MoveToQueue();
    }

    /** The links of sdio_read_done_process: the head of the send queue goes to the end of the spare list. */
    method LinkQueueToSpare()
      requires Lists() && queue != []
      modifies this`headToSend, this`headSended, this`tailSended, nodes`next, this`queue, this`spare
      ensures Lists()
      ensures queue == old(queue[1..]) && spare == old(spare + [queue[0]])
    {
      ghost var q, s := queue, spare;
      if headSended != null {
        tailSended.next := headToSend;
        tailSended := tailSended.next;
      } else {
        tailSended := headToSend;
        headSended := tailSended;
      }
      headToSend := headToSend.next;
      tailSended.next := null;
      queue, spare := q[1..], s + [q[0]];
      assert forall i | 0 <= i < |queue| ::
        q[i + 1] != q[0] && queue[i] == q[i + 1] && queue[i].next == old(q[i + 1].next);
    }

    /** Move the head buffer of the send queue to the end of the spare list. */
    method MoveToSpare()
      requires Lists() && Fills() && queue != []
      modifies this`headToSend, this`headSended, this`tailSended, nodes`next,
               this`queue, this`spare, this`queued, this`filling
      ensures Lists() && Fills()
      ensures queue == old(queue[1..]) && spare == old(spare + [queue[0]])
      ensures queued == old(queued[1..]) && filling == old(filling + [queued[0]])
    {
      LinkQueueToSpare();
      queued, filling := queued[1..], filling + [queued[0]];
    }

    /** rx_buff_load_done. */
    method RxBuffLoadDone(len: nat)
      requires rxQue.blocksize == RX_BUFFER_SIZE
      modifies this`rxQue, this`status, this`started
      ensures View() == SdioSpec.LoadDone(old(View()), len)
      ensures rxQue.blocksize == RX_BUFFER_SIZE && rxQue.bufPtr == old(rxQue.bufPtr)
      ensures 0 < len <= RX_BUFFER_SIZE ==> rxQue.datalen == len
    {
      if len == 0 {
        return;
      }
      var rxLen := if len > rxQue.blocksize then rxQue.blocksize else len;
      rxQue := rxQue.(blocksize := RX_BUFFER_SIZE, datalen := rxLen);
      status := status.(rdEmpty := false, rxAvailable := true, rxLength := rxLen);
      started := true;
    }

    /** Point the descriptor at the head of the send queue and announce its bytes. */
    method Announce()
      requires Lists() && Buffers() && Fills() && queue != [] && Described() && !started
      modifies this`rxQue, this`status, this`started, this`hasRead
      ensures View() == SdioSpec.LoadDone(old(View()), |queued[0]|).(hasRead := false) && Described()
    {
      assert queue[0].Valid();
      rxQue := rxQue.(bufPtr := headToSend.buffer);
      RxBuffLoadDone(headToSend.tail);
      hasRead := false;
    }

    /** The spare list while sdio_slave_init builds it; `p` is its last node so far. */
    ghost predicate Chain(p: SdioList?)
      reads this`nodes, this`spare, this`headSended, nodes`next
    {
      && InNodes(spare) && Distinct(spare) && Linked(spare)
      && headSended == (if spare == [] then null else spare[0])
      && p == (if spare == [] then null else spare[|spare| - 1])
    }

    ghost predicate Absent(n: SdioList, list: seq<SdioList>) {
      forall i | 0 <= i < |list| :: list[i] != n
    }

    method AppendNode(p: SdioList?, n: SdioList)
      requires Chain(p) && Buffers() && Empties(spare)
      requires n in nodes && n.next == null && Absent(n, spare) && n.fill == []
      modifies this`headSended, this`spare, (if p == null then {} else {p})`next
      ensures Chain(n) && Buffers() && Empties(spare) && spare == old(spare) + [n]
    {
      if headSended == null {
        headSended := n;
      } else {
        p.next := n;
      }
      spare := spare + [n];
    }

    ghost predicate Empties(list: seq<SdioList>)
      reads list`fill
    {
      forall i | 0 <= i < |list| :: list[i].fill == []
    }

    ghost predicate Built(count: nat)
      reads this`nodes, this`owner, this`spare, nodes`tail, nodes`fill, owner.Keys
    {
      InNodes(spare) && Buffers() && Empties(spare) && |spare| == |nodes| == count
    }

    /** os_malloc of one struct sdio_list, emptied. */
    method NewNode() returns (n: SdioList)
      requires Buffers() && InNodes(spare)
      modifies this`nodes, this`owner
      ensures InNodes(spare) && Absent(n, spare)
      ensures Buffers() && fresh(n) && fresh(n.buffer) && n.next == null && n.fill == []
      ensures nodes == old(nodes) + {n} && owner.Keys == old(owner.Keys) + {n.buffer}
      ensures |nodes| == |old(nodes)| + 1
    {
      n := new SdioList();
      nodes, owner := nodes + {n}, owner[n.buffer := n];
    }

    /** The same, with the list built so far left as it is. */
    method NewNodeBehind(p: SdioList?) returns (n: SdioList)
      requires Buffers() && Chain(p)
      modifies this`nodes, this`owner
      ensures Buffers() && Chain(p) && InNodes(spare) && Absent(n, spare)
      ensures n in nodes && n.next == null && n.fill == [] && |nodes| == |old(nodes)| + 1
      ensures fresh(nodes - old(nodes)) && fresh(owner.Keys - old(owner.Keys))
    {
      hide Buffers, Linked, Distinct, Absent;
      n := NewNode();
    }

    /** One pass of sdio_slave_init's allocation loop. */
    method Allocate(p: SdioList?, ghost count: nat) returns (n: SdioList)
      requires Chain(p) && Built(count)
      modifies this`nodes, this`owner, this`spare, this`headSended, nodes`next
      ensures Chain(n) && Built(count + 1)
      ensures fresh(nodes - old(nodes)) && fresh(owner.Keys - old(owner.Keys))
    {
      LastBuilt(p);
      hide Buffers, Chain, InNodes, Absent, Empties;
      n := NewNodeBehind(p);
      AppendNode(p, n);
      LastBuilt(n);
    }

    /** The last node built is one of the nodes, and so are all before it. */
    lemma LastBuilt(p: SdioList?)
      requires Chain(p)
      ensures InNodes(spare) && (p == null || p in nodes)
    {
    }

    lemma NothingBuilt()
      requires nodes == {} && spare == [] && headSended == null
      ensures Chain(null) && Built(0)
    {
    }

    lemma AllBuilt()
      requires Chain(tailSended) && Built(RX_BUFFER_NUM) && filling == [[], [], [], []]
      requires queue == [] && queued == [] && headToSend == null
      ensures Lists() && Buffers() && Fills() && |nodes| == RX_BUFFER_NUM
    {
      hide Buffers;
    }

    /** The end of sdio_slave_init: the descriptor and the status word. */
    method InitRegisters()
      requires Lists() && Buffers() && Fills() && |nodes| == RX_BUFFER_NUM
      requires queued == [] && filling == [[], [], [], []] && hasRead
      modifies this`rxQue, this`status, this`started
      ensures Valid() && View() == InitialSlave
    {
      hide Lists, Buffers, Fills;
      Ends();
      rxQue := Descriptor(RX_BUFFER_SIZE, 0, headSended.buffer);
      status, started := Status(7, true, 0, false), false;
      InitialInv();
    }

    /** The globals as the C start-up code leaves them. */
    ghost predicate Zeroed()
      reads this
    {
      && headToSend == null && headSended == null && queue == [] && spare == [] && queued == []
      && nodes == {} && owner == map[]
    }

    constructor ()
      ensures Zeroed()
    {
      headToSend, tailToSend, headSended, tailSended := null, null, null, null;
      nodes, owner, queue, spare, queued := {}, map[], [], [], [];
    }

    /** The allocation loop of sdio_slave_init. */
    method AllocateAll() returns (p: SdioList?)
      requires nodes == {} && owner == map[] && spare == [] && headSended == null
      modifies this`nodes, this`owner, this`spare, this`headSended
      ensures Chain(p) && Built(RX_BUFFER_NUM) && fresh(nodes) && fresh(owner.Keys)
    {
      hide Chain, Built;
      NothingBuilt();
      var loop := RX_BUFFER_NUM;
      p := null;
      while loop > 0
        invariant 0 <= loop <= RX_BUFFER_NUM && Chain(p) && Built(RX_BUFFER_NUM - loop)
        invariant fresh(nodes) && fresh(owner.Keys)
      {
        p := Allocate(p, RX_BUFFER_NUM - loop);
        loop := loop - 1;
      }
    }

    /** sdio_slave_init on zeroed globals. */
    method SlaveInit()
      requires Zeroed()
      modifies this
      ensures Valid() && View() == InitialSlave && fresh(nodes) && fresh(owner.Keys)
    {
      hide Chain, Built, Lists, Buffers, Fills, Valid;
      hasRead := true;
      headToSend := null;
      tailSended := AllocateAll();
      filling := [[], [], [], []];
      AllBuilt();
      InitRegisters();
    }

    /** Top the first spare buffer up to 512 bytes and queue it. */
    method FillAndQueue(chunk: Bytes)
      requires Lists() && Buffers() && Fills() && spare != [] && |filling[0]| + |chunk| == RX_BUFFER_SIZE
      modifies this`headToSend, this`tailToSend, this`headSended, this`queue, this`spare, this`queued, this`filling,
               nodes`next, headSended`tail, headSended`fill, headSended.buffer
      ensures Lists() && Buffers() && Fills()
      ensures queue == old(queue + [spare[0]]) && spare == old(spare[1..])
      ensures queued == old(queued) + [old(filling[0]) + chunk] && filling == old(filling[1..])
    {
      hide Lists, Buffers, Fills;
      Ends();
      CopyToSpare(chunk);
      Ends();
      MoveToQueue();
    }

    /** One pass of sdio_load_data's loop: what is left of the input, and what the pass adds to the count. */
    method CopyPass(data: Bytes) returns (rest: Bytes, n: nat)
      requires Lists() && Buffers() && Fills() && spare != [] && FillShape(filling) && data != []
      modifies this`headToSend, this`tailToSend, this`headSended, this`queue, this`spare, this`queued, this`filling,
               nodes`next, headSended`tail, headSended`fill, headSended.buffer
      ensures Lists() && Buffers() && Fills() && FillShape(filling) && |rest| < |data|
      ensures old(queue) <= queue
      ensures var f := FillBuffers(old(queued), old(filling), data);
        if spare == [] then f == Filled(queued, [], f.accepted, n)
        else var g := FillBuffers(queued, filling, rest);
          f.toSend == g.toSend && f.sended == g.sended && f.returned == n + g.returned
    {
      hide Lists, Buffers, Fills;
      Ends();
      var left := RX_BUFFER_SIZE - headSended.tail;
      if |data| < left {
        CopyToSpare(data);
        rest, n := [], 0;
      } else {
        FillAndQueue(data[..left]);
        rest, n := data[left..], left;
      }
    }

    /** The copy loop of sdio_load_data. */
    method FillFromData(data: Bytes) returns (dataLen: nat)
      requires Lists() && Buffers() && Fills() && spare != [] && FillShape(filling)
      modifies this`headToSend, this`tailToSend, this`headSended, this`queue, this`spare, this`queued, this`filling,
               nodes`next, nodes`tail, nodes`fill, owner.Keys
      ensures Lists() && Buffers() && Fills()
      ensures var f := FillBuffers(old(queued), old(filling), data);
        queued == f.toSend && filling == f.sended && dataLen == f.returned
      ensures old(queue) <= queue
    {
      hide Lists, Buffers, Fills;
      Ends();
      dataLen := 0;
      var rest := data;
      ghost var f := FillBuffers(queued, filling, data);
      while |rest| > 0
        invariant Lists() && Buffers() && Fills() && spare != [] && filling != [] && FillShape(filling)
        invariant var g := FillBuffers(queued, filling, rest);
          f.toSend == g.toSend && f.sended == g.sended && f.returned == dataLen + g.returned
        invariant old(queue) <= queue
        decreases |rest|
      {
        Ends();
        var n: nat;
        rest, n := CopyPass(rest);
        dataLen := dataLen + n;
        Ends();
        if headSended == null {
          break;
        }
      }
    }

    ghost predicate HeadOf(head: SdioList?, list: seq<SdioList>, fills: seq<Bytes>)
      requires list != [] && fills != []
      reads this`nodes, this`owner, nodes`tail, nodes`fill, owner.Keys
    {
      && head == list[0] && head in nodes && head.buffer in owner
      && head.Valid() && head.fill == fills[0]
    }

    /** What the null tests of the source mean for the lists. */
    lemma Ends()
      requires Lists() && Buffers() && Fills()
      ensures headToSend == null <==> queue == []
      ensures headSended == null <==> spare == []
      ensures |queue| == |queued| && |spare| == |filling|
      ensures queue != [] ==> HeadOf(headToSend, queue, queued)
      ensures spare != [] ==> HeadOf(headSended, spare, filling)
    {
      if queue != [] { assert queue[0].Valid(); }
      if spare != [] { assert spare[0].Valid(); }
    }

    /** sdio_try_to_load; TRIG_TOHOST_INT only raises the host's interrupt line. */
    method TryToLoad()
      requires Lists() && Buffers() && Fills() && Described() && !started
      modifies this`rxQue, this`status, this`started, this`hasRead
      ensures View() == SdioSpec.TryToLoad(old(View())) && Described()
    {
      if hasRead && headToSend != null {
        Announce();
      }
    }

    /** The end of sdio_load_data: an empty queue gets the first spare buffer, and the link is started. */
    method Promote()
      requires Lists() && Buffers() && Fills() && Described() && queue + spare != []
      requires queue == [] ==> hasRead && !started
      modifies this`headToSend, this`tailToSend, this`headSended, nodes`next,
               this`queue, this`spare, this`queued, this`filling,
               this`rxQue, this`status, this`started, this`hasRead
      ensures Lists() && Buffers() && Fills() && Described()
      ensures View() == SdioSpec.Promote(old(View()))
      ensures old(queue) != [] ==> View() == old(View()) && queue == old(queue) && rxQue == old(rxQue)
    {
      hide Lists, Buffers, Fills, Described;
      Ends();
      if headToSend == null {
        MoveIdle();
        assert queued == [old(filling[0])];
        Ends();
        TryToLoad();
      }
    }

    /** The whole of sdio_load_data, before anything is said about the protocol's phases. */
    method LoadSteps(data: Bytes) returns (dataLen: nat)
      requires Lists() && Buffers() && Fills() && Described() && Shape(View())
      requires queue == [] ==> hasRead && !started
      modifies this`headToSend, this`tailToSend, this`headSended, nodes`next, nodes`tail, nodes`fill, owner.Keys,
               this`queue, this`spare, this`queued, this`filling,
               this`rxQue, this`status, this`started, this`hasRead
      ensures Lists() && Buffers() && Fills() && Described()
      ensures View() == Load(old(View()), data) && dataLen == LoadFills(old(View()), data).returned
      ensures old(queue) != [] ==> old(queue) <= queue && rxQue == old(rxQue) && started == old(started)
    {
      hide Lists, Buffers, Fills, FillShape, QueueShape, FillBuffers, SdioSpec.Promote;
      Ends();
      if headSended == null {
        LoadWithoutSpare(View(), data);
        return 0;
      }
      FillKeepsShape(queued, filling, data);
      dataLen := FillFromData(data);
      Ends();
      Promote();
    }

    /**
     sdio_load_data. Whatever it does to the spare buffers, a transfer in flight
     keeps its descriptor and the bytes under it.
     */
    method LoadData(data: Bytes) returns (dataLen: nat)
      requires Valid()
      modifies this`headToSend, this`tailToSend, this`headSended, nodes`next, nodes`tail, nodes`fill, owner.Keys,
               this`queue, this`spare, this`queued, this`filling,
               this`rxQue, this`status, this`started, this`hasRead
      ensures Valid()
      ensures View() == Load(old(View()), data) && dataLen == LoadFills(old(View()), data).returned
      ensures old(started) ==>
        started && rxQue == old(rxQue) && rxQue.bufPtr[..rxQue.datalen] == old(rxQue.bufPtr[..rxQue.datalen])
    {
      hide Lists, Buffers, Fills, FillShape, QueueShape, FillBuffers, Load;
      Ends();
      LoadPhase(View(), data);
      dataLen := LoadSteps(data);
      Ends();
    }

    /** The start of sdio_read_done_process: empty the head of the send queue and recycle it. */
    method Recycle()
      requires Lists() && Buffers() && Fills() && queue != []
      modifies this`headToSend, this`headSended, this`tailSended, nodes`next, nodes`tail, nodes`fill,
               this`queue, this`spare, this`queued, this`filling
      ensures Lists() && Buffers() && Fills()
      ensures queue == old(queue[1..]) && spare == old(spare + [queue[0]])
      ensures queued == old(queued[1..]) && filling == old(filling) + [[]]
    {
      hide Lists, Buffers, Fills;
      Ends();
      ResetHead();
      Ends();
      MoveToSpare();
    }

    /** The end of sdio_read_done_process: announce the next buffer, if any holds bytes. */
    method Restart()
      requires Lists() && Buffers() && Fills() && Described() && !started && spare != []
      modifies this`headToSend, this`tailToSend, this`headSended, nodes`next,
               this`queue, this`spare, this`queued, this`filling,
               this`rxQue, this`status, this`started, this`hasRead
      ensures Lists() && Buffers() && Fills() && Described()
      ensures View() == SdioSpec.Restart(old(View()))
    {
      hide Lists, Buffers, Fills, Described;
      Ends();
      if headToSend != null {
        Announce();
      } else if headSended != null && headSended.tail != 0 {
        MoveIdle();
        assert queued == [old(filling[0])];
        Announce();
      }
    }

    /** sdio_read_done_process. */
    method ReadDoneProcess()
      requires Lists() && Buffers() && Fills() && Described() && !started && queue != []
      modifies this`headToSend, this`tailToSend, this`headSended, this`tailSended, nodes`next, nodes`tail, nodes`fill,
               this`queue, this`spare, this`queued, this`filling,
               this`rxQue, this`status, this`started, this`hasRead
      ensures Lists() && Buffers() && Fills() && Described()
      ensures View() == SdioSpec.Restart(
        Slave(old(queued[1..]), old(filling) + [[]], true, false, old(status)))
    {
      hide Lists, Buffers, Fills, SdioSpec.Restart;
      hasRead := true;
      Recycle();
      assert Described();
      hide Described;
      Restart();
    }

    /**
     The host reads the announced bytes through the descriptor; then the RX-EOF
     branch of sdio_slave_isr runs rx_buff_read_done and sdio_read_done_process.
     */
    method ReadDoneInterrupt() returns (got: Bytes)
      requires Valid() && started
      modifies this`headToSend, this`tailToSend, this`headSended, this`tailSended, nodes`next, nodes`tail, nodes`fill,
               this`queue, this`spare, this`queued, this`filling,
               this`rxQue, this`status, this`started, this`hasRead
      ensures Valid()
      ensures View() == ReadDone(old(View())) && got == old(queued[0])
    {
      hide Lists, Buffers, Fills, SdioSpec.Restart, FillShape, QueueShape;
      Ends();
      ReadDonePhase(View());
      got := rxQue.bufPtr[..rxQue.datalen];
      started := false;
      status := Status((status.commCnt + 1) % 8, true, 0, false);
      ReadDoneProcess();
    }

    /** One event of the protocol, on the driver; an end-of-read interrupt comes only while the link runs. */
    method Serve(e: Event, ghost y: System) returns (got: Bytes)
      requires Valid() && y.slave == View()
      modifies this`headToSend, this`tailToSend, this`headSended, this`tailSended,
               nodes`next, nodes`tail, nodes`fill, owner.Keys,
               this`queue, this`spare, this`queued, this`filling,
               this`rxQue, this`status, this`started, this`hasRead
      ensures Valid() && Step(y, e).slave == View() && Step(y, e).delivered == y.delivered + got
    {
      hide Lists, Buffers, Fills, Described, Load, ReadDone, Shape, Inv;
      got := [];
      match e
      case LoadCall(data) =>
        var dataLen := LoadData(data);
      case ReadDoneIntr =>
        if started {
          got := ReadDoneInterrupt();
        }
    }

    /** Any sequence of loads and interrupts is the run `RunConserves` is about, with the same bytes for the host. */
    method ServeAll(events: seq<Event>) returns (got: Bytes)
      requires Valid()
      modifies this`headToSend, this`tailToSend, this`headSended, this`tailSended,
               nodes`next, nodes`tail, nodes`fill, owner.Keys,
               this`queue, this`spare, this`queued, this`filling,
               this`rxQue, this`status, this`started, this`hasRead
      ensures Valid()
      ensures var z := Run(System(old(View()), [], []), events); z.slave == View() && z.delivered == got
    {
      ghost var y := System(View(), [], []);
      ghost var z := Run(y, events);
      got := [];
      hide Valid, Step, Inv;
      var i := 0;
      while i < |events|
        invariant 0 <= i <= |events| && Valid()
        invariant Inv(y.slave) && y.slave == View() && y.delivered == got && z == Run(y, events[i..])
      {
        assert events[i..][0] == events[i] && events[i..][1..] == events[i + 1..];
        StepKeeps(y, events[i]);
        var more := Serve(events[i], y);
        got := got + more;
        y := Step(y, events[i]);
        i := i + 1;
      }
    }
  }
}
