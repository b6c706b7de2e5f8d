/** The server's length-prefixed answers and the client that reads them back. */
module Framing {
  import opened Bits

  const NEWLINE: Byte := 10
  const ZERO: Byte := 48

  type Bytes = seq<Byte>

  /** "%d" of a non-negative number. */
  function Decimal(n: nat): (s: Bytes)
    ensures s != []
  {
    if n < 10 then [ZERO + n] else Decimal(n / 10) + [ZERO + n % 10]
  }

  datatype Parsed = NotANumber | Number(n: nat)

  /** int() on a string of decimal digits. */
  function Parse(s: Bytes): Parsed {
    if s == [] then NotANumber
    else
      var d := s[|s| - 1] - ZERO;
      if !(0 <= d < 10) then NotANumber
      else if |s| == 1 then Number(d)
      else
        match Parse(s[..|s| - 1])
        case NotANumber => NotANumber
        case Number(n) => Number(10 * n + d)
  }

  lemma {:induction false} ParseDecimal(n: nat)
    ensures Parse(Decimal(n)) == Number(n)
    ensures NEWLINE !in Decimal(n)
  {
    if n >= 10 {
      ParseDecimal(n / 10);
      assert Decimal(n)[..|Decimal(n)| - 1] == Decimal(n / 10);
    }
  }

  /** The value of ASCII digits, by place. */
  function PlaceValue(s: Bytes): int {
    if s == [] then 0
    else
      var digit: int := s[|s| - 1];
      10 * PlaceValue(s[..|s| - 1]) + digit - 48
  }

  /** The printed length is the ASCII decimal of its value, without leading zeros. */
  lemma {:induction false} DecimalMeans(n: nat)
    ensures PlaceValue(Decimal(n)) == n
    ensures forall i | 0 <= i < |Decimal(n)| :: 48 <= Decimal(n)[i] <= 57
    ensures n > 0 ==> Decimal(n)[0] != 48
  {
    if n >= 10 {
      DecimalMeans(n / 10);
      assert Decimal(n)[..|Decimal(n)| - 1] == Decimal(n / 10);
    } else {
      assert Decimal(n)[..0] == [];
    }
  }

  /** "{}" is framed as "2", a newline and the two bytes. */
  lemma EmptyObjectFramed()
    ensures Frame([123, 125]) == [50, 10, 123, 125]
  {
  }

  function Frame(payload: Bytes): Bytes {
    Decimal(|payload|) + [NEWLINE] + payload
  }

  function Frames(payloads: seq<Bytes>): Bytes {
    if payloads == [] then [] else Frame(payloads[0]) + Frames(payloads[1..])
  }

  // ----- what one receive makes of a stream

  /** The text before the first newline; `Open` if recv would wait for more, `NotAscii` where decode raises. */
  datatype Line = Open | NotAscii(rest: Bytes) | Ended(text: Bytes, rest: Bytes)

  function FirstLine(stream: Bytes): Line {
    if stream == [] then Open
    else if stream[0] >= 128 then NotAscii(stream[1..])
    else if stream[0] == NEWLINE then Ended([], stream[1..])
    else Prefixed(stream[..1], FirstLine(stream[1..]))
  }

  function Prefixed(text: Bytes, line: Line): Line {
    if line.Ended? then Ended(text + line.text, line.rest) else line
  }

  datatype Reply = Waits | Raises | Got(payload: Bytes)

  /** The reply and the part of the stream not yet read. */
  datatype Outcome = Outcome(reply: Reply, rest: Bytes)

  /**
   socketClient.send on a connection that brings exactly `stream`, for a length
   line of digits. `Waits` is a recv that blocks, or on a closed connection a loop
   that never ends.
   */
  function Received(stream: Bytes): Outcome {
    match FirstLine(stream)
    case Open => Outcome(Waits, [])
    case NotAscii(rest) => Outcome(Raises, rest)
    case Ended(text, rest) =>
      match Parse(text)
      case NotANumber => Outcome(Raises, rest)
      case Number(n) => if |rest| < n then Outcome(Waits, []) else Outcome(Got(rest[..n]), rest[n..])
  }

  lemma {:induction false} FirstLineEnds(text: Bytes, rest: Bytes)
    requires forall i | 0 <= i < |text| :: text[i] < 128 && text[i] != NEWLINE
    ensures FirstLine(text + [NEWLINE] + rest) == Ended(text, rest)
  {
    var stream := text + [NEWLINE] + rest;
    if text == [] {
      assert stream[1..] == rest;
    } else {
      assert stream[0] == text[0] && stream[..1] == text[..1];
      assert stream[1..] == text[1..] + [NEWLINE] + rest;
      FirstLineEnds(text[1..], rest);
      assert text[..1] + text[1..] == text;
    }
  }

  lemma {:induction false} FirstLineSplits(stream: Bytes)
    ensures FirstLine(stream).Ended? ==>
      var l := FirstLine(stream); stream == l.text + [NEWLINE] + l.rest && NEWLINE !in l.text
  {
    if stream != [] && stream[0] < 128 && stream[0] != NEWLINE {
      FirstLineSplits(stream[1..]);
    }
  }

  /** A line holds every byte up to one with no newline at or before it. */
  lemma LineGoesPast(stream: Bytes, k: nat)
    requires k < |stream| && forall i | 0 <= i <= k :: stream[i] != NEWLINE
    ensures FirstLine(stream).Ended? ==>
      |FirstLine(stream).text| > k && FirstLine(stream).text[k] == stream[k]
  {
    FirstLineSplits(stream);
    var line := FirstLine(stream);
    if line.Ended? {
      assert stream[|line.text|] == NEWLINE;
    }
  }

  lemma {:induction false} DecimalDigits(n: nat)
    ensures forall i | 0 <= i < |Decimal(n)| :: ZERO <= Decimal(n)[i] < ZERO + 10
  {
    if n >= 10 {
      DecimalDigits(n / 10);
    }
  }

  lemma {:induction false} ParsedDigits(s: Bytes)
    ensures Parse(s).Number? ==> forall i | 0 <= i < |s| :: ZERO <= s[i] < ZERO + 10
  {
    if |s| > 1 {
      ParsedDigits(s[..|s| - 1]);
    }
  }

  /** A frame is received whole, and nothing behind it is read. */
  lemma FrameReceived(payload: Bytes, rest: Bytes)
    ensures Received(Frame(payload) + rest) == Outcome(Got(payload), rest)
  {
    var line := Decimal(|payload|);
    ParseDecimal(|payload|);
    DecimalDigits(|payload|);
    assert Frame(payload) + rest == line + [NEWLINE] + (payload + rest);
    FirstLineEnds(line, payload + rest);
  }

  /** A stream that stops short of the whole frame leaves the client waiting; if it is closed there, forever. */
  lemma CutFrameWaits(payload: Bytes, k: nat)
    requires k <= |Frame(payload)|
    ensures Received(Frame(payload)[..k]).reply.Waits? <==> k < |Frame(payload)|
  {
    var line := Decimal(|payload|);
    ParseDecimal(|payload|);
    DecimalDigits(|payload|);
    var cut := Frame(payload)[..k];
    if k <= |line| {
      assert cut == line[..k];
      NoLine(cut);
    } else {
      var part := payload[..k - |line| - 1];
      assert cut == line + [NEWLINE] + part;
      FirstLineEnds(line, part);
    }
  }

  lemma {:induction false} NoLine(text: Bytes)
    requires forall i | 0 <= i < |text| :: text[i] < 128 && text[i] != NEWLINE
    ensures FirstLine(text).Open?
  {
    if text != [] {
      NoLine(text[1..]);
    }
  }

  /** The bytes int() may accept somewhere in a number: digits, signs, underscores and blanks. */
  predicate MayCount(b: Byte) {
    ZERO <= b < ZERO + 10 || b <= 32 || b == 43 || b == 45 || b == 95
  }

  /** What JSON objects, arrays, strings and literals start with counts in no number. */
  lemma JsonDoesNotCount()
    ensures forall b: Byte | b in {123, 91, 34, 116, 102, 110} :: !MayCount(b)
  {
  }

  /**
   Without the whole length line the payload's first byte ends up in the number:
   no short send lets the client have that payload or any other, whatever is
   sent later.
   */
  lemma ShortSend(payload: Bytes, sent: nat, later: Bytes)
    requires payload != [] && !MayCount(payload[0])
    requires sent <= |Decimal(|payload|)|
    ensures !Received((Decimal(|payload|) + [NEWLINE])[..sent] + payload + later).reply.Got?
  {
    hide Decimal, Parse, FirstLine;
    var digits := Decimal(|payload|)[..sent];
    assert (Decimal(|payload|) + [NEWLINE])[..sent] == digits;
    DecimalDigits(|payload|);
    var stream := digits + payload + later;
    assert stream[sent] == payload[0];
    assert forall i | 0 <= i < sent :: stream[i] == digits[i];
    LineGoesPast(stream, sent);
    if FirstLine(stream).Ended? {
      ParsedDigits(FirstLine(stream).text);
    }
  }

  /**
   listenToClient's two writes. `send` reports how many bytes of the length line
   it took and the server does not look; `sendall` always writes everything. A
   JSON object starts with a brace, so the client gets it exactly when `send`
   took the whole line.
   */
  method Answer(stream: Bytes, serialized: Bytes, sent: nat) returns (longer: Bytes)
    requires sent <= |Decimal(|serialized|)| + 1
    ensures longer == stream + Frame(serialized) <==> sent == |Decimal(|serialized|)| + 1
    ensures longer == stream + (Decimal(|serialized|) + [NEWLINE])[..sent] + serialized
    ensures serialized != [] && !MayCount(serialized[0]) ==> forall later ::
      (Received(longer[|stream|..] + later) == Outcome(Got(serialized), later) <==> sent == |Decimal(|serialized|)| + 1)
  {
    hide Received;
    var line := Decimal(|serialized|) + [NEWLINE];
    longer := stream + line[..sent];
    longer := longer + serialized;
    assert longer[|stream|..] == line[..sent] + serialized;
    if sent == |line| {
      assert line[..sent] == line;
      assert longer == stream + Frame(serialized);
      forall later ensures Received(Frame(serialized) + later) == Outcome(Got(serialized), later) {
        FrameReceived(serialized, later);
      }
    } else {
      assert |longer| < |stream + Frame(serialized)|;
      if serialized != [] && !MayCount(serialized[0]) {
        forall later ensures !Received(line[..sent] + serialized + later).reply.Got? {
          ShortSend(serialized, sent, later);
        }
      }
    }
  }

  /** The client's end of the connection: what has been sent to it and not yet read. */
  class Socket {
    var incoming: Bytes

    constructor (incoming: Bytes)
      ensures this.incoming == incoming
    {
      this.incoming := incoming;
    }

    /** recv of up to `limit` bytes: some non-empty prefix of what is there, of any length the network likes. */
    method Recv(limit: nat) returns (chunk: Bytes)
      requires limit > 0 && incoming != []
      modifies this
      ensures 0 < |chunk| <= limit && chunk + incoming == old(incoming)
    {
      var k: nat :| 0 < k <= limit && k <= |incoming|;
      chunk := incoming[..k];
      incoming := incoming[k..];
    }

    /** The length line: one byte at a time up to the newline. */
    method ReadLine() returns (line: Line)
      modifies this
      ensures line == FirstLine(old(incoming)) && incoming == if line.Open? then [] else line.rest
    {
      var lenStr := [];
      while incoming != []
        invariant FirstLine(old(incoming)) == Prefixed(lenStr, FirstLine(incoming))
        decreases |incoming|
      {
        ghost var before := incoming;
        var x := Recv(1);
        assert before[0] == x[0] && before[..1] == x && before[1..] == incoming;
        if x[0] >= 128 {
          return NotAscii(incoming);
        }
        if x[0] == NEWLINE {
          return Ended(lenStr, incoming);
        }
        PrefixedTwice(lenStr, x, FirstLine(incoming));
        lenStr := lenStr + x;
      }
      return Open;
    }

    /** The partial-receive loop over a preallocated buffer; it waits when the stream runs out. */
    method ReadBody(total: nat) returns (view: array<Byte>, complete: bool)
      modifies this
      ensures fresh(view) && (complete <==> |old(incoming)| >= total)
      ensures complete ==> view[..] == old(incoming)[..total] && incoming == old(incoming)[total..]
      ensures !complete ==> incoming == []
    {
      view := new Byte[total](_ => 0);
      var nextOffset := 0;
      while total - nextOffset > 0
        invariant 0 <= nextOffset <= total
        invariant view[..nextOffset] + incoming == old(incoming)
        decreases total - nextOffset
      {
        if incoming == [] {
          return view, false;
        }
        ghost var before := view[..nextOffset];
        var chunk := Recv(total - nextOffset);
        forall i | 0 <= i < |chunk| {
          view[nextOffset + i] := chunk[i];
        }
        assert view[..nextOffset + |chunk|] == before + chunk;
        nextOffset := nextOffset + |chunk|;
      }
      assert view[..nextOffset] == old(incoming)[..total];
      assert incoming == old(incoming)[total..];
      complete := true;
    }

    /** socketClient.send, once its request is out. */
    method Receive() returns (reply: Reply)
      modifies this
      ensures Outcome(reply, incoming) == Received(old(incoming))
    {
      var line := ReadLine();
      if line.Open? {
        return Waits;
      }
      if line.NotAscii? {
        return Raises;
      }
      var total := Parse(line.text);
      if total.NotANumber? {
        return Raises;
      }
      var view, complete := ReadBody(total.n);
      reply := if complete then Got(view[..]) else Waits;
    }

    /** However the stream is cut, repeated receives give back every payload in order. */
    method ReceiveAll(ghost payloads: seq<Bytes>, count: nat, ghost rest: Bytes) returns (got: seq<Bytes>)
      requires incoming == Frames(payloads) + rest && count == |payloads|
      modifies this
      ensures got == payloads && incoming == rest
    {
      hide Frame, Received;
      got := [];
      var i := 0;
      while i < count
        invariant 0 <= i <= count && got == payloads[..i]
        invariant incoming == Frames(payloads[i..]) + rest
      {
        assert payloads[i..][1..] == payloads[i + 1..];
        ghost var others := Frames(payloads[i + 1..]) + rest;
        assert incoming == Frame(payloads[i]) + others;
        FrameReceived(payloads[i], others);
        var reply := Receive();
        got := got + [reply.payload];
        i := i + 1;
      }
    }
  }

  lemma PrefixedTwice(a: Bytes, b: Bytes, line: Line)
    ensures Prefixed(a, Prefixed(b, line)) == Prefixed(a + b, line)
  {
    if line.Ended? {
      assert a + (b + line.text) == (a + b) + line.text;
    }
  }
}
