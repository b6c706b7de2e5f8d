/** hspi_overlap_read_flash_data: a flash read in transfers of at most 32 bytes. */
module FlashRead {
  import opened Bits

  const SPI_BUFF_BYTE_NUM: nat := 32
  const UINT32: nat := 0x1_0000_0000
  const ADDRESS_SPACE: nat := 0x100_0000

  /** A 32-bit register or memory word, by its bytes in address order. */
  datatype Word = Word(b0: Byte, b1: Byte, b2: Byte, b3: Byte) {
    function At(i: nat): Byte
      requires i < 4
    {
      if i == 0 then b0 else if i == 1 then b1 else if i == 2 then b2 else b3
    }
  }

  function ByteAt(words: seq<Word>, k: nat): Byte
    requires k < 4 * |words|
  {
    words[k / 4].At(k % 4)
  }

  /** The memory at `words` starts with `data`. */
  predicate Holds(words: seq<Word>, data: seq<Byte>) {
    |data| <= 4 * |words| && forall k | 0 <= k < |data| :: ByteAt(words, k) == data[k]
  }

  /** The command word: the byte count above bit 24, the address below. */
  function Command(addr: nat, len: nat): nat {
    Or(addr, len * Pow2(24))
  }

  lemma AddressBits()
    ensures Pow2(24) == ADDRESS_SPACE
  {
    Pow2Is256();
    Pow2Add(8, 8);
    Pow2Add(16, 8);
    hide Pow2;
  }

  /** Address and length never overlap in the command word. */
  lemma CommandFields(addr: nat, len: nat)
    requires addr < ADDRESS_SPACE
    ensures Command(addr, len) % ADDRESS_SPACE == addr && Command(addr, len) / ADDRESS_SPACE == len
  {
    AddressBits();
    hide Or, Pow2;
    OrDisjoint(addr, len, 24);
  }

  /** The check of the source, on 32-bit unsigned numbers. */
  predicate InRange(addr: nat, len: nat, chipSize: nat) {
    (addr + len) % UINT32 <= chipSize
  }

  /** The check is the intended one except where the 32-bit sum wraps back into the chip. */
  lemma RangeCheckExact(addr: nat, len: nat, chipSize: nat)
    requires addr < UINT32 && len < UINT32 && chipSize < UINT32
    ensures (InRange(addr, len, chipSize) <==> addr + len <= chipSize)
       <==> !(addr + len >= UINT32 && addr + len - UINT32 <= chipSize)
  {
  }

  /** The HSPI module in front of a flash chip: a read command fills the data words W0 to W7. */
  class Port {
    const flash: seq<Byte>
    var data: seq<Word>

    predicate Valid()
      reads this
    {
      |data| == 8 && |flash| <= ADDRESS_SPACE
    }

    constructor (flash: seq<Byte>, stale: seq<Word>)
      requires |flash| <= ADDRESS_SPACE && |stale| == 8
      ensures Valid() && this.flash == flash
    {
      this.flash, data := flash, stale;
    }

    /** SPI_FLASH_READ of the bytes the command word names; the other bytes of W0 to W7 keep their old contents. */
    method Transfer(command: nat)
      requires Valid()
      requires command % ADDRESS_SPACE + command / ADDRESS_SPACE <= |flash|
      requires command / ADDRESS_SPACE <= SPI_BUFF_BYTE_NUM
      modifies this`data
      ensures Valid()
      ensures var addr, len := command % ADDRESS_SPACE, command / ADDRESS_SPACE;
        Holds(data, flash[addr..addr + len])
    {
      var addr, len := command % ADDRESS_SPACE, command / ADDRESS_SPACE;
      var stale := data;
      var byte := (k: nat) requires k < 32 => if k < len then flash[addr + k] else ByteAt(stale, k);
      data := seq(8, i requires 0 <= i < 8 => Word(byte(4 * i), byte(4 * i + 1), byte(4 * i + 2), byte(4 * i + 3)));
    }
  }

  /** The copy loop: the first words of W0 to W7 to `dest` from word `at` on. */
  method CopyWords(data: seq<Word>, dest: array<Word>, at: nat, words: nat)
    requires words <= |data| && at + words <= dest.Length
    modifies dest
    ensures dest[..at] == old(dest[..at]) && dest[at + words..] == old(dest[at + words..])
    ensures dest[at..at + words] == data[..words]
  {
    var i := 0;
    while i < words
      invariant 0 <= i <= words
      invariant dest[..at] == old(dest[..at]) && dest[at + words..] == old(dest[at + words..])
      invariant dest[at..at + i] == data[..i]
    {
      dest[at + i] := data[i];
      i := i + 1;
    }
  }

  lemma PrefixHolds(words: seq<Word>, data: seq<Word>, n: nat, bytes: seq<Byte>)
    requires n <= |data| && n <= |words| && words[..n] == data[..n]
    requires Holds(data, bytes) && |bytes| <= 4 * n
    ensures Holds(words, bytes)
  {
    forall k | 0 <= k < |bytes|
      ensures ByteAt(words, k) == bytes[k]
    {
      assert words[..n][k / 4] == data[..n][k / 4];
      assert ByteAt(data, k) == bytes[k];
    }
  }

  /** One pass of the read loop: `n` bytes at `addr` to `dest` from word `at` on. */
  method ReadChunk(port: Port, addr: nat, dest: array<Word>, at: nat, n: nat)
    requires port.Valid() && addr + n <= |port.flash| && n <= SPI_BUFF_BYTE_NUM && addr < ADDRESS_SPACE
    requires at + (n + 3) / 4 <= dest.Length
    modifies port`data, dest
    ensures port.Valid()
    ensures dest[..at] == old(dest[..at]) && dest[at + (n + 3) / 4..] == old(dest[at + (n + 3) / 4..])
    ensures Holds(dest[at..], port.flash[addr..addr + n])
  {
    hide Holds;
    CommandFields(addr, n);
    port.Transfer(Command(addr, n));
    var words := if n % 4 == 0 then n / 4 else n / 4 + 1;
    CopyWords(port.data, dest, at, words);
    assert dest[at..][..words] == port.data[..words];
    PrefixHolds(dest[at..], port.data, words, port.flash[addr..addr + n]);
  }

  /** Whole words of earlier chunks and the next chunk make one longer slice. */
  lemma JoinChunks(words: seq<Word>, at: nat, done: seq<Byte>, more: seq<Byte>)
    requires |done| == 4 * at && at <= |words|
    requires Holds(words[..at], done) && Holds(words[at..], more)
    ensures Holds(words, done + more)
  {
    forall k | 0 <= k < |done + more|
      ensures ByteAt(words, k) == (done + more)[k]
    {
      if k < |done| {
        assert ByteAt(words, k) == ByteAt(words[..at], k);
      } else {
        assert (k - 4 * at) / 4 == k / 4 - at && (k - 4 * at) % 4 == k % 4;
        assert ByteAt(words, k) == ByteAt(words[at..], k - 4 * at);
      }
    }
  }

  /** A uint32 assigned to a sint32. */
  function Signed(x: nat): int
    requires x < UINT32
  {
    if x < UINT32 / 2 then x else x - UINT32
  }

  lemma JoinSlices(flash: seq<Byte>, a: nat, b: nat, c: nat)
    requires a <= b <= c <= |flash|
    ensures flash[a..b] + flash[b..c] == flash[a..c]
  {
  }

  /** The read loop, for a length that is not negative. */
  method ReadLoop(port: Port, flashAddr: nat, dest: array<Word>, length: nat)
    requires port.Valid() && flashAddr + length <= |port.flash| && (length + 3) / 4 <= dest.Length
    modifies port`data, dest
    ensures port.Valid() && Holds(dest[..], port.flash[flashAddr..flashAddr + length])
    ensures dest[(length + 3) / 4..] == old(dest[(length + 3) / 4..])
  {
    hide Holds;
    var tempAddr := flashAddr;
    var tempLength := length;
    var at := 0;
    ghost var tail := (length + 3) / 4;
    NothingHeld(dest[..], port.flash[flashAddr..flashAddr]);
    while tempLength > 0
      invariant port.Valid() && 0 <= tempLength <= length
      invariant tempLength > 0 ==> 4 * at == length - tempLength
      invariant tempAddr == flashAddr + 4 * at && at <= dest.Length
      invariant Holds(dest[..], port.flash[flashAddr..flashAddr + (length - tempLength)])
      invariant dest[tail..] == old(dest[tail..])
      decreases tempLength
    {
      var n := if tempLength >= SPI_BUFF_BYTE_NUM then SPI_BUFF_BYTE_NUM else tempLength;
      ghost var done := port.flash[flashAddr..tempAddr];
      ghost var was := dest[..];
      ReadChunk(port, tempAddr, dest, at, n);
      JoinAfter(was, dest[..], at, done, port.flash[tempAddr..tempAddr + n]);
      JoinSlices(port.flash, flashAddr, tempAddr, tempAddr + n);
      if tempLength >= SPI_BUFF_BYTE_NUM {
        tempLength := tempLength - SPI_BUFF_BYTE_NUM;
        tempAddr := tempAddr + SPI_BUFF_BYTE_NUM;
        at := at + SPI_BUFF_BYTE_NUM / 4;
      } else {
        tempLength := 0;
      }
    }
  }

  /**
   The read itself. Up to 2^31 - 1 bytes it is refused when it leaves the chip;
   otherwise the first `byteLength` bytes at `dest` are the flash slice, and no
   word beyond the last one needed changes. A longer request is counted as
   negative, so its loop never runs: where its end wraps into the chip the call
   succeeds and writes nothing.
   */
  method Read(port: Port, flashAddr: nat, dest: array<Word>, byteLength: nat) returns (ok: bool)
    requires port.Valid() && flashAddr < UINT32 && byteLength < UINT32
    requires byteLength < 0x8000_0000 ==> flashAddr + byteLength < UINT32 && (byteLength + 3) / 4 <= dest.Length
    modifies port`data, dest
    ensures ok <==> InRange(flashAddr, byteLength, |port.flash|)
    ensures byteLength < 0x8000_0000 ==>
      && (ok <==> flashAddr + byteLength <= |port.flash|)
      && (ok ==> Holds(dest[..], port.flash[flashAddr..flashAddr + byteLength]))
      && (ok ==> dest[(byteLength + 3) / 4..] == old(dest[(byteLength + 3) / 4..]))
    ensures !ok || byteLength >= 0x8000_0000 ==> dest[..] == old(dest[..])
  {
    hide Holds;
    if (flashAddr + byteLength) % UINT32 > |port.flash| {
      return false;
    }
    var tempLength := Signed(byteLength);
    if tempLength >= 0 {
      ReadLoop(port, flashAddr, dest, tempLength);
    }
    ok := true;
  }

  /** Almost 4 GiB from address 16 are reported as read from a 4 MiB chip, and nothing is written. */
  lemma WrappedRangePasses()
    ensures var addr, len, chipSize := 16, 0xFFFF_FFF0, 0x40_0000;
      InRange(addr, len, chipSize) && addr + len > chipSize && Signed(len) < 0
  {
  }

  lemma NothingHeld(words: seq<Word>, none: seq<Byte>)
    requires none == []
    ensures Holds(words, none)
  {
  }

  lemma JoinAfter(was: seq<Word>, words: seq<Word>, at: nat, done: seq<Byte>, more: seq<Byte>)
    requires |done| == 4 * at && at <= |words| == |was| && was[..at] == words[..at]
    requires Holds(was, done) && Holds(words[at..], more)
    ensures Holds(words, done + more)
  {
    PrefixHolds(words[..at], was, at, done);
    JoinChunks(words, at, done, more);
  }
}
