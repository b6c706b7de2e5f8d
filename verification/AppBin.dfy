/**
 The flash image gen_appbin.py writes: headed, padded sections behind an 8-byte
 header, closed by a checksum; and the walk a boot loader makes over it.
 */
module AppBin {
  import opened Bits

  const TEXT_ADDRESS: nat := 0x40100000
  const CHECKSUM_INIT: Byte := 0xEF
  const BIN_MAGIC_FLASH: Byte := 0xE9
  const BIN_MAGIC_IROM: Byte := 0xEA
  const UINT32: nat := 0x1_0000_0000

  type Bytes = seq<Byte>

  // ----- little-endian words

  /** struct.pack('<I', x). */
  function Pack(x: nat): (b: Bytes)
    requires x < UINT32
    ensures |b| == 4
  {
    [x % 0x100, x / 0x100 % 0x100, x / 0x1_0000 % 0x100, x / 0x100_0000]
  }

  function Unpack(b: Bytes): nat
    requires |b| == 4
  {
    var b0: int, b1: int, b2: int, b3: int := b[0], b[1], b[2], b[3];
    b0 + 0x100 * b1 + 0x1_0000 * b2 + 0x100_0000 * b3
  }

  lemma UnpackPack(x: nat)
    requires x < UINT32
    ensures Unpack(Pack(x)) == x
  {
    assert x / 0x100 == x / 0x1_0000 * 0x100 + x / 0x100 % 0x100;
    assert x / 0x1_0000 == x / 0x100_0000 * 0x100 + x / 0x1_0000 % 0x100;
  }

  /** The least significant byte first. */
  lemma PackOrder(x: nat)
    requires x < UINT32
    ensures var p := Pack(x); var b0: int, b1: int, b2: int, b3: int := p[0], p[1], p[2], p[3];
      x == b0 + 256 * b1 + 65536 * b2 + 16777216 * b3
  {
    UnpackPack(x);
  }

  // ----- sections

  datatype Section = Section(addr: nat, data: Bytes)

  function RoundUp(n: nat, align: nat): nat
    requires align > 0
  {
    (n + align - 1) / align * align
  }

  lemma RoundsUp(n: nat, align: nat)
    requires align == 4 || align == 16
    ensures n <= RoundUp(n, align) < n + align && RoundUp(n, align) % align == 0
  {
  }

  lemma Join(a: Bytes, b: Bytes, c: Bytes, d: Bytes)
    ensures ((a + b) + c) + d == a + (b + (c + d))
  {
  }

  function Zeros(n: nat): (z: Bytes)
    ensures |z| == n
  {
    seq(n, _ => 0)
  }

  function Padded(data: Bytes, align: nat): Bytes
    requires align == 4 || align == 16
  {
    data + Zeros(RoundUp(|data|, align) - |data|)
  }

  /** Both header fields fit their 32-bit words; otherwise struct.pack raises. */
  predicate Packable(s: Section, align: nat)
    requires align == 4 || align == 16
  {
    s.data == [] || (s.addr < UINT32 && RoundUp(|s.data|, align) < UINT32)
  }

  /** What combine_bin appends: nothing at all for an empty file. */
  function Block(s: Section, align: nat): Bytes
    requires (align == 4 || align == 16) && Packable(s, align)
  {
    if s.data == [] then []
    else Pack(s.addr) + Pack(RoundUp(|s.data|, align)) + Padded(s.data, align)
  }

  function Blocks(sections: seq<Section>): Bytes
    requires forall i | 0 <= i < |sections| :: Packable(sections[i], 4)
  {
    if sections == [] then [] else Block(sections[0], 4) + Blocks(sections[1..])
  }

  // ----- the boot loader's walk

  datatype Walked = Broken | Found(segments: seq<Section>)

  /** Read `n` segments, each behind its address and length. */
  function Walk(image: Bytes, n: nat): Walked
    decreases n
  {
    if n == 0 then Found([])
    else if |image| < 8 then Broken
    else
      var addr, len := Unpack(image[..4]), Unpack(image[4..8]);
      if |image| < 8 + len then Broken
      else
        match Walk(image[8 + len..], n - 1)
        case Broken => Broken
        case Found(rest) => Found([Section(addr, image[8..8 + len])] + rest)
  }

  /** The segments the sections should load as: the non-empty ones, padded. */
  function Segments(sections: seq<Section>): (r: seq<Section>)
    ensures |r| <= |sections|
    ensures |r| == |sections| <==> forall i | 0 <= i < |sections| :: sections[i].data != []
  {
    if sections == [] then []
    else
      (if sections[0].data == [] then [] else [Section(sections[0].addr, Padded(sections[0].data, 4))])
        + Segments(sections[1..])
  }

  lemma WalkOne(s: Section, rest: Bytes, n: nat)
    requires s.data != [] && Packable(s, 4)
    ensures Walk(Block(s, 4) + rest, n + 1)
      == match Walk(rest, n)
         case Broken => Broken
         case Found(r) => Found([Section(s.addr, Padded(s.data, 4))] + r)
  {
    var image := Block(s, 4) + rest;
    var len := RoundUp(|s.data|, 4);
    UnpackPack(s.addr);
    UnpackPack(len);
    assert image[..4] == Pack(s.addr);
    assert image[4..8] == Pack(len);
    assert image[8..8 + len] == Padded(s.data, 4);
    assert image[8 + len..] == rest;
  }

  lemma {:induction false} WalkBlocks(sections: seq<Section>, rest: Bytes)
    requires forall i | 0 <= i < |sections| :: Packable(sections[i], 4) && sections[i].data != []
    ensures Walk(Blocks(sections) + rest, |sections|) == Found(Segments(sections))
  {
    if sections != [] {
      WalkBlocks(sections[1..], rest);
      WalkOne(sections[0], Blocks(sections[1..]) + rest, |sections| - 1);
      assert Blocks(sections) + rest == Block(sections[0], 4) + (Blocks(sections[1..]) + rest);
    }
  }

  lemma {:induction false} WalkFindsAll(image: Bytes, n: nat)
    ensures Walk(image, n).Found? ==> |Walk(image, n).segments| == n
  {
    if n > 0 && |image| >= 8 {
      var len := Unpack(image[4..8]);
      if |image| >= 8 + len {
        WalkFindsAll(image[8 + len..], n - 1);
      }
    }
  }

  // ----- checksum

  function Checksum(sum: Byte, data: Bytes): Byte
    decreases |data|
  {
    if data == [] then sum else Checksum(XorByte(sum, data[0]), data[1..])
  }

  function XorByte(a: Byte, b: Byte): Byte {
    Pow2Is256();
    XorBound(a, b, 8);
    Xor(a, b)
  }

  lemma {:induction false} ChecksumAppend(sum: Byte, a: Bytes, b: Bytes)
    ensures Checksum(sum, a + b) == Checksum(Checksum(sum, a), b)
    decreases |a|
  {
    if a == [] {
      assert a + b == b;
    } else {
      assert (a + b)[1..] == a[1..] + b;
      ChecksumAppend(XorByte(sum, a[0]), a[1..], b);
    }
  }

  lemma {:induction false} ChecksumZeros(sum: Byte, n: nat)
    ensures Checksum(sum, Zeros(n)) == sum
  {
    if n > 0 {
      XorZero(sum);
      assert Zeros(n)[1..] == Zeros(n - 1);
      ChecksumZeros(sum, n - 1);
    }
  }

  /** How many of the bytes have bit `i` set. */
  function SetBits(data: Bytes, i: nat): nat
    decreases |data|
  {
    if data == [] then 0 else Shr(data[0], i) % 2 + SetBits(data[1..], i)
  }

  /** The same over the bytes of several segments. */
  function SetBitsOf(segments: seq<Section>, i: nat): nat
    decreases |segments|
  {
    if segments == [] then 0 else SetBits(segments[0].data, i) + SetBitsOf(segments[1..], i)
  }

  /** Bit by bit the checksum counts set bits, modulo 2. */
  lemma {:induction false} ChecksumBit(sum: Byte, data: Bytes, i: nat)
    ensures Shr(Checksum(sum, data), i) % 2 == (Shr(sum, i) + SetBits(data, i)) % 2
    decreases |data|
  {
    hide Shr;
    if data != [] {
      XorBit(sum, data[0], i);
      ChecksumBit(XorByte(sum, data[0]), data[1..], i);
      hide Xor;
      AddParities(Shr(sum, i), Shr(data[0], i), Shr(XorByte(sum, data[0]), i), SetBits(data[1..], i));
    }
  }

  lemma AddParities(a: nat, b: nat, ab: nat, c: nat)
    requires ab % 2 == (a % 2 + b % 2) % 2
    ensures (ab + c) % 2 == (a + (b % 2 + c)) % 2
  {
  }

  lemma {:induction false} ChecksumOfBit(sum: Byte, segments: seq<Section>, i: nat)
    ensures Shr(ChecksumOf(sum, segments), i) % 2 == (Shr(sum, i) + SetBitsOf(segments, i)) % 2
    decreases |segments|
  {
    hide Shr, Checksum, SetBits;
    if segments != [] {
      var next := Checksum(sum, segments[0].data);
      ChecksumBit(sum, segments[0].data, i);
      ChecksumOfBit(next, segments[1..], i);
      AddCounts(Shr(sum, i), SetBits(segments[0].data, i), Shr(next, i), SetBitsOf(segments[1..], i));
    }
  }

  lemma AddCounts(a: nat, n: nat, an: nat, c: nat)
    requires an % 2 == (a + n) % 2
    ensures (an + c) % 2 == (a + (n + c)) % 2
  {
  }

  /** The checksum of everything the walk visits. */
  function ChecksumOf(sum: Byte, segments: seq<Section>): Byte
    decreases |segments|
  {
    if segments == [] then sum else ChecksumOf(Checksum(sum, segments[0].data), segments[1..])
  }

  function ChecksumRaw(sum: Byte, sections: seq<Section>): Byte
    decreases |sections|
  {
    if sections == [] then sum else ChecksumRaw(Checksum(sum, sections[0].data), sections[1..])
  }

  /** Padding and empty sections change no checksum. */
  lemma {:induction false} ChecksumPadded(sum: Byte, sections: seq<Section>)
    ensures ChecksumOf(sum, Segments(sections)) == ChecksumRaw(sum, sections)
    decreases |sections|
  {
    if sections != [] {
      var data := sections[0].data;
      ChecksumAppend(sum, data, Zeros(RoundUp(|data|, 4) - |data|));
      ChecksumZeros(Checksum(sum, data), RoundUp(|data|, 4) - |data|);
      ChecksumPadded(Checksum(sum, data), sections[1..]);
      if data != [] {
        assert Segments(sections)[1..] == Segments(sections[1..]);
      } else {
        assert Segments(sections) == Segments(sections[1..]);
      }
    }
  }

  // ----- the whole image

  /** What the script's arguments and the symbol table give it. */
  datatype Build = Build(bootMode: nat, byte2: Byte, byte3: Byte, app: Byte, entry: nat,
                         irom: Bytes, text: Bytes, data: Section, rodata: Section)

  function Sections(b: Build): seq<Section> {
    [Section(TEXT_ADDRESS, b.text), b.data, b.rodata]
  }

  predicate Buildable(b: Build) {
    && b.entry < UINT32
    && (forall i | 0 <= i < 3 :: Packable(Sections(b)[i], 4))
    && (b.bootMode == 2 ==> Packable(Section(0, b.irom), 16))
  }

  /** struct.pack('<BBBBI', ...). */
  function Header(magic: Byte, count: Byte, c: Byte, d: Byte, entry: nat): (h: Bytes)
    requires entry < UINT32
    ensures |h| == 8
  {
    [magic, count, c, d] + Pack(entry)
  }

  /**
   A block: the address, the padded length, the data, zeros; the padded length is
   the least multiple of the alignment that holds the data.
   */
  lemma BlockLayout(s: Section, align: nat)
    requires (align == 4 || align == 16) && Packable(s, align) && s.data != []
    ensures var block := Block(s, align); var n := |s.data|;
      && 8 + n <= |block| < 8 + n + align && (|block| - 8) % align == 0
      && WordAt(block, 0, s.addr) && WordAt(block, 4, |block| - 8)
      && block[8..8 + n] == s.data && forall i | 8 + n <= i < |block| :: block[i] == 0
  {
    RoundsUp(|s.data|, align);
    PackOrder(s.addr);
    PackOrder(RoundUp(|s.data|, align));
    hide Pack, RoundUp;
  }

  /** Everything before the first section; the section count 3 is a constant. */
  function Front(file: Bytes, b: Build): Bytes
    requires Buildable(b)
  {
    (if b.bootMode == 2
     then file + Header(BIN_MAGIC_IROM, 4, 0, b.app, b.entry) + Block(Section(0, b.irom), 16)
     else file)
    + (if b.bootMode == 1
       then Header(BIN_MAGIC_FLASH, 3, 0, b.app, b.entry)
       else Header(BIN_MAGIC_FLASH, 3, b.byte2, b.byte3, b.entry))
  }

  /** Between 1 and 16 zeros, then the checksum byte. */
  function Close(file: Bytes, sum: Byte): Bytes {
    file + Zeros(16 - (|file| + 1) % 16) + [sum]
  }

  function Closed(file: Bytes, b: Build): Bytes
    requires Buildable(b)
  {
    Close(Front(file, b) + Blocks(Sections(b)), ChecksumRaw(CHECKSUM_INIT, Sections(b)))
  }

  function Fill(n: nat): Bytes {
    seq(n, _ => 0xFF)
  }

  /** The file before its CRC trailer. */
  function Image(file: Bytes, b: Build): Bytes
    requires Buildable(b)
  {
    var closed := Closed(file, b);
    if b.bootMode == 1
    then closed + Fill(if |closed| < 0x10000 then 0x10000 - |closed| else 0) + b.irom
    else closed
  }

  /**
   The checksum closes a 16-byte-aligned file, after 1 to 16 zeros, and covers
   exactly the bytes of the segments: bit by bit it is 0xEF plus the number of
   their bytes with that bit set, modulo 2.
   */
  lemma ChecksumCloses(file: Bytes, b: Build)
    requires Buildable(b)
    ensures var closed := Closed(file, b); var used := |Front(file, b)| + |Blocks(Sections(b))|;
      && closed <= Image(file, b)
      && |closed| % 16 == 0 && used + 2 <= |closed| <= used + 17
      && closed[..used] == Front(file, b) + Blocks(Sections(b))
      && (forall k | used <= k < |closed| - 1 :: closed[k] == 0)
      && closed[|closed| - 1] == ChecksumOf(CHECKSUM_INIT, Segments(Sections(b)))
      && forall i | 0 <= i < 8 ::
        Shr(closed[|closed| - 1], i) % 2 == (Shr(0xEF, i) + SetBitsOf(Segments(Sections(b)), i)) % 2
  {
    hide Front, Blocks, ChecksumOf, ChecksumRaw, Segments, Shr, SetBitsOf;
    ChecksumPadded(CHECKSUM_INIT, Sections(b));
    CloseAligns(Front(file, b) + Blocks(Sections(b)), ChecksumRaw(CHECKSUM_INIT, Sections(b)));
    hide Close;
    forall i | 0 <= i < 8
      ensures Shr(ChecksumOf(CHECKSUM_INIT, Segments(Sections(b))), i) % 2
           == (Shr(0xEF, i) + SetBitsOf(Segments(Sections(b)), i)) % 2
    {
      ChecksumOfBit(CHECKSUM_INIT, Segments(Sections(b)), i);
    }
  }

  lemma CloseAligns(file: Bytes, sum: Byte)
    ensures var c := Close(file, sum);
      && |c| % 16 == 0 && |file| + 2 <= |c| <= |file| + 17 && c[..|file|] == file
      && (forall k | |file| <= k < |c| - 1 :: c[k] == 0) && c[|c| - 1] == sum
  {
  }

  /** The 32-bit word at `at`, least significant byte first. */
  predicate WordAt(image: Bytes, at: nat, word: nat)
    requires at + 4 <= |image|
  {
    var b0: int, b1: int, b2: int, b3: int := image[at], image[at + 1], image[at + 2], image[at + 3];
    word == b0 + 256 * b1 + 65536 * b2 + 16777216 * b3
  }

  /** The 8-byte header at `at`: four bytes and the entry point. */
  predicate HeaderAt(image: Bytes, at: nat, magic: Byte, count: Byte, c: Byte, d: Byte, entry: nat)
    requires at + 8 <= |image|
  {
    && image[at] == magic && image[at + 1] == count && image[at + 2] == c && image[at + 3] == d
    && WordAt(image, at + 4, entry)
  }

  lemma HeaderReads(front: Bytes, magic: Byte, count: Byte, c: Byte, d: Byte, entry: nat, rest: Bytes)
    requires entry < UINT32
    ensures HeaderAt(front + Header(magic, count, c, d, entry) + rest, |front|, magic, count, c, d, entry)
  {
    PackOrder(entry);
    hide Pack;
    var h := Header(magic, count, c, d, entry);
    var image := front + h + rest;
    assert forall k | 0 <= k < 8 :: image[|front| + k] == h[k];
  }

  /**
   Where the parts of a fresh image stand in each boot mode. Mode 1 has its irom
   code at 0x10000, or behind a longer front, and the application's number in the
   header; mode 2 has a first header for the irom block, and behind it, as mode 0
   at once, the flash parameters.
   */
  lemma ImageLayout(b: Build)
    requires Buildable(b)
    ensures var image := Image([], b);
      if b.bootMode == 1 then
        var closed := |Closed([], b)|;
        var at := if closed < 0x10000 then 0x10000 else closed;
        && |image| >= 8 && HeaderAt(image, 0, 0xE9, 3, 0, b.app, b.entry)
        && |image| == at + |b.irom| && image[at..] == b.irom && (forall k | closed <= k < at :: image[k] == 0xFF)
      else if b.bootMode == 2 then
        var next := if b.irom == [] then 8 else 16 + (|b.irom| + 15) / 16 * 16;
        && |image| >= next + 8
        && HeaderAt(image, 0, 0xEA, 4, 0, b.app, b.entry)
        && (b.irom != [] ==>
          image[16..16 + |b.irom|] == b.irom && WordAt(image, 8, 0) && WordAt(image, 12, next - 16))
        && HeaderAt(image, next, 0xE9, 3, b.byte2, b.byte3, b.entry)
      else
        |image| >= 8 && HeaderAt(image, 0, 0xE9, 3, b.byte2, b.byte3, b.entry)
  {
    hide Image, Closed, HeaderAt, WordAt;
    if b.bootMode == 1 {
      FirstHeader(b, BIN_MAGIC_FLASH, 3, 0, b.app);
      ImageParts([], b);
    } else if b.bootMode == 2 {
      FirstHeader(b, BIN_MAGIC_IROM, 4, 0, b.app);
      IromLayout(b);
    } else {
      FirstHeader(b, BIN_MAGIC_FLASH, 3, b.byte2, b.byte3);
    }
  }

  lemma FirstHeader(b: Build, magic: Byte, count: Byte, c: Byte, d: Byte)
    requires Buildable(b) && Header(magic, count, c, d, b.entry) <= Front([], b)
    ensures |Image([], b)| >= 8 && HeaderAt(Image([], b), 0, magic, count, c, d, b.entry)
  {
    hide Header, HeaderAt, Front, Image, Closed;
    ImageParts([], b);
    var image := Image([], b);
    var h := Header(magic, count, c, d, b.entry);
    assert h <= image;
    HeaderReads([], magic, count, c, d, b.entry, image[8..]);
    assert image == [] + h + image[8..];
  }

  lemma WordInside(front: Bytes, block: Bytes, rest: Bytes, at: nat, word: nat)
    requires at + 4 <= |block| && WordAt(block, at, word)
    ensures WordAt(front + block + rest, |front| + at, word)
  {
    var image := front + block + rest;
    assert forall k | at <= k < at + 4 :: image[|front| + k] == block[k];
  }

  /** The block of the irom code behind a first part. */
  lemma IromPlaced(front: Bytes, irom: Bytes, rest: Bytes)
    requires irom != [] && Packable(Section(0, irom), 16)
    ensures var image := front + Block(Section(0, irom), 16) + rest; var at := |front|;
      && |Block(Section(0, irom), 16)| == 8 + (|irom| + 15) / 16 * 16
      && at + 8 + |irom| <= |image|
      && image[at + 8..at + 8 + |irom|] == irom
      && WordAt(image, at, 0) && WordAt(image, at + 4, (|irom| + 15) / 16 * 16)
  {
    var block := Block(Section(0, irom), 16);
    BlockLayout(Section(0, irom), 16);
    IromBlock(irom);
    hide Block, WordAt;
    WordInside(front, block, rest, 0, 0);
    WordInside(front, block, rest, 4, |block| - 8);
    var image := front + block + rest;
    assert image[|front| + 8..|front| + 8 + |irom|] == block[8..8 + |irom|];
  }

  lemma IromLayout(b: Build)
    requires Buildable(b) && b.bootMode == 2
    ensures var image := Image([], b);
      var next := if b.irom == [] then 8 else 16 + (|b.irom| + 15) / 16 * 16;
      && |image| >= next + 8
      && (b.irom != [] ==>
        image[16..16 + |b.irom|] == b.irom && WordAt(image, 8, 0) && WordAt(image, 12, next - 16))
      && HeaderAt(image, next, 0xE9, 3, b.byte2, b.byte3, b.entry)
  {
    ImageParts([], b);
    var image := Image([], b);
    var first := Header(BIN_MAGIC_IROM, 4, 0, b.app, b.entry);
    var block := Block(Section(0, b.irom), 16);
    var second := Header(BIN_MAGIC_FLASH, 3, b.byte2, b.byte3, b.entry);
    assert Front([], b) == (first + block) + second;
    IromBlock(b.irom);
    hide Header, Image, Block, HeaderAt, WordAt, Buildable, Front;
    var rest := image[|first + block| + 8..];
    assert image == (first + block) + second + rest;
    HeaderReads(first + block, BIN_MAGIC_FLASH, 3, b.byte2, b.byte3, b.entry, rest);
    if b.irom != [] {
      IromPlaced(first, b.irom, second + rest);
      assert image == first + block + (second + rest);
    }
  }

  lemma ImageParts(file: Bytes, b: Build)
    requires Buildable(b)
    ensures Front(file, b) <= Image(file, b)
    ensures b.bootMode == 1 ==>
      var closed, image := |Closed(file, b)|, Image(file, b);
      var at := if closed < 0x10000 then 0x10000 else closed;
      |image| == at + |b.irom| && image[at..] == b.irom && forall k | closed <= k < at :: image[k] == 0xFF
  {
    hide Front, Blocks, ChecksumRaw;
    ChecksumCloses(file, b);
    hide Closed;
    var closed := Closed(file, b);
    var used := |Front(file, b)| + |Blocks(Sections(b))|;
    assert closed[..|Front(file, b)|] == closed[..used][..|Front(file, b)|];
  }

  lemma IromBlock(irom: Bytes)
    requires Packable(Section(0, irom), 16)
    ensures var block := Block(Section(0, irom), 16);
      if irom == [] then block == []
      else |block| == 8 + (|irom| + 15) / 16 * 16 && |irom| + 8 <= |block| && block[8..8 + |irom|] == irom
  {
    RoundsUp(|irom|, 16);
  }

  /**
   A loader that trusts the header's count of three finds exactly the padded
   sections if and only if none of the three is empty.
   */
  lemma LoaderFindsSections(file: Bytes, b: Build)
    requires Buildable(b)
    ensures Front(file, b) <= Image(file, b)
    ensures Walk(Image(file, b)[|Front(file, b)|..], 3) == Found(Segments(Sections(b)))
       <==> b.text != [] && b.data.data != [] && b.rodata.data != []
  {
    var front, blocks := Front(file, b), Blocks(Sections(b));
    var image, closed := Image(file, b), Closed(file, b);
    assert closed[..|front| + |blocks|] == front + blocks;
    assert image[..|closed|] == closed;
    var rest := image[|front| + |blocks|..];
    assert image == front + blocks + rest;
    assert image[|front|..] == blocks + rest;
    var sections := Sections(b);
    if b.text != [] && b.data.data != [] && b.rodata.data != [] {
      WalkBlocks(sections, rest);
    } else {
      WalkFindsAll(blocks + rest, 3);
      assert sections[0].data == [] || sections[1].data == [] || sections[2].data == [];
      assert |Segments(sections)| < 3;
    }
  }

  /** With no section empty the loader finds text, data and rodata, in this order and each at its address. */
  lemma LoaderFindsAll(file: Bytes, b: Build)
    requires Buildable(b) && b.text != [] && b.data.data != [] && b.rodata.data != []
    ensures Front(file, b) <= Image(file, b)
    ensures Walk(Image(file, b)[|Front(file, b)|..], 3) == Found([
      Section(0x4010_0000, Padded(b.text, 4)),
      Section(b.data.addr, Padded(b.data.data, 4)),
      Section(b.rodata.addr, Padded(b.rodata.data, 4))])
  {
    hide Front, Image, Walk, Padded;
    LoaderFindsSections(file, b);
    var three := Sections(b);
    assert three[1..] == [b.data, b.rodata] && three[1..][1..] == [b.rodata] && [b.rodata][1..] == [];
    assert Segments([b.rodata]) == [Section(b.rodata.addr, Padded(b.rodata.data, 4))];
  }

  lemma UnpackZeros(word: Bytes)
    requires word == Zeros(4)
    ensures Unpack(word) == 0
  {
  }

  lemma PaddingWords(rest: Bytes)
    requires |rest| >= 8 && rest[..8] == Zeros(8)
    ensures Unpack(rest[..4]) == 0 && Unpack(rest[4..8]) == 0
  {
    hide Unpack;
    assert rest[..4] == Zeros(8)[..4] == Zeros(4);
    assert rest[4..8] == Zeros(8)[4..] == Zeros(4);
    UnpackZeros(rest[..4]);
    UnpackZeros(rest[4..8]);
  }

  lemma PaddingHeader(rest: Bytes)
    requires |rest| >= 8 && rest[..8] == Zeros(8)
    ensures Walk(rest, 1) == Found([Section(0, [])])
  {
    PaddingWords(rest);
    hide Unpack, Zeros;
    assert rest[8..8] == [] && Walk(rest[8..], 0) == Found([]);
  }

  /** With an empty data section the third segment the loader finds is made of the padding. */
  lemma EmptyDataMisread(b: Build)
    requires b.bootMode == 0 && |b.text| == 4 && b.data.data == [] && |b.rodata.data| == 4
    requires b.entry < UINT32 && b.rodata.addr < UINT32
    ensures Buildable(b)
    ensures Walk(Image([], b)[8..], 3) == Found(Segments(Sections(b)) + [Section(0, [])])
  {
    hide Walk, Block, Image, Padded;
    var text := Section(TEXT_ADDRESS, b.text);
    BlockOfFour(text);
    BlockOfFour(b.rodata);
    var rest := TwoBlocks(b);
    SegmentsAround(text, b.data, b.rodata);
    hide Segments;
    WalkTwo(text, b.rodata, rest);
  }

  lemma SegmentsAround(a: Section, empty: Section, c: Section)
    requires a.data != [] && empty.data == [] && c.data != []
    ensures Segments([a, empty, c]) == [Section(a.addr, Padded(a.data, 4)), Section(c.addr, Padded(c.data, 4))]
  {
    hide Padded;
    assert [a, empty, c][1..] == [empty, c] && [empty, c][1..] == [c] && [c][1..] == [];
    assert Segments([c]) == [Section(c.addr, Padded(c.data, 4))] + Segments([]);
    assert Segments([empty, c]) == [] + Segments([c]);
  }

  lemma TwoBlocks(b: Build) returns (rest: Bytes)
    requires b.bootMode == 0 && |b.text| == 4 && b.data.data == [] && |b.rodata.data| == 4
    requires b.entry < UINT32 && b.rodata.addr < UINT32
    ensures Buildable(b) && |rest| == 16 && rest[..8] == Zeros(8)
    ensures Image([], b)[8..] == Block(Section(TEXT_ADDRESS, b.text), 4) + (Block(b.rodata, 4) + rest)
  {
    hide Walk, ChecksumRaw;
    var text, sum := Section(TEXT_ADDRESS, b.text), ChecksumRaw(CHECKSUM_INIT, Sections(b));
    rest := Zeros(15) + [sum];
    BlocksAround(text, b.data, b.rodata);
    BlockOfFour(text);
    BlockOfFour(b.rodata);
    hide Blocks, Block;
    CloseTwo(Front([], b), Block(text, 4), Block(b.rodata, 4), sum);
  }

  lemma WalkTwo(a: Section, b: Section, rest: Bytes)
    requires a.data != [] && Packable(a, 4) && b.data != [] && Packable(b, 4)
    requires |rest| >= 8 && rest[..8] == Zeros(8)
    ensures Walk(Block(a, 4) + (Block(b, 4) + rest), 3)
      == Found([Section(a.addr, Padded(a.data, 4)), Section(b.addr, Padded(b.data, 4)), Section(0, [])])
  {
    hide Walk, Block, Padded;
    WalkOne(a, Block(b, 4) + rest, 2);
    WalkOne(b, rest, 1);
    PaddingHeader(rest);
  }

  lemma BlockOfFour(s: Section)
    requires |s.data| == 4 && s.addr < UINT32
    ensures Packable(s, 4) && |Block(s, 4)| == 12
  {
  }

  lemma CloseTwo(front: Bytes, x: Bytes, y: Bytes, sum: Byte)
    requires |front| == 8 && |x| == |y| == 12
    ensures Close(front + (x + y), sum)[8..] == x + (y + (Zeros(15) + [sum]))
  {
  }

  lemma BlocksAround(a: Section, empty: Section, c: Section)
    requires empty.data == [] && Packable(a, 4) && Packable(c, 4)
    ensures Blocks([a, empty, c]) == Block(a, 4) + Block(c, 4)
  {
    assert [a, empty, c][1..] == [empty, c] && [empty, c][1..] == [c] && [c][1..] == [];
    assert Blocks([c]) == Block(c, 4) + Blocks([]);
    assert Blocks([empty, c]) == Block(empty, 4) + Blocks([c]);
  }

  // ----- the script

  class Builder {
    var file: Bytes
    var chkSum: Byte
    var blocks: nat

    constructor (file: Bytes)
      ensures this.file == file && chkSum == CHECKSUM_INIT && blocks == 0
    {
      this.file, chkSum, blocks := file, CHECKSUM_INIT, 0;
    }

    /** write_file: the file is opened for appending. */
    method WriteFile(data: Bytes)
      modifies this`file
      ensures file == old(file) + data
    {
      file := file + data;
    }

    /** The checksum loop of combine_bin. */
    method AddToChecksum(data: Bytes)
      modifies this`chkSum
      ensures chkSum == Checksum(old(chkSum), data)
    {
      var loop := 0;
      while loop < |data|
        invariant 0 <= loop <= |data|
        invariant Checksum(chkSum, data[loop..]) == Checksum(old(chkSum), data)
      {
        assert data[loop..][1..] == data[loop + 1..];
        chkSum := XorByte(chkSum, data[loop]);
        loop := loop + 1;
      }
      assert data[loop..] == [];
    }

    /** The padding of combine_bin, which goes through the checksum too. */
    method WritePadding(n: nat, needChk: bool)
      modifies this`file, this`chkSum
      ensures file == old(file) + Zeros(n) && chkSum == old(chkSum)
    {
      hide Checksum;
      if n != 0 {
        WriteFile(Zeros(n));
        if needChk {
          ChecksumZeros(chkSum, n);
          AddToChecksum(Zeros(n));
        }
      }
    }

    /** combine_bin; false where struct.pack would raise. */
    method CombineBin(s: Section, needChk: bool) returns (ok: bool)
      modifies this
      ensures ok <==> Packable(s, if needChk then 4 else 16)
      ensures ok ==> file == old(file) + Block(s, if needChk then 4 else 16)
      ensures ok ==> chkSum == if needChk then Checksum(old(chkSum), s.data) else old(chkSum)
      ensures ok ==> blocks == old(blocks) + (if s.data == [] then 0 else 1)
      ensures !ok ==> file == old(file) && chkSum == old(chkSum) && blocks == old(blocks)
    {
      if |s.data| == 0 {
        return true;
      }
      var align := if needChk then 4 else 16;
      RoundsUp(|s.data|, align);
      hide RoundUp, Checksum, Pack, Zeros;
      var tmpLen := RoundUp(|s.data|, align);
      if s.addr >= UINT32 || tmpLen >= UINT32 {
        return false;
      }
      WriteFile(Pack(s.addr) + Pack(tmpLen));
      WriteFile(s.data);
      if needChk {
        AddToChecksum(s.data);
      }
      WritePadding(tmpLen - |s.data|, needChk);
      blocks := blocks + 1;
      ok := true;
      Join(old(file), Pack(s.addr) + Pack(tmpLen), s.data, Zeros(tmpLen - |s.data|));
    }

    /** The layout part of gen_appbin; false where struct.pack would raise. */
    method GenAppbin(b: Build) returns (ok: bool)
      requires chkSum == CHECKSUM_INIT
      modifies this
      ensures ok <==> Buildable(b)
      ensures ok ==> file == Image(old(file), b)
    {
      hide Block, Blocks, Checksum, Packable;
      if b.entry >= UINT32 {
        return false;
      }
      if b.bootMode == 2 {
        WriteFile(Header(BIN_MAGIC_IROM, 4, 0, b.app, b.entry));
        ok := CombineBin(Section(0, b.irom), false);
        if !ok { return; }
      }
      if b.bootMode == 1 {
        WriteFile(Header(BIN_MAGIC_FLASH, 3, 0, b.app, b.entry));
      } else {
        WriteFile(Header(BIN_MAGIC_FLASH, 3, b.byte2, b.byte3, b.entry));
      }
      ok := CombineAll(b);
      if !ok { return; }
      WriteFile(Zeros(16 - (|file| + 1) % 16));
      WriteFile([chkSum]);
      if b.bootMode == 1 {
        WriteFile(Fill(if |file| < 0x10000 then 0x10000 - |file| else 0));
        WriteFile(b.irom);
      }
    }

    method CombineAll(b: Build) returns (ok: bool)
      requires chkSum == CHECKSUM_INIT
      modifies this
      ensures ok <==> forall i | 0 <= i < 3 :: Packable(Sections(b)[i], 4)
      ensures ok ==> file == old(file) + Blocks(Sections(b))
      ensures ok ==> chkSum == ChecksumRaw(CHECKSUM_INIT, Sections(b))
    {
      hide Packable, Block, Checksum;
      ghost var s := Sections(b);
      ok := CombineBin(Section(TEXT_ADDRESS, b.text), true);
      if !ok { assert !Packable(s[0], 4); return; }
      ok := CombineBin(b.data, true);
      if !ok { assert !Packable(s[1], 4); return; }
      ok := CombineBin(b.rodata, true);
      if !ok { assert !Packable(s[2], 4); return; }
      BlocksOfThree(b);
    }
  }

  lemma BlocksOfThree(b: Build)
    requires forall i | 0 <= i < 3 :: Packable(Sections(b)[i], 4)
    ensures Packable(Section(TEXT_ADDRESS, b.text), 4) && Packable(b.data, 4) && Packable(b.rodata, 4)
    ensures Blocks(Sections(b)) == Block(Section(TEXT_ADDRESS, b.text), 4) + Block(b.data, 4) + Block(b.rodata, 4)
    ensures ChecksumRaw(CHECKSUM_INIT, Sections(b))
      == Checksum(Checksum(Checksum(CHECKSUM_INIT, b.text), b.data.data), b.rodata.data)
  {
    hide Block, Checksum;
    var x, y, z := Section(TEXT_ADDRESS, b.text), b.data, b.rodata;
    assert Sections(b) == [x, y, z];
    assert Sections(b)[0] == x && Sections(b)[1] == y && Sections(b)[2] == z;
    assert [x, y, z][1..] == [y, z] && [y, z][1..] == [z] && [z][1..] == [];
    assert Blocks([z]) == Block(z, 4) + Blocks([]);
    assert Blocks([y, z]) == Block(y, 4) + Blocks([z]);
    assert Blocks([x, y, z]) == Block(x, 4) + Blocks([y, z]);
    var after := Checksum(Checksum(CHECKSUM_INIT, x.data), y.data);
    assert ChecksumRaw(after, [z]) == ChecksumRaw(Checksum(after, z.data), []);
    assert ChecksumRaw(CHECKSUM_INIT, [x, y, z]) == ChecksumRaw(Checksum(CHECKSUM_INIT, x.data), [y, z]);
  }
}
