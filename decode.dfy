/** The FLAC frame header as this decoder reads it. The layout follows
    section 9.1 of RFC 9639 except that no coded frame or sample number is
    read, sample-rate code 12 escapes a rate in Hz rather than kHz, and
    sample-size code 7 is rejected rather than meaning 32 bits.

    The module holds the header's fields, the code tables that map its packed
    nibbles to values, the header as a function of the bytes it is read from,
    and the reader that parses it through a checksumming reader. */
module Decode {
  import opened Errors
  import opened Input
  import opened Checksum

  datatype BlockingStrategy = Fixed | Variable

  datatype ChannelMode =
    | Raw              // independent channels, no inter-channel decorrelation
    | LeftSideStereo   // a left channel and a difference channel, in that order
    | RightSideStereo  // a difference channel and a right channel, in that order
    | MidSideStereo    // an average channel and a difference channel, in that order

  /** A parsed frame header. `None` means "take it from STREAMINFO". The frame
      or sample number that follows in the stream is not decoded. */
  datatype FrameHeader = FrameHeader(
    blockingStrategy: BlockingStrategy,
    blockSize: nat,
    sampleRate: Option<nat>,
    nChannels: nat,
    channelMode: ChannelMode,
    bitsPerSample: Option<nat>)

  /** The block size as the header's first pass leaves it: known, or to be
      read from an 8-bit or 16-bit escape later in the header. */
  datatype BlockSizeField = BlockSizeIs(size: nat) | BlockSizeEscape8 | BlockSizeEscape16

  /** The sample rate as the first pass leaves it: known (or inherited), or to
      be read from an escape later in the header, in Hz or in tens of Hz. */
  datatype SampleRateField =
    | SampleRateIs(rate: Option<nat>)
    | SampleRateEscape8
    | SampleRateEscape16
    | SampleRateEscape16Tens

  /** What the four fixed bytes of a header say. */
  datatype Fields = Fields(
    blockingStrategy: BlockingStrategy,
    blockSize: BlockSizeField,
    sampleRate: SampleRateField,
    nChannels: nat,
    channelMode: ChannelMode,
    bitsPerSample: Option<nat>)

  /** A header together with how many bytes it occupies. */
  datatype Parsed = Parsed(header: FrameHeader, length: nat)

  function Pow2(n: nat): nat {
    if n == 0 then 1 else 2 * Pow2(n - 1)
  }

  /** `w & 0xFFFC` for a 16-bit `w`: the word with its two low bits cleared,
      leaving the 14-bit sync code in place. */
  function SyncCodeBits(w: nat): (c: nat)
    ensures c <= w && c % 4 == 0 && w - c < 4
  {
    w - w % 4
  }

  /** `w & 0x0002 != 0`: the reserved bit after the sync code. */
  predicate ReservedBitSet(w: nat) {
    (w / 2) % 2 == 1
  }

  /** `w & 0x0001 != 0`: the blocking-strategy bit. */
  predicate VariableBitSet(w: nat) {
    w % 2 == 1
  }

  /** `b >> 4`. */
  function HighNibble(b: Byte): (n: nat)
    ensures n < 16
  {
    b / 16
  }

  /** `b & 0x0F`. */
  function LowNibble(b: Byte): (n: nat)
    ensures n < 16
  {
    b % 16
  }

  /** `(b & 0x0E) >> 1`, bits 3..1 of the channel byte: the sample-size code. */
  function BitsPerSampleBits(b: Byte): (n: nat)
    ensures n < 8
  {
    b % 16 / 2
  }

  // ---------------------------------------------------------------------
  // Code tables
  // ---------------------------------------------------------------------

  /** The top nibble of the second header byte. */
  function DecodeBlockSizeCode(n: nat): (r: Result<BlockSizeField>)
    requires n < 16
    ensures r.Err? <==> n == 0
    ensures r.Err? ==> r.error == InvalidFrameHeader
    ensures r == Ok(BlockSizeEscape8) <==> n == 6
    ensures r == Ok(BlockSizeEscape16) <==> n == 7
  {
    if n == 0 then Err(InvalidFrameHeader)
    else if n == 1 then Ok(BlockSizeIs(192))
    else if n <= 5 then Ok(BlockSizeIs(576 * Pow2(n - 2)))
    else if n == 6 then Ok(BlockSizeEscape8)
    else if n == 7 then Ok(BlockSizeEscape16)
    else Ok(BlockSizeIs(256 * Pow2(n - 8)))
  }

  /** The bottom nibble of the second header byte. */
  function DecodeSampleRateCode(n: nat): (r: Result<SampleRateField>)
    requires n < 16
    ensures r.Err? <==> n == 15
    ensures r.Err? ==> r.error == InvalidFrameHeader
    ensures r == Ok(SampleRateIs(None)) <==> n == 0
    ensures (r.Ok? && r.value.SampleRateIs? && r.value.rate.Some?) <==> 1 <= n <= 11
    ensures r == Ok(SampleRateEscape8) <==> n == 12
    ensures r == Ok(SampleRateEscape16) <==> n == 13
    ensures r == Ok(SampleRateEscape16Tens) <==> n == 14
  {
    match n
    case 0 => Ok(SampleRateIs(None))
    case 1 => Ok(SampleRateIs(Some(88200)))
    case 2 => Ok(SampleRateIs(Some(176400)))
    case 3 => Ok(SampleRateIs(Some(192000)))
    case 4 => Ok(SampleRateIs(Some(8000)))
    case 5 => Ok(SampleRateIs(Some(16000)))
    case 6 => Ok(SampleRateIs(Some(22050)))
    case 7 => Ok(SampleRateIs(Some(24000)))
    case 8 => Ok(SampleRateIs(Some(32000)))
    case 9 => Ok(SampleRateIs(Some(44100)))
    case 10 => Ok(SampleRateIs(Some(48000)))
    case 11 => Ok(SampleRateIs(Some(96000)))
    case 12 => Ok(SampleRateEscape8)
    case 13 => Ok(SampleRateEscape16)
    case 14 => Ok(SampleRateEscape16Tens)
    case _ => Err(InvalidFrameHeader)
  }

  /** The top nibble of the third header byte: channel count and mode. */
  function DecodeChannelCode(n: nat): (r: Result<(nat, ChannelMode)>)
    requires n < 16
    ensures r.Ok? <==> n <= 10
    ensures r.Err? ==> r.error == InvalidFrameHeader
    ensures r.Ok? ==> 1 <= r.value.0 <= 8
    ensures r.Ok? ==> (r.value.1 == Raw <==> n < 8)
    ensures r.Ok? && r.value.1 != Raw ==> r.value.0 == 2
  {
    if n < 8 then Ok((n + 1, Raw))
    else if n == 8 then Ok((2, LeftSideStereo))
    else if n == 9 then Ok((2, RightSideStereo))
    else if n == 10 then Ok((2, MidSideStereo))
    else Err(InvalidFrameHeader)
  }

  predicate IsSampleSize(b: nat) {
    b == 8 || b == 12 || b == 16 || b == 20 || b == 24
  }

  /** Bits 3..1 of the third header byte: bits per sample. */
  function DecodeBitsPerSampleCode(n: nat): (r: Result<Option<nat>>)
    requires n < 8
    ensures r.Err? <==> n == 3 || n == 7
    ensures r.Err? ==> r.error == InvalidFrameHeader
    ensures r == Ok(None) <==> n == 0
    ensures r.Ok? && r.value.Some? ==> IsSampleSize(r.value.value)
  {
    match n
    case 0 => Ok(None)
    case 1 => Ok(Some(8))
    case 2 => Ok(Some(12))
    case 4 => Ok(Some(16))
    case 5 => Ok(Some(20))
    case 6 => Ok(Some(24))
    case _ => Err(InvalidFrameHeader)
  }

  // ---------------------------------------------------------------------
  // Escapes
  // ---------------------------------------------------------------------

  function BlockSizeEscapeLength(f: BlockSizeField): (n: nat)
    ensures n <= 2
  {
    match f
    case BlockSizeIs(_) => 0
    case BlockSizeEscape8 => 1
    case BlockSizeEscape16 => 2
  }

  function SampleRateEscapeLength(f: SampleRateField): (n: nat)
    ensures n <= 2
  {
    match f
    case SampleRateIs(_) => 0
    case SampleRateEscape8 => 1
    case _ => 2
  }

  /** The block size once its escape bytes (if any) are known. The stored
      value is the size minus one; a 16-bit 0xFFFF would exceed the largest
      block size STREAMINFO can state and is rejected. */
  function ResolveBlockSize(f: BlockSizeField, esc: seq<Byte>): (r: Result<nat>)
    requires |esc| == BlockSizeEscapeLength(f)
    ensures f.BlockSizeIs? ==> r == Ok(f.size)
    ensures r.Err? <==> f.BlockSizeEscape16? && esc == [0xFF, 0xFF]
    ensures r.Err? ==> r.error == InvalidBlockSize
    ensures f.BlockSizeEscape8? ==> r.Ok? && 1 <= r.value <= 256
    ensures f.BlockSizeEscape16? && r.Ok? ==> 1 <= r.value <= 65535
  {
    match f
    case BlockSizeIs(n) => Ok(n)
    case BlockSizeEscape8 => Ok(esc[0] as nat + 1)
    case BlockSizeEscape16 =>
      var v := Be16(esc[0], esc[1]);
      if v == 0xFFFF then Err(InvalidBlockSize) else Ok(v + 1)
  }

  /** The sample rate once its escape bytes (if any) are known. */
  function ResolveSampleRate(f: SampleRateField, esc: seq<Byte>): (r: Option<nat>)
    requires |esc| == SampleRateEscapeLength(f)
    ensures f.SampleRateIs? ==> r == f.rate
    ensures f.SampleRateEscape8? ==> r.Some? && r.value < 0x100
    ensures f.SampleRateEscape16? ==> r.Some? && r.value < 0x1_0000
    ensures f.SampleRateEscape16Tens? ==> r.Some? && r.value % 10 == 0 && r.value / 10 < 0x1_0000
  {
    match f
    case SampleRateIs(rate) => rate
    case SampleRateEscape8 => Some(esc[0])
    case SampleRateEscape16 => Some(Be16(esc[0], esc[1]))
    case SampleRateEscape16Tens => Some(Be16(esc[0], esc[1]) * 10)
  }

  // ---------------------------------------------------------------------
  // The header as a function of its bytes
  // ---------------------------------------------------------------------

  /** The first four bytes of a header: sync code, reserved bit and blocking
      strategy (bytes 0-1), then the codes of bytes 2 and 3. */
  function ParseFixedPart(s: seq<Byte>, fault: IoFault): (r: Result<Fields>)
    ensures r.Ok? ==> |s| >= 4
    ensures r.Ok? ==> SyncCodeBits(Be16(s[0], s[1])) == 0xFFF8 && !ReservedBitSet(Be16(s[0], s[1]))
    ensures r.Ok? ==> r.value.blockingStrategy == (if VariableBitSet(Be16(s[0], s[1])) then Variable else Fixed)
    ensures r.Ok? ==> r == ParseCodes(s, fault, r.value.blockingStrategy)
  {
    if |s| < 2 then Err(IoError(fault))
    else
      var w := Be16(s[0], s[1]);
      if SyncCodeBits(w) != 0xFFF8 then Err(MissingFrameSyncCode)
      else if ReservedBitSet(w) then Err(InvalidFrameHeader)
      else if |s| < 3 then Err(IoError(fault))
      else ParseCodes(s, fault, if VariableBitSet(w) then Variable else Fixed)
  }

  /** Byte 2 (block-size and sample-rate codes), then byte 3. */
  function ParseCodes(s: seq<Byte>, fault: IoFault, strategy: BlockingStrategy): (r: Result<Fields>)
    requires |s| >= 3
    ensures r.Ok? ==> |s| >= 4 && r.value.blockingStrategy == strategy
    ensures r.Ok? ==> DecodeBlockSizeCode(HighNibble(s[2])) == Ok(r.value.blockSize)
    ensures r.Ok? ==> DecodeSampleRateCode(LowNibble(s[2])) == Ok(r.value.sampleRate)
    ensures r.Ok? ==> r == ParseChannelByte(s[3], strategy, r.value.blockSize, r.value.sampleRate)
  {
    var bs :- DecodeBlockSizeCode(HighNibble(s[2]));
    var sr :- DecodeSampleRateCode(LowNibble(s[2]));
    if |s| < 4 then Err(IoError(fault))
    else ParseChannelByte(s[3], strategy, bs, sr)
  }

  /** Byte 3: channel assignment, sample-size code and a reserved bit. */
  function ParseChannelByte(b: Byte, strategy: BlockingStrategy, bs: BlockSizeField,
                            sr: SampleRateField): (r: Result<Fields>)
    ensures r.Ok? ==> r.value.blockingStrategy == strategy
                      && r.value.blockSize == bs && r.value.sampleRate == sr
    ensures r.Ok? ==> DecodeChannelCode(HighNibble(b)) == Ok((r.value.nChannels, r.value.channelMode))
    ensures r.Ok? ==> DecodeBitsPerSampleCode(BitsPerSampleBits(b)) == Ok(r.value.bitsPerSample)
    ensures r.Ok? ==> b % 2 == 0
    ensures r.Err? ==> r.error == InvalidFrameHeader
  {
    var ch :- DecodeChannelCode(HighNibble(b));
    var bps :- DecodeBitsPerSampleCode(BitsPerSampleBits(b));
    if b % 2 != 0 then Err(InvalidFrameHeader)
    else Ok(Fields(strategy, bs, sr, ch.0, ch.1, bps))
  }

  /** A whole header read from the front of `s`: the fixed part, then the
      escapes and the checksum. `fault` is what a read past the end of `s`
      reports. */
  function ParseFrameHeader(s: seq<Byte>, fault: IoFault): (r: Result<Parsed>)
    ensures r.Ok? ==> 5 <= r.value.length <= |s| && r.value.length <= 9
  {
    var f :- ParseFixedPart(s, fault);
    ParseEscapes(s, fault, f)
  }

  /** After the fixed part `f` of `s`: the block-size escape, then the
      sample-rate escape, then the checksum. */
  function ParseEscapes(s: seq<Byte>, fault: IoFault, f: Fields): (r: Result<Parsed>)
    requires |s| >= 4
    ensures r.Ok? ==>
              var bl := BlockSizeEscapeLength(f.blockSize);
              var sl := SampleRateEscapeLength(f.sampleRate);
              var n := 4 + bl + sl;
              var h := r.value.header;
              r.value.length == n + 1 <= |s|
              && ResolveBlockSize(f.blockSize, s[4..4 + bl]) == Ok(h.blockSize)
              && ResolveSampleRate(f.sampleRate, s[4 + bl..n]) == h.sampleRate
              && h == FrameHeader(f.blockingStrategy, h.blockSize, h.sampleRate,
                                  f.nChannels, f.channelMode, f.bitsPerSample)
              && s[n] == Crc8(s[..n])
  {
    var bl := BlockSizeEscapeLength(f.blockSize);
    var sl := SampleRateEscapeLength(f.sampleRate);
    if |s| < 4 + bl then Err(IoError(fault))
    else
      var blockSize :- ResolveBlockSize(f.blockSize, s[4..4 + bl]);
      if |s| < 4 + bl + sl then Err(IoError(fault))
      else
        var sampleRate := ResolveSampleRate(f.sampleRate, s[4 + bl..4 + bl + sl]);
        var h := FrameHeader(f.blockingStrategy, blockSize, sampleRate,
                             f.nChannels, f.channelMode, f.bitsPerSample);
        CheckCrc(s, fault, h, 4 + bl + sl)
  }

  /** The last step: the byte after the first `n` bytes of `s` must be their
      CRC-8. */
  function CheckCrc(s: seq<Byte>, fault: IoFault, h: FrameHeader, n: nat): (r: Result<Parsed>)
    requires n <= |s|
  {
    if |s| < n + 1 then Err(IoError(fault))
    else if s[n] != Crc8(s[..n]) then Err(FrameHeaderCrcMismatch)
    else Ok(Parsed(h, n + 1))
  }

  // ---------------------------------------------------------------------
  // The reader
  // ---------------------------------------------------------------------

  /** The first pass over a header: reads its four fixed bytes through
      `crcInput` and decodes them, leaving the escapes pending. */
  method ReadFixedPart(crcInput: Crc8Reader) returns (r: Result<Fields>)
    requires crcInput.Valid() && crcInput.start == crcInput.inner.pos
    modifies crcInput, crcInput.inner
    ensures crcInput.Valid() && old(crcInput.inner.pos) <= crcInput.inner.pos
    ensures r == ParseFixedPart(old(crcInput.inner.Remaining()), crcInput.inner.fault)
    ensures r.Ok? ==> crcInput.inner.pos == old(crcInput.inner.pos) + 4
  {
    ghost var input := crcInput.inner;
    ghost var s := input.Remaining();
    ghost var p0 := input.pos;

    // Bytes 0-1: the sync pattern, then one bit that must be clear, then the
    // blocking-strategy bit.
    var syncResBlock :- crcInput.ReadBeU16();
    assert s[0] == input.data[p0] && s[1] == input.data[p0 + 1];
    // The top 14 bits of the word are the sync pattern 0x3FFE.
    if SyncCodeBits(syncResBlock) != 0xFFF8 {
      return Err(MissingFrameSyncCode);
    }
    // A set reserved bit could mean a future revision of the format.
    if ReservedBitSet(syncResBlock) {
      return Err(InvalidFrameHeader);
    }
    var blockingStrategy := if VariableBitSet(syncResBlock) then Variable else Fixed;

    // Block-size and sample-rate codes.
    var bsSr :- crcInput.ReadByte();
    assert bsSr == s[2];
    var blockSize :- DecodeBlockSizeCode(HighNibble(bsSr));
    var sampleRate :- DecodeSampleRateCode(LowNibble(bsSr));

    // Channel assignment, sample size and a reserved bit.
    var chanBpsRes :- crcInput.ReadByte();
    assert chanBpsRes == s[3];
    var channels :- DecodeChannelCode(HighNibble(chanBpsRes));
    var bitsPerSample :- DecodeBitsPerSampleCode(BitsPerSampleBits(chanBpsRes));
    if chanBpsRes % 2 != 0 {
      return Err(InvalidFrameHeader);
    }
    r := Ok(Fields(blockingStrategy, blockSize, sampleRate,
                   channels.0, channels.1, bitsPerSample));
  }

  /** The second pass, first half: reads the block-size escape the fixed
      part asked for, if any. */
  method ReadBlockSize(crcInput: Crc8Reader, field: BlockSizeField) returns (r: Result<nat>)
    requires crcInput.Valid()
    modifies crcInput, crcInput.inner
    ensures crcInput.Valid() && old(crcInput.inner.pos) <= crcInput.inner.pos
    ensures var rest, n := old(crcInput.inner.Remaining()), BlockSizeEscapeLength(field);
            if |rest| < n then r == Err(IoError(crcInput.inner.fault))
            else r == ResolveBlockSize(field, rest[..n])
                 && crcInput.inner.pos == old(crcInput.inner.pos) + n
  {
    ghost var rest := crcInput.inner.Remaining();
    match field {
      case BlockSizeIs(n) =>
        r := Ok(n);
      case BlockSizeEscape8 =>
        // 8-bit block size minus one.
        var bs :- crcInput.ReadByte();
        assert [bs] == rest[..1];
        r := Ok(bs as nat + 1);
      case BlockSizeEscape16 =>
        // 16-bit block size minus one.
        var bs :- crcInput.ReadBeU16();
        assert [rest[0], rest[1]] == rest[..2];
        if bs == 0xFFFF {
          return Err(InvalidBlockSize);
        }
        r := Ok(bs + 1);
    }
  }

  /** The second pass, second half: reads the sample-rate escape the fixed
      part asked for, if any. */
  method ReadSampleRate(crcInput: Crc8Reader, field: SampleRateField)
    returns (r: Result<Option<nat>>)
    requires crcInput.Valid()
    modifies crcInput, crcInput.inner
    ensures crcInput.Valid() && old(crcInput.inner.pos) <= crcInput.inner.pos
    ensures var rest, n := old(crcInput.inner.Remaining()), SampleRateEscapeLength(field);
            if |rest| < n then r == Err(IoError(crcInput.inner.fault))
            else r == Ok(ResolveSampleRate(field, rest[..n]))
                 && crcInput.inner.pos == old(crcInput.inner.pos) + n
  {
    ghost var rest := crcInput.inner.Remaining();
    match field {
      case SampleRateIs(rate) =>
        r := Ok(rate);
      case SampleRateEscape8 =>
        var sr :- crcInput.ReadByte();
        assert [sr] == rest[..1];
        r := Ok(Some(sr));
      case SampleRateEscape16 =>
        var sr :- crcInput.ReadBeU16();
        assert [rest[0], rest[1]] == rest[..2];
        r := Ok(Some(sr));
      case SampleRateEscape16Tens =>
        var srTen :- crcInput.ReadBeU16();
        assert [rest[0], rest[1]] == rest[..2];
        r := Ok(Some(srTen * 10));
    }
  }

  /** Where the header bytes `s`, which start at `start` in `data`, stand
      after `i` of them. */
  lemma Window(data: seq<Byte>, start: nat, s: seq<Byte>, i: nat)
    requires start <= |data| && data[start..] == s && i <= |s|
    ensures data[start + i..] == s[i..] && data[start..start + i] == s[..i]
  {
    assert data[start..][i..] == data[start + i..];
    assert data[start..][..i] == data[start..start + i];
  }

  /** Reads one frame header from `input`. Every byte read goes through a
      fresh CRC-8 reader; the escapes are resolved after the fixed part, the
      block size first; the frame or sample number is not read. */
  method ReadFrameHeader(input: ByteReader) returns (r: Result<FrameHeader>)
    requires input.Valid()
    modifies input
    ensures input.Valid()
    ensures var spec := ParseFrameHeader(old(input.Remaining()), input.fault);
            match spec
            case Ok(p) => r == Ok(p.header) && input.pos == old(input.pos) + p.length
            case Err(e) => r == Err(e)
  {
    ghost var s := input.Remaining();
    var crcInput := new Crc8Reader(input);

    var f :- ReadFixedPart(crcInput);
    assert ParseFrameHeader(s, input.fault) == ParseEscapes(s, input.fault, f);

    // The frame or sample number would be here; it is not read.

    r := ReadEscapesAndChecksum(crcInput, f, s);
  }

  /** The second pass: the escapes the fixed part `f` asked for, the block
      size first, then the checksum byte, which must be the CRC-8 of every
      byte read before it. `s` is the input from the start of the header. */
  method ReadEscapesAndChecksum(crcInput: Crc8Reader, f: Fields, ghost s: seq<Byte>)
    returns (r: Result<FrameHeader>)
    requires crcInput.Valid() && |s| >= 4
    requires crcInput.inner.data[crcInput.start..] == s && crcInput.inner.pos == crcInput.start + 4
    modifies crcInput, crcInput.inner
    ensures crcInput.Valid()
    ensures match ParseEscapes(s, crcInput.inner.fault, f)
            case Ok(p) => r == Ok(p.header) && crcInput.inner.pos == old(crcInput.inner.pos) + p.length - 4
            case Err(e) => r == Err(e)
  {
    ghost var fault, data, start := crcInput.inner.fault, crcInput.inner.data, crcInput.start;
    ghost var bl := BlockSizeEscapeLength(f.blockSize);
    ghost var sl := SampleRateEscapeLength(f.sampleRate);

    Window(data, start, s, 4);
    var blockSize :- ReadBlockSize(crcInput, f.blockSize);
    assert s[4..][..bl] == s[4..4 + bl];

    Window(data, start, s, 4 + bl);
    var sampleRate :- ReadSampleRate(crcInput, f.sampleRate);
    assert s[4 + bl..][..sl] == s[4 + bl..4 + bl + sl];

    var h := FrameHeader(f.blockingStrategy, blockSize, sampleRate,
                         f.nChannels, f.channelMode, f.bitsPerSample);
    assert ParseEscapes(s, fault, f) == CheckCrc(s, fault, h, 4 + bl + sl);
    r := ReadChecksum(crcInput, h, s, 4 + bl + sl);
  }

  /** The checksum byte, which must be the CRC-8 of the `n` header bytes read
      before it. */
  method ReadChecksum(crcInput: Crc8Reader, h: FrameHeader, ghost s: seq<Byte>, ghost n: nat)
    returns (r: Result<FrameHeader>)
    requires crcInput.Valid() && n <= |s|
    requires crcInput.inner.data[crcInput.start..] == s && crcInput.inner.pos == crcInput.start + n
    modifies crcInput, crcInput.inner
    ensures crcInput.Valid()
    ensures match CheckCrc(s, crcInput.inner.fault, h, n)
            case Ok(p) => r == Ok(h) && crcInput.inner.pos == old(crcInput.inner.pos) + 1
            case Err(e) => r == Err(e)
  {
    var computedCrc := crcInput.Crc();
    Window(crcInput.inner.data, crcInput.start, s, n);
    var presumedCrc :- crcInput.ReadByte();
    if computedCrc != presumedCrc {
      return Err(FrameHeaderCrcMismatch);
    }
    r := Ok(h);
  }
}
