/** What the frame header parser guarantees, stated about `ParseFrameHeader`
    (which `ReadFrameHeader` is proved to compute), and an encoder that
    inverts it. */
module DecodeProperties {
  import opened Errors
  import opened Input
  import opened Checksum
  import opened Decode

  // ---------------------------------------------------------------------
  // The code tables, value by value (as read here; compare RFC 9639,
  // sections 9.1.1 to 9.1.4)
  // ---------------------------------------------------------------------

  lemma BlockSizeTable()
    ensures DecodeBlockSizeCode(0) == Err(InvalidFrameHeader)
    ensures DecodeBlockSizeCode(1) == Ok(BlockSizeIs(192))
    ensures DecodeBlockSizeCode(2) == Ok(BlockSizeIs(576))
    ensures DecodeBlockSizeCode(3) == Ok(BlockSizeIs(1152))
    ensures DecodeBlockSizeCode(4) == Ok(BlockSizeIs(2304))
    ensures DecodeBlockSizeCode(5) == Ok(BlockSizeIs(4608))
    ensures DecodeBlockSizeCode(6) == Ok(BlockSizeEscape8)
    ensures DecodeBlockSizeCode(7) == Ok(BlockSizeEscape16)
    ensures DecodeBlockSizeCode(8) == Ok(BlockSizeIs(256))
    ensures DecodeBlockSizeCode(9) == Ok(BlockSizeIs(512))
    ensures DecodeBlockSizeCode(10) == Ok(BlockSizeIs(1024))
    ensures DecodeBlockSizeCode(11) == Ok(BlockSizeIs(2048))
    ensures DecodeBlockSizeCode(12) == Ok(BlockSizeIs(4096))
    ensures DecodeBlockSizeCode(13) == Ok(BlockSizeIs(8192))
    ensures DecodeBlockSizeCode(14) == Ok(BlockSizeIs(16384))
    ensures DecodeBlockSizeCode(15) == Ok(BlockSizeIs(32768))
  {
  }

  /** Every block size the table gives directly lies in 192..32768. */
  lemma BlockSizeTableBounds(n: nat)
    requires n < 16
    ensures var r := DecodeBlockSizeCode(n);
            r.Ok? && r.value.BlockSizeIs? ==> 192 <= r.value.size <= 32768
  {
    BlockSizeTable();
  }

  lemma SampleRateTable()
    ensures DecodeSampleRateCode(1) == Ok(SampleRateIs(Some(88200)))
    ensures DecodeSampleRateCode(2) == Ok(SampleRateIs(Some(176400)))
    ensures DecodeSampleRateCode(3) == Ok(SampleRateIs(Some(192000)))
    ensures DecodeSampleRateCode(4) == Ok(SampleRateIs(Some(8000)))
    ensures DecodeSampleRateCode(5) == Ok(SampleRateIs(Some(16000)))
    ensures DecodeSampleRateCode(6) == Ok(SampleRateIs(Some(22050)))
    ensures DecodeSampleRateCode(7) == Ok(SampleRateIs(Some(24000)))
    ensures DecodeSampleRateCode(8) == Ok(SampleRateIs(Some(32000)))
    ensures DecodeSampleRateCode(9) == Ok(SampleRateIs(Some(44100)))
    ensures DecodeSampleRateCode(10) == Ok(SampleRateIs(Some(48000)))
    ensures DecodeSampleRateCode(11) == Ok(SampleRateIs(Some(96000)))
  {
  }

  lemma ChannelTable(n: nat)
    requires n < 16
    ensures n < 8 ==> DecodeChannelCode(n) == Ok((n + 1, Raw))
    ensures n == 8 ==> DecodeChannelCode(n) == Ok((2, LeftSideStereo))
    ensures n == 9 ==> DecodeChannelCode(n) == Ok((2, RightSideStereo))
    ensures n == 10 ==> DecodeChannelCode(n) == Ok((2, MidSideStereo))
  {
  }

  lemma BitsPerSampleTable()
    ensures DecodeBitsPerSampleCode(1) == Ok(Some(8))
    ensures DecodeBitsPerSampleCode(2) == Ok(Some(12))
    ensures DecodeBitsPerSampleCode(4) == Ok(Some(16))
    ensures DecodeBitsPerSampleCode(5) == Ok(Some(20))
    ensures DecodeBitsPerSampleCode(6) == Ok(Some(24))
  {
  }

  // ---------------------------------------------------------------------
  // Rejections
  // ---------------------------------------------------------------------

  /** The first 16 bits decide the sync-code and reserved-bit errors, and
      nothing else is looked at before them. */
  lemma SyncCodeChecked(s: seq<Byte>, fault: IoFault)
    requires |s| >= 2
    ensures var w := Be16(s[0], s[1]);
            (SyncCodeBits(w) != 0xFFF8 ==> ParseFrameHeader(s, fault) == Err(MissingFrameSyncCode))
            && (SyncCodeBits(w) == 0xFFF8 && ReservedBitSet(w) ==>
                  ParseFrameHeader(s, fault) == Err(InvalidFrameHeader))
  {
  }

  /** In terms of bytes: a header must start with 0xFF and then 0xF8 or 0xF9. */
  lemma SyncBytes(s: seq<Byte>, fault: IoFault)
    requires |s| >= 2
    requires ParseFrameHeader(s, fault).Ok?
    ensures s[0] == 0xFF && (s[1] == 0xF8 || s[1] == 0xF9)
    ensures ParseFrameHeader(s, fault).value.header.blockingStrategy
            == if s[1] == 0xF8 then Fixed else Variable
  {
    SyncBytesOf(s[0], s[1]);
  }

  lemma SyncBytesOf(hi: Byte, lo: Byte)
    requires SyncCodeBits(Be16(hi, lo)) == 0xFFF8 && !ReservedBitSet(Be16(hi, lo))
    ensures hi == 0xFF && (lo == 0xF8 || lo == 0xF9)
    ensures !VariableBitSet(Be16(hi, lo)) <==> lo == 0xF8
  {
  }

  /** A reserved block-size or sample-rate code is rejected once the sync
      code has passed, whatever follows. */
  lemma ReservedRateOrSizeRejected(s: seq<Byte>, fault: IoFault)
    requires |s| >= 3
    requires SyncCodeBits(Be16(s[0], s[1])) == 0xFFF8 && !ReservedBitSet(Be16(s[0], s[1]))
    requires HighNibble(s[2]) == 0 || LowNibble(s[2]) == 15
    ensures ParseFrameHeader(s, fault) == Err(InvalidFrameHeader)
  {
  }

  /** A reserved channel assignment (11..15), a reserved sample-size code (3
      or 7) or a set reserved bit is rejected once the bytes before it have
      passed, whatever follows, the checksum included. */
  lemma ReservedChannelByteRejected(s: seq<Byte>, fault: IoFault)
    requires |s| >= 4
    requires SyncCodeBits(Be16(s[0], s[1])) == 0xFFF8 && !ReservedBitSet(Be16(s[0], s[1]))
    requires HighNibble(s[2]) != 0 && LowNibble(s[2]) != 15
    ensures HighNibble(s[3]) >= 11 ==> ParseFrameHeader(s, fault) == Err(InvalidFrameHeader)
    ensures BitsPerSampleBits(s[3]) == 3 || BitsPerSampleBits(s[3]) == 7 ==>
              ParseFrameHeader(s, fault) == Err(InvalidFrameHeader)
    ensures s[3] % 2 != 0 ==> ParseFrameHeader(s, fault) == Err(InvalidFrameHeader)
  {
    assert DecodeBlockSizeCode(HighNibble(s[2])).Ok?;
    assert DecodeSampleRateCode(LowNibble(s[2])).Ok?;
    var ch := DecodeChannelCode(HighNibble(s[3]));
    var bps := DecodeBitsPerSampleCode(BitsPerSampleBits(s[3]));
    if ch.Err? {
      assert ParseFixedPart(s, fault) == Err(InvalidFrameHeader);
    } else if bps.Err? {
      assert ParseFixedPart(s, fault) == Err(InvalidFrameHeader);
    } else if s[3] % 2 != 0 {
      assert ParseFixedPart(s, fault) == Err(InvalidFrameHeader);
    }
  }

  /** A 16-bit block-size escape of 0xFFFF is always rejected, whatever the
      other fields and the checksum are. */
  lemma BlockSizeEscapeFFFFRejected(s: seq<Byte>, fault: IoFault)
    requires ParseFixedPart(s, fault).Ok?
    requires ParseFixedPart(s, fault).value.blockSize == BlockSizeEscape16
    requires |s| >= 6 && s[4] == 0xFF && s[5] == 0xFF
    ensures ParseFrameHeader(s, fault) == Err(InvalidBlockSize)
  {
    assert s[4..6] == [0xFF, 0xFF];
  }

  /** An input error comes only from running out of input, and it is the
      input's own fault, unchanged. A header never needs more than 9 bytes. */
  lemma InputErrorsPropagated(s: seq<Byte>, fault: IoFault)
    ensures ParseFrameHeader(s, fault).Err? && ParseFrameHeader(s, fault).error.IoError? ==>
              ParseFrameHeader(s, fault).error == IoError(fault) && |s| < 9
    ensures |s| < 2 ==> ParseFrameHeader(s, fault) == Err(IoError(fault))
  {
  }

  // ---------------------------------------------------------------------
  // Accepted headers
  // ---------------------------------------------------------------------

  predicate IsSampleRateEncodable(r: nat) {
    r < 0x1_0000 || (r % 10 == 0 && r / 10 < 0x1_0000)
  }

  /** A header a FLAC frame can carry: the field ranges the format allows. */
  predicate WellFormed(h: FrameHeader) {
    1 <= h.blockSize <= 65535
    && (h.sampleRate.Some? ==> IsSampleRateEncodable(h.sampleRate.value))
    && 1 <= h.nChannels <= 8
    && (h.channelMode != Raw ==> h.nChannels == 2)
    && (h.bitsPerSample.Some? ==> IsSampleSize(h.bitsPerSample.value))
  }

  /** Every accepted header is well formed: the block size is at least one
      and fits 16 bits, the sample rate fits 32 bits (at most 655350 Hz), there
      are 1 to 8 channels and exactly 2 for every stereo mode, and the sample
      size is one the format defines. */
  lemma AcceptedHeaderWellFormed(s: seq<Byte>, fault: IoFault)
    requires ParseFrameHeader(s, fault).Ok?
    ensures var h := ParseFrameHeader(s, fault).value.header;
            WellFormed(h) && (h.sampleRate.Some? ==> h.sampleRate.value <= 655350)
  {
    var f := ParseFixedPart(s, fault).value;
    assert ParseFrameHeader(s, fault) == ParseEscapes(s, fault, f);
    var h := ParseEscapes(s, fault, f).value.header;
    var bl := BlockSizeEscapeLength(f.blockSize);
    var sl := SampleRateEscapeLength(f.sampleRate);
    assert ParseCodes(s, fault, f.blockingStrategy) == Ok(f);
    assert ParseChannelByte(s[3], f.blockingStrategy, f.blockSize, f.sampleRate) == Ok(f);
    BlockSizeBounds(HighNibble(s[2]), f.blockSize, s[4..4 + bl]);
    SampleRateBounds(LowNibble(s[2]), f.sampleRate, s[4 + bl..4 + bl + sl]);
  }

  /** Every block size a code and its escape can give lies in 1..65535. */
  lemma BlockSizeBounds(code: nat, f: BlockSizeField, esc: seq<Byte>)
    requires code < 16 && DecodeBlockSizeCode(code) == Ok(f)
    requires |esc| == BlockSizeEscapeLength(f)
    ensures var r := ResolveBlockSize(f, esc); r.Ok? ==> 1 <= r.value <= 65535
  {
    BlockSizeTableBounds(code);
  }

  /** Every sample rate a code and its escape can give has an encoding, and
      none exceeds 655350 Hz. */
  lemma SampleRateBounds(code: nat, f: SampleRateField, esc: seq<Byte>)
    requires code < 16 && DecodeSampleRateCode(code) == Ok(f)
    requires |esc| == SampleRateEscapeLength(f)
    ensures var r := ResolveSampleRate(f, esc);
            r.Some? ==> IsSampleRateEncodable(r.value) && r.value <= 655350
  {
    if f.SampleRateIs? {
      SampleRateTable();
    }
  }

  /** An accepted header occupies exactly 5 bytes plus its escapes, block
      size first, and its last byte is the CRC-8 of all the bytes before it. */
  lemma AcceptedHeaderLayout(s: seq<Byte>, fault: IoFault)
    requires ParseFrameHeader(s, fault).Ok?
    ensures var p := ParseFrameHeader(s, fault).value;
            var f := ParseFixedPart(s, fault).value;
            var bl := BlockSizeEscapeLength(f.blockSize);
            var sl := SampleRateEscapeLength(f.sampleRate);
            && p.length == 5 + bl + sl <= |s|
            && 5 <= p.length <= 9
            && s[p.length - 1] == Crc8(s[..p.length - 1])
            && (f.blockSize == BlockSizeEscape8 ==> p.header.blockSize == s[4] as nat + 1)
            && (f.blockSize == BlockSizeEscape16 ==>
                  p.header.blockSize == Be16(s[4], s[5]) + 1)
            && (f.sampleRate == SampleRateEscape8 ==>
                  p.header.sampleRate == Some(s[4 + bl]))
            && (f.sampleRate == SampleRateEscape16 ==>
                  p.header.sampleRate == Some(Be16(s[4 + bl], s[5 + bl])))
            && (f.sampleRate == SampleRateEscape16Tens ==>
                  p.header.sampleRate == Some(Be16(s[4 + bl], s[5 + bl]) * 10))
  {
  }

  /** The fixed part depends only on the first four bytes. */
  lemma FixedPartOfPrefix(s: seq<Byte>, t: seq<Byte>, fault: IoFault, g: IoFault)
    requires ParseFixedPart(s, fault).Ok?
    requires |t| >= 4 && t[..4] == s[..4]
    ensures ParseFixedPart(t, g) == ParseFixedPart(s, fault)
  {
    assert s[0] == t[0] && s[1] == t[1] && s[2] == t[2] && s[3] == t[3] by {
      assert s[..4][0] == s[0] && s[..4][1] == s[1] && s[..4][2] == s[2] && s[..4][3] == s[3];
      assert t[..4][0] == t[0] && t[..4][1] == t[1] && t[..4][2] == t[2] && t[..4][3] == t[3];
    }
  }

  /** The escapes and the checksum depend only on the header's own bytes. */
  lemma EscapesOfPrefix(s: seq<Byte>, t: seq<Byte>, fault: IoFault, g: IoFault, f: Fields)
    requires |s| >= 4 && ParseEscapes(s, fault, f).Ok?
    requires var n := ParseEscapes(s, fault, f).value.length;
             |t| >= n && t[..n] == s[..n]
    ensures ParseEscapes(t, g, f) == ParseEscapes(s, fault, f)
  {
    var p := ParseEscapes(s, fault, f).value;
    var n := p.length;
    var bl := BlockSizeEscapeLength(f.blockSize);
    var sl := SampleRateEscapeLength(f.sampleRate);
    SamePrefix(s, t, n, 4, 4 + bl);
    SamePrefix(s, t, n, 4 + bl, 4 + bl + sl);
    SamePrefix(s, t, n, 0, n - 1);
    SamePrefix(s, t, n, n - 1, n);
    assert t[n - 1] == t[n - 1..n][0] && s[n - 1] == s[n - 1..n][0];
    assert t[..n - 1] == t[0..n - 1] && s[..n - 1] == s[0..n - 1];
    EscapesAccepted(t, g, f, p.header, s[4..4 + bl], s[4 + bl..4 + bl + sl]);
  }

  /** Two sequences with a common prefix agree on every slice of it. */
  lemma SamePrefix(s: seq<Byte>, t: seq<Byte>, n: nat, a: nat, b: nat)
    requires a <= b <= n <= |s| && n <= |t| && t[..n] == s[..n]
    ensures t[a..b] == s[a..b]
  {
    assert forall i :: a <= i < b ==> t[i] == t[..n][i] && s[i] == s[..n][i];
  }

  /** The parser looks at no byte beyond the header it accepts: any input
      that starts with the same header bytes yields the same header, whatever
      its reader would report past its end. */
  lemma AcceptedHeaderDependsOnlyOnItsBytes(s: seq<Byte>, t: seq<Byte>, fault: IoFault, g: IoFault)
    requires ParseFrameHeader(s, fault).Ok?
    requires var n := ParseFrameHeader(s, fault).value.length;
             |t| >= n && t[..n] == s[..n]
    ensures ParseFrameHeader(t, g) == ParseFrameHeader(s, fault)
  {
    var f := ParseFixedPart(s, fault).value;
    assert ParseFrameHeader(s, fault) == ParseEscapes(s, fault, f);
    var n := ParseFrameHeader(s, fault).value.length;
    assert n >= 5;
    assert t[..4] == s[..4] by { assert t[..n][..4] == t[..4] && s[..n][..4] == s[..4]; }
    FixedPartOfPrefix(s, t, fault, g);
    EscapesOfPrefix(s, t, fault, g, f);
  }

  /** Replacing the checksum byte of an accepted header by any other value
      (flipping any of its bits, say) is reported as a checksum mismatch, and
      as nothing else. */
  lemma WrongChecksumRejected(s: seq<Byte>, fault: IoFault, x: Byte)
    requires ParseFrameHeader(s, fault).Ok?
    requires x != s[ParseFrameHeader(s, fault).value.length - 1]
    ensures var n := ParseFrameHeader(s, fault).value.length;
            ParseFrameHeader(s[n - 1 := x], fault) == Err(FrameHeaderCrcMismatch)
  {
    var f := ParseFixedPart(s, fault).value;
    assert ParseFrameHeader(s, fault) == ParseEscapes(s, fault, f);
    var n := ParseFrameHeader(s, fault).value.length;
    var t := s[n - 1 := x];
    assert t[..4] == s[..4];
    FixedPartOfPrefix(s, t, fault, fault);
    assert ParseFrameHeader(t, fault) == ParseEscapes(t, fault, f);
    assert t[..n - 1] == s[..n - 1];
    EscapesCrcMismatch(s, t, fault, f);
  }

  /** The escape and checksum stage rejects a changed checksum byte. */
  lemma EscapesCrcMismatch(s: seq<Byte>, t: seq<Byte>, fault: IoFault, f: Fields)
    requires |s| >= 4 && ParseEscapes(s, fault, f).Ok?
    requires var n := ParseEscapes(s, fault, f).value.length;
             |t| >= n && t[..n - 1] == s[..n - 1] && t[n - 1] != s[n - 1]
    ensures ParseEscapes(t, fault, f) == Err(FrameHeaderCrcMismatch)
  {
    var n := ParseEscapes(s, fault, f).value.length;
    var bl := BlockSizeEscapeLength(f.blockSize);
    var sl := SampleRateEscapeLength(f.sampleRate);
    var m := 4 + bl + sl;
    assert n == m + 1;
    SamePrefix(s, t, m, 4, 4 + bl);
    SamePrefix(s, t, m, 4 + bl, m);
    var blockSize := ResolveBlockSize(f.blockSize, t[4..4 + bl]);
    assert blockSize.Ok?;
    var h := FrameHeader(f.blockingStrategy, blockSize.value,
                         ResolveSampleRate(f.sampleRate, t[4 + bl..m]),
                         f.nChannels, f.channelMode, f.bitsPerSample);
    assert t[m] != Crc8(t[..m]);
    assert CheckCrc(t, fault, h, m) == Err(FrameHeaderCrcMismatch);
  }

  lemma FlippedChecksumBitRejected(s: seq<Byte>, fault: IoFault, bit: nat)
    requires ParseFrameHeader(s, fault).Ok?
    requires bit < 8
    ensures var n := ParseFrameHeader(s, fault).value.length;
            ParseFrameHeader(s[n - 1 := Xor(s[n - 1], Bit(bit))], fault) == Err(FrameHeaderCrcMismatch)
  {
    var n := ParseFrameHeader(s, fault).value.length;
    var x := Xor(s[n - 1], Bit(bit));
    FlipChanges(s[n - 1], bit);
    WrongChecksumRejected(s, fault, x);
  }

  /** A change to any single byte before the checksum never yields another
      header of the same length: with the checksum byte unchanged, the CRC-8
      of the changed bytes would have to equal that of the original. */
  lemma SingleByteCorruptionDetected(s: seq<Byte>, t: seq<Byte>, k: nat, fault: IoFault)
    requires ParseFrameHeader(s, fault).Ok?
    requires k < ParseFrameHeader(s, fault).value.length - 1
    requires |t| == |s| && t[k] != s[k]
    requires forall i :: 0 <= i < |s| && i != k ==> t[i] == s[i]
    ensures !(ParseFrameHeader(t, fault).Ok?
              && ParseFrameHeader(t, fault).value.length == ParseFrameHeader(s, fault).value.length)
  {
    var n := ParseFrameHeader(s, fault).value.length;
    AcceptedChecksum(s, fault);
    if ParseFrameHeader(t, fault).Ok? && ParseFrameHeader(t, fault).value.length == n {
      AcceptedChecksum(t, fault);
      ChecksumGuardsPrefix(s, t, n, k);
    }
  }

  /** If the byte at `n - 1` is the CRC-8 of the bytes before it, no change to
      one of those bytes keeps it so. */
  lemma ChecksumGuardsPrefix(s: seq<Byte>, t: seq<Byte>, n: nat, k: nat)
    requires k < n - 1 && n <= |s| == |t| && t[k] != s[k]
    requires forall i :: 0 <= i < |s| && i != k ==> t[i] == s[i]
    requires s[n - 1] == Crc8(s[..n - 1])
    ensures t[n - 1] != Crc8(t[..n - 1])
  {
    Crc8DetectsSingleByteChange(s[..n - 1], t[..n - 1], k);
  }

  /** The last byte of an accepted header is the CRC-8 of the bytes before it. */
  lemma AcceptedChecksum(s: seq<Byte>, fault: IoFault)
    requires ParseFrameHeader(s, fault).Ok?
    ensures var n := ParseFrameHeader(s, fault).value.length;
            5 <= n <= |s| && s[n - 1] == Crc8(s[..n - 1])
  {
    var f := ParseFixedPart(s, fault).value;
    assert ParseFrameHeader(s, fault) == ParseEscapes(s, fault, f);
  }

  /** A header laid out as section 9.1 of RFC 9639 lays it out has a coded
      frame or sample number between the fixed bytes and the checksum: with
      a one-byte number `x`, it is `f + [x, Crc8(f + [x])]`. This parser reads
      no number, so it takes `x` for the checksum. It rejects the header,
      unless `x` happens to be the CRC-8 of the fixed bytes; then the header
      is taken to end after `x`, and the real checksum byte, which is then 0,
      is left for the frame body. */
  lemma CodedNumberTakenForChecksum(f: seq<Byte>, x: Byte, rest: seq<Byte>, fault: IoFault)
    requires |f| == 4 && ParseFixedPart(f, fault).Ok?
    requires ParseFixedPart(f, fault).value.blockSize.BlockSizeIs?
    requires ParseFixedPart(f, fault).value.sampleRate.SampleRateIs?
    ensures var fl := ParseFixedPart(f, fault).value;
            var h := FrameHeader(fl.blockingStrategy, fl.blockSize.size, fl.sampleRate.rate,
                                 fl.nChannels, fl.channelMode, fl.bitsPerSample);
            var s := f + [x, Crc8(f + [x])] + rest;
            && (x != Crc8(f) ==> ParseFrameHeader(s, fault) == Err(FrameHeaderCrcMismatch))
            && (x == Crc8(f) ==> ParseFrameHeader(s, fault) == Ok(Parsed(h, 5)) && s[5] == 0)
  {
    var fl := ParseFixedPart(f, fault).value;
    var s := f + [x, Crc8(f + [x])] + rest;
    assert s[..4] == f && s[4] == x && s[5] == Crc8(f + [x]);
    FixedPartOfPrefix(f, s, fault, fault);
    assert ParseFrameHeader(s, fault) == ParseEscapes(s, fault, fl);
    if x == Crc8(f) {
      Crc8OfCheckedIsZero(f);
    }
  }

  // ---------------------------------------------------------------------
  // Encoding: the inverse of parsing
  // ---------------------------------------------------------------------

  /** The block-size code for a size (the table entry when there is one). */
  function BlockSizeCode(bs: nat): (n: nat)
    requires 1 <= bs <= 65535
    ensures 1 <= n < 16
  {
    if bs == 192 then 1
    else if bs == 576 then 2
    else if bs == 1152 then 3
    else if bs == 2304 then 4
    else if bs == 4608 then 5
    else if bs == 256 then 8
    else if bs == 512 then 9
    else if bs == 1024 then 10
    else if bs == 2048 then 11
    else if bs == 4096 then 12
    else if bs == 8192 then 13
    else if bs == 16384 then 14
    else if bs == 32768 then 15
    else if bs <= 256 then 6
    else 7
  }

  /** The two bytes of a 16-bit big-endian value. */
  function U16Bytes(v: nat): (b: seq<Byte>)
    requires v < 0x1_0000
    ensures |b| == 2 && Be16(b[0], b[1]) == v
  {
    [v / 0x100, v % 0x100]
  }

  function BlockSizeEscape(bs: nat): seq<Byte>
    requires 1 <= bs <= 65535
  {
    var n := BlockSizeCode(bs);
    if n == 6 then [bs - 1]
    else if n == 7 then U16Bytes(bs - 1)
    else []
  }

  function SampleRateCode(sr: Option<nat>): (n: nat)
    requires sr.Some? ==> IsSampleRateEncodable(sr.value)
    ensures n < 15
  {
    match sr
    case None => 0
    case Some(r) =>
      if r == 88200 then 1
      else if r == 176400 then 2
      else if r == 192000 then 3
      else if r == 8000 then 4
      else if r == 16000 then 5
      else if r == 22050 then 6
      else if r == 24000 then 7
      else if r == 32000 then 8
      else if r == 44100 then 9
      else if r == 48000 then 10
      else if r == 96000 then 11
      else if r < 0x100 then 12
      else if r < 0x1_0000 then 13
      else 14
  }

  function SampleRateEscape(sr: Option<nat>): seq<Byte>
    requires sr.Some? ==> IsSampleRateEncodable(sr.value)
  {
    var n := SampleRateCode(sr);
    if n == 12 then [sr.value]
    else if n == 13 then U16Bytes(sr.value)
    else if n == 14 then U16Bytes(sr.value / 10)
    else []
  }

  function ChannelCode(n: nat, mode: ChannelMode): (c: nat)
    requires 1 <= n <= 8 && (mode != Raw ==> n == 2)
    ensures c <= 10
  {
    match mode
    case Raw => n - 1
    case LeftSideStereo => 8
    case RightSideStereo => 9
    case MidSideStereo => 10
  }

  function BitsPerSampleCode(bps: Option<nat>): (c: nat)
    requires bps.Some? ==> IsSampleSize(bps.value)
    ensures c < 8
  {
    match bps
    case None => 0
    case Some(b) =>
      if b == 8 then 1 else if b == 12 then 2 else if b == 16 then 4 else if b == 20 then 5 else 6
  }

  /** Two nibbles in one byte. */
  function PackNibbles(hi: nat, lo: nat): Byte
    requires hi < 16 && lo < 16
  {
    hi * 16 + lo
  }

  /** The four fixed bytes of a header. */
  function EncodeFixedPart(h: FrameHeader): (b: seq<Byte>)
    requires WellFormed(h)
    ensures |b| == 4
  {
    [0xFF, if h.blockingStrategy == Fixed then 0xF8 else 0xF9,
     PackNibbles(BlockSizeCode(h.blockSize), SampleRateCode(h.sampleRate)),
     PackNibbles(ChannelCode(h.nChannels, h.channelMode), BitsPerSampleCode(h.bitsPerSample) * 2)]
  }

  /** The header bytes before the checksum. */
  function EncodeBody(h: FrameHeader): seq<Byte>
    requires WellFormed(h)
  {
    EncodeFixedPart(h) + BlockSizeEscape(h.blockSize) + SampleRateEscape(h.sampleRate)
  }

  /** The bytes of a frame header, checksum included. */
  function EncodeFrameHeader(h: FrameHeader): seq<Byte>
    requires WellFormed(h)
  {
    var body := EncodeBody(h);
    body + [Crc8(body)]
  }

  lemma PackNibblesSplit(hi: nat, lo: nat)
    requires hi < 16 && lo < 16
    ensures HighNibble(PackNibbles(hi, lo)) == hi && LowNibble(PackNibbles(hi, lo)) == lo
  {
  }

  lemma PackChannelByteSplit(ch: nat, bps: nat)
    requires ch < 16 && bps < 8
    ensures var b := PackNibbles(ch, bps * 2);
            HighNibble(b) == ch && BitsPerSampleBits(b) == bps && b % 2 == 0
  {
    PackNibblesSplit(ch, bps * 2);
  }

  lemma BlockSizeRoundTrip(bs: nat)
    requires 1 <= bs <= 65535
    ensures var f := DecodeBlockSizeCode(BlockSizeCode(bs));
            f.Ok? && |BlockSizeEscape(bs)| == BlockSizeEscapeLength(f.value)
            && ResolveBlockSize(f.value, BlockSizeEscape(bs)) == Ok(bs)
  {
    var n := BlockSizeCode(bs);
    if n == 6 {
      assert BlockSizeEscape(bs) == [bs - 1];
    } else if n == 7 {
      var esc := U16Bytes(bs - 1);
      assert BlockSizeEscape(bs) == esc && Be16(esc[0], esc[1]) == bs - 1 < 0xFFFF;
    } else {
      BlockSizeTable();
    }
  }

  lemma SampleRateRoundTrip(sr: Option<nat>)
    requires sr.Some? ==> IsSampleRateEncodable(sr.value)
    ensures var f := DecodeSampleRateCode(SampleRateCode(sr));
            f.Ok? && |SampleRateEscape(sr)| == SampleRateEscapeLength(f.value)
            && ResolveSampleRate(f.value, SampleRateEscape(sr)) == sr
  {
    var n := SampleRateCode(sr);
    if n == 12 {
      assert SampleRateEscape(sr) == [sr.value];
    } else if n == 13 {
      var esc := U16Bytes(sr.value);
      assert SampleRateEscape(sr) == esc;
    } else if n == 14 {
      var r := sr.value;
      assert r / 10 * 10 == r;
      var esc := U16Bytes(r / 10);
      assert SampleRateEscape(sr) == esc;
      assert ResolveSampleRate(SampleRateEscape16Tens, esc) == Some(Be16(esc[0], esc[1]) * 10);
    } else {
      SampleRateTable();
    }
  }

  lemma ChannelRoundTrip(n: nat, mode: ChannelMode)
    requires 1 <= n <= 8 && (mode != Raw ==> n == 2)
    ensures DecodeChannelCode(ChannelCode(n, mode)) == Ok((n, mode))
  {
  }

  lemma BitsPerSampleRoundTrip(bps: Option<nat>)
    requires bps.Some? ==> IsSampleSize(bps.value)
    ensures DecodeBitsPerSampleCode(BitsPerSampleCode(bps)) == Ok(bps)
  {
  }

  /** The fields the fixed part of an encoded header decodes to. */
  function EncodedFields(h: FrameHeader): (f: Fields)
    requires WellFormed(h)
  {
    BlockSizeRoundTrip(h.blockSize);
    SampleRateRoundTrip(h.sampleRate);
    Fields(h.blockingStrategy, DecodeBlockSizeCode(BlockSizeCode(h.blockSize)).value,
           DecodeSampleRateCode(SampleRateCode(h.sampleRate)).value,
           h.nChannels, h.channelMode, h.bitsPerSample)
  }

  lemma FixedPartRoundTrip(h: FrameHeader, s: seq<Byte>, fault: IoFault)
    requires WellFormed(h)
    requires |s| >= 4 && s[..4] == EncodeFixedPart(h)
    ensures ParseFixedPart(s, fault) == Ok(EncodedFields(h))
  {
    var body := EncodeFixedPart(h);
    var bsCode, srCode := BlockSizeCode(h.blockSize), SampleRateCode(h.sampleRate);
    var chCode, bpsCode := ChannelCode(h.nChannels, h.channelMode), BitsPerSampleCode(h.bitsPerSample);
    assert s[0] == body[0] && s[1] == body[1] && s[2] == body[2] && s[3] == body[3] by {
      assert s[..4][0] == s[0] && s[..4][1] == s[1] && s[..4][2] == s[2] && s[..4][3] == s[3];
    }
    PackNibblesSplit(bsCode, srCode);
    PackChannelByteSplit(chCode, bpsCode);
    ChannelRoundTrip(h.nChannels, h.channelMode);
    BitsPerSampleRoundTrip(h.bitsPerSample);
    SyncWordOf(h.blockingStrategy == Fixed);
  }

  /** The escape and checksum stage accepts an input whose escape bytes
      resolve to the header's fields and whose next byte is the checksum. */
  lemma EscapesAccepted(s: seq<Byte>, fault: IoFault, f: Fields, h: FrameHeader,
                        bsEsc: seq<Byte>, srEsc: seq<Byte>)
    requires |bsEsc| == BlockSizeEscapeLength(f.blockSize)
    requires |srEsc| == SampleRateEscapeLength(f.sampleRate)
    requires |s| > 4 + |bsEsc| + |srEsc|
    requires s[4..4 + |bsEsc|] == bsEsc && s[4 + |bsEsc|..4 + |bsEsc| + |srEsc|] == srEsc
    requires ResolveBlockSize(f.blockSize, bsEsc) == Ok(h.blockSize)
    requires ResolveSampleRate(f.sampleRate, srEsc) == h.sampleRate
    requires h == FrameHeader(f.blockingStrategy, h.blockSize, h.sampleRate,
                              f.nChannels, f.channelMode, f.bitsPerSample)
    requires var n := 4 + |bsEsc| + |srEsc|; s[n] == Crc8(s[..n])
    ensures ParseEscapes(s, fault, f) == Ok(Parsed(h, 5 + |bsEsc| + |srEsc|))
  {
  }

  /** Parsing the encoding of any well-formed header, whatever follows it,
      gives back that header and consumes exactly its bytes. */
  lemma RoundTrip(h: FrameHeader, rest: seq<Byte>, fault: IoFault)
    requires WellFormed(h)
    ensures ParseFrameHeader(EncodeFrameHeader(h) + rest, fault)
            == Ok(Parsed(h, |EncodeFrameHeader(h)|))
  {
    var s := EncodeFrameHeader(h) + rest;
    EncodedLayout(h, rest);
    FixedPartRoundTrip(h, s, fault);
    var n := 4 + |BlockSizeEscape(h.blockSize)| + |SampleRateEscape(h.sampleRate)|;
    EscapesRoundTrip(h, s, fault);
    Stages(s, fault, EncodedFields(h), Parsed(h, n + 1));
  }

  /** A header is accepted when its fixed part and then its escapes and
      checksum are. */
  lemma Stages(s: seq<Byte>, fault: IoFault, f: Fields, p: Parsed)
    requires ParseFixedPart(s, fault) == Ok(f) && |s| >= 4 && ParseEscapes(s, fault, f) == Ok(p)
    ensures ParseFrameHeader(s, fault) == Ok(p)
  {
  }

  /** `s` starts with the fixed bytes, the two escapes and the checksum of
      the three. */
  predicate Framed(s: seq<Byte>, fixed: seq<Byte>, bsEsc: seq<Byte>, srEsc: seq<Byte>) {
    var n := 4 + |bsEsc| + |srEsc|;
    |fixed| == 4 && |s| > n && s[..4] == fixed && s[4..4 + |bsEsc|] == bsEsc
    && s[4 + |bsEsc|..n] == srEsc && s[n] == Crc8(s[..n])
  }

  /** Where the parts of an encoded header lie in front of any input. */
  lemma EncodedLayout(h: FrameHeader, rest: seq<Byte>)
    requires WellFormed(h)
    ensures |EncodeFrameHeader(h)|
            == 5 + |BlockSizeEscape(h.blockSize)| + |SampleRateEscape(h.sampleRate)|
    ensures Framed(EncodeFrameHeader(h) + rest, EncodeFixedPart(h),
                   BlockSizeEscape(h.blockSize), SampleRateEscape(h.sampleRate))
    ensures |EncodeFrameHeader(h) + rest| >= 4 && (EncodeFrameHeader(h) + rest)[..4] == EncodeFixedPart(h)
  {
    var fixed, bsEsc, srEsc := EncodeFixedPart(h), BlockSizeEscape(h.blockSize),
                               SampleRateEscape(h.sampleRate);
    var body := fixed + bsEsc + srEsc;
    assert EncodeFrameHeader(h) == body + [Crc8(body)];
    ConcatenationSlices(fixed, bsEsc, srEsc, rest);
  }

  /** The escape and checksum stage gives back the header from the bytes an
      encoding puts after the fixed part. */
  lemma EscapesRoundTrip(h: FrameHeader, s: seq<Byte>, fault: IoFault)
    requires WellFormed(h)
    requires Framed(s, EncodeFixedPart(h), BlockSizeEscape(h.blockSize), SampleRateEscape(h.sampleRate))
    ensures ParseEscapes(s, fault, EncodedFields(h))
            == Ok(Parsed(h, 5 + |BlockSizeEscape(h.blockSize)| + |SampleRateEscape(h.sampleRate)|))
  {
    var f := EncodedFields(h);
    var bsEsc, srEsc := BlockSizeEscape(h.blockSize), SampleRateEscape(h.sampleRate);
    BlockSizeRoundTrip(h.blockSize);
    SampleRateRoundTrip(h.sampleRate);
    assert f.blockSize == DecodeBlockSizeCode(BlockSizeCode(h.blockSize)).value;
    assert f.sampleRate == DecodeSampleRateCode(SampleRateCode(h.sampleRate)).value;
    EscapesAccepted(s, fault, f, h, bsEsc, srEsc);
  }

  /** Where each part of a concatenated header lies. */
  lemma ConcatenationSlices(fixed: seq<Byte>, bsEsc: seq<Byte>, srEsc: seq<Byte>, rest: seq<Byte>)
    requires |fixed| == 4
    ensures var body := fixed + bsEsc + srEsc;
            Framed(body + [Crc8(body)] + rest, fixed, bsEsc, srEsc)
  {
    var body := fixed + bsEsc + srEsc;
    var s := body + [Crc8(body)] + rest;
    var bl, n := |bsEsc|, 4 + |bsEsc| + |srEsc|;
    assert s[..n] == body;
    assert body[..4] == fixed && body[4..4 + bl] == bsEsc && body[4 + bl..n] == srEsc;
    assert s[..4] == body[..4] && s[4..4 + bl] == body[4..4 + bl] && s[4 + bl..n] == body[4 + bl..n];
    assert s[n] == Crc8(body);
  }

  lemma SyncWordOf(fixed: bool)
    ensures var w := Be16(0xFF, if fixed then 0xF8 else 0xF9);
            SyncCodeBits(w) == 0xFFF8 && !ReservedBitSet(w) && (VariableBitSet(w) <==> !fixed)
  {
  }
}
