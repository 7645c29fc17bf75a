# Claxon: FLAC frame headers, stream opening and errors, in Dafny

This project models three parts of Claxon, a FLAC decoding library written in
Rust, and proves what each part guarantees.

- **Frame headers** (`src/decode.rs`). `read_frame_header` reads a frame
  header through a reader that keeps a running CRC-8. The header holds the
  14-bit sync pattern, one bit that must be clear, the blocking strategy, and the
  block-size, sample-rate, channel and sample-size codes. Escape bytes
  follow, block size first. The last byte is the checksum of everything
  before it. The checksum is the CRC-8 of section 9.1.8 of RFC 9639.
  - The model states the parse as a function of the input bytes,
    `Decode.ParseFrameHeader`, in three stages: the fixed part, the escapes,
    the checksum.
  - The imperative reader `Decode.ReadFrameHeader` is proved to compute
    exactly that function.
  - An encoder, `DecodeProperties.EncodeFrameHeader`, is paired with the
    parser: parsing the encoding of any well-formed header gives that header
    back, so the parser is a left inverse of the encoder. The converse does
    not hold. Some sizes and rates have more than one encoding; for example,
    block size 192 through the 8-bit escape re-encodes as code 1 with no
    escape.
- **Opening a stream** (`src/lib.rs`). `FlacStream::new` checks the
  big-endian "fLaC" marker. It takes the stream information from the first
  metadata block and collects the other blocks in order, stopping at the
  first error.
  - `Stream.FlacStream.New` does the same and is proved to agree with the
    specification function `Stream.Bootstrap`.
  - Lemmas characterise `Bootstrap` completely: when it succeeds and with
    what, and which error it gives in each failing case (a short input, a
    wrong marker, an error or a non-stream-information block as the first
    outcome, an error among the later outcomes).
- **Errors** (`src/error.rs`). This is the error enumeration and its
  deliberately partial equality. The equality is proved symmetric and
  transitive but not reflexive.

The header layout is the one Claxon reads. It departs from section 9.1 of
RFC 9639 in three ways:

- No coded frame or sample number is read. The RFC puts one, of 1 to 7
  bytes, between byte 3 and the escapes. The source leaves this step as a
  comment to do later (`src/decode.rs:139-148`).
  `DecodeProperties.CodedNumberTakenForChecksum` states the consequence for
  a header with no escapes and a one-byte number: the parser takes the
  number for the checksum. Such a header is rejected with
  `FrameHeaderCrcMismatch`, unless the number happens to equal the CRC-8
  of the fixed bytes. In that case the header is taken to end after the
  number.
- Sample-rate code 12 escapes an 8-bit rate in Hz. In the RFC it is an
  8-bit rate in kHz (`src/decode.rs:100`, `165-168`).
- Sample-size code 7 is rejected. In the RFC it means 32 bits
  (`src/decode.rs:130-131`).

Files:

- `errors.dfy`: the error type, `Result` and `Option`.
- `input.dfy`: the byte reader that stands for `io::Read`.
- `checksum.dfy`: the CRC-8 and `Crc8Reader`.
- `decode.dfy`: tables, the parser and the reader.
- `decode_properties.dfy`: properties of the parser and the encoder.
- `metadata.dfy`: metadata blocks and their reader, as an abstraction.
- `stream.dfy`: the stream marker and `FlacStream`.

Modelling choices:

- Input is a finite byte sequence with a cursor (`Input.ByteReader`).
  Reading past its end fails with an `IoError` carrying the reader's own
  fault, which every caller passes on unchanged.
- Claxon's `Crc8Reader` is modelled from its interface only, as a class
  that wraps the byte reader and keeps the CRC-8 of every byte read
  through it.
- `decode.rs` names its errors `FlacError::X`. They are the `Error::X`
  variants of `src/error.rs`.
- A byte (`u8`) is a natural number below 256 (`Input.Byte`). The source's
  shifts and masks on a byte are division and remainder by powers of two:
  `b >> 4` is `b / 16`, `b & 0x0F` is `b % 16`, and `(b & 0x0E) >> 1` is
  `b % 16 / 2`. The exclusive or inside the CRC-8 is defined bit by bit
  on natural numbers (`Checksum.XorNat`).
- The source reads a frame header in one function. The model splits it
  into `ReadFixedPart`, `ReadEscapesAndChecksum` and `ReadChecksum`, which
  are called one after the other. Their order, their reads and their
  errors are the source's.
- The source reads two bytes as a `u16` and masks it. The model computes the
  word as a natural number and expresses each mask arithmetically:
  - `& 0xFFFC` is the word minus its remainder modulo 4;
  - bit 1 is `(w / 2) % 2`;
  - bit 0 is `w % 2`.
- The source decodes the fixed fields first and then reads the escapes.
  It does this with boolean locals (`read_8bit_bs`, `read_16bit_sr` and so
  on). At most one of them is set per field. The model records the pending
  escape as a value (`BlockSizeField`, `SampleRateField`), which has one
  case per flag.

## Model

| member | source | states |
|---|---|---|
| Errors.FromIoError | src/error.rs:82-86 | converting an I/O error always gives `IoError` wrapping that same error |
| Errors.Eq | src/error.rs:88-109 | equality holds exactly for two equal errors among `InvalidStreamHeader`, `InvalidMetadataBlockType`, `InvalidMetadataBlockLength` and `InvalidVarLengthInt` |
| Errors.EqImpliesEqual | src/error.rs:96-106 | two different variants never compare equal |
| Errors.EqNotReflexive | src/error.rs:101-106 | `MissingFrameSyncCode`, `FrameHeaderCrcMismatch` and an `IoError` are each unequal to themselves, so equality is not reflexive |
| Errors.EqIsPartialEquivalence | src/error.rs:96-107 | equality is symmetric and transitive |
| Errors.EqReflexiveExactlyOnComparable | src/error.rs:96-106 | an error equals itself exactly when it is one of the four recognised variants |
| Input.ByteReader.ReadByte | src/decode.rs:63 | yields the byte at the cursor and advances by one, or at the end fails with the reader's fault and does not move |
| Input.ByteReader.ReadBeU32 | src/lib.rs:70 | yields the big-endian value of the next four bytes and advances by four, or fails with the reader's fault |
| Checksum.Crc8Append | src/decode.rs:34-37 | the CRC-8 can be computed one byte at a time, as the wrapping reader does |
| Checksum.Crc8 | src/decode.rs:179 | the CRC-8 that `crc()` returns, folded from the front one byte at a time; `Crc8Append` proves it extends by one `Update` per byte, and `Crc8DetectsSingleByteChange` that a one-byte change always changes it |
| Checksum.Update | src/decode.rs:179 | folds one byte into the running CRC with eight division steps; `UpdateIsZeroExactly` proves it gives zero exactly when the byte equals the running CRC, and `UpdateInjective` that it is injective in each argument |
| Checksum.UpdateIsZeroExactly | src/decode.rs:179-182 | folding in a byte gives zero exactly when that byte equals the running CRC |
| Checksum.Step | src/decode.rs:179 | one bit of division by x^8 + x^2 + x + 1; its low bit is 1 exactly when a set top bit was reduced, and `StepInjective` and `StepsInjective` prove it and its iterates injective |
| Checksum.Crc8OfCheckedIsZero | src/decode.rs:178-184 | a sequence followed by its own CRC-8 has CRC-8 zero |
| Checksum.UpdateInjective | src/decode.rs:178-184 | a change to either the running CRC or the next byte, but not both, changes the updated CRC |
| Checksum.Crc8DetectsSingleByteChange | src/decode.rs:178-184 | two sequences of equal length that differ in one byte have different CRC-8s |
| Checksum.XorInjective | src/decode.rs:178-184 | with one operand fixed, different second operands give different exclusive ors, on either side |
| Checksum.StepsInjective | src/decode.rs:178-184 | any number of polynomial-division steps maps different bytes to different bytes |
| Checksum.FlipChanges | src/decode.rs:182 | flipping any one of the eight bits of a byte gives a different byte |
| Checksum.Crc8Reader.constructor | src/decode.rs:37 | a new reader has consumed nothing |
| Checksum.Crc8Reader.Crc | src/decode.rs:179 | the accumulator is the CRC-8 of exactly the bytes read through the reader |
| Checksum.Crc8Reader.ReadByte | src/decode.rs:63 | reads one byte from the wrapped reader and keeps the accumulator equal to the CRC-8 of everything consumed |
| Checksum.Crc8Reader.ReadBeU16 | src/decode.rs:40 | yields the big-endian value of the next two bytes and advances by two, or fails with the reader's fault |
| Decode.DecodeBlockSizeCode | src/decode.rs:70-78 | code 0 is `InvalidFrameHeader`; exactly 6 and 7 ask for an 8-bit or 16-bit escape |
| Decode.DecodeSampleRateCode | src/decode.rs:87-106 | code 15 is `InvalidFrameHeader`; 0 means no rate; exactly 1..11 give a rate; 12, 13 and 14 ask for an 8-bit, 16-bit or tens-of-hertz escape |
| Decode.DecodeChannelCode | src/decode.rs:112-120 | codes 0..10 are accepted and 11..15 give `InvalidFrameHeader`; there are 1 to 8 channels; the mode is `Raw` exactly below 8; every stereo mode has 2 channels |
| Decode.DecodeBitsPerSampleCode | src/decode.rs:123-132 | codes 3 and 7 give `InvalidFrameHeader`; 0 means no size; every other code gives one of 8, 12, 16, 20, 24 bits |
| Decode.SyncCodeBits | src/decode.rs:43 | clearing the two low bits of the word leaves a multiple of 4 that is less than 4 below it |
| Decode.ReservedBitSet | src/decode.rs:51 | `w & 0x0002 != 0`: bit 1 of the word, `(w / 2) % 2`, is set |
| Decode.VariableBitSet | src/decode.rs:56 | `w & 0x0001 != 0`: bit 0 of the word is set, which selects variable blocking |
| Decode.HighNibble | src/decode.rs:70 | `b >> 4`: the top four bits of a byte, a value below 16 |
| Decode.LowNibble | src/decode.rs:87 | `b & 0x0F`: the bottom four bits of a byte, a value below 16 |
| Decode.BitsPerSampleBits | src/decode.rs:123 | `(b & 0x0E) >> 1`: bits 3 to 1 of the channel byte, a value below 8 |
| Decode.ParseFixedPart | src/decode.rs:39-60 | the fixed part is accepted only with four bytes, the sync code 0xFFF8 and a clear reserved bit; the last bit of the word sets the blocking strategy; the codes then decide the rest |
| Decode.ParseCodes | src/decode.rs:62-106 | an accepted block-size and sample-rate byte decodes its high nibble as the block-size code and its low nibble as the sample-rate code |
| Decode.ParseChannelByte | src/decode.rs:108-137 | an accepted channel byte decodes its high nibble as the channel code and bits 3..1 as the sample-size code, and has its last bit clear; every rejection is `InvalidFrameHeader` |
| Decode.ParseEscapes | src/decode.rs:150-184 | an accepted tail has the escape bytes after the fixed part, block size first; the header's fields are the escapes' values and the fixed part's; the byte after them is the CRC-8 of everything before it |
| Decode.CheckCrc | src/decode.rs:178-184 | the last step: the byte after the first `n` is compared with their CRC-8; `AcceptedChecksum` proves an accepted header ends in that CRC, and `EscapesCrcMismatch` and `WrongChecksumRejected` that any other byte gives `FrameHeaderCrcMismatch` |
| Decode.ParseFrameHeader | src/decode.rs:33-195 | an accepted header takes 5 to 9 bytes, all within the input |
| Decode.ResolveBlockSize | src/decode.rs:150-163 | the 8-bit escape gives 1..256; the 16-bit escape fails with `InvalidBlockSize` exactly for 0xFFFF and otherwise gives 1..65535; a table size is kept |
| Decode.ResolveSampleRate | src/decode.rs:165-176 | the escapes give a rate below 2^8, below 2^16, or a multiple of ten whose tenth is below 2^16; a table rate is kept |
| Decode.ReadFixedPart | src/decode.rs:39-137 | reads the four fixed bytes through the CRC reader and returns exactly what `ParseFixedPart` gives for the input |
| Decode.ReadBlockSize | src/decode.rs:150-163 | reads the block-size escape bytes and returns `ResolveBlockSize` of them, or the reader's fault when they are missing |
| Decode.ReadSampleRate | src/decode.rs:165-176 | reads the sample-rate escape bytes and returns `ResolveSampleRate` of them, or the reader's fault when they are missing |
| Decode.ReadEscapesAndChecksum | src/decode.rs:150-184 | reads the pending escapes and then the checksum byte, and returns exactly what `ParseEscapes` gives; on success the cursor ends just after the checksum |
| Decode.ReadChecksum | src/decode.rs:178-184 | compares the CRC-8 of everything read so far with the next byte; returns `FrameHeaderCrcMismatch` when they differ, the reader's fault when the byte is missing, and the header otherwise |
| Decode.ReadFrameHeader | src/decode.rs:33-195 | returns exactly the header or error that `ParseFrameHeader` gives for the remaining input, and on success consumes exactly the header's bytes |
| DecodeProperties.BlockSizeTable | src/decode.rs:70-78 | the block-size table value by value: 192, 576·2^(n−2) for 2..5, 256·2^(n−8) for 8..15 |
| DecodeProperties.BlockSizeTableBounds | src/decode.rs:73-77 | every block size from the table lies in 192..32768 |
| DecodeProperties.SampleRateTable | src/decode.rs:89-99 | the eleven sample rates of codes 1..11 |
| DecodeProperties.ChannelTable | src/decode.rs:112-117 | codes n < 8 give n + 1 raw channels; 8, 9 and 10 give the three stereo modes with 2 channels |
| DecodeProperties.BitsPerSampleTable | src/decode.rs:123-129 | codes 1, 2, 4, 5 and 6 give 8, 12, 16, 20 and 24 bits |
| DecodeProperties.SyncCodeChecked | src/decode.rs:40-53 | a wrong sync code gives `MissingFrameSyncCode`; a set reserved bit after a right one gives `InvalidFrameHeader` |
| DecodeProperties.SyncBytes | src/decode.rs:40-60 | an accepted header starts with 0xFF and then 0xF8 (fixed blocking) or 0xF9 (variable blocking) |
| DecodeProperties.ReservedRateOrSizeRejected | src/decode.rs:70-106 | block-size code 0 or sample-rate code 15 gives `InvalidFrameHeader`, whatever follows |
| DecodeProperties.ReservedChannelByteRejected | src/decode.rs:112-137 | a reserved channel code, a reserved sample-size code or a set final bit gives `InvalidFrameHeader`, whatever follows |
| DecodeProperties.BlockSizeEscapeFFFFRejected | src/decode.rs:155-163 | a 16-bit block-size escape of 0xFFFF gives `InvalidBlockSize`, whatever the checksum |
| DecodeProperties.InputErrorsPropagated | src/decode.rs:40-180 | an input error is always the reader's own fault, unchanged, and only happens when fewer than 9 bytes remain |
| DecodeProperties.AcceptedHeaderWellFormed | src/decode.rs:64-176 | every accepted header has block size 1..65535, a sample rate of at most 655350 Hz, 1..8 channels with 2 for stereo modes, and a defined sample size |
| DecodeProperties.BlockSizeBounds | src/decode.rs:150-163 | every block size a code and its escape give lies in 1..65535 |
| DecodeProperties.SampleRateBounds | src/decode.rs:165-176 | every sample rate a code and its escape give is at most 655350 Hz and can be encoded again |
| DecodeProperties.AcceptedHeaderLayout | src/decode.rs:139-184 | an accepted header is 5 bytes plus 0, 1 or 2 block-size escape bytes plus 0, 1 or 2 sample-rate escape bytes, block size first, with nothing for the frame number; each escape's value is the one read; the last byte is the CRC-8 of all bytes before it |
| DecodeProperties.AcceptedHeaderDependsOnlyOnItsBytes | src/decode.rs:33-195 | nothing past an accepted header is looked at |
| DecodeProperties.FixedPartOfPrefix | src/decode.rs:39-137 | an accepted fixed part depends only on the first four bytes |
| DecodeProperties.EscapesOfPrefix | src/decode.rs:150-184 | accepted escapes and checksum depend only on the header's own bytes |
| DecodeProperties.WrongChecksumRejected | src/decode.rs:178-184 | any other value in the checksum byte of an accepted header gives `FrameHeaderCrcMismatch` |
| DecodeProperties.EscapesCrcMismatch | src/decode.rs:178-184 | with the bytes before the checksum unchanged, a different checksum byte gives `FrameHeaderCrcMismatch` |
| DecodeProperties.FlippedChecksumBitRejected | src/decode.rs:178-184 | flipping any bit of the checksum byte gives `FrameHeaderCrcMismatch` |
| DecodeProperties.SingleByteCorruptionDetected | src/decode.rs:178-184 | changing any single header byte before the checksum never yields a header of the same length |
| DecodeProperties.CodedNumberTakenForChecksum | src/decode.rs:139-184 | after an accepted fixed part with no escapes, a one-byte coded number followed by the RFC checksum is rejected with `FrameHeaderCrcMismatch`, unless the number equals the CRC-8 of the fixed bytes; then a 5-byte header is accepted and the RFC checksum byte, which is 0, is left unread |
| DecodeProperties.AcceptedChecksum | src/decode.rs:178-184 | the last byte of an accepted header is the CRC-8 of the bytes before it |
| DecodeProperties.ChecksumGuardsPrefix | src/decode.rs:178-184 | when a byte is the CRC-8 of the bytes before it, changing one of those bytes breaks the match |
| DecodeProperties.BlockSizeRoundTrip | src/decode.rs:70-78 | the code and escape chosen for any block size 1..65535 decode back to that size |
| DecodeProperties.SampleRateRoundTrip | src/decode.rs:87-106 | the code and escape chosen for any encodable sample rate decode back to that rate |
| DecodeProperties.ChannelRoundTrip | src/decode.rs:112-120 | the code chosen for any channel count and mode decodes back to them |
| DecodeProperties.BitsPerSampleRoundTrip | src/decode.rs:123-132 | the code chosen for any sample size decodes back to it |
| DecodeProperties.FixedPartRoundTrip | src/decode.rs:39-137 | the four encoded fixed bytes decode to the header's strategy, channels and sample size, with the escapes it needs pending |
| DecodeProperties.EscapesRoundTrip | src/decode.rs:150-184 | the encoded escapes and checksum decode to the header and end exactly after the checksum |
| DecodeProperties.EncodedLayout | src/decode.rs:139-184 | an encoded header is its fixed bytes, then the block-size escape, then the sample-rate escape, then the CRC-8 of all of them |
| DecodeProperties.RoundTrip | src/decode.rs:33-195 | parsing the encoding of any well-formed header, whatever follows it, gives back that header and consumes exactly its bytes |
| Metadata.MetadataBlockReader.Next | src/lib.rs:89 | hands out the next outcome of the metadata reader, or nothing once all have been handed out |
| Stream.ReadStreamHeader | src/lib.rs:67-73 | reads four bytes and returns exactly what `StreamHeader` gives for the input |
| Stream.StreamHeader | src/lib.rs:67-73 | the stream header is accepted exactly when the input starts with the bytes of "fLaC" |
| Stream.CollectBlocks | src/lib.rs:96-101 | succeeds exactly when every outcome is a block, and then lists them all in order; otherwise returns an error that is the first error among the outcomes |
| Stream.ReadMetadata | src/lib.rs:85-106 | returns exactly `MetadataOutcome` of the metadata outcomes: the first error, `MissingStreamInfoBlock`, or the stream information and the later blocks |
| Stream.MetadataOutcome | src/lib.rs:85-106 | success means the first outcome is the stream information, which is returned, and every later outcome is a block, returned in order; an error is `MissingStreamInfoBlock` or one of the outcomes' errors |
| Stream.Bootstrap | src/lib.rs:79-116 | success means the marker is right and the first outcome is the stream information, which is returned; an error is the reader's fault, `InvalidStreamHeader`, `MissingStreamInfoBlock` or one of the outcomes' errors; `BootstrapSucceedsExactly` proves the converse and that the blocks are all the later outcomes, in order; `BootstrapBadMarker`, `BootstrapFirstBlock` and `BootstrapLaterError` name the error in each failing case |
| Stream.FlacStream.New | src/lib.rs:79-116 | returns exactly the stream information and blocks or the error that `Bootstrap` gives; a bad marker fails before any metadata outcome is requested |
| Stream.ReadRemainingBlocks | src/lib.rs:96-101 | drains the metadata reader and returns exactly `CollectBlocks` of the outcomes not yet handed out |
| Stream.FlacStream.Streaminfo | src/lib.rs:119-121 | returns the stored stream information unchanged |
| Stream.FirstErrorReturned | src/lib.rs:98-101 | the first error among the outcomes is the one returned |
| Stream.HeaderBytesSpellFlac | src/lib.rs:68-69 | the marker value is the ASCII text "fLaC" read big-endian |
| Stream.Be32IsMagicExactly | src/lib.rs:69-71 | four bytes read big-endian give the marker value exactly when they are the bytes of "fLaC" |
| Stream.StreamHeaderAcceptsExactlyMarker | src/lib.rs:67-73 | the stream header is accepted exactly when the input starts with "fLaC"; a short input gives the reader's fault; any other four bytes give `InvalidStreamHeader` |
| Stream.BootstrapSucceedsExactly | src/lib.rs:79-116 | opening succeeds exactly when the marker is right, the first block is the stream information and no later outcome is an error; the info is then the first block's and the blocks are all the later outcomes, in order |
| Stream.BootstrapFirstBlock | src/lib.rs:86-94 | with a right marker, an error as the first outcome is returned unchanged, and a first block that is not the stream information gives `MissingStreamInfoBlock` |
| Stream.BootstrapBadMarker | src/lib.rs:81 | opening an input shorter than four bytes gives the reader's own fault, and an input whose first four bytes are not "fLaC" gives `InvalidStreamHeader`, whatever the metadata outcomes |
| Stream.BootstrapLaterError | src/lib.rs:96-101 | the first error among the later outcomes is returned exactly, and the blocks collected before it are dropped |

## Left out

- The contents of `io::Error` and the real I/O behind `io::Read`. Input is a
  finite byte sequence, and running out of it is the reader's one fault.
  Other faults are passed on the same way, but the model does not say when
  they arise.
- Where the cursor stands after a failed parse. The source does not promise
  it, and the model states it only where the byte readers fix it.
- The `metadata` module. Its code is outside this model.
  - `StreamInfo` and the bodies of the other blocks are opaque types.
  - `MetadataBlockReader` is a finite sequence of outcomes. That sequence is
    not derived from the bytes after the stream marker.
- `Stream.FlacStream.New` requires the metadata reader to yield at least one
  outcome, as the source's `unwrap` does.
- `FlacStream::blocks`, `FrameReader`, and the `subframe` and `sample`
  modules. These are sample decoding, which is not part of this model.
- The `Zero` and `One` numeric traits. They are type plumbing with no
  behaviour to state.
- The frame or sample number. The source reads nothing for it, and the model
  reads nothing for it either.
- Stream.FlacStream.New: leaves the input just after the four marker bytes.
  The source reads the metadata blocks from the same input and leaves it at
  the start of the frames. Here the metadata reader is an abstract sequence of
  outcomes and consumes none of the input's bytes.
- Rust lifetimes and the borrowing of `input`. In the model, the stream
  refers to the same reader object that it was opened on.
- The integer widths of `FrameHeader`. Fields are natural numbers, and
  `AcceptedHeaderWellFormed` proves they fit the source's `u16`, `u32` and
  `u8` fields. No arithmetic in the source can overflow, so there is no
  wrap-around to model.
