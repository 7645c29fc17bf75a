/** Opening a FLAC stream: the four-byte stream marker, then the metadata
    blocks, of which the first must be the stream information. */
module Stream {
  import opened Errors
  import opened Input
  import opened Metadata

  /** The stream marker "fLaC" read as a big-endian 32-bit number. */
  const HeaderMagic: nat := 0x664C_6143

  /** The stream marker byte by byte. */
  const HeaderBytes: seq<Byte> := [0x66, 0x4C, 0x61, 0x43]

  // ---------------------------------------------------------------------
  // Specification
  // ---------------------------------------------------------------------

  /** The outcome of checking the stream marker at the front of `s`, when
      reading past the end of `s` fails with `fault`. */
  function StreamHeader(s: seq<Byte>, fault: IoFault): (r: Result<()>)
    ensures r.Ok? <==> |s| >= 4 && s[..4] == HeaderBytes
  {
    if |s| < 4 then Err(IoError(fault))
    else
      Be32IsMagicExactly(s[..4]);
      if Be32(s[..4]) != HeaderMagic then Err(InvalidStreamHeader)
      else Ok(())
  }

  /** Every block of `rest`, in order, or the first error among them. */
  function CollectBlocks(rest: seq<Result<MetadataBlock>>): (r: Result<seq<MetadataBlock>>)
    ensures r.Ok? <==> forall i | 0 <= i < |rest| :: rest[i].Ok?
    ensures r.Ok? ==> |r.value| == |rest| && forall i | 0 <= i < |rest| :: r.value[i] == rest[i].value
    ensures r.Err? ==> exists k | 0 <= k < |rest| :: rest[k] == Err(r.error)
                                                  && forall j | 0 <= j < k :: rest[j].Ok?
  {
    if rest == [] then Ok([])
    else
      var b :- rest[0];
      var bs :- CollectBlocks(rest[1..]);
      Ok([b] + bs)
  }

  /** What opening a stream yields: the stream information and the other
      metadata blocks, from the bytes `s` in front of the reader and the
      outcomes `elements` of its metadata block reader. */
  function Bootstrap(s: seq<Byte>, fault: IoFault, elements: seq<Result<MetadataBlock>>)
    : (r: Result<(StreamInfo, seq<MetadataBlock>)>)
    requires |elements| > 0
    ensures r.Ok? ==> |s| >= 4 && s[..4] == HeaderBytes && elements[0].Ok?
                      && elements[0].value.StreamInfoBlock? && r.value.0 == elements[0].value.info
    ensures r.Err? ==> r.error == IoError(fault) || r.error == InvalidStreamHeader
                       || r.error == MissingStreamInfoBlock
                       || exists k | 0 <= k < |elements| :: elements[k] == Err(r.error)
  {
    var _ :- StreamHeader(s, fault);
    MetadataOutcome(elements)
  }

  /** The stream information from the first metadata outcome and the blocks
      of all the later ones. */
  function MetadataOutcome(elements: seq<Result<MetadataBlock>>)
    : (r: Result<(StreamInfo, seq<MetadataBlock>)>)
    requires |elements| > 0
    ensures r.Ok? ==> elements[0].Ok? && elements[0].value.StreamInfoBlock?
                      && r.value.0 == elements[0].value.info
                      && |r.value.1| == |elements| - 1
                      && forall i | 1 <= i < |elements| :: elements[i].Ok? && r.value.1[i - 1] == elements[i].value
    ensures r.Err? ==> r.error == MissingStreamInfoBlock
                       || exists k | 0 <= k < |elements| :: elements[k] == Err(r.error)
  {
    var first :- elements[0];
    match first
    case OtherBlock(_) => Err(MissingStreamInfoBlock)
    case StreamInfoBlock(info) =>
      var rest := elements[1..];
      assert forall i | 1 <= i < |elements| :: elements[i] == rest[i - 1];
      var blocks :- CollectBlocks(rest);
      Ok((info, blocks))
  }

  // ---------------------------------------------------------------------
  // The reader
  // ---------------------------------------------------------------------

  /** Reads and checks the stream marker. */
  method ReadStreamHeader(input: ByteReader) returns (r: Result<()>)
    requires input.Valid()
    modifies input
    ensures input.Valid()
    ensures r == StreamHeader(old(input.Remaining()), input.fault)
    ensures r.Ok? ==> input.pos == old(input.pos) + 4
  {
    ghost var s := input.Remaining();
    var header :- input.ReadBeU32();
    assert s[..4] == input.data[old(input.pos)..old(input.pos) + 4];
    if header != HeaderMagic {
      return Err(InvalidStreamHeader);
    }
    r := Ok(());
  }

  /** An opened stream: its stream information, its other metadata blocks
      and the input it was opened on, from which frames are read next. */
  class FlacStream {
    const streaminfo: StreamInfo
    const metadataBlocks: seq<MetadataBlock>
    const input: ByteReader

    constructor (streaminfo: StreamInfo, metadataBlocks: seq<MetadataBlock>, input: ByteReader)
      ensures this.streaminfo == streaminfo && this.metadataBlocks == metadataBlocks
      ensures this.input == input
    {
      this.streaminfo := streaminfo;
      this.metadataBlocks := metadataBlocks;
      this.input := input;
    }

    /** The stream information of the stream. */
    function Streaminfo(): (info: StreamInfo)
      ensures info == streaminfo
    {
      streaminfo
    }

    /** Opens a stream: checks the marker, takes the stream information from
        the first metadata block and collects all the others, stopping at the
        first error. The metadata block reader yields at least one outcome. */
    static method New(input: ByteReader, metadataIter: MetadataBlockReader)
      returns (r: Result<FlacStream>)
      requires input.Valid() && metadataIter.Valid()
      requires metadataIter.next == 0 && |metadataIter.elements| > 0
      modifies input, metadataIter
      ensures input.Valid() && metadataIter.Valid()
      ensures var spec := Bootstrap(old(input.Remaining()), input.fault, metadataIter.elements);
              (r.Err? <==> spec.Err?)
              && (r.Err? ==> r.error == spec.error)
              && (r.Ok? ==> fresh(r.value) && r.value.input == input
                            && r.value.streaminfo == spec.value.0
                            && r.value.metadataBlocks == spec.value.1
                            && input.pos == old(input.pos) + 4)
      ensures StreamHeader(old(input.Remaining()), input.fault).Err? ==> metadataIter.next == 0
    {
      var _ :- ReadStreamHeader(input);
      var metadata :- ReadMetadata(metadataIter);
      var stream := new FlacStream(metadata.0, metadata.1, input);
      r := Ok(stream);
    }
  }

  /** Reads the metadata blocks: the first must hold the stream information,
      and all the others are kept in order. */
  method ReadMetadata(metadataIter: MetadataBlockReader)
    returns (r: Result<(StreamInfo, seq<MetadataBlock>)>)
    requires metadataIter.Valid()
    requires metadataIter.next == 0 && |metadataIter.elements| > 0
    modifies metadataIter
    ensures metadataIter.Valid()
    ensures r == MetadataOutcome(metadataIter.elements)
  {
    var firstItem := metadataIter.Next();
    var first :- firstItem.value;
    match first {
      case OtherBlock(_) =>
        return Err(MissingStreamInfoBlock);
      case StreamInfoBlock(info) =>
        var blocks :- ReadRemainingBlocks(metadataIter);
        r := Ok((info, blocks));
    }
  }

  /** Drains the metadata block reader, keeping every block in order and
      stopping at the first error. */
  method ReadRemainingBlocks(metadataIter: MetadataBlockReader)
    returns (r: Result<seq<MetadataBlock>>)
    requires metadataIter.Valid()
    modifies metadataIter
    ensures metadataIter.Valid()
    ensures r == CollectBlocks(metadataIter.elements[old(metadataIter.next)..])
  {
    ghost var start := metadataIter.next;
    ghost var elements := metadataIter.elements;
    var blocks: seq<MetadataBlock> := [];
    var item := metadataIter.Next();
    while item.Some?
      invariant metadataIter.Valid() && start <= metadataIter.next
      invariant item.Some? ==> start < metadataIter.next && item.value == elements[metadataIter.next - 1]
      invariant item.None? ==> metadataIter.next == |elements|
      invariant var done := if item.Some? then metadataIter.next - 1 else metadataIter.next;
                |blocks| == done - start
                && forall i | start <= i < done :: elements[i].Ok? && blocks[i - start] == elements[i].value
      decreases |elements| - metadataIter.next, item.Some?
    {
      match item.value {
        case Err(e) =>
          FirstErrorReturned(elements[start..], metadataIter.next - 1 - start);
          return Err(e);
        case Ok(b) =>
          blocks := blocks + [b];
      }
      item := metadataIter.Next();
    }
    var rest := elements[start..];
    assert forall i | 0 <= i < |rest| :: rest[i] == elements[start + i];
    assert CollectBlocks(rest).Ok?;
    assert CollectBlocks(rest).value == blocks;
    r := Ok(blocks);
  }

  // ---------------------------------------------------------------------
  // Properties
  // ---------------------------------------------------------------------

  /** The first error among the outcomes is the one reported. */
  lemma FirstErrorReturned(rest: seq<Result<MetadataBlock>>, k: nat)
    requires k < |rest| && rest[k].Err?
    requires forall j | 0 <= j < k :: rest[j].Ok?
    ensures CollectBlocks(rest) == Err(rest[k].error)
  {
    var r := CollectBlocks(rest);
    var k' :| 0 <= k' < |rest| && rest[k'] == Err(r.error) && forall j | 0 <= j < k' :: rest[j].Ok?;
  }

  /** The marker is the ASCII text "fLaC", and its bytes read big-endian are
      the 32-bit marker value. */
  lemma HeaderBytesSpellFlac()
    ensures |HeaderBytes| == 4 && Be32(HeaderBytes) == HeaderMagic
    ensures forall i | 0 <= i < 4 :: HeaderBytes[i] as int == "fLaC"[i] as int
  {
  }

  /** Four bytes are the marker value exactly when they are the marker
      bytes. */
  lemma Be32IsMagicExactly(b: seq<Byte>)
    requires |b| == 4
    ensures Be32(b) == HeaderMagic <==> b == HeaderBytes
  {
    if Be32(b) == HeaderMagic {
      var w := Be32(b);
      assert b[3] == w % 0x100;
      assert b[2] == w / 0x100 % 0x100;
      assert b[1] == w / 0x1_0000 % 0x100;
      assert b[0] == w / 0x100_0000;
      assert b == [b[0], b[1], b[2], b[3]];
    }
  }

  /** The stream header is accepted exactly when the input starts with
      "fLaC"; a shorter input fails with the reader's own error and any other
      four bytes with `InvalidStreamHeader`. */
  lemma StreamHeaderAcceptsExactlyMarker(s: seq<Byte>, fault: IoFault)
    ensures StreamHeader(s, fault).Ok? <==> |s| >= 4 && s[..4] == HeaderBytes
    ensures |s| < 4 ==> StreamHeader(s, fault) == Err(IoError(fault))
    ensures |s| >= 4 && s[..4] != HeaderBytes ==> StreamHeader(s, fault) == Err(InvalidStreamHeader)
  {
    if |s| >= 4 {
      Be32IsMagicExactly(s[..4]);
    }
  }

  /** Opening succeeds exactly when the marker is right, the first block is
      the stream information and no later outcome is an error; the stream
      information is then the first block's and the other blocks are all the
      later ones, in order. */
  lemma BootstrapSucceedsExactly(s: seq<Byte>, fault: IoFault, elements: seq<Result<MetadataBlock>>)
    requires |elements| > 0
    ensures Bootstrap(s, fault, elements).Ok? <==>
              |s| >= 4 && s[..4] == HeaderBytes
              && elements[0].Ok? && elements[0].value.StreamInfoBlock?
              && forall i | 1 <= i < |elements| :: elements[i].Ok?
    ensures Bootstrap(s, fault, elements).Ok? ==>
              var (info, blocks) := Bootstrap(s, fault, elements).value;
              info == elements[0].value.info && |blocks| == |elements| - 1
              && forall i | 1 <= i < |elements| :: blocks[i - 1] == elements[i].value
  {
    StreamHeaderAcceptsExactlyMarker(s, fault);
    var rest := elements[1..];
    assert forall i | 1 <= i < |elements| :: elements[i] == rest[i - 1];
  }

  /** Without the marker, opening fails before any metadata matters: a short
      input gives the reader's own fault, and any other four bytes give
      `InvalidStreamHeader`. */
  lemma BootstrapBadMarker(s: seq<Byte>, fault: IoFault, elements: seq<Result<MetadataBlock>>)
    requires |elements| > 0
    ensures |s| < 4 ==> Bootstrap(s, fault, elements) == Err(IoError(fault))
    ensures |s| >= 4 && s[..4] != HeaderBytes ==> Bootstrap(s, fault, elements) == Err(InvalidStreamHeader)
  {
    StreamHeaderAcceptsExactlyMarker(s, fault);
  }

  /** With a good marker, an error as the first outcome is returned as it is,
      and a first block that is not the stream information gives
      `MissingStreamInfoBlock`. */
  lemma BootstrapFirstBlock(s: seq<Byte>, fault: IoFault, elements: seq<Result<MetadataBlock>>)
    requires |elements| > 0 && |s| >= 4 && s[..4] == HeaderBytes
    ensures elements[0].Err? ==> Bootstrap(s, fault, elements) == Err(elements[0].error)
    ensures elements[0].Ok? && elements[0].value.OtherBlock? ==>
              Bootstrap(s, fault, elements) == Err(MissingStreamInfoBlock)
  {
    StreamHeaderAcceptsExactlyMarker(s, fault);
  }

  /** When the opening is otherwise good, the first error among the later
      outcomes is returned exactly, and the blocks before it are dropped. */
  lemma BootstrapLaterError(s: seq<Byte>, fault: IoFault, elements: seq<Result<MetadataBlock>>,
                            k: nat)
    requires |s| >= 4 && s[..4] == HeaderBytes
    requires 1 <= k < |elements| && elements[k].Err?
    requires elements[0].Ok? && elements[0].value.StreamInfoBlock?
    requires forall j | 1 <= j < k :: elements[j].Ok?
    ensures Bootstrap(s, fault, elements) == Err(elements[k].error)
  {
    StreamHeaderAcceptsExactlyMarker(s, fault);
    var rest := elements[1..];
    assert forall j | 0 <= j < k - 1 :: rest[j] == elements[j + 1];
    FirstErrorReturned(rest, k - 1);
  }
}
