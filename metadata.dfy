/** The metadata blocks that follow the stream header. Their contents are not
    part of this model: a block is either the stream information, which must
    come first, or some other block, and the reader that produces them is a
    finite sequence of outcomes handed out one at a time. */
module Metadata {
  import opened Errors

  /** The contents of a STREAMINFO block (section 8.2 of RFC 9639). */
  type StreamInfo

  /** The contents of any other metadata block. */
  type BlockBody

  datatype MetadataBlock = StreamInfoBlock(info: StreamInfo) | OtherBlock(body: BlockBody)

  /** An iterator over the metadata blocks of a stream. `elements` is every
      outcome it will yield, an error included, in order. */
  class MetadataBlockReader {
    const elements: seq<Result<MetadataBlock>>
    /** How many outcomes have been handed out. */
    var next: nat

    ghost predicate Valid()
      reads this
    {
      next <= |elements|
    }

    constructor (elements: seq<Result<MetadataBlock>>)
      ensures Valid() && this.elements == elements && next == 0
    {
      this.elements := elements;
      next := 0;
    }

    /** The next outcome, or `None` once all have been handed out. */
    method Next() returns (r: Option<Result<MetadataBlock>>)
      requires Valid()
      modifies this
      ensures Valid()
      ensures old(next) < |elements| ==> r == Some(elements[old(next)]) && next == old(next) + 1
      ensures old(next) == |elements| ==> r == None && next == old(next)
    {
      if next < |elements| {
        r := Some(elements[next]);
        next := next + 1;
      } else {
        r := None;
      }
    }
  }
}
