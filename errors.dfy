/** The error type and the `Result` wrapper shared by the stream bootstrap
    and the frame header parser, with the deliberately partial equality the
    library defines on errors. */
module Errors {

  /** What the underlying reader reports when it cannot deliver a byte. The
      contents of a real I/O error are not modelled; only its identity. */
  datatype IoFault = UnexpectedEof | OsError(code: int)

  /** Every way opening a stream or reading its frames can fail. */
  datatype Error =
    | IoError(fault: IoFault)
    | InvalidStreamHeader
    | InvalidMetadataBlockType
    | InvalidMetadataBlockLength
    | InconsistentBounds
    | InvalidBlockSize
    | InvalidSampleRate
    | MissingStreamInfoBlock
    | MissingFrameSyncCode
    | InvalidFrameHeader
    | InvalidVarLengthInt
    | FrameHeaderCrcMismatch
    | InvalidSubframeHeader
    | InvalidSubframe
    | InvalidResidual
    | InvalidBitsPerSample
    | InvalidRiceCode
    | InvalidSideSample
    | InvalidFixedSample
    | InvalidLpcSample
    | SampleTooWide

  /** Either a value on success or an `Error`; usable with `:-` the way the
      library uses `try!`. */
  datatype Result<+T> = Ok(value: T) | Err(error: Error) {
    predicate IsFailure() { Err? }

    function PropagateFailure<U>(): Result<U>
      requires Err?
    {
      Err(error)
    }

    function Extract(): T
      requires Ok?
    {
      value
    }
  }

  datatype Option<+T> = None | Some(value: T)

  /** Conversion of an I/O error into a decoding error. */
  function FromIoError(fault: IoFault): (e: Error)
    ensures e.IoError? && e.fault == fault
  {
    IoError(fault)
  }

  /** The four variants that the library's equality recognises. */
  predicate Comparable(e: Error) {
    e.InvalidStreamHeader? || e.InvalidMetadataBlockType?
    || e.InvalidMetadataBlockLength? || e.InvalidVarLengthInt?
  }

  /** The library's `PartialEq` on errors: true only for a pair of equal
      variants among four; every other pair, including every other pair of
      equal variants, compares unequal. */
  function Eq(a: Error, b: Error): (r: bool)
    ensures r <==> a == b && Comparable(a)
  {
    match (a, b)
    case (InvalidStreamHeader, InvalidStreamHeader) => true
    case (InvalidMetadataBlockType, InvalidMetadataBlockType) => true
    case (InvalidMetadataBlockLength, InvalidMetadataBlockLength) => true
    case (InvalidVarLengthInt, InvalidVarLengthInt) => true
    case _ => false
  }

  /** Two different errors never compare equal. */
  lemma EqImpliesEqual(a: Error, b: Error)
    requires Eq(a, b)
    ensures a == b
  {
  }

  /** Equality is not reflexive: most variants are unequal to themselves. */
  lemma EqNotReflexive()
    ensures !Eq(MissingFrameSyncCode, MissingFrameSyncCode)
    ensures !Eq(FrameHeaderCrcMismatch, FrameHeaderCrcMismatch)
    ensures !Eq(IoError(UnexpectedEof), IoError(UnexpectedEof))
    ensures exists e :: !Eq(e, e)
  {
    assert !Eq(MissingFrameSyncCode, MissingFrameSyncCode);
  }

  /** Equality is symmetric and transitive: a partial equivalence relation. */
  lemma EqIsPartialEquivalence(a: Error, b: Error, c: Error)
    ensures Eq(a, b) == Eq(b, a)
    ensures Eq(a, b) && Eq(b, c) ==> Eq(a, c)
  {
  }

  /** Equality holds of exactly the four recognised variants compared with
      themselves. */
  lemma EqReflexiveExactlyOnComparable(e: Error)
    ensures Eq(e, e) <==> Comparable(e)
  {
  }
}
