/** The byte-oriented input the decoder reads from: a finite sequence of
    bytes with a cursor. Once the bytes run out every read fails with the
    reader's fault, which the callers propagate unchanged. */
module Input {
  import opened Errors

  /** An 8-bit byte (Rust's `u8`), as the number it holds. */
  type Byte = b: nat | b < 0x100

  /** The big-endian 16-bit value of two bytes. */
  function Be16(hi: Byte, lo: Byte): (w: nat)
    ensures w < 0x1_0000
  {
    hi as nat * 0x100 + lo as nat
  }

  /** The big-endian 32-bit value of four bytes. */
  function Be32(s: seq<Byte>): (w: nat)
    requires |s| == 4
    ensures w < 0x1_0000_0000
  {
    s[0] as nat * 0x100_0000 + s[1] as nat * 0x1_0000 + s[2] as nat * 0x100 + s[3] as nat
  }

  class ByteReader {
    /** Every byte the source will ever deliver. */
    const data: seq<Byte>
    /** The error reported by a read past the last byte. */
    const fault: IoFault
    /** How many bytes have been consumed. */
    var pos: nat

    ghost predicate Valid()
      reads this
    {
      pos <= |data|
    }

    /** The bytes not yet consumed. */
    function Remaining(): seq<Byte>
      reads this
      requires Valid()
    {
      data[pos..]
    }

    constructor (data: seq<Byte>, fault: IoFault)
      ensures Valid() && this.data == data && this.fault == fault && pos == 0
    {
      this.data := data;
      this.fault := fault;
      pos := 0;
    }

    method ReadByte() returns (r: Result<Byte>)
      requires Valid()
      modifies this
      ensures Valid()
      ensures old(pos) < |data| ==> r == Ok(data[old(pos)]) && pos == old(pos) + 1
      ensures old(pos) == |data| ==> r == Err(IoError(fault)) && pos == old(pos)
    {
      if pos < |data| {
        r := Ok(data[pos]);
        pos := pos + 1;
      } else {
        r := Err(IoError(fault));
      }
    }

    /** Reads four bytes as one big-endian number; on failure the bytes that
        were there are consumed. */
    method ReadBeU32() returns (r: Result<nat>)
      requires Valid()
      modifies this
      ensures Valid() && old(pos) <= pos
      ensures old(pos) + 4 <= |data| ==>
                r == Ok(Be32(data[old(pos)..old(pos) + 4])) && pos == old(pos) + 4
      ensures old(pos) + 4 > |data| ==> r == Err(IoError(fault)) && pos == |data|
    {
      var b0 :- ReadByte();
      var b1 :- ReadByte();
      var b2 :- ReadByte();
      var b3 :- ReadByte();
      assert data[old(pos)..old(pos) + 4] == [b0, b1, b2, b3];
      r := Ok(Be32([b0, b1, b2, b3]));
    }
  }
}
