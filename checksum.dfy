/** The CRC-8 that guards every FLAC frame header (section 9.1.8 of RFC 9639:
    polynomial x^8 + x^2 + x + 1, initial value 0, bits taken most
    significant first, no final xor), and the reader that computes it over
    every byte passed through it. */
module Checksum {
  import opened Errors
  import opened Input

  /** Bitwise exclusive or of two natural numbers, lowest bit first. */
  function XorNat(a: nat, b: nat): nat
    decreases a + b
  {
    if a == 0 && b == 0 then 0
    else (if a % 2 == b % 2 then 0 else 1) + 2 * XorNat(a / 2, b / 2)
  }

  /** The exclusive or of numbers below a power of two stays below it. */
  lemma {:induction false} XorNatBelow(a: nat, b: nat, m: nat)
    requires a < m && b < m && m in {1, 2, 4, 8, 16, 32, 64, 128, 256}
    ensures XorNat(a, b) < m
    decreases a + b
  {
    if a != 0 || b != 0 {
      XorNatBelow(a / 2, b / 2, m / 2);
    }
  }

  /** The exclusive or of two bytes (Rust's `^` on `u8`). */
  function Xor(a: Byte, b: Byte): Byte {
    XorNatBelow(a, b, 0x100);
    XorNat(a, b)
  }

  /** The lowest bit of an exclusive or, and the rest of it. */
  lemma XorNatStep(a: nat, b: nat)
    ensures XorNat(a, b) % 2 == (if a % 2 == b % 2 then 0 else 1)
    ensures XorNat(a, b) / 2 == XorNat(a / 2, b / 2)
  {
  }

  lemma {:induction false} XorNatInjective(a: nat, b: nat, d: nat)
    requires XorNat(a, b) == XorNat(a, d)
    ensures b == d
    decreases b + d
  {
    if b != 0 || d != 0 {
      XorNatStep(a, b);
      XorNatStep(a, d);
      XorNatInjective(a / 2, b / 2, d / 2);
    }
  }

  lemma {:induction false} XorNatCommutes(a: nat, b: nat)
    ensures XorNat(a, b) == XorNat(b, a)
    decreases a + b
  {
    if a != 0 || b != 0 {
      XorNatCommutes(a / 2, b / 2);
    }
  }

  lemma {:induction false} XorNatZero(a: nat)
    ensures XorNat(a, 0) == a
    decreases a
  {
    if a != 0 {
      XorNatZero(a / 2);
    }
  }

  lemma {:induction false} XorNatSelf(a: nat)
    ensures XorNat(a, a) == 0
    decreases a
  {
    if a != 0 {
      XorNatSelf(a / 2);
    }
  }

  /** `Xor` is injective in each argument when the other is fixed. */
  lemma XorInjective(c: Byte, b: Byte, d: Byte)
    requires b != d
    ensures Xor(c, b) != Xor(c, d) && Xor(b, c) != Xor(d, c)
  {
    if XorNat(c, b) == XorNat(c, d) { XorNatInjective(c, b, d); }
    XorNatCommutes(b, c);
    XorNatCommutes(d, c);
  }

  /** The generator polynomial without its x^8 term. */
  const Polynomial: Byte := 0x07

  /** One bit of polynomial division: shift left, and reduce when a one
      falls off the top. The low bit of the result records whether it did. */
  function Step(c: Byte): (r: Byte)
    ensures r % 2 == (if c < 0x80 then 0 else 1)
  {
    if c < 0x80 then 2 * c
    else
      XorNatStep(2 * c - 0x100, Polynomial);
      Xor(2 * c - 0x100, Polynomial)
  }

  lemma StepInjective(x: Byte, y: Byte)
    requires x != y
    ensures Step(x) != Step(y)
  {
    if x >= 0x80 && y >= 0x80 {
      XorInjective(Polynomial, 2 * x - 0x100, 2 * y - 0x100);
    }
  }

  /** `k` steps of polynomial division. */
  function Steps(c: Byte, k: nat): Byte
    decreases k
  {
    if k == 0 then c else Steps(Step(c), k - 1)
  }

  lemma {:induction false} StepsInjective(x: Byte, y: Byte, k: nat)
    requires x != y
    ensures Steps(x, k) != Steps(y, k)
    decreases k
  {
    if k > 0 {
      StepInjective(x, y);
      StepsInjective(Step(x), Step(y), k - 1);
    }
  }

  /** Folds one more byte into the running CRC: one step per bit. */
  function Update(crc: Byte, b: Byte): Byte {
    Steps(Xor(crc, b), 8)
  }

  /** An update gives zero exactly when the byte equals the running CRC. */
  lemma UpdateIsZeroExactly(crc: Byte, b: Byte)
    ensures Update(crc, b) == 0 <==> b == crc
  {
    XorNatSelf(crc);
    assert Steps(0, 8) == 0;
    if b != crc {
      XorInjective(crc, b, crc);
      StepsInjective(Xor(crc, b), 0, 8);
    }
  }

  /** The CRC-8 of a byte sequence, accumulated from the front. */
  function Crc8(s: seq<Byte>): Byte
    decreases |s|
  {
    if s == [] then 0 else Update(Crc8(s[..|s| - 1]), s[|s| - 1])
  }

  lemma Crc8Last(s: seq<Byte>)
    requires |s| > 0
    ensures Crc8(s) == Update(Crc8(s[..|s| - 1]), s[|s| - 1])
  {
  }

  /** The CRC can be computed incrementally, one byte at a time. */
  lemma Crc8Append(s: seq<Byte>, b: Byte)
    ensures Crc8(s + [b]) == Update(Crc8(s), b)
  {
    assert (s + [b])[..|s|] == s;
  }

  /** Appending a sequence's own CRC makes the CRC of the whole zero. */
  lemma Crc8OfCheckedIsZero(s: seq<Byte>)
    ensures Crc8(s + [Crc8(s)]) == 0
  {
    Crc8Append(s, Crc8(s));
    UpdateIsZeroExactly(Crc8(s), Crc8(s));
  }

  /** `Update` is injective in each argument when the other is fixed. */
  lemma UpdateInjective(c: Byte, d: Byte, b: Byte, e: Byte)
    requires (c == d && b != e) || (c != d && b == e)
    ensures Update(c, b) != Update(d, e)
  {
    if c == d { XorInjective(c, b, e); } else { XorInjective(b, c, d); }
    StepsInjective(Xor(c, b), Xor(d, e), 8);
  }

  /** The byte with only bit `k` set (`1 << k`). */
  function Bit(k: nat): (b: Byte)
    requires k < 8
    ensures b != 0
  {
    match k
    case 0 => 0x01 case 1 => 0x02 case 2 => 0x04 case 3 => 0x08
    case 4 => 0x10 case 5 => 0x20 case 6 => 0x40 case _ => 0x80
  }

  /** Flipping a bit changes a byte. */
  lemma FlipChanges(b: Byte, bit: nat)
    requires bit < 8
    ensures Xor(b, Bit(bit)) != b
  {
    XorNatZero(b);
    XorInjective(b, Bit(bit), 0);
  }

  /** Two sequences of equal length that differ in exactly one byte have
      different CRCs: a corruption of any single byte of a header is always
      detected. */
  lemma {:induction false} Crc8DetectsSingleByteChange(s: seq<Byte>, t: seq<Byte>, k: nat)
    requires |s| == |t| && k < |s| && s[k] != t[k]
    requires forall i :: 0 <= i < |s| && i != k ==> s[i] == t[i]
    ensures Crc8(s) != Crc8(t)
    decreases |s|
  {
    var n := |s| - 1;
    var s', t' := s[..n], t[..n];
    Crc8Last(s);
    Crc8Last(t);
    if k == n {
      assert s' == t';
      UpdateInjective(Crc8(s'), Crc8(t'), s[n], t[n]);
    } else {
      Crc8DetectsSingleByteChange(s', t', k);
      UpdateInjective(Crc8(s'), Crc8(t'), s[n], t[n]);
    }
  }

  /** Wraps a `ByteReader` and keeps the CRC-8 of every byte read through it
      since it was created. */
  class Crc8Reader {
    const inner: ByteReader
    /** Where `inner` stood when this reader was created. */
    const start: nat
    var crc: Byte

    ghost predicate Valid()
      reads this, inner
    {
      inner.Valid() && start <= inner.pos && crc == Crc8(inner.data[start..inner.pos])
    }

    /** The bytes read through this reader so far. */
    ghost function Consumed(): seq<Byte>
      reads this, inner
      requires Valid()
    {
      inner.data[start..inner.pos]
    }

    constructor (inner: ByteReader)
      requires inner.Valid()
      ensures Valid() && this.inner == inner && start == inner.pos && Consumed() == []
    {
      this.inner := inner;
      start := inner.pos;
      crc := 0;
    }

    /** The checksum of everything read so far; reads nothing. */
    function Crc(): (c: Byte)
      reads this, inner
      requires Valid()
      ensures c == Crc8(Consumed())
    {
      crc
    }

    method ReadByte() returns (r: Result<Byte>)
      requires Valid()
      modifies this, inner
      ensures Valid()
      ensures old(inner.pos) < |inner.data| ==>
                r == Ok(inner.data[old(inner.pos)]) && inner.pos == old(inner.pos) + 1
      ensures old(inner.pos) == |inner.data| ==>
                r == Err(IoError(inner.fault)) && inner.pos == old(inner.pos)
    {
      r := inner.ReadByte();
      if r.Ok? {
        assert inner.data[start..inner.pos] == inner.data[start..inner.pos - 1] + [r.value];
        Crc8Append(inner.data[start..inner.pos - 1], r.value);
        crc := Update(crc, r.value);
      }
    }

    /** Reads two bytes as one big-endian number; on failure a byte that was
        there is consumed. */
    method ReadBeU16() returns (r: Result<nat>)
      requires Valid()
      modifies this, inner
      ensures Valid() && old(inner.pos) <= inner.pos
      ensures old(inner.pos) + 2 <= |inner.data| ==>
                r == Ok(Be16(inner.data[old(inner.pos)], inner.data[old(inner.pos) + 1]))
                && inner.pos == old(inner.pos) + 2
      ensures old(inner.pos) + 2 > |inner.data| ==>
                r == Err(IoError(inner.fault)) && inner.pos == |inner.data|
    {
      var hi :- ReadByte();
      var lo :- ReadByte();
      r := Ok(Be16(hi, lo));
    }
  }
}
