/**
 Strings of bits: bit 0 is the most significant bit of the first byte, and
 behind the last byte there are zeros.
 */
module BitStrings {

  import opened Basics

  type Bytes = seq<Byte>

  /** The byte with only bit i set, counted from the left. */
  function Mask(i: nat): Byte
    requires i < 8
  {
    match i
    case 0 => 128
    case 1 => 64
    case 2 => 32
    case 3 => 16
    case 4 => 8
    case 5 => 4
    case 6 => 2
    case _ => 1
  }

  lemma MaskIsShift(i: nat)
    requires i < 8
    ensures Mask(i) == 128 >> i
  {
  }

  predicate BitIn(b: Byte, i: nat)
    requires i < 8
  {
    b & Mask(i) != 0
  }

  function Pad(s: Bytes, i: nat): Byte {
    if i < |s| then s[i] else 0
  }

  /** Bit k of the zero-padded string. */
  predicate BitAt(s: Bytes, k: nat) {
    BitIn(Pad(s, k / 8), k % 8)
  }

  function One(b: bool): nat {
    if b then 1 else 0
  }

  /** The number of bits of s that are set, counted bit by bit. */
  function Population(s: Bytes, n: nat): nat {
    if n == 0 then 0 else Population(s, n - 1) + One(BitAt(s, n - 1))
  }

  lemma ByteFromBits(b: Byte, v: bool)
    requires forall i :: 0 <= i < 8 ==> BitIn(b, i) == v
    ensures b == if v then 255 else 0
  {
    assert BitIn(b, 0) == v && BitIn(b, 1) == v && BitIn(b, 2) == v && BitIn(b, 3) == v;
    assert BitIn(b, 4) == v && BitIn(b, 5) == v && BitIn(b, 6) == v && BitIn(b, 7) == v;
  }

  lemma BitsOfConstant(i: nat)
    requires i < 8
    ensures !BitIn(0, i) && BitIn(255, i)
  {
  }
}
