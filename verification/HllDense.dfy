/**
 The dense HyperLogLog encoding: 16384 registers of 6 bits packed into 12288
 bytes, least significant bits first, followed by the terminator byte that the
 access macros of hyperloglog.c may touch.
 */
module HllDense {

  import opened Basics

  const REGISTERS: nat := 16384
  const DENSE_BYTES: nat := 12288

  type Registers = r: seq<Byte> | |r| == REGISTERS witness seq(REGISTERS, _ => 0)

  /** The packed bytes with the string terminator after them. */
  type Packed = p: seq<Byte> | |p| == DENSE_BYTES + 1 witness seq(DENSE_BYTES + 1, _ => 0)

  predicate IsOffset(fb: nat) {
    fb == 0 || fb == 2 || fb == 4 || fb == 6
  }

  /** The expression of HLL_DENSE_GET_REGISTER on two neighbouring bytes. */
  function ReadBits(b0: Byte, b1: Byte, fb: nat): Byte
    requires IsOffset(fb)
  {
    ((((b0 as bv16) >> fb) | ((b1 as bv16) << (8 - fb))) & 63) as bv8
  }

  /** What HLL_DENSE_SET_REGISTER stores in the first of two neighbouring bytes. */
  function WriteLow(b0: Byte, fb: nat, v: Byte): Byte
    requires IsOffset(fb)
  {
    (b0 & !((63 as bv8) << fb)) | (v << fb)
  }

  /** What HLL_DENSE_SET_REGISTER stores in the second of two neighbouring bytes. */
  function WriteHigh(b1: Byte, fb: nat, v: Byte): Byte
    requires IsOffset(fb)
  {
    (b1 & !((63 as bv8) >> (8 - fb))) | (v >> (8 - fb))
  }

  lemma Position(i: nat)
    requires i < REGISTERS
    ensures IsOffset(i * 6 % 8) && i * 6 / 8 < DENSE_BYTES
    ensures i * 6 / 8 == i / 4 * 3 + (if i % 4 == 0 then 0 else i % 4 - 1)
    ensures i * 6 % 8 == [0, 6, 4, 2][i % 4]
  {
  }

  function GetRegister(p: Packed, i: nat): Byte
    requires i < REGISTERS
  {
    Position(i);
    ReadBits(p[i * 6 / 8], p[i * 6 / 8 + 1], i * 6 % 8)
  }

  function SetRegister(p: Packed, i: nat, v: Byte): Packed
    requires i < REGISTERS
  {
    Position(i);
    var b, fb := i * 6 / 8, i * 6 % 8;
    var q := p[b := WriteLow(p[b], fb, v)];
    q[b + 1 := WriteHigh(q[b + 1], fb, v)]
  }

  function Unpack(p: Packed): (r: Registers)
    ensures forall i :: 0 <= i < REGISTERS ==> r[i] == GetRegister(p, i)
  {
    seq(REGISTERS, i requires 0 <= i < REGISTERS => GetRegister(p, i))
  }

  // ----- bit facts -----

  lemma ReadWritten(b0: Byte, b1: Byte, fb: nat, v: Byte)
    requires IsOffset(fb) && v <= 63
    ensures ReadBits(WriteLow(b0, fb, v), WriteHigh(b1, fb, v), fb) == v
  {
    if fb == 0 {} else if fb == 2 {} else if fb == 4 {} else {}
  }

  /** The four registers of three bytes, and the byte after them, which none of the four uses. */
  function Quad(b0: Byte, b1: Byte, b2: Byte, b3: Byte, r: nat): Byte
    requires r < 4
  {
    match r
    case 0 => ReadBits(b0, b1, 0)
    case 1 => ReadBits(b0, b1, 6)
    case 2 => ReadBits(b1, b2, 4)
    case _ => ReadBits(b2, b3, 2)
  }

  lemma QuadIgnoresNext(b0: Byte, b1: Byte, b2: Byte, b3: Byte, c3: Byte, r: nat)
    requires r < 4
    ensures Quad(b0, b1, b2, b3, r) == Quad(b0, b1, b2, c3, r)
  {
    if r == 3 {}
  }

  lemma WriteFirst(b0: Byte, b1: Byte, b2: Byte, b3: Byte, v: Byte, r: nat)
    requires 0 < r < 4 && v <= 63
    ensures WriteHigh(b1, 0, v) == b1 && Quad(WriteLow(b0, 0, v), b1, b2, b3, r) == Quad(b0, b1, b2, b3, r)
  {
    if r == 1 {} else if r == 2 {} else {}
  }

  lemma WriteSecond(b0: Byte, b1: Byte, b2: Byte, b3: Byte, v: Byte, r: nat)
    requires r < 4 && r != 1 && v <= 63
    ensures Quad(WriteLow(b0, 6, v), WriteHigh(b1, 6, v), b2, b3, r) == Quad(b0, b1, b2, b3, r)
  {
    if r == 0 {} else if r == 2 {} else {}
  }

  lemma WriteThird(b0: Byte, b1: Byte, b2: Byte, b3: Byte, v: Byte, r: nat)
    requires r < 4 && r != 2 && v <= 63
    ensures Quad(b0, WriteLow(b1, 4, v), WriteHigh(b2, 4, v), b3, r) == Quad(b0, b1, b2, b3, r)
  {
    if r == 0 {} else if r == 1 {} else {}
  }

  lemma WriteFourth(b0: Byte, b1: Byte, b2: Byte, b3: Byte, v: Byte, r: nat)
    requires r < 3 && v <= 63
    ensures WriteHigh(b3, 2, v) == b3 && Quad(b0, b1, WriteLow(b2, 2, v), b3, r) == Quad(b0, b1, b2, b3, r)
  {
    if r == 0 {} else if r == 1 {} else {}
  }

  /** Register i is register i % 4 of the group of three bytes starting at 3 * (i / 4). */
  lemma InGroup(p: Packed, i: nat)
    requires i < REGISTERS
    ensures GetRegister(p, i) == Quad(p[i / 4 * 3], p[i / 4 * 3 + 1], p[i / 4 * 3 + 2], p[i / 4 * 3 + 3], i % 4)
  {
    hide ReadBits;
    Position(i);
    var r := i % 4;
    if r == 0 {} else if r == 1 {} else if r == 2 {} else {}
  }

  /** Setting a register leaves every other register of its group as it was. */
  lemma SetInGroup(p: Packed, i: nat, v: Byte, r: nat)
    requires i < REGISTERS && v <= 63 && r < 4 && r != i % 4
    ensures var g, q := i / 4 * 3, SetRegister(p, i, v);
            Quad(q[g], q[g + 1], q[g + 2], q[g + 3], r) == Quad(p[g], p[g + 1], p[g + 2], p[g + 3], r)
  {
    hide ReadBits, WriteLow, WriteHigh, Quad;
    Position(i);
    var g := i / 4 * 3;
    match i % 4 {
      case 0 => WriteFirst(p[g], p[g + 1], p[g + 2], p[g + 3], v, r);
      case 1 => WriteSecond(p[g], p[g + 1], p[g + 2], p[g + 3], v, r);
      case 2 => WriteThird(p[g], p[g + 1], p[g + 2], p[g + 3], v, r);
      case _ => WriteFourth(p[g], p[g + 1], p[g + 2], p[g + 3], v, r);
    }
  }

  /** Reading back any register after a write, including across byte boundaries and at the last register. */
  lemma GetAfterSet(p: Packed, i: nat, v: Byte, k: nat)
    requires i < REGISTERS && k < REGISTERS && v <= 63
    ensures GetRegister(SetRegister(p, i, v), k) == if k == i then v else GetRegister(p, k)
  {
    hide ReadBits, WriteLow, WriteHigh, Quad;
    Position(i);
    var q := SetRegister(p, i, v);
    var g := k / 4 * 3;
    if k == i {
      ReadWritten(p[i * 6 / 8], p[i * 6 / 8 + 1], i * 6 % 8, v);
    } else {
      InGroup(p, k);
      InGroup(q, k);
      if k / 4 == i / 4 {
        SetInGroup(p, i, v, k % 4);
      } else {
        SetOutsideGroup(p, i, v, g);
        QuadIgnoresNext(p[g], p[g + 1], p[g + 2], p[g + 3], q[g + 3], k % 4);
      }
    }
  }

  /** The bytes of the other groups keep their contents. */
  lemma SetOutsideGroup(p: Packed, i: nat, v: Byte, g: nat)
    requires i < REGISTERS && v <= 63 && g % 3 == 0 && g / 3 != i / 4 && g + 3 <= DENSE_BYTES
    ensures forall j :: g <= j < g + 3 ==> SetRegister(p, i, v)[j] == p[j]
  {
    hide WriteLow, WriteHigh;
    Position(i);
    if i % 4 == 3 {
      WriteFourth(p[0], p[0], p[0], p[i * 6 / 8 + 1], v, 0);
    }
  }

  lemma UnpackSet(p: Packed, i: nat, v: Byte)
    requires i < REGISTERS && v <= 63
    ensures Unpack(SetRegister(p, i, v)) == Unpack(p)[i := v]
  {
    hide SetRegister, GetRegister;
    var q := SetRegister(p, i, v);
    forall k | 0 <= k < REGISTERS ensures Unpack(q)[k] == Unpack(p)[i := v][k] {
      GetAfterSet(p, i, v, k);
    }
  }

  function EmptyPacked(): Packed {
    seq(DENSE_BYTES + 1, _ => 0)
  }

  lemma UnpackEmpty()
    ensures forall i :: 0 <= i < REGISTERS ==> Unpack(EmptyPacked())[i] == 0
  {
    forall i | 0 <= i < REGISTERS ensures Unpack(EmptyPacked())[i] == 0 {
      Position(i);
      ReadZero(i * 6 % 8);
    }
  }

  lemma ReadZero(fb: nat)
    requires IsOffset(fb)
    ensures ReadBits(0, 0, fb) == 0
  {
    if fb == 0 {} else if fb == 2 {} else if fb == 4 {} else {}
  }
}
