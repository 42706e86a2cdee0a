/** The CRC-32 of section 8 of RFC 1952, with zlib's calling convention. */
module Crc {
  import opened Bytes

  type u32 = bv32

  const POLYNOMIAL: u32 := 0xEDB8_8320

  /** n shifts of the register, each adding the polynomial when a one falls out. */
  function Rounds(c: u32, n: nat): u32 {
    if n == 0 then c
    else
      var d := Rounds(c, n - 1);
      if d & 1 == 1 then POLYNOMIAL ^ (d >> 1) else d >> 1
  }

  /** One byte through the register. */
  function Step(c: u32, b: byte): u32 {
    Rounds(c ^ b as u32, 8)
  }

  function Fold(step: (u32, byte) -> u32, c: u32, data: Bytes): u32
    decreases data
  {
    if data == [] then c else Fold(step, step(c, data[0]), data[1..])
  }

  function Flip(c: u32): u32 {
    !c
  }

  /** zlib's crc32(crc, data, |data|): the register is complemented on the way in and out. */
  function Crc32(crc: u32, data: Bytes): u32 {
    Flip(Fold(Step, Flip(crc), data))
  }

  lemma {:induction false} FoldAppend(step: (u32, byte) -> u32, c: u32, x: Bytes, y: Bytes)
    ensures Fold(step, c, x + y) == Fold(step, Fold(step, c, x), y)
    decreases x
  {
    if x == [] {
      assert x + y == y;
    } else {
      FoldAppend(step, step(c, x[0]), x[1..], y);
      assert (x + y)[1..] == x[1..] + y;
    }
  }

  lemma Twice(c: u32)
    ensures Flip(Flip(c)) == c
  {
  }

  /** Four stored bytes equal the checksum. */
  predicate Matches(stored: Bytes, c: u32) {
    FromLE(stored) == c as nat
  }

  /** The checksum as it is stored. */
  function CrcBytes(c: u32): (b: Bytes)
    ensures |b| == 4 && Matches(b, c)
  {
    Le32(c as nat)
  }

  lemma {:induction false} OnlyMatch(stored: Bytes, c: u32)
    requires |stored| == 4 && Matches(stored, c)
    ensures stored == CrcBytes(c)
  {
    Encode32(stored);
  }

  /** Continuing a checksum over a second field is one pass over both. */
  lemma {:induction false} Chain(crc: u32, x: Bytes, y: Bytes)
    ensures Crc32(Crc32(crc, x), y) == Crc32(crc, x + y)
  {
    hide Fold, Step, Flip;
    FoldAppend(Step, Flip(crc), x, y);
    Twice(Fold(Step, Flip(crc), x));
  }

  lemma {:induction false} Nothing(crc: u32)
    ensures Crc32(crc, []) == crc
  {
    hide Step, Flip;
    Twice(crc);
  }

  lemma OneByte(c: u32, b: byte, x: u32)
    requires c ^ b as u32 == x
    ensures Step(c, b) == Rounds(x, 8)
  {
  }

  /** The register over the digits "123". */
  lemma FirstDigits()
    ensures Step(0xFFFF_FFFF, 0x31) == 0x7C23_1048
    ensures Step(0x7C23_1048, 0x32) == 0xB0AC_BB32
    ensures Step(0xB0AC_BB32, 0x33) == 0x77B7_9C2D
  {
    hide Step;
    OneByte(0xFFFF_FFFF, 0x31, 0xFFFF_FFCE);
    OneByte(0x7C23_1048, 0x32, 0x7C23_107A);
    OneByte(0xB0AC_BB32, 0x33, 0xB0AC_BB01);
  }

  /** Over "456". */
  lemma MiddleDigits()
    ensures Step(0x77B7_9C2D, 0x34) == 0x641C_1F5C
    ensures Step(0x641C_1F5C, 0x35) == 0x340A_C5E3
    ensures Step(0x340A_C5E3, 0x36) == 0xF68D_2C9E
  {
    hide Step;
    OneByte(0x77B7_9C2D, 0x34, 0x77B7_9C19);
    OneByte(0x641C_1F5C, 0x35, 0x641C_1F69);
    OneByte(0x340A_C5E3, 0x36, 0x340A_C5D5);
  }

  /** Over "789". */
  lemma LastDigits()
    ensures Step(0xF68D_2C9E, 0x37) == 0xAFFC_9660
    ensures Step(0xAFFC_9660, 0x38) == 0x651F_2550
    ensures Step(0x651F_2550, 0x39) == 0x340B_C6D9
  {
    hide Step;
    OneByte(0xF68D_2C9E, 0x37, 0xF68D_2CA9);
    OneByte(0xAFFC_9660, 0x38, 0xAFFC_9658);
    OneByte(0x651F_2550, 0x39, 0x651F_2569);
  }

  /** The standard check value of this CRC: that of the nine digits "123456789". */
  lemma CheckValue()
    ensures Crc32(0, [0x31, 0x32, 0x33, 0x34, 0x35, 0x36, 0x37, 0x38, 0x39]) == 0xCBF4_3926
  {
    hide Step;
    FirstDigits();
    MiddleDigits();
    LastDigits();
  }
}
