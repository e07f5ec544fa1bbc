/**
 * crc32_ptr: the reflected CRC-32 of IEEE 802.3 (clause 3.2.9, the frame
 * check sequence) taken over the bytes of a pointer-sized integer, least
 * significant byte first. The register starts at all ones, each byte is
 * XORed into its low end and followed by eight one-bit steps, and the result
 * is complemented.
 */
module Crc {

  /** The reversed generator polynomial of IEEE 802.3. */
  const POLY: bv32 := 0xEDB8_8320

  /** Width in bytes of `uintptr_t` on the 64-bit platforms the game targets. */
  const PTR_BYTES: nat := 8

  /** One bit step: shift right, then XOR the polynomial if the bit shifted out was set. */
  function BitStep(crc: bv32): bv32 {
    if crc & 1 == 1 then (crc >> 1) ^ POLY else crc >> 1
  }

  /** `k` bit steps in a row. */
  function BitSteps(crc: bv32, k: nat): bv32 {
    if k == 0 then crc else BitStep(BitSteps(crc, k - 1))
  }

  /** One more bit step. */
  lemma BitStepsUnfold(x: bv32, k: nat, before: bv32)
    requires k > 0 && BitSteps(x, k - 1) == before
    ensures BitSteps(x, k) == BitStep(before)
  {
  }

  /** One byte: XOR it into the low end of the register, then eight bit steps. */
  function ByteStep(crc: bv32, b: bv8): bv32 {
    BitSteps(crc ^ (b as bv32), 8)
  }

  lemma ByteStepUnfold(before: bv32, b: bv8, start: bv32)
    requires start == before ^ (b as bv32)
    ensures ByteStep(before, b) == BitSteps(start, 8)
  {
  }

  /** The register after the bytes, fed first to last. */
  function Register(init: bv32, bytes: seq<bv8>): bv32 {
    if bytes == [] then init else ByteStep(Register(init, bytes[..|bytes| - 1]), bytes[|bytes| - 1])
  }

  /** One more byte. */
  lemma RegisterSnoc(init: bv32, bytes: seq<bv8>, k: nat, before: bv32)
    requires k < |bytes| && Register(init, bytes[..k]) == before
    ensures Register(init, bytes[..k + 1]) == ByteStep(before, bytes[k])
  {
    assert bytes[..k + 1][..k] == bytes[..k];
  }

  /**
   * The CRC-32 of a byte string: initial value all ones, result complemented,
   * so the empty string has CRC 0.
   */
  function Crc32(bytes: seq<bv8>): (r: bv32)
    ensures bytes == [] ==> r == 0
  {
    Register(0xFFFF_FFFF, bytes) ^ 0xFFFF_FFFF
  }

  /** Feeding `a` and then `b` leaves the register that feeding `a + b` does. */
  lemma {:induction false} RegisterAppend(init: bv32, a: seq<bv8>, b: seq<bv8>)
    ensures Register(init, a + b) == Register(Register(init, a), b)
    decreases |b|
  {
    if b == [] {
      assert a + b == a;
    } else {
      var b' := b[..|b| - 1];
      assert (a + b)[..|a + b| - 1] == a + b';
      RegisterAppend(init, a, b');
    }
  }

  /**
   * The CRC of a longer string continues from the CRC of its prefix: undo
   * the final complement and go on feeding bytes.
   */
  lemma Crc32Resume(a: seq<bv8>, b: seq<bv8>)
    ensures Crc32(a + b) == Register(Crc32(a) ^ 0xFFFF_FFFF, b) ^ 0xFFFF_FFFF
  {
    var x := Register(0xFFFF_FFFF, a);
    assert Crc32(a) ^ 0xFFFF_FFFF == x;
    RegisterAppend(0xFFFF_FFFF, a, b);
  }

  /** The bytes of a pointer-sized value, least significant first. */
  function PtrBytes(val: bv64): (r: seq<bv8>)
    ensures |r| == PTR_BYTES
  {
    [ (val & 0xFF) as bv8,         ((val >> 8) & 0xFF) as bv8,
      ((val >> 16) & 0xFF) as bv8, ((val >> 24) & 0xFF) as bv8,
      ((val >> 32) & 0xFF) as bv8, ((val >> 40) & 0xFF) as bv8,
      ((val >> 48) & 0xFF) as bv8, ((val >> 56) & 0xFF) as bv8 ]
  }

  /** The little-endian value of eight bytes. */
  function FromBytes(b: seq<bv8>): bv64
    requires |b| == PTR_BYTES
  {
    (b[0] as bv64) | (b[1] as bv64 << 8) | (b[2] as bv64 << 16) | (b[3] as bv64 << 24)
    | (b[4] as bv64 << 32) | (b[5] as bv64 << 40) | (b[6] as bv64 << 48) | (b[7] as bv64 << 56)
  }

  /** Reading the bytes back least significant first gives the value: no byte is lost or reordered. */
  lemma PtrBytesRoundTrip(val: bv64)
    ensures FromBytes(PtrBytes(val)) == val
  {
  }

  /** The loop's `(val >> (i * 8)) & 0xFF` is byte `i` of the value. */
  lemma ByteAt(val: bv64, i: nat)
    requires i < PTR_BYTES
    ensures ((val >> (i * 8) as bv7) & 0xFF) as bv8 == PtrBytes(val)[i]
  {
    if i == 0 { assert (i * 8) as bv7 == 0; }
    else if i == 1 { assert (i * 8) as bv7 == 8; }
    else if i == 2 { assert (i * 8) as bv7 == 16; }
    else if i == 3 { assert (i * 8) as bv7 == 24; }
    else if i == 4 { assert (i * 8) as bv7 == 32; }
    else if i == 5 { assert (i * 8) as bv7 == 40; }
    else if i == 6 { assert (i * 8) as bv7 == 48; }
    else { assert (i * 8) as bv7 == 56; }
  }

  /** The byte extraction of the outer loop: byte `i`, least significant first. */
  method ExtractByte(val: bv64, i: nat) returns (b: bv8)
    requires i < PTR_BYTES
    ensures b == PtrBytes(val)[i]
  {
    b := ((val >> (i * 8) as bv7) & 0xFF) as bv8;
    ByteAt(val, i);
  }

  /** crc32_ptr, with its two nested loops over bytes and bits. */
  method Crc32Ptr(val: bv64) returns (crc: bv32)
    ensures crc == Crc32(PtrBytes(val))
  {
    ghost var bytes := PtrBytes(val);
    crc := 0xFFFF_FFFF;
    var i: nat := 0;
    while i < PTR_BYTES
      invariant i <= PTR_BYTES
      invariant crc == Register(0xFFFF_FFFF, bytes[..i])
    {
      var b := ExtractByte(val, i);
      ghost var before := crc;
      crc := crc ^ (b as bv32);
      ghost var start := crc;
      var j := 0;
      while j < 8
        invariant 0 <= j <= 8
        invariant crc == BitSteps(start, j)
      {
        BitStepsUnfold(start, j + 1, crc);
        if crc & 1 == 1 {
          crc := (crc >> 1) ^ POLY;
        } else {
          crc := crc >> 1;
        }
        j := j + 1;
      }
      ByteStepUnfold(before, b, start);
      RegisterSnoc(0xFFFF_FFFF, bytes, i, before);
      i := i + 1;
    }
    assert bytes[..PTR_BYTES] == bytes;
    crc := crc ^ 0xFFFF_FFFF;
  }

  // ---------------------------------------------------------------------------
  // Agreement with the standard's check value

  /** Eight bit steps through known intermediate registers. */
  lemma EightSteps(x: bv32, s1: bv32, s2: bv32, s3: bv32, s4: bv32, s5: bv32, s6: bv32, s7: bv32, s8: bv32)
    requires BitStep(x) == s1 && BitStep(s1) == s2 && BitStep(s2) == s3 && BitStep(s3) == s4
    requires BitStep(s4) == s5 && BitStep(s5) == s6 && BitStep(s6) == s7 && BitStep(s7) == s8
    ensures BitSteps(x, 8) == s8
  {
    BitStepsUnfold(x, 1, x);
    BitStepsUnfold(x, 2, s1);
    BitStepsUnfold(x, 3, s2);
    BitStepsUnfold(x, 4, s3);
    BitStepsUnfold(x, 5, s4);
    BitStepsUnfold(x, 6, s5);
    BitStepsUnfold(x, 7, s6);
    BitStepsUnfold(x, 8, s7);
  }

  lemma CheckByte1()
    ensures ByteStep(0xFFFF_FFFF, 0x31) == 0x7C23_1048
  {
    EightSteps(0xFFFF_FFFF ^ 0x31, 0x7FFF_FFE7, 0xD247_7CD3, 0x849B_3D49, 0xAFF5_1D84, 0x57FA_8EC2, 0x2BFD_4761, 0xF846_2090, 0x7C23_1048);
  }

  lemma CheckByte2()
    ensures ByteStep(0x7C23_1048, 0x32) == 0xB0AC_BB32
  {
    EightSteps(0x7C23_1048 ^ 0x32, 0x3E11_883D, 0xF2B0_473E, 0x7958_239F, 0xD114_92EF, 0x8532_CA57, 0xAF21_E60B, 0xBA28_7025, 0xB0AC_BB32);
  }

  lemma CheckByte3()
    ensures ByteStep(0xB0AC_BB32, 0x33) == 0x77B7_9C2D
  {
    EightSteps(0xB0AC_BB32 ^ 0x33, 0xB5EE_DEA0, 0x5AF7_6F50, 0x2D7B_B7A8, 0x16BD_DBD4, 0x0B5E_EDEA, 0x05AF_76F5, 0xEF6F_385A, 0x77B7_9C2D);
  }

  lemma CheckByte4()
    ensures ByteStep(0x77B7_9C2D, 0x34) == 0x641C_1F5C
  {
    EightSteps(0x77B7_9C2D ^ 0x34, 0xD663_4D2C, 0x6B31_A696, 0x3598_D34B, 0xF774_EA85, 0x9602_F662, 0x4B01_7B31, 0xC838_3EB8, 0x641C_1F5C);
  }

  lemma CheckByte5()
    ensures ByteStep(0x641C_1F5C, 0x35) == 0x340A_C5E3
  {
    EightSteps(0x641C_1F5C ^ 0x35, 0xDFB6_8C94, 0x6FDB_464A, 0x37ED_A325, 0xF64E_52B2, 0x7B27_2959, 0xD02B_178C, 0x6815_8BC6, 0x340A_C5E3);
  }

  lemma CheckByte6()
    ensures ByteStep(0x340A_C5E3, 0x36) == 0xF68D_2C9E
  {
    EightSteps(0x340A_C5E3 ^ 0x36, 0xF7BD_E1CA, 0x7BDE_F0E5, 0xD057_FB52, 0x682B_FDA9, 0xD9AD_7DF4, 0x6CD6_BEFA, 0x366B_5F7D, 0xF68D_2C9E);
  }

  lemma CheckByte7()
    ensures ByteStep(0xF68D_2C9E, 0x37) == 0xAFFC_9660
  {
    EightSteps(0xF68D_2C9E ^ 0x37, 0x96FE_1574, 0x4B7F_0ABA, 0x25BF_855D, 0xFF67_418E, 0x7FB3_A0C7, 0xD261_5343, 0x8488_2A81, 0xAFFC_9660);
  }

  lemma CheckByte8()
    ensures ByteStep(0xAFFC_9660, 0x38) == 0x651F_2550
  {
    EightSteps(0xAFFC_9660 ^ 0x38, 0x57FE_4B2C, 0x2BFF_2596, 0x15FF_92CB, 0xE747_4A45, 0x9E1B_2602, 0x4F0D_9301, 0xCA3E_4AA0, 0x651F_2550);
  }

  lemma CheckByte9()
    ensures ByteStep(0x651F_2550, 0x39) == 0x340B_C6D9
  {
    EightSteps(0x651F_2550 ^ 0x39, 0xDF37_1194, 0x6F9B_88CA, 0x37CD_C465, 0xF65E_6112, 0x7B2F_3089, 0xD02F_1B64, 0x6817_8DB2, 0x340B_C6D9);
  }

  /** The ASCII digits "123456789", the standard's check input. */
  const CHECK_INPUT: seq<bv8> := [0x31, 0x32, 0x33, 0x34, 0x35, 0x36, 0x37, 0x38, 0x39]

  lemma CheckPrefix3()
    ensures Register(0xFFFF_FFFF, CHECK_INPUT[..3]) == 0x77B7_9C2D
  {
    assert CHECK_INPUT[..0] == [];
    CheckByte1();
    RegisterSnoc(0xFFFF_FFFF, CHECK_INPUT, 0, 0xFFFF_FFFF);
    CheckByte2();
    RegisterSnoc(0xFFFF_FFFF, CHECK_INPUT, 1, 0x7C23_1048);
    CheckByte3();
    RegisterSnoc(0xFFFF_FFFF, CHECK_INPUT, 2, 0xB0AC_BB32);
  }

  lemma CheckPrefix6()
    ensures Register(0xFFFF_FFFF, CHECK_INPUT[..6]) == 0xF68D_2C9E
  {
    CheckPrefix3();
    CheckByte4();
    RegisterSnoc(0xFFFF_FFFF, CHECK_INPUT, 3, 0x77B7_9C2D);
    CheckByte5();
    RegisterSnoc(0xFFFF_FFFF, CHECK_INPUT, 4, 0x641C_1F5C);
    CheckByte6();
    RegisterSnoc(0xFFFF_FFFF, CHECK_INPUT, 5, 0x340A_C5E3);
  }

  /**
   * The standard check value of CRC-32: the nine ASCII digits "123456789"
   * give 0xCBF43926, so the bitwise definition is the CRC-32 of IEEE 802.3.
   */
  lemma CheckValue()
    ensures Crc32(CHECK_INPUT) == 0xCBF4_3926
  {
    CheckPrefix6();
    CheckByte7();
    RegisterSnoc(0xFFFF_FFFF, CHECK_INPUT, 6, 0xF68D_2C9E);
    CheckByte8();
    RegisterSnoc(0xFFFF_FFFF, CHECK_INPUT, 7, 0xAFFC_9660);
    CheckByte9();
    RegisterSnoc(0xFFFF_FFFF, CHECK_INPUT, 8, 0x651F_2550);
    assert CHECK_INPUT[..9] == CHECK_INPUT;
  }
}
