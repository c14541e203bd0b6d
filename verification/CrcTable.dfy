/**
 The 256 precomputed words of the checksum table, in rows of eight, and the proof that each word is
 what eight single-bit division steps make of its index.
 */
module CrcTable {

  /** Addition of 32-bit registers over GF(2). */
  function Xor(x: bv32, y: bv32): bv32 { x ^ y }

  /** One step of the reflected division by the polynomial 0xEDB88320. */
  function BitStep(s: bv32): bv32 {
    if s & 1 == 1 then (s >> 1) ^ 0xEDB88320 else s >> 1
  }

  function ByteStep(s: bv32): bv32 {
    BitStep(BitStep(BitStep(BitStep(BitStep(BitStep(BitStep(BitStep(s))))))))
  }

  // The division step is linear.

  lemma BitStepXorEven(x: bv32, y: bv32)
    requires x & 1 == 0 && y & 1 == 0
    ensures BitStep(Xor(x, y)) == Xor(BitStep(x), BitStep(y))
  {
  }

  lemma BitStepXorMixed(x: bv32, y: bv32)
    requires x & 1 == 1 && y & 1 == 0
    ensures BitStep(Xor(x, y)) == Xor(BitStep(x), BitStep(y))
  {
  }

  lemma BitStepXorOdd(x: bv32, y: bv32)
    requires x & 1 == 1 && y & 1 == 1
    ensures BitStep(Xor(x, y)) == Xor(BitStep(x), BitStep(y))
  {
  }

  lemma XorCommutes(x: bv32, y: bv32)
    ensures Xor(x, y) == Xor(y, x)
  {
  }

  lemma BitStepXor(x: bv32, y: bv32)
    ensures BitStep(Xor(x, y)) == Xor(BitStep(x), BitStep(y))
  {
    assert x & 1 == 0 || x & 1 == 1;
    assert y & 1 == 0 || y & 1 == 1;
    if x & 1 == 0 && y & 1 == 0 {
      BitStepXorEven(x, y);
    } else if x & 1 == 0 {
      BitStepXorMixed(y, x);
      XorCommutes(x, y);
      XorCommutes(BitStep(x), BitStep(y));
    } else if y & 1 == 0 {
      BitStepXorMixed(x, y);
    } else {
      BitStepXorOdd(x, y);
    }
  }

  lemma ByteStepXor(x: bv32, y: bv32)
    ensures ByteStep(Xor(x, y)) == Xor(ByteStep(x), ByteStep(y))
  {
    var x1, y1 := BitStep(x), BitStep(y);
    var x2, y2 := BitStep(x1), BitStep(y1);
    var x3, y3 := BitStep(x2), BitStep(y2);
    var x4, y4 := BitStep(x3), BitStep(y3);
    var x5, y5 := BitStep(x4), BitStep(y4);
    var x6, y6 := BitStep(x5), BitStep(y5);
    var x7, y7 := BitStep(x6), BitStep(y6);
    BitStepXor(x, y);
    BitStepXor(x1, y1);
    BitStepXor(x2, y2);
    BitStepXor(x3, y3);
    BitStepXor(x4, y4);
    BitStepXor(x5, y5);
    BitStepXor(x6, y6);
    BitStepXor(x7, y7);
  }

  // The table.

  const ROW_00: seq<bv32> :=
    [0x00000000, 0x77073096, 0xee0e612c, 0x990951ba, 0x076dc419, 0x706af48f, 0xe963a535, 0x9e6495a3]
  const ROW_08: seq<bv32> :=
    [0x0edb8832, 0x79dcb8a4, 0xe0d5e91e, 0x97d2d988, 0x09b64c2b, 0x7eb17cbd, 0xe7b82d07, 0x90bf1d91]
  const ROW_10: seq<bv32> :=
    [0x1db71064, 0x6ab020f2, 0xf3b97148, 0x84be41de, 0x1adad47d, 0x6ddde4eb, 0xf4d4b551, 0x83d385c7]
  const ROW_18: seq<bv32> :=
    [0x136c9856, 0x646ba8c0, 0xfd62f97a, 0x8a65c9ec, 0x14015c4f, 0x63066cd9, 0xfa0f3d63, 0x8d080df5]
  const ROW_20: seq<bv32> :=
    [0x3b6e20c8, 0x4c69105e, 0xd56041e4, 0xa2677172, 0x3c03e4d1, 0x4b04d447, 0xd20d85fd, 0xa50ab56b]
  const ROW_28: seq<bv32> :=
    [0x35b5a8fa, 0x42b2986c, 0xdbbbc9d6, 0xacbcf940, 0x32d86ce3, 0x45df5c75, 0xdcd60dcf, 0xabd13d59]
  const ROW_30: seq<bv32> :=
    [0x26d930ac, 0x51de003a, 0xc8d75180, 0xbfd06116, 0x21b4f4b5, 0x56b3c423, 0xcfba9599, 0xb8bda50f]
  const ROW_38: seq<bv32> :=
    [0x2802b89e, 0x5f058808, 0xc60cd9b2, 0xb10be924, 0x2f6f7c87, 0x58684c11, 0xc1611dab, 0xb6662d3d]
  const ROW_40: seq<bv32> :=
    [0x76dc4190, 0x01db7106, 0x98d220bc, 0xefd5102a, 0x71b18589, 0x06b6b51f, 0x9fbfe4a5, 0xe8b8d433]
  const ROW_48: seq<bv32> :=
    [0x7807c9a2, 0x0f00f934, 0x9609a88e, 0xe10e9818, 0x7f6a0dbb, 0x086d3d2d, 0x91646c97, 0xe6635c01]
  const ROW_50: seq<bv32> :=
    [0x6b6b51f4, 0x1c6c6162, 0x856530d8, 0xf262004e, 0x6c0695ed, 0x1b01a57b, 0x8208f4c1, 0xf50fc457]
  const ROW_58: seq<bv32> :=
    [0x65b0d9c6, 0x12b7e950, 0x8bbeb8ea, 0xfcb9887c, 0x62dd1ddf, 0x15da2d49, 0x8cd37cf3, 0xfbd44c65]
  const ROW_60: seq<bv32> :=
    [0x4db26158, 0x3ab551ce, 0xa3bc0074, 0xd4bb30e2, 0x4adfa541, 0x3dd895d7, 0xa4d1c46d, 0xd3d6f4fb]
  const ROW_68: seq<bv32> :=
    [0x4369e96a, 0x346ed9fc, 0xad678846, 0xda60b8d0, 0x44042d73, 0x33031de5, 0xaa0a4c5f, 0xdd0d7cc9]
  const ROW_70: seq<bv32> :=
    [0x5005713c, 0x270241aa, 0xbe0b1010, 0xc90c2086, 0x5768b525, 0x206f85b3, 0xb966d409, 0xce61e49f]
  const ROW_78: seq<bv32> :=
    [0x5edef90e, 0x29d9c998, 0xb0d09822, 0xc7d7a8b4, 0x59b33d17, 0x2eb40d81, 0xb7bd5c3b, 0xc0ba6cad]
  const ROW_80: seq<bv32> :=
    [0xedb88320, 0x9abfb3b6, 0x03b6e20c, 0x74b1d29a, 0xead54739, 0x9dd277af, 0x04db2615, 0x73dc1683]
  const ROW_88: seq<bv32> :=
    [0xe3630b12, 0x94643b84, 0x0d6d6a3e, 0x7a6a5aa8, 0xe40ecf0b, 0x9309ff9d, 0x0a00ae27, 0x7d079eb1]
  const ROW_90: seq<bv32> :=
    [0xf00f9344, 0x8708a3d2, 0x1e01f268, 0x6906c2fe, 0xf762575d, 0x806567cb, 0x196c3671, 0x6e6b06e7]
  const ROW_98: seq<bv32> :=
    [0xfed41b76, 0x89d32be0, 0x10da7a5a, 0x67dd4acc, 0xf9b9df6f, 0x8ebeeff9, 0x17b7be43, 0x60b08ed5]
  const ROW_A0: seq<bv32> :=
    [0xd6d6a3e8, 0xa1d1937e, 0x38d8c2c4, 0x4fdff252, 0xd1bb67f1, 0xa6bc5767, 0x3fb506dd, 0x48b2364b]
  const ROW_A8: seq<bv32> :=
    [0xd80d2bda, 0xaf0a1b4c, 0x36034af6, 0x41047a60, 0xdf60efc3, 0xa867df55, 0x316e8eef, 0x4669be79]
  const ROW_B0: seq<bv32> :=
    [0xcb61b38c, 0xbc66831a, 0x256fd2a0, 0x5268e236, 0xcc0c7795, 0xbb0b4703, 0x220216b9, 0x5505262f]
  const ROW_B8: seq<bv32> :=
    [0xc5ba3bbe, 0xb2bd0b28, 0x2bb45a92, 0x5cb36a04, 0xc2d7ffa7, 0xb5d0cf31, 0x2cd99e8b, 0x5bdeae1d]
  const ROW_C0: seq<bv32> :=
    [0x9b64c2b0, 0xec63f226, 0x756aa39c, 0x026d930a, 0x9c0906a9, 0xeb0e363f, 0x72076785, 0x05005713]
  const ROW_C8: seq<bv32> :=
    [0x95bf4a82, 0xe2b87a14, 0x7bb12bae, 0x0cb61b38, 0x92d28e9b, 0xe5d5be0d, 0x7cdcefb7, 0x0bdbdf21]
  const ROW_D0: seq<bv32> :=
    [0x86d3d2d4, 0xf1d4e242, 0x68ddb3f8, 0x1fda836e, 0x81be16cd, 0xf6b9265b, 0x6fb077e1, 0x18b74777]
  const ROW_D8: seq<bv32> :=
    [0x88085ae6, 0xff0f6a70, 0x66063bca, 0x11010b5c, 0x8f659eff, 0xf862ae69, 0x616bffd3, 0x166ccf45]
  const ROW_E0: seq<bv32> :=
    [0xa00ae278, 0xd70dd2ee, 0x4e048354, 0x3903b3c2, 0xa7672661, 0xd06016f7, 0x4969474d, 0x3e6e77db]
  const ROW_E8: seq<bv32> :=
    [0xaed16a4a, 0xd9d65adc, 0x40df0b66, 0x37d83bf0, 0xa9bcae53, 0xdebb9ec5, 0x47b2cf7f, 0x30b5ffe9]
  const ROW_F0: seq<bv32> :=
    [0xbdbdf21c, 0xcabac28a, 0x53b39330, 0x24b4a3a6, 0xbad03605, 0xcdd70693, 0x54de5729, 0x23d967bf]
  const ROW_F8: seq<bv32> :=
    [0xb3667a2e, 0xc4614ab8, 0x5d681b02, 0x2a6f2b94, 0xb40bbe37, 0xc30c8ea1, 0x5a05df1b, 0x2d02ef8d]

  /** The table as rows of eight words: row r holds the indices 8 * r .. 8 * r + 7. */
  function RowOf(r: bv8): seq<bv32>
    requires r < 32
  {
    match r
    case 0 => ROW_00
    case 1 => ROW_08
    case 2 => ROW_10
    case 3 => ROW_18
    case 4 => ROW_20
    case 5 => ROW_28
    case 6 => ROW_30
    case 7 => ROW_38
    case 8 => ROW_40
    case 9 => ROW_48
    case 10 => ROW_50
    case 11 => ROW_58
    case 12 => ROW_60
    case 13 => ROW_68
    case 14 => ROW_70
    case 15 => ROW_78
    case 16 => ROW_80
    case 17 => ROW_88
    case 18 => ROW_90
    case 19 => ROW_98
    case 20 => ROW_A0
    case 21 => ROW_A8
    case 22 => ROW_B0
    case 23 => ROW_B8
    case 24 => ROW_C0
    case 25 => ROW_C8
    case 26 => ROW_D0
    case 27 => ROW_D8
    case 28 => ROW_E0
    case 29 => ROW_E8
    case 30 => ROW_F0
    case _ => ROW_F8
  }

  /** The table word at index i. */
  function Lookup(i: bv8): bv32 {
    RowAt(i >> 3);
    RowOf(i >> 3)[i & 7]
  }

  /** `row` holds the words that belong at the table indices base .. base + 7. */
  ghost predicate RowFrom(row: seq<bv32>, base: bv8)
  {
    |row| == 8 && forall k: bv8 | k < 8 :: row[k] == ByteStep((base + k) as bv32)
  }

  /** Beyond row 0, a row is determined by its first word. */
  ghost predicate Coset(row: seq<bv32>)
  {
    |row| == 8 && forall k: bv8 | k < 8 :: row[k] == Xor(ROW_00[k], row[0])
  }

  lemma IndexSplits(base: bv8, k: bv8)
    requires base & 7 == 0 && k < 8
    ensures (base + k) as bv32 == Xor(k as bv32, base as bv32)
  {
  }

  lemma RowFromCoset(row: seq<bv32>, base: bv8)
    requires base & 7 == 0 && Coset(row) && row[0] == ByteStep(base as bv32)
    ensures RowFrom(row, base)
  {
    Row00();
    forall k: bv8 | k < 8
      ensures row[k] == ByteStep((base + k) as bv32)
    {
      IndexSplits(base, k);
      IndexSplits(0, k);
      ByteStepXor(k as bv32, base as bv32);
      assert 0 + k == k;
    }
  }

  lemma Row00()
    ensures RowFrom(ROW_00, 0)
  {
  }

  lemma Row08()
    ensures RowFrom(ROW_08, 0x08)
  {
    assert ROW_08[0] == ByteStep(0x08);
    RowFromCoset(ROW_08, 0x08);
  }

  lemma Row10()
    ensures RowFrom(ROW_10, 0x10)
  {
    assert ROW_10[0] == ByteStep(0x10);
    RowFromCoset(ROW_10, 0x10);
  }

  lemma Row18()
    ensures RowFrom(ROW_18, 0x18)
  {
    assert ROW_18[0] == ByteStep(0x18);
    RowFromCoset(ROW_18, 0x18);
  }

  lemma Row20()
    ensures RowFrom(ROW_20, 0x20)
  {
    assert ROW_20[0] == ByteStep(0x20);
    RowFromCoset(ROW_20, 0x20);
  }

  lemma Row28()
    ensures RowFrom(ROW_28, 0x28)
  {
    assert ROW_28[0] == ByteStep(0x28);
    RowFromCoset(ROW_28, 0x28);
  }

  lemma Row30()
    ensures RowFrom(ROW_30, 0x30)
  {
    assert ROW_30[0] == ByteStep(0x30);
    RowFromCoset(ROW_30, 0x30);
  }

  lemma Row38()
    ensures RowFrom(ROW_38, 0x38)
  {
    assert ROW_38[0] == ByteStep(0x38);
    RowFromCoset(ROW_38, 0x38);
  }

  lemma Row40()
    ensures RowFrom(ROW_40, 0x40)
  {
    assert ROW_40[0] == ByteStep(0x40);
    RowFromCoset(ROW_40, 0x40);
  }

  lemma Row48()
    ensures RowFrom(ROW_48, 0x48)
  {
    assert ROW_48[0] == ByteStep(0x48);
    RowFromCoset(ROW_48, 0x48);
  }

  lemma Row50()
    ensures RowFrom(ROW_50, 0x50)
  {
    assert ROW_50[0] == ByteStep(0x50);
    RowFromCoset(ROW_50, 0x50);
  }

  lemma Row58()
    ensures RowFrom(ROW_58, 0x58)
  {
    assert ROW_58[0] == ByteStep(0x58);
    RowFromCoset(ROW_58, 0x58);
  }

  lemma Row60()
    ensures RowFrom(ROW_60, 0x60)
  {
    assert ROW_60[0] == ByteStep(0x60);
    RowFromCoset(ROW_60, 0x60);
  }

  lemma Row68()
    ensures RowFrom(ROW_68, 0x68)
  {
    assert ROW_68[0] == ByteStep(0x68);
    RowFromCoset(ROW_68, 0x68);
  }

  lemma Row70()
    ensures RowFrom(ROW_70, 0x70)
  {
    assert ROW_70[0] == ByteStep(0x70);
    RowFromCoset(ROW_70, 0x70);
  }

  lemma Row78()
    ensures RowFrom(ROW_78, 0x78)
  {
    assert ROW_78[0] == ByteStep(0x78);
    RowFromCoset(ROW_78, 0x78);
  }

  lemma Row80()
    ensures RowFrom(ROW_80, 0x80)
  {
    assert ROW_80[0] == ByteStep(0x80);
    RowFromCoset(ROW_80, 0x80);
  }

  lemma Row88()
    ensures RowFrom(ROW_88, 0x88)
  {
    assert ROW_88[0] == ByteStep(0x88);
    RowFromCoset(ROW_88, 0x88);
  }

  lemma Row90()
    ensures RowFrom(ROW_90, 0x90)
  {
    assert ROW_90[0] == ByteStep(0x90);
    RowFromCoset(ROW_90, 0x90);
  }

  lemma Row98()
    ensures RowFrom(ROW_98, 0x98)
  {
    assert ROW_98[0] == ByteStep(0x98);
    RowFromCoset(ROW_98, 0x98);
  }

  lemma RowA0()
    ensures RowFrom(ROW_A0, 0xA0)
  {
    assert ROW_A0[0] == ByteStep(0xA0);
    RowFromCoset(ROW_A0, 0xA0);
  }

  lemma RowA8()
    ensures RowFrom(ROW_A8, 0xA8)
  {
    assert ROW_A8[0] == ByteStep(0xA8);
    RowFromCoset(ROW_A8, 0xA8);
  }

  lemma RowB0()
    ensures RowFrom(ROW_B0, 0xB0)
  {
    assert ROW_B0[0] == ByteStep(0xB0);
    RowFromCoset(ROW_B0, 0xB0);
  }

  lemma RowB8()
    ensures RowFrom(ROW_B8, 0xB8)
  {
    assert ROW_B8[0] == ByteStep(0xB8);
    RowFromCoset(ROW_B8, 0xB8);
  }

  lemma RowC0()
    ensures RowFrom(ROW_C0, 0xC0)
  {
    assert ROW_C0[0] == ByteStep(0xC0);
    RowFromCoset(ROW_C0, 0xC0);
  }

  lemma RowC8()
    ensures RowFrom(ROW_C8, 0xC8)
  {
    assert ROW_C8[0] == ByteStep(0xC8);
    RowFromCoset(ROW_C8, 0xC8);
  }

  lemma RowD0()
    ensures RowFrom(ROW_D0, 0xD0)
  {
    assert ROW_D0[0] == ByteStep(0xD0);
    RowFromCoset(ROW_D0, 0xD0);
  }

  lemma RowD8()
    ensures RowFrom(ROW_D8, 0xD8)
  {
    assert ROW_D8[0] == ByteStep(0xD8);
    RowFromCoset(ROW_D8, 0xD8);
  }

  lemma RowE0()
    ensures RowFrom(ROW_E0, 0xE0)
  {
    assert ROW_E0[0] == ByteStep(0xE0);
    RowFromCoset(ROW_E0, 0xE0);
  }

  lemma RowE8()
    ensures RowFrom(ROW_E8, 0xE8)
  {
    assert ROW_E8[0] == ByteStep(0xE8);
    RowFromCoset(ROW_E8, 0xE8);
  }

  lemma RowF0()
    ensures RowFrom(ROW_F0, 0xF0)
  {
    assert ROW_F0[0] == ByteStep(0xF0);
    RowFromCoset(ROW_F0, 0xF0);
  }

  lemma RowF8()
    ensures RowFrom(ROW_F8, 0xF8)
  {
    assert ROW_F8[0] == ByteStep(0xF8);
    RowFromCoset(ROW_F8, 0xF8);
  }

  lemma RowAt(r: bv8)
    requires r < 32
    ensures RowFrom(RowOf(r), r << 3)
  {
    match r {
      case 0 => Row00();
      case 1 => Row08();
      case 2 => Row10();
      case 3 => Row18();
      case 4 => Row20();
      case 5 => Row28();
      case 6 => Row30();
      case 7 => Row38();
      case 8 => Row40();
      case 9 => Row48();
      case 10 => Row50();
      case 11 => Row58();
      case 12 => Row60();
      case 13 => Row68();
      case 14 => Row70();
      case 15 => Row78();
      case 16 => Row80();
      case 17 => Row88();
      case 18 => Row90();
      case 19 => Row98();
      case 20 => RowA0();
      case 21 => RowA8();
      case 22 => RowB0();
      case 23 => RowB8();
      case 24 => RowC0();
      case 25 => RowC8();
      case 26 => RowD0();
      case 27 => RowD8();
      case 28 => RowE0();
      case 29 => RowE8();
      case 30 => RowF0();
      case _ => RowF8();
    }
  }

  /** The table is exactly what the bitwise division makes of each index. */
  lemma TableEntry(i: bv8)
    ensures Lookup(i) == ByteStep(i as bv32)
  {
    RowAt(i >> 3);
    assert ((i >> 3) << 3) + (i & 7) == i;
  }
}
