/** The lookup table of the CRC-32 signature, and that each entry is the polynomial division it stands for. */
module Crc32Table {
  import opened Crc32Register

  // ----- crc32_tab, eight entries to a row

  function Pick(j: bv8, e0: bv32, e1: bv32, e2: bv32, e3: bv32, e4: bv32, e5: bv32, e6: bv32, e7: bv32): bv32 {
    if j == 0 then e0 else if j == 1 then e1 else if j == 2 then e2 else if j == 3 then e3
    else if j == 4 then e4 else if j == 5 then e5 else if j == 6 then e6 else e7
  }

  function Row0(j: bv8): bv32 {
    Pick(j, 0x00000000, 0x77073096, 0xee0e612c, 0x990951ba, 0x076dc419, 0x706af48f, 0xe963a535, 0x9e6495a3)
  }

  function Row1(j: bv8): bv32 {
    Pick(j, 0x0edb8832, 0x79dcb8a4, 0xe0d5e91e, 0x97d2d988, 0x09b64c2b, 0x7eb17cbd, 0xe7b82d07, 0x90bf1d91)
  }

  function Row2(j: bv8): bv32 {
    Pick(j, 0x1db71064, 0x6ab020f2, 0xf3b97148, 0x84be41de, 0x1adad47d, 0x6ddde4eb, 0xf4d4b551, 0x83d385c7)
  }

  function Row3(j: bv8): bv32 {
    Pick(j, 0x136c9856, 0x646ba8c0, 0xfd62f97a, 0x8a65c9ec, 0x14015c4f, 0x63066cd9, 0xfa0f3d63, 0x8d080df5)
  }

  function Row4(j: bv8): bv32 {
    Pick(j, 0x3b6e20c8, 0x4c69105e, 0xd56041e4, 0xa2677172, 0x3c03e4d1, 0x4b04d447, 0xd20d85fd, 0xa50ab56b)
  }

  function Row5(j: bv8): bv32 {
    Pick(j, 0x35b5a8fa, 0x42b2986c, 0xdbbbc9d6, 0xacbcf940, 0x32d86ce3, 0x45df5c75, 0xdcd60dcf, 0xabd13d59)
  }

  function Row6(j: bv8): bv32 {
    Pick(j, 0x26d930ac, 0x51de003a, 0xc8d75180, 0xbfd06116, 0x21b4f4b5, 0x56b3c423, 0xcfba9599, 0xb8bda50f)
  }

  function Row7(j: bv8): bv32 {
    Pick(j, 0x2802b89e, 0x5f058808, 0xc60cd9b2, 0xb10be924, 0x2f6f7c87, 0x58684c11, 0xc1611dab, 0xb6662d3d)
  }

  function Row8(j: bv8): bv32 {
    Pick(j, 0x76dc4190, 0x01db7106, 0x98d220bc, 0xefd5102a, 0x71b18589, 0x06b6b51f, 0x9fbfe4a5, 0xe8b8d433)
  }

  function Row9(j: bv8): bv32 {
    Pick(j, 0x7807c9a2, 0x0f00f934, 0x9609a88e, 0xe10e9818, 0x7f6a0dbb, 0x086d3d2d, 0x91646c97, 0xe6635c01)
  }

  function Row10(j: bv8): bv32 {
    Pick(j, 0x6b6b51f4, 0x1c6c6162, 0x856530d8, 0xf262004e, 0x6c0695ed, 0x1b01a57b, 0x8208f4c1, 0xf50fc457)
  }

  function Row11(j: bv8): bv32 {
    Pick(j, 0x65b0d9c6, 0x12b7e950, 0x8bbeb8ea, 0xfcb9887c, 0x62dd1ddf, 0x15da2d49, 0x8cd37cf3, 0xfbd44c65)
  }

  function Row12(j: bv8): bv32 {
    Pick(j, 0x4db26158, 0x3ab551ce, 0xa3bc0074, 0xd4bb30e2, 0x4adfa541, 0x3dd895d7, 0xa4d1c46d, 0xd3d6f4fb)
  }

  function Row13(j: bv8): bv32 {
    Pick(j, 0x4369e96a, 0x346ed9fc, 0xad678846, 0xda60b8d0, 0x44042d73, 0x33031de5, 0xaa0a4c5f, 0xdd0d7cc9)
  }

  function Row14(j: bv8): bv32 {
    Pick(j, 0x5005713c, 0x270241aa, 0xbe0b1010, 0xc90c2086, 0x5768b525, 0x206f85b3, 0xb966d409, 0xce61e49f)
  }

  function Row15(j: bv8): bv32 {
    Pick(j, 0x5edef90e, 0x29d9c998, 0xb0d09822, 0xc7d7a8b4, 0x59b33d17, 0x2eb40d81, 0xb7bd5c3b, 0xc0ba6cad)
  }

  function Row16(j: bv8): bv32 {
    Pick(j, 0xedb88320, 0x9abfb3b6, 0x03b6e20c, 0x74b1d29a, 0xead54739, 0x9dd277af, 0x04db2615, 0x73dc1683)
  }

  function Row17(j: bv8): bv32 {
    Pick(j, 0xe3630b12, 0x94643b84, 0x0d6d6a3e, 0x7a6a5aa8, 0xe40ecf0b, 0x9309ff9d, 0x0a00ae27, 0x7d079eb1)
  }

  function Row18(j: bv8): bv32 {
    Pick(j, 0xf00f9344, 0x8708a3d2, 0x1e01f268, 0x6906c2fe, 0xf762575d, 0x806567cb, 0x196c3671, 0x6e6b06e7)
  }

  function Row19(j: bv8): bv32 {
    Pick(j, 0xfed41b76, 0x89d32be0, 0x10da7a5a, 0x67dd4acc, 0xf9b9df6f, 0x8ebeeff9, 0x17b7be43, 0x60b08ed5)
  }

  function Row20(j: bv8): bv32 {
    Pick(j, 0xd6d6a3e8, 0xa1d1937e, 0x38d8c2c4, 0x4fdff252, 0xd1bb67f1, 0xa6bc5767, 0x3fb506dd, 0x48b2364b)
  }

  function Row21(j: bv8): bv32 {
    Pick(j, 0xd80d2bda, 0xaf0a1b4c, 0x36034af6, 0x41047a60, 0xdf60efc3, 0xa867df55, 0x316e8eef, 0x4669be79)
  }

  function Row22(j: bv8): bv32 {
    Pick(j, 0xcb61b38c, 0xbc66831a, 0x256fd2a0, 0x5268e236, 0xcc0c7795, 0xbb0b4703, 0x220216b9, 0x5505262f)
  }

  function Row23(j: bv8): bv32 {
    Pick(j, 0xc5ba3bbe, 0xb2bd0b28, 0x2bb45a92, 0x5cb36a04, 0xc2d7ffa7, 0xb5d0cf31, 0x2cd99e8b, 0x5bdeae1d)
  }

  function Row24(j: bv8): bv32 {
    Pick(j, 0x9b64c2b0, 0xec63f226, 0x756aa39c, 0x026d930a, 0x9c0906a9, 0xeb0e363f, 0x72076785, 0x05005713)
  }

  function Row25(j: bv8): bv32 {
    Pick(j, 0x95bf4a82, 0xe2b87a14, 0x7bb12bae, 0x0cb61b38, 0x92d28e9b, 0xe5d5be0d, 0x7cdcefb7, 0x0bdbdf21)
  }

  function Row26(j: bv8): bv32 {
    Pick(j, 0x86d3d2d4, 0xf1d4e242, 0x68ddb3f8, 0x1fda836e, 0x81be16cd, 0xf6b9265b, 0x6fb077e1, 0x18b74777)
  }

  function Row27(j: bv8): bv32 {
    Pick(j, 0x88085ae6, 0xff0f6a70, 0x66063bca, 0x11010b5c, 0x8f659eff, 0xf862ae69, 0x616bffd3, 0x166ccf45)
  }

  function Row28(j: bv8): bv32 {
    Pick(j, 0xa00ae278, 0xd70dd2ee, 0x4e048354, 0x3903b3c2, 0xa7672661, 0xd06016f7, 0x4969474d, 0x3e6e77db)
  }

  function Row29(j: bv8): bv32 {
    Pick(j, 0xaed16a4a, 0xd9d65adc, 0x40df0b66, 0x37d83bf0, 0xa9bcae53, 0xdebb9ec5, 0x47b2cf7f, 0x30b5ffe9)
  }

  function Row30(j: bv8): bv32 {
    Pick(j, 0xbdbdf21c, 0xcabac28a, 0x53b39330, 0x24b4a3a6, 0xbad03605, 0xcdd70693, 0x54de5729, 0x23d967bf)
  }

  function Row31(j: bv8): bv32 {
    Pick(j, 0xb3667a2e, 0xc4614ab8, 0x5d681b02, 0x2a6f2b94, 0xb40bbe37, 0xc30c8ea1, 0x5a05df1b, 0x2d02ef8d)
  }

  function LowRows(k: bv8, j: bv8): bv32 {
    if k == 0 then Row0(j)
    else if k == 1 then Row1(j)
    else if k == 2 then Row2(j)
    else if k == 3 then Row3(j)
    else if k == 4 then Row4(j)
    else if k == 5 then Row5(j)
    else if k == 6 then Row6(j)
    else if k == 7 then Row7(j)
    else if k == 8 then Row8(j)
    else if k == 9 then Row9(j)
    else if k == 10 then Row10(j)
    else if k == 11 then Row11(j)
    else if k == 12 then Row12(j)
    else if k == 13 then Row13(j)
    else if k == 14 then Row14(j)
    else Row15(j)
  }

  function HighRows(k: bv8, j: bv8): bv32 {
    if k == 16 then Row16(j)
    else if k == 17 then Row17(j)
    else if k == 18 then Row18(j)
    else if k == 19 then Row19(j)
    else if k == 20 then Row20(j)
    else if k == 21 then Row21(j)
    else if k == 22 then Row22(j)
    else if k == 23 then Row23(j)
    else if k == 24 then Row24(j)
    else if k == 25 then Row25(j)
    else if k == 26 then Row26(j)
    else if k == 27 then Row27(j)
    else if k == 28 then Row28(j)
    else if k == 29 then Row29(j)
    else if k == 30 then Row30(j)
    else Row31(j)
  }

  function RowEntry(k: bv8, j: bv8): bv32 {
    if k < 16 then LowRows(k, j) else HighRows(k, j)
  }

  function Table(i: bv8): bv32 {
    RowEntry(i >> 3, i & 7)
  }

  /** The entry is eight register steps of its index. */
  predicate IsEntry(e: bv32, i: bv8) {
    e == Shift8(i as bv32)
  }

  lemma Check0(j: bv8) requires j < 8 ensures IsEntry(Row0(j), 0 + j) {}
  lemma Check1(j: bv8) requires j < 8 ensures IsEntry(Row1(j), 8 + j) {}
  lemma Check2(j: bv8) requires j < 8 ensures IsEntry(Row2(j), 16 + j) {}
  lemma Check3(j: bv8) requires j < 8 ensures IsEntry(Row3(j), 24 + j) {}
  lemma Check4(j: bv8) requires j < 8 ensures IsEntry(Row4(j), 32 + j) {}
  lemma Check5(j: bv8) requires j < 8 ensures IsEntry(Row5(j), 40 + j) {}
  lemma Check6(j: bv8) requires j < 8 ensures IsEntry(Row6(j), 48 + j) {}
  lemma Check7(j: bv8) requires j < 8 ensures IsEntry(Row7(j), 56 + j) {}
  lemma Check8(j: bv8) requires j < 8 ensures IsEntry(Row8(j), 64 + j) {}
  lemma Check9(j: bv8) requires j < 8 ensures IsEntry(Row9(j), 72 + j) {}
  lemma Check10(j: bv8) requires j < 8 ensures IsEntry(Row10(j), 80 + j) {}
  lemma Check11(j: bv8) requires j < 8 ensures IsEntry(Row11(j), 88 + j) {}
  lemma Check12(j: bv8) requires j < 8 ensures IsEntry(Row12(j), 96 + j) {}
  lemma Check13(j: bv8) requires j < 8 ensures IsEntry(Row13(j), 104 + j) {}
  lemma Check14(j: bv8) requires j < 8 ensures IsEntry(Row14(j), 112 + j) {}
  lemma Check15(j: bv8) requires j < 8 ensures IsEntry(Row15(j), 120 + j) {}
  lemma Check16(j: bv8) requires j < 8 ensures IsEntry(Row16(j), 128 + j) {}
  lemma Check17(j: bv8) requires j < 8 ensures IsEntry(Row17(j), 136 + j) {}
  lemma Check18(j: bv8) requires j < 8 ensures IsEntry(Row18(j), 144 + j) {}
  lemma Check19(j: bv8) requires j < 8 ensures IsEntry(Row19(j), 152 + j) {}
  lemma Check20(j: bv8) requires j < 8 ensures IsEntry(Row20(j), 160 + j) {}
  lemma Check21(j: bv8) requires j < 8 ensures IsEntry(Row21(j), 168 + j) {}
  lemma Check22(j: bv8) requires j < 8 ensures IsEntry(Row22(j), 176 + j) {}
  lemma Check23(j: bv8) requires j < 8 ensures IsEntry(Row23(j), 184 + j) {}
  lemma Check24(j: bv8) requires j < 8 ensures IsEntry(Row24(j), 192 + j) {}
  lemma Check25(j: bv8) requires j < 8 ensures IsEntry(Row25(j), 200 + j) {}
  lemma Check26(j: bv8) requires j < 8 ensures IsEntry(Row26(j), 208 + j) {}
  lemma Check27(j: bv8) requires j < 8 ensures IsEntry(Row27(j), 216 + j) {}
  lemma Check28(j: bv8) requires j < 8 ensures IsEntry(Row28(j), 224 + j) {}
  lemma Check29(j: bv8) requires j < 8 ensures IsEntry(Row29(j), 232 + j) {}
  lemma Check30(j: bv8) requires j < 8 ensures IsEntry(Row30(j), 240 + j) {}
  lemma Check31(j: bv8) requires j < 8 ensures IsEntry(Row31(j), 248 + j) {}

  lemma LowRowsChecked(k: bv8, j: bv8)
    requires k < 16 && j < 8
    ensures IsEntry(LowRows(k, j), 8 * k + j)
  {
    hide IsEntry, Row0, Row1, Row2, Row3, Row4, Row5, Row6, Row7, Row8, Row9, Row10, Row11, Row12, Row13, Row14, Row15;
    if k == 0 {
      Check0(j);
    } else if k == 1 {
      Check1(j);
    } else if k == 2 {
      Check2(j);
    } else if k == 3 {
      Check3(j);
    } else if k == 4 {
      Check4(j);
    } else if k == 5 {
      Check5(j);
    } else if k == 6 {
      Check6(j);
    } else if k == 7 {
      Check7(j);
    } else if k == 8 {
      Check8(j);
    } else if k == 9 {
      Check9(j);
    } else if k == 10 {
      Check10(j);
    } else if k == 11 {
      Check11(j);
    } else if k == 12 {
      Check12(j);
    } else if k == 13 {
      Check13(j);
    } else if k == 14 {
      Check14(j);
    } else {
      Check15(j);
    }
  }

  lemma HighRowsChecked(k: bv8, j: bv8)
    requires 16 <= k < 32 && j < 8
    ensures IsEntry(HighRows(k, j), 8 * k + j)
  {
    hide IsEntry, Row16, Row17, Row18, Row19, Row20, Row21, Row22, Row23, Row24, Row25, Row26, Row27, Row28, Row29, Row30, Row31;
    if k == 16 {
      Check16(j);
    } else if k == 17 {
      Check17(j);
    } else if k == 18 {
      Check18(j);
    } else if k == 19 {
      Check19(j);
    } else if k == 20 {
      Check20(j);
    } else if k == 21 {
      Check21(j);
    } else if k == 22 {
      Check22(j);
    } else if k == 23 {
      Check23(j);
    } else if k == 24 {
      Check24(j);
    } else if k == 25 {
      Check25(j);
    } else if k == 26 {
      Check26(j);
    } else if k == 27 {
      Check27(j);
    } else if k == 28 {
      Check28(j);
    } else if k == 29 {
      Check29(j);
    } else if k == 30 {
      Check30(j);
    } else {
      Check31(j);
    }
  }

  /** Every one of the 256 entries is eight register steps of its index. */
  lemma TableIsShift8(i: bv8)
    ensures Table(i) == Shift8(i as bv32)
  {
    if i >> 3 < 16 {
      LowRowsChecked(i >> 3, i & 7);
    } else {
      HighRowsChecked(i >> 3, i & 7);
    }
    assert 8 * (i >> 3) + (i & 7) == i;
  }
}
