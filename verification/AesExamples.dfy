/** The published examples: the S-box of Figure 7 of FIPS 197, the key expansions of its Appendix A, and the cipher
    example of its Appendix B, computed from the definitions that the program is compared with. */
module AesExamples {
  import opened GF256
  import opened Fips197
  import opened BlockCipher

  // ----- Figure 7

  /** The product with all eight steps written out. */
  function Product(a: bv8, b: bv8): bv8 {
    var a1 := Xtime(a);
    var a2 := Xtime(a1);
    var a3 := Xtime(a2);
    var a4 := Xtime(a3);
    var a5 := Xtime(a4);
    var a6 := Xtime(a5);
    var a7 := Xtime(a6);
    Xor(Select(a, b), Xor(Select(a1, b >> 1), Xor(Select(a2, b >> 2), Xor(Select(a3, b >> 3),
    Xor(Select(a4, b >> 4), Xor(Select(a5, b >> 5), Xor(Select(a6, b >> 6), Select(a7, b >> 7))))))))
  }

  lemma ProductIsMul(a: bv8, b: bv8)
    ensures Product(a, b) == Mul(a, b)
  {
    hide Xor, Xtime, Select, Mul;
    MulUnfolded(a, b);
  }

  lemma SboxEntry(b: bv8, i: bv8, s: bv8)
    requires Product(b, i) == 1 && AffineByRotations(i) == s
    ensures SubByte(b) == s
  {
    hide Product, Affine, AffineByRotations, Inverse;
    ProductIsMul(b, i);
    InverseUnique(b, i);
    AffineIsRotations(i);
  }

  lemma SboxZero()
    ensures SubByte(0) == 0x63
  {
    hide Affine, Inverse;
    AffineIsRotations(0);
  }

  lemma SboxRow0()
    ensures SubByte(0x00) == 0x63 && SubByte(0x01) == 0x7C && SubByte(0x02) == 0x77 && SubByte(0x03) == 0x7B
    ensures SubByte(0x04) == 0xF2 && SubByte(0x05) == 0x6B && SubByte(0x06) == 0x6F && SubByte(0x07) == 0xC5
    ensures SubByte(0x08) == 0x30 && SubByte(0x09) == 0x01 && SubByte(0x0A) == 0x67 && SubByte(0x0B) == 0x2B
    ensures SubByte(0x0C) == 0xFE && SubByte(0x0D) == 0xD7 && SubByte(0x0E) == 0xAB && SubByte(0x0F) == 0x76
  {
    hide SubByte, Mul, Affine, Inverse;
    SboxZero(); SboxEntry(0x01, 0x01, 0x7C); SboxEntry(0x02, 0x8D, 0x77);
    SboxEntry(0x03, 0xF6, 0x7B); SboxEntry(0x04, 0xCB, 0xF2); SboxEntry(0x05, 0x52, 0x6B);
    SboxEntry(0x06, 0x7B, 0x6F); SboxEntry(0x07, 0xD1, 0xC5); SboxEntry(0x08, 0xE8, 0x30);
    SboxEntry(0x09, 0x4F, 0x01); SboxEntry(0x0A, 0x29, 0x67); SboxEntry(0x0B, 0xC0, 0x2B);
    SboxEntry(0x0C, 0xB0, 0xFE); SboxEntry(0x0D, 0xE1, 0xD7); SboxEntry(0x0E, 0xE5, 0xAB);
    SboxEntry(0x0F, 0xC7, 0x76);
  }

  lemma SboxRow1()
    ensures SubByte(0x10) == 0xCA && SubByte(0x11) == 0x82 && SubByte(0x12) == 0xC9 && SubByte(0x13) == 0x7D
    ensures SubByte(0x14) == 0xFA && SubByte(0x15) == 0x59 && SubByte(0x16) == 0x47 && SubByte(0x17) == 0xF0
    ensures SubByte(0x18) == 0xAD && SubByte(0x19) == 0xD4 && SubByte(0x1A) == 0xA2 && SubByte(0x1B) == 0xAF
    ensures SubByte(0x1C) == 0x9C && SubByte(0x1D) == 0xA4 && SubByte(0x1E) == 0x72 && SubByte(0x1F) == 0xC0
  {
    hide SubByte, Mul, Affine, Inverse;
    SboxEntry(0x10, 0x74, 0xCA); SboxEntry(0x11, 0xB4, 0x82); SboxEntry(0x12, 0xAA, 0xC9);
    SboxEntry(0x13, 0x4B, 0x7D); SboxEntry(0x14, 0x99, 0xFA); SboxEntry(0x15, 0x2B, 0x59);
    SboxEntry(0x16, 0x60, 0x47); SboxEntry(0x17, 0x5F, 0xF0); SboxEntry(0x18, 0x58, 0xAD);
    SboxEntry(0x19, 0x3F, 0xD4); SboxEntry(0x1A, 0xFD, 0xA2); SboxEntry(0x1B, 0xCC, 0xAF);
    SboxEntry(0x1C, 0xFF, 0x9C); SboxEntry(0x1D, 0x40, 0xA4); SboxEntry(0x1E, 0xEE, 0x72);
    SboxEntry(0x1F, 0xB2, 0xC0);
  }

  lemma SboxRow2()
    ensures SubByte(0x20) == 0xB7 && SubByte(0x21) == 0xFD && SubByte(0x22) == 0x93 && SubByte(0x23) == 0x26
    ensures SubByte(0x24) == 0x36 && SubByte(0x25) == 0x3F && SubByte(0x26) == 0xF7 && SubByte(0x27) == 0xCC
    ensures SubByte(0x28) == 0x34 && SubByte(0x29) == 0xA5 && SubByte(0x2A) == 0xE5 && SubByte(0x2B) == 0xF1
    ensures SubByte(0x2C) == 0x71 && SubByte(0x2D) == 0xD8 && SubByte(0x2E) == 0x31 && SubByte(0x2F) == 0x15
  {
    hide SubByte, Mul, Affine, Inverse;
    SboxEntry(0x20, 0x3A, 0xB7); SboxEntry(0x21, 0x6E, 0xFD); SboxEntry(0x22, 0x5A, 0x93);
    SboxEntry(0x23, 0xF1, 0x26); SboxEntry(0x24, 0x55, 0x36); SboxEntry(0x25, 0x4D, 0x3F);
    SboxEntry(0x26, 0xA8, 0xF7); SboxEntry(0x27, 0xC9, 0xCC); SboxEntry(0x28, 0xC1, 0x34);
    SboxEntry(0x29, 0x0A, 0xA5); SboxEntry(0x2A, 0x98, 0xE5); SboxEntry(0x2B, 0x15, 0xF1);
    SboxEntry(0x2C, 0x30, 0x71); SboxEntry(0x2D, 0x44, 0xD8); SboxEntry(0x2E, 0xA2, 0x31);
    SboxEntry(0x2F, 0xC2, 0x15);
  }

  lemma SboxRow3()
    ensures SubByte(0x30) == 0x04 && SubByte(0x31) == 0xC7 && SubByte(0x32) == 0x23 && SubByte(0x33) == 0xC3
    ensures SubByte(0x34) == 0x18 && SubByte(0x35) == 0x96 && SubByte(0x36) == 0x05 && SubByte(0x37) == 0x9A
    ensures SubByte(0x38) == 0x07 && SubByte(0x39) == 0x12 && SubByte(0x3A) == 0x80 && SubByte(0x3B) == 0xE2
    ensures SubByte(0x3C) == 0xEB && SubByte(0x3D) == 0x27 && SubByte(0x3E) == 0xB2 && SubByte(0x3F) == 0x75
  {
    hide SubByte, Mul, Affine, Inverse;
    SboxEntry(0x30, 0x2C, 0x04); SboxEntry(0x31, 0x45, 0xC7); SboxEntry(0x32, 0x92, 0x23);
    SboxEntry(0x33, 0x6C, 0xC3); SboxEntry(0x34, 0xF3, 0x18); SboxEntry(0x35, 0x39, 0x96);
    SboxEntry(0x36, 0x66, 0x05); SboxEntry(0x37, 0x42, 0x9A); SboxEntry(0x38, 0xF2, 0x07);
    SboxEntry(0x39, 0x35, 0x12); SboxEntry(0x3A, 0x20, 0x80); SboxEntry(0x3B, 0x6F, 0xE2);
    SboxEntry(0x3C, 0x77, 0xEB); SboxEntry(0x3D, 0xBB, 0x27); SboxEntry(0x3E, 0x59, 0xB2);
    SboxEntry(0x3F, 0x19, 0x75);
  }

  lemma SboxRow4()
    ensures SubByte(0x40) == 0x09 && SubByte(0x41) == 0x83 && SubByte(0x42) == 0x2C && SubByte(0x43) == 0x1A
    ensures SubByte(0x44) == 0x1B && SubByte(0x45) == 0x6E && SubByte(0x46) == 0x5A && SubByte(0x47) == 0xA0
    ensures SubByte(0x48) == 0x52 && SubByte(0x49) == 0x3B && SubByte(0x4A) == 0xD6 && SubByte(0x4B) == 0xB3
    ensures SubByte(0x4C) == 0x29 && SubByte(0x4D) == 0xE3 && SubByte(0x4E) == 0x2F && SubByte(0x4F) == 0x84
  {
    hide SubByte, Mul, Affine, Inverse;
    SboxEntry(0x40, 0x1D, 0x09); SboxEntry(0x41, 0xFE, 0x83); SboxEntry(0x42, 0x37, 0x2C);
    SboxEntry(0x43, 0x67, 0x1A); SboxEntry(0x44, 0x2D, 0x1B); SboxEntry(0x45, 0x31, 0x6E);
    SboxEntry(0x46, 0xF5, 0x5A); SboxEntry(0x47, 0x69, 0xA0); SboxEntry(0x48, 0xA7, 0x52);
    SboxEntry(0x49, 0x64, 0x3B); SboxEntry(0x4A, 0xAB, 0xD6); SboxEntry(0x4B, 0x13, 0xB3);
    SboxEntry(0x4C, 0x54, 0x29); SboxEntry(0x4D, 0x25, 0xE3); SboxEntry(0x4E, 0xE9, 0x2F);
    SboxEntry(0x4F, 0x09, 0x84);
  }

  lemma SboxRow5()
    ensures SubByte(0x50) == 0x53 && SubByte(0x51) == 0xD1 && SubByte(0x52) == 0x00 && SubByte(0x53) == 0xED
    ensures SubByte(0x54) == 0x20 && SubByte(0x55) == 0xFC && SubByte(0x56) == 0xB1 && SubByte(0x57) == 0x5B
    ensures SubByte(0x58) == 0x6A && SubByte(0x59) == 0xCB && SubByte(0x5A) == 0xBE && SubByte(0x5B) == 0x39
    ensures SubByte(0x5C) == 0x4A && SubByte(0x5D) == 0x4C && SubByte(0x5E) == 0x58 && SubByte(0x5F) == 0xCF
  {
    hide SubByte, Mul, Affine, Inverse;
    SboxEntry(0x50, 0xED, 0x53); SboxEntry(0x51, 0x5C, 0xD1); SboxEntry(0x52, 0x05, 0x00);
    SboxEntry(0x53, 0xCA, 0xED); SboxEntry(0x54, 0x4C, 0x20); SboxEntry(0x55, 0x24, 0xFC);
    SboxEntry(0x56, 0x87, 0xB1); SboxEntry(0x57, 0xBF, 0x5B); SboxEntry(0x58, 0x18, 0x6A);
    SboxEntry(0x59, 0x3E, 0xCB); SboxEntry(0x5A, 0x22, 0xBE); SboxEntry(0x5B, 0xF0, 0x39);
    SboxEntry(0x5C, 0x51, 0x4A); SboxEntry(0x5D, 0xEC, 0x4C); SboxEntry(0x5E, 0x61, 0x58);
    SboxEntry(0x5F, 0x17, 0xCF);
  }

  lemma SboxRow6()
    ensures SubByte(0x60) == 0xD0 && SubByte(0x61) == 0xEF && SubByte(0x62) == 0xAA && SubByte(0x63) == 0xFB
    ensures SubByte(0x64) == 0x43 && SubByte(0x65) == 0x4D && SubByte(0x66) == 0x33 && SubByte(0x67) == 0x85
    ensures SubByte(0x68) == 0x45 && SubByte(0x69) == 0xF9 && SubByte(0x6A) == 0x02 && SubByte(0x6B) == 0x7F
    ensures SubByte(0x6C) == 0x50 && SubByte(0x6D) == 0x3C && SubByte(0x6E) == 0x9F && SubByte(0x6F) == 0xA8
  {
    hide SubByte, Mul, Affine, Inverse;
    SboxEntry(0x60, 0x16, 0xD0); SboxEntry(0x61, 0x5E, 0xEF); SboxEntry(0x62, 0xAF, 0xAA);
    SboxEntry(0x63, 0xD3, 0xFB); SboxEntry(0x64, 0x49, 0x43); SboxEntry(0x65, 0xA6, 0x4D);
    SboxEntry(0x66, 0x36, 0x33); SboxEntry(0x67, 0x43, 0x85); SboxEntry(0x68, 0xF4, 0x45);
    SboxEntry(0x69, 0x47, 0xF9); SboxEntry(0x6A, 0x91, 0x02); SboxEntry(0x6B, 0xDF, 0x7F);
    SboxEntry(0x6C, 0x33, 0x50); SboxEntry(0x6D, 0x93, 0x3C); SboxEntry(0x6E, 0x21, 0x9F);
    SboxEntry(0x6F, 0x3B, 0xA8);
  }

  lemma SboxRow7()
    ensures SubByte(0x70) == 0x51 && SubByte(0x71) == 0xA3 && SubByte(0x72) == 0x40 && SubByte(0x73) == 0x8F
    ensures SubByte(0x74) == 0x92 && SubByte(0x75) == 0x9D && SubByte(0x76) == 0x38 && SubByte(0x77) == 0xF5
    ensures SubByte(0x78) == 0xBC && SubByte(0x79) == 0xB6 && SubByte(0x7A) == 0xDA && SubByte(0x7B) == 0x21
    ensures SubByte(0x7C) == 0x10 && SubByte(0x7D) == 0xFF && SubByte(0x7E) == 0xF3 && SubByte(0x7F) == 0xD2
  {
    hide SubByte, Mul, Affine, Inverse;
    SboxEntry(0x70, 0x79, 0x51); SboxEntry(0x71, 0xB7, 0xA3); SboxEntry(0x72, 0x97, 0x40);
    SboxEntry(0x73, 0x85, 0x8F); SboxEntry(0x74, 0x10, 0x92); SboxEntry(0x75, 0xB5, 0x9D);
    SboxEntry(0x76, 0xBA, 0x38); SboxEntry(0x77, 0x3C, 0xF5); SboxEntry(0x78, 0xB6, 0xBC);
    SboxEntry(0x79, 0x70, 0xB6); SboxEntry(0x7A, 0xD0, 0xDA); SboxEntry(0x7B, 0x06, 0x21);
    SboxEntry(0x7C, 0xA1, 0x10); SboxEntry(0x7D, 0xFA, 0xFF); SboxEntry(0x7E, 0x81, 0xF3);
    SboxEntry(0x7F, 0x82, 0xD2);
  }

  lemma SboxRow8()
    ensures SubByte(0x80) == 0xCD && SubByte(0x81) == 0x0C && SubByte(0x82) == 0x13 && SubByte(0x83) == 0xEC
    ensures SubByte(0x84) == 0x5F && SubByte(0x85) == 0x97 && SubByte(0x86) == 0x44 && SubByte(0x87) == 0x17
    ensures SubByte(0x88) == 0xC4 && SubByte(0x89) == 0xA7 && SubByte(0x8A) == 0x7E && SubByte(0x8B) == 0x3D
    ensures SubByte(0x8C) == 0x64 && SubByte(0x8D) == 0x5D && SubByte(0x8E) == 0x19 && SubByte(0x8F) == 0x73
  {
    hide SubByte, Mul, Affine, Inverse;
    SboxEntry(0x80, 0x83, 0xCD); SboxEntry(0x81, 0x7E, 0x0C); SboxEntry(0x82, 0x7F, 0x13);
    SboxEntry(0x83, 0x80, 0xEC); SboxEntry(0x84, 0x96, 0x5F); SboxEntry(0x85, 0x73, 0x97);
    SboxEntry(0x86, 0xBE, 0x44); SboxEntry(0x87, 0x56, 0x17); SboxEntry(0x88, 0x9B, 0xC4);
    SboxEntry(0x89, 0x9E, 0xA7); SboxEntry(0x8A, 0x95, 0x7E); SboxEntry(0x8B, 0xD9, 0x3D);
    SboxEntry(0x8C, 0xF7, 0x64); SboxEntry(0x8D, 0x02, 0x5D); SboxEntry(0x8E, 0xB9, 0x19);
    SboxEntry(0x8F, 0xA4, 0x73);
  }

  lemma SboxRow9()
    ensures SubByte(0x90) == 0x60 && SubByte(0x91) == 0x81 && SubByte(0x92) == 0x4F && SubByte(0x93) == 0xDC
    ensures SubByte(0x94) == 0x22 && SubByte(0x95) == 0x2A && SubByte(0x96) == 0x90 && SubByte(0x97) == 0x88
    ensures SubByte(0x98) == 0x46 && SubByte(0x99) == 0xEE && SubByte(0x9A) == 0xB8 && SubByte(0x9B) == 0x14
    ensures SubByte(0x9C) == 0xDE && SubByte(0x9D) == 0x5E && SubByte(0x9E) == 0x0B && SubByte(0x9F) == 0xDB
  {
    hide SubByte, Mul, Affine, Inverse;
    SboxEntry(0x90, 0xDE, 0x60); SboxEntry(0x91, 0x6A, 0x81); SboxEntry(0x92, 0x32, 0x4F);
    SboxEntry(0x93, 0x6D, 0xDC); SboxEntry(0x94, 0xD8, 0x22); SboxEntry(0x95, 0x8A, 0x2A);
    SboxEntry(0x96, 0x84, 0x90); SboxEntry(0x97, 0x72, 0x88); SboxEntry(0x98, 0x2A, 0x46);
    SboxEntry(0x99, 0x14, 0xEE); SboxEntry(0x9A, 0x9F, 0xB8); SboxEntry(0x9B, 0x88, 0x14);
    SboxEntry(0x9C, 0xF9, 0xDE); SboxEntry(0x9D, 0xDC, 0x5E); SboxEntry(0x9E, 0x89, 0x0B);
    SboxEntry(0x9F, 0x9A, 0xDB);
  }

  lemma SboxRowA()
    ensures SubByte(0xA0) == 0xE0 && SubByte(0xA1) == 0x32 && SubByte(0xA2) == 0x3A && SubByte(0xA3) == 0x0A
    ensures SubByte(0xA4) == 0x49 && SubByte(0xA5) == 0x06 && SubByte(0xA6) == 0x24 && SubByte(0xA7) == 0x5C
    ensures SubByte(0xA8) == 0xC2 && SubByte(0xA9) == 0xD3 && SubByte(0xAA) == 0xAC && SubByte(0xAB) == 0x62
    ensures SubByte(0xAC) == 0x91 && SubByte(0xAD) == 0x95 && SubByte(0xAE) == 0xE4 && SubByte(0xAF) == 0x79
  {
    hide SubByte, Mul, Affine, Inverse;
    SboxEntry(0xA0, 0xFB, 0xE0); SboxEntry(0xA1, 0x7C, 0x32); SboxEntry(0xA2, 0x2E, 0x3A);
    SboxEntry(0xA3, 0xC3, 0x0A); SboxEntry(0xA4, 0x8F, 0x49); SboxEntry(0xA5, 0xB8, 0x06);
    SboxEntry(0xA6, 0x65, 0x24); SboxEntry(0xA7, 0x48, 0x5C); SboxEntry(0xA8, 0x26, 0xC2);
    SboxEntry(0xA9, 0xC8, 0xD3); SboxEntry(0xAA, 0x12, 0xAC); SboxEntry(0xAB, 0x4A, 0x62);
    SboxEntry(0xAC, 0xCE, 0x91); SboxEntry(0xAD, 0xE7, 0x95); SboxEntry(0xAE, 0xD2, 0xE4);
    SboxEntry(0xAF, 0x62, 0x79);
  }

  lemma SboxRowB()
    ensures SubByte(0xB0) == 0xE7 && SubByte(0xB1) == 0xC8 && SubByte(0xB2) == 0x37 && SubByte(0xB3) == 0x6D
    ensures SubByte(0xB4) == 0x8D && SubByte(0xB5) == 0xD5 && SubByte(0xB6) == 0x4E && SubByte(0xB7) == 0xA9
    ensures SubByte(0xB8) == 0x6C && SubByte(0xB9) == 0x56 && SubByte(0xBA) == 0xF4 && SubByte(0xBB) == 0xEA
    ensures SubByte(0xBC) == 0x65 && SubByte(0xBD) == 0x7A && SubByte(0xBE) == 0xAE && SubByte(0xBF) == 0x08
  {
    hide SubByte, Mul, Affine, Inverse;
    SboxEntry(0xB0, 0x0C, 0xE7); SboxEntry(0xB1, 0xE0, 0xC8); SboxEntry(0xB2, 0x1F, 0x37);
    SboxEntry(0xB3, 0xEF, 0x6D); SboxEntry(0xB4, 0x11, 0x8D); SboxEntry(0xB5, 0x75, 0xD5);
    SboxEntry(0xB6, 0x78, 0x4E); SboxEntry(0xB7, 0x71, 0xA9); SboxEntry(0xB8, 0xA5, 0x6C);
    SboxEntry(0xB9, 0x8E, 0x56); SboxEntry(0xBA, 0x76, 0xF4); SboxEntry(0xBB, 0x3D, 0xEA);
    SboxEntry(0xBC, 0xBD, 0x65); SboxEntry(0xBD, 0xBC, 0x7A); SboxEntry(0xBE, 0x86, 0xAE);
    SboxEntry(0xBF, 0x57, 0x08);
  }

  lemma SboxRowC()
    ensures SubByte(0xC0) == 0xBA && SubByte(0xC1) == 0x78 && SubByte(0xC2) == 0x25 && SubByte(0xC3) == 0x2E
    ensures SubByte(0xC4) == 0x1C && SubByte(0xC5) == 0xA6 && SubByte(0xC6) == 0xB4 && SubByte(0xC7) == 0xC6
    ensures SubByte(0xC8) == 0xE8 && SubByte(0xC9) == 0xDD && SubByte(0xCA) == 0x74 && SubByte(0xCB) == 0x1F
    ensures SubByte(0xCC) == 0x4B && SubByte(0xCD) == 0xBD && SubByte(0xCE) == 0x8B && SubByte(0xCF) == 0x8A
  {
    hide SubByte, Mul, Affine, Inverse;
    SboxEntry(0xC0, 0x0B, 0xBA); SboxEntry(0xC1, 0x28, 0x78); SboxEntry(0xC2, 0x2F, 0x25);
    SboxEntry(0xC3, 0xA3, 0x2E); SboxEntry(0xC4, 0xDA, 0x1C); SboxEntry(0xC5, 0xD4, 0xA6);
    SboxEntry(0xC6, 0xE4, 0xB4); SboxEntry(0xC7, 0x0F, 0xC6); SboxEntry(0xC8, 0xA9, 0xE8);
    SboxEntry(0xC9, 0x27, 0xDD); SboxEntry(0xCA, 0x53, 0x74); SboxEntry(0xCB, 0x04, 0x1F);
    SboxEntry(0xCC, 0x1B, 0x4B); SboxEntry(0xCD, 0xFC, 0xBD); SboxEntry(0xCE, 0xAC, 0x8B);
    SboxEntry(0xCF, 0xE6, 0x8A);
  }

  lemma SboxRowD()
    ensures SubByte(0xD0) == 0x70 && SubByte(0xD1) == 0x3E && SubByte(0xD2) == 0xB5 && SubByte(0xD3) == 0x66
    ensures SubByte(0xD4) == 0x48 && SubByte(0xD5) == 0x03 && SubByte(0xD6) == 0xF6 && SubByte(0xD7) == 0x0E
    ensures SubByte(0xD8) == 0x61 && SubByte(0xD9) == 0x35 && SubByte(0xDA) == 0x57 && SubByte(0xDB) == 0xB9
    ensures SubByte(0xDC) == 0x86 && SubByte(0xDD) == 0xC1 && SubByte(0xDE) == 0x1D && SubByte(0xDF) == 0x9E
  {
    hide SubByte, Mul, Affine, Inverse;
    SboxEntry(0xD0, 0x7A, 0x70); SboxEntry(0xD1, 0x07, 0x3E); SboxEntry(0xD2, 0xAE, 0xB5);
    SboxEntry(0xD3, 0x63, 0x66); SboxEntry(0xD4, 0xC5, 0x48); SboxEntry(0xD5, 0xDB, 0x03);
    SboxEntry(0xD6, 0xE2, 0xF6); SboxEntry(0xD7, 0xEA, 0x0E); SboxEntry(0xD8, 0x94, 0x61);
    SboxEntry(0xD9, 0x8B, 0x35); SboxEntry(0xDA, 0xC4, 0x57); SboxEntry(0xDB, 0xD5, 0xB9);
    SboxEntry(0xDC, 0x9D, 0x86); SboxEntry(0xDD, 0xF8, 0xC1); SboxEntry(0xDE, 0x90, 0x1D);
    SboxEntry(0xDF, 0x6B, 0x9E);
  }

  lemma SboxRowE()
    ensures SubByte(0xE0) == 0xE1 && SubByte(0xE1) == 0xF8 && SubByte(0xE2) == 0x98 && SubByte(0xE3) == 0x11
    ensures SubByte(0xE4) == 0x69 && SubByte(0xE5) == 0xD9 && SubByte(0xE6) == 0x8E && SubByte(0xE7) == 0x94
    ensures SubByte(0xE8) == 0x9B && SubByte(0xE9) == 0x1E && SubByte(0xEA) == 0x87 && SubByte(0xEB) == 0xE9
    ensures SubByte(0xEC) == 0xCE && SubByte(0xED) == 0x55 && SubByte(0xEE) == 0x28 && SubByte(0xEF) == 0xDF
  {
    hide SubByte, Mul, Affine, Inverse;
    SboxEntry(0xE0, 0xB1, 0xE1); SboxEntry(0xE1, 0x0D, 0xF8); SboxEntry(0xE2, 0xD6, 0x98);
    SboxEntry(0xE3, 0xEB, 0x11); SboxEntry(0xE4, 0xC6, 0x69); SboxEntry(0xE5, 0x0E, 0xD9);
    SboxEntry(0xE6, 0xCF, 0x8E); SboxEntry(0xE7, 0xAD, 0x94); SboxEntry(0xE8, 0x08, 0x9B);
    SboxEntry(0xE9, 0x4E, 0x1E); SboxEntry(0xEA, 0xD7, 0x87); SboxEntry(0xEB, 0xE3, 0xE9);
    SboxEntry(0xEC, 0x5D, 0xCE); SboxEntry(0xED, 0x50, 0x55); SboxEntry(0xEE, 0x1E, 0x28);
    SboxEntry(0xEF, 0xB3, 0xDF);
  }

  lemma SboxRowF()
    ensures SubByte(0xF0) == 0x8C && SubByte(0xF1) == 0xA1 && SubByte(0xF2) == 0x89 && SubByte(0xF3) == 0x0D
    ensures SubByte(0xF4) == 0xBF && SubByte(0xF5) == 0xE6 && SubByte(0xF6) == 0x42 && SubByte(0xF7) == 0x68
    ensures SubByte(0xF8) == 0x41 && SubByte(0xF9) == 0x99 && SubByte(0xFA) == 0x2D && SubByte(0xFB) == 0x0F
    ensures SubByte(0xFC) == 0xB0 && SubByte(0xFD) == 0x54 && SubByte(0xFE) == 0xBB && SubByte(0xFF) == 0x16
  {
    hide SubByte, Mul, Affine, Inverse;
    SboxEntry(0xF0, 0x5B, 0x8C); SboxEntry(0xF1, 0x23, 0xA1); SboxEntry(0xF2, 0x38, 0x89);
    SboxEntry(0xF3, 0x34, 0x0D); SboxEntry(0xF4, 0x68, 0xBF); SboxEntry(0xF5, 0x46, 0xE6);
    SboxEntry(0xF6, 0x03, 0x42); SboxEntry(0xF7, 0x8C, 0x68); SboxEntry(0xF8, 0xDD, 0x41);
    SboxEntry(0xF9, 0x9C, 0x99); SboxEntry(0xFA, 0x7D, 0x2D); SboxEntry(0xFB, 0xA0, 0x0F);
    SboxEntry(0xFC, 0xCD, 0xB0); SboxEntry(0xFD, 0x1A, 0x54); SboxEntry(0xFE, 0x41, 0xBB);
    SboxEntry(0xFF, 0x1C, 0x16);
  }

  // ----- Appendix A: key expansion

  /** What the recurrence adds at word `i` when word `i` - 1 is `temp`. */
  ghost function Mixed(key: seq<bv8>, i: nat, temp: Column): Column
    requires IsKey(key) && i >= KeyWords(key)
  {
    var nk := KeyWords(key);
    if i % nk == 0 then AddColumn(SubColumn(RotWord(temp)), Rcon(RconIndex(i, nk)))
    else if nk > 6 && i % nk == 4 then SubColumn(temp)
    else temp
  }

  lemma NextWord(key: seq<bv8>, i: nat, back: Column, temp: Column, mixed: Column)
    requires IsKey(key) && i >= KeyWords(key)
    requires KeyWord(key, i - KeyWords(key)) == back && KeyWord(key, i - 1) == temp && Mixed(key, i, temp) == mixed
    ensures KeyWord(key, i) == AddColumn(back, mixed)
  {
    hide SubColumn, RotWord, AddColumn;
  }

  lemma FirstWord(key: seq<bv8>, i: nat)
    requires IsKey(key) && i < KeyWords(key)
    ensures KeyWord(key, i) == KeyColumn(key, i)
  {}

  lemma RoundConstants()
    ensures RconByte(0) == 0x01 && RconByte(1) == 0x02 && RconByte(2) == 0x04 && RconByte(3) == 0x08
    ensures RconByte(4) == 0x10 && RconByte(5) == 0x20 && RconByte(6) == 0x40 && RconByte(7) == 0x80
    ensures RconByte(8) == 0x1B && RconByte(9) == 0x36
  {}

  function Key128(): (k: seq<bv8>)
    ensures |k| == 16
  {
    [0x2B, 0x7E, 0x15, 0x16, 0x28, 0xAE, 0xD2, 0xA6, 0xAB, 0xF7, 0x15, 0x88, 0x09, 0xCF, 0x4F, 0x3C]
  }

  /** Words 4r to 4r + 3. */
  ghost predicate Four(key: seq<bv8>, r: nat, s: State)
    requires IsKey(key)
  {
    KeyWord(key, 4 * r) == s.c0 && KeyWord(key, 4 * r + 1) == s.c1 && KeyWord(key, 4 * r + 2) == s.c2 &&
    KeyWord(key, 4 * r + 3) == s.c3
  }

  lemma NextFour(key: seq<bv8>, r: nat, s: State, t: Column)
    requires |key| == 16 && 1 <= r && Four(key, r - 1, s)
    requires t == AddColumn(SubColumn(RotWord(s.c3)), Rcon(r - 1))
    ensures
      var c0 := AddColumn(s.c0, t);
      var c1 := AddColumn(s.c1, c0);
      var c2 := AddColumn(s.c2, c1);
      Four(key, r, State(c0, c1, c2, AddColumn(s.c3, c2)))
  {
    hide SubColumn, RotWord, AddColumn, KeyWord, Rcon;
    var c0 := AddColumn(s.c0, t);
    var c1 := AddColumn(s.c1, c0);
    var c2 := AddColumn(s.c2, c1);
    NextWord(key, 4 * r, s.c0, s.c3, t);
    NextWord(key, 4 * r + 1, s.c1, c0, c0);
    NextWord(key, 4 * r + 2, s.c2, c1, c1);
    NextWord(key, 4 * r + 3, s.c3, c2, c2);
  }

  lemma RoundKey0()
    ensures Four(Key128(), 0, State(Column(0x2B, 0x7E, 0x15, 0x16), Column(0x28, 0xAE, 0xD2, 0xA6),
                                    Column(0xAB, 0xF7, 0x15, 0x88), Column(0x09, 0xCF, 0x4F, 0x3C)))
  {}

  lemma RoundKey1()
    ensures Four(Key128(), 1, State(Column(0xA0, 0xFA, 0xFE, 0x17), Column(0x88, 0x54, 0x2C, 0xB1),
                                    Column(0x23, 0xA3, 0x39, 0x39), Column(0x2A, 0x6C, 0x76, 0x05)))
  {
    hide Four, KeyWord, SubByte, RconByte;
    RoundConstants(); SboxRow0(); SboxRow3(); SboxRow4(); SboxRowC();
    RoundKey0();
    NextFour(Key128(), 1, State(Column(0x2B, 0x7E, 0x15, 0x16), Column(0x28, 0xAE, 0xD2, 0xA6),
                                 Column(0xAB, 0xF7, 0x15, 0x88), Column(0x09, 0xCF, 0x4F, 0x3C)),
             Column(0x8B, 0x84, 0xEB, 0x01));
  }

  lemma RoundKey2()
    ensures Four(Key128(), 2, State(Column(0xF2, 0xC2, 0x95, 0xF2), Column(0x7A, 0x96, 0xB9, 0x43),
                                    Column(0x59, 0x35, 0x80, 0x7A), Column(0x73, 0x59, 0xF6, 0x7F)))
  {
    hide Four, KeyWord, SubByte, RconByte;
    RoundConstants(); SboxRow0(); SboxRow2(); SboxRow6(); SboxRow7();
    RoundKey1();
    NextFour(Key128(), 2, State(Column(0xA0, 0xFA, 0xFE, 0x17), Column(0x88, 0x54, 0x2C, 0xB1),
                                 Column(0x23, 0xA3, 0x39, 0x39), Column(0x2A, 0x6C, 0x76, 0x05)),
             Column(0x52, 0x38, 0x6B, 0xE5));
  }

  lemma RoundKey3()
    ensures Four(Key128(), 3, State(Column(0x3D, 0x80, 0x47, 0x7D), Column(0x47, 0x16, 0xFE, 0x3E),
                                    Column(0x1E, 0x23, 0x7E, 0x44), Column(0x6D, 0x7A, 0x88, 0x3B)))
  {
    hide Four, KeyWord, SubByte, RconByte;
    RoundConstants(); SboxRow5(); SboxRow7(); SboxRowF();
    RoundKey2();
    NextFour(Key128(), 3, State(Column(0xF2, 0xC2, 0x95, 0xF2), Column(0x7A, 0x96, 0xB9, 0x43),
                                 Column(0x59, 0x35, 0x80, 0x7A), Column(0x73, 0x59, 0xF6, 0x7F)),
             Column(0xCF, 0x42, 0xD2, 0x8F));
  }

  lemma RoundKey4()
    ensures Four(Key128(), 4, State(Column(0xEF, 0x44, 0xA5, 0x41), Column(0xA8, 0x52, 0x5B, 0x7F),
                                    Column(0xB6, 0x71, 0x25, 0x3B), Column(0xDB, 0x0B, 0xAD, 0x00)))
  {
    hide Four, KeyWord, SubByte, RconByte;
    RoundConstants(); SboxRow3(); SboxRow6(); SboxRow7(); SboxRow8();
    RoundKey3();
    NextFour(Key128(), 4, State(Column(0x3D, 0x80, 0x47, 0x7D), Column(0x47, 0x16, 0xFE, 0x3E),
                                 Column(0x1E, 0x23, 0x7E, 0x44), Column(0x6D, 0x7A, 0x88, 0x3B)),
             Column(0xD2, 0xC4, 0xE2, 0x3C));
  }

  lemma RoundKey5()
    ensures Four(Key128(), 5, State(Column(0xD4, 0xD1, 0xC6, 0xF8), Column(0x7C, 0x83, 0x9D, 0x87),
                                    Column(0xCA, 0xF2, 0xB8, 0xBC), Column(0x11, 0xF9, 0x15, 0xBC)))
  {
    hide Four, KeyWord, SubByte, RconByte;
    RoundConstants(); SboxRow0(); SboxRowA(); SboxRowD();
    RoundKey4();
    NextFour(Key128(), 5, State(Column(0xEF, 0x44, 0xA5, 0x41), Column(0xA8, 0x52, 0x5B, 0x7F),
                                 Column(0xB6, 0x71, 0x25, 0x3B), Column(0xDB, 0x0B, 0xAD, 0x00)),
             Column(0x3B, 0x95, 0x63, 0xB9));
  }

  lemma RoundKey6()
    ensures Four(Key128(), 6, State(Column(0x6D, 0x88, 0xA3, 0x7A), Column(0x11, 0x0B, 0x3E, 0xFD),
                                    Column(0xDB, 0xF9, 0x86, 0x41), Column(0xCA, 0x00, 0x93, 0xFD)))
  {
    hide Four, KeyWord, SubByte, RconByte;
    RoundConstants(); SboxRow1(); SboxRowB(); SboxRowF();
    RoundKey5();
    NextFour(Key128(), 6, State(Column(0xD4, 0xD1, 0xC6, 0xF8), Column(0x7C, 0x83, 0x9D, 0x87),
                                 Column(0xCA, 0xF2, 0xB8, 0xBC), Column(0x11, 0xF9, 0x15, 0xBC)),
             Column(0xB9, 0x59, 0x65, 0x82));
  }

  lemma RoundKey7()
    ensures Four(Key128(), 7, State(Column(0x4E, 0x54, 0xF7, 0x0E), Column(0x5F, 0x5F, 0xC9, 0xF3),
                                    Column(0x84, 0xA6, 0x4F, 0xB2), Column(0x4E, 0xA6, 0xDC, 0x4F)))
  {
    hide Four, KeyWord, SubByte, RconByte;
    RoundConstants(); SboxRow0(); SboxRow9(); SboxRowC(); SboxRowF();
    RoundKey6();
    NextFour(Key128(), 7, State(Column(0x6D, 0x88, 0xA3, 0x7A), Column(0x11, 0x0B, 0x3E, 0xFD),
                                 Column(0xDB, 0xF9, 0x86, 0x41), Column(0xCA, 0x00, 0x93, 0xFD)),
             Column(0x23, 0xDC, 0x54, 0x74));
  }

  lemma RoundKey8()
    ensures Four(Key128(), 8, State(Column(0xEA, 0xD2, 0x73, 0x21), Column(0xB5, 0x8D, 0xBA, 0xD2),
                                    Column(0x31, 0x2B, 0xF5, 0x60), Column(0x7F, 0x8D, 0x29, 0x2F)))
  {
    hide Four, KeyWord, SubByte, RconByte;
    RoundConstants(); SboxRow4(); SboxRowA(); SboxRowD();
    RoundKey7();
    NextFour(Key128(), 8, State(Column(0x4E, 0x54, 0xF7, 0x0E), Column(0x5F, 0x5F, 0xC9, 0xF3),
                                 Column(0x84, 0xA6, 0x4F, 0xB2), Column(0x4E, 0xA6, 0xDC, 0x4F)),
             Column(0xA4, 0x86, 0x84, 0x2F));
  }

  lemma RoundKey9()
    ensures Four(Key128(), 9, State(Column(0xAC, 0x77, 0x66, 0xF3), Column(0x19, 0xFA, 0xDC, 0x21),
                                    Column(0x28, 0xD1, 0x29, 0x41), Column(0x57, 0x5C, 0x00, 0x6E)))
  {
    hide Four, KeyWord, SubByte, RconByte;
    RoundConstants(); SboxRow2(); SboxRow7(); SboxRow8();
    RoundKey8();
    NextFour(Key128(), 9, State(Column(0xEA, 0xD2, 0x73, 0x21), Column(0xB5, 0x8D, 0xBA, 0xD2),
                                 Column(0x31, 0x2B, 0xF5, 0x60), Column(0x7F, 0x8D, 0x29, 0x2F)),
             Column(0x46, 0xA5, 0x15, 0xD2));
  }

  lemma RoundKey10()
    ensures Four(Key128(), 10, State(Column(0xD0, 0x14, 0xF9, 0xA8), Column(0xC9, 0xEE, 0x25, 0x89),
                                     Column(0xE1, 0x3F, 0x0C, 0xC8), Column(0xB6, 0x63, 0x0C, 0xA6)))
  {
    hide Four, KeyWord, SubByte, RconByte;
    RoundConstants(); SboxRow0(); SboxRow5(); SboxRow6();
    RoundKey9();
    NextFour(Key128(), 10, State(Column(0xAC, 0x77, 0x66, 0xF3), Column(0x19, 0xFA, 0xDC, 0x21),
                                  Column(0x28, 0xD1, 0x29, 0x41), Column(0x57, 0x5C, 0x00, 0x6E)),
             Column(0x7C, 0x63, 0x9F, 0x5B));
  }

  function Key192(): (k: seq<bv8>)
    ensures |k| == 24
  {
    [0x8E, 0x73, 0xB0, 0xF7, 0xDA, 0x0E, 0x64, 0x52, 0xC8, 0x10, 0xF3, 0x2B, 0x80, 0x90, 0x79, 0xE5,
     0x62, 0xF8, 0xEA, 0xD2, 0x52, 0x2C, 0x6B, 0x7B]
  }

  lemma FirstaKey192()
    ensures KeyWord(Key192(), 0) == Column(0x8E, 0x73, 0xB0, 0xF7)
    ensures KeyWord(Key192(), 1) == Column(0xDA, 0x0E, 0x64, 0x52)
    ensures KeyWord(Key192(), 2) == Column(0xC8, 0x10, 0xF3, 0x2B)
  {
    hide KeyWord;
    FirstWord(Key192(), 0); FirstWord(Key192(), 1); FirstWord(Key192(), 2);
  }

  lemma FirstbKey192()
    ensures KeyWord(Key192(), 3) == Column(0x80, 0x90, 0x79, 0xE5)
    ensures KeyWord(Key192(), 4) == Column(0x62, 0xF8, 0xEA, 0xD2)
    ensures KeyWord(Key192(), 5) == Column(0x52, 0x2C, 0x6B, 0x7B)
  {
    hide KeyWord;
    FirstWord(Key192(), 3); FirstWord(Key192(), 4); FirstWord(Key192(), 5);
  }

  /** Appendix A.2, through the second round constant. */
  lemma Expanded192()
    ensures KeyWord(Key192(), 6) == Column(0xFE, 0x0C, 0x91, 0xF7)
    ensures KeyWord(Key192(), 7) == Column(0x24, 0x02, 0xF5, 0xA5)
    ensures KeyWord(Key192(), 8) == Column(0xEC, 0x12, 0x06, 0x8E)
    ensures KeyWord(Key192(), 9) == Column(0x6C, 0x82, 0x7F, 0x6B)
    ensures KeyWord(Key192(), 10) == Column(0x0E, 0x7A, 0x95, 0xB9)
    ensures KeyWord(Key192(), 11) == Column(0x5C, 0x56, 0xFE, 0xC2)
    ensures KeyWord(Key192(), 12) == Column(0x4D, 0xB7, 0xB4, 0xBD)
  {
    hide KeyWord, SubByte, RconByte;
    RoundConstants();
    SboxRow2(); SboxRow5(); SboxRow6(); SboxRow7(); SboxRowC(); SboxRowF();
    FirstaKey192();
    FirstbKey192();
    NextWord(Key192(), 6, Column(0x8E, 0x73, 0xB0, 0xF7), Column(0x52, 0x2C, 0x6B, 0x7B),
             Column(0x70, 0x7F, 0x21, 0x00));
    NextWord(Key192(), 7, Column(0xDA, 0x0E, 0x64, 0x52), Column(0xFE, 0x0C, 0x91, 0xF7),
             Column(0xFE, 0x0C, 0x91, 0xF7));
    NextWord(Key192(), 8, Column(0xC8, 0x10, 0xF3, 0x2B), Column(0x24, 0x02, 0xF5, 0xA5),
             Column(0x24, 0x02, 0xF5, 0xA5));
    NextWord(Key192(), 9, Column(0x80, 0x90, 0x79, 0xE5), Column(0xEC, 0x12, 0x06, 0x8E),
             Column(0xEC, 0x12, 0x06, 0x8E));
    NextWord(Key192(), 10, Column(0x62, 0xF8, 0xEA, 0xD2), Column(0x6C, 0x82, 0x7F, 0x6B),
             Column(0x6C, 0x82, 0x7F, 0x6B));
    NextWord(Key192(), 11, Column(0x52, 0x2C, 0x6B, 0x7B), Column(0x0E, 0x7A, 0x95, 0xB9),
             Column(0x0E, 0x7A, 0x95, 0xB9));
    NextWord(Key192(), 12, Column(0xFE, 0x0C, 0x91, 0xF7), Column(0x5C, 0x56, 0xFE, 0xC2),
             Column(0xB3, 0xBB, 0x25, 0x4A));
  }

  function KeyStart(): (k: seq<bv8>)
    ensures |k| == 16
  {
    [0x60, 0x3D, 0xEB, 0x10, 0x15, 0xCA, 0x71, 0xBE, 0x2B, 0x73, 0xAE, 0xF0, 0x85, 0x7D, 0x77, 0x81]
  }

  function KeyEnd(): (k: seq<bv8>)
    ensures |k| == 16
  {
    [0x1F, 0x35, 0x2C, 0x07, 0x3B, 0x61, 0x08, 0xD7, 0x2D, 0x98, 0x10, 0xA3, 0x09, 0x14, 0xDF, 0xF4]
  }

  function Key256(): (k: seq<bv8>)
    ensures |k| == 32
  {
    KeyStart() + KeyEnd()
  }

  lemma FirstaKey256()
    ensures KeyWord(Key256(), 0) == Column(0x60, 0x3D, 0xEB, 0x10)
    ensures KeyWord(Key256(), 1) == Column(0x15, 0xCA, 0x71, 0xBE)
    ensures KeyWord(Key256(), 2) == Column(0x2B, 0x73, 0xAE, 0xF0)
    ensures KeyWord(Key256(), 3) == Column(0x85, 0x7D, 0x77, 0x81)
  {
    hide KeyWord;
    FirstWord(Key256(), 0); FirstWord(Key256(), 1); FirstWord(Key256(), 2); FirstWord(Key256(), 3);
  }

  lemma FirstbKey256()
    ensures KeyWord(Key256(), 4) == Column(0x1F, 0x35, 0x2C, 0x07)
    ensures KeyWord(Key256(), 5) == Column(0x3B, 0x61, 0x08, 0xD7)
    ensures KeyWord(Key256(), 6) == Column(0x2D, 0x98, 0x10, 0xA3)
    ensures KeyWord(Key256(), 7) == Column(0x09, 0x14, 0xDF, 0xF4)
  {
    hide KeyWord;
    FirstWord(Key256(), 4); FirstWord(Key256(), 5); FirstWord(Key256(), 6); FirstWord(Key256(), 7);
  }

  /** Appendix A.3, through the middle SubWord and the second round constant. */
  lemma Expanded256()
    ensures KeyWord(Key256(), 8) == Column(0x9B, 0xA3, 0x54, 0x11)
    ensures KeyWord(Key256(), 9) == Column(0x8E, 0x69, 0x25, 0xAF)
    ensures KeyWord(Key256(), 10) == Column(0xA5, 0x1A, 0x8B, 0x5F)
    ensures KeyWord(Key256(), 11) == Column(0x20, 0x67, 0xFC, 0xDE)
    ensures KeyWord(Key256(), 12) == Column(0xA8, 0xB0, 0x9C, 0x1A)
    ensures KeyWord(Key256(), 13) == Column(0x93, 0xD1, 0x94, 0xCD)
    ensures KeyWord(Key256(), 14) == Column(0xBE, 0x49, 0x84, 0x6E)
    ensures KeyWord(Key256(), 15) == Column(0xB7, 0x5D, 0x5B, 0x9A)
    ensures KeyWord(Key256(), 16) == Column(0xD5, 0x9A, 0xEC, 0xB8)
  {
    hide KeyWord, SubByte, RconByte;
    RoundConstants();
    SboxRow0(); SboxRow1(); SboxRow2(); SboxRow5(); SboxRow6(); SboxRow9(); SboxRowB(); SboxRowD();
    SboxRowF();
    FirstaKey256();
    FirstbKey256();
    NextWord(Key256(), 8, Column(0x60, 0x3D, 0xEB, 0x10), Column(0x09, 0x14, 0xDF, 0xF4),
             Column(0xFB, 0x9E, 0xBF, 0x01));
    NextWord(Key256(), 9, Column(0x15, 0xCA, 0x71, 0xBE), Column(0x9B, 0xA3, 0x54, 0x11),
             Column(0x9B, 0xA3, 0x54, 0x11));
    NextWord(Key256(), 10, Column(0x2B, 0x73, 0xAE, 0xF0), Column(0x8E, 0x69, 0x25, 0xAF),
             Column(0x8E, 0x69, 0x25, 0xAF));
    NextWord(Key256(), 11, Column(0x85, 0x7D, 0x77, 0x81), Column(0xA5, 0x1A, 0x8B, 0x5F),
             Column(0xA5, 0x1A, 0x8B, 0x5F));
    NextWord(Key256(), 12, Column(0x1F, 0x35, 0x2C, 0x07), Column(0x20, 0x67, 0xFC, 0xDE),
             Column(0xB7, 0x85, 0xB0, 0x1D));
    NextWord(Key256(), 13, Column(0x3B, 0x61, 0x08, 0xD7), Column(0xA8, 0xB0, 0x9C, 0x1A),
             Column(0xA8, 0xB0, 0x9C, 0x1A));
    NextWord(Key256(), 14, Column(0x2D, 0x98, 0x10, 0xA3), Column(0x93, 0xD1, 0x94, 0xCD),
             Column(0x93, 0xD1, 0x94, 0xCD));
    NextWord(Key256(), 15, Column(0x09, 0x14, 0xDF, 0xF4), Column(0xBE, 0x49, 0x84, 0x6E),
             Column(0xBE, 0x49, 0x84, 0x6E));
    NextWord(Key256(), 16, Column(0x9B, 0xA3, 0x54, 0x11), Column(0xB7, 0x5D, 0x5B, 0x9A),
             Column(0x4E, 0x39, 0xB8, 0xA9));
  }

  // ----- Appendix B: the cipher

  /** MixColumns of a column by doubling. */
  function MixBits(c: Column): Column {
    var x0, x1, x2, x3 := Xtime(c.r0), Xtime(c.r1), Xtime(c.r2), Xtime(c.r3);
    Column(Xor4(x0, Xor(c.r1, x1), c.r2, c.r3), Xor4(c.r0, x1, Xor(c.r2, x2), c.r3),
           Xor4(c.r0, c.r1, x2, Xor(c.r3, x3)), Xor4(Xor(c.r0, x0), c.r1, c.r2, x3))
  }

  lemma MixBitsIsMix(c: Column)
    ensures MixColumn(c) == MixBits(c)
  {
    hide Mul, Xor, Xor4, Xtime;
    MulSmall(c.r0);
    MulSmall(c.r1);
    MulSmall(c.r2);
    MulSmall(c.r3);
  }

  lemma RoundKeyIs(key: seq<bv8>, r: nat, s: State)
    requires |key| == 16 && r <= 10 && Four(key, r, s)
    ensures RoundKey(KeyExpansion(key), r) == s
  {
    hide KeyWord;
  }

  /** One full round, from the state before it, the state after SubBytes, and the round key. */
  lemma NextRound(key: seq<bv8>, r: nat, input: State, s: State, u: State, k: State)
    requires |key| == 16 && 1 <= r <= 9 && Rounds(KeyExpansion(key), r - 1, input) == s && SubBytes(s) == u
    requires Four(key, r, k)
    ensures
      var t := ShiftRows(u);
      Rounds(KeyExpansion(key), r, input) ==
      Add(State(MixBits(t.c0), MixBits(t.c1), MixBits(t.c2), MixBits(t.c3)), k)
  {
    hide SubBytes, ShiftRows, Add, MixBits, MixColumn, KeyExpansion, RoundKey, Four;
    var t := ShiftRows(u);
    RoundKeyIs(key, r, k);
    MixBitsIsMix(t.c0);
    MixBitsIsMix(t.c1);
    MixBitsIsMix(t.c2);
    MixBitsIsMix(t.c3);
  }

  function Input(): Block {
    [0x32, 0x43, 0xF6, 0xA8, 0x88, 0x5A, 0x30, 0x8D, 0x31, 0x31, 0x98, 0xA2, 0xE0, 0x37, 0x07, 0x34]
  }

  lemma Round0()
    ensures Rounds(KeyExpansion(Key128()), 0, FromBytes(Input())) ==
            State(Column(0x19, 0x3D, 0xE3, 0xBE), Column(0xA0, 0xF4, 0xE2, 0x2B),
                  Column(0x9A, 0xC6, 0x8D, 0x2A), Column(0xE9, 0xF8, 0x48, 0x08))
  {
    hide Four, KeyExpansion, RoundKey;
    RoundKey0();
    RoundKeyIs(Key128(), 0, State(Column(0x2B, 0x7E, 0x15, 0x16), Column(0x28, 0xAE, 0xD2, 0xA6),
                                  Column(0xAB, 0xF7, 0x15, 0x88), Column(0x09, 0xCF, 0x4F, 0x3C)));
  }

  lemma Round1()
    ensures Rounds(KeyExpansion(Key128()), 1, FromBytes(Input())) ==
            State(Column(0xA4, 0x9C, 0x7F, 0xF2), Column(0x68, 0x9F, 0x35, 0x2B),
                  Column(0x6B, 0x5B, 0xEA, 0x43), Column(0x02, 0x6A, 0x50, 0x49))
  {
    hide Rounds, KeyExpansion, Four, SubByte, FromBytes, Key128;
    Round0();
    RoundKey1();
    SboxRow0(); SboxRow1(); SboxRow2(); SboxRow3(); SboxRow4(); SboxRow8(); SboxRow9(); SboxRowA();
    SboxRowB(); SboxRowC(); SboxRowE(); SboxRowF();
    NextRound(Key128(), 1, FromBytes(Input()), State(Column(0x19, 0x3D, 0xE3, 0xBE), Column(0xA0, 0xF4, 0xE2, 0x2B),
                                                      Column(0x9A, 0xC6, 0x8D, 0x2A), Column(0xE9, 0xF8, 0x48, 0x08)),
              State(Column(0xD4, 0x27, 0x11, 0xAE), Column(0xE0, 0xBF, 0x98, 0xF1),
                    Column(0xB8, 0xB4, 0x5D, 0xE5), Column(0x1E, 0x41, 0x52, 0x30)),
              State(Column(0xA0, 0xFA, 0xFE, 0x17), Column(0x88, 0x54, 0x2C, 0xB1),
                    Column(0x23, 0xA3, 0x39, 0x39), Column(0x2A, 0x6C, 0x76, 0x05)));
  }

  lemma Round2()
    ensures Rounds(KeyExpansion(Key128()), 2, FromBytes(Input())) ==
            State(Column(0xAA, 0x8F, 0x5F, 0x03), Column(0x61, 0xDD, 0xE3, 0xEF),
                  Column(0x82, 0xD2, 0x4A, 0xD2), Column(0x68, 0x32, 0x46, 0x9A))
  {
    hide Rounds, KeyExpansion, Four, SubByte, FromBytes, Key128;
    Round1();
    RoundKey2();
    SboxRow0(); SboxRow2(); SboxRow3(); SboxRow4(); SboxRow5(); SboxRow6(); SboxRow7(); SboxRow9();
    SboxRowA(); SboxRowE(); SboxRowF();
    NextRound(Key128(), 2, FromBytes(Input()), State(Column(0xA4, 0x9C, 0x7F, 0xF2), Column(0x68, 0x9F, 0x35, 0x2B),
                                                      Column(0x6B, 0x5B, 0xEA, 0x43), Column(0x02, 0x6A, 0x50, 0x49)),
              State(Column(0x49, 0xDE, 0xD2, 0x89), Column(0x45, 0xDB, 0x96, 0xF1),
                    Column(0x7F, 0x39, 0x87, 0x1A), Column(0x77, 0x02, 0x53, 0x3B)),
              State(Column(0xF2, 0xC2, 0x95, 0xF2), Column(0x7A, 0x96, 0xB9, 0x43),
                    Column(0x59, 0x35, 0x80, 0x7A), Column(0x73, 0x59, 0xF6, 0x7F)));
  }

  lemma Round3()
    ensures Rounds(KeyExpansion(Key128()), 3, FromBytes(Input())) ==
            State(Column(0x48, 0x6C, 0x4E, 0xEE), Column(0x67, 0x1D, 0x9D, 0x0D),
                  Column(0x4D, 0xE3, 0xB1, 0x38), Column(0xD6, 0x5F, 0x58, 0xE7))
  {
    hide Rounds, KeyExpansion, Four, SubByte, FromBytes, Key128;
    Round2();
    RoundKey3();
    SboxRow0(); SboxRow3(); SboxRow4(); SboxRow5(); SboxRow6(); SboxRow8(); SboxRow9(); SboxRowA();
    SboxRowD(); SboxRowE();
    NextRound(Key128(), 3, FromBytes(Input()), State(Column(0xAA, 0x8F, 0x5F, 0x03), Column(0x61, 0xDD, 0xE3, 0xEF),
                                                      Column(0x82, 0xD2, 0x4A, 0xD2), Column(0x68, 0x32, 0x46, 0x9A)),
              State(Column(0xAC, 0x73, 0xCF, 0x7B), Column(0xEF, 0xC1, 0x11, 0xDF),
                    Column(0x13, 0xB5, 0xD6, 0xB5), Column(0x45, 0x23, 0x5A, 0xB8)),
              State(Column(0x3D, 0x80, 0x47, 0x7D), Column(0x47, 0x16, 0xFE, 0x3E),
                    Column(0x1E, 0x23, 0x7E, 0x44), Column(0x6D, 0x7A, 0x88, 0x3B)));
  }

  lemma Round4()
    ensures Rounds(KeyExpansion(Key128()), 4, FromBytes(Input())) ==
            State(Column(0xE0, 0x92, 0x7F, 0xE8), Column(0xC8, 0x63, 0x63, 0xC0),
                  Column(0xD9, 0xB1, 0x35, 0x50), Column(0x85, 0xB8, 0xBE, 0x01))
  {
    hide Rounds, KeyExpansion, Four, SubByte, FromBytes, Key128;
    Round3();
    RoundKey4();
    SboxRow0(); SboxRow1(); SboxRow3(); SboxRow4(); SboxRow5(); SboxRow6(); SboxRow9(); SboxRowB();
    SboxRowD(); SboxRowE();
    NextRound(Key128(), 4, FromBytes(Input()), State(Column(0x48, 0x6C, 0x4E, 0xEE), Column(0x67, 0x1D, 0x9D, 0x0D),
                                                      Column(0x4D, 0xE3, 0xB1, 0x38), Column(0xD6, 0x5F, 0x58, 0xE7)),
              State(Column(0x52, 0x50, 0x2F, 0x28), Column(0x85, 0xA4, 0x5E, 0xD7),
                    Column(0xE3, 0x11, 0xC8, 0x07), Column(0xF6, 0xCF, 0x6A, 0x94)),
              State(Column(0xEF, 0x44, 0xA5, 0x41), Column(0xA8, 0x52, 0x5B, 0x7F),
                    Column(0xB6, 0x71, 0x25, 0x3B), Column(0xDB, 0x0B, 0xAD, 0x00)));
  }

  lemma Round5()
    ensures Rounds(KeyExpansion(Key128()), 5, FromBytes(Input())) ==
            State(Column(0xF1, 0x00, 0x6F, 0x55), Column(0xC1, 0x92, 0x4C, 0xEF),
                  Column(0x7C, 0xC8, 0x8B, 0x32), Column(0x5D, 0xB5, 0xD5, 0x0C))
  {
    hide Rounds, KeyExpansion, Four, SubByte, FromBytes, Key128;
    Round4();
    RoundKey5();
    SboxRow0(); SboxRow3(); SboxRow5(); SboxRow6(); SboxRow7(); SboxRow8(); SboxRow9(); SboxRowB();
    SboxRowC(); SboxRowD(); SboxRowE();
    NextRound(Key128(), 5, FromBytes(Input()), State(Column(0xE0, 0x92, 0x7F, 0xE8), Column(0xC8, 0x63, 0x63, 0xC0),
                                                      Column(0xD9, 0xB1, 0x35, 0x50), Column(0x85, 0xB8, 0xBE, 0x01)),
              State(Column(0xE1, 0x4F, 0xD2, 0x9B), Column(0xE8, 0xFB, 0xFB, 0xBA),
                    Column(0x35, 0xC8, 0x96, 0x53), Column(0x97, 0x6C, 0xAE, 0x7C)),
              State(Column(0xD4, 0xD1, 0xC6, 0xF8), Column(0x7C, 0x83, 0x9D, 0x87),
                    Column(0xCA, 0xF2, 0xB8, 0xBC), Column(0x11, 0xF9, 0x15, 0xBC)));
  }

  lemma Round6()
    ensures Rounds(KeyExpansion(Key128()), 6, FromBytes(Input())) ==
            State(Column(0x26, 0x0E, 0x2E, 0x17), Column(0x3D, 0x41, 0xB7, 0x7D),
                  Column(0xE8, 0x64, 0x72, 0xA9), Column(0xFD, 0xD2, 0x8B, 0x25))
  {
    hide Rounds, KeyExpansion, Four, SubByte, FromBytes, Key128;
    Round5();
    RoundKey6();
    SboxRow0(); SboxRow3(); SboxRow4(); SboxRow5(); SboxRow6(); SboxRow7(); SboxRow8(); SboxRow9();
    SboxRowB(); SboxRowC(); SboxRowD(); SboxRowE(); SboxRowF();
    NextRound(Key128(), 6, FromBytes(Input()), State(Column(0xF1, 0x00, 0x6F, 0x55), Column(0xC1, 0x92, 0x4C, 0xEF),
                                                      Column(0x7C, 0xC8, 0x8B, 0x32), Column(0x5D, 0xB5, 0xD5, 0x0C)),
              State(Column(0xA1, 0x63, 0xA8, 0xFC), Column(0x78, 0x4F, 0x29, 0xDF),
                    Column(0x10, 0xE8, 0x3D, 0x23), Column(0x4C, 0xD5, 0x03, 0xFE)),
              State(Column(0x6D, 0x88, 0xA3, 0x7A), Column(0x11, 0x0B, 0x3E, 0xFD),
                    Column(0xDB, 0xF9, 0x86, 0x41), Column(0xCA, 0x00, 0x93, 0xFD)));
  }

  lemma Round7()
    ensures Rounds(KeyExpansion(Key128()), 7, FromBytes(Input())) ==
            State(Column(0x5A, 0x41, 0x42, 0xB1), Column(0x19, 0x49, 0xDC, 0x1F),
                  Column(0xA3, 0xE0, 0x19, 0x65), Column(0x7A, 0x8C, 0x04, 0x0C))
  {
    hide Rounds, KeyExpansion, Four, SubByte, FromBytes, Key128;
    Round6();
    RoundKey7();
    SboxRow0(); SboxRow1(); SboxRow2(); SboxRow3(); SboxRow4(); SboxRow6(); SboxRow7(); SboxRow8();
    SboxRowA(); SboxRowB(); SboxRowD(); SboxRowE(); SboxRowF();
    NextRound(Key128(), 7, FromBytes(Input()), State(Column(0x26, 0x0E, 0x2E, 0x17), Column(0x3D, 0x41, 0xB7, 0x7D),
                                                      Column(0xE8, 0x64, 0x72, 0xA9), Column(0xFD, 0xD2, 0x8B, 0x25)),
              State(Column(0xF7, 0xAB, 0x31, 0xF0), Column(0x27, 0x83, 0xA9, 0xFF),
                    Column(0x9B, 0x43, 0x40, 0xD3), Column(0x54, 0xB5, 0x3D, 0x3F)),
              State(Column(0x4E, 0x54, 0xF7, 0x0E), Column(0x5F, 0x5F, 0xC9, 0xF3),
                    Column(0x84, 0xA6, 0x4F, 0xB2), Column(0x4E, 0xA6, 0xDC, 0x4F)));
  }

  lemma Round8()
    ensures Rounds(KeyExpansion(Key128()), 8, FromBytes(Input())) ==
            State(Column(0xEA, 0x83, 0x5C, 0xF0), Column(0x04, 0x45, 0x33, 0x2D),
                  Column(0x65, 0x5D, 0x98, 0xAD), Column(0x85, 0x96, 0xB0, 0xC5))
  {
    hide Rounds, KeyExpansion, Four, SubByte, FromBytes, Key128;
    Round7();
    RoundKey8();
    SboxRow0(); SboxRow1(); SboxRow4(); SboxRow5(); SboxRow6(); SboxRow7(); SboxRow8(); SboxRowA();
    SboxRowB(); SboxRowD(); SboxRowE();
    NextRound(Key128(), 8, FromBytes(Input()), State(Column(0x5A, 0x41, 0x42, 0xB1), Column(0x19, 0x49, 0xDC, 0x1F),
                                                      Column(0xA3, 0xE0, 0x19, 0x65), Column(0x7A, 0x8C, 0x04, 0x0C)),
              State(Column(0xBE, 0x83, 0x2C, 0xC8), Column(0xD4, 0x3B, 0x86, 0xC0),
                    Column(0x0A, 0xE1, 0xD4, 0x4D), Column(0xDA, 0x64, 0xF2, 0xFE)),
              State(Column(0xEA, 0xD2, 0x73, 0x21), Column(0xB5, 0x8D, 0xBA, 0xD2),
                    Column(0x31, 0x2B, 0xF5, 0x60), Column(0x7F, 0x8D, 0x29, 0x2F)));
  }

  lemma Round9()
    ensures Rounds(KeyExpansion(Key128()), 9, FromBytes(Input())) ==
            State(Column(0xEB, 0x40, 0xF2, 0x1E), Column(0x59, 0x2E, 0x38, 0x84),
                  Column(0x8B, 0xA1, 0x13, 0xE7), Column(0x1B, 0xC3, 0x42, 0xD2))
  {
    hide Rounds, KeyExpansion, Four, SubByte, FromBytes, Key128;
    Round8();
    RoundKey9();
    SboxRow0(); SboxRow2(); SboxRow3(); SboxRow4(); SboxRow5(); SboxRow6(); SboxRow8(); SboxRow9();
    SboxRowA(); SboxRowB(); SboxRowC(); SboxRowE(); SboxRowF();
    NextRound(Key128(), 9, FromBytes(Input()), State(Column(0xEA, 0x83, 0x5C, 0xF0), Column(0x04, 0x45, 0x33, 0x2D),
                                                      Column(0x65, 0x5D, 0x98, 0xAD), Column(0x85, 0x96, 0xB0, 0xC5)),
              State(Column(0x87, 0xEC, 0x4A, 0x8C), Column(0xF2, 0x6E, 0xC3, 0xD8),
                    Column(0x4D, 0x4C, 0x46, 0x95), Column(0x97, 0x90, 0xE7, 0xA6)),
              State(Column(0xAC, 0x77, 0x66, 0xF3), Column(0x19, 0xFA, 0xDC, 0x21),
                    Column(0x28, 0xD1, 0x29, 0x41), Column(0x57, 0x5C, 0x00, 0x6E)));
  }

  /** The last round, without MixColumns. */
  lemma LastRound(key: seq<bv8>, b: Block, s: State, u: State, k: State)
    requires |key| == 16 && Rounds(KeyExpansion(key), 9, FromBytes(b)) == s && SubBytes(s) == u && Four(key, 10, k)
    ensures EncryptBlock(key, b) == ToBytes(Add(ShiftRows(u), k))
  {
    hide SubBytes, ShiftRows, Add, KeyExpansion, RoundKey, Four, Rounds, FromBytes, ToBytes;
    RoundKeyIs(key, 10, k);
  }

  /** The ciphertext of Appendix B. */
  lemma CipherExample()
    ensures EncryptBlock(Key128(), Input()) ==
            [0x39, 0x25, 0x84, 0x1D, 0x02, 0xDC, 0x09, 0xFB, 0xDC, 0x11, 0x85, 0x97, 0x19, 0x6A, 0x0B, 0x32]
  {
    hide Rounds, KeyExpansion, RoundKey, Four, SubByte, FromBytes, Key128;
    Round9();
    RoundKey10();
    SboxRow1(); SboxRow2(); SboxRow3(); SboxRow4(); SboxRow5(); SboxRow8(); SboxRowA(); SboxRowC();
    SboxRowD(); SboxRowE(); SboxRowF();
    LastRound(Key128(), Input(), State(Column(0xEB, 0x40, 0xF2, 0x1E), Column(0x59, 0x2E, 0x38, 0x84),
                                         Column(0x8B, 0xA1, 0x13, 0xE7), Column(0x1B, 0xC3, 0x42, 0xD2)),
              State(Column(0xE9, 0x09, 0x89, 0x72), Column(0xCB, 0x31, 0x07, 0x5F),
                    Column(0x3D, 0x32, 0x7D, 0x94), Column(0xAF, 0x2E, 0x2C, 0xB5)),
              State(Column(0xD0, 0x14, 0xF9, 0xA8), Column(0xC9, 0xEE, 0x25, 0x89),
                    Column(0xE1, 0x3F, 0x0C, 0xC8), Column(0xB6, 0x63, 0x0C, 0xA6)));
  }
}
