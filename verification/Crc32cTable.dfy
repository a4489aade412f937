/**
 `crc32c_table` of `iscsi.cpp`, one method per sixteen entries, each entry proved to be eight
 steps of the bit-serial register on its index.
 */
module Crc32cTable {

  /** The Castagnoli polynomial without its top term, highest power of x in the lowest bit. */
  const REFLECTED_POLY: bv32 := 0x82F63B78

  /** Addition of polynomials over GF(2). */
  function Xor(a: bv32, b: bv32): bv32 {
    a ^ b
  }

  /** One step of the bit-serial register: shift towards bit 0, subtract when a 1 drops out. */
  function Step(r: bv32): bv32 {
    (r >> 1) ^ (if r & 1 == 1 then REFLECTED_POLY else 0)
  }

  /** `n` steps. */
  function Steps(r: bv32, n: nat): bv32
    decreases n
  {
    if n == 0 then r else Steps(Step(r), n - 1)
  }

  function Step8(r: bv32): bv32 {
    Steps(r, 8)
  }

  // --- the register is linear over GF(2)
  // (hidden bodies keep the bit-vector reasoning inside the lemmas that need it)

  lemma BothEven(a: bv32, b: bv32)
    requires a & 1 == 0 && b & 1 == 0
    ensures Step(a ^ b) == Step(a) ^ Step(b)
  {}

  lemma OddEven(a: bv32, b: bv32)
    requires a & 1 == 1 && b & 1 == 0
    ensures Step(a ^ b) == Step(a) ^ Step(b) && Step(b ^ a) == Step(b) ^ Step(a)
  {}

  lemma BothOdd(a: bv32, b: bv32)
    requires a & 1 == 1 && b & 1 == 1
    ensures Step(a ^ b) == Step(a) ^ Step(b)
  {}

  lemma StepLinear(a: bv32, b: bv32)
    ensures Step(Xor(a, b)) == Xor(Step(a), Step(b))
  {
    hide Step;
    assert (a & 1 == 0 || a & 1 == 1) && (b & 1 == 0 || b & 1 == 1);
    if a & 1 == 0 {
      if b & 1 == 0 {
        BothEven(a, b);
      } else {
        OddEven(b, a);
      }
    } else if b & 1 == 0 {
      OddEven(a, b);
    } else {
      BothOdd(a, b);
    }
  }

  lemma {:induction false} StepsLinear(a: bv32, b: bv32, n: nat)
    ensures Steps(Xor(a, b), n) == Xor(Steps(a, n), Steps(b, n))
    decreases n
  {
    hide Step, Xor;
    if n > 0 {
      StepLinear(a, b);
      StepsLinear(Step(a), Step(b), n - 1);
    }
  }

  lemma Step8Linear(a: bv32, b: bv32)
    ensures Step8(Xor(a, b)) == Xor(Step8(a), Step8(b))
  {
    hide Steps, Xor;
    StepsLinear(a, b, 8);
  }

  // --- the entries whose index is a power of two

  lemma Power0()
    ensures Step8(0x01) == 0xF26B8303
  {
    assert Step(0x00000001) == 0x82F63B78;
    assert Step(0x82F63B78) == 0x417B1DBC;
    assert Step(0x417B1DBC) == 0x20BD8EDE;
    assert Step(0x20BD8EDE) == 0x105EC76F;
    assert Step(0x105EC76F) == 0x8AD958CF;
    assert Step(0x8AD958CF) == 0xC79A971F;
    assert Step(0xC79A971F) == 0xE13B70F7;
    assert Step(0xE13B70F7) == 0xF26B8303;
  }

  lemma Power1()
    ensures Step8(0x02) == 0xE13B70F7
  {
    assert Step(0x00000002) == 0x00000001;
    assert Step(0x00000001) == 0x82F63B78;
    assert Step(0x82F63B78) == 0x417B1DBC;
    assert Step(0x417B1DBC) == 0x20BD8EDE;
    assert Step(0x20BD8EDE) == 0x105EC76F;
    assert Step(0x105EC76F) == 0x8AD958CF;
    assert Step(0x8AD958CF) == 0xC79A971F;
    assert Step(0xC79A971F) == 0xE13B70F7;
  }

  lemma Power2()
    ensures Step8(0x04) == 0xC79A971F
  {
    assert Step(0x00000004) == 0x00000002;
    assert Step(0x00000002) == 0x00000001;
    assert Step(0x00000001) == 0x82F63B78;
    assert Step(0x82F63B78) == 0x417B1DBC;
    assert Step(0x417B1DBC) == 0x20BD8EDE;
    assert Step(0x20BD8EDE) == 0x105EC76F;
    assert Step(0x105EC76F) == 0x8AD958CF;
    assert Step(0x8AD958CF) == 0xC79A971F;
  }

  lemma Power3()
    ensures Step8(0x08) == 0x8AD958CF
  {
    assert Step(0x00000008) == 0x00000004;
    assert Step(0x00000004) == 0x00000002;
    assert Step(0x00000002) == 0x00000001;
    assert Step(0x00000001) == 0x82F63B78;
    assert Step(0x82F63B78) == 0x417B1DBC;
    assert Step(0x417B1DBC) == 0x20BD8EDE;
    assert Step(0x20BD8EDE) == 0x105EC76F;
    assert Step(0x105EC76F) == 0x8AD958CF;
  }

  lemma Power4()
    ensures Step8(0x10) == 0x105EC76F
  {
    assert Step(0x00000010) == 0x00000008;
    assert Step(0x00000008) == 0x00000004;
    assert Step(0x00000004) == 0x00000002;
    assert Step(0x00000002) == 0x00000001;
    assert Step(0x00000001) == 0x82F63B78;
    assert Step(0x82F63B78) == 0x417B1DBC;
    assert Step(0x417B1DBC) == 0x20BD8EDE;
    assert Step(0x20BD8EDE) == 0x105EC76F;
  }

  lemma Power5()
    ensures Step8(0x20) == 0x20BD8EDE
  {
    assert Step(0x00000020) == 0x00000010;
    assert Step(0x00000010) == 0x00000008;
    assert Step(0x00000008) == 0x00000004;
    assert Step(0x00000004) == 0x00000002;
    assert Step(0x00000002) == 0x00000001;
    assert Step(0x00000001) == 0x82F63B78;
    assert Step(0x82F63B78) == 0x417B1DBC;
    assert Step(0x417B1DBC) == 0x20BD8EDE;
  }

  lemma Power6()
    ensures Step8(0x40) == 0x417B1DBC
  {
    assert Step(0x00000040) == 0x00000020;
    assert Step(0x00000020) == 0x00000010;
    assert Step(0x00000010) == 0x00000008;
    assert Step(0x00000008) == 0x00000004;
    assert Step(0x00000004) == 0x00000002;
    assert Step(0x00000002) == 0x00000001;
    assert Step(0x00000001) == 0x82F63B78;
    assert Step(0x82F63B78) == 0x417B1DBC;
  }

  lemma Power7()
    ensures Step8(0x80) == 0x82F63B78
  {
    assert Step(0x00000080) == 0x00000040;
    assert Step(0x00000040) == 0x00000020;
    assert Step(0x00000020) == 0x00000010;
    assert Step(0x00000010) == 0x00000008;
    assert Step(0x00000008) == 0x00000004;
    assert Step(0x00000004) == 0x00000002;
    assert Step(0x00000002) == 0x00000001;
    assert Step(0x00000001) == 0x82F63B78;
  }

  // --- the entries of the multiples of sixteen, and those below sixteen

  lemma Entry00()
    ensures Step8(0) == 0
  {
    assert Step(0) == 0;
  }

  lemma Entry10()
    ensures Step8(0x10) == 0x105EC76F
  {
    Power4();
  }

  lemma Entry20()
    ensures Step8(0x20) == 0x20BD8EDE
  {
    Power5();
  }

  lemma Entry30()
    ensures Step8(0x30) == 0x30E349B1
  {
    hide Step8;
    Entry10();
    Entry20();
    Step8Linear(0x10, 0x20);
  }

  lemma Entry40()
    ensures Step8(0x40) == 0x417B1DBC
  {
    Power6();
  }

  lemma Entry50()
    ensures Step8(0x50) == 0x5125DAD3
  {
    hide Step8;
    Entry10();
    Entry40();
    Step8Linear(0x10, 0x40);
  }

  lemma Entry60()
    ensures Step8(0x60) == 0x61C69362
  {
    hide Step8;
    Entry20();
    Entry40();
    Step8Linear(0x20, 0x40);
  }

  lemma Entry70()
    ensures Step8(0x70) == 0x7198540D
  {
    hide Step8;
    Entry30();
    Entry40();
    Step8Linear(0x30, 0x40);
  }

  lemma Entry80()
    ensures Step8(0x80) == 0x82F63B78
  {
    Power7();
  }

  lemma Entry90()
    ensures Step8(0x90) == 0x92A8FC17
  {
    hide Step8;
    Entry10();
    Entry80();
    Step8Linear(0x10, 0x80);
  }

  lemma EntryA0()
    ensures Step8(0xA0) == 0xA24BB5A6
  {
    hide Step8;
    Entry20();
    Entry80();
    Step8Linear(0x20, 0x80);
  }

  lemma EntryB0()
    ensures Step8(0xB0) == 0xB21572C9
  {
    hide Step8;
    Entry30();
    Entry80();
    Step8Linear(0x30, 0x80);
  }

  lemma EntryC0()
    ensures Step8(0xC0) == 0xC38D26C4
  {
    hide Step8;
    Entry40();
    Entry80();
    Step8Linear(0x40, 0x80);
  }

  lemma EntryD0()
    ensures Step8(0xD0) == 0xD3D3E1AB
  {
    hide Step8;
    Entry50();
    Entry80();
    Step8Linear(0x50, 0x80);
  }

  lemma EntryE0()
    ensures Step8(0xE0) == 0xE330A81A
  {
    hide Step8;
    Entry60();
    Entry80();
    Step8Linear(0x60, 0x80);
  }

  lemma EntryF0()
    ensures Step8(0xF0) == 0xF36E6F75
  {
    hide Step8;
    Entry70();
    Entry80();
    Step8Linear(0x70, 0x80);
  }

  lemma Entry01()
    ensures Step8(0x01) == 0xF26B8303
  {
    Power0();
  }

  lemma Entry02()
    ensures Step8(0x02) == 0xE13B70F7
  {
    Power1();
  }

  lemma Entry03()
    ensures Step8(0x03) == 0x1350F3F4
  {
    hide Step8;
    Entry01();
    Entry02();
    Step8Linear(0x01, 0x02);
  }

  lemma Entry04()
    ensures Step8(0x04) == 0xC79A971F
  {
    Power2();
  }

  lemma Entry05()
    ensures Step8(0x05) == 0x35F1141C
  {
    hide Step8;
    Entry01();
    Entry04();
    Step8Linear(0x01, 0x04);
  }

  lemma Entry06()
    ensures Step8(0x06) == 0x26A1E7E8
  {
    hide Step8;
    Entry02();
    Entry04();
    Step8Linear(0x02, 0x04);
  }

  lemma Entry07()
    ensures Step8(0x07) == 0xD4CA64EB
  {
    hide Step8;
    Entry03();
    Entry04();
    Step8Linear(0x03, 0x04);
  }

  lemma Entry08()
    ensures Step8(0x08) == 0x8AD958CF
  {
    Power3();
  }

  lemma Entry09()
    ensures Step8(0x09) == 0x78B2DBCC
  {
    hide Step8;
    Entry01();
    Entry08();
    Step8Linear(0x01, 0x08);
  }

  lemma Entry0A()
    ensures Step8(0x0A) == 0x6BE22838
  {
    hide Step8;
    Entry02();
    Entry08();
    Step8Linear(0x02, 0x08);
  }

  lemma Entry0B()
    ensures Step8(0x0B) == 0x9989AB3B
  {
    hide Step8;
    Entry03();
    Entry08();
    Step8Linear(0x03, 0x08);
  }

  lemma Entry0C()
    ensures Step8(0x0C) == 0x4D43CFD0
  {
    hide Step8;
    Entry04();
    Entry08();
    Step8Linear(0x04, 0x08);
  }

  lemma Entry0D()
    ensures Step8(0x0D) == 0xBF284CD3
  {
    hide Step8;
    Entry05();
    Entry08();
    Step8Linear(0x05, 0x08);
  }

  lemma Entry0E()
    ensures Step8(0x0E) == 0xAC78BF27
  {
    hide Step8;
    Entry06();
    Entry08();
    Step8Linear(0x06, 0x08);
  }

  lemma Entry0F()
    ensures Step8(0x0F) == 0x5E133C24
  {
    hide Step8;
    Entry07();
    Entry08();
    Step8Linear(0x07, 0x08);
  }

  lemma LowEntries()
    ensures Step8(0) == 0
    ensures Step8(0x01) == 0xF26B8303
    ensures Step8(0x02) == 0xE13B70F7
    ensures Step8(0x03) == 0x1350F3F4
    ensures Step8(0x04) == 0xC79A971F
    ensures Step8(0x05) == 0x35F1141C
    ensures Step8(0x06) == 0x26A1E7E8
    ensures Step8(0x07) == 0xD4CA64EB
    ensures Step8(0x08) == 0x8AD958CF
    ensures Step8(0x09) == 0x78B2DBCC
    ensures Step8(0x0A) == 0x6BE22838
    ensures Step8(0x0B) == 0x9989AB3B
    ensures Step8(0x0C) == 0x4D43CFD0
    ensures Step8(0x0D) == 0xBF284CD3
    ensures Step8(0x0E) == 0xAC78BF27
    ensures Step8(0x0F) == 0x5E133C24
  {
    hide *;
    Entry00();
    Entry01();
    Entry02();
    Entry03();
    Entry04();
    Entry05();
    Entry06();
    Entry07();
    Entry08();
    Entry09();
    Entry0A();
    Entry0B();
    Entry0C();
    Entry0D();
    Entry0E();
    Entry0F();
  }

  // --- the table

  lemma Halves(i: bv8)
    ensures i as bv32 == (((i >> 4) as bv32) << 4) ^ ((i & 15) as bv32)
  {}

  /** `crc32c_table[i]`. */
  method Lookup(i: bv8) returns (r: bv32)
    ensures r == Step8(i as bv32)
  {
    hide Step8;
    if i < 64 { r := FirstRows(i); }
    else if i < 128 { r := SecondRows(i); }
    else if i < 192 { r := ThirdRows(i); }
    else { r := LastRows(i); }
  }

  /** Entries 0x00 to 0x3F. */
  method FirstRows(i: bv8) returns (r: bv32)
    requires i < 64
    ensures r == Step8(i as bv32)
  {
    hide Step8;
    var hi, lo := i >> 4, i & 15;
    Halves(i);
    if hi == 0 { r := Row0(lo); Step8Linear(0x00, lo as bv32); }
    else if hi == 1 { r := Row1(lo); Step8Linear(0x10, lo as bv32); }
    else if hi == 2 { r := Row2(lo); Step8Linear(0x20, lo as bv32); }
    else { r := Row3(lo); Step8Linear(0x30, lo as bv32); }
  }

  /** Entries 0x40 to 0x7F. */
  method SecondRows(i: bv8) returns (r: bv32)
    requires 64 <= i < 128
    ensures r == Step8(i as bv32)
  {
    hide Step8;
    var hi, lo := i >> 4, i & 15;
    Halves(i);
    if hi == 4 { r := Row4(lo); Step8Linear(0x40, lo as bv32); }
    else if hi == 5 { r := Row5(lo); Step8Linear(0x50, lo as bv32); }
    else if hi == 6 { r := Row6(lo); Step8Linear(0x60, lo as bv32); }
    else { r := Row7(lo); Step8Linear(0x70, lo as bv32); }
  }

  /** Entries 0x80 to 0xBF. */
  method ThirdRows(i: bv8) returns (r: bv32)
    requires 128 <= i < 192
    ensures r == Step8(i as bv32)
  {
    hide Step8;
    var hi, lo := i >> 4, i & 15;
    Halves(i);
    if hi == 8 { r := Row8(lo); Step8Linear(0x80, lo as bv32); }
    else if hi == 9 { r := Row9(lo); Step8Linear(0x90, lo as bv32); }
    else if hi == 10 { r := RowA(lo); Step8Linear(0xA0, lo as bv32); }
    else { r := RowB(lo); Step8Linear(0xB0, lo as bv32); }
  }

  /** Entries 0xC0 to 0xFF. */
  method LastRows(i: bv8) returns (r: bv32)
    requires 192 <= i
    ensures r == Step8(i as bv32)
  {
    hide Step8;
    var hi, lo := i >> 4, i & 15;
    Halves(i);
    if hi == 12 { r := RowC(lo); Step8Linear(0xC0, lo as bv32); }
    else if hi == 13 { r := RowD(lo); Step8Linear(0xD0, lo as bv32); }
    else if hi == 14 { r := RowE(lo); Step8Linear(0xE0, lo as bv32); }
    else { r := RowF(lo); Step8Linear(0xF0, lo as bv32); }
  }

  method Row0(lo: bv8) returns (r: bv32)
    requires lo < 16
    ensures r == Xor(Step8(0x00), Step8(lo as bv32))
  {
    hide Step8;
    LowEntries();
    Entry00();
    r := if lo == 0 then 0x00000000 else if lo == 1 then 0xF26B8303 else if lo == 2 then 0xE13B70F7 else if lo == 3 then 0x1350F3F4 else 
         if lo == 4 then 0xC79A971F else if lo == 5 then 0x35F1141C else if lo == 6 then 0x26A1E7E8 else if lo == 7 then 0xD4CA64EB else 
         if lo == 8 then 0x8AD958CF else if lo == 9 then 0x78B2DBCC else if lo == 10 then 0x6BE22838 else if lo == 11 then 0x9989AB3B else 
         if lo == 12 then 0x4D43CFD0 else if lo == 13 then 0xBF284CD3 else if lo == 14 then 0xAC78BF27 else 0x5E133C24;
  }

  method Row1(lo: bv8) returns (r: bv32)
    requires lo < 16
    ensures r == Xor(Step8(0x10), Step8(lo as bv32))
  {
    hide Step8;
    LowEntries();
    Entry10();
    r := if lo == 0 then 0x105EC76F else if lo == 1 then 0xE235446C else if lo == 2 then 0xF165B798 else if lo == 3 then 0x030E349B else 
         if lo == 4 then 0xD7C45070 else if lo == 5 then 0x25AFD373 else if lo == 6 then 0x36FF2087 else if lo == 7 then 0xC494A384 else 
         if lo == 8 then 0x9A879FA0 else if lo == 9 then 0x68EC1CA3 else if lo == 10 then 0x7BBCEF57 else if lo == 11 then 0x89D76C54 else 
         if lo == 12 then 0x5D1D08BF else if lo == 13 then 0xAF768BBC else if lo == 14 then 0xBC267848 else 0x4E4DFB4B;
  }

  method Row2(lo: bv8) returns (r: bv32)
    requires lo < 16
    ensures r == Xor(Step8(0x20), Step8(lo as bv32))
  {
    hide Step8;
    LowEntries();
    Entry20();
    r := if lo == 0 then 0x20BD8EDE else if lo == 1 then 0xD2D60DDD else if lo == 2 then 0xC186FE29 else if lo == 3 then 0x33ED7D2A else 
         if lo == 4 then 0xE72719C1 else if lo == 5 then 0x154C9AC2 else if lo == 6 then 0x061C6936 else if lo == 7 then 0xF477EA35 else 
         if lo == 8 then 0xAA64D611 else if lo == 9 then 0x580F5512 else if lo == 10 then 0x4B5FA6E6 else if lo == 11 then 0xB93425E5 else 
         if lo == 12 then 0x6DFE410E else if lo == 13 then 0x9F95C20D else if lo == 14 then 0x8CC531F9 else 0x7EAEB2FA;
  }

  method Row3(lo: bv8) returns (r: bv32)
    requires lo < 16
    ensures r == Xor(Step8(0x30), Step8(lo as bv32))
  {
    hide Step8;
    LowEntries();
    Entry30();
    r := if lo == 0 then 0x30E349B1 else if lo == 1 then 0xC288CAB2 else if lo == 2 then 0xD1D83946 else if lo == 3 then 0x23B3BA45 else 
         if lo == 4 then 0xF779DEAE else if lo == 5 then 0x05125DAD else if lo == 6 then 0x1642AE59 else if lo == 7 then 0xE4292D5A else 
         if lo == 8 then 0xBA3A117E else if lo == 9 then 0x4851927D else if lo == 10 then 0x5B016189 else if lo == 11 then 0xA96AE28A else 
         if lo == 12 then 0x7DA08661 else if lo == 13 then 0x8FCB0562 else if lo == 14 then 0x9C9BF696 else 0x6EF07595;
  }

  method Row4(lo: bv8) returns (r: bv32)
    requires lo < 16
    ensures r == Xor(Step8(0x40), Step8(lo as bv32))
  {
    hide Step8;
    LowEntries();
    Entry40();
    r := if lo == 0 then 0x417B1DBC else if lo == 1 then 0xB3109EBF else if lo == 2 then 0xA0406D4B else if lo == 3 then 0x522BEE48 else 
         if lo == 4 then 0x86E18AA3 else if lo == 5 then 0x748A09A0 else if lo == 6 then 0x67DAFA54 else if lo == 7 then 0x95B17957 else 
         if lo == 8 then 0xCBA24573 else if lo == 9 then 0x39C9C670 else if lo == 10 then 0x2A993584 else if lo == 11 then 0xD8F2B687 else 
         if lo == 12 then 0x0C38D26C else if lo == 13 then 0xFE53516F else if lo == 14 then 0xED03A29B else 0x1F682198;
  }

  method Row5(lo: bv8) returns (r: bv32)
    requires lo < 16
    ensures r == Xor(Step8(0x50), Step8(lo as bv32))
  {
    hide Step8;
    LowEntries();
    Entry50();
    r := if lo == 0 then 0x5125DAD3 else if lo == 1 then 0xA34E59D0 else if lo == 2 then 0xB01EAA24 else if lo == 3 then 0x42752927 else 
         if lo == 4 then 0x96BF4DCC else if lo == 5 then 0x64D4CECF else if lo == 6 then 0x77843D3B else if lo == 7 then 0x85EFBE38 else 
         if lo == 8 then 0xDBFC821C else if lo == 9 then 0x2997011F else if lo == 10 then 0x3AC7F2EB else if lo == 11 then 0xC8AC71E8 else 
         if lo == 12 then 0x1C661503 else if lo == 13 then 0xEE0D9600 else if lo == 14 then 0xFD5D65F4 else 0x0F36E6F7;
  }

  method Row6(lo: bv8) returns (r: bv32)
    requires lo < 16
    ensures r == Xor(Step8(0x60), Step8(lo as bv32))
  {
    hide Step8;
    LowEntries();
    Entry60();
    r := if lo == 0 then 0x61C69362 else if lo == 1 then 0x93AD1061 else if lo == 2 then 0x80FDE395 else if lo == 3 then 0x72966096 else 
         if lo == 4 then 0xA65C047D else if lo == 5 then 0x5437877E else if lo == 6 then 0x4767748A else if lo == 7 then 0xB50CF789 else 
         if lo == 8 then 0xEB1FCBAD else if lo == 9 then 0x197448AE else if lo == 10 then 0x0A24BB5A else if lo == 11 then 0xF84F3859 else 
         if lo == 12 then 0x2C855CB2 else if lo == 13 then 0xDEEEDFB1 else if lo == 14 then 0xCDBE2C45 else 0x3FD5AF46;
  }

  method Row7(lo: bv8) returns (r: bv32)
    requires lo < 16
    ensures r == Xor(Step8(0x70), Step8(lo as bv32))
  {
    hide Step8;
    LowEntries();
    Entry70();
    r := if lo == 0 then 0x7198540D else if lo == 1 then 0x83F3D70E else if lo == 2 then 0x90A324FA else if lo == 3 then 0x62C8A7F9 else 
         if lo == 4 then 0xB602C312 else if lo == 5 then 0x44694011 else if lo == 6 then 0x5739B3E5 else if lo == 7 then 0xA55230E6 else 
         if lo == 8 then 0xFB410CC2 else if lo == 9 then 0x092A8FC1 else if lo == 10 then 0x1A7A7C35 else if lo == 11 then 0xE811FF36 else 
         if lo == 12 then 0x3CDB9BDD else if lo == 13 then 0xCEB018DE else if lo == 14 then 0xDDE0EB2A else 0x2F8B6829;
  }

  method Row8(lo: bv8) returns (r: bv32)
    requires lo < 16
    ensures r == Xor(Step8(0x80), Step8(lo as bv32))
  {
    hide Step8;
    LowEntries();
    Entry80();
    r := if lo == 0 then 0x82F63B78 else if lo == 1 then 0x709DB87B else if lo == 2 then 0x63CD4B8F else if lo == 3 then 0x91A6C88C else 
         if lo == 4 then 0x456CAC67 else if lo == 5 then 0xB7072F64 else if lo == 6 then 0xA457DC90 else if lo == 7 then 0x563C5F93 else 
         if lo == 8 then 0x082F63B7 else if lo == 9 then 0xFA44E0B4 else if lo == 10 then 0xE9141340 else if lo == 11 then 0x1B7F9043 else 
         if lo == 12 then 0xCFB5F4A8 else if lo == 13 then 0x3DDE77AB else if lo == 14 then 0x2E8E845F else 0xDCE5075C;
  }

  method Row9(lo: bv8) returns (r: bv32)
    requires lo < 16
    ensures r == Xor(Step8(0x90), Step8(lo as bv32))
  {
    hide Step8;
    LowEntries();
    Entry90();
    r := if lo == 0 then 0x92A8FC17 else if lo == 1 then 0x60C37F14 else if lo == 2 then 0x73938CE0 else if lo == 3 then 0x81F80FE3 else 
         if lo == 4 then 0x55326B08 else if lo == 5 then 0xA759E80B else if lo == 6 then 0xB4091BFF else if lo == 7 then 0x466298FC else 
         if lo == 8 then 0x1871A4D8 else if lo == 9 then 0xEA1A27DB else if lo == 10 then 0xF94AD42F else if lo == 11 then 0x0B21572C else 
         if lo == 12 then 0xDFEB33C7 else if lo == 13 then 0x2D80B0C4 else if lo == 14 then 0x3ED04330 else 0xCCBBC033;
  }

  method RowA(lo: bv8) returns (r: bv32)
    requires lo < 16
    ensures r == Xor(Step8(0xA0), Step8(lo as bv32))
  {
    hide Step8;
    LowEntries();
    EntryA0();
    r := if lo == 0 then 0xA24BB5A6 else if lo == 1 then 0x502036A5 else if lo == 2 then 0x4370C551 else if lo == 3 then 0xB11B4652 else 
         if lo == 4 then 0x65D122B9 else if lo == 5 then 0x97BAA1BA else if lo == 6 then 0x84EA524E else if lo == 7 then 0x7681D14D else 
         if lo == 8 then 0x2892ED69 else if lo == 9 then 0xDAF96E6A else if lo == 10 then 0xC9A99D9E else if lo == 11 then 0x3BC21E9D else 
         if lo == 12 then 0xEF087A76 else if lo == 13 then 0x1D63F975 else if lo == 14 then 0x0E330A81 else 0xFC588982;
  }

  method RowB(lo: bv8) returns (r: bv32)
    requires lo < 16
    ensures r == Xor(Step8(0xB0), Step8(lo as bv32))
  {
    hide Step8;
    LowEntries();
    EntryB0();
    r := if lo == 0 then 0xB21572C9 else if lo == 1 then 0x407EF1CA else if lo == 2 then 0x532E023E else if lo == 3 then 0xA145813D else 
         if lo == 4 then 0x758FE5D6 else if lo == 5 then 0x87E466D5 else if lo == 6 then 0x94B49521 else if lo == 7 then 0x66DF1622 else 
         if lo == 8 then 0x38CC2A06 else if lo == 9 then 0xCAA7A905 else if lo == 10 then 0xD9F75AF1 else if lo == 11 then 0x2B9CD9F2 else 
         if lo == 12 then 0xFF56BD19 else if lo == 13 then 0x0D3D3E1A else if lo == 14 then 0x1E6DCDEE else 0xEC064EED;
  }

  method RowC(lo: bv8) returns (r: bv32)
    requires lo < 16
    ensures r == Xor(Step8(0xC0), Step8(lo as bv32))
  {
    hide Step8;
    LowEntries();
    EntryC0();
    r := if lo == 0 then 0xC38D26C4 else if lo == 1 then 0x31E6A5C7 else if lo == 2 then 0x22B65633 else if lo == 3 then 0xD0DDD530 else 
         if lo == 4 then 0x0417B1DB else if lo == 5 then 0xF67C32D8 else if lo == 6 then 0xE52CC12C else if lo == 7 then 0x1747422F else 
         if lo == 8 then 0x49547E0B else if lo == 9 then 0xBB3FFD08 else if lo == 10 then 0xA86F0EFC else if lo == 11 then 0x5A048DFF else 
         if lo == 12 then 0x8ECEE914 else if lo == 13 then 0x7CA56A17 else if lo == 14 then 0x6FF599E3 else 0x9D9E1AE0;
  }

  method RowD(lo: bv8) returns (r: bv32)
    requires lo < 16
    ensures r == Xor(Step8(0xD0), Step8(lo as bv32))
  {
    hide Step8;
    LowEntries();
    EntryD0();
    r := if lo == 0 then 0xD3D3E1AB else if lo == 1 then 0x21B862A8 else if lo == 2 then 0x32E8915C else if lo == 3 then 0xC083125F else 
         if lo == 4 then 0x144976B4 else if lo == 5 then 0xE622F5B7 else if lo == 6 then 0xF5720643 else if lo == 7 then 0x07198540 else 
         if lo == 8 then 0x590AB964 else if lo == 9 then 0xAB613A67 else if lo == 10 then 0xB831C993 else if lo == 11 then 0x4A5A4A90 else 
         if lo == 12 then 0x9E902E7B else if lo == 13 then 0x6CFBAD78 else if lo == 14 then 0x7FAB5E8C else 0x8DC0DD8F;
  }

  method RowE(lo: bv8) returns (r: bv32)
    requires lo < 16
    ensures r == Xor(Step8(0xE0), Step8(lo as bv32))
  {
    hide Step8;
    LowEntries();
    EntryE0();
    r := if lo == 0 then 0xE330A81A else if lo == 1 then 0x115B2B19 else if lo == 2 then 0x020BD8ED else if lo == 3 then 0xF0605BEE else 
         if lo == 4 then 0x24AA3F05 else if lo == 5 then 0xD6C1BC06 else if lo == 6 then 0xC5914FF2 else if lo == 7 then 0x37FACCF1 else 
         if lo == 8 then 0x69E9F0D5 else if lo == 9 then 0x9B8273D6 else if lo == 10 then 0x88D28022 else if lo == 11 then 0x7AB90321 else 
         if lo == 12 then 0xAE7367CA else if lo == 13 then 0x5C18E4C9 else if lo == 14 then 0x4F48173D else 0xBD23943E;
  }

  method RowF(lo: bv8) returns (r: bv32)
    requires lo < 16
    ensures r == Xor(Step8(0xF0), Step8(lo as bv32))
  {
    hide Step8;
    LowEntries();
    EntryF0();
    r := if lo == 0 then 0xF36E6F75 else if lo == 1 then 0x0105EC76 else if lo == 2 then 0x12551F82 else if lo == 3 then 0xE03E9C81 else 
         if lo == 4 then 0x34F4F86A else if lo == 5 then 0xC69F7B69 else if lo == 6 then 0xD5CF889D else if lo == 7 then 0x27A40B9E else 
         if lo == 8 then 0x79B737BA else if lo == 9 then 0x8BDCB4B9 else if lo == 10 then 0x988C474D else if lo == 11 then 0x6AE7C44E else 
         if lo == 12 then 0xBE2DA0A5 else if lo == 13 then 0x4C4623A6 else if lo == 14 then 0x5F16D052 else 0xAD7D5351;
  }
}
