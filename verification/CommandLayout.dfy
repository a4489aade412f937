/**
 What the bytes of a command mean by the SCSI standards (SBC-4, SPC-4), written down from the side of the initiator: where
 a CDB holds its address and its flags, and an UNMAP parameter list its descriptors. The decoders of `scsi.cpp` agree.
 */
module CommandLayout {
  import opened Bytes
  import opened ScsiCommands

  /** The operation codes with an LBA and a length that `scsi::send` hands to WRITE, READ and WRITE SAME. */
  predicate Served(opcode: byte) {
    opcode == O_WRITE_6 || opcode == O_READ_6 ||
    opcode == O_WRITE_10 || opcode == O_WRITE_VERIFY_10 || opcode == O_READ_10 || opcode == O_WRITE_SAME_10 ||
    opcode == O_WRITE_12 || opcode == O_READ_12 ||
    opcode == O_WRITE_16 || opcode == O_READ_16 || opcode == O_WRITE_SAME_16
  }

  /** The length of a CDB, by the group code in its first three bits. */
  function CdbSize(opcode: byte): (r: nat) {
    var group := opcode / 32;
    if group == 0 then 6 else if group == 4 then 16 else if group == 5 then 12 else 10
  }

  /** The addresses and lengths that a CDB has room for; in six bytes a length of 0 stands for 256. */
  predicate InRange(opcode: byte, lba: nat, len: nat) {
    match CdbSize(opcode)
    case 6 => lba < 0x20_0000 && 1 <= len <= 256
    case 10 => lba < TWO32 && len < 0x1_0000
    case 12 => lba < TWO32 && len < TWO32
    case _ => lba < TWO64 && len < TWO32
  }

  /** The CDB, in a field of 16 bytes, asks for `len` blocks from `lba` on. */
  predicate Addresses(cdb: seq<byte>, lba: nat, len: nat) {
    |cdb| == 16 && Served(cdb[0]) && InRange(cdb[0], lba, len) &&
    match CdbSize(cdb[0])
    case 6 => [cdb[1] % 32] + cdb[2..4] == BigEndian(lba, 3) && cdb[4] == len % 256
    case 10 => cdb[2..6] == BigEndian(lba, 4) && cdb[7..9] == BigEndian(len, 2)
    case 12 => cdb[2..6] == BigEndian(lba, 4) && cdb[6..10] == BigEndian(len, 4)
    case _ => cdb[2..10] == BigEndian(lba, 8) && cdb[10..14] == BigEndian(len, 4)
  }

  lemma Be16Is(b: seq<byte>, at: nat)
    requires at + 2 <= |b|
    ensures Be16(b, at) == Unsigned(b[at..at + 2])
  {
    var s := b[at..at + 2];
    assert s[..1] == [b[at]] && [b[at]][..0] == [];
    assert Unsigned([b[at]]) == Unsigned([b[at]][..0]) * 256 + b[at];
  }

  lemma UnsignedSplit(a: seq<byte>, b: seq<byte>)
    ensures Unsigned(a + b) == Unsigned(a) * Power256(|b|) + Unsigned(b)
    decreases |b|
  {
    if b == [] {
      assert a + b == a;
    } else {
      var front := b[..|b| - 1];
      assert (a + b)[..|a + b| - 1] == a + front;
      UnsignedSplit(a, front);
      TimesPower(Unsigned(a), Power256(|front|));
    }
  }

  lemma TimesPower(x: nat, p: nat)
    ensures (x * p) * 256 == x * (256 * p)
  {}

  lemma Be32Is(b: seq<byte>, at: nat)
    requires at + 4 <= |b|
    ensures Be32(b, at) == Unsigned(b[at..at + 4])
  {
    hide Be16, Unsigned;
    Be16Is(b, at);
    Be16Is(b, at + 2);
    assert b[at..at + 4] == b[at..at + 2] + b[at + 2..at + 4];
    UnsignedSplit(b[at..at + 2], b[at + 2..at + 4]);
    PowersOf256();
  }

  lemma Be64Is(b: seq<byte>, at: nat)
    requires at + 8 <= |b|
    ensures Be64(b, at) == Unsigned(b[at..at + 8])
  {
    hide Be32, Unsigned;
    Be32Is(b, at);
    Be32Is(b, at + 4);
    assert b[at..at + 8] == b[at..at + 4] + b[at + 4..at + 8];
    UnsignedSplit(b[at..at + 4], b[at + 4..at + 8]);
    PowersOf256();
  }

  lemma Be16Iff(b: seq<byte>, at: nat, v: nat)
    requires at + 2 <= |b| && v < 0x1_0000
    ensures Be16(b, at) == v <==> b[at..at + 2] == BigEndian(v, 2)
  {
    hide Be16, Unsigned, BigEndian;
    Be16Is(b, at);
    PowersOf256();
    BigEndianIff(b[at..at + 2], v);
  }

  lemma Be32Iff(b: seq<byte>, at: nat, v: nat)
    requires at + 4 <= |b| && v < TWO32
    ensures Be32(b, at) == v <==> b[at..at + 4] == BigEndian(v, 4)
  {
    hide Be32, Unsigned, BigEndian;
    Be32Is(b, at);
    PowersOf256();
    BigEndianIff(b[at..at + 4], v);
  }

  lemma Be64Iff(b: seq<byte>, at: nat, v: nat)
    requires at + 8 <= |b| && v < TWO64
    ensures Be64(b, at) == v <==> b[at..at + 8] == BigEndian(v, 8)
  {
    hide Be64, Unsigned, BigEndian;
    Be64Is(b, at);
    PowersOf256();
    BigEndianIff(b[at..at + 8], v);
  }

  /** `get_lba_len` reads an address and a length from a CDB exactly when the CDB holds them. */
  lemma LbaLenIff(cdb: seq<byte>, lba: uint64, len: uint32)
    requires |cdb| == 16 && Served(cdb[0])
    ensures LbaLen(cdb) == (lba, len) <==> Addresses(cdb, lba, len)
  {
    hide Be16, Be32, Be64, BigEndian, Unsigned;
    if CdbSize(cdb[0]) == 6 {
      SixIff(cdb, lba, len);
    } else if CdbSize(cdb[0]) == 10 {
      if lba < TWO32 { Be32Iff(cdb, 2, lba); }
      if len < 0x1_0000 { Be16Iff(cdb, 7, len); }
      Be16Small(cdb, 7);
    } else if CdbSize(cdb[0]) == 12 {
      if lba < TWO32 { Be32Iff(cdb, 2, lba); }
      Be32Iff(cdb, 6, len);
    } else {
      Be64Iff(cdb, 2, lba);
      Be32Iff(cdb, 10, len);
    }
  }

  lemma Be16Small(b: seq<byte>, at: nat)
    requires at + 2 <= |b|
    ensures Be16(b, at) < 0x1_0000
  {}

  lemma SixIff(cdb: seq<byte>, lba: uint64, len: uint32)
    requires |cdb| == 16 && Served(cdb[0]) && CdbSize(cdb[0]) == 6
    ensures LbaLen(cdb) == (lba, len) <==> Addresses(cdb, lba, len)
  {
    hide Be16, BigEndian, Unsigned;
    var b: seq<byte> := [cdb[1] % 32] + cdb[2..4];
    SixValue(cdb);
    Be16Small(cdb, 2);
    PowersOf256();
    if lba < 0x20_0000 {
      BigEndianIff(b, lba);
    }
  }

  lemma SixValue(cdb: seq<byte>)
    requires |cdb| == 16
    ensures Unsigned([cdb[1] % 32] + cdb[2..4]) == (cdb[1] % 32) * 65536 + Be16(cdb, 2)
  {
    var top: seq<byte> := [cdb[1] % 32];
    UnsignedSplit(top, cdb[2..4]);
    assert top[..0] == [];
    assert Unsigned(top) == Unsigned(top[..0]) * 256 + cdb[1] % 32;
    Be16Is(cdb, 2);
    PowersOf256();
  }

  // --- CDBs put together byte by byte

  /** The top three bits of `flags` and five other ones. */
  function TopBits(flags: byte, low: nat): (r: byte)
    requires low < 32
    ensures r % 32 == low
  {
    flags / 32 * 32 + low
  }

  /** A CDB with the second byte `flags`; in six bytes its low bits belong to the address. */
  function Cdb(opcode: byte, flags: byte, lba: nat, len: nat, group: byte, control: byte): (r: seq<byte>)
    requires InRange(opcode, lba, len)
    ensures |r| == 16 && r[0] == opcode
  {
    match CdbSize(opcode)
    case 6 => [opcode, TopBits(flags, lba / 0x1_0000)] + BigEndian(lba % 0x1_0000, 2) + [len % 256, control] + Repeat(0, 10)
    case 10 => [opcode, flags] + BigEndian(lba, 4) + [group] + BigEndian(len, 2) + [control] + Repeat(0, 6)
    case 12 => [opcode, flags] + BigEndian(lba, 4) + BigEndian(len, 4) + [group, control] + Repeat(0, 4)
    case _ => [opcode, flags] + BigEndian(lba, 8) + BigEndian(len, 4) + [group, control]
  }

  /** Whatever the other fields are, address and length come back from a CDB. */
  lemma CdbReadsBack(opcode: byte, flags: byte, lba: uint64, len: uint32, group: byte, control: byte)
    requires Served(opcode) && InRange(opcode, lba, len)
    ensures var cdb := Cdb(opcode, flags, lba, len, group, control);
            Addresses(cdb, lba, len) && LbaLen(cdb) == (lba, len) && (CdbSize(opcode) > 6 ==> cdb[1] == flags)
  {
    hide LbaLen, BigEndian, Served;
    var cdb := Cdb(opcode, flags, lba, len, group, control);
    if CdbSize(opcode) == 6 {
      ThreeBytes(lba);
      assert cdb[2..4] == BigEndian(lba % 0x1_0000, 2) && cdb[4] == len % 256;
    } else if CdbSize(opcode) == 10 {
      assert cdb[2..6] == BigEndian(lba, 4) && cdb[7..9] == BigEndian(len, 2);
    } else if CdbSize(opcode) == 12 {
      assert cdb[2..6] == BigEndian(lba, 4) && cdb[6..10] == BigEndian(len, 4);
    } else {
      assert cdb[2..10] == BigEndian(lba, 8) && cdb[10..14] == BigEndian(len, 4);
    }
    LbaLenIff(cdb, lba, len);
  }

  lemma ThreeBytes(v: nat)
    requires v < 0x100_0000
    ensures [v / 0x1_0000] + BigEndian(v % 0x1_0000, 2) == BigEndian(v, 3)
  {
    var top, low: seq<byte> := [v / 0x1_0000], BigEndian(v % 0x1_0000, 2);
    PowersOf256();
    assert top[..0] == [];
    assert Unsigned(top) == Unsigned(top[..0]) * 256 + v / 0x1_0000;
    UnsignedSplit(top, low);
    BigEndianIff(low, v % 0x1_0000);
    BigEndianIff(top + low, v);
  }

  // --- the flags in the second byte

  /** RDPROTECT or WRPROTECT, then DPO or ANCHOR, then FUA or UNMAP, then three bits that the code does not look at. */
  function FlagByte(protect: nat, bit4: bool, bit3: bool, low: nat): (r: byte)
    requires protect < 8 && low < 8
  {
    protect * 32 + (if bit4 then 16 else 0) + (if bit3 then 8 else 0) + low
  }

  lemma FlagsReadBack(protect: nat, bit4: bool, bit3: bool, low: nat)
    requires protect < 8 && low < 8
    ensures var b := FlagByte(protect, bit4, bit3, low); b / 32 == protect && BitSet(b, 4) == bit4 && BitSet(b, 3) == bit3
  {
    var b := FlagByte(protect, bit4, bit3, low);
    assert b / 8 == protect * 4 + (if bit4 then 2 else 0) + (if bit3 then 1 else 0);
    assert b / 16 == protect * 2 + if bit4 then 1 else 0;
    assert BitSet(b, 3) <==> b / 8 % 2 == 1;
    assert BitSet(b, 4) <==> b / 16 % 2 == 1;
  }

  predicate IsWriteSame(opcode: byte) {
    opcode == O_WRITE_SAME_10 || opcode == O_WRITE_SAME_16
  }

  /** The commands for which protection information is refused: not those of 6 and 12 bytes. */
  predicate NoProtection(opcode: byte) {
    Served(opcode) && (CdbSize(opcode) == 10 || CdbSize(opcode) == 16)
  }

  /** Which commands are refused for their flags or, WRITE SAME, for their length. */
  lemma FlagsRefusedIff(cdb: seq<byte>, n: uint32, protect: nat, bit4: bool, bit3: bool, low: nat)
    requires |cdb| == 16 && Served(cdb[0]) && protect < 8 && low < 8 && cdb[1] == FlagByte(protect, bit4, bit3, low)
    ensures ValidateCdb(cdb, n) == Some(InvalidField) <==>
            (NoProtection(cdb[0]) && protect != 0) || (IsWriteSame(cdb[0]) && ((bit4 && !bit3) || n > 256))
    ensures ValidateCdb(cdb, n) == None || ValidateCdb(cdb, n) == Some(InvalidField)
  {
    FlagsReadBack(protect, bit4, bit3, low);
  }

  // --- UNMAP

  /** From offset `i` on the data are the descriptors `es`, of 16 bytes each; the reserved end of the last may be missing. */
  predicate ListsFrom(data: seq<byte>, i: nat, es: seq<Extent>) {
    (if es == [] then |data| <= i else i + 16 * |es| - 4 <= |data| <= i + 16 * |es|) &&
    forall k :: 0 <= k < |es| ==> DescribesAt(data, i + 16 * k, es[k])
  }

  predicate DescribesAt(data: seq<byte>, at: nat, e: Extent) {
    at + 12 <= |data| && data[at..at + 8] == BigEndian(e.lba, 8) && data[at + 8..at + 12] == BigEndian(e.len, 4)
  }

  /** An UNMAP parameter list: a header of eight bytes, then the descriptors. */
  predicate Lists(data: seq<byte>, es: seq<Extent>) {
    ListsFrom(data, 8, es)
  }

  lemma {:induction false} ListsFromIff(data: seq<byte>, i: nat, es: seq<Extent>)
    ensures ListsFrom(data, i, es) <==> DescriptorsComplete(data, i) && Descriptors(data, i) == es
    decreases |es|
  {
    hide Be64, Be32, BigEndian;
    if es == [] {
      assert i < |data| && DescriptorsComplete(data, i) ==> Descriptors(data, i) != [];
    } else {
      var e := es[0];
      ListsFromIff(data, i + 16, es[1..]);
      if i + 12 <= |data| {
        Be64Iff(data, i, e.lba);
        Be32Iff(data, i + 8, e.len);
      }
      ListsTail(data, i, es);
      if i + 12 <= |data| && DescriptorsComplete(data, i + 16) {
        var d := Extent(Be64(data, i), Be32(data, i + 8));
        assert Descriptors(data, i) == [d] + Descriptors(data, i + 16);
        assert es == [e] + es[1..];
        assert Descriptors(data, i) == es ==> Descriptors(data, i)[0] == e && Descriptors(data, i)[1..] == es[1..];
      }
    }
  }

  lemma ListsTail(data: seq<byte>, i: nat, es: seq<Extent>)
    requires es != []
    ensures ListsFrom(data, i, es) <==> DescribesAt(data, i, es[0]) && ListsFrom(data, i + 16, es[1..])
  {
    hide DescribesAt;
    var rest := es[1..];
    if DescribesAt(data, i, es[0]) && ListsFrom(data, i + 16, rest) {
      assert i + 12 <= |data| by { Enough(data, i, es[0]); }
      forall k | 0 <= k < |es| ensures DescribesAt(data, i + 16 * k, es[k]) {
        if k > 0 { assert DescribesAt(data, i + 16 + 16 * (k - 1), rest[k - 1]); }
      }
    }
    if ListsFrom(data, i, es) {
      assert DescribesAt(data, i + 16 * 0, es[0]);
      forall k | 0 <= k < |rest| ensures DescribesAt(data, i + 16 + 16 * k, rest[k]) {
        assert DescribesAt(data, i + 16 * (k + 1), es[k + 1]);
      }
    }
  }

  lemma Enough(data: seq<byte>, at: nat, e: Extent)
    requires DescribesAt(data, at, e)
    ensures at + 12 <= |data|
  {}

  /** The loop of `unmap` reads exactly the descriptors of the list. */
  lemma ListsIff(data: seq<byte>, es: seq<Extent>)
    ensures Lists(data, es) <==> DescriptorsComplete(data, 8) && Descriptors(data, 8) == es
  {
    ListsFromIff(data, 8, es);
  }

  /** The descriptors one after the other, with four reserved bytes each. */
  function DescriptorBytes(es: seq<Extent>): (r: seq<byte>)
    ensures |r| == 16 * |es|
  {
    if es == [] then [] else BigEndian(es[0].lba, 8) + BigEndian(es[0].len, 4) + Repeat(0, 4) + DescriptorBytes(es[1..])
  }

  lemma {:induction false} DescriptorBytesList(header: seq<byte>, es: seq<Extent>)
    ensures ListsFrom(header + DescriptorBytes(es), |header|, es)
    decreases |es|
  {
    hide BigEndian;
    if es != [] {
      var e, data := es[0], header + DescriptorBytes(es);
      var first := BigEndian(e.lba, 8) + BigEndian(e.len, 4) + Repeat(0, 4);
      DescriptorBytesList(header + first, es[1..]);
      assert data == header + first + DescriptorBytes(es[1..]);
      assert DescribesAt(data, |header|, e);
      ListsTail(data, |header|, es);
    }
  }

  /** Every list of descriptors comes back from its bytes, whatever the header says. */
  lemma ParameterListReadsBack(header: seq<byte>, es: seq<Extent>)
    requires |header| == 8
    ensures Lists(header + DescriptorBytes(es), es)
    ensures DescriptorsComplete(header + DescriptorBytes(es), 8) && Descriptors(header + DescriptorBytes(es), 8) == es
  {
    DescriptorBytesList(header, es);
    ListsIff(header + DescriptorBytes(es), es);
  }

  // --- COMPARE AND WRITE

  /** A CDB of COMPARE AND WRITE: the address in bytes 2 to 9, the number of blocks in byte 13. */
  predicate Compares(cdb: seq<byte>, lba: uint64, count: nat) {
    |cdb| == 16 && cdb[2..10] == BigEndian(lba, 8) && cdb[13] == count
  }

  lemma ComparesIff(cdb: seq<byte>, lba: uint64, count: nat)
    requires |cdb| == 16
    ensures Compares(cdb, lba, count) <==> Be64(cdb, 2) == lba && cdb[13] == count
  {
    hide Be64, BigEndian;
    Be64Iff(cdb, 2, lba);
  }
}
