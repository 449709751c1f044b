/** The bytes of the protocol in numerals: numbers, items of a buffer, a struct, a parameter block and a packet, and the
    words that the exclusive-or string is made of. */
module ProtocolExamples {
  import opened Bits
  import opened NParam
  import opened NParamBlock
  import opened NavPacket
  import opened Wire
  import Buf = Buffer
  import Crc32
  import CrcBytes
  import StructCodec
  import Word32

  // ----- numbers -----

  lemma NumbersWritten()
    ensures Be16(0x0102) == [1, 2] && Be32(0x01020304) == [1, 2, 3, 4]
    ensures Buf.Be64(0x0102030405060708) == [1, 2, 3, 4, 5, 6, 7, 8]
    ensures Wrap(-2, TWO16) == 0xfffe && Wrap(-2, TWO32) == 0xfffffffe && Wrap(2, TWO32) == 2
    ensures CString([65, 66, 0, 67]) == [65, 66]
  {
    NulAfter([65, 66, 0, 67], 0, [65, 66]);
  }

  /** What the write methods of a buffer put there. */
  lemma ItemsWritten()
    ensures Buf.Encode(Buf.Number(Buf.Int8, -1), Buf.Int8) == [0xff]
    ensures Buf.Encode(Buf.Number(Buf.Int16, 0x0102), Buf.Int16) == [1, 2]
    ensures Buf.Encode(Buf.Number(Buf.Int32, -2), Buf.Int32) == [0xff, 0xff, 0xff, 0xfe]
    ensures Buf.Encode(Buf.Number(Buf.Int64, 0x0102030405060708), Buf.Int64) == [1, 2, 3, 4, 5, 6, 7, 8]
    ensures Buf.Encode(Buf.CText([65, 66]), Buf.Text) == [65, 66, 0]
  {
    NumbersWritten();
  }

  // ----- a struct -----

  /** A byte, a number of each kind, a text and an array of two bytes, in the order of the schema. */
  lemma StructWritten()
    ensures var t := StructCodec.Struct([Simple(StructCodec.Uint8), Simple(StructCodec.Uint16), Simple(StructCodec.Uint32),
                                         Simple(StructCodec.Int32), Simple(StructCodec.Text), Pair()]);
            var v := StructCodec.Record([StructCodec.Num(9), StructCodec.Num(0x0102), StructCodec.Num(0x01020304),
                                         StructCodec.Num(-2), StructCodec.Str([65, 66]), TwoNumbers()]);
            && StructCodec.Has(t, v)
            && StructCodec.Ser(t, v) == [9, 1, 2, 1, 2, 3, 4, 0xff, 0xff, 0xff, 0xfe, 65, 66, 0, 7, 8]
  {
    hide StructCodec.SerFields, StructCodec.SerMember, StructCodec.MemberHas, StructCodec.SerSimple, TwoNumbers, Pair, Simple;
    var ms := [Simple(StructCodec.Uint8), Simple(StructCodec.Uint16), Simple(StructCodec.Uint32),
               Simple(StructCodec.Int32), Simple(StructCodec.Text), Pair()];
    var fields := [StructCodec.Num(9), StructCodec.Num(0x0102), StructCodec.Num(0x01020304),
                   StructCodec.Num(-2), StructCodec.Str([65, 66]), TwoNumbers()];
    MembersWritten();
    PairWritten();
    NoFields(ms, fields);
    NextField(ms, fields, 1, [], [9]);
    NextField(ms, fields, 2, [9], [1, 2]);
    NextField(ms, fields, 3, [9, 1, 2], [1, 2, 3, 4]);
    NextField(ms, fields, 4, [9, 1, 2, 1, 2, 3, 4], [0xff, 0xff, 0xff, 0xfe]);
    NextField(ms, fields, 5, [9, 1, 2, 1, 2, 3, 4, 0xff, 0xff, 0xff, 0xfe], [65, 66, 0]);
    NextField(ms, fields, 6, [9, 1, 2, 1, 2, 3, 4, 0xff, 0xff, 0xff, 0xfe, 65, 66, 0], [7, 8]);
  }

  lemma MembersWritten()
    ensures StructCodec.MemberHas(Simple(StructCodec.Uint8), StructCodec.Num(9))
    ensures StructCodec.SerMember(Simple(StructCodec.Uint8), StructCodec.Num(9)) == [9]
    ensures StructCodec.MemberHas(Simple(StructCodec.Uint16), StructCodec.Num(0x0102))
    ensures StructCodec.SerMember(Simple(StructCodec.Uint16), StructCodec.Num(0x0102)) == [1, 2]
    ensures StructCodec.MemberHas(Simple(StructCodec.Uint32), StructCodec.Num(0x01020304))
    ensures StructCodec.SerMember(Simple(StructCodec.Uint32), StructCodec.Num(0x01020304)) == [1, 2, 3, 4]
    ensures StructCodec.MemberHas(Simple(StructCodec.Int32), StructCodec.Num(-2))
    ensures StructCodec.SerMember(Simple(StructCodec.Int32), StructCodec.Num(-2)) == [0xff, 0xff, 0xff, 0xfe]
    ensures StructCodec.MemberHas(Simple(StructCodec.Text), StructCodec.Str([65, 66]))
    ensures StructCodec.SerMember(Simple(StructCodec.Text), StructCodec.Str([65, 66])) == [65, 66, 0]
  {
    NumbersWritten();
    TextWritten();
  }

  lemma TextWritten()
    ensures CString([65, 66]) == [65, 66]
  {
  }

  function Simple(p: StructCodec.Prim): StructCodec.Member {
    StructCodec.Member(StructCodec.Simple(p), StructCodec.Single)
  }

  function Pair(): StructCodec.Member {
    StructCodec.Member(StructCodec.Simple(StructCodec.Uint8), StructCodec.Const(2))
  }

  function TwoNumbers(): StructCodec.Value {
    StructCodec.List([StructCodec.Num(7), StructCodec.Num(8)])
  }

  lemma PairWritten()
    ensures StructCodec.MemberHas(Pair(), TwoNumbers()) && StructCodec.SerMember(Pair(), TwoNumbers()) == [7, 8]
  {
    var t, items := StructCodec.Simple(StructCodec.Uint8), [StructCodec.Num(7), StructCodec.Num(8)];
    assert StructCodec.SerItems(t, items, 0) == [] && StructCodec.SerItems(t, items, 1) == [] + [7];
    assert StructCodec.SerItems(t, items, 2) == [7] + [8];
  }

  lemma NoFields(ms: seq<StructCodec.Member>, fields: seq<StructCodec.Value>)
    ensures StructCodec.SerFields(ms, fields, 0) == []
  {
  }

  lemma NextField(ms: seq<StructCodec.Member>, fields: seq<StructCodec.Value>, i: nat, before: seq<byte>, more: seq<byte>)
    requires 1 <= i <= |ms| && i <= |fields| && forall k :: 0 <= k < i ==> StructCodec.MemberHas(ms[k], fields[k])
    requires StructCodec.SerFields(ms, fields, i - 1) == before && StructCodec.SerMember(ms[i - 1], fields[i - 1]) == more
    ensures StructCodec.SerFields(ms, fields, i) == before + more
  {
    hide StructCodec.MemberHas, StructCodec.SerMember;
  }

  /** Array sizes are compared as unsigned numbers, so that -1 stands for 4294967295. */
  lemma SizesUnsigned()
    ensures StructCodec.Count(StructCodec.Ref(1), [StructCodec.Str([]), StructCodec.Num(-1)]) == 0xffffffff
    ensures StructCodec.Count(StructCodec.Ref(0), [StructCodec.Num(3)]) == 3 && StructCodec.Count(StructCodec.Const(2), []) == 2
  {
  }

  // ----- a parameter block -----

  /** Two parameters: from protocol version 12 on a flag word comes first, which tells whether gzip is understood. */
  lemma BlockWritten()
    ensures var ps := [Param(0x0102, [0xab]), Param(0x0203, [])];
            && Ids(ps)
            && Written(ps, 12, false) == [0, 0, 0, 0, 1, 2, 0, 1, 0xab, 2, 3, 0, 0]
            && Written(ps, 11, true) == [1, 2, 0, 1, 0xab, 2, 3, 0, 0]
    ensures Written([], 12, true) == [0, 0, 0, 2] && Written([], 11, true) == Written([], 11, false) == []
  {
    var p, q := Param(0x0102, [0xab]), Param(0x0203, []);
    assert Record(p) == [1, 2, 0, 1, 0xab] && Record(q) == [2, 3, 0, 0];
    assert [p, q][..1] == [p] && [p][..0] == [];
    assert Records([p]) == [] + Record(p) && Records([p, q]) == Records([p]) + Record(q);
  }

  /** Flag words read: the first one says whether the rest is packed, and each with its top bit set that another one
      follows. */
  lemma FlagsRead()
    ensures var buff: seq<byte> := [0x80, 0, 0, 1, 0, 0, 0, 0, 1, 2, 0, 0];
            FlagWord(buff, 12) == 0x80000001 && FlagsEnd(buff, 12) == 8 && FlagWord(buff, 11) == 0 && FlagsEnd(buff, 11) == 0
    ensures var buff: seq<byte> := [0x7f, 0, 0, 0, 1, 2, 0, 0]; FlagsEnd(buff, 12) == 4
  {
    var buff: seq<byte> := [0x80, 0, 0, 1, 0, 0, 0, 0, 1, 2, 0, 0];
    assert Get32(buff, 0) == 0x80000001 && Get32(buff, 4) == 0;
    assert MoreFlags(buff, 8, 0) == 8;
  }

  /** A packed block and one that is not. */
  lemma PackedOrNot(unzip: Gunzip)
    ensures RecordBytes([0, 0, 0, 2, 1, 2, 0, 0], 12, unzip) == Some(([0, 0, 0, 2, 1, 2, 0, 0], 4))
    ensures unzip([31, 139]).Some? ==> RecordBytes([0, 0, 0, 1, 31, 139], 12, unzip) == Some((unzip([31, 139]).value, 0))
    ensures unzip([31, 139]).None? ==> RecordBytes([0, 0, 0, 1, 31, 139], 12, unzip) == None
  {
    var plain: seq<byte>, packed: seq<byte> := [0, 0, 0, 2, 1, 2, 0, 0], [0, 0, 0, 1, 31, 139];
    assert Get32(plain, 0) == 2 && Get32(packed, 0) == 1;
    assert FlagsEnd(plain, 12) == 4 && FlagsEnd(packed, 12) == 4 && packed[4..] == [31, 139];
  }

  // ----- the exclusive-or string -----

  const EVEN_WORDS: seq<nat> := [
    0x37778905, 0xcee4441a, 0x2f5bccd1, 0x799ba52b, 0xe04a8108, 0xbe75a336,
    0xd891fc45, 0x4b82a690, 0xb08cd26c, 0x77985a74, 0xb09b30b2, 0x90d3257a]
  const ODD_WORDS: seq<nat> := [
    0x28725b2a, 0x798adb90, 0x6e72b49a, 0x456ac17c, 0xbcdb318a, 0xfe7dc62c,
    0x03b0de7b, 0xeb670ccb, 0x6703f524, 0x141f9fec, 0x4b0e2d95]

  /** The string is 64 words, on its even and on its odd places a few words three times each. */
  function XorWord(i: nat): nat
    requires i < 64
  {
    if i % 2 == 0 then EVEN_WORDS[(i / 2 + 2) / 3] else ODD_WORDS[(i / 2 + 1) / 3]
  }

  lemma XorWords(g: nat)
    requires g < 16
    ensures Get32(XorRow(g), 0) == XorWord(4 * g) && Get32(XorRow(g), 4) == XorWord(4 * g + 1)
    ensures Get32(XorRow(g), 8) == XorWord(4 * g + 2) && Get32(XorRow(g), 12) == XorWord(4 * g + 3)
  {
    hide XorRow, XorWord, Get32;
    if g < 2 {
      FirstXorRows(g);
    } else if g < 4 {
      SecondXorRows(g);
    } else if g < 6 {
      ThirdXorRows(g);
    } else if g < 8 {
      FourthXorRows(g);
    } else if g < 10 {
      FifthXorRows(g);
    } else if g < 12 {
      SixthXorRows(g);
    } else if g < 14 {
      SeventhXorRows(g);
    } else {
      LastXorRows(g);
    }
  }

  lemma FirstXorRows(g: nat)
    requires g < 2
    ensures Get32(XorRow(g), 0) == XorWord(4 * g) && Get32(XorRow(g), 4) == XorWord(4 * g + 1)
    ensures Get32(XorRow(g), 8) == XorWord(4 * g + 2) && Get32(XorRow(g), 12) == XorWord(4 * g + 3)
  {
  }

  lemma SecondXorRows(g: nat)
    requires 2 <= g < 4
    ensures Get32(XorRow(g), 0) == XorWord(4 * g) && Get32(XorRow(g), 4) == XorWord(4 * g + 1)
    ensures Get32(XorRow(g), 8) == XorWord(4 * g + 2) && Get32(XorRow(g), 12) == XorWord(4 * g + 3)
  {
  }

  lemma ThirdXorRows(g: nat)
    requires 4 <= g < 6
    ensures Get32(XorRow(g), 0) == XorWord(4 * g) && Get32(XorRow(g), 4) == XorWord(4 * g + 1)
    ensures Get32(XorRow(g), 8) == XorWord(4 * g + 2) && Get32(XorRow(g), 12) == XorWord(4 * g + 3)
  {
  }

  lemma FourthXorRows(g: nat)
    requires 6 <= g < 8
    ensures Get32(XorRow(g), 0) == XorWord(4 * g) && Get32(XorRow(g), 4) == XorWord(4 * g + 1)
    ensures Get32(XorRow(g), 8) == XorWord(4 * g + 2) && Get32(XorRow(g), 12) == XorWord(4 * g + 3)
  {
  }

  lemma FifthXorRows(g: nat)
    requires 8 <= g < 10
    ensures Get32(XorRow(g), 0) == XorWord(4 * g) && Get32(XorRow(g), 4) == XorWord(4 * g + 1)
    ensures Get32(XorRow(g), 8) == XorWord(4 * g + 2) && Get32(XorRow(g), 12) == XorWord(4 * g + 3)
  {
  }

  lemma SixthXorRows(g: nat)
    requires 10 <= g < 12
    ensures Get32(XorRow(g), 0) == XorWord(4 * g) && Get32(XorRow(g), 4) == XorWord(4 * g + 1)
    ensures Get32(XorRow(g), 8) == XorWord(4 * g + 2) && Get32(XorRow(g), 12) == XorWord(4 * g + 3)
  {
  }

  lemma SeventhXorRows(g: nat)
    requires 12 <= g < 14
    ensures Get32(XorRow(g), 0) == XorWord(4 * g) && Get32(XorRow(g), 4) == XorWord(4 * g + 1)
    ensures Get32(XorRow(g), 8) == XorWord(4 * g + 2) && Get32(XorRow(g), 12) == XorWord(4 * g + 3)
  {
  }

  lemma LastXorRows(g: nat)
    requires 14 <= g < 16
    ensures Get32(XorRow(g), 0) == XorWord(4 * g) && Get32(XorRow(g), 4) == XorWord(4 * g + 1)
    ensures Get32(XorRow(g), 8) == XorWord(4 * g + 2) && Get32(XorRow(g), 12) == XorWord(4 * g + 3)
  {
  }

  // ----- a packet -----

  /** The message bytes as the checksum sees them. */
  function ClearBytes(): seq<bv8> {
    [2, 0, 0, 0, 16, 11, 1, 2, 3, 4, 5, 0]
  }

  lemma Round(r: bv32, b: bv8)
    ensures Crc32.ByteStep(r, b) == Word32.Xor(Word32.Append(r, b), Crc32.Double8((r >> 24) << 24))
  {
    hide Word32.Xor, Word32.Append, Crc32.Double8, Crc32.ByteStep;
    Crc32.StepAsXor(r, b);
    TopByte(r);
    Crc32.TableIsEightSteps(r >> 24);
  }

  lemma TopByte(r: bv32)
    ensures r >> 24 < 256
  {
  }

  /** Eight rounds of the loop. */
  lemma Rounds()
    ensures Crc32.ByteStep(0xfdffffff, 16) == 0x478a84ca && Crc32.ByteStep(0x478a84ca, 11) == 0xa045ea79
    ensures Crc32.ByteStep(0xa045ea79, 1) == 0xb4c52f0f && Crc32.ByteStep(0xb4c52f0f, 2) == 0x6b15f4a0
    ensures Crc32.ByteStep(0x6b15f4a0, 3) == 0x921aadf5 && Crc32.ByteStep(0x921aadf5, 4) == 0x3632f5f4
    ensures Crc32.ByteStep(0x3632f5f4, 5) == 0xfc41d427 && Crc32.ByteStep(0xfc41d427, 0) == 0xfd60416d
  {
    hide Crc32.ByteStep;
    Round(0xfdffffff, 16);
    Round(0x478a84ca, 11);
    Round(0xa045ea79, 1);
    Round(0xb4c52f0f, 2);
    Round(0x6b15f4a0, 3);
    Round(0x921aadf5, 4);
    Round(0x3632f5f4, 5);
    Round(0xfc41d427, 0);
  }

  lemma NextRound(m: seq<bv8>, i: nat, r: bv32, next: bv32)
    requires i < |m| && Crc32.Register(0, m[..i]) == r && Crc32.ByteStep(r, m[i]) == next
    ensures Crc32.Register(0, m[..i + 1]) == next
  {
    hide Crc32.ByteStep, Crc32.Register;
    Crc32.RegisterStep(m, i);
  }

  lemma ClearChecksum()
    ensures Crc32.Crc(ClearBytes()) == 0x029fbe92
  {
    hide Crc32.ByteStep, Crc32.Register, Crc32.Complemented, Crc32.MessageBits;
    var buf := ClearBytes();
    var m := Crc32.Complemented(buf);
    Crc32.WordOfBuffer(buf);
    FirstRegister();
    BehindFour(buf);
    Rounds();
    NextRound(m, 4, 0xfdffffff, 0x478a84ca);
    NextRound(m, 5, 0x478a84ca, 0xa045ea79);
    NextRound(m, 6, 0xa045ea79, 0xb4c52f0f);
    NextRound(m, 7, 0xb4c52f0f, 0x6b15f4a0);
    NextRound(m, 8, 0x6b15f4a0, 0x921aadf5);
    NextRound(m, 9, 0x921aadf5, 0x3632f5f4);
    NextRound(m, 10, 0x3632f5f4, 0xfc41d427);
    NextRound(m, 11, 0xfc41d427, 0xfd60416d);
    assert m[..12] == m;
    Crc32.RegisterDivides(0, m);
    LastComplement();
  }

  lemma FirstRegister()
    ensures Word32.Xor(Word32.Word(2, 0, 0, 0), 0xFFFFFFFF) == 0xfdffffff
  {
  }

  lemma LastComplement()
    ensures Word32.Xor(0xfd60416d, 0xFFFFFFFF) == 0x029fbe92
  {
  }

  lemma BehindFour(buf: seq<bv8>)
    ensures forall i :: 4 <= i < |buf| ==> Crc32.Complemented(buf)[i] == buf[i]
  {
  }

  /** The same bytes, as the packet holds them. */
  lemma OctetsOfClear()
    ensures Octets([2, 0, 0, 0, 16, 11, 1, 2, 3, 4, 5, 0]) == ClearBytes()
  {
    SmallOctets();
    hide CrcBytes.Octet;
  }

  lemma SmallOctets()
    ensures CrcBytes.Octet(0) == 0 && CrcBytes.Octet(1) == 1 && CrcBytes.Octet(2) == 2 && CrcBytes.Octet(3) == 3
    ensures CrcBytes.Octet(4) == 4 && CrcBytes.Octet(5) == 5 && CrcBytes.Octet(11) == 11 && CrcBytes.Octet(16) == 16
  {
  }

  lemma ChecksumBytes()
    ensures WordBytes(0x029fbe92) == [0x02, 0x9f, 0xbe, 0x92]
  {
  }

  /** A reply of protocol version 11 without message and parameters: ten bytes in the clear with the length and the
      head, then status 5, the NUL of the message and the checksum, encrypted. */
  lemma PacketWritten()
    ensures var h := Head(11, 0x0102, 3, 4);
            && HeadOk(h)
            && Packet(h, Rest(5, [], Written([], 11, false)))
               == [0x02, 0x00, 0x00, 0x00, 0x10, 0x0b, 0x01, 0x02, 0x03, 0x04, 0x32, 0x77, 0x8b, 0x9a, 0x96, 0xe0]
  {
    hide Crypt, Checksum, Packet, Clear, Written;
    var h := Head(11, 0x0102, 3, 4);
    BlockWritten();
    var rest := Rest(5, [], Written([], 11, false));
    assert rest == [5, 0];
    var clear: seq<byte> := [2, 0, 0, 0, 16, 11, 1, 2, 3, 4, 5, 0];
    PacketClear(h, rest, clear);
    PacketEncrypted();
  }

  /** Between the head and the checksum: the status, the message with its NUL, and the block. */
  lemma RestWritten()
    ensures Rest(5, [65, 66], [9, 8]) == [5, 65, 66, 0, 9, 8]
    ensures Fields(Head(12, 0x0102, 3, 4), 0x01020304) == [2, 1, 2, 3, 4, 12, 1, 2, 3, 4]
  {
  }

  lemma PacketClear(h: Head, rest: seq<byte>, clear: seq<byte>)
    requires h == Head(11, 0x0102, 3, 4) && rest == [5, 0] && clear == [2, 0, 0, 0, 16, 11, 1, 2, 3, 4, 5, 0]
    ensures Packet(h, rest) == [2, 0, 0, 0, 16, 11, 1, 2, 3, 4] + Crypt([5, 0, 0x02, 0x9f, 0xbe, 0x92])
  {
    hide Crypt, Crc32.Crc, WordBytes, Octets;
    ClearChecksum();
    OctetsOfClear();
    ChecksumBytes();
    assert Fields(h, 0) == [2, 0, 0, 0, 0, 11, 1, 2, 3, 4];
    var v := Fields(h, 0) + rest;
    assert v[..1] + Be32(16) + v[5..] == clear;
    var all := clear + [0x02, 0x9f, 0xbe, 0x92];
    assert all[..10] == [2, 0, 0, 0, 16, 11, 1, 2, 3, 4] && all[10..] == [5, 0, 0x02, 0x9f, 0xbe, 0x92];
  }

  lemma PacketEncrypted()
    ensures Crypt([5, 0, 0x02, 0x9f, 0xbe, 0x92]) == [0x32, 0x77, 0x8b, 0x9a, 0x96, 0xe0]
  {
    hide XorByte, MagicByte;
    MagicStart();
    XorNumerals();
  }

  lemma MagicStart()
    ensures MagicByte(0) == 0x37 && MagicByte(1) == 0x77 && MagicByte(2) == 0x89
    ensures MagicByte(3) == 0x05 && MagicByte(4) == 0x28 && MagicByte(5) == 0x72
  {
  }

  lemma XorNumerals()
    ensures XorByte(5, 0x37) == 0x32 && XorByte(0, 0x77) == 0x77 && XorByte(0x02, 0x89) == 0x8b
    ensures XorByte(0x9f, 0x05) == 0x9a && XorByte(0xbe, 0x28) == 0x96 && XorByte(0x92, 0x72) == 0xe0
  {
    hide BitXor;
    Nibbles();
    XorNibbles(0, 5, 3, 7);
    XorNibbles(0, 0, 7, 7);
    XorNibbles(0, 2, 8, 9);
    XorNibbles(9, 15, 0, 5);
    XorNibbles(11, 14, 2, 8);
    XorNibbles(9, 2, 7, 2);
  }

  lemma Nibbles()
    ensures BitXor(0, 3) == 3 && BitXor(5, 7) == 2 && BitXor(0, 7) == 7 && BitXor(0, 8) == 8 && BitXor(2, 9) == 11
    ensures BitXor(9, 0) == 9 && BitXor(15, 5) == 10 && BitXor(11, 2) == 9 && BitXor(14, 8) == 6
    ensures BitXor(9, 7) == 14 && BitXor(2, 2) == 0
  {
  }

  lemma XorNibbles(a: nat, b: nat, c: nat, d: nat)
    requires b < 16 && d < 16
    ensures BitXor(16 * a + b, 16 * c + d) == 16 * BitXor(a, c) + BitXor(b, d)
  {
    hide BitXor;
    XorPairs(4 * a + b / 4, b % 4, 4 * c + d / 4, d % 4);
    XorPairs(a, b / 4, c, d / 4);
    XorPairs(b / 4, b % 4, d / 4, d % 4);
  }

  lemma XorPairs(a: nat, b: nat, c: nat, d: nat)
    requires b < 4 && d < 4
    ensures BitXor(4 * a + b, 4 * c + d) == 4 * BitXor(a, c) + BitXor(b, d)
  {
    hide BitXor;
    XorStep(4 * a + b, 4 * c + d);
    XorStep(2 * a + b / 2, 2 * c + d / 2);
    XorStep(b, d);
    XorStep(b / 2, d / 2);
    XorNone();
    assert (4 * a + b) / 2 == 2 * a + b / 2 && (4 * c + d) / 2 == 2 * c + d / 2;
  }

  lemma XorStep(x: nat, y: nat)
    ensures BitXor(x, y) == (if x % 2 != y % 2 then 1 else 0) + 2 * BitXor(x / 2, y / 2)
  {
  }

  lemma XorNone()
    ensures BitXor(0, 0) == 0
  {
  }
}
