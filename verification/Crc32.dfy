/** The CRC-32 of crc32.cpp: a table-driven byte loop, as polynomial division over GF(2). */
module Crc32 {
  import opened Bits
  import opened Word32
  import opened Gf2

  /** staticrcMap, in rows of sixteen. */
  function Row(g: nat): (row: seq<bv32>)
    requires g < 16
    ensures |row| == 16
  {
    match g
    case 0 => [
      0x00000000, 0x04C11DB7, 0x09823B6E, 0x0D4326D9, 0x130476DC, 0x17C56B6B, 0x1A864DB2, 0x1E475005,
      0x2608EDB8, 0x22C9F00F, 0x2F8AD6D6, 0x2B4BCB61, 0x350C9B64, 0x31CD86D3, 0x3C8EA00A, 0x384FBDBD]
    case 1 => [
      0x4C11DB70, 0x48D0C6C7, 0x4593E01E, 0x4152FDA9, 0x5F15ADAC, 0x5BD4B01B, 0x569796C2, 0x52568B75,
      0x6A1936C8, 0x6ED82B7F, 0x639B0DA6, 0x675A1011, 0x791D4014, 0x7DDC5DA3, 0x709F7B7A, 0x745E66CD]
    case 2 => [
      0x9823B6E0, 0x9CE2AB57, 0x91A18D8E, 0x95609039, 0x8B27C03C, 0x8FE6DD8B, 0x82A5FB52, 0x8664E6E5,
      0xBE2B5B58, 0xBAEA46EF, 0xB7A96036, 0xB3687D81, 0xAD2F2D84, 0xA9EE3033, 0xA4AD16EA, 0xA06C0B5D]
    case 3 => [
      0xD4326D90, 0xD0F37027, 0xDDB056FE, 0xD9714B49, 0xC7361B4C, 0xC3F706FB, 0xCEB42022, 0xCA753D95,
      0xF23A8028, 0xF6FB9D9F, 0xFBB8BB46, 0xFF79A6F1, 0xE13EF6F4, 0xE5FFEB43, 0xE8BCCD9A, 0xEC7DD02D]
    case 4 => [
      0x34867077, 0x30476DC0, 0x3D044B19, 0x39C556AE, 0x278206AB, 0x23431B1C, 0x2E003DC5, 0x2AC12072,
      0x128E9DCF, 0x164F8078, 0x1B0CA6A1, 0x1FCDBB16, 0x018AEB13, 0x054BF6A4, 0x0808D07D, 0x0CC9CDCA]
    case 5 => [
      0x7897AB07, 0x7C56B6B0, 0x71159069, 0x75D48DDE, 0x6B93DDDB, 0x6F52C06C, 0x6211E6B5, 0x66D0FB02,
      0x5E9F46BF, 0x5A5E5B08, 0x571D7DD1, 0x53DC6066, 0x4D9B3063, 0x495A2DD4, 0x44190B0D, 0x40D816BA]
    case 6 => [
      0xACA5C697, 0xA864DB20, 0xA527FDF9, 0xA1E6E04E, 0xBFA1B04B, 0xBB60ADFC, 0xB6238B25, 0xB2E29692,
      0x8AAD2B2F, 0x8E6C3698, 0x832F1041, 0x87EE0DF6, 0x99A95DF3, 0x9D684044, 0x902B669D, 0x94EA7B2A]
    case 7 => [
      0xE0B41DE7, 0xE4750050, 0xE9362689, 0xEDF73B3E, 0xF3B06B3B, 0xF771768C, 0xFA325055, 0xFEF34DE2,
      0xC6BCF05F, 0xC27DEDE8, 0xCF3ECB31, 0xCBFFD686, 0xD5B88683, 0xD1799B34, 0xDC3ABDED, 0xD8FBA05A]
    case 8 => [
      0x690CE0EE, 0x6DCDFD59, 0x608EDB80, 0x644FC637, 0x7A089632, 0x7EC98B85, 0x738AAD5C, 0x774BB0EB,
      0x4F040D56, 0x4BC510E1, 0x46863638, 0x42472B8F, 0x5C007B8A, 0x58C1663D, 0x558240E4, 0x51435D53]
    case 9 => [
      0x251D3B9E, 0x21DC2629, 0x2C9F00F0, 0x285E1D47, 0x36194D42, 0x32D850F5, 0x3F9B762C, 0x3B5A6B9B,
      0x0315D626, 0x07D4CB91, 0x0A97ED48, 0x0E56F0FF, 0x1011A0FA, 0x14D0BD4D, 0x19939B94, 0x1D528623]
    case 10 => [
      0xF12F560E, 0xF5EE4BB9, 0xF8AD6D60, 0xFC6C70D7, 0xE22B20D2, 0xE6EA3D65, 0xEBA91BBC, 0xEF68060B,
      0xD727BBB6, 0xD3E6A601, 0xDEA580D8, 0xDA649D6F, 0xC423CD6A, 0xC0E2D0DD, 0xCDA1F604, 0xC960EBB3]
    case 11 => [
      0xBD3E8D7E, 0xB9FF90C9, 0xB4BCB610, 0xB07DABA7, 0xAE3AFBA2, 0xAAFBE615, 0xA7B8C0CC, 0xA379DD7B,
      0x9B3660C6, 0x9FF77D71, 0x92B45BA8, 0x9675461F, 0x8832161A, 0x8CF30BAD, 0x81B02D74, 0x857130C3]
    case 12 => [
      0x5D8A9099, 0x594B8D2E, 0x5408ABF7, 0x50C9B640, 0x4E8EE645, 0x4A4FFBF2, 0x470CDD2B, 0x43CDC09C,
      0x7B827D21, 0x7F436096, 0x7200464F, 0x76C15BF8, 0x68860BFD, 0x6C47164A, 0x61043093, 0x65C52D24]
    case 13 => [
      0x119B4BE9, 0x155A565E, 0x18197087, 0x1CD86D30, 0x029F3D35, 0x065E2082, 0x0B1D065B, 0x0FDC1BEC,
      0x3793A651, 0x3352BBE6, 0x3E119D3F, 0x3AD08088, 0x2497D08D, 0x2056CD3A, 0x2D15EBE3, 0x29D4F654]
    case 14 => [
      0xC5A92679, 0xC1683BCE, 0xCC2B1D17, 0xC8EA00A0, 0xD6AD50A5, 0xD26C4D12, 0xDF2F6BCB, 0xDBEE767C,
      0xE3A1CBC1, 0xE760D676, 0xEA23F0AF, 0xEEE2ED18, 0xF0A5BD1D, 0xF464A0AA, 0xF9278673, 0xFDE69BC4]
    case _ => [
      0x89B8FD09, 0x8D79E0BE, 0x803AC667, 0x84FBDBD0, 0x9ABC8BD5, 0x9E7D9662, 0x933EB0BB, 0x97FFAD0C,
      0xAFB010B1, 0xAB710D06, 0xA6322BDF, 0xA2F33668, 0xBCB4666D, 0xB8757BDA, 0xB5365D03, 0xB1F740B4]
  }

  function Rows(n: nat): (rows: seq<bv32>)
    requires n <= 16
    ensures |rows| == 16 * n
  {
    if n == 0 then [] else Rows(n - 1) + Row(n - 1)
  }

  /** staticrcMap */
  function Table(): (table: seq<bv32>)
    ensures |table| == 256
  {
    Rows(16)
  }

  function ByteBits(b: bv8): (bits: seq<bool>)
    ensures |bits| == 8
  {
    [b & 128 != 0, b & 64 != 0, b & 32 != 0, b & 16 != 0, b & 8 != 0, b & 4 != 0, b & 2 != 0, b & 1 != 0]
  }

  /** The bits of a message, each byte's most significant bit first. */
  function MessageBits(bytes: seq<bv8>): (bits: seq<bool>)
    ensures |bits| == 8 * |bytes|
  {
    if bytes == [] then [] else MessageBits(bytes[..|bytes| - 1]) + ByteBits(bytes[|bytes| - 1])
  }

  /** Eight division steps on zero bits. */
  function Double8(r: bv32): bv32 {
    Double(Double(Double(Double(Double(Double(Double(Double(r))))))))
  }

  lemma Double8Linear(p: bv32, q: bv32)
    ensures Double8(Xor(p, q)) == Xor(Double8(p), Double8(q))
  {
    hide Double, Xor;
    var p1, q1 := Double(p), Double(q);
    var p2, q2 := Double(p1), Double(q1);
    var p3, q3 := Double(p2), Double(q2);
    var p4, q4 := Double(p3), Double(q3);
    var p5, q5 := Double(p4), Double(q4);
    var p6, q6 := Double(p5), Double(q5);
    var p7, q7 := Double(p6), Double(q6);
    DoubleLinear(p, q);
    DoubleLinear(p1, q1);
    DoubleLinear(p2, q2);
    DoubleLinear(p3, q3);
    DoubleLinear(p4, q4);
    DoubleLinear(p5, q5);
    DoubleLinear(p6, q6);
    DoubleLinear(p7, q7);
  }

  function XorFirstRow(c: bv32): seq<bv32> {
    var f := Row(0);
    [Xor(c, f[0]), Xor(c, f[1]), Xor(c, f[2]), Xor(c, f[3]), Xor(c, f[4]), Xor(c, f[5]), Xor(c, f[6]), Xor(c, f[7]),
     Xor(c, f[8]), Xor(c, f[9]), Xor(c, f[10]), Xor(c, f[11]), Xor(c, f[12]), Xor(c, f[13]), Xor(c, f[14]), Xor(c, f[15])]
  }

  /** Each row is its first entry added to the first row. */
  lemma RowsFromFirst(g: nat)
    requires g < 16
    ensures Row(g) == XorFirstRow(Row(g)[0])
  {
    assert Row(0) == XorFirstRow(Row(0)[0]);
    assert Row(1) == XorFirstRow(Row(1)[0]);
    assert Row(2) == XorFirstRow(Row(2)[0]);
    assert Row(3) == XorFirstRow(Row(3)[0]);
    assert Row(4) == XorFirstRow(Row(4)[0]);
    assert Row(5) == XorFirstRow(Row(5)[0]);
    assert Row(6) == XorFirstRow(Row(6)[0]);
    assert Row(7) == XorFirstRow(Row(7)[0]);
    assert Row(8) == XorFirstRow(Row(8)[0]);
    assert Row(9) == XorFirstRow(Row(9)[0]);
    assert Row(10) == XorFirstRow(Row(10)[0]);
    assert Row(11) == XorFirstRow(Row(11)[0]);
    assert Row(12) == XorFirstRow(Row(12)[0]);
    assert Row(13) == XorFirstRow(Row(13)[0]);
    assert Row(14) == XorFirstRow(Row(14)[0]);
    assert Row(15) == XorFirstRow(Row(15)[0]);
  }

  /** The first row is eight division steps on its index. */
  lemma FirstRow(x: bv32)
    requires x < 16
    ensures Row(0)[x as int] == Double8(x << 24)
  {
    hide *;
    if x < 4 {
      FirstRow0(x);
    } else if x < 8 {
      FirstRow4(x);
    } else if x < 12 {
      FirstRow8(x);
    } else {
      FirstRow12(x);
    }
  }

  lemma FirstRow0(x: bv32)
    requires 0 <= x < 4
    ensures Row(0)[x as int] == Double8(x << 24)
  {
    assert Row(0)[0] == Double8(0 << 24);
    assert Row(0)[1] == Double8(1 << 24);
    assert Row(0)[2] == Double8(2 << 24);
    assert Row(0)[3] == Double8(3 << 24);
    assert x == 0 || x == 1 || x == 2 || x == 3;
  }

  lemma FirstRow4(x: bv32)
    requires 4 <= x < 8
    ensures Row(0)[x as int] == Double8(x << 24)
  {
    assert Row(0)[4] == Double8(4 << 24);
    assert Row(0)[5] == Double8(5 << 24);
    assert Row(0)[6] == Double8(6 << 24);
    assert Row(0)[7] == Double8(7 << 24);
    assert x == 4 || x == 5 || x == 6 || x == 7;
  }

  lemma FirstRow8(x: bv32)
    requires 8 <= x < 12
    ensures Row(0)[x as int] == Double8(x << 24)
  {
    assert Row(0)[8] == Double8(8 << 24);
    assert Row(0)[9] == Double8(9 << 24);
    assert Row(0)[10] == Double8(10 << 24);
    assert Row(0)[11] == Double8(11 << 24);
    assert x == 8 || x == 9 || x == 10 || x == 11;
  }

  lemma FirstRow12(x: bv32)
    requires 12 <= x < 16
    ensures Row(0)[x as int] == Double8(x << 24)
  {
    assert Row(0)[12] == Double8(12 << 24);
    assert Row(0)[13] == Double8(13 << 24);
    assert Row(0)[14] == Double8(14 << 24);
    assert Row(0)[15] == Double8(15 << 24);
    assert x == 12 || x == 13 || x == 14 || x == 15;
  }

  /** So is the first entry of each row. */
  lemma FirstEntries(x: bv32)
    requires x < 16
    ensures Row(x as int)[0] == Double8(x << 28)
  {
    hide Row, Double8;
    if x < 8 {
      UpperFirstEntries(x);
    } else if x < 12 {
      LowerFirstEntries(x);
    } else {
      LastFirstEntries(x);
    }
  }

  lemma UpperFirstEntries(x: bv32)
    requires x < 8
    ensures Row(x as int)[0] == Double8(x << 28)
  {
    assert Row(0)[0] == Double8(0 << 28);
    assert Row(1)[0] == Double8(1 << 28);
    assert Row(2)[0] == Double8(2 << 28);
    assert Row(3)[0] == Double8(3 << 28);
    assert Row(4)[0] == Double8(4 << 28);
    assert Row(5)[0] == Double8(5 << 28);
    assert Row(6)[0] == Double8(6 << 28);
    assert Row(7)[0] == Double8(7 << 28);
    assert x == 0 || x == 1 || x == 2 || x == 3 || x == 4 || x == 5 || x == 6 || x == 7;
  }

  lemma LowerFirstEntries(x: bv32)
    requires 8 <= x < 12
    ensures Row(x as int)[0] == Double8(x << 28)
  {
    assert Row(8)[0] == Double8(8 << 28);
    assert Row(9)[0] == Double8(9 << 28);
    assert Row(10)[0] == Double8(10 << 28);
    assert Row(11)[0] == Double8(11 << 28);
    assert x == 8 || x == 9 || x == 10 || x == 11;
  }

  lemma LastFirstEntries(x: bv32)
    requires 12 <= x < 16
    ensures Row(x as int)[0] == Double8(x << 28)
  {
    assert Row(12)[0] == Double8(12 << 28);
    assert Row(13)[0] == Double8(13 << 28);
    assert Row(14)[0] == Double8(14 << 28);
    assert Row(15)[0] == Double8(15 << 28);
    assert x == 12 || x == 13 || x == 14 || x == 15;
  }

  lemma {:induction false} RowsIndex(n: nat, g: nat, j: nat)
    requires g < n <= 16 && j < 16
    ensures Rows(n)[16 * g + j] == Row(g)[j]
  {
    hide Row;
    if g < n - 1 {
      RowsIndex(n - 1, g, j);
    }
  }

  /** Every table entry is eight division steps applied to its index. */
  lemma TableIsEightSteps(x: bv32)
    requires x < 256
    ensures x as int < 256 && Table()[x as int] == Double8(x << 24)
  {
    hide Double8, Row, Rows, Xor, XorFirstRow;
    var a, b := x >> 4, x & 15;
    IndexParts(x);
    WordParts(x);
    RowsIndex(16, a as int, b as int);
    RowsFromFirst(a as int);
    FirstRow(b);
    FirstEntries(a);
    XorRow(Row(a as int)[0], b as int);
    Double8Linear(a << 28, b << 24);
  }

  lemma XorRow(c: bv32, j: nat)
    requires j < 16
    ensures XorFirstRow(c)[j] == Xor(c, Row(0)[j])
  {
    hide Row, Xor;
    if j < 8 {
      assert j == 0 || j == 1 || j == 2 || j == 3 || j == 4 || j == 5 || j == 6 || j == 7;
    } else {
      assert j == 8 || j == 9 || j == 10 || j == 11 || j == 12 || j == 13 || j == 14 || j == 15;
    }
  }

  // ----- the byte loop -----

  /** One round of the loop: shift in a byte, and subtract what the byte shifted out stands for. */
  function ByteStep(r: bv32, b: bv8): bv32 {
    IndexBound(r);
    Xor(Append(r, b), Table()[(r >> 24) as int])
  }

  /** A register with a zero high byte takes in a byte unchanged. */
  lemma LowByteShift(r: bv32, b: bv8)
    requires r < 0x1000000
    ensures ShiftBits(r, ByteBits(b)) == Append(r, b)
  {
    hide ShiftBit, ShiftBits, Append, Enter;
    var r1 := Enter(r, b & 128 != 0);
    var r2 := Enter(r1, b & 64 != 0);
    var r3 := Enter(r2, b & 32 != 0);
    var r4 := Enter(r3, b & 16 != 0);
    var r5 := Enter(r4, b & 8 != 0);
    var r6 := Enter(r5, b & 4 != 0);
    var r7 := Enter(r6, b & 2 != 0);
    EnterGrows(r, b & 128 != 0);
    EnterGrows(r1, b & 64 != 0);
    EnterGrows(r2, b & 32 != 0);
    EnterGrows(r3, b & 16 != 0);
    EnterGrows(r4, b & 8 != 0);
    EnterGrows(r5, b & 4 != 0);
    EnterGrows(r6, b & 2 != 0);
    EnterGrows(r7, b & 1 != 0);
    EightBits(r, ByteBits(b));
    EnterByte(r, b);
  }

  lemma EnterGrows(r: bv32, b: bool)
    requires r < 0x80000000
    ensures ShiftBit(r, b) == Enter(r, b)
    ensures r < 0x1000000 ==> Enter(r, b) < 0x2000000
    ensures r < 0x2000000 ==> Enter(r, b) < 0x4000000
    ensures r < 0x4000000 ==> Enter(r, b) < 0x8000000
    ensures r < 0x8000000 ==> Enter(r, b) < 0x10000000
    ensures r < 0x10000000 ==> Enter(r, b) < 0x20000000
    ensures r < 0x20000000 ==> Enter(r, b) < 0x40000000
    ensures r < 0x40000000 ==> Enter(r, b) < 0x80000000
  {
    hide *;
    EnterBound(r, b);
    ShiftBitEnters(r, b);
  }

  /** Dividing in eight bits, spelled out. */
  lemma EightBits(r: bv32, bits: seq<bool>)
    requires |bits| == 8
    ensures ShiftBits(r, bits) ==
            ShiftBit(ShiftBit(ShiftBit(ShiftBit(ShiftBit(ShiftBit(ShiftBit(ShiftBit(
              r, bits[0]), bits[1]), bits[2]), bits[3]), bits[4]), bits[5]), bits[6]), bits[7])
  {
    hide ShiftBit, ShiftBits;
    var high, low := bits[..4], bits[4..];
    assert bits == high + low;
    ShiftBitsAppend(r, high, low);
    FourBits(r, high);
    FourBits(ShiftBits(r, high), low);
  }

  lemma FourBits(r: bv32, bits: seq<bool>)
    requires |bits| == 4
    ensures ShiftBits(r, bits) == ShiftBit(ShiftBit(ShiftBit(ShiftBit(r, bits[0]), bits[1]), bits[2]), bits[3])
  {
    hide ShiftBit;
    assert bits[..3][..2] == bits[..2] && bits[..2][..1] == bits[..1] && bits[..1][..0] == [];
    assert ShiftBits(r, bits[..1]) == ShiftBit(r, bits[0]);
    assert ShiftBits(r, bits[..3]) == ShiftBit(ShiftBit(ShiftBits(r, bits[..1]), bits[1]), bits[2]);
  }

  /** Eight zero bits. */
  lemma ZeroByteShift(r: bv32, zeros: seq<bool>)
    requires |zeros| == 8 && AllZero(zeros)
    ensures ShiftBits(r, zeros) == Double8(r)
  {
    hide Double, Xor;
    EightBits(r, zeros);
    forall p: bv32
      ensures ShiftBit(p, false) == Double(p)
    {
      XorZero(Double(p));
    }
  }

  /** A round of the byte loop is eight division steps. */
  lemma ByteStepDivides(r: bv32, b: bv8)
    ensures ByteStep(r, b) == ShiftBits(r, ByteBits(b))
  {
    hide Xor, ShiftBits, Double8, ByteBits, Table, Append;
    var hi, lo := (r >> 24) << 24, r & 0xFFFFFF;
    SplitRegister(r);
    IndexBound(r);
    TableIsEightSteps(r >> 24);
    LowByteShift(lo, b);
    var zeros := seq(8, _ => false);
    ZeroByteShift(hi, zeros);
    ByteBitsLength(b);
    assert XorBits(zeros, ByteBits(b)) == ByteBits(b);
    ShiftBitsLinear(hi, zeros, lo, ByteBits(b));
    StepAsXor(r, b);
    AppendLow(r, b);
    XorComm(Double8(hi), Append(r, b));
  }

  lemma ByteBitsLength(b: bv8)
    ensures |ByteBits(b)| == 8
  {
  }

  lemma StepAsXor(r: bv32, b: bv8)
    ensures (r >> 24) as int < 256
    ensures ByteStep(r, b) == Xor(Append(r, b), Table()[(r >> 24) as int])
  {
    hide Xor, Append;
    IndexBound(r);
  }

  function Register(r: bv32, bytes: seq<bv8>): bv32 {
    if bytes == [] then r else ByteStep(Register(r, bytes[..|bytes| - 1]), bytes[|bytes| - 1])
  }

  /** The byte loop divides the message bits. */
  lemma {:induction false} RegisterDivides(r: bv32, bytes: seq<bv8>)
    ensures Register(r, bytes) == ShiftBits(r, MessageBits(bytes))
    decreases |bytes|
  {
    hide ByteStep, ShiftBits, ByteBits;
    if bytes == [] {
      ShiftNothing(r);
    } else {
      var init, last := bytes[..|bytes| - 1], bytes[|bytes| - 1];
      RegisterDivides(r, init);
      ByteStepDivides(Register(r, init), last);
      ShiftBitsAppend(r, MessageBits(init), ByteBits(last));
    }
  }

  lemma ShiftNothing(r: bv32)
    ensures ShiftBits(r, []) == r
  {
  }

  /** The message with its first 32 bits complemented. */
  function Complemented(buf: seq<bv8>): (m: seq<bv8>)
    ensures |m| == |buf|
  {
    seq(|buf|, i requires 0 <= i < |buf| => if i < 4 then Flip8(buf[i]) else buf[i])
  }

  /** The checksum of a message of at least four bytes: the complement of a remainder. */
  function Crc(buf: seq<bv8>): bv32 {
    Xor(Remainder(MessageBits(Complemented(buf))), 0xFFFFFFFF)
  }

  lemma AppendStep(r: bv32, b: bv8)
    requires r < 0x1000000
    ensures ByteStep(r, b) == Append(r, b)
  {
    hide ByteStep, ShiftBits, Append, ByteBits;
    ByteStepDivides(r, b);
    LowByteShift(r, b);
  }

  /** Four bytes fill the empty register. */
  lemma FourBytes(a: bv8, b: bv8, c: bv8, d: bv8)
    ensures Register(0, [a, b, c, d]) == Append(Append(Append(Append(0, a), b), c), d)
  {
    hide ByteStep, Append, Word;
    var s1, s2, s3, s4 := [a], [a, b], [a, b, c], [a, b, c, d];
    assert s4[..3] == s3 && s3[..2] == s2 && s2[..1] == s1 && s1[..0] == [];
    ByteAppendBound(a, b, c);
    AppendStep(0, a);
    AppendStep(Append(0, a), b);
    AppendStep(Append(Append(0, a), b), c);
    AppendStep(Append(Append(Append(0, a), b), c), d);
    assert Register(0, s1) == Append(0, a);
    assert Register(0, s2) == Append(Append(0, a), b);
    assert Register(0, s3) == Append(Append(Append(0, a), b), c);
  }

  lemma FirstFour(buf: seq<bv8>)
    requires |buf| >= 4
    ensures Complemented(buf)[..4] == [Flip8(buf[0]), Flip8(buf[1]), Flip8(buf[2]), Flip8(buf[3])]
  {
    hide Flip8;
  }

  /** Complementing the first word is dividing with the first four bytes complemented. */
  lemma WordOfBuffer(buf: seq<bv8>)
    requires |buf| >= 4
    ensures Register(0, Complemented(buf)[..4]) == Xor(Word(buf[0], buf[1], buf[2], buf[3]), 0xFFFFFFFF)
  {
    hide *;
    FirstFour(buf);
    FourBytes(Flip8(buf[0]), Flip8(buf[1]), Flip8(buf[2]), Flip8(buf[3]));
    FlipWord(buf[0], buf[1], buf[2], buf[3]);
  }

  /** One more round of the loop. */
  lemma RegisterStep(m: seq<bv8>, i: nat)
    requires i < |m|
    ensures Register(0, m[..i + 1]) == ByteStep(Register(0, m[..i]), m[i])
  {
    hide ByteStep;
    assert m[..i + 1][..i] == m[..i];
  }

  // ----- checksums in numerals -----

  /** Four bytes are their own checksum. */
  lemma FourBytesChecksum(a: bv8, b: bv8, c: bv8, d: bv8)
    ensures Crc([a, b, c, d]) == Word(a, b, c, d)
  {
    hide Word, Xor, Complemented, MessageBits, Register, ShiftBits;
    var buf := [a, b, c, d];
    WordOfBuffer(buf);
    assert Complemented(buf)[..4] == Complemented(buf);
    RegisterDivides(0, Complemented(buf));
    XorTwice(Word(a, b, c, d));
  }

  /** One more zero byte is looked up once. */
  lemma FiveZeros()
    ensures Crc([0, 0, 0, 0, 0]) == 0xB1F7404B
  {
    hide Xor, Complemented, MessageBits, Register, ShiftBits, ByteStep, Append, Table, Rows;
    var buf: seq<bv8> := [0, 0, 0, 0, 0];
    var m := Complemented(buf);
    WordOfBuffer(buf);
    RegisterStep(m, 4);
    assert m[..5] == m;
    RegisterDivides(0, m);
    FifthByte(m);
    LastEntry();
    StepAsXor(0xFFFFFFFF, 0);
    NumeralsXor();
  }

  lemma FifthByte(m: seq<bv8>)
    requires m == Complemented([0, 0, 0, 0, 0])
    ensures m[4] == 0
  {
  }

  lemma LastEntry()
    ensures Table()[255] == 0xB1F740B4
  {
  }

  lemma NumeralsXor()
    ensures Xor(Word(0, 0, 0, 0), 0xFFFFFFFF) == 0xFFFFFFFF && ((0xFFFFFFFF as bv32) >> 24) as int == 255
    ensures Xor(Xor(Append(0xFFFFFFFF, 0), 0xB1F740B4), 0xFFFFFFFF) == 0xB1F7404B
  {
  }

  lemma XorTwice(w: bv32)
    ensures Xor(Xor(w, 0xFFFFFFFF), 0xFFFFFFFF) == w
  {
  }

  // ----- what the checksum detects -----

  lemma {:induction false} MessageBitAt(bytes: seq<bv8>, i: nat, j: nat)
    requires i < |bytes| && j < 8
    ensures |ByteBits(bytes[i])| == 8
    ensures MessageBits(bytes)[8 * i + j] == ByteBits(bytes[i])[j]
    decreases |bytes|
  {
    hide ByteBits;
    ByteBitsLength(bytes[i]);
    if i < |bytes| - 1 {
      MessageBitAt(bytes[..|bytes| - 1], i, j);
    }
  }

  lemma ByteBitsInjective(x: bv8, y: bv8)
    requires x != y
    ensures exists j :: 0 <= j < 8 && |ByteBits(x)| == |ByteBits(y)| == 8 && ByteBits(x)[j] != ByteBits(y)[j]
  {
    hide ByteBits;
    BitDiffers(x, y);
    ByteBitsAt(x);
    ByteBitsAt(y);
    DifferSomewhere(ByteBits(x), ByteBits(y));
  }

  lemma ByteBitsAt(b: bv8)
    ensures var p := ByteBits(b);
            && |p| == 8
            && p[0] == (b & 128 != 0) && p[1] == (b & 64 != 0) && p[2] == (b & 32 != 0) && p[3] == (b & 16 != 0)
            && p[4] == (b & 8 != 0) && p[5] == (b & 4 != 0) && p[6] == (b & 2 != 0) && p[7] == (b & 1 != 0)
  {
  }

  lemma DifferSomewhere(p: seq<bool>, q: seq<bool>)
    requires |p| == |q| == 8
    requires p[0] != q[0] || p[1] != q[1] || p[2] != q[2] || p[3] != q[3]
          || p[4] != q[4] || p[5] != q[5] || p[6] != q[6] || p[7] != q[7]
    ensures exists j :: 0 <= j < 8 && p[j] != q[j]
  {
  }

  lemma ByteBitsFlip(x: bv8, j: nat)
    requires j < 8
    ensures |ByteBits(x)| == |ByteBits(Flip8(x))| == 8 && ByteBits(Flip8(x))[j] == !ByteBits(x)[j]
  {
    FlipBits(x, Flip8(x));
  }

  /** The bits in which two messages of equal length differ. */
  function Difference(a: seq<bv8>, b: seq<bv8>): seq<bool>
    requires |a| == |b|
  {
    XorBits(MessageBits(a), MessageBits(b))
  }

  /** Complementing the first four bytes of both messages changes no difference. */
  lemma SameDifference(a: seq<bv8>, b: seq<bv8>)
    requires |a| == |b|
    ensures Difference(Complemented(a), Complemented(b)) == Difference(a, b)
  {
    hide ByteBits, MessageBits, Flip8;
    var c, d := Complemented(a), Complemented(b);
    forall k | 0 <= k < 8 * |a|
      ensures Difference(c, d)[k] == Difference(a, b)[k]
    {
      var i, j := k / 8, k % 8;
      MessageBitAt(a, i, j);
      MessageBitAt(b, i, j);
      MessageBitAt(c, i, j);
      MessageBitAt(d, i, j);
      ByteBitsFlip(a[i], j);
      ByteBitsFlip(b[i], j);
    }
  }

  /** Different messages of equal length whose differing bits lie within 32 consecutive bits have
      different checksums. */
  lemma CrcDetectsBurst(a: seq<bv8>, b: seq<bv8>, start: nat)
    requires |a| == |b| >= 4 && a != b && Burst(Difference(a, b), start)
    ensures Crc(a) != Crc(b)
  {
    hide ByteBits, MessageBits, Remainder, Xor, Complemented, Burst;
    var i :| 0 <= i < |a| && a[i] != b[i];
    ByteBitsInjective(a[i], b[i]);
    var j :| 0 <= j < 8 && ByteBits(a[i])[j] != ByteBits(b[i])[j];
    MessageBitAt(a, i, j);
    MessageBitAt(b, i, j);
    SameDifference(a, b);
    var m, n := MessageBits(Complemented(a)), MessageBits(Complemented(b));
    assert XorBits(m, n)[8 * i + j];
    BurstDetected(m, n, start);
    XorOnesInjective(Remainder(m), Remainder(n));
  }

  /** In particular when all differing bytes lie within four consecutive ones. */
  lemma CrcDetectsFourBytes(a: seq<bv8>, b: seq<bv8>, first: nat)
    requires |a| == |b| >= 4 && a != b
    requires forall i :: 0 <= i < |a| && a[i] != b[i] ==> first <= i < first + 4
    ensures Crc(a) != Crc(b)
  {
    hide ByteBits, MessageBits, Crc;
    forall k | 0 <= k < |Difference(a, b)| && Difference(a, b)[k]
      ensures 8 * first <= k < 8 * first + 32
    {
      MessageBitAt(a, k / 8, k % 8);
      MessageBitAt(b, k / 8, k % 8);
    }
    CrcDetectsBurst(a, b, 8 * first);
  }

  /** calcCrc32: short buffers give back the start value; others their Crc, whatever the start value. */
  method CalcCrc32(buf: seq<bv8>, crc: bv32) returns (r: bv32)
    ensures r == if |buf| < 4 then crc else Crc(buf)
  {
    hide Word, Xor, Remainder, MessageBits, Complemented;
    if |buf| < 4 {
      return crc;
    }
    r := FirstWord(buf[0], buf[1], buf[2], buf[3]);
    FlipIsNot(r);
    r := Complement(r);
    r := CrcLoop(buf, r);
    r := Complement(r);
  }

  method FirstWord(a: bv8, b: bv8, c: bv8, d: bv8) returns (r: bv32)
    ensures r == Word(a, b, c, d)
  {
    r := (a as bv32) << 24;
    r := r | ((b as bv32) << 16);
    r := r | ((c as bv32) << 8);
    r := r | (d as bv32);
  }

  method Complement(w: bv32) returns (r: bv32)
    ensures r == Xor(w, 0xFFFFFFFF)
  {
    FlipIsNot(w);
    r := !w;
  }

  method CrcLoop(buf: seq<bv8>, start: bv32) returns (r: bv32)
    requires |buf| >= 4 && start == Xor(Word(buf[0], buf[1], buf[2], buf[3]), 0xFFFFFFFF)
    ensures r == Remainder(MessageBits(Complemented(buf)))
  {
    hide Flip8, Xor, Word, Rows, Row, MessageBits, Register, ShiftBits, ByteStep;
    r := start;
    ghost var m := Complemented(buf);
    WordOfBuffer(buf);
    var len := |buf| - 4;
    for i := 0 to len
      invariant r == Register(0, m[..4 + i])
    {
      RegisterStep(m, 4 + i);
      r := LoopStep(r, buf[4 + i]);
    }
    assert m[..4 + len] == m;
    RegisterDivides(0, m);
  }

  method LoopStep(crc: bv32, b: bv8) returns (r: bv32)
    ensures r == ByteStep(crc, b)
  {
    IndexBound(crc);
    var entry := Table()[(crc >> 24) as int];
    AppendRaw(crc, b, entry);
    r := ((crc << 8) | (b as bv32)) ^ entry;
    hide Xor, Append;
  }
}
