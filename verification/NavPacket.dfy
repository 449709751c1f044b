/** NavPacket.cpp and NavReplyPacket.cpp: the frame around a parameter block, with length, checksum and an
    exclusive-or stream, and the reader of replies. */
module NavPacket {
  import opened Bits
  import opened Wire
  import opened NParam
  import opened NParamBlock
  import Buf = Buffer
  import Crc32
  import CrcBytes

  // ----- the exclusive-or stream -----

  const XORLEN := 256

  /** Sixteen bytes of the string. */
  function XorRow(g: nat): (row: seq<byte>)
    ensures |row| == 16
  {
    match g
    case 0 => [0x37, 0x77, 0x89, 0x05, 0x28, 0x72, 0x5b, 0x2a, 0xce, 0xe4, 0x44, 0x1a, 0x28, 0x72, 0x5b, 0x2a]
    case 1 => [0xce, 0xe4, 0x44, 0x1a, 0x79, 0x8a, 0xdb, 0x90, 0xce, 0xe4, 0x44, 0x1a, 0x79, 0x8a, 0xdb, 0x90]
    case 2 => [0x2f, 0x5b, 0xcc, 0xd1, 0x79, 0x8a, 0xdb, 0x90, 0x2f, 0x5b, 0xcc, 0xd1, 0x6e, 0x72, 0xb4, 0x9a]
    case 3 => [0x2f, 0x5b, 0xcc, 0xd1, 0x6e, 0x72, 0xb4, 0x9a, 0x79, 0x9b, 0xa5, 0x2b, 0x6e, 0x72, 0xb4, 0x9a]
    case 4 => [0x79, 0x9b, 0xa5, 0x2b, 0x45, 0x6a, 0xc1, 0x7c, 0x79, 0x9b, 0xa5, 0x2b, 0x45, 0x6a, 0xc1, 0x7c]
    case 5 => [0xe0, 0x4a, 0x81, 0x08, 0x45, 0x6a, 0xc1, 0x7c, 0xe0, 0x4a, 0x81, 0x08, 0xbc, 0xdb, 0x31, 0x8a]
    case 6 => [0xe0, 0x4a, 0x81, 0x08, 0xbc, 0xdb, 0x31, 0x8a, 0xbe, 0x75, 0xa3, 0x36, 0xbc, 0xdb, 0x31, 0x8a]
    case 7 => [0xbe, 0x75, 0xa3, 0x36, 0xfe, 0x7d, 0xc6, 0x2c, 0xbe, 0x75, 0xa3, 0x36, 0xfe, 0x7d, 0xc6, 0x2c]
    case 8 => [0xd8, 0x91, 0xfc, 0x45, 0xfe, 0x7d, 0xc6, 0x2c, 0xd8, 0x91, 0xfc, 0x45, 0x03, 0xb0, 0xde, 0x7b]
    case 9 => [0xd8, 0x91, 0xfc, 0x45, 0x03, 0xb0, 0xde, 0x7b, 0x4b, 0x82, 0xa6, 0x90, 0x03, 0xb0, 0xde, 0x7b]
    case 10 => [0x4b, 0x82, 0xa6, 0x90, 0xeb, 0x67, 0x0c, 0xcb, 0x4b, 0x82, 0xa6, 0x90, 0xeb, 0x67, 0x0c, 0xcb]
    case 11 => [0xb0, 0x8c, 0xd2, 0x6c, 0xeb, 0x67, 0x0c, 0xcb, 0xb0, 0x8c, 0xd2, 0x6c, 0x67, 0x03, 0xf5, 0x24]
    case 12 => [0xb0, 0x8c, 0xd2, 0x6c, 0x67, 0x03, 0xf5, 0x24, 0x77, 0x98, 0x5a, 0x74, 0x67, 0x03, 0xf5, 0x24]
    case 13 => [0x77, 0x98, 0x5a, 0x74, 0x14, 0x1f, 0x9f, 0xec, 0x77, 0x98, 0x5a, 0x74, 0x14, 0x1f, 0x9f, 0xec]
    case 14 => [0xb0, 0x9b, 0x30, 0xb2, 0x14, 0x1f, 0x9f, 0xec, 0xb0, 0x9b, 0x30, 0xb2, 0x4b, 0x0e, 0x2d, 0x95]
    case _ => [0xb0, 0x9b, 0x30, 0xb2, 0x4b, 0x0e, 0x2d, 0x95, 0x90, 0xd3, 0x25, 0x7a, 0x4b, 0x0e, 0x2d, 0x95]
  }

  function MagicByte(i: nat): byte {
    XorRow(i / 16)[i % 16]
  }

  lemma {:induction false} XorBelow(x: nat, y: nat, n: nat)
    requires x < Pow2(n) && y < Pow2(n)
    ensures BitXor(x, y) < Pow2(n)
    decreases n
  {
    if x != 0 && y != 0 {
      XorBelow(x / 2, y / 2, n - 1);
    }
  }

  lemma {:induction false} XorTwice(x: nat, y: nat)
    ensures BitXor(BitXor(x, y), y) == x
    decreases x + y
  {
    if x == 0 || y == 0 {
      XorSame(y);
    } else {
      XorTwice(x / 2, y / 2);
      var bit := if x % 2 != y % 2 then 1 else 0;
      var z := bit + 2 * BitXor(x / 2, y / 2);
      assert z / 2 == BitXor(x / 2, y / 2) && z % 2 == bit;
      if z == 0 {
        assert BitXor(0, y / 2) == y / 2;
      }
    }
  }

  lemma {:induction false} XorSame(y: nat)
    ensures BitXor(y, y) == 0
  {
    if y > 0 {
      XorSame(y / 2);
    }
  }

  function XorByte(a: byte, k: byte): byte {
    assert a < Pow2(8) && k < Pow2(8);
    XorBelow(a, k, 8);
    assert Pow2(8) == 256;
    BitXor(a, k)
  }

  /** The stream over some bytes, starting at the beginning of the string. */
  function Crypt(s: seq<byte>): (r: seq<byte>)
    ensures |r| == |s|
  {
    seq(|s|, i requires 0 <= i < |s| => XorByte(s[i], MagicByte(i % XORLEN)))
  }

  /** Applying the stream twice gives the bytes back. */
  lemma CryptTwice(s: seq<byte>)
    ensures Crypt(Crypt(s)) == s
  {
    hide BitXor, MagicByte;
    forall i | 0 <= i < |s|
      ensures Crypt(Crypt(s))[i] == s[i]
    {
      XorTwice(s[i], MagicByte(i % XORLEN));
    }
  }

  /** wf_ngp_encrypt on the bytes from a place on: in place, with a counter that wraps around. */
  method Encrypt(data: array<byte>, from: nat)
    requires from <= data.Length
    modifies data
    ensures data[..] == old(data[..from]) + Crypt(old(data[from..]))
  {
    hide XorByte, MagicByte;
    var magicPos := 0;
    for i := 0 to data.Length - from
      invariant magicPos == i % XORLEN
      invariant forall k :: 0 <= k < data.Length && !(from <= k < from + i) ==> data[k] == old(data[k])
      invariant forall k :: 0 <= k < i ==> data[from + k] == Crypt(old(data[from..]))[k]
    {
      data[from + i] := XorByte(data[from + i], MagicByte(magicPos));
      magicPos := magicPos + 1;
      if magicPos >= XORLEN {
        magicPos := 0;
      }
    }
    assert forall k :: from <= k < data.Length ==> data[k] == Crypt(old(data[from..]))[k - from];
  }

  // ----- the frame -----

  /** The fields that every packet starts with. */
  datatype Head = Head(protoVer: byte, type_: nat, reqID: byte, reqVer: byte)

  ghost predicate HeadOk(h: Head) {
    h.type_ < TWO16
  }

  /** The bytes of a buffer as the checksum sees them. */
  function Octets(s: seq<byte>): (o: seq<bv8>)
    ensures |o| == |s|
  {
    seq(|s|, i requires 0 <= i < |s| => CrcBytes.Octet(s[i]))
  }

  function WordBytes(w: bv32): (s: seq<byte>)
    ensures |s| == 4
  {
    [CrcBytes.LowByte(w >> 24) as int, CrcBytes.LowByte(w >> 16) as int,
     CrcBytes.LowByte(w >> 8) as int, CrcBytes.LowByte(w) as int]
  }

  function Checksum(s: seq<byte>): (crc: seq<byte>)
    ensures |crc| == 4
  {
    WordBytes(Crc32.Crc(Octets(s)))
  }

  /** The fields in the clear, with a length. */
  function Fields(h: Head, length: nat): (s: seq<byte>)
    requires HeadOk(h) && length < TWO32
    ensures |s| == 10
  {
    [0x02] + Be32(length) + [h.protoVer] + Be16(h.type_) + [h.reqID, h.reqVer]
  }

  /** Fill in the length, which is kept modulo 2^32, append the checksum of everything so far, and encrypt from
      offset 10 on. */
  function Seal(v: seq<byte>): (packet: seq<byte>)
    requires |v| >= 10
    ensures |packet| == |v| + 4
  {
    var filled := v[..1] + Be32((|v| + 4) % TWO32) + v[5..];
    var clear := filled + Checksum(filled);
    clear[..10] + Crypt(clear[10..])
  }

  /** A whole packet written into an empty vector: its rest is the specific header part and the parameters. */
  function Packet(h: Head, rest: seq<byte>): (packet: seq<byte>)
    requires HeadOk(h)
    ensures |packet| == 10 + |rest| + 4
  {
    Seal(Fields(h, 0) + rest)
  }

  /** The packet before encryption. */
  function Clear(packet: seq<byte>): (clear: seq<byte>)
    requires |packet| >= 10
    ensures |clear| == |packet|
  {
    packet[..10] + Crypt(packet[10..])
  }

  lemma ClearPacket(h: Head, rest: seq<byte>)
    requires HeadOk(h)
    ensures var total := (10 + |rest| + 4) % TWO32;
            && Clear(Packet(h, rest)) == Fields(h, total) + rest + Checksum(Fields(h, total) + rest)
            && Packet(h, rest)[..10] == Fields(h, total)
  {
    hide Checksum, Crypt, Be32, Be16;
    var total := (10 + |rest| + 4) % TWO32;
    var v := Fields(h, 0) + rest;
    Refill(h, rest, total);
    var filled := Fields(h, total) + rest;
    ChecksumSize(filled);
    var clear := filled + Checksum(filled);
    CryptSize(clear[10..]);
    CryptTwice(clear[10..]);
    var packet := Packet(h, rest);
    assert packet == clear[..10] + Crypt(clear[10..]);
    assert packet[..10] == clear[..10] == Fields(h, total) && packet[10..] == Crypt(clear[10..]);
    assert Clear(packet) == clear[..10] + clear[10..] == clear;
  }

  lemma ChecksumSize(s: seq<byte>)
    ensures |Checksum(s)| == 4
  {
  }

  lemma CryptSize(s: seq<byte>)
    ensures |Crypt(s)| == |s|
  {
  }

  lemma Refill(h: Head, rest: seq<byte>, total: nat)
    requires HeadOk(h) && total < TWO32
    ensures var v := Fields(h, 0) + rest;
            v[..1] + Be32(total) + v[5..] == Fields(h, total) + rest
  {
    var v := Fields(h, 0) + rest;
    assert v[..1] == [0x02];
    assert v[5..] == [h.protoVer] + Be16(h.type_) + [h.reqID, h.reqVer] + rest;
  }

  /** The length field, which is not encrypted, is the size of the packet. */
  lemma LengthField(h: Head, rest: seq<byte>)
    requires HeadOk(h) && 10 + |rest| + 4 < TWO32
    ensures Get32(Packet(h, rest), 1) == |Packet(h, rest)|
  {
    hide Crypt, Checksum, Seal, Clear, Fields, Get32, Be32;
    var packet, total := Packet(h, rest), 10 + |rest| + 4;
    ClearPacket(h, rest);
    FieldsLength(h, total);
    assert packet[1..5] == packet[..10][1..5];
    Get32Be32(total, packet, 1);
  }

  lemma FieldsLength(h: Head, total: nat)
    requires HeadOk(h) && total < TWO32
    ensures Fields(h, total)[1..5] == Be32(total)
  {
    hide Be16, Be32;
    BeFour(total);
  }

  lemma BeFour(v: nat)
    requires v < TWO32
    ensures |Be32(v)| == 4
  {
  }

  /** The last four clear bytes are the checksum of all clear bytes before them. */
  lemma ChecksumField(h: Head, rest: seq<byte>)
    requires HeadOk(h)
    ensures var clear := Clear(Packet(h, rest));
            clear[|clear| - 4..] == Checksum(clear[..|clear| - 4])
  {
    hide Crypt, Checksum, Seal, Clear, Fields;
    ClearPacket(h, rest);
    var front := Fields(h, (10 + |rest| + 4) % TWO32) + rest;
    ChecksumSize(front);
    assert (front + Checksum(front))[..|front|] == front;
  }

  /** No packet is a proper prefix of another one. */
  lemma PrefixFree(h: Head, rest: seq<byte>, g: Head, more: seq<byte>)
    requires HeadOk(h) && HeadOk(g) && 10 + |rest| + 4 < TWO32 && 10 + |more| + 4 < TWO32
    requires Packet(h, rest) <= Packet(g, more)
    ensures Packet(h, rest) == Packet(g, more)
  {
    hide Seal;
    LengthField(h, rest);
    LengthField(g, more);
  }

  /** Damage within four consecutive bytes of the clear text shows in the checksum. */
  lemma DamageShows(a: seq<byte>, b: seq<byte>, first: nat)
    requires |a| == |b| >= 4 && a != b
    requires forall i :: 0 <= i < |a| && !(first <= i < first + 4) ==> a[i] == b[i]
    ensures Checksum(a) != Checksum(b)
  {
    hide Crc32.Crc, WordBytes, Octets;
    OctetsDiffer(a, b, first);
    Crc32.CrcDetectsFourBytes(Octets(a), Octets(b), first);
    if Checksum(a) == Checksum(b) {
      WordBytesInjective(Crc32.Crc(Octets(a)), Crc32.Crc(Octets(b)));
    }
  }

  lemma OctetsDiffer(a: seq<byte>, b: seq<byte>, first: nat)
    requires |a| == |b| && a != b
    requires forall i :: 0 <= i < |a| && !(first <= i < first + 4) ==> a[i] == b[i]
    ensures |Octets(a)| == |Octets(b)| == |a| && Octets(a) != Octets(b)
    ensures forall i :: 0 <= i < |a| && Octets(a)[i] != Octets(b)[i] ==> first <= i < first + 4
  {
    var i :| 0 <= i < |a| && a[i] != b[i];
    CrcBytes.OctetAsInt(a[i]);
    CrcBytes.OctetAsInt(b[i]);
    assert Octets(a)[i] != Octets(b)[i];
  }

  lemma WordBytesInjective(w: bv32, x: bv32)
    requires WordBytes(w) == WordBytes(x)
    ensures w == x
  {
    hide CrcBytes.LowByte;
    ByteAsInt(CrcBytes.LowByte(w >> 24), CrcBytes.LowByte(x >> 24));
    ByteAsInt(CrcBytes.LowByte(w >> 16), CrcBytes.LowByte(x >> 16));
    ByteAsInt(CrcBytes.LowByte(w >> 8), CrcBytes.LowByte(x >> 8));
    ByteAsInt(CrcBytes.LowByte(w), CrcBytes.LowByte(x));
    var s, t := WordBytes(w), WordBytes(x);
    assert s[0] == t[0] && s[1] == t[1] && s[2] == t[2] && s[3] == t[3];
    CrcBytes.WordFromBytes(w, x);
  }

  lemma ByteAsInt(a: bv8, b: bv8)
    ensures a as int == b as int <==> a == b
  {
  }

  /** checkSTXAndSetPacketLength: the bytes still to come after the first five. */
  datatype STXStatus = ShortHeader | BadValue | ValidStart(packLen: nat)

  method CheckSTX(data: array<byte>) returns (r: STXStatus)
    ensures r.ShortHeader? <==> data.Length < 5
    ensures r.BadValue? <==> data.Length >= 5 && data[0] != 0x02
    ensures r.ValidStart? ==> r.packLen == (Get32(data[..], 1) - 5) % TWO32
  {
    if data.Length < 5 {
      return ShortHeader;
    }
    var buff := new Buf.Buffer.Over(data, data.Length);
    var stx := buff.ReadNext8bit();
    if Wrap(stx, 0x100) == 0x02 {
      var length := buff.ReadNextUnaligned32bit();
      WrapUnwrap(Get32(data[..], 1), TWO32);
      return ValidStart((Wrap(length, TWO32) - 5) % TWO32);
    }
    return BadValue;
  }

  // ----- replies -----

  /** What the parsing constructor finds in a reply without its first five bytes: the fields, the status message
      up to its NUL, and the bytes of the parameter block. Undefined stands for reads outside of the data. */
  datatype ReplyView = Undefined | View(head: Head, status: byte, text: seq<byte>, block: seq<byte>)

  function ViewReply(c: seq<byte>): (r: ReplyView)
    ensures r.View? ==> HeadOk(r.head)
  {
    if |c| < 6 || NulAt(c, 6) == |c| || |c| - (NulAt(c, 6) + 1) < 4 then Undefined
    else View(Head(c[0], Get16(c, 1), c[3], c[4]), c[5], c[6..NulAt(c, 6)], c[NulAt(c, 6) + 1..|c| - 4])
  }

  /** The status message buffer is empty, as the constructor leaves it, or holds a string with its NUL, as
      setStatusMessage leaves it. */
  ghost predicate MessageOk(m: seq<byte>) {
    m == [] || (m[|m| - 1] == 0 && 0 !in m[..|m| - 1])
  }

  class NavReplyPacket {
    var protoVer: byte
    var type_: nat
    var reqID: byte
    var reqVer: byte
    var statusCode: byte
    const statusMessage: Buf.Buffer
    var params: NParamBlock

    ghost predicate Valid()
      reads this, params, statusMessage, statusMessage.data
    {
      && type_ < TWO16 && params.Valid()
      && statusMessage.Valid() && statusMessage.resize && MessageOk(statusMessage.Contents())
    }

    /** The status message buffer, with the NUL if it has one. */
    ghost function Message(): seq<byte>
      requires statusMessage.Valid()
      reads statusMessage, statusMessage.data
    {
      statusMessage.Contents()
    }

    function HeadOf(): Head
      reads this
    {
      Head(protoVer, type_, reqID, reqVer)
    }

    constructor (protoVer: byte, type_: nat, reqID: byte, reqVer: byte)
      requires type_ < TWO16
      ensures Valid() && fresh(params) && HeadOf() == Head(protoVer, type_, reqID, reqVer)
      ensures fresh(statusMessage) && fresh(statusMessage.data)
      ensures statusCode == 0 && Message() == [] && params.params == []
    {
      this.protoVer, this.type_, this.reqID, this.reqVer := protoVer, type_, reqID, reqVer;
      statusCode := 0;
      statusMessage := new Buf.Buffer(0);
      params := new NParamBlock();
    }

    method SetStatusMessage(message: seq<byte>)
      requires Valid()
      modifies statusMessage, statusMessage.data
      ensures Valid() && Message() == CString(message) + [0]
      ensures statusMessage.data == old(statusMessage.data) || fresh(statusMessage.data)
    {
      statusMessage.Reserve(|CString(message)| + 1);
      statusMessage.Clear();
      var _ := statusMessage.WriteNextCharString(message);
      assert Message()[..|Message()| - 1] == CString(message);
    }

    method WriteSpecificHeaderPart(buff: seq<byte>) returns (r: seq<byte>)
      requires statusMessage.Valid()
      ensures r == buff + [statusCode] + Message() + [0]
    {
      r := buff + [statusCode];
      r := r + statusMessage.data[..statusMessage.validBytes];
      r := r + [0];
    }

    /** writeToInternal, appending to any vector; length, checksum and encryption are for a vector that starts
        with the packet. */
    method WriteToInternal(buff: seq<byte>, block: NParamBlock, gunzip: bool) returns (r: seq<byte>)
      requires Valid() && block.Valid()
      ensures r == Seal(buff + Fields(HeadOf(), 0) + Rest(statusCode, Message(), Written(block.params, protoVer, gunzip)))
    {
      hide Written, Crypt, Checksum, XorByte, Crc32.Crc;
      r := buff + [0x02] + [0, 0, 0, 0] + [protoVer];
      var high: byte, low: byte := type_ / 0x100, type_ % 0x100;
      r := r + [high];
      r := r + [low];
      r := r + [reqID] + [reqVer];
      assert r == buff + Fields(HeadOf(), 0);
      r := WriteSpecificHeaderPart(r);
      r := block.WriteParams(r, protoVer, gunzip);
      ghost var v := r;
      assert v == buff + Fields(HeadOf(), 0) + Rest(statusCode, Message(), Written(block.params, protoVer, gunzip));
      r := SealVector(r);
    }

    /** writeTo: with the packet's own parameters. */
    method WriteTo(gunzip: bool) returns (r: seq<byte>)
      requires Valid()
      ensures r == Packet(HeadOf(), Rest(statusCode, Message(), Written(params.params, protoVer, gunzip)))
    {
      hide Written, Seal, Fields;
      r := WriteToInternal([], params, gunzip);
      assert [] + Fields(HeadOf(), 0) == Fields(HeadOf(), 0);
    }

    /** writeTo with extra parameters: a copy of the parameters with the extra ones inserted. */
    method WriteToExtra(extra: seq<Param>, gunzip: bool) returns (r: seq<byte>)
      requires Valid() && Ids(extra)
      ensures Sorted(InsertAll(params.params, extra)) && Ids(InsertAll(params.params, extra))
      ensures r == Packet(HeadOf(), Rest(statusCode, Message(),
                                         Written(InsertAll(params.params, extra), protoVer, gunzip)))
    {
      hide Written, Seal, Fields, Insert;
      var block := new NParamBlock();
      block.AssignToThis(params);
      assert extra[..0] == [];
      for i := 0 to |extra|
        modifies block
        invariant block.Valid() && block.params == InsertAll(params.params, extra[..i])
      {
        assert extra[..i + 1][..i] == extra[..i];
        InsertIds(block.params, extra[i]);
        InsertKeepsOrder(block.params, extra[i], 0);
        var _ := block.AddParam(extra[i]);
      }
      assert extra[..|extra|] == extra;
      r := WriteToInternal([], block, gunzip);
      assert [] + Fields(HeadOf(), 0) == Fields(HeadOf(), 0);
    }
  }

  /** The parsing constructor, over the data without its first five bytes and after decryption. Where the source
      would read outside of the data, there is no packet. */
  method ParseReply(data: array<byte>, unzip: Gunzip) returns (packet: NavReplyPacket?)
    ensures packet == null <==> ViewReply(data[..]).Undefined?
    ensures packet != null ==> fresh(packet) && fresh(packet.params) && packet.Valid() && Parsed(packet, data[..], unzip)
  {
    hide NulAt, Get16, Holds;
    var buff := new Buf.Buffer.Over(data, data.Length);
    assert buff.Contents() == data[..];
    var protoVer, type_, reqID, reqVer, status, found, text := ReadFields(buff);
    if !found || buff.validBytes - buff.readPos < 4 {
      return null;
    }
    packet := FilledReply(Head(protoVer, type_, reqID, reqVer), status, text, data[buff.readPos..data.Length - 4], unzip);
  }

  /** What the parsing constructor does with the fields that it has read. */
  method FilledReply(h: Head, status: byte, text: seq<byte>, block: seq<byte>, unzip: Gunzip)
    returns (packet: NavReplyPacket)
    requires HeadOk(h)
    ensures fresh(packet) && fresh(packet.params) && packet.Valid()
    ensures packet.HeadOf() == h && packet.statusCode == status && packet.Message() == CString(text) + [0]
    ensures Holds(packet.params.params, packet.params.valid, block, h.protoVer, unzip)
  {
    hide Holds, CString, MessageOk;
    packet := new NavReplyPacket(h.protoVer, h.type_, h.reqID, h.reqVer);
    packet.statusCode := status;
    packet.SetStatusMessage(text);
    var params := new NParamBlock.Parse(block, h.protoVer, unzip);
    packet.params.AssignToThis(params);
  }

  /** The fields in the order in which they are written. A field that is not all there reads as zero. */
  method ReadFields(buff: Buf.Buffer)
    returns (protoVer: byte, type_: nat, reqID: byte, reqVer: byte, status: byte, found: bool, text: seq<byte>)
    requires buff.Valid() && buff.readPos == 0
    modifies buff`readPos
    ensures buff.Valid() && type_ < TWO16
    ensures var c := buff.Contents();
            && (found <==> |c| >= 6 && NulAt(c, 6) < |c|)
            && (found ==> protoVer == c[0] && type_ == Get16(c, 1) && reqID == c[3] && reqVer == c[4] && status == c[5]
                          && text == c[6..NulAt(c, 6)] && 0 !in text && buff.readPos == NulAt(c, 6) + 1)
  {
    hide NulAt, Get16;
    protoVer := ReadByte(buff);
    var t := buff.ReadNextUnaligned16bit();
    type_ := Wrap(t, TWO16);
    ghost var c := buff.Contents();
    if |c| >= 3 {
      WrapUnwrap(Get16(c, 1), TWO16);
    }
    reqID := ReadByte(buff);
    reqVer := ReadByte(buff);
    status := ReadByte(buff);
    found, text := buff.GetNextCharString();
    NulAtEnd(c);
    if |c| >= 6 {
      TextClean(c, 6);
    }
  }

  lemma NulAtEnd(c: seq<byte>)
    ensures NulAt(c, |c|) == |c|
  {
  }

  lemma TextClean(c: seq<byte>, at: nat)
    requires at <= |c|
    ensures at <= NulAt(c, at) <= |c| && 0 !in c[at..NulAt(c, at)]
  {
  }

  method ReadByte(buff: Buf.Buffer) returns (b: byte)
    requires buff.Valid()
    modifies buff`readPos
    ensures buff.Valid()
    ensures if old(buff.readPos) < buff.validBytes
            then b == buff.Contents()[old(buff.readPos)] && buff.readPos == old(buff.readPos) + 1
            else b == 0 && buff.readPos == old(buff.readPos)
  {
    var v := buff.ReadNext8bit();
    b := Wrap(v, 0x100);
  }

  /** The packet has the fields and the parameters that the data shows. */
  ghost predicate Parsed(packet: NavReplyPacket, c: seq<byte>, unzip: Gunzip)
    reads packet, packet.params, packet.statusMessage, packet.statusMessage.data
  {
    var view := ViewReply(c);
    && view.View?
    && packet.HeadOf() == view.head && packet.statusCode == view.status && packet.statusMessage.Valid()
    && packet.Message() == view.text + [0]
    && Holds(packet.params.params, packet.params.valid, view.block, view.head.protoVer, unzip)
  }

  /** The packet type as the dispatch reads it: a signed number, zero where the data is too short. */
  function ReplyType(c: seq<byte>): int {
    if |c| < 3 then 0 else Unwrap(Get16(c, 1), TWO16)
  }

  /** createReplyPacketFromBuffer: decrypt in place, and parse when the packet type is one of the known ones. The
      result is not defined where parsing would read outside of the data. */
  method CreateReply(data: array<byte>, known: set<int>, unzip: Gunzip) returns (defined: bool, packet: NavReplyPacket?)
    requires data.Length >= 5
    modifies data
    ensures defined && packet == null <==> ReplyType(Decrypted(old(data[..]))) !in known
    ensures !defined <==> ReplyType(Decrypted(old(data[..]))) in known && ViewReply(Decrypted(old(data[..]))).Undefined?
    ensures packet != null ==>
              defined && fresh(packet) && packet.Valid() && Parsed(packet, Decrypted(old(data[..])), unzip)
  {
    hide Crypt, ViewReply, Holds, Get16;
    assert data[..][..5] == data[..5] && data[..][5..] == data[5..];
    Encrypt(data, 5);
    var type_ := ReadType(data);
    if type_ !in known {
      return true, null;
    }
    packet := ParseReply(data, unzip);
    defined := packet != null;
  }

  method ReadType(data: array<byte>) returns (type_: int)
    ensures type_ == ReplyType(data[..])
  {
    hide Get16;
    var buff := new Buf.Buffer.Over(data, data.Length);
    assert buff.Contents() == data[..];
    var _ := buff.ReadNext8bit();
    type_ := buff.ReadNextUnaligned16bit();
  }

  /** A reply without its first five bytes, decrypted. */
  function Decrypted(data: seq<byte>): (c: seq<byte>)
    requires |data| >= 5
    ensures |c| == |data|
  {
    data[..5] + Crypt(data[5..])
  }

  // ----- the round trip -----

  /** A written reply, as its reader sees it. */
  lemma ReplySeen(h: Head, status: byte, message: seq<byte>, block: seq<byte>)
    requires HeadOk(h)
    ensures var packet := Packet(h, Rest(status, message, block));
            var c := Decrypted(packet[5..]);
            && c == Fields(h, 0)[5..] + Rest(status, message, block) + Checksum(Clear(packet)[..|packet| - 4])
  {
    hide Crypt, Checksum, Seal;
    var rest := Rest(status, message, block);
    var packet, total := Packet(h, rest), (10 + |rest| + 4) % TWO32;
    ClearPacket(h, rest);
    var clear, front := Clear(packet), Fields(h, total) + rest;
    ChecksumSize(front);
    assert clear[..|packet| - 4] == front;
    assert packet[5..][5..] == packet[10..] && packet[5..][..5] == packet[..10][5..];
    assert Decrypted(packet[5..]) == packet[..10][5..] + Crypt(packet[10..]);
    assert clear[5..] == packet[..10][5..] + Crypt(packet[10..]);
    assert Fields(h, total)[5..] == Fields(h, 0)[5..];
    assert clear[5..] == Fields(h, total)[5..] + rest + Checksum(front);
  }

  /** The reader finds the fields, the text up to the first NUL of the message, and what follows that NUL. */
  lemma ReplyViewed(h: Head, status: byte, text: seq<byte>, more: seq<byte>, crc: seq<byte>)
    requires HeadOk(h) && 0 !in text && |crc| == 4
    ensures ViewReply(Fields(h, 0)[5..] + [status] + text + [0] + more + crc) == View(h, status, text, more)
  {
    hide Be32;
    var c := Fields(h, 0)[5..] + [status] + text + [0] + more + crc;
    FieldsTail(h);
    assert c[0] == h.protoVer && c[3] == h.reqID && c[4] == h.reqVer && c[5] == status;
    assert c[1..3] == Be16(h.type_);
    Get16Be16(h.type_, c, 1);
    assert c[6..6 + |text|] == text && c[6 + |text|] == 0;
    NulAfter(c, 6, text);
    assert c[6 + |text| + 1..|c| - 4] == more;
  }

  lemma FieldsTail(h: Head)
    requires HeadOk(h)
    ensures Fields(h, 0)[5..] == [h.protoVer] + Be16(h.type_) + [h.reqID, h.reqVer]
  {
  }

  /** A block whose gzip flag is off is read as it stands. */
  lemma NotPacked(block: seq<byte>, protoVer: nat, ps: seq<Param>, unzip: Gunzip)
    requires FlagWord(block, protoVer) % 2 == 0
    ensures var start := FlagsEnd(block, protoVer);
            Holds(ps, true, block, protoVer, unzip) <==> InsertAll([], Scan(block, start).0) == ps && AreRecords(block[start..])
  {
    hide Scan, InsertAll, AreRecords;
  }

  /** A reply whose status message buffer holds no NUL, written into an empty vector, stripped of five bytes,
      decrypted and parsed, gives back its fields and its message, and its parameters in order with a valid block
      if and only if none of them is longer than 65535 bytes. */
  lemma ReplyRoundTrip(h: Head, status: byte, message: seq<byte>, ps: seq<Param>, gunzip: bool, unzip: Gunzip)
    requires HeadOk(h) && 0 !in message && Sorted(ps) && Ids(ps)
    ensures var block := Written(ps, h.protoVer, gunzip);
            var packet := Packet(h, Rest(status, message, block));
            && ViewReply(Decrypted(packet[5..])) == View(h, status, message, block)
            && (Holds(ps, true, block, h.protoVer, unzip) <==> Short(ps))
  {
    hide Seal, Crypt, Checksum, Scan, InsertAll, FlagsEnd, FlagWord, Holds, AreRecords, Written, ViewReply, Fields,
         Clear, Decrypted;
    var block := Written(ps, h.protoVer, gunzip);
    var packet := Packet(h, Rest(status, message, block));
    BlockRoundTrip(ps, h.protoVer, gunzip);
    WrittenFlags(ps, h.protoVer, gunzip);
    NotPacked(block, h.protoVer, ps, unzip);
    ReplySeen(h, status, message, block);
    var crc := Checksum(Clear(packet)[..|packet| - 4]);
    ChecksumSize(Clear(packet)[..|packet| - 4]);
    ReplyViewed(h, status, message, block, crc);
    assert Fields(h, 0)[5..] + Rest(status, message, block) + crc
        == Fields(h, 0)[5..] + [status] + message + [0] + block + crc;
  }

  /** A reply whose status message was set has two NULs after the message. The reader takes the second one for the
      first byte of the parameter block. */
  lemma SetMessageSeen(h: Head, status: byte, text: seq<byte>, block: seq<byte>)
    requires HeadOk(h) && 0 !in text
    ensures var packet := Packet(h, Rest(status, text + [0], block));
            ViewReply(Decrypted(packet[5..])) == View(h, status, text, [0] + block)
  {
    hide Seal, Crypt, Checksum, ViewReply, Fields, Clear, Decrypted;
    var packet := Packet(h, Rest(status, text + [0], block));
    ReplySeen(h, status, text + [0], block);
    var crc := Checksum(Clear(packet)[..|packet| - 4]);
    ChecksumSize(Clear(packet)[..|packet| - 4]);
    ReplyViewed(h, status, text, [0] + block, crc);
    assert Fields(h, 0)[5..] + Rest(status, text + [0], block) + crc
        == Fields(h, 0)[5..] + [status] + text + [0] + ([0] + block) + crc;
  }

  lemma {:induction false} InsertedSize(ps: seq<Param>, p: Param)
    requires Ids(ps) && p.id < TWO16
    ensures Ids(Insert(ps, p)) && |Records(Insert(ps, p))| == |Records(ps)| + |Record(p)|
    decreases |ps|
  {
    var k := UpperBound(ps, p.id);
    assert ps == ps[..k] + ps[k..];
    SizeConcat(ps[..k], ps[k..]);
    SizeConcat(ps[..k], [p]);
    SizeConcat(ps[..k] + [p], ps[k..]);
    assert [p][..0] == [] && Records([p]) == Records([]) + Record(p);
  }

  lemma {:induction false} SizeConcat(a: seq<Param>, b: seq<Param>)
    requires Ids(a) && Ids(b)
    ensures Ids(a + b) && |Records(a + b)| == |Records(a)| + |Records(b)|
    decreases |b|
  {
    if |b| == 0 {
      assert a + b == a;
    } else {
      SizeConcat(a, b[..|b| - 1]);
      assert (a + b)[..|a + b| - 1] == a + b[..|b| - 1] && (a + b)[|a + b| - 1] == b[|b| - 1];
    }
  }

  lemma {:induction false} InsertAllSize(ps: seq<Param>)
    requires Ids(ps)
    ensures Ids(InsertAll([], ps)) && |Records(InsertAll([], ps))| == |Records(ps)|
    decreases |ps|
  {
    hide Insert, Record;
    if |ps| > 0 {
      InsertAllSize(ps[..|ps| - 1]);
      InsertedSize(InsertAll([], ps[..|ps| - 1]), ps[|ps| - 1]);
    }
  }

  /** Bytes of another length than the records of ps are not read as ps and found valid. */
  lemma OtherSize(block: seq<byte>, protoVer: nat, ps: seq<Param>, unzip: Gunzip)
    requires Ids(ps) && |block| - FlagsEnd(block, protoVer) != |Records(ps)| && FlagWord(block, protoVer) % 2 == 0
    ensures !Holds(ps, true, block, protoVer, unzip)
  {
    hide Scan, InsertAll, Records, FlagsEnd, FlagWord, Holds;
    FlagsEndBound(block, protoVer);
    NotPacked(block, protoVer, ps, unzip);
    var start := FlagsEnd(block, protoVer);
    ScanFinds(block, start);
    ScanExact(block, start);
    var found := Scan(block, start).0;
    InsertAllSize(found);
    if AreRecords(block[start..]) {
      assert block[start..|block|] == block[start..];
    }
  }

  lemma ShiftedFlags(ps: seq<Param>, protoVer: nat, gunzip: bool)
    requires Ids(ps)
    ensures var block := [0] + Written(ps, protoVer, gunzip);
            FlagWord(block, protoVer) == 0 && |block| - FlagsEnd(block, protoVer) == |Records(ps)| + 1
  {
    var block := [0] + Written(ps, protoVer, gunzip);
    if protoVer >= 0xc {
      var word := Be32(if gunzip then 2 else 0);
      assert word == [0, 0, 0, if gunzip then 2 else 0];
      assert block[0..4] == [0, 0, 0, 0];
      assert Get32(block, 0) == 0;
    }
  }

  /** For every reply that the class can build, the round trip gives its parameters back in order, with a valid
      block, if and only if its status message has never been set and no parameter is longer than 65535 bytes. */
  lemma ReplyRoundTripExact(h: Head, status: byte, message: seq<byte>, ps: seq<Param>, gunzip: bool, unzip: Gunzip)
    requires HeadOk(h) && MessageOk(message) && Sorted(ps) && Ids(ps)
    ensures var packet := Packet(h, Rest(status, message, Written(ps, h.protoVer, gunzip)));
            var c := Decrypted(packet[5..]);
            var view := ViewReply(c);
            && ReplyType(c) == Unwrap(h.type_, TWO16)
            && view.View? && view.head == h && view.status == status && view.text == CString(message)
            && (Holds(ps, true, view.block, h.protoVer, unzip) <==> message == [] && Short(ps))
  {
    hide Seal, Crypt, Checksum, FlagsEnd, FlagWord, Holds, Written, ViewReply, Fields, Clear, Decrypted, Rest, Records;
    var block := Written(ps, h.protoVer, gunzip);
    if message == [] {
      ReplyRoundTrip(h, status, message, ps, gunzip, unzip);
      assert CString(message) == message;
    } else {
      var text := message[..|message| - 1];
      assert message == text + [0];
      SetMessageSeen(h, status, text, block);
      CStringOf(text);
      ShiftedFlags(ps, h.protoVer, gunzip);
      OtherSize([0] + block, h.protoVer, ps, unzip);
    }
    TypeOfView(Decrypted(Packet(h, Rest(status, message, block))[5..]));
  }

  lemma TypeOfView(c: seq<byte>)
    requires ViewReply(c).View?
    ensures ReplyType(c) == Unwrap(ViewReply(c).head.type_, TWO16)
  {
  }

  lemma CStringOf(text: seq<byte>)
    requires 0 !in text
    ensures CString(text + [0]) == text
  {
    assert (text + [0])[0..|text|] == text;
    NulAfter(text + [0], 0, text);
  }

  /** The part of a reply after the common fields, without the checksum. */
  function Rest(status: byte, message: seq<byte>, block: seq<byte>): seq<byte> {
    [status] + message + [0] + block
  }

  /** Patching the length, the checksum, and the encryption from offset 10 on. */
  method SealVector(v: seq<byte>) returns (r: seq<byte>)
    requires |v| >= 10
    ensures r == Seal(v)
  {
    hide Crypt, XorByte, Crc32.Crc;
    var length := (|v| + 4) % TWO32;
    var bytes := Be32(length);
    r := v[1 := bytes[0]][2 := bytes[1]][3 := bytes[2]][4 := bytes[3]];
    assert r == v[..1] + Be32(length) + v[5..];
    var crc := Crc32.CalcCrc32(Octets(r), 0);
    r := r + WordBytes(crc);
    var data := new byte[|r|](i requires 0 <= i < |r| => r[i]);
    assert data[..] == r;
    Encrypt(data, 10);
    r := data[..];
  }
}
