/** Buffer.cpp: bytes in a growing array with a read and a write cursor; unaligned accesses only. */
module Buffer {
  import opened Bits
  import opened Wire

  // ----- the buffer as a byte sequence -----

  /** c with s written at a place, longer if s goes past the end. */
  function Overwrite(c: seq<byte>, at: nat, s: seq<byte>): (d: seq<byte>)
    requires at <= |c|
    ensures at + |s| <= |d| && |c| <= |d| && d[at..at + |s|] == s
  {
    c[..at] + s + (if at + |s| <= |c| then c[at + |s|..] else [])
  }

  lemma OverwriteTwice(c: seq<byte>, at: nat, s: seq<byte>, t: seq<byte>)
    requires at <= |c|
    ensures Overwrite(Overwrite(c, at, s), at + |s|, t) == Overwrite(c, at, s + t)
  {
  }

  /** The bytes after a write that covers the end do not depend on what it covers. */
  lemma OverwriteCovers(c: seq<byte>, d: seq<byte>, at: nat, s: seq<byte>)
    requires at <= |c| == |d| <= at + |s| && c[..at] == d[..at]
    ensures Overwrite(c, at, s) == Overwrite(d, at, s)
  {
  }

  const TWO64 := 0x1_0000_0000_0000_0000

  function Be64(u: nat): (s: seq<byte>)
    requires u < TWO64
    ensures |s| == 8
  {
    Be32(u / TWO32) + Be32(u % TWO32)
  }

  // ----- typed items -----

  datatype Kind = Int8 | Int16 | Int32 | Int64 | Text

  datatype Item = Number(kind: Kind, v: int) | CText(s: seq<byte>)

  function Size(k: Kind): (size: nat)
    ensures size % 2 == 0
  {
    match k
    case Int8 => 0x100
    case Int16 => TWO16
    case Int32 => TWO32
    case _ => TWO64
  }

  predicate InKind(i: Item, k: Kind) {
    match i
    case Number(kind, v) => kind == k && !k.Text? && -(Size(k) as int) <= 2 * v < Size(k)
    case CText(s) => k.Text? && 0 !in s
  }

  /** The bytes of an item. */
  function Encode(i: Item, k: Kind): seq<byte>
    requires InKind(i, k)
  {
    match k
    case Int8 => [Wrap(i.v, 0x100)]
    case Int16 => Be16(Wrap(i.v, TWO16))
    case Int32 => Be32(Wrap(i.v, TWO32))
    case Int64 => Be64(Wrap(i.v, TWO64))
    case Text => i.s + [0]
  }

  /** What a read of one item gives, and where the read cursor is then; a number that is not all there reads as
      zero without moving the cursor, and so does a string without its NUL, which is reported. */
  datatype Read = Got(item: Item, next: nat) | Missing

  function Decode(k: Kind, c: seq<byte>, at: nat): Read
    requires at <= |c|
  {
    match k
    case Int8 => if |c| - at < 1 then Missing else Got(Number(k, Unwrap(c[at], 0x100)), at + 1)
    case Int16 => if |c| - at < 2 then Missing else Got(Number(k, Unwrap(Get16(c, at), TWO16)), at + 2)
    case Int32 => if |c| - at < 4 then Missing else Got(Number(k, Unwrap(Get32(c, at), TWO32)), at + 4)
    case Int64 => if |c| - at < 8 then Missing else Got(Number(k, Unwrap(Get64(c, at), TWO64)), at + 8)
    case Text =>
      var end := NulAt(c, at);
      if end == |c| then Missing else Got(CText(c[at..end]), end + 1)
  }

  function Get64(c: seq<byte>, at: nat): (u: nat)
    requires at + 8 <= |c|
    ensures u < TWO64
  {
    Get32(c, at) * TWO32 + Get32(c, at + 4)
  }

  /** An item is read back from where it was written. */
  lemma DecodeEncode(i: Item, k: Kind, c: seq<byte>, at: nat)
    requires InKind(i, k) && at + |Encode(i, k)| <= |c| && c[at..at + |Encode(i, k)|] == Encode(i, k)
    ensures Decode(k, c, at) == Got(i, at + |Encode(i, k)|)
  {
    hide Be16, Be32, Get16, Get32, NulAt, Wrap, Unwrap;
    match k
    case Int8 => UnwrapWrap(i.v, 0x100); assert c[at..at + 1] == [c[at]];
    case Int16 => UnwrapWrap(i.v, TWO16); BeSizes(i.v, k); Get16Be16(Wrap(i.v, TWO16), c, at);
    case Int32 => UnwrapWrap(i.v, TWO32); BeSizes(i.v, k); Get32Be32(Wrap(i.v, TWO32), c, at);
    case Int64 => UnwrapWrap(i.v, TWO64); Get64Be64(Wrap(i.v, TWO64), c, at);
    case Text =>
      assert c[at..at + |i.s|] == (i.s + [0])[..|i.s|] && c[at + |i.s|] == (i.s + [0])[|i.s|];
      NulAfter(c, at, i.s);
  }

  /** A 64-bit number is written as two 32-bit ones. */
  lemma Halves(v: int)
    requires InKind(Number(Int64, v), Int64)
    ensures var u := Wrap(v, TWO64);
            var high, low := Number(Int32, Unwrap(u / TWO32, TWO32)), Number(Int32, Unwrap(u % TWO32, TWO32));
            && InKind(high, Int32) && InKind(low, Int32)
            && Encode(high, Int32) == Be32(u / TWO32) && Encode(low, Int32) == Be32(u % TWO32)
            && |Be32(u / TWO32)| == |Be32(u % TWO32)| == 4
            && Encode(Number(Int64, v), Int64) == Be64(u) == Be32(u / TWO32) + Be32(u % TWO32)
  {
    var u := Wrap(v, TWO64);
    WrapUnwrap(u / TWO32, TWO32);
    WrapUnwrap(u % TWO32, TWO32);
  }

  lemma BeSizes(v: int, k: Kind)
    requires (k.Int16? || k.Int32?) && InKind(Number(k, v), k)
    ensures |Encode(Number(k, v), k)| == if k.Int16? then 2 else 4
  {
  }

  lemma Get64Be64(u: nat, c: seq<byte>, at: nat)
    requires u < TWO64 && at + |Be64(u)| <= |c| && c[at..at + |Be64(u)|] == Be64(u)
    ensures |Be64(u)| == 8 && Get64(c, at) == u
  {
    hide Get32;
    var high, low := u / TWO32, u % TWO32;
    assert c[at..at + 4] == c[at..at + 8][..4] == Be32(high);
    assert c[at + 4..at + 8] == c[at..at + 8][4..] == Be32(low);
    hide Be32;
    Get32Be32(high, c, at);
    Get32Be32(low, c, at + 4);
  }

  /** Several items in a row, each of its kind. */
  ghost predicate AllInKind(items: seq<Item>, kinds: seq<Kind>) {
    |items| == |kinds| && forall i :: 0 <= i < |items| ==> InKind(items[i], kinds[i])
  }

  /** The contents after writing the items one after the other, and where the write cursor is then. */
  function WriteAll(c: seq<byte>, at: nat, items: seq<Item>, kinds: seq<Kind>): (r: (seq<byte>, nat))
    requires at <= |c| && AllInKind(items, kinds)
    ensures at <= r.1 <= |r.0| && |c| <= |r.0| && r.0[..at] == c[..at]
    decreases |items|
  {
    if items == [] then (c, at)
    else
      var s := Encode(items[0], kinds[0]);
      var d := Overwrite(c, at, s);
      var r := WriteAll(d, at + |s|, items[1..], kinds[1..]);
      assert r.0[..at] == r.0[..at + |s|][..at] == d[..at];
      r
  }

  /** Reading the same kinds from where writing started gives the items back, and ends where writing ended. */
  lemma {:induction false} ReadBack(c: seq<byte>, at: nat, items: seq<Item>, kinds: seq<Kind>, i: nat)
    requires at <= |c| && AllInKind(items, kinds) && i < |items|
    ensures var (d, end) := WriteAll(c, at, items, kinds);
            && var start := WriteAll(c, at, items[..i], kinds[..i]).1;
               && start <= |d|
               && Decode(kinds[i], d, start) == Got(items[i], WriteAll(c, at, items[..i + 1], kinds[..i + 1]).1)
    decreases |items|
  {
    hide Decode, Encode, InKind, WriteAll, Overwrite;
    var s := Encode(items[0], kinds[0]);
    var d := Overwrite(c, at, s);
    FirstKept(c, at, items, kinds);
    if i == 0 {
      DecodeEncode(items[0], kinds[0], WriteAll(c, at, items, kinds).0, at);
      WriteNone(c, at, items[..0], kinds[..0]);
      FirstKept(c, at, items[..1], kinds[..1]);
      WriteNone(d, at + |s|, items[..1][1..], kinds[..1][1..]);
    } else {
      FirstKept(c, at, items[..i], kinds[..i]);
      FirstKept(c, at, items[..i + 1], kinds[..i + 1]);
      assert items[..i][1..] == items[1..][..i - 1] && kinds[..i][1..] == kinds[1..][..i - 1];
      assert items[..i + 1][1..] == items[1..][..i] && kinds[..i + 1][1..] == kinds[1..][..i];
      ReadBack(d, at + |s|, items[1..], kinds[1..], i - 1);
    }
  }

  lemma WriteNone(c: seq<byte>, at: nat, items: seq<Item>, kinds: seq<Kind>)
    requires at <= |c| && items == [] && kinds == []
    ensures WriteAll(c, at, items, kinds) == (c, at)
  {
  }

  /** The first item is written at the start, and stays there. */
  lemma FirstKept(c: seq<byte>, at: nat, items: seq<Item>, kinds: seq<Kind>)
    requires at <= |c| && AllInKind(items, kinds) && items != []
    ensures var s := Encode(items[0], kinds[0]);
            var d := Overwrite(c, at, s);
            && at + |s| <= |d| && AllInKind(items[1..], kinds[1..])
            && WriteAll(c, at, items, kinds) == WriteAll(d, at + |s|, items[1..], kinds[1..])
            && at + |s| <= |WriteAll(c, at, items, kinds).0| && WriteAll(c, at, items, kinds).0[at..at + |s|] == s
  {
    hide Encode, InKind;
    var s := Encode(items[0], kinds[0]);
    var d := Overwrite(c, at, s);
    var written := WriteAll(d, at + |s|, items[1..], kinds[1..]).0;
    assert written[at..at + |s|] == written[..at + |s|][at..] == d[..at + |s|][at..] == s;
  }

  // ----- the class -----

  function Align32(a: nat): nat {
    (a + 3) / 4 * 4
  }

  function Clamp(pos: int, limit: nat): nat {
    if pos < 0 then 0 else if pos > limit then limit else pos
  }

  class Buffer {
    var data: array<byte>      // its length is m_dataLength
    var readPos: nat
    var writePos: nat
    var validBytes: nat
    var resize: bool

    ghost predicate Valid()
      reads this
    {
      readPos <= validBytes && writePos <= validBytes <= data.Length
    }

    ghost function Contents(): (c: seq<byte>)
      requires Valid()
      reads this, data
      ensures |c| == validBytes
    {
      data[..validBytes]
    }

    constructor (length: nat)
      ensures Valid() && fresh(data) && Contents() == [] && readPos == writePos == 0 && resize
    {
      data := new byte[Align32(length)](_ => 0);
      readPos, writePos, validBytes, resize := 0, 0, 0, true;
    }

    /** A buffer over memory of the caller, which it does not replace. */
    constructor Over(memory: array<byte>, valid: nat)
      requires valid <= memory.Length
      ensures Valid() && data == memory && Contents() == memory[..valid] && readPos == 0 && writePos == valid && !resize
    {
      data, readPos, writePos, validBytes, resize := memory, 0, valid, valid, false;
    }

    /** A larger array, at least a quarter larger; only the bytes before the write cursor are copied. */
    method EnlargeData(amount: nat) returns (ok: bool)
      requires Valid()
      modifies this`data
      ensures Valid() && ok == resize
      ensures !ok ==> data == old(data)
      ensures ok ==> fresh(data)
      ensures ok ==> var l := old(data.Length); data.Length == l + if amount > l / 4 then amount else l / 4
      ensures ok ==> data[..writePos] == old(data[..writePos])
    {
      var more := if amount > data.Length / 4 then amount else data.Length / 4;
      if resize {
        var tmp := new byte[data.Length + more](_ => 0);
        forall i | 0 <= i < writePos {
          tmp[i] := data[i];
        }
        data := tmp;
      }
      ok := resize;
    }

    /** Grow to about the given size; as with all growth, only the bytes before the write cursor are kept. */
    method Reserve(size: nat)
      requires Valid()
      modifies this`data
      ensures Valid() && (data == old(data) || fresh(data)) && data[..writePos] == old(data[..writePos])
      ensures resize ==> data.Length >= size
    {
      var more := (size - data.Length + 3) / 4 * 4;
      if more >= 0 {
        var _ := EnlargeData(more);
      }
    }

    method Clear()
      requires Valid()
      modifies this`readPos, this`writePos, this`validBytes
      ensures Valid() && Contents() == [] && readPos == writePos == 0
    {
      writePos := 0;
      readPos := 0;
      validBytes := 0;
    }

    /** Room for n bytes at the write cursor. Bytes may be lost, but only bytes that a write of n bytes covers. */
    method Room(n: nat, amount: nat) returns (ok: bool)
      requires Valid() && n <= amount
      modifies this`data
      ensures Valid() && ok == (resize || old(data.Length) - writePos >= n)
      ensures !ok || old(data.Length) - writePos >= n ==> data == old(data)
      ensures ok ==> data.Length - writePos >= n && (data == old(data) || fresh(data))
      ensures ok ==> SameForWrite(old(Contents()), Contents(), writePos, n)
    {
      ok := data.Length - writePos >= n;
      if !ok {
        ok := EnlargeData(amount);
        if ok {
          assert Contents()[..writePos] == data[..writePos];
          assert old(Contents())[..writePos] == old(data[..writePos]);
        }
      }
    }

    /** m_data[m_writePos++] for each byte, then the new end. */
    method Store(s: seq<byte>)
      requires Valid() && data.Length - writePos >= |s|
      modifies this`writePos, this`validBytes, data
      ensures Valid() && writePos == old(writePos) + |s| && Contents() == Overwrite(old(Contents()), old(writePos), s)
    {
      hide Overwrite;
      ghost var before, at, valid := data[..], writePos, validBytes;
      for i := 0 to |s|
        invariant writePos == at + i && validBytes == valid
        invariant StoredUpTo(before, data[..], at, s, i)
      {
        data[writePos] := s[i];
        writePos := writePos + 1;
      }
      if writePos > validBytes {
        validBytes := writePos;
      }
      StoredAll(before, data[..], at, s, valid, validBytes);
    }

    /** What all writes promise: they fail only in a full buffer that must not grow, and then change nothing. */
    twostate predicate Wrote(s: seq<byte>, ok: bool)
      requires old(Valid())
      reads this, data
    {
      && Valid() && readPos == old(readPos) && resize == old(resize) && (data == old(data) || fresh(data))
      && (old(data.Length) - old(writePos) >= |s| ==> data == old(data))
      && ok == (resize || old(data.Length) - old(writePos) >= |s|)
      && (ok ==> Contents() == Overwrite(old(Contents()), old(writePos), s) && writePos == old(writePos) + |s|)
      && (!ok ==> Contents() == old(Contents()) && writePos == old(writePos))
    }

    method WriteNextByteArray(s: seq<byte>) returns (ok: bool)
      requires Valid()
      modifies this, data
      ensures Wrote(s, ok)
    {
      ok := Room(|s|, Align32(|s|) + 4);
      if ok {
        ghost var c := Contents();
        Store(s);
        SameAfterRoom(old(Contents()), c, old(writePos), s);
      }
    }

    method WriteNext8bit(v: int) returns (ok: bool)
      requires Valid() && InKind(Number(Int8, v), Int8)
      modifies this, data
      ensures Wrote(Encode(Number(Int8, v), Int8), ok)
    {
      ok := Room(1, 4);
      if ok {
        ghost var c := Contents();
        Store([Wrap(v, 0x100)]);
        SameAfterRoom(old(Contents()), c, old(writePos), [Wrap(v, 0x100)]);
      }
    }

    method WriteNextUnaligned16bit(v: int) returns (ok: bool)
      requires Valid() && InKind(Number(Int16, v), Int16)
      modifies this, data
      ensures Wrote(Encode(Number(Int16, v), Int16), ok)
    {
      ok := Room(2, 4);
      if ok {
        ghost var c := Contents();
        var u := Wrap(v, TWO16);
        Store([u / 0x100, u % 0x100]);
        SameAfterRoom(old(Contents()), c, old(writePos), Be16(u));
      }
    }

    method WriteNextUnaligned32bit(v: int) returns (ok: bool)
      requires Valid() && InKind(Number(Int32, v), Int32)
      modifies this, data
      ensures Wrote(Encode(Number(Int32, v), Int32), ok)
    {
      ok := Room(4, 8);
      if ok {
        ghost var c := Contents();
        var u := Wrap(v, TWO32);
        Store([u / 0x100_0000, u / 0x1_0000 % 0x100, u / 0x100 % 0x100, u % 0x100]);
        SameAfterRoom(old(Contents()), c, old(writePos), Be32(u));
      }
    }

    /** The high half, then the low half. */
    method WriteNextUnaligned64bit(v: int) returns (ok: bool)
      requires Valid() && InKind(Number(Int64, v), Int64)
      modifies this, data
      ensures Wrote(Encode(Number(Int64, v), Int64), ok)
    {
      hide Be32, Encode;
      Halves(v);
      ok := Room(8, 16);
      if ok {
        ghost var c := Contents();
        var u := Wrap(v, TWO64);
        var high, low := Unwrap(u / TWO32, TWO32), Unwrap(u % TWO32, TWO32);
        var _ := WriteNextUnaligned32bit(high);
        var _ := WriteNextUnaligned32bit(low);
        OverwriteTwice(c, old(writePos), Be32(u / TWO32), Be32(u % TWO32));
        SameAfterRoom(old(Contents()), c, old(writePos), Be64(u));
      }
    }

    /** The string and its NUL. */
    method WriteNextCharString(str: seq<byte>) returns (len: nat)
      requires Valid()
      modifies this, data
      ensures Wrote(CString(str) + [0], len != 0) && (len != 0 ==> len == |CString(str)| + 1)
    {
      var ok := WriteNextByteArray(CString(str) + [0]);
      len := if ok then |CString(str)| + 1 else 0;
    }

    method SetReadPos(newPos: nat) returns (before: nat)
      requires Valid()
      modifies this`readPos
      ensures Valid() && before == old(readPos) && readPos == Clamp(newPos, validBytes)
    {
      before := readPos;
      readPos := if newPos > validBytes then validBytes else newPos;
    }

    method SetWritePos(newPos: nat) returns (before: nat)
      requires Valid()
      modifies this`writePos
      ensures Valid() && before == old(writePos) && writePos == Clamp(newPos, validBytes)
    {
      before := writePos;
      writePos := if newPos > validBytes then validBytes else newPos;
    }

    method JumpReadPos(offset: int) returns (before: nat)
      requires Valid()
      modifies this`readPos
      ensures Valid() && before == old(readPos) && readPos == Clamp(old(readPos) + offset, validBytes)
    {
      before := readPos;
      if offset < 0 {
        readPos := if -offset > readPos then 0 else readPos + offset;
      } else if offset > 0 {
        readPos := if offset + readPos >= validBytes then validBytes else offset + readPos;
      }
    }

    method JumpWritePos(offset: int) returns (before: nat)
      requires Valid()
      modifies this`writePos
      ensures Valid() && before == old(writePos) && writePos == Clamp(old(writePos) + offset, validBytes)
    {
      before := writePos;
      if offset < 0 {
        writePos := if -offset > writePos then 0 else writePos + offset;
      } else if offset > 0 {
        writePos := if offset + writePos >= validBytes then validBytes else offset + writePos;
      }
    }

    /** What all reads of a number promise. */
    twostate predicate ReadsAs(k: Kind, v: int)
      requires old(Valid()) && data == old(data)
      reads this, data
    {
      && Valid() && validBytes == old(validBytes)
      && match Decode(k, Contents(), old(readPos))
         case Got(item, next) => item == Number(k, v) && readPos == next
         case Missing => v == 0 && readPos == old(readPos)
    }

    method ReadNext8bit() returns (v: int)
      requires Valid()
      modifies this`readPos
      ensures ReadsAs(Int8, v)
    {
      if validBytes - readPos < 1 {
        return 0;
      }
      v := Unwrap(data[readPos], 0x100);
      readPos := readPos + 1;
    }

    method ReadNextUnaligned16bit() returns (v: int)
      requires Valid()
      modifies this`readPos
      ensures ReadsAs(Int16, v)
    {
      if validBytes - readPos < 2 {
        return 0;
      }
      v := Unwrap(data[readPos] as int * 0x100 + data[readPos + 1], TWO16);
      readPos := readPos + 2;
    }

    method ReadNextUnaligned32bit() returns (v: int)
      requires Valid()
      modifies this`readPos
      ensures ReadsAs(Int32, v)
    {
      if validBytes - readPos < 4 {
        return 0;
      }
      v := Unwrap(Get32(data[readPos..readPos + 4], 0), TWO32);
      readPos := readPos + 4;
    }

    method ReadNextUnaligned64bit() returns (v: int)
      requires Valid()
      modifies this`readPos
      ensures ReadsAs(Int64, v)
    {
      if validBytes - readPos < 8 {
        return 0;
      }
      hide Get32;
      var high := ReadNextUnaligned32bit();
      var low := ReadNextUnaligned32bit();
      WrapUnwrap(Get32(Contents(), old(readPos)), TWO32);
      WrapUnwrap(Get32(Contents(), old(readPos) + 4), TWO32);
      v := Unwrap(Wrap(high, TWO32) * TWO32 + Wrap(low, TWO32), TWO64);
    }

    /** The next string, if its NUL is among the valid bytes; otherwise nothing moves. */
    method GetNextCharString() returns (found: bool, s: seq<byte>)
      requires Valid()
      modifies this`readPos
      ensures Valid()
      ensures match Decode(Text, Contents(), old(readPos))
              case Got(item, next) => found && item == CText(s) && readPos == next
              case Missing => !found && readPos == old(readPos)
    {
      found, s := false, [];
      if validBytes > readPos {
        var end := readPos;
        while end < validBytes && data[end] != 0
          invariant readPos <= end <= validBytes && NulAt(Contents(), end) == NulAt(Contents(), readPos)
        {
          end := end + 1;
        }
        if end < validBytes {
          found, s := true, data[readPos..end];
          readPos := end + 1;
        }
      }
    }
  }

  /** The contents are the same, or differ only in bytes that a write of n bytes covers. */
  ghost predicate SameForWrite(c: seq<byte>, d: seq<byte>, at: nat, n: nat) {
    at <= |c| == |d| && (c == d || (|d| <= at + n && c[..at] == d[..at]))
  }

  lemma SameAfterRoom(c: seq<byte>, d: seq<byte>, at: nat, s: seq<byte>)
    requires SameForWrite(c, d, at, |s|)
    ensures Overwrite(c, at, s) == Overwrite(d, at, s)
  {
    if c != d {
      OverwriteCovers(c, d, at, s);
    }
  }

  /** The first i bytes of s are in the array, and nothing else has changed. */
  ghost predicate StoredUpTo(before: seq<byte>, after: seq<byte>, at: nat, s: seq<byte>, i: nat) {
    && |after| == |before| && i <= |s| && at + |s| <= |after|
    && (forall k :: 0 <= k < i ==> after[at + k] == s[k])
    && (forall k :: 0 <= k < at || at + i <= k < |after| ==> after[k] == before[k])
  }

  lemma StoredAll(before: seq<byte>, after: seq<byte>, at: nat, s: seq<byte>, valid: nat, end: nat)
    requires StoredUpTo(before, after, at, s, |s|) && at <= valid <= |before|
    requires end == if at + |s| > valid then at + |s| else valid
    ensures after[..end] == Overwrite(before[..valid], at, s)
  {
    assert after[at..at + |s|] == s;
  }

  // ----- the round trip through the methods -----

  method WriteItem(b: Buffer, i: Item, k: Kind) returns (ok: bool)
    requires b.Valid() && b.resize && InKind(i, k)
    modifies b, b.data
    ensures ok && b.Valid() && b.resize && (b.data == old(b.data) || fresh(b.data))
    ensures b.Contents() == Overwrite(old(b.Contents()), old(b.writePos), Encode(i, k))
    ensures b.writePos == old(b.writePos) + |Encode(i, k)|
  {
    match k
    case Int8 => ok := b.WriteNext8bit(i.v);
    case Int16 => ok := b.WriteNextUnaligned16bit(i.v);
    case Int32 => ok := b.WriteNextUnaligned32bit(i.v);
    case Int64 => ok := b.WriteNextUnaligned64bit(i.v);
    case Text =>
      var len := b.WriteNextCharString(i.s);
      ok := len != 0;
  }

  method ReadItem(b: Buffer, k: Kind) returns (i: Item)
    requires b.Valid() && Decode(k, b.Contents(), b.readPos).Got?
    modifies b`readPos
    ensures b.Valid() && Decode(k, b.Contents(), old(b.readPos)) == Got(i, b.readPos)
  {
    if k.Text? {
      var _, s := b.GetNextCharString();
      return CText(s);
    }
    var v;
    if k.Int8? {
      v := b.ReadNext8bit();
    } else if k.Int16? {
      v := b.ReadNextUnaligned16bit();
    } else if k.Int32? {
      v := b.ReadNextUnaligned32bit();
    } else {
      v := b.ReadNextUnaligned64bit();
    }
    i := Number(k, v);
  }

  /** Writing one more item. */
  lemma {:induction false} WriteOneMore(c: seq<byte>, at: nat, items: seq<Item>, kinds: seq<Kind>, i: nat)
    requires at <= |c| && AllInKind(items, kinds) && i < |items|
    ensures AllInKind(items[..i], kinds[..i]) && AllInKind(items[..i + 1], kinds[..i + 1])
    ensures var (d, end) := WriteAll(c, at, items[..i], kinds[..i]);
            var s := Encode(items[i], kinds[i]);
            WriteAll(c, at, items[..i + 1], kinds[..i + 1]) == (Overwrite(d, end, s), end + |s|)
    decreases i
  {
    hide Encode, InKind, Overwrite, WriteAll;
    FirstKept(c, at, items[..i + 1], kinds[..i + 1]);
    var s := Encode(items[0], kinds[0]);
    var d := Overwrite(c, at, s);
    if i == 0 {
      WriteNone(c, at, items[..0], kinds[..0]);
      WriteNone(d, at + |s|, items[..1][1..], kinds[..1][1..]);
    } else {
      FirstKept(c, at, items[..i], kinds[..i]);
      assert items[..i][1..] == items[1..][..i - 1] && kinds[..i][1..] == kinds[1..][..i - 1];
      assert items[..i + 1][1..] == items[1..][..i] && kinds[..i + 1][1..] == kinds[1..][..i];
      WriteOneMore(d, at + |s|, items[1..], kinds[1..], i - 1);
    }
  }

  /** Any items of mixed kinds, written one after the other into a buffer that may grow, are read back with the same
      kinds once the read cursor stands where writing began. */
  method WriteAndReadBack(b: Buffer, items: seq<Item>, kinds: seq<Kind>) returns (back: seq<Item>)
    requires b.Valid() && b.resize && AllInKind(items, kinds)
    modifies b, b.data
    ensures b.Valid() && back == items
    ensures (b.Contents(), b.writePos) == WriteAll(old(b.Contents()), old(b.writePos), items, kinds)
    ensures b.readPos == b.writePos
  {
    hide InKind, WriteAll, Overwrite, Encode, Decode;
    var start := b.writePos;
    ghost var c := b.Contents();
    WriteNone(c, start, items[..0], kinds[..0]);
    for i := 0 to |items|
      invariant b.Valid() && b.resize && (b.data == old(b.data) || fresh(b.data))
      invariant AllInKind(items[..i], kinds[..i])
      invariant (b.Contents(), b.writePos) == WriteAll(c, start, items[..i], kinds[..i])
    {
      WriteOneMore(c, start, items, kinds, i);
      var _ := WriteItem(b, items[i], kinds[i]);
    }
    assert items[..|items|] == items && kinds[..|items|] == kinds;
    WriteNone(c, start, items[..0], kinds[..0]);
    WriteKeepsStart(c, start, items, kinds);
    var _ := b.SetReadPos(start);
    back := [];
    for i := 0 to |items|
      modifies b`readPos
      invariant b.Valid() && b.Contents() == WriteAll(c, start, items, kinds).0
      invariant AllInKind(items[..i], kinds[..i])
      invariant b.readPos == WriteAll(c, start, items[..i], kinds[..i]).1 && back == items[..i]
    {
      WriteOneMore(c, start, items, kinds, i);
      ReadBack(c, start, items, kinds, i);
      var item := ReadItem(b, kinds[i]);
      back := back + [item];
    }
  }

  lemma WriteKeepsStart(c: seq<byte>, at: nat, items: seq<Item>, kinds: seq<Kind>)
    requires at <= |c| && AllInKind(items, kinds)
    ensures at <= WriteAll(c, at, items, kinds).1 <= |WriteAll(c, at, items, kinds).0|
  {
  }
}
