/** NParam: one tagged parameter, a growing vector of bytes with typed writers and readers. */
module NParam {
  import opened Bits
  import opened Wire

  /** A parameter as a value: its id and its bytes. */
  datatype Param = Param(id: nat, buff: seq<byte>)

  class NParam {
    var paramID: nat
    var buff: seq<byte>

    constructor (id: nat)
      ensures Value() == Param(id, [])
    {
      paramID, buff := id, [];
    }

    function Value(): Param
      reads this
    {
      Param(paramID, buff)
    }

    // ----- writers: append at the end -----

    method AddUint8(data: byte)
      modifies this`buff
      ensures buff == old(buff) + [data]
    {
      buff := buff + [data];
    }

    method AddUint16(data: nat)
      requires data < TWO16
      modifies this`buff
      ensures buff == old(buff) + Be16(data)
    {
      buff := buff + [data / 0x100];
      buff := buff + [data % 0x100];
    }

    method AddUint32(data: nat)
      requires data < TWO32
      modifies this`buff
      ensures buff == old(buff) + Be32(data)
    {
      buff := buff + [data / 0x100_0000 % 0x100];
      buff := buff + [data / 0x1_0000 % 0x100];
      buff := buff + [data / 0x100 % 0x100];
      buff := buff + [data % 0x100];
    }

    method AddInt32(data: int)
      requires -TWO31 <= data < TWO31
      modifies this`buff
      ensures buff == old(buff) + Be32(Wrap(data, TWO32))
    {
      AddUint32(Wrap(data, TWO32));
    }

    /** A string up to its first NUL, with the terminating NUL. */
    method AddString(str: seq<byte>)
      modifies this`buff
      ensures buff == old(buff) + CString(str) + [0]
    {
      buff := buff + str[..NulAt(str, 0)] + [0];
    }

    // ----- readers: the caller keeps the index, and must stay within the bytes -----

    method IncGetUint8(index: nat) returns (r: byte, next: nat)
      requires index < |buff|
      ensures r == buff[index] && next == index + 1
    {
      r, next := buff[index], index + 1;
    }

    /** The number that AddUint16 would have written there. */
    method IncGetUint16(index: nat) returns (r: nat, next: nat)
      requires index + 2 <= |buff|
      ensures r < TWO16 && next == index + 2 && buff[index..next] == Be16(r)
    {
      r, next := buff[index] as int * 0x100 + buff[index + 1], index + 2;
      Get16Be16(r, buff, index);
    }

    /** The number that AddUint32 would have written at the index modulo 65536: the function that reads it takes a
        16-bit index. */
    method IncGetUint32(index: nat) returns (r: nat, next: nat)
      requires index % TWO16 + 4 <= |buff|
      ensures r < TWO32 && next == index + 4 && buff[index % TWO16..index % TWO16 + 4] == Be32(r)
    {
      r := GetUint32FromByteArray(buff, index % TWO16);
      next := index + 4;
    }

    static method GetUint32FromByteArray(b: seq<byte>, index: nat) returns (r: nat)
      requires index < TWO16 && index + 4 <= |b|
      ensures r < TWO32 && b[index..index + 4] == Be32(r)
    {
      r := b[index] as int * 0x100_0000 + b[index + 1] as int * 0x1_0000;
      r := r + b[index + 2] as int * 0x100 + b[index + 3];
      Get32Be32(r, b, index);
    }

    /** The number that AddInt32 would have written there. */
    method IncGetInt32(index: nat) returns (r: int, next: nat)
      requires index + 4 <= |buff|
      ensures -TWO31 <= r < TWO31 && next == index + 4 && buff[index..next] == Be32(Wrap(r, TWO32))
    {
      var u: nat := buff[index] as int * 0x100_0000 + buff[index + 1] as int * 0x1_0000;
      u := u + buff[index + 2] as int * 0x100 + buff[index + 3];
      Get32Be32(u, buff, index);
      r, next := Unwrap(u, TWO32), index + 4;
    }

    method IncGetString(index: nat) returns (r: seq<byte>, next: nat)
      requires index <= |buff| && NulAt(buff, index) < |buff|
      ensures r == buff[index..NulAt(buff, index)] && next == NulAt(buff, index) + 1
    {
      next := index;
      while buff[next] != 0
        invariant index <= next < |buff| && NulAt(buff, next) == NulAt(buff, index)
        decreases |buff| - next
      {
        next := next + 1;
      }
      r, next := buff[index..next], next + 1;
    }
  }
}
