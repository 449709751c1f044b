/** Numbers and C strings as bytes, most significant byte first: the layout NParam and NavPacket write. */
module Wire {
  import opened Bits

  const TWO16 := 0x1_0000
  const TWO31 := 0x8000_0000
  const TWO32 := 0x1_0000_0000

  function Be16(v: nat): (s: seq<byte>)
    requires v < TWO16
    ensures |s| == 2
  {
    [v / 0x100, v % 0x100]
  }

  function Be32(v: nat): (s: seq<byte>)
    requires v < TWO32
    ensures |s| == 4
  {
    [v / 0x100_0000, v / 0x1_0000 % 0x100, v / 0x100 % 0x100, v % 0x100]
  }

  function Get16(s: seq<byte>, at: nat): (v: nat)
    requires at + 2 <= |s|
    ensures v < TWO16
  {
    s[at] as int * 0x100 + s[at + 1]
  }

  function Get32(s: seq<byte>, at: nat): (v: nat)
    requires at + 4 <= |s|
    ensures v < TWO32
  {
    s[at] as int * 0x100_0000 + s[at + 1] as int * 0x1_0000 + s[at + 2] as int * 0x100 + s[at + 3]
  }

  lemma Get16Be16(v: nat, s: seq<byte>, at: nat)
    requires v < TWO16 && at + 2 <= |s|
    ensures s[at..at + 2] == Be16(v) <==> Get16(s, at) == v
  {
    assert s[at..at + 2] == [s[at], s[at + 1]];
  }

  lemma Get32Be32(v: nat, s: seq<byte>, at: nat)
    requires v < TWO32 && at + 4 <= |s|
    ensures s[at..at + 4] == Be32(v) <==> Get32(s, at) == v
  {
    assert s[at..at + 4] == [s[at], s[at + 1], s[at + 2], s[at + 3]];
    FourDigits(v, s[at], s[at + 1], s[at + 2], s[at + 3]);
  }

  lemma FourDigits(v: nat, a: byte, b: byte, c: byte, d: byte)
    requires v < TWO32
    ensures v == a as int * 0x100_0000 + b as int * 0x1_0000 + c as int * 0x100 + d <==>
            a == v / 0x100_0000 && b == v / 0x1_0000 % 0x100 && c == v / 0x100 % 0x100 && d == v % 0x100
  {
    var w := v / 0x100;
    var x := w / 0x100;
    assert x == v / 0x1_0000 && x / 0x100 == v / 0x100_0000;
  }

  /** A two's complement number of the given range as an unsigned one, and back. */
  function Wrap(v: int, size: nat): (u: nat)
    requires -(size as int) <= 2 * v < size
    ensures u < size
  {
    if v < 0 then v + size else v
  }

  function Unwrap(u: nat, size: nat): (v: int)
    requires u < size
    ensures -(size as int) <= 2 * v < size
  {
    if 2 * u >= size then u - size else u
  }

  lemma UnwrapWrap(v: int, size: nat)
    requires -(size as int) <= 2 * v < size && size % 2 == 0
    ensures Unwrap(Wrap(v, size), size) == v
  {
  }

  lemma WrapUnwrap(u: nat, size: nat)
    requires u < size && size % 2 == 0
    ensures Wrap(Unwrap(u, size), size) == u
  {
  }

  /** Where the first NUL at or after a place is; the end if there is none. */
  function NulAt(s: seq<byte>, at: nat): (end: nat)
    requires at <= |s|
    ensures at <= end <= |s| && (end < |s| ==> s[end] == 0) && 0 !in s[at..end]
    decreases |s| - at
  {
    if at == |s| || s[at] == 0 then at
    else
      var end := NulAt(s, at + 1);
      assert s[at..end] == [s[at]] + s[at + 1..end];
      end
  }

  /** A C string sees nothing past the first NUL. */
  function CString(s: seq<byte>): (t: seq<byte>)
    ensures 0 !in t && |t| <= |s| && (0 !in s ==> t == s)
  {
    s[..NulAt(s, 0)]
  }

  /** The terminated string s, found in the middle of other bytes. */
  lemma NulAfter(data: seq<byte>, at: nat, s: seq<byte>)
    requires at + |s| < |data| && 0 !in s && data[at..at + |s|] == s && data[at + |s|] == 0
    ensures NulAt(data, at) == at + |s|
  {
  }
}
