/** The struct serialisers and parsing constructors that the code generator emits for a schema: what
    write_member_serialization and handle_struct_constructor_member_assignment make the C++ code do. */
module StructCodec {
  import opened Bits
  import opened Wire
  import opened NParam

  // ----- schemas -----

  datatype Prim = Uint8 | Uint16 | Uint32 | Int32 | Text

  datatype Type = Simple(prim: Prim) | Struct(members: seq<Member>)

  /** A member is one value, or an array whose size is a constant or the value of another member. */
  datatype Size = Single | Const(n: nat) | Ref(member: nat)

  datatype Member = Member(type_: Type, size: Size)

  datatype Value = Num(n: int) | Str(s: seq<byte>) | Record(fields: seq<Value>) | List(items: seq<Value>)

  predicate InRange(p: Prim, v: int) {
    match p
    case Uint8 => 0 <= v < 0x100
    case Uint16 => 0 <= v < TWO16
    case Uint32 => 0 <= v < TWO32
    case Int32 => -TWO31 <= v < TWO31
    case Text => false
  }

  /** The values that a C++ object of the type can have; its vectors can have any length. */
  ghost predicate Has(t: Type, v: Value) {
    match t
    case Simple(p) => if p.Text? then v.Str? else v.Num? && InRange(p, v.n)
    case Struct(ms) =>
      && v.Record? && |v.fields| == |ms|
      && forall i :: 0 <= i < |ms| ==> MemberHas(ms[i], v.fields[i])
  }

  ghost predicate MemberHas(m: Member, v: Value) {
    if m.size.Single? then Has(m.type_, v)
    else v.List? && forall j :: 0 <= j < |v.items| ==> Has(m.type_, v.items[j])
  }

  /** How many elements the constructor reads for an array; a negative size is compared as an unsigned number. */
  function Count(size: Size, fields: seq<Value>): nat {
    match size
    case Single => 1
    case Const(n) => n
    case Ref(k) => if k < |fields| && fields[k].Num? && -TWO31 <= fields[k].n < TWO32
                   then (if fields[k].n < 0 then fields[k].n + TWO32 else fields[k].n) else 0
  }

  /** The values that can be read back: no NUL in a string, and the sizes of arrays as the schema says. */
  ghost predicate Sound(t: Type, v: Value)
    requires Has(t, v)
  {
    match t
    case Simple(p) => p.Text? ==> 0 !in v.s
    case Struct(ms) =>
      forall i :: 0 <= i < |ms| ==> MemberHas(ms[i], v.fields[i]) && MemberSound(ms[i], v.fields[i], v.fields[..i])
  }

  ghost predicate MemberSound(m: Member, v: Value, before: seq<Value>)
    requires MemberHas(m, v)
  {
    if m.size.Single? then Sound(m.type_, v)
    else
      && |v.items| == Count(m.size, before)
      && forall j :: 0 <= j < |v.items| ==> Has(m.type_, v.items[j]) && Sound(m.type_, v.items[j])
  }

  // ----- what the emitted serialisers append -----

  function SerSimple(p: Prim, v: Value): seq<byte>
    requires Has(Simple(p), v)
  {
    match p
    case Uint8 => [v.n]
    case Uint16 => Be16(v.n)
    case Uint32 => Be32(v.n)
    case Int32 => Be32(Wrap(v.n, TWO32))
    case Text => CString(v.s) + [0]
  }

  function Ser(t: Type, v: Value): seq<byte>
    requires Has(t, v)
    decreases t, 0
  {
    match t
    case Simple(p) => SerSimple(p, v)
    case Struct(ms) => SerFields(ms, v.fields, |ms|)
  }

  /** The first i members. */
  function SerFields(ms: seq<Member>, fields: seq<Value>, i: nat): seq<byte>
    requires i <= |ms| && i <= |fields| && forall k :: 0 <= k < i ==> MemberHas(ms[k], fields[k])
    decreases ms, i
  {
    if i == 0 then [] else SerFields(ms, fields, i - 1) + SerMember(ms[i - 1], fields[i - 1])
  }

  function SerMember(m: Member, v: Value): seq<byte>
    requires MemberHas(m, v)
    decreases m, 0
  {
    if m.size.Single? then Ser(m.type_, v) else SerItems(m.type_, v.items, |v.items|)
  }

  /** The first j elements of an array. */
  function SerItems(t: Type, items: seq<Value>, j: nat): seq<byte>
    requires j <= |items| && forall k :: 0 <= k < j ==> Has(t, items[k])
    decreases t, j + 1
  {
    if j == 0 then [] else SerItems(t, items, j - 1) + Ser(t, items[j - 1])
  }

  // ----- what the emitted constructors read -----

  /** A value and the index after it, or a read past the end of the bytes. */
  datatype Parsed<T> = Past | Got(value: T, next: nat)

  /** The function that reads an unsigned 32-bit number takes a 16-bit index, so that it looks for the number at the
      index modulo 65536; the index then moves on from where it was. */
  function Place(p: Prim, at: nat): nat {
    if p.Uint32? then at % TWO16 else at
  }

  function ParseSimple(p: Prim, data: seq<byte>, at: nat): (r: Parsed<Value>)
    ensures r.Got? ==> at < r.next && Has(Simple(p), r.value)
  {
    match p
    case Uint8 => if at + 1 <= |data| then Got(Num(data[at]), at + 1) else Past
    case Uint16 => if at + 2 <= |data| then Got(Num(Get16(data, at)), at + 2) else Past
    case Uint32 =>
      if Place(p, at) + 4 <= |data| then Got(Num(Get32(data, Place(p, at))), at + 4) else Past
    case Int32 => if at + 4 <= |data| then Got(Num(Unwrap(Get32(data, at), TWO32)), at + 4) else Past
    case Text =>
      if at <= |data| && NulAt(data, at) < |data| then Got(Str(data[at..NulAt(data, at)]), NulAt(data, at) + 1) else Past
  }

  function Parse(t: Type, data: seq<byte>, at: nat): (r: Parsed<Value>)
    ensures r.Got? ==> at <= r.next
    decreases t, 0
  {
    match t
    case Simple(p) => ParseSimple(p, data, at)
    case Struct(ms) =>
      match ParseFields(ms, data, at, |ms|)
      case Past => Past
      case Got(fields, next) => Got(Record(fields), next)
  }

  function ParseFields(ms: seq<Member>, data: seq<byte>, at: nat, i: nat): (r: Parsed<seq<Value>>)
    requires i <= |ms|
    ensures r.Got? ==> at <= r.next && |r.value| == i
    decreases ms, i
  {
    if i == 0 then Got([], at)
    else
      match ParseFields(ms, data, at, i - 1)
      case Past => Past
      case Got(fields, mid) =>
        match ParseMember(ms[i - 1], fields, data, mid)
        case Past => Past
        case Got(v, next) => Got(fields + [v], next)
  }

  function ParseMember(m: Member, before: seq<Value>, data: seq<byte>, at: nat): (r: Parsed<Value>)
    ensures r.Got? ==> at <= r.next
    decreases m, 0
  {
    if m.size.Single? then Parse(m.type_, data, at)
    else
      match ParseItems(m.type_, data, at, Count(m.size, before))
      case Past => Past
      case Got(items, next) => Got(List(items), next)
  }

  function ParseItems(t: Type, data: seq<byte>, at: nat, n: nat): (r: Parsed<seq<Value>>)
    ensures r.Got? ==> at <= r.next && |r.value| == n
    decreases t, n + 1
  {
    if n == 0 then Got([], at)
    else
      match ParseItems(t, data, at, n - 1)
      case Past => Past
      case Got(items, mid) =>
        match Parse(t, data, mid)
        case Past => Past
        case Got(v, next) => Got(items + [v], next)
  }

  // ----- the round trip -----

  /** s stands in data at a place. */
  predicate At(data: seq<byte>, at: nat, s: seq<byte>) {
    at + |s| <= |data| && data[at..at + |s|] == s
  }

  lemma AtSplit(data: seq<byte>, at: nat, s: seq<byte>, t: seq<byte>)
    requires At(data, at, s + t)
    ensures At(data, at, s) && At(data, at + |s|, t)
  {
    var whole := data[at..at + |s| + |t|];
    assert data[at..at + |s|] == whole[..|s|] && data[at + |s|..at + |s| + |t|] == whole[|s|..];
  }

  lemma AtJoin(data: seq<byte>, at: nat, s: seq<byte>, t: seq<byte>)
    requires At(data, at, s) && At(data, at + |s|, t)
    ensures At(data, at, s + t)
  {
    assert data[at..at + |s + t|] == data[at..at + |s|] + data[at + |s|..at + |s| + |t|];
  }

  /** A statement about a number or string, its bytes, and the place where they are written. */
  type Leaf = (Prim, seq<byte>, nat) -> bool

  /** f holds of all numbers and strings in v, when v is written at a place. */
  ghost predicate Each(t: Type, v: Value, at: nat, f: Leaf)
    requires Has(t, v)
    decreases t, 0
  {
    match t
    case Simple(p) => f(p, SerSimple(p, v), at)
    case Struct(ms) => EachField(ms, v.fields, at, f, |ms|)
  }

  ghost predicate EachField(ms: seq<Member>, fields: seq<Value>, at: nat, f: Leaf, i: nat)
    requires i <= |ms| && i <= |fields| && forall k :: 0 <= k < i ==> MemberHas(ms[k], fields[k])
    decreases ms, i
  {
    i > 0 ==>
      && EachField(ms, fields, at, f, i - 1)
      && EachInMember(ms[i - 1], fields[i - 1], at + |SerFields(ms, fields, i - 1)|, f)
  }

  ghost predicate EachInMember(m: Member, v: Value, at: nat, f: Leaf)
    requires MemberHas(m, v)
    decreases m, 0
  {
    if m.size.Single? then Each(m.type_, v, at, f) else EachItem(m.type_, v.items, at, f, |v.items|)
  }

  ghost predicate EachItem(t: Type, items: seq<Value>, at: nat, f: Leaf, j: nat)
    requires j <= |items| && forall k :: 0 <= k < j ==> Has(t, items[k])
    decreases t, j + 1
  {
    j > 0 ==> EachItem(t, items, at, f, j - 1) && Each(t, items[j - 1], at + |SerItems(t, items, j - 1)|, f)
  }

  /** The bytes of a number or string stand where they are written. */
  predicate StandsAt(data: seq<byte>, p: Prim, s: seq<byte>, at: nat) {
    At(data, at, s) && (p.Uint32? ==> |s| == 4)
  }

  /** They stand where they are looked for. */
  predicate FoundAt(data: seq<byte>, p: Prim, s: seq<byte>, at: nat) {
    At(data, Place(p, at), s) && (p.Uint32? ==> |s| == 4)
  }

  /** The two places have the same bytes. */
  predicate AlikeAt(data: seq<byte>, p: Prim, at: nat) {
    p.Uint32? && at >= TWO16 ==> at + 4 <= |data| && data[at % TWO16..at % TWO16 + 4] == data[at..at + 4]
  }

  ghost function Stand(data: seq<byte>): Leaf {
    (p: Prim, s: seq<byte>, at: nat) => StandsAt(data, p, s, at)
  }

  ghost function FoundIn(data: seq<byte>): Leaf {
    (p: Prim, s: seq<byte>, at: nat) => FoundAt(data, p, s, at)
  }

  ghost function Alike(data: seq<byte>): Leaf {
    (p: Prim, s: seq<byte>, at: nat) => AlikeAt(data, p, at)
  }

  /** Every unsigned 32-bit number of v that starts at index 65536 or later has its four bytes at the index modulo
      65536 as well. Where none starts there, nothing is asked. */
  ghost predicate SameBytes(t: Type, v: Value, data: seq<byte>, at: nat)
    requires Has(t, v)
  {
    Each(t, v, at, Alike(data))
  }

  /** What follows from two statements about each number and string. */
  ghost predicate Gives(f: Leaf, g: Leaf, h: Leaf) {
    forall p, s, at {:trigger h(p, s, at)} :: f(p, s, at) && g(p, s, at) ==> h(p, s, at)
  }

  lemma {:induction false} EachGives(t: Type, v: Value, at: nat, f: Leaf, g: Leaf, h: Leaf)
    requires Has(t, v) && Gives(f, g, h) && Each(t, v, at, f) && Each(t, v, at, g)
    ensures Each(t, v, at, h)
    decreases t, 0
  {
    match t
    case Simple(p) =>
    case Struct(ms) => FieldsGive(ms, v.fields, at, f, g, h, |ms|);
  }

  lemma {:induction false} FieldsGive(ms: seq<Member>, fields: seq<Value>, at: nat, f: Leaf, g: Leaf, h: Leaf, i: nat)
    requires i <= |ms| && i <= |fields| && forall k :: 0 <= k < i ==> MemberHas(ms[k], fields[k])
    requires Gives(f, g, h) && EachField(ms, fields, at, f, i) && EachField(ms, fields, at, g, i)
    ensures EachField(ms, fields, at, h, i)
    decreases ms, i
  {
    hide MemberHas, Gives, EachInMember;
    if i > 0 {
      FieldsGive(ms, fields, at, f, g, h, i - 1);
      MemberGives(ms[i - 1], fields[i - 1], at + |SerFields(ms, fields, i - 1)|, f, g, h);
    }
  }

  lemma {:induction false} MemberGives(m: Member, v: Value, at: nat, f: Leaf, g: Leaf, h: Leaf)
    requires MemberHas(m, v) && Gives(f, g, h) && EachInMember(m, v, at, f) && EachInMember(m, v, at, g)
    ensures EachInMember(m, v, at, h)
    decreases m, 0
  {
    hide Gives;
    if m.size.Single? {
      EachGives(m.type_, v, at, f, g, h);
    } else {
      ItemsGive(m.type_, v.items, at, f, g, h, |v.items|);
    }
  }

  lemma {:induction false} ItemsGive(t: Type, items: seq<Value>, at: nat, f: Leaf, g: Leaf, h: Leaf, j: nat)
    requires j <= |items| && forall k :: 0 <= k < j ==> Has(t, items[k])
    requires Gives(f, g, h) && EachItem(t, items, at, f, j) && EachItem(t, items, at, g, j)
    ensures EachItem(t, items, at, h, j)
    decreases t, j + 1
  {
    hide Has, Gives, Each;
    if j > 0 {
      ItemsGive(t, items, at, f, g, h, j - 1);
      EachGives(t, items[j - 1], at + |SerItems(t, items, j - 1)|, f, g, h);
    }
  }

  /** All numbers and strings stand where they are written exactly when the whole does. */
  lemma {:induction false} EachStands(t: Type, v: Value, data: seq<byte>, at: nat)
    requires Has(t, v) && at <= |data|
    ensures Each(t, v, at, Stand(data)) <==> At(data, at, Ser(t, v))
    decreases t, 0
  {
    match t
    case Simple(p) => BeLengths(p, v);
    case Struct(ms) => FieldsStand(ms, v.fields, data, at, |ms|);
  }

  lemma {:induction false} FieldsStand(ms: seq<Member>, fields: seq<Value>, data: seq<byte>, at: nat, i: nat)
    requires i <= |ms| && i <= |fields| && forall k :: 0 <= k < i ==> MemberHas(ms[k], fields[k])
    requires at <= |data|
    ensures EachField(ms, fields, at, Stand(data), i) <==> At(data, at, SerFields(ms, fields, i))
    decreases ms, i
  {
    hide MemberHas, At, EachInMember, Stand, SerMember;
    if i == 0 {
      NothingStands(data, at);
    } else {
      var front, last := SerFields(ms, fields, i - 1), SerMember(ms[i - 1], fields[i - 1]);
      FieldsStand(ms, fields, data, at, i - 1);
      AtBoth(data, at, front, last);
      if At(data, at, front) {
        MemberStands(ms[i - 1], fields[i - 1], data, at + |front|);
      }
    }
  }

  lemma NothingStands(data: seq<byte>, at: nat)
    requires at <= |data|
    ensures At(data, at, [])
  {
  }

  lemma AtBoth(data: seq<byte>, at: nat, s: seq<byte>, t: seq<byte>)
    ensures At(data, at, s + t) <==> At(data, at, s) && At(data, at + |s|, t)
    ensures At(data, at, s) ==> at + |s| <= |data|
  {
    if At(data, at, s + t) {
      AtSplit(data, at, s, t);
    }
    if At(data, at, s) && At(data, at + |s|, t) {
      AtJoin(data, at, s, t);
    }
  }

  lemma {:induction false} MemberStands(m: Member, v: Value, data: seq<byte>, at: nat)
    requires MemberHas(m, v) && at <= |data|
    ensures EachInMember(m, v, at, Stand(data)) <==> At(data, at, SerMember(m, v))
    decreases m, 0
  {
    hide At, Stand;
    if m.size.Single? {
      EachStands(m.type_, v, data, at);
    } else {
      ItemsStand(m.type_, v.items, data, at, |v.items|);
    }
  }

  lemma {:induction false} ItemsStand(t: Type, items: seq<Value>, data: seq<byte>, at: nat, j: nat)
    requires j <= |items| && forall k :: 0 <= k < j ==> Has(t, items[k])
    requires at <= |data|
    ensures EachItem(t, items, at, Stand(data), j) <==> At(data, at, SerItems(t, items, j))
    decreases t, j + 1
  {
    hide Has, At, Each, Stand, Ser;
    if j == 0 {
      NothingStands(data, at);
    } else {
      var front, last := SerItems(t, items, j - 1), Ser(t, items[j - 1]);
      ItemsStand(t, items, data, at, j - 1);
      AtBoth(data, at, front, last);
      if At(data, at, front) {
        EachStands(t, items[j - 1], data, at + |front|);
      }
    }
  }

  /** Of standing where it is written, being found where it is looked for, and having the same bytes in both places,
      any two give the third. */
  lemma TwoGiveThird(data: seq<byte>)
    ensures Gives(Stand(data), Alike(data), FoundIn(data))
    ensures Gives(Stand(data), FoundIn(data), Alike(data))
    ensures Gives(FoundIn(data), Alike(data), Stand(data))
  {
    hide StandsAt, FoundAt, AlikeAt;
    forall p: Prim, s: seq<byte>, at: nat
      ensures StandsAt(data, p, s, at) && AlikeAt(data, p, at) ==> FoundAt(data, p, s, at)
      ensures StandsAt(data, p, s, at) && FoundAt(data, p, s, at) ==> AlikeAt(data, p, at)
      ensures FoundAt(data, p, s, at) && AlikeAt(data, p, at) ==> StandsAt(data, p, s, at)
    {
      TwoPlaces(data, p, s, at);
    }
  }

  lemma TwoPlaces(data: seq<byte>, p: Prim, s: seq<byte>, at: nat)
    ensures StandsAt(data, p, s, at) && AlikeAt(data, p, at) ==> FoundAt(data, p, s, at)
    ensures StandsAt(data, p, s, at) && FoundAt(data, p, s, at) ==> AlikeAt(data, p, at)
    ensures FoundAt(data, p, s, at) && AlikeAt(data, p, at) ==> StandsAt(data, p, s, at)
  {
    if p.Uint32? && |s| == 4 {
      var w := Place(p, at);
      assert w <= at && (at < TWO16 ==> w == at);
    }
  }

  lemma FoundWhereWritten(t: Type, v: Value, data: seq<byte>, at: nat)
    requires Has(t, v) && at <= |data|
    ensures At(data, at, Ser(t, v)) ==> (Each(t, v, at, FoundIn(data)) <==> SameBytes(t, v, data, at))
    ensures Each(t, v, at, FoundIn(data)) ==> (At(data, at, Ser(t, v)) <==> SameBytes(t, v, data, at))
  {
    hide Each, Stand, FoundIn, Alike, Gives, At, Ser;
    var stand, found, alike := Stand(data), FoundIn(data), Alike(data);
    EachStands(t, v, data, at);
    TwoGiveThird(data);
    if Each(t, v, at, stand) && Each(t, v, at, alike) {
      EachGives(t, v, at, stand, alike, found);
    }
    if Each(t, v, at, stand) && Each(t, v, at, found) {
      EachGives(t, v, at, stand, found, alike);
    }
    if Each(t, v, at, found) && Each(t, v, at, alike) {
      EachGives(t, v, at, found, alike, stand);
    }
  }

  // ----- reading what is found -----

  lemma SimpleRoundTrip(p: Prim, v: Value, data: seq<byte>, at: nat)
    requires Has(Simple(p), v) && Sound(Simple(p), v) && At(data, Place(p, at), SerSimple(p, v))
    ensures ParseSimple(p, data, at) == Got(v, at + |SerSimple(p, v)|)
  {
    hide Be16, Be32, Get16, Get32, NulAt;
    match p
    case Uint8 => assert data[at..at + 1] == [data[at]];
    case Uint16 => NumberRoundTrip(p, v, data, at);
    case Uint32 => NumberRoundTrip(p, v, data, at);
    case Int32 => NumberRoundTrip(p, v, data, at);
    case Text => TextRoundTrip(v.s, data, at);
  }

  lemma NumberRoundTrip(p: Prim, v: Value, data: seq<byte>, at: nat)
    requires p.Uint16? || p.Uint32? || p.Int32?
    requires Has(Simple(p), v) && At(data, Place(p, at), SerSimple(p, v))
    ensures ParseSimple(p, data, at) == Got(v, at + |SerSimple(p, v)|)
  {
    hide Be16, Be32, Get16, Get32;
    BeLengths(p, v);
    match p
    case Uint16 => Get16Be16(v.n, data, at);
    case Uint32 => Get32Be32(v.n, data, Place(p, at));
    case Int32 => Get32Be32(Wrap(v.n, TWO32), data, at);
  }

  lemma BeLengths(p: Prim, v: Value)
    requires Has(Simple(p), v)
    ensures p.Uint16? ==> |SerSimple(p, v)| == 2
    ensures p.Uint32? || p.Int32? ==> |SerSimple(p, v)| == 4
  {
  }

  lemma TextRoundTrip(s: seq<byte>, data: seq<byte>, at: nat)
    requires 0 !in s && At(data, at, CString(s) + [0])
    ensures ParseSimple(Text, data, at) == Got(Str(s), at + |s| + 1) && CString(s) == s
  {
    AtSplit(data, at, s, [0]);
    assert data[at + |s|..at + |s| + 1] == [data[at + |s|]];
    NulAfter(data, at, s);
  }

  lemma {:induction false} RoundTripAt(t: Type, v: Value, data: seq<byte>, at: nat)
    requires Has(t, v) && Sound(t, v) && Each(t, v, at, FoundIn(data))
    ensures Parse(t, data, at) == Got(v, at + |Ser(t, v)|)
    decreases t, 0
  {
    match t
    case Simple(p) => SimpleRoundTrip(p, v, data, at);
    case Struct(ms) =>
      FieldsRoundTrip(ms, v.fields, data, at, |ms|);
      assert v.fields[..|ms|] == v.fields;
  }

  lemma {:induction false} FieldsRoundTrip(ms: seq<Member>, fields: seq<Value>, data: seq<byte>, at: nat, i: nat)
    requires i <= |ms| == |fields| && forall k :: 0 <= k < |ms| ==> MemberHas(ms[k], fields[k])
    requires forall k :: 0 <= k < |ms| ==> MemberSound(ms[k], fields[k], fields[..k])
    requires EachField(ms, fields, at, FoundIn(data), i)
    ensures ParseFields(ms, data, at, i) == Got(fields[..i], at + |SerFields(ms, fields, i)|)
    decreases ms, i
  {
    hide MemberHas, MemberSound, SerMember, ParseMember, EachInMember, FoundIn;
    if i > 0 {
      FieldsRoundTrip(ms, fields, data, at, i - 1);
      MemberRoundTrip(ms[i - 1], fields[i - 1], fields[..i - 1], data, at + |SerFields(ms, fields, i - 1)|);
      assert fields[..i] == fields[..i - 1] + [fields[i - 1]];
    }
  }

  lemma {:induction false} MemberRoundTrip(m: Member, v: Value, before: seq<Value>, data: seq<byte>, at: nat)
    requires MemberHas(m, v) && MemberSound(m, v, before) && EachInMember(m, v, at, FoundIn(data))
    ensures ParseMember(m, before, data, at) == Got(v, at + |SerMember(m, v)|)
    decreases m, 0
  {
    if m.size.Single? {
      RoundTripAt(m.type_, v, data, at);
    } else {
      ItemsRoundTrip(m.type_, v.items, data, at, |v.items|);
      assert v.items[..|v.items|] == v.items;
    }
  }

  lemma {:induction false} ItemsRoundTrip(t: Type, items: seq<Value>, data: seq<byte>, at: nat, j: nat)
    requires j <= |items| && forall k :: 0 <= k < |items| ==> Has(t, items[k]) && Sound(t, items[k])
    requires EachItem(t, items, at, FoundIn(data), j)
    ensures ParseItems(t, data, at, j) == Got(items[..j], at + |SerItems(t, items, j)|)
    decreases t, j + 1
  {
    hide Has, Sound, Ser, Parse, Each, FoundIn;
    if j > 0 {
      ItemsRoundTrip(t, items, data, at, j - 1);
      RoundTripAt(t, items[j - 1], data, at + |SerItems(t, items, j - 1)|);
      assert items[..j] == items[..j - 1] + [items[j - 1]];
    }
  }

  // ----- and back: what can be read is what is found -----

  lemma SimpleWriteBack(p: Prim, data: seq<byte>, at: nat)
    requires ParseSimple(p, data, at).Got?
    ensures var r := ParseSimple(p, data, at);
            && Sound(Simple(p), r.value) && r.next == at + |SerSimple(p, r.value)|
            && At(data, Place(p, at), SerSimple(p, r.value))
  {
    var r := ParseSimple(p, data, at);
    match p
    case Uint8 => assert data[at..at + 1] == [data[at]];
    case Uint16 => Get16Be16(r.value.n, data, at);
    case Uint32 => Get32Be32(r.value.n, data, Place(p, at));
    case Int32 => Get32Be32(Wrap(r.value.n, TWO32), data, at);
    case Text => assert data[at..r.next] == r.value.s + [0];
  }

  lemma {:induction false} WriteBackAt(t: Type, data: seq<byte>, at: nat)
    requires Parse(t, data, at).Got?
    ensures var r := Parse(t, data, at);
            && Has(t, r.value) && Sound(t, r.value) && r.next == at + |Ser(t, r.value)|
            && Each(t, r.value, at, FoundIn(data))
    decreases t, 0
  {
    match t
    case Simple(p) =>
      SimpleWriteBack(p, data, at);
      BeLengths(p, Parse(t, data, at).value);
    case Struct(ms) =>
      FieldsWriteBack(ms, data, at, |ms|);
      var fields := ParseFields(ms, data, at, |ms|).value;
      assert Parse(t, data, at).value == Record(fields);
  }

  /** The first i members as read, and their bytes. */
  lemma {:induction false} FieldsWriteBack(ms: seq<Member>, data: seq<byte>, at: nat, i: nat)
    requires i <= |ms| && ParseFields(ms, data, at, i).Got?
    ensures var r := ParseFields(ms, data, at, i);
            && (forall k :: 0 <= k < i ==> MemberHas(ms[k], r.value[k]))
            && (forall k :: 0 <= k < i ==> MemberSound(ms[k], r.value[k], r.value[..k]))
            && EachField(ms, r.value, at, FoundIn(data), i) && r.next == at + |SerFields(ms, r.value, i)|
    decreases ms, i
  {
    hide MemberHas, MemberSound, SerMember, ParseMember, EachInMember, EachField, FoundIn, SerFields;
    if i > 0 {
      FieldsWriteBack(ms, data, at, i - 1);
      var before := ParseFields(ms, data, at, i - 1);
      var m, fields := ms[i - 1], before.value;
      MemberWriteBack(m, fields, data, before.next);
      var v := ParseMember(m, fields, data, before.next).value;
      assert ParseFields(ms, data, at, i).value == fields + [v];
      FieldsExtended(ms, fields, v, at, FoundIn(data), i);
    } else {
      NoFields(ms, at, FoundIn(data));
    }
  }

  lemma NoFields(ms: seq<Member>, at: nat, f: Leaf)
    ensures EachField(ms, [], at, f, 0) && |SerFields(ms, [], 0)| == 0
  {
  }

  lemma FieldsExtended(ms: seq<Member>, fields: seq<Value>, v: Value, at: nat, f: Leaf, i: nat)
    requires 0 < i <= |ms| && |fields| == i - 1 && MemberHas(ms[i - 1], v) && MemberSound(ms[i - 1], v, fields)
    requires forall k :: 0 <= k < i - 1 ==> MemberHas(ms[k], fields[k])
    requires forall k :: 0 <= k < i - 1 ==> MemberSound(ms[k], fields[k], fields[..k])
    ensures var all := fields + [v];
            && (forall k :: 0 <= k < i ==> MemberHas(ms[k], all[k]))
            && (forall k :: 0 <= k < i ==> MemberSound(ms[k], all[k], all[..k]))
            && SerFields(ms, all, i) == SerFields(ms, fields, i - 1) + SerMember(ms[i - 1], v)
            && (EachField(ms, all, at, f, i) <==>
                EachField(ms, fields, at, f, i - 1) && EachInMember(ms[i - 1], v, at + |SerFields(ms, fields, i - 1)|, f))
  {
    hide MemberHas, MemberSound, SerMember, EachInMember;
    var all := fields + [v];
    assert forall k :: 0 <= k < i ==> all[..k] == fields[..k];
    SerFieldsPrefix(ms, fields, all, i - 1);
    EachFieldPrefix(ms, fields, all, at, f, i - 1);
  }

  lemma {:induction false} EachFieldPrefix(ms: seq<Member>, fields: seq<Value>, all: seq<Value>, at: nat, f: Leaf, i: nat)
    requires i <= |ms| && i <= |fields| && fields <= all && forall k :: 0 <= k < i ==> MemberHas(ms[k], fields[k])
    ensures EachField(ms, all, at, f, i) == EachField(ms, fields, at, f, i)
    decreases i
  {
    hide MemberHas, SerMember, EachInMember;
    if i > 0 {
      SerFieldsPrefix(ms, fields, all, i - 1);
      EachFieldPrefix(ms, fields, all, at, f, i - 1);
    }
  }

  lemma {:induction false} SerFieldsPrefix(ms: seq<Member>, fields: seq<Value>, all: seq<Value>, i: nat)
    requires i <= |ms| && i <= |fields| && fields <= all && forall k :: 0 <= k < i ==> MemberHas(ms[k], fields[k])
    ensures SerFields(ms, all, i) == SerFields(ms, fields, i)
    decreases i
  {
    hide MemberHas, SerMember;
    if i > 0 {
      SerFieldsPrefix(ms, fields, all, i - 1);
    }
  }

  lemma {:induction false} MemberWriteBack(m: Member, before: seq<Value>, data: seq<byte>, at: nat)
    requires ParseMember(m, before, data, at).Got?
    ensures var r := ParseMember(m, before, data, at);
            && MemberHas(m, r.value) && MemberSound(m, r.value, before)
            && EachInMember(m, r.value, at, FoundIn(data)) && r.next == at + |SerMember(m, r.value)|
    decreases m, 0
  {
    if m.size.Single? {
      WriteBackAt(m.type_, data, at);
    } else {
      ItemsWriteBack(m.type_, data, at, Count(m.size, before));
    }
  }

  lemma {:induction false} ItemsWriteBack(t: Type, data: seq<byte>, at: nat, n: nat)
    requires ParseItems(t, data, at, n).Got?
    ensures var r := ParseItems(t, data, at, n);
            && (forall k :: 0 <= k < n ==> Has(t, r.value[k]) && Sound(t, r.value[k]))
            && EachItem(t, r.value, at, FoundIn(data), n) && r.next == at + |SerItems(t, r.value, n)|
    decreases t, n + 1
  {
    hide Has, Sound, Ser, Parse, Each, EachItem, FoundIn, SerItems;
    if n > 0 {
      ItemsWriteBack(t, data, at, n - 1);
      var before := ParseItems(t, data, at, n - 1);
      WriteBackAt(t, data, before.next);
      var v := Parse(t, data, before.next).value;
      assert ParseItems(t, data, at, n).value == before.value + [v];
      ItemsExtended(t, before.value, v, at, FoundIn(data), n);
    } else {
      NoItems(t, at, FoundIn(data));
    }
  }

  lemma NoItems(t: Type, at: nat, f: Leaf)
    ensures EachItem(t, [], at, f, 0) && |SerItems(t, [], 0)| == 0
  {
  }

  lemma ItemsExtended(t: Type, items: seq<Value>, v: Value, at: nat, f: Leaf, n: nat)
    requires 0 < n && |items| == n - 1 && Has(t, v) && forall k :: 0 <= k < n - 1 ==> Has(t, items[k])
    ensures var all := items + [v];
            && SerItems(t, all, n) == SerItems(t, items, n - 1) + Ser(t, v)
            && (EachItem(t, all, at, f, n) <==>
                EachItem(t, items, at, f, n - 1) && Each(t, v, at + |SerItems(t, items, n - 1)|, f))
  {
    hide Has, Ser, Each;
    SerItemsPrefix(t, items, items + [v], n - 1);
    EachItemPrefix(t, items, items + [v], at, f, n - 1);
  }

  lemma {:induction false} EachItemPrefix(t: Type, items: seq<Value>, all: seq<Value>, at: nat, f: Leaf, j: nat)
    requires j <= |items| && items <= all && forall k :: 0 <= k < j ==> Has(t, items[k])
    ensures EachItem(t, all, at, f, j) == EachItem(t, items, at, f, j)
    decreases j
  {
    hide Has, Ser, Each;
    if j > 0 {
      SerItemsPrefix(t, items, all, j - 1);
      EachItemPrefix(t, items, all, at, f, j - 1);
    }
  }

  lemma {:induction false} SerItemsPrefix(t: Type, items: seq<Value>, all: seq<Value>, j: nat)
    requires j <= |items| && items <= all && forall k :: 0 <= k < j ==> Has(t, items[k])
    ensures SerItems(t, all, j) == SerItems(t, items, j)
    decreases j
  {
    hide Has, Ser;
    if j > 0 {
      SerItemsPrefix(t, items, all, j - 1);
    }
  }

  // ----- the main claims -----

  /** Reading gives a value, with the index right after it, exactly when its strings have no NUL, its arrays have the
      sizes of the schema, and all its numbers and strings are found where they are looked for. */
  lemma ReadExactly(t: Type, v: Value, data: seq<byte>, at: nat)
    requires Has(t, v)
    ensures Parse(t, data, at) == Got(v, at + |Ser(t, v)|) <==> Sound(t, v) && Each(t, v, at, FoundIn(data))
  {
    if Sound(t, v) && Each(t, v, at, FoundIn(data)) {
      RoundTripAt(t, v, data, at);
    }
    if Parse(t, data, at) == Got(v, at + |Ser(t, v)|) {
      WriteBackAt(t, data, at);
    }
  }

  /** A value, written between any other bytes, is read back with the index right after it, if and only if its
      strings have no NUL, its arrays have the sizes of the schema, and no unsigned 32-bit number starts at index
      65536 or later unless the same four bytes are at the index modulo 65536. */
  lemma RoundTrip(t: Type, v: Value, before: seq<byte>, after: seq<byte>)
    requires Has(t, v)
    ensures var data := before + Ser(t, v) + after;
            Parse(t, data, |before|) == Got(v, |before| + |Ser(t, v)|) <==>
              Sound(t, v) && SameBytes(t, v, data, |before|)
  {
    hide Has, Ser, Parse, Sound, Each, SameBytes, FoundIn;
    var data := before + Ser(t, v) + after;
    assert At(data, |before|, Ser(t, v));
    ReadExactly(t, v, data, |before|);
    FoundWhereWritten(t, v, data, |before|);
  }

  /** Whatever is read is sound, and written again it is the bytes that were passed over, if and only if the numbers
      read at an index modulo 65536 have the same bytes at the index. */
  lemma WriteBack(t: Type, data: seq<byte>, at: nat)
    requires at <= |data| && Parse(t, data, at).Got?
    ensures var r := Parse(t, data, at);
            && Has(t, r.value) && Sound(t, r.value) && r.next == at + |Ser(t, r.value)|
            && (r.next <= |data| && data[at..r.next] == Ser(t, r.value) <==> SameBytes(t, r.value, data, at))
  {
    hide Has, Ser, Parse, Sound, Each, SameBytes, FoundIn;
    var v := Parse(t, data, at).value;
    WriteBackAt(t, data, at);
    FoundWhereWritten(t, v, data, at);
  }

  /** Nothing is asked of a value that ends before index 65540. */
  lemma ShortIsSame(t: Type, v: Value, data: seq<byte>, at: nat)
    requires Has(t, v) && At(data, at, Ser(t, v)) && at + |Ser(t, v)| < TWO16 + 4
    ensures SameBytes(t, v, data, at)
  {
    hide Each, Ser;
    var front := data[..at + |Ser(t, v)|];
    assert At(front, at, Ser(t, v));
    EachStands(t, v, front, at);
    EachGives(t, v, at, Stand(front), Stand(front), Alike(data));
  }

  /** A text of 65535 bytes followed by a number: the number is looked for in the text. */
  lemma NumberLost(text: seq<byte>)
    requires |text| == TWO16 - 1 && forall i :: 0 <= i < |text| ==> text[i] == 0x61
    ensures var t := Struct([Member(Simple(Text), Single), Member(Simple(Uint32), Single)]);
            var v := Record([Str(text), Num(0)]);
            && Has(t, v) && Sound(t, v)
            && Parse(t, Ser(t, v), 0) == Got(Record([Str(text), Num(0x6161_6161)]), TWO16 + 4)
  {
    hide Ser;
    var t := Struct([Member(Simple(Text), Single), Member(Simple(Uint32), Single)]);
    var fields := [Str(text), Num(0)];
    TextThenNumber(text, t.members, fields);
    TextThenNumberRead(text, t.members, Ser(t, Record(fields)));
  }

  lemma TextThenNumber(text: seq<byte>, ms: seq<Member>, fields: seq<Value>)
    requires 0 !in text && fields == [Str(text), Num(0)]
    requires ms == [Member(Simple(Text), Single), Member(Simple(Uint32), Single)]
    ensures Has(Struct(ms), Record(fields)) && Sound(Struct(ms), Record(fields))
    ensures Ser(Struct(ms), Record(fields)) == text + [0] + [0, 0, 0, 0]
  {
    var i := 2;
    assert SerFields(ms, fields, i - 1) == SerFields(ms, fields, i - 2) + SerMember(ms[0], fields[0]);
    assert SerFields(ms, fields, i) == SerFields(ms, fields, i - 1) + SerMember(ms[1], fields[1]);
    assert SerMember(ms[0], fields[0]) == text + [0] && SerMember(ms[1], fields[1]) == [0, 0, 0, 0];
  }

  lemma TextThenNumberRead(text: seq<byte>, ms: seq<Member>, data: seq<byte>)
    requires |text| == TWO16 - 1 && forall i :: 0 <= i < |text| ==> text[i] == 0x61
    requires ms == [Member(Simple(Text), Single), Member(Simple(Uint32), Single)]
    requires data == text + [0] + [0, 0, 0, 0]
    ensures Parse(Struct(ms), data, 0) == Got(Record([Str(text), Num(0x6161_6161)]), TWO16 + 4)
  {
    hide NulAt;
    NulAfter(data, 0, text);
    assert data[0..|text|] == text;
    assert ParseSimple(Text, data, 0) == Got(Str(text), TWO16);
    assert Get32(data, 0) == 0x6161_6161;
    assert ParseSimple(Uint32, data, TWO16) == Got(Num(0x6161_6161), TWO16 + 4);
    var i := 2;
    assert ParseMember(ms[0], [], data, 0) == Got(Str(text), TWO16);
    assert ParseFields(ms, data, 0, i - 2) == Got([], 0) && [] + [Str(text)] == [Str(text)];
    assert ParseFields(ms, data, 0, i - 1) == Got([Str(text)], TWO16);
    assert ParseMember(ms[1], [Str(text)], data, TWO16) == Got(Num(0x6161_6161), TWO16 + 4);
    assert [Str(text)] + [Num(0x6161_6161)] == [Str(text), Num(0x6161_6161)];
    assert ParseFields(ms, data, 0, i) == Got([Str(text), Num(0x6161_6161)], TWO16 + 4);
  }

  // ----- a parameter that is a list of structs -----

  /** The list; or a read past the end; or, when an element takes no bytes, a loop that never ends. */
  datatype Listed = Elements(items: seq<Value>) | PastEnd | Endless

  /** The loop of a parsing constructor over the whole parameter. The length of a parameter is a 16-bit number. */
  function ParseList(t: Type, data: seq<byte>, at: nat): Listed
    decreases |data| - at
  {
    if at >= |data| % TWO16 then Elements([])
    else
      match Parse(t, data, at)
      case Past => PastEnd
      case Got(v, next) =>
        if next == at then Endless
        else
          match ParseList(t, data, next)
          case Elements(items) => Elements([v] + items)
          case other => other
  }

  /** Element k takes a byte at least, starts before the length that the parameter reports, and has no number that is
      looked for elsewhere. */
  ghost predicate Reached(t: Type, items: seq<Value>, k: nat)
    requires k < |items| && forall i :: 0 <= i < |items| ==> Has(t, items[i])
  {
    var data, at := SerItems(t, items, |items|), |SerItems(t, items, k)|;
    |Ser(t, items[k])| >= 1 && at < |data| % TWO16 && SameBytes(t, items[k], data, at)
  }

  lemma {:induction false} ItemInList(t: Type, items: seq<Value>, k: nat, n: nat)
    requires k < n <= |items| && forall i :: 0 <= i < |items| ==> Has(t, items[i])
    ensures At(SerItems(t, items, n), |SerItems(t, items, k)|, Ser(t, items[k]))
    ensures |SerItems(t, items, k + 1)| == |SerItems(t, items, k)| + |Ser(t, items[k])| <= |SerItems(t, items, n)|
    decreases n
  {
    hide Has, Ser, SerItems, At;
    OneMoreItem(t, items, k + 1);
    OneMoreItem(t, items, n);
    if k == n - 1 {
      AtEnd(SerItems(t, items, k), Ser(t, items[k]));
    } else {
      ItemInList(t, items, k, n - 1);
      AtStill(SerItems(t, items, n - 1), Ser(t, items[n - 1]), |SerItems(t, items, k)|, Ser(t, items[k]));
    }
  }

  lemma OneMoreItem(t: Type, items: seq<Value>, n: nat)
    requires 1 <= n <= |items| && forall i :: 0 <= i < |items| ==> Has(t, items[i])
    ensures SerItems(t, items, n) == SerItems(t, items, n - 1) + Ser(t, items[n - 1])
  {
  }

  lemma AtEnd(front: seq<byte>, s: seq<byte>)
    ensures At(front + s, |front|, s)
  {
  }

  lemma AtStill(front: seq<byte>, more: seq<byte>, at: nat, s: seq<byte>)
    requires At(front, at, s)
    ensures At(front + more, at, s)
  {
    assert (front + more)[at..at + |s|] == front[at..at + |s|];
  }

  lemma {:induction false} ListFrom(t: Type, items: seq<Value>, k: nat)
    requires k <= |items| && forall i :: 0 <= i < |items| ==> Has(t, items[i]) && Sound(t, items[i])
    ensures var data := SerItems(t, items, |items|);
            && |SerItems(t, items, k)| <= |data|
            && (ParseList(t, data, |SerItems(t, items, k)|) == Elements(items[k..])
                <==> forall i :: k <= i < |items| ==> Reached(t, items, i))
    decreases |items| - k
  {
    hide Has, Sound, Ser, Parse, SerItems, Reached, Each, SameBytes, FoundIn;
    var data, at := SerItems(t, items, |items|), |SerItems(t, items, k)|;
    if k < |items| {
      ItemInList(t, items, k, |items|);
      ReadExactly(t, items[k], data, at);
      FoundWhereWritten(t, items[k], data, at);
      assert items[k..] == [items[k]] + items[k + 1..];
      OneMore(t, items, k);
      ReachedHere(t, items, k);
      if !SameBytes(t, items[k], data, at) {
        OtherFirst(t, items, k);
      } else if |Ser(t, items[k])| >= 1 {
        ListFrom(t, items, k + 1);
      }
    }
  }

  /** An element that is not read back is not in the list that is read. */
  lemma OtherFirst(t: Type, items: seq<Value>, k: nat)
    requires k < |items| && forall i :: 0 <= i < |items| ==> Has(t, items[i])
    requires var data, at := SerItems(t, items, |items|), |SerItems(t, items, k)|;
             Parse(t, data, at) != Got(items[k], at + |Ser(t, items[k])|)
    ensures ParseList(t, SerItems(t, items, |items|), |SerItems(t, items, k)|) != Elements(items[k..])
  {
    hide Has, Ser, Parse, SerItems, Sound;
    var data, at := SerItems(t, items, |items|), |SerItems(t, items, k)|;
    if Parse(t, data, at).Got? {
      WriteBackAt(t, data, at);
    }
  }

  lemma ReachedHere(t: Type, items: seq<Value>, k: nat)
    requires k < |items| && forall i :: 0 <= i < |items| ==> Has(t, items[i])
    ensures var data, at := SerItems(t, items, |items|), |SerItems(t, items, k)|;
            Reached(t, items, k) <==>
              |Ser(t, items[k])| >= 1 && at < |data| % TWO16 && SameBytes(t, items[k], data, at)
  {
  }

  lemma OneMore(t: Type, items: seq<Value>, k: nat)
    requires k < |items| && forall i :: 0 <= i < |items| ==> Has(t, items[i])
    ensures (forall i :: k <= i < |items| ==> Reached(t, items, i)) <==>
            Reached(t, items, k) && forall i :: k + 1 <= i < |items| ==> Reached(t, items, i)
  {
    hide Reached, Has;
  }

  /** A list of structs written into one parameter of at most 65535 bytes is read back if and only if every element
      takes at least one byte. */
  lemma ListRoundTrip(t: Type, items: seq<Value>)
    requires forall i :: 0 <= i < |items| ==> Has(t, items[i]) && Sound(t, items[i])
    requires |SerItems(t, items, |items|)| < TWO16
    ensures ParseList(t, SerItems(t, items, |items|), 0) == Elements(items) <==>
            forall i :: 0 <= i < |items| ==> |Ser(t, items[i])| >= 1
  {
    hide Has, Sound, Ser, Parse, ParseList;
    ListFrom(t, items, 0);
    assert items[0..] == items && |SerItems(t, items, 0)| == 0;
    forall i | 0 <= i < |items|
      ensures Reached(t, items, i) <==> |Ser(t, items[i])| >= 1
    {
      hide SerItems;
      ItemInList(t, items, i, |items|);
      ShortIsSame(t, items[i], SerItems(t, items, |items|), |SerItems(t, items, i)|);
    }
  }

  /** Longer parameters: the reported length wraps around, and elements from there on are lost, as well as numbers of
      the last element that is read when they start at index 65536 or later. */
  lemma LongListRoundTrip(t: Type, items: seq<Value>)
    requires forall i :: 0 <= i < |items| ==> Has(t, items[i]) && Sound(t, items[i])
    ensures ParseList(t, SerItems(t, items, |items|), 0) == Elements(items) <==>
            forall i :: 0 <= i < |items| ==> Reached(t, items, i)
  {
    hide Has, Sound, Ser, Parse, ParseList, Reached;
    ListFrom(t, items, 0);
    assert items[0..] == items && |SerItems(t, items, 0)| == 0;
  }

  /** A list of 65536 structs of one byte each is read back as the empty list. */
  lemma LongListLost()
    ensures var t := Struct([Member(Simple(Uint8), Single)]);
            var items := seq(TWO16, i => Record([Num(0)]));
            && (forall i :: 0 <= i < |items| ==> Has(t, items[i]) && Sound(t, items[i]))
            && ParseList(t, SerItems(t, items, |items|), 0) == Elements([])
  {
    var t := Struct([Member(Simple(Uint8), Single)]);
    var v := Record([Num(0)]);
    var items := seq(TWO16, i => v);
    OneByteStruct(t, v);
    OneByteItems(t, items, |items|);
  }

  lemma OneByteStruct(t: Type, v: Value)
    requires t == Struct([Member(Simple(Uint8), Single)]) && v == Record([Num(0)])
    ensures Has(t, v) && Sound(t, v) && |Ser(t, v)| == 1
  {
    var ms, i := t.members, 1;
    assert SerFields(ms, v.fields, i) == SerFields(ms, v.fields, i - 1) + SerMember(ms[0], v.fields[0]);
    assert SerMember(ms[0], v.fields[0]) == [0];
  }

  lemma {:induction false} OneByteItems(t: Type, items: seq<Value>, j: nat)
    requires j <= |items| && forall i :: 0 <= i < |items| ==> Has(t, items[i]) && |Ser(t, items[i])| == 1
    ensures |SerItems(t, items, j)| == j
    decreases j
  {
    hide Has, Ser;
    if j > 0 {
      OneByteItems(t, items, j - 1);
    }
  }

  // ----- the emitted code, statement by statement -----

  /** serialize(param): every member in order, arrays element by element. */
  method Serialize(param: NParam, t: Type, v: Value)
    requires Has(t, v)
    modifies param`buff
    ensures param.buff == old(param.buff) + Ser(t, v)
    decreases t, 0
  {
    match t
    case Simple(p) => AddSimple(param, p, v);
    case Struct(ms) =>
      for i := 0 to |ms|
        invariant param.buff == old(param.buff) + SerFields(ms, v.fields, i)
      {
        SerializeMember(param, ms[i], v.fields[i]);
      }
  }

  method SerializeMember(param: NParam, m: Member, v: Value)
    requires MemberHas(m, v)
    modifies param`buff
    ensures param.buff == old(param.buff) + SerMember(m, v)
    decreases m, 0
  {
    if m.size.Single? {
      Serialize(param, m.type_, v);
    } else {
      for j := 0 to |v.items|
        invariant param.buff == old(param.buff) + SerItems(m.type_, v.items, j)
      {
        Serialize(param, m.type_, v.items[j]);
      }
    }
  }

  method AddSimple(param: NParam, p: Prim, v: Value)
    requires Has(Simple(p), v)
    modifies param`buff
    ensures param.buff == old(param.buff) + SerSimple(p, v)
  {
    match p
    case Uint8 => param.AddUint8(v.n);
    case Uint16 => param.AddUint16(v.n);
    case Uint32 => param.AddUint32(v.n);
    case Int32 => param.AddInt32(v.n);
    case Text => param.AddString(v.s);
  }

  /** The constructor: reads each member and moves the index on. Past stands for a read past the end, which the
      source does not check for. */
  method Construct(param: NParam, t: Type, index: nat) returns (r: Parsed<Value>)
    ensures r == Parse(t, param.buff, index)
    decreases t, 0
  {
    match t
    case Simple(p) => r := GetSimple(param, p, index);
    case Struct(ms) =>
      var fields: seq<Value>, next: nat := [], index;
      for i := 0 to |ms|
        invariant ParseFields(ms, param.buff, index, i) == Got(fields, next)
      {
        var field := ConstructMember(param, ms[i], fields, next);
        if field.Past? {
          FieldsPast(ms, param.buff, index, i + 1, |ms|);
          return Past;
        }
        fields, next := fields + [field.value], field.next;
      }
      r := Got(Record(fields), next);
  }

  lemma {:induction false} FieldsPast(ms: seq<Member>, data: seq<byte>, at: nat, i: nat, n: nat)
    requires i <= n <= |ms| && ParseFields(ms, data, at, i).Past?
    ensures ParseFields(ms, data, at, n).Past?
    decreases n
  {
    if i < n {
      FieldsPast(ms, data, at, i, n - 1);
    }
  }

  method ConstructMember(param: NParam, m: Member, before: seq<Value>, index: nat) returns (r: Parsed<Value>)
    ensures r == ParseMember(m, before, param.buff, index)
    decreases m, 0
  {
    if m.size.Single? {
      r := Construct(param, m.type_, index);
    } else {
      var items: seq<Value>, next: nat := [], index;
      for i := 0 to Count(m.size, before)
        invariant ParseItems(m.type_, param.buff, index, i) == Got(items, next)
      {
        var item := Construct(param, m.type_, next);
        if item.Past? {
          ItemsPast(m.type_, param.buff, index, i + 1, Count(m.size, before));
          return Past;
        }
        items, next := items + [item.value], item.next;
      }
      r := Got(List(items), next);
    }
  }

  lemma {:induction false} ItemsPast(t: Type, data: seq<byte>, at: nat, i: nat, n: nat)
    requires i <= n && ParseItems(t, data, at, i).Past?
    ensures ParseItems(t, data, at, n).Past?
    decreases n
  {
    if i < n {
      ItemsPast(t, data, at, i, n - 1);
    }
  }

  method GetSimple(param: NParam, p: Prim, index: nat) returns (r: Parsed<Value>)
    ensures r == ParseSimple(p, param.buff, index)
  {
    var size := |param.buff|;
    if (if p.Text? then index > size || NulAt(param.buff, index) == size
        else Place(p, index) + (if p.Uint8? then 1 else if p.Uint16? then 2 else 4) > size) {
      return Past;
    }
    match p
    case Uint8 => var v, next := param.IncGetUint8(index); r := Got(Num(v), next);
    case Uint16 =>
      var v, next := param.IncGetUint16(index);
      Get16Be16(v, param.buff, index);
      r := Got(Num(v), next);
    case Uint32 =>
      var v, next := param.IncGetUint32(index);
      Get32Be32(v, param.buff, Place(p, index));
      r := Got(Num(v), next);
    case Int32 =>
      var v, next := param.IncGetInt32(index);
      Get32Be32(Wrap(v, TWO32), param.buff, index);
      r := Got(Num(v), next);
    case Text => var v, next := param.IncGetString(index); r := Got(Str(v), next);
  }

  /** The loop of a packet constructor over a parameter that is a list of structs. */
  method ConstructList(param: NParam, t: Type) returns (r: Listed)
    ensures r == ParseList(t, param.buff, 0)
  {
    var items: seq<Value>, index: nat := [], 0;
    while index < |param.buff| % TWO16
      invariant ParseList(t, param.buff, 0) == Prepend(items, ParseList(t, param.buff, index))
      decreases |param.buff| - index
    {
      var item := Construct(param, t, index);
      if item.Past? {
        return PastEnd;
      }
      if item.next == index {
        return Endless;
      }
      PrependNext(items, item.value, ParseList(t, param.buff, item.next));
      items, index := items + [item.value], item.next;
    }
    r := Elements(items);
  }

  function Prepend(items: seq<Value>, rest: Listed): Listed {
    if rest.Elements? then Elements(items + rest.items) else rest
  }

  lemma PrependNext(items: seq<Value>, v: Value, rest: Listed)
    ensures Prepend(items, Prepend([v], rest)) == Prepend(items + [v], rest)
  {
    if rest.Elements? {
      assert items + ([v] + rest.items) == (items + [v]) + rest.items;
    }
  }
}
