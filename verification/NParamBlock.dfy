/** NParamBlock: the tagged parameters of a packet in the order of their ids, and their bytes. */
module NParamBlock {
  import opened Bits
  import opened Wire
  import opened NParam

  // ----- the multiset of parameters, as a list in id order -----

  ghost predicate Sorted(ps: seq<Param>) {
    forall i, j :: 0 <= i < j < |ps| ==> ps[i].id <= ps[j].id
  }

  /** The first place with a larger id. */
  function UpperBound(ps: seq<Param>, id: nat): (k: nat)
    ensures k <= |ps| && (k < |ps| ==> ps[k].id > id) && forall i :: 0 <= i < k ==> ps[i].id <= id
  {
    if |ps| == 0 || ps[0].id > id then 0 else 1 + UpperBound(ps[1..], id)
  }

  /** The first place whose id is not smaller. */
  function LowerBound(ps: seq<Param>, id: nat): (k: nat)
    ensures k <= |ps| && (k < |ps| ==> ps[k].id >= id) && forall i :: 0 <= i < k ==> ps[i].id < id
  {
    if |ps| == 0 || ps[0].id >= id then 0 else 1 + LowerBound(ps[1..], id)
  }

  /** std::multiset::insert: behind the elements that compare equal. */
  function Insert(ps: seq<Param>, p: Param): seq<Param> {
    var k := UpperBound(ps, p.id);
    ps[..k] + [p] + ps[k..]
  }

  function InsertAll(ps: seq<Param>, more: seq<Param>): seq<Param> {
    if |more| == 0 then ps else Insert(InsertAll(ps, more[..|more| - 1]), more[|more| - 1])
  }

  /** The parameters with an id, or all others, in their order. */
  function Select(ps: seq<Param>, id: nat, same: bool): seq<Param> {
    if |ps| == 0 then [] else Pick(ps[0], (ps[0].id == id) == same) + Select(ps[1..], id, same)
  }

  function Pick(p: Param, take: bool): seq<Param> {
    if take then [p] else []
  }

  function With(ps: seq<Param>, id: nat): seq<Param> {
    Select(ps, id, true)
  }

  function Without(ps: seq<Param>, id: nat): seq<Param> {
    Select(ps, id, false)
  }

  lemma {:induction false} SelectConcat(a: seq<Param>, b: seq<Param>, id: nat, same: bool)
    ensures Select(a + b, id, same) == Select(a, id, same) + Select(b, id, same)
    decreases |a|
  {
    hide Pick, Select;
    if |a| == 0 {
      assert a + b == b && a == [];
      SelectEmpty(id, same);
    } else {
      var t := a[1..];
      SelectConcat(t, b, id, same);
      assert a == [a[0]] + t && a + b == [a[0]] + (t + b);
      SelectFirst(a[0], t, id, same);
      SelectFirst(a[0], t + b, id, same);
      ConcatAssoc(Pick(a[0], (a[0].id == id) == same), Select(t, id, same), Select(b, id, same));
    }
  }

  lemma SelectFirst(p: Param, rest: seq<Param>, id: nat, same: bool)
    ensures Select([p] + rest, id, same) == Pick(p, (p.id == id) == same) + Select(rest, id, same)
  {
    assert ([p] + rest)[1..] == rest;
  }

  lemma SelectEmpty(id: nat, same: bool)
    ensures Select([], id, same) == []
  {
  }

  lemma {:induction false} SelectNone(ps: seq<Param>, id: nat, same: bool)
    requires forall i :: 0 <= i < |ps| ==> (ps[i].id == id) != same
    ensures Select(ps, id, same) == []
  {
    if |ps| > 0 {
      SelectNone(ps[1..], id, same);
    }
  }

  lemma {:induction false} SelectAll(ps: seq<Param>, id: nat, same: bool)
    requires forall i :: 0 <= i < |ps| ==> (ps[i].id == id) == same
    ensures Select(ps, id, same) == ps
  {
    if |ps| > 0 {
      SelectAll(ps[1..], id, same);
    }
  }

  /** Inserting keeps the order of ids, adds just p, and puts it behind the parameters with its id. */
  lemma InsertKeepsOrder(ps: seq<Param>, p: Param, id: nat)
    requires Sorted(ps)
    ensures Sorted(Insert(ps, p)) && multiset(Insert(ps, p)) == multiset(ps) + multiset{p}
    ensures With(Insert(ps, p), id) == With(ps, id) + (if p.id == id then [p] else [])
  {
    hide Select, Pick, Sorted;
    var k := UpperBound(ps, p.id);
    var low, high := ps[..k], ps[k..];
    AboveBound(ps, p.id);
    assert ps == low + high;
    InsertWith(low, p, high, id);
    InsertSortedHere(low, p, high);
    PickOne(p, p.id == id);
  }

  lemma AboveBound(ps: seq<Param>, id: nat)
    requires Sorted(ps)
    ensures forall i :: 0 <= i < |ps[UpperBound(ps, id)..]| ==> ps[UpperBound(ps, id)..][i].id > id
  {
  }

  lemma PickOne(p: Param, take: bool)
    ensures Pick(p, take) == if take then [p] else []
  {
  }

  lemma InsertSortedHere(low: seq<Param>, p: Param, high: seq<Param>)
    requires Sorted(low + high)
    requires forall i :: 0 <= i < |low| ==> low[i].id <= p.id
    requires forall i :: 0 <= i < |high| ==> p.id <= high[i].id
    ensures Sorted(low + [p] + high) && multiset(low + [p] + high) == multiset(low + high) + multiset{p}
  {
    var both, all := low + high, low + [p] + high;
    assert forall i :: 0 <= i < |low| ==> all[i] == both[i];
    assert forall i :: |low| < i < |all| ==> all[i] == both[i - 1] == high[i - 1 - |low|];
  }

  lemma InsertWith(low: seq<Param>, p: Param, high: seq<Param>, id: nat)
    requires forall i :: 0 <= i < |high| ==> high[i].id > p.id
    ensures With(low + [p] + high, id) == With(low + high, id) + Pick(p, p.id == id)
  {
    hide Select, Pick;
    SelectConcat(low, high, id, true);
    SelectConcat(low + [p], high, id, true);
    SelectConcat(low, [p], id, true);
    if p.id == id {
      SelectNone(high, id, true);
    }
    SelectOne(p, id);
  }

  lemma SelectOne(p: Param, id: nat)
    ensures Select([p], id, true) == Pick(p, p.id == id)
    ensures p.id != id ==> Pick(p, p.id == id) == []
  {
    assert [p][1..] == [];
  }

  /** What equal_range finds is all parameters with the id; the rest is what erase leaves. */
  lemma EqualRange(ps: seq<Param>, id: nat)
    requires Sorted(ps)
    ensures LowerBound(ps, id) <= UpperBound(ps, id)
    ensures ps[LowerBound(ps, id)..UpperBound(ps, id)] == With(ps, id)
    ensures ps[..LowerBound(ps, id)] + ps[UpperBound(ps, id)..] == Without(ps, id)
  {
    var lo, hi := LowerBound(ps, id), UpperBound(ps, id);
    assert ps == ps[..lo] + ps[lo..hi] + ps[hi..];
    ThreeParts(ps[..lo], ps[lo..hi], ps[hi..], id);
  }

  lemma ThreeParts(low: seq<Param>, same: seq<Param>, high: seq<Param>, id: nat)
    requires forall i :: 0 <= i < |low| ==> low[i].id != id
    requires forall i :: 0 <= i < |same| ==> same[i].id == id
    requires forall i :: 0 <= i < |high| ==> high[i].id != id
    ensures With(low + same + high, id) == same && Without(low + same + high, id) == low + high
  {
    hide Select;
    SelectConcat(low + same, high, id, true);
    SelectConcat(low, same, id, true);
    SelectConcat(low + same, high, id, false);
    SelectConcat(low, same, id, false);
    SelectNone(low, id, true);
    SelectAll(low, id, false);
    SelectAll(same, id, true);
    SelectNone(same, id, false);
    SelectNone(high, id, true);
    SelectAll(high, id, false);
  }

  /** Inserting parameters that come in id order appends them. */
  lemma {:induction false} InsertSorted(ps: seq<Param>)
    requires Sorted(ps)
    ensures InsertAll([], ps) == ps
    decreases |ps|
  {
    if |ps| > 0 {
      var front, p := ps[..|ps| - 1], ps[|ps| - 1];
      InsertSorted(front);
      assert UpperBound(front, p.id) == |front|;
      assert front[..|front|] + [p] + front[|front|..] == ps;
    }
  }

  lemma {:induction false} InsertAllSorted(ps: seq<Param>, more: seq<Param>)
    requires Sorted(ps)
    ensures Sorted(InsertAll(ps, more))
    decreases |more|
  {
    if |more| > 0 {
      InsertAllSorted(ps, more[..|more| - 1]);
      InsertKeepsOrder(InsertAll(ps, more[..|more| - 1]), more[|more| - 1], 0);
    }
  }

  // ----- the bytes of a parameter -----

  /** The length field is 16 bits wide, whatever the length. */
  function Record(p: Param): seq<byte>
    requires p.id < TWO16
  {
    Be16(p.id) + Be16(|p.buff| % TWO16) + p.buff
  }

  ghost predicate Ids(ps: seq<Param>) {
    forall i :: 0 <= i < |ps| ==> ps[i].id < TWO16
  }

  function Records(ps: seq<Param>): seq<byte>
    requires Ids(ps)
  {
    if |ps| == 0 then [] else Records(ps[..|ps| - 1]) + Record(ps[|ps| - 1])
  }

  /** Parameters whose length field tells their length. */
  ghost predicate Short(ps: seq<Param>) {
    forall i :: 0 <= i < |ps| ==> ps[i].id < TWO16 && |ps[i].buff| < TWO16
  }

  /** The end of the longest run of complete records, and the parameters in it. */
  function Scan(s: seq<byte>, at: nat): (r: (seq<Param>, nat))
    requires at <= |s|
    ensures at <= r.1 <= |s|
    decreases |s| - at
  {
    if at + 4 > |s| || at + 4 + Get16(s, at + 2) > |s| then ([], at)
    else
      var next := at + 4 + Get16(s, at + 2);
      var r := Scan(s, next);
      ([Param(Get16(s, at), s[at + 4..next])] + r.0, r.1)
  }

  /** Bytes that are the records of some parameters. */
  ghost predicate AreRecords(s: seq<byte>) {
    exists ps :: Short(ps) && s == Records(ps)
  }

  lemma {:induction false} RecordsFirst(p: Param, ps: seq<Param>)
    requires p.id < TWO16 && Ids(ps)
    ensures Ids([p] + ps) && Records([p] + ps) == Record(p) + Records(ps)
    decreases |ps|
  {
    hide Record;
    var all := [p] + ps;
    if |ps| == 0 {
      assert all == [p] && all[..0] == [] && Records(all) == Records([]) + Record(p);
    } else {
      var front, last := ps[..|ps| - 1], ps[|ps| - 1];
      RecordsFirst(p, front);
      assert all[..|all| - 1] == [p] + front && all[|all| - 1] == last;
      ConcatAssoc(Record(p), Records(front), Record(last));
    }
  }

  /** What is scanned are the records of what was found. */
  lemma {:induction false} ScanFinds(s: seq<byte>, at: nat)
    requires at <= |s|
    ensures Short(Scan(s, at).0) && s[at..Scan(s, at).1] == Records(Scan(s, at).0)
    decreases |s| - at
  {
    hide Get16, Records, Record;
    if at + 4 > |s| || at + 4 + Get16(s, at + 2) > |s| {
      assert s[at..at] == [];
      NoRecords();
    } else {
      var next := at + 4 + Get16(s, at + 2);
      ScanFinds(s, next);
      RecordAt(s, at);
      Get16Bound(s, at);
      var (ps, end) := Scan(s, next);
      var p := Param(Get16(s, at), s[at + 4..next]);
      RecordsFirst(p, ps);
      TwoParts(s, at, next, end);
    }
  }

  lemma NoRecords()
    ensures Records([]) == []
  {
  }

  lemma TwoParts(s: seq<byte>, a: nat, b: nat, c: nat)
    requires a <= b <= c <= |s|
    ensures s[a..c] == s[a..b] + s[b..c]
  {
  }

  lemma RecordAt(s: seq<byte>, at: nat)
    requires at + 4 <= |s| && at + 4 + Get16(s, at + 2) <= |s|
    ensures var next := at + 4 + Get16(s, at + 2);
            s[at..next] == Record(Param(Get16(s, at), s[at + 4..next]))
  {
    hide Be16, Get16;
    var next := at + 4 + Get16(s, at + 2);
    Get16Bound(s, at);
    Get16Be16(Get16(s, at), s, at);
    Get16Be16(Get16(s, at + 2), s, at + 2);
    assert s[at..next] == s[at..at + 2] + s[at + 2..at + 4] + s[at + 4..next];
  }

  /** Records are found wherever they stand. */
  lemma {:induction false} ScanRecords(s: seq<byte>, at: nat, ps: seq<Param>)
    requires Short(ps) && at <= |s| && s[at..] == Records(ps)
    ensures Scan(s, at) == (ps, |s|)
    decreases |ps|
  {
    hide Get16, Records, Record;
    if ps == [] {
      NoRecords();
      assert |s[at..]| == 0;
    } else {
      var p := ps[0];
      assert ps == [p] + ps[1..];
      RecordsFirst(p, ps[1..]);
      FrontAndRest(s, at, Record(p), Records(ps[1..]));
      ReadRecord(s, at, p);
      ScanRecords(s, at + |Record(p)|, ps[1..]);
    }
  }

  lemma FrontAndRest(s: seq<byte>, at: nat, front: seq<byte>, rest: seq<byte>)
    requires at <= |s| && s[at..] == front + rest
    ensures at + |front| <= |s| && s[at..at + |front|] == front && s[at + |front|..] == rest
  {
    assert |s[at..]| == |front| + |rest|;
    assert s[at..at + |front|] == s[at..][..|front|] && s[at + |front|..] == s[at..][|front|..];
  }

  lemma ReadRecord(s: seq<byte>, at: nat, p: Param)
    requires p.id < TWO16 && |p.buff| < TWO16 && at + |Record(p)| <= |s| && s[at..at + |Record(p)|] == Record(p)
    ensures at + 4 <= |s| && Get16(s, at) == p.id && Get16(s, at + 2) == |p.buff|
    ensures at + 4 + |p.buff| == at + |Record(p)| && s[at + 4..at + 4 + |p.buff|] == p.buff
  {
    hide Be16, Get16;
    var r := Record(p);
    var whole := s[at..at + |r|];
    BeTwo(p.id);
    BeTwo(|p.buff|);
    assert r == Be16(p.id) + Be16(|p.buff|) + p.buff;
    Parts(Be16(p.id), Be16(|p.buff|), p.buff);
    SubSlice(s, at, at + |r|, 0, 2);
    SubSlice(s, at, at + |r|, 2, 4);
    SubSlice(s, at, at + |r|, 4, |r|);
    assert whole[0..2] == whole[..2] && whole[4..|r|] == whole[4..];
    Get16Be16(p.id, s, at);
    Get16Be16(|p.buff|, s, at + 2);
  }

  lemma BeTwo(v: nat)
    requires v < TWO16
    ensures |Be16(v)| == 2
  {
  }

  lemma Parts(a: seq<byte>, b: seq<byte>, c: seq<byte>)
    requires |a| == |b| == 2
    ensures (a + b + c)[..2] == a && (a + b + c)[2..4] == b && (a + b + c)[4..] == c && |a + b + c| == 4 + |c|
  {
  }

  /** All bytes are used up if and only if they are the records of some parameters. */
  lemma ScanExact(s: seq<byte>, at: nat)
    requires at <= |s|
    ensures Scan(s, at).1 == |s| <==> AreRecords(s[at..])
  {
    ScanFinds(s, at);
    if Scan(s, at).1 == |s| {
      assert s[at..|s|] == s[at..];
    }
    if AreRecords(s[at..]) {
      var ps :| Short(ps) && s[at..] == Records(ps);
      ScanRecords(s, at, ps);
    }
  }

  // ----- the bytes of a block -----

  /** The first flag word; protocol versions before 12 have none. */
  function FlagWord(buff: seq<byte>, protVer: nat): (flags: nat)
    ensures flags < TWO32
  {
    if protVer >= 0xc && 4 <= |buff| then Get32(buff, 0) else 0
  }

  /** Each flag word with its top bit set is followed by another one. The function that reads a word takes a 16-bit
      index, so that words from index 65536 on are looked for at the index modulo 65536. */
  function MoreFlags(buff: seq<byte>, pos: nat, flags: nat): (end: nat)
    requires pos <= |buff|
    ensures pos <= end <= |buff|
    decreases |buff| - pos
  {
    if flags >= TWO31 && pos + 4 <= |buff| then MoreFlags(buff, pos + 4, Get32(buff, pos % TWO16)) else pos
  }

  function FlagsEnd(buff: seq<byte>, protVer: nat): (end: nat)
    ensures end <= |buff|
  {
    if protVer >= 0xc && 4 <= |buff| then MoreFlags(buff, 4, Get32(buff, 0)) else 0
  }

  /** Where the flag words end when every word is read where it stands. */
  function StraightEnd(buff: seq<byte>, pos: nat, flags: nat): (end: nat)
    requires pos <= |buff|
    ensures pos <= end <= |buff|
    decreases |buff| - pos
  {
    if flags >= TWO31 && pos + 4 <= |buff| then StraightEnd(buff, pos + 4, Get32(buff, pos)) else pos
  }

  /** The flag words end where they are written to end if and only if that is not behind index 65536, or they fill the
      whole block. */
  lemma FlagsExactly(buff: seq<byte>)
    requires 4 <= |buff|
    ensures var end := StraightEnd(buff, 4, Get32(buff, 0));
            MoreFlags(buff, 4, Get32(buff, 0)) == end <==> end <= TWO16 || end + 4 > |buff|
  {
    hide MoreFlags, StraightEnd, Get32;
    var first := Get32(buff, 0);
    if StraightEnd(buff, 4, first) <= TWO16 {
      SameBelow(buff, 4, first);
    } else {
      AllMarked(buff, 4, first);
      RunsToEnd(buff, 4, first);
      StraightSteps(buff, 4, first);
    }
  }

  lemma {:induction false} SameBelow(buff: seq<byte>, pos: nat, flags: nat)
    requires pos <= |buff| && StraightEnd(buff, pos, flags) <= TWO16
    ensures MoreFlags(buff, pos, flags) == StraightEnd(buff, pos, flags)
    decreases |buff| - pos
  {
    hide Get32;
    if flags >= TWO31 && pos + 4 <= |buff| {
      SameBelow(buff, pos + 4, Get32(buff, pos));
    }
  }

  /** All words below index 65536 say that another one follows. */
  ghost predicate Marked(buff: seq<byte>, from: nat) {
    forall i {:trigger Get32(buff, i)} :: from <= i < TWO16 && i % 4 == 0 ==> i + 4 <= |buff| && Get32(buff, i) >= TWO31
  }

  lemma {:induction false} AllMarked(buff: seq<byte>, pos: nat, flags: nat)
    requires pos <= |buff| && pos % 4 == 0 && pos <= TWO16 && StraightEnd(buff, pos, flags) > TWO16
    ensures flags >= TWO31 && Marked(buff, pos)
    decreases |buff| - pos
  {
    hide Get32;
    if pos < TWO16 {
      AllMarked(buff, pos + 4, Get32(buff, pos));
      forall i | pos <= i < TWO16 && i % 4 == 0
        ensures i + 4 <= |buff| && Get32(buff, i) >= TWO31
      {
        assert i == pos || i >= pos + 4;
      }
    }
  }

  lemma {:induction false} RunsToEnd(buff: seq<byte>, pos: nat, flags: nat)
    requires 4 <= pos <= |buff| && pos % 4 == 0 && flags >= TWO31
    requires Marked(buff, 4) && Get32(buff, 0) >= TWO31
    ensures var end := MoreFlags(buff, pos, flags); end % 4 == 0 && end + 4 > |buff|
    decreases |buff| - pos
  {
    hide Get32, Marked;
    if pos + 4 <= |buff| {
      MarkedAt(buff, pos);
      RunsToEnd(buff, pos + 4, Get32(buff, pos % TWO16));
    }
  }

  lemma MarkedAt(buff: seq<byte>, pos: nat)
    requires pos % 4 == 0 && 4 <= |buff| && Marked(buff, 4) && Get32(buff, 0) >= TWO31
    ensures pos % TWO16 + 4 <= |buff| && Get32(buff, pos % TWO16) >= TWO31
  {
    hide Get32;
    var r := pos % TWO16;
    WordIndex(pos, pos / TWO16, r);
    if r > 0 {
      assert 4 <= r < TWO16;
      assert Get32(buff, r) >= TWO31;
    }
  }

  lemma WordIndex(pos: nat, q: nat, r: nat)
    requires pos % 4 == 0 && pos == TWO16 * q + r
    ensures r % 4 == 0
  {
    assert r == 4 * (pos / 4 - 0x4000 * q);
  }

  lemma {:induction false} StraightSteps(buff: seq<byte>, pos: nat, flags: nat)
    requires pos <= |buff| && pos % 4 == 0
    ensures StraightEnd(buff, pos, flags) % 4 == 0
    decreases |buff| - pos
  {
    hide Get32;
    if flags >= TWO31 && pos + 4 <= |buff| {
      StraightSteps(buff, pos + 4, Get32(buff, pos));
    }
  }

  /** 16384 flag words that each announce another one, one that does not, and a record: the last flag word is looked
      for among the first ones, and the block is found valid, without parameters. */
  lemma RecordTakenForFlags(words: seq<byte>, p: Param, unzip: Gunzip)
    requires |words| == TWO16 && forall i :: 0 <= i < TWO16 ==> words[i] == if i % 4 == 0 then 0x80 else 0
    requires p.id < TWO16 && |p.buff| < TWO16 && |p.buff| % 4 == 0
    ensures var buff := words + [0, 0, 0, 0] + Record(p);
            && StraightEnd(buff, 4, Get32(buff, 0)) == TWO16 + 4 && AreRecords(buff[TWO16 + 4..])
            && FlagsEnd(buff, 0xc) == |buff| && Holds([], true, buff, 0xc, unzip)
  {
    hide MoreFlags, StraightEnd, Scan, Get32, Record;
    var buff := words + [0, 0, 0, 0] + Record(p);
    MarkedWords(buff);
    AllThenZero(buff, 4, TWO31);
    RunsToEnd(buff, 4, TWO31);
    RecordSize(p);
    OneRecord(buff, p);
    NothingLeft(buff);
  }

  lemma RecordSize(p: Param)
    requires p.id < TWO16
    ensures |Record(p)| == 4 + |p.buff|
  {
  }

  lemma MarkedWords(buff: seq<byte>)
    requires |buff| >= TWO16 + 4 && buff[TWO16..TWO16 + 4] == [0, 0, 0, 0]
    requires forall i :: 0 <= i < TWO16 ==> buff[i] == if i % 4 == 0 then 0x80 else 0
    ensures Get32(buff, TWO16) == 0
    ensures forall i {:trigger Get32(buff, i)} :: 0 <= i < TWO16 && i % 4 == 0 ==> Get32(buff, i) == TWO31
  {
    assert buff[TWO16] == buff[TWO16..TWO16 + 4][0] && buff[TWO16 + 1] == buff[TWO16..TWO16 + 4][1];
    assert buff[TWO16 + 2] == buff[TWO16..TWO16 + 4][2] && buff[TWO16 + 3] == buff[TWO16..TWO16 + 4][3];
    forall i | 0 <= i < TWO16 && i % 4 == 0
      ensures Get32(buff, i) == TWO31
    {
      assert (i + 1) % 4 == 1 && (i + 2) % 4 == 2 && (i + 3) % 4 == 3;
    }
  }

  lemma {:induction false} AllThenZero(buff: seq<byte>, pos: nat, flags: nat)
    requires |buff| >= TWO16 + 4 && pos <= TWO16 && pos % 4 == 0 && flags == TWO31 && Get32(buff, TWO16) == 0
    requires forall i {:trigger Get32(buff, i)} :: 0 <= i < TWO16 && i % 4 == 0 ==> Get32(buff, i) == TWO31
    ensures StraightEnd(buff, pos, flags) == TWO16 + 4
    decreases TWO16 - pos
  {
    hide Get32;
    if pos < TWO16 {
      AllThenZero(buff, pos + 4, Get32(buff, pos));
    } else {
      assert StraightEnd(buff, pos + 4, 0) == pos + 4;
    }
  }

  lemma OneRecord(buff: seq<byte>, p: Param)
    requires p.id < TWO16 && |p.buff| < TWO16 && |buff| >= TWO16 + 4 && buff[TWO16 + 4..] == Record(p)
    ensures AreRecords(buff[TWO16 + 4..])
  {
    hide Record;
    assert [p][..0] == [] && Records([p]) == Records([]) + Record(p);
    assert Short([p]);
  }

  lemma NothingLeft(buff: seq<byte>)
    ensures Scan(buff, |buff|) == ([], |buff|) && AreRecords(buff[|buff|..])
  {
    assert Short([]) && buff[|buff|..] == Records([]);
  }

  /** What GunzipUtil makes of the bytes behind the flag words: the original bytes, or nothing when there is no gzip
      header, the original is longer than a message may be, or unpacking fails. GunzipUtil is not part of this
      model, so it may be any such function. */
  type Gunzip = seq<byte> -> Option<seq<byte>>

  /** The bytes with the records in them and where the records start, unless a packed block cannot be unpacked. */
  function RecordBytes(buff: seq<byte>, protVer: nat, unzip: Gunzip): (r: Option<(seq<byte>, nat)>)
    ensures r.Some? ==> r.value.1 <= |r.value.0|
  {
    var start := FlagsEnd(buff, protVer);
    if FlagWord(buff, protVer) % 2 == 0 then Some((buff, start))
    else
      match unzip(buff[start..])
      case Some(data) => Some((data, 0))
      case None => None
  }

  /** The parameters are those whose records the block has in front; they are valid when that is all it has. */
  ghost predicate Holds(params: seq<Param>, valid: bool, buff: seq<byte>, protVer: nat, unzip: Gunzip) {
    match RecordBytes(buff, protVer, unzip)
    case Some((data, start)) => params == InsertAll([], Scan(data, start).0) && (valid <==> AreRecords(data[start..]))
    case None => params == [] && !valid
  }

  /** A block without gzip: a flag word that says whether the writer could read gzip, and the records. */
  function Written(ps: seq<Param>, protVer: nat, gunzip: bool): seq<byte>
    requires Ids(ps)
  {
    (if protVer >= 0xc then Be32(if gunzip then 2 else 0) else []) + Records(ps)
  }

  lemma WrittenFlags(ps: seq<Param>, protVer: nat, gunzip: bool)
    requires Ids(ps)
    ensures var buff := Written(ps, protVer, gunzip);
            && FlagWord(buff, protVer) == (if protVer >= 0xc && gunzip then 2 else 0)
            && buff[FlagsEnd(buff, protVer)..] == Records(ps)
  {
    var buff := Written(ps, protVer, gunzip);
    if protVer >= 0xc {
      var flags := if gunzip then 2 else 0;
      assert buff[0..4] == Be32(flags) && buff[4..] == Records(ps);
      Get32Be32(flags, buff, 0);
    }
  }

  lemma {:induction false} InsertAllShort(ps: seq<Param>)
    requires Short(ps)
    ensures Short(InsertAll([], ps))
    decreases |ps|
  {
    if |ps| > 0 {
      InsertAllShort(ps[..|ps| - 1]);
    }
  }

  /** What is written is read back, and found valid, if and only if no parameter is longer than 65535 bytes. */
  lemma BlockRoundTrip(ps: seq<Param>, protVer: nat, gunzip: bool)
    requires Sorted(ps) && Ids(ps)
    ensures var buff := Written(ps, protVer, gunzip);
            var start := FlagsEnd(buff, protVer);
            InsertAll([], Scan(buff, start).0) == ps && AreRecords(buff[start..]) <==> Short(ps)
  {
    hide Scan, InsertAll, Records, FlagsEnd, Written, Sorted;
    var buff := Written(ps, protVer, gunzip);
    var start := FlagsEnd(buff, protVer);
    WrittenFlags(ps, protVer, gunzip);
    FlagsEndBound(buff, protVer);
    if Short(ps) {
      ScanRecords(buff, start, ps);
      InsertSorted(ps);
    }
    ScanFinds(buff, start);
    InsertAllShort(Scan(buff, start).0);
  }

  lemma FlagsEndBound(buff: seq<byte>, protVer: nat)
    ensures FlagsEnd(buff, protVer) <= |buff|
  {
  }

  // ----- the class -----

  class NParamBlock {
    var params: seq<Param>
    var valid: bool
    var flags: nat

    ghost predicate Valid()
      reads this
    {
      Sorted(params) && Ids(params)
    }

    constructor ()
      ensures Valid() && params == [] && valid && flags == 0
    {
      params, valid, flags := [], true, 0;
    }

    /** Parse a block, packed or not. It is valid exactly when the bytes after the flag words, or what they unpack
        to, are the records of some parameters; otherwise the complete records in front are still there. */
    constructor Parse(buff: seq<byte>, protVer: nat, unzip: Gunzip)
      ensures Valid() && flags == FlagWord(buff, protVer)
      ensures Holds(params, valid, buff, protVer, unzip)
    {
      params, valid, flags := [], true, 0;
      new;
      hide Scan, InsertAll, Sorted, Records, Ids, AreRecords;
      var pos := ReadFlags(buff, protVer);
      var data := buff;
      if flags % 2 == 1 {
        var unpacked := unzip(buff[pos..]);
        if unpacked.None? {
          valid := false;
          NoneValid();
          return;
        }
        data, pos := unpacked.value, 0;
      }
      ReadRecords(data, pos);
      ScanExact(data, pos);
      ParsedValid(data, pos);
    }

    lemma NoneValid()
      requires params == []
      ensures Valid()
    {
    }

    method ReadFlags(buff: seq<byte>, protVer: nat) returns (pos: nat)
      requires flags == 0
      modifies this`flags
      ensures pos == FlagsEnd(buff, protVer) && flags == FlagWord(buff, protVer)
    {
      pos := 0;
      if protVer >= 0xc && pos + 4 <= |buff| {
        flags := NParam.GetUint32FromByteArray(buff, pos);
        Get32Be32(flags, buff, pos);
        pos := pos + 4;
        var more: nat := flags;
        while more >= TWO31 && pos + 4 <= |buff|
          modifies {}
          invariant pos <= |buff| && MoreFlags(buff, pos, more) == MoreFlags(buff, 4, flags)
          decreases |buff| - pos
        {
          more := NParam.GetUint32FromByteArray(buff, pos % TWO16);
          Get32Be32(more, buff, pos % TWO16);
          pos := pos + 4;
        }
      }
    }

    method ReadRecords(buff: seq<byte>, start: nat)
      requires start <= |buff| && valid && params == []
      modifies this`params, this`valid
      ensures params == InsertAll([], Scan(buff, start).0) && valid == (Scan(buff, start).1 == |buff|)
    {
      hide InsertAll, Insert, Get16;
      ghost var read: seq<Param> := [];
      var pos := start;
      NoneInserted();
      assert read + Scan(buff, pos).0 == Scan(buff, pos).0;
      while pos + 4 <= |buff|
        invariant pos <= |buff| && params == InsertAll([], read)
        invariant valid ==> Scan(buff, start) == (read + Scan(buff, pos).0, Scan(buff, pos).1)
        invariant !valid ==> pos == |buff| && read == Scan(buff, start).0 && Scan(buff, start).1 != |buff|
        decreases |buff| - pos
      {
        var paramID, length := Get16(buff, pos), Get16(buff, pos + 2);
        Get16Bound(buff, pos);
        pos := pos + 4;
        if pos + length <= |buff| {
          var at := AddParam(Param(paramID, []));
          params := params[at := Param(paramID, params[at].buff + buff[pos..pos + length])];
          InsertEmpty(InsertAll([], read), paramID, buff[pos..pos + length]);
          InsertedNext(read, Param(paramID, buff[pos..pos + length]));
          ConcatAssoc(read, [Param(paramID, buff[pos..pos + length])], Scan(buff, pos + length).0);
          read := read + [Param(paramID, buff[pos..pos + length])];
          pos := pos + length;
        } else {
          pos := |buff|;
          valid := false;
        }
      }
      if pos != |buff| {
        valid := false;
      }
      assert read + [] == read;
    }

    /** Insert a parameter; at is where the reference that is returned points. */
    method AddParam(p: Param) returns (at: nat)
      modifies this`params
      ensures params == Insert(old(params), p) && at < |params| && at == UpperBound(old(params), p.id) && params[at] == p
    {
      at := UpperBound(params, p.id);
      params := params[..at] + [p] + params[at..];
    }

    /** Some parameter with the id, if there is one. */
    method GetParam(id: nat) returns (found: bool, at: nat)
      ensures found <==> exists i :: 0 <= i < |params| && params[i].id == id
      ensures found ==> at < |params| && params[at].id == id
    {
      found, at := false, 0;
      while at < |params| && params[at].id != id
        invariant at <= |params| && forall i :: 0 <= i < at ==> params[i].id != id
      {
        at := at + 1;
      }
      found := at < |params|;
    }

    /** All parameters with the id, in the order in which they were added. */
    method GetAllParams(id: nat, list: seq<Param>) returns (r: seq<Param>)
      requires Valid()
      ensures r == list + With(params, id)
    {
      EqualRange(params, id);
      r := list + params[LowerBound(params, id)..UpperBound(params, id)];
    }

    /** Replace the bytes of one parameter with the id, or add the parameter if there is none. */
    method UpdateParam(p: Param) returns (at: nat)
      requires Valid() && p.id < TWO16
      modifies this`params
      ensures Valid() && at < |params| && params[at] == p
      ensures (exists i :: 0 <= i < |old(params)| && old(params)[i].id == p.id) ==>
                at < |old(params)| && old(params)[at].id == p.id && params == old(params)[at := p]
      ensures !(exists i :: 0 <= i < |old(params)| && old(params)[i].id == p.id) ==> params == Insert(old(params), p)
    {
      hide Insert;
      var found, place := GetParam(p.id);
      if found {
        at := place;
        params := params[at := Param(params[at].id, p.buff)];
      } else {
        InsertKeepsOrder(params, p, p.id);
        InsertIds(params, p);
        at := AddParam(p);
      }
    }

    method RemoveParam(id: nat)
      requires Valid()
      modifies this`params
      ensures Valid() && params == Without(old(params), id)
    {
      EqualRange(params, id);
      params := params[..LowerBound(params, id)] + params[UpperBound(params, id)..];
    }

    /** Take over the parameters and the validity of another block, but not its flags. A block assigned to itself
        would be cleared first. */
    method AssignToThis(p: NParamBlock)
      requires p.Valid()
      modifies this`params, this`valid
      ensures Valid() && params == (if p == this then [] else old(p.params)) && valid == old(p.valid)
    {
      hide Insert, Record;
      params := [];
      InsertSorted(p.params);
      for i := 0 to |p.params|
        modifies this`params
        invariant p.params == (if p == this then [] else old(p.params))
        invariant p != this ==> params == InsertAll([], p.params[..i])
      {
        assert p.params[..i + 1][..i] == p.params[..i];
        var _ := AddParam(p.params[i]);
      }
      assert p.params[..|p.params|] == p.params;
      valid := p.valid;
    }

    /** Append the block to a vector of bytes, without gzip. */
    method WriteParams(buff: seq<byte>, protVer: nat, gunzip: bool) returns (r: seq<byte>)
      requires Valid()
      ensures r == buff + Written(params, protVer, gunzip)
    {
      hide Record;
      r := buff;
      if protVer >= 0xc {
        r := r + Be32(if gunzip then 2 else 0);
      }
      ghost var start := r;
      for i := 0 to |params|
        invariant r == start + Records(params[..i])
      {
        assert params[..i + 1][..i] == params[..i];
        r := WriteTo(params[i], r);
      }
      assert params[..|params|] == params;
    }

    static method WriteTo(p: Param, buff: seq<byte>) returns (r: seq<byte>)
      requires p.id < TWO16
      ensures r == buff + Record(p)
    {
      var size := |p.buff|;
      r := buff + [p.id / 0x100] + [p.id % 0x100] + [size / 0x100 % 0x100] + [size % 0x100] + p.buff;
      TwoBytes(size);
    }
  }

  lemma InsertIds(ps: seq<Param>, p: Param)
    requires Ids(ps) && p.id < TWO16
    ensures Ids(Insert(ps, p))
  {
  }

  lemma TwoBytes(size: nat)
    ensures Be16(size % TWO16) == [size / 0x100 % 0x100, size % 0x100]
  {
    var a, low := size / TWO16, size % TWO16;
    assert size == 0x100 * (0x100 * a) + low;
    assert size / 0x100 == 0x100 * a + low / 0x100;
  }

  lemma NoneInserted()
    ensures InsertAll([], []) == []
  {
  }

  lemma Get16Bound(s: seq<byte>, at: nat)
    requires at + 4 <= |s|
    ensures Get16(s, at) < TWO16 && Get16(s, at + 2) < TWO16
  {
  }

  /** Adding an empty parameter and then filling it in is adding the full one. */
  lemma InsertEmpty(ps: seq<Param>, id: nat, bytes: seq<byte>)
    ensures var k := UpperBound(ps, id);
            && k < |Insert(ps, Param(id, []))|
            && Insert(ps, Param(id, []))[k := Param(id, [] + bytes)] == Insert(ps, Param(id, bytes))
  {
    assert [] + bytes == bytes;
  }

  lemma InsertedNext(ps: seq<Param>, p: Param)
    ensures InsertAll([], ps + [p]) == Insert(InsertAll([], ps), p)
  {
    assert (ps + [p])[..|ps|] == ps;
  }

  lemma ParsedValid(buff: seq<byte>, at: nat)
    requires at <= |buff|
    ensures Sorted(InsertAll([], Scan(buff, at).0)) && Ids(InsertAll([], Scan(buff, at).0))
  {
    ScanFinds(buff, at);
    InsertAllSorted([], Scan(buff, at).0);
    InsertAllShort(Scan(buff, at).0);
  }
}
