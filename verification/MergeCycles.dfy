/** When merge_packet ends, for packets as they were read: its rounds, whatever the order in which a round takes
    the packets over, and the cycles that keep it from ending. */
module MergeCycles {
  import opened Derivation
  import opened MergePacket

  // ----- cycles that are never left -----

  /** Packets other than k each of which derives from another one of them. */
  ghost predicate Trap(doc: Doc, k: Key, w: set<Key>) {
    && k !in w && w <= doc.defs.Keys
    && forall a :: a in w ==> LeadsOn(doc, w, a)
  }

  ghost predicate LeadsOn(doc: Doc, w: set<Key>, a: Key) {
    a in doc.defs && exists b :: b in w && b != a && b in doc.defs[a].derives
  }

  ghost predicate Caught(derives: set<Key>, w: set<Key>) {
    exists a :: a in derives && a in w
  }

  /** Once a packet is to take over one of a trap, it is never done, whatever it takes over in whatever order. */
  lemma {:induction false} NeverDone(doc: Doc, k: Key, p: Def, keys: seq<Key>, w: set<Key>)
    requires Trap(doc, k, w) && Caught(p.derives, w)
    requires forall i :: 0 <= i < |keys| ==> keys[i] in doc.defs
    ensures Caught(TakeAll(doc, k, p, keys).derives, w)
    decreases |keys|
  {
    hide Trap, Caught;
    if keys != [] {
      var key := keys[0];
      var o := if key == k then p else doc.defs[key];
      TrapKept(doc, k, p.derives, key, o.derives, w);
      NeverDone(doc, k, Absorb(p, o, key), keys[1..], w);
    }
  }

  lemma TrapKept(doc: Doc, k: Key, derives: set<Key>, key: Key, more: set<Key>, w: set<Key>)
    requires Trap(doc, k, w) && Caught(derives, w) && key in doc.defs
    requires key != k ==> more == doc.defs[key].derives
    ensures Caught(derives + more - {key}, w)
  {
    hide LeadsOn;
    var a :| a in derives && a in w;
    if a != key {
      assert a in derives + more - {key};
    } else {
      var b := NextInTrap(doc, w, a);
      assert b in derives + more - {key};
    }
  }

  lemma NextInTrap(doc: Doc, w: set<Key>, a: Key) returns (b: Key)
    requires LeadsOn(doc, w, a)
    ensures a in doc.defs && b in w && b != a && b in doc.defs[a].derives
  {
    b :| b in w && b != a && b in doc.defs[a].derives;
  }

  /** A cycle that does not pass through k, apart from packets that derive from themselves, is a trap. */
  lemma CycleIsTrap(doc: Doc, k: Key, c: seq<Key>)
    requires |c| >= 2 && c[0] == c[|c| - 1] && IsPath(doc.Edges(), c) && k !in c
    requires forall i :: 0 <= i < |c| - 1 ==> c[i] != c[i + 1]
    ensures Trap(doc, k, set a | a in c)
  {
    var w := set a | a in c;
    forall a | a in w
      ensures LeadsOn(doc, w, a)
    {
      var i :| 0 <= i < |c| && c[i] == a;
      var j := if i == |c| - 1 then 0 else i;
      assert c[j] == a && c[j + 1] in w && c[j + 1] in doc.defs[a].derives;
    }
  }

  // ----- the rounds of the outer loop -----

  /** All packets derived from are there. */
  ghost predicate Closed(doc: Doc) {
    forall k, d :: k in doc.defs && d in doc.defs[k].derives ==> d in doc.defs
  }

  /** A round takes over what is to be taken over when it starts, in any order. */
  ghost predicate Ordering(keys: seq<Key>, derives: set<Key>) {
    && (forall d :: d in keys <==> d in derives)
    && forall i, j :: 0 <= i < j < |keys| ==> keys[i] != keys[j]
  }

  /** The rounds that have been begun and finished; there is a next one while there is something to take over. */
  ghost predicate IsRounds(doc: Doc, k: Key, p: Def, rounds: seq<seq<Key>>)
    decreases |rounds|
  {
    rounds != [] ==>
      && p.derives != {} && p.derives <= doc.defs.Keys && Ordering(rounds[0], p.derives)
      && IsRounds(doc, k, TakeAll(doc, k, p, rounds[0]), rounds[1..])
  }

  ghost function AfterRounds(doc: Doc, k: Key, p: Def, rounds: seq<seq<Key>>): Def
    requires IsRounds(doc, k, p, rounds)
    decreases |rounds|
  {
    if rounds == [] then p else AfterRounds(doc, k, TakeAll(doc, k, p, rounds[0]), rounds[1..])
  }

  /** The packet derives from one of a trap. */
  ghost predicate TrapAhead(doc: Doc, k: Key)
    requires k in doc.defs
  {
    exists w :: Trap(doc, k, w) && Caught(doc.defs[k].derives, w)
  }

  /** merge_packet ends exactly when there is no trap ahead, and then after at most as many rounds as there are
      packets, in whatever order each of them takes the packets over. */
  lemma EndsExactly(doc: Doc, k: Key)
    requires Closed(doc) && k in doc.defs
    ensures (exists rounds :: IsRounds(doc, k, doc.defs[k], rounds) && AfterRounds(doc, k, doc.defs[k], rounds).derives == {})
            <==> !TrapAhead(doc, k)
    ensures !TrapAhead(doc, k) ==> forall rounds :: IsRounds(doc, k, doc.defs[k], rounds) ==> |rounds| <= |doc.defs|
  {
    hide Trap, Caught, IsRounds, AfterRounds, AllSafe, AllLower;
    var p := doc.defs[k];
    if TrapAhead(doc, k) {
      var w :| Trap(doc, k, w) && Caught(p.derives, w);
      forall rounds | IsRounds(doc, k, p, rounds)
        ensures AfterRounds(doc, k, p, rounds).derives != {}
      {
        RoundsNeverDone(doc, k, p, rounds, w);
      }
    } else {
      NoTrapSafe(doc, k, p.derives);
      HeightsBounded(doc, k, p.derives);
      forall rounds | IsRounds(doc, k, p, rounds)
        ensures |rounds| <= |doc.defs|
      {
        RoundsBounded(doc, k, p, rounds, |doc.defs|);
      }
      var rounds := Finishing(doc, k, p, |doc.defs|);
    }
  }

  lemma {:induction false} RoundsNeverDone(doc: Doc, k: Key, p: Def, rounds: seq<seq<Key>>, w: set<Key>)
    requires Trap(doc, k, w) && Caught(p.derives, w) && IsRounds(doc, k, p, rounds)
    ensures AfterRounds(doc, k, p, rounds).derives != {}
    decreases |rounds|
  {
    hide Trap, TakeAll;
    if rounds != [] {
      NeverDone(doc, k, p, rounds[0], w);
      RoundsNeverDone(doc, k, TakeAll(doc, k, p, rounds[0]), rounds[1..], w);
    }
  }

  // ----- without a trap, every round lowers what is left -----

  /** What taking over a packet adds: taking over k itself adds nothing, and a packet is not taken over again when it
      derives from itself. */
  ghost function Others(doc: Doc, k: Key): (g: Graph)
    ensures g.Keys == doc.defs.Keys
  {
    map a | a in doc.defs :: if a == k then {} else doc.defs[a].derives - {a}
  }

  /** From d no cycle is reached. */
  ghost predicate Safe(doc: Doc, k: Key, d: Key) {
    && d in doc.defs && !Reaches(Others(doc, k), d, d)
    && forall e :: Reaches(Others(doc, k), d, e) ==> !Reaches(Others(doc, k), e, e)
  }

  ghost predicate AllSafe(doc: Doc, k: Key, derives: set<Key>) {
    forall d :: d in derives ==> Safe(doc, k, d)
  }

  ghost predicate AllLower(doc: Doc, k: Key, derives: set<Key>, h: int) {
    forall d :: d in derives ==> Height(Others(doc, k), d) < h
  }

  lemma NoTrapSafe(doc: Doc, k: Key, derives: set<Key>)
    requires Closed(doc) && k in doc.defs && derives == doc.defs[k].derives && !TrapAhead(doc, k)
    ensures AllSafe(doc, k, derives)
  {
    hide Trap, Reaches, Others, Safe;
    forall d | d in derives
      ensures Safe(doc, k, d)
    {
      if !Safe(doc, k, d) {
        var e := CycleReached(doc, k, d);
        CycleTrap(doc, k, d, e);
      }
    }
  }

  lemma CycleReached(doc: Doc, k: Key, d: Key) returns (e: Key)
    requires d in doc.defs && !Safe(doc, k, d)
    ensures Reaches(Others(doc, k), e, e) && (e == d || Reaches(Others(doc, k), d, e))
  {
    hide Reaches, Others;
    if Reaches(Others(doc, k), d, d) {
      e := d;
    } else {
      e :| Reaches(Others(doc, k), d, e) && Reaches(Others(doc, k), e, e);
    }
  }

  /** All that reach a cycle are a trap. */
  lemma CycleTrap(doc: Doc, k: Key, d: Key, e: Key)
    requires Closed(doc) && k in doc.defs && d in doc.defs[k].derives
    requires Reaches(Others(doc, k), e, e) && (e == d || Reaches(Others(doc, k), d, e))
    ensures TrapAhead(doc, k)
  {
    hide Reaches;
    var g := Others(doc, k);
    var w := set a | a in doc.defs.Keys && Reaches(g, a, e);
    forall a | a in w
      ensures a != k && LeadsOn(doc, w, a)
    {
      var b := FirstEdge(g, a, e);
      assert b in w;
    }
    assert k !in w;
    assert Trap(doc, k, w) && Caught(doc.defs[k].derives, w);
  }

  lemma HeightsBounded(doc: Doc, k: Key, derives: set<Key>)
    requires AllSafe(doc, k, derives)
    ensures AllLower(doc, k, derives, |doc.defs|)
  {
    hide Reaches, Others;
    var g := Others(doc, k);
    forall d | d in derives
      ensures Height(g, d) < |doc.defs|
    {
      assert Safe(doc, k, d);
      SmallerSet(Reached(g, d), g.Keys, d);
    }
  }

  /** Taking over d adds packets that are safe and lower. */
  lemma NextLower(doc: Doc, k: Key, d: Key, e: Key)
    requires Closed(doc) && Safe(doc, k, d) && d != k && e in doc.defs[d].derives && e != d
    ensures Safe(doc, k, e) && Height(Others(doc, k), e) < Height(Others(doc, k), d)
  {
    hide Reaches;
    var g := Others(doc, k);
    EdgeReaches(g, d, e);
    HeightFalls(g, d, e);
    forall f | Reaches(g, e, f)
      ensures !Reaches(g, f, f)
    {
      ReachesTransitive(g, d, e, f);
    }
  }

  /** What a round does not take over. */
  ghost function Left(derives: set<Key>, keys: seq<Key>): set<Key> {
    set d | d in derives && d !in keys
  }

  lemma {:induction false} RoundLowers(doc: Doc, k: Key, p: Def, keys: seq<Key>, h: int)
    requires Closed(doc) && AllSafe(doc, k, p.derives)
    requires forall i, j :: 0 <= i < j < |keys| ==> keys[i] != keys[j]
    requires forall i :: 0 <= i < |keys| ==> keys[i] in p.derives && keys[i] in doc.defs
    requires AllLower(doc, k, p.derives, h)
    requires AllLower(doc, k, Left(p.derives, keys), h - 1)
    ensures var q := TakeAll(doc, k, p, keys); AllSafe(doc, k, q.derives) && AllLower(doc, k, q.derives, h - 1)
    decreases |keys|
  {
    hide Safe, Closed, Others, Height;
    if keys == [] {
      assert Left(p.derives, keys) == p.derives;
    } else {
      var key := keys[0];
      var o := if key == k then p else doc.defs[key];
      var q := Absorb(p, o, key);
      forall d | d in q.derives && d !in p.derives
        ensures Safe(doc, k, d) && Height(Others(doc, k), d) < h - 1
      {
        NextLower(doc, k, key, d);
      }
      forall d | d in q.derives && d !in keys[1..]
        ensures Height(Others(doc, k), d) < h - 1
      {
        assert d != key && d !in keys;
        if key != k && d in o.derives {
          NextLower(doc, k, key, d);
        } else {
          assert d in Left(p.derives, keys);
        }
      }
      RoundLowers(doc, k, q, keys[1..], h);
    }
  }

  lemma {:induction false} RoundsBounded(doc: Doc, k: Key, p: Def, rounds: seq<seq<Key>>, h: nat)
    requires Closed(doc) && AllSafe(doc, k, p.derives) && AllLower(doc, k, p.derives, h)
    requires IsRounds(doc, k, p, rounds)
    ensures |rounds| <= h
    decreases |rounds|
  {
    hide TakeAll, AllSafe, Closed;
    if rounds != [] {
      OneRound(doc, k, p, rounds[0], h);
      RoundsBounded(doc, k, TakeAll(doc, k, p, rounds[0]), rounds[1..], h - 1);
    }
  }

  lemma OneRound(doc: Doc, k: Key, p: Def, keys: seq<Key>, h: nat)
    requires Closed(doc) && AllSafe(doc, k, p.derives) && AllLower(doc, k, p.derives, h)
    requires p.derives != {} && p.derives <= doc.defs.Keys && Ordering(keys, p.derives)
    ensures h >= 1
    ensures var q := TakeAll(doc, k, p, keys); AllSafe(doc, k, q.derives) && AllLower(doc, k, q.derives, h - 1)
    ensures var q := TakeAll(doc, k, p, keys); q.derives <= doc.defs.Keys
  {
    hide TakeAll, Closed, Others;
    var d :| d in p.derives;
    assert Height(Others(doc, k), d) < h;
    assert Left(p.derives, keys) == {};
    RoundLowers(doc, k, p, keys, h);
  }

  /** Some rounds end. */
  lemma {:induction false} Finishing(doc: Doc, k: Key, p: Def, h: nat) returns (rounds: seq<seq<Key>>)
    requires Closed(doc) && AllSafe(doc, k, p.derives) && AllLower(doc, k, p.derives, h)
    ensures IsRounds(doc, k, p, rounds) && AfterRounds(doc, k, p, rounds).derives == {}
    decreases h
  {
    hide TakeAll, Closed, Ordering, Safe;
    rounds := [];
    if p.derives != {} {
      var keys := InSomeOrder(p.derives);
      SafeKnown(doc, k, p.derives);
      OneRound(doc, k, p, keys, h);
      var rest := Finishing(doc, k, TakeAll(doc, k, p, keys), h - 1);
      rounds := [keys] + rest;
      assert rounds[1..] == rest;
    }
  }

  lemma SafeKnown(doc: Doc, k: Key, derives: set<Key>)
    requires AllSafe(doc, k, derives)
    ensures derives <= doc.defs.Keys
  {
  }

  lemma {:induction false} InSomeOrder(derives: set<Key>) returns (keys: seq<Key>)
    ensures Ordering(keys, derives)
    decreases derives
  {
    keys := [];
    if derives != {} {
      var d :| d in derives;
      var rest := InSomeOrder(derives - {d});
      keys := [d] + rest;
    }
  }

  // ----- merging the packets of a document one after the other -----

  /** Packet k as it was, except that nothing is to be taken over any more. */
  function Emptied(doc: Doc, k: Key): (next: Doc)
    requires k in doc.defs
    ensures next.defs.Keys == doc.defs.Keys
  {
    doc.(defs := doc.defs[k := doc.defs[k].(derives := {})])
  }

  /** Some rounds end for the first packet, and with its result for the others. */
  ghost predicate EndsInOrder(doc: Doc, ks: seq<Key>)
    requires forall i :: 0 <= i < |ks| ==> ks[i] in doc.defs
    decreases |ks|
  {
    ks != [] ==>
      exists rounds :: Finishes(doc, ks[0], rounds) && EndsInOrder(Replaced(doc, ks[0], rounds), ks[1..])
  }

  ghost predicate Finishes(doc: Doc, k: Key, rounds: seq<seq<Key>>)
    requires k in doc.defs
  {
    IsRounds(doc, k, doc.defs[k], rounds) && AfterRounds(doc, k, doc.defs[k], rounds).derives == {}
  }

  /** The references to global parameters, resolved. */
  function WithGlobals(p: Def, globals: Table): (q: Def)
    ensures q.derives == p.derives && q.refs == p.refs
  {
    p.(params := p.params + Referenced(globals, p.refs * globals.Keys))
  }

  /** The document with the result of merging packet k. */
  ghost function Replaced(doc: Doc, k: Key, rounds: seq<seq<Key>>): (next: Doc)
    requires k in doc.defs && Finishes(doc, k, rounds)
    ensures next.defs.Keys == doc.defs.Keys
  {
    doc.(defs := doc.defs[k := WithGlobals(AfterRounds(doc, k, doc.defs[k], rounds), doc.globals)])
  }

  /** No packet meets a trap when its turn comes: the packets before it have been emptied. */
  ghost predicate NoTraps(doc: Doc, ks: seq<Key>)
    requires forall i :: 0 <= i < |ks| ==> ks[i] in doc.defs
    decreases |ks|
  {
    ks != [] ==> !TrapAhead(doc, ks[0]) && NoTraps(Emptied(doc, ks[0]), ks[1..])
  }

  ghost predicate SameEdges(doc: Doc, other: Doc) {
    doc.defs.Keys == other.defs.Keys && forall k :: k in doc.defs ==> doc.defs[k].derives == other.defs[k].derives
  }

  /** Merging packets in an order ends if and only if none of them meets a trap. */
  lemma {:induction false} AllEndExactly(doc: Doc, ks: seq<Key>)
    requires Closed(doc) && forall i :: 0 <= i < |ks| ==> ks[i] in doc.defs
    ensures EndsInOrder(doc, ks) <==> NoTraps(doc, ks)
    decreases |ks|
  {
    hide TrapAhead, Closed, SameEdges, Finishes, Replaced, Emptied;
    if ks != [] {
      FinishesExactly(doc, ks[0]);
      forall rounds | Finishes(doc, ks[0], rounds)
        ensures EndsInOrder(Replaced(doc, ks[0], rounds), ks[1..]) <==> NoTraps(Emptied(doc, ks[0]), ks[1..])
      {
        var next := Replaced(doc, ks[0], rounds);
        StillClosed(doc, ks[0], rounds);
        AllEndExactly(next, ks[1..]);
        SameTraps(next, Emptied(doc, ks[0]), ks[1..]);
      }
    }
  }

  lemma FinishesExactly(doc: Doc, k: Key)
    requires Closed(doc) && k in doc.defs
    ensures (exists rounds :: Finishes(doc, k, rounds)) <==> !TrapAhead(doc, k)
  {
    hide TrapAhead, IsRounds, AfterRounds, Closed;
    EndsExactly(doc, k);
    if !TrapAhead(doc, k) {
      var rounds :| IsRounds(doc, k, doc.defs[k], rounds) && AfterRounds(doc, k, doc.defs[k], rounds).derives == {};
      assert Finishes(doc, k, rounds);
    } else if rounds :| Finishes(doc, k, rounds) {
      assert AfterRounds(doc, k, doc.defs[k], rounds).derives != {};
    }
  }

  lemma StillClosed(doc: Doc, k: Key, rounds: seq<seq<Key>>)
    requires Closed(doc) && k in doc.defs && Finishes(doc, k, rounds)
    ensures Closed(Replaced(doc, k, rounds)) && SameEdges(Replaced(doc, k, rounds), Emptied(doc, k))
  {
    hide IsRounds, AfterRounds;
  }

  lemma {:induction false} SameTraps(doc: Doc, other: Doc, ks: seq<Key>)
    requires SameEdges(doc, other) && forall i :: 0 <= i < |ks| ==> ks[i] in doc.defs
    ensures NoTraps(doc, ks) <==> NoTraps(other, ks)
    decreases |ks|
  {
    hide TrapAhead;
    if ks != [] {
      SameTrap(doc, other, ks[0]);
      SameTraps(Emptied(doc, ks[0]), Emptied(other, ks[0]), ks[1..]);
    }
  }

  lemma SameTrap(doc: Doc, other: Doc, k: Key)
    requires SameEdges(doc, other) && k in doc.defs
    ensures TrapAhead(doc, k) <==> TrapAhead(other, k)
  {
    hide Caught;
    forall w
      ensures Trap(doc, k, w) <==> Trap(other, k, w)
    {
      SameTrapSet(doc, other, k, w);
    }
  }

  lemma SameTrapSet(doc: Doc, other: Doc, k: Key, w: set<Key>)
    requires SameEdges(doc, other)
    ensures Trap(doc, k, w) <==> Trap(other, k, w)
  {
    assert forall a :: LeadsOn(doc, w, a) <==> LeadsOn(other, w, a);
  }

  // ----- an example: k derives from a, and a and b derive from each other -----

  ghost predicate IsCycleWith(doc: Doc, a: Key, b: Key, k: Key) {
    && a != b && k != a && k != b && doc.defs.Keys == {a, b, k}
    && doc.defs[a].derives == {b} && doc.defs[b].derives == {a} && doc.defs[k].derives == {a}
  }

  /** Merging k first never ends; merging a, then b, then k ends. */
  lemma OrderDecides(doc: Doc, a: Key, b: Key, k: Key)
    requires IsCycleWith(doc, a, b, k)
    ensures TrapAhead(doc, k) && !EndsInOrder(doc, [k, a, b]) && EndsInOrder(doc, [a, b, k])
  {
    hide EndsInOrder, NoTraps, TrapAhead, Closed;
    CaughtInCycle(doc, a, b, k);
    FirstMeetsTrap(doc, [k, a, b]);
    AllEndExactly(doc, [k, a, b]);
    NoneMeetsTrap(doc, a, b, k);
    AllEndExactly(doc, [a, b, k]);
  }

  lemma FirstMeetsTrap(doc: Doc, ks: seq<Key>)
    requires ks != [] && forall i :: 0 <= i < |ks| ==> ks[i] in doc.defs
    requires TrapAhead(doc, ks[0])
    ensures !NoTraps(doc, ks)
  {
  }

  lemma CaughtInCycle(doc: Doc, a: Key, b: Key, k: Key)
    requires IsCycleWith(doc, a, b, k)
    ensures Closed(doc) && TrapAhead(doc, k)
  {
    hide Trap, Caught, LeadsOn;
    CycleClosed(doc, a, b, k);
    CycleCatches(doc, a, b, k);
    assert TrapAhead(doc, k);
  }

  lemma CycleClosed(doc: Doc, a: Key, b: Key, k: Key)
    requires IsCycleWith(doc, a, b, k)
    ensures Closed(doc)
  {
    forall x, d | x in doc.defs && d in doc.defs[x].derives
      ensures d in doc.defs
    {
      assert x == a || x == b || x == k;
    }
  }

  lemma CycleCatches(doc: Doc, a: Key, b: Key, k: Key)
    requires IsCycleWith(doc, a, b, k)
    ensures Trap(doc, k, {a, b}) && Caught(doc.defs[k].derives, {a, b})
  {
    hide LeadsOn;
    LeadsTo(doc, {a, b}, a, b);
    LeadsTo(doc, {a, b}, b, a);
    assert a in doc.defs[k].derives && a in {a, b};
  }

  lemma LeadsTo(doc: Doc, w: set<Key>, a: Key, b: Key)
    requires a in doc.defs && b in w && b != a && doc.defs[a].derives == {b}
    ensures LeadsOn(doc, w, a)
  {
    assert b in doc.defs[a].derives;
  }

  lemma NoneMeetsTrap(doc: Doc, a: Key, b: Key, k: Key)
    requires IsCycleWith(doc, a, b, k)
    ensures NoTraps(doc, [a, b, k])
  {
    hide TrapAhead;
    var one := Emptied(doc, a);
    var two := Emptied(one, b);
    assert [a, b, k][1..] == [b, k] && [b, k][1..] == [k] && [k][1..] == [];
    OnlyBack(doc, a, b);
    OnlyBack(one, b, a);
    OnlyBack(two, k, a);
    assert NoTraps(two, [k]);
    assert NoTraps(one, [b, k]);
  }

  /** A packet whose only parent derives from nothing but the packet meets no trap. */
  lemma OnlyBack(doc: Doc, k: Key, a: Key)
    requires k in doc.defs && doc.defs[k].derives == {a} && a in doc.defs && doc.defs[a].derives <= {k}
    ensures !TrapAhead(doc, k)
  {
    forall w | Caught(doc.defs[k].derives, w)
      ensures !Trap(doc, k, w)
    {
      if k !in w {
        NoWayOn(doc, k, w, a);
      }
    }
  }

  lemma NoWayOn(doc: Doc, k: Key, w: set<Key>, a: Key)
    requires k !in w && a in doc.defs && doc.defs[a].derives <= {k}
    ensures !LeadsOn(doc, w, a)
  {
  }
}
