/** What merging all packets of a document leaves in them, over all orders in which the packets may be merged and in
    which each of them may take over others. */
module MergeOrders {
  import opened Derivation
  import opened MergeCycles
  import opened MergePacket

  // ----- runs -----

  /** Merging one packet: its rounds, each in some order. */
  datatype Turn = Turn(key: Key, rounds: seq<seq<Key>>)

  /** Packets are merged one after the other, each with what the others have become. */
  ghost predicate IsRun(doc: Doc, turns: seq<Turn>)
    decreases |turns|
  {
    turns != [] ==>
      && turns[0].key in doc.defs && Finishes(doc, turns[0].key, turns[0].rounds)
      && IsRun(Replaced(doc, turns[0].key, turns[0].rounds), turns[1..])
  }

  ghost function AfterRun(doc: Doc, turns: seq<Turn>): (end: Doc)
    requires IsRun(doc, turns)
    ensures end.defs.Keys == doc.defs.Keys && end.globals == doc.globals
    decreases |turns|
  {
    if turns == [] then doc else AfterRun(Replaced(doc, turns[0].key, turns[0].rounds), turns[1..])
  }

  function Turned(turns: seq<Turn>): (keys: seq<Key>)
    ensures |keys| == |turns|
  {
    seq(|turns|, i requires 0 <= i < |turns| => turns[i].key)
  }

  /** Every packet of the document is merged once. */
  ghost predicate IsMerging(doc: Doc, turns: seq<Turn>) {
    IsRun(doc, turns) && Ordering(Turned(turns), doc.defs.Keys)
  }

  // ----- the tables of a packet -----

  datatype Kind = Params | Enums | Structs

  function Of(kind: Kind, p: Def): Table {
    match kind
    case Params => p.params
    case Enums => p.enums
    case Structs => p.structs
  }

  ghost function Sources(kind: Kind, doc: Doc): (own: map<Key, Source>)
    ensures own.Keys == doc.defs.Keys
  {
    match kind
    case Params => doc.Params()
    case Enums => doc.Enums()
    case Structs => doc.Structs()
  }

  /** No global parameter takes the place of the id. */
  ghost predicate Unreferred(kind: Kind, p: Def, id: string) {
    kind.Params? ==> id !in p.refs
  }

  ghost predicate AllUnreferred(kind: Kind, doc: Doc, keys: set<Key>, id: string) {
    forall a :: a in keys && a in doc.defs ==> Unreferred(kind, doc.defs[a], id)
  }

  ghost predicate Has(kind: Kind, p: Def, id: string, v: string) {
    id in Of(kind, p) && Of(kind, p)[id] == v
  }

  /** Packet a says v, and none of the packets it derives from, directly or not, defines the id. */
  ghost predicate Lowest(kind: Kind, doc: Doc, a: Key, id: string, v: string) {
    && a in doc.defs && Has(kind, doc.defs[a], id, v)
    && forall c :: c in Reached(doc.Edges(), a) ==> id !in Of(kind, doc.defs[c])
  }

  // ----- every run keeps what is known of the packets -----

  lemma {:induction false} TakeAllKeeps(doc: Doc, now: Doc, k: Key, p: Def, keys: seq<Key>)
    requires Store(doc, now.defs) && k in doc.defs && InProgress(doc, k, p)
    requires forall i :: 0 <= i < |keys| ==> keys[i] in p.derives && keys[i] in now.defs
    requires forall i, j :: 0 <= i < j < |keys| ==> keys[i] != keys[j]
    ensures InProgress(doc, k, TakeAll(now, k, p, keys))
    decreases |keys|
  {
    hide InProgress, Store, doc.Valid;
    if keys != [] {
      var key := keys[0];
      StoreAt(doc, now.defs, key);
      NotItself(doc, k, p);
      AbsorbStep(doc, k, p, key, now.defs[key]);
      TakeAllKeeps(doc, now, k, Absorb(p, now.defs[key], key), keys[1..]);
    }
  }

  lemma NotItself(doc: Doc, k: Key, p: Def)
    requires doc.Valid() && k in doc.defs && InProgress(doc, k, p)
    ensures k !in p.derives
  {
    hide Gathered, RefsGathered, Settled, doc.Ancestors, doc.Acyclic;
  }

  lemma {:induction false} RoundsKeep(doc: Doc, now: Doc, k: Key, p: Def, rounds: seq<seq<Key>>)
    requires Store(doc, now.defs) && k in doc.defs && InProgress(doc, k, p) && IsRounds(now, k, p, rounds)
    ensures InProgress(doc, k, AfterRounds(now, k, p, rounds))
    decreases |rounds|
  {
    hide InProgress, Store, TakeAll;
    if rounds != [] {
      TakeAllKeeps(doc, now, k, p, rounds[0]);
      RoundsKeep(doc, now, k, TakeAll(now, k, p, rounds[0]), rounds[1..]);
    }
  }

  lemma TurnMerges(doc: Doc, now: Doc, k: Key, rounds: seq<seq<Key>>)
    requires Store(doc, now.defs) && now.globals == doc.globals && k in now.defs && Finishes(now, k, rounds)
    ensures doc.Valid() && k in doc.defs
    ensures var next := Replaced(now, k, rounds);
            Store(doc, next.defs) && Merged(doc, k, next.defs[k])
  {
    hide InProgress, Store, Merged, doc.Valid, IsRounds, AfterRounds, Referenced;
    StoreAt(doc, now.defs, k);
    RoundsKeep(doc, now, k, now.defs[k], rounds);
    var p := AfterRounds(now, k, now.defs[k], rounds);
    StoreKept(doc, now.defs, k, p);
    var values := now.defs[k := p];
    GatheredAll(doc, values, k, p);
    assert p.refs * doc.globals.Keys == p.refs;
    var q := WithGlobals(p, doc.globals);
    Finished(doc, values, k, q);
    assert values[k := q] == Replaced(now, k, rounds).defs;
  }

  lemma {:induction false} RunMerges(doc: Doc, now: Doc, turns: seq<Turn>, done: set<Key>)
    requires Store(doc, now.defs) && now.globals == doc.globals && AllMerged(doc, now.defs, done)
    requires IsRun(now, turns)
    ensures AllMerged(doc, AfterRun(now, turns).defs, done + set i | 0 <= i < |turns| :: turns[i].key)
    decreases |turns|
  {
    hide Store, AllMerged, Merged, Finishes, Replaced;
    var keys := set i | 0 <= i < |turns| :: turns[i].key;
    if turns == [] {
      assert done + keys == done;
    } else {
      var k, rounds := turns[0].key, turns[0].rounds;
      var next := Replaced(now, k, rounds);
      TurnMerges(doc, now, k, rounds);
      OnlyReplaced(now, k, rounds);
      AllMergedNext(doc, now.defs, done, k);
      RunMerges(doc, next, turns[1..], done + {k});
      var rest := set i | 0 <= i < |turns[1..]| :: turns[1..][i].key;
      FirstAndRest(turns);
      assert done + {k} + rest == done + keys;
    }
  }

  lemma OnlyReplaced(now: Doc, k: Key, rounds: seq<seq<Key>>)
    requires k in now.defs && Finishes(now, k, rounds)
    ensures var next := Replaced(now, k, rounds);
            next.globals == now.globals && next.defs == now.defs[k := next.defs[k]]
  {
    hide Finishes, AfterRounds, WithGlobals;
  }

  lemma FirstAndRest(turns: seq<Turn>)
    requires turns != []
    ensures (set i | 0 <= i < |turns| :: turns[i].key)
            == {turns[0].key} + set i | 0 <= i < |turns[1..]| :: turns[1..][i].key
  {
    var rest := turns[1..];
    forall i | 0 < i < |turns|
      ensures turns[i].key == rest[i - 1].key
    {
    }
    forall i | 0 <= i < |rest|
      ensures rest[i].key == turns[i + 1].key
    {
    }
  }

  /** Whatever the order, every packet ends merged. */
  lemma MergingMerges(doc: Doc, turns: seq<Turn>, k: Key)
    requires doc.Valid() && k in doc.defs && IsMerging(doc, turns)
    ensures Merged(doc, k, AfterRun(doc, turns).defs[k])
  {
    hide Store, AllMerged, Merged, IsRun, doc.Valid;
    Unmerged(doc, doc.defs);
    AllMergedBegin(doc, doc.defs);
    RunMerges(doc, doc, turns, {});
    var i := TurnOf(turns, doc.defs.Keys, k);
    MergedAt(doc, AfterRun(doc, turns).defs, {} + set i | 0 <= i < |turns| :: turns[i].key, k);
  }

  lemma TurnOf(turns: seq<Turn>, keys: set<Key>, k: Key) returns (i: nat)
    requires Ordering(Turned(turns), keys) && k in keys
    ensures i < |turns| && turns[i].key == k
  {
    i :| i < |turns| && Turned(turns)[i] == k;
  }

  lemma MergedAt(doc: Doc, values: map<Key, Def>, done: set<Key>, k: Key)
    requires AllMerged(doc, values, done) && k in done
    ensures Merged(doc, k, values[k])
  {
    hide Merged, doc.Acyclic;
  }

  // ----- a merged packet has the definitions of lowest packets -----

  lemma EndsLowest(kind: Kind, doc: Doc, k: Key, p: Def, id: string)
    requires doc.Valid() && k in doc.defs && Merged(doc, k, p) && AllUnreferred(kind, doc, doc.Ancestors(k), id)
    ensures id in Of(kind, p) ==> exists b :: b in doc.Ancestors(k) && Lowest(kind, doc, b, id, Of(kind, p)[id])
    ensures forall b :: b in doc.Ancestors(k) && id in Of(kind, doc.defs[b]) ==> id in Of(kind, p)
  {
    hide Covers, Within, FromLowest, doc.Ancestors, doc.Acyclic, doc.Resolved, doc.Params, doc.Enums, doc.Structs,
         Lowest, Of, Sources;
    TablesGathered(kind, doc, k, p, id);
    var own, all := Sources(kind, doc), doc.Ancestors(k);
    if id in Of(kind, p) {
      var b := EntryFrom(Of(kind, p), own, doc.Edges(), all, id);
      LowestOf(kind, doc, k, b, id, Of(kind, p)[id]);
    }
    forall b | b in all && id in Of(kind, doc.defs[b])
      ensures id in Of(kind, p)
    {
      SourceAt(kind, doc, b, id);
      DefinedCovered(Of(kind, p), own, all, b, id);
    }
  }

  lemma TablesGathered(kind: Kind, doc: Doc, k: Key, p: Def, id: string)
    requires doc.Valid() && k in doc.defs && Merged(doc, k, p) && AllUnreferred(kind, doc, doc.Ancestors(k), id)
    ensures Covers(Of(kind, p), Sources(kind, doc), doc.Ancestors(k))
    ensures id in Of(kind, p) ==>
              EntryLowest(id, Of(kind, p)[id], Sources(kind, doc), doc.Edges(), doc.Ancestors(k), doc.Ancestors(k))
  {
    hide Within, EntryLowest, doc.Ancestors, doc.Acyclic, doc.Resolved, doc.Params, doc.Enums, doc.Structs, Covers;
    TableKeys(doc);
    AncestorsKnown(doc, k);
    if kind.Params? {
      LessCovered(p.params, doc.Params(), doc.Resolved(), doc.Ancestors(k));
    }
  }

  lemma LessCovered(t: Table, lower: map<Key, Source>, upper: map<Key, Source>, keys: set<Key>)
    requires Below(lower, upper) && keys <= upper.Keys && Covers(t, upper, keys)
    ensures Covers(t, lower, keys)
  {
  }

  lemma EntryFrom(t: Table, own: map<Key, Source>, g: Graph, all: set<Key>, id: string) returns (b: Key)
    requires id in t && EntryLowest(id, t[id], own, g, all, all)
    ensures b in all && SaysLowest(own, g, b, id, t[id], all)
  {
    b :| b in all && SaysLowest(own, g, b, id, t[id], all);
  }

  lemma SourceAt(kind: Kind, doc: Doc, b: Key, id: string)
    requires b in doc.defs
    ensures forall v :: (id, v) in Sources(kind, doc)[b] <==> Has(kind, doc.defs[b], id, v)
    ensures Defines(Sources(kind, doc), b, id) <==> id in Of(kind, doc.defs[b])
  {
    if id in Of(kind, doc.defs[b]) {
      assert (id, Of(kind, doc.defs[b])[id]) in Sources(kind, doc)[b];
    }
  }

  lemma LowestOf(kind: Kind, doc: Doc, k: Key, b: Key, id: string, v: string)
    requires doc.Acyclic() && k in doc.defs && b in doc.Ancestors(k)
    requires SaysLowest(Sources(kind, doc), doc.Edges(), b, id, v, doc.Ancestors(k))
    ensures Lowest(kind, doc, b, id, v)
  {
    hide doc.Ancestors, doc.Acyclic, Reached, Defines, Sources, Of;
    SourceAt(kind, doc, b, id);
    AncestorsTransitive(doc, k, b);
    UnderIsAncestor(doc, b);
    forall c | c in Reached(doc.Edges(), b)
      ensures id !in Of(kind, doc.defs[c])
    {
      SourceAt(kind, doc, c, id);
    }
  }

  lemma UnderIsAncestor(doc: Doc, b: Key)
    requires b in doc.defs
    ensures Reached(doc.Edges(), b) <= doc.Ancestors(b)
  {
    hide Reached;
  }

  // ----- one turn of a packet whose parents have been merged -----

  /** Nothing is left to take over when all that is taken over has nothing left. */
  lemma {:induction false} NothingMore(now: Doc, b: Key, p: Def, keys: seq<Key>)
    requires forall i :: 0 <= i < |keys| ==> keys[i] in now.defs && keys[i] != b && now.defs[keys[i]].derives == {}
    ensures TakeAll(now, b, p, keys).derives == p.derives - set i | 0 <= i < |keys| :: keys[i]
    decreases |keys|
  {
    if keys != [] {
      NothingMore(now, b, Absorb(p, now.defs[keys[0]], keys[0]), keys[1..]);
      var rest := set i | 0 <= i < |keys[1..]| :: keys[1..][i];
      assert forall i :: 0 <= i < |keys[1..]| ==> keys[1..][i] == keys[i + 1];
      assert forall i :: 0 < i < |keys| ==> keys[i] == keys[1..][i - 1];
      assert (set i | 0 <= i < |keys| :: keys[i]) == {keys[0]} + rest;
    }
  }

  lemma {:induction false} StaysUnreferred(kind: Kind, now: Doc, b: Key, p: Def, keys: seq<Key>, id: string)
    requires forall i :: 0 <= i < |keys| ==> keys[i] in now.defs && keys[i] != b && Unreferred(kind, now.defs[keys[i]], id)
    requires Unreferred(kind, p, id)
    ensures Unreferred(kind, TakeAll(now, b, p, keys), id)
    decreases |keys|
  {
    if keys != [] {
      StaysUnreferred(kind, now, b, Absorb(p, now.defs[keys[0]], keys[0]), keys[1..], id);
    }
  }

  /** Packets that do not define the id leave it as it is. */
  lemma {:induction false} StaysSame(kind: Kind, now: Doc, b: Key, p: Def, keys: seq<Key>, id: string)
    requires forall i :: 0 <= i < |keys| ==> keys[i] in now.defs && keys[i] != b && id !in Of(kind, now.defs[keys[i]])
    ensures id in Of(kind, TakeAll(now, b, p, keys)) <==> id in Of(kind, p)
    ensures id in Of(kind, p) ==> Of(kind, TakeAll(now, b, p, keys))[id] == Of(kind, p)[id]
    decreases |keys|
  {
    if keys != [] {
      StaysSame(kind, now, b, Absorb(p, now.defs[keys[0]], keys[0]), keys[1..], id);
    }
  }

  /** The packet taken over last decides. */
  lemma {:induction false} LastDecides(kind: Kind, now: Doc, b: Key, p: Def, keys: seq<Key>, id: string, w: string)
    requires keys != [] && forall i :: 0 <= i < |keys| ==> keys[i] in now.defs && keys[i] != b
    requires Has(kind, now.defs[keys[|keys| - 1]], id, w)
    ensures Has(kind, TakeAll(now, b, p, keys), id, w)
    decreases |keys|
  {
    var q := Absorb(p, now.defs[keys[0]], keys[0]);
    if |keys| == 1 {
      assert TakeAll(now, b, p, keys) == TakeAll(now, b, q, []);
    } else {
      LastDecides(kind, now, b, q, keys[1..], id, w);
    }
  }

  lemma LastInOrder(derives: set<Key>, last: Key) returns (keys: seq<Key>)
    requires last in derives
    ensures Ordering(keys, derives) && keys != [] && keys[|keys| - 1] == last
  {
    var front := InSomeOrder(derives - {last});
    keys := front + [last];
    forall d | d in derives
      ensures d in keys
    {
      assert d == keys[|front|] || d in front;
    }
  }

  // ----- a merging in which a given lowest packet wins -----

  /** Packets are merged from below: those in done have nothing left to take over, the others are as they were read.
      Of those in all, the ones above a say what a says, and the ones below it say nothing. */
  ghost predicate Built(kind: Kind, doc: Doc, now: Doc, done: set<Key>, all: set<Key>, a: Key, id: string, w: string) {
    && now.defs.Keys == doc.defs.Keys && now.globals == doc.globals
    && forall b :: b in doc.defs ==> BuiltAt(kind, doc, now.defs[b], b in done, all, b, a, id, w)
  }

  ghost predicate BuiltAt(kind: Kind, doc: Doc, p: Def, done: bool, all: set<Key>, b: Key, a: Key, id: string, w: string)
    requires b in doc.defs
  {
    && (!done ==> p == doc.defs[b])
    && (done ==> p.derives == {})
    && (b in all ==> Unreferred(kind, p, id))
    && (done && b in all && AtOrAbove(doc, b, a) ==> Has(kind, p, id, w))
    && (done && b in Reached(doc.Edges(), a) ==> id !in Of(kind, p))
  }

  ghost predicate AtOrAbove(doc: Doc, b: Key, a: Key) {
    b == a || a in Reached(doc.Edges(), b)
  }

  /** The order in which a packet takes over what it derives from: a parent at or above a comes last. */
  lemma ChosenOrder(doc: Doc, b: Key, a: Key) returns (keys: seq<Key>)
    requires doc.Acyclic() && b in doc.defs && a in doc.defs
    ensures Ordering(keys, doc.defs[b].derives)
    ensures a in Reached(doc.Edges(), b) ==> keys != [] && AtOrAbove(doc, keys[|keys| - 1], a)
  {
    hide Reached, Ordering;
    if a in Reached(doc.Edges(), b) {
      var e := ParentAbove(doc, b, a);
      keys := LastInOrder(doc.defs[b].derives, e);
    } else {
      keys := InSomeOrder(doc.defs[b].derives);
    }
  }

  lemma ParentAbove(doc: Doc, b: Key, a: Key) returns (e: Key)
    requires b in doc.defs && a in Reached(doc.Edges(), b)
    ensures e in doc.defs[b].derives && AtOrAbove(doc, e, a)
  {
    hide Reaches;
    e := FirstEdge(doc.Edges(), b, a);
  }

  /** What the parents of a packet are, when they have been merged. */
  lemma ParentsBuilt(kind: Kind, doc: Doc, now: Doc, done: set<Key>, k: Key, a: Key, id: string, w: string, b: Key, d: Key)
    requires doc.Acyclic() && k in doc.defs && a in doc.Ancestors(k) && b in doc.defs
    requires Built(kind, doc, now, done, doc.Ancestors(k), a, id, w) && d in doc.defs[b].derives && d in done
    ensures d in now.defs && d != b && now.defs[d].derives == {}
    ensures b in doc.Ancestors(k) ==> Unreferred(kind, now.defs[d], id)
    ensures b in doc.Ancestors(k) && AtOrAbove(doc, d, a) ==> Has(kind, now.defs[d], id, w)
    ensures b == a || b in Reached(doc.Edges(), a) ==> id !in Of(kind, now.defs[d])
  {
    hide Unreferred, Has, Of, AtOrAbove;
    ParentKnown(doc, b, d);
    assert BuiltAt(kind, doc, now.defs[d], d in done, doc.Ancestors(k), d, a, id, w);
    if b in doc.Ancestors(k) {
      ParentAncestor(doc, k, b, d);
    }
    if b == a || b in Reached(doc.Edges(), a) {
      ParentUnder(doc, a, b, d);
    }
  }

  lemma ParentKnown(doc: Doc, b: Key, d: Key)
    requires doc.Acyclic() && b in doc.defs && d in doc.defs[b].derives
    ensures d in doc.defs && d != b && d in Reached(doc.Edges(), b)
  {
    hide Reaches;
    EdgeReaches(doc.Edges(), b, d);
  }

  lemma ParentAncestor(doc: Doc, k: Key, b: Key, d: Key)
    requires doc.Acyclic() && k in doc.defs && b in doc.Ancestors(k) && d in doc.defs[b].derives
    ensures d in doc.Ancestors(k)
  {
    hide Reached, doc.Acyclic;
    ParentKnown(doc, b, d);
    AncestorsTransitive(doc, k, b);
  }

  lemma ParentUnder(doc: Doc, a: Key, b: Key, d: Key)
    requires doc.Acyclic() && a in doc.defs && b in doc.defs && (b == a || b in Reached(doc.Edges(), a))
    requires d in doc.defs[b].derives
    ensures d in Reached(doc.Edges(), a)
  {
    hide Reaches, doc.Acyclic;
    ParentKnown(doc, b, d);
    if b != a {
      ReachesTransitive(doc.Edges(), a, b, d);
    }
  }

  lemma TurnBuilt(kind: Kind, doc: Doc, now: Doc, done: set<Key>, k: Key, a: Key, id: string, w: string, b: Key,
                  keys: seq<Key>)
    requires doc.Acyclic() && k in doc.defs && a in doc.Ancestors(k) && b in doc.defs && Lowest(kind, doc, a, id, w)
    requires AllUnreferred(kind, doc, doc.Ancestors(k), id)
    requires Built(kind, doc, now, done, doc.Ancestors(k), a, id, w) && doc.defs[b].derives <= done * now.defs.Keys
    requires Ordering(keys, doc.defs[b].derives)
    requires a in Reached(doc.Edges(), b) ==> keys != [] && AtOrAbove(doc, keys[|keys| - 1], a)
    ensures var q := TakeAll(now, b, doc.defs[b], keys);
            q.derives == {} && BuiltAt(kind, doc, WithGlobals(q, now.globals), true, doc.Ancestors(k), b, a, id, w)
  {
    hide doc.Acyclic, doc.Ancestors, Built, Unreferred, Has, Of, TakeAll, WithGlobals, Reached;
    var p, all, g := doc.defs[b], doc.Ancestors(k), doc.Edges();
    forall i | 0 <= i < |keys|
      ensures keys[i] in p.derives
    {
      assert keys[i] in keys;
    }
    forall i | 0 <= i < |keys|
      ensures keys[i] in now.defs && keys[i] != b && now.defs[keys[i]].derives == {}
      ensures b in all ==> Unreferred(kind, now.defs[keys[i]], id)
      ensures b in all && AtOrAbove(doc, keys[i], a) ==> Has(kind, now.defs[keys[i]], id, w)
      ensures b == a || b in Reached(g, a) ==> id !in Of(kind, now.defs[keys[i]])
    {
      ParentsBuilt(kind, doc, now, done, k, a, id, w, b, keys[i]);
    }
    var q := TakeAll(now, b, p, keys);
    AllTaken(now, b, p, keys);
    if b in all {
      StaysUnreferred(kind, now, b, p, keys, id);
      GlobalsKeepRefs(kind, q, now.globals, id);
      if a in Reached(g, b) {
        LastDecides(kind, now, b, p, keys, id, w);
      } else if b == a {
        StaysSame(kind, now, b, p, keys, id);
        HasSame(kind, p, q, id, w);
      }
      GlobalsKeep(kind, q, now.globals, id);
    }
    if b in Reached(g, a) {
      UnderUnreferred(kind, doc, k, a, b, id);
      StaysSame(kind, now, b, p, keys, id);
      GlobalsKeep(kind, q, now.globals, id);
    }
  }

  lemma AllTaken(now: Doc, b: Key, p: Def, keys: seq<Key>)
    requires Ordering(keys, p.derives)
    requires forall i :: 0 <= i < |keys| ==> keys[i] in now.defs && keys[i] != b && now.defs[keys[i]].derives == {}
    ensures TakeAll(now, b, p, keys).derives == {}
  {
    hide TakeAll;
    NothingMore(now, b, p, keys);
  }

  lemma HasSame(kind: Kind, p: Def, q: Def, id: string, w: string)
    requires id in Of(kind, q) <==> id in Of(kind, p)
    requires id in Of(kind, p) ==> Of(kind, q)[id] == Of(kind, p)[id]
    ensures Has(kind, q, id, w) <==> Has(kind, p, id, w)
  {
  }

  lemma GlobalsKeepRefs(kind: Kind, p: Def, globals: Table, id: string)
    requires Unreferred(kind, p, id)
    ensures Unreferred(kind, WithGlobals(p, globals), id)
  {
  }

  /** Resolving references does not touch an id that is not referred to. */
  lemma GlobalsKeep(kind: Kind, p: Def, globals: Table, id: string)
    requires Unreferred(kind, p, id)
    ensures id in Of(kind, WithGlobals(p, globals)) <==> id in Of(kind, p)
    ensures forall w :: Has(kind, WithGlobals(p, globals), id, w) <==> Has(kind, p, id, w)
  {
  }

  lemma UnderUnreferred(kind: Kind, doc: Doc, k: Key, a: Key, b: Key, id: string)
    requires doc.Acyclic() && k in doc.defs && a in doc.Ancestors(k) && b in Reached(doc.Edges(), a)
    ensures b in doc.Ancestors(k)
  {
    hide Reached, doc.Acyclic;
    AncestorsTransitive(doc, k, a);
  }

  lemma NextTurn(kind: Kind, doc: Doc, now: Doc, done: set<Key>, k: Key, a: Key, id: string, w: string, b: Key)
    returns (rounds: seq<seq<Key>>)
    requires doc.Acyclic() && k in doc.defs && a in doc.Ancestors(k) && b in doc.defs && Lowest(kind, doc, a, id, w)
    requires AllUnreferred(kind, doc, doc.Ancestors(k), id)
    requires Built(kind, doc, now, done, doc.Ancestors(k), a, id, w) && doc.defs[b].derives <= done && b !in done
    ensures b in now.defs && Finishes(now, b, rounds)
    ensures Built(kind, doc, Replaced(now, b, rounds), done + {b}, doc.Ancestors(k), a, id, w)
  {
    hide doc.Acyclic, doc.Ancestors, Built, BuiltAt, Lowest, AllUnreferred, Reached, WithGlobals, TakeAll, Ordering,
         Finishes, AtOrAbove;
    ParentsThere(doc, b);
    var p := doc.defs[b];
    var keys := ChosenOrder(doc, b, a);
    AsRead(kind, doc, now, done, doc.Ancestors(k), a, id, w, b);
    TurnBuilt(kind, doc, now, done, k, a, id, w, b, keys);
    rounds := if p.derives == {} then [] else [keys];
    OneRoundDone(now, b, p, keys, rounds);
    OnlyReplaced(now, b, rounds);
    BuiltNext(kind, doc, now, Replaced(now, b, rounds), done, doc.Ancestors(k), a, id, w, b);
  }

  lemma BuiltNext(kind: Kind, doc: Doc, now: Doc, next: Doc, done: set<Key>, all: set<Key>, a: Key, id: string, w: string,
                  b: Key)
    requires Built(kind, doc, now, done, all, a, id, w) && b in doc.defs && b in next.defs
    requires next.globals == now.globals && next.defs == now.defs[b := next.defs[b]]
    requires BuiltAt(kind, doc, next.defs[b], true, all, b, a, id, w)
    ensures Built(kind, doc, next, done + {b}, all, a, id, w)
  {
    hide BuiltAt;
    forall c | c in doc.defs
      ensures BuiltAt(kind, doc, next.defs[c], c in done + {b}, all, c, a, id, w)
    {
      if c != b {
        assert BuiltAt(kind, doc, now.defs[c], c in done, all, c, a, id, w);
      }
    }
  }

  lemma ParentsThere(doc: Doc, b: Key)
    requires doc.Acyclic() && b in doc.defs
    ensures doc.defs[b].derives <= doc.defs.Keys
  {
    forall d | d in doc.defs[b].derives
      ensures d in doc.defs
    {
      ParentKnown(doc, b, d);
    }
  }

  lemma AsRead(kind: Kind, doc: Doc, now: Doc, done: set<Key>, all: set<Key>, a: Key, id: string, w: string, b: Key)
    requires Built(kind, doc, now, done, all, a, id, w) && b in doc.defs && b !in done
    ensures now.defs.Keys == doc.defs.Keys && now.defs[b] == doc.defs[b]
  {
    hide Reached, Unreferred, Has, Of, AtOrAbove;
    assert BuiltAt(kind, doc, now.defs[b], b in done, all, b, a, id, w);
  }

  /** One round, or none when there is nothing to take over. */
  lemma OneRoundDone(now: Doc, b: Key, p: Def, keys: seq<Key>, rounds: seq<seq<Key>>)
    requires b in now.defs && now.defs[b] == p && p.derives <= now.defs.Keys && Ordering(keys, p.derives)
    requires TakeAll(now, b, p, keys).derives == {} && rounds == if p.derives == {} then [] else [keys]
    ensures Finishes(now, b, rounds) && AfterRounds(now, b, p, rounds) == TakeAll(now, b, p, keys)
  {
    if keys != [] {
      FirstTaken(keys, p.derives);
    }
    if p.derives != {} {
      assert [keys][1..] == [];
    }
  }

  lemma FirstTaken(keys: seq<Key>, derives: set<Key>)
    requires Ordering(keys, derives) && keys != []
    ensures keys[0] in derives
  {
    assert keys[0] in keys;
  }

  /** Of some packets left, one that derives from none of them. */
  lemma {:induction false} NextFromBelow(doc: Doc, left: set<Key>, b: Key) returns (c: Key)
    requires doc.Acyclic() && left <= doc.defs.Keys && b in left
    ensures c in left && doc.defs[c].derives !! left
    decreases doc.Height(b)
  {
    hide doc.Acyclic, doc.Height, Reached;
    c := b;
    if d :| d in doc.defs[b].derives && d in left {
      ParentKnown(doc, b, d);
      AncestorsTransitive(doc, b, d);
      c := NextFromBelow(doc, left, d);
    }
  }

  lemma {:induction false} BuildRest(kind: Kind, doc: Doc, now: Doc, done: set<Key>, k: Key, a: Key, id: string, w: string)
    returns (turns: seq<Turn>)
    requires doc.Acyclic() && k in doc.defs && a in doc.Ancestors(k) && Lowest(kind, doc, a, id, w)
    requires AllUnreferred(kind, doc, doc.Ancestors(k), id)
    requires done <= doc.defs.Keys && Built(kind, doc, now, done, doc.Ancestors(k), a, id, w)
    ensures IsRun(now, turns) && Ordering(Turned(turns), doc.defs.Keys - done)
    ensures Built(kind, doc, AfterRun(now, turns), doc.defs.Keys, doc.Ancestors(k), a, id, w)
    decreases |doc.defs.Keys - done|
  {
    hide doc.Acyclic, doc.Ancestors, Built, Lowest, AllUnreferred, Finishes, Replaced, Ordering;
    var left := doc.defs.Keys - done;
    turns := [];
    if left == {} {
      assert done == doc.defs.Keys;
      NoTurns();
    } else {
      var some :| some in left;
      var b := NextFromBelow(doc, left, some);
      ParentsThere(doc, b);
      var rounds := NextTurn(kind, doc, now, done, k, a, id, w, b);
      SmallerSet(left - {b}, left, b);
      assert doc.defs.Keys - (done + {b}) == left - {b};
      var rest := BuildRest(kind, doc, Replaced(now, b, rounds), done + {b}, k, a, id, w);
      turns := [Turn(b, rounds)] + rest;
      assert turns[1..] == rest;
      OneMoreTurn(Turn(b, rounds), rest, left);
    }
  }

  lemma NoTurns()
    ensures Ordering(Turned([]), {})
  {
  }

  lemma OneMoreTurn(turn: Turn, rest: seq<Turn>, left: set<Key>)
    requires turn.key in left && Ordering(Turned(rest), left - {turn.key})
    ensures Ordering(Turned([turn] + rest), left)
  {
    var keys := Turned([turn] + rest);
    assert keys == [turn.key] + Turned(rest);
    forall i | 0 <= i < |rest|
      ensures Turned(rest)[i] in left - {turn.key}
    {
      assert Turned(rest)[i] in Turned(rest);
    }
  }

  // ----- the exact outcomes -----

  /** After merging all packets in this order, packet k defines the id as v. */
  ghost predicate EndsAs(kind: Kind, doc: Doc, turns: seq<Turn>, k: Key, id: string, v: string)
    requires k in doc.defs
  {
    IsMerging(doc, turns) && Has(kind, AfterRun(doc, turns).defs[k], id, v)
  }

  /** Over all orders, an id of packet k that is not referred to ends as v if and only if one of the packets in which
      it is defined, k or an ancestor, says v and derives from no other one of them. */
  lemma EndsAsExactly(kind: Kind, doc: Doc, k: Key, id: string, v: string)
    requires doc.Valid() && k in doc.defs && AllUnreferred(kind, doc, doc.Ancestors(k), id)
    ensures (exists turns :: EndsAs(kind, doc, turns, k, id, v))
            <==> exists a :: a in doc.Ancestors(k) && Lowest(kind, doc, a, id, v)
  {
    hide EndsAs, doc.Valid, doc.Ancestors, Lowest, AllUnreferred;
    if turns :| EndsAs(kind, doc, turns, k, id, v) {
      var a := Decider(kind, doc, turns, k, id, v);
    }
    if a :| a in doc.Ancestors(k) && Lowest(kind, doc, a, id, v) {
      var turns := Winning(kind, doc, k, a, id, v);
    }
  }

  /** The packet that has decided about the id. */
  lemma Decider(kind: Kind, doc: Doc, turns: seq<Turn>, k: Key, id: string, v: string) returns (a: Key)
    requires doc.Valid() && k in doc.defs && AllUnreferred(kind, doc, doc.Ancestors(k), id)
    requires EndsAs(kind, doc, turns, k, id, v)
    ensures a in doc.Ancestors(k) && Lowest(kind, doc, a, id, v)
  {
    hide IsRun, Ordering, doc.Valid, doc.Ancestors, Lowest, AllUnreferred, AfterRun, Merged;
    MergingMerges(doc, turns, k);
    EndsLowest(kind, doc, k, AfterRun(doc, turns).defs[k], id);
    a :| a in doc.Ancestors(k) && Lowest(kind, doc, a, id, v);
  }

  /** A merging in which packet a decides about the id. */
  lemma Winning(kind: Kind, doc: Doc, k: Key, a: Key, id: string, v: string) returns (turns: seq<Turn>)
    requires doc.Valid() && k in doc.defs && AllUnreferred(kind, doc, doc.Ancestors(k), id)
    requires a in doc.Ancestors(k) && Lowest(kind, doc, a, id, v)
    ensures EndsAs(kind, doc, turns, k, id, v)
  {
    hide doc.Acyclic, doc.Ancestors, Lowest, AllUnreferred, IsRun, Ordering, Built;
    AsReadBuilt(kind, doc, doc.Ancestors(k), a, id, v);
    turns := BuildRest(kind, doc, doc, {}, k, a, id, v);
    assert doc.defs.Keys - {} == doc.defs.Keys;
    BuiltDecides(kind, doc, AfterRun(doc, turns), k, a, id, v);
  }

  lemma AsReadBuilt(kind: Kind, doc: Doc, all: set<Key>, a: Key, id: string, w: string)
    requires AllUnreferred(kind, doc, all, id)
    ensures Built(kind, doc, doc, {}, all, a, id, w)
  {
    hide Reached, Unreferred, Has, Of, AtOrAbove;
  }

  lemma BuiltDecides(kind: Kind, doc: Doc, now: Doc, k: Key, a: Key, id: string, w: string)
    requires k in doc.defs && a in doc.Ancestors(k) && Built(kind, doc, now, doc.defs.Keys, doc.Ancestors(k), a, id, w)
    ensures k in now.defs && Has(kind, now.defs[k], id, w)
  {
    hide Reached, Unreferred, Has, Of;
    assert BuiltAt(kind, doc, now.defs[k], k in doc.defs.Keys, doc.Ancestors(k), k, a, id, w);
  }

  // ----- every order of an acyclic document ends -----

  lemma NoTrapAcyclic(doc: Doc, k: Key)
    requires doc.Acyclic() && k in doc.defs
    ensures !TrapAhead(doc, k)
  {
    hide doc.Acyclic, LeadsOn;
    forall w | Trap(doc, k, w)
      ensures !Caught(doc.defs[k].derives, w)
    {
      if a :| a in w {
        var c := NextFromBelow(doc, w, a);
        NoWayOut(doc, w, c);
      }
    }
  }

  lemma NoWayOut(doc: Doc, w: set<Key>, c: Key)
    requires c in doc.defs && doc.defs[c].derives !! w
    ensures !LeadsOn(doc, w, c)
  {
  }

  lemma EmptiedAcyclic(doc: Doc, k: Key)
    requires doc.Acyclic() && k in doc.defs
    ensures Emptied(doc, k).Acyclic()
  {
    hide Reaches;
    var g, less := doc.Edges(), Emptied(doc, k).Edges();
    forall a | a in less
      ensures !Reaches(less, a, a)
    {
      if Reaches(less, a, a) {
        FewerReach(g, less, a, a);
      }
    }
  }

  lemma {:induction false} AcyclicNoTraps(doc: Doc, ks: seq<Key>)
    requires doc.Acyclic() && forall i :: 0 <= i < |ks| ==> ks[i] in doc.defs
    ensures NoTraps(doc, ks)
    decreases |ks|
  {
    hide doc.Acyclic, TrapAhead, Emptied;
    if ks != [] {
      NoTrapAcyclic(doc, ks[0]);
      EmptiedAcyclic(doc, ks[0]);
      AcyclicNoTraps(Emptied(doc, ks[0]), ks[1..]);
    }
  }

  lemma {:induction false} TurnsFor(doc: Doc, ks: seq<Key>) returns (turns: seq<Turn>)
    requires (forall i :: 0 <= i < |ks| ==> ks[i] in doc.defs) && EndsInOrder(doc, ks)
    ensures IsRun(doc, turns) && Turned(turns) == ks
    decreases |ks|
  {
    hide Finishes, Replaced, IsRun;
    turns := [];
    NoTurnsRun(doc);
    if ks != [] {
      var rounds :| Finishes(doc, ks[0], rounds) && EndsInOrder(Replaced(doc, ks[0], rounds), ks[1..]);
      var rest := TurnsFor(Replaced(doc, ks[0], rounds), ks[1..]);
      turns := [Turn(ks[0], rounds)] + rest;
      TurnFirst(doc, ks[0], rounds, rest);
      assert [ks[0]] + ks[1..] == ks;
    }
  }

  lemma NoTurnsRun(doc: Doc)
    ensures IsRun(doc, []) && Turned([]) == []
  {
  }

  lemma TurnFirst(doc: Doc, k: Key, rounds: seq<seq<Key>>, rest: seq<Turn>)
    requires k in doc.defs && Finishes(doc, k, rounds) && IsRun(Replaced(doc, k, rounds), rest)
    ensures IsRun(doc, [Turn(k, rounds)] + rest) && Turned([Turn(k, rounds)] + rest) == [k] + Turned(rest)
  {
    hide Finishes, Replaced;
    assert ([Turn(k, rounds)] + rest)[1..] == rest;
  }

  /** The packets of an acyclic document can be merged in every order. */
  lemma EveryOrderEnds(doc: Doc, ks: seq<Key>) returns (turns: seq<Turn>)
    requires doc.Acyclic() && Ordering(ks, doc.defs.Keys)
    ensures IsMerging(doc, turns) && Turned(turns) == ks
  {
    hide IsRun, NoTraps, EndsInOrder;
    forall i | 0 <= i < |ks|
      ensures ks[i] in doc.defs
    {
      assert ks[i] in ks;
    }
    AcyclicNoTraps(doc, ks);
    assert Closed(doc) by {
      hide Reaches;
    }
    AllEndExactly(doc, ks);
    turns := TurnsFor(doc, ks);
  }

  // ----- own definitions -----

  /** Every proper ancestor of k that defines the id, and derives from no other packet that does, says v. */
  ghost predicate AllSay(kind: Kind, doc: Doc, k: Key, id: string, v: string)
    requires k in doc.defs
  {
    forall a, w :: a in doc.Ancestors(k) && a != k && Lowest(kind, doc, a, id, w) ==> w == v
  }

  /** In every order packet k ends with this definition. */
  ghost predicate SureToEnd(kind: Kind, doc: Doc, k: Key, id: string, v: string)
    requires k in doc.defs
  {
    forall turns :: IsMerging(doc, turns) ==> EndsAs(kind, doc, turns, k, id, v)
  }

  lemma OwnStays(kind: Kind, doc: Doc, k: Key, id: string)
    requires doc.Valid() && k in doc.defs && AllUnreferred(kind, doc, doc.Ancestors(k), id)
    requires id in Of(kind, doc.defs[k])
    ensures var v := Of(kind, doc.defs[k])[id]; SureToEnd(kind, doc, k, id, v) <==> AllSay(kind, doc, k, id, v)
  {
    hide IsMerging, EndsAs, Of, Lowest, doc.Valid, doc.Ancestors, AllUnreferred;
    var v := Of(kind, doc.defs[k])[id];
    if AllSay(kind, doc, k, id, v) {
      forall turns | IsMerging(doc, turns)
        ensures EndsAs(kind, doc, turns, k, id, v)
      {
        var u := EndsSomehow(kind, doc, turns, k, id);
        var a := Decider(kind, doc, turns, k, id, u);
        OwnSays(kind, doc, k, id, a, u);
      }
    } else {
      var a, w :| a in doc.Ancestors(k) && a != k && Lowest(kind, doc, a, id, w) && w != v;
      var turns := Winning(kind, doc, k, a, id, w);
      EndsOneWay(kind, doc, turns, k, id, w, v);
    }
  }

  lemma EndsSomehow(kind: Kind, doc: Doc, turns: seq<Turn>, k: Key, id: string) returns (v: string)
    requires doc.Valid() && k in doc.defs && AllUnreferred(kind, doc, doc.Ancestors(k), id)
    requires id in Of(kind, doc.defs[k]) && IsMerging(doc, turns)
    ensures EndsAs(kind, doc, turns, k, id, v)
  {
    hide IsRun, Ordering, Of, doc.Valid, doc.Ancestors, Lowest, AllUnreferred, AfterRun, Merged;
    MergingMerges(doc, turns, k);
    EndsLowest(kind, doc, k, AfterRun(doc, turns).defs[k], id);
    v := Of(kind, AfterRun(doc, turns).defs[k])[id];
  }

  lemma EndsOneWay(kind: Kind, doc: Doc, turns: seq<Turn>, k: Key, id: string, v: string, w: string)
    requires k in doc.defs && EndsAs(kind, doc, turns, k, id, v) && v != w
    ensures IsMerging(doc, turns) && !EndsAs(kind, doc, turns, k, id, w)
  {
    hide IsRun, AfterRun, Ordering;
  }

  lemma OwnSays(kind: Kind, doc: Doc, k: Key, id: string, a: Key, u: string)
    requires k in doc.defs && id in Of(kind, doc.defs[k]) && Lowest(kind, doc, a, id, u)
    ensures a == k ==> u == Of(kind, doc.defs[k])[id]
  {
    hide Of, Reached;
  }

  /** The packet's own enum is sure to stay if and only if every proper ancestor that defines it, and derives from no
      other packet that does, says the same. */
  lemma OwnEnumStays(doc: Doc, k: Key, id: string)
    requires doc.Valid() && k in doc.defs && id in doc.defs[k].enums
    ensures var v := doc.defs[k].enums[id]; SureToEnd(Enums, doc, k, id, v) <==> AllSay(Enums, doc, k, id, v)
  {
    hide SureToEnd, AllSay, doc.Valid, doc.Ancestors;
    OwnStays(Enums, doc, k, id);
  }

  /** So is its own struct. */
  lemma OwnStructStays(doc: Doc, k: Key, id: string)
    requires doc.Valid() && k in doc.defs && id in doc.defs[k].structs
    ensures var v := doc.defs[k].structs[id]; SureToEnd(Structs, doc, k, id, v) <==> AllSay(Structs, doc, k, id, v)
  {
    hide SureToEnd, AllSay, doc.Valid, doc.Ancestors;
    OwnStays(Structs, doc, k, id);
  }

  /** The packet or an ancestor refers to the global parameter with this id. */
  ghost predicate Referred(doc: Doc, k: Key, id: string)
    requires k in doc.defs
  {
    exists a :: a in doc.Ancestors(k) && a in doc.defs && id in doc.defs[a].refs
  }

  /** And its own parameter, unless a global one with that id is referred to, which then takes its place. */
  lemma OwnParamStays(doc: Doc, k: Key, id: string)
    requires doc.Valid() && k in doc.defs && id in doc.defs[k].params
    ensures var v := doc.defs[k].params[id];
            SureToEnd(Params, doc, k, id, v)
            <==> if Referred(doc, k, id) then id in doc.globals && doc.globals[id] == v else AllSay(Params, doc, k, id, v)
  {
    hide SureToEnd, AllSay, doc.Valid, doc.Ancestors;
    if Referred(doc, k, id) {
      SureGlobal(doc, k, id, doc.defs[k].params[id]);
    } else {
      OwnStays(Params, doc, k, id);
    }
  }

  /** A parameter that is referred to ends as the global one, in every order; and there is one. */
  lemma SureGlobal(doc: Doc, k: Key, id: string, v: string)
    requires doc.Valid() && k in doc.defs && Referred(doc, k, id)
    ensures id in doc.globals && (SureToEnd(Params, doc, k, id, v) <==> doc.globals[id] == v)
  {
    hide IsMerging, EndsAs, Referred, doc.Acyclic;
    var ks := InSomeOrder(doc.defs.Keys);
    var some := EveryOrderEnds(doc, ks);
    forall turns | IsMerging(doc, turns)
      ensures id in doc.globals && (EndsAs(Params, doc, turns, k, id, v) <==> doc.globals[id] == v)
    {
      EndsGlobal(doc, turns, k, id, v);
    }
  }

  lemma EndsGlobal(doc: Doc, turns: seq<Turn>, k: Key, id: string, v: string)
    requires doc.Valid() && k in doc.defs && Referred(doc, k, id) && IsMerging(doc, turns)
    ensures id in doc.globals && (EndsAs(Params, doc, turns, k, id, v) <==> doc.globals[id] == v)
  {
    hide IsRun, Ordering, AfterRun, Gathered, doc.Valid, doc.Ancestors, doc.Acyclic;
    MergingMerges(doc, turns, k);
  }

  // ----- an example: k derives from b, and b from c -----

  ghost predicate IsChain(doc: Doc, k: Key, b: Key, c: Key) {
    && k != b && k != c && b != c && doc.defs.Keys == {k, b, c}
    && doc.defs[k].derives == {b} && doc.defs[b].derives == {c} && doc.defs[c].derives == {}
    && forall a :: a in doc.defs ==> doc.defs[a].refs == {}
  }

  /** When only the one in the middle defines an enum otherwise, the definition of k stays in every order. */
  lemma LowestDecides(doc: Doc, k: Key, b: Key, c: Key, id: string, v: string, w: string)
    requires IsChain(doc, k, b, c) && v != w
    requires Has(Enums, doc.defs[k], id, v) && Has(Enums, doc.defs[b], id, w) && Has(Enums, doc.defs[c], id, v)
    ensures SureToEnd(Enums, doc, k, id, v)
  {
    hide SureToEnd, doc.Ancestors;
    ChainValid(doc, k, b, c);
    ChainReached(doc, k, b, c);
    forall a, u | a in doc.Ancestors(k) && a != k && Lowest(Enums, doc, a, id, u)
      ensures u == v
    {
      hide Reached;
      assert a != b;
      assert a == c;
    }
    OwnEnumStays(doc, k, id);
  }

  lemma ChainValid(doc: Doc, k: Key, b: Key, c: Key)
    requires IsChain(doc, k, b, c)
    ensures doc.Valid()
  {
    hide Reaches;
    RankedAcyclic(doc.Edges(), map[k := 2, b := 1, c := 0]);
  }

  lemma ChainReached(doc: Doc, k: Key, b: Key, c: Key)
    requires IsChain(doc, k, b, c)
    ensures doc.Ancestors(k) <= {k, b, c} && c in Reached(doc.Edges(), b)
  {
    hide Reaches;
    EdgeReaches(doc.Edges(), b, c);
  }
}
