/** merge_packet of the code generator: a packet takes over the definitions of the packets it derives from, and
    the global parameters it refers to. */
module MergePacket {
  import opened Derivation

  /** Definitions by their id or name. */
  type Table = map<string, string>

  /** Definitions as pairs of an id and what it stands for. */
  type Source = set<(string, string)>

  ghost function Pairs(t: Table): (s: Source) {
    set id | id in t :: (id, t[id])
  }

  /** A packet: its definitions, the packets it derives from and the global parameters it refers to. */
  datatype Def = Def(params: Table, enums: Table, structs: Table, derives: set<Key>, refs: set<string>)

  /** All packets of one kind as they were read, and the global parameters. */
  datatype Doc = Doc(defs: map<Key, Def>, globals: Table) {
    ghost function Edges(): (g: Graph)
      ensures g.Keys == defs.Keys
    {
      map k | k in defs :: defs[k].derives
    }

    /** All packets derived from are there, and none derives from itself, directly or not. */
    ghost predicate Acyclic() {
      Derivation.Acyclic(Edges())
    }

    /** A packet and everything it derives from, directly or not. */
    ghost function Ancestors(k: Key): (keys: set<Key>)
      requires k in defs
      ensures k in keys && keys <= defs.Keys
    {
      {k} + Reached(Edges(), k)
    }

    ghost function Height(k: Key): nat {
      Derivation.Height(Edges(), k)
    }

    ghost predicate Valid() {
      Acyclic() && forall k, r :: k in defs && r in defs[k].refs ==> r in globals
    }

    /** Neither two ancestors of a packet, nor one of them and the global parameters it refers to, define the same
        id differently. */
    ghost predicate Consistent(k: Key)
      requires k in defs
    {
      Agree(Resolved(), Ancestors(k)) && Agree(Enums(), Ancestors(k)) && Agree(Structs(), Ancestors(k))
    }

    /** The parameters of each packet, without and with those it refers to. */
    ghost function Params(): (own: map<Key, Source>)
      ensures own.Keys == defs.Keys
    {
      map k | k in defs :: Pairs(defs[k].params)
    }

    ghost function Resolved(): (own: map<Key, Source>)
      ensures own.Keys == defs.Keys
    {
      map k | k in defs :: Pairs(defs[k].params) + (set r | r in defs[k].refs && r in globals :: (r, globals[r]))
    }

    ghost function Enums(): (own: map<Key, Source>)
      ensures own.Keys == defs.Keys
    {
      map k | k in defs :: Pairs(defs[k].enums)
    }

    ghost function Structs(): (own: map<Key, Source>)
      ensures own.Keys == defs.Keys
    {
      map k | k in defs :: Pairs(defs[k].structs)
    }
  }

  // ----- tables gathered from several packets -----

  /** One definition per id. */
  ghost predicate Agree(own: map<Key, Source>, keys: set<Key>)
    requires keys <= own.Keys
  {
    forall a, b, x, y :: a in keys && b in keys && x in own[a] && y in own[b] && x.0 == y.0 ==> x == y
  }

  /** Every id that one of these packets defines is in the table. */
  ghost predicate Covers(t: Table, own: map<Key, Source>, keys: set<Key>)
    requires keys <= own.Keys
  {
    forall a, x :: a in keys && x in own[a] ==> x.0 in t
  }

  /** Every definition in the table is one of these packets. */
  ghost predicate Within(t: Table, own: map<Key, Source>, keys: set<Key>)
    requires keys <= own.Keys
  {
    forall id :: id in t ==> exists a :: a in keys && (id, t[id]) in own[a]
  }

  ghost predicate Below(lower: map<Key, Source>, upper: map<Key, Source>) {
    lower.Keys == upper.Keys && forall a :: a in lower ==> lower[a] <= upper[a]
  }

  ghost predicate Defines(own: map<Key, Source>, a: Key, id: string) {
    a in own && exists v :: (id, v) in own[a]
  }

  /** Packet b says v, and none of the packets in done that b derives from, directly or not, defines the id. */
  ghost predicate SaysLowest(own: map<Key, Source>, g: Graph, b: Key, id: string, v: string, done: set<Key>) {
    b in own && (id, v) in own[b] && forall c :: c in Reached(g, b) && c in done ==> !Defines(own, c, id)
  }

  ghost predicate EntryLowest(id: string, v: string, own: map<Key, Source>, g: Graph, done: set<Key>, all: set<Key>) {
    exists b :: b in all && SaysLowest(own, g, b, id, v, done)
  }

  /** Every id, those in free apart, stands for what a packet says that derives from no packet in done that defines the
      id. */
  ghost predicate FromLowest(t: Table, own: map<Key, Source>, g: Graph, done: set<Key>, all: set<Key>, free: set<string>) {
    forall id :: id in t && id !in free ==> EntryLowest(id, t[id], own, g, done, all)
  }

  /** A table of a packet: it has all ids that the packets in done define, and nothing but what the packets in all
      define; of two definitions, one above the other, the lower one counts. */
  ghost predicate Gathered(t: Table, lower: map<Key, Source>, upper: map<Key, Source>, own: map<Key, Source>, g: Graph,
                           done: set<Key>, all: set<Key>, free: set<string>)
    requires done <= lower.Keys && all <= upper.Keys
  {
    Covers(t, lower, done) && Within(t, upper, all) && FromLowest(t, own, g, done, all, free)
  }

  /** Python's dict.update keeps what both tables have, and prefers the other table. */
  lemma UpdateKeeps(t: Table, u: Table, own: map<Key, Source>, upper: map<Key, Source>, g: Graph, mine: set<Key>,
                    theirs: set<Key>, under: set<Key>, done: set<Key>, all: set<Key>, free: set<string>, more: set<string>)
    requires done <= mine + theirs <= own.Keys && under <= all <= upper.Keys && mine !! under
    requires forall b :: b in under ==> Reached(g, b) <= under
    requires Gathered(t, own, upper, own, g, mine, all, free) && Gathered(u, own, upper, own, g, theirs, under, more)
    ensures Gathered(t + u, own, upper, own, g, done, all, free + more)
  {
    hide SaysLowest, Reached;
    forall id | id in t + u && id !in free + more
      ensures EntryLowest(id, (t + u)[id], own, g, done, all)
    {
      if id in u {
        var b :| b in under && SaysLowest(own, g, b, id, u[id], theirs);
        StillLowest(own, g, b, id, u[id], theirs, done, mine, under);
      } else {
        var b :| b in all && SaysLowest(own, g, b, id, t[id], mine);
        KeptLowest(u, own, g, b, id, t[id], mine, theirs, done);
      }
    }
  }

  /** What lies under the packet taken over has not been settled before. */
  lemma StillLowest(own: map<Key, Source>, g: Graph, b: Key, id: string, v: string, theirs: set<Key>, done: set<Key>,
                    mine: set<Key>, under: set<Key>)
    requires SaysLowest(own, g, b, id, v, theirs) && Reached(g, b) <= under
    requires done <= mine + theirs && mine !! under
    ensures SaysLowest(own, g, b, id, v, done)
  {
    hide Defines, Reached;
  }

  /** An entry that the packet taken over does not replace is defined by none of those it settles. */
  lemma KeptLowest(u: Table, own: map<Key, Source>, g: Graph, b: Key, id: string, v: string, mine: set<Key>,
                   theirs: set<Key>, done: set<Key>)
    requires SaysLowest(own, g, b, id, v, mine) && theirs <= own.Keys && Covers(u, own, theirs) && id !in u
    requires done <= mine + theirs
    ensures SaysLowest(own, g, b, id, v, done)
  {
    hide Reached, Defines, Covers;
    forall c | c in theirs
      ensures !Defines(own, c, id)
    {
      if Defines(own, c, id) {
        DefinedCovered(u, own, theirs, c, id);
      }
    }
  }

  lemma DefinedCovered(t: Table, own: map<Key, Source>, keys: set<Key>, a: Key, id: string)
    requires keys <= own.Keys && Covers(t, own, keys) && a in keys && Defines(own, a, id)
    ensures id in t
  {
    var v :| (id, v) in own[a];
    assert (id, v).0 in t;
  }

  // ----- a packet while it is merged -----

  /** The ancestors of k that do not lie under one of the packets still to be taken over. */
  ghost function Settled(doc: Doc, k: Key, derives: set<Key>): (keys: set<Key>)
    requires doc.Acyclic() && k in doc.defs && derives <= doc.defs.Keys
    ensures keys <= doc.Ancestors(k)
  {
    set a | a in doc.Ancestors(k) && forall d :: d in derives ==> a !in doc.Ancestors(d)
  }

  ghost predicate RefsGathered(refs: set<string>, doc: Doc, done: set<Key>, all: set<Key>)
    requires done <= all <= doc.defs.Keys
  {
    && (forall a, r :: a in done && r in doc.defs[a].refs ==> r in refs)
    && (forall r :: r in refs ==> exists a :: a in all && r in doc.defs[a].refs)
  }

  /** What is known of packet k at any time: it has everything from its settled ancestors and nothing from
      elsewhere. Packets that have not been touched and packets that are done are special cases. */
  ghost predicate InProgress(doc: Doc, k: Key, p: Def)
    requires doc.Acyclic() && k in doc.defs
  {
    var all := doc.Ancestors(k);
    && p.derives <= all - {k}
    && var done := Settled(doc, k, p.derives);
       && Gathered(p.params, doc.Params(), doc.Resolved(), doc.Params(), doc.Edges(), done, all, p.refs)
       && Gathered(p.enums, doc.Enums(), doc.Enums(), doc.Enums(), doc.Edges(), done, all, {})
       && Gathered(p.structs, doc.Structs(), doc.Structs(), doc.Structs(), doc.Edges(), done, all, {})
       && RefsGathered(p.refs, doc, done, all)
  }

  /** What merging promises: every id that the packet or an ancestor defines or refers to, each defined as one of them
      defines it that has no ancestor defining it, and as the global parameter when it is referred to. */
  ghost predicate Merged(doc: Doc, k: Key, p: Def)
    requires doc.Acyclic() && k in doc.defs
  {
    var all := doc.Ancestors(k);
    && p.derives == {}
    && Gathered(p.params, doc.Resolved(), doc.Resolved(), doc.Params(), doc.Edges(), all, all, p.refs)
    && Gathered(p.enums, doc.Enums(), doc.Enums(), doc.Enums(), doc.Edges(), all, all, {})
    && Gathered(p.structs, doc.Structs(), doc.Structs(), doc.Structs(), doc.Edges(), all, all, {})
    && RefsGathered(p.refs, doc, all, all) && GlobalsTaken(p, doc.globals)
  }

  /** A parameter that is referred to is the global one. */
  ghost predicate GlobalsTaken(p: Def, globals: Table) {
    forall r :: r in p.refs ==> r in globals && r in p.params && p.params[r] == globals[r]
  }

  /** One round of the inner loop: take over packet o, known as key. */
  function Absorb(p: Def, o: Def, key: Key): Def {
    Def(p.params + o.params, p.enums + o.enums, p.structs + o.structs, p.derives + o.derives - {key}, p.refs + o.refs)
  }

  /** What a packet derives from has no other ancestors than the packet, and lies lower unless it is the packet. */
  lemma AncestorsTransitive(doc: Doc, k: Key, d: Key)
    requires doc.Acyclic() && k in doc.defs && d in doc.Ancestors(k)
    ensures d in doc.defs && doc.Ancestors(d) <= doc.Ancestors(k)
    ensures d != k ==> doc.Height(d) < doc.Height(k) && k !in doc.Ancestors(d)
  {
    hide IsPath, Reaches;
    if d != k {
      HeightFalls(doc.Edges(), k, d);
      NotBack(doc.Edges(), k, d);
    }
  }

  /** After o has been taken over, the settled ancestors are those settled before, in p or in o. */
  lemma SettledGrows(doc: Doc, k: Key, derives: set<Key>, key: Key, more: set<Key>)
    requires doc.Acyclic() && k in doc.defs && derives <= doc.defs.Keys && more <= doc.defs.Keys
    requires key in derives && key !in more
    ensures Settled(doc, k, derives + more - {key}) <= Settled(doc, k, derives) + Settled(doc, key, more)
  {
    hide doc.Ancestors;
    forall a | a in Settled(doc, k, derives + more - {key}) && a !in Settled(doc, k, derives)
      ensures a in Settled(doc, key, more)
    {
      var d :| d in derives && a in doc.Ancestors(d);
      assert d == key;
    }
  }

  /** Taking over a packet keeps what is known of both. */
  lemma AbsorbKeeps(doc: Doc, k: Key, p: Def, key: Key, o: Def)
    requires doc.Valid() && k in doc.defs && key in p.derives && key in doc.defs
    requires InProgress(doc, k, p) && InProgress(doc, key, o)
    ensures InProgress(doc, k, Absorb(p, o, key))
  {
    hide Covers, Within, FromLowest, Below, doc.Ancestors, doc.Params, doc.Resolved, doc.Enums, doc.Structs;
    var all, theirs, q := doc.Ancestors(k), doc.Ancestors(key), Absorb(p, o, key);
    AncestorsTransitive(doc, k, key);
    AbsorbedDerives(doc, k, p.derives, key, o.derives);
    SettledGrows(doc, k, p.derives, key, o.derives);
    var mine, more, done := Settled(doc, k, p.derives), Settled(doc, key, o.derives), Settled(doc, k, q.derives);
    TableKeys(doc);
    NotSettled(doc, k, p.derives, key);
    UpdateKeeps(p.params, o.params, doc.Params(), doc.Resolved(), doc.Edges(), mine, more, theirs, done, all,
                p.refs, o.refs);
    UpdateKeeps(p.enums, o.enums, doc.Enums(), doc.Enums(), doc.Edges(), mine, more, theirs, done, all, {}, {});
    UpdateKeeps(p.structs, o.structs, doc.Structs(), doc.Structs(), doc.Edges(), mine, more, theirs, done, all, {}, {});
    var none: set<string> := {};
    assert none + none == none;
    RefsKeep(doc, p.refs, o.refs, mine, more, done, theirs, all);
  }

  /** The ancestors of a packet still to be taken over are closed under derives, and none of them is settled. */
  lemma NotSettled(doc: Doc, k: Key, derives: set<Key>, key: Key)
    requires doc.Acyclic() && k in doc.defs && derives <= doc.defs.Keys && key in derives
    ensures Settled(doc, k, derives) !! doc.Ancestors(key)
    ensures forall b :: b in doc.Ancestors(key) ==> Reached(doc.Edges(), b) <= doc.Ancestors(key)
  {
    hide Reached, doc.Acyclic;
    forall b | b in doc.Ancestors(key)
      ensures Reached(doc.Edges(), b) <= doc.Ancestors(key)
    {
      AncestorsTransitive(doc, key, b);
    }
  }

  lemma TableKeys(doc: Doc)
    requires doc.Acyclic()
    ensures doc.Params().Keys == doc.Resolved().Keys == doc.Enums().Keys == doc.Structs().Keys == doc.defs.Keys
    ensures Below(doc.Params(), doc.Resolved())
    ensures Below(doc.Enums(), doc.Enums()) && Below(doc.Structs(), doc.Structs())
  {
  }

  lemma RefsKeep(doc: Doc, r: set<string>, s: set<string>, mine: set<Key>, more: set<Key>, done: set<Key>,
                 theirs: set<Key>, all: set<Key>)
    requires mine <= all <= doc.defs.Keys && more <= theirs <= all && done <= all && done <= mine + more
    requires RefsGathered(r, doc, mine, all) && RefsGathered(s, doc, more, theirs)
    ensures RefsGathered(r + s, doc, done, all)
  {
  }

  /** What is left to take over stays among the proper ancestors; each new entry is lower than the one taken. */
  lemma AbsorbedDerives(doc: Doc, k: Key, derives: set<Key>, key: Key, more: set<Key>)
    requires doc.Acyclic() && k in doc.defs && key in doc.defs && key in derives
    requires derives <= doc.Ancestors(k) - {k} && more <= doc.Ancestors(key) - {key}
    ensures derives + more - {key} <= doc.Ancestors(k) - {k} <= doc.defs.Keys
    ensures more <= doc.defs.Keys && forall d :: d in more ==> doc.Height(d) < doc.Height(key)
  {
    hide doc.Acyclic, doc.Height, Reached;
    AncestorsTransitive(doc, k, key);
    forall d | d in more
      ensures doc.Height(d) < doc.Height(key)
    {
      AncestorsTransitive(doc, key, d);
    }
  }

  /** A packet as it was read. */
  lemma Untouched(doc: Doc, k: Key)
    requires doc.Valid() && k in doc.defs
    ensures InProgress(doc, k, doc.defs[k])
  {
    hide Below;
    var p := doc.defs[k];
    DirectAncestors(doc, k);
    TableKeys(doc);
    OwnDefinitions(doc, k, Settled(doc, k, p.derives), doc.Ancestors(k));
  }

  lemma DirectAncestors(doc: Doc, k: Key)
    requires doc.Acyclic() && k in doc.defs
    ensures doc.defs[k].derives <= doc.Ancestors(k) - {k} && Settled(doc, k, doc.defs[k].derives) <= {k}
  {
    hide IsPath, Reaches;
    var g, derives := doc.Edges(), doc.defs[k].derives;
    forall d | d in derives
      ensures d in doc.Ancestors(k) - {k}
    {
      EdgeReaches(g, k, d);
    }
    forall a | a in Settled(doc, k, derives)
      ensures a == k
    {
      if a != k {
        var e := FirstEdge(g, k, a);
      }
    }
  }

  lemma OwnDefinitions(doc: Doc, k: Key, done: set<Key>, all: set<Key>)
    requires doc.Acyclic() && k in all && done <= {k} && done <= all <= doc.defs.Keys && k !in Reached(doc.Edges(), k)
    requires doc.Params().Keys == doc.Resolved().Keys == doc.Enums().Keys == doc.Structs().Keys == doc.defs.Keys
    ensures var p := doc.defs[k];
            && Gathered(p.params, doc.Params(), doc.Resolved(), doc.Params(), doc.Edges(), done, all, p.refs)
            && Gathered(p.enums, doc.Enums(), doc.Enums(), doc.Enums(), doc.Edges(), done, all, {})
            && Gathered(p.structs, doc.Structs(), doc.Structs(), doc.Structs(), doc.Edges(), done, all, {})
            && RefsGathered(p.refs, doc, done, all)
  {
    hide Gathered, Below, Pairs, Reached, doc.Params, doc.Resolved, doc.Enums, doc.Structs, doc.Acyclic;
    TablesAt(doc, k);
    TableKeys(doc);
    var p := doc.defs[k];
    OwnTable(p.params, doc.Params(), doc.Resolved(), doc.Edges(), k, done, all, p.refs);
    OwnTable(p.enums, doc.Enums(), doc.Enums(), doc.Edges(), k, done, all, {});
    OwnTable(p.structs, doc.Structs(), doc.Structs(), doc.Edges(), k, done, all, {});
  }

  lemma TablesAt(doc: Doc, k: Key)
    requires k in doc.defs
    requires doc.Params().Keys == doc.Enums().Keys == doc.Structs().Keys == doc.defs.Keys
    ensures doc.Params()[k] == Pairs(doc.defs[k].params) && doc.Enums()[k] == Pairs(doc.defs[k].enums)
    ensures doc.Structs()[k] == Pairs(doc.defs[k].structs)
  {
  }

  lemma OwnTable(t: Table, own: map<Key, Source>, upper: map<Key, Source>, g: Graph, k: Key, done: set<Key>, all: set<Key>,
                 free: set<string>)
    requires Below(own, upper) && k in all && done <= {k} && done <= all <= upper.Keys && k !in Reached(g, k)
    requires own[k] == Pairs(t)
    ensures Gathered(t, own, upper, own, g, done, all, free)
  {
    hide Reached;
    forall id | id in t
      ensures (id, t[id]) in upper[k] && SaysLowest(own, g, k, id, t[id], done)
    {
      assert (id, t[id]) in own[k];
    }
  }

  /** The global parameters that are referred to. */
  function Referenced(globals: Table, refs: set<string>): (t: Table)
    requires refs <= globals.Keys
    ensures t.Keys == refs
  {
    map r | r in refs :: globals[r]
  }

  /** When nothing is left to take over, only the referenced parameters are missing. */
  lemma NothingLeft(doc: Doc, k: Key, p: Def, params: Table)
    requires doc.Valid() && k in doc.defs && InProgress(doc, k, p) && p.derives == {}
    requires p.refs <= doc.globals.Keys && params == p.params + Referenced(doc.globals, p.refs)
    ensures Merged(doc, k, p.(params := params))
  {
    hide Covers, Within, FromLowest, Below, Referenced, RefsGathered, GlobalsTaken, doc.Ancestors, doc.Resolved,
         doc.Params, doc.Enums, doc.Structs;
    var all := doc.Ancestors(k);
    assert Settled(doc, k, {}) == all;
    TableKeys(doc);
    AncestorsKnown(doc, k);
    ResolvedCovers(doc, p.params, p.refs, all);
    ResolvedWithin(doc, p.params, p.refs, all);
    OthersLowest(p.params, Referenced(doc.globals, p.refs), doc.Params(), doc.Edges(), all, p.refs);
    TakesGlobals(doc.globals, p, params);
  }

  lemma TakesGlobals(globals: Table, p: Def, params: Table)
    requires p.refs <= globals.Keys && params == p.params + Referenced(globals, p.refs)
    ensures GlobalsTaken(p.(params := params), globals)
  {
  }

  lemma ResolvedCovers(doc: Doc, t: Table, refs: set<string>, all: set<Key>)
    requires doc.Valid() && all <= doc.defs.Keys
    requires Covers(t, doc.Params(), all) && RefsGathered(refs, doc, all, all) && refs <= doc.globals.Keys
    ensures Covers(t + Referenced(doc.globals, refs), doc.Resolved(), all)
  {
    hide doc.Resolved, doc.Params, doc.Valid;
    forall a, x | a in all && x in doc.Resolved()[a]
      ensures x.0 in t + Referenced(doc.globals, refs)
    {
      ResolvedAt(doc, a, x);
    }
  }

  /** Entries for the ids in free do not matter. */
  lemma OthersLowest(t: Table, u: Table, own: map<Key, Source>, g: Graph, all: set<Key>, free: set<string>)
    requires FromLowest(t, own, g, all, all, free) && u.Keys <= free
    ensures FromLowest(t + u, own, g, all, all, free)
  {
    hide EntryLowest;
  }

  lemma AncestorsKnown(doc: Doc, k: Key)
    requires doc.Acyclic() && k in doc.defs
    ensures doc.Ancestors(k) <= doc.defs.Keys
  {
  }

  lemma ResolvedAt(doc: Doc, a: Key, x: (string, string))
    requires a in doc.defs
    ensures x in doc.Resolved()[a] <==>
            || x in doc.Params()[a]
            || (x.0 in doc.defs[a].refs && x.0 in doc.globals && x.1 == doc.globals[x.0])
  {
    hide Pairs;
    var x0 := x.0;
    assert x == (x0, x.1);
  }

  lemma ResolvedWithin(doc: Doc, t: Table, refs: set<string>, all: set<Key>)
    requires doc.Valid() && all <= doc.defs.Keys
    requires Within(t, doc.Resolved(), all) && RefsGathered(refs, doc, all, all) && refs <= doc.globals.Keys
    ensures Within(t + Referenced(doc.globals, refs), doc.Resolved(), all)
  {
    hide doc.Valid, doc.Resolved;
    var u := t + Referenced(doc.globals, refs);
    forall id | id in u
      ensures exists a :: a in all && (id, u[id]) in doc.Resolved()[a]
    {
      if id in refs {
        var b :| b in all && id in doc.defs[b].refs;
        ResolvedAt(doc, b, (id, doc.globals[id]));
      }
    }
  }

  /** Packet k, now p, takes over other packets, as they were read, or itself. */
  function TakeAll(doc: Doc, k: Key, p: Def, keys: seq<Key>): Def
    requires forall i :: 0 <= i < |keys| ==> keys[i] in doc.defs
    decreases |keys|
  {
    if keys == [] then p
    else TakeAll(doc, k, Absorb(p, if keys[0] == k then p else doc.defs[keys[0]], keys[0]), keys[1..])
  }

  // ----- the generator -----

  class Packet {
    var params: Table
    var enums: Table
    var structs: Table
    var derives: set<Key>
    var paramRefs: set<string>

    function Value(): Def
      reads this
    {
      Def(params, enums, structs, derives, paramRefs)
    }

    constructor (def: Def)
      ensures Value() == def
    {
      params, enums, structs, derives, paramRefs := def.params, def.enums, def.structs, def.derives, def.refs;
    }

    /** The updates of the inner loop, for one packet this one derives from. */
    method TakeOver(other: Packet, key: Key)
      requires other != this && key in derives
      modifies this
      ensures Value() == Absorb(old(Value()), other.Value(), key)
      ensures derives == old(derives) + other.derives - {key}
    {
      params := params + other.params;
      enums := enums + other.enums;
      structs := structs + other.structs;
      derives := derives + other.derives;
      paramRefs := paramRefs + other.paramRefs;
      derives := derives - {key};
    }
  }

  /** All packets of the document, each at some point of its merging. */
  ghost predicate Store(doc: Doc, values: map<Key, Def>) {
    doc.Valid() && values.Keys == doc.defs.Keys && forall k :: k in values ==> InProgress(doc, k, values[k])
  }

  ghost function Values(packets: map<Key, Packet>): (values: map<Key, Def>)
    reads packets.Values
    ensures values.Keys == packets.Keys
  {
    map k | k in packets :: packets[k].Value()
  }

  /** The packets that have been merged so far. */
  ghost predicate AllMerged(doc: Doc, values: map<Key, Def>, done: set<Key>) {
    doc.Acyclic() && done <= values.Keys <= doc.defs.Keys && forall k :: k in done ==> Merged(doc, k, values[k])
  }

  lemma AllMergedBegin(doc: Doc, values: map<Key, Def>)
    requires Store(doc, values)
    ensures AllMerged(doc, values, {})
  {
  }

  lemma AllMergedNext(doc: Doc, values: map<Key, Def>, done: set<Key>, k: Key)
    requires AllMerged(doc, values, done) && k in values
    ensures forall p :: Merged(doc, k, p) ==> AllMerged(doc, values[k := p], done + {k})
  {
    hide Merged, doc.Acyclic;
  }

  lemma AllMergedEnd(doc: Doc, packets: map<Key, Packet>)
    requires AllMerged(doc, Values(packets), packets.Keys)
    ensures doc.Acyclic() && packets.Keys <= doc.defs.Keys
    ensures forall k :: k in packets ==> Merged(doc, k, packets[k].Value())
  {
    hide Merged, doc.Acyclic;
    forall k | k in packets
      ensures Merged(doc, k, packets[k].Value())
    {
      assert Values(packets)[k] == packets[k].Value();
    }
  }

  lemma SameValues(packets: map<Key, Packet>, doc: Doc)
    requires packets.Keys == doc.defs.Keys && forall k :: k in packets ==> packets[k].Value() == doc.defs[k]
    ensures Values(packets) == doc.defs
  {
  }

  ghost predicate Distinct(packets: map<Key, Packet>) {
    forall a, b :: a in packets && b in packets && packets[a] == packets[b] ==> a == b
  }

  lemma OneChanged(packets: map<Key, Packet>, values: map<Key, Def>, k: Key)
    requires k in packets && values.Keys == packets.Keys
    requires forall j :: j in packets && j != k ==> packets[j].Value() == values[j]
    ensures Values(packets) == values[k := packets[k].Value()]
  {
  }

  lemma StoreAt(doc: Doc, values: map<Key, Def>, k: Key)
    requires Store(doc, values) && (k in values || k in doc.defs)
    ensures doc.Valid() && values.Keys == doc.defs.Keys && k in values && InProgress(doc, k, values[k])
  {
  }

  lemma StoreKept(doc: Doc, values: map<Key, Def>, k: Key, p: Def)
    requires Store(doc, values) && k in values && InProgress(doc, k, p)
    ensures Store(doc, values[k := p])
  {
    hide InProgress, Agree, Below, doc.Ancestors, doc.Valid;
  }

  /** Every packet still to be taken over is lower than h. */
  ghost predicate Lower(doc: Doc, derives: set<Key>, h: int)
    requires doc.Acyclic() && derives <= doc.defs.Keys
  {
    forall d :: d in derives ==> doc.Height(d) < h
  }

  class Generator {
    var globalParams: Table

    constructor (globals: Table)
      ensures globalParams == globals
    {
      globalParams := globals;
    }

    /** merge_packet terminates, since the greatest height left to take over falls in every round, and leaves
        exactly the definitions of the packet, its ancestors and the referenced globals. */
    method MergePacket(packet: Packet, packets: map<Key, Packet>, ghost doc: Doc, ghost k: Key)
      requires Store(doc, Values(packets)) && Distinct(packets) && globalParams == doc.globals
      requires k in packets && packets[k] == packet
      modifies packet
      ensures doc.Valid() && k in doc.defs && Merged(doc, k, packet.Value()) && Store(doc, Values(packets))
    {
      hide InProgress, Merged, Below, doc.Ancestors, Store, doc.Valid;
      Gather(packet, packets, doc, k);
      ghost var values := Values(packets);
      GatheredAll(doc, values, k, packet.Value());
      ResolveParams(packet);
      Finished(doc, values, k, packet.Value());
      OneChanged(packets, values, k);
    }

    /** The rounds, until there is nothing left to take over. */
    method Gather(packet: Packet, packets: map<Key, Packet>, ghost doc: Doc, ghost k: Key)
      requires Store(doc, Values(packets)) && Distinct(packets) && k in packets && packets[k] == packet
      modifies packet
      ensures Store(doc, Values(packets)) && packet.derives == {} && k in Values(packets)
      ensures Values(packets)[k] == packet.Value()
    {
      hide InProgress, Below, doc.Ancestors, Store;
      StoreAt(doc, Values(packets), k);
      ProperAncestors(doc, k, packet.Value());
      ghost var h := doc.Height(k) as int;
      while packet.derives != {}
        invariant Store(doc, Values(packets)) && packet.derives <= doc.defs.Keys && h >= 0
        invariant Lower(doc, packet.derives, h)
        decreases h
      {
        TakeRound(packet, packets, doc, k, h);
        h := h - 1;
      }
    }

    /** One round of the outer loop: over the packets to be taken over when the round starts, in any order. */
    method TakeRound(packet: Packet, packets: map<Key, Packet>, ghost doc: Doc, ghost k: Key, ghost h: int)
      requires Store(doc, Values(packets)) && Distinct(packets) && doc.Acyclic()
      requires k in packets && packets[k] == packet
      requires packet.derives != {} && packet.derives <= doc.defs.Keys && Lower(doc, packet.derives, h)
      modifies packet
      ensures Store(doc, Values(packets)) && packet.derives <= doc.defs.Keys && h >= 1
      ensures Lower(doc, packet.derives, h - 1)
    {
      hide InProgress, Store, doc.Acyclic, Values;
      ghost var highest :| highest in packet.derives;
      assert doc.Height(highest) < h;
      var todo := packet.derives;
      while todo != {}
        invariant Store(doc, Values(packets)) && todo <= packet.derives <= doc.defs.Keys
        invariant Lower(doc, packet.derives - todo, h - 1) && Lower(doc, todo, h)
        decreases todo
      {
        var key :| key in todo;
        ghost var more := TakeOne(packet, packets, doc, k, key, h);
        todo := todo - {key};
      }
    }

    method TakeOne(packet: Packet, packets: map<Key, Packet>, ghost doc: Doc, ghost k: Key, key: Key, ghost h: int)
      returns (ghost more: set<Key>)
      requires Store(doc, Values(packets)) && Distinct(packets) && doc.Acyclic()
      requires k in packets && packets[k] == packet && key in packet.derives && key in doc.defs
      requires packet.derives <= doc.defs.Keys && doc.Height(key) < h
      modifies packet
      ensures Store(doc, Values(packets)) && packet.derives <= doc.defs.Keys
      ensures more <= doc.defs.Keys && packet.derives == old(packet.derives) + more - {key} && Lower(doc, more, h - 1)
    {
      hide InProgress, Below, doc.Ancestors, Store, Absorb;
      ghost var values := Values(packets);
      StoreAt(doc, values, k);
      StoreAt(doc, values, key);
      AbsorbStep(doc, k, packet.Value(), key, packets[key].Value());
      more := packets[key].derives;
      packet.TakeOver(packets[key], key);
      StoreKept(doc, values, k, packet.Value());
      OneChanged(packets, values, k);
    }

    /** Merging every packet of the document, in any order. */
    method MergeAll(packets: map<Key, Packet>, ghost doc: Doc)
      requires doc.Valid() && packets.Keys == doc.defs.Keys && Distinct(packets) && globalParams == doc.globals
      requires forall k :: k in packets ==> packets[k].Value() == doc.defs[k]
      modifies packets.Values
      ensures forall k :: k in packets ==> Merged(doc, k, packets[k].Value())
    {
      hide InProgress, Merged, AllMerged, Store, doc.Valid, doc.Acyclic, doc.Ancestors;
      SameValues(packets, doc);
      Unmerged(doc, Values(packets));
      var todo := packets.Keys;
      ghost var done: set<Key> := {};
      AllMergedBegin(doc, Values(packets));
      while todo != {}
        invariant Store(doc, Values(packets)) && done + todo == packets.Keys
        invariant AllMerged(doc, Values(packets), done)
        decreases todo
      {
        var k :| k in todo;
        AllMergedNext(doc, Values(packets), done, k);
        ghost var values := Values(packets);
        MergePacket(packets[k], packets, doc, k);
        OneChanged(packets, values, k);
        todo, done := todo - {k}, done + {k};
      }
      AllMergedEnd(doc, packets);
    }

    /** References to global parameters become parameters of the packet. */
    method ResolveParams(packet: Packet)
      requires packet.paramRefs <= globalParams.Keys
      modifies packet
      ensures packet.Value() == old(packet.Value()).(params := packet.params)
      ensures packet.params == old(packet.params) + Referenced(globalParams, old(packet.paramRefs))
    {
      hide Referenced;
      var todo := packet.paramRefs;
      ghost var done: set<string> := {};
      NoGlobals(packet.params, globalParams);
      while todo != {}
        invariant done + todo == packet.paramRefs && packet.Value() == old(packet.Value()).(params := packet.params)
        invariant packet.params == old(packet.params) + Referenced(globalParams, done)
        decreases todo
      {
        var r :| r in todo;
        OneMoreGlobal(old(packet.params), globalParams, done, r);
        packet.params := packet.params[r := globalParams[r]];
        todo, done := todo - {r}, done + {r};
      }
    }
  }

  lemma NoGlobals(params: Table, globals: Table)
    ensures params == params + Referenced(globals, {})
  {
  }

  lemma OneMoreGlobal(params: Table, globals: Table, done: set<string>, r: string)
    requires done <= globals.Keys && r in globals
    ensures (params + Referenced(globals, done))[r := globals[r]] == params + Referenced(globals, done + {r})
  {
  }

  lemma ProperAncestors(doc: Doc, k: Key, p: Def)
    requires doc.Valid() && k in doc.defs && InProgress(doc, k, p)
    ensures doc.Acyclic() && p.derives <= doc.defs.Keys && Lower(doc, p.derives, doc.Height(k))
    ensures p.refs <= doc.globals.Keys
  {
    hide Below, Covers, Within, Settled, doc.Acyclic, doc.Height, Reached;
    assert doc.Acyclic();
    forall d | d in p.derives
      ensures doc.Height(d) < doc.Height(k)
    {
      AncestorsTransitive(doc, k, d);
    }
    RefsGlobal(doc, p.refs, Settled(doc, k, p.derives), doc.Ancestors(k));
  }

  lemma RefsGlobal(doc: Doc, refs: set<string>, done: set<Key>, all: set<Key>)
    requires doc.Valid() && done <= all <= doc.defs.Keys && RefsGathered(refs, doc, done, all)
    ensures refs <= doc.globals.Keys
  {
    hide Below, doc.Acyclic, doc.Ancestors;
  }

  lemma GatheredAll(doc: Doc, values: map<Key, Def>, k: Key, p: Def)
    requires Store(doc, values) && k in values && values[k] == p
    ensures p.refs <= doc.globals.Keys
  {
    hide InProgress;
    ProperAncestors(doc, k, p);
  }

  lemma Finished(doc: Doc, values: map<Key, Def>, k: Key, p: Def)
    requires Store(doc, values) && k in values && values[k].derives == {} && values[k].refs <= doc.globals.Keys
    requires p == values[k].(params := p.params)
    requires p.params == values[k].params + Referenced(doc.globals, values[k].refs)
    ensures doc.Valid() && k in doc.defs && Merged(doc, k, p) && Store(doc, values[k := p])
  {
    hide InProgress, Merged, Below, doc.Ancestors, Store, doc.Valid;
    StoreAt(doc, values, k);
    NothingLeft(doc, k, values[k], p.params);
    MergedIsProgress(doc, k, p);
    StoreKept(doc, values, k, p);
  }

  lemma Unmerged(doc: Doc, values: map<Key, Def>)
    requires doc.Valid() && values == doc.defs
    ensures Store(doc, values) && doc.Acyclic()
  {
    hide InProgress, Below, doc.Ancestors;
    forall k | k in values
      ensures InProgress(doc, k, values[k])
    {
      Untouched(doc, k);
    }
    ValidStore(doc, values);
  }

  lemma ValidStore(doc: Doc, values: map<Key, Def>)
    requires doc.Valid() && values.Keys == doc.defs.Keys && forall k :: k in values ==> InProgress(doc, k, values[k])
    ensures Store(doc, values)
  {
    hide InProgress;
  }

  /** When the ancestors are consistent, merging gives exactly their definitions, and those of the global parameters
      that they refer to. */
  lemma MergedExactly(doc: Doc, k: Key, p: Def, x: (string, string))
    requires doc.Acyclic() && k in doc.defs && Merged(doc, k, p) && doc.Consistent(k)
    ensures var all := doc.Ancestors(k);
            && (x in Pairs(p.params) <==> exists a :: a in all && x in doc.Resolved()[a])
            && (x in Pairs(p.enums) <==> exists a :: a in all && x in doc.Enums()[a])
            && (x in Pairs(p.structs) <==> exists a :: a in all && x in doc.Structs()[a])
  {
    hide Covers, Within, FromLowest, Agree, Pairs, doc.Ancestors, doc.Acyclic, doc.Resolved, doc.Enums, doc.Structs,
         doc.Params;
    var all := doc.Ancestors(k);
    AncestorsKnown(doc, k);
    EntryExactly(p.params, doc.Resolved(), all, x);
    EntryExactly(p.enums, doc.Enums(), all, x);
    EntryExactly(p.structs, doc.Structs(), all, x);
  }

  lemma EntryExactly(t: Table, own: map<Key, Source>, keys: set<Key>, x: (string, string))
    requires keys <= own.Keys && Covers(t, own, keys) && Within(t, own, keys) && Agree(own, keys)
    ensures x in Pairs(t) <==> exists a :: a in keys && x in own[a]
  {
    hide Agree;
    if x.0 in t {
      var b :| b in keys && (x.0, t[x.0]) in own[b];
      if a :| a in keys && x in own[a] {
        SameEntry(own, keys, a, b, x, (x.0, t[x.0]));
      }
    }
  }

  lemma SameEntry(own: map<Key, Source>, keys: set<Key>, a: Key, b: Key, x: (string, string), y: (string, string))
    requires keys <= own.Keys && Agree(own, keys) && a in keys && b in keys && x in own[a] && y in own[b]
    requires x.0 == y.0
    ensures x == y
  {
  }

  /** Then there is only one result of merging, so the order in which packets are merged does not show. */
  lemma MergedUnique(doc: Doc, k: Key, p: Def, q: Def)
    requires doc.Acyclic() && k in doc.defs && Merged(doc, k, p) && Merged(doc, k, q) && doc.Consistent(k)
    ensures p == q
  {
    hide Covers, Within, FromLowest, Agree, doc.Ancestors, doc.Acyclic, doc.Resolved, doc.Enums, doc.Structs, doc.Params;
    var all := doc.Ancestors(k);
    AncestorsKnown(doc, k);
    SameTable(p.params, q.params, doc.Resolved(), all);
    SameTable(p.enums, q.enums, doc.Enums(), all);
    SameTable(p.structs, q.structs, doc.Structs(), all);
    assert p.refs == q.refs;
  }

  lemma SameTable(t: Table, u: Table, own: map<Key, Source>, keys: set<Key>)
    requires keys <= own.Keys && Covers(t, own, keys) && Covers(u, own, keys) && Agree(own, keys)
    requires Within(t, own, keys) && Within(u, own, keys)
    ensures t == u
  {
    hide Covers, Within, Agree;
    TableIn(t, u, own, keys);
    TableIn(u, t, own, keys);
  }

  lemma TableIn(t: Table, u: Table, own: map<Key, Source>, keys: set<Key>)
    requires keys <= own.Keys && Covers(u, own, keys) && Within(u, own, keys) && Within(t, own, keys) && Agree(own, keys)
    ensures forall id :: id in t ==> id in u && u[id] == t[id]
  {
    hide Agree;
    forall id | id in t
      ensures id in u && u[id] == t[id]
    {
      var a :| a in keys && (id, t[id]) in own[a];
      assert (id, t[id]).0 in u;
      var b :| b in keys && (id, u[id]) in own[b];
      SameEntry(own, keys, a, b, (id, t[id]), (id, u[id]));
    }
  }

  /** Otherwise it may show: two ancestors that define an enum differently, taken over in either order. */
  lemma OrderShows()
    ensures var a, b, k := Key("a", "1"), Key("b", "1"), Key("k", "1");
            var none: Table := map[];
            var p := Def(none, none, none, {a, b}, {});
            var doc := Doc(map[a := Def(none, map["e" := "1"], none, {}, {}),
                               b := Def(none, map["e" := "2"], none, {}, {}), k := p], none);
            && TakeAll(doc, k, p, [a, b]).derives == TakeAll(doc, k, p, [b, a]).derives == {}
            && TakeAll(doc, k, p, [a, b]).enums == map["e" := "2"]
            && TakeAll(doc, k, p, [b, a]).enums == map["e" := "1"]
  {
    var a, b, k := Key("a", "1"), Key("b", "1"), Key("k", "1");
    var none: Table := map[];
    var p := Def(none, none, none, {a, b}, {});
    var x, y := Def(none, map["e" := "1"], none, {}, {}), Def(none, map["e" := "2"], none, {}, {});
    var doc := Doc(map[a := x, b := y, k := p], none);
    TakeTwo(doc, k, p, a, b);
    TakeTwo(doc, k, p, b, a);
  }

  lemma TakeTwo(doc: Doc, k: Key, p: Def, a: Key, b: Key)
    requires a in doc.defs && b in doc.defs && a != k && b != k
    ensures TakeAll(doc, k, p, [a, b]) == Absorb(Absorb(p, doc.defs[a], a), doc.defs[b], b)
  {
    var q := Absorb(p, doc.defs[a], a);
    assert [a, b][1..] == [b] && [b][1..] == [];
    assert TakeAll(doc, k, q, [b]) == Absorb(q, doc.defs[b], b);
  }

  // ----- own definitions and inherited ones -----

  /** A proper ancestor of k says this about an id, and none of its own ancestors defines the id. */
  ghost predicate LowestSays(own: map<Key, Source>, g: Graph, k: Key, all: set<Key>, id: string, v: string) {
    exists b :: b in all && b != k && SaysLowest(own, g, b, id, v, all)
  }

  /** An id that a proper ancestor defines stands for what a lowest one of those that define it says, or for the global
      parameter when it is referred to; what the packet itself says is lost. */
  lemma InheritedWins(doc: Doc, k: Key, p: Def, a: Key, x: (string, string))
    requires doc.Valid() && k in doc.defs && Merged(doc, k, p) && a in doc.Ancestors(k) && a != k
    ensures var all, g := doc.Ancestors(k), doc.Edges();
            && (x in doc.Enums()[a] ==> x.0 in p.enums && LowestSays(doc.Enums(), g, k, all, x.0, p.enums[x.0]))
            && (x in doc.Structs()[a] ==> x.0 in p.structs && LowestSays(doc.Structs(), g, k, all, x.0, p.structs[x.0]))
            && (x in doc.Resolved()[a] ==>
                  && x.0 in p.params
                  && if x.0 in p.refs then x.0 in doc.globals && p.params[x.0] == doc.globals[x.0]
                     else LowestSays(doc.Params(), g, k, all, x.0, p.params[x.0]))
  {
    hide Covers, Within, FromLowest, doc.Ancestors, doc.Acyclic, doc.Resolved, doc.Enums, doc.Structs, doc.Params,
         LowestSays;
    var all := doc.Ancestors(k);
    AncestorsKnown(doc, k);
    ProperReached(doc, k, a);
    if x in doc.Enums()[a] {
      ProperEntry(p.enums, doc.Enums(), doc.Enums(), doc.Edges(), k, all, {}, a, x);
    }
    if x in doc.Structs()[a] {
      ProperEntry(p.structs, doc.Structs(), doc.Structs(), doc.Edges(), k, all, {}, a, x);
    }
    if x in doc.Resolved()[a] {
      OwnOrReferred(doc, k, p, a, x);
      ProperEntry(p.params, doc.Resolved(), doc.Params(), doc.Edges(), k, all, p.refs, a, x);
    }
  }

  lemma ProperReached(doc: Doc, k: Key, a: Key)
    requires k in doc.defs && a in doc.Ancestors(k) && a != k
    ensures a in Reached(doc.Edges(), k)
  {
    hide Reached;
  }

  lemma OwnOrReferred(doc: Doc, k: Key, p: Def, a: Key, x: (string, string))
    requires doc.Valid() && k in doc.defs && Merged(doc, k, p) && a in doc.Ancestors(k)
    ensures x in doc.Resolved()[a] ==> x in doc.Params()[a] || x.0 in p.refs
  {
    hide Gathered, doc.Acyclic, doc.Resolved, doc.Params;
    ResolvedAt(doc, a, x);
  }

  lemma ProperEntry(t: Table, lower: map<Key, Source>, own: map<Key, Source>, g: Graph, k: Key, all: set<Key>,
                    free: set<string>, a: Key, x: (string, string))
    requires all <= lower.Keys == own.Keys && Covers(t, lower, all) && FromLowest(t, own, g, all, all, free)
    requires a in all && a in Reached(g, k) && x in lower[a] && (x in own[a] || x.0 in free)
    ensures x.0 in t && (x.0 in free || LowestSays(own, g, k, all, x.0, t[x.0]))
  {
    hide Reached;
    if x.0 !in free {
      var b :| b in all && SaysLowest(own, g, b, x.0, t[x.0], all);
      assert (x.0, x.1) == x && Defines(own, a, x.0);
    }
  }

  /** A packet that defines an enum otherwise than its only parent ends with the definition of the parent. */
  lemma OwnOverridden()
    ensures var a, k := Key("a", "1"), Key("k", "1");
            var none: Table := map[];
            var p := Def(none, map["e" := "0"], none, {a}, {});
            var doc := Doc(map[a := Def(none, map["e" := "1"], none, {}, {}), k := p], none);
            TakeAll(doc, k, p, [a]) == Def(none, map["e" := "1"], none, {}, {})
  {
    var a, k := Key("a", "1"), Key("k", "1");
    var none: Table := map[];
    var p, o := Def(none, map["e" := "0"], none, {a}, {}), Def(none, map["e" := "1"], none, {}, {});
    var doc := Doc(map[a := o, k := p], none);
    assert [a][1..] == [];
    assert TakeAll(doc, k, p, [a]) == Absorb(p, o, a);
    assert map["e" := "0"] + map["e" := "1"] == map["e" := "1"];
  }

  lemma AbsorbStep(doc: Doc, k: Key, p: Def, key: Key, o: Def)
    requires doc.Valid() && k in doc.defs && key in p.derives && key in doc.defs
    requires InProgress(doc, k, p) && InProgress(doc, key, o)
    ensures InProgress(doc, k, Absorb(p, o, key)) && key != k
    ensures o.derives <= doc.defs.Keys && Lower(doc, o.derives, doc.Height(key))
  {
    AbsorbKeeps(doc, k, p, key, o);
    ProperAncestors(doc, key, o);
    assert key in doc.Ancestors(k) - {k};
  }

  lemma MergedIsProgress(doc: Doc, k: Key, p: Def)
    requires doc.Valid() && k in doc.defs && Merged(doc, k, p)
    ensures InProgress(doc, k, p)
  {
    hide Gathered, Below, doc.Ancestors, doc.Params, doc.Resolved, doc.Enums, doc.Structs;
    TableKeys(doc);
    AncestorsKnown(doc, k);
    var all, done := doc.Ancestors(k), Settled(doc, k, {});
    GatheredLess(p.params, doc.Params(), doc.Resolved(), doc.Params(), doc.Edges(), done, all, p.refs);
    GatheredLess(p.enums, doc.Enums(), doc.Enums(), doc.Enums(), doc.Edges(), done, all, {});
    GatheredLess(p.structs, doc.Structs(), doc.Structs(), doc.Structs(), doc.Edges(), done, all, {});
  }

  lemma GatheredLess(t: Table, lower: map<Key, Source>, upper: map<Key, Source>, own: map<Key, Source>, g: Graph,
                     done: set<Key>, all: set<Key>, free: set<string>)
    requires Below(lower, upper) && done <= all <= upper.Keys && Gathered(t, upper, upper, own, g, all, all, free)
    ensures Gathered(t, lower, upper, own, g, done, all, free)
  {
    hide Reached, Defines;
    forall id | id in t && id !in free
      ensures EntryLowest(id, t[id], own, g, done, all)
    {
      var b :| b in all && SaysLowest(own, g, b, id, t[id], all);
      assert SaysLowest(own, g, b, id, t[id], done);
    }
  }
}
