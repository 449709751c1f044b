/** Which packets derive from which: what a packet reaches, and how high it lies when no packet reaches itself. */
module Derivation {
  datatype Key = Key(name: string, version: string)

  type Graph = map<Key, set<Key>>

  ghost predicate IsPath(g: Graph, p: seq<Key>) {
    forall i :: 0 <= i < |p| - 1 ==> p[i] in g && p[i + 1] in g[p[i]]
  }

  /** A path of at least one edge. */
  ghost predicate Reaches(g: Graph, k: Key, d: Key) {
    exists p: seq<Key> :: |p| >= 2 && p[0] == k && p[|p| - 1] == d && IsPath(g, p)
  }

  ghost function Reached(g: Graph, k: Key): (keys: set<Key>)
    ensures keys <= g.Keys
  {
    set d | d in g.Keys && Reaches(g, k, d)
  }

  /** All edges end at nodes, and no node is reached from itself. */
  ghost predicate Acyclic(g: Graph) {
    && (forall k, d :: k in g && d in g[k] ==> d in g)
    && forall k :: k in g ==> !Reaches(g, k, k)
  }

  lemma EdgeReaches(g: Graph, k: Key, d: Key)
    requires k in g && d in g[k]
    ensures Reaches(g, k, d)
  {
    var p := [k, d];
    assert IsPath(g, p);
  }

  lemma ReachesTransitive(g: Graph, k: Key, d: Key, e: Key)
    requires Reaches(g, k, d) && Reaches(g, d, e)
    ensures Reaches(g, k, e)
  {
    var p :| |p| >= 2 && p[0] == k && p[|p| - 1] == d && IsPath(g, p);
    var q :| |q| >= 2 && q[0] == d && q[|q| - 1] == e && IsPath(g, q);
    var r := p + q[1..];
    forall i | 0 <= i < |r| - 1
      ensures r[i] in g && r[i + 1] in g[r[i]]
    {
      if i < |p| - 1 {
        assert r[i] == p[i] && r[i + 1] == p[i + 1];
      } else {
        assert r[i] == q[i + 1 - |p|] && r[i + 1] == q[i + 2 - |p|];
      }
    }
    assert IsPath(g, r) && r[|r| - 1] == e;
  }

  /** The first edge of a path. */
  lemma FirstEdge(g: Graph, k: Key, d: Key) returns (e: Key)
    requires Reaches(g, k, d)
    ensures k in g && e in g[k] && (e == d || Reaches(g, e, d))
  {
    var p :| |p| >= 2 && p[0] == k && p[|p| - 1] == d && IsPath(g, p);
    e := p[1];
    if |p| > 2 {
      var q := p[1..];
      assert IsPath(g, q);
    }
  }

  /** How many nodes a node reaches. */
  ghost function Height(g: Graph, k: Key): nat {
    |Reached(g, k)|
  }

  /** What a node reaches lies lower, when it does not reach itself. */
  lemma HeightFalls(g: Graph, k: Key, d: Key)
    requires d in Reached(g, k) && !Reaches(g, d, d)
    ensures Reached(g, d) <= Reached(g, k) && Height(g, d) < Height(g, k)
  {
    forall e | e in Reached(g, d)
      ensures e in Reached(g, k)
    {
      ReachesTransitive(g, k, d, e);
    }
    assert d !in Reached(g, d);
    SmallerSet(Reached(g, d), Reached(g, k), d);
  }

  lemma NotBack(g: Graph, k: Key, d: Key)
    requires Acyclic(g) && k in g && d in Reached(g, k)
    ensures d != k && k !in Reached(g, d)
  {
    hide IsPath;
    if Reaches(g, d, k) {
      ReachesTransitive(g, k, d, k);
    }
  }

  lemma SmallerSet(a: set<Key>, b: set<Key>, x: Key)
    requires a <= b && x in b && x !in a
    ensures |a| < |b|
  {
    assert b == a + (b - a) && x in b - a;
  }

  /** Edges that always lead to a lower rank make no cycle. */
  lemma RankedAcyclic(g: Graph, rank: map<Key, nat>)
    requires g.Keys == rank.Keys && forall k, d :: k in g && d in g[k] ==> d in g && rank[d] < rank[k]
    ensures Acyclic(g)
  {
    forall k | k in g
      ensures !Reaches(g, k, k)
    {
      forall p: seq<Key> | |p| >= 2 && p[0] == k && IsPath(g, p)
        ensures p[|p| - 1] != k
      {
        RankFalls(g, rank, p, |p| - 1);
      }
    }
  }

  lemma {:induction false} RankFalls(g: Graph, rank: map<Key, nat>, p: seq<Key>, i: nat)
    requires g.Keys == rank.Keys && forall k, d :: k in g && d in g[k] ==> d in g && rank[d] < rank[k]
    requires 1 <= i < |p| && IsPath(g, p)
    ensures p[0] in g && p[i] in g && rank[p[i]] < rank[p[0]]
    decreases i
  {
    if i > 1 {
      RankFalls(g, rank, p, i - 1);
    }
    assert p[i - 1 + 1] in g[p[i - 1]];
  }

  /** A graph with fewer edges reaches less. */
  lemma FewerReach(g: Graph, less: Graph, k: Key, d: Key)
    requires less.Keys == g.Keys && (forall a :: a in g ==> less[a] <= g[a]) && Reaches(less, k, d)
    ensures Reaches(g, k, d)
  {
    var p :| |p| >= 2 && p[0] == k && p[|p| - 1] == d && IsPath(less, p);
    assert IsPath(g, p);
  }
}
