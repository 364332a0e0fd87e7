/**
 Finite dependency graphs, shared by the flow runner and the task runner.

 A graph maps every declared node to the set of nodes it directly depends on. Dependencies
 may dangle (name a node that is not declared) and may form cycles. `Settled(g, ok, n)` is what
 a runner that works in rounds can have finished after `n` rounds when exactly the nodes in `ok`
 succeed once they are run. The lemmas relate that round-by-round view to paths and cycles.
 */
module DependencyGraph {

  type Graph = map<string, set<string>>

  /** A walk along dependency edges; every node but the last is declared. */
  ghost predicate IsPath(g: Graph, p: seq<string>) {
    && |p| > 0
    && forall i :: 0 <= i < |p| - 1 ==> p[i] in g && p[i + 1] in g[p[i]]
  }

  ghost predicate PathFromTo(g: Graph, p: seq<string>, a: string, b: string) {
    IsPath(g, p) && p[0] == a && p[|p| - 1] == b
  }

  /** `a` depends on `b` through one or more edges. */
  ghost predicate Reaches(g: Graph, a: string, b: string) {
    exists p :: PathFromTo(g, p, a, b) && |p| > 1
  }

  ghost predicate OnCycle(g: Graph, a: string) {
    Reaches(g, a, a)
  }

  ghost predicate Acyclic(g: Graph) {
    forall a :: a in g ==> !OnCycle(g, a)
  }

  /** Every dependency names a declared node. */
  ghost predicate Closed(g: Graph) {
    forall a :: a in g ==> g[a] <= g.Keys
  }

  /** `u` is `a` itself or something `a` transitively depends on. */
  ghost predicate Upstream(g: Graph, a: string, u: string) {
    a == u || Reaches(g, a, u)
  }

  /** Nodes finished after `n` rounds: they succeed and all they depend on was finished a round earlier. */
  function Settled(g: Graph, ok: set<string>, n: nat): set<string> {
    if n == 0 then {} else set v | v in g && v in ok && g[v] <= Settled(g, ok, n - 1)
  }

  /** What is settled once no further round changes anything. */
  function Eventually(g: Graph, ok: set<string>): set<string> {
    Settled(g, ok, |g|)
  }

  // ----- paths -----

  lemma ReachesEdge(g: Graph, a: string, b: string)
    requires a in g && b in g[a]
    ensures Reaches(g, a, b)
  {
    assert PathFromTo(g, [a, b], a, b);
  }

  lemma ReachesTransitive(g: Graph, a: string, b: string, c: string)
    requires Reaches(g, a, b) && Reaches(g, b, c)
    ensures Reaches(g, a, c)
  {
    var p :| PathFromTo(g, p, a, b) && |p| > 1;
    var q :| PathFromTo(g, q, b, c) && |q| > 1;
    assert PathFromTo(g, p + q[1..], a, c);
  }

  /** A node reaches `b` exactly when one of its direct dependencies is `b` or reaches it. */
  lemma ReachesUnfold(g: Graph, a: string, b: string)
    requires a in g
    ensures Reaches(g, a, b) <==> exists d :: d in g[a] && Upstream(g, d, b)
  {
    if Reaches(g, a, b) {
      var p :| PathFromTo(g, p, a, b) && |p| > 1;
      assert p[1] in g[a];
      assert PathFromTo(g, p[1..], p[1], b);
      assert Upstream(g, p[1], b);
    }
    if d :| d in g[a] && Upstream(g, d, b) {
      ReachesEdge(g, a, d);
      if d != b {
        ReachesTransitive(g, a, d, b);
      }
    }
  }

  // ----- rounds -----

  lemma {:induction false} SettledGrows(g: Graph, ok: set<string>, m: nat, n: nat)
    requires m <= n
    ensures Settled(g, ok, m) <= Settled(g, ok, n)
  {
    if m > 0 {
      SettledGrows(g, ok, m - 1, n - 1);
    }
  }

  /** As long as only nodes of `ok` have been reached, `ok` makes no difference. */
  lemma {:induction false} SettledAgree(g: Graph, ok: set<string>, n: nat)
    requires Settled(g, g.Keys, n) <= ok
    ensures Settled(g, ok, n) == Settled(g, g.Keys, n)
  {
    if n > 0 {
      SettledGrows(g, g.Keys, n - 1, n);
      SettledAgree(g, ok, n - 1);
    }
  }

  lemma {:induction false} SettledMonotoneInOk(g: Graph, ok: set<string>, ok': set<string>, n: nat)
    requires ok <= ok'
    ensures Settled(g, ok, n) <= Settled(g, ok', n)
  {
    if n > 0 {
      SettledMonotoneInOk(g, ok, ok', n - 1);
    }
  }

  lemma {:induction false} SettledStays(g: Graph, ok: set<string>, k: nat, n: nat)
    requires Settled(g, ok, k) == Settled(g, ok, k + 1) && k <= n
    ensures Settled(g, ok, n) == Settled(g, ok, k)
  {
    if k < n {
      SettledStays(g, ok, k, n - 1);
      assert Settled(g, ok, n) == Settled(g, ok, k + 1);
    }
  }

  /** Either some earlier round was already the last that changed anything, or each added a node. */
  lemma {:induction false} SettledCount(g: Graph, ok: set<string>, n: nat)
    ensures Settled(g, ok, n) <= g.Keys
    ensures |Settled(g, ok, n)| >= n || exists k: nat :: k < n && Settled(g, ok, k) == Settled(g, ok, k + 1)
  {
    if n > 0 {
      SettledCount(g, ok, n - 1);
      SettledGrows(g, ok, n - 1, n);
      var before, after := Settled(g, ok, n - 1), Settled(g, ok, n);
      if before == after {
      } else if |before| >= n - 1 {
        assert after == before + (after - before);
        assert |after - before| > 0;
      }
    }
  }

  lemma SubsetSize<T>(a: set<T>, b: set<T>)
    requires a <= b
    ensures |a| <= |b|
    ensures |a| == |b| ==> a == b
  {
    assert b == a + (b - a);
  }

  /** After as many rounds as there are nodes, nothing changes any more. */
  lemma EventuallyIsLimit(g: Graph, ok: set<string>, n: nat)
    ensures Settled(g, ok, n) <= Eventually(g, ok)
    ensures n >= |g| ==> Settled(g, ok, n) == Eventually(g, ok)
  {
    SettledCount(g, ok, |g| + 1);
    SubsetSize(Settled(g, ok, |g| + 1), g.Keys);
    var k: nat :| k <= |g| && Settled(g, ok, k) == Settled(g, ok, k + 1);
    SettledStays(g, ok, k, |g|);
    if n >= k {
      SettledStays(g, ok, k, n);
    } else {
      SettledGrows(g, ok, n, k);
    }
  }

  /** The limit is a fixed point of one round. */
  lemma EventuallyUnfold(g: Graph, ok: set<string>)
    ensures forall v :: v in Eventually(g, ok) <==> v in g && v in ok && g[v] <= Eventually(g, ok)
  {
    EventuallyIsLimit(g, ok, |g| + 1);
  }

  /** `done` records what a runner has finished after each round, possibly with a head start. */
  ghost predicate IsRound(g: Graph, ok: set<string>, done: nat -> set<string>, k: nat) {
    forall v :: v in done(k + 1) <==> v in done(k) || (v in g && v in ok && g[v] <= done(k))
  }

  /** A runner that has a head start is never behind, and never ahead by more than that head start. */
  lemma {:induction false} RoundsBound(g: Graph, ok: set<string>, done: nat -> set<string>, head: nat, n: nat)
    requires done(0) <= Settled(g, ok, head) && forall k: nat :: IsRound(g, ok, done, k)
    ensures Settled(g, ok, n) <= done(n) <= Settled(g, ok, n + head)
  {
    if n > 0 {
      RoundsBound(g, ok, done, head, n - 1);
      assert IsRound(g, ok, done, n - 1);
      SettledGrows(g, ok, n - 1 + head, n + head);
    }
  }

  // ----- rounds against paths -----

  /** Walking `i` edges up from a node settled by round `n` ends at one settled by round `n - i`. */
  lemma {:induction false} SettledAlongPath(g: Graph, ok: set<string>, n: nat, p: seq<string>)
    requires IsPath(g, p) && p[0] in Settled(g, ok, n)
    ensures |p| <= n && p[|p| - 1] in Settled(g, ok, n + 1 - |p|)
  {
    if |p| > 1 {
      assert p[1] in Settled(g, ok, n - 1);
      SettledAlongPath(g, ok, n - 1, p[1..]);
    }
  }

  lemma {:induction false} SettledIsOffCycles(g: Graph, ok: set<string>, n: nat, v: string)
    requires v in Settled(g, ok, n)
    ensures !OnCycle(g, v)
  {
    if OnCycle(g, v) {
      var p :| PathFromTo(g, p, v, v) && |p| > 1;
      SettledAlongPath(g, ok, n, p);
      SettledIsOffCycles(g, ok, n + 1 - |p|, v);
    }
  }

  /** From a node that is not settled after `n` rounds one can walk up unsettled nodes, until a
      node that cannot succeed or that is not declared, or for `n` edges. */
  lemma {:induction false} UnsettledWalk(g: Graph, ok: set<string>, n: nat, v: string) returns (p: seq<string>)
    requires v !in Settled(g, ok, n)
    ensures IsPath(g, p) && p[0] == v && |p| <= n + 1
    ensures |p| == n + 1 || p[|p| - 1] !in g || p[|p| - 1] !in ok
  {
    if n == 0 || v !in g || v !in ok {
      p := [v];
    } else {
      var d :| d in g[v] && d !in Settled(g, ok, n - 1);
      var q := UnsettledWalk(g, ok, n - 1, d);
      p := [v] + q;
    }
  }

  function Elements(p: seq<string>): set<string> {
    set x | x in p
  }

  lemma {:induction false} DistinctSize(p: seq<string>)
    requires forall i, j :: 0 <= i < j < |p| ==> p[i] != p[j]
    ensures |Elements(p)| == |p|
  {
    if p != [] {
      var rest := p[..|p| - 1];
      DistinctSize(rest);
      assert Elements(p) == Elements(rest) + {p[|p| - 1]};
    }
  }

  /** A walk with more nodes than the graph runs into a cycle. */
  lemma LongWalkMeetsCycle(g: Graph, p: seq<string>) returns (u: string)
    requires IsPath(g, p) && |p| > |g| + 1
    ensures Upstream(g, p[0], u) && OnCycle(g, u)
  {
    var q := p[..|p| - 1];
    if forall i, j :: 0 <= i < j < |q| ==> q[i] != q[j] {
      DistinctSize(q);
      SubsetSize(Elements(q), g.Keys);
    }
    var i, j :| 0 <= i < j < |q| && q[i] == q[j];
    u := q[i];
    assert PathFromTo(g, p[i..j + 1], u, u);
    assert PathFromTo(g, p[..i + 1], p[0], u);
  }

  /** A node is eventually settled exactly when everything upstream of it, itself included, is
      declared, succeeds, and lies on no cycle. */
  lemma EventuallyIff(g: Graph, ok: set<string>, v: string)
    ensures v in Eventually(g, ok) <==>
            forall u :: Upstream(g, v, u) ==> u in g && u in ok && !OnCycle(g, u)
  {
    if v in Eventually(g, ok) {
      forall u | Upstream(g, v, u)
        ensures u in g && u in ok && !OnCycle(g, u)
      {
        var p := if u == v then [v] else var p :| PathFromTo(g, p, v, u) && |p| > 1; p;
        SettledAlongPath(g, ok, |g|, p);
        SettledIsOffCycles(g, ok, |g| + 1 - |p|, u);
      }
    } else {
      EventuallyIsLimit(g, ok, |g| + 1);
      var p := UnsettledWalk(g, ok, |g| + 1, v);
      var last := p[|p| - 1];
      if last !in g || last !in ok {
        assert PathFromTo(g, p, v, last);
        assert Upstream(g, v, last);
      } else {
        var u := LongWalkMeetsCycle(g, p);
      }
    }
  }

  /** The round in which a node settles is the length of its longest dependency chain. */
  lemma SettledIffChains(g: Graph, n: nat, v: string)
    requires Closed(g) && v in g
    ensures v in Settled(g, g.Keys, n) <==> forall p :: IsPath(g, p) && p[0] == v ==> |p| <= n
  {
    if v in Settled(g, g.Keys, n) {
      forall p | IsPath(g, p) && p[0] == v
        ensures |p| <= n
      {
        SettledAlongPath(g, g.Keys, n, p);
      }
    } else {
      var p := UnsettledWalk(g, g.Keys, n, v);
      if |p| > 1 {
        assert p[|p| - 2] in g;
      }
    }
  }

  /** In a closed graph every node settles exactly when there is no cycle. */
  lemma AcyclicIffAllSettle(g: Graph)
    requires Closed(g)
    ensures Acyclic(g) <==> Eventually(g, g.Keys) == g.Keys
  {
    EventuallyIsLimit(g, g.Keys, |g|);
    SettledCount(g, g.Keys, |g|);
    forall v | v in g
      ensures v in Eventually(g, g.Keys) ==> !OnCycle(g, v)
      ensures Acyclic(g) ==> v in Eventually(g, g.Keys)
    {
      if v in Eventually(g, g.Keys) {
        SettledIsOffCycles(g, g.Keys, |g|, v);
      }
      if Acyclic(g) {
        forall u | Upstream(g, v, u)
          ensures u in g
        {
          StaysInside(g, v, u);
        }
        EventuallyIff(g, g.Keys, v);
      }
    }
  }

  /** Every node of a closed graph settles in the end exactly when all succeed and there is no cycle. */
  lemma AllSettleIff(g: Graph, ok: set<string>)
    requires Closed(g) && ok <= g.Keys
    ensures Eventually(g, ok) == g.Keys <==> ok == g.Keys && Acyclic(g)
  {
    AcyclicIffAllSettle(g);
    if Eventually(g, ok) == g.Keys {
      forall v | v in g ensures v in ok {
        EventuallyUnfold(g, ok);
      }
      assert ok == g.Keys;
    }
  }

  lemma StaysInside(g: Graph, v: string, u: string)
    requires Closed(g) && v in g && Upstream(g, v, u)
    ensures u in g
  {
    if v != u {
      var p :| PathFromTo(g, p, v, u) && |p| > 1;
      assert p[|p| - 2] in g;
    }
  }
}
