/** Dependency graphs of pipeline nodes: layers, upstream paths, cycles, and how they relate. */
module DagGraph {
  datatype NodeSpec = NodeSpec(id: string, typ: string, params: map<string, string>, after: seq<string>)

  type Graph = map<string, NodeSpec>

  predicate Closed(g: Graph) {
    forall id :: id in g ==> g[id].id == id && forall u :: u in g[id].after ==> u in g
  }

  /** The nodes all of whose upstream paths have fewer than `k` edges, as layered scheduling finds them. */
  function Done(g: Graph, k: nat): set<string> {
    if k == 0 then {} else set id | id in g && forall u :: u in g[id].after ==> u in Done(g, k - 1)
  }

  function Layer(g: Graph, k: nat): set<string> {
    Done(g, k + 1) - Done(g, k)
  }

  lemma {:induction false} DoneGrows(g: Graph, k: nat)
    ensures Done(g, k) <= Done(g, k + 1) <= g.Keys
  {
    if k > 0 {
      DoneGrows(g, k - 1);
    }
  }

  lemma {:induction false} DoneMonotone(g: Graph, j: nat, k: nat)
    requires j <= k
    ensures Done(g, j) <= Done(g, k)
    decreases k - j
  {
    if j < k {
      DoneGrows(g, j);
      DoneMonotone(g, j + 1, k);
    }
  }

  /** An empty layer ends the layering. */
  lemma {:induction false} DoneFixpoint(g: Graph, k: nat, m: nat)
    requires Layer(g, k) == {} && k <= m
    ensures Done(g, m) == Done(g, k)
    decreases m
  {
    if k < m {
      DoneFixpoint(g, k, m - 1);
      DoneGrows(g, k);
      assert Done(g, k + 1) <= Done(g, k) by {
        forall id | id in Done(g, k + 1)
          ensures id in Done(g, k)
        {
          assert id !in Layer(g, k);
        }
      }
    }
  }

  // ---------- paths ----------

  /** Each node of `p` is declared upstream of the next one. */
  predicate IsPath(g: Graph, p: seq<string>) {
    && p != []
    && (forall i :: 0 <= i < |p| ==> p[i] in g)
    && (forall i :: 0 <= i < |p| - 1 ==> p[i] in g[p[i + 1]].after)
  }

  predicate EndsAt(g: Graph, p: seq<string>, id: string, edges: nat) {
    IsPath(g, p) && |p| == edges + 1 && p[edges] == id
  }

  ghost predicate HasPathOf(g: Graph, id: string, edges: nat) {
    exists p: seq<string> :: EndsAt(g, p, id, edges)
  }

  /** `k` is the number of edges of the longest upstream path that ends at `id`. */
  ghost predicate LongestUpstream(g: Graph, id: string, k: nat) {
    HasPathOf(g, id, k) && forall m: nat :: m > k ==> !HasPathOf(g, id, m)
  }

  ghost predicate Acyclic(g: Graph) {
    !exists p: seq<string> :: IsPath(g, p) && |p| >= 2 && p[0] == p[|p| - 1]
  }

  lemma {:induction false} DoneHasNoLongPath(g: Graph, k: nat, id: string, p: seq<string>)
    requires id in Done(g, k)
    ensures !EndsAt(g, p, id, k)
  {
    if k > 0 && EndsAt(g, p, id, k) {
      DoneHasNoLongPath(g, k - 1, p[k - 1], p[..k]);
    }
  }

  lemma {:induction false} NotDoneHasPath(g: Graph, k: nat, id: string) returns (p: seq<string>)
    requires Closed(g) && id in g && id !in Done(g, k)
    ensures EndsAt(g, p, id, k)
  {
    if k == 0 {
      p := [id];
    } else {
      var u :| u in g[id].after && u !in Done(g, k - 1);
      var q := NotDoneHasPath(g, k - 1, u);
      p := q + [id];
    }
  }

  lemma PathIffNotDone(g: Graph, k: nat, id: string)
    requires Closed(g) && id in g
    ensures HasPathOf(g, id, k) <==> id !in Done(g, k)
  {
    if id in Done(g, k) {
      forall p: seq<string>
        ensures !EndsAt(g, p, id, k)
      {
        DoneHasNoLongPath(g, k, id, p);
      }
    } else {
      var p := NotDoneHasPath(g, k, id);
    }
  }

  /** The layer of a node is its longest upstream path. */
  lemma LayerIsLongestPath(g: Graph, k: nat, id: string)
    requires Closed(g) && id in g
    ensures id in Layer(g, k) <==> LongestUpstream(g, id, k)
  {
    DoneGrows(g, k);
    PathIffNotDone(g, k, id);
    PathIffNotDone(g, k + 1, id);
    if id in Layer(g, k) {
      forall m: nat | m > k
        ensures !HasPathOf(g, id, m)
      {
        DoneMonotone(g, k + 1, m);
        PathIffNotDone(g, m, id);
      }
    }
  }

  // ---------- cycles ----------

  lemma {:induction false} CycleNeverDone(g: Graph, p: seq<string>, i: nat, k: nat)
    requires IsPath(g, p) && |p| >= 2 && p[0] == p[|p| - 1] && i < |p|
    ensures p[i] !in Done(g, k)
    decreases k
  {
    if k > 0 {
      var j := if i == 0 then |p| - 2 else i - 1;
      CycleNeverDone(g, p, j, k - 1);
      assert p[j] in g[p[i]].after;
    }
  }

  lemma {:induction false} Pigeonhole(p: seq<string>, s: set<string>) returns (i: nat, j: nat)
    requires (forall x :: x in p ==> x in s) && |p| > |s|
    ensures i < j < |p| && p[i] == p[j]
    decreases |p|
  {
    var n := |p| - 1;
    var x := p[n];
    if x in p[..n] {
      j := n;
      i :| 0 <= i < n && p[i] == x;
    } else {
      assert x in p;
      i, j := Pigeonhole(p[..n], s - {x});
    }
  }

  lemma ExhaustedIsAcyclic(g: Graph, k: nat)
    requires Done(g, k) == g.Keys
    ensures Acyclic(g)
  {
    hide Done;
    forall p: seq<string> | IsPath(g, p) && |p| >= 2
      ensures p[0] != p[|p| - 1]
    {
      if p[0] == p[|p| - 1] {
        CycleNeverDone(g, p, 0, k);
      }
    }
  }

  lemma PathMembers(g: Graph, p: seq<string>)
    requires IsPath(g, p)
    ensures forall x :: x in p ==> x in g.Keys
  {
  }

  lemma SubPath(g: Graph, p: seq<string>, i: nat, j: nat)
    requires IsPath(g, p) && i <= j < |p|
    ensures IsPath(g, p[i..j + 1])
  {
    var part := p[i..j + 1];
    forall m | 0 <= m < |part| - 1
      ensures part[m] in g[part[m + 1]].after
    {
      assert part[m] == p[i + m] && part[m + 1] == p[i + m + 1];
    }
  }

  lemma ClosedPathIsCycle(g: Graph, p: seq<string>)
    requires IsPath(g, p) && |p| >= 2 && p[0] == p[|p| - 1]
    ensures !Acyclic(g)
  {
    hide IsPath;
  }

  lemma RepeatIsCycle(g: Graph, p: seq<string>, i: nat, j: nat)
    requires IsPath(g, p) && i < j < |p| && p[i] == p[j]
    ensures !Acyclic(g)
  {
    hide IsPath, Acyclic;
    SubPath(g, p, i, j);
    ClosedPathIsCycle(g, p[i..j + 1]);
  }

  /** A node that is never scheduled has upstream paths of every length, so one that repeats a node. */
  lemma UnscheduledIsCyclic(g: Graph, k: nat, id: string)
    requires Closed(g) && Layer(g, k) == {} && id in g && id !in Done(g, k)
    ensures !Acyclic(g)
  {
    hide Done, Acyclic, Closed;
    var m := |g.Keys|;
    if m <= k {
      DoneMonotone(g, m, k);
    } else {
      DoneFixpoint(g, k, m);
    }
    var p := NotDoneHasPath(g, m, id);
    PathMembers(g, p);
    var i, j := Pigeonhole(p, g.Keys);
    RepeatIsCycle(g, p, i, j);
  }

  /** Layering exhausts a graph exactly when the graph has no cycle. */
  lemma AcyclicIffExhausted(g: Graph, k: nat)
    requires Closed(g) && Layer(g, k) == {}
    ensures Acyclic(g) <==> Done(g, k) == g.Keys
  {
    hide Acyclic;
    DoneGrows(g, k);
    if Done(g, k) == g.Keys {
      ExhaustedIsAcyclic(g, k);
    } else {
      var id :| id in g && id !in Done(g, k);
      UnscheduledIsCyclic(g, k, id);
    }
  }
}
