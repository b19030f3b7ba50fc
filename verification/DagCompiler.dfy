/** The pipeline compiler: validation, then a layered topological sort by in-degree counting. */
module DagCompiler {
  import opened DagGraph
  import opened Options
  import opened Strings

  datatype PipelineSpec = PipelineSpec(id: string, nodes: seq<NodeSpec>)

  datatype Plan = Plan(stages: seq<seq<NodeSpec>>)

  datatype Error =
    | Empty
    | MissingId
    | DuplicateId(id: string)
    | UnknownType(node: string)
    | UnknownAfter(node: string, upstream: string)
    | Cycle

  datatype Result = Ok(plan: Plan) | Err(error: Error)

  class Registry {
    var known: set<string>

    constructor (types: seq<string>)
      ensures known == set t | t in types
    {
      known := set t | t in types;
    }

    method Add(t: string)
      modifies this
      ensures known == old(known) + {t}
    {
      known := known + {t};
    }

    predicate Has(t: string)
      reads this
    {
      t in known
    }
  }

  // ---------- what the compiler must produce ----------

  /** The index by id; of equal ids the last wins, which only matters for rejected specs. */
  function ById(nodes: seq<NodeSpec>): Graph {
    if nodes == [] then map[]
    else
      var n := nodes[|nodes| - 1];
      ById(nodes[..|nodes| - 1])[n.id := n]
  }

  predicate GoodIds(nodes: seq<NodeSpec>) {
    && (forall i :: 0 <= i < |nodes| ==> nodes[i].id != "")
    && (forall i, j :: 0 <= i < j < |nodes| ==> nodes[i].id != nodes[j].id)
  }

  predicate KnownTypes(nodes: seq<NodeSpec>, reg: Registry?)
    reads reg
  {
    reg == null || forall n :: n in nodes ==> reg.Has(n.typ)
  }

  predicate KnownUpstreams(nodes: seq<NodeSpec>) {
    forall n, u :: n in nodes && u in n.after ==> u in ById(nodes)
  }

  predicate WellFormed(nodes: seq<NodeSpec>, reg: Registry?)
    reads reg
  {
    nodes != [] && GoodIds(nodes) && KnownTypes(nodes, reg) && KnownUpstreams(nodes)
  }

  function Ids(stage: seq<NodeSpec>): seq<string> {
    seq(|stage|, i requires 0 <= i < |stage| => stage[i].id)
  }

  /** Stage `k` lists, sorted by id, the nodes whose longest upstream path has `k` edges. */
  ghost predicate IsStage(g: Graph, k: nat, stage: seq<NodeSpec>) {
    && stage != []
    && StrictlySorted(Ids(stage))
    && (forall i :: 0 <= i < |stage| ==> stage[i].id in g && stage[i] == g[stage[i].id])
    && (forall id :: id in g ==> (id in Ids(stage) <==> LongestUpstream(g, id, k)))
  }

  ghost predicate IsPlan(g: Graph, plan: Plan) {
    && (forall k :: 0 <= k < |plan.stages| ==> IsStage(g, k, plan.stages[k]))
    && (forall id :: id in g ==> exists k :: 0 <= k < |plan.stages| && id in Ids(plan.stages[k]))
  }

  lemma {:induction false} IndexOfDistinct(nodes: seq<NodeSpec>)
    requires forall i, j :: 0 <= i < j < |nodes| ==> nodes[i].id != nodes[j].id
    ensures forall n :: n in nodes ==> n.id in ById(nodes) && ById(nodes)[n.id] == n
    ensures forall id :: id in ById(nodes) ==> ById(nodes)[id] in nodes && ById(nodes)[id].id == id
    ensures |ById(nodes)| == |nodes|
  {
    if nodes != [] {
      var m := |nodes| - 1;
      var front, last := nodes[..m], nodes[m];
      IndexOfDistinct(front);
      assert ById(nodes) == ById(front)[last.id := last];
      hide ById;
      assert forall n :: n in nodes <==> n in front || n == last;
      forall n | n in front
        ensures n.id != last.id
      {
        var i :| 0 <= i < m && front[i] == n;
        assert nodes[i].id != nodes[m].id;
      }
    }
  }

  // ---------- uniqueness ----------

  lemma LongestUnique(g: Graph, id: string, j: nat, k: nat)
    requires LongestUpstream(g, id, j) && LongestUpstream(g, id, k)
    ensures j == k
  {
  }

  lemma StageUnique(g: Graph, k: nat, a: seq<NodeSpec>, b: seq<NodeSpec>)
    requires IsStage(g, k, a) && IsStage(g, k, b)
    ensures a == b
  {
    forall id
      ensures id in Ids(a) <==> id in Ids(b)
    {
      if id in Ids(a) {
        var i :| 0 <= i < |a| && Ids(a)[i] == id;
        assert a[i].id in g;
      }
      if id in Ids(b) {
        var i :| 0 <= i < |b| && Ids(b)[i] == id;
        assert b[i].id in g;
      }
    }
    SortedUnique(Ids(a), Ids(b));
    assert |Ids(a)| == |Ids(b)|;
    forall i | 0 <= i < |a|
      ensures a[i] == b[i]
    {
      assert a[i].id == Ids(a)[i] == Ids(b)[i] == b[i].id;
    }
  }

  lemma StageCount(g: Graph, p: Plan, q: Plan)
    requires IsPlan(g, p) && IsPlan(g, q)
    ensures |p.stages| <= |q.stages|
  {
    hide LongestUpstream, StrictlySorted;
    if |p.stages| > |q.stages| {
      var k := |q.stages|;
      var stage := p.stages[k];
      assert IsStage(g, k, stage);
      var id := stage[0].id;
      assert id == Ids(stage)[0];
      var j :| 0 <= j < |q.stages| && id in Ids(q.stages[j]);
      assert IsStage(g, j, q.stages[j]);
      LongestUnique(g, id, j, k);
    }
  }

  /** A graph has at most one plan: neither map iteration order nor anything else shows in it. */
  lemma PlanUnique(g: Graph, p: Plan, q: Plan)
    requires IsPlan(g, p) && IsPlan(g, q)
    ensures p == q
  {
    StageCount(g, p, q);
    StageCount(g, q, p);
    forall k | 0 <= k < |p.stages|
      ensures p.stages[k] == q.stages[k]
    {
      StageUnique(g, k, p.stages[k], q.stages[k]);
    }
  }

  lemma SameIndex(a: seq<NodeSpec>, b: seq<NodeSpec>)
    requires GoodIds(a) && GoodIds(b) && (forall n :: n in a <==> n in b)
    ensures ById(a) == ById(b)
  {
    var x, y := ById(a), ById(b);
    IndexOfDistinct(a);
    IndexOfDistinct(b);
    forall id
      ensures id in x <==> id in y
      ensures id in x ==> x[id] == y[id]
    {
      if id in x {
        assert x[id] in b;
      }
      if id in y {
        assert y[id] in a;
      }
    }
  }

  /** Reordering the nodes of a spec does not change its plan. */
  lemma InputOrderIrrelevant(a: seq<NodeSpec>, b: seq<NodeSpec>, p: Plan, q: Plan)
    requires GoodIds(a) && GoodIds(b) && (forall n :: n in a <==> n in b)
    requires IsPlan(ById(a), p) && IsPlan(ById(b), q)
    ensures p == q
  {
    SameIndex(a, b);
    PlanUnique(ById(a), p, q);
  }

  // ---------- the linear order ----------

  function Flatten(stages: seq<seq<NodeSpec>>): seq<NodeSpec> {
    if stages == [] then [] else Flatten(stages[..|stages| - 1]) + stages[|stages| - 1]
  }

  method LinearOrder(p: Plan) returns (out: seq<NodeSpec>)
    ensures out == Flatten(p.stages)
  {
    out := [];
    for k := 0 to |p.stages|
      invariant out == Flatten(p.stages[..k])
    {
      assert p.stages[..k + 1][..k] == p.stages[..k];
      out := out + p.stages[k];
    }
    assert p.stages[..|p.stages|] == p.stages;
  }

  /** The node at position `i` of the flattened stages is in one of them; later positions are not in
      earlier stages. */
  lemma {:induction false} FlattenPosition(stages: seq<seq<NodeSpec>>, i: nat, j: nat)
    requires i < j < |Flatten(stages)|
    ensures exists k: nat, m: nat ::
              k <= m < |stages| && Flatten(stages)[i] in stages[k] && Flatten(stages)[j] in stages[m]
  {
    var n := |stages| - 1;
    var front := Flatten(stages[..n]);
    if j < |front| {
      FlattenPosition(stages[..n], i, j);
      var k: nat, m: nat :| k <= m < n && front[i] in stages[..n][k] && front[j] in stages[..n][m];
      assert Flatten(stages)[i] in stages[k] && Flatten(stages)[j] in stages[m];
    } else if i < |front| {
      var k := StageOf(stages[..n], i);
      assert Flatten(stages)[i] in stages[k] && Flatten(stages)[j] in stages[n];
    } else {
      assert Flatten(stages)[i] in stages[n] && Flatten(stages)[j] in stages[n];
    }
  }

  lemma {:induction false} StageOf(stages: seq<seq<NodeSpec>>, i: nat) returns (k: nat)
    requires i < |Flatten(stages)|
    ensures k < |stages| && Flatten(stages)[i] in stages[k]
  {
    var n := |stages| - 1;
    if i < |Flatten(stages[..n])| {
      k := StageOf(stages[..n], i);
    } else {
      k := n;
    }
  }

  /** In the linear order of a plan no node comes before one of its upstream nodes. */
  lemma LinearOrderIsTopological(g: Graph, p: Plan, i: nat, j: nat)
    requires IsPlan(g, p) && Closed(g) && i < j < |Flatten(p.stages)|
    ensures Flatten(p.stages)[j].id !in Flatten(p.stages)[i].after
  {
    FlattenPosition(p.stages, i, j);
    var first, second := Flatten(p.stages)[i], Flatten(p.stages)[j];
    var k: nat, m: nat :| k <= m < |p.stages| && first in p.stages[k] && second in p.stages[m];
    StageMember(g, k, p.stages[k], first);
    StageMember(g, m, p.stages[m], second);
    if second.id in first.after {
      UpstreamIsEarlier(g, first.id, k, second.id, m);
    }
  }

  ghost predicate AreStages(g: Graph, stages: seq<seq<NodeSpec>>) {
    forall k :: 0 <= k < |stages| ==> IsStage(g, k, stages[k])
  }

  ghost predicate InLayerBelow(g: Graph, id: string, n: nat) {
    exists k: nat :: k < n && LongestUpstream(g, id, k)
  }

  lemma StageIds(g: Graph, k: nat, stage: seq<NodeSpec>)
    requires IsStage(g, k, stage)
    ensures Distinct(Ids(stage))
    ensures forall i :: 0 <= i < |stage| ==>
              stage[i].id in g && stage[i] == g[stage[i].id] && LongestUpstream(g, stage[i].id, k)
  {
    StrictIsDistinct(Ids(stage));
    forall i | 0 <= i < |stage|
      ensures LongestUpstream(g, stage[i].id, k)
    {
      assert Ids(stage)[i] == stage[i].id;
    }
  }

  /** The flattened stages hold nodes of the graph, no id twice. */
  lemma {:induction false} FlattenDistinct(g: Graph, stages: seq<seq<NodeSpec>>)
    requires AreStages(g, stages)
    ensures Distinct(Ids(Flatten(stages)))
    ensures forall i :: 0 <= i < |Flatten(stages)| ==>
              var n := Flatten(stages)[i];
              n.id in g && n == g[n.id] && InLayerBelow(g, n.id, |stages|)
  {
    hide LongestUpstream, IsStage;
    if stages != [] {
      var n := |stages| - 1;
      var front, last := Flatten(stages[..n]), stages[n];
      FlattenDistinct(g, stages[..n]);
      StageIds(g, n, last);
      forall i, j | 0 <= i < |front| && 0 <= j < |last|
        ensures front[i].id != last[j].id
      {
        var k: nat :| k < n && LongestUpstream(g, front[i].id, k);
        if front[i].id == last[j].id {
          LongestUnique(g, last[j].id, k, n);
        }
      }
      forall i | 0 <= i < |front + last|
        ensures InLayerBelow(g, (front + last)[i].id, n + 1)
      {
        if i < |front| {
          var k: nat :| k < n && LongestUpstream(g, front[i].id, k);
        }
      }
      JoinDistinct(front, last);
    }
  }

  lemma JoinDistinct(a: seq<NodeSpec>, b: seq<NodeSpec>)
    requires Distinct(Ids(a)) && Distinct(Ids(b))
    requires forall i, j :: 0 <= i < |a| && 0 <= j < |b| ==> a[i].id != b[j].id
    ensures Distinct(Ids(a + b))
  {
    assert Ids(a + b) == Ids(a) + Ids(b);
  }

  lemma {:induction false} FlattenHolds(stages: seq<seq<NodeSpec>>, k: nat, id: string)
    requires k < |stages| && id in Ids(stages[k])
    ensures id in Ids(Flatten(stages))
  {
    var n := |stages| - 1;
    assert Ids(Flatten(stages)) == Ids(Flatten(stages[..n])) + Ids(stages[n]);
    if k < n {
      FlattenHolds(stages[..n], k, id);
    }
  }

  /** The linear order of a plan holds every node of the graph exactly once. */
  lemma LinearOrderHoldsEachOnce(g: Graph, p: Plan)
    requires IsPlan(g, p)
    ensures var out := Flatten(p.stages);
            && |out| == |g|
            && (forall i :: 0 <= i < |out| ==> out[i].id in g && out[i] == g[out[i].id])
            && (forall i, j :: 0 <= i < j < |out| ==> out[i].id != out[j].id)
            && (forall id :: id in g ==> g[id] in out)
  {
    hide IsStage, Flatten, InLayerBelow, ToSet;
    var out := Flatten(p.stages);
    FlattenDistinct(g, p.stages);
    forall id | id in g
      ensures id in Ids(out)
    {
      var k :| 0 <= k < |p.stages| && id in Ids(p.stages[k]);
      FlattenHolds(p.stages, k, id);
    }
    hide IsPlan;
    EachOnce(g, out);
  }

  /** A list of nodes of the graph without repetition that misses none. */
  lemma EachOnce(g: Graph, out: seq<NodeSpec>)
    requires Distinct(Ids(out)) && forall i :: 0 <= i < |out| ==> out[i].id in g && out[i] == g[out[i].id]
    requires forall id :: id in g ==> id in Ids(out)
    ensures |out| == |g| && (forall id :: id in g ==> g[id] in out)
    ensures forall i, j :: 0 <= i < j < |out| ==> out[i].id != out[j].id
  {
    forall id | id in g
      ensures g[id] in out
    {
      var i :| 0 <= i < |out| && Ids(out)[i] == id;
      assert out[i] == g[id];
    }
    forall i, j | 0 <= i < j < |out|
      ensures out[i].id != out[j].id
    {
      assert Ids(out)[i] != Ids(out)[j];
    }
    CardinalityOfDistinct(Ids(out));
    assert ToSet(Ids(out)) == g.Keys;
  }

  /** Only acyclic graphs have a plan, so a linear order never has a cycle to report. */
  lemma PlansAreAcyclic(g: Graph, p: Plan)
    requires IsPlan(g, p) && Closed(g)
    ensures Acyclic(g)
  {
    hide Done, LongestUpstream, HasPathOf;
    forall path: seq<string> | IsPath(g, path) && |path| >= 2
      ensures path[0] != path[|path| - 1]
    {
      if path[0] == path[|path| - 1] {
        CycleIsUnplanned(g, p, path);
      }
    }
  }

  lemma CycleIsUnplanned(g: Graph, p: Plan, path: seq<string>)
    requires Closed(g) && IsPath(g, path) && |path| >= 2 && path[0] == path[|path| - 1]
    ensures !IsPlan(g, p)
  {
    hide Done, Acyclic, StrictlySorted;
    if IsPlan(g, p) {
      var id := path[0];
      var k :| 0 <= k < |p.stages| && id in Ids(p.stages[k]);
      assert IsStage(g, k, p.stages[k]) && LongestUpstream(g, id, k);
      CycleNeverDone(g, path, 0, k + 1);
      PathIffNotDone(g, k + 1, id);
    }
  }

  lemma UpstreamIsEarlier(g: Graph, id: string, k: nat, up: string, m: nat)
    requires id in g && LongestUpstream(g, id, k) && LongestUpstream(g, up, m) && up in g[id].after
    ensures m < k
  {
    var path: seq<string> :| EndsAt(g, path, up, m);
    assert EndsAt(g, path + [id], id, m + 1);
    assert HasPathOf(g, id, m + 1);
  }

  lemma StageMember(g: Graph, k: nat, stage: seq<NodeSpec>, n: NodeSpec)
    requires IsStage(g, k, stage) && n in stage
    ensures n.id in g && g[n.id] == n && LongestUpstream(g, n.id, k)
  {
    var i :| 0 <= i < |stage| && stage[i] == n;
    assert Ids(stage)[i] == n.id;
  }

  // ---------- in-degrees ----------

  /** The entries of an `After` list (repetitions counted) that are not yet scheduled. */
  function Waiting(after: seq<string>, scheduled: set<string>): nat {
    if after == [] then 0
    else
      var n := |after| - 1;
      Waiting(after[..n], scheduled) + if after[n] in scheduled then 0 else 1
  }

  lemma {:induction false} WaitingNone(after: seq<string>, scheduled: set<string>)
    ensures Waiting(after, scheduled) == 0 <==> forall u :: u in after ==> u in scheduled
    ensures Waiting(after, {}) == |after|
  {
    if after != [] {
      var n := |after| - 1;
      WaitingNone(after[..n], scheduled);
      assert after == after[..n] + [after[n]];
    }
  }

  /** Scheduling one more node settles its occurrences. */
  lemma {:induction false} WaitingStep(after: seq<string>, scheduled: set<string>, id: string)
    requires id !in scheduled
    ensures Waiting(after, scheduled + {id}) == Waiting(after, scheduled) - multiset(after)[id]
  {
    if after != [] {
      var n := |after| - 1;
      WaitingStep(after[..n], scheduled, id);
      assert after == after[..n] + [after[n]];
    }
  }

  function Children(children: map<string, seq<string>>, id: string): seq<string> {
    if id in children then children[id] else []
  }

  /** How often `c`, if it is among `nodes`, lists `u` as upstream. */
  function Mentions(g: Graph, nodes: set<string>, u: string, c: string): nat {
    if c in nodes && c in g then multiset(g[c].after)[u] else 0
  }

  /** `children` inverts the `After` lists, repetitions included. */
  ghost predicate Inverts(g: Graph, nodes: set<string>, children: map<string, seq<string>>) {
    forall u, c :: multiset(Children(children, u))[c] == Mentions(g, nodes, u, c)
  }

  /** Records node `id` under each of its upstream entries. */
  method AddChildren(start: map<string, seq<string>>, id: string, after: seq<string>)
    returns (children: map<string, seq<string>>)
    ensures forall u, c :: multiset(Children(children, u))[c]
                           == multiset(Children(start, u))[c] + (if c == id then multiset(after)[u] else 0)
  {
    children := start;
    for j := 0 to |after|
      invariant forall u, c :: multiset(Children(children, u))[c]
                               == multiset(Children(start, u))[c] + (if c == id then multiset(after[..j])[u] else 0)
    {
      var up := after[j];
      assert after[..j + 1] == after[..j] + [up];
      children := children[up := Children(children, up) + [id]];
    }
    assert after[..|after|] == after;
  }

  method CountInDegrees(g: Graph) returns (indeg: map<string, int>, children: map<string, seq<string>>)
    requires Closed(g)
    ensures indeg.Keys == g.Keys && forall c :: c in g ==> indeg[c] == |g[c].after|
    ensures Inverts(g, g.Keys, children)
  {
    indeg, children := map[], map[];
    var todo := g.Keys;
    while todo != {}
      invariant todo <= g.Keys
      invariant indeg.Keys == g.Keys - todo && forall c :: c in indeg ==> indeg[c] == |g[c].after|
      invariant Inverts(g, g.Keys - todo, children)
      decreases todo
    {
      var id :| id in todo;
      indeg := indeg[id := |g[id].after|];
      children := AddChildren(children, id, g[id].after);
      todo := todo - {id};
    }
    assert g.Keys - todo == g.Keys;
  }

  // ---------- releasing nodes ----------

  /** The state of the sort between two `ready` nodes: in-degrees count the entries not in `gone`, and
      `next` lists, once each, the nodes outside `old` that wait for nothing any more. */
  ghost predicate Consistent(g: Graph, indeg: map<string, int>, gone: set<string>, older: set<string>,
                             next: seq<string>)
  {
    && InDegrees(g, indeg, gone)
    && Distinct(next)
    && (forall c :: c in next <==> c in g && c !in older && Waiting(g[c].after, gone) == 0)
  }

  /** What the loop over the children of `id` has done when it has seen `part` of them. */
  ghost predicate PartlyReleased(g: Graph, indeg: map<string, int>, gone: set<string>, older: set<string>,
                                 part: seq<string>, next: seq<string>)
  {
    && indeg.Keys == g.Keys
    && (forall c :: c in g ==> indeg[c] == Waiting(g[c].after, gone) - multiset(part)[c])
    && Distinct(next)
    && (forall c :: c in next <==> c in g && c !in older && indeg[c] == 0)
  }

  /** One child `c` of which `part` does not yet hold every occurrence. */
  lemma ReleaseChild(g: Graph, indeg: map<string, int>, gone: set<string>, older: set<string>,
                     part: seq<string>, next: seq<string>, c: string)
    requires PartlyReleased(g, indeg, gone, older, part, next)
    requires c in g && c !in older && Waiting(g[c].after, gone) > multiset(part)[c]
    ensures c in indeg
    ensures var indeg' := indeg[c := indeg[c] - 1];
            PartlyReleased(g, indeg', gone, older, part + [c], if indeg'[c] == 0 then next + [c] else next)
  {
    hide Waiting;
    var indeg' := indeg[c := indeg[c] - 1];
    var next' := if indeg'[c] == 0 then next + [c] else next;
    assert c !in next;
    assert Distinct(next');
    assert forall d :: d in next' <==> d in next || (d == c && indeg'[c] == 0);
  }

  lemma ChildWaits(g: Graph, id: string, kids: seq<string>, j: nat, gone: set<string>, older: set<string>)
    requires j < |kids| && id !in gone
    requires forall c :: multiset(kids)[c] == Mentions(g, g.Keys, id, c)
    requires forall c :: c in older && c in g ==> Waiting(g[c].after, gone) == 0
    ensures kids[j] in g && kids[j] !in older
    ensures Waiting(g[kids[j]].after, gone) > multiset(kids[..j])[kids[j]]
  {
    var c := kids[j];
    assert kids == kids[..j] + [c] + kids[j + 1..];
    assert multiset(kids)[c] == multiset(kids[..j])[c] + 1 + multiset(kids[j + 1..])[c];
    WaitingStep(g[c].after, gone, id);
  }

  lemma NothingReleased(g: Graph, indeg: map<string, int>, gone: set<string>, older: set<string>, next: seq<string>)
    requires Consistent(g, indeg, gone, older, next)
    ensures PartlyReleased(g, indeg, gone, older, [], next)
  {
  }

  lemma AllReleased(g: Graph, indeg: map<string, int>, gone: set<string>, older: set<string>,
                    id: string, kids: seq<string>, next: seq<string>)
    requires PartlyReleased(g, indeg, gone, older, kids, next) && id !in gone
    requires forall c :: multiset(kids)[c] == Mentions(g, g.Keys, id, c)
    ensures Consistent(g, indeg, gone + {id}, older, next)
  {
    forall c | c in g
      ensures Waiting(g[c].after, gone + {id}) == Waiting(g[c].after, gone) - multiset(kids)[c]
    {
      WaitingStep(g[c].after, gone, id);
    }
  }

  /** Counts `id` as scheduled at each of its children. */
  method Release(g: Graph, id: string, kids: seq<string>, indeg0: map<string, int>, next0: seq<string>,
                 ghost gone: set<string>, ghost older: set<string>)
    returns (indeg: map<string, int>, next: seq<string>)
    requires Consistent(g, indeg0, gone, older, next0) && id !in gone
    requires forall c :: multiset(kids)[c] == Mentions(g, g.Keys, id, c)
    requires forall c :: c in older && c in g ==> Waiting(g[c].after, gone) == 0
    ensures Consistent(g, indeg, gone + {id}, older, next)
  {
    hide Waiting, Mentions, Consistent, PartlyReleased;
    indeg, next := indeg0, next0;
    NothingReleased(g, indeg, gone, older, next);
    assert kids[..0] == [];
    for j := 0 to |kids|
      invariant PartlyReleased(g, indeg, gone, older, kids[..j], next)
    {
      var c := kids[j];
      ChildWaits(g, id, kids, j, gone, older);
      ReleaseChild(g, indeg, gone, older, kids[..j], next, c);
      assert kids[..j + 1] == kids[..j] + [c];
      indeg := indeg[c := indeg[c] - 1];
      if indeg[c] == 0 {
        next := next + [c];
      }
    }
    assert kids[..|kids|] == kids;
    AllReleased(g, indeg, gone, older, id, kids, next);
  }

  function ToSet(s: seq<string>): set<string> {
    set c | c in s
  }

  ghost predicate InDegrees(g: Graph, indeg: map<string, int>, gone: set<string>) {
    indeg.Keys == g.Keys && forall c :: c in g ==> indeg[c] == Waiting(g[c].after, gone)
  }

  /** `gone` is scheduled in dependency order, and `ready` is what can be scheduled next. */
  ghost predicate IsReady(g: Graph, gone: set<string>, ready: seq<string>) {
    && Distinct(ready)
    && (forall c :: c in ready <==> c in g && c !in gone && Waiting(g[c].after, gone) == 0)
    && (forall c :: c in gone ==> c in g && Waiting(g[c].after, gone) == 0)
  }

  lemma StayReleased(g: Graph, gone: set<string>, older: set<string>, sofar: set<string>)
    requires gone <= sofar
    requires forall c :: c in older ==> c in g && Waiting(g[c].after, gone) == 0
    ensures forall c :: c in older && c in g ==> Waiting(g[c].after, sofar) == 0
  {
    forall c | c in older
      ensures Waiting(g[c].after, sofar) == 0
    {
      WaitingNone(g[c].after, gone);
      WaitingNone(g[c].after, sofar);
    }
  }

  lemma NextOfReady(ready: seq<string>, i: nat, gone: set<string>)
    requires i < |ready| && Distinct(ready) && ready[i] !in gone
    ensures ready[i] !in gone + ToSet(ready[..i])
    ensures gone + ToSet(ready[..i]) + {ready[i]} == gone + ToSet(ready[..i + 1])
  {
    assert ready[..i + 1] == ready[..i] + [ready[i]];
  }

  /** Releases every `ready` node in turn. */
  method ReleaseAll(g: Graph, ready: seq<string>, children: map<string, seq<string>>, indeg0: map<string, int>,
                    ghost gone: set<string>)
    returns (indeg: map<string, int>, next: seq<string>)
    requires Inverts(g, g.Keys, children) && InDegrees(g, indeg0, gone) && IsReady(g, gone, ready)
    ensures Consistent(g, indeg, gone + ToSet(ready), gone + ToSet(ready), next)
  {
    hide Waiting, Mentions;
    ghost var older := gone + ToSet(ready);
    indeg, next := indeg0, [];
    assert gone + ToSet(ready[..0]) == gone;
    for i := 0 to |ready|
      invariant Consistent(g, indeg, gone + ToSet(ready[..i]), older, next)
    {
      var id := ready[i];
      assert id in ready;
      NextOfReady(ready, i, gone);
      ghost var sofar := gone + ToSet(ready[..i]);
      StayReleased(g, gone, older, sofar);
      indeg, next := Release(g, id, Children(children, id), indeg, next, sofar, older);
    }
    assert ready[..|ready|] == ready;
  }

  // ---------- the compiler ----------

  /** Validation in input order: the first node without an id, or with one already taken. */
  ghost predicate FirstBadId(nodes: seq<NodeSpec>, error: Error) {
    exists i :: 0 <= i < |nodes| && GoodIds(nodes[..i]) &&
      if nodes[i].id == "" then error == MissingId
      else error == DuplicateId(nodes[i].id) && exists j :: 0 <= j < i && nodes[j].id == nodes[i].id
  }

  /** A node of unknown type or with an unknown upstream; which of several is found is up to map order. */
  predicate BadReference(nodes: seq<NodeSpec>, reg: Registry?, error: Error)
    reads reg
  {
    && GoodIds(nodes)
    && match error
       case UnknownType(id) => id in ById(nodes) && reg != null && !reg.Has(ById(nodes)[id].typ)
       case UnknownAfter(id, up) => id in ById(nodes) && up in ById(nodes)[id].after && up !in ById(nodes)
       case _ => false
  }

  lemma GoodIdsSnoc(front: seq<NodeSpec>, n: NodeSpec)
    requires GoodIds(front)
    ensures GoodIds(front + [n]) <==> n.id != "" && forall m :: m in front ==> m.id != n.id
  {
    if GoodIds(front + [n]) {
      var all := front + [n];
      assert all[|front|] == n;
      forall m | m in front
        ensures m.id != n.id
      {
        var j :| 0 <= j < |front| && front[j] == m;
        assert all[j] == m;
      }
    }
  }

  lemma IdTaken(front: seq<NodeSpec>, id: string)
    requires GoodIds(front)
    ensures id in ById(front) <==> exists m :: m in front && m.id == id
  {
    IndexOfDistinct(front);
  }

  lemma GoodIdsStep(nodes: seq<NodeSpec>, i: nat)
    requires i < |nodes| && GoodIds(nodes[..i])
    ensures GoodIds(nodes[..i + 1]) <==> nodes[i].id != "" && nodes[i].id !in ById(nodes[..i])
    ensures GoodIds(nodes) ==> GoodIds(nodes[..i + 1])
    ensures nodes[i].id in ById(nodes[..i]) ==> exists j :: 0 <= j < i && nodes[j].id == nodes[i].id
  {
    GoodIdsSnoc(nodes[..i], nodes[i]);
    IdTaken(nodes[..i], nodes[i].id);
    assert nodes[..i + 1] == nodes[..i] + [nodes[i]];
    if nodes[i].id in ById(nodes[..i]) {
      var m :| m in nodes[..i] && m.id == nodes[i].id;
      var j :| 0 <= j < i && nodes[..i][j] == m;
      assert nodes[j].id == nodes[i].id;
    }
  }

  method IndexNodes(nodes: seq<NodeSpec>) returns (byId: Graph, error: Option<Error>)
    ensures error.None? ==> GoodIds(nodes) && byId == ById(nodes)
    ensures error.Some? ==> !GoodIds(nodes) && FirstBadId(nodes, error.value)
  {
    byId := map[];
    for i := 0 to |nodes|
      invariant GoodIds(nodes[..i]) && byId == ById(nodes[..i])
    {
      var n := nodes[i];
      GoodIdsStep(nodes, i);
      if n.id == "" {
        return byId, Some(MissingId);
      }
      if n.id in byId {
        return byId, Some(DuplicateId(n.id));
      }
      assert nodes[..i + 1][..i] == nodes[..i];
      byId := byId[n.id := n];
    }
    assert nodes[..|nodes|] == nodes;
    error := None;
  }

  method CheckReferences(nodes: seq<NodeSpec>, byId: Graph, reg: Registry?) returns (error: Option<Error>)
    requires GoodIds(nodes) && byId == ById(nodes)
    ensures error.None? ==> KnownTypes(nodes, reg) && KnownUpstreams(nodes)
    ensures error.Some? ==> BadReference(nodes, reg, error.value)
  {
    IndexOfDistinct(nodes);
    var todo := byId.Keys;
    while todo != {}
      invariant todo <= byId.Keys
      invariant forall id :: id in byId && id !in todo ==>
        (reg == null || reg.Has(byId[id].typ)) && forall u :: u in byId[id].after ==> u in byId
      decreases todo
    {
      var id :| id in todo;
      var n := byId[id];
      if reg != null && !reg.Has(n.typ) {
        return Some(UnknownType(id));
      }
      for j := 0 to |n.after|
        invariant forall u :: u in n.after[..j] ==> u in byId
      {
        assert n.after[..j + 1] == n.after[..j] + [n.after[j]];
        if n.after[j] !in byId {
          return Some(UnknownAfter(id, n.after[j]));
        }
      }
      assert n.after[..|n.after|] == n.after;
      todo := todo - {id};
    }
    error := None;
  }

  /** The nodes that wait for nothing, in the order a walk over the in-degree map yields them. */
  method Roots(indeg: map<string, int>) returns (ready: seq<string>)
    ensures Distinct(ready) && forall id :: id in ready <==> id in indeg && indeg[id] == 0
  {
    ready := [];
    var todo := indeg.Keys;
    while todo != {}
      invariant todo <= indeg.Keys && Distinct(ready)
      invariant forall id :: id in ready <==> id in indeg && id !in todo && indeg[id] == 0
      decreases todo
    {
      var id :| id in todo;
      if indeg[id] == 0 {
        ready := ready + [id];
      }
      todo := todo - {id};
    }
  }

  method BuildStage(g: Graph, ready: seq<string>) returns (stage: seq<NodeSpec>)
    requires Closed(g) && forall id :: id in ready ==> id in g
    ensures Ids(stage) == ready && forall i :: 0 <= i < |stage| ==> stage[i].id in g && stage[i] == g[stage[i].id]
  {
    stage := [];
    for i := 0 to |ready|
      invariant Ids(stage) == ready[..i]
      invariant forall m :: 0 <= m < |stage| ==> stage[m].id in g && stage[m] == g[stage[m].id]
    {
      assert ready[i] in ready;
      stage := stage + [g[ready[i]]];
    }
  }

  /** The plan so far: the stages are the first layers, and `ready` is the next one. */
  ghost predicate Layered(g: Graph, stages: seq<seq<NodeSpec>>, ready: seq<string>) {
    && (forall k :: 0 <= k < |stages| ==>
          stages[k] != [] && StrictlySorted(Ids(stages[k])) && ToSet(Ids(stages[k])) == Layer(g, k)
          && forall i :: 0 <= i < |stages[k]| ==> stages[k][i].id in g && stages[k][i] == g[stages[k][i].id])
    && StrictlySorted(ready) && ToSet(ready) == Layer(g, |stages|)
  }

  /** A node waits for nothing outside `Done(k)` exactly when it is in `Done(k + 1)`. */
  lemma WaitingIsLayer(g: Graph, k: nat)
    ensures forall id :: id in g ==> (Waiting(g[id].after, Done(g, k)) == 0 <==> id in Done(g, k + 1))
  {
    forall id | id in g
      ensures Waiting(g[id].after, Done(g, k)) == 0 <==> id in Done(g, k + 1)
    {
      WaitingNone(g[id].after, Done(g, k));
    }
  }

  lemma StrictIsDistinct(s: seq<string>)
    requires StrictlySorted(s)
    ensures Distinct(s)
  {
    forall i, j | 0 <= i < j < |s|
      ensures s[i] != s[j]
    {
      LessIrreflexive(s[i]);
    }
  }

  lemma {:induction false} CardinalityOfDistinct(s: seq<string>)
    requires Distinct(s)
    ensures |ToSet(s)| == |s|
  {
    if s != [] {
      var n := |s| - 1;
      CardinalityOfDistinct(s[..n]);
      assert s == s[..n] + [s[n]];
      assert ToSet(s) == ToSet(s[..n]) + {s[n]};
    }
  }

  lemma LayeredIsPlan(g: Graph, stages: seq<seq<NodeSpec>>)
    requires Closed(g) && Layered(g, stages, []) && Done(g, |stages|) == g.Keys
    ensures IsPlan(g, Plan(stages))
  {
    forall k | 0 <= k < |stages|
      ensures IsStage(g, k, stages[k])
    {
      forall id | id in g
        ensures id in Ids(stages[k]) <==> LongestUpstream(g, id, k)
      {
        LayerIsLongestPath(g, k, id);
        assert id in Ids(stages[k]) <==> id in ToSet(Ids(stages[k]));
      }
    }
    forall id | id in g
      ensures exists k :: 0 <= k < |stages| && id in Ids(stages[k])
    {
      var k := LayerOf(g, |stages|, id);
      assert id in ToSet(Ids(stages[k]));
    }
  }

  lemma {:induction false} LayerOf(g: Graph, n: nat, id: string) returns (k: nat)
    requires id in Done(g, n)
    ensures k < n && id in Layer(g, k)
  {
    if id in Done(g, n - 1) {
      k := LayerOf(g, n - 1, id);
    } else {
      k := n - 1;
    }
  }

  lemma NextIsLayer(g: Graph, k: nat, next: seq<string>)
    requires Distinct(next)
    requires forall c :: c in next <==> c in g && c !in Done(g, k) && Waiting(g[c].after, Done(g, k)) == 0
    ensures StrictlySorted(Sort(next)) && ToSet(Sort(next)) == Layer(g, k)
  {
    SortIsSorted(next);
    WaitingIsLayer(g, k);
    DoneGrows(g, k);
  }

  lemma LayeredSnoc(g: Graph, stages: seq<seq<NodeSpec>>, ready: seq<string>, stage: seq<NodeSpec>, next: seq<string>)
    requires Layered(g, stages, ready) && stage != [] && Ids(stage) == ready
    requires forall i :: 0 <= i < |stage| ==> stage[i].id in g && stage[i] == g[stage[i].id]
    requires StrictlySorted(next) && ToSet(next) == Layer(g, |stages| + 1)
    ensures Layered(g, stages + [stage], next)
  {
  }

  /** One round of the sort: `ready` becomes stage `|stages|` and `next`, sorted, the new `ready`. */
  lemma LayeredStep(g: Graph, stages: seq<seq<NodeSpec>>, ready: seq<string>, stage: seq<NodeSpec>,
                    indeg: map<string, int>, next: seq<string>)
    requires Layered(g, stages, ready) && ready != [] && Ids(stage) == ready
    requires forall i :: 0 <= i < |stage| ==> stage[i].id in g && stage[i] == g[stage[i].id]
    requires var gone := Done(g, |stages|) + ToSet(ready); Consistent(g, indeg, gone, gone, next)
    ensures Layered(g, stages + [stage], Sort(next)) && InDegrees(g, indeg, Done(g, |stages| + 1))
    ensures |Done(g, |stages| + 1)| == |Done(g, |stages|)| + |stage|
    ensures Done(g, |stages|) < Done(g, |stages| + 1) <= g.Keys
  {
    assert |stage| == |Ids(stage)|;
    NextLayer(g, |stages|, ready);
    NextIsLayer(g, |stages| + 1, next);
    LayeredSnoc(g, stages, ready, stage, Sort(next));
  }

  lemma LayerIsReady(g: Graph, stages: seq<seq<NodeSpec>>, ready: seq<string>)
    requires Layered(g, stages, ready)
    ensures IsReady(g, Done(g, |stages|), ready) && forall id :: id in ready ==> id in g
  {
    NextLayer(g, |stages|, ready);
  }

  /** The layered sort proper. It returns the layers and how many nodes they hold. */
  method SortLayers(g: Graph) returns (stages: seq<seq<NodeSpec>>, scheduled: nat)
    requires Closed(g)
    ensures Layered(g, stages, []) && scheduled == |Done(g, |stages|)|
  {
    var indeg, children := CountInDegrees(g);
    var roots := Roots(indeg);
    var ready := Sort(roots);
    stages, scheduled := [], 0;
    FirstLayer(g, indeg, roots);
    while ready != []
      invariant Layered(g, stages, ready) && scheduled == |Done(g, |stages|)|
      invariant InDegrees(g, indeg, Done(g, |stages|))
      decreases g.Keys - Done(g, |stages|)
    {
      LayerIsReady(g, stages, ready);
      var stage := BuildStage(g, ready);
      var next;
      indeg, next := ReleaseAll(g, ready, children, indeg, Done(g, |stages|));
      LayeredStep(g, stages, ready, stage, indeg, next);
      stages, scheduled, ready := stages + [stage], scheduled + |stage|, Sort(next);
    }
  }

  lemma FirstLayer(g: Graph, indeg: map<string, int>, roots: seq<string>)
    requires indeg.Keys == g.Keys && forall c :: c in g ==> indeg[c] == |g[c].after|
    requires Distinct(roots) && forall id :: id in roots <==> id in indeg && indeg[id] == 0
    ensures Layered(g, [], Sort(roots)) && InDegrees(g, indeg, Done(g, 0)) && |Done(g, 0)| == 0
  {
    WaitingIsLayer(g, 0);
    SortIsSorted(roots);
    forall c | c in g
      ensures indeg[c] == Waiting(g[c].after, Done(g, 0))
    {
      WaitingNone(g[c].after, {});
    }
    assert ToSet(Sort(roots)) == Layer(g, 0);
  }

  lemma NextLayer(g: Graph, k: nat, ready: seq<string>)
    requires StrictlySorted(ready) && ToSet(ready) == Layer(g, k)
    ensures Distinct(ready) && Done(g, k) + ToSet(ready) == Done(g, k + 1) <= g.Keys
    ensures |Done(g, k + 1)| == |Done(g, k)| + |ready|
    ensures forall c :: c in ready <==> c in g && c !in Done(g, k) && Waiting(g[c].after, Done(g, k)) == 0
    ensures forall c :: c in Done(g, k) ==> c in g && Waiting(g[c].after, Done(g, k)) == 0
    ensures ready != [] ==> ready[0] in Done(g, k + 1) && ready[0] !in Done(g, k)
  {
    DoneGrows(g, k);
    WaitingIsLayer(g, k);
    StrictIsDistinct(ready);
    CardinalityOfDistinct(ready);
    forall c
      ensures c in ready <==> c in ToSet(ready)
    {
    }
    assert ready != [] ==> ready[0] in ready;
  }

  /** Compiles a spec. The outcome is a plan exactly for well-formed acyclic specs, `Cycle` exactly for
      well-formed cyclic ones, and otherwise names a defect the spec has. */
  method Compile(spec: PipelineSpec, reg: Registry?) returns (r: Result)
    ensures r.Ok? <==> WellFormed(spec.nodes, reg) && Acyclic(ById(spec.nodes))
    ensures r == Err(Cycle) <==> WellFormed(spec.nodes, reg) && !Acyclic(ById(spec.nodes))
    ensures r == Err(Empty) <==> spec.nodes == []
    ensures r.Ok? ==> IsPlan(ById(spec.nodes), r.plan)
    ensures r.Err? && r.error != Cycle && r.error != Empty ==>
              if GoodIds(spec.nodes) then BadReference(spec.nodes, reg, r.error)
              else FirstBadId(spec.nodes, r.error)
  {
    hide ById, Acyclic, IsPlan, BadReference, FirstBadId, GoodIds;
    if spec.nodes == [] {
      return Err(Empty);
    }
    var byId, error := IndexNodes(spec.nodes);
    if error.Some? {
      return Err(error.value);
    }
    IndexOfDistinct(spec.nodes);
    error := CheckReferences(spec.nodes, byId, reg);
    if error.Some? {
      BadReferenceIsBad(spec.nodes, reg, error.value);
      return Err(error.value);
    }
    var stages, scheduled := SortLayers(byId);
    DoneGrows(byId, |stages|);
    AcyclicIffExhausted(byId, |stages|);
    SubsetOfSameSize(Done(byId, |stages|), byId.Keys);
    if scheduled != |byId| {
      return Err(Cycle);
    }
    LayeredIsPlan(byId, stages);
    r := Ok(Plan(stages));
  }

  lemma BadReferenceIsBad(nodes: seq<NodeSpec>, reg: Registry?, error: Error)
    requires BadReference(nodes, reg, error)
    ensures !WellFormed(nodes, reg)
  {
    IndexOfDistinct(nodes);
  }

  lemma SubsetOfSameSize(a: set<string>, b: set<string>)
    requires a <= b
    ensures |a| == |b| <==> a == b
  {
    assert b == a + (b - a);
  }
}
