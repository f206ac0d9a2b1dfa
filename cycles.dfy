/** `validateNoCycles` of src/utils.ts:30-60: a depth-first search over the
    stage graph with two mutable sets, `visited` (finished names) and
    `inStack` (the names on the current search path).  Reaching a name that
    is on the path reports `path + [name]`; names without a stage are leaves. */
module Cycles {
  import opened Wrappers
  import opened Types

  // ---------------------------------------------------------------------
  // Paths and cycles of a stage graph

  ghost predicate Edge(g: Graph, a: string, b: string) {
    a in g && b in g[a]
  }

  /** A non-empty walk along dependency edges. */
  ghost predicate IsPath(g: Graph, p: seq<string>) {
    |p| >= 1 && forall i :: 0 <= i < |p| - 1 ==> Edge(g, p[i], p[i + 1])
  }

  ghost predicate IsCycle(g: Graph, p: seq<string>) {
    |p| >= 2 && IsPath(g, p) && p[0] == p[|p| - 1]
  }

  ghost predicate Acyclic(g: Graph) {
    forall p :: !IsCycle(g, p)
  }

  ghost predicate Distinct(p: seq<string>) {
    forall i, j :: 0 <= i < j < |p| ==> p[i] != p[j]
  }

  /** The shape of the reported sequence: a walk of distinct names followed
      by one name that already occurs in it. */
  ghost predicate ReportedCycle(g: Graph, e: seq<string>) {
    |e| >= 2 && IsPath(g, e) && Distinct(e[..|e| - 1]) && e[|e| - 1] in e[..|e| - 1]
  }

  /** Every name the search can be asked to visit: the stage names and the
      names they depend on. */
  function Universe(g: Graph): set<string> {
    g.Keys + (set a, b | a in g && b in g[a] :: b)
  }

  // ---------------------------------------------------------------------
  // The search

  class CycleSearch {
    const graph: Graph
    var visited: set<string>
    var inStack: set<string>
    /** Finishing times: every edge out of a finished name leads to a name
        that finished earlier.  This is what makes a finished search a proof
        of acyclicity. */
    ghost var rank: map<string, nat>
    ghost var clock: nat

    ghost predicate Valid()
      reads this
    {
      && rank.Keys == visited
      && visited !! inStack
      && (forall v :: v in rank ==> rank[v] < clock)
      && (forall v, w :: v in visited && Edge(graph, v, w) ==> w in visited && rank[w] < rank[v])
    }

    /** Lines 33-35. */
    constructor (stages: seq<Stage>)
      ensures graph == StageMap(stages)
      ensures visited == {} && inStack == {}
      ensures Valid()
    {
      graph := StageMap(stages);
      visited := {};
      inStack := {};
      rank := map[];
      clock := 0;
    }

    /** The nested `visit` (lines 37-55).  Termination: every recursive call
        is made with one more name of the finite universe on the stack. */
    method Visit(name: string, path: seq<string>) returns (r: Outcome<seq<string>>)
      requires Valid()
      requires name in Universe(graph)
      requires forall x :: x in inStack <==> x in path
      requires Distinct(path)
      requires path != [] ==> IsPath(graph, path + [name])
      modifies this
      decreases Universe(graph) - inStack
      ensures r.Pass? ==> Valid() && inStack == old(inStack) && name in visited
      ensures r.Pass? ==> old(visited) <= visited && clock >= old(clock)
      ensures r.Pass? ==> forall v :: v in old(rank) ==> v in rank && rank[v] == old(rank)[v]
      ensures r.Fail? ==> ReportedCycle(graph, r.error)
      ensures r.Fail? ==> |r.error| > |path| && r.error[..|path| + 1] == path + [name]
    {
      if name in inStack {
        assert (path + [name])[..|path|] == path;
        return Fail(path + [name]);
      }
      if name in visited {
        return Pass;
      }
      inStack := inStack + {name};
      if name in graph {
        var deps := graph[name];
        for k := 0 to |deps|
          invariant Valid()
          invariant inStack == old(inStack) + {name}
          invariant name !in visited
          invariant old(visited) <= visited && clock >= old(clock)
          invariant forall v :: v in old(rank) ==> v in rank && rank[v] == old(rank)[v]
          invariant forall j :: 0 <= j < k ==> deps[j] in visited
        {
          var dep := deps[k];
          assert Edge(graph, name, dep);
          ExtendPath(graph, path, name, dep);
          var res := Visit(dep, path + [name]);
          if res.Fail? {
            assert res.error[..|path| + 1] == res.error[..|path| + 2][..|path| + 1];
            return res;
          }
        }
      }
      Finish(name);
      return Pass;
    }

    /** Lines 53-54: `name` leaves the stack and is marked visited, after
        every name it depends on. */
    method Finish(name: string)
      requires Valid()
      requires name in inStack && name !in visited
      requires forall w :: Edge(graph, name, w) ==> w in visited
      modifies this
      ensures Valid()
      ensures inStack == old(inStack) - {name} && visited == old(visited) + {name}
      ensures clock > old(clock)
      ensures forall v :: v in old(rank) ==> v in rank && rank[v] == old(rank)[v]
    {
      inStack := inStack - {name};
      visited := visited + {name};
      rank := rank[name := clock];
      clock := clock + 1;
    }

    /** The outer loop (lines 57-59). */
    method VisitAll(stages: seq<Stage>) returns (r: Outcome<seq<string>>)
      requires Valid() && inStack == {}
      requires forall j :: 0 <= j < |stages| ==> stages[j].name in graph
      modifies this
      ensures r.Pass? ==> Valid() && inStack == {}
      ensures r.Pass? ==> forall j :: 0 <= j < |stages| ==> stages[j].name in visited
      ensures r.Fail? ==> ReportedCycle(graph, r.error)
      ensures r.Fail? ==> exists j :: 0 <= j < |stages| && r.error[0] == stages[j].name
    {
      for i := 0 to |stages|
        invariant Valid() && inStack == {}
        invariant forall j :: 0 <= j < i ==> stages[j].name in visited
      {
        var name := stages[i].name;
        r := Visit(name, []);
        if r.Fail? {
          assert r.error[0] == r.error[..1][0] == name;
          return;
        }
      }
      r := Pass;
    }
  }

  /** `validateNoCycles(stages)`: it returns normally exactly when the
      dependency relation among the defined stages has no cycle, and throws
      a walk from a stage into a cycle otherwise. */
  method ValidateNoCycles(stages: seq<Stage>) returns (r: Outcome<seq<string>>)
    ensures r.Pass? <==> Acyclic(StageMap(stages))
    ensures r.Fail? ==> ReportedCycle(StageMap(stages), r.error) && r.error[0] in NameSet(stages)
  {
    var search := new CycleSearch(stages);
    assert forall j :: 0 <= j < |stages| ==> stages[j] in stages;
    r := search.VisitAll(stages);
    if r.Pass? {
      assert forall a :: a in search.graph ==> a in search.visited;
      RankedIsAcyclic(search.graph, search.rank);
    } else {
      ghost var _ := ReportedCycleHasCycle(search.graph, r.error);
    }
  }

  // ---------------------------------------------------------------------
  // Lemmas

  /** A walk of at least two names that ends where it starts is a cycle. */
  lemma ClosedWalkIsCycle(g: Graph, q: seq<string>)
    requires |q| >= 2 && q[0] == q[|q| - 1]
    requires forall i :: 0 <= i < |q| - 1 ==> Edge(g, q[i], q[i + 1])
    ensures IsCycle(g, q)
  {
  }

  lemma ExtendPath(g: Graph, path: seq<string>, name: string, dep: string)
    requires path != [] ==> IsPath(g, path + [name])
    requires Edge(g, name, dep)
    ensures IsPath(g, path + [name] + [dep])
  {
    var p := path + [name] + [dep];
    forall i | 0 <= i < |p| - 1 ensures Edge(g, p[i], p[i + 1]) {
      if i < |path| {
        assert p[i] == (path + [name])[i] && p[i + 1] == (path + [name])[i + 1];
      }
    }
  }

  /** Along a walk of two or more names the finishing time strictly drops. */
  lemma {:induction false} RankDropsAlongPath(g: Graph, rank: map<string, nat>, p: seq<string>)
    requires forall a, b :: Edge(g, a, b) ==> a in rank && b in rank && rank[b] < rank[a]
    requires IsPath(g, p) && |p| >= 2
    ensures p[0] in rank && p[|p| - 1] in rank && rank[p[|p| - 1]] < rank[p[0]]
  {
    assert Edge(g, p[0], p[1]);
    if |p| > 2 {
      assert IsPath(g, p[1..]) by {
        forall i | 0 <= i < |p[1..]| - 1 ensures Edge(g, p[1..][i], p[1..][i + 1]) {
          assert Edge(g, p[i + 1], p[i + 2]);
        }
      }
      RankDropsAlongPath(g, rank, p[1..]);
    }
  }

  /** A ranking that drops along every edge rules out every cycle. */
  lemma RankedIsAcyclic(g: Graph, rank: map<string, nat>)
    requires forall a, b :: Edge(g, a, b) ==> a in rank && b in rank && rank[b] < rank[a]
    ensures Acyclic(g)
  {
    forall p | IsCycle(g, p) ensures false {
      RankDropsAlongPath(g, rank, p);
    }
  }

  /** The reported sequence holds a genuine cycle: the suffix that starts at
      the first occurrence of its last name. */
  lemma ReportedCycleHasCycle(g: Graph, e: seq<string>) returns (i: nat)
    requires ReportedCycle(g, e)
    ensures i < |e| - 1 && e[i] == e[|e| - 1] && e[|e| - 1] !in e[..i]
    ensures IsCycle(g, e[i..])
    ensures !Acyclic(g)
  {
    var last := e[|e| - 1];
    var prefix := e[..|e| - 1];
    var j :| 0 <= j < |prefix| && prefix[j] == last;
    i := j;
    assert e[i] == last;
    assert forall m :: 0 <= m < i ==> e[m] == prefix[m] && prefix[m] != prefix[j];
    var c := e[i..];
    assert IsPath(g, c) by {
      forall m | 0 <= m < |c| - 1 ensures Edge(g, c[m], c[m + 1]) {
        assert c[m] == e[i + m] && c[m + 1] == e[i + m + 1];
      }
    }
    assert IsCycle(g, c);
  }
}
