/** The pruning step of LLMWorkflow.build (LLMGraphConfigurator/llmgraphbuilder.py):
    the nodes reachable from the input node along outgoing connections, and
    the graph restricted to them. */
module Reachability {
  import opened Wrappers
  import opened Connections
  import opened WorkflowGraph

  /** Some connection, of any output type, leads from a to b */
  ghost predicate Edge(conns: seq<Connection>, a: int, b: int)
  {
    exists c :: c in conns && c.src == a && c.dst == b
  }

  /** p steps along connections from its first id to its last */
  ghost predicate IsPath(conns: seq<Connection>, p: seq<int>)
  {
    |p| >= 1 && forall i :: 0 <= i < |p| - 1 ==> Edge(conns, p[i], p[i + 1])
  }

  ghost predicate Reachable(conns: seq<Connection>, start: int, x: int)
  {
    exists p :: IsPath(conns, p) && p[0] == start && p[|p| - 1] == x
  }

  /** A set closed under outgoing connections */
  ghost predicate Closed(conns: seq<Connection>, s: set<int>)
  {
    forall x, y :: x in s && Edge(conns, x, y) ==> y in s
  }

  lemma ReachableStart(conns: seq<Connection>, start: int)
    ensures Reachable(conns, start, start)
  {
    assert IsPath(conns, [start]);
  }

  lemma ReachableStep(conns: seq<Connection>, start: int, x: int, y: int)
    requires Reachable(conns, start, x)
    requires Edge(conns, x, y)
    ensures Reachable(conns, start, y)
  {
    var p :| IsPath(conns, p) && p[0] == start && p[|p| - 1] == x;
    var q := p + [y];
    forall i | 0 <= i < |q| - 1 ensures Edge(conns, q[i], q[i + 1]) {
      if i < |p| - 1 {
        assert q[i] == p[i] && q[i + 1] == p[i + 1];
      } else {
        assert q[i] == x && q[i + 1] == y;
      }
    }
    assert IsPath(conns, q) && q[0] == start && q[|q| - 1] == y;
  }

  /** Every id on a path from a member of a closed set is in the set */
  lemma {:induction false} ClosedHoldsPath(conns: seq<Connection>, s: set<int>, p: seq<int>, k: nat)
    requires IsPath(conns, p) && p[0] in s
    requires Closed(conns, s)
    requires k < |p|
    ensures p[k] in s
  {
    if k > 0 {
      ClosedHoldsPath(conns, s, p, k - 1);
      assert Edge(conns, p[k - 1], p[k]);
    }
  }

  lemma ClosedHoldsReachable(conns: seq<Connection>, s: set<int>, start: int)
    requires start in s
    requires Closed(conns, s)
    ensures forall x :: Reachable(conns, start, x) ==> x in s
  {
    forall x | Reachable(conns, start, x) ensures x in s {
      var p :| IsPath(conns, p) && p[0] == start && p[|p| - 1] == x;
      ClosedHoldsPath(conns, s, p, |p| - 1);
    }
  }

  /** Every id a connection mentions */
  function Endpoints(conns: seq<Connection>): (r: set<int>)
    ensures forall c :: c in conns ==> c.src in r && c.dst in r
  {
    if |conns| == 0 then {} else {conns[0].src, conns[0].dst} + Endpoints(conns[1..])
  }

  lemma ProperSubsetSmaller(a: set<int>, b: set<int>)
    requires a < b
    ensures |a| < |b|
  {
    assert b == (b - a) + a;
    assert (b - a) * a == {};
    assert b - a != {};
  }

  /** One visit of the worklist: records each not yet recorded target of x
      and queues it */
  method VisitTargets(conns: seq<Connection>, start: int, x: int, reach0: set<int>, pending0: seq<int>)
      returns (reach: set<int>, pending: seq<int>)
    requires x in reach0
    requires forall z :: z in reach0 ==> Reachable(conns, start, z)
    ensures reach0 <= reach
    ensures forall z :: z in reach && z !in reach0 ==> Edge(conns, x, z)
    ensures forall y :: Edge(conns, x, y) ==> y in reach
    ensures forall z :: z in reach ==> Reachable(conns, start, z)
    ensures forall z :: z in pending <==> z in pending0 || (z in reach && z !in reach0)
    ensures reach == reach0 ==> pending == pending0
  {
    reach, pending := reach0, pending0;
    var outs := Targets(conns, x);
    var k := 0;
    while k < |outs|
      invariant 0 <= k <= |outs|
      invariant reach0 <= reach
      invariant forall j :: 0 <= j < k ==> outs[j] in reach
      invariant forall z :: z in reach && z !in reach0 ==> Edge(conns, x, z)
      invariant forall z :: z in reach ==> Reachable(conns, start, z)
      invariant forall z :: z in pending <==> z in pending0 || (z in reach && z !in reach0)
      invariant reach == reach0 ==> pending == pending0
    {
      var y := outs[k];
      if y !in reach {
        assert y in Targets(conns, x);
        ReachableStep(conns, start, x, y);
        reach := reach + {y};
        pending := pending + [y];
      }
      k := k + 1;
    }
    forall y | Edge(conns, x, y) ensures y in reach {
      assert y in outs;
    }
  }

  /** reachable_nodes from start, run as a worklist that visits each id once:
      the ids reachable from start, start included */
  method ReachableFrom(conns: seq<Connection>, start: int) returns (reach: set<int>)
    ensures forall x :: x in reach <==> Reachable(conns, start, x)
  {
    ghost var universe := Endpoints(conns) + {start};
    reach := {start};
    var pending := [start];
    ReachableStart(conns, start);
    while |pending| > 0
      invariant start in reach && reach <= universe
      invariant forall x :: x in pending ==> x in reach
      invariant forall x :: x in reach ==> Reachable(conns, start, x)
      invariant forall x, y :: x in reach && x !in pending && Edge(conns, x, y) ==> y in reach
      decreases |universe - reach|, |pending|
    {
      var x := pending[|pending| - 1];
      ghost var reach0 := reach;
      ghost var pending1 := pending;
      pending := pending[..|pending| - 1];
      ghost var pending0 := pending;
      assert forall z :: z in pending1 <==> z in pending0 || z == x by {
        assert pending1 == pending0 + [x];
      }
      reach, pending := VisitTargets(conns, start, x, reach, pending);
      assert reach <= universe by {
        forall z | z in reach && z !in reach0 ensures z in universe {
          var c :| c in conns && c.src == x && c.dst == z;
        }
      }
      assert forall u, y :: u in reach && u !in pending && Edge(conns, u, y) ==> y in reach by {
        forall u, y | u in reach && u !in pending && Edge(conns, u, y) ensures y in reach {
          if u != x {
            assert u in reach0 && u !in pending1;
          }
        }
      }
      if reach != reach0 {
        assert universe - reach < universe - reach0;
        ProperSubsetSmaller(universe - reach, universe - reach0);
      } else {
        assert |pending| < |pending1|;
      }
    }
    ClosedHoldsReachable(conns, reach, start);
  }

  /** The nodes kept by pruning, in their original order */
  function KeepNodes(nodes: seq<Node>, keep: set<int>): seq<Node>
  {
    if |nodes| == 0 then []
    else (if nodes[0].id in keep then [nodes[0]] else []) + KeepNodes(nodes[1..], keep)
  }

  /** The connections whose two endpoints are kept, in their original order */
  function KeepConnections(conns: seq<Connection>, keep: set<int>): seq<Connection>
  {
    if |conns| == 0 then []
    else (if conns[0].src in keep && conns[0].dst in keep then [conns[0]] else [])
         + KeepConnections(conns[1..], keep)
  }

  /** Pruning keeps exactly the nodes whose id is kept */
  lemma {:induction false} KeepNodesMembers(nodes: seq<Node>, keep: set<int>)
    ensures forall n :: n in KeepNodes(nodes, keep) <==> n in nodes && n.id in keep
  {
    if |nodes| > 0 {
      KeepNodesMembers(nodes[1..], keep);
      assert forall n :: n in nodes <==> n == nodes[0] || n in nodes[1..];
    }
  }

  /** Pruning keeps exactly the connections with both endpoints kept */
  lemma {:induction false} KeepConnectionsMembers(conns: seq<Connection>, keep: set<int>)
    ensures forall c :: c in KeepConnections(conns, keep) <==> c in conns && c.src in keep && c.dst in keep
  {
    if |conns| > 0 {
      KeepConnectionsMembers(conns[1..], keep);
      assert forall c :: c in conns <==> c == conns[0] || c in conns[1..];
    }
  }

  lemma KeepNodesCons(n: Node, ns: seq<Node>, keep: set<int>)
    ensures KeepNodes([n] + ns, keep) == (if n.id in keep then [n] else []) + KeepNodes(ns, keep)
  {
    assert ([n] + ns)[0] == n && ([n] + ns)[1..] == ns;
  }

  lemma KeepConnectionsCons(c: Connection, cs: seq<Connection>, keep: set<int>)
    ensures KeepConnections([c] + cs, keep) == (if c.src in keep && c.dst in keep then [c] else []) + KeepConnections(cs, keep)
  {
    assert ([c] + cs)[0] == c && ([c] + cs)[1..] == cs;
  }

  /** The connections left after removing the nodes of gone one by one */
  function DropConnections(conns: seq<Connection>, gone: set<int>): (r: seq<Connection>)
  {
    if |conns| == 0 then []
    else (if conns[0].src !in gone && conns[0].dst !in gone then [conns[0]] else [])
         + DropConnections(conns[1..], gone)
  }

  /** Removing one more node detaches its connections from what is left */
  lemma {:induction false} DetachDropped(conns: seq<Connection>, gone: set<int>, id: int)
    ensures Detach(DropConnections(conns, gone), id) == DropConnections(conns, gone + {id})
  {
    if |conns| > 0 {
      DetachDropped(conns[1..], gone, id);
      var c := conns[0];
      var tail := DropConnections(conns[1..], gone);
      var tail' := DropConnections(conns[1..], gone + {id});
      assert Detach(tail, id) == tail';
      if c.src !in gone && c.dst !in gone {
        assert DropConnections(conns, gone) == [c] + tail;
        assert ([c] + tail)[0] == c && ([c] + tail)[1..] == tail;
        assert Detach([c] + tail, id) == (if c.src != id && c.dst != id then [c] else []) + Detach(tail, id);
      } else {
        assert DropConnections(conns, gone) == tail;
      }
      assert DropConnections(conns, gone + {id})
             == (if c.src !in gone + {id} && c.dst !in gone + {id} then [c] else []) + tail';
    }
  }

  lemma {:induction false} DropNothing(conns: seq<Connection>)
    ensures DropConnections(conns, {}) == conns
  {
    if |conns| > 0 {
      DropNothing(conns[1..]);
      assert [conns[0]] + conns[1..] == conns;
    }
  }

  /** Once every removed id is outside keep and every endpoint is a node,
      removing the others one by one keeps exactly the connections inside keep */
  lemma {:induction false} DropIsKeep(conns: seq<Connection>, ids: set<int>, keep: set<int>)
    requires forall c :: c in conns ==> c.src in ids && c.dst in ids
    ensures DropConnections(conns, ids - keep) == KeepConnections(conns, keep)
  {
    if |conns| > 0 {
      assert conns[0] in conns;
      assert forall c :: c in conns[1..] ==> c in conns;
      DropIsKeep(conns[1..], ids, keep);
    }
  }

  /** The ids pruning keeps: the input node and all it reaches; none when the
      graph has no input node */
  ghost predicate Kept(nodes: seq<Node>, conns: seq<Connection>, x: int)
  {
    InputNode(nodes).Some? && Reachable(conns, InputNode(nodes).value.id, x)
  }

  /** An id reachable from start is start or the end of some connection */
  lemma ReachableWithin(conns: seq<Connection>, start: int, x: int)
    requires Reachable(conns, start, x)
    ensures x in Endpoints(conns) + {start}
  {
    var p :| IsPath(conns, p) && p[0] == start && p[|p| - 1] == x;
    if |p| > 1 {
      assert Edge(conns, p[|p| - 2], p[|p| - 1]);
    }
  }

  /** The set of ids pruning keeps */
  ghost function KeptIds(nodes: seq<Node>, conns: seq<Connection>): (keep: set<int>)
    ensures forall x :: x in keep <==> Kept(nodes, conns, x)
  {
    if InputNode(nodes).None? then {}
    else
      var start := InputNode(nodes).value.id;
      var keep := set x | x in Endpoints(conns) + {start} && Reachable(conns, start, x);
      assert forall x :: Reachable(conns, start, x) ==> x in keep by {
        forall x | Reachable(conns, start, x) ensures x in keep {
          ReachableWithin(conns, start, x);
        }
      }
      keep
  }

  lemma KeptFromInput(nodes: seq<Node>, conns: seq<Connection>, reach: set<int>)
    requires InputNode(nodes).Some?
    requires forall x :: x in reach <==> Reachable(conns, InputNode(nodes).value.id, x)
    ensures reach == KeptIds(nodes, conns)
  {
    var keep := KeptIds(nodes, conns);
    assert forall x :: x in reach <==> x in keep;
  }

  lemma NoInputKeepsNothing(nodes: seq<Node>, conns: seq<Connection>)
    requires InputNode(nodes).None?
    ensures KeptIds(nodes, conns) == {}
  {
  }

  /** A path from the input node stays inside the kept ids, so it is also a
      path of the pruned graph; and a path of the pruned graph is one of the
      original graph */
  lemma PrunedPath(conns: seq<Connection>, keep: set<int>, p: seq<int>)
    requires forall k :: 0 <= k < |p| ==> p[k] in keep
    ensures IsPath(conns, p) <==> IsPath(KeepConnections(conns, keep), p)
  {
    var kc := KeepConnections(conns, keep);
    KeepConnectionsMembers(conns, keep);
    if IsPath(conns, p) {
      forall i | 0 <= i < |p| - 1 ensures Edge(kc, p[i], p[i + 1]) {
        assert Edge(conns, p[i], p[i + 1]);
        var c :| c in conns && c.src == p[i] && c.dst == p[i + 1];
        assert c in kc;
      }
    }
    if IsPath(kc, p) {
      forall i | 0 <= i < |p| - 1 ensures Edge(conns, p[i], p[i + 1]) {
        assert Edge(kc, p[i], p[i + 1]);
      }
    }
  }

  /** Reachability from start is the same in the graph restricted to the ids
      start reaches */
  lemma ReachableInPruned(conns: seq<Connection>, start: int, keep: set<int>)
    requires forall x :: x in keep <==> Reachable(conns, start, x)
    ensures forall x :: Reachable(KeepConnections(conns, keep), start, x) <==> x in keep
  {
    var kc := KeepConnections(conns, keep);
    KeepConnectionsMembers(conns, keep);
    forall x | x in keep ensures Reachable(kc, start, x) {
      var p :| IsPath(conns, p) && p[0] == start && p[|p| - 1] == x;
      forall k | 0 <= k < |p| ensures p[k] in keep {
        var q := p[..k + 1];
        assert IsPath(conns, q) by {
          forall i | 0 <= i < |q| - 1 ensures Edge(conns, q[i], q[i + 1]) {
            assert q[i] == p[i] && q[i + 1] == p[i + 1];
          }
        }
        assert q[0] == start && q[|q| - 1] == p[k];
      }
      PrunedPath(conns, keep, p);
    }
    ReachableStart(conns, start);
    assert Closed(kc, keep) by {
      forall x, y | x in keep && Edge(kc, x, y) ensures y in keep {
        var c :| c in kc && c.src == x && c.dst == y;
        assert Edge(conns, x, y);
        ReachableStep(conns, start, x, y);
      }
    }
    forall x | Reachable(kc, start, x) ensures x in keep {
      var p :| IsPath(kc, p) && p[0] == start && p[|p| - 1] == x;
      forall k | 0 <= k < |p| ensures p[k] in keep {
        ClosedHoldsPath(kc, keep, p, k);
      }
      PrunedPath(conns, keep, p);
    }
  }

  lemma {:induction false} KeepNodesTwice(nodes: seq<Node>, keep: set<int>)
    ensures KeepNodes(KeepNodes(nodes, keep), keep) == KeepNodes(nodes, keep)
  {
    if |nodes| > 0 {
      KeepNodesTwice(nodes[1..], keep);
      var tail := KeepNodes(nodes[1..], keep);
      if nodes[0].id in keep {
        KeepNodesCons(nodes[0], tail, keep);
      } else {
        assert KeepNodes(nodes, keep) == tail;
      }
    }
  }

  lemma {:induction false} KeepConnectionsTwice(conns: seq<Connection>, keep: set<int>)
    ensures KeepConnections(KeepConnections(conns, keep), keep) == KeepConnections(conns, keep)
  {
    if |conns| > 0 {
      KeepConnectionsTwice(conns[1..], keep);
      var tail := KeepConnections(conns[1..], keep);
      var c := conns[0];
      if c.src in keep && c.dst in keep {
        KeepConnectionsCons(c, tail, keep);
      } else {
        assert KeepConnections(conns, keep) == tail;
      }
    }
  }

  /** Pruning a pruned graph changes nothing: the input node survives, it
      reaches the same ids, and both filters are idempotent */
  lemma PruneIdempotent(nodes: seq<Node>, conns: seq<Connection>, keep: set<int>)
    requires InputNode(nodes).Some?
    requires forall x :: x in keep <==> Reachable(conns, InputNode(nodes).value.id, x)
    ensures InputNode(KeepNodes(nodes, keep)) == InputNode(nodes)
    ensures forall x :: Reachable(KeepConnections(conns, keep), InputNode(nodes).value.id, x) <==> x in keep
    ensures KeepNodes(KeepNodes(nodes, keep), keep) == KeepNodes(nodes, keep)
    ensures KeepConnections(KeepConnections(conns, keep), keep) == KeepConnections(conns, keep)
  {
    ReachableStart(conns, InputNode(nodes).value.id);
    InputNodeKept(nodes, keep);
    ReachableInPruned(conns, InputNode(nodes).value.id, keep);
    KeepNodesTwice(nodes, keep);
    KeepConnectionsTwice(conns, keep);
  }

  /** Keeping the first input node keeps it the first input node */
  lemma {:induction false} InputNodeKept(nodes: seq<Node>, keep: set<int>)
    requires InputNode(nodes).Some? && InputNode(nodes).value.id in keep
    ensures InputNode(KeepNodes(nodes, keep)) == InputNode(nodes)
  {
    var tail := KeepNodes(nodes[1..], keep);
    if nodes[0].kind == "input" {
      assert KeepNodes(nodes, keep) == [nodes[0]] + tail;
      assert ([nodes[0]] + tail)[0] == nodes[0];
    } else {
      assert InputNode(nodes) == InputNode(nodes[1..]);
      InputNodeKept(nodes[1..], keep);
      if nodes[0].id in keep {
        assert KeepNodes(nodes, keep) == [nodes[0]] + tail;
        assert ([nodes[0]] + tail)[0] == nodes[0] && ([nodes[0]] + tail)[1..] == tail;
      } else {
        assert KeepNodes(nodes, keep) == tail;
      }
    }
  }

  /** reachable_nodes as written: it records a node the first time, then
      recurses into every outgoing neighbour whether or not it was recorded
      already; fuel stands for the interpreter's recursion limit and None for
      the RecursionError raised when it runs out */
  function VisitAsWritten(conns: seq<Connection>, node: int, reachable: seq<int>, fuel: nat): Option<seq<int>>
    decreases fuel, 0
  {
    if fuel == 0 then None
    else
      var r := if node in reachable then reachable else reachable + [node];
      VisitAllAsWritten(conns, Targets(conns, node), r, fuel - 1)
  }

  function VisitAllAsWritten(conns: seq<Connection>, outs: seq<int>, reachable: seq<int>, fuel: nat): Option<seq<int>>
    decreases fuel, 1, |outs|
  {
    if |outs| == 0 then Some(reachable)
    else
      match VisitAsWritten(conns, outs[0], reachable, fuel)
      case None => None
      case Some(r) => VisitAllAsWritten(conns, outs[1..], r, fuel)
  }

  /** The graph input 1 -> 2, 2 -> 3, 3 -> 2: a cycle reachable from the
      input node */
  function CycleExample(): seq<Connection>
  {
    [Connection(1, 2, "output"), Connection(2, 3, "output"), Connection(3, 2, "output")]
  }

  lemma {:induction false} CycleNeverReturns(reachable: seq<int>, fuel: nat)
    ensures VisitAsWritten(CycleExample(), 2, reachable, fuel).None?
    ensures VisitAsWritten(CycleExample(), 3, reachable, fuel).None?
    decreases fuel
  {
    var g := CycleExample();
    assert Targets(g, 2) == [3] && Targets(g, 3) == [2];
    if fuel > 0 {
      var r2 := if 2 in reachable then reachable else reachable + [2];
      var r3 := if 3 in reachable then reachable else reachable + [3];
      CycleNeverReturns(r2, fuel - 1);
      CycleNeverReturns(r3, fuel - 1);
    }
  }

  /** As written, pruning this graph never finishes within any recursion
      limit, so build raises RecursionError instead of reaching the
      topological sort's "Cycle detected" */
  lemma PruneAsWrittenDiverges(fuel: nat)
    ensures VisitAsWritten(CycleExample(), 1, [1], fuel).None?
  {
    var g := CycleExample();
    assert Targets(g, 1) == [2];
    if fuel > 0 {
      CycleNeverReturns([1], fuel - 1);
    }
  }

  /** The worklist visit of the same graph finishes, and keeps 1, 2 and 3 */
  lemma PruneCorrectedOnCycle(reach: set<int>)
    requires forall x :: x in reach <==> Reachable(CycleExample(), 1, x)
    ensures reach == {1, 2, 3}
  {
    var g := CycleExample();
    assert g[0] in g && g[1] in g;
    assert IsPath(g, [1, 2]) by {
      assert Edge(g, 1, 2);
    }
    assert IsPath(g, [1, 2, 3]) by {
      assert Edge(g, 1, 2) && Edge(g, 2, 3);
    }
    ReachableStart(g, 1);
    assert Closed(g, {1, 2, 3}) by {
      forall x, y | x in {1, 2, 3} && Edge(g, x, y) ensures y in {1, 2, 3} {
        var c :| c in g && c.src == x && c.dst == y;
      }
    }
    ClosedHoldsReachable(g, {1, 2, 3}, 1);
    assert Reachable(g, 1, 2) && Reachable(g, 1, 3) by {
      assert [1, 2][0] == 1 && [1, 2][1] == 2;
      assert [1, 2, 3][0] == 1 && [1, 2, 3][2] == 3;
    }
    assert 1 in reach && 2 in reach && 3 in reach;
    assert forall x :: x in reach ==> x in {1, 2, 3};
  }
}
