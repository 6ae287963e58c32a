/** The workflow graph of LLMGraphConfigurator/llmgraphbuilder.py: typed nodes
    with an id counter, deduplicated typed connections, cascade removal,
    loading from and saving to a dictionary, and Kahn's topological sort with
    cycle detection. */
module WorkflowGraph {
  import opened Wrappers
  import opened Connections
  import opened TopoOrder

  /** A node: its id, its type tag ("input", "retrieval", ...) and its content list */
  datatype Node = Node(id: int, kind: string, content: seq<string>)

  /** One entry of the dictionary's "nodes" list; "content" may be absent */
  datatype NodeEntry = NodeEntry(id: int, kind: string, content: Option<seq<string>>)

  /** One entry of the dictionary's "connections" list; "output_type" may be absent */
  datatype ConnectionEntry = ConnectionEntry(src: int, dst: int, outputType: Option<string>)

  /** The dictionary form of a graph */
  datatype GraphDoc = GraphDoc(nodes: seq<NodeEntry>, connections: seq<ConnectionEntry>)

  /** A KeyError on an id the dictionary's node list does not hold, or the
      "Cycle detected" ValueError */
  datatype GraphError = UnknownNode(id: int) | CycleDetected

  function Ids(nodes: seq<Node>): (r: seq<int>)
    ensures |r| == |nodes|
    ensures forall i :: 0 <= i < |nodes| ==> r[i] == nodes[i].id
  {
    seq(|nodes|, i requires 0 <= i < |nodes| => nodes[i].id)
  }

  lemma IdsCons(nodes: seq<Node>)
    requires |nodes| > 0
    ensures Ids(nodes) == [nodes[0].id] + Ids(nodes[1..])
  {
  }

  lemma IdsAppend(nodes: seq<Node>, n: Node)
    ensures Ids(nodes + [n]) == Ids(nodes) + [n.id]
  {
  }

  /** get_node_by_id */
  function FindNode(nodes: seq<Node>, id: int): (r: Option<Node>)
    ensures r.Some? <==> id in Ids(nodes)
    ensures r.Some? ==> r.value in nodes && r.value.id == id
  {
    if |nodes| == 0 then None
    else
      IdsCons(nodes);
      if nodes[0].id == id then Some(nodes[0]) else FindNode(nodes[1..], id)
  }

  /** get_inp_node: the first node whose type is "input" */
  function InputNode(nodes: seq<Node>): (r: Option<Node>)
    ensures r.Some? ==> r.value in nodes && r.value.kind == "input"
    ensures r.None? <==> forall n :: n in nodes ==> n.kind != "input"
  {
    if |nodes| == 0 then None
    else if nodes[0].kind == "input" then Some(nodes[0])
    else InputNode(nodes[1..])
  }

  /** The type tag of an id, "" for an id that names no node */
  function KindOf(nodes: seq<Node>, id: int): string
  {
    match FindNode(nodes, id)
    case Some(n) => n.kind
    case None => ""
  }

  /** list.remove: drops the first node with this id */
  function RemoveFirst(nodes: seq<Node>, id: int): (r: seq<Node>)
    ensures Ids(r) == Without(Ids(nodes), id)
    ensures forall n :: n in r ==> n in nodes
  {
    if |nodes| == 0 then []
    else
      IdsCons(nodes);
      if nodes[0].id == id then nodes[1..]
      else
        var r := [nodes[0]] + RemoveFirst(nodes[1..], id);
        IdsCons(r);
        assert r[1..] == RemoveFirst(nodes[1..], id);
        r
  }

  /** Ids are unique and below the counter; connections are unique and join
      nodes of the graph */
  predicate WellFormed(nodes: seq<Node>, connections: seq<Connection>, nextNodeId: int)
  {
    && Distinct(Ids(nodes))
    && (forall n :: n in nodes ==> n.id < nextNodeId)
    && NoDuplicates(connections)
    && (forall c :: c in connections ==> c.src in Ids(nodes) && c.dst in Ids(nodes))
  }

  lemma DistinctIdsTail(nodes: seq<Node>)
    requires |nodes| > 0 && Distinct(Ids(nodes))
    ensures Distinct(Ids(nodes[1..]))
    ensures forall n :: n in nodes[1..] ==> n.id != nodes[0].id
  {
    IdsCons(nodes);
    var t := Ids(nodes[1..]);
    forall i, j | 0 <= i < j < |t| ensures t[i] != t[j] {
      assert t[i] == Ids(nodes)[i + 1] && t[j] == Ids(nodes)[j + 1];
    }
    forall n | n in nodes[1..] ensures n.id != nodes[0].id {
      var k :| 0 <= k < |nodes[1..]| && nodes[1..][k] == n;
      assert Ids(nodes)[k + 1] == n.id;
    }
  }

  /** With unique ids, list.remove drops exactly the node with that id */
  lemma {:induction false} RemoveFirstMembers(nodes: seq<Node>, id: int)
    requires Distinct(Ids(nodes))
    ensures forall n :: n in RemoveFirst(nodes, id) <==> n in nodes && n.id != id
  {
    if |nodes| > 0 {
      DistinctIdsTail(nodes);
      if nodes[0].id != id {
        RemoveFirstMembers(nodes[1..], id);
      }
      assert forall n :: n in nodes <==> n == nodes[0] || n in nodes[1..];
    }
  }

  /** Removing a node of a well-formed graph, together with the connections
      touching it, leaves a well-formed graph */
  lemma RemoveKeepsWellFormed(nodes: seq<Node>, connections: seq<Connection>, next: int, id: int)
    requires WellFormed(nodes, connections, next)
    requires id in Ids(nodes)
    ensures WellFormed(RemoveFirst(nodes, id), Detach(connections, id), next)
    ensures forall n :: n in RemoveFirst(nodes, id) <==> n in nodes && n.id != id
  {
    var rest := RemoveFirst(nodes, id);
    assert Distinct(Ids(rest)) && forall x :: x in Ids(rest) <==> x in Ids(nodes) && x != id by {
      WithoutFacts(Ids(nodes), id);
    }
    RemoveFirstMembers(nodes, id);
    DetachNoDuplicates(connections, id);
  }

  /** to_dict's entry for a node; content is always written */
  function NodeEntries(nodes: seq<Node>): (r: seq<NodeEntry>)
    ensures |r| == |nodes|
    ensures forall i :: 0 <= i < |nodes| ==> r[i] == NodeEntry(nodes[i].id, nodes[i].kind, Some(nodes[i].content))
  {
    seq(|nodes|, i requires 0 <= i < |nodes| => NodeEntry(nodes[i].id, nodes[i].kind, Some(nodes[i].content)))
  }

  function ConnectionEntries(conns: seq<Connection>): (r: seq<ConnectionEntry>)
    ensures |r| == |conns|
    ensures forall i :: 0 <= i < |conns| ==> r[i] == ConnectionEntry(conns[i].src, conns[i].dst, Some(conns[i].outputType))
  {
    seq(|conns|, i requires 0 <= i < |conns| => ConnectionEntry(conns[i].src, conns[i].dst, Some(conns[i].outputType)))
  }

  /** from_dict's node for an entry: missing content becomes [] */
  function LoadNode(e: NodeEntry): Node
  {
    Node(e.id, e.kind, e.content.GetOr([]))
  }

  function LoadNodes(es: seq<NodeEntry>): (r: seq<Node>)
    ensures |r| == |es|
    ensures forall i :: 0 <= i < |es| ==> r[i] == LoadNode(es[i])
  {
    seq(|es|, i requires 0 <= i < |es| => LoadNode(es[i]))
  }

  function EntryIds(es: seq<NodeEntry>): (r: seq<int>)
    ensures |r| == |es|
    ensures forall i :: 0 <= i < |es| ==> r[i] == es[i].id
  {
    seq(|es|, i requires 0 <= i < |es| => es[i].id)
  }

  /** The counter after from_dict has seen the entries: raised to id + 1
      whenever an id reaches it. It never decreases and ends above every
      loaded id. */
  function NextIdAfter(start: int, es: seq<NodeEntry>): (r: int)
    ensures r >= start
    ensures forall e :: e in es ==> e.id < r
    ensures r == start || exists e :: e in es && r == e.id + 1
  {
    if |es| == 0 then start
    else
      var m := NextIdAfter(start, es[..|es| - 1]);
      var last := es[|es| - 1];
      assert forall e :: e in es ==> e in es[..|es| - 1] || e == last;
      if last.id >= m then last.id + 1 else m
  }

  /** from_dict's connection for an entry: missing output_type becomes "output" */
  function LoadConnection(e: ConnectionEntry): Connection
  {
    Connection(e.src, e.dst, e.outputType.GetOr("output"))
  }

  function LoadConnectionsOf(es: seq<ConnectionEntry>): (r: seq<Connection>)
    ensures |r| == |es|
    ensures forall i :: 0 <= i < |es| ==> r[i] == LoadConnection(es[i])
  {
    seq(|es|, i requires 0 <= i < |es| => LoadConnection(es[i]))
  }

  /** The connections loaded so far and the id whose lookup failed, if any */
  datatype Loaded = Loaded(conns: seq<Connection>, missing: Option<int>)

  /** Adds each entry in turn onto acc with add_connection; the first entry
      naming an unknown id (its "from" looked up before its "to") stops the
      load, keeping what was added before it */
  function LoadFrom(acc: seq<Connection>, known: seq<int>, es: seq<ConnectionEntry>): Loaded
    decreases |es|
  {
    if |es| == 0 then Loaded(acc, None)
    else
      var e := es[0];
      if e.src !in known then Loaded(acc, Some(e.src))
      else if e.dst !in known then Loaded(acc, Some(e.dst))
      else LoadFrom(Insert(acc, LoadConnection(e)), known, es[1..])
  }

  /** The load fails exactly when some entry names an unknown id, and then
      names such an id; it keeps the loaded connections unique and between
      known nodes */
  lemma {:induction false} LoadFromFacts(acc: seq<Connection>, known: seq<int>, es: seq<ConnectionEntry>)
    ensures LoadFrom(acc, known, es).missing.None? <==> forall e :: e in es ==> e.src in known && e.dst in known
    ensures LoadFrom(acc, known, es).missing.Some? ==> LoadFrom(acc, known, es).missing.value !in known
    ensures NoDuplicates(acc) ==> NoDuplicates(LoadFrom(acc, known, es).conns)
    ensures (forall c :: c in acc ==> c.src in known && c.dst in known)
            ==> forall c :: c in LoadFrom(acc, known, es).conns ==> c.src in known && c.dst in known
    decreases |es|
  {
    if |es| > 0 {
      var e := es[0];
      assert forall x :: x in es ==> x == e || x in es[1..];
      if e.src in known && e.dst in known {
        InsertProperties(acc, LoadConnection(e));
        LoadFromFacts(Insert(acc, LoadConnection(e)), known, es[1..]);
      }
    }
  }

  /** When every endpoint is known, loading appends all entries as if the
      whole list were deduplicated at once */
  lemma {:induction false} LoadFromAllKnown(xs: seq<Connection>, known: seq<int>, es: seq<ConnectionEntry>)
    requires forall e :: e in es ==> e.src in known && e.dst in known
    ensures LoadFrom(Dedup(xs), known, es) == Loaded(Dedup(xs + LoadConnectionsOf(es)), None)
    decreases |es|
  {
    if |es| == 0 {
      assert xs + LoadConnectionsOf(es) == xs;
    } else {
      var c := LoadConnection(es[0]);
      var ys := xs + [c];
      assert LoadFrom(Dedup(xs), known, es) == LoadFrom(Dedup(ys), known, es[1..]) by {
        assert es[0] in es;
        DedupSnoc(xs, c);
      }
      assert LoadFrom(Dedup(ys), known, es[1..]) == Loaded(Dedup(ys + LoadConnectionsOf(es[1..])), None) by {
        assert forall e :: e in es[1..] ==> e in es;
        LoadFromAllKnown(ys, known, es[1..]);
      }
      assert ys + LoadConnectionsOf(es[1..]) == xs + LoadConnectionsOf(es) by {
        LoadConnectionsCons(es);
      }
    }
  }

  lemma LoadConnectionsCons(es: seq<ConnectionEntry>)
    requires |es| > 0
    ensures LoadConnectionsOf(es) == [LoadConnection(es[0])] + LoadConnectionsOf(es[1..])
  {
  }

  /** to_dict followed by from_dict reproduces the node list */
  lemma NodesRoundTrip(nodes: seq<Node>)
    ensures LoadNodes(NodeEntries(nodes)) == nodes
  {
    var r := LoadNodes(NodeEntries(nodes));
    assert |r| == |nodes|;
    forall i | 0 <= i < |nodes| ensures r[i] == nodes[i] {
      assert NodeEntries(nodes)[i].content == Some(nodes[i].content);
    }
  }

  /** Loading saved nodes never raises the counter past a counter that
      already exceeded every saved id */
  lemma NextIdRoundTrip(nodes: seq<Node>, next: int, start: int)
    requires forall n :: n in nodes ==> n.id < next
    requires start <= next
    ensures NextIdAfter(start, NodeEntries(nodes)) <= next
  {
    var ns := NodeEntries(nodes);
    forall e | e in ns ensures e.id < next {
      var i :| 0 <= i < |ns| && ns[i] == e;
      assert nodes[i] in nodes;
    }
  }

  /** to_dict followed by from_dict reproduces the connection list of a
      well-formed graph, with no lookup failing */
  lemma ConnectionsRoundTrip(nodes: seq<Node>, connections: seq<Connection>, next: int)
    requires WellFormed(nodes, connections, next)
    ensures LoadFrom([], Ids(nodes), ConnectionEntries(connections)) == Loaded(connections, None)
  {
    var es := ConnectionEntries(connections);
    assert LoadConnectionsOf(es) == connections;
    forall e | e in es ensures e.src in Ids(nodes) && e.dst in Ids(nodes) {
      var i :| 0 <= i < |es| && es[i] == e;
      assert connections[i] in connections;
    }
    assert Dedup([]) == [];
    LoadFromAllKnown([], Ids(nodes), es);
    assert [] + connections == connections;
    DedupOfDistinct(connections);
  }

  /** The nodes loaded from entries with distinct ids, with no connections
      yet, form a well-formed graph under the raised counter */
  lemma LoadedNodesWellFormed(es: seq<NodeEntry>, start: int)
    requires Distinct(EntryIds(es))
    ensures WellFormed(LoadNodes(es), [], NextIdAfter(start, es))
  {
    var ns := LoadNodes(es);
    assert Ids(ns) == EntryIds(es);
    forall n | n in ns ensures n.id < NextIdAfter(start, es) {
      var i :| 0 <= i < |ns| && ns[i] == n;
      assert es[i] in es;
    }
  }

  /** Distinct candidates with no in-connection left, in node order */
  function ZeroInDegree(ids: seq<int>, indegree: map<int, int>): (r: seq<int>)
    requires forall v :: v in ids ==> v in indegree
    ensures forall v :: v in r <==> v in ids && indegree[v] == 0
    ensures Distinct(ids) ==> Distinct(r)
  {
    if |ids| == 0 then []
    else
      var rest := ZeroInDegree(ids[1..], indegree);
      assert forall v :: v in ids <==> v == ids[0] || v in ids[1..];
      assert Distinct(ids) ==> ids[0] !in ids[1..] && Distinct(ids[1..]) by {
        if Distinct(ids) {
          forall k | 0 <= k < |ids[1..]| ensures ids[1..][k] != ids[0] {
            assert ids[1..][k] == ids[k + 1];
          }
          forall i, j | 0 <= i < j < |ids[1..]| ensures ids[1..][i] != ids[1..][j] {
            assert ids[1..][i] == ids[i + 1] && ids[1..][j] == ids[j + 1];
          }
        }
      }
      (if indegree[ids[0]] == 0 then [ids[0]] else []) + rest
  }

  /** The inner loop of topological_sort for an emitted node nid: every
      connection out of nid lowers its destination's in-degree, and a
      destination whose in-degree reaches zero joins the queue */
  method ReleaseTargets(ids: seq<int>, conns: seq<Connection>, nid: int, before: seq<int>,
                        indegree0: map<int, int>, queue0: seq<int>)
      returns (indegree: map<int, int>, queue: seq<int>)
    requires forall c :: c in conns ==> c.src in ids && c.dst in ids
    requires nid in ids && nid !in before
    requires forall v :: v in indegree0 <==> v in ids
    requires forall v :: v in ids ==> indegree0[v] == InCount(conns, v, before)
    requires forall v :: v in before ==> InCount(conns, v, before) == 0
    requires InCount(conns, nid, before) == 0
    requires Distinct(queue0)
    requires forall v :: v in queue0 <==> v in ids && v !in before + [nid] && indegree0[v] == 0
    ensures forall v :: v in indegree <==> v in ids
    ensures forall v :: v in ids ==> indegree[v] == InCount(conns, v, before + [nid])
    ensures Distinct(queue)
    ensures forall v :: v in queue <==> v in ids && v !in before + [nid] && indegree[v] == 0
  {
    var order := before + [nid];
    indegree, queue := indegree0, queue0;
    var k := 0;
    while k < |conns|
      invariant 0 <= k <= |conns|
      invariant forall v :: v in indegree <==> v in ids
      invariant forall v :: v in ids ==> indegree[v] + CountFromTo(conns[..k], nid, v) == InCount(conns, v, before)
      invariant Distinct(queue)
      invariant forall v :: v in queue <==> v in ids && v !in order && indegree[v] == 0
    {
      var c := conns[k];
      ghost var deg := indegree;
      forall v | v in ids {
        CountFromToPrefix(conns, k, nid, v);
      }
      if c.src == nid {
        var d := c.dst;
        assert c in conns;
        CountFromToMonotone(conns, k + 1, nid, d);
        InCountStep(conns, d, before, nid);
        assert deg[d] >= 1;
        assert d !in order by {
          if d in before {
            assert false;
          }
        }
        indegree := indegree[d := indegree[d] - 1];
        forall v | v in ids
          ensures indegree[v] + CountFromTo(conns[..k + 1], nid, v) == InCount(conns, v, before)
        {
          if v != d {
            assert indegree[v] == deg[v];
          }
        }
        if indegree[d] == 0 {
          assert d !in queue;
          queue := queue + [d];
        }
      }
      k := k + 1;
    }
    assert conns[..k] == conns;
    forall v | v in ids
      ensures indegree[v] == InCount(conns, v, order)
    {
      InCountStep(conns, v, before, nid);
    }
  }

  /** One more entry loads one more node */
  lemma LoadNodesStep(es: seq<NodeEntry>, i: nat)
    requires i < |es|
    ensures LoadNodes(es[..i + 1]) == LoadNodes(es[..i]) + [LoadNode(es[i])]
  {
    assert |LoadNodes(es[..i + 1])| == i + 1;
    assert forall j :: 0 <= j < i + 1 ==> LoadNodes(es[..i + 1])[j] == (LoadNodes(es[..i]) + [LoadNode(es[i])])[j];
  }

  /** One more entry raises the counter past its id when it reaches it */
  lemma NextIdStep(start: int, es: seq<NodeEntry>, i: nat)
    requires i < |es|
    ensures var m := NextIdAfter(start, es[..i]);
      NextIdAfter(start, es[..i + 1]) == if es[i].id >= m then es[i].id + 1 else m
  {
    assert es[..i + 1][..i] == es[..i];
  }

  /** The first loop of from_dict: each entry becomes a node, and the
      counter is raised past its id */
  method LoadNodeList(es: seq<NodeEntry>, start: int) returns (ns: seq<Node>, next: int)
    ensures ns == LoadNodes(es)
    ensures next == NextIdAfter(start, es)
  {
    ns, next := [], start;
    var i := 0;
    while i < |es|
      invariant 0 <= i <= |es|
      invariant ns == LoadNodes(es[..i])
      invariant next == NextIdAfter(start, es[..i])
    {
      var e := es[i];
      NextIdStep(start, es, i);
      LoadNodesStep(es, i);
      ns := ns + [LoadNode(e)];
      if e.id >= next {
        next := e.id + 1;
      }
      i := i + 1;
    }
    assert es[..i] == es;
  }

  /** The first loop of topological_sort: one increment per connection into
      each node */
  method CountInDegrees(ids: seq<int>, conns: seq<Connection>) returns (indegree: map<int, int>)
    requires forall c :: c in conns ==> c.dst in ids
    ensures forall v :: v in indegree <==> v in ids
    ensures forall v :: v in ids ==> indegree[v] == InCount(conns, v, [])
  {
    indegree := map v | v in ids :: 0;
    var j := 0;
    while j < |conns|
      invariant 0 <= j <= |conns|
      invariant forall v :: v in indegree <==> v in ids
      invariant forall v :: v in ids ==> indegree[v] == InCount(conns[..j], v, [])
    {
      forall v | v in ids {
        InCountPrefix(conns, j, v, []);
      }
      assert conns[j] in conns;
      indegree := indegree[conns[j].dst := indegree[conns[j].dst] + 1];
      j := j + 1;
    }
    assert conns[..j] == conns;
  }

  /** When the queue runs dry before every node is emitted, each node left
      still has a connection from another node left, so no topological order
      exists */
  lemma StuckMeansNoOrder(ids: seq<int>, conns: seq<Connection>, order: seq<int>, indegree: map<int, int>)
    requires Distinct(ids) && Distinct(order)
    requires forall v :: v in order ==> v in ids
    requires |order| != |ids|
    requires forall c :: c in conns ==> c.src in ids && c.dst in ids
    requires forall v :: v in ids ==> v in indegree && indegree[v] == InCount(conns, v, order)
    requires forall v :: v in ids && v !in order ==> indegree[v] != 0
    ensures forall o :: !IsTopologicalOrder(ids, conns, o)
  {
    DistinctSubsetLength(order, ids);
    if forall v :: v in ids ==> v in order {
      DistinctSubsetLength(ids, order);
      assert false;
    }
    var w :| w in ids && w !in order;
    var remaining := set v | v in ids && v !in order;
    assert w in remaining;
    forall v | v in remaining
      ensures FedFrom(conns, v, remaining)
    {
      InCountPositive(conns, v, order);
      var c :| c in conns && c.dst == v && c.src !in order;
      assert c.src in remaining;
    }
    NoOrderWhenStuck(ids, conns, remaining);
  }

  class Graph {
    var nodes: seq<Node>
    var connections: seq<Connection>
    var nextNodeId: int

    ghost predicate Valid()
      reads this
    {
      WellFormed(nodes, connections, nextNodeId)
    }

    constructor ()
      ensures Valid()
      ensures nodes == [] && connections == [] && nextNodeId == 1
    {
      nodes := [];
      connections := [];
      nextNodeId := 1;
    }

    /** add_node: the new node takes the counter's value, which then moves on */
    method AddNode(kind: string, content: Option<seq<string>>) returns (n: Node)
      requires Valid()
      modifies this
      ensures Valid()
      ensures n == Node(old(nextNodeId), kind, content.GetOr([]))
      ensures n.id !in Ids(old(nodes))
      ensures nodes == old(nodes) + [n]
      ensures connections == old(connections)
      ensures nextNodeId == old(nextNodeId) + 1
    {
      n := Node(nextNodeId, kind, content.GetOr([]));
      IdsAppend(nodes, n);
      nodes := nodes + [n];
      nextNodeId := nextNodeId + 1;
    }

    /** The scan of add_connection: whether the triple is already present */
    method HasConnection(c: Connection) returns (found: bool)
      ensures found <==> c in connections
    {
      var i := 0;
      while i < |connections|
        invariant 0 <= i <= |connections|
        invariant c !in connections[..i]
      {
        if connections[i] == c {
          return true;
        }
        assert connections[..i + 1] == connections[..i] + [connections[i]];
        i := i + 1;
      }
      assert connections[..i] == connections;
      return false;
    }

    /** add_connection: a triple already present is ignored, otherwise exactly
        one connection is appended */
    method AddConnection(src: int, dst: int, outputType: string)
      requires Valid()
      requires src in Ids(nodes) && dst in Ids(nodes)
      modifies this
      ensures Valid()
      ensures connections == Insert(old(connections), Connection(src, dst, outputType))
      ensures nodes == old(nodes) && nextNodeId == old(nextNodeId)
    {
      var c := Connection(src, dst, outputType);
      var found := HasConnection(c);
      InsertProperties(connections, c);
      if !found {
        connections := connections + [c];
      }
    }

    /** remove_node: drops every connection touching the node, then the node;
        an id naming no node is the ValueError of list.remove */
    method RemoveNode(id: int) returns (removed: bool)
      requires Valid()
      modifies this
      ensures Valid()
      ensures removed <==> id in Ids(old(nodes))
      ensures connections == Detach(old(connections), id)
      ensures removed ==> nodes == RemoveFirst(old(nodes), id)
      ensures !removed ==> nodes == old(nodes) && connections == old(connections)
      ensures nextNodeId == old(nextNodeId)
    {
      if id !in Ids(nodes) {
        DetachUntouched(connections, id);
        return false;
      }
      RemoveKeepsWellFormed(nodes, connections, nextNodeId, id);
      connections := Detach(connections, id);
      nodes := RemoveFirst(nodes, id);
      return true;
    }

    /** to_dict */
    function ToDict(): (d: GraphDoc)
      reads this
      ensures |d.nodes| == |nodes| && |d.connections| == |connections|
    {
      GraphDoc(NodeEntries(nodes), ConnectionEntries(connections))
    }

    /** from_dict: replaces nodes and connections with the dictionary's,
        raising the counter past every loaded id; a connection naming an
        unknown id is the KeyError of the id map and ends the load with the
        connections added so far */
    method FromDict(doc: GraphDoc) returns (r: Result<(), GraphError>)
      requires Valid()
      requires Distinct(EntryIds(doc.nodes))
      modifies this
      ensures Valid()
      ensures nodes == LoadNodes(doc.nodes)
      ensures nextNodeId == NextIdAfter(old(nextNodeId), doc.nodes)
      ensures connections == LoadFrom([], Ids(nodes), doc.connections).conns
      ensures r.Ok? <==> LoadFrom([], Ids(nodes), doc.connections).missing.None?
      ensures r.Err? ==> r.error == UnknownNode(LoadFrom([], Ids(nodes), doc.connections).missing.value)
    {
      ghost var start := nextNodeId;
      nodes, nextNodeId := LoadNodeList(doc.nodes, nextNodeId);
      connections := [];
      LoadedNodesWellFormed(doc.nodes, start);
      var known := Ids(nodes);
      var k := 0;
      while k < |doc.connections|
        invariant 0 <= k <= |doc.connections|
        invariant Valid()
        invariant nodes == LoadNodes(doc.nodes) && known == Ids(nodes)
        invariant nextNodeId == NextIdAfter(start, doc.nodes)
        invariant LoadFrom(connections, known, doc.connections[k..]) == LoadFrom([], known, doc.connections)
      {
        var e := doc.connections[k];
        assert doc.connections[k..][1..] == doc.connections[k + 1..];
        if e.src !in known {
          return Err(UnknownNode(e.src));
        }
        if e.dst !in known {
          return Err(UnknownNode(e.dst));
        }
        AddConnection(e.src, e.dst, e.outputType.GetOr("output"));
        k := k + 1;
      }
      return Ok(());
    }

    /** topological_sort: Kahn's algorithm with a FIFO queue. It returns an
        order exactly when one exists; otherwise it fails with CycleDetected. */
    method TopologicalSort() returns (r: Result<seq<int>, GraphError>)
      requires Valid()
      ensures r.Ok? ==> IsTopologicalOrder(Ids(nodes), connections, r.value)
      ensures r.Err? ==> r.error == CycleDetected
      ensures r.Err? ==> forall o :: !IsTopologicalOrder(Ids(nodes), connections, o)
    {
      var ids := Ids(nodes);
      var conns := connections;
      var indegree := CountInDegrees(ids, conns);
      var queue := ZeroInDegree(ids, indegree);
      var order: seq<int> := [];
      while |queue| > 0
        invariant forall v :: v in indegree <==> v in ids
        invariant forall v :: v in ids ==> indegree[v] == InCount(conns, v, order)
        invariant forall v :: v in order ==> InCount(conns, v, order) == 0
        invariant Distinct(order) && Distinct(queue)
        invariant forall v :: v in order ==> v in ids
        invariant forall v :: v in queue <==> v in ids && v !in order && indegree[v] == 0
        invariant SourcesFirst(order, conns)
        invariant |order| <= |ids|
        decreases |ids| - |order|
      {
        var nid := queue[0];
        var before := order;
        assert Distinct(queue[1..]) && nid !in queue[1..] by {
          forall k | 0 <= k < |queue[1..]| ensures queue[1..][k] != nid {
            assert queue[1..][k] == queue[k + 1];
          }
          forall a, b | 0 <= a < b < |queue[1..]| ensures queue[1..][a] != queue[1..][b] {
            assert queue[1..][a] == queue[a + 1] && queue[1..][b] == queue[b + 1];
          }
        }
        queue := queue[1..];
        InCountZero(conns, nid, before);
        SourcesFirstAppend(before, conns, nid);
        order := order + [nid];
        DistinctSubsetLength(order, ids);
        indegree, queue := ReleaseTargets(ids, conns, nid, before, indegree, queue);
        forall v | v in order
          ensures InCount(conns, v, order) == 0
        {
          InCountStep(conns, v, before, nid);
        }
      }
      if |order| == |ids| {
        DistinctSubsetLength(order, ids);
        r := Ok(order);
      } else {
        StuckMeansNoOrder(ids, conns, order, indegree);
        r := Err(CycleDetected);
      }
    }
  }
}
