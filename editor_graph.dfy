/** The editor's graph (LLMGraphConfigurator/graphcreator.py): the same nodes,
    typed connections and id counter as the workflow graph, with each node
    placed on the canvas. Saving writes the position with the node; loading
    reads it back. */
module EditorGraph {
  import opened Wrappers
  import opened Connections
  import opened WorkflowGraph

  /** A node on the canvas: the workflow node and its top-left corner */
  datatype Placed = Placed(node: Node, x: int, y: int)

  /** One entry of a saved "nodes" list: the workflow entry and "x", "y" */
  datatype PlacedEntry = PlacedEntry(entry: NodeEntry, x: int, y: int)

  /** The dictionary form of the editor's graph */
  datatype Sketch = Sketch(nodes: seq<PlacedEntry>, connections: seq<ConnectionEntry>)

  /** The workflow nodes without their positions */
  function Cores(ps: seq<Placed>): (r: seq<Node>)
    ensures |r| == |ps| && forall i :: 0 <= i < |ps| ==> r[i] == ps[i].node
  {
    seq(|ps|, i requires 0 <= i < |ps| => ps[i].node)
  }

  /** The workflow entries without their positions */
  function Entries(es: seq<PlacedEntry>): (r: seq<NodeEntry>)
    ensures |r| == |es| && forall i :: 0 <= i < |es| ==> r[i] == es[i].entry
  {
    seq(|es|, i requires 0 <= i < |es| => es[i].entry)
  }

  /** to_dict's node list: id, type, x, y and content, which is always written */
  function Save(ps: seq<Placed>): (r: seq<PlacedEntry>)
    ensures |r| == |ps|
    ensures forall i :: 0 <= i < |ps| ==>
      r[i] == PlacedEntry(NodeEntry(ps[i].node.id, ps[i].node.kind, Some(ps[i].node.content)), ps[i].x, ps[i].y)
  {
    seq(|ps|, i requires 0 <= i < |ps| =>
      PlacedEntry(NodeEntry(ps[i].node.id, ps[i].node.kind, Some(ps[i].node.content)), ps[i].x, ps[i].y))
  }

  /** from_dict's node for an entry: the position as saved, missing content as [] */
  function RestoreOne(e: PlacedEntry): Placed
  {
    Placed(LoadNode(e.entry), e.x, e.y)
  }

  function Restore(es: seq<PlacedEntry>): (r: seq<Placed>)
    ensures |r| == |es| && forall i :: 0 <= i < |es| ==> r[i] == RestoreOne(es[i])
  {
    seq(|es|, i requires 0 <= i < |es| => RestoreOne(es[i]))
  }

  /** Saving strips the positions into the workflow graph's own entries */
  lemma SaveEntries(ps: seq<Placed>)
    ensures Entries(Save(ps)) == NodeEntries(Cores(ps))
  {
  }

  /** Loading keeps the workflow nodes of the entries */
  lemma RestoreCores(es: seq<PlacedEntry>)
    ensures Cores(Restore(es)) == LoadNodes(Entries(es))
  {
  }

  /** to_dict followed by from_dict puts every node back where it was, with
      its id, type and content */
  lemma SaveRestore(ps: seq<Placed>)
    ensures Restore(Save(ps)) == ps
  {
    var r := Restore(Save(ps));
    forall i | 0 <= i < |ps| ensures r[i] == ps[i] {
      assert Save(ps)[i].entry.content == Some(ps[i].node.content);
    }
  }

  /** list.remove of the node with this id */
  function RemovePlaced(ps: seq<Placed>, id: int): (r: seq<Placed>)
    ensures Cores(r) == RemoveFirst(Cores(ps), id)
  {
    if |ps| == 0 then []
    else if ps[0].node.id == id then
      assert Cores(ps[1..]) == Cores(ps)[1..];
      ps[1..]
    else
      var t := RemovePlaced(ps[1..], id);
      assert Cores(ps[1..]) == Cores(ps)[1..];
      CoresCons(ps[0], t);
      [ps[0]] + t
  }

  lemma CoresCons(p: Placed, ps: seq<Placed>)
    ensures Cores([p] + ps) == [p.node] + Cores(ps)
  {
    assert forall i :: 0 < i <= |ps| ==> Cores([p] + ps)[i] == Cores(ps)[i - 1];
  }

  /** The drag: the node with this id moves to (x, y), the others stay */
  function Moved(ps: seq<Placed>, id: int, x: int, y: int): (r: seq<Placed>)
    ensures |r| == |ps|
    ensures forall i :: 0 <= i < |ps| ==> r[i] == if ps[i].node.id == id then Placed(ps[i].node, x, y) else ps[i]
  {
    seq(|ps|, i requires 0 <= i < |ps| => if ps[i].node.id == id then Placed(ps[i].node, x, y) else ps[i])
  }

  /** list.remove of a connection: the first equal one goes */
  function RemoveOne(conns: seq<Connection>, c: Connection): (r: seq<Connection>)
  {
    if |conns| == 0 then []
    else if conns[0] == c then conns[1..]
    else [conns[0]] + RemoveOne(conns[1..], c)
  }

  /** Among unique connections, removing one keeps the others and only them */
  lemma {:induction false} RemoveOneMembers(conns: seq<Connection>, c: Connection)
    requires NoDuplicates(conns)
    ensures forall d :: d in RemoveOne(conns, c) <==> d in conns && d != c
    ensures NoDuplicates(RemoveOne(conns, c))
  {
    if |conns| > 0 {
      var t := conns[1..];
      assert NoDuplicates(t) && conns[0] !in t by {
        forall i, j | 0 <= i < j < |t| ensures t[i] != t[j] {
          assert t[i] == conns[i + 1] && t[j] == conns[j + 1];
        }
      }
      assert forall d :: d in conns <==> d == conns[0] || d in t;
      if conns[0] != c {
        RemoveOneMembers(t, c);
        var r := RemoveOne(conns, c);
        assert r == [conns[0]] + RemoveOne(t, c);
        forall i, j | 0 <= i < j < |r| ensures r[i] != r[j] {
          if i == 0 {
            assert r[j] in RemoveOne(t, c);
          } else {
            assert r[i] == RemoveOne(t, c)[i - 1] && r[j] == RemoveOne(t, c)[j - 1];
          }
        }
      }
    }
  }

  /** Saving a well-formed graph and loading it back gives the same nodes,
      with their positions, the same connections, and leaves the counter */
  lemma SnapshotRoundTrip(ps: seq<Placed>, conns: seq<Connection>, next: int)
    requires WellFormed(Cores(ps), conns, next)
    ensures Restore(Save(ps)) == ps
    ensures LoadFrom([], Ids(Cores(Restore(Save(ps)))), ConnectionEntries(conns)) == Loaded(conns, None)
    ensures NextIdAfter(next, Entries(Save(ps))) == next
  {
    SaveRestore(ps);
    ConnectionsRoundTrip(Cores(ps), conns, next);
    SaveEntries(ps);
    NextIdRoundTrip(Cores(ps), next, next);
  }

  /** A snapshot as to_dict writes it: unique ids, every connection between
      saved ids with its output_type, every node with its content, and no
      repeated triple */
  ghost predicate Saved(d: Sketch)
  {
    var ids := EntryIds(Entries(d.nodes));
    && Distinct(ids)
    && (forall e :: e in d.connections ==> e.src in ids && e.dst in ids && e.outputType.Some?)
    && (forall e :: e in d.nodes ==> e.entry.content.Some?)
    && NoDuplicates(LoadConnectionsOf(d.connections))
  }

  lemma EntryIdsOfSave(ps: seq<Placed>)
    ensures EntryIds(Entries(Save(ps))) == Ids(Cores(ps))
  {
  }

  lemma IdsOfRestore(es: seq<PlacedEntry>)
    ensures Ids(Cores(Restore(es))) == EntryIds(Entries(es))
  {
  }

  /** Whatever to_dict writes for a well-formed graph is such a snapshot */
  lemma SavedToDict(ps: seq<Placed>, cs: seq<Connection>, next: int)
    requires WellFormed(Cores(ps), cs, next)
    ensures Saved(Sketch(Save(ps), ConnectionEntries(cs)))
  {
    EntryIdsOfSave(ps);
    var es := ConnectionEntries(cs);
    assert LoadConnectionsOf(es) == cs;
    forall e | e in es ensures e.src in Ids(Cores(ps)) && e.dst in Ids(Cores(ps)) {
      var i :| 0 <= i < |es| && es[i] == e;
      assert cs[i] in cs;
    }
  }

  /** Loading such a snapshot fails on no lookup and keeps every connection */
  lemma SavedLoads(d: Sketch)
    requires Saved(d)
    ensures LoadFrom([], Ids(Cores(Restore(d.nodes))), d.connections) == Loaded(LoadConnectionsOf(d.connections), None)
  {
    var known, cs := Ids(Cores(Restore(d.nodes))), LoadConnectionsOf(d.connections);
    assert forall e :: e in d.connections ==> e.src in known && e.dst in known by {
      IdsOfRestore(d.nodes);
    }
    assert Dedup([]) == [];
    LoadFromAllKnown([], known, d.connections);
    assert [] + cs == cs;
    DedupOfDistinct(cs);
  }

  /** Such a snapshot, loaded and saved again, is written out unchanged */
  lemma SavedResaved(d: Sketch)
    requires Saved(d)
    ensures Save(Restore(d.nodes)) == d.nodes
    ensures ConnectionEntries(LoadConnectionsOf(d.connections)) == d.connections
  {
    forall i | 0 <= i < |d.nodes| ensures Save(Restore(d.nodes))[i] == d.nodes[i] {
      assert d.nodes[i] in d.nodes;
    }
    forall i | 0 <= i < |d.connections| ensures ConnectionEntries(LoadConnectionsOf(d.connections))[i] == d.connections[i] {
      assert d.connections[i] in d.connections;
    }
  }

  /** Saved connections load back as they were */
  lemma ConnectionEntriesLoad(cs: seq<Connection>)
    ensures LoadConnectionsOf(ConnectionEntries(cs)) == cs
  {
  }

  /** The configuration window's Save: the node with this id takes the new
      content list */
  function WithContent(ps: seq<Placed>, id: int, content: seq<string>): (r: seq<Placed>)
    ensures |r| == |ps|
    ensures forall i :: 0 <= i < |ps| ==>
      r[i] == if ps[i].node.id == id then Placed(Node(id, ps[i].node.kind, content), ps[i].x, ps[i].y) else ps[i]
  {
    seq(|ps|, i requires 0 <= i < |ps| =>
      if ps[i].node.id == id then Placed(Node(id, ps[i].node.kind, content), ps[i].x, ps[i].y) else ps[i])
  }

  lemma CoresSnoc(ps: seq<Placed>, p: Placed)
    ensures Cores(ps + [p]) == Cores(ps) + [p.node]
  {
  }

  /** One more entry restores one more node and raises the counter past its
      id when it reaches it */
  lemma RestoreStep(es: seq<PlacedEntry>, start: int, i: nat)
    requires i < |es|
    ensures Restore(es[..i + 1]) == Restore(es[..i]) + [RestoreOne(es[i])]
    ensures var m := NextIdAfter(start, Entries(es[..i]));
      NextIdAfter(start, Entries(es[..i + 1])) == if es[i].entry.id >= m then es[i].entry.id + 1 else m
  {
    assert Entries(es[..i + 1])[..i] == Entries(es[..i]);
    assert Restore(es[..i + 1]) == Restore(es[..i]) + [RestoreOne(es[i])];
  }

  class Graph {
    var nodes: seq<Placed>
    var connections: seq<Connection>
    var nextNodeId: int

    ghost predicate Valid()
      reads this
    {
      WellFormed(Cores(nodes), connections, nextNodeId)
    }

    constructor ()
      ensures Valid()
      ensures nodes == [] && connections == [] && nextNodeId == 1
    {
      nodes := [];
      connections := [];
      nextNodeId := 1;
    }

    /** add_node: the node takes the counter's value, which moves on; it is
        placed at the click shifted by (-23, +70) */
    method AddNode(kind: string, x: int, y: int) returns (p: Placed)
      requires Valid()
      modifies this
      ensures Valid()
      ensures p == Placed(Node(old(nextNodeId), kind, []), x - 23, y + 70)
      ensures p.node.id !in Ids(Cores(old(nodes)))
      ensures nodes == old(nodes) + [p]
      ensures connections == old(connections)
      ensures nextNodeId == old(nextNodeId) + 1
    {
      p := Placed(Node(nextNodeId, kind, []), x - 23, y + 70);
      CoresSnoc(nodes, p);
      IdsAppend(Cores(nodes), p.node);
      assert p.node.id !in Ids(Cores(nodes));
      nodes := nodes + [p];
      nextNodeId := nextNodeId + 1;
    }

    /** The scan of add_connection */
    method HasConnection(c: Connection) returns (found: bool)
      ensures found <==> c in connections
    {
      var i := 0;
      while i < |connections|
        invariant 0 <= i <= |connections|
        invariant c !in connections[..i]
      {
        if connections[i] == c {
          return true;
        }
        assert connections[..i + 1] == connections[..i] + [connections[i]];
        i := i + 1;
      }
      assert connections[..i] == connections;
      return false;
    }

    /** add_connection: a triple already present is ignored, otherwise exactly
        one connection is appended */
    method AddConnection(src: int, dst: int, outputType: string)
      requires Valid()
      requires src in Ids(Cores(nodes)) && dst in Ids(Cores(nodes))
      modifies this
      ensures Valid()
      ensures connections == Insert(old(connections), Connection(src, dst, outputType))
      ensures nodes == old(nodes) && nextNodeId == old(nextNodeId)
    {
      var c := Connection(src, dst, outputType);
      var found := HasConnection(c);
      InsertProperties(connections, c);
      if !found {
        connections := connections + [c];
      }
    }

    /** remove_node: the connections touching the node go, then the node */
    method RemoveNode(id: int) returns (removed: bool)
      requires Valid()
      modifies this
      ensures Valid()
      ensures removed <==> id in Ids(Cores(old(nodes)))
      ensures connections == Detach(old(connections), id)
      ensures removed ==> nodes == RemovePlaced(old(nodes), id)
      ensures !removed ==> nodes == old(nodes) && connections == old(connections)
      ensures nextNodeId == old(nextNodeId)
    {
      if id !in Ids(Cores(nodes)) {
        DetachUntouched(connections, id);
        return false;
      }
      RemoveKeepsWellFormed(Cores(nodes), connections, nextNodeId, id);
      connections := Detach(connections, id);
      nodes := RemovePlaced(nodes, id);
      return true;
    }

    /** The right click on a connection: that one connection goes */
    method RemoveConnection(c: Connection)
      requires Valid() && c in connections
      modifies this
      ensures Valid()
      ensures connections == RemoveOne(old(connections), c)
      ensures forall d :: d in connections <==> d in old(connections) && d != c
      ensures nodes == old(nodes) && nextNodeId == old(nextNodeId)
    {
      RemoveOneMembers(connections, c);
      connections := RemoveOne(connections, c);
    }

    /** A drag moves one node; its connectors follow it */
    method MoveNode(id: int, x: int, y: int)
      requires Valid()
      modifies this
      ensures Valid()
      ensures nodes == Moved(old(nodes), id, x, y)
      ensures connections == old(connections) && nextNodeId == old(nextNodeId)
    {
      assert Cores(Moved(nodes, id, x, y)) == Cores(nodes);
      nodes := Moved(nodes, id, x, y);
    }

    /** The configuration window's Save for the node with this id */
    method SetContent(id: int, content: seq<string>)
      requires Valid()
      modifies this
      ensures Valid()
      ensures nodes == WithContent(old(nodes), id, content)
      ensures connections == old(connections) && nextNodeId == old(nextNodeId)
    {
      var r := WithContent(nodes, id, content);
      assert Ids(Cores(r)) == Ids(Cores(nodes));
      forall n | n in Cores(r) ensures n.id < nextNodeId {
        var i :| 0 <= i < |r| && Cores(r)[i] == n;
        assert Cores(nodes)[i] in Cores(nodes);
      }
      nodes := r;
    }

    /** to_dict */
    function ToDict(): (d: Sketch)
      reads this
      ensures |d.nodes| == |nodes| && |d.connections| == |connections|
    {
      Sketch(Save(nodes), ConnectionEntries(connections))
    }

    /** The first loop of from_dict: a node per entry, the counter raised past
        each id */
    method RestoreList(es: seq<PlacedEntry>, start: int) returns (ps: seq<Placed>, next: int)
      ensures ps == Restore(es)
      ensures next == NextIdAfter(start, Entries(es))
    {
      ps, next := [], start;
      var i := 0;
      while i < |es|
        invariant 0 <= i <= |es|
        invariant ps == Restore(es[..i])
        invariant next == NextIdAfter(start, Entries(es[..i]))
      {
        var e := es[i];
        RestoreStep(es, start, i);
        ps := ps + [RestoreOne(e)];
        if e.entry.id >= next {
          next := e.entry.id + 1;
        }
        i := i + 1;
      }
      assert es[..i] == es;
    }

    /** from_dict: the nodes and connections of the dictionary replace the
        graph's, the counter only rises; a connection naming an unknown id
        is the KeyError that ends the load with what was added before it */
    method FromDict(doc: Sketch) returns (r: Result<(), GraphError>)
      requires Valid()
      requires Distinct(EntryIds(Entries(doc.nodes)))
      modifies this
      ensures Valid()
      ensures nodes == Restore(doc.nodes)
      ensures nextNodeId == NextIdAfter(old(nextNodeId), Entries(doc.nodes))
      ensures connections == LoadFrom([], Ids(Cores(nodes)), doc.connections).conns
      ensures r.Ok? <==> LoadFrom([], Ids(Cores(nodes)), doc.connections).missing.None?
      ensures r.Err? ==> r.error == UnknownNode(LoadFrom([], Ids(Cores(nodes)), doc.connections).missing.value)
    {
      ghost var start := nextNodeId;
      nodes, nextNodeId := RestoreList(doc.nodes, nextNodeId);
      connections := [];
      RestoreCores(doc.nodes);
      LoadedNodesWellFormed(Entries(doc.nodes), start);
      var known := Ids(Cores(nodes));
      var k := 0;
      while k < |doc.connections|
        invariant 0 <= k <= |doc.connections|
        invariant Valid()
        invariant nodes == Restore(doc.nodes) && known == Ids(Cores(nodes))
        invariant nextNodeId == NextIdAfter(start, Entries(doc.nodes))
        invariant LoadFrom(connections, known, doc.connections[k..]) == LoadFrom([], known, doc.connections)
      {
        var e := doc.connections[k];
        assert doc.connections[k..][1..] == doc.connections[k + 1..];
        if e.src !in known {
          return Err(UnknownNode(e.src));
        }
        if e.dst !in known {
          return Err(UnknownNode(e.dst));
        }
        AddConnection(e.src, e.dst, e.outputType.GetOr("output"));
        k := k + 1;
      }
      return Ok(());
    }
  }
}
