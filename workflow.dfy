/** LLMWorkflow (LLMGraphConfigurator/llmgraphbuilder.py): build prunes the
    graph to what the input node reaches, creates a handler per node and
    fixes the execution order; ask_question runs the handlers in that order;
    clear_memory empties the memory files. The memory files live in a
    Directory object standing for the script's directory on disk. */
module Workflow {
  import opened Wrappers
  import opened Strings
  import opened Connections
  import opened TopoOrder
  import opened WorkflowGraph
  import opened Reachability
  import opened MemoryLog
  import opened Engine
  import IndexName

  /** The errors build raises: ValueError "Unsupported node type", or the
      topological sort's error */
  datatype BuildError = Unsupported(kind: string) | Sort(error: GraphError)

  /** The files of the script's directory, by path */
  class Directory {
    var files: map<string, string>

    constructor (files: map<string, string>)
      ensures this.files == files
    {
      this.files := files;
    }
  }

  /** A handler run left the state of out: the new state and files, or the
      error and the files as the exception left them */
  predicate StepMirrors(out: Result<Outcome, Halt>, r: Result<RunState, RunError>, files: map<string, string>)
  {
    match out
    case Ok(o) => r == Ok(o.state) && files == o.files
    case Err(h) => r == Err(h.error) && files == h.files
  }

  /** The same for a run of writes */
  predicate WriteMirrors(out: Result<map<string, string>, Halt>, r: Result<(), RunError>, files: map<string, string>)
  {
    match out
    case Ok(f) => r == Ok(()) && files == f
    case Err(h) => r == Err(h.error) && files == h.files
  }

  /** The longest prefix of nodes whose types all have a handler */
  function SupportedPrefix(nodes: seq<Node>): (p: seq<Node>)
    ensures |p| <= |nodes| && p == nodes[..|p|]
    ensures forall n :: n in p ==> Supported(n.kind)
    ensures |p| < |nodes| ==> !Supported(nodes[|p|].kind)
  {
    if |nodes| == 0 || !Supported(nodes[0].kind) then []
    else
      var t := SupportedPrefix(nodes[1..]);
      assert [nodes[0]] + t == nodes[..|t| + 1];
      [nodes[0]] + t
  }

  /** KeepNodes over one more node */
  lemma {:induction false} KeepNodesSnoc(ns: seq<Node>, n: Node, keep: set<int>)
    ensures KeepNodes(ns + [n], keep) == KeepNodes(ns, keep) + (if n.id in keep then [n] else [])
  {
    if |ns| == 0 {
      KeepNodesCons(n, [], keep);
      assert [n] + [] == [n];
    } else {
      assert (ns + [n])[1..] == ns[1..] + [n];
      KeepNodesSnoc(ns[1..], n, keep);
      KeepNodesCons(ns[0], ns[1..] + [n], keep);
      assert [ns[0]] + (ns[1..] + [n]) == ns + [n];
      KeepNodesCons(ns[0], ns[1..], keep);
      assert [ns[0]] + ns[1..] == ns;
    }
  }

  /** list.remove of an id that first occurs at n */
  lemma {:induction false} RemoveFirstAt(a: seq<Node>, n: Node, b: seq<Node>)
    requires n.id !in Ids(a)
    ensures RemoveFirst(a + ([n] + b), n.id) == a + b
  {
    if |a| == 0 {
      assert a + ([n] + b) == [n] + b;
      assert ([n] + b)[1..] == b;
    } else {
      IdsCons(a);
      assert a + ([n] + b) == [a[0]] + (a[1..] + ([n] + b));
      RemoveFirstAt(a[1..], n, b);
      RemoveFirstCons(a[0], a[1..] + ([n] + b), n.id);
      assert [a[0]] + (a[1..] + b) == a + b;
    }
  }

  lemma RemoveFirstCons(m: Node, rest: seq<Node>, id: int)
    requires m.id != id
    ensures RemoveFirst([m] + rest, id) == [m] + RemoveFirst(rest, id)
  {
    assert ([m] + rest)[0] == m && ([m] + rest)[1..] == rest;
  }

  /** Every id kept by KeepNodes is in keep */
  lemma KeptIdsInside(ns: seq<Node>, keep: set<int>, x: int)
    requires x in Ids(KeepNodes(ns, keep))
    ensures x in keep
  {
    KeepNodesMembers(ns, keep);
    var j :| 0 <= j < |KeepNodes(ns, keep)| && Ids(KeepNodes(ns, keep))[j] == x;
    assert KeepNodes(ns, keep)[j] in KeepNodes(ns, keep);
  }

  /** The set of ids of a node list */
  function IdSet(ns: seq<Node>): (r: set<int>)
    ensures forall x :: x in r <==> x in Ids(ns)
  {
    set x | x in Ids(ns)
  }

  class LLMWorkflow {
    /** The graph the workflow was made for; build prunes it in place */
    const graph: Graph
    /** The language model, the similarity index and the script's directory */
    const services: Services
    /** The script's directory on disk */
    const disk: Directory
    /** The ids node_funcs has a handler for */
    var handlers: set<int>
    var execOrder: seq<int>

    ghost predicate Valid()
      reads this, graph
    {
      && graph.Valid()
      && (forall nid :: nid in execOrder ==> nid in handlers)
    }

    constructor (graph: Graph, services: Services, disk: Directory)
      requires graph.Valid()
      ensures Valid()
      ensures this.graph == graph && this.services == services && this.disk == disk
      ensures handlers == {} && execOrder == []
    {
      this.graph := graph;
      this.services := services;
      this.disk := disk;
      handlers := {};
      execOrder := [];
    }

    /** The graph as the handlers read it */
    function Wired(): Wiring
      reads this, graph
    {
      Wiring(graph.nodes, graph.connections)
    }

    /** build: prune to the nodes the input node reaches (all of them when
        there is no input node), create the handlers in node order, failing
        at the first unsupported type, then sort. The prune stays done and
        the handlers made stay made when build fails later. */
    method Build() returns (r: Result<(), BuildError>)
      requires Valid()
      modifies this, graph
      ensures Valid()
      ensures var keep := KeptIds(old(graph.nodes), old(graph.connections));
        && graph.nodes == KeepNodes(old(graph.nodes), keep)
        && graph.connections == KeepConnections(old(graph.connections), keep)
      ensures graph.nextNodeId == old(graph.nextNodeId)
      ensures handlers == old(handlers) + IdSet(SupportedPrefix(graph.nodes))
      ensures |SupportedPrefix(graph.nodes)| < |graph.nodes| ==>
        r == Err(Unsupported(graph.nodes[|SupportedPrefix(graph.nodes)|].kind)) && execOrder == old(execOrder)
      ensures |SupportedPrefix(graph.nodes)| == |graph.nodes| && r.Ok? ==>
        IsTopologicalOrder(Ids(graph.nodes), graph.connections, execOrder)
      ensures |SupportedPrefix(graph.nodes)| == |graph.nodes| && r.Err? ==>
        && r == Err(Sort(CycleDetected)) && execOrder == old(execOrder)
        && forall o :: !IsTopologicalOrder(Ids(graph.nodes), graph.connections, o)
    {
      Prune();
      var made := MakeHandlers();
      if made.Err? {
        return made;
      }
      var order := graph.TopologicalSort();
      if order.Err? {
        return Err(Sort(order.error));
      }
      execOrder := order.value;
      OrderCovered(graph.nodes, graph.connections, execOrder, handlers);
      return Ok(());
    }

    /** The pruning step of build */
    method Prune()
      requires graph.Valid()
      modifies graph
      ensures graph.Valid()
      ensures var keep := KeptIds(old(graph.nodes), old(graph.connections));
        && graph.nodes == KeepNodes(old(graph.nodes), keep)
        && graph.connections == KeepConnections(old(graph.connections), keep)
      ensures graph.nextNodeId == old(graph.nextNodeId)
    {
      var start := InputNode(graph.nodes);
      var reach: set<int> := {};
      if start.Some? {
        reach := ReachableFrom(graph.connections, start.value.id);
        KeptFromInput(graph.nodes, graph.connections, reach);
      } else {
        NoInputKeepsNothing(graph.nodes, graph.connections);
      }
      RemoveOutside(reach);
    }

    /** The loop over a copy of the node list that removes every node whose
        id is not in keep, with its connections */
    method RemoveOutside(keep: set<int>)
      requires graph.Valid()
      modifies graph
      ensures graph.Valid()
      ensures graph.nodes == KeepNodes(old(graph.nodes), keep)
      ensures graph.connections == KeepConnections(old(graph.connections), keep)
      ensures graph.nextNodeId == old(graph.nextNodeId)
    {
      ghost var conns0 := graph.connections;
      var snapshot := graph.nodes;
      ghost var gone: set<int> := {};
      DropNothing(conns0);
      var i := 0;
      while i < |snapshot|
        invariant graph.Valid()
        invariant Removing(graph.nodes, graph.connections, snapshot, i, keep, conns0, gone)
        invariant graph.nextNodeId == old(graph.nextNodeId)
      {
        gone := RemovalTurn(snapshot, i, keep, conns0, gone);
        i := i + 1;
      }
      assert snapshot[..|snapshot|] == snapshot;
      DropIsKeep(conns0, IdSet(snapshot), keep);
    }

    /** One turn of that loop: the snapshot's node i is removed when its id
        is not in keep */
    method RemovalTurn(snapshot: seq<Node>, i: nat, keep: set<int>, ghost conns0: seq<Connection>,
                       ghost gone: set<int>) returns (ghost after: set<int>)
      requires graph.Valid() && i < |snapshot|
      requires Removing(graph.nodes, graph.connections, snapshot, i, keep, conns0, gone)
      modifies graph
      ensures graph.Valid()
      ensures Removing(graph.nodes, graph.connections, snapshot, i + 1, keep, conns0, after)
      ensures graph.nextNodeId == old(graph.nextNodeId)
    {
      var n := snapshot[i];
      RemovalAdvance(graph.nodes, graph.connections, snapshot, i, keep, conns0, gone);
      after := gone;
      if n.id !in keep {
        var removed := graph.RemoveNode(n.id);
        after := gone + {n.id};
      }
    }

    /** The handler loop of build: a handler per node in order, up to the
        first node of an unsupported type */
    method MakeHandlers() returns (r: Result<(), BuildError>)
      modifies this
      ensures handlers == old(handlers) + IdSet(SupportedPrefix(graph.nodes))
      ensures execOrder == old(execOrder)
      ensures r.Ok? <==> |SupportedPrefix(graph.nodes)| == |graph.nodes|
      ensures r.Err? ==> r == Err(Unsupported(graph.nodes[|SupportedPrefix(graph.nodes)|].kind))
      ensures r.Ok? ==> IdSet(graph.nodes) <= handlers
    {
      var k := 0;
      while k < |graph.nodes|
        invariant 0 <= k <= |graph.nodes|
        invariant forall j :: 0 <= j < k ==> Supported(graph.nodes[j].kind)
        invariant handlers == old(handlers) + IdSet(graph.nodes[..k])
        invariant execOrder == old(execOrder)
      {
        var node := graph.nodes[k];
        if !Supported(node.kind) {
          PrefixStops(graph.nodes, k);
          return Err(Unsupported(node.kind));
        }
        handlers := handlers + {node.id};
        assert graph.nodes[..k + 1] == graph.nodes[..k] + [node];
        IdsAppend(graph.nodes[..k], node);
        k := k + 1;
      }
      PrefixStops(graph.nodes, k);
      assert graph.nodes[..k] == graph.nodes;
      return Ok(());
    }

    /** _write_to_memory: the next numbered entry appended to the file, which
        is created when missing */
    method WriteToMemory(path: string, data: string)
      modifies disk
      ensures disk.files == old(disk.files)[path := Append(Existing(old(disk.files), path), data)]
    {
      var existing := Existing(disk.files, path);
      var next := NextLogNumber(existing);
      var entry := Entry(next, data);
      disk.files := disk.files[path := existing + entry];
    }

    /** The closing loop of every handler: the node's text into the file of
        each memory node its connections lead to */
    method WriteTargets(id: int, text: string) returns (r: Result<(), RunError>)
      modifies disk
      ensures WriteMirrors(WriteAll(services.scriptDir, old(disk.files), MemoryTargets(Wired(), id), text), r, disk.files)
    {
      var targets := MemoryTargets(Wired(), id);
      var k := 0;
      while k < |targets|
        invariant 0 <= k <= |targets|
        invariant WriteAll(services.scriptDir, old(disk.files), targets, text)
                  == WriteAll(services.scriptDir, disk.files, targets[k..], text)
      {
        var m := targets[k];
        assert targets[k..][1..] == targets[k + 1..];
        if |m.content| == 0 {
          return Err(NoMemoryName(m.id));
        }
        WriteToMemory(MemoryPath(services.scriptDir, m.content[0]), text);
        k := k + 1;
      }
      return Ok(());
    }

    method RunInput(st: RunState, node: Node) returns (r: Result<RunState, RunError>)
      modifies disk
      ensures StepMirrors(StepInput(Wired(), services, old(disk.files), st, node), r, disk.files)
    {
      var s := st.(activation := st.activation[node.id := true]);
      s := s.(data := s.data[node.id := Text(s.question)]);
      var w := WriteTargets(node.id, s.question);
      if w.Err? {
        return Err(w.error);
      }
      return Ok(s);
    }

    method RunRetrieval(st: RunState, node: Node) returns (r: Result<RunState, RunError>)
      modifies disk
      ensures StepMirrors(StepRetrieval(Wired(), services, old(disk.files), st, node), r, disk.files)
    {
      var flag := CheckGate(Wired(), st, node.id);
      if !flag {
        return Ok(Engine.Closed(st, node.id));
      }
      var path := IndexName.IndexPath(services.scriptDir, node.id, node.content);
      if path.Err? || !services.storeOk(path.value, node.content[0]) {
        return Ok(Engine.Closed(st, node.id));
      }
      var texts := Inputs(Wired(), st, Sources(graph.connections, node.id));
      if texts.Err? {
        return Err(texts.error);
      }
      var query := JoinTexts(node.id, texts.value);
      if query.Err? {
        return Err(query.error);
      }
      var docs := services.search(path.value, query.value, 4);
      if docs.None? {
        return Err(SearchFailed(node.id));
      }
      var retrieved := JoinWith("\n\n", docs.value);
      var s := st.(data := st.data[node.id := Text(retrieved)]);
      s := s.(activation := s.activation[node.id := true]);
      var w := WriteTargets(node.id, retrieved);
      if w.Err? {
        return Err(w.error);
      }
      return Ok(s);
    }

    method RunCondition(st: RunState, node: Node) returns (r: Result<RunState, RunError>)
      modifies disk
      ensures StepMirrors(StepCondition(Wired(), services, old(disk.files), st, node), r, disk.files)
    {
      var flag := CheckGate(Wired(), st, node.id);
      if !flag {
        return Ok(Engine.Closed(st, node.id));
      }
      var s := st.(activation := st.activation[node.id := true]);
      var texts := Inputs(Wired(), st, Sources(graph.connections, node.id));
      if texts.Err? {
        return Err(texts.error);
      }
      if |node.content| == 0 {
        return Err(EmptyCondition(node.id));
      }
      var branch := Branch(node.content[0], Strs(texts.value));
      var v := Tokens(IdStrings(TargetsVia(graph.connections, node.id, branch)));
      s := s.(data := s.data[node.id := v]);
      var w := WriteTargets(node.id, Str(v));
      if w.Err? {
        return Err(w.error);
      }
      return Ok(s);
    }

    method RunQuery(st: RunState, node: Node) returns (r: Result<RunState, RunError>)
      modifies disk
      ensures StepMirrors(StepQuery(Wired(), services, old(disk.files), st, node), r, disk.files)
    {
      var flag := CheckGate(Wired(), st, node.id);
      if !flag {
        return Ok(Engine.Closed(st, node.id));
      }
      var s := st.(activation := st.activation[node.id := true]);
      var inputs := Inputs(Wired(), st, Sources(graph.connections, node.id));
      if inputs.Err? {
        return Err(inputs.error);
      }
      var answer := services.invoke(Prompt(node.content, inputs.value));
      if answer.None? {
        return Err(ModelFailed(node.id));
      }
      var out := answer.value;
      s := s.(data := s.data[node.id := Text(out)]);
      var w := WriteTargets(node.id, out);
      if w.Err? {
        return Err(w.error);
      }
      return Ok(s);
    }

    method RunMemory(st: RunState, node: Node) returns (r: Result<RunState, RunError>)
      modifies disk
      ensures StepMirrors(StepMemory(Wired(), services, old(disk.files), st, node), r, disk.files)
    {
      if |node.content| == 0 {
        return Err(NoMemoryName(node.id));
      }
      var content := Recall(disk.files, MemoryPath(services.scriptDir, node.content[0]));
      var s := st.(data := st.data[node.id := Text(content)]);
      s := s.(activation := s.activation[node.id := true]);
      var w := WriteTargets(node.id, content);
      if w.Err? {
        return Err(w.error);
      }
      return Ok(s);
    }

    method RunOutput(st: RunState, node: Node) returns (r: Result<RunState, RunError>)
      modifies disk
      ensures StepMirrors(StepOutput(Wired(), services, old(disk.files), st, node), r, disk.files)
    {
      var parts := Present(st, Sources(graph.connections, node.id));
      var answer := JoinTexts(node.id, parts);
      if answer.Err? {
        return Err(answer.error);
      }
      var s := st.(answer := answer.value);
      s := s.(data := s.data[node.id := Text(s.answer)]);
      s := s.(activation := s.activation[node.id := true]);
      var w := WriteTargets(node.id, s.answer);
      if w.Err? {
        return Err(w.error);
      }
      return Ok(s);
    }

    /** The handler build made for node, by its type */
    method RunNode(st: RunState, node: Node) returns (r: Result<RunState, RunError>)
      modifies disk
      ensures StepMirrors(Step(Wired(), services, old(disk.files), st, node), r, disk.files)
    {
      if node.kind == "input" {
        r := RunInput(st, node);
      } else if node.kind == "retrieval" {
        r := RunRetrieval(st, node);
      } else if node.kind == "query" {
        r := RunQuery(st, node);
      } else if node.kind == "condition" {
        r := RunCondition(st, node);
      } else if node.kind == "memory" {
        r := RunMemory(st, node);
      } else if node.kind == "output" {
        r := RunOutput(st, node);
      } else {
        r := Err(NoHandler(node.id));
      }
    }

    /** ask_question: the handlers in execution order from a fresh state; the
        answer it ends with */
    method AskQuestion(question: string) returns (r: Result<string, RunError>)
      requires Valid()
      modifies disk
      ensures match Ask(Wired(), services, old(disk.files), question, execOrder)
        case Ok(o) => r == Ok(o.state.answer) && disk.files == o.files
        case Err(h) => r == Err(h.error) && disk.files == h.files
    {
      var st := Fresh(question);
      var k := 0;
      while k < |execOrder|
        invariant 0 <= k <= |execOrder|
        invariant Ask(Wired(), services, old(disk.files), question, execOrder)
                  == RunFrom(Wired(), services, disk.files, st, execOrder[k..])
      {
        var nid := execOrder[k];
        assert execOrder[k..][0] == nid && execOrder[k..][1..] == execOrder[k + 1..];
        var found := FindNode(graph.nodes, nid);
        if found.None? {
          return Err(NoHandler(nid));
        }
        var out := RunNode(st, found.value);
        if out.Err? {
          return Err(out.error);
        }
        st := out.value;
        k := k + 1;
      }
      return Ok(st.answer);
    }

    /** clear_memory: the file of every memory node becomes empty */
    method ClearMemory() returns (r: Result<(), RunError>)
      modifies disk
      ensures WriteMirrors(ClearAll(services.scriptDir, old(disk.files), graph.nodes), r, disk.files)
    {
      var nodes := graph.nodes;
      var k := 0;
      while k < |nodes|
        invariant 0 <= k <= |nodes|
        invariant ClearAll(services.scriptDir, old(disk.files), nodes)
                  == ClearAll(services.scriptDir, disk.files, nodes[k..])
      {
        var node := nodes[k];
        assert nodes[k..][1..] == nodes[k + 1..];
        if node.kind == "memory" {
          if |node.content| == 0 {
            return Err(NoMemoryName(node.id));
          }
          disk.files := disk.files[MemoryPath(services.scriptDir, node.content[0]) := ""];
        }
        k := k + 1;
      }
      return Ok(());
    }

    /** _get_faiss_index_path */
    function FaissIndexPath(node: Node): (r: Result<string, IndexName.PathError>)
      ensures r.Err? <==> |node.content| == 0
      ensures r.Ok? ==> r.value == IndexName.JoinPath(services.scriptDir, IndexName.IndexDirName(node.content[0]))
    {
      IndexName.IndexPath(services.scriptDir, node.id, node.content)
    }
  }

  /** The shape of the removal loop after i turns: the kept nodes of the
      first i, then the rest of the snapshot; the connections left after
      removing the ids of gone, which are those of the first i not kept */
  ghost predicate Removing(nodes: seq<Node>, conns: seq<Connection>, snapshot: seq<Node>, i: nat,
                           keep: set<int>, conns0: seq<Connection>, gone: set<int>)
  {
    && i <= |snapshot|
    && nodes == KeepNodes(snapshot[..i], keep) + snapshot[i..]
    && conns == DropConnections(conns0, gone)
    && gone == IdSet(snapshot[..i]) - keep
  }

  lemma RemovalAdvance(nodes: seq<Node>, conns: seq<Connection>, snapshot: seq<Node>, i: nat,
                       keep: set<int>, conns0: seq<Connection>, gone: set<int>)
    requires Removing(nodes, conns, snapshot, i, keep, conns0, gone) && i < |snapshot|
    ensures var n := snapshot[i];
      && (n.id in keep ==> Removing(nodes, conns, snapshot, i + 1, keep, conns0, gone))
      && (n.id !in keep ==>
            && n.id in Ids(nodes)
            && Removing(RemoveFirst(nodes, n.id), Detach(conns, n.id), snapshot, i + 1, keep, conns0, gone + {n.id}))
  {
    RemovalStep(snapshot, i, keep);
    RemovalGone(snapshot, i, keep);
    DetachDropped(conns0, gone, snapshot[i].id);
  }

  /** One turn of the removal loop: the snapshot's node i is still in the
      list, right after the kept nodes before it; removing it when it is not
      kept, or going past it when it is, leaves the loop's shape for i + 1 */
  lemma RemovalStep(snapshot: seq<Node>, i: nat, keep: set<int>)
    requires i < |snapshot|
    ensures var n := snapshot[i]; var cur := KeepNodes(snapshot[..i], keep) + snapshot[i..];
      && Ids(cur)[|KeepNodes(snapshot[..i], keep)|] == n.id
      && (n.id !in keep ==> RemoveFirst(cur, n.id) == KeepNodes(snapshot[..i + 1], keep) + snapshot[i + 1..])
      && (n.id in keep ==> cur == KeepNodes(snapshot[..i + 1], keep) + snapshot[i + 1..])
  {
    var n, rest := snapshot[i], snapshot[i + 1..];
    var kept := KeepNodes(snapshot[..i], keep);
    var cur := kept + snapshot[i..];
    assert cur == kept + ([n] + rest) by {
      assert snapshot[i..] == [n] + rest;
    }
    assert KeepNodes(snapshot[..i + 1], keep) == kept + (if n.id in keep then [n] else []) by {
      assert snapshot[..i + 1] == snapshot[..i] + [n];
      KeepNodesSnoc(snapshot[..i], n, keep);
    }
    assert Ids(cur)[|kept|] == n.id by {
      assert cur[|kept|] == n;
    }
    if n.id !in keep {
      RemovalDrop(kept, n, snapshot[..i], rest, keep);
      assert kept + [] == kept;
    } else {
      assert kept + ([n] + rest) == (kept + [n]) + rest;
    }
  }

  lemma RemovalDrop(kept: seq<Node>, n: Node, before: seq<Node>, after: seq<Node>, keep: set<int>)
    requires kept == KeepNodes(before, keep) && n.id !in keep
    ensures RemoveFirst(kept + ([n] + after), n.id) == kept + after
  {
    assert n.id !in Ids(kept) by {
      if n.id in Ids(kept) {
        KeptIdsInside(before, keep, n.id);
      }
    }
    RemoveFirstAt(kept, n, after);
  }

  /** The ids removed after turn i */
  lemma RemovalGone(snapshot: seq<Node>, i: nat, keep: set<int>)
    requires i < |snapshot|
    ensures IdSet(snapshot[..i + 1]) - keep
            == (IdSet(snapshot[..i]) - keep) + (if snapshot[i].id in keep then {} else {snapshot[i].id})
  {
    assert snapshot[..i + 1] == snapshot[..i] + [snapshot[i]];
    IdsAppend(snapshot[..i], snapshot[i]);
  }

  /** Every id of an execution order has a handler once every node has one */
  lemma OrderCovered(nodes: seq<Node>, conns: seq<Connection>, order: seq<int>, handlers: set<int>)
    requires IsTopologicalOrder(Ids(nodes), conns, order)
    requires IdSet(nodes) <= handlers
    ensures forall nid :: nid in order ==> nid in handlers
  {
  }

  /** The prefix the handler loop got through before stopping at k */
  lemma {:induction false} PrefixStops(nodes: seq<Node>, k: nat)
    requires k <= |nodes|
    requires forall j :: 0 <= j < k ==> Supported(nodes[j].kind)
    requires k < |nodes| ==> !Supported(nodes[k].kind)
    ensures SupportedPrefix(nodes) == nodes[..k]
  {
    if k > 0 {
      var t := nodes[1..];
      forall j | 0 <= j < k - 1 ensures Supported(t[j].kind) {
        assert t[j] == nodes[j + 1];
      }
      PrefixStops(t, k - 1);
      assert [nodes[0]] + t[..k - 1] == nodes[..k];
    }
  }
}
