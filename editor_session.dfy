/** The editing rules of the graph editor's event loop
    (LLMGraphConfigurator/graphcreator.py, main): at most one input node,
    guarded connections, a selection, and undo/redo stacks of saved
    snapshots that every edit pushes onto. Mouse hit-testing is abstracted
    into the node id or connection the event lands on. */
module EditorSession {
  import opened Wrappers
  import opened Connections
  import opened TopoOrder
  import opened WorkflowGraph
  import opened EditorGraph

  /** The node the editor has selected. Undo, redo and loading build new
      node objects, so a selection made before them names no node of the
      graph any more: it is stale. */
  datatype Selection = Unselected | Selected(id: int) | Stale

  /** The ValueError of list.remove when the Delete key removes a stale
      selection; the event loop does not catch it */
  datatype EditError = StaleSelection

  /** Why the Load Graph button left the graph unloaded or half loaded:
      graph.json could not be read, or from_dict failed part way */
  datatype LoadError = Unreadable | Broken(error: GraphError)

  /** any(n.type == "input" for n in graph.nodes) */
  predicate HasInput(ns: seq<Node>)
  {
    exists n :: n in ns && n.kind == "input"
  }

  /** No two different ids belong to input nodes */
  ghost predicate AtMostOneInput(ns: seq<Node>)
  {
    forall a, b :: a in ns && b in ns && a.kind == "input" && b.kind == "input" ==> a.id == b.id
  }

  /** With unique ids, the node found by id is the only node with that id */
  lemma {:induction false} FindUnique(ns: seq<Node>, n: Node)
    requires Distinct(Ids(ns)) && n in ns
    ensures FindNode(ns, n.id) == Some(n)
  {
    IdsCons(ns);
    if ns[0] != n {
      assert n in ns[1..];
      DistinctIdsTail(ns);
      FindUnique(ns[1..], n);
    }
  }

  /** Removing a node by id: an input node takes the only input with it,
      any other node leaves the input as it was; at most one input stays so */
  lemma RemoveInputRule(ns: seq<Node>, id: int)
    requires Distinct(Ids(ns)) && id in Ids(ns) && AtMostOneInput(ns)
    ensures AtMostOneInput(RemoveFirst(ns, id))
    ensures KindOf(ns, id) == "input" ==> !HasInput(RemoveFirst(ns, id))
    ensures KindOf(ns, id) != "input" ==> (HasInput(RemoveFirst(ns, id)) <==> HasInput(ns))
  {
    RemoveFirstMembers(ns, id);
    var gone := FindNode(ns, id).value;
    forall b | b in ns && b.id == id ensures b == gone {
      FindUnique(ns, b);
    }
  }

  /** Appending a node adds its kind to the inputs; an input appended to a
      graph without one keeps at most one */
  lemma AppendInputRule(ns: seq<Node>, n: Node)
    ensures HasInput(ns + [n]) <==> HasInput(ns) || n.kind == "input"
    ensures AtMostOneInput(ns) && (n.kind == "input" ==> !HasInput(ns)) ==> AtMostOneInput(ns + [n])
  {
    assert forall a :: a in ns + [n] <==> a in ns || a == n;
  }

  /** Two node lists with the same ids and kinds position by position have
      the same inputs */
  lemma SameKindsInputRule(a: seq<Node>, b: seq<Node>)
    requires |a| == |b| && forall i :: 0 <= i < |a| ==> a[i].kind == b[i].kind && a[i].id == b[i].id
    ensures HasInput(b) <==> HasInput(a)
    ensures AtMostOneInput(a) ==> AtMostOneInput(b)
  {
    forall n | n in b ensures exists m :: m in a && m.kind == n.kind && m.id == n.id {
      var i :| 0 <= i < |b| && b[i] == n;
      assert a[i] in a;
    }
    forall n | n in a ensures exists m :: m in b && m.kind == n.kind && m.id == n.id {
      var i :| 0 <= i < |a| && a[i] == n;
      assert b[i] in b;
    }
  }

  /** A content edit keeps the kinds, so the inputs stay as they were */
  lemma ContentInputRule(ps: seq<Placed>, id: int, content: seq<string>)
    ensures HasInput(Cores(WithContent(ps, id, content))) <==> HasInput(Cores(ps))
    ensures AtMostOneInput(Cores(ps)) ==> AtMostOneInput(Cores(WithContent(ps, id, content)))
  {
    var a, b := Cores(ps), Cores(WithContent(ps, id, content));
    assert forall i :: 0 <= i < |a| ==> a[i].kind == b[i].kind && a[i].id == b[i].id;
    SameKindsInputRule(a, b);
  }

  /** A kept id is still there after another id is removed */
  lemma OtherIdKept(ns: seq<Node>, id: int, other: int)
    requires Distinct(Ids(ns)) && id in Ids(ns) && other in Ids(ns) && other != id
    ensures other in Ids(RemoveFirst(ns, id))
  {
    WithoutFacts(Ids(ns), id);
  }

  /** Every snapshot of a stack is as to_dict writes it */
  ghost predicate AllSaved(stack: seq<Sketch>)
  {
    forall d :: d in stack ==> Saved(d)
  }

  /** No snapshot of a stack has two input nodes */
  ghost predicate AllOneInput(stack: seq<Sketch>)
  {
    forall d :: d in stack ==> AtMostOneInput(Cores(Restore(d.nodes)))
  }

  class Editor {
    const graph: EditorGraph.Graph
    var undoStack: seq<Sketch>
    var redoStack: seq<Sketch>
    var inputExists: bool
    var selected: Selection

    /** The graph is well formed, the stacks hold snapshots as to_dict
        writes them, and a live selection names a node of the graph */
    ghost predicate Valid()
      reads this, graph
    {
      && graph.Valid()
      && AllSaved(undoStack) && AllSaved(redoStack)
      && (selected.Selected? ==> selected.id in Ids(Cores(graph.nodes)))
    }

    /** The input rule: at most one input node, input_exists says whether
        there is one, and no snapshot on either stack has two */
    ghost predicate OneInput()
      reads this, graph
    {
      && AtMostOneInput(Cores(graph.nodes))
      && (inputExists <==> HasInput(Cores(graph.nodes)))
      && AllOneInput(undoStack) && AllOneInput(redoStack)
    }

    /** The editor starts with an empty graph, empty stacks and no input */
    constructor ()
      ensures fresh(graph)
      ensures Valid() && OneInput()
      ensures graph.nodes == [] && graph.connections == [] && graph.nextNodeId == 1
      ensures undoStack == [] && redoStack == [] && !inputExists && selected == Unselected
    {
      graph := new EditorGraph.Graph();
      undoStack, redoStack := [], [];
      inputExists := false;
      selected := Unselected;
    }

    /** What every edit does first: push the current snapshot onto the undo
        stack and clear the redo stack */
    method Checkpoint()
      requires Valid()
      modifies this
      ensures Valid()
      ensures undoStack == old(undoStack) + [graph.ToDict()] && redoStack == []
      ensures inputExists == old(inputExists) && selected == old(selected)
      ensures old(OneInput()) ==> OneInput()
    {
      SavedToDict(graph.nodes, graph.connections, graph.nextNodeId);
      SaveRestore(graph.nodes);
      undoStack := undoStack + [graph.ToDict()];
      redoStack := [];
    }

    /** A toolbar button for a node type: an input node only while none
        exists; the new node becomes the selection */
    method AddNodeButton(kind: string, x: int, y: int) returns (created: Option<Placed>)
      requires Valid()
      modifies this, graph
      ensures Valid()
      ensures created.Some? <==> kind != "input" || !old(inputExists)
      ensures created.Some? ==>
        && created.value == Placed(Node(old(graph.nextNodeId), kind, []), x - 23, y + 70)
        && graph.nodes == old(graph.nodes) + [created.value]
        && graph.connections == old(graph.connections)
        && undoStack == old(undoStack) + [old(graph.ToDict())] && redoStack == []
        && selected == Selected(created.value.node.id)
        && inputExists == (old(inputExists) || kind == "input")
      ensures created.None? ==> unchanged(this, graph)
      ensures old(OneInput()) ==> OneInput()
    {
      if kind == "input" && inputExists {
        return None;
      }
      Checkpoint();
      ghost var before := graph.nodes;
      var p := graph.AddNode(kind, x, y);
      CoresSnoc(before, p);
      IdsAppend(Cores(before), p.node);
      AppendInputRule(Cores(before), p.node);
      selected := Selected(p.node.id);
      if kind == "input" {
        inputExists := true;
      }
      return Some(p);
    }

    /** Releasing a connection drag: started at src's output of the given
        type and released over target's input connector, if any. The
        connection is made only onto another node that is not an input. */
    method Connect(src: int, outputType: string, target: Option<int>) returns (made: bool)
      requires Valid()
      requires src in Ids(Cores(graph.nodes))
      requires target.Some? ==> target.value in Ids(Cores(graph.nodes))
      modifies this, graph
      ensures Valid()
      ensures made <==> target.Some? && target.value != src && KindOf(Cores(old(graph.nodes)), target.value) != "input"
      ensures made ==>
        && graph.connections == Insert(old(graph.connections), Connection(src, target.value, outputType))
        && undoStack == old(undoStack) + [old(graph.ToDict())] && redoStack == []
      ensures !made ==> unchanged(this, graph)
      ensures graph.nodes == old(graph.nodes) && inputExists == old(inputExists) && selected == old(selected)
      ensures old(OneInput()) ==> OneInput()
    {
      if target.None? || target.value == src || KindOf(Cores(graph.nodes), target.value) == "input" {
        return false;
      }
      Checkpoint();
      graph.AddConnection(src, target.value, outputType);
      return true;
    }

    /** A right click on a node deletes it; deleting the input node clears
        input_exists, and a deleted selection is dropped */
    method RightClickNode(id: int)
      requires Valid()
      requires id in Ids(Cores(graph.nodes))
      modifies this, graph
      ensures Valid()
      ensures undoStack == old(undoStack) + [old(graph.ToDict())] && redoStack == []
      ensures graph.nodes == RemovePlaced(old(graph.nodes), id)
      ensures graph.connections == Detach(old(graph.connections), id)
      ensures inputExists == (old(inputExists) && KindOf(Cores(old(graph.nodes)), id) != "input")
      ensures selected == if old(selected) == Selected(id) then Unselected else old(selected)
      ensures old(OneInput()) ==> OneInput()
    {
      Checkpoint();
      DropNode(id);
    }

    /** The removal part of a node deletion, after the checkpoint */
    method DropNode(id: int)
      requires Valid()
      requires id in Ids(Cores(graph.nodes))
      modifies this, graph
      ensures Valid()
      ensures undoStack == old(undoStack) && redoStack == old(redoStack)
      ensures graph.nodes == RemovePlaced(old(graph.nodes), id)
      ensures graph.connections == Detach(old(graph.connections), id)
      ensures inputExists == (old(inputExists) && KindOf(Cores(old(graph.nodes)), id) != "input")
      ensures selected == if old(selected) == Selected(id) then Unselected else old(selected)
      ensures old(OneInput()) ==> OneInput()
    {
      ghost var before := Cores(graph.nodes);
      if KindOf(Cores(graph.nodes), id) == "input" {
        inputExists := false;
      }
      var removed := graph.RemoveNode(id);
      if selected == Selected(id) {
        selected := Unselected;
      }
      if selected.Selected? {
        OtherIdKept(before, id, selected.id);
      }
      if AtMostOneInput(before) {
        RemoveInputRule(before, id);
      }
    }

    /** A right click on a connection deletes that connection */
    method RightClickConnection(c: Connection)
      requires Valid() && c in graph.connections
      modifies this, graph
      ensures Valid()
      ensures undoStack == old(undoStack) + [old(graph.ToDict())] && redoStack == []
      ensures graph.connections == RemoveOne(old(graph.connections), c)
      ensures graph.nodes == old(graph.nodes) && inputExists == old(inputExists) && selected == old(selected)
      ensures old(OneInput()) ==> OneInput()
    {
      Checkpoint();
      graph.RemoveConnection(c);
    }

    /** A left click on a node selects it and starts dragging it */
    method ClickNode(id: int)
      requires Valid() && id in Ids(Cores(graph.nodes))
      modifies this
      ensures Valid()
      ensures undoStack == old(undoStack) + [graph.ToDict()] && redoStack == []
      ensures selected == Selected(id) && inputExists == old(inputExists)
      ensures old(OneInput()) ==> OneInput()
    {
      Checkpoint();
      selected := Selected(id);
    }

    /** A left click on empty canvas drops the selection */
    method ClickBackground()
      requires Valid()
      modifies this
      ensures Valid()
      ensures selected == Unselected
      ensures undoStack == old(undoStack) && redoStack == old(redoStack) && inputExists == old(inputExists)
    {
      selected := Unselected;
    }

    /** The configuration window's Save replaces a node's content */
    method ConfigSave(id: int, content: seq<string>)
      requires Valid() && id in Ids(Cores(graph.nodes))
      modifies this, graph
      ensures Valid()
      ensures undoStack == old(undoStack) + [old(graph.ToDict())] && redoStack == []
      ensures graph.nodes == WithContent(old(graph.nodes), id, content)
      ensures graph.connections == old(graph.connections)
      ensures inputExists == old(inputExists) && selected == old(selected)
      ensures old(OneInput()) ==> OneInput()
    {
      Checkpoint();
      ghost var before := graph.nodes;
      graph.SetContent(id, content);
      ContentInputRule(before, id, content);
      assert Ids(Cores(graph.nodes)) == Ids(Cores(before));
    }

    /** The Delete key with input_exists cleared when the input node goes,
        as the right click does */
    method DeleteKey() returns (r: Result<(), EditError>)
      requires Valid()
      modifies this, graph
      ensures Valid()
      ensures r.Err? <==> old(selected) == Stale
      ensures old(selected) == Unselected ==> unchanged(this, graph)
      ensures old(selected) == Stale ==>
        undoStack == old(undoStack) + [old(graph.ToDict())] && redoStack == [] && unchanged(graph)
      ensures old(selected).Selected? ==>
        && undoStack == old(undoStack) + [old(graph.ToDict())] && redoStack == []
        && graph.nodes == RemovePlaced(old(graph.nodes), old(selected).id)
        && graph.connections == Detach(old(graph.connections), old(selected).id)
        && selected == Unselected
        && inputExists == (old(inputExists) && KindOf(Cores(old(graph.nodes)), old(selected).id) != "input")
      ensures old(OneInput()) ==> OneInput()
    {
      match selected
      case Unselected =>
        return Ok(());
      case Stale =>
        Checkpoint();
        return Err(StaleSelection);
      case Selected(id) =>
        RightClickNode(id);
        return Ok(());
    }

    /** The Delete key as the event loop has it: input_exists is left as it
        was, even when the selected node is the input node */
    method DeleteKeyAsWritten() returns (r: Result<(), EditError>)
      requires Valid()
      modifies this, graph
      ensures Valid()
      ensures r.Err? <==> old(selected) == Stale
      ensures inputExists == old(inputExists)
      ensures old(selected) == Unselected ==> unchanged(this, graph)
      ensures old(selected).Selected? ==>
        && undoStack == old(undoStack) + [old(graph.ToDict())] && redoStack == []
        && graph.nodes == RemovePlaced(old(graph.nodes), old(selected).id)
        && graph.connections == Detach(old(graph.connections), old(selected).id)
        && selected == Unselected
    {
      match selected
      case Unselected =>
        return Ok(());
      case Stale =>
        Checkpoint();
        return Err(StaleSelection);
      case Selected(id) =>
        Checkpoint();
        var removed := graph.RemoveNode(id);
        selected := Unselected;
        return Ok(());
    }

    /** perform_undo: with a snapshot to go back to, the current one moves
        onto the redo stack and the popped one is loaded */
    method Undo() returns (done: bool)
      requires Valid()
      modifies this, graph
      ensures Valid()
      ensures done <==> |old(undoStack)| > 0
      ensures !done ==> unchanged(this, graph)
      ensures done ==>
        var top := old(undoStack)[|old(undoStack)| - 1];
        && undoStack == old(undoStack)[..|old(undoStack)| - 1]
        && redoStack == old(redoStack) + [old(graph.ToDict())]
        && graph.nodes == Restore(top.nodes)
        && graph.connections == LoadConnectionsOf(top.connections)
        && graph.nextNodeId == NextIdAfter(old(graph.nextNodeId), Entries(top.nodes))
        && inputExists == HasInput(Cores(graph.nodes))
        && selected == (if old(selected) == Unselected then Unselected else Stale)
      ensures old(OneInput()) ==> OneInput()
    {
      if |undoStack| == 0 {
        return false;
      }
      var current := graph.ToDict();
      SavedToDict(graph.nodes, graph.connections, graph.nextNodeId);
      SaveRestore(graph.nodes);
      var prev := undoStack[|undoStack| - 1];
      assert prev in undoStack;
      SavedLoads(prev);
      redoStack := redoStack + [current];
      undoStack := undoStack[..|undoStack| - 1];
      var loaded := graph.FromDict(prev);
      inputExists := HasInput(Cores(graph.nodes));
      if selected != Unselected {
        selected := Stale;
      }
      return true;
    }

    /** perform_redo: the mirror image of perform_undo */
    method Redo() returns (done: bool)
      requires Valid()
      modifies this, graph
      ensures Valid()
      ensures done <==> |old(redoStack)| > 0
      ensures !done ==> unchanged(this, graph)
      ensures done ==>
        var top := old(redoStack)[|old(redoStack)| - 1];
        && redoStack == old(redoStack)[..|old(redoStack)| - 1]
        && undoStack == old(undoStack) + [old(graph.ToDict())]
        && graph.nodes == Restore(top.nodes)
        && graph.connections == LoadConnectionsOf(top.connections)
        && graph.nextNodeId == NextIdAfter(old(graph.nextNodeId), Entries(top.nodes))
        && inputExists == HasInput(Cores(graph.nodes))
        && selected == (if old(selected) == Unselected then Unselected else Stale)
      ensures old(OneInput()) ==> OneInput()
    {
      if |redoStack| == 0 {
        return false;
      }
      var current := graph.ToDict();
      SavedToDict(graph.nodes, graph.connections, graph.nextNodeId);
      SaveRestore(graph.nodes);
      var next := redoStack[|redoStack| - 1];
      assert next in redoStack;
      SavedLoads(next);
      undoStack := undoStack + [current];
      redoStack := redoStack[..|redoStack| - 1];
      var loaded := graph.FromDict(next);
      inputExists := HasInput(Cores(graph.nodes));
      if selected != Unselected {
        selected := Stale;
      }
      return true;
    }

    /** The Load Graph button: the snapshot is pushed before graph.json is
        read; a file that cannot be read (None) or a connection that names a
        missing id ends the load with input_exists as it was */
    method LoadGraph(file: Option<Sketch>) returns (r: Result<(), LoadError>)
      requires Valid()
      requires file.Some? ==> Distinct(EntryIds(Entries(file.value.nodes)))
      modifies this, graph
      ensures Valid()
      ensures undoStack == old(undoStack) + [old(graph.ToDict())] && redoStack == []
      ensures file.None? ==> r == Err(Unreadable) && unchanged(graph) && inputExists == old(inputExists) && selected == old(selected)
      ensures file.Some? && r.Err? ==>
        && LoadFrom([], Ids(Cores(graph.nodes)), file.value.connections).missing.Some?
        && r.error == Broken(UnknownNode(LoadFrom([], Ids(Cores(graph.nodes)), file.value.connections).missing.value))
      ensures file.Some? ==>
        && graph.nodes == Restore(file.value.nodes)
        && graph.connections == LoadFrom([], Ids(Cores(graph.nodes)), file.value.connections).conns
        && (r.Ok? <==> LoadFrom([], Ids(Cores(graph.nodes)), file.value.connections).missing.None?)
        && (r.Ok? ==> inputExists == HasInput(Cores(graph.nodes)))
        && (r.Err? ==> inputExists == old(inputExists))
        && selected == (if old(selected) == Unselected then Unselected else Stale)
      ensures old(OneInput()) && r.Ok? && file.Some? && AtMostOneInput(Cores(Restore(file.value.nodes))) ==> OneInput()
    {
      Checkpoint();
      if file.None? {
        return Err(Unreadable);
      }
      var loaded := graph.FromDict(file.value);
      if selected != Unselected {
        selected := Stale;
      }
      if loaded.Err? {
        return Err(Broken(loaded.error));
      }
      inputExists := HasInput(Cores(graph.nodes));
      return Ok(());
    }
  }

  // ---------------------------------------------------------------------------
  // Properties over several events

  /** Undo followed by redo gives back the graph, the stacks and the input
      flag; only the id counter may have risen and the selection gone stale */
  method UndoThenRedo(e: Editor)
    requires e.Valid() && |e.undoStack| > 0
    modifies e, e.graph
    ensures e.Valid()
    ensures e.graph.nodes == old(e.graph.nodes) && e.graph.connections == old(e.graph.connections)
    ensures e.graph.nextNodeId >= old(e.graph.nextNodeId)
    ensures e.undoStack == old(e.undoStack) && e.redoStack == old(e.redoStack)
    ensures old(e.OneInput()) ==> e.OneInput() && e.inputExists == old(e.inputExists)
  {
    ghost var top := e.undoStack[|e.undoStack| - 1];
    ghost var ns, cs, us := e.graph.nodes, e.graph.connections, e.undoStack;
    assert top in e.undoStack;
    assert us[..|us| - 1] + [top] == us;
    var undone := e.Undo();
    SavedResaved(top);
    var redone := e.Redo();
    SaveRestore(ns);
    ConnectionEntriesLoad(cs);
  }

  /** Adding a node and undoing it gives back the graph and the stacks as
      they were before the button, except a cleared redo stack */
  method AddNodeThenUndo(e: Editor, kind: string, x: int, y: int)
    requires e.Valid() && kind != "input"
    modifies e, e.graph
    ensures e.Valid()
    ensures e.graph.nodes == old(e.graph.nodes) && e.graph.connections == old(e.graph.connections)
    ensures e.undoStack == old(e.undoStack) && |e.redoStack| == 1
    ensures old(e.OneInput()) ==> e.OneInput() && e.inputExists == old(e.inputExists)
  {
    ghost var ns, cs, n := e.graph.nodes, e.graph.connections, e.graph.nextNodeId;
    var created := e.AddNodeButton(kind, x, y);
    var undone := e.Undo();
    SnapshotRoundTrip(ns, cs, n);
    ConnectionEntriesLoad(cs);
  }

  /** As written, deleting the selected input node with the Delete key
      leaves input_exists set: the graph has no input node and the Input
      button no longer adds one */
  method DeleteInputAsWritten() returns (e: Editor, retry: Option<Placed>)
    ensures e.inputExists && !HasInput(Cores(e.graph.nodes))
    ensures retry.None?
  {
    e := new Editor();
    var first := e.AddNodeButton("input", 100, 100);
    var deleted := e.DeleteKeyAsWritten();
    assert first.value.node.id == 1 && Cores(e.graph.nodes) == [];
    retry := e.AddNodeButton("input", 100, 100);
  }

  /** With the flag cleared on delete, the Input button adds an input node
      again after the input node was deleted with the Delete key */
  method DeleteInputCorrected() returns (e: Editor, retry: Option<Placed>)
    ensures !e.inputExists || HasInput(Cores(e.graph.nodes))
    ensures retry.Some? && retry.value.node.kind == "input"
    ensures HasInput(Cores(e.graph.nodes)) && AtMostOneInput(Cores(e.graph.nodes))
  {
    e := new Editor();
    var first := e.AddNodeButton("input", 100, 100);
    var deleted := e.DeleteKey();
    assert first.value.node.id == 1 && Cores(e.graph.nodes) == [];
    retry := e.AddNodeButton("input", 100, 100);
  }
}
