/** The node handlers that LLMWorkflow.build (LLMGraphConfigurator/llmgraphbuilder.py)
    creates, and the run of ask_question that calls them in execution order.
    Each handler reads and extends the shared run state: `data` holds what a
    node produced, `activation` whether it ran. The language model, the
    similarity index and the memory directory are passed in. */
module Engine {
  import opened Wrappers
  import opened Strings
  import opened Connections
  import opened WorkflowGraph
  import opened MemoryLog
  import IndexName

  /** What a node stores in `data`: a text, or the branch list of a condition
      node (the ids, as strings, of the nodes its taken branch leads to) */
  datatype Value = Text(text: string) | Tokens(tokens: seq<string>)

  /** Python's repr of a string of digits and '-' */
  function Quote(t: string): string
  {
    "'" + t + "'"
  }

  function QuoteAll(ts: seq<string>): (r: seq<string>)
    ensures |r| == |ts| && forall i :: 0 <= i < |ts| ==> r[i] == Quote(ts[i])
  {
    seq(|ts|, i requires 0 <= i < |ts| => Quote(ts[i]))
  }

  /** str() of a stored value; a branch list prints as Python prints a list
      of such strings */
  function Str(v: Value): string
  {
    match v
    case Text(s) => s
    case Tokens(ts) => "[" + JoinWith(", ", QuoteAll(ts)) + "]"
  }

  function Strs(vs: seq<Value>): (r: seq<string>)
    ensures |r| == |vs| && forall i :: 0 <= i < |vs| ==> r[i] == Str(vs[i])
  {
    seq(|vs|, i requires 0 <= i < |vs| => Str(vs[i]))
  }

  /** `tok in v`: membership for a branch list, the substring test for a text */
  predicate Lists(v: Value, tok: string)
  {
    match v
    case Tokens(ts) => tok in ts
    case Text(s) => Contains(s, tok)
  }

  /** [str(i) for i in ids] */
  function IdStrings(ids: seq<int>): (r: seq<string>)
    ensures |r| == |ids| && forall i :: 0 <= i < |ids| ==> r[i] == IntToString(ids[i])
  {
    seq(|ids|, i requires 0 <= i < |ids| => IntToString(ids[i]))
  }

  /** The run state of ask_question; node ids key the maps, as str(id) does
      in the source (str is injective on integers) */
  datatype RunState = RunState(question: string, data: map<int, Value>, activation: map<int, bool>, answer: string)

  /** The state ask_question starts every question from */
  function Fresh(question: string): (st: RunState)
    ensures st.data == map[] && st.activation == map[] && st.answer == ""
  {
    RunState(question, map[], map[], "")
  }

  /** The exceptions that end a run */
  datatype RunError =
    | NoMemoryName(id: int)    // IndexError: content[0] of a memory node with no content
    | EmptyCondition(id: int)  // ValueError "Condition node empty"
    | NotText(id: int)         // TypeError: "".join in node id met a branch list
    | MissingData(id: int)     // KeyError: no data entry for predecessor id
    | NoHandler(id: int)       // the execution order names an id with no node or handler
    | ModelFailed(id: int)     // the language model call of query node id raised
    | SearchFailed(id: int)    // the similarity search of retrieval node id raised

  /** A run that raised: the error, and the memory files as the exception left them */
  datatype Halt = Halt(error: RunError, files: map<string, string>)

  /** A handler that returned: the new state and the memory files */
  datatype Outcome = Outcome(state: RunState, files: map<string, string>)

  /** The graph the handlers read */
  datatype Wiring = Wiring(nodes: seq<Node>, conns: seq<Connection>)

  /** What the handlers call and cannot see: the script's directory, the
      language model, whether the similarity index of a retrieval node (its
      index path and document) loads or builds, and its similarity search.
      The model and the search answer None where their call raises */
  datatype Services = Services(
    scriptDir: string,
    invoke: string -> Option<string>,
    storeOk: (string, string) -> bool,
    search: (string, string, nat) -> Option<seq<string>>)

  // ---------------------------------------------------------------------------
  // The gate

  /** What predecessor p demands before node id may run: an ordinary
      predecessor must have run, a condition node must list id */
  predicate Admits(w: Wiring, st: RunState, id: int, p: int)
  {
    if KindOf(w.nodes, p) != "condition" then p in st.activation && st.activation[p]
    else p in st.data && Lists(st.data[p], IntToString(id))
  }

  /** The flag of the retrieval, condition and query handlers: every incoming
      connection's source admits the node */
  predicate Gate(w: Wiring, st: RunState, id: int)
  {
    forall p :: p in Sources(w.conns, id) ==> Admits(w, st, id, p)
  }

  /** The handler's loop over the incoming nodes, clearing the flag at the
      first predecessor that blocks and keeping it cleared */
  method CheckGate(w: Wiring, st: RunState, id: int) returns (flag: bool)
    ensures flag == Gate(w, st, id)
  {
    var incoming := Sources(w.conns, id);
    flag := true;
    var k := 0;
    while k < |incoming|
      invariant 0 <= k <= |incoming|
      invariant flag <==> forall j :: 0 <= j < k ==> Admits(w, st, id, incoming[j])
    {
      var i := incoming[k];
      if KindOf(w.nodes, i) != "condition" {
        if i in st.activation && !st.activation[i] {
          flag := false;
        } else if i !in st.activation {
          flag := false;
        }
      } else {
        if i in st.data && !Lists(st.data[i], IntToString(id)) {
          flag := false;
        } else if i !in st.data {
          flag := false;
        }
      }
      k := k + 1;
    }
    assert flag <==> forall p :: p in incoming ==> Admits(w, st, id, p) by {
      if !flag {
        var j :| 0 <= j < k && !Admits(w, st, id, incoming[j]);
        assert incoming[j] in incoming;
      }
    }
  }

  // ---------------------------------------------------------------------------
  // Inputs of a node

  /** The predecessors in ps that are not condition nodes, in order */
  function NonConditions(w: Wiring, ps: seq<int>): (r: seq<int>)
    ensures forall p :: p in r <==> p in ps && KindOf(w.nodes, p) != "condition"
  {
    if |ps| == 0 then []
    else (if KindOf(w.nodes, ps[0]) != "condition" then [ps[0]] else []) + NonConditions(w, ps[1..])
  }

  /** The first of ids with no data entry */
  function FirstMissing(st: RunState, ids: seq<int>): (m: int)
    requires exists i :: 0 <= i < |ids| && ids[i] !in st.data
    ensures m in ids && m !in st.data
  {
    if ids[0] !in st.data then ids[0] else FirstMissing(st, ids[1..])
  }

  /** [data[str(p)] for p in ids]: the first missing entry raises KeyError */
  function Gather(st: RunState, ids: seq<int>): (r: Result<seq<Value>, RunError>)
    ensures r.Ok? <==> forall i :: 0 <= i < |ids| ==> ids[i] in st.data
    ensures r.Ok? ==> |r.value| == |ids| && forall i :: 0 <= i < |ids| ==> r.value[i] == st.data[ids[i]]
    ensures r.Err? ==> r.error.MissingData? && r.error.id in ids && r.error.id !in st.data
  {
    if forall i :: 0 <= i < |ids| ==> ids[i] in st.data then Ok(seq(|ids|, i requires 0 <= i < |ids| => st.data[ids[i]]))
    else Err(MissingData(FirstMissing(st, ids)))
  }

  /** [data[str(p)] for p in ps if p is not a condition node] */
  function Inputs(w: Wiring, st: RunState, ps: seq<int>): Result<seq<Value>, RunError>
  {
    Gather(st, NonConditions(w, ps))
  }

  /** The predecessors in ps that have a data entry, in order */
  function PresentIds(st: RunState, ps: seq<int>): (r: seq<int>)
    ensures forall p :: p in r <==> p in ps && p in st.data
  {
    if |ps| == 0 then []
    else (if ps[0] in st.data then [ps[0]] else []) + PresentIds(st, ps[1..])
  }

  /** [data[str(p)] for p in ps if str(p) in data] */
  function Present(st: RunState, ps: seq<int>): (r: seq<Value>)
    ensures |r| == |PresentIds(st, ps)|
    ensures forall i :: 0 <= i < |r| ==> PresentIds(st, ps)[i] in st.data && r[i] == st.data[PresentIds(st, ps)[i]]
  {
    var ids := PresentIds(st, ps);
    seq(|ids|, i requires 0 <= i < |ids| => if ids[i] in st.data then st.data[ids[i]] else Text(""))
  }

  /** "".join(vs) for node id: a TypeError once a branch list is among them */
  function JoinTexts(id: int, vs: seq<Value>): (r: Result<string, RunError>)
    ensures r.Ok? <==> forall i :: 0 <= i < |vs| ==> vs[i].Text?
    ensures r.Ok? ==> r.value == Concat(Strs(vs))
    ensures r.Err? ==> r.error == NotText(id)
  {
    if forall i :: 0 <= i < |vs| ==> vs[i].Text? then Ok(Concat(Strs(vs))) else Err(NotText(id))
  }

  // ---------------------------------------------------------------------------
  // Memory files

  /** os.path.join(script_dir, f"memory_{name}.txt") */
  function MemoryPath(dir: string, name: string): string
  {
    IndexName.JoinPath(dir, "memory_" + name + ".txt")
  }

  /** What _write_to_memory reads: the file, or "" when it does not exist */
  function Existing(files: map<string, string>, f: string): string
  {
    if f in files then files[f] else ""
  }

  /** The memory nodes that node id's connections lead to, once per connection */
  function MemoryTargets(w: Wiring, id: int): (r: seq<Node>)
    ensures forall n :: n in r ==> n in w.nodes && n.kind == "memory"
  {
    Targeted(w.nodes, w.conns, id)
  }

  function Targeted(nodes: seq<Node>, conns: seq<Connection>, id: int): (r: seq<Node>)
    ensures forall n :: n in r ==> n in nodes && n.kind == "memory"
  {
    if |conns| == 0 then []
    else
      var c := conns[0];
      (if c.src == id && FindNode(nodes, c.dst).Some? && FindNode(nodes, c.dst).value.kind == "memory"
       then [FindNode(nodes, c.dst).value] else [])
      + Targeted(nodes, conns[1..], id)
  }

  /** The handler's closing loop: _write_to_memory of text into the file of
      each target in turn; a target with no content raises IndexError, and
      the files written before it stay written */
  function WriteAll(dir: string, files: map<string, string>, targets: seq<Node>, text: string): (r: Result<map<string, string>, Halt>)
    decreases |targets|
  {
    if |targets| == 0 then Ok(files)
    else if |targets[0].content| == 0 then Err(Halt(NoMemoryName(targets[0].id), files))
    else
      var f := MemoryPath(dir, targets[0].content[0]);
      WriteAll(dir, files[f := Append(Existing(files, f), text)], targets[1..], text)
  }

  /** The files the targets name */
  function TargetPaths(dir: string, targets: seq<Node>): set<string>
  {
    set i | 0 <= i < |targets| && |targets[i].content| > 0 :: MemoryPath(dir, targets[i].content[0])
  }

  // ---------------------------------------------------------------------------
  // The handlers

  /** activation[id] = False */
  function Closed(st: RunState, id: int): RunState
  {
    st.(activation := st.activation[id := false])
  }

  /** data[id] = v and activation[id] = True */
  function Opened(st: RunState, id: int, v: Value): RunState
  {
    st.(data := st.data[id := v], activation := st.activation[id := true])
  }

  /** The state st after the memory writes of node id with text */
  function Finish(w: Wiring, sv: Services, files: map<string, string>, st: RunState, id: int, text: string): (r: Result<Outcome, Halt>)
    ensures r.Ok? ==> r.value.state == st
  {
    match WriteAll(sv.scriptDir, files, MemoryTargets(w, id), text)
    case Ok(f) => Ok(Outcome(st, f))
    case Err(h) => Err(h)
  }

  /** input: records the question and marks the node active */
  function StepInput(w: Wiring, sv: Services, files: map<string, string>, st: RunState, node: Node): Result<Outcome, Halt>
  {
    Finish(w, sv, files, Opened(st, node.id, Text(st.question)), node.id, st.question)
  }

  /** retrieval: behind the gate, the similarity search of the node's index
      for the joined inputs, k = 4, its documents joined by blank lines; a
      node whose index path or index fails stays inactive; a failing search
      is outside the handler's try and ends the run */
  function StepRetrieval(w: Wiring, sv: Services, files: map<string, string>, st: RunState, node: Node): Result<Outcome, Halt>
  {
    var id := node.id;
    if !Gate(w, st, id) then Ok(Outcome(Closed(st, id), files))
    else
      match IndexName.IndexPath(sv.scriptDir, id, node.content)
      case Err(_) => Ok(Outcome(Closed(st, id), files))
      case Ok(path) =>
        if !sv.storeOk(path, node.content[0]) then Ok(Outcome(Closed(st, id), files))
        else
          match Inputs(w, st, Sources(w.conns, id))
          case Err(e) => Err(Halt(e, files))
          case Ok(vs) =>
            match JoinTexts(id, vs)
            case Err(e) => Err(Halt(e, files))
            case Ok(query) =>
              match sv.search(path, query, 4)
              case None => Err(Halt(SearchFailed(id), files))
              case Some(docs) =>
                var retrieved := JoinWith("\n\n", docs);
                Finish(w, sv, files, Opened(st, id, Text(retrieved)), id, retrieved)
  }

  /** The branch a condition node takes on its inputs' texts */
  function Branch(content0: string, texts: seq<string>): string
  {
    if Contains(Concat(texts), content0) then "true" else "false"
  }

  /** condition: behind the gate, the ids wired to the "true" output when
      content[0] occurs in the joined inputs, else those wired to "false" */
  function StepCondition(w: Wiring, sv: Services, files: map<string, string>, st: RunState, node: Node): Result<Outcome, Halt>
  {
    var id := node.id;
    if !Gate(w, st, id) then Ok(Outcome(Closed(st, id), files))
    else
      match Inputs(w, st, Sources(w.conns, id))
      case Err(e) => Err(Halt(e, files))
      case Ok(vs) =>
        if |node.content| == 0 then Err(Halt(EmptyCondition(id), files))
        else
          var branch := Tokens(IdStrings(TargetsVia(w.conns, id, Branch(node.content[0], Strs(vs)))));
          Finish(w, sv, files, Opened(st, id, branch), id, Str(branch))
  }

  /** The prompt of a query node: its content, then its inputs' texts */
  function Prompt(content: seq<string>, inputs: seq<Value>): string
  {
    Concat(content) + Concat(Strs(inputs))
  }

  /** query: behind the gate, the model's answer to the prompt; a failing
      model call is caught nowhere and ends the run */
  function StepQuery(w: Wiring, sv: Services, files: map<string, string>, st: RunState, node: Node): Result<Outcome, Halt>
  {
    var id := node.id;
    if !Gate(w, st, id) then Ok(Outcome(Closed(st, id), files))
    else
      match Inputs(w, st, Sources(w.conns, id))
      case Err(e) => Err(Halt(e, files))
      case Ok(vs) =>
        match sv.invoke(Prompt(node.content, vs))
        case None => Err(Halt(ModelFailed(id), files))
        case Some(out) => Finish(w, sv, files, Opened(st, id, Text(out)), id, out)
  }

  /** What a memory node reads from a file: its history, or "" when missing */
  function Recall(files: map<string, string>, f: string): string
  {
    if f in files then History(files[f]) else ""
  }

  /** memory: no gate; the history of its file */
  function StepMemory(w: Wiring, sv: Services, files: map<string, string>, st: RunState, node: Node): Result<Outcome, Halt>
  {
    if |node.content| == 0 then Err(Halt(NoMemoryName(node.id), files))
    else
      var h := Recall(files, MemoryPath(sv.scriptDir, node.content[0]));
      Finish(w, sv, files, Opened(st, node.id, Text(h)), node.id, h)
  }

  /** output: no gate; the answer is the join of the data of every incoming
      node that has an entry, active or not */
  function StepOutput(w: Wiring, sv: Services, files: map<string, string>, st: RunState, node: Node): Result<Outcome, Halt>
  {
    match JoinTexts(node.id, Present(st, Sources(w.conns, node.id)))
    case Err(e) => Err(Halt(e, files))
    case Ok(a) => Finish(w, sv, files, Opened(st.(answer := a), node.id, Text(a)), node.id, a)
  }

  /** The six node types build has a handler for */
  predicate Supported(kind: string)
  {
    kind in {"input", "retrieval", "query", "condition", "memory", "output"}
  }

  /** The handler of node, called on (files, st) */
  function Step(w: Wiring, sv: Services, files: map<string, string>, st: RunState, node: Node): (r: Result<Outcome, Halt>)
    ensures !Supported(node.kind) ==> r == Err(Halt(NoHandler(node.id), files))
  {
    if node.kind == "input" then StepInput(w, sv, files, st, node)
    else if node.kind == "retrieval" then StepRetrieval(w, sv, files, st, node)
    else if node.kind == "query" then StepQuery(w, sv, files, st, node)
    else if node.kind == "condition" then StepCondition(w, sv, files, st, node)
    else if node.kind == "memory" then StepMemory(w, sv, files, st, node)
    else if node.kind == "output" then StepOutput(w, sv, files, st, node)
    else Err(Halt(NoHandler(node.id), files))
  }

  /** The loop of ask_question from state st over the ids of order */
  function RunFrom(w: Wiring, sv: Services, files: map<string, string>, st: RunState, order: seq<int>): Result<Outcome, Halt>
    decreases |order|
  {
    if |order| == 0 then Ok(Outcome(st, files))
    else
      match FindNode(w.nodes, order[0])
      case None => Err(Halt(NoHandler(order[0]), files))
      case Some(n) =>
        match Step(w, sv, files, st, n)
        case Err(h) => Err(h)
        case Ok(o) => RunFrom(w, sv, o.files, o.state, order[1..])
  }

  /** ask_question: a run from fresh maps */
  function Ask(w: Wiring, sv: Services, files: map<string, string>, question: string, order: seq<int>): Result<Outcome, Halt>
  {
    RunFrom(w, sv, files, Fresh(question), order)
  }

  /** clear_memory: the file of every memory node, in node order, becomes
      empty; a memory node with no content raises IndexError */
  function ClearAll(dir: string, files: map<string, string>, nodes: seq<Node>): (r: Result<map<string, string>, Halt>)
    decreases |nodes|
  {
    if |nodes| == 0 then Ok(files)
    else if nodes[0].kind != "memory" then ClearAll(dir, files, nodes[1..])
    else if |nodes[0].content| == 0 then Err(Halt(NoMemoryName(nodes[0].id), files))
    else ClearAll(dir, files[MemoryPath(dir, nodes[0].content[0]) := ""], nodes[1..])
  }
}
