/** What the handlers of LLMGraphConfigurator/llmgraphbuilder.py promise:
    a node only marks itself, activation and data stay in step, a blocked
    gate leaves the node inactive, a condition routes exactly along the
    connections of its branch, the output joins what its predecessors
    produced, and memory writes read back as history. */
module EngineFacts {
  import opened Wrappers
  import opened Strings
  import opened Connections
  import opened WorkflowGraph
  import opened MemoryLog
  import IndexName
  import opened Engine

  /** A node is active exactly when it has a data entry */
  predicate Consistent(st: RunState)
  {
    && (forall k :: k in st.data ==> k in st.activation && st.activation[k])
    && (forall k :: k in st.activation && st.activation[k] ==> k in st.data)
  }

  /** Node id has not run yet */
  predicate Unseen(st: RunState, id: int)
  {
    id !in st.data && id !in st.activation
  }

  /** st2 is st with node id marked inactive, or marked active with a data
      entry (and, for an output node, a new answer); nothing else differs */
  predicate Marks(st: RunState, st2: RunState, id: int)
  {
    st2 == Closed(st, id) || (id in st2.data && st2 == Opened(st.(answer := st2.answer), id, st2.data[id]))
  }

  // ---------------------------------------------------------------------------
  // A handler marks only its own node

  lemma InputMarks(w: Wiring, sv: Services, files: map<string, string>, st: RunState, node: Node)
    requires StepInput(w, sv, files, st, node).Ok?
    ensures Marks(st, StepInput(w, sv, files, st, node).value.state, node.id)
    ensures StepInput(w, sv, files, st, node).value.state.answer == st.answer
  {
  }

  lemma RetrievalMarks(w: Wiring, sv: Services, files: map<string, string>, st: RunState, node: Node)
    requires StepRetrieval(w, sv, files, st, node).Ok?
    ensures Marks(st, StepRetrieval(w, sv, files, st, node).value.state, node.id)
    ensures StepRetrieval(w, sv, files, st, node).value.state.answer == st.answer
  {
  }

  lemma QueryMarks(w: Wiring, sv: Services, files: map<string, string>, st: RunState, node: Node)
    requires StepQuery(w, sv, files, st, node).Ok?
    ensures Marks(st, StepQuery(w, sv, files, st, node).value.state, node.id)
    ensures StepQuery(w, sv, files, st, node).value.state.answer == st.answer
  {
  }

  lemma ConditionMarks(w: Wiring, sv: Services, files: map<string, string>, st: RunState, node: Node)
    requires StepCondition(w, sv, files, st, node).Ok?
    ensures Marks(st, StepCondition(w, sv, files, st, node).value.state, node.id)
    ensures StepCondition(w, sv, files, st, node).value.state.answer == st.answer
  {
  }

  lemma MemoryMarks(w: Wiring, sv: Services, files: map<string, string>, st: RunState, node: Node)
    requires StepMemory(w, sv, files, st, node).Ok?
    ensures Marks(st, StepMemory(w, sv, files, st, node).value.state, node.id)
    ensures StepMemory(w, sv, files, st, node).value.state.answer == st.answer
  {
  }

  lemma OutputMarks(w: Wiring, sv: Services, files: map<string, string>, st: RunState, node: Node)
    requires StepOutput(w, sv, files, st, node).Ok?
    ensures Marks(st, StepOutput(w, sv, files, st, node).value.state, node.id)
  {
  }

  /** Every handler that returns marks its own node and nothing else, and
      only an output node changes the answer */
  lemma StepMarks(w: Wiring, sv: Services, files: map<string, string>, st: RunState, node: Node)
    requires Step(w, sv, files, st, node).Ok?
    ensures Marks(st, Step(w, sv, files, st, node).value.state, node.id)
    ensures node.kind != "output" ==> Step(w, sv, files, st, node).value.state.answer == st.answer
  {
    var k := node.kind;
    if k == "input" {
      InputMarks(w, sv, files, st, node);
    } else if k == "retrieval" {
      RetrievalMarks(w, sv, files, st, node);
    } else if k == "query" {
      QueryMarks(w, sv, files, st, node);
    } else if k == "condition" {
      ConditionMarks(w, sv, files, st, node);
    } else if k == "memory" {
      MemoryMarks(w, sv, files, st, node);
    } else {
      OutputMarks(w, sv, files, st, node);
    }
  }

  /** Marking a node that has not run keeps activation and data in step */
  lemma MarksConsistent(st: RunState, st2: RunState, id: int)
    requires Consistent(st) && Unseen(st, id) && Marks(st, st2, id)
    ensures Consistent(st2)
    ensures id in st2.activation
    ensures forall k :: k != id ==> (k in st2.activation <==> k in st.activation) && (k in st2.data <==> k in st.data)
  {
  }

  // ---------------------------------------------------------------------------
  // The gate

  /** When the gate is open in a consistent state, every ordinary
      predecessor has a data entry, so collecting the inputs never raises
      KeyError */
  lemma GateOpenHasInputs(w: Wiring, st: RunState, id: int)
    requires Consistent(st) && Gate(w, st, id)
    ensures Inputs(w, st, Sources(w.conns, id)).Ok?
  {
    var ids := NonConditions(w, Sources(w.conns, id));
    forall i | 0 <= i < |ids| ensures ids[i] in st.data {
      assert ids[i] in ids;
      assert Admits(w, st, id, ids[i]);
    }
  }

  /** A gated node whose gate is closed becomes inactive, writes no data and
      no memory file */
  lemma GateClosed(w: Wiring, sv: Services, files: map<string, string>, st: RunState, node: Node)
    requires node.kind in {"retrieval", "condition", "query"}
    requires !Gate(w, st, node.id)
    ensures Step(w, sv, files, st, node) == Ok(Outcome(Closed(st, node.id), files))
  {
  }

  /** A retrieval node with no document, or whose index neither loads nor
      builds, becomes inactive with no data even when its gate is open */
  lemma RetrievalFailure(w: Wiring, sv: Services, files: map<string, string>, st: RunState, node: Node)
    requires node.kind == "retrieval" && Gate(w, st, node.id)
    requires |node.content| == 0
             || !sv.storeOk(IndexName.IndexPath(sv.scriptDir, node.id, node.content).value, node.content[0])
    ensures Step(w, sv, files, st, node) == Ok(Outcome(Closed(st, node.id), files))
  {
  }

  /** Past the gate, an index that loads and inputs that join, a retrieval
      node raises SearchFailed exactly when its similarity search fails; the
      files are then as they were */
  lemma RetrievalSearchFails(w: Wiring, sv: Services, files: map<string, string>, st: RunState, node: Node,
                             path: string, query: string)
    requires node.kind == "retrieval" && Gate(w, st, node.id)
    requires IndexName.IndexPath(sv.scriptDir, node.id, node.content) == Ok(path)
    requires sv.storeOk(path, node.content[0])
    requires Inputs(w, st, Sources(w.conns, node.id)).Ok?
    requires JoinTexts(node.id, Inputs(w, st, Sources(w.conns, node.id)).value) == Ok(query)
    ensures sv.search(path, query, 4).None? <==> Step(w, sv, files, st, node) == Err(Halt(SearchFailed(node.id), files))
  {
    var docs := sv.search(path, query, 4);
    if docs.Some? {
      var retrieved := JoinWith("\n\n", docs.value);
      FinishErrors(w, sv, files, st, node.id);
      assert Step(w, sv, files, st, node)
             == Finish(w, sv, files, Opened(st, node.id, Text(retrieved)), node.id, retrieved);
    }
  }

  /** A node blocked by a predecessor that did not run */
  lemma InactivePredecessorBlocks(w: Wiring, st: RunState, id: int, p: int)
    requires p in Sources(w.conns, id) && KindOf(w.nodes, p) != "condition"
    requires p !in st.activation || !st.activation[p]
    ensures !Gate(w, st, id)
  {
  }

  // ---------------------------------------------------------------------------
  // Conditions

  /** str(x) in [str(y) for y in ys] exactly when x is in ys */
  lemma {:induction false} IdStringsMember(ys: seq<int>, x: int)
    ensures IntToString(x) in IdStrings(ys) <==> x in ys
  {
    if IntToString(x) in IdStrings(ys) {
      var i :| 0 <= i < |ys| && IdStrings(ys)[i] == IntToString(x);
      IntToStringInjective(ys[i], x);
    }
    if x in ys {
      var i :| 0 <= i < |ys| && ys[i] == x;
      assert IdStrings(ys)[i] == IntToString(x);
    }
  }

  /** A condition node that ran with content[0] occurring, or not, in its
      joined inputs stores the ids wired to its "true", or "false", output */
  lemma ConditionStores(w: Wiring, sv: Services, files: map<string, string>, st: RunState, node: Node)
    requires node.kind == "condition" && Consistent(st) && Gate(w, st, node.id)
    requires Step(w, sv, files, st, node).Ok?
    ensures |node.content| > 0
    ensures var vs := Inputs(w, st, Sources(w.conns, node.id)).value;
      var b := if Contains(Concat(Strs(vs)), node.content[0]) then "true" else "false";
      Step(w, sv, files, st, node).value.state
        == Opened(st, node.id, Tokens(IdStrings(TargetsVia(w.conns, node.id, b))))
  {
    GateOpenHasInputs(w, st, node.id);
  }

  /** Once a condition node c has stored the ids of branch b, it admits
      exactly the nodes that branch b of c is connected to */
  lemma BranchAdmits(w: Wiring, st: RunState, c: int, b: string, x: int)
    requires KindOf(w.nodes, c) == "condition"
    requires c in st.data && st.data[c] == Tokens(IdStrings(TargetsVia(w.conns, c, b)))
    ensures Admits(w, st, x, c) <==> Connection(c, x, b) in w.conns
  {
    IdStringsMember(TargetsVia(w.conns, c, b), x);
  }

  /** A condition node with an empty content list raises ValueError once its
      gate is open */
  lemma EmptyConditionRaises(w: Wiring, sv: Services, files: map<string, string>, st: RunState, node: Node)
    requires node.kind == "condition" && Consistent(st) && Gate(w, st, node.id)
    requires |node.content| == 0
    ensures Step(w, sv, files, st, node) == Err(Halt(EmptyCondition(node.id), files))
  {
    GateOpenHasInputs(w, st, node.id);
  }

  // ---------------------------------------------------------------------------
  // Queries and the output

  /** A query node that ran stores the model's answer to its content followed
      by the texts of its ordinary predecessors */
  lemma QueryStores(w: Wiring, sv: Services, files: map<string, string>, st: RunState, node: Node)
    requires node.kind == "query" && Consistent(st) && Gate(w, st, node.id)
    requires Step(w, sv, files, st, node).Ok?
    ensures var ps := NonConditions(w, Sources(w.conns, node.id));
      && (forall p :: p in ps ==> p in st.data)
      && var prompt := Concat(node.content)
                       + Concat(Strs(seq(|ps|, i requires 0 <= i < |ps| && ps[i] in st.data => st.data[ps[i]])));
         && sv.invoke(prompt).Some?
         && Step(w, sv, files, st, node).value.state == Opened(st, node.id, Text(sv.invoke(prompt).value))
  {
    GateOpenHasInputs(w, st, node.id);
    var ps := NonConditions(w, Sources(w.conns, node.id));
    var vs := Inputs(w, st, Sources(w.conns, node.id)).value;
    assert vs == seq(|ps|, i requires 0 <= i < |ps| && ps[i] in st.data => st.data[ps[i]]);
  }

  /** Past the gate, a query node raises ModelFailed exactly when the model
      call on its prompt fails; the files are then as they were */
  lemma QueryModelFails(w: Wiring, sv: Services, files: map<string, string>, st: RunState, node: Node, vs: seq<Value>)
    requires node.kind == "query" && Gate(w, st, node.id)
    requires Inputs(w, st, Sources(w.conns, node.id)) == Ok(vs)
    ensures sv.invoke(Prompt(node.content, vs)).None? <==> Step(w, sv, files, st, node) == Err(Halt(ModelFailed(node.id), files))
  {
    var answer := sv.invoke(Prompt(node.content, vs));
    if answer.Some? {
      FinishErrors(w, sv, files, st, node.id);
      assert Step(w, sv, files, st, node)
             == Finish(w, sv, files, Opened(st, node.id, Text(answer.value)), node.id, answer.value);
    }
  }

  /** The output is the in-order join of the data of every predecessor that
      has an entry, whether or not it is active; it fails with TypeError
      exactly when one of them is a branch list */
  lemma OutputJoins(w: Wiring, sv: Services, files: map<string, string>, st: RunState, node: Node)
    requires node.kind == "output"
    ensures var vs := Present(st, Sources(w.conns, node.id));
      (exists i :: 0 <= i < |vs| && vs[i].Tokens?) ==> Step(w, sv, files, st, node) == Err(Halt(NotText(node.id), files))
    ensures Step(w, sv, files, st, node).Ok? ==>
      var a := Concat(Strs(Present(st, Sources(w.conns, node.id))));
      Step(w, sv, files, st, node).value.state == Opened(st.(answer := a), node.id, Text(a))
  {
    var vs := Present(st, Sources(w.conns, node.id));
    var j := JoinTexts(node.id, vs);
    assert Step(w, sv, files, st, node) == StepOutput(w, sv, files, st, node);
    if j.Ok? {
      assert StepOutput(w, sv, files, st, node)
             == Finish(w, sv, files, Opened(st.(answer := j.value), node.id, Text(j.value)), node.id, j.value);
    } else {
      assert StepOutput(w, sv, files, st, node) == Err(Halt(NotText(node.id), files));
    }
  }

  // ---------------------------------------------------------------------------
  // Runs

  /** A run over distinct, unseen ids keeps activation and data in step,
      marks every id it passes, and never raises KeyError */
  lemma {:induction false} RunConsistent(w: Wiring, sv: Services, files: map<string, string>, st: RunState, order: seq<int>)
    requires Consistent(st) && Distinct(order)
    requires forall i :: 0 <= i < |order| ==> Unseen(st, order[i])
    ensures RunFrom(w, sv, files, st, order).Ok? ==>
      && Consistent(RunFrom(w, sv, files, st, order).value.state)
      && forall i :: 0 <= i < |order| ==> order[i] in RunFrom(w, sv, files, st, order).value.state.activation
    ensures RunFrom(w, sv, files, st, order).Err? ==> !RunFrom(w, sv, files, st, order).error.error.MissingData?
    decreases |order|
  {
    if |order| > 0 {
      match FindNode(w.nodes, order[0])
      case None =>
      case Some(n) =>
        StepNoMissing(w, sv, files, st, n);
        if Step(w, sv, files, st, n).Ok? {
          var o := Step(w, sv, files, st, n).value;
          StepMarks(w, sv, files, st, n);
          MarksConsistent(st, o.state, n.id);
          var rest := order[1..];
          DistinctTail(order);
          UnseenTail(st, o.state, order);
          RunConsistent(w, sv, o.files, o.state, rest);
          assert RunFrom(w, sv, files, st, order) == RunFrom(w, sv, o.files, o.state, rest);
          if RunFrom(w, sv, files, st, order).Ok? {
            var fin := RunFrom(w, sv, o.files, o.state, rest).value.state;
            RunKeepsMarks(w, sv, o.files, o.state, rest, n.id);
            forall i | 0 <= i < |order| ensures order[i] in fin.activation {
              if i > 0 {
                assert order[i] == rest[i - 1];
              }
            }
          }
        }
    }
  }

  /** A run over pre + post is the run over pre, then the run over post from
      where pre left the state and the files */
  lemma {:induction false} RunAppend(w: Wiring, sv: Services, files: map<string, string>, st: RunState,
                                     pre: seq<int>, post: seq<int>)
    ensures RunFrom(w, sv, files, st, pre + post)
            == match RunFrom(w, sv, files, st, pre)
               case Err(h) => Err(h)
               case Ok(o) => RunFrom(w, sv, o.files, o.state, post)
    decreases |pre|
  {
    if |pre| == 0 {
      assert pre + post == post;
    } else {
      assert (pre + post)[0] == pre[0] && (pre + post)[1..] == pre[1..] + post;
      match FindNode(w.nodes, pre[0])
      case None =>
      case Some(n) =>
        match Step(w, sv, files, st, n)
        case Err(h) =>
        case Ok(o) =>
          RunAppend(w, sv, o.files, o.state, pre[1..], post);
    }
  }

  lemma SnocAssociates(pre: seq<int>, x: int, post: seq<int>)
    ensures pre + [x] + post == pre + ([x] + post)
  {
  }

  /** A run that starts at a query whose model call fails raises there */
  lemma ModelFailureStops(w: Wiring, sv: Services, files: map<string, string>, st: RunState,
                          node: Node, post: seq<int>, vs: seq<Value>)
    requires FindNode(w.nodes, node.id) == Some(node) && node.kind == "query"
    requires Gate(w, st, node.id) && Inputs(w, st, Sources(w.conns, node.id)) == Ok(vs)
    requires sv.invoke(Prompt(node.content, vs)) == None
    ensures RunFrom(w, sv, files, st, [node.id] + post) == Err(Halt(ModelFailed(node.id), files))
  {
    assert ([node.id] + post)[0] == node.id;
    QueryModelFails(w, sv, files, st, node, vs);
  }

  /** A query whose model call fails ends ask_question there: it raises
      ModelFailed, the nodes after it never run, and the memory files are
      those the nodes before it wrote */
  lemma ModelFailureHalts(w: Wiring, sv: Services, files: map<string, string>, question: string,
                          pre: seq<int>, node: Node, post: seq<int>, vs: seq<Value>)
    requires Ask(w, sv, files, question, pre).Ok?
    requires FindNode(w.nodes, node.id) == Some(node) && node.kind == "query"
    requires Gate(w, Ask(w, sv, files, question, pre).value.state, node.id)
    requires Inputs(w, Ask(w, sv, files, question, pre).value.state, Sources(w.conns, node.id)) == Ok(vs)
    requires sv.invoke(Prompt(node.content, vs)) == None
    ensures Ask(w, sv, files, question, pre + [node.id] + post)
            == Err(Halt(ModelFailed(node.id), Ask(w, sv, files, question, pre).value.files))
  {
    var o := Ask(w, sv, files, question, pre).value;
    SnocAssociates(pre, node.id, post);
    RunAppend(w, sv, files, Fresh(question), pre, [node.id] + post);
    ModelFailureStops(w, sv, o.files, o.state, node, post, vs);
  }

  lemma DistinctTail(order: seq<int>)
    requires |order| > 0 && Distinct(order)
    ensures Distinct(order[1..]) && order[0] !in order[1..]
  {
    var rest := order[1..];
    forall i, j | 0 <= i < j < |rest| ensures rest[i] != rest[j] {
      assert rest[i] == order[i + 1] && rest[j] == order[j + 1];
    }
    forall i | 0 <= i < |rest| ensures rest[i] != order[0] {
      assert rest[i] == order[i + 1];
    }
  }

  /** The ids after the first are still unseen once the first has been marked */
  lemma UnseenTail(st: RunState, st2: RunState, order: seq<int>)
    requires |order| > 0 && order[0] !in order[1..]
    requires forall i :: 0 <= i < |order| ==> Unseen(st, order[i])
    requires forall k :: k != order[0] ==> (k in st2.activation <==> k in st.activation) && (k in st2.data <==> k in st.data)
    ensures forall i :: 0 <= i < |order[1..]| ==> Unseen(st2, order[1..][i])
  {
    forall i | 0 <= i < |order[1..]| ensures Unseen(st2, order[1..][i]) {
      assert order[1..][i] == order[i + 1];
      assert order[1..][i] in order[1..];
    }
  }

  /** A run never removes an activation entry */
  lemma {:induction false} RunKeepsMarks(w: Wiring, sv: Services, files: map<string, string>, st: RunState, order: seq<int>, id: int)
    requires id in st.activation
    requires RunFrom(w, sv, files, st, order).Ok?
    ensures id in RunFrom(w, sv, files, st, order).value.state.activation
    decreases |order|
  {
    if |order| > 0 {
      var n := FindNode(w.nodes, order[0]).value;
      var o := Step(w, sv, files, st, n).value;
      StepMarks(w, sv, files, st, n);
      RunKeepsMarks(w, sv, o.files, o.state, order[1..], id);
    }
  }

  /** A handler called in a consistent state never raises KeyError */
  lemma StepNoMissing(w: Wiring, sv: Services, files: map<string, string>, st: RunState, node: Node)
    requires Consistent(st)
    ensures Step(w, sv, files, st, node).Err? ==> !Step(w, sv, files, st, node).error.error.MissingData?
  {
    var k := node.kind;
    if k in {"retrieval", "query", "condition"} && Gate(w, st, node.id) {
      GateOpenHasInputs(w, st, node.id);
    }
    FinishErrors(w, sv, files, st, node.id);
    if k == "retrieval" {
      RetrievalErrors(w, sv, files, st, node);
    } else if k == "query" {
      QueryErrors(w, sv, files, st, node);
    } else if k == "condition" {
      ConditionErrors(w, sv, files, st, node);
    }
  }

  /** The memory writes can only raise IndexError */
  lemma FinishErrors(w: Wiring, sv: Services, files: map<string, string>, st: RunState, id: int)
    ensures forall st2, t :: Finish(w, sv, files, st2, id, t).Err? ==> Finish(w, sv, files, st2, id, t).error.error.NoMemoryName?
  {
    forall t | true ensures WriteAll(sv.scriptDir, files, MemoryTargets(w, id), t).Err?
                            ==> WriteAll(sv.scriptDir, files, MemoryTargets(w, id), t).error.error.NoMemoryName? {
      WriteAllErrors(sv.scriptDir, files, MemoryTargets(w, id), t);
    }
  }

  lemma RetrievalErrors(w: Wiring, sv: Services, files: map<string, string>, st: RunState, node: Node)
    requires Gate(w, st, node.id) ==> Inputs(w, st, Sources(w.conns, node.id)).Ok?
    requires forall st2, t :: Finish(w, sv, files, st2, node.id, t).Err? ==> Finish(w, sv, files, st2, node.id, t).error.error.NoMemoryName?
    ensures StepRetrieval(w, sv, files, st, node).Err? ==> !StepRetrieval(w, sv, files, st, node).error.error.MissingData?
  {
  }

  lemma QueryErrors(w: Wiring, sv: Services, files: map<string, string>, st: RunState, node: Node)
    requires Gate(w, st, node.id) ==> Inputs(w, st, Sources(w.conns, node.id)).Ok?
    requires forall st2, t :: Finish(w, sv, files, st2, node.id, t).Err? ==> Finish(w, sv, files, st2, node.id, t).error.error.NoMemoryName?
    ensures StepQuery(w, sv, files, st, node).Err? ==> !StepQuery(w, sv, files, st, node).error.error.MissingData?
  {
    if Gate(w, st, node.id) {
      var vs := Inputs(w, st, Sources(w.conns, node.id)).value;
      var answer := sv.invoke(Prompt(node.content, vs));
      if answer.Some? {
        assert StepQuery(w, sv, files, st, node)
               == Finish(w, sv, files, Opened(st, node.id, Text(answer.value)), node.id, answer.value);
      }
    }
  }

  lemma ConditionErrors(w: Wiring, sv: Services, files: map<string, string>, st: RunState, node: Node)
    requires Gate(w, st, node.id) ==> Inputs(w, st, Sources(w.conns, node.id)).Ok?
    requires forall st2, t :: Finish(w, sv, files, st2, node.id, t).Err? ==> Finish(w, sv, files, st2, node.id, t).error.error.NoMemoryName?
    ensures StepCondition(w, sv, files, st, node).Err? ==> !StepCondition(w, sv, files, st, node).error.error.MissingData?
  {
  }

  /** ask_question over an execution order without repeats: every node it
      reaches is marked, active exactly when it has data, and no KeyError */
  lemma AskConsistent(w: Wiring, sv: Services, files: map<string, string>, question: string, order: seq<int>)
    requires Distinct(order)
    ensures Ask(w, sv, files, question, order).Ok? ==>
      && Consistent(Ask(w, sv, files, question, order).value.state)
      && forall i :: 0 <= i < |order| ==> order[i] in Ask(w, sv, files, question, order).value.state.activation
    ensures Ask(w, sv, files, question, order).Err? ==> !Ask(w, sv, files, question, order).error.error.MissingData?
  {
    RunConsistent(w, sv, files, Fresh(question), order);
  }

  /** Without an output node in the order the answer stays "" */
  lemma {:induction false} NoOutputNoAnswer(w: Wiring, sv: Services, files: map<string, string>, st: RunState, order: seq<int>)
    requires forall i :: 0 <= i < |order| ==> KindOf(w.nodes, order[i]) != "output"
    requires RunFrom(w, sv, files, st, order).Ok?
    ensures RunFrom(w, sv, files, st, order).value.state.answer == st.answer
    decreases |order|
  {
    if |order| > 0 {
      var n := FindNode(w.nodes, order[0]).value;
      var o := Step(w, sv, files, st, n).value;
      StepMarks(w, sv, files, st, n);
      assert n.kind == KindOf(w.nodes, order[0]);
      assert forall i :: 0 <= i < |order[1..]| ==> order[1..][i] == order[i + 1];
      NoOutputNoAnswer(w, sv, o.files, o.state, order[1..]);
    }
  }

  /** ask_question returns "" when no output node runs */
  lemma AskWithoutOutput(w: Wiring, sv: Services, files: map<string, string>, question: string, order: seq<int>)
    requires forall i :: 0 <= i < |order| ==> KindOf(w.nodes, order[i]) != "output"
    requires Ask(w, sv, files, question, order).Ok?
    ensures Ask(w, sv, files, question, order).value.state.answer == ""
  {
    NoOutputNoAnswer(w, sv, files, Fresh(question), order);
  }

  // ---------------------------------------------------------------------------
  // Memory files

  /** The writes succeed exactly when every target has content; an error
      names a target without one */
  lemma {:induction false} WriteAllErrors(dir: string, files: map<string, string>, targets: seq<Node>, text: string)
    ensures WriteAll(dir, files, targets, text).Ok? <==> forall i :: 0 <= i < |targets| ==> |targets[i].content| > 0
    ensures WriteAll(dir, files, targets, text).Err? ==> WriteAll(dir, files, targets, text).error.error.NoMemoryName?
    decreases |targets|
  {
    if |targets| > 0 && |targets[0].content| > 0 {
      var f := MemoryPath(dir, targets[0].content[0]);
      WriteAllErrors(dir, files[f := Append(Existing(files, f), text)], targets[1..], text);
      assert forall i :: 1 <= i < |targets| ==> targets[i] == targets[1..][i - 1];
    }
  }

  /** The writes leave every file that no target names as it was, whether
      they finish or raise */
  lemma {:induction false} WriteAllOthers(dir: string, files: map<string, string>, targets: seq<Node>, text: string, f: string)
    requires f !in TargetPaths(dir, targets)
    ensures var r := WriteAll(dir, files, targets, text);
      var out := if r.Ok? then r.value else r.error.files;
      (f in out <==> f in files) && (f in files ==> out[f] == files[f])
    decreases |targets|
  {
    if |targets| > 0 && |targets[0].content| > 0 {
      var g := MemoryPath(dir, targets[0].content[0]);
      assert g in TargetPaths(dir, targets);
      assert TargetPaths(dir, targets[1..]) <= TargetPaths(dir, targets) by {
        forall x | x in TargetPaths(dir, targets[1..]) ensures x in TargetPaths(dir, targets) {
          var i :| 0 <= i < |targets[1..]| && |targets[1..][i].content| > 0
                   && x == MemoryPath(dir, targets[1..][i].content[0]);
          assert targets[1..][i] == targets[i + 1];
        }
      }
      WriteAllOthers(dir, files[g := Append(Existing(files, g), text)], targets[1..], text, f);
    }
  }

  /** A node wired to one memory node appends exactly one entry to its file */
  lemma WriteOne(dir: string, files: map<string, string>, m: Node, text: string)
    requires |m.content| > 0
    ensures var f := MemoryPath(dir, m.content[0]);
      WriteAll(dir, files, [m], text) == Ok(files[f := Append(Existing(files, f), text)])
  {
  }

  /** The file of a memory node holds the empty text after clear_memory, as
      long as some memory node names it */
  lemma {:induction false} ClearAllEmpties(dir: string, files: map<string, string>, nodes: seq<Node>, k: nat)
    requires k < |nodes| && nodes[k].kind == "memory" && |nodes[k].content| > 0
    requires ClearAll(dir, files, nodes).Ok?
    ensures MemoryPath(dir, nodes[k].content[0]) in ClearAll(dir, files, nodes).value
    ensures ClearAll(dir, files, nodes).value[MemoryPath(dir, nodes[k].content[0])] == ""
    decreases |nodes|
  {
    var f := MemoryPath(dir, nodes[k].content[0]);
    if k == 0 {
      ClearAllKeeps(dir, files[f := ""], nodes[1..], f);
    } else if nodes[0].kind != "memory" {
      ClearAllEmpties(dir, files, nodes[1..], k - 1);
    } else {
      var g := MemoryPath(dir, nodes[0].content[0]);
      ClearAllEmpties(dir, files[g := ""], nodes[1..], k - 1);
    }
  }

  /** Clearing never turns an empty file back into a non-empty one */
  lemma {:induction false} ClearAllKeeps(dir: string, files: map<string, string>, nodes: seq<Node>, f: string)
    requires f in files && files[f] == ""
    requires ClearAll(dir, files, nodes).Ok?
    ensures f in ClearAll(dir, files, nodes).value && ClearAll(dir, files, nodes).value[f] == ""
    decreases |nodes|
  {
    if |nodes| > 0 {
      if nodes[0].kind != "memory" {
        ClearAllKeeps(dir, files, nodes[1..], f);
      } else {
        ClearAllKeeps(dir, files[MemoryPath(dir, nodes[0].content[0]) := ""], nodes[1..], f);
      }
    }
  }

  /** The first entry written to a missing or cleared file is numbered 1 */
  lemma FirstEntry(d: string)
    ensures Append("", d) == Entry(1, d)
  {
    assert LogNumbers("") == [];
  }

  /** After clear_memory, one write of d to a memory node's file reads back
      through that memory node as "History entry 1: " and d stripped */
  lemma ClearWriteRecall(dir: string, files: map<string, string>, nodes: seq<Node>, k: nat, d: string)
    requires k < |nodes| && nodes[k].kind == "memory" && |nodes[k].content| > 0
    requires ClearAll(dir, files, nodes).Ok?
    requires !Contains(d, EndTag)
    ensures var cleared := ClearAll(dir, files, nodes).value;
      var written := WriteAll(dir, cleared, [nodes[k]], d);
      && written.Ok?
      && Recall(written.value, MemoryPath(dir, nodes[k].content[0]))
         == "History entry 1: " + Strip(d) + "\n\n"
  {
    var f := MemoryPath(dir, nodes[k].content[0]);
    var cleared := ClearAll(dir, files, nodes).value;
    ClearAllEmpties(dir, files, nodes, k);
    WriteOne(dir, cleared, nodes[k], d);
    assert Existing(cleared, f) == "";
    RecallFirst(cleared, f, d);
  }

  /** Writing d to an empty file and reading it back */
  lemma RecallFirst(files: map<string, string>, f: string, d: string)
    requires !Contains(d, EndTag)
    ensures Recall(files[f := Append("", d)], f) == "History entry 1: " + Strip(d) + "\n\n"
  {
    var e := Append("", d);
    FirstEntry(d);
    HistoryOfEntry(1, d);
    assert History(e) == "History entry " + NatToString(1) + ": " + Strip(d) + "\n\n";
    FirstLabel(Strip(d));
    assert Recall(files[f := e], f) == History(e);
  }

  lemma FirstLabel(s: string)
    ensures "History entry " + NatToString(1) + ": " + s + "\n\n" == "History entry 1: " + s + "\n\n"
  {
    assert NatToString(1) == "1";
  }
}
