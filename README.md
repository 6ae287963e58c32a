# LLM workflow graphs: engine, editor and client, in Dafny

This project models three parts of a system that answers questions with a
graph of LLM steps.

- **The workflow engine** (`LLMGraphConfigurator/llmgraphbuilder.py`). A graph
  holds nodes of six types: input, retrieval, query, condition, memory and
  output. Typed connections join them. `build` prunes the graph to what the
  input node reaches and creates one handler per node. It then fixes an
  execution order by Kahn's topological sort. `ask_question` runs the handlers
  in that order over a shared run state: a `data` map and an `activation` map.
  A retrieval, condition or query node runs only when its gate is open. The
  gate is open when every ordinary predecessor is active and every condition
  predecessor lists the node's id in its branch list. Memory nodes keep a
  numbered log in a text file, and other nodes append to it.
- **The graph editor** (`LLMGraphConfigurator/graphcreator.py`). It has its
  own Graph class, which also stores node positions. Its event loop has three
  rules that this model tracks:
  - at most one input node;
  - no connection into an input node, and no connection from a node to itself;
  - undo and redo stacks of to_dict snapshots.
- **The headset client** (`LLMTSup/Assets/Scripts/ServerQuery.cs`). CleanupText
  turns the backslash escapes in an answer into characters. The UDP discovery
  reply `FLASK_SERVER:ip:port` becomes the server URL.

## How the model is built

**Classes for the source's mutable objects**
- `WorkflowGraph.Graph` and `EditorGraph.Graph` have `seq` fields for nodes
  and connections.
- `Workflow.LLMWorkflow` holds the graph, the handler set and the execution
  order. `Workflow.Directory` holds the memory files: a map from path to text.
- `EditorSession.Editor` holds the graph, the two stacks, `input_exists` and
  the selection.
- `ServerQuery.PythonCaller` holds `serverUrl` and `serverDiscovered`.

Each such class has methods with `modifies` clauses. Their contracts state
the whole new state.

**Functions for expressions.** These include the getters, to_dict, the
index-name sanitiser, every handler as a function on the run state
(`Engine.Step*`), the memory-log format and its regular expressions
(`MemoryLog`), and CleanupText and the reply parse.

**Methods against those functions.** The imperative handlers, the run loop,
the gate loop and the write loops are methods. Each one is proved equal to
the function that specifies it, and the properties are lemmas about those
functions.

**Outside services become parameters.** The LLM call, the FAISS store and
the similarity search are fields of `Engine.Services`. The store is an
`ok`/not-ok predicate on the index path and the document. The LLM call and
the search answer `None` where they raise. The source catches neither of
them, so a failure ends the question with `ModelFailed` or `SearchFailed`.

**Identity.** Nodes and connections are compared by id and by triple, not by
object identity. With unique ids, which every graph here keeps, this is the
same comparison.

## Model

| member | source | states |
|---|---|---|
| WorkflowGraph.Ids | LLMGraphConfigurator/llmgraphbuilder.py:79 | the id of each node, in node order |
| WorkflowGraph.FindNode | LLMGraphConfigurator/llmgraphbuilder.py:43-44 | a node is found exactly when the id occurs, and the node found is a node of the list with that id |
| WorkflowGraph.InputNode | LLMGraphConfigurator/llmgraphbuilder.py:46-50 | the result is an input node of the graph; there is none exactly when no node has type input |
| WorkflowGraph.RemoveFirst | LLMGraphConfigurator/llmgraphbuilder.py:75 | list.remove drops one occurrence of the id and adds nothing |
| WorkflowGraph.RemoveFirstMembers | LLMGraphConfigurator/llmgraphbuilder.py:75 | with unique ids, the nodes left are exactly the nodes with another id |
| WorkflowGraph.RemoveKeepsWellFormed | LLMGraphConfigurator/llmgraphbuilder.py:73-75 | removing a node and its connections keeps ids unique and below the counter, and connections unique and between live nodes |
| WorkflowGraph.NodeEntries | LLMGraphConfigurator/llmgraphbuilder.py:79 | to_dict writes id, type and content of every node, in order |
| WorkflowGraph.ConnectionEntries | LLMGraphConfigurator/llmgraphbuilder.py:80-81 | to_dict writes from, to and output_type of every connection, in order |
| WorkflowGraph.LoadNodes | LLMGraphConfigurator/llmgraphbuilder.py:88-91 | each entry becomes a node; missing content becomes [] |
| WorkflowGraph.EntryIds | LLMGraphConfigurator/llmgraphbuilder.py:92 | the ids of the entries, in order |
| WorkflowGraph.NextIdAfter | LLMGraphConfigurator/llmgraphbuilder.py:93-94 | the counter never decreases, ends above every loaded id, and is the old counter or one past a loaded id |
| WorkflowGraph.LoadConnectionsOf | LLMGraphConfigurator/llmgraphbuilder.py:98 | each entry becomes a connection; missing output_type becomes "output" |
| WorkflowGraph.LoadFromFacts | LLMGraphConfigurator/llmgraphbuilder.py:95-99 | loading fails exactly when some endpoint is unknown, names an unknown id when it fails, and keeps connections unique and between known nodes |
| WorkflowGraph.LoadFromAllKnown | LLMGraphConfigurator/llmgraphbuilder.py:95-99 | with every endpoint known, loading is add_connection over the whole list |
| WorkflowGraph.NodesRoundTrip | LLMGraphConfigurator/llmgraphbuilder.py:77-92 | from_dict of to_dict gives back the node list |
| WorkflowGraph.NextIdRoundTrip | LLMGraphConfigurator/llmgraphbuilder.py:93-94 | reloading saved nodes never raises the counter past one that already exceeded every saved id |
| WorkflowGraph.ConnectionsRoundTrip | LLMGraphConfigurator/llmgraphbuilder.py:80-81 | from_dict of to_dict gives back the connection list of a well-formed graph, with no lookup failing |
| WorkflowGraph.LoadedNodesWellFormed | LLMGraphConfigurator/llmgraphbuilder.py:88-94 | nodes loaded from entries with distinct ids form a well-formed graph under the raised counter |
| WorkflowGraph.ZeroInDegree | LLMGraphConfigurator/llmgraphbuilder.py:105 | the initial queue is exactly the ids with in-degree zero, without repeats |
| WorkflowGraph.ReleaseTargets | LLMGraphConfigurator/llmgraphbuilder.py:110-114 | after emitting an id, each in-degree counts the connections from ids not yet emitted, and the queue gains exactly the ids that reach zero |
| WorkflowGraph.LoadNodeList | LLMGraphConfigurator/llmgraphbuilder.py:88-94 | the loop builds LoadNodes and NextIdAfter |
| WorkflowGraph.CountInDegrees | LLMGraphConfigurator/llmgraphbuilder.py:102-104 | each id's in-degree is the number of connections into it |
| WorkflowGraph.StuckMeansNoOrder | LLMGraphConfigurator/llmgraphbuilder.py:115-116 | when the queue empties before every id is emitted, no topological order exists |
| WorkflowGraph.Graph.constructor | LLMGraphConfigurator/llmgraphbuilder.py:38-41 | an empty graph with counter 1 |
| WorkflowGraph.Graph.AddNode | LLMGraphConfigurator/llmgraphbuilder.py:58-62 | the new node takes the counter's value, which is a fresh id; it is appended and the counter moves on by one |
| WorkflowGraph.Graph.HasConnection | LLMGraphConfigurator/llmgraphbuilder.py:65-69 | the scan finds the triple exactly when it is present |
| WorkflowGraph.Graph.AddConnection | LLMGraphConfigurator/llmgraphbuilder.py:64-71 | a triple already present is ignored, otherwise exactly it is appended |
| WorkflowGraph.Graph.RemoveNode | LLMGraphConfigurator/llmgraphbuilder.py:73-75 | the connections touching the node go, then the node; an id naming no node is the ValueError and changes nothing |
| WorkflowGraph.Graph.ToDict | LLMGraphConfigurator/llmgraphbuilder.py:77-82 | one entry per node and per connection |
| WorkflowGraph.Graph.FromDict | LLMGraphConfigurator/llmgraphbuilder.py:84-99 | the nodes are the loaded entries, the counter is raised past them, the connections are those loaded before any failure, and an unknown endpoint is the KeyError |
| WorkflowGraph.Graph.TopologicalSort | LLMGraphConfigurator/llmgraphbuilder.py:101-117 | the result lists every id once with each connection's source first; "Cycle detected" is raised exactly when no such order exists |
| TopoOrder.InCountStep | LLMGraphConfigurator/llmgraphbuilder.py:110-112 | emitting x lowers each in-degree by exactly the connections from x |
| TopoOrder.InCountZero | LLMGraphConfigurator/llmgraphbuilder.py:113-114 | in-degree zero means every source is already emitted |
| TopoOrder.SourcesFirstAppend | LLMGraphConfigurator/llmgraphbuilder.py:108-109 | appending a node whose sources are all emitted keeps every connection's source first |
| TopoOrder.WithoutFacts | LLMGraphConfigurator/llmgraphbuilder.py:75 | removing one occurrence from a repetition-free list removes exactly that id |
| TopoOrder.DistinctSubsetLength | LLMGraphConfigurator/llmgraphbuilder.py:115 | an order of distinct ids as long as the node list holds all of them |
| TopoOrder.NoOrderWhenStuck | LLMGraphConfigurator/llmgraphbuilder.py:115-116 | a non-empty set of nodes each fed from the set admits no topological order |
| TopoOrder.FirstRemainingUnfed | LLMGraphConfigurator/llmgraphbuilder.py:101-117 | in a topological order, the first node listed from a set has no connection from that set |
| Connections.InsertProperties | LLMGraphConfigurator/llmgraphbuilder.py:64-71 | add_connection keeps every connection, adds the triple, adds nothing else, and grows the list only when the triple is new |
| Connections.DedupProperties | LLMGraphConfigurator/llmgraphbuilder.py:95-99 | add_connection over a list gives each triple of the list once |
| Connections.DedupOfDistinct | LLMGraphConfigurator/llmgraphbuilder.py:95-99 | a list without repeated triples loads as it is |
| Connections.Detach | LLMGraphConfigurator/llmgraphbuilder.py:74 | the connections left are exactly those that neither start nor end at the node |
| Connections.DetachNoDuplicates | LLMGraphConfigurator/llmgraphbuilder.py:74 | detaching keeps connections unique |
| Connections.DetachUntouched | LLMGraphConfigurator/llmgraphbuilder.py:74 | detaching a node no connection touches changes nothing |
| Connections.Sources | LLMGraphConfigurator/llmgraphbuilder.py:52-53 | the sources of the connections into the node, once per connection |
| Connections.Targets | LLMGraphConfigurator/llmgraphbuilder.py:55-56 | the destinations of the connections out of the node |
| Connections.TargetsVia | LLMGraphConfigurator/llmgraphbuilder.py:304-309 | the destinations wired to one named output of the node |
| Reachability.ReachableStep | LLMGraphConfigurator/llmgraphbuilder.py:206-208 | following a connection from a reachable node reaches its destination |
| Reachability.ClosedHoldsReachable | LLMGraphConfigurator/llmgraphbuilder.py:203-208 | a set closed under outgoing connections holds everything reachable from its members |
| Reachability.VisitTargets | LLMGraphConfigurator/llmgraphbuilder.py:206-208 | one visit records every target of the node and only reachable ids |
| Reachability.ReachableFrom | LLMGraphConfigurator/llmgraphbuilder.py:201-210 | the ids collected are exactly those reachable from the start, the start included |
| Reachability.KeepNodesMembers | LLMGraphConfigurator/llmgraphbuilder.py:211-213 | pruning keeps exactly the nodes whose id is kept |
| Reachability.KeepConnectionsMembers | LLMGraphConfigurator/llmgraphbuilder.py:211-213 | pruning keeps exactly the connections with both endpoints kept |
| Reachability.DetachDropped | LLMGraphConfigurator/llmgraphbuilder.py:74 | removing one more node detaches its connections from what is left |
| Reachability.DropIsKeep | LLMGraphConfigurator/llmgraphbuilder.py:211-213 | removing the unkept nodes one by one leaves exactly the connections inside the kept set |
| Reachability.KeptIds | LLMGraphConfigurator/llmgraphbuilder.py:200-210 | the kept ids are the input node and all it reaches, none without an input node |
| Reachability.KeptFromInput | LLMGraphConfigurator/llmgraphbuilder.py:200-210 | the set the visit collects from the input node is the kept set |
| Reachability.NoInputKeepsNothing | LLMGraphConfigurator/llmgraphbuilder.py:200-213 | a graph without an input node is pruned to nothing |
| Reachability.PrunedPath | LLMGraphConfigurator/llmgraphbuilder.py:211-213 | a path through kept ids is a path in the pruned graph and back |
| Reachability.ReachableInPruned | LLMGraphConfigurator/llmgraphbuilder.py:211-213 | in the pruned graph, the input node reaches exactly the kept ids |
| Reachability.PruneIdempotent | LLMGraphConfigurator/llmgraphbuilder.py:199-213 | pruning a pruned graph changes nothing |
| Reachability.InputNodeKept | LLMGraphConfigurator/llmgraphbuilder.py:200 | the input node stays the first input node after pruning |
| Reachability.CycleNeverReturns | LLMGraphConfigurator/llmgraphbuilder.py:203-208 | the recursion as written never returns from a node on the cycle, whatever the depth allowed |
| Reachability.PruneAsWrittenDiverges | LLMGraphConfigurator/llmgraphbuilder.py:203-210 | on input 1 -> 2, 2 -> 3, 3 -> 2, the pruning recursion as written exceeds every depth |
| Reachability.PruneCorrectedOnCycle | LLMGraphConfigurator/llmgraphbuilder.py:201-210 | the visit that sees each id once finishes on that graph and keeps 1, 2 and 3 |
| Workflow.Directory.constructor | LLMGraphConfigurator/llmgraphbuilder.py:22 | the script directory's files as given |
| Workflow.SupportedPrefix | LLMGraphConfigurator/llmgraphbuilder.py:409-423 | the longest prefix of nodes whose types have a handler; the node after it has none |
| Workflow.IdSet | LLMGraphConfigurator/llmgraphbuilder.py:411-421 | the set of ids of a node list |
| Workflow.LLMWorkflow.constructor | LLMGraphConfigurator/llmgraphbuilder.py:121-126 | the graph and services as given, no handlers and an empty order |
| Workflow.LLMWorkflow.Build | LLMGraphConfigurator/llmgraphbuilder.py:199-425 | the graph is pruned to the kept ids; handlers are made up to the first unsupported type, which raises; otherwise the order is the sort's result, or the sort's error |
| Workflow.LLMWorkflow.Prune | LLMGraphConfigurator/llmgraphbuilder.py:200-213 | nodes and connections become those inside the kept set, the counter unchanged |
| Workflow.LLMWorkflow.RemoveOutside | LLMGraphConfigurator/llmgraphbuilder.py:211-213 | the removal loop over a copy of the node list leaves exactly the kept nodes and connections |
| Workflow.LLMWorkflow.MakeHandlers | LLMGraphConfigurator/llmgraphbuilder.py:409-423 | a handler for each supported node in order; "Unsupported node type" names the first node without one |
| Workflow.LLMWorkflow.WriteToMemory | LLMGraphConfigurator/llmgraphbuilder.py:187-197 | the file becomes its old text, or "", followed by the next numbered entry |
| Workflow.LLMWorkflow.WriteTargets | LLMGraphConfigurator/llmgraphbuilder.py:220-228 | the loop writes the node's text to the file of each memory target, as WriteAll does |
| Workflow.LLMWorkflow.RunInput | LLMGraphConfigurator/llmgraphbuilder.py:215-230 | the input handler, as StepInput describes it |
| Workflow.LLMWorkflow.RunRetrieval | LLMGraphConfigurator/llmgraphbuilder.py:232-279 | the retrieval handler, as StepRetrieval describes it, including the uncaught failure of the similarity search |
| Workflow.LLMWorkflow.RunCondition | LLMGraphConfigurator/llmgraphbuilder.py:281-323 | the condition handler, as StepCondition describes it |
| Workflow.LLMWorkflow.RunQuery | LLMGraphConfigurator/llmgraphbuilder.py:325-360 | the query handler, as StepQuery describes it, including the uncaught failure of the model call |
| Workflow.LLMWorkflow.RunMemory | LLMGraphConfigurator/llmgraphbuilder.py:362-386 | the memory handler, as StepMemory describes it |
| Workflow.LLMWorkflow.RunOutput | LLMGraphConfigurator/llmgraphbuilder.py:388-407 | the output handler, as StepOutput describes it |
| Workflow.LLMWorkflow.RunNode | LLMGraphConfigurator/llmgraphbuilder.py:409-421 | the handler build made for the node's type |
| Workflow.LLMWorkflow.AskQuestion | LLMGraphConfigurator/llmgraphbuilder.py:427-437 | the handlers run in execution order from fresh maps; the answer and the files are those of Ask |
| Workflow.LLMWorkflow.ClearMemory | LLMGraphConfigurator/llmgraphbuilder.py:138-143 | every memory node's file becomes empty, as ClearAll describes |
| Workflow.LLMWorkflow.FaissIndexPath | LLMGraphConfigurator/llmgraphbuilder.py:145-152 | a node without content raises; otherwise the index directory of its first document under the script directory |
| Workflow.RemovalAdvance | LLMGraphConfigurator/llmgraphbuilder.py:211-213 | each turn of the removal loop keeps its invariant, and a node to remove is still present |
| Workflow.OrderCovered | LLMGraphConfigurator/llmgraphbuilder.py:425-433 | every id of the execution order has a handler once every node has one |
| Workflow.PrefixStops | LLMGraphConfigurator/llmgraphbuilder.py:409-423 | the handler loop stops at the first unsupported node |
| Engine.QuoteAll | LLMGraphConfigurator/llmgraphbuilder.py:304-305 | the repr of each branch token |
| Engine.Strs | LLMGraphConfigurator/llmgraphbuilder.py:298 | str() of each stored value, in order |
| Engine.IdStrings | LLMGraphConfigurator/llmgraphbuilder.py:304-309 | str() of each id, in order |
| Engine.Fresh | LLMGraphConfigurator/llmgraphbuilder.py:428 | empty data and activation maps and an empty answer |
| Engine.CheckGate | LLMGraphConfigurator/llmgraphbuilder.py:234-246 | the flag loop ends true exactly when every predecessor admits the node |
| Engine.NonConditions | LLMGraphConfigurator/llmgraphbuilder.py:255 | the predecessors that are not condition nodes |
| Engine.FirstMissing | LLMGraphConfigurator/llmgraphbuilder.py:255 | a predecessor with no data entry |
| Engine.Gather | LLMGraphConfigurator/llmgraphbuilder.py:255 | the values of the predecessors in order, or the KeyError exactly when one has no entry |
| Engine.PresentIds | LLMGraphConfigurator/llmgraphbuilder.py:391 | the predecessors that have a data entry |
| Engine.Present | LLMGraphConfigurator/llmgraphbuilder.py:391 | the data of those predecessors, in order |
| Engine.JoinTexts | LLMGraphConfigurator/llmgraphbuilder.py:394 | the join of the texts, or the TypeError exactly when a branch list is among them |
| Engine.MemoryTargets | LLMGraphConfigurator/llmgraphbuilder.py:220-221 | only memory nodes of the graph |
| Engine.Targeted | LLMGraphConfigurator/llmgraphbuilder.py:220-223 | only memory nodes of the graph |
| Engine.Finish | LLMGraphConfigurator/llmgraphbuilder.py:220-228 | the memory writes leave the run state as it was |
| Engine.Step | LLMGraphConfigurator/llmgraphbuilder.py:409-423 | a node of a type without a handler raises and changes no file |
| EngineFacts.StepMarks | LLMGraphConfigurator/llmgraphbuilder.py:218-219 | a handler that returns marks its own node and nothing else, and only an output node changes the answer |
| EngineFacts.InputMarks | LLMGraphConfigurator/llmgraphbuilder.py:218-219 | the input node marks itself active with data |
| EngineFacts.RetrievalMarks | LLMGraphConfigurator/llmgraphbuilder.py:253-277 | retrieval marks only itself, with data exactly when active |
| EngineFacts.QueryMarks | LLMGraphConfigurator/llmgraphbuilder.py:341-358 | query marks only itself, with data exactly when active |
| EngineFacts.ConditionMarks | LLMGraphConfigurator/llmgraphbuilder.py:297-321 | condition marks only itself, with data exactly when active |
| EngineFacts.MemoryMarks | LLMGraphConfigurator/llmgraphbuilder.py:374-375 | memory marks itself active with data |
| EngineFacts.OutputMarks | LLMGraphConfigurator/llmgraphbuilder.py:394-396 | output marks itself active with data |
| EngineFacts.MarksConsistent | LLMGraphConfigurator/llmgraphbuilder.py:218-219 | marking a node that has not run keeps active nodes exactly the ones with data |
| EngineFacts.GateOpenHasInputs | LLMGraphConfigurator/llmgraphbuilder.py:255 | an open gate in a consistent state never meets a missing data entry |
| EngineFacts.GateClosed | LLMGraphConfigurator/llmgraphbuilder.py:276-277 | a closed gate marks the node inactive and writes no data and no file |
| EngineFacts.RetrievalFailure | LLMGraphConfigurator/llmgraphbuilder.py:249-254 | a retrieval whose store fails ends inactive with no data and no file, even with its gate open |
| EngineFacts.InactivePredecessorBlocks | LLMGraphConfigurator/llmgraphbuilder.py:237-241 | an ordinary predecessor that is inactive or has not run closes the gate |
| EngineFacts.IdStringsMember | LLMGraphConfigurator/llmgraphbuilder.py:243 | str(x) is in the branch list exactly when x is |
| EngineFacts.ConditionStores | LLMGraphConfigurator/llmgraphbuilder.py:298-310 | a condition node that ran stores the ids on its "true" output when content[0] occurs in its joined inputs, else those on "false" |
| EngineFacts.BranchAdmits | LLMGraphConfigurator/llmgraphbuilder.py:243-246 | a condition node that took branch b admits exactly the nodes wired to b |
| EngineFacts.EmptyConditionRaises | LLMGraphConfigurator/llmgraphbuilder.py:299-300 | a condition node with empty content raises ValueError once its gate is open |
| EngineFacts.QueryStores | LLMGraphConfigurator/llmgraphbuilder.py:342-347 | a query node that ran got an answer from the model, and stores that answer to its content followed by its inputs |
| EngineFacts.QueryModelFails | LLMGraphConfigurator/llmgraphbuilder.py:344-345 | past the gate, a query raises ModelFailed with the files untouched exactly when the model call on its prompt fails |
| EngineFacts.RetrievalSearchFails | LLMGraphConfigurator/llmgraphbuilder.py:255-258 | past the gate and a loaded index, a retrieval raises SearchFailed with the files untouched exactly when the similarity search fails |
| EngineFacts.RunAppend | LLMGraphConfigurator/llmgraphbuilder.py:431-433 | the run over two orders in a row is the second run from where the first stopped, or the first one's error |
| EngineFacts.ModelFailureStops | LLMGraphConfigurator/llmgraphbuilder.py:344-345 | a run that reaches a query whose model call fails raises ModelFailed there with the files it was given |
| EngineFacts.ModelFailureHalts | LLMGraphConfigurator/llmgraphbuilder.py:341-345 | a failed model call ends ask_question at that node: later nodes never run, and the files are those the earlier nodes wrote |
| EngineFacts.OutputJoins | LLMGraphConfigurator/llmgraphbuilder.py:391-396 | the answer is the join of the data of every predecessor with an entry, active or not |
| EngineFacts.RunConsistent | LLMGraphConfigurator/llmgraphbuilder.py:431-433 | a run over distinct unseen ids keeps active nodes exactly those with data, marks every id it passes, and never raises KeyError |
| EngineFacts.RunKeepsMarks | LLMGraphConfigurator/llmgraphbuilder.py:431-433 | a run never removes an activation entry |
| EngineFacts.StepNoMissing | LLMGraphConfigurator/llmgraphbuilder.py:255 | a handler called in a consistent state never raises KeyError |
| EngineFacts.FinishErrors | LLMGraphConfigurator/llmgraphbuilder.py:224 | the memory writes can only raise IndexError |
| EngineFacts.RetrievalErrors | LLMGraphConfigurator/llmgraphbuilder.py:232-279 | with its inputs present and writes that only raise IndexError, retrieval never raises KeyError |
| EngineFacts.QueryErrors | LLMGraphConfigurator/llmgraphbuilder.py:325-360 | with its inputs present and writes that only raise IndexError, query never raises KeyError |
| EngineFacts.ConditionErrors | LLMGraphConfigurator/llmgraphbuilder.py:281-323 | with its inputs present and writes that only raise IndexError, condition never raises KeyError |
| EngineFacts.AskConsistent | LLMGraphConfigurator/llmgraphbuilder.py:427-437 | over an order without repeats, every node reached is marked, active exactly when it has data |
| EngineFacts.NoOutputNoAnswer | LLMGraphConfigurator/llmgraphbuilder.py:394 | without an output node in the order the answer stays as it was |
| EngineFacts.AskWithoutOutput | LLMGraphConfigurator/llmgraphbuilder.py:428-437 | ask_question returns "" when no output node runs |
| EngineFacts.WriteAllErrors | LLMGraphConfigurator/llmgraphbuilder.py:222-224 | the writes succeed exactly when every target has content; an error names one without |
| EngineFacts.WriteAllOthers | LLMGraphConfigurator/llmgraphbuilder.py:222-228 | files that no target names are left as they were, whether the writes finish or raise |
| EngineFacts.WriteOne | LLMGraphConfigurator/llmgraphbuilder.py:222-226 | one memory target gets exactly one appended entry |
| EngineFacts.ClearAllEmpties | LLMGraphConfigurator/llmgraphbuilder.py:138-143 | the file of every memory node holds "" after clear_memory |
| EngineFacts.ClearAllKeeps | LLMGraphConfigurator/llmgraphbuilder.py:138-143 | clearing never makes an empty file non-empty |
| EngineFacts.FirstEntry | LLMGraphConfigurator/llmgraphbuilder.py:193-195 | the first entry of a missing or cleared file is numbered 1 |
| EngineFacts.ClearWriteRecall | LLMGraphConfigurator/llmgraphbuilder.py:138-143 | after clear_memory, one write of d reads back as "History entry 1: " and d stripped |
| EngineFacts.RecallFirst | LLMGraphConfigurator/llmgraphbuilder.py:364-373 | an entry written to an empty file reads back as entry 1 with its data stripped |
| MemoryLog.DigitPrefixRun | LLMGraphConfigurator/llmgraphbuilder.py:193 | the greedy `\d+` takes a run of ASCII digits not followed by a digit |
| MemoryLog.StartMatch | LLMGraphConfigurator/llmgraphbuilder.py:193 | a start-marker match begins with the marker and lies inside the text |
| MemoryLog.MaxOrZero | LLMGraphConfigurator/llmgraphbuilder.py:194 | the maximum of the numbers and 0 |
| MemoryLog.NextLogNumber | LLMGraphConfigurator/llmgraphbuilder.py:193-194 | the next number is above every number in the file's ASCII-digit markers and one past the largest |
| MemoryLog.AppendShape | LLMGraphConfigurator/llmgraphbuilder.py:187-197 | appending keeps the old text, adds one entry with the next number, and the file ends with a newline |
| MemoryLog.AppendNumbers | LLMGraphConfigurator/llmgraphbuilder.py:193-197 | the numbers afterwards are the old ones, the new entry's, and any in the data |
| MemoryLog.NextAfterAppend | LLMGraphConfigurator/llmgraphbuilder.py:193-197 | data without a start marker moves the numbering on by exactly one |
| MemoryLog.AppendCleanNumbers | LLMGraphConfigurator/llmgraphbuilder.py:193-197 | such data adds exactly the new entry's number |
| MemoryLog.AppendCountsUp | LLMGraphConfigurator/llmgraphbuilder.py:193-197 | a file numbered 1 to k is numbered 1 to k+1 after such an append |
| MemoryLog.LoggedNumbers | LLMGraphConfigurator/llmgraphbuilder.py:138-143 | entries written to a fresh or cleared file are numbered 1, 2, 3, ... |
| MemoryLog.FindEnd | LLMGraphConfigurator/llmgraphbuilder.py:369 | the lazy data match ends where an end marker first matches |
| MemoryLog.LogAt | LLMGraphConfigurator/llmgraphbuilder.py:369 | a history match at the front of the text has positive length within the text |
| MemoryLog.LogsOfEntry | LLMGraphConfigurator/llmgraphbuilder.py:369 | reading an entry whose data has no end marker gives its number and data and resumes after it |
| MemoryLog.LogsOfRender | LLMGraphConfigurator/llmgraphbuilder.py:369-371 | a log of such entries reads back entry by entry |
| MemoryLog.LogsOfLogged | LLMGraphConfigurator/llmgraphbuilder.py:364-373 | a cleared file written with d1..dk reads back k entries numbered from 1 with their data |
| MemoryLog.HistoryOfEntry | LLMGraphConfigurator/llmgraphbuilder.py:370-371 | one entry reads back as "History entry n: " and its data stripped |
| IndexName.RFind | LLMGraphConfigurator/llmgraphbuilder.py:149 | the last occurrence of the character, or -1 |
| IndexName.StripExtension | LLMGraphConfigurator/llmgraphbuilder.py:149 | os.path.splitext's root is a prefix of the path |
| IndexName.Sanitize | LLMGraphConfigurator/llmgraphbuilder.py:150 | each character outside `[\w\-_]` becomes '_', the others stay |
| IndexName.IndexPath | LLMGraphConfigurator/llmgraphbuilder.py:145-152 | the ValueError exactly when the node has no content |
| IndexName.SanitizeOnlyNameChars | LLMGraphConfigurator/llmgraphbuilder.py:150 | a sanitised name holds only name characters and keeps those it had |
| IndexName.SanitizeIdempotent | LLMGraphConfigurator/llmgraphbuilder.py:150 | sanitising twice is sanitising once |
| IndexName.SanitizeKeeps | LLMGraphConfigurator/llmgraphbuilder.py:150 | a name of name characters is kept as it is |
| IndexName.IndexDirIsChild | LLMGraphConfigurator/llmgraphbuilder.py:149-152 | the index directory's name starts with "faiss_" and holds no '/' or '.', so it is a direct child of the script directory |
| IndexName.StripAddedExtension | LLMGraphConfigurator/llmgraphbuilder.py:149 | splitext removes exactly one added extension |
| IndexName.SharedIndex | LLMGraphConfigurator/llmgraphbuilder.py:149-151 | two documents differing only in extension share one index directory |
| IndexName.SharedIndexExample | LLMGraphConfigurator/llmgraphbuilder.py:149-151 | "notes.txt" and "notes.md" both use "faiss_notes" |
| IndexName.DotFileKeepsName | LLMGraphConfigurator/llmgraphbuilder.py:149-150 | a dot file's leading dot is no extension: ".env" gives "faiss__env" |
| Strings.ConcatAppend | LLMGraphConfigurator/llmgraphbuilder.py:344 | joining two lists is joining each and concatenating |
| Strings.ContainsIffOccurs | LLMGraphConfigurator/llmgraphbuilder.py:303 | `p in s` holds exactly when p occurs at some index of s |
| Strings.NatToString | LLMGraphConfigurator/llmgraphbuilder.py:195 | str(n) is at least one digit, with no leading zero |
| Strings.DigitsValueOfNatToString | LLMGraphConfigurator/llmgraphbuilder.py:194 | int(str(n)) is n |
| Strings.IntToStringInjective | LLMGraphConfigurator/llmgraphbuilder.py:218 | distinct ids give distinct keys |
| Strings.StripShape | LLMGraphConfigurator/llmgraphbuilder.py:371 | strip() removes exactly the surrounding white space |
| Strings.StripUnpadded | LLMGraphConfigurator/llmgraphbuilder.py:371 | strip() leaves an unpadded text unchanged |
| Strings.Split | LLMTSup/Assets/Scripts/ServerQuery.cs:54 | Split yields at least one piece |
| Strings.JoinSplit | LLMTSup/Assets/Scripts/ServerQuery.cs:54 | joining the pieces with the separator gives the text back |
| Strings.SplitAtSeparator | LLMTSup/Assets/Scripts/ServerQuery.cs:54 | a separator-free piece and a separator split off as the first piece |
| Strings.ReplaceAllAbsent | LLMTSup/Assets/Scripts/ServerQuery.cs:164 | replacing a pattern whose first character is absent changes nothing |
| EditorGraph.Cores | LLMGraphConfigurator/graphcreator.py:81-98 | the id, type and content of each placed node |
| EditorGraph.Save | LLMGraphConfigurator/graphcreator.py:411-419 | to_dict's entry for each node, with its position and content |
| EditorGraph.Restore | LLMGraphConfigurator/graphcreator.py:436-440 | from_dict's node for each entry |
| EditorGraph.SaveRestore | LLMGraphConfigurator/graphcreator.py:403-440 | from_dict of to_dict gives back every node with its position and content |
| EditorGraph.RemovePlaced | LLMGraphConfigurator/graphcreator.py:377 | list.remove drops the node with that id, keeping the positions of the others |
| EditorGraph.Moved | LLMGraphConfigurator/graphcreator.py:816-819 | the dragged node moves, the rest stay |
| EditorGraph.RemoveOneMembers | LLMGraphConfigurator/graphcreator.py:725 | removing a connection from a list without repeats leaves exactly the others |
| EditorGraph.SnapshotRoundTrip | LLMGraphConfigurator/graphcreator.py:403-448 | from_dict of to_dict gives back the nodes, positions, content and connection triples, and keeps the counter |
| EditorGraph.SavedToDict | LLMGraphConfigurator/graphcreator.py:403-428 | to_dict of a well-formed graph is a snapshot that loads without failing |
| EditorGraph.SavedLoads | LLMGraphConfigurator/graphcreator.py:444-448 | a snapshot's connections load without a failing lookup |
| EditorGraph.SavedResaved | LLMGraphConfigurator/graphcreator.py:403-448 | to_dict of a loaded snapshot is the snapshot |
| EditorGraph.WithContent | LLMGraphConfigurator/graphcreator.py:595 | the configured node's content is replaced, the rest stay |
| EditorGraph.Graph.constructor | LLMGraphConfigurator/graphcreator.py:351-354 | an empty graph with counter 1 |
| EditorGraph.Graph.AddNode | LLMGraphConfigurator/graphcreator.py:356-360 | the new node takes the counter's value, a fresh id, at x - 23, y + 70; it is appended and the counter moves on by one |
| EditorGraph.Graph.HasConnection | LLMGraphConfigurator/graphcreator.py:364-368 | the scan finds the triple exactly when it is present |
| EditorGraph.Graph.AddConnection | LLMGraphConfigurator/graphcreator.py:362-371 | a triple already present is ignored, otherwise exactly it is appended |
| EditorGraph.Graph.RemoveNode | LLMGraphConfigurator/graphcreator.py:373-377 | the node and exactly the connections touching it go; an id naming no node is the ValueError |
| EditorGraph.Graph.RemoveConnection | LLMGraphConfigurator/graphcreator.py:725 | exactly the clicked connection goes |
| EditorGraph.Graph.MoveNode | LLMGraphConfigurator/graphcreator.py:816-819 | only the dragged node's position changes |
| EditorGraph.Graph.SetContent | LLMGraphConfigurator/graphcreator.py:595 | only the configured node's content changes |
| EditorGraph.Graph.ToDict | LLMGraphConfigurator/graphcreator.py:403-428 | one entry per node and per connection, positions included |
| EditorGraph.Graph.RestoreList | LLMGraphConfigurator/graphcreator.py:436-442 | the loop builds the restored nodes and raises the counter past their ids |
| EditorGraph.Graph.FromDict | LLMGraphConfigurator/graphcreator.py:430-448 | the nodes are the loaded entries with their positions, the counter is raised past them, and an unknown endpoint is the KeyError |
| EditorSession.FindUnique | LLMGraphConfigurator/graphcreator.py:763 | with unique ids, the node found by id is the node itself |
| EditorSession.RemoveInputRule | LLMGraphConfigurator/graphcreator.py:760-762 | deleting the input node leaves none; deleting another node leaves the inputs as they were |
| EditorSession.AppendInputRule | LLMGraphConfigurator/graphcreator.py:707-716 | adding an input node to a graph without one keeps at most one |
| EditorSession.ContentInputRule | LLMGraphConfigurator/graphcreator.py:595 | a content edit keeps the inputs |
| EditorSession.OtherIdKept | LLMGraphConfigurator/graphcreator.py:763-764 | a selection other than the deleted node stays in the graph |
| EditorSession.Editor.constructor | LLMGraphConfigurator/graphcreator.py:610-644 | an empty graph, empty stacks, no input node and no selection |
| EditorSession.Editor.Checkpoint | LLMGraphConfigurator/graphcreator.py:708-709 | the current snapshot is pushed on the undo stack and the redo stack is cleared |
| EditorSession.Editor.AddNodeButton | LLMGraphConfigurator/graphcreator.py:705-716 | a node is added exactly when it is not an input or no input exists; it becomes the selection and an input sets input_exists; otherwise nothing changes |
| EditorSession.Editor.Connect | LLMGraphConfigurator/graphcreator.py:789-799 | a connection is made exactly onto another node that is not an input, after a checkpoint; otherwise nothing changes |
| EditorSession.Editor.RightClickNode | LLMGraphConfigurator/graphcreator.py:755-764 | the node and its connections go after a checkpoint; deleting the input clears input_exists; a deleted selection is dropped |
| EditorSession.Editor.DropNode | LLMGraphConfigurator/graphcreator.py:760-764 | the removal part of a node deletion, keeping the input rule |
| EditorSession.Editor.RightClickConnection | LLMGraphConfigurator/graphcreator.py:719-726 | exactly the clicked connection goes, after a checkpoint |
| EditorSession.Editor.ClickNode | LLMGraphConfigurator/graphcreator.py:765-777 | a checkpoint, and the node becomes the selection |
| EditorSession.Editor.ClickBackground | LLMGraphConfigurator/graphcreator.py:778-782 | the selection is dropped, nothing else changes |
| EditorSession.Editor.ConfigSave | LLMGraphConfigurator/graphcreator.py:591-596 | a checkpoint, then the node's content is replaced |
| EditorSession.Editor.DeleteKey | LLMGraphConfigurator/graphcreator.py:809-813 | the corrected Delete key of the second finding: the deletion of these lines plus the reset of input_exists that the right click does at lines 760-761; the selected node goes after a checkpoint, input_exists is cleared with the input node, and a stale selection raises after the checkpoint |
| EditorSession.Editor.DeleteKeyAsWritten | LLMGraphConfigurator/graphcreator.py:809-813 | as written: the same deletion, with input_exists left as it was |
| EditorSession.Editor.Undo | LLMGraphConfigurator/graphcreator.py:648-655 | with a snapshot to go back to, the current one moves to the redo stack, the popped one is loaded and input_exists is recomputed; otherwise nothing changes |
| EditorSession.Editor.Redo | LLMGraphConfigurator/graphcreator.py:657-664 | the mirror image of Undo |
| EditorSession.Editor.LoadGraph | LLMGraphConfigurator/graphcreator.py:692-704 | a checkpoint first; an unreadable file changes nothing else; otherwise the file is loaded and input_exists recomputed, and an unknown endpoint ends the load |
| EditorSession.UndoThenRedo | LLMGraphConfigurator/graphcreator.py:648-664 | undo then redo gives back the graph, the stacks and the input flag |
| EditorSession.AddNodeThenUndo | LLMGraphConfigurator/graphcreator.py:648-655 | adding a node and undoing gives back the graph and the undo stack |
| EditorSession.DeleteInputAsWritten | LLMGraphConfigurator/graphcreator.py:809-813 | as written, after the input node is deleted with the Delete key input_exists stays set and the Input button adds nothing |
| EditorSession.DeleteInputCorrected | LLMGraphConfigurator/graphcreator.py:760-761 | with the flag cleared on delete, the Input button adds an input node again, and there is one |
| ServerQuery.ReplaceAllShrinks | LLMTSup/Assets/Scripts/ServerQuery.cs:164-173 | a pass whose replacement is no longer than its pattern never lengthens |
| ServerQuery.CleanupText | LLMTSup/Assets/Scripts/ServerQuery.cs:158-176 | null stays null, the length never grows, and a text without a backslash (the empty text included) is returned unchanged |
| ServerQuery.CleanupShrinks | LLMTSup/Assets/Scripts/ServerQuery.cs:164-173 | the four passes never lengthen the text |
| ServerQuery.CleanupNoBackslash | LLMTSup/Assets/Scripts/ServerQuery.cs:164-175 | the four passes leave a text without a backslash unchanged |
| ServerQuery.Unescape | LLMTSup/Assets/Scripts/ServerQuery.cs:163-173 | the left-to-right decoding: never longer, identity without a backslash |
| ServerQuery.UnescapeEscape | LLMTSup/Assets/Scripts/ServerQuery.cs:163-173 | decoding undoes escaping, for every text |
| ServerQuery.CleanupEscapedBackslashN | LLMTSup/Assets/Scripts/ServerQuery.cs:164-170 | the escaped text of backslash-n comes back from the four passes as backslash-newline |
| ServerQuery.AsciiDecode | LLMTSup/Assets/Scripts/ServerQuery.cs:49 | one character per byte; bytes above 127 read as '?' |
| ServerQuery.AsciiRoundTrip | LLMTSup/Assets/Scripts/ServerQuery.cs:49 | an ASCII text encoded and decoded is itself |
| ServerQuery.ParseReply | LLMTSup/Assets/Scripts/ServerQuery.cs:52-58 | a URL exactly for a reply with the prefix and at least three pieces, built from pieces 1 and 2 |
| ServerQuery.HostReplyParses | LLMGraphConfigurator/llmserverhost.py:49 | the host's reply with a colon-free address parses to its own address and port |
| ServerQuery.DiscoveryRoundTrip | LLMTSup/Assets/Scripts/ServerQuery.cs:49-58 | the same through the host's UTF-8 bytes and the client's ASCII decoding |
| ServerQuery.ReplyWithoutPort | LLMTSup/Assets/Scripts/ServerQuery.cs:55 | a reply with the prefix but no port gives no URL |
| ServerQuery.PythonCaller.constructor | LLMTSup/Assets/Scripts/ServerQuery.cs:14-16 | the default URL, not discovered |
| ServerQuery.PythonCaller.HandleDiscoveryReply | LLMTSup/Assets/Scripts/ServerQuery.cs:46-66 | a parsed reply sets the URL and the discovered flag; a timeout or any other reply leaves both |
| ServerQuery.DiscoverHost | LLMTSup/Assets/Scripts/ServerQuery.cs:14-58 | a fresh client that hears the host's reply points at the host |

## Left out

- The LLM call, FAISS, embeddings and text splitting (llmgraphbuilder.py:154-185, and llmclient.py). These are foreign library and network calls. They are parameters in `Engine.Services`. A failing model call or search is `None`. Which exception it raised is not modelled.
- Engine.StepRetrieval: the similarity search is a parameter that returns the page contents of the documents it finds. How many it returns for k = 4 is up to the parameter.
- Engine.WriteAll: the PermissionError/OSError catch around each write is not modelled. Files are entries of a map, and a write never fails for the file system's sake.
- Only the IndexError from a memory node without content is modelled.
- The retrieval step's file-not-found and other loading exceptions are folded into the store predicate. They make the node inactive, as the source's catch does.
- Prints, timing (ask_question's clock) and logging are not modelled.
- get_graph, cleanup_faiss_indexes and delete_memory are not part of this model. They are file I/O outside the core.
- Workflow.LLMWorkflow.Build: node_funcs is modelled as the set of ids with a handler. The handlers themselves are `Engine.Step` on the node's type, read through the graph as it stands when the question is asked. The source's closures capture the node objects, which are the same objects because build ran last.
- WorkflowGraph.Graph.FromDict: requires distinct entry ids. The source's id map keeps the last node of a repeated id, and both nodes stay in the list. Files written by to_dict never repeat an id.
- EditorGraph.Graph.FromDict: requires distinct entry ids, for the same reason.
- EditorSession.Editor.LoadGraph: requires distinct entry ids in the file, for the same reason.
- EditorSession.Editor.LoadGraph: a file is either unreadable (`None`) or a parsed snapshot. JSON syntax errors and missing keys other than content and output_type are left out.
- The Node objects are not modelled. Graphs store ids, types, content and positions. Connections are (source id, destination id, output type) triples. The source compares node objects, and with unique ids this is the same comparison.
- The selection after undo, redo or load is `Stale`, because from_dict builds new node objects and the old selection no longer belongs to the graph. A Delete with a stale selection ends in the ValueError of list.remove: `Err(StaleSelection)`.
- pygame rendering, Bezier hit-testing, panning, drag offsets and connectors (graphcreator.py:61-347) are left out. They are UI and floating point.
- Node positions are integers, and a drag is a move to a given position.
- The tkinter configuration dialogs are left out, except the snapshot and content change of their Save buttons.
- The Save Graph button's file write and screenshot (graphcreator.py:682-691) are left out. They are file I/O; `EditorGraph.Graph.ToDict` is what they write.
- MemoryLog.DigitPrefixRun: `\d` is taken as the ASCII digits '0' to '9'. Python's `\d` in the patterns at llmgraphbuilder.py:193 and 369 also matches other Unicode decimal digits, and `int()` reads them. A marker such as `--- START LOG #` followed by an Arabic-Indic three counts as 3 in the source, but the model skips it.
- MemoryLog.NextLogNumber: counts only markers written with ASCII digits, for the reason on the line above. Markers with other Unicode decimal digits do not raise the next number as they do in the source.
- IndexName.Sanitize: `\w` is taken as ASCII letters, digits and '_'. Python's `\w` also accepts non-ASCII letters and digits.
- IndexName.JoinPath: paths are POSIX, and the document name is taken not to start with '/'.
- ServerQuery.AsciiEncode: requires an ASCII reply. The UTF-8 bytes of a non-ASCII address are not modelled.
- ServerQuery's HTTP, UDP and JsonUtility plumbing (SendQuestion, GetAnswerAsync, ProcessJsonResponse) are left out. They are I/O; a timeout is the `None` reply of `HandleDiscoveryReply`.
- llmserverhost.py is used only for the reply format at line 49.
- MemoryLog.LogsOfLogged: requires data without log markers. Data that holds a marker changes what the history pattern reads back.
- The history read that MemoryLog models is exact even for such data, but no lemma describes that case.
- Behaviour with no input node: pruning keeps nothing (`Reachability.NoInputKeepsNothing`), and the empty graph then builds with an empty order.

## Findings

| source | as written | input that shows it | evidently intended | confidence | as-written member | corrected member |
|---|---|---|---|---|---|---|
| LLMGraphConfigurator/llmgraphbuilder.py:203-208 | reachable_nodes recurses into every outgoing node, even one already in the list | input node 1 with connections 1 -> 2, 2 -> 3, 3 -> 2: the recursion goes 2, 3, 2, ... until RecursionError | visit each node once, so build finishes pruning and the topological sort reports "Cycle detected" | high, not executed | Reachability.PruneAsWrittenDiverges | Reachability.PruneCorrectedOnCycle |
| LLMGraphConfigurator/graphcreator.py:809-813 | the Delete key removes the selected node but leaves input_exists set | add an Input node (it becomes the selection), press Delete, click the Input button: no input node is added, and the graph has none | clear input_exists when the deleted node is the input node, as the right click does at lines 760-761 | high, not executed | EditorSession.DeleteInputAsWritten | EditorSession.DeleteInputCorrected |
| LLMTSup/Assets/Scripts/ServerQuery.cs:164-173 | four Replace passes run one after the other, with `\n` replaced before `\\` | the text backslash, n, escaped as backslash, backslash, n: the first pass turns its last two characters into a newline and leaves backslash, newline | decode each escape once, from the left, so that escaping and decoding give the text back | low, not executed | ServerQuery.CleanupEscapedBackslashN | ServerQuery.UnescapeEscape |

Each finding has two halves:
- the as-written half: `DeleteKeyAsWritten` and the recursion `Reachability.VisitAsWritten`;
- the corrected half, which the rest of the model uses: `DeleteKey`, `Reachability.ReachableFrom` and `ServerQuery.Unescape`.

`ServerQuery.CleanupText` keeps the source's four passes, because the client calls it as written.
