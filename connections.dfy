/** Typed connections between node ids, shared by the workflow graph
    (LLMGraphConfigurator/llmgraphbuilder.py) and the editor's graph
    (LLMGraphConfigurator/graphcreator.py), with the list operations both
    classes perform on them. A node is named by its id: in both programs a
    connection holds node objects, and ids are unique within a graph. */
module Connections {

  /** output_type is "output" for ordinary nodes and "true"/"false" for the
      two outputs of a condition node */
  datatype Connection = Connection(src: int, dst: int, outputType: string)

  predicate NoDuplicates(conns: seq<Connection>)
  {
    forall i, j :: 0 <= i < j < |conns| ==> conns[i] != conns[j]
  }

  predicate Distinct(xs: seq<int>)
  {
    forall i, j :: 0 <= i < j < |xs| ==> xs[i] != xs[j]
  }

  /** add_connection on a list value: a triple already present is ignored */
  function Insert(conns: seq<Connection>, c: Connection): seq<Connection>
  {
    if c in conns then conns else conns + [c]
  }

  /** Insert keeps every connection, adds c, and adds nothing else */
  lemma InsertProperties(conns: seq<Connection>, c: Connection)
    ensures forall x :: x in Insert(conns, c) <==> x in conns || x == c
    ensures |Insert(conns, c)| == if c in conns then |conns| else |conns| + 1
    ensures NoDuplicates(conns) ==> NoDuplicates(Insert(conns, c))
  {
  }

  /** add_connection applied to each triple in turn, starting from no connections */
  function Dedup(cs: seq<Connection>): seq<Connection>
  {
    if |cs| == 0 then [] else Insert(Dedup(cs[..|cs| - 1]), cs[|cs| - 1])
  }

  lemma DedupSnoc(cs: seq<Connection>, c: Connection)
    ensures Dedup(cs + [c]) == Insert(Dedup(cs), c)
  {
    assert (cs + [c])[..|cs|] == cs;
  }

  lemma {:induction false} DedupProperties(cs: seq<Connection>)
    ensures NoDuplicates(Dedup(cs))
    ensures forall c :: c in Dedup(cs) <==> c in cs
  {
    if |cs| > 0 {
      var init := cs[..|cs| - 1];
      DedupProperties(init);
      assert cs == init + [cs[|cs| - 1]];
    }
  }

  /** Loading a list that has no repeated triple keeps it as it is */
  lemma {:induction false} DedupOfDistinct(cs: seq<Connection>)
    requires NoDuplicates(cs)
    ensures Dedup(cs) == cs
  {
    if |cs| > 0 {
      var init := cs[..|cs| - 1];
      DedupOfDistinct(init);
      DedupProperties(init);
      assert cs[|cs| - 1] !in init;
      assert init + [cs[|cs| - 1]] == cs;
    }
  }

  /** The connections that survive remove_node(id): those that neither start
      nor end at id, in their original order */
  function Detach(conns: seq<Connection>, id: int): (r: seq<Connection>)
    ensures forall c :: c in r <==> c in conns && c.src != id && c.dst != id
    ensures |r| <= |conns|
  {
    if |conns| == 0 then []
    else (if conns[0].src != id && conns[0].dst != id then [conns[0]] else []) + Detach(conns[1..], id)
  }

  lemma {:induction false} DetachNoDuplicates(conns: seq<Connection>, id: int)
    requires NoDuplicates(conns)
    ensures NoDuplicates(Detach(conns, id))
  {
    if |conns| > 0 {
      var rest := conns[1..];
      assert NoDuplicates(rest) by {
        forall i, j | 0 <= i < j < |rest| ensures rest[i] != rest[j] {
          assert rest[i] == conns[i + 1] && rest[j] == conns[j + 1];
        }
      }
      DetachNoDuplicates(rest, id);
      assert conns[0] !in rest by {
        forall k | 0 <= k < |rest| ensures rest[k] != conns[0] {
          assert rest[k] == conns[k + 1];
        }
      }
    }
  }

  /** Detaching an id that no connection touches changes nothing */
  lemma {:induction false} DetachUntouched(conns: seq<Connection>, id: int)
    requires forall c :: c in conns ==> c.src != id && c.dst != id
    ensures Detach(conns, id) == conns
  {
    if |conns| > 0 {
      assert conns[0] in conns;
      assert forall c :: c in conns[1..] ==> c in conns;
      DetachUntouched(conns[1..], id);
      assert [conns[0]] + conns[1..] == conns;
    }
  }

  /** get_incoming_edge_nodes: the source of each connection into id, in
      connection order, once per connection */
  function Sources(conns: seq<Connection>, id: int): (r: seq<int>)
    ensures |r| <= |conns|
    ensures forall x :: x in r <==> exists c :: c in conns && c.dst == id && c.src == x
  {
    if |conns| == 0 then []
    else (if conns[0].dst == id then [conns[0].src] else []) + Sources(conns[1..], id)
  }

  /** get_outgoing_edge_nodes: the destination of each connection out of id */
  function Targets(conns: seq<Connection>, id: int): (r: seq<int>)
    ensures |r| <= |conns|
    ensures forall x :: x in r <==> exists c :: c in conns && c.src == id && c.dst == x
  {
    if |conns| == 0 then []
    else (if conns[0].src == id then [conns[0].dst] else []) + Targets(conns[1..], id)
  }

  /** The destinations wired to one named output of id, in connection order */
  function TargetsVia(conns: seq<Connection>, id: int, outputType: string): (r: seq<int>)
    ensures forall x :: x in r <==> Connection(id, x, outputType) in conns
  {
    if |conns| == 0 then []
    else (if conns[0].src == id && conns[0].outputType == outputType then [conns[0].dst] else [])
         + TargetsVia(conns[1..], id, outputType)
  }
}
