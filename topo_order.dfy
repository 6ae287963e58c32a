/** What a topological order of the workflow graph is, and the counting facts
    behind Kahn's algorithm in Graph.topological_sort
    (LLMGraphConfigurator/llmgraphbuilder.py): an in-degree counts the
    connections into a node whose source has not been emitted yet. */
module TopoOrder {
  import opened Connections

  /** Every connection into order[k] comes from a node listed before it */
  ghost predicate SourcesFirst(order: seq<int>, conns: seq<Connection>)
  {
    forall k :: 0 <= k < |order| ==>
      forall c :: c in conns && c.dst == order[k] ==> c.src in order[..k]
  }

  /** order lists each node id exactly once, and every connection's source,
      through any output ("output", "true" or "false"), comes before its
      destination */
  ghost predicate IsTopologicalOrder(ids: seq<int>, conns: seq<Connection>, order: seq<int>)
  {
    && |order| == |ids|
    && Distinct(order)
    && (forall x :: x in order <==> x in ids)
    && SourcesFirst(order, conns)
  }

  /** Connections into v whose source is not in done */
  function InCount(conns: seq<Connection>, v: int, done: seq<int>): nat
  {
    if |conns| == 0 then 0
    else InCount(conns[..|conns| - 1], v, done)
         + (if conns[|conns| - 1].dst == v && conns[|conns| - 1].src !in done then 1 else 0)
  }

  /** Connections from a to v */
  function CountFromTo(conns: seq<Connection>, a: int, v: int): nat
  {
    if |conns| == 0 then 0
    else CountFromTo(conns[..|conns| - 1], a, v)
         + (if conns[|conns| - 1].src == a && conns[|conns| - 1].dst == v then 1 else 0)
  }

  lemma InCountPrefix(conns: seq<Connection>, j: nat, v: int, done: seq<int>)
    requires j < |conns|
    ensures InCount(conns[..j + 1], v, done)
            == InCount(conns[..j], v, done) + (if conns[j].dst == v && conns[j].src !in done then 1 else 0)
  {
    assert conns[..j + 1][..j] == conns[..j];
  }

  lemma CountFromToPrefix(conns: seq<Connection>, j: nat, a: int, v: int)
    requires j < |conns|
    ensures CountFromTo(conns[..j + 1], a, v)
            == CountFromTo(conns[..j], a, v) + (if conns[j].src == a && conns[j].dst == v then 1 else 0)
  {
    assert conns[..j + 1][..j] == conns[..j];
  }

  /** Emitting x removes exactly the connections from x from every in-degree */
  lemma {:induction false} InCountStep(conns: seq<Connection>, v: int, done: seq<int>, x: int)
    requires x !in done
    ensures InCount(conns, v, done + [x]) + CountFromTo(conns, x, v) == InCount(conns, v, done)
  {
    if |conns| > 0 {
      InCountStep(conns[..|conns| - 1], v, done, x);
    }
  }

  lemma {:induction false} CountFromToMonotone(conns: seq<Connection>, j: nat, a: int, v: int)
    requires j <= |conns|
    ensures CountFromTo(conns[..j], a, v) <= CountFromTo(conns, a, v)
    decreases |conns| - j
  {
    if j < |conns| {
      CountFromToPrefix(conns, j, a, v);
      CountFromToMonotone(conns, j + 1, a, v);
    } else {
      assert conns[..j] == conns;
    }
  }

  lemma {:induction false} InCountZero(conns: seq<Connection>, v: int, done: seq<int>)
    requires InCount(conns, v, done) == 0
    ensures forall c :: c in conns && c.dst == v ==> c.src in done
  {
    if |conns| > 0 {
      var init := conns[..|conns| - 1];
      InCountZero(init, v, done);
      assert conns == init + [conns[|conns| - 1]];
    }
  }

  lemma {:induction false} InCountPositive(conns: seq<Connection>, v: int, done: seq<int>)
    requires InCount(conns, v, done) > 0
    ensures exists c :: c in conns && c.dst == v && c.src !in done
  {
    var init := conns[..|conns| - 1];
    var last := conns[|conns| - 1];
    assert conns == init + [last];
    if !(last.dst == v && last.src !in done) {
      InCountPositive(init, v, done);
    }
  }

  lemma SourcesFirstIn(order: seq<int>, conns: seq<Connection>, c: Connection)
    requires SourcesFirst(order, conns) && c in conns && c.dst in order
    ensures c.src in order
  {
    var m :| 0 <= m < |order| && order[m] == c.dst;
    assert c.src in order[..m];
  }

  /** Appending a node whose every in-connection comes from order keeps SourcesFirst */
  lemma SourcesFirstAppend(order: seq<int>, conns: seq<Connection>, x: int)
    requires SourcesFirst(order, conns)
    requires forall c :: c in conns && c.dst == x ==> c.src in order
    ensures SourcesFirst(order + [x], conns)
  {
    var o := order + [x];
    forall k | 0 <= k < |o|
      ensures forall c :: c in conns && c.dst == o[k] ==> c.src in o[..k]
    {
      if k < |order| {
        assert o[..k] == order[..k];
      } else {
        assert o[..k] == order;
      }
    }
  }

  /** Removes the one occurrence of x */
  function Without(xs: seq<int>, x: int): seq<int>
  {
    if |xs| == 0 then [] else if xs[0] == x then xs[1..] else [xs[0]] + Without(xs[1..], x)
  }

  lemma {:induction false} WithoutFacts(xs: seq<int>, x: int)
    requires Distinct(xs) && x in xs
    ensures |Without(xs, x)| == |xs| - 1
    ensures Distinct(Without(xs, x))
    ensures forall y :: y in Without(xs, x) <==> y in xs && y != x
  {
    if xs[0] != x {
      var rest := xs[1..];
      assert Distinct(rest) by {
        forall i, j | 0 <= i < j < |rest| ensures rest[i] != rest[j] {
          assert rest[i] == xs[i + 1] && rest[j] == xs[j + 1];
        }
      }
      WithoutFacts(rest, x);
      assert xs[0] !in rest by {
        forall k | 0 <= k < |rest| ensures rest[k] != xs[0] {
          assert rest[k] == xs[k + 1];
        }
      }
    } else {
      assert forall y :: y in xs[1..] ==> y != x by {
        forall k | 0 <= k < |xs[1..]| ensures xs[1..][k] != x {
          assert xs[1..][k] == xs[k + 1];
        }
      }
      assert forall y :: y in xs ==> y == xs[0] || y in xs[1..];
    }
  }

  /** A repetition-free list drawn from another is no longer than it, and as
      long only when it holds all of it */
  lemma {:induction false} DistinctSubsetLength(a: seq<int>, b: seq<int>)
    requires Distinct(a) && Distinct(b)
    requires forall x :: x in a ==> x in b
    ensures |a| <= |b|
    ensures |a| == |b| ==> forall x :: x in b ==> x in a
  {
    if |a| > 0 {
      var b' := Without(b, a[0]);
      WithoutFacts(b, a[0]);
      var rest := a[1..];
      assert Distinct(rest) by {
        forall i, j | 0 <= i < j < |rest| ensures rest[i] != rest[j] {
          assert rest[i] == a[i + 1] && rest[j] == a[j + 1];
        }
      }
      assert forall x :: x in rest ==> x != a[0] by {
        forall k | 0 <= k < |rest| ensures rest[k] != a[0] {
          assert rest[k] == a[k + 1];
        }
      }
      DistinctSubsetLength(rest, b');
      assert forall x :: x in a ==> x == a[0] || x in rest;
    } else {
      if |b| > 0 {
        assert b[0] in b;
      }
    }
  }

  /** The first element of o that lies in r */
  lemma {:induction false} FirstIn(o: seq<int>, r: set<int>) returns (k: nat)
    requires exists x :: x in r && x in o
    ensures k < |o| && o[k] in r
    ensures forall j :: 0 <= j < k ==> o[j] !in r
  {
    if o[0] in r {
      k := 0;
    } else {
      var x :| x in r && x in o;
      assert x in o[1..];
      var k' := FirstIn(o[1..], r);
      k := k' + 1;
      assert forall j :: 1 <= j < k ==> o[j] == o[1..][j - 1];
    }
  }

  /** Some connection into v comes from a node of r */
  ghost predicate FedFrom(conns: seq<Connection>, v: int, r: set<int>)
  {
    exists c :: c in conns && c.dst == v && c.src in r
  }

  /** If some nodes remain and each has a connection from another remaining
      node, no topological order exists: the remaining node listed first in
      any candidate order would need a remaining source listed before it. */
  lemma NoOrderWhenStuck(ids: seq<int>, conns: seq<Connection>, remaining: set<int>)
    requires remaining != {}
    requires forall v :: v in remaining ==> v in ids
    requires forall v :: v in remaining ==> FedFrom(conns, v, remaining)
    ensures forall o :: !IsTopologicalOrder(ids, conns, o)
  {
    assert exists v :: v in remaining by {
      if forall v :: v !in remaining {
        assert false;
      }
    }
    var v :| v in remaining;
    forall o | IsTopologicalOrder(ids, conns, o)
      ensures false
    {
      var u := FirstRemainingUnfed(ids, conns, remaining, o, v);
      assert false;
    }
  }

  /** In a topological order, the first node listed from a set has no
      connection from that set */
  lemma FirstRemainingUnfed(ids: seq<int>, conns: seq<Connection>, remaining: set<int>, o: seq<int>, v: int)
      returns (u: int)
    requires v in remaining
    requires forall v :: v in remaining ==> v in ids
    requires IsTopologicalOrder(ids, conns, o)
    ensures u in remaining && !FedFrom(conns, u, remaining)
  {
    assert v in o;
    var k := FirstIn(o, remaining);
    u := o[k];
    forall c | c in conns && c.dst == u
      ensures c.src !in remaining
    {
      assert c.src in o[..k];
      var j :| 0 <= j < k && o[..k][j] == c.src;
      assert o[j] == c.src;
    }
  }
}
