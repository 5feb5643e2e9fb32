/**
 * The segment trie that `SimpleUrlRouter` keeps in `rootPath`.
 *
 * Every node is an object with a `segments` dictionary from the literal text
 * of a pattern segment (a parameter segment keeps its leading `:`) to the
 * child node, and, once a route ends there, an `index` and a `callback`.
 * Nodes are addressed by the sequence of keys that leads to them from the
 * root.
 */
module Trie {

  datatype Option<T> = None | Some(value: T)

  /** What `addRoute` stamps on the final node of a pattern: the value of the
      router's counter at that moment, and the handler. */
  datatype Route<H> = Route(index: nat, handler: H)

  datatype Node<H> = Node(children: map<string, Node<H>>, route: Option<Route<H>>)

  /** A freshly created node: `{ segments: {} }`. */
  function Empty<H>(): Node<H>
  {
    Node(map[], None)
  }

  /** The route stamped on the node reached by following `p` from `n`. */
  function RouteAt<H>(n: Node<H>, p: seq<string>): Option<Route<H>>
    decreases p
  {
    if p == [] then n.route
    else if p[0] in n.children then RouteAt(n.children[p[0]], p[1..])
    else None
  }

  /** Whether following `p` from `n` reaches a node. */
  predicate HasNode<H>(n: Node<H>, p: seq<string>)
    decreases p
  {
    p == [] || (p[0] in n.children && HasNode(n.children[p[0]], p[1..]))
  }

  /** Walks `p` down from `n`, creating every missing node on the way, and
      stamps `r` on the node at the end, replacing any route it had. */
  function Insert<H>(n: Node<H>, p: seq<string>, r: Route<H>): (n': Node<H>)
    ensures HasNode(n', p) && RouteAt(n', p) == Some(r)
    ensures p != [] ==> n'.route == n.route
    decreases p
  {
    if p == [] then Node(n.children, Some(r))
    else
      var child := if p[0] in n.children then n.children[p[0]] else Empty();
      Node(n.children[p[0] := Insert(child, p[1..], r)], n.route)
  }

  /** An empty node carries no route anywhere below it. */
  lemma EmptyHasNoRoutes<H>(p: seq<string>)
    ensures RouteAt(Empty<H>(), p) == None
  {
  }

  /** Inserting changes the route of exactly one node: the one at `p`. */
  lemma {:induction false} InsertRouteAt<H>(n: Node<H>, p: seq<string>, r: Route<H>, q: seq<string>)
    ensures RouteAt(Insert(n, p, r), q) == if q == p then Some(r) else RouteAt(n, q)
    decreases p
  {
    if p != [] && q != [] {
      var child := if p[0] in n.children then n.children[p[0]] else Empty();
      if q[0] == p[0] {
        InsertRouteAt(child, p[1..], r, q[1..]);
        if p[0] !in n.children {
          EmptyHasNoRoutes<H>(q[1..]);
        }
        assert q == p <==> q[1..] == p[1..] by {
          if q[1..] == p[1..] {
            assert q == [q[0]] + q[1..] && p == [p[0]] + p[1..];
          }
        }
      }
    }
  }

  /** Inserting creates nodes only along `p`: afterwards a node exists exactly
      where one existed before or where `p` passes. */
  lemma {:induction false} InsertHasNode<H>(n: Node<H>, p: seq<string>, r: Route<H>, q: seq<string>)
    ensures HasNode(Insert(n, p, r), q) <==> HasNode(n, q) || q <= p
    decreases p
  {
    if p != [] && q != [] {
      var child := if p[0] in n.children then n.children[p[0]] else Empty();
      if q[0] == p[0] {
        InsertHasNode(child, p[1..], r, q[1..]);
        if p[0] !in n.children {
          EmptyHasOnlyRoot<H>(q[1..]);
        }
        assert q <= p <==> q[1..] <= p[1..];
      }
    }
  }

  /** An empty node has no node below it. */
  lemma EmptyHasOnlyRoot<H>(p: seq<string>)
    ensures HasNode(Empty<H>(), p) <==> p == []
  {
  }

  /** Every route carries an index below the counter, and no two nodes
      carry the same index. */
  ghost predicate WellNumbered<H>(n: Node<H>, count: nat)
  {
    && (forall p :: RouteAt(n, p).Some? ==> RouteAt(n, p).value.index < count)
    && (forall p, q :: RouteAt(n, p).Some? && RouteAt(n, q).Some? && p != q ==>
          RouteAt(n, p).value.index != RouteAt(n, q).value.index)
  }

  /** Stamping the counter's current value, then incrementing it, keeps the
      indices below the counter and pairwise distinct. */
  lemma InsertKeepsWellNumbered<H>(n: Node<H>, count: nat, p: seq<string>, h: H)
    requires WellNumbered(n, count)
    ensures WellNumbered(Insert(n, p, Route(count, h)), count + 1)
  {
    var n' := Insert(n, p, Route(count, h));
    forall q
      ensures RouteAt(n', q) == if q == p then Some(Route(count, h)) else RouteAt(n, q)
    {
      InsertRouteAt(n, p, Route(count, h), q);
    }
  }

  lemma EmptyIsWellNumbered<H>(count: nat)
    ensures WellNumbered(Empty<H>(), count)
  {
    forall p ensures RouteAt(Empty<H>(), p) == None {
      EmptyHasNoRoutes<H>(p);
    }
  }
}
