/**
 * The lookup half of `SimpleUrlRouter`: `_findRouteIterate` and
 * `cloneParameters`, with the declarative meaning of a lookup.
 *
 * A route pattern `p` (the keys from the root to its node) matches the URL
 * segments `W` when both have the same length and every key either starts
 * with `:` or equals the URL segment at its position. The search visits every
 * node whose path matches a prefix of `W` and, among the routes whose path
 * matches all of `W`, returns the one with the greatest index, together with
 * the parameters bound along its path.
 *
 * Percent-decoding (`decodeURIComponent`) is a parameter `decode` of the
 * lookup.
 */
module Search {
  import opened Trie
  import opened Segments

  type Params = map<string, string>

  /** A route found by the search, with the parameters bound on its path. */
  datatype Found<H> = Found(index: nat, handler: H, params: Params)

  /** A pattern segment starting with `:` names a parameter. */
  predicate IsParam(seg: string)
  {
    |seg| > 0 && seg[0] == ':'
  }

  /** A pattern segment matches a URL segment when it is a parameter or when
      the two are the same text. */
  predicate SegmentMatches(seg: string, w: string)
  {
    IsParam(seg) || seg == w
  }

  /** The parameters after matching `seg` against `w`: a parameter segment
      binds its decoded name to the decoded URL segment, overwriting an
      earlier binding of the same name; a literal segment binds nothing. */
  function Bind(params: Params, seg: string, w: string, decode: string -> string): (r: Params)
    ensures IsParam(seg) ==> decode(seg[1..]) in r && r[decode(seg[1..])] == decode(w)
    ensures forall x :: x in params && (!IsParam(seg) || x != decode(seg[1..])) ==> x in r && r[x] == params[x]
    ensures forall x :: x in r ==> x in params || (IsParam(seg) && x == decode(seg[1..]))
  {
    if IsParam(seg) then params[decode(seg[1..]) := decode(w)] else params
  }

  /** A pattern matches URL segments position by position. */
  predicate PatternMatches(p: seq<string>, w: seq<string>)
  {
    |p| == |w| && forall j :: 0 <= j < |p| ==> SegmentMatches(p[j], w[j])
  }

  /** The parameters bound along a whole pattern, left to right. */
  function BindAll(params: Params, p: seq<string>, w: seq<string>, decode: string -> string): Params
    requires |p| == |w|
    decreases p
  {
    if p == [] then params
    else BindAll(Bind(params, p[0], w[0], decode), p[1..], w[1..], decode)
  }

  /** Some parameter segment of `p` has the decoded name `x`. */
  predicate BindsName(p: seq<string>, x: string, decode: string -> string)
  {
    exists j :: 0 <= j < |p| && IsParam(p[j]) && decode(p[j][1..]) == x
  }

  /** `p[j]` is a parameter segment and no later parameter segment of `p`
      has the same decoded name. */
  predicate LastBinding(p: seq<string>, j: nat, decode: string -> string)
    requires j < |p|
  {
    IsParam(p[j]) && forall k :: j < k < |p| && IsParam(p[k]) ==> decode(p[k][1..]) != decode(p[j][1..])
  }

  /** The parameters bound along a pattern: exactly the names of its
      parameter segments are added; each is bound to the decoded URL segment
      at the position of its last occurrence; nothing else changes. */
  lemma {:induction false} BindAllBindings(params: Params, p: seq<string>, w: seq<string>, decode: string -> string)
    requires |p| == |w|
    ensures forall x :: x in BindAll(params, p, w, decode) <==> x in params || BindsName(p, x, decode)
    ensures forall x :: x in params && !BindsName(p, x, decode) ==> BindAll(params, p, w, decode)[x] == params[x]
    ensures forall j :: 0 <= j < |p| && LastBinding(p, j, decode) ==>
      decode(p[j][1..]) in BindAll(params, p, w, decode) && BindAll(params, p, w, decode)[decode(p[j][1..])] == decode(w[j])
    decreases p
  {
    if p != [] {
      var bound := Bind(params, p[0], w[0], decode);
      var result := BindAll(params, p, w, decode);
      BindAllBindings(bound, p[1..], w[1..], decode);
      forall x
        ensures BindsName(p, x, decode) <==> (IsParam(p[0]) && decode(p[0][1..]) == x) || BindsName(p[1..], x, decode)
      {
        if BindsName(p, x, decode) {
          var j :| 0 <= j < |p| && IsParam(p[j]) && decode(p[j][1..]) == x;
          if j > 0 {
            assert p[1..][j - 1] == p[j];
          }
        }
        if BindsName(p[1..], x, decode) {
          var j :| 0 <= j < |p[1..]| && IsParam(p[1..][j]) && decode(p[1..][j][1..]) == x;
          assert p[j + 1] == p[1..][j];
        }
      }
      forall j | 0 <= j < |p| && LastBinding(p, j, decode)
        ensures decode(p[j][1..]) in result && result[decode(p[j][1..])] == decode(w[j])
      {
        var x := decode(p[j][1..]);
        if j > 0 {
          assert p[1..][j - 1] == p[j] && w[1..][j - 1] == w[j];
          assert LastBinding(p[1..], j - 1, decode) by {
            forall k | j - 1 < k < |p[1..]| && IsParam(p[1..][k])
              ensures decode(p[1..][k][1..]) != x
            {
              assert p[1..][k] == p[k + 1];
            }
          }
        }
      }
    }
  }

  /** The route at `p` exists and its pattern matches `w`. */
  ghost predicate Matches<H>(n: Node<H>, p: seq<string>, w: seq<string>)
  {
    RouteAt(n, p).Some? && PatternMatches(p, w)
  }

  /** The route at `p` matches `w` and no matching route has a greater index. */
  ghost predicate IsWinner<H>(n: Node<H>, p: seq<string>, w: seq<string>)
  {
    && Matches(n, p, w)
    && forall q :: Matches(n, q, w) ==> RouteAt(n, q).value.index <= RouteAt(n, p).value.index
  }

  /** With distinct indices there is at most one winner, so the outcome of a
      lookup does not depend on the order in which children are visited. */
  lemma WinnerIsUnique<H>(n: Node<H>, count: nat, w: seq<string>, p: seq<string>, q: seq<string>)
    requires WellNumbered(n, count)
    requires IsWinner(n, p, w) && IsWinner(n, q, w)
    ensures p == q
  {
    assert RouteAt(n, q).value.index <= RouteAt(n, p).value.index;
    assert RouteAt(n, p).value.index <= RouteAt(n, q).value.index;
  }

  // ---------------------------------------------------------------------
  // The URL as the search sees it

  /** The token list `findRoute` hands to the search: a root token first and
      no trailing empty token after it. */
  predicate Normalized(u: seq<string>)
  {
    |u| >= 1 && u[0] == "" && (|u| > 1 ==> u[|u| - 1] != "")
  }

  /** The URL segments still to be consumed by a search call at token index
      `i`: the root token itself at index 0, otherwise the non-empty tokens
      from `i` on. */
  function Words(u: seq<string>, i: nat): seq<string>
    requires 1 <= |u| && i <= |u|
  {
    if i == 0 then [u[0]] + NonEmptySegments(u[1..]) else NonEmptySegments(u[i..])
  }

  lemma WordsSkip(u: seq<string>, i: nat)
    requires 1 <= i < |u| && u[i] == ""
    ensures Words(u, i) == Words(u, i + 1)
  {
    assert u[i..][1..] == u[i + 1..];
  }

  lemma WordsStep(u: seq<string>, i: nat)
    requires i < |u| && (i == 0 || u[i] != "")
    ensures Words(u, i) == [u[i]] + Words(u, i + 1)
  {
    if i > 0 {
      assert u[i..][1..] == u[i + 1..];
    }
  }

  /** In a normalised token list the token at `i` is the last one exactly
      when no URL segment is left after it. */
  lemma WordsEnd(u: seq<string>, i: nat)
    requires Normalized(u) && i < |u|
    ensures i == |u| - 1 <==> Words(u, i + 1) == []
  {
    if i < |u| - 1 {
      var last := |u| - 1;
      assert u[i + 1..] == u[i + 1..last] + [u[last]];
      NonEmptyAppend(u[i + 1..last], [u[last]]);
    }
  }

  // ---------------------------------------------------------------------
  // What one search call can find

  /** The routes found by a call at node `n`, reached over segment `seg`,
      with URL segments `r` left (the first for `seg` itself) and parameters
      `params` bound so far. */
  ghost function Candidates<H>(n: Node<H>, seg: string, r: seq<string>, params: Params, decode: string -> string): set<Found<H>>
    decreases n, 1
  {
    if r == [] || !SegmentMatches(seg, r[0]) then {}
    else
      var bound := Bind(params, seg, r[0], decode);
      Own(n, |r| == 1, bound) + ChildCandidates(n, n.children.Keys, r[1..], bound, decode)
  }

  /** The route on `n` itself, when the URL ends at `n`. */
  ghost function Own<H>(n: Node<H>, atEnd: bool, params: Params): set<Found<H>>
  {
    if atEnd && n.route.Some? then {Found(n.route.value.index, n.route.value.handler, params)} else {}
  }

  /** The routes found below the children of `n` whose keys are in `keys`. */
  ghost function ChildCandidates<H>(n: Node<H>, keys: set<string>, r: seq<string>, params: Params, decode: string -> string): set<Found<H>>
    decreases n, 0
  {
    set k, c | k in keys && k in n.children && c in Candidates(n.children[k], k, r, params, decode) :: c
  }

  lemma ChildCandidatesAdd<H>(n: Node<H>, keys: set<string>, k: string, r: seq<string>, params: Params, decode: string -> string)
    requires k in n.children
    ensures ChildCandidates(n, keys + {k}, r, params, decode)
         == ChildCandidates(n, keys, r, params, decode) + Candidates(n.children[k], k, r, params, decode)
  {
  }

  /** `best` is what a search call with threshold `last` returns for the
      candidates `s`: nothing when no candidate beats `last`, otherwise a
      candidate that beats `last` and has the greatest index of all. */
  ghost predicate IsBest<H>(best: Option<Found<H>>, s: set<Found<H>>, last: int)
  {
    && (best.None? <==> forall c :: c in s ==> c.index <= last)
    && (best.Some? ==> best.value in s && best.value.index > last &&
                       forall c :: c in s ==> c.index <= best.value.index)
  }

  /** Searching a second group of candidates with the threshold raised by the
      first group's result gives the result for both groups together. */
  lemma BestOfUnion<H>(b1: Option<Found<H>>, s1: set<Found<H>>, last: int, b2: Option<Found<H>>, s2: set<Found<H>>)
    requires IsBest(b1, s1, last)
    requires IsBest(b2, s2, if b1.Some? then b1.value.index else last)
    ensures IsBest(if b2.Some? then b2 else b1, s1 + s2, last)
  {
  }

  /** Every candidate of a call is a matching route below it, with the
      parameters bound along its path. */
  ghost predicate Reaches<H>(n: Node<H>, seg: string, r: seq<string>, params: Params, decode: string -> string, p: seq<string>, c: Found<H>)
  {
    && |r| == |p| + 1
    && SegmentMatches(seg, r[0])
    && Matches(n, p, r[1..])
    && c == Found(RouteAt(n, p).value.index, RouteAt(n, p).value.handler,
                  BindAll(Bind(params, seg, r[0], decode), p, r[1..], decode))
  }

  lemma {:induction false} CandidateIsReached<H>(n: Node<H>, seg: string, r: seq<string>, params: Params, decode: string -> string, c: Found<H>)
    requires c in Candidates(n, seg, r, params, decode)
    ensures exists p :: Reaches(n, seg, r, params, decode, p, c)
    decreases n
  {
    var bound := Bind(params, seg, r[0], decode);
    if c in Own(n, |r| == 1, bound) {
      assert Reaches(n, seg, r, params, decode, [], c);
    } else {
      var k :| k in n.children && c in Candidates(n.children[k], k, r[1..], bound, decode);
      var child := n.children[k];
      CandidateIsReached(child, k, r[1..], bound, decode, c);
      var p' :| Reaches(child, k, r[1..], bound, decode, p', c);
      var p := [k] + p';
      assert p[1..] == p';
      assert r[1..][1..] == r[2..];
      assert RouteAt(n, p) == RouteAt(child, p');
      assert PatternMatches(p, r[1..]) by {
        forall j | 0 <= j < |p| ensures SegmentMatches(p[j], r[1..][j]) {
          if j > 0 {
            assert p[j] == p'[j - 1] && r[1..][j] == r[1..][1..][j - 1];
          }
        }
      }
      assert Reaches(n, seg, r, params, decode, p, c);
    }
  }

  lemma {:induction false} ReachedIsCandidate<H>(n: Node<H>, seg: string, r: seq<string>, params: Params, decode: string -> string, p: seq<string>, c: Found<H>)
    requires Reaches(n, seg, r, params, decode, p, c)
    ensures c in Candidates(n, seg, r, params, decode)
    decreases p
  {
    var bound := Bind(params, seg, r[0], decode);
    if p == [] {
      assert c in Own(n, |r| == 1, bound);
    } else {
      var k := p[0];
      var child := n.children[k];
      assert r[1..][1..] == r[2..];
      assert PatternMatches(p[1..], r[2..]) by {
        forall j | 0 <= j < |p[1..]| ensures SegmentMatches(p[1..][j], r[2..][j]) {
          assert p[1..][j] == p[j + 1] && r[2..][j] == r[1..][j + 1];
        }
      }
      assert SegmentMatches(k, r[1..][0]);
      assert Reaches(child, k, r[1..], bound, decode, p[1..], c);
      ReachedIsCandidate(child, k, r[1..], bound, decode, p[1..], c);
      assert c in ChildCandidates(n, n.children.Keys, r[1..], bound, decode);
    }
  }

  /** The candidates of the search started at the root with URL segments `w`
      are exactly the routes whose pattern matches `w`, each with the
      parameters bound along its pattern. */
  lemma CandidatesAtRoot<H>(root: Node<H>, w: seq<string>, decode: string -> string, c: Found<H>)
    ensures c in Candidates(root, "", [""] + w, map[], decode) <==>
      exists p :: Matches(root, p, w) &&
        c == Found(RouteAt(root, p).value.index, RouteAt(root, p).value.handler, BindAll(map[], p, w, decode))
  {
    var r := [""] + w;
    assert r[1..] == w;
    if c in Candidates(root, "", r, map[], decode) {
      CandidateIsReached(root, "", r, map[], decode, c);
    }
    if exists p :: Matches(root, p, w) &&
        c == Found(RouteAt(root, p).value.index, RouteAt(root, p).value.handler, BindAll(map[], p, w, decode)) {
      var p :| Matches(root, p, w) &&
        c == Found(RouteAt(root, p).value.index, RouteAt(root, p).value.handler, BindAll(map[], p, w, decode));
      ReachedIsCandidate(root, "", r, map[], decode, p, c);
    }
  }

  // ---------------------------------------------------------------------
  // The search itself

  /** `cloneParameters`: a fresh dictionary with the same entries. */
  method CloneParameters(params: Params) returns (copy: Params)
    ensures copy == params
  {
    copy := map[];
    var pending := params.Keys;
    while pending != {}
      invariant pending <= params.Keys
      invariant copy.Keys == params.Keys - pending
      invariant forall x :: x in copy ==> copy[x] == params[x]
      decreases pending
    {
      var x :| x in pending;
      copy := copy[x := params[x]];
      pending := pending - {x};
    }
    assert copy.Keys == params.Keys;
  }

  /** One search call in terms of the URL token `u[j]` it matches: no
      candidate unless the segment matches, otherwise the route on the node
      (when `u[j]` is the last token) and the candidates of all children. */
  lemma CandidatesAtToken<H>(node: Node<H>, seg: string, u: seq<string>, i: nat, j: nat, params: Params, decode: string -> string)
    requires Normalized(u) && i <= j < |u|
    requires j == 0 || u[j] != ""
    requires Words(u, j) == Words(u, i)
    ensures Candidates(node, seg, Words(u, i), params, decode) ==
      if SegmentMatches(seg, u[j]) then
        Own(node, j == |u| - 1, Bind(params, seg, u[j], decode))
          + ChildCandidates(node, node.children.Keys, Words(u, j + 1), Bind(params, seg, u[j], decode), decode)
      else {}
  {
    WordsStep(u, j);
    WordsEnd(u, j);
    var r := Words(u, i);
    assert r[0] == u[j] && r[1..] == Words(u, j + 1);
  }

  /** The route on the node itself is the best candidate so far exactly when
      the URL ends here and its index beats the threshold. */
  lemma OwnBest<H>(node: Node<H>, atEnd: bool, params: Params, last: int)
    ensures IsBest(if atEnd && node.route.Some? && node.route.value.index > last
                   then Some(Found(node.route.value.index, node.route.value.handler, params)) else None,
                   Own(node, atEnd, params), last)
  {
  }

  /** One turn of the loop over the children: the best candidate among the
      children visited so far, followed by the search of child `k` with the
      threshold raised to it, gives the best candidate once `k` is visited. */
  lemma ChildStep<H>(node: Node<H>, pending: set<string>, k: string, r: seq<string>, bound: Params, decode: string -> string,
                     own: set<Found<H>>, last: int, best: Option<Found<H>>, childBest: Option<Found<H>>)
    requires k in pending && pending <= node.children.Keys
    requires IsBest(best, own + ChildCandidates(node, node.children.Keys - pending, r, bound, decode), last)
    requires IsBest(childBest, Candidates(node.children[k], k, r, bound, decode), if best.Some? then best.value.index else last)
    ensures IsBest(if childBest.Some? then childBest else best,
                   own + ChildCandidates(node, node.children.Keys - (pending - {k}), r, bound, decode), last)
  {
    var done := node.children.Keys - pending;
    ChildCandidatesAdd(node, done, k, r, bound, decode);
    assert node.children.Keys - (pending - {k}) == done + {k};
    BestOfUnion(best, own + ChildCandidates(node, done, r, bound, decode), last,
                childBest, Candidates(node.children[k], k, r, bound, decode));
  }

  /** `_findRouteIterate`: matches `node`, reached over pattern segment
      `seg`, against the URL tokens from index `i` on, then searches every
      child. It returns the best candidate whose index beats `last`. */
  method FindRouteIterate<H>(node: Node<H>, seg: string, u: seq<string>, i: nat, last: int, params: Params, decode: string -> string)
      returns (result: Option<Found<H>>)
    requires Normalized(u) && i <= |u|
    ensures IsBest(result, Candidates(node, seg, Words(u, i), params, decode), last)
    decreases node, 1
  {
    // find the next non-empty URL token (the root token excepted)
    var j := i;
    while j < |u| && j != 0 && u[j] == ""
      invariant i <= j <= |u|
      invariant i == 0 ==> j == 0
      invariant Words(u, j) == Words(u, i)
      decreases |u| - j
    {
      WordsSkip(u, j);
      j := j + 1;
    }
    if j >= |u| {
      return None;
    }
    CandidatesAtToken(node, seg, u, i, j, params, decode);

    var lastMatch := last;
    var bound := params;
    result := None;
    if IsParam(seg) {
      bound := CloneParameters(params);
      bound := bound[decode(seg[1..]) := decode(u[j])];
      if j == |u| - 1 && node.route.Some? && node.route.value.index > lastMatch {
        result := Some(Found(node.route.value.index, node.route.value.handler, bound));
        lastMatch := node.route.value.index;
      }
    } else if seg == u[j] {
      if j == |u| - 1 && node.route.Some? && node.route.value.index > lastMatch {
        result := Some(Found(node.route.value.index, node.route.value.handler, bound));
        lastMatch := node.route.value.index;
      }
    } else {
      return None;
    }
    OwnBest(node, j == |u| - 1, bound, last);
    result := VisitChildren(node, u, j + 1, lastMatch, bound, decode, Own(node, j == |u| - 1, bound), last, result);
  }

  /** The loop over the children at the end of `_findRouteIterate`: searches
      every child with the URL tokens from index `i` on, raising the threshold
      to the index of each route found. Children are visited in no particular
      order. `own` and `result0` are what the node itself contributed, and
      `last0` the threshold the node was searched with. */
  method VisitChildren<H>(node: Node<H>, u: seq<string>, i: nat, lastMatch0: int, bound: Params, decode: string -> string,
                          ghost own: set<Found<H>>, ghost last0: int, result0: Option<Found<H>>)
      returns (result: Option<Found<H>>)
    requires Normalized(u) && i <= |u|
    requires IsBest(result0, own, last0)
    requires lastMatch0 == if result0.Some? then result0.value.index else last0
    ensures IsBest(result, own + ChildCandidates(node, node.children.Keys, Words(u, i), bound, decode), last0)
    decreases node, 0
  {
    result := result0;
    var lastMatch := lastMatch0;
    var pending := node.children.Keys;
    while pending != {}
      invariant pending <= node.children.Keys
      invariant IsBest(result, own + ChildCandidates(node, node.children.Keys - pending, Words(u, i), bound, decode), last0)
      invariant lastMatch == if result.Some? then result.value.index else last0
      decreases pending
    {
      var k :| k in pending;
      var childResult := FindRouteIterate(node.children[k], k, u, i, lastMatch, bound, decode);
      ChildStep(node, pending, k, Words(u, i), bound, decode, own, last0, result, childResult);
      if childResult.Some? {
        result := childResult;
        lastMatch := childResult.value.index;
      }
      pending := pending - {k};
    }
    assert node.children.Keys - pending == node.children.Keys;
  }
}
