/**
 * `SimpleUrlRouter`: a route counter and a segment trie, filled by
 * `addRoute` and searched by `findRoute`.
 *
 * `Register` below is the meaning of `addRoute` on the router's state
 * (`Registry`); the class method is proved to compute it, and the lemmas at
 * the end state what it guarantees: the fresh index, the overwrite of an
 * identical path, only the nodes on the path being touched, list and
 * object specifications, and the `'Invalid data'` error.
 */
module Router {
  import opened Segments
  import opened Trie
  import opened Search

  /** One own property `key: spec` of an object specification. */
  datatype Entry<H> = Entry(key: string, spec: Spec<H>)

  /** The `data` argument of `addRoute`: a route function, an array of
      specifications for the same path, an object whose properties name
      sub-paths, or anything else, which is rejected. */
  datatype Spec<H> =
    | Handler(handler: H)
    | List(items: seq<Spec<H>>)
    | Group(entries: seq<Entry<H>>)
    | Invalid

  /** How `addRoute` ends: normally, or by throwing `Error('Invalid data')`. */
  datatype Outcome = Done | InvalidData

  /** The router's state: `rootPath` (absent until the first route) and
      `routeCount`. */
  datatype Registry<H> = Registry(root: Option<Node<H>>, routeCount: nat)

  datatype Registration<H> = Registration(registry: Registry<H>, outcome: Outcome)

  /** What a lookup returns: `{callback, parameters}`. */
  datatype Match<H> = Match(callback: H, parameters: Params)

  /** The trie to search: an absent root is a trie without routes. */
  function Tree<H>(root: Option<Node<H>>): Node<H>
  {
    if root.Some? then root.value else Empty()
  }

  /** Registering one route function at `path`. */
  function RegisterHandler<H>(reg: Registry<H>, path: string, h: H): Registry<H>
  {
    Registry(Some(Insert(Tree(reg.root), PathKeys(path), Route(reg.routeCount, h))), reg.routeCount + 1)
  }

  /** `addRoute(path, spec)` on the state `reg`. An array registers its items
      in order at `path`; an object registers each property at
      `path + '/' + key`; the first rejected specification ends the whole
      call, keeping what was registered before it. */
  function Register<H>(reg: Registry<H>, path: string, spec: Spec<H>): (r: Registration<H>)
    ensures r.registry.routeCount >= reg.routeCount
    ensures spec.Invalid? ==> r.outcome.InvalidData? && r.registry == reg
    decreases spec
  {
    match spec
    case Handler(h) => Registration(RegisterHandler(reg, path, h), Done)
    case List(items) => RegisterList(reg, path, items)
    case Group(entries) => RegisterGroup(reg, path, entries)
    case Invalid => Registration(reg, InvalidData)
  }

  function RegisterList<H>(reg: Registry<H>, path: string, items: seq<Spec<H>>): (r: Registration<H>)
    ensures r.registry.routeCount >= reg.routeCount
    decreases items
  {
    if items == [] then Registration(reg, Done)
    else
      var first := Register(reg, path, items[0]);
      if first.outcome.InvalidData? then first else RegisterList(first.registry, path, items[1..])
  }

  function RegisterGroup<H>(reg: Registry<H>, path: string, entries: seq<Entry<H>>): (r: Registration<H>)
    ensures r.registry.routeCount >= reg.routeCount
    decreases entries
  {
    if entries == [] then Registration(reg, Done)
    else
      var first := Register(reg, path + "/" + entries[0].key, entries[0].spec);
      if first.outcome.InvalidData? then first else RegisterGroup(first.registry, path, entries[1..])
  }

  /** The router's invariant: indices below the counter and pairwise
      distinct. */
  ghost predicate WellFormed<H>(reg: Registry<H>)
  {
    WellNumbered(Tree(reg.root), reg.routeCount)
  }

  /** Registering a route function keeps the invariant. */
  lemma RegisterHandlerKeepsWellFormed<H>(reg: Registry<H>, path: string, h: H)
    requires WellFormed(reg)
    ensures WellFormed(RegisterHandler(reg, path, h))
  {
    InsertKeepsWellNumbered(Tree(reg.root), reg.routeCount, PathKeys(path), h);
  }

  /** The number of route functions in a specification. */
  function Handlers<H>(spec: Spec<H>): nat
    decreases spec
  {
    match spec
    case Handler(_) => 1
    case List(items) => ListHandlers(items)
    case Group(entries) => GroupHandlers(entries)
    case Invalid => 0
  }

  function ListHandlers<H>(items: seq<Spec<H>>): nat
    decreases items
  {
    if items == [] then 0 else Handlers(items[0]) + ListHandlers(items[1..])
  }

  function GroupHandlers<H>(entries: seq<Entry<H>>): nat
    decreases entries
  {
    if entries == [] then 0 else Handlers(entries[0].spec) + GroupHandlers(entries[1..])
  }

  /** Whether a specification holds something that is neither a route
      function, an array nor an object, anywhere inside it. */
  function HasInvalid<H>(spec: Spec<H>): bool
    decreases spec
  {
    match spec
    case Handler(_) => false
    case List(items) => ListHasInvalid(items)
    case Group(entries) => GroupHasInvalid(entries)
    case Invalid => true
  }

  function ListHasInvalid<H>(items: seq<Spec<H>>): bool
    decreases items
  {
    items != [] && (HasInvalid(items[0]) || ListHasInvalid(items[1..]))
  }

  function GroupHasInvalid<H>(entries: seq<Entry<H>>): bool
    decreases entries
  {
    entries != [] && (HasInvalid(entries[0].spec) || GroupHasInvalid(entries[1..]))
  }

  /** `after` keeps everything `before` had: the counter does not go back,
      every node is still there and every node with a route still has one. */
  ghost predicate Extends<H>(before: Registry<H>, after: Registry<H>)
  {
    && before.routeCount <= after.routeCount
    && (forall q :: HasNode(Tree(before.root), q) ==> HasNode(Tree(after.root), q))
    && (forall q :: RouteAt(Tree(before.root), q).Some? ==> RouteAt(Tree(after.root), q).Some?)
  }

  // ---------------------------------------------------------------------
  // The router object

  class SimpleUrlRouter<H> {
    var routeCount: nat
    var rootPath: Option<Node<H>>

    ghost predicate Valid()
      reads this
    {
      WellFormed(State())
    }

    function State(): Registry<H>
      reads this
    {
      Registry(rootPath, routeCount)
    }

    constructor ()
      ensures Valid()
      ensures routeCount == 0 && rootPath.None?
    {
      routeCount := 0;
      rootPath := None;
      new;
      EmptyIsWellNumbered<H>(0);
    }

    /** `addRoute(path, data)`. */
    method AddRoute(path: string, data: Spec<H>) returns (outcome: Outcome)
      requires Valid()
      modifies this
      ensures Valid()
      ensures Registration(State(), outcome) == Register(old(State()), path, data)
      decreases data
    {
      outcome := Done;
      match data
      case List(items) =>
        var dataIndex := 0;
        while dataIndex < |items|
          invariant 0 <= dataIndex <= |items|
          invariant outcome == Done && Valid()
          invariant Register(old(State()), path, data) == RegisterList(State(), path, items[dataIndex..])
        {
          assert items[dataIndex..][0] == items[dataIndex];
          assert items[dataIndex..][1..] == items[dataIndex + 1..];
          outcome := AddRoute(path, items[dataIndex]);
          if outcome.InvalidData? {
            return;
          }
          dataIndex := dataIndex + 1;
        }
        assert items[dataIndex..] == [];
      case Handler(h) =>
        AddHandler(path, h);
        RegisterHandlerKeepsWellFormed(old(State()), path, h);
      case Group(entries) =>
        var entryIndex := 0;
        while entryIndex < |entries|
          invariant 0 <= entryIndex <= |entries|
          invariant outcome == Done && Valid()
          invariant Register(old(State()), path, data) == RegisterGroup(State(), path, entries[entryIndex..])
        {
          assert entries[entryIndex..][0] == entries[entryIndex];
          assert entries[entryIndex..][1..] == entries[entryIndex + 1..];
          outcome := AddRoute(path + "/" + entries[entryIndex].key, entries[entryIndex].spec);
          if outcome.InvalidData? {
            return;
          }
          entryIndex := entryIndex + 1;
        }
        assert entries[entryIndex..] == [];
      case Invalid =>
        outcome := InvalidData;
        assert State() == old(State());
    }

    /** The route-function branch of `addRoute`: splits `path`, makes it
        absolute, walks the non-empty segments from the root creating the
        missing nodes, and stamps the last node with the counter's value and
        `h`. */
    method AddHandler(path: string, h: H)
      modifies this
      ensures State() == RegisterHandler(old(State()), path, h)
    {
      var pathSegments := Split(path);
      var pathSegmentCount := |pathSegments|;
      // insert the root token, if not there
      if pathSegmentCount == 0 || |pathSegments[0]| > 0 {
        pathSegments := [""] + pathSegments;
        pathSegmentCount := pathSegmentCount + 1;
      }
      RootedKeys(path, pathSegments);
      var keys: seq<string> := [];
      var pathSegmentIndex := 0;
      while pathSegmentIndex < pathSegmentCount
        invariant 0 <= pathSegmentIndex <= pathSegmentCount == |pathSegments|
        invariant pathSegmentIndex == 0 ==> keys == []
        invariant pathSegmentIndex > 0 ==> rootPath.Some? && keys == NonEmptySegments(pathSegments[1..pathSegmentIndex])
        invariant Tree(rootPath) == Tree(old(rootPath)) && routeCount == old(routeCount)
      {
        var pathSegment := pathSegments[pathSegmentIndex];
        if pathSegmentIndex == 0 {
          // the root segment
          if rootPath.None? {
            rootPath := Some(Empty());
          }
          assert pathSegments[1..1] == [];
        } else if |pathSegment| > 0 {
          // a subsequent, non-empty segment
          KeysStep(pathSegments, pathSegmentIndex);
          keys := keys + [pathSegment];
        } else {
          // an empty segment, e.g. from a doubled slash: ignored
          KeysStep(pathSegments, pathSegmentIndex);
        }
        pathSegmentIndex := pathSegmentIndex + 1;
      }
      assert pathSegments[1..pathSegmentIndex] == pathSegments[1..];
      assert keys == PathKeys(path);
      rootPath := Some(Insert(rootPath.value, keys, Route(routeCount, h)));
      routeCount := routeCount + 1;
      assert State() == RegisterHandler(old(State()), path, h);
    }

    /** `findRoute(urlPath)`: the route function and parameters of the
        matching route with the greatest index, or nothing. Percent-decoding
        is `decode`. */
    method FindRoute(urlPath: string, decode: string -> string) returns (result: Option<Match<H>>)
      ensures result.None? <==> forall p :: !Matches(Tree(rootPath), p, PathKeys(urlPath))
      ensures result.Some? ==> exists p ::
        && IsWinner(Tree(rootPath), p, PathKeys(urlPath))
        && result.value == Match(RouteAt(Tree(rootPath), p).value.handler, BindAll(map[], p, PathKeys(urlPath), decode))
    {
      var urlPathSegments := Split(urlPath);
      var urlPathSegmentCount := |urlPathSegments|;
      // insert the root token, if not there
      if urlPathSegmentCount == 0 || |urlPathSegments[0]| > 0 {
        urlPathSegments := [""] + urlPathSegments;
        urlPathSegmentCount := urlPathSegmentCount + 1;
      }
      RootedKeys(urlPath, urlPathSegments);
      // drop trailing empty tokens (except the root)
      while urlPathSegmentCount > 1 && |urlPathSegments[urlPathSegmentCount - 1]| == 0
        invariant 1 <= urlPathSegmentCount == |urlPathSegments|
        invariant urlPathSegments[0] == ""
        invariant NonEmptySegments(urlPathSegments[1..]) == PathKeys(urlPath)
      {
        var shorter := urlPathSegments[..urlPathSegmentCount - 1];
        assert urlPathSegments[1..] == shorter[1..] + [urlPathSegments[urlPathSegmentCount - 1]];
        NonEmptyAppend(shorter[1..], [urlPathSegments[urlPathSegmentCount - 1]]);
        urlPathSegments := shorter;
        urlPathSegmentCount := urlPathSegmentCount - 1;
      }
      ghost var w := PathKeys(urlPath);
      assert Words(urlPathSegments, 0) == [""] + w;

      if rootPath.None? {
        forall p ensures !Matches(Tree(rootPath), p, w) {
          EmptyHasNoRoutes<H>(p);
        }
        return None;
      }
      var found := FindRouteIterate(rootPath.value, "", urlPathSegments, 0, -1, map[], decode);
      SearchFromRoot(rootPath.value, w, decode, found);
      assert Tree(rootPath) == rootPath.value;
      if found.Some? {
        result := Some(Match(found.value.handler, found.value.params));
        ghost var p :| IsWinner(rootPath.value, p, w) &&
          found.value == Found(RouteAt(rootPath.value, p).value.index, RouteAt(rootPath.value, p).value.handler, BindAll(map[], p, w, decode));
        assert Matches(rootPath.value, p, w);
      } else {
        result := None;
      }
    }
  }

  /** Walking one more token extends the keys by that token when it is not
      empty. */
  lemma KeysStep(ps: seq<string>, i: nat)
    requires 1 <= i < |ps|
    ensures NonEmptySegments(ps[1..i + 1]) == NonEmptySegments(ps[1..i]) + (if ps[i] == "" then [] else [ps[i]])
  {
    assert ps[1..i + 1] == ps[1..i] + [ps[i]];
    NonEmptyAppend(ps[1..i], [ps[i]]);
  }

  /** Putting the root token in front of a path that does not start with `/`
      leaves its keys unchanged: they are the non-empty tokens after the
      root. */
  lemma RootedKeys(path: string, tokens: seq<string>)
    requires tokens == if |Split(path)[0]| > 0 then [""] + Split(path) else Split(path)
    ensures |tokens| >= 1 && tokens[0] == ""
    ensures NonEmptySegments(tokens[1..]) == PathKeys(path)
  {
    var split := Split(path);
    if |split[0]| > 0 {
      assert tokens[1..] == split;
    } else {
      assert split == [split[0]] + split[1..];
    }
  }

  /** What the search started at the root returns: nothing exactly when no
      route matches, and otherwise the matching route of greatest index with
      the parameters bound along its pattern. */
  lemma SearchFromRoot<H>(root: Node<H>, w: seq<string>, decode: string -> string, found: Option<Found<H>>)
    requires IsBest(found, Candidates(root, "", [""] + w, map[], decode), -1)
    ensures found.None? <==> forall p :: !Matches(root, p, w)
    ensures found.Some? ==> exists p ::
      && IsWinner(root, p, w)
      && found.value == Found(RouteAt(root, p).value.index, RouteAt(root, p).value.handler, BindAll(map[], p, w, decode))
  {
    var cands := Candidates(root, "", [""] + w, map[], decode);
    forall p | Matches(root, p, w)
      ensures Found(RouteAt(root, p).value.index, RouteAt(root, p).value.handler, BindAll(map[], p, w, decode)) in cands
    {
      CandidatesAtRoot(root, w, decode, Found(RouteAt(root, p).value.index, RouteAt(root, p).value.handler, BindAll(map[], p, w, decode)));
    }
    if found.Some? {
      CandidatesAtRoot(root, w, decode, found.value);
      var p :| Matches(root, p, w) &&
        found.value == Found(RouteAt(root, p).value.index, RouteAt(root, p).value.handler, BindAll(map[], p, w, decode));
      assert IsWinner(root, p, w);
    }
  }

  // ---------------------------------------------------------------------
  // What registration guarantees

  /** A route function is stamped with the counter's current value on the
      node its path leads to, replacing any earlier route there; the counter
      moves on by one; no other node changes its route; and new nodes appear
      only along the path. */
  lemma RegisterHandlerStamps<H>(reg: Registry<H>, path: string, h: H, q: seq<string>)
    ensures RegisterHandler(reg, path, h).routeCount == reg.routeCount + 1
    ensures RouteAt(Tree(RegisterHandler(reg, path, h).root), q) ==
      if q == PathKeys(path) then Some(Route(reg.routeCount, h)) else RouteAt(Tree(reg.root), q)
    ensures HasNode(Tree(RegisterHandler(reg, path, h).root), q) <==> HasNode(Tree(reg.root), q) || q <= PathKeys(path)
  {
    InsertRouteAt(Tree(reg.root), PathKeys(path), Route(reg.routeCount, h), q);
    InsertHasNode(Tree(reg.root), PathKeys(path), Route(reg.routeCount, h), q);
  }

  /** The route registered last has the greatest index, so it wins every URL
      its pattern matches, and nothing else does. */
  lemma LatestRouteWins<H>(reg: Registry<H>, path: string, h: H, w: seq<string>)
    requires WellFormed(reg)
    requires PatternMatches(PathKeys(path), w)
    ensures IsWinner(Tree(RegisterHandler(reg, path, h).root), PathKeys(path), w)
    ensures forall q :: IsWinner(Tree(RegisterHandler(reg, path, h).root), q, w) ==> q == PathKeys(path)
  {
    var after := RegisterHandler(reg, path, h);
    RegisterHandlerStamps(reg, path, h, PathKeys(path));
    forall q | Matches(Tree(after.root), q, w)
      ensures RouteAt(Tree(after.root), q).value.index <= reg.routeCount
    {
      RegisterHandlerStamps(reg, path, h, q);
    }
    RegisterHandlerKeepsWellFormed(reg, path, h);
    forall q | IsWinner(Tree(after.root), q, w)
      ensures q == PathKeys(path)
    {
      WinnerIsUnique(Tree(after.root), after.routeCount, w, q, PathKeys(path));
    }
  }

  /** Every registration keeps the router's invariant, whatever its
      outcome. */
  lemma {:induction false} RegisterKeepsWellFormed<H>(reg: Registry<H>, path: string, spec: Spec<H>)
    requires WellFormed(reg)
    ensures WellFormed(Register(reg, path, spec).registry)
    decreases spec
  {
    match spec
    case Handler(h) => RegisterHandlerKeepsWellFormed(reg, path, h);
    case List(items) => ListKeepsWellFormed(reg, path, items);
    case Group(entries) => GroupKeepsWellFormed(reg, path, entries);
    case Invalid =>
  }

  lemma {:induction false} ListKeepsWellFormed<H>(reg: Registry<H>, path: string, items: seq<Spec<H>>)
    requires WellFormed(reg)
    ensures WellFormed(RegisterList(reg, path, items).registry)
    decreases items
  {
    if items != [] {
      RegisterKeepsWellFormed(reg, path, items[0]);
      var first := Register(reg, path, items[0]);
      if first.outcome.Done? {
        ListKeepsWellFormed(first.registry, path, items[1..]);
      }
    }
  }

  lemma {:induction false} GroupKeepsWellFormed<H>(reg: Registry<H>, path: string, entries: seq<Entry<H>>)
    requires WellFormed(reg)
    ensures WellFormed(RegisterGroup(reg, path, entries).registry)
    decreases entries
  {
    if entries != [] {
      RegisterKeepsWellFormed(reg, path + "/" + entries[0].key, entries[0].spec);
      var first := Register(reg, path + "/" + entries[0].key, entries[0].spec);
      if first.outcome.Done? {
        GroupKeepsWellFormed(first.registry, path, entries[1..]);
      }
    }
  }

  lemma ExtendsTransitive<H>(a: Registry<H>, b: Registry<H>, c: Registry<H>)
    requires Extends(a, b) && Extends(b, c)
    ensures Extends(a, c)
  {
  }

  /** Registration only adds: no node and no route is ever removed. A
      successful call advances the counter by the number of route functions
      in the specification; a rejected one keeps what was registered before
      the rejection. */
  lemma {:induction false} RegisterExtends<H>(reg: Registry<H>, path: string, spec: Spec<H>)
    ensures Extends(reg, Register(reg, path, spec).registry)
    ensures Register(reg, path, spec).outcome.Done? ==>
      Register(reg, path, spec).registry.routeCount == reg.routeCount + Handlers(spec)
    decreases spec
  {
    match spec
    case Handler(h) =>
      forall q ensures RouteAt(Tree(RegisterHandler(reg, path, h).root), q).Some? <== RouteAt(Tree(reg.root), q).Some?
        ensures HasNode(Tree(reg.root), q) ==> HasNode(Tree(RegisterHandler(reg, path, h).root), q)
      {
        RegisterHandlerStamps(reg, path, h, q);
      }
    case List(items) => ListExtends(reg, path, items);
    case Group(entries) => GroupExtends(reg, path, entries);
    case Invalid =>
  }

  lemma {:induction false} ListExtends<H>(reg: Registry<H>, path: string, items: seq<Spec<H>>)
    ensures Extends(reg, RegisterList(reg, path, items).registry)
    ensures RegisterList(reg, path, items).outcome.Done? ==>
      RegisterList(reg, path, items).registry.routeCount == reg.routeCount + ListHandlers(items)
    decreases items
  {
    if items != [] {
      RegisterExtends(reg, path, items[0]);
      var first := Register(reg, path, items[0]);
      if first.outcome.Done? {
        ListExtends(first.registry, path, items[1..]);
        ExtendsTransitive(reg, first.registry, RegisterList(first.registry, path, items[1..]).registry);
      }
    }
  }

  lemma {:induction false} GroupExtends<H>(reg: Registry<H>, path: string, entries: seq<Entry<H>>)
    ensures Extends(reg, RegisterGroup(reg, path, entries).registry)
    ensures RegisterGroup(reg, path, entries).outcome.Done? ==>
      RegisterGroup(reg, path, entries).registry.routeCount == reg.routeCount + GroupHandlers(entries)
    decreases entries
  {
    if entries != [] {
      RegisterExtends(reg, path + "/" + entries[0].key, entries[0].spec);
      var first := Register(reg, path + "/" + entries[0].key, entries[0].spec);
      if first.outcome.Done? {
        GroupExtends(first.registry, path, entries[1..]);
        ExtendsTransitive(reg, first.registry, RegisterGroup(first.registry, path, entries[1..]).registry);
      }
    }
  }

  /** `addRoute` throws `'Invalid data'` exactly when the specification holds
      something that is neither a route function, an array nor an object. */
  lemma {:induction false} RegisterRejects<H>(reg: Registry<H>, path: string, spec: Spec<H>)
    ensures Register(reg, path, spec).outcome.InvalidData? <==> HasInvalid(spec)
    decreases spec
  {
    match spec
    case Handler(h) =>
    case List(items) => ListRejects(reg, path, items);
    case Group(entries) => GroupRejects(reg, path, entries);
    case Invalid =>
  }

  lemma {:induction false} ListRejects<H>(reg: Registry<H>, path: string, items: seq<Spec<H>>)
    ensures RegisterList(reg, path, items).outcome.InvalidData? <==> ListHasInvalid(items)
    decreases items
  {
    if items != [] {
      RegisterRejects(reg, path, items[0]);
      var first := Register(reg, path, items[0]);
      if first.outcome.Done? {
        ListRejects(first.registry, path, items[1..]);
      }
    }
  }

  lemma {:induction false} GroupRejects<H>(reg: Registry<H>, path: string, entries: seq<Entry<H>>)
    ensures RegisterGroup(reg, path, entries).outcome.InvalidData? <==> GroupHasInvalid(entries)
    decreases entries
  {
    if entries != [] {
      RegisterRejects(reg, path + "/" + entries[0].key, entries[0].spec);
      var first := Register(reg, path + "/" + entries[0].key, entries[0].spec);
      if first.outcome.Done? {
        GroupRejects(first.registry, path, entries[1..]);
      }
    }
  }

  /** An array is registered item after item: registering `a + b` is
      registering `a` and then, unless that was rejected, `b`. */
  lemma {:induction false} RegisterListAppend<H>(reg: Registry<H>, path: string, a: seq<Spec<H>>, b: seq<Spec<H>>)
    ensures RegisterList(reg, path, a + b) ==
      var first := RegisterList(reg, path, a);
      if first.outcome.InvalidData? then first else RegisterList(first.registry, path, b)
    decreases a
  {
    if a == [] {
      assert a + b == b;
    } else {
      assert (a + b)[0] == a[0];
      assert (a + b)[1..] == a[1..] + b;
      var first := Register(reg, path, a[0]);
      if first.outcome.Done? {
        RegisterListAppend(first.registry, path, a[1..], b);
      }
    }
  }

  /** A rejected item ends an array: the items before it stay registered and
      the items after it are never looked at. */
  lemma InvalidKeepsEarlier<H>(reg: Registry<H>, path: string, before: seq<Spec<H>>, after: seq<Spec<H>>)
    requires !ListHasInvalid(before)
    ensures RegisterList(reg, path, before + [Invalid] + after) ==
      Registration(RegisterList(reg, path, before).registry, InvalidData)
  {
    assert before + [Invalid] + after == before + ([Invalid] + after);
    RegisterListAppend(reg, path, before, [Invalid] + after);
    ListRejects(reg, path, before);
    assert ([Invalid] + after)[0] == Invalid;
  }

  /** Only the keys of a path matter: two paths with the same non-empty
      segments register the same routes. */
  lemma {:induction false} RegisterSamePath<H>(reg: Registry<H>, a: string, b: string, spec: Spec<H>)
    requires PathKeys(a) == PathKeys(b)
    ensures Register(reg, a, spec) == Register(reg, b, spec)
    decreases spec
  {
    match spec
    case Handler(h) =>
    case List(items) => ListSamePath(reg, a, b, items);
    case Group(entries) => GroupSamePath(reg, a, b, entries);
    case Invalid =>
  }

  lemma {:induction false} ListSamePath<H>(reg: Registry<H>, a: string, b: string, items: seq<Spec<H>>)
    requires PathKeys(a) == PathKeys(b)
    ensures RegisterList(reg, a, items) == RegisterList(reg, b, items)
    decreases items
  {
    if items != [] {
      RegisterSamePath(reg, a, b, items[0]);
      var first := Register(reg, a, items[0]);
      if first.outcome.Done? {
        ListSamePath(first.registry, a, b, items[1..]);
      }
    }
  }

  lemma {:induction false} GroupSamePath<H>(reg: Registry<H>, a: string, b: string, entries: seq<Entry<H>>)
    requires PathKeys(a) == PathKeys(b)
    ensures RegisterGroup(reg, a, entries) == RegisterGroup(reg, b, entries)
    decreases entries
  {
    if entries != [] {
      var k := entries[0].key;
      PathKeysAround(a, k);
      PathKeysAround(b, k);
      RegisterSamePath(reg, a + "/" + k, b + "/" + k, entries[0].spec);
      var first := Register(reg, a + "/" + k, entries[0].spec);
      if first.outcome.Done? {
        GroupSamePath(first.registry, a, b, entries[1..]);
      }
    }
  }

  /** Nesting objects is the same as writing the joined path: the property
      `k` of an object registered at `path` is registered at any path whose
      keys are those of `path` followed by those of `k`. */
  lemma NestedKeyJoinsPath<H>(reg: Registry<H>, path: string, k: string, spec: Spec<H>, joined: string)
    requires PathKeys(joined) == PathKeys(path) + PathKeys(k)
    ensures Register(reg, path, Group([Entry(k, spec)])) == Register(reg, joined, spec)
  {
    var entries := [Entry(k, spec)];
    assert entries[0].key == k && entries[0].spec == spec && entries[1..] == [];
    var first := Register(reg, path + "/" + k, spec);
    assert RegisterGroup(reg, path, entries) == first;
    PathKeysAround(path, k);
    RegisterSamePath(reg, path + "/" + k, joined, spec);
  }
}
