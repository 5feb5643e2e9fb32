# SimpleUrlRouter in Dafny

A model of `SimpleUrlRouter`. The router maps `/`-separated route patterns to
opaque route functions. A pattern is made of literal segments and `:name`
parameter segments.

- `addRoute(path, data)` stores routes in a segment trie. Each new route is
  stamped with the value of a counter, `routeCount`, which then goes up by one.
  `data` can be a route function, an array of specifications for the same path,
  or an object whose properties name sub-paths. Anything else raises
  `Error('Invalid data')`.
- `findRoute(urlPath)` searches, depth first, every branch whose segments
  match the URL. Among the routes
  whose pattern matches every URL segment, it returns the route function of the
  one with the greatest index, together with the parameters bound along that
  route's path.

The project has four modules:

- `Segments` (`segments.dfy`) splits on `/` and defines the key list of a path
  (`PathKeys`). The key list is the only part of a path that registration and
  lookup depend on.
- `Trie` (`trie.dfy`) holds the trie as a value (`Node`), with insertion and
  the invariant on indices.
- `Search` (`search.dfy`) holds `_findRouteIterate` and `cloneParameters`. They
  are proved against a declarative meaning of a lookup: `Candidates` for one
  search call, and `Matches`/`IsWinner`/`BindAll` for the whole URL.
- `Router` (`router.dfy`) holds the class `SimpleUrlRouter`, whose fields are
  `routeCount` and `rootPath`. It also holds `Register`, the meaning of
  `addRoute` on the router's state, and the lemmas about registration.

Percent-decoding (`decodeURIComponent`) is a function parameter, `decode`, of
`FindRoute` and of the search.

## Model

| member | source | states |
|---|---|---|
| Segments.Split | index.js:22 | `split("/")` gives at least one piece, and no piece contains `/`. |
| Segments.JoinSplit | index.js:22 | Splitting on `/` loses nothing: joining the pieces with `/` gives back the original string. |
| Segments.SplitJoin | index.js:22 | Pieces without `/`, joined and split again, give back the same pieces. |
| Segments.SplitAround | index.js:22 | Splitting `a + "/" + b` gives the pieces of `a` followed by the pieces of `b`. |
| Segments.NonEmptyAppend | index.js:47-49 | Dropping empty segments distributes over concatenation. |
| Segments.PathKeysAround | index.js:72 | The keys of `path + '/' + key` are the keys of `path` followed by the keys of `key`. |
| Segments.SlashesCollapse | index.js:25-29 | A leading `/` is optional, a trailing `/` is ignored and `//` acts as `/`, so `a/b`, `/a/b` and `/a//b/` give the same keys. `/` and the empty path both stand for the root. |
| Trie.Insert | index.js:31-66 | After the walk, a node exists at the path and carries the new route. The root's own route is kept unless the path is the root. |
| Trie.InsertRouteAt | index.js:31-66 | Inserting changes the route of exactly one node, the one at the path. Every other node keeps its route. |
| Trie.InsertHasNode | index.js:51-58 | After inserting, a node exists exactly where one existed before or where the path passes. Nodes are created only along the path. |
| Trie.InsertKeepsWellNumbered | index.js:65 | Stamping the counter's current value and then incrementing the counter keeps every index below the counter and no two nodes sharing an index. |
| Trie.EmptyIsWellNumbered | index.js:4-5 | The empty trie satisfies the index invariant for any counter. |
| Search.Bind | index.js:119-123 | A parameter segment binds its decoded name to the decoded URL segment, overwriting an earlier binding of that name. A literal segment binds nothing. No other name changes. |
| Search.BindAllBindings | index.js:119-123 | Along a whole pattern, the names added are exactly the decoded names of its parameter segments. Each name is bound to the decoded URL segment at its last occurrence. Earlier bindings of other names are kept. |
| Search.WinnerIsUnique | index.js:124-147 | With distinct indices there is at most one matching route of greatest index, so the result does not depend on the order in which children are visited. |
| Search.WordsEnd | index.js:90-94 | In a normalised token list, a token is the last one exactly when no non-empty token follows it. |
| Search.CandidateIsReached | index.js:102-153 | Everything one search call can return is a route below the node whose pattern matches the remaining URL segments, with the parameters bound along its path. |
| Search.ReachedIsCandidate | index.js:102-153 | Every such route is among what the search call can return. |
| Search.CandidatesAtRoot | index.js:96 | The search started at the root can return exactly the routes whose pattern matches the URL, each with the parameters of its path. |
| Search.BestOfUnion | index.js:141-150 | Searching a second group of candidates with the threshold raised by the first group's result gives the best result for both groups together. |
| Search.CloneParameters | index.js:155-164 | The copy has the same names, each bound to the same values. |
| Search.CandidatesAtToken | index.js:106-138 | One search call is decided by the URL token it consumes. If the node's segment does not match, there is no candidate. Otherwise the candidates are the node's own route (when the URL ends there) plus the candidates of every child. |
| Search.OwnBest | index.js:124-134 | A node's own route is returned exactly when the URL ends at it, it has a route, and its index beats the threshold. |
| Search.ChildStep | index.js:141-150 | One turn of the children loop keeps "best candidate among the children visited so far". |
| Search.FindRouteIterate | index.js:102-153 | Returns nothing when no candidate's index beats the threshold. Otherwise it returns a candidate that beats the threshold and has the greatest index of all candidates. |
| Search.VisitChildren | index.js:140-152 | Visits the children in any order and returns the best of the node's own result and every child's candidates, measured against the node's threshold. |
| Router.Register | index.js:12-78 | The meaning of `addRoute` on the router's state. The counter never goes back, and anything that is not a route function, an array or an object is rejected with the state unchanged. |
| Router.RegisterHandlerKeepsWellFormed | index.js:65-66 | Registering a route function keeps indices below the counter and pairwise distinct. |
| Router.SimpleUrlRouter.constructor | index.js:3-6 | A new router has counter 0 and no root, and satisfies the invariant. |
| Router.SimpleUrlRouter.AddRoute | index.js:12-78 | The new state and the outcome are those of `Register` on the old state. The invariant is kept. |
| Router.SimpleUrlRouter.AddHandler | index.js:21-67 | Splits, roots and walks the path, creating the root and any missing nodes. It stamps the final node with the counter's value and the route function, then increments the counter. The result is exactly `RegisterHandler` on the old state. |
| Router.SimpleUrlRouter.FindRoute | index.js:80-100 | Returns nothing exactly when no route's pattern matches the URL's keys. Otherwise it returns the route function of the matching route with the greatest index, and exactly the parameters bound along that route's pattern. |
| Router.KeysStep | index.js:45-49 | The loop over path tokens adds each non-empty token to the key list and skips each empty one. |
| Router.RootedKeys | index.js:25-29 | Putting the root token in front does not change the keys. |
| Router.SearchFromRoot | index.js:96-99 | The search's best candidate from the root is nothing when no route matches. Otherwise it is the greatest-index matching route with its parameters. |
| Router.RegisterHandlerStamps | index.js:65-66 | The node at the path gets the old counter value and the route function, overwriting an earlier route there. The counter goes up by exactly one. No other node changes its route, and new nodes appear only along the path. |
| Router.LatestRouteWins | index.js:124-150 | The most recently registered route wins every URL its pattern matches, and no other route does. |
| Router.RegisterKeepsWellFormed | index.js:12-78 | Every `addRoute`, whatever its outcome, keeps the index invariant. |
| Router.ListKeepsWellFormed | index.js:14-16 | The same for the items of an array. |
| Router.GroupKeepsWellFormed | index.js:69-73 | The same for the properties of an object. |
| Router.RegisterExtends | index.js:12-78 | Registration only adds: nodes and routes never disappear and the counter never goes back. A successful call advances the counter by the number of route functions in the specification. |
| Router.ListExtends | index.js:14-16 | The same for an array, counting the route functions of all its items. |
| Router.GroupExtends | index.js:69-73 | The same for an object, counting the route functions of all its properties. |
| Router.RegisterRejects | index.js:75-76 | `addRoute` ends with `'Invalid data'` exactly when the specification holds, at any depth, something that is not a route function, an array or an object. |
| Router.ListRejects | index.js:14-16 | The same for an array. |
| Router.GroupRejects | index.js:69-73 | The same for an object. |
| Router.RegisterListAppend | index.js:14-16 | An array is registered item by item: registering `a + b` means registering `a` and then, unless `a` was rejected, `b`. |
| Router.InvalidKeepsEarlier | index.js:14-76 | An invalid item ends an array's registration. The items before it stay registered and the items after it are never looked at. |
| Router.RegisterSamePath | index.js:12-78 | Two paths with the same non-empty segments register identically, for every specification. |
| Router.ListSamePath | index.js:14-16 | The same for an array. |
| Router.GroupSamePath | index.js:69-73 | The same for an object, because appending a key keeps equal key lists equal. |
| Router.NestedKeyJoinsPath | index.js:69-73 | The property `k` of an object registered at `path` is registered as if at any path whose keys are those of `path` followed by those of `k`. |

## Left out

- `decodeURIComponent` is the function parameter `decode`. Its UTF-8 percent-decoding is not modelled, and neither is the `URIError` it throws on a malformed escape, which would make `findRoute` throw.
- The children of a node are a `map<string, Node>`. JavaScript's `in` at index.js:52 also sees keys inherited from `Object.prototype`, such as `constructor`. Registering a segment with such a name is not modelled.
- The order in which `for…in` visits the children is not modelled. `VisitChildren` picks the next child arbitrarily, so its contract holds for every order.
- `typeof null == 'object'` makes a `null` specification register nothing. An empty `Group` has the same effect. A JavaScript object's own enumerable properties become the `Group` entries in their enumeration order. Class instances, getters and other object kinds are not modelled.
- Route functions are opaque values of the type parameter `H`. Calling them is not modelled.
- The trie is a value. `AddHandler` walks the tokens as the source does, creating the root when it is missing, and then writes back the rebuilt trie with `Insert`. The source instead creates and stamps the nodes in place. No trie node is ever shared between two places, so no aliasing is lost.
- `findRoute` passes `this.rootPath` to `_findRouteIterate`, which returns `null` for a missing root (index.js:103-104). In the model, `FindRoute` checks for the missing root before calling `FindRouteIterate`, whose node parameter cannot be absent.
- The route-function branch of `addRoute` is the separate method `AddHandler`. The loop over a node's children in `_findRouteIterate` is the separate method `VisitChildren`. Both are split out only to keep each proof small.
- `FindRouteIterate` requires `Normalized`: a root token first and no trailing empty token. This is what `findRoute` always hands to it. `urlPathSegmentCount` is the length of the token list.
- `module.exports` (index.js:166) is not modelled.
- CloneParameters: the parameters are a `map<string, string>`, but the source uses a plain JavaScript object. The model binds the names `__proto__` and `hasOwnProperty` like any other name and never throws. In the source, assigning a string to `__proto__` (index.js:123) is ignored, so that binding is missing from the result. Binding `hasOwnProperty` to a string makes the next `cloneParameters` call (index.js:160) throw a `TypeError`.
- `routeCount` is a JavaScript Number. Past 2^53, `this.routeCount++` (index.js:65) no longer goes up by one, so indices would repeat. The model's counter is an unbounded `nat` and never repeats an index.
