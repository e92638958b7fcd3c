/**
 * The route trie (server/src/route/route.tree.ts): a root node with segment
 * `''`, grown one path at a time from a `path -> handler` map, then queried
 * for the handler of a URL and for the parameter values the URL carries.
 *
 * The pure part describes a tree by a snapshot `K` of every node's child list
 * (and `H` of every node's handler), so that a lookup before and after an
 * insertion can be compared.
 */
module RouteTrees {
  import opened Common
  import opened Js
  import opened Strings
  import opened RouteNodes

  /** Each node's child list. */
  type Kids = map<RouteNode, seq<RouteNode>>

  /** Each node's handler. */
  type Handlers = map<RouteNode, Option<Value>>

  /** Every child of a node in the snapshot is in the snapshot too. */
  predicate Closed(K: Kids)
  {
    forall m | m in K :: forall c | c in K[m] :: c in K
  }

  /** The node reached from `n` by following `getSubNode` for each segment; `None` once one is missing. */
  function Walk(K: Kids, n: RouteNode, segs: seq<string>): (r: Option<RouteNode>)
    requires Closed(K) && n in K
    ensures r.Some? ==> r.value in K
    decreases |segs|
  {
    if segs == [] then Some(n)
    else
      match Walk(K, n, segs[..|segs| - 1])
      case None => None
      case Some(m) => Lookup(K[m], segs[|segs| - 1])
  }

  /** One more segment is one more `getSubNode` step. */
  lemma WalkStep(K: Kids, n: RouteNode, segs: seq<string>, i: nat)
    requires Closed(K) && n in K && i < |segs|
    ensures Walk(K, n, segs[..i + 1]) ==
      match Walk(K, n, segs[..i])
      case None => None
      case Some(m) => Lookup(K[m], segs[i])
  {
    assert segs[..i + 1][..i] == segs[..i];
  }

  /** Once a segment finds no child, no longer URL with that prefix is found: there is no backtracking. */
  lemma {:induction false} NoBacktracking(K: Kids, n: RouteNode, segs: seq<string>, i: nat)
    requires Closed(K) && n in K && i <= |segs|
    requires Walk(K, n, segs[..i]).None?
    ensures Walk(K, n, segs).None?
    decreases |segs|
  {
    if i == |segs| {
      assert segs[..i] == segs;
    } else {
      var front := segs[..|segs| - 1];
      assert front[..i] == segs[..i];
      NoBacktracking(K, n, front, i);
    }
  }

  /** `K2` is `K1` after insertions: no node disappears and each child list grows as `Grows` allows. */
  predicate Extends(K1: Kids, K2: Kids)
  {
    && K1.Keys <= K2.Keys
    && forall m | m in K1 :: Grows(K1[m], K2[m])
  }

  lemma ExtendsTransitive(K1: Kids, K2: Kids, K3: Kids)
    requires Extends(K1, K2) && Extends(K2, K3)
    ensures Extends(K1, K3)
  {
    forall m | m in K1
      ensures Grows(K1[m], K3[m])
    {
      GrowsTransitive(K1[m], K2[m], K3[m]);
    }
  }

  /** Inserting routes never changes where a URL that was found leads. */
  lemma {:induction false} WalkGrows(K1: Kids, K2: Kids, n: RouteNode, segs: seq<string>)
    requires Closed(K1) && Closed(K2) && n in K1 && Extends(K1, K2)
    requires Walk(K1, n, segs).Some?
    ensures Walk(K2, n, segs) == Walk(K1, n, segs)
    decreases |segs|
  {
    if segs != [] {
      var front := segs[..|segs| - 1];
      WalkGrows(K1, K2, n, front);
      var m := Walk(K1, n, front).value;
      LookupGrows(K1[m], K2[m], segs[|segs| - 1]);
    }
  }

  /**
   * `getControllerClass` on the segments of a URL: the root's handler for no
   * segments; nothing when the walk fails; the handler of the node reached,
   * and when that is undefined, the handler of its first parameter child.
   */
  function Resolve(K: Kids, H: Handlers, root: RouteNode, segs: seq<string>): (r: Option<Value>)
    requires Closed(K) && root in K && K.Keys <= H.Keys
    ensures segs == [] ==> r == H[root]
    ensures Walk(K, root, segs).None? ==> r.None?
    ensures Walk(K, root, segs).Some? && H[Walk(K, root, segs).value].Some? ==> r == H[Walk(K, root, segs).value]
    ensures r.Some? ==> exists n | n in K :: H[n] == r
  {
    if segs == [] then H[root]
    else
      match Walk(K, root, segs)
      case None => None
      case Some(m) =>
        if H[m].None? then
          match FirstParam(K[m])
          case Some(p) => H[p]
          case None => H[m]
        else H[m]
  }

  /** A URL with a segment that finds no child resolves to nothing. */
  lemma MissResolvesToNothing(K: Kids, H: Handlers, root: RouteNode, segs: seq<string>, i: nat)
    requires Closed(K) && root in K && K.Keys <= H.Keys && i <= |segs|
    requires Walk(K, root, segs[..i]).None?
    ensures Resolve(K, H, root, segs).None?
  {
    NoBacktracking(K, root, segs, i);
  }

  /** No node has two children with one segment or two parameter children. */
  predicate Shaped(K: Kids)
  {
    Closed(K) && forall m | m in K :: WellFormed(K[m])
  }

  /**
   * The trailing-parameter fallback: once `segs + [p]` with `p` a parameter
   * leads to a node with a handler, `segs` itself resolves to that handler,
   * provided its own node has none (`/action` resolves like `/action/:actionId`).
   */
  lemma ParamFallback(K: Kids, H: Handlers, root: RouteNode, segs: seq<string>, p: string)
    requires Shaped(K) && root in K && K.Keys <= H.Keys
    requires segs != [] && IsParam(p)
    requires Walk(K, root, segs + [p]).Some? && H[Walk(K, root, segs + [p]).value].Some?
    requires H[Walk(K, root, segs).value].None?
    ensures Resolve(K, H, root, segs) == H[Walk(K, root, segs + [p]).value]
  {
    var all := segs + [p];
    assert all[..|all| - 1] == segs;
    var m := Walk(K, root, segs).value;
    var t := Walk(K, root, all).value;
    var kids := K[m];
    assert Lookup(kids, p) == Some(t);
    assert IsParam(t.urlSegment) by {
      if ExactIndex(kids, p).None? {
        CollapseIntoParam(kids, p);
      }
    }
    var f := FirstParam(kids).value;
    var i :| 0 <= i < |kids| && kids[i] == t;
    var j :| 0 <= j < |kids| && kids[j] == f && forall k | 0 <= k < j :: !IsParam(kids[k].urlSegment);
    WellFormedDistinct(kids);
    assert !(IsParam(kids[i].urlSegment) && IsParam(kids[j].urlSegment)) || i == j;
  }

  /**
   * `getParameters` on the segments of a URL: each segment whose matched node
   * has a different segment (a parameter node), in URL order, up to the first
   * segment that finds no child.
   */
  function Params(K: Kids, n: RouteNode, segs: seq<string>): (r: seq<string>)
    requires Closed(K) && n in K
    ensures |r| <= |segs|
    ensures forall x | x in r :: x in segs
    decreases |segs|
  {
    if segs == [] then []
    else
      var front := segs[..|segs| - 1];
      var last := segs[|segs| - 1];
      match Walk(K, n, front)
      case None => Params(K, n, front)
      case Some(m) =>
        match Lookup(K[m], last)
        case None => Params(K, n, front)
        case Some(c) => Params(K, n, front) + (if c.urlSegment != last then [last] else [])
  }

  /** The parameters stop at the first segment that finds no child. */
  lemma {:induction false} ParamsStop(K: Kids, n: RouteNode, segs: seq<string>, i: nat)
    requires Closed(K) && n in K && 0 < i <= |segs|
    requires Walk(K, n, segs[..i]).None?
    ensures Params(K, n, segs) == Params(K, n, segs[..i])
    decreases |segs|
  {
    if i < |segs| {
      var front := segs[..|segs| - 1];
      assert front[..i] == segs[..i];
      NoBacktracking(K, n, front, i);
      ParamsStop(K, n, front, i);
    } else {
      assert segs[..i] == segs;
    }
  }

  /** A URL whose every segment matches a node with that very segment carries no parameters. */
  lemma {:induction false} LiteralWalkHasNoParams(K: Kids, n: RouteNode, segs: seq<string>)
    requires Closed(K) && n in K
    requires forall k | 0 <= k < |segs| :: Walk(K, n, segs[..k + 1]).Some? ==> Walk(K, n, segs[..k + 1]).value.urlSegment == segs[k]
    ensures Params(K, n, segs) == []
    decreases |segs|
  {
    if segs != [] {
      var front := segs[..|segs| - 1];
      forall k | 0 <= k < |front|
        ensures Walk(K, n, front[..k + 1]).Some? ==> Walk(K, n, front[..k + 1]).value.urlSegment == front[k]
      {
        assert front[..k + 1] == segs[..k + 1];
      }
      LiteralWalkHasNoParams(K, n, front);
      assert segs[..|segs|] == segs;
    }
  }

  /** Route `j` is the last of the routes before `k` whose path leads to `w`. */
  ghost predicate LastReaching(K: Kids, root: RouteNode, routes: seq<(string, Value)>, j: nat, k: nat, w: Option<RouteNode>)
    requires Closed(K) && root in K && j < k <= |routes|
  {
    && Walk(K, root, Segments(routes[j].0)) == w
    && forall j' | j < j' < k :: Walk(K, root, Segments(routes[j'].0)) != w
  }

  /**
   * The path of route `i` leads to a node whose handler is that of the last
   * route before `k` whose path leads to the same node: the last write to a
   * node wins.
   */
  ghost predicate Stored(K: Kids, H: Handlers, root: RouteNode, routes: seq<(string, Value)>, i: nat, k: nat)
  {
    && Closed(K) && root in K && K.Keys <= H.Keys && i < k <= |routes|
    && var w := Walk(K, root, Segments(routes[i].0));
    && w.Some?
    && exists j | i <= j < k :: LastReaching(K, root, routes, j, k, w) && H[w.value] == Some(routes[j].1)
  }

  /**
   * A stored route resolves to the handler of the last route, itself or a
   * later one, whose path leads to the same node.
   */
  lemma StoredResolves(K: Kids, H: Handlers, root: RouteNode, routes: seq<(string, Value)>, i: nat, k: nat)
    requires Stored(K, H, root, routes, i, k)
    ensures exists j | i <= j < k ::
      && LastReaching(K, root, routes, j, k, Walk(K, root, Segments(routes[i].0)))
      && Resolve(K, H, root, Segments(routes[i].0)) == Some(routes[j].1)
  {
    var w := Walk(K, root, Segments(routes[i].0));
    var j :| i <= j < k && LastReaching(K, root, routes, j, k, w) && H[w.value] == Some(routes[j].1);
    assert Resolve(K, H, root, Segments(routes[i].0)) == Some(routes[j].1);
  }

  /**
   * A stored route whose node no later route reaches resolves, as a URL, to
   * its own handler: in particular the last route always does.
   */
  lemma LastWriteWins(K: Kids, H: Handlers, root: RouteNode, routes: seq<(string, Value)>, i: nat, k: nat)
    requires Stored(K, H, root, routes, i, k) && '?' !in routes[i].0
    requires forall j | i < j < k :: Walk(K, root, Segments(routes[j].0)) != Walk(K, root, Segments(routes[i].0))
    ensures Resolve(K, H, root, UrlSegments(routes[i].0)) == Some(routes[i].1)
  {
    var w := Walk(K, root, Segments(routes[i].0));
    var j :| i <= j < k && LastReaching(K, root, routes, j, k, w) && H[w.value] == Some(routes[j].1);
    assert j == i;
    UrlSegmentsOfPath(routes[i].0);
    assert Resolve(K, H, root, Segments(routes[i].0)) == Some(routes[i].1);
  }

  /** Adding route `k`, which leads to `t`, keeps every earlier route stored and stores route `k`. */
  lemma StoredAfterPut(K0: Kids, H0: Handlers, K1: Kids, H1: Handlers, root: RouteNode,
                       routes: seq<(string, Value)>, k: nat, next: nat, t: RouteNode)
    requires next == k + 1
    requires Closed(K0) && Closed(K1) && root in K0 && K0.Keys <= H0.Keys && K1.Keys <= H1.Keys
    requires Extends(K0, K1) && k < |routes|
    requires forall i | 0 <= i < k :: Stored(K0, H0, root, routes, i, k)
    requires Walk(K1, root, Segments(routes[k].0)) == Some(t) && H1[t] == Some(routes[k].1)
    requires forall n | n in K0 && n != t :: H1[n] == H0[n]
    ensures forall i | 0 <= i <= k :: Stored(K1, H1, root, routes, i, next)
  {
    WalksKept(K0, H0, K1, root, routes, k);
    assert LastReaching(K1, root, routes, k, next, Some(t));
    forall i | 0 <= i <= k
      ensures Stored(K1, H1, root, routes, i, next)
    {
      if i < k {
        StoredKept(K0, H0, K1, H1, root, routes, k, next, t, i);
      }
    }
  }

  /** The paths of the routes already stored lead, after an insertion, where they led before. */
  lemma WalksKept(K0: Kids, H0: Handlers, K1: Kids, root: RouteNode, routes: seq<(string, Value)>, k: nat)
    requires Closed(K0) && Closed(K1) && root in K0 && Extends(K0, K1) && k <= |routes|
    requires forall i | 0 <= i < k :: Stored(K0, H0, root, routes, i, k)
    ensures forall j | 0 <= j < k :: Walk(K1, root, Segments(routes[j].0)) == Walk(K0, root, Segments(routes[j].0))
  {
    forall j | 0 <= j < k
      ensures Walk(K1, root, Segments(routes[j].0)) == Walk(K0, root, Segments(routes[j].0))
    {
      assert Stored(K0, H0, root, routes, j, k);
      WalkGrows(K0, K1, root, Segments(routes[j].0));
    }
  }

  /** An earlier route stays stored: its node keeps its last writer unless route `k` reaches it too. */
  lemma StoredKept(K0: Kids, H0: Handlers, K1: Kids, H1: Handlers, root: RouteNode,
                   routes: seq<(string, Value)>, k: nat, next: nat, t: RouteNode, i: nat)
    requires next == k + 1 && i < k < |routes|
    requires Closed(K0) && Closed(K1) && root in K0 && K0.Keys <= H0.Keys && K1.Keys <= H1.Keys && Extends(K0, K1)
    requires Stored(K0, H0, root, routes, i, k)
    requires forall j | 0 <= j < k :: Walk(K1, root, Segments(routes[j].0)) == Walk(K0, root, Segments(routes[j].0))
    requires Walk(K1, root, Segments(routes[k].0)) == Some(t) && H1[t] == Some(routes[k].1)
    requires forall n | n in K0 && n != t :: H1[n] == H0[n]
    ensures Stored(K1, H1, root, routes, i, next)
  {
    var w := Walk(K0, root, Segments(routes[i].0));
    assert Walk(K1, root, Segments(routes[i].0)) == w;
    var j :| i <= j < k && LastReaching(K0, root, routes, j, k, w) && H0[w.value] == Some(routes[j].1);
    if w.value == t {
      assert LastReaching(K1, root, routes, k, next, w);
    } else {
      forall j' | j < j' < next
        ensures Walk(K1, root, Segments(routes[j'].0)) != w
      {
        if j' < k {
          assert Walk(K1, root, Segments(routes[j'].0)) == Walk(K0, root, Segments(routes[j'].0));
        } else {
          assert j' == k && w != Some(t);
        }
      }
      assert Walk(K1, root, Segments(routes[j].0)) == w;
      assert LastReaching(K1, root, routes, j, next, w);
      assert H1[w.value] == Some(routes[j].1);
    }
  }

  /**
   * Every node sits one level below the node that made it, the root at level
   * 0, and is listed only by that node: no two nodes share a child.
   */
  ghost predicate Layered(K: Kids, root: RouteNode)
  {
    && root.depth == 0
    && forall m | m in K :: forall j | 0 <= j < |K[m]| :: K[m][j].depth == m.depth + 1 && K[m][j].parent == Some(m)
  }

  /** A walk of `|segs|` segments ends at level `|segs|`. */
  lemma {:induction false} WalkDepth(K: Kids, root: RouteNode, segs: seq<string>)
    requires Closed(K) && root in K && Layered(K, root)
    requires Walk(K, root, segs).Some?
    ensures Walk(K, root, segs).value.depth == |segs|
    decreases |segs|
  {
    if segs != [] {
      WalkDepth(K, root, segs[..|segs| - 1]);
    }
  }

  /** A node is reached only through the node that made it. */
  lemma WalkParent(K: Kids, root: RouteNode, segs: seq<string>)
    requires Closed(K) && root in K && Layered(K, root)
    requires segs != [] && Walk(K, root, segs).Some?
    ensures Walk(K, root, segs).value.parent == Walk(K, root, segs[..|segs| - 1])
  {
    var m := Walk(K, root, segs[..|segs| - 1]).value;
    var n := Walk(K, root, segs).value;
    var j :| 0 <= j < |K[m]| && K[m][j] == n;
  }

  /** Two URLs that lead to one node pass through the same nodes on the way there. */
  lemma {:induction false} SameWalkPrefix(K: Kids, root: RouteNode, s1: seq<string>, s2: seq<string>, d: nat)
    requires Closed(K) && root in K && Layered(K, root)
    requires Walk(K, root, s1).Some? && Walk(K, root, s1) == Walk(K, root, s2) && d <= |s1|
    ensures |s1| == |s2| && Walk(K, root, s1[..d]) == Walk(K, root, s2[..d])
    decreases |s1|
  {
    WalkDepth(K, root, s1);
    WalkDepth(K, root, s2);
    if d == |s1| {
      assert s1[..d] == s1 && s2[..d] == s2;
    } else {
      WalkParent(K, root, s1);
      WalkParent(K, root, s2);
      var f1, f2 := s1[..|s1| - 1], s2[..|s2| - 1];
      SameWalkPrefix(K, root, f1, f2, d);
      assert f1[..d] == s1[..d] && f2[..d] == s2[..d];
    }
  }

  /** Node `n` is reached by the first `d` segments of one of the first `k` routes, and carries segment `d` of that route. */
  ghost predicate OnRoute(K: Kids, root: RouteNode, routes: seq<(string, Value)>, k: nat, n: RouteNode)
    requires Closed(K) && root in K && k <= |routes|
  {
    exists i, d | 0 <= i < k && 0 < d <= |Segments(routes[i].0)| ::
      && Walk(K, root, Segments(routes[i].0)[..d]) == Some(n)
      && n.urlSegment == Segments(routes[i].0)[d - 1]
  }

  /** Node `n` is where the whole path of one of the first `k` routes leads. */
  ghost predicate EndsRoute(K: Kids, root: RouteNode, routes: seq<(string, Value)>, k: nat, n: RouteNode)
    requires Closed(K) && root in K && k <= |routes|
  {
    exists i | 0 <= i < k :: Walk(K, root, Segments(routes[i].0)) == Some(n)
  }

  /**
   * The tree holds nothing but the first `k` routes: every node other than
   * the root was made for a segment of one of them, and only a node where a
   * route's path ends has a handler.
   */
  ghost predicate Built(K: Kids, H: Handlers, root: RouteNode, routes: seq<(string, Value)>, k: nat)
  {
    && Closed(K) && root in K && K.Keys <= H.Keys && k <= |routes|
    && (forall n {:trigger OnRoute(K, root, routes, k, n)} | n in K && n != root :: OnRoute(K, root, routes, k, n))
    && (forall n {:trigger EndsRoute(K, root, routes, k, n)} | n in K && H[n].Some? :: EndsRoute(K, root, routes, k, n))
  }

  /** A node added while inserting `segs`: it lies on their walk at its own level, carries that level's segment and has no handler. */
  ghost predicate NewOnWalk(K: Kids, H: Handlers, root: RouteNode, segs: seq<string>, n: RouteNode)
  {
    && Closed(K) && root in K && n in H
    && 0 < n.depth <= |segs| && Walk(K, root, segs[..n.depth]) == Some(n)
    && n.urlSegment == segs[n.depth - 1] && H[n] == None
  }

  /** The nodes added earlier in the insertion stay on the walk, handler-less, while the tree grows around them. */
  lemma NewOnWalkKept(K0: Kids, H0: Handlers, K1: Kids, H1: Handlers, root: RouteNode, segs: seq<string>, added: set<RouteNode>)
    requires Closed(K1) && Extends(K0, K1)
    requires forall n | n in added :: NewOnWalk(K0, H0, root, segs, n) && n in H1 && H1[n] == H0[n]
    ensures forall n | n in added :: NewOnWalk(K1, H1, root, segs, n)
  {
    forall n | n in added
      ensures NewOnWalk(K1, H1, root, segs, n)
    {
      WalkGrows(K0, K1, root, segs[..n.depth]);
    }
  }

  /**
   * Inserting route `k`, whose path now leads to `t`, keeps the tree built
   * from the routes: each new node lies on route `k` at its own level, and
   * only `t` gains a handler.
   */
  lemma BuiltAfterPut(K0: Kids, H0: Handlers, K1: Kids, H1: Handlers, root: RouteNode,
                      routes: seq<(string, Value)>, k: nat, next: nat, t: RouteNode)
    requires next == k + 1 && k < |routes|
    requires Built(K0, H0, root, routes, k)
    requires Closed(K1) && K1.Keys <= H1.Keys && Extends(K0, K1)
    requires Walk(K1, root, Segments(routes[k].0)) == Some(t)
    requires forall n | n in K1 && n !in K0 ::
      && 0 < n.depth <= |Segments(routes[k].0)|
      && Walk(K1, root, Segments(routes[k].0)[..n.depth]) == Some(n)
      && n.urlSegment == Segments(routes[k].0)[n.depth - 1]
      && (n != t ==> H1[n] == None)
    requires forall n | n in K0 && n != t :: H1[n] == H0[n]
    ensures Built(K1, H1, root, routes, next)
  {
    forall n | n in K1 && n != root
      ensures OnRoute(K1, root, routes, next, n)
    {
      if n in K0 {
        OnRouteKept(K0, K1, root, routes, k, next, n);
      } else {
        assert Walk(K1, root, Segments(routes[k].0)[..n.depth]) == Some(n);
      }
    }
    forall n | n in K1 && H1[n].Some?
      ensures EndsRoute(K1, root, routes, next, n)
    {
      if n == t {
        assert Walk(K1, root, Segments(routes[k].0)) == Some(n);
      } else if n in K0 {
        assert H0[n].Some? && EndsRoute(K0, root, routes, k, n);
        var i :| 0 <= i < k && Walk(K0, root, Segments(routes[i].0)) == Some(n);
        WalkGrows(K0, K1, root, Segments(routes[i].0));
      }
    }
  }

  /** A node that lay on an earlier route still does after an insertion. */
  lemma OnRouteKept(K0: Kids, K1: Kids, root: RouteNode, routes: seq<(string, Value)>, k: nat, next: nat, n: RouteNode)
    requires Closed(K0) && Closed(K1) && root in K0 && Extends(K0, K1) && k < next <= |routes|
    requires OnRoute(K0, root, routes, k, n)
    ensures OnRoute(K1, root, routes, next, n)
  {
    var i, d :| 0 <= i < k && 0 < d <= |Segments(routes[i].0)|
      && Walk(K0, root, Segments(routes[i].0)[..d]) == Some(n)
      && n.urlSegment == Segments(routes[i].0)[d - 1];
    WalkGrows(K0, K1, root, Segments(routes[i].0)[..d]);
  }

  /**
   * The trailing-parameter fallback in a built tree: when route `i` is
   * `segs + [p]` with `p` a parameter and every route with as many segments
   * as `segs` is apart from it, so that none ends where `segs` leads, the
   * URL `segs` resolves like `segs + [p]` (`/action` like `/action/:actionId`).
   */
  lemma BuiltFallback(K: Kids, H: Handlers, root: RouteNode,
                      routes: seq<(string, Value)>, k: nat, i: nat, segs: seq<string>, p: string)
    requires Shaped(K) && Layered(K, root) && Built(K, H, root, routes, k)
    requires Stored(K, H, root, routes, i, k)
    requires Segments(routes[i].0) == segs + [p] && segs != [] && IsParam(p)
    requires forall j | 0 <= j < k && |Segments(routes[j].0)| == |segs| :: Apart(routes, k, Segments(routes[j].0), segs)
    ensures Resolve(K, H, root, segs) == Resolve(K, H, root, segs + [p])
  {
    var all := segs + [p];
    assert all[..|all| - 1] == segs;
    var w := Walk(K, root, all).value;
    var j0 :| i <= j0 < k && LastReaching(K, root, routes, j0, k, Some(w)) && H[w] == Some(routes[j0].1);
    ApartHasNoHandler(K, H, root, routes, k, segs);
    ParamFallback(K, H, root, segs, p);
  }

  /** With a single route `s/:x`, the URL `s` resolves to that route's handler. */
  lemma SingleParamRoute(K: Kids, H: Handlers, root: RouteNode,
                         routes: seq<(string, Value)>, s: string, x: string)
    requires Shaped(K) && Layered(K, root) && Built(K, H, root, routes, 1)
    requires Stored(K, H, root, routes, 0, 1)
    requires Segments(routes[0].0) == [s, x] && IsParam(x)
    ensures Resolve(K, H, root, [s]) == Some(routes[0].1)
  {
    assert [s] + [x] == [s, x];
    BuiltFallback(K, H, root, routes, 1, 0, [s], x);
  }

  /**
   * A URL whose segment `d` is, at position `d`, neither a segment of any
   * route nor met by a parameter of any route finds no node, and resolves to
   * `undefined` (`/invalid`).
   */
  lemma UnknownSegmentMisses(K: Kids, H: Handlers, root: RouteNode,
                             routes: seq<(string, Value)>, k: nat, segs: seq<string>, d: nat)
    requires Layered(K, root) && Built(K, H, root, routes, k) && d < |segs|
    requires forall j | 0 <= j < k && d < |Segments(routes[j].0)| ::
      Segments(routes[j].0)[d] != segs[d] && !IsParam(Segments(routes[j].0)[d])
    ensures Walk(K, root, segs).None? && Resolve(K, H, root, segs).None?
  {
    if Walk(K, root, segs[..d]).Some? {
      var m := Walk(K, root, segs[..d]).value;
      WalkStep(K, root, segs, d);
      if Lookup(K[m], segs[d]).Some? {
        var c := Lookup(K[m], segs[d]).value;
        LookupSegment(K[m], segs[d]);
        WalkDepth(K, root, segs[..d + 1]);
        LevelSegment(K, H, root, routes, k, c);
        assert false;
      }
      NoBacktracking(K, root, segs, d + 1);
    } else {
      NoBacktracking(K, root, segs, d);
    }
  }

  /** A node of a built tree other than the root carries, at its level, the segment of some route. */
  lemma LevelSegment(K: Kids, H: Handlers, root: RouteNode, routes: seq<(string, Value)>, k: nat, c: RouteNode)
    requires Layered(K, root) && Built(K, H, root, routes, k) && c in K && c != root
    ensures exists j | 0 <= j < k :: 0 < c.depth <= |Segments(routes[j].0)| && c.urlSegment == Segments(routes[j].0)[c.depth - 1]
  {
    assert OnRoute(K, root, routes, k, c);
    var j, e :| 0 <= j < k && 0 < e <= |Segments(routes[j].0)|
      && Walk(K, root, Segments(routes[j].0)[..e]) == Some(c)
      && c.urlSegment == Segments(routes[j].0)[e - 1];
    WalkDepth(K, root, Segments(routes[j].0)[..e]);
  }

  /** None of the first `k` routes has a parameter at position `d`. */
  ghost predicate LiteralAt(routes: seq<(string, Value)>, k: nat, d: nat)
    requires k <= |routes|
  {
    forall j | 0 <= j < k && d < |Segments(routes[j].0)| :: !IsParam(Segments(routes[j].0)[d])
  }

  /** `r` and `segs` differ at a position where no route has a parameter, so no node can match both. */
  ghost predicate Apart(routes: seq<(string, Value)>, k: nat, r: seq<string>, segs: seq<string>)
    requires k <= |routes|
  {
    exists d | 0 <= d < |segs| && d < |r| :: r[d] != segs[d] && LiteralAt(routes, k, d)
  }

  /** In a built tree, paths that are apart lead to different nodes. */
  lemma ApartWalksDiffer(K: Kids, H: Handlers, root: RouteNode,
                         routes: seq<(string, Value)>, k: nat, r: seq<string>, segs: seq<string>)
    requires Layered(K, root) && Built(K, H, root, routes, k)
    requires Apart(routes, k, r, segs) && Walk(K, root, r).Some?
    ensures Walk(K, root, r) != Walk(K, root, segs)
  {
    if Walk(K, root, r) == Walk(K, root, segs) {
      var d :| 0 <= d < |segs| && d < |r| && r[d] != segs[d] && LiteralAt(routes, k, d);
      SameWalkPrefix(K, root, r, segs, d + 1);
      SegmentAt(K, H, root, routes, k, r, d);
      SegmentAt(K, H, root, routes, k, segs, d);
    }
  }

  /** In a built tree, where no route has a parameter at position `d`, a URL's walk meets a node carrying its segment `d` itself. */
  lemma SegmentAt(K: Kids, H: Handlers, root: RouteNode,
                  routes: seq<(string, Value)>, k: nat, s: seq<string>, d: nat)
    requires Layered(K, root) && Built(K, H, root, routes, k)
    requires d < |s| && LiteralAt(routes, k, d) && Walk(K, root, s).Some?
    ensures Walk(K, root, s[..d + 1]).Some? && Walk(K, root, s[..d + 1]).value.urlSegment == s[d]
  {
    assert Walk(K, root, s[..d + 1]).Some? by {
      if Walk(K, root, s[..d + 1]).None? {
        NoBacktracking(K, root, s, d + 1);
      }
    }
    var c := Walk(K, root, s[..d + 1]).value;
    WalkStep(K, root, s, d);
    LookupSegment(K[Walk(K, root, s[..d]).value], s[d]);
    WalkDepth(K, root, s[..d + 1]);
    LevelSegment(K, H, root, routes, k, c);
  }

  /** In a built tree, the node a URL leads to has no handler when every route of the URL's length is apart from it. */
  lemma ApartHasNoHandler(K: Kids, H: Handlers, root: RouteNode,
                          routes: seq<(string, Value)>, k: nat, segs: seq<string>)
    requires Layered(K, root) && Built(K, H, root, routes, k) && Walk(K, root, segs).Some?
    requires forall j | 0 <= j < k && |Segments(routes[j].0)| == |segs| :: Apart(routes, k, Segments(routes[j].0), segs)
    ensures H[Walk(K, root, segs).value] == None
  {
    var m := Walk(K, root, segs).value;
    if H[m].Some? {
      assert EndsRoute(K, root, routes, k, m);
      var j :| 0 <= j < k && Walk(K, root, Segments(routes[j].0)) == Some(m);
      WalkDepth(K, root, Segments(routes[j].0));
      WalkDepth(K, root, segs);
      ApartWalksDiffer(K, H, root, routes, k, Segments(routes[j].0), segs);
      assert false;
    }
  }

  /**
   * In a built tree, a URL resolves to `undefined` when every route of its
   * length is apart from it and no parameter child can answer for it: no
   * route has a parameter right after it, or every route one segment longer
   * is apart from it too (`/xx/yy` beside `/xx/yy/zz`).
   */
  lemma ApartResolvesToNothing(K: Kids, H: Handlers, root: RouteNode,
                               routes: seq<(string, Value)>, k: nat, segs: seq<string>)
    requires Layered(K, root) && Built(K, H, root, routes, k)
    requires forall j | 0 <= j < k && |Segments(routes[j].0)| == |segs| :: Apart(routes, k, Segments(routes[j].0), segs)
    requires || LiteralAt(routes, k, |segs|)
             || forall j | 0 <= j < k && |Segments(routes[j].0)| == |segs| + 1 :: Apart(routes, k, Segments(routes[j].0), segs)
    ensures Resolve(K, H, root, segs).None?
  {
    if Walk(K, root, segs).Some? {
      var m := Walk(K, root, segs).value;
      ApartHasNoHandler(K, H, root, routes, k, segs);
      if segs != [] && FirstParam(K[m]).Some? {
        var p := FirstParam(K[m]).value;
        var i :| 0 <= i < |K[m]| && K[m][i] == p && IsParam(p.urlSegment);
        ParamChildHasNoHandler(K, H, root, routes, k, segs, i);
      }
    }
  }

  /**
   * In a built tree, a parameter child of the node a URL leads to has no
   * handler when no route has a parameter there, or when every route one
   * segment longer than the URL is apart from it.
   */
  lemma ParamChildHasNoHandler(K: Kids, H: Handlers, root: RouteNode,
                               routes: seq<(string, Value)>, k: nat, segs: seq<string>, i: nat)
    requires Layered(K, root) && Built(K, H, root, routes, k) && Walk(K, root, segs).Some?
    requires i < |K[Walk(K, root, segs).value]| && IsParam(K[Walk(K, root, segs).value][i].urlSegment)
    requires || LiteralAt(routes, k, |segs|)
             || forall j | 0 <= j < k && |Segments(routes[j].0)| == |segs| + 1 :: Apart(routes, k, Segments(routes[j].0), segs)
    ensures H[K[Walk(K, root, segs).value][i]] == None
  {
    var m := Walk(K, root, segs).value;
    var p := K[m][i];
    if H[p].Some? {
      WalkDepth(K, root, segs);
      assert EndsRoute(K, root, routes, k, p);
      var j :| 0 <= j < k && Walk(K, root, Segments(routes[j].0)) == Some(p);
      WalkDepth(K, root, Segments(routes[j].0));
      if LiteralAt(routes, k, |segs|) {
        LevelSegment(K, H, root, routes, k, p);
        assert false;
      } else {
        ApartParents(K, H, root, routes, k, Segments(routes[j].0), segs);
        assert false;
      }
    }
  }

  /** In a built tree, a path one segment longer than `segs` and apart from it leads to a node that `segs` does not lead to the parent of. */
  lemma ApartParents(K: Kids, H: Handlers, root: RouteNode,
                     routes: seq<(string, Value)>, k: nat, r: seq<string>, segs: seq<string>)
    requires Layered(K, root) && Built(K, H, root, routes, k)
    requires |r| == |segs| + 1 && Apart(routes, k, r, segs) && Walk(K, root, r).Some?
    ensures Walk(K, root, r).value.parent != Walk(K, root, segs)
  {
    WalkParent(K, root, r);
    var front := r[..|segs|];
    var d :| 0 <= d < |segs| && d < |r| && r[d] != segs[d] && LiteralAt(routes, k, d);
    assert Apart(routes, k, front, segs) by {
      assert front[d] == r[d];
    }
    ApartWalksDiffer(K, H, root, routes, k, front, segs);
  }

  /** In a layered tree, a stored route whose length no later route shares resolves to its own handler. */
  lemma UniqueLengthWins(K: Kids, H: Handlers, root: RouteNode, routes: seq<(string, Value)>, i: nat, k: nat)
    requires Layered(K, root) && Stored(K, H, root, routes, i, k)
    requires forall j | i < j < k :: |Segments(routes[j].0)| != |Segments(routes[i].0)|
    ensures Resolve(K, H, root, Segments(routes[i].0)) == Some(routes[i].1)
  {
    var w := Walk(K, root, Segments(routes[i].0));
    var j :| i <= j < k && LastReaching(K, root, routes, j, k, w) && H[w.value] == Some(routes[j].1);
    if j != i {
      WalkDepth(K, root, Segments(routes[i].0));
      WalkDepth(K, root, Segments(routes[j].0));
      assert false;
    }
  }

  /** The routes of the test "find controller without parameter", split into segments. */
  ghost predicate WithoutParameterRoutes(routes: seq<(string, Value)>)
  {
    && |routes| == 3
    && Segments(routes[0].0) == ["action", ":actionId"]
    && Segments(routes[1].0) == ["aa", "bb", "cc", "dd", "ee", "ff", "gg", "hh", ":ii"]
    && Segments(routes[2].0) == ["xx", "yy", "zz"]
  }

  /**
   * In a built tree, a URL one parameter short of route `i` resolves to
   * route `i`'s handler when no route of the URL's length ends where it leads
   * and no later route has as many segments as route `i`.
   */
  lemma ParamRouteFallsBack(K: Kids, H: Handlers, root: RouteNode,
                            routes: seq<(string, Value)>, k: nat, i: nat, segs: seq<string>, p: string)
    requires Shaped(K) && Layered(K, root) && Built(K, H, root, routes, k)
    requires Stored(K, H, root, routes, i, k)
    requires Segments(routes[i].0) == segs + [p] && segs != [] && IsParam(p)
    requires forall j | 0 <= j < k && |Segments(routes[j].0)| == |segs| :: Apart(routes, k, Segments(routes[j].0), segs)
    requires forall j | i < j < k :: |Segments(routes[j].0)| != |Segments(routes[i].0)|
    ensures Resolve(K, H, root, segs) == Some(routes[i].1)
  {
    BuiltFallback(K, H, root, routes, k, i, segs, p);
    UniqueLengthWins(K, H, root, routes, i, k);
  }

  /** In the tree built from `/action/:actionId`, `/aa/bb/cc/dd/ee/ff/gg/hh/:ii` and `/xx/yy/zz`, `/action` falls back to `/action/:actionId`. */
  lemma WithoutParameterAction(K: Kids, H: Handlers, root: RouteNode, routes: seq<(string, Value)>)
    requires WithoutParameterRoutes(routes)
    requires Shaped(K) && Layered(K, root) && Built(K, H, root, routes, 3)
    requires forall i | 0 <= i < 3 :: Stored(K, H, root, routes, i, 3)
    ensures Resolve(K, H, root, ["action"]) == Some(routes[0].1)
  {
    assert ["action"] + [":actionId"] == Segments(routes[0].0);
    forall j | 0 <= j < 3
      ensures |Segments(routes[j].0)| != 1
    {
      assert j == 0 || j == 1 || j == 2;
    }
    ParamRouteFallsBack(K, H, root, routes, 3, 0, ["action"], ":actionId");
  }

  /** In the same tree, `/aa/bb/cc/dd/ee/ff/gg/hh/` falls back to `/aa/bb/cc/dd/ee/ff/gg/hh/:ii`. */
  lemma WithoutParameterLong(K: Kids, H: Handlers, root: RouteNode, routes: seq<(string, Value)>)
    requires WithoutParameterRoutes(routes)
    requires Shaped(K) && Layered(K, root) && Built(K, H, root, routes, 3)
    requires forall i | 0 <= i < 3 :: Stored(K, H, root, routes, i, 3)
    ensures Resolve(K, H, root, ["aa", "bb", "cc", "dd", "ee", "ff", "gg", "hh"]) == Some(routes[1].1)
  {
    var eight := ["aa", "bb", "cc", "dd", "ee", "ff", "gg", "hh"];
    assert eight + [":ii"] == Segments(routes[1].0);
    forall j | 0 <= j < 3
      ensures |Segments(routes[j].0)| != 8
    {
      assert j == 0 || j == 1 || j == 2;
    }
    ParamRouteFallsBack(K, H, root, routes, 3, 1, eight, ":ii");
  }

  /** In the same tree `/xx/yy`, a prefix of `/xx/yy/zz` where no route ends, is `undefined`. */
  lemma WithoutParameterMiss(K: Kids, H: Handlers, root: RouteNode, routes: seq<(string, Value)>)
    requires WithoutParameterRoutes(routes)
    requires Layered(K, root) && Built(K, H, root, routes, 3)
    ensures Resolve(K, H, root, ["xx", "yy"]).None?
  {
    var segs := ["xx", "yy"];
    assert LiteralAt(routes, 3, 0) by {
      assert !IsParam("action") && !IsParam("aa") && !IsParam("xx");
    }
    assert LiteralAt(routes, 3, 2) by {
      assert !IsParam("cc") && !IsParam("zz");
    }
    forall j | 0 <= j < 3 && |Segments(routes[j].0)| == |segs|
      ensures Apart(routes, 3, Segments(routes[j].0), segs)
    {
      assert j == 0;
      assert Segments(routes[0].0)[0] != segs[0];
    }
    ApartResolvesToNothing(K, H, root, routes, 3, segs);
  }

  /** In a built tree with every route stored, a URL resolves to `undefined` or to the handler of one of the routes. */
  lemma ResolvesToRegistered(K: Kids, H: Handlers, root: RouteNode, routes: seq<(string, Value)>, k: nat, segs: seq<string>)
    requires Built(K, H, root, routes, k)
    requires forall i | 0 <= i < k :: Stored(K, H, root, routes, i, k)
    ensures Resolve(K, H, root, segs).Some? ==> exists j | 0 <= j < k :: Resolve(K, H, root, segs) == Some(routes[j].1)
  {
    var r := Resolve(K, H, root, segs);
    if r.Some? {
      var n :| n in K && H[n] == r;
      assert EndsRoute(K, root, routes, k, n);
      var i :| 0 <= i < k && Walk(K, root, Segments(routes[i].0)) == Some(n);
      assert Stored(K, H, root, routes, i, k);
      var j :| i <= j < k && LastReaching(K, root, routes, j, k, Some(n)) && H[n] == Some(routes[j].1);
    }
  }

  class RouteTree {
    const root: RouteNode
    /** The nodes reachable from the root. */
    ghost var Nodes: set<RouteNode>
    /** Each node's child list, as of now. */
    ghost var Children: Kids
    /** Each node's handler, as of now. */
    ghost var HandlerAt: Handlers

    /**
     * The snapshots agree with the nodes, no node has two children for one
     * segment, and the nodes form a tree: each is listed only by the node
     * that made it, one level below it.
     */
    ghost predicate Valid()
      reads this, Nodes
    {
      && root in Nodes && Children.Keys == Nodes && HandlerAt.Keys == Nodes
      && (forall n | n in Nodes :: Children[n] == n.subNodes)
      && (forall n | n in Nodes :: HandlerAt[n] == n.controllerClass)
      && Shaped(Children) && Layered(Children, root)
    }

    /**
     * `new RouteTree(map)`: every path of `routes`, taken in order and split
     * on `/` with empty segments dropped, leads to a node that holds the
     * handler of the last route leading to that node (see `StoredResolves`
     * and `LastWriteWins`); every other node lies on a route and has no
     * handler (see `BuiltFallback`, `UnknownSegmentMisses` and
     * `ResolvesToRegistered`).
     */
    constructor (routes: seq<(string, Value)>)
      ensures Valid() && fresh(Nodes)
      ensures forall i | 0 <= i < |routes| :: Stored(Children, HandlerAt, root, routes, i, |routes|)
      ensures Built(Children, HandlerAt, root, routes, |routes|)
    {
      root := new RouteNode("", 0, None);
      new;
      Nodes := {root};
      Children := map[root := []];
      HandlerAt := map[root := None];
      AddRoutes(routes);
      assert forall n | n in Nodes :: n == root || n in Nodes - {root};
    }

    /** The constructor's `forEach` over the routes, in order, on the tree that holds only its root. */
    method AddRoutes(routes: seq<(string, Value)>)
      requires Valid() && Built(Children, HandlerAt, root, routes, 0)
      modifies this, Nodes
      ensures Valid() && old(Nodes) <= Nodes && fresh(Nodes - old(Nodes))
      ensures forall i | 0 <= i < |routes| :: Stored(Children, HandlerAt, root, routes, i, |routes|)
      ensures Built(Children, HandlerAt, root, routes, |routes|)
    {
      for k := 0 to |routes|
        invariant Valid() && old(Nodes) <= Nodes && fresh(Nodes - old(Nodes))
        invariant forall i | 0 <= i < k :: Stored(Children, HandlerAt, root, routes, i, k)
        invariant Built(Children, HandlerAt, root, routes, k)
      {
        AddRoute(routes, k, k + 1);
      }
    }

    /** One iteration of the constructor's `forEach`: route `k` is inserted. */
    method AddRoute(routes: seq<(string, Value)>, k: nat, next: nat)
      requires Valid() && k < |routes| && next == k + 1
      requires forall i | 0 <= i < k :: Stored(Children, HandlerAt, root, routes, i, k)
      requires Built(Children, HandlerAt, root, routes, k)
      modifies this, Nodes
      ensures Valid() && old(Nodes) <= Nodes && fresh(Nodes - old(Nodes))
      ensures forall i | 0 <= i < next :: Stored(Children, HandlerAt, root, routes, i, next)
      ensures Built(Children, HandlerAt, root, routes, next)
    {
      ghost var K0, H0 := Children, HandlerAt;
      var t := PutSegments(Segments(routes[k].0), routes[k].1);
      StoredAfterPut(K0, H0, Children, HandlerAt, root, routes, k, next, t);
      BuiltAfterPut(K0, H0, Children, HandlerAt, root, routes, k, next, t);
    }

    /**
     * `putSegmentsIntoRootNode(segs, c)`: afterwards `segs` leads to the node
     * `t`, whose handler is `c`; every child list only grew, every other
     * node kept its handler, and the nodes added are new. Each new node
     * lies on the walk of `segs` at its own level, carries the segment of
     * that level, and has no handler unless it is `t`.
     */
    method PutSegments(segs: seq<string>, c: Value) returns (ghost t: RouteNode)
      requires Valid()
      modifies this, Nodes
      ensures Valid() && old(Nodes) <= Nodes && fresh(Nodes - old(Nodes))
      ensures Extends(old(Children), Children)
      ensures Walk(Children, root, segs) == Some(t) && HandlerAt[t] == Some(c)
      ensures forall n | n in old(Nodes) && n != t :: HandlerAt[n] == old(HandlerAt)[n]
      ensures forall n | n in Nodes - old(Nodes) ::
        && 0 < n.depth <= |segs| && Walk(Children, root, segs[..n.depth]) == Some(n)
        && n.urlSegment == segs[n.depth - 1] && (n != t ==> HandlerAt[n] == None)
    {
      var current := root;
      if |segs| > 0 {
        current := Descend(segs);
      }
      SetHandler(current, c);
      t := current;
    }

    /** `node.setControllerClass(c)` on a node of the tree. */
    method SetHandler(node: RouteNode, c: Value)
      requires Valid() && node in Nodes
      modifies this, node
      ensures Valid() && Nodes == old(Nodes) && Children == old(Children)
      ensures HandlerAt == old(HandlerAt)[node := Some(c)]
    {
      node.SetControllerClass(c);
      HandlerAt := HandlerAt[node := Some(c)];
    }

    /**
     * The loop of `putSegmentsIntoRootNode`: `getOrCreateSubNode` for each
     * segment in turn. Each new node lies on the walk of `segs` at its own
     * level, carries the segment of that level, and has no handler.
     */
    method Descend(segs: seq<string>) returns (current: RouteNode)
      requires Valid()
      modifies this, Nodes
      ensures Valid() && current in Nodes && old(Nodes) <= Nodes && fresh(Nodes - old(Nodes))
      ensures Extends(old(Children), Children)
      ensures Walk(Children, root, segs) == Some(current)
      ensures forall n | n in old(Nodes) :: HandlerAt[n] == old(HandlerAt)[n]
      ensures forall n | n in Nodes - old(Nodes) :: NewOnWalk(Children, HandlerAt, root, segs, n)
    {
      current := root;
      for i := 0 to |segs|
        invariant Valid() && current in Nodes
        invariant old(Nodes) <= Nodes && fresh(Nodes - old(Nodes))
        invariant Extends(old(Children), Children)
        invariant Walk(Children, root, segs[..i]) == Some(current)
        invariant forall n | n in old(Nodes) :: HandlerAt[n] == old(HandlerAt)[n]
        invariant current.depth == i
        invariant forall n | n in Nodes - old(Nodes) :: NewOnWalk(Children, HandlerAt, root, segs, n)
      {
        current := DescendStep(segs, i, current, old(Nodes), old(Children), old(HandlerAt));
      }
      assert segs[..|segs|] == segs;
    }

    /** One iteration of the loop of `putSegmentsIntoRootNode`, from the node segment `i` starts at. */
    method DescendStep(segs: seq<string>, i: nat, current: RouteNode, ghost N: set<RouteNode>, ghost K: Kids, ghost H: Handlers)
      returns (next: RouteNode)
      requires Valid() && current in Nodes && i < |segs|
      requires N <= Nodes && Extends(K, Children) && current.depth == i
      requires Walk(Children, root, segs[..i]) == Some(current)
      requires forall n | n in N :: n in H && HandlerAt[n] == H[n]
      requires forall n | n in Nodes - N :: NewOnWalk(Children, HandlerAt, root, segs, n)
      modifies this, current
      ensures Valid() && next in Nodes && Nodes == old(Nodes) + {next} && (next in old(Nodes) || fresh(next))
      ensures Extends(K, Children) && next.depth == i + 1
      ensures Walk(Children, root, segs[..i + 1]) == Some(next)
      ensures forall n | n in N :: HandlerAt[n] == H[n]
      ensures forall n | n in Nodes - N :: NewOnWalk(Children, HandlerAt, root, segs, n)
      ensures Lookup(old(Children)[current], segs[i]).Some? ==> Children == old(Children) && HandlerAt == old(HandlerAt)
      ensures Lookup(old(Children)[current], segs[i]).None? ==>
        && Children == old(Children)[current := old(Children)[current] + [next]][next := []]
        && HandlerAt == old(HandlerAt)[next := None]
    {
      ghost var K0, H0, N0 := Children, HandlerAt, Nodes;
      assert Shaped(K0) && root in K0;
      next := AddStep(current, segs[i]);
      ExtendsTransitive(K, K0, Children);
      WalkGrows(K0, Children, root, segs[..i]);
      WalkStep(Children, root, segs, i);
      NewOnWalkKept(K0, H0, Children, HandlerAt, root, segs, N0 - N);
      if next !in N0 {
        assert NewOnWalk(Children, HandlerAt, root, segs, next);
      }

    }

    /** One step of the insertion walk: `current.getOrCreateSubNode(s)`. */
    method AddStep(current: RouteNode, s: string) returns (next: RouteNode)
      requires Valid() && current in Nodes
      modifies this, current
      ensures Valid() && Nodes == old(Nodes) + {next}
      ensures next in old(Nodes) || fresh(next)
      ensures Extends(old(Children), Children)
      ensures Lookup(Children[current], s) == Some(next)
      ensures forall n | n in old(Nodes) :: HandlerAt[n] == old(HandlerAt)[n]
      ensures next !in old(Nodes) ==> Children[next] == [] && HandlerAt[next] == None && next.urlSegment == s
      ensures next.depth == current.depth + 1
      ensures Lookup(old(Children)[current], s).Some? ==> Children == old(Children) && HandlerAt == old(HandlerAt)
      ensures Lookup(old(Children)[current], s).None? ==>
        && Children == old(Children)[current := old(Children)[current] + [next]][next := []]
        && HandlerAt == old(HandlerAt)[next := None]
    {
      ghost var kids := current.subNodes;
      next := current.GetOrCreateSubNode(s);
      if Lookup(kids, s).None? {
        AppendFound(kids, next);
        AppendChild(Children, current, next);
        ghost var K0 := Children;
        Nodes, Children, HandlerAt := Nodes + {next}, Children[current := kids + [next]][next := []], HandlerAt[next := None];
        assert Layered(Children, root) by {
          AppendLayered(K0, root, current, next);
        }
        forall n | n in Nodes
          ensures Children[n] == n.subNodes && HandlerAt[n] == n.controllerClass
        {
          if n != current && n != next {
            assert n in old(Nodes);
          }
        }
      }
    }

    /** `getControllerClass(url)`. */
    method GetControllerClass(url: string) returns (r: Option<Value>)
      requires Valid()
      ensures r == Resolve(Children, HandlerAt, root, UrlSegments(url))
    {
      var segs := UrlSegments(url);
      if |segs| == 0 {
        return root.GetControllerClass();
      }
      var found := Find(segs);
      if found.None? {
        return None;
      }
      var current := found.value;
      r := current.GetControllerClass();
      if r.None? {
        var p := FirstParamChild(current.GetSubNodes());
        if p.Some? {
          r := p.value.GetControllerClass();
        }
      }
    }

    /** The walk of `getControllerClass`: `getSubNode` for each segment, stopping at the first miss. */
    method Find(segs: seq<string>) returns (found: Option<RouteNode>)
      requires Valid()
      ensures found == Walk(Children, root, segs)
      ensures found.Some? ==> found.value in Nodes
    {
      var current := root;
      for i := 0 to |segs|
        invariant current in Nodes
        invariant Walk(Children, root, segs[..i]) == Some(current)
      {
        WalkStep(Children, root, segs, i);
        var next := current.GetSubNode(segs[i]);
        if next.None? {
          NoBacktracking(Children, root, segs, i + 1);
          return None;
        }
        current := next.value;
      }
      assert segs[..|segs|] == segs;
      found := Some(current);
    }

    /** `getParameters(url)`. */
    method GetParameters(url: string) returns (result: seq<string>)
      requires Valid()
      ensures result == Params(Children, root, UrlSegments(url))
    {
      result := [];
      var segs := UrlSegments(url);
      var current := root;
      for i := 0 to |segs|
        invariant current in Nodes
        invariant Walk(Children, root, segs[..i]) == Some(current)
        invariant result == Params(Children, root, segs[..i])
      {
        ParamsStep(Children, root, segs, i);
        var next := current.GetSubNode(segs[i]);
        if next.None? {
          WalkStep(Children, root, segs, i);
          ParamsStop(Children, root, segs, i + 1);
          return;
        }
        current := next.value;
        if current.urlSegment != segs[i] {
          result := result + [segs[i]];
        }
        WalkStep(Children, root, segs, i);
      }
      assert segs[..|segs|] == segs;
    }
  }

  /** One more segment that finds a child adds that segment when the child is a parameter node. */
  lemma ParamsStep(K: Kids, n: RouteNode, segs: seq<string>, i: nat)
    requires Closed(K) && n in K && i < |segs| && Walk(K, n, segs[..i]).Some?
    ensures Params(K, n, segs[..i + 1]) ==
      match Lookup(K[Walk(K, n, segs[..i]).value], segs[i])
      case None => Params(K, n, segs[..i])
      case Some(c) => Params(K, n, segs[..i]) + (if c.urlSegment != segs[i] then [segs[i]] else [])
  {
    assert segs[..i + 1][..i] == segs[..i];
  }

  /** The fallback scan of `getControllerClass`: the first child whose segment starts with `:`. */
  method FirstParamChild(kids: seq<RouteNode>) returns (p: Option<RouteNode>)
    ensures p == FirstParam(kids)
  {
    for j := 0 to |kids|
      invariant forall k | 0 <= k < j :: !IsParam(kids[k].urlSegment)
    {
      var node := kids[j];
      if |node.urlSegment| > 0 && node.urlSegment[0] == ':' {
        FirstParamAt(kids, j);
        return Some(node);
      }
    }
    p := None;
  }

  /** Appending a new childless node `r` to the children of `m`, where `getSubNode` finds nothing for it, keeps the tree shaped and extends it. */
  lemma AppendChild(K: Kids, m: RouteNode, r: RouteNode)
    requires Shaped(K) && m in K && r !in K && Lookup(K[m], r.urlSegment).None?
    ensures var K2: Kids := K[m := K[m] + [r]][r := []];
      Shaped(K2) && Extends(K, K2)
  {
    AppendKeepsWellFormed(K[m], r);
    LookupNone(K[m], r.urlSegment);
  }

  /** Appending a new childless node `r`, made by `m` one level below it, to the children of `m` keeps the tree layered. */
  lemma AppendLayered(K: Kids, root: RouteNode, m: RouteNode, r: RouteNode)
    requires Layered(K, root) && m in K && r !in K && r != root && r.depth == m.depth + 1 && r.parent == Some(m)
    ensures Layered(K[m := K[m] + [r]][r := []], root)
  {
  }

  /** The first parameter child found by a scan from the front is `FirstParam`. */
  lemma FirstParamAt(kids: seq<RouteNode>, j: nat)
    requires j < |kids| && IsParam(kids[j].urlSegment)
    requires forall k | 0 <= k < j :: !IsParam(kids[k].urlSegment)
    ensures FirstParam(kids) == Some(kids[j])
  {
    var f := FirstParam(kids).value;
    var i :| 0 <= i < |kids| && kids[i] == f && forall k | 0 <= k < i :: !IsParam(kids[k].urlSegment);
    assert i == j;
  }
}
