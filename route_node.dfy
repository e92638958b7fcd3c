/**
 * One node of the route trie (express/src/route/route.node.ts): a URL segment,
 * the ordered list of child nodes and the handler registered at this level. A
 * segment starting with `:` is a parameter: it matches any segment, but a
 * child whose segment matches exactly is preferred.
 */
module RouteNodes {
  import opened Common
  import opened Js

  /** `s.length > 0 && s.charAt(0) === ':'`. */
  predicate IsParam(s: string)
  {
    |s| > 0 && s[0] == ':'
  }

  class RouteNode {
    const urlSegment: string
    var subNodes: seq<RouteNode>
    var controllerClass: Option<Value>
    /** The level below the root at which the node was made. */
    ghost const depth: nat
    /** The node that made this one, none for a root. */
    ghost const parent: Option<RouteNode>

    constructor (urlSegment: string, ghost depth: nat, ghost parent: Option<RouteNode>)
      ensures this.urlSegment == urlSegment && subNodes == [] && controllerClass == None
      ensures this.depth == depth && this.parent == parent
    {
      this.urlSegment := urlSegment;
      subNodes := [];
      controllerClass := None;
      this.depth := depth;
      this.parent := parent;
    }

    /** `getControllerClass()`; `None` is `undefined`. */
    function GetControllerClass(): Option<Value>
      reads this
    {
      controllerClass
    }

    /** `setControllerClass(c)`: the handler is overwritten, the children are untouched. */
    method SetControllerClass(c: Value)
      modifies this
      ensures GetControllerClass() == Some(c) && GetSubNodes() == old(GetSubNodes())
    {
      controllerClass := Some(c);
    }

    /** `getSubNodes()`. */
    function GetSubNodes(): seq<RouteNode>
      reads this
    {
      subNodes
    }

    /** `getSubNode(s)`: the first child whose segment is `s`, else the last parameter child seen. */
    method GetSubNode(s: string) returns (r: Option<RouteNode>)
      ensures r == Lookup(subNodes, s)
    {
      var candidate: Option<RouteNode> := None;
      for i := 0 to |subNodes|
        invariant ExactIndex(subNodes[..i], s).None?
        invariant candidate == LastParam(subNodes[..i])
      {
        assert subNodes[..i + 1][..i] == subNodes[..i];
        var node := subNodes[i];
        if node.urlSegment == s {
          ExactIndexPrefix(subNodes, i + 1, s);
          return Some(node);
        }
        if |node.urlSegment| > 0 && node.urlSegment[0] == ':' {
          candidate := Some(node);
        }
      }
      assert subNodes[..|subNodes|] == subNodes;
      r := candidate;
    }

    /**
     * `getOrCreateSubNode(s)`: the child `getSubNode(s)` finds, the child list
     * unchanged; otherwise a new childless, handler-less node with segment `s`,
     * made by this node one level below it, appended at the end of the list.
     */
    method GetOrCreateSubNode(s: string) returns (r: RouteNode)
      modifies this
      ensures Lookup(old(subNodes), s).Some? ==> r == Lookup(old(subNodes), s).value && subNodes == old(subNodes)
      ensures Lookup(old(subNodes), s).None? ==>
        && fresh(r) && subNodes == old(subNodes) + [r]
        && r.urlSegment == s && r.subNodes == [] && r.controllerClass == None
        && r.depth == depth + 1 && r.parent == Some(this)
      ensures controllerClass == old(controllerClass)
    {
      var node := GetSubNode(s);
      if node.Some? {
        return node.value;
      }
      r := new RouteNode(s, depth + 1, Some(this));
      subNodes := subNodes + [r];
    }
  }

  /** The index of the first child whose segment is exactly `s`. */
  function ExactIndex(kids: seq<RouteNode>, s: string): (r: Option<nat>)
    ensures r.None? <==> forall j | 0 <= j < |kids| :: kids[j].urlSegment != s
    ensures r.Some? ==> r.value < |kids| && kids[r.value].urlSegment == s
    ensures r.Some? ==> forall j | 0 <= j < r.value :: kids[j].urlSegment != s
    decreases |kids|
  {
    if kids == [] then None
    else
      var front := ExactIndex(kids[..|kids| - 1], s);
      if front.Some? then front
      else if kids[|kids| - 1].urlSegment == s then Some(|kids| - 1)
      else None
  }

  /** The first exact match found in a prefix is the first exact match of the whole list. */
  lemma {:induction false} ExactIndexPrefix(kids: seq<RouteNode>, k: nat, s: string)
    requires k <= |kids| && ExactIndex(kids[..k], s).Some?
    ensures ExactIndex(kids, s) == ExactIndex(kids[..k], s)
    decreases |kids| - k
  {
    if k < |kids| {
      assert kids[..k + 1][..k] == kids[..k];
      ExactIndexPrefix(kids, k + 1, s);
    } else {
      assert kids[..k] == kids;
    }
  }

  /** The last child whose segment is a parameter. */
  function LastParam(kids: seq<RouteNode>): (r: Option<RouteNode>)
    ensures r.None? <==> forall j | 0 <= j < |kids| :: !IsParam(kids[j].urlSegment)
    ensures r.Some? ==> exists i | 0 <= i < |kids| ::
      && kids[i] == r.value && IsParam(r.value.urlSegment)
      && forall j | i < j < |kids| :: !IsParam(kids[j].urlSegment)
    decreases |kids|
  {
    if kids == [] then None
    else if IsParam(kids[|kids| - 1].urlSegment) then Some(kids[|kids| - 1])
    else LastParam(kids[..|kids| - 1])
  }

  /** The first child whose segment is a parameter. */
  function FirstParam(kids: seq<RouteNode>): (r: Option<RouteNode>)
    ensures r.None? <==> forall j | 0 <= j < |kids| :: !IsParam(kids[j].urlSegment)
    ensures r.Some? ==> exists i | 0 <= i < |kids| ::
      && kids[i] == r.value && IsParam(r.value.urlSegment)
      && forall j | 0 <= j < i :: !IsParam(kids[j].urlSegment)
    decreases |kids|
  {
    if kids == [] then None
    else if IsParam(kids[0].urlSegment) then Some(kids[0])
    else FirstParam(kids[1..])
  }

  /**
   * What `getSubNode(s)` returns for the child list `kids`: an exact match
   * wins wherever it sits; otherwise the last parameter child, or nothing.
   */
  function Lookup(kids: seq<RouteNode>, s: string): (r: Option<RouteNode>)
    ensures r.Some? ==> r.value in kids
  {
    match ExactIndex(kids, s)
    case Some(i) => Some(kids[i])
    case None => LastParam(kids)
  }

  /**
   * When some child has segment `s`, the first such child is found: a literal
   * segment is preferred to a parameter child wherever the two sit.
   */
  lemma LiteralWins(kids: seq<RouteNode>, s: string, i: nat)
    requires i < |kids| && kids[i].urlSegment == s
    ensures exists f | 0 <= f <= i ::
      && Lookup(kids, s) == Some(kids[f]) && kids[f].urlSegment == s
      && forall k | 0 <= k < f :: kids[k].urlSegment != s
  {
    var f := ExactIndex(kids, s).value;
    assert Lookup(kids, s) == Some(kids[f]);
  }

  /** Without an exact match, any segment collapses into the parameter child, if there is one. */
  lemma CollapseIntoParam(kids: seq<RouteNode>, s: string)
    requires forall j | 0 <= j < |kids| :: kids[j].urlSegment != s
    ensures Lookup(kids, s) == LastParam(kids)
    ensures Lookup(kids, s).Some? ==> IsParam(Lookup(kids, s).value.urlSegment)
  {
  }

  /** What `getSubNode(s)` finds carries the segment `s` itself or is a parameter. */
  lemma LookupSegment(kids: seq<RouteNode>, s: string)
    requires Lookup(kids, s).Some?
    ensures Lookup(kids, s).value.urlSegment == s || IsParam(Lookup(kids, s).value.urlSegment)
  {
  }

  /** `getSubNode` finds nothing exactly when no child matches and no child is a parameter. */
  lemma LookupNone(kids: seq<RouteNode>, s: string)
    ensures Lookup(kids, s).None? <==>
      forall j | 0 <= j < |kids| :: kids[j].urlSegment != s && !IsParam(kids[j].urlSegment)
  {
  }

  /**
   * Built the way `getOrCreateSubNode` builds it: each child was appended when
   * `getSubNode` found nothing for its segment among the children before it.
   */
  predicate WellFormed(kids: seq<RouteNode>)
  {
    forall i | 0 <= i < |kids| :: Fits(kids[..i], kids[i])
  }

  /** `r` shares its segment with no child of `kids`, and they are not both parameters. */
  predicate Fits(kids: seq<RouteNode>, r: RouteNode)
  {
    forall j | 0 <= j < |kids| :: kids[j].urlSegment != r.urlSegment && !(IsParam(kids[j].urlSegment) && IsParam(r.urlSegment))
  }

  /** No two children of a well-formed list share a segment, and at most one is a parameter. */
  lemma WellFormedDistinct(kids: seq<RouteNode>)
    requires WellFormed(kids)
    ensures forall i, j | 0 <= i < j < |kids| :: kids[i].urlSegment != kids[j].urlSegment
    ensures forall i, j | 0 <= i < j < |kids| :: !(IsParam(kids[i].urlSegment) && IsParam(kids[j].urlSegment))
  {
    forall i, j | 0 <= i < j < |kids|
      ensures kids[i].urlSegment != kids[j].urlSegment && !(IsParam(kids[i].urlSegment) && IsParam(kids[j].urlSegment))
    {
      assert Fits(kids[..j], kids[j]);
      assert kids[..j][i] == kids[i];
    }
  }

  /** Appending a child for a segment that `getSubNode` does not find keeps the list well formed. */
  lemma AppendKeepsWellFormed(kids: seq<RouteNode>, r: RouteNode)
    requires WellFormed(kids) && Lookup(kids, r.urlSegment).None?
    ensures WellFormed(kids + [r])
  {
    LookupNone(kids, r.urlSegment);
    var all := kids + [r];
    forall i | 0 <= i < |all|
      ensures Fits(all[..i], all[i])
    {
      if i < |kids| {
        assert all[..i] == kids[..i] && all[i] == kids[i];
      } else {
        assert all[..i] == kids;
      }
    }
  }

  /** The appended node is what `getSubNode` now finds for its segment. */
  lemma AppendFound(kids: seq<RouteNode>, r: RouteNode)
    requires Lookup(kids, r.urlSegment).None?
    ensures Lookup(kids + [r], r.urlSegment) == Some(r)
  {
    LookupNone(kids, r.urlSegment);
    var all := kids + [r];
    assert all[..|all| - 1] == kids;
  }

  /**
   * How a child list changes while routes are added: it stays the same, or
   * children are appended to a list that has no parameter child (a list with
   * one never grows, since `getSubNode` then always finds something).
   */
  predicate Grows(a: seq<RouteNode>, b: seq<RouteNode>)
  {
    a == b || (a <= b && LastParam(a).None?)
  }

  /** Growing keeps every successful `getSubNode` answer. */
  lemma LookupGrows(a: seq<RouteNode>, b: seq<RouteNode>, s: string)
    requires Grows(a, b) && Lookup(a, s).Some?
    ensures Lookup(b, s) == Lookup(a, s)
  {
    if a != b {
      var i := ExactIndex(a, s).value;
      assert b[..|a|] == a;
      ExactIndexPrefix(b, |a|, s);
    }
  }

  lemma GrowsTransitive(a: seq<RouteNode>, b: seq<RouteNode>, c: seq<RouteNode>)
    requires Grows(a, b) && Grows(b, c)
    ensures Grows(a, c)
  {
  }
}
