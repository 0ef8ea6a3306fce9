/**
 * The node collection of a nested-set tree and the three operations that
 * rebuild the in-memory tree from it: `LinkNodes` fills every node's
 * `parent` and `children` relation slots, `GetRootNodeId` resolves the
 * `$root` argument, and `ToTree` links and then keeps the children of the
 * resolved root.
 *
 * The nodes form an arena: a relation slot names another node by its index
 * in `nodes`, and `ToTree` returns indices, that is, the same node objects.
 */
module Nestedset {
  import opened LinkSpec

  class Collection {
    /** The node records, in the collection's order. */
    const nodes: seq<Node>
    /** The `parent` relation slot of each node. */
    const parent: array<ParentSlot>
    /** The `children` relation slot of each node: indices of its children. */
    const children: array<seq<nat>>

    /** Both slot arrays cover the nodes, and every slot names a node of the collection. */
    ghost predicate Valid()
      reads parent, children
    {
      && parent.Length == |nodes|
      && children.Length == |nodes|
      && SlotsInRange(|nodes|, parent[..], children[..])
    }

    /**
     * A collection of `items` as fetched from storage; `loaded` gives each
     * node's `parent` relation as it stands before linking (eager-loaded,
     * set to null, or never loaded).
     */
    constructor (items: seq<Node>, loaded: seq<ParentSlot>)
      requires |loaded| == |items|
      requires forall j :: 0 <= j < |items| && loaded[j].ParentAt? ==> loaded[j].index < |items|
      ensures Valid() && fresh(parent) && fresh(children)
      ensures nodes == items && parent[..] == loaded
      ensures forall j :: 0 <= j < |items| ==> children[j] == []
    {
      nodes := items;
      parent := new ParentSlot[|items|](j requires 0 <= j < |items| => loaded[j]);
      children := new seq<nat>[|items|](_ => []);
    }

    /**
     * The grouping index `groupBy(parent id)`: each parent id that occurs
     * maps to the indices of the nodes carrying it, in collection order.
     */
    method GroupByParent() returns (groups: map<Option<Id>, seq<nat>>)
      ensures forall pid :: Get(groups, pid) == Group(nodes, pid)
      ensures forall pid :: pid in groups ==> groups[pid] != []
    {
      groups := map[];
      var j := 0;
      while j < |nodes|
        invariant 0 <= j <= |nodes|
        invariant forall pid :: Get(groups, pid) == Matching(nodes, pid, j)
        invariant forall pid :: pid in groups ==> groups[pid] != []
      {
        var pid := nodes[j].parentId;
        groups := groups[pid := Get(groups, pid) + [j]];
        j := j + 1;
      }
    }

    /**
     * Fills the `parent` and `children` slots of every node: a node's
     * children are the nodes whose parent id is its key, and each of those
     * points back at it; a node nobody claims keeps a parent it already
     * had, or gets null.
     */
    method LinkNodes()
      requires Valid()
      modifies parent, children
      ensures Valid()
      ensures parent[..] == LinkedParents(nodes, old(parent[..]))
      ensures children[..] == LinkedChildren(nodes)
      ensures |nodes| == 0 ==> parent[..] == old(parent[..]) && children[..] == old(children[..])
    {
      if |nodes| == 0 {
        return;
      }
      ghost var init, initKids := parent[..], children[..];
      var groups := GroupByParent();
      var i := 0;
      while i < |nodes|
        invariant 0 <= i <= |nodes|
        invariant parent.Length == |nodes| && children.Length == |nodes|
        invariant parent[..] == ParentsAfter(nodes, init, i)
        invariant children[..] == ChildrenAfter(nodes, initKids, i)
      {
        ParentsStep(nodes, init, i);
        ChildrenStep(nodes, initKids, i);
        LinkOne(i, Get(groups, Some(nodes[i].key)));
        i := i + 1;
      }
      assert parent[..] == LinkedParents(nodes, init) && children[..] == LinkedChildren(nodes)
        && SlotsInRange(|nodes|, parent[..], children[..]) by {
        LinkedSlotsValid(nodes, init, initKids);
      }
    }

    /**
     * One turn of the linking loop for node `i`: an unset parent becomes
     * null, each of `kids` points at node `i`, and `kids` become its children.
     */
    method LinkOne(i: nat, kids: seq<nat>)
      requires parent.Length == |nodes| && children.Length == |nodes| && i < |nodes|
      requires kids == Group(nodes, Some(nodes[i].key))
      modifies parent, children
      ensures parent[..] == PointedAt(NullIfUnset(old(parent[..]), i), kids, i)
      ensures children[..] == old(children[..])[i := kids]
    {
      if !parent[i].ParentAt? {
        parent[i] := NoParent;
      }
      MatchingExact(nodes, Some(nodes[i].key), |nodes|);
      PointAt(kids, i);
      children[i] := kids;
    }

    /** Points the `parent` slot of each of `kids` at node `i`. */
    method PointAt(kids: seq<nat>, i: nat)
      requires parent.Length == |nodes|
      requires forall c :: c in kids ==> c < |nodes|
      modifies parent
      ensures parent[..] == PointedAt(old(parent[..]), kids, i)
    {
      var m := 0;
      while m < |kids|
        invariant 0 <= m <= |kids|
        invariant forall j :: 0 <= j < |nodes| ==> parent[j] == if j in kids[..m] then ParentAt(i) else old(parent[j])
      {
        assert kids[..m + 1] == kids[..m] + [kids[m]];
        assert kids[m] in kids;
        parent[kids[m]] := ParentAt(i);
        m := m + 1;
      }
      assert kids[..m] == kids;
    }

    /**
     * The parent id whose children form the tree: a node's key, a raw id
     * unchanged, or, with the root omitted, the parent id of the first node
     * with the least `_lft` value.
     */
    method GetRootNodeId(root: RootSelector) returns (r: Option<Id>)
      ensures r == RootId(nodes, root)
    {
      if root.ByNode? {
        return Some(root.node.key);
      }
      r := if root.ById? then Some(root.id) else None;
      if root.Null? {
        var least: Option<int> := None;
        var i := 0;
        while i < |nodes|
          invariant 0 <= i <= |nodes|
          invariant i == 0 ==> least.None? && r.None?
          invariant i > 0 ==> least == Some(nodes[FirstLeast(nodes, i)].lft)
                              && r == nodes[FirstLeast(nodes, i)].parentId
        {
          if least.None? || nodes[i].lft < least.value {
            least := Some(nodes[i].lft);
            r := nodes[i].parentId;
          }
          i := i + 1;
        }
      }
    }

    /**
     * Links the whole collection, then returns the nodes whose parent id is
     * the resolved root id, in collection order; an empty collection gives
     * an empty tree and is left untouched.
     */
    method ToTree(root: RootSelector) returns (items: seq<nat>)
      requires Valid()
      modifies parent, children
      ensures Valid()
      ensures parent[..] == LinkedParents(nodes, old(parent[..]))
      ensures children[..] == LinkedChildren(nodes)
      ensures items == Group(nodes, RootId(nodes, root))
      ensures |nodes| == 0 ==> items == []
    {
      items := [];
      if |nodes| != 0 {
        LinkNodes();
        var rid := GetRootNodeId(root);
        var i := 0;
        while i < |nodes|
          invariant 0 <= i <= |nodes|
          invariant items == Matching(nodes, rid, i)
        {
          if nodes[i].parentId == rid {
            items := items + [i];
          }
          i := i + 1;
        }
      }
    }
  }

  /**
   * Linking a collection a second time leaves its relation slots exactly as
   * the first linking left them.
   */
  method LinkTwice(c: Collection)
    requires c.Valid()
    modifies c.parent, c.children
    ensures c.Valid()
    ensures c.parent[..] == LinkedParents(c.nodes, old(c.parent[..]))
    ensures c.children[..] == LinkedChildren(c.nodes)
  {
    c.LinkNodes();
    ghost var once := c.parent[..];
    c.LinkNodes();
    LinkIdempotent(c.nodes, old(c.parent[..]));
  }
}
