/**
 * Properties of PinTree that span several calls: the invariant holds in every
 * state a sequence of calls can reach, the scenarios of the crate's own
 * examples, what re-parenting and removal leave behind as written, and the
 * corrected re-parenting, which keeps the parent map and the child sets in
 * exact agreement.
 */
module TreeProperties {
  import opened PinNodes
  import opened TreeModel

  /**
   * One call of a mutating operation. `node(v)` is `node_from` applied to a
   * handle nothing has seen yet, so it needs no case of its own.
   */
  datatype Call<T> =
    | NodeFromCall(node: PinNode<T>)
    | SetParentCall(child: PinNode<T>, parent: PinNode<T>)
    | UnsetParentCall(child: PinNode<T>, parent: PinNode<T>)
    | RemoveCall(node: PinNode<T>)

  /** The state after one call, with set_parent as written. */
  function Apply<T>(t: Tree<T>, call: Call<T>): Tree<T>
  {
    match call
    case NodeFromCall(n) => t.NodeFrom(n).tree
    case SetParentCall(c, p) => t.SetParent(c, p).tree
    case UnsetParentCall(c, p) => t.UnsetParent(c, p).tree
    case RemoveCall(n) => t.Remove(n).tree
  }

  /** The state after a sequence of calls, first call first. */
  function Run<T>(t: Tree<T>, calls: seq<Call<T>>): Tree<T>
    decreases |calls|
  {
    if calls == [] then t else Run(Apply(t, calls[0]), calls[1..])
  }

  lemma ApplyKeepsValid<T>(t: Tree<T>, call: Call<T>)
    requires t.Valid()
    ensures Apply(t, call).Valid()
  {
    match call
    case NodeFromCall(n) => NodeFromKeepsValid(t, n);
    case SetParentCall(c, p) => SetParentKeepsValid(t, c, p);
    case UnsetParentCall(c, p) => UnsetParentKeepsValid(t, c, p);
    case RemoveCall(n) => RemoveKeepsValid(t, n);
  }

  /** Every mutating operation keeps the invariant, so any sequence of them does. */
  lemma {:induction false} RunKeepsValid<T>(t: Tree<T>, calls: seq<Call<T>>)
    requires t.Valid()
    ensures Run(t, calls).Valid()
    decreases |calls|
  {
    if calls != [] {
      ApplyKeepsValid(t, calls[0]);
      RunKeepsValid(Apply(t, calls[0]), calls[1..]);
    }
  }

  /**
   * Every state a new tree can reach: registered handles bound both maps, and
   * each parent edge is listed in the parent's child set.
   */
  lemma ReachableStatesValid<T>(calls: seq<Call<T>>)
    ensures Run(EmptyTree(), calls).Valid()
  {
    RunKeepsValid(EmptyTree(), calls);
  }

  // ---------------------------------------------------------------- scenarios

  /**
   * Three handles a, b, c; b and c made children of a. Both calls report a
   * change, the relations hold both ways, a's children are exactly b and c,
   * and b's parent is a.
   */
  lemma TwoChildrenScenario<T>(a: PinNode<T>, b: PinNode<T>, c: PinNode<T>)
    requires a != b && b != c && a != c
    ensures
      var t0 := EmptyTree().NodeFrom(a).tree.NodeFrom(b).tree.NodeFrom(c).tree;
      var s1 := t0.SetParent(b, a);
      var s2 := s1.tree.SetParent(c, a);
      && s1.result && s2.result
      && s2.tree.IsParent(b, a) && s2.tree.IsChild(a, c)
      && s2.tree.GetChilds(a) == {b, c}
      && s2.tree.GetParent(b) == Some(a)
  {
  }

  /**
   * Cycles and self-loops are accepted: b under a, a under c and c under b all
   * hold at once, and a fourth handle can be its own parent without
   * disturbing them.
   */
  lemma CyclesAccepted<T>(a: PinNode<T>, b: PinNode<T>, c: PinNode<T>, d: PinNode<T>)
    requires a != b && b != c && a != c
    requires d != a && d != b && d != c
    ensures
      var t := EmptyTree().SetParent(b, a).tree.SetParent(a, c).tree.SetParent(c, b).tree;
      var u := t.SetParent(d, d);
      && t.IsParent(b, a) && t.IsParent(a, c) && t.IsParent(c, b)
      && u.result && u.tree.IsParent(d, d)
      && u.tree.IsParent(b, a) && u.tree.IsParent(a, c) && u.tree.IsParent(c, b)
  {
  }

  /** set_parent twice in a row reports true, then false; unset_parent then erases the edge. */
  lemma SetTwiceThenUnset<T>(t: Tree<T>, a: PinNode<T>, b: PinNode<T>)
    requires t.Valid() && !t.IsParent(b, a)
    ensures
      var s1 := t.SetParent(b, a);
      var s2 := s1.tree.SetParent(b, a);
      var s3 := s2.tree.UnsetParent(b, a);
      && s1.result && !s2.result && s2.tree == s1.tree
      && s3.result && !s3.tree.IsParent(b, a)
      && !s3.tree.UnsetParent(b, a).result
  {
  }

  /** Removing a parent severs its child's edge to it. */
  lemma RemoveSeversEdge<T>(t: Tree<T>, a: PinNode<T>, b: PinNode<T>)
    requires t.Valid() && a != b
    ensures
      var s := t.SetParent(b, a).tree.Remove(a);
      && s.result
      && !s.tree.IsParent(b, a)
      && s.tree.GetParent(b) == None
      && s.tree.Has(b)
  {
  }

  // ---------------------------------------- what the code as written leaves

  /**
   * Re-parenting as written: the new edge holds and the old one does not, but
   * the former parent still lists the handle as its child, so the child sets
   * no longer mirror the parent map.
   */
  lemma ReparentLeavesStaleChild<T>(t: Tree<T>, child: PinNode<T>, p1: PinNode<T>, p2: PinNode<T>)
    requires t.Valid() && t.IsParent(child, p1) && p1 != p2
    ensures
      var s := t.SetParent(child, p2);
      && s.result
      && s.tree.IsParent(child, p2) && !s.tree.IsParent(child, p1)
      && s.tree.IsChild(p1, child)
      && !s.tree.ChildrenListed()
  {
  }

  /**
   * Removing a handle clears the parent edge of everything listed under it,
   * stale entries included: a handle whose live parent is another node loses
   * that edge as well.
   */
  lemma RemoveCutsLiveEdge<T>(t: Tree<T>, node: PinNode<T>, child: PinNode<T>, q: PinNode<T>)
    requires t.Valid() && t.Has(node) && t.IsChild(node, child) && t.IsParent(child, q)
    requires q != node && child != node
    ensures t.Remove(node).result
    ensures t.Remove(node).tree.Has(q)
    ensures t.Remove(node).tree.GetParent(child) == None
  {
  }

  /**
   * Both effects in a state a new tree reaches: b is re-parented from a to c,
   * then a is removed, and b has lost its edge to c although c is still
   * registered.
   */
  lemma ReparentThenRemoveOrphans<T>(a: PinNode<T>, b: PinNode<T>, c: PinNode<T>)
    requires a != b && b != c && a != c
    ensures
      var t := EmptyTree().SetParent(b, a).tree.SetParent(b, c).tree;
      && t.IsParent(b, c) && t.IsChild(a, b)
      && t.Remove(a).tree.Has(c)
      && t.Remove(a).tree.GetParent(b) == None
  {
  }

  // -------------------------------------------- corrected re-parenting

  /**
   * The corrected set_parent: same result as set_parent, and afterwards the
   * handle is listed under its new parent and under no other.
   */
  lemma SetParentDetachingOutcome<T>(t: Tree<T>, child: PinNode<T>, parent: PinNode<T>)
    requires t.Valid() && t.ChildrenListed()
    ensures var s := t.SetParentDetaching(child, parent);
      && s.result == t.SetParent(child, parent).result
      && s.tree.Has(child) && s.tree.Has(parent)
      && s.tree.IsParent(child, parent) && s.tree.IsChild(parent, child)
      && (forall q :: q != parent ==> !s.tree.IsChild(q, child))
  {
  }

  /**
   * What the corrected set_parent leaves alone: registrations only grow by
   * the two handles, every other handle keeps its parent edge, the former
   * parent loses exactly the child, the new parent gains exactly the child,
   * and every other child set is unchanged.
   */
  lemma SetParentDetachingFrame<T>(t: Tree<T>, child: PinNode<T>, parent: PinNode<T>)
    ensures var s := t.SetParentDetaching(child, parent);
      && s.tree.nodes == t.nodes + {child, parent}
      && (forall x :: x != child ==> s.tree.GetParent(x) == t.GetParent(x))
      && (forall q :: q != parent && !t.IsParent(child, q) ==> s.tree.GetChilds(q) == t.GetChilds(q))
      && (s.result && child in t.parents && t.parents[child] != parent ==>
            s.tree.GetChilds(t.parents[child]) == t.GetChilds(t.parents[child]) - {child})
      && (s.result ==> s.tree.GetChilds(parent) == t.GetChilds(parent) + {child})
  {
  }

  lemma NodeFromKeepsMirror<T>(t: Tree<T>, node: PinNode<T>)
    requires t.Valid() && t.ChildrenListed()
    ensures t.NodeFrom(node).tree.Valid() && t.NodeFrom(node).tree.ChildrenListed()
  {
    NodeFromKeepsValid(t, node);
  }

  lemma SetParentDetachingKeepsMirror<T>(t: Tree<T>, child: PinNode<T>, parent: PinNode<T>)
    requires t.Valid() && t.ChildrenListed()
    ensures t.SetParentDetaching(child, parent).tree.Valid()
    ensures t.SetParentDetaching(child, parent).tree.ChildrenListed()
  {
    SetParentDetachingKeepsValid(t, child, parent);
  }

  lemma UnsetParentKeepsMirror<T>(t: Tree<T>, child: PinNode<T>, parent: PinNode<T>)
    requires t.Valid() && t.ChildrenListed()
    ensures t.UnsetParent(child, parent).tree.Valid()
    ensures t.UnsetParent(child, parent).tree.ChildrenListed()
  {
    UnsetParentKeepsValid(t, child, parent);
  }

  lemma RemoveKeepsMirror<T>(t: Tree<T>, node: PinNode<T>)
    requires t.Valid() && t.ChildrenListed()
    ensures t.Remove(node).tree.Valid() && t.Remove(node).tree.ChildrenListed()
  {
    RemoveKeepsValid(t, node);
  }

  /**
   * With the child sets in agreement with the parent map, remove only cuts
   * the edges that point at the removed handle.
   */
  lemma RemoveSparesOtherEdges<T>(t: Tree<T>, node: PinNode<T>, c: PinNode<T>)
    requires t.Valid() && t.ChildrenListed()
    requires c != node && !t.IsParent(c, node)
    ensures t.Remove(node).tree.GetParent(c) == t.GetParent(c)
  {
  }

  /** The state after one call, with the corrected set_parent. */
  function ApplyDetaching<T>(t: Tree<T>, call: Call<T>): Tree<T>
  {
    match call
    case NodeFromCall(n) => t.NodeFrom(n).tree
    case SetParentCall(c, p) => t.SetParentDetaching(c, p).tree
    case UnsetParentCall(c, p) => t.UnsetParent(c, p).tree
    case RemoveCall(n) => t.Remove(n).tree
  }

  /** The state after a sequence of calls, with the corrected set_parent. */
  function RunDetaching<T>(t: Tree<T>, calls: seq<Call<T>>): Tree<T>
    decreases |calls|
  {
    if calls == [] then t else RunDetaching(ApplyDetaching(t, calls[0]), calls[1..])
  }

  /**
   * With the corrected set_parent, every reachable state has the parent map
   * and the child sets in exact agreement: `parents[x] == p` iff x is listed
   * under p.
   */
  lemma {:induction false} RunDetachingKeepsMirror<T>(t: Tree<T>, calls: seq<Call<T>>)
    requires t.Valid() && t.ChildrenListed()
    ensures RunDetaching(t, calls).Valid() && RunDetaching(t, calls).ChildrenListed()
    decreases |calls|
  {
    if calls != [] {
      var u := ApplyDetaching(t, calls[0]);
      match calls[0] {
        case NodeFromCall(n) => NodeFromKeepsMirror(t, n);
        case SetParentCall(c, p) => SetParentDetachingKeepsMirror(t, c, p);
        case UnsetParentCall(c, p) => UnsetParentKeepsMirror(t, c, p);
        case RemoveCall(n) => RemoveKeepsMirror(t, n);
      }
      RunDetachingKeepsMirror(u, calls[1..]);
    }
  }
}
