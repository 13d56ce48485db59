/**
 * PinTree's state: a relation index over PinNode handles.
 *
 * The tree keeps three collections keyed by handle identity: the registered
 * handles, a single-valued parent map, and a map from a handle to the set of
 * handles recorded as its children. Cycles and self-loops are accepted.
 *
 * This module is the tree's state as a value, `Tree`, with one function per
 * operation giving the new state and the boolean the operation returns, and
 * the lemmas that say what each operation does. The class in module PinTrees
 * updates the same three collections in place and is proved to produce
 * exactly what these functions describe.
 */
module TreeModel {
  import opened PinNodes

  datatype Option<T> = None | Some(value: T)

  /** The state of a tree together with the boolean an operation returned. */
  datatype Step<T> = Step(tree: Tree<T>, result: bool)

  datatype Tree<T> = Tree(
    nodes: set<PinNode<T>>,
    parents: map<PinNode<T>, PinNode<T>>,
    childs: map<PinNode<T>, set<PinNode<T>>>)
  {
    // ---------------------------------------------------------------- queries

    /** Membership of a handle among the registered ones. */
    predicate Has(node: PinNode<T>)
    {
      node in nodes
    }

    /** `parent` is the recorded parent of `child`. */
    predicate IsParent(child: PinNode<T>, parent: PinNode<T>)
    {
      child in parents && parents[child] == parent
    }

    /** `child` is in the child set recorded under `parent`. */
    predicate IsChild(parent: PinNode<T>, child: PinNode<T>)
    {
      parent in childs && child in childs[parent]
    }

    /** The recorded parent of `node`, if any. */
    function GetParent(node: PinNode<T>): (r: Option<PinNode<T>>)
      ensures r.Some? <==> node in parents
      ensures r.Some? ==> IsParent(node, r.value)
    {
      if node in parents then Some(parents[node]) else None
    }

    /** The child set recorded under `node`; empty when there is no entry. */
    function GetChilds(node: PinNode<T>): (r: set<PinNode<T>>)
      ensures forall c :: c in r ==> IsChild(node, c)
      ensures node in childs ==> forall c :: c in childs[node] ==> c in r
      ensures node !in childs ==> r == {}
    {
      if node in childs then childs[node] else {}
    }

    // -------------------------------------------------------------- invariant

    /** Every handle the two maps mention as a key or a parent is registered. */
    ghost predicate Bounded()
    {
      && (forall c :: c in parents ==> c in nodes && parents[c] in nodes)
      && (forall p :: p in childs ==> p in nodes)
    }

    /** One half of the mirror: a parent edge is listed in the parent's child set. */
    ghost predicate ParentsListed()
    {
      forall c :: c in parents ==> IsChild(parents[c], c)
    }

    /**
     * The invariant every operation keeps. The converse of ParentsListed (every
     * child-set member has that parent) is not part of it: re-parenting leaves
     * the former parent's entry behind.
     */
    ghost predicate Valid()
    {
      Bounded() && ParentsListed()
    }

    /** The other half of the mirror, which the corrected re-parenting keeps. */
    ghost predicate ChildrenListed()
    {
      forall p, c :: p in childs && c in childs[p] ==> IsParent(c, p)
    }

    // ------------------------------------------------------------ transitions

    /** Registers `node`; true iff it was not registered before. */
    function NodeFrom(node: PinNode<T>): Step<T>
    {
      Step(this.(nodes := nodes + {node}), node !in nodes)
    }

    /**
     * Removes `child` from the child set under `parent`, keeping the (possibly
     * empty) entry; true iff `child` was in it.
     */
    function RemoveChild(parent: PinNode<T>, child: PinNode<T>): Step<T>
    {
      if parent in childs then
        Step(this.(childs := childs[parent := childs[parent] - {child}]), child in childs[parent])
      else
        Step(this, false)
    }

    /** Adds `child` to the child set under `parent`, creating the entry if needed. */
    function AddChild(parent: PinNode<T>, child: PinNode<T>): Tree<T>
    {
      this.(childs := childs[parent := GetChilds(parent) + {child}])
    }

    /**
     * set_parent as written: registers both handles, stops with false when the
     * edge already holds, otherwise removes `child` from the NEW parent's child
     * set (not the old parent's), records the edge and lists `child` under
     * `parent`.
     */
    function SetParent(child: PinNode<T>, parent: PinNode<T>): Step<T>
    {
      var t1 := NodeFrom(child).tree.NodeFrom(parent).tree;
      if t1.IsParent(child, parent) then
        Step(t1, false)
      else
        var t2 := t1.RemoveChild(parent, child).tree;
        Step(t2.(parents := t2.parents[child := parent]).AddChild(parent, child), true)
    }

    /**
     * set_parent with the old parent's entry detached first: the corrected
     * definition, which keeps both halves of the mirror.
     */
    function SetParentDetaching(child: PinNode<T>, parent: PinNode<T>): Step<T>
    {
      var t1 := NodeFrom(child).tree.NodeFrom(parent).tree;
      if t1.IsParent(child, parent) then
        Step(t1, false)
      else
        var t2 := if child in t1.parents then t1.RemoveChild(t1.parents[child], child).tree else t1;
        Step(t2.(parents := t2.parents[child := parent]).AddChild(parent, child), true)
    }

    /** Erases the edge `child -> parent` if it holds; true iff it held. */
    function UnsetParent(child: PinNode<T>, parent: PinNode<T>): Step<T>
    {
      if !IsParent(child, parent) then
        Step(this, false)
      else
        Step(this.(parents := parents - {child}).RemoveChild(parent, child).tree, true)
    }

    /**
     * Removes `node`: detaches it from its parent, drops its own child-set
     * entry, erases the parent edge of every handle that entry listed, and
     * unregisters it. False, with no change, when it is not registered.
     */
    function Remove(node: PinNode<T>): Step<T>
    {
      if node !in nodes then
        Step(this, false)
      else
        var t1 := if node in parents then
                    var t := RemoveChild(parents[node], node).tree;
                    t.(parents := t.parents - {node})
                  else this;
        var kids := t1.GetChilds(node);
        Step(Tree(t1.nodes - {node}, t1.parents - kids, t1.childs - {node}), true)
    }
  }

  /** The state of a new tree. */
  function EmptyTree<T>(): (t: Tree<T>)
    ensures t.Valid() && t.ChildrenListed()
    ensures |t.nodes| == 0
  {
    Tree({}, map[], map[])
  }

  // ----------------------------------------------------------------- lookups

  /** get_parent yields exactly the handle `is_parent` accepts. */
  lemma GetParentIff<T>(t: Tree<T>, node: PinNode<T>, p: PinNode<T>)
    ensures t.GetParent(node) == Some(p) <==> t.IsParent(node, p)
  {
  }

  /** get_childs yields exactly the handles `is_child` accepts, or nothing. */
  lemma GetChildsIff<T>(t: Tree<T>, node: PinNode<T>, c: PinNode<T>)
    ensures c in t.GetChilds(node) <==> t.IsChild(node, c)
  {
  }

  // ---------------------------------------------------------------- node_from

  /**
   * node_from registers the handle and reports whether it was new; a second
   * call with the same handle reports false and changes nothing.
   */
  lemma NodeFromOutcome<T>(t: Tree<T>, node: PinNode<T>)
    ensures t.NodeFrom(node).result <==> !t.Has(node)
    ensures t.NodeFrom(node).tree.Has(node)
    ensures t.NodeFrom(node).tree.nodes == t.nodes + {node}
    ensures t.NodeFrom(node).tree.parents == t.parents
    ensures t.NodeFrom(node).tree.childs == t.childs
    ensures t.NodeFrom(node).tree.NodeFrom(node) == Step(t.NodeFrom(node).tree, false)
  {
  }

  lemma NodeFromKeepsValid<T>(t: Tree<T>, node: PinNode<T>)
    requires t.Valid()
    ensures t.NodeFrom(node).tree.Valid()
  {
  }

  // ------------------------------------------------------------- remove_child

  /**
   * remove_child reports whether `child` was listed under `parent`, leaves it
   * unlisted there, and touches no other child set, no parent edge and no
   * registration.
   */
  lemma RemoveChildOutcome<T>(t: Tree<T>, parent: PinNode<T>, child: PinNode<T>)
    ensures t.RemoveChild(parent, child).result <==> t.IsChild(parent, child)
    ensures !t.RemoveChild(parent, child).tree.IsChild(parent, child)
    ensures t.RemoveChild(parent, child).tree.GetChilds(parent) == t.GetChilds(parent) - {child}
    ensures t.RemoveChild(parent, child).tree.childs.Keys == t.childs.Keys
    ensures forall q :: q != parent ==> t.RemoveChild(parent, child).tree.GetChilds(q) == t.GetChilds(q)
    ensures t.RemoveChild(parent, child).tree.nodes == t.nodes
    ensures t.RemoveChild(parent, child).tree.parents == t.parents
  {
  }

  // --------------------------------------------------------------- set_parent

  /**
   * set_parent always leaves both handles registered. It returns false, and
   * changes nothing beyond that registration, exactly when the edge already
   * held; otherwise it returns true and afterwards the edge holds in both
   * directions.
   */
  lemma SetParentOutcome<T>(t: Tree<T>, child: PinNode<T>, parent: PinNode<T>)
    requires t.Valid()
    ensures var s := t.SetParent(child, parent);
      && s.tree.Has(child) && s.tree.Has(parent)
      && (s.result <==> !t.IsParent(child, parent))
      && (!s.result ==> s.tree == t.NodeFrom(child).tree.NodeFrom(parent).tree)
      && s.tree.IsParent(child, parent) && s.tree.IsChild(parent, child)
  {
  }

  /**
   * set_parent changes the registrations, the parent edge of `child` and the
   * child set of `parent`, nothing else: every other child set, the former
   * parent's included, is left as it was.
   */
  lemma SetParentFrame<T>(t: Tree<T>, child: PinNode<T>, parent: PinNode<T>)
    ensures var s := t.SetParent(child, parent);
      && s.tree.nodes == t.nodes + {child, parent}
      && (forall x :: x != child ==> s.tree.GetParent(x) == t.GetParent(x))
      && (forall q :: q != parent ==> s.tree.GetChilds(q) == t.GetChilds(q))
      && s.tree.childs.Keys <= t.childs.Keys + {parent}
      && (s.result ==> s.tree.GetChilds(parent) == t.GetChilds(parent) + {child})
  {
  }

  lemma SetParentKeepsValid<T>(t: Tree<T>, child: PinNode<T>, parent: PinNode<T>)
    requires t.Valid()
    ensures t.SetParent(child, parent).tree.Valid()
  {
  }

  // ------------------------------------------------------------- unset_parent

  /**
   * unset_parent changes nothing and returns false unless the edge held; then
   * it returns true, erases the edge, unlists `child` under `parent` and
   * keeps every registration.
   */
  lemma UnsetParentOutcome<T>(t: Tree<T>, child: PinNode<T>, parent: PinNode<T>)
    ensures var s := t.UnsetParent(child, parent);
      && (s.result <==> t.IsParent(child, parent))
      && (!s.result ==> s.tree == t)
      && (s.result ==>
            && s.tree.nodes == t.nodes
            && s.tree.GetParent(child) == None
            && !s.tree.IsChild(parent, child)
            && s.tree.GetChilds(parent) == t.GetChilds(parent) - {child}
            && s.tree.childs.Keys == t.childs.Keys
            && (forall x :: x != child ==> s.tree.GetParent(x) == t.GetParent(x))
            && (forall q :: q != parent ==> s.tree.GetChilds(q) == t.GetChilds(q)))
  {
  }

  lemma UnsetParentKeepsValid<T>(t: Tree<T>, child: PinNode<T>, parent: PinNode<T>)
    requires t.Valid()
    ensures t.UnsetParent(child, parent).tree.Valid()
  {
  }

  // ------------------------------------------------------------------- remove

  /**
   * remove changes nothing and returns false for an unregistered handle.
   * Otherwise it returns true, and afterwards the handle is unregistered, has
   * no parent, has no child-set entry and is nobody's parent.
   */
  lemma RemoveOutcome<T>(t: Tree<T>, node: PinNode<T>)
    requires t.Valid()
    ensures var s := t.Remove(node);
      && (s.result <==> t.Has(node))
      && (!s.result ==> s.tree == t)
      && !s.tree.Has(node)
      && s.tree.GetParent(node) == None
      && node !in s.tree.childs
      && (forall c :: !s.tree.IsParent(c, node))
      && s.tree.nodes == t.nodes - {node}
  {
  }

  /**
   * The edges remove leaves alone: a handle other than `node` keeps its parent
   * edge unless it is listed under `node`. With RemoveCutsLiveEdge this says
   * exactly which edges remove cuts.
   */
  lemma RemoveFrame<T>(t: Tree<T>, node: PinNode<T>, c: PinNode<T>)
    requires t.Valid() && t.Has(node)
    requires c != node && !t.IsChild(node, c)
    ensures t.Remove(node).tree.GetParent(c) == t.GetParent(c)
  {
  }

  /**
   * The child sets remove leaves alone: the former parent of `node` loses
   * `node` from its set, `node`'s own entry is dropped, and every other child
   * set is unchanged.
   */
  lemma RemoveChildsFrame<T>(t: Tree<T>, node: PinNode<T>, q: PinNode<T>)
    requires t.Valid() && t.Has(node) && q != node
    ensures t.IsParent(node, q) ==> t.Remove(node).tree.GetChilds(q) == t.GetChilds(q) - {node}
    ensures !t.IsParent(node, q) ==> t.Remove(node).tree.GetChilds(q) == t.GetChilds(q)
    ensures q in t.Remove(node).tree.childs <==> q in t.childs
  {
  }

  lemma RemoveKeepsValid<T>(t: Tree<T>, node: PinNode<T>)
    requires t.Valid()
    ensures t.Remove(node).tree.Valid()
  {
  }

  // ------------------------------------------- set_parent, corrected variant

  lemma SetParentDetachingKeepsValid<T>(t: Tree<T>, child: PinNode<T>, parent: PinNode<T>)
    requires t.Valid()
    ensures t.SetParentDetaching(child, parent).tree.Valid()
  {
  }
}
