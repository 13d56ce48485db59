/**
 * PinTree: the relation index as an object whose three collections are
 * updated in place. Each method is proved to leave exactly the state, and
 * return exactly the boolean, that the matching function of TreeModel gives.
 * The public methods also keep the invariant `Valid`; the private helper
 * RemoveChild does not on its own (it can unlist a live edge), and is called
 * only where the caller restores it.
 */
module PinTrees {
  import opened PinNodes
  import opened TreeModel

  /**
   * The tree itself: three collections updated in place. `State()` reads them
   * as a Tree value.
   */
  class PinTree<T> {
    var nodes: set<PinNode<T>>
    var parents: map<PinNode<T>, PinNode<T>>
    var childs: map<PinNode<T>, set<PinNode<T>>>

    function State(): Tree<T>
      reads this
    {
      Tree(nodes, parents, childs)
    }

    constructor ()
      ensures State() == EmptyTree() && State().Valid()
    {
      nodes := {};
      parents := map[];
      childs := map[];
    }

    /** Wraps `v` in a fresh handle and registers it. */
    method Node(v: T) returns (n: PinNode<T>)
      requires State().Valid()
      modifies this
      ensures State().Valid()
      ensures fresh(n) && n.value == v
      ensures n !in old(nodes) && forall m :: m in old(nodes) ==> !n.Eq(m)
      ensures State() == old(State()).NodeFrom(n).tree
      ensures nodes == old(nodes) + {n} && parents == old(parents) && childs == old(childs)
    {
      n := new PinNode(v);
      NodeFromKeepsValid(State(), n);
      nodes := nodes + {n};
    }

    /** Registers an existing handle; true iff it was not registered. */
    method NodeFrom(node: PinNode<T>) returns (inserted: bool)
      requires State().Valid()
      modifies this
      ensures State().Valid()
      ensures inserted <==> node !in old(nodes)
      ensures State().Has(node)
      ensures State() == old(State()).NodeFrom(node).tree
      ensures inserted == old(State()).NodeFrom(node).result
    {
      inserted := node !in nodes;
      nodes := nodes + {node};
    }

    /** Private helper: drops `child` from the child set under `parent`, if there is one. */
    method RemoveChild(parent: PinNode<T>, child: PinNode<T>) returns (removed: bool)
      modifies this
      ensures State() == old(State()).RemoveChild(parent, child).tree
      ensures removed == old(State()).RemoveChild(parent, child).result
    {
      if parent in childs {
        removed := child in childs[parent];
        childs := childs[parent := childs[parent] - {child}];
      } else {
        removed := false;
      }
    }

    /** Records `parent` as the parent of `child`, registering both. */
    method SetParent(child: PinNode<T>, parent: PinNode<T>) returns (changed: bool)
      requires State().Valid()
      modifies this
      ensures State().Valid()
      ensures child in nodes && parent in nodes
      ensures changed <==> !old(State()).IsParent(child, parent)
      ensures !changed ==> State() == old(State()).NodeFrom(child).tree.NodeFrom(parent).tree
      ensures State().IsParent(child, parent) && State().IsChild(parent, child)
      ensures State() == old(State()).SetParent(child, parent).tree
      ensures changed == old(State()).SetParent(child, parent).result
    {
      SetParentOutcome(State(), child, parent);
      SetParentKeepsValid(State(), child, parent);
      var _ := NodeFrom(child);
      var _ := NodeFrom(parent);
      if child in parents && parents[child] == parent {
        return false;
      }
      var _ := RemoveChild(parent, child);
      ghost var t2 := State();
      parents := parents[child := parent];
      if parent !in childs {
        childs := childs[parent := {}];
      }
      childs := childs[parent := childs[parent] + {child}];
      assert State() == t2.(parents := t2.parents[child := parent]).AddChild(parent, child);
      changed := true;
    }

    /** The corrected re-parenting: detaches `child` from its former parent first. */
    method SetParentDetaching(child: PinNode<T>, parent: PinNode<T>) returns (changed: bool)
      requires State().Valid()
      modifies this
      ensures State().Valid()
      ensures State() == old(State()).SetParentDetaching(child, parent).tree
      ensures changed == old(State()).SetParentDetaching(child, parent).result
    {
      ghost var t0 := State();
      SetParentDetachingKeepsValid(t0, child, parent);
      var _ := NodeFrom(child);
      var _ := NodeFrom(parent);
      ghost var t1 := State();
      assert t1 == t0.NodeFrom(child).tree.NodeFrom(parent).tree;
      if child in parents && parents[child] == parent {
        return false;
      }
      if child in parents {
        var _ := RemoveChild(parents[child], child);
      }
      ghost var t2 := State();
      assert t2 == if child in t1.parents then t1.RemoveChild(t1.parents[child], child).tree else t1;
      parents := parents[child := parent];
      if parent !in childs {
        childs := childs[parent := {}];
      }
      childs := childs[parent := childs[parent] + {child}];
      assert State() == t2.(parents := t2.parents[child := parent]).AddChild(parent, child);
      changed := true;
    }

    /** Erases the edge `child -> parent` only if it holds. */
    method UnsetParent(child: PinNode<T>, parent: PinNode<T>) returns (changed: bool)
      requires State().Valid()
      modifies this
      ensures State().Valid()
      ensures changed <==> old(State()).IsParent(child, parent)
      ensures !changed ==> State() == old(State())
      ensures changed ==> nodes == old(nodes) && child !in parents
      ensures State() == old(State()).UnsetParent(child, parent).tree
      ensures changed == old(State()).UnsetParent(child, parent).result
    {
      UnsetParentOutcome(State(), child, parent);
      UnsetParentKeepsValid(State(), child, parent);
      if !(child in parents && parents[child] == parent) {
        return false;
      }
      parents := parents - {child};
      var _ := RemoveChild(parent, child);
      changed := true;
    }

    /** Removes `node` from the tree; the loop clears the parent edge of each listed child. */
    method Remove(node: PinNode<T>) returns (removed: bool)
      requires State().Valid()
      modifies this
      ensures State().Valid()
      ensures removed <==> node in old(nodes)
      ensures !removed ==> State() == old(State())
      ensures node !in nodes && node !in parents && node !in childs
      ensures forall c :: c in parents ==> parents[c] != node
      ensures State() == old(State()).Remove(node).tree
      ensures removed == old(State()).Remove(node).result
    {
      RemoveOutcome(State(), node);
      RemoveKeepsValid(State(), node);
      if node !in nodes {
        return false;
      }
      if node in parents {
        var p := parents[node];
        var _ := RemoveChild(p, node);
        parents := parents - {node};
      }
      ghost var t1 := State();
      if node in childs {
        var kids := childs[node];
        childs := childs - {node};
        ghost var before := parents;
        var todo := kids;
        while todo != {}
          invariant todo <= kids
          invariant nodes == t1.nodes && childs == t1.childs - {node}
          invariant parents == before - (kids - todo)
          decreases todo
        {
          var c :| c in todo;
          parents := parents - {c};
          todo := todo - {c};
        }
      } else {
        assert t1.parents - t1.GetChilds(node) == t1.parents;
        assert childs - {node} == childs;
      }
      assert parents == t1.parents - t1.GetChilds(node);
      nodes := nodes - {node};
      removed := true;
    }
  }
}
