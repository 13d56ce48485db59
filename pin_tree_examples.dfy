/**
 * The crate's examples, written as clients of the PinTree class: what a
 * caller can conclude from the methods' contracts alone.
 */
module PinTreeExamples {
  import opened PinNodes
  import opened TreeModel
  import opened TreeProperties
  import opened PinTrees

  /** Three handles; b and c made children of a. */
  method TwoChildrenExample() returns (pt: PinTree<int>, a: PinNode<int>, b: PinNode<int>, c: PinNode<int>)
    ensures a.value == 1 && b.value == 2 && c.value == 3 && !a.Eq(b)
    ensures pt.State().IsParent(b, a) && pt.State().IsChild(a, c)
    ensures pt.State().GetParent(b) == Some(a)
    ensures pt.State().GetChilds(a) == {b, c}
  {
    pt := new PinTree<int>();
    a := pt.Node(1);
    b := pt.Node(2);
    c := pt.Node(3);
    TwoChildrenScenario(a, b, c);
    var r1 := pt.SetParent(b, a);
    var r2 := pt.SetParent(c, a);
    assert r1 && r2;
  }

  /** A three-cycle, then a handle made its own parent. */
  method CircularExample() returns (pt: PinTree<int>, a: PinNode<int>, b: PinNode<int>, c: PinNode<int>, d: PinNode<int>)
    ensures pt.State().IsParent(b, a) && pt.State().IsParent(a, c) && pt.State().IsParent(c, b)
    ensures pt.State().IsParent(d, d)
  {
    pt := new PinTree<int>();
    a := pt.Node(1);
    b := pt.Node(2);
    c := pt.Node(3);
    var _ := pt.SetParent(b, a);
    ghost var t1 := pt.State();
    SetParentFrame(t1, a, c);
    var _ := pt.SetParent(a, c);
    ghost var t2 := pt.State();
    assert t2.IsParent(b, a) by { GetParentIff(t1, b, a); GetParentIff(t2, b, a); }
    SetParentFrame(t2, c, b);
    var _ := pt.SetParent(c, b);
    ghost var t3 := pt.State();
    assert t3.IsParent(b, a) by { GetParentIff(t3, b, a); }
    assert t3.IsParent(a, c) by { GetParentIff(t2, a, c); GetParentIff(t3, a, c); }
    d := pt.Node(0);
    ghost var t4 := pt.State();
    SetParentFrame(t4, d, d);
    var r := pt.SetParent(d, d);
    assert r;
    ghost var t5 := pt.State();
    assert t5.IsParent(b, a) by { GetParentIff(t4, b, a); GetParentIff(t5, b, a); }
    assert t5.IsParent(a, c) by { GetParentIff(t4, a, c); GetParentIff(t5, a, c); }
    assert t5.IsParent(c, b) by { GetParentIff(t4, c, b); GetParentIff(t5, c, b); }
  }

  /**
   * set_parent twice, unset_parent twice, then set_parent, remove of the
   * parent twice, and node_from of the removed handle twice.
   */
  method UnsetAndRemoveExample() returns (results: seq<bool>, pt: PinTree<int>, a: PinNode<int>, b: PinNode<int>)
    ensures results == [true, false, true, false, true, false, true, false]
    ensures pt.State().GetParent(b) == None && pt.State().Has(a)
  {
    pt := new PinTree<int>();
    a := pt.Node(1);
    b := pt.Node(2);
    assert !pt.State().IsParent(b, a);
    var set1 := pt.SetParent(b, a);
    var set2 := pt.SetParent(b, a);
    var unset1 := pt.UnsetParent(b, a);
    var unset2 := pt.UnsetParent(b, a);
    assert !pt.State().IsParent(b, a);
    var _ := pt.SetParent(b, a);
    var removed := pt.Remove(a);
    assert !pt.State().IsParent(b, a) && pt.State().GetParent(b) == None;
    var again := pt.Remove(a);
    var adopted1 := pt.NodeFrom(a);
    var adopted2 := pt.NodeFrom(a);
    results := [set1, set2, unset1, unset2, removed, again, adopted1, adopted2];
  }
}
