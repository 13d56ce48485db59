# PinTree in Dafny

A model of the `pin_tree` crate: `PinNode<T>`, a shared heap-pinned handle
whose identity is its address, and `PinTree<T>`, a relation index over such
handles. The tree keeps three collections: the registered handles (`nodes`),
a single-valued parent map (`parents`) and a map from a handle to the set of
handles recorded as its children (`childs`). Cycles and self-loops are
accepted. `node_from`, `set_parent`, `unset_parent` and `remove` report through a
boolean whether they changed anything; `has`, `is_parent` and `is_child` are
boolean queries.

Files:

- `pin_node.dfy` (module `PinNodes`): `PinNode` as a class. A Dafny object
  reference stands for the heap address, so equality (`Eq`) is reference
  equality and never looks at the wrapped `value`; `Clone` returns the same
  reference.
- `tree.dfy` (module `TreeModel`): the tree's state as a value, `Tree`. Its
  lookups are `Has`, `IsParent`, `IsChild`, `GetParent` and `GetChilds`. Each
  mutating operation is a function returning the new state and the boolean
  (`Step`). The invariant is `Valid`, and the lemmas say what each operation
  does and keeps.
- `pin_tree.dfy` (module `PinTrees`): `PinTree` as a class with the three
  collections as fields, which its methods update in place. `Remove` clears
  the children's parent edges in a loop, as the source does. Each method is
  proved to produce exactly the state and the boolean of the matching `Tree`
  function. The public methods also keep `Valid`; the helper `RemoveChild`,
  private in the source, does not on its own, since it can unlist a live edge.
- `pin_tree_examples.dfy` (module `PinTreeExamples`): the crate's examples
  written as clients of the class, using only the methods' contracts.
- `tree_properties.dfy` (module `TreeProperties`): properties across several
  calls. The invariant holds in every state that any sequence of calls
  reaches from a new tree. The file also holds the scenarios of the crate's
  examples and what the code as written leaves behind. Last, it gives the
  corrected re-parenting (see Findings) and proves that it keeps the parent
  map and the child sets in exact agreement.

The model follows the code, not the idealised tree:

- `set_parent` removes the child from the *new* parent's child set. The
  former parent keeps its entry.
- So only one half of the mirror is invariant: `parents[x] == p` implies
  `x ∈ childs[p]`. The converse can fail (`ReparentLeavesStaleChild`).
- `remove(x)` clears the parent edge of everything listed in `childs[x]`, stale
  entries included. It can therefore cut a child's live edge to a different
  parent (`RemoveCutsLiveEdge`).

Line 111 calls `remove_child` on the *new* parent, and line 117 puts the
child back into that same set, so the call has no effect; `set_parent` never
removes the child from its former parent's set. The model keeps this, and
models the evidently intended detaching step beside it (see Findings).

## Model

| member | source | states |
|---|---|---|
| PinNodes.PinNode.constructor | src/lib.rs:184-188 | wrapping a value gives a handle that dereferences to that value |
| PinNodes.PinNode.Clone | src/lib.rs:190-196 | a clone is identity-equal to its source and wraps the same value |
| PinNodes.NewHandlesAreDistinct | src/lib.rs:197-209 | two handles made from one value are not equal; equality is by identity, and a clone equals only its source |
| PinNodes.PinNode.Eq | src/lib.rs:203-209 | handles are equal exactly when they are the same heap slot, whatever their values |
| TreeModel.Tree.Has | src/lib.rs:92-95 | membership of the handle in `nodes` |
| TreeModel.Tree.IsParent | src/lib.rs:129-135 | the handle has a recorded parent and it is `parent`; false when there is no entry |
| TreeModel.Tree.IsChild | src/lib.rs:136-142 | `parent` has a child-set entry and it contains the handle; false when there is no entry |
| TreeModel.Tree.GetParent | src/lib.rs:143-146 | the result is present exactly when the handle has a recorded parent, and it is that parent |
| TreeModel.GetParentIff | src/lib.rs:129-146 | `get_parent(x) == Some(p)` exactly when `is_parent(x, p)` |
| TreeModel.Tree.GetChilds | src/lib.rs:147-153 | yields exactly the recorded child set: every yielded handle is a recorded child, every recorded child is yielded, and nothing is yielded when there is no entry |
| TreeModel.GetChildsIff | src/lib.rs:136-153 | `get_childs(x)` yields exactly the handles `c` with `is_child(x, c)` |
| TreeModel.EmptyTree | src/lib.rs:73-81 | a new tree has no handles and satisfies the invariant and the two-way mirror |
| TreeModel.NodeFromOutcome | src/lib.rs:88-95 | `node_from` returns true iff the handle was not registered, registers it, touches neither map, and a second call returns false with no change |
| TreeModel.NodeFromKeepsValid | src/lib.rs:88-91 | `node_from` keeps the invariant |
| TreeModel.RemoveChildOutcome | src/lib.rs:96-102 | `remove_child` returns true iff the child was listed, unlists it there, keeps the entry's key and leaves every other child set, the parent map and the registrations alone |
| TreeModel.SetParentOutcome | src/lib.rs:103-119 | both handles end up registered, also on the early return; the result is false, with nothing changed but registration, iff the edge already held; afterwards `is_parent` and `is_child` both hold |
| TreeModel.SetParentFrame | src/lib.rs:105-117 | only the registrations, the child's parent edge and the new parent's child set change; every other child set, the former parent's included, is untouched |
| TreeModel.SetParentKeepsValid | src/lib.rs:105-119 | `set_parent` keeps the invariant (registered handles bound both maps, every parent edge is listed in the parent's child set) |
| TreeModel.UnsetParentOutcome | src/lib.rs:120-128 | `unset_parent` returns false and changes nothing unless the edge held; otherwise it returns true, erases the edge, removes exactly the child from the parent's child set (the key and the other children stay), leaves every other edge and child set alone and keeps `nodes` |
| TreeModel.UnsetParentKeepsValid | src/lib.rs:121-128 | `unset_parent` keeps the invariant |
| TreeModel.RemoveOutcome | src/lib.rs:154-170 | `remove` returns false with no change for an unregistered handle; otherwise true, and the handle is unregistered, has no parent, no child-set entry, and is nobody's parent |
| TreeModel.RemoveFrame | src/lib.rs:155-170 | a handle other than x keeps its parent edge unless it is listed under x; with RemoveCutsLiveEdge, exactly the listed handles lose their edge |
| TreeModel.RemoveChildsFrame | src/lib.rs:159-167 | the former parent of x loses x from its child set, no other child set changes, and only x's own key leaves the child map |
| TreeModel.RemoveKeepsValid | src/lib.rs:155-170 | `remove` keeps the invariant |
| TreeModel.SetParentDetachingKeepsValid | src/lib.rs:105-119 | the corrected re-parenting keeps the invariant |
| PinTrees.PinTree.constructor | src/lib.rs:73-81 | a new tree is empty and valid |
| PinTrees.PinTree.Node | src/lib.rs:82-87 | `node(v)` returns a fresh handle wrapping `v`, equal to no registered handle, and adds exactly that handle to `nodes` |
| PinTrees.PinTree.NodeFrom | src/lib.rs:88-91 | returns true iff the handle was not registered; afterwards `has` holds; the new state is `Tree.NodeFrom`'s |
| PinTrees.PinTree.RemoveChild | src/lib.rs:96-102 | the in-place update and result are those of `Tree.RemoveChild` |
| PinTrees.PinTree.SetParent | src/lib.rs:103-119 | both handles registered; false iff the edge held, with only registration changed then; afterwards the edge holds both ways; the new state is `Tree.SetParent`'s; the invariant is kept |
| PinTrees.PinTree.SetParentDetaching | src/lib.rs:103-119 | the corrected re-parenting in place; the new state is `Tree.SetParentDetaching`'s and the invariant is kept |
| PinTrees.PinTree.UnsetParent | src/lib.rs:120-128 | true iff the edge held; false leaves the state unchanged; true erases the child's edge and keeps `nodes`; the new state is `Tree.UnsetParent`'s |
| PinTrees.PinTree.Remove | src/lib.rs:154-170 | true iff the handle was registered; false leaves the state unchanged; afterwards the handle is in neither map nor `nodes` and is nobody's parent; the loop yields `Tree.Remove`'s state |
| PinTreeExamples.TwoChildrenExample | src/lib.rs:236-249 | through the class: b and c made children of a give `is_parent(b, a)`, `is_child(a, c)`, a's children exactly {b, c}, b's parent a |
| PinTreeExamples.CircularExample | src/lib.rs:251-270 | through the class: the three-cycle holds in full and `set_parent(d, d)` gives `is_parent(d, d)` |
| PinTreeExamples.UnsetAndRemoveExample | src/lib.rs:272-312 | through the class: set twice gives true, false; unset twice gives true, false; remove twice gives true, false and leaves b without a parent; adopting the removed handle twice gives true, false |
| TreeProperties.ApplyKeepsValid | src/lib.rs:88-170 | every mutating operation keeps the invariant |
| TreeProperties.RunKeepsValid | src/lib.rs:88-170 | any sequence of mutating operations keeps the invariant |
| TreeProperties.ReachableStatesValid | src/lib.rs:73-170 | every state reachable from a new tree satisfies the invariant |
| TreeProperties.TwoChildrenScenario | src/lib.rs:236-249 | with b and c made children of a: both calls return true, `is_parent(b, a)`, `is_child(a, c)`, a's children are exactly {b, c}, b's parent is a |
| TreeProperties.CyclesAccepted | src/lib.rs:251-270 | the three-cycle b→a, a→c, c→b holds in full, and a self-loop `set_parent(d, d)` returns true, holds, and leaves the cycle intact |
| TreeProperties.SetTwiceThenUnset | src/lib.rs:272-286 | `set_parent` twice returns true then false; `unset_parent` then returns true and erases the edge, and a second `unset_parent` returns false |
| TreeProperties.RemoveSeversEdge | src/lib.rs:298-312 | after `set_parent(b, a)` and `remove(a)`, b has no parent and stays registered |
| TreeProperties.ReparentLeavesStaleChild | src/lib.rs:111 | re-parenting from p1 to p2 returns true and moves the edge, but p1 still lists the child, so the two-way mirror fails |
| TreeProperties.RemoveCutsLiveEdge | src/lib.rs:163-166 | removing a handle whose child set holds a stale entry erases that child's edge to its actual, still registered parent |
| TreeProperties.ReparentThenRemoveOrphans | src/lib.rs:105-170 | from a new tree, `set_parent(b, a)`, `set_parent(b, c)`, `remove(a)` leaves b without a parent while c is still registered |
| TreeProperties.SetParentDetachingOutcome | src/lib.rs:103-119 | the corrected re-parenting returns what `set_parent` returns, and afterwards the child is listed under its new parent and under no other |
| TreeProperties.SetParentDetachingFrame | src/lib.rs:103-119 | the corrected re-parenting registers exactly the two handles, changes no other handle's parent edge, takes exactly the child out of its former parent's set, adds exactly the child to the new parent's set, and leaves every other child set as it was |
| TreeProperties.NodeFromKeepsMirror | src/lib.rs:88-91 | `node_from` keeps the two-way mirror |
| TreeProperties.SetParentDetachingKeepsMirror | src/lib.rs:105-119 | the corrected re-parenting keeps the two-way mirror |
| TreeProperties.UnsetParentKeepsMirror | src/lib.rs:121-128 | `unset_parent` keeps the two-way mirror |
| TreeProperties.RemoveKeepsMirror | src/lib.rs:155-170 | `remove` keeps the two-way mirror |
| TreeProperties.RemoveSparesOtherEdges | src/lib.rs:155-170 | under the two-way mirror, `remove(x)` leaves every parent edge that does not point at x as it was |
| TreeProperties.RunDetachingKeepsMirror | src/lib.rs:88-170 | with the corrected re-parenting, any sequence of calls keeps both the invariant and the two-way mirror |

## Left out

- Reference counting, pinning and the address arithmetic of `get_ptr_usize`
  (src/lib.rs:52-62) belong to Rust's memory model. A Dafny object reference
  stands for the address, so dropping a handle is not modelled.
- The `Hash` impl (src/lib.rs:197-202) is not modelled, because Dafny sets and
  maps of references key on identity directly.
- `Display` for `PinTree` and `PinNode` and the derived `Debug` are left out.
  They only format values.
- `Deref` and `AsRef` are left out. Reading the `value` field stands for
  dereferencing.
- The `Mutex` example (src/lib.rs:327-337) is left out. It only concerns the
  wrapped value's own locking.
- `get_childs` returns an iterator whose order is unspecified. It is modelled
  as the set it iterates, and the shared `_empty_node_set` stands for the
  empty set.
- The derived `Clone` of `PinTree` is left out. It is a shallow copy sharing
  the handles.
- The queries (`has`, `is_parent`, `is_child`, `get_parent`, `get_childs`) are
  functions of the state value `Tree`. A client of the class reads them
  through `State()`.
- `remove_child` is private in the source; here `PinTree.RemoveChild` is
  callable by clients, and such a call can break `Valid`, which every other
  method requires. Privacy is not modelled: the only callers in the model are
  `SetParent`, `SetParentDetaching`, `UnsetParent` and `Remove`.

## Findings

| source | as written | input that shows it | evidently intended | confidence | as-written member | corrected member |
|---|---|---|---|---|---|---|
| src/lib.rs:111 | `set_parent` calls `remove_child(parent, this)` on the new parent, whose set gets `this` back two lines later; the former parent's entry is never removed | `set_parent(b, a)` then `set_parent(b, c)`: `is_child(a, b)` stays true while `is_parent(b, a)` is false; a later `remove(a)` then erases b's live edge to c | remove `this` from its former parent's child set before recording the new edge | high; not executed | TreeProperties.ReparentLeavesStaleChild | PinTrees.PinTree.SetParentDetaching |

The corrected definition is `Tree.SetParentDetaching`, with
`PinTree.SetParentDetaching` as its in-place method. Its properties are
proved in `SetParentDetachingOutcome`, `SetParentDetachingFrame`,
`SetParentDetachingKeepsMirror` and
`RunDetachingKeepsMirror`. Under it, `remove` cuts only the edges that point
at the removed handle (`RemoveSparesOtherEdges`). `PinTree.SetParent` stays
the code as written.
