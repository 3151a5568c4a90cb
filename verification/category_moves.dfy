/** Moving categories: what a stored move does to the parent links, and the
    drop guard of the category tree. As written, the guard asks whether the dragged item occurs below
    the target; a move is harmful in the opposite case, when the target
    occurs below the dragged node. The as-written guard therefore lets a
    category be dropped onto its own child, and the list the backend then
    holds has a parent cycle whose records no longer appear in the tree.
    The corrected guard asks whether the target lies below the dragged node;
    every move it lets through keeps the parent links acyclic, so the
    rebuilt tree still shows every record once. */
module CategoryMoves {
  import opened Wrappers
  import opened JsValue
  import opened Categories
  import opened CategoryTree
  import opened CategoryForest
  import opened CategoryManagement

  /** The flat list once the backend has stored the update for `id`: that
      record's `parentId` is replaced and nothing else changes. */
  function Reparent(cs: seq<Category>, id: int, parent: Value): (r: seq<Category>)
    ensures |r| == |cs|
    ensures forall i :: 0 <= i < |cs| ==>
      (&& r[i].id == cs[i].id && r[i].name == cs[i].name && r[i].description == cs[i].description
       && r[i].parentId == (if cs[i].id == id then parent else cs[i].parentId))
  {
    seq(|cs|, i requires 0 <= i < |cs| => if cs[i].id == id then cs[i].(parentId := parent) else cs[i])
  }

  lemma ReparentKeepsIds(cs: seq<Category>, id: int, parent: Value)
    ensures Ids(Reparent(cs, id, parent)) == Ids(cs)
    ensures UniqueIds(cs) ==> UniqueIds(Reparent(cs, id, parent))
  {
    var r := Reparent(cs, id, parent);
    forall x | x in Ids(r) ensures x in Ids(cs) {
      var i :| 0 <= i < |r| && r[i].id == x;
      assert cs[i].id == x;
    }
    forall x | x in Ids(cs) ensures x in Ids(r) {
      var i :| 0 <= i < |cs| && cs[i].id == x;
      assert r[i].id == x;
    }
  }

  // ---------------------------------------------------------------------
  // As written: a category dropped onto its own child
  // ---------------------------------------------------------------------

  /** Two records: the root A and its child B. */
  const RootA := Category(1, "A", None, Null)
  const ChildB := Category(2, "B", None, Num(1))
  const NodeB := CategoryNode(ChildB, [])
  const NodeA := CategoryNode(RootA, [NodeB])

  lemma ExampleForest()
    ensures Forest([RootA, ChildB]) == [NodeA]
  {
    var cs := [RootA, ChildB];
    assert cs[..1] == [RootA] && [RootA][..0] == [];
    assert Ids(cs) == {1, 2} by {
      assert cs[0].id == 1 && cs[1].id == 2;
    }
    assert Roots([RootA]) == [1];
    assert Roots(cs) == [1];
    assert ChildrenOf([RootA], 1) == [];
    assert ChildrenOf([RootA], 2) == [];
    assert ChildrenOf(cs, 1) == [2];
    assert ChildrenOf(cs, 2) == [];
    assert LastWith(cs, 1) == RootA;
    assert LastWith(cs, 2) == ChildB;
    var nodes := NodesOf(cs);
    assert nodes == map[1 := Node(RootA, [2]), 2 := Node(ChildB, [])];
    NodesOfClosed(cs);
    assert Expand(nodes, 2, 1) == NodeB;
    assert ExpandAll(nodes, [2], 1) == [NodeB];
    assert Expand(nodes, 1, 2) == NodeA;
  }

  lemma ExampleMovedIsCyclic()
    ensures var moved := Reparent([RootA, ChildB], 1, Num(2));
      && moved == [RootA.(parentId := Num(2)), ChildB]
      && (forall rank :: !Acyclic(moved, rank))
      && Roots(moved) == []
      && Forest(moved) == []
  {
    var moved := Reparent([RootA, ChildB], 1, Num(2));
    assert moved == [RootA.(parentId := Num(2)), ChildB];
    forall rank ensures !Acyclic(moved, rank) {
      if Acyclic(moved, rank) {
        assert rank[2] < rank[1] by { assert Truthy(moved[0].parentId); }
        assert Truthy(moved[1].parentId);
        assert false;
      }
    }
    var a' := RootA.(parentId := Num(2));
    assert moved[..1] == [a'] && [a'][..0] == [];
    assert Roots([a']) == [];
    assert Roots(moved) == [];
  }

  /** With A at the root and B its child, A's node is offered with rendered
      parent `null`, and dropping it on B's node passes the guard: A is not
      B, B is not the node A is rendered under, and A does not occur below
      B. The update makes B the parent of A; in the stored list A and B are
      each other's parents, no depth map exists, neither is a root, and the
      rebuilt tree is empty although the list holds two records. */
  lemma DropOntoOwnChildCreatesCycle()
    ensures Forest([RootA, ChildB]) == [NodeA]
    ensures DropOnItem(DragItemOf(NodeA, Null), NodeB) == Some(MoveRequest(1, Num(2), Null))
    ensures HandleRequest([RootA, ChildB], MoveRequest(1, Num(2), Null))
         == Some(UpdateCall(1, ToRecord(RootA.(parentId := Num(2)))))
    ensures var moved := Reparent([RootA, ChildB], 1, Num(2));
      && (forall rank :: !Acyclic(moved, rank))
      && Roots(moved) == []
      && Forest(moved) == []
  {
    ExampleForest();
    ExampleMovedIsCyclic();
    assert FindIndex([RootA, ChildB], 1) == 0;
    ReplaceParent(RootA, Num(2));
  }

  // ---------------------------------------------------------------------
  // Corrected: the target must not lie below the dragged node
  // ---------------------------------------------------------------------

  /** The node object of category `id` with its whole subtree, as rendered. */
  function Subtree(cs: seq<Category>, id: int): (t: CategoryNode)
    requires id in Ids(cs)
    ensures t.category.id == id
  {
    NodesOfClosed(cs);
    Expand(NodesOf(cs), id, |cs|)
  }

  /** The evidently intended guard: the three tests of the program, plus the
      missing one, that the target does not occur below the dragged node. */
  predicate CanDropIntended(item: DragItem, dragged: CategoryNode, target: CategoryNode)
  {
    CanDrop(item, target) && !IsDescendant(dragged, target.category.id)
  }

  /** Dropping `item`, rendered as `dragged`, on `target` with the corrected
      guard. */
  function DropOnItemIntended(item: DragItem, dragged: CategoryNode, target: CategoryNode)
    : (r: Option<MoveRequest>)
    ensures r.Some? <==> CanDropIntended(item, dragged, target)
    ensures r.Some? ==> r.value == MoveRequest(item.id, Num(target.category.id), Null)
  {
    if CanDropIntended(item, dragged, target) then Some(MoveRequest(item.id, Num(target.category.id), Null))
    else None
  }

  /** Below the subtree of `a` lie exactly the other ids whose parent chain
      passes through `a`. */
  lemma SubtreeBelow(cs: seq<Category>, rank: map<int, nat>, a: int, x: int)
    requires UniqueIds(cs) && Acyclic(cs, rank) && a in Ids(cs)
    ensures IsDescendant(Subtree(cs, a), x) <==> x != a && Anc(cs, rank, x, a)
  {
    DepthWitness(cs, rank);
    var depths := Depths(cs, rank);
    var t := Subtree(cs, a);
    SubtreeCount(cs, depths, a, |cs|, x);
    FlattenCount(t, x);
    IsDescendantBelow(t, x);
    AncIndependent(cs, depths, rank, x, a);
  }

  /** The new depth of each record after `a` is moved under `b`: the records
      whose chain passes through `a` are shifted to sit below `b`. */
  ghost function MovedDepths(cs: seq<Category>, rank: map<int, nat>, a: int, b: int): (d: map<int, nat>)
    requires UniqueIds(cs) && Acyclic(cs, rank) && a in Ids(cs) && b in Ids(cs)
    ensures d.Keys == Ids(cs)
  {
    map x | x in Ids(cs) ::
      if Anc(cs, rank, x, a) then AncDepth(cs, rank, x, a) + rank[b] + 1 else rank[x]
  }

  /** How far below `a` the id `x` sits. */
  ghost function AncDepth(cs: seq<Category>, rank: map<int, nat>, x: int, a: int): (n: nat)
    requires UniqueIds(cs) && Acyclic(cs, rank) && x in Ids(cs) && a in Ids(cs)
    requires Anc(cs, rank, x, a)
    ensures n + rank[a] == rank[x]
  {
    if x != a then AncRank(cs, rank, x, a); rank[x] - rank[a] else 0
  }

  lemma MovedLinkRank(cs: seq<Category>, rank: map<int, nat>, a: int, b: int, i: nat)
    requires UniqueIds(cs) && Acyclic(cs, rank) && a in Ids(cs) && b in Ids(cs)
    requires !Anc(cs, rank, b, a)
    requires i < |cs|
    ensures var moved := Reparent(cs, a, Num(b));
      var depths := MovedDepths(cs, rank, a, b);
      Truthy(moved[i].parentId) ==>
        ParentKey(moved[i].parentId).Some? && ParentKey(moved[i].parentId).value in depths
        && depths[ParentKey(moved[i].parentId).value] < depths[moved[i].id]
  {
    var moved := Reparent(cs, a, Num(b));
    var depths := MovedDepths(cs, rank, a, b);
    var x := cs[i].id;
    assert x in Ids(cs);
    if x == a {
      assert Anc(cs, rank, a, a);
      assert depths[b] == rank[b];
    } else if Truthy(cs[i].parentId) {
      RecordOfIndex(cs, i);
      var p := ParentOf(cs, rank, x);
      assert ParentKey(moved[i].parentId).value == p;
      if Anc(cs, rank, x, a) {
        AncStep(cs, rank, x, a);
      } else {
        assert !Anc(cs, rank, p, a);
      }
    }
  }

  /** Moving `a` under `b`, where `b` is not on the chain below `a`, keeps
      the parent links acyclic. */
  lemma MoveKeepsAcyclic(cs: seq<Category>, rank: map<int, nat>, a: int, b: int)
    requires UniqueIds(cs) && Acyclic(cs, rank) && a in Ids(cs) && b in Ids(cs)
    requires !Anc(cs, rank, b, a)
    ensures UniqueIds(Reparent(cs, a, Num(b)))
    ensures Acyclic(Reparent(cs, a, Num(b)), MovedDepths(cs, rank, a, b))
  {
    var moved := Reparent(cs, a, Num(b));
    var depths := MovedDepths(cs, rank, a, b);
    ReparentKeepsIds(cs, a, Num(b));
    assert depths.Keys == Ids(moved);
    forall i | 0 <= i < |moved| && Truthy(moved[i].parentId)
      ensures ParentKey(moved[i].parentId).Some? && ParentKey(moved[i].parentId).value in depths
      ensures depths[ParentKey(moved[i].parentId).value] < depths[moved[i].id]
    {
      MovedLinkRank(cs, rank, a, b, i);
    }
  }

  /** A drop of `a` on `b` sends the record of `a` with `b` as its parent. */
  lemma DropSendsReparentedRecord(cs: seq<Category>, a: int, b: int)
    requires UniqueIds(cs) && a in Ids(cs)
    ensures HandleRequest(cs, MoveRequest(a, Num(b), Null))
         == Some(UpdateCall(a, ToRecord(RecordOf(cs, a).(parentId := Num(b)))))
  {
    var i :| 0 <= i < |cs| && cs[i].id == a;
    var first := FindIndex(cs, a);
    assert first == i;
    DragSetsParent(cs, i, Num(b), Null);
    RecordOfIndex(cs, i);
  }

  /** Every move the corrected guard lets through keeps the parent links
      acyclic: the record sent is the dragged one with the target as parent,
      and once stored, the rebuilt tree holds every record exactly once. */
  lemma IntendedDropKeepsTreeWhole(cs: seq<Category>, rank: map<int, nat>, item: DragItem, target: CategoryNode)
    requires UniqueIds(cs) && Acyclic(cs, rank)
    requires item.id in Ids(cs) && target.category.id in Ids(cs)
    requires DropOnItemIntended(item, Subtree(cs, item.id), target).Some?
    ensures var moved := Reparent(cs, item.id, Num(target.category.id));
      && HandleRequest(cs, DropOnItemIntended(item, Subtree(cs, item.id), target).value)
         == Some(UpdateCall(item.id, ToRecord(RecordOf(cs, item.id).(parentId := Num(target.category.id)))))
      && Acyclic(moved, MovedDepths(cs, rank, item.id, target.category.id))
      && multiset(ForestIds(moved)) == multiset(IdList(moved))
      && |ForestIds(moved)| == |cs|
  {
    var a, b := item.id, target.category.id;
    SubtreeBelow(cs, rank, a, b);
    MoveKeepsAcyclic(cs, rank, a, b);
    ForestHoldsEveryRecordOnce(Reparent(cs, a, Num(b)), MovedDepths(cs, rank, a, b));
    DropSendsReparentedRecord(cs, a, b);
  }
}
