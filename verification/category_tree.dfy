/** The category forest of the admin category screen: how the flat list from
    the backend becomes a forest (`buildCategoryTree`), the recursive
    subtree test used by drag and drop (`isDescendant`), the drop guard on a
    category, and the move requests the tree hands to the management screen. */
module CategoryTree {
  import opened Wrappers
  import opened JsValue
  import opened Categories

  // ---------------------------------------------------------------------
  // Parent resolution
  // ---------------------------------------------------------------------

  /** The id whose entry `categoryMap[parentId]` reaches. The map is keyed by
      `String(id)`, so a numeric parent `n` reaches id `n` and a string parent
      reaches the id whose decimal notation it is (see
      `JsValue.PropertyKeyRoundTrip`); any other string reaches nothing. */
  function ParentKey(v: Value): (r: Option<int>)
    ensures v.Null? ==> r.None?
    ensures v.Num? ==> r == Some(v.n)
    ensures v.Str? && r.Some? ==> v.s == IntToString(r.value)
  {
    match v
    case Null => None
    case Num(n) => Some(n)
    case Str(s) =>
      var r := ParseCanonicalInt(s);
      if r.Some? then PropertyKeyRoundTrip(r.value, s); r else r
  }

  /** The decimal key of an id reaches that id: `categoryMap["7"]` is the
      node of category 7. */
  lemma ParentKeyOfKey(i: int)
    ensures ParentKey(Str(IntToString(i))) == Some(i)
  {
    PropertyKeyRoundTrip(i, IntToString(i));
  }

  /** A record with a falsy `parentId` is placed among the roots. */
  predicate IsRoot(c: Category)
  {
    !Truthy(c.parentId)
  }

  /** `c` is appended to the children of the node with id `p`. */
  predicate NamesParent(c: Category, p: int)
  {
    Truthy(c.parentId) && ParentKey(c.parentId) == Some(p)
  }

  /** A truthy `parentId` that reaches no entry of `categoryMap`: the lookup
      yields `undefined` and reading `.children` of it throws. */
  predicate IsDangling(cs: seq<Category>, c: Category)
  {
    Truthy(c.parentId) && (ParentKey(c.parentId).None? || ParentKey(c.parentId).value !in Ids(cs))
  }

  // ---------------------------------------------------------------------
  // What the builder produces, stated on the flat list
  // ---------------------------------------------------------------------

  /** The ids of the root records, in input order. */
  function Roots(cs: seq<Category>): seq<int>
  {
    if cs == [] then []
    else Roots(cs[..|cs| - 1]) + (if IsRoot(cs[|cs| - 1]) then [cs[|cs| - 1].id] else [])
  }

  /** The ids of the records naming `p` as parent, in input order. */
  function ChildrenOf(cs: seq<Category>, p: int): seq<int>
  {
    if cs == [] then []
    else ChildrenOf(cs[..|cs| - 1], p) + (if NamesParent(cs[|cs| - 1], p) then [cs[|cs| - 1].id] else [])
  }

  /** The record that `categoryMap[id]` was copied from: a later record with
      the same id overwrites an earlier one. */
  function LastWith(cs: seq<Category>, id: int): (c: Category)
    requires id in Ids(cs)
    ensures c.id == id
    ensures exists i :: 0 <= i < |cs| && cs[i] == c && forall j :: i < j < |cs| ==> cs[j].id != id
  {
    var last := cs[|cs| - 1];
    if last.id == id then last
    else
      assert id in Ids(cs[..|cs| - 1]) by {
        var i :| 0 <= i < |cs| && cs[i].id == id;
        assert cs[..|cs| - 1][i].id == id;
      }
      LastWith(cs[..|cs| - 1], id)
  }

  /** One entry of `categoryMap`: the shallow copy of a record and the ids of
      the nodes pushed onto its `children` array (a node is referred to by
      its id, as the map holds exactly one node object per id). */
  datatype Node = Node(category: Category, children: seq<int>)

  /** The builder's result: the root list and the map the nodes live in. */
  datatype Arena = Arena(roots: seq<int>, nodes: map<int, Node>)

  datatype TreeError = DanglingParent(index: nat)

  function NodesOf(cs: seq<Category>): map<int, Node>
  {
    map id | id in Ids(cs) :: Node(LastWith(cs, id), ChildrenOf(cs, id))
  }

  // ---------------------------------------------------------------------
  // buildCategoryTree
  // ---------------------------------------------------------------------

  lemma IdsOfPrefix(cs: seq<Category>, i: nat)
    requires i < |cs|
    ensures Ids(cs[..i + 1]) == Ids(cs[..i]) + {cs[i].id}
  {
    var a, b := cs[..i + 1], cs[..i];
    forall x | x in Ids(a) ensures x in Ids(b) + {cs[i].id} {
      var k :| 0 <= k < |a| && a[k].id == x;
      if k < i { assert b[k].id == x; }
    }
    forall x | x in Ids(b) + {cs[i].id} ensures x in Ids(a) {
      if x == cs[i].id { assert a[i].id == x; }
      else { var k :| 0 <= k < |b| && b[k].id == x; assert a[k].id == x; }
    }
  }

  /** After the first pass over `cs[..i]`: one node per id, a copy of the
      last record with that id and an empty `children` array. */
  ghost predicate CopiedUpTo(cs: seq<Category>, i: nat, m: map<int, Node>)
    requires i <= |cs|
  {
    m.Keys == Ids(cs[..i]) && forall id :: id in m ==> m[id] == Node(LastWith(cs[..i], id), [])
  }

  lemma CopyStep(cs: seq<Category>, i: nat, m: map<int, Node>)
    requires i < |cs| && CopiedUpTo(cs, i, m)
    ensures CopiedUpTo(cs, i + 1, m[cs[i].id := Node(cs[i], [])])
  {
    IdsOfPrefix(cs, i);
    assert cs[..i + 1][..i] == cs[..i];
  }

  /** After the second pass over `cs[..i]`: every node holds the records of
      `cs[..i]` naming it, the roots are those of `cs[..i]`, and none of them
      was dangling. */
  ghost predicate LinkedUpTo(cs: seq<Category>, i: nat, m: map<int, Node>, roots: seq<int>)
    requires i <= |cs|
  {
    && m.Keys == Ids(cs)
    && (forall id :: id in m ==> m[id] == Node(LastWith(cs, id), ChildrenOf(cs[..i], id)))
    && roots == Roots(cs[..i])
    && forall j :: 0 <= j < i ==> !IsDangling(cs, cs[j])
  }

  lemma LinkChildStep(cs: seq<Category>, i: nat, m: map<int, Node>, roots: seq<int>, p: int)
    requires i < |cs| && LinkedUpTo(cs, i, m, roots)
    requires Truthy(cs[i].parentId) && ParentKey(cs[i].parentId) == Some(p) && p in m
    ensures LinkedUpTo(cs, i + 1, m[p := m[p].(children := m[p].children + [cs[i].id])], roots)
  {
    assert cs[..i + 1][..i] == cs[..i];
  }

  lemma LinkRootStep(cs: seq<Category>, i: nat, m: map<int, Node>, roots: seq<int>)
    requires i < |cs| && LinkedUpTo(cs, i, m, roots)
    requires !Truthy(cs[i].parentId)
    ensures LinkedUpTo(cs, i + 1, m, roots + [cs[i].id])
  {
    assert cs[..i + 1][..i] == cs[..i];
  }

  /** The two passes of `buildCategoryTree`: the first fills `categoryMap`
      with a copy of every record and an empty `children` array, the second
      appends every record with a truthy `parentId` to its parent's node and
      every other record to the root list. It fails at the first record whose
      parent is not in the map. On success the roots are the falsy-parent
      records in input order, and every node holds the last record with its
      id and exactly the records naming it as parent, in input order, whether
      they come before or after it. */
  method BuildCategoryTree(categories: seq<Category>) returns (r: Result<Arena, TreeError>)
    ensures r.Failure? <==> exists i :: 0 <= i < |categories| && IsDangling(categories, categories[i])
    ensures r.Failure? ==>
      var i := r.error.index;
      i < |categories| && IsDangling(categories, categories[i])
      && forall j :: 0 <= j < i ==> !IsDangling(categories, categories[j])
    ensures r.Success? ==> r.value.roots == Roots(categories) && r.value.nodes == NodesOf(categories)
  {
    var categoryMap: map<int, Node> := map[];
    for i := 0 to |categories|
      invariant CopiedUpTo(categories, i, categoryMap)
    {
      var c := categories[i];
      CopyStep(categories, i, categoryMap);
      categoryMap := categoryMap[c.id := Node(c, [])];
    }
    assert categories[..|categories|] == categories;

    var rootCategories: seq<int> := [];
    for i := 0 to |categories|
      invariant LinkedUpTo(categories, i, categoryMap, rootCategories)
    {
      var c := categories[i];
      if Truthy(c.parentId) {
        var key := ParentKey(c.parentId);
        if key.None? || key.value !in categoryMap {
          return Failure(DanglingParent(i));
        }
        LinkChildStep(categories, i, categoryMap, rootCategories, key.value);
        var parent := categoryMap[key.value];
        categoryMap := categoryMap[key.value := parent.(children := parent.children + [c.id])];
      } else {
        LinkRootStep(categories, i, categoryMap, rootCategories);
        rootCategories := rootCategories + [c.id];
      }
    }
    assert categories[..|categories|] == categories;
    return Success(Arena(rootCategories, categoryMap));
  }

  // ---------------------------------------------------------------------
  // Properties of the root and child lists
  // ---------------------------------------------------------------------

  /** Roots keep input order: the roots of a concatenation are the roots of
      the first part followed by those of the second. */
  lemma {:induction false} RootsAppend(s: seq<Category>, t: seq<Category>)
    ensures Roots(s + t) == Roots(s) + Roots(t)
    decreases |t|
  {
    if t == [] {
      assert s + t == s;
    } else {
      var t' := t[..|t| - 1];
      assert (s + t)[..|s + t| - 1] == s + t';
      RootsAppend(s, t');
    }
  }

  /** Children keep input order in the same way. */
  lemma {:induction false} ChildrenAppend(s: seq<Category>, t: seq<Category>, p: int)
    ensures ChildrenOf(s + t, p) == ChildrenOf(s, p) + ChildrenOf(t, p)
    decreases |t|
  {
    if t == [] {
      assert s + t == s;
    } else {
      var t' := t[..|t| - 1];
      assert (s + t)[..|s + t| - 1] == s + t';
      ChildrenAppend(s, t', p);
    }
  }

  /** With unique ids, an id occurs in the root list once if its record has
      a falsy parent and not at all otherwise. */
  lemma {:induction false} RootsCount(cs: seq<Category>, x: int)
    requires UniqueIds(cs)
    ensures multiset(Roots(cs))[x] ==
      if exists i :: 0 <= i < |cs| && cs[i].id == x && IsRoot(cs[i]) then 1 else 0
    decreases |cs|
  {
    if cs != [] {
      var init := cs[..|cs| - 1];
      RootsCount(init, x);
      if exists i :: 0 <= i < |init| && init[i].id == x && IsRoot(init[i]) {
        var i :| 0 <= i < |init| && init[i].id == x && IsRoot(init[i]);
        assert cs[i] == init[i];
      }
      if exists i :: 0 <= i < |cs| && cs[i].id == x && IsRoot(cs[i]) {
        var i :| 0 <= i < |cs| && cs[i].id == x && IsRoot(cs[i]);
        if i < |init| { assert init[i] == cs[i]; }
      }
    }
  }

  /** With unique ids, an id occurs in the child list of `p` once if its
      record names `p` as parent and not at all otherwise. */
  lemma {:induction false} ChildrenCount(cs: seq<Category>, p: int, x: int)
    requires UniqueIds(cs)
    ensures multiset(ChildrenOf(cs, p))[x] ==
      if exists i :: 0 <= i < |cs| && cs[i].id == x && NamesParent(cs[i], p) then 1 else 0
    decreases |cs|
  {
    if cs != [] {
      var n := |cs| - 1;
      var init := cs[..n];
      ChildrenCount(init, p, x);
      assert ChildrenOf(cs, p) == ChildrenOf(init, p) + (if NamesParent(cs[n], p) then [cs[n].id] else []);
      if cs[n].id == x {
        forall i | 0 <= i < n ensures init[i].id != x {
          assert init[i] == cs[i];
        }
        if !NamesParent(cs[n], p) {
          forall i | 0 <= i < |cs| ensures !(cs[i].id == x && NamesParent(cs[i], p)) {
            if i < n { assert init[i] == cs[i]; }
          }
        }
      } else {
        ChildrenCountOther(cs, p, x);
      }
    }
  }

  lemma ChildrenCountOther(cs: seq<Category>, p: int, x: int)
    requires cs != [] && cs[|cs| - 1].id != x
    ensures var init := cs[..|cs| - 1];
      (exists i :: 0 <= i < |cs| && cs[i].id == x && NamesParent(cs[i], p))
      <==> (exists i :: 0 <= i < |init| && init[i].id == x && NamesParent(init[i], p))
  {
    var init := cs[..|cs| - 1];
    if exists i :: 0 <= i < |cs| && cs[i].id == x && NamesParent(cs[i], p) {
      var i :| 0 <= i < |cs| && cs[i].id == x && NamesParent(cs[i], p);
      assert init[i] == cs[i];
    }
    if exists i :: 0 <= i < |init| && init[i].id == x && NamesParent(init[i], p) {
      var i :| 0 <= i < |init| && init[i].id == x && NamesParent(init[i], p);
      assert cs[i] == init[i];
    }
  }

  /** The builder partitions the records: with unique ids, every record is
      placed exactly once, among the roots if its parent is falsy and
      otherwise in the children of the one node its parent names, and
      nowhere else. */
  lemma PlacedExactlyOnce(cs: seq<Category>, i: nat)
    requires UniqueIds(cs) && i < |cs|
    ensures IsRoot(cs[i]) ==> multiset(Roots(cs))[cs[i].id] == 1
    ensures IsRoot(cs[i]) ==> forall p :: multiset(ChildrenOf(cs, p))[cs[i].id] == 0
    ensures !IsRoot(cs[i]) ==> multiset(Roots(cs))[cs[i].id] == 0
    ensures !IsRoot(cs[i]) ==>
      forall p :: multiset(ChildrenOf(cs, p))[cs[i].id] == (if ParentKey(cs[i].parentId) == Some(p) then 1 else 0)
  {
    var x := cs[i].id;
    RootsCount(cs, x);
    assert (exists j :: 0 <= j < |cs| && cs[j].id == x && IsRoot(cs[j])) <==> IsRoot(cs[i]);
    forall p ensures multiset(ChildrenOf(cs, p))[x] == (if NamesParent(cs[i], p) then 1 else 0) {
      ChildrenCount(cs, p, x);
      assert (exists j :: 0 <= j < |cs| && cs[j].id == x && NamesParent(cs[j], p)) <==> NamesParent(cs[i], p);
    }
  }

  /** Each node is a copy of its own record: with unique ids the node stored
      under `cs[i].id` holds `cs[i]` itself. */
  lemma NodeHoldsRecord(cs: seq<Category>, i: nat)
    requires UniqueIds(cs) && i < |cs|
    ensures cs[i].id in NodesOf(cs) && NodesOf(cs)[cs[i].id].category == cs[i]
  {
    assert cs[i].id in Ids(cs);
  }

  // ---------------------------------------------------------------------
  // The rendered forest
  // ---------------------------------------------------------------------

  /** A node object: the record's fields and the `children` array. */
  datatype CategoryNode = CategoryNode(category: Category, children: seq<CategoryNode>)

  /** Every child reference names a node of the map. */
  ghost predicate Closed(nodes: map<int, Node>)
  {
    forall id, k :: id in nodes && 0 <= k < |nodes[id].children| ==> nodes[id].children[k] in nodes
  }

  /** The node object reached through `nodes[id]`, followed `fuel` levels down. */
  function Expand(nodes: map<int, Node>, id: int, fuel: nat): (t: CategoryNode)
    requires Closed(nodes) && id in nodes
    ensures t.category == nodes[id].category
    decreases fuel, 0, 0
  {
    CategoryNode(nodes[id].category, if fuel == 0 then [] else ExpandAll(nodes, nodes[id].children, fuel - 1))
  }

  function ExpandAll(nodes: map<int, Node>, ids: seq<int>, fuel: nat): (ts: seq<CategoryNode>)
    requires Closed(nodes) && forall k :: 0 <= k < |ids| ==> ids[k] in nodes
    ensures |ts| == |ids|
    ensures forall k :: 0 <= k < |ts| ==> ts[k].category == nodes[ids[k]].category
    decreases fuel, 1, |ids|
  {
    if ids == [] then [] else [Expand(nodes, ids[0], fuel)] + ExpandAll(nodes, ids[1..], fuel)
  }

  lemma {:induction false} ExpandAllAppend(nodes: map<int, Node>, ids: seq<int>, y: int, fuel: nat)
    requires Closed(nodes) && (forall k :: 0 <= k < |ids| ==> ids[k] in nodes) && y in nodes
    ensures ExpandAll(nodes, ids + [y], fuel) == ExpandAll(nodes, ids, fuel) + [Expand(nodes, y, fuel)]
    decreases |ids|
  {
    if ids != [] {
      assert (ids + [y])[1..] == ids[1..] + [y];
      ExpandAllAppend(nodes, ids[1..], y, fuel);
    }
  }

  lemma NodesOfClosed(cs: seq<Category>)
    ensures Closed(NodesOf(cs))
    ensures forall k :: 0 <= k < |Roots(cs)| ==> Roots(cs)[k] in NodesOf(cs)
  {
    forall id, k | id in NodesOf(cs) && 0 <= k < |NodesOf(cs)[id].children|
      ensures NodesOf(cs)[id].children[k] in NodesOf(cs)
    {
      ChildIdsAreIds(cs, id, k);
    }
    forall k | 0 <= k < |Roots(cs)| ensures Roots(cs)[k] in NodesOf(cs) {
      RootIdsAreIds(cs, k);
    }
  }

  lemma {:induction false} ChildIdsAreIds(cs: seq<Category>, p: int, k: nat)
    requires k < |ChildrenOf(cs, p)|
    ensures ChildrenOf(cs, p)[k] in Ids(cs)
    decreases |cs|
  {
    var init := cs[..|cs| - 1];
    IdsOfPrefix(cs, |cs| - 1);
    assert cs[..|cs|] == cs;
    if k < |ChildrenOf(init, p)| {
      ChildIdsAreIds(init, p, k);
    } else {
      assert cs[|cs| - 1].id in Ids(cs);
    }
  }

  lemma {:induction false} RootIdsAreIds(cs: seq<Category>, k: nat)
    requires k < |Roots(cs)|
    ensures Roots(cs)[k] in Ids(cs)
    decreases |cs|
  {
    var init := cs[..|cs| - 1];
    IdsOfPrefix(cs, |cs| - 1);
    assert cs[..|cs|] == cs;
    if k < |Roots(init)| {
      RootIdsAreIds(init, k);
    } else {
      assert cs[|cs| - 1].id in Ids(cs);
    }
  }

  /** The forest `CategoryTree` renders from the flat list: one tree per
      root, nested through the children arrays (followed `|cs|` levels down,
      deeper than any acyclic forest of `|cs|` records): one tree per root,
      in root order. */
  function Forest(cs: seq<Category>): (f: seq<CategoryNode>)
    ensures |f| == |Roots(cs)|
    ensures forall k :: 0 <= k < |f| ==> f[k].category.id == Roots(cs)[k]
  {
    NodesOfClosed(cs);
    ExpandAll(NodesOf(cs), Roots(cs), |cs|)
  }

  /** Each tree of the forest is headed by the stored node of its root: the
      last record with the root's id. */
  lemma ForestHeads(cs: seq<Category>)
    ensures forall k :: 0 <= k < |Forest(cs)| ==>
      Roots(cs)[k] in Ids(cs) && Forest(cs)[k].category == LastWith(cs, Roots(cs)[k])
  {
    NodesOfClosed(cs);
  }

  /** The ids of a tree in pre-order. */
  function Flatten(t: CategoryNode): (s: seq<int>)
    ensures |s| > 0 && s[0] == t.category.id
    decreases t, 1
  {
    [t.category.id] + FlattenAll(t.children)
  }

  function FlattenAll(ts: seq<CategoryNode>): seq<int>
    decreases ts, 0
  {
    if ts == [] then [] else Flatten(ts[0]) + FlattenAll(ts[1..])
  }

  lemma {:induction false} FlattenAllAppend(ts: seq<CategoryNode>, t: CategoryNode)
    ensures FlattenAll(ts + [t]) == FlattenAll(ts) + Flatten(t)
    decreases |ts|
  {
    if ts != [] {
      assert (ts + [t])[1..] == ts[1..] + [t];
      FlattenAllAppend(ts[1..], t);
    } else {
      assert [t][1..] == [];
    }
  }

  // ---------------------------------------------------------------------
  // isDescendant
  // ---------------------------------------------------------------------

  /** `isDescendant(parentCategory, childId)`: some child has the id, or has
      it below it; children are tried first to last, as `some` does. */
  predicate IsDescendant(parentCategory: CategoryNode, childId: int)
    decreases parentCategory, 1
  {
    SomeChildHas(parentCategory.children, childId)
  }

  predicate SomeChildHas(children: seq<CategoryNode>, childId: int)
    decreases children, 0
  {
    children != []
    && (children[0].category.id == childId || IsDescendant(children[0], childId)
        || SomeChildHas(children[1..], childId))
  }

  /** `isDescendant(p, x)` holds exactly when some node strictly below `p`
      has id `x`; `p`'s own id counts only if it also occurs below. */
  lemma {:induction false} IsDescendantBelow(p: CategoryNode, x: int)
    ensures IsDescendant(p, x) <==> x in FlattenAll(p.children)
    decreases p, 1
  {
    SomeChildHasBelow(p.children, x);
  }

  lemma {:induction false} SomeChildHasBelow(children: seq<CategoryNode>, x: int)
    ensures SomeChildHas(children, x) <==> x in FlattenAll(children)
    decreases children, 0
  {
    if children != [] {
      IsDescendantBelow(children[0], x);
      SomeChildHasBelow(children[1..], x);
    }
  }

  /** A node without children has no descendants. */
  lemma LeafHasNoDescendants(p: CategoryNode, x: int)
    requires p.children == []
    ensures !IsDescendant(p, x)
  {
  }

  // ---------------------------------------------------------------------
  // Drag and drop, and the up/down buttons
  // ---------------------------------------------------------------------

  /** The drag item `{ id, name, parentId }`, where `parentId` is the id of
      the node the item is rendered under (`null` for a root), not the
      record's own `parentId`. */
  datatype DragItem = DragItem(id: int, name: string, parentId: Value)

  /** The item a rendered node offers for dragging. */
  function DragItemOf(node: CategoryNode, renderedParent: Value): (item: DragItem)
    ensures item.id == node.category.id && item.parentId == renderedParent
  {
    DragItem(node.category.id, node.category.name, renderedParent)
  }

  /** A call `onMove(draggedId, targetId, direction)`; the drop handlers
      leave `direction` out, which the management screen receives as `null`. */
  datatype MoveRequest = MoveRequest(draggedId: int, targetId: Value, direction: Value)

  /** The drop guard of a category: the item is not the target, the target
      is not the node it is rendered under, and the item does not occur below
      the target. */
  predicate CanDrop(item: DragItem, target: CategoryNode)
  {
    item.id != target.category.id
    && item.parentId != Num(target.category.id)
    && !IsDescendant(target, item.id)
  }

  /** Dropping `item` on the category `target`. */
  function DropOnItem(item: DragItem, target: CategoryNode): (r: Option<MoveRequest>)
    ensures r.Some? ==> r.value == MoveRequest(item.id, Num(target.category.id), Null)
    ensures r.Some? <==> CanDrop(item, target)
  {
    if CanDrop(item, target) then Some(MoveRequest(item.id, Num(target.category.id), Null)) else None
  }

  /** The drop blocks moves into the item's own ancestor chain: when the item
      occurs below the target, or the target is the item itself or the node
      it is rendered under, no move is issued. */
  lemma DropIntoAncestorBlocked(item: DragItem, target: CategoryNode)
    requires item.id in FlattenAll(target.children) || item.id == target.category.id
             || item.parentId == Num(target.category.id)
    ensures DropOnItem(item, target) == None
  {
    IsDescendantBelow(target, item.id);
  }

  /** Dropping on the tree background: the root target moves the item to the
      root unless a category's drop target already received the drop (even
      one whose guard then declined to move it). */
  function DropOnBackground(item: DragItem, didDrop: bool): (r: Option<MoveRequest>)
    ensures r.Some? <==> !didDrop
    ensures r.Some? ==> r.value.draggedId == item.id && r.value.targetId == Null && !Truthy(r.value.direction)
  {
    if !didDrop then Some(MoveRequest(item.id, Null, Null)) else None
  }

  /** The up button of a node rendered under `renderedParent`. */
  function MoveUp(node: CategoryNode, renderedParent: Value): (r: MoveRequest)
    ensures r.draggedId == node.category.id && r.targetId == renderedParent && r.direction == Str("up")
  {
    MoveRequest(node.category.id, renderedParent, Str("up"))
  }

  /** The down button of a node rendered under `renderedParent`. */
  function MoveDown(node: CategoryNode, renderedParent: Value): (r: MoveRequest)
    ensures r.draggedId == node.category.id && r.targetId == renderedParent && r.direction == Str("down")
  {
    MoveRequest(node.category.id, renderedParent, Str("down"))
  }
}
