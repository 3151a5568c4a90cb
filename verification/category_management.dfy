/** The move handler of the admin category screen (`handleMoveCategory`):
    from the flat list, the dragged id and either a target or a direction it
    computes the one record sent to `updateCategory`. The request itself and
    the refetch that follows are left to the backend; the flat list is never
    reordered here. */
module CategoryManagement {
  import opened Wrappers
  import opened JsValue
  import opened Categories
  import opened CategoryTree

  /** `categories.findIndex(cat => cat.id === id)`: the first index holding
      the id, or -1. */
  function FindIndex(cs: seq<Category>, id: int): (r: int)
    ensures -1 <= r < |cs|
    ensures r == -1 <==> forall i :: 0 <= i < |cs| ==> cs[i].id != id
    ensures r >= 0 ==> cs[r].id == id && forall j :: 0 <= j < r ==> cs[j].id != id
  {
    if cs == [] then -1
    else if cs[0].id == id then 0
    else
      var r := FindIndex(cs[1..], id);
      if r == -1 then -1 else r + 1
  }

  /** `categories[i]`, which is `undefined` outside the list. */
  function At(cs: seq<Category>, i: int): (r: Option<Category>)
    ensures r.Some? <==> 0 <= i < |cs|
    ensures r.Some? ==> r.value == cs[i]
  {
    if 0 <= i < |cs| then Some(cs[i]) else None
  }

  /** `categories.find(cat => cat.id === id)`: the first record with the id. */
  function Find(cs: seq<Category>, id: int): (r: Option<Category>)
    ensures r.None? <==> id !in Ids(cs)
    ensures r.Some? ==> exists i :: 0 <= i < |cs| && cs[i] == r.value && r.value.id == id
                                    && forall j :: 0 <= j < i ==> cs[j].id != id
  {
    At(cs, FindIndex(cs, id))
  }

  /** The properties a spread `{...c}` copies; none for `undefined`. */
  function Spread(c: Option<Category>): Record
  {
    match c
    case None => map[]
    case Some(c) => ToRecord(c)
  }

  /** `updateCategory(id, record)`. */
  datatype UpdateCall = UpdateCall(id: int, record: Record)

  /** The index a directional move takes its new parent from: one before for
      'up', one after for any other direction. */
  function NeighbourIndex(currentIndex: int, direction: Value): int
  {
    if direction == Str("up") then currentIndex - 1 else currentIndex + 1
  }

  /** `handleMoveCategory(draggedId, targetId, direction)`. With a truthy
      direction it copies the parent of the flat-list neighbour (no call when
      the neighbour index is outside the list); otherwise it sets the parent
      to `targetId`, with 'root' meaning none. */
  function HandleMoveCategory(cs: seq<Category>, draggedId: int, targetId: Value, direction: Value)
    : (r: Option<UpdateCall>)
    ensures !Truthy(direction) ==> r.Some?
    ensures r.Some? ==> r.value.id == draggedId && "parentId" in r.value.record
    ensures r.Some? ==> r.value.record.Keys <= {"id", "name", "description", "parentId"}
  {
    if Truthy(direction) then
      var currentIndex := FindIndex(cs, draggedId);
      var newIndex := NeighbourIndex(currentIndex, direction);
      if 0 <= newIndex < |cs| then
        var newParentId := cs[newIndex].parentId;
        Some(UpdateCall(draggedId, Spread(At(cs, currentIndex))["parentId" := newParentId]))
      else
        None
    else
      var parentId := if targetId == Str("root") then Null else targetId;
      Some(UpdateCall(draggedId, Spread(Find(cs, draggedId))["parentId" := parentId]))
  }

  /** The call the tree's `onMove(draggedId, targetId, direction)` leads to. */
  function HandleRequest(cs: seq<Category>, req: MoveRequest): (r: Option<UpdateCall>)
    ensures !Truthy(req.direction) ==> r.Some?
    ensures r.Some? ==> r.value.id == req.draggedId && "parentId" in r.value.record
  {
    HandleMoveCategory(cs, req.draggedId, req.targetId, req.direction)
  }

  /** Overwriting `parentId` of a spread record is the record of the category
      with that parent and every other field unchanged. */
  lemma ReplaceParent(c: Category, v: Value)
    ensures ToRecord(c)["parentId" := v] == ToRecord(c.(parentId := v))
  {
  }

  /** 'up' on the record first holding the id at index `i > 0` sends that
      record with only its parent replaced by the parent of the record at
      `i - 1`, whether or not that record is a sibling. */
  lemma MoveUpTakesPredecessorParent(cs: seq<Category>, i: nat, targetId: Value)
    requires 0 < i < |cs| && forall j :: 0 <= j < i ==> cs[j].id != cs[i].id
    ensures HandleMoveCategory(cs, cs[i].id, targetId, Str("up"))
         == Some(UpdateCall(cs[i].id, ToRecord(cs[i].(parentId := cs[i - 1].parentId))))
  {
    assert FindIndex(cs, cs[i].id) == i;
    ReplaceParent(cs[i], cs[i - 1].parentId);
  }

  /** Any other truthy direction takes the parent of the record at `i + 1`. */
  lemma MoveDownTakesSuccessorParent(cs: seq<Category>, i: nat, targetId: Value, direction: Value)
    requires i + 1 < |cs| && forall j :: 0 <= j < i ==> cs[j].id != cs[i].id
    requires Truthy(direction) && direction != Str("up")
    ensures HandleMoveCategory(cs, cs[i].id, targetId, direction)
         == Some(UpdateCall(cs[i].id, ToRecord(cs[i].(parentId := cs[i + 1].parentId))))
  {
    assert FindIndex(cs, cs[i].id) == i;
    ReplaceParent(cs[i], cs[i + 1].parentId);
  }

  /** Moving the first record up, or the last record down, sends nothing. */
  lemma MoveAtBoundIsNoOp(cs: seq<Category>, i: nat, targetId: Value, direction: Value)
    requires i < |cs| && forall j :: 0 <= j < i ==> cs[j].id != cs[i].id
    requires Truthy(direction)
    requires (direction == Str("up") && i == 0) || (direction != Str("up") && i == |cs| - 1)
    ensures HandleMoveCategory(cs, cs[i].id, targetId, direction) == None
  {
    assert FindIndex(cs, cs[i].id) == i;
  }

  /** In directional mode the target argument plays no part. */
  lemma DirectionalIgnoresTarget(cs: seq<Category>, draggedId: int, t1: Value, t2: Value, direction: Value)
    requires Truthy(direction)
    ensures HandleMoveCategory(cs, draggedId, t1, direction) == HandleMoveCategory(cs, draggedId, t2, direction)
  {
  }

  /** A drop sends the dragged record with only its parent replaced: by
      `null` for the target 'root', by the target itself otherwise (so a
      `null` target stays `null`). */
  lemma DragSetsParent(cs: seq<Category>, i: nat, targetId: Value, direction: Value)
    requires i < |cs| && forall j :: 0 <= j < i ==> cs[j].id != cs[i].id
    requires !Truthy(direction)
    ensures HandleMoveCategory(cs, cs[i].id, targetId, direction)
         == Some(UpdateCall(cs[i].id, ToRecord(cs[i].(parentId := if targetId == Str("root") then Null else targetId))))
  {
    assert FindIndex(cs, cs[i].id) == i;
    ReplaceParent(cs[i], if targetId == Str("root") then Null else targetId);
  }

  /** An id missing from the list: 'up' computes index -2 and sends nothing;
      any other direction computes index 0 and sends a record holding only
      `parentId` (that of the first record); a drop sends a record holding
      only `parentId`. */
  lemma MissingIdMoves(cs: seq<Category>, draggedId: int, targetId: Value, direction: Value)
    requires forall i :: 0 <= i < |cs| ==> cs[i].id != draggedId
    ensures direction == Str("up") ==> HandleMoveCategory(cs, draggedId, targetId, direction) == None
    ensures Truthy(direction) && direction != Str("up") ==>
      HandleMoveCategory(cs, draggedId, targetId, direction)
        == if cs == [] then None else Some(UpdateCall(draggedId, map["parentId" := cs[0].parentId]))
    ensures !Truthy(direction) ==>
      HandleMoveCategory(cs, draggedId, targetId, direction)
        == Some(UpdateCall(draggedId, map["parentId" := if targetId == Str("root") then Null else targetId]))
  {
    assert FindIndex(cs, draggedId) == -1;
  }

  /** The up and down buttons reach the directional mode, so the parent the
      node is rendered under makes no difference to what is sent. */
  lemma ButtonsIgnoreRenderedParent(cs: seq<Category>, node: CategoryNode, p1: Value, p2: Value)
    ensures HandleRequest(cs, MoveUp(node, p1)) == HandleRequest(cs, MoveUp(node, p2))
    ensures HandleRequest(cs, MoveDown(node, p1)) == HandleRequest(cs, MoveDown(node, p2))
  {
    DirectionalIgnoresTarget(cs, node.category.id, p1, p2, Str("up"));
    DirectionalIgnoresTarget(cs, node.category.id, p1, p2, Str("down"));
  }

  /** The flat-list neighbour need not be a sibling: in [A (root), B (child
      of A), C (root)], moving the root C up makes it a child of A, and
      moving B up makes it a root. */
  lemma NeighbourIsNotASibling()
    ensures var a, b, c := Category(1, "A", None, Null), Category(2, "B", None, Num(1)), Category(3, "C", None, Null);
      && HandleMoveCategory([a, b, c], 3, Null, Str("up")) == Some(UpdateCall(3, ToRecord(c.(parentId := Num(1)))))
      && HandleMoveCategory([a, b, c], 2, Num(1), Str("up")) == Some(UpdateCall(2, ToRecord(b.(parentId := Null))))
  {
    var a, b, c := Category(1, "A", None, Null), Category(2, "B", None, Num(1)), Category(3, "C", None, Null);
    MoveUpTakesPredecessorParent([a, b, c], 2, Null);
    MoveUpTakesPredecessorParent([a, b, c], 1, Num(1));
  }
}
