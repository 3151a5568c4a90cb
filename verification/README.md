# Category tree, category form, session and route guard of the Daeshin web shop

This Dafny project models the client-side logic of the Daeshin web shop's
administration screens:

- **Category tree.** `buildCategoryTree` turns the flat category list into
  a forest.
  - It is a two-pass build over an id → node dictionary, with children
    appended in place.
  - Alongside it sit the recursive `isDescendant` test, the drop guard of a
    category item, the up/down buttons and the drop on the tree background.
- **Move handler.** `handleMoveCategory` computes the one record sent to
  the backend, either in directional mode (flat-list neighbour) or in drag
  mode.
- **Category form.** Loading a selection, validating and normalising a
  submit, and the list of parent choices.
- **Session context.** The LOGIN/LOGOUT reducer, the key-value store it
  writes, and the restore step run at start-up.
- **Route guard.** The ordered decision `PrivateRoute` takes over loading,
  authentication and roles.
- **Image address.** The address of a product image file.

## How the model is built

JavaScript values that the code tests for truthiness or compares are
modelled as `JsValue.Value`, with three cases: `Null`, `Num` and `Str`.
Objects sent to callbacks and to the backend are maps from property names
to values, and a spread is map union.

The tree builder is an imperative method. Its state is:

- a `map<int, Node>` standing for `categoryMap`, where a node holds its
  record and the ids of its children;
- a root list.

Both are filled in two loops with invariants. It returns an error result
for the first record whose truthy `parentId` names no category, which is
where the JavaScript throws.

The rendered forest (`CategoryNode`) is obtained by following the children
lists, and the central theorem is proved about it. With unique ids and
acyclic parent links, the forest holds every record exactly once.

The form and the session are classes whose fields are the component state
and whose methods update them. Their new state is specified by pure
functions, and the properties are lemmas about those functions.

## Model

| member | source | states |
|---|---|---|
| JsValue.Or | src/components/admin/category/CategoryForm.js:47 | `a \|\| b` is `a` when `a` is truthy (not null, 0 or '') and `b` otherwise |
| JsValue.Truthy | src/components/admin/category/CategoryTree.js:177 | a value is falsy exactly when it is null, 0 or '' |
| JsValue.PropertyKeyRoundTrip | src/components/admin/category/CategoryTree.js:172-178 | a numeric id and its string property key name the same dictionary entry: parsing the key of `i` gives `i`, and a string that parses to `i` is exactly that key |
| JsString.Trim | src/components/admin/category/CategoryForm.js:39-46 | the trimmed string is no longer than the input and is empty exactly when the input is blank |
| JsString.TrimCutsWhiteSpace | src/components/admin/category/CategoryForm.js:39-46 | `trim` cuts only white space from both ends: the result is the infix after the white-space prefix, whatever follows it is white space, and its ends are not white space |
| JsString.TrimIdempotent | src/components/admin/category/CategoryForm.js:45-46 | trimming a trimmed string changes nothing |
| Categories.ToRecord | src/components/admin/category/CategoryManagement.js:67-76 | the object form of a category has exactly the keys id, name, description and parentId, with the category's values |
| CategoryTree.LastWith | src/components/admin/category/CategoryTree.js:171-173 | the node stored for an id copies the last record with that id; no later record has it |
| CategoryTree.ParentKey | src/components/admin/category/CategoryTree.js:178 | `categoryMap[parentId]` reaches nothing for null, id n for the number n, and for a string only the id whose decimal key it is |
| CategoryTree.ParentKeyOfKey | src/components/admin/category/CategoryTree.js:178 | the decimal key of an id reaches that id, so a string parentId such as "7" finds node 7 |
| CategoryTree.BuildCategoryTree | src/components/admin/category/CategoryTree.js:169-185 | fails exactly when some record's truthy parentId names no category, reporting the first such record; otherwise the roots are the records with a falsy parentId in input order, and each node holds its record with the ids of the records naming it as parent, in input order |
| CategoryTree.RootsAppend | src/components/admin/category/CategoryTree.js:176-181 | roots keep input order: the roots of a concatenation are the roots of each part, in sequence |
| CategoryTree.ChildrenAppend | src/components/admin/category/CategoryTree.js:176-178 | children keep input order, whether the parent comes before or after the child |
| CategoryTree.RootsCount | src/components/admin/category/CategoryTree.js:176-181 | with unique ids an id is in the root list once if its parentId is falsy, otherwise not at all |
| CategoryTree.ChildrenCount | src/components/admin/category/CategoryTree.js:176-178 | with unique ids an id is among the children of `p` once if its record names `p`, otherwise not at all |
| CategoryTree.PlacedExactlyOnce | src/components/admin/category/CategoryTree.js:170-182 | every record is placed exactly once: among the roots if its parentId is falsy, otherwise in its parent's children and in no other list |
| CategoryTree.NodeHoldsRecord | src/components/admin/category/CategoryTree.js:171-173 | with unique ids, the node of each record is a copy of that record |
| CategoryTree.IsDescendantBelow | src/components/admin/category/CategoryTree.js:100-105 | `isDescendant(p, x)` holds exactly when `x` occurs strictly below `p`; `p`'s own id counts only if it also occurs below |
| CategoryTree.LeafHasNoDescendants | src/components/admin/category/CategoryTree.js:100-101 | a node without children has no descendants |
| CategoryTree.DragItemOf | src/components/admin/category/CategoryTree.js:70-72 | the drag item carries the category's id and the id of the node it is rendered under, not the record's own parentId |
| CategoryTree.DropOnItem | src/components/admin/category/CategoryTree.js:80-83 | a drop fires `onMove(item.id, target.id)` exactly when the item is not the target, the target is not the item's rendered parent, and the item does not occur below the target |
| CategoryTree.DropIntoAncestorBlocked | src/components/admin/category/CategoryTree.js:80-83 | no move is issued when the item is the target, lies below it, or is rendered under it |
| CategoryTree.DropOnBackground | src/components/admin/category/CategoryTree.js:160-166 | the tree background moves the item to the root (target null, no direction) exactly when no category handled the drop |
| CategoryTree.MoveUp | src/components/admin/category/CategoryTree.js:92-94 | the up button calls `onMove(id, renderedParent, 'up')` |
| CategoryTree.MoveDown | src/components/admin/category/CategoryTree.js:96-98 | the down button calls `onMove(id, renderedParent, 'down')` |
| CategoryForest.SubtreeCount | src/components/admin/category/CategoryTree.js:176-182 | with unique ids and acyclic links, the subtree under `a` lists once each record whose parent chain passes through `a`, and nothing else |
| CategoryForest.ForestHoldsEveryRecordOnce | src/components/admin/category/CategoryTree.js:169-185 | with unique ids and acyclic parent links, the ids reachable from the roots are a permutation of the input ids, so there are exactly as many nodes as records |
| CategoryTree.Forest | src/components/admin/category/CategoryTree.js:187-200 | the rendered forest has one tree per root, in root order, each headed by that root's id |
| CategoryTree.ForestHeads | src/components/admin/category/CategoryTree.js:169-200 | each tree of the forest is headed by the stored record of its root (the last record with that id) |
| CategoryManagement.FindIndex | src/components/admin/category/CategoryManagement.js:63 | `findIndex` gives the first index holding the id, or -1 exactly when no record has it |
| CategoryManagement.At | src/components/admin/category/CategoryManagement.js:66-67 | indexing gives a record exactly inside the list bounds |
| CategoryManagement.Find | src/components/admin/category/CategoryManagement.js:74 | `categories.find` gives the first record with the id, and nothing exactly when no record has it |
| CategoryManagement.HandleMoveCategory | src/components/admin/category/CategoryManagement.js:58-79 | a drag always sends a record; any record sent is for the dragged id, holds parentId, and has no keys beyond the four category fields |
| CategoryManagement.HandleRequest | src/components/admin/category/CategoryManagement.js:106 | the tree's `onMove` requests go to `handleMoveCategory`: a drag always leads to an update, and every update is for the dragged id and sets its parentId |
| CategoryManagement.ReplaceParent | src/components/admin/category/CategoryManagement.js:67 | overwriting parentId in a spread record is the record of the category with only its parent changed |
| CategoryManagement.MoveUpTakesPredecessorParent | src/components/admin/category/CategoryManagement.js:63-67 | 'up' sends the dragged record with only its parentId replaced by that of the record before it in the flat list |
| CategoryManagement.MoveDownTakesSuccessorParent | src/components/admin/category/CategoryManagement.js:63-67 | any other truthy direction sends the record with the parentId of the record after it |
| CategoryManagement.MoveAtBoundIsNoOp | src/components/admin/category/CategoryManagement.js:65-70 | 'up' on the first record and 'down' on the last send nothing |
| CategoryManagement.DirectionalIgnoresTarget | src/components/admin/category/CategoryManagement.js:61-70 | in directional mode the target argument makes no difference |
| CategoryManagement.DragSetsParent | src/components/admin/category/CategoryManagement.js:72-76 | a drag sends the dragged record with only parentId replaced: null for 'root', the target otherwise (null stays null) |
| CategoryManagement.MissingIdMoves | src/components/admin/category/CategoryManagement.js:63-76 | for an absent id, 'up' sends nothing, another direction sends only the first record's parentId (nothing for an empty list), and a drag sends a record holding only parentId |
| CategoryManagement.ButtonsIgnoreRenderedParent | src/components/admin/category/CategoryTree.js:92-98 | the parent passed by the up/down buttons does not affect what is sent |
| CategoryManagement.NeighbourIsNotASibling | src/components/admin/category/CategoryManagement.js:63-67 | the neighbour need not be a sibling: in [A, B under A, C], moving C up puts it under A and moving B up makes it a root |
| CategoryMoves.Reparent | src/components/admin/category/CategoryManagement.js:79 | the list once the update is stored: only the moved record's parentId changes |
| CategoryMoves.DropOntoOwnChildCreatesCycle | src/components/admin/category/CategoryTree.js:80-83 | as written, dropping the root A onto its child B fires a move, and the stored list has a parent cycle, no roots and an empty forest |
| CategoryMoves.DropOnItemIntended | src/components/admin/category/CategoryTree.js:80-83 | the corrected guard fires exactly when the program's three tests pass (the target is not the item, not its rendered parent, and the item is not below the target) and, in addition, the target is not below the dragged node |
| CategoryMoves.SubtreeBelow | src/components/admin/category/CategoryTree.js:100-105 | below a category's node lie exactly the other records whose parent chain passes through it |
| CategoryMoves.MoveKeepsAcyclic | src/components/admin/category/CategoryManagement.js:72-79 | moving a category under one that is not below it keeps the parent links acyclic and the ids unique |
| CategoryMoves.DropSendsReparentedRecord | src/components/admin/category/CategoryManagement.js:72-79 | a drop of `a` on `b` sends the record of `a` with `b` as parent |
| CategoryMoves.IntendedDropKeepsTreeWhole | src/components/admin/category/CategoryTree.js:80-83 | every drop the corrected guard allows sends the reparented record, keeps the links acyclic, and the rebuilt tree still holds every record once |
| CategoryForm.CategoryData | src/components/admin/category/CategoryForm.js:44-48 | the submitted data has exactly name, description and parentId; the name is trimmed; the description is null exactly when blank and trimmed otherwise; the parent is null exactly when falsy and unchanged otherwise |
| CategoryForm.LoadedDescription | src/components/admin/category/CategoryForm.js:25 | the loaded description is `description \|\| ''`: the description when it is a non-empty string, '' otherwise |
| CategoryForm.CategoryDataIdempotent | src/components/admin/category/CategoryForm.js:44-48 | normalising already normalised data gives the same record |
| CategoryForm.EditOverlayKeepsId | src/components/admin/category/CategoryForm.js:50-51 | in edit mode the selection's id survives and the three form fields replace the selection's |
| CategoryForm.ResubmitUnchanged | src/components/admin/category/CategoryForm.js:22-51 | loading a normalised category and submitting it unchanged sends back exactly its record |
| CategoryForm.ParentOptions | src/components/admin/category/CategoryForm.js:93-94 | the parent choices are the categories other than the edited one (all of them with no selection) |
| CategoryForm.ParentOptionsAppend | src/components/admin/category/CategoryForm.js:93-94 | the choices keep list order |
| CategoryForm.ParentOptionsWithoutSelection | src/components/admin/category/CategoryForm.js:93-94 | with no selection every category is offered |
| CategoryForm.DescendantOffered | src/components/admin/category/CategoryForm.js:93-94 | only the edited category is withheld: editing A offers its child B |
| CategoryForm.CategoryFormState.constructor | src/components/admin/category/CategoryForm.js:17-20 | all four fields start as '' |
| CategoryForm.CategoryFormState.LoadSelection | src/components/admin/category/CategoryForm.js:22-33 | a selection is copied into the fields (a missing description or falsy parent becomes ''); no selection clears them; the error is cleared |
| CategoryForm.CategoryFormState.Submit | src/components/admin/category/CategoryForm.js:35-60 | a blank name sets the required-name error, invokes nothing and keeps the fields; otherwise edit sends the selection overlaid by the data, add sends the data alone, and the fields reset to '' |
| AuthContext.Reduce | src/contexts/AuthContext.js:12-39 | LOGIN authenticates with the payload's user, token and admin; LOGOUT gives the initial state; any other action changes nothing |
| AuthContext.StoreEffect | src/contexts/AuthContext.js:15-27 | LOGIN writes the serialised user and the token; LOGOUT removes exactly those two keys; every other key is untouched |
| AuthContext.Present | src/contexts/AuthContext.js:46-50 | a key counts as present exactly when `getItem` returns a truthy value: stored and not '' |
| AuthContext.LogoutIdempotent | src/contexts/AuthContext.js:25-35 | LOGOUT equals the initial state, so a second logout changes neither the state nor the store |
| AuthContext.LoginThenLogout | src/contexts/AuthContext.js:14-35 | LOGIN then LOGOUT leaves the initial state and neither user nor token in the store, other keys as before |
| AuthContext.AdminKeyNeverWritten | src/contexts/AuthContext.js:12-39 | no sequence of actions adds, removes or changes the 'admin' key |
| AuthContext.RestoreAction | src/contexts/AuthContext.js:45-58 | restore dispatches LOGIN exactly when user and token are both present and the user parses, with admin true only if the 'admin' key holds 'true' |
| AuthContext.LoginSurvivesReload | src/contexts/AuthContext.js:14-53 | after a login the restore step gives back the same user and token, but admin false when the store had no 'admin' key |
| AuthContext.Session.constructor | src/contexts/AuthContext.js:42-43 | the provider starts in the initial state and loading |
| AuthContext.Session.Dispatch | src/contexts/AuthContext.js:12-39 | dispatching applies the reducer to the state and its writes to the store, loading unchanged |
| AuthContext.Session.Restore | src/contexts/AuthContext.js:45-60 | the restored LOGIN, if any, is dispatched (a parse failure changes nothing) and loading ends false in every case |
| PrivateRoute.Decide | src/components/common/PrivateRoute.js:8-21 | loading gives the placeholder, then unauthenticated gives /login, then a missing role gives /, a null user with required roles throws, and the page is shown exactly when authenticated with no required roles or an included role |
| PrivateRoute.AdminPagesNeedAdminRole | src/components/common/PrivateRoute.js:17-21 | with the roles ['ADMIN', 'SUPER'] the page is shown exactly to a loaded, authenticated user with one of them |
| PrivateRoute.LoggedOutGoesToLogin | src/components/common/PrivateRoute.js:13-15 | after LOGOUT every protected route redirects to /login |
| PrivateRoute.NullUserSessionFailsRoleCheck | src/components/common/PrivateRoute.js:17-19 | a restored user 'null' yields an authenticated session without a user, on which a role check throws |
| ProductImageService.TrimmedBase | src/services/productImageService.js:34-36 | exactly one trailing '/' is removed if present, otherwise the base is unchanged |
| ProductImageService.ImageUrl | src/services/productImageService.js:33-38 | the address is the trimmed base, then '/api/v1/product-images/file/', then the file name verbatim |
| ProductImageService.ConfiguredImageUrl | src/services/productImageService.js:33-38 | with the configured base the address is 'https://daeshin.duckdns.org/api/v1/product-images/file/' + filename |
| ProductImageService.ImageUrlInjective | src/services/productImageService.js:37 | for one base, or for file names of equal length, the address determines the file name and the trimmed base |
| ProductImageService.PathInNameCollides | src/services/productImageService.js:33-38 | across different bases and name lengths the address does not determine the file name: a name holding the file path and a base holding it give one address, e.g. base 'h' with name 'a/api/v1/product-images/file/z' and base 'h/api/v1/product-images/file/a' with name 'z' |
| ProductImageService.DoubleSlashKept | src/services/productImageService.js:34-36 | only one slash is cut, so a base ending in '//' yields '//api' |

## Left out

- `undefined` is not distinguished from `null`; every modelled operation treats them alike.
- Category ids are integers. Fractional, NaN or string ids are not modelled.
- A string `parentId` reaches the dictionary through its canonical decimal key; other property-key conversions are not modelled.
- A record's other fields are not modelled, so a spread copies only id, name, description and parentId.
- CategoryForm.CategoryFormState.Submit and CategoryForm.EditOverlayKeepsId: the selection being edited is the rendered tree node (`onSelect(category)` at src/components/admin/category/CategoryTree.js:123, stored at src/components/admin/category/CategoryManagement.js:86-87), so the edit payload `{...selectedCategory, ...categoryData}` also carries its `children` array, the whole nested subtree. The model spreads the selection as a plain category record and does not include `children` in the update it sends.
- One node object is shared by the dictionary and its parent's children array. This aliasing is modelled by an id-indexed map of nodes with child-id lists.
- CategoryTree.Forest: the rendered forest follows children at most as many levels deep as there are records. That is the whole forest for acyclic links, as proved; the unbounded recursion JavaScript would perform on a cycle is not modelled.
- Other leaves of the HTTP plumbing are not modelled:
  - `updateCategory`, `fetchCategories`, the add and update callbacks and the refetch. The call a handler would make is returned as a value.
  - The backend storing an update is modelled by `CategoryMoves.Reparent`; failed requests are not modelled.
- React rendering, expansion state, deletion and selection clicks, and the drag-and-drop library are not modelled. Whether a nested target already handled the drop is a parameter.
- `JSON.stringify` and `JSON.parse` are parameters. Logging is omitted.
- AuthContext.Reduce: the LOGIN payload's `admin` and `token` are a boolean and a string. A non-boolean `admin` or a non-string token from the server is not modelled.
- PrivateRoute.Decide: role membership uses value equality. NaN roles are not representable.

## Findings

| source | as written | input that shows it | evidently intended | confidence | as-written member | corrected member |
|---|---|---|---|---|---|---|
| src/components/admin/category/CategoryTree.js:81 | the drop guard tests `isDescendant(category, item.id)`: is the dragged item below the target? It never tests whether the target is below the dragged item | categories [A (id 1, parentId null), B (id 2, parentId 1)]; drag A's node onto B's node | keep the three tests and also refuse a target that lies below the dragged node, so that no move creates a parent cycle | high; not executed | CategoryMoves.DropOntoOwnChildCreatesCycle | CategoryMoves.IntendedDropKeepsTreeWhole |
