/** The node-count property of the rendered category forest: with unique
    ids, no dangling parents and acyclic parent links, the nodes reachable
    from the roots are exactly the input records, each once. Acyclicity is
    witnessed by a depth map that grows strictly from parent to child. */
module CategoryForest {
  import opened JsValue
  import opened Categories
  import opened CategoryTree

  /** `rank` assigns every id a depth, and every truthy `parentId` names an
      id of smaller depth; this rules out both dangling parents and cycles. */
  ghost predicate Acyclic(cs: seq<Category>, rank: map<int, nat>)
  {
    && rank.Keys == Ids(cs)
    && forall i :: 0 <= i < |cs| && Truthy(cs[i].parentId) ==>
         ParentKey(cs[i].parentId).Some? && ParentKey(cs[i].parentId).value in rank
         && rank[ParentKey(cs[i].parentId).value] < rank[cs[i].id]
  }

  /** The record with id `x` (the only one, with unique ids). */
  function RecordOf(cs: seq<Category>, x: int): (c: Category)
    requires x in Ids(cs)
    ensures c.id == x
  {
    LastWith(cs, x)
  }

  lemma RecordOfIndex(cs: seq<Category>, i: nat)
    requires UniqueIds(cs) && i < |cs|
    ensures cs[i].id in Ids(cs) && RecordOf(cs, cs[i].id) == cs[i]
  {
    assert cs[i].id in Ids(cs);
  }

  /** `a` lies on the parent chain of `x` (`x` itself included). */
  ghost predicate Anc(cs: seq<Category>, rank: map<int, nat>, x: int, a: int)
    requires UniqueIds(cs) && Acyclic(cs, rank)
    decreases if x in rank then rank[x] else 0
  {
    x == a
    || (x in Ids(cs) && Truthy(RecordOf(cs, x).parentId)
        && var p := ParentOf(cs, rank, x); Anc(cs, rank, p, a))
  }

  function ParentOf(cs: seq<Category>, rank: map<int, nat>, x: int): (p: int)
    requires UniqueIds(cs) && Acyclic(cs, rank)
    requires x in Ids(cs) && Truthy(RecordOf(cs, x).parentId)
    ensures p in rank && x in rank && rank[p] < rank[x]
    ensures NamesParent(RecordOf(cs, x), p)
  {
    var i :| 0 <= i < |cs| && cs[i].id == x;
    RecordOfIndex(cs, i);
    ParentKey(RecordOf(cs, x).parentId).value
  }

  lemma {:induction false} AncRank(cs: seq<Category>, rank: map<int, nat>, x: int, a: int)
    requires UniqueIds(cs) && Acyclic(cs, rank)
    requires Anc(cs, rank, x, a) && x != a
    ensures x in rank && a in rank && rank[a] < rank[x]
    decreases rank[x]
  {
    var p := ParentOf(cs, rank, x);
    if p != a {
      AncRank(cs, rank, p, a);
    }
  }

  lemma {:induction false} AncTrans(cs: seq<Category>, rank: map<int, nat>, x: int, b: int, a: int)
    requires UniqueIds(cs) && Acyclic(cs, rank)
    requires Anc(cs, rank, x, b) && Anc(cs, rank, b, a)
    ensures Anc(cs, rank, x, a)
    decreases if x in rank then rank[x] else 0
  {
    if x != b {
      AncTrans(cs, rank, ParentOf(cs, rank, x), b, a);
    }
  }

  /** Whether `a` lies on the chain of `x` does not depend on the depth map
      that witnesses acyclicity. */
  lemma {:induction false} AncIndependent(cs: seq<Category>, r1: map<int, nat>, r2: map<int, nat>, x: int, a: int)
    requires UniqueIds(cs) && Acyclic(cs, r1) && Acyclic(cs, r2)
    ensures Anc(cs, r1, x, a) <==> Anc(cs, r2, x, a)
    decreases if x in r1 then r1[x] else 0
  {
    if x != a && x in Ids(cs) && Truthy(RecordOf(cs, x).parentId) {
      assert ParentOf(cs, r1, x) == ParentOf(cs, r2, x);
      AncIndependent(cs, r1, r2, ParentOf(cs, r1, x), a);
    }
  }

  /** Two points of one parent chain are ordered along it. */
  lemma {:induction false} AncLinear(cs: seq<Category>, rank: map<int, nat>, x: int, a: int, b: int)
    requires UniqueIds(cs) && Acyclic(cs, rank)
    requires Anc(cs, rank, x, a) && Anc(cs, rank, x, b)
    ensures Anc(cs, rank, a, b) || Anc(cs, rank, b, a)
    decreases if x in rank then rank[x] else 0
  {
    if x != a && x != b {
      AncLinear(cs, rank, ParentOf(cs, rank, x), a, b);
    }
  }

  /** The child of `a` through which the chain of `x` passes is unique. */
  lemma ChildOnChainUnique(cs: seq<Category>, rank: map<int, nat>, x: int, a: int, i: nat, j: nat)
    requires UniqueIds(cs) && Acyclic(cs, rank)
    requires i < |cs| && j < |cs|
    requires NamesParent(cs[i], a) && NamesParent(cs[j], a)
    requires Anc(cs, rank, x, cs[i].id) && Anc(cs, rank, x, cs[j].id)
    ensures i == j
  {
    RecordOfIndex(cs, i);
    RecordOfIndex(cs, j);
    if i != j {
      AncLinear(cs, rank, x, cs[i].id, cs[j].id);
      if Anc(cs, rank, cs[i].id, cs[j].id) {
        AncStep(cs, rank, cs[i].id, cs[j].id);
        AncRank(cs, rank, a, cs[j].id);
      } else {
        AncStep(cs, rank, cs[j].id, cs[i].id);
        AncRank(cs, rank, a, cs[i].id);
      }
    }
  }

  /** Leaving a chain point other than the target goes one step up. */
  lemma AncStep(cs: seq<Category>, rank: map<int, nat>, x: int, a: int)
    requires UniqueIds(cs) && Acyclic(cs, rank)
    requires Anc(cs, rank, x, a) && x != a
    ensures x in Ids(cs) && Truthy(RecordOf(cs, x).parentId) && Anc(cs, rank, ParentOf(cs, rank, x), a)
  {
  }

  /** The chain of `x` reaches `a` (strictly above `x`) exactly when it
      passes through one of `a`'s children. */
  lemma {:induction false} AncViaChild(cs: seq<Category>, rank: map<int, nat>, x: int, a: int)
    requires UniqueIds(cs) && Acyclic(cs, rank)
    requires x != a
    ensures Anc(cs, rank, x, a) <==>
      exists j :: 0 <= j < |cs| && NamesParent(cs[j], a) && Anc(cs, rank, x, cs[j].id)
    decreases if x in rank then rank[x] else 0
  {
    if Anc(cs, rank, x, a) {
      var p := ParentOf(cs, rank, x);
      var i :| 0 <= i < |cs| && cs[i].id == x;
      RecordOfIndex(cs, i);
      if p == a {
        assert NamesParent(cs[i], a) && Anc(cs, rank, x, cs[i].id);
      } else {
        AncViaChild(cs, rank, p, a);
        var j :| 0 <= j < |cs| && NamesParent(cs[j], a) && Anc(cs, rank, p, cs[j].id);
        assert Anc(cs, rank, x, cs[j].id);
      }
    }
    if exists j :: 0 <= j < |cs| && NamesParent(cs[j], a) && Anc(cs, rank, x, cs[j].id) {
      var j :| 0 <= j < |cs| && NamesParent(cs[j], a) && Anc(cs, rank, x, cs[j].id);
      RecordOfIndex(cs, j);
      assert ParentOf(cs, rank, cs[j].id) == a;
      assert Anc(cs, rank, cs[j].id, a);
      AncTrans(cs, rank, x, cs[j].id, a);
    }
  }

  /** Every chain ends at a root. */
  lemma {:induction false} HasRootAbove(cs: seq<Category>, rank: map<int, nat>, x: int)
    requires UniqueIds(cs) && Acyclic(cs, rank) && x in Ids(cs)
    ensures exists j :: 0 <= j < |cs| && IsRoot(cs[j]) && Anc(cs, rank, x, cs[j].id)
    decreases rank[x]
  {
    var i :| 0 <= i < |cs| && cs[i].id == x;
    RecordOfIndex(cs, i);
    if IsRoot(cs[i]) {
      assert Anc(cs, rank, x, cs[i].id);
    } else {
      var p := ParentOf(cs, rank, x);
      assert p in Ids(cs);
      HasRootAbove(cs, rank, p);
      var j :| 0 <= j < |cs| && IsRoot(cs[j]) && Anc(cs, rank, p, cs[j].id);
      assert Anc(cs, rank, x, cs[j].id);
    }
  }

  /** A chain reaches at most one root. */
  lemma RootOnChainUnique(cs: seq<Category>, rank: map<int, nat>, x: int, i: nat, j: nat)
    requires UniqueIds(cs) && Acyclic(cs, rank)
    requires i < |cs| && j < |cs| && IsRoot(cs[i]) && IsRoot(cs[j])
    requires Anc(cs, rank, x, cs[i].id) && Anc(cs, rank, x, cs[j].id)
    ensures i == j
  {
    RecordOfIndex(cs, i);
    RecordOfIndex(cs, j);
    if i != j {
      AncLinear(cs, rank, x, cs[i].id, cs[j].id);
    }
  }

  // ---------------------------------------------------------------------
  // Counting nodes in the expanded trees
  // ---------------------------------------------------------------------

  ghost predicate FuelCovers(rank: map<int, nat>, a: int, fuel: nat)
    requires a in rank
  {
    forall d :: d in rank ==> rank[d] < rank[a] + fuel
  }

  /** The pre-order of the subtree under `a` lists each id on whose chain
      `a` lies, once, and nothing else. */
  lemma {:induction false} SubtreeCount(cs: seq<Category>, rank: map<int, nat>, a: int, fuel: nat, x: int)
    requires UniqueIds(cs) && Acyclic(cs, rank)
    requires a in Ids(cs) && FuelCovers(rank, a, fuel)
    ensures NodesOfClosedAt(cs, a)
    ensures multiset(Flatten(Expand(NodesOf(cs), a, fuel)))[x] == if Anc(cs, rank, x, a) then 1 else 0
    decreases fuel, 0, 0
  {
    NodesOfClosed(cs);
    assert fuel > 0;
    ChildrenSubtreesCount(cs, rank, a, fuel - 1, x, |cs|);
    assert cs[..|cs|] == cs;
    assert ChildOnChain(cs, rank, a, x, |cs|) ==
      exists j :: 0 <= j < |cs| && NamesParent(cs[j], a) && Anc(cs, rank, x, cs[j].id);
    ExpandedChildren(cs, a, fuel);
    FlattenCount(Expand(NodesOf(cs), a, fuel), x);
    if x == a {
      SelfNotBelow(cs, rank, a);
    } else {
      AncViaChild(cs, rank, x, a);
    }
  }

  lemma ExpandedChildren(cs: seq<Category>, a: int, fuel: nat)
    requires a in Ids(cs) && fuel > 0
    ensures Closed(NodesOf(cs))
    ensures forall m :: 0 <= m < |ChildrenOf(cs, a)| ==> ChildrenOf(cs, a)[m] in NodesOf(cs)
    ensures Expand(NodesOf(cs), a, fuel).category.id == a
    ensures Expand(NodesOf(cs), a, fuel).children == ExpandAll(NodesOf(cs), ChildrenOf(cs, a), fuel - 1)
  {
    NodesOfClosed(cs);
    assert NodesOf(cs)[a] == Node(LastWith(cs, a), ChildrenOf(cs, a));
  }

  lemma FlattenCount(t: CategoryNode, x: int)
    ensures multiset(Flatten(t))[x] == (if x == t.category.id then 1 else 0) + multiset(FlattenAll(t.children))[x]
  {
  }

  /** No child of `a` has `a` on its chain. */
  lemma SelfNotBelow(cs: seq<Category>, rank: map<int, nat>, a: int)
    requires UniqueIds(cs) && Acyclic(cs, rank)
    ensures !exists j :: 0 <= j < |cs| && NamesParent(cs[j], a) && Anc(cs, rank, a, cs[j].id)
  {
    if exists j :: 0 <= j < |cs| && NamesParent(cs[j], a) && Anc(cs, rank, a, cs[j].id) {
      var j :| 0 <= j < |cs| && NamesParent(cs[j], a) && Anc(cs, rank, a, cs[j].id);
      RecordOfIndex(cs, j);
      assert ParentOf(cs, rank, cs[j].id) == a;
      AncRank(cs, rank, a, cs[j].id);
      assert false;
    }
  }

  ghost predicate NodesOfClosedAt(cs: seq<Category>, a: int)
  {
    Closed(NodesOf(cs)) && a in NodesOf(cs)
  }

  /** Some child of `a` among `cs[..k]` lies on the chain of `x`. */
  ghost predicate ChildOnChain(cs: seq<Category>, rank: map<int, nat>, a: int, x: int, k: nat)
    requires UniqueIds(cs) && Acyclic(cs, rank) && k <= |cs|
  {
    exists j :: 0 <= j < k && NamesParent(cs[j], a) && Anc(cs, rank, x, cs[j].id)
  }

  lemma ChildOnChainStep(cs: seq<Category>, rank: map<int, nat>, a: int, x: int, k: nat)
    requires UniqueIds(cs) && Acyclic(cs, rank) && 0 < k <= |cs|
    ensures ChildOnChain(cs, rank, a, x, k) <==>
      ChildOnChain(cs, rank, a, x, k - 1) || (NamesParent(cs[k - 1], a) && Anc(cs, rank, x, cs[k - 1].id))
    ensures !(ChildOnChain(cs, rank, a, x, k - 1) && NamesParent(cs[k - 1], a) && Anc(cs, rank, x, cs[k - 1].id))
  {
    ChildOnChainSplit(cs, rank, a, x, k);
    if ChildOnChain(cs, rank, a, x, k - 1) && NamesParent(cs[k - 1], a) && Anc(cs, rank, x, cs[k - 1].id) {
      var j :| 0 <= j < k - 1 && NamesParent(cs[j], a) && Anc(cs, rank, x, cs[j].id);
      ChildOnChainUnique(cs, rank, x, a, j, k - 1);
    }
  }

  lemma ChildOnChainSplit(cs: seq<Category>, rank: map<int, nat>, a: int, x: int, k: nat)
    requires UniqueIds(cs) && Acyclic(cs, rank) && 0 < k <= |cs|
    ensures ChildOnChain(cs, rank, a, x, k) <==>
      ChildOnChain(cs, rank, a, x, k - 1) || (NamesParent(cs[k - 1], a) && Anc(cs, rank, x, cs[k - 1].id))
  {
    var last := NamesParent(cs[k - 1], a) && Anc(cs, rank, x, cs[k - 1].id);
    if ChildOnChain(cs, rank, a, x, k) && !last {
      var j :| 0 <= j < k && NamesParent(cs[j], a) && Anc(cs, rank, x, cs[j].id);
      assert j != k - 1;
      assert ChildOnChain(cs, rank, a, x, k - 1);
    }
    if ChildOnChain(cs, rank, a, x, k - 1) {
      var j :| 0 <= j < k - 1 && NamesParent(cs[j], a) && Anc(cs, rank, x, cs[j].id);
      assert ChildOnChain(cs, rank, a, x, k);
    }
    if last {
      assert ChildOnChain(cs, rank, a, x, k);
    }
  }

  /** Appending a tree to a list adds its occurrences to the list's. */
  lemma CountAppend(nodes: map<int, Node>, ids: seq<int>, y: int, fuel: nat, x: int)
    requires Closed(nodes) && (forall k :: 0 <= k < |ids| ==> ids[k] in nodes) && y in nodes
    ensures multiset(FlattenAll(ExpandAll(nodes, ids + [y], fuel)))[x] ==
      multiset(FlattenAll(ExpandAll(nodes, ids, fuel)))[x] + multiset(Flatten(Expand(nodes, y, fuel)))[x]
  {
    ExpandAllAppend(nodes, ids, y, fuel);
    FlattenAllAppend(ExpandAll(nodes, ids, fuel), Expand(nodes, y, fuel));
  }

  lemma ChildrenPrefixStep(cs: seq<Category>, a: int, k: nat)
    requires 0 < k <= |cs|
    ensures ChildrenOf(cs[..k], a) ==
      ChildrenOf(cs[..k - 1], a) + (if NamesParent(cs[k - 1], a) then [cs[k - 1].id] else [])
  {
    assert cs[..k][..k - 1] == cs[..k - 1];
  }

  /** The subtrees of the children of `a` among `cs[..k]` together list each
      id whose chain passes through one of those children, once. */
  lemma {:induction false} ChildrenSubtreesCount(cs: seq<Category>, rank: map<int, nat>, a: int, fuel: nat, x: int, k: nat)
    requires UniqueIds(cs) && Acyclic(cs, rank)
    requires a in Ids(cs) && FuelCovers(rank, a, fuel + 1) && k <= |cs|
    ensures Closed(NodesOf(cs))
    ensures forall m :: 0 <= m < |ChildrenOf(cs[..k], a)| ==> ChildrenOf(cs[..k], a)[m] in NodesOf(cs)
    ensures multiset(FlattenAll(ExpandAll(NodesOf(cs), ChildrenOf(cs[..k], a), fuel)))[x] ==
      if ChildOnChain(cs, rank, a, x, k) then 1 else 0
    decreases fuel, 1, k
  {
    NodesOfClosed(cs);
    PrefixChildIdsAreIds(cs, a, k);
    var nodes := NodesOf(cs);
    if k > 0 {
      ChildrenSubtreesCount(cs, rank, a, fuel, x, k - 1);
      PrefixChildIdsAreIds(cs, a, k - 1);
      ChildrenPrefixStep(cs, a, k);
      ChildOnChainStep(cs, rank, a, x, k);
      var c := cs[k - 1];
      var earlier := ChildrenOf(cs[..k - 1], a);
      if NamesParent(c, a) {
        RecordOfIndex(cs, k - 1);
        assert ChildrenOf(cs[..k], a) == earlier + [c.id];
        CountAppend(nodes, earlier, c.id, fuel, x);
        assert rank[a] < rank[c.id];
        SubtreeCount(cs, rank, c.id, fuel, x);
      } else {
        assert ChildrenOf(cs[..k], a) == earlier;
      }
    } else {
      assert cs[..k] == [];
      assert !ChildOnChain(cs, rank, a, x, 0);
    }
  }

  lemma PrefixChildIdsAreIds(cs: seq<Category>, a: int, k: nat)
    requires k <= |cs|
    ensures forall m :: 0 <= m < |ChildrenOf(cs[..k], a)| ==> ChildrenOf(cs[..k], a)[m] in NodesOf(cs)
  {
    forall m | 0 <= m < |ChildrenOf(cs[..k], a)| ensures ChildrenOf(cs[..k], a)[m] in NodesOf(cs) {
      ChildIdsAreIds(cs[..k], a, m);
      var y := ChildrenOf(cs[..k], a)[m];
      var i :| 0 <= i < k && cs[..k][i].id == y;
      assert cs[i].id == y;
    }
  }

  /** Some root among `cs[..k]` lies on the chain of `x`. */
  ghost predicate RootAbove(cs: seq<Category>, rank: map<int, nat>, x: int, k: nat)
    requires UniqueIds(cs) && Acyclic(cs, rank) && k <= |cs|
  {
    exists j :: 0 <= j < k && IsRoot(cs[j]) && Anc(cs, rank, x, cs[j].id)
  }

  lemma RootAboveStep(cs: seq<Category>, rank: map<int, nat>, x: int, k: nat)
    requires UniqueIds(cs) && Acyclic(cs, rank) && 0 < k <= |cs|
    ensures RootAbove(cs, rank, x, k) <==>
      RootAbove(cs, rank, x, k - 1) || (IsRoot(cs[k - 1]) && Anc(cs, rank, x, cs[k - 1].id))
    ensures RootAbove(cs, rank, x, k - 1) && IsRoot(cs[k - 1]) ==> !Anc(cs, rank, x, cs[k - 1].id)
  {
    if RootAbove(cs, rank, x, k - 1) && IsRoot(cs[k - 1]) && Anc(cs, rank, x, cs[k - 1].id) {
      var j :| 0 <= j < k - 1 && IsRoot(cs[j]) && Anc(cs, rank, x, cs[j].id);
      RootOnChainUnique(cs, rank, x, j, k - 1);
    }
    if RootAbove(cs, rank, x, k) {
      var j :| 0 <= j < k && IsRoot(cs[j]) && Anc(cs, rank, x, cs[j].id);
      if j < k - 1 {
        assert RootAbove(cs, rank, x, k - 1);
      }
    }
  }

  /** The trees of the roots among `cs[..k]` together list each id whose
      chain ends at one of those roots, once. */
  lemma {:induction false} RootTreesCount(cs: seq<Category>, rank: map<int, nat>, fuel: nat, x: int, k: nat)
    requires UniqueIds(cs) && Acyclic(cs, rank)
    requires (forall d :: d in rank ==> rank[d] < fuel) && k <= |cs|
    ensures Closed(NodesOf(cs))
    ensures forall m :: 0 <= m < |Roots(cs[..k])| ==> Roots(cs[..k])[m] in NodesOf(cs)
    ensures multiset(FlattenAll(ExpandAll(NodesOf(cs), Roots(cs[..k]), fuel)))[x] ==
      if RootAbove(cs, rank, x, k) then 1 else 0
    decreases k
  {
    NodesOfClosed(cs);
    var nodes := NodesOf(cs);
    PrefixRootIdsAreIds(cs, k);
    if k > 0 {
      var pre := cs[..k - 1];
      assert cs[..k][..k - 1] == pre;
      RootTreesCount(cs, rank, fuel, x, k - 1);
      PrefixRootIdsAreIds(cs, k - 1);
      RootAboveStep(cs, rank, x, k);
      var c := cs[k - 1];
      if IsRoot(c) {
        RecordOfIndex(cs, k - 1);
        assert Roots(cs[..k]) == Roots(pre) + [c.id];
        ExpandAllAppend(nodes, Roots(pre), c.id, fuel);
        FlattenAllAppend(ExpandAll(nodes, Roots(pre), fuel), Expand(nodes, c.id, fuel));
        SubtreeCount(cs, rank, c.id, fuel, x);
      } else {
        assert Roots(cs[..k]) == Roots(pre);
      }
    } else {
      assert !RootAbove(cs, rank, x, k);
    }
  }

  lemma PrefixRootIdsAreIds(cs: seq<Category>, k: nat)
    requires k <= |cs|
    ensures forall m :: 0 <= m < |Roots(cs[..k])| ==> Roots(cs[..k])[m] in NodesOf(cs)
  {
    forall m | 0 <= m < |Roots(cs[..k])| ensures Roots(cs[..k])[m] in NodesOf(cs) {
      RootIdsAreIds(cs[..k], m);
      var y := Roots(cs[..k])[m];
      var i :| 0 <= i < k && cs[..k][i].id == y;
      assert cs[i].id == y;
    }
  }

  /** The ids of the input, in input order. */
  function IdList(cs: seq<Category>): (ids: seq<int>)
    ensures |ids| == |cs| && forall i :: 0 <= i < |cs| ==> ids[i] == cs[i].id
  {
    if cs == [] then [] else [cs[0].id] + IdList(cs[1..])
  }

  /** The ids of every node of the rendered forest, in pre-order. */
  function ForestIds(cs: seq<Category>): seq<int>
  {
    FlattenAll(Forest(cs))
  }

  // ---------------------------------------------------------------------
  // A depth map below |cs|
  // ---------------------------------------------------------------------

  /** The ids strictly above `x` on its parent chain. */
  ghost function AncestorsOf(cs: seq<Category>, rank: map<int, nat>, x: int): set<int>
    requires UniqueIds(cs) && Acyclic(cs, rank)
  {
    set a | a in Ids(cs) && a != x && Anc(cs, rank, x, a)
  }

  /** The number of ancestors of each id. */
  ghost function Depths(cs: seq<Category>, rank: map<int, nat>): map<int, nat>
    requires UniqueIds(cs) && Acyclic(cs, rank)
  {
    map x | x in Ids(cs) :: |AncestorsOf(cs, rank, x)|
  }

  lemma AncestorsStep(cs: seq<Category>, rank: map<int, nat>, x: int)
    requires UniqueIds(cs) && Acyclic(cs, rank)
    requires x in Ids(cs) && Truthy(RecordOf(cs, x).parentId)
    ensures var p := ParentOf(cs, rank, x);
      AncestorsOf(cs, rank, x) == AncestorsOf(cs, rank, p) + {p} && p !in AncestorsOf(cs, rank, p)
  {
    var p := ParentOf(cs, rank, x);
    forall a | a in AncestorsOf(cs, rank, x) ensures a in AncestorsOf(cs, rank, p) + {p} {
      AncStep(cs, rank, x, a);
    }
    forall a | a in AncestorsOf(cs, rank, p) + {p} ensures a in AncestorsOf(cs, rank, x) {
      if a != p {
        AncRank(cs, rank, p, a);
      }
      assert Anc(cs, rank, p, a);
      assert Anc(cs, rank, x, a);
    }
  }

  /** A set of ids of `cs` that misses one of them has fewer than `|cs|`
      elements. */
  lemma {:induction false} IdsSubsetCard(cs: seq<Category>, s: set<int>, x: int)
    requires x in Ids(cs) && s <= Ids(cs) - {x}
    ensures |s| < |cs|
    decreases |cs|
  {
    var n := |cs| - 1;
    var l := cs[n].id;
    var prefix := cs[..n];
    IdsOfPrefix(cs, n);
    assert cs[..n + 1] == cs;
    if l == x {
      IdsSubsetCardAtMost(prefix, s);
    } else {
      assert s - {l} <= Ids(prefix) - {x};
      IdsSubsetCard(prefix, s - {l}, x);
      assert s <= (s - {l}) + {l};
    }
  }

  lemma {:induction false} IdsSubsetCardAtMost(cs: seq<Category>, s: set<int>)
    requires s <= Ids(cs)
    ensures |s| <= |cs|
    decreases |cs|
  {
    if cs == [] {
      assert s == {};
    } else {
      var n := |cs| - 1;
      var l := cs[n].id;
      IdsOfPrefix(cs, n);
      assert cs[..n + 1] == cs;
      IdsSubsetCardAtMost(cs[..n], s - {l});
      assert s <= (s - {l}) + {l};
    }
  }

  lemma DepthStep(cs: seq<Category>, rank: map<int, nat>, i: nat)
    requires UniqueIds(cs) && Acyclic(cs, rank)
    requires i < |cs| && Truthy(cs[i].parentId)
    ensures ParentKey(cs[i].parentId).Some? && ParentKey(cs[i].parentId).value in Ids(cs)
    ensures var p := ParentKey(cs[i].parentId).value;
      |AncestorsOf(cs, rank, p)| < |AncestorsOf(cs, rank, cs[i].id)|
  {
    RecordOfIndex(cs, i);
    var p := ParentOf(cs, rank, cs[i].id);
    AncestorsStep(cs, rank, cs[i].id);
    assert ParentKey(cs[i].parentId).value == p;
  }

  lemma DepthBound(cs: seq<Category>, rank: map<int, nat>, x: int)
    requires UniqueIds(cs) && Acyclic(cs, rank) && x in Ids(cs)
    ensures |AncestorsOf(cs, rank, x)| < |cs|
  {
    IdsSubsetCard(cs, AncestorsOf(cs, rank, x), x);
  }

  /** Acyclic parent links always have a depth map whose depths stay below
      the number of records. */
  lemma DepthWitness(cs: seq<Category>, rank: map<int, nat>)
    requires UniqueIds(cs) && Acyclic(cs, rank)
    ensures Acyclic(cs, Depths(cs, rank))
    ensures forall d :: d in Depths(cs, rank) ==> Depths(cs, rank)[d] < |cs|
  {
    var depths := Depths(cs, rank);
    forall i | 0 <= i < |cs| && Truthy(cs[i].parentId)
      ensures ParentKey(cs[i].parentId).Some? && ParentKey(cs[i].parentId).value in depths
      ensures depths[ParentKey(cs[i].parentId).value] < depths[cs[i].id]
    {
      DepthStep(cs, rank, i);
      assert cs[i].id in Ids(cs);
    }
    forall d | d in depths ensures depths[d] < |cs| {
      DepthBound(cs, rank, d);
    }
  }

  /** With unique ids and acyclic parent links, the rendered forest holds
      every input record exactly once and nothing else: its node ids are a
      permutation of the input ids, so it has exactly `|cs|` nodes. */
  lemma ForestHoldsEveryRecordOnce(cs: seq<Category>, rank: map<int, nat>)
    requires UniqueIds(cs) && Acyclic(cs, rank)
    ensures multiset(ForestIds(cs)) == multiset(IdList(cs))
    ensures |ForestIds(cs)| == |cs|
  {
    DepthWitness(cs, rank);
    var depths := Depths(cs, rank);
    assert cs[..|cs|] == cs;
    forall x ensures multiset(ForestIds(cs))[x] == multiset(IdList(cs))[x] {
      RootTreesCount(cs, depths, |cs|, x, |cs|);
      IdListCount(cs, x);
      if x in Ids(cs) {
        HasRootAbove(cs, depths, x);
      }
    }
    assert multiset(ForestIds(cs)) == multiset(IdList(cs));
    assert |multiset(ForestIds(cs))| == |ForestIds(cs)|;
  }

  lemma {:induction false} IdListCount(cs: seq<Category>, x: int)
    requires UniqueIds(cs)
    ensures multiset(IdList(cs))[x] == if x in Ids(cs) then 1 else 0
    decreases |cs|
  {
    if cs != [] {
      var tail := cs[1..];
      IdListCount(tail, x);
      assert IdList(cs) == [cs[0].id] + IdList(tail);
      if x in Ids(tail) {
        var i :| 0 <= i < |tail| && tail[i].id == x;
        assert cs[i + 1].id == x;
      }
      if x in Ids(cs) && x != cs[0].id {
        var i :| 0 <= i < |cs| && cs[i].id == x;
        assert tail[i - 1].id == x;
      }
    }
  }
}
