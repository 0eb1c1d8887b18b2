/** The screen table of the recognizer and the parent/child structure over
    it (src/vision/screen_recognition.rs): id lookup, the root-first parent
    chain of `get_parent_chain`, and the tree of `build_hierarchy` /
    `build_node`.

    The recognizer keeps its screens in a hash map keyed by id. The model
    keeps them in a sequence with pairwise distinct ids and takes the
    sequence order as the map's iteration order. */
module Hierarchy {
  import opened Wrappers
  import opened Profiles
  import opened Sorting

  predicate UniqueIds(screens: seq<ScreenDefinition>)
  {
    forall i, j :: 0 <= i < j < |screens| ==> screens[i].id != screens[j].id
  }

  /** `HashMap::get` by id. */
  function Lookup(screens: seq<ScreenDefinition>, id: string): (r: Option<ScreenDefinition>)
    ensures r.Some? ==> r.value in screens && r.value.id == id
    ensures r.None? <==> forall i :: 0 <= i < |screens| ==> screens[i].id != id
  {
    if |screens| == 0 then None
    else if screens[0].id == id then Some(screens[0])
    else
      var r := Lookup(screens[1..], id);
      assert r.None? ==> forall i :: 1 <= i < |screens| ==> screens[i].id != id by {
        if r.None? {
          forall i | 1 <= i < |screens| ensures screens[i].id != id {
            assert screens[1..][i - 1] == screens[i];
          }
        }
      }
      r
  }

  /** With distinct ids, looking up a stored screen's id finds that screen. */
  lemma LookupStored(screens: seq<ScreenDefinition>, s: ScreenDefinition)
    requires UniqueIds(screens) && s in screens
    ensures Lookup(screens, s.id) == Some(s)
  {
    var r := Lookup(screens, s.id);
    var i :| 0 <= i < |screens| && screens[i] == s;
    var j :| 0 <= j < |screens| && screens[j] == r.value;
  }

  function ScreenPriority(s: ScreenDefinition): int { s.priority }

  // ---------------------------------------------------------------------
  // Parent chain
  // ---------------------------------------------------------------------

  /** `child` is a stored screen whose parent id is `parent`. */
  predicate ParentOf(screens: seq<ScreenDefinition>, child: string, parent: string)
  {
    Lookup(screens, child).Some? && Lookup(screens, child).value.parentId == Some(parent)
  }

  /** The walk up from `id` stops here: no screen has this id, or the
      screen has no parent. */
  predicate IsTop(screens: seq<ScreenDefinition>, id: string)
  {
    Lookup(screens, id).None? || Lookup(screens, id).value.parentId.None?
  }

  /** The loop of `get_parent_chain` started at `id` stops after at most
      `d` parent steps. On a cycle of parent ids the loop runs forever, so
      no such `d` exists. */
  ghost predicate WalkEndsWithin(screens: seq<ScreenDefinition>, id: string, d: nat)
    decreases d
  {
    IsTop(screens, id) || (d > 0 && WalkEndsWithin(screens, Lookup(screens, id).value.parentId.value, d - 1))
  }

  ghost predicate WalkEnds(screens: seq<ScreenDefinition>, id: string)
  {
    exists d: nat :: WalkEndsWithin(screens, id, d)
  }

  lemma {:induction false} WalkEndsMonotone(screens: seq<ScreenDefinition>, id: string, d: nat, e: nat)
    requires d <= e && WalkEndsWithin(screens, id, d)
    ensures WalkEndsWithin(screens, id, e)
    decreases d
  {
    if !IsTop(screens, id) {
      WalkEndsMonotone(screens, Lookup(screens, id).value.parentId.value, d - 1, e - 1);
    }
  }

  /** `get_parent_chain`: the ancestors of `id`, root first, ending with the
      immediate parent. `d` bounds the number of loop iterations and does
      not influence the result. */
  function ParentChain(screens: seq<ScreenDefinition>, id: string, ghost d: nat): (chain: seq<string>)
    requires WalkEndsWithin(screens, id, d)
    ensures chain == [] <==> IsTop(screens, id)
    ensures chain != [] ==> ParentOf(screens, id, chain[|chain| - 1])
    ensures chain != [] ==> IsTop(screens, chain[0])
    ensures forall i :: 0 <= i < |chain| - 1 ==> ParentOf(screens, chain[i + 1], chain[i])
    ensures |chain| <= d
    decreases d
  {
    match Lookup(screens, id)
    case None => []
    case Some(s) =>
      match s.parentId
      case None => []
      case Some(p) => ParentChain(screens, p, d - 1) + [p]
  }

  /** Any two termination bounds give the same chain. */
  lemma {:induction false} ParentChainBoundIrrelevant(screens: seq<ScreenDefinition>, id: string, d: nat, e: nat)
    requires WalkEndsWithin(screens, id, d) && WalkEndsWithin(screens, id, e)
    ensures ParentChain(screens, id, d) == ParentChain(screens, id, e)
    decreases d
  {
    if !IsTop(screens, id) {
      ParentChainBoundIrrelevant(screens, Lookup(screens, id).value.parentId.value, d - 1, e - 1);
    }
  }

  /** Every ancestor has a strictly shorter chain of its own. */
  lemma {:induction false} AncestorChainShorter(screens: seq<ScreenDefinition>, x: string, id: string, d: nat)
    requires WalkEndsWithin(screens, id, d)
    requires x in ParentChain(screens, id, d)
    ensures d > 0 && WalkEndsWithin(screens, x, d - 1)
    ensures |ParentChain(screens, x, d - 1)| < |ParentChain(screens, id, d)|
    decreases d
  {
    var p := Lookup(screens, id).value.parentId.value;
    var rest := ParentChain(screens, p, d - 1);
    if x != p {
      assert x in rest;
      AncestorChainShorter(screens, x, p, d - 1);
      WalkEndsMonotone(screens, x, d - 2, d - 1);
      ParentChainBoundIrrelevant(screens, x, d - 2, d - 1);
    }
  }

  /** The chain never contains the screen itself, and lists each ancestor
      once. */
  lemma {:induction false} ParentChainDistinct(screens: seq<ScreenDefinition>, id: string, d: nat)
    requires WalkEndsWithin(screens, id, d)
    ensures id !in ParentChain(screens, id, d)
    ensures forall i, j :: 0 <= i < j < |ParentChain(screens, id, d)| ==>
              ParentChain(screens, id, d)[i] != ParentChain(screens, id, d)[j]
    decreases d
  {
    if id in ParentChain(screens, id, d) {
      AncestorChainShorter(screens, id, id, d);
      WalkEndsMonotone(screens, id, d - 1, d);
      ParentChainBoundIrrelevant(screens, id, d - 1, d);
    }
    if !IsTop(screens, id) {
      var p := Lookup(screens, id).value.parentId.value;
      ParentChainDistinct(screens, p, d - 1);
    }
  }

  /** A root screen has an empty chain; a child of a root has exactly that
      root as its chain. */
  lemma ParentChainOfRootAndChild(screens: seq<ScreenDefinition>, root: ScreenDefinition, child: ScreenDefinition)
    requires UniqueIds(screens) && root in screens && child in screens
    requires root.parentId.None? && child.parentId == Some(root.id)
    ensures WalkEndsWithin(screens, root.id, 0) && ParentChain(screens, root.id, 0) == []
    ensures WalkEndsWithin(screens, child.id, 1) && ParentChain(screens, child.id, 1) == [root.id]
  {
    LookupStored(screens, root);
    LookupStored(screens, child);
  }

  // ---------------------------------------------------------------------
  // Hierarchy tree
  // ---------------------------------------------------------------------

  datatype ScreenNode = ScreenNode(screen: ScreenDefinition, children: seq<ScreenNode>, depth: nat)

  function NodePriority(n: ScreenNode): int { n.screen.priority }

  /** The screens naming `id` as parent, in table order. */
  function ChildrenOf(screens: seq<ScreenDefinition>, id: string): (r: seq<ScreenDefinition>)
    ensures |r| <= |screens|
    ensures forall c :: c in r <==> c in screens && c.parentId == Some(id)
  {
    if |screens| == 0 then []
    else (if screens[0].parentId == Some(id) then [screens[0]] else []) + ChildrenOf(screens[1..], id)
  }

  /** The screens without a parent, in table order. */
  function RootsOf(screens: seq<ScreenDefinition>): (r: seq<ScreenDefinition>)
    ensures |r| <= |screens|
    ensures forall c :: c in r <==> c in screens && c.parentId.None?
  {
    if |screens| == 0 then []
    else (if screens[0].parentId.None? then [screens[0]] else []) + RootsOf(screens[1..])
  }

  /** Drops the candidates already on the path from the root. Under
      distinct ids this removes nothing (`DropVisitedIsNoop`); it only
      makes termination evident. */
  function DropVisited(cands: seq<ScreenDefinition>, path: seq<string>): (r: seq<ScreenDefinition>)
    ensures forall c :: c in r <==> c in cands && c.id !in path
  {
    if |cands| == 0 then []
    else (if cands[0].id !in path then [cands[0]] else []) + DropVisited(cands[1..], path)
  }

  lemma {:induction false} DropVisitedIsNoop(cands: seq<ScreenDefinition>, path: seq<string>)
    requires forall c :: c in cands ==> c.id !in path
    ensures DropVisited(cands, path) == cands
    decreases |cands|
  {
    if |cands| > 0 {
      assert forall c :: c in cands[1..] ==> c in cands;
      DropVisitedIsNoop(cands[1..], path);
      assert cands == [cands[0]] + cands[1..];
    }
  }

  ghost function Unvisited(screens: seq<ScreenDefinition>, path: seq<string>): set<string>
  {
    set s | s in screens && s.id !in path :: s.id
  }

  lemma UnvisitedShrinks(screens: seq<ScreenDefinition>, path: seq<string>, s: ScreenDefinition)
    requires s in screens && s.id !in path
    ensures Unvisited(screens, path + [s.id]) < Unvisited(screens, path)
  {
    assert s.id in Unvisited(screens, path);
    assert s.id !in Unvisited(screens, path + [s.id]);
  }

  /** `build_node`: the node of `s` at `depth`, with the nodes of its
      children sorted by descending priority (stable). */
  function BuildNode(screens: seq<ScreenDefinition>, s: ScreenDefinition, depth: nat, path: seq<string>): (n: ScreenNode)
    requires s in screens && s.id !in path
    ensures n.screen == s && n.depth == depth
    ensures SortedDesc(n.children, NodePriority)
    decreases Unvisited(screens, path), 0, 0
  {
    var path' := path + [s.id];
    UnvisitedShrinks(screens, path, s);
    var kids := BuildChildren(screens, DropVisited(ChildrenOf(screens, s.id), path'), depth + 1, path');
    ScreenNode(s, SortDesc(kids, NodePriority), depth)
  }

  function BuildChildren(screens: seq<ScreenDefinition>, cands: seq<ScreenDefinition>, depth: nat, path: seq<string>): (r: seq<ScreenNode>)
    requires forall c :: c in cands ==> c in screens && c.id !in path
    ensures |r| == |cands|
    ensures forall i :: 0 <= i < |r| ==> r[i].screen == cands[i] && r[i].depth == depth
    decreases Unvisited(screens, path), 1, |cands|
  {
    if |cands| == 0 then []
    else
      assert cands[0] in cands;
      assert forall c :: c in cands[1..] ==> c in cands;
      var node := BuildNode(screens, cands[0], depth, path);
      var rest := BuildChildren(screens, cands[1..], depth, path);
      ConsNodes(node, rest, cands, depth);
      [node] + rest
  }

  /** The node of the first candidate in front of the nodes of the others
      lines up with the candidates. */
  lemma ConsNodes(node: ScreenNode, rest: seq<ScreenNode>, cands: seq<ScreenDefinition>, depth: nat)
    requires |cands| > 0 && node.screen == cands[0] && node.depth == depth
    requires |rest| == |cands| - 1
    requires forall i :: 0 <= i < |rest| ==> rest[i].screen == cands[1..][i] && rest[i].depth == depth
    ensures |[node] + rest| == |cands|
    ensures forall i :: 0 <= i < |cands| ==> ([node] + rest)[i].screen == cands[i] && ([node] + rest)[i].depth == depth
  {
    var r := [node] + rest;
    forall i | 0 <= i < |cands| ensures r[i].screen == cands[i] && r[i].depth == depth {
      if i > 0 {
        assert r[i] == rest[i - 1] && cands[i] == cands[1..][i - 1];
      }
    }
  }

  /** `build_hierarchy`: one depth-0 node per parentless screen, sorted by
      descending priority. */
  function BuildHierarchy(screens: seq<ScreenDefinition>): (roots: seq<ScreenNode>)
    ensures SortedDesc(roots, NodePriority)
    ensures |roots| == |RootsOf(screens)|
    ensures forall k :: 0 <= k < |roots| ==> roots[k].depth == 0 && roots[k].screen in RootsOf(screens)
    ensures forall s :: s in screens && s.parentId.None? ==>
              exists k :: 0 <= k < |roots| && roots[k].screen == s
  {
    var nodes := BuildChildren(screens, RootsOf(screens), 0, []);
    var roots := SortDesc(nodes, NodePriority);
    forall k | 0 <= k < |roots|
      ensures roots[k].depth == 0 && roots[k].screen in RootsOf(screens)
    {
      assert roots[k] in multiset(nodes);
    }
    forall s | s in screens && s.parentId.None?
      ensures exists k :: 0 <= k < |roots| && roots[k].screen == s
    {
      var i :| 0 <= i < |RootsOf(screens)| && RootsOf(screens)[i] == s;
      assert nodes[i] in multiset(roots);
    }
    roots
  }

  /** A root-first path of ids: the first is a stored root screen, each
      next one is a stored child of the previous, and no id repeats. */
  predicate AncestryPath(screens: seq<ScreenDefinition>, path: seq<string>)
  {
    && |path| >= 1
    && Lookup(screens, path[0]).Some? && Lookup(screens, path[0]).value.parentId.None?
    && (forall i :: 0 <= i < |path| - 1 ==> ParentOf(screens, path[i + 1], path[i]))
    && (forall i, j :: 0 <= i < j < |path| ==> path[i] != path[j])
  }

  /** A child of the last screen on an ancestry path is not already on it,
      so the path extends by the child. This is why the source's recursion
      ends although it keeps no visited set. */
  lemma ChildExtendsPath(screens: seq<ScreenDefinition>, path: seq<string>, c: ScreenDefinition)
    requires UniqueIds(screens) && AncestryPath(screens, path)
    requires c in screens && c.parentId == Some(path[|path| - 1])
    ensures c.id !in path
    ensures AncestryPath(screens, path + [c.id])
  {
    LookupStored(screens, c);
    forall k | 0 <= k < |path| ensures path[k] != c.id {
      if k > 0 {
        assert ParentOf(screens, path[k], path[k - 1]);
      }
    }
    var p' := path + [c.id];
    forall i | 0 <= i < |p'| - 1 ensures ParentOf(screens, p'[i + 1], p'[i]) {
      if i < |path| - 1 {
        assert p'[i + 1] == path[i + 1] && p'[i] == path[i];
      }
    }
  }

  /** The shape `build_hierarchy` promises for every node: children are
      exactly the stored screens naming the node as parent, sit one level
      deeper, are in non-increasing priority, and are well formed in turn. */
  ghost predicate WellFormedNode(screens: seq<ScreenDefinition>, n: ScreenNode)
    decreases n
  {
    && SortedDesc(n.children, NodePriority)
    && |n.children| == |ChildrenOf(screens, n.screen.id)|
    && (forall c :: c in screens && c.parentId == Some(n.screen.id) ==>
          exists k :: 0 <= k < |n.children| && n.children[k].screen == c)
    && (forall k :: 0 <= k < |n.children| ==>
          && n.children[k].screen in screens
          && n.children[k].screen.parentId == Some(n.screen.id)
          && n.children[k].depth == n.depth + 1
          && WellFormedNode(screens, n.children[k]))
  }

  lemma {:induction false} BuildNodeWellFormed(screens: seq<ScreenDefinition>, s: ScreenDefinition, depth: nat, path: seq<string>)
    requires UniqueIds(screens) && s in screens && s.id !in path
    requires AncestryPath(screens, path + [s.id])
    ensures WellFormedNode(screens, BuildNode(screens, s, depth, path))
    decreases Unvisited(screens, path), 0, 0
  {
    var path' := path + [s.id];
    UnvisitedShrinks(screens, path, s);
    var cands := ChildrenOf(screens, s.id);
    ChildrenOnPath(screens, path', cands);
    BuildChildrenWellFormed(screens, cands, depth + 1, path');
    NodeOfWellFormedKids(screens, s, depth, path, cands, BuildChildren(screens, cands, depth + 1, path'));
  }

  /** A node whose child nodes are well formed is well formed. */
  lemma NodeOfWellFormedKids(screens: seq<ScreenDefinition>, s: ScreenDefinition, depth: nat, path: seq<string>,
                             cands: seq<ScreenDefinition>, kids: seq<ScreenNode>)
    requires s in screens && s.id !in path && cands == ChildrenOf(screens, s.id)
    requires forall c :: c in cands ==> c.id !in path + [s.id]
    requires kids == BuildChildren(screens, cands, depth + 1, path + [s.id])
    requires forall i :: 0 <= i < |kids| ==> WellFormedNode(screens, kids[i])
    ensures WellFormedNode(screens, BuildNode(screens, s, depth, path))
  {
    BuildNodeShape(screens, s, depth, path);
    SortedKidsWellFormed(screens, BuildNode(screens, s, depth, path), cands, kids);
  }

  /** Every child of the last screen on an ancestry path extends it. */
  lemma ChildrenOnPath(screens: seq<ScreenDefinition>, path: seq<string>, cands: seq<ScreenDefinition>)
    requires UniqueIds(screens) && AncestryPath(screens, path)
    requires cands == ChildrenOf(screens, path[|path| - 1])
    ensures forall c :: c in cands ==> c in screens && c.id !in path && AncestryPath(screens, path + [c.id])
  {
    forall c | c in cands ensures c.id !in path && AncestryPath(screens, path + [c.id]) {
      ChildExtendsPath(screens, path, c);
    }
  }

  /** When no child is on the path, the node holds the sorted nodes of all
      its children. */
  lemma BuildNodeShape(screens: seq<ScreenDefinition>, s: ScreenDefinition, depth: nat, path: seq<string>)
    requires s in screens && s.id !in path
    requires forall c :: c in ChildrenOf(screens, s.id) ==> c.id !in path + [s.id]
    ensures BuildNode(screens, s, depth, path) ==
            ScreenNode(s, SortDesc(BuildChildren(screens, ChildrenOf(screens, s.id), depth + 1, path + [s.id]), NodePriority), depth)
  {
    DropVisitedIsNoop(ChildrenOf(screens, s.id), path + [s.id]);
  }

  /** Sorting the child nodes keeps the shape: the sorted sequence holds
      the same nodes. */
  lemma SortedKidsWellFormed(screens: seq<ScreenDefinition>, n: ScreenNode, cands: seq<ScreenDefinition>, kids: seq<ScreenNode>)
    requires cands == ChildrenOf(screens, n.screen.id)
    requires |kids| == |cands|
    requires forall i :: 0 <= i < |kids| ==>
               kids[i].screen == cands[i] && kids[i].depth == n.depth + 1 && WellFormedNode(screens, kids[i])
    requires multiset(n.children) == multiset(kids) && SortedDesc(n.children, NodePriority)
    ensures WellFormedNode(screens, n)
  {
    var s, depth, sorted := n.screen, n.depth, n.children;
    assert |sorted| == |kids| by {
      assert |multiset(sorted)| == |multiset(kids)|;
    }
    forall k | 0 <= k < |sorted|
      ensures sorted[k].screen in screens && sorted[k].screen.parentId == Some(s.id)
      ensures sorted[k].depth == depth + 1 && WellFormedNode(screens, sorted[k])
    {
      var i := IndexOf(kids, sorted, k);
      assert cands[i] in cands;
    }
    forall c | c in screens && c.parentId == Some(s.id)
      ensures exists k :: 0 <= k < |sorted| && sorted[k].screen == c
    {
      var i := ChildIndex(screens, s.id, c);
      var k := IndexOf(sorted, kids, i);
    }
  }

  /** Where a child sits in the list of children. */
  lemma ChildIndex(screens: seq<ScreenDefinition>, id: string, c: ScreenDefinition) returns (i: nat)
    requires c in screens && c.parentId == Some(id)
    ensures i < |ChildrenOf(screens, id)| && ChildrenOf(screens, id)[i] == c
  {
    var cands := ChildrenOf(screens, id);
    assert c in cands;
    i :| 0 <= i < |cands| && cands[i] == c;
  }

  lemma {:induction false} BuildChildrenWellFormed(screens: seq<ScreenDefinition>, cands: seq<ScreenDefinition>, depth: nat, path: seq<string>)
    requires UniqueIds(screens)
    requires forall c :: c in cands ==> c in screens && c.id !in path && AncestryPath(screens, path + [c.id])
    ensures forall i :: 0 <= i < |cands| ==> WellFormedNode(screens, BuildChildren(screens, cands, depth, path)[i])
    decreases Unvisited(screens, path), 1, |cands|
  {
    if |cands| > 0 {
      assert cands[0] in cands;
      assert forall c :: c in cands[1..] ==> c in cands;
      BuildNodeWellFormed(screens, cands[0], depth, path);
      BuildChildrenWellFormed(screens, cands[1..], depth, path);
      BuildChildrenCons(screens, cands, depth, path);
      var r := BuildChildren(screens, cands, depth, path);
      var rest := BuildChildren(screens, cands[1..], depth, path);
      forall i | 0 <= i < |cands| ensures WellFormedNode(screens, r[i]) {
        if i > 0 {
          assert r[i] == rest[i - 1];
        }
      }
    }
  }

  /** The nodes of a candidate list are the first candidate's node in front
      of the others' nodes. */
  lemma BuildChildrenCons(screens: seq<ScreenDefinition>, cands: seq<ScreenDefinition>, depth: nat, path: seq<string>)
    requires |cands| > 0
    requires forall c :: c in cands ==> c in screens && c.id !in path
    ensures cands[0] in screens && cands[0].id !in path
    ensures forall c :: c in cands[1..] ==> c in screens && c.id !in path
    ensures BuildChildren(screens, cands, depth, path)
         == [BuildNode(screens, cands[0], depth, path)] + BuildChildren(screens, cands[1..], depth, path)
  {
    assert cands[0] in cands;
    assert forall c :: c in cands[1..] ==> c in cands;
  }

  /** With distinct ids every root of the hierarchy is well formed: the
      whole tree has the promised shape. */
  lemma HierarchyWellFormed(screens: seq<ScreenDefinition>)
    requires UniqueIds(screens)
    ensures forall k :: 0 <= k < |BuildHierarchy(screens)| ==> WellFormedNode(screens, BuildHierarchy(screens)[k])
  {
    var roots := RootsOf(screens);
    forall c | c in roots ensures AncestryPath(screens, [] + [c.id]) {
      LookupStored(screens, c);
    }
    BuildChildrenWellFormed(screens, roots, 0, []);
    var nodes := BuildChildren(screens, roots, 0, []);
    var h := BuildHierarchy(screens);
    forall k | 0 <= k < |h| ensures WellFormedNode(screens, h[k]) {
      assert h[k] in multiset(nodes);
    }
  }
}
