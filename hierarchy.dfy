/** The hierarchy builder: grouping (child, parent) pairs by parent
    (build_children_map), the breadth-first tree under a root class
    (build_tree) and its size (count_nodes). */
module Hierarchy {
  import opened Text
  import opened Declarations

  // ---------------------------------------------------------------------
  // build_children_map

  /** parent name -> child names, as build_children_map returns it. */
  type ChildrenMap = map<string, seq<string>>

  /** children_map.get(name, []). */
  function Lookup(cm: ChildrenMap, name: string): (r: seq<string>)
    ensures name !in cm ==> r == []
  {
    if name in cm then cm[name] else []
  }

  /** The children the pairs give parent, in input order, repeats kept. */
  function ChildrenOf(pairs: seq<Pair>, parent: string): (r: seq<string>)
    ensures |r| <= |pairs|
  {
    if pairs == [] then []
    else
      var last := pairs[|pairs| - 1];
      ChildrenOf(pairs[..|pairs| - 1], parent) + (if last.parent == parent then [last.child] else [])
  }

  /** The names that occur as a parent in the pairs. */
  function Parents(pairs: seq<Pair>): set<string> {
    set i | 0 <= i < |pairs| :: pairs[i].parent
  }

  /** build_children_map: one pass over the pairs, appending each child to
      its parent's list, the list being created on the parent's first
      appearance. */
  method BuildChildrenMap(pairs: seq<Pair>) returns (cm: ChildrenMap)
    ensures cm.Keys == Parents(pairs)
    ensures forall p :: p in cm ==> cm[p] == ChildrenOf(pairs, p)
  {
    cm := map[];
    for i := 0 to |pairs|
      invariant cm.Keys == Parents(pairs[..i])
      invariant forall p :: p in cm ==> cm[p] == ChildrenOf(pairs[..i], p)
    {
      var child, parent := pairs[i].child, pairs[i].parent;
      assert pairs[..i + 1][..i] == pairs[..i];
      ParentsSnoc(pairs, i);
      ChildrenOfSnoc(pairs, i, cm.Keys);
      if parent in cm {
        cm := cm[parent := cm[parent] + [child]];
      } else {
        cm := cm[parent := [child]];
      }
    }
    assert pairs[..|pairs|] == pairs;
  }

  lemma ParentsSnoc(pairs: seq<Pair>, i: nat)
    requires i < |pairs|
    ensures Parents(pairs[..i + 1]) == Parents(pairs[..i]) + {pairs[i].parent}
  {
    var a, b := pairs[..i], pairs[..i + 1];
    forall x | x in Parents(b) ensures x in Parents(a) + {pairs[i].parent} {
      var k :| 0 <= k < |b| && b[k].parent == x;
      if k < i {
        assert a[k] == b[k];
      }
    }
    forall x | x in Parents(a) ensures x in Parents(b) {
      var k :| 0 <= k < |a| && a[k].parent == x;
      assert b[k] == a[k];
    }
    assert b[i] == pairs[i];
  }

  lemma ChildrenOfSnoc(pairs: seq<Pair>, i: nat, seen: set<string>)
    requires i < |pairs| && seen == Parents(pairs[..i])
    ensures forall p :: p != pairs[i].parent ==> ChildrenOf(pairs[..i + 1], p) == ChildrenOf(pairs[..i], p)
    ensures ChildrenOf(pairs[..i + 1], pairs[i].parent) == ChildrenOf(pairs[..i], pairs[i].parent) + [pairs[i].child]
    ensures pairs[i].parent !in seen ==> ChildrenOf(pairs[..i], pairs[i].parent) == []
  {
    assert pairs[..i + 1][..i] == pairs[..i];
    if pairs[i].parent !in seen {
      ChildrenOfAbsent(pairs[..i], pairs[i].parent);
    }
  }

  /** A name that is nobody's parent has no children. */
  lemma {:induction false} ChildrenOfAbsent(pairs: seq<Pair>, p: string)
    requires p !in Parents(pairs)
    ensures ChildrenOf(pairs, p) == []
  {
    if pairs != [] {
      var init := pairs[..|pairs| - 1];
      assert pairs[|pairs| - 1].parent in Parents(pairs);
      forall x | x in Parents(init) ensures x in Parents(pairs) {
        var k :| 0 <= k < |init| && init[k].parent == x;
        assert pairs[k] == init[k];
      }
      ChildrenOfAbsent(init, p);
    }
  }

  /** Nothing is deduplicated: c is listed under p once for every pair
      (c, p) in the input. */
  lemma {:induction false} ChildrenOfCounts(pairs: seq<Pair>, p: string, c: string)
    ensures multiset(ChildrenOf(pairs, p))[c] == multiset(pairs)[Pair(c, p)]
  {
    if pairs != [] {
      var init, last := pairs[..|pairs| - 1], pairs[|pairs| - 1];
      ChildrenOfCounts(init, p, c);
      assert pairs == init + [last];
    }
  }

  /** The children map answers every lookup with the pairs' children of
      that name, missing names included. */
  lemma LookupChildren(pairs: seq<Pair>, cm: ChildrenMap, p: string)
    requires cm.Keys == Parents(pairs)
    requires forall q :: q in cm ==> cm[q] == ChildrenOf(pairs, q)
    ensures Lookup(cm, p) == ChildrenOf(pairs, p)
  {
    if p !in cm {
      ChildrenOfAbsent(pairs, p);
    }
  }

  // ---------------------------------------------------------------------
  // TreeNode and count_nodes

  /** A node of the built tree. */
  datatype TreeNode = Node(name: string, children: seq<TreeNode>)

  /** The names of a tree in preorder. */
  function Names(t: TreeNode): (r: seq<string>)
    ensures r != [] && r[0] == t.name
    decreases t, 1
  {
    [t.name] + NamesAll(t.children)
  }

  /** The names of a list of trees, tree after tree. */
  function NamesAll(ts: seq<TreeNode>): seq<string>
    decreases ts, 0
  {
    if ts == [] then [] else NamesAll(ts[..|ts| - 1]) + Names(ts[|ts| - 1])
  }

  /** count_nodes: one for the node plus the count of each child's
      subtree; the result is the number of names in the tree, so at least
      one. */
  method CountNodes(node: TreeNode) returns (total: nat)
    ensures total == |Names(node)| && total >= 1
    decreases node
  {
    total := 1;
    for i := 0 to |node.children|
      invariant total == 1 + |NamesAll(node.children[..i])|
    {
      var c := node.children[i];
      assert node.children[..i + 1][..i] == node.children[..i];
      var n := CountNodes(c);
      total := total + n;
    }
    assert node.children[..|node.children|] == node.children;
  }

  /** No name occurs twice. */
  predicate Distinct(s: seq<string>) {
    forall i, j :: 0 <= i < j < |s| ==> s[i] != s[j]
  }

  /** The names of a node's children, in order. */
  function ChildNames(t: TreeNode): (r: seq<string>)
    ensures |r| == |t.children|
    ensures forall i :: 0 <= i < |r| ==> r[i] == t.children[i].name
  {
    seq(|t.children|, i requires 0 <= i < |t.children| => t.children[i].name)
  }

  /** Every tree edge is an edge of the children map. */
  predicate EdgesIn(cm: ChildrenMap, t: TreeNode) {
    forall i :: 0 <= i < |t.children| ==>
      t.children[i].name in Lookup(cm, t.name) && EdgesIn(cm, t.children[i])
  }

  /** Every node's children are in strictly increasing name order. */
  predicate SiblingsSorted(t: TreeNode) {
    StrictlySortedLex(ChildNames(t)) && forall i :: 0 <= i < |t.children| ==> SiblingsSorted(t.children[i])
  }

  // ---------------------------------------------------------------------
  // Walks through the children map

  /** Each name of path is a child, in the map, of the name before it. */
  ghost predicate IsWalk(cm: ChildrenMap, path: seq<string>) {
    path != [] && forall i :: 0 <= i < |path| - 1 ==> path[i + 1] in Lookup(cm, path[i])
  }

  /** path walks from root to x. */
  ghost predicate WalkFrom(cm: ChildrenMap, root: string, x: string, path: seq<string>) {
    IsWalk(cm, path) && path[0] == root && path[|path| - 1] == x
  }

  /** x is a descendant of root in the children map (or root itself). */
  ghost predicate Reaches(cm: ChildrenMap, root: string, x: string) {
    exists path :: WalkFrom(cm, root, x, path)
  }

  /** The shortest walk from root to x takes k steps. */
  ghost predicate ShortestDistance(cm: ChildrenMap, root: string, x: string, k: nat) {
    (exists path :: WalkFrom(cm, root, x, path) && |path| == k + 1)
    && forall path :: WalkFrom(cm, root, x, path) ==> |path| >= k + 1
  }

  /** Every node of t meets ok at its level, t itself being at level k. */
  ghost predicate LevelsSatisfy(t: TreeNode, k: nat, ok: (string, nat) -> bool) {
    ok(t.name, k) && forall i :: 0 <= i < |t.children| ==> LevelsSatisfy(t.children[i], k + 1, ok)
  }

  /** Each node of t lies at its shortest distance from root, t itself at k. */
  ghost predicate AtShortestDepth(cm: ChildrenMap, root: string, t: TreeNode, k: nat) {
    LevelsSatisfy(t, k, (x: string, j: nat) => ShortestDistance(cm, root, x, j))
  }

  // ---------------------------------------------------------------------
  // The tree held as a map from each node's name to its children's names

  /** The shape build_tree gives the nodes it creates, named by their
      (distinct) names: kids[x] lists the children of node x, d[x] is the
      depth of x and par[x] its parent; the root alone has depth 0 and no
      parent, every child sits one level below its parent, and d is below
      bound. */
  ghost predicate Layered(kids: ChildrenMap, d: map<string, nat>, par: map<string, string>, root: string, bound: nat) {
    && root in kids && par.Keys == kids.Keys - {root} && Tiered(kids, d, bound) && d[root] == 0
    && (forall x, c :: x in kids && c in kids[x] ==> c in par && par[c] == x)
    && (forall c {:trigger par[c]} :: c in par ==> par[c] in kids && c in kids[par[c]])
  }

  /** Every child is a node one level below its parent, and every depth is
      below bound: what reading the tree out of kids needs. */
  ghost predicate Tiered(kids: ChildrenMap, d: map<string, nat>, bound: nat) {
    && kids.Keys == d.Keys && (forall x :: x in d ==> d[x] < bound)
    && (forall x, c :: x in kids && c in kids[x] ==> c in kids && d[c] == d[x] + 1)
  }

  /** The tree below n, read out of the children lists. */
  function View(kids: ChildrenMap, ghost d: map<string, nat>, ghost bound: nat, n: string): (t: TreeNode)
    requires n in kids && Tiered(kids, d, bound)
    ensures t.name == n && |t.children| == |kids[n]|
    decreases bound - d[n]
  {
    Node(n, seq(|kids[n]|, i requires 0 <= i < |kids[n]| => View(kids, d, bound, kids[n][i])))
  }

  lemma ViewChild(kids: ChildrenMap, d: map<string, nat>, bound: nat, n: string, i: nat)
    requires n in kids && Tiered(kids, d, bound)
    requires i < |kids[n]|
    ensures kids[n][i] in kids && View(kids, d, bound, n).children[i] == View(kids, d, bound, kids[n][i])
  {
    assert kids[n][i] in kids[n];
  }

  /** Sorted names are distinct. */
  lemma StrictlySortedDistinct(s: seq<string>)
    requires StrictlySortedLex(s)
    ensures Distinct(s)
  {
    forall i, j | 0 <= i < j < |s| ensures s[i] != s[j] {
      if s[i] == s[j] {
        LexLessIrreflexive(s[i]);
      }
    }
  }

  /** The k-th ancestor of x (x itself when k is 0 or x has no parent). */
  ghost function Anc(par: map<string, string>, x: string, k: nat): string
    decreases k
  {
    if k == 0 || x !in par then x else Anc(par, par[x], k - 1)
  }

  lemma {:induction false} AncDepth(kids: ChildrenMap, d: map<string, nat>, par: map<string, string>, root: string, bound: nat, x: string, k: nat)
    requires Layered(kids, d, par, root, bound) && x in kids && k <= d[x]
    ensures Anc(par, x, k) in kids && d[Anc(par, x, k)] == d[x] - k
    decreases k
  {
    if k > 0 {
      assert x != root && x in par;
      assert x in kids[par[x]];
      AncDepth(kids, d, par, root, bound, par[x], k - 1);
    }
  }

  lemma {:induction false} AncSucc(par: map<string, string>, x: string, k: nat)
    requires Anc(par, x, k) in par
    ensures Anc(par, x, k + 1) == par[Anc(par, x, k)]
    decreases k
  {
    if k > 0 && x in par {
      AncSucc(par, par[x], k - 1);
    }
  }

  /** Every node's chain of parents ends at the root, at its depth. */
  lemma AncIsRoot(kids: ChildrenMap, d: map<string, nat>, par: map<string, string>, root: string, bound: nat, x: string)
    requires Layered(kids, d, par, root, bound) && x in kids
    ensures Anc(par, x, d[x]) == root
  {
    AncDepth(kids, d, par, root, bound, x, d[x]);
    DepthPositive(kids, d, par, root, bound, Anc(par, x, d[x]));
  }

  /** Only the root is at depth 0. */
  lemma DepthPositive(kids: ChildrenMap, d: map<string, nat>, par: map<string, string>, root: string, bound: nat, x: string)
    requires Layered(kids, d, par, root, bound) && x in kids
    ensures x != root ==> d[x] > 0
  {
    if x != root {
      assert x in kids[par[x]];
    }
  }

  lemma {:induction false} NamesAllMembers(ts: seq<TreeNode>, x: string)
    ensures x in NamesAll(ts) <==> exists i :: 0 <= i < |ts| && x in Names(ts[i])
    decreases |ts|
  {
    if ts != [] {
      var init := ts[..|ts| - 1];
      NamesAllMembers(init, x);
      if exists i :: 0 <= i < |init| && x in Names(init[i]) {
        var i :| 0 <= i < |init| && x in Names(init[i]);
        assert ts[i] == init[i];
      }
      if exists i :: 0 <= i < |ts| && x in Names(ts[i]) {
        var i :| 0 <= i < |ts| && x in Names(ts[i]);
        if i < |init| {
          assert init[i] == ts[i];
        }
      }
    }
  }

  /** The subtree under n holds exactly the nodes whose ancestor at n's
      depth is n. */
  lemma ViewNames(kids: ChildrenMap, d: map<string, nat>, par: map<string, string>, root: string, bound: nat, n: string, x: string)
    requires Layered(kids, d, par, root, bound) && n in kids
    ensures x in Names(View(kids, d, bound, n)) <==> x in kids && d[x] >= d[n] && Anc(par, x, d[x] - d[n]) == n
  {
    if x in Names(View(kids, d, bound, n)) {
      ViewNamesBelow(kids, d, par, root, bound, n, x);
    }
    if x in kids && d[x] >= d[n] && Anc(par, x, d[x] - d[n]) == n {
      ViewNamesAbove(kids, d, par, root, bound, n, x);
    }
  }

  lemma {:induction false} ViewNamesBelow(kids: ChildrenMap, d: map<string, nat>, par: map<string, string>, root: string, bound: nat, n: string, x: string)
    requires Layered(kids, d, par, root, bound) && n in kids
    requires x in Names(View(kids, d, bound, n))
    ensures x in kids && d[x] >= d[n] && Anc(par, x, d[x] - d[n]) == n
    decreases bound - d[n]
  {
    var t := View(kids, d, bound, n);
    if x != n {
      NamesAllMembers(t.children, x);
      var i :| 0 <= i < |t.children| && x in Names(t.children[i]);
      ViewChild(kids, d, bound, n, i);
      var c := kids[n][i];
      ViewNamesBelow(kids, d, par, root, bound, c, x);
      AncSucc(par, x, d[x] - d[c]);
    }
  }

  lemma {:induction false} ViewNamesAbove(kids: ChildrenMap, d: map<string, nat>, par: map<string, string>, root: string, bound: nat, n: string, x: string)
    requires Layered(kids, d, par, root, bound) && n in kids
    requires x in kids && d[x] >= d[n] && Anc(par, x, d[x] - d[n]) == n
    ensures x in Names(View(kids, d, bound, n))
    decreases bound - d[n]
  {
    if d[x] > d[n] {
      var t := View(kids, d, bound, n);
      var c := Anc(par, x, d[x] - d[n] - 1);
      AncBelow(kids, d, par, root, bound, n, x);
      var i :| 0 <= i < |kids[n]| && kids[n][i] == c;
      ViewChild(kids, d, bound, n, i);
      ViewNamesAbove(kids, d, par, root, bound, c, x);
      NamesAllMembers(t.children, x);
    }
  }

  /** The ancestor of x one level below its ancestor n is a child of n. */
  lemma AncBelow(kids: ChildrenMap, d: map<string, nat>, par: map<string, string>, root: string, bound: nat, n: string, x: string)
    requires Layered(kids, d, par, root, bound) && n in kids
    requires x in kids && d[x] > d[n] && Anc(par, x, d[x] - d[n]) == n
    ensures var c := Anc(par, x, d[x] - d[n] - 1);
      c in kids[n] && c in kids && d[c] == d[n] + 1 && d[x] >= d[c] && Anc(par, x, d[x] - d[c]) == c
  {
    var k := d[x] - d[n] - 1;
    AncDepth(kids, d, par, root, bound, x, k);
    var c := Anc(par, x, k);
    DepthPositive(kids, d, par, root, bound, c);
    AncSucc(par, x, k);
  }

  lemma {:induction false} NamesAllDistinct(ts: seq<TreeNode>)
    requires forall i :: 0 <= i < |ts| ==> Distinct(Names(ts[i]))
    requires forall i, j, x :: 0 <= i < j < |ts| && x in Names(ts[i]) ==> x !in Names(ts[j])
    ensures Distinct(NamesAll(ts))
    decreases |ts|
  {
    if ts != [] {
      var init, last := ts[..|ts| - 1], ts[|ts| - 1];
      forall i | 0 <= i < |init| ensures Distinct(Names(init[i])) {
        assert init[i] == ts[i];
      }
      forall i, j, x | 0 <= i < j < |init| && x in Names(init[i]) ensures x !in Names(init[j]) {
        assert init[i] == ts[i] && init[j] == ts[j];
      }
      NamesAllDistinct(init);
      forall x | x in NamesAll(init) ensures x !in Names(last) {
        NamesAllMembers(init, x);
        var i :| 0 <= i < |init| && x in Names(init[i]);
        assert init[i] == ts[i];
      }
      DistinctAppend(NamesAll(init), Names(last));
    }
  }

  lemma DistinctAppend(a: seq<string>, b: seq<string>)
    requires Distinct(a) && Distinct(b) && forall x :: x in a ==> x !in b
    ensures Distinct(a + b)
  {
    var s := a + b;
    forall i, j | 0 <= i < j < |s| ensures s[i] != s[j] {
      if i < |a| && j >= |a| {
        assert s[i] in a && s[j] in b;
      } else if i >= |a| {
        assert s[i] == b[i - |a|] && s[j] == b[j - |a|];
      }
    }
  }

  /** No name occurs twice in the subtree under n. */
  lemma {:induction false} ViewDistinct(kids: ChildrenMap, d: map<string, nat>, par: map<string, string>, root: string, bound: nat, n: string)
    requires Layered(kids, d, par, root, bound) && n in kids
    requires forall x :: x in kids ==> Distinct(kids[x])
    ensures Distinct(Names(View(kids, d, bound, n)))
    decreases bound - d[n]
  {
    var cs := View(kids, d, bound, n).children;
    forall i | 0 <= i < |cs| ensures Distinct(Names(cs[i])) {
      ViewChild(kids, d, bound, n, i);
      ViewDistinct(kids, d, par, root, bound, kids[n][i]);
    }
    forall i, j, x | 0 <= i < j < |cs| && x in Names(cs[i]) ensures x !in Names(cs[j]) {
      SubtreesDisjoint(kids, d, par, root, bound, n, i, j, x);
    }
    NamesAllDistinct(cs);
    forall x | x in NamesAll(cs) ensures x != n {
      NotBelowItself(kids, d, par, root, bound, n, x);
    }
    DistinctAppend([n], NamesAll(cs));
  }

  /** The subtrees of two different children share no name. */
  lemma SubtreesDisjoint(kids: ChildrenMap, d: map<string, nat>, par: map<string, string>, root: string, bound: nat, n: string, i: nat, j: nat, x: string)
    requires Layered(kids, d, par, root, bound) && n in kids
    requires forall x :: x in kids ==> Distinct(kids[x])
    requires i < j < |kids[n]|
    requires x in Names(View(kids, d, bound, n).children[i])
    ensures x !in Names(View(kids, d, bound, n).children[j])
  {
    var ci, cj := kids[n][i], kids[n][j];
    ViewChild(kids, d, bound, n, i);
    ViewChild(kids, d, bound, n, j);
    ViewNamesBelow(kids, d, par, root, bound, ci, x);
    if x in Names(View(kids, d, bound, cj)) {
      ViewNamesBelow(kids, d, par, root, bound, cj, x);
      assert false;
    }
  }

  /** A node does not occur below itself. */
  lemma NotBelowItself(kids: ChildrenMap, d: map<string, nat>, par: map<string, string>, root: string, bound: nat, n: string, x: string)
    requires Layered(kids, d, par, root, bound) && n in kids
    requires x in NamesAll(View(kids, d, bound, n).children)
    ensures x != n
  {
    var cs := View(kids, d, bound, n).children;
    NamesAllMembers(cs, x);
    var i :| 0 <= i < |cs| && x in Names(cs[i]);
    ViewChild(kids, d, bound, n, i);
    ViewNamesBelow(kids, d, par, root, bound, kids[n][i], x);
  }

  /** Every listed child is a child in the map. */
  ghost predicate KidsFromMap(cm: ChildrenMap, kids: ChildrenMap) {
    forall x, c :: x in kids && c in kids[x] ==> c in Lookup(cm, x)
  }

  lemma {:induction false} ViewEdges(cm: ChildrenMap, kids: ChildrenMap, d: map<string, nat>, bound: nat, n: string)
    requires n in kids && Tiered(kids, d, bound)
    requires KidsFromMap(cm, kids)
    ensures EdgesIn(cm, View(kids, d, bound, n))
    decreases bound - d[n]
  {
    var t := View(kids, d, bound, n);
    forall i | 0 <= i < |t.children| ensures t.children[i].name in Lookup(cm, n) && EdgesIn(cm, t.children[i]) {
      ViewChild(kids, d, bound, n, i);
      assert kids[n][i] in kids[n];
      ViewEdges(cm, kids, d, bound, kids[n][i]);
    }
  }

  lemma {:induction false} ViewSorted(kids: ChildrenMap, d: map<string, nat>, bound: nat, n: string)
    requires n in kids && Tiered(kids, d, bound)
    requires forall x :: x in kids ==> StrictlySortedLex(kids[x])
    ensures SiblingsSorted(View(kids, d, bound, n))
    decreases bound - d[n]
  {
    var t := View(kids, d, bound, n);
    forall i | 0 <= i < |t.children| ensures ChildNames(t)[i] == kids[n][i] && SiblingsSorted(t.children[i]) {
      ViewChild(kids, d, bound, n, i);
      ViewSorted(kids, d, bound, kids[n][i]);
    }
    assert ChildNames(t) == kids[n];
  }

  lemma {:induction false} ViewLevels(kids: ChildrenMap, d: map<string, nat>, bound: nat, n: string, ok: (string, nat) -> bool)
    requires n in kids && Tiered(kids, d, bound)
    requires forall x :: x in kids ==> ok(x, d[x])
    ensures LevelsSatisfy(View(kids, d, bound, n), d[n], ok)
    decreases bound - d[n]
  {
    var t := View(kids, d, bound, n);
    forall i | 0 <= i < |t.children| ensures LevelsSatisfy(t.children[i], d[n] + 1, ok) {
      ViewChild(kids, d, bound, n, i);
      assert kids[n][i] in kids[n];
      ViewLevels(kids, d, bound, kids[n][i], ok);
    }
  }

  /** The ancestors of x from k levels up down to x itself, root first. */
  ghost function Chain(par: map<string, string>, x: string, k: nat): (path: seq<string>)
    ensures |path| == k + 1
    decreases k
  {
    if k == 0 then [x]
    else (if x in par then Chain(par, par[x], k - 1) else Chain(par, x, k - 1)) + [x]
  }

  lemma {:induction false} ChainAt(par: map<string, string>, x: string, k: nat, i: nat)
    requires i <= k
    ensures Chain(par, x, k)[i] == Anc(par, x, k - i)
    decreases k
  {
    if i < k {
      if x in par {
        ChainAt(par, par[x], k - 1, i);
      } else {
        ChainAt(par, x, k - 1, i);
      }
    }
  }

  /** A chain of ancestors that reaches root in k steps, each step going
      from a name to one of its children in the map, is a walk from root. */
  lemma ChainWalk(cm: ChildrenMap, par: map<string, string>, root: string, x: string, k: nat)
    requires Anc(par, x, k) == root
    requires forall j :: 0 <= j < k ==> Anc(par, x, j) in Lookup(cm, Anc(par, x, j + 1))
    ensures WalkFrom(cm, root, x, Chain(par, x, k))
  {
    var path := Chain(par, x, k);
    ChainAt(par, x, k, 0);
    ChainAt(par, x, k, k);
    forall i | 0 <= i < |path| - 1 ensures path[i + 1] in Lookup(cm, path[i]) {
      assert Anc(par, x, k - i - 1) in Lookup(cm, Anc(par, x, k - i - 1 + 1));
      ChainLink(cm, par, x, k, i);
    }
  }

  lemma ChainLink(cm: ChildrenMap, par: map<string, string>, x: string, k: nat, i: nat)
    requires i < k && Anc(par, x, k - i - 1) in Lookup(cm, Anc(par, x, k - i))
    ensures Chain(par, x, k)[i + 1] in Lookup(cm, Chain(par, x, k)[i])
  {
    ChainAt(par, x, k, i);
    ChainAt(par, x, k, i + 1);
  }

  /** The ancestors of a node lead up to the root, each one a child in the
      map of the next. */
  lemma ChainSteps(cm: ChildrenMap, kids: ChildrenMap, d: map<string, nat>, par: map<string, string>, root: string, bound: nat, x: string)
    requires Layered(kids, d, par, root, bound) && KidsFromMap(cm, kids) && x in kids
    ensures Anc(par, x, d[x]) == root
    ensures forall j :: 0 <= j < d[x] ==> Anc(par, x, j) in Lookup(cm, Anc(par, x, j + 1))
  {
    AncIsRoot(kids, d, par, root, bound, x);
    forall j | 0 <= j < d[x] ensures Anc(par, x, j) in Lookup(cm, Anc(par, x, j + 1)) {
      ChainStep(cm, kids, d, par, root, bound, x, j);
    }
  }

  lemma ChainStep(cm: ChildrenMap, kids: ChildrenMap, d: map<string, nat>, par: map<string, string>, root: string, bound: nat, x: string, j: nat)
    requires Layered(kids, d, par, root, bound) && KidsFromMap(cm, kids) && x in kids && j < d[x]
    ensures Anc(par, x, j) in Lookup(cm, Anc(par, x, j + 1))
  {
    var y := Anc(par, x, j);
    AncDepth(kids, d, par, root, bound, x, j);
    DepthPositive(kids, d, par, root, bound, y);
    AncSucc(par, x, j);
    assert y in kids[par[y]];
  }

  /** A processed node has all its children in the map among the nodes,
      none more than one level below it. */
  ghost predicate Closed(cm: ChildrenMap, kids: ChildrenMap, d: map<string, nat>) {
    forall x, v :: x in kids && v in Lookup(cm, x) ==> v in kids && v in d && x in d && d[v] <= d[x] + 1
  }

  /** In a closed set of nodes, a walk from the root never reaches a node
      deeper than the number of steps taken. */
  lemma {:induction false} WalkDepth(cm: ChildrenMap, kids: ChildrenMap, d: map<string, nat>, root: string, path: seq<string>, i: nat)
    requires Closed(cm, kids, d) && root in kids && root in d && d[root] == 0
    requires IsWalk(cm, path) && path[0] == root && i < |path|
    ensures path[i] in kids && path[i] in d && d[path[i]] <= i
  {
    if i > 0 {
      WalkDepth(cm, kids, d, root, path, i - 1);
      assert path[i] in Lookup(cm, path[i - 1]);
    }
  }

  /** What build_tree leaves behind once its queue is empty. */
  ghost predicate Built(cm: ChildrenMap, root: string, kids: ChildrenMap, d: map<string, nat>, par: map<string, string>, bound: nat) {
    Layered(kids, d, par, root, bound) && Closed(cm, kids, d) && KidsFromMap(cm, kids)
    && forall x :: x in kids ==> StrictlySortedLex(kids[x])
  }

  /** The nodes are exactly the names reachable from the root, each at its
      shortest distance. */
  lemma BuiltNodes(cm: ChildrenMap, root: string, kids: ChildrenMap, d: map<string, nat>, par: map<string, string>, bound: nat, x: string)
    requires Built(cm, root, kids, d, par, bound)
    ensures x in kids <==> Reaches(cm, root, x)
    ensures x in kids ==> ShortestDistance(cm, root, x, d[x])
  {
    if x in kids {
      ChainSteps(cm, kids, d, par, root, bound, x);
      ChainWalk(cm, par, root, x, d[x]);
      forall path | WalkFrom(cm, root, x, path) ensures |path| >= d[x] + 1 {
        WalkDepth(cm, kids, d, root, path, |path| - 1);
      }
    }
    if Reaches(cm, root, x) {
      var path :| WalkFrom(cm, root, x, path);
      WalkDepth(cm, kids, d, root, path, |path| - 1);
    }
  }

  /** The tree read out of the final state has every property build_tree
      promises. */
  lemma BuiltTree(cm: ChildrenMap, root: string, kids: ChildrenMap, d: map<string, nat>, par: map<string, string>, bound: nat)
    requires Built(cm, root, kids, d, par, bound)
    ensures var t := View(kids, d, bound, root);
      && t.name == root
      && Distinct(Names(t))
      && (forall x :: x in Names(t) <==> Reaches(cm, root, x))
      && EdgesIn(cm, t)
      && SiblingsSorted(t)
      && AtShortestDepth(cm, root, t, 0)
  {
    var t := View(kids, d, bound, root);
    forall x | x in kids ensures Distinct(kids[x]) {
      StrictlySortedDistinct(kids[x]);
    }
    ViewDistinct(kids, d, par, root, bound, root);
    forall x ensures x in Names(t) <==> Reaches(cm, root, x) {
      ViewNames(kids, d, par, root, bound, root, x);
      BuiltNodes(cm, root, kids, d, par, bound, x);
      if x in kids {
        AncIsRoot(kids, d, par, root, bound, x);
      }
    }
    ViewEdges(cm, kids, d, bound, root);
    ViewSorted(kids, d, bound, root);
    var ok := (x: string, j: nat) => ShortestDistance(cm, root, x, j);
    forall x | x in kids ensures ok(x, d[x]) {
      BuiltNodes(cm, root, kids, d, par, bound, x);
    }
    ViewLevels(kids, d, bound, root, ok);
  }

  // ---------------------------------------------------------------------
  // build_tree

  /** The names build_tree can ever visit: the root and every listed child. */
  ghost function Universe(cm: ChildrenMap, root: string): set<string> {
    {root} + set p, c | p in cm && c in cm[p] :: c
  }

  /** The FIFO queue: distinct nodes whose children are not added yet, in
      nondecreasing depth. */
  ghost predicate QueueOk(queue: seq<string>, kids: ChildrenMap, d: map<string, nat>) {
    && (forall i :: 0 <= i < |queue| ==> queue[i] in kids && queue[i] in d && kids[queue[i]] == [])
    && (forall i, j :: 0 <= i < j < |queue| ==>
          queue[i] != queue[j] && queue[i] in d && queue[j] in d && d[queue[i]] <= d[queue[j]])
  }

  ghost predicate SortedKids(kids: ChildrenMap) {
    forall x :: x in kids ==> StrictlySortedLex(kids[x])
  }

  /** Every queued node is at depth lo or below it. */
  ghost predicate Band(queue: seq<string>, d: map<string, nat>, lo: nat) {
    forall i :: 0 <= i < |queue| ==> queue[i] in d && lo <= d[queue[i]]
  }

  /** No node is deeper than hi. */
  ghost predicate Cap(d: map<string, nat>, hi: nat) {
    forall x :: x in d ==> d[x] <= hi
  }

  /** Node x has been expanded: all its children in the map are nodes, none
      more than one level below it. */
  ghost predicate Processed(cm: ChildrenMap, kids: ChildrenMap, d: map<string, nat>, x: string) {
    x in d && forall v :: v in Lookup(cm, x) ==> v in kids && v in d && d[v] <= d[x] + 1
  }

  /** Every node off the queue, except possibly node, has been expanded. */
  ghost predicate ProcessedBut(cm: ChildrenMap, kids: ChildrenMap, d: map<string, nat>, queue: seq<string>, node: string) {
    forall x :: x in kids && x !in queue && x != node ==> Processed(cm, kids, d, x)
  }

  /** sorted[..j] have all been visited, and the children node has been
      given so far are among them. */
  ghost predicate Seen(sorted: seq<string>, j: int, kids: ChildrenMap, node: string)
    requires 0 <= j <= |sorted|
  {
    && (forall k :: 0 <= k < j ==> sorted[k] in kids)
    && node in kids && (forall y :: y in kids[node] ==> y in sorted[..j])
  }

  /** The state of build_tree between steps: the visited set, the FIFO
      queue, and the children lists built so far (the TreeNode objects, by
      name), with each node's depth and the node that adopted it kept for
      the proof. */
  datatype Walk = Walk(visited: set<string>, queue: seq<string>, kids: ChildrenMap,
                       d: map<string, nat>, par: map<string, string>)

  /** What holds each time build_tree's outer loop tests its queue. */
  ghost predicate Frontier(cm: ChildrenMap, root: string, w: Walk) {
    match w
    case Walk(visited, queue, kids, d, par) =>
      && visited == kids.Keys
      && Layered(kids, d, par, root, |visited|)
      && KidsFromMap(cm, kids) && SortedKids(kids)
      && QueueOk(queue, kids, d)
      && (queue != [] ==> queue[0] in d && Cap(d, d[queue[0]] + 1))
      && (forall x :: x in kids && x !in queue ==> Processed(cm, kids, d, x))
  }

  /** What holds while the children sorted[..j] of node are being added to
      w; w0 is the state just after node was taken off the queue. */
  ghost predicate Expanding(cm: ChildrenMap, root: string, node: string, sorted: seq<string>, j: int, w0: Walk, w: Walk) {
    && sorted == SortNames(Lookup(cm, node)) && 0 <= j <= |sorted|
    && Grown(cm, root, node, sorted, j, w0, w)
    && Queued(cm, node, w0, w)
  }

  /** The tree half: the nodes so far are the visited names, layered and
      drawn from the map; sorted[..j] are among them, and the children of
      node come from sorted[..j]. */
  ghost predicate Grown(cm: ChildrenMap, root: string, node: string, sorted: seq<string>, j: int, w0: Walk, w: Walk) {
    Shaped(root, w) && Drawn(cm, node, sorted, j, w)
  }

  /** The nodes so far are the visited names, in layers below root. */
  ghost predicate Shaped(root: string, w: Walk) {
    match w
    case Walk(visited, _, kids, d, par) => visited == kids.Keys && Layered(kids, d, par, root, |visited|)
  }

  /** The children lists come from the map in sorted order; sorted[..j]
      are nodes, and the children of node come from sorted[..j]. */
  ghost predicate Drawn(cm: ChildrenMap, node: string, sorted: seq<string>, j: int, w: Walk) {
    KidsFromMap(cm, w.kids) && SortedKids(w.kids) && 0 <= j <= |sorted| && Seen(sorted, j, w.kids, node)
  }

  /** The queue half: the queue holds nodes at node's depth or one below,
      and every node off the queue but node has been expanded. */
  ghost predicate Queued(cm: ChildrenMap, node: string, w0: Walk, w: Walk) {
    match w
    case Walk(visited, queue, kids, d, _) =>
      && QueueOk(queue, kids, d) && node in d && node !in queue
      && Band(queue, d, d[node]) && Cap(d, d[node] + 1)
      && ProcessedBut(cm, kids, d, queue, node)
  }

  lemma FrontierStart(cm: ChildrenMap, root: string)
    ensures Frontier(cm, root, Walk({root}, [root], map[root := []], map[root := 0], map[]))
  {
  }

  lemma ExpandingStart(cm: ChildrenMap, root: string, w: Walk)
    requires Frontier(cm, root, w) && w.queue != []
    ensures var w0 := Walk(w.visited, w.queue[1..], w.kids, w.d, w.par);
      Expanding(cm, root, w.queue[0], SortNames(Lookup(cm, w.queue[0])), 0, w0, w0)
  {
    StartGrown(cm, root, w);
    StartQueued(cm, root, w);
  }

  lemma StartGrown(cm: ChildrenMap, root: string, w: Walk)
    requires Frontier(cm, root, w) && w.queue != []
    ensures var w0 := Walk(w.visited, w.queue[1..], w.kids, w.d, w.par);
      Grown(cm, root, w.queue[0], SortNames(Lookup(cm, w.queue[0])), 0, w0, w0)
  {
    assert w.kids[w.queue[0]] == [];
  }

  lemma StartQueued(cm: ChildrenMap, root: string, w: Walk)
    requires Frontier(cm, root, w) && w.queue != []
    ensures var w0 := Walk(w.visited, w.queue[1..], w.kids, w.d, w.par);
      Queued(cm, w.queue[0], w0, w0)
  {
    var queue, d := w.queue, w.d;
    var q := queue[1..];
    forall i | 0 <= i < |q| ensures queue[0] != q[i] && q[i] in d && d[queue[0]] <= d[q[i]] {
      assert q[i] == queue[i + 1];
    }
  }

  lemma ExpandingSkip(cm: ChildrenMap, root: string, node: string, sorted: seq<string>, j: int, w0: Walk, w: Walk)
    requires Expanding(cm, root, node, sorted, j, w0, w)
    requires j < |sorted| && sorted[j] in w.visited
    ensures Expanding(cm, root, node, sorted, j + 1, w0, w)
  {
    assert sorted[..j] <= sorted[..j + 1];
  }

  lemma ExpandingAdopt(cm: ChildrenMap, root: string, node: string, sorted: seq<string>, j: int, w0: Walk, w: Walk)
    requires Expanding(cm, root, node, sorted, j, w0, w)
    requires j < |sorted| && sorted[j] !in w.visited
    ensures node in w.kids && node in w.d
    ensures Expanding(cm, root, node, sorted, j + 1, w0,
               Walk(w.visited + {sorted[j]}, w.queue + [sorted[j]], w.kids[sorted[j] := []][node := w.kids[node] + [sorted[j]]],
                    w.d[sorted[j] := w.d[node] + 1], w.par[sorted[j] := node]))
  {
    AdoptGrown(cm, root, node, sorted, j, w0, w);
    AdoptQueued(cm, root, node, sorted, j, w0, w);
  }

  lemma AdoptGrown(cm: ChildrenMap, root: string, node: string, sorted: seq<string>, j: int, w0: Walk, w: Walk)
    requires sorted == SortNames(Lookup(cm, node)) && Grown(cm, root, node, sorted, j, w0, w)
    requires j < |sorted| && sorted[j] !in w.visited
    ensures node in w.kids && node in w.d
    ensures Grown(cm, root, node, sorted, j + 1, w0,
               Walk(w.visited + {sorted[j]}, w.queue + [sorted[j]], w.kids[sorted[j] := []][node := w.kids[node] + [sorted[j]]],
                    w.d[sorted[j] := w.d[node] + 1], w.par[sorted[j] := node]))
  {
    OneMore(w.visited, sorted[j]);
    AdoptShaped(root, node, sorted[j], w);
    AdoptDrawn(cm, node, sorted, j, w);
  }

  lemma AdoptShaped(root: string, node: string, c: string, w: Walk)
    requires Shaped(root, w) && node in w.kids && c !in w.visited && |w.visited + {c}| == |w.visited| + 1
    ensures node in w.d
    ensures Shaped(root, Walk(w.visited + {c}, w.queue + [c], w.kids[c := []][node := w.kids[node] + [c]],
                              w.d[c := w.d[node] + 1], w.par[c := node]))
  {
    AdoptLayered(w.kids, w.d, w.par, root, |w.visited|, |w.visited + {c}|, node, c);
  }

  lemma AdoptDrawn(cm: ChildrenMap, node: string, sorted: seq<string>, j: int, w: Walk)
    requires sorted == SortNames(Lookup(cm, node)) && Drawn(cm, node, sorted, j, w)
    requires w.visited == w.kids.Keys && j < |sorted| && sorted[j] !in w.visited && node in w.d
    ensures node in w.kids
    ensures var c := sorted[j];
      Drawn(cm, node, sorted, j + 1, Walk(w.visited + {c}, w.queue + [c], w.kids[c := []][node := w.kids[node] + [c]],
                                           w.d[c := w.d[node] + 1], w.par[c := node]))
  {
    AdoptOk(cm, node, sorted, j, w.kids);
    AdoptKids(cm, w.kids, node, sorted[j]);
    AdoptSeen(sorted, j, w.kids, node);
  }

  lemma AdoptQueued(cm: ChildrenMap, root: string, node: string, sorted: seq<string>, j: int, w0: Walk, w: Walk)
    requires Queued(cm, node, w0, w) && node in w.kids
    requires w.visited == w.kids.Keys && w.kids.Keys == w.d.Keys
    requires 0 <= j < |sorted| && sorted[j] !in w.visited
    ensures Queued(cm, node, w0,
               Walk(w.visited + {sorted[j]}, w.queue + [sorted[j]], w.kids[sorted[j] := []][node := w.kids[node] + [sorted[j]]],
                    w.d[sorted[j] := w.d[node] + 1], w.par[sorted[j] := node]))
  {
    AdoptQueue(w.queue, w.kids, w.d, node, sorted[j]);
    AdoptProcessed(cm, w.kids, w.d, w.queue, node, sorted[j]);
  }

  /** Appending sorted[j] to the children of node keeps them strictly
      increasing, and sorted[j] is a name the walk may visit. */
  lemma AdoptOk(cm: ChildrenMap, node: string, sorted: seq<string>, j: nat, kids: ChildrenMap)
    requires sorted == SortNames(Lookup(cm, node)) && j < |sorted| && node in kids && sorted[j] !in kids
    requires SortedKids(kids) && Seen(sorted, j, kids, node)
    ensures SortedKids(kids[sorted[j] := []][node := kids[node] + [sorted[j]]])
    ensures sorted[j] in Lookup(cm, node)
  {
    var s := kids[node] + [sorted[j]];
    forall a, b | 0 <= a < b < |s| ensures LexLess(s[a], s[b]) {
      if b == |s| - 1 {
        assert s[a] in kids[node];
        var k :| 0 <= k < j && sorted[k] == s[a];
        assert LexLessEq(sorted[k], sorted[j]);
      } else {
        assert s[a] == kids[node][a] && s[b] == kids[node][b];
      }
    }
    assert sorted[j] in multiset(Lookup(cm, node));
  }

  lemma InUniverse(cm: ChildrenMap, root: string, node: string, c: string)
    requires c in Lookup(cm, node)
    ensures c in Universe(cm, root)
  {
    assert node in cm && c in cm[node];
  }

  /** Adding c as the last child of node keeps the layering. */
  lemma AdoptLayered(kids: ChildrenMap, d: map<string, nat>, par: map<string, string>, root: string,
                     bound: nat, bound': nat, node: string, c: string)
    requires Layered(kids, d, par, root, bound) && node in kids && c !in kids && bound' == bound + 1
    ensures kids[c := []][node := kids[node] + [c]].Keys == kids.Keys + {c}
    ensures Layered(kids[c := []][node := kids[node] + [c]], d[c := d[node] + 1], par[c := node], root, bound')
  {
    AdoptKeys(kids, par, root, node, c);
    AdoptTiered(kids, d, bound, bound', node, c);
    AdoptEdges(kids, par, node, c);
    AdoptParents(kids, par, node, c);
  }

  lemma AdoptTiered(kids: ChildrenMap, d: map<string, nat>, bound: nat, bound': nat, node: string, c: string)
    requires Tiered(kids, d, bound) && node in kids && c !in kids && bound' == bound + 1
    ensures Tiered(kids[c := []][node := kids[node] + [c]], d[c := d[node] + 1], bound')
  {
    var kids', d' := kids[c := []][node := kids[node] + [c]], d[c := d[node] + 1];
    forall x, y | x in kids' && y in kids'[x] ensures y in kids' && d'[y] == d'[x] + 1 {
      if x != node && x != c {
        assert y in kids[x];
      } else if x == node && y != c {
        assert y in kids[x];
      }
    }
  }

  lemma AdoptParents(kids: ChildrenMap, par: map<string, string>, node: string, c: string)
    requires forall y {:trigger par[y]} :: y in par ==> par[y] in kids && y in kids[par[y]]
    requires node in kids && c !in kids
    ensures var kids', par' := kids[c := []][node := kids[node] + [c]], par[c := node];
      forall y {:trigger par'[y]} :: y in par' ==> par'[y] in kids' && y in kids'[par'[y]]
  {
    var kids', par' := kids[c := []][node := kids[node] + [c]], par[c := node];
    forall y | y in par' ensures par'[y] in kids' && y in kids'[par'[y]] {
      if y != c {
        assert par'[y] == par[y] && y in kids[par[y]];
      }
    }
  }

  lemma AdoptEdges(kids: ChildrenMap, par: map<string, string>, node: string, c: string)
    requires forall x, y :: x in kids && y in kids[x] ==> y in par && par[y] == x
    requires node in kids && c !in kids && c !in par
    ensures var kids', par' := kids[c := []][node := kids[node] + [c]], par[c := node];
      forall x, y :: x in kids' && y in kids'[x] ==> y in par' && par'[y] == x
  {
    var kids', par' := kids[c := []][node := kids[node] + [c]], par[c := node];
    forall x, y | x in kids' && y in kids'[x] ensures y in par' && par'[y] == x {
      if x != node && x != c {
        assert y in kids[x];
      } else if x == node && y != c {
        assert y in kids[x];
      }
    }
  }

  lemma AdoptKeys(kids: ChildrenMap, par: map<string, string>, root: string, node: string, c: string)
    requires par.Keys == kids.Keys - {root} && root in kids && node in kids && c !in kids
    ensures c !in par
    ensures kids[c := []][node := kids[node] + [c]].Keys == kids.Keys + {c}
    ensures par[c := node].Keys == kids[c := []][node := kids[node] + [c]].Keys - {root}
  {
  }

  lemma AdoptKids(cm: ChildrenMap, kids: ChildrenMap, node: string, c: string)
    requires KidsFromMap(cm, kids) && node in kids && c !in kids && c in Lookup(cm, node)
    ensures KidsFromMap(cm, kids[c := []][node := kids[node] + [c]])
  {
    var kids' := kids[c := []][node := kids[node] + [c]];
    forall x, y | x in kids' && y in kids'[x] ensures y in Lookup(cm, x) {
      if x == node && y != c {
        assert y in kids[x];
      }
    }
  }

  lemma AdoptQueue(queue: seq<string>, kids: ChildrenMap, d: map<string, nat>, node: string, c: string)
    requires QueueOk(queue, kids, d) && node in d && node !in queue && c !in kids
    requires kids.Keys == d.Keys && Band(queue, d, d[node]) && Cap(d, d[node] + 1)
    ensures var kids', d', queue' := kids[c := []][node := kids[node] + [c]], d[c := d[node] + 1], queue + [c];
      QueueOk(queue', kids', d') && node !in queue' && Band(queue', d', d'[node]) && Cap(d', d'[node] + 1)
  {
    var kids', d', queue' := kids[c := []][node := kids[node] + [c]], d[c := d[node] + 1], queue + [c];
    forall i | 0 <= i < |queue'| ensures queue'[i] in kids' && queue'[i] in d' && kids'[queue'[i]] == [] {
      if i < |queue| {
        assert queue'[i] == queue[i];
      }
    }
    forall i, i' | 0 <= i < i' < |queue'|
      ensures queue'[i] != queue'[i'] && queue'[i] in d' && queue'[i'] in d' && d'[queue'[i]] <= d'[queue'[i']]
    {
      assert queue'[i] == queue[i];
    }
  }

  lemma AdoptProcessed(cm: ChildrenMap, kids: ChildrenMap, d: map<string, nat>, queue: seq<string>, node: string, c: string)
    requires ProcessedBut(cm, kids, d, queue, node) && node in kids && c !in kids && kids.Keys == d.Keys
    ensures ProcessedBut(cm, kids[c := []][node := kids[node] + [c]], d[c := d[node] + 1], queue + [c], node)
  {
    var kids', d' := kids[c := []][node := kids[node] + [c]], d[c := d[node] + 1];
    forall x | x in kids' && x !in queue + [c] && x != node ensures Processed(cm, kids', d', x) {
      assert x in kids && x !in queue;
    }
  }

  lemma AdoptSeen(sorted: seq<string>, j: int, kids: ChildrenMap, node: string)
    requires 0 <= j < |sorted| && Seen(sorted, j, kids, node)
    ensures var c := sorted[j];
      Seen(sorted, j + 1, kids[c := []][node := kids[node] + [c]], node)
  {
    assert sorted[..j + 1] == sorted[..j] + [sorted[j]];
  }

  lemma ExpandingDone(cm: ChildrenMap, root: string, node: string, sorted: seq<string>, w0: Walk, w: Walk)
    requires Expanding(cm, root, node, sorted, |sorted|, w0, w)
    ensures Frontier(cm, root, w)
  {
    var Walk(visited, queue, kids, d, par) := w;
    DoneProcessed(cm, sorted, kids, d, queue, node);
    if queue != [] {
      assert queue[0] in d && d[node] <= d[queue[0]];
    }
  }

  /** Each pass of the outer loop either visits a new name of the finite
      universe or shortens the queue. */
  lemma Progress(u: set<string>, visited0: set<string>, visited: set<string>, n0: nat, n: nat)
    requires visited0 <= visited <= u && n - |visited| == n0 - |visited0|
    ensures |u - visited| < |u - visited0| || (visited == visited0 && n == n0)
  {
    if visited != visited0 {
      var x :| x in visited && x !in visited0;
      assert x in u - visited0 && x !in u - visited;
      ProperSubsetSmaller(u - visited, u - visited0);
    } else {
      assert |visited| == |visited0|;
    }
  }

  /** Every name of the sorted children list is a child in the map, so it
      lies in the universe. */
  lemma SortedFromMap(cm: ChildrenMap, root: string, node: string, sorted: seq<string>, j: int)
    requires sorted == SortNames(Lookup(cm, node)) && 0 <= j < |sorted|
    ensures sorted[j] in Lookup(cm, node) && sorted[j] in Universe(cm, root)
  {
    assert sorted[j] in multiset(Lookup(cm, node));
    InUniverse(cm, root, node, sorted[j]);
  }

  lemma DoneProcessed(cm: ChildrenMap, sorted: seq<string>, kids: ChildrenMap, d: map<string, nat>, queue: seq<string>, node: string)
    requires sorted == SortNames(Lookup(cm, node)) && node in d && node !in queue
    requires kids.Keys == d.Keys && Cap(d, d[node] + 1)
    requires ProcessedBut(cm, kids, d, queue, node) && Seen(sorted, |sorted|, kids, node)
    ensures forall x :: x in kids && x !in queue ==> Processed(cm, kids, d, x)
  {
    forall v | v in Lookup(cm, node) ensures v in kids {
      assert v in multiset(sorted);
      var k :| 0 <= k < |sorted| && sorted[k] == v;
    }
  }

  lemma OneMore(s: set<string>, c: string)
    requires c !in s
    ensures |s + {c}| == |s| + 1
  {
  }

  lemma ProperSubsetSmaller(a: set<string>, b: set<string>)
    requires a < b
    ensures |a| < |b|
  {
    var x :| x in b && x !in a;
    assert b == a + (b - a);
    assert x in b - a;
  }

  lemma FrontierDone(cm: ChildrenMap, root: string, w: Walk)
    requires Frontier(cm, root, w) && w.queue == []
    ensures Built(cm, root, w.kids, w.d, w.par, |w.visited|)
  {
  }

  /** The inner loop of build_tree: each name of sorted that is not yet
      visited becomes the next child of node, is marked visited and joins
      the back of the queue. Afterwards node has been expanded, and either
      a new name was visited or the queue is one shorter. */
  method AddChildren(ghost cm: ChildrenMap, ghost root: string, node: string, sorted: seq<string>,
                     visited0: set<string>, queue0: seq<string>, kids0: ChildrenMap,
                     ghost d0: map<string, nat>, ghost par0: map<string, string>)
    returns (visited: set<string>, queue: seq<string>, kids: ChildrenMap,
             ghost d: map<string, nat>, ghost par: map<string, string>)
    requires var w0 := Walk(visited0, queue0, kids0, d0, par0);
      Expanding(cm, root, node, sorted, 0, w0, w0)
    requires visited0 <= Universe(cm, root)
    ensures Frontier(cm, root, Walk(visited, queue, kids, d, par))
    ensures visited0 <= visited <= Universe(cm, root)
    ensures |Universe(cm, root) - visited| < |Universe(cm, root) - visited0|
            || (visited == visited0 && |queue| == |queue0|)
  {
    ghost var w0 := Walk(visited0, queue0, kids0, d0, par0);
    visited, queue, kids, d, par := visited0, queue0, kids0, d0, par0;
    for j := 0 to |sorted|
      invariant Expanding(cm, root, node, sorted, j, w0, Walk(visited, queue, kids, d, par))
      invariant visited0 <= visited <= Universe(cm, root)
      invariant |queue| - |visited| == |queue0| - |visited0|
    {
      var child := sorted[j];
      if child !in visited {
        SortedFromMap(cm, root, node, sorted, j);
        ExpandingAdopt(cm, root, node, sorted, j, w0, Walk(visited, queue, kids, d, par));
        visited := visited + {child};
        kids := kids[child := []][node := kids[node] + [child]];
        queue := queue + [child];
        d := d[child := d[node] + 1];
        par := par[child := node];
      } else {
        ExpandingSkip(cm, root, node, sorted, j, w0, Walk(visited, queue, kids, d, par));
      }
    }
    ExpandingDone(cm, root, node, sorted, w0, Walk(visited, queue, kids, d, par));
    Progress(Universe(cm, root), visited0, visited, |queue0|, |queue|);
  }

  /** The loop of build_tree: breadth-first from the root, each node's
      children taken from the map in sorted order and added unless already
      visited, until the queue is empty. */
  method Explore(rootName: string, cm: ChildrenMap) returns (kids: ChildrenMap, ghost w: Walk)
    ensures Frontier(cm, rootName, w) && w.queue == [] && w.kids == kids
  {
    var queue := [rootName];
    var visited := {rootName};
    kids := map[rootName := []];
    ghost var d: map<string, nat> := map[rootName := 0];
    ghost var par: map<string, string> := map[];
    FrontierStart(cm, rootName);
    while queue != []
      invariant Frontier(cm, rootName, Walk(visited, queue, kids, d, par))
      invariant visited <= Universe(cm, rootName)
      decreases |Universe(cm, rootName) - visited|, |queue|
    {
      var node := queue[0];
      var sorted := SortNames(Lookup(cm, node));
      ExpandingStart(cm, rootName, Walk(visited, queue, kids, d, par));
      visited, queue, kids, d, par := AddChildren(cm, rootName, node, sorted, visited, queue[1..], kids, d, par);
    }
    w := Walk(visited, queue, kids, d, par);
  }

  /** What build_tree promises of the tree under root: it has the root's
      name; its names are distinct and are exactly those reachable from
      the root (so the walk ends even on a cyclic map); each of its edges
      is an edge of the map; siblings are in strictly increasing order;
      and each node lies at its shortest distance from the root. */
  ghost predicate BreadthFirstTree(cm: ChildrenMap, rootName: string, t: TreeNode) {
    && t.name == rootName
    && Distinct(Names(t))
    && (forall x :: x in Names(t) <==> Reaches(cm, rootName, x))
    && EdgesIn(cm, t)
    && SiblingsSorted(t)
    && AtShortestDepth(cm, rootName, t, 0)
  }

  /** build_tree: the tree read out of the explored state. */
  method BuildTree(rootName: string, cm: ChildrenMap) returns (root: TreeNode)
    ensures BreadthFirstTree(cm, rootName, root)
  {
    var kids;
    ghost var w;
    kids, w := Explore(rootName, cm);
    FrontierDone(cm, rootName, w);
    BuiltTree(cm, rootName, kids, w.d, w.par, |w.visited|);
    root := View(kids, w.d, |w.visited|, rootName);
  }

  // ---------------------------------------------------------------------
  // The size of the tree (count_nodes on build_tree's result)

  /** The names reachable from root: the root and its descendants. */
  ghost function ReachableNames(cm: ChildrenMap, root: string): set<string> {
    set x | x in Universe(cm, root) && Reaches(cm, root, x)
  }

  /** A walk from root ends at root or at a listed child. */
  lemma ReachesInUniverse(cm: ChildrenMap, root: string, x: string)
    requires Reaches(cm, root, x)
    ensures x in Universe(cm, root)
  {
    var path :| WalkFrom(cm, root, x, path);
    if |path| > 1 {
      InUniverse(cm, root, path[|path| - 2], x);
    }
  }

  /** The set of a duplicate-free list has as many elements as the list. */
  lemma {:induction false} DistinctCard(s: seq<string>)
    requires Distinct(s)
    ensures |set x | x in s| == |s|
  {
    if s != [] {
      var init := s[..|s| - 1];
      DistinctCard(init);
      assert (set x | x in s) == (set x | x in init) + {s[|s| - 1]};
    }
  }

  /** A tree as build_tree returns it has one node per reachable name, so
      count_nodes on it gives the number of classes reachable from the
      root. */
  lemma TreeSizeIsReachable(cm: ChildrenMap, rootName: string, t: TreeNode)
    requires BreadthFirstTree(cm, rootName, t)
    ensures |Names(t)| == |ReachableNames(cm, rootName)|
  {
    forall x | Reaches(cm, rootName, x) ensures x in Universe(cm, rootName) {
      ReachesInUniverse(cm, rootName, x);
    }
    assert (set x | x in Names(t)) == ReachableNames(cm, rootName);
    DistinctCard(Names(t));
  }
}
