/** Worked inputs for the hierarchy builder: what build_tree's promises
    leave as the only possible tree for small children maps, and what
    count_nodes then reports. */
module TreeExamples {
  import opened Text
  import opened Hierarchy

  // ---------------------------------------------------------------------
  // Reusable steps

  /** Every child of t is listed under t's name in the map. */
  lemma KidListed(cm: ChildrenMap, t: TreeNode, i: nat)
    requires EdgesIn(cm, t) && i < |t.children|
    ensures t.children[i].name in Lookup(cm, t.name) && EdgesIn(cm, t.children[i])
  {
  }

  /** A name with no listed children is a leaf of the tree. */
  lemma Leaf(cm: ChildrenMap, t: TreeNode)
    requires EdgesIn(cm, t) && Lookup(cm, t.name) == []
    ensures t.children == []
  {
    if t.children != [] {
      KidListed(cm, t, 0);
    }
  }

  /** Siblings carry distinct names. */
  lemma KidNamesDistinct(t: TreeNode, i: nat, j: nat)
    requires SiblingsSorted(t) && i < j < |t.children|
    ensures t.children[i].name != t.children[j].name
  {
    StrictlySortedDistinct(ChildNames(t));
  }

  /** A name whose only listed child is y has at most one child, named y. */
  lemma AtMostOneKid(cm: ChildrenMap, t: TreeNode, y: string)
    requires EdgesIn(cm, t) && SiblingsSorted(t) && Lookup(cm, t.name) == [y]
    ensures |t.children| <= 1 && forall i :: 0 <= i < |t.children| ==> t.children[i].name == y
  {
    forall i | 0 <= i < |t.children| ensures t.children[i].name == y {
      KidListed(cm, t, i);
    }
    if |t.children| > 1 {
      KidNamesDistinct(t, 0, 1);
    }
  }

  /** The names of a node with one child: its own, then the child's. */
  lemma OneKidNames(t: TreeNode)
    requires |t.children| == 1
    ensures Names(t) == [t.name] + Names(t.children[0])
  {
    assert t.children[..0] == [] && NamesAll(t.children[..0]) == [];
    assert NamesAll(t.children) == Names(t.children[0]);
  }

  /** A name of the tree other than the root's lies in some child's subtree. */
  lemma NameInSomeKid(t: TreeNode, x: string) returns (i: nat)
    requires x in Names(t) && x != t.name
    ensures i < |t.children| && x in Names(t.children[i])
  {
    NamesAllMembers(t.children, x);
    i :| 0 <= i < |t.children| && x in Names(t.children[i]);
  }

  /** The root's name occurs in no child's subtree of a duplicate-free tree. */
  lemma RootOnce(t: TreeNode, i: nat)
    requires Distinct(Names(t)) && i < |t.children|
    ensures t.name !in Names(t.children[i])
  {
    NotInTail(t.name, NamesAll(t.children));
    NamesAllMembers(t.children, t.name);
  }

  /** The head of a duplicate-free list does not occur in its tail. */
  lemma NotInTail(a: string, s: seq<string>)
    requires Distinct([a] + s)
    ensures a !in s
  {
    forall k | 0 <= k < |s| ensures s[k] != a {
      assert ([a] + s)[k + 1] == s[k] && ([a] + s)[0] == a;
    }
  }

  /** A node whose every child would be named y, where y occurs nowhere
      in its subtree, has no children. */
  lemma NoKidNamed(t: TreeNode, y: string)
    requires y !in Names(t) && forall i :: 0 <= i < |t.children| ==> t.children[i].name == y
    ensures t.children == []
  {
    if t.children != [] {
      assert false;
    }
  }

  /** One step of the map is a walk. */
  lemma ReachesChild(cm: ChildrenMap, a: string, b: string)
    requires b in Lookup(cm, a)
    ensures Reaches(cm, a, b)
  {
    assert WalkFrom(cm, a, b, [a, b]);
  }

  /** Two steps of the map are a walk. */
  lemma ReachesGrandchild(cm: ChildrenMap, a: string, b: string, c: string)
    requires b in Lookup(cm, a) && c in Lookup(cm, b)
    ensures Reaches(cm, a, c)
  {
    assert WalkFrom(cm, a, c, [a, b, c]);
  }

  // ---------------------------------------------------------------------
  // A cycle: A -> B and B -> A, built from A

  const Cycle: ChildrenMap := map["A" := ["B"], "B" := ["A"]]

  /** The walk back to A is cut off: A is already in the tree, so B is a
      leaf. */
  lemma CycleTree(t: TreeNode)
    requires BreadthFirstTree(Cycle, "A", t)
    ensures t == Node("A", [Node("B", [])])
  {
    ReachesChild(Cycle, "A", "B");
    var i := NameInSomeKid(t, "B");
    AtMostOneKid(Cycle, t, "B");
    var b := t.children[0];
    assert i == 0 && b.name == "B";
    KidListed(Cycle, t, 0);
    AtMostOneKid(Cycle, b, "A");
    RootOnce(t, 0);
    NoKidNamed(b, "A");
    assert t.children == [b];
  }

  // ---------------------------------------------------------------------
  // X -> [C, B] and B -> [D], built from X

  const Fork: ChildrenMap := map["X" := ["C", "B"], "B" := ["D"]]

  /** X's possible children: C is a leaf; B has no child or the leaf D. */
  lemma ForkKid(t: TreeNode)
    requires EdgesIn(Fork, t) && SiblingsSorted(t) && t.name in ["B", "C"]
    ensures t.name == "C" ==> t == Node("C", []) && Names(t) == ["C"]
    ensures t.name == "B" ==> "C" !in Names(t) && ("D" in Names(t) ==> t == Node("B", [Node("D", [])]))
  {
    if t.name == "C" {
      Leaf(Fork, t);
    } else {
      AtMostOneKid(Fork, t, "D");
      if t.children != [] {
        var d := t.children[0];
        KidListed(Fork, t, 0);
        Leaf(Fork, d);
        OneKidNames(t);
        assert t.children == [Node("D", [])];
      }
    }
  }

  /** X has at most two children, B before C. */
  lemma ForkRootKids(t: TreeNode)
    requires EdgesIn(Fork, t) && SiblingsSorted(t) && t.name == "X"
    ensures |t.children| <= 2
    ensures forall i :: 0 <= i < |t.children| ==> t.children[i].name in ["B", "C"]
    ensures |t.children| == 2 ==> t.children[0].name == "B" && t.children[1].name == "C"
  {
    forall i | 0 <= i < |t.children| ensures t.children[i].name in ["B", "C"] {
      KidListed(Fork, t, i);
    }
    if |t.children| > 2 {
      KidNamesDistinct(t, 0, 1);
      KidNamesDistinct(t, 0, 2);
      KidNamesDistinct(t, 1, 2);
    }
    if |t.children| == 2 {
      assert LexLess(ChildNames(t)[0], ChildNames(t)[1]);
    }
  }

  /** D is reachable, so some child of X is B with D under it. */
  lemma ForkHasB(t: TreeNode) returns (i: nat)
    requires BreadthFirstTree(Fork, "X", t)
    ensures i < |t.children| && t.children[i] == Node("B", [Node("D", [])])
  {
    ReachesGrandchild(Fork, "X", "B", "D");
    ForkRootKids(t);
    i := NameInSomeKid(t, "D");
    KidListed(Fork, t, i);
    ForkKid(t.children[i]);
  }

  /** C is reachable, so some child of X is the leaf C. */
  lemma ForkHasC(t: TreeNode) returns (i: nat)
    requires BreadthFirstTree(Fork, "X", t)
    ensures i < |t.children| && t.children[i] == Node("C", [])
  {
    ReachesChild(Fork, "X", "C");
    ForkRootKids(t);
    i := NameInSomeKid(t, "C");
    KidListed(Fork, t, i);
    ForkKid(t.children[i]);
  }

  /** Siblings come out in sorted order whatever the map's order, and D
      hangs under B. */
  lemma ForkTree(t: TreeNode)
    requires BreadthFirstTree(Fork, "X", t)
    ensures t == Node("X", [Node("B", [Node("D", [])]), Node("C", [])])
  {
    var ib := ForkHasB(t);
    var ic := ForkHasC(t);
    ForkRootKids(t);
    assert |t.children| == 2 && ib == 0 && ic == 1;
    assert t.children == [Node("B", [Node("D", [])]), Node("C", [])];
  }

  // ---------------------------------------------------------------------
  // count_nodes on build_tree's result, as the tree view's header reports it

  /** The number of classes in the hierarchy under rootName. */
  method CountReachable(rootName: string, cm: ChildrenMap) returns (total: nat)
    ensures total == |ReachableNames(cm, rootName)|
  {
    var root := BuildTree(rootName, cm);
    total := CountNodes(root);
    TreeSizeIsReachable(cm, rootName, root);
  }
}
