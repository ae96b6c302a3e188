/** pugixml's xml_node::find_node: a depth-first search that walks the first-child,
    next-sibling and parent links with one cursor and no stack. */
module XmlTree {
  import opened Common

  class XmlNode {
    var firstChild: XmlNode?
    var nextSibling: XmlNode?
    var parent: XmlNode?
  }

  /** The finite tree that the links below a node spell out. */
  datatype Shape = Shape(node: XmlNode, kids: seq<Shape>)

  ghost function FirstOf(forest: seq<Shape>): XmlNode? {
    if forest == [] then null else forest[0].node
  }

  /** The nodes of a tree in document order. */
  ghost function Preorder(s: Shape): seq<XmlNode>
    decreases s, 1
  {
    [s.node] + Forest(s.kids)
  }

  ghost function Forest(forest: seq<Shape>): seq<XmlNode>
    decreases forest, 0
  {
    if forest == [] then [] else Preorder(forest[0]) + Forest(forest[1..])
  }

  ghost function Nodes(s: Shape): set<XmlNode>
    decreases s, 1
  {
    {s.node} + ForestNodes(s.kids)
  }

  ghost function ForestNodes(forest: seq<Shape>): set<XmlNode>
    decreases forest, 0
  {
    if forest == [] then {} else Nodes(forest[0]) + ForestNodes(forest[1..])
  }

  /** The links below s.node are those of s.  Nothing is said of s.node's own parent and sibling. */
  ghost predicate Tree(s: Shape)
    reads Nodes(s)
    decreases s, 1
  {
    s.node.firstChild == FirstOf(s.kids) && Siblings(s.kids, s.node)
  }

  ghost predicate Siblings(forest: seq<Shape>, p: XmlNode)
    reads ForestNodes(forest)
    decreases forest, 0
  {
    forest == [] ||
    (assert forest[0].node in Nodes(forest[0]);
     && forest[0].node.parent == p
     && forest[0].node.nextSibling == FirstOf(forest[1..])
     && Tree(forest[0])
     && Siblings(forest[1..], p))
  }

  // ------------------------------------------------------------ links determine the tree

  lemma {:induction false} SameNodeSameTree(s: Shape, t: Shape)
    requires Tree(s) && Tree(t) && s.node == t.node
    ensures s == t
    decreases s, 1
  {
    SameFirstSameForest(s.kids, t.kids, s.node, t.node);
  }

  lemma {:induction false} SameFirstSameForest(f: seq<Shape>, g: seq<Shape>, p: XmlNode, q: XmlNode)
    requires Siblings(f, p) && Siblings(g, q) && FirstOf(f) == FirstOf(g)
    ensures f == g
    decreases f, 0
  {
    if f != [] {
      SameNodeSameTree(f[0], g[0]);
      SameFirstSameForest(f[1..], g[1..], p, q);
      assert f == [f[0]] + f[1..] && g == [g[0]] + g[1..];
    }
  }

  lemma {:induction false} SubtreeAt(forest: seq<Shape>, p: XmlNode, n: XmlNode) returns (t: Shape)
    requires Siblings(forest, p) && n in Forest(forest)
    ensures Tree(t) && t.node == n && |Preorder(t)| <= |Forest(forest)|
    decreases forest
  {
    if n in Forest(forest[1..]) {
      t := SubtreeAt(forest[1..], p, n);
    } else if n == forest[0].node {
      t := forest[0];
    } else {
      t := SubtreeAt(forest[0].kids, forest[0].node, n);
    }
  }

  /** No node of a finite tree is below itself. */
  lemma RootNotBelow(s: Shape)
    requires Tree(s)
    ensures s.node !in Forest(s.kids)
  {
    if s.node in Forest(s.kids) {
      var t := SubtreeAt(s.kids, s.node, s.node);
      SameNodeSameTree(s, t);
    }
  }

  // ------------------------------------------------------------ no node appears twice

  lemma {:induction false} ParentComesBefore(s: Shape, i: nat)
    requires Tree(s) && 0 < i < |Preorder(s)|
    ensures exists k :: 0 <= k < i && Preorder(s)[k] == Preorder(s)[i].parent
    decreases s, 1
  {
    var k := ParentInForest(s.kids, s.node, i - 1);
    assert Preorder(s)[k + 1] == Preorder(s)[i].parent;
  }

  /** The parent of the i-th node of a forest: the forest's own parent (-1), or an earlier node. */
  lemma {:induction false} ParentInForest(forest: seq<Shape>, p: XmlNode, i: nat) returns (k: int)
    requires Siblings(forest, p) && i < |Forest(forest)|
    ensures -1 <= k < i
    ensures Forest(forest)[i].parent == if k == -1 then p else Forest(forest)[k]
    decreases forest, 0
  {
    var n := |Preorder(forest[0])|;
    if i == 0 {
      k := -1;
    } else if i < n {
      ParentComesBefore(forest[0], i);
      k :| 0 <= k < i && Preorder(forest[0])[k] == Preorder(forest[0])[i].parent;
    } else {
      k := ParentInForest(forest[1..], p, i - n);
      k := if k == -1 then -1 else k + n;
    }
  }

  /** Two sibling trees under one parent share no node. */
  lemma {:induction false} SiblingsDisjoint(s: Shape, t: Shape, p: XmlNode, i: nat, j: nat)
    requires Tree(s) && Tree(t) && s.node.parent == p && t.node.parent == p
    requires p !in Preorder(s) && p !in Preorder(t) && s.node != t.node
    requires i < |Preorder(s)| && j < |Preorder(t)|
    ensures Preorder(s)[i] != Preorder(t)[j]
    decreases i
  {
    if Preorder(s)[i] == Preorder(t)[j] {
      if i > 0 { ParentComesBefore(s, i); }
      if j > 0 { ParentComesBefore(t, j); }
      assert i > 0 && j > 0;
      var i' :| 0 <= i' < i && Preorder(s)[i'] == Preorder(s)[i].parent;
      var j' :| 0 <= j' < j && Preorder(t)[j'] == Preorder(t)[j].parent;
      SiblingsDisjoint(s, t, p, i', j');
    }
  }

  lemma {:induction false} LaterSiblings(forest: seq<Shape>, p: XmlNode, k: nat)
    requires Siblings(forest, p) && k <= |forest|
    ensures Siblings(forest[k..], p)
  {
    if k > 0 {
      LaterSiblings(forest[1..], p, k - 1);
      assert forest[1..][k - 1..] == forest[k..];
    }
  }

  lemma SiblingRootsDiffer(forest: seq<Shape>, p: XmlNode, k: nat)
    requires Siblings(forest, p) && 0 < k < |forest|
    ensures forest[k].node != forest[0].node
  {
    LaterSiblings(forest, p, k);
    if forest[k].node == forest[0].node {
      SameFirstSameForest(forest, forest[k..], p, p);
    }
  }

  lemma {:induction false} ForestDisjoint(s: Shape, forest: seq<Shape>, p: XmlNode, i: nat, j: nat)
    requires Tree(s) && s.node.parent == p && Siblings(forest, p)
    requires p !in Preorder(s) && p !in Forest(forest)
    requires forall k :: 0 <= k < |forest| ==> forest[k].node != s.node
    requires i < |Preorder(s)| && j < |Forest(forest)|
    ensures Preorder(s)[i] != Forest(forest)[j]
    decreases forest
  {
    var n := |Preorder(forest[0])|;
    if j < n {
      SiblingsDisjoint(s, forest[0], p, i, j);
    } else {
      ForestDisjoint(s, forest[1..], p, i, j - n);
    }
  }

  lemma {:induction false} TreeNoRepeats(s: Shape)
    requires Tree(s)
    ensures NoRepeats(Preorder(s))
    decreases s, 1
  {
    RootNotBelow(s);
    ForestNoRepeats(s.kids, s.node);
  }

  lemma {:induction false} ForestNoRepeats(forest: seq<Shape>, p: XmlNode)
    requires Siblings(forest, p) && p !in Forest(forest)
    ensures NoRepeats(Forest(forest))
    decreases forest, 0
  {
    if forest != [] {
      TreeNoRepeats(forest[0]);
      ForestNoRepeats(forest[1..], p);
      forall k | 0 <= k < |forest[1..]| ensures forest[1..][k].node != forest[0].node {
        SiblingRootsDiffer(forest, p, k + 1);
      }
      forall i, j | 0 <= i < |Preorder(forest[0])| && 0 <= j < |Forest(forest[1..])|
        ensures Preorder(forest[0])[i] != Forest(forest[1..])[j]
      {
        ForestDisjoint(forest[0], forest[1..], p, i, j);
      }
    }
  }

  // ------------------------------------------------------------ the recursive search

  /** The first node of a list that satisfies the predicate. */
  ghost function FirstMatch(ns: seq<XmlNode>, pred: XmlNode -> bool): XmlNode? {
    if ns == [] then null else if pred(ns[0]) then ns[0] else FirstMatch(ns[1..], pred)
  }

  /** Depth-first search as one would write it recursively. */
  ghost function SearchTree(s: Shape, pred: XmlNode -> bool): XmlNode?
    decreases s, 1
  {
    if pred(s.node) then s.node else SearchForest(s.kids, pred)
  }

  ghost function SearchForest(forest: seq<Shape>, pred: XmlNode -> bool): XmlNode?
    decreases forest, 0
  {
    if forest == [] then null
    else
      var r := SearchTree(forest[0], pred);
      if r != null then r else SearchForest(forest[1..], pred)
  }

  lemma {:induction false} FirstMatchAcross(a: seq<XmlNode>, b: seq<XmlNode>, pred: XmlNode -> bool)
    ensures FirstMatch(a + b, pred) ==
            if FirstMatch(a, pred) != null then FirstMatch(a, pred) else FirstMatch(b, pred)
  {
    if a == [] {
      assert a + b == b;
    } else {
      assert (a + b)[1..] == a[1..] + b;
      FirstMatchAcross(a[1..], b, pred);
    }
  }

  /** The first match in document order is what the recursive search finds. */
  lemma {:induction false} SearchTreeIsFirstMatch(s: Shape, pred: XmlNode -> bool)
    ensures SearchTree(s, pred) == FirstMatch(Preorder(s), pred)
    decreases s, 1
  {
    SearchForestIsFirstMatch(s.kids, pred);
    assert Preorder(s)[1..] == Forest(s.kids);
  }

  lemma {:induction false} SearchForestIsFirstMatch(forest: seq<Shape>, pred: XmlNode -> bool)
    ensures SearchForest(forest, pred) == FirstMatch(Forest(forest), pred)
    decreases forest, 0
  {
    if forest != [] {
      SearchTreeIsFirstMatch(forest[0], pred);
      SearchForestIsFirstMatch(forest[1..], pred);
      FirstMatchAcross(Preorder(forest[0]), Forest(forest[1..]), pred);
    }
  }

  lemma {:induction false} FirstMatchMeans(ns: seq<XmlNode>, pred: XmlNode -> bool)
    ensures FirstMatch(ns, pred) == null <==> forall i :: 0 <= i < |ns| ==> !pred(ns[i])
    ensures FirstMatch(ns, pred) != null ==>
            exists k :: 0 <= k < |ns| && FirstMatch(ns, pred) == ns[k] && pred(ns[k]) &&
                        forall i :: 0 <= i < k ==> !pred(ns[i])
  {
    if ns != [] && !pred(ns[0]) {
      FirstMatchMeans(ns[1..], pred);
      assert forall i :: 0 < i < |ns| ==> ns[i] == ns[1..][i - 1];
      if FirstMatch(ns[1..], pred) != null {
        var k :| 0 <= k < |ns[1..]| && FirstMatch(ns, pred) == ns[1..][k] && pred(ns[1..][k]) &&
                 forall i :: 0 <= i < k ==> !pred(ns[1..][i]);
        assert FirstMatch(ns, pred) == ns[k + 1];
      } else {
        forall i | 0 <= i < |ns| ensures !pred(ns[i]) {
          if i > 0 { assert !pred(ns[1..][i - 1]); }
        }
      }
    }
  }

  lemma FirstMatchStep(x: XmlNode, rest: seq<XmlNode>, pred: XmlNode -> bool)
    ensures FirstMatch([x] + rest, pred) == if pred(x) then x else FirstMatch(rest, pred)
  {
    assert ([x] + rest)[1..] == rest;
  }

  // ------------------------------------------------------------ the cursor

  /** Where the cursor stands: at the search root, or at the tree `here` with its later siblings,
      below the position `up`. */
  datatype Position = AtRoot | At(here: Shape, later: seq<Shape>, up: Position)

  ghost function Depth(pos: Position): nat {
    if pos.AtRoot? then 0 else 1 + Depth(pos.up)
  }

  ghost function Cursor(root: XmlNode, pos: Position): XmlNode {
    if pos.AtRoot? then root else pos.here.node
  }

  ghost function PositionNodes(pos: Position): set<XmlNode> {
    if pos.AtRoot? then {} else Nodes(pos.here) + ForestNodes(pos.later) + PositionNodes(pos.up)
  }

  /** The links around the position are those of a tree below `root`. */
  ghost predicate Linked(root: XmlNode, pos: Position)
    reads PositionNodes(pos)
  {
    pos.AtRoot? ||
    (assert pos.here.node in Nodes(pos.here);
     && pos.here.node.parent == Cursor(root, pos.up)
     && pos.here.node.nextSibling == FirstOf(pos.later)
     && Tree(pos.here)
     && Siblings(pos.later, Cursor(root, pos.up))
     && Linked(root, pos.up))
  }

  /** What follows the whole subtree at the cursor in document order. */
  ghost function After(pos: Position): seq<XmlNode> {
    if pos.AtRoot? then [] else Forest(pos.later) + After(pos.up)
  }

  /** What is still to be visited, the cursor first. */
  ghost function Unvisited(pos: Position): seq<XmlNode> {
    if pos.AtRoot? then [] else [pos.here.node] + (Forest(pos.here.kids) + After(pos))
  }

  lemma ForestFront(forest: seq<Shape>, tail: seq<XmlNode>)
    requires forest != []
    ensures Forest(forest) + tail ==
            [forest[0].node] + (Forest(forest[0].kids) + (Forest(forest[1..]) + tail))
  {
  }

  lemma StepDown(root: XmlNode, pos: Position)
    requires Linked(root, pos) && pos.At? && pos.here.kids != []
    ensures var next := At(pos.here.kids[0], pos.here.kids[1..], pos);
            && Linked(root, next)
            && Unvisited(next) == Forest(pos.here.kids) + After(pos)
            && PositionNodes(next) <= PositionNodes(pos)
  {
    var kids := pos.here.kids;
    assert Siblings(kids, Cursor(root, pos)) by { assert Tree(pos.here); }
    assert ForestNodes(kids) == Nodes(kids[0]) + ForestNodes(kids[1..]);
    assert ForestNodes(kids) <= Nodes(pos.here) <= PositionNodes(pos);
    assert After(At(kids[0], kids[1..], pos)) == Forest(kids[1..]) + After(pos);
    ForestFront(kids, After(pos));
  }

  lemma StepAcross(root: XmlNode, pos: Position)
    requires Linked(root, pos) && pos.At? && pos.later != []
    ensures var next := At(pos.later[0], pos.later[1..], pos.up);
            && Linked(root, next)
            && Unvisited(next) == After(pos)
            && PositionNodes(next) <= PositionNodes(pos)
  {
    var later := pos.later;
    assert ForestNodes(later) == Nodes(later[0]) + ForestNodes(later[1..]);
    ForestFront(later, After(pos.up));
  }

  lemma StepUp(pos: Position)
    requires pos.At? && pos.later == []
    ensures After(pos.up) == After(pos)
  {
  }

  lemma CursorInside(root: XmlNode, pos: Position)
    requires root !in PositionNodes(pos)
    ensures Cursor(root, pos) == root <==> pos.AtRoot?
  {
    if pos.At? { assert pos.here.node in Nodes(pos.here); }
  }

  ghost function StartPosition(kids: seq<Shape>): Position {
    if kids == [] then AtRoot else At(kids[0], kids[1..], AtRoot)
  }

  lemma StartsAtFirstChild(s: Shape)
    requires Tree(s)
    ensures Linked(s.node, StartPosition(s.kids))
    ensures Unvisited(StartPosition(s.kids)) == Forest(s.kids)
    ensures PositionNodes(StartPosition(s.kids)) <= ForestNodes(s.kids)
  {
    if s.kids != [] {
      ForestFront(s.kids, After(AtRoot));
      assert PositionNodes(AtRoot) == {};
      assert Forest(s.kids) + [] == Forest(s.kids);
    }
  }

  lemma {:induction false} InForest(s: Shape)
    ensures forall n :: n in Nodes(s) ==> n in Preorder(s)
    decreases s, 1
  {
    AllInForest(s.kids);
  }

  lemma {:induction false} AllInForest(forest: seq<Shape>)
    ensures forall n :: n in ForestNodes(forest) ==> n in Forest(forest)
    decreases forest, 0
  {
    if forest != [] {
      InForest(forest[0]);
      AllInForest(forest[1..]);
    }
  }

  /** The nodes tested so far did not match, and the rest of the order decides. */
  ghost predicate Visited(order: seq<XmlNode>, tested: seq<XmlNode>, rest: seq<XmlNode>,
                          pred: XmlNode -> bool, goal: XmlNode?) {
    order == tested + rest && FirstMatch(rest, pred) == goal
  }

  lemma VisitOne(order: seq<XmlNode>, tested: seq<XmlNode>, cur: XmlNode, rest: seq<XmlNode>,
                 pred: XmlNode -> bool, goal: XmlNode?)
    requires Visited(order, tested, [cur] + rest, pred, goal)
    ensures tested + [cur] <= order
    ensures if pred(cur) then goal == cur else Visited(order, tested + [cur], rest, pred, goal)
  {
    FirstMatchStep(cur, rest, pred);
    assert tested + ([cur] + rest) == tested + [cur] + rest;
  }

  /** find_node.  `shape` is the tree below the search root; the root's own parent and siblings
      are whatever they are.  `tested` lists the nodes the predicate was asked about, `moves`
      counts how often the cursor moves on from its starting place. */
  method FindNode(root: XmlNode?, pred: XmlNode -> bool, ghost shape: Shape)
    returns (found: XmlNode?, ghost tested: seq<XmlNode>, ghost moves: nat)
    requires root != null ==> root == shape.node && Tree(shape)
    ensures root == null ==> found == null && tested == []
    ensures root != null ==> found == SearchForest(shape.kids, pred)
    ensures root != null ==> tested <= Forest(shape.kids)
    ensures root != null && found == null ==> tested == Forest(shape.kids)
    ensures found != null ==> tested != [] && tested[|tested| - 1] == found
    ensures moves <= 2 * |tested|
  {
    tested, moves := [], 0;
    if root == null {
      return null, tested, moves;
    }
    ghost var order, goal := Forest(shape.kids), SearchForest(shape.kids, pred);
    SearchForestIsFirstMatch(shape.kids, pred);
    RootNotBelow(shape);
    AllInForest(shape.kids);
    StartsAtFirstChild(shape);

    var cur := root.firstChild;
    ghost var pos, rest := StartPosition(shape.kids), order;
    while cur != null && cur != root
      invariant Linked(root, pos) && root !in PositionNodes(pos)
      invariant if pos.AtRoot? then cur == null || cur == root else cur == pos.here.node
      invariant rest == Unvisited(pos) && Visited(order, tested, rest, pred, goal)
      invariant moves + Depth(pos) <= 2 * |tested| + if pos.AtRoot? then 0 else 1
      decreases |rest|
    {
      rest := Forest(pos.here.kids) + After(pos);
      VisitOne(order, tested, cur, rest, pred, goal);
      tested := tested + [cur];
      if pred(cur) {
        return cur, tested, moves;
      }
      if cur.firstChild != null {
        StepDown(root, pos);
        cur := cur.firstChild;
        moves := moves + 1;
        pos := At(pos.here.kids[0], pos.here.kids[1..], pos);
      } else if cur.nextSibling != null {
        StepAcross(root, pos);
        cur := cur.nextSibling;
        moves := moves + 1;
        pos := At(pos.later[0], pos.later[1..], pos.up);
      } else {
        while cur.nextSibling == null && cur != root
          invariant Linked(root, pos) && root !in PositionNodes(pos)
          invariant cur == Cursor(root, pos)
          invariant rest == After(pos)
          invariant moves + Depth(pos) < 2 * |tested|
          decreases pos
        {
          StepUp(pos);
          cur := cur.parent;
          moves := moves + 1;
          pos := pos.up;
        }
        CursorInside(root, pos);
        if cur != root {
          StepAcross(root, pos);
          cur := cur.nextSibling;
          moves := moves + 1;
          pos := At(pos.later[0], pos.later[1..], pos.up);
        }
      }
    }
    CursorInside(root, pos);
    return null, tested, moves;
  }

  /** A search started below `s` tests no node twice and never the search root. */
  lemma TestedOnce(s: Shape, tested: seq<XmlNode>)
    requires Tree(s) && tested <= Forest(s.kids)
    ensures NoRepeats(tested) && s.node !in tested
  {
    RootNotBelow(s);
    ForestNoRepeats(s.kids, s.node);
  }
}
