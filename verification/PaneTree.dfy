// The split-pane tree of one tab (cmd/desktop/gui_fyne.go): a mutable binary
// tree with parent pointers and an active leaf. Only the data structure is
// modelled, not the widgets.
module PaneTree {
  import opened Lists
  import opened Wrappers

  /** A tab of the window. */
  class TabItem {
  }

  /** An open session and the tab that shows it, if any. */
  class SessionTab {
    const connID: string
    var tabItem: TabItem?

    constructor (connID: string, tabItem: TabItem?)
      ensures this.connID == connID && this.tabItem == tabItem
    {
      this.connID := connID;
      this.tabItem := tabItem;
    }
  }

  /** A leaf hosts a session; a branch has an orientation and two children. */
  class PaneNode {
    var parent: PaneNode?
    var session: SessionTab?
    var orientation: string
    var a: PaneNode?
    var b: PaneNode?

    constructor Leaf(session: SessionTab)
      ensures parent == null && this.session == session && orientation == "" && a == null && b == null
    {
      parent := null;
      this.session := session;
      orientation := "";
      a := null;
      b := null;
    }

    constructor Branch(orientation: string, a: PaneNode, b: PaneNode, parent: PaneNode?)
      ensures this.parent == parent && session == null && this.orientation == orientation
      ensures this.a == a && this.b == b
    {
      this.parent := parent;
      session := null;
      this.orientation := orientation;
      this.a := a;
      this.b := b;
    }

    predicate IsLeaf()
      reads this
    {
      session != null
    }
  }

  // ------------------------------------------------------------------
  // The shape of the tree in the heap
  // ------------------------------------------------------------------

  datatype Shape = Leaf(node: PaneNode) | Branch(node: PaneNode, a: Shape, b: Shape)

  ghost function Nodes(sh: Shape): set<PaneNode> {
    match sh
    case Leaf(n) => {n}
    case Branch(n, a, b) => {n} + Nodes(a) + Nodes(b)
  }

  /** The leaves, left to right. */
  ghost function LeafNodes(sh: Shape): (r: seq<PaneNode>)
    ensures |r| > 0
  {
    match sh
    case Leaf(n) => [n]
    case Branch(_, a, b) => LeafNodes(a) + LeafNodes(b)
  }

  /** No node occurs twice. */
  ghost predicate Distinct(sh: Shape) {
    match sh
    case Leaf(_) => true
    case Branch(n, a, b) =>
      n !in Nodes(a) && n !in Nodes(b) && Nodes(a) !! Nodes(b) && Distinct(a) && Distinct(b)
  }

  /** The fields of one node. */
  datatype Cell = Cell(parent: PaneNode?, session: SessionTab?, orientation: string, a: PaneNode?, b: PaneNode?)

  type Store = map<PaneNode, Cell>

  ghost function CellOf(n: PaneNode): Cell
    reads n
  {
    Cell(n.parent, n.session, n.orientation, n.a, n.b)
  }

  /** What the heap holds at a set of nodes. */
  ghost function Heap(ns: set<PaneNode>): Store
    reads ns
  {
    map n | n in ns :: CellOf(n)
  }

  /** The store realises the shape below `parent`: a full binary tree whose links agree in both directions. */
  ghost predicate Linked(h: Store, sh: Shape, parent: PaneNode?) {
    sh.node in h && h[sh.node].parent == parent &&
    match sh
    case Leaf(n) => h[n].session != null && h[n].a == null && h[n].b == null
    case Branch(n, a, b) =>
      h[n].session == null && h[n].a == a.node && h[n].b == b.node && Linked(h, a, n) && Linked(h, b, n)
  }

  lemma {:induction false} LinkedAgree(h: Store, h': Store, sh: Shape, parent: PaneNode?)
    requires Linked(h, sh, parent) && forall n | n in Nodes(sh) && n in h :: n in h' && h'[n] == h[n]
    ensures Linked(h', sh, parent)
  {
    if sh.Branch? {
      LinkedAgree(h, h', sh.a, sh.node);
      LinkedAgree(h, h', sh.b, sh.node);
    }
  }

  lemma {:induction false} LeavesAreNodes(sh: Shape, n: PaneNode)
    ensures sh.node in Nodes(sh)
    ensures n in LeafNodes(sh) ==> n in Nodes(sh)
  {
    if sh.Branch? {
      LeavesAreNodes(sh.a, n);
      LeavesAreNodes(sh.b, n);
    }
  }

  /** A node of the tree is a leaf of the shape exactly when it hosts a session. */
  lemma {:induction false} LeafHosts(h: Store, sh: Shape, parent: PaneNode?, n: PaneNode)
    requires Linked(h, sh, parent) && Distinct(sh) && n in Nodes(sh)
    ensures n in h && (h[n].session != null <==> n in LeafNodes(sh))
    ensures n in LeafNodes(sh) ==> h[n].a == null && h[n].b == null
  {
    if sh.Branch? {
      LeavesAreNodes(sh.a, n);
      LeavesAreNodes(sh.b, n);
      if n in Nodes(sh.a) {
        LeafHosts(h, sh.a, sh.node, n);
      } else if n in Nodes(sh.b) {
        LeafHosts(h, sh.b, sh.node, n);
      }
    }
  }

  // ------------------------------------------------------------------
  // Splitting a leaf
  // ------------------------------------------------------------------

  /** The shape after `target` became a branch over itself and a new leaf. */
  ghost function Graft(sh: Shape, target: PaneNode, branch: PaneNode, leaf: PaneNode): Shape {
    match sh
    case Leaf(n) => if n == target then Shape.Branch(branch, Leaf(target), Leaf(leaf)) else sh
    case Branch(n, a, b) => Shape.Branch(n, Graft(a, target, branch, leaf), Graft(b, target, branch, leaf))
  }

  lemma {:induction false} GraftElsewhere(sh: Shape, target: PaneNode, branch: PaneNode, leaf: PaneNode)
    requires target !in LeafNodes(sh)
    ensures Graft(sh, target, branch, leaf) == sh
  {
    if sh.Branch? {
      GraftElsewhere(sh.a, target, branch, leaf);
      GraftElsewhere(sh.b, target, branch, leaf);
    }
  }

  /** s with x directly after n. */
  ghost function InsertAfter(s: seq<PaneNode>, n: PaneNode, x: PaneNode): seq<PaneNode> {
    if s == [] then []
    else if s[0] == n then [n, x] + s[1..]
    else [s[0]] + InsertAfter(s[1..], n, x)
  }

  /** Exactly one element more, right behind the first n; the rest keeps its order. */
  lemma {:induction false} InsertAfterExactly(s: seq<PaneNode>, n: PaneNode, x: PaneNode) returns (i: nat)
    requires n in s
    ensures i < |s| && s[i] == n && n !in s[..i]
    ensures InsertAfter(s, n, x) == s[..i + 1] + [x] + s[i + 1..]
  {
    if s[0] == n {
      i := 0;
      assert [n, x] + s[1..] == s[..1] + [x] + s[1..];
    } else {
      var j := InsertAfterExactly(s[1..], n, x);
      i := j + 1;
      assert s[..i] == [s[0]] + s[1..][..j] && s[..i + 1] == [s[0]] + s[1..][..i] && s[1..][i..] == s[i + 1..];
      assert [s[0]] + (s[1..][..i] + [x] + s[i + 1..]) == [s[0]] + s[1..][..i] + [x] + s[i + 1..];
    }
  }

  lemma {:induction false} InsertAfterConcat(s: seq<PaneNode>, t: seq<PaneNode>, n: PaneNode, x: PaneNode)
    ensures InsertAfter(s + t, n, x) == if n in s then InsertAfter(s, n, x) + t else s + InsertAfter(t, n, x)
  {
    if s == [] {
      assert s + t == t;
    } else {
      assert (s + t)[0] == s[0] && (s + t)[1..] == s[1..] + t;
      InsertAfterConcat(s[1..], t, n, x);
      if s[0] == n {
        assert [n, x] + (s[1..] + t) == ([n, x] + s[1..]) + t;
      } else if n in s[1..] {
        assert [s[0]] + (InsertAfter(s[1..], n, x) + t) == ([s[0]] + InsertAfter(s[1..], n, x)) + t;
      } else {
        assert [s[0]] + (s[1..] + InsertAfter(t, n, x)) == s + InsertAfter(t, n, x);
      }
    }
  }

  /** A split inserts the new leaf directly after its target and disturbs no other leaf. */
  lemma {:induction false} GraftLeaves(sh: Shape, target: PaneNode, branch: PaneNode, leaf: PaneNode)
    requires Distinct(sh) && target in LeafNodes(sh)
    ensures LeafNodes(Graft(sh, target, branch, leaf)) == InsertAfter(LeafNodes(sh), target, leaf)
  {
    if sh.Branch? {
      var s, t := LeafNodes(sh.a), LeafNodes(sh.b);
      LeavesAreNodes(sh.a, target);
      LeavesAreNodes(sh.b, target);
      InsertAfterConcat(s, t, target, leaf);
      if target in s {
        GraftLeaves(sh.a, target, branch, leaf);
        GraftElsewhere(sh.b, target, branch, leaf);
      } else {
        GraftLeaves(sh.b, target, branch, leaf);
        GraftElsewhere(sh.a, target, branch, leaf);
      }
    }
  }

  lemma {:induction false} GraftNodes(sh: Shape, target: PaneNode, branch: PaneNode, leaf: PaneNode)
    requires Distinct(sh) && branch !in Nodes(sh) && leaf !in Nodes(sh) && branch != leaf
    ensures Distinct(Graft(sh, target, branch, leaf))
    ensures Nodes(Graft(sh, target, branch, leaf))
         == Nodes(sh) + if target in LeafNodes(sh) then {branch, leaf} else {}
  {
    if sh.Branch? {
      LeavesAreNodes(sh.a, target);
      LeavesAreNodes(sh.b, target);
      GraftNodes(sh.a, target, branch, leaf);
      GraftNodes(sh.b, target, branch, leaf);
    }
  }

  lemma {:induction false} ParentInside(h: Store, sh: Shape, parent: PaneNode?, n: PaneNode)
    requires Linked(h, sh, parent) && n in Nodes(sh) && n != sh.node
    ensures n in h && h[n].parent != null && h[n].parent in Nodes(sh) && h[n].parent in h
    ensures var p := h[n].parent; h[p].session == null && (h[p].a == n || h[p].b == n)
  {
    LeavesAreNodes(sh.a, n);
    LeavesAreNodes(sh.b, n);
    if n in Nodes(sh.a) {
      if n != sh.a.node {
        ParentInside(h, sh.a, sh.node, n);
      }
    } else if n != sh.b.node {
      ParentInside(h, sh.b, sh.node, n);
    }
  }

  /** The cells splitLeaf writes: the two new nodes, target's parent link, and the old parent's link to target. */
  ghost predicate SplitWrites(h: Store, h': Store, target: PaneNode, branch: PaneNode, leaf: PaneNode) {
    && target in h && branch in h' && leaf in h' && target in h'
    && h'[branch].session == null && h'[branch].a == target && h'[branch].b == leaf
    && h'[branch].parent == h[target].parent
    && h'[leaf].session != null && h'[leaf].a == null && h'[leaf].b == null && h'[leaf].parent == branch
    && h'[target] == h[target].(parent := branch)
    && (forall n | n in h && n != target ::
          && n in h'
          && h'[n] == if n != h[target].parent then h[n]
                      else if h[n].a == target then h[n].(a := branch)
                      else h[n].(b := branch))
  }

  lemma {:induction false} GraftLinked(h: Store, h': Store, sh: Shape, parent: PaneNode?, target: PaneNode,
                                       branch: PaneNode, leaf: PaneNode)
    requires Distinct(sh) && Linked(h, sh, parent) && target in LeafNodes(sh)
    requires branch !in Nodes(sh) && leaf !in Nodes(sh) && (parent != null ==> parent !in Nodes(sh))
    requires SplitWrites(h, h', target, branch, leaf)
    ensures Linked(h', Graft(sh, target, branch, leaf), parent)
  {
    if sh.Branch? {
      LeavesAreNodes(sh.a, target);
      LeavesAreNodes(sh.b, target);
      LeavesAreNodes(sh.a, sh.a.node);
      LeavesAreNodes(sh.b, sh.b.node);
      var inA := target in LeafNodes(sh.a);
      var near, far := if inA then sh.a else sh.b, if inA then sh.b else sh.a;
      if target != near.node {
        ParentInside(h, near, sh.node, target);
      }
      GraftElsewhere(far, target, branch, leaf);
      GraftLinked(h, h', near, sh.node, target, branch, leaf);
      LinkedAgree(h, h', far, sh.node);
    }
  }

  // ------------------------------------------------------------------
  // Removing a leaf
  // ------------------------------------------------------------------

  /** The shape after `leaf` is gone and its sibling has taken its parent's place. */
  ghost function Collapse(sh: Shape, leaf: PaneNode): Shape {
    match sh
    case Leaf(_) => sh
    case Branch(n, a, b) =>
      if a == Leaf(leaf) then b
      else if b == Leaf(leaf) then a
      else Shape.Branch(n, Collapse(a, leaf), Collapse(b, leaf))
  }

  lemma {:induction false} CollapseElsewhere(sh: Shape, leaf: PaneNode)
    requires leaf !in LeafNodes(sh)
    ensures Collapse(sh, leaf) == sh
  {
    if sh.Branch? {
      CollapseElsewhere(sh.a, leaf);
      CollapseElsewhere(sh.b, leaf);
    }
  }

  /** A removal deletes one leaf and keeps the order of the rest. */
  lemma {:induction false} CollapseLeaves(sh: Shape, leaf: PaneNode)
    requires Distinct(sh) && leaf in LeafNodes(sh) && sh != Leaf(leaf)
    ensures LeafNodes(Collapse(sh, leaf)) == RemoveFirst(LeafNodes(sh), leaf)
    ensures Distinct(Collapse(sh, leaf)) && Nodes(Collapse(sh, leaf)) <= Nodes(sh)
    ensures leaf !in Nodes(Collapse(sh, leaf))
  {
    var s, t := LeafNodes(sh.a), LeafNodes(sh.b);
    LeavesAreNodes(sh.a, leaf);
    LeavesAreNodes(sh.b, leaf);
    RemoveFirstConcat(s, t, leaf);
    if leaf in s {
      CollapseElsewhere(sh.b, leaf);
      if sh.a != Leaf(leaf) {
        CollapseLeaves(sh.a, leaf);
      }
    } else {
      CollapseElsewhere(sh.a, leaf);
      if sh.b != Leaf(leaf) {
        CollapseLeaves(sh.b, leaf);
      }
    }
  }

  /** The cells removeLeaf writes: the sibling's parent link, and the grandparent's link to the old parent. */
  ghost predicate CollapseWrites(h: Store, h': Store, leaf: PaneNode) {
    && leaf in h && h[leaf].parent != null && h[leaf].parent in h
    && var parent := h[leaf].parent;
    && var sibling := if h[parent].a == leaf then h[parent].b else h[parent].a;
    && var gp := h[parent].parent;
    && (forall n | n in h ::
          && n in h'
          && h'[n] == if n == sibling then h[n].(parent := gp)
                      else if gp != null && n == gp then
                        if h[n].a == parent then h[n].(a := sibling) else h[n].(b := sibling)
                      else h[n])
  }

  lemma {:induction false} ChildrenInside(h: Store, sh: Shape, parent: PaneNode?, n: PaneNode)
    requires Linked(h, sh, parent) && n in Nodes(sh)
    ensures n in h && (h[n].a != null ==> h[n].a in Nodes(sh)) && (h[n].b != null ==> h[n].b in Nodes(sh))
  {
    if sh.Branch? {
      LeavesAreNodes(sh.a, n);
      LeavesAreNodes(sh.b, n);
      if n in Nodes(sh.a) {
        ChildrenInside(h, sh.a, sh.node, n);
      } else if n in Nodes(sh.b) {
        ChildrenInside(h, sh.b, sh.node, n);
      }
    }
  }

  lemma {:induction false} CollapseLinked(h: Store, h': Store, sh: Shape, parent: PaneNode?, leaf: PaneNode)
    requires Distinct(sh) && Linked(h, sh, parent) && leaf in LeafNodes(sh) && sh != Leaf(leaf)
    requires parent != null ==> parent !in Nodes(sh)
    requires CollapseWrites(h, h', leaf)
    ensures Linked(h', Collapse(sh, leaf), parent)
  {
    LeavesAreNodes(sh.a, leaf);
    LeavesAreNodes(sh.b, leaf);
    LeavesAreNodes(sh.a, sh.a.node);
    LeavesAreNodes(sh.b, sh.b.node);
    var inA := leaf in LeafNodes(sh.a);
    var near, far := if inA then sh.a else sh.b, if inA then sh.b else sh.a;
    CollapseElsewhere(far, leaf);
    if near == Leaf(leaf) {
      SiblingLinked(h, h', far, sh.node, parent);
    } else {
      WritesInside(h, near, sh.node, leaf);
      CollapseLinked(h, h', near, sh.node, leaf);
      LinkedAgree(h, h', far, sh.node);
    }
  }

  /** When the leaf is strictly inside sh, everything removeLeaf writes is inside sh or its parent's link to it. */
  lemma WritesInside(h: Store, sh: Shape, parent: PaneNode?, leaf: PaneNode)
    requires Distinct(sh) && Linked(h, sh, parent) && leaf in LeafNodes(sh) && sh != Leaf(leaf)
    ensures leaf in h && h[leaf].parent != null && h[leaf].parent in Nodes(sh) && h[leaf].parent in h
    ensures h[h[leaf].parent].a in Nodes(sh) && h[h[leaf].parent].b in Nodes(sh)
    ensures if h[leaf].parent == sh.node then h[h[leaf].parent].parent == parent
            else h[h[leaf].parent].parent in Nodes(sh)
    ensures h[leaf].parent == sh.node ==>
              Collapse(sh, leaf).node == if h[sh.node].a == leaf then h[sh.node].b else h[sh.node].a
    ensures h[leaf].parent != sh.node ==> Collapse(sh, leaf).node == sh.node
  {
    LeavesAreNodes(sh.a, leaf);
    LeavesAreNodes(sh.b, leaf);
    LeavesAreNodes(sh.a, sh.a.node);
    LeavesAreNodes(sh.b, sh.b.node);
    ParentInside(h, sh, parent, leaf);
    ChildrenInside(h, sh, parent, h[leaf].parent);
    LeafOrNot(h, sh, leaf);
    if h[leaf].parent != sh.node {
      ParentInside(h, sh, parent, h[leaf].parent);
    }
  }

  /** The leaf hangs directly under sh exactly when it is one of sh's two halves. */
  lemma LeafOrNot(h: Store, sh: Shape, leaf: PaneNode)
    requires sh.Branch? && Distinct(sh) && leaf in LeafNodes(sh)
    requires Linked(h, sh.a, sh.node) && Linked(h, sh.b, sh.node)
    ensures leaf in h
    ensures h[leaf].parent == sh.node <==> sh.a == Leaf(leaf) || sh.b == Leaf(leaf)
  {
    var near := if leaf in LeafNodes(sh.a) then sh.a else sh.b;
    LeavesAreNodes(sh.a, leaf);
    LeavesAreNodes(sh.b, leaf);
    if near != Leaf(leaf) {
      LeavesAreNodes(near.a, leaf);
      LeavesAreNodes(near.b, leaf);
      ParentInside(h, near, sh.node, leaf);
    }
  }

  /** Moving a subtree under another parent changes only its top cell. */
  lemma SiblingLinked(h: Store, h': Store, sh: Shape, parent: PaneNode?, parent': PaneNode?)
    requires Linked(h, sh, parent) && Distinct(sh)
    requires forall n | n in Nodes(sh) && n in h ::
               n in h' && h'[n] == if n == sh.node then h[n].(parent := parent') else h[n]
    ensures Linked(h', sh, parent')
  {
    if sh.Branch? {
      LeavesAreNodes(sh.a, sh.a.node);
      LeavesAreNodes(sh.b, sh.b.node);
      LinkedAgree(h, h', sh.a, sh.node);
      LinkedAgree(h, h', sh.b, sh.node);
    }
  }

  /** The half that survives when `leaf` is removed. */
  ghost function SiblingOf(sh: Shape, leaf: PaneNode): Shape {
    match sh
    case Leaf(_) => sh
    case Branch(_, a, b) =>
      if a == Leaf(leaf) then b
      else if b == Leaf(leaf) then a
      else if leaf in LeafNodes(a) then SiblingOf(a, leaf)
      else SiblingOf(b, leaf)
  }

  lemma {:induction false} SiblingFound(h: Store, sh: Shape, parent: PaneNode?, leaf: PaneNode)
    requires Distinct(sh) && Linked(h, sh, parent) && leaf in LeafNodes(sh) && sh != Leaf(leaf)
    ensures leaf in h && h[leaf].parent != null && h[leaf].parent in h
    ensures var p, sib := h[leaf].parent, SiblingOf(sh, leaf);
            && sib.node == (if h[p].a == leaf then h[p].b else h[p].a)
            && Linked(h, sib, p) && Nodes(sib) <= Nodes(sh) && leaf !in Nodes(sib)
            && (forall n | n in LeafNodes(sib) :: n in LeafNodes(Collapse(sh, leaf)))
  {
    LeavesAreNodes(sh.a, leaf);
    LeavesAreNodes(sh.b, leaf);
    LeavesAreNodes(sh.a, sh.a.node);
    LeavesAreNodes(sh.b, sh.b.node);
    if sh.a != Leaf(leaf) && sh.b != Leaf(leaf) {
      var near := if leaf in LeafNodes(sh.a) then sh.a else sh.b;
      SiblingFound(h, near, sh.node, leaf);
    }
  }

  lemma {:induction false} CollapseKeepsOthers(sh: Shape, leaf: PaneNode, n: PaneNode)
    requires n in LeafNodes(sh) && n != leaf
    ensures n in LeafNodes(Collapse(sh, leaf))
  {
    if sh.Branch? {
      if n in LeafNodes(sh.a) {
        CollapseKeepsOthers(sh.a, leaf, n);
      } else {
        CollapseKeepsOthers(sh.b, leaf, n);
      }
    }
  }

  /** The first node of s that hosts st, or null. */
  ghost function FirstHost(h: Store, s: seq<PaneNode>, st: SessionTab): PaneNode? {
    if s == [] then null
    else if s[0] in h && h[s[0]].session == st then s[0]
    else FirstHost(h, s[1..], st)
  }

  /** It hosts st, no node before it does, and there is none only if no node does. */
  lemma {:induction false} FirstHostMeans(h: Store, s: seq<PaneNode>, st: SessionTab)
    ensures FirstHost(h, s, st) == null ==> forall n | n in s && n in h :: h[n].session != st
    ensures FirstHost(h, s, st) != null ==>
              FirstHost(h, s, st) in s && FirstHost(h, s, st) in h && h[FirstHost(h, s, st)].session == st
    ensures FirstHost(h, s, st) != null ==>
              forall i, j | 0 <= i < j < |s| && s[j] == FirstHost(h, s, st) && s[i] in h && h[s[i]].session == st ::
                exists k :: 0 <= k <= i && s[k] == s[j]
  {
    if s != [] {
      FirstHostMeans(h, s[1..], st);
      var f := FirstHost(h, s, st);
      if f != null {
        forall i, j | 0 <= i < j < |s| && s[j] == f && s[i] in h && h[s[i]].session == st
          ensures exists k :: 0 <= k <= i && s[k] == s[j]
        {
          if s[0] == f {
            assert s[0] == s[j];
          } else {
            assert s[1..][j - 1] == f && s[1..][i - 1] == s[i];
            var k :| 0 <= k <= i - 1 && s[1..][k] == s[1..][j - 1];
            assert s[k + 1] == s[j];
          }
        }
      }
    }
  }

  /** The leaves host the sessions, position by position. */
  ghost predicate Hosts(leaves: seq<PaneNode>, sessions: seq<SessionTab>)
    reads set n | n in leaves
  {
    |leaves| == |sessions| && forall i | 0 <= i < |leaves| :: leaves[i].session == sessions[i]
  }

  class PaneGroup {
    var root: PaneNode?
    var active: PaneNode?
    ghost var shape: Option<Shape>
    ghost var nodes: set<PaneNode>

    constructor ()
      ensures Valid() && shape == None && nodes == {}
    {
      root := null;
      active := null;
      shape := None;
      nodes := {};
    }

    /** The leaves in left-to-right order. */
    ghost function LeafSeq(): seq<PaneNode>
      reads this
    {
      if shape.None? then [] else LeafNodes(shape.value)
    }

    /**
     * The nodes form a heap-disjoint full binary tree with correct parent links, and `active` is one of its
     * leaves; it is null only when the group is empty.
     */
    ghost predicate Valid()
      reads this, nodes
    {
      match shape
      case None => root == null && active == null && nodes == {}
      case Some(sh) =>
        && root == sh.node
        && nodes == Nodes(sh)
        && Distinct(sh)
        && Linked(Heap(nodes), sh, null)
        && active != null && active in LeafNodes(sh)
    }

    method Leaves() returns (out: seq<PaneNode>)
      requires Valid()
      ensures out == LeafSeq()
    {
      if root == null {
        return [];
      }
      out := WalkLeaves(root, shape.value, null, nodes);
    }

    /** The leaf hosting st, or null. */
    method LeafFor(st: SessionTab) returns (leaf: PaneNode?)
      requires Valid()
      ensures leaf == FirstHost(Heap(nodes), LeafSeq(), st)
    {
      var leaves := Leaves();
      var i := 0;
      assert leaves[0..] == leaves;
      while i < |leaves|
        invariant 0 <= i <= |leaves|
        invariant FirstHost(Heap(nodes), leaves[i..], st) == FirstHost(Heap(nodes), leaves, st)
      {
        assert leaves[i..][0] == leaves[i] && leaves[i..][1..] == leaves[i + 1..];
        LeavesAreNodes(shape.value, leaves[i]);
        if leaves[i].session == st {
          return leaves[i];
        }
        i := i + 1;
      }
      return null;
    }

    /** Replaces the leaf `target` by a branch over it and a new leaf hosting newSt. */
    method SplitLeaf(target: PaneNode?, newSt: SessionTab, orientation: string) returns (newLeaf: PaneNode?)
      requires Valid()
      requires target != null && target.IsLeaf() ==> target in LeafSeq()
      modifies this, nodes
      ensures Valid()
      ensures newLeaf == null <==> target == null || !old(target.IsLeaf())
      ensures newLeaf == null ==> unchanged(this) && unchanged(old(nodes))
      ensures newLeaf != null ==>
                && fresh(newLeaf) && newLeaf.session == newSt && active == newLeaf
                && LeafSeq() == InsertAfter(old(LeafSeq()), target, newLeaf)
                && (forall n | n in old(nodes) :: n.session == old(n.session))
                && newLeaf.parent == target.parent
                && target.parent != null && target.parent.a == target && target.parent.b == newLeaf
                && target.parent.orientation == (if orientation == "v" then "v" else "h")
                && shape == Some(Graft(old(shape).value, target, target.parent, newLeaf))
                && (forall n | n in old(nodes) :: n.orientation == old(n.orientation))
    {
      hide *;
      if target == null || !target.IsLeaf() {
        return null;
      }
      SplitReady(target);
      ghost var sh := shape.value;
      ghost var h := Heap(nodes);
      var o := if orientation != "h" && orientation != "v" then "h" else orientation;
      newLeaf := new PaneNode.Leaf(newSt);
      var branch := new PaneNode.Branch(o, target, newLeaf, target.parent);
      newLeaf.parent := branch;
      PlaceBranch(target, branch, newLeaf);
      active := newLeaf;
      ghost var h' := Heap(nodes + {branch, newLeaf});
      SplitDone(h, h', sh, target, branch, newLeaf);
      shape := Some(Graft(sh, target, branch, newLeaf));
      nodes := nodes + {branch, newLeaf};
      ValidFrom(Graft(sh, target, branch, newLeaf));
    }

    /** What Valid says about a leaf about to be split. */
    lemma SplitReady(target: PaneNode)
      requires Valid() && target in LeafSeq()
      ensures shape.Some? && Distinct(shape.value) && Linked(Heap(nodes), shape.value, null)
      ensures root == shape.value.node && nodes == Nodes(shape.value)
      ensures target in nodes && target in LeafNodes(shape.value) && LeafSeq() == LeafNodes(shape.value)
      ensures target.parent == null <==> target == shape.value.node
      ensures var p := target.parent;
              p != null ==> p in nodes && p != target && (p.a == target || p.b == target)
    {
      hide Graft, SiblingOf, Collapse;
      var sh := shape.value;
      LeavesAreNodes(sh, target);
      LeafHosts(Heap(nodes), sh, null, target);
      if target != sh.node {
        ParentInside(Heap(nodes), sh, null, target);
      }
    }

    lemma ValidFrom(sh: Shape)
      requires shape == Some(sh) && root == sh.node && nodes == Nodes(sh) && Distinct(sh)
      requires Linked(Heap(nodes), sh, null) && active != null && active in LeafNodes(sh)
      ensures Valid() && LeafSeq() == LeafNodes(sh)
    {
      hide Linked, Distinct, Nodes, LeafNodes;
    }

    /** The links splitLeaf rewrites: the branch takes the target's place below the target's old parent. */
    method PlaceBranch(target: PaneNode, branch: PaneNode, newLeaf: PaneNode)
      requires target in nodes && branch !in nodes && newLeaf !in nodes && branch != newLeaf
      requires branch.session == null && branch.a == target && branch.b == newLeaf && branch.parent == target.parent
      requires newLeaf.session != null && newLeaf.a == null && newLeaf.b == null && newLeaf.parent == branch
      requires var p := target.parent;
               p != null ==> p in nodes && p != target && (p.a == target || p.b == target)
      modifies `root, nodes
      ensures SplitWrites(old(Heap(nodes)), Heap(nodes + {branch, newLeaf}), target, branch, newLeaf)
      ensures root == if old(target.parent) == null then branch else old(root)
      ensures forall n | n in nodes :: n.session == old(n.session) && n.orientation == old(n.orientation)
      ensures target.parent == branch
    {
      var up := target.parent;
      if up == null {
        root := branch;
      } else {
        if up.a == target {
          up.a := branch;
        } else {
          up.b := branch;
        }
      }
      target.parent := branch;
    }

    /** Removes the first leaf hosting st; its sibling takes the place of their parent. */
    method RemoveLeaf(st: SessionTab) returns (ok: bool, emptyTab: bool)
      requires Valid()
      modifies this, nodes
      ensures Valid()
      ensures ok <==> old(FirstHost(Heap(nodes), LeafSeq(), st)) != null
      ensures !ok ==> !emptyTab && unchanged(this) && unchanged(old(nodes))
      ensures ok ==> LeafSeq() == RemoveFirst<PaneNode>(old(LeafSeq()), old(FirstHost(Heap(nodes), LeafSeq(), st)))
      ensures ok ==> (emptyTab <==> |old(LeafSeq())| == 1) && (emptyTab <==> shape == None)
      ensures ok && !emptyTab ==>
                shape == Some(Collapse(old(shape).value, old(FirstHost(Heap(nodes), LeafSeq(), st))))
      ensures forall n | n in old(nodes) :: n.orientation == old(n.orientation)
      ensures ok && old(active) != old(FirstHost(Heap(nodes), LeafSeq(), st)) ==> active == old(active)
      ensures ok && !emptyTab && old(active) == old(FirstHost(Heap(nodes), LeafSeq(), st)) ==>
                active == LeafNodes(SiblingOf(old(shape).value, old(active)))[0]
      ensures nodes <= old(nodes) && forall n | n in old(nodes) :: n.session == old(n.session)
    {
      hide *;
      FirstHostMeans(Heap(nodes), LeafSeq(), st);
      var leaf := LeafFor(st);
      if leaf == null {
        return false, false;
      }
      RemoveReady(leaf);
      ghost var sh := shape.value;
      ghost var h := Heap(nodes);
      var parent := leaf.parent;
      if parent == null {
        root := null;
        active := null;
        shape := None;
        nodes := {};
        ValidEmpty();
        return true, true;
      }
      var sibling := LiftSibling(leaf, parent);
      ghost var h' := Heap(nodes);
      RemovalDone(h, h', sh, leaf);
      shape := Some(Collapse(sh, leaf));
      if active == leaf {
        active := FirstLeaf(sibling, SiblingOf(sh, leaf), parent.parent, nodes);
      }
      HeapNarrows(nodes, Nodes(Collapse(sh, leaf)), Collapse(sh, leaf), null);
      nodes := Nodes(Collapse(sh, leaf));
      ValidFrom(Collapse(sh, leaf));
      return true, false;
    }

    /**
     * Rebuilds the group from a saved layout: the merge into one tab happens only when at least two of the
     * saved sessions are open again and the first of them has a tab, which then hosts the others' panes too.
     */
    method RestoreLayout(saved: Saved, sessionByConn: map<string, SessionTab>) returns (restored: bool)
      requires Valid()
      modifies this, sessionByConn.Values
      ensures Valid()
      ensures restored <==> old(var members := Reopened(Collected(saved), sessionByConn);
                                |members| >= 2 && members[0] in members && members[0].tabItem != null)
      ensures restored ==> forall st | st in sessionByConn.Values ::
                st.tabItem == old(var members := Reopened(Collected(saved), sessionByConn);
                                  if st in members && st.tabItem != null then members[0].tabItem else st.tabItem)
      ensures !restored ==> unchanged(this) && unchanged(sessionByConn.Values)
      ensures restored ==> fresh(nodes) && shape.Some? && active == LeafSeq()[0]
      ensures restored ==> Some(View(Heap(nodes), shape.value, null)) == Rebuilt(saved, sessionByConn)
      ensures restored ==> Hosts(LeafSeq(), Reopened(Collected(saved), sessionByConn))
    {
      hide *;
      var connIDs := Collect(saved);
      if |connIDs| < 2 {
        ReopenedShorter(connIDs, sessionByConn);
        return false;
      }
      var members := Members(connIDs, sessionByConn);
      if |members| < 2 {
        return false;
      }
      assert members[0] in members;
      var hostTab := members[0].tabItem;
      if hostTab == null {
        return false;
      }
      Gather(members, hostTab);
      Rebuild(saved, sessionByConn);
      return true;
    }

    /**
     * Saving a split pane and restoring it while all its sessions are open: the restored group shows the very pane,
     * unless its first session has no tab to gather the others in.
     */
    method RestoreSaved(p: Pane, sessionByConn: map<string, SessionTab>) returns (restored: bool)
      requires Valid() && p.Split?
      requires forall st | st in Sessions(p) ::
                 st.connID != "" && st.connID in sessionByConn && sessionByConn[st.connID] == st
      modifies this, sessionByConn.Values
      ensures Valid()
      ensures restored <==> old(Sessions(p)[0] in Sessions(p) && Sessions(p)[0].tabItem != null)
      ensures !restored ==> unchanged(this) && unchanged(sessionByConn.Values)
      ensures restored ==> shape.Some? && View(Heap(nodes), shape.value, null) == p && Hosts(LeafSeq(), Sessions(p))
      ensures restored ==> forall st | st in Sessions(p) && old(st.tabItem) != null ::
                st.tabItem == old(Sessions(p)[0].tabItem)
    {
      SaveRestore(p, sessionByConn);
      RebuiltMembers(SavedOf(p), sessionByConn);
      AtLeastTwo(p);
      assert forall st | st in Sessions(p) :: st in sessionByConn.Values;
      hide *;
      restored := RestoreLayout(SavedOf(p), sessionByConn);
    }

    /** The sessions that are open again, in saved order. */
    static method Members(connIDs: seq<string>, sessionByConn: map<string, SessionTab>)
      returns (members: seq<SessionTab>)
      ensures members == Reopened(connIDs, sessionByConn)
    {
      hide *;
      members := [];
      NothingReopened(sessionByConn);
      assert connIDs[..0] == [];
      for i := 0 to |connIDs|
        invariant members == Reopened(connIDs[..i], sessionByConn)
      {
        ReopenedStep(connIDs, sessionByConn, i);
        if connIDs[i] in sessionByConn {
          members := members + [sessionByConn[connIDs[i]]];
        }
      }
      assert connIDs[..|connIDs|] == connIDs;
    }

    /** Builds the tree of the sessions that are open again and makes its first leaf the active one. */
    method Rebuild(saved: Saved, sessionByConn: map<string, SessionTab>)
      requires |Reopened(Collected(saved), sessionByConn)| >= 2
      modifies this
      ensures Valid() && fresh(nodes) && shape.Some? && active == LeafSeq()[0]
      ensures Some(View(Heap(nodes), shape.value, null)) == Rebuilt(saved, sessionByConn)
      ensures Hosts(LeafSeq(), Reopened(Collected(saved), sessionByConn))
    {
      hide *;
      RebuiltMembers(saved, sessionByConn);
      var top, sh, ns := Build(saved, sessionByConn);
      root := top;
      active := FirstLeaf(top, sh.value, null, ns);
      shape := sh;
      nodes := ns;
      LeafOfShape(sh.value);
      ValidFrom(sh.value);
      RestoredLeaves(saved, sessionByConn);
    }

    /** Moves every session that has a tab to the tab of the host. */
    static method Gather(members: seq<SessionTab>, hostTab: TabItem)
      requires members != [] && members[0].tabItem == hostTab
      modifies members
      ensures forall st | st in members :: st.tabItem == if old(st.tabItem) == null then null else hostTab
    {
      for i := 1 to |members|
        invariant forall st | st in members ::
                    st.tabItem == if st in members[..i] && old(st.tabItem) != null then hostTab else old(st.tabItem)
      {
        var st := members[i];
        assert members[..i + 1] == members[..i] + [st];
        if st.tabItem == null || st.tabItem == hostTab {
          continue;
        }
        st.tabItem := hostTab;
      }
      assert members[..|members|] == members;
    }

    /** The leaves are exactly the saved sessions that are open again, in the saved order. */
    lemma RestoredLeaves(saved: Saved, open: map<string, SessionTab>)
      requires Valid() && shape.Some? && Some(View(Heap(nodes), shape.value, null)) == Rebuilt(saved, open)
      ensures Hosts(LeafSeq(), Reopened(Collected(saved), open))
    {
      hide Distinct, View, Rebuilt, Reopened, Collected, Sessions;
      RebuiltMembers(saved, open);
      ViewSessions(Heap(nodes), shape.value, null);
    }

    lemma ValidEmpty()
      requires shape == None && root == null && active == null && nodes == {}
      ensures Valid() && LeafSeq() == []
    {
    }

    /** What Valid says about a leaf about to be removed. */
    lemma RemoveReady(leaf: PaneNode)
      requires Valid() && leaf in LeafSeq()
      ensures shape.Some? && Distinct(shape.value) && Linked(Heap(nodes), shape.value, null)
      ensures root == shape.value.node && nodes == Nodes(shape.value)
      ensures leaf in nodes && leaf in LeafNodes(shape.value) && LeafSeq() == LeafNodes(shape.value)
      ensures active in LeafNodes(shape.value)
      ensures leaf.parent == null <==> shape.value == Leaf(leaf)
      ensures leaf.parent != null <==> |LeafNodes(shape.value)| > 1
      ensures leaf.parent == null ==> LeafSeq() == [leaf] && RemoveFirst(LeafSeq(), leaf) == []
      ensures var p := leaf.parent;
              p != null ==>
                var sib := if p.a == leaf then p.b else p.a;
                && p in nodes && sib != null && sib in nodes && sib != p && sib != leaf
                && sib == SiblingOf(shape.value, leaf).node && leaf in Heap(nodes) && p in Heap(nodes)
                && Heap(nodes)[leaf].parent == p && Heap(nodes)[p].parent == p.parent
                && (p.parent == null <==> p == shape.value.node)
                && (p.parent != null ==> p.parent in nodes && p.parent != sib && p.parent != p)
    {
      var sh := shape.value;
      LeavesAreNodes(sh, leaf);
      if leaf.parent == null {
        OnlyLeaf(Heap(nodes), sh, leaf);
      } else {
        RemovalReady(Heap(nodes), sh, leaf);
      }
    }

    /** The links removeLeaf rewrites: the sibling takes the place of the removed leaf's parent. */
    method LiftSibling(leaf: PaneNode, parent: PaneNode) returns (sibling: PaneNode)
      requires leaf in nodes && leaf.parent == parent && parent in nodes
      requires var sib := if parent.a == leaf then parent.b else parent.a;
               && sib != null && sib in nodes && sib != parent && sib != leaf
               && (parent.parent != null ==> parent.parent in nodes && parent.parent != sib && parent.parent != parent)
      modifies `root, nodes
      ensures sibling == old(if parent.a == leaf then parent.b else parent.a)
      ensures CollapseWrites(old(Heap(nodes)), Heap(nodes), leaf)
      ensures root == if old(parent.parent) == null then sibling else old(root)
      ensures forall n | n in nodes :: n.session == old(n.session) && n.orientation == old(n.orientation)
      ensures parent.parent == old(parent.parent)
    {
      sibling := if parent.a == leaf then parent.b else parent.a;
      var gp := parent.parent;
      sibling.parent := gp;
      if gp == null {
        root := sibling;
      } else {
        if gp.a == parent {
          gp.a := sibling;
        } else {
          gp.b := sibling;
        }
      }
    }
  }

  /** A smaller heap that still covers the shape's nodes realises the shape. */
  lemma HeapNarrows(wide: set<PaneNode>, narrow: set<PaneNode>, sh: Shape, parent: PaneNode?)
    requires Linked(Heap(wide), sh, parent) && Nodes(sh) <= narrow <= wide
    ensures Linked(Heap(narrow), sh, parent)
  {
    hide Linked, Nodes;
    LinkedAgree(Heap(wide), Heap(narrow), sh, parent);
  }

  /** The recursive walk behind leaves(). */
  method WalkLeaves(n: PaneNode?, ghost sh: Shape, ghost parent: PaneNode?, ghost ns: set<PaneNode>)
    returns (out: seq<PaneNode>)
    requires n == sh.node && Nodes(sh) <= ns && Linked(Heap(ns), sh, parent)
    ensures out == LeafNodes(sh)
    decreases sh
  {
    if n == null {
      return [];
    }
    if n.IsLeaf() {
      return [n];
    }
    var left := WalkLeaves(n.a, sh.a, n, ns);
    var right := WalkLeaves(n.b, sh.b, n, ns);
    return left + right;
  }

  /** The leftmost leaf: `pick` in removeLeaf and `firstLeaf` in restorePaneLayouts. */
  method FirstLeaf(n: PaneNode?, ghost sh: Shape, ghost parent: PaneNode?, ghost ns: set<PaneNode>)
    returns (leaf: PaneNode?)
    requires n == sh.node && Nodes(sh) <= ns && Linked(Heap(ns), sh, parent)
    ensures leaf == LeafNodes(sh)[0]
    decreases sh
  {
    if n == null {
      return null;
    }
    if n.IsLeaf() {
      return n;
    }
    // A full binary tree has a leaf on its left, so the source's fallback to the right is never reached.
    leaf := FirstLeaf(n.a, sh.a, n, ns);
    if leaf == null {
      assert false;
    }
  }

  lemma {:induction false} InsertedIn(s: seq<PaneNode>, n: PaneNode, x: PaneNode)
    requires n in s
    ensures x in InsertAfter(s, n, x)
  {
    if s[0] != n {
      InsertedIn(s[1..], n, x);
    }
  }

  lemma SplitDone(h: Store, h': Store, sh: Shape, target: PaneNode, branch: PaneNode, leaf: PaneNode)
    requires Distinct(sh) && Linked(h, sh, null) && target in LeafNodes(sh)
    requires branch !in Nodes(sh) && leaf !in Nodes(sh) && branch != leaf
    requires SplitWrites(h, h', target, branch, leaf)
    ensures var g := Graft(sh, target, branch, leaf);
            && Distinct(g) && Linked(h', g, null)
            && Nodes(g) == Nodes(sh) + {branch, leaf}
            && LeafNodes(g) == InsertAfter(LeafNodes(sh), target, leaf) && leaf in LeafNodes(g)
            && g.node == (if target == sh.node then branch else sh.node)
  {
    GraftNodes(sh, target, branch, leaf);
    GraftLeaves(sh, target, branch, leaf);
    GraftLinked(h, h', sh, null, target, branch, leaf);
    InsertedIn(LeafNodes(sh), target, leaf);
    if sh.Branch? {
      LeavesAreNodes(sh.a, target);
      LeavesAreNodes(sh.b, target);
    }
  }

  /** A leaf without a parent is the whole tree. */
  lemma OnlyLeaf(h: Store, sh: Shape, leaf: PaneNode)
    requires Distinct(sh) && Linked(h, sh, null) && leaf in LeafNodes(sh) && leaf in h && h[leaf].parent == null
    ensures sh == Leaf(leaf)
  {
    LeavesAreNodes(sh, leaf);
    if leaf != sh.node {
      ParentInside(h, sh, null, leaf);
    } else if sh.Branch? {
      LeavesAreNodes(sh.a, leaf);
      LeavesAreNodes(sh.b, leaf);
    }
  }

  /** What removeLeaf finds around a leaf that has a parent. */
  lemma RemovalReady(h: Store, sh: Shape, leaf: PaneNode)
    requires Distinct(sh) && Linked(h, sh, null) && leaf in LeafNodes(sh) && sh != Leaf(leaf)
    ensures leaf in h && h[leaf].parent != null && h[leaf].parent in Nodes(sh) && h[leaf].parent in h
    ensures var p := h[leaf].parent;
            var sibling := if h[p].a == leaf then h[p].b else h[p].a;
            && sibling != null && sibling in Nodes(sh) && sibling == SiblingOf(sh, leaf).node
            && sibling != leaf && sibling != p
            && (h[p].parent == null <==> p == sh.node)
            && (h[p].parent != null ==> h[p].parent in Nodes(sh) && h[p].parent != sibling && h[p].parent != p)
    ensures |LeafNodes(sh)| > 1
  {
    WritesInside(h, sh, null, leaf);
    SiblingFound(h, sh, null, leaf);
    LeavesAreNodes(SiblingOf(sh, leaf), SiblingOf(sh, leaf).node);
    NodeNotAncestor(h, sh, null, leaf);
  }

  /** Parent, grandparent and sibling of a leaf are different nodes. */
  lemma {:induction false} NodeNotAncestor(h: Store, sh: Shape, parent: PaneNode?, leaf: PaneNode)
    requires Distinct(sh) && Linked(h, sh, parent) && leaf in LeafNodes(sh) && sh != Leaf(leaf)
    requires parent != null ==> parent !in Nodes(sh)
    ensures leaf in h && h[leaf].parent != null && h[leaf].parent in h
    ensures var p, sib := h[leaf].parent, SiblingOf(sh, leaf).node;
            && sib != p && p in Nodes(sh) && sib in Nodes(sh)
            && (h[p].parent == parent <==> p == sh.node)
            && (h[p].parent != null ==> h[p].parent != sib && h[p].parent != p)
  {
    LeavesAreNodes(sh.a, leaf);
    LeavesAreNodes(sh.b, leaf);
    LeavesAreNodes(sh.a, sh.a.node);
    LeavesAreNodes(sh.b, sh.b.node);
    if sh.a != Leaf(leaf) && sh.b != Leaf(leaf) {
      var near := if leaf in LeafNodes(sh.a) then sh.a else sh.b;
      NodeNotAncestor(h, near, sh.node, leaf);
      WritesInside(h, sh, parent, leaf);
    }
  }

  lemma RemovalDone(h: Store, h': Store, sh: Shape, leaf: PaneNode)
    requires Distinct(sh) && Linked(h, sh, null) && leaf in LeafNodes(sh) && sh != Leaf(leaf)
    requires CollapseWrites(h, h', leaf)
    ensures var c, sib := Collapse(sh, leaf), SiblingOf(sh, leaf);
            && Distinct(c) && Linked(h', c, null) && Nodes(c) <= Nodes(sh)
            && LeafNodes(c) == RemoveFirst(LeafNodes(sh), leaf)
            && (forall n | n in LeafNodes(sh) && n != leaf :: n in LeafNodes(c))
            && (forall n | n in LeafNodes(sib) :: n in LeafNodes(c))
            && Linked(h', sib, h[h[leaf].parent].parent) && Nodes(sib) <= Nodes(sh)
            && c.node == (if h[leaf].parent == sh.node then sib.node else sh.node)
  {
    CollapseLeaves(sh, leaf);
    CollapseLinked(h, h', sh, null, leaf);
    SiblingFound(h, sh, null, leaf);
    SiblingDistinct(sh, leaf);
    NodeNotAncestor(h, sh, null, leaf);
    WritesInside(h, sh, null, leaf);
    AncestorsOutsideSibling(h, sh, null, leaf);
    SiblingLinked(h, h', SiblingOf(sh, leaf), h[leaf].parent, h[h[leaf].parent].parent);
    forall n | n in LeafNodes(sh) && n != leaf
      ensures n in LeafNodes(Collapse(sh, leaf))
    {
      CollapseKeepsOthers(sh, leaf, n);
    }
  }

  lemma {:induction false} SiblingDistinct(sh: Shape, leaf: PaneNode)
    requires Distinct(sh)
    ensures Distinct(SiblingOf(sh, leaf))
  {
    if sh.Branch? {
      SiblingDistinct(sh.a, leaf);
      SiblingDistinct(sh.b, leaf);
    }
  }

  /** The sibling's subtree contains neither the parent nor the grandparent. */
  lemma {:induction false} AncestorsOutsideSibling(h: Store, sh: Shape, parent: PaneNode?, leaf: PaneNode)
    requires Distinct(sh) && Linked(h, sh, parent) && leaf in LeafNodes(sh) && sh != Leaf(leaf)
    requires parent != null ==> parent !in Nodes(sh)
    ensures leaf in h && h[leaf].parent != null && h[leaf].parent in h
    ensures var p, ns := h[leaf].parent, Nodes(SiblingOf(sh, leaf));
            p !in ns && ns <= Nodes(sh) && (h[p].parent != null ==> h[p].parent !in ns)
  {
    LeavesAreNodes(sh.a, leaf);
    LeavesAreNodes(sh.b, leaf);
    LeavesAreNodes(sh.a, sh.a.node);
    LeavesAreNodes(sh.b, sh.b.node);
    if sh.a != Leaf(leaf) && sh.b != Leaf(leaf) {
      var near := if leaf in LeafNodes(sh.a) then sh.a else sh.b;
      AncestorsOutsideSibling(h, near, sh.node, leaf);
    }
  }

  // ------------------------------------------------------------------
  // Saving and restoring a layout
  // ------------------------------------------------------------------

  /** A persisted pane: a leaf names its connection, a branch has an orientation and two halves. */
  datatype Saved = Nil | Saved(connID: string, orientation: string, a: Saved, b: Saved)

  /** A pane tree as a value: what the screen shows, without the links. */
  datatype Pane = Single(session: SessionTab) | Split(orientation: string, a: Pane, b: Pane)

  ghost function View(h: Store, sh: Shape, parent: PaneNode?): Pane
    requires Linked(h, sh, parent)
  {
    match sh
    case Leaf(n) => Single(h[n].session)
    case Branch(n, a, b) => Split(h[n].orientation, View(h, a, n), View(h, b, n))
  }

  function Sessions(p: Pane): (r: seq<SessionTab>)
    ensures |r| > 0
  {
    match p
    case Single(st) => [st]
    case Split(_, a, b) => Sessions(a) + Sessions(b)
  }

  function SavedOf(p: Pane): Saved {
    match p
    case Single(st) => Saved.Saved(st.connID, "", Nil, Nil)
    case Split(o, a, b) => Saved.Saved("", o, SavedOf(a), SavedOf(b))
  }

  /** The connections a saved layout names, left to right. */
  function Collected(s: Saved): seq<string> {
    match s
    case Nil => []
    case Saved(connID, _, a, b) => if connID != "" then [connID] else Collected(a) + Collected(b)
  }

  /** The open sessions of a list of connections, in order. */
  function Reopened(ids: seq<string>, open: map<string, SessionTab>): (r: seq<SessionTab>)
    ensures forall st | st in r :: st in open.Values
  {
    if ids == [] then []
    else (if ids[0] in open then [open[ids[0]]] else []) + Reopened(ids[1..], open)
  }

  /** The pane a saved layout rebuilds to; a half with nothing open gives way to the other half. */
  function Rebuilt(s: Saved, open: map<string, SessionTab>): Option<Pane> {
    match s
    case Nil => None
    case Saved(connID, o, a, b) =>
      if connID != "" then
        if connID in open then Some(Single(open[connID])) else None
      else
        match (Rebuilt(a, open), Rebuilt(b, open))
        case (None, right) => right
        case (left, None) => left
        case (Some(left), Some(right)) => Some(Split(o, left, right))
  }

  lemma {:induction false} ReopenedConcat(s: seq<string>, t: seq<string>, open: map<string, SessionTab>)
    ensures Reopened(s + t, open) == Reopened(s, open) + Reopened(t, open)
  {
    if s == [] {
      assert s + t == t;
    } else {
      assert (s + t)[1..] == s[1..] + t;
      ReopenedConcat(s[1..], t, open);
    }
  }

  lemma {:induction false} ReopenedShorter(s: seq<string>, open: map<string, SessionTab>)
    ensures |Reopened(s, open)| <= |s|
  {
    if s != [] {
      ReopenedShorter(s[1..], open);
    }
  }

  lemma NothingReopened(open: map<string, SessionTab>)
    ensures Reopened([], open) == []
  {
  }

  lemma ReopenedStep(s: seq<string>, open: map<string, SessionTab>, i: nat)
    requires i < |s|
    ensures Reopened(s[..i + 1], open)
         == Reopened(s[..i], open) + if s[i] in open then [open[s[i]]] else []
  {
    assert s[..i + 1] == s[..i] + [s[i]];
    ReopenedConcat(s[..i], [s[i]], open);
  }

  /** A rebuilt pane shows exactly the saved sessions that are open, in the saved order. */
  lemma {:induction false} RebuiltMembers(s: Saved, open: map<string, SessionTab>)
    ensures Reopened(Collected(s), open)
         == if Rebuilt(s, open).None? then [] else Sessions(Rebuilt(s, open).value)
  {
    if s.Saved? && s.connID == "" {
      RebuiltMembers(s.a, open);
      RebuiltMembers(s.b, open);
      ReopenedConcat(Collected(s.a), Collected(s.b), open);
    }
  }

  /** Every session of p has a connection ID under which it is open. */
  predicate AllOpen(p: Pane, open: map<string, SessionTab>) {
    forall st | st in Sessions(p) :: st.connID != "" && st.connID in open && open[st.connID] == st
  }

  lemma {:induction false} RebuiltNoLarger(p: Pane, open: map<string, SessionTab>)
    ensures Rebuilt(SavedOf(p), open).Some? ==> |Sessions(Rebuilt(SavedOf(p), open).value)| <= |Sessions(p)|
  {
    if p.Split? {
      RebuiltNoLarger(p.a, open);
      RebuiltNoLarger(p.b, open);
    }
  }

  /**
   * Saving a pane tree and restoring it gives the same tree exactly when every session in it is open again under
   * its own, non-empty connection ID. A pane whose session has no connection ID is lost.
   */
  lemma {:induction false} SaveRestore(p: Pane, open: map<string, SessionTab>)
    ensures Rebuilt(SavedOf(p), open) == Some(p) <==> AllOpen(p, open)
  {
    if p.Split? {
      SaveRestore(p.a, open);
      SaveRestore(p.b, open);
      RebuiltNoLarger(p.a, open);
      RebuiltNoLarger(p.b, open);
    } else {
      assert p.session in Sessions(p);
    }
  }

  lemma AtLeastTwo(p: Pane)
    requires p.Split?
    ensures |Sessions(p)| >= 2
  {
  }

  /** q is p without some of its leaves, each gap closed by the other half; every other leaf is what `open` has. */
  ghost predicate Thinned(q: Pane, p: Pane, open: map<string, SessionTab>) {
    match p
    case Single(st) => st.connID in open && q == Single(open[st.connID])
    case Split(o, a, b) =>
      || (q.Split? && q.orientation == o && Thinned(q.a, a, open) && Thinned(q.b, b, open))
      || Thinned(q, a, open)
      || Thinned(q, b, open)
  }

  /**
   * When only some sessions are open again, the restored pane is the saved one without the others: which leaves it
   * has is what RestoredInOrder says, and how they are split is what it was.
   */
  lemma {:induction false} RestoredSplits(p: Pane, open: map<string, SessionTab>)
    ensures Rebuilt(SavedOf(p), open).Some? ==> Thinned(Rebuilt(SavedOf(p), open).value, p, open)
  {
    if p.Split? {
      RestoredSplits(p.a, open);
      RestoredSplits(p.b, open);
    } else {
      assert Rebuilt(Nil, open) == None;
    }
  }

  /** The leaves of the restored pane are the sessions open under the saved IDs, all of them, in the saved order. */
  lemma RestoredInOrder(p: Pane, open: map<string, SessionTab>) returns (at: seq<nat>)
    requires forall st | st in Sessions(p) :: st.connID != ""
    ensures var r := Rebuilt(SavedOf(p), open);
            |at| == if r.None? then 0 else |Sessions(r.value)|
    ensures forall k | 0 <= k < |at| ::
              && at[k] < |Sessions(p)| && Sessions(p)[at[k]].connID in open
              && Sessions(Rebuilt(SavedOf(p), open).value)[k] == open[Sessions(p)[at[k]].connID]
    ensures forall j, k | 0 <= j < k < |at| :: at[j] < at[k]
    ensures forall i: nat | i < |Sessions(p)| && Sessions(p)[i].connID in open :: i in at
  {
    RebuiltMembers(SavedOf(p), open);
    CollectedInOrder(p);
    hide Rebuilt, Reopened, Collected, Sessions, SavedOf;
    at := ReopenedInOrder(Collected(SavedOf(p)), open);
  }

  lemma {:induction false} CollectedInOrder(p: Pane)
    requires forall st | st in Sessions(p) :: st.connID != ""
    ensures |Collected(SavedOf(p))| == |Sessions(p)|
    ensures forall i | 0 <= i < |Sessions(p)| :: Collected(SavedOf(p))[i] == Sessions(p)[i].connID
  {
    if p.Split? {
      assert forall st | st in Sessions(p.a) || st in Sessions(p.b) :: st in Sessions(p);
      CollectedInOrder(p.a);
      CollectedInOrder(p.b);
    } else {
      assert p.session in Sessions(p);
    }
  }

  lemma {:induction false} ReopenedInOrder(ids: seq<string>, open: map<string, SessionTab>) returns (at: seq<nat>)
    ensures |at| == |Reopened(ids, open)|
    ensures forall k | 0 <= k < |at| ::
              at[k] < |ids| && ids[at[k]] in open && Reopened(ids, open)[k] == open[ids[at[k]]]
    ensures forall j, k | 0 <= j < k < |at| :: at[j] < at[k]
    ensures forall i: nat | i < |ids| && ids[i] in open :: i in at
  {
    NothingReopened(open);
    assert ids[..0] == [];
    hide Reopened;
    at := [];
    for n := 0 to |ids|
      invariant |at| == |Reopened(ids[..n], open)|
      invariant forall k | 0 <= k < |at| ::
                  at[k] < n && ids[at[k]] in open && Reopened(ids[..n], open)[k] == open[ids[at[k]]]
      invariant forall j, k | 0 <= j < k < |at| :: at[j] < at[k]
      invariant forall i: nat | i < n && ids[i] in open :: i in at
    {
      ReopenedStep(ids, open, n);
      if ids[n] in open {
        at := at + [n];
      }
    }
    assert ids[..|ids|] == ids;
  }

  lemma {:induction false} ViewSessions(h: Store, sh: Shape, parent: PaneNode?)
    requires Linked(h, sh, parent)
    ensures |Sessions(View(h, sh, parent))| == |LeafNodes(sh)|
    ensures forall i | 0 <= i < |LeafNodes(sh)| ::
              LeafNodes(sh)[i] in h && Sessions(View(h, sh, parent))[i] == h[LeafNodes(sh)[i]].session
  {
    if sh.Branch? {
      ViewSessions(h, sh.a, sh.node);
      ViewSessions(h, sh.b, sh.node);
    }
  }

  lemma LeafOfShape(sh: Shape)
    ensures LeafNodes(sh)[0] in LeafNodes(sh)
  {
  }

  method Collect(n: Saved) returns (connIDs: seq<string>)
    ensures connIDs == Collected(n)
  {
    if n.Nil? {
      return [];
    }
    if n.connID != "" {
      return [n.connID];
    }
    var left := Collect(n.a);
    var right := Collect(n.b);
    return left + right;
  }

  /** snapshotPaneTree: the saved form of a live tree. */
  method Snapshot(n: PaneNode?, ghost sh: Shape, ghost parent: PaneNode?, ghost ns: set<PaneNode>)
    returns (saved: Saved)
    requires n == sh.node && Nodes(sh) <= ns && Linked(Heap(ns), sh, parent)
    ensures saved == SavedOf(View(Heap(ns), sh, parent))
    decreases sh
  {
    if n == null {
      return Nil;
    }
    if n.IsLeaf() {
      return Saved.Saved(n.session.connID, "", Nil, Nil);
    }
    var a := Snapshot(n.a, sh.a, n, ns);
    var b := Snapshot(n.b, sh.b, n, ns);
    return Saved.Saved("", n.orientation, a, b);
  }

  lemma {:induction false} ViewAgree(h: Store, h': Store, sh: Shape, parent: PaneNode?, parent': PaneNode?)
    requires Linked(h, sh, parent) && Linked(h', sh, parent')
    requires forall n | n in Nodes(sh) && n in h ::
               n in h' && h'[n].session == h[n].session && h'[n].orientation == h[n].orientation
    ensures View(h, sh, parent) == View(h', sh, parent')
  {
    if sh.Branch? {
      ViewAgree(h, h', sh.a, sh.node, sh.node);
      ViewAgree(h, h', sh.b, sh.node, sh.node);
    } else {
      assert sh.node in Nodes(sh);
    }
  }

  /** The link step of `build`: a new branch over two separate trees. */
  method Join(orientation: string, a: PaneNode, b: PaneNode, ghost sa: Shape, ghost sb: Shape)
    returns (branch: PaneNode)
    requires a == sa.node && b == sb.node && Distinct(sa) && Distinct(sb) && Nodes(sa) !! Nodes(sb)
    requires Linked(Heap(Nodes(sa)), sa, null) && Linked(Heap(Nodes(sb)), sb, null)
    modifies a, b
    ensures fresh(branch)
    ensures var sh := Shape.Branch(branch, sa, sb);
            && Distinct(sh) && Linked(Heap(Nodes(sh)), sh, null)
            && View(Heap(Nodes(sh)), sh, null)
            == Split(orientation, old(View(Heap(Nodes(sa)), sa, null)), old(View(Heap(Nodes(sb)), sb, null)))
  {
    LeavesAreNodes(sa, a);
    LeavesAreNodes(sb, b);
    ghost var ha, hb := Heap(Nodes(sa)), Heap(Nodes(sb));
    branch := new PaneNode.Branch(orientation, a, b, null);
    a.parent := branch;
    b.parent := branch;
    ghost var h := Heap(Nodes(Shape.Branch(branch, sa, sb)));
    JoinLinked(ha, hb, h, sa, sb, branch);
  }

  lemma JoinLinked(ha: Store, hb: Store, h: Store, sa: Shape, sb: Shape, branch: PaneNode)
    requires Linked(ha, sa, null) && Linked(hb, sb, null) && Distinct(sa) && Distinct(sb)
    requires branch !in Nodes(sa) && branch !in Nodes(sb) && branch in h && h[branch].parent == null
    requires h[branch].session == null && h[branch].a == sa.node && h[branch].b == sb.node
    requires forall n | n in Nodes(sa) && n in ha ::
               n in h && h[n] == if n == sa.node then ha[n].(parent := branch) else ha[n]
    requires forall n | n in Nodes(sb) && n in hb ::
               n in h && h[n] == if n == sb.node then hb[n].(parent := branch) else hb[n]
    ensures Linked(h, Shape.Branch(branch, sa, sb), null)
    ensures View(h, Shape.Branch(branch, sa, sb), null)
         == Split(h[branch].orientation, View(ha, sa, null), View(hb, sb, null))
  {
    SiblingLinked(ha, h, sa, null, branch);
    SiblingLinked(hb, h, sb, null, branch);
    ViewAgree(ha, h, sa, null, branch);
    ViewAgree(hb, h, sb, null, branch);
  }

  /** The recursive rebuild of restorePaneLayouts: fresh nodes only, with their links in place. */
  method Build(n: Saved, sessionByConn: map<string, SessionTab>)
    returns (root: PaneNode?, ghost sh: Option<Shape>, ghost ns: set<PaneNode>)
    ensures root == null <==> Rebuilt(n, sessionByConn).None?
    ensures fresh(ns)
    ensures root != null ==>
              && sh.Some? && sh.value.node == root && ns == Nodes(sh.value) && Distinct(sh.value)
              && Linked(Heap(ns), sh.value, null)
              && Some(View(Heap(ns), sh.value, null)) == Rebuilt(n, sessionByConn)
  {
    if n.Nil? {
      return null, None, {};
    }
    if n.connID != "" {
      if n.connID !in sessionByConn {
        return null, None, {};
      }
      root := new PaneNode.Leaf(sessionByConn[n.connID]);
      return root, Some(Leaf(root)), {root};
    }
    var a, sa, nsA := Build(n.a, sessionByConn);
    var b, sb, nsB := Build(n.b, sessionByConn);
    if a == null && b == null {
      return null, None, {};
    }
    if a == null {
      return b, sb, nsB;
    }
    if b == null {
      return a, sa, nsA;
    }
    LeavesAreNodes(sa.value, a);
    LeavesAreNodes(sb.value, b);
    root := Join(n.orientation, a, b, sa.value, sb.value);
    sh := Some(Shape.Branch(root, sa.value, sb.value));
    ns := Nodes(sh.value);
  }
}
