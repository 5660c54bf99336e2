// What each edit of the tree (internal/domain/tree.go, AddFolder to Remove)
// does, node by node and list by list: when it succeeds, which error it gives
// otherwise, what has changed afterwards and what has not.
module Edits {
  import opened Lists
  import opened Identifiers
  import opened Ancestry
  import opened Forests

  /** Every node of m but x is in n as it was, and the other way round. */
  ghost predicate SameBut(m: Entries, n: Entries, x: ID) {
    forall y | y != x :: (y in n <==> y in m) && (y in m && y in n ==> n[y] == m[y])
  }

  /** Apart from the lists of p and q, every list is as it was. */
  ghost predicate SameListsBut(ix: Index, jx: Index, p: ID, q: ID) {
    forall k | k != p && k != q :: Children(jx, k) == Children(ix, k)
  }

  /** A node is added exactly when it has a new, non-nil ID and a parent; it then stands last among its siblings. */
  lemma AddExactly(s: Forest, node: Node)
    ensures var e, outcome, t := node.entry, OpOutcome(s, Add(node)), Step(s, Add(node));
            var known := e.id in s.folders || e.id in s.connections;
            var placed := e.parent == NIL_ID || e.parent in s.folders;
            && (outcome == Done <==> e.id != NIL_ID && !known && placed)
            && (outcome == Failed(IdRequired) <==> e.id == NIL_ID)
            && (outcome == Failed(DuplicateId) <==> e.id != NIL_ID && known)
            && (outcome == Failed(NotFound) <==> e.id != NIL_ID && !known && !placed && node.FolderNode?)
            && (outcome == Failed(ParentNotFolder) <==> e.id != NIL_ID && !known && !placed && node.ConnectionNode?)
            && (outcome != Done ==> t == s)
    ensures var e, t := node.entry, Step(s, Add(node));
            OpOutcome(s, Add(node)) == Done && node.FolderNode? ==>
              && e.id in t.folders && t.folders[e.id] == e && SameBut(s.folders, t.folders, e.id)
              && Children(t.folderChildren, e.parent) == Children(s.folderChildren, e.parent) + [e.id]
              && SameListsBut(s.folderChildren, t.folderChildren, e.parent, e.parent)
              && t.connections == s.connections && t.connectionChildren == s.connectionChildren
    ensures var e, t := node.entry, Step(s, Add(node));
            OpOutcome(s, Add(node)) == Done && node.ConnectionNode? ==>
              && e.id in t.connections && t.connections[e.id] == e && SameBut(s.connections, t.connections, e.id)
              && Children(t.connectionChildren, e.parent) == Children(s.connectionChildren, e.parent) + [e.id]
              && SameListsBut(s.connectionChildren, t.connectionChildren, e.parent, e.parent)
              && t.folders == s.folders && t.folderChildren == s.folderChildren
  {
  }

  /** The node has moved: its parent is `to`, nothing else about it or any other node is different. */
  ghost predicate Reparented(m: Entries, n: Entries, id: ID, to: ID) {
    && id in m && id in n && SameBut(m, n, id)
    && n[id].parent == to && n[id].id == m[id].id && n[id].name == m[id].name && n[id].payload == m[id].payload
  }

  /** It stands last among its new siblings and no longer among the old ones; everybody else keeps their place. */
  ghost predicate PlacedLast(ix: Index, jx: Index, id: ID, from: ID, to: ID) {
    && SameListsBut(ix, jx, from, to)
    && (from != to ==> Children(jx, from) == RemoveFirst(Children(ix, from), id))
    && Children(jx, to)
       == (if from == to then RemoveFirst(Children(ix, to), id) else Children(ix, to)) + [id]
  }

  /**
   * A move succeeds exactly when the node is in the tree, the new parent is the root or a folder, and the node is not
   * a folder that the new parent is or lies below. It then changes the parent of this one node and its place in the
   * lists; otherwise it changes nothing.
   */
  lemma MoveExactly(s: Forest, id: ID, to: ID, stale: multiset<ID>)
    requires Consistent(s, stale)
    ensures var outcome, t := OpOutcome(s, Move(id, to)), Step(s, Move(id, to));
            var known, placed := id in s.folders || id in s.connections, to == NIL_ID || to in s.folders;
            var above := id in s.folders && Under(ParentsOf(s.folders), to, id);
            && (outcome == Done <==> known && placed && !above)
            && (outcome == Failed(Cycle) <==> known && placed && above)
            && (outcome == Failed(ParentNotFolder) <==> id != NIL_ID && !placed)
            && (outcome == Failed(NotFound) <==> id == NIL_ID || (placed && !known))
            && (outcome != Done ==> t == s)
    ensures var t := Step(s, Move(id, to));
            OpOutcome(s, Move(id, to)) == Done && id in s.folders ==>
              && Reparented(s.folders, t.folders, id, to)
              && PlacedLast(s.folderChildren, t.folderChildren, id, s.folders[id].parent, to)
              && t.connections == s.connections && t.connectionChildren == s.connectionChildren
    ensures var t := Step(s, Move(id, to));
            OpOutcome(s, Move(id, to)) == Done && id in s.connections ==>
              && Reparented(s.connections, t.connections, id, to)
              && PlacedLast(s.connectionChildren, t.connectionChildren, id, s.connections[id].parent, to)
              && t.folders == s.folders && t.folderChildren == s.folderChildren
    ensures OpOutcome(s, Move(id, to)) == Done ==> Consistent(Step(s, Move(id, to)), stale)
  {
    StepConsistent(s, Move(id, to), stale);
    assert stale + multiset{} == stale;
    NilIsNoNode(s, stale);
    hide Consistent, Under, Relisted, PlacedLast, Reparented, ParentsOf;
    if id in s.folders {
      ReparentedEntry(s.folders, id, to);
      RelistedLast(s.folderChildren, s.folders[id].parent, to, id);
    } else if id in s.connections {
      ReparentedEntry(s.connections, id, to);
      RelistedLast(s.connectionChildren, s.connections[id].parent, to, id);
    }
  }

  lemma NilIsNoNode(s: Forest, stale: multiset<ID>)
    requires Consistent(s, stale)
    ensures NIL_ID !in s.folders && NIL_ID !in s.connections && s.folders.Keys !! s.connections.Keys
    ensures forall x :: !(x in s.folders && x in s.connections)
  {
    hide Indexed, IsForest, Located;
  }

  lemma ReparentedEntry(m: Entries, id: ID, to: ID)
    requires id in m
    ensures Reparented(m, m[id := m[id].(parent := to)], id, to)
  {
  }

  lemma RelistedLast(ix: Index, from: ID, to: ID, id: ID)
    ensures PlacedLast(ix, Relisted(ix, from, to, id), id, from, to)
  {
    hide RemoveFirst;
  }

  /** The folder is gone with all folders below it and the connections in them; the rest is as it was, in its place. */
  ghost predicate SubtreeGone(s: Forest, t: Forest, id: ID)
    requires id in s.folders
  {
    var par, p := ParentsOf(s.folders), s.folders[id].parent;
    && (forall x :: x in t.folders <==> x in s.folders && !Under(par, x, id))
    && (forall c :: c in t.connections <==> c in s.connections && !Under(par, s.connections[c].parent, id))
    && (forall x | x in t.folders :: t.folders[x] == s.folders[x])
    && (forall c | c in t.connections :: t.connections[c] == s.connections[c])
    && (forall k | k == NIL_ID || k in t.folders ::
          && Children(t.connectionChildren, k) == Children(s.connectionChildren, k)
          && Children(t.folderChildren, k)
             == if k == p then RemoveFirst(Children(s.folderChildren, k), id) else Children(s.folderChildren, k))
  }

  /** The connection is gone, and from its parent's list unless that is the root's; nothing else has changed. */
  ghost predicate ConnectionGone(s: Forest, t: Forest, id: ID)
    requires id in s.connections
  {
    var p := s.connections[id].parent;
    && id !in t.connections && SameBut(s.connections, t.connections, id)
    && t.folders == s.folders && t.folderChildren == s.folderChildren
    && forall k ::
         Children(t.connectionChildren, k)
         == if k == p && k != NIL_ID then RemoveFirst(Children(s.connectionChildren, k), id)
            else Children(s.connectionChildren, k)
  }

  /** A removal succeeds exactly for the nodes of the tree, and takes exactly what it names and what lies below. */
  lemma RemoveExactly(s: Forest, id: ID, stale: multiset<ID>)
    requires Consistent(s, stale)
    ensures var known := id in s.folders || id in s.connections;
            && (OpOutcome(s, Remove(id)) == Done <==> known)
            && (OpOutcome(s, Remove(id)) == Failed(NotFound) <==> !known)
            && (!known ==> Step(s, Remove(id)) == s)
    ensures id in s.folders ==> SubtreeGone(s, Step(s, Remove(id)), id)
    ensures id in s.connections ==> ConnectionGone(s, Step(s, Remove(id)), id)
  {
    NilIsNoNode(s, stale);
    hide Consistent, SubtreeGone, ConnectionGone, Pruned;
    if id in s.folders {
      FolderGone(s, id, stale);
    } else if id in s.connections {
      OneConnectionGone(s, id);
    }
  }

  lemma OneConnectionGone(s: Forest, id: ID)
    requires id in s.connections && id !in s.folders
    ensures ConnectionGone(s, Pruned(s, id), id)
  {
    hide RemoveFirst, Doomed;
  }

  lemma FolderGone(s: Forest, id: ID, stale: multiset<ID>)
    requires Consistent(s, stale) && id in s.folders
    ensures SubtreeGone(s, Pruned(s, id), id)
  {
    RemovedBelow(s, id, stale);
    hide Consistent, Doomed, Under, RemoveFirst;
    var t, p := Pruned(s, id), s.folders[id].parent;
    forall k | k == NIL_ID || k in t.folders
      ensures Children(t.connectionChildren, k) == Children(s.connectionChildren, k)
      ensures Children(t.folderChildren, k)
           == if k == p then RemoveFirst(Children(s.folderChildren, k), id) else Children(s.folderChildren, k)
    {
    }
  }

  lemma RemovedBelow(s: Forest, id: ID, stale: multiset<ID>)
    requires Consistent(s, stale) && id in s.folders
    ensures forall x :: x in s.folders && x !in Doomed(s, id) <==> x in s.folders && !Under(ParentsOf(s.folders), x, id)
    ensures forall c | c in s.connections ::
              s.connections[c].parent in Doomed(s, id) <==> Under(ParentsOf(s.folders), s.connections[c].parent, id)
    ensures s.folders[id].parent !in Doomed(s, id) && NIL_ID !in Doomed(s, id)
  {
    hide Indexed;
    var par := ParentsOf(s.folders);
    ParentNotUnderChild(par, id);
    UnderStep(par, NIL_ID, id);
  }
}
