// The mutable Tree of internal/domain/tree.go. Every method is tied to the
// value-level edit of module Forests, whose invariants hold over whole runs.
module Trees {
  import opened Lists
  import opened Identifiers
  import opened Ancestry
  import opened Forests
  import opened Walks
  import opened Snapshots

  class Tree {
    var folders: Entries
    var connections: Entries
    var folderChildren: Index
    var connectionChildren: Index

    ghost function View(): Forest
      reads this
    {
      Forest(folders, connections, folderChildren, connectionChildren)
    }

    constructor ()
      ensures View() == EMPTY_FOREST
    {
      folders := map[];
      connections := map[];
      folderChildren := map[];
      connectionChildren := map[];
    }

    method AddFolder(f: Entry) returns (r: Outcome)
      modifies this
      ensures r == OpOutcome(old(View()), Add(FolderNode(f)))
      ensures View() == Step(old(View()), Add(FolderNode(f)))
    {
      if f.id == NIL_ID {
        return Failed(IdRequired);
      }
      if f.id in folders {
        return Failed(DuplicateId);
      }
      if f.id in connections {
        return Failed(DuplicateId);
      }
      if f.parent != NIL_ID && f.parent !in folders {
        return Failed(NotFound);
      }
      folders := folders[f.id := f];
      folderChildren := folderChildren[f.parent := Children(folderChildren, f.parent) + [f.id]];
      return Done;
    }

    method AddConnection(c: Entry) returns (r: Outcome)
      modifies this
      ensures r == OpOutcome(old(View()), Add(ConnectionNode(c)))
      ensures View() == Step(old(View()), Add(ConnectionNode(c)))
    {
      if c.id == NIL_ID {
        return Failed(IdRequired);
      }
      if c.id in connections {
        return Failed(DuplicateId);
      }
      if c.id in folders {
        return Failed(DuplicateId);
      }
      if c.parent != NIL_ID && c.parent !in folders {
        return Failed(ParentNotFolder);
      }
      connections := connections[c.id := c];
      connectionChildren := connectionChildren[c.parent := Children(connectionChildren, c.parent) + [c.id]];
      return Done;
    }

    /** Is maybeChild the folder `ancestor` or transitively below it? Climbs parent links until the root. */
    method IsDescendantFolder(maybeChild: ID, ancestor: ID) returns (r: bool)
      requires IsForest(ParentsOf(folders))
      requires maybeChild == NIL_ID || maybeChild in folders
      ensures r <==> maybeChild != NIL_ID && ancestor != NIL_ID && Under(ParentsOf(folders), maybeChild, ancestor)
    {
      if maybeChild == NIL_ID || ancestor == NIL_ID {
        return false;
      }
      ghost var par := ParentsOf(folders);
      var cur := maybeChild;
      UnderSelf(par, NIL_ID);
      assert Rooted(par, cur);
      ghost var left: nat :| Climb(par, cur, NIL_ID, left);
      while cur != NIL_ID
        invariant Climb(par, cur, NIL_ID, left)
        invariant Under(par, maybeChild, ancestor) <==> Under(par, cur, ancestor)
        decreases left
      {
        UnderStep(par, cur, ancestor);
        if cur == ancestor {
          return true;
        }
        if cur !in folders {
          return false;
        }
        cur := folders[cur].parent;
        left := left - 1;
      }
      UnderStep(par, NIL_ID, ancestor);
      return false;
    }

    method Move(id: ID, newParent: ID, ghost stale: multiset<ID>) returns (r: Outcome)
      requires Consistent(View(), stale)
      modifies this
      ensures r == OpOutcome(old(View()), Forests.Move(id, newParent))
      ensures View() == Step(old(View()), Forests.Move(id, newParent))
    {
      if id == NIL_ID {
        return Failed(NotFound);
      }
      if newParent != NIL_ID && newParent !in folders {
        return Failed(ParentNotFolder);
      }
      if id in folders {
        UnderSelf(ParentsOf(folders), id);
        UnderStep(ParentsOf(folders), newParent, id);
        if newParent == id {
          return Failed(Cycle);
        }
        var below := IsDescendantFolder(newParent, id);
        if below {
          return Failed(Cycle);
        }
        var f := folders[id];
        var siblings := RemoveID(Children(folderChildren, f.parent), id);
        folderChildren := folderChildren[f.parent := siblings];
        folders := folders[id := f.(parent := newParent)];
        folderChildren := folderChildren[newParent := Children(folderChildren, newParent) + [id]];
        return Done;
      }
      if id in connections {
        var c := connections[id];
        var siblings := RemoveID(Children(connectionChildren, c.parent), id);
        connectionChildren := connectionChildren[c.parent := siblings];
        connections := connections[id := c.(parent := newParent)];
        connectionChildren := connectionChildren[newParent := Children(connectionChildren, newParent) + [id]];
        return Done;
      }
      return Failed(NotFound);
    }

    /** Deletes a node; a folder goes with everything under it, subfolder by subfolder. */
    method Remove(id: ID, ghost stale: multiset<ID>) returns (r: Outcome)
      requires Consistent(View(), stale)
      modifies this
      ensures r == OpOutcome(old(View()), Forests.Remove(id))
      ensures View() == Step(old(View()), Forests.Remove(id))
      decreases Doomed(View(), id)
    {
      if id == NIL_ID {
        return Failed(NotFound);
      }
      if id in folders {
        ghost var s := View();
        var parent := folders[id].parent;
        var conns := Children(connectionChildren, id);
        DropConnections(conns);
        connectionChildren := connectionChildren - {id};
        var subs := Children(folderChildren, id);
        ghost var dead: set<ID> := {};
        PeelStart(s, id, stale, View());
        var i := 0;
        while i < |subs|
          invariant 0 <= i <= |subs|
          invariant Peeled(s, id, stale, subs, i, dead, View())
        {
          ghost var t := View();
          PeelNext(s, id, stale, subs, i, dead, t);
          var err := Remove(subs[i], stale);
          if err.Failed? {
            return err;
          }
          PeelStep(s, id, stale, subs, i, dead, t, View());
          dead := dead + Doomed(s, subs[i]);
          i := i + 1;
        }
        PeelEnd(s, id, stale, subs, dead, View());
        folderChildren := folderChildren - {id};
        var siblings := RemoveID(Children(folderChildren, parent), id);
        folderChildren := folderChildren[parent := siblings];
        folders := folders - {id};
        return Done;
      }
      if id in connections {
        var c := connections[id];
        if c.parent != NIL_ID {
          var siblings := RemoveID(Children(connectionChildren, c.parent), id);
          connectionChildren := connectionChildren[c.parent := siblings];
        }
        connections := connections - {id};
        return Done;
      }
      return Failed(NotFound);
    }

    method DropConnections(ids: seq<ID>)
      modifies this`connections
      ensures connections == old(connections) - (set x | x in ids)
    {
      var i := 0;
      while i < |ids|
        invariant 0 <= i <= |ids|
        invariant connections == old(connections) - (set x | x in ids[..i])
      {
        connections := connections - {ids[i]};
        assert ids[..i + 1] == ids[..i] + [ids[i]];
        i := i + 1;
      }
      assert ids[..i] == ids;
    }

    /** The folders above a node, root first. */
    method Ancestors(id: ID, ghost stale: multiset<ID>) returns (found: bool, path: seq<Entry>)
      requires Consistent(View(), stale)
      ensures found <==> id in folders || id in connections
      ensures found ==> IsPathTo(folders, if id in folders then folders[id].parent else connections[id].parent, path)
      ensures !found ==> path == []
    {
      if id !in folders && id !in connections {
        return false, [];
      }
      ghost var par := ParentsOf(folders);
      var parent := if id in folders then folders[id].parent else connections[id].parent;
      ghost var start := parent;
      path := [];
      UnderSelf(par, NIL_ID);
      if id in folders {
        RootedParent(par, id);
      }
      assert Rooted(par, parent);
      ghost var left: nat :| Climb(par, parent, NIL_ID, left);
      assert forall tail: seq<Entry> :: tail + path == tail;
      while parent != NIL_ID
        invariant Climb(par, parent, NIL_ID, left)
        invariant forall tail :: IsPathTo(folders, parent, tail) ==> IsPathTo(folders, start, tail + path)
        decreases left
      {
        var f := folders[parent];
        forall tail | IsPathTo(folders, f.parent, tail)
          ensures IsPathTo(folders, start, tail + ([f] + path))
        {
          assert tail + [f] + path == tail + ([f] + path);
          assert IsPathTo(folders, parent, tail + [f]);
        }
        path := [f] + path;
        parent := f.parent;
        left := left - 1;
      }
      assert IsPathTo(folders, NIL_ID, []);
      assert [] + path == path;
      found := true;
    }

    /** The nodes in walk order, and whether a stale root entry cuts the walk short. */
    method Walk(ghost stale: multiset<ID>) returns (v: seq<Node>, ending: Ending)
      requires Consistent(View(), stale)
      ensures (v, ending) == Walked(View())
    {
      v, ending := WalkFrom(NIL_ID, stale);
    }

    /** What the walk needs of a reachable tree. */
    lemma WalkReady(stale: multiset<ID>, p: ID)
      requires Consistent(View(), stale)
      ensures Walkable(folders, connections)
      ensures SnapshotOf(folders, Children(folderChildren, p)) == (Arrangement(folders, p), Complete)
      ensures p != NIL_ID ==> WalkedFrom(View(), p) == (Visits(folders, connections, p), Complete)
    {
      IndexedLevel(folders, folderChildren, multiset{}, p);
      ExactSnapshot(folders, folderChildren, p);
      if p != NIL_ID {
        IndexedLevel(connections, connectionChildren, stale, p);
        ExactWalk(View(), p);
      }
    }

    method WalkFrom(parent: ID, ghost stale: multiset<ID>) returns (v: seq<Node>, ending: Ending)
      requires Consistent(View(), stale)
      ensures (v, ending) == WalkedFrom(View(), parent)
      decreases Below(ParentsOf(folders), parent)
    {
      hide Consistent, IsForest, Located, Indexed, Visits, VisitFolders, VisitConnections, Arrangement, Below;
      hide WalkedFrom;
      WalkReady(stale, parent);
      WalkedIs(View(), parent);
      var folderIDs;
      folderIDs, ending := Snapshot(folders, folderChildren, parent);
      v := [];
      var i := 0;
      assert folderIDs[0..] == folderIDs;
      while i < |folderIDs|
        invariant 0 <= i <= |folderIDs| && ending == Complete
        invariant v + VisitFolders(folders, connections, parent, folderIDs[i..])
               == VisitFolders(folders, connections, parent, folderIDs)
      {
        BelowShrinks(ParentsOf(folders), folderIDs[i]);
        WalkReady(stale, folderIDs[i]);
        var sub;
        sub, ending := WalkFrom(folderIDs[i], stale);
        VisitNext(folders, connections, parent, folderIDs, i, v);
        hide *;
        v := v + [FolderNode(folders[folderIDs[i]])] + sub;
        i := i + 1;
      }
      assert folderIDs[i..] == [] && v + [] == v;
      var connIDs;
      connIDs, ending := Snapshot(connections, connectionChildren, parent);
      if ending != Complete {
        return;
      }
      var conns := ConnectionsOf(connections, connIDs);
      v := v + conns;
    }
  }

  lemma WalkedIs(s: Forest, p: ID)
    requires Walkable(s.folders, s.connections)
    ensures var folderPart := VisitFolders(s.folders, s.connections, p, Arrangement(s.folders, p));
            var (list, ending) := SnapshotOf(s.connections, Children(s.connectionChildren, p));
            WalkedFrom(s, p)
            == if ending == Complete then (folderPart + VisitConnections(s.connections, list), Complete)
               else (folderPart, ending)
    ensures VisitFolders(s.folders, s.connections, p, []) == []
  {
  }

  lemma VisitNext(fs: Entries, cs: Entries, p: ID, list: seq<ID>, i: nat, v: seq<Node>)
    requires Walkable(fs, cs) && i < |list|
    requires forall i | 0 <= i < |list| :: list[i] in fs && fs[list[i]].parent == p
    ensures v + VisitFolders(fs, cs, p, list[i..])
         == v + [FolderNode(fs[list[i]])] + Visits(fs, cs, list[i]) + VisitFolders(fs, cs, p, list[i + 1..])
  {
    var a, b, c := [FolderNode(fs[list[i]])], Visits(fs, cs, list[i]), VisitFolders(fs, cs, p, list[i + 1..]);
    assert list[i..][0] == list[i] && list[i..][1..] == list[i + 1..];
    assert VisitFolders(fs, cs, p, list[i..]) == a + b + c;
    hide *;
    assert v + (a + b + c) == v + a + b + c;
  }

  method ConnectionsOf(cs: Entries, list: seq<ID>) returns (v: seq<Node>)
    requires forall i | 0 <= i < |list| :: list[i] in cs
    ensures v == VisitConnections(cs, list)
  {
    v := [];
    var i := 0;
    while i < |list|
      invariant 0 <= i <= |list|
      invariant v == VisitConnections(cs, list)[..i]
    {
      v := v + [ConnectionNode(cs[list[i]])];
      i := i + 1;
    }
  }

  /** removeID: the list without the first occurrence of id. */
  method RemoveID(slice: seq<ID>, id: ID) returns (r: seq<ID>)
    ensures r == RemoveFirst(slice, id)
  {
    var i := 0;
    assert slice[..0] == [] && slice[0..] == slice;
    assert [] + RemoveFirst(slice, id) == RemoveFirst(slice, id);
    hide RemoveFirst;
    while i < |slice|
      invariant 0 <= i <= |slice|
      invariant RemoveFirst(slice, id) == slice[..i] + RemoveFirst(slice[i..], id)
    {
      RemoveNext(slice, id, i);
      if slice[i] == id {
        return slice[..i] + slice[i + 1..];
      }
      i := i + 1;
    }
    RemoveFromNothing(id);
    assert slice[i..] == [] && slice[..i] + [] == slice;
    return slice;
  }

  lemma RemoveFromNothing(id: ID)
    ensures RemoveFirst([], id) == []
  {
  }

  lemma RemoveNext(slice: seq<ID>, id: ID, i: nat)
    requires i < |slice|
    ensures slice[..i] + RemoveFirst(slice[i..], id)
         == if slice[i] == id then slice[..i] + slice[i + 1..]
            else slice[..i + 1] + RemoveFirst(slice[i + 1..], id)
  {
    var rest, more := slice[i..], slice[i + 1..];
    assert rest[0] == slice[i] && rest[1..] == more;
    if slice[i] != id {
      var r := RemoveFirst(more, id);
      hide RemoveFirst;
      assert slice[..i] + ([slice[i]] + r) == slice[..i + 1] + r;
    }
  }

  /** One child list, copied and sorted as the walk does it. */
  method Snapshot(m: Entries, ix: Index, parent: ID) returns (ids: seq<ID>, ending: Ending)
    ensures (ids, ending) == SnapshotOf(m, Children(ix, parent))
  {
    ids := Children(ix, parent);
    var known := true;
    for i := 0 to |ids|
      invariant known <==> AllKnown(m, ids[..i])
    {
      if ids[i] !in m {
        assert ids[..i + 1][i] == ids[i];
        known := false;
      }
    }
    assert ids[..|ids|] == ids;
    if known {
      ids, ending := SortIds(m, ids), Complete;
    } else if |ids| >= 2 {
      ids, ending := [], Crash;
    } else {
      ending := NilNode;
    }
  }

  /** path runs from the root down to the folder `to`. */
  ghost predicate IsPathTo(folders: Entries, to: ID, path: seq<Entry>)
    decreases |path|
  {
    if path == [] then to == NIL_ID
    else
      var last := path[|path| - 1];
      to != NIL_ID && to in folders && folders[to] == last && IsPathTo(folders, last.parent, path[..|path| - 1])
  }

  /** Folder i of the path hangs under folder i - 1, the first one under the root. */
  ghost predicate Steps(folders: Entries, path: seq<Entry>, i: nat)
    requires i < |path|
  {
    && path[i].id in folders && folders[path[i].id] == path[i]
    && path[i].parent == if i == 0 then NIL_ID else path[i - 1].id
  }

  ghost predicate Descends(folders: Entries, path: seq<Entry>) {
    forall i | 0 <= i < |path| :: Steps(folders, path, i)
  }

  /** The path to a folder descends from the root and ends with it; the path to the root is empty. */
  lemma {:induction false} PathExactly(folders: Entries, to: ID, path: seq<Entry>)
    requires WellKeyed(folders)
    ensures IsPathTo(folders, to, path)
       <==> Descends(folders, path) && to == if path == [] then NIL_ID else path[|path| - 1].id
    decreases |path|
  {
    if path != [] {
      var init, last := path[..|path| - 1], path[|path| - 1];
      PathExactly(folders, last.parent, init);
      DescendsFurther(folders, init, last);
      assert path == init + [last];
    }
  }

  lemma DescendsFurther(folders: Entries, init: seq<Entry>, last: Entry)
    ensures Descends(folders, init + [last])
       <==> && Descends(folders, init) && last.id in folders && folders[last.id] == last
            && last.parent == if init == [] then NIL_ID else init[|init| - 1].id
  {
    var path := init + [last];
    forall i | 0 <= i < |path|
      ensures i < |init| ==> Steps(folders, path, i) == Steps(folders, init, i)
    {
      assert i < |init| ==> path[i] == init[i] && (i > 0 ==> path[i - 1] == init[i - 1]);
    }
    assert path[|init|] == last && (init != [] ==> path[|init| - 1] == init[|init| - 1]);
    assert Steps(folders, path, |init|)
      <==> last.id in folders && folders[last.id] == last
           && last.parent == if init == [] then NIL_ID else init[|init| - 1].id;
  }

  // ------------------------------------------------------------------
  // Removing a folder one subfolder at a time
  // ------------------------------------------------------------------

  /** The tree after the connections of `id` and its first k subfolders, in all the folders `dead`, are gone. */
  ghost predicate Peeled(s: Forest, id: ID, stale: multiset<ID>, subs: seq<ID>, k: nat, dead: set<ID>, t: Forest) {
    && Consistent(s, stale) && id in s.folders
    && subs == Children(s.folderChildren, id) && k <= |subs|
    && Consistent(t, stale)
    && DownClosed(ParentsOf(s.folders), dead)
    && dead <= Below(ParentsOf(s.folders), id)
    && (forall j | 0 <= j < k :: Doomed(s, subs[j]) <= dead)
    && t.folders == s.folders - dead
    && t.connections == PrunedConnections(s.connections, dead + {id})
    && Children(t.folderChildren, id) == subs[k..]
    && t.folderChildren - {id} == s.folderChildren - dead - {id}
    && t.connectionChildren == s.connectionChildren - dead - {id}
  }

  lemma PeelStart(s: Forest, id: ID, stale: multiset<ID>, t: Forest)
    requires Consistent(s, stale) && id in s.folders
    requires t.folders == s.folders && t.folderChildren == s.folderChildren
    requires t.connections == s.connections - (set x | x in Children(s.connectionChildren, id))
    requires t.connectionChildren == s.connectionChildren - {id}
    ensures Peeled(s, id, stale, Children(s.folderChildren, id), 0, {}, t)
  {
    PeelConnections(s, id, stale, t);
    assert Children(s.folderChildren, id) == Children(s.folderChildren, id)[0..];
    hide Indexed, IsForest, PrunedConnections, Doomed, Children, Below;
    assert s.folders == s.folders - {} && s.folderChildren - {id} == s.folderChildren - {} - {id};
    assert t.connectionChildren == s.connectionChildren - {} - {id};
    assert {} + {id} == {id};
  }

  lemma PeelConnections(s: Forest, id: ID, stale: multiset<ID>, t: Forest)
    requires Consistent(s, stale) && id in s.folders
    requires t.connections == s.connections - (set x | x in Children(s.connectionChildren, id))
    requires t.connectionChildren == s.connectionChildren - {id}
    ensures t.connections == PrunedConnections(s.connections, {id})
    ensures Indexed(t.connections, t.connectionChildren, stale)
  {
    forall c
      ensures c in Children(s.connectionChildren, id) <==> c in s.connections && s.connections[c].parent == id
    {
      assert Listed(s.connectionChildren, id, c) == IsChild(s.connections, id, c);
      CountIn(Children(s.connectionChildren, id), c);
    }
    hide Indexed, IsForest, Count;
    assert t.connections == PrunedConnections(s.connections, {id});
    CutIndexed(s.connections, s.connectionChildren, t.connections, t.connectionChildren, stale, {id});
  }

  /** The next subfolder is still there, a child of id. */
  lemma PeelNext(s: Forest, id: ID, stale: multiset<ID>, subs: seq<ID>, k: nat, dead: set<ID>, t: Forest)
    requires Peeled(s, id, stale, subs, k, dead, t) && k < |subs|
    ensures subs[k] in t.folders && t.folders[subs[k]].parent == id && subs[k] != NIL_ID
    ensures Doomed(t, subs[k]) == Doomed(s, subs[k]) - dead
    ensures Doomed(s, subs[k]) <= Below(ParentsOf(s.folders), id)
    ensures Doomed(t, subs[k]) < Doomed(s, id)
  {
    var par := ParentsOf(s.folders);
    var sub := subs[k];
    assert sub in subs[k..] by {
      assert subs[k..][0] == sub;
    }
    assert Listed(t.folderChildren, id, sub) == IsChild(t.folders, id, sub);
    CountIn(subs[k..], sub);
    assert par[sub] == id;
    assert ParentsOf(t.folders) == par - dead;
    forall x | x in t.folders
      ensures Under(ParentsOf(t.folders), x, sub) <==> Under(par, x, sub)
    {
      UnderOutside(par, dead, x, sub);
    }
    UnderSelf(par, id);
    UnderParent(par, sub, id);
    ParentNotUnderChild(par, sub);
    forall x | x in Doomed(s, sub)
      ensures x in Below(par, id)
    {
      UnderTrans(par, x, sub, id);
    }
    assert id in Doomed(s, id) && id !in Doomed(s, sub);
  }

  lemma PeelStep(s: Forest, id: ID, stale: multiset<ID>, subs: seq<ID>, k: nat, dead: set<ID>, t: Forest, u: Forest)
    requires Peeled(s, id, stale, subs, k, dead, t) && k < |subs|
    requires u == Step(t, Remove(subs[k]))
    ensures Peeled(s, id, stale, subs, k + 1, dead + Doomed(s, subs[k]), u)
  {
    var sub := subs[k];
    PeelNext(s, id, stale, subs, k, dead, t);
    PrunedFolderConsistent(t, sub, stale);
    hide Consistent, Pruned, Children, PrunedConnections, Doomed;
    PeelMaps(s, id, subs, k, dead, Doomed(t, sub), t, u);
    assert dead + Doomed(t, sub) == dead + Doomed(s, sub);
    PeelClosed(s, sub, dead);
  }

  lemma PeelClosed(s: Forest, sub: ID, dead: set<ID>)
    requires NIL_ID !in s.folders && DownClosed(ParentsOf(s.folders), dead)
    ensures DownClosed(ParentsOf(s.folders), dead + Doomed(s, sub))
  {
    SubtreeDownClosed(ParentsOf(s.folders), sub);
  }

  /** The four maps after one more subfolder is gone. */
  lemma PeelMaps(s: Forest, id: ID, subs: seq<ID>, k: nat, dead: set<ID>, gone: set<ID>, t: Forest, u: Forest)
    requires k < |subs| && id !in gone && subs[k] in t.folders && t.folders[subs[k]].parent == id
    requires gone == Doomed(t, subs[k]) && u == Pruned(t, subs[k])
    requires t.folders == s.folders - dead
    requires t.connections == PrunedConnections(s.connections, dead + {id})
    requires Children(t.folderChildren, id) == subs[k..]
    requires t.folderChildren - {id} == s.folderChildren - dead - {id}
    requires t.connectionChildren == s.connectionChildren - dead - {id}
    ensures u.folders == s.folders - (dead + gone)
    ensures u.connections == PrunedConnections(s.connections, dead + gone + {id})
    ensures Children(u.folderChildren, id) == subs[k + 1..]
    ensures u.folderChildren - {id} == s.folderChildren - (dead + gone) - {id}
    ensures u.connectionChildren == s.connectionChildren - (dead + gone) - {id}
  {
    assert subs[k..][0] == subs[k] && subs[k..][1..] == subs[k + 1..];
    assert RemoveFirst(subs[k..], subs[k]) == subs[k + 1..];
    var ix := t.folderChildren - gone;
    assert u.folderChildren == ix[id := subs[k + 1..]];
    assert u.folderChildren - {id} == ix - {id};
    assert ix - {id} == (t.folderChildren - {id}) - gone;
  }

  /** With every subfolder gone, dropping id itself completes the removal. */
  lemma PeelEnd(s: Forest, id: ID, stale: multiset<ID>, subs: seq<ID>, dead: set<ID>, t: Forest)
    requires Peeled(s, id, stale, subs, |subs|, dead, t)
    ensures var p, ix := s.folders[id].parent, t.folderChildren - {id};
            Forest(t.folders - {id}, t.connections, ix[p := RemoveFirst(Children(ix, p), id)], t.connectionChildren)
              == Step(s, Remove(id))
  {
    var par := ParentsOf(s.folders);
    UnderSelf(par, id);
    ParentNotUnderChild(par, id);
    forall x | x in Doomed(s, id) && x != id
      ensures x in dead
    {
      var c := ChildAbove(par, x, id);
      assert Listed(s.folderChildren, id, c) == IsChild(s.folders, id, c);
      CountIn(subs, c);
      var j :| 0 <= j < |subs| && subs[j] == c;
      assert x in Doomed(s, subs[j]);
    }
    hide Consistent, DownClosed, Below, Under;
    assert dead + {id} == Doomed(s, id);
    PeelLast(s, id, dead, t);
  }

  lemma PeelLast(s: Forest, id: ID, dead: set<ID>, t: Forest)
    requires id in s.folders && s.folders[id].parent !in dead + {id} && dead + {id} == Doomed(s, id)
    requires t.folders == s.folders - dead
    requires t.connections == PrunedConnections(s.connections, dead + {id})
    requires t.folderChildren - {id} == s.folderChildren - dead - {id}
    requires t.connectionChildren == s.connectionChildren - dead - {id}
    ensures var p, ix := s.folders[id].parent, t.folderChildren - {id};
            Forest(t.folders - {id}, t.connections, ix[p := RemoveFirst(Children(ix, p), id)], t.connectionChildren)
              == Pruned(s, id)
  {
    hide Doomed;
    assert t.folderChildren - {id} == s.folderChildren - (dead + {id});
    assert t.connectionChildren == s.connectionChildren - (dead + {id});
    assert t.folders - {id} == s.folders - (dead + {id});
  }
}
