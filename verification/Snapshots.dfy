// What walkFrom (internal/domain/tree.go) reads from the child lists as they
// are: every listed ID is looked up, and an entry that names no node any more
// has consequences of its own. The walk of every reachable tree follows, stale
// root entries included.
module Snapshots {
  import opened Identifiers
  import opened Ancestry
  import opened Forests
  import opened Walks

  /**
   * How a walk ends. NilNode: the only root connection is missing, and the visitor is handed a nil node, as the last
   * one. Crash: a missing entry is compared with another one, and the comparison dereferences nil.
   */
  datatype Ending = Complete | NilNode | Crash

  predicate AllKnown(m: Entries, ids: seq<ID>) {
    forall i | 0 <= i < |ids| :: ids[i] in m
  }

  /** A child list sorted for the walk. A sort of two or more entries looks at every one of them. */
  function SnapshotOf(m: Entries, ids: seq<ID>): (r: (seq<ID>, Ending))
    ensures r.1 == Complete <==> AllKnown(m, ids)
    ensures r.1 == Complete ==> AllKnown(m, r.0) && forall x :: x in r.0 <==> x in ids
    ensures r.1 == Crash ==> |ids| >= 2
  {
    if AllKnown(m, ids) then
      var sorted := SortIds(m, ids);
      assert forall i | 0 <= i < |sorted| :: sorted[i] in sorted;
      (sorted, Complete)
    else if |ids| >= 2 then ([], Crash)
    else (ids, NilNode)
  }

  /** The nodes visited below p, and how that ends. */
  ghost function WalkedFrom(s: Forest, p: ID): (seq<Node>, Ending)
    requires Walkable(s.folders, s.connections)
  {
    var folderPart := VisitFolders(s.folders, s.connections, p, Arrangement(s.folders, p));
    var snapshot := SnapshotOf(s.connections, Children(s.connectionChildren, p));
    if snapshot.1 == Complete then (folderPart + VisitConnections(s.connections, snapshot.0), Complete)
    else (folderPart, snapshot.1)
  }

  /** The whole walk of a tree as it is. */
  ghost function Walked(s: Forest): (seq<Node>, Ending)
    requires Walkable(s.folders, s.connections)
  {
    WalkedFrom(s, NIL_ID)
  }

  /** The root's connections as the walk reads them. */
  function RootList(s: Forest): seq<ID> {
    Children(s.connectionChildren, NIL_ID)
  }

  // ------------------------------------------------------------------
  // Exact levels
  // ------------------------------------------------------------------

  /** The level of p lists exactly the children of p, once each. */
  ghost predicate LevelExact(m: Entries, ix: Index, p: ID) {
    forall x :: Listed(ix, p, x) == IsChild(m, p, x)
  }

  lemma ExactSnapshot(m: Entries, ix: Index, p: ID)
    requires WellKeyed(m) && LevelExact(m, ix, p)
    ensures SnapshotOf(m, Children(ix, p)) == (Arrangement(m, p), Complete)
  {
    var ids := Children(ix, p);
    forall x
      ensures x in ids <==> x in Kids(m, p)
      ensures Count(ids, x) <= 1
    {
      assert Listed(ix, p, x) == IsChild(m, p, x);
      CountIn(ids, x);
    }
    assert forall i | 0 <= i < |ids| :: ids[i] in ids;
    SortArranges(m, ids);
    ArrangementUnique(m, SortIds(m, ids), Arrangement(m, p));
  }

  /** Every level of a reachable tree is exact, except the root's connections when there are stale entries. */
  lemma IndexedLevel(m: Entries, ix: Index, stale: multiset<ID>, p: ID)
    requires Indexed(m, ix, stale) && (p != NIL_ID || stale == multiset{})
    ensures LevelExact(m, ix, p)
  {
    forall x
      ensures Listed(ix, p, x) == IsChild(m, p, x)
    {
      assert Listed(ix, p, x) == IsChild(m, p, x) + (if p == NIL_ID then stale[x] else 0);
    }
  }

  lemma ExactWalk(s: Forest, p: ID)
    requires Walkable(s.folders, s.connections) && LevelExact(s.connections, s.connectionChildren, p)
    ensures WalkedFrom(s, p) == (Visits(s.folders, s.connections, p), Complete)
  {
    ExactSnapshot(s.connections, s.connectionChildren, p);
  }

  // ------------------------------------------------------------------
  // The root
  // ------------------------------------------------------------------

  lemma RootCounts(s: Forest, stale: multiset<ID>, x: ID)
    requires Consistent(s, stale)
    ensures Count(RootList(s), x) == IsChild(s.connections, NIL_ID, x) + stale[x]
    ensures x in RootList(s) <==> IsChild(s.connections, NIL_ID, x) > 0 || stale[x] > 0
  {
    assert Listed(s.connectionChildren, NIL_ID, x) == IsChild(s.connections, NIL_ID, x) + stale[x];
    CountIn(RootList(s), x);
  }

  lemma {:induction false} InsertCount(m: Entries, x: ID, s: seq<ID>, y: ID)
    requires x in m && forall i | 0 <= i < |s| :: s[i] in m
    ensures Count(Insert(m, x, s), y) == Count(s, y) + if x == y then 1 else 0
  {
    if s != [] && !Before(m[x], m[s[0]]) {
      InsertCount(m, x, s[1..], y);
    }
  }

  lemma {:induction false} SortCount(m: Entries, ids: seq<ID>, y: ID)
    requires AllKnown(m, ids)
    ensures Count(SortIds(m, ids), y) == Count(ids, y)
  {
    if ids != [] {
      var rest := SortIds(m, ids[1..]);
      assert forall i | 0 <= i < |rest| :: rest[i] in rest;
      SortCount(m, ids[1..], y);
      InsertCount(m, ids[0], rest, y);
    }
  }

  lemma {:induction false} InsertLength(m: Entries, x: ID, s: seq<ID>)
    requires x in m && AllKnown(m, s)
    ensures |Insert(m, x, s)| == |s| + 1
  {
    if s != [] && !Before(m[x], m[s[0]]) {
      InsertLength(m, x, s[1..]);
    }
  }

  lemma {:induction false} SortLength(m: Entries, ids: seq<ID>)
    requires AllKnown(m, ids)
    ensures |SortIds(m, ids)| == |ids|
  {
    if ids != [] {
      var rest := SortIds(m, ids[1..]);
      assert forall i | 0 <= i < |rest| :: rest[i] in rest;
      SortLength(m, ids[1..]);
      InsertLength(m, ids[0], rest);
    }
  }

  /** An entry is missing exactly when some stale ID names no connection. */
  lemma MissingExactly(s: Forest, stale: multiset<ID>)
    requires Consistent(s, stale)
    ensures !AllKnown(s.connections, RootList(s)) <==> exists x :: stale[x] > 0 && x !in s.connections
  {
    if x :| stale[x] > 0 && x !in s.connections {
      RootCounts(s, stale, x);
      var i :| 0 <= i < |RootList(s)| && RootList(s)[i] == x;
    }
    if !AllKnown(s.connections, RootList(s)) {
      var i :| 0 <= i < |RootList(s)| && RootList(s)[i] !in s.connections;
      RootCounts(s, stale, RootList(s)[i]);
    }
  }

  /** The root level is exact exactly in the sound trees. */
  lemma RootExactIffSound(s: Forest, stale: multiset<ID>)
    requires Consistent(s, stale)
    ensures LevelExact(s.connections, s.connectionChildren, NIL_ID) <==> Sound(s)
    ensures Sound(s) <==> stale == multiset{}
  {
    if Sound(s) {
      StaleUnique(s, stale, multiset{});
      IndexedLevel(s.connections, s.connectionChildren, stale, NIL_ID);
    }
    if LevelExact(s.connections, s.connectionChildren, NIL_ID) {
      forall x
        ensures stale[x] == 0
      {
        assert Listed(s.connectionChildren, NIL_ID, x) == IsChild(s.connections, NIL_ID, x);
        RootCounts(s, stale, x);
      }
      assert stale == multiset{};
    }
  }

  /** Everything the walk visits before the root's connections. */
  ghost function FolderPart(s: Forest): seq<Node>
    requires Walkable(s.folders, s.connections)
  {
    VisitFolders(s.folders, s.connections, NIL_ID, Arrangement(s.folders, NIL_ID))
  }

  lemma FolderPartLeads(s: Forest)
    requires Walkable(s.folders, s.connections)
    ensures FolderPart(s) <= WalkOf(s) && FolderPart(s) <= Walked(s).0
    ensures |Walked(s).0| <= |FolderPart(s)| + |RootList(s)|
  {
    if AllKnown(s.connections, RootList(s)) {
      SortLength(s.connections, RootList(s));
    }
  }

  lemma FolderPartCount(s: Forest, stale: multiset<ID>, x: ID)
    requires Consistent(s, stale)
    ensures Count(Ids(FolderPart(s)), x)
         == if x in s.folders || (x in s.connections && s.connections[x].parent != NIL_ID) then 1 else 0
  {
    var cs := s.connections;
    var kids := Arrangement(cs, NIL_ID);
    WalkTheorem(s, stale);
    hide Consistent, Count, VisitFolders;
    CountIds(FolderPart(s), VisitConnections(cs, kids), x);
    assert Ids(VisitConnections(cs, kids)) == kids;
    ArrangedCount(cs, kids, x);
  }

  /** A completed walk visits every node once, and the stale entries that name a connection once more each. */
  lemma CompleteCounts(s: Forest, stale: multiset<ID>, x: ID)
    requires Consistent(s, stale) && Walked(s).1 == Complete
    ensures Count(Ids(Walked(s).0), x) == (if x in s.folders || x in s.connections then 1 else 0) + stale[x]
  {
    var fs, cs := s.folders, s.connections;
    hide Indexed, IsForest, Count, VisitFolders, SortIds, Arrangement, ArrangeSet;
    var list, kids := SnapshotOf(cs, RootList(s)).0, Arrangement(cs, NIL_ID);
    var folderPart := VisitFolders(fs, cs, NIL_ID, Arrangement(fs, NIL_ID));
    WalkTheorem(s, stale);
    CountIds(folderPart, VisitConnections(cs, list), x);
    CountIds(folderPart, VisitConnections(cs, kids), x);
    assert Ids(VisitConnections(cs, list)) == list && Ids(VisitConnections(cs, kids)) == kids;
    SortCount(cs, RootList(s), x);
    ArrangedCount(cs, kids, x);
    RootCounts(s, stale, x);
  }

  /** Everything a walk visits is a node of the tree. */
  lemma WalkedOwn(s: Forest, stale: multiset<ID>)
    requires Consistent(s, stale)
    ensures forall n | n in Walked(s).0 :: Own(s.folders, s.connections, n)
  {
    WalkTheorem(s, stale);
    var fs, cs := s.folders, s.connections;
    var folderPart, snapshot := VisitFolders(fs, cs, NIL_ID, Arrangement(fs, NIL_ID)), SnapshotOf(cs, RootList(s));
    assert forall n | n in folderPart :: n in WalkOf(s);
    hide VisitFolders, WalkOf, IsForest, Indexed;
    if snapshot.1 == Complete {
      var conns := VisitConnections(cs, snapshot.0);
      forall n | n in conns
        ensures Own(fs, cs, n)
      {
        var i :| 0 <= i < |conns| && conns[i] == n;
      }
    }
  }

  /** When the visitor is handed a nil node, it has been handed every real node before. */
  lemma NilNodeComesLast(s: Forest, stale: multiset<ID>)
    requires Consistent(s, stale) && Walked(s).1 == NilNode
    ensures Walked(s).0 == WalkOf(s) && |RootList(s)| == 1 && RootList(s)[0] !in s.connections
    ensures forall x | stale[x] > 0 :: x == RootList(s)[0]
  {
    var list := RootList(s);
    forall x
      ensures IsChild(s.connections, NIL_ID, x) == 0 && (stale[x] > 0 ==> x == list[0])
    {
      RootCounts(s, stale, x);
    }
    forall x
      ensures x !in Kids(s.connections, NIL_ID)
    {
      assert IsChild(s.connections, NIL_ID, x) == 0;
    }
    NoKids(s.connections, NIL_ID);
  }

  lemma NoKids(m: Entries, p: ID)
    requires WellKeyed(m) && forall x :: x !in Kids(m, p)
    ensures Arrangement(m, p) == []
  {
    assert Kids(m, p) == {};
  }

  /**
   * The walk of every tree that edits can reach. It is cut short exactly when some stale root entry names no
   * connection; it is the walk that visits every node exactly once exactly when the tree is sound.
   */
  lemma WalkExactly(s: Forest, stale: multiset<ID>)
    requires Consistent(s, stale)
    ensures LevelExact(s.connections, s.connectionChildren, NIL_ID) <==> Sound(s)
    ensures Walked(s).1 != Complete <==> exists x :: stale[x] > 0 && x !in s.connections
    ensures Walked(s) == (WalkOf(s), Complete) <==> Sound(s)
    ensures Walked(s).1 == Complete ==>
              forall x :: Count(Ids(Walked(s).0), x)
                       == (if x in s.folders || x in s.connections then 1 else 0) + stale[x]
  {
    MissingExactly(s, stale);
    RootExactIffSound(s, stale);
    if Sound(s) {
      ExactWalk(s, NIL_ID);
    }
    if Walked(s).1 == Complete {
      forall x
        ensures Count(Ids(Walked(s).0), x) == (if x in s.folders || x in s.connections then 1 else 0) + stale[x]
      {
        CompleteCounts(s, stale, x);
      }
      if Walked(s).0 == WalkOf(s) {
        WalkTheorem(s, stale);
        forall x
          ensures stale[x] == 0
        {
          assert Count(Ids(WalkOf(s)), x) == if x in s.folders || x in s.connections then 1 else 0;
        }
        assert stale == multiset{};
      }
    }
  }

  /**
   * A walk that is cut short has visited the folders and the connections in them, once each, and none of the root's
   * connections; it crashes exactly when the root lists another entry beside the missing one.
   */
  lemma CutShort(s: Forest, stale: multiset<ID>, x: ID)
    requires Consistent(s, stale) && Walkable(s.folders, s.connections) && Walked(s).1 != Complete
    ensures Count(Ids(Walked(s).0), x)
         == if x in s.folders || (x in s.connections && s.connections[x].parent != NIL_ID) then 1 else 0
    ensures Walked(s).1 == Crash <==> |RootList(s)| >= 2
  {
    FolderPartCount(s, stale, x);
  }

  /** The same for every run of edits, in terms of the root-level connections it removed. */
  lemma RunWalks(ops: seq<Op>)
    ensures var s, stale := Run(EMPTY_FOREST, ops), StaleOf(EMPTY_FOREST, ops);
            && Walkable(s.folders, s.connections)
            && (Walked(s).1 != Complete <==> exists x :: stale[x] > 0 && x !in s.connections)
            && (Walked(s) == (WalkOf(s), Complete) <==> stale == multiset{})
  {
    RunTheorem(ops);
    WalkExactly(Run(EMPTY_FOREST, ops), StaleOf(EMPTY_FOREST, ops));
  }

  // ------------------------------------------------------------------
  // The shortest runs that show it
  // ------------------------------------------------------------------

  /** The empty tree with some connections at the root, and its root list. */
  function RootsOnly(connections: Entries, list: seq<ID>): Forest {
    Forest(map[], connections, map[], map[NIL_ID := list])
  }

  lemma RootsWalked(connections: Entries, list: seq<ID>)
    requires Walkable(map[], connections)
    ensures var w, snapshot := Walked(RootsOnly(connections, list)), SnapshotOf(connections, list);
            && w.1 == snapshot.1
            && w.0 == if snapshot.1 == Complete then VisitConnections(connections, snapshot.0) else []
  {
    NoKids(map[], NIL_ID);
  }

  lemma NoFolders(connections: Entries)
    requires WellKeyed(connections)
    ensures Walkable(map[], connections)
  {
    assert ParentsOf(map[]) == map[];
  }

  /**
   * Adding a root-level connection and removing it again is enough: a walk then hands its visitor a nil node. With a
   * second connection beside it the walk crashes before the root's connections are visited, and adding the same
   * connection again makes the walk visit it twice.
   */
  lemma TwoEditsBreakTheWalk(e: Entry, other: Entry)
    requires e.id != NIL_ID && e.parent == NIL_ID && other.id != NIL_ID && other.parent == NIL_ID && other.id != e.id
    ensures var add, beside, drop := Add(ConnectionNode(e)), Add(ConnectionNode(other)), Remove(e.id);
            && Run(EMPTY_FOREST, [add, drop]) == RootsOnly(map[], [e.id])
            && Run(EMPTY_FOREST, [add, beside, drop]) == RootsOnly(map[other.id := other], [e.id, other.id])
            && Run(EMPTY_FOREST, [add, drop, add]) == RootsOnly(map[e.id := e], [e.id, e.id])
    ensures Walkable(map[], map[]) && Walkable(map[], map[other.id := other]) && Walkable(map[], map[e.id := e])
    ensures Walked(RootsOnly(map[], [e.id])) == ([], NilNode)
    ensures Walked(RootsOnly(map[other.id := other], [e.id, other.id])) == ([], Crash)
    ensures Walked(RootsOnly(map[e.id := e], [e.id, e.id])) == ([ConnectionNode(e), ConnectionNode(e)], Complete)
  {
    RunsGiveRoots(e, other);
    hide Run;
    WalkMeetsNil(e.id);
    WalkCrashes(e.id, other);
    WalkVisitsTwice(e);
  }

  lemma WalkMeetsNil(x: ID)
    ensures Walkable(map[], map[]) && Walked(RootsOnly(map[], [x])) == ([], NilNode)
  {
    var none: Entries := map[];
    NoFolders(none);
    RootsWalked(none, [x]);
    hide Walked, RootsOnly;
    assert [x][0] !in none;
  }

  lemma WalkCrashes(x: ID, other: Entry)
    requires other.id != NIL_ID && x != other.id
    ensures var m := map[other.id := other];
            Walkable(map[], m) && Walked(RootsOnly(m, [x, other.id])) == ([], Crash)
  {
    var m := map[other.id := other];
    NoFolders(m);
    RootsWalked(m, [x, other.id]);
    hide Walked, RootsOnly;
    assert [x, other.id][0] !in m;
  }

  lemma WalkVisitsTwice(e: Entry)
    requires e.id != NIL_ID
    ensures var m := map[e.id := e];
            Walkable(map[], m)
            && Walked(RootsOnly(m, [e.id, e.id])) == ([ConnectionNode(e), ConnectionNode(e)], Complete)
  {
    var m := map[e.id := e];
    NoFolders(m);
    RootsWalked(m, [e.id, e.id]);
    SnapshotTwice(m, e.id);
    hide *;
  }

  lemma SnapshotTwice(m: Entries, x: ID)
    requires x in m
    ensures SnapshotOf(m, [x, x]) == ([x, x], Complete)
    ensures VisitConnections(m, [x, x]) == [ConnectionNode(m[x]), ConnectionNode(m[x])]
  {
    SortTwice(m, x);
    hide SortIds, Insert;
    assert AllKnown(m, [x, x]);
  }

  lemma SortTwice(m: Entries, x: ID)
    requires x in m
    ensures SortIds(m, [x, x]) == [x, x]
  {
    assert [x, x][1..] == [x] && [x][1..] == [];
    assert SortIds(m, [x]) == Insert(m, x, []) == [x];
    assert Insert(m, x, [x][1..]) == [x];
    assert SortIds(m, [x, x]) == Insert(m, x, [x]);
  }

  lemma RunsGiveRoots(e: Entry, other: Entry)
    requires e.id != NIL_ID && e.parent == NIL_ID && other.id != NIL_ID && other.parent == NIL_ID && other.id != e.id
    ensures var add, beside, drop := Add(ConnectionNode(e)), Add(ConnectionNode(other)), Remove(e.id);
            && Run(EMPTY_FOREST, [add, drop]) == RootsOnly(map[], [e.id])
            && Run(EMPTY_FOREST, [add, beside, drop]) == RootsOnly(map[other.id := other], [e.id, other.id])
            && Run(EMPTY_FOREST, [add, drop, add]) == RootsOnly(map[e.id := e], [e.id, e.id])
  {
    var add, beside, drop := Add(ConnectionNode(e)), Add(ConnectionNode(other)), Remove(e.id);
    RunTwo(EMPTY_FOREST, add, drop);
    RunThree(EMPTY_FOREST, add, beside, drop);
    RunThree(EMPTY_FOREST, add, drop, add);
    hide Step;
    AddFirst(e);
    AddRoot(map[e.id := e], [e.id], other);
    DropRoot(map[e.id := e], [e.id], e.id);
    AddRoot(map[], [e.id], e);
    var both := map[e.id := e][other.id := other];
    DropRoot(both, [e.id] + [other.id], e.id);
    assert both - {e.id} == map[other.id := other];
    assert map[e.id := e] - {e.id} == map[] && map[][e.id := e] == map[e.id := e];
    assert [e.id] + [other.id] == [e.id, other.id] && [e.id] + [e.id] == [e.id, e.id];
  }

  lemma AddFirst(e: Entry)
    requires e.id != NIL_ID && e.parent == NIL_ID
    ensures Step(EMPTY_FOREST, Add(ConnectionNode(e))) == RootsOnly(map[e.id := e], [e.id])
  {
    assert map[][e.id := e] == map[e.id := e];
    assert [] + [e.id] == [e.id];
    assert map[][NIL_ID := [e.id]] == map[NIL_ID := [e.id]];
  }

  lemma AddRoot(connections: Entries, list: seq<ID>, e: Entry)
    requires e.id != NIL_ID && e.parent == NIL_ID && e.id !in connections
    ensures Step(RootsOnly(connections, list), Add(ConnectionNode(e)))
         == RootsOnly(connections[e.id := e], list + [e.id])
  {
    assert map[NIL_ID := list][NIL_ID := list + [e.id]] == map[NIL_ID := list + [e.id]];
  }

  lemma DropRoot(connections: Entries, list: seq<ID>, x: ID)
    requires x != NIL_ID && x in connections && connections[x].parent == NIL_ID
    ensures Step(RootsOnly(connections, list), Remove(x)) == RootsOnly(connections - {x}, list)
  {
  }

  lemma RunTwo(s: Forest, a: Op, b: Op)
    ensures Run(s, [a, b]) == Step(Step(s, a), b)
  {
    hide Step;
    assert [a, b][1..] == [b] && [b][1..] == [];
    assert Run(Step(s, a), [b]) == Run(Step(Step(s, a), b), []);
  }

  lemma RunThree(s: Forest, a: Op, b: Op, c: Op)
    ensures Run(s, [a, b, c]) == Step(Step(Step(s, a), b), c)
  {
    hide Step;
    assert [a, b, c][1..] == [b, c];
    RunTwo(Step(s, a), b, c);
  }
}
