// Merging an imported tree (internal/app/commands.go, ImportMRemoteNG): the
// imported tree is walked and each visited node is added to the live tree.
module Imports {
  import opened Identifiers
  import opened Forests
  import opened Walks
  import opened Snapshots
  import opened Trees

  /** Adds the nodes in order and stops at the first one that is refused. */
  ghost function Replay(s: Forest, v: seq<Node>): (Forest, Outcome)
    decreases |v|
  {
    if v == [] then (s, Done)
    else if AddOutcome(s, v[0]).Failed? then (s, AddOutcome(s, v[0]))
    else Replay(Added(s, v[0]), v[1..])
  }

  ghost function FoldersOf(v: seq<Node>): Entries {
    if v == [] then map[]
    else (if v[0].FolderNode? then map[v[0].entry.id := v[0].entry] else map[]) + FoldersOf(v[1..])
  }

  ghost function ConnectionsOf(v: seq<Node>): Entries {
    if v == [] then map[]
    else (if v[0].ConnectionNode? then map[v[0].entry.id := v[0].entry] else map[]) + ConnectionsOf(v[1..])
  }

  /** Each parent is the root, in the tree already, or earlier in the list. */
  ghost predicate Placed(folders: Entries, v: seq<Node>) {
    forall i | 0 <= i < |v| ::
      v[i].entry.parent == NIL_ID || v[i].entry.parent in folders || VisitedBefore(v, i, v[i].entry.parent)
  }

  /** The nodes are new to the tree and all different. */
  ghost predicate NewNodes(s: Forest, v: seq<Node>) {
    && (forall i | 0 <= i < |v| ::
          v[i].entry.id != NIL_ID && v[i].entry.id !in s.folders && v[i].entry.id !in s.connections)
    && (forall i, j | 0 <= i < j < |v| :: v[i].entry.id != v[j].entry.id)
  }

  lemma PlacedRest(folders: Entries, folders': Entries, v: seq<Node>)
    requires v != [] && Placed(folders, v)
    requires forall x | x in folders :: x in folders'
    requires v[0].FolderNode? ==> v[0].entry.id in folders'
    ensures Placed(folders', v[1..])
  {
    var w := v[1..];
    forall i | 0 <= i < |w|
      ensures w[i].entry.parent == NIL_ID || w[i].entry.parent in folders' || VisitedBefore(w, i, w[i].entry.parent)
    {
      var f := w[i].entry.parent;
      assert w[i] == v[i + 1];
      if VisitedBefore(v, i + 1, f) && f !in folders' {
        var j :| 0 <= j < i + 1 && j < |v| && v[j].FolderNode? && v[j].entry.id == f;
        assert w[j - 1] == v[j];
      }
    }
  }

  lemma IdsCons(v: seq<Node>)
    requires v != []
    ensures Ids(v) == [v[0].entry.id] + Ids(v[1..])
  {
  }

  lemma {:induction false} FoldersOfKeys(v: seq<Node>)
    ensures forall x | x in FoldersOf(v) || x in ConnectionsOf(v) :: x in Ids(v)
    decreases |v|
  {
    if v != [] {
      IdsCons(v);
      FoldersOfKeys(v[1..]);
    }
  }

  /** The first node can be added, and the rest is then still new and well placed. */
  lemma ReplayStep(s: Forest, v: seq<Node>)
    requires v != [] && NewNodes(s, v) && Placed(s.folders, v)
    ensures AddOutcome(s, v[0]).Done?
    ensures NewNodes(Added(s, v[0]), v[1..]) && Placed(Added(s, v[0]).folders, v[1..])
    ensures v[0].entry.id !in Ids(v[1..])
  {
    assert !VisitedBefore(v, 0, v[0].entry.parent);
    PlacedRest(s.folders, Added(s, v[0]).folders, v);
    forall i | 0 <= i < |v[1..]|
      ensures v[1..][i].entry.id != v[0].entry.id
    {
      assert v[1..][i] == v[i + 1];
    }
  }

  /** Replaying new, well-placed nodes never fails and adds exactly those nodes. */
  lemma {:induction false} ReplayAdds(s: Forest, v: seq<Node>, stale: multiset<ID>)
    requires Consistent(s, stale) && NewNodes(s, v) && Placed(s.folders, v)
    ensures Replay(s, v).1.Done? && Consistent(Replay(s, v).0, stale)
    ensures Replay(s, v).0.folders == s.folders + FoldersOf(v)
    ensures Replay(s, v).0.connections == s.connections + ConnectionsOf(v)
    decreases |v|
  {
    hide Consistent, NewNodes, Placed;
    if v != [] {
      ReplayStep(s, v);
      AddedConsistent(s, v[0], stale);
      ReplayAdds(Added(s, v[0]), v[1..], stale);
      FoldersOfKeys(v[1..]);
      MapUnions(s, v);
    }
  }

  lemma MapUnions(s: Forest, v: seq<Node>)
    requires v != [] && forall x | x in FoldersOf(v[1..]) || x in ConnectionsOf(v[1..]) :: x != v[0].entry.id
    ensures Added(s, v[0]).folders + FoldersOf(v[1..]) == s.folders + FoldersOf(v)
    ensures Added(s, v[0]).connections + ConnectionsOf(v[1..]) == s.connections + ConnectionsOf(v)
  {
    hide AddOutcome, Children;
    var e := v[0].entry;
    InsertFirst(s.folders, FoldersOf(v[1..]), e);
    InsertFirst(s.connections, ConnectionsOf(v[1..]), e);
    EmptyUnion(FoldersOf(v[1..]));
    EmptyUnion(ConnectionsOf(v[1..]));
  }

  lemma EmptyUnion(m: Entries)
    ensures map[] + m == m
  {
  }

  lemma InsertFirst(a: Entries, b: Entries, e: Entry)
    requires e.id !in b
    ensures a[e.id := e] + b == a + (map[e.id := e] + b)
  {
  }

  lemma {:induction false} OwnNodes(fs: Entries, cs: Entries, v: seq<Node>)
    requires fs.Keys !! cs.Keys && forall n | n in v :: Own(fs, cs, n)
    ensures forall x :: x in FoldersOf(v) <==> x in fs && x in Ids(v)
    ensures forall x :: x in ConnectionsOf(v) <==> x in cs && x in Ids(v)
    ensures forall x | x in FoldersOf(v) :: FoldersOf(v)[x] == fs[x]
    ensures forall x | x in ConnectionsOf(v) :: ConnectionsOf(v)[x] == cs[x]
    decreases |v|
  {
    if v != [] {
      IdsCons(v);
      assert v[0] in v;
      OwnNodes(fs, cs, v[1..]);
    }
  }

  /**
   * A sound tree whose IDs are disjoint from ours replays without an error, and the result is the
   * disjoint union: everything we had, everything imported, and the invariant.
   */
  lemma MergeTheorem(s: Forest, t: Forest, stale: multiset<ID>)
    requires Consistent(s, stale) && Sound(t)
    requires s.folders.Keys + s.connections.Keys !! t.folders.Keys + t.connections.Keys
    ensures Replay(s, WalkOf(t)).1.Done? && Consistent(Replay(s, WalkOf(t)).0, stale)
    ensures Replay(s, WalkOf(t)).0.folders == s.folders + t.folders
    ensures Replay(s, WalkOf(t)).0.connections == s.connections + t.connections
  {
    var v := WalkOf(t);
    WalkTheorem(t, multiset{});
    WalkReplays(s, t, v);
    hide Consistent;
    ReplayAdds(s, v, stale);
  }

  /** One list after another. */
  lemma {:induction false} ReplayConcat(s: Forest, v: seq<Node>, w: seq<Node>)
    requires Replay(s, v).1.Done?
    ensures Replay(s, v + w) == Replay(Replay(s, v).0, w)
    decreases |v|
  {
    if v == [] {
      assert v + w == w;
    } else {
      assert (v + w)[1..] == v[1..] + w;
      ReplayConcat(Added(s, v[0]), v[1..], w);
    }
  }

  /** The front of a well-placed list is well placed. */
  lemma FrontPlaced(folders: Entries, v: seq<Node>, k: nat)
    requires k <= |v| && Placed(folders, v)
    ensures Placed(folders, v[..k])
  {
    forall i | 0 <= i < k && VisitedBefore(v, i, v[i].entry.parent)
      ensures VisitedBefore(v[..k], i, v[i].entry.parent)
    {
      var j :| 0 <= j < i && j < |v| && v[j].FolderNode? && v[j].entry.id == v[i].entry.parent;
      assert v[..k][j] == v[j];
    }
  }

  ghost predicate InUse(s: Forest, x: ID) {
    x in s.folders || x in s.connections
  }

  /** Up to the first node whose ID is in use everything is added, and that node is refused. */
  lemma StopsAtFirst(s: Forest, v: seq<Node>, k: nat, stale: multiset<ID>)
    requires Consistent(s, stale) && Placed(s.folders, v) && k < |v|
    requires forall i | 0 <= i < |v| :: v[i].entry.id != NIL_ID
    requires forall i, j | 0 <= i < j < |v| :: v[i].entry.id != v[j].entry.id
    requires InUse(s, v[k].entry.id) && forall i | 0 <= i < k :: !InUse(s, v[i].entry.id)
    ensures var merged := Replay(s, v[..k]).0;
            && Replay(s, v) == (merged, Failed(DuplicateId)) && Consistent(merged, stale)
            && merged.folders == s.folders + FoldersOf(v[..k])
            && merged.connections == s.connections + ConnectionsOf(v[..k])
  {
    hide *;
    FrontReplays(s, v, k, stale);
    UsedIsRefused(Replay(s, v[..k]).0, v[k]);
    RefusedNext(s, v, k);
  }

  lemma RefusedNext(s: Forest, v: seq<Node>, k: nat)
    requires k < |v| && Replay(s, v[..k]).1.Done? && AddOutcome(Replay(s, v[..k]).0, v[k]).Failed?
    ensures Replay(s, v) == (Replay(s, v[..k]).0, AddOutcome(Replay(s, v[..k]).0, v[k]))
  {
    hide AddOutcome;
    assert v == v[..k] + v[k..] && v[k..][0] == v[k];
    ReplayConcat(s, v[..k], v[k..]);
  }

  lemma FrontReplays(s: Forest, v: seq<Node>, k: nat, stale: multiset<ID>)
    requires Consistent(s, stale) && Placed(s.folders, v) && k < |v| && InUse(s, v[k].entry.id)
    requires forall i | 0 <= i < |v| :: v[i].entry.id != NIL_ID
    requires forall i, j | 0 <= i < j < |v| :: v[i].entry.id != v[j].entry.id
    requires forall i | 0 <= i < k :: !InUse(s, v[i].entry.id)
    ensures var (merged, outcome) := Replay(s, v[..k]);
            && outcome == Done && Consistent(merged, stale) && InUse(merged, v[k].entry.id)
            && merged.folders == s.folders + FoldersOf(v[..k])
            && merged.connections == s.connections + ConnectionsOf(v[..k])
  {
    FrontPlaced(s.folders, v, k);
    assert NewNodes(s, v[..k]);
    hide Consistent, Placed, NewNodes, Replay, FoldersOf, ConnectionsOf;
    ReplayAdds(s, v[..k], stale);
  }

  lemma UsedIsRefused(s: Forest, node: Node)
    requires node.entry.id != NIL_ID && InUse(s, node.entry.id)
    ensures AddOutcome(s, node) == Failed(DuplicateId)
  {
  }

  /** All that a walk of a sound tree gives the replay, whatever tree it meets. */
  lemma WalkGives(t: Forest, folders: Entries)
    requires Sound(t)
    ensures var v := WalkOf(t);
            && Placed(folders, v)
            && (forall i | 0 <= i < |v| :: v[i].entry.id != NIL_ID)
            && (forall i, j | 0 <= i < j < |v| :: v[i].entry.id != v[j].entry.id)
            && (forall n | n in v :: Own(t.folders, t.connections, n))
            && (forall x :: x in Ids(v) <==> InUse(t, x))
  {
    var v := WalkOf(t);
    WalkTheorem(t, multiset{});
    OnceEach(v);
    hide WalkOf, Indexed, VisitedBefore;
    forall x
      ensures x in Ids(v) <==> InUse(t, x)
    {
      CountIn(Ids(v), x);
    }
    hide Count;
    forall i | 0 <= i < |v|
      ensures v[i].entry.id != NIL_ID
    {
      assert v[i] in v;
    }
  }

  /** The first node of v whose ID is in use. */
  lemma FirstInUse(s: Forest, v: seq<Node>, x: ID) returns (k: nat)
    requires x in Ids(v) && InUse(s, x)
    ensures k < |v| && InUse(s, v[k].entry.id) && forall i | 0 <= i < k :: !InUse(s, v[i].entry.id)
  {
    var n :| 0 <= n < |v| && Ids(v)[n] == x;
    hide InUse;
    k := 0;
    while !InUse(s, v[k].entry.id)
      invariant k <= n && forall i | 0 <= i < k :: !InUse(s, v[i].entry.id)
      decreases n - k
    {
      k := k + 1;
    }
  }

  /** merged is s and the nodes of t among the given IDs, all of them as they were. */
  ghost predicate MergedUpTo(s: Forest, t: Forest, ids: seq<ID>, merged: Forest) {
    && (forall x :: x in merged.folders <==> x in s.folders || (x in t.folders && x in ids))
    && (forall x :: x in merged.connections <==> x in s.connections || (x in t.connections && x in ids))
    && (forall x | x in merged.folders :: merged.folders[x] == if x in s.folders then s.folders[x] else t.folders[x])
    && (forall x | x in merged.connections ::
          merged.connections[x] == if x in s.connections then s.connections[x] else t.connections[x])
  }

  /**
   * A merge goes through exactly when the two trees have no ID in common. Otherwise it is refused at the first imported
   * node, in walk order, whose ID is in use, and exactly the nodes before it stay merged.
   */
  lemma MergeExactly(s: Forest, t: Forest, stale: multiset<ID>) returns (k: nat)
    requires Consistent(s, stale) && Sound(t)
    ensures Replay(s, WalkOf(t)).1 == Done <==> forall x :: !(InUse(s, x) && InUse(t, x))
    ensures Replay(s, WalkOf(t)).1 != Done ==>
              var v, (merged, outcome) := WalkOf(t), Replay(s, WalkOf(t));
              && outcome == Failed(DuplicateId) && Consistent(merged, stale)
              && k < |v| && InUse(s, v[k].entry.id) && (forall i | 0 <= i < k :: !InUse(s, v[i].entry.id))
              && MergedUpTo(s, t, Ids(v[..k]), merged)
  {
    k := 0;
    WalkGives(t, s.folders);
    SharedKeys(s, t);
    hide WalkOf, Replay, Consistent, Sound, Placed, InUse, MergedUpTo, Own;
    if x :| InUse(s, x) && InUse(t, x) {
      var v := WalkOf(t);
      k := FirstInUse(s, v, x);
      StopsAtFirst(s, v, k, stale);
      FrontMerged(s, t, v, k, Replay(s, v).0);
    } else {
      MergeTheorem(s, t, stale);
    }
  }

  lemma FrontMerged(s: Forest, t: Forest, v: seq<Node>, k: nat, merged: Forest)
    requires k <= |v| && Sound(t) && forall n | n in v :: Own(t.folders, t.connections, n)
    requires forall i | 0 <= i < k :: !InUse(s, v[i].entry.id)
    requires merged.folders == s.folders + FoldersOf(v[..k])
    requires merged.connections == s.connections + ConnectionsOf(v[..k])
    ensures MergedUpTo(s, t, Ids(v[..k]), merged)
  {
    hide Indexed, Own, FoldersOf, ConnectionsOf;
    OwnNodes(t.folders, t.connections, v[..k]);
    FrontNotInUse(s, v, k);
    hide Ids, Consistent;
  }

  lemma FrontNotInUse(s: Forest, v: seq<Node>, k: nat)
    requires k <= |v| && forall i | 0 <= i < k :: !InUse(s, v[i].entry.id)
    ensures forall x | x in Ids(v[..k]) :: !InUse(s, x)
  {
  }

  lemma OnceEach(v: seq<Node>)
    requires forall x :: Count(Ids(v), x) <= 1
    ensures forall i, j | 0 <= i < j < |v| :: v[i].entry.id != v[j].entry.id
  {
    hide Count;
    forall i, j | 0 <= i < j < |v|
      ensures v[i].entry.id != v[j].entry.id
    {
      CountDistinct(Ids(v), i, j);
    }
  }

  lemma WalkReplays(s: Forest, t: Forest, v: seq<Node>)
    requires WellKeyed(t.folders) && WellKeyed(t.connections) && t.folders.Keys !! t.connections.Keys
    requires s.folders.Keys + s.connections.Keys !! t.folders.Keys + t.connections.Keys
    requires forall x :: Count(Ids(v), x) == if x in t.folders || x in t.connections then 1 else 0
    requires forall n | n in v :: Own(t.folders, t.connections, n)
    requires ParentsFirst(v, NIL_ID)
    ensures NewNodes(s, v) && Placed(s.folders, v)
    ensures FoldersOf(v) == t.folders && ConnectionsOf(v) == t.connections
  {
    hide Count, FoldersOf, ConnectionsOf, VisitedBefore;
    forall i | 0 <= i < |v|
      ensures Own(t.folders, t.connections, v[i])
    {
      assert v[i] in v;
    }
    OnceEach(v);
    OwnNodes(t.folders, t.connections, v);
    forall x | x in t.folders || x in t.connections
      ensures x in Ids(v)
    {
      CountIn(Ids(v), x);
    }
  }

  lemma SharedKeys(s: Forest, t: Forest)
    ensures s.folders.Keys + s.connections.Keys !! t.folders.Keys + t.connections.Keys
       <==> forall x :: !(InUse(s, x) && InUse(t, x))
  {
    assert forall x :: InUse(s, x) <==> x in s.folders.Keys + s.connections.Keys;
    assert forall x :: InUse(t, x) <==> x in t.folders.Keys + t.connections.Keys;
  }

  /** The merge loop: walk the imported tree, add each node, stop at the first error. */
  method MergeImported(live: Tree, imported: Tree, ghost stale: multiset<ID>) returns (r: Outcome)
    requires live != imported && Consistent(live.View(), stale) && Sound(imported.View())
    modifies live
    ensures (live.View(), r) == Replay(old(live.View()), WalkOf(imported.View()))
    ensures r == Done
       <==> old(live.folders.Keys + live.connections.Keys) !! imported.folders.Keys + imported.connections.Keys
    ensures r != Done ==> r == Failed(DuplicateId) && Consistent(live.View(), stale)
    ensures r == Done ==>
              && Consistent(live.View(), stale)
              && live.folders == old(live.folders) + imported.folders
              && live.connections == old(live.connections) + imported.connections
  {
    hide Consistent, AddOutcome, Added, WalkOf, Walked;
    ghost var before := live.View();
    ghost var k := MergeExactly(before, imported.View(), stale);
    SharedKeys(before, imported.View());
    if live.folders.Keys + live.connections.Keys !! imported.folders.Keys + imported.connections.Keys {
      MergeTheorem(before, imported.View(), stale);
    }
    WalkExactly(imported.View(), multiset{});
    var v, ending := imported.Walk(multiset{});
    var i := 0;
    ghost var goal := Replay(live.View(), v);
    assert v[0..] == v;
    while i < |v|
      invariant 0 <= i <= |v|
      invariant Replay(live.View(), v[i..]) == goal
    {
      assert v[i..][0] == v[i] && v[i..][1..] == v[i + 1..];
      match v[i] {
        case FolderNode(f) => r := live.AddFolder(f);
        case ConnectionNode(c) => r := live.AddConnection(c);
      }
      if r.Failed? {
        return;
      }
      i := i + 1;
    }
    r := Done;
  }
}
