// The connection forest (internal/domain/tree.go) as a value: what each edit
// does to the four maps, the invariant the edits keep, and what a whole run of
// edits leaves behind.
module Forests {
  import opened Octets
  import opened Lists
  import opened Identifiers
  import opened Ancestry

  /** A folder or a connection. `payload` is every field that is not the ID, the parent or the name. */
  datatype Entry = Entry(id: ID, parent: ID, name: Bytes, payload: string)

  datatype Node = FolderNode(entry: Entry) | ConnectionNode(entry: Entry)

  type Entries = map<ID, Entry>

  /** Parent ID to the ordered list of its children. NIL_ID is the key of the root. */
  type Index = map<ID, seq<ID>>

  datatype Forest = Forest(folders: Entries, connections: Entries, folderChildren: Index, connectionChildren: Index)

  const EMPTY_FOREST := Forest(map[], map[], map[], map[])

  datatype Error = IdRequired | DuplicateId | NotFound | ParentNotFolder | Cycle

  datatype Outcome = Done | Failed(error: Error)

  datatype Op =
    | Add(node: Node)
    | Move(id: ID, newParent: ID)
    | Remove(target: ID)

  /** A Go map lookup: a missing key reads as the empty list. */
  function Children(ix: Index, p: ID): seq<ID> {
    if p in ix then ix[p] else []
  }

  /** How often x is listed in s. */
  function Count(s: seq<ID>, x: ID): nat {
    if s == [] then 0 else (if s[0] == x then 1 else 0) + Count(s[1..], x)
  }

  ghost function ParentsOf(m: Entries): Parents {
    map x | x in m :: m[x].parent
  }

  // ------------------------------------------------------------------
  // The invariant
  // ------------------------------------------------------------------

  ghost predicate WellKeyed(m: Entries) {
    NIL_ID !in m && forall x | x in m :: m[x].id == x
  }

  ghost function Listed(ix: Index, p: ID, x: ID): nat {
    Count(Children(ix, p), x)
  }

  ghost function IsChild(m: Entries, p: ID, x: ID): nat {
    if x in m && m[x].parent == p then 1 else 0
  }

  /** Each child list holds an ID once exactly when that node names it as its parent, plus `stale` under the root. */
  ghost predicate Indexed(m: Entries, ix: Index, stale: multiset<ID>) {
    forall p, x :: Listed(ix, p, x) == IsChild(m, p, x) + (if p == NIL_ID then stale[x] else 0)
  }

  ghost predicate Located(connections: Entries, folders: Entries) {
    forall c | c in connections :: connections[c].parent == NIL_ID || connections[c].parent in folders
  }

  /** The invariant of every reachable tree; `stale` are the dead IDs listed under the root. */
  ghost predicate Consistent(s: Forest, stale: multiset<ID>) {
    && WellKeyed(s.folders)
    && WellKeyed(s.connections)
    && s.folders.Keys !! s.connections.Keys
    && IsForest(ParentsOf(s.folders))
    && Located(s.connections, s.folders)
    && Indexed(s.folders, s.folderChildren, multiset{})
    && Indexed(s.connections, s.connectionChildren, stale)
  }

  /** The full invariant: nothing stale is listed anywhere. */
  ghost predicate Sound(s: Forest) {
    Consistent(s, multiset{})
  }

  // ------------------------------------------------------------------
  // The edits
  // ------------------------------------------------------------------

  ghost function AddOutcome(s: Forest, node: Node): Outcome {
    var e := node.entry;
    if e.id == NIL_ID then Failed(IdRequired)
    else if e.id in s.folders || e.id in s.connections then Failed(DuplicateId)
    else if e.parent != NIL_ID && e.parent !in s.folders then
      Failed(if node.FolderNode? then NotFound else ParentNotFolder)
    else Done
  }

  ghost function Added(s: Forest, node: Node): Forest {
    var e := node.entry;
    match node
    case FolderNode(_) =>
      s.(folders := s.folders[e.id := e],
         folderChildren := s.folderChildren[e.parent := Children(s.folderChildren, e.parent) + [e.id]])
    case ConnectionNode(_) =>
      s.(connections := s.connections[e.id := e],
         connectionChildren := s.connectionChildren[e.parent := Children(s.connectionChildren, e.parent) + [e.id]])
  }

  ghost function MoveOutcome(s: Forest, id: ID, newParent: ID): Outcome {
    if id == NIL_ID then Failed(NotFound)
    else if newParent != NIL_ID && newParent !in s.folders then Failed(ParentNotFolder)
    else if id in s.folders then
      if Under(ParentsOf(s.folders), newParent, id) then Failed(Cycle) else Done
    else if id in s.connections then Done
    else Failed(NotFound)
  }

  ghost function Relisted(ix: Index, from: ID, to: ID, id: ID): Index {
    var without := ix[from := RemoveFirst(Children(ix, from), id)];
    without[to := Children(without, to) + [id]]
  }

  ghost function Moved(s: Forest, id: ID, newParent: ID): Forest {
    if id in s.folders then
      s.(folders := s.folders[id := s.folders[id].(parent := newParent)],
         folderChildren := Relisted(s.folderChildren, s.folders[id].parent, newParent, id))
    else if id in s.connections then
      s.(connections := s.connections[id := s.connections[id].(parent := newParent)],
         connectionChildren := Relisted(s.connectionChildren, s.connections[id].parent, newParent, id))
    else s
  }

  ghost function RemoveOutcome(s: Forest, id: ID): Outcome {
    if id != NIL_ID && (id in s.folders || id in s.connections) then Done else Failed(NotFound)
  }

  /** The folders that go with id: id's whole subtree. */
  ghost function Doomed(s: Forest, id: ID): set<ID> {
    Subtree(ParentsOf(s.folders), id)
  }

  ghost function PrunedConnections(connections: Entries, dead: set<ID>): Entries {
    map c | c in connections && connections[c].parent !in dead :: connections[c]
  }

  /** Removing a folder takes exactly its subtree; a root-level connection keeps its place in the root list. */
  ghost function Pruned(s: Forest, id: ID): Forest {
    if id in s.folders then
      var dead := Doomed(s, id);
      var p := s.folders[id].parent;
      Forest(s.folders - dead,
             PrunedConnections(s.connections, dead),
             (s.folderChildren - dead)[p := RemoveFirst(Children(s.folderChildren, p), id)],
             s.connectionChildren - dead)
    else if id in s.connections then
      var p := s.connections[id].parent;
      s.(connections := s.connections - {id},
         connectionChildren := if p == NIL_ID then s.connectionChildren
                               else s.connectionChildren[p := RemoveFirst(Children(s.connectionChildren, p), id)])
    else s
  }

  ghost function OpOutcome(s: Forest, op: Op): Outcome {
    match op
    case Add(node) => AddOutcome(s, node)
    case Move(id, p) => MoveOutcome(s, id, p)
    case Remove(id) => RemoveOutcome(s, id)
  }

  /** A failed edit changes nothing. */
  ghost function Step(s: Forest, op: Op): Forest {
    if OpOutcome(s, op).Failed? then s else
    match op
    case Add(node) => Added(s, node)
    case Move(id, p) => Moved(s, id, p)
    case Remove(id) => Pruned(s, id)
  }

  // ------------------------------------------------------------------
  // Each edit keeps the invariant
  // ------------------------------------------------------------------

  lemma {:induction false} RemoveFirstCount(s: seq<ID>, x: ID, y: ID)
    ensures Count(RemoveFirst(s, x), y) == Count(s, y) - (if y == x && x in s then 1 else 0)
  {
    if s != [] {
      CountIn(s, x);
      CountIn(s[1..], x);
      if s[0] != x {
        RemoveFirstCount(s[1..], x, y);
      }
    }
  }

  lemma {:induction false} CountIn(s: seq<ID>, x: ID)
    ensures Count(s, x) > 0 <==> x in s
  {
    if s != [] {
      CountIn(s[1..], x);
      assert s == [s[0]] + s[1..];
    }
  }

  lemma {:induction false} CountConcat(a: seq<ID>, b: seq<ID>, x: ID)
    ensures Count(a + b, x) == Count(a, x) + Count(b, x)
  {
    if a == [] {
      assert a + b == b;
    } else {
      assert (a + b)[1..] == a[1..] + b;
      CountConcat(a[1..], b, x);
    }
  }

  lemma CountDistinct(s: seq<ID>, i: nat, j: nat)
    requires i < j < |s| && Count(s, s[i]) <= 1
    ensures s[i] != s[j]
  {
    assert s == s[..j] + s[j..];
    CountConcat(s[..j], s[j..], s[i]);
    CountIn(s[..j], s[i]);
    CountIn(s[j..], s[i]);
    assert s[..j][i] == s[i] && s[j..][0] == s[j];
  }

  lemma ListIndexed(m: Entries, ix: Index, stale: multiset<ID>, e: Entry)
    requires Indexed(m, ix, stale) && e.id !in m
    ensures Indexed(m[e.id := e], ix[e.parent := Children(ix, e.parent) + [e.id]], stale)
  {
    var siblings := Children(ix, e.parent) + [e.id];
    var ix' := ix[e.parent := siblings];
    forall p, x
      ensures Listed(ix', p, x) == IsChild(m[e.id := e], p, x) + (if p == NIL_ID then stale[x] else 0)
    {
      assert Listed(ix, p, x) == IsChild(m, p, x) + (if p == NIL_ID then stale[x] else 0);
      if p == e.parent {
        assert Children(ix', p) == siblings;
        CountConcat(Children(ix, p), [e.id], x);
      } else {
        assert Children(ix', p) == Children(ix, p);
      }
    }
  }

  lemma AddedConsistent(s: Forest, node: Node, stale: multiset<ID>)
    requires Consistent(s, stale) && AddOutcome(s, node).Done?
    ensures Consistent(Added(s, node), stale)
  {
    hide Indexed, IsForest;
    var e := node.entry;
    if node.FolderNode? {
      ListIndexed(s.folders, s.folderChildren, multiset{}, e);
      AddedFolderMaps(s, e);
    } else {
      ListIndexed(s.connections, s.connectionChildren, stale, e);
    }
  }

  lemma AddedFolderMaps(s: Forest, e: Entry)
    requires IsForest(ParentsOf(s.folders)) && Located(s.connections, s.folders) && AddOutcome(s, FolderNode(e)).Done?
    ensures IsForest(ParentsOf(s.folders[e.id := e])) && Located(s.connections, s.folders[e.id := e])
  {
    var par := ParentsOf(s.folders);
    InsertForest(par, e.id, e.parent);
    hide IsForest;
    assert ParentsOf(s.folders[e.id := e]) == par[e.id := e.parent];
  }

  lemma UnlistIndexed(m: Entries, ix: Index, stale: multiset<ID>, id: ID)
    requires Indexed(m, ix, stale) && id in m
    ensures Indexed(m - {id}, ix[m[id].parent := RemoveFirst(Children(ix, m[id].parent), id)], stale)
  {
    var from := m[id].parent;
    var ix' := ix[from := RemoveFirst(Children(ix, from), id)];
    assert id in Children(ix, from) by {
      assert Listed(ix, from, id) == IsChild(m, from, id) + (if from == NIL_ID then stale[id] else 0);
      CountIn(Children(ix, from), id);
    }
    forall p, x
      ensures Listed(ix', p, x) == IsChild(m - {id}, p, x) + (if p == NIL_ID then stale[x] else 0)
    {
      assert Listed(ix, p, x) == IsChild(m, p, x) + (if p == NIL_ID then stale[x] else 0);
      RemoveFirstCount(Children(ix, from), id, x);
    }
  }

  lemma RelistedIndexed(m: Entries, ix: Index, stale: multiset<ID>, id: ID, to: ID)
    requires Indexed(m, ix, stale) && id in m && m[id].id == id
    ensures Indexed(m[id := m[id].(parent := to)], Relisted(ix, m[id].parent, to, id), stale)
  {
    var from := m[id].parent;
    var e := m[id].(parent := to);
    UnlistIndexed(m, ix, stale, id);
    ListIndexed(m - {id}, ix[from := RemoveFirst(Children(ix, from), id)], stale, e);
    assert m[id := e] == (m - {id})[id := e];
  }

  lemma MovedConsistent(s: Forest, id: ID, newParent: ID, stale: multiset<ID>)
    requires Consistent(s, stale) && MoveOutcome(s, id, newParent).Done?
    ensures Consistent(Moved(s, id, newParent), stale)
  {
    if id in s.folders {
      RelistedIndexed(s.folders, s.folderChildren, multiset{}, id, newParent);
      ReparentForest(ParentsOf(s.folders), id, newParent);
      assert ParentsOf(Moved(s, id, newParent).folders) == ParentsOf(s.folders)[id := newParent];
    } else {
      RelistedIndexed(s.connections, s.connectionChildren, stale, id, newParent);
    }
  }

  /** Taking a set of nodes out of the map and of their parent's list, and dropping the lists of `dead`. */
  lemma CutIndexed(m: Entries, ix: Index, m': Entries, ix': Index, stale: multiset<ID>, dead: set<ID>)
    requires Indexed(m, ix, stale) && NIL_ID !in dead
    requires ix' == ix - dead
    requires m'.Keys <= m.Keys && forall x | x in m' :: m'[x] == m[x]
    requires forall x | x in m :: x in m' <==> m[x].parent !in dead
    ensures Indexed(m', ix', stale)
  {
    forall p, x
      ensures Listed(ix', p, x) == IsChild(m', p, x) + (if p == NIL_ID then stale[x] else 0)
    {
      assert Listed(ix, p, x) == IsChild(m, p, x) + (if p == NIL_ID then stale[x] else 0);
    }
  }

  lemma PrunedFolderConsistent(s: Forest, id: ID, stale: multiset<ID>)
    requires Consistent(s, stale) && id in s.folders
    ensures Consistent(Pruned(s, id), stale)
  {
    var par := ParentsOf(s.folders);
    var dead := Doomed(s, id);
    var t := Pruned(s, id);
    SubtreeDownClosed(par, id);
    CutForest(par, dead);
    assert ParentsOf(t.folders) == par - dead;
    hide Indexed, IsForest, Under, Subtree;
    PrunedFolderIndexed(s, id);
    PrunedConnectionsIndexed(s, id, stale);
    assert Located(t.connections, t.folders);
  }

  lemma PrunedConnectionsIndexed(s: Forest, id: ID, stale: multiset<ID>)
    requires Indexed(s.connections, s.connectionChildren, stale) && id in s.folders && NIL_ID !in Doomed(s, id)
    ensures Indexed(Pruned(s, id).connections, Pruned(s, id).connectionChildren, stale)
  {
    hide Indexed, Doomed;
    var t := Pruned(s, id);
    CutIndexed(s.connections, s.connectionChildren, t.connections, t.connectionChildren, stale, Doomed(s, id));
  }

  /** Apart from the removed folder itself, exactly the folders below it go. */
  lemma PrunedFolders(s: Forest, id: ID)
    requires IsForest(ParentsOf(s.folders)) && id in s.folders
    ensures forall x | x in s.folders - {id} :: x in Pruned(s, id).folders <==> s.folders[x].parent !in Doomed(s, id)
  {
    var par := ParentsOf(s.folders);
    UnderSelf(par, id);
    ParentNotUnderChild(par, id);
    hide IsForest;
    forall x | x in s.folders - {id}
      ensures x in Pruned(s, id).folders <==> s.folders[x].parent !in Doomed(s, id)
    {
      UnderStep(par, x, id);
      RootedParent(par, x);
    }
  }

  lemma PrunedFolderIndexed(s: Forest, id: ID)
    requires WellKeyed(s.folders) && IsForest(ParentsOf(s.folders)) && id in s.folders
    requires Indexed(s.folders, s.folderChildren, multiset{})
    ensures Indexed(Pruned(s, id).folders, Pruned(s, id).folderChildren, multiset{})
    ensures NIL_ID !in Doomed(s, id)
  {
    var par := ParentsOf(s.folders);
    var dead := Doomed(s, id);
    var p := s.folders[id].parent;
    var t := Pruned(s, id);
    UnderSelf(par, id);
    ParentNotUnderChild(par, id);
    UnlistIndexed(s.folders, s.folderChildren, multiset{}, id);
    var unlisted := s.folderChildren[p := RemoveFirst(Children(s.folderChildren, p), id)];
    hide Indexed, IsForest;
    PrunedFolders(s, id);
    hide Under, Doomed;
    CutIndexed(s.folders - {id}, unlisted, t.folders, unlisted - dead, multiset{}, dead);
    assert t.folderChildren == unlisted - dead;
  }

  lemma PrunedConnectionConsistent(s: Forest, id: ID, stale: multiset<ID>)
    requires Consistent(s, stale) && id in s.connections && id !in s.folders
    ensures Consistent(Pruned(s, id), stale + StaleFrom(s, Remove(id)))
  {
    var t := Pruned(s, id);
    var p := s.connections[id].parent;
    if p != NIL_ID {
      UnlistIndexed(s.connections, s.connectionChildren, stale, id);
      assert stale + multiset{} == stale;
    } else {
      var stale' := stale + multiset{id};
      forall q, x
        ensures Listed(t.connectionChildren, q, x)
             == IsChild(t.connections, q, x) + (if q == NIL_ID then stale'[x] else 0)
      {
        assert Listed(s.connectionChildren, q, x)
            == IsChild(s.connections, q, x) + (if q == NIL_ID then stale[x] else 0);
      }
    }
  }

  // ------------------------------------------------------------------
  // Whole runs
  // ------------------------------------------------------------------

  /** What one edit leaves behind in the root list: a removed root-level connection, and nothing else. */
  ghost function StaleFrom(s: Forest, op: Op): multiset<ID> {
    if op.Remove? && op.target != NIL_ID && op.target !in s.folders
       && op.target in s.connections && s.connections[op.target].parent == NIL_ID
    then multiset{op.target}
    else multiset{}
  }

  lemma StepConsistent(s: Forest, op: Op, stale: multiset<ID>)
    requires Consistent(s, stale)
    ensures Consistent(Step(s, op), stale + StaleFrom(s, op))
  {
    assert stale + multiset{} == stale;
    if OpOutcome(s, op).Done? {
      match op {
        case Add(node) => AddedConsistent(s, node, stale);
        case Move(id, p) => MovedConsistent(s, id, p, stale);
        case Remove(id) =>
          if id in s.folders {
            PrunedFolderConsistent(s, id, stale);
          } else {
            PrunedConnectionConsistent(s, id, stale);
          }
      }
    }
  }

  ghost function Run(s: Forest, ops: seq<Op>): Forest
    decreases |ops|
  {
    if ops == [] then s else Run(Step(s, ops[0]), ops[1..])
  }

  /** The root-level connections removed during a run, with multiplicity. */
  ghost function StaleOf(s: Forest, ops: seq<Op>): multiset<ID>
    decreases |ops|
  {
    if ops == [] then multiset{} else StaleFrom(s, ops[0]) + StaleOf(Step(s, ops[0]), ops[1..])
  }

  lemma {:induction false} RunConsistent(s: Forest, ops: seq<Op>, stale: multiset<ID>)
    requires Consistent(s, stale)
    ensures Consistent(Run(s, ops), stale + StaleOf(s, ops))
    decreases |ops|
  {
    if ops == [] {
      assert stale + multiset{} == stale;
    } else {
      StepConsistent(s, ops[0], stale);
      RunConsistent(Step(s, ops[0]), ops[1..], stale + StaleFrom(s, ops[0]));
      assert stale + StaleFrom(s, ops[0]) + StaleOf(Step(s, ops[0]), ops[1..]) == stale + StaleOf(s, ops);
    }
  }

  /** The surplus of the root list is a function of the state, so `stale` is determined by it. */
  lemma StaleUnique(s: Forest, stale: multiset<ID>, stale': multiset<ID>)
    requires Consistent(s, stale) && Consistent(s, stale')
    ensures stale == stale'
  {
    forall x
      ensures stale[x] == stale'[x]
    {
      assert Listed(s.connectionChildren, NIL_ID, x) == IsChild(s.connections, NIL_ID, x) + stale[x];
      assert Listed(s.connectionChildren, NIL_ID, x) == IsChild(s.connections, NIL_ID, x) + stale'[x];
    }
  }

  lemma EmptySound()
    ensures Sound(EMPTY_FOREST)
  {
    assert ParentsOf(EMPTY_FOREST.folders) == map[];
  }

  /**
   * Every run of edits from the empty tree keeps disjoint non-nil IDs, existing parents and no cycles,
   * and the child lists agree with the parents exactly when the run removed no root-level connection:
   * each such removal leaves one stale entry under the root, and nothing else ever does.
   */
  lemma RunTheorem(ops: seq<Op>)
    ensures Consistent(Run(EMPTY_FOREST, ops), StaleOf(EMPTY_FOREST, ops))
    ensures Sound(Run(EMPTY_FOREST, ops)) <==> StaleOf(EMPTY_FOREST, ops) == multiset{}
  {
    EmptySound();
    RunConsistent(EMPTY_FOREST, ops, multiset{});
    assert multiset{} + StaleOf(EMPTY_FOREST, ops) == StaleOf(EMPTY_FOREST, ops);
    if Sound(Run(EMPTY_FOREST, ops)) {
      StaleUnique(Run(EMPTY_FOREST, ops), multiset{}, StaleOf(EMPTY_FOREST, ops));
    }
  }

  /** Removing a root-level connection leaves its ID listed under the root, although it names no node any more. */
  lemma RootRemovalLeavesEntry(s: Forest, id: ID)
    requires Sound(s) && id in s.connections && s.connections[id].parent == NIL_ID
    ensures var t := Step(s, Remove(id));
            && id !in t.folders && id !in t.connections && Count(Children(t.connectionChildren, NIL_ID), id) == 1
            && Consistent(t, multiset{id}) && !Sound(t)
  {
    var t := Step(s, Remove(id));
    assert Listed(s.connectionChildren, NIL_ID, id) == IsChild(s.connections, NIL_ID, id) + multiset{}[id];
    PrunedConnectionConsistent(s, id, multiset{});
    assert multiset{} + multiset{id} == multiset{id};
    if Sound(t) {
      StaleUnique(t, multiset{}, multiset{id});
    }
  }

  /** Move reports a cycle exactly when carrying it out would break the forest. */
  lemma CycleExactly(s: Forest, id: ID, newParent: ID, stale: multiset<ID>)
    requires Consistent(s, stale) && id in s.folders && (newParent == NIL_ID || newParent in s.folders)
    ensures MoveOutcome(s, id, newParent) == Failed(Cycle)
       <==> !IsForest(ParentsOf(s.folders[id := s.folders[id].(parent := newParent)]))
  {
    ReparentForest(ParentsOf(s.folders), id, newParent);
    assert ParentsOf(s.folders[id := s.folders[id].(parent := newParent)]) == ParentsOf(s.folders)[id := newParent];
  }
}
