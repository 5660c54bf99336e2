// Duplicating a node while the tree is being walked
// (internal/app/commands.go, DuplicateNode): the visitor adds copies to the
// very tree that the walk is reading.
module Duplication {
  import opened Octets
  import opened Identifiers
  import opened Ancestry
  import opened Forests
  import opened Edits
  import opened Walks
  import opened Snapshots
  import opened Trees

  /** " (copy)" */
  const COPY_SUFFIX: Bytes := [0x20, 0x28, 0x63, 0x6f, 0x70, 0x79, 0x29]

  /** What the visitor changes: the tree, the map from originals to copies, and how many new IDs are taken. */
  datatype Copying = Copying(tree: Forest, idMap: map<ID, ID>, taken: nat)

  /** The IDs NewID will hand out, one for each visit at least: non-nil, all different, none in use or listed. */
  ghost predicate FreshSupply(s: Forest, stale: multiset<ID>, supply: seq<ID>) {
    && |s.folders| + |s.connections| + |RootList(s)| <= |supply|
    && (forall i | 0 <= i < |supply| ::
          supply[i] != NIL_ID && supply[i] !in s.folders && supply[i] !in s.connections && stale[supply[i]] == 0)
    && (forall i, j | 0 <= i < j < |supply| :: supply[i] != supply[j])
  }

  /** The k-th ID handed out. */
  function NewID(supply: seq<ID>, k: nat): ID {
    if k < |supply| then supply[k] else NIL_ID
  }

  function WithEntry(n: Node, e: Entry): Node {
    match n
    case FolderNode(_) => FolderNode(e)
    case ConnectionNode(_) => ConnectionNode(e)
  }

  /** The copy that the visitor adds for a node it copies. */
  ghost function VisitAdds(st: Copying, n: Node, root: ID, supply: seq<ID>): Node {
    var e := n.entry;
    var next := NewID(supply, st.taken);
    WithEntry(n, if e.id == root then e.(id := next, name := e.name + COPY_SUFFIX)
                 else e.(id := next, parent := At(st.idMap, e.parent)))
  }

  ghost function VisitStep(st: Copying, n: Node, root: ID, supply: seq<ID>): Copying {
    if n.entry.id == root || n.entry.parent in st.idMap then
      Copying(Added(st.tree, VisitAdds(st, n, root, supply)),
              st.idMap[n.entry.id := NewID(supply, st.taken)],
              st.taken + 1)
    else st
  }

  ghost function VisitAll(s: Forest, root: ID, supply: seq<ID>, v: seq<Node>): Copying {
    if v == [] then Copying(s, map[], 0)
    else VisitStep(VisitAll(s, root, supply, v[..|v| - 1]), v[|v| - 1], root, supply)
  }

  // ------------------------------------------------------------------
  // What a finished copy is
  // ------------------------------------------------------------------

  /** root, and when root is a folder everything below it. */
  ghost predicate InBranch(s: Forest, x: ID, root: ID) {
    if root in s.folders then AtOrWithin(s.folders, s.connections, x, root) else x == root
  }

  /** A Go map lookup: a missing key reads as the zero ID. */
  function At(idMap: map<ID, ID>, x: ID): ID {
    if x in idMap then idMap[x] else NIL_ID
  }

  /** The copy of one node: a new ID, the copied parent, and a new name for the root of the copy only. */
  function CopyEntry(e: Entry, root: ID, idMap: map<ID, ID>): Entry {
    if e.id == root then Entry(At(idMap, root), e.parent, e.name + COPY_SUFFIX, e.payload)
    else Entry(At(idMap, e.id), At(idMap, e.parent), e.name, e.payload)
  }

  ghost predicate Kept(before: Entries, after: Entries) {
    forall x | x in before :: x in after && after[x] == before[x]
  }

  ghost predicate CopiedAt(before: Entries, after: Entries, root: ID, idMap: map<ID, ID>, x: ID)
    requires x in before && x in idMap
  {
    && (x != root ==> before[x].parent in idMap)
    && idMap[x] in after
    && after[idMap[x]] == CopyEntry(before[x], root, idMap)
  }

  ghost predicate CopyOfSome(before: Entries, idMap: map<ID, ID>, y: ID) {
    exists x :: x in before && x in idMap && idMap[x] == y
  }

  /** after holds before, untouched, and a copy of every node of before that idMap names. */
  ghost predicate Copied(before: Entries, after: Entries, root: ID, idMap: map<ID, ID>) {
    && Kept(before, after)
    && (forall x {:trigger CopiedAt(before, after, root, idMap, x)} | x in before && x in idMap ::
          CopiedAt(before, after, root, idMap, x))
  }

  /** Nothing else is new in after. */
  ghost predicate NoMore(before: Entries, after: Entries, idMap: map<ID, ID>) {
    forall y {:trigger CopyOfSome(before, idMap, y)} | y in after && y !in before :: CopyOfSome(before, idMap, y)
  }

  ghost predicate Renaming(s: Forest, idMap: map<ID, ID>) {
    && (forall x | x in idMap :: idMap[x] != NIL_ID && idMap[x] !in s.folders && idMap[x] !in s.connections)
    && (forall x, y | x in idMap && y in idMap && x != y :: idMap[x] != idMap[y])
  }

  /** t holds s, untouched, and an isomorphic copy of the branch at root, hung beside it. */
  ghost predicate HoldsCopy(s: Forest, stale: multiset<ID>, t: Forest, root: ID, idMap: map<ID, ID>) {
    && Consistent(t, stale)
    && (forall x :: x in idMap <==> InBranch(s, x, root))
    && Renaming(s, idMap)
    && Copied(s.folders, t.folders, root, idMap) && NoMore(s.folders, t.folders, idMap)
    && Copied(s.connections, t.connections, root, idMap)
  }

  /** t is s together with an isomorphic copy of the branch, and nothing else. */
  ghost predicate IsDuplicate(s: Forest, stale: multiset<ID>, t: Forest, root: ID, idMap: map<ID, ID>) {
    HoldsCopy(s, stale, t, root, idMap) && NoMore(s.connections, t.connections, idMap)
  }

  /**
   * What holding a copy means, node by node: the root's copy stands beside the root under the root's name and
   * " (copy)"; every other node of the branch has a copy of its own kind, under the copy of its parent, with the same
   * name and the same other fields; and the originals are as they were.
   */
  lemma CopyExactly(s: Forest, stale: multiset<ID>, t: Forest, root: ID, idMap: map<ID, ID>)
    requires Consistent(s, stale) && HoldsCopy(s, stale, t, root, idMap)
    ensures root in s.folders ==>
              var e := s.folders[root];
              && root in idMap && idMap[root] in t.folders
              && t.folders[idMap[root]]
                 == Entry(idMap[root], e.parent, e.name + [32, 40, 99, 111, 112, 121, 41], e.payload)
    ensures root in s.connections ==>
              var e := s.connections[root];
              && idMap.Keys == {root} && idMap[root] in t.connections
              && t.connections[idMap[root]]
                 == Entry(idMap[root], e.parent, e.name + [32, 40, 99, 111, 112, 121, 41], e.payload)
    ensures forall x | root in s.folders && x in s.folders && x != root && Under(ParentsOf(s.folders), x, root) ::
              var e := s.folders[x];
              && x in idMap && e.parent in idMap && idMap[x] in t.folders
              && t.folders[idMap[x]] == Entry(idMap[x], idMap[e.parent], e.name, e.payload)
    ensures forall x | root in s.folders && x in s.connections
                       && Under(ParentsOf(s.folders), s.connections[x].parent, root) ::
              var e := s.connections[x];
              && x in idMap && e.parent in idMap && idMap[x] in t.connections
              && t.connections[idMap[x]] == Entry(idMap[x], idMap[e.parent], e.name, e.payload)
    ensures forall x | x in idMap && x != root ::
              && root in s.folders
              && (if x in s.folders then Under(ParentsOf(s.folders), x, root)
                  else x in s.connections && Under(ParentsOf(s.folders), s.connections[x].parent, root))
    ensures forall x | x in s.folders :: x in t.folders && t.folders[x] == s.folders[x]
    ensures forall x | x in s.connections :: x in t.connections && t.connections[x] == s.connections[x]
  {
    NilIsNoNode(s, stale);
    hide Consistent, Under, NoMore, Renaming;
    if root in s.folders {
      forall x | x in s.folders && (x == root || Under(ParentsOf(s.folders), x, root))
        ensures x in idMap && CopiedAt(s.folders, t.folders, root, idMap, x)
      {
      }
      forall x | x in s.connections && Under(ParentsOf(s.folders), s.connections[x].parent, root)
        ensures x in idMap && CopiedAt(s.connections, t.connections, root, idMap, x)
      {
      }
    } else if root in s.connections {
      assert CopiedAt(s.connections, t.connections, root, idMap, root);
    }
  }

  // ------------------------------------------------------------------
  // The visitor's invariant
  // ------------------------------------------------------------------

  ghost predicate HandedOut(supply: seq<ID>, n: nat, y: ID) {
    exists j :: 0 <= j < n && j < |supply| && supply[j] == y
  }

  /** Every copy has an ID that was handed out. */
  ghost predicate NamesHandedOut(supply: seq<ID>, n: nat, idMap: map<ID, ID>) {
    forall x | x in idMap :: HandedOut(supply, n, idMap[x])
  }

  /** Only IDs that were handed out are new in t. */
  ghost predicate NewHandedOut(s: Forest, t: Forest, supply: seq<ID>, n: nat) {
    && (forall y | y in t.folders && y !in s.folders :: HandedOut(supply, n, y))
    && (forall y | y in t.connections && y !in s.connections :: HandedOut(supply, n, y))
  }

  /** No node of the branch has been visited twice. */
  ghost predicate OnceInBranch(s: Forest, root: ID, v: seq<Node>) {
    forall x | InBranch(s, x, root) :: Count(Ids(v), x) <= 1
  }

  /** A level is untouched until its own root of the copy has been visited. */
  ghost predicate LevelKept(m: Entries, ix: Index, ix': Index, root: ID, v: seq<Node>, p: ID) {
    (root in m && m[root].parent == p ==> root !in Ids(v)) ==> Children(ix', p) == Children(ix, p)
  }

  ghost predicate LevelsKept(s: Forest, t: Forest, root: ID, v: seq<Node>) {
    forall p | p == NIL_ID || p in s.folders ::
      && LevelKept(s.folders, s.folderChildren, t.folderChildren, root, v, p)
      && LevelKept(s.connections, s.connectionChildren, t.connectionChildren, root, v, p)
  }

  /** The copied nodes are the branch's visited ones. */
  ghost predicate DomainIs(s: Forest, root: ID, v: seq<Node>, idMap: map<ID, ID>) {
    forall x :: x in idMap <==> InBranch(s, x, root) && x in Ids(v)
  }

  /** What has been named: the branch's visited nodes, each after its own new ID. */
  ghost predicate Named(s: Forest, root: ID, supply: seq<ID>, v: seq<Node>, st: Copying) {
    && st.taken <= |v|
    && DomainIs(s, root, v, st.idMap)
    && NamesHandedOut(supply, st.taken, st.idMap)
    && NewHandedOut(s, st.tree, supply, st.taken)
    && Renaming(s, st.idMap)
  }

  /** What has been added: a copy of each named node, and more only if a node of the branch was visited twice. */
  ghost predicate CopiesMade(s: Forest, root: ID, v: seq<Node>, st: Copying) {
    && Copied(s.folders, st.tree.folders, root, st.idMap)
    && NoMore(s.folders, st.tree.folders, st.idMap)
    && Copied(s.connections, st.tree.connections, root, st.idMap)
    && (NoMore(s.connections, st.tree.connections, st.idMap) <==> OnceInBranch(s, root, v))
  }

  /** After visiting the prefix v of the walk. */
  ghost predicate MidCopy(s: Forest, stale: multiset<ID>, root: ID, supply: seq<ID>, v: seq<Node>, st: Copying) {
    && Consistent(st.tree, stale)
    && Named(s, root, supply, v, st)
    && CopiesMade(s, root, v, st)
    && LevelsKept(s, st.tree, root, v)
  }

  ghost predicate CanDuplicate(s: Forest, stale: multiset<ID>, root: ID, supply: seq<ID>) {
    Consistent(s, stale) && (root in s.folders || root in s.connections) && FreshSupply(s, stale, supply)
  }

  /** Which nodes the visitor copies: the root, and any node whose parent it has copied. */
  lemma CopiesBranch(s: Forest, stale: multiset<ID>, root: ID, n: Node)
    requires Consistent(s, stale) && (root in s.folders || root in s.connections)
    requires Own(s.folders, s.connections, n) && n.entry.id != root
    ensures InBranch(s, n.entry.id, root) <==> InBranch(s, n.entry.parent, root) && n.entry.parent in s.folders
  {
    var par := ParentsOf(s.folders);
    var e := n.entry;
    UnderStep(par, e.id, root);
    UnderSelf(par, root);
    UnderStep(par, e.parent, root);
    if n.FolderNode? {
      assert par[e.id] == e.parent;
      RootedParent(par, e.id);
    }
  }

  // ------------------------------------------------------------------
  // The walk's positions
  // ------------------------------------------------------------------

  lemma {:induction false} NodeCountBound(v: seq<Node>, ids: set<ID>)
    requires forall x :: Count(Ids(v), x) <= if x in ids then 1 else 0
    ensures |v| <= |ids|
    decreases |v|
  {
    if v != [] {
      var x := v[0].entry.id;
      assert Ids(v)[1..] == Ids(v[1..]);
      assert Count(Ids(v), x) <= if x in ids then 1 else 0;
      forall y
        ensures Count(Ids(v[1..]), y) <= if y in ids - {x} then 1 else 0
      {
        assert Count(Ids(v), y) <= if y in ids then 1 else 0;
      }
      NodeCountBound(v[1..], ids - {x});
    }
  }

  /** The k-th node of a walk is the tree's own, its parent has been visited, and there is an ID for it. */
  lemma WalkPosition(s: Forest, stale: multiset<ID>, root: ID, supply: seq<ID>, w: seq<Node>, k: nat)
    requires CanDuplicate(s, stale, root, supply) && Walkable(s.folders, s.connections) && w == Walked(s).0 && k < |w|
    ensures Own(s.folders, s.connections, w[k])
    ensures w[k].FolderNode? ==> w[k].entry.id !in Ids(w[..k])
    ensures w[k].entry.parent == NIL_ID || w[k].entry.parent in Ids(w[..k])
    ensures k < |supply|
  {
    var full, front := WalkOf(s), FolderPart(s);
    FolderPartLeads(s);
    WalkedOwn(s, stale);
    SupplySuffices(s, stale, supply);
    assert w[k] in w;
    if k < |front| {
      assert full[k] == w[k] && full[..k] == w[..k];
      WalkTheorem(s, stale);
      hide Consistent, Count, WalkOf, Walked, ParentsFirst, Walkable, FreshSupply, FolderPart;
      OnceOnly(full, k);
      ParentBefore(full, k);
    } else {
      BehindFolders(s, stale, w, k);
    }
  }

  /** Behind the folders only connections are visited, and every folder has been. */
  lemma BehindFolders(s: Forest, stale: multiset<ID>, w: seq<Node>, k: nat)
    requires Consistent(s, stale) && w == Walked(s).0 && |FolderPart(s)| <= k < |w|
    ensures w[k].ConnectionNode?
    ensures Own(s.folders, s.connections, w[k]) ==> w[k].entry.parent == NIL_ID || w[k].entry.parent in Ids(w[..k])
  {
    var front := FolderPart(s);
    var p := w[k].entry.parent;
    FolderPartLeads(s);
    if p in s.folders {
      FolderPartCount(s, stale, p);
      CountIn(Ids(front), p);
      var i :| 0 <= i < |front| && Ids(front)[i] == p;
      assert Ids(w[..k])[i] == p;
    }
  }

  /** Where every ID occurs at most once, it does not occur before its own position. */
  lemma OnceOnly(w: seq<Node>, k: nat)
    requires k < |w| && Count(Ids(w), w[k].entry.id) <= 1
    ensures w[k].entry.id !in Ids(w[..k])
  {
    hide Count;
    var x := w[k].entry.id;
    assert w == w[..k] + w[k..];
    CountIds(w[..k], w[k..], x);
    CountIn(Ids(w[..k]), x);
    CountIn(Ids(w[k..]), x);
    assert Ids(w[k..])[0] == x;
  }

  lemma ParentBefore(w: seq<Node>, k: nat)
    requires k < |w| && ParentsFirst(w, NIL_ID)
    ensures w[k].entry.parent == NIL_ID || w[k].entry.parent in Ids(w[..k])
  {
    var p := w[k].entry.parent;
    if p != NIL_ID {
      assert VisitedBefore(w, k, p);
      var j :| 0 <= j < k && j < |w| && w[j].FolderNode? && w[j].entry.id == p;
      assert Ids(w[..k])[j] == p;
    }
  }

  lemma SupplySuffices(s: Forest, stale: multiset<ID>, supply: seq<ID>)
    requires Consistent(s, stale) && FreshSupply(s, stale, supply)
    ensures |Walked(s).0| <= |supply|
  {
    WalkTheorem(s, stale);
    FolderPartLeads(s);
    hide Count, Consistent, FolderPart, WalkOf, Walked, RootList;
    NodeCountBound(WalkOf(s), s.folders.Keys + s.connections.Keys);
    assert |s.folders.Keys + s.connections.Keys| <= |s.folders.Keys| + |s.connections.Keys|;
  }

  // ------------------------------------------------------------------
  // One visit
  // ------------------------------------------------------------------

  /** One more copy. A node that was copied before leaves its former copy behind, named by nothing. */
  lemma CopiedExtends(before: Entries, after: Entries, root: ID, idMap: map<ID, ID>, x: ID, next: ID)
    requires WellKeyed(before) && Copied(before, after, root, idMap) && x in before && next !in after
    requires x != root ==> before[x].parent in idMap
    requires forall z | z in before && z in idMap && z != root :: before[z].parent != x
    ensures Copied(before, after[next := CopyEntry(before[x], root, idMap[x := next])], root, idMap[x := next])
  {
    var idMap' := idMap[x := next];
    var after' := after[next := CopyEntry(before[x], root, idMap')];
    forall z | z in before && z in idMap'
      ensures CopiedAt(before, after', root, idMap', z)
    {
      if z != x {
        assert CopiedAt(before, after, root, idMap, z);
        assert CopyEntry(before[z], root, idMap') == CopyEntry(before[z], root, idMap);
      }
    }
  }

  lemma NoMoreExtends(s: Forest, before: Entries, after: Entries, after': Entries, root: ID, idMap: map<ID, ID>, x: ID,
                      next: ID)
    requires Renaming(s, idMap) && (before == s.folders || before == s.connections)
    requires Copied(before, after, root, idMap) && x in before && next !in after && next !in before
    requires after'.Keys == after.Keys + {next}
    ensures NoMore(before, after', idMap[x := next]) <==> NoMore(before, after, idMap) && x !in idMap
  {
    var idMap' := idMap[x := next];
    assert idMap'[x] == next && CopyOfSome(before, idMap', next);
    forall y | y in after && y !in before
      ensures CopyOfSome(before, idMap', y) <==> CopyOfSome(before, idMap, y) && !(x in idMap && idMap[x] == y)
    {
      if CopyOfSome(before, idMap, y) {
        var z :| z in before && z in idMap && idMap[z] == y;
        if z != x {
          assert idMap'[z] == y;
        }
      }
      if CopyOfSome(before, idMap', y) {
        var z :| z in before && z in idMap' && idMap'[z] == y;
        assert z != x && idMap[z] == y;
      }
    }
    if x in idMap {
      assert CopiedAt(before, after, root, idMap, x);
    }
  }

  /** Renaming one node of the other kind leaves this kind alone. */
  lemma CopiedOther(before: Entries, after: Entries, root: ID, idMap: map<ID, ID>, x: ID, next: ID)
    requires WellKeyed(before) && Copied(before, after, root, idMap) && x !in before
    requires forall z | z in before && z in idMap && z != root :: before[z].parent != x
    ensures Copied(before, after, root, idMap[x := next])
    ensures NoMore(before, after, idMap[x := next]) <==> NoMore(before, after, idMap)
  {
    var idMap' := idMap[x := next];
    forall z | z in before && z in idMap'
      ensures CopiedAt(before, after, root, idMap', z)
    {
      assert CopiedAt(before, after, root, idMap, z);
      assert CopyEntry(before[z], root, idMap') == CopyEntry(before[z], root, idMap);
    }
    forall y
      ensures CopyOfSome(before, idMap', y) <==> CopyOfSome(before, idMap, y)
    {
      if z :| z in before && z in idMap && idMap[z] == y {
        assert idMap'[z] == y;
      }
      if z :| z in before && z in idMap' && idMap'[z] == y {
        assert idMap[z] == y;
      }
    }
  }

  lemma SupplyNext(s: Forest, stale: multiset<ID>, supply: seq<ID>, taken: nat, idMap: map<ID, ID>, x: ID)
    requires FreshSupply(s, stale, supply) && taken < |supply| && Renaming(s, idMap)
    requires NamesHandedOut(supply, taken, idMap)
    ensures Renaming(s, idMap[x := NewID(supply, taken)])
    ensures NamesHandedOut(supply, taken + 1, idMap[x := NewID(supply, taken)])
  {
    var next := NewID(supply, taken);
    forall z | z in idMap
      ensures idMap[z] != next && HandedOut(supply, taken + 1, idMap[z])
    {
      assert HandedOut(supply, taken, idMap[z]);
    }
    assert HandedOut(supply, taken + 1, next);
  }

  /** The next ID is in use nowhere. */
  lemma NextIsNew(s: Forest, stale: multiset<ID>, t: Forest, supply: seq<ID>, taken: nat)
    requires FreshSupply(s, stale, supply) && taken < |supply| && NewHandedOut(s, t, supply, taken)
    ensures var next := NewID(supply, taken);
            && next != NIL_ID && next !in s.folders && next !in s.connections
            && next !in t.folders && next !in t.connections
            && HandedOut(supply, taken + 1, next)
    ensures NewHandedOut(s, t, supply, taken + 1)
  {
    var next := NewID(supply, taken);
    assert !HandedOut(supply, taken, next);
    assert HandedOut(supply, taken + 1, next);
    forall y | HandedOut(supply, taken, y)
      ensures HandedOut(supply, taken + 1, y)
    {
    }
  }

  lemma NewHandedOutNext(s: Forest, t: Forest, copy: Node, supply: seq<ID>, taken: nat)
    requires NewHandedOut(s, t, supply, taken + 1) && HandedOut(supply, taken + 1, copy.entry.id)
    ensures NewHandedOut(s, Added(t, copy), supply, taken + 1)
  {
  }

  /** A copy can be added: its ID is in use nowhere and its parent is there. */
  lemma CopyAdds(s: Forest, stale: multiset<ID>, root: ID, supply: seq<ID>, v: seq<Node>, st: Copying, n: Node)
    requires CanDuplicate(s, stale, root, supply) && MidCopy(s, stale, root, supply, v, st)
    requires Own(s.folders, s.connections, n) && |v| < |supply|
    requires n.entry.id == root || (n.entry.parent in st.idMap && n.entry.parent in s.folders)
    ensures AddOutcome(st.tree, VisitAdds(st, n, root, supply)).Done?
  {
    NextIsNew(s, stale, st.tree, supply, st.taken);
    if n.entry.id != root {
      assert CopiedAt(s.folders, st.tree.folders, root, st.idMap, n.entry.parent);
    } else if n.FolderNode? {
      RootedParent(ParentsOf(s.folders), n.entry.id);
    }
  }

  /** A node that is visited now is no parent of a node copied before. */
  lemma NotAParent(s: Forest, stale: multiset<ID>, root: ID, t: Forest, idMap: map<ID, ID>, n: Node)
    requires Consistent(s, stale) && Own(s.folders, s.connections, n)
    requires n.FolderNode? ==> n.entry.id !in idMap
    requires Copied(s.folders, t.folders, root, idMap) && Copied(s.connections, t.connections, root, idMap)
    ensures forall z | z in s.folders && z in idMap && z != root :: s.folders[z].parent != n.entry.id
    ensures forall z | z in s.connections && z in idMap && z != root :: s.connections[z].parent != n.entry.id
  {
    forall z | z in s.folders && z in idMap && z != root
      ensures s.folders[z].parent != n.entry.id
    {
      assert CopiedAt(s.folders, t.folders, root, idMap, z);
      RootedParent(ParentsOf(s.folders), z);
    }
    forall z | z in s.connections && z in idMap && z != root
      ensures s.connections[z].parent != n.entry.id
    {
      assert CopiedAt(s.connections, t.connections, root, idMap, z);
    }
  }

  lemma CopyMaps(s: Forest, stale: multiset<ID>, root: ID, t: Forest, idMap: map<ID, ID>, n: Node, next: ID)
    requires Consistent(s, stale) && Own(s.folders, s.connections, n) && Renaming(s, idMap)
    requires n.FolderNode? ==> n.entry.id !in idMap
    requires next !in t.folders && next !in t.connections && next !in s.folders && next !in s.connections
    requires n.entry.id != root ==> n.entry.parent in idMap
    requires Copied(s.folders, t.folders, root, idMap) && NoMore(s.folders, t.folders, idMap)
    requires Copied(s.connections, t.connections, root, idMap)
    ensures var idMap' := idMap[n.entry.id := next];
            var u := Added(t, WithEntry(n, CopyEntry(n.entry, root, idMap')));
            && Copied(s.folders, u.folders, root, idMap') && NoMore(s.folders, u.folders, idMap')
            && Copied(s.connections, u.connections, root, idMap')
            && (NoMore(s.connections, u.connections, idMap')
                <==> NoMore(s.connections, t.connections, idMap) && n.entry.id !in idMap)
  {
    var x := n.entry.id;
    var idMap' := idMap[x := next];
    var u := Added(t, WithEntry(n, CopyEntry(n.entry, root, idMap')));
    assert CopyEntry(n.entry, root, idMap').id == next;
    NotAParent(s, stale, root, t, idMap, n);
    hide Copied, NoMore, IsForest, Indexed;
    if n.FolderNode? {
      CopiedExtends(s.folders, t.folders, root, idMap, x, next);
      NoMoreExtends(s, s.folders, t.folders, u.folders, root, idMap, x, next);
      CopiedOther(s.connections, t.connections, root, idMap, x, next);
    } else {
      CopiedExtends(s.connections, t.connections, root, idMap, x, next);
      NoMoreExtends(s, s.connections, t.connections, u.connections, root, idMap, x, next);
      CopiedOther(s.folders, t.folders, root, idMap, x, next);
    }
  }

  /** Listing a new ID under q leaves the level of p alone, unless that level holds the root and the root is visited. */
  lemma LevelStays(m: Entries, ix: Index, ix': Index, root: ID, v: seq<Node>, n: Node, p: ID, q: ID, id: ID)
    requires LevelKept(m, ix, ix', root, v, p)
    requires p == q ==> n.entry.id == root && root in m && m[root].parent == p
    ensures LevelKept(m, ix, ix'[q := Children(ix', q) + [id]], root, v + [n], p)
  {
    IdsConcat(v, [n]);
    assert Ids([n]) == [n.entry.id];
  }

  /** A copy is listed under its own parent only, which is new, or is the root's own level. */
  lemma LevelsStay(s: Forest, root: ID, v: seq<Node>, st: Copying, n: Node, supply: seq<ID>)
    requires LevelsKept(s, st.tree, root, v) && Renaming(s, st.idMap) && Own(s.folders, s.connections, n)
    requires n.entry.id == root || n.entry.parent in st.idMap
    ensures LevelsKept(s, VisitStep(st, n, root, supply).tree, root, v + [n])
  {
    var t, u := st.tree, VisitStep(st, n, root, supply).tree;
    var copy := VisitAdds(st, n, root, supply).entry;
    var q := copy.parent;
    LevelsWiden(s, t, root, v, n);
    forall p | p == NIL_ID || p in s.folders
      ensures LevelKept(s.folders, s.folderChildren, u.folderChildren, root, v + [n], p)
      ensures LevelKept(s.connections, s.connectionChildren, u.connectionChildren, root, v + [n], p)
    {
      assert LevelKept(s.folders, s.folderChildren, t.folderChildren, root, v, p);
      assert LevelKept(s.connections, s.connectionChildren, t.connectionChildren, root, v, p);
      hide LevelKept;
      if n.FolderNode? {
        LevelStays(s.folders, s.folderChildren, t.folderChildren, root, v, n, p, q, copy.id);
      } else {
        LevelStays(s.connections, s.connectionChildren, t.connectionChildren, root, v, n, p, q, copy.id);
      }
    }
  }

  lemma LevelsWiden(s: Forest, t: Forest, root: ID, v: seq<Node>, n: Node)
    requires LevelsKept(s, t, root, v)
    ensures LevelsKept(s, t, root, v + [n])
  {
    IdsConcat(v, [n]);
    forall p | p == NIL_ID || p in s.folders
      ensures LevelKept(s.folders, s.folderChildren, t.folderChildren, root, v + [n], p)
      ensures LevelKept(s.connections, s.connectionChildren, t.connectionChildren, root, v + [n], p)
    {
      assert LevelKept(s.folders, s.folderChildren, t.folderChildren, root, v, p);
      assert LevelKept(s.connections, s.connectionChildren, t.connectionChildren, root, v, p);
    }
  }

  lemma OnceNext(s: Forest, root: ID, v: seq<Node>, n: Node)
    ensures OnceInBranch(s, root, v + [n])
       <==> OnceInBranch(s, root, v) && !(InBranch(s, n.entry.id, root) && n.entry.id in Ids(v))
  {
    hide InBranch;
    assert Ids([n]) == [n.entry.id];
    forall x
      ensures Count(Ids(v + [n]), x) == Count(Ids(v), x) + if x == n.entry.id then 1 else 0
      ensures Count(Ids(v), x) > 0 <==> x in Ids(v)
    {
      CountIds(v, [n], x);
      CountIn(Ids(v), x);
    }
  }

  lemma DomainNext(s: Forest, root: ID, v: seq<Node>, idMap: map<ID, ID>, n: Node, next: ID)
    requires DomainIs(s, root, v, idMap)
    ensures InBranch(s, n.entry.id, root) ==> DomainIs(s, root, v + [n], idMap[n.entry.id := next])
    ensures !InBranch(s, n.entry.id, root) ==> DomainIs(s, root, v + [n], idMap)
  {
    hide InBranch;
    IdsConcat(v, [n]);
    assert Ids([n]) == [n.entry.id];
    forall x
      ensures x in Ids(v + [n]) <==> x in Ids(v) || x == n.entry.id
    {
    }
  }

  lemma NamedNext(s: Forest, stale: multiset<ID>, root: ID, supply: seq<ID>, v: seq<Node>, st: Copying, n: Node)
    requires FreshSupply(s, stale, supply) && Named(s, root, supply, v, st) && |v| < |supply|
    requires InBranch(s, n.entry.id, root) && (n.entry.id == root || n.entry.parent in st.idMap)
    ensures Named(s, root, supply, v + [n], VisitStep(st, n, root, supply))
  {
    hide NewHandedOut, NamesHandedOut, Renaming, InBranch, FreshSupply, HandedOut, DomainIs, Added;
    NextIsNew(s, stale, st.tree, supply, st.taken);
    NewHandedOutNext(s, st.tree, VisitAdds(st, n, root, supply), supply, st.taken);
    SupplyNext(s, stale, supply, st.taken, st.idMap, n.entry.id);
    DomainNext(s, root, v, st.idMap, n, NewID(supply, st.taken));
  }

  lemma CopiesNext(s: Forest, stale: multiset<ID>, root: ID, supply: seq<ID>, v: seq<Node>, st: Copying, n: Node)
    requires CanDuplicate(s, stale, root, supply) && Named(s, root, supply, v, st) && CopiesMade(s, root, v, st)
    requires Own(s.folders, s.connections, n) && (n.FolderNode? ==> n.entry.id !in Ids(v)) && |v| < |supply|
    requires InBranch(s, n.entry.id, root)
    requires n.entry.id == root || (n.entry.parent in st.idMap && n.entry.parent in s.folders)
    ensures CopiesMade(s, root, v + [n], VisitStep(st, n, root, supply))
  {
    var next := NewID(supply, st.taken);
    assert n.entry.id != root ==> n.entry.parent != n.entry.id;
    hide Consistent, Copied, NoMore, NewHandedOut, NamesHandedOut, Renaming, InBranch, FreshSupply, HandedOut, Added;
    hide OnceInBranch;
    assert VisitAdds(st, n, root, supply) == WithEntry(n, CopyEntry(n.entry, root, st.idMap[n.entry.id := next]));
    NextIsNew(s, stale, st.tree, supply, st.taken);
    CopyMaps(s, stale, root, st.tree, st.idMap, n, next);
    OnceNext(s, root, v, n);
  }

  /** Adding one copy. */
  lemma CopyOne(s: Forest, stale: multiset<ID>, root: ID, supply: seq<ID>, v: seq<Node>, st: Copying, n: Node)
    requires CanDuplicate(s, stale, root, supply) && MidCopy(s, stale, root, supply, v, st)
    requires Own(s.folders, s.connections, n) && (n.FolderNode? ==> n.entry.id !in Ids(v)) && |v| < |supply|
    requires InBranch(s, n.entry.id, root)
    requires n.entry.id == root || (n.entry.parent in st.idMap && n.entry.parent in s.folders)
    ensures MidCopy(s, stale, root, supply, v + [n], VisitStep(st, n, root, supply))
  {
    CopyAdds(s, stale, root, supply, v, st, n);
    hide Consistent, CopiesMade, InBranch, FreshSupply, AddOutcome, Added, LevelsKept, Renaming, Own, VisitAdds;
    hide DomainIs, NewHandedOut, NamesHandedOut;
    AddedConsistent(st.tree, VisitAdds(st, n, root, supply), stale);
    LevelsStay(s, root, v, st, n, supply);
    CopiesNext(s, stale, root, supply, v, st, n);
    NamedNext(s, stale, root, supply, v, st, n);
  }

  /** The visitor's test on the next node decides exactly whether it belongs to the branch. */
  lemma CopyDecision(s: Forest, stale: multiset<ID>, root: ID, supply: seq<ID>, v: seq<Node>, st: Copying, n: Node)
    requires CanDuplicate(s, stale, root, supply) && MidCopy(s, stale, root, supply, v, st)
    requires Own(s.folders, s.connections, n)
    requires n.entry.parent == NIL_ID || n.entry.parent in Ids(v)
    ensures n.entry.id == root || n.entry.parent in st.idMap <==> InBranch(s, n.entry.id, root)
    ensures n.entry.id != root && n.entry.parent in st.idMap ==> n.entry.parent in s.folders
  {
    UnderSelf(ParentsOf(s.folders), root);
    if n.entry.id != root {
      CopiesBranch(s, stale, root, n);
      if n.FolderNode? {
        RootedParent(ParentsOf(s.folders), n.entry.id);
      }
    }
  }

  /** One visit, copying or not, keeps the invariant. */
  lemma VisitOne(s: Forest, stale: multiset<ID>, root: ID, supply: seq<ID>, v: seq<Node>, st: Copying, n: Node)
    requires CanDuplicate(s, stale, root, supply) && MidCopy(s, stale, root, supply, v, st)
    requires Own(s.folders, s.connections, n) && (n.FolderNode? ==> n.entry.id !in Ids(v)) && |v| < |supply|
    requires n.entry.parent == NIL_ID || n.entry.parent in Ids(v)
    ensures MidCopy(s, stale, root, supply, v + [n], VisitStep(st, n, root, supply))
  {
    hide Consistent, Copied, NoMore, NewHandedOut, NamesHandedOut, Renaming, InBranch, FreshSupply, OnceInBranch;
    hide LevelsKept, Added;
    CopyDecision(s, stale, root, supply, v, st, n);
    if n.entry.id == root || n.entry.parent in st.idMap {
      CopyOne(s, stale, root, supply, v, st, n);
    } else {
      OnceNext(s, root, v, n);
      LevelsWiden(s, st.tree, root, v, n);
      DomainNext(s, root, v, st.idMap, n, NIL_ID);
    }
  }

  lemma VisitStart(s: Forest, stale: multiset<ID>, root: ID, supply: seq<ID>)
    requires CanDuplicate(s, stale, root, supply)
    ensures MidCopy(s, stale, root, supply, [], Copying(s, map[], 0))
  {
  }

  /** Every prefix of the walk keeps the invariant. */
  lemma {:induction false} VisitKeeps(s: Forest, stale: multiset<ID>, root: ID, supply: seq<ID>, w: seq<Node>, k: nat)
    requires CanDuplicate(s, stale, root, supply) && Walkable(s.folders, s.connections)
    requires w == Walked(s).0 && k <= |w|
    ensures MidCopy(s, stale, root, supply, w[..k], VisitAll(s, root, supply, w[..k]))
    decreases k
  {
    hide MidCopy, VisitStep, CanDuplicate, Walkable, Walked, Own;
    if k == 0 {
      VisitStart(s, stale, root, supply);
      assert w[..0] == [];
    } else {
      VisitKeeps(s, stale, root, supply, w, k - 1);
      var v, n := w[..k - 1], w[k - 1];
      WalkPosition(s, stale, root, supply, w, k - 1);
      assert w[..k][..k - 1] == v && w[..k] == v + [n];
      VisitOne(s, stale, root, supply, v, VisitAll(s, root, supply, v), n);
    }
  }

  /** The copy that the next visit adds is accepted. */
  lemma NextVisit(s: Forest, stale: multiset<ID>, root: ID, supply: seq<ID>, w: seq<Node>, k: nat)
    requires CanDuplicate(s, stale, root, supply) && Walkable(s.folders, s.connections)
    requires w == Walked(s).0 && k < |w|
    ensures var st := VisitAll(s, root, supply, w[..k]);
            w[k].entry.id == root || w[k].entry.parent in st.idMap ==>
              AddOutcome(st.tree, VisitAdds(st, w[k], root, supply)).Done?
  {
    var st := VisitAll(s, root, supply, w[..k]);
    VisitKeeps(s, stale, root, supply, w, k);
    hide VisitAll, Walked, Consistent, MidCopy, InBranch, FreshSupply, Walkable, AddOutcome, VisitAdds;
    WalkPosition(s, stale, root, supply, w, k);
    CopyDecision(s, stale, root, supply, w[..k], st, w[k]);
    if w[k].entry.id == root || w[k].entry.parent in st.idMap {
      CopyAdds(s, stale, root, supply, w[..k], st, w[k]);
    }
  }

  /**
   * Visiting everything a completed walk yields leaves every original untouched and one isomorphic copy of the branch;
   * and nothing else exactly when no stale root entry names a node of the branch.
   */
  lemma DuplicateTheorem(s: Forest, stale: multiset<ID>, root: ID, supply: seq<ID>)
    requires CanDuplicate(s, stale, root, supply) && Walkable(s.folders, s.connections) && Walked(s).1 == Complete
    ensures var st := VisitAll(s, root, supply, Walked(s).0);
            && HoldsCopy(s, stale, st.tree, root, st.idMap)
            && (IsDuplicate(s, stale, st.tree, root, st.idMap) <==> forall x | stale[x] > 0 :: !InBranch(s, x, root))
  {
    var w := Walked(s).0;
    VisitKeeps(s, stale, root, supply, w, |w|);
    assert w[..|w|] == w;
    forall x | InBranch(s, x, root)
      ensures Count(Ids(w), x) == 1 + stale[x] && x in Ids(w)
    {
      CompleteCounts(s, stale, x);
      CountIn(Ids(w), x);
    }
  }

  // ------------------------------------------------------------------
  // The walk that runs while the visitor adds copies
  // ------------------------------------------------------------------

  lemma {:induction false} InsertKept(m: Entries, m': Entries, x: ID, s: seq<ID>)
    requires Kept(m, m') && x in m && AllKnown(m, s)
    ensures Insert(m', x, s) == Insert(m, x, s)
  {
    if s != [] && !Before(m[x], m[s[0]]) {
      InsertKept(m, m', x, s[1..]);
    }
  }

  lemma {:induction false} SortKept(m: Entries, m': Entries, ids: seq<ID>)
    requires Kept(m, m') && AllKnown(m, ids)
    ensures SortIds(m', ids) == SortIds(m, ids)
  {
    if ids != [] {
      SortKept(m, m', ids[1..]);
      var rest := SortIds(m, ids[1..]);
      assert forall i | 0 <= i < |rest| :: rest[i] in rest;
      InsertKept(m, m', ids[0], rest);
    }
  }

  /** New nodes that the list does not name change nothing about its snapshot. */
  lemma SnapshotKept(m: Entries, m': Entries, ids: seq<ID>)
    requires Kept(m, m') && forall x | x in ids && x in m' :: x in m
    ensures SnapshotOf(m', ids) == SnapshotOf(m, ids)
  {
    assert forall i | 0 <= i < |ids| :: ids[i] in ids;
    if AllKnown(m, ids) {
      SortKept(m, m', ids);
    }
  }

  /** A listed ID that names a node now named one before: new nodes have new IDs. */
  lemma ListedBefore(s: Forest, stale: multiset<ID>, t: Forest, supply: seq<ID>, n: nat, p: ID, x: ID)
    requires Consistent(s, stale) && FreshSupply(s, stale, supply) && NewHandedOut(s, t, supply, n)
    ensures x in Children(s.folderChildren, p) && x in t.folders ==> x in s.folders
    ensures x in Children(s.connectionChildren, p) && x in t.connections ==> x in s.connections
  {
    CountIn(Children(s.folderChildren, p), x);
    CountIn(Children(s.connectionChildren, p), x);
    assert Listed(s.folderChildren, p, x) == IsChild(s.folders, p, x);
    assert Listed(s.connectionChildren, p, x)
        == IsChild(s.connections, p, x) + (if p == NIL_ID then stale[x] else 0);
    if x in t.connections && x !in s.connections {
      assert HandedOut(supply, n, x);
      assert stale[x] == 0;
    }
  }

  /** A level that was not copied into is read as it was. */
  lemma LevelRead(s: Forest, stale: multiset<ID>, root: ID, supply: seq<ID>, v: seq<Node>, st: Copying, p: ID)
    requires CanDuplicate(s, stale, root, supply) && MidCopy(s, stale, root, supply, v, st)
    requires p == NIL_ID || p in s.folders
    ensures (root in s.folders && s.folders[root].parent == p ==> root !in Ids(v)) ==>
              SnapshotOf(st.tree.folders, Children(st.tree.folderChildren, p)) == (Arrangement(s.folders, p), Complete)
    ensures (root in s.connections && s.connections[root].parent == p ==> root !in Ids(v)) ==>
              (SnapshotOf(st.tree.connections, Children(st.tree.connectionChildren, p))
               == SnapshotOf(s.connections, Children(s.connectionChildren, p)))
  {
    IndexedLevel(s.folders, s.folderChildren, multiset{}, p);
    ExactSnapshot(s.folders, s.folderChildren, p);
    assert LevelKept(s.folders, s.folderChildren, st.tree.folderChildren, root, v, p);
    assert LevelKept(s.connections, s.connectionChildren, st.tree.connectionChildren, root, v, p);
    forall x
      ensures x in Children(s.folderChildren, p) && x in st.tree.folders ==> x in s.folders
      ensures x in Children(s.connectionChildren, p) && x in st.tree.connections ==> x in s.connections
    {
      ListedBefore(s, stale, st.tree, supply, st.taken, p, x);
    }
    hide Consistent, Named, SnapshotOf, LevelsKept, NoMore, OnceInBranch, FreshSupply, InBranch;
    SnapshotKept(s.folders, st.tree.folders, Children(s.folderChildren, p));
    SnapshotKept(s.connections, st.tree.connections, Children(s.connectionChildren, p));
  }

  /** Where the walk of a level lies in the whole. */
  lemma LevelLies(s: Forest, stale: multiset<ID>, p: ID, v: seq<Node>)
    requires Consistent(s, stale) && (if p == NIL_ID then v == [] else p in s.folders)
    requires p != NIL_ID ==> v + Visits(s.folders, s.connections, p) <= FolderPart(s)
    ensures v + VisitFolders(s.folders, s.connections, p, Arrangement(s.folders, p)) <= FolderPart(s)
    ensures v + WalkedFrom(s, p).0 <= Walked(s).0
  {
    FolderPartLeads(s);
    var fs, cs := s.folders, s.connections;
    var a, b := VisitFolders(fs, cs, p, Arrangement(fs, p)), VisitConnections(cs, Arrangement(cs, p));
    if p == NIL_ID {
      assert v + a == a && v + Walked(s).0 == Walked(s).0;
    } else {
      IndexedLevel(cs, s.connectionChildren, stale, p);
      ExactWalk(s, p);
      assert Visits(fs, cs, p) == a + b;
      hide *;
      PrefixOf(v, a, b, FolderPart(s));
    }
  }

  class Duplicator {
    const tree: Tree
    const root: ID
    const supply: seq<ID>
    var idMap: map<ID, ID>
    var taken: nat
    ghost const origin: Forest
    ghost const stale: multiset<ID>
    ghost var visited: seq<Node>

    ghost function Progress(): Copying
      reads this, tree
    {
      Copying(tree.View(), idMap, taken)
    }

    /** The walk has visited a prefix of the original walk, and the visitor's effect is exactly that prefix's. */
    ghost predicate Valid()
      reads this, tree
    {
      && Walkable(origin.folders, origin.connections)
      && CanDuplicate(origin, stale, root, supply)
      && visited <= Walked(origin).0
      && Progress() == VisitAll(origin, root, supply, visited)
    }

    constructor (tree: Tree, root: ID, supply: seq<ID>, ghost stale: multiset<ID>)
      requires CanDuplicate(tree.View(), stale, root, supply)
      ensures Valid() && fresh(this) && visited == []
      ensures this.tree == tree && this.root == root && this.supply == supply
      ensures this.stale == stale && origin == tree.View()
    {
      this.tree := tree;
      this.root := root;
      this.supply := supply;
      idMap := map[];
      taken := 0;
      origin := tree.View();
      this.stale := stale;
      visited := [];
    }

    /** The visitor's invariant, from its effect so far. */
    lemma Midway()
      requires Valid()
      ensures MidCopy(origin, stale, root, supply, visited, Progress())
    {
      VisitKeeps(origin, stale, root, supply, Walked(origin).0, |visited|);
      assert Walked(origin).0[..|visited|] == visited;
    }

    /** The tree being walked still holds every original, and a level not copied into is read as it was. */
    lemma LevelIntact(p: ID)
      requires Valid() && (p == NIL_ID || p in origin.folders)
      ensures Kept(origin.folders, tree.folders) && Kept(origin.connections, tree.connections)
      ensures (root in origin.folders && origin.folders[root].parent == p ==> root !in Ids(visited)) ==>
                SnapshotOf(tree.folders, Children(tree.folderChildren, p)) == (Arrangement(origin.folders, p), Complete)
      ensures (root in origin.connections && origin.connections[root].parent == p ==> root !in Ids(visited)) ==>
                (SnapshotOf(tree.connections, Children(tree.connectionChildren, p))
                 == SnapshotOf(origin.connections, Children(origin.connectionChildren, p)))
    {
      Midway();
      hide VisitAll, Consistent, Walked, SnapshotOf;
      LevelRead(origin, stale, root, supply, visited, Progress(), p);
    }

    /** The copy that a visit adds is accepted by the tree. */
    lemma VisitSucceeds(node: Node)
      requires Valid() && visited + [node] <= Walked(origin).0
      ensures node.entry.id == root || node.entry.parent in idMap ==>
                AddOutcome(tree.View(), VisitAdds(Progress(), node, root, supply)).Done?
    {
      hide CanDuplicate, VisitAll, Walked, Walkable, VisitAdds;
      assert Walked(origin).0[..|visited|] == visited && Walked(origin).0[|visited|] == node;
      NextVisit(origin, stale, root, supply, Walked(origin).0, |visited|);
    }

    lemma WholeWalk()
      requires Valid()
      ensures Walkable(origin.folders, origin.connections)
      ensures WalkedFrom(origin, NIL_ID) == Walked(origin) && [] + Walked(origin).0 == Walked(origin).0
    {
    }

    lemma Finished()
      requires Valid() && (visited, Complete) == Walked(origin)
      ensures HoldsCopy(origin, stale, tree.View(), root, idMap) && root in idMap
      ensures IsDuplicate(origin, stale, tree.View(), root, idMap)
         <==> forall x | stale[x] > 0 :: !InBranch(origin, x, root)
    {
      DuplicateTheorem(origin, stale, root, supply);
      hide Indexed, IsForest, FreshSupply, Copied, NoMore, Renaming, VisitAll, Walked;
      UnderSelf(ParentsOf(origin.folders), root);
    }

    /** The walk callback. */
    method Visit(node: Node) returns (err: Outcome)
      requires Valid() && visited + [node] <= Walked(origin).0
      modifies this, tree
      ensures Valid() && err.Done? && visited == old(visited) + [node]
    {
      hide CanDuplicate, AddOutcome, Added, Walked, Walkable;
      VisitSucceeds(node);
      err := Done;
      var e := node.entry;
      if e.id == root {
        var next := NewID(supply, taken);
        taken := taken + 1;
        idMap := idMap[root := next];
        err := AddCopy(node, e.(id := next, name := e.name + COPY_SUFFIX));
      } else if e.parent in idMap {
        var newParent := idMap[e.parent];
        var next := NewID(supply, taken);
        taken := taken + 1;
        idMap := idMap[e.id := next];
        err := AddCopy(node, e.(id := next, parent := newParent));
      }
      visited := visited + [node];
      assert visited[..|visited| - 1] == old(visited);
    }

    method AddCopy(node: Node, e: Entry) returns (err: Outcome)
      modifies tree
      ensures err == AddOutcome(old(tree.View()), WithEntry(node, e))
      ensures tree.View() == Step(old(tree.View()), Add(WithEntry(node, e)))
    {
      match node {
        case FolderNode(_) => err := tree.AddFolder(e);
        case ConnectionNode(_) => err := tree.AddConnection(e);
      }
    }

    /**
     * walkFrom with this visitor: it sees exactly the original nodes, whatever the visitor adds, and ends the way the
     * walk of the original ends. A nil node, or a comparison with one, ends in a panic.
     */
    method WalkFrom(p: ID) returns (err: Outcome, ending: Ending)
      requires Valid() && (if p == NIL_ID then visited == [] else p in origin.folders)
      requires p != NIL_ID ==> visited + Visits(origin.folders, origin.connections, p) <= FolderPart(origin)
      modifies this, tree
      ensures Valid() && err.Done?
      ensures (visited, ending)
           == (old(visited) + WalkedFrom(origin, p).0, WalkedFrom(origin, p).1)
      decreases Below(ParentsOf(origin.folders), p), 1
    {
      hide Valid, IsForest, Kept, Walked, WalkedFrom, VisitFolders, VisitConnections, Visits, SnapshotOf, FolderPart;
      hide Arrangement, Below, Children, Ids;
      OriginLevel(p);
      RootAhead(p);
      ghost var fs, cs := origin.folders, origin.connections;
      ghost var start, folderPart := visited, VisitFolders(fs, cs, p, Arrangement(fs, p));
      LevelIntact(p);
      var folderIDs;
      folderIDs, ending := Snapshot(tree.folders, tree.folderChildren, p);
      err := WalkFolders(p, folderIDs);
      if err.Failed? {
        return;
      }
      LevelIntact(p);
      var connIDs;
      connIDs, ending := Snapshot(tree.connections, tree.connectionChildren, p);
      if ending != Complete {
        return;
      }
      assert start + folderPart + VisitConnections(cs, connIDs) == start + WalkedFrom(origin, p).0;
      err := WalkConnections(p, connIDs);
    }

    /** What a level of the original holds, and where its walk lies in the whole. */
    lemma OriginLevel(p: ID)
      requires Valid() && (if p == NIL_ID then visited == [] else p in origin.folders)
      requires p != NIL_ID ==> visited + Visits(origin.folders, origin.connections, p) <= FolderPart(origin)
      ensures Walkable(origin.folders, origin.connections)
      ensures visited + VisitFolders(origin.folders, origin.connections, p, Arrangement(origin.folders, p))
           <= FolderPart(origin)
      ensures visited + WalkedFrom(origin, p).0 <= Walked(origin).0
      ensures var front := VisitFolders(origin.folders, origin.connections, p, Arrangement(origin.folders, p));
              var conns := SnapshotOf(origin.connections, Children(origin.connectionChildren, p));
              && WalkedFrom(origin, p).1 == conns.1
              && WalkedFrom(origin, p).0
              == if conns.1 == Complete then front + VisitConnections(origin.connections, conns.0) else front
    {
      hide VisitAll, FreshSupply, Visits, VisitFolders;
      LevelLies(origin, stale, p, visited);
    }

    /** At the start of a level the root of the copy has not been visited, if it is on this level. */
    lemma RootAhead(p: ID)
      requires Valid() && (if p == NIL_ID then visited == [] else p in origin.folders)
      requires p != NIL_ID ==> visited + Visits(origin.folders, origin.connections, p) <= FolderPart(origin)
      ensures root in origin.folders && origin.folders[root].parent == p ==> root !in Ids(visited)
      ensures var a := VisitFolders(origin.folders, origin.connections, p, Arrangement(origin.folders, p));
              root in origin.connections && origin.connections[root].parent == p ==>
                root !in Ids(visited) && root !in Ids(visited + a)
    {
      FolderPartLeads(origin);
      var full := Visits(origin.folders, origin.connections, p);
      if p == NIL_ID {
        assert visited + full == full;
      }
      var a := VisitFolders(origin.folders, origin.connections, p, Arrangement(origin.folders, p));
      var b := VisitConnections(origin.connections, Arrangement(origin.connections, p));
      hide VisitAll, Walked, VisitFolders, FreshSupply, Consistent;
      RootUnvisited(origin, stale, root, p, visited, a, b);
    }

    method WalkFolders(p: ID, folderIDs: seq<ID>) returns (err: Outcome)
      requires Valid() && (p == NIL_ID || p in origin.folders)
      requires folderIDs == Arrangement(origin.folders, p)
      requires visited + VisitFolders(origin.folders, origin.connections, p, folderIDs) <= FolderPart(origin)
      modifies this, tree
      ensures Valid() && err.Done?
      ensures visited == old(visited) + VisitFolders(origin.folders, origin.connections, p, folderIDs)
      decreases Below(ParentsOf(origin.folders), p), 0
    {
      hide Valid, Walkable, Visits, VisitFolders, FolderPart, Below, Arrangement;
      OriginWalkable();
      ghost var fs, cs := origin.folders, origin.connections;
      ghost var goal := visited + VisitFolders(fs, cs, p, folderIDs);
      err := Done;
      var i := 0;
      assert folderIDs[0..] == folderIDs;
      while i < |folderIDs|
        invariant 0 <= i <= |folderIDs| && Valid() && err.Done?
        invariant visited + VisitFolders(fs, cs, p, folderIDs[i..]) == goal
      {
        NextFolder(fs, cs, p, folderIDs, i, visited, goal, FolderPart(origin));
        err := WalkFolder(folderIDs[i]);
        if err.Failed? {
          return;
        }
        i := i + 1;
      }
      NoMoreFolders(fs, cs, p, folderIDs, visited);
    }

    lemma OriginWalkable()
      requires Valid()
      ensures Walkable(origin.folders, origin.connections) && NIL_ID !in origin.folders
    {
    }

    /** Visits one folder and then everything under it. */
    method WalkFolder(c: ID) returns (err: Outcome)
      requires Valid() && c in origin.folders
      requires visited + [FolderNode(origin.folders[c])] <= FolderPart(origin)
      requires visited + [FolderNode(origin.folders[c])] + Visits(origin.folders, origin.connections, c)
            <= FolderPart(origin)
      modifies this, tree
      ensures Valid() && err.Done?
      ensures visited
           == old(visited) + [FolderNode(origin.folders[c])] + Visits(origin.folders, origin.connections, c)
      decreases Below(ParentsOf(origin.folders), c), 2
    {
      OriginWalkable();
      FolderPartLeads(origin);
      FolderWalk(c);
      LevelIntact(c);
      hide Valid, Walkable, Visits, Walked, WalkedFrom, FolderPart, Below;
      err := Visit(FolderNode(tree.folders[c]));
      if err.Failed? {
        return;
      }
      var ending;
      err, ending := WalkFrom(c);
    }

    lemma FolderWalk(c: ID)
      requires Valid() && c in origin.folders
      ensures WalkedFrom(origin, c) == (Visits(origin.folders, origin.connections, c), Complete)
    {
      IndexedLevel(origin.connections, origin.connectionChildren, stale, c);
      ExactWalk(origin, c);
    }

    method WalkConnections(p: ID, connIDs: seq<ID>) returns (err: Outcome)
      requires Valid() && (p == NIL_ID || p in origin.folders)
      requires AllKnown(origin.connections, connIDs)
      requires visited + VisitConnections(origin.connections, connIDs) <= Walked(origin).0
      modifies this, tree
      ensures Valid() && err.Done?
      ensures visited == old(visited) + VisitConnections(origin.connections, connIDs)
    {
      hide Valid, Walkable, WellKeyed, Indexed, Walked, VisitConnections;
      OriginWalkable();
      ghost var start, conns := visited, VisitConnections(origin.connections, connIDs);
      err := Done;
      var i := 0;
      while i < |connIDs|
        invariant 0 <= i <= |connIDs| && Valid() && err.Done?
        invariant visited == start + conns[..i]
      {
        LevelIntact(p);
        NextConnection(origin.connections, connIDs, i, start, Walked(origin).0);
        err := Visit(ConnectionNode(tree.connections[connIDs[i]]));
        if err.Failed? {
          return;
        }
        i := i + 1;
      }
      assert conns[..i] == conns;
    }
  }

  lemma NextConnection(cs: Entries, list: seq<ID>, i: nat, start: seq<Node>, w: seq<Node>)
    requires i < |list| && forall i | 0 <= i < |list| :: list[i] in cs
    requires start + VisitConnections(cs, list) <= w
    ensures |VisitConnections(cs, list)| == |list|
    ensures start + VisitConnections(cs, list)[..i] + [ConnectionNode(cs[list[i]])] <= w
    ensures start + VisitConnections(cs, list)[..i] + [ConnectionNode(cs[list[i]])]
         == start + VisitConnections(cs, list)[..i + 1]
  {
    var v := VisitConnections(cs, list);
    assert v[..i + 1] == v[..i] + [v[i]];
    assert start + v[..i + 1] <= start + v;
  }

  /** The next folder, its subtree and the rest of the level all lie ahead in the walk. */
  lemma NextFolder(fs: Entries, cs: Entries, p: ID, list: seq<ID>, i: nat, v: seq<Node>, goal: seq<Node>, w: seq<Node>)
    requires Walkable(fs, cs) && i < |list| && goal <= w
    requires forall i | 0 <= i < |list| :: list[i] in fs && fs[list[i]].parent == p
    requires v + VisitFolders(fs, cs, p, list[i..]) == goal
    ensures v + [FolderNode(fs[list[i]])] <= w
    ensures v + [FolderNode(fs[list[i]])] + Visits(fs, cs, list[i]) <= w
    ensures v + [FolderNode(fs[list[i]])] + Visits(fs, cs, list[i]) + VisitFolders(fs, cs, p, list[i + 1..]) == goal
    ensures Below(ParentsOf(fs), list[i]) < Below(ParentsOf(fs), p)
  {
    VisitNext(fs, cs, p, list, i, v);
    BelowShrinks(ParentsOf(fs), list[i]);
    hide *;
  }

  lemma NoMoreFolders(fs: Entries, cs: Entries, p: ID, list: seq<ID>, v: seq<Node>)
    requires Walkable(fs, cs)
    requires forall i | 0 <= i < |list| :: list[i] in fs && fs[list[i]].parent == p
    ensures v + VisitFolders(fs, cs, p, list[|list|..]) == v
  {
  }

  lemma PrefixOf(a: seq<Node>, b: seq<Node>, c: seq<Node>, w: seq<Node>)
    requires a + (b + c) <= w
    ensures a + b <= w
  {
    assert a + (b + c) == a + b + c;
    assert a + b <= a + b + c;
  }

  /** Before a level is walked its folders are unvisited, and before its connections are walked so are they. */
  lemma RootUnvisited(s: Forest, stale: multiset<ID>, root: ID, p: ID, v: seq<Node>, a: seq<Node>, b: seq<Node>)
    requires Consistent(s, stale) && Walkable(s.folders, s.connections) && v + (a + b) <= WalkOf(s)
    requires a + b == Visits(s.folders, s.connections, p)
    requires b == VisitConnections(s.connections, Arrangement(s.connections, p))
    ensures root in s.folders && s.folders[root].parent == p ==> root !in Ids(v)
    ensures root in s.connections && s.connections[root].parent == p ==> root !in Ids(v) && root !in Ids(v + a)
  {
    var w := WalkOf(s);
    var n := |v + (a + b)|;
    WalkTheorem(s, stale);
    assert w == v + (a + b) + w[n..];
    CountIds(v + (a + b), w[n..], root);
    CountIds(v, a + b, root);
    CountIds(a, b, root);
    CountIds(v, a, root);
    CountIn(Ids(v), root);
    CountIn(Ids(v + a), root);
    VisitsCount(s.folders, s.connections, p, root);
    UnderSelf(ParentsOf(s.folders), p);
    UnderStep(ParentsOf(s.folders), root, p);
    if root in s.folders && s.folders[root].parent == p {
      ParentNotUnderChild(ParentsOf(s.folders), root);
      UnderSelf(ParentsOf(s.folders), root);
    }
    assert Ids(b) == Arrangement(s.connections, p);
    CountIn(Ids(b), root);
    ArrangedCount(s.connections, Arrangement(s.connections, p), root);
  }

  /**
   * DuplicateNode: copies the node `id` and everything under it, and returns the ID of the copy. It panics half-way
   * exactly when a stale root entry names no connection any more; and it makes a copy too many exactly when one names a
   * connection of the branch.
   */
  method DuplicateNode(tree: Tree, id: ID, supply: seq<ID>, ghost stale: multiset<ID>)
    returns (panicked: bool, r: Outcome, newRoot: ID, idMap: map<ID, ID>)
    requires Consistent(tree.View(), stale) && FreshSupply(tree.View(), stale, supply)
    modifies tree
    ensures r.Done? <==> id in old(tree.folders) || id in old(tree.connections)
    ensures r.Failed? ==> r == Failed(NotFound) && tree.View() == old(tree.View())
    ensures panicked <==> r.Done? && exists x :: stale[x] > 0 && x !in old(tree.connections)
    ensures Kept(old(tree.folders), tree.folders) && Kept(old(tree.connections), tree.connections)
    ensures r.Done? && !panicked ==> HoldsCopy(old(tree.View()), stale, tree.View(), id, idMap)
    ensures r.Done? && !panicked ==> id in idMap && newRoot == idMap[id]
    ensures r.Done? && !panicked ==>
              (IsDuplicate(old(tree.View()), stale, tree.View(), id, idMap)
               <==> forall x | stale[x] > 0 :: !InBranch(old(tree.View()), x, id))
    ensures old(Sound(tree.View())) && r.Done? ==>
              !panicked && IsDuplicate(old(tree.View()), stale, tree.View(), id, idMap) && Sound(tree.View())
  {
    panicked, idMap := false, map[];
    if id == NIL_ID {
      return false, Failed(NotFound), NIL_ID, idMap;
    }
    if id !in tree.folders && id !in tree.connections {
      return false, Failed(NotFound), NIL_ID, idMap;
    }
    ghost var before := tree.View();
    WalkExactly(before, stale);
    RootExactIffSound(before, stale);
    hide Consistent, FreshSupply, HoldsCopy, InBranch, Kept, Walked, NoMore;
    var ending;
    ending, newRoot, idMap := CopyBranch(tree, id, supply, stale);
    r, panicked := Done, ending != Complete;
  }

  /** The walk that does the copying, and how it ends. */
  method CopyBranch(tree: Tree, root: ID, supply: seq<ID>, ghost stale: multiset<ID>)
    returns (ending: Ending, newRoot: ID, idMap: map<ID, ID>)
    requires Walkable(tree.folders, tree.connections) && CanDuplicate(tree.View(), stale, root, supply)
    modifies tree
    ensures ending == Walked(old(tree.View())).1
    ensures Kept(old(tree.folders), tree.folders) && Kept(old(tree.connections), tree.connections)
    ensures ending == Complete ==>
              && HoldsCopy(old(tree.View()), stale, tree.View(), root, idMap) && root in idMap && newRoot == idMap[root]
              && (IsDuplicate(old(tree.View()), stale, tree.View(), root, idMap)
                  <==> forall x | stale[x] > 0 :: !InBranch(old(tree.View()), x, root))
  {
    hide CanDuplicate, Walkable, IsDuplicate, HoldsCopy, InBranch, Kept, VisitAll, Walked, WalkedFrom, Visits;
    hide FolderPart;
    var d := new Duplicator(tree, root, supply, stale);
    var err;
    err, ending := d.WalkFrom(NIL_ID);
    d.WholeWalk();
    d.LevelIntact(NIL_ID);
    idMap, newRoot := d.idMap, NIL_ID;
    if ending == Complete {
      d.Finished();
      newRoot := idMap[root];
    }
  }
}
