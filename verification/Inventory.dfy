// Flattening a tree into two lists and rebuilding it (internal/persistence/codec.go).
// JSON itself is not modelled: the two lists of pointers, nil ones included,
// stand for the decoded document.
module Inventory {
  import opened Wrappers
  import opened Identifiers
  import opened Ancestry
  import opened Forests
  import opened Walks
  import opened Snapshots
  import opened Trees

  datatype DecodeOutcome =
    | Rebuilt
    | FolderRefused(error: Error)
    | Orphaned(count: nat)
    | ConnectionRefused(error: Error)

  // ------------------------------------------------------------------
  // What a pair of lists denotes
  // ------------------------------------------------------------------

  /** The index of a list by ID; a later entry replaces an earlier one. */
  function MapOf(list: seq<Entry>): Entries {
    if list == [] then map[] else MapOf(list[..|list| - 1])[list[|list| - 1].id := list[|list| - 1]]
  }

  ghost predicate Unique(list: seq<Entry>) {
    forall i, j | 0 <= i < j < |list| :: list[i].id != list[j].id
  }

  ghost predicate NonNil(list: seq<Entry>) {
    forall i | 0 <= i < |list| :: list[i].id != NIL_ID
  }

  ghost predicate Disjoint(fs: seq<Entry>, cs: seq<Entry>) {
    forall i, j | 0 <= i < |fs| && 0 <= j < |cs| :: fs[i].id != cs[j].id
  }

  ghost predicate ParentsKnown(fs: seq<Entry>, list: seq<Entry>) {
    forall i | 0 <= i < |list| :: list[i].parent == NIL_ID || list[i].parent in MapOf(fs)
  }

  /** The lists describe a forest: unique non-nil IDs, every folder chain reaches the root, every parent is a folder. */
  ghost predicate Acceptable(fs: seq<Entry>, cs: seq<Entry>) {
    && Unique(fs) && Unique(cs) && Disjoint(fs, cs) && NonNil(fs) && NonNil(cs)
    && IsForest(ParentsOf(MapOf(fs)))
    && ParentsKnown(fs, cs)
  }

  /** What a refused folder says about the folder list. */
  ghost predicate FolderFault(fs: seq<Entry>, error: Error) {
    || (error == IdRequired && exists i :: 0 <= i < |fs| && fs[i].id == NIL_ID)
    || (error == DuplicateId && exists i, j :: 0 <= i < j < |fs| && fs[i].id == fs[j].id)
  }

  /** What a refused connection says about the lists. */
  ghost predicate ConnectionFault(fs: seq<Entry>, cs: seq<Entry>, error: Error) {
    || (error == IdRequired && exists i :: 0 <= i < |cs| && cs[i].id == NIL_ID)
    || (error == DuplicateId && !(Unique(cs) && Disjoint(fs, cs)))
    || (error == ParentNotFolder && !ParentsKnown(fs, cs))
  }

  /** The folders whose parent chain never reaches the root. */
  ghost function Unrooted(fs: seq<Entry>): set<ID> {
    set x | x in MapOf(fs) && !Rooted(ParentsOf(MapOf(fs)), x)
  }

  ghost predicate HasId(list: seq<Entry>, x: ID) {
    exists i :: 0 <= i < |list| && list[i].id == x
  }

  lemma HasIdSplit(init: seq<Entry>, last: Entry, x: ID)
    ensures HasId(init + [last], x) <==> HasId(init, x) || last.id == x
  {
    var list := init + [last];
    if HasId(init, x) {
      var i :| 0 <= i < |init| && init[i].id == x;
      assert list[i].id == x;
    }
    if last.id == x {
      assert list[|init|].id == x;
    }
  }

  lemma {:induction false} MapOfKeys(list: seq<Entry>, x: ID)
    ensures x in MapOf(list) <==> HasId(list, x)
    ensures x in MapOf(list) ==> MapOf(list)[x].id == x && MapOf(list)[x] in list
  {
    if list != [] {
      var init, last := list[..|list| - 1], list[|list| - 1];
      MapOfKeys(init, x);
      HasIdSplit(init, last, x);
      assert list == init + [last];
    }
  }

  /** Of several entries with one ID the last one counts. */
  lemma {:induction false} LastCounts(list: seq<Entry>, i: nat)
    requires i < |list| && forall j | i < j < |list| :: list[j].id != list[i].id
    ensures list[i].id in MapOf(list) && MapOf(list)[list[i].id] == list[i]
  {
    if i < |list| - 1 {
      LastCounts(list[..|list| - 1], i);
    }
  }

  lemma {:induction false} MapOfSize(list: seq<Entry>)
    ensures |MapOf(list)| <= |list|
    ensures |MapOf(list)| == |list| <==> Unique(list)
  {
    if list != [] {
      var init, last := list[..|list| - 1], list[|list| - 1];
      MapOfSize(init);
      MapOfKeys(init, last.id);
      assert list == init + [last];
      hide Unique, HasId;
      UniqueSplit(init, last);
    }
  }

  lemma UniqueSplit(init: seq<Entry>, last: Entry)
    ensures Unique(init + [last]) <==> Unique(init) && !HasId(init, last.id)
  {
    var list := init + [last];
    if Unique(list) {
      forall i, j | 0 <= i < j < |init|
        ensures init[i].id != init[j].id
      {
        assert list[i] == init[i] && list[j] == init[j];
      }
      forall i | 0 <= i < |init|
        ensures init[i].id != last.id
      {
        assert list[i] == init[i] && list[|init|] == last;
      }
    }
    if Unique(init) && !HasId(init, last.id) {
      forall i, j | 0 <= i < j < |list|
        ensures list[i].id != list[j].id
      {
        assert list[i] == init[i] && (j < |init| ==> list[j] == init[j]);
      }
    }
  }

  lemma MapOfUnique(list: seq<Entry>, i: nat)
    requires Unique(list) && i < |list|
    ensures list[i].id in MapOf(list) && MapOf(list)[list[i].id] == list[i]
  {
    assert HasId(list, list[i].id);
    MapOfKeys(list, list[i].id);
    var j :| 0 <= j < |list| && list[j] == MapOf(list)[list[i].id];
  }

  /** m indexes exactly the entries of list. */
  ghost predicate Indexes(m: Entries, list: seq<Entry>) {
    && (forall i | 0 <= i < |list| :: list[i].id in m && m[list[i].id] == list[i])
    && (forall x | x in m :: m[x].id == x && m[x] in list)
  }

  lemma IndexesMapOf(m: Entries, list: seq<Entry>)
    requires Indexes(m, list) && Unique(list)
    ensures m == MapOf(list)
  {
    forall x | x in m
      ensures x in MapOf(list) && MapOf(list)[x] == m[x]
    {
      var i :| 0 <= i < |list| && list[i] == m[x];
      MapOfUnique(list, i);
    }
    forall x | x in MapOf(list)
      ensures x in m
    {
      MapOfKeys(list, x);
    }
  }

  // ------------------------------------------------------------------
  // Rebuilding
  // ------------------------------------------------------------------

  /** Midway: `rest` is still waiting, the tree's folders m are the ones added so far. */
  ghost predicate Progress(fs: seq<Entry>, rest: seq<Entry>, m: Entries) {
    && (forall x | x in m :: m[x].id == x && m[x] in fs)
    && (forall k | 0 <= k < |rest| :: rest[k] in fs)
    && (forall k | 0 <= k < |fs| :: fs[k] in rest || (fs[k].id in m && m[fs[k].id] == fs[k]))
    && |rest| + |m| == |fs|
    && (Unique(fs) ==> Spread(rest, m))
  }

  ghost predicate Spread(rest: seq<Entry>, m: Entries) {
    Unique(rest) && forall k | 0 <= k < |rest| :: rest[k].id !in m
  }

  lemma SpreadAdd(before: seq<Entry>, e: Entry, after: seq<Entry>, m: Entries)
    requires Spread(before + [e] + after, m)
    ensures Spread(before + after, m[e.id := e])
  {
    var rest, rest' := before + [e] + after, before + after;
    assert rest[|before|] == e;
    forall k | 0 <= k < |rest'|
      ensures rest'[k].id != e.id && rest'[k].id !in m
    {
      assert rest[if k < |before| then k else k + 1] == rest'[k];
    }
    forall j, k | 0 <= j < k < |rest'|
      ensures rest'[j].id != rest'[k].id
    {
      assert rest[if j < |before| then j else j + 1] == rest'[j];
      assert rest[if k < |before| then k else k + 1] == rest'[k];
    }
  }

  /** Adding one waiting folder. */
  lemma ProgressAdd(fs: seq<Entry>, before: seq<Entry>, e: Entry, after: seq<Entry>, m: Entries)
    requires Progress(fs, before + [e] + after, m) && e.id !in m
    ensures Progress(fs, before + after, m[e.id := e])
  {
    hide Spread, Unique;
    var rest, rest' := before + [e] + after, before + after;
    assert rest[|before|] == e;
    assert forall k | 0 <= k < |rest'| :: rest'[k] == if k < |before| then rest[k] else rest[k + 1];
    assert forall x :: x in rest <==> x in rest' || x == e;
    assert e in fs;
    var m' := m[e.id := e];
    forall k | 0 <= k < |fs|
      ensures fs[k] in rest' || (fs[k].id in m' && m'[fs[k].id] == fs[k])
    {
      assert fs[k] in rest || (fs[k].id in m && m[fs[k].id] == fs[k]);
    }
    forall k | 0 <= k < |rest'|
      ensures rest'[k] in fs
    {
      assert rest[if k < |before| then k else k + 1] == rest'[k];
    }
    if Unique(fs) {
      SpreadAdd(before, e, after, m);
    }
  }

  /** Nothing that waits can be added: its parent is neither the root nor added. */
  ghost predicate Stuck(rest: seq<Entry>, m: Entries) {
    forall k | 0 <= k < |rest| :: rest[k].parent != NIL_ID && rest[k].parent !in m
  }

  lemma {:induction false} StuckUnrooted(fs: seq<Entry>, all: Entries, rest: seq<Entry>, m: Entries, x: ID, n: nat)
    requires forall y | y in all :: all[y] in rest || (y in m && m[y] == all[y])
    requires Stuck(rest, m) && NIL_ID !in all
    requires x in all && Climb(ParentsOf(all), x, NIL_ID, n)
    ensures x in m
    decreases n
  {
    if n > 1 {
      StuckUnrooted(fs, all, rest, m, all[x].parent, n - 1);
    }
  }

  /** A stuck pass leaves exactly as many folders as have a chain that never reaches the root. */
  lemma OrphanCount(fs: seq<Entry>, rest: seq<Entry>, m: Entries)
    requires Unique(fs) && NonNil(fs) && Progress(fs, rest, m) && Stuck(rest, m)
    requires IsForest(ParentsOf(m))
    ensures |rest| == |Unrooted(fs)|
  {
    var all := MapOf(fs);
    WaitingOrAdded(fs, rest, m);
    MapOfSize(fs);
    assert |rest| + |m| == |all|;
    AddedAreRooted(fs, rest, m);
    hide *;
    SplitSize(all.Keys, m.Keys, Unrooted(fs));
  }

  lemma SplitSize(all: set<ID>, a: set<ID>, b: set<ID>)
    requires a !! b && forall x :: x in all <==> x in a || x in b
    ensures |all| == |a| + |b|
  {
    assert all == a + b;
  }

  lemma AddedAreRooted(fs: seq<Entry>, rest: seq<Entry>, m: Entries)
    requires IsForest(ParentsOf(m)) && Stuck(rest, m) && NIL_ID !in MapOf(fs)
    requires forall y | y in MapOf(fs) :: MapOf(fs)[y] in rest || (y in m && m[y] == MapOf(fs)[y])
    requires forall x | x in m :: x in MapOf(fs) && MapOf(fs)[x] == m[x]
    ensures forall x :: x in MapOf(fs) <==> x in m || x in Unrooted(fs)
    ensures forall x :: !(x in m && x in Unrooted(fs))
  {
    var all := MapOf(fs);
    hide MapOf, Stuck;
    forall x | x in all
      ensures x in m <==> x !in Unrooted(fs)
    {
      if x in m {
        assert Rooted(ParentsOf(m), x);
        UnderExtend(ParentsOf(m), ParentsOf(all), x, NIL_ID);
      } else if Rooted(ParentsOf(all), x) {
        var n: nat :| Climb(ParentsOf(all), x, NIL_ID, n);
        StuckUnrooted(fs, all, rest, m, x, n);
      }
    }
  }

  lemma WaitingOrAdded(fs: seq<Entry>, rest: seq<Entry>, m: Entries)
    requires Unique(fs) && NonNil(fs) && Progress(fs, rest, m)
    ensures forall y | y in MapOf(fs) :: MapOf(fs)[y] in rest || (y in m && m[y] == MapOf(fs)[y])
    ensures forall x | x in m :: x in MapOf(fs) && MapOf(fs)[x] == m[x]
    ensures NIL_ID !in MapOf(fs)
  {
    forall y | y in MapOf(fs)
      ensures MapOf(fs)[y] in rest || (y in m && m[y] == MapOf(fs)[y])
      ensures y != NIL_ID
    {
      MapOfKeys(fs, y);
      var i :| 0 <= i < |fs| && fs[i] == MapOf(fs)[y];
    }
    forall x | x in m
      ensures x in MapOf(fs) && MapOf(fs)[x] == m[x]
    {
      var i :| 0 <= i < |fs| && fs[i] == m[x];
      MapOfUnique(fs, i);
    }
  }

  /** An entry that waits and whose ID is taken or nil spoils the lists. */
  lemma RefusedFolder(fs: seq<Entry>, cs: seq<Entry>, before: seq<Entry>, e: Entry, after: seq<Entry>, m: Entries)
    requires Progress(fs, before + [e] + after, m) && (e.id == NIL_ID || e.id in m)
    ensures !Acceptable(fs, cs) && !(Unique(fs) && NonNil(fs))
    ensures FolderFault(fs, if e.id == NIL_ID then IdRequired else DuplicateId)
  {
    var rest := before + [e] + after;
    assert rest[|before|] == e;
    var i :| 0 <= i < |fs| && fs[i] == e;
  }

  lemma IdListed(list: seq<Entry>, i: nat)
    requires i < |list|
    ensures HasId(list, list[i].id)
  {
  }

  lemma AllListed(fs: seq<Entry>, m: Entries)
    requires Progress(fs, [], m)
    ensures Indexes(m, fs) && |m| == |fs|
  {
    hide Unique;
    forall i | 0 <= i < |fs|
      ensures fs[i].id in m && m[fs[i].id] == fs[i]
    {
      assert fs[i] in [] || (fs[i].id in m && m[fs[i].id] == fs[i]);
    }
  }

  /** Every folder placed: the tree's folders are the list. */
  lemma AllPlaced(fs: seq<Entry>, m: Entries)
    requires Progress(fs, [], m) && NIL_ID !in m
    ensures Unique(fs) && NonNil(fs) && m == MapOf(fs)
  {
    AllListed(fs, m);
    MapOfSize(fs);
    hide Progress, Unique, MapOf, HasId;
    forall x | x in m
      ensures x in MapOf(fs)
    {
      var i :| 0 <= i < |fs| && fs[i] == m[x];
      IdListed(fs, i);
      MapOfKeys(fs, x);
    }
    SplitSize(MapOf(fs).Keys, m.Keys, MapOf(fs).Keys - m.Keys);
    assert Unique(fs);
    IndexesMapOf(m, fs);
  }

  /** The first connections are in: they are unique, new, and under known folders. */
  ghost predicate Connected(fs: seq<Entry>, cs: seq<Entry>, m: Entries) {
    Unique(cs) && NonNil(cs) && Disjoint(fs, cs) && ParentsKnown(fs, cs) && m == MapOf(cs)
  }

  lemma ConnectedNext(fs: seq<Entry>, init: seq<Entry>, c: Entry, m: Entries)
    requires Connected(fs, init, m) && !HasId(init, c.id) && !HasId(fs, c.id) && c.id != NIL_ID
    requires c.parent == NIL_ID || c.parent in MapOf(fs)
    ensures Connected(fs, init + [c], m[c.id := c])
  {
    var longer := init + [c];
    assert longer[..|init|] == init;
    UniqueSplit(init, c);
    assert MapOf(longer) == MapOf(init)[c.id := c];
    hide MapOf, Unique;
    forall j | 0 <= j < |longer|
      ensures longer[j] == if j < |init| then init[j] else c
    {
    }
  }

  /** The next connection is accepted exactly when the lists are still in order with it. */
  lemma NextConnection(fs: seq<Entry>, cs: seq<Entry>, i: nat, s: Forest)
    requires i < |cs| && s.folders == MapOf(fs) && Connected(fs, cs[..i], s.connections)
    ensures AddOutcome(s, ConnectionNode(cs[i])).Done? ==>
              Connected(fs, cs[..i + 1], s.connections[cs[i].id := cs[i]])
    ensures AddOutcome(s, ConnectionNode(cs[i])).Failed? ==>
              !Acceptable(fs, cs) && ConnectionFault(fs, cs, AddOutcome(s, ConnectionNode(cs[i])).error)
  {
    var c, init := cs[i], cs[..i];
    assert cs[..i + 1] == init + [c];
    MapOfKeys(init, c.id);
    MapOfKeys(fs, c.id);
    if AddOutcome(s, ConnectionNode(c)).Done? {
      hide Connected;
      ConnectedNext(fs, init, c, s.connections);
    } else if c.id in s.connections {
      var j :| 0 <= j < |init| && init[j].id == c.id;
      assert cs[j].id == cs[i].id;
    } else if c.id in s.folders {
      var j :| 0 <= j < |fs| && fs[j].id == c.id;
    }
  }

  /** The folder lists of a walk and its connection list. */
  ghost function FolderEntries(v: seq<Node>): seq<Entry> {
    if v == [] then []
    else FolderEntries(v[..|v| - 1]) + (if v[|v| - 1].FolderNode? then [v[|v| - 1].entry] else [])
  }

  ghost function ConnectionEntries(v: seq<Node>): seq<Entry> {
    if v == [] then []
    else ConnectionEntries(v[..|v| - 1]) + (if v[|v| - 1].ConnectionNode? then [v[|v| - 1].entry] else [])
  }

  /** The two lists are the walk's nodes by kind, all of them, in the order in which they are visited. */
  lemma EntriesInOrder(v: seq<Node>, folders: bool) returns (at: seq<nat>)
    ensures var list := if folders then FolderEntries(v) else ConnectionEntries(v);
            && |at| == |list|
            && (forall k | 0 <= k < |at| :: at[k] < |v| && v[at[k]].FolderNode? == folders && v[at[k]].entry == list[k])
    ensures forall j, k | 0 <= j < k < |at| :: at[j] < at[k]
    ensures forall i: nat | i < |v| && v[i].FolderNode? == folders :: i in at
    decreases |v|
  {
    if v == [] {
      at := [];
    } else {
      var n := |v| - 1;
      at := EntriesInOrder(v[..n], folders);
      if v[n].FolderNode? == folders {
        at := at + [n];
      }
    }
  }

  /** The entries a list of pointers leads to. */
  function Present(list: seq<Option<Entry>>): seq<Entry> {
    if list == [] then []
    else Present(list[..|list| - 1]) + if list[|list| - 1] == None then [] else [list[|list| - 1].value]
  }

  function Pointers(list: seq<Entry>): (r: seq<Option<Entry>>)
    ensures |r| == |list| && forall i | 0 <= i < |list| :: r[i] == Some(list[i])
  {
    seq(|list|, i requires 0 <= i < |list| => Some(list[i]))
  }

  lemma {:induction false} PresentPointers(list: seq<Entry>)
    ensures Present(Pointers(list)) == list && Present(Pointers(list) + [None]) == list
  {
    var r := Pointers(list);
    assert (r + [None])[..|r|] == r;
    if list != [] {
      var init := list[..|list| - 1];
      PresentPointers(init);
      assert r[..|r| - 1] == Pointers(init);
    }
  }

  lemma {:induction false} PresentPrefix(list: seq<Option<Entry>>, j: nat)
    requires j <= |list|
    ensures Present(list[..j]) <= Present(list)
  {
    if j < |list| {
      PresentPrefix(list[..|list| - 1], j);
      assert list[..|list| - 1][..j] == list[..j];
    } else {
      assert list[..j] == list;
    }
  }

  lemma PresentNext(list: seq<Option<Entry>>, j: nat)
    requires j < |list|
    ensures var k := |Present(list[..j])|;
            && Present(list[..j + 1]) == Present(list[..j]) + (if list[j] == None then [] else [list[j].value])
            && (list[j] != None ==>
                  && k < |Present(list)| && Present(list)[k] == list[j].value
                  && Present(list)[..k] == Present(list[..j]) && Present(list)[..k + 1] == Present(list[..j + 1]))
  {
    assert list[..j + 1][..j] == list[..j];
    PresentPrefix(list, j);
    PresentPrefix(list, j + 1);
  }

  /**
   * encodeInventory: the nodes in walk order, split by kind. A nil node at the end of the walk becomes a nil pointer;
   * a walk that crashes takes the caller with it.
   */
  method EncodeInventory(t: Tree, ghost stale: multiset<ID>)
    returns (crashed: bool, fs: seq<Option<Entry>>, cs: seq<Option<Entry>>)
    requires Consistent(t.View(), stale)
    ensures crashed <==> Walked(t.View()).1 == Crash
    ensures !crashed ==>
              var (v, ending) := Walked(t.View());
              && fs == Pointers(FolderEntries(v))
              && cs == Pointers(ConnectionEntries(v)) + (if ending == NilNode then [None] else [])
  {
    hide Consistent, Walked;
    var v, ending := t.Walk(stale);
    fs, cs := [], [];
    var i := 0;
    while i < |v|
      invariant 0 <= i <= |v|
      invariant fs == Pointers(FolderEntries(v[..i])) && cs == Pointers(ConnectionEntries(v[..i]))
    {
      assert v[..i + 1][..i] == v[..i];
      match v[i] {
        case FolderNode(f) => fs := fs + [Some(f)];
        case ConnectionNode(c) => cs := cs + [Some(c)];
      }
      i := i + 1;
    }
    assert v[..i] == v;
    crashed := ending == Crash;
    if ending == NilNode {
      cs := cs + [None];
    }
  }

  /**
   * decodeInventory: repeatedly adds every folder whose parent is already there, filtering the rest in
   * place, then adds the connections. It succeeds exactly on the lists that describe a forest.
   */
  method DecodeInventory(folders: seq<Option<Entry>>, connections: seq<Option<Entry>>)
    returns (r: DecodeOutcome, t: Tree)
    ensures fresh(t)
    ensures var fs, cs := Present(folders), Present(connections);
            && (r.Rebuilt? <==> Acceptable(fs, cs))
            && (r.Rebuilt? ==> Sound(t.View()) && t.folders == MapOf(fs) && t.connections == MapOf(cs))
            && (r.FolderRefused? ==> FolderFault(fs, r.error))
            && (r.ConnectionRefused? ==> ConnectionFault(fs, cs, r.error) && Unique(fs) && NonNil(fs))
            && (Unique(fs) && NonNil(fs) ==> (r.Orphaned? <==> Unrooted(fs) != {}))
            && (Unique(fs) && NonNil(fs) && r.Orphaned? ==> r.count == |Unrooted(fs)|)
  {
    hide Consistent, Progress, Acceptable, Stuck, Unrooted, Connected, FolderFault, ConnectionFault;
    var fs: seq<Entry> := [];
    for i := 0 to |folders|
      invariant fs == Present(folders[..i])
    {
      PresentNext(folders, i);
      if folders[i] != None {
        fs := fs + [folders[i].value];
      }
    }
    assert folders[..|folders|] == folders;
    t := new Tree();
    EmptySound();
    ghost var cs := Present(connections);
    var remaining := new Entry[|fs|](i requires 0 <= i < |fs| => fs[i]);
    var n := remaining.Length;
    var added: set<ID> := {};
    assert remaining[..n] == fs;
    ProgressStart(fs);
    while n > 0
      invariant 0 <= n <= remaining.Length && fresh(t) && fresh(remaining)
      invariant Progress(fs, remaining[..n], t.folders) && Sound(t.View())
      invariant t.connections == map[] && added == t.folders.Keys
      decreases n
    {
      var err, kept, progress, added' := Pass(fs, cs, remaining, n, t, added);
      if err.Failed? {
        return FolderRefused(err.error), t;
      }
      added := added';
      if !progress {
        StuckOutcome(fs, cs, remaining[..n], t.View());
        return Orphaned(kept), t;
      }
      n := kept;
    }
    assert remaining[..n] == [];
    AllFoldersPlaced(fs, cs, t.View());
    r := PlaceConnections(fs, connections, t);
  }

  /** One pass over the waiting folders: adds those whose parent is present, keeps the others in order at the front. */
  method Pass(ghost fs: seq<Entry>, ghost cs: seq<Entry>, remaining: array<Entry>, n: nat, t: Tree, added: set<ID>)
    returns (err: Outcome, kept: nat, progress: bool, added': set<ID>)
    requires n <= remaining.Length
    requires Progress(fs, remaining[..n], t.folders) && Sound(t.View())
    requires t.connections == map[] && added == t.folders.Keys
    modifies remaining, t
    ensures err.Failed? ==> !Acceptable(fs, cs) && !(Unique(fs) && NonNil(fs)) && FolderFault(fs, err.error)
    ensures err.Done? ==> kept <= n && Progress(fs, remaining[..kept], t.folders)
    ensures err.Done? ==> Sound(t.View()) && t.connections == map[] && added' == t.folders.Keys
    ensures err.Done? ==> if progress then kept < n else kept == n && Stuck(remaining[..n], t.folders)
  {
    hide Consistent, Sound, Progress, Acceptable, Unique, NonNil, FolderFault;
    added' := added;
    err := Done;
    progress := false;
    kept := 0;
    var i := 0;
    ghost var now := remaining[..];
    assert now[..0] + now[0..n] == now[..n] == remaining[..n];
    while i < n
      invariant 0 <= kept <= i <= n && err.Done? && now == remaining[..]
      invariant Progress(fs, now[..kept] + now[i..n], t.folders) && Sound(t.View())
      invariant t.connections == map[] && added' == t.folders.Keys
      invariant if progress then kept < i else kept == i && Stuck(now[..kept], t.folders)
    {
      var f := remaining[i];
      Around(now, kept, i, n);
      if f.parent == NIL_ID || f.parent in added' {
        FolderDecision(fs, cs, now[..kept], f, now[i + 1..n], t.View());
        err := t.AddFolder(f);
        if err.Failed? {
          return;
        }
        added' := added' + {f.id};
        progress := true;
      } else {
        remaining[kept] := f;
        now := now[kept := f];
        kept := kept + 1;
      }
      i := i + 1;
    }
    assert now[..kept] + now[n..n] == now[..kept] == remaining[..kept];
  }

  /** The waiting folders around the one at i, which may move to the end of the kept ones. */
  lemma Around(now: seq<Entry>, kept: nat, i: nat, n: nat)
    requires kept <= i < n <= |now|
    ensures now[..kept] + now[i..n] == now[..kept] + [now[i]] + now[i + 1..n]
    ensures var moved := now[kept := now[i]];
            && moved[..kept + 1] == now[..kept] + [now[i]] && moved[i + 1..n] == now[i + 1..n]
            && (kept == i ==> moved == now)
  {
  }

  method PlaceConnections(ghost fs: seq<Entry>, connections: seq<Option<Entry>>, t: Tree) returns (r: DecodeOutcome)
    requires Sound(t.View()) && Unique(fs) && NonNil(fs) && t.folders == MapOf(fs)
    requires Connected(fs, [], t.connections)
    modifies t
    ensures r.Rebuilt? || r.ConnectionRefused?
    ensures var cs := Present(connections);
            && (r.Rebuilt? <==> Acceptable(fs, cs))
            && (r.Rebuilt? ==> Sound(t.View()) && t.folders == MapOf(fs) && t.connections == MapOf(cs))
            && (r.ConnectionRefused? ==> ConnectionFault(fs, cs, r.error))
  {
    assert connections[..0] == [] && Present(connections[..0]) == [];
    hide Sound, Acceptable, Connected, MapOf, Present, AddOutcome, Unique, NonNil, Moved, Pruned, ConnectionFault;
    var j := 0;
    while j < |connections|
      invariant 0 <= j <= |connections|
      invariant Sound(t.View()) && t.folders == MapOf(fs)
      invariant Connected(fs, Present(connections[..j]), t.connections)
    {
      NextPointer(fs, connections, j, t.View());
      if connections[j] != None {
        var err := t.AddConnection(connections[j].value);
        if err.Failed? {
          return ConnectionRefused(err.error);
        }
      }
      j := j + 1;
    }
    assert connections[..j] == connections;
    AllConnected(fs, Present(connections), t.View());
    r := Rebuilt;
  }

  /** What the next pointer does, and what that means for the lists. */
  lemma NextPointer(fs: seq<Entry>, connections: seq<Option<Entry>>, j: nat, s: Forest)
    requires j < |connections| && Sound(s) && s.folders == MapOf(fs)
    requires Connected(fs, Present(connections[..j]), s.connections)
    ensures connections[j] == None ==> Connected(fs, Present(connections[..j + 1]), s.connections)
    ensures connections[j] != None ==>
              var node := ConnectionNode(connections[j].value);
              && (AddOutcome(s, node).Done? ==>
                    && Connected(fs, Present(connections[..j + 1]), Added(s, node).connections)
                    && Added(s, node).folders == s.folders && Sound(Added(s, node)))
              && (AddOutcome(s, node).Failed? ==>
                    && !Acceptable(fs, Present(connections))
                    && ConnectionFault(fs, Present(connections), AddOutcome(s, node).error))
  {
    hide Consistent, Sound, Connected, Acceptable, MapOf, Present, AddOutcome, ConnectionFault;
    var cs, k := Present(connections), |Present(connections[..j])|;
    PresentNext(connections, j);
    if connections[j] == None {
      assert Present(connections[..j + 1]) == Present(connections[..j]);
    } else {
      assert cs[..k] == Present(connections[..j]) && cs[..k + 1] == Present(connections[..j + 1]);
      NextConnection(fs, cs, k, s);
      AddedConsistentIf(s, ConnectionNode(connections[j].value));
    }
  }

  lemma AddedConsistentIf(s: Forest, node: Node)
    requires Sound(s)
    ensures AddOutcome(s, node).Done? ==> Sound(Added(s, node))
  {
    if AddOutcome(s, node).Done? {
      AddedConsistent(s, node, multiset{});
    }
  }

  lemma ProgressStart(fs: seq<Entry>)
    ensures Progress(fs, fs, map[])
  {
  }

  /** AddFolder's answer for a folder whose parent is there, and what each answer means for the lists. */
  lemma FolderDecision(fs: seq<Entry>, cs: seq<Entry>, before: seq<Entry>, f: Entry, after: seq<Entry>, s: Forest)
    requires Progress(fs, before + [f] + after, s.folders) && Sound(s) && s.connections == map[]
    requires f.parent == NIL_ID || f.parent in s.folders
    ensures AddOutcome(s, FolderNode(f)).Done? ==>
              Progress(fs, before + after, s.folders[f.id := f]) && Sound(Added(s, FolderNode(f)))
    ensures AddOutcome(s, FolderNode(f)).Failed? ==>
              !Acceptable(fs, cs) && !(Unique(fs) && NonNil(fs)) && FolderFault(fs, AddOutcome(s, FolderNode(f)).error)
  {
    hide Progress, Consistent, Acceptable, FolderFault;
    if AddOutcome(s, FolderNode(f)).Done? {
      ProgressAdd(fs, before, f, after, s.folders);
      AddedConsistent(s, FolderNode(f), multiset{});
    } else {
      RefusedFolder(fs, cs, before, f, after, s.folders);
    }
  }

  lemma StuckOutcome(fs: seq<Entry>, cs: seq<Entry>, rest: seq<Entry>, s: Forest)
    requires Progress(fs, rest, s.folders) && Stuck(rest, s.folders) && Sound(s) && rest != []
    ensures !Acceptable(fs, cs)
    ensures Unique(fs) && NonNil(fs) ==> |rest| == |Unrooted(fs)| && Unrooted(fs) != {}
  {
    if Unique(fs) && NonNil(fs) {
      OrphanCount(fs, rest, s.folders);
      hide Progress, Consistent, Stuck;
      var x :| x in Unrooted(fs);
      assert x in ParentsOf(MapOf(fs));
    }
  }

  lemma AllFoldersPlaced(fs: seq<Entry>, cs: seq<Entry>, s: Forest)
    requires Progress(fs, [], s.folders) && Sound(s)
    ensures Unique(fs) && NonNil(fs) && s.folders == MapOf(fs) && Unrooted(fs) == {}
    ensures s.connections == map[] ==> Connected(fs, [], s.connections)
  {
    AllPlaced(fs, s.folders);
  }

  lemma AllConnected(fs: seq<Entry>, cs: seq<Entry>, s: Forest)
    requires Unique(fs) && NonNil(fs) && Sound(s) && s.folders == MapOf(fs) && Connected(fs, cs, s.connections)
    ensures Acceptable(fs, cs)
  {
  }

  // ------------------------------------------------------------------
  // Round trip, and independence of order
  // ------------------------------------------------------------------

  lemma {:induction false} SplitMembers(v: seq<Node>)
    ensures forall e :: e in FolderEntries(v) <==> FolderNode(e) in v
    ensures forall e :: e in ConnectionEntries(v) <==> ConnectionNode(e) in v
  {
    if v != [] {
      SplitMembers(v[..|v| - 1]);
      assert v == v[..|v| - 1] + [v[|v| - 1]];
    }
  }

  lemma UniqueAppend(list: seq<Entry>, e: Entry)
    requires Unique(list) && forall x | x in list :: x.id != e.id
    ensures Unique(list + [e])
  {
    assert forall i | 0 <= i < |list| :: list[i] in list;
  }

  lemma {:induction false} SplitUnique(v: seq<Node>)
    requires forall i, j | 0 <= i < j < |v| :: v[i].entry.id != v[j].entry.id
    ensures Unique(FolderEntries(v)) && Unique(ConnectionEntries(v))
  {
    if v != [] {
      var init, last := v[..|v| - 1], v[|v| - 1];
      SplitUnique(init);
      SplitMembers(init);
      forall e | FolderNode(e) in init || ConnectionNode(e) in init
        ensures e.id != last.entry.id
      {
        var i :| 0 <= i < |init| && (init[i] == FolderNode(e) || init[i] == ConnectionNode(e));
        assert v[i].entry == e;
      }
      UniqueAppend(FolderEntries(init), last.entry);
      UniqueAppend(ConnectionEntries(init), last.entry);
    }
  }

  /** The nodes of a walk that visits each once, split by kind, are acceptable, and index back to the same maps. */
  lemma EncodedAcceptable(s: Forest, stale: multiset<ID>)
    requires Consistent(s, stale)
    ensures var fs, cs := FolderEntries(WalkOf(s)), ConnectionEntries(WalkOf(s));
            Acceptable(fs, cs) && MapOf(fs) == s.folders && MapOf(cs) == s.connections
  {
    var v := WalkOf(s);
    var fs, cs := FolderEntries(v), ConnectionEntries(v);
    WalkTheorem(s, stale);
    hide WalkOf, Count, Indexed;
    forall i, j | 0 <= i < j < |v|
      ensures v[i].entry.id != v[j].entry.id
    {
      CountDistinct(Ids(v), i, j);
    }
    SplitUnique(v);
    EncodedIndexes(s, v);
    hide FolderEntries, ConnectionEntries, MapOf, IsForest;
    IndexesAcceptable(s, stale, fs, cs);
  }

  /** Lists that hold a forest's nodes once each are acceptable. */
  lemma IndexesAcceptable(s: Forest, stale: multiset<ID>, fs: seq<Entry>, cs: seq<Entry>)
    requires Consistent(s, stale)
    requires Indexes(s.folders, fs) && Indexes(s.connections, cs) && Unique(fs) && Unique(cs)
    ensures Acceptable(fs, cs) && MapOf(fs) == s.folders && MapOf(cs) == s.connections
  {
    IndexesMapOf(s.folders, fs);
    IndexesMapOf(s.connections, cs);
    hide Indexed, MapOf, IsForest, Unique;
    assert NonNil(fs) && NonNil(cs) && Disjoint(fs, cs) && ParentsKnown(fs, cs);
  }

  /** A connection visited twice is listed twice. */
  lemma {:induction false} ListedOnce(v: seq<Node>, x: ID)
    requires Unique(ConnectionEntries(v))
    requires forall n | n in v && n.entry.id == x :: n.ConnectionNode?
    ensures Count(Ids(v), x) <= 1
    ensures HasId(ConnectionEntries(v), x) <==> Count(Ids(v), x) > 0
  {
    if v != [] {
      var init, last := v[..|v| - 1], v[|v| - 1];
      assert v == init + [last];
      assert last in v && forall n | n in init :: n in v;
      CountIds(init, [last], x);
      assert Ids([last]) == [last.entry.id];
      var e := ConnectionEntries(init);
      if last.ConnectionNode? {
        UniqueSplit(e, last.entry);
        HasIdSplit(e, last.entry, x);
      } else {
        assert ConnectionEntries(v) == e;
      }
      hide Unique, HasId;
      ListedOnce(init, x);
    }
  }

  /** What is saved can be loaded again exactly when no stale root entry names a connection, which is saved twice. */
  lemma SavedAcceptable(s: Forest, stale: multiset<ID>)
    requires Consistent(s, stale) && Walked(s).1 != Crash
    ensures var fs, cs := FolderEntries(Walked(s).0), ConnectionEntries(Walked(s).0);
            && (Acceptable(fs, cs) <==> forall x | stale[x] > 0 :: x !in s.connections)
            && (Acceptable(fs, cs) ==> MapOf(fs) == s.folders && MapOf(cs) == s.connections)
  {
    hide WalkOf, FolderEntries, ConnectionEntries, MapOf, IsForest, Indexed;
    var v := Walked(s).0;
    EncodedAcceptable(s, stale);
    WalkExactly(s, stale);
    RootExactIffSound(s, stale);
    if Walked(s).1 == NilNode {
      NilNodeComesLast(s, stale);
    } else if stale != multiset{} {
      var x :| x in stale;
      assert stale[x] > 0 && x in s.connections;
      CompleteCounts(s, stale, x);
      WalkedOwn(s, stale);
      hide Walked;
      if Unique(ConnectionEntries(v)) {
        ListedOnce(v, x);
      }
    }
  }

  lemma EncodedIndexes(s: Forest, v: seq<Node>)
    requires WellKeyed(s.folders) && WellKeyed(s.connections)
    requires forall n | n in v :: Own(s.folders, s.connections, n)
    requires forall x :: Count(Ids(v), x) == if x in s.folders || x in s.connections then 1 else 0
    requires s.folders.Keys !! s.connections.Keys
    ensures Indexes(s.folders, FolderEntries(v)) && Indexes(s.connections, ConnectionEntries(v))
  {
    var fs, cs := FolderEntries(v), ConnectionEntries(v);
    SplitMembers(v);
    hide FolderEntries, ConnectionEntries;
    forall i | 0 <= i < |fs|
      ensures fs[i].id in s.folders && s.folders[fs[i].id] == fs[i]
    {
      assert FolderNode(fs[i]) in v;
    }
    forall i | 0 <= i < |cs|
      ensures cs[i].id in s.connections && s.connections[cs[i].id] == cs[i]
    {
      assert ConnectionNode(cs[i]) in v;
    }
    forall x | x in s.folders || x in s.connections
      ensures x in s.folders ==> s.folders[x] in fs
      ensures x in s.connections ==> s.connections[x] in cs
    {
      CountIn(Ids(v), x);
      var i :| 0 <= i < |v| && Ids(v)[i] == x;
      assert v[i] in v;
    }
  }

  /**
   * Saving and loading. A sound tree comes back with the same nodes and the same walk. After a root-level connection
   * was removed, saving crashes if another root entry is listed beside the missing one; a document that was saved
   * loads again exactly when no stale entry names a connection, and then the stale entries are gone.
   */
  method Reload(t: Tree, ghost stale: multiset<ID>) returns (crashed: bool, r: DecodeOutcome, u: Tree)
    requires Consistent(t.View(), stale)
    ensures crashed <==> |RootList(t.View())| >= 2 && exists x :: stale[x] > 0 && x !in t.connections
    ensures !crashed ==> (r.Rebuilt? <==> forall x | stale[x] > 0 :: x !in t.connections)
    ensures !crashed && r.Rebuilt? ==>
              && fresh(u) && Sound(u.View()) && u.folders == t.folders && u.connections == t.connections
              && WalkOf(u.View()) == WalkOf(t.View())
    ensures Sound(t.View()) ==> !crashed && r.Rebuilt?
  {
    hide Consistent, Acceptable, Walked, Arrangement, VisitFolders;
    WalkExactly(t.View(), stale);
    CrashExactly(t.View(), stale);
    var fs, cs;
    crashed, fs, cs := EncodeInventory(t, stale);
    if crashed {
      u := new Tree();
      return true, Rebuilt, u;
    }
    ghost var v := Walked(t.View()).0;
    SavedAcceptable(t.View(), stale);
    PresentPointers(FolderEntries(v));
    PresentPointers(ConnectionEntries(v));
    assert Pointers(ConnectionEntries(v)) + [] == Pointers(ConnectionEntries(v));
    r, u := DecodeInventory(fs, cs);
    RootExactIffSound(t.View(), stale);
  }

  lemma CrashExactly(s: Forest, stale: multiset<ID>)
    requires Consistent(s, stale)
    ensures Walkable(s.folders, s.connections)
    ensures Walked(s).1 == Crash <==> |RootList(s)| >= 2 && exists x :: stale[x] > 0 && x !in s.connections
  {
    MissingExactly(s, stale);
  }

  lemma TwoPositions(s: seq<Entry>, e: Entry, i: nat, j: nat)
    requires i < j < |s| && s[i] == e && s[j] == e
    ensures multiset(s)[e] >= 2
  {
    assert s == s[..j] + s[j..];
    assert e in s[..j] by { assert s[..j][i] == e; }
    assert e in s[j..] by { assert s[j..][0] == e; }
  }

  lemma {:induction false} UniqueOnce(s: seq<Entry>, e: Entry)
    requires Unique(s)
    ensures multiset(s)[e] <= 1
  {
    if s != [] {
      var init, last := s[..|s| - 1], s[|s| - 1];
      assert s == init + [last];
      UniqueOnce(init, e);
      assert forall i | 0 <= i < |init| :: init[i] == s[i] && init[i].id != last.id;
    }
  }

  lemma PermutedUnique(s: seq<Entry>, t: seq<Entry>)
    requires multiset(s) == multiset(t) && Unique(s)
    ensures Unique(t) && MapOf(t) == MapOf(s)
  {
    forall i, j | 0 <= i < j < |t|
      ensures t[i].id != t[j].id
    {
      assert t[i] in multiset(t) && t[j] in multiset(t);
      var k :| 0 <= k < |s| && s[k] == t[i];
      var l :| 0 <= l < |s| && s[l] == t[j];
      if t[i] == t[j] {
        TwoPositions(t, t[i], i, j);
        UniqueOnce(s, t[i]);
      }
    }
    assert forall e :: e in s <==> e in multiset(s);
    assert forall e :: e in t <==> e in multiset(t);
    forall i | 0 <= i < |t|
      ensures t[i].id in MapOf(s) && MapOf(s)[t[i].id] == t[i]
    {
      assert t[i] in s;
      var k :| 0 <= k < |s| && s[k] == t[i];
      MapOfUnique(s, k);
    }
    forall x | x in MapOf(s)
      ensures MapOf(s)[x].id == x && MapOf(s)[x] in t
    {
      MapOfKeys(s, x);
    }
    IndexesMapOf(MapOf(s), t);
  }

  /**
   * The order of either list changes nothing, repeated IDs or not: the verdict is the same, and as far as IDs are
   * unique so are the indexed nodes and the orphans.
   */
  lemma OrderIrrelevant(fs: seq<Entry>, cs: seq<Entry>, fs': seq<Entry>, cs': seq<Entry>)
    requires multiset(fs) == multiset(fs') && multiset(cs) == multiset(cs')
    ensures Acceptable(fs, cs) <==> Acceptable(fs', cs')
    ensures Unique(fs) ==> Unique(fs') && MapOf(fs) == MapOf(fs') && Unrooted(fs) == Unrooted(fs')
    ensures Unique(cs) ==> Unique(cs') && MapOf(cs) == MapOf(cs')
  {
    UniqueEitherWay(fs, fs');
    UniqueEitherWay(cs, cs');
    if Unique(fs) && Unique(cs) {
      SameSides(fs, cs, fs', cs');
      SameSides(fs', cs', fs, cs);
    }
  }

  lemma UniqueEitherWay(s: seq<Entry>, t: seq<Entry>)
    requires multiset(s) == multiset(t)
    ensures Unique(s) <==> Unique(t)
    ensures Unique(s) ==> MapOf(s) == MapOf(t)
  {
    if Unique(s) {
      PermutedUnique(s, t);
    } else if Unique(t) {
      PermutedUnique(t, s);
    }
  }

  lemma SameSides(fs: seq<Entry>, cs: seq<Entry>, fs': seq<Entry>, cs': seq<Entry>)
    requires multiset(fs) == multiset(fs') && multiset(cs) == multiset(cs') && MapOf(fs) == MapOf(fs')
    ensures NonNil(fs) ==> NonNil(fs')
    ensures NonNil(cs) ==> NonNil(cs')
    ensures Disjoint(fs, cs) ==> Disjoint(fs', cs')
    ensures ParentsKnown(fs, cs) ==> ParentsKnown(fs', cs')
  {
    forall i | 0 <= i < |fs'|
      ensures exists k :: 0 <= k < |fs| && fs[k] == fs'[i]
    {
      assert fs'[i] in multiset(fs');
      assert fs'[i] in fs;
    }
    forall i | 0 <= i < |cs'|
      ensures exists k :: 0 <= k < |cs| && cs[k] == cs'[i]
    {
      assert cs'[i] in multiset(cs');
      assert cs'[i] in cs;
    }
  }
}
