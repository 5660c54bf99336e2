// The order in which a tree is walked (internal/domain/tree.go, walkFrom), by
// what a caller sees: siblings by name and then by ID, folders before
// connections, and everything under a folder right behind it.
module WalkOrder {
  import opened Octets
  import opened Identifiers
  import opened Ancestry
  import opened Forests
  import opened Walks
  import opened Snapshots

  /** a may stand before its sibling b: folders first, then by name, then by the bytes of the ID. */
  ghost predicate MayPrecede(a: Node, b: Node) {
    && (a.FolderNode? || b.ConnectionNode?)
    && (a.FolderNode? == b.FolderNode? ==>
          && !LexLess(b.entry.name, a.entry.name)
          && (a.entry.name == b.entry.name ==> !IdLess(b.entry.id, a.entry.id)))
  }

  /** Siblings stand in order. */
  ghost predicate Ordered(v: seq<Node>) {
    forall i, j | 0 <= i < j < |v| && v[i].entry.parent == v[j].entry.parent :: MayPrecede(v[i], v[j])
  }

  /** What is visited between a folder and something under it is under it too. */
  ghost predicate Nested(fs: Entries, cs: Entries, v: seq<Node>) {
    forall i, j, k | 0 <= i < j < k < |v| && v[i].FolderNode? && Within(fs, cs, v[k].entry.id, v[i].entry.id) ::
      Within(fs, cs, v[j].entry.id, v[i].entry.id)
  }

  lemma BeforeMayPrecede(m: Entries, x: ID, y: ID)
    requires x in m && y in m && !Before(m[y], m[x])
    ensures MayPrecede(FolderNode(m[x]), FolderNode(m[y])) && MayPrecede(ConnectionNode(m[x]), ConnectionNode(m[y]))
  {
  }

  ghost predicate InOrder(fs: Entries, cs: Entries, v: seq<Node>) {
    Ordered(v) && Nested(fs, cs, v)
  }

  /** Nothing in b is under a folder of a, and no node of b belongs before a sibling in a. */
  ghost predicate Follows(fs: Entries, cs: Entries, a: seq<Node>, b: seq<Node>) {
    forall x, y | x in a && y in b :: MayFollow(fs, cs, x, y)
  }

  ghost predicate MayFollow(fs: Entries, cs: Entries, x: Node, y: Node) {
    && (x.entry.parent == y.entry.parent ==> MayPrecede(x, y))
    && (x.FolderNode? ==> !Within(fs, cs, y.entry.id, x.entry.id))
  }

  lemma InOrderConcat(fs: Entries, cs: Entries, a: seq<Node>, b: seq<Node>)
    requires InOrder(fs, cs, a) && InOrder(fs, cs, b) && Follows(fs, cs, a, b)
    ensures InOrder(fs, cs, a + b)
  {
    var v := a + b;
    hide MayPrecede, Within;
    forall i, j | 0 <= i < j < |v| && v[i].entry.parent == v[j].entry.parent
      ensures MayPrecede(v[i], v[j])
    {
      if i < |a| <= j {
        assert v[i] in a && v[j] in b;
      }
    }
    forall i, j, k | 0 <= i < j < k < |v| && v[i].FolderNode? && Within(fs, cs, v[k].entry.id, v[i].entry.id)
      ensures Within(fs, cs, v[j].entry.id, v[i].entry.id)
    {
      assert i < |a| ==> v[i] in a;
      assert k >= |a| ==> v[k] in b;
    }
  }

  /** A folder in front of everything under it, none of which is its sibling. */
  lemma InOrderUnder(fs: Entries, cs: Entries, n: Node, v: seq<Node>)
    requires InOrder(fs, cs, v)
    requires forall y | y in v :: Within(fs, cs, y.entry.id, n.entry.id) && y.entry.parent != n.entry.parent
    ensures InOrder(fs, cs, [n] + v)
  {
    var w := [n] + v;
    hide Within, MayPrecede;
    forall i, j | 0 <= i < j < |w| && w[i].entry.parent == w[j].entry.parent
      ensures MayPrecede(w[i], w[j])
    {
      assert w[j] in v;
    }
    forall i, j, k | 0 <= i < j < k < |w| && w[i].FolderNode? && Within(fs, cs, w[k].entry.id, w[i].entry.id)
      ensures Within(fs, cs, w[j].entry.id, w[i].entry.id)
    {
      assert w[j] in v;
    }
  }

  /** Where a node that is visited below p hangs. */
  lemma VisitedBelow(fs: Entries, cs: Entries, p: ID, n: Node)
    requires Walkable(fs, cs) && n in Visits(fs, cs, p)
    ensures Own(fs, cs, n) && Within(fs, cs, n.entry.id, p) && Under(ParentsOf(fs), n.entry.parent, p)
  {
    VisitsWellFormed(fs, cs, p);
    VisitsCount(fs, cs, p, n.entry.id);
    ListedIn(Visits(fs, cs, p), n);
    hide Visits;
    UnderStep(ParentsOf(fs), n.entry.id, p);
  }

  lemma ListedIn(v: seq<Node>, n: Node)
    requires n in v
    ensures Count(Ids(v), n.entry.id) > 0
  {
    hide Count;
    CountIn(Ids(v), n.entry.id);
    var i :| 0 <= i < |v| && v[i] == n;
    assert Ids(v)[i] == n.entry.id;
  }

  /** The child of p on the way to a node that is visited with the folders of p. */
  lemma VisitedInChild(fs: Entries, cs: Entries, p: ID, list: seq<ID>, n: Node) returns (c: ID)
    requires Walkable(fs, cs) && Arranged(fs, list)
    requires forall i | 0 <= i < |list| :: list[i] in fs && fs[list[i]].parent == p
    requires n in VisitFolders(fs, cs, p, list)
    ensures c in list && Own(fs, cs, n) && AtOrWithin(fs, cs, n.entry.id, c)
    ensures if n.entry.parent == p then n.FolderNode? && n.entry.id == c else Under(ParentsOf(fs), n.entry.parent, c)
  {
    var par := ParentsOf(fs);
    VisitFoldersWellFormed(fs, cs, p, list);
    VisitFoldersCount(fs, cs, p, list, n.entry.id);
    ListedIn(VisitFolders(fs, cs, p, list), n);
    hide VisitFolders, IsForest;
    c :| c in list && AtOrWithin(fs, cs, n.entry.id, c);
    assert c in fs && par[c] == p;
    ParentNotUnderChild(par, c);
    UnderStep(par, n.entry.id, c);
    UnderSelf(par, c);
  }

  lemma {:induction false} VisitsInOrder(fs: Entries, cs: Entries, p: ID)
    requires Walkable(fs, cs)
    ensures InOrder(fs, cs, Visits(fs, cs, p))
    decreases Below(ParentsOf(fs), p), 1, 0
  {
    var folders, conns := Arrangement(fs, p), Arrangement(cs, p);
    var a, b := VisitFolders(fs, cs, p, folders), VisitConnections(cs, conns);
    assert Visits(fs, cs, p) == a + b;
    VisitFoldersInOrder(fs, cs, p, folders);
    ConnectionsInOrder(fs, cs, p, conns);
    ConnectionsFollow(fs, cs, p, folders, conns);
    hide *;
    InOrderConcat(fs, cs, a, b);
  }

  lemma ConnectionsFollow(fs: Entries, cs: Entries, p: ID, folders: seq<ID>, conns: seq<ID>)
    requires Walkable(fs, cs) && Arranged(fs, folders)
    requires forall i | 0 <= i < |folders| :: folders[i] in fs && fs[folders[i]].parent == p
    requires forall i | 0 <= i < |conns| :: conns[i] in cs && cs[conns[i]].parent == p
    ensures Follows(fs, cs, VisitFolders(fs, cs, p, folders), VisitConnections(cs, conns))
  {
    var a, b := VisitFolders(fs, cs, p, folders), VisitConnections(cs, conns);
    hide VisitFolders, MayFollow, IsForest;
    forall x, y | x in a && y in b
      ensures MayFollow(fs, cs, x, y)
    {
      var i :| 0 <= i < |b| && b[i] == y;
      BehindFolders(fs, cs, p, folders, x, y);
    }
  }

  /** A connection of p is no trouble for what is visited before it. */
  lemma BehindFolders(fs: Entries, cs: Entries, p: ID, list: seq<ID>, x: Node, y: Node)
    requires Walkable(fs, cs) && Arranged(fs, list)
    requires forall i | 0 <= i < |list| :: list[i] in fs && fs[list[i]].parent == p
    requires x in VisitFolders(fs, cs, p, list)
    requires y.ConnectionNode? && Own(fs, cs, y) && y.entry.parent == p
    ensures MayFollow(fs, cs, x, y)
  {
    var par := ParentsOf(fs);
    var c := VisitedInChild(fs, cs, p, list, x);
    hide VisitFolders, IsForest;
    ParentNotUnderChild(par, c);
    UnderSelf(par, c);
    if x.FolderNode? && Under(par, p, x.entry.id) {
      UnderTrans(par, p, x.entry.id, c);
      assert false;
    }
  }

  lemma ConnectionsInOrder(fs: Entries, cs: Entries, p: ID, list: seq<ID>)
    requires Arranged(cs, list)
    ensures InOrder(fs, cs, VisitConnections(cs, list))
  {
    forall i, j | 0 <= i < j < |list|
      ensures MayPrecede(VisitConnections(cs, list)[i], VisitConnections(cs, list)[j])
    {
      BeforeOrder(cs[list[i]], cs[list[j]], cs[list[i]]);
      BeforeMayPrecede(cs, list[i], list[j]);
    }
  }

  lemma {:induction false} VisitFoldersInOrder(fs: Entries, cs: Entries, p: ID, list: seq<ID>)
    requires Walkable(fs, cs) && Arranged(fs, list)
    requires forall i | 0 <= i < |list| :: list[i] in fs && fs[list[i]].parent == p
    ensures InOrder(fs, cs, VisitFolders(fs, cs, p, list))
    decreases Below(ParentsOf(fs), p), 0, |list|
  {
    if list != [] {
      var c, rest := list[0], list[1..];
      var head, mid, tail := FolderNode(fs[c]), Visits(fs, cs, c), VisitFolders(fs, cs, p, rest);
      assert VisitFolders(fs, cs, p, list) == [head] + mid + tail;
      BelowShrinks(ParentsOf(fs), c);
      VisitsInOrder(fs, cs, c);
      VisitFoldersInOrder(fs, cs, p, rest);
      ChildrenFollow(fs, cs, p, list);
      ParentNotUnderChild(ParentsOf(fs), c);
      hide Visits, VisitFolders, Arranged, Within, InOrder, Follows, IsForest;
      forall y | y in mid
        ensures Within(fs, cs, y.entry.id, c) && y.entry.parent != p
      {
        VisitedBelow(fs, cs, c, y);
      }
      InOrderUnder(fs, cs, head, mid);
      InOrderConcat(fs, cs, [head] + mid, tail);
    } else {
      assert VisitFolders(fs, cs, p, list) == [];
    }
  }

  lemma ChildrenFollow(fs: Entries, cs: Entries, p: ID, list: seq<ID>)
    requires Walkable(fs, cs) && Arranged(fs, list) && list != []
    requires forall i | 0 <= i < |list| :: list[i] in fs && fs[list[i]].parent == p
    ensures Follows(fs, cs, [FolderNode(fs[list[0]])] + Visits(fs, cs, list[0]), VisitFolders(fs, cs, p, list[1..]))
  {
    var a, b := [FolderNode(fs[list[0]])] + Visits(fs, cs, list[0]), VisitFolders(fs, cs, p, list[1..]);
    hide Visits, VisitFolders, MayFollow, IsForest, Arranged;
    forall x, y | x in a && y in b
      ensures MayFollow(fs, cs, x, y)
    {
      AcrossChildren(fs, cs, p, list, x, y);
    }
  }

  /** The first child's part against the parts of the later children. */
  lemma AcrossChildren(fs: Entries, cs: Entries, p: ID, list: seq<ID>, x: Node, y: Node)
    requires Walkable(fs, cs) && Arranged(fs, list) && list != []
    requires forall i | 0 <= i < |list| :: list[i] in fs && fs[list[i]].parent == p
    requires x == FolderNode(fs[list[0]]) || x in Visits(fs, cs, list[0])
    requires y in VisitFolders(fs, cs, p, list[1..])
    ensures MayFollow(fs, cs, x, y)
  {
    var par, c := ParentsOf(fs), list[0];
    var d := VisitedInChild(fs, cs, p, list[1..], y);
    var k :| 0 <= k < |list[1..]| && list[1..][k] == d;
    assert list[k + 1] == d;
    BeforeOrder(fs[c], fs[d], fs[c]);
    ParentNotUnderChild(par, c);
    ParentNotUnderChild(par, d);
    UnderSelf(par, c);
    if x != FolderNode(fs[c]) {
      VisitedBelow(fs, cs, c, x);
    }
    hide Visits, VisitFolders, IsForest;
    if x.FolderNode? && Within(fs, cs, y.entry.id, x.entry.id) {
      var z := if y.entry.id in fs then y.entry.id else y.entry.parent;
      UnderTrans(par, z, x.entry.id, c);
      OneChild(fs, cs, y.entry.id, c, d);
      assert false;
    }
    if x.entry.parent == y.entry.parent {
      if x.entry.parent == p {
        BeforeMayPrecede(fs, c, d);
      } else {
        UnderSelf(par, x.entry.parent);
        SiblingsDisjoint(par, x.entry.parent, c, d);
        assert false;
      }
    }
  }

  // ------------------------------------------------------------------
  // The root's connections, whatever their list holds
  // ------------------------------------------------------------------

  ghost predicate NonDescending(m: Entries, s: seq<ID>) {
    AllKnown(m, s) && forall i, j | 0 <= i < j < |s| :: !Before(m[s[j]], m[s[i]])
  }

  lemma {:induction false} InsertInPlace(m: Entries, x: ID, s: seq<ID>)
    requires x in m && NonDescending(m, s)
    ensures NonDescending(m, Insert(m, x, s))
  {
    var r := Insert(m, x, s);
    assert forall i | 0 <= i < |r| :: r[i] in r;
    if s != [] && Before(m[x], m[s[0]]) {
      forall j | 0 <= j < |s|
        ensures !Before(m[s[j]], m[x])
      {
        BeforeOrder(m[s[j]], m[x], m[s[0]]);
        BeforeOrder(m[s[0]], m[s[0]], m[s[0]]);
        assert j > 0 ==> !Before(m[s[j]], m[s[0]]);
      }
    } else if s != [] {
      var t := Insert(m, x, s[1..]);
      InsertInPlace(m, x, s[1..]);
      forall j | 0 <= j < |t|
        ensures !Before(m[t[j]], m[s[0]])
      {
        assert t[j] in t;
        if t[j] in s[1..] {
          var k :| 0 <= k < |s[1..]| && s[1..][k] == t[j];
          assert s[k + 1] == t[j];
        }
      }
    }
  }

  lemma {:induction false} SortInPlace(m: Entries, ids: seq<ID>)
    requires AllKnown(m, ids)
    ensures NonDescending(m, SortIds(m, ids))
  {
    if ids != [] {
      SortInPlace(m, ids[1..]);
      InsertInPlace(m, ids[0], SortIds(m, ids[1..]));
    }
  }

  /** The part behind the folders: connections in order, and those that hang elsewhere have been visited there. */
  ghost predicate RootPart(s: Forest, front: seq<Node>, b: seq<Node>) {
    && (forall y | y in b :: y.ConnectionNode? && Own(s.folders, s.connections, y))
    && (forall y | y in b && y.entry.parent != NIL_ID :: y.entry.id in Ids(front))
    && (forall i, j | 0 <= i < j < |b| :: MayPrecede(b[i], b[j]))
  }

  lemma WalkedSplits(s: Forest, stale: multiset<ID>) returns (b: seq<Node>)
    requires Consistent(s, stale)
    ensures Walkable(s.folders, s.connections) && Walked(s).0 == FolderPart(s) + b && RootPart(s, FolderPart(s), b)
  {
    var snapshot := SnapshotOf(s.connections, RootList(s));
    if snapshot.1 == Complete {
      b := VisitConnections(s.connections, snapshot.0);
      SortInPlace(s.connections, RootList(s));
      hide Indexed, IsForest, VisitFolders, SortIds;
      forall y | y in b
        ensures y.ConnectionNode? && Own(s.folders, s.connections, y)
        ensures y.entry.parent != NIL_ID ==> y.entry.id in Ids(FolderPart(s))
      {
        var i :| 0 <= i < |b| && b[i] == y;
        FolderPartCount(s, stale, y.entry.id);
        CountIn(Ids(FolderPart(s)), y.entry.id);
      }
      forall i, j | 0 <= i < j < |b|
        ensures MayPrecede(b[i], b[j])
      {
        BeforeMayPrecede(s.connections, snapshot.0[i], snapshot.0[j]);
      }
    } else {
      b := [];
      assert FolderPart(s) + [] == FolderPart(s);
    }
  }

  /** A node of the folder part that hangs under the root is a folder. */
  lemma RootFolders(s: Forest, x: Node)
    requires Walkable(s.folders, s.connections) && x in FolderPart(s)
    ensures Own(s.folders, s.connections, x) && (x.entry.parent == NIL_ID ==> x.FolderNode?)
  {
    var c := VisitedInChild(s.folders, s.connections, NIL_ID, Arrangement(s.folders, NIL_ID), x);
  }

  /** What RootFolders says of a whole front part. */
  ghost predicate FrontPart(s: Forest, a: seq<Node>) {
    && InOrder(s.folders, s.connections, a)
    && forall x | x in a ::
         Own(s.folders, s.connections, x) && (x.entry.parent == NIL_ID ==> x.FolderNode?)
  }

  lemma FolderPartInFront(s: Forest, stale: multiset<ID>)
    requires Consistent(s, stale) && Walkable(s.folders, s.connections)
    ensures FrontPart(s, FolderPart(s))
  {
    VisitFoldersInOrder(s.folders, s.connections, NIL_ID, Arrangement(s.folders, NIL_ID));
    hide InOrder;
    forall x | x in FolderPart(s)
      ensures Own(s.folders, s.connections, x) && (x.entry.parent == NIL_ID ==> x.FolderNode?)
    {
      RootFolders(s, x);
    }
  }

  lemma SiblingsInOrder(s: Forest, a: seq<Node>, b: seq<Node>, i: nat, j: nat)
    requires FrontPart(s, a) && RootPart(s, a, b)
    requires i < j < |a + b| && (a + b)[i].entry.parent == (a + b)[j].entry.parent
    requires (a + b)[j].entry.parent == NIL_ID || (a + b)[j].entry.id !in Ids((a + b)[..j])
    ensures MayPrecede((a + b)[i], (a + b)[j])
  {
    hide Nested, LexLess, IdLess;
    SeenBefore(a, b, j);
    hide Ids;
    if j < |a| {
      assert a[i] == (a + b)[i] && a[j] == (a + b)[j];
    } else if i < |a| {
      assert (a + b)[i] in a && (a + b)[j] in b;
    } else {
      assert (a + b)[i] == b[i - |a|] && (a + b)[j] == b[j - |a|] && b[j - |a|] in b;
    }
  }

  /** What comes behind the folders for the first time is under no folder. */
  lemma BehindUnderNone(s: Forest, stale: multiset<ID>, a: seq<Node>, b: seq<Node>, i: nat, k: nat)
    requires Consistent(s, stale) && FrontPart(s, a) && RootPart(s, a, b)
    requires |a| <= k < |a + b| && i < k && (a + b)[i].FolderNode? && (a + b)[k].entry.id !in Ids((a + b)[..k])
    ensures !Within(s.folders, s.connections, (a + b)[k].entry.id, (a + b)[i].entry.id)
  {
    SeenBefore(a, b, k);
    assert (a + b)[k] in b;
    var x := (a + b)[i];
    assert x in a || x in b;
    hide Ids, Within, MayPrecede, Consistent;
    NothingAboveRoot(s, stale);
  }

  lemma DescendantsTogether(s: Forest, stale: multiset<ID>, a: seq<Node>, b: seq<Node>, i: nat, j: nat, k: nat)
    requires Consistent(s, stale) && FrontPart(s, a) && RootPart(s, a, b)
    requires i < j < k < |a + b| && (a + b)[i].FolderNode? && (a + b)[k].entry.id !in Ids((a + b)[..k])
    requires Within(s.folders, s.connections, (a + b)[k].entry.id, (a + b)[i].entry.id)
    ensures Within(s.folders, s.connections, (a + b)[j].entry.id, (a + b)[i].entry.id)
  {
    hide Ids, Within, MayPrecede, Consistent;
    if k < |a| {
      assert a[i] == (a + b)[i] && a[j] == (a + b)[j] && a[k] == (a + b)[k];
    } else {
      BehindUnderNone(s, stale, a, b, i, k);
    }
  }

  /**
   * In every tree that edits can reach a walk visits siblings by name, ties broken by the bytes of the ID, and folders
   * before connections; and whatever is visited between a folder and something below it is below it as well. Only a
   * connection that is listed under the root although it hangs elsewhere stands apart, when it is visited once more.
   */
  lemma WalkInOrder(s: Forest, stale: multiset<ID>)
    requires Consistent(s, stale)
    ensures Walkable(s.folders, s.connections)
    ensures var v := Walked(s).0;
            forall i, j | 0 <= i < j < |v| && v[i].entry.parent == v[j].entry.parent
                          && (v[j].entry.parent == NIL_ID || v[j].entry.id !in Ids(v[..j])) ::
              && (v[i].FolderNode? || v[j].ConnectionNode?)
              && (v[i].FolderNode? == v[j].FolderNode? ==>
                    && !LexLess(v[j].entry.name, v[i].entry.name)
                    && (v[i].entry.name == v[j].entry.name ==> !LexLess(v[j].entry.id.bytes, v[i].entry.id.bytes)))
    ensures var v := Walked(s).0;
            forall i, j, k | 0 <= i < j < k < |v| && v[i].FolderNode? && v[k].entry.id !in Ids(v[..k])
                             && Within(s.folders, s.connections, v[k].entry.id, v[i].entry.id) ::
              Within(s.folders, s.connections, v[j].entry.id, v[i].entry.id)
  {
    var b := WalkedSplits(s, stale);
    var v, a := Walked(s).0, FolderPart(s);
    FolderPartInFront(s, stale);
    hide *;
    forall i, j | 0 <= i < j < |v| && v[i].entry.parent == v[j].entry.parent
                  && (v[j].entry.parent == NIL_ID || v[j].entry.id !in Ids(v[..j]))
      ensures && (v[i].FolderNode? || v[j].ConnectionNode?)
              && (v[i].FolderNode? == v[j].FolderNode? ==>
                    && !LexLess(v[j].entry.name, v[i].entry.name)
                    && (v[i].entry.name == v[j].entry.name ==> !LexLess(v[j].entry.id.bytes, v[i].entry.id.bytes)))
    {
      SiblingsInOrder(s, a, b, i, j);
      MayPrecedeMeans(v[i], v[j]);
    }
    forall i, j, k | 0 <= i < j < k < |v| && v[i].FolderNode? && v[k].entry.id !in Ids(v[..k])
                     && Within(s.folders, s.connections, v[k].entry.id, v[i].entry.id)
      ensures Within(s.folders, s.connections, v[j].entry.id, v[i].entry.id)
    {
      DescendantsTogether(s, stale, a, b, i, j, k);
    }
  }

  lemma MayPrecedeMeans(a: Node, b: Node)
    requires MayPrecede(a, b)
    ensures a.FolderNode? || b.ConnectionNode?
    ensures a.FolderNode? == b.FolderNode? ==>
              && !LexLess(b.entry.name, a.entry.name)
              && (a.entry.name == b.entry.name ==> !LexLess(b.entry.id.bytes, a.entry.id.bytes))
  {
  }

  /** What has been visited with the folders has been visited before. */
  lemma SeenBefore(a: seq<Node>, b: seq<Node>, k: nat)
    requires k < |a + b|
    ensures k >= |a| ==> forall x | x in Ids(a) :: x in Ids((a + b)[..k])
  {
    if k >= |a| {
      forall x | x in Ids(a)
        ensures x in Ids((a + b)[..k])
      {
        var i :| 0 <= i < |a| && Ids(a)[i] == x;
        assert Ids((a + b)[..k])[i] == x;
      }
    }
  }

  lemma NothingAboveRoot(s: Forest, stale: multiset<ID>)
    requires Consistent(s, stale)
    ensures forall y, x | y in s.connections && s.connections[y].parent == NIL_ID && x in s.folders ::
              !Within(s.folders, s.connections, y, x)
  {
    forall x | x in s.folders
      ensures !Under(ParentsOf(s.folders), NIL_ID, x)
    {
      UnderStep(ParentsOf(s.folders), NIL_ID, x);
    }
  }
}
