// The deterministic pre-order walk (internal/domain/tree.go, Walk and walkFrom):
// at each level folders in name order, each followed by its own subtree, then
// connections in name order. The sequence depends on the nodes alone, not on
// the order of the child lists.
module Walks {
  import opened Octets
  import opened Identifiers
  import opened Ancestry
  import opened Forests

  /** The sort key: the name, ties broken by the ID bytes. */
  predicate Before(a: Entry, b: Entry) {
    LexLess(a.name, b.name) || (a.name == b.name && IdLess(a.id, b.id))
  }

  lemma BeforeOrder(a: Entry, b: Entry, c: Entry)
    ensures !Before(a, a)
    ensures a.id != b.id ==> Before(a, b) || Before(b, a)
    ensures Before(a, b) && Before(b, c) ==> Before(a, c)
    ensures !(Before(a, b) && Before(b, a))
  {
    LexIrreflexive(a.name);
    LexTotal(a.name, b.name);
    IdOrder(a.id, b.id, c.id);
    if Before(a, b) && Before(b, c) && LexLess(a.name, b.name) && LexLess(b.name, c.name) {
      LexTransitive(a.name, b.name, c.name);
    }
    if LexLess(a.name, b.name) && LexLess(b.name, a.name) {
      LexTransitive(a.name, b.name, a.name);
    }
    LexIrreflexive(b.name);
  }

  /** s lists nodes of m in strictly ascending walk order. */
  ghost predicate Arranged(m: Entries, s: seq<ID>) {
    && (forall i | 0 <= i < |s| :: s[i] in m)
    && (forall i, j | 0 <= i < j < |s| :: Before(m[s[i]], m[s[j]]))
  }

  ghost function Kids(m: Entries, p: ID): set<ID> {
    set x | x in m && m[x].parent == p
  }

  ghost predicate Lists(s: seq<ID>, ids: set<ID>) {
    forall x :: x in s <==> x in ids
  }

  /** Inserts x into an arranged list; stands for one step of the library sort. */
  function Insert(m: Entries, x: ID, s: seq<ID>): (r: seq<ID>)
    requires x in m && forall i | 0 <= i < |s| :: s[i] in m
    ensures forall y :: y in r <==> y == x || y in s
    ensures WellKeyed(m) && Arranged(m, s) && x !in s ==> Arranged(m, r)
  {
    if s == [] then [x]
    else if Before(m[x], m[s[0]]) then
      assert WellKeyed(m) && Arranged(m, s) && x !in s ==> Arranged(m, [x] + s) by {
        forall j | 0 <= j < |s| {
          BeforeOrder(m[x], m[s[0]], m[s[j]]);
        }
      }
      [x] + s
    else
      var t := Insert(m, x, s[1..]);
      assert s == [s[0]] + s[1..];
      assert WellKeyed(m) && Arranged(m, s) && x !in s ==> Arranged(m, [s[0]] + t) by {
        BeforeOrder(m[x], m[s[0]], m[x]);
        if WellKeyed(m) && Arranged(m, s) && x !in s {
          assert m[x].id != m[s[0]].id;
          forall y | y in t
            ensures Before(m[s[0]], m[y])
          {
          }
        }
      }
      [s[0]] + t
  }

  /** `sort.Slice` by name and ID. */
  function SortIds(m: Entries, ids: seq<ID>): (r: seq<ID>)
    requires forall i | 0 <= i < |ids| :: ids[i] in m
    ensures forall y :: y in r <==> y in ids
  {
    if ids == [] then []
    else
      var rest := SortIds(m, ids[1..]);
      assert ids == [ids[0]] + ids[1..];
      assert forall i | 0 <= i < |rest| :: rest[i] in rest;
      Insert(m, ids[0], rest)
  }

  lemma {:induction false} SortArranges(m: Entries, ids: seq<ID>)
    requires WellKeyed(m) && forall i | 0 <= i < |ids| :: ids[i] in m
    requires forall x :: Count(ids, x) <= 1
    ensures Arranged(m, SortIds(m, ids))
  {
    if ids != [] {
      forall x
        ensures Count(ids[1..], x) <= 1
      {
        assert Count(ids, x) <= 1;
      }
      SortArranges(m, ids[1..]);
      assert Count(ids, ids[0]) <= 1;
      CountIn(ids[1..], ids[0]);
    }
  }

  lemma {:induction false} ArrangementUnique(m: Entries, s: seq<ID>, t: seq<ID>)
    requires Arranged(m, s) && Arranged(m, t) && forall x :: x in s <==> x in t
    ensures s == t
  {
    assert s != [] ==> s[0] in t;
    assert t != [] ==> t[0] in s;
    if s != [] {
      BeforeOrder(m[s[0]], m[t[0]], m[s[0]]);
      assert s[0] == t[0];
      forall x
        ensures x in s[1..] <==> x in t[1..]
      {
        BeforeOrder(m[s[0]], m[s[0]], m[s[0]]);
        assert x in s <==> x == s[0] || x in s[1..];
        assert x in t <==> x == t[0] || x in t[1..];
      }
      ArrangementUnique(m, s[1..], t[1..]);
    }
  }

  ghost function ArrangeSet(m: Entries, ids: set<ID>): (r: seq<ID>)
    requires ids <= m.Keys && WellKeyed(m)
    ensures Arranged(m, r) && Lists(r, ids)
  {
    if ids == {} then []
    else
      var x :| x in ids;
      var rest := ArrangeSet(m, ids - {x});
      assert x !in rest;
      Insert(m, x, rest)
  }

  /** The children of p in walk order. */
  ghost function Arrangement(m: Entries, p: ID): (r: seq<ID>)
    requires WellKeyed(m)
    ensures Arranged(m, r) && Lists(r, Kids(m, p))
    ensures forall i | 0 <= i < |r| :: r[i] in m && m[r[i]].parent == p
  {
    var r := ArrangeSet(m, Kids(m, p));
    assert forall i | 0 <= i < |r| :: r[i] in r;
    r
  }

  // ------------------------------------------------------------------
  // The visit sequence
  // ------------------------------------------------------------------

  ghost predicate Walkable(fs: Entries, cs: Entries) {
    WellKeyed(fs) && WellKeyed(cs) && fs.Keys !! cs.Keys && IsForest(ParentsOf(fs))
  }

  ghost function Visits(fs: Entries, cs: Entries, p: ID): seq<Node>
    requires Walkable(fs, cs)
    decreases Below(ParentsOf(fs), p), 1, 0
  {
    VisitFolders(fs, cs, p, Arrangement(fs, p)) + VisitConnections(cs, Arrangement(cs, p))
  }

  ghost function VisitFolders(fs: Entries, cs: Entries, p: ID, list: seq<ID>): seq<Node>
    requires Walkable(fs, cs)
    requires forall i | 0 <= i < |list| :: list[i] in fs && fs[list[i]].parent == p
    decreases Below(ParentsOf(fs), p), 0, |list|
  {
    if list == [] then []
    else
      BelowShrinks(ParentsOf(fs), list[0]);
      [FolderNode(fs[list[0]])] + Visits(fs, cs, list[0]) + VisitFolders(fs, cs, p, list[1..])
  }

  ghost function VisitConnections(cs: Entries, list: seq<ID>): (r: seq<Node>)
    requires forall i | 0 <= i < |list| :: list[i] in cs
    ensures |r| == |list|
  {
    seq(|list|, i requires 0 <= i < |list| => ConnectionNode(cs[list[i]]))
  }

  function Ids(v: seq<Node>): seq<ID> {
    seq(|v|, i requires 0 <= i < |v| => v[i].entry.id)
  }

  lemma IdsConcat(a: seq<Node>, b: seq<Node>)
    ensures Ids(a + b) == Ids(a) + Ids(b)
  {
  }

  /** x is a folder properly below p, or a connection whose parent is p or below it. */
  ghost predicate Within(fs: Entries, cs: Entries, x: ID, p: ID) {
    || (x in fs && x != p && Under(ParentsOf(fs), x, p))
    || (x in cs && Under(ParentsOf(fs), cs[x].parent, p))
  }

  /** As Within, with p itself included when it is a folder. */
  ghost predicate AtOrWithin(fs: Entries, cs: Entries, x: ID, p: ID) {
    (x in fs && x == p) || Within(fs, cs, x, p)
  }

  lemma {:induction false} ArrangedCount(m: Entries, s: seq<ID>, x: ID)
    requires Arranged(m, s)
    ensures Count(s, x) == if x in s then 1 else 0
  {
    if s != [] {
      ArrangedCount(m, s[1..], x);
      assert s == [s[0]] + s[1..];
      BeforeOrder(m[s[0]], m[s[0]], m[s[0]]);
    }
  }

  lemma CountIds(a: seq<Node>, b: seq<Node>, x: ID)
    ensures Count(Ids(a + b), x) == Count(Ids(a), x) + Count(Ids(b), x)
  {
    IdsConcat(a, b);
    CountConcat(Ids(a), Ids(b), x);
  }

  /** The child of p on the way up from x. */
  lemma ChildAbove(par: Parents, x: ID, p: ID) returns (c: ID)
    requires IsForest(par) && x != p && Under(par, x, p)
    ensures c in par && par[c] == p && Under(par, x, c)
  {
    var n: nat :| Climb(par, x, p, n);
    c := UnderViaChild(par, x, p, n);
  }

  ghost predicate InSomeChild(fs: Entries, cs: Entries, list: seq<ID>, x: ID) {
    exists c :: c in list && AtOrWithin(fs, cs, x, c)
  }

  /** Whatever lies within p is a connection directly under p, or lies in the subtree of one child folder. */
  lemma WithinSplits(fs: Entries, cs: Entries, p: ID, list: seq<ID>, x: ID)
    requires Walkable(fs, cs) && Lists(list, Kids(fs, p))
    ensures Within(fs, cs, x, p) <==> (x in cs && cs[x].parent == p) || InSomeChild(fs, cs, list, x)
    ensures x in cs && cs[x].parent == p ==> !InSomeChild(fs, cs, list, x)
  {
    var par := ParentsOf(fs);
    var y := if x in cs then cs[x].parent else x;
    UnderSelf(par, p);
    if Within(fs, cs, x, p) && !(x in cs && cs[x].parent == p) {
      var c := ChildAbove(par, y, p);
      UnderSelf(par, c);
      assert c in list && AtOrWithin(fs, cs, x, c);
    }
    if InSomeChild(fs, cs, list, x) {
      var c :| c in list && AtOrWithin(fs, cs, x, c);
      UnderSelf(par, c);
      ParentNotUnderChild(par, c);
      UnderStep(par, c, p);
      UnderTrans(par, y, c, p);
    }
  }

  lemma {:induction false} VisitsCount(fs: Entries, cs: Entries, p: ID, x: ID)
    requires Walkable(fs, cs)
    ensures Count(Ids(Visits(fs, cs, p)), x) == if Within(fs, cs, x, p) then 1 else 0
    decreases Below(ParentsOf(fs), p), 1, 0
  {
    var folders := Arrangement(fs, p);
    var conns := Arrangement(cs, p);
    VisitFoldersCount(fs, cs, p, folders, x);
    CountIds(VisitFolders(fs, cs, p, folders), VisitConnections(cs, conns), x);
    WithinSplits(fs, cs, p, folders, x);
    assert Ids(VisitConnections(cs, conns)) == conns;
    ArrangedCount(cs, conns, x);
  }

  /** Different children have nothing in common. */
  lemma OneChild(fs: Entries, cs: Entries, x: ID, c: ID, c': ID)
    requires Walkable(fs, cs) && c in fs && c' in fs && fs[c].parent == fs[c'].parent
    requires AtOrWithin(fs, cs, x, c) && AtOrWithin(fs, cs, x, c')
    ensures c == c'
  {
    UnderSelf(ParentsOf(fs), x);
    SiblingsDisjoint(ParentsOf(fs), if x in fs then x else cs[x].parent, c, c');
  }

  lemma {:induction false} VisitFoldersCount(fs: Entries, cs: Entries, p: ID, list: seq<ID>, x: ID)
    requires Walkable(fs, cs) && Arranged(fs, list)
    requires forall i | 0 <= i < |list| :: list[i] in fs && fs[list[i]].parent == p
    ensures Count(Ids(VisitFolders(fs, cs, p, list)), x) == if InSomeChild(fs, cs, list, x) then 1 else 0
    decreases Below(ParentsOf(fs), p), 0, |list|
  {
    if list != [] {
      var c, rest := list[0], list[1..];
      var head, mid, tail := [FolderNode(fs[c])], Visits(fs, cs, c), VisitFolders(fs, cs, p, rest);
      BelowShrinks(ParentsOf(fs), c);
      assert VisitFolders(fs, cs, p, list) == head + mid + tail;
      assert Ids(head) == [c] && Count([c], x) == if c == x then 1 else 0;
      SplitChild(fs, cs, list, x);
      VisitFoldersCount(fs, cs, p, rest, x);
      VisitsCount(fs, cs, c, x);
      hide Visits, VisitFolders, InSomeChild, Within, Count, Ids;
      CountIds(head, mid, x);
      CountIds(head + mid, tail, x);
    }
  }

  lemma SplitChild(fs: Entries, cs: Entries, list: seq<ID>, x: ID)
    requires Walkable(fs, cs) && Arranged(fs, list) && list != []
    requires forall i, j | 0 <= i < j < |list| :: fs[list[i]].parent == fs[list[j]].parent
    ensures InSomeChild(fs, cs, list, x) <==> AtOrWithin(fs, cs, x, list[0]) || InSomeChild(fs, cs, list[1..], x)
    ensures !(AtOrWithin(fs, cs, x, list[0]) && InSomeChild(fs, cs, list[1..], x))
  {
    assert list == [list[0]] + list[1..];
    if AtOrWithin(fs, cs, x, list[0]) && InSomeChild(fs, cs, list[1..], x) {
      var c :| c in list[1..] && AtOrWithin(fs, cs, x, c);
      OneChild(fs, cs, x, list[0], c);
      BeforeOrder(fs[c], fs[c], fs[c]);
    }
  }

  /** Every visited node is the tree's own, unchanged. */
  ghost predicate Own(fs: Entries, cs: Entries, n: Node) {
    match n
    case FolderNode(e) => e.id in fs && fs[e.id] == e
    case ConnectionNode(e) => e.id in cs && cs[e.id] == e
  }

  /** Each node's parent is p or a folder visited earlier. */
  ghost predicate ParentsFirst(v: seq<Node>, p: ID) {
    forall i | 0 <= i < |v| :: v[i].entry.parent == p || VisitedBefore(v, i, v[i].entry.parent)
  }

  ghost predicate VisitedBefore(v: seq<Node>, i: nat, f: ID) {
    exists j :: 0 <= j < i && j < |v| && v[j].FolderNode? && v[j].entry.id == f
  }

  lemma {:induction false} VisitsWellFormed(fs: Entries, cs: Entries, p: ID)
    requires Walkable(fs, cs)
    ensures forall n | n in Visits(fs, cs, p) :: Own(fs, cs, n)
    ensures ParentsFirst(Visits(fs, cs, p), p)
    decreases Below(ParentsOf(fs), p), 1, 0
  {
    VisitFoldersWellFormed(fs, cs, p, Arrangement(fs, p));
    var a, b := VisitFolders(fs, cs, p, Arrangement(fs, p)), VisitConnections(cs, Arrangement(cs, p));
    ParentsFirstConcat(a, b, p);
  }

  lemma ParentsFirstConcat(a: seq<Node>, b: seq<Node>, p: ID)
    requires ParentsFirst(a, p)
    requires forall i | 0 <= i < |b| :: b[i].entry.parent == p || VisitedBefore(b, i, b[i].entry.parent)
                                        || VisitedBefore(a, |a|, b[i].entry.parent)
    ensures ParentsFirst(a + b, p)
  {
    var v := a + b;
    forall i | 0 <= i < |v|
      ensures v[i].entry.parent == p || VisitedBefore(v, i, v[i].entry.parent)
    {
      var f := v[i].entry.parent;
      if i < |a| {
        if VisitedBefore(a, i, f) {
          var j :| 0 <= j < i && j < |a| && a[j].FolderNode? && a[j].entry.id == f;
          assert v[j] == a[j];
        }
      } else if b[i - |a|].entry.parent != p {
        if VisitedBefore(b, i - |a|, f) {
          var j :| 0 <= j < i - |a| && j < |b| && b[j].FolderNode? && b[j].entry.id == f;
          assert v[|a| + j] == b[j];
        } else {
          var j :| 0 <= j < |a| && j < |a| && a[j].FolderNode? && a[j].entry.id == f;
          assert v[j] == a[j];
        }
      }
    }
  }

  lemma {:induction false} VisitFoldersWellFormed(fs: Entries, cs: Entries, p: ID, list: seq<ID>)
    requires Walkable(fs, cs)
    requires forall i | 0 <= i < |list| :: list[i] in fs && fs[list[i]].parent == p
    ensures forall n | n in VisitFolders(fs, cs, p, list) :: Own(fs, cs, n)
    ensures ParentsFirst(VisitFolders(fs, cs, p, list), p)
    decreases Below(ParentsOf(fs), p), 0, |list|
  {
    if list != [] {
      var c := list[0];
      BelowShrinks(ParentsOf(fs), c);
      VisitsWellFormed(fs, cs, c);
      VisitFoldersWellFormed(fs, cs, p, list[1..]);
      var head := [FolderNode(fs[c])];
      assert VisitedBefore(head, 1, c) by {
        assert head[0].entry.id == c;
      }
      ParentsFirstConcat(head, Visits(fs, cs, c), p);
      ParentsFirstConcat(head + Visits(fs, cs, c), VisitFolders(fs, cs, p, list[1..]), p);
    }
  }

  /** The walk of a whole tree. */
  ghost function WalkOf(s: Forest): seq<Node>
    requires Walkable(s.folders, s.connections)
  {
    Visits(s.folders, s.connections, NIL_ID)
  }

  /** A walk yields every node of a sound tree exactly once, unchanged, parents before children. */
  lemma WalkTheorem(s: Forest, stale: multiset<ID>)
    requires Consistent(s, stale)
    ensures forall x :: Count(Ids(WalkOf(s)), x) == if x in s.folders || x in s.connections then 1 else 0
    ensures forall n | n in WalkOf(s) :: Own(s.folders, s.connections, n)
    ensures ParentsFirst(WalkOf(s), NIL_ID)
  {
    var fs, cs := s.folders, s.connections;
    var par := ParentsOf(fs);
    VisitsWellFormed(fs, cs, NIL_ID);
    forall x
      ensures Count(Ids(WalkOf(s)), x) == if x in fs || x in cs then 1 else 0
    {
      VisitsCount(fs, cs, NIL_ID, x);
      UnderSelf(par, NIL_ID);
      assert x in fs ==> Rooted(par, x);
      assert x in cs && cs[x].parent != NIL_ID ==> cs[x].parent in par && Rooted(par, cs[x].parent);
    }
  }
}
