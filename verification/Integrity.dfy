// The integrity validator (internal/persistence/integrity.go): duplicate IDs,
// missing parents, folder cycles and orphaned workspace tabs over two flat
// lists, and its agreement with the decoder.
module Integrity {
  import opened Octets
  import opened Wrappers
  import opened Identifiers
  import opened Ancestry
  import opened Forests
  import opened Walks
  import opened Snapshots
  import opened Trees
  import opened Inventory

  datatype Severity = Warn | Error

  datatype Code =
    | DuplicateID
    | MissingFolderParent
    | MissingConnectionParent
    | FolderCycle
    | OrphanWorkspaceTab
    | OrphanFocusedTab

  datatype Issue = Issue(severity: Severity, code: Code, related: seq<ID>)

  datatype Workspace = Workspace(openTabs: seq<ID>, focusedTab: ID)

  // ------------------------------------------------------------------
  // Canonical keys: equal exactly for equal ID sets
  // ------------------------------------------------------------------

  /** Inserts x into a sorted list from the right, past every larger ID. */
  function Place(s: seq<ID>, x: ID): (r: seq<ID>)
    ensures |r| == |s| + 1
  {
    if s == [] then [x]
    else if IdLess(x, s[|s| - 1]) then Place(s[..|s| - 1], x) + [s[|s| - 1]]
    else s + [x]
  }

  function SortedIds(ids: seq<ID>): (r: seq<ID>)
    ensures |r| == |ids|
  {
    if ids == [] then [] else Place(SortedIds(ids[..|ids| - 1]), ids[|ids| - 1])
  }

  function Flatten(ids: seq<ID>): Bytes {
    if ids == [] then [] else Flatten(ids[..|ids| - 1]) + ids[|ids| - 1].bytes
  }

  function KeyOf(ids: seq<ID>): Bytes {
    Flatten(SortedIds(ids))
  }

  ghost predicate NonDecreasing(s: seq<ID>) {
    forall i, j | 0 <= i < j < |s| :: !IdLess(s[j], s[i])
  }

  /** The two lists are rearrangements of each other. */
  ghost predicate Rearranged(a: seq<ID>, b: seq<ID>) {
    forall y :: Count(a, y) == Count(b, y)
  }

  lemma {:induction false} PlaceSorts(s: seq<ID>, x: ID)
    requires NonDecreasing(s)
    ensures NonDecreasing(Place(s, x))
    ensures forall y :: y in Place(s, x) <==> y in s || y == x
  {
    hide IdLess;
    if s != [] && IdLess(x, s[|s| - 1]) {
      var init, last := s[..|s| - 1], s[|s| - 1];
      PlaceSorts(init, x);
      var p := Place(init, x);
      assert s == init + [last];
      forall i | 0 <= i < |p|
        ensures !IdLess(last, p[i])
      {
        assert p[i] in p;
        if p[i] in init {
          var k :| 0 <= k < |init| && init[k] == p[i];
        } else {
          IdOrder(x, last, x);
        }
      }
    } else if s != [] {
      forall i | 0 <= i < |s|
        ensures !IdLess(x, s[i])
      {
        IdOrder(x, s[i], s[|s| - 1]);
        IdOrder(s[i], s[|s| - 1], x);
        IdOrder(x, s[|s| - 1], s[i]);
      }
    }
  }

  lemma {:induction false} PlaceCount(s: seq<ID>, x: ID, y: ID)
    ensures Count(Place(s, x), y) == Count(s, y) + if x == y then 1 else 0
  {
    if s != [] {
      var init, last := s[..|s| - 1], s[|s| - 1];
      assert s == init + [last];
      if IdLess(x, last) {
        PlaceCount(init, x, y);
        CountConcat(Place(init, x), [last], y);
        CountConcat(init, [last], y);
      } else {
        CountConcat(s, [x], y);
      }
    }
  }

  lemma {:induction false} SortedIdsSorts(ids: seq<ID>)
    ensures NonDecreasing(SortedIds(ids))
    ensures Rearranged(SortedIds(ids), ids)
  {
    if ids != [] {
      var init, last := ids[..|ids| - 1], ids[|ids| - 1];
      SortedIdsSorts(init);
      PlaceSorts(SortedIds(init), last);
      assert ids == init + [last];
      forall y
        ensures Count(SortedIds(ids), y) == Count(ids, y)
      {
        PlaceCount(SortedIds(init), last, y);
        CountConcat(init, [last], y);
      }
    }
  }

  lemma {:induction false} SortedUnique(s: seq<ID>, t: seq<ID>)
    requires NonDecreasing(s) && NonDecreasing(t) && Rearranged(s, t)
    ensures s == t
  {
    if s != [] || t != [] {
      SameFirst(s, t);
      forall y
        ensures Count(s[1..], y) == Count(t[1..], y)
      {
        assert Count(s, y) == Count(t, y);
      }
      assert Rearranged(s[1..], t[1..]);
      SortedUnique(s[1..], t[1..]);
      assert s == [s[0]] + s[1..] && t == [t[0]] + t[1..];
    }
  }

  lemma SameFirst(s: seq<ID>, t: seq<ID>)
    requires NonDecreasing(s) && NonDecreasing(t) && Rearranged(s, t)
    requires s != [] || t != []
    ensures s != [] && t != [] && s[0] == t[0]
  {
    var x := if s != [] then s[0] else t[0];
    CountIn(s, x);
    CountIn(t, x);
    CountIn(s, t[0]);
    CountIn(t, t[0]);
    var i :| 0 <= i < |t| && t[i] == s[0];
    var j :| 0 <= j < |s| && s[j] == t[0];
    IdOrder(s[0], t[0], s[0]);
  }

  lemma {:induction false} FlattenInjective(s: seq<ID>, t: seq<ID>)
    requires Flatten(s) == Flatten(t)
    ensures s == t
  {
    FlattenLength(s);
    FlattenLength(t);
    if s != [] {
      var s', t' := s[..|s| - 1], t[..|t| - 1];
      var x, y := s[|s| - 1], t[|t| - 1];
      SameSplit(Flatten(s'), x.bytes, Flatten(t'), y.bytes);
      hide Flatten;
      FlattenInjective(s', t');
      assert s == s' + [x] && t == t' + [y];
    }
  }

  lemma SameSplit(a: Bytes, x: Bytes, b: Bytes, y: Bytes)
    requires a + x == b + y && |x| == |y|
    ensures a == b && x == y
  {
    assert a == (a + x)[..|a|] && b == (b + y)[..|b|];
    assert x == (a + x)[|a|..] && y == (b + y)[|b|..];
  }

  lemma {:induction false} FlattenLength(s: seq<ID>)
    ensures |Flatten(s)| == ID_LENGTH * |s|
  {
    if s != [] {
      FlattenLength(s[..|s| - 1]);
    }
  }

  /** Two ID lists have the same key exactly when they are rearrangements of each other. */
  lemma KeyTheorem(a: seq<ID>, b: seq<ID>)
    ensures KeyOf(a) == KeyOf(b) <==> Rearranged(a, b)
  {
    SortedIdsSorts(a);
    SortedIdsSorts(b);
    forall y
      ensures Count(SortedIds(a), y) == Count(a, y) && Count(SortedIds(b), y) == Count(b, y)
    {
    }
    if KeyOf(a) == KeyOf(b) {
      FlattenInjective(SortedIds(a), SortedIds(b));
      forall y
        ensures Count(a, y) == Count(b, y)
      {
        assert Count(SortedIds(a), y) == Count(SortedIds(b), y);
      }
    }
    if Rearranged(a, b) {
      forall y
        ensures Count(SortedIds(a), y) == Count(SortedIds(b), y)
      {
        assert Count(a, y) == Count(b, y);
      }
      SortedUnique(SortedIds(a), SortedIds(b));
    }
  }

  /** sortIDs: insertion sort in place. */
  method SortIDs(ids: array<ID>)
    modifies ids
    ensures ids[..] == SortedIds(old(ids[..]))
  {
    if ids.Length == 0 {
      return;
    }
    ghost var was := ids[..];
    var i := 1;
    assert was[..1][..0] == [];
    while i < ids.Length
      invariant 1 <= i <= ids.Length
      invariant ids[..i] == SortedIds(was[..i])
      invariant ids[i..] == was[i..]
    {
      assert was[..i + 1][..i] == was[..i] && was[i] == was[i..][0] == ids[i..][0];
      assert was[i + 1..] == was[i..][1..] && ids[i + 1..] == ids[i..][1..];
      SiftDown(ids, i);
      i := i + 1;
    }
    assert ids[..] == ids[..i] && was == was[..i];
  }

  /** idLess: the first byte that differs decides. */
  method Less(a: ID, b: ID) returns (less: bool)
    ensures less <==> IdLess(a, b)
  {
    for i := 0 to ID_LENGTH
      invariant a.bytes[..i] == b.bytes[..i]
    {
      if a.bytes[i] != b.bytes[i] {
        LexAtDifference(a.bytes, b.bytes, i);
        return a.bytes[i] < b.bytes[i];
      }
      assert a.bytes[..i + 1] == a.bytes[..i] + [a.bytes[i]] && b.bytes[..i + 1] == b.bytes[..i] + [b.bytes[i]];
    }
    assert a.bytes[..ID_LENGTH] == a.bytes && b.bytes[..ID_LENGTH] == b.bytes;
    LexIrreflexive(a.bytes);
    return false;
  }

  /** While x sinks from the end of the sorted prefix s, it stands at j and the larger ones behind it. */
  ghost predicate Sunk(s: seq<ID>, x: ID, j: nat, now: seq<ID>) {
    && j <= |s| && |now| == |s| + 1
    && (forall k | 0 <= k < j :: now[k] == s[k])
    && now[j] == x && (forall k | j < k < |now| :: now[k] == s[k - 1])
  }

  lemma SinksOn(s: seq<ID>, x: ID, j: nat, now: seq<ID>)
    requires Sunk(s, x, j, now) && j > 0
    ensures j < |now| && now[j] == x && now[j - 1] == s[j - 1]
    ensures Sunk(s, x, j - 1, now[j := now[j - 1]][j - 1 := now[j]])
  {
  }

  lemma SunkPlaced(s: seq<ID>, x: ID, j: nat, now: seq<ID>)
    requires Sunk(s, x, j, now) && Place(s, x) == Place(s[..j], x) + s[j..]
    requires j > 0 ==> !IdLess(x, s[j - 1])
    ensures now == Place(s, x)
  {
    hide IdLess;
    assert Place(s[..j], x) == s[..j] + [x] by {
      assert j > 0 ==> s[..j][j - 1] == s[j - 1];
    }
    assert now == s[..j] + [x] + s[j..];
  }

  /** The inner loop: swaps ids[i] down to its place in the sorted prefix. */
  method SiftDown(ids: array<ID>, i: nat)
    requires i < ids.Length
    modifies ids
    ensures ids[..i + 1] == Place(old(ids[..i]), old(ids[i]))
    ensures ids[i + 1..] == old(ids[i + 1..])
  {
    hide Place, IdLess;
    ghost var s, x, rest := ids[..i], ids[i], ids[i + 1..];
    var j := i;
    assert s[..i] == s && s[i..] == [];
    assert Sunk(s, x, i, ids[..i + 1]);
    hide Sunk;
    while j > 0
      invariant j <= i && Sunk(s, x, j, ids[..i + 1])
      invariant ids[i + 1..] == rest
      invariant Place(s, x) == Place(s[..j], x) + s[j..]
    {
      ghost var now := ids[..i + 1];
      SinksOn(s, x, j, now);
      var less := Less(ids[j], ids[j - 1]);
      if !less {
        break;
      }
      PlaceLower(s, x, j);
      ids[j], ids[j - 1] := ids[j - 1], ids[j];
      assert ids[..i + 1] == now[j := now[j - 1]][j - 1 := now[j]];
      j := j - 1;
    }
    SunkPlaced(s, x, j, ids[..i + 1]);
  }

  lemma PlaceLower(s: seq<ID>, x: ID, j: nat)
    requires 0 < j <= |s| && IdLess(x, s[j - 1])
    ensures Place(s[..j], x) + s[j..] == Place(s[..j - 1], x) + s[j - 1..]
  {
    assert s[..j][..j - 1] == s[..j - 1] && s[..j][j - 1] == s[j - 1];
    assert [s[j - 1]] + s[j..] == s[j - 1..];
  }

  /** cycleKey: sort a copy and concatenate the bytes. */
  method CycleKey(ids: seq<ID>) returns (key: Bytes)
    ensures key == KeyOf(ids)
  {
    var sorted := new ID[|ids|](i requires 0 <= i < |ids| => ids[i]);
    assert sorted[..] == ids;
    SortIDs(sorted);
    ghost var s := sorted[..];
    key := [];
    var i := 0;
    while i < sorted.Length
      invariant 0 <= i <= sorted.Length && sorted[..] == s
      invariant key == Flatten(s[..i])
    {
      assert s[..i + 1][..i] == s[..i];
      key := key + sorted[i].bytes;
      i := i + 1;
    }
    assert s[..i] == s;
  }

  // ------------------------------------------------------------------
  // Following the parent chain of one folder
  // ------------------------------------------------------------------

  function IndexIn(order: seq<ID>, x: ID): (i: nat)
    requires x in order
    ensures i < |order| && order[i] == x
  {
    if order[0] == x then 0 else 1 + IndexIn(order[1..], x)
  }

  /** The cycle the chain runs into, or [] when the chain ends. `order` is the chain so far. */
  function Chase(index: Entries, order: seq<ID>, cur: ID): seq<ID>
    decreases index.Keys - (set x | x in order)
  {
    if cur == NIL_ID then []
    else if cur in order then order[IndexIn(order, cur)..]
    else if cur !in index then []
    else
      assert cur in index.Keys - (set x | x in order);
      Chase(index, order + [cur], index[cur].parent)
  }

  function CycleOf(f: Entry, index: Entries): seq<ID> {
    Chase(index, [f.id], f.parent)
  }

  /** The parent relation the validator climbs from f: the index, with f's own parent link first. */
  ghost function ChainOf(f: Entry, index: Entries): Parents {
    ParentsOf(index)[f.id := f.parent]
  }

  ghost predicate Ends(par: Parents, x: ID) {
    exists y: ID, n: nat :: Climb(par, x, y, n) && (y == NIL_ID || y !in par)
  }

  /** The ID after position i, or `last` at the end. */
  function After(s: seq<ID>, i: nat, last: ID): ID {
    if i + 1 < |s| then s[i + 1] else last
  }

  /** c is a whole cycle, each folder followed by its parent. */
  ghost predicate IsCycle(par: Parents, c: seq<ID>) {
    && c != []
    && (forall i | 0 <= i < |c| ::
          c[i] in par && c[i] != NIL_ID && par[c[i]] == After(c, i, c[0]))
    && (forall i, j | 0 <= i < j < |c| :: c[i] != c[j])
  }

  lemma AfterIn(c: seq<ID>, i: nat)
    requires i < |c|
    ensures After(c, i, c[0]) in c
  {
  }

  lemma {:induction false} StaysOnCycle(par: Parents, c: seq<ID>, x: ID, y: ID, n: nat)
    requires IsCycle(par, c) && x in c && Climb(par, x, y, n)
    ensures y in c
    decreases n
  {
    hide After;
    if n > 0 {
      var i :| 0 <= i < |c| && c[i] == x;
      AfterIn(c, i);
      assert par[c[i]] == After(c, i, c[0]);
      StaysOnCycle(par, c, par[x], y, n - 1);
    }
  }

  /** A chain that meets a cycle never ends. */
  lemma CycleNeverEnds(par: Parents, c: seq<ID>, x: ID, m: nat)
    requires IsCycle(par, c) && Climb(par, x, c[0], m)
    ensures !Ends(par, x)
  {
    hide After;
    if Ends(par, x) {
      var y: ID, n: nat :| Climb(par, x, y, n) && (y == NIL_ID || y !in par);
      if m <= n {
        ClimbChain(par, x, c[0], y, m, n - m);
        StaysOnCycle(par, c, c[0], y, n - m);
      } else {
        ClimbChain(par, x, y, c[0], n, m - n);
      }
    }
  }

  /** order is a stretch of the chain: distinct folders, each followed by its parent, the last one by cur. */
  ghost predicate OnChain(par: Parents, order: seq<ID>, cur: ID) {
    && order != []
    && (forall i | 0 <= i < |order| ::
          order[i] in par && par[order[i]] == After(order, i, cur))
    && (forall i | 0 < i < |order| :: order[i] != NIL_ID)
    && (forall i, j | 0 <= i < j < |order| :: order[i] != order[j])
  }

  lemma AfterIs(s: seq<ID>, i: nat, last: ID)
    ensures i + 1 < |s| ==> After(s, i, last) == s[i + 1]
    ensures i + 1 == |s| ==> After(s, i, last) == last
  {
  }

  lemma {:induction false} ClimbAlong(par: Parents, order: seq<ID>, cur: ID, k: nat)
    requires OnChain(par, order, cur) && k < |order|
    ensures Climb(par, par[order[0]], After(order, k, cur), k)
  {
    hide After;
    var top := After(order, k, cur);
    assert par[order[k]] == top;
    if k > 0 {
      ClimbAlong(par, order, cur, k - 1);
      AfterIs(order, k - 1, cur);
      hide OnChain;
      assert Climb(par, top, top, 0);
      assert Climb(par, order[k], top, 1);
      ClimbTrans(par, par[order[0]], order[k], top, k - 1, 1);
    }
  }

  /** The chain from f's parent to cur. */
  lemma ClimbToEnd(par: Parents, order: seq<ID>, cur: ID)
    requires OnChain(par, order, cur)
    ensures Climb(par, par[order[0]], cur, |order| - 1)
  {
    hide After;
    ClimbAlong(par, order, cur, |order| - 1);
    AfterIs(order, |order| - 1, cur);
  }

  lemma {:induction false} ChaseFinds(f: Entry, index: Entries, order: seq<ID>, cur: ID)
    requires OnChain(ChainOf(f, index), order, cur) && order[0] == f.id
    ensures var par, r := ChainOf(f, index), Chase(index, order, cur);
            && (r == [] ==> Ends(par, f.parent))
            && (r != [] ==> IsCycle(par, r) && exists m: nat :: Climb(par, f.parent, r[0], m))
    decreases index.Keys - (set x | x in order)
  {
    var par := ChainOf(f, index);
    hide After;
    ClimbToEnd(par, order, cur);
    if cur != NIL_ID && cur in order {
      CycleFound(par, order, cur);
      ReachesCycle(par, order, cur);
    } else if cur != NIL_ID && cur in index {
      assert cur in index.Keys - (set x | x in order);
      ChainGrows(f, index, order, cur);
      ChaseFinds(f, index, order + [cur], index[cur].parent);
    } else {
      assert Climb(par, f.parent, cur, |order| - 1);
      assert cur == NIL_ID || cur !in par;
    }
  }

  /** t leads from f to the cycle c: together they are f's chain of parents, without repetition. */
  ghost predicate LeadsTo(f: Entry, index: Entries, t: seq<ID>, c: seq<ID>) {
    c != [] && OnChain(ChainOf(f, index), t + c, c[0]) && (t + c)[0] == f.id
  }

  lemma EntersHere(f: Entry, index: Entries, order: seq<ID>, cur: ID) returns (t: seq<ID>)
    requires OnChain(ChainOf(f, index), order, cur) && order[0] == f.id && cur in order
    ensures LeadsTo(f, index, t, order[IndexIn(order, cur)..])
  {
    hide OnChain, ChainOf;
    var k := IndexIn(order, cur);
    t := order[..k];
    assert order[k..][0] == cur && t + order[k..] == order;
  }

  /** The cycle begins where the chain enters it. */
  lemma {:induction false} ChaseEnters(f: Entry, index: Entries, order: seq<ID>, cur: ID) returns (t: seq<ID>)
    requires OnChain(ChainOf(f, index), order, cur) && order[0] == f.id
    ensures Chase(index, order, cur) != [] ==> LeadsTo(f, index, t, Chase(index, order, cur))
    decreases index.Keys - (set x | x in order)
  {
    assert order != [];
    hide OnChain, ChainOf, LeadsTo, IndexIn;
    t := [];
    if cur != NIL_ID && cur in order {
      t := EntersHere(f, index, order, cur);
    } else if cur != NIL_ID && cur in index {
      assert cur in index.Keys - (set x | x in order);
      ChainGrows(f, index, order, cur);
      t := ChaseEnters(f, index, order + [cur], index[cur].parent);
    }
  }

  /** So does what folderCycle returns: it names the cycle from the folder on by which f's chain comes to it. */
  lemma CycleEnters(f: Entry, index: Entries) returns (t: seq<ID>)
    ensures CycleOf(f, index) != [] ==> LeadsTo(f, index, t, CycleOf(f, index))
  {
    t := ChaseEnters(f, index, [f.id], f.parent);
  }

  lemma ChainGrows(f: Entry, index: Entries, order: seq<ID>, cur: ID)
    requires OnChain(ChainOf(f, index), order, cur) && order[0] == f.id
    requires cur != NIL_ID && cur !in order && cur in index
    ensures OnChain(ChainOf(f, index), order + [cur], index[cur].parent)
  {
    var order' := order + [cur];
    assert forall i | 0 <= i < |order| :: order'[i] == order[i] && order[i] in order;
  }

  lemma ReachesCycle(par: Parents, order: seq<ID>, cur: ID)
    requires OnChain(par, order, cur) && cur != NIL_ID && cur in order
    ensures exists m: nat :: Climb(par, par[order[0]], order[IndexIn(order, cur)..][0], m)
  {
    ClimbToEnd(par, order, cur);
    hide OnChain;
    assert order[IndexIn(order, cur)..][0] == cur;
  }

  lemma CycleFound(par: Parents, order: seq<ID>, cur: ID)
    requires OnChain(par, order, cur) && cur != NIL_ID && cur in order
    ensures IsCycle(par, order[IndexIn(order, cur)..])
  {
    hide After;
    var k := IndexIn(order, cur);
    var c := order[k..];
    assert c[0] == cur;
    forall i | 0 <= i < |c|
      ensures c[i] in par && c[i] != NIL_ID && par[c[i]] == After(c, i, c[0])
    {
      assert order[k + i] in par && par[order[k + i]] == After(order, k + i, cur);
      AfterSuffix(order, k, i, cur);
    }
  }

  lemma AfterSuffix(order: seq<ID>, k: nat, i: nat, last: ID)
    requires k + i < |order|
    ensures After(order[k..], i, last) == After(order, k + i, last)
  {
  }

  /**
   * folderCycle returns a cycle exactly when f's parent chain never ends, and then returns precisely the
   * cycle the chain runs into, in parent order and without the tail that leads to it.
   */
  lemma CycleTheorem(f: Entry, index: Entries)
    ensures CycleOf(f, index) == [] <==> Ends(ChainOf(f, index), f.parent)
    ensures CycleOf(f, index) != [] ==>
              && IsCycle(ChainOf(f, index), CycleOf(f, index))
              && exists m: nat :: Climb(ChainOf(f, index), f.parent, CycleOf(f, index)[0], m)
  {
    var par, r := ChainOf(f, index), CycleOf(f, index);
    ChaseFinds(f, index, [f.id], f.parent);
    if r != [] {
      var m: nat :| Climb(par, f.parent, r[0], m);
      CycleNeverEnds(par, r, f.parent, m);
    }
  }

  /** The loop of folderCycle, with `seen` recording where each ID stands in `order`. */
  method FolderCycleOf(f: Entry, index: Entries) returns (cycle: seq<ID>)
    ensures cycle == CycleOf(f, index)
  {
    var seen: map<ID, nat> := map[f.id := 0];
    var order := [f.id];
    var cur := f.parent;
    while cur != NIL_ID
      invariant forall x :: x in seen <==> x in order
      invariant forall x | x in seen :: seen[x] < |order| && order[seen[x]] == x
      invariant forall i, j | 0 <= i < j < |order| :: order[i] != order[j]
      invariant Chase(index, order, cur) == CycleOf(f, index)
      decreases index.Keys - (set x | x in order)
    {
      if cur in seen {
        return order[seen[cur]..];
      }
      if cur !in index {
        return [];
      }
      assert cur in index.Keys - (set x | x in order);
      seen := seen[cur := |order|];
      order := order + [cur];
      cur := index[cur].parent;
    }
    return [];
  }

  // ------------------------------------------------------------------
  // The report
  // ------------------------------------------------------------------

  function IdsOf(list: seq<Entry>): (r: seq<ID>)
    ensures |r| == |list| && forall i | 0 <= i < |list| :: r[i] == list[i].id
  {
    seq(|list|, i requires 0 <= i < |list| => list[i].id)
  }

  /** One issue per ID that an earlier folder or connection already uses. */
  function DuplicateIssues(ids: seq<ID>): seq<Issue> {
    if ids == [] then []
    else
      var init, last := ids[..|ids| - 1], ids[|ids| - 1];
      DuplicateIssues(init) + if last in init then [Issue(Error, DuplicateID, [last])] else []
  }

  /** One issue per entry whose parent is neither the root nor a folder. */
  function ParentIssues(list: seq<Entry>, index: Entries, code: Code): seq<Issue> {
    if list == [] then []
    else
      var init, last := list[..|list| - 1], list[|list| - 1];
      ParentIssues(init, index, code)
        + if last.parent != NIL_ID && last.parent !in index then [Issue(Error, code, [last.id, last.parent])] else []
  }

  function CycleKeys(fs: seq<Entry>, index: Entries): set<Bytes> {
    if fs == [] then {}
    else
      var cycle := CycleOf(fs[|fs| - 1], index);
      CycleKeys(fs[..|fs| - 1], index) + if cycle == [] then {} else {KeyOf(cycle)}
  }

  /** One issue per cycle, reported at the first folder whose chain runs into it. */
  function CycleIssues(fs: seq<Entry>, index: Entries): seq<Issue> {
    if fs == [] then []
    else
      var init := fs[..|fs| - 1];
      var cycle := CycleOf(fs[|fs| - 1], index);
      CycleIssues(init, index)
        + if cycle == [] || KeyOf(cycle) in CycleKeys(init, index) then [] else [Issue(Error, FolderCycle, cycle)]
  }

  function TabIssues(tabs: seq<ID>, connIndex: Entries): seq<Issue> {
    if tabs == [] then []
    else
      var last := tabs[|tabs| - 1];
      TabIssues(tabs[..|tabs| - 1], connIndex)
        + if last != NIL_ID && last !in connIndex then [Issue(Warn, OrphanWorkspaceTab, [last])] else []
  }

  function FocusIssues(focused: ID, connIndex: Entries): seq<Issue> {
    if focused != NIL_ID && focused !in connIndex then [Issue(Warn, OrphanFocusedTab, [focused])] else []
  }

  /** The whole report, in order. */
  function Report(fs: seq<Entry>, cs: seq<Entry>, ws: Workspace): seq<Issue> {
    DuplicateIssues(IdsOf(fs) + IdsOf(cs))
      + ParentIssues(fs, MapOf(fs), MissingFolderParent)
      + ParentIssues(cs, MapOf(fs), MissingConnectionParent)
      + CycleIssues(fs, MapOf(fs))
      + TabIssues(ws.openTabs, MapOf(cs))
      + FocusIssues(ws.focusedTab, MapOf(cs))
  }

  ghost predicate HasError(issues: seq<Issue>) {
    exists i :: 0 <= i < |issues| && issues[i].severity == Error
  }

  lemma HasErrorConcat(a: seq<Issue>, b: seq<Issue>)
    ensures HasError(a + b) <==> HasError(a) || HasError(b)
  {
    var c := a + b;
    if HasError(a) {
      var i :| 0 <= i < |a| && a[i].severity == Error;
      assert c[i].severity == Error;
    }
    if HasError(b) {
      var i :| 0 <= i < |b| && b[i].severity == Error;
      assert c[|a| + i].severity == Error;
    }
    if HasError(c) {
      var i :| 0 <= i < |c| && c[i].severity == Error;
      assert if i < |a| then a[i].severity == Error else b[i - |a|].severity == Error;
    }
  }

  lemma {:induction false} NoDuplicates(ids: seq<ID>)
    ensures HasError(DuplicateIssues(ids)) <==> exists i, j :: 0 <= i < j < |ids| && ids[i] == ids[j]
  {
    if ids != [] {
      var init, last := ids[..|ids| - 1], ids[|ids| - 1];
      NoDuplicates(init);
      var now := if last in init then [Issue(Error, DuplicateID, [last])] else [];
      HasErrorConcat(DuplicateIssues(init), now);
      if last in init {
        assert now[0].severity == Error;
        var i :| 0 <= i < |init| && init[i] == last;
        assert ids[i] == ids[|ids| - 1];
      }
      if i, j :| 0 <= i < j < |init| && init[i] == init[j] {
        assert ids[i] == ids[j];
      }
      if i, j :| 0 <= i < j < |ids| && ids[i] == ids[j] {
        assert ids[i] == init[i];
        assert j < |init| ==> init[j] == ids[j];
      }
    }
  }

  lemma {:induction false} NoMissingParents(list: seq<Entry>, index: Entries, code: Code)
    ensures HasError(ParentIssues(list, index, code))
       <==> exists i :: 0 <= i < |list| && list[i].parent != NIL_ID && list[i].parent !in index
  {
    if list != [] {
      var init, last := list[..|list| - 1], list[|list| - 1];
      var now := if last.parent == NIL_ID || last.parent in index then []
                 else [Issue(Error, code, [last.id, last.parent])];
      NoMissingParents(init, index, code);
      HasErrorConcat(ParentIssues(init, index, code), now);
      assert now != [] ==> now[0].severity == Error;
      assert list[|list| - 1] == last;
      if i :| 0 <= i < |init| && init[i].parent != NIL_ID && init[i].parent !in index {
        assert list[i] == init[i];
      }
      if i :| 0 <= i < |list| && list[i].parent != NIL_ID && list[i].parent !in index {
        assert i < |init| ==> init[i] == list[i];
      }
    }
  }

  /** Some folder runs into a cycle with this key. */
  ghost predicate HasKey(fs: seq<Entry>, index: Entries, key: Bytes) {
    exists i :: 0 <= i < |fs| && CycleOf(fs[i], index) != [] && KeyOf(CycleOf(fs[i], index)) == key
  }

  lemma {:induction false} CycleKeysMembers(fs: seq<Entry>, index: Entries, key: Bytes)
    ensures key in CycleKeys(fs, index) <==> HasKey(fs, index, key)
  {
    hide CycleOf, KeyOf;
    if fs != [] {
      var init, last := fs[..|fs| - 1], fs[|fs| - 1];
      CycleKeysMembers(init, index, key);
      assert last == fs[|fs| - 1];
      if i :| 0 <= i < |init| && CycleOf(init[i], index) != [] && KeyOf(CycleOf(init[i], index)) == key {
        assert fs[i] == init[i];
      }
      if i :| 0 <= i < |fs| && CycleOf(fs[i], index) != [] && KeyOf(CycleOf(fs[i], index)) == key {
        assert i < |init| ==> init[i] == fs[i];
      }
    }
  }

  /** The issues and the cycles that the folders run into correspond one to one. */
  ghost predicate OnePerCycle(fs: seq<Entry>, index: Entries, issues: seq<Issue>, keys: set<Bytes>) {
    && |issues| == |keys|
    && (forall k | 0 <= k < |issues| ::
          issues[k].severity == Error && issues[k].related != [] && KeyOf(issues[k].related) in keys)
    && (forall j, k | 0 <= j < k < |issues| :: !Rearranged(issues[j].related, issues[k].related))
    && (forall i | 0 <= i < |fs| && CycleOf(fs[i], index) != [] :: Reported(issues, CycleOf(fs[i], index)))
  }

  /**
   * Every distinct cycle is reported exactly once: no two cycle issues name the same set of folders, the cycle
   * of every folder is among them, and there are as many issues as different cycles.
   */
  lemma {:induction false} OneIssuePerCycle(fs: seq<Entry>, index: Entries)
    ensures OnePerCycle(fs, index, CycleIssues(fs, index), CycleKeys(fs, index))
  {
    if fs != [] {
      hide KeyOf, Rearranged, CycleOf, OnePerCycle, HasKey;
      var init, last := fs[..|fs| - 1], fs[|fs| - 1];
      OneIssuePerCycle(init, index);
      NextCycle(init, last, index, CycleIssues(init, index), CycleKeys(init, index));
      assert fs == init + [last];
    }
  }

  lemma NextCycle(init: seq<Entry>, last: Entry, index: Entries, issues: seq<Issue>, keys: set<Bytes>)
    requires OnePerCycle(init, index, issues, keys) && keys == CycleKeys(init, index)
    ensures var cycle := CycleOf(last, index);
            OnePerCycle(init + [last], index,
              issues + if cycle == [] || KeyOf(cycle) in keys then [] else [Issue(Error, FolderCycle, cycle)],
              keys + if cycle == [] then {} else {KeyOf(cycle)})
  {
    hide KeyOf, Rearranged, CycleOf, OnePerCycle, HasKey;
    var cycle := CycleOf(last, index);
    assert issues + [] == issues;
    if cycle == [] {
      KnownCycle(init, last, index, issues, keys);
      assert keys + {} == keys;
    } else if KeyOf(cycle) in keys {
      CycleKeysMembers(init, index, KeyOf(cycle));
      KnownCycle(init, last, index, issues, keys);
      assert keys + {KeyOf(cycle)} == keys;
    } else {
      NewCycle(init, last, index, issues, keys);
    }
  }

  lemma KnownCycle(init: seq<Entry>, last: Entry, index: Entries, issues: seq<Issue>, keys: set<Bytes>)
    requires OnePerCycle(init, index, issues, keys)
    requires CycleOf(last, index) == [] || HasKey(init, index, KeyOf(CycleOf(last, index)))
    ensures OnePerCycle(init + [last], index, issues, keys)
  {
    hide KeyOf, Rearranged, CycleOf;
    if CycleOf(last, index) != [] {
      var i :| 0 <= i < |init| && CycleOf(init[i], index) != []
        && KeyOf(CycleOf(init[i], index)) == KeyOf(CycleOf(last, index));
      ReportedSame(issues, CycleOf(init[i], index), CycleOf(last, index));
    }
  }

  lemma NewCycle(init: seq<Entry>, last: Entry, index: Entries, issues: seq<Issue>, keys: set<Bytes>)
    requires OnePerCycle(init, index, issues, keys)
    requires CycleOf(last, index) != [] && KeyOf(CycleOf(last, index)) !in keys
    ensures var cycle := CycleOf(last, index);
            OnePerCycle(init + [last], index, issues + [Issue(Error, FolderCycle, cycle)], keys + {KeyOf(cycle)})
  {
    hide KeyOf, Rearranged, CycleOf, Reported;
    var cycle := CycleOf(last, index);
    var all := issues + [Issue(Error, FolderCycle, cycle)];
    forall k | 0 <= k < |issues|
      ensures !Rearranged(issues[k].related, cycle)
    {
      KeyTheorem(issues[k].related, cycle);
    }
    forall i | 0 <= i < |init + [last]| && CycleOf((init + [last])[i], index) != []
      ensures Reported(all, CycleOf((init + [last])[i], index))
    {
      if i < |init| {
        ReportedGrows(issues, all, CycleOf(init[i], index));
      } else {
        ReportedHere(all, |issues|);
      }
    }
  }

  lemma ReportedHere(issues: seq<Issue>, k: nat)
    requires k < |issues|
    ensures Reported(issues, issues[k].related)
  {
    assert Rearranged(issues[k].related, issues[k].related);
  }

  ghost predicate Reported(issues: seq<Issue>, cycle: seq<ID>) {
    exists k :: 0 <= k < |issues| && Rearranged(issues[k].related, cycle)
  }

  lemma ReportedGrows(a: seq<Issue>, b: seq<Issue>, cycle: seq<ID>)
    requires a <= b && Reported(a, cycle)
    ensures Reported(b, cycle)
  {
    var k :| 0 <= k < |a| && Rearranged(a[k].related, cycle);
    assert b[k] == a[k];
  }

  lemma ReportedSame(issues: seq<Issue>, c: seq<ID>, d: seq<ID>)
    requires Reported(issues, c) && KeyOf(c) == KeyOf(d)
    ensures Reported(issues, d)
  {
    var k :| 0 <= k < |issues| && Rearranged(issues[k].related, c);
    KeyTheorem(issues[k].related, c);
    KeyTheorem(issues[k].related, d);
  }

  // ------------------------------------------------------------------
  // The validator and the decoder accept the same lists
  // ------------------------------------------------------------------

  /** No two entries share an ID, every named parent is a folder, and no chain runs into a cycle. */
  ghost predicate Clean(fs: seq<Entry>, cs: seq<Entry>) {
    && Unique(fs) && Unique(cs) && Disjoint(fs, cs)
    && ParentsKnown(fs, fs) && ParentsKnown(fs, cs)
    && forall i | 0 <= i < |fs| :: CycleOf(fs[i], MapOf(fs)) == []
  }

  lemma {:induction false} OnlyWarnings(tabs: seq<ID>, connIndex: Entries)
    ensures !HasError(TabIssues(tabs, connIndex))
  {
    if tabs != [] {
      var last := tabs[|tabs| - 1];
      OnlyWarnings(tabs[..|tabs| - 1], connIndex);
      HasErrorConcat(TabIssues(tabs[..|tabs| - 1], connIndex),
                     if last != NIL_ID && last !in connIndex then [Issue(Warn, OrphanWorkspaceTab, [last])] else []);
    }
  }

  lemma DuplicatesAcross(fs: seq<Entry>, cs: seq<Entry>)
    ensures HasError(DuplicateIssues(IdsOf(fs) + IdsOf(cs))) <==> !(Unique(fs) && Unique(cs) && Disjoint(fs, cs))
  {
    var ids := IdsOf(fs) + IdsOf(cs);
    NoDuplicates(ids);
    hide DuplicateIssues, HasError;
    if i, j :| 0 <= i < j < |fs| && fs[i].id == fs[j].id {
      assert ids[i] == ids[j];
    }
    if i, j :| 0 <= i < j < |cs| && cs[i].id == cs[j].id {
      assert ids[|fs| + i] == ids[|fs| + j];
    }
    if i, j :| 0 <= i < |fs| && 0 <= j < |cs| && fs[i].id == cs[j].id {
      assert ids[i] == ids[|fs| + j];
    }
  }

  lemma CycleErrors(fs: seq<Entry>, index: Entries)
    ensures HasError(CycleIssues(fs, index)) <==> exists i :: 0 <= i < |fs| && CycleOf(fs[i], index) != []
  {
    OneIssuePerCycle(fs, index);
    var issues, keys := CycleIssues(fs, index), CycleKeys(fs, index);
    hide CycleOf, KeyOf, Rearranged, CycleIssues, CycleKeys;
    if HasError(issues) {
      CycleKeysMembers(fs, index, KeyOf(issues[0].related));
    }
    if i :| 0 <= i < |fs| && CycleOf(fs[i], index) != [] {
      assert Reported(issues, CycleOf(fs[i], index));
      assert issues[0].severity == Error;
    }
  }

  /** The report holds an error exactly when the lists are not clean. */
  lemma ErrorsExactly(fs: seq<Entry>, cs: seq<Entry>, ws: Workspace)
    ensures HasError(Report(fs, cs, ws)) <==> !Clean(fs, cs)
  {
    var index := MapOf(fs);
    var a, b := DuplicateIssues(IdsOf(fs) + IdsOf(cs)), ParentIssues(fs, index, MissingFolderParent);
    var c, d := ParentIssues(cs, index, MissingConnectionParent), CycleIssues(fs, index);
    var e, f := TabIssues(ws.openTabs, MapOf(cs)), FocusIssues(ws.focusedTab, MapOf(cs));
    DuplicatesAcross(fs, cs);
    NoMissingParents(fs, index, MissingFolderParent);
    NoMissingParents(cs, index, MissingConnectionParent);
    CycleErrors(fs, index);
    OnlyWarnings(ws.openTabs, MapOf(cs));
    assert !HasError(f);
    hide *;
    HasErrorConcat(a, b);
    HasErrorConcat(a + b, c);
    HasErrorConcat(a + b + c, d);
    HasErrorConcat(a + b + c + d, e);
    HasErrorConcat(a + b + c + d + e, f);
  }

  // ------------------------------------------------------------------
  // What the report names
  // ------------------------------------------------------------------

  /** d occurs at two positions. */
  ghost predicate Repeated(ids: seq<ID>, d: ID) {
    exists i, j :: 0 <= i < j < |ids| && ids[i] == ids[j] == d
  }

  lemma RepeatedSplit(init: seq<ID>, last: ID, d: ID)
    ensures Repeated(init + [last], d) <==> Repeated(init, d) || (last == d && d in init)
  {
    var ids := init + [last];
    assert forall i | 0 <= i < |init| :: ids[i] == init[i];
    if Repeated(init, d) {
      var i, j :| 0 <= i < j < |init| && init[i] == init[j] == d;
      assert ids[i] == ids[j] == d;
    }
    if last == d && d in init {
      var i :| 0 <= i < |init| && init[i] == d;
      assert ids[i] == ids[|init|] == d;
    }
  }

  ghost predicate NamesRepetition(ids: seq<ID>, x: Issue) {
    |x.related| == 1 && Repeated(ids, x.related[0]) && x == Issue(Error, DuplicateID, x.related)
  }

  /** Exactly the repeated IDs are named. */
  lemma {:induction false} RepetitionsNamed(ids: seq<ID>, x: Issue)
    ensures x in DuplicateIssues(ids) <==> NamesRepetition(ids, x)
  {
    hide NamesRepetition;
    if ids == [] {
      NothingNamed(x);
    } else {
      var init, last := ids[..|ids| - 1], ids[|ids| - 1];
      RepetitionsNamed(init, x);
      NamedNext(init, last, x);
      assert ids == init + [last];
    }
  }

  lemma NamedNext(init: seq<ID>, last: ID, x: Issue)
    ensures NamesRepetition(init + [last], x)
       <==> NamesRepetition(init, x) || (last in init && x == Issue(Error, DuplicateID, [last]))
  {
    hide Repeated;
    if |x.related| == 1 {
      RepeatedSplit(init, last, x.related[0]);
      assert x.related[0] == last <==> x.related == [last];
    }
  }

  lemma NothingNamed(x: Issue)
    ensures !NamesRepetition([], x)
  {
  }

  /** There are as many of these issues as it takes to leave every ID once. */
  lemma {:induction false} RepetitionsCounted(ids: seq<ID>)
    ensures |DuplicateIssues(ids)| + |set d | d in ids| == |ids|
  {
    if ids != [] {
      var init, last := ids[..|ids| - 1], ids[|ids| - 1];
      RepetitionsCounted(init);
      var before, now := set d | d in init, set d | d in ids;
      assert ids == init + [last];
      if last in init {
        assert last in before && now == before;
      } else {
        assert last !in before && now == before + {last};
      }
    }
  }

  ghost predicate NamesOrphan(list: seq<Entry>, fs: seq<Entry>, code: Code, x: Issue) {
    exists e :: e in list && e.parent != NIL_ID && !HasId(fs, e.parent) && x == Issue(Error, code, [e.id, e.parent])
  }

  /** Exactly the entries whose parent is no folder are named. */
  lemma {:induction false} OrphansNamed(list: seq<Entry>, fs: seq<Entry>, code: Code, x: Issue)
    ensures x in ParentIssues(list, MapOf(fs), code) <==> NamesOrphan(list, fs, code, x)
  {
    if list != [] {
      var init, last := list[..|list| - 1], list[|list| - 1];
      OrphansNamed(init, fs, code, x);
      MapOfKeys(fs, last.parent);
      hide HasId, MapOf;
      assert list == init + [last];
    }
  }

  ghost predicate NamesTab(tabs: seq<ID>, cs: seq<Entry>, x: Issue) {
    |x.related| == 1 && x.related[0] in tabs && x.related[0] != NIL_ID && !HasId(cs, x.related[0])
    && x == Issue(Warn, OrphanWorkspaceTab, x.related)
  }

  /** Exactly the tabs that are no connection are named. */
  lemma {:induction false} TabsNamed(tabs: seq<ID>, cs: seq<Entry>, x: Issue)
    ensures x in TabIssues(tabs, MapOf(cs)) <==> NamesTab(tabs, cs, x)
  {
    hide HasId, MapOf;
    if tabs != [] {
      var init, last := tabs[..|tabs| - 1], tabs[|tabs| - 1];
      TabsNamed(init, cs, x);
      MapOfKeys(cs, last);
      assert tabs == init + [last];
      assert |x.related| == 1 ==> x.related == [x.related[0]];
    }
  }

  lemma {:induction false} CycleCodes(fs: seq<Entry>, index: Entries, x: Issue)
    ensures x in CycleIssues(fs, index) ==> x.code == FolderCycle && x.severity == Error
  {
    hide CycleOf, KeyOf;
    if fs != [] {
      CycleCodes(fs[..|fs| - 1], index, x);
    }
  }

  /**
   * The issues of the report by their codes: every repeated ID, every folder and every connection whose parent is no
   * folder, with that parent, and every tab and focused tab that is no connection. OneIssuePerCycle has the cycles.
   */
  lemma ReportExactly(fs: seq<Entry>, cs: seq<Entry>, ws: Workspace, x: Issue)
    ensures x in Report(fs, cs, ws)
       <==> || NamesRepetition(IdsOf(fs) + IdsOf(cs), x)
            || NamesOrphan(fs, fs, MissingFolderParent, x)
            || NamesOrphan(cs, fs, MissingConnectionParent, x)
            || x in CycleIssues(fs, MapOf(fs))
            || NamesTab(ws.openTabs, cs, x)
            || (ws.focusedTab != NIL_ID && !HasId(cs, ws.focusedTab)
                && x == Issue(Warn, OrphanFocusedTab, [ws.focusedTab]))
    ensures x in CycleIssues(fs, MapOf(fs)) ==> x.code == FolderCycle && x.severity == Error
  {
    RepetitionsNamed(IdsOf(fs) + IdsOf(cs), x);
    OrphansNamed(fs, fs, MissingFolderParent, x);
    OrphansNamed(cs, fs, MissingConnectionParent, x);
    CycleCodes(fs, MapOf(fs), x);
    TabsNamed(ws.openTabs, cs, x);
    MapOfKeys(cs, ws.focusedTab);
    hide DuplicateIssues, ParentIssues, CycleIssues, TabIssues, MapOf, HasId, IdsOf;
    hide NamesRepetition, NamesOrphan, NamesTab;
  }

  /** With unique IDs the chain the validator climbs is the folders' own parent relation. */
  lemma ChainIsParents(fs: seq<Entry>, i: nat)
    requires Unique(fs) && i < |fs|
    ensures ChainOf(fs[i], MapOf(fs)) == ParentsOf(MapOf(fs))
  {
    MapOfUnique(fs, i);
  }

  lemma CleanRooted(fs: seq<Entry>, cs: seq<Entry>, x: ID)
    requires Clean(fs, cs) && x in MapOf(fs) && x != NIL_ID
    ensures Rooted(ParentsOf(MapOf(fs)), x)
  {
    var par := ParentsOf(MapOf(fs));
    MapOfKeys(fs, x);
    var i :| 0 <= i < |fs| && fs[i] == MapOf(fs)[x];
    ChainIsParents(fs, i);
    CycleTheorem(fs[i], MapOf(fs));
    var y: ID, n: nat :| Climb(par, fs[i].parent, y, n) && (y == NIL_ID || y !in par);
    assert Under(par, fs[i].parent, y);
    UnderParent(par, x, y);
    assert fs[i].parent == NIL_ID || fs[i].parent in MapOf(fs);
    EndsAtRoot(fs, fs[i].parent, y, n);
  }

  /** When every parent is known, a chain can only end at the root. */
  lemma {:induction false} EndsAtRoot(fs: seq<Entry>, x: ID, y: ID, n: nat)
    requires ParentsKnown(fs, fs) && (x == NIL_ID || x in MapOf(fs))
    requires Climb(ParentsOf(MapOf(fs)), x, y, n)
    ensures y == NIL_ID || y in MapOf(fs)
    decreases n
  {
    if n > 0 {
      MapOfKeys(fs, x);
      var i :| 0 <= i < |fs| && fs[i] == MapOf(fs)[x];
      assert fs[i].parent == NIL_ID || fs[i].parent in MapOf(fs);
      EndsAtRoot(fs, fs[i].parent, y, n - 1);
    }
  }

  lemma ForestHasNoCycle(fs: seq<Entry>, i: nat)
    requires Unique(fs) && IsForest(ParentsOf(MapOf(fs))) && i < |fs|
    ensures CycleOf(fs[i], MapOf(fs)) == []
    ensures fs[i].parent == NIL_ID || fs[i].parent in MapOf(fs)
  {
    var par := ParentsOf(MapOf(fs));
    MapOfUnique(fs, i);
    ChainIsParents(fs, i);
    RootedParent(par, fs[i].id);
    var n: nat :| Climb(par, fs[i].parent, NIL_ID, n);
    assert Ends(par, fs[i].parent);
    CycleTheorem(fs[i], MapOf(fs));
  }

  /** Cycle chasing and fixpoint insertion accept exactly the same forests. */
  lemma CleanIffAcceptable(fs: seq<Entry>, cs: seq<Entry>)
    ensures Acceptable(fs, cs) <==> Clean(fs, cs) && NonNil(fs) && NonNil(cs)
  {
    hide CycleOf;
    var par := ParentsOf(MapOf(fs));
    if Acceptable(fs, cs) {
      forall i | 0 <= i < |fs|
        ensures CycleOf(fs[i], MapOf(fs)) == []
        ensures fs[i].parent == NIL_ID || fs[i].parent in MapOf(fs)
      {
        ForestHasNoCycle(fs, i);
      }
    }
    if Clean(fs, cs) && NonNil(fs) && NonNil(cs) {
      MapOfKeys(fs, NIL_ID);
      forall x | x in par
        ensures Rooted(par, x)
      {
        CleanRooted(fs, cs, x);
      }
    }
  }

  /**
   * The validator reports no error exactly when the decoder, whose success is `Acceptable`, rebuilds the tree;
   * the one thing the decoder alone rejects is a nil ID.
   */
  lemma ValidatorAgreesWithDecoder(fs: seq<Entry>, cs: seq<Entry>, ws: Workspace)
    ensures !HasError(Report(fs, cs, ws)) && NonNil(fs) && NonNil(cs) <==> Acceptable(fs, cs)
  {
    ErrorsExactly(fs, cs, ws);
    CleanIffAcceptable(fs, cs);
  }

  /** A nil folder ID passes the validator and is refused by the decoder. */
  lemma NilIdSlipsThrough()
    ensures var f := Entry(NIL_ID, NIL_ID, [], "");
            !HasError(Report([f], [], Workspace([], NIL_ID))) && !Acceptable([f], [])
  {
    var f := Entry(NIL_ID, NIL_ID, [], "");
    assert MapOf([f]) == map[NIL_ID := f];
    assert CycleOf(f, MapOf([f])) == [];
    ErrorsExactly([f], [], Workspace([], NIL_ID));
  }

  // ------------------------------------------------------------------
  // The loops of validateFlat
  // ------------------------------------------------------------------

  /** validateFlat: builds the report pass by pass. A nil pointer in either list makes the first pass panic. */
  method ValidateFlat(folders: seq<Option<Entry>>, connections: seq<Option<Entry>>, ws: Workspace)
    returns (panicked: bool, issues: seq<Issue>)
    ensures panicked <==> None in folders || None in connections
    ensures var fs, cs := Present(folders), Present(connections);
            !panicked ==> issues == Report(fs, cs, ws) && (HasError(issues) <==> !Clean(fs, cs))
  {
    var fs, cs := Present(folders), Present(connections);
    ErrorsExactly(fs, cs, ws);
    PresentConcat(folders, connections);
    assert IdsOf(fs + cs) == IdsOf(fs) + IdsOf(cs);
    hide CycleOf, KeyOf, Clean, HasError, Present;
    panicked, issues := FindDuplicates(folders + connections);
    if panicked {
      return;
    }
    var folderIndex := IndexList(fs);
    var found := FindMissingParents(fs, folderIndex, MissingFolderParent);
    issues := issues + found;
    var connIndex := IndexList(cs);
    found := FindMissingParents(cs, folderIndex, MissingConnectionParent);
    issues := issues + found;
    found := FindCycles(fs, folderIndex);
    issues := issues + found;
    found := FindOrphanTabs(ws.openTabs, connIndex);
    issues := issues + found;
    if ws.focusedTab != NIL_ID && ws.focusedTab !in connIndex {
      issues := issues + [Issue(Warn, OrphanFocusedTab, [ws.focusedTab])];
    }
  }

  lemma {:induction false} PresentConcat(a: seq<Option<Entry>>, b: seq<Option<Entry>>)
    ensures Present(a + b) == Present(a) + Present(b)
  {
    if b == [] {
      assert a + b == a;
    } else {
      var init := b[..|b| - 1];
      assert (a + b)[..|a + b| - 1] == a + init && (a + b)[|a + b| - 1] == b[|b| - 1];
      PresentConcat(a, init);
    }
  }

  /** No tree whose walk completes is refused by the validator, except those that would visit a node twice. */
  lemma TreeValidated(s: Forest, stale: multiset<ID>, ws: Workspace)
    requires Consistent(s, stale) && Walkable(s.folders, s.connections) && Walked(s).1 == Complete
    ensures var v := Walked(s).0;
            !HasError(Report(FolderEntries(v), ConnectionEntries(v), ws)) <==> Sound(s)
  {
    var v := Walked(s).0;
    var fs, cs := FolderEntries(v), ConnectionEntries(v);
    WalkExactly(s, stale);
    RootExactIffSound(s, stale);
    SavedAcceptable(s, stale);
    WalkedOwn(s, stale);
    SplitMembers(v);
    hide Walked, FolderEntries, ConnectionEntries, Report, HasError, Acceptable, Indexed, IsForest;
    forall i | 0 <= i < |fs|
      ensures fs[i].id != NIL_ID
    {
      assert FolderNode(fs[i]) in v;
    }
    forall i | 0 <= i < |cs|
      ensures cs[i].id != NIL_ID
    {
      assert ConnectionNode(cs[i]) in v;
    }
    ValidatorAgreesWithDecoder(fs, cs, ws);
    if stale != multiset{} {
      var x :| x in stale;
      assert stale[x] > 0 && x in s.connections;
    }
  }

  /** The same for the pointers that flattening the tree gives. */
  lemma FlattenedValidated(s: Forest, stale: multiset<ID>, ws: Workspace, fs: seq<Option<Entry>>,
                           cs: seq<Option<Entry>>)
    requires Consistent(s, stale) && Walkable(s.folders, s.connections) && Walked(s).1 != Crash
    requires fs == Pointers(FolderEntries(Walked(s).0))
    requires cs == Pointers(ConnectionEntries(Walked(s).0)) + (if Walked(s).1 == NilNode then [None] else [])
    ensures None in fs || None in cs <==> exists x :: stale[x] > 0 && x !in s.connections
    ensures None !in cs ==> (HasError(Report(Present(fs), Present(cs), ws)) <==> !Sound(s))
  {
    CutShortExactly(s, stale);
    hide *;
    var v := Walked(s).0;
    NilAtTheEnd(FolderEntries(v));
    NilAtTheEnd(ConnectionEntries(v));
    PresentPointers(FolderEntries(v));
    PresentPointers(ConnectionEntries(v));
    if Walked(s).1 == Complete {
      assert cs == Pointers(ConnectionEntries(v));
      TreeValidated(s, stale, ws);
    }
  }

  lemma NilAtTheEnd(list: seq<Entry>)
    ensures None !in Pointers(list) && None in Pointers(list) + [None]
  {
    assert (Pointers(list) + [None])[|list|] == None;
  }

  lemma CutShortExactly(s: Forest, stale: multiset<ID>)
    requires Consistent(s, stale)
    ensures Walkable(s.folders, s.connections)
    ensures Walked(s).1 != Complete <==> exists x :: stale[x] > 0 && x !in s.connections
  {
    MissingExactly(s, stale);
  }

  /**
   * Validate: flattens a tree as saving does and checks the lists. On the trees that edits can reach it panics exactly
   * when some stale root entry names no connection, and otherwise reports an error exactly when the tree is not sound.
   */
  method Validate(t: Tree, ws: Workspace, ghost stale: multiset<ID>) returns (panicked: bool, issues: seq<Issue>)
    requires Consistent(t.View(), stale)
    ensures panicked <==> exists x :: stale[x] > 0 && x !in t.connections
    ensures !panicked ==> (HasError(issues) <==> !Sound(t.View()))
  {
    CutShortExactly(t.View(), stale);
    hide Consistent, Sound, Walkable, Walked, FolderEntries, ConnectionEntries, Present, Pointers;
    hide Report, HasError, Clean;
    var fs, cs;
    panicked, fs, cs := EncodeInventory(t, stale);
    if panicked {
      return true, [];
    }
    FlattenedValidated(t.View(), stale, ws, fs, cs);
    panicked, issues := ValidateFlat(fs, cs, ws);
  }

  /** folderIndex and connIndex: a later entry replaces an earlier one with the same ID. */
  method IndexList(list: seq<Entry>) returns (index: Entries)
    ensures index == MapOf(list)
  {
    index := map[];
    var i := 0;
    while i < |list|
      invariant 0 <= i <= |list| && index == MapOf(list[..i])
    {
      assert list[..i + 1][..i] == list[..i];
      index := index[list[i].id := list[i]];
      i := i + 1;
    }
    assert list[..i] == list;
  }

  /** The `seen` passes over the folders and then the connections. */
  method FindDuplicates(nodes: seq<Option<Entry>>) returns (panicked: bool, issues: seq<Issue>)
    ensures panicked <==> None in nodes
    ensures !panicked ==> issues == DuplicateIssues(IdsOf(Present(nodes)))
  {
    issues := [];
    var seen: set<ID> := {};
    var i := 0;
    ghost var ids: seq<ID> := [];
    while i < |nodes|
      invariant 0 <= i <= |nodes| && None !in nodes[..i]
      invariant ids == IdsOf(Present(nodes[..i])) && issues == DuplicateIssues(ids)
      invariant forall x :: x in seen <==> x in ids
    {
      if nodes[i] == None {
        return true, issues;
      }
      var id := nodes[i].value.id;
      PresentNext(nodes, i);
      assert nodes[..i + 1] == nodes[..i] + [nodes[i]];
      IdsPush(Present(nodes[..i]), nodes[i].value);
      assert (ids + [id])[..|ids|] == ids;
      if id in seen {
        issues := issues + [Issue(Error, DuplicateID, [id])];
      } else {
        seen := seen + {id};
      }
      ids := ids + [id];
      i := i + 1;
    }
    assert nodes[..i] == nodes;
    return false, issues;
  }

  lemma IdsPush(list: seq<Entry>, e: Entry)
    ensures IdsOf(list + [e]) == IdsOf(list) + [e.id]
  {
  }

  method FindMissingParents(list: seq<Entry>, index: Entries, code: Code) returns (issues: seq<Issue>)
    ensures issues == ParentIssues(list, index, code)
  {
    issues := [];
    var i := 0;
    while i < |list|
      invariant 0 <= i <= |list| && issues == ParentIssues(list[..i], index, code)
    {
      assert list[..i + 1][..i] == list[..i];
      if list[i].parent != NIL_ID && list[i].parent !in index {
        issues := issues + [Issue(Error, code, [list[i].id, list[i].parent])];
      }
      i := i + 1;
    }
    assert list[..i] == list;
  }

  /** The cycle pass, which reports a cycle only under a key it has not reported. */
  method FindCycles(fs: seq<Entry>, index: Entries) returns (issues: seq<Issue>)
    ensures issues == CycleIssues(fs, index)
  {
    hide CycleOf, KeyOf;
    issues := [];
    var reported: set<Bytes> := {};
    var i := 0;
    while i < |fs|
      invariant 0 <= i <= |fs|
      invariant issues == CycleIssues(fs[..i], index) && reported == CycleKeys(fs[..i], index)
    {
      assert fs[..i + 1][..i] == fs[..i];
      var cycle := FolderCycleOf(fs[i], index);
      if cycle != [] {
        var key := CycleKey(cycle);
        if key !in reported {
          issues := issues + [Issue(Error, FolderCycle, cycle)];
        }
        reported := reported + {key};
      }
      i := i + 1;
    }
    assert fs[..i] == fs;
  }

  method FindOrphanTabs(tabs: seq<ID>, connIndex: Entries) returns (issues: seq<Issue>)
    ensures issues == TabIssues(tabs, connIndex)
  {
    issues := [];
    var i := 0;
    while i < |tabs|
      invariant 0 <= i <= |tabs| && issues == TabIssues(tabs[..i], connIndex)
    {
      assert tabs[..i + 1][..i] == tabs[..i];
      if tabs[i] != NIL_ID && tabs[i] !in connIndex {
        issues := issues + [Issue(Warn, OrphanWorkspaceTab, [tabs[i]])];
      }
      i := i + 1;
    }
    assert tabs[..i] == tabs;
  }
}
