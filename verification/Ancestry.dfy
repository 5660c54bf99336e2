// Parent relations: what it means to climb from a folder to an ancestor, to
// reach the root, and how those facts survive an insertion, a reparenting or
// the removal of a subtree. Every tree algorithm is stated against this theory.
module Ancestry {
  import opened Identifiers

  /** Folder ID to parent ID. NIL_ID is the root and is never climbed past. */
  type Parents = map<ID, ID>

  /** Exactly n parent links lead from x to y. */
  ghost predicate Climb(par: Parents, x: ID, y: ID, n: nat)
    decreases n
  {
    if n == 0 then x == y else x != NIL_ID && x in par && Climb(par, par[x], y, n - 1)
  }

  /** x is y or transitively below it. */
  ghost predicate Under(par: Parents, x: ID, y: ID) {
    exists n: nat :: Climb(par, x, y, n)
  }

  ghost predicate Rooted(par: Parents, x: ID) {
    Under(par, x, NIL_ID)
  }

  /** Every folder's parent chain ends at the root: all parents exist and there is no cycle. */
  ghost predicate IsForest(par: Parents) {
    NIL_ID !in par && forall x {:trigger Rooted(par, x)} | x in par :: Rooted(par, x)
  }

  /** The folders below y, y itself excluded. */
  ghost function Below(par: Parents, y: ID): set<ID> {
    set x | x in par && x != y && Under(par, x, y)
  }

  ghost function Subtree(par: Parents, y: ID): set<ID> {
    set x | x in par && Under(par, x, y)
  }

  lemma {:induction false} ClimbTrans(par: Parents, x: ID, y: ID, z: ID, m: nat, n: nat)
    requires Climb(par, x, y, m) && Climb(par, y, z, n)
    ensures Climb(par, x, z, m + n)
    decreases m
  {
    if m > 0 {
      ClimbTrans(par, par[x], y, z, m - 1, n);
    }
  }

  lemma UnderTrans(par: Parents, x: ID, y: ID, z: ID)
    requires Under(par, x, y) && Under(par, y, z)
    ensures Under(par, x, z)
  {
    var m: nat :| Climb(par, x, y, m);
    var n: nat :| Climb(par, y, z, n);
    ClimbTrans(par, x, y, z, m, n);
  }

  lemma UnderSelf(par: Parents, x: ID)
    ensures Under(par, x, x)
  {
    assert Climb(par, x, x, 0);
  }

  lemma UnderParent(par: Parents, x: ID, y: ID)
    requires x != NIL_ID && x in par && Under(par, par[x], y)
    ensures Under(par, x, y)
  {
    var n: nat :| Climb(par, par[x], y, n);
    assert Climb(par, x, y, n + 1);
  }

  /** Under, one step at a time. */
  lemma UnderStep(par: Parents, x: ID, y: ID)
    ensures Under(par, x, y) <==> x == y || (x != NIL_ID && x in par && Under(par, par[x], y))
  {
    if Under(par, x, y) {
      var n: nat :| Climb(par, x, y, n);
      if n > 0 {
        assert Climb(par, par[x], y, n - 1);
      }
    }
    if x == y {
      UnderSelf(par, x);
    } else if x != NIL_ID && x in par && Under(par, par[x], y) {
      UnderParent(par, x, y);
    }
  }

  /** Two climbs from one node to different heights: the shorter end is below the longer one. */
  lemma {:induction false} ClimbChain(par: Parents, x: ID, y: ID, z: ID, m: nat, n: nat)
    requires Climb(par, x, y, m) && Climb(par, x, z, m + n)
    ensures Climb(par, y, z, n)
    decreases m
  {
    if m > 0 {
      ClimbChain(par, par[x], y, z, m - 1, n);
    }
  }

  /** The two ancestors of one node are comparable. */
  lemma AncestorsComparable(par: Parents, x: ID, y: ID, z: ID)
    requires Under(par, x, y) && Under(par, x, z)
    ensures Under(par, y, z) || Under(par, z, y)
  {
    var m: nat :| Climb(par, x, y, m);
    var n: nat :| Climb(par, x, z, n);
    if m <= n {
      ClimbChain(par, x, y, z, m, n - m);
    } else {
      ClimbChain(par, x, z, y, n, m - n);
    }
  }

  /** The distance to the root is unique, so a rooted node never returns to itself. */
  lemma {:induction false} RootedAcyclic(par: Parents, x: ID, d: nat, n: nat)
    requires Climb(par, x, NIL_ID, d) && Climb(par, x, x, n)
    ensures n == 0
    decreases d
  {
    if 0 < n <= d {
      ClimbChain(par, x, x, NIL_ID, n, d - n);
      RootedAcyclic(par, x, d - n, n);
    } else if d < n {
      ClimbChain(par, x, NIL_ID, x, d, n - d);
    }
  }

  lemma UnderAntisymmetric(par: Parents, x: ID, y: ID)
    requires Rooted(par, x) && Under(par, x, y) && Under(par, y, x)
    ensures x == y
  {
    var d: nat :| Climb(par, x, NIL_ID, d);
    var m: nat :| Climb(par, x, y, m);
    var n: nat :| Climb(par, y, x, n);
    ClimbTrans(par, x, y, x, m, n);
    RootedAcyclic(par, x, d, m + n);
  }

  /** A child is not above its parent. */
  lemma ParentNotUnderChild(par: Parents, x: ID)
    requires IsForest(par) && x in par
    ensures !Under(par, par[x], x)
  {
    if Under(par, par[x], x) {
      UnderSelf(par, par[x]);
      UnderParent(par, x, par[x]);
      UnderAntisymmetric(par, x, par[x]);
      var d: nat :| Climb(par, x, NIL_ID, d);
      assert Climb(par, x, x, 1) by {
        assert Climb(par, par[x], x, 0);
      }
      RootedAcyclic(par, x, d, 1);
    }
  }

  lemma RootedParent(par: Parents, x: ID)
    requires IsForest(par) && x in par
    ensures par[x] == NIL_ID || par[x] in par
    ensures Rooted(par, par[x])
  {
    assert Rooted(par, x);
    UnderStep(par, x, NIL_ID);
    UnderStep(par, par[x], NIL_ID);
  }

  /** Subtrees of two different siblings share nothing. */
  lemma SiblingsDisjoint(par: Parents, x: ID, y: ID, z: ID)
    requires IsForest(par) && y in par && z in par && par[y] == par[z]
    requires Under(par, x, y) && Under(par, x, z)
    ensures y == z
  {
    AncestorsComparable(par, x, y, z);
    if y != z {
      ParentNotUnderChild(par, y);
      ParentNotUnderChild(par, z);
      UnderStep(par, y, z);
      UnderStep(par, z, y);
    }
  }

  /** A node is below p exactly when it is in the subtree of one of p's children. */
  lemma {:induction false} UnderViaChild(par: Parents, x: ID, p: ID, n: nat) returns (c: ID)
    requires Climb(par, x, p, n) && n > 0
    ensures c in par && c != NIL_ID && par[c] == p && Climb(par, x, c, n - 1)
    decreases n
  {
    if n == 1 {
      c := x;
    } else {
      c := UnderViaChild(par, par[x], p, n - 1);
    }
  }

  lemma BelowShrinks(par: Parents, c: ID)
    requires IsForest(par) && c in par
    ensures Below(par, c) < Below(par, par[c])
  {
    var p := par[c];
    UnderSelf(par, p);
    UnderParent(par, c, p);
    ParentNotUnderChild(par, c);
    forall x | x in Below(par, c)
      ensures x in Below(par, p)
    {
      UnderTrans(par, x, c, p);
    }
    assert c in Below(par, p) by {
      if c == p {
        UnderSelf(par, c);
      }
    }
    assert c !in Below(par, c);
  }

  // ------------------------------------------------------------------
  // How climbs survive an edit of the parent relation
  // ------------------------------------------------------------------

  lemma {:induction false} ClimbExtend(par: Parents, par': Parents, x: ID, y: ID, n: nat)
    requires forall k | k in par :: k in par' && par'[k] == par[k]
    requires Climb(par, x, y, n)
    ensures Climb(par', x, y, n)
    decreases n
  {
    if n > 0 {
      ClimbExtend(par, par', par[x], y, n - 1);
    }
  }

  lemma UnderExtend(par: Parents, par': Parents, x: ID, y: ID)
    requires forall k | k in par :: k in par' && par'[k] == par[k]
    requires Under(par, x, y)
    ensures Under(par', x, y)
  {
    var n: nat :| Climb(par, x, y, n);
    ClimbExtend(par, par', x, y, n);
  }

  lemma InsertForest(par: Parents, id: ID, p: ID)
    requires IsForest(par) && id !in par && id != NIL_ID && (p == NIL_ID || p in par)
    ensures IsForest(par[id := p])
  {
    var par' := par[id := p];
    UnderSelf(par', NIL_ID);
    forall x | x in par
      ensures Rooted(par', x)
    {
      assert Rooted(par, x);
      UnderExtend(par, par', x, NIL_ID);
    }
    assert Rooted(par', p);
    UnderParent(par', id, NIL_ID);
  }

  ghost predicate DownClosed(par: Parents, dead: set<ID>) {
    forall x | x in par && par[x] in dead :: x in dead
  }

  lemma {:induction false} ClimbOutside(par: Parents, dead: set<ID>, x: ID, y: ID, n: nat)
    requires DownClosed(par, dead) && x !in dead && Climb(par, x, y, n)
    ensures Climb(par - dead, x, y, n)
    decreases n
  {
    if n > 0 {
      ClimbOutside(par, dead, par[x], y, n - 1);
    }
  }

  /** Cutting out a downward-closed set changes no surviving ancestry. */
  lemma UnderOutside(par: Parents, dead: set<ID>, x: ID, y: ID)
    requires DownClosed(par, dead) && x !in dead
    ensures Under(par - dead, x, y) <==> Under(par, x, y)
  {
    if Under(par, x, y) {
      var n: nat :| Climb(par, x, y, n);
      ClimbOutside(par, dead, x, y, n);
    }
    if Under(par - dead, x, y) {
      UnderExtend(par - dead, par, x, y);
    }
  }

  lemma SubtreeDownClosed(par: Parents, y: ID)
    requires NIL_ID !in par
    ensures DownClosed(par, Subtree(par, y))
  {
    forall x | x in par && par[x] in Subtree(par, y)
      ensures x in Subtree(par, y)
    {
      UnderParent(par, x, y);
    }
  }

  lemma CutForest(par: Parents, dead: set<ID>)
    requires IsForest(par) && DownClosed(par, dead)
    ensures IsForest(par - dead)
  {
    forall x | x in par - dead
      ensures Rooted(par - dead, x)
    {
      assert Rooted(par, x);
      UnderOutside(par, dead, x, NIL_ID);
    }
  }

  lemma {:induction false} ClimbAvoiding(par: Parents, id: ID, p: ID, x: ID, y: ID, n: nat)
    requires !Under(par, x, id) && Climb(par, x, y, n)
    ensures Climb(par[id := p], x, y, n)
    decreases n
  {
    UnderSelf(par, x);
    if n > 0 {
      UnderStep(par, x, id);
      ClimbAvoiding(par, id, p, par[x], y, n - 1);
    }
  }

  lemma {:induction false} ReparentRooted(par: Parents, id: ID, p: ID, x: ID, n: nat)
    requires IsForest(par) && id in par && (p == NIL_ID || p in par) && !Under(par, p, id)
    requires Climb(par, x, NIL_ID, n)
    ensures Rooted(par[id := p], x)
    decreases n
  {
    var par' := par[id := p];
    if x == id {
      UnderSelf(par, NIL_ID);
      assert Rooted(par, p);
      var m: nat :| Climb(par, p, NIL_ID, m);
      ClimbAvoiding(par, id, p, p, NIL_ID, m);
      assert Climb(par', id, NIL_ID, m + 1);
    } else if n == 0 {
      UnderSelf(par', NIL_ID);
    } else {
      ReparentRooted(par, id, p, par[x], n - 1);
      UnderParent(par', x, NIL_ID);
    }
  }

  /** Moving a folder keeps the forest exactly when the new parent is not in the folder's own subtree. */
  lemma ReparentForest(par: Parents, id: ID, p: ID)
    requires IsForest(par) && id in par && (p == NIL_ID || p in par)
    ensures IsForest(par[id := p]) <==> !Under(par, p, id)
  {
    var par' := par[id := p];
    if !Under(par, p, id) {
      forall x | x in par'
        ensures Rooted(par', x)
      {
        assert Rooted(par, x);
        var n: nat :| Climb(par, x, NIL_ID, n);
        ReparentRooted(par, id, p, x, n);
      }
    } else if IsForest(par') {
      var n: nat :| Climb(par, p, id, n);
      ReparentKeepsClimb(par, id, p, p, n);
      ParentNotUnderChild(par', id);
    }
  }

  lemma {:induction false} ReparentKeepsClimb(par: Parents, id: ID, p: ID, x: ID, n: nat)
    requires Climb(par, x, id, n)
    ensures Under(par[id := p], x, id)
    decreases n
  {
    UnderSelf(par[id := p], id);
    if n > 0 && x != id {
      ReparentKeepsClimb(par, id, p, par[x], n - 1);
      UnderParent(par[id := p], x, id);
    }
  }
}
