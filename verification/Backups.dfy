// Retention of backup archives (internal/persistence/backup.go,
// pruneBackups): only the newest `keep` archives stay.
module Backups {
  import opened Octets
  import opened Wrappers

  const DEFAULT_RETENTION := 10

  /** One file of an archive; `clean` is its sanitised path, None when the path is unsafe. */
  datatype ZipEntry = ZipEntry(clean: Option<Bytes>, isDir: bool, size: int, data: Bytes)

  /** An archive can be unreadable. */
  datatype Archive = Good(entries: seq<ZipEntry>) | Broken

  datatype Backup = Backup(modTime: int, archive: Archive)

  type Shelf = map<Bytes, Backup>

  /** By modification time, then by name. */
  predicate Older(z: Shelf, a: Bytes, b: Bytes)
    requires a in z && b in z
  {
    z[a].modTime < z[b].modTime || (z[a].modTime == z[b].modTime && LexLess(a, b))
  }

  lemma OlderIsTotalOrder(z: Shelf, a: Bytes, b: Bytes, c: Bytes)
    requires a in z && b in z && c in z
    ensures !Older(z, a, a)
    ensures a == b || Older(z, a, b) || Older(z, b, a)
    ensures Older(z, a, b) && Older(z, b, c) ==> Older(z, a, c)
  {
    LexIrreflexive(a);
    LexTotal(a, b);
    if LexLess(a, b) && LexLess(b, c) {
      LexTransitive(a, b, c);
    }
  }

  function LaterThan(z: Shelf, n: Bytes): set<Bytes>
    requires n in z
  {
    set m | m in z && Older(z, n, m)
  }

  /** The archives with fewer than `keep` later ones. */
  function Retained(z: Shelf, keep: nat): Shelf {
    map n | n in z && |LaterThan(z, n)| < keep :: z[n]
  }

  // ------------------------------------------------------------------
  // Sorting by age
  // ------------------------------------------------------------------

  predicate Names(z: Shelf, s: seq<Bytes>) {
    (forall n | n in s :: n in z) && (forall n | n in z :: n in s)
  }

  predicate Known(z: Shelf, s: seq<Bytes>) {
    forall n | n in s :: n in z
  }

  predicate ByAge(z: Shelf, s: seq<Bytes>)
    requires Known(z, s)
  {
    forall i, j | 0 <= i < j < |s| :: Older(z, s[i], s[j])
  }

  predicate Distinct(s: seq<Bytes>) {
    forall i, j | 0 <= i < j < |s| :: s[i] != s[j]
  }

  function Inserted(z: Shelf, s: seq<Bytes>, n: Bytes): (r: seq<Bytes>)
    requires Known(z, s) && n in z
    ensures forall m :: m in r <==> m in s || m == n
    ensures |r| == |s| + 1
  {
    if s == [] then [n]
    else if Older(z, n, s[0]) then [n] + s
    else [s[0]] + Inserted(z, s[1..], n)
  }

  /** What sort.Slice leaves: the same names, oldest first. */
  function Sorted(z: Shelf, s: seq<Bytes>): (r: seq<Bytes>)
    requires Known(z, s)
    ensures forall m :: m in r <==> m in s
    ensures |r| == |s|
  {
    if s == [] then []
    else
      assert s == [s[0]] + s[1..];
      Inserted(z, Sorted(z, s[1..]), s[0])
  }

  lemma {:induction false} InsertedByAge(z: Shelf, s: seq<Bytes>, n: Bytes)
    requires Known(z, s) && n in z && n !in s && ByAge(z, s)
    ensures ByAge(z, Inserted(z, s, n))
  {
    if s != [] {
      OlderIsTotalOrder(z, n, s[0], n);
      if Older(z, n, s[0]) {
        forall j | 0 <= j < |s|
          ensures Older(z, n, s[j])
        {
          OlderIsTotalOrder(z, n, s[0], s[j]);
        }
      } else {
        InsertedByAge(z, s[1..], n);
        var r := Inserted(z, s[1..], n);
        forall j | 0 <= j < |r|
          ensures Older(z, s[0], r[j])
        {
          assert r[j] in r;
          if r[j] != n {
            var i :| 0 <= i < |s[1..]| && s[1..][i] == r[j];
            assert s[i + 1] == r[j];
          }
        }
      }
    }
  }

  lemma {:induction false} SortedByAge(z: Shelf, s: seq<Bytes>)
    requires Known(z, s) && Distinct(s)
    ensures ByAge(z, Sorted(z, s))
  {
    if s != [] {
      SortedByAge(z, s[1..]);
      InsertedByAge(z, Sorted(z, s[1..]), s[0]);
    }
  }

  // ------------------------------------------------------------------
  // Counting the later ones
  // ------------------------------------------------------------------

  lemma {:induction false} DistinctSize(s: seq<Bytes>)
    requires Distinct(s)
    ensures |set n | n in s| == |s|
  {
    if s != [] {
      var init, last := s[..|s| - 1], s[|s| - 1];
      DistinctSize(init);
      assert (set n | n in s) == (set n | n in init) + {last};
    }
  }

  lemma AgeIsPosition(z: Shelf, s: seq<Bytes>, i: nat, j: nat)
    requires Known(z, s) && ByAge(z, s) && i < |s| && j < |s|
    ensures Older(z, s[i], s[j]) <==> i < j
    ensures s[i] == s[j] <==> i == j
  {
    OlderIsTotalOrder(z, s[i], s[j], s[i]);
    OlderIsTotalOrder(z, s[j], s[j], s[j]);
  }

  /** In a list sorted by age, the archives later than the one at p are those behind it. */
  lemma LaterBehind(z: Shelf, s: seq<Bytes>, p: nat)
    requires Names(z, s) && ByAge(z, s) && p < |s|
    ensures |LaterThan(z, s[p])| == |s| - 1 - p
  {
    var rest := s[p + 1..];
    NoneTwice(z, s, p + 1);
    DistinctSize(rest);
    forall m
      ensures m in LaterThan(z, s[p]) <==> m in rest
    {
      if m in z {
        var i :| 0 <= i < |s| && s[i] == m;
        AgeIsPosition(z, s, p, i);
        if i > p {
          assert rest[i - p - 1] == m;
        }
      }
      if m in rest {
        var i :| 0 <= i < |rest| && rest[i] == m;
        AgeIsPosition(z, s, p, p + 1 + i);
      }
    }
    assert LaterThan(z, s[p]) == set n | n in rest;
  }

  /** An archive has fewer later ones than are kept exactly when it is not among the oldest. */
  lemma KeptIfBehind(z: Shelf, s: seq<Bytes>, drop: nat, n: Bytes)
    requires Names(z, s) && ByAge(z, s) && drop <= |s| && n in z
    ensures |LaterThan(z, n)| < |s| - drop <==> n !in s[..drop]
    ensures n in s[drop..] <==> n !in s[..drop]
  {
    var p :| 0 <= p < |s| && s[p] == n;
    LaterBehind(z, s, p);
    hide LaterThan, Older;
    if n in s[..drop] {
      var i :| 0 <= i < drop && s[..drop][i] == n;
      AgeIsPosition(z, s, p, i);
    }
    if n in s[drop..] {
      var j :| 0 <= j < |s| - drop && s[drop..][j] == n;
      AgeIsPosition(z, s, p, drop + j);
    }
    if p < drop {
      assert s[..drop][p] == n;
    } else {
      assert s[drop..][p - drop] == n;
    }
  }

  lemma RetainedMeans(z: Shelf, keep: nat)
    ensures forall n :: n in Retained(z, keep) <==> n in z && |LaterThan(z, n)| < keep
    ensures forall n | n in Retained(z, keep) :: Retained(z, keep)[n] == z[n]
  {
  }

  /** Dropping the front of the sorted list leaves exactly the newest `keep`. */
  lemma RetainedIsTail(z: Shelf, s: seq<Bytes>, keep: nat)
    requires Names(z, s) && ByAge(z, s) && keep <= |s|
    ensures Retained(z, keep) == map n | n in z && n in s[|s| - keep..] :: z[n]
  {
    forall n | n in z
      ensures |LaterThan(z, n)| < keep <==> n in s[|s| - keep..]
    {
      KeptIfBehind(z, s, |s| - keep, n);
    }
    hide LaterThan, Names, ByAge;
  }

  lemma RetainedAll(z: Shelf, s: seq<Bytes>, keep: nat)
    requires Names(z, s) && Distinct(s) && |s| <= keep
    ensures Retained(z, keep) == z
  {
    SortedByAge(z, s);
    forall n | n in z
      ensures |LaterThan(z, n)| < keep
    {
      var t := Sorted(z, s);
      var p :| 0 <= p < |t| && t[p] == n;
      LaterBehind(z, t, p);
    }
  }

  /** `keep` of the archives, or all if there are no more, each newer than every other one: by time, then by name. */
  ghost predicate Newest(z: Shelf, kept: Shelf, keep: nat) {
    && |kept| == (if |z| < keep then |z| else keep)
    && (forall n | n in kept :: n in z && kept[n] == z[n])
    && forall n, m | n in kept && m in z && m !in kept ::
         z[m].modTime < z[n].modTime || (z[m].modTime == z[n].modTime && LexLess(m, n))
  }

  /** Exactly the newest archives are retained. */
  lemma RetainedAreNewest(z: Shelf, keep: nat)
    ensures Newest(z, Retained(z, keep), keep)
  {
    hide *;
    var listing := Listing(z);
    NamesAreKnown(z, listing);
    SortedByAge(z, listing);
    ListingSize(z, listing);
    var s := Sorted(z, listing);
    if |s| <= keep {
      RetainedAll(z, listing, keep);
      AllAreNewest(z, keep);
    } else {
      RetainedIsTail(z, s, keep);
      TailIsNewest(z, s, keep);
    }
  }

  lemma AllAreNewest(z: Shelf, keep: nat)
    requires |z| <= keep
    ensures Newest(z, z, keep)
  {
  }

  lemma TailIsNewest(z: Shelf, s: seq<Bytes>, keep: nat)
    requires Names(z, s) && ByAge(z, s) && keep <= |s| && |s| == |z|
    ensures Newest(z, map n | n in z && n in s[|s| - keep..] :: z[n], keep)
  {
    var drop := |s| - keep;
    var tail, rest := map n | n in z && n in s[drop..] :: z[n], s[drop..];
    TailSize(z, s, drop);
    assert forall j | drop <= j < |s| :: s[j] == rest[j - drop];
    forall n, m | n in tail && m in z && m !in tail
      ensures z[m].modTime < z[n].modTime || (z[m].modTime == z[n].modTime && LexLess(m, n))
    {
      InFront(z, s, drop, m, n);
    }
    hide Names, ByAge;
  }

  lemma InFront(z: Shelf, s: seq<Bytes>, drop: nat, m: Bytes, n: Bytes)
    requires Names(z, s) && ByAge(z, s) && drop <= |s| && m in z && n in s[drop..] && m !in s[drop..]
    ensures n in z && Older(z, m, n)
  {
    var i :| 0 <= i < |s[drop..]| && s[drop..][i] == n;
    var j :| 0 <= j < |s| && s[j] == m;
    assert forall j | drop <= j < |s| :: s[j] == s[drop..][j - drop];
    hide Older, LexLess;
    AgeIsPosition(z, s, j, drop + i);
  }

  lemma TailSize(z: Shelf, s: seq<Bytes>, drop: nat)
    requires Names(z, s) && ByAge(z, s) && drop <= |s|
    ensures |map n | n in z && n in s[drop..] :: z[n]| == |s| - drop
  {
    var tail, rest := map n | n in z && n in s[drop..] :: z[n], s[drop..];
    NoneTwice(z, s, drop);
    hide ByAge, Distinct;
    DistinctSize(rest);
    assert tail.Keys == set n | n in rest;
  }

  lemma NoneTwice(z: Shelf, s: seq<Bytes>, drop: nat)
    requires Known(z, s) && ByAge(z, s) && drop <= |s|
    ensures Distinct(s[drop..])
  {
    hide ByAge, Known, Older;
    forall i, j | 0 <= i < j < |s[drop..]|
      ensures s[drop..][i] != s[drop..][j]
    {
      AgeIsPosition(z, s, drop + i, drop + j);
    }
  }

  lemma Listing(z: Shelf) returns (s: seq<Bytes>)
    ensures Names(z, s) && Distinct(s)
    decreases z.Keys
  {
    if z == map[] {
      s := [];
    } else {
      var n :| n in z;
      var rest := Listing(z - {n});
      s := [n] + rest;
    }
  }

  /** The directory's file names, each once, in some order. */
  method ReadDir(zips: Shelf) returns (listing: seq<Bytes>)
    ensures Names(zips, listing) && Distinct(listing)
  {
    listing := [];
    var rest := zips.Keys;
    while rest != {}
      invariant rest <= zips.Keys && Distinct(listing)
      invariant forall n :: n in listing <==> n in zips && n !in rest
      decreases |rest|
    {
      var n :| n in rest;
      listing := listing + [n];
      rest := rest - {n};
    }
  }

  /**
   * Removes the oldest archives beyond `keep`; `left` is what the directory holds afterwards. The directory may be
   * unreadable, and only the first `removals` removals succeed: the next one ends the pruning.
   */
  method Prune(zips: Shelf, keep: nat, readable: bool, removals: nat) returns (left: Shelf, ok: bool)
    ensures ok ==> left == Retained(zips, keep)
    ensures forall n | n in Retained(zips, keep) :: n in left
    ensures forall n | n in left :: n in zips && left[n] == zips[n]
    ensures ok <==> readable && |zips| <= keep + removals
  {
    hide *;
    left := zips;
    if !readable {
      NothingDropped(zips, keep);
      return left, false;
    }
    var listing := ReadDir(zips);
    ListingSize(zips, listing);
    if |listing| <= keep {
      RetainedAll(zips, listing, keep);
      return left, true;
    }
    NamesAreKnown(zips, listing);
    var sorted := Sorted(zips, listing);
    SortedByAge(zips, listing);
    var drop := |sorted| - keep;
    DroppedNone(zips, sorted);
    for i := 0 to drop
      invariant i <= removals
      invariant left == Dropped(zips, sorted, i)
    {
      if i == removals {
        DroppedMeans(zips, sorted, drop, i);
        return left, false;
      }
      DroppedOne(zips, sorted, i);
      left := left - {sorted[i]};
    }
    DroppedMeans(zips, sorted, drop, drop);
    return left, true;
  }

  lemma ListingSize(z: Shelf, s: seq<Bytes>)
    requires Names(z, s) && Distinct(s)
    ensures |s| == |z|
  {
    DistinctSize(s);
    assert z.Keys == set n | n in s;
  }

  /** z without the first i names of s. */
  function Dropped(z: Shelf, s: seq<Bytes>, i: nat): Shelf
    requires i <= |s|
  {
    map n | n in z && n !in s[..i] :: z[n]
  }

  lemma NothingDropped(z: Shelf, keep: nat)
    ensures forall n | n in Retained(z, keep) :: n in z
  {
  }

  lemma NamesAreKnown(z: Shelf, s: seq<Bytes>)
    requires Names(z, s)
    ensures Known(z, s) && Names(z, Sorted(z, s))
  {
  }

  lemma DroppedNone(z: Shelf, s: seq<Bytes>)
    ensures Dropped(z, s, 0) == z
  {
  }

  lemma DroppedOne(z: Shelf, s: seq<Bytes>, i: nat)
    requires i < |s|
    ensures Dropped(z, s, i) - {s[i]} == Dropped(z, s, i + 1)
  {
    assert s[..i + 1] == s[..i] + [s[i]];
  }

  lemma DroppedMeans(z: Shelf, s: seq<Bytes>, drop: nat, i: nat)
    requires Names(z, s) && ByAge(z, s) && i <= drop <= |s|
    ensures var keep := |s| - drop;
            && (forall n | n in Retained(z, keep) :: n in Dropped(z, s, i))
            && (forall n | n in Dropped(z, s, i) :: n in z && Dropped(z, s, i)[n] == z[n])
            && (i == drop ==> Dropped(z, s, i) == Retained(z, keep))
  {
    var keep := |s| - drop;
    KeptExactly(z, s, drop);
    hide Retained, Names, ByAge;
    forall n | n in s[..i]
      ensures n in s[..drop]
    {
      var k :| 0 <= k < i && s[..i][k] == n;
      assert s[..drop][k] == n;
    }
  }

  lemma KeptExactly(z: Shelf, s: seq<Bytes>, drop: nat)
    requires Names(z, s) && ByAge(z, s) && drop <= |s|
    ensures forall n :: n in Retained(z, |s| - drop) <==> n in z && n !in s[..drop]
    ensures forall n | n in Retained(z, |s| - drop) :: Retained(z, |s| - drop)[n] == z[n]
  {
    forall n | n in z
      ensures |LaterThan(z, n)| < |s| - drop <==> n !in s[..drop]
    {
      KeptIfBehind(z, s, drop, n);
    }
    hide LaterThan, Names, ByAge;
  }
}
