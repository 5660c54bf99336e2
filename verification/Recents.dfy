// The recently opened connections (app/workspace/workspace.go): a bounded
// list kept most-recent-first, against the unbounded list it stands for.
module Recents {
  import opened Wrappers

  const MAX_RECENTS := 20

  /** Go's zero time.Time. */
  const ZERO_TIME := 0

  datatype RecentEntry = RecentEntry(connectionID: string, openedAt: int, openCount: int)

  /** s without the entries of one connection. */
  function Others(s: seq<RecentEntry>, id: string): (r: seq<RecentEntry>)
    ensures |r| <= |s|
  {
    if s == [] then []
    else Others(s[..|s| - 1], id) + if s[|s| - 1].connectionID == id then [] else [s[|s| - 1]]
  }

  /** The count of a connection's last entry, or 0. */
  function CountOf(s: seq<RecentEntry>, id: string): int {
    if s == [] then 0
    else if s[|s| - 1].connectionID == id then s[|s| - 1].openCount
    else CountOf(s[..|s| - 1], id)
  }

  function First<T>(s: seq<T>, n: nat): seq<T> {
    if |s| <= n then s else s[..n]
  }

  function Ids(s: seq<RecentEntry>): (r: seq<string>)
    ensures |r| == |s| && forall i | 0 <= i < |s| :: r[i] == s[i].connectionID
  {
    seq(|s|, i requires 0 <= i < |s| => s[i].connectionID)
  }

  // ------------------------------------------------------------------
  // Runs
  // ------------------------------------------------------------------

  datatype Step = Touch(id: string, at: int) | Clear

  /** Touch without the bound. */
  function Fronted(s: seq<RecentEntry>, id: string, at: int): seq<RecentEntry> {
    [RecentEntry(id, at, CountOf(s, id) + 1)] + Others(s, id)
  }

  function Apply(s: seq<RecentEntry>, step: Step, bound: Option<nat>): seq<RecentEntry> {
    match step
    case Clear => []
    case Touch(id, at) =>
      if id == "" then s
      else if bound.None? then Fronted(s, id, at)
      else First(Fronted(s, id, at), bound.value)
  }

  /** The list after a run from an empty one. */
  function After(run: seq<Step>, bound: Option<nat>): seq<RecentEntry> {
    if run == [] then [] else Apply(After(run[..|run| - 1], bound), run[|run| - 1], bound)
  }

  function Kept(run: seq<Step>): seq<RecentEntry> {
    After(run, Some(MAX_RECENTS))
  }

  function Everything(run: seq<Step>): seq<RecentEntry> {
    After(run, None)
  }

  predicate Distinct(s: seq<RecentEntry>) {
    forall i, j | 0 <= i < j < |s| :: s[i].connectionID != s[j].connectionID
  }

  /** What is left of an entry when its count is ignored. */
  predicate SameButCounts(s: seq<RecentEntry>, t: seq<RecentEntry>) {
    |s| == |t|
    && forall i | 0 <= i < |s| :: s[i].connectionID == t[i].connectionID && s[i].openedAt == t[i].openedAt
  }

  lemma {:induction false} OthersMembers(s: seq<RecentEntry>, id: string, e: RecentEntry)
    ensures e in Others(s, id) <==> e in s && e.connectionID != id
  {
    if s != [] {
      OthersMembers(s[..|s| - 1], id, e);
      assert s == s[..|s| - 1] + [s[|s| - 1]];
    }
  }

  lemma {:induction false} OthersDistinct(s: seq<RecentEntry>, id: string)
    requires Distinct(s)
    ensures Distinct(Others(s, id))
  {
    if s != [] {
      var init, last := s[..|s| - 1], s[|s| - 1];
      OthersDistinct(init, id);
      forall i | 0 <= i < |Others(init, id)|
        ensures Others(init, id)[i].connectionID != last.connectionID
      {
        OthersMembers(init, id, Others(init, id)[i]);
      }
    }
  }

  lemma FrontedDistinct(s: seq<RecentEntry>, id: string, at: int)
    requires Distinct(s)
    ensures Distinct(Fronted(s, id, at))
  {
    OthersDistinct(s, id);
    forall i | 0 <= i < |Others(s, id)|
      ensures Others(s, id)[i].connectionID != id
    {
      OthersMembers(s, id, Others(s, id)[i]);
    }
  }

  lemma {:induction false} AlwaysDistinct(run: seq<Step>, bound: Option<nat>)
    ensures Distinct(After(run, bound))
  {
    if run != [] {
      AlwaysDistinct(run[..|run| - 1], bound);
      if run[|run| - 1].Touch? {
        FrontedDistinct(After(run[..|run| - 1], bound), run[|run| - 1].id, run[|run| - 1].at);
      }
    }
  }

  /** A connection that is not in the list is not filtered out of it. */
  lemma {:induction false} OthersAbsent(s: seq<RecentEntry>, id: string)
    requires id !in Ids(s)
    ensures Others(s, id) == s
  {
    if s != [] {
      var init := s[..|s| - 1];
      assert forall i | 0 <= i < |init| :: Ids(init)[i] == Ids(s)[i];
      assert Ids(s)[|s| - 1] == s[|s| - 1].connectionID;
      OthersAbsent(init, id);
    }
  }

  /** Filtering a prefix gives a prefix of the filtered list, at most one entry shorter. */
  lemma {:induction false} OthersPrefix(s: seq<RecentEntry>, t: seq<RecentEntry>, id: string, n: nat)
    requires Distinct(s) && SameButCounts(t, First(s, n))
    ensures |Others(t, id)| <= |Others(s, id)|
    ensures SameButCounts(Others(t, id), Others(s, id)[..|Others(t, id)|])
    ensures |Others(t, id)| < n ==> |s| <= n || |Others(t, id)| == n - 1
    ensures |s| <= n ==> |Others(t, id)| == |Others(s, id)|
  {
    if |s| > n {
      var init, last := s[..|s| - 1], s[|s| - 1];
      assert First(init, n) == First(s, n);
      OthersNext(s, id);
      OthersPrefix(init, t, id, n);
      hide Others, SameButCounts;
      SameStart(Others(t, id), Others(init, id), Others(s, id));
      FilterLoss(t, id);
    } else if s != [] {
      var init, init' := s[..|s| - 1], t[..|t| - 1];
      assert First(init, n) == init;
      OthersNext(s, id);
      OthersNext(t, id);
      OthersPrefix(init, init', id, n);
      hide Others, Distinct;
    }
  }

  lemma OthersNext(s: seq<RecentEntry>, id: string)
    requires s != []
    ensures var init, last := s[..|s| - 1], s[|s| - 1];
            Others(s, id) == Others(init, id) + if last.connectionID == id then [] else [last]
  {
  }

  lemma SameStart(t: seq<RecentEntry>, init: seq<RecentEntry>, s: seq<RecentEntry>)
    requires |t| <= |init| && SameButCounts(t, init[..|t|]) && init <= s
    ensures SameButCounts(t, s[..|t|])
  {
    assert s[..|t|] == init[..|t|];
  }

  /** Filtering a list without repetitions drops at most one entry. */
  lemma {:induction false} FilterLoss(s: seq<RecentEntry>, id: string)
    requires Distinct(s)
    ensures |Others(s, id)| >= |s| - 1
  {
    if s != [] {
      var init, last := s[..|s| - 1], s[|s| - 1];
      FilterLoss(init, id);
      if last.connectionID == id {
        OthersAbsent(init, id);
      }
    }
  }

  /**
   * Truncating at every touch keeps the same connections, in the same order and with the same times, as keeping
   * everything and truncating once at the end.
   */
  lemma {:induction false} TruncateOnce(run: seq<Step>)
    ensures SameButCounts(Kept(run), First(Everything(run), MAX_RECENTS))
  {
    if run != [] {
      var init, last := run[..|run| - 1], run[|run| - 1];
      TruncateOnce(init);
      if last.Touch? && last.id != "" {
        AlwaysDistinct(init, None);
        OthersPrefix(Everything(init), Kept(init), last.id, MAX_RECENTS);
        var u, b := Fronted(Everything(init), last.id, last.at), Fronted(Kept(init), last.id, last.at);
        TruncatedAlike(u, b, MAX_RECENTS);
      }
    }
  }

  /** The list is the front of the unbounded one: all of it, or its first twenty. */
  lemma KeptAreFirst(run: seq<Step>)
    ensures |Kept(run)| == if |Everything(run)| < 20 then |Everything(run)| else 20
    ensures forall i | 0 <= i < |Kept(run)| ::
              && Kept(run)[i].connectionID == Everything(run)[i].connectionID
              && Kept(run)[i].openedAt == Everything(run)[i].openedAt
  {
    TruncateOnce(run);
    hide After;
  }

  lemma TruncatedAlike(u: seq<RecentEntry>, b: seq<RecentEntry>, n: nat)
    requires |b| <= |u| && SameButCounts(b, u[..|b|]) && (|b| < n ==> |b| == |u|)
    ensures SameButCounts(First(b, n), First(u, n))
  {
  }

  // ------------------------------------------------------------------
  // The unbounded list, by what it means
  // ------------------------------------------------------------------

  /** The position of the last touch of id after the last Clear, or -1. */
  function LastTouch(run: seq<Step>, id: string): (k: int)
    ensures -1 <= k < |run| && (k >= 0 ==> run[k].Touch? && run[k].id == id)
  {
    if run == [] || run[|run| - 1].Clear? then -1
    else if run[|run| - 1].id == id then |run| - 1
    else LastTouch(run[..|run| - 1], id)
  }

  /** The list holds what was touched since the last Clear, each with the time of its last touch, latest first. */
  ghost predicate LatestFirst(run: seq<Step>, s: seq<RecentEntry>) {
    && (forall i | 0 <= i < |s| ::
          && s[i].connectionID != "" && LastTouch(run, s[i].connectionID) >= 0
          && s[i].openedAt == run[LastTouch(run, s[i].connectionID)].at)
    && (forall i, j | 0 <= i < j < |s| ::
          LastTouch(run, s[i].connectionID) > LastTouch(run, s[j].connectionID))
    && (forall id: string :: id != "" && LastTouch(run, id) >= 0 ==> Listed(s, id))
  }

  /** What counts is the last touch, and a later Clear undoes it. */
  lemma {:induction false} LastTouchExactly(run: seq<Step>, id: string)
    ensures var k := LastTouch(run, id);
            && -1 <= k < |run|
            && (k >= 0 ==> run[k].Touch? && run[k].id == id)
            && forall j | k < j < |run| && run[j].Touch? && run[j].id == id ::
                 exists c :: j < c < |run| && run[c] == Clear
    ensures LastTouch(run, id) >= 0 ==> forall j | LastTouch(run, id) < j < |run| :: run[j] != Clear
  {
    if run != [] {
      var init, last := run[..|run| - 1], run[|run| - 1];
      LastTouchExactly(init, id);
      assert run[|run| - 1] == last && forall j | 0 <= j < |init| :: run[j] == init[j];
    }
  }

  predicate Listed(s: seq<RecentEntry>, id: string) {
    exists i | 0 <= i < |s| :: s[i].connectionID == id
  }

  lemma {:induction false} OthersOrder(run: seq<Step>, s: seq<RecentEntry>, id: string)
    requires forall i, j | 0 <= i < j < |s| ::
               LastTouch(run, s[i].connectionID) > LastTouch(run, s[j].connectionID)
    ensures var t := Others(s, id);
            forall i, j | 0 <= i < j < |t| ::
              LastTouch(run, t[i].connectionID) > LastTouch(run, t[j].connectionID)
  {
    if s != [] {
      var init, last := s[..|s| - 1], s[|s| - 1];
      OthersOrder(run, init, id);
      var t := Others(init, id);
      forall i | 0 <= i < |t|
        ensures LastTouch(run, t[i].connectionID) > LastTouch(run, last.connectionID)
      {
        OthersMembers(init, id, t[i]);
      }
    }
  }

  lemma LastTouchNext(init: seq<Step>, last: Step, id: string)
    ensures LastTouch(init + [last], id)
         == if last.Clear? then -1 else if last.id == id then |init| else LastTouch(init, id)
  {
    assert (init + [last])[..|init|] == init;
  }

  lemma FrontedLatest(init: seq<Step>, id: string, at: int, s: seq<RecentEntry>)
    requires LatestFirst(init, s) && id != ""
    ensures LatestFirst(init + [Touch(id, at)], Fronted(s, id, at))
  {
    hide LastTouch, CountOf, Others, Listed;
    var run, t := init + [Touch(id, at)], Others(s, id);
    forall other: string
      ensures LastTouch(run, other) == if other == id then |init| else LastTouch(init, other)
      ensures LastTouch(init, other) < |init|
      ensures other == id || Listed(s, other) ==> Listed(Fronted(s, id, at), other)
    {
      LastTouchNext(init, Touch(id, at), other);
      FrontedListed(s, id, at, other);
    }
    OthersOrder(init, s, id);
    forall j | 0 <= j < |t|
      ensures t[j].connectionID != id && t[j] in s
    {
      OthersMembers(s, id, t[j]);
    }
    forall i | 0 <= i < |t|
      ensures run[LastTouch(init, t[i].connectionID)].at == init[LastTouch(init, t[i].connectionID)].at
    {
    }
  }

  lemma FrontedListed(s: seq<RecentEntry>, id: string, at: int, other: string)
    ensures Listed(Fronted(s, id, at), other) <==> other == id || Listed(s, other)
  {
    hide CountOf, Others;
    var t, f := Others(s, id), Fronted(s, id, at);
    assert f[0].connectionID == id;
    if other != id && Listed(s, other) {
      var i :| 0 <= i < |s| && s[i].connectionID == other;
      OthersMembers(s, id, s[i]);
      var j :| 0 <= j < |t| && t[j] == s[i];
      assert f[j + 1] == t[j];
    }
    if other != id && Listed(f, other) {
      var i :| 0 <= i < |f| && f[i].connectionID == other;
      OthersMembers(s, id, t[i - 1]);
      assert t[i - 1] == f[i];
    }
  }

  /** The unbounded list is exactly what was touched since the last Clear, the latest touch first. */
  lemma {:induction false} EverythingIsLatestFirst(run: seq<Step>)
    ensures LatestFirst(run, Everything(run))
  {
    if run != [] {
      var init, last := run[..|run| - 1], run[|run| - 1];
      EverythingIsLatestFirst(init);
      assert run == init + [last];
      if last.Touch? && last.id != "" {
        FrontedLatest(init, last.id, last.at, Everything(init));
      } else if last.Touch? {
        IgnoredTouch(init, last.at, Everything(init));
      }
    }
  }

  lemma IgnoredTouch(init: seq<Step>, at: int, s: seq<RecentEntry>)
    requires LatestFirst(init, s)
    ensures LatestFirst(init + [Touch("", at)], s)
  {
    forall other: string
      ensures LastTouch(init + [Touch("", at)], other) == if other == "" then |init| else LastTouch(init, other)
    {
      LastTouchNext(init, Touch("", at), other);
    }
  }

  // ------------------------------------------------------------------
  // The counts
  // ------------------------------------------------------------------

  function Touches(run: seq<Step>, id: string): nat {
    if run == [] then 0
    else Touches(run[..|run| - 1], id) + if run[|run| - 1].Touch? && run[|run| - 1].id == id then 1 else 0
  }

  /** How many of the steps touch id. */
  lemma {:induction false} TouchesExactly(run: seq<Step>, id: string)
    ensures Touches(run, id) == |set k | 0 <= k < |run| && run[k].Touch? && run[k].id == id|
  {
    if run != [] {
      var init, last := run[..|run| - 1], run[|run| - 1];
      TouchesExactly(init, id);
      var before := set k | 0 <= k < |init| && init[k].Touch? && init[k].id == id;
      var now := set k | 0 <= k < |run| && run[k].Touch? && run[k].id == id;
      assert now == before + if last.Touch? && last.id == id then {|init|} else {};
    }
  }

  /** The entry came into the list with step `since`, never left it afterwards, and counts the touches from there. */
  predicate CountedSince(run: seq<Step>, id: string, count: int, since: nat) {
    && since < |run| && run[since].Touch? && run[since].id == id
    && !Listed(Kept(run[..since]), id)
    && (forall k | since < k <= |run| :: Listed(Kept(run[..k]), id))
    && count == Touches(run[since..], id)
  }

  lemma {:induction false} CountOfListed(s: seq<RecentEntry>, id: string)
    requires Distinct(s)
    ensures !Listed(s, id) ==> CountOf(s, id) == 0
    ensures forall i | 0 <= i < |s| && s[i].connectionID == id :: CountOf(s, id) == s[i].openCount
  {
    if s != [] {
      CountOfListed(s[..|s| - 1], id);
    }
  }

  lemma TouchesNext(run: seq<Step>, id: string, since: nat)
    requires since < |run|
    ensures Touches(run[since..], id)
         == Touches(run[since..|run| - 1], id)
            + if run[|run| - 1].Touch? && run[|run| - 1].id == id then 1 else 0
  {
    assert run[since..][..|run[since..]| - 1] == run[since..|run| - 1];
  }

  /** A count that still runs, one step later. */
  lemma CountGoesOn(run: seq<Step>, id: string, count: int, since: nat)
    requires run != [] && CountedSince(run[..|run| - 1], id, count, since) && Listed(Kept(run), id)
    ensures CountedSince(run, id,
                         count + if run[|run| - 1].Touch? && run[|run| - 1].id == id then 1 else 0, since)
  {
    hide After, Touches, Listed;
    var init := run[..|run| - 1];
    assert init[since..] == run[since..|run| - 1];
    assert init[..since] == run[..since];
    TouchesNext(run, id, since);
    forall k | since < k <= |run|
      ensures Listed(Kept(run[..k]), id)
    {
      if k < |run| {
        assert init[..k] == run[..k];
      } else {
        assert run[..k] == run;
      }
    }
  }

  lemma CountStarts(run: seq<Step>, id: string)
    requires run != [] && run[|run| - 1].Touch? && run[|run| - 1].id == id
    requires !Listed(Kept(run[..|run| - 1]), id) && Listed(Kept(run), id)
    ensures CountedSince(run, id, 1, |run| - 1)
  {
    hide After, Listed;
    assert run[..|run|] == run;
    TouchesNext(run, id, |run| - 1);
    assert run[|run| - 1..|run| - 1] == [];
  }

  /** Each count is the number of touches since that entry last entered the list. */
  lemma {:induction false} CountsTouches(run: seq<Step>, i: nat)
    requires i < |Kept(run)|
    ensures exists since: nat :: CountedSince(run, Kept(run)[i].connectionID, Kept(run)[i].openCount, since)
  {
    hide Touches, CountedSince;
    var init, last := run[..|run| - 1], run[|run| - 1];
    var e, was := Kept(run)[i], Kept(init);
    var id := e.connectionID;
    AlwaysDistinct(init, Some(MAX_RECENTS));
    assert Listed(Kept(run), id);
    CountOfListed(was, id);
    if last.id == "" {
      CountsTouches(init, i);
      var since: nat :| CountedSince(init, id, e.openCount, since);
      NeverEmpty(init, i);
      CountGoesOn(run, id, e.openCount, since);
    } else if i == 0 {
      if Listed(was, id) {
        var j :| 0 <= j < |was| && was[j].connectionID == id;
        CountsTouches(init, j);
        var since: nat :| CountedSince(init, id, was[j].openCount, since);
        CountGoesOn(run, id, was[j].openCount, since);
      } else {
        CountStarts(run, id);
      }
    } else {
      assert e == Others(was, last.id)[i - 1];
      OthersMembers(was, last.id, e);
      var j :| 0 <= j < |was| && was[j] == e;
      CountsTouches(init, j);
      var since: nat :| CountedSince(init, id, e.openCount, since);
      CountGoesOn(run, id, e.openCount, since);
    }
  }

  lemma NeverEmpty(run: seq<Step>, i: nat)
    requires i < |Kept(run)|
    ensures Kept(run)[i].connectionID != ""
  {
    TruncateOnce(run);
    EverythingIsLatestFirst(run);
  }

  // ------------------------------------------------------------------
  // The workspace
  // ------------------------------------------------------------------

  lemma NoEntries(s: seq<RecentEntry>, id: string)
    ensures Others(s[..0], id) == [] && CountOf(s[..0], id) == 0
  {
  }

  lemma NextEntry(s: seq<RecentEntry>, i: nat, id: string)
    requires i < |s|
    ensures Others(s[..i + 1], id) == Others(s[..i], id) + if s[i].connectionID == id then [] else [s[i]]
    ensures CountOf(s[..i + 1], id) == if s[i].connectionID == id then s[i].openCount else CountOf(s[..i], id)
  {
    assert s[..i + 1][..i] == s[..i];
  }

  class Workspace {
    var recents: seq<RecentEntry>

    constructor ()
      ensures recents == []
    {
      recents := [];
    }

    /** Moves the connection to the front, or puts it there, and drops what no longer fits. */
    method TouchRecent(connID: string, at: int, now: int)
      modifies this
      ensures recents == Apply(old(recents), Touch(connID, if at == ZERO_TIME then now else at), Some(MAX_RECENTS))
    {
      if connID == "" {
        return;
      }
      var when := at;
      if when == ZERO_TIME {
        when := now;
      }
      hide Others, CountOf;
      var out: seq<RecentEntry> := [];
      var count := 1;
      NoEntries(recents, connID);
      for i := 0 to |recents|
        invariant recents == old(recents)
        invariant out == Others(recents[..i], connID) && count == CountOf(recents[..i], connID) + 1
      {
        var e := recents[i];
        NextEntry(recents, i, connID);
        if e.connectionID == connID {
          count := e.openCount + 1;
        } else {
          out := out + [e];
        }
      }
      assert recents[..|recents|] == recents;
      out := [RecentEntry(connID, when, count)] + out;
      if |out| > MAX_RECENTS {
        out := out[..MAX_RECENTS];
      }
      recents := out;
    }

    method ClearRecents()
      modifies this
      ensures recents == Apply(old(recents), Clear, Some(MAX_RECENTS))
    {
      recents := [];
    }
  }
}
