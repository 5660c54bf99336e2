// Credential-provider quarantine (host/credential/host.go). Every critical
// section of Host.mu is one step; a call into a provider lies between two of
// them, so other callers' steps may come in between. Clock readings are
// parameters: Resolve's gate reads the clock under the lock, recordFailure
// before taking it.
module Quarantine {
  import opened Wrappers

  const MINUTE := 60_000_000_000

  /** The limits of a host; options replace them only by positive values. */
  datatype Limits = Limits(threshold: int, window: int, quarantineFor: int)
  {
    predicate Valid() {
      threshold > 0 && window > 0 && quarantineFor > 0
    }

    function With(threshold: int, window: int, quarantineFor: int): Limits {
      Limits(if threshold > 0 then threshold else this.threshold,
             if window > 0 then window else this.window,
             if quarantineFor > 0 then quarantineFor else this.quarantineFor)
    }
  }

  const DEFAULT_LIMITS := Limits(3, MINUTE, 5 * MINUTE)

  /** What the host knows about one provider. */
  datatype Slot = Slot(registered: bool, failures: int, firstFailAt: Option<int>, until: Option<int>)

  const EMPTY_SLOT := Slot(false, 0, None, None)

  datatype Event =
    | Register
    | Unregister
    | Reinstate
    | Gate(now: int)       // a Resolve asks to be let through
    | Query(now: int)      // Quarantined()
    | Succeed              // recordSuccess
    | Fail(stamp: int)     // recordFailure, with the time it read before locking

  /** What registering looks at. */
  datatype Manifest = Manifest(id: string, isCredential: bool)

  datatype Registration = Registered | NilProvider | WrongKind | RejectedByHost

  datatype Answer = Done | NotFound | Refused | Passed

  /** isQuarantinedLocked: an expired quarantine is forgotten with all its counters. */
  function Expire(s: Slot, now: int): Slot {
    if s.until.Some? && now >= s.until.value then Slot(s.registered, 0, None, None) else s
  }

  function Failed(l: Limits, s: Slot, stamp: int): Slot {
    var restart := s.firstFailAt.None? || stamp - s.firstFailAt.value > l.window;
    var count := if restart then 1 else s.failures + 1;
    if count >= l.threshold then Slot(s.registered, 0, None, Some(stamp + l.quarantineFor))
    else Slot(s.registered, count, if restart then Some(stamp) else s.firstFailAt, s.until)
  }

  function Apply(l: Limits, s: Slot, e: Event): Slot {
    match e
    case Register => s.(registered := true)
    case Unregister => EMPTY_SLOT
    case Reinstate => Slot(s.registered, 0, None, None)
    case Gate(now) => if s.registered then Expire(s, now) else s
    case Query(now) => Expire(s, now)
    case Succeed => s.(failures := 0, firstFailAt := None)
    case Fail(stamp) => Failed(l, s, stamp)
  }

  function AnswerTo(s: Slot, e: Event): Answer {
    match e
    case Gate(now) =>
      if !s.registered then NotFound
      else if Expire(s, now).until.Some? then Refused
      else Passed
    case Query(now) => if Expire(s, now).until.Some? then Refused else Passed
    case _ => Done
  }

  /** The slot after a run from a fresh host. */
  function After(l: Limits, run: seq<Event>): Slot {
    if run == [] then EMPTY_SLOT else Apply(l, After(l, run[..|run| - 1]), run[|run| - 1])
  }

  lemma AfterNext(l: Limits, run: seq<Event>, k: nat)
    requires k < |run|
    ensures After(l, run[..k + 1]) == Apply(l, After(l, run[..k]), run[k])
  {
    assert run[..k + 1][..k] == run[..k];
  }

  // ------------------------------------------------------------------
  // The counter
  // ------------------------------------------------------------------

  predicate CounterBelow(l: Limits, s: Slot) {
    && 0 <= s.failures < l.threshold
    && (s.firstFailAt.Some? <==> s.failures > 0)
  }

  /** Between steps the failure counter is below the threshold and has a first failure exactly when it is positive. */
  lemma {:induction false} CounterStaysBelow(l: Limits, run: seq<Event>)
    requires l.Valid()
    ensures CounterBelow(l, After(l, run))
  {
    if run != [] {
      CounterStaysBelow(l, run[..|run| - 1]);
    }
  }

  // ------------------------------------------------------------------
  // Quarantine is earned
  // ------------------------------------------------------------------

  /** Step k forgets the failures counted so far. */
  predicate Resets(l: Limits, run: seq<Event>, k: nat)
    requires k < |run|
  {
    match run[k]
    case Unregister => true
    case Reinstate => true
    case Succeed => true
    case Gate(now) => After(l, run[..k]).registered && Expired(After(l, run[..k]), now)
    case Query(now) => Expired(After(l, run[..k]), now)
    case _ => false
  }

  predicate Expired(s: Slot, now: int) {
    s.until.Some? && now >= s.until.value
  }

  function Fails(run: seq<Event>): nat {
    if run == [] then 0 else Fails(run[..|run| - 1]) + if run[|run| - 1].Fail? then 1 else 0
  }

  /** From step i up to (not including) step k there are `count` failures, close to the first, and no reset. */
  predicate Streak(l: Limits, run: seq<Event>, i: nat, k: nat, first: int, count: int) {
    && i < k <= |run|
    && run[i] == Fail(first)
    && (forall j | i <= j < k :: !Resets(l, run, j))
    && (forall j | i <= j < k && run[j].Fail? :: run[j].stamp - first <= l.window)
    && Fails(run[i..k]) == count
  }

  lemma StreakStarts(l: Limits, run: seq<Event>, k: nat)
    requires l.Valid() && k < |run| && run[k].Fail?
    ensures Streak(l, run, k, k + 1, run[k].stamp, 1)
  {
    OneFail(run, k);
  }

  lemma StreakGrows(l: Limits, run: seq<Event>, i: nat, k: nat, first: int, count: int)
    requires Streak(l, run, i, k, first, count) && k < |run| && !Resets(l, run, k)
    requires run[k].Fail? ==> run[k].stamp - first <= l.window
    ensures Streak(l, run, i, k + 1, first, count + if run[k].Fail? then 1 else 0)
  {
    hide Resets;
    FailsPush(run, i, k);
  }

  /** A positive counter is the length of a streak that starts at the recorded first failure. */
  lemma {:induction false} CounterIsStreak(l: Limits, run: seq<Event>, k: nat)
    requires l.Valid() && k <= |run|
    ensures var s := After(l, run[..k]);
            s.failures > 0 ==>
              s.firstFailAt.Some? && exists i: nat :: Streak(l, run, i, k, s.firstFailAt.value, s.failures)
  {
    hide After, Streak;
    if k == 0 {
      AtFirst(l, run);
    } else {
      CounterIsStreak(l, run, k - 1);
      CounterStaysBelow(l, run[..k]);
      CounterStaysBelow(l, run[..k - 1]);
      AfterNext(l, run, k - 1);
      var was, s := After(l, run[..k - 1]), After(l, run[..k]);
      if s.failures > 0 {
        if run[k - 1].Fail? && s.failures == 1 {
          StreakStarts(l, run, k - 1);
        } else {
          var i: nat :| Streak(l, run, i, k - 1, was.firstFailAt.value, was.failures);
          StreakGrows(l, run, i, k - 1, was.firstFailAt.value, was.failures);
        }
      }
    }
  }

  lemma AtFirst(l: Limits, run: seq<Event>)
    ensures After(l, run[..0]) == EMPTY_SLOT
  {
  }

  lemma OneFail(run: seq<Event>, k: nat)
    requires k < |run| && run[k].Fail?
    ensures Fails(run[k..k + 1]) == 1
  {
    assert run[k..k + 1] == [run[k]];
    assert [run[k]][..0] == [];
  }

  lemma FailsPush(run: seq<Event>, i: nat, k: nat)
    requires i <= k < |run|
    ensures Fails(run[i..k + 1]) == Fails(run[i..k]) + if run[k].Fail? then 1 else 0
  {
    assert run[i..k + 1][..k - i] == run[i..k];
  }

  /** Step k puts the provider into quarantine. */
  predicate Quarantines(l: Limits, run: seq<Event>, k: nat)
    requires k < |run|
  {
    run[k].Fail? && After(l, run[..k + 1]).until == Some(run[k].stamp + l.quarantineFor)
    && After(l, run[..k + 1]).firstFailAt == None
  }

  /** The steps up to `end` finish with a streak of at least `threshold` failures. */
  predicate Earned(l: Limits, run: seq<Event>, end: nat) {
    exists i | 0 <= i < end :: EarnedFrom(l, run, i, end)
  }

  predicate EarnedFrom(l: Limits, run: seq<Event>, i: nat, end: nat) {
    && i < end <= |run| && run[i].Fail? && Fails(run[i..end]) >= l.threshold
    && Streak(l, run, i, end, run[i].stamp, Fails(run[i..end]))
  }

  /**
   * A quarantine comes only after at least `threshold` recorded failures in a row, the last one included, with no
   * success or other reset among them and each within the window of the first.
   */
  lemma QuarantineIsEarned(l: Limits, run: seq<Event>, k: nat)
    requires l.Valid() && k < |run| && Quarantines(l, run, k)
    ensures Earned(l, run, k + 1)
  {
    hide After, Streak;
    var s := After(l, run[..k]);
    CounterStaysBelow(l, run[..k]);
    CounterIsStreak(l, run, k);
    AfterNext(l, run, k);
    var stamp := run[k].stamp;
    if s.firstFailAt.None? || stamp - s.firstFailAt.value > l.window {
      StreakStarts(l, run, k);
      StreakEarns(l, run, k, k + 1, stamp, 1);
    } else {
      var first := s.firstFailAt.value;
      var i: nat :| Streak(l, run, i, k, first, s.failures);
      StreakGrows(l, run, i, k, first, s.failures);
      StreakEarns(l, run, i, k + 1, first, s.failures + 1);
    }
  }

  lemma StreakEarns(l: Limits, run: seq<Event>, i: nat, end: nat, first: int, n: int)
    requires Streak(l, run, i, end, first, n) && n >= l.threshold
    ensures Earned(l, run, end)
  {
    assert EarnedFrom(l, run, i, end);
  }

  /** The n steps from i on are failures within the window of the first. */
  predicate Burst(l: Limits, run: seq<Event>, i: nat, n: nat, first: int) {
    && i + n <= |run|
    && (n > 0 ==> run[i] == Fail(first))
    && forall j | i <= j < i + n :: run[j].Fail? && run[j].stamp - first <= l.window
  }

  lemma {:induction false} BurstCounts(l: Limits, run: seq<Event>, i: nat, n: nat, first: int)
    requires l.Valid() && Burst(l, run, i, n, first) && 0 < n < l.threshold && After(l, run[..i]).firstFailAt == None
    ensures After(l, run[..i + n]).failures == n && After(l, run[..i + n]).firstFailAt == Some(first)
  {
    hide After;
    CounterStaysBelow(l, run[..i]);
    if n > 1 {
      BurstCounts(l, run, i, n - 1, first);
    }
    AfterNext(l, run, i + n - 1);
  }

  /**
   * Conversely, from a state without counted failures a burst of exactly `threshold` failures within the window of
   * its first puts the provider into quarantine with its last, and not before.
   */
  lemma BurstQuarantines(l: Limits, run: seq<Event>, i: nat, first: int)
    requires l.Valid() && Burst(l, run, i, l.threshold, first) && After(l, run[..i]).firstFailAt == None
    ensures forall k | i <= k < i + l.threshold :: Quarantines(l, run, k) <==> k == i + l.threshold - 1
  {
    hide After;
    CounterStaysBelow(l, run[..i]);
    forall k | i <= k < i + l.threshold
      ensures Quarantines(l, run, k) <==> k == i + l.threshold - 1
    {
      if k < i + l.threshold - 1 {
        BurstCounts(l, run, i, k + 1 - i, first);
      } else if l.threshold > 1 {
        BurstCounts(l, run, i, l.threshold - 1, first);
      }
      AfterNext(l, run, k);
    }
  }

  // ------------------------------------------------------------------
  // Quarantine lasts
  // ------------------------------------------------------------------

  /** The clock readings under the lock never go back. */
  predicate ClockForward(run: seq<Event>) {
    forall i, j | 0 <= i < j < |run| && Reads(run[i]) && Reads(run[j]) :: run[i].now <= run[j].now
  }

  predicate Reads(e: Event) {
    e.Gate? || e.Query?
  }

  /** The failures are recorded in the order of their time stamps. */
  predicate StampsForward(run: seq<Event>) {
    forall i, j | 0 <= i < j < |run| && run[i].Fail? && run[j].Fail? :: run[i].stamp <= run[j].stamp
  }

  /** Nobody lifts the quarantine in steps from..to. */
  predicate NotLifted(run: seq<Event>, from: nat, to: nat) {
    to <= |run| && forall j | from <= j < to :: !run[j].Reinstate? && !run[j].Unregister?
  }

  /** Step j is the last before m that puts the provider into quarantine. */
  predicate LastImposed(l: Limits, run: seq<Event>, j: nat, m: nat) {
    && j < m <= |run| && Quarantines(l, run, j)
    && forall i | j < i < m :: !Quarantines(l, run, i)
  }

  /** When that quarantine runs out. */
  function Expiry(l: Limits, run: seq<Event>, j: nat): int
    requires j < |run| && run[j].Fail?
  {
    run[j].stamp + l.quarantineFor
  }

  /** Step i reads the clock at or past t and acts on it; a Resolve of an unknown provider does not look at it. */
  predicate RunsOut(l: Limits, run: seq<Event>, i: nat, t: int)
    requires i < |run|
  {
    Reads(run[i]) && run[i].now >= t && (run[i].Gate? ==> After(l, run[..i]).registered)
  }

  /** In every run: the expiry is that of the last quarantine, until a reading at or past it. */
  lemma {:induction false} ExpiryExactly(l: Limits, run: seq<Event>, j: nat, m: nat)
    requires l.Valid() && LastImposed(l, run, j, m) && NotLifted(run, j + 1, m)
    ensures After(l, run[..m]).until
         == if exists i :: j < i < m && RunsOut(l, run, i, Expiry(l, run, j)) then None else Some(Expiry(l, run, j))
  {
    hide After;
    if m > j + 1 {
      ExpiryExactly(l, run, j, m - 1);
      AfterNext(l, run, m - 1);
      CounterStaysBelow(l, run[..m - 1]);
      assert !Quarantines(l, run, m - 1);
      if RunsOut(l, run, m - 1, Expiry(l, run, j)) {
        assert j < m - 1 < m;
      }
    }
  }

  /**
   * In every run whose clock does not go back: as long as nobody reinstates or unregisters the provider, a Resolve gets
   * through exactly from the expiry of the last quarantine on.
   */
  lemma GateExactly(l: Limits, run: seq<Event>, j: nat, m: nat)
    requires l.Valid() && m < |run| && LastImposed(l, run, j, m) && NotLifted(run, j + 1, m)
    requires ClockForward(run) && run[m].Gate? && After(l, run[..m]).registered
    ensures AnswerTo(After(l, run[..m]), run[m]) == Passed <==> run[m].now >= Expiry(l, run, j)
  {
    hide After;
    ExpiryExactly(l, run, j, m);
    if i :| j < i < m && RunsOut(l, run, i, Expiry(l, run, j)) {
      assert run[i].now <= run[m].now;
    }
  }

  /** Quarantined() answers by the same rule, whether the provider is registered or not. */
  lemma QueryExactly(l: Limits, run: seq<Event>, j: nat, m: nat)
    requires l.Valid() && m < |run| && LastImposed(l, run, j, m) && NotLifted(run, j + 1, m)
    requires ClockForward(run) && run[m].Query?
    ensures AnswerTo(After(l, run[..m]), run[m]) == Refused <==> run[m].now < Expiry(l, run, j)
  {
    hide After;
    ExpiryExactly(l, run, j, m);
    if i :| j < i < m && RunsOut(l, run, i, Expiry(l, run, j)) {
      assert run[i].now <= run[m].now;
    }
  }

  /** From the start, or from a lifting on, nobody is turned away before the next quarantine. */
  lemma {:induction false} LiftedMeansOpen(l: Limits, run: seq<Event>, from: nat, m: nat, now: int)
    requires l.Valid() && from <= m <= |run|
    requires from == 0 || run[from - 1] == Reinstate || run[from - 1] == Unregister
    requires forall i | from <= i < m :: !Quarantines(l, run, i)
    ensures After(l, run[..m]).until == None
    ensures AnswerTo(After(l, run[..m]), Gate(now)) == if After(l, run[..m]).registered then Passed else NotFound
    ensures AnswerTo(After(l, run[..m]), Query(now)) == Passed
  {
    hide After;
    if m > from {
      LiftedMeansOpen(l, run, from, m - 1, now);
      AfterNext(l, run, m - 1);
      CounterStaysBelow(l, run[..m - 1]);
      assert !Quarantines(l, run, m - 1);
    } else if m == 0 {
      AtFirst(l, run);
    } else {
      AfterNext(l, run, m - 1);
    }
  }

  /** A provider is registered exactly when it was registered and has not been unregistered since. */
  lemma {:induction false} RegisteredExactly(l: Limits, run: seq<Event>)
    ensures After(l, run).registered
       <==> exists i :: 0 <= i < |run| && run[i] == Register && forall j | i < j < |run| :: run[j] != Unregister
  {
    if run != [] {
      var init, last := run[..|run| - 1], run[|run| - 1];
      RegisteredExactly(l, init);
      assert forall i | 0 <= i < |init| :: init[i] == run[i];
      if last == Register {
        assert run[|run| - 1] == Register;
      } else if last != Unregister {
        if i :| 0 <= i < |init| && init[i] == Register && forall j | i < j < |init| :: init[j] != Unregister {
          assert run[i] == Register;
        }
        if i :| 0 <= i < |run| && run[i] == Register && forall j | i < j < |run| :: run[j] != Unregister {
          assert init[i] == Register;
        }
      }
    }
  }

  /** After a quarantine there is a last one. */
  lemma {:induction false} LastOf(l: Limits, run: seq<Event>, k: nat, m: nat) returns (j: nat)
    requires k < m <= |run| && Quarantines(l, run, k)
    ensures k <= j && LastImposed(l, run, j, m)
  {
    hide Quarantines;
    if m == k + 1 {
      j := k;
    } else if Quarantines(l, run, m - 1) {
      j := m - 1;
    } else {
      j := LastOf(l, run, k, m - 1);
    }
  }

  /**
   * Once quarantined, a provider stays so until its expiry: when failures are recorded in the order of their stamps
   * and nobody reinstates or unregisters it, every later Resolve before the expiry is turned away.
   */
  lemma NoResolveUntilExpiry(l: Limits, run: seq<Event>, k: nat, m: nat)
    requires l.Valid() && k < m < |run| && Quarantines(l, run, k)
    requires ClockForward(run) && StampsForward(run) && NotLifted(run, k + 1, m)
    requires run[m].Gate? && run[m].now < Expiry(l, run, k)
    ensures AnswerTo(After(l, run[..m]), run[m]) != Passed
  {
    var j := LastOf(l, run, k, m);
    assert run[k].stamp <= run[j].stamp;
    hide After;
    if After(l, run[..m]).registered {
      GateExactly(l, run, j, m);
    }
  }

  /** Under the same condition the expiry never moves earlier: whenever there is one, it is at least the first. */
  lemma ExpiryHolds(l: Limits, run: seq<Event>, k: nat, m: nat)
    requires l.Valid() && k < m <= |run| && Quarantines(l, run, k)
    requires StampsForward(run) && NotLifted(run, k + 1, m)
    requires forall i | k < i < m && Reads(run[i]) :: run[i].now < Expiry(l, run, k)
    ensures var until := After(l, run[..m]).until; until.Some? && until.value >= Expiry(l, run, k)
  {
    var j := LastOf(l, run, k, m);
    assert run[k].stamp <= run[j].stamp;
    hide After;
    ExpiryExactly(l, run, j, m);
  }

  /**
   * A recorded failure moves the expiry of a quarantined provider earlier exactly when it reaches the threshold with
   * a stamp older than the one the quarantine was imposed with.
   */
  lemma ExpiryMovesBack(l: Limits, s: Slot, imposed: int, stamp: int)
    requires l.Valid() && CounterBelow(l, s) && s.until == Some(imposed + l.quarantineFor)
    ensures var until := Failed(l, s, stamp).until;
            && until.Some?
            && (until.value < s.until.value <==>
                stamp < imposed
                && (if s.firstFailAt.Some? && stamp - s.firstFailAt.value <= l.window then s.failures else 0) + 1
                   >= l.threshold)
  {
  }

  /** The stamps a run may record out of order, with the default limits: six calls fail, three of them late. */
  const LATE_RECORDS := [Register, Fail(20), Fail(20), Fail(20), Fail(10), Fail(10), Fail(10)]

  /**
   * The stamp is read before the lock is taken, so a slow caller can record an older failure after a newer one. Then
   * the expiry does move earlier, and a Resolve gets through before the expiry first announced.
   */
  lemma LateRecordsShortenQuarantine()
    ensures var l, run := DEFAULT_LIMITS, LATE_RECORDS;
            && Quarantines(l, run, 3) && Quarantines(l, run, 6)
            && After(l, run[..4]).until == Some(20 + 5 * MINUTE)
            && After(l, run).until == Some(10 + 5 * MINUTE)
            && AnswerTo(After(l, run), Gate(15 + 5 * MINUTE)) == Passed
  {
    var l, run := DEFAULT_LIMITS, LATE_RECORDS;
    assert run[..0] == [] && run[..7] == run;
    AfterNext(l, run, 0);
    AfterNext(l, run, 1);
    AfterNext(l, run, 2);
    AfterNext(l, run, 3);
    assert After(l, run[..4]) == Slot(true, 0, None, Some(20 + 5 * MINUTE));
    AfterNext(l, run, 4);
    AfterNext(l, run, 5);
    AfterNext(l, run, 6);
  }

  // ------------------------------------------------------------------
  // The host
  // ------------------------------------------------------------------

  class Host {
    var providers: set<string>
    var failures: map<string, int>
    var firstFailAt: map<string, int>
    var quarantined: map<string, int>
    const limits: Limits

    /** The defaults, then the options. */
    constructor (threshold: int, window: int, quarantineFor: int)
      ensures limits.Valid()
      ensures limits.threshold == if threshold > 0 then threshold else 3
      ensures limits.window == if window > 0 then window else 60_000_000_000
      ensures limits.quarantineFor == if quarantineFor > 0 then quarantineFor else 300_000_000_000
      ensures forall id :: SlotOf(id) == EMPTY_SLOT
    {
      providers := {};
      failures := map[];
      firstFailAt := map[];
      quarantined := map[];
      limits := DEFAULT_LIMITS.With(threshold, window, quarantineFor);
    }

    /** What the maps say about one provider; a missing counter reads as zero. */
    ghost function SlotOf(id: string): Slot
      reads this
    {
      Slot(id in providers,
           if id in failures then failures[id] else 0,
           if id in firstFailAt then Some(firstFailAt[id]) else None,
           if id in quarantined then Some(quarantined[id]) else None)
    }

    /** The event happened to this provider and to no other. */
    twostate predicate Took(id: string, e: Event)
      reads this
    {
      && SlotOf(id) == Apply(limits, old(SlotOf(id)), e)
      && forall other | other != id :: SlotOf(other) == old(SlotOf(other))
    }

    /** `manifest` is None for a nil provider; `accepted` is what the plugin host answers. */
    method Register(manifest: Option<Manifest>, accepted: bool) returns (r: Registration)
      modifies this
      ensures r == Registered <==> manifest.Some? && manifest.value.isCredential && accepted
      ensures r == NilProvider <==> manifest.None?
      ensures r == WrongKind <==> manifest.Some? && !manifest.value.isCredential
      ensures r == Registered ==> Took(manifest.value.id, Event.Register)
      ensures r != Registered ==> unchanged(this)
    {
      if manifest.None? {
        return NilProvider;
      }
      if !manifest.value.isCredential {
        return WrongKind;
      }
      if !accepted {
        return RejectedByHost;
      }
      providers := providers + {manifest.value.id};
      return Registered;
    }

    method Unregister(id: string)
      modifies this
      ensures Took(id, Event.Unregister)
    {
      providers := providers - {id};
      failures := failures - {id};
      firstFailAt := firstFailAt - {id};
      quarantined := quarantined - {id};
    }

    method Reinstate(id: string)
      modifies this
      ensures Took(id, Event.Reinstate)
    {
      quarantined := quarantined - {id};
      failures := failures - {id};
      firstFailAt := firstFailAt - {id};
    }

    method IsQuarantinedLocked(id: string, now: int) returns (yes: bool)
      modifies this
      ensures Took(id, Query(now))
      ensures yes <==> AnswerTo(old(SlotOf(id)), Query(now)) == Refused
      ensures providers == old(providers)
    {
      if id !in quarantined {
        return false;
      }
      var until := quarantined[id];
      if !(now < until) {
        quarantined := quarantined - {id};
        failures := failures - {id};
        firstFailAt := firstFailAt - {id};
        return false;
      }
      return true;
    }

    /** The first half of Resolve: whether the call may go to the provider. */
    method Admit(id: string, now: int) returns (answer: Answer)
      modifies this
      ensures id == "" ==> answer == NotFound && unchanged(this)
      ensures id != "" ==> Took(id, Gate(now)) && answer == AnswerTo(old(SlotOf(id)), Gate(now))
    {
      if id == "" {
        return NotFound;
      }
      if id !in providers {
        return NotFound;
      }
      var quarantined := IsQuarantinedLocked(id, now);
      if quarantined {
        return Refused;
      }
      return Passed;
    }

    method RecordSuccess(id: string)
      modifies this
      ensures Took(id, Succeed)
    {
      failures := failures - {id};
      firstFailAt := firstFailAt - {id};
    }

    method RecordFailure(id: string, now: int)
      modifies this
      ensures Took(id, Fail(now))
    {
      if id !in firstFailAt || now - firstFailAt[id] > limits.window {
        failures := failures[id := 1];
        firstFailAt := firstFailAt[id := now];
      } else {
        failures := failures[id := (if id in failures then failures[id] else 0) + 1];
      }
      if failures[id] >= limits.threshold {
        var until := now + limits.quarantineFor;
        quarantined := quarantined[id := until];
        failures := failures[id := 0];
        firstFailAt := firstFailAt - {id};
      }
    }
  }
}
