// The event bus (internal/eventbus/bus.go) as an interleaved step system.
//
// A section under the write lock is one step, enabled only while no publisher
// holds the read lock; a publisher holds the read lock from StartPublish to
// EndPublish and offers its event to one subscriber at a time. What happens
// outside the lock (closing a channel, closing `done`) is a step of its own.
module EventBus {
  import opened Tally

  /** What is left of the goroutine that watches a subscription's context. */
  datatype Watcher = Watching | OwesClose | Finished

  /** A subscription ever made: its channel, its drop counter, and the publishes that saw it. */
  datatype Sub = Sub(cap: nat, queued: nat, receiving: bool, closings: nat, cancelled: bool, watcher: Watcher,
                     delivered: nat, dropped: nat, seen: nat)
  {
    predicate HasRoom() {
      receiving || queued < cap
    }
  }

  /** A Publish call: whom it still has to offer the event, and whether a drop is not yet on the bus counter. */
  datatype Publisher = Publisher(active: bool, todo: set<nat>, owesDrop: bool)

  /** Where the one effective Close call is. */
  datatype Closer = NotCalled | AboutToClose | ClosingSubs

  datatype Bus = Bus(subs: set<nat>, closed: bool, doneClosings: nat, published: nat, dropped: nat,
                     table: seq<Sub>, publishers: seq<Publisher>, closer: Closer, toClose: set<nat>, panicked: bool)

  const EMPTY_BUS := Bus({}, false, 0, 0, 0, [], [], NotCalled, {}, false)

  datatype Action =
    | Subscribe(buffer: int)
    | CancelContext(i: nat)
    | RemoveSub(i: nat)          // the critical section of removeSub
    | CloseChannel(i: nat)       // close(s.ch) by removeSub, or by a Subscribe on a closed bus
    | StartPublish               // RLock, up to the loop
    | Offer(p: nat, i: nat)      // one turn of the loop; on a drop, up to the subscription's own counter
    | CountDrop(p: nat)          // b.dropped.Add(1)
    | EndPublish(p: nat)         // RUnlock
    | Close                      // the critical section of Close
    | CloseDone                  // close(b.done)
    | CloseNext(i: nat)          // one turn of Close's loop
    | StartReceive(i: nat)
    | Receive(i: nat)

  predicate NoReaders(b: Bus) {
    forall p | 0 <= p < |b.publishers| :: !b.publishers[p].active
  }

  predicate Enabled(b: Bus, a: Action) {
    match a
    case Subscribe(_) => NoReaders(b)
    case CancelContext(i) => i < |b.table|
    case RemoveSub(i) =>
      NoReaders(b) && i < |b.table| && b.table[i].watcher == Watching
      && (b.table[i].cancelled || b.doneClosings > 0)
    case CloseChannel(i) => i < |b.table| && b.table[i].watcher == OwesClose
    case StartPublish => true
    case Offer(p, i) =>
      p < |b.publishers| && b.publishers[p].active && !b.publishers[p].owesDrop
      && i in b.publishers[p].todo && i < |b.table|
    case CountDrop(p) => p < |b.publishers| && b.publishers[p].active && b.publishers[p].owesDrop
    case EndPublish(p) =>
      p < |b.publishers| && b.publishers[p].active && !b.publishers[p].owesDrop && b.publishers[p].todo == {}
    case Close => NoReaders(b)
    case CloseDone => b.closer == AboutToClose
    case CloseNext(i) => b.closer == ClosingSubs && i in b.toClose && i < |b.table|
    case StartReceive(i) => i < |b.table| && !b.table[i].receiving && b.table[i].queued == 0
    case Receive(i) => i < |b.table| && b.table[i].queued > 0
  }

  /** close(ch): closing a closed channel panics. */
  function ChannelClosed(b: Bus, i: nat): Bus
    requires i < |b.table|
  {
    b.(table := b.table[i := b.table[i].(closings := b.table[i].closings + 1)],
       panicked := b.panicked || b.table[i].closings > 0)
  }

  /** A non-blocking send: sending on a closed channel panics. */
  function Offered(b: Bus, p: nat, i: nat): Bus
    requires p < |b.publishers| && i < |b.table|
  {
    var s, pub := b.table[i], b.publishers[p];
    if s.closings > 0 then b.(panicked := true)
    else if s.HasRoom() then
      b.(table := b.table[i := s.(delivered := s.delivered + 1, receiving := false,
                                  queued := if s.receiving then s.queued else s.queued + 1)],
         publishers := b.publishers[p := pub.(todo := pub.todo - {i})])
    else
      b.(table := b.table[i := s.(dropped := s.dropped + 1)],
         publishers := b.publishers[p := pub.(todo := pub.todo - {i}, owesDrop := true)])
  }

  function SeenBy(table: seq<Sub>, subs: set<nat>): (r: seq<Sub>)
    ensures |r| == |table|
    ensures forall i | 0 <= i < |table| :: r[i] == if i in subs then table[i].(seen := table[i].seen + 1) else table[i]
  {
    seq(|table|, i requires 0 <= i < |table| =>
      if i in subs then table[i].(seen := table[i].seen + 1) else table[i])
  }

  function Do(b: Bus, a: Action): Bus
    requires Enabled(b, a)
  {
    match a
    case Subscribe(buffer) =>
      var cap := if buffer < 0 then 0 else buffer;
      if b.closed then b.(table := b.table + [Sub(cap, 0, false, 0, false, OwesClose, 0, 0, 0)])
      else b.(table := b.table + [Sub(cap, 0, false, 0, false, Watching, 0, 0, 0)], subs := b.subs + {|b.table|})
    case CancelContext(i) => b.(table := b.table[i := b.table[i].(cancelled := true)])
    case RemoveSub(i) =>
      if i !in b.subs then b.(table := b.table[i := b.table[i].(watcher := Finished)])
      else
        b.(subs := b.subs - {i},
           table := b.table[i := b.table[i].(watcher := if b.closed then Finished else OwesClose)])
    case CloseChannel(i) =>
      var c := ChannelClosed(b, i);
      c.(table := c.table[i := c.table[i].(watcher := Finished)])
    case StartPublish =>
      if b.closed then b
      else
        b.(published := b.published + 1, table := SeenBy(b.table, b.subs),
           publishers := b.publishers + [Publisher(true, b.subs, false)])
    case Offer(p, i) => Offered(b, p, i)
    case CountDrop(p) =>
      b.(dropped := b.dropped + 1, publishers := b.publishers[p := b.publishers[p].(owesDrop := false)])
    case EndPublish(p) => b.(publishers := b.publishers[p := b.publishers[p].(active := false)])
    case Close =>
      if b.closed then b else b.(closed := true, closer := AboutToClose, toClose := b.subs, subs := {})
    case CloseDone =>
      b.(doneClosings := b.doneClosings + 1, panicked := b.panicked || b.doneClosings > 0,
         closer := ClosingSubs)
    case CloseNext(i) => ChannelClosed(b, i).(toClose := b.toClose - {i})
    case StartReceive(i) => b.(table := b.table[i := b.table[i].(receiving := true)])
    case Receive(i) => b.(table := b.table[i := b.table[i].(queued := b.table[i].queued - 1)])
  }

  /** The bus after a run; an action that is not enabled cannot happen and changes nothing. */
  function After(run: seq<Action>): Bus {
    if run == [] then EMPTY_BUS else Next(After(run[..|run| - 1]), run[|run| - 1])
  }

  function Next(b: Bus, a: Action): Bus {
    if Enabled(b, a) then Do(b, a) else b
  }

  // ------------------------------------------------------------------
  // What every step keeps
  // ------------------------------------------------------------------

  /**
   * Who will close the channel of i: nobody needs to if it is closed already; otherwise exactly one of the watcher
   * still on duty (i is registered), the Close call, and a removeSub that has unregistered it.
   */
  predicate OneOwner(b: Bus, i: nat)
    requires i < |b.table|
  {
    var s := b.table[i];
    && s.closings <= 1
    && (i in b.subs ==> s.watcher == Watching && s.closings == 0 && i !in b.toClose)
    && (i in b.toClose ==> s.watcher != OwesClose && s.closings == 0)
    && (s.watcher == OwesClose ==> s.closings == 0)
    && (s.closings == 0 ==> i in b.subs || i in b.toClose || s.watcher == OwesClose)
  }

  predicate Owned(b: Bus) {
    forall i | 0 <= i < |b.table| :: OneOwner(b, i)
  }

  predicate Registered(b: Bus) {
    && (forall i | i in b.subs :: i < |b.table|)
    && (forall i | i in b.toClose :: i < |b.table|)
    && (b.closed <==> b.closer != NotCalled)
    && (b.closer == NotCalled ==> b.toClose == {})
    && (b.closed ==> b.subs == {})
    && b.doneClosings == (if b.closer == ClosingSubs then 1 else 0)
  }

  /** A publisher at work offers only to registered subscriptions; one that is done owes nothing. */
  predicate PublishersSound(b: Bus) {
    forall p | 0 <= p < |b.publishers| ::
      var pub := b.publishers[p];
      pub.todo <= b.subs && (!pub.active ==> pub.todo == {} && !pub.owesDrop)
  }

  function AwaitedBy(i: nat): Publisher -> int {
    (p: Publisher) => if i in p.todo then 1 else 0
  }

  function Owes(): Publisher -> int {
    (p: Publisher) => if p.owesDrop then 1 else 0
  }

  function DropsOf(): Sub -> int {
    (s: Sub) => s.dropped
  }

  /** Every publish that saw i delivered to it, was dropped for it, or has still to reach it. */
  predicate Counted(b: Bus, i: nat)
    requires i < |b.table|
  {
    b.table[i].delivered + b.table[i].dropped + Total(b.publishers, AwaitedBy(i)) == b.table[i].seen
  }

  predicate AllCounted(b: Bus) {
    forall i | 0 <= i < |b.table| :: Counted(b, i)
  }

  predicate DropsAgree(b: Bus) {
    b.dropped + Total(b.publishers, Owes()) == Total(b.table, DropsOf())
  }

  predicate Sound(b: Bus) {
    !b.panicked && Registered(b) && Owned(b) && PublishersSound(b) && AllCounted(b) && DropsAgree(b)
  }

  lemma StepSafe(b: Bus, a: Action)
    requires Sound(b) && Enabled(b, a)
    ensures !Do(b, a).panicked && Registered(Do(b, a)) && Owned(Do(b, a))
  {
    hide AllCounted, DropsAgree, Counted;
    var c := Do(b, a);
    if a.Offer? {
      assert a.i in b.subs && OneOwner(b, a.i);
    } else if a.CloseChannel? || a.CloseNext? {
      assert OneOwner(b, a.i);
    }
    forall i | 0 <= i < |c.table|
      ensures OneOwner(c, i)
    {
      if i < |b.table| {
        assert OneOwner(b, i);
      }
    }
  }

  lemma StepPublishers(b: Bus, a: Action)
    requires Sound(b) && Enabled(b, a)
    ensures PublishersSound(Do(b, a))
  {
    hide AllCounted, DropsAgree, Counted, Owned;
  }

  /** Only these actions touch the counters; every other leaves each subscription's books as they are. */
  predicate Accounting(a: Action) {
    a.Subscribe? || a.StartPublish? || a.Offer? || a.CountDrop? || a.EndPublish?
  }

  /** Nothing was delivered, dropped or seen between b and c. */
  predicate SameBooks(b: Bus, c: Bus) {
    && c.publishers == b.publishers && c.dropped == b.dropped && |c.table| == |b.table|
    && forall k | 0 <= k < |b.table| ::
         c.table[k].delivered == b.table[k].delivered && c.table[k].dropped == b.table[k].dropped
         && c.table[k].seen == b.table[k].seen
  }

  lemma QuietCounts(b: Bus, a: Action)
    requires Sound(b) && Enabled(b, a) && !Accounting(a)
    ensures AllCounted(Do(b, a)) && DropsAgree(Do(b, a))
  {
    hide Owned, PublishersSound, Registered, AllCounted, DropsAgree;
    assert SameBooks(b, Do(b, a));
    hide Do, Enabled, Accounting, SameBooks;
    SameBooksCount(b, Do(b, a));
  }

  lemma SameBooksCount(b: Bus, c: Bus)
    requires SameBooks(b, c) && AllCounted(b) && DropsAgree(b)
    ensures AllCounted(c) && DropsAgree(c)
  {
    TotalSame(b.table, c.table, DropsOf());
    hide Total;
    forall i | 0 <= i < |c.table|
      ensures Counted(c, i)
    {
      assert Counted(b, i);
    }
  }

  lemma SubscribeCounts(b: Bus, buffer: int)
    requires Sound(b) && NoReaders(b)
    ensures AllCounted(Do(b, Subscribe(buffer))) && DropsAgree(Do(b, Subscribe(buffer)))
  {
    var c, n := Do(b, Subscribe(buffer)), |b.table|;
    assert c.table == b.table + [c.table[n]] && c.publishers == b.publishers && c.dropped == b.dropped;
    assert n !in b.subs;
    hide Do, Enabled, NoReaders, Registered, Owned;
    NewSubCounts(b, c, c.table[n]);
  }

  lemma NewSubCounts(b: Bus, c: Bus, s: Sub)
    requires PublishersSound(b) && |b.table| !in b.subs && AllCounted(b) && DropsAgree(b)
    requires c.table == b.table + [s] && c.publishers == b.publishers && c.dropped == b.dropped
    requires s.delivered == s.dropped == s.seen == 0
    ensures AllCounted(c) && DropsAgree(c)
  {
    var n := |b.table|;
    TotalPush(b.table, s, DropsOf());
    NotAwaited(b, n);
    hide PublishersSound, Total;
    forall i | 0 <= i < |c.table|
      ensures Counted(c, i)
    {
      if i < n {
        assert Counted(b, i);
      }
    }
  }

  /** Nobody offers anything to a subscription that does not exist yet. */
  lemma NotAwaited(b: Bus, n: nat)
    requires PublishersSound(b) && n !in b.subs
    ensures Total(b.publishers, AwaitedBy(n)) == 0
  {
    forall p | 0 <= p < |b.publishers|
      ensures AwaitedBy(n)(b.publishers[p]) == 0
    {
      assert b.publishers[p].todo <= b.subs;
    }
    TotalZero(b.publishers, AwaitedBy(n));
  }

  lemma StartPublishCounts(b: Bus)
    requires Sound(b)
    ensures AllCounted(Do(b, StartPublish)) && DropsAgree(Do(b, StartPublish))
  {
    hide Owned, PublishersSound, Registered;
    if !b.closed {
      var c := Do(b, StartPublish);
      var pub := Publisher(true, b.subs, false);
      TotalPush(b.publishers, pub, Owes());
      SeenDrops(b.table, b.subs);
      hide SeenBy, Total;
      forall i | 0 <= i < |c.table|
        ensures Counted(c, i)
      {
        assert Counted(b, i);
        TotalPush(b.publishers, pub, AwaitedBy(i));
      }
    }
  }

  lemma {:induction false} SeenDrops(table: seq<Sub>, subs: set<nat>)
    ensures Total(SeenBy(table, subs), DropsOf()) == Total(table, DropsOf())
  {
    if table != [] {
      var n := |table| - 1;
      SeenDrops(table[..n], subs);
      assert SeenBy(table, subs)[..n] == SeenBy(table[..n], subs);
    }
  }

  lemma PublisherCounts(b: Bus, a: Action)
    requires Sound(b) && Enabled(b, a) && (a.CountDrop? || a.EndPublish?)
    ensures AllCounted(Do(b, a)) && DropsAgree(Do(b, a))
  {
    var c := Do(b, a);
    TotalUpdate(b.publishers, a.p, c.publishers[a.p], Owes());
    forall i | 0 <= i < |c.table|
      ensures Counted(c, i)
    {
      assert Counted(b, i);
      TotalUpdate(b.publishers, a.p, c.publishers[a.p], AwaitedBy(i));
    }
  }

  lemma OfferCounts(b: Bus, p: nat, i: nat)
    requires Sound(b) && Enabled(b, Offer(p, i))
    ensures AllCounted(Do(b, Offer(p, i))) && DropsAgree(Do(b, Offer(p, i)))
  {
    var c := Do(b, Offer(p, i));
    assert i in b.subs && OneOwner(b, i);
    hide AllCounted, DropsAgree, Owned, Registered, PublishersSound;
    assert c.table == b.table[i := c.table[i]] && c.publishers == b.publishers[p := c.publishers[p]];
    assert c.dropped == b.dropped;
    hide Do, Enabled, Offered;
    OfferedCounts(b, c, p, i);
  }

  /** One offer moves a publish from owed to delivered or dropped, and a drop is owed to the bus counter. */
  lemma OfferedCounts(b: Bus, c: Bus, p: nat, i: nat)
    requires AllCounted(b) && DropsAgree(b) && p < |b.publishers| && i < |b.table| && i in b.publishers[p].todo
    requires |c.table| > i && |c.publishers| > p && c.dropped == b.dropped
    requires c.table == b.table[i := c.table[i]] && c.publishers == b.publishers[p := c.publishers[p]]
    requires c.publishers[p].todo == b.publishers[p].todo - {i} && !b.publishers[p].owesDrop
    requires var s, s' := b.table[i], c.table[i];
             && s'.seen == s.seen && s'.delivered + s'.dropped == s.delivered + s.dropped + 1
             && s'.dropped == s.dropped + (if c.publishers[p].owesDrop then 1 else 0)
    ensures AllCounted(c) && DropsAgree(c)
  {
    TotalUpdate(b.publishers, p, c.publishers[p], Owes());
    TotalUpdate(b.table, i, c.table[i], DropsOf());
    hide Total;
    forall k | 0 <= k < |c.table|
      ensures Counted(c, k)
    {
      assert Counted(b, k);
      TotalUpdate(b.publishers, p, c.publishers[p], AwaitedBy(k));
    }
  }

  lemma StepSound(b: Bus, a: Action)
    requires Sound(b)
    ensures Sound(Next(b, a))
  {
    hide Do, Registered, Owned, PublishersSound, AllCounted, DropsAgree;
    if Enabled(b, a) {
      StepSafe(b, a);
      StepPublishers(b, a);
      match a
      case Subscribe(buffer) => SubscribeCounts(b, buffer);
      case StartPublish => StartPublishCounts(b);
      case Offer(p, i) => OfferCounts(b, p, i);
      case CountDrop(_) => PublisherCounts(b, a);
      case EndPublish(_) => PublisherCounts(b, a);
      case _ => QuietCounts(b, a);
    }
  }

  lemma {:induction false} RunSound(run: seq<Action>)
    ensures Sound(After(run))
  {
    if run == [] {
      assert Sound(EMPTY_BUS);
    } else {
      RunSound(run[..|run| - 1]);
      StepSound(After(run[..|run| - 1]), run[|run| - 1]);
    }
  }

  // ------------------------------------------------------------------
  // What a user of the bus may rely on
  // ------------------------------------------------------------------

  /** In every interleaving no channel is closed twice, none is sent to after it was closed, nothing panics. */
  lemma NoPanic(run: seq<Action>)
    ensures !After(run).panicked
    ensures After(run).doneClosings <= 1
    ensures forall i | 0 <= i < |After(run).table| :: After(run).table[i].closings <= 1
  {
    RunSound(run);
    var b := After(run);
    forall i | 0 <= i < |b.table|
      ensures b.table[i].closings <= 1
    {
      assert OneOwner(b, i);
    }
  }

  /** A subscription's publishes are all accounted for whenever no Publish is under way. */
  lemma PublishesAccountedFor(run: seq<Action>)
    requires NoReaders(After(run))
    ensures forall i | 0 <= i < |After(run).table| ::
              var s := After(run).table[i]; s.delivered + s.dropped == s.seen
    ensures After(run).dropped == Total(After(run).table, DropsOf())
  {
    RunSound(run);
    var b := After(run);
    TotalZero(b.publishers, Owes());
    forall i | 0 <= i < |b.table|
      ensures b.table[i].delivered + b.table[i].dropped == b.table[i].seen
    {
      assert Counted(b, i);
      TotalZero(b.publishers, AwaitedBy(i));
    }
  }

  // ------------------------------------------------------------------
  // What arrives
  // ------------------------------------------------------------------

  /**
   * An event offered to a subscription arrives if a receiver waits or the buffer is not full, and is dropped otherwise;
   * no other subscription notices.
   */
  lemma OfferExactly(run: seq<Action>, p: nat, i: nat)
    requires var b := After(run); p < |b.publishers| && i in b.publishers[p].todo && !b.publishers[p].owesDrop
    ensures var b, c := After(run), After(run + [Offer(p, i)]);
            && i < |b.table| && |c.table| == |b.table| && !c.panicked && |c.publishers| == |b.publishers|
            && (forall k | 0 <= k < |b.table| && k != i :: c.table[k] == b.table[k])
            && c.publishers[p].todo == b.publishers[p].todo - {i} && c.dropped == b.dropped
    ensures var b, c := After(run), After(run + [Offer(p, i)]);
            var s, t := b.table[i], c.table[i];
            if s.receiving || s.queued < s.cap then
              && t.delivered == s.delivered + 1 && t.dropped == s.dropped && !t.receiving
              && t.queued == (if s.receiving then s.queued else s.queued + 1) && !c.publishers[p].owesDrop
            else
              t.dropped == s.dropped + 1 && t.delivered == s.delivered && t.queued == s.queued
              && c.publishers[p].owesDrop
  {
    RunSound(run);
    AfterMore(run, Offer(p, i));
    var b := After(run);
    assert b.publishers[p].todo <= b.subs;
    assert i in b.subs && OneOwner(b, i);
    hide After, AllCounted, DropsAgree, Owned, OneOwner;
  }

  lemma AfterMore(run: seq<Action>, a: Action)
    ensures After(run + [a]) == Next(After(run), a)
  {
    assert (run + [a])[..|run|] == run;
  }

  /**
   * A publish on a closed bus does nothing. Otherwise it is counted, every registered subscription has seen it, and
   * exactly those are offered it.
   */
  lemma PublishExactly(run: seq<Action>)
    ensures var b, c := After(run), After(run + [StartPublish]);
            if b.closed then c == b
            else
              && c.published == b.published + 1 && |c.table| == |b.table| && c.subs == b.subs && !c.closed
              && |c.publishers| == |b.publishers| + 1 && c.publishers[..|b.publishers|] == b.publishers
              && c.publishers[|b.publishers|].active && c.publishers[|b.publishers|].todo == b.subs
              && forall i | 0 <= i < |b.table| ::
                   c.table[i] == b.table[i].(seen := b.table[i].seen + if i in b.subs then 1 else 0)
  {
    AfterMore(run, StartPublish);
    hide After;
  }

  /** A new subscription has an empty buffer of the size asked for and is registered unless the bus is closed. */
  lemma SubscribeExactly(run: seq<Action>, buffer: int)
    requires forall p | 0 <= p < |After(run).publishers| :: !After(run).publishers[p].active
    ensures var b, c := After(run), After(run + [Subscribe(buffer)]);
            var s := |b.table|;
            && |c.table| == s + 1 && c.table[..s] == b.table && c.publishers == b.publishers
            && c.table[s].cap == (if buffer > 0 then buffer else 0) && c.table[s].queued == 0
            && !c.table[s].receiving && c.table[s].closings == 0
            && c.table[s].delivered == c.table[s].dropped == c.table[s].seen == 0
            && c.subs == (if b.closed then b.subs else b.subs + {s})
            && (c.table[s].watcher == OwesClose <==> b.closed)
  {
    AfterMore(run, Subscribe(buffer));
    hide After;
  }

  /** A cancelled context stays with its subscription, and lets its watcher take it off the bus. */
  lemma CancelExactly(run: seq<Action>, i: nat)
    requires i < |After(run).table|
    ensures var b, c := After(run), After(run + [CancelContext(i)]);
            c == b.(table := b.table[i := b.table[i].(cancelled := true)])
    ensures var c := After(run + [CancelContext(i)]);
            (forall p | 0 <= p < |c.publishers| :: !c.publishers[p].active) && c.table[i].watcher == Watching ==>
              var d := After(run + [CancelContext(i)] + [RemoveSub(i)]);
              d.subs == c.subs - {i} && |d.table| == |c.table| && d.table[i].watcher != Watching
  {
    AfterMore(run, CancelContext(i));
    AfterMore(run + [CancelContext(i)], RemoveSub(i));
    hide After;
  }

  /** Close takes every subscription off the bus and will close each of them; a second Close does nothing. */
  lemma CloseExactly(run: seq<Action>)
    requires forall p | 0 <= p < |After(run).publishers| :: !After(run).publishers[p].active
    ensures var b, c := After(run), After(run + [Close]);
            if b.closed then c == b else c == b.(closed := true, closer := AboutToClose, toClose := b.subs, subs := {})
  {
    AfterMore(run, Close);
    hide After;
  }

  /** How many events the subscriber has taken: from its buffer, or handed over while it waited. */
  ghost function Received(run: seq<Action>, i: nat): nat {
    if run == [] then 0
    else
      var before, a := After(run[..|run| - 1]), run[|run| - 1];
      Received(run[..|run| - 1], i) + if i < |before.table| && Takes(before, a, i) then 1 else 0
  }

  ghost predicate Takes(b: Bus, a: Action, i: nat)
    requires i < |b.table|
  {
    || (a == Receive(i) && b.table[i].queued > 0)
    || (a.Offer? && a.i == i && b.table[i].receiving
        && a.p < |b.publishers| && i in b.publishers[a.p].todo && !b.publishers[a.p].owesDrop)
  }

  /** What was delivered has been taken or waits in the buffer, which never holds more than it is made for. */
  lemma {:induction false} NothingLost(run: seq<Action>, i: nat)
    requires i < |After(run).table|
    ensures var s := After(run).table[i]; s.delivered == s.queued + Received(run, i) && s.queued <= s.cap
  {
    hide Next, Sound, Takes;
    if run == [] {
      assert false;
    } else {
      var b, a := After(run[..|run| - 1]), run[|run| - 1];
      RunSound(run[..|run| - 1]);
      if i < |b.table| {
        NothingLost(run[..|run| - 1], i);
        StepTakes(b, a, i);
      } else {
        NoneReceived(run, i);
        FirstSeen(b, a, i);
      }
    }
  }

  lemma StepTakes(b: Bus, a: Action, i: nat)
    requires Sound(b) && i < |b.table| && b.table[i].queued <= b.table[i].cap
    ensures var c := Next(b, a);
            && i < |c.table| && c.table[i].queued <= c.table[i].cap
            && c.table[i].delivered - c.table[i].queued
               == b.table[i].delivered - b.table[i].queued + if Takes(b, a, i) then 1 else 0
  {
    hide AllCounted, DropsAgree;
    assert OneOwner(b, i);
    if a.Offer? && Enabled(b, a) {
      assert b.publishers[a.p].todo <= b.subs;
    }
    hide Owned, OneOwner, PublishersSound, NoReaders;
  }

  lemma {:induction false} NoneReceived(run: seq<Action>, i: nat)
    requires run != [] && i >= |After(run[..|run| - 1]).table|
    ensures Received(run, i) == 0
  {
    var before := run[..|run| - 1];
    if before != [] {
      TableGrows(After(before[..|before| - 1]), before[|before| - 1]);
      NoneReceived(before, i);
    }
  }

  lemma TableGrows(b: Bus, a: Action)
    ensures |b.table| <= |Next(b, a).table|
  {
  }

  lemma FirstSeen(b: Bus, a: Action, i: nat)
    requires |b.table| <= i < |Next(b, a).table|
    ensures Next(b, a).table[i].delivered == Next(b, a).table[i].dropped == Next(b, a).table[i].queued == 0
  {
  }

  /** Whenever something is offered to i, a receiver waits or the buffer is not full. */
  ghost predicate AlwaysRoom(run: seq<Action>, i: nat) {
    forall n | 0 <= n < |run| && run[n].Offer? && run[n].i == i && i < |After(run[..n]).table| ::
      After(run[..n]).table[i].receiving || After(run[..n]).table[i].queued < After(run[..n]).table[i].cap
  }

  lemma RoomBefore(run: seq<Action>, i: nat)
    requires AlwaysRoom(run, i) && run != []
    ensures AlwaysRoom(run[..|run| - 1], i)
    ensures var b, a := After(run[..|run| - 1]), run[|run| - 1];
            i < |b.table| && a.Offer? && a.i == i ==> b.table[i].receiving || b.table[i].queued < b.table[i].cap
  {
    hide After;
    var before := run[..|run| - 1];
    forall n | 0 <= n < |before|
      ensures before[n] == run[n] && before[..n] == run[..n]
    {
    }
  }

  lemma {:induction false} RoomMeansNoDrop(run: seq<Action>, i: nat)
    requires AlwaysRoom(run, i) && i < |After(run).table|
    ensures After(run).table[i].dropped == 0
  {
    hide Next, AlwaysRoom;
    if run == [] {
      assert false;
    } else {
      var before, a := run[..|run| - 1], run[|run| - 1];
      RoomBefore(run, i);
      if i < |After(before).table| {
        RoomMeansNoDrop(before, i);
        RoomKeepsDrops(After(before), a, i);
      } else {
        FirstSeen(After(before), a, i);
      }
    }
  }

  lemma RoomKeepsDrops(b: Bus, a: Action, i: nat)
    requires i < |b.table|
    requires a.Offer? && a.i == i ==> b.table[i].receiving || b.table[i].queued < b.table[i].cap
    ensures i < |Next(b, a).table| && Next(b, a).table[i].dropped == b.table[i].dropped
  {
  }

  /** A subscription that always has room is delivered every event it has seen. */
  lemma RoomMeansDelivered(run: seq<Action>, i: nat)
    requires AlwaysRoom(run, i) && i < |After(run).table|
    requires forall p | 0 <= p < |After(run).publishers| :: !After(run).publishers[p].active
    ensures After(run).table[i].delivered == After(run).table[i].seen
  {
    RoomMeansNoDrop(run, i);
    PublishesAccountedFor(run);
  }

  /** While publishers are at work, the bus counter lags behind the subscriptions by at most one drop for each. */
  lemma DropsLagBehind(run: seq<Action>)
    ensures var b := After(run);
            b.dropped <= Total(b.table, DropsOf()) <= b.dropped + |b.publishers|
  {
    RunSound(run);
    var b := After(run);
    TotalAtMost(b.publishers);
  }

  lemma {:induction false} TotalAtMost(s: seq<Publisher>)
    ensures 0 <= Total(s, Owes()) <= |s|
  {
    if s != [] {
      TotalAtMost(s[..|s| - 1]);
    }
  }

  /** Every channel is closed, exactly once, when the bus was closed, Close has returned and the watchers are done. */
  lemma AllClosedInTheEnd(run: seq<Action>)
    requires var b := After(run);
             && b.closer == ClosingSubs && b.toClose == {}
             && forall i | 0 <= i < |b.table| :: b.table[i].watcher == Finished
    ensures forall i | 0 <= i < |After(run).table| :: After(run).table[i].closings == 1
  {
    RunSound(run);
    var b := After(run);
    forall i | 0 <= i < |b.table|
      ensures b.table[i].closings == 1
    {
      assert OneOwner(b, i);
    }
  }

  /** A subscription whose watcher has finished is closed, or Close is about to close it. */
  lemma FinishedWatcherMeansClosed(run: seq<Action>, i: nat)
    requires i < |After(run).table| && After(run).table[i].watcher == Finished
    ensures After(run).table[i].closings == 1 || (After(run).closed && i in After(run).toClose)
  {
    RunSound(run);
    assert OneOwner(After(run), i);
  }

  /** A publisher at work has a step of its own: no Publish call ever waits. */
  ghost predicate PublisherMoves(b: Bus, p: nat) {
    Enabled(b, CountDrop(p)) || Enabled(b, EndPublish(p)) || exists i :: Enabled(b, Offer(p, i))
  }

  lemma PublishersMove(run: seq<Action>, p: nat)
    requires p < |After(run).publishers| && After(run).publishers[p].active
    ensures PublisherMoves(After(run), p)
  {
    RunSound(run);
    var b := After(run);
    hide After, AllCounted, DropsAgree, Owned;
    if !b.publishers[p].owesDrop && b.publishers[p].todo != {} {
      var i :| i in b.publishers[p].todo;
      assert i in b.subs && Enabled(b, Offer(p, i));
    }
  }

  /**
   * Closing never gets stuck: as long as a channel is open although the bus is closed or the subscription's context is
   * cancelled, some step towards closing it is enabled, or it waits for publishers at work, each of which can go on.
   */
  lemma ClosingNeverStalls(run: seq<Action>, i: nat)
    requires var b := After(run); i < |b.table| && b.table[i].closings == 0 && (b.closed || b.table[i].cancelled)
    ensures var b := After(run);
            || Enabled(b, CloseDone) || Enabled(b, CloseNext(i)) || Enabled(b, CloseChannel(i))
            || Enabled(b, RemoveSub(i)) || exists p :: PublisherMoves(b, p)
  {
    RunSound(run);
    var b := After(run);
    assert OneOwner(b, i);
    if !NoReaders(b) {
      var p: nat :| p < |b.publishers| && b.publishers[p].active;
      PublishersMove(run, p);
    }
  }

  /** How many steps are left at most until the channel of i is closed. */
  function StepsLeft(b: Bus, i: nat): nat
    requires i < |b.table|
  {
    if b.table[i].closings > 0 then 0
    else if i in b.subs then 3
    else if i in b.toClose && b.closer == AboutToClose then 2
    else 1
  }

  /** A step on the way to closing the channel of i. */
  predicate ClosingStep(b: Bus, a: Action, i: nat) {
    match a
    case RemoveSub(k) => k == i && i in b.subs
    case CloseChannel(k) => k == i
    case Close => i in b.subs
    case CloseDone => i in b.toClose
    case CloseNext(k) => k == i
    case _ => false
  }

  /** No step at all takes a channel further from being closed, and each closing step brings it nearer. */
  lemma ClosingProgresses(run: seq<Action>, a: Action, i: nat)
    requires i < |After(run).table|
    ensures var b, b' := After(run), Next(After(run), a);
            && i < |b'.table| && StepsLeft(b', i) <= StepsLeft(b, i)
            && (Enabled(b, a) && ClosingStep(b, a, i) ==> StepsLeft(b', i) < StepsLeft(b, i))
  {
    RunSound(run);
    hide After, PublishersSound, AllCounted, DropsAgree;
    assert OneOwner(After(run), i);
  }
}
