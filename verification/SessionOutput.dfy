// Session output fan-out (internal/app/sessions.go) as an interleaved step
// system: the fan-out goroutine, the session goroutine's shutdown, callers of
// SubscribeOutput, and one watcher goroutine for each subscriber.
//
// Critical sections under subsMu are single steps. trySend holds the
// subscriber's read lock over two steps; close() takes its write lock and is
// enabled only in between.
module SessionOutput {
  import opened Lists

  /** Who runs a subscriber's closeOnce. */
  datatype Closer = Sweep | OwnWatcher

  datatype Once = Free | Running(runner: Closer) | Done

  /** The goroutine started by SubscribeOutput: waiting, past the unlisting in removeSub, or through close(). */
  datatype Watcher = Watching | Unlisted | Finished

  /** `got` are the numbers of the chunks sent into the channel. */
  datatype Sub = Sub(cap: nat, queued: nat, receiving: bool, got: seq<nat>, cancelled: bool,
                     once: Once, closed: bool, doneClosings: nat, chClosings: nat, watcher: Watcher)
  {
    predicate HasRoom() {
      receiving || queued < cap
    }
  }

  /** The fan-out goroutine. */
  datatype FanOut =
    | Reading
    | GotChunk(n: nat)                                   // read, not yet copied the subscriber list
    | Delivering(n: nat, todo: seq<nat>, sending: bool)  // sending: holds the read lock of todo[0]
    | Sweeping(todo: seq<nat>)
    | Stopped

  /** The session goroutine, in its shutdown order. */
  datatype Phase = Live | Removed | PipeClosed | DoneClosed

  datatype Entry = Entry(phase: Phase, fan: FanOut, chunks: nat, subs: seq<nat>, table: seq<Sub>,
                         looking: nat, panicked: bool)

  const NEW_ENTRY := Entry(Live, Reading, 0, [], [], 0, false)

  datatype Action =
    | LookUp                             // SubscribeOutput found the entry in the session map
    | AddSub(buffer: int)                // SubscribeOutput appends the subscriber
    | CancelContext(i: nat)
    | StartReceive(i: nat)
    | Receive(i: nat)
    | ReadChunk                          // outR.Read returned bytes
    | CopySubs                           // the snapshot under subsMu
    | StartSend                          // trySend: RLock and the check of closed
    | FinishSend(deliver: bool)          // trySend: the select and RUnlock
    | EndOfStream                        // outR.Read failed; the list is taken under subsMu
    | RemoveSession                      // removeAndPublish
    | ClosePipe                          // outW.Close()
    | CloseDone                          // close(entry.done)
    | Unlist(i: nat)                     // the critical section of removeSub
    | EnterOnce(i: nat, runner: Closer)  // close(): closeOnce lets this caller run
    | RunClose(i: nat, runner: Closer)   // close(): the body, under the write lock
    | LeaveClose(i: nat, runner: Closer) // close() returns

  /** The read lock of subscriber i is held. */
  predicate ReadLocked(e: Entry, i: nat) {
    e.fan.Delivering? && e.fan.sending && |e.fan.todo| > 0 && e.fan.todo[0] == i
  }

  /** The caller is inside close() for subscriber i. */
  predicate InClose(e: Entry, i: nat, runner: Closer) {
    i < |e.table|
    && match runner
       case Sweep => e.fan.Sweeping? && |e.fan.todo| > 0 && e.fan.todo[0] == i
       case OwnWatcher => e.table[i].watcher == Unlisted
  }

  predicate Enabled(e: Entry, a: Action) {
    match a
    case LookUp => e.phase == Live
    case AddSub(_) => e.looking > 0
    case CancelContext(i) => i < |e.table|
    case StartReceive(i) => i < |e.table| && !e.table[i].receiving && e.table[i].queued == 0
    case Receive(i) => i < |e.table| && e.table[i].queued > 0
    case ReadChunk => e.fan.Reading? && e.phase in {Live, Removed}
    case CopySubs => e.fan.GotChunk?
    case StartSend =>
      e.fan.Delivering? && !e.fan.sending && (e.fan.todo == [] || e.fan.todo[0] < |e.table|)
    case FinishSend(deliver) =>
      && e.fan.Delivering? && e.fan.sending && e.fan.todo != [] && e.fan.todo[0] < |e.table|
      && var s := e.table[e.fan.todo[0]];
         if deliver then s.HasRoom() else s.cancelled || !s.HasRoom()
    case EndOfStream => e.fan.Reading? && e.phase in {PipeClosed, DoneClosed}
    case RemoveSession => e.phase == Live
    case ClosePipe => e.phase == Removed
    case CloseDone => e.phase == PipeClosed
    case Unlist(i) =>
      i < |e.table| && e.table[i].watcher == Watching
      && (e.table[i].cancelled || e.table[i].doneClosings > 0 || e.phase == DoneClosed)
    case EnterOnce(i, runner) => InClose(e, i, runner) && e.table[i].once == Free
    case RunClose(i, runner) => InClose(e, i, runner) && e.table[i].once == Running(runner) && !ReadLocked(e, i)
    case LeaveClose(i, runner) => InClose(e, i, runner) && e.table[i].once == Done
  }

  function Put(e: Entry, i: nat, s: Sub): Entry
    requires i < |e.table|
  {
    e.(table := e.table[i := s])
  }

  function Do(e: Entry, a: Action): Entry
    requires Enabled(e, a)
  {
    match a
    case LookUp => e.(looking := e.looking + 1)
    case AddSub(buffer) =>
      var cap := if buffer <= 0 then 16 else buffer;
      e.(looking := e.looking - 1, subs := e.subs + [|e.table|],
         table := e.table + [Sub(cap, 0, false, [], false, Free, false, 0, 0, Watching)])
    case CancelContext(i) => Put(e, i, e.table[i].(cancelled := true))
    case StartReceive(i) => Put(e, i, e.table[i].(receiving := true))
    case Receive(i) => Put(e, i, e.table[i].(queued := e.table[i].queued - 1))
    case ReadChunk => e.(chunks := e.chunks + 1, fan := GotChunk(e.chunks))
    case CopySubs => e.(fan := Delivering(e.fan.n, e.subs, false))
    case StartSend =>
      if e.fan.todo == [] then e.(fan := Reading)
      else if e.table[e.fan.todo[0]].closed then e.(fan := e.fan.(todo := e.fan.todo[1..]))
      else e.(fan := e.fan.(sending := true))
    case FinishSend(deliver) =>
      var i := e.fan.todo[0];
      var s := e.table[i];
      var moved := e.(fan := Delivering(e.fan.n, e.fan.todo[1..], false));
      if !deliver then moved
      else
        Put(moved, i, s.(got := s.got + [e.fan.n], receiving := false,
                         queued := if s.receiving then s.queued else s.queued + 1))
        .(panicked := e.panicked || s.chClosings > 0)
    case EndOfStream => e.(fan := Sweeping(e.subs), subs := [])
    case RemoveSession => e.(phase := Removed)
    case ClosePipe => e.(phase := PipeClosed)
    case CloseDone => e.(phase := DoneClosed)
    case Unlist(i) => Put(e, i, e.table[i].(watcher := Unlisted)).(subs := RemoveFirst(e.subs, i))
    case EnterOnce(i, runner) => Put(e, i, e.table[i].(once := Running(runner)))
    case RunClose(i, runner) =>
      var s := e.table[i];
      Put(e, i, s.(closed := true, once := Done, doneClosings := s.doneClosings + 1, chClosings := s.chClosings + 1))
      .(panicked := e.panicked || s.doneClosings > 0 || s.chClosings > 0)
    case LeaveClose(i, runner) =>
      match runner
      case Sweep => e.(fan := Sweeping(e.fan.todo[1..]))
      case OwnWatcher => Put(e, i, e.table[i].(watcher := Finished))
  }

  function Next(e: Entry, a: Action): Entry {
    if Enabled(e, a) then Do(e, a) else e
  }

  /** The entry after a run; an action that is not enabled cannot happen and changes nothing. */
  function After(run: seq<Action>): Entry {
    if run == [] then NEW_ENTRY else Next(After(run[..|run| - 1]), run[|run| - 1])
  }

  // ------------------------------------------------------------------
  // What every step keeps
  // ------------------------------------------------------------------

  /** The channel is closed exactly when closeOnce has run, and then once. */
  predicate ClosedOnce(s: Sub) {
    && (s.closed <==> s.once == Done)
    && s.chClosings == s.doneClosings == (if s.closed then 1 else 0)
    && (s.watcher == Finished ==> s.once == Done)
    && (s.once == Running(OwnWatcher) ==> s.watcher == Unlisted)
  }

  predicate Increasing(s: seq<nat>) {
    forall i, j | 0 <= i < j < |s| :: s[i] < s[j]
  }

  predicate AllBelow(s: seq<nat>, n: int) {
    forall i | 0 <= i < |s| :: s[i] < n
  }

  predicate Distinct(s: seq<nat>) {
    forall i, j | 0 <= i < j < |s| :: s[i] != s[j]
  }

  predicate KnownSubs(e: Entry, s: seq<nat>) {
    Distinct(s) && AllBelow(s, |e.table|)
  }

  predicate SubsSound(e: Entry) {
    forall i | 0 <= i < |e.table| :: ClosedOnce(e.table[i])
  }

  predicate GotInOrder(e: Entry) {
    forall i | 0 <= i < |e.table| :: Increasing(e.table[i].got) && AllBelow(e.table[i].got, e.chunks)
  }

  /** The subscriber that is being sent to is open: close() waits for the read lock. */
  predicate SendingToOpen(e: Entry) {
    e.fan.Delivering? && e.fan.sending ==>
      e.fan.todo != [] && e.fan.todo[0] < |e.table| && !e.table[e.fan.todo[0]].closed
  }

  /** Nobody still on the list of the current chunk has it already, and no chunk after it exists. */
  predicate FanSound(e: Entry) {
    match e.fan
    case GotChunk(n) => e.chunks == n + 1 && forall i | 0 <= i < |e.table| :: AllBelow(e.table[i].got, n)
    case Delivering(n, todo, _) =>
      e.chunks == n + 1 && KnownSubs(e, todo) && forall k | 0 <= k < |todo| :: AllBelow(e.table[todo[k]].got, n)
    case Sweeping(todo) => KnownSubs(e, todo)
    case _ => true
  }

  /** Only the sweep's current subscriber can be in the middle of being closed by the sweep. */
  predicate SweepSound(e: Entry) {
    forall i | 0 <= i < |e.table| :: e.table[i].once == Running(Sweep) ==> InClose(e, i, Sweep)
  }

  predicate Sound(e: Entry) {
    && !e.panicked && KnownSubs(e, e.subs)
    && SubsSound(e) && GotInOrder(e) && SendingToOpen(e) && FanSound(e) && SweepSound(e)
  }

  lemma {:induction false} RemoveFirstKeeps(s: seq<nat>, x: nat, bound: int)
    requires Distinct(s) && AllBelow(s, bound)
    ensures Distinct(RemoveFirst(s, x)) && AllBelow(RemoveFirst(s, x), bound)
    ensures forall y | y in RemoveFirst(s, x) :: y in s
  {
    if s != [] && s[0] != x {
      RemoveFirstKeeps(s[1..], x, bound);
      var rest := RemoveFirst(s[1..], x);
      forall i | 0 <= i < |rest|
        ensures rest[i] != s[0] && rest[i] < bound
      {
        assert rest[i] in s[1..];
      }
    }
  }

  lemma StepSound(e: Entry, a: Action)
    requires Sound(e)
    ensures Sound(Next(e, a))
  {
    hide KnownSubs, SubsSound, GotInOrder, SendingToOpen, FanSound, SweepSound;
    if Enabled(e, a) {
      StepLists(e, a);
      StepSubs(e, a);
      StepGot(e, a);
      StepSending(e, a);
      StepFan(e, a);
      StepSweep(e, a);
    }
  }

  lemma StepLists(e: Entry, a: Action)
    requires Sound(e) && Enabled(e, a)
    ensures KnownSubs(Do(e, a), Do(e, a).subs)
  {
    hide SubsSound, GotInOrder, SendingToOpen, FanSound, SweepSound;
    if a.Unlist? {
      RemoveFirstKeeps(e.subs, a.i, |e.table|);
    }
  }

  lemma StepSubs(e: Entry, a: Action)
    requires Sound(e) && Enabled(e, a)
    ensures SubsSound(Do(e, a)) && !Do(e, a).panicked
  {
    hide SweepSound, GotInOrder, FanSound, KnownSubs, Increasing, AllBelow;
  }

  lemma StepGot(e: Entry, a: Action)
    requires Sound(e) && Enabled(e, a)
    ensures GotInOrder(Do(e, a))
  {
    hide SweepSound, SubsSound, SendingToOpen, ClosedOnce;
  }

  lemma StepSending(e: Entry, a: Action)
    requires Sound(e) && Enabled(e, a)
    ensures SendingToOpen(Do(e, a))
  {
    hide SubsSound, GotInOrder, SweepSound, FanSound, KnownSubs;
  }

  lemma StepFan(e: Entry, a: Action)
    requires Sound(e) && Enabled(e, a)
    ensures FanSound(Do(e, a))
  {
    hide FanSound, Sound, Do;
    SoundParts(e);
    if a.FinishSend? {
      FinishFan(e, a.deliver);
    } else {
      OtherFan(e, a);
    }
  }

  lemma SoundParts(e: Entry)
    requires Sound(e)
    ensures FanSound(e) && SendingToOpen(e) && GotInOrder(e) && KnownSubs(e, e.subs)
  {
    hide FanSound, SendingToOpen, GotInOrder, KnownSubs, SubsSound, SweepSound;
  }

  lemma OtherFan(e: Entry, a: Action)
    requires FanSound(e) && GotInOrder(e) && KnownSubs(e, e.subs) && Enabled(e, a) && !a.FinishSend?
    ensures FanSound(Do(e, a))
  {
    hide Increasing, RemoveFirst, ReadLocked;
  }

  lemma FinishFan(e: Entry, deliver: bool)
    requires FanSound(e) && SendingToOpen(e) && Enabled(e, FinishSend(deliver))
    ensures FanSound(Do(e, FinishSend(deliver)))
  {
    var n, todo, i := e.fan.n, e.fan.todo, e.fan.todo[0];
    var d := Do(e, FinishSend(deliver));
    assert d.fan == Delivering(n, todo[1..], false) && |d.table| == |e.table| && d.chunks == e.chunks;
    forall k | 0 <= k < |todo| - 1
      ensures d.table[todo[1..][k]] == e.table[todo[k + 1]]
    {
      assert todo[k + 1] != i;
    }
    hide Do, Enabled, SendingToOpen;
    KnownTail(e, d, todo);
  }

  lemma KnownTail(e: Entry, d: Entry, todo: seq<nat>)
    requires KnownSubs(e, todo) && todo != [] && |d.table| == |e.table|
    ensures KnownSubs(d, todo[1..])
  {
    assert forall k | 0 <= k < |todo| - 1 :: todo[1..][k] == todo[k + 1];
  }

  lemma StepSweep(e: Entry, a: Action)
    requires Sound(e) && Enabled(e, a)
    ensures SweepSound(Do(e, a))
  {
    hide SendingToOpen, GotInOrder, KnownSubs, FanSound;
  }

  lemma {:induction false} RunSound(run: seq<Action>)
    ensures Sound(After(run))
  {
    hide Sound;
    if run == [] {
      NewEntrySound();
    } else {
      RunSound(run[..|run| - 1]);
      StepSound(After(run[..|run| - 1]), run[|run| - 1]);
    }
  }

  lemma NewEntrySound()
    ensures Sound(NEW_ENTRY)
  {
  }

  // ------------------------------------------------------------------
  // What a subscriber may rely on
  // ------------------------------------------------------------------

  /** In every interleaving no channel is closed twice, and none is sent to after it was closed. */
  lemma NoPanic(run: seq<Action>)
    ensures !After(run).panicked
    ensures forall i | 0 <= i < |After(run).table| :: After(run).table[i].chClosings <= 1
  {
    RunSound(run);
  }

  /** Each subscriber sees some of the session's chunks, in the order they were read, each at most once. */
  lemma InOrder(run: seq<Action>, i: nat)
    requires i < |After(run).table|
    ensures Increasing(After(run).table[i].got) && AllBelow(After(run).table[i].got, After(run).chunks)
  {
    RunSound(run);
  }

  lemma AfterMore(run: seq<Action>, a: Action)
    ensures After(run + [a]) == Next(After(run), a)
  {
    assert (run + [a])[..|run|] == run;
  }

  /** A new subscriber comes last on the list, open and empty; a size that is not positive means sixteen. */
  lemma SubscribeExactly(run: seq<Action>, buffer: int)
    requires After(run).looking > 0
    ensures var e, d := After(run), After(run + [AddSub(buffer)]);
            var i := |e.table|;
            && |d.table| == i + 1 && d.table[..i] == e.table && d.subs == e.subs + [i]
            && d.table[i].cap == (if buffer > 0 then buffer else 16) && d.table[i].queued == 0 && d.table[i].got == []
            && !d.table[i].closed && !d.table[i].cancelled && d.table[i].watcher == Watching
  {
    AfterMore(run, AddSub(buffer));
    hide After;
  }

  /** Every chunk read is numbered in turn and goes to everybody on the list at the time it is copied. */
  lemma FanOutExactly(run: seq<Action>)
    ensures var e, d := After(run), After(run + [ReadChunk]);
            if e.fan == Reading && (e.phase == Live || e.phase == Removed)
            then d.fan == GotChunk(e.chunks) && d.chunks == e.chunks + 1
            else d == e
    ensures var e, d := After(run), After(run + [CopySubs]);
            e.fan.GotChunk? ==> d.fan == Delivering(e.fan.n, e.subs, false) && d.subs == e.subs && d.table == e.table
  {
    AfterMore(run, ReadChunk);
    AfterMore(run, CopySubs);
    hide After;
  }

  /**
   * A send to an open subscriber delivers the chunk only if a receiver waits or the buffer is not full, and gives it
   * up only if that is not so or the subscription is cancelled.
   */
  lemma SendExactly(run: seq<Action>)
    requires After(run).fan.Delivering? && After(run).fan.sending
    ensures var e := After(run); e.fan.todo != [] && e.fan.todo[0] < |e.table| && !e.table[e.fan.todo[0]].closed
    ensures var e, d := After(run), After(run + [FinishSend(true)]);
            var i := e.fan.todo[0];
            var s := e.table[i];
            if s.receiving || s.queued < s.cap then
              && d.fan == Delivering(e.fan.n, e.fan.todo[1..], false) && !d.panicked
              && d.table == e.table[i := s.(got := s.got + [e.fan.n], receiving := false,
                                            queued := s.queued + if s.receiving then 0 else 1)]
            else d == e
    ensures var e, d := After(run), After(run + [FinishSend(false)]);
            var s := e.table[e.fan.todo[0]];
            if s.cancelled || !(s.receiving || s.queued < s.cap) then
              d.fan == Delivering(e.fan.n, e.fan.todo[1..], false) && d.table == e.table
            else d == e
  {
    RunSound(run);
    AfterMore(run, FinishSend(true));
    AfterMore(run, FinishSend(false));
    hide After, KnownSubs, SubsSound, GotInOrder, FanSound, SweepSound, Next;
    SendStep(After(run));
  }

  lemma SendStep(e: Entry)
    requires Sound(e) && e.fan.Delivering? && e.fan.sending
    ensures e.fan.todo != [] && e.fan.todo[0] < |e.table| && !e.table[e.fan.todo[0]].closed
    ensures var i, d := e.fan.todo[0], Next(e, FinishSend(true));
            var s := e.table[i];
            if s.receiving || s.queued < s.cap then
              && d.fan == Delivering(e.fan.n, e.fan.todo[1..], false) && !d.panicked
              && d.table == e.table[i := s.(got := s.got + [e.fan.n], receiving := false,
                                            queued := s.queued + if s.receiving then 0 else 1)]
            else d == e
    ensures var s, d := e.table[e.fan.todo[0]], Next(e, FinishSend(false));
            if s.cancelled || !(s.receiving || s.queued < s.cap) then
              d.fan == Delivering(e.fan.n, e.fan.todo[1..], false) && d.table == e.table
            else d == e
  {
    hide KnownSubs, GotInOrder, FanSound, SweepSound;
    assert ClosedOnce(e.table[e.fan.todo[0]]);
    hide SubsSound;
  }

  /** At the end of the stream the sweep takes over everybody on the list; unlisting takes one subscriber off it. */
  lemma EndExactly(run: seq<Action>, i: nat)
    ensures var e, d := After(run), After(run + [EndOfStream]);
            if e.fan == Reading && (e.phase == PipeClosed || e.phase == DoneClosed)
            then d == e.(fan := Sweeping(e.subs), subs := []) else d == e
    ensures var e, d := After(run), After(run + [Unlist(i)]);
            i < |e.table| && e.table[i].watcher == Watching
            && (e.table[i].cancelled || e.table[i].doneClosings > 0 || e.phase == DoneClosed) ==>
              && i !in d.subs && (forall k | k != i :: k in d.subs <==> k in e.subs)
              && d.table == e.table[i := e.table[i].(watcher := Unlisted)]
    ensures var e, d := After(run), After(run + [CancelContext(i)]);
            i < |e.table| ==> d == e.(table := e.table[i := e.table[i].(cancelled := true)])
  {
    RunSound(run);
    AfterMore(run, EndOfStream);
    AfterMore(run, Unlist(i));
    AfterMore(run, CancelContext(i));
    hide After, SubsSound, GotInOrder, FanSound, SweepSound, SendingToOpen;
    OffTheList(After(run).subs, i);
  }

  lemma {:induction false} OffTheList(s: seq<nat>, i: nat)
    requires Distinct(s)
    ensures forall k :: k in RemoveFirst(s, i) <==> k in s && k != i
  {
    if s != [] {
      assert s == [s[0]] + s[1..];
      OffTheList(s[1..], i);
    }
  }

  // ------------------------------------------------------------------
  // Every chunk accounted for
  // ------------------------------------------------------------------

  /** Subscriber i is passed over: it is closed, or cancelled, or it has no room. */
  ghost predicate PassesOver(e: Entry, a: Action, i: nat)
    requires i < |e.table|
  {
    && e.fan.Delivering? && e.fan.todo != [] && e.fan.todo[0] == i
    && var s := e.table[i];
       || (a == StartSend && !e.fan.sending && s.closed)
       || (a == FinishSend(false) && e.fan.sending && (s.cancelled || (!s.receiving && s.queued >= s.cap)))
  }

  /** i takes a chunk from its channel, or is handed one while it waits. */
  ghost predicate Takes(e: Entry, a: Action, i: nat)
    requires i < |e.table|
  {
    || (a == Receive(i) && e.table[i].queued > 0)
    || (a == FinishSend(true) && e.fan.Delivering? && e.fan.sending && e.fan.todo != [] && e.fan.todo[0] == i
        && e.table[i].receiving)
  }

  /** How many chunks were copied for i, how many of them it was passed over with, and how many it has taken. */
  datatype Books = Books(copied: nat, passed: nat, taken: nat)

  ghost function BooksOf(run: seq<Action>, i: nat): Books {
    if run == [] then Books(0, 0, 0)
    else
      var books, e, a := BooksOf(run[..|run| - 1], i), After(run[..|run| - 1]), run[|run| - 1];
      if i >= |e.table| then books
      else
        Books(books.copied + (if a == CopySubs && e.fan.GotChunk? && i in e.subs then 1 else 0),
              books.passed + (if PassesOver(e, a, i) then 1 else 0),
              books.taken + (if Takes(e, a, i) then 1 else 0))
  }

  function AwaitedBy(e: Entry, i: nat): nat {
    if e.fan.Delivering? && i in e.fan.todo then 1 else 0
  }

  /**
   * Of the chunks copied while i is on the list, it has got all but those it was passed over with and the one that is
   * on its way; and what it has got it has taken, or it waits in a buffer that holds no more than it is made for.
   */
  lemma {:induction false} ChunksAccountedFor(run: seq<Action>, i: nat)
    requires i < |After(run).table|
    ensures var e, books := After(run), BooksOf(run, i);
            && |e.table[i].got| + books.passed + AwaitedBy(e, i) == books.copied
            && |e.table[i].got| == books.taken + e.table[i].queued && e.table[i].queued <= e.table[i].cap
  {
    hide Next, Sound, Takes, PassesOver, AwaitedBy;
    if run == [] {
      assert false;
    } else {
      var e, a := After(run[..|run| - 1]), run[|run| - 1];
      RunSound(run[..|run| - 1]);
      if i < |e.table| {
        ChunksAccountedFor(run[..|run| - 1], i);
        StepAccounted(e, a, i);
      } else {
        NoBooks(run, i);
        FirstSeen(e, a, i);
      }
    }
  }

  lemma {:induction false} NoBooks(run: seq<Action>, i: nat)
    requires run != [] && i >= |After(run[..|run| - 1]).table|
    ensures BooksOf(run, i) == Books(0, 0, 0)
  {
    hide Next;
    var before := run[..|run| - 1];
    if before != [] {
      TableGrows(After(before[..|before| - 1]), before[|before| - 1]);
      NoBooks(before, i);
    }
  }

  lemma TableGrows(e: Entry, a: Action)
    ensures |e.table| <= |Next(e, a).table|
  {
    hide RemoveFirst;
  }

  lemma FirstSeen(e: Entry, a: Action, i: nat)
    requires Sound(e) && |e.table| <= i < |Next(e, a).table|
    ensures var d := Next(e, a);
            d.table[i].got == [] && d.table[i].queued == 0 <= d.table[i].cap && AwaitedBy(d, i) == 0
  {
    hide RemoveFirst, GotInOrder, SweepSound, SubsSound;
  }

  ghost predicate OneStepAccounted(e: Entry, a: Action, d: Entry, i: nat)
    requires i < |e.table|
  {
    && i < |d.table| && d.table[i].queued <= d.table[i].cap
    && |d.table[i].got| - d.table[i].queued
       == |e.table[i].got| - e.table[i].queued + (if Takes(e, a, i) then 1 else 0)
    && |d.table[i].got| + (if PassesOver(e, a, i) then 1 else 0) + AwaitedBy(d, i)
       == |e.table[i].got| + AwaitedBy(e, i) + if a == CopySubs && e.fan.GotChunk? && i in e.subs then 1 else 0
  }

  lemma StepAccounted(e: Entry, a: Action, i: nat)
    requires Sound(e) && i < |e.table| && e.table[i].queued <= e.table[i].cap
    ensures OneStepAccounted(e, a, Next(e, a), i)
  {
    hide Sound, OneStepAccounted, Next;
    if (a.StartSend? || a.FinishSend?) && e.fan.Delivering? && e.fan.todo != [] {
      FanIsSound(e);
      SendAccounted(e, a, i);
    } else {
      OtherAccounted(e, a, i);
    }
  }

  lemma OtherAccounted(e: Entry, a: Action, i: nat)
    requires i < |e.table| && e.table[i].queued <= e.table[i].cap
    requires a.StartSend? || a.FinishSend? ==> !e.fan.Delivering? || e.fan.todo == []
    ensures OneStepAccounted(e, a, Next(e, a), i)
  {
    TableTouched(e, a, i);
    FanTouched(e, a, i);
    hide Next, AwaitedBy;
  }

  lemma TableTouched(e: Entry, a: Action, i: nat)
    requires i < |e.table| && (a.StartSend? || a.FinishSend? ==> !e.fan.Delivering? || e.fan.todo == [])
    ensures i < |Next(e, a).table|
    ensures var s, t := e.table[i], Next(e, a).table[i];
            && t.got == s.got && t.cap == s.cap
            && t.queued == s.queued - if a == Receive(i) && s.queued > 0 then 1 else 0
  {
    hide RemoveFirst, ReadLocked;
  }

  lemma FanTouched(e: Entry, a: Action, i: nat)
    requires a.StartSend? || a.FinishSend? ==> !e.fan.Delivering? || e.fan.todo == []
    ensures AwaitedBy(Next(e, a), i)
         == AwaitedBy(e, i) + if a == CopySubs && e.fan.GotChunk? && i in e.subs then 1 else 0
  {
    hide RemoveFirst, ReadLocked;
  }

  lemma FanIsSound(e: Entry)
    requires Sound(e)
    ensures FanSound(e)
  {
    hide FanSound;
  }

  lemma SendAccounted(e: Entry, a: Action, i: nat)
    requires FanSound(e) && i < |e.table| && e.table[i].queued <= e.table[i].cap && (a.StartSend? || a.FinishSend?)
    requires e.fan.Delivering? && e.fan.todo != []
    ensures OneStepAccounted(e, a, Next(e, a), i)
  {
    hide Next;
    OutOfTodo(e.fan.todo, i);
    hide FanSound;
    if a.FinishSend? {
      FinishTouches(e, a.deliver);
    } else {
      StartTouches(e);
    }
  }

  lemma FinishTouches(e: Entry, deliver: bool)
    requires e.fan.Delivering? && e.fan.todo != []
    ensures var d, i := Next(e, FinishSend(deliver)), e.fan.todo[0];
            if e.fan.sending && i < |e.table|
               && (if deliver then e.table[i].HasRoom() else e.table[i].cancelled || !e.table[i].HasRoom()) then
              var s := e.table[i];
              && d.fan == Delivering(e.fan.n, e.fan.todo[1..], false)
              && d.table == if deliver then e.table[i := s.(got := s.got + [e.fan.n], receiving := false,
                                                            queued := if s.receiving then s.queued else s.queued + 1)]
                            else e.table
            else d == e
  {
  }

  lemma StartTouches(e: Entry)
    requires e.fan.Delivering? && e.fan.todo != []
    ensures var d, i := Next(e, StartSend), e.fan.todo[0];
            && d.table == e.table
            && d.fan == if e.fan.sending || i >= |e.table| then e.fan
                        else if e.table[i].closed then e.fan.(todo := e.fan.todo[1..]) else e.fan.(sending := true)
  {
  }

  lemma OutOfTodo(todo: seq<nat>, i: nat)
    requires todo != [] && Distinct(todo)
    ensures i in todo[1..] <==> i in todo && i != todo[0]
  {
    assert todo == [todo[0]] + todo[1..];
    assert forall k | 0 <= k < |todo| - 1 :: todo[1..][k] == todo[k + 1];
  }

  /** Once every watcher has run, every subscriber ever registered is closed, exactly once. */
  lemma AllClosedInTheEnd(run: seq<Action>)
    requires forall i | 0 <= i < |After(run).table| :: After(run).table[i].watcher == Finished
    ensures forall i | 0 <= i < |After(run).table| :: After(run).table[i].closed && After(run).table[i].chClosings == 1
  {
    RunSound(run);
  }

  /**
   * Nothing gets stuck: as long as a subscriber is open although the session is done or its context is cancelled, even
   * one added after the final sweep, some step that leads to its closing is enabled.
   */
  lemma ClosingNeverStalls(run: seq<Action>, i: nat)
    requires i < |After(run).table| && !After(run).table[i].closed
    requires After(run).phase == DoneClosed || After(run).table[i].cancelled
    ensures var e := After(run);
            || Enabled(e, Unlist(i)) || Enabled(e, EnterOnce(i, OwnWatcher))
            || Enabled(e, RunClose(i, OwnWatcher)) || Enabled(e, RunClose(i, Sweep))
            || Enabled(e, FinishSend(true)) || Enabled(e, FinishSend(false))
  {
    RunSound(run);
    var e := After(run);
    assert ClosedOnce(e.table[i]);
    hide After, Sound, SubsSound, SweepSound;
    OpenHasNextStep(e, i);
  }

  lemma OpenHasNextStep(e: Entry, i: nat)
    requires i < |e.table| && !e.table[i].closed && ClosedOnce(e.table[i])
    requires e.phase == DoneClosed || e.table[i].cancelled
    requires e.table[i].once == Running(Sweep) ==> InClose(e, i, Sweep)
    ensures || Enabled(e, Unlist(i)) || Enabled(e, EnterOnce(i, OwnWatcher))
            || Enabled(e, RunClose(i, OwnWatcher)) || Enabled(e, RunClose(i, Sweep))
            || Enabled(e, FinishSend(true)) || Enabled(e, FinishSend(false))
  {
    var s := e.table[i];
    if s.watcher == Watching {
      assert Enabled(e, Unlist(i));
    } else if s.once == Free {
      assert Enabled(e, EnterOnce(i, OwnWatcher));
    } else if s.once == Running(Sweep) {
      assert Enabled(e, RunClose(i, Sweep));
    } else if !ReadLocked(e, i) {
      assert s.once.Running? && s.once.runner == OwnWatcher;
      assert Enabled(e, RunClose(i, OwnWatcher));
    } else if s.HasRoom() {
      assert Enabled(e, FinishSend(true));
    } else {
      assert Enabled(e, FinishSend(false));
    }
  }

  // ------------------------------------------------------------------
  // A subscriber added too late for the sweep
  // ------------------------------------------------------------------

  /** How many of its own steps are left until a subscriber of a finished session is closed. */
  function StepsLeft(s: Sub): nat {
    if s.closed then 0
    else if s.once.Running? then 1
    else if s.watcher == Unlisted then 2
    else 3
  }

  /** A step of close() for subscriber i, by whichever of the two callers. */
  predicate ClosingStep(e: Entry, a: Action, i: nat)
    requires i < |e.table|
  {
    || (a == Unlist(i) && e.table[i].once == Free)
    || a == EnterOnce(i, OwnWatcher) || a == EnterOnce(i, Sweep)
    || a == RunClose(i, OwnWatcher) || a == RunClose(i, Sweep)
  }

  /** No step at all takes a subscriber further from being closed, and each closing step brings it nearer. */
  lemma ClosingProgresses(run: seq<Action>, a: Action, i: nat)
    requires i < |After(run).table|
    ensures var e, e' := After(run), Next(After(run), a);
            && i < |e'.table| && StepsLeft(e'.table[i]) <= StepsLeft(e.table[i])
            && (Enabled(e, a) && ClosingStep(e, a, i) ==> StepsLeft(e'.table[i]) < StepsLeft(e.table[i]))
  {
    RunSound(run);
    var e := After(run);
    assert ClosedOnce(e.table[i]);
    hide After, Sound;
    OneStepNearer(e, a, i);
  }

  lemma OneStepNearer(e: Entry, a: Action, i: nat)
    requires i < |e.table| && ClosedOnce(e.table[i])
    ensures var e' := Next(e, a);
            && i < |e'.table| && StepsLeft(e'.table[i]) <= StepsLeft(e.table[i])
            && (Enabled(e, a) && ClosingStep(e, a, i) ==> StepsLeft(e'.table[i]) < StepsLeft(e.table[i]))
  {
    hide RemoveFirst, ReadLocked;
    if Enabled(e, a) {
      if ClosingStep(e, a, i) {
        StepNearer(e, a, i);
      } else {
        hide ClosingStep, Do, Enabled, InClose;
        NoStepBack(e, a, i);
      }
    }
  }

  lemma StepNearer(e: Entry, a: Action, i: nat)
    requires i < |e.table| && ClosedOnce(e.table[i]) && Enabled(e, a) && ClosingStep(e, a, i)
    ensures var e' := Do(e, a);
            |e'.table| == |e.table| && StepsLeft(e'.table[i]) < StepsLeft(e.table[i])
  {
    hide RemoveFirst, ReadLocked;
  }

  lemma NoStepBack(e: Entry, a: Action, i: nat)
    requires i < |e.table| && ClosedOnce(e.table[i]) && Enabled(e, a)
    ensures var e' := Do(e, a);
            && i < |e'.table|
            && (e.table[i].closed ==> e'.table[i].closed)
            && (e.table[i].once.Running? ==> e'.table[i].once.Running? || e'.table[i].closed)
            && (e.table[i].watcher != Watching ==> e'.table[i].watcher != Watching)
            && (e'.table[i].watcher == Finished ==> e.table[i].watcher == Finished || e.table[i].closed)
  {
    hide RemoveFirst, ReadLocked;
  }
}
