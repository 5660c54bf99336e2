// The request multiplexer of the plugin IPC client (host/plugin/ipc/client.go)
// as an interleaved step system: any number of callers and one read loop.
// Critical sections under mu are single steps; sends into the callers'
// one-slot channels and the callers' own moves happen in between.
module Multiplexer {
  import opened Wrappers

  /** Request IDs are uint64 and wrap around. */
  const ID_SPACE := 0x1_0000_0000_0000_0000

  function Wrapped(n: int): int {
    n % ID_SPACE
  }

  lemma WrappedMeans(n: nat)
    ensures n < ID_SPACE ==> Wrapped(n) == n
    ensures Wrapped(ID_SPACE) == 0
    ensures Wrapped(Wrapped(n) + 1) == Wrapped(n + 1)
  {
  }

  datatype Frame = Frame(id: int, error: bool, payload: string)

  /** What a caller can find in its channel: a reply, or the notice that the connection is lost. */
  datatype Item = Reply(frame: Frame) | Lost

  datatype Result = Answered(frame: Frame) | RemoteError(frame: Frame) | ConnectionLost | WriteFailed | ContextDone

  /** Where a call is; Leaving callers still have to withdraw their in-flight entry. */
  datatype Stage = Registered | Waiting | Leaving(why: Result) | Returned(result: Result)

  /** A call past its registration: its ID, its one-slot channel, and how many items were ever put into it. */
  datatype Call = Call(id: int, stage: Stage, slot: seq<Item>, given: nat, cancelled: bool)

  /** The read loop: about to read, about to send one frame, telling the pending callers, or gone. */
  datatype Loop = Reading | Sending(frame: Frame, k: nat) | Failing(pending: set<nat>) | Exited

  datatype Client = Client(nextID: int, inflight: Option<map<int, nat>>, calls: seq<Call>, loop: Loop, refused: nat)

  const NEW_CLIENT := Client(0, Some(map[]), [], Reading, 0)

  datatype Action =
    | StartCall              // call(): the registration
    | WriteOK(k: nat)
    | WriteFails(k: nat)
    | CancelContext(k: nat)
    | TakeItem(k: nat)       // the select takes from the channel
    | SeeCancel(k: nat)      // the select sees the cancelled context
    | Withdraw(k: nat)       // the deletion of the in-flight entry, and the return
    | Arrive(frame: Frame)   // ReadFrame returned a frame; look-up and deletion
    | SendFrame              // ch <- frame
    | LoseConnection         // ReadFrame failed; the map is taken away
    | SendLost(k: nat)       // one turn of the loop over the pending channels
    | ExitLoop

  predicate Enabled(c: Client, a: Action) {
    match a
    case StartCall => true
    case WriteOK(k) => k < |c.calls| && c.calls[k].stage == Registered
    case WriteFails(k) => k < |c.calls| && c.calls[k].stage == Registered
    case CancelContext(k) => k < |c.calls|
    case TakeItem(k) => k < |c.calls| && c.calls[k].stage == Waiting && c.calls[k].slot != []
    case SeeCancel(k) => k < |c.calls| && c.calls[k].stage == Waiting && c.calls[k].cancelled
    case Withdraw(k) => k < |c.calls| && c.calls[k].stage.Leaving?
    case Arrive(_) => c.loop == Reading
    case SendFrame => c.loop.Sending? && c.loop.k < |c.calls| && c.calls[c.loop.k].slot == []
    case LoseConnection => c.loop == Reading
    case SendLost(k) => c.loop.Failing? && k in c.loop.pending && k < |c.calls| && c.calls[k].slot == []
    case ExitLoop => c.loop.Failing? && c.loop.pending == {}
  }

  function Put(c: Client, k: nat, call: Call): Client
    requires k < |c.calls|
  {
    c.(calls := c.calls[k := call])
  }

  function Given(call: Call, item: Item): Call {
    call.(slot := call.slot + [item], given := call.given + 1)
  }

  function Taken(item: Item): Result {
    match item
    case Lost => ConnectionLost
    case Reply(f) => if f.error then RemoteError(f) else Answered(f)
  }

  function Do(c: Client, a: Action): Client
    requires Enabled(c, a)
  {
    match a
    case StartCall =>
      if c.inflight == None then c.(refused := c.refused + 1)
      else
        c.(nextID := Wrapped(c.nextID + 1),
           inflight := Some(c.inflight.value[c.nextID := |c.calls|]),
           calls := c.calls + [Call(c.nextID, Registered, [], 0, false)])
    case WriteOK(k) => Put(c, k, c.calls[k].(stage := Waiting))
    case WriteFails(k) => Put(c, k, c.calls[k].(stage := Leaving(WriteFailed)))
    case CancelContext(k) => Put(c, k, c.calls[k].(cancelled := true))
    case TakeItem(k) =>
      var call := c.calls[k];
      Put(c, k, call.(slot := call.slot[1..], stage := Returned(Taken(call.slot[0]))))
    case SeeCancel(k) => Put(c, k, c.calls[k].(stage := Leaving(ContextDone)))
    case Withdraw(k) =>
      var call := c.calls[k];
      var rest := if c.inflight == None then None else Some(c.inflight.value - {call.id});
      Put(c, k, call.(stage := Returned(call.stage.why))).(inflight := rest)
    case Arrive(frame) =>
      if c.inflight == None || frame.id !in c.inflight.value then c
      else
        c.(loop := Sending(frame, c.inflight.value[frame.id]),
           inflight := Some(c.inflight.value - {frame.id}))
    case SendFrame =>
      Put(c, c.loop.k, Given(c.calls[c.loop.k], Reply(c.loop.frame))).(loop := Reading)
    case LoseConnection =>
      c.(loop := Failing(if c.inflight == None then {} else set id | id in c.inflight.value :: c.inflight.value[id]),
         inflight := None)
    case SendLost(k) => Put(c, k, Given(c.calls[k], Lost)).(loop := Failing(c.loop.pending - {k}))
    case ExitLoop => c.(loop := Exited)
  }

  function Next(c: Client, a: Action): Client {
    if Enabled(c, a) then Do(c, a) else c
  }

  /** The client after a run; an action that is not enabled cannot happen and changes nothing. */
  function After(run: seq<Action>): Client {
    if run == [] then NEW_CLIENT else Next(After(run[..|run| - 1]), run[|run| - 1])
  }

  // ------------------------------------------------------------------
  // What every step keeps
  // ------------------------------------------------------------------

  /** Somebody will still put an item into k's channel: it is registered, or the loop has it at hand. */
  predicate Owed(c: Client, k: nat) {
    || (k < |c.calls| && c.inflight != None && Maps(c.inflight.value, c.calls[k].id, k))
    || (c.loop.Sending? && c.loop.k == k)
    || (c.loop.Failing? && k in c.loop.pending)
  }

  predicate Maps(m: map<int, nat>, id: int, k: nat) {
    id in m && m[id] == k
  }

  predicate MapSound(c: Client) {
    && (c.loop.Failing? || c.loop.Exited? ==> c.inflight == None)
    && (c.inflight == None ==> c.loop.Failing? || c.loop.Exited?)
    && (c.inflight != None ==>
          forall id | id in c.inflight.value ::
            c.inflight.value[id] < |c.calls| && c.calls[c.inflight.value[id]].id == id)
  }

  predicate LoopSound(c: Client) {
    match c.loop
    case Sending(frame, k) =>
      k < |c.calls| && c.calls[k].id == frame.id
      && (c.inflight != None && frame.id in c.inflight.value ==> c.inflight.value[frame.id] != k)
    case Failing(pending) => forall k | k in pending :: k < |c.calls|
    case _ => true
  }

  /** A channel is given at most one item, the right one, and only by whoever owes it. */
  predicate CallSound(c: Client, k: nat)
    requires k < |c.calls|
  {
    var call := c.calls[k];
    && |call.slot| <= call.given <= 1
    && (Owed(c, k) ==> call.given == 0)
    && (forall i | 0 <= i < |call.slot| :: call.slot[i].Reply? ==> call.slot[i].frame.id == call.id)
    && (call.stage.Returned? && (call.stage.result.Answered? || call.stage.result.RemoteError?) ==>
          call.stage.result.frame.id == call.id)
    && (call.stage.Leaving? ==> call.stage.why in {WriteFailed, ContextDone})
  }

  predicate CallsSound(c: Client) {
    forall k | 0 <= k < |c.calls| :: CallSound(c, k)
  }

  predicate Sound(c: Client) {
    MapSound(c) && LoopSound(c) && CallsSound(c)
  }

  /** IDs are handed out in turn. */
  predicate Numbered(c: Client) {
    c.nextID == Wrapped(|c.calls|) && forall k | 0 <= k < |c.calls| :: c.calls[k].id == Wrapped(k)
  }

  /** Every caller that still waits has an item in its channel or is owed one. */
  predicate NobodyForgotten(c: Client) {
    forall k | 0 <= k < |c.calls| :: Attended(c, k)
  }

  predicate Attended(c: Client, k: nat)
    requires k < |c.calls|
  {
    c.calls[k].stage in {Registered, Waiting} ==> c.calls[k].slot != [] || Owed(c, k)
  }

  lemma StepNumbered(c: Client, a: Action)
    requires Numbered(c)
    ensures Numbered(Next(c, a))
  {
    WrappedMeans(|c.calls|);
    hide Wrapped;
  }

  lemma StepMapAndLoop(c: Client, a: Action)
    requires Sound(c) && Enabled(c, a)
    ensures MapSound(Do(c, a)) && LoopSound(Do(c, a))
  {
    hide CallsSound;
  }

  lemma StepCalls(c: Client, a: Action)
    requires Sound(c) && Enabled(c, a)
    ensures CallsSound(Do(c, a))
  {
    var d := Do(c, a);
    forall k | 0 <= k < |d.calls|
      ensures CallSound(d, k)
    {
      if k < |c.calls| {
        assert CallSound(c, k);
      }
    }
  }

  lemma {:induction false} RunSound(run: seq<Action>)
    ensures Sound(After(run)) && Numbered(After(run))
  {
    hide Enabled, Do, MapSound, LoopSound, CallsSound, Numbered;
    if run == [] {
      NewClientSound();
    } else {
      var c, a := After(run[..|run| - 1]), run[|run| - 1];
      RunSound(run[..|run| - 1]);
      StepNumbered(c, a);
      if Enabled(c, a) {
        StepMapAndLoop(c, a);
        StepCalls(c, a);
      }
    }
  }

  lemma NewClientSound()
    ensures Sound(NEW_CLIENT) && Numbered(NEW_CLIENT) && NobodyForgotten(NEW_CLIENT)
  {
  }

  // ------------------------------------------------------------------
  // Who is forgotten, and when
  // ------------------------------------------------------------------

  /** The call still expects something in its channel. */
  predicate Expecting(call: Call) {
    call.stage in {Registered, Waiting}
  }

  /** The map leads from this ID to call k. */
  predicate Holds(c: Client, id: int, k: nat) {
    c.inflight != None && Maps(c.inflight.value, id, k)
  }

  /**
   * The action takes the in-flight entry of a call that still expects an answer: a new call comes by the same ID, or
   * a caller that leaves late deletes the entry of the call that has taken over its ID.
   */
  predicate Strands(c: Client, a: Action, k: nat) {
    && k < |c.calls| && Expecting(c.calls[k]) && Enabled(c, a)
    && match a
       case StartCall => Holds(c, c.nextID, k)
       case Withdraw(j) => j != k && Holds(c, c.calls[j].id, k)
       case _ => false
  }

  predicate Clobbers(c: Client, a: Action) {
    exists k | 0 <= k < |c.calls| :: Strands(c, a, k)
  }

  /** A step leaves a call that still expects an answer unattended exactly when it was so before or is stranded now. */
  lemma StepAttended(c: Client, a: Action, k: nat)
    requires Sound(c) && Enabled(c, a) && k < |c.calls| && Expecting(Do(c, a).calls[k])
    ensures Expecting(c.calls[k])
    ensures Attended(Do(c, a), k) <==> Attended(c, k) && !Strands(c, a, k)
  {
    assert CallSound(c, k);
  }

  lemma NewCallAttended(c: Client, a: Action, k: nat)
    requires Sound(c) && Enabled(c, a) && |c.calls| <= k < |Do(c, a).calls|
    ensures Attended(Do(c, a), k)
  {
  }

  /** A step leaves nobody forgotten exactly when it clobbers no entry. */
  lemma ForgetsExactly(c: Client, a: Action)
    requires Sound(c) && NobodyForgotten(c) && Enabled(c, a)
    ensures NobodyForgotten(Do(c, a)) <==> !Clobbers(c, a)
  {
    var d := Do(c, a);
    forall k | 0 <= k < |d.calls|
      ensures Attended(d, k) <==> !Strands(c, a, k)
    {
      if k >= |c.calls| {
        NewCallAttended(c, a, k);
      } else {
        assert Attended(c, k);
        StrandedStaysExpecting(c, a, k);
        if Expecting(d.calls[k]) {
          StepAttended(c, a, k);
        }
      }
    }
    CallsGrow(c, a);
  }

  lemma StrandedStaysExpecting(c: Client, a: Action, k: nat)
    ensures Strands(c, a, k) ==> k < |Do(c, a).calls| && Expecting(Do(c, a).calls[k])
  {
  }

  lemma CallsGrow(c: Client, a: Action)
    ensures |c.calls| <= |Next(c, a).calls|
  {
  }

  /** Some step of the run strands call k. */
  predicate StrandedIn(run: seq<Action>, k: nat) {
    exists i | 0 <= i < |run| :: StrandedAt(run, i, k)
  }

  predicate StrandedAt(run: seq<Action>, i: nat, k: nat)
    requires i < |run|
  {
    Strands(After(run[..i]), run[i], k)
  }

  lemma StrandedInNext(run: seq<Action>, a: Action, k: nat)
    ensures StrandedIn(run + [a], k) <==> StrandedIn(run, k) || Strands(After(run), a, k)
  {
    hide After, Strands;
    var longer := run + [a];
    forall i | 0 <= i < |run|
      ensures StrandedAt(longer, i, k) == StrandedAt(run, i, k)
    {
      assert longer[..i] == run[..i];
    }
    assert longer[..|run|] == run;
    assert StrandedAt(longer, |run|, k) == Strands(After(run), a, k);
    if StrandedIn(longer, k) {
      var i :| 0 <= i < |longer| && StrandedAt(longer, i, k);
      assert i < |run| ==> StrandedAt(run, i, k);
    }
    if StrandedIn(run, k) {
      var i :| 0 <= i < |run| && StrandedAt(run, i, k);
      assert StrandedAt(longer, i, k);
    }
  }

  /** In every run, a call that still expects an answer is unattended exactly when some step has stranded it. */
  lemma {:induction false} AttendedExactly(run: seq<Action>, k: nat)
    requires k < |After(run).calls| && Expecting(After(run).calls[k])
    ensures Attended(After(run), k) <==> !StrandedIn(run, k)
  {
    var before, a := run[..|run| - 1], run[|run| - 1];
    assert run == before + [a];
    var c := After(before);
    RunSound(before);
    StrandedInNext(before, a, k);
    hide Do, Sound, Attended, Strands, StrandedIn;
    if k >= |c.calls| {
      NewCallAttended(c, a, k);
      NeverStrandedBefore(before, k);
      NotYetStranded(c, a, k);
    } else if Enabled(c, a) {
      StepAttended(c, a, k);
      AttendedExactly(before, k);
    } else {
      AttendedExactly(before, k);
      OnlyEnabledStrands(c, a, k);
    }
  }

  lemma NotYetStranded(c: Client, a: Action, k: nat)
    requires k >= |c.calls|
    ensures !Strands(c, a, k)
  {
  }

  lemma OnlyEnabledStrands(c: Client, a: Action, k: nat)
    requires !Enabled(c, a)
    ensures !Strands(c, a, k)
  {
  }

  lemma NeverStrandedBefore(run: seq<Action>, k: nat)
    requires k >= |After(run).calls|
    ensures !StrandedIn(run, k)
  {
    hide Strands;
    forall i | 0 <= i < |run|
      ensures !StrandedAt(run, i, k)
    {
      PrefixCalls(run, i);
      NotYetStranded(After(run[..i]), run[i], k);
    }
  }

  lemma {:induction false} PrefixCalls(run: seq<Action>, i: nat)
    requires i <= |run|
    ensures |After(run[..i]).calls| <= |After(run).calls|
  {
    if i < |run| {
      PrefixCalls(run[..|run| - 1], i);
      assert run[..|run| - 1][..i] == run[..i];
      CallsGrow(After(run[..|run| - 1]), run[|run| - 1]);
    } else {
      assert run[..i] == run;
    }
  }

  /** Up to 2^64 calls nobody is ever stranded, because no ID is handed out twice. */
  lemma FewCallsStrandNobody(run: seq<Action>, k: nat)
    requires |After(run).calls| <= ID_SPACE
    ensures !StrandedIn(run, k)
  {
    hide Strands;
    forall i | 0 <= i < |run|
      ensures !StrandedAt(run, i, k)
    {
      var c := After(run[..i]);
      PrefixCalls(run, i + 1);
      assert run[..i + 1][..i] == run[..i];
      RunSound(run[..i]);
      DistinctIdsStrandNobody(c, run[i], k);
    }
  }

  lemma DistinctIdsStrandNobody(c: Client, a: Action, k: nat)
    requires Sound(c) && Numbered(c) && |Next(c, a).calls| <= ID_SPACE
    ensures !Strands(c, a, k)
  {
    hide Wrapped;
    if k < |c.calls| {
      CallsGrow(c, a);
      WrappedMeans(k);
      WrappedMeans(|c.calls|);
      if a.Withdraw? && a.k < |c.calls| {
        WrappedMeans(a.k);
      }
    }
  }

  // ------------------------------------------------------------------
  // What a caller may rely on
  // ------------------------------------------------------------------

  /** A reply reaches only a caller whose ID it carries, and no channel is ever given more than one item. */
  lemma RepliesReachTheirCaller(run: seq<Action>, k: nat)
    requires k < |After(run).calls|
    ensures var call := After(run).calls[k];
            && call.given <= 1
            && (call.stage.Returned? && (call.stage.result.Answered? || call.stage.result.RemoteError?) ==>
                  call.stage.result.frame.id == call.id)
  {
    RunSound(run);
    assert CallSound(After(run), k);
  }

  lemma AfterMore(run: seq<Action>, a: Action)
    ensures After(run + [a]) == Next(After(run), a)
  {
    assert (run + [a])[..|run|] == run;
  }

  /** Everything in c that stands for an event outside has been seen in the run. */
  ghost predicate Caused(run: seq<Action>, c: Client) {
    && (c.loop.Sending? ==> Arrive(c.loop.frame) in run)
    && (c.loop.Failing? ==> LoseConnection in run)
    && forall k | 0 <= k < |c.calls| :: CallCaused(run, c.calls[k], k)
  }

  ghost predicate CallCaused(run: seq<Action>, call: Call, k: nat) {
    && (call.cancelled ==> CancelContext(k) in run)
    && (call.stage.Leaving? ==> ResultCaused(run, call.stage.why, k))
    && (call.stage.Returned? ==> ResultCaused(run, call.stage.result, k))
    && (forall i | 0 <= i < |call.slot| ::
          if call.slot[i].Reply? then Arrive(call.slot[i].frame) in run else LoseConnection in run)
  }

  /** A frame has been read and says what it is taken for, or the call ended for a reason that did occur. */
  ghost predicate ResultCaused(run: seq<Action>, r: Result, k: nat) {
    && (r.Answered? ==> !r.frame.error && Arrive(r.frame) in run)
    && (r.RemoteError? ==> r.frame.error && Arrive(r.frame) in run)
    && (r.ConnectionLost? ==> LoseConnection in run)
    && (r.WriteFailed? ==> WriteFails(k) in run)
    && (r.ContextDone? ==> CancelContext(k) in run)
  }

  lemma StepCaused(run: seq<Action>, c: Client, a: Action)
    requires Caused(run, c)
    ensures Caused(run + [a], Next(c, a))
  {
    hide Wrapped;
    var longer := run + [a];
    assert a in longer && forall x | x in run :: x in longer;
    hide Caused;
    var d := Next(c, a);
    assert Caused(longer, c) by {
      CausedLater(run, longer, c);
    }
    CausedByStep(longer, c, a);
  }

  lemma CausedLater(run: seq<Action>, longer: seq<Action>, c: Client)
    requires Caused(run, c) && forall x | x in run :: x in longer
    ensures Caused(longer, c)
  {
    forall k | 0 <= k < |c.calls|
      ensures CallCaused(longer, c.calls[k], k)
    {
      assert CallCaused(run, c.calls[k], k);
    }
  }

  lemma CausedByStep(run: seq<Action>, c: Client, a: Action)
    requires Caused(run, c) && a in run
    ensures Caused(run, Next(c, a))
  {
    hide Wrapped;
    var d := Next(c, a);
    forall k | 0 <= k < |d.calls|
      ensures CallCaused(run, d.calls[k], k)
    {
      if k < |c.calls| {
        assert CallCaused(run, c.calls[k], k);
      }
    }
  }

  lemma {:induction false} RunCaused(run: seq<Action>)
    ensures Caused(run, After(run))
  {
    hide Next, Caused;
    if run == [] {
      NothingCaused();
    } else {
      RunCaused(run[..|run| - 1]);
      StepCaused(run[..|run| - 1], After(run[..|run| - 1]), run[|run| - 1]);
      assert run[..|run| - 1] + [run[|run| - 1]] == run;
    }
  }

  lemma NothingCaused()
    ensures Caused([], NEW_CLIENT)
  {
  }

  /** Whatever a call returns has its cause: a frame read, a connection lost, a failed write, a cancelled context. */
  lemma OutcomesHaveCauses(run: seq<Action>, k: nat)
    requires k < |After(run).calls| && After(run).calls[k].stage.Returned?
    ensures var call, r := After(run).calls[k], After(run).calls[k].stage.result;
            && (r.Answered? ==> !r.frame.error && Arrive(r.frame) in run && r.frame.id == call.id)
            && (r.RemoteError? ==> r.frame.error && Arrive(r.frame) in run && r.frame.id == call.id)
            && (r == ConnectionLost ==> LoseConnection in run)
            && (r == WriteFailed ==> WriteFails(k) in run)
            && (r == ContextDone ==> CancelContext(k) in run)
  {
    RunCaused(run);
    RepliesReachTheirCaller(run, k);
    hide After;
    assert CallCaused(run, After(run).calls[k], k);
  }

  /** A frame that arrives under the ID of a waiting call is what the call returns, as a reply or as an error. */
  lemma FrameReachesItsCaller(run: seq<Action>, f: Frame, k: nat)
    requires var c := After(run);
             && c.loop == Reading && c.inflight != None && f.id in c.inflight.value && c.inflight.value[f.id] == k
    ensures k < |After(run).calls|
    ensures var c := After(run + [Arrive(f)] + [SendFrame]);
            k < |c.calls| && c.calls[k].slot == [Reply(f)] && c.loop == Reading && c.inflight != None
            && f.id !in c.inflight.value
    ensures After(run).calls[k].stage == Waiting ==>
              var c := After(run + [Arrive(f)] + [SendFrame] + [TakeItem(k)]);
              && k < |c.calls|
              && c.calls[k].stage == Returned(if f.error then RemoteError(f) else Answered(f))
  {
    RunSound(run);
    AfterMore(run, Arrive(f));
    AfterMore(run + [Arrive(f)], SendFrame);
    AfterMore(run + [Arrive(f)] + [SendFrame], TakeItem(k));
    hide After;
    assert CallSound(After(run), k) && Owed(After(run), k);
    hide CallsSound, LoopSound;
  }

  /** A caller whose context ends, or whose write fails, returns with that and leaves no entry under its ID. */
  lemma WithdrawnCallReturns(run: seq<Action>, k: nat)
    requires k < |After(run).calls|
    ensures After(run).calls[k].stage == Waiting ==>
              var c := After(run + [CancelContext(k)] + [SeeCancel(k)] + [Withdraw(k)]);
              && k < |c.calls| && c.calls[k].stage == Returned(ContextDone)
              && (c.inflight != None ==> c.calls[k].id !in c.inflight.value)
    ensures After(run).calls[k].stage == Registered ==>
              var c := After(run + [WriteFails(k)] + [Withdraw(k)]);
              && k < |c.calls| && c.calls[k].stage == Returned(WriteFailed)
              && (c.inflight != None ==> c.calls[k].id !in c.inflight.value)
    ensures After(run).calls[k].stage == Registered ==> After(run + [WriteOK(k)]).calls[k].stage == Waiting
  {
    AfterMore(run, CancelContext(k));
    AfterMore(run + [CancelContext(k)], SeeCancel(k));
    AfterMore(run + [CancelContext(k)] + [SeeCancel(k)], Withdraw(k));
    AfterMore(run, WriteFails(k));
    AfterMore(run + [WriteFails(k)], Withdraw(k));
    AfterMore(run, WriteOK(k));
    hide After;
  }

  /** A call is registered under the next ID, unless the connection is lost: then it is refused. */
  lemma StartExactly(run: seq<Action>)
    ensures var c, d := After(run), After(run + [StartCall]);
            if c.inflight == None then d == c.(refused := c.refused + 1)
            else
              && |d.calls| == |c.calls| + 1 && d.calls[..|c.calls|] == c.calls && d.refused == c.refused
              && d.calls[|c.calls|] == Call(c.nextID, Registered, [], 0, false)
              && d.inflight == Some(c.inflight.value[c.nextID := |c.calls|]) && d.loop == c.loop
              && d.nextID == if c.nextID == 0xffff_ffff_ffff_ffff then 0 else c.nextID + 1
  {
    RunSound(run);
    AfterMore(run, StartCall);
    hide After, Sound;
  }

  /** Two of the first 2^64 calls never share an ID. */
  lemma IdsAreUnique(run: seq<Action>, j: nat, k: nat)
    requires |After(run).calls| <= ID_SPACE && j < k < |After(run).calls|
    ensures After(run).calls[j].id != After(run).calls[k].id
  {
    RunSound(run);
    hide After, Sound, Wrapped;
    WrappedMeans(j);
    WrappedMeans(k);
  }

  /** The read loop never waits for a caller: every channel it is about to send into has room. */
  lemma LoopNeverBlocks(run: seq<Action>)
    ensures var c := After(run);
            && (c.loop.Sending? ==> Enabled(c, SendFrame))
            && (c.loop.Failing? ==> forall k | k in c.loop.pending :: Enabled(c, SendLost(k)))
  {
    RunSound(run);
    var c := After(run);
    if c.loop.Sending? {
      assert CallSound(c, c.loop.k) && Owed(c, c.loop.k);
    } else if c.loop.Failing? {
      forall k | k in c.loop.pending
        ensures Enabled(c, SendLost(k))
      {
        assert k < |c.calls| && CallSound(c, k) && Owed(c, k);
      }
    }
  }

  /**
   * When the loop is gone, a caller that still waits has its reply or the loss notice in its channel exactly when no
   * step of the run stranded it; and up to 2^64 calls none does.
   */
  lemma NobodyWaitsForever(run: seq<Action>, k: nat)
    requires After(run).loop == Exited && k < |After(run).calls| && Expecting(After(run).calls[k])
    ensures var call := After(run).calls[k];
            if StrandedIn(run, k) then call.slot == []
            else |call.slot| == 1 && (call.slot[0] == Lost || call.slot[0].frame.id == call.id)
    ensures |After(run).calls| <= ID_SPACE ==> !StrandedIn(run, k)
  {
    hide StrandedIn;
    RunSound(run);
    AttendedExactly(run, k);
    assert CallSound(After(run), k);
    if |After(run).calls| <= ID_SPACE {
      FewCallsStrandNobody(run, k);
    }
  }

  /** Once the connection is lost, every later call is refused at once. */
  lemma {:induction false} LostStaysLost(run: seq<Action>, more: seq<Action>)
    requires After(run).inflight == None
    ensures After(run + more).inflight == None
    ensures |After(run + more).calls| == |After(run).calls|
  {
    if more == [] {
      assert run + more == run;
    } else {
      LostStaysLost(run, more[..|more| - 1]);
      assert (run + more)[..|run + more| - 1] == run + more[..|more| - 1];
    }
  }

  // ------------------------------------------------------------------
  // When the IDs wrap around
  // ------------------------------------------------------------------

  /** The run, and then n calls and nothing else. */
  function Calls(run: seq<Action>, n: nat): seq<Action> {
    if n == 0 then run else Calls(run, n - 1) + [StartCall]
  }

  /** One more call while the connection lasts. */
  lemma OneMoreCall(c: Client)
    requires c.inflight != None
    ensures var d := Next(c, StartCall);
            && d.calls == c.calls + [Call(c.nextID, Registered, [], 0, false)] && d.loop == c.loop
            && d.inflight == Some(c.inflight.value[c.nextID := |c.calls|])
  {
    hide Wrapped;
  }

  lemma CallsStep(run: seq<Action>, n: nat)
    requires n > 0
    ensures After(Calls(run, n)) == Next(After(Calls(run, n - 1)), StartCall)
  {
    hide Next;
    assert Calls(run, n)[..|Calls(run, n)| - 1] == Calls(run, n - 1);
  }

  /** c is b after n more calls and nothing else. */
  predicate OnlyCalls(b: Client, c: Client, n: nat) {
    && |c.calls| == |b.calls| + n && c.loop == b.loop && c.inflight != None
    && (n > 0 ==> Holds(c, c.calls[|c.calls| - 1].id, |c.calls| - 1))
    && (forall k | 0 <= k < |b.calls| :: c.calls[k] == b.calls[k])
    && forall k | |b.calls| <= k < |c.calls| :: c.calls[k].stage == Registered && c.calls[k].slot == []
  }

  lemma {:induction false} AfterCalls(run: seq<Action>, n: nat)
    requires After(run).inflight != None
    ensures OnlyCalls(After(run), After(Calls(run, n)), n)
  {
    hide After, OnlyCalls;
    if n == 0 {
      assert Calls(run, 0) == run;
      NoCalls(After(run));
    } else {
      CallsStep(run, n);
      AfterCalls(run, n - 1);
      OneMoreOnly(After(run), After(Calls(run, n - 1)), n - 1);
    }
  }

  lemma NoCalls(c: Client)
    requires c.inflight != None
    ensures OnlyCalls(c, c, 0)
  {
  }

  lemma OneMoreOnly(b: Client, c: Client, n: nat)
    requires OnlyCalls(b, c, n)
    ensures OnlyCalls(b, Next(c, StartCall), n + 1)
  {
    OneMoreCall(c);
    hide Next;
  }

  /** The caller has nothing in its channel and nobody will put anything there. */
  predicate Stranded(c: Client, k: nat) {
    k < |c.calls| && c.calls[k].slot == [] && !Owed(c, k)
  }

  lemma StrandedForGood(c: Client, a: Action, k: nat)
    requires MapSound(c) && Stranded(c, k)
    ensures Stranded(Next(c, a), k)
  {
  }

  lemma {:induction false} StaysStranded(run: seq<Action>, more: seq<Action>, k: nat)
    requires Stranded(After(run), k)
    ensures Stranded(After(run + more), k)
  {
    hide Stranded;
    if more == [] {
      assert run + more == run;
    } else {
      StaysStranded(run, more[..|more| - 1], k);
      assert (run + more)[..|run + more| - 1] == run + more[..|more| - 1];
      RunSound(run + more[..|more| - 1]);
      StrandedForGood(After(run + more[..|more| - 1]), more[|more| - 1], k);
    }
  }

  /** A stranded call stays without an answer in every continuation. */
  lemma StrandsForGood(run: seq<Action>, a: Action, more: seq<Action>, k: nat)
    requires Strands(After(run), a, k)
    ensures k < |After(run + [a]).calls| && Expecting(After(run + [a]).calls[k])
    ensures Stranded(After(run + [a] + more), k)
  {
    var c := After(run);
    RunSound(run);
    assert (run + [a])[..|run|] == run;
    StrandedStaysExpecting(c, a, k);
    StepAttended(c, a, k);
    StaysStranded(run + [a], more, k);
  }

  /**
   * One way to be stranded: with 2^64 calls in flight the next one takes over the ID of the first, which is then never
   * answered and not told of a lost connection either, whatever happens afterwards.
   */
  lemma WrapStrandsACaller(more: seq<Action>)
    ensures var run := Calls([], ID_SPACE);
            && |After(run).calls| == ID_SPACE && Strands(After(run), StartCall, 0)
            && Stranded(After(run + [StartCall] + more), 0)
  {
    var run := Calls([], ID_SPACE);
    AfterCalls([], ID_SPACE);
    RunSound(run);
    hide After, Calls, Wrapped, Sound;
    WrappedMeans(0);
    WrappedMeans(ID_SPACE);
    forall k: nat | 0 < k < ID_SPACE
      ensures Wrapped(k) != Wrapped(0)
    {
      WrappedMeans(k);
    }
    FirstIsHeld(ID_SPACE);
    StrandsForGood(run, StartCall, more, 0);
  }

  /** As long as the first ID does not come round again, the first call keeps its entry. */
  lemma {:induction false} FirstIsHeld(n: nat)
    requires n > 0 && forall k: nat | 0 < k < n :: Wrapped(k) != Wrapped(0)
    ensures Holds(After(Calls([], n)), Wrapped(0), 0)
  {
    CallsStep([], n);
    AfterCalls([], n - 1);
    RunSound(Calls([], n - 1));
    hide Next, After, Calls, Wrapped, Sound;
    if n > 1 {
      FirstIsHeld(n - 1);
    }
    HeldStays(After(Calls([], n - 1)), n - 1);
  }

  lemma HeldStays(c: Client, n: nat)
    requires c.inflight != None && |c.calls| == n && Numbered(c)
    requires n > 0 ==> Holds(c, Wrapped(0), 0) && Wrapped(n) != Wrapped(0)
    ensures Holds(Next(c, StartCall), Wrapped(0), 0)
  {
    hide Wrapped, Next;
    OneMoreCall(c);
  }

  /**
   * The other way: a caller whose write failed has not withdrawn yet when, 2^64 calls later, its ID comes round again.
   * Its withdrawal then deletes the entry of the new call, which nobody will answer.
   */
  lemma LateWithdrawalStrandsACaller(more: seq<Action>)
    ensures var run := Calls([StartCall, WriteFails(0)], ID_SPACE);
            && |After(run).calls| == ID_SPACE + 1 && Strands(After(run), Withdraw(0), ID_SPACE)
            && Stranded(After(run + [Withdraw(0)] + more), ID_SPACE)
  {
    var start := [StartCall, WriteFails(0)];
    var run := Calls(start, ID_SPACE);
    assert start[..1] == [StartCall] && [StartCall][..0] == [];
    AfterCalls(start, ID_SPACE);
    RunSound(run);
    WrappedMeans(0);
    WrappedMeans(ID_SPACE);
    hide After, Calls, Wrapped;
    assert After(run).calls[ID_SPACE].id == 0 == After(run).calls[0].id;
    StrandsForGood(run, Withdraw(0), more, ID_SPACE);
  }
}
