/** The agent gateway client: an at-least-once event and ack loop over reconnects. Each
    method of Client is one uninterrupted turn of the event loop; callbacks, socket frames,
    timers and promise continuations may come in any order between turns. */
module AgentGateway {
  import opened Basics

  /** A link of the event chain; None stands for an event that fails validation. */
  datatype Task = Event(sequence: Option<nat>) | Sync(current: nat)

  datatype Promise = Unsettled | Resolved | Rejected

  /** The task at work: waiting for a callback, or for the promise of an ack. */
  datatype Running =
    | Nothing | InCallback(sequence: nat) | AwaitingAck(sequence: nat, promise: Promise) | InSync(current: nat)

  /** A pending ack; it is orphaned when the send of its frame threw, which ended its task. */
  datatype PendingAck = PendingAck(orphaned: bool)

  /** What a socket may deliver; None is a sequence that fails validation. */
  datatype Frame =
    | Ready | Ack(sequence: Option<nat>) | EventFrame(event: Option<nat>) | SyncRequired(current: Option<nat>) | Other

  datatype ConnectResult = Opening | AlreadyStarted | InvalidSequence | Aborted

  // ----- the history of a client -----

  /** Reset: connect, or a completed sync_required. Started: an event task began. Called and
      Returned: its callback. Acked: an ack frame arrived for a pending ack. Folded: the
      sequence was folded into lastSequence. */
  datatype Entry = Reset(n: nat) | Started(n: nat) | Called(n: nat) | Returned(n: nat) | Acked(n: nat) | Folded(n: nat)

  function LevelAfter(level: nat, e: Entry): (r: nat) {
    if e.Reset? then e.n else if e.Folded? then Max(level, e.n) else level
  }

  /** lastSequence, as the history determines it. */
  function Level(log: seq<Entry>): (r: nat) {
    if log == [] then 0 else LevelAfter(Level(log[..|log| - 1]), log[|log| - 1])
  }

  /** The event task that began at t is the last one, and had its callback, if one was
      required, called and returned by now. */
  ghost predicate CallbackDone(log: seq<Entry>, t: nat, s: nat) {
    && t < |log| && log[t] == Started(s)
    && (forall x :: t < x < |log| ==> !log[x].Started?)
    && (s > Level(log[..t]) ==> exists k :: t < k < |log| && log[k] == Returned(s))
  }

  /** The event task that began at t is the last one, and its sequence was new then. */
  ghost predicate IsNew(log: seq<Entry>, t: nat, s: nat) {
    && t < |log| && log[t] == Started(s) && s > Level(log[..t])
    && forall x :: t < x < |log| ==> !log[x].Started?
  }

  /** ... and an ack frame for its sequence arrived after that. */
  ghost predicate Justified(log: seq<Entry>, t: nat, s: nat) {
    && t < |log|
    && (forall x :: t < x < |log| ==> !log[x].Started?)
    && exists j :: t < j < |log| && log[j] == Acked(s) && CallbackDone(log[..j], t, s)
  }

  ghost predicate Allowed(log: seq<Entry>, e: Entry) {
    match e
    case Called(s) => s > Level(log)
    case Folded(s) => exists t :: Justified(log, t, s)
    case _ => true
  }

  /** Every callback and every fold in the history was allowed when it happened. */
  ghost predicate Good(log: seq<Entry>) {
    forall i :: 0 <= i < |log| ==> Allowed(log[..i], log[i])
  }

  lemma GoodStep(log: seq<Entry>, e: Entry)
    requires Good(log) && Allowed(log, e)
    ensures Good(log + [e])
  {
    hide Allowed;
    forall i | 0 <= i < |log + [e]|
      ensures Allowed((log + [e])[..i], (log + [e])[i])
    {
      assert (log + [e])[..i] == log[..i];
      assert i == |log| ==> log[..i] == log;
    }
  }

  lemma LevelStep(log: seq<Entry>, e: Entry)
    ensures Level(log + [e]) == LevelAfter(Level(log), e)
  {
    assert (log + [e])[..|log|] == log;
  }

  /** An entry that starts no task keeps what is known of the running one. */
  lemma CallbackDoneKept(log: seq<Entry>, e: Entry, t: nat, s: nat)
    requires CallbackDone(log, t, s) && !e.Started?
    ensures CallbackDone(log + [e], t, s)
  {
    assert (log + [e])[..t] == log[..t];
    if s > Level(log[..t]) {
      var k :| t < k < |log| && log[k] == Returned(s);
      assert (log + [e])[k] == Returned(s);
    }
  }

  lemma IsNewKept(log: seq<Entry>, e: Entry, t: nat, s: nat)
    requires IsNew(log, t, s) && !e.Started?
    ensures IsNew(log + [e], t, s)
  {
    assert (log + [e])[..t] == log[..t];
  }

  /** The start of an event task. */
  lemma Begun(log: seq<Entry>, s: nat)
    ensures s <= Level(log) ==> CallbackDone(log + [Started(s)], |log|, s)
    ensures s > Level(log) ==> IsNew(log + [Started(s)], |log|, s)
  {
    assert (log + [Started(s)])[..|log|] == log;
  }

  lemma ReturnedIsDone(log: seq<Entry>, t: nat, s: nat)
    requires IsNew(log, t, s)
    ensures CallbackDone(log + [Returned(s)], t, s)
  {
    assert (log + [Returned(s)])[|log|] == Returned(s);
  }

  lemma JustifiedKept(log: seq<Entry>, e: Entry, t: nat, s: nat)
    requires Justified(log, t, s) && !e.Started?
    ensures Justified(log + [e], t, s)
  {
    hide CallbackDone;
    var j :| t < j < |log| && log[j] == Acked(s) && CallbackDone(log[..j], t, s);
    assert (log + [e])[..j] == log[..j] && (log + [e])[j] == log[j];
  }

  lemma AckJustifies(log: seq<Entry>, t: nat, s: nat)
    requires CallbackDone(log, t, s)
    ensures Justified(log + [Acked(s)], t, s)
  {
    var more := log + [Acked(s)];
    assert more[..|log|] == log && more[|log|] == Acked(s);
  }

  // ----- the client -----

  class Client {
    var stopped: bool
    var generation: nat
    var lastSequence: nat
    var hasSocket: bool
    var pendingAcks: map<nat, PendingAck>
    var chain: seq<Task>
    var running: Running
    ghost var log: seq<Entry>
    ghost var start: nat        // where in the log the running event task began
    ghost var sendThrew: bool   // some send of an ack frame has thrown

    constructor ()
      ensures Valid() && stopped && pendingAcks == map[] && log == [] && !sendThrew && chain == [] && running == Nothing
    {
      stopped, generation, lastSequence, hasSocket := true, 0, 0, false;
      pendingAcks, chain, running := map[], [], Nothing;
      log, start, sendThrew := [], 0, false;
    }

    ghost predicate Valid()
      reads this
    {
      && Good(log) && lastSequence == Level(log)
      && (forall s :: s in pendingAcks && !pendingAcks[s].orphaned ==> running == AwaitingAck(s, Unsettled))
      && (!sendThrew ==> forall s :: s in pendingAcks ==> !pendingAcks[s].orphaned)
      && RunningValid()
    }

    function Current(): (s: State)
      reads this
    {
      State(running, pendingAcks, chain, lastSequence, hasSocket)
    }

    ghost predicate RunningValid()
      reads this
    {
      match running
      case Nothing => true
      case InSync(_) => true
      case InCallback(s) => IsNew(log, start, s)
      case AwaitingAck(s, promise) =>
        && (promise == Unsettled ==> s in pendingAcks)
        && (promise == Resolved ==> Justified(log, start, s))
        && (promise == Unsettled ==> CallbackDone(log, start, s))
    }

    /** Appends an allowed entry that starts no task and does not move lastSequence. */
    ghost method Note(e: Entry)
      requires Valid() && Allowed(log, e) && !e.Started? && !e.Reset? && !e.Folded?
      modifies this`log
      ensures Valid() && log == old(log) + [e]
    {
      NoteKeepsRunning(e);
      hide Good, Justified, CallbackDone, IsNew, Allowed;
      GoodStep(log, e);
      LevelStep(log, e);
      log := log + [e];
    }

    lemma NoteKeepsRunning(e: Entry)
      requires RunningValid() && !e.Started?
      ensures running.InCallback? ==> IsNew(log + [e], start, running.sequence)
      ensures running.AwaitingAck? && running.promise == Resolved ==> Justified(log + [e], start, running.sequence)
      ensures running.AwaitingAck? && running.promise == Unsettled ==> CallbackDone(log + [e], start, running.sequence)
    {
      hide Justified, CallbackDone, IsNew;
      if running.InCallback? {
        IsNewKept(log, e, start, running.sequence);
      }
      if running.AwaitingAck? && running.promise == Resolved {
        JustifiedKept(log, e, start, running.sequence);
      }
      if running.AwaitingAck? && running.promise == Unsettled {
        CallbackDoneKept(log, e, start, running.sequence);
      }
    }

    /** connect up to its #open. A started client throws; an invalid lastSequence throws when
        the client is already marked as started; an aborted signal stops it again. */
    method Connect(last: Option<nat>, aborted: bool) returns (r: ConnectResult)
      requires Valid()
      modifies this`stopped, this`lastSequence, this`generation
      modifies this`pendingAcks, this`running, this`hasSocket, this`log
      ensures Valid()
      ensures r ==
        if !old(stopped) then AlreadyStarted else if last == None then InvalidSequence
        else if aborted then Aborted else Opening
      ensures r == AlreadyStarted || r == InvalidSequence ==>
        && log == old(log) && lastSequence == old(lastSequence) && generation == old(generation)
        && pendingAcks == old(pendingAcks) && running == old(running) && hasSocket == old(hasSocket) && !stopped
      ensures r == Aborted || r == Opening ==>
        && lastSequence == last.value && log == old(log) + [Reset(last.value)] && generation == old(generation) + 1
      ensures r == Aborted ==> stopped && pendingAcks == map[] && !hasSocket
      ensures r == Opening ==>
        !stopped && pendingAcks == old(pendingAcks) && running == old(running) && hasSocket == old(hasSocket)
    {
      hide Good, Justified, CallbackDone, IsNew;
      if !stopped {
        return AlreadyStarted;
      }
      stopped := false;
      if last == None {
        return InvalidSequence;
      }
      lastSequence := last.value;
      NoteReset(last.value);
      if aborted {
        Stop();
        return Aborted;
      }
      generation := generation + 1;
      return Opening;
    }

    ghost method NoteReset(n: nat)
      requires Good(log) && RunningValid() && lastSequence == n
      requires forall s :: s in pendingAcks && !pendingAcks[s].orphaned ==> running == AwaitingAck(s, Unsettled)
      requires !sendThrew ==> forall s :: s in pendingAcks ==> !pendingAcks[s].orphaned
      modifies this`log
      ensures Valid() && log == old(log) + [Reset(n)]
    {
      NoteKeepsRunning(Reset(n));
      hide Good, Justified, CallbackDone, IsNew;
      GoodStep(log, Reset(n));
      LevelStep(log, Reset(n));
      log := log + [Reset(n)];
    }

    /** stop. */
    method Stop()
      requires Valid()
      modifies this`stopped, this`generation, this`pendingAcks, this`running, this`hasSocket
      ensures Valid() && stopped
      ensures !old(stopped) ==> pendingAcks == map[] && !hasSocket && generation == old(generation) + 1
      ensures old(stopped) ==>
        pendingAcks == old(pendingAcks) && hasSocket == old(hasSocket) && generation == old(generation)
    {
      hide Good, Justified, CallbackDone, IsNew;
      if stopped {
        return;
      }
      stopped, generation := true, generation + 1;
      RejectPendingAcks();
      hasSocket := false;
    }

    /** #rejectPendingAcks. */
    method RejectPendingAcks()
      requires Valid()
      modifies this`pendingAcks, this`running
      ensures Valid() && pendingAcks == map[]
      ensures running == if old(running).AwaitingAck? && old(running).promise == Unsettled
        then old(running).(promise := Rejected) else old(running)
    {
      hide Good, Justified, CallbackDone, IsNew;
      if running.AwaitingAck? && running.promise == Unsettled {
        running := running.(promise := Rejected);
      }
      pendingAcks := map[];
    }

    /** A reconnect timer: #open up to the socket factory. */
    method Reopen()
      requires Valid()
      modifies this`generation
      ensures Valid() && generation == old(generation) + 1
    {
      generation := generation + 1;
    }

    /** The factory's socket arrives, also when the client has been stopped meanwhile. */
    method SocketArrives()
      requires Valid()
      modifies this`hasSocket
      ensures Valid() && hasSocket
    {
      hasSocket := true;
    }

    /** The message handler of the socket opened under generation g. */
    method OnMessage(g: nat, frame: Frame)
      requires Valid()
      modifies this`chain, this`pendingAcks, this`running, this`log
      ensures Valid() && (!frame.Ack? ==> running == old(running))
      ensures pendingAcks ==
        if g == generation && !stopped && frame.Ack? && frame.sequence.Some?
        then old(pendingAcks) - {frame.sequence.value} else old(pendingAcks)
      ensures g != generation || stopped ==> log == old(log) && chain == old(chain) && running == old(running)
      ensures g == generation && !stopped ==>
        chain == old(chain) + match frame
          case EventFrame(e) => [Event(e)]
          case SyncRequired(n) => if n.Some? then [Sync(n.value)] else []
          case _ => []
      ensures log ==
        if g == generation && !stopped && frame.Ack? && frame.sequence.Some? && frame.sequence.value in old(pendingAcks)
        then old(log) + [Acked(frame.sequence.value)] else old(log)
    {
      hide Good, Justified, CallbackDone, IsNew, Allowed;
      if g != generation || stopped {
        return;
      }
      match frame {
        case Ready =>
        case Ack(sequence) =>
          if sequence.Some? {
            ResolveAck(sequence.value);
          }
        case EventFrame(e) =>
          chain := chain + [Event(e)];
        case SyncRequired(n) =>
          if n.Some? {
            chain := chain + [Sync(n.value)];
          }
        case Other =>
      }
    }

    /** #resolveAck. */
    method ResolveAck(s: nat)
      requires Valid()
      modifies this`pendingAcks, this`running, this`log
      ensures Valid()
      ensures s !in old(pendingAcks) ==> log == old(log) && pendingAcks == old(pendingAcks) && running == old(running)
      ensures s in old(pendingAcks) ==> log == old(log) + [Acked(s)] && pendingAcks == old(pendingAcks) - {s}
      ensures s in old(pendingAcks) && old(running) == AwaitingAck(s, Unsettled) ==> running == AwaitingAck(s, Resolved)
    {
      hide Good, Justified, CallbackDone, IsNew, Level;
      if s !in pendingAcks {
        return;
      }
      if running == AwaitingAck(s, Unsettled) {
        AckJustifies(log, start, s);
      }
      Note(Acked(s));
      pendingAcks := pendingAcks - {s};
      if running == AwaitingAck(s, Unsettled) {
        running := AwaitingAck(s, Resolved);
      }
    }

    /** The timer of a pending ack. */
    method AckTimeout(s: nat)
      requires Valid()
      modifies this`pendingAcks, this`running
      ensures Valid() && pendingAcks == old(pendingAcks) - {s}
    {
      hide Good, Justified, CallbackDone, IsNew;
      if s !in pendingAcks {
        assert pendingAcks == pendingAcks - {s};
        return;
      }
      pendingAcks := pendingAcks - {s};
      if running == AwaitingAck(s, Unsettled) {
        running := AwaitingAck(s, Rejected);
      }
    }

    /** The close handler of the socket opened under generation g; a reconnect is scheduled
        unless the client is stopped. */
    method OnClose(g: nat)
      requires Valid()
      modifies this`hasSocket, this`pendingAcks, this`running
      ensures Valid()
      ensures g == generation ==> !hasSocket && pendingAcks == map[]
      ensures g != generation ==> hasSocket == old(hasSocket) && pendingAcks == old(pendingAcks)
    {
      hide Good, Justified, CallbackDone, IsNew;
      if g != generation {
        return;
      }
      hasSocket := false;
      RejectPendingAcks();
    }

    /** An event task begins. */
    ghost method Begin(s: nat)
      requires Valid() && running == Nothing
      modifies this`log, this`start
      ensures Valid() && log == old(log) + [Started(s)] && start == |old(log)|
      ensures if s <= lastSequence then CallbackDone(log, start, s) else IsNew(log, start, s)
    {
      hide Good, CallbackDone, IsNew, Level;
      GoodStep(log, Started(s));
      LevelStep(log, Started(s));
      Begun(log, s);
      start := |log|;
      log := log + [Started(s)];
    }

    /** #consumeEvent up to its first wait: an event not seen yet goes to its callback, a
        redelivered one straight to its ack. */
    method ConsumeEvent(s: nat, socketOpen: bool, throws: bool)
      requires Valid() && running == Nothing
      modifies this`running, this`pendingAcks, this`log, this`start, this`sendThrew
      ensures Valid()
      ensures if s > lastSequence then
          && running == InCallback(s) && pendingAcks == old(pendingAcks) && sendThrew == old(sendThrew)
          && log == old(log) + [Started(s), Called(s)]
        else log == old(log) + [Started(s)] && AckAttempted(s, socketOpen, throws)
    {
      hide Good, Justified, CallbackDone, IsNew, Level;
      Begin(s);
      if s > lastSequence {
        IsNewKept(log, Called(s), start, s);
        Note(Called(s));
        running := InCallback(s);
      } else {
        AckOverSocket(s, socketOpen, throws);
      }
    }

    /** The next link of the event chain begins. */
    method RunNext(socketOpen: bool, throws: bool)
      requires Valid() && running == Nothing && chain != []
      modifies this`chain, this`running, this`pendingAcks, this`log, this`start, this`sendThrew
      ensures Valid() && chain == old(chain)[1..]
      ensures var task := old(chain)[0];
        if task.Sync? then
          && running == InSync(task.current) && pendingAcks == old(pendingAcks)
          && log == old(log) && sendThrew == old(sendThrew)
        else if task.sequence == None || task.sequence.value == 0 then
          running == Nothing && pendingAcks == old(pendingAcks) && log == old(log) && sendThrew == old(sendThrew)
        else if task.sequence.value > lastSequence then
          && running == InCallback(task.sequence.value)
          && pendingAcks == old(pendingAcks) && sendThrew == old(sendThrew)
          && log == old(log) + [Started(task.sequence.value), Called(task.sequence.value)]
        else log == old(log) + [Started(task.sequence.value)] && AckAttempted(task.sequence.value, socketOpen, throws)
    {
      hide Good, Justified, CallbackDone, IsNew;
      var task := chain[0];
      chain := chain[1..];
      if task.Sync? {
        running := InSync(task.current);
        return;
      }
      if task.sequence == None || task.sequence.value == 0 {
        return; // the event or its sequence is invalid
      }
      ConsumeEvent(task.sequence.value, socketOpen, throws);
    }

    /** The onEvent callback settles: a rejection ends the event task without an ack. */
    method CallbackSettles(ok: bool, socketOpen: bool, throws: bool)
      requires Valid() && running.InCallback?
      modifies this`running, this`pendingAcks, this`log, this`sendThrew
      ensures Valid()
      ensures !ok ==>
        running == Nothing && log == old(log) && pendingAcks == old(pendingAcks) && sendThrew == old(sendThrew)
      ensures ok ==>
        && log == old(log) + [Returned(old(running).sequence)]
        && AckAttempted(old(running).sequence, socketOpen, throws)
    {
      hide Good, Justified, CallbackDone, IsNew;
      var s := running.sequence;
      running := Nothing;
      if !ok {
        return;
      }
      Returns(s);
      AckOverSocket(s, socketOpen, throws);
    }

    ghost method Returns(s: nat)
      requires Valid() && running == Nothing && IsNew(log, start, s)
      modifies this`log
      ensures Valid() && log == old(log) + [Returned(s)] && CallbackDone(log, start, s)
    {
      hide Good, Justified, CallbackDone, IsNew;
      ReturnedIsDone(log, start, s);
      Note(Returned(s));
    }

    /** The effect of one ack attempt for s. */
    twostate predicate AckAttempted(s: nat, socketOpen: bool, throws: bool)
      reads this
    {
      if !hasSocket || !socketOpen then
        running == Nothing && pendingAcks == old(pendingAcks) && sendThrew == old(sendThrew)
      else if s in old(pendingAcks) then
        running == AwaitingAck(s, Unsettled) && pendingAcks == old(pendingAcks) && sendThrew == old(sendThrew)
      else
        && pendingAcks == old(pendingAcks)[s := PendingAck(throws)]
        && running == (if throws then Nothing else AwaitingAck(s, Unsettled))
        && sendThrew == (old(sendThrew) || throws)
    }

    /** #ackOverSocket: without an open socket the event task fails; an ack already pending for the
        sequence is shared; a send that throws fails it and leaves its ack pending. */
    method AckOverSocket(s: nat, socketOpen: bool, throws: bool)
      requires Valid() && running == Nothing && CallbackDone(log, start, s)
      modifies this`running, this`pendingAcks, this`sendThrew
      ensures Valid() && AckAttempted(s, socketOpen, throws)
      ensures |old(pendingAcks)| <= 1 ==>
        (|pendingAcks| <= 1 <==> !hasSocket || !socketOpen || s in old(pendingAcks) || old(pendingAcks) == map[])
    {
      hide Good, Justified, CallbackDone, IsNew;
      OneMoreAck(pendingAcks, s, PendingAck(throws));
      if !hasSocket || !socketOpen {
        return;
      }
      if s in pendingAcks {
        running := AwaitingAck(s, Unsettled);
        return;
      }
      if throws {
        pendingAcks := pendingAcks[s := PendingAck(true)];
        sendThrew := true;
        return;
      }
      pendingAcks := pendingAcks[s := PendingAck(false)];
      running := AwaitingAck(s, Unsettled);
    }

    /** The continuation of a settled ack promise: only a resolved one folds its sequence in. */
    method ResumeAck()
      requires Valid() && running.AwaitingAck? && running.promise != Unsettled
      modifies this`running, this`lastSequence, this`log
      ensures Valid() && running == Nothing
      ensures old(running).promise == Rejected ==> lastSequence == old(lastSequence) && log == old(log)
      ensures old(running).promise == Resolved ==>
        && lastSequence == Max(old(lastSequence), old(running).sequence)
        && log == old(log) + [Folded(old(running).sequence)]
    {
      hide Good, Justified, CallbackDone, IsNew;
      if running.promise == Resolved {
        GoodStep(log, Folded(running.sequence));
        LevelStep(log, Folded(running.sequence));
        log := log + [Folded(running.sequence)];
        lastSequence := Max(lastSequence, running.sequence);
      }
      running := Nothing;
    }

    /** The onSyncRequired callback settles. */
    method SyncSettles(ok: bool)
      requires Valid() && running.InSync?
      modifies this`running, this`lastSequence, this`log
      ensures Valid() && running == Nothing
      ensures lastSequence == if ok then old(running).current else old(lastSequence)
      ensures log == if ok then old(log) + [Reset(old(running).current)] else old(log)
    {
      hide Good, Justified, CallbackDone, IsNew;
      var n := running.current;
      running := Nothing;
      if ok {
        lastSequence := n;
        NoteReset(n);
      }
    }
  }

  /** Adding an ack to at most one leaves at most one exactly when it replaces it or is the first. */
  lemma OneMoreAck(acks: map<nat, PendingAck>, s: nat, ack: PendingAck)
    ensures |acks| <= 1 ==> (|acks[s := ack]| <= 1 <==> s in acks || acks == map[])
    ensures s !in acks && acks != map[] ==> |acks[s := ack]| >= 2
  {
    var more := acks[s := ack];
    if s in acks {
      assert more.Keys == acks.Keys;
    } else {
      assert more.Keys == acks.Keys + {s};
    }
    assert |more| == |more.Keys| && |acks| == |acks.Keys|;
    assert acks == map[] <==> acks.Keys == {};
  }

  lemma FewerAcks(acks: map<nat, PendingAck>, s: nat)
    ensures |acks - {s}| <= |acks|
  {
    var fewer := acks - {s};
    assert fewer.Keys == acks.Keys - {s};
    assert |fewer| == |fewer.Keys| && |acks| == |acks.Keys|;
    if s in acks {
      assert acks.Keys == fewer.Keys + {s};
    } else {
      assert acks.Keys == fewer.Keys;
    }
  }

  // ----- runs -----

  /** A turn of the event loop and what the outside world contributes to it. */
  datatype Turn =
    | Connecting(last: Option<nat>, aborted: bool) | Stopping | Reopening | SocketArriving
    | Delivering(generation: nat, frame: Frame) | TimingOut(sequence: nat) | Closing(generation: nat)
    | Starting(socketOpen: bool, throws: bool) | Settling(ok: bool, socketOpen: bool, throws: bool)
    | Resuming | Syncing(ok: bool)

  /** What decides whether a turn attempts an ack. */
  datatype State = State(
    running: Running, pendingAcks: map<nat, PendingAck>, chain: seq<Task>, lastSequence: nat, hasSocket: bool)

  /** The sequence whose ack this turn attempts, if any: when its callback has returned, or at
      once when the event is a redelivery. */
  function Attempted(state: State, turn: Turn): (s: Option<nat>) {
    if turn.Settling? && turn.ok && state.running.InCallback? then Some(state.running.sequence)
    else if turn.Starting? && state.running == Nothing && state.chain != [] && state.chain[0].Event? then
      var s := state.chain[0].sequence;
      if s.Some? && 0 < s.value <= state.lastSequence then s else None
    else None
  }

  /** The turn starts an ack for a new sequence on an open socket while an orphaned ack is
      still pending. */
  predicate Collides(state: State, turn: Turn) {
    var s := Attempted(state, turn);
    && s.Some? && state.hasSocket && turn.socketOpen && s.value !in state.pendingAcks
    && exists u :: u in state.pendingAcks && state.pendingAcks[u].orphaned
  }

  /** Any turns, of any kind and in any order, with sockets, callbacks, timers and sends
      behaving arbitrarily. Every history is good, and at most one ack is pending in every
      state exactly when no turn collides with an orphaned ack. */
  method AnyRun(c: Client, turns: seq<Turn>) returns (states: seq<State>)
    requires c.Valid()
    modifies c
    ensures c.Valid() && Good(c.log) && c.lastSequence == Level(c.log)
    ensures |states| == |turns| + 1 && states[0] == old(c.Current()) && states[|turns|] == c.Current()
    ensures (forall i :: 0 <= i < |states| ==> |states[i].pendingAcks| <= 1) <==>
      |states[0].pendingAcks| <= 1 && forall i :: 0 <= i < |turns| ==> !Collides(states[i], turns[i])
    ensures !c.sendThrew ==> |c.pendingAcks| <= 1
  {
    hide Good, Collides, Level;
    states := [c.Current()];
    for n := 0 to |turns|
      invariant c.Valid() && |states| == n + 1 && states[0] == old(c.Current()) && states[n] == c.Current()
      invariant (forall i :: 0 <= i <= n ==> |states[i].pendingAcks| <= 1) <==>
        |states[0].pendingAcks| <= 1 && forall i :: 0 <= i < n ==> !Collides(states[i], turns[i])
    {
      OneTurn(c, turns[n]);
      states := states + [c.Current()];
    }
    if !c.sendThrew {
      AtMostOne(c.pendingAcks, if c.running.AwaitingAck? then c.running.sequence else 0);
    }
  }

  lemma AtMostOne(acks: map<nat, PendingAck>, s: nat)
    requires forall u :: u in acks ==> u == s
    ensures |acks| <= 1
  {
    assert acks.Keys <= {s};
    if s in acks {
      assert acks.Keys == {s};
    } else {
      assert acks.Keys == {};
    }
  }

  /** One turn; it does nothing where it cannot happen. */
  method OneTurn(c: Client, turn: Turn)
    requires c.Valid()
    modifies c
    ensures c.Valid()
    ensures Collides(old(c.Current()), turn) ==> |c.pendingAcks| >= 2
    ensures !Collides(old(c.Current()), turn) && |old(c.pendingAcks)| <= 1 ==> |c.pendingAcks| <= 1
  {
    hide Good, Justified, CallbackDone, IsNew, Level, Allowed;
    if turn.Starting? || turn.Settling? {
      AckingTurn(c, turn);
    } else {
      OtherTurn(c, turn);
    }
  }

  method OtherTurn(c: Client, turn: Turn)
    requires c.Valid() && !turn.Starting? && !turn.Settling?
    modifies c
    ensures c.Valid() && |c.pendingAcks| <= |old(c.pendingAcks)|
  {
    hide Good, Justified, CallbackDone, IsNew, Level, Allowed;
    match turn {
      case Connecting(last, aborted) =>
        var _ := c.Connect(last, aborted);
      case Stopping =>
        c.Stop();
      case Reopening =>
        c.Reopen();
      case SocketArriving =>
        c.SocketArrives();
      case Delivering(g, frame) =>
        if frame.Ack? && frame.sequence.Some? {
          FewerAcks(c.pendingAcks, frame.sequence.value);
        }
        c.OnMessage(g, frame);
      case TimingOut(s) =>
        FewerAcks(c.pendingAcks, s);
        c.AckTimeout(s);
      case Closing(g) =>
        c.OnClose(g);
      case Resuming =>
        if c.running.AwaitingAck? && c.running.promise != Unsettled {
          c.ResumeAck();
        }
      case Syncing(ok) =>
        if c.running.InSync? {
          c.SyncSettles(ok);
        }
    }
  }

  method AckingTurn(c: Client, turn: Turn)
    requires c.Valid() && (turn.Starting? || turn.Settling?)
    modifies c
    ensures c.Valid()
    ensures Collides(old(c.Current()), turn) ==> |c.pendingAcks| >= 2
    ensures !Collides(old(c.Current()), turn) && |old(c.pendingAcks)| <= 1 ==> |c.pendingAcks| <= 1
  {
    hide Good, Justified, CallbackDone, IsNew, Level, Allowed;
    ghost var s := Attempted(c.Current(), turn);
    if s.Some? {
      OneMoreAck(c.pendingAcks, s.value, PendingAck(turn.throws));
    }
    if turn.Starting? {
      if c.running == Nothing && c.chain != [] {
        c.RunNext(turn.socketOpen, turn.throws);
      }
    } else if c.running.InCallback? {
      c.CallbackSettles(turn.ok, turn.socketOpen, turn.throws);
    }
  }

  /** A new event arrives at an idle connected client, and its callback returns. */
  method Deliver(c: Client, s: nat, throws: bool)
    requires c.Valid() && !c.stopped && c.hasSocket && c.running == Nothing && c.chain == []
    requires s > c.lastSequence && s !in c.pendingAcks
    modifies c
    ensures c.Valid() && !c.stopped && c.hasSocket && c.chain == [] && c.lastSequence == old(c.lastSequence)
    ensures c.pendingAcks == old(c.pendingAcks)[s := PendingAck(throws)]
    ensures throws ==> c.running == Nothing && c.sendThrew
    ensures c.sendThrew == (old(c.sendThrew) || throws)
  {
    hide Good, Justified, CallbackDone, IsNew;
    c.OnMessage(c.generation, EventFrame(Some(s)));
    c.RunNext(true, throws);
    c.CallbackSettles(true, true, throws);
  }

  /** A send that throws leaves its ack pending beside the next one. */
  method TwoPendingAcksAfterAThrow() returns (c: Client)
    ensures c.Valid() && c.sendThrew && c.pendingAcks.Keys == {1, 2}
  {
    hide Good, Justified, CallbackDone, IsNew;
    c := new Client();
    var _ := c.Connect(Some(0), false);
    c.SocketArrives();
    Deliver(c, 1, true);
    Deliver(c, 2, false);
  }

  // ----- what a good history means -----

  ghost predicate NoReset(log: seq<Entry>, i: nat, j: nat) {
    forall k :: i <= k < j && k < |log| ==> !log[k].Reset?
  }

  /** Between a connect or sync_required and the next, lastSequence never decreases. */
  lemma {:induction false} LevelNeverDrops(log: seq<Entry>, i: nat, j: nat)
    requires i <= j <= |log| && NoReset(log, i, j)
    ensures Level(log[..i]) <= Level(log[..j])
    decreases j
  {
    if i < j {
      LevelNeverDrops(log, i, j - 1);
      assert log[..j] == log[..j - 1] + [log[j - 1]];
      LevelStep(log[..j - 1], log[j - 1]);
    }
  }

  /** Once a sequence has been folded in, no callback runs for it, or for an earlier one,
      before the next connect or sync_required, whatever is redelivered. */
  lemma FoldedSequencesAreNotCalledAgain(log: seq<Entry>, i: nat, j: nat)
    requires Good(log) && i < j < |log| && log[i].Folded? && log[j].Called? && NoReset(log, i, j)
    ensures log[j].n > log[i].n
  {
    assert Allowed(log[..j], log[j]);
    assert log[..i + 1] == log[..i] + [log[i]];
    LevelStep(log[..i], log[i]);
    LevelNeverDrops(log, i + 1, j);
  }

  /** Behind every fold: one event task that began at t, had its callback return if the
      sequence was new then, and saw an ack frame for it after that; no other task began in
      between. */
  lemma FoldsAreAcknowledged(log: seq<Entry>, i: nat) returns (t: nat, j: nat)
    requires Good(log) && i < |log| && log[i].Folded?
    ensures t < j < i && log[t] == Started(log[i].n) && log[j] == Acked(log[i].n)
    ensures log[i].n > Level(log[..t]) ==> exists k :: t < k < j && log[k] == Returned(log[i].n)
    ensures forall x :: t < x < i ==> !log[x].Started?
  {
    var s, before := log[i].n, log[..i];
    assert Allowed(before, log[i]);
    t :| Justified(before, t, s);
    j :| t < j < |before| && before[j] == Acked(s) && CallbackDone(before[..j], t, s);
    assert before[..j] == log[..j] && before[..j][..t] == log[..t];
    assert forall x :: t < x < i ==> before[x] == log[x];
    if s > Level(log[..t]) {
      var k :| t < k < j && before[..j][k] == Returned(s);
      assert log[k] == Returned(s);
    }
  }
}
