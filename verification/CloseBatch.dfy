/** The bounded close pool (startPeerCloseBatch), the two-phase close that waits for it
    (closePeersWithReason), and the Manager.Close callers that wait for that.
    Each is a state machine: one action is one atomic step of one goroutine. */
module CloseBatch {
  import opened Basics

  const MAX_WORKERS := 32

  /** Where a worker's loop stands; Counting is between its callback and its decrement. */
  datatype Worker = Idle | Calling(job: nat) | Counting | ClosingDone | Exited

  /** A batch of n jobs. `sent` of them are in the channel or beyond, `taken` have been
      received; `returned` logs the jobs whose callback has returned. */
  datatype Pool = Pool(
    n: nat, sent: nat, jobsClosed: bool, taken: nat, remaining: int, workers: seq<Worker>,
    returned: seq<nat>, doneCloses: nat)

  datatype Action =
    | Send | CloseJobs                                      // the starter
    | Take(w: nat) | Return(w: nat) | Decrement(w: nat) | CloseDone(w: nat) | Exit(w: nat)  // worker w

  function Start(n: nat): (p: Pool) {
    Pool(n, 0, false, 0, n, seq(Min(MAX_WORKERS, n), i => Idle), [], 0)
  }

  predicate Enabled(p: Pool, a: Action) {
    match a
    case Send => p.sent < p.n
    case CloseJobs => p.sent == p.n && !p.jobsClosed
    case Take(w) => w < |p.workers| && p.workers[w] == Idle && p.taken < p.sent
    case Return(w) => w < |p.workers| && p.workers[w].Calling?
    case Decrement(w) => w < |p.workers| && p.workers[w] == Counting
    case CloseDone(w) => w < |p.workers| && p.workers[w] == ClosingDone
    case Exit(w) => w < |p.workers| && p.workers[w] == Idle && p.jobsClosed && p.taken == p.sent
  }

  function Apply(p: Pool, a: Action): (q: Pool)
    requires Enabled(p, a)
  {
    match a
    case Send => p.(sent := p.sent + 1)
    case CloseJobs => p.(jobsClosed := true)
    case Take(w) => p.(taken := p.taken + 1, workers := p.workers[w := Calling(p.taken)])
    case Return(w) => p.(returned := p.returned + [p.workers[w].job], workers := p.workers[w := Counting])
    case Decrement(w) =>
      p.(remaining := p.remaining - 1, workers := p.workers[w := if p.remaining - 1 == 0 then ClosingDone else Idle])
    case CloseDone(w) => p.(doneCloses := p.doneCloses + 1, workers := p.workers[w := Idle])
    case Exit(w) => p.(workers := p.workers[w := Exited])
  }

  /** How often job x has been handed to a callback and has not returned, or has returned. */
  ghost function Handled(p: Pool, x: nat): (k: nat) {
    multiset(p.workers)[Calling(x)] + multiset(p.returned)[x]
  }

  ghost predicate Inv(p: Pool) {
    var ws := multiset(p.workers);
    && |p.workers| == Min(MAX_WORKERS, p.n)
    && p.taken <= p.sent <= p.n
    && (p.jobsClosed ==> p.sent == p.n)
    && (forall x: nat :: Handled(p, x) == if x < p.taken then 1 else 0)
    && p.remaining == p.n - |p.returned| + ws[Counting]
    && p.doneCloses + ws[ClosingDone] == (if p.remaining == 0 then 1 else 0)
    && (Exited in p.workers ==> p.jobsClosed && p.taken == p.n)
  }

  /** A multiset of distinct numbers below k has at most k of them, and k only when it has all. */
  lemma {:induction false} Pigeonhole(m: multiset<nat>, k: nat)
    requires forall x: nat :: m[x] <= if x < k then 1 else 0
    ensures |m| <= k && (|m| == k ==> forall x: nat :: x < k ==> m[x] == 1)
  {
    if k == 0 {
      assert m == multiset{};
    } else {
      Pigeonhole(m[k - 1 := 0], k - 1);
      assert m == m[k - 1 := 0][k - 1 := m[k - 1]];
    }
  }

  lemma ReturnedAtMostOnce(p: Pool)
    requires Inv(p)
    ensures |p.returned| <= p.taken
    ensures |p.returned| == p.n ==> p.taken == p.n && forall x: nat :: x < p.n ==> multiset(p.returned)[x] == 1
  {
    assert forall x: nat :: multiset(p.returned)[x] <= Handled(p, x);
    Pigeonhole(multiset(p.returned), p.taken);
  }

  lemma StartIsValid(n: nat)
    requires n > 0
    ensures Inv(Start(n))
  {
    assert forall w :: w in Start(n).workers ==> w == Idle;
  }

  /** The effect of a worker's step on the collection of workers. */
  lemma WorkerMoves(p: Pool, a: Action)
    requires Enabled(p, a) && !a.Send? && !a.CloseJobs?
    ensures
      var moved := Apply(p, a).workers;
      multiset(moved) == multiset(p.workers) - multiset{p.workers[a.w]} + multiset{moved[a.w]}
    ensures multiset(p.workers)[p.workers[a.w]] >= 1
  {
    var q := Apply(p, a);
    assert q.workers == p.workers[a.w := q.workers[a.w]];
  }

  /** How many workers are in this state. */
  ghost function InState(p: Pool, w: Worker): (k: nat) {
    multiset(p.workers)[w]
  }

  lemma StatesAfter(p: Pool, a: Action, w: Worker)
    requires Enabled(p, a) && !a.Send? && !a.CloseJobs?
    ensures
      var from, to := p.workers[a.w], Apply(p, a).workers[a.w];
      InState(Apply(p, a), w) == InState(p, w) - (if w == from then 1 else 0) + (if w == to then 1 else 0)
  {
    WorkerMoves(p, a);
  }

  lemma HandledOnce(p: Pool, a: Action, x: nat)
    requires Inv(p) && Enabled(p, a)
    ensures Handled(Apply(p, a), x) == if x < Apply(p, a).taken then 1 else 0
  {
    assert Handled(p, x) == if x < p.taken then 1 else 0;
    assert Handled(p, x) == InState(p, Calling(x)) + multiset(p.returned)[x];
    assert Handled(Apply(p, a), x) == InState(Apply(p, a), Calling(x)) + multiset(Apply(p, a).returned)[x];
    hide Handled, Inv, InState;
    if !a.Send? && !a.CloseJobs? {
      StatesAfter(p, a, Calling(x));
    }
  }

  lemma StepKeepsInv(p: Pool, a: Action)
    requires Inv(p) && Enabled(p, a)
    ensures Inv(Apply(p, a))
  {
    ReturnedAtMostOnce(p);
    var q := Apply(p, a);
    if !a.Send? && !a.CloseJobs? {
      WorkerMoves(p, a);
    }
    forall x: nat
      ensures Handled(q, x) == if x < q.taken then 1 else 0
    {
      HandledOnce(p, a, x);
    }
    if Exited in q.workers && !a.Exit? {
      assert Exited in multiset(q.workers);
      assert Exited in p.workers;
    }
  }

  /** The pool after these actions, or None when one of them is not enabled in its turn. */
  function Run(n: nat, actions: seq<Action>): (r: Option<Pool>)
    decreases |actions|
  {
    if actions == [] then Some(Start(n))
    else
      var last := actions[|actions| - 1];
      match Run(n, actions[..|actions| - 1])
      case None => None
      case Some(p) => if Enabled(p, last) then Some(Apply(p, last)) else None
  }

  lemma {:induction false} RunsKeepInv(n: nat, actions: seq<Action>)
    requires n > 0 && Run(n, actions).Some?
    ensures Inv(Run(n, actions).value) && Run(n, actions).value.n == n
    decreases |actions|
  {
    hide Inv;
    if actions == [] {
      StartIsValid(n);
    } else {
      RunsKeepInv(n, actions[..|actions| - 1]);
      StepKeepsInv(Run(n, actions[..|actions| - 1]).value, actions[|actions| - 1]);
    }
  }

  lemma DoneMeansAllReturned(p: Pool)
    requires Inv(p) && p.doneCloses > 0
    ensures |p.returned| == p.n && p.doneCloses == 1
    ensures forall x: nat :: x < p.n ==> multiset(p.returned)[x] == 1
    ensures forall w :: w in p.workers ==> !w.Calling?
  {
    ReturnedAtMostOnce(p);
    forall w | w in p.workers
      ensures !w.Calling?
    {
      assert multiset(p.workers)[w] >= 1;
      assert w.Calling? ==> Handled(p, w.job) == 1 && multiset(p.returned)[w.job] == 0;
    }
  }

  /** In every run: at most 32 workers; no callback runs or has run twice; done is closed
      at most once, and when it is, every callback has run exactly once and has returned. */
  lemma EachCallbackOnceAndDoneLast(n: nat, actions: seq<Action>, p: Pool)
    requires n > 0 && Run(n, actions) == Some(p)
    ensures |p.workers| == Min(32, n)
    ensures forall x: nat :: Handled(p, x) <= 1 && (x >= n ==> Handled(p, x) == 0)
    ensures p.doneCloses <= 1
    ensures p.doneCloses == 1 ==>
      && (forall x: nat :: x < n ==> multiset(p.returned)[x] == 1)
      && forall w :: w in p.workers ==> !w.Calling?
  {
    RunsKeepInv(n, actions);
    if p.doneCloses > 0 {
      DoneMeansAllReturned(p);
    }
  }

  // ----- progress -----

  ghost predicate AllExited(p: Pool) {
    forall i :: 0 <= i < |p.workers| ==> p.workers[i] == Exited
  }

  function Weight(w: Worker): (k: nat) {
    match w
    case Idle => 1
    case Calling(_) => 4
    case Counting => 3
    case ClosingDone => 2
    case Exited => 0
  }

  function Sum<T>(s: seq<T>, weight: T -> nat): (k: nat) {
    if s == [] then 0 else weight(s[0]) + Sum(s[1..], weight)
  }

  lemma {:induction false} SumAfter<T>(s: seq<T>, i: nat, x: T, weight: T -> nat)
    requires i < |s|
    ensures Sum(s[i := x], weight) == Sum(s, weight) - weight(s[i]) + weight(x)
  {
    if i == 0 {
      assert s[i := x][1..] == s[1..];
    } else {
      SumAfter(s[1..], i - 1, x, weight);
      assert s[i := x][1..] == s[1..][i - 1 := x];
    }
  }

  /** The most steps a batch can still take. */
  function StepsLeft(p: Pool): (k: int) {
    (p.n - p.sent) + (if p.jobsClosed then 0 else 1) + 4 * (p.n - p.taken) + Sum(p.workers, Weight)
  }

  lemma StepUsesUp(p: Pool, a: Action)
    requires Enabled(p, a)
    ensures StepsLeft(Apply(p, a)) < StepsLeft(p)
  {
    if !a.Send? && !a.CloseJobs? {
      SumAfter(p.workers, a.w, Apply(p, a).workers[a.w], Weight);
    }
  }

  /** Every step uses up the bound, so no run is infinite; a run can always go on until
      every worker has exited (callbacks return eventually); and then done has been closed
      exactly once. Hence every maximal run closes done. */
  lemma EveryMaximalRunClosesDone(n: nat, actions: seq<Action>, p: Pool)
    requires n > 0 && Run(n, actions) == Some(p)
    ensures StepsLeft(p) >= 0
    ensures forall a :: Enabled(p, a) ==> StepsLeft(Apply(p, a)) < StepsLeft(p)
    ensures !AllExited(p) ==> exists a :: Enabled(p, a)
    ensures AllExited(p) ==> p.doneCloses == 1
  {
    hide Enabled, Apply;
    RunsKeepInv(n, actions);
    forall a | Enabled(p, a)
      ensures StepsLeft(Apply(p, a)) < StepsLeft(p)
    {
      StepUsesUp(p, a);
    }
    if !AllExited(p) {
      SomeStep(p);
    } else {
      ExitedMeansDone(p);
    }
  }

  lemma SomeStep(p: Pool)
    requires Inv(p) && !AllExited(p)
    ensures exists a :: Enabled(p, a)
  {
    var i :| 0 <= i < |p.workers| && p.workers[i] != Exited;
    var a := if p.sent < p.n then Send
             else if !p.jobsClosed then CloseJobs
             else match p.workers[i]
                  case Idle => if p.taken < p.sent then Take(i) else Exit(i)
                  case Calling(_) => Return(i)
                  case Counting => Decrement(i)
                  case ClosingDone => CloseDone(i)
                  case Exited => Send;
    assert Enabled(p, a);
  }

  lemma ExitedMeansDone(p: Pool)
    requires Inv(p) && p.n > 0 && AllExited(p)
    ensures p.doneCloses == 1
  {
    assert p.workers[0] == Exited && Exited in p.workers;
    assert Counting !in multiset(p.workers) && ClosingDone !in multiset(p.workers);
    forall x: nat
      ensures multiset(p.returned)[x] == if x < p.n then 1 else 0
    {
      assert Calling(x) !in multiset(p.workers);
      assert Handled(p, x) == multiset(p.returned)[x];
    }
    AllOfThem(multiset(p.returned), p.n);
  }

  lemma {:induction false} AllOfThem(m: multiset<nat>, k: nat)
    requires forall x: nat :: m[x] == if x < k then 1 else 0
    ensures |m| == k
  {
    if k == 0 {
      assert m == multiset{};
    } else {
      AllOfThem(m[k - 1 := 0], k - 1);
      assert m == m[k - 1 := 0][k - 1 := 1];
    }
  }

  // ----- Manager.Close: one closer, any number of waiting callers -----

  /** A caller of Close. The first one closes the peers: it waits for the graceful batch
      (Grace) until a deadline, then for a force batch (Force) and again for the graceful
      one (ForcedWait), and then closes closeDone (Finishing). The others wait for closeDone. */
  datatype Caller = Outside | Grace | Force | ForcedWait | Finishing | WaitDone | Back

  /** n is the number of members found by the first caller. */
  datatype Shutdown = Shutdown(
    n: nat, closed: bool, closeDoneCloses: nat, graceful: Pool, force: Pool,
    gracefulStarted: bool, forceStarted: bool, callers: seq<Caller>)

  datatype ShutdownAction =
    | Enter(c: nat) | GraceDone(c: nat) | Deadline(c: nat) | ForceDone(c: nat) | LateGraceDone(c: nat)
    | Finish(c: nat) | Released(c: nat)
    | GracefulStep(a: Action) | ForceStep(a: Action)

  predicate CallerIs(s: Shutdown, c: nat, pc: Caller) {
    c < |s.callers| && s.callers[c] == pc
  }

  predicate CanDo(s: Shutdown, a: ShutdownAction) {
    match a
    case Enter(c) => CallerIs(s, c, Outside)
    case GraceDone(c) => CallerIs(s, c, Grace) && s.graceful.doneCloses > 0
    case Deadline(c) => CallerIs(s, c, Grace)
    case ForceDone(c) => CallerIs(s, c, Force) && s.force.doneCloses > 0
    case LateGraceDone(c) => CallerIs(s, c, ForcedWait) && s.graceful.doneCloses > 0
    case Finish(c) => CallerIs(s, c, Finishing)
    case Released(c) => CallerIs(s, c, WaitDone) && s.closeDoneCloses > 0
    case GracefulStep(b) => s.gracefulStarted && Enabled(s.graceful, b)
    case ForceStep(b) => s.forceStarted && Enabled(s.force, b)
  }

  function Do(s: Shutdown, a: ShutdownAction): (t: Shutdown)
    requires CanDo(s, a)
  {
    match a
    case Enter(c) =>
      if s.closed then s.(callers := s.callers[c := WaitDone])
      else if s.n == 0 then s.(closed := true, callers := s.callers[c := Finishing])
      else s.(closed := true, gracefulStarted := true, callers := s.callers[c := Grace])
    case GraceDone(c) => s.(callers := s.callers[c := Finishing])
    case Deadline(c) => s.(forceStarted := true, callers := s.callers[c := Force])
    case ForceDone(c) => s.(callers := s.callers[c := ForcedWait])
    case LateGraceDone(c) => s.(callers := s.callers[c := Finishing])
    case Finish(c) => s.(closeDoneCloses := s.closeDoneCloses + 1, callers := s.callers[c := Back])
    case Released(c) => s.(callers := s.callers[c := Back])
    case GracefulStep(b) => s.(graceful := Apply(s.graceful, b))
    case ForceStep(b) => s.(force := Apply(s.force, b))
  }

  function Open(n: nat, callers: nat): (s: Shutdown) {
    Shutdown(n, false, 0, Start(n), Start(n), false, false, seq(callers, i => Outside))
  }

  ghost predicate GracefulFinished(s: Shutdown) {
    s.n > 0 ==> s.graceful.doneCloses > 0
  }

  ghost function Count(callers: seq<Caller>, pc: Caller): (k: nat) {
    multiset(callers)[pc]
  }

  ghost function Closers(callers: seq<Caller>): (k: nat) {
    Count(callers, Grace) + Count(callers, Force) + Count(callers, ForcedWait) + Count(callers, Finishing)
  }

  /** Exactly one caller is, or was, the closer, and it goes past the graceful batch only
      when that has finished; nobody is back before closeDone is closed. */
  ghost predicate CallersInv(callers: seq<Caller>, closed: bool, closeDoneCloses: nat, gracefulFinished: bool) {
    && Closers(callers) + closeDoneCloses == (if closed then 1 else 0)
    && (Count(callers, Finishing) > 0 || closeDoneCloses > 0 ==> gracefulFinished)
    && (Count(callers, Back) > 0 <==> closeDoneCloses > 0)
    && (Count(callers, WaitDone) > 0 ==> closed)
  }

  /** A batch that is waited for has been started, and only batches with peers are. */
  ghost predicate StartedInv(callers: seq<Caller>, n: nat, gracefulStarted: bool, forceStarted: bool) {
    && (gracefulStarted || forceStarted ==> n > 0)
    && (Count(callers, Grace) + Count(callers, Force) + Count(callers, ForcedWait) > 0 ==> gracefulStarted)
    && (Count(callers, Force) + Count(callers, ForcedWait) > 0 ==> forceStarted)
  }

  ghost predicate ShutdownInv(s: Shutdown) {
    && s.graceful.n == s.force.n == s.n && (s.n > 0 ==> Inv(s.graceful) && Inv(s.force))
    && StartedInv(s.callers, s.n, s.gracefulStarted, s.forceStarted)
    && CallersInv(s.callers, s.closed, s.closeDoneCloses, GracefulFinished(s))
  }

  lemma PoolStepKeepsDone(p: Pool, a: Action)
    requires Enabled(p, a)
    ensures Apply(p, a).doneCloses >= p.doneCloses && Apply(p, a).n == p.n
  {
  }

  lemma CallerMoves(callers: seq<Caller>, c: nat, to: Caller)
    requires c < |callers|
    ensures Count(callers, callers[c]) >= 1
    ensures forall pc ::
      var change := (if to == pc then 1 else 0) - (if callers[c] == pc then 1 else 0);
      Count(callers[c := to], pc) == Count(callers, pc) + change
  {
    assert multiset(callers[c := to]) == multiset(callers) - multiset{callers[c]} + multiset{to};
  }

  lemma CallerStepKeepsInv(s: Shutdown, a: ShutdownAction)
    requires CanDo(s, a) && !a.GracefulStep? && !a.ForceStep?
    requires CallersInv(s.callers, s.closed, s.closeDoneCloses, GracefulFinished(s))
    requires StartedInv(s.callers, s.n, s.gracefulStarted, s.forceStarted)
    ensures var t := Do(s, a); CallersInv(t.callers, t.closed, t.closeDoneCloses, GracefulFinished(t))
    ensures var t := Do(s, a); StartedInv(t.callers, t.n, t.gracefulStarted, t.forceStarted)
  {
    hide Enabled, Apply, Count;
    CallerMoves(s.callers, a.c, Do(s, a).callers[a.c]);
  }

  lemma ShutdownStepKeepsInv(s: Shutdown, a: ShutdownAction)
    requires ShutdownInv(s) && CanDo(s, a)
    ensures ShutdownInv(Do(s, a))
  {
    hide Inv, Enabled, Apply, CallersInv, StartedInv;
    if a.GracefulStep? {
      PoolStepKeepsDone(s.graceful, a.a);
      if s.n > 0 {
        StepKeepsInv(s.graceful, a.a);
      }
      FinishedIsStable(s.callers, s.closed, s.closeDoneCloses, GracefulFinished(s), GracefulFinished(Do(s, a)));
    } else if a.ForceStep? {
      PoolStepKeepsDone(s.force, a.a);
      if s.n > 0 {
        StepKeepsInv(s.force, a.a);
      }
    } else {
      CallerStepKeepsInv(s, a);
    }
  }

  lemma FinishedIsStable(callers: seq<Caller>, closed: bool, closeDoneCloses: nat, before: bool, after: bool)
    requires CallersInv(callers, closed, closeDoneCloses, before) && (before ==> after)
    ensures CallersInv(callers, closed, closeDoneCloses, after)
  {
  }

  function ShutdownRun(n: nat, callers: nat, actions: seq<ShutdownAction>): (r: Option<Shutdown>)
    decreases |actions|
  {
    if actions == [] then Some(Open(n, callers))
    else
      var last := actions[|actions| - 1];
      match ShutdownRun(n, callers, actions[..|actions| - 1])
      case None => None
      case Some(s) => if CanDo(s, last) then Some(Do(s, last)) else None
  }

  lemma {:induction false} ShutdownRunsKeepInv(n: nat, callers: nat, actions: seq<ShutdownAction>)
    requires ShutdownRun(n, callers, actions).Some?
    ensures ShutdownInv(ShutdownRun(n, callers, actions).value) && ShutdownRun(n, callers, actions).value.n == n
    decreases |actions|
  {
    if actions == [] {
      hide Inv;
      if n > 0 {
        StartIsValid(n);
      }
      assert forall c :: c in Open(n, callers).callers ==> c == Outside;
      assert forall c :: c != Outside ==> Count(Open(n, callers).callers, c) == 0;
    } else {
      hide Inv, Enabled, Apply, ShutdownInv;
      ShutdownRunsKeepInv(n, callers, actions[..|actions| - 1]);
      ShutdownStepKeepsInv(ShutdownRun(n, callers, actions[..|actions| - 1]).value, actions[|actions| - 1]);
    }
  }

  /** In every run with any number of concurrent callers: closeDone is closed at most once,
      and once any call of Close has returned, first or not, every member's graceful
      callback has run exactly once and has returned. */
  lemma CloseReturnsAfterTheGracefulBatch(n: nat, callers: nat, actions: seq<ShutdownAction>, s: Shutdown)
    requires ShutdownRun(n, callers, actions) == Some(s)
    ensures s.closeDoneCloses <= 1
    ensures Back in s.callers ==> forall x: nat :: x < n ==> multiset(s.graceful.returned)[x] == 1
  {
    ShutdownRunsKeepInv(n, callers, actions);
    assert Back in s.callers ==> Count(s.callers, Back) > 0;
    if Back in s.callers && n > 0 {
      DoneMeansAllReturned(s.graceful);
    }
  }

  // ----- progress of a shutdown -----

  function CallerWeight(pc: Caller): (k: nat) {
    match pc
    case Outside => 6
    case Grace => 5
    case Force => 4
    case ForcedWait => 3
    case Finishing => 2
    case WaitDone => 1
    case Back => 0
  }

  /** The most steps a shutdown can still take. */
  function ShutdownStepsLeft(s: Shutdown): (k: int) {
    Sum(s.callers, CallerWeight) + if s.n > 0 then StepsLeft(s.graceful) + StepsLeft(s.force) else 0
  }

  lemma ShutdownStepUsesUp(s: Shutdown, a: ShutdownAction)
    requires ShutdownInv(s) && CanDo(s, a)
    ensures ShutdownStepsLeft(Do(s, a)) < ShutdownStepsLeft(s)
  {
    hide Inv, Enabled, Apply, CallersInv, StepsLeft;
    if a.GracefulStep? {
      StepUsesUp(s.graceful, a.a);
    } else if a.ForceStep? {
      StepUsesUp(s.force, a.a);
    } else {
      SumAfter(s.callers, a.c, Do(s, a).callers[a.c], CallerWeight);
    }
  }

  /** A started batch has closed done or can take a step. */
  lemma BatchGoesOn(p: Pool)
    requires Inv(p) && p.n > 0
    ensures p.doneCloses > 0 || exists a :: Enabled(p, a)
  {
    hide Inv, Enabled;
    if AllExited(p) {
      ExitedMeansDone(p);
    } else {
      SomeStep(p);
    }
  }

  ghost predicate Counted(callers: seq<Caller>, c: nat)
    requires c < |callers|
  {
    Count(callers, callers[c]) > 0
  }

  lemma EveryCallerCounts(callers: seq<Caller>, c: nat)
    requires c < |callers|
    ensures Counted(callers, c)
  {
    assert callers[c] in multiset(callers);
  }

  lemma SomeCaller(callers: seq<Caller>, pc: Caller) returns (c: nat)
    requires Count(callers, pc) > 0
    ensures c < |callers| && callers[c] == pc
  {
    assert pc in callers;
    c :| 0 <= c < |callers| && callers[c] == pc;
  }

  /** A caller that closes the peers can always go on, or a batch it waits for can. */
  lemma CloserGoesOn(s: Shutdown, c: nat) returns (a: ShutdownAction)
    requires ShutdownInv(s) && c < |s.callers|
    requires s.callers[c] in {Grace, Force, ForcedWait, Finishing}
    ensures CanDo(s, a) && !a.Enter?
  {
    hide Inv, Enabled, Count;
    EveryCallerCounts(s.callers, c);
    match s.callers[c]
    case Grace => a := Deadline(c);
    case Finishing => a := Finish(c);
    case Force =>
      BatchGoesOn(s.force);
      if s.force.doneCloses > 0 {
        a := ForceDone(c);
      } else {
        var b :| Enabled(s.force, b);
        a := ForceStep(b);
      }
    case ForcedWait =>
      BatchGoesOn(s.graceful);
      if s.graceful.doneCloses > 0 {
        a := LateGraceDone(c);
      } else {
        var b :| Enabled(s.graceful, b);
        a := GracefulStep(b);
      }
  }

  /** While a caller has entered and is not back, something other than a new entry can happen. */
  lemma SomeCallerGoesOn(s: Shutdown, c: nat) returns (a: ShutdownAction)
    requires ShutdownInv(s) && c < |s.callers| && s.callers[c] != Outside && s.callers[c] != Back
    ensures CanDo(s, a) && !a.Enter?
  {
    hide Inv, Enabled, Count;
    EveryCallerCounts(s.callers, c);
    if s.callers[c] != WaitDone {
      a := CloserGoesOn(s, c);
    } else if s.closeDoneCloses > 0 {
      a := Released(c);
    } else {
      var pc := if Count(s.callers, Grace) > 0 then Grace else if Count(s.callers, Force) > 0 then Force
                else if Count(s.callers, ForcedWait) > 0 then ForcedWait else Finishing;
      var closer := SomeCaller(s.callers, pc);
      a := CloserGoesOn(s, closer);
    }
  }

  /** Every step of a shutdown uses up a bound, so no run is infinite; and in a run that
      cannot go on, but for callers that never enter, every caller that has entered is back
      and, if there was one, closeDone has been closed exactly once. */
  lemma EveryMaximalShutdownReturns(n: nat, callers: nat, actions: seq<ShutdownAction>, s: Shutdown)
    requires ShutdownRun(n, callers, actions) == Some(s)
    ensures ShutdownStepsLeft(s) >= 0
    ensures forall a :: CanDo(s, a) ==> ShutdownStepsLeft(Do(s, a)) < ShutdownStepsLeft(s)
    ensures (forall a :: CanDo(s, a) ==> a.Enter?) ==>
      && (forall c :: 0 <= c < |s.callers| ==> s.callers[c] == Outside || s.callers[c] == Back)
      && s.closeDoneCloses == (if Back in s.callers then 1 else 0)
  {
    hide Inv, Enabled, Apply, CanDo, Do;
    ShutdownRunsKeepInv(n, callers, actions);
    forall a | CanDo(s, a)
      ensures ShutdownStepsLeft(Do(s, a)) < ShutdownStepsLeft(s)
    {
      ShutdownStepUsesUp(s, a);
    }
    StepsLeftAreCounted(s);
    if forall a :: CanDo(s, a) ==> a.Enter? {
      forall c | 0 <= c < |s.callers|
        ensures s.callers[c] == Outside || s.callers[c] == Back
      {
        if s.callers[c] != Outside && s.callers[c] != Back {
          var a := SomeCallerGoesOn(s, c);
        }
      }
      ClosedOnceReturned(s);
    }
  }

  lemma StepsLeftAreCounted(s: Shutdown)
    requires ShutdownInv(s)
    ensures ShutdownStepsLeft(s) >= 0
  {
    hide CallersInv, StartedInv, Handled;
  }

  lemma ClosedOnceReturned(s: Shutdown)
    requires ShutdownInv(s)
    ensures s.closeDoneCloses == (if Back in s.callers then 1 else 0)
  {
    hide Inv;
    assert Back in s.callers <==> Count(s.callers, Back) > 0;
  }
}
