/**
 The bounded worker pool that tests channels (controller/channel-test.go).

 A feeder goroutine, several workers, a closer goroutine and the reducing caller share two unbuffered
 channels and one cancellable context.  Each goroutine has a program counter; every send/receive
 rendezvous, every `select` choice and every context check is one step, and a cancellation may come
 between any two steps.  Everything below is proved for every schedule of these steps.
 */
module WorkerPool {

  datatype Summary = Summary(tested: int, succeeded: int, failed: int, disabled: int, enabled: int)

  const ZERO := Summary(0, 0, 0, 0, 0)

  function Add(a: Summary, b: Summary): Summary {
    Summary(a.tested + b.tested, a.succeeded + b.succeeded, a.failed + b.failed,
            a.disabled + b.disabled, a.enabled + b.enabled)
  }

  const DEFAULT_CONCURRENCY := 1
  const MAX_CONCURRENCY := 32
  const MANUALLY_DISABLED := 2

  datatype Channel = NilChannel | Channel(id: int, status: int)

  /** The arguments of one call; `interval` says whether RequestInterval is positive. */
  datatype Config = Config(channels: seq<Channel>, concurrency: int, interval: bool, run: Channel -> Summary)

  function Total(cfg: Config): nat { |cfg.channels| }

  function NormalizeConcurrency(concurrency: int): (n: int)
    ensures 1 <= n <= 32
    ensures 1 <= concurrency <= 32 ==> n == concurrency
    ensures concurrency < 1 ==> n == 1
    ensures concurrency > 32 ==> n == 32
  {
    if concurrency < 1 then DEFAULT_CONCURRENCY
    else if concurrency > MAX_CONCURRENCY then MAX_CONCURRENCY
    else concurrency
  }

  function WorkerCount(cfg: Config): nat {
    var n := NormalizeConcurrency(cfg.concurrency);
    if n < Total(cfg) then n else Total(cfg)
  }

  predicate Testable(channel: Channel) {
    channel.Channel? && channel.status != MANUALLY_DISABLED
  }

  /** What testing channel `i` contributes when nothing is cancelled. */
  function Expected(cfg: Config, i: nat): Summary
    requires i < Total(cfg)
  {
    if Testable(cfg.channels[i]) then cfg.run(cfg.channels[i]) else ZERO
  }

  // ---------------------------------------------------------------- states and steps

  datatype Worker =
    | Selecting                              // in the select over ctx.Done() and jobs
    | Received(i: nat)                       // took job i, has not looked at the context yet
    | Running(i: nat)                        // inside run
    | Sending(i: nat, result: Summary)       // blocked on results <- result
    | Pausing                                // in the select over ctx.Done() and the interval timer
    | Exited

  datatype Caller = Receiving | Reducing(i: nat, result: Summary) | Returned

  datatype Delivery = Delivery(i: nat, result: Summary)

  /**
   The shared state.  `next` is the feeder's loop position.  The last three fields only record history:
   the jobs a worker went on to test (or skipped as untestable), the results reduced, and the jobs given up.
   */
  datatype State = State(
    cancelled: bool, next: nat, feederExited: bool,
    workers: seq<Worker>, waitGroup: int, resultsClosed: bool,
    caller: Caller, summary: Summary, processed: nat, reports: seq<nat>,
    started: seq<nat>, consumed: seq<Delivery>, dropped: seq<nat>)

  /** The state right after the goroutines were launched; with no channel the call returns at once. */
  function Init(cfg: Config): State {
    var idle := Total(cfg) == 0;
    State(false, 0, idle, seq(WorkerCount(cfg), _ => Selecting), WorkerCount(cfg), idle,
          if idle then Returned else Receiving, ZERO, 0, [0], [], [], [])
  }

  datatype Step =
    | Cancel
    | FeederStops                                  // the feeder's select takes ctx.Done()
    | FeederFinishes                               // the loop is over; the deferred close(jobs) runs
    | HandOff(w: nat)                              // jobs <- channel meets worker w
    | SeeClosed(w: nat)                            // worker w receives from the closed jobs channel
    | SeeCancel(w: nat)                            // worker w's select takes ctx.Done()
    | CheckContext(w: nat)                         // worker w looks at ctx.Err() after receiving
    | FinishRun(w: nat, observed: Summary)         // run returns; a cancelled run may return anything
    | Deliver(w: nat)                              // results <- result meets the caller
    | TimerFires(w: nat)
    | CloseResults
    | Reduce
    | Return

  predicate Enabled(cfg: Config, s: State, step: Step) {
    match step
    case Cancel => !s.cancelled
    case FeederStops => !s.feederExited && s.cancelled && s.next < Total(cfg)
    case FeederFinishes => !s.feederExited && s.next == Total(cfg)
    case HandOff(w) => !s.feederExited && s.next < Total(cfg) && w < |s.workers| && s.workers[w].Selecting?
    case SeeClosed(w) => s.feederExited && w < |s.workers| && s.workers[w].Selecting?
    case SeeCancel(w) => s.cancelled && w < |s.workers| && (s.workers[w].Selecting? || s.workers[w].Pausing?)
    case CheckContext(w) => w < |s.workers| && s.workers[w].Received?
    case FinishRun(w, _) => w < |s.workers| && s.workers[w].Running? && s.workers[w].i < Total(cfg)
    case Deliver(w) => w < |s.workers| && s.workers[w].Sending? && s.caller.Receiving?
    case TimerFires(w) => w < |s.workers| && s.workers[w].Pausing?
    case CloseResults => s.waitGroup == 0 && !s.resultsClosed
    case Reduce => s.caller.Reducing?
    case Return => s.caller.Receiving? && s.resultsClosed
  }

  function Exit(s: State, w: nat): State
    requires w < |s.workers|
  {
    s.(workers := s.workers[w := Exited], waitGroup := s.waitGroup - 1)
  }

  function Next(cfg: Config, s: State, step: Step): State
    requires Enabled(cfg, s, step)
  {
    match step
    case Cancel => s.(cancelled := true)
    case FeederStops => s.(feederExited := true)
    case FeederFinishes => s.(feederExited := true)
    case HandOff(w) => s.(workers := s.workers[w := Received(s.next)], next := s.next + 1)
    case SeeClosed(w) => Exit(s, w)
    case SeeCancel(w) => Exit(s, w)
    case CheckContext(w) =>
      var i := s.workers[w].i;
      if s.cancelled then Exit(s, w).(dropped := s.dropped + [i])
      else s.(workers := s.workers[w := Running(i)], started := s.started + [i])
    case FinishRun(w, observed) =>
      var i := s.workers[w].i;
      var result := if s.cancelled && Testable(cfg.channels[i]) then observed else Expected(cfg, i);
      s.(workers := s.workers[w := Sending(i, result)])
    case Deliver(w) =>
      s.(workers := s.workers[w := if cfg.interval then Pausing else Selecting],
         caller := Reducing(s.workers[w].i, s.workers[w].result))
    case TimerFires(w) => s.(workers := s.workers[w := Selecting])
    case CloseResults => s.(resultsClosed := true)
    case Reduce =>
      s.(caller := Receiving, summary := Add(s.summary, s.caller.result), processed := s.processed + 1,
         consumed := s.consumed + [Delivery(s.caller.i, s.caller.result)],
         reports := if s.cancelled then s.reports else s.reports + [s.processed + 1])
    case Return => s.(caller := Returned)
  }

  /** `schedule` can be taken from `s` and ends in `t`. */
  ghost predicate Runs(cfg: Config, s: State, schedule: seq<Step>, t: State)
    decreases |schedule|
  {
    if schedule == [] then s == t
    else Enabled(cfg, s, schedule[0]) && Runs(cfg, Next(cfg, s, schedule[0]), schedule[1..], t)
  }

  ghost predicate Reachable(cfg: Config, s: State) {
    exists schedule :: Runs(cfg, Init(cfg), schedule, s)
  }

  predicate Finished(s: State) {
    s.feederExited && s.resultsClosed && s.caller.Returned? &&
    forall w :: 0 <= w < |s.workers| ==> s.workers[w].Exited?
  }

  // ---------------------------------------------------------------- where a job is

  datatype Place = Unsent | Held(w: nat) | AtCaller | Consumed(k: nat) | Dropped(k: nat)

  predicate Holds(worker: Worker, i: nat) {
    (worker.Received? || worker.Running? || worker.Sending?) && worker.i == i
  }

  predicate At(cfg: Config, s: State, i: nat, p: Place) {
    match p
    case Unsent => s.next <= i < Total(cfg)
    case Held(w) => w < |s.workers| && Holds(s.workers[w], i)
    case AtCaller => s.caller.Reducing? && s.caller.i == i
    case Consumed(k) => k < |s.consumed| && s.consumed[k].i == i
    case Dropped(k) => k < |s.dropped| && s.dropped[k] == i
  }

  ghost predicate InExactlyOnePlace(cfg: Config, s: State, i: nat) {
    (exists p :: At(cfg, s, i, p)) &&
    forall p, q :: At(cfg, s, i, p) && At(cfg, s, i, q) ==> p == q
  }

  ghost predicate Partitioned(cfg: Config, s: State) {
    && (forall i: nat, p :: At(cfg, s, i, p) ==> i < Total(cfg))
    && (forall i: nat :: i < Total(cfg) ==> InExactlyOnePlace(cfg, s, i))
  }

  // ---------------------------------------------------------------- counting over the workers

  function Count(workers: seq<Worker>, f: Worker -> int): int {
    if workers == [] then 0 else f(workers[0]) + Count(workers[1..], f)
  }

  lemma {:induction false} CountUpdate(workers: seq<Worker>, w: nat, x: Worker, f: Worker -> int)
    requires w < |workers|
    ensures Count(workers[w := x], f) == Count(workers, f) - f(workers[w]) + f(x)
  {
    if w == 0 {
      assert workers[0 := x][1..] == workers[1..];
    } else {
      assert workers[w := x][1..] == workers[1..][w - 1 := x];
      CountUpdate(workers[1..], w - 1, x, f);
    }
  }

  function Live(worker: Worker): int { if worker.Exited? then 0 else 1 }

  function Busy(worker: Worker): int { if worker.Received? || worker.Running? || worker.Sending? then 1 else 0 }

  lemma {:induction false} CountSelecting(n: nat)
    ensures Count(seq(n, _ => Selecting), Live) == n
    ensures Count(seq(n, _ => Selecting), Busy) == 0
    ensures Count(seq(n, _ => Selecting), Weight) == n
  {
    if n > 0 {
      assert seq(n, _ => Selecting)[1..] == seq(n - 1, _ => Selecting);
      CountSelecting(n - 1);
    }
  }

  lemma {:induction false} NoneLive(workers: seq<Worker>)
    ensures Count(workers, Live) >= 0
    ensures Count(workers, Live) == 0 <==> forall w :: 0 <= w < |workers| ==> workers[w].Exited?
    ensures Count(workers, Live) == 0 ==> Count(workers, Busy) == 0
  {
    if workers != [] {
      NoneLive(workers[1..]);
      assert forall w :: 0 < w < |workers| ==> workers[w] == workers[1..][w - 1];
      if forall w :: 0 <= w < |workers| ==> workers[w].Exited? {
        assert forall w :: 0 <= w < |workers| - 1 ==> workers[1..][w] == workers[w + 1];
      }
    }
  }

  /** The first worker that has not exited, or the number of workers. */
  function FirstLive(workers: seq<Worker>): (w: nat)
    ensures w <= |workers|
    ensures w < |workers| ==> !workers[w].Exited?
    ensures w == |workers| ==> forall v :: 0 <= v < |workers| ==> workers[v].Exited?
  {
    if workers == [] then 0
    else if !workers[0].Exited? then 0
    else
      var w := FirstLive(workers[1..]);
      assert w == |workers[1..]| ==> forall v :: 0 < v < |workers| ==> workers[v] == workers[1..][v - 1];
      w + 1
  }

  /** How many more steps a worker can take before it is done with its current job. */
  function Weight(worker: Worker): int {
    match worker
    case Selecting => 1
    case Received(_) => 6
    case Running(_) => 5
    case Sending(_, _) => 4
    case Pausing => 2
    case Exited => 0
  }

  // ---------------------------------------------------------------- the invariant

  function SumOf(deliveries: seq<Delivery>): Summary {
    if deliveries == [] then ZERO
    else Add(SumOf(deliveries[..|deliveries| - 1]), deliveries[|deliveries| - 1].result)
  }

  /** The counters agree with the program counters, and things close in the right order. */
  ghost predicate Counters(cfg: Config, s: State) {
    && |s.workers| == WorkerCount(cfg)
    && s.next <= Total(cfg)
    && s.waitGroup == Count(s.workers, Live)
    && s.next == |s.consumed| + |s.dropped| + Count(s.workers, Busy) + (if s.caller.Reducing? then 1 else 0)
    && (s.resultsClosed ==> s.waitGroup == 0)
    && (s.caller.Returned? ==> s.resultsClosed)
    && (forall w :: 0 <= w < |s.workers| && s.workers[w].Exited? ==> s.cancelled || s.feederExited)
  }

  /** The caller's local variables agree with the results it has received. */
  ghost predicate Ledger(s: State) {
    && s.processed == |s.consumed|
    && s.summary == SumOf(s.consumed)
    && 1 <= |s.reports| <= s.processed + 1
    && (forall k :: 0 <= k < |s.reports| ==> s.reports[k] == k)
    && (!s.cancelled ==> |s.reports| == s.processed + 1)
  }

  /** What holds as long as nobody cancelled. */
  ghost predicate Undisturbed(cfg: Config, s: State) {
    && s.dropped == []
    && (s.feederExited ==> s.next == Total(cfg))
    && (forall w :: 0 <= w < |s.workers| && s.workers[w].Sending? ==>
          s.workers[w].i < Total(cfg) && s.workers[w].result == Expected(cfg, s.workers[w].i))
    && (s.caller.Reducing? ==> s.caller.i < Total(cfg) && s.caller.result == Expected(cfg, s.caller.i))
    && (forall k :: 0 <= k < |s.consumed| ==>
          s.consumed[k].i < Total(cfg) && s.consumed[k].result == Expected(cfg, s.consumed[k].i))
  }

  /** Places a job can only reach by passing the context check. */
  predicate Past(s: State, p: Place) {
    match p
    case Held(w) => w < |s.workers| && (s.workers[w].Running? || s.workers[w].Sending?)
    case AtCaller => true
    case Consumed(_) => true
    case _ => false
  }

  ghost predicate PastCheck(cfg: Config, s: State, i: nat) {
    exists p :: At(cfg, s, i, p) && Past(s, p)
  }

  /** No job is started twice, and a started job is past the check. */
  ghost predicate StartedOnce(cfg: Config, s: State) {
    && (forall j, k :: 0 <= j < k < |s.started| ==> s.started[j] != s.started[k])
    && (forall j :: 0 <= j < |s.started| ==> s.started[j] < Total(cfg) && PastCheck(cfg, s, s.started[j]))
  }

  ghost predicate Inv(cfg: Config, s: State) {
    && Counters(cfg, s)
    && Ledger(s)
    && Partitioned(cfg, s)
    && StartedOnce(cfg, s)
    && (!s.cancelled ==> Undisturbed(cfg, s))
  }

  lemma InitInv(cfg: Config)
    ensures Inv(cfg, Init(cfg))
  {
    CountSelecting(WorkerCount(cfg));
    var s := Init(cfg);
    forall i: nat | i < Total(cfg)
      ensures InExactlyOnePlace(cfg, s, i)
    {
      assert At(cfg, s, i, Unsent);
    }
  }

  function Actor(step: Step): int {
    match step
    case HandOff(w) => w
    case SeeClosed(w) => w
    case SeeCancel(w) => w
    case CheckContext(w) => w
    case FinishRun(w, _) => w
    case Deliver(w) => w
    case TimerFires(w) => w
    case _ => -1
  }

  /** A step changes the program counter of at most one worker. */
  lemma StepCount(cfg: Config, s: State, step: Step, f: Worker -> int)
    requires Enabled(cfg, s, step)
    ensures var t := Next(cfg, s, step); var w := Actor(step);
            if w < 0 then t.workers == s.workers
            else w < |s.workers| == |t.workers| && t.workers == s.workers[w := t.workers[w]] &&
                 Count(t.workers, f) == Count(s.workers, f) - f(s.workers[w]) + f(t.workers[w])
  {
    var t := Next(cfg, s, step);
    var w := Actor(step);
    if w >= 0 {
      assert t.workers == s.workers[w := t.workers[w]];
      CountUpdate(s.workers, w, t.workers[w], f);
    }
  }

  /** The job counter after a step. */
  lemma StepJobs(cfg: Config, s: State, step: Step)
    requires Counters(cfg, s) && Enabled(cfg, s, step)
    ensures var t := Next(cfg, s, step);
            t.next == |t.consumed| + |t.dropped| + Count(t.workers, Busy) + (if t.caller.Reducing? then 1 else 0)
  {
    StepCount(cfg, s, step, Busy);
    hide Count;
  }

  /** The wait group after a step. */
  lemma StepWaitGroup(cfg: Config, s: State, step: Step)
    requires Counters(cfg, s) && Enabled(cfg, s, step)
    ensures var t := Next(cfg, s, step);
            t.waitGroup == Count(t.workers, Live) && (t.resultsClosed ==> t.waitGroup == 0)
  {
    StepCount(cfg, s, step, Live);
    NoneLive(s.workers);
    hide Count;
  }

  lemma StepCounters(cfg: Config, s: State, step: Step)
    requires Counters(cfg, s) && Enabled(cfg, s, step)
    ensures Counters(cfg, Next(cfg, s, step))
  {
    StepJobs(cfg, s, step);
    StepWaitGroup(cfg, s, step);
    hide Count;
  }

  lemma StepLedger(cfg: Config, s: State, step: Step)
    requires Ledger(s) && Enabled(cfg, s, step)
    ensures Ledger(Next(cfg, s, step))
  {
  }

  /** Where a job that was at `p` is after the step. */
  function After(s: State, step: Step, i: nat, p: Place): Place {
    match step
    case HandOff(w) => if i == s.next then Held(w) else p
    case CheckContext(w) => if p == Held(w) && s.cancelled then Dropped(|s.dropped|) else p
    case Deliver(w) => if p == Held(w) then AtCaller else p
    case Reduce => if p == AtCaller then Consumed(|s.consumed|) else p
    case _ => p
  }

  /** Where a job that is at `p` after the step was before it. */
  function Before(s: State, step: Step, p: Place): Place {
    match step
    case HandOff(w) => if p == Held(w) then Unsent else p
    case CheckContext(w) => if p == Dropped(|s.dropped|) && s.cancelled then Held(w) else p
    case Deliver(w) => if p == AtCaller then Held(w) else p
    case Reduce => if p == Consumed(|s.consumed|) then AtCaller else p
    case _ => p
  }

  lemma BeforeIsInjective(cfg: Config, s: State, step: Step, i: nat, p: Place, q: Place)
    requires Enabled(cfg, s, step)
    requires At(cfg, Next(cfg, s, step), i, p) && At(cfg, Next(cfg, s, step), i, q)
    requires Before(s, step, p) == Before(s, step, q)
    ensures p == q
  {
  }

  lemma StepOnePlace(cfg: Config, s: State, step: Step, i: nat)
    requires Enabled(cfg, s, step) && InExactlyOnePlace(cfg, s, i)
    ensures InExactlyOnePlace(cfg, Next(cfg, s, step), i)
  {
    var t := Next(cfg, s, step);
    var p :| At(cfg, s, i, p);
    Forward(cfg, s, step, i, p);
    forall q, r | At(cfg, t, i, q) && At(cfg, t, i, r)
      ensures q == r
    {
      Back(cfg, s, step, i, q);
      Back(cfg, s, step, i, r);
      BeforeIsInjective(cfg, s, step, i, q, r);
    }
  }

  lemma ForwardHandOff(cfg: Config, s: State, step: Step, i: nat, p: Place)
    requires Enabled(cfg, s, step) && step.HandOff? && InExactlyOnePlace(cfg, s, i) && At(cfg, s, i, p)
    ensures At(cfg, Next(cfg, s, step), i, After(s, step, i, p))
  {
  }

  lemma ForwardCheckContext(cfg: Config, s: State, step: Step, i: nat, p: Place)
    requires Enabled(cfg, s, step) && step.CheckContext? && InExactlyOnePlace(cfg, s, i) && At(cfg, s, i, p)
    ensures At(cfg, Next(cfg, s, step), i, After(s, step, i, p))
  {
  }

  lemma ForwardDeliver(cfg: Config, s: State, step: Step, i: nat, p: Place)
    requires Enabled(cfg, s, step) && step.Deliver? && InExactlyOnePlace(cfg, s, i) && At(cfg, s, i, p)
    ensures At(cfg, Next(cfg, s, step), i, After(s, step, i, p))
  {
  }

  lemma ForwardReduce(cfg: Config, s: State, step: Step, i: nat, p: Place)
    requires Enabled(cfg, s, step) && step.Reduce? && InExactlyOnePlace(cfg, s, i) && At(cfg, s, i, p)
    ensures At(cfg, Next(cfg, s, step), i, After(s, step, i, p))
  {
  }

  lemma ForwardFinishRun(cfg: Config, s: State, step: Step, i: nat, p: Place)
    requires Enabled(cfg, s, step) && step.FinishRun? && InExactlyOnePlace(cfg, s, i) && At(cfg, s, i, p)
    ensures At(cfg, Next(cfg, s, step), i, After(s, step, i, p))
  {
  }

  lemma ForwardOther(cfg: Config, s: State, step: Step, i: nat, p: Place)
    requires Enabled(cfg, s, step) && InExactlyOnePlace(cfg, s, i) && At(cfg, s, i, p)
    requires !step.HandOff? && !step.CheckContext? && !step.Deliver? && !step.Reduce? && !step.FinishRun?
    ensures At(cfg, Next(cfg, s, step), i, After(s, step, i, p))
  {
  }

  lemma Forward(cfg: Config, s: State, step: Step, i: nat, p: Place)
    requires Enabled(cfg, s, step) && InExactlyOnePlace(cfg, s, i) && At(cfg, s, i, p)
    ensures At(cfg, Next(cfg, s, step), i, After(s, step, i, p))
  {
    hide At, Next, After, Before, InExactlyOnePlace;
    match step {
      case HandOff(_) => ForwardHandOff(cfg, s, step, i, p);
      case CheckContext(_) => ForwardCheckContext(cfg, s, step, i, p);
      case Deliver(_) => ForwardDeliver(cfg, s, step, i, p);
      case Reduce => ForwardReduce(cfg, s, step, i, p);
      case FinishRun(_, _) => ForwardFinishRun(cfg, s, step, i, p);
      case _ => ForwardOther(cfg, s, step, i, p);
    }
  }

  lemma BackHandOff(cfg: Config, s: State, step: Step, i: nat, p: Place)
    requires Enabled(cfg, s, step) && step.HandOff? && At(cfg, Next(cfg, s, step), i, p)
    ensures At(cfg, s, i, Before(s, step, p))
  {
  }

  lemma BackCheckContext(cfg: Config, s: State, step: Step, i: nat, p: Place)
    requires Enabled(cfg, s, step) && step.CheckContext? && At(cfg, Next(cfg, s, step), i, p)
    ensures At(cfg, s, i, Before(s, step, p))
  {
  }

  lemma BackDeliver(cfg: Config, s: State, step: Step, i: nat, p: Place)
    requires Enabled(cfg, s, step) && step.Deliver? && At(cfg, Next(cfg, s, step), i, p)
    ensures At(cfg, s, i, Before(s, step, p))
  {
  }

  lemma BackReduce(cfg: Config, s: State, step: Step, i: nat, p: Place)
    requires Enabled(cfg, s, step) && step.Reduce? && At(cfg, Next(cfg, s, step), i, p)
    ensures At(cfg, s, i, Before(s, step, p))
  {
  }

  lemma BackFinishRun(cfg: Config, s: State, step: Step, i: nat, p: Place)
    requires Enabled(cfg, s, step) && step.FinishRun? && At(cfg, Next(cfg, s, step), i, p)
    ensures At(cfg, s, i, Before(s, step, p))
  {
  }

  lemma BackOther(cfg: Config, s: State, step: Step, i: nat, p: Place)
    requires Enabled(cfg, s, step) && At(cfg, Next(cfg, s, step), i, p)
    requires !step.HandOff? && !step.CheckContext? && !step.Deliver? && !step.Reduce? && !step.FinishRun?
    ensures At(cfg, s, i, Before(s, step, p))
  {
  }

  lemma Back(cfg: Config, s: State, step: Step, i: nat, p: Place)
    requires Enabled(cfg, s, step) && At(cfg, Next(cfg, s, step), i, p)
    ensures At(cfg, s, i, Before(s, step, p))
  {
    hide At, Next, After, Before, InExactlyOnePlace;
    match step {
      case HandOff(_) => BackHandOff(cfg, s, step, i, p);
      case CheckContext(_) => BackCheckContext(cfg, s, step, i, p);
      case Deliver(_) => BackDeliver(cfg, s, step, i, p);
      case Reduce => BackReduce(cfg, s, step, i, p);
      case FinishRun(_, _) => BackFinishRun(cfg, s, step, i, p);
      case _ => BackOther(cfg, s, step, i, p);
    }
  }

  lemma StepPartitioned(cfg: Config, s: State, step: Step)
    requires Partitioned(cfg, s) && Enabled(cfg, s, step)
    ensures Partitioned(cfg, Next(cfg, s, step))
  {
    var t := Next(cfg, s, step);
    forall i: nat, p | At(cfg, t, i, p)
      ensures i < Total(cfg)
    {
      Back(cfg, s, step, i, p);
    }
    forall i: nat {:trigger InExactlyOnePlace(cfg, t, i)} | i < Total(cfg)
      ensures InExactlyOnePlace(cfg, t, i)
    {
      StepOnePlace(cfg, s, step, i);
    }
  }

  lemma PastStays(cfg: Config, s: State, step: Step, i: nat, p: Place)
    requires Enabled(cfg, s, step) && At(cfg, s, i, p) && Past(s, p)
    ensures Past(Next(cfg, s, step), After(s, step, i, p)) || (step.HandOff? && i == s.next)
  {
  }

  lemma StartsUnstarted(cfg: Config, s: State, w: nat)
    requires Partitioned(cfg, s) && Enabled(cfg, s, CheckContext(w))
    ensures !PastCheck(cfg, s, s.workers[w].i)
  {
    var i := s.workers[w].i;
    assert At(cfg, s, i, Held(w)) && InExactlyOnePlace(cfg, s, i);
    assert forall p :: At(cfg, s, i, p) ==> p == Held(w);
  }

  lemma StepPastCheck(cfg: Config, s: State, step: Step, i: nat)
    requires InExactlyOnePlace(cfg, s, i) && i < Total(cfg) && PastCheck(cfg, s, i) && Enabled(cfg, s, step)
    ensures PastCheck(cfg, Next(cfg, s, step), i)
  {
    var p :| At(cfg, s, i, p) && Past(s, p);
    Forward(cfg, s, step, i, p);
    assert i == s.next ==> At(cfg, s, i, Unsent);
    PastStays(cfg, s, step, i, p);
  }

  lemma StepStartedOnce(cfg: Config, s: State, step: Step)
    requires Partitioned(cfg, s) && StartedOnce(cfg, s) && Enabled(cfg, s, step)
    ensures StartedOnce(cfg, Next(cfg, s, step))
  {
    var t := Next(cfg, s, step);
    forall j | 0 <= j < |s.started|
      ensures PastCheck(cfg, t, s.started[j])
    {
      assert InExactlyOnePlace(cfg, s, s.started[j]);
      StepPastCheck(cfg, s, step, s.started[j]);
    }
    if step.CheckContext? && !s.cancelled {
      StartsUnstarted(cfg, s, step.w);
      assert At(cfg, s, s.workers[step.w].i, Held(step.w));
      assert At(cfg, t, s.workers[step.w].i, Held(step.w)) && Past(t, Held(step.w));
    }
  }

  lemma StepUndisturbed(cfg: Config, s: State, step: Step)
    requires Undisturbed(cfg, s) && Counters(cfg, s) && Partitioned(cfg, s) && Enabled(cfg, s, step)
    requires !Next(cfg, s, step).cancelled
    ensures Undisturbed(cfg, Next(cfg, s, step))
  {
  }

  lemma StepInv(cfg: Config, s: State, step: Step)
    requires Inv(cfg, s) && Enabled(cfg, s, step)
    ensures Inv(cfg, Next(cfg, s, step))
  {
    StepCounters(cfg, s, step);
    StepLedger(cfg, s, step);
    StepPartitioned(cfg, s, step);
    StepStartedOnce(cfg, s, step);
    if !Next(cfg, s, step).cancelled {
      StepUndisturbed(cfg, s, step);
    }
  }

  lemma {:induction false} RunInv(cfg: Config, s: State, schedule: seq<Step>, t: State)
    requires Inv(cfg, s) && Runs(cfg, s, schedule, t)
    ensures Inv(cfg, t)
    decreases |schedule|
  {
    if schedule != [] {
      StepInv(cfg, s, schedule[0]);
      RunInv(cfg, Next(cfg, s, schedule[0]), schedule[1..], t);
    }
  }

  lemma ReachableInv(cfg: Config, s: State)
    requires Reachable(cfg, s)
    ensures Inv(cfg, s)
  {
    var schedule :| Runs(cfg, Init(cfg), schedule, s);
    InitInv(cfg);
    RunInv(cfg, Init(cfg), schedule, s);
  }

  // ---------------------------------------------------------------- safety over every interleaving

  /**
   In every reachable state each channel is in exactly one place: not sent yet, held by one worker, with
   the caller, reduced, or dropped by a worker that saw the cancellation.  `run` is started at most once
   per channel.
   */
  lemma EachJobInOnePlace(cfg: Config, s: State)
    requires Reachable(cfg, s)
    ensures forall i: nat :: i < Total(cfg) ==> InExactlyOnePlace(cfg, s, i)
    ensures forall j, k :: 0 <= j < k < |s.started| ==> s.started[j] != s.started[k]
  {
    ReachableInv(cfg, s);
  }

  /**
   `results` is closed only when every worker is gone, so no worker is ever left sending on it, and the
   WaitGroup counter never becomes negative.
   */
  lemma NoSendOnClosedChannel(cfg: Config, s: State)
    requires Reachable(cfg, s)
    ensures s.resultsClosed ==> forall w :: 0 <= w < |s.workers| ==> s.workers[w].Exited?
    ensures s.waitGroup >= 0
  {
    ReachableInv(cfg, s);
    NoneLive(s.workers);
  }

  /** Progress reports are 0, 1, 2, ... without a gap, never above the number of reduced results. */
  lemma ReportsCountUp(cfg: Config, s: State)
    requires Reachable(cfg, s)
    ensures 1 <= |s.reports| <= s.processed + 1 <= Total(cfg) + 1
    ensures forall k :: 0 <= k < |s.reports| ==> s.reports[k] == k
    ensures !s.cancelled ==> |s.reports| == s.processed + 1
  {
    ReachableInv(cfg, s);
    BusyNat(s.workers);
  }

  lemma {:induction false} BusyNat(workers: seq<Worker>)
    ensures Count(workers, Busy) >= 0
  {
    if workers != [] {
      BusyNat(workers[1..]);
    }
  }

  // ---------------------------------------------------------------- liveness

  /** A step that is not a cancellation and is enabled whenever the pool has not finished. */
  function Progress(cfg: Config, s: State): Step {
    if s.caller.Reducing? then Reduce
    else if s.caller.Receiving? && s.resultsClosed then Return
    else if s.caller.Receiving? && s.waitGroup == 0 then CloseResults
    else
      var w := FirstLive(s.workers);
      if w == |s.workers| then (if s.next == Total(cfg) then FeederFinishes else FeederStops)
      else
        match s.workers[w]
        case Selecting =>
          if s.feederExited then SeeClosed(w)
          else if s.next == Total(cfg) then FeederFinishes
          else HandOff(w)
        case Received(_) => CheckContext(w)
        case Running(_) => FinishRun(w, ZERO)
        case Sending(_, _) => Deliver(w)
        case _ => TimerFires(w)
  }

  /** No reachable unfinished state is stuck, cancelled or not. */
  lemma NeverStuck(cfg: Config, s: State)
    requires Inv(cfg, s) && !Finished(s)
    ensures Enabled(cfg, s, Progress(cfg, s)) && Progress(cfg, s) != Cancel
  {
    NoneLive(s.workers);
    var w := FirstLive(s.workers);
    if w < |s.workers| && s.workers[w].Running? {
      assert At(cfg, s, s.workers[w].i, Held(w));
    }
    if w == |s.workers| && s.caller.Returned? && s.feederExited {
      assert Finished(s);
    }
  }

  /** Bounds the number of steps still possible. */
  function Measure(cfg: Config, s: State): int {
    (if s.cancelled then 0 else 1)
    + (if s.feederExited then 0 else 1) + 6 * (Total(cfg) - s.next)
    + Count(s.workers, Weight)
    + (if s.resultsClosed then 0 else 1)
    + (match s.caller case Receiving => 1 case Reducing(_, _) => 2 case Returned => 0)
  }

  lemma {:induction false} WeightNat(workers: seq<Worker>)
    ensures Count(workers, Weight) >= 0
  {
    if workers != [] {
      WeightNat(workers[1..]);
    }
  }

  lemma StepDecreases(cfg: Config, s: State, step: Step)
    requires Enabled(cfg, s, step)
    ensures Measure(cfg, Next(cfg, s, step)) < Measure(cfg, s)
  {
    StepCount(cfg, s, step, Weight);
  }

  /** Every schedule ends: no run is longer than the initial measure, whatever is chosen. */
  lemma RunsAreBounded(cfg: Config, schedule: seq<Step>, s: State)
    requires Runs(cfg, Init(cfg), schedule, s)
    ensures |schedule| <= 6 * Total(cfg) + WorkerCount(cfg) + 4
  {
    InitInv(cfg);
    RunInv(cfg, Init(cfg), schedule, s);
    RunDecreases(cfg, Init(cfg), schedule, s);
    WeightNat(s.workers);
    CountSelecting(WorkerCount(cfg));
  }

  lemma {:induction false} RunDecreases(cfg: Config, s: State, schedule: seq<Step>, t: State)
    requires Runs(cfg, s, schedule, t)
    ensures |schedule| + Measure(cfg, t) <= Measure(cfg, s)
    decreases |schedule|
  {
    if schedule != [] {
      StepDecreases(cfg, s, schedule[0]);
      RunDecreases(cfg, Next(cfg, s, schedule[0]), schedule[1..], t);
    }
  }

  // ---------------------------------------------------------------- how many workers, and when they start tests

  /** There are as many workers as channels and the limit allow, so no more tests than that at any time. */
  lemma WorkersAreBounded(cfg: Config, s: State)
    requires Reachable(cfg, s)
    ensures |s.workers| <= |cfg.channels| && |s.workers| <= 32
    ensures 1 <= cfg.concurrency <= 32 ==> |s.workers| <= cfg.concurrency
    ensures cfg.channels != [] ==> |s.workers| >= 1
    ensures |s.workers| == |cfg.channels| || |s.workers| == NormalizeConcurrency(cfg.concurrency)
  {
    ReachableInv(cfg, s);
  }

  /** A missing channel and one that is disabled by hand (status 2) count nothing; any other is tested. */
  lemma ExpectedIs(cfg: Config, i: nat)
    requires i < Total(cfg)
    ensures cfg.channels[i] == NilChannel ==> Expected(cfg, i) == Summary(0, 0, 0, 0, 0)
    ensures cfg.channels[i].Channel? && cfg.channels[i].status == 2 ==> Expected(cfg, i) == Summary(0, 0, 0, 0, 0)
    ensures cfg.channels[i].Channel? && cfg.channels[i].status != 2 ==> Expected(cfg, i) == cfg.run(cfg.channels[i])
  {
  }

  /** After a cancellation no test is started and no progress is reported. */
  lemma NothingStartsAfterCancel(cfg: Config, s: State, step: Step)
    requires Enabled(cfg, s, step) && s.cancelled
    ensures Next(cfg, s, step).cancelled
    ensures Next(cfg, s, step).started == s.started && Next(cfg, s, step).reports == s.reports
  {
  }

  /** With a request interval a worker takes no job right after a delivery; without one it may. */
  lemma PausesBetweenJobs(cfg: Config, s: State, w: nat)
    requires Enabled(cfg, s, Deliver(w)) && !s.feederExited && s.next < Total(cfg)
    ensures Enabled(cfg, Next(cfg, s, Deliver(w)), HandOff(w)) <==> !cfg.interval
  {
  }

  /**
   A cancellation may come at any moment.  From then on the feeder can stop, and every worker that waits for a job or
   for the timer can leave; one that waits for a job may still be handed one, since `select` chooses freely.
   */
  lemma CancelReachesAll(cfg: Config, s: State, w: nat)
    requires w < |s.workers|
    ensures Enabled(cfg, s, Cancel) || s.cancelled
    ensures s.cancelled ==> (Enabled(cfg, s, FeederStops) <==> !s.feederExited && s.next < |cfg.channels|)
    ensures s.cancelled && s.workers[w] in {Selecting, Pausing} ==>
              && Enabled(cfg, s, SeeCancel(w))
              && Next(cfg, s, SeeCancel(w)).workers[w] == Exited
              && Next(cfg, s, SeeCancel(w)).waitGroup == s.waitGroup - 1
    ensures s.workers[w] == Selecting && Enabled(cfg, s, FeederStops) ==> Enabled(cfg, s, HandOff(w))
    ensures !s.cancelled ==>
              && !Enabled(cfg, s, FeederStops) && !Enabled(cfg, s, SeeCancel(w))
              && (Enabled(cfg, s, Cancel) ==> Next(cfg, s, Cancel) == s.(cancelled := true))
  {
  }

  /**
   The result of a test reaches the sum as it is: what `run` returned, even after a cancellation, is what the worker
   sends, what it sends is what the caller receives, and what the caller receives is what it adds.
   */
  lemma ResultTravels(cfg: Config, s: State, step: Step)
    requires Enabled(cfg, s, step)
    ensures match step
            case FinishRun(w, observed) =>
              var i := s.workers[w].i;
              var tested := cfg.channels[i] != NilChannel && cfg.channels[i].status != 2;
              Next(cfg, s, step).workers[w] ==
              Sending(i, if !tested then Summary(0, 0, 0, 0, 0)
                         else if s.cancelled then observed else cfg.run(cfg.channels[i]))
            case Deliver(w) =>
              Next(cfg, s, step).caller == Reducing(s.workers[w].i, s.workers[w].result)
            case Reduce =>
              && Next(cfg, s, step).consumed == s.consumed + [Delivery(s.caller.i, s.caller.result)]
              && Next(cfg, s, step).processed == s.processed + 1
            case _ =>
              && Next(cfg, s, step).consumed == s.consumed && Next(cfg, s, step).summary == s.summary
              && Next(cfg, s, step).processed == s.processed
  {
  }

  // ---------------------------------------------------------------- what a finished run returns

  /** The sum of integers. */
  function SumInts(xs: seq<int>): int {
    if xs == [] then 0 else SumInts(xs[..|xs| - 1]) + xs[|xs| - 1]
  }

  lemma SumIntsIs(xs: seq<int>, x: int)
    ensures SumInts([]) == 0 && SumInts(xs + [x]) == SumInts(xs) + x
  {
    assert (xs + [x])[..|xs|] == xs;
  }

  /** The summaries, field by field. */
  predicate Columns(results: seq<Summary>, tested: seq<int>, succeeded: seq<int>, failed: seq<int>,
                    disabled: seq<int>, enabled: seq<int>)
  {
    && |results| == |tested| == |succeeded| == |failed| == |disabled| == |enabled|
    && forall k | 0 <= k < |results| ::
         results[k] == Summary(tested[k], succeeded[k], failed[k], disabled[k], enabled[k])
  }

  /** Every field of the summary is the integer sum of that field over the results. */
  ghost predicate FieldwiseSum(sum: Summary, results: seq<Summary>) {
    forall tested, succeeded, failed, disabled, enabled |
      Columns(results, tested, succeeded, failed, disabled, enabled) ::
      sum == Summary(SumInts(tested), SumInts(succeeded), SumInts(failed), SumInts(disabled), SumInts(enabled))
  }

  lemma FieldwiseNothing()
    ensures FieldwiseSum(ZERO, [])
  {
  }

  lemma SumIntsLast(xs: seq<int>, n: nat)
    requires |xs| == n + 1
    ensures SumInts(xs) == SumInts(xs[..n]) + xs[n]
  {
  }

  lemma ColumnsFront(results: seq<Summary>, x: Summary, tested: seq<int>, succeeded: seq<int>, failed: seq<int>,
                     disabled: seq<int>, enabled: seq<int>)
    requires Columns(results + [x], tested, succeeded, failed, disabled, enabled)
    ensures var n := |results|;
            && |tested| == |succeeded| == |failed| == |disabled| == |enabled| == n + 1
            && x == Summary(tested[n], succeeded[n], failed[n], disabled[n], enabled[n])
            && Columns(results, tested[..n], succeeded[..n], failed[..n], disabled[..n], enabled[..n])
  {
    var all := results + [x];
    assert all[|results|] == x;
    assert forall k | 0 <= k < |results| :: all[k] == results[k];
  }

  lemma FieldwiseSnoc(sum: Summary, results: seq<Summary>, x: Summary)
    requires FieldwiseSum(sum, results)
    ensures FieldwiseSum(Add(sum, x), results + [x])
  {
    hide Columns, SumInts;
    var n := |results|;
    forall tested, succeeded, failed, disabled, enabled |
      Columns(results + [x], tested, succeeded, failed, disabled, enabled)
      ensures Add(sum, x) ==
              Summary(SumInts(tested), SumInts(succeeded), SumInts(failed), SumInts(disabled), SumInts(enabled))
    {
      ColumnsFront(results, x, tested, succeeded, failed, disabled, enabled);
      SumIntsLast(tested, n);
      SumIntsLast(succeeded, n);
      SumIntsLast(failed, n);
      SumIntsLast(disabled, n);
      SumIntsLast(enabled, n);
    }
  }

  /** The results of some deliveries. */
  function Results(deliveries: seq<Delivery>): (results: seq<Summary>)
    ensures |results| == |deliveries| && forall k | 0 <= k < |results| :: results[k] == deliveries[k].result
  {
    seq(|deliveries|, k requires 0 <= k < |deliveries| => deliveries[k].result)
  }

  /** What each of the first n channels contributes. */
  function Contributions(cfg: Config, n: nat): (results: seq<Summary>)
    requires n <= Total(cfg)
    ensures |results| == n && forall k | 0 <= k < n :: results[k] == Expected(cfg, k)
  {
    seq(n, k requires 0 <= k < n => Expected(cfg, k))
  }

  lemma {:induction false} SumOfIsFieldwise(deliveries: seq<Delivery>)
    ensures FieldwiseSum(SumOf(deliveries), Results(deliveries))
  {
    hide FieldwiseSum, Add;
    if deliveries == [] {
      FieldwiseNothing();
      assert Results(deliveries) == [];
    } else {
      var n := |deliveries| - 1;
      SumOfIsFieldwise(deliveries[..n]);
      FieldwiseSnoc(SumOf(deliveries[..n]), Results(deliveries[..n]), deliveries[n].result);
      assert Results(deliveries) == Results(deliveries[..n]) + [deliveries[n].result];
    }
  }

  lemma {:induction false} SumExpectedIsFieldwise(cfg: Config, n: nat)
    requires n <= Total(cfg)
    ensures FieldwiseSum(SumExpected(cfg, n), Contributions(cfg, n))
  {
    hide FieldwiseSum, Add, Expected;
    if n == 0 {
      FieldwiseNothing();
      assert Contributions(cfg, 0) == [];
    } else {
      SumExpectedIsFieldwise(cfg, n - 1);
      FieldwiseSnoc(SumExpected(cfg, n - 1), Contributions(cfg, n - 1), Expected(cfg, n - 1));
      assert Contributions(cfg, n) == Contributions(cfg, n - 1) + [Expected(cfg, n - 1)];
    }
  }

  function SumExpected(cfg: Config, n: nat): Summary
    requires n <= Total(cfg)
  {
    if n == 0 then ZERO else Add(SumExpected(cfg, n - 1), Expected(cfg, n - 1))
  }

  lemma {:induction false} SumOfAppend(a: seq<Delivery>, b: seq<Delivery>)
    ensures SumOf(a + b) == Add(SumOf(a), SumOf(b))
  {
    if b == [] {
      assert a + b == a;
    } else {
      var n := |b| - 1;
      assert (a + b)[..|a + b| - 1] == a + b[..n];
      SumOfAppend(a, b[..n]);
    }
  }

  lemma SumOfRemove(ds: seq<Delivery>, k: nat) returns (rest: seq<Delivery>)
    requires k < |ds|
    ensures |rest| == |ds| - 1
    ensures forall j :: 0 <= j < |rest| ==> rest[j] == ds[if j < k then j else j + 1]
    ensures SumOf(ds) == Add(SumOf(rest), ds[k].result)
  {
    rest := ds[..k] + ds[k + 1..];
    assert ds == ds[..k] + ([ds[k]] + ds[k + 1..]);
    SumOfAppend(ds[..k], [ds[k]] + ds[k + 1..]);
    SumOfAppend([ds[k]], ds[k + 1..]);
    SumOfAppend(ds[..k], ds[k + 1..]);
    assert [ds[k]][..0] == [];
  }

  ghost predicate Covered(ds: seq<Delivery>, i: nat) {
    exists k :: 0 <= k < |ds| && ds[k].i == i
  }

  /** The deliveries are those of the channels 0..n, each one once, in any order. */
  ghost predicate OncePerChannel(cfg: Config, ds: seq<Delivery>, n: nat) {
    && n == |ds| <= Total(cfg)
    && (forall k :: 0 <= k < |ds| ==> ds[k].i < n && ds[k].result == Expected(cfg, ds[k].i))
    && (forall i: nat :: i < n ==> Covered(ds, i))
    && (forall j, k :: 0 <= j < k < |ds| ==> ds[j].i != ds[k].i)
  }

  lemma DropLast(cfg: Config, ds: seq<Delivery>, n: nat, k: nat, rest: seq<Delivery>)
    requires OncePerChannel(cfg, ds, n) && k < n && ds[k].i == n - 1
    requires |rest| == n - 1
    requires forall j :: 0 <= j < |rest| ==> rest[j] == ds[if j < k then j else j + 1]
    ensures OncePerChannel(cfg, rest, n - 1)
  {
    forall i: nat {:trigger Covered(rest, i)} | i < n - 1
      ensures Covered(rest, i)
    {
      assert Covered(ds, i);
      var j :| 0 <= j < |ds| && ds[j].i == i;
      assert rest[if j < k then j else j - 1] == ds[j];
    }
  }

  lemma {:induction false} SumInAnyOrder(cfg: Config, ds: seq<Delivery>, n: nat)
    requires OncePerChannel(cfg, ds, n)
    ensures SumOf(ds) == SumExpected(cfg, n)
    decreases n
  {
    if n > 0 {
      assert Covered(ds, n - 1);
      var k :| 0 <= k < |ds| && ds[k].i == n - 1;
      var rest := SumOfRemove(ds, k);
      DropLast(cfg, ds, n, k, rest);
      SumInAnyOrder(cfg, rest, n - 1);
    }
  }

  /**
   A call nobody cancelled returns with every channel processed, the summary equal to the fieldwise sum over
   all channels, and exactly the reports 0, 1, ..., total, whatever order the workers finished in.
   */
  lemma CompleteRun(cfg: Config, s: State)
    requires Reachable(cfg, s) && s.caller.Returned? && !s.cancelled
    ensures s.processed == Total(cfg)
    ensures s.summary == SumExpected(cfg, Total(cfg))
    ensures FieldwiseSum(s.summary, Contributions(cfg, Total(cfg)))
    ensures |s.reports| == Total(cfg) + 1 && forall k :: 0 <= k <= Total(cfg) ==> s.reports[k] == k
  {
    ReachableInv(cfg, s);
    NoneLive(s.workers);
    forall i: nat {:trigger Covered(s.consumed, i)} | i < Total(cfg)
      ensures Covered(s.consumed, i)
    {
      assert InExactlyOnePlace(cfg, s, i);
      var p :| At(cfg, s, i, p);
      assert p.Consumed? && s.consumed[p.k].i == i;
    }
    forall j, k | 0 <= j < k < |s.consumed|
      ensures s.consumed[j].i != s.consumed[k].i
    {
      assert InExactlyOnePlace(cfg, s, s.consumed[j].i);
      assert At(cfg, s, s.consumed[j].i, Consumed(j)) && At(cfg, s, s.consumed[k].i, Consumed(k));
    }
    SumInAnyOrder(cfg, s.consumed, Total(cfg));
    SumExpectedIsFieldwise(cfg, Total(cfg));
  }

  /**
   A cancelled call loses no channel when it returns: each one was reduced, was dropped by the worker that
   took it, or was not sent and never will be, although the feeder may still be there.  The summary
   is the sum of exactly the reduced results, and every test that was started is among them.
   */
  lemma CancelledRun(cfg: Config, s: State)
    requires Reachable(cfg, s) && s.caller.Returned?
    ensures s.processed + |s.dropped| + (Total(cfg) - s.next) == Total(cfg)
    ensures s.processed == |s.consumed| && FieldwiseSum(s.summary, Results(s.consumed))
    ensures forall j | 0 <= j < |s.started| :: Covered(s.consumed, s.started[j])
  {
    ReachableInv(cfg, s);
    NoneLive(s.workers);
    forall j | 0 <= j < |s.started|
      ensures Covered(s.consumed, s.started[j])
    {
      assert PastCheck(cfg, s, s.started[j]);
      var p :| At(cfg, s, s.started[j], p) && Past(s, p);
      assert s.consumed[p.k].i == s.started[j];
    }
    SumOfIsFieldwise(s.consumed);
  }

  /** After the call returned nothing is sent, tested or added any more. */
  lemma ReturnIsFinal(cfg: Config, s: State, step: Step)
    requires Reachable(cfg, s) && s.caller.Returned? && Enabled(cfg, s, step)
    ensures var t := Next(cfg, s, step);
            && t.caller.Returned? && t.next == s.next && t.started == s.started
            && t.consumed == s.consumed && t.dropped == s.dropped && t.summary == s.summary && t.reports == s.reports
  {
    ReachableInv(cfg, s);
    NoneLive(s.workers);
  }

  lemma {:induction false} RunsExtend(cfg: Config, s: State, schedule: seq<Step>, t: State, step: Step)
    requires Runs(cfg, s, schedule, t) && Enabled(cfg, t, step)
    ensures Runs(cfg, s, schedule + [step], Next(cfg, t, step))
    decreases |schedule|
  {
    if schedule == [] {
      assert (schedule + [step])[1..] == [];
      assert Runs(cfg, Next(cfg, s, step), [], Next(cfg, t, step));
    } else {
      assert (schedule + [step])[1..] == schedule[1..] + [step];
      RunsExtend(cfg, Next(cfg, s, schedule[0]), schedule[1..], t, step);
    }
  }

  /**
   The pool driven by an arbitrary scheduler, which may also cancel: the call always returns, and what it
   returns is the state of some interleaving when the caller is done.  The scheduler's choice is
   taken when it is enabled.
   */
  method RunChannelTestWorkers(cfg: Config, scheduler: State -> Step) returns (summary: Summary, s: State)
    ensures Reachable(cfg, s) && s.caller.Returned? && summary == s.summary
    ensures !s.cancelled ==> FieldwiseSum(summary, Contributions(cfg, Total(cfg)))
    ensures FieldwiseSum(summary, Results(s.consumed))
    ensures s.processed + |s.dropped| <= Total(cfg)
  {
    s := Init(cfg);
    ghost var schedule: seq<Step> := [];
    InitInv(cfg);
    while !s.caller.Returned?
      invariant Runs(cfg, Init(cfg), schedule, s)
      invariant Inv(cfg, s)
      decreases Measure(cfg, s)
    {
      NeverStuck(cfg, s);
      var choice := scheduler(s);
      var step := if Enabled(cfg, s, choice) then choice else Progress(cfg, s);
      RunsExtend(cfg, Init(cfg), schedule, s, step);
      StepInv(cfg, s, step);
      StepDecreases(cfg, s, step);
      WeightNat(s.workers);
      schedule := schedule + [step];
      s := Next(cfg, s, step);
    }
    summary := s.summary;
    CancelledRun(cfg, s);
    if !s.cancelled {
      CompleteRun(cfg, s);
    }
  }
}
