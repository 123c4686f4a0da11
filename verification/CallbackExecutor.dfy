/**
 The guest callback executor: host threads submit jobs and block until they are
 answered, one guest worker takes them in order, runs them and acknowledges each.

 `State` is everything the executor's mutex protects, between two resets.  A job is
 named by its position in `jobs`, the accepted submissions in order; `log` records
 deliveries.  While the worker copies a job's descriptor into guest memory the
 mutex is released; `inHand` is the job it is copying.
 */
module CallbackExecutor {
  import opened Wrappers

  datatype Phase = Unavailable | Starting | Ready | Failed | Stopping
  datatype Kind = Invoke | Function | Selector | Release
  datatype Job = Job(kind: Kind, identifier: nat, delivered: bool, completed: bool, canceled: bool)
  type JobId = nat
  type ThreadId = nat

  datatype State = State(
    phase: Phase,
    queue: seq<JobId>,
    active: Option<JobId>,
    inHand: Option<JobId>,
    thread: ThreadId,
    next: nat,
    quitting: bool,
    jobs: seq<Job>,
    log: seq<JobId>)

  const INITIAL := State(Unavailable, [], None, None, 0, 1, false, [], [])

  const WORD: nat := 0x1_0000_0000
  /** How many identifiers there are: all 32-bit values except zero. */
  const IDENTIFIERS: nat := WORD - 1

  // ----- Steps ------------------------------------------------------------------------

  datatype Event =
    | Supported
    | CreationResult(error: nat)
    | Submit(kind: Kind)
    | WaitBegin(t: ThreadId)
    | Take(t: ThreadId)
    | DescriptorWritten
    | DescriptorFailed
    | Complete(t: ThreadId, identifier: nat)
    | Stop
    | Exited(t: ThreadId)
    | Quit

  predicate Known(s: State, j: JobId) {
    j < |s.jobs|
  }

  /** A thread is in one place at a time, and the worker acknowledges the job it
      was given before it waits for another. */
  predicate Enabled(s: State, e: Event) {
    match e
    case WaitBegin(t) => t > 1 && (t == s.thread ==> s.inHand.None?)
    case Take(t) =>
      t == s.thread && s.phase == Ready && !s.quitting && s.queue != [] && s.inHand.None? && s.active.None?
    case DescriptorWritten => s.inHand.Some?
    case DescriptorFailed => s.inHand.Some?
    case Complete(t, _) => t > 0 && (t == s.thread ==> s.inHand.None?)
    case Exited(t) => t > 0 && (t == s.thread ==> s.inHand.None?)
    case _ => true
  }

  function Cancel(jobs: seq<Job>, which: seq<JobId>): seq<Job> {
    seq(|jobs|, i requires 0 <= i < |jobs| => if i in which then jobs[i].(canceled := true) else jobs[i])
  }

  /** Identifiers count up, wrap at 32 bits and skip zero. */
  function TakeIdentifier(next: nat): (nat, nat) {
    var identifier, after := next, (next + 1) % WORD;
    if identifier == 0 then (after, (after + 1) % WORD) else (identifier, after)
  }

  function CancelQueue(s: State): State {
    s.(jobs := Cancel(s.jobs, s.queue), queue := [])
  }

  function CancelActive(s: State): State {
    if s.active.Some? && Known(s, s.active.value)
    then s.(jobs := s.jobs[s.active.value := s.jobs[s.active.value].(canceled := true)], active := None)
    else s.(active := None)
  }

  function Step(s: State, e: Event): State {
    match e
    case Supported => if s.phase == Unavailable then s.(phase := Starting) else s
    case CreationResult(error) => if s.phase == Starting && error != 0 then s.(phase := Failed) else s
    case Submit(kind) =>
      if s.phase != Ready || s.quitting then s
      else var (identifier, next) := TakeIdentifier(s.next);
           var job := Job(kind, identifier, false, false, false);
           s.(next := next, jobs := s.jobs + [job], queue := s.queue + [|s.jobs|])
    case WaitBegin(t) => if s.phase == Starting then s.(phase := Ready, thread := t) else s
    case Take(t) => if s.queue == [] then s
                    else s.(queue := s.queue[1..], active := Some(s.queue[0]), inHand := Some(s.queue[0]))
    case DescriptorWritten =>
      if s.inHand.Some? && Known(s, s.inHand.value)
      then var j := s.inHand.value;
           s.(jobs := s.jobs[j := s.jobs[j].(delivered := true)], inHand := None, log := s.log + [j])
      else s
    case DescriptorFailed =>
      if s.inHand.Some? && Known(s, s.inHand.value)
      then var j := s.inHand.value;
           s.(jobs := s.jobs[j := s.jobs[j].(canceled := true)], inHand := None, active := None)
      else s
    case Complete(t, identifier) =>
      if t == s.thread && s.active.Some? && Known(s, s.active.value) && s.jobs[s.active.value].identifier == identifier
      then var j := s.active.value; s.(jobs := s.jobs[j := s.jobs[j].(completed := true)], active := None)
      else s
    case Stop => if s.phase == Unavailable then s else CancelQueue(s.(phase := Stopping))
    case Exited(t) =>
      if t != s.thread then s
      else CancelQueue(CancelActive(s)).(thread := 0, phase := if s.phase == Stopping then Stopping else Failed)
    case Quit => s.(quitting := true)
  }

  /** What `submit` tells its caller once the job is answered. */
  predicate Answered(job: Job) {
    job.completed || job.canceled
  }

  predicate Answer(job: Job) {
    job.completed || (job.delivered && job.kind == Release)
  }

  // ----- The invariant -------------------------------------------------------------------

  predicate Live(s: State, j: JobId) {
    j in s.queue || s.active == Some(j)
  }

  /** The queue is the last submissions, in order. */
  ghost predicate QueueOk(s: State) {
    && |s.queue| <= |s.jobs|
    && (forall i :: 0 <= i < |s.queue| ==> s.queue[i] == |s.jobs| - |s.queue| + i)
    && (s.queue != [] ==> s.phase == Ready)
  }

  ghost predicate ActiveOk(s: State) {
    && (s.active.Some? ==> s.active.value < |s.jobs| - |s.queue|)
    && (s.active.Some? && s.phase == Ready ==> s.active.value == |s.jobs| - |s.queue| - 1)
    && (s.inHand.Some? ==> s.active == s.inHand)
    && (s.phase == Ready ==> s.thread > 0)
    && (s.phase in {Unavailable, Starting, Failed} ==> s.active.None?)
    && (s.phase in {Unavailable, Starting} ==> s.jobs == [])
  }

  /** A job is unanswered exactly while it is live, and never answered twice. */
  ghost predicate JobOk(s: State, j: JobId)
    requires j < |s.jobs|
  {
    && !(s.jobs[j].completed && s.jobs[j].canceled)
    && (Answered(s.jobs[j]) <==> !Live(s, j))
    && (s.jobs[j].completed ==> s.jobs[j].delivered)
    && (j >= |s.jobs| - |s.queue| ==> !s.jobs[j].delivered)
    && (s.active == Some(j) ==> (s.jobs[j].delivered <==> s.inHand != Some(j)))
    && (s.jobs[j].delivered <==> j in s.log)
    && s.jobs[j].identifier == j % IDENTIFIERS + 1
  }

  ghost predicate LogOk(s: State) {
    && (forall i, j :: 0 <= i < j < |s.log| ==> s.log[i] < s.log[j])
    && (forall i :: 0 <= i < |s.log| ==> s.log[i] < |s.jobs| - |s.queue|)
    && (s.inHand.Some? ==> forall i :: 0 <= i < |s.log| ==> s.log[i] < s.inHand.value)
  }

  function NextAfter(n: nat): nat {
    if n == 0 then 1 else ((n - 1) % IDENTIFIERS + 2) % WORD
  }

  ghost predicate Inv(s: State) {
    && QueueOk(s) && ActiveOk(s) && LogOk(s)
    && s.next == NextAfter(|s.jobs|)
    && forall j :: 0 <= j < |s.jobs| ==> JobOk(s, j)
  }

  /** Counting up is counting up remainders, with zero behind the last. */
  lemma RemainderNext(n: nat)
    ensures (n + 1) % IDENTIFIERS == if n % IDENTIFIERS + 1 == IDENTIFIERS then 0 else n % IDENTIFIERS + 1
  {
  }

  /** The identifier with remainder r, and what `next` is behind it. */
  lemma TakenIs(r: nat)
    requires r < IDENTIFIERS
    ensures TakeIdentifier((r + 1) % WORD) == (r + 1, (r + 2) % WORD)
    ensures TakeIdentifier(0) == (1, 2)
  {
  }

  lemma IdentifierIsNext(n: nat)
    ensures TakeIdentifier(NextAfter(n)) == (n % IDENTIFIERS + 1, NextAfter(n + 1))
  {
    hide TakeIdentifier;
    if n == 0 {
      TakenIs(0);
    } else {
      RemainderNext(n - 1);
      var r := (n - 1) % IDENTIFIERS;
      TakenIs(n % IDENTIFIERS);
      assert r + 1 == IDENTIFIERS ==> (r + 2) % WORD == 0;
    }
  }

  lemma StepKeepsInv(s: State, e: Event)
    requires Inv(s) && Enabled(s, e)
    ensures Inv(Step(s, e))
  {
    match e
    case Submit(kind) => SubmitKeepsInv(s, kind);
    case Take(t) => TakeKeepsInv(s, t);
    case DescriptorWritten => WrittenKeepsInv(s);
    case DescriptorFailed => FailedKeepsInv(s);
    case Complete(t, identifier) => CompleteKeepsInv(s, t, identifier);
    case Stop => StopKeepsInv(s);
    case Exited(t) => ExitedKeepsInv(s, t);
    case _ =>
      var s' := Step(s, e);
      forall j | 0 <= j < |s'.jobs| ensures JobOk(s', j) { assert JobOk(s, j); }
  }

  lemma SubmitKeepsInv(s: State, kind: Kind)
    requires Inv(s)
    ensures Inv(Step(s, Submit(kind)))
  {
    var s' := Step(s, Submit(kind));
    IdentifierIsNext(|s.jobs|);
    forall j | 0 <= j < |s'.jobs| ensures JobOk(s', j) {
      if j < |s.jobs| { assert JobOk(s, j); }
      if s' != s && j == |s.jobs| { assert s'.queue[|s.queue|] == j; }
    }
  }

  lemma TakeKeepsInv(s: State, t: ThreadId)
    requires Inv(s) && Enabled(s, Take(t))
    ensures Inv(Step(s, Take(t)))
  {
    var s' := Step(s, Take(t));
    forall j | 0 <= j < |s'.jobs| ensures JobOk(s', j) {
      assert JobOk(s, j);
      assert j in s.queue <==> j == s.queue[0] || j in s'.queue;
    }
  }

  lemma WrittenKeepsInv(s: State)
    requires Inv(s) && s.inHand.Some?
    ensures Inv(Step(s, DescriptorWritten))
  {
    var s' := Step(s, DescriptorWritten);
    forall j | 0 <= j < |s'.jobs| ensures JobOk(s', j) { assert JobOk(s, j); }
  }

  lemma FailedKeepsInv(s: State)
    requires Inv(s) && s.inHand.Some?
    ensures Inv(Step(s, DescriptorFailed))
  {
    var s' := Step(s, DescriptorFailed);
    forall j | 0 <= j < |s'.jobs| ensures JobOk(s', j) { assert JobOk(s, j); }
  }

  lemma CompleteKeepsInv(s: State, t: ThreadId, identifier: nat)
    requires Inv(s) && Enabled(s, Complete(t, identifier))
    ensures Inv(Step(s, Complete(t, identifier)))
  {
    var s' := Step(s, Complete(t, identifier));
    forall j | 0 <= j < |s'.jobs| ensures JobOk(s', j) { assert JobOk(s, j); }
  }

  lemma StopKeepsInv(s: State)
    requires Inv(s)
    ensures Inv(Step(s, Stop))
  {
    var s' := Step(s, Stop);
    forall j | 0 <= j < |s'.jobs| ensures JobOk(s', j) { assert JobOk(s, j); }
  }

  lemma ExitedKeepsInv(s: State, t: ThreadId)
    requires Inv(s) && Enabled(s, Exited(t))
    ensures Inv(Step(s, Exited(t)))
  {
    var s' := Step(s, Exited(t));
    forall j | 0 <= j < |s'.jobs| ensures JobOk(s', j) { assert JobOk(s, j); }
  }

  // ----- Runs ---------------------------------------------------------------------------

  ghost predicate IsRun(states: seq<State>, events: seq<Event>) {
    && |states| == |events| + 1
    && states[0] == INITIAL
    && forall i :: 0 <= i < |events| ==> Enabled(states[i], events[i]) && states[i + 1] == Step(states[i], events[i])
  }

  lemma {:induction false} RunKeepsInv(states: seq<State>, events: seq<Event>, i: nat)
    requires IsRun(states, events) && i < |states|
    ensures Inv(states[i])
  {
    if i > 0 {
      RunKeepsInv(states, events, i - 1);
      StepKeepsInv(states[i - 1], events[i - 1]);
    }
  }

  /** What may become of jobs and of the record of deliveries: jobs are added, never
      change their kind, and once answered do not change at all. */
  ghost predicate Grows(s: State, s': State) {
    && |s.jobs| <= |s'.jobs| && s.log <= s'.log
    && (forall j :: 0 <= j < |s.jobs| ==> s'.jobs[j].kind == s.jobs[j].kind)
    && (forall j :: 0 <= j < |s.jobs| && Answered(s.jobs[j]) ==> s'.jobs[j] == s.jobs[j])
  }

  lemma StepGrows(s: State, e: Event)
    requires Inv(s) && Enabled(s, e)
    ensures Grows(s, Step(s, e))
  {
    forall j | 0 <= j < |s.jobs| && Answered(s.jobs[j])
      ensures Step(s, e).jobs[j] == s.jobs[j]
    {
      assert JobOk(s, j);
    }
  }

  lemma GrowsOn(a: State, b: State, c: State)
    requires Grows(a, b) && Grows(b, c)
    ensures Grows(a, c)
  {
  }

  lemma {:induction false} RunGrows(states: seq<State>, events: seq<Event>, i: nat, k: nat)
    requires IsRun(states, events) && i <= k < |states|
    ensures Grows(states[i], states[k])
  {
    if i < k {
      hide Inv, Step, Grows;
      RunGrows(states, events, i, k - 1);
      RunKeepsInv(states, events, k - 1);
      StepGrows(states[k - 1], events[k - 1]);
      GrowsOn(states[i], states[k - 1], states[k]);
    }
  }

  /** Jobs are delivered in the order they were submitted, each at most once. */
  lemma DeliveryFollowsSubmission(states: seq<State>, events: seq<Event>, i: nat)
    requires IsRun(states, events) && i < |states|
    ensures forall a, b :: 0 <= a < b < |states[i].log| ==> states[i].log[a] < states[i].log[b]
    ensures forall j :: 0 <= j < |states[i].jobs| ==> (states[i].jobs[j].delivered <==> j in states[i].log)
    ensures states[i].queue != [] ==> states[i].phase == Ready
  {
    RunKeepsInv(states, events, i);
    forall j | 0 <= j < |states[i].jobs|
      ensures states[i].jobs[j].delivered <==> j in states[i].log
    {
      assert JobOk(states[i], j);
    }
  }

  /** Every submission gets exactly one answer, and none is left waiting: a job is
      unanswered only while it is queued for or held by the worker, so once the
      executor has stopped or failed and the worker holds nothing, all are answered. */
  lemma EveryJobIsAnswered(states: seq<State>, events: seq<Event>, i: nat, j: JobId)
    requires IsRun(states, events) && i < |states| && j < |states[i].jobs|
    ensures !(states[i].jobs[j].completed && states[i].jobs[j].canceled)
    ensures Answered(states[i].jobs[j]) <==> !Live(states[i], j)
    ensures states[i].phase != Ready && states[i].active.None? ==> Answered(states[i].jobs[j])
    ensures states[i].phase == Failed ==> Answered(states[i].jobs[j])
  {
    RunKeepsInv(states, events, i);
    assert JobOk(states[i], j);
  }

  /** An answer is final: a submitter told that its release was not consumed may
      release again, because the guest never received the job and never will. */
  lemma RefusedReleaseIsNeverDelivered(states: seq<State>, events: seq<Event>, i: nat, k: nat, j: JobId)
    requires IsRun(states, events) && i <= k < |states| && j < |states[i].jobs|
    requires Answered(states[i].jobs[j]) && !Answer(states[i].jobs[j]) && states[i].jobs[j].kind == Release
    ensures j !in states[k].log
  {
    RunGrows(states, events, i, k);
    RunKeepsInv(states, events, k);
    assert JobOk(states[k], j);
  }

  /** The worker acknowledges the job it holds. */
  ghost predicate Acknowledges(s: State, e: Event, j: JobId) {
    && e.Complete? && e.t == s.thread && s.active == Some(j) && j < |s.jobs|
    && e.identifier == s.jobs[j].identifier
  }

  lemma StepCompletes(s: State, e: Event, j: JobId)
    requires Inv(s) && Enabled(s, e) && j < |Step(s, e).jobs|
    ensures Step(s, e).jobs[j].completed <==> (j < |s.jobs| && s.jobs[j].completed) || Acknowledges(s, e, j)
  {
    hide JobOk, LogOk, NextAfter;
  }

  /** A job is completed by the worker's acknowledgement and by nothing else. */
  lemma {:induction false} CompletedIff(states: seq<State>, events: seq<Event>, i: nat, j: JobId)
    requires IsRun(states, events) && i < |states| && j < |states[i].jobs|
    ensures states[i].jobs[j].completed <==> exists k :: 0 <= k < i && Acknowledges(states[k], events[k], j)
  {
    hide Inv, Step, Acknowledges;
    if i > 0 {
      RunKeepsInv(states, events, i - 1);
      StepCompletes(states[i - 1], events[i - 1], j);
      if j < |states[i - 1].jobs| { CompletedIff(states, events, i - 1, j); } else { NotYet(states, events, i - 1, j); }
    }
  }

  lemma NotYet(states: seq<State>, events: seq<Event>, i: nat, j: JobId)
    requires IsRun(states, events) && i < |states| && |states[i].jobs| <= j
    ensures forall k :: 0 <= k < i ==> !Acknowledges(states[k], events[k], j)
  {
    hide Step, Enabled, Grows;
    forall k | 0 <= k < i ensures !Acknowledges(states[k], events[k], j) {
      RunGrows(states, events, k, i);
      FewerBefore(states[k], states[i]);
    }
  }

  lemma FewerBefore(s: State, s': State)
    requires Grows(s, s')
    ensures |s.jobs| <= |s'.jobs|
  {
  }

  /** A submitter is told yes exactly if the worker acknowledged its job, or the job was a release
      and the guest received it. */
  lemma SubmitterIsTold(states: seq<State>, events: seq<Event>, i: nat, j: JobId)
    requires IsRun(states, events) && i < |states| && j < |states[i].jobs|
    ensures Answer(states[i].jobs[j]) <==>
            || (exists k :: 0 <= k < i && Acknowledges(states[k], events[k], j))
            || (states[i].jobs[j].kind == Release && j in states[i].log)
  {
    hide Inv, Step, Acknowledges;
    CompletedIff(states, events, i, j);
    DeliveryFollowsSubmission(states, events, i);
  }

  /** The worker's right acknowledgement completes its job and frees it; any other changes nothing. */
  lemma AcknowledgementCounts(s: State, t: ThreadId, identifier: nat)
    requires Inv(s)
    ensures var s', right := Step(s, Complete(t, identifier)), t == s.thread && s.active.Some?
              && s.active.value < |s.jobs| && s.jobs[s.active.value].identifier == identifier;
            if right then
              && s'.active.None? && s'.queue == s.queue && s'.phase == s.phase && s'.thread == s.thread
              && |s'.jobs| == |s.jobs|
              && forall j :: 0 <= j < |s.jobs| ==>
                   if j == s.active.value then Answer(s'.jobs[j]) && s'.jobs[j].completed else s'.jobs[j] == s.jobs[j]
            else s' == s
  {
  }

  /** How the executor comes and goes. */
  lemma LifeCycle(s: State, e: Event)
    ensures var s' := Step(s, e);
            match s.phase
            case Unavailable => s'.phase == if e.Supported? then Starting
                                            else if e.Exited? && e.t == s.thread then Failed else Unavailable
            case Starting => s'.phase == if e.CreationResult? && e.error != 0 then Failed
                                         else if e.WaitBegin? then Ready
                                         else if e.Stop? then Stopping
                                         else if e.Exited? && e.t == s.thread then Failed else Starting
            case Ready => s'.phase == if e.Stop? then Stopping
                                      else if e.Exited? && e.t == s.thread then Failed else Ready
            case Failed => s'.phase == if e.Stop? then Stopping else Failed
            case Stopping => s'.phase == Stopping
    ensures Step(s, e).thread == if e.WaitBegin? && s.phase == Starting then e.t
                                 else if e.Exited? && e.t == s.thread then 0 else s.thread
  {
  }

  /** Stopping answers what is queued and lets the worker finish; its exit answers that, too. */
  lemma StopAndExitAnswer(s: State, j: JobId)
    requires Inv(s) && j < |s.jobs|
    ensures var stopped := Step(s, Stop);
            s.phase != Unavailable ==>
              && stopped.queue == [] && stopped.active == s.active
              && stopped.jobs[j] == if j in s.queue then s.jobs[j].(canceled := true) else s.jobs[j]
    ensures var gone := Step(s, Exited(s.thread));
            && gone.queue == [] && gone.active.None?
            && gone.jobs[j] == if Live(s, j) then s.jobs[j].(canceled := true) else s.jobs[j]
  {
    assert JobOk(s, j);
  }

  /** Identifiers of live jobs are nonzero 32-bit values, and distinct as long as
      no more jobs are live than there are identifiers. */
  lemma LiveIdentifiersAreDistinct(s: State, a: JobId, b: JobId)
    requires Inv(s) && a < b < |s.jobs| && Live(s, a) && Live(s, b)
    requires |s.queue| < IDENTIFIERS
    ensures 0 < s.jobs[a].identifier < WORD
    ensures s.jobs[a].identifier != s.jobs[b].identifier
  {
    assert JobOk(s, a) && JobOk(s, b);
    assert s.queue == [] ==> s.active == Some(a) && s.active == Some(b);
    assert |s.jobs| - |s.queue| - 1 <= a;
    SameRemainder(a, b);
  }

  lemma SameRemainder(a: nat, b: nat)
    requires a < b < a + IDENTIFIERS
    ensures a % IDENTIFIERS != b % IDENTIFIERS
  {
    var q := b / IDENTIFIERS;
    assert b == IDENTIFIERS * q + b % IDENTIFIERS;
  }

  /** The bound is the exact one: one more live job repeats an identifier. */
  lemma IdentifiersRepeat(s: State, a: JobId)
    requires Inv(s) && a + IDENTIFIERS < |s.jobs|
    ensures s.jobs[a].identifier == s.jobs[a + IDENTIFIERS].identifier
  {
    hide Inv;
    IdentifierOf(s, a);
    IdentifierOf(s, a + IDENTIFIERS);
    RemainderRepeats(a);
  }

  lemma RemainderRepeats(a: nat)
    ensures (a + IDENTIFIERS) % IDENTIFIERS == a % IDENTIFIERS
  {
  }

  /** How many submitters wait for an answer. */
  function LiveCount(s: State): nat {
    |s.queue| + if s.active.Some? then 1 else 0
  }

  /** Two jobs live at once have one identifier, so that an acknowledgement does not say
      which is meant. */
  ghost predicate LiveClash(s: State) {
    exists a, b :: 0 <= a < b < |s.jobs| && Live(s, a) && Live(s, b) && s.jobs[a].identifier == s.jobs[b].identifier
  }

  /** While jobs are queued, the live ones are the last submissions. */
  lemma LiveAreLast(s: State, j: JobId)
    requires Inv(s) && j < |s.jobs| && s.queue != []
    ensures Live(s, j) <==> j >= |s.jobs| - LiveCount(s)
  {
    if |s.jobs| - |s.queue| <= j { assert s.queue[j - (|s.jobs| - |s.queue|)] == j; }
  }

  /** Live jobs clash if and only if more are live than there are identifiers. */
  lemma LiveClashIff(s: State)
    requires Inv(s)
    ensures LiveClash(s) <==> LiveCount(s) > IDENTIFIERS
  {
    hide Inv, LiveCount;
    LiveCounts(s);
    if LiveCount(s) > IDENTIFIERS {
      var a := |s.jobs| - LiveCount(s);
      LiveAreLast(s, a);
      LiveAreLast(s, a + IDENTIFIERS);
      IdentifiersRepeat(s, a);
    }
    if LiveClash(s) {
      var a, b :| 0 <= a < b < |s.jobs| && Live(s, a) && Live(s, b) && s.jobs[a].identifier == s.jobs[b].identifier;
      IdentifierOf(s, a);
      IdentifierOf(s, b);
      if b < a + IDENTIFIERS { SameRemainder(a, b); }
      LiveAreLast(s, a);
    }
  }

  lemma LiveCounts(s: State)
    requires Inv(s)
    ensures LiveCount(s) <= |s.jobs| && (s.queue == [] ==> LiveCount(s) <= 1)
  {
  }

  lemma IdentifierOf(s: State, j: JobId)
    requires Inv(s) && j < |s.jobs|
    ensures s.jobs[j].identifier == j % IDENTIFIERS + 1
  {
    assert JobOk(s, j);
  }

  lemma HeldIsKnown(s: State)
    requires Inv(s) && s.inHand.Some?
    ensures Known(s, s.inHand.value) && s.active == s.inHand && (s.phase == Ready || s.phase == Stopping)
  {
  }

  // ----- What the guarantees rest on ----------------------------------------------------

  /** Asking for a second job before acknowledging the first overwrites the active
      job.  The first submitter then waits for an answer nothing will give. */
  lemma TakingTwiceStrandsTheActiveJob(s: State, j: JobId)
    requires Inv(s) && s.queue != [] && j < |s.jobs| && Live(s, j)
    ensures var s' := Step(s, Take(s.thread)); !Live(s', j) && !Answered(s'.jobs[j]) <==> s.active == Some(j)
  {
    assert JobOk(s, j);
    assert j in s.queue <==> j == s.queue[0] || j in s.queue[1..];
  }

  function Reset(s: State): State {
    CancelQueue(CancelActive(s)).(phase := Unavailable, thread := 0, next := 1)
  }

  /** A reset answers every waiting submitter.  The answers stay right if and only
      if the worker is not, at that moment, copying out the descriptor of a release:
      that one is refused and delivered all the same. */
  lemma ResetAnswersStand(s: State, j: JobId)
    requires Inv(s) && j < |s.jobs|
    ensures Answered(Reset(s).jobs[j])
    ensures (Answer(Reset(s).jobs[j]) != Answer(Step(Reset(s), DescriptorWritten).jobs[j]))
            <==> (s.inHand == Some(j) && s.jobs[j].kind == Release)
  {
    assert JobOk(s, j);
  }

  // ----- The executor -----------------------------------------------------------------------

  class Executor {
    var phase: Phase
    var queue: seq<JobId>
    var active: Option<JobId>
    var thread: ThreadId
    var next: nat
    var quitting: bool
    var jobs: seq<Job>
    /** The job the worker is copying out while the mutex is free. */
    var inHand: Option<JobId>
    ghost var log: seq<JobId>

    ghost function Now(): State
      reads this
    {
      State(phase, queue, active, inHand, thread, next, quitting, jobs, log)
    }

    constructor ()
      ensures Now() == INITIAL && Inv(Now())
    {
      phase, queue, active, thread, next, quitting := Unavailable, [], None, 0, 1, false;
      jobs, inHand, log := [], None, [];
    }

    method CancelQueued()
      modifies `jobs, `queue
      requires forall i :: 0 <= i < |queue| ==> queue[i] < |jobs|
      ensures Now() == CancelQueue(old(Now()))
    {
      var i := 0;
      while i < |queue|
        invariant 0 <= i <= |queue| && |jobs| == old(|jobs|) && queue == old(queue)
        invariant forall k :: 0 <= k < |jobs| ==>
                    jobs[k] == if k in queue[..i] then old(jobs)[k].(canceled := true) else old(jobs)[k]
      {
        assert queue[..i + 1] == queue[..i] + [queue[i]];
        jobs := jobs[queue[i] := jobs[queue[i]].(canceled := true)];
        i := i + 1;
      }
      assert queue[..i] == queue;
      assert jobs == Cancel(old(jobs), queue);
      queue := [];
    }

    method CancelHeld()
      modifies `jobs, `active
      requires active.Some? ==> active.value < |jobs|
      ensures Now() == CancelActive(old(Now()))
    {
      if active.Some? { jobs := jobs[active.value := jobs[active.value].(canceled := true)]; }
      active := None;
    }

    method ResetExecutor()
      requires Inv(Now())
      modifies this
      ensures Now() == Reset(old(Now()))
      ensures phase == Unavailable && thread == 0 && next == 1 && queue == [] && active.None?
    {
      CancelQueued();
      CancelHeld();
      phase, thread, next := Unavailable, 0, 1;
    }

    method Announce() returns (supported: bool)
      requires Inv(Now())
      modifies `phase
      ensures Now() == Step(old(Now()), Supported) && Inv(Now())
      ensures supported <==> old(phase) == Unavailable
    {
      StepKeepsInv(Now(), Supported);
      if phase != Unavailable { return false; }
      phase := Starting;
      return true;
    }

    method NoteCreation(error: nat) returns (started: bool)
      requires Inv(Now())
      modifies `phase
      ensures Now() == Step(old(Now()), CreationResult(error)) && Inv(Now())
      ensures started <==> old(phase) == Starting && error == 0
    {
      StepKeepsInv(Now(), CreationResult(error));
      if phase != Starting { return false; }
      if error != 0 { phase := Failed; }
      return error == 0;
    }

    method StopExecutor()
      requires Inv(Now())
      modifies this
      ensures Now() == Step(old(Now()), Stop) && Inv(Now())
    {
      StepKeepsInv(Now(), Stop);
      if phase == Unavailable { return; }
      phase := Stopping;
      CancelQueued();
    }

    method ThreadExited(t: ThreadId)
      requires Inv(Now()) && Enabled(Now(), Exited(t))
      modifies this
      ensures Now() == Step(old(Now()), Exited(t)) && Inv(Now())
    {
      hide JobOk, LogOk, Cancel;
      StepKeepsInv(Now(), Exited(t));
      if t != thread { return; }
      var expected := phase == Stopping;
      thread := 0;
      CancelHeld();
      CancelQueued();
      phase := if expected then Stopping else Failed;
    }

    /** The part of a submission before the wait for its answer. */
    method Enqueue(kind: Kind) returns (job: Option<JobId>)
      requires Inv(Now())
      modifies this
      ensures Now() == Step(old(Now()), Submit(kind)) && Inv(Now())
      ensures job == if old(phase) == Ready && !old(quitting) then Some(old(|jobs|)) else None
    {
      StepKeepsInv(Now(), Submit(kind));
      if phase != Ready || quitting { return None; }
      var identifier := next;
      next := (next + 1) % WORD;
      if identifier == 0 {
        identifier := next;
        next := (next + 1) % WORD;
      }
      job := Some(|jobs|);
      queue := queue + [|jobs|];
      jobs := jobs + [Job(kind, identifier, false, false, false)];
    }

    /** The worker's arrival: false is the instruction to stop. */
    method Arrive(t: ThreadId) returns (waiting: bool)
      requires Inv(Now()) && Enabled(Now(), WaitBegin(t))
      modifies `phase, `thread
      ensures Now() == Step(old(Now()), WaitBegin(t)) && Inv(Now())
      ensures waiting <==> phase == Ready && thread == t
    {
      StepKeepsInv(Now(), WaitBegin(t));
      if phase == Starting {
        thread := t;
        phase := Ready;
      }
      return phase == Ready && thread == t;
    }

    /** Whatever the other threads do while the worker `t` has let the mutex go. */
    method Others(t: ThreadId)
      requires Inv(Now()) && t > 0
      modifies this
      ensures Inv(Now()) && inHand == old(inHand) && log == old(log)
      ensures inHand.Some? ==> active == old(active)
      ensures inHand.Some? && old(thread) == t ==> thread == t
    {
      hide Inv, Cancel, TakeIdentifier;
      var rounds: nat := *;
      while rounds > 0
        invariant Inv(Now()) && inHand == old(inHand) && log == old(log)
        invariant inHand.Some? ==> active == old(active)
        invariant inHand.Some? && old(thread) == t ==> thread == t
      {
        if inHand.Some? { HeldIsKnown(Now()); }
        var x: nat := *;
        if {
        case true => var _ := Announce();
        case true => var _ := NoteCreation(x);
        case true => StopExecutor();
        case true => StepKeepsInv(Now(), Quit); quitting := true;
        case true => var kind := *; var _ := Enqueue(kind);
        case x > 1 && x != t && x != thread => var _ := Arrive(x);
        case x > 0 && x != t && x != thread => ThreadExited(x);
        case x > 0 && x != t && x != thread => var _ := Acknowledge(x, x);
        }
        rounds := rounds - 1;
      }
    }

    method TakeOldest(t: ThreadId) returns (taken: JobId)
      requires Inv(Now()) && Enabled(Now(), Take(t))
      modifies `queue, `active, `inHand
      ensures Now() == Step(old(Now()), Take(t)) && Inv(Now())
      ensures taken == old(queue[0])
    {
      StepKeepsInv(Now(), Take(t));
      taken := queue[0];
      queue, active, inHand := queue[1..], Some(taken), Some(taken);
    }

    method FinishDelivery(taken: JobId, written: bool)
      requires Inv(Now()) && inHand == Some(taken)
      modifies `jobs, `active, `inHand, `log
      ensures Now() == Step(old(Now()), if written then DescriptorWritten else DescriptorFailed) && Inv(Now())
    {
      StepKeepsInv(Now(), if written then DescriptorWritten else DescriptorFailed);
      if written {
        jobs := jobs[taken := jobs[taken].(delivered := true)];
        log := log + [taken];
      } else {
        jobs := jobs[taken := jobs[taken].(canceled := true)];
        active := None;
      }
      inHand := None;
    }

    /** Takes the oldest job and copies its descriptor to the guest with the mutex
        free.  On success that job, and nothing else, has been delivered. */
    method Deliver(t: ThreadId) returns (job: Option<JobId>)
      requires Inv(Now()) && Enabled(Now(), Take(t)) && t > 0
      modifies this
      ensures Inv(Now()) && inHand.None? && old(|queue|) > 0
      ensures job.Some? ==> job == old(Some(queue[0])) && active == job && log == old(log) + [job.value]
      ensures job.None? ==> active.None? && log == old(log)
    {
      hide Inv;
      var taken := TakeOldest(t);
      Others(t);
      assert taken < |jobs| by { HeldIsKnown(Now()); }
      var written := *;
      FinishDelivery(taken, written);
      return if written then Some(taken) else None;
    }

    method Acknowledge(t: ThreadId, identifier: nat) returns (again: bool)
      requires Inv(Now()) && Enabled(Now(), Complete(t, identifier))
      modifies `jobs, `active
      ensures Now() == Step(old(Now()), Complete(t, identifier)) && Inv(Now())
      ensures var right := t == old(thread) && old(active).Some? && old(active).value < |jobs|
                && old(jobs)[old(active).value].identifier == identifier;
              && (right ==> active.None? && jobs[old(active).value].completed)
              && (!right ==> Now() == old(Now()))
              && (again <==> right && phase == Ready && !quitting)
    {
      StepKeepsInv(Now(), Complete(t, identifier));
      if t != thread || active.None? || jobs[active.value].identifier != identifier { return false; }
      jobs := jobs[active.value := jobs[active.value].(completed := true)];
      active := None;
      return phase == Ready && !quitting;
    }
  }
}
