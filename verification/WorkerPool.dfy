/** The worker pool of the global scan: main pushes a round of jobs on one blocking queue, N workers
    execute them and push them on a second one, and main returns when it has popped as many as it
    pushed. At the end main pushes one Quit a worker and joins them.

    A step is one critical section of a queue, one notification after it, or one job. `pop` on an
    empty queue puts its thread to sleep in the step that found it empty; `push` notifies in a step
    of its own, after it has released the mutex. A sleeper may also wake for no reason. */
module WorkerPool {
  datatype Job = Walk(range: nat) | Migrate(range: nat) | Quit

  /** `Ready` is about to take the mutex of the work queue, freshly or after a wake-up; `Owes` has
      pushed on the done queue and not yet notified. */
  datatype WorkerPc = Ready | Asleep | Running(job: Job) | Executed(job: Job) | Owes | Exited

  datatype MainPc =
    | Between
    | Pushing(nr: nat)
    | Pushed(nr: nat)
    | Popping(nr: nat)
    | Blocked(nr: nat)
    | Stopping(k: nat)
    | QuitPushed(k: nat)
    | Joining(k: nat)
    | Finished

  /** `todo` holds the rounds to come; within a round its first element is the one under way.
      `popped` holds the jobs main has taken from the done queue in this round. */
  datatype State = State(
    todo: seq<seq<Job>>,
    main: MainPc,
    work: seq<Job>,
    done: seq<Job>,
    workers: seq<WorkerPc>,
    popped: seq<Job>)

  datatype Step =
    | Begin
    | Push
    | Notify(w: nat)
    | Pop
    | Return
    | PushQuit
    | Join
    | Take(w: nat)
    | Execute(w: nat)
    | Report(w: nat)
    | NotifyMain(w: nat)
    | WakeWorker(w: nat)
    | WakeMain

  predicate Spurious(step: Step) {
    step.WakeWorker? || step.WakeMain?
  }

  predicate Init(s: State) {
    && s.main == Between && s.work == [] && s.done == [] && |s.workers| > 0
    && (forall w :: 0 <= w < |s.workers| ==> s.workers[w] == Ready)
    && (forall i :: 0 <= i < |s.todo| ==> Quit !in s.todo[i])
  }

  predicate InRound(main: MainPc) {
    main.Pushing? || main.Pushed? || main.Popping? || main.Blocked?
  }

  predicate Notifies(main: MainPc) {
    main.Pushed? || main.QuitPushed?
  }

  predicate Enabled(s: State, step: Step) {
    && (InRound(s.main) ==> s.todo != [])
    && match step
       case Begin => s.main.Between?
       case Push => s.main.Pushing? && s.main.nr < |s.todo[0]|
       case Notify(w) =>
         // The condition variable picks one of the sleepers, if there are any.
         && Notifies(s.main) && w < |s.workers|
         && (s.workers[w] == Asleep || Asleep !in s.workers)
       case Pop => s.main.Popping? && s.main.nr > 0
       case Return => s.main == Popping(0)
       case PushQuit => s.main.Stopping?
       case Join => s.main.Joining? && s.main.k < |s.workers| && s.workers[s.main.k] == Exited
       case Take(w) => w < |s.workers| && s.workers[w] == Ready
       case Execute(w) => w < |s.workers| && s.workers[w].Running?
       case Report(w) => w < |s.workers| && s.workers[w].Executed?
       case NotifyMain(w) => w < |s.workers| && s.workers[w] == Owes
       case WakeWorker(w) => w < |s.workers| && s.workers[w] == Asleep
       case WakeMain => s.main.Blocked?
  }

  /** The loop heads of main's three loops. */
  function PushLoop(nr: nat, size: nat): MainPc {
    if nr < size then Pushing(nr) else Popping(nr)
  }

  function StopLoop(k: nat, size: nat): MainPc {
    if k < size then Stopping(k) else Joining(0)
  }

  function JoinLoop(k: nat, size: nat): MainPc {
    if k < size then Joining(k) else Finished
  }

  function Woken(pc: WorkerPc): WorkerPc {
    if pc == Asleep then Ready else pc
  }

  function WokenMain(main: MainPc): MainPc {
    if main.Blocked? then Popping(main.nr) else main
  }

  /** A worker's `pop` on the work queue: the front of the queue, or sleep. */
  function TakeStep(s: State, w: nat): State
    requires w < |s.workers|
  {
    if s.work == [] then s.(workers := s.workers[w := Asleep])
    else s.(work := s.work[1..],
            workers := s.workers[w := if s.work[0] == Quit then Exited else Running(s.work[0])])
  }

  /** Main's `pop` on the done queue. */
  function PopStep(s: State): State
    requires s.main.Popping? && s.main.nr > 0
  {
    if s.done == [] then s.(main := Blocked(s.main.nr))
    else s.(main := Popping(s.main.nr - 1), done := s.done[1..], popped := s.popped + [s.done[0]])
  }

  function NotifyStep(s: State, w: nat): State
    requires InRound(s.main) ==> s.todo != []
    requires Notifies(s.main) && w < |s.workers|
  {
    s.(workers := s.workers[w := Woken(s.workers[w])],
       main := if s.main.Pushed? then PushLoop(s.main.nr, |s.todo[0]|)
               else StopLoop(s.main.k, |s.workers|))
  }

  function Apply(s: State, step: Step): State
    requires Enabled(s, step)
  {
    match step
    case Begin =>
      s.(main := if s.todo == [] then StopLoop(0, |s.workers|) else PushLoop(0, |s.todo[0]|),
         popped := [])
    case Push => s.(work := s.work + [s.todo[0][s.main.nr]], main := Pushed(s.main.nr + 1))
    case Notify(w) => NotifyStep(s, w)
    case Pop => PopStep(s)
    case Return => s.(main := Between, todo := s.todo[1..])
    case PushQuit => s.(work := s.work + [Quit], main := QuitPushed(s.main.k + 1))
    case Join => s.(main := JoinLoop(s.main.k + 1, |s.workers|))
    case Take(w) => TakeStep(s, w)
    case Execute(w) => s.(workers := s.workers[w := Executed(s.workers[w].job)])
    case Report(w) => s.(done := s.done + [s.workers[w].job], workers := s.workers[w := Owes])
    case NotifyMain(w) => s.(workers := s.workers[w := Ready], main := WokenMain(s.main))
    case WakeWorker(w) => s.(workers := s.workers[w := Ready])
    case WakeMain => s.(main := WokenMain(s.main))
  }

  ghost predicate IsRun(s: State, steps: seq<Step>)
    decreases |steps|
  {
    steps == [] || (Enabled(s, steps[0]) && IsRun(Apply(s, steps[0]), steps[1..]))
  }

  ghost function After(s: State, steps: seq<Step>): State
    requires IsRun(s, steps)
    decreases |steps|
  {
    if steps == [] then s else After(Apply(s, steps[0]), steps[1..])
  }

  // ----- Counting jobs and workers -----

  function One(b: bool): nat {
    if b then 1 else 0
  }

  function Occ(q: seq<Job>, j: Job): (n: nat)
    ensures n <= |q|
  {
    if q == [] then 0 else One(q[0] == j) + Occ(q[1..], j)
  }

  lemma {:induction false} OccAppend(q: seq<Job>, x: Job, j: Job)
    ensures Occ(q + [x], j) == Occ(q, j) + One(x == j)
  {
    if q == [] {
      assert ([] + [x])[1..] == [];
    } else {
      OccAppend(q[1..], x, j);
      assert (q + [x])[1..] == q[1..] + [x];
    }
  }

  lemma {:induction false} OccIsMultiplicity(q: seq<Job>, j: Job)
    ensures Occ(q, j) == multiset(q)[j]
  {
    if q != [] {
      OccIsMultiplicity(q[1..], j);
      assert q == [q[0]] + q[1..];
    }
  }

  /** What to count among the workers. */
  datatype Kind = AtReady | AtAsleep | AtOwes | AtExited | InFlight | Holding(j: Job) | Unexecuted(j: Job) | Toil

  function Score(pc: WorkerPc, kind: Kind): nat {
    match kind
    case AtReady => One(pc.Ready?)
    case AtAsleep => One(pc.Asleep?)
    case AtOwes => One(pc.Owes?)
    case AtExited => One(pc.Exited?)
    case InFlight => One(pc.Running? || pc.Executed?)
    case Holding(j) => One((pc.Running? || pc.Executed?) && pc.job == j)
    case Unexecuted(j) => One(pc.Running? && pc.job == j)
    case Toil =>
      // Steps the worker may still take, and wake-ups it may still cause, before it sleeps.
      (match pc
       case Ready => 1
       case Running(_) => 5
       case Executed(_) => 4
       case Owes => 3
       case _ => 0)
  }

  function Tally(ws: seq<WorkerPc>, kind: Kind): nat {
    if ws == [] then 0 else Score(ws[0], kind) + Tally(ws[1..], kind)
  }

  lemma {:induction false} TallySet(ws: seq<WorkerPc>, w: nat, pc: WorkerPc, kind: Kind)
    requires w < |ws|
    ensures Tally(ws[w := pc], kind) + Score(ws[w], kind) == Tally(ws, kind) + Score(pc, kind)
  {
    if w == 0 {
      assert ws[w := pc][1..] == ws[1..];
    } else {
      TallySet(ws[1..], w - 1, pc, kind);
      assert ws[w := pc][1..] == ws[1..][w - 1 := pc];
    }
  }

  lemma {:induction false} TallyHas(ws: seq<WorkerPc>, w: nat, kind: Kind)
    requires w < |ws|
    ensures Score(ws[w], kind) <= Tally(ws, kind)
  {
    if w > 0 {
      TallyHas(ws[1..], w - 1, kind);
    }
  }

  lemma {:induction false} TallyWitness(ws: seq<WorkerPc>, kind: Kind) returns (w: nat)
    requires Tally(ws, kind) > 0
    ensures w < |ws| && Score(ws[w], kind) > 0
  {
    if Score(ws[0], kind) > 0 {
      w := 0;
    } else {
      w := TallyWitness(ws[1..], kind);
      w := w + 1;
    }
  }

  lemma {:induction false} HeldIsInFlight(ws: seq<WorkerPc>, j: Job)
    ensures Tally(ws, Holding(j)) <= Tally(ws, InFlight)
  {
    if ws != [] {
      HeldIsInFlight(ws[1..], j);
    }
  }

  // ----- The invariant -----

  predicate Sending(main: MainPc) {
    main.Pushing? || main.Pushed?
  }

  predicate Collecting(main: MainPc) {
    main.Popping? || main.Blocked?
  }

  predicate Ending(main: MainPc) {
    main.Stopping? || main.QuitPushed? || main.Joining? || main.Finished?
  }

  /** The jobs of the round that main has pushed. */
  function Sent(s: State): seq<Job>
    requires InRound(s.main) && s.todo != []
  {
    if Sending(s.main) && s.main.nr <= |s.todo[0]| then s.todo[0][..s.main.nr] else s.todo[0]
  }

  /** The sizes the invariant is about. */
  datatype Counts = Counts(queued: int, quits: int, reported: int, ready: int, asleep: int, owes: int,
                           exited: int, inFlight: int)

  function CountsOf(s: State): Counts {
    Counts(|s.work|, Occ(s.work, Quit), |s.done|, Tally(s.workers, AtReady), Tally(s.workers, AtAsleep),
           Tally(s.workers, AtOwes), Tally(s.workers, AtExited), Tally(s.workers, InFlight))
  }

  /** Jobs and Quits in circulation. */
  function Load(c: Counts): int {
    c.queued + c.inFlight + c.reported
  }

  /** Where main can be. */
  predicate MainInv(s: State) {
    && (InRound(s.main) ==> s.todo != [])
    && (Ending(s.main) ==> s.todo == [])
    && (s.main.Pushing? ==> s.main.nr < |s.todo[0]|)
    && (s.main.Pushed? ==> s.main.nr <= |s.todo[0]|)
    && (s.main.Blocked? ==> s.main.nr > 0)
    && (s.main.Stopping? ==> s.main.k < |s.workers|)
    && (s.main.QuitPushed? ==> s.main.k <= |s.workers|)
    && (s.main.Joining? ==> s.main.k < |s.workers|)
  }

  function QuitsPushed(main: MainPc, n: nat): nat {
    if main.Stopping? || main.QuitPushed? then main.k else n
  }

  /** What circulates: in a round, what main has still to collect; between rounds nothing; at the
      end, one Quit for each pushed and not yet taken, and nothing else. */
  predicate LoadInv(main: MainPc, n: nat, c: Counts) {
    if Ending(main) then Load(c) == c.queued == c.quits && c.quits + c.exited == QuitsPushed(main, n)
    else c.quits == 0 && c.exited == 0 && Load(c) == (if InRound(main) then main.nr else 0)
  }

  /** No wake-up is lost: while a worker sleeps there are no more jobs queued than workers about to
      look and notifications to come; while main sleeps every job reported has one to come. */
  predicate WakeInv(main: MainPc, c: Counts) {
    && (c.asleep > 0 ==> c.queued <= c.ready + One(Notifies(main)))
    && (main.Blocked? ==> c.reported <= c.owes)
  }

  predicate CountInv(main: MainPc, n: nat, c: Counts) {
    LoadInv(main, n, c) && WakeInv(main, c)
  }

  /** Every occurrence of job `j` pushed in the round is in exactly one place. */
  predicate Ledger(s: State, j: Job)
    requires MainInv(s)
  {
    InRound(s.main) ==>
      Occ(Sent(s), j) == Occ(s.work, j) + Tally(s.workers, Holding(j)) + Occ(s.done, j) + Occ(s.popped, j)
  }

  predicate JoinInv(s: State) {
    && (s.main.Finished? ==> forall w :: 0 <= w < |s.workers| ==> s.workers[w] == Exited)
    && (s.main.Joining? ==> forall w :: 0 <= w < s.main.k && w < |s.workers| ==> s.workers[w] == Exited)
  }

  predicate Inv(s: State) {
    && |s.workers| > 0
    && (forall i :: 0 <= i < |s.todo| ==> Quit !in s.todo[i])
    && MainInv(s) && JoinInv(s)
    && CountInv(s.main, |s.workers|, CountsOf(s))
  }

  lemma {:induction false} AllReady(ws: seq<WorkerPc>, kind: Kind)
    requires forall w :: 0 <= w < |ws| ==> ws[w] == Ready
    requires Score(Ready, kind) == 0
    ensures Tally(ws, kind) == 0
  {
    if ws != [] {
      AllReady(ws[1..], kind);
    }
  }

  lemma InitInv(s: State)
    requires Init(s)
    ensures Inv(s)
  {
    AllReady(s.workers, InFlight);
    AllReady(s.workers, AtExited);
    AllReady(s.workers, AtAsleep);
  }

  predicate ByWorker(step: Step) {
    step.Take? || step.Execute? || step.Report? || step.NotifyMain? || step.WakeWorker? || step.Notify?
  }

  /** The counts when one worker goes from `was` to `pc`. */
  function Moved(c: Counts, was: WorkerPc, pc: WorkerPc): Counts {
    c.(ready := c.ready + Score(pc, AtReady) - Score(was, AtReady),
       asleep := c.asleep + Score(pc, AtAsleep) - Score(was, AtAsleep),
       owes := c.owes + Score(pc, AtOwes) - Score(was, AtOwes),
       exited := c.exited + Score(pc, AtExited) - Score(was, AtExited),
       inFlight := c.inFlight + Score(pc, InFlight) - Score(was, InFlight))
  }

  lemma CountsSet(s: State, w: nat, pc: WorkerPc)
    requires w < |s.workers|
    ensures CountsOf(s.(workers := s.workers[w := pc])) == Moved(CountsOf(s), s.workers[w], pc)
  {
    TallySet(s.workers, w, pc, AtReady);
    TallySet(s.workers, w, pc, AtAsleep);
    TallySet(s.workers, w, pc, AtOwes);
    TallySet(s.workers, w, pc, AtExited);
    TallySet(s.workers, w, pc, InFlight);
  }

  lemma TakeKeepsInv(s: State, w: nat)
    requires Inv(s) && w < |s.workers| && s.workers[w] == Ready
    ensures Inv(TakeStep(s, w))
  {
    CountsSet(s, w, TakeStep(s, w).workers[w]);
  }

  lemma NotifyKeepsInv(s: State, w: nat)
    requires Inv(s) && Enabled(s, Notify(w))
    ensures Inv(NotifyStep(s, w))
  {
    CountsSet(s, w, Woken(s.workers[w]));
    if Tally(s.workers, AtAsleep) > 0 {
      var v := TallyWitness(s.workers, AtAsleep);
    }
  }

  lemma WakeKeepsInv(s: State, step: Step)
    requires Inv(s) && Enabled(s, step) && (step.NotifyMain? || step.WakeWorker?)
    ensures Inv(Apply(s, step))
  {
    CountsSet(s, step.w, Ready);
  }

  lemma JobKeepsInv(s: State, step: Step)
    requires Inv(s) && Enabled(s, step) && (step.Execute? || step.Report?)
    ensures Inv(Apply(s, step))
  {
    CountsSet(s, step.w, Apply(s, step).workers[step.w]);
    TallyHas(s.workers, step.w, InFlight);
  }

  lemma MainKeepsInv(s: State, step: Step)
    requires Inv(s) && Enabled(s, step) && !ByWorker(step) && !step.Push?
    ensures Inv(Apply(s, step))
  {
    if step.PushQuit? {
      OccAppend(s.work, Quit, Quit);
    }
  }

  lemma PushKeepsInv(s: State)
    requires Inv(s) && Enabled(s, Push)
    ensures Inv(Apply(s, Push))
  {
    assert s.todo[0][s.main.nr] in s.todo[0];
    OccAppend(s.work, s.todo[0][s.main.nr], Quit);
  }

  lemma StepKeepsInv(s: State, step: Step)
    requires Inv(s) && Enabled(s, step)
    ensures Inv(Apply(s, step))
  {
    match step
    case Take(w) => TakeKeepsInv(s, w);
    case Notify(w) => NotifyKeepsInv(s, w);
    case NotifyMain(_) => WakeKeepsInv(s, step);
    case WakeWorker(_) => WakeKeepsInv(s, step);
    case Execute(_) => JobKeepsInv(s, step);
    case Report(_) => JobKeepsInv(s, step);
    case Push => PushKeepsInv(s);
    case _ => MainKeepsInv(s, step);
  }

  lemma WorkerKeepsLedger(s: State, step: Step, j: Job)
    requires MainInv(s) && Enabled(s, step) && MainInv(Apply(s, step)) && Ledger(s, j)
    requires step.Execute? || step.NotifyMain? || step.WakeWorker?
    ensures Ledger(Apply(s, step), j)
  {
    TallySet(s.workers, step.w, Apply(s, step).workers[step.w], Holding(j));
  }

  lemma ReportKeepsLedger(s: State, w: nat, j: Job)
    requires MainInv(s) && Enabled(s, Report(w)) && Ledger(s, j)
    ensures MainInv(Apply(s, Report(w))) && Ledger(Apply(s, Report(w)), j)
  {
    TallySet(s.workers, w, Owes, Holding(j));
    OccAppend(s.done, s.workers[w].job, j);
  }

  lemma TakeKeepsLedger(s: State, w: nat, j: Job)
    requires MainInv(s) && w < |s.workers| && s.workers[w] == Ready && Ledger(s, j)
    requires InRound(s.main) ==> Occ(s.work, Quit) == 0
    ensures MainInv(TakeStep(s, w)) && Ledger(TakeStep(s, w), j)
  {
    TallySet(s.workers, w, TakeStep(s, w).workers[w], Holding(j));
  }

  lemma NotifyKeepsLedger(s: State, w: nat, j: Job)
    requires MainInv(s) && Enabled(s, Notify(w)) && Ledger(s, j) && MainInv(NotifyStep(s, w))
    ensures Ledger(NotifyStep(s, w), j)
  {
    TallySet(s.workers, w, Woken(s.workers[w]), Holding(j));
    if s.main.Pushed? {
      assert Sent(NotifyStep(s, w)) == Sent(s);
    }
  }

  lemma PushKeepsLedger(s: State, j: Job)
    requires MainInv(s) && Enabled(s, Push) && Ledger(s, j)
    ensures MainInv(Apply(s, Push)) && Ledger(Apply(s, Push), j)
  {
    var round, nr := s.todo[0], s.main.nr;
    assert round[..nr + 1] == round[..nr] + [round[nr]];
    OccAppend(round[..nr], round[nr], j);
    OccAppend(s.work, round[nr], j);
  }

  lemma BeginKeepsLedger(s: State, j: Job)
    requires |s.workers| > 0 && MainInv(s) && Enabled(s, Begin) && Load(CountsOf(s)) == 0
    ensures MainInv(Apply(s, Begin)) && Ledger(Apply(s, Begin), j)
  {
    HeldIsInFlight(s.workers, j);
    assert |s.work| == |s.done| == Tally(s.workers, InFlight) == 0;
    if s.todo != [] {
      assert Sent(Apply(s, Begin)) == [];
    }
  }

  /** No step loses a job of the round or makes one. */
  lemma StepKeepsLedger(s: State, step: Step, j: Job)
    requires MainInv(s) && Enabled(s, step) && MainInv(Apply(s, step)) && Ledger(s, j)
    requires InRound(s.main) ==> Occ(s.work, Quit) == 0
    requires |s.workers| > 0 && (s.main.Between? ==> Load(CountsOf(s)) == 0)
    ensures Ledger(Apply(s, step), j)
  {
    if step.Notify? {
      NotifyKeepsLedger(s, step.w, j);
    } else if step.Take? {
      TakeKeepsLedger(s, step.w, j);
    } else if step.Report? {
      ReportKeepsLedger(s, step.w, j);
    } else if ByWorker(step) {
      WorkerKeepsLedger(s, step, j);
    } else if step.Push? {
      PushKeepsLedger(s, j);
    } else if step.Begin? {
      BeginKeepsLedger(s, j);
    } else if step.Pop? && s.done != [] {
      OccAppend(s.popped, s.done[0], j);
    }
  }

  lemma {:induction false} RunKeepsInv(s: State, steps: seq<Step>, j: Job)
    requires Inv(s) && IsRun(s, steps) && Ledger(s, j)
    ensures Inv(After(s, steps)) && Ledger(After(s, steps), j)
    decreases |steps|
  {
    if steps != [] {
      StepKeepsInv(s, steps[0]);
      StepKeepsLedger(s, steps[0], j);
      RunKeepsInv(Apply(s, steps[0]), steps[1..], j);
    }
  }

  // ----- The barrier -----

  /** No job is queued, in a worker's hands, or waiting to be popped. */
  predicate Quiet(s: State) {
    s.work == [] && s.done == [] && forall w :: 0 <= w < |s.workers| ==> !s.workers[w].Running? && !s.workers[w].Executed?
  }

  lemma NoLoadIsQuiet(s: State)
    requires Load(CountsOf(s)) == 0
    ensures Quiet(s)
  {
    forall w | 0 <= w < |s.workers| ensures !s.workers[w].Running? && !s.workers[w].Executed? {
      TallyHas(s.workers, w, InFlight);
    }
  }

  /** `walk_once` and `migrate` return only when both queues are empty and no job is in flight, and
      main has then popped each job of the round exactly as often as it pushed it. */
  lemma BarrierHolds(s: State, steps: seq<Step>)
    requires Init(s) && IsRun(s, steps) && Enabled(After(s, steps), Return)
    ensures Quiet(After(s, steps))
    ensures multiset(After(s, steps).popped) == multiset(After(s, steps).todo[0])
  {
    InitInv(s);
    RunKeepsInv(s, steps, Quit);
    var t := After(s, steps);
    NoLoadIsQuiet(t);
    forall j ensures multiset(t.popped)[j] == multiset(t.todo[0])[j] {
      RunKeepsInv(s, steps, j);
      HeldIsInFlight(t.workers, j);
      OccIsMultiplicity(t.popped, j);
      OccIsMultiplicity(t.todo[0], j);
    }
  }

  /** Between two rounds the pool is quiet. */
  lemma QuietBetween(s: State, steps: seq<Step>)
    requires Init(s) && IsRun(s, steps) && After(s, steps).main.Between?
    ensures Quiet(After(s, steps))
  {
    InitInv(s);
    RunKeepsInv(s, steps, Quit);
    NoLoadIsQuiet(After(s, steps));
  }

  // ----- Exactly once -----

  function AllJobs(rounds: seq<seq<Job>>): seq<Job> {
    if rounds == [] then [] else rounds[0] + AllJobs(rounds[1..])
  }

  function ExecutedBy(s: State, step: Step): seq<Job>
    requires Enabled(s, step)
  {
    if step.Execute? then [s.workers[step.w].job] else []
  }

  /** The jobs executed in a run, in order. */
  ghost function Executions(s: State, steps: seq<Step>): seq<Job>
    requires IsRun(s, steps)
    decreases |steps|
  {
    if steps == [] then [] else ExecutedBy(s, steps[0]) + Executions(Apply(s, steps[0]), steps[1..])
  }

  // ----- The queues keep their order -----

  function PushedBy(s: State, step: Step): seq<Job>
    requires Enabled(s, step)
  {
    match step
    case Push => [s.todo[0][s.main.nr]]
    case PushQuit => [Quit]
    case _ => []
  }

  /** The job a step hands to a worker: what the worker runs from now on, or the Quit it leaves with. */
  function HandedBy(s: State, step: Step): seq<Job>
    requires Enabled(s, step)
  {
    match step
    case Take(w) =>
      var pc := Apply(s, step).workers[w];
      if pc.Running? then [pc.job] else if pc.Exited? then [Quit] else []
    case _ => []
  }

  function ReportedBy(s: State, step: Step): seq<Job>
    requires Enabled(s, step)
  {
    match step
    case Report(w) => [s.workers[w].job]
    case _ => []
  }

  /** What a step of main adds to the jobs it has popped. */
  function PoppedBy(s: State, step: Step): seq<Job>
    requires Enabled(s, step)
  {
    if step.Pop? && |s.popped| <= |Apply(s, step).popped| then Apply(s, step).popped[|s.popped|..] else []
  }

  /** A step's jobs, one after the other over a run. */
  ghost function Along(s: State, steps: seq<Step>, pick: (State, Step) --> seq<Job>): seq<Job>
    requires IsRun(s, steps) && forall t: State, step: Step :: Enabled(t, step) ==> pick.requires(t, step)
    decreases |steps|
  {
    if steps == [] then [] else pick(s, steps[0]) + Along(Apply(s, steps[0]), steps[1..], pick)
  }

  lemma StepInOrder(s: State, step: Step)
    requires Enabled(s, step)
    ensures HandedBy(s, step) + Apply(s, step).work == s.work + PushedBy(s, step)
    ensures PoppedBy(s, step) + Apply(s, step).done == s.done + ReportedBy(s, step)
  {
    if step.Take? && s.work != [] {
      assert s.work == [s.work[0]] + s.work[1..];
    }
    if step.Pop? && s.done != [] {
      assert s.done == [s.done[0]] + s.done[1..];
    }
  }

  lemma Spliced(a: seq<Job>, b: seq<Job>, c: seq<Job>, d: seq<Job>, q: seq<Job>, q': seq<Job>, end: seq<Job>)
    requires a + q' == q + b && c + end == q' + d
    ensures (a + c) + end == q + (b + d)
  {
    assert (a + c) + end == a + (c + end) == (a + q') + d;
  }

  /** Both queues give their jobs out in the order they were put in: the workers take what main has pushed,
      Quits included, and main pops what the workers have reported. */
  lemma {:induction false} FirstInFirstOut(s: State, steps: seq<Step>)
    requires IsRun(s, steps)
    ensures Along(s, steps, HandedBy) + After(s, steps).work == s.work + Along(s, steps, PushedBy)
    ensures Along(s, steps, PoppedBy) + After(s, steps).done == s.done + Along(s, steps, ReportedBy)
    decreases |steps|
  {
    if steps != [] {
      var t, rest := Apply(s, steps[0]), steps[1..];
      StepInOrder(s, steps[0]);
      FirstInFirstOut(t, rest);
      Spliced(HandedBy(s, steps[0]), PushedBy(s, steps[0]), Along(t, rest, HandedBy), Along(t, rest, PushedBy),
              s.work, t.work, After(t, rest).work);
      Spliced(PoppedBy(s, steps[0]), ReportedBy(s, steps[0]), Along(t, rest, PoppedBy), Along(t, rest, ReportedBy),
              s.done, t.done, After(t, rest).done);
    }
  }

  lemma {:induction false} OccJoin(a: seq<Job>, b: seq<Job>, j: Job)
    ensures Occ(a + b, j) == Occ(a, j) + Occ(b, j)
  {
    if a == [] {
      assert [] + b == b;
    } else {
      OccJoin(a[1..], b, j);
      assert (a + b)[1..] == a[1..] + b;
    }
  }

  /** The jobs main has still to push. */
  function Unsent(s: State): seq<Job>
    requires MainInv(s)
  {
    if Sending(s.main) then s.todo[0][s.main.nr..] + AllJobs(s.todo[1..])
    else if Collecting(s.main) then AllJobs(s.todo[1..])
    else AllJobs(s.todo)
  }

  /** Executions of `j` to come. */
  function Outstanding(s: State, j: Job): nat
    requires MainInv(s)
  {
    Occ(Unsent(s), j) + Occ(s.work, j) + Tally(s.workers, Unexecuted(j))
  }

  lemma WorkerConserves(s: State, step: Step, j: Job)
    requires MainInv(s) && Enabled(s, step) && MainInv(Apply(s, step)) && j != Quit
    requires ByWorker(step) && !step.Notify? && !step.Take?
    ensures Outstanding(Apply(s, step), j) + Occ(ExecutedBy(s, step), j) == Outstanding(s, j)
  {
    TallySet(s.workers, step.w, Apply(s, step).workers[step.w], Unexecuted(j));
    if step.Execute? {
      assert [s.workers[step.w].job][1..] == [];
    }
  }

  lemma TakeConserves(s: State, w: nat, j: Job)
    requires MainInv(s) && w < |s.workers| && s.workers[w] == Ready && j != Quit
    ensures MainInv(TakeStep(s, w)) && Outstanding(TakeStep(s, w), j) == Outstanding(s, j)
  {
    TallySet(s.workers, w, TakeStep(s, w).workers[w], Unexecuted(j));
  }

  lemma NotifyConserves(s: State, w: nat, j: Job)
    requires MainInv(s) && Enabled(s, Notify(w)) && MainInv(NotifyStep(s, w))
    ensures Outstanding(NotifyStep(s, w), j) == Outstanding(s, j)
  {
    TallySet(s.workers, w, Woken(s.workers[w]), Unexecuted(j));
    assert Unsent(NotifyStep(s, w)) == Unsent(s);
  }

  lemma StepConserves(s: State, step: Step, j: Job)
    requires MainInv(s) && Enabled(s, step) && MainInv(Apply(s, step)) && j != Quit
    ensures Outstanding(Apply(s, step), j) + Occ(ExecutedBy(s, step), j) == Outstanding(s, j)
  {
    var t := Apply(s, step);
    if step.Notify? {
      NotifyConserves(s, step.w, j);
    } else if step.Take? {
      TakeConserves(s, step.w, j);
    } else if ByWorker(step) {
      WorkerConserves(s, step, j);
    } else if step.Push? {
      OccAppend(s.work, s.todo[0][s.main.nr], j);
      assert Unsent(s) == [s.todo[0][s.main.nr]] + Unsent(t);
    } else {
      if step.PushQuit? {
        OccAppend(s.work, Quit, j);
      }
      assert Unsent(t) == Unsent(s);
    }
  }

  lemma {:induction false} RunConserves(s: State, steps: seq<Step>, j: Job)
    requires Inv(s) && IsRun(s, steps) && j != Quit
    ensures MainInv(After(s, steps))
    ensures Occ(Executions(s, steps), j) + Outstanding(After(s, steps), j) == Outstanding(s, j)
    decreases |steps|
  {
    if steps != [] {
      var t := Apply(s, steps[0]);
      StepKeepsInv(s, steps[0]);
      StepConserves(s, steps[0], j);
      RunConserves(t, steps[1..], j);
      OccJoin(ExecutedBy(s, steps[0]), Executions(t, steps[1..]), j);
    }
  }

  lemma {:induction false} UnexecutedIsInFlight(ws: seq<WorkerPc>, j: Job)
    ensures Tally(ws, Unexecuted(j)) <= Tally(ws, InFlight)
  {
    if ws != [] {
      UnexecutedIsInFlight(ws[1..], j);
    }
  }

  lemma {:induction false} AllExited(ws: seq<WorkerPc>)
    ensures Tally(ws, AtExited) <= |ws|
    ensures Tally(ws, AtExited) == |ws| <==> forall w :: 0 <= w < |ws| ==> ws[w] == Exited
  {
    if ws != [] {
      AllExited(ws[1..]);
    }
  }

  /** Nothing circulates between two rounds, or when main has joined every worker. */
  lemma IdleLoad(s: State)
    requires Inv(s) && (s.main.Between? || s.main.Finished?)
    ensures s.work == [] && s.done == [] && Tally(s.workers, InFlight) == 0
  {
    AllExited(s.workers);
    var c := CountsOf(s);
    assert c.queued == c.reported == c.inFlight == 0;
  }

  /** Each job of the rounds gone by has been executed exactly as often as it was asked for, and no
      job of a later round has been. */
  lemma ExactlyOnce(s: State, steps: seq<Step>, j: Job)
    requires Init(s) && IsRun(s, steps) && j != Quit
    requires After(s, steps).main.Between? || After(s, steps).main.Finished?
    ensures multiset(Executions(s, steps))[j] + multiset(AllJobs(After(s, steps).todo))[j]
            == multiset(AllJobs(s.todo))[j]
  {
    var t := After(s, steps);
    InitInv(s);
    RunKeepsInv(s, steps, j);
    RunConserves(s, steps, j);
    IdleLoad(t);
    AllReady(s.workers, Unexecuted(j));
    UnexecutedIsInFlight(t.workers, j);
    OccIsMultiplicity(Executions(s, steps), j);
    OccIsMultiplicity(AllJobs(t.todo), j);
    OccIsMultiplicity(AllJobs(s.todo), j);
  }

  // ----- Shutting down -----

  predicate TakesQuit(s: State, step: Step, w: nat) {
    step == Take(w) && s.work != [] && s.work[0] == Quit
  }

  /** How many Quits worker w takes in a run. */
  ghost function QuitsTaken(s: State, steps: seq<Step>, w: nat): nat
    requires IsRun(s, steps)
    decreases |steps|
  {
    if steps == [] then 0 else One(TakesQuit(s, steps[0], w)) + QuitsTaken(Apply(s, steps[0]), steps[1..], w)
  }

  lemma {:induction false} QuitOnce(s: State, steps: seq<Step>, w: nat)
    requires IsRun(s, steps) && w < |s.workers|
    ensures |After(s, steps).workers| == |s.workers|
    ensures QuitsTaken(s, steps, w) + One(s.workers[w] == Exited) == One(After(s, steps).workers[w] == Exited)
    decreases |steps|
  {
    if steps != [] {
      QuitOnce(Apply(s, steps[0]), steps[1..], w);
    }
  }

  /** When `stop_threads` returns, every worker has left its loop, having taken exactly one Quit, and
      no queue holds anything. */
  lemma StoppedCleanly(s: State, steps: seq<Step>, w: nat)
    requires Init(s) && IsRun(s, steps) && After(s, steps).main.Finished? && w < |s.workers|
    ensures After(s, steps).todo == [] && After(s, steps).work == [] && After(s, steps).done == []
    ensures |After(s, steps).workers| == |s.workers| && After(s, steps).workers[w] == Exited
    ensures QuitsTaken(s, steps, w) == 1
  {
    InitInv(s);
    RunKeepsInv(s, steps, Quit);
    IdleLoad(After(s, steps));
    QuitOnce(s, steps, w);
  }

  // ----- Progress -----

  function WorkerStep(pc: WorkerPc, w: nat): Step
    requires !pc.Asleep? && !pc.Exited?
  {
    match pc
    case Ready => Take(w)
    case Running(_) => Execute(w)
    case Executed(_) => Report(w)
    case Owes => NotifyMain(w)
  }

  /** When every worker that has not left sleeps, the queues hold nothing main is waiting for. */
  lemma SomeWorkerMoves(s: State) returns (w: nat)
    requires Inv(s)
    requires s.main.Blocked? || (s.main.Joining? && s.workers[s.main.k] != Exited)
    ensures w < |s.workers| && !s.workers[w].Asleep? && !s.workers[w].Exited?
  {
    AllExited(s.workers);
    var c := CountsOf(s);
    var v := if s.main.Joining? then s.main.k else 0;
    TallyHas(s.workers, v, AtExited);
    if s.workers[v] != Asleep {
      w := v;
    } else {
      TallyHas(s.workers, v, AtAsleep);
      if c.ready > 0 {
        w := TallyWitness(s.workers, AtReady);
      } else if c.inFlight > 0 {
        w := TallyWitness(s.workers, InFlight);
      } else {
        assert c.queued == 0;
        assert c.owes > 0;
        w := TallyWitness(s.workers, AtOwes);
      }
    }
  }

  /** Until the pool is stopped some step can be taken, and not a spurious wake-up: no thread waits
      for a notification that will not come. */
  lemma NoDeadlock(s: State) returns (step: Step)
    requires Inv(s) && !s.main.Finished?
    ensures Enabled(s, step) && !Spurious(step)
  {
    match s.main
    case Between => step := Begin;
    case Pushing(_) => step := Push;
    case Popping(nr) => step := if nr == 0 then Return else Pop;
    case Stopping(_) => step := PushQuit;
    case Pushed(_) => step := SomeNotify(s);
    case QuitPushed(_) => step := SomeNotify(s);
    case Blocked(_) =>
      var w := SomeWorkerMoves(s);
      step := WorkerStep(s.workers[w], w);
    case Joining(k) =>
      if s.workers[k] == Exited {
        step := Join;
      } else {
        var w := SomeWorkerMoves(s);
        step := WorkerStep(s.workers[w], w);
      }
  }

  lemma SomeNotify(s: State) returns (step: Step)
    requires Inv(s) && Notifies(s.main)
    ensures Enabled(s, step) && step.Notify?
  {
    if Asleep in s.workers {
      var w :| 0 <= w < |s.workers| && s.workers[w] == Asleep;
      step := Notify(w);
    } else {
      step := Notify(0);
    }
  }

  // ----- Termination -----

  function StopEffort(n: nat): nat {
    11 * n + 1
  }

  function RoundsEffort(todo: seq<seq<Job>>, n: nat): nat {
    if todo == [] then StopEffort(n) else 12 * |todo[0]| + 4 + RoundsEffort(todo[1..], n)
  }

  /** Steps main may still take, and wake-ups it may still cause. */
  function MainEffort(s: State): nat
    requires MainInv(s)
  {
    var n := |s.workers|;
    match s.main
    case Between => 1 + RoundsEffort(s.todo, n)
    case Pushing(nr) => 10 * (|s.todo[0]| - nr) + 2 * |s.todo[0]| + 3 + RoundsEffort(s.todo[1..], n)
    case Pushed(nr) => 10 * (|s.todo[0]| - nr) + 2 * |s.todo[0]| + 5 + RoundsEffort(s.todo[1..], n)
    case Popping(nr) => 2 * nr + 2 + RoundsEffort(s.todo[1..], n)
    case Blocked(nr) => 2 * nr + 1 + RoundsEffort(s.todo[1..], n)
    case Stopping(k) => 10 * (n - k) + n + 1
    case QuitPushed(k) => 10 * (n - k) + n + 3
    case Joining(k) => n - k
    case Finished => 0
  }

  function Effort(s: State): nat
    requires MainInv(s)
  {
    Tally(s.workers, Toil) + 5 * |s.work| + MainEffort(s)
  }

  /** Every step brings the end nearer, a spurious wake-up takes it one step away. */
  lemma StepEffort(s: State, step: Step)
    requires MainInv(s) && Enabled(s, step) && MainInv(Apply(s, step)) && |s.workers| > 0
    ensures if Spurious(step) then Effort(Apply(s, step)) == Effort(s) + 1
            else Effort(Apply(s, step)) < Effort(s)
  {
    match step
    case Take(w) => TakeEffort(s, w);
    case Execute(w) => WorkerEffort(s, step);
    case Report(w) => WorkerEffort(s, step);
    case NotifyMain(w) => WorkerEffort(s, step);
    case WakeWorker(w) => WorkerEffort(s, step);
    case Notify(w) => NotifyEffort(s, w);
    case _ =>
  }

  lemma WorkerEffort(s: State, step: Step)
    requires MainInv(s) && Enabled(s, step) && MainInv(Apply(s, step))
    requires ByWorker(step) && !step.Notify? && !step.Take?
    ensures if Spurious(step) then Effort(Apply(s, step)) == Effort(s) + 1
            else Effort(Apply(s, step)) < Effort(s)
  {
    TallySet(s.workers, step.w, Apply(s, step).workers[step.w], Toil);
  }

  lemma TakeEffort(s: State, w: nat)
    requires MainInv(s) && w < |s.workers| && s.workers[w] == Ready
    ensures MainInv(TakeStep(s, w)) && Effort(TakeStep(s, w)) < Effort(s)
  {
    TallySet(s.workers, w, TakeStep(s, w).workers[w], Toil);
  }

  lemma NotifyEffort(s: State, w: nat)
    requires MainInv(s) && Enabled(s, Notify(w)) && MainInv(NotifyStep(s, w)) && |s.workers| > 0
    ensures Effort(NotifyStep(s, w)) < Effort(s)
  {
    TallySet(s.workers, w, Woken(s.workers[w]), Toil);
  }

  function SpuriousIn(steps: seq<Step>): nat {
    if steps == [] then 0 else One(Spurious(steps[0])) + SpuriousIn(steps[1..])
  }

  lemma {:induction false} RunEffort(s: State, steps: seq<Step>)
    requires Inv(s) && IsRun(s, steps)
    ensures |steps| <= Effort(s) + 2 * SpuriousIn(steps)
    decreases |steps|
  {
    if steps != [] {
      StepKeepsInv(s, steps[0]);
      StepEffort(s, steps[0]);
      RunEffort(Apply(s, steps[0]), steps[1..]);
    }
  }

  /** Main never blocks for ever: a run with finitely many spurious wake-ups has bounded length, and
      one that has not stopped the pool can go on without another. */
  lemma MainFinishes(s: State, steps: seq<Step>)
    requires Init(s) && IsRun(s, steps)
    ensures |steps| <= RoundsEffort(s.todo, |s.workers|) + |s.workers| + 1 + 2 * SpuriousIn(steps)
    ensures After(s, steps).main.Finished?
            || exists step :: Enabled(After(s, steps), step) && !Spurious(step)
  {
    InitInv(s);
    RunKeepsInv(s, steps, Quit);
    RunEffort(s, steps);
    ReadyToil(s.workers);
    if !After(s, steps).main.Finished? {
      var step := NoDeadlock(After(s, steps));
    }
  }

  lemma {:induction false} ReadyToil(ws: seq<WorkerPc>)
    requires forall w :: 0 <= w < |ws| ==> ws[w] == Ready
    ensures Tally(ws, Toil) == |ws|
  {
    if ws != [] {
      ReadyToil(ws[1..]);
    }
  }
}
