/** The submit and complete queues of the parallel explorer as a state machine: one main thread,
    any number of workers, two locked queues, and a counting semaphore to announce entries of each.
    A step is one critical section or one semaphore operation. */
module WorkQueues {

  /** A worker waits for the submit bell, was woken, runs a context, has run it, or has handed it
      back without having rung the completion bell yet. */
  datatype Worker = Waiting | Woken | Running(ctx: nat) | Executed(ctx: nat) | Handed

  /** The main thread submits context `i`, has to ring for it, or collects its `k`-th result. */
  datatype Main = Submitting(i: nat) | Ringing(i: nat) | Awaiting(k: nat) | Taking(k: nat) | Finished

  datatype Explorer = Explorer(
    main: Main, workers: seq<Worker>, subQ: seq<nat>, cmpQ: seq<nat>, subBell: nat, cmpBell: nat,
    runs: seq<nat>, collected: seq<nat>)

  datatype Step = Push | Ring | Wake(w: nat) | Pop(w: nat) | Execute(w: nat) | Hand(w: nat) | Announce(w: nat) | Await | Take

  /** `n` contexts to submit, and the most that a semaphore counts. */
  datatype Job = Job(n: nat, bellMax: nat)

  function Initial(job: Job, workers: nat): Explorer {
    Explorer(if job.n == 0 then Finished else Submitting(0), seq(workers, _ => Waiting), [], [], 0, 0, [], [])
  }

  /** When a thread can take a step.  Taking from a queue is not guarded by its being non-empty. */
  predicate Enabled(st: Explorer, s: Step) {
    match s
    case Push => st.main.Submitting?
    case Ring => st.main.Ringing?
    case Wake(w) => w < |st.workers| && st.workers[w].Waiting? && st.subBell > 0
    case Pop(w) => w < |st.workers| && st.workers[w].Woken?
    case Execute(w) => w < |st.workers| && st.workers[w].Running?
    case Hand(w) => w < |st.workers| && st.workers[w].Executed?
    case Announce(w) => w < |st.workers| && st.workers[w].Handed?
    case Await => st.main.Awaiting? && st.cmpBell > 0
    case Take => st.main.Taking?
  }

  /** The step does not take from an empty queue. */
  predicate Safe(st: Explorer, s: Step) {
    (s.Pop? ==> st.subQ != []) && (s.Take? ==> st.cmpQ != [])
  }

  /** Ringing a semaphore that is at its maximum has no effect. */
  function Rung(bell: nat, max: nat): nat {
    if bell < max then bell + 1 else bell
  }

  function Apply(job: Job, st: Explorer, s: Step): Explorer
    requires Enabled(st, s) && Safe(st, s)
  {
    match s
    case Push => st.(subQ := st.subQ + [st.main.i], main := Ringing(st.main.i))
    case Ring =>
      st.(subBell := Rung(st.subBell, job.bellMax), main := if st.main.i + 1 >= job.n then Awaiting(0) else Submitting(st.main.i + 1))
    case Wake(w) => st.(subBell := st.subBell - 1, workers := st.workers[w := Woken])
    case Pop(w) => st.(subQ := st.subQ[1..], workers := st.workers[w := Running(st.subQ[0])])
    case Execute(w) => st.(runs := st.runs + [st.workers[w].ctx], workers := st.workers[w := Executed(st.workers[w].ctx)])
    case Hand(w) => st.(cmpQ := st.cmpQ + [st.workers[w].ctx], workers := st.workers[w := Handed])
    case Announce(w) => st.(cmpBell := Rung(st.cmpBell, job.bellMax), workers := st.workers[w := Waiting])
    case Await => st.(cmpBell := st.cmpBell - 1, main := Taking(st.main.k))
    case Take =>
      st.(collected := st.collected + [st.cmpQ[0]], cmpQ := st.cmpQ[1..],
          main := if st.main.k + 1 >= job.n then Finished else Awaiting(st.main.k + 1))
  }

  /** After a schedule: a state, a fault (something was taken from an empty queue), or nothing
      because some thread could not take its step. */
  datatype Result = Reached(st: Explorer) | Fault | Impossible

  function Run(job: Job, workers: nat, steps: seq<Step>): Result {
    if steps == [] then Reached(Initial(job, workers))
    else
      var mid := Run(job, workers, steps[..|steps| - 1]);
      var s := steps[|steps| - 1];
      if !mid.Reached? then mid
      else if !Enabled(mid.st, s) then Impossible
      else if !Safe(mid.st, s) then Fault
      else Reached(Apply(job, mid.st, s))
  }

  // ----- Invariant -----

  /** Whether a worker has context `x` in hand, and whether it has run it. */
  function HasCtx(w: Worker, x: nat): nat {
    if (w.Running? || w.Executed?) && w.ctx == x then 1 else 0
  }

  function HasRun(w: Worker, x: nat): nat {
    if w.Executed? && w.ctx == x then 1 else 0
  }

  function IsBusy(w: Worker): nat {
    if w.Running? || w.Executed? then 1 else 0
  }

  function HasDone(w: Worker): nat {
    if w.Executed? then 1 else 0
  }

  /** Sum of a count over the workers. */
  function Total(ws: seq<Worker>, f: Worker -> nat): nat {
    if ws == [] then 0 else Total(ws[..|ws| - 1], f) + f(ws[|ws| - 1])
  }

  lemma {:induction false} TotalUpdate(ws: seq<Worker>, f: Worker -> nat, w: nat, x: Worker)
    requires w < |ws|
    ensures Total(ws[w := x], f) + f(ws[w]) == Total(ws, f) + f(x)
  {
    var t := ws[w := x];
    if w < |ws| - 1 {
      assert t[..|t| - 1] == ws[..|ws| - 1][w := x];
      TotalUpdate(ws[..|ws| - 1], f, w, x);
    } else {
      assert t[..|t| - 1] == ws[..|ws| - 1];
    }
  }

  lemma {:induction false} TotalZero(ws: seq<Worker>, f: Worker -> nat)
    ensures Total(ws, f) == 0 <==> forall w :: 0 <= w < |ws| ==> f(ws[w]) == 0
  {
    if ws != [] {
      TotalZero(ws[..|ws| - 1], f);
      assert ws == ws[..|ws| - 1] + [ws[|ws| - 1]];
    }
  }

  lemma {:induction false} TotalMono(ws: seq<Worker>, f: Worker -> nat, g: Worker -> nat)
    requires forall w :: f(w) <= g(w)
    ensures Total(ws, f) <= Total(ws, g)
  {
    if ws != [] {
      TotalMono(ws[..|ws| - 1], f, g);
    }
  }

  function Woke(w: Worker): nat {
    if w.Woken? then 1 else 0
  }

  function HandedOver(w: Worker): nat {
    if w.Handed? then 1 else 0
  }

  function Submitted(job: Job, st: Explorer): nat {
    match st.main
    case Submitting(i) => i
    case Ringing(i) => i + 1
    case _ => job.n
  }

  predicate MainOk(job: Job, st: Explorer) {
    && Submitted(job, st) <= job.n
    && match st.main
      case Submitting(i) => i < job.n && st.collected == []
      case Ringing(i) => i < job.n && st.collected == []
      case Awaiting(k) => k < job.n && |st.collected| == k
      case Taking(k) => k < job.n && |st.collected| == k
      case Finished => |st.collected| == job.n
  }

  /** Each bell announces what is in its queue, but for those who are about to take or to ring. */
  predicate Bells(st: Explorer) {
    && |st.subQ| == st.subBell + Total(st.workers, Woke) + (if st.main.Ringing? then 1 else 0)
    && |st.cmpQ| == st.cmpBell + Total(st.workers, HandedOver) + (if st.main.Taking? then 1 else 0)
  }

  predicate Sizes(job: Job, st: Explorer) {
    && |st.subQ| + Total(st.workers, IsBusy) + |st.cmpQ| + |st.collected| == Submitted(job, st)
    && |st.runs| == Total(st.workers, HasDone) + |st.cmpQ| + |st.collected|
  }

  function Occurs(q: seq<nat>, x: nat): nat {
    multiset(q)[x]
  }

  /** A submitted context is in exactly one place, and it has been run exactly when it is past that
      point of its worker. */
  predicate InOnePlace(job: Job, st: Explorer, x: nat) {
    && Occurs(st.subQ, x) + Total(st.workers, w => HasCtx(w, x)) + Occurs(st.cmpQ, x) + Occurs(st.collected, x)
      == (if x < Submitted(job, st) then 1 else 0)
    && Occurs(st.runs, x) == Total(st.workers, w => HasRun(w, x)) + Occurs(st.cmpQ, x) + Occurs(st.collected, x)
  }

  ghost predicate Inv(job: Job, st: Explorer) {
    MainOk(job, st) && Bells(st) && Sizes(job, st) && forall x: nat :: InOnePlace(job, st, x)
  }

  lemma OccursPush(q: seq<nat>, y: nat, x: nat)
    ensures Occurs(q + [y], x) == Occurs(q, x) + (if x == y then 1 else 0)
  {
  }

  lemma OccursPop(q: seq<nat>, x: nat)
    requires q != []
    ensures Occurs(q, x) == Occurs(q[1..], x) + (if x == q[0] then 1 else 0)
  {
    assert q == [q[0]] + q[1..];
  }

  /** Nothing is ever more than the contexts submitted. */
  lemma Bounded(job: Job, st: Explorer)
    requires MainOk(job, st) && Sizes(job, st)
    ensures |st.subQ| <= job.n && |st.cmpQ| <= job.n && |st.runs| <= Submitted(job, st) <= job.n
  {
    TotalMono(st.workers, HasDone, IsBusy);
  }

  /** A thread never finds the queue empty that it was told to take from. */
  lemma PopSafe(job: Job, st: Explorer, s: Step)
    requires Inv(job, st) && Enabled(st, s)
    ensures Safe(st, s)
  {
    hide InOnePlace;
    if s.Pop? {
      TotalZero(st.workers, Woke);
    }
  }

  lemma WorkerCounts(job: Job, st: Explorer, s: Step)
    requires MainOk(job, st) && Bells(st) && Sizes(job, st) && Enabled(st, s) && Safe(st, s) && job.n <= job.bellMax
    requires s.Wake? || s.Pop? || s.Execute? || s.Hand? || s.Announce?
    ensures Bells(Apply(job, st, s)) && Sizes(job, Apply(job, st, s)) && MainOk(job, Apply(job, st, s))
    ensures StepsTo(job, Apply(job, st, s)) == StepsTo(job, st) + 1
  {
    hide Total;
    var x := Apply(job, st, s).workers[s.w];
    Bounded(job, st);
    TotalUpdate(st.workers, Woke, s.w, x);
    TotalUpdate(st.workers, HandedOver, s.w, x);
    TotalUpdate(st.workers, IsBusy, s.w, x);
    TotalUpdate(st.workers, HasDone, s.w, x);
  }

  lemma MainCounts(job: Job, st: Explorer, s: Step)
    requires MainOk(job, st) && Bells(st) && Sizes(job, st) && Enabled(st, s) && Safe(st, s) && job.n <= job.bellMax
    requires s.Push? || s.Ring? || s.Await? || s.Take?
    ensures Bells(Apply(job, st, s)) && Sizes(job, Apply(job, st, s)) && MainOk(job, Apply(job, st, s))
    ensures StepsTo(job, Apply(job, st, s)) == StepsTo(job, st) + 1
  {
    hide Total;
    Bounded(job, st);
  }

  lemma WorkerPlace(job: Job, st: Explorer, s: Step, x: nat)
    requires InOnePlace(job, st, x) && Enabled(st, s) && Safe(st, s)
    requires s.Wake? || s.Pop? || s.Execute? || s.Hand? || s.Announce?
    ensures InOnePlace(job, Apply(job, st, s), x)
  {
    hide Total, Occurs;
    var w := Apply(job, st, s).workers[s.w];
    TotalUpdate(st.workers, v => HasCtx(v, x), s.w, w);
    TotalUpdate(st.workers, v => HasRun(v, x), s.w, w);
    match s
    case Pop(_) => OccursPop(st.subQ, x);
    case Execute(_) => OccursPush(st.runs, st.workers[s.w].ctx, x);
    case Hand(_) => OccursPush(st.cmpQ, st.workers[s.w].ctx, x);
    case _ =>
  }

  lemma MainPlace(job: Job, st: Explorer, s: Step, x: nat)
    requires MainOk(job, st) && InOnePlace(job, st, x) && Enabled(st, s) && Safe(st, s)
    requires s.Push? || s.Ring? || s.Await? || s.Take?
    ensures InOnePlace(job, Apply(job, st, s), x)
  {
    hide Total, Occurs;
    match s
    case Push => OccursPush(st.subQ, st.main.i, x);
    case Take =>
      OccursPop(st.cmpQ, x);
      OccursPush(st.collected, st.cmpQ[0], x);
    case _ =>
  }

  lemma StepKeeps(job: Job, st: Explorer, s: Step)
    requires Inv(job, st) && Enabled(st, s) && Safe(st, s) && job.n <= job.bellMax
    ensures Inv(job, Apply(job, st, s)) && StepsTo(job, Apply(job, st, s)) == StepsTo(job, st) + 1
  {
    hide InOnePlace, MainOk, Bells, Sizes, Apply, StepsTo;
    if s.Push? || s.Ring? || s.Await? || s.Take? {
      MainCounts(job, st, s);
      forall x: nat ensures InOnePlace(job, Apply(job, st, s), x) {
        MainPlace(job, st, s, x);
      }
    } else {
      WorkerCounts(job, st, s);
      forall x: nat ensures InOnePlace(job, Apply(job, st, s), x) {
        WorkerPlace(job, st, s, x);
      }
    }
  }

  lemma InitialInv(job: Job, workers: nat)
    ensures Inv(job, Initial(job, workers)) && StepsTo(job, Initial(job, workers)) == 0
  {
    var ws := seq(workers, _ => Waiting);
    TotalZero(ws, Woke);
    TotalZero(ws, HandedOver);
    TotalZero(ws, IsBusy);
    TotalZero(ws, HasDone);
    forall x: nat ensures InOnePlace(job, Initial(job, workers), x) {
      TotalZero(ws, w => HasCtx(w, x));
      TotalZero(ws, w => HasRun(w, x));
    }
  }

  /** In every schedule the invariant holds and no thread takes from an empty queue. */
  lemma {:induction false} NeverFaults(job: Job, workers: nat, steps: seq<Step>)
    requires job.n <= job.bellMax
    ensures Run(job, workers, steps) != Fault
    ensures var r := Run(job, workers, steps);
            r.Reached? ==> Inv(job, r.st) && |r.st.workers| == workers && StepsTo(job, r.st) == |steps|
  {
    hide Inv, StepsTo;
    if steps == [] {
      InitialInv(job, workers);
    } else {
      var init, s := steps[..|steps| - 1], steps[|steps| - 1];
      NeverFaults(job, workers, init);
      var mid := Run(job, workers, init);
      if mid.Reached? && Enabled(mid.st, s) {
        PopSafe(job, mid.st, s);
        StepKeeps(job, mid.st, s);
      }
    }
  }

  /** When the collecting loop has ended every context was run exactly once and collected exactly
      once, both queues are empty, the bells are silent and all workers wait for the next job. */
  lemma AllDone(job: Job, workers: nat, steps: seq<Step>)
    requires job.n <= job.bellMax && Run(job, workers, steps).Reached? && Run(job, workers, steps).st.main.Finished?
    ensures var st := Run(job, workers, steps).st;
            && (forall x: nat :: Occurs(st.collected, x) == Occurs(st.runs, x) == if x < job.n then 1 else 0)
            && st.subQ == [] && st.cmpQ == [] && st.subBell == 0 && st.cmpBell == 0
            && forall w :: 0 <= w < |st.workers| ==> st.workers[w] == Waiting
  {
    NeverFaults(job, workers, steps);
    hide Run, Total;
    var st := Run(job, workers, steps).st;
    TotalZero(st.workers, IsBusy);
    TotalZero(st.workers, Woke);
    TotalZero(st.workers, HandedOver);
    forall w | 0 <= w < |st.workers| ensures st.workers[w] == Waiting {
      assert IsBusy(st.workers[w]) == 0 && Woke(st.workers[w]) == 0 && HandedOver(st.workers[w]) == 0;
    }
    forall x: nat ensures Occurs(st.collected, x) == Occurs(st.runs, x) == if x < job.n then 1 else 0 {
      assert InOnePlace(job, st, x);
      TotalZero(st.workers, w => HasCtx(w, x));
      TotalZero(st.workers, w => HasRun(w, x));
    }
  }

  /** As long as results are missing some thread can take a step. */
  lemma Progress(job: Job, workers: nat, steps: seq<Step>) returns (s: Step)
    requires job.n <= job.bellMax && 0 < workers && Run(job, workers, steps).Reached? && !Run(job, workers, steps).st.main.Finished?
    ensures Enabled(Run(job, workers, steps).st, s) && Safe(Run(job, workers, steps).st, s)
  {
    hide Run, Inv, Enabled, Safe;
    NeverFaults(job, workers, steps);
    s := SomeStep(job, Run(job, workers, steps).st);
    PopSafe(job, Run(job, workers, steps).st, s);
  }

  lemma SomeStep(job: Job, st: Explorer) returns (s: Step)
    requires Inv(job, st) && 0 < |st.workers| && !st.main.Finished?
    ensures Enabled(st, s)
  {
    hide Total, InOnePlace;
    if st.main.Submitting? {
      s := Push;
    } else if st.main.Ringing? {
      s := Ring;
    } else if st.main.Taking? {
      s := Take;
    } else if st.cmpBell > 0 {
      s := Await;
    } else if w :| 0 <= w < |st.workers| && !st.workers[w].Waiting? {
      var worker := st.workers[w];
      s := if worker.Woken? then Pop(w)
           else if worker.Running? then Execute(w)
           else if worker.Executed? then Hand(w)
           else Announce(w);
    } else {
      TotalZero(st.workers, IsBusy);
      TotalZero(st.workers, Woke);
      TotalZero(st.workers, HandedOver);
      s := Wake(0);
    }
  }

  // ----- Termination -----

  /** How many steps lead to a state: each context goes through nine. */
  function StepsTo(job: Job, st: Explorer): int {
    var sub := Submitted(job, st);
    var rung := sub - (if st.main.Ringing? then 1 else 0);
    var handed := |st.cmpQ| + |st.collected|;
    sub + rung + (rung - st.subBell) + (sub - |st.subQ|) + |st.runs| + handed
    + (handed - Total(st.workers, HandedOver)) + (|st.collected| + (if st.main.Taking? then 1 else 0)) + |st.collected|
  }

  /** No schedule has more than nine steps for each context; together with progress, every schedule
      that goes on as long as it can ends with all results collected. */
  lemma Terminates(job: Job, workers: nat, steps: seq<Step>)
    requires job.n <= job.bellMax && Run(job, workers, steps).Reached?
    ensures |steps| <= 9 * job.n
  {
    hide Run, Total;
    NeverFaults(job, workers, steps);
    Bounded(job, Run(job, workers, steps).st);
  }
}
