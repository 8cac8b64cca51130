/** The human-approval handshake between waiting dispatchers and reviewers (src/pi_agent_interceptor/proxy.py). */
module Approval {
  import opened Basics

  /** How a dispatcher ended: with the verdict it read, by timeout, or by cancellation of its request. */
  datatype Ending = Verdict(approved: bool) | TimedOut | Cancelled

  /** Where a dispatcher stands after registering its task. */
  datatype Phase =
    | Waiting                  // blocked on its event
    | Woken                    // the event was set; the locked read comes next
    | Leaving(ending: Ending)  // decided; the cleanup under the lock comes next
    | Done(ending: Ending)

  /** pending maps a task to whether its event is set; results holds the verdicts; phases is per dispatcher. */
  datatype Desk = Desk(pending: map<string, bool>, results: map<string, bool>, phases: map<string, Phase>)

  /** Each step is what one coroutine does between two awaits, the dictionary accesses under the lock. */
  datatype Step =
    | Register(task: string)
    | Review(task: string, approved: bool)
    | Wake(task: string)
    | ReadVerdict(task: string)
    | Timeout(task: string)
    | Cancel(task: string)
    | Cleanup(task: string)

  const IDLE := Desk(map[], map[], map[])

  predicate In(d: Desk, t: string, p: Phase) {
    t in d.phases && d.phases[t] == p
  }

  /** Task ids are fresh; a review of a task that is not pending is answered with 404. */
  predicate Enabled(d: Desk, s: Step) {
    match s
    case Register(t) => t !in d.phases
    case Review(t, _) => t in d.pending
    case Wake(t) => In(d, t, Waiting) && t in d.pending && d.pending[t]
    case ReadVerdict(t) => In(d, t, Woken)
    case Timeout(t) => In(d, t, Waiting)
    case Cancel(t) => In(d, t, Waiting) || In(d, t, Woken)
    case Cleanup(t) => t in d.phases && d.phases[t].Leaving?
  }

  /** A step that is not enabled changes nothing. */
  function Next(d: Desk, s: Step): Desk {
    if !Enabled(d, s) then d else
      match s
      case Register(t) => d.(pending := d.pending[t := false], phases := d.phases[t := Waiting])
      case Review(t, a) => d.(results := d.results[t := a], pending := d.pending[t := true])
      case Wake(t) => d.(phases := d.phases[t := Woken])
      case ReadVerdict(t) =>
        d.(phases := d.phases[t := Leaving(Verdict(t in d.results && d.results[t]))])
      case Timeout(t) => d.(phases := d.phases[t := Leaving(TimedOut)])
      case Cancel(t) => d.(phases := d.phases[t := Leaving(Cancelled)])
      case Cleanup(t) => Desk(d.pending - {t}, d.results - {t}, d.phases[t := Done(d.phases[t].ending)])
  }

  function Run(steps: seq<Step>): Desk {
    if steps == [] then IDLE else Next(Run(steps[..|steps| - 1]), steps[|steps| - 1])
  }

  /** What dispatch_human_approval returns; None while it runs or when it was cancelled. */
  function Returned(d: Desk, t: string): Option<bool> {
    if t in d.phases && d.phases[t].Done? then
      match d.phases[t].ending
      case Verdict(a) => Some(a)
      case TimedOut => Some(false)
      case Cancelled => None
    else None
  }

  // ----- the history, read off the steps alone

  ghost predicate Registered(steps: seq<Step>, t: string) {
    Register(t) in steps
  }

  /** t was reviewed between its registration and its cleanup. */
  ghost predicate Reviewed(steps: seq<Step>, t: string) {
    steps != [] &&
    var pre, s := steps[..|steps| - 1], steps[|steps| - 1];
    Reviewed(pre, t) || (s.Review? && s.task == t && Registered(pre, t) && !Finished(pre, t))
  }

  /** t's dispatcher was woken: after a review, before it gave up. */
  ghost predicate HasWoken(steps: seq<Step>, t: string) {
    steps != [] &&
    var pre, s := steps[..|steps| - 1], steps[|steps| - 1];
    HasWoken(pre, t) || (s == Wake(t) && Reviewed(pre, t) && !Decided(pre, t))
  }

  /** t's dispatcher read a verdict after waking, ran into the timeout before waking, or was cancelled. */
  ghost predicate Decided(steps: seq<Step>, t: string) {
    steps != [] &&
    var pre, s := steps[..|steps| - 1], steps[|steps| - 1];
    || Decided(pre, t)
    || (s == ReadVerdict(t) && HasWoken(pre, t))
    || (s == Timeout(t) && Registered(pre, t) && !HasWoken(pre, t))
    || (s == Cancel(t) && Registered(pre, t))
  }

  /** t's dispatcher cleaned up after deciding. */
  ghost predicate Finished(steps: seq<Step>, t: string) {
    steps != [] &&
    var pre, s := steps[..|steps| - 1], steps[|steps| - 1];
    Finished(pre, t) || (s == Cleanup(t) && Decided(pre, t))
  }

  /** The last review of t between its registration and its cleanup. */
  ghost function LastReview(steps: seq<Step>, t: string): Option<bool> {
    if steps == [] then None else
      var pre, s := steps[..|steps| - 1], steps[|steps| - 1];
      if s.Review? && s.task == t && Registered(pre, t) && !Finished(pre, t) then Some(s.approved)
      else LastReview(pre, t)
  }

  /** The last review of t before its dispatcher's locked read. */
  ghost function ReviewAtRead(steps: seq<Step>, t: string): Option<bool> {
    if steps == [] then None else
      var pre, s := steps[..|steps| - 1], steps[|steps| - 1];
      if s == ReadVerdict(t) && HasWoken(pre, t) && !Decided(pre, t) then LastReview(pre, t) else ReviewAtRead(pre, t)
  }

  /** t's dispatcher ran into the timeout. */
  ghost predicate HasTimedOut(steps: seq<Step>, t: string) {
    steps != [] &&
    var pre, s := steps[..|steps| - 1], steps[|steps| - 1];
    (s == Timeout(t) && Registered(pre, t) && !HasWoken(pre, t) && !Decided(pre, t)) || HasTimedOut(pre, t)
  }

  // ----- what every interleaving keeps

  /** Where t's dispatcher stands follows from the steps alone. */
  ghost predicate PhaseInv(steps: seq<Step>, d: Desk, t: string) {
    && (t in d.phases <==> Registered(steps, t))
    && (In(d, t, Waiting) <==> Registered(steps, t) && !HasWoken(steps, t) && !Decided(steps, t))
    && (In(d, t, Woken) <==> HasWoken(steps, t) && !Decided(steps, t))
    && (t in d.phases && d.phases[t].Leaving? <==> Decided(steps, t) && !Finished(steps, t))
    && (t in d.phases && d.phases[t].Done? <==> Finished(steps, t))
    && (Finished(steps, t) ==> Decided(steps, t)) && (Decided(steps, t) ==> Registered(steps, t))
    && (HasWoken(steps, t) ==> Reviewed(steps, t)) && (Reviewed(steps, t) ==> Registered(steps, t))
  }

  /** The books of one task agree with its history. */
  ghost predicate TaskInv(steps: seq<Step>, d: Desk, t: string) {
    && (t in d.pending <==> Registered(steps, t) && !Finished(steps, t))
    && (t in d.results ==> t in d.pending)
    && (t in d.pending ==> (d.pending[t] <==> t in d.results))
    && (t in d.pending ==> (t in d.results <==> Reviewed(steps, t)))
    && (!Registered(steps, t) ==> LastReview(steps, t) == None)
    && (t in d.pending ==> LastReview(steps, t) == if t in d.results then Some(d.results[t]) else None)
    && (HasTimedOut(steps, t) <==> In(d, t, Leaving(TimedOut)) || In(d, t, Done(TimedOut)))
    && (t in d.phases && (d.phases[t].Leaving? || d.phases[t].Done?) && d.phases[t].ending.Verdict? ==>
          ReviewAtRead(steps, t) == Some(d.phases[t].ending.approved))
    && (ReviewAtRead(steps, t).Some? ==>
          t in d.phases && (d.phases[t].Leaving? || d.phases[t].Done?) && d.phases[t].ending.Verdict?)
  }

  lemma RegisteredSnoc(steps: seq<Step>, s: Step, t: string)
    ensures Registered(steps + [s], t) <==> Registered(steps, t) || s == Register(t)
  {
  }

  lemma Elsewhere(d: Desk, s: Step, t: string)
    requires s.task != t
    ensures var e := Next(d, s);
            && (t in e.pending <==> t in d.pending) && (t in d.pending ==> e.pending[t] == d.pending[t])
            && (t in e.results <==> t in d.results) && (t in d.results ==> e.results[t] == d.results[t])
            && (t in e.phases <==> t in d.phases) && (t in d.phases ==> e.phases[t] == d.phases[t])
  {
  }

  /** A step of another task changes nothing of t's history either. */
  lemma HistoryElsewhere(steps: seq<Step>, s: Step, t: string)
    requires s.task != t
    ensures var all := steps + [s];
            && (Registered(all, t) <==> Registered(steps, t)) && (Reviewed(all, t) <==> Reviewed(steps, t))
            && (HasWoken(all, t) <==> HasWoken(steps, t)) && (Decided(all, t) <==> Decided(steps, t))
            && (Finished(all, t) <==> Finished(steps, t)) && (HasTimedOut(all, t) <==> HasTimedOut(steps, t))
            && LastReview(all, t) == LastReview(steps, t) && ReviewAtRead(all, t) == ReviewAtRead(steps, t)
  {
    assert (steps + [s])[..|steps|] == steps;
  }

  lemma StepKeepsPhase(steps: seq<Step>, s: Step, t: string)
    requires PhaseInv(steps, Run(steps), t) && TaskInv(steps, Run(steps), t)
    ensures PhaseInv(steps + [s], Next(Run(steps), s), t)
  {
    if s.task != t {
      Elsewhere(Run(steps), s, t);
      HistoryElsewhere(steps, s, t);
    } else {
      assert (steps + [s])[..|steps|] == steps;
      RegisteredSnoc(steps, s, t);
    }
  }

  lemma StepKeepsTask(steps: seq<Step>, s: Step, t: string)
    requires PhaseInv(steps, Run(steps), t) && TaskInv(steps, Run(steps), t)
    ensures TaskInv(steps + [s], Next(Run(steps), s), t)
  {
    if s.task != t {
      Elsewhere(Run(steps), s, t);
      HistoryElsewhere(steps, s, t);
    } else {
      assert (steps + [s])[..|steps|] == steps;
      RegisteredSnoc(steps, s, t);
    }
  }

  lemma {:induction false} EveryRunKeepsTask(steps: seq<Step>, t: string)
    ensures PhaseInv(steps, Run(steps), t) && TaskInv(steps, Run(steps), t)
  {
    if steps != [] {
      var pre, s := steps[..|steps| - 1], steps[|steps| - 1];
      EveryRunKeepsTask(pre, t);
      StepKeepsPhase(pre, s, t);
      StepKeepsTask(pre, s, t);
      assert pre + [s] == steps;
    }
  }

  // ----- what the handshake guarantees

  /** Which steps have an effect, from the steps before them: a review of either kind as long as the task is open. */
  lemma AcceptedSteps(steps: seq<Step>, t: string, approved: bool)
    ensures var d := Run(steps);
            && (Enabled(d, Register(t)) <==> !Registered(steps, t))
            && (Enabled(d, Review(t, approved)) <==> Registered(steps, t) && !Finished(steps, t))
            && (Enabled(d, Wake(t)) <==> Reviewed(steps, t) && !HasWoken(steps, t) && !Decided(steps, t))
            && (Enabled(d, ReadVerdict(t)) <==> HasWoken(steps, t) && !Decided(steps, t))
            && (Enabled(d, Timeout(t)) <==> Registered(steps, t) && !HasWoken(steps, t) && !Decided(steps, t))
            && (Enabled(d, Cancel(t)) <==> Registered(steps, t) && !Decided(steps, t))
            && (Enabled(d, Cleanup(t)) <==> Decided(steps, t) && !Finished(steps, t))
  {
    EveryRunKeepsTask(steps, t);
  }

  lemma RunSnoc(steps: seq<Step>, s: Step)
    ensures Run(steps + [s]) == Next(Run(steps), s)
  {
    assert (steps + [s])[..|steps|] == steps;
  }

  /** The steps by which a dispatcher that can be woken returns what the last review said. */
  function Answer(t: string): seq<Step> {
    [Wake(t), ReadVerdict(t), Cleanup(t)]
  }

  lemma RunAnswer(steps: seq<Step>, t: string)
    ensures Run(steps + Answer(t)) == Next(Next(Next(Run(steps), Wake(t)), ReadVerdict(t)), Cleanup(t))
  {
    var a, b := steps + [Wake(t)], steps + [Wake(t)] + [ReadVerdict(t)];
    assert steps + Answer(t) == b + [Cleanup(t)];
    RunSnoc(steps, Wake(t));
    RunSnoc(a, ReadVerdict(t));
    RunSnoc(b, Cleanup(t));
  }

  /** From every run in which t waits, a review makes its dispatcher return that verdict. */
  lemma ReviewIsReturned(steps: seq<Step>, t: string, a: bool)
    requires Registered(steps, t) && !HasWoken(steps, t) && !Decided(steps, t)
    ensures Returned(Run(steps + [Review(t, a)] + Answer(t)), t) == Some(a)
  {
    EveryRunKeepsTask(steps, t);
    RunSnoc(steps, Review(t, a));
    RunAnswer(steps + [Review(t, a)], t);
  }

  /** Of two reviews before the waking the second counts ... */
  lemma LaterReviewOverrides(steps: seq<Step>, t: string, a: bool, b: bool)
    requires Registered(steps, t) && !HasWoken(steps, t) && !Decided(steps, t)
    ensures Returned(Run(steps + [Review(t, a)] + [Review(t, b)] + Answer(t)), t) == Some(b)
  {
    EveryRunKeepsTask(steps, t);
    RunSnoc(steps, Review(t, a));
    RunSnoc(steps + [Review(t, a)], Review(t, b));
    RunAnswer(steps + [Review(t, a)] + [Review(t, b)], t);
  }

  /** ... and so does one that slips in between the waking and the locked read. */
  lemma ReviewAfterWaking(steps: seq<Step>, t: string, b: bool)
    requires HasWoken(steps, t) && !Decided(steps, t)
    ensures Returned(Run(steps + [Review(t, b)] + [ReadVerdict(t)] + [Cleanup(t)]), t) == Some(b)
  {
    EveryRunKeepsTask(steps, t);
    RunSnoc(steps, Review(t, b));
    RunSnoc(steps + [Review(t, b)], ReadVerdict(t));
    RunSnoc(steps + [Review(t, b)] + [ReadVerdict(t)], Cleanup(t));
  }

  /** Verdicts are stored only for pending tasks, and nothing of a finished task remains. */
  lemma NoLeftovers(steps: seq<Step>, t: string)
    ensures var d := Run(steps);
            && (t in d.pending <==> Registered(steps, t) && !Finished(steps, t))
            && (t in d.results ==> t in d.pending)
            && (Finished(steps, t) ==> t !in d.pending && t !in d.results)
  {
    EveryRunKeepsTask(steps, t);
  }

  /**
   * A dispatcher returns True exactly when it has finished and the last review before its locked read approved that
   * same task; in particular a verdict for another task, a later one or a stale one never counts.
   */
  lemma TrueOnlyByReview(steps: seq<Step>, t: string)
    ensures Returned(Run(steps), t) == Some(true) <==> Finished(steps, t) && ReviewAtRead(steps, t) == Some(true)
  {
    EveryRunKeepsTask(steps, t);
  }

  /** After a timeout the dispatcher never returns True, even if a review arrives before the cleanup. */
  lemma TimeoutDenies(steps: seq<Step>, t: string)
    requires HasTimedOut(steps, t)
    ensures Returned(Run(steps), t) == if Finished(steps, t) then Some(false) else None
  {
    EveryRunKeepsTask(steps, t);
  }

  /** A woken dispatcher always finds a verdict: the default of the locked read is never used. */
  lemma WokenHasVerdict(steps: seq<Step>, t: string)
    requires HasWoken(steps, t) && !Decided(steps, t)
    ensures t in Run(steps).results && LastReview(steps, t) == Some(Run(steps).results[t])
  {
    EveryRunKeepsTask(steps, t);
  }
}
