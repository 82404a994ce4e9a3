/** The supervising loop of `main` (SDM_logic/app.py): initialise the
    controllers and the reference frame, run sorting passes, count the
    passes that raise, re-initialise after three of them, and close the
    controllers whenever an initialisation round ends. */
module Supervisor {
  import Cycle
  import Commands

  /** Where `main` is: in the outer `try` before the sorting loop, inside
      the sorting loop, or returned after a keyboard interrupt. */
  datatype Phase = Starting | Sorting | Stopped

  /** `retry_count`, and whether the name `cmd` has ever been bound (the
      `'cmd' in locals()` test of the `finally` clause). */
  datatype Main = Main(phase: Phase, retries: nat, hasManager: bool)

  /** `max_retries`. */
  const MaxRetries := 3

  const Initial := Main(Starting, 0, false)

  /** What can happen next: the controllers and the reference frame are
      set up, `CommandManager()` raises, `capture_reference_frame()`
      raises, a sorting pass ends, or the user interrupts. */
  datatype Event = InitOk | ManagerFailed | ReferenceFailed | PassEnded(pass: Cycle.Pass) | Interrupted

  /** The state after an event, and whether the `finally` clause closed the
      controllers on the way. */
  datatype Transition = Transition(next: Main, closes: bool)

  /** Events that cannot happen in a phase (a pass ending while starting,
      an initialisation while sorting, anything after stopping) leave the
      state as it is. */
  function Step(s: Main, e: Event): (t: Transition)
    ensures s.phase == Stopped ==> t == Transition(s, false)
    ensures e.Interrupted? && s.phase != Stopped ==> t == Transition(s.(phase := Stopped), s.hasManager)
    ensures t.next.retries < s.retries ==> e == InitOk && t.next == Main(Sorting, 0, true)
    ensures t.closes ==> t.next.phase != Sorting && t.next.hasManager
  {
    match s.phase
    case Stopped => Transition(s, false)
    case Starting =>
      (match e
       case Interrupted => Transition(s.(phase := Stopped), s.hasManager)
       case InitOk => Transition(Main(Sorting, 0, true), false)
       case ManagerFailed => Transition(s, s.hasManager)
       case ReferenceFailed => Transition(s.(hasManager := true), true)
       case PassEnded(_) => Transition(s, false))
    case Sorting =>
      (match e
       case Interrupted => Transition(s.(phase := Stopped), s.hasManager)
       case PassEnded(p) =>
         if p.Faulted? then
           var r := s.retries + 1;
           if r >= MaxRetries then Transition(Main(Starting, r, s.hasManager), s.hasManager)
           else Transition(s.(retries := r), false)
         else Transition(s, false)
       case _ => Transition(s, false))
  }

  /** The state after a run of events. */
  function Run(s: Main, es: seq<Event>): Main
    decreases |es|
  {
    if |es| == 0 then s else Run(Step(s, es[0]).next, es[1..])
  }

  /** What `main` keeps true: the counter never passes the limit, and the
      sorting loop only runs with controllers bound and fewer than three
      faults counted. */
  predicate Valid(s: Main) {
    s.retries <= MaxRetries && (s.phase == Sorting ==> s.retries < MaxRetries && s.hasManager)
  }

  lemma StepValid(s: Main, e: Event)
    requires Valid(s)
    ensures Valid(Step(s, e).next)
  {
  }

  lemma {:induction false} RunValid(s: Main, es: seq<Event>)
    requires Valid(s)
    ensures Valid(Run(s, es))
    decreases |es|
  {
    if |es| > 0 {
      StepValid(s, es[0]);
      RunValid(Step(s, es[0]).next, es[1..]);
    }
  }

  /** From the start, the counter stays within the limit whatever happens. */
  lemma RetriesBounded(es: seq<Event>)
    ensures Run(Initial, es).retries <= MaxRetries
  {
    RunValid(Initial, es);
  }

  /** The number of passes in `es` that raised. */
  function Faults(es: seq<Event>): (n: nat)
    ensures n <= |es|
    decreases |es|
  {
    if |es| == 0 then 0 else (if es[0].PassEnded? && es[0].pass.Faulted? then 1 else 0) + Faults(es[1..])
  }

  predicate OnlyPasses(es: seq<Event>) {
    forall i :: 0 <= i < |es| ==> es[i].PassEnded?
  }

  /** Inside the sorting loop the faults add up: completed and abandoned
      passes do not reset the counter, only a new initialisation does. */
  lemma {:induction false} FaultsAccumulate(s: Main, es: seq<Event>)
    requires s.phase == Sorting && OnlyPasses(es)
    requires s.retries + Faults(es) < MaxRetries
    ensures Run(s, es) == s.(retries := s.retries + Faults(es))
    decreases |es|
  {
    if |es| > 0 {
      assert OnlyPasses(es[1..]) by {
        forall i | 0 <= i < |es[1..]| ensures es[1..][i].PassEnded? {
          assert es[1..][i] == es[i + 1];
        }
      }
      FaultsAccumulate(Step(s, es[0]).next, es[1..]);
    }
  }

  lemma RunAppend(s: Main, es: seq<Event>, e: Event)
    ensures Run(s, es + [e]) == Step(Run(s, es), e).next
    decreases |es|
  {
    if |es| > 0 {
      assert (es + [e])[1..] == es[1..] + [e];
      RunAppend(Step(s, es[0]).next, es[1..], e);
    }
  }

  /** The pass that brings the count to three ends the sorting loop: the
      controllers are closed and `main` initialises again, however many
      good passes came between the faults. */
  lemma ThirdFaultRestarts(s: Main, es: seq<Event>, log: string, sent: seq<Commands.Verb>)
    requires Valid(s) && s.phase == Sorting && OnlyPasses(es)
    requires s.retries + Faults(es) == MaxRetries - 1
    ensures var last := Step(Run(s, es), PassEnded(Cycle.Faulted(log, sent)));
      last.closes && last.next == Main(Starting, MaxRetries, true)
      && Run(s, es + [PassEnded(Cycle.Faulted(log, sent))]) == last.next
  {
    FaultsAccumulate(s, es);
    RunAppend(s, es, PassEnded(Cycle.Faulted(log, sent)));
  }

  /** Fewer than three faults keep the sorting loop running. */
  lemma FewFaultsKeepSorting(s: Main, es: seq<Event>)
    requires Valid(s) && s.phase == Sorting && OnlyPasses(es)
    requires s.retries + Faults(es) < MaxRetries
    ensures Run(s, es).phase == Sorting
  {
    FaultsAccumulate(s, es);
  }

  /** A pass abandoned on a JSON error is a plain `continue`: it changes
      nothing. */
  lemma AbandonedPassIsNoOp(s: Main, log: string)
    ensures Step(s, PassEnded(Cycle.Abandoned(log))) == Transition(s, false)
  {
  }

  /** The counter is reset only by a completed initialisation, which also
      enters the sorting loop; a failed one keeps the count. */
  lemma ResetOnlyByInit(s: Main, e: Event)
    requires s.phase == Starting
    ensures Step(s, e).next.phase == Sorting <==> e == InitOk
    ensures e != InitOk ==> Step(s, e).next.retries == s.retries
  {
  }

  /** Stopping is final. */
  lemma {:induction false} StoppedStays(s: Main, es: seq<Event>)
    requires s.phase == Stopped
    ensures Run(s, es) == s
    decreases |es|
  {
    if |es| > 0 {
      StoppedStays(Step(s, es[0]).next, es[1..]);
    }
  }

  /** The `finally` clause closes the controllers iff an initialisation
      round ends and `cmd` was ever bound — so a `CommandManager()` that
      raises on the very first round closes nothing, while one that raises
      on a later round closes the previous, already closed, manager again. */
  lemma ClosesIff(s: Main, e: Event)
    requires Valid(s) && s.phase != Stopped
    ensures Step(s, e).closes <==>
      (s.hasManager || e == ReferenceFailed)
      && (e.Interrupted? || (s.phase == Starting && (e == ManagerFailed || e == ReferenceFailed))
          || (s.phase == Sorting && e.PassEnded? && e.pass.Faulted? && s.retries + 1 == MaxRetries))
  {
  }

  lemma FirstInitFailureClosesNothing()
    ensures Step(Initial, ManagerFailed) == Transition(Initial, false)
  {
  }
}
