/**
 * The watch mode's upload protocol: file events fill a map of pending changes, a debounced call
 * drains it as one batch, and a promise serves as a mutex between batches.
 */
module Watch {

  type File = nat

  /** Changes are numbered as they are recorded. */
  type Change = nat

  type Batch = map<File, Change>

  /**
   * `mutexPending` is the state of the promise in the mutex field, `waiters` the calls awaiting it,
   * `ready` the calls whose promise has been resolved and that have not run on yet. `latest` and
   * `taken` record history: the newest change of each file, and every batch ever drained.
   */
  datatype State = State(
    pending: Batch, timer: bool, mutexPending: bool, waiters: nat, ready: nat,
    inFlight: seq<Batch>, latest: Batch, taken: seq<Batch>, clock: nat)

  /** Before watching starts, changed files are recorded and one call is due if there are any. */
  function Initial(changed: set<File>): State {
    var first := map f | f in changed :: 0;
    State(first, changed != {}, false, 0, 0, [], first, [], 1)
  }

  // -------------------------------------------------------------------- steps

  datatype Step =
    | Record(file: File)   // a watcher callback: remember the change, restart the debounce timer
    | Fire                 // the timer runs applyChanges up to its first await
    | Resume               // a resolved waiter runs on
    | Finish(batch: nat)   // a batch ends, well or with an exception: its `finally` runs

  /**
   * Waiters of a resolved promise run on before the event loop turns to anything else. The other
   * conditions only say that the step has something to act on.
   */
  predicate Enabled(s: State, step: Step) {
    match step
    case Record(_) => s.ready == 0
    case Fire => s.ready == 0 && s.timer
    case Resume => s.ready > 0
    case Finish(k) => s.ready == 0 && k < |s.inFlight|
  }

  /** The synchronous middle of applyChanges: nothing to do, or a new mutex and the whole map drained. */
  function Drain(s: State): State {
    if s.pending == map[] then s
    else s.(pending := map[], mutexPending := true,
            inFlight := s.inFlight + [s.pending], taken := s.taken + [s.pending])
  }

  function Next(s: State, step: Step): State {
    match step
    case Record(f) => s.(pending := s.pending[f := s.clock], latest := s.latest[f := s.clock],
                         clock := s.clock + 1, timer := true)
    case Fire =>
      var s' := s.(timer := false);
      if s.mutexPending then s'.(waiters := s.waiters + 1) else Drain(s')
    case Resume => if s.ready == 0 then s else Drain(s.(ready := s.ready - 1))
    case Finish(k) =>
      if k < |s.inFlight| then
        s.(inFlight := s.inFlight[..k] + s.inFlight[k + 1..], mutexPending := false,
           ready := s.ready + s.waiters, waiters := 0)
      else s
  }

  function Run(s: State, steps: seq<Step>): State {
    if steps == [] then s else Next(Run(s, steps[..|steps| - 1]), steps[|steps| - 1])
  }

  /** A run of the event loop. */
  ghost predicate Possible(s: State, steps: seq<Step>) {
    steps != [] ==> Possible(s, steps[..|steps| - 1]) && Enabled(Run(s, steps[..|steps| - 1]), steps[|steps| - 1])
  }

  // --------------------------------------------------------------- exclusion

  /** One batch at a time, exactly while the mutex is pending; who waits, waits for it. */
  ghost predicate Exclusive(s: State) {
    && |s.inFlight| <= 1 && (s.mutexPending <==> |s.inFlight| == 1)
    && (s.waiters > 0 ==> s.mutexPending)
    && (s.ready > 0 && s.mutexPending ==> s.pending == map[])
  }

  lemma {:induction false} StepKeepsExclusion(s: State, step: Step)
    requires Exclusive(s) && Enabled(s, step)
    ensures Exclusive(Next(s, step))
  {
  }

  // ------------------------------------------------------------ nothing is lost

  /** Some batch took this change of this file. */
  ghost predicate TakenIn(s: State, i: int, f: File, c: Change) {
    0 <= i < |s.taken| && f in s.taken[i] && s.taken[i][f] == c
  }

  /** Each file's newest change is pending or in exactly one batch, never both. */
  ghost predicate Accounted(s: State) {
    forall f :: f in s.latest ==>
      if f in s.pending then s.pending[f] == s.latest[f] && forall i :: !TakenIn(s, i, f, s.latest[f])
      else exists i :: TakenIn(s, i, f, s.latest[f]) && forall j :: TakenIn(s, j, f, s.latest[f]) ==> i == j
  }

  /** History is numbered by the clock, and pending changes are among the newest. */
  ghost predicate Dated(s: State) {
    && s.pending.Keys <= s.latest.Keys
    && (forall f :: f in s.pending ==> s.pending[f] == s.latest[f])
    && (forall f :: f in s.latest ==> s.latest[f] < s.clock)
    && (forall i, f :: 0 <= i < |s.taken| && f in s.taken[i] ==> s.taken[i][f] < s.clock)
  }

  /** While something is pending, a call that will drain it is due. */
  ghost predicate WillBeDrained(s: State) {
    s.pending != map[] ==> s.timer || s.waiters + s.ready > 0
  }

  ghost predicate Invariant(s: State) {
    Exclusive(s) && Dated(s) && Accounted(s) && WillBeDrained(s)
  }

  lemma {:induction false} InitialHolds(changed: set<File>)
    ensures Invariant(Initial(changed))
  {
    var s := Initial(changed);
    assert changed == {} ==> s.pending == map[];
  }

  /** Draining moves every pending change into one new batch. */
  lemma {:induction false} DrainAccounts(s: State)
    requires Dated(s) && Accounted(s)
    ensures Dated(Drain(s)) && Accounted(Drain(s))
  {
    if s.pending != map[] {
      var t := Drain(s);
      var n := |s.taken|;
      assert t.taken[n] == s.pending;
      forall f | f in t.latest
        ensures exists i :: TakenIn(t, i, f, t.latest[f]) && forall j :: TakenIn(t, j, f, t.latest[f]) ==> i == j
      {
        var c := t.latest[f];
        if f in s.pending {
          assert TakenIn(t, n, f, c);
          forall j | TakenIn(t, j, f, c) ensures j == n { if j < n { assert TakenIn(s, j, f, c); } }
        } else {
          var i :| TakenIn(s, i, f, c) && forall j :: TakenIn(s, j, f, c) ==> i == j;
          assert TakenIn(t, i, f, c);
          forall j | TakenIn(t, j, f, c) ensures i == j { if j < n { assert TakenIn(s, j, f, c); } }
        }
      }
    }
  }

  /** A new change is pending and in no batch; the other files are as before. */
  lemma {:induction false} RecordAccounts(s: State, f: File)
    requires Dated(s) && Accounted(s)
    ensures Dated(Next(s, Record(f))) && Accounted(Next(s, Record(f)))
  {
    var t := Next(s, Record(f));
    forall g | g in t.latest
      ensures if g in t.pending then t.pending[g] == t.latest[g] && forall i :: !TakenIn(t, i, g, t.latest[g])
              else exists i :: TakenIn(t, i, g, t.latest[g]) && forall j :: TakenIn(t, j, g, t.latest[g]) ==> i == j
    {
      if g != f {
        if g in s.pending {
          forall i ensures !TakenIn(t, i, g, t.latest[g]) { assert !TakenIn(s, i, g, s.latest[g]); }
        } else {
          var i :| TakenIn(s, i, g, s.latest[g]) && forall j :: TakenIn(s, j, g, s.latest[g]) ==> i == j;
          assert TakenIn(t, i, g, t.latest[g]);
          forall j | TakenIn(t, j, g, t.latest[g]) ensures i == j { assert TakenIn(s, j, g, s.latest[g]); }
        }
      }
    }
  }

  /** Steps that touch neither changes nor batches leave the accounts alone. */
  lemma {:induction false} SameAccounts(s: State, t: State)
    requires Dated(s) && Accounted(s)
    requires t.pending == s.pending && t.latest == s.latest && t.taken == s.taken && t.clock == s.clock
    ensures Dated(t) && Accounted(t)
  {
    forall i, f, c ensures TakenIn(t, i, f, c) == TakenIn(s, i, f, c) {}
    forall f | f in t.latest
      ensures if f in t.pending then t.pending[f] == t.latest[f] && forall i :: !TakenIn(t, i, f, t.latest[f])
              else exists i :: TakenIn(t, i, f, t.latest[f]) && forall j :: TakenIn(t, j, f, t.latest[f]) ==> i == j
    {
      if f in s.pending {
        forall i ensures !TakenIn(t, i, f, t.latest[f]) { assert !TakenIn(s, i, f, s.latest[f]); }
      } else {
        var i :| TakenIn(s, i, f, s.latest[f]) && forall j :: TakenIn(s, j, f, s.latest[f]) ==> i == j;
        assert TakenIn(t, i, f, t.latest[f]);
        forall j | TakenIn(t, j, f, t.latest[f]) ensures i == j { assert TakenIn(s, j, f, s.latest[f]); }
      }
    }
  }

  lemma {:induction false} StepKeepsAccounts(s: State, step: Step)
    requires Dated(s) && Accounted(s)
    ensures Dated(Next(s, step)) && Accounted(Next(s, step))
  {
    hide Dated, Accounted, Drain;
    match step
    case Record(f) => RecordAccounts(s, f);
    case Fire =>
      var s' := s.(timer := false);
      SameAccounts(s, s');
      if s.mutexPending { SameAccounts(s, s'.(waiters := s.waiters + 1)); } else { DrainAccounts(s'); }
    case Resume =>
      if s.ready > 0 {
        SameAccounts(s, s.(ready := s.ready - 1));
        DrainAccounts(s.(ready := s.ready - 1));
      }
    case Finish(k) => SameAccounts(s, Next(s, step));
  }

  lemma {:induction false} StepKeepsDue(s: State, step: Step)
    requires Exclusive(s) && WillBeDrained(s) && Enabled(s, step)
    ensures WillBeDrained(Next(s, step))
  {
  }

  /**
   * In every run of the event loop: at most one batch is in flight, every file's newest change is
   * pending or was taken by exactly one batch, and when no call is due any more nothing is pending.
   */
  lemma {:induction false} EveryRunIsSafe(changed: set<File>, steps: seq<Step>)
    requires Possible(Initial(changed), steps)
    ensures Invariant(Run(Initial(changed), steps))
  {
    if steps == [] {
      InitialHolds(changed);
    } else {
      var before, step := steps[..|steps| - 1], steps[|steps| - 1];
      EveryRunIsSafe(changed, before);
      var s := Run(Initial(changed), before);
      StepKeepsExclusion(s, step);
      StepKeepsAccounts(s, step);
      StepKeepsDue(s, step);
      hide Exclusive, Dated, Accounted, WillBeDrained, Initial, Next;
    }
  }

  /** Once no call is due any more, every file's newest change has been taken by exactly one batch. */
  lemma {:induction false} NothingForgotten(changed: set<File>, steps: seq<Step>)
    requires Possible(Initial(changed), steps)
    requires var s := Run(Initial(changed), steps); !s.timer && s.waiters == 0 && s.ready == 0
    ensures
      var s := Run(Initial(changed), steps);
      && s.pending == map[]
      && forall f :: f in s.latest ==>
           exists i :: TakenIn(s, i, f, s.latest[f]) && forall j :: TakenIn(s, j, f, s.latest[f]) ==> i == j
  {
    EveryRunIsSafe(changed, steps);
    hide Run, Initial, Possible;
  }

  /**
   * The order of resumption matters: with two waiters resolved and something pending, an event
   * between their resumptions always puts two batches in flight.
   */
  lemma {:induction false} EventBetweenWaitersBreaksExclusion(s: State, f: File)
    requires Exclusive(s) && s.ready >= 2 && s.pending != map[]
    ensures |Next(Next(Next(s, Resume), Record(f)), Resume).inFlight| == 2
  {
    var t := Next(Next(s, Resume), Record(f));
    assert f in t.pending;
  }

  /** Such a state does come up: two timers fire while a batch is in flight, and the batch ends. */
  lemma {:induction false} TwoWaitersComeUp()
    ensures
      var steps := [Record(1), Fire, Record(2), Fire, Record(2), Fire, Finish(0)];
      var s := Run(Initial({}), steps);
      Possible(Initial({}), steps) && s.ready == 2 && s.pending == map[2 := 3]
  {
    hide Next, Initial, Enabled, Run, Possible;
    var s0 := Initial({});
    var steps := [Record(1), Fire, Record(2), Fire, Record(2), Fire, Finish(0)];
    assert steps[..0] == [] && steps[..7] == steps;
    FirstBatch(s0);
    var one: seq<Batch> := [map[1 := 1]];
    var s2 := State(map[], false, true, 0, 0, one, map[1 := 1], one, 2);
    var s4 := State(map[2 := 2], false, true, 1, 0, one, map[1 := 1, 2 := 2], one, 3);
    var s6 := State(map[2 := 3], false, true, 2, 0, one, map[1 := 1, 2 := 3], one, 4);
    OneMoreWaiter(s2, s4, 2);
    OneMoreWaiter(s4, s6, 2);
    BothWake(s6);
    RunStep(s0, steps, 0); RunStep(s0, steps, 1); RunStep(s0, steps, 2); RunStep(s0, steps, 3);
    RunStep(s0, steps, 4); RunStep(s0, steps, 5); RunStep(s0, steps, 6);
  }

  lemma {:induction false} BothWake(s: State)
    requires s.inFlight == [map[1 := 1]] && s.mutexPending && s.waiters == 2 && s.ready == 0
    ensures Enabled(s, Finish(0)) && Next(s, Finish(0)).ready == 2 && Next(s, Finish(0)).pending == s.pending
  {
  }

  lemma {:induction false} FirstBatch(s0: State)
    requires s0 == Initial({})
    ensures var one: seq<Batch> := [map[1 := 1]];
            Next(Next(s0, Record(1)), Fire) == State(map[], false, true, 0, 0, one, map[1 := 1], one, 2)
    ensures Enabled(s0, Record(1)) && Enabled(Next(s0, Record(1)), Fire)
  {
    assert s0.pending == map[];
    assert 1 in Next(s0, Record(1)).pending;
  }

  lemma {:induction false} OneMoreWaiter(s: State, t: State, f: File)
    requires s.mutexPending && s.ready == 0
    requires t == s.(pending := s.pending[f := s.clock], latest := s.latest[f := s.clock], clock := s.clock + 1,
                     timer := false, waiters := s.waiters + 1)
    ensures Next(Next(s, Record(f)), Fire) == t && Enabled(s, Record(f)) && Enabled(Next(s, Record(f)), Fire)
  {
  }

  lemma {:induction false} RunStep(s: State, steps: seq<Step>, k: nat)
    requires k < |steps|
    ensures Run(s, steps[..k + 1]) == Next(Run(s, steps[..k]), steps[k])
    ensures Possible(s, steps[..k + 1]) <==> Possible(s, steps[..k]) && Enabled(Run(s, steps[..k]), steps[k])
    ensures Run(s, []) == s && Possible(s, [])
  {
    assert steps[..k + 1][..k] == steps[..k];
  }
}
