/**
 Preparing exact-commit CI evidence: which run counts as evidence, and the loop
 that polls for it and dispatches what is missing, against any environment.
 */
module ReleaseChecks {
  import opened Prelude

  // ----- Evidence: scanning the runs of one workflow ----------------------------------------

  datatype Step = Step(name: string, status: string, conclusion: string, started: bool, ended: bool)

  datatype Job = Job(name: string, status: string, conclusion: string, completedAt: int, steps: seq<Step>)

  datatype WorkflowRun = WorkflowRun(id: int, attempt: int, status: string, conclusion: string, jobs: seq<Job>)

  datatype State = Wait | Missing | FailedState | Success

  /** What is known about one workflow: its state and the run that shows it. */
  datatype Record = Record(state: State, runId: Option<int>, attempt: Option<int>)

  const MAX_AGE := 86400

  predicate Succeeded(status: string, conclusion: string) {
    status == "completed" && conclusion == "success"
  }

  predicate StepEvidence(step: Step) {
    Succeeded(step.status, step.conclusion) && step.started && step.ended
  }

  function StepsNamed(steps: seq<Step>, name: string): seq<Step> {
    if steps == [] then []
    else StepsNamed(steps[..|steps| - 1], name) + if steps[|steps| - 1].name == name then [steps[|steps| - 1]] else []
  }

  predicate JobEvidence(job: Job, step: string) {
    Succeeded(job.status, job.conclusion) && |StepsNamed(job.steps, step)| == 1
    && StepEvidence(StepsNamed(job.steps, step)[0])
  }

  predicate DistinctJobs(jobs: seq<Job>) {
    forall i, j | 0 <= i < j < |jobs| :: jobs[i].name != jobs[j].name
  }

  /** Every required job ran once, successfully, with exactly one completed required step. */
  predicate FullBatch(required: map<string, string>, jobs: seq<Job>) {
    && DistinctJobs(jobs)
    && forall name | name in required :: exists i ::
       0 <= i < |jobs| && jobs[i].name == name && JobEvidence(jobs[i], required[name])
  }

  predicate Began(run: WorkflowRun) {
    exists i :: 0 <= i < |run.jobs| && run.jobs[i].steps != []
  }

  function LatestEnd(required: map<string, string>, jobs: seq<Job>): Option<int> {
    if jobs == [] then None
    else
      var before, last := LatestEnd(required, jobs[..|jobs| - 1]), jobs[|jobs| - 1];
      if last.name !in required then before
      else if before.Some? && before.value >= last.completedAt then before
      else Some(last.completedAt)
  }

  /** What a run that is not silent decides. */
  function Decide(required: map<string, string>, run: WorkflowRun, now: int): Record {
    if run.status != "completed" then Record(Wait, Some(run.id), None)
    else if run.conclusion != "success" then Record(FailedState, Some(run.id), None)
    else
      var end := LatestEnd(required, run.jobs);
      if end.Some? && 0 <= now - end.value < MAX_AGE then Record(Success, Some(run.id), Some(run.attempt))
      else Record(Missing, None, None)
  }

  // ----- What counts as evidence ---------------------------------------------------------------

  /** Step `k` is the only one of this name. */
  ghost predicate OnlyStep(steps: seq<Step>, name: string, k: nat) {
    k < |steps| && steps[k].name == name && forall j | 0 <= j < |steps| && j != k :: steps[j].name != name
  }

  /** The job succeeded, and so did its one step of this name, which has both times recorded. */
  ghost predicate Shows(job: Job, step: string) {
    && job.status == "completed" && job.conclusion == "success"
    && exists k: nat :: OnlyStep(job.steps, step, k) && Ran(job.steps[k])
  }

  ghost predicate Ran(step: Step) {
    step.status == "completed" && step.conclusion == "success" && step.started && step.ended
  }

  /** No two jobs share a name, and every required one is there and shows its required step. */
  ghost predicate IsEvidence(required: map<string, string>, jobs: seq<Job>) {
    && (forall i, j | 0 <= i < j < |jobs| :: jobs[i].name != jobs[j].name)
    && forall name | name in required ::
         exists i :: 0 <= i < |jobs| && jobs[i].name == name && Shows(jobs[i], required[name])
  }

  /** When the last of the required jobs ended. */
  ghost predicate LastEnd(required: map<string, string>, jobs: seq<Job>, end: int) {
    && (exists i :: 0 <= i < |jobs| && jobs[i].name in required && jobs[i].completedAt == end)
    && forall i | 0 <= i < |jobs| && jobs[i].name in required :: jobs[i].completedAt <= end
  }

  /** A completed run that was cancelled before any job began a step, or that succeeded without being evidence. */
  ghost predicate Ignored(required: map<string, string>, run: WorkflowRun) {
    && run.status == "completed"
    && ((run.conclusion == "cancelled" && forall i | 0 <= i < |run.jobs| :: run.jobs[i].steps == [])
        || (run.conclusion == "success" && !IsEvidence(required, run.jobs)))
  }

  /** What such a run shows: it is waited for, it failed, or it succeeded less than a day ago; else nothing. */
  ghost predicate Answers(required: map<string, string>, run: WorkflowRun, now: int, r: Record) {
    if run.status != "completed" then r == Record(Wait, Some(run.id), None)
    else if run.conclusion != "success" then r == Record(FailedState, Some(run.id), None)
    else if exists end :: LastEnd(required, run.jobs, end) && 0 <= now - end < 24 * 60 * 60
    then r == Record(Success, Some(run.id), Some(run.attempt))
    else r == Record(Missing, None, None)
  }

  lemma {:induction false} StepsNamedAre(steps: seq<Step>, name: string)
    ensures StepsNamed(steps, name) == [] <==> forall j | 0 <= j < |steps| :: steps[j].name != name
    ensures |StepsNamed(steps, name)| == 1 <==> exists k: nat :: OnlyStep(steps, name, k)
    ensures forall k: nat | OnlyStep(steps, name, k) :: StepsNamed(steps, name) == [steps[k]]
  {
    if steps != [] {
      var front, last := steps[..|steps| - 1], steps[|steps| - 1];
      StepsNamedAre(front, name);
      assert forall j | 0 <= j < |front| :: front[j] == steps[j];
      if last.name != name {
        forall k: nat ensures OnlyStep(steps, name, k) <==> OnlyStep(front, name, k) { }
      } else if StepsNamed(front, name) == [] {
        assert OnlyStep(steps, name, |front|);
      }
    }
  }

  lemma JobShows(job: Job, step: string)
    ensures JobEvidence(job, step) <==> Shows(job, step)
  {
    StepsNamedAre(job.steps, step);
  }

  lemma FullBatchIs(required: map<string, string>, jobs: seq<Job>)
    ensures FullBatch(required, jobs) <==> IsEvidence(required, jobs)
  {
    hide JobEvidence, Shows;
    forall job, step ensures JobEvidence(job, step) <==> Shows(job, step) { JobShows(job, step); }
  }

  lemma {:induction false} LatestEndIs(required: map<string, string>, jobs: seq<Job>)
    ensures LatestEnd(required, jobs).Some? ==> LastEnd(required, jobs, LatestEnd(required, jobs).value)
    ensures LatestEnd(required, jobs).None? ==> forall i | 0 <= i < |jobs| :: jobs[i].name !in required
  {
    if jobs != [] {
      var front, last := jobs[..|jobs| - 1], jobs[|jobs| - 1];
      LatestEndIs(required, front);
      assert forall i | 0 <= i < |front| :: front[i] == jobs[i];
      if LatestEnd(required, front).Some? {
        var i :| 0 <= i < |front| && front[i].name in required
                 && front[i].completedAt == LatestEnd(required, front).value;
        assert jobs[i] == front[i];
      }
    }
  }

  lemma DecideIs(required: map<string, string>, run: WorkflowRun, now: int)
    ensures Answers(required, run, now, Decide(required, run, now))
  {
    LatestEndIs(required, run.jobs);
    assert MAX_AGE == 24 * 60 * 60;
    if end :| LastEnd(required, run.jobs, end) && 0 <= now - end < 24 * 60 * 60 {
      assert LatestEnd(required, run.jobs) == Some(end);
    }
  }

  /** The first run, newest first, that is not ignored answers; if all are, nothing is known. */
  method Scan(required: map<string, string>, candidates: seq<WorkflowRun>, now: int) returns (r: Record)
    ensures || ((forall j | 0 <= j < |candidates| :: Ignored(required, candidates[j]))
                && r == Record(Missing, None, None))
            || exists i :: 0 <= i < |candidates| && !Ignored(required, candidates[i])
                 && Answers(required, candidates[i], now, r)
                 && forall j | 0 <= j < i :: Ignored(required, candidates[j])
  {
    hide IsEvidence, Answers, FullBatch, Decide;
    for i := 0 to |candidates|
      invariant forall j | 0 <= j < i :: Ignored(required, candidates[j])
    {
      var run := candidates[i];
      DecideIs(required, run, now);
      FullBatchIs(required, run.jobs);
      if run.status != "completed" {
        return Decide(required, run, now);
      }
      if run.conclusion == "cancelled" && !Began(run) {
        continue;
      }
      if run.conclusion != "success" {
        return Decide(required, run, now);
      }
      if !FullBatch(required, run.jobs) {
        continue;
      }
      return Decide(required, run, now);
    }
    return Record(Missing, None, None);
  }

  // ----- The preparation loop ------------------------------------------------------------------

  /** Everything outside the loop: what each poll observes, what the ref names, and how time passes. */
  datatype Environment = Environment(
    observe: (nat, string) -> Option<Record>,  // no record: the observation timed out
    refAt: (nat, string) -> string,
    dispatched: (nat, string) -> bool,         // whether the dispatch call itself succeeded
    advance: nat -> nat)                       // time that passes before the next clock reading

  type Identity = (Option<int>, Option<int>)

  function IdentityOf(r: Record): Identity {
    (r.runId, r.attempt)
  }

  datatype Action =
    | Dispatch(name: string, round: nat, seen: Record)
    | Pause(elapsed: int, at: int, length: int)

  datatype Verdict = Ready | SomeFailed | Pending | Unobserved | Raised

  function Dispatches(log: seq<Action>, name: string): nat {
    if log == [] then 0
    else Dispatches(log[..|log| - 1], name) + if log[|log| - 1].Dispatch? && log[|log| - 1].name == name then 1 else 0
  }

  /** A pause is made before the timeout, for a quarter of a minute or what is left by then. */
  ghost predicate PauseOk(timeout: int, a: Action)
    requires a.Pause?
  {
    a.elapsed < timeout && a.length == if timeout <= a.at then 0 else if timeout - a.at < 15 then timeout - a.at else 15
  }

  /** What every run of the loop keeps, whatever the environment does. */
  ghost predicate Disciplined(env: Environment, sha: string, force: bool, timeout: int, log: seq<Action>) {
    && (forall name :: Dispatches(log, name) <= 1)
    && (forall a | a in log && a.Dispatch? ::
          env.refAt(a.round, a.name) == sha && env.observe(a.round, a.name) == Some(a.seen))
    && (forall a | a in log && a.Dispatch? && !force :: a.seen.state == Missing)
    && (forall a | a in log && a.Dispatch? :: a.seen.state != Wait)
    && (forall a | a in log && a.Pause? :: PauseOk(timeout, a))
  }

  /** The bookkeeping agrees with what was done. */
  ghost predicate Booked(names: seq<string>, log: seq<Action>, done: map<string, Identity>) {
    && (forall name ::
          && (name in done <==> Dispatches(log, name) == 1)
          && (name !in done <==> Dispatches(log, name) == 0))
    && (forall a | a in log && a.Dispatch? :: a.name in done && done[a.name] == IdentityOf(a.seen))
    && forall name | name in done :: exists a :: a in log && a.Dispatch? && a.name == name
  }

  ghost predicate LogOk(env: Environment, sha: string, force: bool, timeout: int, names: seq<string>, log: seq<Action>,
                        done: map<string, Identity>) {
    Disciplined(env, sha, force, timeout, log) && Booked(names, log, done)
  }

  lemma LogGrows(env: Environment, sha: string, force: bool, timeout: int, names: seq<string>, log: seq<Action>,
                 done: map<string, Identity>, a: Action)
    requires LogOk(env, sha, force, timeout, names, log, done)
    requires a.Dispatch? ==> env.refAt(a.round, a.name) == sha && env.observe(a.round, a.name) == Some(a.seen)
    requires a.Dispatch? ==> a.name !in done && (!force ==> a.seen.state == Missing) && a.seen.state != Wait
    requires a.Pause? ==> PauseOk(timeout, a)
    ensures LogOk(env, sha, force, timeout, names, log + [a],
                  if a.Dispatch? then done[a.name := IdentityOf(a.seen)] else done)
  {
    assert (log + [a])[..|log|] == log;
    var more := if a.Dispatch? then done[a.name := IdentityOf(a.seen)] else done;
    forall name | name in more ensures exists b :: b in log + [a] && b.Dispatch? && b.name == name {
      if a.Dispatch? && a.name == name {
        assert a in log + [a];
      } else {
        var b :| b in log && b.Dispatch? && b.name == name;
        assert b in log + [a];
      }
    }
  }

  /** Poll every required workflow; an observation that times out ends the round. */
  method Observe(env: Environment, round: nat, names: seq<string>) returns (states: Option<map<string, Record>>)
    ensures states.None? <==> exists name :: name in names && env.observe(round, name).None?
    ensures states.Some? ==> Polled(env, round, names, states.value)
  {
    var collected: map<string, Record> := map[];
    for i := 0 to |names|
      invariant collected.Keys == Elements(names[..i])
      invariant forall name | name in collected :: env.observe(round, name) == Some(collected[name])
      invariant forall j | 0 <= j < i :: env.observe(round, names[j]).Some?
    {
      assert names[..i + 1] == names[..i] + [names[i]];
      var one := env.observe(round, names[i]);
      if one.None? {
        return None;
      }
      collected := collected[names[i] := one.value];
    }
    assert names[..|names|] == names;
    return Some(collected);
  }

  /**
   After a round: what was observed, except that a new dispatch and a forced
   workflow's old result read as waiting.
   */
  ghost predicate Settled(env: Environment, round: nat, force: bool, done: map<string, Identity>, name: string,
                          state: Record) {
    && (env.observe(round, name) == Some(state) || (state == WAITING && WaitsFor(env, round, done, name)))
    && ((state.state == Success || state.state == FailedState) && force ==>
          name in done ==> IdentityOf(state) != done[name])
    && (state.state == FailedState && force ==> name in done)
  }

  /** What this round shows of the workflow is what was seen when it was dispatched. */
  ghost predicate WaitsFor(env: Environment, round: nat, done: map<string, Identity>, name: string) {
    var seen := env.observe(round, name);
    name in done && seen.Some? && done[name] == (seen.value.runId, seen.value.attempt)
  }

  /** Nothing can be dispatched: the ref names another commit, or the call itself failed. */
  predicate Obstructed(env: Environment, round: nat, sha: string, name: string) {
    env.refAt(round, name) != sha || !env.dispatched(round, name)
  }

  /** A missing workflow needs a dispatch, and under force also one with a result. */
  predicate Wanted(force: bool, state: State) {
    state == Missing || (force && (state == FailedState || state == Success))
  }

  const WAITING := Record(Wait, None, None)

  /** Under force, a result that was there before the dispatch is not the result of it. */
  predicate Stale(force: bool, name: string, record: Record, done: map<string, Identity>) {
    force && name in done && (record.state == Success || record.state == FailedState)
    && record.runId == done[name].0 && record.attempt == done[name].1
  }

  /** Handle one workflow in one round; `None` reports that the ref moved or the dispatch failed. */
  method Handle(env: Environment, round: nat, name: string, sha: string, force: bool, record: Record,
                done: map<string, Identity>)
    returns (state: Option<Record>, action: Option<Action>)
    requires env.observe(round, name) == Some(record)
    ensures action == if Wanted(force, record.state) && name !in done && env.refAt(round, name) == sha
                      then Some(Dispatch(name, round, record)) else None
    ensures state == if Wanted(force, record.state)
            && name !in done then (if Obstructed(env, round, sha, name) then None else Some(WAITING))
                     else if Stale(force, name, record, done) then Some(WAITING)
                     else Some(record)
  {
    action := None;
    if force && name in done && (record.state == Success || record.state == FailedState)
       && IdentityOf(record) == done[name] {
      return Some(WAITING), None;
    }
    if record.state == FailedState && !force {
      return Some(record), None;
    }
    var needs := record.state == Missing || record.state == FailedState
      || (force && record.state == Success && name !in done);
    if needs && name !in done {
      if env.refAt(round, name) != sha {
        return None, None;
      }
      action := Some(Dispatch(name, round, record));
      if !env.dispatched(round, name) {
        return None, action;
      }
      return Some(WAITING), action;
    }
    return Some(record), None;
  }

  ghost predicate NoPauses(log: seq<Action>) {
    forall a | a in log :: a.Dispatch?
  }

  /** These records are what the environment showed in this one round. */
  ghost predicate ObservedIn(env: Environment, round: nat, names: seq<string>, states: map<string, Record>)
  {
    forall name | name in names :: name in states && env.observe(round, name) == Some(states[name])
  }

  /** What a poll showed of every workflow. */
  ghost predicate Polled(env: Environment, round: nat, names: seq<string>, observed: map<string, Record>) {
    observed.Keys == Elements(names)
    && forall name | name in observed :: env.observe(round, name) == Some(observed[name])
  }

  /**
   The first `i` workflows of a round are handled: settled, and dispatched if they
   needed it; the others are as observed.
   */
  ghost predicate Handled(env: Environment, round: nat, force: bool, names: seq<string>, observed: map<string, Record>,
                          states: map<string, Record>, done: map<string, Identity>, i: nat) {
    && i <= |names| && states.Keys == observed.Keys == Elements(names)
    && (forall j | 0 <= j < i ::
          names[j] in Elements(names)
          && Settled(env, round, force, done, names[j], states[names[j]])
            && (Wanted(force, observed[names[j]].state) ==> names[j] in done))
    && forall j | i <= j < |names| :: names[j] in Elements(names) && states[names[j]] == observed[names[j]]
  }

  lemma HandledNext(env: Environment, round: nat, force: bool, names: seq<string>, observed: map<string, Record>,
                    states: map<string, Record>, done: map<string, Identity>, i: nat)
    requires Distinct(names) && i < |names| && Polled(env, round, names, observed)
    requires Handled(env, round, force, names, observed, states, done, i)
    ensures names[i] in states && env.observe(round, names[i]) == Some(states[names[i]])
    ensures var name, record := names[i], states[names[i]];
            if Wanted(force, record.state) && name !in done
            then Handled(env, round, force, names, observed, states[name := WAITING], done[name := IdentityOf(record)],
                         i + 1)
            else Handled(env, round, force, names, observed,
                         states[name := if Stale(force, name, record, done) then WAITING else record], done, i + 1)
  {
    hide Settled;
    var name := names[i];
    assert name in Elements(names);
    var record := states[name];
    SettledNow(env, round, force, done, name, record);
    forall j | 0 <= j < i
      ensures Settled(env, round, force, done[name := IdentityOf(record)], names[j], states[names[j]]) {
      SettledStill(env, round, force, done, names[j], states[names[j]], name, IdentityOf(record));
    }
  }

  lemma SettledNow(env: Environment, round: nat, force: bool, done: map<string, Identity>, name: string, record: Record)
    requires env.observe(round, name) == Some(record)
    ensures if Wanted(force, record.state) && name !in done
            then Settled(env, round, force, done[name := IdentityOf(record)], name, WAITING)
            else Settled(env, round, force, done, name, if Stale(force, name, record, done) then WAITING else record)
  {
  }

  lemma SettledStill(env: Environment, round: nat, force: bool, done: map<string, Identity>, name: string,
                     state: Record, other: string, id: Identity)
    requires Settled(env, round, force, done, name, state) && name != other
    ensures Settled(env, round, force, done[other := id], name, state)
  {
  }

  lemma AllHandled(env: Environment, round: nat, force: bool, names: seq<string>, observed: map<string, Record>,
                   states: map<string, Record>, done: map<string, Identity>)
    requires Handled(env, round, force, names, observed, states, done, |names|)
    ensures AllSettled(env, round, force, names, states, done)
    ensures forall name | name in names && name in observed && Wanted(force, observed[name].state) :: name in done
  {
    forall name | name in states ensures Settled(env, round, force, done, name, states[name]) {
      var j :| 0 <= j < |names| && names[j] == name;
    }
  }

  ghost predicate AllSettled(env: Environment, round: nat, force: bool, names: seq<string>, states: map<string, Record>,
                             done: map<string, Identity>) {
    states.Keys == Elements(names)
    && forall name | name in states :: Settled(env, round, force, done, name, states[name])
  }

  /** Handle every workflow of one round in order. */
  method Round(env: Environment, round: nat, names: seq<string>, sha: string, force: bool, timeout: int,
               observed: map<string, Record>, done0: map<string, Identity>, log0: seq<Action>)
    returns (states: map<string, Record>, done: map<string, Identity>, log: seq<Action>, raised: bool)
    requires Distinct(names) && Polled(env, round, names, observed)
    requires LogOk(env, sha, force, timeout, names, log0, done0)
    ensures LogOk(env, sha, force, timeout, names, log, done) && (NoPauses(log0) ==> NoPauses(log))
    ensures raised ==> exists name :: name in names && Obstructed(env, round, sha, name)
    ensures done0.Keys <= done.Keys
    ensures !raised ==> AllSettled(env, round, force, names, states, done)
    ensures !raised ==>
              forall name | name in names && name in observed && Wanted(force, observed[name].state) :: name in done
  {
    hide Handled, LogOk, Settled, Stale;
    states, done, log, raised := observed, done0, log0, false;
    NoneHandled(env, round, force, names, observed, done);
    for i := 0 to |names|
      invariant LogOk(env, sha, force, timeout, names, log, done) && (NoPauses(log0) ==> NoPauses(log))
                && done0.Keys <= done.Keys
      invariant Handled(env, round, force, names, observed, states, done, i)
    {
      var name := names[i];
      HandledNext(env, round, force, names, observed, states, done, i);
      var state, action := Handle(env, round, name, sha, force, states[name], done);
      if action.Some? {
        LogGrows(env, sha, force, timeout, names, log, done, action.value);
        done, log := done[name := IdentityOf(states[name])], log + [action.value];
      }
      if state.None? {
        raised := true;
        return;
      }
      states := states[name := state.value];
    }
    AllHandled(env, round, force, names, observed, states, done);
  }

  lemma NoneHandled(env: Environment, round: nat, force: bool, names: seq<string>, observed: map<string, Record>,
                    done: map<string, Identity>)
    requires observed.Keys == Elements(names)
    ensures Handled(env, round, force, names, observed, observed, done, 0)
  {
  }

  /** This round showed that the workflow needs a dispatch. */
  ghost predicate WantedIn(env: Environment, force: bool, round: nat, name: string) {
    var seen := env.observe(round, name);
    seen.Some? && (seen.value.state == Missing || (force && seen.value.state in {FailedState, Success}))
  }

  /** Whatever the first rounds showed to need a dispatch has been dispatched. */
  ghost predicate NothingMissed(env: Environment, force: bool, names: seq<string>, rounds: nat, done: set<string>) {
    forall r, name | 0 <= r < rounds && name in names && WantedIn(env, force, r, name) :: name in done
  }

  lemma NothingMissedNext(env: Environment, force: bool, names: seq<string>, round: nat, observed: map<string, Record>,
                          before: set<string>, done: set<string>)
    requires NothingMissed(env, force, names, round, before) && before <= done && Polled(env, round, names, observed)
    requires forall name | name in names && name in observed && Wanted(force, observed[name].state) :: name in done
    ensures NothingMissed(env, force, names, round + 1, done)
  {
    forall r, name | 0 <= r < round + 1 && name in names && WantedIn(env, force, r, name) ensures name in done {
      assert name in Elements(names);
    }
  }

  lemma MissedNone(env: Environment, sha: string, force: bool, timeout: int, names: seq<string>, log: seq<Action>,
                   done: map<string, Identity>, rounds: nat)
    requires LogOk(env, sha, force, timeout, names, log, done)
             && NothingMissed(env, force, names, rounds + 1, done.Keys)
    ensures EachDispatched(env, force, names, rounds, log)
  {
  }

  /** Whatever a round up to this one showed to need a dispatch was dispatched exactly once. */
  ghost predicate EachDispatched(env: Environment, force: bool, names: seq<string>, rounds: nat, log: seq<Action>) {
    forall r, name | 0 <= r <= rounds && name in names && WantedIn(env, force, r, name) :: Dispatches(log, name) == 1
  }

  /**
   Poll and dispatch until the evidence is there, something failed, or time is
   up. Each workflow is dispatched at most once, only while the ref names the
   candidate, and whenever a poll shows that it needs it; without force only a
   missing one is. Ready means every required check succeeded in the last
   round, and under force that each was dispatched here and its record is not
   the one seen when it was. Pending is answered only when nobody waits or the
   clock has reached the timeout.
   */
  method Prepare(env: Environment, names: seq<string>, sha: string, force: bool, wait: bool, timeout: int)
    returns (verdict: Verdict, states: map<string, Record>, log: seq<Action>, ghost rounds: nat, ghost elapsed: nat)
    requires Distinct(names)
    ensures Disciplined(env, sha, force, timeout, log)
    ensures !wait ==> NoPauses(log)
    ensures verdict == Ready ==>
              && states.Keys == Elements(names)
              && (forall name | name in names :: states[name].state == Success)
              && ObservedIn(env, rounds, names, states)
    ensures verdict == Ready && force ==> forall name | name in names :: RunHere(states, log, name)
    ensures verdict == SomeFailed ==> exists name :: name in names && FailureSeen(env, rounds, force, name, log)
    ensures verdict == Pending ==> (!wait || elapsed >= timeout) && Undecided(names, force, states, log)
    ensures verdict == Ready || verdict == SomeFailed || verdict == Pending ==>
              EachDispatched(env, force, names, rounds, log)
    ensures verdict == Unobserved ==> exists name :: name in names && env.observe(rounds, name).None?
    ensures verdict == Raised ==> exists name :: name in names && Obstructed(env, rounds, sha, name)
  {
    hide NothingMissed, EachDispatched, AllSettled, ObservedIn, FailureSeen, RunHere, Booked, Disciplined, Polled,
         Undecided;
    log, states := [], map[];
    var done: map<string, Identity> := map[];
    var now: nat, round: nat, ticks: nat := 0, 0, 0;
    NothingYet(env, sha, force, timeout, names, done);
    while true
      invariant LogOk(env, sha, force, timeout, names, log, done) && (!wait ==> NoPauses(log))
      invariant NothingMissed(env, force, names, round, done.Keys)
      decreases timeout - now
    {
      rounds, elapsed := round, now;
      var observed := Observe(env, round, names);
      if observed.None? {
        return Unobserved, states, log, rounds, elapsed;
      }
      var raised;
      ghost var before := done.Keys;
      states, done, log, raised := Round(env, round, names, sha, force, timeout, observed.value, done, log);
      if raised {
        return Raised, states, log, rounds, elapsed;
      }
      NothingMissedNext(env, force, names, round, observed.value, before, done.Keys);
      MissedNone(env, sha, force, timeout, names, log, done, round);
      StatesKnown(env, round, force, names, states, done);
      if (forall name | name in names :: states[name].state == Success)
        && (!force || forall name | name in names :: name in done) {
        ReadyHolds(env, round, names, force, states, done, log);
        return Ready, states, log, rounds, elapsed;
      }
      if exists name | name in names :: states[name].state == FailedState {
        FailedHolds(env, round, names, force, states, done, log);
        return SomeFailed, states, log, rounds, elapsed;
      }
      NotDecided(names, force, states, done, log);
      now := now + env.advance(ticks);
      if !wait || now >= timeout {
        return Pending, states, log, rounds, now;
      }
      var at := now + env.advance(ticks + 1);
      var left := if timeout - at < 0 then 0 else timeout - at;
      var length := if left < 15 then left else 15;
      LogGrows(env, sha, force, timeout, names, log, done, Pause(now, at, length));
      log := log + [Pause(now, at, length)];
      now := at + length;
      ticks, round := ticks + 2, round + 1;
    }
  }

  /** No check is known to have failed, and one has not succeeded yet or, under force, was not dispatched. */
  ghost predicate Undecided(names: seq<string>, force: bool, states: map<string, Record>, log: seq<Action>) {
    && (forall name | name in names :: name in states && states[name].state != FailedState)
    && exists name :: name in names && (states[name].state != Success || (force && Dispatches(log, name) == 0))
  }

  lemma NotDecided(names: seq<string>, force: bool, states: map<string, Record>, done: map<string, Identity>,
                   log: seq<Action>)
    requires Booked(names, log, done)
    requires forall name | name in names :: name in states && states[name].state != FailedState
    requires !((forall name | name in names :: states[name].state == Success)
               && (!force || forall name | name in names :: name in done))
    ensures Undecided(names, force, states, log)
  {
    if name :| name in names && states[name].state != Success {
    } else {
      var name :| name in names && name !in done;
      assert Dispatches(log, name) == 0;
    }
  }

  lemma NothingYet(env: Environment, sha: string, force: bool, timeout: int, names: seq<string>,
                   done: map<string, Identity>)
    requires done == map[]
    ensures LogOk(env, sha, force, timeout, names, [], done) && NothingMissed(env, force, names, 0, done.Keys)
  {
  }

  lemma StatesKnown(env: Environment, round: nat, force: bool, names: seq<string>, states: map<string, Record>,
                    done: map<string, Identity>)
    requires AllSettled(env, round, force, names, states, done)
    ensures states.Keys == Elements(names) && forall name | name in names :: name in states
  {
    forall name | name in names ensures name in states { assert name in Elements(names); }
  }

  /** The workflow was dispatched here, and its record is not the one seen when it was. */
  ghost predicate RunHere(states: map<string, Record>, log: seq<Action>, name: string) {
    name in states && exists a ::
      a in log && a.Dispatch? && a.name == name && IdentityOf(states[name]) != IdentityOf(a.seen)
  }

  /**
   A required check is seen failed in this round; under force it is a batch
   dispatched here, and not the failure seen then.
   */
  ghost predicate FailureSeen(env: Environment, round: nat, force: bool, name: string, log: seq<Action>) {
    var seen := env.observe(round, name);
    && seen.Some? && seen.value.state == FailedState
    && (force ==> exists a :: a in log && a.Dispatch? && a.name == name && IdentityOf(seen.value) != IdentityOf(a.seen))
  }

  lemma FailedHolds(env: Environment, round: nat, names: seq<string>, force: bool, states: map<string, Record>,
                    done: map<string, Identity>, log: seq<Action>)
    requires AllSettled(env, round, force, names, states, done) && Booked(names, log, done)
    requires exists name :: name in names && name in states && states[name].state == FailedState
    ensures exists name :: name in names && FailureSeen(env, round, force, name, log)
  {
    var name :| name in names && name in states && states[name].state == FailedState;
    assert Settled(env, round, force, done, name, states[name]);
    if force {
      var a :| a in log && a.Dispatch? && a.name == name;
      assert done[name] == IdentityOf(a.seen);
    }
    assert FailureSeen(env, round, force, name, log);
  }

  lemma ReadyHolds(env: Environment, round: nat, names: seq<string>, force: bool, states: map<string, Record>,
                   done: map<string, Identity>, log: seq<Action>)
    requires AllSettled(env, round, force, names, states, done) && Booked(names, log, done)
    requires forall name | name in names :: name in states && states[name].state == Success
    requires force ==> forall name | name in names :: name in done
    ensures ObservedIn(env, round, names, states)
    ensures force ==> forall name | name in names :: RunHere(states, log, name)
  {
    forall name | name in names
      ensures env.observe(round, name) == Some(states[name])
      ensures force ==> RunHere(states, log, name)
    {
      assert Settled(env, round, force, done, name, states[name]);
      if force {
        var a :| a in log && a.Dispatch? && a.name == name;
        assert done[name] == IdentityOf(a.seen);
      }
    }
  }
}
