/**
  The worker pool of the subnet prober: one spawner, and one goroutine per address, under a
  semaphore of 20 slots, a wait group, and a mutex around the list of answers.
 */
module WorkerPool {
  import opened Wrappers

  const SLOTS := 20

  /** A worker dials; if the dial succeeds it appends its address under the mutex; then its
      deferred calls free its slot and count it down, in that order. */
  datatype Stage = Dialing | Reached | Leaving | Released | Done

  datatype Worker = Worker(stage: Stage, ok: bool)

  /** The spawner's loop over the addresses, and its wait. */
  datatype Pc = Adding | Acquiring | Spawning | Waiting | Returned

  /** `found` holds the numbers of the addresses that were appended. */
  datatype State = State(pc: Pc, waitGroup: nat, taken: nat, workers: seq<Worker>, found: seq<nat>)

  datatype Event =
    | Add | Acquire | Spawn | StartWait | WaitReturns
    | DialSucceeds(w: nat) | DialFails(w: nat) | Append(w: nat) | Release(w: nat) | CountDown(w: nat)

  function Init(): State {
    State(Adding, 0, 0, [], [])
  }

  /** `n` is the number of addresses. */
  predicate Enabled(n: nat, s: State, e: Event) {
    match e
    case Add => s.pc.Adding? && |s.workers| < n
    case Acquire => s.pc.Acquiring? && s.taken < SLOTS
    case Spawn => s.pc.Spawning?
    case StartWait => s.pc.Adding? && |s.workers| >= n
    case WaitReturns => s.pc.Waiting? && s.waitGroup == 0
    case DialSucceeds(w) => w < |s.workers| && s.workers[w].stage.Dialing?
    case DialFails(w) => w < |s.workers| && s.workers[w].stage.Dialing?
    case Append(w) => w < |s.workers| && s.workers[w].stage.Reached?
    case Release(w) => w < |s.workers| && s.workers[w].stage.Leaving? && s.taken > 0
    case CountDown(w) => w < |s.workers| && s.workers[w].stage.Released? && s.waitGroup > 0
  }

  function Step(n: nat, s: State, e: Event): State
    requires Enabled(n, s, e)
  {
    match e
    case Add => s.(pc := Acquiring, waitGroup := s.waitGroup + 1)
    case Acquire => s.(pc := Spawning, taken := s.taken + 1)
    case Spawn => s.(pc := Adding, workers := s.workers + [Worker(Dialing, false)])
    case StartWait => s.(pc := Waiting)
    case WaitReturns => s.(pc := Returned)
    case DialSucceeds(w) => s.(workers := s.workers[w := Worker(Reached, true)])
    case DialFails(w) => s.(workers := s.workers[w := Worker(Leaving, false)])
    case Append(w) => s.(workers := s.workers[w := Worker(Leaving, s.workers[w].ok)], found := s.found + [w])
    case Release(w) => s.(workers := s.workers[w := Worker(Released, s.workers[w].ok)], taken := s.taken - 1)
    case CountDown(w) => s.(workers := s.workers[w := Worker(Done, s.workers[w].ok)], waitGroup := s.waitGroup - 1)
  }

  function Exec(n: nat, s: State, es: seq<Event>): Option<State>
    decreases |es|
  {
    if es == [] then Some(s)
    else if Enabled(n, s, es[0]) then Exec(n, Step(n, s, es[0]), es[1..])
    else None
  }

  // ---------- Counting workers ----------

  predicate HoldsSlot(w: Worker) {
    w.stage.Dialing? || w.stage.Reached? || w.stage.Leaving?
  }

  predicate Unfinished(w: Worker) {
    !w.stage.Done?
  }

  function Count(p: Worker -> bool, ws: seq<Worker>): nat {
    if ws == [] then 0
    else Count(p, ws[..|ws| - 1]) + if p(ws[|ws| - 1]) then 1 else 0
  }

  lemma {:induction false} CountUpdate(p: Worker -> bool, ws: seq<Worker>, i: nat, w: Worker)
    requires i < |ws|
    ensures Count(p, ws[i := w]) + (if p(ws[i]) then 1 else 0) == Count(p, ws) + if p(w) then 1 else 0
    decreases |ws|
  {
    var front := ws[..|ws| - 1];
    if i < |ws| - 1 {
      CountUpdate(p, front, i, w);
      assert ws[i := w][..|ws| - 1] == front[i := w];
    } else {
      assert ws[i := w][..|ws| - 1] == front;
    }
  }

  lemma CountAppend(p: Worker -> bool, ws: seq<Worker>, w: Worker)
    ensures Count(p, ws + [w]) == Count(p, ws) + if p(w) then 1 else 0
  {
    assert (ws + [w])[..|ws|] == ws;
  }

  lemma {:induction false} CountFinds(p: Worker -> bool, ws: seq<Worker>)
    ensures Count(p, ws) > 0 <==> exists i :: 0 <= i < |ws| && p(ws[i])
    decreases |ws|
  {
    if ws != [] {
      var front := ws[..|ws| - 1];
      CountFinds(p, front);
      if Count(p, front) > 0 {
        var i :| 0 <= i < |front| && p(front[i]);
        assert p(ws[i]);
      }
      if i :| 0 <= i < |ws| && p(ws[i]) && !p(ws[|ws| - 1]) {
        assert p(front[i]);
      }
    }
  }

  // ---------- The invariant ----------

  /** A slot is taken for each worker that has not freed its own, and for the one about to
      be spawned; no more than there are. */
  ghost predicate SlotsMatch(s: State) {
    && s.taken == Count(HoldsSlot, s.workers) + (if s.pc.Spawning? then 1 else 0)
    && s.taken <= SLOTS
  }

  /** The wait group counts the workers that are not done, and the one being spawned. */
  ghost predicate WaitGroupMatches(s: State) {
    s.waitGroup == Count(Unfinished, s.workers) + if s.pc.Acquiring? || s.pc.Spawning? then 1 else 0
  }

  /** An address is in the list once if its dial succeeded and its worker has gone on, and
      not otherwise. */
  ghost predicate FoundMatches(s: State) {
    forall i: nat :: multiset(s.found)[i] ==
      if i < |s.workers| && s.workers[i].ok && !s.workers[i].stage.Reached? then 1 else 0
  }

  ghost predicate Inv(n: nat, s: State) {
    SlotsMatch(s) && WaitGroupMatches(s) && FoundMatches(s) && Shape(n, s)
  }

  /** A worker knows that its dial succeeded from then on. */
  ghost predicate StagesFit(ws: seq<Worker>) {
    && (forall i :: 0 <= i < |ws| && ws[i].stage.Dialing? ==> !ws[i].ok)
    && (forall i :: 0 <= i < |ws| && ws[i].stage.Reached? ==> ws[i].ok)
  }

  /** The spawner starts no more workers than there are addresses, and waits for all. */
  ghost predicate SpawnsFit(n: nat, s: State) {
    && |s.workers| <= n
    && (s.pc.Acquiring? || s.pc.Spawning? ==> |s.workers| < n)
    && (s.pc.Waiting? || s.pc.Returned? ==> |s.workers| == n)
    && (s.pc.Returned? ==> s.waitGroup == 0)
  }

  ghost predicate Shape(n: nat, s: State) {
    StagesFit(s.workers) && SpawnsFit(n, s)
  }

  lemma StepKeepsCounts(n: nat, s: State, e: Event)
    requires Inv(n, s) && Enabled(n, s, e)
    ensures SlotsMatch(Step(n, s, e)) && WaitGroupMatches(Step(n, s, e))
  {
    if e.Spawn? {
      CountAppend(HoldsSlot, s.workers, Worker(Dialing, false));
      CountAppend(Unfinished, s.workers, Worker(Dialing, false));
    } else if e.DialSucceeds? || e.DialFails? || e.Append? || e.Release? || e.CountDown? {
      var x := Step(n, s, e).workers[e.w];
      CountUpdate(HoldsSlot, s.workers, e.w, x);
      CountUpdate(Unfinished, s.workers, e.w, x);
    }
  }

  lemma StepKeepsFound(n: nat, s: State, e: Event)
    requires Inv(n, s) && Enabled(n, s, e)
    ensures FoundMatches(Step(n, s, e))
  {}

  lemma StepKeepsStages(n: nat, s: State, e: Event)
    requires StagesFit(s.workers) && Enabled(n, s, e)
    ensures StagesFit(Step(n, s, e).workers)
  {
    var ws, ws' := s.workers, Step(n, s, e).workers;
    if e.Spawn? {
      assert forall i :: 0 <= i < |ws| ==> ws'[i] == ws[i];
    } else if e.DialSucceeds? || e.DialFails? || e.Append? || e.Release? || e.CountDown? {
      assert forall i :: 0 <= i < |ws| && i != e.w ==> ws'[i] == ws[i];
    } else {
      assert ws' == ws;
    }
  }

  lemma StepKeepsSpawns(n: nat, s: State, e: Event)
    requires SpawnsFit(n, s) && Enabled(n, s, e)
    ensures SpawnsFit(n, Step(n, s, e))
  {}

  lemma StepKeepsInv(n: nat, s: State, e: Event)
    requires Inv(n, s) && Enabled(n, s, e)
    ensures Inv(n, Step(n, s, e))
  {
    StepKeepsCounts(n, s, e);
    StepKeepsFound(n, s, e);
    StepKeepsStages(n, s, e);
    StepKeepsSpawns(n, s, e);
  }

  lemma {:induction false} RunKeepsInv(n: nat, s: State, es: seq<Event>)
    requires Inv(n, s) && Exec(n, s, es).Some?
    ensures Inv(n, Exec(n, s, es).value)
    decreases |es|
  {
    if es != [] {
      StepKeepsInv(n, s, es[0]);
      RunKeepsInv(n, Step(n, s, es[0]), es[1..]);
    }
  }

  ghost predicate Reachable(n: nat, s: State) {
    exists es: seq<Event> :: Exec(n, Init(), es) == Some(s)
  }

  lemma ReachableInv(n: nat, s: State)
    requires Reachable(n, s)
    ensures Inv(n, s)
  {
    var es: seq<Event> :| Exec(n, Init(), es) == Some(s);
    RunKeepsInv(n, Init(), es);
  }

  // ---------- What follows ----------

  /** No more than SLOTS probes are under way, and a worker never waits to free its slot or
      counts the wait group below zero. */
  lemma PoolIsBounded(n: nat, s: State)
    requires Reachable(n, s)
    ensures Count(HoldsSlot, s.workers) <= 20
    ensures forall i :: 0 <= i < |s.workers| && s.workers[i].stage.Leaving? ==> Enabled(n, s, Release(i))
    ensures forall i :: 0 <= i < |s.workers| && s.workers[i].stage.Released? ==> Enabled(n, s, CountDown(i))
  {
    ReachableInv(n, s);
    CountFinds(HoldsSlot, s.workers);
    CountFinds(Unfinished, s.workers);
  }

  /** When Wait returns every worker is done, every slot is free, and the list holds, once
      each, exactly the addresses whose dial succeeded. */
  lemma WaitReturnsComplete(n: nat, s: State)
    requires Reachable(n, s) && s.pc.Returned?
    ensures |s.workers| == n && s.taken == 0 && s.waitGroup == 0
    ensures forall i: nat :: i < n ==> s.workers[i].stage.Done?
    ensures forall i: nat :: multiset(s.found)[i] == if i < n && s.workers[i].ok then 1 else 0
  {
    ReachableInv(n, s);
    CountFinds(HoldsSlot, s.workers);
    CountFinds(Unfinished, s.workers);
  }

  // ---------- The answers are those of the dials ----------

  /** The outcome of each worker's dial is that of its one event in the history, if it has
      had one. */
  ghost predicate OutcomesMatch(past: seq<Event>, ws: seq<Worker>) {
    forall i: nat ::
      && multiset(past)[DialSucceeds(i)] == (if i < |ws| && ws[i].ok then 1 else 0)
      && multiset(past)[DialFails(i)] == (if i < |ws| && !ws[i].ok && !ws[i].stage.Dialing? then 1 else 0)
  }

  lemma OneMoreEvent(past: seq<Event>, e: Event, f: Event)
    ensures multiset(past + [e])[f] == multiset(past)[f] + if e == f then 1 else 0
  {}

  lemma StepKeepsOutcomes(n: nat, s: State, e: Event, past: seq<Event>)
    requires Inv(n, s) && Enabled(n, s, e) && OutcomesMatch(past, s.workers)
    ensures OutcomesMatch(past + [e], Step(n, s, e).workers)
  {
    var ws' := Step(n, s, e).workers;
    forall i: nat
      ensures multiset(past + [e])[DialSucceeds(i)] == (if i < |ws'| && ws'[i].ok then 1 else 0)
      ensures multiset(past + [e])[DialFails(i)] == (if i < |ws'| && !ws'[i].ok && !ws'[i].stage.Dialing? then 1 else 0)
    {
      OneMoreEvent(past, e, DialSucceeds(i));
      OneMoreEvent(past, e, DialFails(i));
    }
  }

  lemma {:induction false} RunKeepsOutcomes(n: nat, s: State, es: seq<Event>, t: State, past: seq<Event>)
    requires Inv(n, s) && OutcomesMatch(past, s.workers) && Exec(n, s, es) == Some(t)
    ensures OutcomesMatch(past + es, t.workers)
    decreases |es|
  {
    if es == [] {
      assert past + es == past;
    } else {
      StepKeepsInv(n, s, es[0]);
      StepKeepsOutcomes(n, s, es[0], past);
      RunKeepsOutcomes(n, Step(n, s, es[0]), es[1..], t, past + [es[0]]);
      HeadAndTail(past, es);
    }
  }

  /** When Wait returns, every address has been dialed once, with success or without, and the
      list holds, once each, exactly those dialed with success. */
  lemma FoundAreDialed(n: nat, es: seq<Event>, s: State)
    requires Exec(n, Init(), es) == Some(s) && s.pc.Returned?
    ensures forall i: nat :: multiset(s.found)[i] == if DialSucceeds(i) in es then 1 else 0
    ensures forall i: nat ::
              multiset(es)[DialSucceeds(i)] + multiset(es)[DialFails(i)] == if i < n then 1 else 0
  {
    WaitReturnsComplete(n, s);
    RunKeepsOutcomes(n, Init(), es, s, []);
    assert [] + es == es;
    forall i: nat ensures DialSucceeds(i) in es <==> i < n && s.workers[i].ok {
      assert DialSucceeds(i) in es <==> multiset(es)[DialSucceeds(i)] > 0;
    }
  }

  /** The pool never gets stuck: until Wait has returned, some goroutine can take a step. */
  lemma PoolNeverStuck(n: nat, s: State) returns (e: Event)
    requires Reachable(n, s) && !s.pc.Returned?
    ensures Enabled(n, s, e)
  {
    ReachableInv(n, s);
    CountFinds(HoldsSlot, s.workers);
    CountFinds(Unfinished, s.workers);
    if s.pc.Adding? {
      e := if |s.workers| < n then Add else StartWait;
    } else if s.pc.Acquiring? && s.taken < SLOTS {
      e := Acquire;
    } else if s.pc.Spawning? {
      e := Spawn;
    } else if s.pc.Waiting? && s.waitGroup == 0 {
      e := WaitReturns;
    } else {
      var i :| 0 <= i < |s.workers| && Unfinished(s.workers[i]) && (s.pc.Acquiring? ==> HoldsSlot(s.workers[i]));
      e := match s.workers[i].stage
        case Dialing => DialFails(i)
        case Reached => Append(i)
        case Leaving => Release(i)
        case Released => CountDown(i)
        case Done => Add;
    }
  }

  // ---------- The pool comes to an end ----------

  function StepsOf(w: Worker): nat {
    match w.stage
    case Dialing => 4
    case Reached => 3
    case Leaving => 2
    case Released => 1
    case Done => 0
  }

  function Work(ws: seq<Worker>): nat {
    if ws == [] then 0 else Work(ws[..|ws| - 1]) + StepsOf(ws[|ws| - 1])
  }

  lemma {:induction false} WorkUpdate(ws: seq<Worker>, i: nat, w: Worker)
    requires i < |ws|
    ensures Work(ws[i := w]) + StepsOf(ws[i]) == Work(ws) + StepsOf(w)
    decreases |ws|
  {
    var front := ws[..|ws| - 1];
    if i < |ws| - 1 {
      WorkUpdate(front, i, w);
      assert ws[i := w][..|ws| - 1] == front[i := w];
    } else {
      assert ws[i := w][..|ws| - 1] == front;
    }
  }

  /** A bound on the steps still to come. */
  function Remaining(n: nat, s: State): int {
    Work(s.workers) +
    match s.pc
    case Adding => 7 * (n - |s.workers|) + 2
    case Acquiring => 7 * (n - |s.workers|) + 1
    case Spawning => 7 * (n - |s.workers|)
    case Waiting => 1
    case Returned => 0
  }

  lemma StepUsesUp(n: nat, s: State, e: Event)
    requires Inv(n, s) && Enabled(n, s, e)
    ensures Remaining(n, Step(n, s, e)) < Remaining(n, s)
  {
    if e.Spawn? {
      var w := Worker(Dialing, false);
      assert (s.workers + [w])[..|s.workers|] == s.workers;
    } else if e.DialSucceeds? || e.DialFails? || e.Append? || e.Release? || e.CountDown? {
      WorkUpdate(s.workers, e.w, Step(n, s, e).workers[e.w]);
    }
  }

  /** Every schedule ends within 7n + 2 steps; as the pool is never stuck before that, it
      ends with Wait returning. */
  lemma {:induction false} RunIsBounded(n: nat, s: State, es: seq<Event>)
    requires Inv(n, s) && Exec(n, s, es).Some?
    ensures |es| <= Remaining(n, s)
    decreases |es|
  {
    if es != [] {
      StepUsesUp(n, s, es[0]);
      StepKeepsInv(n, s, es[0]);
      RunIsBounded(n, Step(n, s, es[0]), es[1..]);
    }
  }

  lemma PoolTerminates(n: nat, es: seq<Event>)
    requires Exec(n, Init(), es).Some?
    ensures |es| <= 7 * n + 2
  {
    RunIsBounded(n, Init(), es);
  }

  // ---------- What can happen ----------

  lemma {:induction false} ExecConcat(n: nat, s: State, es: seq<Event>, fs: seq<Event>)
    requires Exec(n, s, es).Some?
    ensures Exec(n, s, es + fs) == Exec(n, Exec(n, s, es).value, fs)
    decreases |es|
  {
    if es == [] {
      assert es + fs == fs;
    } else {
      ExecConcat(n, Step(n, s, es[0]), es[1..], fs);
      assert (es + fs)[0] == es[0] && (es + fs)[1..] == es[1..] + fs;
    }
  }

  lemma ExecSnoc(n: nat, s: State, es: seq<Event>, t: State, e: Event)
    requires Exec(n, s, es) == Some(t) && Enabled(n, t, e)
    ensures Exec(n, s, es + [e]) == Some(Step(n, t, e))
  {
    ExecConcat(n, s, es, [e]);
    assert [e][1..] == [];
  }

  /** All workers are done, and the spawner is about to go on. */
  ghost predicate Quiet(s: State) {
    s.pc.Adding? && s.waitGroup == 0 && s.taken == 0 && forall w <- s.workers :: w.stage.Done?
  }

  lemma StartWorker(n: nat, es: seq<Event>, s: State) returns (fs: seq<Event>, t: State)
    requires Exec(n, Init(), es) == Some(s) && s.pc.Adding? && |s.workers| < n && s.taken < 20
    ensures Exec(n, Init(), fs) == Some(t) && t.pc.Adding?
    ensures t.workers == s.workers + [Worker(Dialing, false)] && t.found == s.found
    ensures t.taken == s.taken + 1 && t.waitGroup == s.waitGroup + 1
    ensures fs == es + [Add] + [Acquire] + [Spawn]
  {
    ExecSnoc(n, Init(), es, s, Add);
    var u := Step(n, s, Add);
    ExecSnoc(n, Init(), es + [Add], u, Acquire);
    var v := Step(n, u, Acquire);
    ExecSnoc(n, Init(), es + [Add] + [Acquire], v, Spawn);
    fs, t := es + [Add] + [Acquire] + [Spawn], Step(n, v, Spawn);
  }

  lemma FinishWorker(n: nat, es: seq<Event>, s: State, w: nat, success: bool) returns (fs: seq<Event>, t: State)
    requires Exec(n, Init(), es) == Some(s) && s.pc.Adding? && s.taken == 1 && s.waitGroup == 1
    requires |s.workers| == w + 1 && s.workers[w].stage.Dialing?
    ensures Exec(n, Init(), fs) == Some(t) && t.pc.Adding? && t.taken == 0 && t.waitGroup == 0
    ensures t.workers == s.workers[w := Worker(Done, success)]
    ensures t.found == if success then s.found + [w] else s.found
  {
    var e := if success then DialSucceeds(w) else DialFails(w);
    ExecSnoc(n, Init(), es, s, e);
    fs, t := es + [e], Step(n, s, e);
    if success {
      ExecSnoc(n, Init(), fs, t, Append(w));
      fs, t := fs + [Append(w)], Step(n, t, Append(w));
    }
    ExecSnoc(n, Init(), fs, t, Release(w));
    fs, t := fs + [Release(w)], Step(n, t, Release(w));
    ExecSnoc(n, Init(), fs, t, CountDown(w));
    fs, t := fs + [CountDown(w)], Step(n, t, CountDown(w));
  }

  lemma {:induction false} SomeWorkersFinish(n: nat, outcome: seq<bool>, k: nat) returns (es: seq<Event>, s: State)
    requires |outcome| == n && k <= n
    ensures Exec(n, Init(), es) == Some(s) && Quiet(s) && |s.workers| == k
    ensures forall i :: 0 <= i < k ==> s.workers[i].ok == outcome[i]
    decreases k
  {
    if k == 0 {
      es, s := [], Init();
    } else {
      es, s := SomeWorkersFinish(n, outcome, k - 1);
      es, s := StartWorker(n, es, s);
      es, s := FinishWorker(n, es, s, k - 1, outcome[k - 1]);
    }
  }

  /** Every outcome of the dials can come about, and Wait then returns. */
  lemma AnyOutcomeCanHappen(n: nat, outcome: seq<bool>) returns (es: seq<Event>, s: State)
    requires |outcome| == n
    ensures Exec(n, Init(), es) == Some(s) && s.pc.Returned?
    ensures forall i: nat :: multiset(s.found)[i] == if i < n && outcome[i] then 1 else 0
  {
    es, s := SomeWorkersFinish(n, outcome, n);
    ExecSnoc(n, Init(), es, s, StartWait);
    es, s := es + [StartWait], Step(n, s, StartWait);
    ExecSnoc(n, Init(), es, s, WaitReturns);
    es, s := es + [WaitReturns], Step(n, s, WaitReturns);
    WaitReturnsComplete(n, s);
  }

  lemma {:induction false} SomeCanDial(n: nat, k: nat) returns (es: seq<Event>, s: State)
    requires k <= n && k <= 20
    ensures Exec(n, Init(), es) == Some(s) && s.pc.Adding? && s.taken == |s.workers| == k
    ensures forall w <- s.workers :: w.stage.Dialing?
    decreases k
  {
    if k == 0 {
      es, s := [], Init();
    } else {
      es, s := SomeCanDial(n, k - 1);
      es, s := StartWorker(n, es, s);
    }
  }

  /** The concurrency limit is reached: as many as 20 probes can dial at once. */
  lemma TwentyCanDial(n: nat) returns (es: seq<Event>, s: State)
    ensures Exec(n, Init(), es) == Some(s) && |s.workers| == Min(n, 20)
    ensures forall w <- s.workers :: w.stage.Dialing?
  {
    es, s := SomeCanDial(n, Min(n, 20));
  }
}
