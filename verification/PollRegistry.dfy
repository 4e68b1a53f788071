/** Poll ownership: the mutex-held key set and drain flag of OAuthWork, the guard each task owns, and the
    task tracker that drain waits for. */
module PollRegistry {

  type Key = string

  datatype Work = Work(draining: bool, keys: set<Key>, tasks: map<nat, Key>)
  datatype Admission = Admitted | AtCapacity | Overlap

  /** oauth_poll up to the spawn: refuse while draining or full, refuse an owned key, else own it. */
  function Admit(w: Work, maxInflight: nat, task: nat, key: Key): (Work, Admission) {
    if w.draining || |w.keys| >= maxInflight then (w, AtCapacity)
    else if key in w.keys then (w, Overlap)
    else (w.(keys := w.keys + {key}, tasks := w.tasks[task := key]), Admitted)
  }

  /** A task ends, whether by result, timeout, panic or abort: its future drops, and with it the guard. */
  function Exit(w: Work, task: nat): Work {
    if task in w.tasks then w.(keys := w.keys - {w.tasks[task]}, tasks := w.tasks - {task}) else w
  }

  datatype Action = Poll(task: nat, key: Key) | End(task: nat) | BeginDrain

  function Step(w: Work, maxInflight: nat, a: Action): Work {
    match a
    case Poll(task, key) => if task in w.tasks then w else Admit(w, maxInflight, task, key).0
    case End(task) => Exit(w, task)
    case BeginDrain => w.(draining := true)
  }

  function Run(w: Work, maxInflight: nat, actions: seq<Action>): Work
    decreases |actions|
  {
    if actions == [] then w else Run(Step(w, maxInflight, actions[0]), maxInflight, actions[1..])
  }

  const IDLE := Work(false, {}, map[])

  /** drain_cookie_oauth returns: the tracker is closed and has no task left. */
  predicate Drained(w: Work) {
    w.draining && w.tasks == map[]
  }

  /** Every owned key has exactly one live task, every live task owns its key, and the set is bounded. */
  ghost predicate Owned(w: Work, maxInflight: nat) {
    && |w.keys| <= maxInflight
    && (forall k :: k in w.keys ==> exists t :: t in w.tasks && w.tasks[t] == k)
    && (forall t :: t in w.tasks ==> w.tasks[t] in w.keys)
    && (forall t, u :: t in w.tasks && u in w.tasks && t != u ==> w.tasks[t] != w.tasks[u])
  }

  lemma AdmitKeepsOwned(w: Work, maxInflight: nat, task: nat, key: Key)
    requires Owned(w, maxInflight) && task !in w.tasks
    ensures Owned(Admit(w, maxInflight, task, key).0, maxInflight)
  {
    var v := Admit(w, maxInflight, task, key).0;
    if v != w {
      forall k | k in v.keys
        ensures exists t :: t in v.tasks && v.tasks[t] == k
      {
        if k in w.keys {
          var t :| t in w.tasks && w.tasks[t] == k;
          assert v.tasks[t] == k;
        } else {
          assert v.tasks[task] == k;
        }
      }
    }
  }

  lemma ExitKeepsOwned(w: Work, maxInflight: nat, task: nat)
    requires Owned(w, maxInflight)
    ensures Owned(Exit(w, task), maxInflight)
  {
    var v := Exit(w, task);
    if task in w.tasks {
      assert v.keys + {w.tasks[task]} == w.keys;
      forall k | k in v.keys
        ensures exists t :: t in v.tasks && v.tasks[t] == k
      {
        var t :| t in w.tasks && w.tasks[t] == k;
        assert v.tasks[t] == k;
      }
    }
  }

  lemma StepKeepsOwned(w: Work, maxInflight: nat, a: Action)
    requires Owned(w, maxInflight)
    ensures Owned(Step(w, maxInflight, a), maxInflight)
  {
    match a
    case Poll(task, key) =>
      if task !in w.tasks {
        AdmitKeepsOwned(w, maxInflight, task, key);
      }
    case End(task) => ExitKeepsOwned(w, maxInflight, task);
    case BeginDrain =>
  }

  /** In every run the in-flight keys stay within `maxInflight`, each owned by exactly one live task. */
  lemma {:induction false} OwnershipHolds(w: Work, maxInflight: nat, actions: seq<Action>)
    requires Owned(w, maxInflight)
    ensures Owned(Run(w, maxInflight, actions), maxInflight)
    decreases |actions|
  {
    if actions != [] {
      StepKeepsOwned(w, maxInflight, actions[0]);
      OwnershipHolds(Step(w, maxInflight, actions[0]), maxInflight, actions[1..]);
    }
  }

  /** After drain began no run accepts a poll: its tasks are among those that were live, and still the same. */
  lemma {:induction false} DrainAdmitsNothing(w: Work, maxInflight: nat, actions: seq<Action>)
    requires w.draining
    ensures var v := Run(w, maxInflight, actions);
      && v.draining
      && forall t :: t in v.tasks ==> t in w.tasks && v.tasks[t] == w.tasks[t]
    decreases |actions|
  {
    if actions != [] {
      DrainAdmitsNothing(Step(w, maxInflight, actions[0]), maxInflight, actions[1..]);
    }
  }

  /** When drain returns, no key is owned, and nothing that follows can own one again. */
  lemma DrainReleasesEverything(maxInflight: nat, actions: seq<Action>, after: seq<Action>)
    requires Drained(Run(IDLE, maxInflight, actions))
    ensures Run(IDLE, maxInflight, actions).keys == {}
    ensures Run(Run(IDLE, maxInflight, actions), maxInflight, after).keys == {}
  {
    var w := Run(IDLE, maxInflight, actions);
    OwnershipHolds(IDLE, maxInflight, actions);
    OwnershipHolds(w, maxInflight, after);
    DrainAdmitsNothing(w, maxInflight, after);
    var v := Run(w, maxInflight, after);
    assert v.tasks.Keys == {};
  }

  /** A released key can be polled again: the exit of its one owner frees exactly that key. */
  lemma ExitFreesExactlyItsKey(w: Work, maxInflight: nat, task: nat)
    requires Owned(w, maxInflight) && task in w.tasks
    ensures forall k :: k in w.keys <==> k in Exit(w, task).keys || k == w.tasks[task]
    ensures w.tasks[task] !in Exit(w, task).keys
    ensures Exit(Exit(w, task), task) == Exit(w, task)
  {
  }

  lemma OneTaskMore(tasks: map<nat, Key>, task: nat, key: Key)
    requires task !in tasks
    ensures |tasks[task := key]| == |tasks| + 1
  {
    var more := tasks[task := key];
    assert more.Keys == tasks.Keys + {task};
    assert |more| == |more.Keys| && |tasks| == |tasks.Keys|;
  }

  lemma OneTaskLess(tasks: map<nat, Key>, task: nat)
    requires task in tasks
    ensures |tasks - {task}| == |tasks| - 1
  {
    OneTaskMore(tasks - {task}, task, tasks[task]);
    assert (tasks - {task})[task := tasks[task]] == tasks;
  }

  lemma StepCounts(w: Work, maxInflight: nat, a: Action)
    requires Owned(w, maxInflight) && |w.keys| == |w.tasks|
    ensures var v := Step(w, maxInflight, a); |v.keys| == |v.tasks| && (v.draining <==> w.draining || a.BeginDrain?)
  {
    assert a.End? && a.task in w.tasks ==> w.tasks[a.task] in w.keys;
    hide Owned;
    match a
    case Poll(task, key) =>
      if task !in w.tasks {
        OneTaskMore(w.tasks, task, key);
      }
    case End(task) =>
      if task in w.tasks {
        OneTaskLess(w.tasks, task);
      }
    case BeginDrain =>
  }

  lemma {:induction false} RunCounts(w: Work, maxInflight: nat, actions: seq<Action>)
    requires Owned(w, maxInflight) && |w.keys| == |w.tasks|
    ensures var v := Run(w, maxInflight, actions);
      |v.keys| == |v.tasks| && (v.draining <==> w.draining || BeginDrain in actions)
    decreases |actions|
  {
    hide Owned, Step;
    if actions != [] {
      StepKeepsOwned(w, maxInflight, actions[0]);
      StepCounts(w, maxInflight, actions[0]);
      RunCounts(Step(w, maxInflight, actions[0]), maxInflight, actions[1..]);
    }
  }

  /** In every run a poll is admitted exactly when drain has not begun, fewer tasks than the maximum are live, and
      none of them polls this key; otherwise nothing changes, and an owned key is told apart from a full service. */
  lemma AdmissionIsExact(maxInflight: nat, actions: seq<Action>, task: nat, key: Key)
    requires task !in Run(IDLE, maxInflight, actions).tasks
    ensures var w := Run(IDLE, maxInflight, actions); var (v, admission) := Admit(w, maxInflight, task, key);
      var room := BeginDrain !in actions && |w.tasks| < maxInflight;
      var free := forall t :: t in w.tasks ==> w.tasks[t] != key;
      && admission == (if !room then AtCapacity else if !free then Overlap else Admitted)
      && v.tasks == (if room && free then w.tasks[task := key] else w.tasks) && v.draining == w.draining
  {
    OwnershipHolds(IDLE, maxInflight, actions);
    RunCounts(IDLE, maxInflight, actions);
  }

  class OAuthWork {
    const maxInflight: nat
    var draining: bool
    var keys: set<Key>
    var tasks: map<nat, Key>

    ghost function State(): Work reads this {
      Work(draining, keys, tasks)
    }

    constructor (maxInflight: nat)
      ensures State() == IDLE && this.maxInflight == maxInflight
    {
      this.maxInflight := maxInflight;
      draining, keys, tasks := false, {}, map[];
    }

    method Spawn(task: nat, key: Key) returns (admission: Admission)
      requires task !in tasks
      modifies this
      ensures (State(), admission) == Admit(old(State()), maxInflight, task, key)
    {
      if draining || |keys| >= maxInflight {
        return AtCapacity;
      }
      if key in keys {
        return Overlap;
      }
      keys := keys + {key};
      tasks := tasks[task := key];
      return Admitted;
    }

    method DropGuard(task: nat)
      requires task in tasks
      modifies this
      ensures State() == Exit(old(State()), task)
    {
      keys := keys - {tasks[task]};
      tasks := tasks - {task};
    }

    method CloseAdmission()
      modifies this
      ensures State() == old(State()).(draining := true)
    {
      draining := true;
    }
  }
}
