/** When the operations of Publication succeed: call by call and name by name, for every interleaving with others,
    and what that comes to when nobody interferes. */
module PublicationOutcomes {
  import opened Prelude
  import opened Publication

  type Interference = nat -> seq<Event>
  type Answers = nat -> bool

  /** The file has exactly one name. */
  predicate OneName(names: map<Name, nat>, file: nat) {
    exists n :: n in names && names[n] == file && forall m :: m in names && names[m] == file ==> m == n
  }

  lemma LinksAreNames(s: State, file: nat)
    ensures Links(s, file) == 1 <==> OneName(s.names, file)
  {
    var links := NamesOf(s, file);
    if |links| == 1 {
      var n :| n in links;
      assert |links - {n}| == 0;
      forall m | m in s.names && s.names[m] == file
        ensures m == n
      {
        assert m in links && m !in links - {n};
      }
      assert n in s.names && s.names[n] == file;
    }
    if OneName(s.names, file) {
      var n :| n in s.names && s.names[n] == file && forall m :: m in s.names && s.names[m] == file ==> m == n;
      assert links == {n} && |links| == 1;
    }
  }

  /** Call number j of guard g, seen from the state it finds. */
  lemma CallSeen(s: State, g: nat, others: Interference, ok: Answers, j: nat)
    requires NotOf(g, others(j))
    ensures GuardOf(Seen(s, g, others, ok, j), g) == GuardOf(Through(s, g, others, ok, j), g)
    ensures Through(s, g, others, ok, j + 1) == Next(Seen(s, g, others, ok, j), g, ok(j))
  {
    hide Next, Run;
    OthersLeaveGuard(Through(s, g, others, ok, j), g, others(j));
  }

  /** The first of n calls that does not pass, or n. */
  lemma FirstFailure(passes: nat -> bool, n: nat) returns (j: nat)
    ensures j <= n && (forall i: nat :: i < j ==> passes(i)) && (j < n ==> !passes(j))
  {
    j := 0;
    while j < n && passes(j)
      invariant j <= n && forall i: nat :: i < j ==> passes(i)
    {
      j := j + 1;
    }
  }

  // ----- reserve -----

  /** What call number j of reserve needs. */
  predicate ReserveCall(s: State, g: nat, others: Interference, ok: Answers, j: nat) {
    var seen, file := Seen(s, g, others, ok, j), Seen(s, g, others, ok, 6).next;
    && ok(j)
    && (j == 1 ==> Target !in seen.names) && (j == 2 || j == 6 ==> LockName !in seen.names)
    && (j == 3 ==> Sidecar(0) !in seen.names) && (j == 4 ==> Sidecar(1) !in seen.names)
    && (j == 5 ==> Sidecar(2) !in seen.names)
    && (j == 7 ==> FreeFor(seen, file, OfGuard(g)))
    && (j == 8 ==> OneName(seen.names, file))
  }

  function ReservePhase(j: nat): Phase {
    if j == 0 then Idle else if j < 7 then Checking(j - 1)
    else if j == 7 then Created else if j == 8 then Locked else if j == 9 then Counted else Ready
  }

  lemma CheckMoves(s: State, g: nat, others: Interference, ok: Answers, j: nat)
    requires j < 7 && NotOf(g, others(j)) && GuardOf(Through(s, g, others, ok, j), g).phase == ReservePhase(j)
    ensures var guard := GuardOf(Through(s, g, others, ok, j + 1), g);
      if ReserveCall(s, g, others, ok, j)
      then guard.phase == ReservePhase(j + 1) && (j == 6 ==> guard.file == Some(Seen(s, g, others, ok, 6).next))
      else guard.phase.Gone?
  {
    hide Next, Run, Through, Seen, OneName, FreeFor;
    var seen := Seen(s, g, others, ok, j);
    CallSeen(s, g, others, ok, j);
    if j < 6 {
      ReserveCalls(seen, g, ok(j));
    } else {
      CreateCall(seen, g, ok(j));
    }
  }

  lemma OwnMoves(s: State, g: nat, others: Interference, ok: Answers, j: nat)
    requires 7 <= j < 10 && NotOf(g, others(j)) && GuardOf(Through(s, g, others, ok, j), g).phase == ReservePhase(j)
    requires GuardOf(Through(s, g, others, ok, j), g).file == Some(Seen(s, g, others, ok, 6).next)
    ensures var guard := GuardOf(Through(s, g, others, ok, j + 1), g);
      if ReserveCall(s, g, others, ok, j)
      then guard.phase == ReservePhase(j + 1) && guard.file == Some(Seen(s, g, others, ok, 6).next)
      else guard.phase.Dropping?
  {
    hide Next, Run, Through, Seen, OneName, FreeFor, Links;
    var seen := Seen(s, g, others, ok, j);
    CallSeen(s, g, others, ok, j);
    OwnCalls(seen, g, ok(j));
    LinksAreNames(seen, Seen(s, g, others, ok, 6).next);
  }

  lemma ReserveCallMoves(s: State, g: nat, others: Interference, ok: Answers, j: nat)
    requires j < 10 && NotOf(g, others(j)) && GuardOf(Through(s, g, others, ok, j), g).phase == ReservePhase(j)
    requires j > 6 ==> GuardOf(Through(s, g, others, ok, j), g).file == Some(Seen(s, g, others, ok, 6).next)
    ensures var guard := GuardOf(Through(s, g, others, ok, j + 1), g);
      if ReserveCall(s, g, others, ok, j)
      then guard.phase == ReservePhase(j + 1) && (j >= 6 ==> guard.file == Some(Seen(s, g, others, ok, 6).next))
      else guard.phase.Gone? || guard.phase.Dropping?
  {
    hide Through, Seen, ReserveCall, GuardOf;
    if j < 7 {
      CheckMoves(s, g, others, ok, j);
    } else {
      OwnMoves(s, g, others, ok, j);
    }
  }

  lemma {:induction false} ReserveReaches(s: State, g: nat, others: Interference, ok: Answers, j: nat)
    requires j <= 10 && GuardOf(s, g).phase.Idle? && forall i :: NotOf(g, others(i))
    requires forall i: nat :: i < j ==> ReserveCall(s, g, others, ok, i)
    ensures var guard := GuardOf(Through(s, g, others, ok, j), g);
      guard.phase == ReservePhase(j) && (j > 6 ==> guard.file == Some(Seen(s, g, others, ok, 6).next))
  {
    hide ReserveCall, Seen, Through;
    if j > 0 {
      ReserveReaches(s, g, others, ok, j - 1);
      ReserveCallMoves(s, g, others, ok, j - 1);
    } else {
      Begin(s, g, others, ok);
    }
  }

  lemma ReserveEnds(s: State, g: nat, others: Interference, ok: Answers, n: nat, t: State)
    requires GuardOf(s, g).phase.Idle? && forall i :: NotOf(g, others(i))
    requires EndsIn(s, g, others, ok, n, t)
    ensures GuardOf(t, g).phase.Ready? <==> forall j: nat :: j < 10 ==> ReserveCall(s, g, others, ok, j)
    ensures GuardOf(t, g).phase.Ready? ==> n == 10
  {
    hide Through, Seen, Run, Next, ReserveCall;
    var passes := (i: nat) => ReserveCall(s, g, others, ok, i);
    var j := FirstFailure(passes, 10);
    assert forall i: nat :: passes(i) <==> ReserveCall(s, g, others, ok, i);
    ReserveReaches(s, g, others, ok, j);
    ReserveStays(s, g, others, ok, j);
    if j < 10 {
      ReserveCallMoves(s, g, others, ok, j);
      assert n == j + 1;
    } else {
      assert n == 10;
    }
  }

  /** reserve succeeds exactly when all its ten calls work, each of the five names is absent when it is looked for,
      the lock name is still absent when its file is created, and that file is then free to lock and has one name. */
  lemma ReserveIsDoneIff(s: State, g: nat, others: Interference, ok: Answers, n: nat, t: State)
    requires GuardOf(s, g).phase.Idle? && forall i :: NotOf(g, others(i))
    requires EndsIn(s, g, others, ok, n, t)
    ensures GuardOf(t, g).phase.Ready? <==>
      && (forall j: nat :: j < 10 ==> ok(j))
      && Target !in Seen(s, g, others, ok, 1).names
      && LockName !in Seen(s, g, others, ok, 2).names
      && Sidecar(0) !in Seen(s, g, others, ok, 3).names
      && Sidecar(1) !in Seen(s, g, others, ok, 4).names
      && Sidecar(2) !in Seen(s, g, others, ok, 5).names
      && var made := Seen(s, g, others, ok, 6);
         && LockName !in made.names
         && (made.next in Seen(s, g, others, ok, 7).locks ==>
               Seen(s, g, others, ok, 7).locks[made.next] == OfGuard(g))
         && OneName(Seen(s, g, others, ok, 8).names, made.next)
    ensures GuardOf(t, g).phase.Ready? ==> n == 10
  {
    ReserveEnds(s, g, others, ok, n, t);
    var passed := (i: nat) => ReserveCall(s, g, others, ok, i);
    if GuardOf(t, g).phase.Ready? {
      assert passed(1) && passed(2) && passed(3) && passed(4) && passed(5) && passed(6) && passed(7) && passed(8);
      forall i: nat | i < 10
        ensures ok(i)
      {
        assert passed(i);
      }
    }
    hide Through, Seen, Run, Next, OneName, EndsIn;
  }

  /** The operation is still going after every call up to number j. */
  lemma ReserveStays(s: State, g: nat, others: Interference, ok: Answers, j: nat)
    requires j <= 10 && GuardOf(s, g).phase.Idle? && forall i :: NotOf(g, others(i))
    requires forall i: nat :: i < j ==> ReserveCall(s, g, others, ok, i)
    ensures forall m: nat :: 0 < m <= j && m < 10 ==> !Ends(GuardOf(Through(s, g, others, ok, m), g).phase)
  {
    hide ReserveCall, Through, Seen;
    forall m: nat | 0 < m <= j && m < 10
      ensures !Ends(GuardOf(Through(s, g, others, ok, m), g).phase)
    {
      ReserveReaches(s, g, others, ok, m);
    }
  }

  /** What reserve has done to the directory after j successful calls that nobody disturbed. */
  predicate Quiet(s: State, t: State, j: nat) {
    && t.names == (if j <= 6 then s.names else s.names[LockName := s.next])
    && t.next == (if j <= 6 then s.next else s.next + 1)
    && (j <= 7 ==> t.locks == s.locks)
  }

  lemma QuietCheck(s: State, seen: State, g: nat, ok: bool, j: nat)
    requires j < 10 && Quiet(s, seen, j) && GuardOf(seen, g).phase == ReservePhase(j)
    requires j > 6 ==> GuardOf(seen, g).file.Some?
    requires !Ends(GuardOf(Next(seen, g, ok), g).phase) || GuardOf(Next(seen, g, ok), g).phase.Ready?
    ensures Quiet(s, Next(seen, g, ok), j + 1)
  {
    ReserveCalls(seen, g, ok);
    CreateCall(seen, g, ok);
    OwnCalls(seen, g, ok);
    hide Next, Links, FreeFor;
  }

  lemma {:induction false} QuietReserve(s: State, g: nat, others: Interference, ok: Answers, j: nat)
    requires j <= 10 && GuardOf(s, g).phase.Idle? && forall i :: others(i) == []
    requires forall i: nat :: i < j ==> ReserveCall(s, g, others, ok, i)
    ensures Quiet(s, Through(s, g, others, ok, j), j)
    ensures Seen(s, g, others, ok, j) == Through(s, g, others, ok, j)
  {
    hide ReserveCall, Seen, Through, Quiet, Next, Run;
    SeenQuietly(s, g, others, ok, j);
    if j > 0 {
      QuietReserve(s, g, others, ok, j - 1);
      ReserveReaches(s, g, others, ok, j - 1);
      ReserveReaches(s, g, others, ok, j);
      CallSeen(s, g, others, ok, j - 1);
      QuietCheck(s, Seen(s, g, others, ok, j - 1), g, ok(j - 1), j - 1);
    } else {
      QuietStart(s, g, others, ok);
    }
  }

  lemma QuietStart(s: State, g: nat, others: Interference, ok: Answers)
    ensures Through(s, g, others, ok, 0) == s && Quiet(s, s, 0)
  {
  }

  lemma SeenQuietly(s: State, g: nat, others: Interference, ok: Answers, j: nat)
    requires others(j) == []
    ensures Seen(s, g, others, ok, j) == Through(s, g, others, ok, j)
  {
    RunNothing(Through(s, g, others, ok, j));
  }

  predicate AllAbsent(names: map<Name, nat>) {
    Target !in names && LockName !in names && Sidecar(0) !in names && Sidecar(1) !in names && Sidecar(2) !in names
  }

  lemma QuietCall(s: State, g: nat, others: Interference, ok: Answers, j: nat)
    requires Inv(s) && j < 10
    requires Quiet(s, Seen(s, g, others, ok, j), j)
    requires j > 6 ==> Quiet(s, Seen(s, g, others, ok, 6), 6)
    ensures ok(j) && AllAbsent(s.names) ==> ReserveCall(s, g, others, ok, j)
    ensures ReserveCall(s, g, others, ok, j) ==>
      && ok(j) && (j == 1 ==> Target !in s.names) && (j == 2 ==> LockName !in s.names)
      && (j == 3 ==> Sidecar(0) !in s.names) && (j == 4 ==> Sidecar(1) !in s.names)
      && (j == 5 ==> Sidecar(2) !in s.names)
  {
    hide Seen, GuardInv, Apart;
    var names := Seen(s, g, others, ok, j).names;
    if j == 8 && AllAbsent(s.names) {
      assert LockName in names && names[LockName] == s.next;
    }
  }

  /** Left alone, reserve succeeds exactly when its calls work and none of the five names exists. */
  lemma UndisturbedReserve(s: State, g: nat, others: Interference, ok: Answers, n: nat, t: State)
    requires Inv(s) && GuardOf(s, g).phase.Idle? && forall i :: others(i) == []
    requires EndsIn(s, g, others, ok, n, t)
    ensures GuardOf(t, g).phase.Ready? <==>
      && (forall j: nat :: j < 10 ==> ok(j))
      && Target !in s.names && LockName !in s.names
      && Sidecar(0) !in s.names && Sidecar(1) !in s.names && Sidecar(2) !in s.names
  {
    hide Through, Seen, Run, Next, EndsIn, ReserveCall, Quiet, Inv;
    ReserveEnds(s, g, others, ok, n, t);
    var passes := (i: nat) => ReserveCall(s, g, others, ok, i);
    var j := FirstFailure(passes, 10);
    assert forall i: nat :: passes(i) <==> ReserveCall(s, g, others, ok, i);
    forall i: nat | i <= j && i < 10
      ensures ok(i) && AllAbsent(s.names) ==> ReserveCall(s, g, others, ok, i)
      ensures ReserveCall(s, g, others, ok, i) ==>
        && ok(i) && (i == 1 ==> Target !in s.names) && (i == 2 ==> LockName !in s.names)
        && (i == 3 ==> Sidecar(0) !in s.names) && (i == 4 ==> Sidecar(1) !in s.names)
        && (i == 5 ==> Sidecar(2) !in s.names)
    {
      QuietReserve(s, g, others, ok, i);
      if i > 6 {
        QuietReserve(s, g, others, ok, 6);
      }
      QuietCall(s, g, others, ok, i);
    }
    if j == 10 {
      assert passes(1) && passes(2) && passes(3) && passes(4) && passes(5);
    }
  }

  // ----- publish -----

  /** What call number j of publish needs. */
  predicate PublishCall(s: State, g: nat, others: Interference, ok: Answers, j: nat) {
    var seen, file, staged := Seen(s, g, others, ok, j), GuardOf(s, g).file, StagedName(g);
    && ok(j)
    && (j == 0 ==> Target !in seen.names) && (j == 1 ==> Sidecar(0) !in seen.names)
    && (j == 2 ==> Sidecar(1) !in seen.names) && (j == 3 ==> Sidecar(2) !in seen.names)
    && (j == 4 ==> LockName in seen.names && Some(seen.names[LockName]) == file
                   && OneName(seen.names, seen.names[LockName]))
    && (j == 5 ==> staged in seen.names && OneName(seen.names, seen.names[staged]))
    && (j == 6 || j == 8 ==> staged in seen.names)
    && (j == 8 ==> Target !in seen.names)
  }

  function PublishPhase(j: nat): Phase {
    if j < 5 then Publishing(j) else if j == 5 then Sure else if j == 6 then Vetted
    else if j == 7 then Synced else if j == 8 then Phase.Opened else Ready
  }

  lemma PublishCallMoves(s: State, g: nat, others: Interference, ok: Answers, j: nat)
    requires j < 9 && NotOf(g, others(j))
    requires GuardOf(Through(s, g, others, ok, j), g) == GuardOf(s, g).(phase := PublishPhase(j))
    ensures var guard := GuardOf(Through(s, g, others, ok, j + 1), g);
      if PublishCall(s, g, others, ok, j)
      then guard == GuardOf(s, g).(phase := PublishPhase(j + 1), keep := GuardOf(s, g).keep || j == 8)
      else guard.phase.Ready?
    ensures Moved(Seen(s, g, others, ok, j), Through(s, g, others, ok, j + 1), g)
      <==> j == 8 && PublishCall(s, g, others, ok, j)
  {
    hide Next, Run, Through, Seen, OneName, Links;
    var seen := Seen(s, g, others, ok, j);
    CallSeen(s, g, others, ok, j);
    PublishCalls(seen, g, ok(j));
    NameCall(seen, g, ok(j));
    StagedCalls(seen, g, ok(j));
    if LockName in seen.names {
      LinksAreNames(seen, seen.names[LockName]);
    }
    if StagedName(g) in seen.names {
      LinksAreNames(seen, seen.names[StagedName(g)]);
    }
  }

  lemma {:induction false} PublishReaches(s: State, g: nat, others: Interference, ok: Answers, j: nat)
    requires j <= 8 && GuardOf(s, g).phase == Publishing(0) && forall i :: NotOf(g, others(i))
    requires forall i: nat :: i < j ==> PublishCall(s, g, others, ok, i)
    ensures GuardOf(Through(s, g, others, ok, j), g) == GuardOf(s, g).(phase := PublishPhase(j))
  {
    hide PublishCall, Seen, Through;
    if j > 0 {
      PublishReaches(s, g, others, ok, j - 1);
      PublishCallMoves(s, g, others, ok, j - 1);
    } else {
      Begin(s, g, others, ok);
    }
  }

  lemma PublishEnds(s: State, g: nat, others: Interference, ok: Answers, n: nat, t: State)
    requires GuardOf(s, g).phase == Publishing(0) && forall i :: NotOf(g, others(i))
    requires EndsIn(s, g, others, ok, n, t)
    ensures Moved(Seen(s, g, others, ok, n - 1), t, g) <==> forall j: nat :: j < 9 ==> PublishCall(s, g, others, ok, j)
    ensures Moved(Seen(s, g, others, ok, n - 1), t, g) ==> n == 9
  {
    hide Through, Seen, Run, Next, PublishCall, Moved;
    var passes := (i: nat) => PublishCall(s, g, others, ok, i);
    var j := FirstFailure(passes, 8);
    assert forall i: nat :: passes(i) <==> PublishCall(s, g, others, ok, i);
    forall m: nat | m <= j
      ensures GuardOf(Through(s, g, others, ok, m), g) == GuardOf(s, g).(phase := PublishPhase(m))
    {
      PublishReaches(s, g, others, ok, m);
    }
    PublishCallMoves(s, g, others, ok, j);
    assert n == j + 1;
  }

  /** publish moves the staged file onto the target exactly when all its nine calls work, target and sidecars are
      absent when they are looked for, the lock name then names the guard's own file and that file has no other name,
      the staged file is there with one name, and at the rename it still is and the target still is not. */
  lemma PublishIsDoneIff(s: State, g: nat, others: Interference, ok: Answers, n: nat, t: State)
    requires GuardOf(s, g).phase == Publishing(0) && forall i :: NotOf(g, others(i))
    requires EndsIn(s, g, others, ok, n, t)
    ensures var named, vetted := Seen(s, g, others, ok, 4).names, Seen(s, g, others, ok, 5).names;
      var last := Seen(s, g, others, ok, 8).names;
      Moved(Seen(s, g, others, ok, n - 1), t, g) <==>
      && (forall j: nat :: j < 9 ==> ok(j))
      && Target !in Seen(s, g, others, ok, 0).names
      && Sidecar(0) !in Seen(s, g, others, ok, 1).names
      && Sidecar(1) !in Seen(s, g, others, ok, 2).names
      && Sidecar(2) !in Seen(s, g, others, ok, 3).names
      && LockName in named && Some(named[LockName]) == GuardOf(s, g).file && OneName(named, named[LockName])
      && StagedName(g) in vetted && OneName(vetted, vetted[StagedName(g)])
      && StagedName(g) in Seen(s, g, others, ok, 6).names
      && StagedName(g) in last && Target !in last
  {
    hide Through, Seen, Run, Next, OneName, Moved, Links;
    PublishEnds(s, g, others, ok, n, t);
    var passed := (i: nat) => PublishCall(s, g, others, ok, i);
    if Moved(Seen(s, g, others, ok, n - 1), t, g) {
      assert passed(0) && passed(1) && passed(2) && passed(3) && passed(4) && passed(5) && passed(6) && passed(8);
      forall i: nat | i < 9
        ensures ok(i)
      {
        assert passed(i);
      }
    }
  }

  lemma CallsKeepNames(seen: State, g: nat, ok: bool, j: nat)
    requires j < 8 && GuardOf(seen, g).phase == PublishPhase(j)
    ensures Next(seen, g, ok).names == seen.names
  {
    PublishCalls(seen, g, ok);
    NameCall(seen, g, ok);
    StagedCalls(seen, g, ok);
    hide Next, Links;
  }

  lemma {:induction false} QuietPublish(s: State, g: nat, others: Interference, ok: Answers, j: nat)
    requires j <= 8 && GuardOf(s, g).phase == Publishing(0) && forall i :: others(i) == []
    requires forall i: nat :: i < j ==> PublishCall(s, g, others, ok, i)
    ensures Seen(s, g, others, ok, j).names == s.names
  {
    hide PublishCall, Seen, Through, Next, Run;
    SeenQuietly(s, g, others, ok, j);
    if j > 0 {
      QuietPublish(s, g, others, ok, j - 1);
      PublishReaches(s, g, others, ok, j - 1);
      CallSeen(s, g, others, ok, j - 1);
      CallsKeepNames(Seen(s, g, others, ok, j - 1), g, ok(j - 1), j - 1);
    } else {
      Begin(s, g, others, ok);
    }
  }

  /** Left alone, publish succeeds exactly when its calls work, target and sidecars are absent, and lock name and
      staged file are the guard's own, each the only name of its file. */
  lemma UndisturbedPublish(s: State, g: nat, others: Interference, ok: Answers, n: nat, t: State)
    requires GuardOf(s, g).phase == Publishing(0) && forall i :: others(i) == []
    requires EndsIn(s, g, others, ok, n, t)
    ensures var names := s.names;
      Moved(Seen(s, g, others, ok, n - 1), t, g) <==>
      && (forall j: nat :: j < 9 ==> ok(j))
      && Target !in names && Sidecar(0) !in names && Sidecar(1) !in names && Sidecar(2) !in names
      && LockName in names && Some(names[LockName]) == GuardOf(s, g).file && OneName(names, names[LockName])
      && StagedName(g) in names && OneName(names, names[StagedName(g)])
  {
    hide Through, Seen, Run, Next, OneName, Moved, Links, PublishCall;
    PublishEnds(s, g, others, ok, n, t);
    var passes := (i: nat) => PublishCall(s, g, others, ok, i);
    var j := FirstFailure(passes, 9);
    assert forall i: nat :: passes(i) <==> PublishCall(s, g, others, ok, i);
    forall i: nat | i <= j && i < 9
      ensures Seen(s, g, others, ok, i).names == s.names
    {
      QuietPublish(s, g, others, ok, i);
    }
    QuietPublishMeans(s, g, others, ok, j);
  }

  lemma QuietPublishMeans(s: State, g: nat, others: Interference, ok: Answers, j: nat)
    requires j <= 9 && forall i: nat :: i < j ==> PublishCall(s, g, others, ok, i)
    requires j < 9 ==> !PublishCall(s, g, others, ok, j)
    requires forall i: nat :: i <= j && i < 9 ==> Seen(s, g, others, ok, i).names == s.names
    ensures var names := s.names;
      j == 9 <==>
      && (forall j: nat :: j < 9 ==> ok(j))
      && Target !in names && Sidecar(0) !in names && Sidecar(1) !in names && Sidecar(2) !in names
      && LockName in names && Some(names[LockName]) == GuardOf(s, g).file && OneName(names, names[LockName])
      && StagedName(g) in names && OneName(names, names[StagedName(g)])
  {
    hide Through, Seen, Run, Next, OneName;
    if j == 9 {
      var passed := (i: nat) => PublishCall(s, g, others, ok, i);
      assert passed(0) && passed(1) && passed(2) && passed(3) && passed(4) && passed(5);
      forall i: nat | i < 9
        ensures ok(i)
      {
        assert passed(i);
      }
    }
  }

  // ----- drop -----

  /** Call number j of a drop, from the phase it finds. */
  lemma DropCallMoves(s: State, g: nat, others: Interference, ok: Answers, j: nat)
    requires NotOf(g, others(j))
    ensures var guard, seen := GuardOf(Through(s, g, others, ok, j), g), Seen(s, g, others, ok, j);
      var t := Through(s, g, others, ok, j + 1);
      && (guard.phase.Dropping? && guard.file.Some? ==>
            GuardOf(t, g) == guard.(phase := if !guard.keep && ok(j) && FreeFor(seen, guard.file.value, OfGuard(g))
                                             then DropLocked else Releasing))
      && (guard.phase.DropLocked? ==>
            GuardOf(t, g) == guard.(phase := if ok(j) && Names(seen, LockName, guard.file) then Matched else Releasing))
      && (guard.phase.Releasing? ==> GuardOf(t, g).phase.Gone?)
      && (guard.phase.Gone? ==> GuardOf(t, g).phase.Gone?)
      && (guard.phase.Matched? ==> t.names == if ok(j) then seen.names - {LockName} else seen.names)
      && ((InDrop(guard.phase) && !guard.phase.Matched?) || guard.phase.Gone? ==> t.names == seen.names)
  {
    hide Run, Through, Seen, Links;
    CallSeen(s, g, others, ok, j);
    hide NextOfReserve, NextOfPublish;
  }

  lemma SeenKeepsInv(s: State, g: nat, others: Interference, ok: Answers, j: nat)
    requires Inv(s)
    ensures Inv(Seen(s, g, others, ok, j))
  {
    hide Inv, Run, Next, Through;
    ThroughIsRun(s, g, others, ok, j);
    RunKeepsInv(s, Woven(g, others, ok, j));
    RunKeepsInv(Through(s, g, others, ok, j), others(j));
  }

  /** drop takes the lock name away, with its third call, exactly when the guard has not published, its calls work,
      the lock of its file is free for it, and the lock name then still names that file. */
  lemma DropUnlinksIff(s: State, g: nat, others: Interference, ok: Answers)
    requires Inv(s) && GuardOf(s, g).phase.Dropping? && GuardOf(s, g).file.Some? && forall i :: NotOf(g, others(i))
    ensures var guard, before, after := GuardOf(s, g), Seen(s, g, others, ok, 2), Through(s, g, others, ok, 3);
      var locks, names := Seen(s, g, others, ok, 0).locks, Seen(s, g, others, ok, 1).names;
      LockName in before.names && LockName !in after.names <==>
        && !guard.keep && ok(0) && ok(1) && ok(2)
        && (guard.file.value in locks ==> locks[guard.file.value] == OfGuard(g))
        && LockName in names && Some(names[LockName]) == guard.file
  {
    hide Run, Through, Seen, Inv, Next;
    Begin(s, g, others, ok);
    DropCallMoves(s, g, others, ok, 0);
    DropCallMoves(s, g, others, ok, 1);
    DropCallMoves(s, g, others, ok, 2);
    CallSeen(s, g, others, ok, 2);
    SeenKeepsInv(s, g, others, ok, 2);
    if GuardOf(Seen(s, g, others, ok, 2), g).phase.Matched? {
      NamedWhenMatched(Seen(s, g, others, ok, 2), g);
    }
  }

  lemma NamedWhenMatched(s: State, g: nat)
    requires Inv(s) && GuardOf(s, g).phase.Matched?
    ensures LockName in s.names
  {
    assert GuardInv(s, g);
  }
}
