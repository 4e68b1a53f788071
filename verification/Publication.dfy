/** publication.rs: reserving a destination, publishing a staged file onto it without replacing anything, and
    giving the reservation back. Guards on one target, late creators and a lock-respecting runtime interleave
    between system calls. */
module Publication {
  import opened Prelude

  /** The names that matter in the parent directory, plus each guard's staged file. */
  datatype Name = Target | LockName | Sidecar(i: nat) | StagedName(g: nat) | OtherName(n: nat)

  datatype Owner = OfGuard(g: nat) | OfRuntime(r: nat)

  /** Where a guard stands: the next system call it makes. */
  datatype Phase =
    | Idle
    | Checking(i: nat)       // reserve: the first i names were absent
    | Created                // its lock file exists; not locked yet
    | Locked                 // before the link count
    | Counted                // before the staging directory
    | Ready                  // reserve has returned, no publish under way
    | Publishing(i: nat)     // publish: the first i names were absent
    | Sure                   // the lock name was seen to name the held file
    | Vetted                 // the staged file was seen to be sound
    | Synced                 // the staged file is on disk
    | Opened                 // the staging directory is open; before the rename
    | Dropping               // before the lock attempt of drop
    | DropLocked             // before the comparison of drop
    | Matched                // before the unlink
    | Releasing              // before the unlock
    | Gone

  /** `file` is the inode of the open lock file. */
  datatype Guard = Guard(phase: Phase, file: Option<nat>, keep: bool)

  /** Inodes are numbered in the order of their creation. `locks` are the exclusive file locks. */
  datatype State = State(names: map<Name, nat>, locks: map<nat, Owner>, guards: map<nat, Guard>, next: nat)

  datatype Event =
    | Act(g: nat, ok: bool)             // the next call of guard g; not ok: the call fails for a reason of its own
    | Stage(g: nat)                     // its caller writes the staged file
    | Publish(g: nat, ok: bool)         // its caller calls publish; ok: parent and staged path are right
    | Drop(g: nat)                      // its caller drops it; the staging directory goes first
    | Create(name: Name)                // someone else creates a name that does not exist
    | Link(source: Name, name: Name)    // someone else links a name that does not exist to an existing file
    | Remove(name: Name)                // someone else removes a name that is not the lock name
    | RuntimeLock(r: nat, file: nat)    // a runtime locks a file it has open
    | RuntimeUnlink(r: nat)             // a runtime removes the lock name while it holds that lock
    | RuntimeUnlock(r: nat, file: nat)

  function GuardOf(s: State, g: nat): Guard {
    if g in s.guards then s.guards[g] else Guard(Idle, None, false)
  }

  function WithGuard(s: State, g: nat, guard: Guard): State {
    s.(guards := s.guards[g := guard])
  }

  function NamesOf(s: State, file: nat): set<Name> {
    set n | n in s.names && s.names[n] == file
  }

  function Links(s: State, file: nat): nat {
    |NamesOf(s, file)|
  }

  predicate Names(s: State, name: Name, file: Option<nat>) {
    name in s.names && Some(s.names[name]) == file
  }

  predicate FreeFor(s: State, file: nat, owner: Owner) {
    file in s.locks ==> s.locks[file] == owner
  }

  predicate Holds(s: State, g: nat) {
    var file := GuardOf(s, g).file;
    file.Some? && file.value in s.locks && s.locks[file.value] == OfGuard(g)
  }

  function AbsentFirst(i: nat): Name {
    if i == 0 then Target else if i == 1 then LockName else Sidecar(i - 2)
  }

  function AbsentAgain(i: nat): Name {
    if i == 0 then Target else Sidecar(i - 1)
  }

  function At(s: State, g: nat, phase: Phase): State {
    WithGuard(s, g, GuardOf(s, g).(phase := phase))
  }

  predicate InReserve(phase: Phase) {
    phase.Idle? || phase.Checking? || phase.Created? || phase.Locked? || phase.Counted?
  }

  predicate InPublish(phase: Phase) {
    phase.Publishing? || phase.Sure? || phase.Vetted? || phase.Synced? || phase.Opened?
  }

  predicate InDrop(phase: Phase) {
    phase.Dropping? || phase.DropLocked? || phase.Matched? || phase.Releasing?
  }

  /** The next system call of a guard. */
  function Next(s: State, g: nat, ok: bool): State {
    var phase := GuardOf(s, g).phase;
    if phase.Ready? || phase.Gone? then s
    else if InPublish(phase) then NextOfPublish(s, g, ok)
    else if InDrop(phase) then NextOfDrop(s, g, ok)
    else NextOfReserve(s, g, ok)
  }

  function NextOfReserve(s: State, g: nat, ok: bool): State {
    var guard := GuardOf(s, g);
    match guard.phase
    case Idle => At(s, g, if ok then Checking(0) else Gone)
    case Checking(i) =>
      if i < 5 then At(s, g, if ok && AbsentFirst(i) !in s.names then Checking(i + 1) else Gone)
      else if ok && LockName !in s.names then
        WithGuard(s.(names := s.names[LockName := s.next], next := s.next + 1), g, Guard(Created, Some(s.next), false))
      else At(s, g, Gone)
    case Created => TryLock(s, g, ok, Locked, Dropping)
    case Locked => At(s, g, if ok && guard.file.Some? && Links(s, guard.file.value) == 1 then Counted else Dropping)
    case _ => At(s, g, if ok then Ready else Dropping)
  }

  function NextOfPublish(s: State, g: nat, ok: bool): State {
    var guard := GuardOf(s, g);
    match guard.phase
    case Publishing(i) =>
      if i < 4 then At(s, g, if ok && AbsentAgain(i) !in s.names then Publishing(i + 1) else Ready)
      else At(s, g, if ok && Names(s, LockName, guard.file) && Links(s, guard.file.value) == 1 then Sure else Ready)
    case Sure =>
      At(s, g, if ok && StagedName(g) in s.names && Links(s, s.names[StagedName(g)]) == 1 then Vetted else Ready)
    case Vetted => At(s, g, if ok && StagedName(g) in s.names then Synced else Ready)
    case Synced => At(s, g, if ok then Opened else Ready)
    case _ =>
      if ok && StagedName(g) in s.names && Target !in s.names then
        WithGuard(s.(names := (s.names - {StagedName(g)})[Target := s.names[StagedName(g)]]), g,
                  guard.(phase := Ready, keep := true))
      else At(s, g, Ready)
  }

  function NextOfDrop(s: State, g: nat, ok: bool): State {
    var guard := GuardOf(s, g);
    match guard.phase
    case Dropping => if guard.keep then At(s, g, Releasing) else TryLock(s, g, ok, DropLocked, Releasing)
    case DropLocked => At(s, g, if ok && Names(s, LockName, guard.file) then Matched else Releasing)
    case Matched => WithGuard(if ok then s.(names := s.names - {LockName}) else s, g, guard.(phase := Releasing))
    case _ => WithGuard(if Holds(s, g) then s.(locks := s.locks - {guard.file.value}) else s, g, guard.(phase := Gone))
  }

  /** try_lock_exclusive: it succeeds on a free lock and on the guard's own. */
  function TryLock(s: State, g: nat, ok: bool, won: Phase, lost: Phase): State {
    var guard := GuardOf(s, g);
    if ok && guard.file.Some? && FreeFor(s, guard.file.value, OfGuard(g)) then
      WithGuard(s.(locks := s.locks[guard.file.value := OfGuard(g)]), g, guard.(phase := won))
    else At(s, g, lost)
  }

  function Step(s: State, e: Event): State {
    match e
    case Act(g, ok) => Next(s, g, ok)
    case Stage(g) =>
      if GuardOf(s, g).phase.Ready? && StagedName(g) !in s.names
      then s.(names := s.names[StagedName(g) := s.next], next := s.next + 1) else s
    case Publish(g, ok) =>
      if GuardOf(s, g).phase.Ready? && ok then WithGuard(s, g, GuardOf(s, g).(phase := Publishing(0))) else s
    case Drop(g) =>
      if GuardOf(s, g).phase.Ready?
      then WithGuard(s.(names := s.names - {StagedName(g)}), g, GuardOf(s, g).(phase := Dropping)) else s
    case Create(name) =>
      if name in s.names || name.StagedName? then s else s.(names := s.names[name := s.next], next := s.next + 1)
    case Link(source, name) =>
      if name in s.names || name.StagedName? || source !in s.names then s
      else s.(names := s.names[name := s.names[source]])
    case Remove(name) =>
      if name.LockName? || name.StagedName? then s else s.(names := s.names - {name})
    case RuntimeLock(r, file) =>
      if file < s.next && file !in s.locks then s.(locks := s.locks[file := OfRuntime(r)]) else s
    case RuntimeUnlink(r) =>
      if LockName in s.names && s.names[LockName] in s.locks && s.locks[s.names[LockName]] == OfRuntime(r)
      then s.(names := s.names - {LockName}) else s
    case RuntimeUnlock(r, file) =>
      if file in s.locks && s.locks[file] == OfRuntime(r) then s.(locks := s.locks - {file}) else s
  }

  function Run(s: State, events: seq<Event>): State
    decreases |events|
  {
    if events == [] then s else Run(Step(s, events[0]), events[1..])
  }

  lemma {:induction false} RunAppend(s: State, a: seq<Event>, b: seq<Event>)
    ensures Run(s, a + b) == Run(Run(s, a), b)
    decreases |a|
  {
    if a == [] {
      assert a + b == b;
    } else {
      RunAppend(Step(s, a[0]), a[1..], b);
      assert (a + b)[1..] == a[1..] + b;
    }
  }

  predicate HasFile(phase: Phase) {
    !phase.Idle? && !phase.Checking? && !phase.Gone?
  }

  /** Between its lock and its drop, and again between the lock of drop and the unlock, the lock is the guard's. */
  predicate MustHold(phase: Phase) {
    || phase.Locked? || phase.Counted? || phase.Ready? || InPublish(phase)
    || phase.DropLocked? || phase.Matched?
  }

  predicate MustName(phase: Phase) {
    phase.Sure? || phase.Vetted? || phase.Synced? || phase.Opened? || phase.Matched?
  }

  ghost predicate GuardInv(s: State, g: nat) {
    var guard := GuardOf(s, g);
    && (HasFile(guard.phase) ==> guard.file.Some?)
    && (guard.file.Some? ==> guard.file.value < s.next)
    && (MustHold(guard.phase) ==> Holds(s, g))
    && (MustName(guard.phase) ==> Names(s, LockName, guard.file))
    && (guard.phase.DropLocked? || guard.phase.Matched? ==> !guard.keep)
    && (guard.phase.Idle? || guard.phase.Checking? ==> guard.file.None? && !guard.keep)
  }

  ghost predicate Inv(s: State) {
    && (forall n :: n in s.names ==> s.names[n] < s.next)
    && (forall file :: file in s.locks ==> file < s.next)
    && (forall g :: GuardInv(s, g))
    && (forall g, h :: g != h ==> Apart(s, g, h))
  }

  predicate Apart(s: State, g: nat, h: nat) {
    GuardOf(s, g).file.Some? ==> GuardOf(s, g).file != GuardOf(s, h).file
  }

  predicate Fresh(s: State) {
    s.guards == map[] && s.locks == map[] && forall n :: n in s.names ==> s.names[n] < s.next
  }

  lemma FreshInv(s: State)
    requires Fresh(s)
    ensures Inv(s)
  {
  }

  lemma ReserveKeepsOwn(s: State, g: nat, ok: bool)
    requires GuardInv(s, g) && InReserve(GuardOf(s, g).phase)
    ensures GuardInv(NextOfReserve(s, g, ok), g)
  {
    hide Links, AbsentFirst;
  }

  lemma PublishKeepsOwn(s: State, g: nat, ok: bool)
    requires GuardInv(s, g) && InPublish(GuardOf(s, g).phase)
    ensures GuardInv(NextOfPublish(s, g, ok), g)
  {
    hide Links, AbsentAgain;
  }

  lemma DropKeepsOwn(s: State, g: nat, ok: bool)
    requires GuardInv(s, g) && InDrop(GuardOf(s, g).phase)
    ensures GuardInv(NextOfDrop(s, g, ok), g)
  {
    hide Links;
  }

  lemma NextKeepsOwn(s: State, g: nat, ok: bool)
    requires Inv(s)
    ensures GuardInv(Next(s, g, ok), g)
  {
    assert GuardInv(s, g);
    var phase := GuardOf(s, g).phase;
    hide NextOfReserve, NextOfPublish, NextOfDrop, GuardInv, Inv;
    if InReserve(phase) {
      ReserveKeepsOwn(s, g, ok);
    } else if InPublish(phase) {
      PublishKeepsOwn(s, g, ok);
    } else if InDrop(phase) {
      DropKeepsOwn(s, g, ok);
    }
  }

  /** What another guard h notices of a call of guard g: its own entry, its lock and the lock name stay. */
  ghost predicate Spares(s: State, t: State, g: nat, h: nat) {
    && GuardOf(t, h) == GuardOf(s, h) && s.next <= t.next
    && (Holds(s, h) ==> Holds(t, h))
    && (Names(s, LockName, GuardOf(s, h).file) ==> Names(t, LockName, GuardOf(s, h).file))
    && (GuardOf(t, g).file == GuardOf(s, g).file || GuardOf(t, g).file == Some(s.next))
  }

  lemma AtSpares(s: State, g: nat, phase: Phase, h: nat)
    requires h != g
    ensures Spares(s, At(s, g, phase), g, h)
  {
  }

  lemma TryLockSpares(s: State, g: nat, ok: bool, won: Phase, lost: Phase, h: nat)
    requires h != g && Apart(s, g, h)
    ensures Spares(s, TryLock(s, g, ok, won, lost), g, h)
  {
  }

  lemma ReserveSpares(s: State, g: nat, ok: bool, h: nat)
    requires GuardInv(s, g) && GuardInv(s, h) && Apart(s, g, h) && h != g
    ensures Spares(s, NextOfReserve(s, g, ok), g, h)
  {
    forall phase
      ensures Spares(s, At(s, g, phase), g, h)
    {
      AtSpares(s, g, phase, h);
    }
    TryLockSpares(s, g, ok, Locked, Dropping, h);
    hide Links, AbsentFirst, At, TryLock;
  }

  lemma PublishSpares(s: State, g: nat, ok: bool, h: nat)
    requires GuardInv(s, g) && GuardInv(s, h) && Apart(s, g, h) && h != g
    ensures Spares(s, NextOfPublish(s, g, ok), g, h)
  {
    forall phase
      ensures Spares(s, At(s, g, phase), g, h)
    {
      AtSpares(s, g, phase, h);
    }
    hide Links, AbsentAgain, At;
  }

  lemma DropSpares(s: State, g: nat, ok: bool, h: nat)
    requires GuardInv(s, g) && GuardInv(s, h) && Apart(s, g, h) && h != g && HasFile(GuardOf(s, g).phase)
    ensures Spares(s, NextOfDrop(s, g, ok), g, h)
  {
    forall phase
      ensures Spares(s, At(s, g, phase), g, h)
    {
      AtSpares(s, g, phase, h);
    }
    TryLockSpares(s, g, ok, DropLocked, Releasing, h);
    hide Links, At, TryLock;
  }

  /** A call of guard g changes only its own entry, its own lock, and a lock name no other guard relies on. */
  lemma NextFrame(s: State, g: nat, ok: bool, h: nat)
    requires GuardInv(s, g) && GuardInv(s, h) && Apart(s, g, h) && h != g
    ensures Spares(s, Next(s, g, ok), g, h)
  {
    hide NextOfReserve, NextOfPublish, NextOfDrop;
    ReserveSpares(s, g, ok, h);
    PublishSpares(s, g, ok, h);
    if HasFile(GuardOf(s, g).phase) {
      DropSpares(s, g, ok, h);
    }
  }

  lemma NextNames(s: State, g: nat, ok: bool)
    requires (forall n :: n in s.names ==> s.names[n] < s.next) && (forall file :: file in s.locks ==> file < s.next)
    requires GuardInv(s, g)
    ensures var t := Next(s, g, ok);
      (forall n :: n in t.names ==> t.names[n] < t.next) && (forall file :: file in t.locks ==> file < t.next)
  {
  }

  lemma NextKeepsInv(s: State, g: nat, ok: bool)
    requires Inv(s)
    ensures Inv(Next(s, g, ok))
  {
    var t := Next(s, g, ok);
    NextKeepsOwn(s, g, ok);
    assert GuardInv(s, g);
    NextNames(s, g, ok);
    hide Next;
    forall h
      ensures GuardInv(t, h)
      ensures h != g ==> Apart(t, g, h) && Apart(t, h, g)
      ensures h != g ==> GuardOf(t, h) == GuardOf(s, h)
    {
      assert GuardInv(s, h) && GuardInv(s, g);
      if h != g {
        assert Apart(s, g, h) && Apart(s, h, g);
        NextFrame(s, g, ok, h);
      }
    }
    forall h, k | h != k
      ensures Apart(t, h, k)
    {
      assert Apart(s, h, k);
    }
  }

  lemma StepKeepsInv(s: State, e: Event)
    requires Inv(s)
    ensures Inv(Step(s, e))
  {
    if e.Act? {
      NextKeepsInv(s, e.g, e.ok);
    } else {
      var t := Step(s, e);
      forall h
        ensures GuardInv(t, h)
      {
        assert GuardInv(s, h);
      }
      forall h, k | h != k
        ensures Apart(t, h, k)
      {
        assert Apart(s, h, k);
      }
    }
  }

  lemma {:induction false} RunKeepsInv(s: State, events: seq<Event>)
    requires Inv(s)
    ensures Inv(Run(s, events))
    decreases |events|
  {
    if events != [] {
      StepKeepsInv(s, events[0]);
      RunKeepsInv(Step(s, events[0]), events[1..]);
    }
  }

  /** No existing target is ever replaced or taken away, except by someone else's removal. */
  lemma TargetIsNeverReplaced(s: State, e: Event)
    requires Target in s.names && e != Remove(Target)
    ensures var t := Step(s, e); Target in t.names && t.names[Target] == s.names[Target]
  {
  }

  lemma {:induction false} RunNeverReplaces(s: State, events: seq<Event>)
    requires Target in s.names && Remove(Target) !in events
    ensures var t := Run(s, events); Target in t.names && t.names[Target] == s.names[Target]
    decreases |events|
  {
    if events != [] {
      TargetIsNeverReplaced(s, events[0]);
      RunNeverReplaces(Step(s, events[0]), events[1..]);
    }
  }

  /** Only one guard at a time has the held and named lock file that publishing needs. */
  lemma OnePublisher(s: State, g: nat, h: nat)
    requires Inv(s) && g != h && MustName(GuardOf(s, g).phase)
    ensures !MustName(GuardOf(s, h).phase) && !Names(s, LockName, GuardOf(s, h).file)
  {
    assert GuardInv(s, g) && GuardInv(s, h) && Apart(s, g, h);
  }

  /** A target that a guard makes appear is that guard's own staged file, moved there while the lock name names
      the file it holds locked; from then on the guard keeps its reservation. */
  lemma OnlyOwnIsPublished(s: State, e: Event)
    requires Inv(s) && Target !in s.names && Target in Step(s, e).names
    requires !e.Create? && !e.Link?
    ensures var t := Step(s, e);
      && e.Act? && GuardOf(s, e.g).phase.Opened?
      && StagedName(e.g) in s.names && StagedName(e.g) !in t.names
      && t.names[Target] == s.names[StagedName(e.g)]
      && Names(s, LockName, GuardOf(s, e.g).file) && Holds(s, e.g) && GuardOf(t, e.g).keep
      && t.names - {Target} == s.names - {StagedName(e.g)}
  {
    if e.Act? {
      assert GuardInv(s, e.g);
      assert Step(s, e).names - {Target} == s.names - {StagedName(e.g)};
    }
  }

  /** Whoever takes the lock name away holds the lock of the file it names; a guard does so only to its own
      file, only if it has not published, and it still holds the lock afterwards. */
  lemma LockNameIsOwners(s: State, e: Event)
    requires Inv(s) && LockName in s.names
    requires var t := Step(s, e); LockName !in t.names || t.names[LockName] != s.names[LockName]
    ensures LockName !in Step(s, e).names
    ensures e.RuntimeUnlink? || e.Act?
    ensures s.names[LockName] in s.locks
      && s.locks[s.names[LockName]] == if e.Act? then OfGuard(e.g) else OfRuntime(e.r)
    ensures e.Act? ==> var guard := GuardOf(s, e.g);
      guard.file == Some(s.names[LockName]) && !guard.keep && Holds(Step(s, e), e.g)
  {
    if e.Act? {
      assert GuardInv(s, e.g);
    }
  }

  /** g has published and its lock name names its file. */
  predicate Published(s: State, g: nat) {
    var guard := GuardOf(s, g);
    guard.keep && Target in s.names && Names(s, LockName, guard.file)
  }

  predicate Outside(e: Event) {
    e == Remove(Target) || e.RuntimeUnlink?
  }

  lemma PublishedStaysOwnCall(s: State, g: nat, ok: bool)
    requires Inv(s) && Published(s, g)
    ensures var t := Next(s, g, ok);
      GuardOf(t, g).keep && GuardOf(t, g).file == GuardOf(s, g).file && Names(t, LockName, GuardOf(s, g).file)
  {
    assert GuardInv(s, g);
    hide Links, Inv;
  }

  lemma PublishedStaysOneStep(s: State, e: Event, g: nat)
    requires Inv(s) && Published(s, g) && !Outside(e)
    ensures var t := Step(s, e);
      Published(t, g) && t.names[Target] == s.names[Target] && t.names[LockName] == s.names[LockName]
  {
    TargetIsNeverReplaced(s, e);
    assert GuardInv(s, g);
    if e.Act? {
      assert GuardInv(s, e.g);
      hide Next, GuardInv;
      if e.g == g {
        PublishedStaysOwnCall(s, g, e.ok);
      } else {
        assert Apart(s, e.g, g);
        NextFrame(s, e.g, e.ok, g);
      }
    }
  }

  /** After publication nothing that guards do, not even an error or the drop of the publisher, removes or
      changes the target or the lock name. */
  lemma {:induction false} PublicationStays(s: State, events: seq<Event>, g: nat)
    requires Inv(s) && Published(s, g) && forall e :: e in events ==> !Outside(e)
    ensures var t := Run(s, events);
      Published(t, g) && t.names[Target] == s.names[Target] && t.names[LockName] == s.names[LockName]
    decreases |events|
  {
    if events != [] {
      StepKeepsInv(s, events[0]);
      PublishedStaysOneStep(s, events[0], g);
      PublicationStays(Step(s, events[0]), events[1..], g);
    }
  }

  /** The moment of publication satisfies the premise of PublicationStays. */
  lemma PublishingReaches(s: State, g: nat)
    requires Inv(s) && GuardOf(s, g).phase.Opened? && StagedName(g) in s.names && Target !in s.names
    ensures Published(Next(s, g, true), g)
  {
    assert GuardInv(s, g);
  }

  lemma ReserveCalls(s: State, g: nat, ok: bool)
    ensures var guard, t := GuardOf(s, g), Next(s, g, ok);
      && (guard.phase.Idle? ==> t == At(s, g, if ok then Checking(0) else Gone))
      && (guard.phase.Checking? && guard.phase.i < 5 ==>
            t == At(s, g, if ok && AbsentFirst(guard.phase.i) !in s.names then Checking(guard.phase.i + 1) else Gone))
  {
  }

  lemma CreateCall(s: State, g: nat, ok: bool)
    ensures var guard, t := GuardOf(s, g), Next(s, g, ok);
      && (guard.phase.Checking? && guard.phase.i == 5 ==>
            t == if ok && LockName !in s.names
                 then WithGuard(s.(names := s.names[LockName := s.next], next := s.next + 1), g,
                                Guard(Created, Some(s.next), false))
                 else At(s, g, Gone))
  {
  }

  lemma OwnCalls(s: State, g: nat, ok: bool)
    ensures var guard, t := GuardOf(s, g), Next(s, g, ok);
      && (guard.phase.Created? ==> t == TryLock(s, g, ok, Locked, Dropping))
      && (guard.phase.Locked? && guard.file.Some? ==>
            t == At(s, g, if ok && Links(s, guard.file.value) == 1 then Counted else Dropping))
      && (guard.phase.Counted? ==> t == At(s, g, if ok then Ready else Dropping))
  {
  }

  lemma PublishCalls(s: State, g: nat, ok: bool)
    ensures var guard, t := GuardOf(s, g), Next(s, g, ok);
      && (guard.phase.Publishing? && guard.phase.i < 4 ==>
            t == At(s, g, if ok && AbsentAgain(guard.phase.i) !in s.names
                          then Publishing(guard.phase.i + 1) else Ready))
  {
  }

  lemma NameCall(s: State, g: nat, ok: bool)
    ensures var guard, t := GuardOf(s, g), Next(s, g, ok);
      && (guard.phase.Publishing? && guard.phase.i == 4 ==>
            t == At(s, g, if ok && Names(s, LockName, guard.file) && Links(s, guard.file.value) == 1
                          then Sure else Ready))
  {
  }

  lemma StagedCalls(s: State, g: nat, ok: bool)
    ensures var guard, t := GuardOf(s, g), Next(s, g, ok);
      && (guard.phase.Sure? ==>
            t == At(s, g, if ok && StagedName(g) in s.names && Links(s, s.names[StagedName(g)]) == 1
                          then Vetted else Ready))
      && (guard.phase.Vetted? ==> t == At(s, g, if ok && StagedName(g) in s.names then Synced else Ready))
      && (guard.phase.Synced? ==> t == At(s, g, if ok then Opened else Ready))
      && (guard.phase.Opened? ==>
            t == if ok && StagedName(g) in s.names && Target !in s.names
                 then WithGuard(s.(names := (s.names - {StagedName(g)})[Target := s.names[StagedName(g)]]), g,
                                guard.(phase := Ready, keep := true))
                 else At(s, g, Ready))
  {
  }

  lemma DropAnyCalls(s: State, g: nat, ok: bool)
    ensures var guard, t := GuardOf(s, g), Next(s, g, ok);
      && (guard.phase.Dropping? ==>
            t == if guard.keep then At(s, g, Releasing) else TryLock(s, g, ok, DropLocked, Releasing))
      && (guard.phase.DropLocked? ==>
            t == At(s, g, if ok && Names(s, LockName, guard.file) then Matched else Releasing))
      && (guard.phase.Matched? ==> t == At(if ok then s.(names := s.names - {LockName}) else s, g, Releasing))
      && (guard.phase.Releasing? ==>
            t == At(if Holds(s, g) then s.(locks := s.locks - {guard.file.value}) else s, g, Gone))
  {
  }

  /** The calls of an unpublished guard's drop when none of them fails. */
  lemma DropCalls(s: State, g: nat)
    ensures var guard, t := GuardOf(s, g), Next(s, g, true);
      && (guard.phase.Dropping? && !guard.keep && Holds(s, g) ==> t == At(s, g, DropLocked))
      && (guard.phase.DropLocked? ==> t == At(s, g, if Names(s, LockName, guard.file) then Matched else Releasing))
      && (guard.phase.Matched? ==> t == At(s, g, Releasing).(names := s.names - {LockName}))
      && (guard.phase.Releasing? && Holds(s, g) ==> t == At(s, g, Gone).(locks := s.locks - {guard.file.value}))
      && (guard.phase.Gone? ==> t == s)
  {
    var guard := GuardOf(s, g);
    if Holds(s, g) {
      assert s.locks[guard.file.value := OfGuard(g)] == s.locks;
    }
  }

  /** A guard that is dropped unpublished and undisturbed takes away its staged file, its lock name if that is
      still its own, and its lock, and leaves every other name and lock alone. */
  lemma DropCleans(s: State, g: nat)
    requires Inv(s) && GuardOf(s, g).phase.Ready? && !GuardOf(s, g).keep && Holds(s, g)
    ensures var t := Next(Next(Next(Next(Step(s, Drop(g)), g, true), g, true), g, true), g, true);
      var own := if Names(s, LockName, GuardOf(s, g).file) then {LockName} else {};
      t.names == s.names - ({StagedName(g)} + own) && t.locks == s.locks - {GuardOf(s, g).file.value}
  {
    var s1 := Step(s, Drop(g));
    hide Next;
    var s2 := Next(s1, g, true);
    var s3 := Next(s2, g, true);
    var s4 := Next(s3, g, true);
    DropCalls(s1, g);
    DropCalls(s2, g);
    DropCalls(s3, g);
    DropCalls(s4, g);
  }

  /** Events that are not guard g's own. */
  predicate NotOf(g: nat, events: seq<Event>) {
    forall e :: e in events ==>
      (e.Act? ==> e.g != g) && (e.Stage? ==> e.g != g) && (e.Publish? ==> e.g != g) && (e.Drop? ==> e.g != g)
  }

  lemma NextLeavesGuard(s: State, g: nat, ok: bool, h: nat)
    requires g != h
    ensures GuardOf(Next(s, g, ok), h) == GuardOf(s, h)
  {
  }

  lemma {:induction false} OthersLeaveGuard(s: State, g: nat, events: seq<Event>)
    requires NotOf(g, events)
    ensures GuardOf(Run(s, events), g) == GuardOf(s, g)
    decreases |events|
  {
    if events != [] {
      hide Next;
      if events[0].Act? {
        NextLeavesGuard(s, events[0].g, events[0].ok, g);
      }
      OthersLeaveGuard(Step(s, events[0]), g, events[1..]);
    }
  }

  /** n calls of guard g in a row, with the events of `others(i)` before call number i. */
  function Through(s: State, g: nat, others: nat -> seq<Event>, ok: nat -> bool, n: nat): State {
    if n == 0 then s else Next(Run(Through(s, g, others, ok, n - 1), others(n - 1)), g, ok(n - 1))
  }

  /** What call number n of guard g finds. */
  function Seen(s: State, g: nat, others: nat -> seq<Event>, ok: nat -> bool, n: nat): State {
    Run(Through(s, g, others, ok, n), others(n))
  }

  function Woven(g: nat, others: nat -> seq<Event>, ok: nat -> bool, n: nat): seq<Event> {
    if n == 0 then [] else Woven(g, others, ok, n - 1) + others(n - 1) + [Act(g, ok(n - 1))]
  }

  /** So an operation is one of the runs that the safety lemmas speak of. */
  lemma {:induction false} ThroughIsRun(s: State, g: nat, others: nat -> seq<Event>, ok: nat -> bool, n: nat)
    ensures Through(s, g, others, ok, n) == Run(s, Woven(g, others, ok, n))
  {
    hide Next, Run;
    if n > 0 {
      ThroughIsRun(s, g, others, ok, n - 1);
      var trace, e := Woven(g, others, ok, n - 1), Act(g, ok(n - 1));
      RunAppend(s, trace + others(n - 1), [e]);
      RunAppend(s, trace, others(n - 1));
      RunOne(Run(s, trace + others(n - 1)), e);
    } else {
      RunNothing(s);
    }
  }

  /** An operation of a guard is over. */
  predicate Ends(phase: Phase) {
    phase.Ready? || phase.Dropping? || phase.Gone?
  }

  predicate Going(s: State, g: nat, others: nat -> seq<Event>, ok: nat -> bool, n: nat) {
    forall m: nat :: 0 < m <= n ==> !Ends(GuardOf(Through(s, g, others, ok, m), g).phase)
  }

  /** t is where the operation begun in s ends: after its n-th call, and after none before. */
  predicate EndsIn(s: State, g: nat, others: nat -> seq<Event>, ok: nat -> bool, n: nat, t: State) {
    && n > 0 && Through(s, g, others, ok, n) == t && Ends(GuardOf(t, g).phase)
    && Going(s, g, others, ok, n - 1)
  }

  /** The staged file of g became the target. */
  predicate Moved(s: State, t: State, g: nat) {
    && StagedName(g) in s.names && Target !in s.names
    && t.names == (s.names - {StagedName(g)})[Target := s.names[StagedName(g)]]
  }

  lemma SameNamesNotMoved(s: State, t: State, g: nat)
    requires s.names == t.names
    ensures !Moved(s, t, g)
  {
  }

  datatype Outcome = Done | Destination | Storage | DurabilityUncertain

  /** The operations as the program writes them. Before system call number i the events `others(i)` happen, and
      `ok(i)` says whether the call works. Each operation is the calls of its guard up to its end. */
  class Directory {
    var state: State

    constructor (initial: State)
      requires Fresh(initial)
      ensures state == initial && Inv(state)
    {
      state := initial;
      FreshInv(initial);
    }

    method Others(g: nat, events: seq<Event>)
      requires Inv(state) && NotOf(g, events)
      modifies this
      ensures state == Run(old(state), events) && Inv(state) && GuardOf(state, g) == GuardOf(old(state), g)
    {
      RunKeepsInv(state, events);
      OthersLeaveGuard(state, g, events);
      for i := 0 to |events|
        invariant Run(state, events[i..]) == Run(old(state), events)
      {
        assert events[i..][1..] == events[i + 1..];
        state := Step(state, events[i]);
      }
    }

    /** What happens before call number n of an operation of guard g. */
    method Await(g: nat, others: nat -> seq<Event>, ok: nat -> bool, ghost begin: State, n: nat)
      requires Inv(state) && NotOf(g, others(n)) && Through(begin, g, others, ok, n) == state
      requires Going(begin, g, others, ok, n)
      modifies this
      ensures GuardOf(state, g) == GuardOf(old(state), g) && Inv(state)
      ensures state == Seen(begin, g, others, ok, n)
      ensures var t := Next(state, g, ok(n));
        && Inv(t) && Through(begin, g, others, ok, n + 1) == t
        && if Ends(GuardOf(t, g).phase) then EndsIn(begin, g, others, ok, n + 1, t)
           else Going(begin, g, others, ok, n + 1)
    {
      hide Next;
      Others(g, others(n));
      NextKeepsInv(state, g, ok(n));
    }

    method Move(g: nat, phase: Phase)
      modifies this
      ensures state == At(old(state), g, phase) && GuardOf(state, g) == old(GuardOf(state, g)).(phase := phase)
      ensures state.names == old(state.names)
    {
      state := At(state, g, phase);
    }

    method CreateLockFile(g: nat)
      modifies this
      ensures var was := old(state);
        state == WithGuard(was.(names := was.names[LockName := was.next], next := was.next + 1), g,
                           Guard(Created, Some(was.next), false))
      ensures GuardOf(state, g) == Guard(Created, Some(old(state).next), false)
    {
      var file := state.next;
      state := state.(names := state.names[LockName := file], next := file + 1);
      state := WithGuard(state, g, Guard(Created, Some(file), false));
    }

    method TryLockExclusive(g: nat, ok: bool, won: Phase, lost: Phase) returns (locked: bool)
      requires GuardOf(state, g).file.Some?
      modifies this
      ensures state == TryLock(old(state), g, ok, won, lost)
      ensures GuardOf(state, g) == old(GuardOf(state, g)).(phase := if locked then won else lost)
      ensures locked ==> Holds(state, g)
    {
      var file := GuardOf(state, g).file.value;
      locked := ok && FreeFor(state, file, OfGuard(g));
      if locked {
        state := state.(locks := state.locks[file := OfGuard(g)]);
        state := WithGuard(state, g, GuardOf(state, g).(phase := won));
      } else {
        state := At(state, g, lost);
      }
    }

    method RenameStaged(g: nat)
      requires StagedName(g) in state.names && Target !in state.names
      modifies this
      ensures var was := old(state);
        state == WithGuard(was.(names := (was.names - {StagedName(g)})[Target := was.names[StagedName(g)]]), g,
                           GuardOf(was, g).(phase := Ready, keep := true))
      ensures GuardOf(state, g) == old(GuardOf(state, g)).(phase := Ready, keep := true)
      ensures Moved(old(state), state, g)
    {
      var staged := state.names[StagedName(g)];
      state := state.(names := (state.names - {StagedName(g)})[Target := staged]);
      state := WithGuard(state, g, GuardOf(state, g).(phase := Ready, keep := true));
    }

    method RemoveLockName(g: nat, ok: bool)
      modifies this
      ensures state == At(if ok then old(state).(names := old(state).names - {LockName}) else old(state), g, Releasing)
      ensures GuardOf(state, g) == old(GuardOf(state, g)).(phase := Releasing)
    {
      if ok {
        state := state.(names := state.names - {LockName});
      }
      state := At(state, g, Releasing);
    }

    method Unlock(g: nat)
      requires GuardOf(state, g).file.Some?
      modifies this
      ensures var was := old(state);
        state == At(if Holds(was, g) then was.(locks := was.locks - {GuardOf(was, g).file.value}) else was, g, Gone)
      ensures GuardOf(state, g).phase.Gone? && !Holds(state, g)
    {
      if Holds(state, g) {
        state := state.(locks := state.locks - {GuardOf(state, g).file.value});
      }
      state := At(state, g, Gone);
    }

    /** The checks of reserve: the parent, then five names that must not exist. */
    method FindDestination(g: nat, others: nat -> seq<Event>, ok: nat -> bool) returns (found: bool, n: nat)
      requires Inv(state) && GuardOf(state, g).phase.Idle? && forall i :: NotOf(g, others(i))
      modifies this
      ensures Inv(state) && n <= 6
      ensures !found ==> EndsIn(old(state), g, others, ok, n, state) && GuardOf(state, g).phase.Gone?
      ensures found ==> n == 6 && Through(old(state), g, others, ok, 6) == state && Going(old(state), g, others, ok, 6)
                        && GuardOf(state, g) == Guard(Checking(5), None, false)
    {
      hide Run, Step, Next, Links, Inv, GuardInv, Through, Going, EndsIn, At, WithGuard, TryLock, GuardOf, Holds,
           Published;
      ghost var start := state;
      Begin(start, g, others, ok);
      InvOfGuard(state, g);
      Await(g, others, ok, start, 0);
      ReserveCalls(state, g, ok(0));
      if !ok(0) {
        Move(g, Gone);
        return false, 1;
      }
      Move(g, Checking(0));
      for i := 0 to 5
        invariant GuardOf(state, g) == Guard(Checking(i), None, false)
        invariant Through(start, g, others, ok, 1 + i) == state && Going(start, g, others, ok, 1 + i) && Inv(state)
      {
        Await(g, others, ok, start, 1 + i);
        ReserveCalls(state, g, ok(1 + i));
        if !ok(1 + i) || AbsentFirst(i) in state.names {
          Move(g, Gone);
          return false, 2 + i;
        }
        Move(g, Checking(i + 1));
      }
      return true, 6;
    }

    /** DestinationGuard::reserve, up to the drop of a reservation that fails. */
    method Reserve(g: nat, others: nat -> seq<Event>, ok: nat -> bool) returns (outcome: Outcome, n: nat)
      requires Inv(state) && GuardOf(state, g).phase.Idle? && forall i :: NotOf(g, others(i))
      modifies this
      ensures EndsIn(old(state), g, others, ok, n, state) && Inv(state)
      ensures outcome == if GuardOf(state, g).phase.Ready? then Done else Destination
      ensures outcome.Done? ==> !GuardOf(state, g).keep && Holds(state, g)
    {
      hide Run, Step, Next, Links, Inv, GuardInv, Through, Going, EndsIn, At, WithGuard, TryLock, GuardOf, Holds,
           Published;
      ghost var start := state;
      var found;
      found, n := FindDestination(g, others, ok);
      if !found {
        return Destination, n;
      }
      Await(g, others, ok, start, 6);
      CreateCall(state, g, ok(6));
      if !ok(6) || LockName in state.names {
        Move(g, Gone);
        return Destination, 7;
      }
      CreateLockFile(g);
      Await(g, others, ok, start, 7);
      OwnCalls(state, g, ok(7));
      var locked := TryLockExclusive(g, ok(7), Locked, Dropping);
      if !locked {
        return Destination, 8;
      }
      Await(g, others, ok, start, 8);
      OwnCalls(state, g, ok(8));
      if !ok(8) || Links(state, GuardOf(state, g).file.value) != 1 {
        Move(g, Dropping);
        return Destination, 9;
      }
      Move(g, Counted);
      Await(g, others, ok, start, 9);
      OwnCalls(state, g, ok(9));
      if !ok(9) {
        Move(g, Dropping);
        return Destination, 10;
      }
      Move(g, Ready);
      InvOfGuard(state, g);
      return Done, 10;
    }

    /** The first checks of publish: four names that must not exist. */
    method TargetStillAbsent(g: nat, others: nat -> seq<Event>, ok: nat -> bool) returns (absent: bool, n: nat)
      requires Inv(state) && GuardOf(state, g).phase == Publishing(0) && forall i :: NotOf(g, others(i))
      modifies this
      ensures Inv(state) && n <= 4
      ensures GuardOf(state, g) == old(GuardOf(state, g)).(phase := if absent then Publishing(4) else Ready)
      ensures !absent ==> EndsIn(old(state), g, others, ok, n, state)
      ensures absent ==> n == 4 && Through(old(state), g, others, ok, 4) == state && Going(old(state), g, others, ok, 4)
    {
      hide Run, Step, Next, Links, Inv, GuardInv, Through, Going, EndsIn, At, WithGuard, TryLock, GuardOf, Holds,
           Published;
      ghost var start := state;
      Begin(start, g, others, ok);
      for i := 0 to 4
        invariant GuardOf(state, g) == old(GuardOf(state, g)).(phase := Publishing(i))
        invariant Through(start, g, others, ok, i) == state && Going(start, g, others, ok, i) && Inv(state)
      {
        Await(g, others, ok, start, i);
        PublishCalls(state, g, ok(i));
        if !ok(i) || AbsentAgain(i) in state.names {
          Move(g, Ready);
          return false, i + 1;
        }
        Move(g, Publishing(i + 1));
      }
      return true, 4;
    }

    /** The destination part of publish: those names, and the lock name against the held file. */
    method StillOurs(g: nat, others: nat -> seq<Event>, ok: nat -> bool) returns (ours: bool, n: nat)
      requires Inv(state) && GuardOf(state, g).phase == Publishing(0) && forall i :: NotOf(g, others(i))
      modifies this
      ensures Inv(state) && n <= 5
      ensures GuardOf(state, g) == old(GuardOf(state, g)).(phase := if ours then Sure else Ready)
      ensures !ours ==> EndsIn(old(state), g, others, ok, n, state)
      ensures ours ==> n == 5 && Through(old(state), g, others, ok, 5) == state && Going(old(state), g, others, ok, 5)
    {
      hide Run, Step, Next, Links, Inv, GuardInv, Through, Going, EndsIn, At, WithGuard, TryLock, GuardOf, Holds,
           Published;
      ghost var start := state;
      var file := GuardOf(state, g).file;
      InvOfGuard(state, g);
      var absent;
      absent, n := TargetStillAbsent(g, others, ok);
      if !absent {
        return false, n;
      }
      Await(g, others, ok, start, 4);
      NameCall(state, g, ok(4));
      if !ok(4) || !Names(state, LockName, file) || Links(state, file.value) != 1 {
        Move(g, Ready);
        return false, 5;
      }
      Move(g, Sure);
      return true, 5;
    }

    /** DestinationGuard::publish. `right`: the parent is unchanged and `staged` is the staging database.
        `durable`: the directory could be synced afterwards. */
    method PublishStaged(g: nat, right: bool, durable: bool, others: nat -> seq<Event>, ok: nat -> bool)
      returns (outcome: Outcome, n: nat)
      requires Inv(state) && GuardOf(state, g).phase.Ready? && forall i :: NotOf(g, others(i))
      modifies this
      ensures Inv(state)
      ensures if right then EndsIn(Step(old(state), Publish(g, true)), g, others, ok, n, state) else state == old(state)
      ensures GuardOf(state, g) == old(GuardOf(state, g)).(keep := GuardOf(state, g).keep)
      ensures outcome.Destination? <==> !right || n < 6 || (n == 6 && StagedName(g) in state.names) || n == 8
      ensures outcome.Done? || outcome.DurabilityUncertain? <==>
        right && n == 9 && Moved(Seen(Step(old(state), Publish(g, true)), g, others, ok, n - 1), state, g)
      ensures outcome.Done? || outcome.DurabilityUncertain? ==> Published(state, g) && (outcome.Done? <==> durable)
      ensures outcome.Destination? || outcome.Storage? ==> GuardOf(state, g).keep == old(GuardOf(state, g).keep)
    {
      hide Run, Step, Next, Links, Inv, GuardInv, Through, Going, EndsIn, At, WithGuard, TryLock, GuardOf, Holds,
           Published;
      var guard := GuardOf(state, g);
      if !right {
        return Destination, 0;
      }
      PublishBegins(state, g);
      StepKeepsInv(state, Publish(g, true));
      Move(g, Publishing(0));
      InvOfGuard(state, g);
      ghost var start := state;
      var ours;
      ours, n := StillOurs(g, others, ok);
      if !ours {
        return Destination, n;
      }
      Await(g, others, ok, start, 5);
      StagedCalls(state, g, ok(5));
      if !ok(5) || StagedName(g) !in state.names || Links(state, state.names[StagedName(g)]) != 1 {
        outcome := if StagedName(g) in state.names then Destination else Storage;
        Move(g, Ready);
        return outcome, 6;
      }
      Move(g, Vetted);
      outcome, n := MoveStaged(g, durable, others, ok, start);
    }

    /** The end of publish: the staged file is synced, its directory opened, and the rename made that replaces
        nothing. */
    method MoveStaged(g: nat, durable: bool, others: nat -> seq<Event>, ok: nat -> bool, ghost start: State)
      returns (outcome: Outcome, n: nat)
      requires Inv(state) && GuardOf(state, g).phase.Vetted? && forall i :: NotOf(g, others(i))
      requires Through(start, g, others, ok, 6) == state && Going(start, g, others, ok, 6)
      modifies this
      ensures Inv(state) && EndsIn(start, g, others, ok, n, state) && 7 <= n <= 9
      ensures GuardOf(state, g) == old(GuardOf(state, g)).(phase := Ready, keep := GuardOf(state, g).keep)
      ensures outcome.Destination? <==> n == 8
      ensures outcome.Done? || outcome.DurabilityUncertain? <==>
        n == 9 && Moved(Seen(start, g, others, ok, n - 1), state, g)
      ensures outcome.Done? || outcome.DurabilityUncertain? ==> Published(state, g) && (outcome.Done? <==> durable)
      ensures outcome.Destination? || outcome.Storage? ==> GuardOf(state, g).keep == old(GuardOf(state, g).keep)
    {
      hide Run, Step, Next, Links, Inv, GuardInv, Through, Going, EndsIn, At, WithGuard, TryLock, GuardOf, Holds,
           Published, Seen, Moved;
      Await(g, others, ok, start, 6);
      StagedCalls(state, g, ok(6));
      if !ok(6) || StagedName(g) !in state.names {
        Move(g, Ready);
        return Storage, 7;
      }
      Move(g, Synced);
      Await(g, others, ok, start, 7);
      StagedCalls(state, g, ok(7));
      if !ok(7) {
        Move(g, Ready);
        return Destination, 8;
      }
      Move(g, Opened);
      Await(g, others, ok, start, 8);
      StagedCalls(state, g, ok(8));
      if !ok(8) || StagedName(g) !in state.names || Target in state.names {
        ghost var before := state;
        Move(g, Ready);
        SameNamesNotMoved(before, state, g);
        return Storage, 9;
      }
      PublishingReaches(state, g);
      RenameStaged(g);
      return if durable then Done else DurabilityUncertain, 9;
    }

    /** Reservation::drop. */
    method DropReservation(g: nat, others: nat -> seq<Event>, ok: nat -> bool) returns (n: nat)
      requires Inv(state) && GuardOf(state, g).phase.Dropping? && forall i :: NotOf(g, others(i))
      modifies this
      ensures EndsIn(old(state), g, others, ok, n, state) && Inv(state)
      ensures GuardOf(state, g).phase.Gone? && !Holds(state, g)
    {
      hide Run, Step, Next, Links, Inv, GuardInv, Through, Going, EndsIn, At, WithGuard, TryLock, GuardOf, Holds,
           Published;
      ghost var start := state;
      Begin(start, g, others, ok);
      InvOfGuard(state, g);
      Await(g, others, ok, start, 0);
      DropAnyCalls(state, g, ok(0));
      n := 1;
      if GuardOf(state, g).keep {
        Move(g, Releasing);
      } else {
        var locked := TryLockExclusive(g, ok(0), DropLocked, Releasing);
        if locked {
          Await(g, others, ok, start, 1);
          DropAnyCalls(state, g, ok(1));
          n := 2;
          if ok(1) && Names(state, LockName, GuardOf(state, g).file) {
            Move(g, Matched);
            Await(g, others, ok, start, 2);
            DropAnyCalls(state, g, ok(2));
            n := 3;
            RemoveLockName(g, ok(2));
          } else {
            Move(g, Releasing);
          }
        }
      }
      Await(g, others, ok, start, n);
      DropAnyCalls(state, g, ok(n));
      n := n + 1;
      Unlock(g);
    }
  }

  lemma PublishBegins(s: State, g: nat)
    requires GuardOf(s, g).phase.Ready?
    ensures Step(s, Publish(g, true)) == At(s, g, Publishing(0))
  {
  }

  lemma InvOfGuard(s: State, g: nat)
    requires Inv(s)
    ensures var phase := GuardOf(s, g).phase;
      phase.Created? || phase.Locked? || phase.Publishing? || phase.Dropping? ==> GuardOf(s, g).file.Some?
    ensures GuardOf(s, g).phase.Ready? ==> Holds(s, g)
    ensures GuardOf(s, g).phase.Idle? ==> GuardOf(s, g) == Guard(Idle, None, false)
  {
    assert GuardInv(s, g);
  }

  lemma RunNothing(s: State)
    ensures Run(s, []) == s
  {
  }

  lemma RunOne(s: State, e: Event)
    ensures Run(s, [e]) == Step(s, e)
  {
    hide Next;
    assert [e][1..] == [];
  }

  lemma Begin(s: State, g: nat, others: nat -> seq<Event>, ok: nat -> bool)
    ensures Through(s, g, others, ok, 0) == s && Going(s, g, others, ok, 0)
  {
  }
}
