/** The YouTube device-flow sessions: each poll is a first transaction, a provider call and a second
    transaction, interleaved freely with other polls, cleanup, new sessions and foreign cookie writes.

    Times are whole seconds of one clock that all transactions read and that does not run backwards. `asked` is
    the time a poll's caller passed in; the transactions run later. */
module DeviceFlow {
  import opened Prelude
  import CookieTable

  type Key = string
  type Content = string

  const SESSION_TTL := 1800
  const ACTOR_SESSIONS := 8
  const TOTAL_SESSIONS := 10000

  /** The bounds of OAuthPollConfig, and the quota-checked cookie write (None when the quota refuses); the
      protocol's promises hold for every such write. */
  datatype Config = Config(
    budget: int, retention: int, write: (CookieTable.Table, int, Content, int) -> Option<CookieTable.Table>)

  predicate ValidConfig(cfg: Config) {
    61 <= cfg.budget <= 300 && 60 <= cfg.retention <= 86400
  }

  datatype Session = Session(user: int, expires: int, interval: int, next: int, generation: int, ready: Option<Content>)

  datatype Database = Database(sessions: map<Key, Session>, cookies: CookieTable.Table)

  /** An accepted poll: what its first transaction captured. */
  datatype Poll = Poll(
    key: Key, actor: int, asked: int, generation: int, interval: int, ready: Option<Content>, expires: int)

  /** `Ready` carries the encoded credential, or None when encoding is refused. */
  datatype Outcome = Pending | SlowDown | Expired | Failed | Ready(encoded: Option<Content>)

  datatype Status = IsPending | IsExpired | IsError | IsOk
  datatype First = Refused | Answer(status: Status) | Accepted(poll: Poll)
  datatype Second = Denied | Changed | Invalid | Full | Reply(status: Status)

  function Lease(cfg: Config, asked: int): int {
    asked + cfg.budget + 1
  }

  function Clamp(x: int, low: int, high: int): int {
    if x < low then low else if x > high then high else x
  }

  // ----- the transactions -----

  function Alive(sessions: map<Key, Session>, now: int): (live: map<Key, Session>)
    ensures forall k :: k in live <==> k in sessions && sessions[k].expires > now
    ensures forall k :: k in live ==> live[k] == sessions[k]
  {
    map k | k in sessions && sessions[k].expires > now :: sessions[k]
  }

  function OwnedBy(sessions: map<Key, Session>, user: int): set<Key> {
    set k | k in sessions && sessions[k].user == user
  }

  /** The second transaction of oauth_start; None when the session capacity is used up. */
  function Open(db: Database, key: Key, user: int, expiresIn: int, interval: int, now: int): Option<Database> {
    var live := Alive(db.sessions, now);
    if |live| >= TOTAL_SESSIONS || |OwnedBy(live, user)| >= ACTOR_SESSIONS then None
    else
      var row := Session(user, now + Clamp(expiresIn, 1, SESSION_TTL), Clamp(interval, 1, 60), now, 0, None);
      Some(db.(sessions := live[key := row]))
  }

  function Begin(cfg: Config, db: Database, key: Key, actor: int, asked: int, now: int,
                 authorized: bool): (Database, First) {
    if !authorized then (db, Refused)
    else if key !in db.sessions then (db, Answer(IsExpired))
    else
      var row := db.sessions[key];
      if row.user != actor then (db, Refused)
      else if row.expires <= now then (db.(sessions := db.sessions - {key}), Answer(IsExpired))
      else if row.ready.None? && row.next > now then (db, Answer(IsPending))
      else
        var lease := Lease(cfg, asked);
        var leased := row.(generation := row.generation + 1, next := lease,
                           expires := if row.ready.None? then Max(row.expires, lease) else row.expires);
        (db.(sessions := db.sessions[key := leased]),
         Accepted(Poll(key, actor, asked, row.generation + 1, row.interval, row.ready, row.expires)))
  }

  /** Whether the second transaction still finds the poll's session. */
  predicate Found(db: Database, poll: Poll, now: int) {
    poll.key in db.sessions && db.sessions[poll.key].user == poll.actor && db.sessions[poll.key].expires > now
  }

  function SlowerInterval(interval: int, outcome: Outcome): int {
    if outcome.SlowDown? then Min(interval + 5, 60) else interval
  }

  function Finish(cfg: Config, db: Database, poll: Poll, outcome: Outcome, now: int, authorized: bool): (Database,
                  Second) {
    if !authorized then (db, Denied)
    else if !Found(db, poll, now) then (db, Changed)
    else
      var row := db.sessions[poll.key];
      match outcome
      case Ready(encoded) =>
        if row.ready.None? && encoded.None? then (db, Invalid)
        else
          var content := if row.ready.Some? then row.ready.value else encoded.value;
          var expires := if row.ready.Some? then row.expires else now + cfg.retention;
          var kept := row.(ready := Some(content), expires := expires);
          var stored := cfg.write(db.cookies, poll.actor, content, now);
          if stored.None? then (db.(sessions := db.sessions[poll.key := kept]), Full)
          else (Database(db.sessions - {poll.key}, stored.value), Reply(IsOk))
      case _ =>
        if row.generation != poll.generation || row.ready.Some? then (db, Changed)
        else if outcome.Expired? then (db.(sessions := db.sessions - {poll.key}), Reply(IsExpired))
        else
          var interval := SlowerInterval(poll.interval, outcome);
          var paced := row.(expires := poll.expires, next := now + interval,
                            interval := if outcome.Failed? then row.interval else interval);
          (db.(sessions := db.sessions[poll.key := paced]), Reply(if outcome.Failed? then IsError else IsPending))
  }

  // ----- histories -----

  /** What the outside could observe of one service, oldest first. */
  datatype Event =
    | Opened(key: Key, at: int, expires: int, interval: int)
    | Called(key: Key, asked: int, at: int)
    | Answered(key: Key, at: int, slower: bool)
    | Won(key: Key, at: int, content: Content)
    | Stored(key: Key, at: int, content: Content)

  datatype History = Start | Then(past: History, event: Event)

  predicate WasOpened(h: History, k: Key) {
    h.Then? && (if h.event.Opened? && h.event.key == k then true else WasOpened(h.past, k))
  }

  /** The device expiry the provider granted. */
  function Granted(h: History, k: Key): int {
    if h.Start? then 0 else if h.event.Opened? && h.event.key == k then h.event.expires else Granted(h.past, k)
  }

  /** RFC 8628 section 3.5: the granted interval, five seconds longer after each slow_down, at most 60. */
  function IntervalOf(h: History, k: Key): int {
    if h.Start? then 0
    else if h.event.key != k then IntervalOf(h.past, k)
    else match h.event
      case Opened(_, _, _, interval) => interval
      case Answered(_, _, slower) => if slower then Min(IntervalOf(h.past, k) + 5, 60) else IntervalOf(h.past, k)
      case _ => IntervalOf(h.past, k)
  }

  /** When the provider may next be called: at once after opening, the interval after an accepted answer,
      the lease after a call that has no accepted answer yet. */
  function Due(cfg: Config, h: History, k: Key): int {
    if h.Start? then 0
    else if h.event.key != k then Due(cfg, h.past, k)
    else match h.event
      case Opened(_, at, _, _) => at
      case Called(_, asked, _) => Lease(cfg, asked)
      case Answered(_, at, _) => at + IntervalOf(h, k)
      case _ => Due(cfg, h.past, k)
  }

  datatype Win = Win(at: int, content: Content)

  function Winner(h: History, k: Key): Option<Win> {
    if h.Start? then None
    else if h.event.Won? && h.event.key == k then Some(Win(h.event.at, h.event.content))
    else Winner(h.past, k)
  }

  function StoredFor(h: History, k: Key): Option<Content> {
    if h.Start? then None
    else if h.event.Stored? && h.event.key == k then Some(h.event.content)
    else StoredFor(h.past, k)
  }

  function LastTime(h: History): int {
    if h.Start? then 0 else h.event.at
  }

  /** The protocol's promises, as a property of a history alone. */
  predicate Promised(cfg: Config, h: History) {
    h.Then? ==>
      && Promised(cfg, h.past)
      && (h.past.Then? ==> LastTime(h.past) <= h.event.at)
      && var past, k := h.past, h.event.key;
         match h.event
         case Opened(_, at, expires, interval) =>
           !WasOpened(past, k) && at < expires <= at + SESSION_TTL && 1 <= interval <= 60
         case Called(_, asked, at) =>
           // paced, only while the granted device code lives, and never after a success
           WasOpened(past, k) && at >= Due(cfg, past, k) && asked <= at < Granted(past, k) && Winner(past, k).None?
         case Answered(_, at, _) =>
           WasOpened(past, k) && Winner(past, k).None?
         case Won(_, at, _) =>
           WasOpened(past, k) && Winner(past, k).None?
         case Stored(_, at, content) =>
           // a session writes the cookie table at most once, and what it writes is the first success, in time
           && StoredFor(past, k).None? && Winner(past, k).Some? && Winner(past, k).value.content == content
           && at < Winner(past, k).value.at + cfg.retention
  }

  // ----- runs -----

  datatype System = System(db: Database, polls: map<nat, Poll>, clock: int, history: History)

  datatype Action =
    | OpenSession(key: Key, user: int, expiresIn: int, interval: int)
    | Cleanup
    | BeginPoll(task: nat, key: Key, actor: int, asked: int, authorized: bool)
    | FinishPoll(task: nat, outcome: Outcome, authorized: bool)
    | Abandon(task: nat)
    | ForeignWrite(cookies: CookieTable.Table)

  /** What one accepted poll adds to the history: a provider call, unless a success is already staged. */
  function CallEvent(h: History, poll: Poll, now: int): History {
    if poll.ready.None? then Then(h, Called(poll.key, poll.asked, now)) else h
  }

  function FinishEvents(h: History, db: Database, poll: Poll, outcome: Outcome, now: int, second: Second): History {
    var staged := if poll.key in db.sessions then db.sessions[poll.key].ready else None;
    if outcome.Ready? && (second.Full? || second == Reply(IsOk)) then
      var content := if staged.Some? then staged else outcome.encoded;
      if content.None? then h
      else
        var won := if staged.Some? then h else Then(h, Won(poll.key, now, content.value));
        if second.Full? then won else Then(won, Stored(poll.key, now, content.value))
    else if second == Reply(IsPending) || second == Reply(IsError)
    then Then(h, Answered(poll.key, now, outcome.SlowDown?))
    else h
  }

  /** One step at time `now`. An action that cannot happen leaves the system as it is. A session key is
      drawn fresh; a poll is handed the current outcome of its captured success when it has one. */
  function Step(cfg: Config, s: System, a: Action, now: int): System {
    if now < s.clock then s
    else match a
      case OpenSession(key, user, expiresIn, interval) =>
        var made := Open(s.db, key, user, expiresIn, interval, now);
        if WasOpened(s.history, key) || made.None? then s.(clock := now)
        else
          var row := made.value.sessions[key];
          s.(db := made.value, clock := now, history := Then(s.history, Opened(key, now, row.expires, row.interval)))
      case Cleanup =>
        s.(db := s.db.(sessions := Alive(s.db.sessions, now)), clock := now)
      case BeginPoll(task, key, actor, asked, authorized) =>
        if task in s.polls || asked > now then s
        else
          var (db, first) := Begin(cfg, s.db, key, actor, asked, now, authorized);
          if first.Accepted? then System(db, s.polls[task := first.poll], now, CallEvent(s.history, first.poll, now))
          else s.(db := db, clock := now)
      case FinishPoll(task, outcome, authorized) =>
        if task !in s.polls || (s.polls[task].ready.Some? && !outcome.Ready?) then s
        else
          var poll := s.polls[task];
          var (db, second) := Finish(cfg, s.db, poll, outcome, now, authorized);
          System(db, s.polls - {task}, now, FinishEvents(s.history, s.db, poll, outcome, now, second))
      case Abandon(task) => s.(polls := s.polls - {task}, clock := now)
      case ForeignWrite(cookies) => s.(db := s.db.(cookies := cookies), clock := now)
  }

  function Run(cfg: Config, s: System, steps: seq<(Action, int)>): System
    decreases |steps|
  {
    if steps == [] then s else Run(cfg, Step(cfg, s, steps[0].0, steps[0].1), steps[1..])
  }

  function Empty(cookies: CookieTable.Table, clock: int): System {
    System(Database(map[], cookies), map[], clock, Start)
  }

  // ----- the invariant -----

  ghost predicate SessionInv(cfg: Config, h: History, k: Key, row: Session) {
    && WasOpened(h, k)
    && StoredFor(h, k).None?
    && row.interval == IntervalOf(h, k) && 1 <= row.interval <= 60
    && (row.ready.None? <==> Winner(h, k).None?)
    && (row.ready.None? ==>
          && row.next == Due(cfg, h, k)
          && (row.expires == Granted(h, k)
              || (row.expires == row.next && Granted(h, k) < row.expires <= Granted(h, k) + cfg.budget)))
    && (row.ready.Some? ==>
          && row.ready.value == Winner(h, k).value.content
          && row.expires == Winner(h, k).value.at + cfg.retention)
  }

  ghost predicate PollInv(cfg: Config, s: System, p: Poll) {
    var h, k, lease := s.history, p.key, Lease(cfg, p.asked);
    && p.asked <= s.clock
    && WasOpened(h, k)
    && (p.ready.Some? ==> Winner(h, k).Some? && Winner(h, k).value.content == p.ready.value)
    && (p.ready.None? ==> p.expires == Granted(h, k))
    && (k in s.db.sessions ==>
          var row := s.db.sessions[k];
          && row.user == p.actor
          && p.generation <= row.generation
          && (p.ready.None? && row.ready.None? && p.generation == row.generation ==>
                row.interval == p.interval && row.next == lease && row.expires >= lease))
    // until its lease ends, a poll's session can only be taken from it by a success
    && (p.ready.None? && Winner(h, k).None? && s.clock < lease ==>
          k in s.db.sessions && s.db.sessions[k].generation == p.generation)
  }

  /** A session that is gone: its success was stored, or it had none staged, or its retention is over. */
  ghost predicate GoneInv(cfg: Config, s: System, k: Key) {
    Winner(s.history, k).Some? ==>
      StoredFor(s.history, k).Some? || s.clock >= Winner(s.history, k).value.at + cfg.retention
  }

  /** The part of the invariant that speaks of the sessions and the history. */
  ghost predicate SessionsInv(cfg: Config, s: System) {
    && Promised(cfg, s.history)
    && (s.history.Then? ==> LastTime(s.history) <= s.clock)
    && (forall k :: k in s.db.sessions ==> SessionInv(cfg, s.history, k, s.db.sessions[k]))
    && (forall k :: WasOpened(s.history, k) && k !in s.db.sessions ==> GoneInv(cfg, s, k))
  }

  /** The part that speaks of the polls in flight. */
  ghost predicate PollsInv(cfg: Config, s: System) {
    && (forall t :: t in s.polls ==> PollInv(cfg, s, s.polls[t]))
    && (forall t, u :: t in s.polls && u in s.polls && t != u && s.polls[t].key == s.polls[u].key ==>
          s.polls[t].generation != s.polls[u].generation)
  }

  ghost predicate Inv(cfg: Config, s: System) {
    SessionsInv(cfg, s) && PollsInv(cfg, s)
  }

  /** What a kept history says of one session: only an opened session wins, and only its win is stored. */
  lemma {:induction false} PromisedOrder(cfg: Config, h: History, k: Key)
    requires Promised(cfg, h)
    ensures Winner(h, k).Some? ==> WasOpened(h, k)
    ensures StoredFor(h, k).Some? ==> Winner(h, k).Some? && Winner(h, k).value.content == StoredFor(h, k).value
  {
    if h.Then? {
      PromisedOrder(cfg, h.past, k);
    }
  }

  lemma ClockKeepsInv(cfg: Config, s: System, now: int)
    requires ValidConfig(cfg) && Inv(cfg, s) && now >= s.clock
    ensures Inv(cfg, s.(clock := now))
  {
  }

  lemma CleanupKeepsInv(cfg: Config, s: System, now: int)
    requires ValidConfig(cfg) && Inv(cfg, s) && now >= s.clock
    ensures Inv(cfg, Step(cfg, s, Cleanup, now))
  {
  }

  lemma InsertKeepsInv(cfg: Config, s: System, key: Key, user: int, expiresIn: int, interval: int)
    requires ValidConfig(cfg) && Inv(cfg, s) && !WasOpened(s.history, key)
    requires 1 <= expiresIn <= SESSION_TTL && 1 <= interval <= 60
    ensures var now := s.clock;
      var row := Session(user, now + expiresIn, interval, now, 0, None);
      Inv(cfg, System(s.db.(sessions := s.db.sessions[key := row]), s.polls, now,
                      Then(s.history, Opened(key, now, now + expiresIn, interval))))
  {
    PromisedOrder(cfg, s.history, key);
  }

  lemma OpenKeepsInv(cfg: Config, s: System, key: Key, user: int, expiresIn: int, interval: int, now: int)
    requires ValidConfig(cfg) && Inv(cfg, s) && now >= s.clock
    ensures Inv(cfg, Step(cfg, s, OpenSession(key, user, expiresIn, interval), now))
  {
    hide Inv, WasOpened;
    var made := Open(s.db, key, user, expiresIn, interval, now);
    if WasOpened(s.history, key) || made.None? {
      ClockKeepsInv(cfg, s, now);
    } else {
      CleanupKeepsInv(cfg, s, now);
      InsertKeepsInv(cfg, Step(cfg, s, Cleanup, now), key, user, Clamp(expiresIn, 1, SESSION_TTL),
                     Clamp(interval, 1, 60));
    }
  }

  /** A step that drops one session and nothing else of the database. */
  lemma DropKeepsInv(cfg: Config, s: System, key: Key, now: int)
    requires ValidConfig(cfg) && Inv(cfg, s) && now >= s.clock
    requires key in s.db.sessions && s.db.sessions[key].expires <= now
    ensures Inv(cfg, s.(db := s.db.(sessions := s.db.sessions - {key}), clock := now))
  {
  }

  lemma AcceptKeepsSessions(cfg: Config, s: System, task: nat, key: Key, actor: int, asked: int, now: int)
    requires ValidConfig(cfg) && Inv(cfg, s) && now >= s.clock && task !in s.polls && asked <= now
    requires Begin(cfg, s.db, key, actor, asked, now, true).1.Accepted?
    ensures SessionsInv(cfg, Step(cfg, s, BeginPoll(task, key, actor, asked, true), now))
  {
    var t := Step(cfg, s, BeginPoll(task, key, actor, asked, true), now);
    assert SessionInv(cfg, s.history, key, s.db.sessions[key]);
    assert SessionInv(cfg, t.history, key, t.db.sessions[key]);
    hide PollInv;
  }

  lemma AcceptKeepsPolls(cfg: Config, s: System, task: nat, key: Key, actor: int, asked: int, now: int)
    requires ValidConfig(cfg) && Inv(cfg, s) && now >= s.clock && task !in s.polls && asked <= now
    requires Begin(cfg, s.db, key, actor, asked, now, true).1.Accepted?
    ensures PollsInv(cfg, Step(cfg, s, BeginPoll(task, key, actor, asked, true), now))
  {
    var (db, first) := Begin(cfg, s.db, key, actor, asked, now, true);
    var poll := first.poll;
    var t := Step(cfg, s, BeginPoll(task, key, actor, asked, true), now);
    assert SessionInv(cfg, s.history, key, s.db.sessions[key]);
    assert t.polls == s.polls[task := poll] && PollInv(cfg, t, poll);
    hide GoneInv, Promised;
    forall u | u in s.polls
      ensures PollInv(cfg, t, s.polls[u])
      ensures s.polls[u].key == key ==> s.polls[u].generation != poll.generation
    {
      assert PollInv(cfg, s, s.polls[u]);
    }
  }

  lemma AcceptKeepsInv(cfg: Config, s: System, task: nat, key: Key, actor: int, asked: int, now: int)
    requires ValidConfig(cfg) && Inv(cfg, s) && now >= s.clock && task !in s.polls && asked <= now
    requires Begin(cfg, s.db, key, actor, asked, now, true).1.Accepted?
    ensures Inv(cfg, Step(cfg, s, BeginPoll(task, key, actor, asked, true), now))
  {
    AcceptKeepsSessions(cfg, s, task, key, actor, asked, now);
    AcceptKeepsPolls(cfg, s, task, key, actor, asked, now);
    hide SessionsInv, PollsInv, Step;
  }

  lemma BeginKeepsInv(cfg: Config, s: System, task: nat, key: Key, actor: int, asked: int, authorized: bool, now: int)
    requires ValidConfig(cfg) && Inv(cfg, s) && now >= s.clock
    ensures Inv(cfg, Step(cfg, s, BeginPoll(task, key, actor, asked, authorized), now))
  {
    if task !in s.polls && asked <= now {
      var (db, first) := Begin(cfg, s.db, key, actor, asked, now, authorized);
      if first.Accepted? {
        AcceptKeepsInv(cfg, s, task, key, actor, asked, now);
      } else if db != s.db {
        DropKeepsInv(cfg, s, key, now);
      }
    }
  }

  lemma ReleaseKeepsInv(cfg: Config, s: System, task: nat, now: int)
    requires ValidConfig(cfg) && Inv(cfg, s) && now >= s.clock
    ensures Inv(cfg, s.(polls := s.polls - {task}, clock := now))
  {
  }

  /** A success is staged, or was staged before, and the quota refuses the write. */
  lemma StageKeepsInv(cfg: Config, s: System, task: nat, content: Content, now: int)
    requires ValidConfig(cfg) && Inv(cfg, s) && now >= s.clock && task in s.polls
    requires Found(s.db, s.polls[task], now) && s.db.sessions[s.polls[task].key].ready.None?
    ensures var k := s.polls[task].key;
      var row := s.db.sessions[k].(ready := Some(content), expires := now + cfg.retention);
      Inv(cfg, System(s.db.(sessions := s.db.sessions[k := row]), s.polls - {task}, now,
                      Then(s.history, Won(k, now, content))))
  {
  }

  lemma StoreKeepsInv(cfg: Config, s: System, k: Key, cookies: CookieTable.Table, now: int)
    requires ValidConfig(cfg) && Inv(cfg, s) && now >= s.clock
    requires k in s.db.sessions && s.db.sessions[k].ready.Some? && s.db.sessions[k].expires > now
    ensures Inv(cfg, System(Database(s.db.sessions - {k}, cookies), s.polls, now,
                            Then(s.history, Stored(k, now, s.db.sessions[k].ready.value))))
  {
  }

  /** An answer other than a success that passes the generation fence. */
  predicate Accepts(cfg: Config, s: System, task: nat, outcome: Outcome, now: int) {
    && now >= s.clock && task in s.polls && s.polls[task].ready.None? && !outcome.Ready?
    && Finish(cfg, s.db, s.polls[task], outcome, now, true).1.Reply?
  }

  lemma AnswerKeepsSessions(cfg: Config, s: System, task: nat, outcome: Outcome, now: int)
    requires ValidConfig(cfg) && Inv(cfg, s) && Accepts(cfg, s, task, outcome, now) && !outcome.Expired?
    ensures SessionsInv(cfg, Step(cfg, s, FinishPoll(task, outcome, true), now))
  {
    var poll := s.polls[task];
    var t := Step(cfg, s, FinishPoll(task, outcome, true), now);
    assert PollInv(cfg, s, poll) && SessionInv(cfg, s.history, poll.key, s.db.sessions[poll.key]);
    assert t.history == Then(s.history, Answered(poll.key, now, outcome.SlowDown?));
    assert SessionInv(cfg, t.history, poll.key, t.db.sessions[poll.key]);
    hide PollInv;
  }

  lemma AnswerKeepsPolls(cfg: Config, s: System, task: nat, outcome: Outcome, now: int)
    requires ValidConfig(cfg) && Inv(cfg, s) && Accepts(cfg, s, task, outcome, now) && !outcome.Expired?
    ensures PollsInv(cfg, Step(cfg, s, FinishPoll(task, outcome, true), now))
  {
    hide GoneInv, Promised;
    var poll := s.polls[task];
    var t := Step(cfg, s, FinishPoll(task, outcome, true), now);
    assert t.history == Then(s.history, Answered(poll.key, now, outcome.SlowDown?));
    forall u | u in t.polls
      ensures PollInv(cfg, t, t.polls[u])
    {
      assert PollInv(cfg, s, s.polls[u]);
    }
  }

  lemma AnswerKeepsInv(cfg: Config, s: System, task: nat, outcome: Outcome, now: int)
    requires ValidConfig(cfg) && Inv(cfg, s) && Accepts(cfg, s, task, outcome, now) && !outcome.Expired?
    ensures Inv(cfg, Step(cfg, s, FinishPoll(task, outcome, true), now))
  {
    AnswerKeepsSessions(cfg, s, task, outcome, now);
    AnswerKeepsPolls(cfg, s, task, outcome, now);
    hide SessionsInv, PollsInv, Step;
  }

  lemma ExpireKeepsSessions(cfg: Config, s: System, task: nat, now: int)
    requires ValidConfig(cfg) && Inv(cfg, s) && Accepts(cfg, s, task, Expired, now)
    ensures SessionsInv(cfg, Step(cfg, s, FinishPoll(task, Expired, true), now))
  {
    hide PollInv;
    var k := s.polls[task].key;
    assert SessionInv(cfg, s.history, k, s.db.sessions[k]);
  }

  lemma ExpireKeepsPolls(cfg: Config, s: System, task: nat, now: int)
    requires ValidConfig(cfg) && Inv(cfg, s) && Accepts(cfg, s, task, Expired, now)
    ensures PollsInv(cfg, Step(cfg, s, FinishPoll(task, Expired, true), now))
  {
    hide GoneInv, Promised;
    var t := Step(cfg, s, FinishPoll(task, Expired, true), now);
    assert PollInv(cfg, s, s.polls[task]);
    forall u | u in t.polls
      ensures PollInv(cfg, t, t.polls[u])
    {
      assert PollInv(cfg, s, s.polls[u]);
    }
  }

  lemma ExpireKeepsInv(cfg: Config, s: System, task: nat, now: int)
    requires ValidConfig(cfg) && Inv(cfg, s) && Accepts(cfg, s, task, Expired, now)
    ensures Inv(cfg, Step(cfg, s, FinishPoll(task, Expired, true), now))
  {
    ExpireKeepsSessions(cfg, s, task, now);
    ExpireKeepsPolls(cfg, s, task, now);
    hide SessionsInv, PollsInv, Step;
  }

  lemma ReadyKeepsInv(cfg: Config, s: System, task: nat, encoded: Option<Content>, now: int)
    requires ValidConfig(cfg) && Inv(cfg, s) && now >= s.clock && task in s.polls
    requires var second := Finish(cfg, s.db, s.polls[task], Ready(encoded), now, true).1; second.Full? || second.Reply?
    ensures Inv(cfg, Step(cfg, s, FinishPoll(task, Ready(encoded), true), now))
  {
    hide Inv;
    var k := s.polls[task].key;
    var row := s.db.sessions[k];
    var (db, second) := Finish(cfg, s.db, s.polls[task], Ready(encoded), now, true);
    var staged: System;
    if row.ready.None? {
      StageKeepsInv(cfg, s, task, encoded.value, now);
      staged := System(s.db.(sessions := s.db.sessions[k := row.(ready := encoded, expires := now + cfg.retention)]),
                       s.polls - {task}, now, Then(s.history, Won(k, now, encoded.value)));
    } else {
      ReleaseKeepsInv(cfg, s, task, now);
      staged := s.(polls := s.polls - {task}, clock := now);
      assert s.db.sessions[k := row] == s.db.sessions;
    }
    assert Inv(cfg, staged);
    var after := Step(cfg, s, FinishPoll(task, Ready(encoded), true), now);
    if second.Full? {
      assert after == staged;
    } else {
      StoreKeepsInv(cfg, staged, k, db.cookies, now);
      assert staged.db.sessions - {k} == s.db.sessions - {k};
      assert after == System(Database(staged.db.sessions - {k}, db.cookies), staged.polls, now,
                             Then(staged.history, Stored(k, now, staged.db.sessions[k].ready.value)));
    }
  }

  lemma FinishKeepsInv(cfg: Config, s: System, task: nat, outcome: Outcome, authorized: bool, now: int)
    requires ValidConfig(cfg) && Inv(cfg, s) && now >= s.clock
    ensures Inv(cfg, Step(cfg, s, FinishPoll(task, outcome, authorized), now))
  {
    hide Inv;
    if task in s.polls && (s.polls[task].ready.None? || outcome.Ready?) {
      var second := Finish(cfg, s.db, s.polls[task], outcome, now, authorized).1;
      if second.Denied? || second.Changed? || second.Invalid? {
        ReleaseKeepsInv(cfg, s, task, now);
      } else if outcome.Ready? {
        ReadyKeepsInv(cfg, s, task, outcome.encoded, now);
      } else if outcome.Expired? {
        ExpireKeepsInv(cfg, s, task, now);
      } else {
        AnswerKeepsInv(cfg, s, task, outcome, now);
      }
    }
  }

  lemma StepKeepsInv(cfg: Config, s: System, a: Action, now: int)
    requires ValidConfig(cfg) && Inv(cfg, s)
    ensures Inv(cfg, Step(cfg, s, a, now))
  {
    if now >= s.clock {
      match a
      case OpenSession(key, user, expiresIn, interval) => OpenKeepsInv(cfg, s, key, user, expiresIn, interval, now);
      case Cleanup => CleanupKeepsInv(cfg, s, now);
      case BeginPoll(task, key, actor, asked, authorized) =>
        BeginKeepsInv(cfg, s, task, key, actor, asked, authorized, now);
      case FinishPoll(task, outcome, authorized) => FinishKeepsInv(cfg, s, task, outcome, authorized, now);
      case Abandon(task) =>
      case ForeignWrite(cookies) =>
    }
  }

  // ----- the promises over every run -----

  lemma {:induction false} RunKeepsInv(cfg: Config, s: System, steps: seq<(Action, int)>)
    requires ValidConfig(cfg) && Inv(cfg, s)
    ensures Inv(cfg, Run(cfg, s, steps))
    decreases |steps|
  {
    if steps != [] {
      StepKeepsInv(cfg, s, steps[0].0, steps[0].1);
      RunKeepsInv(cfg, Step(cfg, s, steps[0].0, steps[0].1), steps[1..]);
    }
  }

  /** Every interleaving of openings, cleanups, polls, abandoned polls and foreign cookie writes has a history
      that keeps the promises: paced provider calls, one winner, at most one store and only of the winner. */
  lemma EveryRunIsPromised(cfg: Config, cookies: CookieTable.Table, clock: int, steps: seq<(Action, int)>)
    requires ValidConfig(cfg)
    ensures Inv(cfg, Run(cfg, Empty(cookies, clock), steps))
    ensures Promised(cfg, Run(cfg, Empty(cookies, clock), steps).history)
  {
    RunKeepsInv(cfg, Empty(cookies, clock), steps);
  }

  predicate Extends(h: History, later: History) {
    later == h || (later.Then? && Extends(h, later.past))
  }

  lemma {:induction false} ExtendsTransitive(a: History, b: History, c: History)
    requires Extends(a, b) && Extends(b, c)
    ensures Extends(a, c)
  {
    if c != b {
      ExtendsTransitive(a, b, c.past);
    }
  }

  lemma {:induction false} RunExtends(cfg: Config, s: System, steps: seq<(Action, int)>)
    ensures Extends(s.history, Run(cfg, s, steps).history)
    ensures s.clock <= Run(cfg, s, steps).clock
    decreases |steps|
  {
    if steps != [] {
      var t := Step(cfg, s, steps[0].0, steps[0].1);
      StepExtends(cfg, s, steps[0].0, steps[0].1);
      RunExtends(cfg, t, steps[1..]);
      ExtendsTransitive(s.history, t.history, Run(cfg, s, steps).history);
    }
  }

  lemma StepExtends(cfg: Config, s: System, a: Action, now: int)
    ensures Extends(s.history, Step(cfg, s, a, now).history)
    ensures s.clock <= Step(cfg, s, a, now).clock
  {
    var h := Step(cfg, s, a, now).history;
    assert h == s.history || (h.Then? && (h.past == s.history || (h.past.Then? && h.past.past == s.history)));
  }

  /** What a history has settled stays settled: the grant, the winner, the stored content; intervals only grow. */
  lemma {:induction false} SettledStays(cfg: Config, h: History, later: History, k: Key)
    requires Promised(cfg, later) && Extends(h, later) && WasOpened(h, k)
    ensures WasOpened(later, k) && Granted(later, k) == Granted(h, k)
    ensures Winner(h, k).Some? ==> Winner(later, k) == Winner(h, k)
    ensures StoredFor(h, k).Some? ==> StoredFor(later, k) == StoredFor(h, k)
    ensures IntervalOf(h, k) <= 60 ==> IntervalOf(h, k) <= IntervalOf(later, k) <= 60
  {
    if later != h {
      SettledStays(cfg, h, later.past, k);
    }
  }

  /** The state after a run from an empty session table. */
  function Reached(cfg: Config, cookies: CookieTable.Table, clock: int, steps: seq<(Action, int)>): System {
    Run(cfg, Empty(cookies, clock), steps)
  }

  /** First success wins and is never lost: once a session has staged `c`, at every later point it still has
      exactly `c` staged with the same deadline, or exactly `c` was stored, or that deadline has passed. */
  lemma FirstSuccessWins(cfg: Config, cookies: CookieTable.Table, clock: int, steps: seq<(Action, int)>,
                         more: seq<(Action, int)>, k: Key)
    requires ValidConfig(cfg)
    ensures var s := Reached(cfg, cookies, clock, steps); var t := Run(cfg, s, more);
      k in s.db.sessions && s.db.sessions[k].ready.Some? ==>
        var row := s.db.sessions[k];
        || (k in t.db.sessions && t.db.sessions[k].ready == row.ready && t.db.sessions[k].expires == row.expires)
        || StoredFor(t.history, k) == row.ready
        || t.clock >= row.expires
  {
    var s := Reached(cfg, cookies, clock, steps);
    var t := Run(cfg, s, more);
    RunKeepsInv(cfg, Empty(cookies, clock), steps);
    if k in s.db.sessions && s.db.sessions[k].ready.Some? {
      RunKeepsInv(cfg, s, more);
      RunExtends(cfg, s, more);
      SettledStays(cfg, s.history, t.history, k);
      PromisedOrder(cfg, t.history, k);
    }
  }

  /** Leases never chain: an unstaged session expires at its grant or at the running lease, never more than
      the budget after the grant; every provider poll captured the grant itself; staging fixes the deadline
      once, `retention` after the first success. */
  lemma LeasesNeverChain(cfg: Config, cookies: CookieTable.Table, clock: int, steps: seq<(Action, int)>, k: Key)
    requires ValidConfig(cfg)
    ensures var s := Reached(cfg, cookies, clock, steps);
      k in s.db.sessions ==>
        var row, grant := s.db.sessions[k], Granted(s.history, k);
        && (row.ready.None? ==>
              (row.expires == grant || row.expires == row.next) && grant <= row.expires <= grant + cfg.budget)
        && (row.ready.Some? ==>
              Winner(s.history, k).Some? && row.expires == Winner(s.history, k).value.at + cfg.retention)
    ensures var s := Reached(cfg, cookies, clock, steps);
      forall task :: task in s.polls && s.polls[task].ready.None? ==>
        s.polls[task].expires == Granted(s.history, s.polls[task].key)
  {
    var s := Reached(cfg, cookies, clock, steps);
    RunKeepsInv(cfg, Empty(cookies, clock), steps);
    if k in s.db.sessions {
      assert SessionInv(cfg, s.history, k, s.db.sessions[k]);
    }
  }

  /** A success that an authorized second transaction brings back before its poll's lease ends, with a credential
      that can be encoded, is on record: it is the first success, kept for the retention time or stored at once,
      unless an earlier success of the same session already won. */
  lemma SuccessIsKept(cfg: Config, cookies: CookieTable.Table, clock: int, steps: seq<(Action, int)>, task: nat,
                      content: Content, now: int)
    requires ValidConfig(cfg)
    ensures var s := Reached(cfg, cookies, clock, steps);
      task in s.polls && s.polls[task].ready.None? && s.clock <= now < Lease(cfg, s.polls[task].asked) ==>
        var k := s.polls[task].key; var t := Step(cfg, s, FinishPoll(task, Ready(Some(content)), true), now);
        && Winner(t.history, k).Some?
        && (Winner(s.history, k).None? ==>
              && Winner(t.history, k).value == Win(now, content)
              && (|| StagedUntil(t.db, k, content, now + cfg.retention)
                  || StoredFor(t.history, k) == Some(content)))
  {
    var s := Reached(cfg, cookies, clock, steps);
    RunKeepsInv(cfg, Empty(cookies, clock), steps);
    if task in s.polls && s.polls[task].ready.None? && s.clock <= now < Lease(cfg, s.polls[task].asked) {
      SuccessIsRecorded(cfg, s, task, content, now);
    }
  }

  predicate StagedUntil(db: Database, k: Key, content: Content, until: int) {
    k in db.sessions && db.sessions[k].ready == Some(content) && db.sessions[k].expires == until
  }

  lemma SuccessIsRecorded(cfg: Config, s: System, task: nat, content: Content, now: int)
    requires ValidConfig(cfg) && Inv(cfg, s)
    requires task in s.polls && s.polls[task].ready.None?
    requires s.clock <= now < Lease(cfg, s.polls[task].asked)
    ensures var k := s.polls[task].key; var t := Step(cfg, s, FinishPoll(task, Ready(Some(content)), true), now);
      && Winner(t.history, k).Some?
      && (Winner(s.history, k).None? ==>
            && Winner(t.history, k).value == Win(now, content)
            && (|| StagedUntil(t.db, k, content, now + cfg.retention)
                || StoredFor(t.history, k) == Some(content)))
  {
    assert PollInv(cfg, s, s.polls[task]);
    var k := s.polls[task].key;
    var done := FinishPoll(task, Ready(Some(content)), true);
    if Winner(s.history, k).None? {
      assert SessionInv(cfg, s.history, k, s.db.sessions[k]);
    } else {
      StepExtends(cfg, s, done, now);
      StepKeepsInv(cfg, s, done, now);
      SettledStays(cfg, s.history, Step(cfg, s, done, now).history, k);
    }
  }

  // ----- pacing, spelled out -----

  /** Nothing that decides the pacing of session k happened between h and later. */
  predicate Quiet(h: History, later: History, k: Key) {
    later == h
    || (later.Then? && Quiet(h, later.past, k)
        && (later.event.key == k ==> !later.event.Opened? && !later.event.Called? && !later.event.Answered?))
  }

  lemma {:induction false} QuietKeepsDue(cfg: Config, h: History, later: History, k: Key)
    requires Quiet(h, later, k)
    ensures Due(cfg, later, k) == Due(cfg, h, k) && IntervalOf(later, k) == IntervalOf(h, k)
  {
    if later != h {
      QuietKeepsDue(cfg, h, later.past, k);
    }
  }

  lemma {:induction false} IntervalInRange(cfg: Config, h: History, k: Key)
    requires Promised(cfg, h) && WasOpened(h, k)
    ensures 1 <= IntervalOf(h, k) <= 60
  {
    if h.event.key != k || !h.event.Opened? {
      IntervalInRange(cfg, h.past, k);
    }
  }

  /** RFC 8628 section 3.5: a provider call comes no sooner than the interval after the last accepted answer,
      or than the lease after a call that got none; the interval is 1 to 60 seconds. */
  lemma CallsArePaced(cfg: Config, h: History, later: History, k: Key, asked: int, at: int)
    requires Promised(cfg, Then(later, Called(k, asked, at)))
    requires h.Then? && h.event.key == k && Quiet(h, later, k)
    ensures h.event.Called? ==> at >= h.event.asked + cfg.budget + 1
    ensures h.event.Answered? ==> at >= h.event.at + IntervalOf(h, k)
    ensures 1 <= IntervalOf(later, k) <= 60
  {
    QuietKeepsDue(cfg, h, later, k);
    IntervalInRange(cfg, later, k);
  }

  /** The generation fence: an answer that is not a success changes nothing unless it belongs to the latest
      poll of an unstaged session; a late success never moves the pacing. */
  lemma StaleAnswersAreFenced(cfg: Config, db: Database, poll: Poll, outcome: Outcome, now: int, authorized: bool)
    requires poll.key in db.sessions
    ensures var (after, second) := Finish(cfg, db, poll, outcome, now, authorized); var row := db.sessions[poll.key];
      && (!outcome.Ready? && (row.generation != poll.generation || row.ready.Some?) ==> after == db)
      && (outcome.Ready? && poll.key in after.sessions ==>
            after.sessions[poll.key].next == row.next && after.sessions[poll.key].interval == row.interval)
      && (forall k :: k != poll.key ==> (k in after.sessions <==> k in db.sessions))
      && (forall k :: k != poll.key && k in db.sessions ==> after.sessions[k] == db.sessions[k])
  {
  }

  /** The cookie table changes only by a recorded store: for the session's own user, of the winning content. */
  lemma CookieWritesAreRecorded(cfg: Config, cookies: CookieTable.Table, clock: int, steps: seq<(Action, int)>,
                                a: Action, now: int)
    requires ValidConfig(cfg) && !a.ForeignWrite?
    ensures var s := Reached(cfg, cookies, clock, steps); var t := Step(cfg, s, a, now);
      t.db.cookies != s.db.cookies ==>
        && t.history.Then? && t.history.event.Stored?
        && var k, content := t.history.event.key, t.history.event.content;
           && k in s.db.sessions && k !in t.db.sessions
           && Winner(t.history, k).Some? && Winner(t.history, k).value.content == content
           && cfg.write(s.db.cookies, s.db.sessions[k].user, content, now) == Some(t.db.cookies)
  {
    hide Step, PollInv, SessionInv, GoneInv;
    var s := Reached(cfg, cookies, clock, steps);
    var t := Step(cfg, s, a, now);
    if t.db.cookies != s.db.cookies {
      RunKeepsInv(cfg, Empty(cookies, clock), steps);
      StepKeepsInv(cfg, s, a, now);
      WriteIsStored(cfg, s, a, now);
      PromisedOrder(cfg, t.history, t.history.event.key);
    }
  }

  lemma WriteIsStored(cfg: Config, s: System, a: Action, now: int)
    requires !a.ForeignWrite? && Step(cfg, s, a, now).db.cookies != s.db.cookies
    ensures var t := Step(cfg, s, a, now);
      && t.history.Then? && t.history.event.Stored?
      && var k, content := t.history.event.key, t.history.event.content;
         && k in s.db.sessions && k !in t.db.sessions
         && StoredFor(t.history, k) == Some(content)
         && cfg.write(s.db.cookies, s.db.sessions[k].user, content, now) == Some(t.db.cookies)
  {
    assert a.FinishPoll?;
  }

  // ----- session capacity -----

  ghost predicate WithinCapacity(sessions: map<Key, Session>) {
    |sessions| <= TOTAL_SESSIONS && forall user :: |OwnedBy(sessions, user)| <= ACTOR_SESSIONS
  }

  lemma FewerSessions(before: map<Key, Session>, after: map<Key, Session>)
    requires WithinCapacity(before)
    requires forall k :: k in after ==> k in before && after[k].user == before[k].user
    ensures WithinCapacity(after)
  {
    SubsetSize(after.Keys, before.Keys);
    assert |after| == |after.Keys| && |before| == |before.Keys|;
    forall user
      ensures |OwnedBy(after, user)| <= ACTOR_SESSIONS
    {
      SubsetSize(OwnedBy(after, user), OwnedBy(before, user));
    }
  }

  lemma OneMoreSession(live: map<Key, Session>, key: Key, row: Session)
    requires WithinCapacity(live) && |live| < TOTAL_SESSIONS && |OwnedBy(live, row.user)| < ACTOR_SESSIONS
    ensures WithinCapacity(live[key := row])
  {
    var more := live[key := row];
    assert more.Keys == live.Keys + {key};
    assert |more| == |more.Keys| && |live| == |live.Keys|;
    forall user
      ensures |OwnedBy(more, user)| <= ACTOR_SESSIONS
    {
      if user == row.user {
        SubsetSize(OwnedBy(more, user), OwnedBy(live, user) + {key});
      } else {
        SubsetSize(OwnedBy(more, user), OwnedBy(live, user));
      }
    }
  }

  lemma StepKeepsOwners(cfg: Config, s: System, a: Action, now: int, k: Key)
    requires k in Step(cfg, s, a, now).db.sessions
    ensures (k in s.db.sessions && Step(cfg, s, a, now).db.sessions[k].user == s.db.sessions[k].user)
      || (a.OpenSession? && a.key == k)
  {
  }

  lemma StepWithinCapacity(cfg: Config, s: System, a: Action, now: int)
    requires WithinCapacity(s.db.sessions)
    ensures WithinCapacity(Step(cfg, s, a, now).db.sessions)
  {
    if a.OpenSession? && now >= s.clock {
      var made := Open(s.db, a.key, a.user, a.expiresIn, a.interval, now);
      if made.Some? {
        var live := Alive(s.db.sessions, now);
        FewerSessions(s.db.sessions, live);
        OneMoreSession(live, a.key, made.value.sessions[a.key]);
      }
    } else {
      var t := Step(cfg, s, a, now);
      forall k | k in t.db.sessions
        ensures k in s.db.sessions && t.db.sessions[k].user == s.db.sessions[k].user
      {
        StepKeepsOwners(cfg, s, a, now, k);
      }
      FewerSessions(s.db.sessions, t.db.sessions);
    }
  }

  /** No run ever holds more than eight sessions of one actor or ten thousand in all. */
  lemma {:induction false} SessionsAreBounded(cfg: Config, s: System, steps: seq<(Action, int)>)
    requires WithinCapacity(s.db.sessions)
    ensures WithinCapacity(Run(cfg, s, steps).db.sessions)
    decreases |steps|
  {
    if steps != [] {
      StepWithinCapacity(cfg, s, steps[0].0, steps[0].1);
      SessionsAreBounded(cfg, Step(cfg, s, steps[0].0, steps[0].1), steps[1..]);
    }
  }
}
