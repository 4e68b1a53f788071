/** What a caller of the device flow is told and when a poll goes ahead: the answers of every transaction in any
    reachable state, read off the history and the clock. The promises of DeviceFlow say what never happens; these
    say what must happen. */
module DeviceAnswers {
  import opened Prelude
  import opened DeviceFlow
  import CookieTable

  /** The session is there, belongs to the caller and has time left. */
  predicate Live(s: System, key: Key, actor: int, now: int) {
    key in s.db.sessions && s.db.sessions[key].user == actor && s.db.sessions[key].expires > now
  }

  /** Only the clock moved. */
  predicate Unmoved(s: System, t: System, now: int) {
    t == System(s.db, s.polls, now, s.history)
  }

  /** An authorized poll of a live session goes ahead exactly when a success is on record or the provider is due
      again; it calls the provider exactly in the second case, and then leases the session without ever cutting
      its grant short. A poll that does not go ahead is told to wait. */
  lemma DuePollsGoAhead(cfg: Config, cookies: CookieTable.Table, clock: int, steps: seq<(Action, int)>, task: nat,
                        key: Key, actor: int, asked: int, now: int)
    requires ValidConfig(cfg)
    ensures var s := Reached(cfg, cookies, clock, steps);
      var t := Step(cfg, s, BeginPoll(task, key, actor, asked, true), now);
      var first := Begin(cfg, s.db, key, actor, asked, now, true).1;
      task !in s.polls && s.clock <= now && asked <= now && Live(s, key, actor, now) ==>
        var row, won := s.db.sessions[key], Winner(s.history, key);
        && t.clock == now && t.db.cookies == s.db.cookies
        && (task in t.polls <==> won.Some? || now >= Due(cfg, s.history, key))
        && (task !in t.polls ==> first == Answer(IsPending) && Unmoved(s, t, now))
        && (task in t.polls ==>
              && first == Accepted(
                   Poll(key, actor, asked, row.generation + 1, IntervalOf(s.history, key),
                        if won.Some? then Some(won.value.content) else None,
                        if won.Some? then won.value.at + cfg.retention else Granted(s.history, key)))
              && t.polls == s.polls[task := first.poll]
              && t.history == (if won.Some? then s.history else Then(s.history, Called(key, asked, now)))
              && t.db.sessions.Keys == s.db.sessions.Keys
              && (forall k :: k in s.db.sessions && k != key ==> t.db.sessions[k] == s.db.sessions[k])
              && var after := t.db.sessions[key];
                 && after.user == row.user && after.interval == row.interval && after.ready == row.ready
                 && after.generation == row.generation + 1 && after.next == asked + cfg.budget + 1
                 && (won.Some? ==> after.expires == row.expires)
                 && (won.None? ==> after.expires >= Granted(s.history, key) && after.expires >= after.next
                                   && after.expires in {Granted(s.history, key), after.next}))
  {
    var s := Reached(cfg, cookies, clock, steps);
    RunKeepsInv(cfg, Empty(cookies, clock), steps);
    if Live(s, key, actor, now) {
      assert SessionInv(cfg, s.history, key, s.db.sessions[key]);
    }
  }

  /** Every other poll changes nothing but, at most, a session whose time is over: a foreign or unauthorized caller
      is refused, a missing or dead session has expired. */
  lemma OtherPollsStop(cfg: Config, s: System, task: nat, key: Key, actor: int, asked: int, now: int, authorized: bool)
    requires task !in s.polls && s.clock <= now && asked <= now
    requires !(authorized && Live(s, key, actor, now))
    ensures var t := Step(cfg, s, BeginPoll(task, key, actor, asked, authorized), now);
      var first := Begin(cfg, s.db, key, actor, asked, now, authorized).1;
      var dead := authorized && key in s.db.sessions && s.db.sessions[key].user == actor;
      && first == (if !authorized || (key in s.db.sessions && !dead) then Refused else Answer(IsExpired))
      && Unmoved(if dead then s.(db := s.db.(sessions := s.db.sessions - {key})) else s, t, now)
  {
  }

  /** A session opens exactly when, counting live sessions alone, fewer than ten thousand exist and fewer than eight
      are the caller's. It may be polled at once, and dead sessions are gone. */
  lemma OpensBelowCapacity(db: Database, key: Key, user: int, expiresIn: int, interval: int, now: int)
    ensures var made := Open(db, key, user, expiresIn, interval, now);
      var alive := set k | k in db.sessions && db.sessions[k].expires > now;
      var mine := set k | k in db.sessions && db.sessions[k].expires > now && db.sessions[k].user == user;
      && (made.Some? <==> |alive| < 10000 && |mine| < 8)
      && (made.Some? ==>
            var after := made.value;
            && after.cookies == db.cookies && after.sessions.Keys == alive + {key}
            && (forall k :: k in alive && k != key ==> after.sessions[k] == db.sessions[k])
            && var row := after.sessions[key]; var lifetime := row.expires - now;
               && row.user == user && row.next == now && row.ready.None? && row.generation == 0
               && 1 <= lifetime <= 1800 && 1 <= row.interval <= 60
               && (1 <= expiresIn <= 1800 ==> lifetime == expiresIn) && (expiresIn > 1800 ==> lifetime == 1800)
               && (1 <= interval <= 60 ==> row.interval == interval) && (interval > 60 ==> row.interval == 60)
               && (expiresIn < 1 ==> lifetime == 1) && (interval < 1 ==> row.interval == 1))
  {
    var alive := set k | k in db.sessions && db.sessions[k].expires > now;
    var mine := set k | k in db.sessions && db.sessions[k].expires > now && db.sessions[k].user == user;
    var live := Alive(db.sessions, now);
    assert live.Keys == alive && |live| == |live.Keys|;
    assert OwnedBy(live, user) == mine;
  }

  // ----- the second transaction -----

  /** A provider's success, or the success on record, is what an authorized second transaction works with: it is
      stored exactly when the write admits it, and then the session is gone; otherwise it stays staged with the
      deadline of the first success. Without an encodable success nothing moves. */
  lemma SuccessIsSettled(cfg: Config, cookies: CookieTable.Table, clock: int, steps: seq<(Action, int)>, task: nat,
                         encoded: Option<Content>, now: int)
    requires ValidConfig(cfg)
    ensures var s := Reached(cfg, cookies, clock, steps);
      task in s.polls && s.clock <= now && Live(s, s.polls[task].key, s.polls[task].actor, now) ==>
        var poll := s.polls[task]; var k := poll.key; var row, won := s.db.sessions[k], Winner(s.history, k);
        var t := Step(cfg, s, FinishPoll(task, Ready(encoded), true), now);
        var second := Finish(cfg, s.db, poll, Ready(encoded), now, true).1;
        var first := if won.Some? then won else if encoded.Some? then Some(Win(now, encoded.value)) else None;
        && t.polls == s.polls - {task} && t.clock == now && Winner(t.history, k) == first
        && (first.None? ==> second == Invalid && t.db == s.db && t.history == s.history)
        && (first.Some? ==>
              var content := first.value.content;
              var written := cfg.write(s.db.cookies, poll.actor, content, now);
              && (written.Some? ==> second == Reply(IsOk) && t.db == Database(s.db.sessions - {k}, written.value)
                                    && StoredFor(t.history, k) == Some(content))
              && (written.None? ==>
                    && second == Full && StoredFor(t.history, k).None?
                    && t.db == s.db.(sessions := s.db.sessions[k :=
                         row.(ready := Some(content), expires := first.value.at + cfg.retention)])))
  {
    var s := Reached(cfg, cookies, clock, steps);
    RunKeepsInv(cfg, Empty(cookies, clock), steps);
    if task in s.polls && s.clock <= now && Live(s, s.polls[task].key, s.polls[task].actor, now) {
      assert PollInv(cfg, s, s.polls[task]);
      assert SessionInv(cfg, s.history, s.polls[task].key, s.db.sessions[s.polls[task].key]);
      assert s.db.sessions[s.polls[task].key := s.db.sessions[s.polls[task].key]] == s.db.sessions;
    }
  }

  /** Any other answer counts exactly when it belongs to the latest poll of a session without a success. It then
      ends the session, or sets it to its grant and its next call to the interval from now. */
  lemma AnswerIsSettled(cfg: Config, cookies: CookieTable.Table, clock: int, steps: seq<(Action, int)>, task: nat,
                        outcome: Outcome, now: int)
    requires ValidConfig(cfg) && !outcome.Ready?
    ensures var s := Reached(cfg, cookies, clock, steps);
      task in s.polls && s.polls[task].ready.None? && s.clock <= now
      && Live(s, s.polls[task].key, s.polls[task].actor, now) ==>
        var poll := s.polls[task]; var k := poll.key; var row := s.db.sessions[k];
        var t := Step(cfg, s, FinishPoll(task, outcome, true), now);
        var second := Finish(cfg, s.db, poll, outcome, now, true).1;
        var counts := row.generation == poll.generation && Winner(s.history, k).None?;
        && t.polls == s.polls - {task} && t.clock == now && t.db.cookies == s.db.cookies
        && (!counts ==> second == Changed && t.db == s.db && t.history == s.history)
        && (counts && outcome.Expired? ==>
              second == Reply(IsExpired) && t.db.sessions == s.db.sessions - {k} && t.history == s.history)
        && (counts && !outcome.Expired? ==>
              var before := IntervalOf(s.history, k);
              var interval := if !outcome.SlowDown? then before else if before > 55 then 60 else before + 5;
              && second == Reply(if outcome.Failed? then IsError else IsPending)
              && t.history == Then(s.history, Answered(k, now, outcome.SlowDown?))
              && t.db.sessions == s.db.sessions[k :=
                   Session(row.user, Granted(s.history, k), interval, now + interval, row.generation, None)])
  {
    var s := Reached(cfg, cookies, clock, steps);
    RunKeepsInv(cfg, Empty(cookies, clock), steps);
    if task in s.polls && s.polls[task].ready.None? && s.clock <= now
       && Live(s, s.polls[task].key, s.polls[task].actor, now) {
      assert PollInv(cfg, s, s.polls[task]);
      assert SessionInv(cfg, s.history, s.polls[task].key, s.db.sessions[s.polls[task].key]);
    }
  }

  /** Without authorization, or with its session gone, dead or in other hands, a poll only ends. */
  lemma LostPollsEnd(cfg: Config, s: System, task: nat, outcome: Outcome, now: int, authorized: bool)
    requires task in s.polls && s.clock <= now && (s.polls[task].ready.None? || outcome.Ready?)
    requires !(authorized && Live(s, s.polls[task].key, s.polls[task].actor, now))
    ensures Finish(cfg, s.db, s.polls[task], outcome, now, authorized).1 == if authorized then Changed else Denied
    ensures Unmoved(s.(polls := s.polls - {task}), Step(cfg, s, FinishPoll(task, outcome, authorized), now), now)
  {
  }
}
