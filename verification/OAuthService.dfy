/** The stateful side of the device flow: the two poll transactions and the start and cleanup statements as
    they run, one SQL statement at a time, each proved to have the effect DeviceFlow gives it. */
module OAuthService {
  import opened Prelude
  import opened DeviceFlow
  import CookieTable
  import CookieQuota
  import OAuthRefresh

  class Service {
    const budget: int
    const retention: int
    const limits: CookieTable.Limits
    var sessions: map<Key, Session>
    var cookies: CookieTable.Table

    ghost function Store(): Database reads this {
      Database(sessions, cookies)
    }

    /** The protocol's configuration, with the quota check and write of oauth_capacity and oauth_store. */
    function Settings(): Config {
      var quota := limits;
      Config(budget, retention, (rows, actor, content, now) => CookieQuota.OAuthWrite(rows, actor, content, now, quota))
    }

    constructor (budget: int, retention: int, limits: CookieTable.Limits)
      requires 61 <= budget <= 300 && 60 <= retention <= 86400
      ensures Store() == Database(map[], [])
      ensures this.budget == budget && this.retention == retention && this.limits == limits
      ensures ValidConfig(Settings())
    {
      this.budget, this.retention, this.limits := budget, retention, limits;
      sessions, cookies := map[], [];
    }

    method Cleanup(now: int)
      modifies this
      ensures Store() == old(Store()).(sessions := Alive(old(sessions), now))
    {
      sessions := map k | k in sessions && sessions[k].expires > now :: sessions[k];
    }

    method StartSession(key: Key, user: int, expiresIn: int, interval: int, now: int, authorized: bool)
      returns (started: bool)
      modifies this
      ensures var made := Open(old(Store()), key, user, expiresIn, interval, now);
        started == (authorized && made.Some?) && Store() == if started then made.value else old(Store())
    {
      if !authorized {
        return false;
      }
      var tx := Alive(sessions, now);
      if |tx| >= TOTAL_SESSIONS || |OwnedBy(tx, user)| >= ACTOR_SESSIONS {
        return false;
      }
      tx := tx[key := Session(user, now + Clamp(expiresIn, 1, SESSION_TTL), Clamp(interval, 1, 60), now, 0, None)];
      sessions := tx;
      return true;
    }

    method FirstTransaction(key: Key, actor: int, asked: int, now: int, authorized: bool) returns (first: First)
      modifies this
      ensures (Store(), first) == Begin(Settings(), old(Store()), key, actor, asked, now, authorized)
    {
      var leaseUntil := asked + (budget + 1);
      if !authorized {
        return Refused;
      }
      if key !in sessions {
        return Answer(IsExpired);
      }
      var row := sessions[key];
      if row.user != actor {
        return Refused;
      }
      if row.expires <= now {
        sessions := sessions - {key};
        return Answer(IsExpired);
      }
      var ready := row.ready;
      if ready.None? && row.next > now {
        return Answer(IsPending);
      }
      var expires, generation, interval := row.expires, row.generation + 1, row.interval;
      var protected := if row.ready.None? then Max(row.expires, leaseUntil) else row.expires;
      sessions := sessions[key := row.(generation := generation, next := leaseUntil, expires := protected)];
      return Accepted(Poll(key, actor, asked, generation, interval, ready, expires));
    }

    /** `tx` and `rows` are the open transaction; returning before they are assigned back rolls it back. */
    method SecondTransaction(poll: Poll, outcome: Outcome, now: int, authorized: bool) returns (second: Second)
      modifies this
      ensures (Store(), second) == Finish(Settings(), old(Store()), poll, outcome, now, authorized)
    {
      var key := poll.key;
      if !authorized {
        return Denied;
      }
      if key !in sessions || sessions[key].user != poll.actor || sessions[key].expires <= now {
        return Changed;
      }
      var current := sessions[key];
      var staged := current.ready;
      if !outcome.Ready? && (current.generation != poll.generation || staged.Some?) {
        return Changed;
      }
      var tx := sessions;
      tx := tx[key := tx[key].(expires :=
        if outcome.Ready? && staged.None? then now + retention
        else if staged.Some? then current.expires
        else poll.expires)];
      match outcome {
        case Pending =>
          tx := tx[key := tx[key].(interval := poll.interval, next := now + poll.interval)];
          second := Reply(IsPending);
        case SlowDown =>
          var interval := Min(poll.interval + 5, 60);
          tx := tx[key := tx[key].(interval := interval, next := now + interval)];
          second := Reply(IsPending);
        case Expired =>
          tx := tx - {key};
          second := Reply(IsExpired);
        case Failed =>
          tx := tx[key := tx[key].(next := now + poll.interval)];
          second := Reply(IsError);
        case Ready(encoded) =>
          if staged.None? && encoded.None? {
            return Invalid;
          }
          var content := if staged.Some? then staged.value else encoded.value;
          tx := tx[key := tx[key].(ready := if tx[key].ready.Some? then tx[key].ready else Some(content))];
          var rows := CookieQuota.OAuthWrite(cookies, poll.actor, content, now, limits);
          if rows.None? {
            assert tx == sessions[key := current.(ready := Some(content), expires := tx[key].expires)];
            sessions := tx;
            return Full;
          }
          cookies := rows.value;
          tx := tx - {key};
          second := Reply(IsOk);
      }
      assert key in tx ==> tx == sessions[key := tx[key]];
      assert key !in tx ==> tx == sessions - {key};
      sessions := tx;
    }

    /** The second transaction of oauth_refresh. */
    method RefreshTransaction(actor: int, expected: OAuthRefresh.Reference, content: Content, now: int,
                              authorized: bool)
      returns (result: OAuthRefresh.Result)
      modifies this`cookies
      ensures (cookies, result)
        == OAuthRefresh.Commit(old(cookies), actor, "youtube.com", expected, content, now, authorized, limits)
    {
      if !authorized {
        return OAuthRefresh.Refused(OAuthRefresh.Unauthorized);
      }
      var row := OAuthRefresh.RowById(cookies, expected.id, actor);
      if row.None? {
        return OAuthRefresh.Refused(OAuthRefresh.ChangedCredentials);
      }
      var current := OAuthRefresh.ReferenceOf(row.value);
      if current != expected {
        return OAuthRefresh.Refused(OAuthRefresh.ChangedCredentials);
      }
      var rows := CookieQuota.OAuthWrite(cookies, actor, content, now, limits);
      if rows.None? {
        return OAuthRefresh.Refused(OAuthRefresh.OverCapacity);
      }
      cookies := rows.value;
      return OAuthRefresh.Refreshed(current.(version := OAuthRefresh.Version(content, row.value.domain, now)));
    }
  }

  /** What a stored success leaves in the real cookie table: the actor's youtube.com rows all hold it, the
      usage is the predicted one, and nobody else's rows move. */
  lemma StoredSuccess(rows: CookieTable.Table, actor: int, content: Content, now: int, limits: CookieTable.Limits,
                      other: CookieTable.Cookie)
    requires !CookieTable.Matches(other, actor, "youtube.com")
    ensures var written := CookieQuota.OAuthWrite(rows, actor, content, now, limits);
      written.Some? ==> var after := written.value;
      && (exists c :: c in after && CookieTable.Matches(c, actor, "youtube.com"))
      && (forall c :: c in after && CookieTable.Matches(c, actor, "youtube.com") ==> c.content == content && c.isValid)
      && (other in after <==> other in rows)
      && CookieTable.UsageOf(after, actor, "youtube.com")
         == CookieTable.PredictPut(CookieTable.UsageOf(rows, actor, "youtube.com"), |content|)
  {
    CookieTable.YoutubeIsCanonical();
    CookieTable.PutContents(rows, actor, "youtube.com", content, true, now);
    CookieTable.PutPrediction(rows, actor, "youtube.com", content, true, now, actor, "");
  }
}
