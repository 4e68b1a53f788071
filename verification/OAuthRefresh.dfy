/** Refreshing a stored credential: read, call the provider outside the database, then compare the whole row
    and write. The version digest of a reference is taken to be collision-free. `domain` is the canonical
    domain of the credentials; the program fixes it to youtube.com. */
module OAuthRefresh {
  import opened Prelude
  import opened CookieTable
  import CookieQuota

  datatype Version = Version(content: string, domain: string, updatedAt: int)
  datatype Reference = Reference(id: int, user: int, canonical: string, version: Version)

  datatype Error = Unauthorized | ChangedCredentials | OverCapacity
  datatype Result = Refreshed(reference: Reference) | Refused(error: Error)

  function ReferenceOf(c: Cookie): Reference {
    Reference(c.id, c.user, Canonical(c.domain), Version(c.content, c.domain, c.updatedAt))
  }

  predicate Live(c: Cookie, actor: int, domain: string) {
    Matches(c, actor, domain) && c.isValid
  }

  /** ORDER BY id LIMIT 1 over the actor's valid rows. */
  function FirstLive(rows: Table, actor: int, domain: string): (found: Option<Cookie>)
    ensures found.Some? ==> found.value in rows && Live(found.value, actor, domain)
    ensures found.Some? ==> forall c :: c in rows && Live(c, actor, domain) ==> found.value.id <= c.id
    ensures found.None? ==> forall c :: c in rows ==> !Live(c, actor, domain)
  {
    if rows == [] then None
    else
      var last, before := rows[|rows| - 1], FirstLive(rows[..|rows| - 1], actor, domain);
      if Live(last, actor, domain) && (before.None? || last.id < before.value.id) then Some(last) else before
  }

  /** oauth_credential: the actor's credential, when the first row holds one. */
  function Credential(rows: Table, actor: int, domain: string, isCredential: string -> bool): Option<Reference> {
    var found := FirstLive(rows, actor, domain);
    if found.Some? && isCredential(found.value.content) then Some(ReferenceOf(found.value)) else None
  }

  function RowById(rows: Table, id: int, actor: int): (found: Option<Cookie>)
    ensures found.Some? ==>
      found.value in rows && found.value.id == id && Personal(found.value, actor) && found.value.isValid
  {
    if rows == [] then None
    else
      var last := rows[|rows| - 1];
      if last.id == id && Personal(last, actor) && last.isValid then Some(last)
      else RowById(rows[..|rows| - 1], id, actor)
  }

  /** The row that the reference names is gone or no longer what the reference saw. */
  predicate Outdated(rows: Table, actor: int, expected: Reference) {
    var row := RowById(rows, expected.id, actor);
    row.None? || ReferenceOf(row.value) != expected
  }

  /** The second transaction of oauth_refresh. */
  function Commit(rows: Table, actor: int, domain: string, expected: Reference, content: string, now: int,
                  authorized: bool, limits: Limits): (Table, Result) {
    if !authorized then (rows, Refused(Unauthorized))
    else
      var row := RowById(rows, expected.id, actor);
      if Outdated(rows, actor, expected) then (rows, Refused(ChangedCredentials))
      else
        var written := CookieQuota.CheckedPut(rows, actor, domain, content, now, limits);
        if written.None? then (rows, Refused(OverCapacity))
        else
          var version := Version(content, row.value.domain, now);
          (written.value, Refreshed(Reference(expected.id, actor, expected.canonical, version)))
  }

  /** The row with this number, if there is one, was written at `time` or later. */
  predicate WrittenSince(rows: Table, id: int, time: int) {
    forall c :: c in rows && c.id == id ==> c.updatedAt >= time
  }

  /** The stamp an operation writes, when it takes it from a clock. */
  function TimeOf(op: CookieQuota.Operation): Option<int> {
    match op
    case WebWrite(_, _, at, _) => Some(at)
    case OAuthStore(_, _, at) => Some(at)
    case MessageUpload(_, _, _, _, _, _, at) => Some(at)
    case MessageRemoval(_, _, _, _) => None
    case LiveValidation(_, _, _, _, _, _, at) => Some(at)
    case RowRefresh(_, _, _, _, _, _) => None    // it raises the stamp it finds
    case RowDelete(_, _, _, _, _) => None
  }

  predicate NotBefore(ops: seq<CookieQuota.Operation>, time: int) {
    forall op :: op in ops && TimeOf(op).Some? ==> TimeOf(op).value >= time
  }

  lemma PutKeepsSince(rows: Table, actor: int, domain: string, content: string, valid: bool, now: int, id: int,
                      time: int)
    requires WrittenSince(rows, id, time) && now >= time
    ensures WrittenSince(Put(rows, actor, domain, content, valid, now), id, time)
  {
    var out := Put(rows, actor, domain, content, valid, now);
    forall c | c in out && c.id == id
      ensures c.updatedAt >= time
    {
      var i :| 0 <= i < |out| && out[i] == c;
      if i < |rows| {
        UpdateAllAt(rows, actor, domain, content, valid, now, i);
        assert rows[i] in rows;
      } else if |rows| > 0 {
        UpdateAllAt(rows, actor, domain, content, valid, now, 0);
      }
    }
  }

  lemma {:induction false} WriteAllKeepsSince(rows: Table, actor: int, inputs: seq<CookieQuota.Input>,
                                              domains: seq<string>,
                                              now: int, limits: Limits, id: int, time: int)
    requires |domains| == |inputs| && WrittenSince(rows, id, time) && now >= time
    requires CookieQuota.WriteAll(rows, actor, inputs, domains, now, limits).Some?
    ensures WrittenSince(CookieQuota.WriteAll(rows, actor, inputs, domains, now, limits).value, id, time)
    decreases |inputs|
  {
    if inputs != [] {
      var input := inputs[0];
      PutKeepsSince(rows, actor, domains[0], input.content, input.labelled, now, id, time);
      var mid := Put(rows, actor, domains[0], input.content, input.labelled, now);
      WriteAllKeepsSince(mid, actor, inputs[1..], domains[1..], now, limits, id, time);
    }
  }

  lemma PerformKeepsSince(v: CookieQuota.Vault, op: CookieQuota.Operation, limits: Limits, id: int, time: int)
    requires WrittenSince(v.rows, id, time) && (TimeOf(op).Some? ==> TimeOf(op).value >= time)
    ensures WrittenSince(CookieQuota.Perform(v, op, limits).rows, id, time)
  {
    match op
    case WebWrite(caller, inputs, at, authorized) =>
      if CookieQuota.Submit(v, caller, inputs, at, authorized, limits).1.None? {
        CookieQuota.DomainsCanonical(inputs);
        var actor := if caller.Bearer? then v.tokens[caller.hash].user else caller.id;
        WriteAllKeepsSince(v.rows, actor, inputs, CookieQuota.DomainsOf(inputs).value, at, limits, id, time);
      }
    case OAuthStore(actor, content, at) =>
      PutKeepsSince(v.rows, actor, "youtube.com", content, true, at, id, time);
    case MessageUpload(actor, message, domain, content, sound, authorized, at) =>
    case MessageRemoval(actor, message, target, authorized) =>
    case LiveValidation(row, seen, rewritten, updated, valid, allowed, at) =>
      var found := CookieQuota.FindRow(v.rows, row);
      if found.Some? {
        assert v.rows[found.value] in v.rows;
      }
    case RowRefresh(row, actor, seen, replacement, allowed, at) =>
      var found := CookieQuota.FindRow(v.rows, row);
      if found.Some? {
        assert v.rows[found.value] in v.rows;
      }
    case RowDelete(actor, row, target, admin, authorized) =>
  }

  lemma {:induction false} RunKeepsSince(v: CookieQuota.Vault, ops: seq<CookieQuota.Operation>, limits: Limits,
                                         id: int, time: int)
    requires WrittenSince(v.rows, id, time) && NotBefore(ops, time)
    ensures WrittenSince(CookieQuota.PerformAll(v, ops, limits).rows, id, time)
    decreases |ops|
  {
    if ops != [] {
      PerformKeepsSince(v, ops[0], limits, id, time);
      RunKeepsSince(CookieQuota.Perform(v, ops[0], limits), ops[1..], limits, id, time);
    }
  }

  predicate DistinctIds(rows: Table) {
    forall i, j :: 0 <= i < j < |rows| ==> rows[i].id != rows[j].id
  }

  /** A stale provider result cannot overwrite newer credentials: once any write gave the row a later stamp, no
      refresh that still holds the older reference changes the table, whatever writes, uploads, removals,
      validations, row refreshes and deletions come in between, as long as their clocks do not fall behind. */
  lemma StaleRefreshIsInert(v: CookieQuota.Vault, expected: Reference, time: int,
                            between: seq<CookieQuota.Operation>, limits: Limits,
                            actor: int, domain: string, content: string, now: int, authorized: bool)
    requires WrittenSince(v.rows, expected.id, time) && expected.version.updatedAt < time && NotBefore(between, time)
    ensures var after := CookieQuota.PerformAll(v, between, limits).rows;
      && Commit(after, actor, domain, expected, content, now, authorized, limits).0 == after
      && Commit(after, actor, domain, expected, content, now, authorized, limits).1.Refused?
  {
    RunKeepsSince(v, between, limits, expected.id, time);
  }

  /** What a committed refresh did to the table, row by row. */
  ghost predicate Rewrote(rows: Table, out: Table, actor: int, domain: string, content: string, now: int) {
    && |out| == |rows|
    && forall i :: 0 <= i < |rows| ==>
         out[i] == if Matches(rows[i], actor, domain) then Replaced(rows[i], content, true, now) else rows[i]
  }

  lemma CommittedRows(rows: Table, actor: int, domain: string, expected: Reference, content: string, now: int,
                      limits: Limits)
    requires expected.canonical == domain
    requires Commit(rows, actor, domain, expected, content, now, true, limits).1.Refreshed?
    ensures var (out, result) := Commit(rows, actor, domain, expected, content, now, true, limits);
      && Rewrote(rows, out, actor, domain, content, now)
      && exists k :: 0 <= k < |rows| && rows[k].id == expected.id && Live(rows[k], actor, domain)
                     && result.reference == ReferenceOf(Replaced(rows[k], content, true, now))
  {
    hide Canonical, UsageOf;
    var row := RowById(rows, expected.id, actor).value;
    var k :| 0 <= k < |rows| && rows[k] == row;
    NothingReplaced(rows, actor, domain);
    assert rows[k] in rows && Matches(rows[k], actor, domain);
    UpdateAllAt(rows, actor, domain, content, true, now, k);
    forall i | 0 <= i < |rows|
      ensures UpdateAll(rows, actor, domain, content, true, now)[i]
           == if Matches(rows[i], actor, domain) then Replaced(rows[i], content, true, now) else rows[i]
    {
      UpdateAllAt(rows, actor, domain, content, true, now, i);
    }
  }

  lemma {:induction false} OnlyRow(rows: Table, id: int, actor: int, k: nat)
    requires DistinctIds(rows) && k < |rows| && rows[k].id == id && Personal(rows[k], actor) && rows[k].isValid
    ensures RowById(rows, id, actor) == Some(rows[k])
  {
    if k < |rows| - 1 {
      OnlyRow(rows[..|rows| - 1], id, actor, k);
    }
  }

  lemma CommittedRow(rows: Table, actor: int, domain: string, expected: Reference, content: string, now: int,
                     limits: Limits)
    requires DistinctIds(rows) && expected.canonical == domain
    requires Commit(rows, actor, domain, expected, content, now, true, limits).1.Refreshed?
    ensures var out := Commit(rows, actor, domain, expected, content, now, true, limits).0;
      && DistinctIds(out)
      && RowById(out, expected.id, actor).Some?
      && ReferenceOf(RowById(out, expected.id, actor).value)
         == expected.(version := Version(content, expected.version.domain, now))
  {
    hide Canonical, CookieQuota.CheckedPut;
    CommittedRows(rows, actor, domain, expected, content, now, limits);
    var (out, result) := Commit(rows, actor, domain, expected, content, now, true, limits);
    var row := RowById(rows, expected.id, actor).value;
    var k :| 0 <= k < |rows| && rows[k].id == expected.id && Live(rows[k], actor, domain)
             && result.reference == ReferenceOf(Replaced(rows[k], content, true, now));
    OnlyRow(rows, expected.id, actor, k);
    OnlyRow(out, expected.id, actor, k);
  }

  /** A committed refresh makes its own reference stale, for itself and for every refresh that raced it, exactly
      when it changed the content or the stamp; stamps are whole seconds. */
  lemma CommitMakesStale(rows: Table, actor: int, domain: string, expected: Reference, content: string, now: int,
                         limits: Limits,
                         raced: string, later: int)
    requires DistinctIds(rows) && expected.canonical == domain
    requires Commit(rows, actor, domain, expected, content, now, true, limits).1.Refreshed?
    ensures var out := Commit(rows, actor, domain, expected, content, now, true, limits).0;
      Commit(out, actor, domain, expected, raced, later, true, limits) == (out, Refused(ChangedCredentials))
      <==> content != expected.version.content || now != expected.version.updatedAt
  {
    CommittedRow(rows, actor, domain, expected, content, now, limits);
    hide CookieQuota.CheckedPut, RowById, Canonical;
  }

  /** Over runs: a refresh that committed in a later second than its reference keeps every refresh that raced it
      out for good. */
  lemma CommitStaysStale(v: CookieQuota.Vault, actor: int, domain: string, expected: Reference, content: string,
                         now: int, limits: Limits,
                         between: seq<CookieQuota.Operation>, raced: string, later: int, authorized: bool)
    requires DistinctIds(v.rows) && expected.canonical == domain && expected.version.updatedAt < now
    requires NotBefore(between, now)
    requires Commit(v.rows, actor, domain, expected, content, now, true, limits).1.Refreshed?
    ensures var w := v.(rows := Commit(v.rows, actor, domain, expected, content, now, true, limits).0);
      var after := CookieQuota.PerformAll(w, between, limits).rows;
      && Commit(after, actor, domain, expected, raced, later, authorized, limits).0 == after
      && Commit(after, actor, domain, expected, raced, later, authorized, limits).1.Refused?
  {
    CommitStamps(v.rows, actor, domain, expected, content, now, limits);
    hide Commit;
    var w := v.(rows := Commit(v.rows, actor, domain, expected, content, now, true, limits).0);
    StaleRefreshIsInert(w, expected, now, between, limits, actor, domain, raced, later, authorized);
  }

  /** No run whose clocks do not fall behind `now` brings the reference back. */
  ghost predicate StaysOutdated(v: CookieQuota.Vault, actor: int, expected: Reference, now: int, limits: Limits) {
    forall between :: NotBefore(between, now) ==>
      Outdated(CookieQuota.PerformAll(v, between, limits).rows, actor, expected)
  }

  /** The later stamp is exactly what it takes. Where the quota admits the old content, every run keeps the raced
      references out for good if and only if the commit was stamped later than its reference; otherwise one
      sign-in that stores the old content with the old stamp brings the reference back. */
  lemma StaysOutdatedIffLater(v: CookieQuota.Vault, actor: int, domain: string, expected: Reference, content: string,
                              now: int, limits: Limits)
    requires DistinctIds(v.rows) && domain == "youtube.com" && expected.canonical == domain
    requires Commit(v.rows, actor, domain, expected, content, now, true, limits).1.Refreshed?
    requires var out := Commit(v.rows, actor, domain, expected, content, now, true, limits).0;
      CookieQuota.CheckedPut(out, actor, domain, expected.version.content, expected.version.updatedAt, limits).Some?
    ensures var w := v.(rows := Commit(v.rows, actor, domain, expected, content, now, true, limits).0);
      StaysOutdated(w, actor, expected, now, limits) <==> expected.version.updatedAt < now
  {
    hide Commit, CookieQuota.CheckedPut, CookieQuota.PerformAll, Outdated;
    var out := Commit(v.rows, actor, domain, expected, content, now, true, limits).0;
    var w := v.(rows := out);
    if expected.version.updatedAt < now {
      CommitStamps(v.rows, actor, domain, expected, content, now, limits);
      forall between | NotBefore(between, now)
        ensures Outdated(CookieQuota.PerformAll(w, between, limits).rows, actor, expected)
      {
        RunKeepsSince(w, between, limits, expected.id, now);
        OlderIsOutdated(CookieQuota.PerformAll(w, between, limits).rows, actor, expected, now);
      }
    } else {
      var between := [CookieQuota.OAuthStore(actor, expected.version.content, expected.version.updatedAt)];
      CommittedRow(v.rows, actor, domain, expected, content, now, limits);
      StoredBack(w, actor, domain, expected, Version(content, expected.version.domain, now), limits);
      assert NotBefore(between, now);
    }
  }

  lemma OlderIsOutdated(rows: Table, actor: int, expected: Reference, time: int)
    requires WrittenSince(rows, expected.id, time) && expected.version.updatedAt < time
    ensures Outdated(rows, actor, expected)
  {
  }

  /** A sign-in that stores the old content with the old stamp makes the old reference valid again. */
  lemma StoredBack(w: CookieQuota.Vault, actor: int, domain: string, expected: Reference, current: Version,
                   limits: Limits)
    requires DistinctIds(w.rows) && domain == "youtube.com" && expected.canonical == domain
    requires var row := RowById(w.rows, expected.id, actor);
      row.Some? && ReferenceOf(row.value) == expected.(version := current) && current.domain == expected.version.domain
    requires var seen := expected.version;
      CookieQuota.CheckedPut(w.rows, actor, domain, seen.content, seen.updatedAt, limits).Some?
    ensures var between := [CookieQuota.OAuthStore(actor, expected.version.content, expected.version.updatedAt)];
      !Outdated(CookieQuota.PerformAll(w, between, limits).rows, actor, expected)
  {
    var op := CookieQuota.OAuthStore(actor, expected.version.content, expected.version.updatedAt);
    OneOperation(w, op, limits);
    hide CookieQuota.CheckedPut, CookieQuota.PerformAll, Canonical, RowById;
    CommittedRow(w.rows, actor, domain, expected.(version := current), op.content, op.at, limits);
  }

  lemma OneOperation(v: CookieQuota.Vault, op: CookieQuota.Operation, limits: Limits)
    ensures CookieQuota.PerformAll(v, [op], limits) == CookieQuota.Perform(v, op, limits)
  {
    hide CookieQuota.Perform;
    assert [op][1..] == [];
  }

  lemma CommitStamps(rows: Table, actor: int, domain: string, expected: Reference, content: string, now: int,
                     limits: Limits)
    requires DistinctIds(rows) && expected.canonical == domain
    requires Commit(rows, actor, domain, expected, content, now, true, limits).1.Refreshed?
    ensures WrittenSince(Commit(rows, actor, domain, expected, content, now, true, limits).0, expected.id, now)
  {
    CommittedRows(rows, actor, domain, expected, content, now, limits);
    hide Commit, Canonical;
    var (out, result) := Commit(rows, actor, domain, expected, content, now, true, limits);
    var k :| 0 <= k < |rows| && rows[k].id == expected.id && Live(rows[k], actor, domain);
    forall c | c in out && c.id == expected.id
      ensures c.updatedAt >= now
    {
      var i :| 0 <= i < |out| && out[i] == c;
      assert rows[i].id == rows[k].id;
    }
  }

  /** The later second is needed. Within one second a refresh commits, another write puts the old content back,
      and a refresh that still holds the old reference overwrites the row after all. */
  lemma SameSecondReturns(row: Cookie, actor: int, domain: string, content: string, raced: string, later: int,
                          limits: Limits)
    requires Live(row, actor, domain)
    requires |row.content| <= limits.actorBytes && |row.content| <= limits.globalBytes
    requires |content| <= limits.actorBytes && |content| <= limits.globalBytes
    requires |raced| <= limits.actorBytes && |raced| <= limits.globalBytes
    ensures var now, seen := row.updatedAt, ReferenceOf(row);
      var (first, result) := Commit([row], actor, domain, seen, content, now, true, limits);
      var back := CookieQuota.CheckedPut(first, actor, domain, row.content, now, limits);
      && result.Refreshed? && back.Some?
      && Commit(back.value, actor, domain, seen, raced, later, true, limits).1.Refreshed?
      && Commit(back.value, actor, domain, seen, raced, later, true, limits).0 == [Replaced(row, raced, true, later)]
  {
    hide Canonical;
    var now, seen := row.updatedAt, ReferenceOf(row);
    SolePut(row, actor, domain, content, now, limits);
    var changed := Replaced(row, content, true, now);
    SolePut(changed, actor, domain, row.content, now, limits);
    var again := Replaced(changed, row.content, true, now);
    SolePut(again, actor, domain, raced, later, limits);
    hide CookieQuota.CheckedPut;
    assert ReferenceOf(again) == seen;
  }

  /** A write to a table whose only row is the one it replaces. */
  lemma SolePut(row: Cookie, actor: int, domain: string, content: string, now: int, limits: Limits)
    requires Live(row, actor, domain) && |content| <= limits.actorBytes && |content| <= limits.globalBytes
    ensures CookieQuota.CheckedPut([row], actor, domain, content, now, limits)
      == Some([Replaced(row, content, true, now)])
    ensures RowById([row], row.id, actor) == Some(row)
  {
    hide Canonical;
    UsageSnoc([], row, actor, domain);
    assert [] + [row] == [row];
    assert [row][..0] == [];
    var usage := UsageOf([row], actor, domain);
    assert usage == Usage(1, |row.content|, |row.content|, 1, |row.content|);
    hide UsageOf;
    assert UpdateAll([row], actor, domain, content, true, now) == [Replaced(row, content, true, now)];
  }

  /** The reference handed back names the credential that the next reader finds exactly when no row of the
      actor's domain, valid or not, has a smaller number: the update revives invalid duplicates. */
  lemma ReturnedReferenceIsCurrent(rows: Table, actor: int, domain: string, expected: Reference, content: string,
                                   now: int, limits: Limits,
                                   isCredential: string -> bool)
    requires DistinctIds(rows) && expected.canonical == domain && isCredential(content)
    requires Commit(rows, actor, domain, expected, content, now, true, limits).1.Refreshed?
    ensures var (out, result) := Commit(rows, actor, domain, expected, content, now, true, limits);
      Credential(out, actor, domain, isCredential) == Some(result.reference)
      <==> forall c :: c in rows && Matches(c, actor, domain) ==> expected.id <= c.id
  {
    hide Commit, Canonical, FirstLive;
    CommittedRows(rows, actor, domain, expected, content, now, limits);
    var (out, result) := Commit(rows, actor, domain, expected, content, now, true, limits);
    var k :| 0 <= k < |rows| && rows[k].id == expected.id && Live(rows[k], actor, domain)
             && result.reference == ReferenceOf(Replaced(rows[k], content, true, now));
    FirstAfterwards(rows, out, actor, domain, content, now, k);
  }

  /** After the rewrite the first live row is row k exactly when k has the smallest number of the domain. */
  lemma FirstAfterwards(rows: Table, out: Table, actor: int, domain: string, content: string, now: int, k: nat)
    requires DistinctIds(rows) && Rewrote(rows, out, actor, domain, content, now)
    requires k < |rows| && Live(rows[k], actor, domain)
    ensures FirstLive(out, actor, domain).Some?
    ensures var first := FirstLive(out, actor, domain).value;
      && first.content == content
      && (ReferenceOf(first) == ReferenceOf(Replaced(rows[k], content, true, now))
          <==> forall c :: c in rows && Matches(c, actor, domain) ==> rows[k].id <= c.id)
  {
    hide Canonical, FirstLive;
    assert out[k] in out && Live(out[k], actor, domain);
    var first := FirstLive(out, actor, domain).value;
    var m :| 0 <= m < |out| && out[m] == first;
    assert Matches(rows[m], actor, domain) && rows[m] in rows;
    if forall c :: c in rows && Matches(c, actor, domain) ==> rows[k].id <= c.id {
      assert rows[m].id == rows[k].id;
    } else {
      var c :| c in rows && Matches(c, actor, domain) && c.id < rows[k].id;
      var j :| 0 <= j < |rows| && rows[j] == c;
      assert out[j] in out && Live(out[j], actor, domain);
    }
  }

  /** It does fail: with an invalid row in front of the valid one, under any spelling of the domain, the
      reference that a refresh hands back is not the one the next refresh accepts. */
  lemma RevivedDuplicateWins(stale: Cookie, valid: Cookie, actor: int, domain: string, content: string, now: int,
                             limits: Limits,
                             isCredential: string -> bool)
    requires Matches(stale, actor, domain) && !stale.isValid && Live(valid, actor, domain) && stale.id < valid.id
    requires isCredential(valid.content) && isCredential(content)
    requires limits.actorBytes >= 2 * |content| && limits.globalBytes >= 2 * |content|
    ensures var (out, result) := Commit([stale, valid], actor, domain, ReferenceOf(valid), content, now, true, limits);
      && Credential([stale, valid], actor, domain, isCredential) == Some(ReferenceOf(valid))
      && result.Refreshed? && Credential(out, actor, domain, isCredential) != Some(result.reference)
  {
    var rows := [stale, valid];
    UsageOfTwo(stale, valid, actor, domain);
    var first := FirstLive(rows, actor, domain);
    assert stale in rows && valid in rows;
    hide Canonical, UsageOf, Put;
    assert RowById(rows, valid.id, actor) == Some(valid);
    assert CookieQuota.CheckedPut(rows, actor, domain, content, now, limits).Some?;
    assert Commit(rows, actor, domain, ReferenceOf(valid), content, now, true, limits).1.Refreshed?;
    ReturnedReferenceIsCurrent(rows, actor, domain, ReferenceOf(valid), content, now, limits, isCredential);
  }

  lemma UsageOfTwo(a: Cookie, b: Cookie, actor: int, domain: string)
    requires Matches(a, actor, domain) && Matches(b, actor, domain)
    ensures var n := |a.content| + |b.content|; UsageOf([a, b], actor, domain) == Usage(2, n, n, 2, n)
  {
    hide Canonical;
    UsageSnoc([], a, actor, domain);
    UsageSnoc([a], b, actor, domain);
    assert [] + [a] == [a] && [a] + [b] == [a, b];
  }
}
