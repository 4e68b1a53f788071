/** Every writer of personal cookies, told from its effect: exactly when it is accepted, with the sums of the quota
    written out, and exactly which row says what afterwards. */
module CookieEffects {
  import opened Prelude
  import opened CookieTable
  import opened CookieQuota
  import OAuthRefresh

  // ----- what the table functions mean -----

  function Count(rows: Table, pick: Cookie -> bool): nat {
    if rows == [] then 0 else (if pick(rows[0]) then 1 else 0) + Count(rows[1..], pick)
  }

  function Bytes(rows: Table, pick: Cookie -> bool): nat {
    if rows == [] then 0 else (if pick(rows[0]) then |rows[0].content| else 0) + Bytes(rows[1..], pick)
  }

  lemma {:induction false} CountSnoc(rows: Table, c: Cookie, pick: Cookie -> bool)
    ensures Count(rows + [c], pick) == Count(rows, pick) + if pick(c) then 1 else 0
    ensures Bytes(rows + [c], pick) == Bytes(rows, pick) + if pick(c) then |c.content| else 0
  {
    if rows == [] {
      assert [] + [c] == [c];
    } else {
      assert (rows + [c])[1..] == rows[1..] + [c];
      CountSnoc(rows[1..], c, pick);
    }
  }

  /** The five columns of the usage query are counts and byte sums over the rows outside the pool. */
  lemma {:induction false} UsageColumns(rows: Table, actor: int, domain: string, own: Cookie -> bool,
                                        all: Cookie -> bool, same: Cookie -> bool)
    requires forall c :: own(c) <==> !c.isPool && c.user == actor
    requires forall c :: all(c) <==> !c.isPool
    requires forall c :: same(c) <==> !c.isPool && c.user == actor && Canonical(c.domain) == domain
    ensures UsageOf(rows, actor, domain)
         == Usage(Count(rows, own), Bytes(rows, own), Bytes(rows, all), Count(rows, same), Bytes(rows, same))
  {
    hide Canonical;
    if rows != [] {
      var init, last := rows[..|rows| - 1], rows[|rows| - 1];
      UsageColumns(init, actor, domain, own, all, same);
      CountSnoc(init, last, own);
      CountSnoc(init, last, all);
      CountSnoc(init, last, same);
      assert rows == init + [last];
    }
  }

  lemma {:induction false} PoolColumn(rows: Table, pool: Cookie -> bool)
    requires forall c :: pool(c) <==> c.isPool
    ensures PoolBytes(rows) == Bytes(rows, pool)
  {
    if rows != [] {
      var init, last := rows[..|rows| - 1], rows[|rows| - 1];
      PoolColumn(init, pool);
      CountSnoc(init, last, pool);
      assert rows == init + [last];
    }
  }

  predicate Dots(s: string) {
    forall i :: 0 <= i < |s| ==> s[i] == '.'
  }

  lemma {:induction false} TrimBackDots(core: string, back: string)
    requires Dots(back) && (core == "" || core[|core| - 1] != '.')
    ensures TrimBack(core + back) == core
  {
    if back == "" {
      assert core + back == core;
    } else {
      assert (core + back)[..|core + back| - 1] == core + back[..|back| - 1];
      TrimBackDots(core, back[..|back| - 1]);
    }
  }

  lemma {:induction false} TrimFrontDots(front: string, rest: string)
    requires Dots(front) && (rest == "" || rest[0] != '.')
    ensures TrimFront(front + rest) == rest
  {
    if front == "" {
      assert front + rest == rest;
    } else {
      assert (front + rest)[1..] == front[1..] + rest;
      TrimFrontDots(front[1..], rest);
    }
  }

  /** The canonical form drops the dots at both ends and writes the rest in small letters. */
  lemma CanonicalDropsDots(front: string, core: string, back: string)
    requires Dots(front) && Dots(back)
    requires core == "" ==> back == ""
    requires core != "" ==> core[0] != '.' && core[|core| - 1] != '.'
    ensures var d := Canonical(front + core + back);
      && |d| == |core|
      && forall i :: 0 <= i < |d| ==>
           d[i] == if 'A' <= core[i] <= 'Z' then ((core[i] - 'A') as int + 'a' as int) as char else core[i]
  {
    assert front + core + back == front + (core + back);
    TrimFrontDots(front, core + back);
    TrimBackDots(core, back);
    forall i | 0 <= i < |core|
      ensures |Lower(core)| == |core| && Lower(core)[i] == LowerChar(core[i])
    {
      LowerAt(core, i);
    }
    if core != "" {
      LowerAt(core, 0);
    }
  }

  /** A domain parses, to its canonical form, exactly when it is short ASCII and that form is a host name: labels
      of 1 to 63 letters, digits and inner hyphens. */
  lemma DomainParses(value: string)
    ensures var d := Canonical(value);
      && ParseDomain(value).Some? == (
           && 1 <= |value| <= 255 && (forall c :: c in value ==> c as int < 128) && 1 <= |d| <= 253
           && (forall part :: part in Split(d, '.') ==>
                 && 1 <= |part| <= 63 && part[0] != '-' && part[|part| - 1] != '-'
                 && (forall c :: c in part ==> 'a' <= c <= 'z' || '0' <= c <= '9' || c == '-')))
      && (ParseDomain(value).Some? ==> ParseDomain(value).value == d)
  {
    hide Canonical, Split;
  }

  // ----- one row more or rows rewritten -----

  /** A row of `actor` outside the pool whose domain is `domain`, up to case and outer dots. */
  predicate Theirs(c: Cookie, actor: int, domain: string) {
    !c.isPool && c.user == actor && Canonical(c.domain) == domain
  }

  predicate IsNew(c: Cookie, rows: Table, actor: int, domain: string, content: string, valid: bool, now: int) {
    && c == Cookie(c.id, actor, domain, content, false, valid, now, now, None, None, None)
    && c.id >= 1 && (forall r :: r in rows ==> r.id < c.id)
    && (c.id == 1 || exists r :: r in rows && r.id == c.id - 1)
  }

  /** Row by row, what the update-or-insert of the web and sign-in writers does to the table. */
  predicate Written(before: Table, after: Table, actor: int, domain: string, content: string, valid: bool, now: int) {
    && |before| <= |after|
    && (forall i :: 0 <= i < |before| ==>
          after[i] == if !Theirs(before[i], actor, domain) then before[i] else
            before[i].(content := content, isValid := valid, updatedAt := now, validatedAt := None,
                       contentHash := None))
    && (if exists c :: c in before && Theirs(c, actor, domain) then |after| == |before|
        else |after| == |before| + 1 && IsNew(after[|before|], before, actor, domain, content, valid, now))
  }

  /** Growing is allowed up to the limit, and staying or shrinking always is. */
  predicate Within(before: int, after: int, limit: nat) {
    after <= before || after <= limit
  }

  /** The quota's answer to a jar of `size` bytes for `domain`, which replaces every row of the domain by a copy. */
  predicate Admits(rows: Table, actor: int, domain: string, size: nat, limits: Limits) {
    var u := UsageOf(rows, actor, domain);
    var copies := if u.replacedRows > 1 then u.replacedRows else 1;
    && Within(u.actorRows, if u.replacedRows == 0 then u.actorRows + 1 else u.actorRows, limits.domains)
    && Within(u.actorBytes, u.actorBytes - u.replacedBytes + size * copies, limits.actorBytes)
    && Within(u.globalBytes, u.globalBytes - u.replacedBytes + size * copies, limits.globalBytes)
  }

  lemma {:induction false} FreshIdIsNext(rows: Table)
    ensures FreshId(rows) == 1 || exists r :: r in rows && r.id == FreshId(rows) - 1
  {
    if rows != [] {
      FreshIdIsNext(rows[..|rows| - 1]);
      assert rows[|rows| - 1] in rows;
    }
  }

  lemma PutWrites(rows: Table, actor: int, domain: string, content: string, valid: bool, now: int)
    ensures Written(rows, Put(rows, actor, domain, content, valid, now), actor, domain, content, valid, now)
  {
    hide Canonical, UsageOf, FreshId, UpdateAll;
    NothingReplaced(rows, actor, domain);
    TheirsMatch(actor, domain);
    if UsageOf(rows, actor, domain).replacedRows == 0 {
      FreshIdIsNext(rows);
      assert forall c :: c in rows ==> !Theirs(c, actor, domain);
    } else {
      var c :| c in rows && Matches(c, actor, domain);
      assert Theirs(c, actor, domain);
      var out := UpdateAll(rows, actor, domain, content, valid, now);
      forall i | 0 <= i < |rows|
        ensures |out| == |rows|
        ensures out[i] == if Matches(rows[i], actor, domain) then Replaced(rows[i], content, valid, now) else rows[i]
      {
        UpdateAllAt(rows, actor, domain, content, valid, now, i);
      }
    }
  }

  lemma TheirsMatch(actor: int, domain: string)
    ensures forall c :: Theirs(c, actor, domain) <==> Matches(c, actor, domain)
  {
  }

  /** The sign-in's write goes through exactly when the quota admits it, and then it is that row change. */
  lemma SignInWriteIsChecked(rows: Table, actor: int, content: string, now: int, limits: Limits)
    ensures var written := OAuthWrite(rows, actor, content, now, limits);
      && (written.Some? <==> Admits(rows, actor, "youtube.com", |content|, limits))
      && (written.Some? ==> Written(rows, written.value, actor, "youtube.com", content, true, now))
  {
    CheckedPutIsChecked(rows, actor, "youtube.com", content, now, limits);
  }

  lemma CheckedPutIsChecked(rows: Table, actor: int, domain: string, content: string, now: int, limits: Limits)
    ensures var written := CheckedPut(rows, actor, domain, content, now, limits);
      && (written.Some? <==> Admits(rows, actor, domain, |content|, limits))
      && (written.Some? ==> Written(rows, written.value, actor, domain, content, true, now))
  {
    hide UsageOf, Put, Written;
    PutWrites(rows, actor, domain, content, true, now);
  }

  // ----- the web submission -----

  /** The table that the first `k` jars of a batch leave, when they are admitted one after another. */
  function AfterJars(rows: Table, actor: int, inputs: seq<Input>, domains: seq<string>, k: nat, now: int,
                     limits: Limits): Option<Table>
    requires k <= |inputs| == |domains|
  {
    WriteAll(rows, actor, inputs[..k], domains[..k], now, limits)
  }

  lemma FirstJar(rows: Table, actor: int, inputs: seq<Input>, domains: seq<string>, k: nat, now: int, limits: Limits)
    requires 0 < k <= |inputs| == |domains|
    ensures AfterJars(rows, actor, inputs, domains, k, now, limits) ==
      if !Admits(rows, actor, domains[0], |inputs[0].content|, limits) then None
      else
        AfterJars(Put(rows, actor, domains[0], inputs[0].content, inputs[0].labelled, now), actor, inputs[1..],
                  domains[1..], k - 1, now, limits)
  {
    assert inputs[..k][1..] == inputs[1..][..k - 1] && domains[..k][1..] == domains[1..][..k - 1];
    FitsIsAdmits(rows, actor, domains[0], |inputs[0].content|, limits);
    hide UsageOf, Put, Admits, Fits;
  }

  /** The jars of a batch are checked and written in order, each on what those before it left. */
  lemma {:induction false} JarsInTurn(rows: Table, actor: int, inputs: seq<Input>, domains: seq<string>, k: nat,
                                      now: int, limits: Limits)
    requires k <= |inputs| == |domains|
    ensures k == 0 ==> AfterJars(rows, actor, inputs, domains, 0, now, limits) == Some(rows)
    ensures k > 0 ==>
      var before := AfterJars(rows, actor, inputs, domains, k - 1, now, limits);
      var after := AfterJars(rows, actor, inputs, domains, k, now, limits);
      var jar := inputs[k - 1];
      && (after.Some? <==> before.Some? && Admits(before.value, actor, domains[k - 1], |jar.content|, limits))
      && (after.Some? ==>
            Written(before.value, after.value, actor, domains[k - 1], jar.content, jar.labelled, now))
    decreases k
  {
    hide UsageOf, Put, Written, Admits;
    if k > 0 {
      FirstJar(rows, actor, inputs, domains, k, now, limits);
      var mid := Put(rows, actor, domains[0], inputs[0].content, inputs[0].labelled, now);
      if k > 1 {
        FirstJar(rows, actor, inputs, domains, k - 1, now, limits);
        JarsInTurn(mid, actor, inputs[1..], domains[1..], k - 1, now, limits);
      } else {
        PutWrites(rows, actor, domains[0], inputs[0].content, inputs[0].labelled, now);
      }
    }
  }

  lemma FitsIsAdmits(rows: Table, actor: int, domain: string, size: nat, limits: Limits)
    ensures Fits(UsageOf(rows, actor, domain), PredictPut(UsageOf(rows, actor, domain), size), limits)
       <==> Admits(rows, actor, domain, size, limits)
  {
    hide UsageOf;
  }

  /** A submission is refused for a jar that is unsound or whose domain does not parse, or for two jars of one
      domain; then for the caller; then for the first jar that does not fit. Otherwise every jar was written, and
      a token is spent. */
  lemma SubmissionIsChecked(v: Vault, caller: Caller, inputs: seq<Input>, now: int, authorized: bool, limits: Limits)
    ensures var (w, error) := Submit(v, caller, inputs, now, authorized, limits);
      var names := seq(|inputs|, i requires 0 <= i < |inputs| => Canonical(inputs[i].domain));
      var sound := forall i :: 0 <= i < |inputs| ==> inputs[i].sound && ParseDomain(inputs[i].domain).Some?;
      var distinct := forall i, j :: 0 <= i < j < |inputs| ==> names[i] != names[j];
      var known := caller.Actor? || (caller.hash in v.tokens && v.tokens[caller.hash].expires > now);
      && (error == Some(InvalidInput) <==> !(sound && distinct))
      && (error == Some(Denied) <==> sound && distinct && !(known && authorized))
      && (error.Some? ==> w == v)
      && (sound && distinct && known && authorized ==>
            var actor := if caller.Actor? then caller.id else v.tokens[caller.hash].user;
            var full := AfterJars(v.rows, actor, inputs, names, |inputs|, now, limits);
            && (error.None? <==> full.Some?) && (error == Some(Capacity) <==> full.None?)
            && (error.None? ==> w.rows == full.value && w.marks == v.marks
                                && w.tokens == if caller.Actor? then v.tokens else v.tokens - {caller.hash}))
  {
    hide WriteAll, Canonical, ParseDomain;
    var names := seq(|inputs|, i requires 0 <= i < |inputs| => Canonical(inputs[i].domain));
    if forall i :: 0 <= i < |inputs| ==> inputs[i].sound && ParseDomain(inputs[i].domain).Some? {
      DomainsCollect(inputs, names);
      assert inputs[..|inputs|] == inputs && names[..|inputs|] == names;
    } else {
      var i :| 0 <= i < |inputs| && !(inputs[i].sound && ParseDomain(inputs[i].domain).Some?);
      DomainsReject(inputs, i);
    }
  }

  // ----- message upload and removal -----

  /** An upload is done exactly when it is sound, authorized and newer than the actor's mark, and each of the three
      sums it leaves does not grow or is within its limit. The mark is set even when the sums refuse it. */
  lemma UploadIsChecked(v: Vault, actor: int, message: int, domain: string, content: string, sound: bool,
                        authorized: bool, now: int, limits: Limits)
    ensures var (w, receipt) := Upload(v, actor, message, domain, content, sound, authorized, now, limits);
      var u := UsageOf(v.rows, actor, domain);
      var looked := message > 0 && sound && authorized && (actor in v.marks ==> v.marks[actor] < message);
      && (receipt == Done <==>
            && looked
            && Within(u.actorRows, u.actorRows - u.replacedRows + 1, limits.domains)
            && Within(u.actorBytes, u.actorBytes - u.replacedBytes + |content|, limits.actorBytes)
            && Within(u.globalBytes, u.globalBytes - u.replacedBytes + |content|, limits.globalBytes))
      && (receipt == Refused(InvalidInput) <==> message <= 0 || !sound)
      && (receipt == Refused(Denied) <==> message > 0 && sound && !authorized)
      && (receipt == Refused(Capacity) <==> looked && receipt != Done)
      && w.marks == (if looked then v.marks[actor := message] else v.marks) && w.tokens == v.tokens
      && (receipt != Done ==> w.rows == v.rows)
  {
    hide UsageOf, Swap;
  }

  /** An upload that is done is stored: the domain has one row, with this text, valid and stamped now, and the rows
      that are not the actor's for this domain are exactly those that were there, in their order. */
  lemma UploadIsStored(v: Vault, actor: int, message: int, domain: string, content: string, sound: bool,
                       authorized: bool, now: int, limits: Limits, same: Cookie -> bool)
    requires Canonical(domain) == domain && forall c :: same(c) <==> Theirs(c, actor, domain)
    ensures var (w, receipt) := Upload(v, actor, message, domain, content, sound, authorized, now, limits);
      receipt == Done ==>
        var kept := Picked(v.rows, same);
        && |w.rows| == |kept| + 1 && w.rows[..|kept|] == kept && Count(w.rows, same) == 1
        && IsNew(w.rows[|kept|], kept, actor, domain, content, true, now)
  {
    hide Canonical;
    var kept := Picked(v.rows, same);
    WithoutPicks(v.rows, actor, Some(domain), same);
    FreshIdIsNext(kept);
    NoneLeft(v.rows, same);
    CountSnoc(kept, NewRow(kept, actor, domain, content, true, now), same);
  }

  /** The rows that `drop` does not name, in their order. */
  function Picked(rows: Table, drop: Cookie -> bool): Table {
    if rows == [] then [] else (if drop(rows[0]) then [] else [rows[0]]) + Picked(rows[1..], drop)
  }

  lemma {:induction false} PickedSnoc(rows: Table, c: Cookie, drop: Cookie -> bool)
    ensures Picked(rows + [c], drop) == Picked(rows, drop) + if drop(c) then [] else [c]
  {
    if rows == [] {
      assert [] + [c] == [c];
    } else {
      assert (rows + [c])[1..] == rows[1..] + [c];
      PickedSnoc(rows[1..], c, drop);
    }
  }

  lemma {:induction false} NoneLeft(rows: Table, drop: Cookie -> bool)
    ensures Count(Picked(rows, drop), drop) == 0
  {
    if rows != [] {
      NoneLeft(rows[1..], drop);
      var tail := Picked(rows[1..], drop);
      if drop(rows[0]) {
        assert Picked(rows, drop) == tail;
      } else {
        assert ([rows[0]] + tail)[1..] == tail;
      }
    }
  }

  lemma {:induction false} WithoutPicks(rows: Table, actor: int, domain: Option<string>, drop: Cookie -> bool)
    requires forall c :: drop(c) <==>
      !c.isPool && c.user == actor && (domain.None? || Canonical(c.domain) == domain.value)
    ensures Without(rows, actor, domain) == Picked(rows, drop)
  {
    hide Canonical;
    if rows != [] {
      var init, last := rows[..|rows| - 1], rows[|rows| - 1];
      WithoutPicks(init, actor, domain, drop);
      PickedSnoc(init, last, drop);
      assert rows == init + [last];
    }
  }

  /** A removal message takes the actor's rows of the domain, or all of them, and leaves everything else. */
  lemma RemovalIsDone(v: Vault, actor: int, message: int, domain: Option<string>, authorized: bool,
                      drop: Cookie -> bool)
    requires forall c :: drop(c) <==>
      !c.isPool && c.user == actor && (domain.None? || Canonical(c.domain) == domain.value)
    ensures var (w, receipt) := Remove(v, actor, message, domain, authorized);
      && (receipt == Done <==> message > 0 && authorized && (actor in v.marks ==> v.marks[actor] < message))
      && (receipt == Done ==> w == Vault(Picked(v.rows, drop), v.tokens, v.marks[actor := message]))
      && (receipt != Done ==> w == v)
      && (receipt == Refused(InvalidInput) <==> message <= 0)
      && (receipt == Refused(Denied) <==> message > 0 && !authorized)
      && (receipt == Refused(Capacity) <==> false)
  {
    WithoutPicks(v.rows, actor, domain, drop);
  }

  /** A deletion takes a row by number, or the caller's rows of a domain; only an administrator who names a row may
      take one that is not the caller's own. */
  lemma DeletionIsDone(rows: Table, actor: int, id: Option<int>, domain: Option<string>, admin: bool, authorized: bool,
                       drop: Cookie -> bool)
    requires forall c :: drop(c) <==>
      && ((!c.isPool && c.user == actor) || (admin && id.Some?))
      && ((id.Some? && c.id == id.value) || (domain.Some? && Canonical(c.domain) == Canonical(domain.value)))
    ensures WebDelete(rows, actor, id, domain, admin, authorized)
         == if authorized && (domain.None? || ParseDomain(domain.value).Some?) then Picked(rows, drop) else rows
  {
    var parsed := if domain.Some? then ParseDomain(domain.value) else None;
    if authorized && (domain.None? || ParseDomain(domain.value).Some?) {
      ErasePicks(rows, actor, id, parsed, admin, drop);
    }
  }

  lemma {:induction false} ErasePicks(rows: Table, actor: int, id: Option<int>, domain: Option<string>, admin: bool,
                                      drop: Cookie -> bool)
    requires forall c :: drop(c) <==> Deletes(c, actor, id, domain, admin)
    ensures Erase(rows, actor, id, domain, admin) == Picked(rows, drop)
  {
    hide Deletes;
    if rows != [] {
      var init, last := rows[..|rows| - 1], rows[|rows| - 1];
      ErasePicks(init, actor, id, domain, admin, drop);
      PickedSnoc(init, last, drop);
      assert rows == init + [last];
    }
  }

  // ----- compare-and-write -----

  /** A live validation writes exactly when the row it read is still there with the same text, stamp, domain and
      owner, the caller may, and a longer text fits: in the pool under its own limit, else under both quotas. */
  lemma ValidationIsChecked(rows: Table, i: nat, seen: Cookie, rewritten: string, updated: bool, valid: bool,
                            allowed: bool, now: int, limits: Limits, pool: Cookie -> bool)
    requires i < |rows| && forall j :: 0 <= j < |rows| && j != i ==> rows[j].id != rows[i].id
    requires forall c :: pool(c) <==> c.isPool
    ensures var row := rows[i];
      var (out, error) := Revalidate(rows, row.id, seen, rewritten, updated, valid, allowed, now, limits);
      var same := row.content == seen.content && row.updatedAt == seen.updatedAt && row.domain == seen.domain
                  && row.user == seen.user && row.isPool == seen.isPool;
      var growth, usage := |rewritten| - |seen.content|, UsageOf(rows, row.user, row.domain);
      var fits := growth <= 0 || (if row.isPool then Bytes(rows, pool) + growth <= 1073741824
                                  else usage.actorBytes + growth <= limits.actorBytes
                                       && usage.globalBytes + growth <= limits.globalBytes);
      && (error.None? <==> allowed && same && fits)
      && (error == Some(Denied) <==> !allowed) && (error == Some(Capacity) <==> allowed && same && !fits)
      && (error.Some? ==> out == rows)
      && (error.None? ==>
            && |out| == |rows| && (forall j :: 0 <= j < |rows| && j != i ==> out[j] == rows[j])
            && var content := if updated then rewritten else row.content;
               out[i] == row.(content := content, isValid := valid, validatedAt := Some(now),
                              updatedAt := if content == row.content then row.updatedAt else now))
  {
    FoundAt(rows, i);
    PoolColumn(rows, pool);
    hide UsageOf, FindRow, PoolBytes, Bytes;
  }

  lemma FoundAt(rows: Table, i: nat)
    requires i < |rows| && forall j :: 0 <= j < |rows| && j != i ==> rows[j].id != rows[i].id
    ensures FindRow(rows, rows[i].id) == Some(i)
  {
    assert rows[i] in rows;
  }

  /** A refresh before admission writes exactly when the actor's own row is still there, valid, with the same text
      and stamp; both texts are bounded and the stamp can rise. The stamp then always rises. */
  lemma RowRefreshIsChecked(rows: Table, i: nat, actor: int, seen: Cookie, replacement: string, allowed: bool, at: int)
    requires i < |rows| && forall j :: 0 <= j < |rows| && j != i ==> rows[j].id != rows[i].id
    ensures var row := rows[i];
      var (out, accepted) := RefreshRow(rows, row.id, actor, seen, replacement, allowed, at);
      && (accepted <==>
            && allowed && row.isValid && !row.isPool && row.user == actor && seen.user == actor && !seen.isPool
            && row.content == seen.content && row.domain == seen.domain && row.updatedAt == seen.updatedAt
            && |row.content| <= 65536 && |replacement| <= 65536 && 0 <= row.updatedAt < 0x7FFF_FFFF_FFFF_FFFF)
      && (!accepted ==> out == rows)
      && (accepted ==>
            && |out| == |rows| && (forall j :: 0 <= j < |rows| && j != i ==> out[j] == rows[j])
            && out[i] == row.(content := replacement, updatedAt := out[i].updatedAt)
            && out[i].updatedAt > row.updatedAt && out[i].updatedAt >= at
            && out[i].updatedAt in {at, row.updatedAt + 1})
  {
    FoundAt(rows, i);
    hide FindRow;
  }

  /** A sign-in refresh is committed exactly when its caller may, the row it read is still the caller's own valid row
      with the same text, domain and stamp, and the quota admits the new text; then it is that row change, and it
      returns its reference with the new text and stamp. */
  lemma CommitIsChecked(rows: Table, i: nat, actor: int, domain: string, expected: OAuthRefresh.Reference,
                        content: string, now: int, authorized: bool, limits: Limits)
    requires i < |rows| && forall j :: 0 <= j < |rows| && j != i ==> rows[j].id != rows[i].id
    requires expected.id == rows[i].id
    ensures var row, seen := rows[i], expected.version;
      var (out, result) := OAuthRefresh.Commit(rows, actor, domain, expected, content, now, authorized, limits);
      var same := row.isValid && !row.isPool && row.user == actor && expected.user == actor
                  && expected.canonical == Canonical(row.domain) && seen.content == row.content
                  && seen.domain == row.domain && seen.updatedAt == row.updatedAt;
      var fits := Admits(rows, actor, domain, |content|, limits);
      && (result.Refreshed? <==> authorized && same && fits)
      && (result == OAuthRefresh.Refused(OAuthRefresh.Unauthorized) <==> !authorized)
      && (result == OAuthRefresh.Refused(OAuthRefresh.ChangedCredentials) <==> authorized && !same)
      && (result.Refused? ==> out == rows)
      && (result.Refreshed? ==>
            && Written(rows, out, actor, domain, content, true, now)
            && result.reference == expected.(version := OAuthRefresh.Version(content, row.domain, now)))
  {
    hide Canonical, Written, Admits, CheckedPut;
    CheckedPutIsChecked(rows, actor, domain, content, now, limits);
    RowIsFound(rows, i, actor);
  }

  /** And with the row gone it is refused. */
  lemma RowIsGone(rows: Table, id: int, actor: int)
    requires forall c :: c in rows ==> c.id != id
    ensures OAuthRefresh.RowById(rows, id, actor).None?
  {
  }

  lemma {:induction false} RowIsFound(rows: Table, i: nat, actor: int)
    requires i < |rows| && forall j :: 0 <= j < |rows| && j != i ==> rows[j].id != rows[i].id
    ensures OAuthRefresh.RowById(rows, rows[i].id, actor)
      == if rows[i].isValid && !rows[i].isPool && rows[i].user == actor then Some(rows[i]) else None
  {
    var init, last := rows[..|rows| - 1], rows[|rows| - 1];
    if i < |rows| - 1 {
      RowIsFound(init, i, actor);
    } else {
      forall c | c in init
        ensures c.id != last.id
      {
        var j :| 0 <= j < |init| && init[j] == c;
        assert rows[j] == c;
      }
      RowIsGone(init, last.id, actor);
    }
  }

  /** The credential a sign-in reads is that of the lowest-numbered valid row of the caller for the domain, when that
      row holds one at all. */
  lemma CredentialIsFirst(rows: Table, actor: int, domain: string, isCredential: string -> bool, i: nat)
    requires i < |rows| && rows[i].isValid && Theirs(rows[i], actor, domain)
    requires forall j :: 0 <= j < |rows| && j != i && rows[j].isValid && Theirs(rows[j], actor, domain) ==>
      rows[i].id < rows[j].id
    ensures var row := rows[i];
      OAuthRefresh.Credential(rows, actor, domain, isCredential)
        == if !isCredential(row.content) then None else
           Some(OAuthRefresh.Reference(row.id, actor, domain,
                                       OAuthRefresh.Version(row.content, row.domain, row.updatedAt)))
  {
    hide Canonical;
    assert rows[i] in rows && OAuthRefresh.Live(rows[i], actor, domain);
    var found := OAuthRefresh.FirstLive(rows, actor, domain);
    var j :| 0 <= j < |rows| && rows[j] == found.value;
  }

  /** A row that is not there changes nothing. */
  lemma MissingRow(rows: Table, id: int, actor: int, seen: Cookie, text: string, updated: bool, valid: bool,
                   allowed: bool, at: int, limits: Limits)
    requires forall c :: c in rows ==> c.id != id
    ensures Revalidate(rows, id, seen, text, updated, valid, allowed, at, limits) == (rows, Some(Changed))
    ensures RefreshRow(rows, id, actor, seen, text, allowed, at) == (rows, false)
  {
  }
}
