/** Every way a personal cookie enters the table, with its quota check: the web and token submission, the
    OAuth write, the message upload with its watermark, and the compare-and-write after a live validation. */
module CookieQuota {
  import opened Prelude
  import opened CookieTable

  /** One submitted jar. `sound` is the outcome of the checks of `validate` on its text and hosts, `labelled` says that
      an account label was found in it. */
  datatype Input = Input(domain: string, content: string, sound: bool, labelled: bool)
  datatype Error = InvalidInput | Denied | Capacity | Changed
  datatype Token = Token(user: int, expires: int)
  datatype Caller = Actor(id: int) | Bearer(hash: string)
  datatype Vault = Vault(rows: Table, tokens: map<string, Token>, marks: map<int, int>)

  const POOL_BYTES := 1024 * 1024 * 1024

  // ----- the web write -----

  function DomainOf(input: Input): Option<string> {
    if input.sound then ParseDomain(input.domain) else None
  }

  function DomainsOf(inputs: seq<Input>): Option<seq<string>> {
    if inputs == [] then Some([])
    else
      var head, tail := DomainOf(inputs[0]), DomainsOf(inputs[1..]);
      if head.None? || tail.None? then None else Some([head.value] + tail.value)
  }

  predicate Distinct(domains: seq<string>) {
    forall i, j :: 0 <= i < j < |domains| ==> domains[i] != domains[j]
  }

  function WriteAll(rows: Table, actor: int, inputs: seq<Input>, domains: seq<string>, now: int,
                    limits: Limits): Option<Table>
    requires |domains| == |inputs|
    decreases |inputs|
  {
    if inputs == [] then Some(rows)
    else
      var input, domain := inputs[0], domains[0];
      var usage := UsageOf(rows, actor, domain);
      if !Fits(usage, PredictPut(usage, |input.content|), limits) then None
      else
        var mid := Put(rows, actor, domain, input.content, input.labelled, now);
        WriteAll(mid, actor, inputs[1..], domains[1..], now, limits)
  }

  lemma {:induction false} DomainsCanonical(inputs: seq<Input>)
    requires DomainsOf(inputs).Some?
    ensures |DomainsOf(inputs).value| == |inputs|
    ensures forall i :: 0 <= i < |inputs| ==>
      DomainOf(inputs[i]) == Some(DomainsOf(inputs).value[i])
      && Canonical(DomainsOf(inputs).value[i]) == DomainsOf(inputs).value[i]
  {
    if inputs != [] {
      DomainsCanonical(inputs[1..]);
      CanonicalIsStable(inputs[0].domain);
    }
  }

  lemma {:induction false} DomainsCollect(inputs: seq<Input>, domains: seq<string>)
    requires |domains| == |inputs|
    requires forall i :: 0 <= i < |inputs| ==> DomainOf(inputs[i]) == Some(domains[i])
    ensures DomainsOf(inputs) == Some(domains)
  {
    if inputs != [] {
      DomainsCollect(inputs[1..], domains[1..]);
      assert [domains[0]] + domains[1..] == domains;
    }
  }

  lemma {:induction false} DomainsReject(inputs: seq<Input>, i: nat)
    requires i < |inputs| && DomainOf(inputs[i]).None?
    ensures DomainsOf(inputs).None?
  {
    if i > 0 {
      DomainsReject(inputs[1..], i - 1);
    }
  }

  /** The transaction of web_write: nothing changes unless every domain was written. */
  function Submit(v: Vault, caller: Caller, inputs: seq<Input>, now: int, authorized: bool, limits: Limits): (Vault,
                  Option<Error>) {
    var domains := DomainsOf(inputs);
    if domains.None? then (v, Some(InvalidInput))
    else
      DomainsCanonical(inputs);
      if !Distinct(domains.value) then (v, Some(InvalidInput))
      else if caller.Bearer? && (caller.hash !in v.tokens || v.tokens[caller.hash].expires <= now)
      then (v, Some(Denied))
      else if !authorized then (v, Some(Denied))
      else
        var actor := if caller.Bearer? then v.tokens[caller.hash].user else caller.id;
        var written := WriteAll(v.rows, actor, inputs, domains.value, now, limits);
        if written.None? then (v, Some(Capacity))
        else (v.(rows := written.value, tokens := if caller.Bearer? then v.tokens - {caller.hash} else v.tokens), None)
  }

  /** Holds of a finished submission: each domain's personal rows all carry its jar, and rows of other
      users, of the pool and of other domains are the ones that were there. */
  ghost predicate Submitted(before: Table, after: Table, actor: int, inputs: seq<Input>, domains: seq<string>)
    requires |domains| == |inputs|
  {
    && (forall i :: 0 <= i < |inputs| ==>
          && (exists c :: c in after && Matches(c, actor, domains[i]))
          && (forall c :: c in after && Matches(c, actor, domains[i]) ==> c.content == inputs[i].content))
    && (forall c :: (forall i :: 0 <= i < |inputs| ==> !Matches(c, actor, domains[i])) ==>
          (c in after <==> c in before))
  }

  lemma {:induction false} WriteAllSubmits(rows: Table, actor: int, inputs: seq<Input>, domains: seq<string>,
                                           now: int, limits: Limits)
    requires |domains| == |inputs| && Distinct(domains)
    requires forall i :: 0 <= i < |domains| ==> Canonical(domains[i]) == domains[i]
    requires WriteAll(rows, actor, inputs, domains, now, limits).Some?
    ensures Submitted(rows, WriteAll(rows, actor, inputs, domains, now, limits).value, actor, inputs, domains)
    decreases |inputs|
  {
    if inputs != [] {
      var mid := Put(rows, actor, domains[0], inputs[0].content, inputs[0].labelled, now);
      PutContents(rows, actor, domains[0], inputs[0].content, inputs[0].labelled, now);
      WriteAllSubmits(mid, actor, inputs[1..], domains[1..], now, limits);
      SubmittedCons(rows, mid, WriteAll(rows, actor, inputs, domains, now, limits).value, actor, inputs, domains);
    }
  }

  lemma SubmittedCons(rows: Table, mid: Table, after: Table, actor: int, inputs: seq<Input>, domains: seq<string>)
    requires |domains| == |inputs| > 0 && Distinct(domains)
    requires Submitted(mid, after, actor, inputs[1..], domains[1..])
    requires exists c :: c in mid && Matches(c, actor, domains[0])
    requires forall c :: c in mid && Matches(c, actor, domains[0]) ==> c.content == inputs[0].content
    requires forall c :: !Matches(c, actor, domains[0]) ==> (c in mid <==> c in rows)
    ensures Submitted(rows, after, actor, inputs, domains)
  {
    forall c | Matches(c, actor, domains[0])
      ensures c in after <==> c in mid
    {
      assert forall i :: 0 <= i < |inputs| - 1 ==> domains[1..][i] == domains[i + 1];
    }
    forall i | 0 <= i < |inputs|
      ensures exists c :: c in after && Matches(c, actor, domains[i])
      ensures forall c :: c in after && Matches(c, actor, domains[i]) ==> c.content == inputs[i].content
    {
      if i == 0 {
        var c :| c in mid && Matches(c, actor, domains[0]);
        assert c in after;
      } else {
        assert domains[1..][i - 1] == domains[i] && inputs[1..][i - 1] == inputs[i];
      }
    }
    forall c | forall i :: 0 <= i < |inputs| ==> !Matches(c, actor, domains[i])
      ensures c in after <==> c in rows
    {
      assert forall i :: 0 <= i < |inputs| - 1 ==> domains[1..][i] == domains[i + 1];
      assert !Matches(c, actor, domains[0]);
    }
  }

  /** A token submission is all-or-nothing and spends the token exactly when it commits: afterwards the
      same token is refused, whatever it carries. */
  lemma TokenSubmission(v: Vault, hash: string, inputs: seq<Input>, now: int, authorized: bool, limits: Limits,
                        again: seq<Input>, later: int)
    ensures var (w, error) := Submit(v, Bearer(hash), inputs, now, authorized, limits);
      && (error.Some? ==> w == v)
      && (error.None? ==>
            && hash in v.tokens && now < v.tokens[hash].expires && authorized && hash !in w.tokens
            && DomainsOf(inputs).Some? && |DomainsOf(inputs).value| == |inputs|
            && Submitted(v.rows, w.rows, v.tokens[hash].user, inputs, DomainsOf(inputs).value)
            && Submit(w, Bearer(hash), again, later, true, limits).0 == w
            && Submit(w, Bearer(hash), again, later, true, limits).1.Some?)
  {
    var (w, error) := Submit(v, Bearer(hash), inputs, now, authorized, limits);
    if error.None? {
      DomainsCanonical(inputs);
      WriteAllSubmits(v.rows, v.tokens[hash].user, inputs, DomainsOf(inputs).value, now, limits);
    }
  }

  // ----- OAuth write, message upload, message removal, compare-and-write -----

  function OAuthWrite(rows: Table, actor: int, content: string, now: int, limits: Limits): Option<Table> {
    CheckedPut(rows, actor, "youtube.com", content, now, limits)
  }

  function CheckedPut(rows: Table, actor: int, domain: string, content: string, now: int,
                      limits: Limits): Option<Table> {
    var usage := UsageOf(rows, actor, domain);
    if Fits(usage, PredictPut(usage, |content|), limits)
    then Some(Put(rows, actor, domain, content, true, now))
    else None
  }

  datatype Receipt = Refused(error: Error) | Replayed | Done

  predicate Advances(marks: map<int, int>, actor: int, message: int) {
    actor !in marks || marks[actor] < message
  }

  function Upload(v: Vault, actor: int, message: int, domain: string, content: string, sound: bool, authorized: bool,
                  now: int, limits: Limits): (Vault, Receipt)
  {
    if message <= 0 || !sound then (v, Refused(InvalidInput))
    else if !authorized then (v, Refused(Denied))
    else if !Advances(v.marks, actor, message) then (v, Replayed)
    else
      var marked := v.(marks := v.marks[actor := message]);
      var usage := UsageOf(v.rows, actor, domain);
      if !Fits(usage, PredictSwap(usage, |content|), limits) then (marked, Refused(Capacity))
      else (marked.(rows := Swap(v.rows, actor, domain, content, now)), Done)
  }

  function Remove(v: Vault, actor: int, message: int, domain: Option<string>, authorized: bool): (Vault, Receipt) {
    if message <= 0 then (v, Refused(InvalidInput))
    else if !authorized then (v, Refused(Denied))
    else if !Advances(v.marks, actor, message) then (v, Replayed)
    else (v.(marks := v.marks[actor := message], rows := Without(v.rows, actor, domain)), Done)
  }

  /** The row with this primary key. */
  function FindRow(rows: Table, id: int): (r: Option<nat>)
    ensures r.Some? ==> r.value < |rows| && rows[r.value].id == id
    ensures r.None? ==> forall c :: c in rows ==> c.id != id
  {
    if rows == [] then None
    else if rows[|rows| - 1].id == id then Some(|rows| - 1)
    else FindRow(rows[..|rows| - 1], id)
  }

  function PoolBytes(rows: Table): int {
    if rows == [] then 0
    else PoolBytes(rows[..|rows| - 1]) + (if rows[|rows| - 1].isPool then |rows[|rows| - 1].content| else 0)
  }

  /** What the validation read before it called the account provider. */
  predicate SameRow(a: Cookie, b: Cookie) {
    && a.content == b.content && a.updatedAt == b.updatedAt && a.domain == b.domain
    && a.user == b.user && a.isPool == b.isPool
  }

  /** The second transaction of web_cookie_validate; `updated` says that the provider sent updates, and
      `rewritten` is the merged text whose growth is checked either way. */
  function Revalidate(rows: Table, id: int, seen: Cookie, rewritten: string, updated: bool, valid: bool, allowed: bool,
                      now: int, limits: Limits): (Table, Option<Error>)
  {
    var found := FindRow(rows, id);
    if found.None? then (rows, Some(Changed))
    else
      var row := rows[found.value];
      if !allowed then (rows, Some(Denied))
      else if !SameRow(row, seen) then (rows, Some(Changed))
      else
        var growth := |rewritten| - |seen.content|;
        var usage := UsageOf(rows, row.user, row.domain);
        if growth > 0 && row.isPool && PoolBytes(rows) + growth > POOL_BYTES then (rows, Some(Capacity))
        else if growth > 0 && !row.isPool
          && (usage.actorBytes + growth > limits.actorBytes || usage.globalBytes + growth > limits.globalBytes)
        then (rows, Some(Capacity))
        else
          var content := if updated then rewritten else seen.content;
          (rows[found.value := row.(content := content, isValid := valid, validatedAt := Some(now),
                                    updatedAt := if row.content != content then now else row.updatedAt)], None)
  }

  const MAX_CREDENTIAL := 64 * 1024
  const STAMP_MAX: int := 0x7FFF_FFFF_FFFF_FFFF

  /** Whether the transaction of refresh_before_admission still finds what was read before the exchange: the
      actor's own valid row with the same content, domain and stamp. */
  predicate StillSeen(row: Cookie, actor: int, seen: Cookie) {
    && row.isValid && row.user == actor && !row.isPool && |row.content| <= MAX_CREDENTIAL
    && SameRow(row, seen) && 0 <= row.updatedAt < STAMP_MAX
  }

  /** refresh_before_admission: the row's content is replaced and its stamp raised, with no look at the usage. */
  function RefreshRow(rows: Table, id: int, actor: int, seen: Cookie, replacement: string, allowed: bool,
                      at: int): (Table, bool) {
    var found := FindRow(rows, id);
    if found.None? || !allowed || |replacement| > MAX_CREDENTIAL || !StillSeen(rows[found.value], actor, seen)
    then (rows, false)
    else
      var row := rows[found.value];
      (rows[found.value := row.(content := replacement, updatedAt := Max(row.updatedAt + 1, at))], true)
  }

  /** web_cookie_delete takes one row by number, or the actor's rows of one domain; an administrator may take
      any row by number. */
  predicate Deletes(c: Cookie, actor: int, id: Option<int>, domain: Option<string>, admin: bool) {
    && (Personal(c, actor) || (admin && id.Some?))
    && ((id.Some? && c.id == id.value) || (domain.Some? && Canonical(c.domain) == domain.value))
  }

  function Erase(rows: Table, actor: int, id: Option<int>, domain: Option<string>, admin: bool): (out: Table)
    ensures forall c :: c in out <==> c in rows && !Deletes(c, actor, id, domain, admin)
  {
    if rows == [] then []
    else
      var last, kept := rows[|rows| - 1], Erase(rows[..|rows| - 1], actor, id, domain, admin);
      if Deletes(last, actor, id, domain, admin) then kept else kept + [last]
  }

  /** The whole call: a domain that does not parse deletes nothing. */
  function WebDelete(rows: Table, actor: int, id: Option<int>, domain: Option<string>, admin: bool,
                     authorized: bool): Table {
    var parsed := if domain.Some? then ParseDomain(domain.value) else None;
    if !authorized || (domain.Some? && parsed.None?) then rows else Erase(rows, actor, id, parsed, admin)
  }

  // ----- runs -----

  datatype Operation =
    | WebWrite(caller: Caller, inputs: seq<Input>, at: int, authorized: bool)
    | OAuthStore(actor: int, content: string, at: int)
    | MessageUpload(actor: int, message: int, domain: string, content: string, sound: bool, authorized: bool, at: int)
    | MessageRemoval(actor: int, message: int, target: Option<string>, authorized: bool)
    | LiveValidation(id: int, seen: Cookie, rewritten: string, updated: bool, valid: bool, allowed: bool, at: int)
    | RowRefresh(id: int, actor: int, seen: Cookie, replacement: string, allowed: bool, at: int)
    | RowDelete(actor: int, row: Option<int>, target: Option<string>, admin: bool, authorized: bool)

  function Perform(v: Vault, op: Operation, limits: Limits): Vault {
    match op
    case WebWrite(caller, inputs, at, authorized) => Submit(v, caller, inputs, at, authorized, limits).0
    case OAuthStore(actor, content, at) =>
      var written := OAuthWrite(v.rows, actor, content, at, limits);
      if written.Some? then v.(rows := written.value) else v
    case MessageUpload(actor, message, domain, content, sound, authorized, at) =>
      var parsed := ParseDomain(domain);
      if parsed.None? then v else Upload(v, actor, message, parsed.value, content, sound, authorized, at, limits).0
    case MessageRemoval(actor, message, target, authorized) => Remove(v, actor, message, target, authorized).0
    case LiveValidation(id, seen, rewritten, updated, valid, allowed, at) =>
      v.(rows := Revalidate(v.rows, id, seen, rewritten, updated, valid, allowed, at, limits).0)
    case RowRefresh(id, actor, seen, replacement, allowed, at) =>
      v.(rows := RefreshRow(v.rows, id, actor, seen, replacement, allowed, at).0)
    case RowDelete(actor, row, target, admin, authorized) =>
      v.(rows := WebDelete(v.rows, actor, row, target, admin, authorized))
  }

  function PerformAll(v: Vault, ops: seq<Operation>, limits: Limits): Vault
    decreases |ops|
  {
    if ops == [] then v else PerformAll(Perform(v, ops[0], limits), ops[1..], limits)
  }

  /** No measure of `actor`, and no global measure, is above the larger of its limit and where it began. */
  predicate Bounded(before: Table, after: Table, actor: int, limits: Limits) {
    var b, a := UsageOf(before, actor, ""), UsageOf(after, actor, "");
    && a.actorRows <= Max(limits.domains, b.actorRows)
    && a.actorBytes <= Max(limits.actorBytes, b.actorBytes)
    && a.globalBytes <= Max(limits.globalBytes, b.globalBytes)
  }

  lemma PutBounded(rows: Table, actor: int, domain: string, content: string, valid: bool, now: int, limits: Limits,
                   other: int)
    requires Canonical(domain) == domain
    requires Fits(UsageOf(rows, actor, domain), PredictPut(UsageOf(rows, actor, domain), |content|), limits)
    ensures Bounded(rows, Put(rows, actor, domain, content, valid, now), other, limits)
  {
    hide Canonical, UsageOf, Put;
    var out := Put(rows, actor, domain, content, valid, now);
    PutPrediction(rows, actor, domain, content, valid, now, other, "");
    UsageBase(rows, actor, domain, other, "");
    UsageBase(out, actor, domain, other, "");
  }

  lemma {:induction false} WriteAllBounded(rows: Table, actor: int, inputs: seq<Input>, domains: seq<string>,
                                           now: int, limits: Limits, other: int)
    requires |domains| == |inputs|
    requires forall i :: 0 <= i < |domains| ==> Canonical(domains[i]) == domains[i]
    requires WriteAll(rows, actor, inputs, domains, now, limits).Some?
    ensures Bounded(rows, WriteAll(rows, actor, inputs, domains, now, limits).value, other, limits)
    decreases |inputs|
  {
    if inputs != [] {
      PutBounded(rows, actor, domains[0], inputs[0].content, inputs[0].labelled, now, limits, other);
      var mid := Put(rows, actor, domains[0], inputs[0].content, inputs[0].labelled, now);
      WriteAllBounded(mid, actor, inputs[1..], domains[1..], now, limits, other);
    }
  }

  lemma SwapBounded(rows: Table, actor: int, domain: string, content: string, now: int, limits: Limits, other: int)
    requires Canonical(domain) == domain
    requires Fits(UsageOf(rows, actor, domain), PredictSwap(UsageOf(rows, actor, domain), |content|), limits)
    ensures Bounded(rows, Swap(rows, actor, domain, content, now), other, limits)
  {
    hide Canonical, UsageOf, Swap;
    var out := Swap(rows, actor, domain, content, now);
    SwapPrediction(rows, actor, domain, content, now, other, "");
    UsageBase(rows, actor, domain, other, "");
    UsageBase(out, actor, domain, other, "");
  }

  lemma UploadBounded(v: Vault, actor: int, message: int, domain: string, content: string, sound: bool,
                      authorized: bool,
                      now: int, limits: Limits, other: int)
    requires Canonical(domain) == domain
    ensures var w := Upload(v, actor, message, domain, content, sound, authorized, now, limits).0;
      Bounded(v.rows, w.rows, other, limits)
  {
    hide Canonical, UsageOf, Swap;
    if Upload(v, actor, message, domain, content, sound, authorized, now, limits).1 == Done {
      SwapBounded(v.rows, actor, domain, content, now, limits, other);
    }
  }

  lemma RevalidateBounded(rows: Table, id: int, seen: Cookie, rewritten: string, updated: bool, valid: bool,
                          allowed: bool,
                          now: int, limits: Limits, other: int)
    ensures Bounded(rows, Revalidate(rows, id, seen, rewritten, updated, valid, allowed, now, limits).0, other, limits)
  {
    var found := FindRow(rows, id);
    var (out, error) := Revalidate(rows, id, seen, rewritten, updated, valid, allowed, now, limits);
    if error.None? {
      UsageAfterRowChange(rows, found.value, out[found.value], other, "");
      UsageBase(rows, seen.user, seen.domain, other, "");
    }
  }

  lemma {:induction false} EraseUsage(rows: Table, actor: int, id: Option<int>, domain: Option<string>, admin: bool,
                                      other: int)
    ensures var o, p := UsageOf(rows, other, ""), UsageOf(Erase(rows, actor, id, domain, admin), other, "");
      p.actorRows <= o.actorRows && p.actorBytes <= o.actorBytes && p.globalBytes <= o.globalBytes
  {
    hide Deletes, Canonical;
    if rows != [] {
      var init, last := rows[..|rows| - 1], rows[|rows| - 1];
      EraseUsage(init, actor, id, domain, admin, other);
      UsageSnoc(Erase(init, actor, id, domain, admin), last, other, "");
    }
  }

  /** What a row refresh does to the measures: the bytes move by the difference of the two texts, for the
      row's owner and in all, and nothing else moves. */
  lemma RefreshUsage(rows: Table, id: int, actor: int, seen: Cookie, replacement: string, allowed: bool, at: int,
                     other: int)
    requires RefreshRow(rows, id, actor, seen, replacement, allowed, at).1
    ensures var out := RefreshRow(rows, id, actor, seen, replacement, allowed, at).0;
      var o, p, growth := UsageOf(rows, other, ""), UsageOf(out, other, ""), |replacement| - |seen.content|;
      && p.actorRows == o.actorRows && p.globalBytes == o.globalBytes + growth
      && p.actorBytes == o.actorBytes + if other == actor then growth else 0
  {
    hide Canonical, UsageOf;
    var k := FindRow(rows, id).value;
    UsageAfterRowChange(rows, k, RefreshRow(rows, id, actor, seen, replacement, allowed, at).0[k], other, "");
  }

  /** The guard that refresh_before_admission does not have. */
  predicate RefreshFits(rows: Table, actor: int, seen: Cookie, replacement: string, limits: Limits) {
    var usage, growth := UsageOf(rows, actor, ""), |replacement| - |seen.content|;
    growth <= 0 || (usage.actorBytes + growth <= limits.actorBytes && usage.globalBytes + growth <= limits.globalBytes)
  }

  /** A row refresh keeps every measure of everybody bounded exactly when the text does not grow or the grown
      text still fits both limits. */
  lemma RefreshBounded(rows: Table, id: int, actor: int, seen: Cookie, replacement: string, allowed: bool, at: int,
                       limits: Limits)
    requires RefreshRow(rows, id, actor, seen, replacement, allowed, at).1
    ensures var out := RefreshRow(rows, id, actor, seen, replacement, allowed, at).0;
      (forall other :: Bounded(rows, out, other, limits)) <==> RefreshFits(rows, actor, seen, replacement, limits)
  {
    hide UsageOf, RefreshRow;
    var out := RefreshRow(rows, id, actor, seen, replacement, allowed, at).0;
    forall other
      ensures RefreshFits(rows, actor, seen, replacement, limits) ==> Bounded(rows, out, other, limits)
      ensures other == actor && Bounded(rows, out, other, limits) ==>
        RefreshFits(rows, actor, seen, replacement, limits)
    {
      RefreshUsage(rows, id, actor, seen, replacement, allowed, at, other);
      UsageBase(rows, other, "", actor, "");
    }
    if forall other :: Bounded(rows, out, other, limits) {
      assert Bounded(rows, out, actor, limits);
    }
  }

  /** It does break the quota: a sole credential that fills its owner's limit and comes back longer. */
  lemma UncheckedRefreshGrows(row: Cookie, replacement: string, at: int, limits: Limits)
    requires row.isValid && !row.isPool && 0 <= row.updatedAt < STAMP_MAX
    requires |row.content| == limits.actorBytes && |row.content| < |replacement| <= MAX_CREDENTIAL
    ensures var (out, accepted) := RefreshRow([row], row.id, row.user, row, replacement, true, at);
      accepted && !Bounded([row], out, row.user, limits)
  {
    var after := row.(content := replacement, updatedAt := Max(row.updatedAt + 1, at));
    var found := FindRow([row], row.id);
    assert [row][0 := after] == [after];
    UsageSnoc([], row, row.user, "");
    UsageSnoc([], after, row.user, "");
    assert [] + [row] == [row] && [] + [after] == [after];
  }

  /** The measures after `before`, within the limits or the starting values, plus some slack. */
  predicate BoundedWith(before: Table, after: Table, actor: int, limits: Limits, own: nat, all: nat) {
    var b, a := UsageOf(before, actor, ""), UsageOf(after, actor, "");
    && a.actorRows <= Max(limits.domains, b.actorRows)
    && a.actorBytes <= Max(limits.actorBytes, b.actorBytes) + own
    && a.globalBytes <= Max(limits.globalBytes, b.globalBytes) + all
  }

  /** How far an operation lets the bytes grow unchecked: of one actor, or of all when `actor` is None. */
  function Unchecked(v: Vault, op: Operation, actor: Option<int>): nat {
    match op
    case RowRefresh(id, owner, seen, replacement, allowed, at) =>
      if RefreshRow(v.rows, id, owner, seen, replacement, allowed, at).1 && (actor.None? || actor.value == owner)
        && |replacement| > |seen.content|
      then |replacement| - |seen.content| else 0
    case _ => 0
  }

  function UncheckedAll(v: Vault, ops: seq<Operation>, limits: Limits, actor: Option<int>): nat
    decreases |ops|
  {
    if ops == [] then 0
    else Unchecked(v, ops[0], actor) + UncheckedAll(Perform(v, ops[0], limits), ops[1..], limits, actor)
  }

  /** One quota-checked operation, and one deletion, keeps every measure of everybody bounded. */
  lemma CheckedBounded(v: Vault, op: Operation, limits: Limits, other: int)
    requires !op.RowRefresh?
    ensures Bounded(v.rows, Perform(v, op, limits).rows, other, limits)
  {
    hide Canonical, UsageOf, Revalidate, Upload, WriteAll, Put, Erase, ParseDomain;
    match op
    case WebWrite(caller, inputs, at, authorized) =>
      var (w, error) := Submit(v, caller, inputs, at, authorized, limits);
      if error.None? {
        DomainsCanonical(inputs);
        var actor := if caller.Bearer? then v.tokens[caller.hash].user else caller.id;
        WriteAllBounded(v.rows, actor, inputs, DomainsOf(inputs).value, at, limits, other);
      }
    case OAuthStore(actor, content, at) =>
      YoutubeIsCanonical();
      if OAuthWrite(v.rows, actor, content, at, limits).Some? {
        PutBounded(v.rows, actor, "youtube.com", content, true, at, limits, other);
      }
    case MessageUpload(actor, message, domain, content, sound, authorized, at) =>
      var parsed := ParseDomain(domain);
      if parsed.Some? {
        CanonicalIsStable(domain);
        UploadBounded(v, actor, message, parsed.value, content, sound, authorized, at, limits, other);
      }
    case MessageRemoval(actor, message, target, authorized) =>
      DeleteUsage(v.rows, actor, target, other, "");
    case LiveValidation(id, seen, rewritten, updated, valid, allowed, at) =>
      RevalidateBounded(v.rows, id, seen, rewritten, updated, valid, allowed, at, limits, other);
    case RowDelete(actor, row, target, admin, authorized) =>
      var parsed := if target.Some? then ParseDomain(target.value) else None;
      EraseUsage(v.rows, actor, row, parsed, admin, other);
  }

  lemma PerformBounded(v: Vault, op: Operation, limits: Limits, other: int)
    ensures BoundedWith(v.rows, Perform(v, op, limits).rows, other, limits,
                        Unchecked(v, op, Some(other)), Unchecked(v, op, None))
  {
    hide UsageOf, RefreshRow;
    if op.RowRefresh? {
      if RefreshRow(v.rows, op.id, op.actor, op.seen, op.replacement, op.allowed, op.at).1 {
        RefreshUsage(v.rows, op.id, op.actor, op.seen, op.replacement, op.allowed, op.at, other);
      } else {
        RefusedRefresh(v.rows, op.id, op.actor, op.seen, op.replacement, op.allowed, op.at);
      }
    } else {
      CheckedBounded(v, op, limits, other);
      hide Perform;
    }
  }

  lemma RefusedRefresh(rows: Table, id: int, actor: int, seen: Cookie, replacement: string, allowed: bool, at: int)
    requires !RefreshRow(rows, id, actor, seen, replacement, allowed, at).1
    ensures RefreshRow(rows, id, actor, seen, replacement, allowed, at).0 == rows
  {
  }

  lemma BoundedChains(a: Table, b: Table, c: Table, actor: int, limits: Limits, own: nat, all: nat, moreOwn: nat,
                      moreAll: nat)
    requires BoundedWith(a, b, actor, limits, own, all) && BoundedWith(b, c, actor, limits, moreOwn, moreAll)
    ensures BoundedWith(a, c, actor, limits, own + moreOwn, all + moreAll)
  {
    hide UsageOf;
  }

  /** Over every run of all writers of personal rows, no actor's row count rises above the larger of its limit
      and its starting value, and no byte count rises above that by more than row refreshes let it grow. */
  lemma {:induction false} QuotaHoldsOverRuns(v: Vault, ops: seq<Operation>, limits: Limits, actor: int)
    ensures BoundedWith(v.rows, PerformAll(v, ops, limits).rows, actor, limits,
                        UncheckedAll(v, ops, limits, Some(actor)), UncheckedAll(v, ops, limits, None))
    decreases |ops|
  {
    hide BoundedWith, Perform, Unchecked;
    if ops == [] {
      AlwaysBounded(v.rows, actor, limits);
    } else {
      var w := Perform(v, ops[0], limits);
      PerformBounded(v, ops[0], limits, actor);
      QuotaHoldsOverRuns(w, ops[1..], limits, actor);
      BoundedChains(v.rows, w.rows, PerformAll(v, ops, limits).rows, actor, limits,
                    Unchecked(v, ops[0], Some(actor)), Unchecked(v, ops[0], None),
                    UncheckedAll(w, ops[1..], limits, Some(actor)), UncheckedAll(w, ops[1..], limits, None));
    }
  }

  lemma AlwaysBounded(rows: Table, actor: int, limits: Limits)
    ensures BoundedWith(rows, rows, actor, limits, 0, 0) && Bounded(rows, rows, actor, limits)
  {
  }

  /** Every accepted row refresh of the run would have passed the guard at its moment. */
  predicate RefreshesFit(v: Vault, ops: seq<Operation>, limits: Limits)
    decreases |ops|
  {
    ops == [] || (OpFits(v, ops[0], limits) && RefreshesFit(Perform(v, ops[0], limits), ops[1..], limits))
  }

  predicate OpFits(v: Vault, op: Operation, limits: Limits) {
    op.RowRefresh? && RefreshRow(v.rows, op.id, op.actor, op.seen, op.replacement, op.allowed, op.at).1 ==>
      RefreshFits(v.rows, op.actor, op.seen, op.replacement, limits)
  }

  ghost predicate StepBounded(v: Vault, op: Operation, limits: Limits) {
    forall other :: Bounded(v.rows, Perform(v, op, limits).rows, other, limits)
  }

  /** Every operation of the run keeps every measure of everybody bounded. */
  ghost predicate AllStepsBounded(v: Vault, ops: seq<Operation>, limits: Limits)
    decreases |ops|
  {
    ops == [] || (StepBounded(v, ops[0], limits) && AllStepsBounded(Perform(v, ops[0], limits), ops[1..], limits))
  }

  lemma StepBoundedIffFits(v: Vault, op: Operation, limits: Limits)
    ensures StepBounded(v, op, limits) <==> OpFits(v, op, limits)
  {
    hide Bounded, RefreshRow, RefreshFits;
    if op.RowRefresh? {
      if RefreshRow(v.rows, op.id, op.actor, op.seen, op.replacement, op.allowed, op.at).1 {
        RefreshBounded(v.rows, op.id, op.actor, op.seen, op.replacement, op.allowed, op.at, limits);
        assert Perform(v, op, limits).rows
          == RefreshRow(v.rows, op.id, op.actor, op.seen, op.replacement, op.allowed, op.at).0;
      } else {
        RefusedRefresh(v.rows, op.id, op.actor, op.seen, op.replacement, op.allowed, op.at);
        forall other
          ensures Bounded(v.rows, v.rows, other, limits)
        {
          AlwaysBounded(v.rows, other, limits);
        }
      }
    } else {
      hide Perform;
      forall other
        ensures Bounded(v.rows, Perform(v, op, limits).rows, other, limits)
      {
        CheckedBounded(v, op, limits, other);
      }
    }
  }

  /** The quota rule holds at every step of a run exactly when its row refreshes fit. */
  lemma {:induction false} QuotaHoldsIffRefreshesFit(v: Vault, ops: seq<Operation>, limits: Limits)
    ensures AllStepsBounded(v, ops, limits) <==> RefreshesFit(v, ops, limits)
    decreases |ops|
  {
    hide StepBounded, OpFits, Perform;
    if ops != [] {
      StepBoundedIffFits(v, ops[0], limits);
      QuotaHoldsIffRefreshesFit(Perform(v, ops[0], limits), ops[1..], limits);
    }
  }

  /** And then it holds of the run as a whole. */
  lemma {:induction false} FittingRunIsBounded(v: Vault, ops: seq<Operation>, limits: Limits, actor: int)
    requires RefreshesFit(v, ops, limits)
    ensures Bounded(v.rows, PerformAll(v, ops, limits).rows, actor, limits)
    decreases |ops|
  {
    hide UsageOf, Perform, OpFits;
    if ops != [] {
      StepBoundedIffFits(v, ops[0], limits);
      assert Bounded(v.rows, Perform(v, ops[0], limits).rows, actor, limits);
      FittingRunIsBounded(Perform(v, ops[0], limits), ops[1..], limits, actor);
    }
  }

  lemma WatermarkRises(v: Vault, op: Operation, limits: Limits, actor: int)
    requires actor in v.marks
    ensures actor in Perform(v, op, limits).marks && v.marks[actor] <= Perform(v, op, limits).marks[actor]
  {}

  /** The message watermark of an actor never falls. */
  lemma {:induction false} WatermarkOnlyRises(v: Vault, ops: seq<Operation>, limits: Limits, actor: int)
    requires actor in v.marks
    ensures actor in PerformAll(v, ops, limits).marks && v.marks[actor] <= PerformAll(v, ops, limits).marks[actor]
    decreases |ops|
  {
    if ops != [] {
      WatermarkRises(v, ops[0], limits, actor);
      WatermarkOnlyRises(Perform(v, ops[0], limits), ops[1..], limits, actor);
    }
  }

  /** Once an authorized, well-formed upload was looked at, even if its quota check refused it, no replay of
      that message or of an older one ever changes anything again, whatever happened in between. */
  lemma ReplayIsInert(v: Vault, actor: int, message: int, domain: string, content: string, at: int, limits: Limits,
                    between: seq<Operation>, older: int, otherDomain: string, otherContent: string,
                    sound: bool, authorized: bool, later: int)
    requires message > 0 && older <= message
    ensures var w := Upload(v, actor, message, domain, content, true, true, at, limits).0;
      var x := PerformAll(w, between, limits);
      && Upload(x, actor, older, otherDomain, otherContent, sound, authorized, later, limits).0 == x
      && Upload(x, actor, older, otherDomain, otherContent, sound, authorized, later, limits).1 != Done
  {
    var w := Upload(v, actor, message, domain, content, true, true, at, limits).0;
    WatermarkOnlyRises(w, between, limits, actor);
  }

  // ----- the stateful service -----

  method CollectDomains(inputs: seq<Input>) returns (r: Option<seq<string>>)
    ensures r == DomainsOf(inputs)
    ensures r.Some? ==> |r.value| == |inputs|
  {
    var domains: seq<string> := [];
    for i := 0 to |inputs|
      invariant |domains| == i
      invariant forall j :: 0 <= j < i ==> DomainOf(inputs[j]) == Some(domains[j])
    {
      var domain := DomainOf(inputs[i]);
      if domain.None? {
        DomainsReject(inputs, i);
        return None;
      }
      domains := domains + [domain.value];
    }
    DomainsCollect(inputs, domains);
    return Some(domains);
  }

  /** The loop of web_write: measure, check, UPDATE every duplicate, INSERT when the UPDATE touched no row. */
  method WriteDomains(rows: Table, actor: int, inputs: seq<Input>, domains: seq<string>, now: int, limits: Limits)
    returns (written: Option<Table>)
    requires |domains| == |inputs|
    ensures written == WriteAll(rows, actor, inputs, domains, now, limits)
  {
    var working := rows;
    assert inputs[0..] == inputs && domains[0..] == domains;
    for i := 0 to |inputs|
      invariant WriteAll(rows, actor, inputs, domains, now, limits)
        == WriteAll(working, actor, inputs[i..], domains[i..], now, limits)
    {
      assert inputs[i..][1..] == inputs[i + 1..] && domains[i..][1..] == domains[i + 1..];
      var usage := UsageOf(working, actor, domains[i]);
      var size := |inputs[i].content| * Max(usage.replacedRows, 1);
      if Exceeds(usage.actorRows, usage.actorRows + (if usage.replacedRows == 0 then 1 else 0), limits.domains)
        || Exceeds(usage.actorBytes, usage.actorBytes - usage.replacedBytes + size, limits.actorBytes)
        || Exceeds(usage.globalBytes, usage.globalBytes - usage.replacedBytes + size, limits.globalBytes)
      {
        assert WriteAll(working, actor, inputs[i..], domains[i..], now, limits).None?;
        return None;
      }
      var updated := UpdateAll(working, actor, domains[i], inputs[i].content, inputs[i].labelled, now);
      if usage.replacedRows == 0 {
        UntouchedUpdate(working, actor, domains[i], inputs[i].content, inputs[i].labelled, now);
        updated := updated + [NewRow(updated, actor, domains[i], inputs[i].content, inputs[i].labelled, now)];
      }
      working := updated;
    }
    return Some(working);
  }

  /** An UPDATE that matches no row leaves the table as it was. */
  lemma {:induction false} UntouchedUpdate(rows: Table, actor: int, domain: string, content: string, valid: bool,
                                           now: int)
    requires UsageOf(rows, actor, domain).replacedRows == 0
    ensures UpdateAll(rows, actor, domain, content, valid, now) == rows
  {
    if rows != [] {
      UntouchedUpdate(rows[..|rows| - 1], actor, domain, content, valid, now);
      assert rows == rows[..|rows| - 1] + [rows[|rows| - 1]];
    }
  }

  class CookieVault {
    var rows: Table
    var tokens: map<string, Token>
    var marks: map<int, int>

    ghost function State(): Vault reads this {
      Vault(rows, tokens, marks)
    }

    constructor (rows: Table, tokens: map<string, Token>, marks: map<int, int>)
      ensures State() == Vault(rows, tokens, marks)
    {
      this.rows, this.tokens, this.marks := rows, tokens, marks;
    }

    /** web_write: one transaction, rolled back by every early return. */
    method Write(caller: Caller, inputs: seq<Input>, now: int, authorized: bool, limits: Limits)
      returns (error: Option<Error>)
      modifies this
      ensures (State(), error) == Submit(old(State()), caller, inputs, now, authorized, limits)
    {
      var domains := CollectDomains(inputs);
      if domains.None? || !Distinct(domains.value) {
        return Some(InvalidInput);
      }
      var actor;
      match caller {
        case Bearer(hash) =>
          if hash !in tokens || tokens[hash].expires <= now {
            return Some(Denied);
          }
          actor := tokens[hash].user;
        case Actor(id) =>
          actor := id;
      }
      if !authorized {
        return Some(Denied);
      }
      var written := WriteDomains(rows, actor, inputs, domains.value, now, limits);
      if written.None? {
        return Some(Capacity);
      }
      rows := written.value;
      if caller.Bearer? {
        tokens := tokens - {caller.hash};
      }
      return None;
    }

    /** The transaction of refresh_before_admission. */
    method RefreshBeforeAdmission(id: int, actor: int, seen: Cookie, replacement: string, allowed: bool, at: int)
      returns (accepted: bool)
      modifies this
      ensures State() == old(State()).(rows := RefreshRow(old(rows), id, actor, seen, replacement, allowed, at).0)
      ensures accepted == RefreshRow(old(rows), id, actor, seen, replacement, allowed, at).1
    {
      var found := FindRow(rows, id);
      if found.None? || |replacement| > MAX_CREDENTIAL {
        return false;
      }
      var current := rows[found.value];
      if !current.isValid || current.user != actor || current.isPool || |current.content| > MAX_CREDENTIAL {
        return false;
      }
      if !SameRow(current, seen) {
        return false;
      }
      if !allowed || current.updatedAt < 0 || current.updatedAt >= STAMP_MAX {
        return false;
      }
      rows := rows[found.value := current.(content := replacement, updatedAt := Max(current.updatedAt + 1, at))];
      return true;
    }

    /** store_personal_cookie: the watermark commits even when the quota refuses the jar. */
    method StorePersonal(actor: int, message: int, domain: string, content: string, sound: bool, authorized: bool,
                         now: int, limits: Limits)
      returns (receipt: Receipt)
      modifies this
      ensures (State(), receipt)
        == Upload(old(State()), actor, message, domain, content, sound, authorized, now, limits)
    {
      if message <= 0 || !sound {
        return Refused(InvalidInput);
      }
      if !authorized {
        return Refused(Denied);
      }
      if actor in marks && marks[actor] >= message {
        return Replayed;
      }
      marks := marks[actor := message];
      var usage := UsageOf(rows, actor, domain);
      if Exceeds(usage.actorRows, usage.actorRows - usage.replacedRows + 1, limits.domains)
        || Exceeds(usage.actorBytes, usage.actorBytes - usage.replacedBytes + |content|, limits.actorBytes)
        || Exceeds(usage.globalBytes, usage.globalBytes - usage.replacedBytes + |content|, limits.globalBytes)
      {
        return Refused(Capacity);
      }
      rows := Without(rows, actor, Some(domain));
      rows := rows + [NewRow(rows, actor, domain, content, true, now)];
      return Done;
    }
  }
}
