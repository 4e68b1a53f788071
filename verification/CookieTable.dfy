/** The `cookies` table: canonical domains, the five usage columns of personal_cookies_usage.sql and the
    row changes that the upload, web and OAuth paths make, with the arithmetic the quota checks rely on. */
module CookieTable {
  import opened Prelude

  datatype Cookie = Cookie(
    id: int,
    user: int,
    domain: string,
    content: string,
    isPool: bool,
    isValid: bool,
    createdAt: int,
    updatedAt: int,
    validatedAt: Option<int>,
    contentHash: Option<string>,
    displayLabel: Option<string>)

  type Table = seq<Cookie>

  // ----- canonical domains: LOWER(TRIM(domain,'.')) and CookieDomain::parse -----

  function TrimFront(s: string): string {
    if s != "" && s[0] == '.' then TrimFront(s[1..]) else s
  }

  function TrimBack(s: string): string {
    if s != "" && s[|s| - 1] == '.' then TrimBack(s[..|s| - 1]) else s
  }

  function LowerChar(c: char): char {
    if 'A' <= c <= 'Z' then (c as int + 32) as char else c
  }

  function Lower(s: string): string {
    if s == "" then "" else [LowerChar(s[0])] + Lower(s[1..])
  }

  function Canonical(domain: string): string {
    Lower(TrimBack(TrimFront(domain)))
  }

  predicate HostChar(c: char) {
    'a' <= c <= 'z' || '0' <= c <= '9' || c == '-'
  }

  predicate HostLabel(part: string) {
    && 1 <= |part| <= 63
    && part[0] != '-' && part[|part| - 1] != '-'
    && forall c :: c in part ==> HostChar(c)
  }

  function ParseDomain(value: string): (r: Option<string>)
    ensures r.Some? ==> r.value == Canonical(value)
  {
    if value == "" || |value| > 255 || exists c :: c in value && c as int >= 128 then None
    else
      var canonical := Canonical(value);
      if canonical == "" || |canonical| > 253 || exists part :: part in Split(canonical, '.') && !HostLabel(part)
      then None
      else Some(canonical)
  }

  lemma {:induction false} TrimFrontHead(s: string)
    ensures TrimFront(s) == "" || TrimFront(s)[0] != '.'
  {
    if s != "" && s[0] == '.' {
      TrimFrontHead(s[1..]);
    }
  }

  lemma {:induction false} TrimBackEnds(s: string)
    requires s == "" || s[0] != '.'
    ensures var t := TrimBack(s); t == "" || (t[0] == s[0] && t[|t| - 1] != '.')
  {
    if s != "" && s[|s| - 1] == '.' {
      TrimBackEnds(s[..|s| - 1]);
    }
  }

  lemma {:induction false} LowerAt(s: string, i: nat)
    requires i < |s|
    ensures |Lower(s)| == |s| && Lower(s)[i] == LowerChar(s[i])
  {
    if i > 0 {
      LowerAt(s[1..], i - 1);
    } else if |s| > 1 {
      LowerAt(s[1..], 0);
    }
  }

  lemma {:induction false} LowerTwice(s: string)
    ensures Lower(Lower(s)) == Lower(s)
  {
    if s != "" {
      LowerTwice(s[1..]);
    }
  }

  /** A parsed domain is its own canonical form, so the row inserted under it is the row that the
      comparison LOWER(TRIM(domain,'.')) = ? finds again. */
  lemma CanonicalIsStable(domain: string)
    ensures Canonical(Canonical(domain)) == Canonical(domain)
  {
    TrimFrontHead(domain);
    var f := TrimFront(domain);
    TrimBackEnds(f);
    var t := TrimBack(f);
    if t != "" {
      LowerAt(t, 0);
      LowerAt(t, |t| - 1);
    }
    LowerTwice(t);
  }

  lemma YoutubeIsCanonical()
    ensures Canonical("youtube.com") == "youtube.com"
  {
    var y := "youtube.com";
    assert TrimFront(y) == y && TrimBack(y) == y;
    assert Lower(y) == y;
  }

  // ----- usage -----

  datatype Usage = Usage(actorRows: int, actorBytes: int, globalBytes: int, replacedRows: int, replacedBytes: int)
  datatype Limits = Limits(domains: nat, actorBytes: nat, globalBytes: nat)

  predicate Personal(c: Cookie, actor: int) {
    !c.isPool && c.user == actor
  }

  predicate Matches(c: Cookie, actor: int, domain: string) {
    Personal(c, actor) && Canonical(c.domain) == domain
  }

  function RowUsage(c: Cookie, actor: int, domain: string): Usage {
    var n := |c.content|;
    Usage(
      if Personal(c, actor) then 1 else 0,
      if Personal(c, actor) then n else 0,
      if c.isPool then 0 else n,
      if Matches(c, actor, domain) then 1 else 0,
      if Matches(c, actor, domain) then n else 0)
  }

  function Plus(a: Usage, b: Usage): Usage {
    Usage(a.actorRows + b.actorRows, a.actorBytes + b.actorBytes, a.globalBytes + b.globalBytes,
          a.replacedRows + b.replacedRows, a.replacedBytes + b.replacedBytes)
  }

  function UsageOf(rows: Table, actor: int, domain: string): (u: Usage)
    ensures 0 <= u.replacedRows <= u.actorRows
    ensures 0 <= u.replacedBytes <= u.actorBytes <= u.globalBytes
  {
    if rows == [] then Usage(0, 0, 0, 0, 0)
    else Plus(UsageOf(rows[..|rows| - 1], actor, domain), RowUsage(rows[|rows| - 1], actor, domain))
  }

  lemma UsageSnoc(rows: Table, c: Cookie, actor: int, domain: string)
    ensures UsageOf(rows + [c], actor, domain) == Plus(UsageOf(rows, actor, domain), RowUsage(c, actor, domain))
  {
    assert (rows + [c])[..|rows|] == rows;
  }

  /** `replacedRows` is the UPDATE's affected row count: it is zero exactly when no row matches. */
  lemma {:induction false} NothingReplaced(rows: Table, actor: int, domain: string)
    ensures UsageOf(rows, actor, domain).replacedRows == 0 <==> forall c :: c in rows ==> !Matches(c, actor, domain)
    ensures UsageOf(rows, actor, domain).replacedRows == 0 ==> UsageOf(rows, actor, domain).replacedBytes == 0
  {
    if rows != [] {
      NothingReplaced(rows[..|rows| - 1], actor, domain);
      assert rows == rows[..|rows| - 1] + [rows[|rows| - 1]];
    }
  }

  // ----- row changes -----

  function Replaced(c: Cookie, content: string, valid: bool, now: int): Cookie {
    c.(content := content, isValid := valid, updatedAt := now, validatedAt := None, contentHash := None)
  }

  /** UPDATE cookies SET content=… WHERE the personal row of `actor` matches `domain`. */
  function UpdateAll(rows: Table, actor: int, domain: string, content: string, valid: bool, now: int): Table {
    if rows == [] then []
    else
      var last := rows[|rows| - 1];
      UpdateAll(rows[..|rows| - 1], actor, domain, content, valid, now)
      + [if Matches(last, actor, domain) then Replaced(last, content, valid, now) else last]
  }

  lemma {:induction false} UpdateAllAt(rows: Table, actor: int, domain: string, content: string, valid: bool,
                                       now: int, i: nat)
    requires i < |rows|
    ensures var out := UpdateAll(rows, actor, domain, content, valid, now);
      && |out| == |rows|
      && out[i] == if Matches(rows[i], actor, domain) then Replaced(rows[i], content, valid, now) else rows[i]
  {
    if i < |rows| - 1 {
      UpdateAllAt(rows[..|rows| - 1], actor, domain, content, valid, now, i);
    } else if |rows| > 1 {
      UpdateAllAt(rows[..|rows| - 1], actor, domain, content, valid, now, 0);
    }
  }

  function FreshId(rows: Table): (id: int)
    ensures id >= 1
    ensures forall c :: c in rows ==> c.id < id
  {
    if rows == [] then 1 else Max(FreshId(rows[..|rows| - 1]), rows[|rows| - 1].id + 1)
  }

  function NewRow(rows: Table, actor: int, domain: string, content: string, valid: bool, now: int): Cookie {
    Cookie(FreshId(rows), actor, domain, content, false, valid, now, now, None, None, None)
  }

  /** The web and OAuth write: update every duplicate, insert when the update touched no row. */
  function Put(rows: Table, actor: int, domain: string, content: string, valid: bool, now: int): Table {
    if UsageOf(rows, actor, domain).replacedRows == 0
    then rows + [NewRow(rows, actor, domain, content, valid, now)]
    else UpdateAll(rows, actor, domain, content, valid, now)
  }

  /** DELETE FROM cookies … for one domain, or for every domain when `domain` is None. */
  function Without(rows: Table, actor: int, domain: Option<string>): (out: Table)
    ensures forall c :: c in out <==>
      c in rows && !(Personal(c, actor) && (domain.None? || Canonical(c.domain) == domain.value))
  {
    if rows == [] then []
    else
      var last := rows[|rows| - 1];
      var kept := Without(rows[..|rows| - 1], actor, domain);
      if Personal(last, actor) && (domain.None? || Canonical(last.domain) == domain.value) then kept else kept + [last]
  }

  /** The message upload: delete every row of the domain, then insert one. */
  function Swap(rows: Table, actor: int, domain: string, content: string, now: int): Table {
    var kept := Without(rows, actor, Some(domain));
    kept + [NewRow(kept, actor, domain, content, true, now)]
  }

  // ----- predictions -----

  function PredictPut(u: Usage, size: int): Usage {
    var rows := Max(u.replacedRows, 1);
    Usage(u.actorRows + (if u.replacedRows == 0 then 1 else 0),
          u.actorBytes - u.replacedBytes + size * rows,
          u.globalBytes - u.replacedBytes + size * rows,
          rows, size * rows)
  }

  function PredictSwap(u: Usage, size: int): Usage {
    Usage(u.actorRows - u.replacedRows + 1,
          u.actorBytes - u.replacedBytes + size,
          u.globalBytes - u.replacedBytes + size,
          1, size)
  }

  predicate Exceeds(old_: int, new_: int, limit: nat) {
    new_ > old_ && new_ > limit
  }

  predicate Fits(before: Usage, after: Usage, limits: Limits) {
    && !Exceeds(before.actorRows, after.actorRows, limits.domains)
    && !Exceeds(before.actorBytes, after.actorBytes, limits.actorBytes)
    && !Exceeds(before.globalBytes, after.globalBytes, limits.globalBytes)
  }

  lemma MulSucc(n: int, k: int)
    ensures n * (k + 1) == n * k + n
  {}

  /** `k` copies of `n` bytes, by repeated addition. */
  function Times(n: int, k: nat): (r: int)
    ensures r == n * k
  {
    if k == 0 then 0 else MulSucc(n, k - 1); Times(n, k - 1) + n
  }

  lemma NoTimes(n: int)
    ensures Times(n, 0) == 0
  {
  }

  lemma OneMoreTime(n: int, k: nat)
    ensures Times(n, k + 1) == Times(n, k) + n
  {
  }

  lemma {:induction false} UpdateAllUsage(rows: Table, actor: int, domain: string, content: string, valid: bool,
                                          now: int)
    ensures var out := UpdateAll(rows, actor, domain, content, valid, now);
      var u, v := UsageOf(rows, actor, domain), UsageOf(out, actor, domain);
      && v.actorRows == u.actorRows && v.replacedRows == u.replacedRows
      && v.replacedBytes == Times(|content|, u.replacedRows)
      && v.actorBytes == u.actorBytes - u.replacedBytes + Times(|content|, u.replacedRows)
      && v.globalBytes == u.globalBytes - u.replacedBytes + Times(|content|, u.replacedRows)
  {
    hide Canonical, Times;
    if rows == [] {
      NoTimes(|content|);
    } else {
      var init, last := rows[..|rows| - 1], rows[|rows| - 1];
      OneMoreTime(|content|, UsageOf(init, actor, domain).replacedRows);
      assert rows == init + [last];
      UsageSnoc(init, last, actor, domain);
      UpdateAllUsage(init, actor, domain, content, valid, now);
      var newLast := if Matches(last, actor, domain) then Replaced(last, content, valid, now) else last;
      UsageSnoc(UpdateAll(init, actor, domain, content, valid, now), newLast, actor, domain);
    }
  }

  lemma {:induction false} UpdateAllOthers(rows: Table, actor: int, domain: string, content: string, valid: bool,
                                           now: int,
                                           other: int, otherDomain: string)
    requires other != actor
    ensures var out := UpdateAll(rows, actor, domain, content, valid, now);
      var o, p := UsageOf(rows, other, otherDomain), UsageOf(out, other, otherDomain);
      p.actorRows == o.actorRows && p.actorBytes == o.actorBytes
  {
    if rows != [] {
      var init, last := rows[..|rows| - 1], rows[|rows| - 1];
      UpdateAllOthers(init, actor, domain, content, valid, now, other, otherDomain);
      var newLast := if Matches(last, actor, domain) then Replaced(last, content, valid, now) else last;
      UsageSnoc(UpdateAll(init, actor, domain, content, valid, now), newLast, other, otherDomain);
    }
  }

  lemma {:induction false} UsageBase(rows: Table, a: int, d: string, b: int, e: string)
    ensures UsageOf(rows, a, d).globalBytes == UsageOf(rows, b, e).globalBytes
    ensures a == b ==> UsageOf(rows, a, d).actorRows == UsageOf(rows, b, e).actorRows
    ensures a == b ==> UsageOf(rows, a, d).actorBytes == UsageOf(rows, b, e).actorBytes
  {
    if rows != [] {
      UsageBase(rows[..|rows| - 1], a, d, b, e);
    }
  }

  /** The usage predicted before a web or OAuth write is the usage found after it, column by column, and
      no other actor's usage moves. */
  lemma PutPrediction(rows: Table, actor: int, domain: string, content: string, valid: bool, now: int,
                      other: int, otherDomain: string)
    requires Canonical(domain) == domain
    ensures UsageOf(Put(rows, actor, domain, content, valid, now), actor, domain)
         == PredictPut(UsageOf(rows, actor, domain), |content|)
    ensures other != actor ==>
      var out := Put(rows, actor, domain, content, valid, now);
      var o, p := UsageOf(rows, other, otherDomain), UsageOf(out, other, otherDomain);
      p.actorRows == o.actorRows && p.actorBytes == o.actorBytes
  {
    NothingReplaced(rows, actor, domain);
    var u := UsageOf(rows, actor, domain);
    if u.replacedRows == 0 {
      var row := NewRow(rows, actor, domain, content, valid, now);
      UsageSnoc(rows, row, actor, domain);
      UsageSnoc(rows, row, other, otherDomain);
    } else {
      UpdateAllUsage(rows, actor, domain, content, valid, now);
      if other != actor {
        UpdateAllOthers(rows, actor, domain, content, valid, now, other, otherDomain);
      }
    }
  }

  lemma {:induction false} WithoutUsage(rows: Table, actor: int, domain: string, other: int, otherDomain: string)
    ensures var u, v := UsageOf(rows, actor, domain), UsageOf(Without(rows, actor, Some(domain)), actor, domain);
      && v.actorRows == u.actorRows - u.replacedRows && v.actorBytes == u.actorBytes - u.replacedBytes
      && v.globalBytes == u.globalBytes - u.replacedBytes && v.replacedRows == 0 && v.replacedBytes == 0
    ensures var out := Without(rows, actor, Some(domain));
      var o, p := UsageOf(rows, other, otherDomain), UsageOf(out, other, otherDomain);
      other != actor ==> p.actorRows == o.actorRows && p.actorBytes == o.actorBytes
  {
    if rows != [] {
      var init, last := rows[..|rows| - 1], rows[|rows| - 1];
      WithoutUsage(init, actor, domain, other, otherDomain);
      var kept := Without(init, actor, Some(domain));
      UsageSnoc(kept, last, actor, domain);
      UsageSnoc(kept, last, other, otherDomain);
    }
  }

  /** The usage predicted before a message upload is the usage found after its delete and insert. */
  lemma SwapPrediction(rows: Table, actor: int, domain: string, content: string, now: int, other: int,
                       otherDomain: string)
    requires Canonical(domain) == domain
    ensures UsageOf(Swap(rows, actor, domain, content, now), actor, domain)
         == PredictSwap(UsageOf(rows, actor, domain), |content|)
    ensures other != actor ==>
      var out := Swap(rows, actor, domain, content, now);
      var o, p := UsageOf(rows, other, otherDomain), UsageOf(out, other, otherDomain);
      p.actorRows == o.actorRows && p.actorBytes == o.actorBytes
  {
    WithoutUsage(rows, actor, domain, other, otherDomain);
    var kept := Without(rows, actor, Some(domain));
    var row := NewRow(kept, actor, domain, content, true, now);
    UsageSnoc(kept, row, actor, domain);
    UsageSnoc(kept, row, other, otherDomain);
  }

  lemma {:induction false} DeleteUsage(rows: Table, actor: int, domain: Option<string>, other: int, otherDomain: string)
    ensures var o, p := UsageOf(rows, other, otherDomain), UsageOf(Without(rows, actor, domain), other, otherDomain);
      p.actorRows <= o.actorRows && p.actorBytes <= o.actorBytes && p.globalBytes <= o.globalBytes
  {
    if rows != [] {
      var init, last := rows[..|rows| - 1], rows[|rows| - 1];
      DeleteUsage(init, actor, domain, other, otherDomain);
      UsageSnoc(Without(init, actor, domain), last, other, otherDomain);
    }
  }

  /** What a web or OAuth write leaves in the table: every personal row of the domain carries the new
      content, at least one such row exists, identity columns of updated rows survive, and every row that
      did not match is untouched. */
  lemma PutContents(rows: Table, actor: int, domain: string, content: string, valid: bool, now: int)
    requires Canonical(domain) == domain
    ensures var out := Put(rows, actor, domain, content, valid, now);
      && (exists c :: c in out && Matches(c, actor, domain))
      && (forall c :: c in out && Matches(c, actor, domain) ==>
            c.content == content && c.isValid == valid && c.updatedAt == now && c.validatedAt.None?)
      && (forall c :: !Matches(c, actor, domain) ==> (c in out <==> c in rows))
      && |rows| <= |out|
      && (forall i :: 0 <= i < |rows| ==>
            out[i].id == rows[i].id && out[i].user == rows[i].user && out[i].domain == rows[i].domain
            && out[i].isPool == rows[i].isPool && out[i].displayLabel == rows[i].displayLabel
            && out[i].createdAt == rows[i].createdAt)
  {
    hide UsageOf, Canonical;
    NothingReplaced(rows, actor, domain);
    var out := Put(rows, actor, domain, content, valid, now);
    forall i | 0 <= i < |rows|
      ensures |UpdateAll(rows, actor, domain, content, valid, now)| == |rows|
      ensures UpdateAll(rows, actor, domain, content, valid, now)[i]
           == if Matches(rows[i], actor, domain) then Replaced(rows[i], content, valid, now) else rows[i]
    {
      UpdateAllAt(rows, actor, domain, content, valid, now, i);
    }
    if UsageOf(rows, actor, domain).replacedRows == 0 {
      assert out[|rows|] in out && Matches(out[|rows|], actor, domain);
    } else {
      var c :| c in rows && Matches(c, actor, domain);
      var i :| 0 <= i < |rows| && rows[i] == c;
      assert out[i] in out && Matches(out[i], actor, domain);
      forall c | !Matches(c, actor, domain)
        ensures c in out <==> c in rows
      {
        if c in rows {
          var i :| 0 <= i < |rows| && rows[i] == c;
          assert out[i] == c;
        }
      }
    }
  }

  /** What a message upload leaves: exactly one row for the domain, with the new content. */
  lemma SwapContents(rows: Table, actor: int, domain: string, content: string, now: int)
    requires Canonical(domain) == domain
    ensures var out := Swap(rows, actor, domain, content, now);
      && UsageOf(out, actor, domain).replacedRows == 1
      && (exists c :: c in out && Matches(c, actor, domain))
      && (forall c :: c in out && Matches(c, actor, domain) ==> c.content == content && c.isValid)
      && (forall c :: !Matches(c, actor, domain) ==> (c in out <==> c in rows))
  {
    SwapPrediction(rows, actor, domain, content, now, actor, domain);
    var out := Swap(rows, actor, domain, content, now);
    assert out[|out| - 1] in out && Matches(out[|out| - 1], actor, domain);
  }

  /** Changing one row moves the usage by the difference of that row's two contributions. */
  lemma {:induction false} UsageAfterRowChange(rows: Table, i: nat, c: Cookie, actor: int, domain: string)
    requires i < |rows|
    ensures Plus(UsageOf(rows[i := c], actor, domain), RowUsage(rows[i], actor, domain))
         == Plus(UsageOf(rows, actor, domain), RowUsage(c, actor, domain))
  {
    hide Canonical;
    var init, last := rows[..|rows| - 1], rows[|rows| - 1];
    assert rows == init + [last];
    UsageSnoc(init, last, actor, domain);
    hide UsageOf, RowUsage;
    if i == |rows| - 1 {
      assert rows[i := c] == init + [c];
      UsageSnoc(init, c, actor, domain);
    } else {
      UsageAfterRowChange(init, i, c, actor, domain);
      assert rows[i := c] == init[i := c] + [last];
      UsageSnoc(init[i := c], last, actor, domain);
    }
  }
}
