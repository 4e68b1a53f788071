/** CookieSubmit::inputs: browser cookies printed as Netscape jars, with every size and shape limit. */
module CookieJar {
  import opened Prelude
  import CookieTable
  import opened CookieCheck
  import opened CookieText
  import Decimal
  import FormData

  /** A JavaScript expiration date; the default stands for an absent or zero one. */
  datatype Expiry = NotFinite | At(seconds: real)

  datatype BrowserCookie = BrowserCookie(
    domain: string,
    path: string,
    name: string,
    value: string,
    secure: bool,
    httpOnly: bool,
    expiration: Option<Expiry>)

  datatype Jar = Jar(domain: string, content: string)
  datatype Submission = Submission(domain: string, cookies: seq<BrowserCookie>)

  const BANNER := "# Netscape HTTP Cookie File"
  const SESSION_EXPIRY := 2147483647

  predicate CleanCookie(c: BrowserCookie) {
    && !FormData.HasControl(c.domain) && !FormData.HasControl(c.path)
    && !FormData.HasControl(c.name) && !FormData.HasControl(c.value)
    && c.path != "" && c.path[0] == '/' && c.name != ""
  }

  /** The whole seconds of an acceptable expiration, with `as i64` saturating at the top. */
  function ExpirySeconds(e: Option<Expiry>): (r: Option<int>)
    ensures r.Some? ==> 0 <= r.value <= Decimal.I64_MAX
  {
    if e.None? || e == Some(At(0.0)) then Some(SESSION_EXPIRY)
    else if e.value.NotFinite? || e.value.seconds < 0.0 || e.value.seconds > 9223372036854775808.0 then None
    else Some(Min(e.value.seconds.Floor, Decimal.I64_MAX))
  }

  predicate Printable(c: BrowserCookie) {
    CleanCookie(c) && ExpirySeconds(c.expiration).Some?
  }

  function Mark(c: BrowserCookie): string {
    if c.httpOnly then MARK else ""
  }

  function Host(c: BrowserCookie): string {
    "." + CookieTable.TrimFront(c.domain)
  }

  function RecordFields(c: BrowserCookie): (fields: seq<string>)
    requires Printable(c)
    ensures |fields| == 7
  {
    [Mark(c) + Host(c), "TRUE", c.path, if c.secure then "TRUE" else "FALSE",
     Decimal.ToText(ExpirySeconds(c.expiration).value), c.name, c.value]
  }

  function PrintRecord(c: BrowserCookie): string
    requires Printable(c)
  {
    Join(RecordFields(c), '\t')
  }

  function Records(cookies: seq<BrowserCookie>): (records: seq<string>)
    requires forall i :: 0 <= i < |cookies| ==> Printable(cookies[i])
    ensures |records| == |cookies| && forall i :: 0 <= i < |cookies| ==> records[i] == PrintRecord(cookies[i])
  {
    seq(|cookies|, i requires 0 <= i < |cookies| => PrintRecord(cookies[i]))
  }

  function PrintJar(cookies: seq<BrowserCookie>): string
    requires forall i :: 0 <= i < |cookies| ==> Printable(cookies[i])
  {
    BANNER + "\n" + Unlines(Records(cookies))
  }

  // ----- what a printed jar reads back as -----

  predicate NoBreaks(s: string) {
    '\t' !in s && '\n' !in s && '\r' !in s
  }

  lemma LiteralsHaveNoBreaks()
    ensures NoBreaks("TRUE") && NoBreaks("FALSE")
  {
  }

  lemma NoControlNoBreaks(s: string)
    requires !FormData.HasControl(s)
    ensures NoBreaks(s)
  {
    if '\t' in s || '\n' in s || '\r' in s {
      var i: nat :| i < |s| && (s[i] == '\t' || s[i] == '\n' || s[i] == '\r');
      assert FormData.ControlAt(s, i);
    }
  }

  lemma {:induction false} TrimFrontKeeps(s: string, c: char)
    requires c !in s
    ensures c !in CookieTable.TrimFront(s)
  {
    if s != "" && s[0] == '.' {
      TrimFrontKeeps(s[1..], c);
    }
  }

  lemma DigitsNoBreaks(n: nat)
    ensures NoBreaks(Decimal.ToText(n))
  {
  }

  lemma HostHasNoBreaks(c: BrowserCookie)
    requires NoBreaks(c.domain)
    ensures NoBreaks(Mark(c) + Host(c)) && NoBreaks(Host(c))
  {
    TrimFrontKeeps(c.domain, '\t');
    TrimFrontKeeps(c.domain, '\n');
    TrimFrontKeeps(c.domain, '\r');
  }

  lemma FieldsHaveNoBreaks(c: BrowserCookie)
    requires Printable(c)
    ensures forall i :: 0 <= i < 7 ==> NoBreaks(RecordFields(c)[i])
  {
    hide FormData.HasControl, NoBreaks, Mark, Host, Decimal.ToText;
    LiteralsHaveNoBreaks();
    NoControlNoBreaks(c.domain);
    NoControlNoBreaks(c.path);
    NoControlNoBreaks(c.name);
    NoControlNoBreaks(c.value);
    HostHasNoBreaks(c);
    DigitsNoBreaks(ExpirySeconds(c.expiration).value);
  }

  lemma {:induction false} JoinHasNoBreaks(fields: seq<string>, c: char)
    requires |fields| >= 1 && c != '\t' && forall f :: f in fields ==> c !in f
    ensures c !in Join(fields, '\t')
  {
    if |fields| > 1 {
      JoinHasNoBreaks(fields[1..], c);
    }
  }

  lemma HostIsRecord(c: BrowserCookie)
    requires Printable(c)
    ensures IsRecord(RecordFields(c)[0])
  {
    var host := RecordFields(c)[0];
    if c.httpOnly {
      assert MARK <= host;
    } else {
      assert host == Host(c) && host[0] == '.';
    }
  }

  /** A printed record is one line that splits into exactly its seven fields and is read as a record. */
  lemma RecordReads(c: BrowserCookie)
    requires Printable(c)
    ensures Split(PrintRecord(c), '\t') == RecordFields(c)
    ensures '\n' !in PrintRecord(c) && !EndsInReturn(PrintRecord(c))
    ensures EntryOf(PrintRecord(c)) == Some(Entry(c.name, c.value))
  {
    FieldsHaveNoBreaks(c);
    var fields := RecordFields(c);
    SplitJoin(fields, '\t');
    JoinHasNoBreaks(fields, '\n');
    JoinHasNoBreaks(fields, '\r');
    HostIsRecord(c);
    var line := PrintRecord(c);
    FirstFieldDecides(line, "#HttpOnly_");
    FirstFieldDecides(line, "#");
  }

  /** The name/value map a browser means: the last cookie of a name wins. */
  function LastWins(cookies: seq<BrowserCookie>): map<string, string> {
    if cookies == [] then map[]
    else LastWins(cookies[..|cookies| - 1])[cookies[|cookies| - 1].name := cookies[|cookies| - 1].value]
  }

  lemma {:induction false} CollectRecords(entries: seq<Option<Entry>>, cookies: seq<BrowserCookie>)
    requires |entries| == |cookies| + 1 && entries[0].None?
    requires forall i :: 0 <= i < |cookies| ==> entries[i + 1] == Some(Entry(cookies[i].name, cookies[i].value))
    ensures Collect(entries) == LastWins(cookies)
    decreases |cookies|
  {
    var init := entries[..|entries| - 1];
    if cookies == [] {
      assert init == [] && Collect(init) == map[];
    } else {
      CollectRecords(init, cookies[..|cookies| - 1]);
    }
  }

  lemma BannerIsComment(banner: string)
    requires banner == BANNER
    ensures EntryOf(banner).None? && '\n' !in banner && !EndsInReturn(banner)
  {
    assert banner[0] == '#' && banner[1] == ' ';
  }

  predicate ReadsAs(record: string, c: BrowserCookie) {
    '\n' !in record && !EndsInReturn(record) && EntryOf(record) == Some(Entry(c.name, c.value))
  }

  lemma JarReads(banner: string, records: seq<string>, cookies: seq<BrowserCookie>)
    requires EntryOf(banner).None? && '\n' !in banner && !EndsInReturn(banner)
    requires |records| == |cookies| && forall i :: 0 <= i < |cookies| ==> ReadsAs(records[i], cookies[i])
    ensures var jar := banner + "\n" + Unlines(records);
      && LinesOf(jar) == [banner] + records
      && Values(jar) == LastWins(cookies)
  {
    var lines := [banner] + records;
    assert lines[1..] == records;
    assert Unlines(lines) == banner + "\n" + Unlines(records);
    LinesOfUnlines(lines);
    assert StripAll(lines) == lines;
    CollectRecords(EntriesOf(lines), cookies);
  }

  lemma RecordsRead(cookies: seq<BrowserCookie>)
    requires forall i :: 0 <= i < |cookies| ==> Printable(cookies[i])
    ensures forall i :: 0 <= i < |cookies| ==> ReadsAs(Records(cookies)[i], cookies[i])
  {
    forall i | 0 <= i < |cookies|
      ensures ReadsAs(Records(cookies)[i], cookies[i])
    {
      RecordReads(cookies[i]);
    }
  }

  /** Reading a printed jar gives back the browser's cookies, the last of each name. */
  lemma PrintThenRead(cookies: seq<BrowserCookie>)
    requires forall i :: 0 <= i < |cookies| ==> Printable(cookies[i])
    ensures LinesOf(PrintJar(cookies)) == [BANNER] + Records(cookies)
    ensures Values(PrintJar(cookies)) == LastWins(cookies)
  {
    hide Printable, EntryOf, LinesOf;
    BannerIsComment(BANNER);
    RecordsRead(cookies);
    JarReads(BANNER, Records(cookies), cookies);
  }

  lemma ReadableMerges(text: string, banner: string, records: seq<string>, cookies: seq<BrowserCookie>,
                       updates: Updates)
    requires LinesOf(text) == [banner] + records && !EndsInReturn(banner)
    requires |records| == |cookies| && forall i :: 0 <= i < |cookies| ==> ReadsAs(records[i], cookies[i])
    requires PlainUpdates(updates)
    ensures Values(Merged(text, updates)) == Apply(Values(text), updates)
  {
    hide EntryOf, LinesOf, Values, Merged, PlainUpdates, Apply;
    forall line | line in LinesOf(text)
      ensures !LosesReturn(line, updates)
    {
      if line != banner {
        var i :| 0 <= i < |records| && line == records[i];
        assert ReadsAs(records[i], cookies[i]);
      }
    }
    MergeAppliesUpdates(text, updates);
  }

  /** A printed jar never hits the carriage-return loss, so a live update of it changes exactly the named values. */
  lemma PrintedJarMerges(cookies: seq<BrowserCookie>, updates: Updates)
    requires forall i :: 0 <= i < |cookies| ==> Printable(cookies[i])
    requires PlainUpdates(updates)
    ensures Values(Merged(PrintJar(cookies), updates)) == Apply(LastWins(cookies), updates)
  {
    hide Printable, EntryOf, LinesOf, Values, Merged, PrintJar, LastWins, PlainUpdates, Apply;
    var banner := BANNER;
    PrintThenRead(cookies);
    BannerIsComment(banner);
    RecordsRead(cookies);
    ReadableMerges(PrintJar(cookies), banner, Records(cookies), cookies, updates);
  }

  // ----- inputs -----

  function TotalSize(jars: seq<Jar>): (n: nat) {
    if jars == [] then 0 else TotalSize(jars[..|jars| - 1]) + |jars[|jars| - 1].content|
  }

  predicate GoodCookies(cookies: seq<BrowserCookie>) {
    && 1 <= |cookies| <= 4096
    && (forall i :: 0 <= i < |cookies| ==> Printable(cookies[i]))
    && |PrintJar(cookies)| <= MAX_JAR
  }

  /** Every host of the submission belongs to the domain it is submitted for. */
  predicate OwnsHosts(s: Submission) {
    var domain := CookieTable.ParseDomain(s.domain);
    domain.Some? && forall i :: 0 <= i < |s.cookies| ==> Belongs(Host(s.cookies[i]), domain.value)
  }

  predicate Acceptable(s: Submission) {
    GoodCookies(s.cookies) && OwnsHosts(s)
  }

  function JarOf(s: Submission): Jar
    requires GoodCookies(s.cookies)
  {
    Jar(s.domain, PrintJar(s.cookies))
  }

  function JarsOf(submissions: seq<Submission>): (jars: seq<Jar>)
    requires forall s :: s in submissions ==> GoodCookies(s.cookies)
    ensures |jars| == |submissions| && forall i :: 0 <= i < |jars| ==> jars[i] == JarOf(submissions[i])
  {
    seq(|submissions|, i requires 0 <= i < |submissions| => JarOf(submissions[i]))
  }

  lemma JarGrows(cookies: seq<BrowserCookie>, k: nat)
    requires forall i :: 0 <= i < |cookies| ==> Printable(cookies[i])
    requires k < |cookies|
    ensures PrintJar(cookies[..k + 1]) == PrintJar(cookies[..k]) + PrintRecord(cookies[k]) + "\n"
  {
    hide Printable, PrintRecord, Unlines;
    assert Records(cookies[..k + 1]) == Records(cookies[..k]) + [PrintRecord(cookies[k])];
    UnlinesSnoc(Records(cookies[..k]), PrintRecord(cookies[k]));
  }

  lemma {:induction false} JarPrefix(cookies: seq<BrowserCookie>, k: nat)
    requires forall i :: 0 <= i < |cookies| ==> Printable(cookies[i])
    requires k <= |cookies|
    ensures |PrintJar(cookies[..k])| <= |PrintJar(cookies)|
    decreases |cookies| - k
  {
    if k < |cookies| {
      JarGrows(cookies, k);
      JarPrefix(cookies, k + 1);
    } else {
      assert cookies[..k] == cookies;
    }
  }

  /** The inner loop: one jar, refused at the first bad cookie or as soon as it is too long. */
  method PrintCookies(cookies: seq<BrowserCookie>) returns (content: Option<string>)
    ensures content.Some? <==> GoodCookies(cookies)
    ensures content.Some? ==> content.value == PrintJar(cookies)
  {
    if |cookies| == 0 || |cookies| > 4096 {
      return None;
    }
    var text := BANNER + "\n";
    for k := 0 to |cookies|
      invariant forall i :: 0 <= i < k ==> Printable(cookies[i])
      invariant text == PrintJar(cookies[..k])
      invariant |text| <= MAX_JAR
    {
      var c := cookies[k];
      if !CleanCookie(c) {
        return None;
      }
      var seconds := ExpirySeconds(c.expiration);
      if seconds.None? {
        return None;
      }
      assert forall i :: 0 <= i < k + 1 ==> Printable(cookies[i]);
      var grown := cookies[..k + 1];
      assert grown[..k] == cookies[..k] && grown[..k + 1] == grown;
      JarGrows(grown, k);
      text := text + Join(RecordFields(c), '\t') + "\n";
      if |text| > MAX_JAR {
        if forall i :: 0 <= i < |cookies| ==> Printable(cookies[i]) {
          JarPrefix(cookies, k + 1);
        }
        return None;
      }
    }
    assert cookies[..|cookies|] == cookies;
    return Some(text);
  }

  lemma {:induction false} SizesGrow(jars: seq<Jar>, k: nat)
    requires k <= |jars|
    ensures TotalSize(jars[..k]) <= TotalSize(jars)
    decreases |jars|
  {
    if k == |jars| {
      assert jars[..k] == jars;
    } else {
      SizesGrow(jars[..|jars| - 1], k);
      assert jars[..|jars| - 1][..k] == jars[..k];
    }
  }

  // ----- a printed jar under the checks -----

  function PlainFields(c: BrowserCookie): seq<string>
    requires Printable(c)
  {
    [Host(c)] + RecordFields(c)[1..]
  }

  lemma FieldsAreValid(c: BrowserCookie)
    requires Printable(c)
    ensures ValidFields(PlainFields(c))
  {
    NumberParses(ExpirySeconds(c.expiration).value);
    LiteralFlags();
    HostBegins(c);
    hide ParsesI64, Decimal.ToText, FormData.HasControl, Flag, Host, Mark;
    var f, r := PlainFields(c), RecordFields(c);
    assert f[0] == Host(c) && forall i :: 1 <= i < 7 ==> f[i] == r[i];
    assert Flag(f[1]) && Flag(f[3]) && f[1] == "TRUE";
  }

  lemma LiteralFlags()
    ensures Flag("TRUE") && Flag("FALSE") && CleanText("TRUE") && CleanText("FALSE")
  {
  }

  lemma HostBegins(c: BrowserCookie)
    ensures Host(c) != "" && Host(c)[0] == '.'
  {
  }

  lemma HostIsClean(c: BrowserCookie)
    requires CleanText(c.domain)
    ensures CleanText(Mark(c) + Host(c))
  {
    CleanTrimmed(c.domain);
    CleanPrefix(".", CookieTable.TrimFront(c.domain));
    CleanPrefix(Mark(c), Host(c));
  }

  lemma FieldsAreClean(c: BrowserCookie)
    requires Printable(c)
    ensures forall i :: 0 <= i < 7 ==> CleanText(RecordFields(c)[i])
  {
    hide CleanText, Decimal.ToText, FormData.HasControl, Host, Mark;
    NumberParses(ExpirySeconds(c.expiration).value);
    NoControlIsClean(c.domain);
    NoControlIsClean(c.path);
    NoControlIsClean(c.name);
    NoControlIsClean(c.value);
    HostIsClean(c);
    LiteralFlags();
    var r := RecordFields(c);
    assert CleanText(r[0]) && CleanText(r[1]) && CleanText(r[2]) && CleanText(r[3]);
    assert CleanText(r[4]) && CleanText(r[5]) && CleanText(r[6]);
  }

  lemma NoControlIsClean(s: string)
    requires !FormData.HasControl(s)
    ensures CleanText(s)
  {
  }

  lemma JoinPrefix(mark: string, first: string, rest: seq<string>)
    ensures Join([mark + first] + rest, '\t') == mark + Join([first] + rest, '\t')
  {
    if rest != [] {
      assert ([mark + first] + rest)[1..] == rest && ([first] + rest)[1..] == rest;
      assert mark + first + ['\t'] + Join(rest, '\t') == mark + (first + ['\t'] + Join(rest, '\t'));
    }
  }

  /** A line that is a record, passes the record checks, and shows the host check the cookie's host. */
  predicate SoundLine(line: string, c: BrowserCookie) {
    && HoldsRecord(line) && ValidLine(line) && TrimReturns(line) == line
    && TrimMarks(Split(line, '\t')[0]) == Host(c)
  }

  lemma RecordIsClean(c: BrowserCookie)
    requires Printable(c)
    ensures CleanText(PrintRecord(c))
  {
    hide CleanText, Printable, Decimal.ToText, Join;
    FieldsAreClean(c);
    CleanJoin(RecordFields(c), '\t');
  }

  lemma RecordIsValid(c: BrowserCookie)
    requires Printable(c)
    ensures SoundLine(PrintRecord(c), c) && CleanText(PrintRecord(c))
  {
    hide ValidFields, CleanText, Split, EntryOf, NoBreaks, Printable, Join, TrimMarks;
    RecordReads(c);
    RecordIsClean(c);
    FieldsAreValid(c);
    PlainHasNoTabs(c);
    var plain := Join(PlainFields(c), '\t');
    JoinPrefix(Mark(c), Host(c), RecordFields(c)[1..]);
    assert RecordFields(c) == [Mark(c) + Host(c)] + RecordFields(c)[1..];
    SplitJoin(PlainFields(c), '\t');
    HostStart(c, plain);
    assert PrintRecord(c) == Mark(c) + plain;
    if c.httpOnly {
      assert PrintRecord(c)[|MARK|..] == plain;
    } else {
      assert PrintRecord(c) == plain;
    }
    assert HoldsRecord(PrintRecord(c)) && ValidLine(PrintRecord(c));
  }

  lemma PlainHasNoTabs(c: BrowserCookie)
    requires Printable(c)
    ensures forall f :: f in PlainFields(c) ==> '\t' !in f
  {
    FieldsHaveNoBreaks(c);
    NoControlNoBreaks(c.domain);
    HostHasNoBreaks(c);
  }

  /** A record without its mark begins with a dot, so no further mark is found. */
  lemma HostStart(c: BrowserCookie, plain: string)
    requires Printable(c) && plain == Join(PlainFields(c), '\t')
    ensures plain != "" && plain[0] == '.' && !(MARK <= plain) && !(MARK <= Host(c))
    ensures TrimMarks(Host(c)) == Host(c) && TrimMarks(MARK + Host(c)) == Host(c)
  {
    assert PlainFields(c)[0] == Host(c) && Host(c)[0] == '.';
    assert (MARK + Host(c))[|MARK|..] == Host(c);
  }

  /** A printed jar passes every check on its text; it is accepted exactly when all its hosts belong to the
      domain it is submitted for. */
  lemma PrintedJarIsValid(s: Submission)
    requires GoodCookies(s.cookies)
    ensures Validate(s.domain, PrintJar(s.cookies)) == if OwnsHosts(s) then CookieTable.ParseDomain(s.domain) else None
  {
    PrintedLines(s.cookies);
    JarIsClean(s.cookies);
    hide GoodCookies, SoundLines, LinesOf, CleanText, Printable, PrintJar, Validate, OwnsHosts;
    GoodJar(s.cookies);
    var content := PrintJar(s.cookies);
    TextIsValid(content, s.cookies);
    HostsAgree(s, content);
  }

  lemma GoodJar(cookies: seq<BrowserCookie>)
    requires GoodCookies(cookies)
    ensures cookies != [] && PrintJar(cookies) != "" && |PrintJar(cookies)| <= MAX_JAR
  {
  }

  lemma PrintedLines(cookies: seq<BrowserCookie>)
    requires forall i :: 0 <= i < |cookies| ==> Printable(cookies[i])
    ensures SoundLines(LinesOf(PrintJar(cookies)), cookies)
    ensures LinesOf(PrintJar(cookies))[0] == BANNER
  {
    hide SoundLine, HoldsRecord, LinesOf, Printable, PrintJar, PrintRecord, CleanText, Values, LastWins;
    PrintThenRead(cookies);
    BannerHoldsNothing(BANNER);
    var records := Records(cookies);
    forall i | 0 <= i < |cookies|
      ensures SoundLine(records[i], cookies[i])
    {
      RecordIsValid(cookies[i]);
    }
    BehindBanner(LinesOf(PrintJar(cookies)), BANNER, records, cookies);
  }

  lemma BehindBanner(lines: seq<string>, banner: string, records: seq<string>, cookies: seq<BrowserCookie>)
    requires lines == [banner] + records && |records| == |cookies| && !HoldsRecord(banner)
    requires forall i :: 0 <= i < |cookies| ==> SoundLine(records[i], cookies[i])
    ensures SoundLines(lines, cookies)
  {
    hide SoundLine, HoldsRecord;
    forall i | 1 <= i < |lines|
      ensures SoundLine(lines[i], cookies[i - 1])
    {
      assert lines[i] == records[i - 1];
    }
  }

  lemma JarIsClean(cookies: seq<BrowserCookie>)
    requires forall i :: 0 <= i < |cookies| ==> Printable(cookies[i])
    ensures CleanText(PrintJar(cookies))
  {
    hide CleanText, Printable, PrintRecord, SoundLine, HoldsRecord, Unlines;
    var records := Records(cookies);
    forall i | 0 <= i < |records|
      ensures CleanText(records[i])
    {
      RecordIsValid(cookies[i]);
    }
    BannerHoldsNothing(BANNER);
    CleanLines(records);
    CleanParts(BANNER, '\n', Unlines(records));
  }

  lemma BannerHoldsNothing(banner: string)
    requires banner == BANNER
    ensures !HoldsRecord(banner) && CleanText(banner)
  {
    assert banner[0] == '#' && banner[1] == ' ';
  }

  /** Every line behind the banner is sound for its cookie. */
  predicate SoundLines(lines: seq<string>, cookies: seq<BrowserCookie>) {
    && |lines| == |cookies| + 1 && !HoldsRecord(lines[0])
    && forall i :: 1 <= i < |lines| ==> SoundLine(lines[i], cookies[i - 1])
  }

  lemma TextIsValid(content: string, cookies: seq<BrowserCookie>)
    requires content != "" && |content| <= MAX_JAR && CleanText(content) && cookies != []
    requires SoundLines(LinesOf(content), cookies) && LinesOf(content)[0] == BANNER
    ensures ValidCookie(content)
  {
    hide HoldsRecord, ValidLine, TrimReturns, TrimMarks, Split, LinesOf, CleanText, Host;
    var lines := LinesOf(content);
    assert SoundLine(lines[1], cookies[0]);
  }

  lemma HostsAgree(s: Submission, content: string)
    requires |content| <= MAX_JAR && ValidCookie(content) && SoundLines(LinesOf(content), s.cookies)
    ensures Validate(s.domain, content) == if OwnsHosts(s) then CookieTable.ParseDomain(s.domain) else None
  {
    hide HoldsRecord, ValidLine, TrimReturns, TrimMarks, Split, LinesOf, ValidCookie, Belongs,
         CookieTable.ParseDomain, Host;
    var lines, parsed := LinesOf(content), CookieTable.ParseDomain(s.domain);
    if parsed.Some? {
      if OwnsHosts(s) {
        forall i | 0 <= i < |lines| && HoldsRecord(lines[i])
          ensures Belongs(TrimMarks(Split(lines[i], '\t')[0]), parsed.value)
        {
          assert i > 0 && SoundLine(lines[i], s.cookies[i - 1]);
        }
      } else {
        var i :| 0 <= i < |s.cookies| && !Belongs(Host(s.cookies[i]), parsed.value);
        assert SoundLine(lines[i + 1], s.cookies[i]);
        assert !Belongs(TrimMarks(Split(lines[i + 1], '\t')[0]), parsed.value);
      }
    }
  }

  lemma OwnerParses(s: Submission)
    ensures OwnsHosts(s) ==> CookieTable.ParseDomain(s.domain).Some?
  {
  }

  /** inputs: accepted exactly when every jar is good, all its hosts belong to its domain and the whole
      submission is within twice the limit of one; then each domain gets the print of its own cookies. */
  method Inputs(submissions: seq<Submission>) returns (result: Option<seq<Jar>>)
    ensures result.Some? <==>
      && 1 <= |submissions| <= 64
      && (forall s :: s in submissions ==> Acceptable(s))
      && TotalSize(JarsOf(submissions)) <= 2 * MAX_JAR
    ensures result.Some? ==> result.value == JarsOf(submissions)
  {
    hide GoodCookies, PrintJar, Validate, OwnsHosts, CookieTable.ParseDomain;
    if |submissions| == 0 || |submissions| > 64 {
      return None;
    }
    var jars: seq<Jar> := [];
    var total := 0;
    for k := 0 to |submissions|
      invariant forall s :: s in submissions[..k] ==> Acceptable(s)
      invariant jars == JarsOf(submissions[..k])
      invariant total == TotalSize(jars) <= 2 * MAX_JAR
    {
      var s := submissions[k];
      var content := PrintCookies(s.cookies);
      if content.None? {
        return None;
      }
      var jar := Jar(s.domain, content.value);
      var more := jars + [jar];
      assert more[..|jars|] == jars;
      assert submissions[..k + 1] == submissions[..k] + [s] && s in submissions;
      total := total + |content.value|;
      if total > 2 * MAX_JAR {
        if forall t :: t in submissions ==> Acceptable(t) {
          assert JarsOf(submissions)[..k + 1] == more;
          SizesGrow(JarsOf(submissions), k + 1);
        }
        return None;
      }
      PrintedJarIsValid(s);
      OwnerParses(s);
      if Validate(jar.domain, jar.content).None? {
        return None;
      }
      jars := more;
    }
    assert submissions[..|submissions|] == submissions;
    return Some(jars);
  }
}
