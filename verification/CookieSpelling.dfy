/** The cookie jar formats written out: the seven fields of a printed cookie, and exactly which jars are accepted. */
module CookieSpelling {
  import opened Prelude
  import opened CookieText
  import opened CookieCheck
  import opened CookieJar
  import CookieEffects
  import CookieTable
  import Decimal
  import FormData

  // ----- printed cookies -----

  /** The expiry second of a cookie: the last second of 2^31 when none is given, else its whole seconds. */
  predicate ExpiresAt(e: Option<Expiry>, seconds: int) {
    match e
    case None => seconds == 2147483647
    case Some(NotFinite) => false
    case Some(At(x)) =>
      if x == 0.0 then seconds == 2147483647
      else if x == 9223372036854775808.0 then seconds == 0x7FFF_FFFF_FFFF_FFFF
      else 0.0 < x < 9223372036854775808.0 && seconds as real <= x < seconds as real + 1.0
  }

  lemma ExpiryIs(e: Option<Expiry>, seconds: int)
    ensures ExpirySeconds(e) == Some(seconds) <==> ExpiresAt(e, seconds)
  {
  }

  /** A cookie prints exactly when its texts are free of control characters, its path begins with a slash, its name is
      not empty and its expiry is a finite time from 0 to 2^63. */
  lemma PrintableMeans(c: BrowserCookie)
    ensures Printable(c) <==>
      && !FormData.HasControl(c.domain) && !FormData.HasControl(c.path) && !FormData.HasControl(c.name)
      && !FormData.HasControl(c.value)
      && c.path != "" && c.path[0] == '/' && c.name != ""
      && (c.expiration.Some? ==>
            c.expiration.value.At? && 0.0 <= c.expiration.value.seconds <= 9223372036854775808.0)
  {
  }

  /** Its record: the mark of a cookie hidden from scripts, the host behind one dot, the flag for subdomains, path,
      secure flag, decimal expiry, name and value, between tabs. */
  lemma RecordIsSpelled(c: BrowserCookie, dots: string, host: string, seconds: nat)
    requires Printable(c) && ExpiresAt(c.expiration, seconds)
    requires c.domain == dots + host && CookieEffects.Dots(dots) && (host == "" || host[0] != '.')
    ensures Split(PrintRecord(c), '\t')
      == [(if c.httpOnly then "#HttpOnly_" else "") + "." + host, "TRUE", c.path, if c.secure then "TRUE" else "FALSE",
          Decimal.ToText(seconds), c.name, c.value]
  {
    ExpiryIs(c.expiration, seconds);
    CookieEffects.TrimFrontDots(dots, host);
    RecordReads(c);
    FieldsAre(c, host, seconds);
  }

  lemma FieldsAre(c: BrowserCookie, host: string, seconds: nat)
    requires Printable(c) && ExpirySeconds(c.expiration) == Some(seconds) && CookieTable.TrimFront(c.domain) == host
    ensures RecordFields(c)
      == [(if c.httpOnly then "#HttpOnly_" else "") + "." + host, "TRUE", c.path, if c.secure then "TRUE" else "FALSE",
          Decimal.ToText(seconds), c.name, c.value]
  {
    hide Decimal.ToText, FormData.HasControl, CookieTable.TrimFront, Printable;
    assert Mark(c) + Host(c) == (if c.httpOnly then "#HttpOnly_" else "") + "." + host;
  }

  /** A jar is the banner line and then one line for each cookie. */
  lemma JarIsSpelled(cookies: seq<BrowserCookie>)
    requires forall i :: 0 <= i < |cookies| ==> Printable(cookies[i])
    ensures cookies == [] ==> PrintJar(cookies) == "# Netscape HTTP Cookie File\n"
    ensures cookies != [] ==>
      PrintJar(cookies) == PrintJar(cookies[..|cookies| - 1]) + PrintRecord(cookies[|cookies| - 1]) + "\n"
  {
    if cookies != [] {
      JarGrows(cookies, |cookies| - 1);
      assert cookies[..|cookies|] == cookies;
    } else {
      assert Records(cookies) == [];
    }
  }

  // ----- accepted jars -----

  /** The fields of a record: host, subdomain flag that agrees with the host's dot, path, secure flag, expiry that is
      empty or an i64, and a name. */
  ghost predicate FieldsAccepted(f: seq<string>) {
    && |f| == 7 && f[0] != "" && f[2] != "" && f[2][0] == '/' && f[5] != ""
    && (f[3] == "TRUE" || f[3] == "FALSE")
    && (if f[0][0] == '.' then f[1] == "TRUE" else f[1] == "FALSE")
    && (f[4] == "" || exists n: int :: Spells(f[4], n))
  }

  /** A text of the number n: digits, perhaps behind a sign, within the range of an i64. */
  predicate Spells(s: string, n: int) {
    && -0x8000_0000_0000_0000 <= n <= 0x7FFF_FFFF_FFFF_FFFF && s != ""
    && var digits := if s[0] == '+' || s[0] == '-' then s[1..] else s;
       && digits != "" && Decimal.Digits(digits)
       && n == (if s[0] == '-' then -1 else 1) * Decimal.Value(digits)
  }

  lemma I64Spells(s: string)
    ensures ParsesI64(s) <==> exists n: int :: Spells(s, n)
  {
    if ParsesI64(s) {
      var signed := s != "" && (s[0] == '+' || s[0] == '-');
      var digits := if signed then s[1..] else s;
      var n := (if s[0] == '-' then -1 else 1) * Decimal.Value(digits);
      assert Spells(s, n);
    }
  }

  lemma FieldsAreAccepted(f: seq<string>)
    ensures ValidFields(f) <==> FieldsAccepted(f)
  {
    if |f| == 7 {
      I64Spells(f[4]);
    }
    hide ParsesI64, Spells;
  }

  predicate IsMarked(line: string) {
    "#HttpOnly_" <= line
  }

  /** Carriage returns at the end of a line do not count. */
  predicate Returns(s: string) {
    forall i :: 0 <= i < |s| ==> s[i] == '\r'
  }

  lemma {:induction false} TrimReturnsMeans(body: string, returns_: string)
    requires Returns(returns_) && (body == "" || body[|body| - 1] != '\r')
    ensures TrimReturns(body + returns_) == body
  {
    if returns_ == "" {
      assert body + returns_ == body;
    } else {
      var line := body + returns_;
      assert line[..|line| - 1] == body + returns_[..|returns_| - 1];
      TrimReturnsMeans(body, returns_[..|returns_| - 1]);
    }
  }

  /** A legal size, no control characters but tabs and line ends, one of two banners in front, at least one record
      behind it, and behind it only acceptable lines. */
  ghost predicate TextAccepted(content: string, lines: seq<string>) {
    && 1 <= |content| <= 524288
    && (forall i: nat :: i < |content| && FormData.ControlAt(content, i) ==> content[i] in {'\t', '\r', '\n'})
    && lines != [] && (lines[0] == "# Netscape HTTP Cookie File" || lines[0] == "# HTTP Cookie File")
    && (forall i :: 1 <= i < |lines| ==> LineAccepted(TrimReturns(lines[i])))
    && (exists i :: 1 <= i < |lines| && IsRecordLine(TrimReturns(lines[i])))
  }

  lemma TextIsAccepted(content: string)
    ensures ValidCookie(content) <==> TextAccepted(content, LinesOf(content))
  {
    hide ValidLine, LineAccepted, TrimReturns, LinesOf, FormData.ControlAt, IsRecordLine, HoldsRecord;
    var lines := LinesOf(content);
    forall i | 0 <= i < |lines|
      ensures ValidLine(TrimReturns(lines[i])) <==> LineAccepted(TrimReturns(lines[i]))
      ensures HoldsRecord(TrimReturns(lines[i])) <==> IsRecordLine(TrimReturns(lines[i]))
    {
      LineIsAccepted(TrimReturns(lines[i]));
      RecordLines(TrimReturns(lines[i]));
    }
  }

  /** A jar is accepted, for the parsed form of its domain, exactly when that parses, its text is acceptable, and the
      host of each of its records is the domain or lies below it. */
  lemma JarIsAcceptedIff(domain: string, content: string, d: string)
    ensures Validate(domain, content) == Some(d) <==>
      && CookieTable.ParseDomain(domain) == Some(d) && TextAccepted(content, LinesOf(content))
      && forall i :: 0 <= i < |LinesOf(content)| && IsRecordLine(LinesOf(content)[i]) ==>
           HostAccepted(LinesOf(content)[i], d)
  {
    hide ValidCookie, TextAccepted, HostAccepted, Belongs, TrimMarks, Split, LinesOf, CookieTable.ParseDomain,
         IsRecordLine, HoldsRecord;
    TextIsAccepted(content);
    AcceptedSize(content);
    var lines := LinesOf(content);
    forall i | 0 <= i < |lines|
      ensures Belongs(TrimMarks(Split(lines[i], '\t')[0]), d) <==> HostAccepted(lines[i], d)
      ensures HoldsRecord(lines[i]) <==> IsRecordLine(lines[i])
    {
      HostIsAccepted(lines[i], d);
      RecordLines(lines[i]);
    }
  }

  lemma AcceptedSize(content: string)
    ensures ValidCookie(content) ==> |content| <= MAX_JAR
  {
  }

  /** A line that is a record: marked, or neither empty nor a comment. */
  predicate IsRecordLine(line: string) {
    IsMarked(line) || IsBare(line)
  }

  lemma RecordLines(line: string)
    ensures HoldsRecord(line) <==> IsRecordLine(line)
  {
  }

  predicate IsBare(line: string) {
    line != "" && line[0] != '#'
  }

  /** Comments and empty lines pass; a record has sound fields, behind its mark when it has one. */
  ghost predicate LineAccepted(line: string) {
    && (IsMarked(line) ==> FieldsAccepted(Split(line[10..], '\t')))
    && (IsBare(line) ==> FieldsAccepted(Split(line, '\t')))
  }

  lemma LineIsAccepted(line: string)
    ensures ValidLine(line) <==> LineAccepted(line)
  {
    if IsMarked(line) {
      FieldsAreAccepted(Split(line[10..], '\t'));
      assert line[0] == '#';
    } else {
      FieldsAreAccepted(Split(line, '\t'));
    }
    hide ValidFields, FieldsAccepted, Split;
  }

  /** The host before the first tab, behind all its marks, parses to the domain or to something before a dot and the
      domain. */
  ghost predicate HostAccepted(line: string, d: string) {
    var host := CookieTable.ParseDomain(TrimMarks(Split(line, '\t')[0]));
    host.Some? && (host.value == d || exists sub :: host.value == sub + "." + d)
  }

  lemma HostIsAccepted(line: string, d: string)
    ensures Belongs(TrimMarks(Split(line, '\t')[0]), d) <==> HostAccepted(line, d)
  {
    var host := CookieTable.ParseDomain(TrimMarks(Split(line, '\t')[0]));
    hide CookieTable.ParseDomain, TrimMarks, Split;
    if host.Some? {
      SuffixMeans(host.value, "." + d);
      forall sub: string
        ensures sub + "." + d == sub + ("." + d)
      {
      }
    }
  }

  lemma SuffixMeans(s: string, end: string)
    ensures EndsWith(s, end) <==> exists sub :: s == sub + end
  {
    if EndsWith(s, end) {
      assert s == s[..|s| - |end|] + end;
    }
  }
}
