/** The checks a Netscape jar must pass before it is stored: `valid_cookie` on its text and `validate` on its
    hosts. */
module CookieCheck {
  import CookieTable
  import Decimal
  import FormData
  import opened CookieText
  import opened Prelude

  const MARK := "#HttpOnly_"

  /** The control characters a jar may hold. */
  predicate Layout(c: char) {
    c == '\t' || c == '\r' || c == '\n'
  }

  predicate CleanText(s: string) {
    forall i: nat :: i < |s| && FormData.ControlAt(s, i) ==> Layout(s[i])
  }

  /** `str::parse::<i64>`. */
  predicate ParsesI64(s: string) {
    var signed := s != "" && (s[0] == '+' || s[0] == '-');
    var digits := if signed then s[1..] else s;
    && digits != "" && Decimal.Digits(digits)
    && Decimal.Value(digits) <= Decimal.I64_MAX + if signed && s[0] == '-' then 1 else 0
  }

  predicate Flag(s: string) {
    s == "TRUE" || s == "FALSE"
  }

  /** valid_cookie_record on the fields of a record without its mark. */
  predicate ValidFields(f: seq<string>) {
    && |f| == 7 && f[0] != "" && Flag(f[1]) && (f[0][0] == '.' <==> f[1] == "TRUE")
    && f[2] != "" && f[2][0] == '/' && Flag(f[3]) && (f[4] == "" || ParsesI64(f[4])) && f[5] != ""
  }

  function TrimReturns(line: string): string {
    if EndsInReturn(line) then TrimReturns(line[..|line| - 1]) else line
  }

  /** A line that holds a record: marked, or neither a comment nor empty. */
  predicate HoldsRecord(line: string) {
    MARK <= line || (line != "" && line[0] != '#')
  }

  predicate ValidLine(line: string) {
    HoldsRecord(line) ==> ValidFields(Split(if MARK <= line then line[|MARK|..] else line, '\t'))
  }

  predicate ValidCookie(value: string) {
    var lines := LinesOf(value);
    && value != "" && |value| <= MAX_JAR && CleanText(value)
    && lines != [] && (lines[0] == "# Netscape HTTP Cookie File" || lines[0] == "# HTTP Cookie File")
    && (forall i :: 1 <= i < |lines| ==> ValidLine(TrimReturns(lines[i])))
    && (exists i :: 1 <= i < |lines| && HoldsRecord(TrimReturns(lines[i])))
  }

  function TrimMarks(s: string): string {
    if MARK <= s then TrimMarks(s[|MARK|..]) else s
  }

  predicate EndsWith(s: string, end: string) {
    |end| <= |s| && s[|s| - |end|..] == end
  }

  /** The host parses to the domain itself or to a subdomain of it. */
  predicate Belongs(host: string, domain: string) {
    var parsed := CookieTable.ParseDomain(host);
    parsed.Some? && (parsed.value == domain || EndsWith(parsed.value, "." + domain))
  }

  /** `validate`: the parsed domain of an acceptable jar. */
  function Validate(domain: string, content: string): Option<string> {
    var parsed := CookieTable.ParseDomain(domain);
    if parsed.None? || |content| > MAX_JAR || !ValidCookie(content) then None
    else
      var lines := LinesOf(content);
      if forall i :: 0 <= i < |lines| && HoldsRecord(lines[i]) ==>
        Belongs(TrimMarks(Split(lines[i], '\t')[0]), parsed.value)
      then parsed else None
  }

  // ----- text without stray control characters -----

  lemma CleanParts(a: string, sep: char, b: string)
    requires CleanText(a) && CleanText(b) && (Layout(sep) || 0x20 <= sep as int < 0x7F)
    ensures CleanText(a + [sep] + b)
  {
    var s := a + [sep] + b;
    forall i: nat | i < |s| && FormData.ControlAt(s, i)
      ensures Layout(s[i])
    {
      if i < |a| {
        assert FormData.ControlAt(a, i);
      } else if i > |a| {
        assert FormData.ControlAt(b, i - |a| - 1);
      }
    }
  }

  lemma {:induction false} CleanJoin(pieces: seq<string>, sep: char)
    requires |pieces| >= 1 && Layout(sep) && forall i :: 0 <= i < |pieces| ==> CleanText(pieces[i])
    ensures CleanText(Join(pieces, sep))
  {
    hide CleanText;
    if |pieces| > 1 {
      CleanJoin(pieces[1..], sep);
      CleanParts(pieces[0], sep, Join(pieces[1..], sep));
    }
  }

  lemma {:induction false} CleanLines(lines: seq<string>)
    requires forall i :: 0 <= i < |lines| ==> CleanText(lines[i])
    ensures CleanText(Unlines(lines))
  {
    if lines == [] {
    } else {
      CleanLines(lines[1..]);
      CleanParts(lines[0], '\n', Unlines(lines[1..]));
    }
  }

  /** Printable ASCII in front of a clean text keeps it clean. */
  lemma CleanPrefix(a: string, b: string)
    requires CleanText(b) && forall c :: c in a ==> 0x20 <= c as int < 0x7F
    ensures CleanText(a + b)
  {
    var s := a + b;
    assert forall i :: 0 <= i < |a| ==> s[i] == a[i] && a[i] in a;
    forall i: nat | i < |s| && FormData.ControlAt(s, i)
      ensures Layout(s[i])
    {
      assert i >= |a| && FormData.ControlAt(b, i - |a|);
    }
  }

  lemma CleanTail(s: string)
    requires s != "" && CleanText(s)
    ensures CleanText(s[1..])
  {
    forall i: nat | i < |s| - 1 && FormData.ControlAt(s[1..], i)
      ensures Layout(s[1..][i])
    {
      assert FormData.ControlAt(s, i + 1);
    }
  }

  lemma {:induction false} CleanTrimmed(s: string)
    requires CleanText(s)
    ensures CleanText(CookieTable.TrimFront(s))
  {
    if s != "" && s[0] == '.' {
      CleanTail(s);
      CleanTrimmed(s[1..]);
    }
  }

  lemma NumberParses(n: nat)
    requires n <= Decimal.I64_MAX
    ensures ParsesI64(Decimal.ToText(n)) && CleanText(Decimal.ToText(n))
  {
    Decimal.ValueOfText(n);
  }
}
