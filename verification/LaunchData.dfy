/** verify_webapp: the canonical data-check string, its signature, the age window and the user it names. The
    keyed hash, the JSON reader and the check of an address are parameters. */
module LaunchData {
  import opened Prelude
  import opened FormData
  import opened Json
  import Decimal

  // ----- key order -----

  /** The byte order of BTreeMap<String, _>. */
  predicate Leq(a: string, b: string) {
    a == "" || (b != "" && (a[0] < b[0] || (a[0] == b[0] && Leq(a[1..], b[1..]))))
  }

  lemma {:induction false} LeqTotal(a: string, b: string)
    ensures Leq(a, b) || Leq(b, a)
    ensures Leq(a, b) && Leq(b, a) ==> a == b
  {
    if a != "" && b != "" && a[0] == b[0] {
      LeqTotal(a[1..], b[1..]);
      assert a == [a[0]] + a[1..] && b == [b[0]] + b[1..];
    }
  }

  lemma {:induction false} LeqTransitive(a: string, b: string, c: string)
    requires Leq(a, b) && Leq(b, c)
    ensures Leq(a, c)
  {
    if a != "" && a[0] == b[0] && b[0] == c[0] {
      LeqTransitive(a[1..], b[1..], c[1..]);
    }
  }

  lemma {:induction false} LeastExists(s: set<string>)
    requires s != {}
    ensures exists k :: k in s && forall j :: j in s ==> Leq(k, j)
  {
    var k :| k in s;
    var rest := s - {k};
    if rest == {} {
      LeqTotal(k, k);
      assert s == {k};
    } else {
      LeastExists(rest);
      var m :| m in rest && forall j :: j in rest ==> Leq(m, j);
      LeqTotal(k, m);
      var least := if Leq(k, m) then k else m;
      forall j | j in s
        ensures Leq(least, j)
      {
        LeqTotal(k, k);
        if j != k && Leq(k, m) {
          LeqTransitive(k, m, j);
        }
      }
    }
  }

  ghost function SortedKeys(s: set<string>): (keys: seq<string>)
    ensures forall k :: k in keys <==> k in s
    ensures |keys| == |s|
  {
    if s == {} then []
    else
      LeastExists(s);
      var k :| k in s && forall j :: j in s ==> Leq(k, j);
      [k] + SortedKeys(s - {k})
  }

  lemma {:induction false} KeysAreSorted(s: set<string>)
    ensures var keys := SortedKeys(s);
      forall i, j :: 0 <= i < j < |keys| ==> Leq(keys[i], keys[j]) && keys[i] != keys[j]
  {
    hide Leq;
    if s != {} {
      var keys := SortedKeys(s);
      KeysAreSorted(s - {keys[0]});
      assert keys == [keys[0]] + SortedKeys(s - {keys[0]});
      forall j | 0 < j < |keys|
        ensures Leq(keys[0], keys[j]) && keys[0] != keys[j]
      {
        assert keys[j] == SortedKeys(s - {keys[0]})[j - 1];
        assert keys[j] in s - {keys[0]};
      }
    }
  }

  /** Byte by byte: a is a proper prefix of b, or smaller at the first byte in which they differ. */
  ghost predicate Before(a: string, b: string) {
    exists i: nat :: DiffersAt(a, b, i)
  }

  predicate DiffersAt(a: string, b: string, i: nat) {
    i <= |a| && i < |b| && a[..i] == b[..i] && (i == |a| || a[i] < b[i])
  }

  lemma {:induction false} LeqMeans(a: string, b: string)
    ensures Leq(a, b) <==> a == b || Before(a, b)
  {
    if a == "" {
      if b != "" {
        assert DiffersAt(a, b, 0);
      }
    } else if b != "" && a[0] == b[0] {
      LeqMeans(a[1..], b[1..]);
      assert a == [a[0]] + a[1..] && b == [b[0]] + b[1..];
      forall i: nat
        ensures i > 0 ==> (DiffersAt(a, b, i) <==> DiffersAt(a[1..], b[1..], i - 1))
      {
        if 0 < i <= |a| && i < |b| {
          assert a[..i] == [a[0]] + a[1..][..i - 1] && b[..i] == [b[0]] + b[1..][..i - 1];
        }
      }
      if Before(a[1..], b[1..]) {
        var i: nat :| DiffersAt(a[1..], b[1..], i);
        assert DiffersAt(a, b, i + 1);
      }
    } else if b != "" && a[0] < b[0] {
      assert DiffersAt(a, b, 0);
    }
  }

  lemma BeforeIsStrict(a: string, b: string)
    requires Before(a, b)
    ensures a != b && Leq(a, b) && !Leq(b, a)
  {
    LeqMeans(a, b);
    LeqTotal(a, b);
  }

  ghost predicate Rising(keys: seq<string>) {
    forall i, j :: 0 <= i < j < |keys| ==> Before(keys[i], keys[j])
  }

  /** The keys of a map have one rising order. */
  lemma {:induction false} RisingIsSorted(keys: seq<string>, s: set<string>)
    requires Rising(keys) && forall k :: k in keys <==> k in s
    ensures SortedKeys(s) == keys
    decreases |keys|
  {
    hide Before, Leq;
    if keys == [] {
      assert s == {};
    } else {
      assert keys[0] in s;
      var sorted := SortedKeys(s);
      var k := sorted[0];
      assert k in sorted && k in keys;
      LeastComesFirst(keys, s, k);
      forall j | j in keys[1..]
        ensures j in s - {k}
      {
        var i :| 0 < i < |keys| && keys[i] == j;
        BeforeIsStrict(keys[0], keys[i]);
      }
      forall j | j in s - {k}
        ensures j in keys[1..]
      {
        assert j in keys;
      }
      RisingIsSorted(keys[1..], s - {k});
    }
  }

  lemma SortedFirstIsLeast(s: set<string>, k: string)
    requires k in s
    ensures SortedKeys(s) != [] && Leq(SortedKeys(s)[0], k)
  {
    hide Leq;
    KeysAreSorted(s);
    LeqTotal(k, k);
    assert k in SortedKeys(s);
  }

  lemma LeastComesFirst(keys: seq<string>, s: set<string>, k: string)
    requires keys != [] && Rising(keys) && k in keys && forall j :: j in keys <==> j in s
    requires s != {} && SortedKeys(s)[0] == k
    ensures k == keys[0]
  {
    hide Before, Leq;
    var i :| 0 <= i < |keys| && keys[i] == k;
    SortedFirstIsLeast(s, keys[0]);
    if i > 0 {
      BeforeIsStrict(keys[0], keys[i]);
    }
  }

  // ----- the data-check string -----

  function Unsigned(m: Fields): Fields {
    m - {"hash"}
  }

  /** One `key=value` line for each of `keys`, in their order. */
  function Lines(keys: seq<string>, m: Fields): (lines: seq<string>)
    requires forall k :: k in keys ==> k in m
    ensures |lines| == |keys|
  {
    if keys == [] then [] else [keys[0] + "=" + m[keys[0]]] + Lines(keys[1..], m)
  }

  function Text(lines: seq<string>): string {
    if lines == [] then "" else Join(lines, '\n')
  }

  ghost function DataCheck(m: Fields): string {
    var rest := Unsigned(m);
    Text(Lines(SortedKeys(rest.Keys), rest))
  }

  /** The signed text, written out: every field but the hash, in rising byte order of the keys, one to a line. */
  lemma DataCheckIs(m: Fields, keys: seq<string>)
    requires Rising(keys) && forall k :: k in keys <==> k in m && k != "hash"
    ensures DataCheck(m) == if keys == [] then "" else Join(LinesFor(keys, m), '\n')
  {
    hide Rising;
    var rest := Unsigned(m);
    assert forall k :: k in keys <==> k in rest.Keys;
    RisingIsSorted(keys, rest.Keys);
    hide SortedKeys, Unsigned;
    LinesAreFor(keys, m, rest);
  }

  function LinesFor(keys: seq<string>, m: Fields): (lines: seq<string>)
    requires forall k :: k in keys ==> k in m
    ensures |lines| == |keys| && forall i :: 0 <= i < |keys| ==> lines[i] == keys[i] + "=" + m[keys[i]]
  {
    seq(|keys|, i requires 0 <= i < |keys| => keys[i] + "=" + m[keys[i]])
  }

  lemma LinesAreFor(keys: seq<string>, m: Fields, rest: Fields)
    requires forall k :: k in keys ==> k in m && k in rest && rest[k] == m[k]
    ensures Lines(keys, rest) == LinesFor(keys, m)
  {
    forall i | 0 <= i < |keys|
      ensures Lines(keys, rest)[i] == keys[i] + "=" + m[keys[i]]
    {
      LineAt(keys, rest, i);
    }
  }

  lemma {:induction false} LineAt(keys: seq<string>, m: Fields, i: nat)
    requires i < |keys| && forall k :: k in keys ==> k in m
    ensures Lines(keys, m)[i] == keys[i] + "=" + m[keys[i]]
  {
    if i > 0 {
      LineAt(keys[1..], m, i - 1);
    }
  }

  predicate AllLegal(m: Fields) {
    forall k :: k in m ==> Legal(k, m[k])
  }

  lemma NoNewline(s: string)
    requires !HasControl(s)
    ensures '\n' !in s
  {
    if '\n' in s {
      var i: nat :| i < |s| && s[i] == '\n';
      assert ControlAt(s, i);
    }
  }

  lemma {:induction false} LinesAreClean(keys: seq<string>, m: Fields)
    requires AllLegal(m) && forall k :: k in keys ==> k in m
    ensures forall line :: line in Lines(keys, m) ==> '\n' !in line && line != ""
  {
    if keys != [] {
      LinesAreClean(keys[1..], m);
      assert Legal(keys[0], m[keys[0]]);
      NoNewline(keys[0]);
      NoNewline(m[keys[0]]);
    }
  }

  lemma TextSplits(lines: seq<string>)
    requires forall line :: line in lines ==> '\n' !in line && line != ""
    ensures lines != [] ==> Split(Text(lines), '\n') == lines
    ensures lines == [] <==> Text(lines) == ""
  {
    if lines != [] {
      SplitJoin(lines, '\n');
      assert lines[0] in lines && lines[0] != "";
    }
  }

  /** Lines determine their keys and values, because no legal key holds an equals sign. */
  lemma {:induction false} LinesDetermine(keys: seq<string>, m: Fields, others: seq<string>, n: Fields)
    requires AllLegal(m) && forall k :: k in keys ==> k in m
    requires AllLegal(n) && forall k :: k in others ==> k in n
    requires Lines(keys, m) == Lines(others, n)
    ensures keys == others && forall k :: k in keys ==> m[k] == n[k]
  {
    if keys != [] {
      var k, j := keys[0], others[0];
      var line := Lines(keys, m)[0];
      assert line == Lines(others, n)[0];
      assert Legal(k, m[k]) && Legal(j, n[j]);
      IndexOfFirst(k, '=', m[k]);
      IndexOfFirst(j, '=', n[j]);
      assert line[..|k|] == k && line[..|j|] == j;
      assert line[|k| + 1..] == m[k] && line[|j| + 1..] == n[j];
      assert Lines(keys, m)[1..] == Lines(keys[1..], m) && Lines(others, n)[1..] == Lines(others[1..], n);
      LinesDetermine(keys[1..], m, others[1..], n);
    }
  }

  lemma DataCheckDetermines(m: Fields, n: Fields)
    requires AllLegal(m) && AllLegal(n) && DataCheck(m) == DataCheck(n)
    ensures Unsigned(m) == Unsigned(n)
  {
    var a, b := Unsigned(m), Unsigned(n);
    var keys, others := SortedKeys(a.Keys), SortedKeys(b.Keys);
    LinesAreClean(keys, a);
    LinesAreClean(others, b);
    TextSplits(Lines(keys, a));
    TextSplits(Lines(others, b));
    LinesDetermine(keys, a, others, b);
    forall k
      ensures k in a <==> k in b
      ensures k in a ==> a[k] == b[k]
    {
      assert k in a <==> k in a.Keys;
      assert k in b <==> k in b.Keys;
    }
  }

  /** The signed text is canonical: two accepted forms have the same data-check string exactly when they have
      the same fields apart from the signature. */
  lemma CanonicalIsInjective(input: string, other: string)
    requires ParseForm(input).Some? && ParseForm(other).Some?
    ensures DataCheck(ParseForm(input).value) == DataCheck(ParseForm(other).value)
      <==> Unsigned(ParseForm(input).value) == Unsigned(ParseForm(other).value)
  {
    ParsedIsLegal(Split(input, '&'), map[]);
    ParsedIsLegal(Split(other, '&'), map[]);
    if DataCheck(ParseForm(input).value) == DataCheck(ParseForm(other).value) {
      DataCheckDetermines(ParseForm(input).value, ParseForm(other).value);
    }
  }

  // ----- the whole check -----

  datatype Settings = Settings(
    mac: string -> string, parse: string -> Option<Json>, webAddress: string -> bool, maxAge: int, futureSkew: int)

  datatype TrustedProfile = TrustedProfile(
    userId: int, username: Option<string>, firstName: Option<string>, photoUrl: Option<string>)

  predicate IsHex(s: string) {
    forall c :: c in s ==> HexNibble(c).Some?
  }

  function DecodeHex(s: string): string
    requires IsHex(s) && |s| % 2 == 0
  {
    if s == "" then "" else [(HexNibble(s[0]).value * 16 + HexNibble(s[1]).value) as char] + DecodeHex(s[2..])
  }

  predicate CarriesSignature(fields: Fields) {
    "hash" in fields && |fields["hash"]| == 64 && IsHex(fields["hash"])
  }

  function SignatureOf(fields: Fields): string
    requires CarriesSignature(fields)
  {
    DecodeHex(fields["hash"])
  }

  /** The checks after parsing: the signature over the data-check string, then the age window. */
  ghost predicate Authentic(settings: Settings, fields: Fields, now: int) {
    && CarriesSignature(fields) && settings.mac(DataCheck(fields)) == SignatureOf(fields)
    && "auth_date" in fields && fields["auth_date"] != "" && Decimal.Digits(fields["auth_date"])
    && var date := Decimal.ParseI64(fields["auth_date"]);
       date.Some? && date.value > 0 && date.value <= now + settings.futureSkew && now - date.value <= settings.maxAge
  }

  /** The profile in the JSON of the user field. */
  function ReadUser(settings: Settings, fields: Fields): Option<TrustedProfile> {
    var parsed := if "user" in fields then settings.parse(fields["user"]) else None;
    if parsed.None? || Depth(parsed.value, 0) > 8 || !parsed.value.Object? then None
    else
      var members := parsed.value.members;
      var id := Get(members, "id");
      var username, firstName := ReadOptional(members, "username", 64), ReadOptional(members, "first_name", 256);
      var photo := ReadOptional(members, "photo_url", 2048);
      if id.None? || !id.value.Integer? || id.value.n <= 0 || username.None? || firstName.None? || photo.None? then None
      else if photo.value.Some? && !settings.webAddress(photo.value.value) then None
      else Some(TrustedProfile(id.value.n, username.value, firstName.value, photo.value))
  }

  /** verify_webapp: the profile of an acceptable launch. */
  ghost function CheckLaunch(settings: Settings, input: string, now: int): Option<TrustedProfile> {
    if input == "" || |input| > MAX_INIT_DATA || HasControl(input) then None
    else
      var parsed := ParseForm(input);
      if parsed.Some? && Authentic(settings, parsed.value, now) then ReadUser(settings, parsed.value) else None
  }

  function EncodeHex(s: string): string
    requires IsBytes(s)
  {
    if s == "" then "" else [HexDigit(s[0] as int / 16), HexDigit(s[0] as int % 16)] + EncodeHex(s[1..])
  }

  function UpperNibble(c: char): char {
    if 'a' <= c <= 'f' then (c as int - 32) as char else c
  }

  function UpperHex(s: string): string {
    if s == "" then "" else [UpperNibble(s[0])] + UpperHex(s[1..])
  }

  lemma NibbleSpelling(c: char, n: nat)
    requires n < 16
    ensures HexNibble(c) == Some(n) <==> UpperNibble(c) == HexDigit(n)
  {
  }

  /** A text is read as given bytes exactly when it is their hexadecimal spelling, in upper, lower or mixed case. */
  lemma {:induction false} HexRoundTrip(text: string, bytes: string)
    requires IsBytes(bytes)
    ensures IsHex(text) && |text| % 2 == 0 && DecodeHex(text) == bytes <==> UpperHex(text) == EncodeHex(bytes)
    decreases |text|
  {
    if |text| >= 2 && bytes != "" {
      var hi, lo := bytes[0] as int / 16, bytes[0] as int % 16;
      HexRoundTrip(text[2..], bytes[1..]);
      NibbleSpelling(text[0], hi);
      NibbleSpelling(text[1], lo);
      PairSpelling(text, bytes);
    } else if |text| == 1 && bytes != "" {
      assert |UpperHex(text)| == 1 && |EncodeHex(bytes)| >= 2;
    }
  }

  /** The same of a first pair of digits and a first byte, given it of the rest. */
  lemma PairSpelling(text: string, bytes: string)
    requires |text| >= 2 && bytes != "" && IsBytes(bytes)
    requires var rest := text[2..];
      IsHex(rest) && |rest| % 2 == 0 && DecodeHex(rest) == bytes[1..] <==> UpperHex(rest) == EncodeHex(bytes[1..])
    requires HexNibble(text[0]) == Some(bytes[0] as int / 16) <==>
      UpperNibble(text[0]) == HexDigit(bytes[0] as int / 16)
    requires HexNibble(text[1]) == Some(bytes[0] as int % 16) <==>
      UpperNibble(text[1]) == HexDigit(bytes[0] as int % 16)
    ensures IsHex(text) && |text| % 2 == 0 && DecodeHex(text) == bytes <==> UpperHex(text) == EncodeHex(bytes)
  {
    hide HexNibble, UpperNibble, HexDigit, IsHex, UpperHex, EncodeHex, DecodeHex;
    var rest, byte := text[2..], bytes[0] as int;
    PairIsHex(text);
    UpperPair(text);
    EncodePair(bytes);
    SamePair([UpperNibble(text[0]), UpperNibble(text[1])], UpperHex(rest), [HexDigit(byte / 16), HexDigit(byte % 16)],
             EncodeHex(bytes[1..]));
    if IsHex(text) && |text| % 2 == 0 {
      DecodePair(text);
      var p, q := HexNibble(text[0]).value, HexNibble(text[1]).value;
      SameByte(p, q, byte);
      SamePair([(p * 16 + q) as char], DecodeHex(rest), [bytes[0]], bytes[1..]);
      assert bytes == [bytes[0]] + bytes[1..];
    }
  }

  lemma UpperPair(text: string)
    requires |text| >= 2
    ensures UpperHex(text) == [UpperNibble(text[0]), UpperNibble(text[1])] + UpperHex(text[2..])
  {
    assert text[1..][1..] == text[2..];
  }

  lemma EncodePair(bytes: string)
    requires bytes != "" && IsBytes(bytes)
    ensures EncodeHex(bytes) == [HexDigit(bytes[0] as int / 16), HexDigit(bytes[0] as int % 16)] + EncodeHex(bytes[1..])
  {
  }

  lemma DecodePair(text: string)
    requires |text| >= 2 && IsHex(text) && |text| % 2 == 0
    ensures IsHex(text[2..]) && HexNibble(text[0]).Some? && HexNibble(text[1]).Some?
    ensures DecodeHex(text)
      == [(HexNibble(text[0]).value * 16 + HexNibble(text[1]).value) as char] + DecodeHex(text[2..])
  {
    PairIsHex(text);
  }

  lemma PairIsHex(text: string)
    requires |text| >= 2
    ensures IsHex(text) <==> HexNibble(text[0]).Some? && HexNibble(text[1]).Some? && IsHex(text[2..])
    ensures forall c :: HexNibble(c).Some? ==> HexNibble(c).value < 16
  {
    assert text == [text[0], text[1]] + text[2..];
    assert text[0] in text && text[1] in text && forall c :: c in text[2..] ==> c in text;
  }

  lemma SamePair(a: string, x: string, b: string, y: string)
    requires |a| == |b|
    ensures a + x == b + y <==> a == b && x == y
  {
    if a + x == b + y {
      assert (a + x)[..|a|] == a && (b + y)[..|b|] == b;
      assert (a + x)[|a|..] == x && (b + y)[|b|..] == y;
    }
  }

  lemma SameByte(p: nat, q: nat, byte: nat)
    requires p < 16 && q < 16 && byte < 256
    ensures (p * 16 + q) as char == byte as char <==> p == byte / 16 && q == byte % 16
  {
  }

  lemma ByteIsPrintable(c: char, i: nat)
    requires c as int < 256 && i < |EncodeByte(c)|
    ensures 0x20 <= EncodeByte(c)[i] as int < 0x7F
  {
  }

  lemma {:induction false} EncodedIsPrintable(s: string, i: nat)
    requires IsBytes(s) && i < |Encode(s)|
    ensures 0x20 <= Encode(s)[i] as int < 0x7F
  {
    var piece := EncodeByte(s[0]);
    if i < |piece| {
      ByteIsPrintable(s[0], i);
    } else {
      EncodedIsPrintable(s[1..], i - |piece|);
    }
  }

  lemma {:induction false} JoinedIsPrintable(fields: seq<Field>, i: nat)
    requires |fields| >= 1 && forall j :: 0 <= j < |fields| ==> LegalField(fields[j])
    requires i < |Join(PrintAll(fields), '&')|
    ensures 0x20 <= Join(PrintAll(fields), '&')[i] as int < 0x7F
    decreases |fields|
  {
    var f := fields[0];
    var k, v := Encode(f.key), Encode(f.value);
    assert PrintAll(fields)[0] == k + "=" + v;
    if i < |k| {
      EncodedIsPrintable(f.key, i);
    } else if |k| < i < |k| + 1 + |v| {
      EncodedIsPrintable(f.value, i - |k| - 1);
    } else if i > |k| + 1 + |v| {
      assert PrintAll(fields)[1..] == PrintAll(fields[1..]);
      JoinedIsPrintable(fields[1..], i - |k| - |v| - 2);
    }
  }

  lemma FormIsPrintable(fields: seq<Field>)
    requires |fields| >= 1 && forall j :: 0 <= j < |fields| ==> LegalField(fields[j])
    ensures Join(PrintAll(fields), '&') != "" && !HasControl(Join(PrintAll(fields), '&'))
  {
    var input := Join(PrintAll(fields), '&');
    assert PrintAll(fields)[0] == Encode(fields[0].key) + "=" + Encode(fields[0].value);
    forall i: nat | i < |input|
      ensures !ControlAt(input, i)
    {
      JoinedIsPrintable(fields, i);
    }
  }

  /** The signature field spells the keyed hash of the data-check string, in either case, and the date field
      spells `date`, perhaps with leading zeros. */
  ghost predicate SignedAt(settings: Settings, fields: Fields, date: int) {
    && CarriesSignature(fields) && SignatureOf(fields) == settings.mac(DataCheck(fields))
    && "auth_date" in fields && fields["auth_date"] != "" && Decimal.Digits(fields["auth_date"])
    && Decimal.ParseI64(fields["auth_date"]) == Some(date) && date > 0
  }

  predicate Timely(settings: Settings, date: int, now: int) {
    date <= now + settings.futureSkew && now - date <= settings.maxAge
  }

  /** An optional member, field by field: absent or null for None, else exactly this short clean text. */
  predicate Carries(members: Members, name: string, max: nat, field: Option<string>) {
    match field
    case None => Get(members, name) == None || Get(members, name) == Some(Null)
    case Some(text) => Get(members, name) == Some(Json.Text(text)) && |text| <= max && !HasControl(text)
  }

  /** The user field is a shallow JSON object, and each part of the profile is the member of its own name. */
  predicate UserIs(settings: Settings, fields: Fields, p: TrustedProfile) {
    && "user" in fields
    && var parsed := settings.parse(fields["user"]);
       && parsed.Some? && parsed.value.Object? && Depth(parsed.value, 0) <= 8
       && var members := parsed.value.members;
          && Get(members, "id") == Some(Integer(p.userId)) && p.userId > 0
          && Carries(members, "username", 64, p.username)
          && Carries(members, "first_name", 256, p.firstName)
          && Carries(members, "photo_url", 2048, p.photoUrl)
          && (p.photoUrl.Some? ==> settings.webAddress(p.photoUrl.value))
  }

  lemma OptionalCarries(members: Members, name: string, max: nat, field: Option<string>)
    ensures ReadOptional(members, name, max) == Some(field) <==> Carries(members, name, max, field)
  {
    hide HasControl, Get;
  }

  /** The reader returns exactly the profile that the user field carries; what carries none is refused. */
  lemma ReadUserMeans(settings: Settings, fields: Fields, p: TrustedProfile)
    ensures ReadUser(settings, fields) == Some(p) <==> UserIs(settings, fields, p)
  {
    if "user" in fields {
      var parsed := settings.parse(fields["user"]);
      if parsed.Some? && parsed.value.Object? {
        OptionalCarries(parsed.value.members, "username", 64, p.username);
        OptionalCarries(parsed.value.members, "first_name", 256, p.firstName);
        OptionalCarries(parsed.value.members, "photo_url", 2048, p.photoUrl);
      }
    }
    hide HasControl, Get, Depth, ReadOptional, Carries;
  }

  /** A text that parses to correctly signed fields, however it spells them, is accepted exactly inside the age
      window, and returns a profile exactly when the user field carries that profile. */
  lemma SignedTextIsAccepted(settings: Settings, input: string, date: int, now: int, p: TrustedProfile)
    requires input != "" && |input| <= MAX_INIT_DATA && !HasControl(input)
    requires ParseForm(input).Some? && SignedAt(settings, ParseForm(input).value, date)
    ensures CheckLaunch(settings, input, now) == Some(p) <==>
      Timely(settings, date, now) && UserIs(settings, ParseForm(input).value, p)
  {
    hide ParseForm, DataCheck, ReadUser, HasControl, UserIs;
    ReadUserMeans(settings, ParseForm(input).value, p);
  }

  /** A launch that a client signs with the right key is accepted exactly inside the age window, and returns a
      profile exactly when its user field carries that profile: any legal fields in any order, with the hash of
      their data-check string and a decimal date. */
  lemma SignedLaunchIsAccepted(settings: Settings, fields: seq<Field>, date: int, now: int, p: TrustedProfile)
    requires 1 <= |fields| <= MAX_FIELDS && DistinctKeys(fields)
    requires forall i :: 0 <= i < |fields| ==> LegalField(fields[i])
    requires |Join(PrintAll(fields), '&')| <= MAX_INIT_DATA
    requires SignedAt(settings, MapOf(fields), date)
    ensures CheckLaunch(settings, Join(PrintAll(fields), '&'), now) == Some(p) <==>
      Timely(settings, date, now) && UserIs(settings, MapOf(fields), p)
  {
    hide ReadUser, ParseForm, SignedAt, CheckLaunch, LegalField, DistinctKeys, HasControl, UserIs;
    FormRoundTrip(fields);
    FormIsPrintable(fields);
    SignedTextIsAccepted(settings, Join(PrintAll(fields), '&'), date, now, p);
  }

  /** Exactly which launches are accepted, and with which profile: a short text without control characters that
      parses to fields of which `hash` spells the keyed hash of all others in hexadecimal, `auth_date` is a date inside
      the window, and `user` carries the profile. */
  lemma LaunchIsAcceptedIff(settings: Settings, input: string, now: int, p: TrustedProfile)
    requires forall text :: IsBytes(settings.mac(text)) && |settings.mac(text)| == 32
    ensures CheckLaunch(settings, input, now) == Some(p) <==>
      && 1 <= |input| <= 16384 && !HasControl(input) && ParseForm(input).Some?
      && var fields := ParseForm(input).value;
         && "hash" in fields && UpperHex(fields["hash"]) == EncodeHex(settings.mac(DataCheck(fields)))
         && "auth_date" in fields && fields["auth_date"] != "" && Decimal.Digits(fields["auth_date"])
         && UserIs(settings, fields, p)
         && var date := Decimal.Value(fields["auth_date"]);
            0 < date <= 0x7FFF_FFFF_FFFF_FFFF && date - settings.futureSkew <= now <= date + settings.maxAge
  {
    hide ParseForm, DataCheck, ReadUser, HasControl, UserIs, DecodeHex, EncodeHex, UpperHex, IsHex;
    if ParseForm(input).Some? {
      var fields := ParseForm(input).value;
      ReadUserMeans(settings, fields, p);
      if "hash" in fields {
        HexRoundTrip(fields["hash"], settings.mac(DataCheck(fields)));
        HexLengths(fields["hash"], settings.mac(DataCheck(fields)));
      }
    }
  }

  lemma {:induction false} UpperLength(text: string)
    ensures |UpperHex(text)| == |text|
  {
    if text != "" {
      UpperLength(text[1..]);
    }
  }

  lemma {:induction false} EncodedLength(bytes: string)
    requires IsBytes(bytes)
    ensures |EncodeHex(bytes)| == 2 * |bytes|
  {
    if bytes != "" {
      EncodedLength(bytes[1..]);
    }
  }

  lemma HexLengths(text: string, bytes: string)
    requires IsBytes(bytes)
    ensures |UpperHex(text)| == |text| && |EncodeHex(bytes)| == 2 * |bytes|
  {
    UpperLength(text);
    EncodedLength(bytes);
  }

  /** Two signed field maps carry the same signature if they differ in it alone; and if they carry the same
      signature they agree in every other field, unless their texts are a collision of the keyed hash. */
  ghost predicate SignatureDecides(settings: Settings, m: Fields, n: Fields) {
    && CarriesSignature(m) && CarriesSignature(n)
    && (Unsigned(m) == Unsigned(n) ==> SignatureOf(m) == SignatureOf(n))
    && (SignatureOf(m) == SignatureOf(n) ==>
          || Unsigned(m) == Unsigned(n)
          || (DataCheck(m) != DataCheck(n) && settings.mac(DataCheck(m)) == settings.mac(DataCheck(n))))
  }

  /** What acceptance gives: of two accepted launches the signature decides every other field, and launches
      that differ in their signature field alone name the same user. */
  lemma AcceptedLaunchesAgree(settings: Settings, input: string, other: string, now: int, later: int)
    ensures var a, b := CheckLaunch(settings, input, now), CheckLaunch(settings, other, later);
      a.Some? && b.Some? ==>
        && ParseForm(input).Some? && ParseForm(other).Some?
        && var m, n := ParseForm(input).value, ParseForm(other).value;
           SignatureDecides(settings, m, n) && (Unsigned(m) == Unsigned(n) ==> a == b)
  {
    hide ParseForm, DataCheck, SignatureOf;
    if CheckLaunch(settings, input, now).Some? && CheckLaunch(settings, other, later).Some? {
      var m, n := ParseForm(input).value, ParseForm(other).value;
      CanonicalIsInjective(input, other);
      assert "user" in m <==> "user" in Unsigned(m);
      assert "user" in n <==> "user" in Unsigned(n);
      assert "user" in m ==> Unsigned(m)["user"] == m["user"];
      assert "user" in n ==> Unsigned(n)["user"] == n["user"];
    }
  }
}
