/** Session tokens: compact JWS with HS256 (RFC 7515 section 7.1) and an expiry claim (RFC 7519 section
    4.1.4). The keyed hash and the JSON reader are parameters; the JSON writer, base64url, the dot splitter
    and the decimal claims are concrete. */
module Tokens {
  import opened Json
  import opened Prelude
  import Base64Url
  import Decimal
  import FormData

  const MAX_TOKEN := 8192
  const HEADER := "{\"alg\":\"HS256\",\"typ\":\"JWT\"}"

  datatype Profile = Profile(userId: int, role: string, username: Option<string>, firstName: Option<string>)
  datatype Claims = Claims(sub: string, role: string, exp: int, username: Option<string>, firstName: Option<string>)
  datatype Signer = Signer(mac: string -> string, parse: string -> Option<Json>, ttl: int)

  // ----- writing -----

  function EscapeChar(c: char): string {
    if c == '"' then "\\\"" else if c == '\\' then "\\\\"
    else if c == '\n' then "\\n" else if c == '\r' then "\\r" else if c == '\t' then "\\t"
    else if c as int == 8 then "\\b" else if c as int == 12 then "\\f"
    else if c as int < 16 then "\\u000" + [LowerHex(c as int)]
    else if c as int < 32 then "\\u001" + [LowerHex(c as int - 16)]
    else [c]
  }

  function LowerHex(n: nat): char
    requires n < 16
  {
    "0123456789abcdef"[n]
  }

  function Escape(s: string): string {
    if s == "" then "" else EscapeChar(s[0]) + Escape(s[1..])
  }

  function IntText(n: int): string {
    if n < 0 then "-" + Decimal.ToText(-n) else Decimal.ToText(n)
  }

  function Quoted(name: string, value: string): string {
    "\"" + name + "\":\"" + Escape(value) + "\""
  }

  function OptionalMember(name: string, value: Option<string>): string {
    if value.Some? then "," + Quoted(name, value.value) else ""
  }

  /** serde_json::to_vec of the claims: optional members are left out. */
  function PrintClaims(c: Claims): string {
    "{" + Quoted("sub", c.sub) + "," + Quoted("role", c.role) + ",\"exp\":" + IntText(c.exp)
    + OptionalMember("username", c.username) + OptionalMember("first_name", c.firstName) + "}"
  }

  function ClaimsJson(c: Claims): Json {
    var tail := if c.firstName.Some? then Member("first_name", Text(c.firstName.value), NoMembers) else NoMembers;
    var more := if c.username.Some? then Member("username", Text(c.username.value), tail) else tail;
    Object(Member("sub", Text(c.sub), Member("role", Text(c.role), Member("exp", Integer(c.exp), more))))
  }

  const HEADER_JSON := Object(Member("alg", Text("HS256"), Member("typ", Text("JWT"), NoMembers)))

  predicate ValidClaimString(s: Option<string>, max: nat) {
    s.Some? ==> |s.value| <= max && !FormData.HasControl(s.value)
  }

  function NonEmpty(s: Option<string>): Option<string> {
    if s == Some("") then None else s
  }

  predicate ProfileBytes(p: Profile) {
    && IsBytes(p.role)
    && (p.username.Some? ==> IsBytes(p.username.value)) && (p.firstName.Some? ==> IsBytes(p.firstName.value))
  }

  predicate Issuable(signer: Signer, p: Profile, now: int) {
    && p.userId > 0 && p.role != "" && |p.role| <= 128 && !FormData.HasControl(p.role)
    && ValidClaimString(p.username, 64) && ValidClaimString(p.firstName, 256)
    && now + signer.ttl <= Decimal.I64_MAX
  }

  function ClaimsOf(signer: Signer, p: Profile, now: int): Claims
    requires p.userId > 0
  {
    Claims(Decimal.ToText(p.userId), p.role, now + signer.ttl, NonEmpty(p.username), NonEmpty(p.firstName))
  }

  function IssueToken(signer: Signer, p: Profile, now: int): Option<string>
    requires ProfileBytes(p)
    requires forall m :: IsBytes(signer.mac(m))
  {
    if !Issuable(signer, p, now) then None
    else
      var claims := ClaimsOf(signer, p, now);
      ClaimsAreBytes(claims);
      HeaderIsBytes();
      var input := Base64Url.Encode(HEADER) + "." + Base64Url.Encode(PrintClaims(claims));
      Some(input + "." + Base64Url.Encode(signer.mac(input)))
  }

  // ----- verifying -----

  predicate GoodHeader(header: Option<Json>) {
    && header.Some? && header.value.Object? && Count(header.value.members) == 2
    && Get(header.value.members, "alg") == Some(Text("HS256")) && Get(header.value.members, "typ") == Some(Text("JWT"))
  }

  function ReadSubject(sub: string): Option<int> {
    if sub == "" || !Decimal.Digits(sub) || (|sub| > 1 && sub[0] == '0') then None
    else
      var id := Decimal.ParseI64(sub);
      if id.None? || id.value <= 0 then None else id
  }

  function ReadClaims(parsed: Option<Json>, now: int): Option<int> {
    if parsed.None? || Depth(parsed.value, 0) > 8 || !parsed.value.Object? then None
    else
      var members := parsed.value.members;
      match (Get(members, "sub"), Get(members, "role"), Get(members, "exp"))
      case (Some(Text(sub)), Some(Text(role)), Some(Integer(exp))) =>
        var id := ReadSubject(sub);
        if id.None? || role == "" || |role| > 128 || FormData.HasControl(role) || exp <= now
          || ReadOptional(members, "username", 64).None? || ReadOptional(members, "first_name", 256).None?
        then None
        else id
      case _ => None
  }

  function VerifyPieces(signer: Signer, head: string, payload: string, signature: string, now: int): Option<int> {
    var header := Base64Url.StrictDecode(head);
    if header.None? || !GoodHeader(signer.parse(header.value)) then None
    else
      var code := Base64Url.StrictDecode(signature);
      if code.None? || signer.mac(head + "." + payload) != code.value then None
      else
        var claims := Base64Url.StrictDecode(payload);
        if claims.None? then None else ReadClaims(signer.parse(claims.value), now)
  }

  function VerifyToken(signer: Signer, token: string, now: int): Option<int> {
    if token == "" || |token| > MAX_TOKEN then None
    else
      var pieces := Split(token, '.');
      if |pieces| != 3 || pieces[0] == "" || pieces[1] == "" || pieces[2] == "" then None
      else VerifyPieces(signer, pieces[0], pieces[1], pieces[2], now)
  }

  // ----- the round trip -----

  lemma {:induction false} EscapeIsBytes(s: string)
    requires IsBytes(s)
    ensures IsBytes(Escape(s))
  {
    if s != "" {
      EscapeIsBytes(s[1..]);
    }
  }

  lemma {:induction false} EscapeLength(s: string)
    requires !FormData.HasControl(s)
    ensures |Escape(s)| <= 2 * |s|
  {
    if s != "" {
      assert !FormData.ControlAt(s, 0);
      TailHasNoControl(s);
      EscapeLength(s[1..]);
    }
  }

  lemma TailHasNoControl(s: string)
    requires s != "" && !FormData.HasControl(s)
    ensures !FormData.HasControl(s[1..])
  {
    forall i: nat | i < |s| - 1
      ensures !FormData.ControlAt(s[1..], i)
    {
      assert !FormData.ControlAt(s, i + 1);
    }
  }

  lemma DigitsAreBytes(n: int)
    ensures IsBytes(IntText(n))
  {
  }

  lemma QuotedIsBytes(name: string, value: string)
    requires IsBytes(name) && IsBytes(value)
    ensures IsBytes(Quoted(name, value))
  {
    EscapeIsBytes(value);
  }

  lemma ClaimsAreBytes(c: Claims)
    requires IsBytes(c.sub) && IsBytes(c.role)
    requires c.username.Some? ==> IsBytes(c.username.value)
    requires c.firstName.Some? ==> IsBytes(c.firstName.value)
    ensures IsBytes(PrintClaims(c))
  {
    hide Quoted, IntText;
    QuotedIsBytes("sub", c.sub);
    QuotedIsBytes("role", c.role);
    DigitsAreBytes(c.exp);
    if c.username.Some? {
      QuotedIsBytes("username", c.username.value);
    }
    if c.firstName.Some? {
      QuotedIsBytes("first_name", c.firstName.value);
    }
  }

  lemma HeaderIsBytes()
    ensures IsBytes(HEADER)
  {
  }

  lemma IntLength(n: int)
    requires -Decimal.I64_MAX - 1 <= n <= Decimal.I64_MAX
    ensures |IntText(n)| <= 20
  {
    Decimal.I64Length(if n < 0 then -n else n);
  }

  lemma QuotedLength(name: string, value: string)
    requires !FormData.HasControl(value)
    ensures |Quoted(name, value)| <= |name| + 5 + 2 * |value|
  {
    EscapeLength(value);
  }

  lemma PayloadLength(signer: Signer, p: Profile, now: int)
    requires Issuable(signer, p, now) && p.userId <= Decimal.I64_MAX && -Decimal.I64_MAX - 1 <= now + signer.ttl
    ensures |PrintClaims(ClaimsOf(signer, p, now))| <= 1024
  {
    hide Quoted, IntText, FormData.HasControl;
    var c := ClaimsOf(signer, p, now);
    DigitsHaveNoControl(c.sub);
    QuotedLength("sub", c.sub);
    Decimal.I64Length(p.userId);
    IntLength(c.exp);
    QuotedLength("role", c.role);
    if c.username.Some? {
      QuotedLength("username", c.username.value);
    }
    if c.firstName.Some? {
      QuotedLength("first_name", c.firstName.value);
    }
  }

  lemma DigitsHaveNoControl(s: string)
    requires Decimal.Digits(s)
    ensures !FormData.HasControl(s)
  {
  }

  lemma SubjectReads(id: int)
    requires 0 < id <= Decimal.I64_MAX
    ensures ReadSubject(Decimal.ToText(id)) == Some(id)
  {
    Decimal.ValueOfText(id);
  }

  lemma ClaimsRead(signer: Signer, p: Profile, issued: int, now: int)
    requires Issuable(signer, p, issued) && p.userId <= Decimal.I64_MAX
    ensures ReadClaims(Some(ClaimsJson(ClaimsOf(signer, p, issued))), now)
      == if now < issued + signer.ttl then Some(p.userId) else None
  {
    hide FormData.HasControl, ReadSubject, Decimal.ToText;
    SubjectReads(p.userId);
    var c := ClaimsOf(signer, p, issued);
    var members := ClaimsJson(c).members;
    FrontReads(c);
    hide ClaimsJson, Get, Depth, DepthMembers;
    assert ReadOptional(members, "username", 64).Some?;
    assert ReadOptional(members, "first_name", 256).Some?;
  }

  /** The three members in front, and what looking past them gives. */
  lemma FrontReads(c: Claims)
    ensures var json := ClaimsJson(c);
      && json.Object? && Depth(json, 0) <= 8
      && Get(json.members, "sub") == Some(Text(c.sub)) && Get(json.members, "role") == Some(Text(c.role))
      && Get(json.members, "exp") == Some(Integer(c.exp))
      && Get(json.members, "username") == (if c.username.Some? then Some(Text(c.username.value)) else None)
      && Get(json.members, "first_name") == (if c.firstName.Some? then Some(Text(c.firstName.value)) else None)
  {
    NamesRead(c);
    var json := ClaimsJson(c);
    var fromRole := json.members.rest;
    var fromExp := fromRole.rest;
    assert Get(json.members, "exp") == Get(fromRole, "exp") == Get(fromExp, "exp");
    assert Get(json.members, "username") == Get(fromRole, "username") == Get(fromExp, "username");
    assert Get(json.members, "first_name") == Get(fromRole, "first_name") == Get(fromExp, "first_name");
    assert DepthMembers(fromExp, 1) <= 1;
    assert DepthMembers(fromRole, 1) <= 1;
    assert Depth(json, 0) == DepthMembers(json.members, 1) <= 1;
  }

  lemma NamesRead(c: Claims)
    ensures var names := ClaimsJson(c).members.rest.rest.rest;
      && DepthMembers(names, 1) <= 1
      && Get(names, "username") == (if c.username.Some? then Some(Text(c.username.value)) else None)
      && Get(names, "first_name") == (if c.firstName.Some? then Some(Text(c.firstName.value)) else None)
  {
    var names := ClaimsJson(c).members.rest.rest.rest;
    if c.username.Some? {
      var tail := names.rest;
      assert DepthMembers(tail, 1) <= 1;
      assert Get(names, "first_name") == Get(tail, "first_name");
    }
  }

  lemma TokenPieces(head: string, payload: string, signature: string)
    requires '.' !in head && '.' !in payload && '.' !in signature
    ensures Split(head + "." + payload + "." + signature, '.') == [head, payload, signature]
  {
    SplitWhole(signature, '.');
    SplitFirst(payload, '.', signature);
    SplitFirst(head, '.', payload + "." + signature);
    assert head + "." + payload + "." + signature == head + "." + (payload + "." + signature);
  }

  /** The three pieces of an envelope: no dots, none empty, and the strict reader gives back what was sent. */
  lemma PiecesDecode(header: string, payload: string, code: string)
    requires IsBytes(header) && IsBytes(payload) && IsBytes(code)
    ensures var head, body, signature := Base64Url.Encode(header), Base64Url.Encode(payload), Base64Url.Encode(code);
      && Split(head + "." + body + "." + signature, '.') == [head, body, signature]
      && Base64Url.StrictDecode(head) == Some(header) && Base64Url.StrictDecode(body) == Some(payload)
      && Base64Url.StrictDecode(signature) == Some(code)
  {
    hide Base64Url.StrictDecode, Base64Url.Encode, Base64Url.Decode;
    Base64Url.DecodeEncode(header);
    Base64Url.DecodeEncode(payload);
    Base64Url.DecodeEncode(code);
    Base64Url.StrictIsInverse(Base64Url.Encode(header), header);
    Base64Url.StrictIsInverse(Base64Url.Encode(payload), payload);
    Base64Url.StrictIsInverse(Base64Url.Encode(code), code);
    TokenPieces(Base64Url.Encode(header), Base64Url.Encode(payload), Base64Url.Encode(code));
  }

  /** A token of pieces that decode, with a good header and the right signature, comes down to its claims. */
  lemma PiecesVerify(signer: Signer, head: string, body: string, signature: string, payload: string, now: int)
    requires head != "" && body != "" && signature != ""
    requires |head + "." + body + "." + signature| <= MAX_TOKEN
    requires Split(head + "." + body + "." + signature, '.') == [head, body, signature]
    requires var header := Base64Url.StrictDecode(head); header.Some? && GoodHeader(signer.parse(header.value))
    requires Base64Url.StrictDecode(signature) == Some(signer.mac(head + "." + body))
    requires Base64Url.StrictDecode(body) == Some(payload)
    ensures VerifyToken(signer, head + "." + body + "." + signature, now) == ReadClaims(signer.parse(payload), now)
  {
    hide Base64Url.StrictDecode, ReadClaims, GoodHeader, Split;
    var token := head + "." + body + "." + signature;
    assert VerifyToken(signer, token, now) == VerifyPieces(signer, head, body, signature, now);
  }

  /** Sending two texts and their keyed hash through base64url and the dots brings back exactly the texts. */
  lemma EnvelopeRoundTrip(signer: Signer, header: string, payload: string, now: int)
    requires IsBytes(header) && IsBytes(payload) && header != "" && payload != "" && |header| <= 64 && |payload| <= 1024
    requires GoodHeader(signer.parse(header))
    requires forall m :: IsBytes(signer.mac(m)) && |signer.mac(m)| == 32
    ensures var input := Base64Url.Encode(header) + "." + Base64Url.Encode(payload);
      var token := input + "." + Base64Url.Encode(signer.mac(input));
      |token| <= MAX_TOKEN && VerifyToken(signer, token, now) == ReadClaims(signer.parse(payload), now)
  {
    hide Base64Url.StrictDecode, Base64Url.Encode, Base64Url.Decode, VerifyToken, ReadClaims, GoodHeader;
    var head, body := Base64Url.Encode(header), Base64Url.Encode(payload);
    var code := signer.mac(head + "." + body);
    Base64Url.DecodeEncode(header);
    Base64Url.DecodeEncode(payload);
    Base64Url.DecodeEncode(code);
    PiecesDecode(header, payload, code);
    PiecesVerify(signer, head, body, Base64Url.Encode(code), payload, now);
  }

  lemma HeaderIsGood(header: string, signer: Signer)
    requires header == HEADER && signer.parse(header) == Some(HEADER_JSON)
    ensures GoodHeader(signer.parse(header)) && IsBytes(header) && header != "" && |header| <= 64
  {
  }

  /** A token that was issued fits the size limit and names its user at every moment before issue time plus
      TTL, and nobody from then on. `parse` reads back the two texts the token carries. */
  lemma TokenRoundTrip(signer: Signer, p: Profile, issued: int, now: int)
    requires ProfileBytes(p) && p.userId <= Decimal.I64_MAX
    requires -Decimal.I64_MAX - 1 <= issued && 0 <= signer.ttl
    requires forall m :: IsBytes(signer.mac(m)) && |signer.mac(m)| == 32
    requires Issuable(signer, p, issued)
    requires signer.parse(HEADER) == Some(HEADER_JSON)
    requires signer.parse(PrintClaims(ClaimsOf(signer, p, issued))) == Some(ClaimsJson(ClaimsOf(signer, p, issued)))
    ensures IssueToken(signer, p, issued).Some? && |IssueToken(signer, p, issued).value| <= MAX_TOKEN
    ensures VerifyToken(signer, IssueToken(signer, p, issued).value, now)
      == if now < issued + signer.ttl then Some(p.userId) else None
  {
    var header, claims := HEADER, ClaimsOf(signer, p, issued);
    ClaimsAreBytes(claims);
    PayloadLength(signer, p, issued);
    HeaderIsGood(header, signer);
    ClaimsRead(signer, p, issued, now);
    EnvelopeRoundTrip(signer, header, PrintClaims(claims), now);
  }

  lemma AcceptedPieces(signer: Signer, token: string, now: int)
    requires VerifyToken(signer, token, now).Some?
    ensures var p := Split(token, '.');
      && |p| == 3
      && Base64Url.StrictDecode(p[0]).Some? && Base64Url.StrictDecode(p[1]).Some?
      && Base64Url.StrictDecode(p[2]) == Some(signer.mac(p[0] + "." + p[1]))
  {
  }

  lemma StrictTextsAgree(s: string, t: string)
    requires Base64Url.StrictDecode(s).Some? && Base64Url.StrictDecode(t) == Base64Url.StrictDecode(s)
    ensures s == t
  {
    Base64Url.DecodeIsBytes(s);
    Base64Url.StrictIsInverse(s, Base64Url.StrictDecode(s).value);
    Base64Url.StrictIsInverse(t, Base64Url.StrictDecode(s).value);
  }

  /** The verifier leaves no second spelling: two accepted tokens that decode to the same header and the same
      payload are the same token, signature included. */
  lemma TokensAreCanonical(signer: Signer, token: string, other: string, now: int, later: int)
    requires VerifyToken(signer, token, now).Some? && VerifyToken(signer, other, later).Some?
    requires |Split(token, '.')| == |Split(other, '.')| == 3
    requires Base64Url.StrictDecode(Split(token, '.')[0]) == Base64Url.StrictDecode(Split(other, '.')[0])
    requires Base64Url.StrictDecode(Split(token, '.')[1]) == Base64Url.StrictDecode(Split(other, '.')[1])
    ensures token == other
  {
    hide VerifyToken, Base64Url.StrictDecode;
    var p, q := Split(token, '.'), Split(other, '.');
    AcceptedPieces(signer, token, now);
    AcceptedPieces(signer, other, later);
    StrictTextsAgree(p[0], q[0]);
    StrictTextsAgree(p[1], q[1]);
    StrictTextsAgree(p[2], q[2]);
    assert p == q;
    JoinSplit(token, '.');
    JoinSplit(other, '.');
  }

  // ----- which tokens are accepted -----

  /** A subject is a positive number in its one decimal spelling. */
  lemma SubjectIsDecimal(sub: string, id: int)
    ensures ReadSubject(sub) == Some(id) <==> 0 < id <= Decimal.I64_MAX && sub == Decimal.ToText(id)
  {
    if 0 < id <= Decimal.I64_MAX && sub == Decimal.ToText(id) {
      SubjectReads(id);
    } else if ReadSubject(sub) == Some(id) {
      Decimal.TextOfValue(sub);
    }
  }

  /** An optional claim is absent, null, or a short clean text. */
  predicate OptionalClaim(members: Members, name: string, max: nat) {
    match Get(members, name)
    case None => true
    case Some(Null) => true
    case Some(Text(s)) => |s| <= max && !FormData.HasControl(s)
    case _ => false
  }

  /** The claims name this user now, each claim under its own name. */
  predicate ClaimsName(claims: Json, now: int, id: int) {
    && claims.Object? && Depth(claims, 0) <= 8
    && var members := claims.members;
       var role, exp := Get(members, "role"), Get(members, "exp");
       && 0 < id <= 0x7FFF_FFFF_FFFF_FFFF && Get(members, "sub") == Some(Text(Decimal.ToText(id)))
       && role.Some? && role.value.Text? && 1 <= |role.value.s| <= 128 && !FormData.HasControl(role.value.s)
       && exp.Some? && exp.value.Integer? && now < exp.value.n
       && OptionalClaim(members, "username", 64) && OptionalClaim(members, "first_name", 256)
  }

  lemma ClaimsAreRead(parsed: Option<Json>, now: int, id: int)
    ensures ReadClaims(parsed, now) == Some(id) <==> parsed.Some? && ClaimsName(parsed.value, now, id)
  {
    if parsed.Some? && parsed.value.Object? {
      var members := parsed.value.members;
      var sub := Get(members, "sub");
      if sub.Some? && sub.value.Text? {
        SubjectIsDecimal(sub.value.s, id);
      }
    }
    hide FormData.HasControl, Get, Depth, ReadSubject, Decimal.ToText;
  }

  /** A header of exactly two members, which name the algorithm and the type. */
  predicate HeaderNames(header: Json) {
    && header.Object? && Get(header.members, "alg") == Some(Text("HS256"))
    && Get(header.members, "typ") == Some(Text("JWT")) && Count(header.members) == 2
  }

  ghost predicate TokenNames(signer: Signer, token: string, head: string, body: string, signature: string, now: int,
                             id: int) {
    var header, code, claims :=
      Base64Url.StrictDecode(head), Base64Url.StrictDecode(signature), Base64Url.StrictDecode(body);
    && token == head + "." + body + "." + signature && '.' !in head && '.' !in body && '.' !in signature
    && head != "" && body != "" && signature != ""
    && header.Some? && signer.parse(header.value).Some? && HeaderNames(signer.parse(header.value).value)
    && code == Some(signer.mac(head + "." + body))
    && claims.Some? && signer.parse(claims.value).Some? && ClaimsName(signer.parse(claims.value).value, now, id)
  }

  /** Exactly which tokens are accepted, and for whom: at most 8192 bytes, three pieces between two dots in strict
      base64url, a header that names the algorithm, the keyed hash of the first two pieces as the third, and claims
      that name the user and are not over. */
  lemma TokenIsAcceptedIff(signer: Signer, token: string, now: int, id: int)
    ensures VerifyToken(signer, token, now) == Some(id) <==>
      |token| <= 8192 && exists head, body, signature :: TokenNames(signer, token, head, body, signature, now, id)
  {
    hide Base64Url.StrictDecode, ReadClaims, ClaimsName, HeaderNames, GoodHeader;
    if VerifyToken(signer, token, now) == Some(id) {
      var p := Split(token, '.');
      JoinSplit(token, '.');
      ThreePieces(p);
      PiecesName(signer, p[0], p[1], p[2], now, id);
      assert TokenNames(signer, token, p[0], p[1], p[2], now, id);
    }
    if |token| <= 8192 && exists head, body, signature :: TokenNames(signer, token, head, body, signature, now, id) {
      var head, body, signature :| TokenNames(signer, token, head, body, signature, now, id);
      TokenPieces(head, body, signature);
      PiecesName(signer, head, body, signature, now, id);
    }
  }

  lemma ThreePieces(p: seq<string>)
    requires |p| == 3
    ensures Join(p, '.') == p[0] + "." + p[1] + "." + p[2]
  {
    assert p == [p[0], p[1], p[2]];
    assert p[1..] == [p[1], p[2]] && p[1..][1..] == [p[2]];
    assert Join(p[1..], '.') == p[1] + ['.'] + Join([p[2]], '.');
    assert Join(p, '.') == p[0] + ['.'] + (p[1] + ['.'] + p[2]);
  }

  lemma PiecesName(signer: Signer, head: string, body: string, signature: string, now: int, id: int)
    ensures VerifyPieces(signer, head, body, signature, now) == Some(id) <==>
      && var header, code, claims :=
           Base64Url.StrictDecode(head), Base64Url.StrictDecode(signature), Base64Url.StrictDecode(body);
         && header.Some? && signer.parse(header.value).Some? && HeaderNames(signer.parse(header.value).value)
         && code == Some(signer.mac(head + "." + body))
         && claims.Some? && signer.parse(claims.value).Some? && ClaimsName(signer.parse(claims.value).value, now, id)
  {
    hide Base64Url.StrictDecode, ReadClaims, ClaimsName, Get, Count;
    var claims := Base64Url.StrictDecode(body);
    if claims.Some? {
      ClaimsAreRead(signer.parse(claims.value), now, id);
    }
  }

  // ----- the written claims -----

  /** Members that are texts and integers, as the claims are. */
  predicate Flat(members: Members) {
    members.NoMembers? || ((members.value.Text? || members.value.Integer?) && Flat(members.rest))
  }

  /** Their text after RFC 8259, without spaces and in their order. */
  function WrittenMembers(members: Members): string
    requires Flat(members)
  {
    match members
    case NoMembers => ""
    case Member(name, value, rest) =>
      "\"" + name + "\":" + (if value.Text? then "\"" + Escape(value.s) + "\"" else IntText(value.n))
      + (if rest.NoMembers? then "" else "," + WrittenMembers(rest))
  }

  lemma LastMember(name: string, value: string)
    ensures WrittenMembers(Member(name, Text(value), NoMembers)) == Quoted(name, value)
  {
  }

  lemma TextMember(name: string, value: string, rest: Members)
    requires Flat(rest) && rest.Member?
    ensures WrittenMembers(Member(name, Text(value), rest)) == Quoted(name, value) + "," + WrittenMembers(rest)
  {
  }

  /** The payload of a token is the JSON text of its claims, each under its own name. */
  lemma ClaimsAreWritten(c: Claims)
    ensures var json := ClaimsJson(c);
      json.Object? && Flat(json.members) && PrintClaims(c) == "{" + WrittenMembers(json.members) + "}"
  {
    MembersAreWritten(c);
    ExpBehindComma(c.exp);
    hide Quoted, WrittenMembers, ExpMember, IntText, OptionalMember, Flat, ClaimsJson;
    Assemble(Quoted("sub", c.sub), Quoted("role", c.role), ",\"exp\":" + IntText(c.exp), ExpMember(c.exp),
             OptionalMember("username", c.username), OptionalMember("first_name", c.firstName));
  }

  lemma MembersAreWritten(c: Claims)
    ensures ClaimsJson(c).Object? && Flat(ClaimsJson(c).members)
    ensures WrittenMembers(ClaimsJson(c).members) == Quoted("sub", c.sub) + "," + (Quoted("role", c.role) + ","
      + (ExpMember(c.exp) + (OptionalMember("username", c.username) + OptionalMember("first_name", c.firstName))))
  {
    hide Escape, IntText;
    var fromRole := ClaimsJson(c).members.rest;
    var fromExp := fromRole.rest;
    NamesAreWritten(c);
    ExpIsWritten(c.exp, fromExp.rest);
    TextMember("role", c.role, fromExp);
    TextMember("sub", c.sub, fromRole);
    hide Quoted, WrittenMembers, ExpMember, OptionalMember;
  }

  lemma ExpIsWritten(exp: int, names: Members)
    requires Flat(names)
    ensures WrittenMembers(Member("exp", Integer(exp), names))
      == ExpMember(exp) + if names.NoMembers? then "" else "," + WrittenMembers(names)
  {
    hide IntText;
  }

  function ExpMember(exp: int): string {
    "\"exp\":" + IntText(exp)
  }

  lemma ExpBehindComma(exp: int)
    ensures ",\"exp\":" + IntText(exp) == "," + ExpMember(exp)
  {
    assert ",\"exp\":" == "," + "\"exp\":";
  }

  lemma Assemble(sub: string, role: string, behind: string, exp: string, username: string, firstName: string)
    requires behind == "," + exp
    ensures "{" + sub + "," + role + behind + username + firstName + "}"
      == "{" + (sub + "," + (role + "," + (exp + (username + firstName)))) + "}"
  {
    var a := sub + "," + role + behind + username + firstName;
    assert a == sub + "," + (role + "," + (exp + (username + firstName)));
    assert "{" + sub + "," + role + behind + username + firstName + "}" == "{" + a + "}";
  }

  lemma NamesAreFlat(c: Claims)
    ensures Flat(ClaimsJson(c).members.rest.rest.rest)
  {
    var names := ClaimsJson(c).members.rest.rest.rest;
    assert names.Member? ==> names.rest.Member? ==> names.rest.rest.NoMembers?;
  }

  lemma NamesAreWritten(c: Claims)
    ensures var names := ClaimsJson(c).members.rest.rest.rest;
      Flat(names) && OptionalMember("username", c.username) + OptionalMember("first_name", c.firstName)
        == if names.NoMembers? then "" else "," + WrittenMembers(names)
  {
    hide Quoted, Escape, WrittenMembers;
    NamesAreFlat(c);
    var names := ClaimsJson(c).members.rest.rest.rest;
    if c.firstName.Some? {
      LastMember("first_name", c.firstName.value);
    }
    if c.username.Some? {
      if c.firstName.Some? {
        TextMember("username", c.username.value, names.rest);
      } else {
        LastMember("username", c.username.value);
      }
    }
  }

  /** What a backslash and one more character stand for, after section 7 of RFC 8259. */
  function Escaped(c: char): Option<char> {
    if c == '"' || c == '\\' || c == '/' then Some(c)
    else if c == 'b' then Some(8 as char) else if c == 'f' then Some(12 as char)
    else if c == 'n' then Some('\n') else if c == 'r' then Some('\r') else if c == 't' then Some('\t')
    else None
  }

  /** The text between the quotes of a JSON string; four-digit escapes are read below U+0080. */
  function Unescape(s: string): Option<string>
    decreases |s|
  {
    if s == "" then Some("")
    else if s[0] == '"' || s[0] as int < 32 then None
    else if s[0] != '\\' then FormData.Prepend(s[0], Unescape(s[1..]))
    else if |s| >= 6 && s[1] == 'u' then
      var hi, lo := FormData.HexNibble(s[4]), FormData.HexNibble(s[5]);
      if s[2] != '0' || s[3] != '0' || hi.None? || lo.None? || hi.value >= 8 then None
      else FormData.Prepend((hi.value * 16 + lo.value) as char, Unescape(s[6..]))
    else if |s| >= 2 && Escaped(s[1]).Some? then FormData.Prepend(Escaped(s[1]).value, Unescape(s[2..]))
    else None
  }

  lemma LowerHexReads(n: nat)
    requires n < 16
    ensures FormData.HexNibble(LowerHex(n)) == Some(n)
  {
  }

  lemma ReadDigits(h: char, d: char, p: nat, q: nat, rest: string)
    requires FormData.HexNibble(h) == Some(p) && FormData.HexNibble(d) == Some(q) && p < 8 && q < 16
    ensures Unescape(['\\', 'u', '0', '0', h, d] + rest) == FormData.Prepend((p * 16 + q) as char, Unescape(rest))
  {
    hide FormData.HexNibble;
    assert (['\\', 'u', '0', '0', h, d] + rest)[6..] == rest;
  }

  lemma DigitEscape(c: char, rest: string)
    requires c as int < 32 && |EscapeChar(c)| == 6
    ensures Unescape(EscapeChar(c) + rest) == FormData.Prepend(c, Unescape(rest))
  {
    hide FormData.HexNibble, LowerHex, Unescape;
    var p, q := c as int / 16, c as int % 16;
    var h, d := if c as int < 16 then '0' else '1', LowerHex(q);
    LowerHexReads(q);
    OneAndZero();
    ReadDigits(h, d, p, q, rest);
    assert EscapeChar(c) == ['\\', 'u', '0', '0', h, d];
  }

  lemma OneAndZero()
    ensures FormData.HexNibble('0') == Some(0) && FormData.HexNibble('1') == Some(1)
  {
  }

  lemma OneEscape(c: char, rest: string)
    ensures Unescape(EscapeChar(c) + rest) == FormData.Prepend(c, Unescape(rest))
  {
    var s, n := EscapeChar(c) + rest, |EscapeChar(c)|;
    assert s[n..] == rest;
    if n == 6 {
      DigitEscape(c, rest);
    } else {
      hide FormData.HexNibble, LowerHex;
    }
  }

  /** The writer's strings are JSON strings of the texts they were written from. */
  lemma {:induction false} UnescapeEscape(s: string)
    ensures Unescape(Escape(s)) == Some(s)
  {
    if s != "" {
      OneEscape(s[0], Escape(s[1..]));
      UnescapeEscape(s[1..]);
      assert [s[0]] + s[1..] == s;
    }
  }

  /** A token is issued exactly for a positive user, a short clean role and short clean names, unless its expiry
      leaves the range of an i64. Its pieces carry the header, the claims with empty names left out, and the keyed
      hash of both. */
  lemma TokenIsIssuedIff(signer: Signer, p: Profile, now: int)
    requires ProfileBytes(p) && forall m :: IsBytes(signer.mac(m))
    ensures var token := IssueToken(signer, p, now);
      && (token.Some? <==>
            && p.userId > 0 && 1 <= |p.role| <= 128 && !FormData.HasControl(p.role)
            && (p.username.Some? ==> |p.username.value| <= 64 && !FormData.HasControl(p.username.value))
            && (p.firstName.Some? ==> |p.firstName.value| <= 256 && !FormData.HasControl(p.firstName.value))
            && now + signer.ttl <= 0x7FFF_FFFF_FFFF_FFFF)
      && (token.Some? ==>
            var pieces := Split(token.value, '.');
            && |pieces| == 3
            && Base64Url.StrictDecode(pieces[0]) == Some("{\"alg\":\"HS256\",\"typ\":\"JWT\"}")
            && Base64Url.StrictDecode(pieces[1]) == Some(PrintClaims(
                 Claims(Decimal.ToText(p.userId), p.role, now + signer.ttl,
                        if p.username == Some("") then None else p.username,
                        if p.firstName == Some("") then None else p.firstName)))
            && Base64Url.StrictDecode(pieces[2]) == Some(signer.mac(pieces[0] + "." + pieces[1])))
  {
    hide FormData.HasControl, Base64Url.StrictDecode, Base64Url.Encode, PrintClaims, Decimal.ToText, Split;
    if Issuable(signer, p, now) {
      var claims := ClaimsOf(signer, p, now);
      ClaimsAreBytes(claims);
      HeaderIsBytes();
      var input := Base64Url.Encode(HEADER) + "." + Base64Url.Encode(PrintClaims(claims));
      PiecesDecode(HEADER, PrintClaims(claims), signer.mac(input));
    }
  }
}
