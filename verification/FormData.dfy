/** Launch data: percent decoding, the form parser and the canonical data-check string that is signed. */
module FormData {
  import opened Prelude

  const MAX_INIT_DATA := 16 * 1024
  const MAX_FIELDS := 64

  // ----- bytes, UTF-8 and control characters -----

  predicate Continues(s: string, i: nat) {
    i < |s| && 0x80 <= s[i] as int < 0xC0
  }

  /** Length of the well-formed UTF-8 sequence that `s` begins with, 0 when there is none. */
  function Utf8Step(s: string): (n: nat)
    ensures n <= |s|
  {
    if s == "" then 0
    else
      var b, c := s[0] as int, if |s| > 1 then s[1] as int else 0;
      if b < 0x80 then 1
      else if 0xC2 <= b <= 0xDF && Continues(s, 1) then 2
      else if 0xE0 <= b <= 0xEF && Continues(s, 1) && Continues(s, 2)
        && (b == 0xE0 ==> c >= 0xA0) && (b == 0xED ==> c < 0xA0) then 3
      else if 0xF0 <= b <= 0xF4 && Continues(s, 1) && Continues(s, 2) && Continues(s, 3)
        && (b == 0xF0 ==> c >= 0x90) && (b == 0xF4 ==> c < 0x90) then 4
      else 0
  }

  predicate Utf8(s: string) {
    s == "" || (Utf8Step(s) > 0 && Utf8(s[Utf8Step(s)..]))
  }

  /** char::is_control on UTF-8 bytes: U+0000-001F, U+007F and U+0080-009F. */
  predicate ControlAt(s: string, i: nat)
    requires i < |s|
  {
    s[i] as int < 0x20 || s[i] as int == 0x7F || (s[i] as int == 0xC2 && i + 1 < |s| && 0x80 <= s[i + 1] as int <= 0x9F)
  }

  predicate HasControl(s: string) {
    exists i: nat :: i < |s| && ControlAt(s, i)
  }

  // ----- form_decode -----

  function HexNibble(c: char): Option<nat> {
    if '0' <= c <= '9' then Some(c as int - '0' as int)
    else if 'a' <= c <= 'f' then Some(c as int - 'a' as int + 10)
    else if 'A' <= c <= 'F' then Some(c as int - 'A' as int + 10)
    else None
  }

  /** Percent and plus decoding, one pass over the text. */
  function Decode(s: string): Option<string>
    decreases |s|
  {
    if s == "" then Some("")
    else if s[0] == '%' then
      if |s| < 3 || HexNibble(s[1]).None? || HexNibble(s[2]).None? then None
      else Prepend((HexNibble(s[1]).value * 16 + HexNibble(s[2]).value) as char, Decode(s[3..]))
    else Prepend(if s[0] == '+' then ' ' else s[0], Decode(s[1..]))
  }

  function Prepend(c: char, rest: Option<string>): Option<string> {
    if rest.Some? then Some([c] + rest.value) else None
  }

  function FormDecode(s: string): Option<string> {
    var decoded := Decode(s);
    if decoded.Some? && Utf8(decoded.value) then decoded else None
  }

  /** form_decode's loop; it never reads past the input. */
  method DecodeForm(input: string) returns (r: Option<string>)
    ensures r == FormDecode(input)
  {
    var decoded := "";
    var i := 0;
    assert input[0..] == input;
    AttachNothing(Decode(input));
    while i < |input|
      invariant 0 <= i <= |input|
      invariant Decode(input) == Attach(decoded, Decode(input[i..]))
    {
      var step, byte := 1, input[i];
      if input[i] == '+' {
        byte := ' ';
      } else if input[i] == '%' {
        if i + 2 >= |input| {
          return None;
        }
        var hi, lo := HexNibble(input[i + 1]), HexNibble(input[i + 2]);
        if hi.None? || lo.None? {
          return None;
        }
        step, byte := 3, (hi.value * 16 + lo.value) as char;
      }
      assert input[i..][step..] == input[i + step..];
      AttachOne(decoded, byte, Decode(input[i + step..]));
      decoded := decoded + [byte];
      i := i + step;
    }
    assert input[i..] == "" && decoded + "" == decoded;
    return if Utf8(decoded) then Some(decoded) else None;
  }

  function Attach(front: string, rest: Option<string>): Option<string> {
    if rest.Some? then Some(front + rest.value) else None
  }

  lemma AttachNothing(rest: Option<string>)
    ensures Attach("", rest) == rest
  {
    assert rest.Some? ==> "" + rest.value == rest.value;
  }

  lemma AttachOne(front: string, c: char, rest: Option<string>)
    ensures Attach(front, Prepend(c, rest)) == Attach(front + [c], rest)
  {
    assert rest.Some? ==> front + ([c] + rest.value) == (front + [c]) + rest.value;
  }

  // ----- parse_form -----

  type Fields = map<string, string>

  predicate Legal(key: string, value: string) {
    && key != "" && '=' !in key && !HasControl(key) && !HasControl(value)
    && Utf8(key) && Utf8(value)
  }

  /** One pair: split at the first '=', decode both sides, refuse empty, ambiguous or control-bearing text. */
  function ParsePair(pair: string): Option<(string, string)> {
    var at := IndexOf(pair, '=');
    if at == |pair| then None
    else
      var key, value := FormDecode(pair[..at]), FormDecode(pair[at + 1..]);
      if key.None? || value.None? || key.value == "" || '=' in key.value then None
      else if HasControl(key.value) || HasControl(value.value) then None
      else Some((key.value, value.value))
  }

  function ParsePairs(pairs: seq<string>, fields: Fields): Option<Fields>
    decreases |pairs|
  {
    if pairs == [] then Some(fields)
    else
      var pair := ParsePair(pairs[0]);
      if pair.None? || pair.value.0 in fields then None
      else ParsePairs(pairs[1..], fields[pair.value.0 := pair.value.1])
  }

  function ParseForm(input: string): Option<Fields> {
    var pairs := Split(input, '&');
    if |pairs| > MAX_FIELDS then None else ParsePairs(pairs, map[])
  }

  method ParseFields(input: string) returns (r: Option<Fields>)
    ensures r == ParseForm(input)
  {
    var pairs := Split(input, '&');
    var fields: Fields := map[];
    var count := 0;
    hide Legal, FormDecode, HasControl, Split;
    assert pairs[0..] == pairs;
    while count < |pairs|
      invariant 0 <= count <= |pairs| && count <= MAX_FIELDS
      invariant ParsePairs(pairs, map[]) == ParsePairs(pairs[count..], fields)
    {
      var pair := pairs[count];
      assert pairs[count..][1..] == pairs[count + 1..] && pairs[count..][0] == pair;
      if pair == "" {
        assert ParsePair(pair).None?;
        return None;
      }
      count := count + 1;
      if count > MAX_FIELDS {
        return None;
      }
      var at := IndexOf(pair, '=');
      if at == |pair| {
        return None;
      }
      var key := DecodeForm(pair[..at]);
      if key.None? {
        return None;
      }
      var value := DecodeForm(pair[at + 1..]);
      if value.None? || key.value == "" || '=' in key.value || HasControl(key.value) || HasControl(value.value) {
        return None;
      }
      if key.value in fields {
        return None;
      }
      fields := fields[key.value := value.value];
    }
    assert pairs[count..] == [];
    return Some(fields);
  }

  /** Whatever parses has legal fields only. */
  lemma {:induction false} ParsedIsLegal(pairs: seq<string>, fields: Fields)
    requires forall k :: k in fields ==> Legal(k, fields[k])
    requires ParsePairs(pairs, fields).Some?
    ensures var m := ParsePairs(pairs, fields).value; forall k :: k in m ==> Legal(k, m[k])
    ensures |ParsePairs(pairs, fields).value| == |fields| + |pairs|
    decreases |pairs|
  {
    if pairs != [] {
      var pair := ParsePair(pairs[0]).value;
      ParsedIsLegal(pairs[1..], fields[pair.0 := pair.1]);
    }
  }

  // ----- the encoder and the round trip -----

  function HexDigit(n: nat): char
    requires n < 16
  {
    "0123456789ABCDEF"[n]
  }

  predicate Plain(c: char) {
    || 'a' <= c <= 'z' || 'A' <= c <= 'Z' || '0' <= c <= '9'
    || c == '{' || c == '}' || c == ':' || c == ',' || c == '"'
  }

  function EncodeByte(c: char): string
    requires c as int < 256
  {
    if Plain(c) then [c] else ['%', HexDigit(c as int / 16), HexDigit(c as int % 16)]
  }

  function Encode(s: string): string
    requires IsBytes(s)
  {
    if s == "" then "" else EncodeByte(s[0]) + Encode(s[1..])
  }

  lemma HexDigitReads(n: nat)
    requires n < 16
    ensures HexNibble(HexDigit(n)) == Some(n)
    ensures HexDigit(n) != '&' && HexDigit(n) != '='
  {
  }

  /** Decoding undoes encoding, exactly once, and encoded text has neither separator. */
  lemma {:induction false} DecodeEncode(s: string)
    requires IsBytes(s)
    ensures Decode(Encode(s)) == Some(s)
    ensures '&' !in Encode(s) && '=' !in Encode(s)
  {
    if s != "" {
      DecodeEncode(s[1..]);
      var c, rest := s[0], Encode(s[1..]);
      if Plain(c) {
        assert ([c] + rest)[1..] == rest;
      } else {
        HexDigitReads(c as int / 16);
        HexDigitReads(c as int % 16);
        assert (EncodeByte(c) + rest)[3..] == rest;
      }
      assert [c] + s[1..] == s;
    }
  }

  datatype Field = Field(key: string, value: string)

  predicate LegalField(f: Field) {
    Legal(f.key, f.value) && IsBytes(f.key) && IsBytes(f.value)
  }

  function Print(f: Field): string
    requires LegalField(f)
  {
    Encode(f.key) + "=" + Encode(f.value)
  }

  function PrintAll(fields: seq<Field>): (pairs: seq<string>)
    requires forall i :: 0 <= i < |fields| ==> LegalField(fields[i])
    ensures |pairs| == |fields| && forall i :: 0 <= i < |fields| ==> pairs[i] == Print(fields[i])
  {
    seq(|fields|, i requires 0 <= i < |fields| => Print(fields[i]))
  }

  function MapOf(fields: seq<Field>): Fields {
    if fields == [] then map[]
    else MapOf(fields[..|fields| - 1])[fields[|fields| - 1].key := fields[|fields| - 1].value]
  }

  predicate DistinctKeys(fields: seq<Field>) {
    forall i, j :: 0 <= i < j < |fields| ==> fields[i].key != fields[j].key
  }

  lemma PairRoundTrip(f: Field)
    requires LegalField(f)
    ensures ParsePair(Print(f)) == Some((f.key, f.value))
    ensures '&' !in Print(f)
  {
    DecodeEncode(f.key);
    DecodeEncode(f.value);
    var pair, k := Print(f), Encode(f.key);
    var at := IndexOf(pair, '=');
    IndexOfFirst(k, '=', Encode(f.value));
    assert pair[..at] == k && pair[at + 1..] == Encode(f.value);
  }

  lemma {:induction false} PairsRoundTrip(fields: seq<Field>, k: nat)
    requires forall i :: 0 <= i < |fields| ==> LegalField(fields[i])
    requires DistinctKeys(fields) && k <= |fields|
    ensures ParsePairs(PrintAll(fields)[k..], MapOf(fields[..k])) == Some(MapOf(fields))
    decreases |fields| - k
  {
    if k == |fields| {
      assert fields[..k] == fields;
    } else {
      PairRoundTrip(fields[k]);
      MapOfKeys(fields[..k], fields[k].key);
      assert fields[..k + 1][..k] == fields[..k];
      assert PrintAll(fields)[k..][1..] == PrintAll(fields)[k + 1..];
      PairsRoundTrip(fields, k + 1);
    }
  }

  lemma {:induction false} MapOfKeys(fields: seq<Field>, key: string)
    ensures key in MapOf(fields) <==> exists i :: 0 <= i < |fields| && fields[i].key == key
  {
    if fields != [] {
      MapOfKeys(fields[..|fields| - 1], key);
    }
  }

  /** Any 1 to 64 legal fields with distinct keys, encoded and joined in any order, parse back to exactly their map. */
  lemma FormRoundTrip(fields: seq<Field>)
    requires 1 <= |fields| <= MAX_FIELDS && DistinctKeys(fields)
    requires forall i :: 0 <= i < |fields| ==> LegalField(fields[i])
    ensures ParseForm(Join(PrintAll(fields), '&')) == Some(MapOf(fields))
  {
    hide ParsePairs, ParsePair, Print, Legal, Encode, Split, Join;
    forall i | 0 <= i < |fields|
      ensures '&' !in PrintAll(fields)[i]
    {
      PairRoundTrip(fields[i]);
    }
    SplitJoin(PrintAll(fields), '&');
    PairsRoundTrip(fields, 0);
    assert fields[..0] == [] && PrintAll(fields)[0..] == PrintAll(fields);
  }
}
