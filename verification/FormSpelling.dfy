/** What form text means, without the decoder: which spellings of a byte it accepts, which bytes are text, and which
    characters of a text are control characters. */
module FormSpelling {
  import opened Prelude
  import opened FormData

  // ----- percent and plus spellings -----

  predicate HexChar(c: char, n: nat)
    requires n < 16
  {
    c == "0123456789abcdef"[n] || c == "0123456789ABCDEF"[n]
  }

  /** A byte may stand for itself, except percent and plus; a space may be a plus; any byte may be a percent sign
      and two hexadecimal digits of either case. */
  predicate Spells(piece: string, c: char) {
    || (piece == [c] && c != '%' && c != '+')
    || (piece == "+" && c == ' ')
    || (|piece| == 3 && piece[0] == '%' && c as int < 256
        && HexChar(piece[1], c as int / 16) && HexChar(piece[2], c as int % 16))
  }

  function Concat(pieces: seq<string>): string {
    if pieces == [] then "" else pieces[0] + Concat(pieces[1..])
  }

  lemma NibbleIsHexChar(c: char)
    ensures HexNibble(c).Some? ==> HexNibble(c).value < 16
    ensures forall n: nat :: n < 16 ==> (HexNibble(c) == Some(n) <==> HexChar(c, n))
  {
  }

  lemma PercentSpells(a: char, b: char, c: char)
    ensures Spells(['%', a, b], c) <==>
      HexNibble(a).Some? && HexNibble(b).Some? && HexNibble(a).value * 16 + HexNibble(b).value == c as int
  {
    NibbleIsHexChar(a);
    NibbleIsHexChar(b);
    hide HexNibble, HexChar;
  }

  lemma {:induction false} DecodePieces(pieces: seq<string>, text: string)
    requires |pieces| == |text| && forall i :: 0 <= i < |text| ==> Spells(pieces[i], text[i])
    ensures Decode(Concat(pieces)) == Some(text)
  {
    hide HexNibble, HexChar;
    if text != "" {
      DecodePieces(pieces[1..], text[1..]);
      var piece, rest := pieces[0], Concat(pieces[1..]);
      assert Spells(piece, text[0]);
      assert (piece + rest)[|piece|..] == rest;
      if |piece| == 3 {
        assert piece == ['%', piece[1], piece[2]];
        PercentSpells(piece[1], piece[2], text[0]);
      }
      assert [text[0]] + text[1..] == text;
    }
  }

  lemma {:induction false} DecodedPieces(s: string) returns (pieces: seq<string>)
    requires Decode(s).Some?
    ensures var text := Decode(s).value;
      |pieces| == |text| && Concat(pieces) == s && forall i :: 0 <= i < |text| ==> Spells(pieces[i], text[i])
    decreases |s|
  {
    hide HexNibble, HexChar;
    if s == "" {
      pieces := [];
    } else {
      var n := if s[0] == '%' then 3 else 1;
      var rest := DecodedPieces(s[n..]);
      var text := Decode(s).value;
      if s[0] == '%' {
        NibbleIsHexChar(s[1]);
        NibbleIsHexChar(s[2]);
        PercentSpells(s[1], s[2], text[0]);
        assert s[..3] == ['%', s[1], s[2]];
      }
      assert Spells(s[..n], text[0]);
      pieces := [s[..n]] + rest;
      assert text[1..] == Decode(s[n..]).value;
      assert s == s[..n] + s[n..];
      assert pieces[1..] == rest;
    }
  }

  predicate SpelledBy(s: string, text: string, pieces: seq<string>) {
    |pieces| == |text| && Concat(pieces) == s && forall i :: 0 <= i < |text| ==> Spells(pieces[i], text[i])
  }

  /** The decoder reads a text exactly when it spells those bytes one after another. */
  lemma DecodeReadsSpellings(s: string, text: string)
    ensures Decode(s) == Some(text) <==> exists pieces :: SpelledBy(s, text, pieces)
  {
    if Decode(s) == Some(text) {
      var pieces := DecodedPieces(s);
      assert SpelledBy(s, text, pieces);
    }
    if exists pieces :: SpelledBy(s, text, pieces) {
      var pieces :| SpelledBy(s, text, pieces);
      DecodePieces(pieces, text);
    }
  }

  // ----- UTF-8 -----

  /** A Unicode scalar value. */
  predicate Scalar(c: nat) {
    c < 0xD800 || 0xE000 <= c < 0x11_0000
  }

  /** Its bytes, after section 3 of RFC 3629. */
  function Bytes(c: nat): (s: string)
    requires Scalar(c)
    ensures 1 <= |s| <= 4
  {
    if c < 0x80 then [c as char]
    else if c < 0x800 then [(0xC0 + c / 64) as char, (0x80 + c % 64) as char]
    else if c < 0x1_0000 then [(0xE0 + c / 4096) as char, (0x80 + c / 64 % 64) as char, (0x80 + c % 64) as char]
    else
      [(0xF0 + c / 262144) as char, (0x80 + c / 4096 % 64) as char, (0x80 + c / 64 % 64) as char,
       (0x80 + c % 64) as char]
  }

  predicate Scalars(codes: seq<nat>) {
    forall c :: c in codes ==> Scalar(c)
  }

  function Write(codes: seq<nat>): string
    requires Scalars(codes)
  {
    if codes == [] then "" else Bytes(codes[0]) + Write(codes[1..])
  }

  lemma ScalarSteps(c: nat, rest: string)
    requires Scalar(c)
    ensures Utf8Step(Bytes(c) + rest) == |Bytes(c)|
  {
  }

  lemma Sextets(p: nat, x: nat, y: nat, z: nat)
    requires x < 64 && y < 64 && z < 64
    ensures var c := p * 262144 + x * 4096 + y * 64 + z;
      c % 64 == z && c / 64 % 64 == y && c / 4096 % 64 == x && c / 262144 == p
  {
    var c := p * 262144 + x * 4096 + y * 64 + z;
    assert c == (p * 4096 + x * 64 + y) * 64 + z;
    assert c / 64 == p * 4096 + x * 64 + y == (p * 64 + x) * 64 + y;
    assert c / 4096 == p * 64 + x;
  }

  lemma StepIsScalar(s: string) returns (c: nat)
    requires Utf8Step(s) > 0
    ensures Scalar(c) && Bytes(c) == s[..Utf8Step(s)]
  {
    var n := Utf8Step(s);
    if n == 1 {
      c := s[0] as int;
    } else if n == 2 {
      c := TwoBytes(s);
    } else if n == 3 {
      c := ThreeBytes(s);
    } else {
      c := FourBytes(s);
    }
  }

  lemma TwoBytes(s: string) returns (c: nat)
    requires Utf8Step(s) == 2
    ensures Scalar(c) && Bytes(c) == s[..2]
  {
    var x, y := s[0] as int - 0xC0, s[1] as int - 0x80;
    Sextets(0, 0, x, y);
    c := x * 64 + y;
  }

  lemma ThreeBytes(s: string) returns (c: nat)
    requires Utf8Step(s) == 3
    ensures Scalar(c) && Bytes(c) == s[..3]
  {
    var x, y, z := s[0] as int - 0xE0, s[1] as int - 0x80, s[2] as int - 0x80;
    Sextets(0, x, y, z);
    c := x * 4096 + y * 64 + z;
    assert c / 4096 == x;
    assert 0x800 <= c < 0x1_0000;
  }

  lemma FourBytes(s: string) returns (c: nat)
    requires Utf8Step(s) == 4
    ensures Scalar(c) && Bytes(c) == s[..4]
  {
    var p, x, y, z := s[0] as int - 0xF0, s[1] as int - 0x80, s[2] as int - 0x80, s[3] as int - 0x80;
    Sextets(p, x, y, z);
    c := p * 262144 + x * 4096 + y * 64 + z;
    assert 0x1_0000 <= c < 0x11_0000;
  }

  lemma {:induction false} WrittenIsUtf8(codes: seq<nat>)
    requires Scalars(codes)
    ensures Utf8(Write(codes))
  {
    hide Bytes, Utf8Step;
    if codes != [] {
      WrittenIsUtf8(codes[1..]);
      var piece, rest := Bytes(codes[0]), Write(codes[1..]);
      ScalarSteps(codes[0], rest);
      assert (piece + rest)[|piece|..] == rest;
    }
  }

  lemma {:induction false} Utf8IsWritten(s: string) returns (codes: seq<nat>)
    requires Utf8(s)
    ensures Scalars(codes) && Write(codes) == s
    decreases |s|
  {
    hide Bytes, Utf8Step;
    if s == "" {
      codes := [];
    } else {
      var n := Utf8Step(s);
      var c := StepIsScalar(s);
      var rest := Utf8IsWritten(s[n..]);
      codes := [c] + rest;
      assert codes[1..] == rest && s[..n] + s[n..] == s;
    }
  }

  /** The byte check accepts exactly the texts that write a sequence of Unicode scalar values. */
  lemma Utf8IsText(s: string)
    ensures Utf8(s) <==> exists codes :: Scalars(codes) && Write(codes) == s
  {
    if Utf8(s) {
      var codes := Utf8IsWritten(s);
    }
    if exists codes :: Scalars(codes) && Write(codes) == s {
      var codes :| Scalars(codes) && Write(codes) == s;
      WrittenIsUtf8(codes);
    }
  }

  // ----- control characters -----

  predicate Control(c: nat) {
    c < 32 || 127 <= c < 160
  }

  lemma ScalarControl(c: nat, rest: string)
    requires Scalar(c) && (rest != "" ==> !(0x80 <= rest[0] as int < 0xC0))
    ensures (exists i: nat :: i < |Bytes(c)| && ControlAt(Bytes(c) + rest, i)) <==> Control(c)
  {
    var s := Bytes(c) + rest;
    if Control(c) {
      assert ControlAt(s, 0);
    }
  }

  lemma HeadByte(c: nat)
    requires Scalar(c)
    ensures !(0x80 <= Bytes(c)[0] as int < 0xC0)
  {
  }

  lemma WriteHead(codes: seq<nat>)
    requires Scalars(codes) && codes != []
    ensures Write(codes) != "" && !(0x80 <= Write(codes)[0] as int < 0xC0)
  {
    HeadByte(codes[0]);
    hide Bytes;
  }

  /** The byte scan finds a control character exactly when the text has one: U+0000 to U+001F, U+007F to U+009F. */
  lemma {:induction false} ControlIsFound(codes: seq<nat>)
    requires Scalars(codes)
    ensures HasControl(Write(codes)) <==> exists c :: c in codes && Control(c)
  {
    if codes != [] {
      var head, rest := Bytes(codes[0]), Write(codes[1..]);
      var s := head + rest;
      ControlIsFound(codes[1..]);
      if codes[1..] != [] {
        WriteHead(codes[1..]);
      }
      ScalarControl(codes[0], rest);
      hide Bytes, Write;
      forall i: nat | |head| <= i < |s|
        ensures ControlAt(s, i) <==> ControlAt(rest, i - |head|)
      {
      }
      SplitFound(s, head, rest);
      assert codes == [codes[0]] + codes[1..];
    }
  }

  lemma SplitFound(s: string, head: string, rest: string)
    requires s == head + rest
    requires forall i: nat :: |head| <= i < |s| ==> (ControlAt(s, i) <==> ControlAt(rest, i - |head|))
    ensures HasControl(s) <==> (exists i: nat :: i < |head| && ControlAt(s, i)) || HasControl(rest)
  {
    if HasControl(rest) {
      var i: nat :| i < |rest| && ControlAt(rest, i);
      assert ControlAt(s, |head| + i);
    }
  }

  // ----- the form -----

  /** A pair of the form: the text before its first equals sign and the rest, each decoded. */
  predicate Reads(pair: string, f: Field, key: string, value: string) {
    && pair == key + "=" + value && '=' !in key
    && Decode(key) == Some(f.key) && Decode(value) == Some(f.value)
    && f.key != "" && '=' !in f.key && Utf8(f.key) && Utf8(f.value) && !HasControl(f.key) && !HasControl(f.value)
  }

  ghost predicate PairReads(pair: string, f: Field) {
    exists key, value :: Reads(pair, f, key, value)
  }

  lemma PairIsRead(pair: string, f: Field)
    ensures ParsePair(pair) == Some((f.key, f.value)) <==> PairReads(pair, f)
  {
    hide Utf8, HasControl, Decode;
    var at := IndexOf(pair, '=');
    if ParsePair(pair) == Some((f.key, f.value)) {
      assert pair == pair[..at] + "=" + pair[at + 1..];
      assert Reads(pair, f, pair[..at], pair[at + 1..]);
    }
    if PairReads(pair, f) {
      var key, value :| Reads(pair, f, key, value);
      IndexOfFirst(key, '=', value);
      assert pair[..|key|] == key && pair[|key| + 1..] == value;
    }
  }

  /** The fields that the pairs of a form hold, in their order. */
  ghost predicate FormHolds(pairs: seq<string>, fields: seq<Field>) {
    && |fields| == |pairs| && DistinctKeys(fields)
    && forall i :: 0 <= i < |pairs| ==> PairReads(pairs[i], fields[i])
  }

  lemma {:induction false} PairsAreRead(pairs: seq<string>, fields: seq<Field>, k: nat)
    requires k <= |pairs| && FormHolds(pairs, fields)
    ensures ParsePairs(pairs[k..], MapOf(fields[..k])) == Some(MapOf(fields))
    decreases |pairs| - k
  {
    hide PairReads, ParsePair;
    if k == |pairs| {
      assert fields[..k] == fields;
    } else {
      PairIsRead(pairs[k], fields[k]);
      MapOfKeys(fields[..k], fields[k].key);
      assert fields[..k + 1][..k] == fields[..k] && pairs[k..][1..] == pairs[k + 1..];
      PairsAreRead(pairs, fields, k + 1);
    }
  }

  lemma {:induction false} ReadPairsHold(pairs: seq<string>, read: seq<Field>, k: nat) returns (fields: seq<Field>)
    requires k <= |pairs| && |read| == k && DistinctKeys(read)
    requires forall i :: 0 <= i < k ==> PairReads(pairs[i], read[i])
    requires ParsePairs(pairs[k..], MapOf(read)).Some?
    ensures FormHolds(pairs, fields) && fields[..k] == read
    decreases |pairs| - k
  {
    hide PairReads, ParsePair, MapOf;
    if k == |pairs| {
      fields := read;
    } else {
      var pair := ParsePair(pairs[k]).value;
      var f := Field(pair.0, pair.1);
      PairIsRead(pairs[k], f);
      MapOfKeys(read, f.key);
      MapOfSnoc(read, f);
      assert pairs[k..][1..] == pairs[k + 1..];
      fields := ReadPairsHold(pairs, read + [f], k + 1);
      assert fields[..k] == fields[..k + 1][..k];
    }
  }

  lemma MapOfSnoc(fields: seq<Field>, f: Field)
    ensures MapOf(fields + [f]) == MapOf(fields)[f.key := f.value]
  {
    assert (fields + [f])[..|fields|] == fields;
  }

  /** A form parses to a map exactly when its pieces between ampersands are at most 64 readable pairs with distinct
      keys, and the map is theirs. */
  lemma FormParsesIff(input: string, m: Fields)
    ensures ParseForm(input) == Some(m) <==>
      |Split(input, '&')| <= 64 && exists fields :: FormHolds(Split(input, '&'), fields) && MapOf(fields) == m
  {
    hide PairReads, FormHolds;
    var pairs := Split(input, '&');
    assert pairs[0..] == pairs;
    if ParseForm(input) == Some(m) {
      assert MapOf([]) == map[];
      var fields := ReadPairsHold(pairs, [], 0);
      PairsAreRead(pairs, fields, 0);
      assert fields[..0] == [];
    }
    if |pairs| <= 64 && exists fields :: FormHolds(pairs, fields) && MapOf(fields) == m {
      var fields :| FormHolds(pairs, fields) && MapOf(fields) == m;
      PairsAreRead(pairs, fields, 0);
      assert fields[..0] == [];
    }
  }
}
