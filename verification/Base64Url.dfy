/** base64url without padding (RFC 4648 section 5) over byte strings, and the strict reader of the tokens. */
module Base64Url {
  import opened Prelude

  function Symbol(n: nat): char
    requires n < 64
  {
    if n < 26 then ('A' as int + n) as char
    else if n < 52 then ('a' as int + n - 26) as char
    else if n < 62 then ('0' as int + n - 52) as char
    else if n == 62 then '-' else '_'
  }

  function Sextet(c: char): (r: Option<nat>)
    ensures r.Some? ==> r.value < 64
  {
    if 'A' <= c <= 'Z' then Some(c as int - 'A' as int)
    else if 'a' <= c <= 'z' then Some(c as int - 'a' as int + 26)
    else if '0' <= c <= '9' then Some(c as int - '0' as int + 52)
    else if c == '-' then Some(62)
    else if c == '_' then Some(63)
    else None
  }

  lemma SymbolReads(n: nat)
    requires n < 64
    ensures Sextet(Symbol(n)) == Some(n)
    ensures Symbol(n) != '.' && Symbol(n) != '='
  {
  }

  /** The four sextets of three bytes, and what the first two and three of them still tell. */
  lemma GroupReads(a: nat, b: nat, c: nat)
    requires a < 256 && b < 256 && c < 256
    ensures a / 4 < 64 && a % 4 * 16 + b / 16 < 64 && b % 16 * 4 + c / 64 < 64 && c % 64 < 64
    ensures a / 4 * 4 + (a % 4 * 16 + b / 16) / 16 == a
    ensures (a % 4 * 16 + b / 16) % 16 * 16 + (b % 16 * 4 + c / 64) / 4 == b
    ensures (b % 16 * 4 + c / 64) % 4 * 64 + c % 64 == c
  {
  }

  function Encode(s: string): string
    requires IsBytes(s)
  {
    if s == "" then ""
    else
      var a := s[0] as int;
      if |s| == 1 then [Symbol(a / 4), Symbol(a % 4 * 16)]
      else
        var b := s[1] as int;
        if |s| == 2 then [Symbol(a / 4), Symbol(a % 4 * 16 + b / 16), Symbol(b % 16 * 4)]
        else
          var c := s[2] as int;
          [Symbol(a / 4), Symbol(a % 4 * 16 + b / 16), Symbol(b % 16 * 4 + c / 64), Symbol(c % 64)] + Encode(s[3..])
  }

  /** A decoder that drops whatever bits do not fill a byte. */
  function Decode(s: string): Option<string>
    decreases |s|
  {
    if s == "" then Some("")
    else if |s| == 1 then None
    else
      var p, q := Sextet(s[0]), Sextet(s[1]);
      if p.None? || q.None? then None
      else
        var first := (p.value * 4 + q.value / 16) as char;
        if |s| == 2 then Some([first])
        else
          var r := Sextet(s[2]);
          if r.None? then None
          else
            var second := (q.value % 16 * 16 + r.value / 4) as char;
            if |s| == 3 then Some([first, second])
            else
              var t, rest := Sextet(s[3]), Decode(s[4..]);
              if t.None? || rest.None? then None
              else Some([first, second, (r.value % 4 * 64 + t.value) as char] + rest.value)
  }

  lemma {:induction false} DecodeIsBytes(s: string)
    requires Decode(s).Some?
    ensures IsBytes(Decode(s).value)
  {
    if |s| > 4 {
      DecodeIsBytes(s[4..]);
    }
  }

  /** strict_b64: refuse padding, and refuse any text that is not the encoding of what it decodes to. */
  function StrictDecode(s: string): Option<string> {
    if '=' in s then None
    else
      var decoded := Decode(s);
      if decoded.None? then None
      else
        DecodeIsBytes(s);
        if Encode(decoded.value) == s then decoded else None
  }

  lemma DecodeGroup(p: nat, q: nat, r: nat, t: nat, rest: string)
    requires p < 64 && q < 64 && r < 64 && t < 64
    ensures Decode([Symbol(p), Symbol(q), Symbol(r), Symbol(t)] + rest)
      == if Decode(rest).None? then None
         else Some([(p * 4 + q / 16) as char, (q % 16 * 16 + r / 4) as char, (r % 4 * 64 + t) as char]
                   + Decode(rest).value)
  {
    SymbolReads(p);
    SymbolReads(q);
    SymbolReads(r);
    SymbolReads(t);
    hide Symbol, Sextet;
    var s := [Symbol(p), Symbol(q), Symbol(r), Symbol(t)] + rest;
    assert s[4..] == rest;
  }

  lemma NoDots(p: nat, q: nat, r: nat, t: nat, rest: string)
    requires p < 64 && q < 64 && r < 64 && t < 64
    requires '.' !in rest && '=' !in rest
    ensures '.' !in [Symbol(p), Symbol(q), Symbol(r), Symbol(t)] + rest
    ensures '=' !in [Symbol(p), Symbol(q), Symbol(r), Symbol(t)] + rest
  {
    SymbolReads(p);
    SymbolReads(q);
    SymbolReads(r);
    SymbolReads(t);
  }

  lemma DecodeShort(p: nat, q: nat, r: nat)
    requires p < 64 && q < 64 && r < 64
    ensures Decode([Symbol(p), Symbol(q)]) == Some([(p * 4 + q / 16) as char])
    ensures Decode([Symbol(p), Symbol(q), Symbol(r)]) == Some([(p * 4 + q / 16) as char, (q % 16 * 16 + r / 4) as char])
    ensures '.' !in [Symbol(p), Symbol(q), Symbol(r)] && '=' !in [Symbol(p), Symbol(q), Symbol(r)]
  {
    SymbolReads(p);
    SymbolReads(q);
    SymbolReads(r);
    hide Symbol, Sextet;
  }

  lemma ShortEncode(s: string)
    requires IsBytes(s) && 1 <= |s| <= 2
    ensures Decode(Encode(s)) == Some(s)
    ensures '.' !in Encode(s) && '=' !in Encode(s) && |Encode(s)| == |s| + 1
  {
    hide Symbol, Sextet, Decode;
    var a, b := s[0] as int, if |s| == 1 then 0 else s[1] as int;
    GroupReads(a, b, 0);
    var p, q, r := a / 4, a % 4 * 16 + b / 16, b % 16 * 4;
    DecodeShort(p, q, r);
    if |s| == 1 {
      assert Encode(s) == [Symbol(p), Symbol(q)] == [Symbol(p), Symbol(q), Symbol(r)][..2];
      assert s == [s[0]];
    } else {
      assert Encode(s) == [Symbol(p), Symbol(q), Symbol(r)];
      assert s == [s[0], s[1]];
    }
  }

  lemma {:induction false} DecodeEncode(s: string)
    requires IsBytes(s)
    ensures Decode(Encode(s)) == Some(s)
    ensures '.' !in Encode(s) && '=' !in Encode(s)
    ensures |Encode(s)| == (4 * |s| + 2) / 3
    ensures s != "" ==> Encode(s) != ""
  {
    hide Symbol, Sextet, Decode;
    if s == "" {
      assert Decode("") == Some("") by {
        NothingDecodes();
      }
    } else if |s| <= 2 {
      ShortEncode(s);
    } else {
      var a, b, c, rest := s[0] as int, s[1] as int, s[2] as int, Encode(s[3..]);
      DecodeEncode(s[3..]);
      GroupReads(a, b, c);
      var p, q, r, t := a / 4, a % 4 * 16 + b / 16, b % 16 * 4 + c / 64, c % 64;
      assert Encode(s) == [Symbol(p), Symbol(q), Symbol(r), Symbol(t)] + rest;
      DecodeGroup(p, q, r, t, rest);
      NoDots(p, q, r, t, rest);
      assert s == [s[0], s[1], s[2]] + s[3..];
    }
  }

  lemma NothingDecodes()
    ensures Decode("") == Some("")
  {
  }

  /** The strict reader accepts exactly the encodings: every byte string reads back, and every accepted text
      is the one encoding of what was read, so no two tokens share a meaning. */
  lemma StrictIsInverse(s: string, bytes: string)
    requires IsBytes(bytes)
    ensures StrictDecode(s) == Some(bytes) <==> s == Encode(bytes)
  {
    DecodeEncode(bytes);
    if StrictDecode(s) == Some(bytes) {
      DecodeIsBytes(s);
    }
  }

  // ----- section 4 of RFC 4648, with the alphabet of its section 5 -----

  function Alphabet(n: nat): char
    requires n < 64
  {
    if n < 26 then "ABCDEFGHIJKLMNOPQRSTUVWXYZ"[n]
    else if n < 52 then "abcdefghijklmnopqrstuvwxyz"[n - 26]
    else "0123456789-_"[n - 52]
  }

  lemma AlphabetIs(n: nat)
    requires n < 64
    ensures Symbol(n) == Alphabet(n)
  {
  }

  /** Digit number k of a number written with four digits in base 64. */
  function Digit64(n: nat, k: nat): (d: nat)
    requires n < 0x100_0000 && k < 4
    ensures d < 64
  {
    if k == 0 then n / 262144 else if k == 1 then n / 4096 % 64 else if k == 2 then n / 64 % 64 else n % 64
  }

  function FourSymbols(n: int): (text: string)
    requires 0 <= n < 0x100_0000
    ensures |text| == 4
  {
    [Alphabet(Digit64(n, 0)), Alphabet(Digit64(n, 1)), Alphabet(Digit64(n, 2)), Alphabet(Digit64(n, 3))]
  }

  /** Three bytes are a 24-bit number that is written with four symbols, its highest digit first; of the number that
      one or two last bytes begin, two or three symbols are written. */
  lemma GroupIsBits(s: string)
    requires IsBytes(s) && s != ""
    ensures var b, c := if |s| > 1 then s[1] as int else 0, if |s| > 2 then s[2] as int else 0;
      var text := FourSymbols(s[0] as int * 65536 + b * 256 + c);
      Encode(s) == if |s| < 3 then text[..|s| + 1] else text + Encode(s[3..])
  {
    hide Symbol, FourSymbols, Encode;
    var a, b, c := s[0] as int, if |s| > 1 then s[1] as int else 0, if |s| > 2 then s[2] as int else 0;
    SymbolsOfBytes(a, b, c);
    FirstSymbols(Symbol(a / 4), Symbol(a % 4 * 16 + b / 16), Symbol(b % 16 * 4 + c / 64), Symbol(c % 64));
    if |s| == 1 {
      EncodeOne(s, a);
    } else if |s| == 2 {
      EncodeTwo(s, a, b);
    } else {
      EncodeLong(s, a, b, c);
    }
  }

  lemma EncodeOne(s: string, a: nat)
    requires IsBytes(s) && |s| == 1 && s[0] as int == a
    ensures a / 4 < 64 && a % 4 * 16 < 64 && Encode(s) == [Symbol(a / 4), Symbol(a % 4 * 16)]
  {
    hide Symbol;
  }

  lemma EncodeTwo(s: string, a: nat, b: nat)
    requires IsBytes(s) && |s| == 2 && s[0] as int == a && s[1] as int == b
    ensures a / 4 < 64 && a % 4 * 16 + b / 16 < 64 && b % 16 * 4 < 64
    ensures Encode(s) == [Symbol(a / 4), Symbol(a % 4 * 16 + b / 16), Symbol(b % 16 * 4)]
  {
    hide Symbol;
  }

  lemma FirstSymbols(p: char, q: char, r: char, t: char)
    ensures [p, q, r, t][..2] == [p, q] && [p, q, r, t][..3] == [p, q, r]
  {
  }

  lemma EncodeLong(s: string, a: nat, b: nat, c: nat)
    requires IsBytes(s) && |s| >= 3 && s[0] as int == a && s[1] as int == b && s[2] as int == c
    requires a / 4 < 64 && a % 4 * 16 + b / 16 < 64 && b % 16 * 4 + c / 64 < 64 && c % 64 < 64
    ensures Encode(s)
      == [Symbol(a / 4), Symbol(a % 4 * 16 + b / 16), Symbol(b % 16 * 4 + c / 64), Symbol(c % 64)] + Encode(s[3..])
  {
    hide Symbol;
  }

  lemma SymbolsOfBytes(a: nat, b: nat, c: nat)
    requires a < 256 && b < 256 && c < 256
    ensures a / 4 < 64 && a % 4 * 16 + b / 16 < 64 && b % 16 * 4 + c / 64 < 64 && c % 64 < 64
    ensures 0 <= a * 65536 + b * 256 + c < 0x100_0000
    ensures FourSymbols(a * 65536 + b * 256 + c)
      == [Symbol(a / 4), Symbol(a % 4 * 16 + b / 16), Symbol(b % 16 * 4 + c / 64), Symbol(c % 64)]
  {
    hide Symbol, Digit64, Alphabet;
    GroupReads(a, b, c);
    DigitsOfBytes(a, b, c);
    AlphabetIs(a / 4);
    AlphabetIs(a % 4 * 16 + b / 16);
    AlphabetIs(b % 16 * 4 + c / 64);
    AlphabetIs(c % 64);
  }

  lemma DigitsOfBytes(a: nat, b: nat, c: nat)
    requires a < 256 && b < 256 && c < 256
    ensures var n := a * 65536 + b * 256 + c;
      && n < 0x100_0000
      && Digit64(n, 0) == a / 4 && Digit64(n, 1) == a % 4 * 16 + b / 16
      && Digit64(n, 2) == b % 16 * 4 + c / 64 && Digit64(n, 3) == c % 64
  {
    var n := a * 65536 + b * 256 + c;
    assert n / 64 == a * 1024 + b * 4 + c / 64;
    assert n / 4096 == a * 16 + b / 16;
    assert n / 262144 == a / 4;
  }
}
