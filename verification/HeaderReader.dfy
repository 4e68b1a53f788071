/** proxy_tunnel.py, `_read_headers`: taking a request header off a byte stream that arrives in pieces.
    Timeouts are not modelled. */
module HeaderReader {
  import opened Prelude

  const MAX_HEADER := 32 * 1024
  const BUFFER_SIZE := 64 * 1024

  /** The first line, the other lines, and the bytes read past the header. */
  datatype Result = Headers(first: string, others: seq<string>, remainder: string) | InvalidRequest

  predicate EndsAt(s: string, i: int) {
    0 <= i <= |s| - 4 && s[i] == '\r' && s[i + 1] == '\n' && s[i + 2] == '\r' && s[i + 3] == '\n'
  }

  /** The first blank-line delimiter. */
  function Find(s: string): (end: Option<nat>)
    ensures end.Some? ==> EndsAt(s, end.value) && forall i :: i < end.value ==> !EndsAt(s, i)
    ensures end.None? ==> forall i :: !EndsAt(s, i)
  {
    FindFrom(s, 0)
  }

  function FindFrom(s: string, k: nat): (end: Option<nat>)
    requires k <= |s| && forall i :: i < k ==> !EndsAt(s, i)
    ensures end.Some? ==> EndsAt(s, end.value) && forall i :: i < end.value ==> !EndsAt(s, i)
    ensures end.None? ==> forall i :: !EndsAt(s, i)
    decreases |s| - k
  {
    if EndsAt(s, k) then Some(k) else if k == |s| then None else FindFrom(s, k + 1)
  }

  /** The pieces between the occurrences of CR LF, as Python's split. */
  function Lines(s: string): (lines: seq<string>)
    ensures |lines| >= 1
    decreases |s|
  {
    if s == "" then [""]
    else if "\r\n" <= s then [""] + Lines(s[2..])
    else
      var rest := Lines(s[1..]);
      [[s[0]] + rest[0]] + rest[1..]
  }

  predicate Clean(line: string) {
    line != "" && '\r' !in line && '\n' !in line
  }

  function Terminated(lines: seq<string>, end: string): (ended: seq<string>)
    ensures |ended| == |lines|
  {
    if lines == [] then [] else [lines[0] + end] + Terminated(lines[1..], end)
  }

  function Concat(pieces: seq<string>): string {
    if pieces == [] then "" else pieces[0] + Concat(pieces[1..])
  }

  /** Whether the header of the stream is taken, and it says so of the whole stream only. */
  predicate Acceptable(stream: string) {
    var end := Find(stream);
    && end.Some? && end.value + 4 <= MAX_HEADER
    && forall line :: line in Lines(stream[..end.value]) ==> Clean(line)
  }

  lemma FindInPrefix(stream: string, n: nat)
    requires n <= |stream|
    ensures Find(stream[..n]) == if Find(stream).Some? && Find(stream).value + 4 <= n then Find(stream) else None
  {
    forall i
      ensures EndsAt(stream[..n], i) <==> EndsAt(stream, i) && i + 4 <= n
    {
    }
  }

  /** `_read_headers` on a peer that sends `stream` and closes. Receive number r asks for no more than its cap
      and gets some number of bytes of the network's choosing, at least one unless the stream is at its end. */
  method ReadHeaders(stream: string, sizes: nat -> nat) returns (result: Result, consumed: nat)
    ensures consumed <= |stream| && consumed <= MAX_HEADER + 5
    ensures result.Headers? <==> Acceptable(stream)
    ensures result.Headers? ==>
      var end := Find(stream).value;
      && end + 4 <= consumed && result.remainder == stream[end + 4..consumed]
      && [result.first] + result.others == Terminated(Lines(stream[..end]), "\r\n")
  {
    hide Lines;
    var data := "";
    consumed := 0;
    var receives := 0;
    var header, remainder;
    while true
      invariant consumed <= |stream| && data == stream[..consumed] && consumed <= MAX_HEADER + 5
      decreases |stream| - consumed
    {
      FindInPrefix(stream, consumed);
      var end := Find(data);
      if end.Some? {
        var headerEnd := end.value + 4;
        header := data[..headerEnd];
        remainder := data[headerEnd..];
        break;
      }
      if |data| > MAX_HEADER {
        return InvalidRequest, consumed;
      }
      var cap := Min(BUFFER_SIZE, MAX_HEADER + 4 + 1 - |data|);
      var size := Min(Max(1, sizes(receives)), Min(cap, |stream| - consumed));
      var chunk := stream[consumed..consumed + size];
      if chunk == "" {
        return InvalidRequest, consumed;
      }
      data := data + chunk;
      consumed := consumed + size;
      receives := receives + 1;
    }
    assert header == stream[..Find(stream).value + 4];
    if |header| > MAX_HEADER {
      return InvalidRequest, consumed;
    }
    var lines := Lines(header[..|header| - 4]);
    assert header[..|header| - 4] == stream[..Find(stream).value];
    if exists i :: 0 <= i < |lines| && (lines[i] == "" || '\r' in lines[i] || '\n' in lines[i]) {
      ghost var i :| 0 <= i < |lines| && (lines[i] == "" || '\r' in lines[i] || '\n' in lines[i]);
      assert lines[i] in lines && !Clean(lines[i]);
      return InvalidRequest, consumed;
    }
    var ended := Terminated(lines, "\r\n");
    return Headers(ended[0], ended[1..], remainder), consumed;
  }

  /** The returned lines and a final CR LF rebuild the header, and with the remainder they are exactly what was
      read: nothing is lost between the header and what follows it. */
  lemma LinesRebuildHeader(stream: string, first: string, others: seq<string>)
    requires Find(stream).Some? && [first] + others == Terminated(Lines(stream[..Find(stream).value]), "\r\n")
    ensures first + Concat(others) + "\r\n" == stream[..Find(stream).value + 4]
  {
    var end := Find(stream).value;
    LinesJoin(stream[..end], "\r\n");
    assert Concat([first] + others) == first + Concat(others) by {
      assert ([first] + others)[1..] == others;
    }
    assert stream[..end + 4] == stream[..end] + "\r\n" + "\r\n";
  }

  lemma ConcatCons(line: string, rest: seq<string>, end: string)
    ensures Concat(Terminated([line] + rest, end)) == line + end + Concat(Terminated(rest, end))
  {
    assert ([line] + rest)[1..] == rest;
    assert Terminated([line] + rest, end)[1..] == Terminated(rest, end);
  }

  lemma {:induction false} LinesJoin(s: string, end: string)
    requires end == "\r\n"
    ensures Concat(Terminated(Lines(s), end)) == s + end
    decreases |s|
  {
    if s == "" {
      ConcatCons("", [], end);
      NothingTerminated(end);
      assert [""] + [] == [""];
    } else if end <= s {
      LinesJoin(s[2..], end);
      ConcatCons("", Lines(s[2..]), end);
      hide Concat, Terminated;
      assert s == end + s[2..];
    } else {
      LinesJoin(s[1..], end);
      hide Concat, Terminated;
      LongerFirstLine(s[0], Lines(s[1..]), end);
      assert s == [s[0]] + s[1..];
    }
  }

  lemma LongerFirstLine(c: char, lines: seq<string>, end: string)
    requires |lines| >= 1
    ensures Concat(Terminated([[c] + lines[0]] + lines[1..], end)) == [c] + Concat(Terminated(lines, end))
  {
    var first, rest := lines[0], lines[1..];
    ConcatCons(first, rest, end);
    ConcatCons([c] + first, rest, end);
    hide Concat, Terminated;
    assert lines == [first] + rest;
    var more := Concat(Terminated(rest, end));
    Regroup(c, first, end, more);
  }

  lemma Regroup(c: char, first: string, end: string, more: string)
    ensures ([c] + first) + end + more == [c] + (first + end + more)
  {
  }

  lemma NothingTerminated(end: string)
    ensures Concat(Terminated([], end)) == ""
  {
  }

  predicate PairAt(s: string, i: int) {
    0 <= i <= |s| - 2 && s[i] == '\r' && s[i + 1] == '\n'
  }

  /** No bare CR and no bare LF. */
  predicate Paired(s: string) {
    forall i :: 0 <= i < |s| ==> (s[i] == '\r' ==> PairAt(s, i)) && (s[i] == '\n' ==> PairAt(s, i - 1))
  }

  lemma PairsOfParts(s: string, k: nat)
    requires k <= |s|
    ensures forall i :: PairAt(s[..k], i) <==> PairAt(s, i) && i + 2 <= k
    ensures forall i :: PairAt(s[k..], i) <==> 0 <= i && PairAt(s, i + k)
  {
  }

  /** Between pairs a text may be cut. */
  lemma PairedCut(s: string, k: nat)
    requires k <= |s| && !PairAt(s, k - 1)
    ensures Paired(s) <==> Paired(s[..k]) && Paired(s[k..])
  {
    PairsOfParts(s, k);
    if Paired(s[..k]) && Paired(s[k..]) {
      forall i | 0 <= i < |s|
        ensures (s[i] == '\r' ==> PairAt(s, i)) && (s[i] == '\n' ==> PairAt(s, i - 1))
      {
        if i < k {
          assert s[i] == s[..k][i];
        } else {
          assert s[i] == s[k..][i - k];
          assert s[i] == '\n' ==> PairAt(s[k..], i - k - 1);
        }
      }
    }
    if Paired(s) {
      forall i | 0 <= i < |s|
        ensures i < k ==> (s[i] == '\r' ==> PairAt(s[..k], i)) && (s[i] == '\n' ==> PairAt(s[..k], i - 1))
        ensures i >= k ==> (s[i] == '\r' ==> PairAt(s[k..], i - k)) && (s[i] == '\n' ==> PairAt(s[k..], i - k - 1))
      {
        assert s[i] == '\n' ==> PairAt(s, i - 1);
      }
      assert forall i :: 0 <= i < |s| - k ==> s[k..][i] == s[i + k];
    }
  }

  predicate NoBare(lines: seq<string>) {
    forall i :: 0 <= i < |lines| ==> '\r' !in lines[i] && '\n' !in lines[i]
  }

  lemma NoBareFirst(c: char, rest: seq<string>)
    requires |rest| >= 1
    ensures NoBare([[c] + rest[0]] + rest[1..]) <==> c != '\r' && c != '\n' && NoBare(rest)
  {
    var lines := [[c] + rest[0]] + rest[1..];
    assert lines[0] == [c] + rest[0] && forall i :: 1 <= i < |rest| ==> lines[i] == rest[i];
  }

  lemma NoBareRest(rest: seq<string>)
    ensures NoBare([""] + rest) <==> NoBare(rest)
  {
    var lines := [""] + rest;
    assert forall i :: 0 <= i < |rest| ==> rest[i] == lines[i + 1];
  }

  lemma {:induction false} NoBareBytes(s: string)
    ensures Paired(s) <==> NoBare(Lines(s))
    decreases |s|
  {
    if s == "" {
    } else if "\r\n" <= s {
      PairedCut(s, 2);
      NoBareBytes(s[2..]);
      assert Paired(s[..2]) by {
        assert PairAt(s[..2], 0);
      }
      NoBareRest(Lines(s[2..]));
    } else {
      PairedCut(s, 1);
      NoBareBytes(s[1..]);
      assert Paired(s[..1]) <==> s[0] != '\r' && s[0] != '\n' by {
        assert !PairAt(s[..1], 0) && !PairAt(s[..1], -1) && s[..1][0] == s[0];
      }
      var rest := Lines(s[1..]);
      assert Lines(s) == [[s[0]] + rest[0]] + rest[1..];
      NoBareFirst(s[0], rest);
    }
  }

  predicate FirstEmpty(s: string) {
    s == "" || "\r\n" <= s
  }

  lemma FirstLine(s: string)
    ensures Lines(s)[0] == "" <==> FirstEmpty(s)
  {
  }

  predicate NoneEmpty(lines: seq<string>) {
    forall line :: line in lines ==> line != ""
  }

  lemma NoneEmptyFirst(first: string, rest: seq<string>)
    ensures NoneEmpty([first] + rest) <==> first != "" && NoneEmpty(rest)
  {
    var all := [first] + rest;
    assert all[0] == first && all[1..] == rest && first in all;
    if NoneEmpty(all) {
      forall line | line in rest
        ensures line != ""
      {
        assert line in all;
      }
    }
  }

  /** A CR LF that another one or the end follows. */
  predicate Doubled(s: string, i: int) {
    PairAt(s, i) && FirstEmpty(s[i + 2..])
  }

  /** A line after the first is empty exactly behind a doubled CR LF. */
  lemma {:induction false} NoEmptyLines(s: string)
    ensures NoneEmpty(Lines(s)[1..]) <==> (forall i :: !Doubled(s, i))
    decreases |s|
  {
    if s == "" {
    } else {
      var k := if "\r\n" <= s then 2 else 1;
      var t := s[k..];
      NoEmptyLines(t);
      FirstLine(t);
      PairsOfParts(s, k);
      forall i
        ensures Doubled(t, i) <==> i >= 0 && Doubled(s, i + k)
      {
        assert PairAt(t, i) ==> t[i + 2..] == s[i + k + 2..];
      }
      if k == 2 {
        assert Doubled(s, 0) <==> FirstEmpty(t);
        assert !PairAt(s, 1);
        assert Lines(s)[1..] == [Lines(t)[0]] + Lines(t)[1..];
        NoneEmptyFirst(Lines(t)[0], Lines(t)[1..]);
        assert Lines(t) == [Lines(t)[0]] + Lines(t)[1..];
        assert forall i :: Doubled(s, i) <==> (i == 0 && Doubled(s, 0)) || Doubled(t, i - 2);
      } else {
        assert Lines(s)[1..] == Lines(t)[1..];
        assert !PairAt(s, 0);
        assert forall i :: Doubled(s, i) ==> Doubled(t, i - 1);
      }
    }
  }

  /** The acceptance rule without lines. */
  ghost predicate WellFormed(stream: string, end: nat) {
    && EndsAt(stream, end) && (forall i :: i < end ==> !EndsAt(stream, i))
    && 0 < end && end + 4 <= MAX_HEADER && !("\r\n" <= stream) && Paired(stream[..end])
  }

  lemma NothingDoubled(stream: string, end: nat)
    requires EndsAt(stream, end) && forall i :: i < end ==> !EndsAt(stream, i)
    ensures forall i :: !Doubled(stream[..end], i)
  {
    var s := stream[..end];
    forall i | PairAt(s, i)
      ensures !FirstEmpty(s[i + 2..])
    {
      assert !EndsAt(stream, i);
      assert |s[i + 2..]| >= 2 ==> s[i + 2..][0] == stream[i + 2] && s[i + 2..][1] == stream[i + 3];
    }
  }

  /** The header is accepted exactly when its first blank line ends within the limit, something stands before
      that, the stream does not begin with an empty line, and no CR or LF of the header stands alone. */
  lemma AcceptableMeans(stream: string)
    ensures Acceptable(stream) <==> exists end: nat :: WellFormed(stream, end)
  {
    var found := Find(stream);
    if found.Some? {
      var end := found.value;
      var s := stream[..end];
      NoBareBytes(s);
      FirstLine(s);
      NoEmptyLines(s);
      NothingDoubled(stream, end);
      NoneEmptyFirst(Lines(s)[0], Lines(s)[1..]);
      assert Lines(s) == [Lines(s)[0]] + Lines(s)[1..];
      assert Acceptable(stream) <==> end + 4 <= MAX_HEADER && NoneEmpty(Lines(s)) && NoBare(Lines(s)) by {
        assert forall line :: line in Lines(s) && NoneEmpty(Lines(s)) && NoBare(Lines(s)) ==> Clean(line);
        assert forall i :: 0 <= i < |Lines(s)| ==> Lines(s)[i] in Lines(s);
      }
      assert FirstEmpty(s) <==> end == 0 || "\r\n" <= stream by {
        assert end >= 2 ==> s[0] == stream[0] && s[1] == stream[1];
      }
      assert Acceptable(stream) <==> WellFormed(stream, end);
      assert forall other: nat :: WellFormed(stream, other) ==> other == end;
    }
  }
}
