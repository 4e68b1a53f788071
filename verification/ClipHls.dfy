/** clip_hls.py: choosing the media segments that cover a clip, and the byte budgets of their download.
    Durations are reals, and the reading of a duration text is a parameter. */
module ClipHls {
  import opened Prelude

  datatype Failure = UnsupportedSource | InvalidMedia | ResourceLimit

  datatype Result<+T> = Ok(value: T) | Err(failure: Failure)

  /** What Python's float() makes of a text. */
  datatype Number = NotANumber | NotFinite | Finite(value: real)

  type Reader = string -> Number

  /** A playlist as the loop sees it: whether the end marker occurs in it, and its stripped lines. */
  datatype Playlist = Playlist(ended: bool, lines: seq<string>)

  datatype Segment = Segment(uri: string, duration: real)

  /** A selected segment and the time at which it begins. */
  datatype Pick = Pick(uri: string, begin: real)

  predicate ForbiddenTag(line: string) {
    || "#EXT-X-KEY:" <= line || "#EXT-X-MAP:" <= line
    || "#EXT-X-BYTERANGE:" <= line || "#EXT-X-DISCONTINUITY" <= line
  }

  predicate IsDuration(line: string) {
    "#EXTINF:" <= line
  }

  /** The text between the first colon and the comma after it. */
  function DurationText(line: string): string
    requires IsDuration(line)
  {
    line[8..][..IndexOf(line[8..], ',')]
  }

  predicate IsUri(line: string) {
    line != "" && line[0] != '#'
  }

  /** The media segments a playlist lists, or the failure of its first offending line. `pending` is the
      duration that waits for its address. */
  function Listed(lines: seq<string>, read: Reader, pending: Option<real>): Result<seq<Segment>>
    decreases |lines|
  {
    if lines == [] then Ok([])
    else
      var line, rest := lines[0], lines[1..];
      if ForbiddenTag(line) then Err(UnsupportedSource)
      else if IsDuration(line) then
        var number := read(DurationText(line));
        if number.Finite? && number.value > 0.0 then Listed(rest, read, Some(number.value)) else Err(InvalidMedia)
      else if IsUri(line) then
        if pending.None? then Err(InvalidMedia)
        else
          var more := Listed(rest, read, None);
          if more.Err? then more else Ok([Segment(line, pending.value)] + more.value)
      else Listed(rest, read, pending)
  }

  /** The time at which segment n begins, or the whole length. */
  function Begins(listed: seq<Segment>, n: nat): real
    requires n <= |listed|
  {
    if n == 0 then 0.0 else Begins(listed, n - 1) + listed[n - 1].duration
  }

  predicate Overlaps(listed: seq<Segment>, i: nat, start: real, end: real)
    requires i < |listed|
  {
    Begins(listed, i) < end && Begins(listed, i + 1) > start
  }

  /** The overlapping segments among the first n, in order. */
  function Overlapping(listed: seq<Segment>, n: nat, start: real, end: real): seq<Pick>
    requires n <= |listed|
  {
    if n == 0 then []
    else
      var before := Overlapping(listed, n - 1, start, end);
      if Overlaps(listed, n - 1, start, end) then before + [Pick(listed[n - 1].uri, Begins(listed, n - 1))] else before
  }

  function Selection(playlist: Playlist, read: Reader, start: real, end: real): Result<seq<Pick>> {
    if !playlist.ended then Err(UnsupportedSource)
    else
      var all := Listed(playlist.lines, read, None);
      if all.Err? then Err(all.failure)
      else
        var listed := all.value;
        var picks := Overlapping(listed, |listed|, start, end);
        if picks == [] || Begins(listed, |listed|) < end then Err(InvalidMedia) else Ok(picks)
  }

  /** The loop of `segments`: one pass over the lines with the running time and the waiting duration. */
  method Segments(playlist: Playlist, read: Reader, start: real, end: real) returns (result: Result<seq<Pick>>)
    ensures result == Selection(playlist, read, start, end)
  {
    var elapsed, duration: Option<real>, selected := 0.0, None, [];
    if !playlist.ended {
      return Err(UnsupportedSource);
    }
    var lines := playlist.lines;
    ghost var seen: seq<Segment> := [];
    assert lines[0..] == lines && forall all: seq<Segment> :: [] + all == all;
    for i := 0 to |lines|
      invariant Listed(lines, read, None) == Prepended(seen, Listed(lines[i..], read, duration))
      invariant elapsed == Begins(seen, |seen|) && selected == Overlapping(seen, |seen|, start, end)
    {
      var line := lines[i];
      assert lines[i..][0] == line && lines[i..][1..] == lines[i + 1..];
      if ForbiddenTag(line) {
        return Err(UnsupportedSource);
      }
      if IsDuration(line) {
        var number := read(DurationText(line));
        if number.NotANumber? {
          return Err(InvalidMedia);
        }
        if number.NotFinite? || number.value <= 0.0 {
          return Err(InvalidMedia);
        }
        duration := Some(number.value);
      } else if line != "" && line[0] != '#' {
        if duration.None? {
          return Err(InvalidMedia);
        }
        ghost var longer := seen + [Segment(line, duration.value)];
        PrefixCounts(seen, longer[|seen|..], |seen|, start, end);
        assert longer == seen + longer[|seen|..];
        PrependTwice(seen, Segment(line, duration.value), Listed(lines[i + 1..], read, None));
        if elapsed < end && elapsed + duration.value > start {
          selected := selected + [Pick(line, elapsed)];
        }
        elapsed := elapsed + duration.value;
        duration := None;
        seen := longer;
      }
    }
    assert lines[|lines|..] == [] && seen + [] == seen;
    if selected == [] || elapsed < end {
      return Err(InvalidMedia);
    }
    return Ok(selected);
  }

  function Prepended(seen: seq<Segment>, rest: Result<seq<Segment>>): Result<seq<Segment>> {
    if rest.Err? then rest else Ok(seen + rest.value)
  }

  lemma PrependTwice(seen: seq<Segment>, next: Segment, rest: Result<seq<Segment>>)
    ensures Prepended(seen, if rest.Err? then rest else Ok([next] + rest.value)) == Prepended(seen + [next], rest)
  {
    if rest.Ok? {
      assert seen + ([next] + rest.value) == seen + [next] + rest.value;
    }
  }

  /** Times and overlaps of the first segments do not depend on later ones. */
  lemma {:induction false} PrefixCounts(listed: seq<Segment>, more: seq<Segment>, n: nat, start: real, end: real)
    requires n <= |listed|
    ensures Begins(listed + more, n) == Begins(listed, n)
    ensures Overlapping(listed + more, n, start, end) == Overlapping(listed, n, start, end)
  {
    if n > 0 {
      PrefixCounts(listed, more, n - 1, start, end);
    }
  }

  lemma {:induction false} ListedArePositive(lines: seq<string>, read: Reader, pending: Option<real>)
    requires pending.Some? ==> pending.value > 0.0
    requires Listed(lines, read, pending).Ok?
    ensures forall s :: s in Listed(lines, read, pending).value ==> s.duration > 0.0 && IsUri(s.uri)
    decreases |lines|
  {
    if lines != [] {
      var line, rest := lines[0], lines[1..];
      if IsDuration(line) {
        ListedArePositive(rest, read, Some(read(DurationText(line)).value));
      } else if IsUri(line) {
        ListedArePositive(rest, read, None);
      } else {
        ListedArePositive(rest, read, pending);
      }
    }
  }

  // ----- what a playlist lists, line by line -----

  /** The line whose duration waits before line i: the nearest timing line, unless an address stands between. */
  function Waiting(lines: seq<string>, i: nat): (j: Option<nat>)
    requires i <= |lines|
    ensures j.Some? ==> j.value < i && "#EXTINF:" <= lines[j.value]
  {
    if i == 0 then None
    else if "#EXTINF:" <= lines[i - 1] then Some(i - 1)
    else if lines[i - 1] != "" && lines[i - 1][0] != '#' then None
    else Waiting(lines, i - 1)
  }

  predicate Foreign(line: string) {
    || "#EXT-X-KEY:" <= line || "#EXT-X-MAP:" <= line
    || "#EXT-X-BYTERANGE:" <= line || "#EXT-X-DISCONTINUITY" <= line
  }

  /** Line i is acceptable: no foreign tag, a timing line gives a positive finite number, and an address has a
      duration waiting for it. */
  predicate Fine(lines: seq<string>, read: Reader, i: nat)
    requires i < |lines|
  {
    var line := lines[i];
    && !Foreign(line)
    && ("#EXTINF:" <= line ==> var number := read(DurationText(line)); number.Finite? && number.value > 0.0)
    && (line != "" && line[0] != '#' ==> Waiting(lines, i).Some?)
  }

  predicate AllFine(lines: seq<string>, read: Reader, n: nat)
    requires n <= |lines|
  {
    forall i: nat :: i < n ==> Fine(lines, read, i)
  }

  /** One segment for each address among the first n lines, with the duration that waited for it. */
  function Addressed(lines: seq<string>, read: Reader, n: nat): seq<Segment>
    requires n <= |lines| && AllFine(lines, read, n)
  {
    if n == 0 then []
    else
      var before, line := Addressed(lines, read, n - 1), lines[n - 1];
      assert Fine(lines, read, n - 1);
      if line != "" && line[0] != '#' then
        var j := Waiting(lines, n - 1).value;
        assert Fine(lines, read, j);
        before + [Segment(line, read(DurationText(lines[j])).value)]
      else before
  }

  function WaitingTime(lines: seq<string>, read: Reader, n: nat): Option<real>
    requires n <= |lines| && AllFine(lines, read, n)
  {
    var j := Waiting(lines, n);
    if j.None? then None
    else
      assert Fine(lines, read, j.value);
      Some(read(DurationText(lines[j.value])).value)
  }

  /** The duration text is what stands behind the tag up to the first comma, or to the end of the line. */
  lemma DurationTextMeans(line: string)
    requires "#EXTINF:" <= line
    ensures var t := DurationText(line);
      |t| <= |line| - 8 && t == line[8..8 + |t|] && ',' !in t && (|t| == |line| - 8 || line[8 + |t|] == ',')
  {
  }

  lemma {:induction false} ListedAfter(lines: seq<string>, read: Reader, n: nat)
    requires n <= |lines| && AllFine(lines, read, n)
    ensures Listed(lines, read, None)
      == Prepended(Addressed(lines, read, n), Listed(lines[n..], read, WaitingTime(lines, read, n)))
  {
    hide DurationText;
    if n == 0 {
      assert lines[0..] == lines && forall all: seq<Segment> :: [] + all == all;
    } else {
      ListedAfter(lines, read, n - 1);
      assert Fine(lines, read, n - 1);
      assert lines[n - 1..][0] == lines[n - 1] && lines[n - 1..][1..] == lines[n..];
      if IsUri(lines[n - 1]) {
        var wait := WaitingTime(lines, read, n - 1).value;
        PrependTwice(Addressed(lines, read, n - 1), Segment(lines[n - 1], wait), Listed(lines[n..], read, None));
      }
    }
  }

  lemma OffendingLine(lines: seq<string>, read: Reader, n: nat)
    requires n < |lines| && AllFine(lines, read, n) && !Fine(lines, read, n)
    ensures Listed(lines[n..], read, WaitingTime(lines, read, n))
      == Err(if Foreign(lines[n]) then UnsupportedSource else InvalidMedia)
  {
    hide DurationText;
    assert lines[n..][0] == lines[n];
  }

  /** A playlist is read exactly when every line is acceptable; then it lists its addresses in order, each with the
      duration that waited for it. Otherwise the first offending line decides the failure. */
  lemma ListedMeans(lines: seq<string>, read: Reader)
    ensures var all := Listed(lines, read, None);
      && (all.Ok? <==> AllFine(lines, read, |lines|))
      && (all.Ok? ==> all.value == Addressed(lines, read, |lines|))
      && (all.Err? ==> exists n: nat :: n < |lines| && AllFine(lines, read, n) && !Fine(lines, read, n)
                                        && all.failure == if Foreign(lines[n]) then UnsupportedSource else InvalidMedia)
  {
    hide Fine, Listed, Foreign;
    var n := 0;
    while n < |lines| && Fine(lines, read, n)
      invariant n <= |lines| && AllFine(lines, read, n)
    {
      n := n + 1;
    }
    ListedAfter(lines, read, n);
    if n < |lines| {
      OffendingLine(lines, read, n);
    } else {
      assert lines[n..] == [];
      NothingListed(Addressed(lines, read, n), read, WaitingTime(lines, read, n));
    }
  }

  lemma NothingListed(seen: seq<Segment>, read: Reader, pending: Option<real>)
    ensures Prepended(seen, Listed([], read, pending)) == Ok(seen)
  {
    assert seen + [] == seen;
  }

  predicate Positive(listed: seq<Segment>) {
    forall i :: 0 <= i < |listed| ==> listed[i].duration > 0.0
  }

  lemma {:induction false} TimesRise(listed: seq<Segment>, i: nat, j: nat)
    requires Positive(listed) && i <= j <= |listed|
    ensures Begins(listed, i) <= Begins(listed, j)
    ensures i < j ==> Begins(listed, i) < Begins(listed, j)
    decreases j
  {
    if i < j {
      TimesRise(listed, i, j - 1);
    }
  }

  function Block(listed: seq<Segment>, low: nat, high: nat): seq<Pick>
    requires low <= high <= |listed|
  {
    seq(high - low, k requires 0 <= k < high - low => Pick(listed[low + k].uri, Begins(listed, low + k)))
  }

  /** [low, high) are exactly the segments that overlap (start, end), and they cover [start, end). */
  ghost predicate Covers(listed: seq<Segment>, low: nat, high: nat, start: real, end: real) {
    && low < high <= |listed|
    && Begins(listed, low) <= start < Begins(listed, low + 1)
    && Begins(listed, high - 1) < end <= Begins(listed, high)
    && forall i :: 0 <= i < |listed| ==> (low <= i < high <==> Overlaps(listed, i, start, end))
  }

  /** The last index at or before `bound` whose segment begins at or before `time`. */
  lemma {:induction false} SegmentAt(listed: seq<Segment>, n: nat, time: real) returns (i: nat)
    requires Positive(listed) && n <= |listed| && 0.0 <= time < Begins(listed, n)
    ensures i < n && Begins(listed, i) <= time < Begins(listed, i + 1)
  {
    if time < Begins(listed, n - 1) {
      i := SegmentAt(listed, n - 1, time);
    } else {
      i := n - 1;
    }
  }

  lemma {:induction false} SegmentBefore(listed: seq<Segment>, n: nat, time: real) returns (i: nat)
    requires Positive(listed) && n <= |listed| && 0.0 < time <= Begins(listed, n)
    ensures i < n && Begins(listed, i) < time <= Begins(listed, i + 1)
  {
    if time <= Begins(listed, n - 1) {
      i := SegmentBefore(listed, n - 1, time);
    } else {
      i := n - 1;
    }
  }

  lemma BlockGrows(listed: seq<Segment>, low: nat, n: nat)
    requires low < n <= |listed|
    ensures Block(listed, low, n) == Block(listed, low, n - 1) + [Pick(listed[n - 1].uri, Begins(listed, n - 1))]
    ensures Block(listed, low, low) == []
  {
  }

  lemma {:induction false} OverlappingIsBlock(listed: seq<Segment>, n: nat, low: nat, high: nat, start: real, end: real)
    requires low < high <= |listed| && n <= |listed|
    requires forall i :: 0 <= i < |listed| ==> (low <= i < high <==> Overlaps(listed, i, start, end))
    ensures Overlapping(listed, n, start, end)
      == if n <= low then [] else Block(listed, low, if n < high then n else high)
  {
    hide Overlaps, Begins;
    if n > 0 {
      OverlappingIsBlock(listed, n - 1, low, high, start, end);
      if low < n <= high {
        assert Overlaps(listed, n - 1, start, end);
        BlockGrows(listed, low, n);
      } else {
        assert !Overlaps(listed, n - 1, start, end);
      }
    }
  }

  /** A clip inside the listed time has one covering block of segments. */
  lemma CoveringBlock(listed: seq<Segment>, start: real, end: real) returns (low: nat, high: nat)
    requires Positive(listed) && 0.0 <= start < end <= Begins(listed, |listed|)
    ensures Covers(listed, low, high, start, end)
  {
    low := SegmentAt(listed, |listed|, start);
    var last := SegmentBefore(listed, |listed|, end);
    high := last + 1;
    if last < low {
      TimesRise(listed, last + 1, low);
    }
    forall i | 0 <= i < |listed|
      ensures low <= i < high <==> Overlaps(listed, i, start, end)
    {
      if i < low {
        TimesRise(listed, i + 1, low);
      } else {
        TimesRise(listed, low + 1, i + 1);
      }
      if i < high {
        TimesRise(listed, i, last);
      } else {
        TimesRise(listed, high, i);
      }
    }
  }

  /** A well-formed playlist is accepted exactly when it is long enough, and what is selected is one contiguous
      block: exactly the segments that overlap the clip, covering all of it. */
  lemma SelectionCovers(playlist: Playlist, read: Reader, start: real, end: real)
    requires 0.0 <= start < end
    ensures var all, chosen := Listed(playlist.lines, read, None), Selection(playlist, read, start, end);
      && (chosen.Ok? <==> playlist.ended && all.Ok? && end <= Begins(all.value, |all.value|))
      && (chosen.Ok? ==> exists low: nat, high: nat ::
            Covers(all.value, low, high, start, end) && chosen.value == Block(all.value, low, high))
  {
    var all := Listed(playlist.lines, read, None);
    if playlist.ended && all.Ok? && end <= Begins(all.value, |all.value|) {
      ListedArePositive(playlist.lines, read, None);
      var low, high := CoveringBlock(all.value, start, end);
      OverlappingIsBlock(all.value, |all.value|, low, high, start, end);
      assert Block(all.value, low, high)[0] == Pick(all.value[low].uri, Begins(all.value, low));
    }
  }

  /** The local clip of `download` fits: the offset lies inside the first selected segment, and offset and
      clip length together do not pass the end of the selected ones. */
  lemma LocalClipFits(listed: seq<Segment>, low: nat, high: nat, start: real, end: real)
    requires 0.0 <= start < end && Positive(listed) && Covers(listed, low, high, start, end)
    ensures var offset := start - Block(listed, low, high)[0].begin;
      && 0.0 <= offset < listed[low].duration
      && offset + (end - start) <= Begins(listed, high) - Begins(listed, low)
  {
    assert Block(listed, low, high)[0].begin == Begins(listed, low);
    assert Begins(listed, low + 1) == Begins(listed, low) + listed[low].duration;
  }

  const INDEX_LIMIT := 16 * 1024 * 1024

  datatype Clip = Clip(start: real, end: real)

  /** A track: whether it is native HLS, the size of its index, and the playlist when the index is text. */
  datatype Track = Track(native: bool, indexSize: nat, playlist: Option<Playlist>)

  /** For each clip: per track the offset and the bytes written, and the clip in local time. */
  datatype Output = Output(offsets: seq<real>, files: seq<string>, local: Clip)

  /** The body the network sends for a clip, a track and a segment. */
  type Replies = (nat, nat, nat) -> string

  function Joined(reply: Replies, k: nat, t: nat, n: nat): string {
    if n == 0 then "" else Joined(reply, k, t, n - 1) + reply(k, t, n - 1)
  }

  /** The bodies stand in the file one after another, in their order and with nothing between them. */
  lemma {:induction false} BodiesInOrder(reply: Replies, k: nat, t: nat, i: nat, n: nat)
    requires i < n
    ensures Joined(reply, k, t, 0) == "" && Joined(reply, k, t, i) + reply(k, t, i) <= Joined(reply, k, t, n)
    ensures i == n - 1 ==> Joined(reply, k, t, i) + reply(k, t, i) == Joined(reply, k, t, n)
  {
    if i < n - 1 {
      BodiesInOrder(reply, k, t, i, n - 1);
    }
  }

  /** The first n bodies are non-empty, and their sum stays inside both budgets. */
  ghost predicate Affordable(reply: Replies, k: nat, t: nat, n: nat, maximum: int, rest: int) {
    && (forall i: nat :: i < n ==> reply(k, t, i) != "")
    && (n > 0 ==> |Joined(reply, k, t, n)| <= maximum && |Joined(reply, k, t, n)| <= rest)
  }

  /** `_read`: a body is cut one byte past the maximum, and refused when that byte was there. */
  method Read(body: string, maximum: int) returns (result: Result<string>)
    requires maximum > 0
    ensures result == if |body| <= maximum then Ok(body) else Err(ResourceLimit)
  {
    var data := body[..Min(|body|, maximum + 1)];
    if |data| > maximum {
      return Err(ResourceLimit);
    }
    assert data == body;
    return Ok(data);
  }

  lemma {:induction false} AffordablePrefix(reply: Replies, k: nat, t: nat, m: nat, n: nat, maximum: int, rest: int)
    requires m <= n && Affordable(reply, k, t, n, maximum, rest)
    ensures Affordable(reply, k, t, m, maximum, rest)
  {
    if m < n && n > 1 {
      AffordablePrefix(reply, k, t, m, n - 1, maximum, rest);
    }
  }

  /** The first body that cannot be kept is body n: an empty one although bytes are left, or one too many. */
  ghost predicate StopsAt(reply: Replies, k: nat, t: nat, n: nat, maximum: int, totalMaximum: int, transferred: nat,
                          failure: Failure) {
    var rest := totalMaximum - transferred;
    && Affordable(reply, k, t, n, maximum, rest) && !Affordable(reply, k, t, n + 1, maximum, rest)
    && failure == if |Joined(reply, k, t, n)| < Min(maximum, rest) && reply(k, t, n) == ""
                  then InvalidMedia else ResourceLimit
  }

  /** The segments of one track of one clip. It succeeds exactly when every body is non-empty and all of them
      together fit both the file budget and what is left of the total; the file is then their concatenation. */
  method FetchTrack(reply: Replies, k: nat, t: nat, count: nat, maximum: int, totalMaximum: int, transferred: nat)
    returns (result: Result<string>)
    ensures result.Ok? <==> Affordable(reply, k, t, count, maximum, totalMaximum - transferred)
    ensures result.Ok? ==> result.value == Joined(reply, k, t, count)
    ensures result.Err? ==>
      exists n: nat :: n < count && StopsAt(reply, k, t, n, maximum, totalMaximum, transferred, result.failure)
  {
    var file, now := "", transferred;
    for n := 0 to count
      invariant file == Joined(reply, k, t, n) && now == transferred + |file|
      invariant Affordable(reply, k, t, n, maximum, totalMaximum - transferred)
    {
      if Affordable(reply, k, t, count, maximum, totalMaximum - transferred) {
        AffordablePrefix(reply, k, t, n + 1, count, maximum, totalMaximum - transferred);
      }
      assert reply(k, t, n) == "" || |Joined(reply, k, t, n + 1)| > |file|;
      var remaining := Min(maximum - |file|, totalMaximum - now);
      if remaining <= 0 {
        assert StopsAt(reply, k, t, n, maximum, totalMaximum, transferred, ResourceLimit);
        return Err(ResourceLimit);
      }
      var body := Read(reply(k, t, n), remaining);
      if body.Err? {
        assert StopsAt(reply, k, t, n, maximum, totalMaximum, transferred, ResourceLimit);
        return Err(ResourceLimit);
      }
      if body.value == "" {
        assert StopsAt(reply, k, t, n, maximum, totalMaximum, transferred, InvalidMedia);
        return Err(InvalidMedia);
      }
      file := file + body.value;
      now := now + |body.value|;
    }
    return Ok(file);
  }

  predicate Usable(track: Track, maximum: int) {
    && track.native && track.playlist.Some? && track.indexSize <= Min(maximum, INDEX_LIMIT)
  }

  function Chosen(track: Track, read: Reader, clip: Clip): Result<seq<Pick>>
    requires track.playlist.Some?
  {
    Selection(track.playlist.value, read, clip.start, clip.end)
  }

  /** The bytes all segments of track t of clip k have together. */
  function Bytes(track: Track, clip: Clip, read: Reader, reply: Replies, k: nat, t: nat): nat
    requires track.playlist.Some?
  {
    var chosen := Chosen(track, read, clip);
    if chosen.Ok? then |Joined(reply, k, t, |chosen.value|)| else 0
  }

  function ClipBytes(tracks: seq<Track>, clips: seq<Clip>, read: Reader, reply: Replies, k: nat, t: nat): nat
    requires k < |clips| && t <= |tracks| && forall u :: 0 <= u < |tracks| ==> tracks[u].playlist.Some?
  {
    if t == 0 then 0
    else ClipBytes(tracks, clips, read, reply, k, t - 1) + Bytes(tracks[t - 1], clips[k], read, reply, k, t - 1)
  }

  function AllBytes(tracks: seq<Track>, clips: seq<Clip>, read: Reader, reply: Replies, k: nat): nat
    requires k <= |clips| && forall u :: 0 <= u < |tracks| ==> tracks[u].playlist.Some?
  {
    if k == 0 then 0
    else AllBytes(tracks, clips, read, reply, k - 1) + ClipBytes(tracks, clips, read, reply, k - 1, |tracks|)
  }

  lemma {:induction false} ClipBytesRise(tracks: seq<Track>, clips: seq<Clip>, read: Reader, reply: Replies, k: nat,
                                         t: nat, u: nat)
    requires k < |clips| && t <= u <= |tracks| && forall u :: 0 <= u < |tracks| ==> tracks[u].playlist.Some?
    ensures ClipBytes(tracks, clips, read, reply, k, t) <= ClipBytes(tracks, clips, read, reply, k, u)
  {
    if t < u {
      ClipBytesRise(tracks, clips, read, reply, k, t, u - 1);
    }
  }

  lemma {:induction false} AllBytesRise(tracks: seq<Track>, clips: seq<Clip>, read: Reader, reply: Replies, k: nat,
                                        m: nat)
    requires k <= m <= |clips| && forall u :: 0 <= u < |tracks| ==> tracks[u].playlist.Some?
    ensures AllBytes(tracks, clips, read, reply, k) <= AllBytes(tracks, clips, read, reply, m)
  {
    if k < m {
      AllBytesRise(tracks, clips, read, reply, k, m - 1);
    }
  }

  /** Track t of clip k can be fetched on its own. */
  ghost predicate Fetchable(track: Track, clip: Clip, read: Reader, reply: Replies, k: nat, t: nat, maximum: int)
    requires track.playlist.Some?
  {
    var chosen := Chosen(track, read, clip);
    && chosen.Ok?
    && (forall i: nat :: i < |chosen.value| ==> reply(k, t, i) != "")
    && |Joined(reply, k, t, |chosen.value|)| <= maximum
  }

  /** The file is the whole concatenation of the chosen segments, the offset is measured from the first. */
  ghost predicate Fetched(track: Track, clip: Clip, read: Reader, reply: Replies, k: nat, t: nat, file: string,
                          offset: real)
    requires track.playlist.Some?
  {
    var chosen := Chosen(track, read, clip);
    && chosen.Ok? && |chosen.value| > 0
    && file == Joined(reply, k, t, |chosen.value|) && offset == clip.start - chosen.value[0].begin
  }

  /** For a clip that is not empty, a fetched track covers it: the chosen segments are the covering block, the
      offset lies inside its first segment, and offset plus clip length fits the fetched duration. */
  lemma FetchedCoversClip(track: Track, clip: Clip, read: Reader, reply: Replies, k: nat, t: nat, file: string,
                          offset: real)
    requires track.playlist.Some? && 0.0 <= clip.start < clip.end
    requires Fetched(track, clip, read, reply, k, t, file, offset)
    ensures var all := Listed(track.playlist.value.lines, read, None);
      all.Ok? && exists low: nat, high: nat ::
        (&& Covers(all.value, low, high, clip.start, clip.end)
         && Chosen(track, read, clip).value == Block(all.value, low, high)
         && 0.0 <= offset < all.value[low].duration
         && offset + (clip.end - clip.start) <= Begins(all.value, high) - Begins(all.value, low))
  {
    var lines := track.playlist.value.lines;
    var all := Listed(lines, read, None);
    SelectionCovers(track.playlist.value, read, clip.start, clip.end);
    var low, high :| Covers(all.value, low, high, clip.start, clip.end)
      && Chosen(track, read, clip).value == Block(all.value, low, high);
    ListedArePositive(lines, read, None);
    LocalClipFits(all.value, low, high, clip.start, clip.end);
  }

  /** What clip k must give: each track fetched, and a local clip as long as the clip. */
  ghost predicate IsOutput(output: Output, tracks: seq<Track>, clip: Clip, read: Reader, reply: Replies, k: nat)
    requires forall u :: 0 <= u < |tracks| ==> tracks[u].playlist.Some?
  {
    && |output.files| == |output.offsets| == |tracks| > 0
    && (forall t :: 0 <= t < |tracks| ==>
          Fetched(tracks[t], clip, read, reply, k, t, output.files[t], output.offsets[t]))
    && output.local == Clip(output.offsets[0], output.offsets[0] + clip.end - clip.start)
  }

  /** One track of one clip against what is left of the total. */
  method FetchPart(track: Track, clip: Clip, read: Reader, reply: Replies, k: nat, t: nat, maximum: int,
                   totalMaximum: int, transferred: nat)
    returns (result: Result<(string, real)>)
    requires track.playlist.Some?
    ensures result.Ok? <==>
      && Fetchable(track, clip, read, reply, k, t, maximum)
      && transferred + Bytes(track, clip, read, reply, k, t) <= totalMaximum
    ensures result.Ok? ==> Fetched(track, clip, read, reply, k, t, result.value.0, result.value.1)
    ensures result.Ok? ==> |result.value.0| == Bytes(track, clip, read, reply, k, t)
  {
    hide Selection;
    var chosen := Segments(track.playlist.value, read, clip.start, clip.end);
    if chosen.Err? {
      return Err(chosen.failure);
    }
    SelectedIsNotEmpty(track.playlist.value, read, clip.start, clip.end);
    var file := FetchTrack(reply, k, t, |chosen.value|, maximum, totalMaximum, transferred);
    if file.Err? {
      return Err(file.failure);
    }
    return Ok((file.value, clip.start - chosen.value[0].begin));
  }

  lemma SelectedIsNotEmpty(playlist: Playlist, read: Reader, start: real, end: real)
    requires Selection(playlist, read, start, end).Ok?
    ensures |Selection(playlist, read, start, end).value| > 0
  {
  }

  /** One clip of `download`: its tracks in order. */
  method FetchClip(tracks: seq<Track>, clips: seq<Clip>, read: Reader, reply: Replies, k: nat, maximum: int,
                   totalMaximum: int, before: nat)
    returns (result: Result<Output>, transferred: nat)
    requires k < |clips| && |tracks| in {1, 2} && forall u :: 0 <= u < |tracks| ==> tracks[u].playlist.Some?
    ensures result.Ok? <==>
      && (forall t :: 0 <= t < |tracks| ==> Fetchable(tracks[t], clips[k], read, reply, k, t, maximum))
      && before + ClipBytes(tracks, clips, read, reply, k, |tracks|) <= totalMaximum
    ensures result.Ok? ==> IsOutput(result.value, tracks, clips[k], read, reply, k)
    ensures result.Ok? ==> transferred == before + ClipBytes(tracks, clips, read, reply, k, |tracks|)
  {
    hide Fetchable, Fetched, Bytes;
    var files, offsets := [], [];
    transferred := before;
    for t := 0 to |tracks|
      invariant |files| == |offsets| == t
      invariant forall u :: 0 <= u < t ==> Fetchable(tracks[u], clips[k], read, reply, k, u, maximum)
      invariant forall u :: 0 <= u < t ==> Fetched(tracks[u], clips[k], read, reply, k, u, files[u], offsets[u])
      invariant transferred == before + ClipBytes(tracks, clips, read, reply, k, t)
      invariant t > 0 ==> transferred <= totalMaximum
    {
      ClipBytesRise(tracks, clips, read, reply, k, t + 1, |tracks|);
      var part := FetchPart(tracks[t], clips[k], read, reply, k, t, maximum, totalMaximum, transferred);
      if part.Err? {
        return Err(part.failure), transferred;
      }
      transferred := transferred + |part.value.0|;
      files := files + [part.value.0];
      offsets := offsets + [part.value.1];
    }
    var local := Clip(offsets[0], offsets[0] + clips[k].end - clips[k].start);
    result := Ok(Output(files := files, offsets := offsets, local := local));
  }

  /** `download` as a whole. `produced` is the size of the cut file of each clip. It succeeds exactly when there
      are one or two usable tracks, every track of every clip can be fetched on its own, no cut file is too
      large, and all bodies of all clips together fit the total. */
  method Download(tracks: seq<Track>, clips: seq<Clip>, read: Reader, reply: Replies, produced: nat -> nat,
                  maximum: int, totalMaximum: int)
    returns (result: Result<seq<Output>>)
    ensures result.Ok? <==>
      && |tracks| in {1, 2}
      && (forall t :: 0 <= t < |tracks| ==>
            && tracks[t].native && tracks[t].playlist.Some?
            && tracks[t].indexSize <= maximum && tracks[t].indexSize <= 16777216)
      && (forall k :: 0 <= k < |clips| ==>
            && produced(k) <= maximum
            && forall t :: 0 <= t < |tracks| ==> Fetchable(tracks[t], clips[k], read, reply, k, t, maximum))
      && (clips != [] ==> AllBytes(tracks, clips, read, reply, |clips|) <= totalMaximum)
    ensures result.Ok? ==> |result.value| == |clips|
    ensures result.Ok? ==> forall k :: 0 <= k < |clips| ==> IsOutput(result.value[k], tracks, clips[k], read, reply, k)
  {
    hide Fetchable, Fetched, IsOutput, ClipBytes;
    if |tracks| !in {1, 2} || exists t :: 0 <= t < |tracks| && !tracks[t].native {
      return Err(UnsupportedSource);
    }
    for t := 0 to |tracks|
      invariant forall u :: 0 <= u < t ==> Usable(tracks[u], maximum)
    {
      if tracks[t].indexSize > Min(maximum, INDEX_LIMIT) {
        return Err(ResourceLimit);
      }
      if tracks[t].playlist.None? {
        return Err(InvalidMedia);
      }
    }
    var outputs, transferred := [], 0;
    for k := 0 to |clips|
      invariant |outputs| == k && transferred == AllBytes(tracks, clips, read, reply, k)
      invariant forall j :: 0 <= j < k ==> IsOutput(outputs[j], tracks, clips[j], read, reply, j)
      invariant forall j :: 0 <= j < k ==> produced(j) <= maximum
      invariant forall j, t :: 0 <= j < k && 0 <= t < |tracks| ==>
        Fetchable(tracks[t], clips[j], read, reply, j, t, maximum)
      invariant k > 0 ==> transferred <= totalMaximum
    {
      AllBytesRise(tracks, clips, read, reply, k + 1, |clips|);
      var output, now := FetchClip(tracks, clips, read, reply, k, maximum, totalMaximum, transferred);
      if output.Err? {
        return Err(output.failure);
      }
      transferred := now;
      if produced(k) > maximum {
        return Err(ResourceLimit);
      }
      outputs := outputs + [output.value];
    }
    return Ok(outputs);
  }
}
