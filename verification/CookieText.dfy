/** Netscape cookie text: the printer of browser submissions, the name/value reader and the line rewriter. */
module CookieText {
  import opened Prelude

  const MAX_JAR := 512 * 1024

  // ----- lines -----

  predicate EndsInReturn(line: string) {
    line != "" && line[|line| - 1] == '\r'
  }

  function Strip(line: string): string {
    if EndsInReturn(line) then line[..|line| - 1] else line
  }

  /** `str::lines`: cut at each newline, and drop one carriage return before it. */
  function LinesOf(s: string): seq<string>
    decreases |s|
  {
    if s == "" then []
    else
      var at := IndexOf(s, '\n');
      if at == |s| then [s] else [Strip(s[..at])] + LinesOf(s[at + 1..])
  }

  function Unlines(lines: seq<string>): string {
    if lines == [] then "" else lines[0] + "\n" + Unlines(lines[1..])
  }

  function StripAll(lines: seq<string>): (out: seq<string>)
    ensures |out| == |lines| && forall i :: 0 <= i < |out| ==> out[i] == Strip(lines[i])
  {
    seq(|lines|, i requires 0 <= i < |lines| => Strip(lines[i]))
  }

  lemma {:induction false} LinesOfUnlines(lines: seq<string>)
    requires forall line :: line in lines ==> '\n' !in line
    ensures LinesOf(Unlines(lines)) == StripAll(lines)
  {
    if lines != [] {
      LinesOfUnlines(lines[1..]);
      var s, rest := Unlines(lines), Unlines(lines[1..]);
      IndexOfFirst(lines[0], '\n', rest);
      assert s[..|lines[0]|] == lines[0] && s[|lines[0]| + 1..] == rest;
    }
  }

  lemma {:induction false} LinesHaveNoNewline(s: string)
    ensures forall line :: line in LinesOf(s) ==> '\n' !in line
    decreases |s|
  {
    if s != "" {
      var at := IndexOf(s, '\n');
      if at < |s| {
        LinesHaveNoNewline(s[at + 1..]);
      } else {
        assert s[..at] == s;
      }
    }
  }

  lemma FirstLine(line: string, rest: string)
    requires '\n' !in line
    ensures LinesOf(line + "\n" + rest) == [Strip(line)] + LinesOf(rest)
  {
    var s := line + "\n" + rest;
    IndexOfFirst(line, '\n', rest);
    assert s[..|line|] == line && s[|line| + 1..] == rest;
  }

  lemma StripMeans(line: string)
    ensures if line != "" && line[|line| - 1] == '\r' then Strip(line) + "\r" == line else Strip(line) == line
  {
  }

  lemma LastLine(tail: string)
    requires '\n' !in tail
    ensures LinesOf(tail) == if tail == "" then [] else [tail]
  {
  }

  lemma {:induction false} LinesBeforeTail(lines: seq<string>, tail: string)
    requires '\n' !in tail && forall line :: line in lines ==> '\n' !in line
    ensures LinesOf(Unlines(lines) + tail) == StripAll(lines) + LinesOf(tail)
  {
    hide LinesOf, Strip, IndexOf;
    if lines == [] {
      assert Unlines(lines) + tail == tail;
      assert StripAll(lines) + LinesOf(tail) == LinesOf(tail);
    } else {
      var rest := Unlines(lines[1..]) + tail;
      LinesBeforeTail(lines[1..], tail);
      FirstLine(lines[0], rest);
      assert Unlines(lines) + tail == lines[0] + "\n" + rest;
      assert StripAll(lines) == [Strip(lines[0])] + StripAll(lines[1..]);
    }
  }

  /** The lines of any text: what stands before each newline, less one carriage return, and what follows the last
      newline as it is. */
  lemma LinesOfText(lines: seq<string>, tail: string)
    requires '\n' !in tail && forall line :: line in lines ==> '\n' !in line
    ensures var out := LinesOf(Unlines(lines) + tail);
      && |out| == |lines| + (if tail == "" then 0 else 1)
      && (tail != "" ==> out[|lines|] == tail)
      && (forall i :: 0 <= i < |lines| ==>
            if lines[i] != "" && lines[i][|lines[i]| - 1] == '\r' then out[i] + "\r" == lines[i]
            else out[i] == lines[i])
  {
    hide LinesOf, Unlines, Strip;
    LastLine(tail);
    LinesBeforeTail(lines, tail);
    forall i | 0 <= i < |lines|
      ensures if lines[i] != "" && lines[i][|lines[i]| - 1] == '\r' then StripAll(lines)[i] + "\r" == lines[i]
              else StripAll(lines)[i] == lines[i]
    {
      StripMeans(lines[i]);
    }
  }

  // ----- the reader -----

  predicate StartsWith(s: string, p: string) {
    p <= s
  }

  predicate IsRecord(line: string) {
    StartsWith(line, "#HttpOnly_") || !StartsWith(line, "#")
  }

  datatype Entry = Entry(name: string, value: string)

  /** The name and value of a record line of exactly seven fields. */
  function EntryOf(line: string): Option<Entry> {
    var fields := Split(line, '\t');
    if IsRecord(line) && |fields| == 7 then Some(Entry(fields[5], fields[6])) else None
  }

  function EntriesOf(lines: seq<string>): (out: seq<Option<Entry>>)
    ensures |out| == |lines| && forall i :: 0 <= i < |out| ==> out[i] == EntryOf(lines[i])
  {
    seq(|lines|, i requires 0 <= i < |lines| => EntryOf(lines[i]))
  }

  /** Later records win. */
  function Collect(entries: seq<Option<Entry>>): map<string, string> {
    if entries == [] then map[]
    else
      var last := entries[|entries| - 1];
      var before := Collect(entries[..|entries| - 1]);
      if last.Some? then before[last.value.name := last.value.value] else before
  }

  function Values(content: string): map<string, string> {
    Collect(EntriesOf(LinesOf(content)))
  }

  // ----- the rewriter -----

  type Updates = map<string, string>

  function Rewrite(line: string, updates: Updates): string {
    var fields := Split(line, '\t');
    if IsRecord(line) && |fields| == 7 && fields[5] in updates
    then Join(fields[6 := updates[fields[5]]], '\t') else line
  }

  function RewriteAll(lines: seq<string>, updates: Updates): (out: seq<string>)
    ensures |out| == |lines| && forall i :: 0 <= i < |out| ==> out[i] == Rewrite(lines[i], updates)
  {
    seq(|lines|, i requires 0 <= i < |lines| => Rewrite(lines[i], updates))
  }

  function Merged(content: string, updates: Updates): string {
    Unlines(RewriteAll(LinesOf(content), updates))
  }

  lemma {:induction false} UnlinesSnoc(lines: seq<string>, line: string)
    ensures Unlines(lines + [line]) == Unlines(lines) + line + "\n"
  {
    if lines != [] {
      UnlinesSnoc(lines[1..], line);
      assert (lines + [line])[1..] == lines[1..] + [line];
    }
  }

  lemma EmptyRewrite(updates: Updates)
    ensures Unlines(RewriteAll([], updates)) == ""
  {
  }

  /** merge: copy line by line, overwriting the seventh field of records that have an update. */
  method Merge(content: string, updates: Updates) returns (result: string)
    ensures result == Merged(content, updates)
  {
    hide LinesOf, Unlines, Join, Split;
    result := "";
    var lines := LinesOf(content);
    EmptyRewrite(updates);
    for i := 0 to |lines|
      invariant result == Unlines(RewriteAll(lines[..i], updates))
    {
      var line := lines[i];
      assert RewriteAll(lines[..i + 1], updates) == RewriteAll(lines[..i], updates) + [Rewrite(line, updates)];
      UnlinesSnoc(RewriteAll(lines[..i], updates), Rewrite(line, updates));
      if StartsWith(line, "#HttpOnly_") || !StartsWith(line, "#") {
        var fields := Split(line, '\t');
        if |fields| == 7 && fields[5] in updates {
          fields := fields[6 := updates[fields[5]]];
          result := result + Join(fields, '\t') + "\n";
          continue;
        }
      }
      result := result + line + "\n";
    }
    assert lines[..|lines|] == lines;
  }

  predicate PlainUpdates(updates: Updates) {
    forall k :: k in updates ==> '\t' !in updates[k] && '\n' !in updates[k] && '\r' !in updates[k]
  }

  function Updated(entry: Option<Entry>, updates: Updates): Option<Entry> {
    if entry.Some? && entry.value.name in updates then Some(entry.value.(value := updates[entry.value.name])) else entry
  }

  /** A text begins with `p` exactly when its first field does, for a `p` without the separator. */
  lemma {:induction false} FirstFieldDecides(s: string, p: string)
    requires '\t' !in p
    ensures StartsWith(s, p) <==> StartsWith(Split(s, '\t')[0], p)
  {
    var f := Split(s, '\t')[0];
    if p != "" && s != "" && s[0] != '\t' {
      FirstFieldDecides(s[1..], p[1..]);
      var g := Split(s[1..], '\t')[0];
      assert f == [s[0]] + g && s == [s[0]] + s[1..] && p == [p[0]] + p[1..];
      if p <= s {
        assert p[1..] <= s[1..];
      }
      if p <= f {
        assert p[1..] <= g;
      }
    }
  }

  lemma RecordByFirstField(line: string, other: string)
    requires Split(line, '\t')[0] == Split(other, '\t')[0]
    ensures IsRecord(line) <==> IsRecord(other)
  {
    FirstFieldDecides(line, "#HttpOnly_");
    FirstFieldDecides(line, "#");
    FirstFieldDecides(other, "#HttpOnly_");
    FirstFieldDecides(other, "#");
  }

  /** The fields of a text with one more character in front. */
  function Longer(c: char, g: seq<string>): (f: seq<string>)
    requires |g| >= 1
    ensures |f| >= 1
  {
    if c == '\t' then [""] + g else [[c] + g[0]] + g[1..]
  }

  lemma SplitLonger(c: char, s: string)
    ensures Split([c] + s, '\t') == Longer(c, Split(s, '\t'))
  {
    assert ([c] + s)[1..] == s;
  }

  lemma LastOfLonger(c: char, g: seq<string>, x: string)
    requires |g| >= 1
    ensures var f, lone := Longer(c, g), c != '\t' && |g| == 1;
      && f[|f| - 1] == (if lone then [c] + g[0] else g[|g| - 1])
      && f[|f| - 1 := if lone then [c] + x else x] == Longer(c, g[|g| - 1 := x])
  {
  }

  lemma StripLonger(c: char, s: string)
    requires EndsInReturn(s)
    ensures EndsInReturn([c] + s) && Strip([c] + s) == [c] + Strip(s)
  {
  }

  /** Stripping a carriage return touches only the last field. */
  predicate StripsLastField(line: string) {
    var f := Split(line, '\t');
    EndsInReturn(f[|f| - 1]) && Split(Strip(line), '\t') == f[|f| - 1 := Strip(f[|f| - 1])]
  }

  lemma StripStep(c: char, rest: string)
    requires EndsInReturn(rest) && StripsLastField(rest)
    ensures StripsLastField([c] + rest)
  {
    hide Split, Strip, EndsInReturn, Longer;
    StripLonger(c, rest);
    SplitLonger(c, rest);
    SplitLonger(c, Strip(rest));
    var g := Split(rest, '\t');
    LastOfLonger(c, g, Strip(g[|g| - 1]));
    if c != '\t' && |g| == 1 {
      StripLonger(c, g[0]);
    }
  }

  lemma {:induction false} StripLastField(line: string)
    requires EndsInReturn(line)
    ensures StripsLastField(line)
  {
    hide StripsLastField;
    if |line| > 1 {
      StripLastField(line[1..]);
      StripStep(line[0], line[1..]);
      assert line == [line[0]] + line[1..];
    } else {
      LoneReturn(line);
    }
  }

  lemma LoneReturn(line: string)
    requires line == "\r"
    ensures StripsLastField(line)
  {
    SplitWhole(line, '\t');
  }

  /** The loss a carriage return can cause: an untouched record line that still ends in one. */
  predicate LosesReturn(line: string, updates: Updates) {
    EntryOf(line).Some? && EntryOf(line).value.name !in updates && EndsInReturn(line)
  }

  lemma RewrittenEntry(line: string, updates: Updates)
    requires PlainUpdates(updates) && '\n' !in line
    ensures '\n' !in Rewrite(line, updates)
    ensures Rewrite(line, updates) != line ==> EntryOf(Rewrite(line, updates)) == Updated(EntryOf(line), updates)
    ensures EntryOf(line).Some? && EntryOf(line).value.name in updates ==>
      EntryOf(Rewrite(line, updates)) == Updated(EntryOf(line), updates) && !EndsInReturn(Rewrite(line, updates))
  {
    var fields := Split(line, '\t');
    if IsRecord(line) && |fields| == 7 && fields[5] in updates {
      var value := updates[fields[5]];
      var more := fields[6 := value];
      SplitJoin(more, '\t');
      RecordByFirstField(line, Join(more, '\t'));
      JoinSplit(line, '\t');
      JoinedTail(fields, value);
    }
  }

  /** A seven-field text is a front part that ends in the separator, and then its last field. */
  lemma JoinedTail(fields: seq<string>, value: string)
    requires |fields| == 7 && '\n' !in Join(fields, '\t') && '\n' !in value && '\r' !in value
    ensures '\n' !in Join(fields[6 := value], '\t')
    ensures !EndsInReturn(Join(fields[6 := value], '\t'))
  {
    JoinSnoc(fields[..6], fields[6], '\t');
    JoinSnoc(fields[..6], value, '\t');
    assert fields[..6] + [fields[6]] == fields;
    assert fields[..6] + [value] == fields[6 := value];
    var front := Join(fields[..6], '\t') + "\t";
    assert forall i :: 0 <= i < |front| ==> front[i] == Join(fields, '\t')[i];
    var text := front + value;
    if value != "" {
      assert text[|text| - 1] == value[|value| - 1];
    }
  }

  lemma {:induction false} JoinSnoc(pieces: seq<string>, last: string, sep: char)
    requires |pieces| >= 1
    ensures Join(pieces + [last], sep) == Join(pieces, sep) + [sep] + last
  {
    if |pieces| > 1 {
      JoinSnoc(pieces[1..], last, sep);
      assert (pieces + [last])[1..] == pieces[1..] + [last];
    } else {
      assert (pieces + [last])[1..] == [last];
    }
  }

  lemma StrippedEntry(line: string)
    ensures EntryOf(line).None? ==> EntryOf(Strip(line)).None?
    ensures EntryOf(line).Some? ==> (EntryOf(Strip(line)) == EntryOf(line) <==> !EndsInReturn(line))
  {
    if EndsInReturn(line) {
      StripLastField(line);
      var f := Split(line, '\t');
      if |f| > 1 {
        RecordByFirstField(line, Strip(line));
      }
    }
  }

  /** A merge line by line, before its text is cut into lines again: a record of seven tab-separated fields whose name
      has an update changes in its seventh field alone; host, flags, path, expiry and name stay, and so does every
      other line, to the letter. */
  lemma MergeKeepsTheRest(content: string, updates: Updates) returns (raw: seq<string>)
    requires PlainUpdates(updates)
    ensures Merged(content, updates) == Unlines(raw) && |raw| == |LinesOf(content)|
    ensures forall i :: 0 <= i < |raw| ==>
      && '\n' !in raw[i]
      && var line := LinesOf(content)[i]; var f := Split(line, '\t');
         if ("#HttpOnly_" <= line || !("#" <= line)) && |f| == 7 && f[5] in updates
         then Split(raw[i], '\t') == [f[0], f[1], f[2], f[3], f[4], f[5], updates[f[5]]]
         else raw[i] == line
  {
    hide LinesOf, Unlines;
    var lines := LinesOf(content);
    LinesHaveNoNewline(content);
    raw := RewriteAll(lines, updates);
    forall i | 0 <= i < |raw|
      ensures '\n' !in raw[i]
      ensures var line := lines[i]; var f := Split(line, '\t');
        if IsRecord(line) && |f| == 7 && f[5] in updates
        then Split(raw[i], '\t') == [f[0], f[1], f[2], f[3], f[4], f[5], updates[f[5]]]
        else raw[i] == line
    {
      RewrittenEntry(lines[i], updates);
      RewrittenFields(lines[i], updates);
    }
  }

  lemma RewrittenFields(line: string, updates: Updates)
    requires PlainUpdates(updates)
    ensures var f := Split(line, '\t');
      IsRecord(line) && |f| == 7 && f[5] in updates ==>
        Split(Rewrite(line, updates), '\t') == [f[0], f[1], f[2], f[3], f[4], f[5], updates[f[5]]]
  {
    var f := Split(line, '\t');
    if IsRecord(line) && |f| == 7 && f[5] in updates {
      var more := f[6 := updates[f[5]]];
      SplitJoin(more, '\t');
      assert more == [f[0], f[1], f[2], f[3], f[4], f[5], updates[f[5]]];
    }
  }

  /** A rewritten and stripped line is a record exactly when the line was, with the same name. */
  lemma RewrittenName(line: string, updates: Updates)
    requires PlainUpdates(updates) && '\n' !in line
    ensures var after := EntryOf(Strip(Rewrite(line, updates)));
      && (after.Some? <==> EntryOf(line).Some?)
      && (after.Some? ==> after.value.name == EntryOf(line).value.name)
  {
    hide EntryOf;
    RewrittenEntry(line, updates);
    StrippedName(Rewrite(line, updates));
  }

  lemma StrippedName(line: string)
    ensures EntryOf(Strip(line)).Some? <==> EntryOf(line).Some?
    ensures EntryOf(line).Some? ==> EntryOf(Strip(line)).value.name == EntryOf(line).value.name
  {
    if EndsInReturn(line) {
      StripLastField(line);
      var f := Split(line, '\t');
      if |f| > 1 {
        RecordByFirstField(line, Strip(line));
      }
    }
  }

  /** Rewriting and reading back, line by line: for updates without control characters, each line's entry is
      the old one with the update applied exactly when the line is not an untouched record that still ends in
      a carriage return after `lines`; then that return is lost. */
  lemma MergeThenRead(content: string, updates: Updates)
    requires PlainUpdates(updates)
    ensures var before, after := LinesOf(content), LinesOf(Merged(content, updates));
      && |after| == |before|
      && forall i :: 0 <= i < |before| ==>
           && after[i] == Strip(Rewrite(before[i], updates))
           && (EntryOf(after[i]) == Updated(EntryOf(before[i]), updates) <==> !LosesReturn(before[i], updates))
  {
    var before := LinesOf(content);
    LinesHaveNoNewline(content);
    var rewritten := RewriteAll(before, updates);
    forall i | 0 <= i < |before|
      ensures '\n' !in rewritten[i]
      ensures EntryOf(Strip(rewritten[i])) == Updated(EntryOf(before[i]), updates) <==> !LosesReturn(before[i], updates)
    {
      RewrittenEntry(before[i], updates);
      StrippedEntry(rewritten[i]);
    }
    LinesOfUnlines(rewritten);
  }

  function Apply(values: map<string, string>, updates: Updates): map<string, string> {
    map k | k in values :: if k in updates then updates[k] else values[k]
  }

  /** A later record of the same name decides the value. */
  predicate Overridden(entries: seq<Option<Entry>>, i: nat)
    requires i < |entries| && entries[i].Some?
  {
    exists j :: i < j < |entries| && entries[j].Some? && entries[j].value.name == entries[i].value.name
  }

  lemma {:induction false} CollectAt(entries: seq<Option<Entry>>, i: nat)
    requires i < |entries| && entries[i].Some? && !Overridden(entries, i)
    ensures entries[i].value.name in Collect(entries)
    ensures Collect(entries)[entries[i].value.name] == entries[i].value.value
  {
    var init := entries[..|entries| - 1];
    if i < |entries| - 1 {
      assert !Overridden(init, i) by {
        assert forall j :: 0 <= j < |init| ==> init[j] == entries[j];
      }
      CollectAt(init, i);
      assert entries[|entries| - 1].Some? ==> entries[|entries| - 1].value.name != entries[i].value.name;
    }
  }

  lemma {:induction false} CollectFrom(entries: seq<Option<Entry>>, name: string) returns (i: nat)
    requires name in Collect(entries)
    ensures i < |entries| && entries[i].Some? && entries[i].value.name == name && !Overridden(entries, i)
  {
    var n := |entries| - 1;
    if entries[n].Some? && entries[n].value.name == name {
      i := n;
    } else {
      i := CollectFrom(entries[..n], name);
    }
  }

  /** The same records with the same names, and perhaps other values. */
  predicate SameNames(a: seq<Option<Entry>>, b: seq<Option<Entry>>) {
    && |a| == |b|
    && forall i :: 0 <= i < |a| ==> (a[i].Some? <==> b[i].Some?) && (a[i].Some? ==> a[i].value.name == b[i].value.name)
  }

  /** Two lists of the same records collect to the same map exactly when every record that differs is
      overridden by a later one. */
  lemma CollectAgrees(a: seq<Option<Entry>>, b: seq<Option<Entry>>)
    requires SameNames(a, b)
    ensures Collect(a) == Collect(b) <==> forall i :: 0 <= i < |a| && a[i] != b[i] ==> Overridden(a, i)
  {
    hide Collect;
    forall i: nat | i < |a| && a[i].Some?
      ensures Overridden(a, i) <==> Overridden(b, i)
    {
    }
    if Collect(a) == Collect(b) {
      forall i: nat | i < |a| && a[i] != b[i]
        ensures Overridden(a, i)
      {
        if !Overridden(a, i) {
          CollectAt(a, i);
          CollectAt(b, i);
        }
      }
    }
    if forall i :: 0 <= i < |a| && a[i] != b[i] ==> Overridden(a, i) {
      forall x
        ensures x in Collect(a) <==> x in Collect(b)
        ensures x in Collect(a) ==> Collect(a)[x] == Collect(b)[x]
      {
        if x in Collect(a) {
          var i := CollectFrom(a, x);
          CollectAt(a, i);
          CollectAt(b, i);
        }
        if x in Collect(b) {
          var i := CollectFrom(b, x);
          CollectAt(a, i);
        }
      }
    }
  }

  lemma {:induction false} CollectUpdated(entries: seq<Option<Entry>>, others: seq<Option<Entry>>, updates: Updates)
    requires |others| == |entries| && forall i :: 0 <= i < |entries| ==> others[i] == Updated(entries[i], updates)
    ensures Collect(others) == Apply(Collect(entries), updates)
  {
    if entries != [] {
      CollectUpdated(entries[..|entries| - 1], others[..|entries| - 1], updates);
    }
  }

  function UpdatedAll(entries: seq<Option<Entry>>, updates: Updates): (out: seq<Option<Entry>>)
    ensures |out| == |entries| && forall i :: 0 <= i < |out| ==> out[i] == Updated(entries[i], updates)
  {
    seq(|entries|, i requires 0 <= i < |entries| => Updated(entries[i], updates))
  }

  /** Line i is a record that loses a return, and a later record of the same name makes up for it. */
  predicate MadeUp(lines: seq<string>, i: nat)
    requires i < |lines| && EntryOf(lines[i]).Some?
  {
    var name := EntryOf(lines[i]).value.name;
    exists j :: i < j < |lines| && EntryOf(lines[j]).Some? && EntryOf(lines[j]).value.name == name
  }

  /** The map form: the values after a merge are the old values with the updates applied to the names already
      there and to no others, exactly when a later record of the same name makes up for every lost return. */
  lemma MergeAppliesUpdates(content: string, updates: Updates)
    requires PlainUpdates(updates)
    ensures Values(Merged(content, updates)) == Apply(Values(content), updates)
      <==> forall i :: 0 <= i < |LinesOf(content)| && LosesReturn(LinesOf(content)[i], updates) ==>
        MadeUp(LinesOf(content), i)
  {
    hide LinesOf, EntryOf, Merged, Collect;
    MergeThenRead(content, updates);
    LinesHaveNoNewline(content);
    var lines := LinesOf(content);
    var entries := EntriesOf(lines);
    var before, after := UpdatedAll(entries, updates), EntriesOf(LinesOf(Merged(content, updates)));
    CollectUpdated(entries, before, updates);
    forall i | 0 <= i < |lines|
      ensures before[i].Some? <==> after[i].Some?
      ensures before[i].Some? ==> before[i].value.name == after[i].value.name
    {
      assert lines[i] in lines;
      RewrittenName(lines[i], updates);
    }
    CollectAgrees(after, before);
    forall i: nat | i < |lines| && LosesReturn(lines[i], updates)
      ensures Overridden(after, i) <==> MadeUp(lines, i)
    {
      assert EntryOf(lines[i]).Some? && after[i].Some?;
      assert forall j :: 0 <= j < |lines| ==>
        && (after[j].Some? <==> EntryOf(lines[j]).Some?)
        && (after[j].Some? ==> after[j].value.name == EntryOf(lines[j]).value.name);
    }
  }

  lemma SingleLine(line: string, entry: Entry)
    requires EntryOf(Strip(line)) == Some(entry) && '\n' !in line
    ensures Values(line + "\n") == map[entry.name := entry.value]
    ensures LinesOf(line + "\n") == [Strip(line)]
  {
    LinesOfUnlines([line]);
    assert Unlines([line]) == line + "\n";
    var entries := EntriesOf(LinesOf(line + "\n"));
    assert entries == [Some(entry)] && entries[..0] == [] && Collect(entries[..0]) == map[];
  }

  lemma LeadingSeparator(rest: string)
    ensures Split("\t" + rest, '\t') == [""] + Split(rest, '\t')
  {
    assert ("\t" + rest)[1..] == rest;
  }

  /** A seven-field record with nothing but a name and a value. */
  function Bare(value: string): string {
    "\t" + ("\t" + ("\t" + ("\t" + ("\t" + ("n" + "\t" + value)))))
  }

  lemma BareEntry(value: string)
    requires '\t' !in value
    ensures EntryOf(Bare(value)) == Some(Entry("n", value))
  {
    var r0 := "n" + "\t" + value;
    var r1 := "\t" + r0;
    var r2 := "\t" + r1;
    var r3 := "\t" + r2;
    var r4 := "\t" + r3;
    SplitWhole(value, '\t');
    SplitFirst("n", '\t', value);
    LeadingSeparator(r0);
    LeadingSeparator(r1);
    LeadingSeparator(r2);
    LeadingSeparator(r3);
    LeadingSeparator(r4);
    assert Bare(value)[0] == '\t';
  }

  lemma BareStrips(value: string)
    requires '\n' !in value
    ensures '\n' !in Bare(value)
    ensures Bare(value + "\r") == Bare(value) + "\r" && Strip(Bare(value + "\r")) == Bare(value)
  {
  }

  lemma UntouchedLine(content: string, line: string)
    requires LinesOf(content) == [line]
    ensures Merged(content, map[]) == line + "\n"
  {
    hide LinesOf;
    assert RewriteAll([line], map[]) == [line];
    assert [line][1..] == [];
    assert Unlines([line]) == line + "\n" + "";
  }

  /** The condition is needed: a record whose line ends in two carriage returns changes its value even when
      there is nothing to update. */
  lemma DoubledReturnIsLost(value: string)
    requires '\t' !in value && '\n' !in value
    ensures var content := Bare(value + "\r" + "\r") + "\n";
      Values(content) == map["n" := value + "\r"] && Values(Merged(content, map[])) == map["n" := value]
  {
    hide Values, Merged, Bare, EntryOf, LinesOf, Strip, Split;
    BareEntry(value + "\r");
    BareEntry(value);
    BareStrips(value);
    BareStrips(value + "\r");
    BareStrips(value + "\r" + "\r");
    var kept := Bare(value + "\r");
    SingleLine(Bare(value + "\r" + "\r"), Entry("n", value + "\r"));
    UntouchedLine(Bare(value + "\r" + "\r") + "\n", kept);
    SingleLine(kept, Entry("n", value));
  }
}
