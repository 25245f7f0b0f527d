/** What is printed as an INI file is read back. */
module IniProperties {
  import opened CStrings
  import opened IniSpec
  import opened IniReader

  // The contracts of the scanning functions leave no choice.

  lemma TrimmedIs(s: string, t: string)
    requires t <= s && forall i :: |t| <= i < |s| ==> IsSpace(s[i])
    requires t != "" ==> !IsSpace(t[|t| - 1])
    ensures TrimRight(s) == t
  {
    var r := TrimRight(s);
    assert r == s[..|r|] && t == s[..|t|];
    assert t != "" ==> t[|t| - 1] == s[|t| - 1];
    assert r != "" ==> r[|r| - 1] == s[|r| - 1];
  }

  lemma IndentIs(s: string, n: nat)
    requires n <= |s| && (forall i :: 0 <= i < n ==> IsSpace(s[i])) && (n < |s| ==> !IsSpace(s[n]))
    ensures Indent(s) == n
  {
  }

  lemma StopIs(s: string, c: char, n: nat)
    requires n <= |s| && (forall j: nat :: j < n ==> s[j] != c) && (forall j: nat :: j < n ==> !CommentAt(s, j))
    requires n < |s| ==> s[n] == c || CommentAt(s, n)
    ensures Stop(s, c, 0) == n
  {
  }

  // ---- white space, spelt out ----

  predicate White(c: char) {
    c == ' ' || c == '\t' || c == '\n' || c == '\U{000B}' || c == '\U{000C}' || c == '\r'
  }

  lemma SpaceIsWhite(c: char)
    ensures IsSpace(c) <==> White(c)
  {
  }

  // White space inside a line; a '\r' in front of the newline is some.
  predicate Gap(s: string) {
    forall i :: 0 <= i < |s| ==> White(s[i]) && s[i] != '\n'
  }

  // ---- files as lines ----

  predicate Plain(s: string) {
    '\n' !in s && NUL !in s
  }

  predicate FitsLine(s: string) {
    Plain(s) && |s| <= 198
  }

  function Unlines(lines: seq<string>): string {
    if lines == [] then "" else lines[0] + "\n" + Unlines(lines[1..])
  }

  function StepAll(h: Handler, st: State, lines: seq<string>): State
    decreases |lines|
  {
    if lines == [] then st else StepAll(h, Step(h, st, lines[0] + "\n"), lines[1..])
  }

  lemma {:induction false} ReadLine(h: Handler, st: State, line: string, rest: string)
    requires FitsLine(line)
    ensures ParseFrom(h, st, line + "\n" + rest) == ParseFrom(h, Step(h, st, line + "\n"), rest)
  {
    hide Step;
    var file := line + "\n" + rest;
    var n := FgetsLength(file, 0);
    assert n == |line| + 1 by {
      assert file[|line|] == '\n';
      assert forall i :: 0 <= i < |line| ==> file[i] == line[i];
    }
    assert file[..n] == line + "\n" && file[n..] == rest;
    NoTerminator(line + "\n");
  }

  lemma {:induction false} NoTerminator(s: string)
    requires NUL !in s
    ensures Str(s, 0) == s
  {
  }

  lemma {:induction false} ReadLines(h: Handler, st: State, lines: seq<string>)
    requires forall i :: 0 <= i < |lines| ==> FitsLine(lines[i])
    ensures ParseFrom(h, st, Unlines(lines)) == StepAll(h, st, lines)
    decreases |lines|
  {
    hide Step;
    if lines != [] {
      ReadLine(h, st, lines[0], Unlines(lines[1..]));
      ReadLines(h, Step(h, st, lines[0] + "\n"), lines[1..]);
    }
  }

  // ---- printing ----

  // White space that may stand before a continuation, around a separator, and at the end of each line.
  datatype Layout = Layout(indent: string, before: string, after: string, pad: string)

  datatype Entry = Entry(name: string, sep: char, first: string, more: seq<string>)
  datatype Part = Part(title: string, entries: seq<Entry>)

  predicate GoodLayout(l: Layout) {
    Gap(l.indent) && l.indent != "" && Gap(l.before) && Gap(l.after) && Gap(l.pad)
  }

  predicate Trimmed(s: string) {
    s != "" ==> !White(s[0]) && !White(s[|s| - 1])
  }

  predicate NoComment(s: string) {
    forall i: nat :: 0 < i < |s| && s[i] == ';' ==> !White(s[i - 1])
  }

  function TitleLine(l: Layout, title: string): string {
    "[" + title + "]" + l.pad
  }

  function PairLine(l: Layout, e: Entry): string {
    e.name + l.before + [e.sep] + l.after + e.first + l.pad
  }

  function MoreLine(l: Layout, v: string): string {
    l.indent + v + l.pad
  }

  predicate GoodMore(l: Layout, v: string) {
    v != "" && Trimmed(v) && v[0] != ';' && v[0] != '#' && FitsLine(MoreLine(l, v))
  }

  // '=' separates wherever it stands; ':' does only in a line without '='.
  predicate GoodEntry(l: Layout, e: Entry) {
    && e.name != "" && Trimmed(e.name) && NoComment(e.name) && '=' !in e.name
    && e.name[0] != ';' && e.name[0] != '#' && e.name[0] != '['
    && (e.sep == '=' || (e.sep == ':' && ':' !in e.name && '=' !in e.first))
    && Trimmed(e.first) && NoComment(e.first)
    && FitsLine(PairLine(l, e))
    && forall i :: 0 <= i < |e.more| ==> GoodMore(l, e.more[i])
  }

  predicate GoodTitle(l: Layout, title: string) {
    NoComment(title) && ']' !in title && FitsLine(TitleLine(l, title))
  }

  predicate GoodPart(l: Layout, p: Part) {
    && GoodTitle(l, p.title)
    && forall i :: 0 <= i < |p.entries| ==> GoodEntry(l, p.entries[i])
  }

  function MoreLines(l: Layout, more: seq<string>): seq<string> {
    if more == [] then [] else [MoreLine(l, more[0])] + MoreLines(l, more[1..])
  }

  function EntryLines(l: Layout, entries: seq<Entry>): seq<string> {
    if entries == [] then []
    else [PairLine(l, entries[0])] + MoreLines(l, entries[0].more) + EntryLines(l, entries[1..])
  }

  function PartLines(l: Layout, doc: seq<Part>): seq<string> {
    if doc == [] then []
    else [TitleLine(l, doc[0].title)] + EntryLines(l, doc[0].entries) + PartLines(l, doc[1..])
  }

  function Print(l: Layout, doc: seq<Part>): string {
    Unlines(PartLines(l, doc))
  }

  // ---- what each printed line says ----

  lemma {:induction false} TrimmedText(s: string, pad: string, first: bool)
    requires Trimmed(s) && s != "" && (first ==> s[0] != BOM[0]) && Gap(pad)
    ensures Text(first, s + pad + "\n") == s && TrimRight(s + pad + "\n") == s
  {
    hide TrimRight, Indent;
    TrimmedIs(s + pad + "\n", s);
    IndentIs(s, 0);
    assert s[0..] == s;
    assert (s + pad + "\n")[0] == s[0];
  }

  // A search in text without comments runs through it.
  lemma {:induction false} StopAfter(text: string, tail: string, c: char, n: nat)
    requires n == |text| && NoComment(text) && c !in text && tail != "" && tail[0] == c
    ensures Stop(text + tail, c, 0) == n
  {
    hide Stop;
    var all := text + tail;
    forall j: nat | j < n ensures all[j] != c && !CommentAt(all, j) {
      assert all[j] == text[j] && (j > 0 ==> all[j - 1] == text[j - 1]);
    }
    StopIs(all, c, n);
  }

  lemma {:induction false} TitleSays(l: Layout, title: string, first: bool, open: bool)
    requires GoodLayout(l) && GoodTitle(l, title)
    ensures Classify(first, open, TitleLine(l, title) + "\n") == Section(title)
  {
    hide Stop, TrimRight, Text;
    var text := "[" + title + "]";
    TrimmedText(text, l.pad, first);
    var inner := text[1..];
    assert inner == title + "]";
    StopAfter(title, "]", ']', |title|);
    assert inner[..|title|] == title;
  }

  // The separator of a pair line, and what stands on either side of it.
  lemma {:induction false} SeparatorIs(name: string, gap: string, sep: char, tail: string)
    requires NoComment(name) && Gap(gap) && '=' !in name
    requires sep == '=' || (sep == ':' && ':' !in name && '=' !in tail)
    ensures var text := name + gap + [sep] + tail;
      HasSeparator(text) && Separator(text) == |name + gap|
      && text[..|name + gap|] == name + gap && text[|name + gap| + 1..] == tail
  {
    hide Stop;
    var head := name + gap;
    var text := head + [sep] + tail;
    assert text == head + ([sep] + tail);
    NoCommentInGap(name, gap);
    assert sep !in head;
    StopAfter(head, [sep] + tail, sep, |head|);
    if sep == ':' {
      var e := Stop(text, '=', 0);
      assert '=' !in text;
    }
  }

  lemma NoCommentInGap(name: string, gap: string)
    requires NoComment(name) && Gap(gap)
    ensures NoComment(name + gap)
  {
    var head := name + gap;
    assert forall j :: 0 <= j < |name| ==> head[j] == name[j];
    assert forall j: nat :: |name| <= j < |head| ==> head[j] == gap[j - |name|] && White(head[j]);
  }

  lemma {:induction false} ValueIs(gap: string, v: string)
    requires Gap(gap) && Trimmed(v) && NoComment(v) && NUL !in v
    ensures Value(if v == "" then "" else gap + v) == v
  {
    hide Stop, TrimRight, Indent;
    if v == "" {
      IndentIs("", 0);
    } else {
      IndentIs(gap + v, |gap|);
      assert (gap + v)[|gap|..] == v && v[..|v|] == v;
    }
    assert forall j: nat :: j < |v| ==> !CommentAt(v, j);
    StopIs(v, NUL, |v|);
    TrimmedIs(v, v);
  }

  lemma {:induction false} PairSays(name: string, before: string, sep: char, after: string, v: string)
    requires Gap(before) && Gap(after) && Trimmed(name) && NoComment(name) && '=' !in name
    requires sep == '=' || (sep == ':' && ':' !in name && '=' !in v)
    requires Trimmed(v) && NoComment(v) && NUL !in v
    ensures PairOrMalformed(name + before + [sep] + if v == "" then "" else after + v) == Pair(name, v)
  {
    hide Separator, HasSeparator, TrimRight, Value;
    var tail := if v == "" then "" else after + v;
    assert '=' !in after;
    SeparatorIs(name, before, sep, tail);
    ValueIs(after, v);
    NameIs(name, before);
  }

  lemma NameIs(name: string, gap: string)
    requires Trimmed(name) && Gap(gap)
    ensures TrimRight(name + gap) == name
  {
    hide TrimRight;
    TrimmedIs(name + gap, name);
  }

  lemma {:induction false} EntrySays(l: Layout, e: Entry, open: bool)
    requires GoodLayout(l) && GoodEntry(l, e)
    ensures Classify(false, open, PairLine(l, e) + "\n") == Pair(e.name, e.first)
  {
    hide TrimRight, Text, PairOrMalformed, FitsLine;
    var text := e.name + l.before + [e.sep] + if e.first == "" then "" else l.after + e.first;
    var pad := if e.first == "" then l.after + l.pad else l.pad;
    assert PairLine(l, e) + "\n" == text + pad + "\n";
    assert text[|text| - 1] == if e.first == "" then e.sep else e.first[|e.first| - 1];
    assert text[0] == e.name[0];
    TrimmedText(text, pad, false);
    assert NUL !in e.first by {
      NoNulIn(l, e);
    }
    PairSays(e.name, l.before, e.sep, l.after, e.first);
  }

  lemma NoNulIn(l: Layout, e: Entry)
    requires FitsLine(PairLine(l, e))
    ensures NUL !in e.first
  {
    var n := |e.name + l.before| + 1 + |l.after|;
    assert PairLine(l, e)[n..n + |e.first|] == e.first;
  }

  lemma {:induction false} MoreSays(l: Layout, v: string)
    requires GoodLayout(l) && GoodMore(l, v)
    ensures Classify(false, true, MoreLine(l, v) + "\n") == Continuation(v)
  {
    hide TrimRight, Indent;
    var s := l.indent + v;
    assert s[|s| - 1] == v[|v| - 1];
    TrimmedIs(MoreLine(l, v) + "\n", s);
    IndentIs(s, |l.indent|);
    assert s[|l.indent|..] == v;
  }

  // ---- the calls made for a printed document ----

  // Section titles, and the names that continuation lines go to, are cut to their buffers.

  function MoreCalls(title: string, name: string, more: seq<string>): seq<Call> {
    if more == [] then [] else [Call(title, name, more[0])] + MoreCalls(title, name, more[1..])
  }

  function EntryCalls(title: string, entries: seq<Entry>): seq<Call> {
    if entries == [] then []
    else [Call(title, entries[0].name, entries[0].first)]
         + MoreCalls(title, Cut(entries[0].name, 50), entries[0].more)
         + EntryCalls(title, entries[1..])
  }

  function PartCalls(doc: seq<Part>): seq<Call> {
    if doc == [] then [] else EntryCalls(Cut(doc[0].title, 50), doc[0].entries) + PartCalls(doc[1..])
  }

  lemma {:induction false} StepAllSplit(h: Handler, st: State, a: seq<string>, b: seq<string>)
    ensures StepAll(h, st, a + b) == StepAll(h, StepAll(h, st, a), b)
    decreases |a|
  {
    hide Step;
    if a == [] {
      assert a + b == b;
    } else {
      assert (a + b)[1..] == a[1..] + b;
      StepAllSplit(h, Step(h, st, a[0] + "\n"), a[1..], b);
    }
  }

  // The state after a run of pair and continuation lines, handed to a handler that accepts them.
  ghost predicate Reached(st: State, st': State, calls: seq<Call>) {
    st'.calls == st.calls + calls && st'.error == st.error && st'.section == st.section && st'.lineno >= st.lineno
  }

  // A call was just recorded: if the callback refuses it, and nothing was refused before, the line is reported.
  function Answered(h: Handler, st: State): State {
    if h(st.calls) || st.error > 0 then st else st.(error := st.lineno)
  }

  /** Under any callback, a continuation line sends its text to the name last remembered. */
  lemma MoreStep(l: Layout, h: Handler, st: State, v: string)
    requires GoodLayout(l) && GoodMore(l, v) && st.prevName != "" && st.lineno > 0
    ensures Step(h, st, MoreLine(l, v) + "\n")
         == Answered(h, st.(lineno := st.lineno + 1, calls := st.calls + [Call(st.section, st.prevName, v)]))
  {
    hide Classify, GoodMore;
    MoreSays(l, v);
  }

  /** Under any callback, a pair line sends its value to its name and remembers the name, refused or not. */
  lemma EntryStep(l: Layout, h: Handler, st: State, e: Entry)
    requires GoodLayout(l) && GoodEntry(l, e) && st.lineno > 0
    ensures Step(h, st, PairLine(l, e) + "\n")
         == Answered(h, st.(lineno := st.lineno + 1, prevName := Cut(e.name, 50),
                            calls := st.calls + [Call(st.section, e.name, e.first)]))
  {
    hide Classify, GoodEntry, Cut;
    EntrySays(l, e, st.prevName != "");
  }

  /** A section line changes the section and forgets the name. */
  lemma TitleStep(l: Layout, h: Handler, st: State, title: string)
    requires GoodLayout(l) && GoodTitle(l, title)
    ensures Step(h, st, TitleLine(l, title) + "\n")
         == st.(lineno := st.lineno + 1, section := Cut(title, 50), prevName := "")
  {
    hide Classify, Cut;
    TitleSays(l, title, st.lineno == 0, st.prevName != "");
  }

  lemma {:induction false} ReadMore(l: Layout, st: State, name: string, more: seq<string>)
    requires GoodLayout(l) && st.prevName == name != "" && st.lineno > 0
    requires forall i :: 0 <= i < |more| ==> GoodMore(l, more[i])
    ensures Reached(st, StepAll(ACCEPT, st, MoreLines(l, more)), MoreCalls(st.section, name, more))
    decreases |more|
  {
    hide Step, StepAll, GoodLayout, GoodMore, MoreLines, MoreCalls;
    if more == [] {
      NothingMore(l, st, name);
      assert st.calls + [] == st.calls;
    } else {
      var line, rest := MoreLine(l, more[0]), more[1..];
      MoreUnfold(l, st.section, name, more);
      StepAllSplit(ACCEPT, st, [line], MoreLines(l, rest));
      StepOne(ACCEPT, st, line);
      MoreStep(l, ACCEPT, st, more[0]);
      ReadMore(l, Step(ACCEPT, st, line + "\n"), name, rest);
      var c, later := [Call(st.section, name, more[0])], MoreCalls(st.section, name, rest);
      assert st.calls + c + later == st.calls + (c + later);
    }
  }

  lemma MoreUnfold(l: Layout, title: string, name: string, more: seq<string>)
    requires more != []
    ensures MoreLines(l, more) == [MoreLine(l, more[0])] + MoreLines(l, more[1..])
    ensures MoreCalls(title, name, more) == [Call(title, name, more[0])] + MoreCalls(title, name, more[1..])
  {
  }

  lemma NothingMore(l: Layout, st: State, name: string)
    ensures MoreLines(l, []) == [] && MoreCalls(st.section, name, []) == [] && StepAll(ACCEPT, st, []) == st
  {
  }

  lemma StepOne(h: Handler, st: State, line: string)
    ensures StepAll(h, st, [line]) == Step(h, st, line + "\n")
  {
    hide Step;
    assert [line][1..] == [];
  }

  lemma {:induction false} ReadEntry(l: Layout, st: State, e: Entry)
    requires GoodLayout(l) && st.lineno > 0 && GoodEntry(l, e)
    ensures Reached(st, StepAll(ACCEPT, st, EntryLines(l, [e])), EntryCalls(st.section, [e]))
  {
    hide Step, GoodLayout, GoodMore, StepAll;
    var line, more := PairLine(l, e), MoreLines(l, e.more);
    assert [e][1..] == [] && EntryLines(l, [e]) == [line] + more;
    StepAllSplit(ACCEPT, st, [line], more);
    StepOne(ACCEPT, st, line);
    EntryStep(l, ACCEPT, st, e);
    var named := Step(ACCEPT, st, line + "\n");
    if e.more == [] {
      StepNone(named);
    } else {
      assert e.name != "" && Cut(e.name, 50) != "";
      ReadMore(l, named, Cut(e.name, 50), e.more);
    }
  }

  lemma StepNone(st: State)
    ensures StepAll(ACCEPT, st, []) == st
  {
  }

  lemma {:induction false} ReadEntries(l: Layout, st: State, entries: seq<Entry>)
    requires GoodLayout(l) && st.lineno > 0 && forall i :: 0 <= i < |entries| ==> GoodEntry(l, entries[i])
    ensures Reached(st, StepAll(ACCEPT, st, EntryLines(l, entries)), EntryCalls(st.section, entries))
    decreases |entries|
  {
    hide Step, GoodLayout, GoodEntry;
    if entries == [] {
      assert st.calls + [] == st.calls;
    } else {
      var e, rest := entries[0], entries[1..];
      assert [e][1..] == [];
      assert EntryLines(l, entries) == EntryLines(l, [e]) + EntryLines(l, rest);
      StepAllSplit(ACCEPT, st, EntryLines(l, [e]), EntryLines(l, rest));
      ReadEntry(l, st, e);
      ReadEntries(l, StepAll(ACCEPT, st, EntryLines(l, [e])), rest);
      assert EntryCalls(st.section, entries) == EntryCalls(st.section, [e]) + EntryCalls(st.section, rest);
    }
  }

  lemma {:induction false} ReadPart(l: Layout, st: State, p: Part)
    requires GoodLayout(l) && GoodPart(l, p)
    ensures var st' := StepAll(ACCEPT, st, [TitleLine(l, p.title)] + EntryLines(l, p.entries));
      st'.calls == st.calls + EntryCalls(Cut(p.title, 50), p.entries) && st'.error == st.error
  {
    hide Step, StepAll, GoodLayout, GoodEntry, GoodTitle, Cut;
    var line := TitleLine(l, p.title);
    StepAllSplit(ACCEPT, st, [line], EntryLines(l, p.entries));
    StepOne(ACCEPT, st, line);
    TitleStep(l, ACCEPT, st, p.title);
    ReadEntries(l, Step(ACCEPT, st, line + "\n"), p.entries);
  }

  lemma {:induction false} ReadParts(l: Layout, st: State, doc: seq<Part>)
    requires GoodLayout(l) && forall i :: 0 <= i < |doc| ==> GoodPart(l, doc[i])
    ensures var st' := StepAll(ACCEPT, st, PartLines(l, doc));
      st'.calls == st.calls + PartCalls(doc) && st'.error == st.error
    decreases |doc|
  {
    hide Step, GoodLayout, GoodPart, EntryLines, EntryCalls, Cut;
    if doc == [] {
      assert st.calls + [] == st.calls;
    } else {
      var p, rest := doc[0], PartLines(l, doc[1..]);
      var lines := [TitleLine(l, p.title)] + EntryLines(l, p.entries);
      StepAllSplit(ACCEPT, st, lines, rest);
      ReadPart(l, st, p);
      ReadParts(l, StepAll(ACCEPT, st, lines), doc[1..]);
      var now, later := EntryCalls(Cut(p.title, 50), p.entries), PartCalls(doc[1..]);
      assert st.calls + now + later == st.calls + (now + later);
    }
  }

  // ---- round trip ----

  function KeyOf(p: Part, i: nat): string
    requires i < |p.entries|
  {
    MakeKey(p.title, p.entries[i].name)
  }

  // No two entries share a key; sections may repeat, and "a.b" + "c" clashes with "a" + "b.c".
  ghost predicate DistinctKeys(doc: seq<Part>) {
    forall p: nat, i: nat, q: nat, j: nat ::
      p < |doc| && i < |doc[p].entries| && q < |doc| && j < |doc[q].entries| && (p != q || i != j)
      ==> KeyOf(doc[p], i) != KeyOf(doc[q], j)
  }

  // Entries that differ in section or name by more than letter case; '.' separates the two in a key.
  ghost predicate DistinctNames(doc: seq<Part>) {
    && (forall p :: 0 <= p < |doc| ==> '.' !in doc[p].title)
    && forall p: nat, i: nat, q: nat, j: nat ::
      p < |doc| && i < |doc[p].entries| && q < |doc| && j < |doc[q].entries| && (p != q || i != j)
      ==> !(Alike(doc[p].title, doc[q].title) && Alike(doc[p].entries[i].name, doc[q].entries[j].name))
  }

  lemma {:induction false} DistinctNamesHaveKeys(doc: seq<Part>)
    requires DistinctNames(doc)
    ensures DistinctKeys(doc)
  {
    hide Alike, MakeKey;
    forall p: nat, i: nat, q: nat, j: nat
      | p < |doc| && i < |doc[p].entries| && q < |doc| && j < |doc[q].entries| && (p != q || i != j)
      ensures KeyOf(doc[p], i) != KeyOf(doc[q], j)
    {
      SameKey(doc[p].title, doc[p].entries[i].name, doc[q].title, doc[q].entries[j].name);
    }
  }

  predicate ShortEntry(e: Entry) {
    e.more != [] ==> |e.name| < 50
  }

  predicate ShortPart(p: Part) {
    |p.title| < 50 && forall i :: 0 <= i < |p.entries| ==> ShortEntry(p.entries[i])
  }

  ghost predicate GoodDocument(l: Layout, doc: seq<Part>) {
    GoodLayout(l) && (forall i :: 0 <= i < |doc| ==> GoodPart(l, doc[i]) && ShortPart(doc[i])) && DistinctKeys(doc)
  }

  lemma {:induction false} SentToSplit(a: seq<Call>, b: seq<Call>, key: string)
    ensures SentTo(a + b, key) == SentTo(a, key) + SentTo(b, key)
    decreases |b|
  {
    if b == [] {
      assert a + b == a;
      assert SentTo(a, key) + [] == SentTo(a, key);
    } else {
      assert (a + b)[..|a + b| - 1] == a + b[..|b| - 1];
      SentToSplit(a, b[..|b| - 1], key);
    }
  }

  lemma SentNothing(key: string)
    ensures SentTo([], key) == []
  {
  }

  lemma {:induction false} SentOne(c: Call, key: string)
    ensures SentTo([c], key) == if MakeKey(c.section, c.name) == key then [c.value] else []
  {
    hide MakeKey;
    assert [c][..0] == [];
  }

  lemma {:induction false} SentMore(title: string, name: string, more: seq<string>, key: string)
    ensures SentTo(MoreCalls(title, name, more), key) == if MakeKey(title, name) == key then more else []
    decreases |more|
  {
    hide MakeKey, SentTo;
    if more == [] {
      SentNothing(key);
    } else {
      var c := Call(title, name, more[0]);
      SentToSplit([c], MoreCalls(title, name, more[1..]), key);
      SentOne(c, key);
      SentMore(title, name, more[1..], key);
    }
  }

  lemma CallsOfOne(title: string, e: Entry)
    ensures EntryCalls(title, [e])
         == [Call(title, e.name, e.first)] + MoreCalls(title, Cut(e.name, 50), e.more)
  {
    hide MoreCalls, Cut;
    assert [e][1..] == [];
  }

  lemma {:induction false} SentEntry(title: string, e: Entry, key: string)
    requires ShortEntry(e)
    ensures SentTo(EntryCalls(title, [e]), key) == if MakeKey(title, e.name) == key then [e.first] + e.more else []
  {
    hide MakeKey, MoreCalls, SentTo, EntryCalls;
    var c, more := Call(title, e.name, e.first), MoreCalls(title, Cut(e.name, 50), e.more);
    CallsOfOne(title, e);
    SentToSplit([c], more, key);
    SentOne(c, key);
    SentMore(title, Cut(e.name, 50), e.more, key);
    if e.more == [] {
      assert more == [] by {
        NoMoreCalls(title, Cut(e.name, 50));
      }
      SentNothing(key);
    }
  }

  lemma NoMoreCalls(title: string, name: string)
    ensures MoreCalls(title, name, []) == []
  {
  }

  // All that is sent to a key comes from the one entry that has it.
  lemma {:induction false} SentEntries(p: Part, key: string, hit: Option<nat>)
    requires ShortPart(p)
    requires hit.Some? ==> hit.value < |p.entries| && KeyOf(p, hit.value) == key
    requires forall i: nat :: i < |p.entries| && KeyOf(p, i) == key ==> hit == Some(i)
    ensures SentTo(EntryCalls(p.title, p.entries), key)
         == if hit.Some? then [p.entries[hit.value].first] + p.entries[hit.value].more else []
    decreases |p.entries|
  {
    hide SentTo, MakeKey;
    if p.entries == [] {
      SentNothing(key);
    } else {
      var e, rest := p.entries[0], Part(p.title, p.entries[1..]);
      assert EntryCalls(p.title, p.entries) == EntryCalls(p.title, [e]) + EntryCalls(p.title, rest.entries) by {
        assert [e][1..] == [];
      }
      SentToSplit(EntryCalls(p.title, [e]), EntryCalls(p.title, rest.entries), key);
      SentEntry(p.title, e, key);
      assert KeyOf(p, 0) == MakeKey(p.title, e.name);
      assert forall i: nat {:trigger KeyOf(rest, i)} :: i < |rest.entries| ==> KeyOf(rest, i) == KeyOf(p, i + 1);
      SentEntries(rest, key, if hit.Some? && hit.value > 0 then Some(hit.value - 1) else None);
    }
  }

  lemma {:induction false} SentParts(doc: seq<Part>, key: string, p: nat, i: nat)
    requires p <= |doc| && forall q :: 0 <= q < |doc| ==> ShortPart(doc[q])
    requires p < |doc| ==> i < |doc[p].entries| && KeyOf(doc[p], i) == key
    requires forall q: nat, j: nat :: q < |doc| && j < |doc[q].entries| && KeyOf(doc[q], j) == key ==> q == p && j == i
    ensures SentTo(PartCalls(doc), key)
         == if p < |doc| then [doc[p].entries[i].first] + doc[p].entries[i].more else []
    decreases |doc|
  {
    hide SentTo, MakeKey, EntryCalls;
    if doc == [] {
      SentNothing(key);
    } else {
      var rest := doc[1..];
      SentToSplit(EntryCalls(doc[0].title, doc[0].entries), PartCalls(rest), key);
      SentEntries(doc[0], key, if p == 0 then Some(i) else None);
      assert forall q: nat, j: nat {:trigger KeyOf(rest[q], j)} ::
        q < |rest| && j < |rest[q].entries| ==> KeyOf(rest[q], j) == KeyOf(doc[q + 1], j);
      SentParts(rest, key, if p == 0 then |rest| else p - 1, i);
    }
  }

  lemma {:induction false} PrintedLinesFit(l: Layout, doc: seq<Part>)
    requires forall i :: 0 <= i < |doc| ==> GoodPart(l, doc[i])
    ensures forall i :: 0 <= i < |PartLines(l, doc)| ==> FitsLine(PartLines(l, doc)[i])
    decreases |doc|
  {
    hide FitsLine, TitleLine;
    if doc != [] {
      EntryLinesFit(l, doc[0].entries);
      PrintedLinesFit(l, doc[1..]);
      assert GoodTitle(l, doc[0].title);
    }
  }

  lemma {:induction false} EntryLinesFit(l: Layout, entries: seq<Entry>)
    requires forall i :: 0 <= i < |entries| ==> GoodEntry(l, entries[i])
    ensures forall i :: 0 <= i < |EntryLines(l, entries)| ==> FitsLine(EntryLines(l, entries)[i])
    decreases |entries|
  {
    hide FitsLine, PairLine;
    if entries != [] {
      var e := entries[0];
      assert FitsLine(PairLine(l, e));
      MoreLinesFit(l, e.more);
      EntryLinesFit(l, entries[1..]);
    }
  }

  lemma {:induction false} MoreLinesFit(l: Layout, more: seq<string>)
    requires forall i :: 0 <= i < |more| ==> GoodMore(l, more[i])
    ensures forall i :: 0 <= i < |MoreLines(l, more)| ==> FitsLine(MoreLines(l, more)[i])
    decreases |more|
  {
    hide FitsLine, MoreLine;
    if more != [] {
      MoreLinesFit(l, more[1..]);
    }
  }

  /**
   Reading a printed document reports no error and gives back every value, whatever white space the lines
   end in and have around their separators. The lines of a value come back joined by newlines, except
   that an empty first line followed by others is lost.
   */
  lemma {:induction false} RoundTrip(l: Layout, doc: seq<Part>, p: nat, i: nat, default: string)
    requires GoodDocument(l, doc) && p < |doc| && i < |doc[p].entries|
    ensures Parse(ACCEPT, Print(l, doc)).error == 0
    ensures var e := doc[p].entries[i];
      var v := Lookup(DeliverAll(Parse(ACCEPT, Print(l, doc)).calls), doc[p].title, e.name, default);
      && v == Join(DropLeadingEmpty([e.first] + e.more))
      && (SplitAt(v, '\n') == [e.first] + e.more <==> e.first != "" || e.more == [])
  {
    hide GoodLayout;
    var e, key := doc[p].entries[i], KeyOf(doc[p], i);
    var calls := PartCalls(doc);
    PrintedLinesFit(l, doc);
    ReadLines(ACCEPT, INITIAL, PartLines(l, doc));
    ReadParts(l, INITIAL, doc);
    assert [] + calls == calls;
    SentParts(doc, key, p, i);
    StoredValue(calls, key);
    ValueSplits(l, e);
  }

  // The stored value splits into its lines again, or into one line less.
  lemma {:induction false} ValueSplits(l: Layout, e: Entry)
    requires GoodEntry(l, e)
    ensures SplitAt(Join(DropLeadingEmpty([e.first] + e.more)), '\n') == [e.first] + e.more
      <==> e.first != "" || e.more == []
  {
    hide SplitAt;
    var lines := [e.first] + e.more;
    assert lines[1..] == e.more;
    NoNewlines(l, e);
    JoinSplits(lines);
    if e.first == "" {
      if e.more == [] {
        SplitNone("", '\n');
      } else {
        assert GoodMore(l, e.more[0]);
        JoinSplits(e.more);
      }
    }
  }

  lemma NoNewlines(l: Layout, e: Entry)
    requires GoodEntry(l, e)
    ensures '\n' !in e.first && forall i :: 0 <= i < |e.more| ==> '\n' !in e.more[i]
  {
    var n := |e.name + l.before| + 1 + |l.after|;
    assert PairLine(l, e)[n..n + |e.first|] == e.first;
    forall i | 0 <= i < |e.more| ensures '\n' !in e.more[i] {
      assert GoodMore(l, e.more[i]);
      assert MoreLine(l, e.more[i])[|l.indent|..|l.indent| + |e.more[i]|] == e.more[i];
    }
  }

  // Joined lines are separated by newlines.
  lemma {:induction false} JoinSplits(lines: seq<string>)
    requires lines != [] && forall i :: 0 <= i < |lines| ==> '\n' !in lines[i]
    ensures SplitAt(Join(lines), '\n') == lines
    decreases |lines|
  {
    hide SplitAt;
    var n := |lines| - 1;
    if n == 0 {
      SplitNone(lines[0], '\n');
    } else {
      JoinSplits(lines[..n]);
      SplitLast(Join(lines[..n]), '\n', lines[n]);
      assert lines == lines[..n] + [lines[n]];
    }
  }
}
