/** Line-level guarantees of the INI parser: the reported line, files cut in two, appended comments. */
module IniLines {
  import opened CStrings
  import opened IniSpec
  import opened IniReader
  import opened IniProperties

  // ---- which line is reported ----

  // The pieces that successive fgets() calls return.
  function Pieces(rest: string): seq<string>
    decreases |rest|
  {
    if rest == "" then []
    else
      var n := FgetsLength(rest, 0);
      [Str(rest[..n], 0)] + Pieces(rest[n..])
  }

  function After(h: Handler, st: State, pieces: seq<string>): State {
    if pieces == [] then st
    else Step(h, After(h, st, pieces[..|pieces| - 1]), pieces[|pieces| - 1])
  }

  // A line is refused when it is malformed or when the callback rejects its pair.
  predicate Refused(h: Handler, st: State, raw: string) {
    match Classify(st.lineno == 0, st.prevName != "", raw)
    case Ignored => false
    case Section(_) => false
    case Malformed => true
    case Continuation(text) => !h(st.calls + [Call(st.section, st.prevName, text)])
    case Pair(name, value) => !h(st.calls + [Call(st.section, name, value)])
  }

  lemma {:induction false} AfterPrepend(h: Handler, st: State, first: string, pieces: seq<string>)
    ensures After(h, st, [first] + pieces) == After(h, Step(h, st, first), pieces)
    decreases |pieces|
  {
    hide Step;
    var all := [first] + pieces;
    if pieces == [] {
      assert all[..0] == [];
    } else {
      assert all[..|all| - 1] == [first] + pieces[..|pieces| - 1];
      AfterPrepend(h, st, first, pieces[..|pieces| - 1]);
    }
  }

  lemma {:induction false} ParseIsAfter(h: Handler, st: State, rest: string)
    ensures ParseFrom(h, st, rest) == After(h, st, Pieces(rest))
    decreases |rest|
  {
    hide Step, Str, FgetsLength;
    if rest != "" {
      var n := FgetsLength(rest, 0);
      var raw := Str(rest[..n], 0);
      ParseIsAfter(h, Step(h, st, raw), rest[n..]);
      AfterPrepend(h, st, raw, Pieces(rest[n..]));
    }
  }

  // The first refused line, counted from 1, or 0.
  ghost predicate FirstRefused(h: Handler, pieces: seq<string>, error: nat) {
    && error <= |pieces|
    && (error > 0 ==> Refused(h, After(h, INITIAL, pieces[..error - 1]), pieces[error - 1]))
    && forall k: nat :: k < (if error > 0 then error - 1 else |pieces|)
                        ==> !Refused(h, After(h, INITIAL, pieces[..k]), pieces[k])
  }

  lemma StepError(h: Handler, st: State, raw: string)
    ensures Step(h, st, raw).error == if st.error == 0 && Refused(h, st, raw) then st.lineno + 1 else st.error
  {
    hide Classify;
  }

  lemma {:induction false} AfterReports(h: Handler, pieces: seq<string>)
    ensures After(h, INITIAL, pieces).lineno == |pieces|
    ensures FirstRefused(h, pieces, After(h, INITIAL, pieces).error)
  {
    hide Step, Refused, FirstRefused;
    if pieces == [] {
      NothingRefused(h);
    } else {
      var init, last := pieces[..|pieces| - 1], pieces[|pieces| - 1];
      AfterReports(h, init);
      var st := After(h, INITIAL, init);
      CountsLines(h, st, last);
      StepError(h, st, last);
      OneMoreLine(h, init, last, st.error);
      assert init + [last] == pieces;
    }
  }

  lemma NothingRefused(h: Handler)
    ensures FirstRefused(h, [], 0)
  {
    hide Refused;
  }

  lemma {:induction false} OneMoreLine(h: Handler, init: seq<string>, last: string, error: nat)
    requires FirstRefused(h, init, error)
    ensures FirstRefused(h, init + [last],
      if error == 0 && Refused(h, After(h, INITIAL, init), last) then |init| + 1 else error)
  {
    hide After, Refused;
    var pieces := init + [last];
    assert forall k: nat :: k <= |init| ==> pieces[..k] == init[..k];
    assert init[..|init|] == init;
    assert forall k: nat :: k < |init| ==> pieces[k] == init[k];
  }

  /** The parser reports the first refused line of the file, whatever the callback does, or 0. */
  lemma {:induction false} ReportsFirstRefusedLine(h: Handler, file: string)
    ensures FirstRefused(h, Pieces(file), Parse(h, file).error)
  {
    ParseIsAfter(h, INITIAL, file);
    AfterReports(h, Pieces(file));
  }

  // ---- files cut at a newline ----

  lemma {:induction false} ParseSplit(h: Handler, st: State, pre: string, rest: string)
    requires pre == "" || pre[|pre| - 1] == '\n'
    ensures ParseFrom(h, st, pre + rest) == ParseFrom(h, ParseFrom(h, st, pre), rest)
    decreases |pre|
  {
    hide Step, Str, FgetsLength;
    if pre == "" {
      assert pre + rest == rest;
    } else {
      var n := FgetsLength(pre, 0);
      var all := pre + rest;
      assert FgetsLength(all, 0) == n by {
        var m := FgetsLength(all, 0);
        assert forall i :: 0 <= i < |pre| ==> all[i] == pre[i];
        assert all[|pre| - 1] == '\n';
      }
      assert all[..n] == pre[..n] && all[n..] == pre[n..] + rest;
      ParseSplit(h, Step(h, st, Str(pre[..n], 0)), pre[n..], rest);
    }
  }

  // Calls are never taken back.
  lemma {:induction false} CallsGrow(h: Handler, st: State, rest: string)
    ensures st.calls <= ParseFrom(h, st, rest).calls
    decreases |rest|
  {
    hide Step, Str, FgetsLength;
    if rest != "" {
      var n := FgetsLength(rest, 0);
      var raw := Str(rest[..n], 0);
      StepGrows(h, st, raw);
      CallsGrow(h, Step(h, st, raw), rest[n..]);
    }
  }

  lemma StepGrows(h: Handler, st: State, raw: string)
    ensures st.calls <= Step(h, st, raw).calls
  {
    hide Classify;
  }

  // ---- appended comments ----

  // `line` followed by white space `w`, a ';' and any text.
  function Commented(line: string, w: char, comment: string): string {
    line + ([w] + ";" + comment)
  }

  predicate Blank(gap: string) {
    gap != "" && forall i :: 0 <= i < |gap| ==> IsSpace(gap[i])
  }

  // Appending to a trimmed text leaves its searches alone, up to the new comment.
  lemma {:induction false} StopBeforeComment(text: string, gap: string, comment: string, c: char)
    requires Blank(gap) && c != ';' && !IsSpace(c)
    ensures Stop(text + gap + ";" + comment, c, 0)
         == if Stop(text, c, 0) < |text| then Stop(text, c, 0) else |text| + |gap|
  {
    hide Stop;
    var all, n := text + gap + ";" + comment, Stop(text, c, 0);
    assert forall i :: 0 <= i < |text| ==> all[i] == text[i];
    assert forall j: nat :: j < |text| ==> (CommentAt(all, j) <==> CommentAt(text, j));
    if n < |text| {
      StopIs(all, c, n);
    } else {
      assert forall i :: 0 <= i < |gap| ==> all[|text| + i] == gap[i];
      assert all[|text| + |gap|] == ';';
      StopIs(all, c, |text| + |gap|);
    }
  }

  lemma {:induction false} ValueBeforeComment(tail: string, gap: string, comment: string)
    requires Blank(gap)
    requires Value(tail) != "" && NUL !in tail
    ensures Value(tail + gap + ";" + comment) == Value(tail)
  {
    hide Stop, Indent, TrimRight;
    var k := Indent(tail);
    var v, all := tail[k..], tail + gap + ";" + comment;
    assert k < |tail|;
    assert forall i :: 0 <= i < |tail| ==> all[i] == tail[i];
    IndentIs(all, k);
    assert all[k..] == v + gap + ";" + comment;
    StopBeforeComment(v, gap, comment, NUL);
    var n := Stop(v, NUL, 0);
    if n < |v| {
      assert all[k..][..n] == v[..n];
    } else {
      assert all[k..][..|v| + |gap|] == v + gap && v[..n] == v;
      var t := TrimRight(v);
      TrimmedIs(v + gap, t);
    }
  }

  // Where there is no value, the comment takes its place.
  lemma {:induction false} CommentIsValue(gap: string, comment: string)
    requires Blank(gap)
    ensures Value(gap + ";" + comment) != ""
  {
    hide Stop, Indent, TrimRight;
    var all := gap + ";" + comment;
    assert all[|gap|] == ';' && forall i :: 0 <= i < |gap| ==> all[i] == gap[i];
    IndentIs(all, |gap|);
    var v := all[|gap|..];
    assert v[0] == ';';
    var n := Stop(v, NUL, 0);
    assert n > 0 && v[..n][0] == ';' && !IsSpace(v[..n][0]);
  }

  // A trimmed text has an empty value only if nothing follows its separator.
  lemma {:induction false} EmptyValue(tail: string)
    requires NUL !in tail && (tail != "" ==> !IsSpace(tail[|tail| - 1]))
    ensures Value(tail) == "" <==> tail == ""
  {
    hide Stop, Indent, TrimRight;
    var k := Indent(tail);
    var v := tail[k..];
    var n := Stop(v, NUL, 0);
    if tail != "" {
      assert k < |tail| && v[0] == tail[k];
      assert n > 0 && v[..n][0] == v[0] && !IsSpace(v[..n][0]);
    } else {
      assert v == "" && v[..n] == "";
    }
  }

  lemma {:induction false} PairBeforeComment(text: string, gap: string, comment: string)
    requires Blank(gap) && HasSeparator(text)
    ensures var e := Separator(text);
      PairOrMalformed(text + gap + ";" + comment)
      == Pair(TrimRight(text[..e]), Value(text[e + 1..] + gap + ";" + comment))
  {
    hide Stop, Value, TrimRight;
    var all := text + gap + ";" + comment;
    StopBeforeComment(text, gap, comment, '=');
    StopBeforeComment(text, gap, comment, ':');
    var e := Separator(text);
    assert all[|text| + |gap|] == ';';
    assert Separator(all) == e;
    assert all[..e] == text[..e];
    assert all[e + 1..] == text[e + 1..] + gap + ";" + comment;
  }

  // A commented line trims to its own text, a gap and the comment.
  lemma {:induction false} CommentedText(s: string, w: char, comment: string) returns (gap: string, rest: string)
    requires IsSpace(w) && TrimRight(s + "\n") != ""
    ensures Blank(gap)
    ensures TrimRight(Commented(s, w, comment)) == TrimRight(s + "\n") + (gap + ";" + rest)
    ensures TrimRight(s + "\n") <= s
  {
    hide TrimRight;
    var t, all := TrimRight(s + "\n"), Commented(s, w, comment);
    var r := TrimRight(all);
    assert all[|s| + 1] == ';';
    assert (s + "\n")[|s|] == '\n';
    assert t == (s + "\n")[..|t|] && r == all[..|r|];
    assert forall i :: |t| <= i < |s| ==> IsSpace((s + "\n")[i]);
    gap, rest := s[|t|..] + [w], r[|s| + 2..];
    assert forall i :: 0 <= i < |s| - |t| ==> gap[i] == (s + "\n")[|t| + i];
    assert r == s + [w] + ";" + rest;
  }

  lemma {:induction false} IndentBeforeComment(body: string, more: string)
    requires TrimRight(body) == body != ""
    requires Indent(body) < |body|
    ensures Indent(body + more) == Indent(body)
    ensures (body + more)[Indent(body)..] == body[Indent(body)..] + more
  {
    hide TrimRight, Indent;
    assert forall i :: 0 <= i < |body| ==> (body + more)[i] == body[i];
    IndentIs(body + more, Indent(body));
  }

  // The line remains a pair of the same name, and keeps its value unless that is empty.
  predicate SamePair(said: Line, now: Line) {
    said.Pair? && now.Pair? && now.name == said.name && (now.value == said.value <==> said.value != "")
  }

  lemma {:induction false} SayBeforeComment(continues: bool, text: string, gap: string, comment: string)
    requires Blank(gap) && NUL !in text && (text != "" ==> !IsSpace(text[|text| - 1]))
    requires Say(continues, text).Pair?
    ensures SamePair(Say(continues, text), Say(continues, text + (gap + ";" + comment)))
  {
    hide SectionOrMalformed, Separator, Value, TrimRight, Stop;
    SectionIsNoPair(text);
    assert text + gap + ";" + comment == text + (gap + ";" + comment);
    PairBeforeComment(text, gap, comment);
    var tail := text[Separator(text) + 1..];
    EmptyValue(tail);
    if tail == "" {
      CommentIsValue(gap, comment);
      assert tail + gap + ";" + comment == gap + ";" + comment;
    } else {
      ValueBeforeComment(tail, gap, comment);
    }
  }

  lemma SectionIsNoPair(text: string)
    requires text != ""
    ensures !SectionOrMalformed(text).Pair?
  {
  }

  // What a line trims to, whatever follows it: the mark is skipped, then the indentation.
  lemma {:induction false} SkippedLine(first: bool, line: string, tail: string) returns (skip: nat)
    requires tail != "" && IsSpace(tail[0])
    ensures skip == (if first && BOM <= line then 3 else 0) && skip <= |line|
    ensures var body := TrimRight(line[skip..] + tail);
      && Text(first, line + tail) == body[Indent(body)..]
      && (Indent(body) < |body| ==>
            (|Text(first, line + tail)| < |TrimRight(line + tail)| <==> skip + Indent(body) > 0))
  {
    hide TrimRight, Indent;
    skip := if first && BOM <= line then 3 else 0;
    BomSurvives(line, tail);
    assert (line + tail)[skip..] == line[skip..] + tail;
    TrimRightBody(line + tail, skip);
  }

  lemma {:induction false} CommentedBody(s: string, w: char, comment: string) returns (gap: string, rest: string)
    requires IsSpace(w) && NUL !in s && Indent(TrimRight(s + "\n")) < |TrimRight(s + "\n")|
    ensures var body, body' := TrimRight(s + "\n"), TrimRight(Commented(s, w, comment));
      && Indent(body') == Indent(body) < |body'|
      && body'[Indent(body')..] == body[Indent(body)..] + (gap + ";" + rest)
      && Blank(gap) && NUL !in body[Indent(body)..] && !IsSpace(body[|body| - 1])
  {
    hide TrimRight, Indent, Blank, Commented;
    var body := TrimRight(s + "\n");
    gap, rest := CommentedText(s, w, comment);
    TrimmedIs(body, body);
    IndentBeforeComment(body, gap + ";" + rest);
    assert NUL !in body[Indent(body)..] by {
      assert body[Indent(body)..] == s[Indent(body)..|body|];
    }
  }

  lemma {:induction false} CommentedLineText(first: bool, line: string, w: char, comment: string)
    returns (gap: string, rest: string)
    requires IsSpace(w) && NUL !in line && Text(first, line + "\n") != ""
    ensures Blank(gap)
    ensures var raw, raw' := line + "\n", Commented(line, w, comment);
      var text, text' := Text(first, raw), Text(first, raw');
      && text' == text + (gap + ";" + rest) && NUL !in text && !IsSpace(text[|text| - 1])
      && (|text| < |TrimRight(raw)| <==> |text'| < |TrimRight(raw')|)
  {
    hide TrimRight, Indent, Blank, Text;
    var skip := SkippedLine(first, line, "\n");
    var skip' := SkippedLine(first, line, [w] + ";" + comment);
    gap, rest := CommentedBody(line[skip..], w, comment);
  }

  /**
   White space, ';' and any text after a pair leave it as it is exactly if it has a value; otherwise
   the appended text becomes the value.
   */
  lemma {:induction false} CommentChangesNoLine(first: bool, open: bool, line: string, w: char, comment: string)
    requires White(w) && NUL !in line && Classify(first, open, line + "\n").Pair?
    ensures SamePair(Classify(first, open, line + "\n"), Classify(first, open, Commented(line, w, comment)))
  {
    hide TrimRight, Text, Say, SamePair;
    SpaceIsWhite(w);
    EmptySaysNothing(first, open, line + "\n");
    var gap, rest := CommentedLineText(first, line, w, comment);
    var text := Text(first, line + "\n");
    SayBeforeComment(open && |text| < |TrimRight(line + "\n")|, text, gap, rest);
  }

  lemma EmptySaysNothing(first: bool, open: bool, raw: string)
    ensures Text(first, raw) == "" ==> Classify(first, open, raw) == Ignored
  {
  }

  lemma BomSurvives(line: string, a: string)
    requires a != "" && IsSpace(a[0])
    ensures BOM <= line + a <==> BOM <= line
  {
    assert (line + a)[|line|] == a[0];
    assert forall i :: 0 <= i < |line| ==> (line + a)[i] == line[i];
  }

  /** The same inside a file whose lines fit the buffer: the parse is the same exactly if the pair has a value. */
  lemma {:induction false} CommentChangesNothing(h: Handler, pre: string, line: string, w: char,
                                                 comment: string, post: string)
    requires pre == "" || pre[|pre| - 1] == '\n'
    requires White(w) && FitsLine(line) && FitsLine(Commented(line, w, comment))
    requires var st := Parse(h, pre); Classify(st.lineno == 0, st.prevName != "", line + "\n").Pair?
    ensures var st := Parse(h, pre);
      Parse(h, pre + (Commented(line, w, comment) + "\n" + post)) == Parse(h, pre + (line + "\n" + post))
      <==> Classify(st.lineno == 0, st.prevName != "", line + "\n").value != ""
  {
    hide Classify, ParseFrom;
    var st := Parse(h, pre);
    ParseSplit(h, INITIAL, pre, line + "\n" + post);
    ParseSplit(h, INITIAL, pre, Commented(line, w, comment) + "\n" + post);
    ReadLine(h, st, line, post);
    ReadLine(h, st, Commented(line, w, comment), post);
    assert Commented(line, w, comment) + "\n" == Commented(line, w, comment + "\n");
    CommentChangesNoLine(st.lineno == 0, st.prevName != "", line, w, comment + "\n");
    PairsApart(h, st, line + "\n", Commented(line, w, comment) + "\n", post);
  }

  // Two pairs that differ in their values only make different calls for good.
  lemma {:induction false} PairsApart(h: Handler, st: State, a: string, b: string, rest: string)
    requires var first, open := st.lineno == 0, st.prevName != "";
      SamePair(Classify(first, open, a), Classify(first, open, b))
    ensures ParseFrom(h, Step(h, st, b), rest) == ParseFrom(h, Step(h, st, a), rest)
      <==> Classify(st.lineno == 0, st.prevName != "", a).value != ""
  {
    hide Classify, ParseFrom;
    CallsGrow(h, Step(h, st, a), rest);
    CallsGrow(h, Step(h, st, b), rest);
    var n := |st.calls|;
    assert ParseFrom(h, Step(h, st, a), rest).calls[n] == Step(h, st, a).calls[n];
    assert ParseFrom(h, Step(h, st, b), rest).calls[n] == Step(h, st, b).calls[n];
  }

  // ---- lines that say nothing ----

  predicate IsNote(note: string) {
    note == "" || note[0] == ';' || note[0] == '#'
  }

  // A line of white space, or of white space and a comment.
  lemma {:induction false} NoteSays(first: bool, open: bool, gap: string, note: string)
    requires Gap(gap) && IsNote(note)
    ensures Classify(first, open, gap + note + "\n") == Ignored
  {
    hide TrimRight, Indent;
    var raw := gap + note + "\n";
    assert raw[0] == if gap != "" then gap[0] else if note != "" then note[0] else '\n';
    assert !(BOM <= raw);
    var body := TrimRight(raw);
    assert forall i :: 0 <= i < |gap| ==> raw[i] == gap[i];
    if note == "" {
      TrimmedIs(raw, "");
      IndentIs("", 0);
    } else {
      assert raw[|gap|] == note[0] && !IsSpace(raw[|gap|]);
      assert |body| > |gap|;
      IndentIs(body, |gap|);
      assert body[|gap|..][0] == note[0];
    }
  }

  lemma MarkOnFirstLineOnly(open: bool, raw: string)
    requires !(BOM <= raw)
    ensures Classify(true, open, raw) == Classify(false, open, raw)
  {
    hide TrimRight, Indent, Say;
  }

  // The same parser one line later; `base` lines were read before the two parted.
  ghost predicate Behind(s: State, t: State, base: nat) {
    && t.lineno == s.lineno + 1 && base <= s.lineno
    && t.section == s.section && t.prevName == s.prevName && t.calls == s.calls
    && t.error == if s.error <= base then s.error else s.error + 1
  }

  lemma {:induction false} StepBehind(h: Handler, s: State, t: State, base: nat, raw: string)
    requires Behind(s, t, base) && (s.lineno > 0 || !(BOM <= raw))
    ensures Behind(Step(h, s, raw), Step(h, t, raw), base)
  {
    hide Classify, Apply;
    if s.lineno == 0 {
      MarkOnFirstLineOnly(s.prevName != "", raw);
    }
    ApplyBehind(h, s.(lineno := s.lineno + 1), t.(lineno := t.lineno + 1), base,
                Classify(s.lineno == 0, s.prevName != "", raw));
  }

  lemma ApplyBehind(h: Handler, s: State, t: State, base: nat, line: Line)
    requires Behind(s, t, base) && base < s.lineno
    ensures Behind(Apply(h, s, line), Apply(h, t, line), base)
  {
    hide Cut;
  }

  lemma {:induction false} StaysBehind(h: Handler, s: State, t: State, base: nat, rest: string)
    requires Behind(s, t, base) && (s.lineno > 0 || !(BOM <= rest))
    ensures Behind(ParseFrom(h, s, rest), ParseFrom(h, t, rest), base)
    decreases |rest|
  {
    hide Step, Str, FgetsLength, Behind;
    if rest != "" {
      var n := FgetsLength(rest, 0);
      var raw := Str(rest[..n], 0);
      StepBehind(h, s, t, base, raw);
      CountsLines(h, s, raw);
      StaysBehind(h, Step(h, s, raw), Step(h, t, raw), base, rest[n..]);
    }
  }

  lemma {:induction false} ErrorWithinFile(h: Handler, file: string)
    ensures Parse(h, file).error <= Parse(h, file).lineno
  {
    hide After, Pieces;
    ParseIsAfter(h, INITIAL, file);
    AfterReports(h, Pieces(file));
  }

  /**
   A line of white space, or of white space and a comment, may be put anywhere, also between a name and
   its continuation lines: the calls stay the same, and an error further on is reported one line later.
   */
  lemma {:induction false} NoteChangesNothing(h: Handler, pre: string, gap: string, note: string, post: string)
    requires pre == "" || pre[|pre| - 1] == '\n'
    requires Gap(gap) && IsNote(note) && FitsLine(gap + note)
    requires pre != "" || !(BOM <= post)
    ensures var now, before := Parse(h, pre + (gap + note + "\n" + post)), Parse(h, pre + post);
      && now.calls == before.calls
      && now.error == if before.error <= Parse(h, pre).lineno then before.error else before.error + 1
  {
    hide Classify, ParseFrom, Gap, IsNote, FitsLine, Pieces;
    var st := Parse(h, pre);
    ParseSplit(h, INITIAL, pre, gap + note + "\n" + post);
    ParseSplit(h, INITIAL, pre, post);
    ReadLine(h, st, gap + note, post);
    NoteSays(st.lineno == 0, st.prevName != "", gap, note);
    ErrorWithinFile(h, pre);
    LinesRead(h, pre);
    StaysBehind(h, st, Step(h, st, gap + note + "\n"), st.lineno, post);
  }

  lemma LinesRead(h: Handler, file: string)
    ensures file != "" ==> Parse(h, file).lineno > 0
  {
    hide After, Pieces;
    ParseIsAfter(h, INITIAL, file);
    AfterReports(h, Pieces(file));
    PiecesOf(file);
  }

  lemma PiecesOf(file: string)
    ensures file != "" ==> |Pieces(file)| > 0
  {
    hide Str, FgetsLength;
  }

  // ---- lines that say too little ----

  // What a line says up to a comment: `tail` is empty or the comment with the white space in front.
  ghost predicate CommentOrNothing(tail: string) {
    tail == "" || (|tail| >= 2 && White(tail[0]) && tail[1] == ';')
  }

  lemma {:induction false} TrimmedBeforeComment(text: string, tail: string) returns (kept: string)
    requires Trimmed(text) && text != "" && CommentOrNothing(tail)
    ensures TrimRight(text + tail + "\n") == text + kept && CommentOrNothing(kept)
  {
    hide TrimRight;
    var all := text + tail + "\n";
    var r := TrimRight(all);
    assert r == all[..|r|];
    if tail == "" {
      kept := "";
      assert all == text + "\n";
      TrimmedIs(all, text);
    } else {
      assert all[|text|] == tail[0] && all[|text| + 1] == ';';
      assert |r| >= |text| + 2;
      kept := all[|text|..|r|];
      assert r == text + kept;
    }
  }

  // Nothing behind a comment counts.
  lemma {:induction false} StopMisses(text: string, kept: string, c: char)
    requires NoComment(text) && CommentOrNothing(kept) && c !in text && c != ';' && !White(c)
    ensures var e := Stop(text + kept, c, 0); e == |text + kept| || (text + kept)[e] != c
  {
    hide Stop;
    var all := text + kept;
    forall j: nat | j < |text| ensures all[j] != c && !CommentAt(all, j) {
      assert all[j] == text[j] && (j > 0 ==> all[j - 1] == text[j - 1]);
    }
    if kept == "" {
      StopIs(all, c, |all|);
    } else {
      assert all[|text|] == kept[0] && all[|text| + 1] == ';';
      StopIs(all, c, |text| + 1);
    }
  }

  /**
   A line is malformed if nothing in front of a comment separates a name from a value, or if it
   starts with '[' and no ']' comes in front of a comment.
   */
  lemma {:induction false} SaysTooLittle(open: bool, text: string, tail: string)
    requires Trimmed(text) && text != "" && NoComment(text) && CommentOrNothing(tail)
    requires text[0] != ';' && text[0] != '#'
    requires if text[0] == '[' then ']' !in text else '=' !in text && ':' !in text
    ensures Classify(false, open, text + tail + "\n") == Malformed
  {
    hide Stop, TrimRight, Indent, CommentOrNothing;
    var kept := TrimmedBeforeComment(text, tail);
    var all := text + kept;
    assert all[0] == text[0];
    IndentIs(all, 0);
    assert all[0..] == all;
    if text[0] == '[' {
      assert all[1..] == text[1..] + kept;
      assert NoComment(text[1..]);
      StopMisses(text[1..], kept, ']');
    } else {
      StopMisses(text, kept, '=');
      StopMisses(text, kept, ':');
    }
  }

  /** A malformed line only counts as an error: the section and the open name stay. */
  lemma {:induction false} TooLittleStep(h: Handler, st: State, text: string, tail: string)
    requires Trimmed(text) && text != "" && NoComment(text) && CommentOrNothing(tail)
    requires text[0] != ';' && text[0] != '#'
    requires if text[0] == '[' then ']' !in text else '=' !in text && ':' !in text
    requires st.lineno > 0
    ensures Step(h, st, text + tail + "\n")
         == st.(lineno := st.lineno + 1, error := if st.error > 0 then st.error else st.lineno + 1)
  {
    hide Classify, CommentOrNothing;
    SaysTooLittle(st.prevName != "", text, tail);
  }

  /** An indented pair behind a section title is a pair, whatever name was open before. */
  lemma {:induction false} TitleCloses(h: Handler, l: Layout, st: State, title: string, e: Entry)
    requires GoodLayout(l) && GoodTitle(l, title) && GoodEntry(l, e)
    ensures var t := Step(h, st, TitleLine(l, title) + "\n");
      Step(h, t, l.indent + PairLine(l, e) + "\n").calls == st.calls + [Call(Cut(title, 50), e.name, e.first)]
  {
    hide Classify, Cut, GoodLayout, GoodTitle, GoodEntry;
    TitleSays(l, title, st.lineno == 0, st.prevName != "");
    IndentedPairSays(l, e);
  }

  lemma {:induction false} IndentedPairSays(l: Layout, e: Entry)
    requires GoodLayout(l) && GoodEntry(l, e)
    ensures Classify(false, false, l.indent + PairLine(l, e) + "\n") == Pair(e.name, e.first)
  {
    hide TrimRight, Indent, Say, GoodEntry;
    var line := PairLine(l, e) + "\n";
    EntrySays(l, e, false);
    var raw := l.indent + line;
    assert l.indent + PairLine(l, e) + "\n" == raw;
    PairStart(l, e);
    SkipGap(l.indent, line);
  }

  lemma PairStart(l: Layout, e: Entry)
    requires GoodEntry(l, e)
    ensures PairLine(l, e) != "" && !White(PairLine(l, e)[0])
  {
  }

  lemma {:induction false} SkipGap(gap: string, line: string)
    requires Gap(gap) && line != "" && !White(line[0])
    ensures Text(false, gap + line) == Text(false, line)
  {
    hide TrimRight, Indent;
    var raw, body := gap + line, TrimRight(line);
    assert body == line[..|body|] && body != "" && body[0] == line[0];
    assert forall i :: 0 <= i < |line| ==> raw[|gap| + i] == line[i];
    assert raw[..|gap + body|] == gap + body;
    TrimmedIs(raw, gap + body);
    assert forall i :: 0 <= i < |gap| ==> (gap + body)[i] == gap[i];
    IndentIs(gap + body, |gap|);
    IndentIs(body, 0);
    assert (gap + body)[|gap|..] == body == body[0..];
  }
}
