/** The byte order mark in front of an INI file: exactly when it changes nothing. */
module IniMarks {
  import opened CStrings
  import opened IniSpec
  import opened IniReader
  import opened IniProperties
  import opened IniLines

  // ---- one line ----

  // A line that a mark in front leaves as it is: one without a mark of its own, or one that is malformed
  // for want of a separator. "[a=b" is malformed but has a separator.
  predicate Harmless(raw: string) {
    !(BOM <= raw) || (Classify(true, false, raw).Malformed? && !HasSeparator(Text(true, raw)))
  }

  // A second mark is not skipped: it stays in front of the text.
  lemma {:induction false} TwiceMarked(raw: string) returns (gap: string)
    requires BOM <= raw
    ensures Text(true, BOM + raw) == BOM + gap + Text(true, raw)
    ensures forall i :: 0 <= i < |gap| ==> IsSpace(gap[i])
    ensures Text(true, raw) != "" ==> !IsSpace(Text(true, raw)[0])
  {
    hide TrimRight, Indent, Text;
    assert (BOM + raw)[3..] == raw;
    var x := raw[3..];
    var body := TrimRight(x);
    assert raw == BOM + x;
    TrimBehindMark(x);
    MarkedBody(raw);
    MarkedBody(BOM + raw);
    gap := body[..Indent(body)];
    IndentIs(BOM + body, 0);
    assert BOM + body == BOM + gap + body[Indent(body)..];
    assert (BOM + body)[0..] == BOM + body;
  }

  lemma MarkedBody(raw: string)
    requires BOM <= raw
    ensures var body := TrimRight(raw[3..]); Text(true, raw) == body[Indent(body)..]
  {
    hide TrimRight, Indent;
  }

  lemma TrimBehindMark(x: string)
    ensures TrimRight(BOM + x) == BOM + TrimRight(x)
  {
    hide TrimRight;
    var all, body := BOM + x, TrimRight(x);
    assert body == x[..|body|] && all[..3 + |body|] == BOM + body;
    assert forall i :: 0 <= i < |x| ==> all[3 + i] == x[i];
    TrimmedIs(all, BOM + body);
  }

  // Without a separator or ';' in front, a search finds the same, that much later.
  lemma {:induction false} StopBehind(pre: string, text: string, c: char)
    requires c !in pre && ';' !in pre && c != ';' && (text != "" ==> text[0] != ';')
    ensures Stop(pre + text, c, 0) == |pre| + Stop(text, c, 0)
  {
    hide Stop;
    var all, n := pre + text, Stop(text, c, 0);
    assert forall i :: 0 <= i < |text| ==> all[|pre| + i] == text[i];
    forall j: nat | j < |pre| + n ensures all[j] != c && !CommentAt(all, j) {
      if j < |pre| {
        assert all[j] == pre[j];
      } else {
        assert all[j] == text[j - |pre|] && !CommentAt(text, j - |pre|);
      }
    }
    StopIs(all, c, |pre| + n);
  }

  lemma {:induction false} SeparatorBehind(pre: string, text: string)
    requires '=' !in pre && ':' !in pre && ';' !in pre && (text != "" ==> text[0] != ';')
    ensures Separator(pre + text) == |pre| + Separator(text)
    ensures HasSeparator(pre + text) <==> HasSeparator(text)
  {
    hide Stop;
    var e := Stop(text, '=', 0);
    StopBehind(pre, text, '=');
    StopBehind(pre, text, ':');
    assert forall i :: 0 <= i < |text| ==> (pre + text)[|pre| + i] == text[i];
  }

  // The mark becomes part of the name.
  lemma {:induction false} NameGrows(gap: string, head: string)
    ensures TrimRight(BOM + gap + head) != TrimRight(head) && TrimRight(BOM + gap + head) != ""
  {
    hide TrimRight;
    var all, t := BOM + gap + head, TrimRight(head);
    assert all[0] == BOM[0] && !IsSpace(all[0]);
    if t != "" {
      TrimBehind(BOM + gap, head);
    }
  }

  lemma TrimBehind(pre: string, head: string)
    requires TrimRight(head) != ""
    ensures TrimRight(pre + head) == pre + TrimRight(head)
  {
    hide TrimRight;
    var all, t := pre + head, TrimRight(head);
    assert forall i :: 0 <= i < |head| ==> all[|pre| + i] == head[i];
    assert t == head[..|t|] && all[..|pre| + |t|] == pre + t;
    TrimmedIs(all, pre + t);
  }

  // What a second mark makes of a line: a pair where there is a separator, or else a malformed line.
  lemma {:induction false} MarkedTwiceSays(raw: string)
    requires BOM <= raw
    ensures var now, text := Classify(true, false, BOM + raw), Text(true, raw);
      && (now.Malformed? || (now.Pair? && now.name != ""))
      && (text != "" && text[0] != ';' ==> (now.Pair? <==> HasSeparator(text)))
      && (text != "" && text[0] != ';' && now.Pair? && Classify(true, false, raw).Pair?
          ==> now.name != Classify(true, false, raw).name)
  {
    hide Text, TrimRight, Value, Separator, HasSeparator, SectionOrMalformed;
    var gap := TwiceMarked(raw);
    var text, all := Text(true, raw), Text(true, BOM + raw);
    assert all[0] == BOM[0];
    MarkInName(all);
    if text != "" && text[0] != ';' {
      NoSeparatorIn(gap);
      SeparatorBehind(BOM + gap, text);
      SplitPair(text);
      if HasSeparator(text) {
        assert all == BOM + gap + text;
        assert all[..Separator(all)] == BOM + gap + text[..Separator(text)];
        NameGrows(gap, text[..Separator(text)]);
        SectionIsNoPair(text);
      }
    }
  }

  lemma SplitPair(text: string)
    ensures HasSeparator(text) ==> Separator(text) < |text|
  {
    hide Separator;
  }

  // The name of a pair that starts with a mark is not empty.
  lemma {:induction false} MarkInName(all: string)
    requires BOM <= all
    ensures HasSeparator(all) ==> Separator(all) < |all| && TrimRight(all[..Separator(all)]) != ""
  {
    hide Separator, TrimRight;
    var e := Separator(all);
    if HasSeparator(all) {
      assert all[0] == BOM[0] && all[1] == BOM[1] && all[2] == BOM[2];
      assert all[..e] == BOM + "" + all[3..e];
      NameGrows("", all[3..e]);
    }
  }

  lemma NoSeparatorIn(gap: string)
    requires forall i :: 0 <= i < |gap| ==> IsSpace(gap[i])
    ensures '=' !in BOM + gap && ':' !in BOM + gap && ';' !in BOM + gap
  {
  }

  lemma {:induction false} UnmarkedSays(raw: string)
    requires !(BOM <= raw)
    ensures Classify(true, false, BOM + raw) == Classify(true, false, raw)
  {
    hide TrimRight, Indent, Say;
    assert (BOM + raw)[3..] == raw;
  }

  // How the two lines differ where they do.
  ghost predicate Apart(now: Line, said: Line) {
    || (now.Malformed? && (said.Ignored? || said.Section?))
    || (now.Pair? && now.name != "" && (said.Pair? ==> said.name != now.name) && !said.Continuation?)
  }

  lemma {:induction false} HarmlessOrApart(raw: string)
    ensures var now, said := Classify(true, false, BOM + raw), Classify(true, false, raw);
      if Harmless(raw) then now == said else Apart(now, said)
  {
    hide Text, TrimRight, Value, Stop, SectionOrMalformed, PairOrMalformed;
    if BOM <= raw {
      MarkedTwiceSays(raw);
      SaysWithout(Text(true, raw));
    } else {
      UnmarkedSays(raw);
    }
  }

  lemma SaysWithout(text: string)
    ensures text == "" || text[0] == ';' ==> Say(false, text) == Ignored
    ensures !Say(false, text).Continuation?
    ensures Say(false, text).Pair? ==> HasSeparator(text)
    ensures text != "" && text[0] == '[' ==> !Say(false, text).Pair?
  {
    hide Stop, Value, TrimRight;
  }

  /** A mark in front of a line changes nothing exactly if the line is harmless. */
  lemma {:induction false} MarkChangesNoLine(raw: string)
    ensures Classify(true, false, BOM + raw) == Classify(true, false, raw) <==> Harmless(raw)
  {
    hide Classify, Harmless;
    HarmlessOrApart(raw);
  }

  /** On any line but the first a mark is text, and the line a pair, a section or nothing only behind it. */
  lemma {:induction false} MarkLaterIsText(open: bool, x: string)
    ensures Text(false, BOM + x) == BOM + TrimRight(x)
    ensures Classify(false, open, BOM + x) == PairOrMalformed(BOM + TrimRight(x))
  {
    hide TrimRight, Indent, PairOrMalformed;
    TrimBehindMark(x);
    IndentIs(BOM + TrimRight(x), 0);
    assert (BOM + TrimRight(x))[0..] == BOM + TrimRight(x);
  }

  // ---- the rest of the file ----

  // An error is kept, and a later one has a later line.
  lemma {:induction false} ErrorStays(h: Handler, st: State, rest: string)
    ensures var end := ParseFrom(h, st, rest).error;
      if st.error > 0 then end == st.error else end == 0 || end > st.lineno
    decreases |rest|
  {
    hide Step, Str, FgetsLength;
    if rest != "" {
      var n := FgetsLength(rest, 0);
      var raw := Str(rest[..n], 0);
      StepError(h, st, raw);
      CountsLines(h, st, raw);
      ErrorStays(h, Step(h, st, raw), rest[n..]);
    }
  }

  // Of two parsers on the same line, the first awaits continuation lines whenever the second does.
  ghost predicate Readier(a: State, b: State) {
    a.lineno == b.lineno > 0 && (b.prevName != "" ==> a.prevName != "")
  }

  lemma LineForBoth(openA: bool, openB: bool, raw: string)
    requires openB ==> openA
    ensures var a, b := Classify(false, openA, raw), Classify(false, openB, raw);
      a == b || (a.Continuation? && openA && !openB && !b.Continuation?)
  {
    hide Text, TrimRight, PairOrMalformed, SectionOrMalformed;
    SectionIsNoContinuation(Text(false, raw));
  }

  lemma SectionIsNoContinuation(text: string)
    ensures text != "" ==> !SectionOrMalformed(text).Continuation?
    ensures !PairOrMalformed(text).Continuation?
  {
    hide Stop, Value, TrimRight;
  }

  lemma {:induction false} StepReadier(h: Handler, a: State, b: State, raw: string)
    requires Readier(a, b)
    ensures var a', b' := Step(h, a, raw), Step(h, b, raw);
      Readier(a', b') && |a'.calls| - |a.calls| >= |b'.calls| - |b.calls|
  {
    hide Classify, Cut;
    LineForBoth(a.prevName != "", b.prevName != "", raw);
  }

  // The readier parser makes at least as many calls.
  lemma {:induction false} ReadierCallsMore(h: Handler, a: State, b: State, rest: string)
    requires Readier(a, b)
    ensures |ParseFrom(h, a, rest).calls| - |a.calls| >= |ParseFrom(h, b, rest).calls| - |b.calls|
    decreases |rest|
  {
    hide Step, Str, FgetsLength, Readier;
    if rest != "" {
      var n := FgetsLength(rest, 0);
      var raw := Str(rest[..n], 0);
      StepReadier(h, a, b, raw);
      ReadierCallsMore(h, Step(h, a, raw), Step(h, b, raw), rest[n..]);
    }
  }

  ghost predicate SameResult(a: State, b: State) {
    a.error == b.error && a.calls == b.calls
  }

  // A difference in the first line shows in the error or in the calls, whatever the rest of the file says.
  lemma {:induction false} ApartForGood(h: Handler, a: string, b: string, rest: string)
    requires Apart(Classify(true, false, a), Classify(true, false, b))
    ensures !SameResult(ParseFrom(h, Step(h, INITIAL, a), rest), ParseFrom(h, Step(h, INITIAL, b), rest))
  {
    hide Classify, ParseFrom;
    var now, said := Classify(true, false, a), Classify(true, false, b);
    var s, t := Step(h, INITIAL, a), Step(h, INITIAL, b);
    if now.Malformed? {
      ErrorStays(h, s, rest);
      ErrorStays(h, t, rest);
    } else if said.Pair? {
      CallsGrow(h, s, rest);
      CallsGrow(h, t, rest);
      assert ParseFrom(h, s, rest).calls[0] == s.calls[0];
      assert ParseFrom(h, t, rest).calls[0] == t.calls[0];
    } else {
      ReadierCallsMore(h, s, t, rest);
    }
  }

  // ---- files ----

  // The mark moves the end of the first piece by its own length.
  lemma {:induction false} FirstPieceMarked(file: string)
    requires file != "" && FgetsLength(file, 0) <= INI_MAX_LINE - 1 - |BOM|
    ensures var n, all := FgetsLength(file, 0), BOM + file;
      && FgetsLength(all, 0) == n + 3 && all[n + 3..] == file[n..]
      && Str(all[..n + 3], 0) == BOM + Str(file[..n], 0)
  {
    hide Str, FgetsLength;
    var n, all := FgetsLength(file, 0), BOM + file;
    var m := FgetsLength(all, 0);
    assert all[n + 2] == file[n - 1];
    assert all[m - 1] in BOM || (m > 3 && all[m - 1] == file[m - 4]);
    assert m == n + 3;
    assert all[..n + 3] == BOM + file[..n];
    StrAfterBom(file[..n]);
  }

  lemma ParseFirst(h: Handler, file: string)
    requires file != ""
    ensures var n := FgetsLength(file, 0);
      Parse(h, file) == ParseFrom(h, Step(h, INITIAL, Str(file[..n], 0)), file[n..])
  {
    hide Step, Str, FgetsLength;
  }

  lemma MarkSaysNothing(h: Handler)
    ensures ParseFrom(h, Step(h, INITIAL, BOM), "") == INITIAL.(lineno := 1)
    ensures Parse(h, "") == INITIAL
  {
    hide TrimRight, Indent;
    assert BOM[3..] == "";
  }

  lemma {:induction false} StrAfterBom(piece: string)
    ensures Str(BOM + piece, 0) == BOM + Str(piece, 0)
  {
    hide Str;
    var s := Str(piece, 0);
    assert (BOM + piece)[..3 + |s|] == BOM + s;
    StrIs(BOM + piece, 0, BOM + s);
  }

  function FirstLine(file: string): string {
    if file == "" then "" else Str(file[..FgetsLength(file, 0)], 0)
  }

  /**
   As long as the first line still fits the buffer, a byte order mark in front of a file leaves the error
   and the calls as they are exactly if the first line is harmless.
   */
  lemma {:induction false} BomChangesNothing(h: Handler, file: string)
    requires file != "" ==> FgetsLength(file, 0) <= INI_MAX_LINE - 1 - |BOM|
    ensures SameResult(Parse(h, BOM + file), Parse(h, file)) <==> Harmless(FirstLine(file))
  {
    hide Step, Str, FgetsLength, ParseFrom, Classify, Harmless, SameResult;
    ParseFirst(h, BOM + file);
    if file == "" {
      assert BOM + file == BOM && BOM[..3] == BOM && BOM[3..] == "";
      assert FgetsLength(BOM, 0) == 3;
      NoTerminator(BOM);
      MarkSaysNothing(h);
      EmptyFile(h);
    } else {
      ParseFirst(h, file);
      FirstPieceMarked(file);
      var raw := FirstLine(file);
      HarmlessOrApart(raw);
      if Harmless(raw) {
        SameStep(h, BOM + raw, raw);
        SameForAll(ParseFrom(h, Step(h, INITIAL, raw), file[FgetsLength(file, 0)..]));
      } else {
        ApartForGood(h, BOM + raw, raw, file[FgetsLength(file, 0)..]);
      }
    }
  }

  lemma SameForAll(a: State)
    ensures SameResult(a, a)
  {
  }

  lemma EmptyFile(h: Handler)
    ensures Harmless("") && SameResult(INITIAL.(lineno := 1), INITIAL)
  {
  }

  lemma SameStep(h: Handler, a: string, b: string)
    requires Classify(true, false, a) == Classify(true, false, b)
    ensures Step(h, INITIAL, a) == Step(h, INITIAL, b)
  {
    hide Classify;
  }

  lemma OneLine(h: Handler, line: string)
    requires line != "" && FitsLine(line)
    ensures Parse(h, line) == Step(h, INITIAL, line)
  {
    hide Step;
    NoTerminator(line);
    assert FgetsLength(line, 0) == |line| && line[..|line|] == line && line[|line|..] == "";
    assert ParseFrom(h, INITIAL, line) == ParseFrom(h, Step(h, INITIAL, line), "");
  }

  /** For instance, a second mark in front of a section title makes the line malformed. */
  lemma DoubleBomFails()
    ensures var mark: string := ['\U{EF}', '\U{BB}', '\U{BF}'];
      Parse(ACCEPT, mark + "[a]").error == 0 && Parse(ACCEPT, mark + (mark + "[a]")).error == 1
  {
    hide Text, Say;
    var one, two := BOM + "[a]", BOM + (BOM + "[a]");
    OneLine(ACCEPT, one);
    OneLine(ACCEPT, two);
    assert one[3..] == "[a]" && two[3..] == one;
    MarkedText("[a]");
    MarkedText(one);
    TitleAlone();
    MarkedTitle();
  }

  lemma MarkedText(line: string)
    requires Trimmed(line) && line != ""
    ensures Text(true, BOM + line) == line
  {
    hide TrimRight, Indent;
    assert (BOM + line)[3..] == line;
    TrimmedIs(line, line);
    IndentIs(line, 0);
  }

  lemma TitleAlone()
    ensures Say(false, "[a]") == Section("a")
  {
    hide Stop;
    StopIs("[a]"[1..], ']', 1);
  }

  lemma MarkedTitle()
    ensures Say(false, BOM + "[a]") == Malformed
  {
    hide Stop;
    StopIs(BOM + "[a]", '=', 6);
    StopIs(BOM + "[a]", ':', 6);
  }
}
