/**
 The scanner of inih_r29/ini.c as it runs: one line buffer, cut up in place by writing NULs into it,
 and two fixed-size buffers for the section and the name that continuation lines belong to.
 */
module IniScanner {
  import opened CStrings
  import opened IniSpec

  method Strlen(a: array<char>, s: nat, ghost t: string) returns (n: nat)
    requires Holds(a[..], s, t)
    ensures n == |t|
  {
    HeldString(a[..], s, t);
    n := |Str(a[..], s)|;
  }

  method Rstrip(a: array<char>, s: nat, ghost t: string)
    requires Holds(a[..], s, t)
    modifies a
    ensures Holds(a[..], s, TrimRight(t))
    ensures forall i :: 0 <= i < s || s + |t| <= i < a.Length ==> a[i] == old(a[i])
  {
    hide TrimRight, Str, Holds;
    HeldLast(a[..], s, t);
    var p := Strlen(a, s, t);
    p := s + p;
    assert t[..|t|] == t;
    while p > s
      invariant s <= p <= s + |t|
      invariant Holds(a[..], s, t[..p - s])
      invariant TrimRight(t[..p - s]) == TrimRight(t)
      invariant forall i :: 0 <= i < s || s + |t| <= i < a.Length ==> a[i] == old(a[i])
    {
      p := p - 1;
      ghost var r := t[..p + 1 - s];
      HeldLast(a[..], s, r);
      TrimOne(r);
      if !IsSpace(a[p]) {
        break;
      }
      CutString(a[..], s, r, p - s);
      ghost var before := a[..];
      a[p] := NUL;
      assert a[..] == before[p := NUL];
      assert r[..p - s] == t[..p - s];
    }
    TrimOne(t[..p - s]);
  }

  lemma HeldLast(b: seq<char>, p: nat, s: string)
    requires Holds(b, p, s)
    ensures p + |s| < |b| && (s != "" ==> b[p + |s| - 1] == s[|s| - 1])
  {
    assert s == b[p..p + |s|];
  }

  lemma TrimOne(s: string)
    ensures TrimRight(s) == if s != "" && IsSpace(s[|s| - 1]) then TrimRight(s[..|s| - 1]) else s
  {
  }

  method Lskip(a: array<char>, s: nat, ghost t: string) returns (p: nat)
    requires Holds(a[..], s, t)
    ensures p == s + Indent(t)
    ensures Holds(a[..], p, t[Indent(t)..])
  {
    hide Holds, Indent;
    p := s;
    HeldFirst(a[..], p, t);
    while a[p] != NUL && IsSpace(a[p])
      invariant s <= p <= s + |t| && p < a.Length
      invariant Holds(a[..], p, t[p - s..])
      invariant Indent(t) == p - s + Indent(t[p - s..])
      decreases a.Length - p
    {
      ghost var r := t[p - s..];
      HeldFirst(a[..], p, r);
      IndentOne(r);
      DropString(a[..], p, r, 1);
      HeldFirst(a[..], p + 1, r[1..]);
      p := p + 1;
      assert r[1..] == t[p - s..];
    }
    HeldFirst(a[..], p, t[p - s..]);
    IndentOne(t[p - s..]);
  }

  lemma HeldFirst(b: seq<char>, p: nat, s: string)
    requires Holds(b, p, s)
    ensures p + |s| < |b| && b[p] == if s == "" then NUL else s[0]
    ensures s != "" ==> s[0] != NUL
  {
    assert s == b[p..p + |s|];
  }

  lemma IndentOne(s: string)
    ensures Indent(s) == if s != "" && IsSpace(s[0]) then 1 + Indent(s[1..]) else 0
  {
  }

  method FindCharOrComment(a: array<char>, s: nat, c: char, ghost t: string) returns (p: nat)
    requires Holds(a[..], s, t)
    ensures p == s + Stop(t, c, 0)
    ensures p < a.Length && a[p] == if p - s < |t| then t[p - s] else NUL
  {
    var wasWhitespace := false;
    p := s;
    assert forall i :: 0 <= i < |t| ==> a[s + i] == t[i];
    while a[p] != NUL && a[p] != c && !(wasWhitespace && a[p] == ';')
      invariant s <= p <= s + |t|
      invariant wasWhitespace <==> p > s && IsSpace(t[p - s - 1])
      invariant Stop(t, c, 0) == Stop(t, c, p - s)
      decreases a.Length - p
    {
      wasWhitespace := IsSpace(a[p]);
      p := p + 1;
    }
  }

  // strncpy() with a terminator forced into the last cell; strncpy pads with NULs.
  method Strncpy0(dest: array<char>, src: array<char>, s: nat, ghost t: string)
    requires dest != src && dest.Length > 0
    requires Holds(src[..], s, t)
    modifies dest
    ensures Holds(dest[..], 0, Cut(t, dest.Length))
  {
    assert forall i :: 0 <= i < |t| ==> src[s + i] == t[i];
    var i := 0;
    while i < dest.Length && src[s + i] != NUL
      invariant i <= dest.Length && i <= |t|
      invariant dest[..i] == t[..i]
    {
      dest[i] := src[s + i];
      i := i + 1;
    }
    var n := i;
    while i < dest.Length
      invariant n <= i <= dest.Length
      invariant dest[..n] == t[..n]
      invariant forall j :: n <= j < i ==> dest[j] == NUL
    {
      dest[i] := NUL;
      i := i + 1;
    }
    ghost var c := Cut(t, dest.Length);
    assert dest[..|c|] == dest[..n][..|c|] == t[..|c|] == c;
    dest[dest.Length - 1] := NUL;
    assert dest[..][0..|c|] == dest[..|c|] == c;
  }

  // fgets(): reads one piece of the file and terminates it; what lies beyond stays in the buffer.
  method Fgets(line: array<char>, file: string, pos: nat) returns (next: nat)
    requires line.Length == INI_MAX_LINE && pos < |file|
    modifies line
    ensures next == pos + FgetsLength(file[pos..], 0)
    ensures Holds(line[..], 0, Str(file[pos..next], 0))
  {
    ghost var rest := file[pos..];
    line[0] := file[pos];
    next := pos + 1;
    while next < |file| && next - pos < INI_MAX_LINE - 1 && file[next - 1] != '\n'
      invariant pos < next <= |file| && next - pos <= INI_MAX_LINE - 1
      invariant line[..next - pos] == file[pos..next]
      invariant forall i :: 0 <= i < next - pos - 1 ==> rest[i] != '\n'
      invariant FgetsLength(rest, 0) == FgetsLength(rest, next - pos - 1)
    {
      line[next - pos] := file[next];
      next := next + 1;
    }
    line[next - pos] := NUL;
    ghost var piece := file[pos..next];
    ghost var s := Str(piece, 0);
    assert line[..next - pos] == piece;
    assert line[..][..|s|] == piece[..|s|] == s;
  }

  // A line that starts with '[' names a section, or is malformed.
  method ScanSection(line: array<char>, start: nat, section: array<char>, prevName: array<char>,
                     ghost st: State, ghost text: string)
    returns (ok: bool)
    requires line != section && line != prevName && section != prevName
    requires section.Length == MAX_SECTION && prevName.Length == MAX_NAME
    requires Holds(line[..], start, text) && text != "" && text[0] == '['
    requires Holds(section[..], 0, st.section) && Holds(prevName[..], 0, st.prevName)
    modifies line, section, prevName
    ensures ok == SectionOrMalformed(text).Section?
    ensures !ok ==> SectionOrMalformed(text) == Malformed
    ensures ok ==> Holds(section[..], 0, Cut(SectionOrMalformed(text).title, MAX_SECTION)) && Holds(prevName[..], 0, "")
    ensures !ok ==> Holds(section[..], 0, st.section) && Holds(prevName[..], 0, st.prevName)
  {
    hide Stop;
    DropString(line[..], start, text, 1);
    var end := FindCharOrComment(line, start + 1, ']', text[1..]);
    ok := line[end] == ']';
    if ok {
      CutString(line[..], start + 1, text[1..], end - start - 1);
      line[end] := NUL;
      Strncpy0(section, line, start + 1, text[1..][..end - start - 1]);
      prevName[0] := NUL;
    }
  }

  // The pair branch: cuts the line into name and value, and remembers the name.
  method ScanPair(line: array<char>, start: nat, prevName: array<char>, ghost text: string)
    returns (ok: bool, name: string, value: string)
    requires line != prevName && prevName.Length == MAX_NAME
    requires Holds(line[..], start, text) && text != ""
    modifies line, prevName
    ensures ok == HasSeparator(text)
    ensures ok ==> name == TrimRight(text[..Separator(text)]) && value == Value(text[Separator(text) + 1..])
    ensures ok ==> Holds(prevName[..], 0, Cut(name, MAX_NAME))
    ensures !ok ==> prevName[..] == old(prevName[..])
  {
    hide TrimRight, Indent, Stop, Value, Str;
    name, value := "", "";
    var end := FindCharOrComment(line, start, '=', text);
    if line[end] != '=' {
      end := FindCharOrComment(line, start, ':', text);
    }
    ok := line[end] == '=' || line[end] == ':';
    if ok {
      name, value := CutPair(line, start, end, prevName, text);
    }
  }

  method CutPair(line: array<char>, start: nat, end: nat, prevName: array<char>, ghost text: string)
    returns (name: string, value: string)
    requires line != prevName && prevName.Length == MAX_NAME
    requires Holds(line[..], start, text) && start <= end < start + |text|
    modifies line, prevName
    ensures name == TrimRight(text[..end - start]) && value == Value(text[end - start + 1..])
    ensures Holds(prevName[..], 0, Cut(name, MAX_NAME))
  {
    hide TrimRight, Indent, Stop, Value, Str;
    ghost var head, tail := text[..end - start], text[end - start + 1..];
    CutString(line[..], start, text, end - start);
    line[end] := NUL;
    ghost var cut := line[..];
    Rstrip(line, start, head);
    KeepString(cut, line[..], end + 1, tail);
    ghost var trimmed := TrimRight(head);
    value := CutValue(line, start, end + 1, trimmed, tail);
    Strncpy0(prevName, line, start, trimmed);
    HeldString(line[..], start, trimmed);
    name := Str(line[..], start);
  }

  // Skips to the value, cuts its comment off and trims it.
  method CutValue(line: array<char>, start: nat, p: nat, ghost name: string, ghost tail: string) returns (value: string)
    requires Holds(line[..], start, name) && start + |name| < p
    requires Holds(line[..], p, tail)
    modifies line
    ensures Holds(line[..], start, name)
    ensures value == Value(tail)
  {
    hide TrimRight, Indent, Stop, Str;
    var v := Lskip(line, p, tail);
    ghost var text := tail[Indent(tail)..];
    var end := FindCharOrComment(line, v, NUL, text);
    ghost var e := end - v;
    assert text[..|text|] == text;
    if line[end] == ';' {
      CutString(line[..], v, text, e);
      line[end] := NUL;
    }
    Rstrip(line, v, text[..e]);
    HeldString(line[..], v, TrimRight(text[..e]));
    value := Str(line[..], v);
    KeepString(old(line[..]), line[..], start, name);
  }

  // Steps over a byte order mark and trims the line on both sides.
  method TrimLine(line: array<char>, lineno: nat, ghost raw: string) returns (start: nat)
    requires line.Length == INI_MAX_LINE && lineno > 0 && Holds(line[..], 0, raw)
    modifies line
    ensures var text := Text(lineno == 1, raw);
      && Holds(line[..], start, text)
      && (text != "" ==> (start > 0 <==> |text| < |TrimRight(raw)|))
  {
    start := 0;
    assert forall i :: 0 <= i < |raw| ==> line[i] == raw[i];
    if lineno == 1 && line[0] == BOM[0] && line[1] == BOM[1] && line[2] == BOM[2] {
      assert BOM <= raw;
      DropString(line[..], 0, raw, 3);
      start := 3;
    }
    ghost var skip := start;
    assert Body(lineno == 1, raw) == raw[skip..];
    Rstrip(line, start, raw[skip..]);
    start := Lskip(line, start, TrimRight(raw[skip..]));
    TrimRightBody(raw, skip);
  }

  method Report(h: Handler, calls: seq<Call>, call: Call, lineno: nat, error: nat, ghost st: State)
    returns (error': nat, calls': seq<Call>)
    requires lineno == st.lineno && error == st.error && calls == st.calls
    ensures error' == Emit(h, st, call).error && calls' == Emit(h, st, call).calls
  {
    error', calls' := error, calls + [call];
    if !h(calls') && error == 0 {
      error' := lineno;
    }
  }

  method ReportPair(line: array<char>, start: nat, section: array<char>, prevName: array<char>, lineno: nat,
                    h: Handler, error: nat, calls: seq<Call>, ghost st: State, ghost text: string)
    returns (error': nat, calls': seq<Call>)
    requires line != section && line != prevName && section != prevName && prevName.Length == MAX_NAME
    requires Holds(line[..], start, text) && text != ""
    requires Holds(section[..], 0, st.section) && Holds(prevName[..], 0, st.prevName)
    requires lineno == st.lineno && error == st.error && calls == st.calls
    modifies line, prevName
    ensures var next := Apply(h, st, PairOrMalformed(text));
      && Holds(section[..], 0, next.section) && Holds(prevName[..], 0, next.prevName)
      && error' == next.error && calls' == next.calls
  {
    hide TrimRight, Indent, Stop, Separator, Value, Str;
    error', calls' := error, calls;
    var ok, name, value := ScanPair(line, start, prevName, text);
    if ok {
      HeldString(section[..], 0, st.section);
      error', calls' := Report(h, calls, Call(Str(section[..], 0), name, value), lineno, error,
                               st.(prevName := Cut(name, MAX_NAME)));
    } else if error == 0 {
      error' := lineno;
    }
  }

  method ScanText(line: array<char>, start: nat, section: array<char>, prevName: array<char>, lineno: nat,
                  h: Handler, error: nat, calls: seq<Call>, ghost st: State, ghost text: string)
    returns (error': nat, calls': seq<Call>)
    requires line != section && line != prevName && section != prevName
    requires section.Length == MAX_SECTION && prevName.Length == MAX_NAME
    requires Holds(line[..], start, text)
    requires Holds(section[..], 0, st.section) && Holds(prevName[..], 0, st.prevName)
    requires lineno == st.lineno && error == st.error && calls == st.calls
    modifies line, section, prevName
    ensures var next := Apply(h, st, Say(st.prevName != "" && start > 0, text));
      && Holds(section[..], 0, next.section) && Holds(prevName[..], 0, next.prevName)
      && error' == next.error && calls' == next.calls
  {
    hide PairOrMalformed, SectionOrMalformed, Stop, Str;
    error', calls' := error, calls;
    assert line[start] == if text == "" then NUL else text[0];
    assert prevName[0] == NUL <==> st.prevName == "";
    if line[start] == ';' || line[start] == '#' {
    } else if prevName[0] != NUL && line[start] != NUL && start > 0 {
      HeldString(line[..], start, text);
      HeldString(section[..], 0, st.section);
      HeldString(prevName[..], 0, st.prevName);
      error', calls' := Report(h, calls, Call(Str(section[..], 0), Str(prevName[..], 0), Str(line[..], start)),
                               lineno, error, st);
    } else if line[start] == '[' {
      var ok := ScanSection(line, start, section, prevName, st, text);
      if !ok && error == 0 {
        error' := lineno;
      }
    } else if line[start] != NUL {
      error', calls' := ReportPair(line, start, section, prevName, lineno, h, error, calls, st, text);
    }
  }

  method ScanLine(line: array<char>, section: array<char>, prevName: array<char>, lineno: nat, h: Handler,
                  error: nat, calls: seq<Call>, ghost st: State, ghost raw: string)
    returns (error': nat, calls': seq<Call>)
    requires line != section && line != prevName && section != prevName
    requires line.Length == INI_MAX_LINE && section.Length == MAX_SECTION && prevName.Length == MAX_NAME
    requires Holds(line[..], 0, raw)
    requires Holds(section[..], 0, st.section) && Holds(prevName[..], 0, st.prevName)
    requires lineno == st.lineno + 1 && error == st.error && calls == st.calls
    modifies line, section, prevName
    ensures var next := Step(h, st, raw);
      && Holds(section[..], 0, next.section) && Holds(prevName[..], 0, next.prevName)
      && error' == next.error && calls' == next.calls
  {
    hide Text, Say, Apply;
    var start := TrimLine(line, lineno, raw);
    ghost var now, text := st.(lineno := lineno), Text(lineno == 1, raw);
    HeldString(prevName[..], 0, st.prevName);
    assert Step(h, st, raw) == Apply(h, now, Say(st.prevName != "" && |text| < |TrimRight(raw)|, text));
    NothingSaid(text);
    error', calls' := ScanText(line, start, section, prevName, lineno, h, error, calls, now, text);
  }

  // An empty line says nothing either way.
  lemma NothingSaid(text: string)
    ensures text == "" ==> forall b, c :: Say(b, text) == Say(c, text)
  {
  }

  method IniParseFile(file: string, h: Handler) returns (error: nat, calls: seq<Call>)
    ensures error == Parse(h, file).error
    ensures calls == Parse(h, file).calls
  {
    hide Step, Str, FgetsLength, ParseFrom;
    var line := new char[INI_MAX_LINE];
    var section := new char[MAX_SECTION](_ => NUL);
    var prevName := new char[MAX_NAME](_ => NUL);
    var lineno: nat := 0;
    error, calls := 0, [];
    var pos: nat := 0;
    ghost var st := INITIAL;
    assert file[0..] == file;
    while pos < |file|
      invariant pos <= |file|
      invariant Holds(section[..], 0, st.section) && Holds(prevName[..], 0, st.prevName)
      invariant lineno == st.lineno && error == st.error && calls == st.calls
      invariant ParseFrom(h, st, file[pos..]) == Parse(h, file)
      decreases |file| - pos
    {
      var next := Fgets(line, file, pos);
      lineno := lineno + 1;
      ghost var raw := Str(file[pos..next], 0);
      error, calls := ScanLine(line, section, prevName, lineno, h, error, calls, st, raw);
      ParseNext(h, st, file, pos);
      CountsLines(h, st, raw);
      st := Step(h, st, raw);
      pos := next;
    }
    assert file[pos..] == "";
    ParseEnd(h, st);
  }

  lemma ParseNext(h: Handler, st: State, file: string, pos: nat)
    requires pos < |file|
    ensures var next := pos + FgetsLength(file[pos..], 0);
      ParseFrom(h, st, file[pos..]) == ParseFrom(h, Step(h, st, Str(file[pos..next], 0)), file[next..])
  {
    hide Step, Str, FgetsLength;
    var rest, n := file[pos..], FgetsLength(file[pos..], 0);
    assert rest[..n] == file[pos..pos + n] && rest[n..] == file[pos + n..];
  }

  lemma ParseEnd(h: Handler, st: State)
    ensures ParseFrom(h, st, "") == st
  {
  }
}
