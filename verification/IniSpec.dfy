/** What inih_r29/ini.c reads from a file: a fold over lines, stated on strings. */
module IniSpec {
  import opened CStrings

  const INI_MAX_LINE := 200
  const MAX_SECTION := 50
  const MAX_NAME := 50

  // UTF-8 byte order mark
  const BOM: string := ['\U{EF}', '\U{BB}', '\U{BF}']

  datatype Call = Call(section: string, name: string, value: string)

  // A callback answers its latest call; the answer may depend on all the calls before it.
  type Handler = seq<Call> -> bool

  datatype State = State(lineno: nat, section: string, prevName: string, error: nat, calls: seq<Call>)

  const INITIAL := State(0, "", "", 0, [])

  datatype Line =
    | Ignored
    | Continuation(text: string)
    | Section(title: string)
    | Pair(name: string, value: string)
    | Malformed

  function TrimRight(s: string): (t: string)
    ensures t <= s
    ensures forall i :: |t| <= i < |s| ==> IsSpace(s[i])
    ensures t != "" ==> !IsSpace(t[|t| - 1])
  {
    if s != "" && IsSpace(s[|s| - 1]) then TrimRight(s[..|s| - 1]) else s
  }

  // The number of leading white space characters.
  function Indent(s: string): (n: nat)
    ensures n <= |s|
    ensures forall i :: 0 <= i < n ==> IsSpace(s[i])
    ensures n < |s| ==> !IsSpace(s[n])
  {
    if s != "" && IsSpace(s[0]) then 1 + Indent(s[1..]) else 0
  }

  // A ';' opens a comment only after white space.
  predicate CommentAt(s: string, i: nat) {
    0 < i < |s| && s[i] == ';' && IsSpace(s[i - 1])
  }

  // Where the first `c` or comment of `s` stands from index `i` on, or |s|.
  function Stop(s: string, c: char, i: nat): (n: nat)
    requires i <= |s|
    ensures i <= n <= |s|
    ensures forall j: nat :: i <= j < n ==> s[j] != c
    ensures forall j: nat :: i <= j < n ==> !CommentAt(s, j)
    ensures n < |s| ==> s[n] == c || CommentAt(s, n)
    decreases |s| - i
  {
    if i == |s| || s[i] == c || CommentAt(s, i) then i else Stop(s, c, i + 1)
  }

  // A value ends at its comment and is trimmed on both sides.
  function Value(s: string): string {
    var v := s[Indent(s)..];
    TrimRight(v[..Stop(v, NUL, 0)])
  }

  // Where '=' separates a name from its value; failing that, where ':' does.
  function Separator(text: string): (n: nat)
    ensures n <= |text|
  {
    var e := Stop(text, '=', 0);
    if e < |text| && text[e] == '=' then e else Stop(text, ':', 0)
  }

  predicate HasSeparator(text: string) {
    var e := Separator(text);
    e < |text| && (text[e] == '=' || text[e] == ':')
  }

  function Body(first: bool, raw: string): string {
    if first && BOM <= raw then raw[3..] else raw
  }

  function Text(first: bool, raw: string): string {
    var body := TrimRight(Body(first, raw));
    body[Indent(body)..]
  }

  // Trimming a line on the right does not depend on where it starts, unless nothing is left of it.
  lemma TrimRightBody(raw: string, skip: nat)
    requires skip <= |raw|
    ensures TrimRight(raw[skip..]) != "" ==> |TrimRight(raw)| == skip + |TrimRight(raw[skip..])|
  {
    hide TrimRight;
    var s, t := raw[skip..], TrimRight(raw[skip..]);
    assert forall i :: skip <= i < |raw| ==> raw[i] == s[i - skip];
  }

  // What one line says: `first` on line 1, `open` while a name awaits continuation lines.
  function Classify(first: bool, open: bool, raw: string): Line {
    var text := Text(first, raw);
    Say(open && |text| < |TrimRight(raw)|, text)
  }

  function Say(continues: bool, text: string): Line {
    if text == "" || text[0] == ';' || text[0] == '#' then Ignored
    else if continues then Continuation(text)
    else if text[0] == '[' then SectionOrMalformed(text)
    else PairOrMalformed(text)
  }

  function SectionOrMalformed(text: string): Line
    requires text != ""
  {
    var e := Stop(text[1..], ']', 0);
    if e < |text[1..]| && text[1..][e] == ']' then Section(text[1..][..e]) else Malformed
  }

  function PairOrMalformed(text: string): Line {
    if HasSeparator(text) then
      var e := Separator(text);
      Pair(TrimRight(text[..e]), Value(text[e + 1..]))
    else Malformed
  }

  // strncpy0: names and sections are cut to their buffers.
  function Cut(s: string, size: nat): string
    requires size > 0
  {
    if |s| < size then s else s[..size - 1]
  }

  function Fail(st: State): State {
    if st.error == 0 then st.(error := st.lineno) else st
  }

  function Emit(h: Handler, st: State, call: Call): State {
    var st' := st.(calls := st.calls + [call]);
    if h(st'.calls) then st' else Fail(st')
  }

  function Apply(h: Handler, st: State, line: Line): State {
    match line
    case Ignored => st
    case Continuation(text) => Emit(h, st, Call(st.section, st.prevName, text))
    case Section(title) => st.(section := Cut(title, MAX_SECTION), prevName := "")
    case Pair(name, value) =>
      Emit(h, st.(prevName := Cut(name, MAX_NAME)), Call(st.section, name, value))
    case Malformed => Fail(st)
  }

  function Step(h: Handler, st: State, raw: string): State {
    Apply(h, st.(lineno := st.lineno + 1), Classify(st.lineno == 0, st.prevName != "", raw))
  }

  lemma CountsLines(h: Handler, st: State, raw: string)
    ensures Step(h, st, raw).lineno == st.lineno + 1
  {
    hide Classify;
  }

  // fgets(): how much of a non-empty rest of the file one call reads.
  function FgetsLength(rest: string, n: nat): (r: nat)
    requires n < |rest| && n < INI_MAX_LINE - 1
    requires forall i :: 0 <= i < n ==> rest[i] != '\n'
    ensures n < r <= |rest| && r < INI_MAX_LINE
    ensures forall i :: 0 <= i < r - 1 ==> rest[i] != '\n'
    ensures rest[r - 1] == '\n' || r == |rest| || r == INI_MAX_LINE - 1
    decreases |rest| - n
  {
    if rest[n] == '\n' || n + 1 == |rest| || n + 1 == INI_MAX_LINE - 1 then n + 1
    else FgetsLength(rest, n + 1)
  }

  function ParseFrom(h: Handler, st: State, rest: string): State
    decreases |rest|
  {
    if rest == "" then st
    else
      var n := FgetsLength(rest, 0);
      ParseFrom(h, Step(h, st, Str(rest[..n], 0)), rest[n..])
  }

  function Parse(h: Handler, file: string): State {
    ParseFrom(h, INITIAL, file)
  }
}
