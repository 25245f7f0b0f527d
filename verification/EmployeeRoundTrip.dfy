/** Printed employee records are extracted again, each from its own stretch of the document. */
module EmployeeRoundTrip {
  import opened CStrings
  import opened EmployeeXml

  // The element texts of one record, by number; None is an element that is not printed.
  type Row = r: seq<Option<string>> | |r| == FIELDS witness seq(FIELDS, _ => None)

  predicate GoodData(d: string) {
    '<' !in d && NUL !in d
  }

  ghost predicate GoodRow(row: Row) {
    forall i :: 0 <= i < FIELDS && row[i].Some? ==> GoodData(row[i].value)
  }

  // ---- printing ----

  function FieldText(gap: string, tag: string, data: string): string {
    gap + "<" + tag + ">" + data + "</" + tag + ">"
  }

  function Body(gap: string, row: Row, i: nat): string
    requires i <= FIELDS
    decreases FIELDS - i
  {
    if i == FIELDS then gap
    else (if row[i].Some? then FieldText(gap, Tag(i), row[i].value) else "") + Body(gap, row, i + 1)
  }

  // `attrs` may follow the tag name, `gap` precedes every tag, the separators surround the records.
  function PrintRows(attrs: string, gap: string, rows: seq<Row>, separators: seq<string>): string
    requires |separators| == |rows| + 1
  {
    if rows == [] then separators[0]
    else
      separators[0] + ("<Table" + attrs + ">" + Body(gap, rows[0], 0) + "</Table>")
      + PrintRows(attrs, gap, rows[1..], separators[1..])
  }

  // ---- what a row stands for ----

  function Text(d: Option<string>): string {
    if d.Some? then d.value else ""
  }

  function FirstFifteen(d: Option<string>): Option<string> {
    if d.None? || |d.value| <= 15 then d else Some(d.value[..15])
  }

  // The characters of `d` from index `a` up to `b`, as far as it goes.
  function Piece(d: string, a: nat, b: nat): string
    requires a <= b
  {
    d[if a < |d| then a else |d|..if b < |d| then b else |d|]
  }

  function DayOf(d: string): Date {
    Date(Atoi(Piece(d, 0, 4)), Atoi(Piece(d, 4, 6)), Atoi(Piece(d, 6, 8)))
  }

  function Day(d: Option<string>): Option<Date> {
    if d.None? then None else Some(DayOf(d.value))
  }

  function Type(d: Option<string>): Option<char> {
    if d.None? then None else Some(if d.value == "" then NUL else d.value[0])
  }

  function Employed(row: Row): Employee
    requires GoodRow(row)
  {
    Employee(
      FirstFifteen(row[4]), Text(row[5]),
      Type(row[9]),
      Day(row[ENT_CO_YMD]), Day(row[RTR_CO_YMD]),
      Text(row[6]), Text(row[3]), Text(row[1]), Text(row[2]), Text(row[0]))
  }

  // ---- searching printed text ----

  lemma {:induction false} MissingBehind(a: string, b: string, key: string)
    requires key != "" && key[0] == '<' && '<' !in a && Missing(b, key)
    ensures Missing(a + b, key)
  {
    hide OccursAt;
    forall j: nat ensures !OccursAt(a + b, key, j) {
      if OccursAt(a + b, key, j) {
        OccursStart(a + b, key, j, 0);
        if j >= |a| {
          OccursBehind(a, b, key, j);
        }
      }
    }
  }

  // A tag that differs from the key in one character cannot start an occurrence.
  lemma {:induction false} MissingTag(tag: string, rest: string, key: string, m: nat)
    requires |key| > 1 && key[0] == '<' && '<' !in tag && Missing(rest, key)
    requires m < |tag| && 1 + m < |key| && tag[m] != key[1 + m]
    ensures Missing("<" + tag + rest, key)
  {
    hide OccursAt;
    var text := "<" + tag + rest;
    MissingBehind(tag, rest, key);
    assert text == "<" + (tag + rest);
    forall j: nat ensures !OccursAt(text, key, j) {
      if OccursAt(text, key, j) {
        if j == 0 {
          OccursStart(text, key, j, 1 + m);
        } else {
          OccursBehind("<", tag + rest, key, j);
        }
      }
    }
  }

  // No two tags are alike up to the end of the shorter one.
  lemma TagsDiffer(i: nat, k: nat) returns (m: nat)
    requires i < FIELDS && k < FIELDS && i != k
    ensures m < |Tag(i)| && m < |Tag(k)| && Tag(i)[m] != Tag(k)[m]
  {
    m := if i + k == 3 && i * k == 2 then 5 else if i + k == 12 && i * k == 32 then 1 else 0;
  }

  // What may stand in front of the elements still to come: the opening tag, or the rest of a closing one.
  ghost predicate Passed(junk: string) {
    '<' !in junk || (|junk| > 1 && junk[0] == '<' && junk[1] == 'T' && '<' !in junk[1..])
  }

  lemma {:induction false} MissingPassed(junk: string, rest: string, key: string)
    requires Passed(junk) && |key| > 1 && key[0] == '<' && key[1] != 'T' && Missing(rest, key)
    ensures Missing(junk + rest, key)
  {
    if '<' !in junk {
      MissingBehind(junk, rest, key);
    } else {
      assert "<" + junk[1..] + rest == junk + rest;
      MissingTag(junk[1..], rest, key, 0);
    }
  }

  lemma {:induction false} MissingField(gap: string, tag: string, data: string, rest: string, key: string, m: nat)
    requires '<' !in gap && GoodData(data) && '<' !in tag && |key| > 1 && key[0] == '<' && Missing(rest, key)
    requires m < |tag| && 1 + m < |key| && tag[m] != key[1 + m]
    requires exists n :: n < 1 + |tag| && 1 + n < |key| && n >= 0 && ("/" + tag)[n] != key[1 + n]
    ensures Missing(FieldText(gap, tag, data) + rest, key)
  {
    var n :| 0 <= n < 1 + |tag| && 1 + n < |key| && ("/" + tag)[n] != key[1 + n];
    var closing, opening := "/" + tag + ">", tag + ">" + data;
    MissingTag(closing, rest, key, n);
    MissingTag(opening, "<" + closing + rest, key, m);
    MissingBehind(gap, "<" + opening + ("<" + closing + rest), key);
    assert FieldText(gap, tag, data) + rest == gap + ("<" + opening + ("<" + closing + rest));
  }

  // Elements printed later do not match the key of an earlier one.
  lemma {:induction false} MissingLater(gap: string, row: Row, i: nat, k: nat)
    requires '<' !in gap && i < k <= FIELDS && GoodRow(row)
    ensures Missing(Body(gap, row, k), "<" + Tag(i))
    decreases FIELDS - k
  {
    var key := "<" + Tag(i);
    if k == FIELDS {
      MissingWithoutFirst(gap, key);
    } else {
      MissingLater(gap, row, i, k + 1);
      if row[k].Some? {
        var m := TagsDiffer(i, k);
        assert ("/" + Tag(k))[0] != key[1 + 0];
        MissingField(gap, Tag(k), row[k].value, Body(gap, row, k + 1), key, m);
      } else {
        assert "" + Body(gap, row, k + 1) == Body(gap, row, k + 1);
      }
    }
  }

  // Nor do any elements match the closing tag of the record.
  lemma {:induction false} MissingClose(gap: string, row: Row, k: nat)
    requires '<' !in gap && k <= FIELDS && GoodRow(row)
    ensures Missing(Body(gap, row, k), "</Table")
    decreases FIELDS - k
  {
    var key := "</Table";
    if k == FIELDS {
      MissingWithoutFirst(gap, key);
    } else {
      MissingClose(gap, row, k + 1);
      if row[k].Some? {
        assert ("/" + Tag(k))[1] == Tag(k)[0] != key[1 + 1];
        MissingField(gap, Tag(k), row[k].value, Body(gap, row, k + 1), key, 0);
      } else {
        assert "" + Body(gap, row, k + 1) == Body(gap, row, k + 1);
      }
    }
  }

  // ---- one record ----

  lemma {:induction false} AbsentElement(junk: string, gap: string, row: Row, i: nat)
    requires Passed(junk) && '<' !in gap && i < FIELDS && GoodRow(row) && row[i].None?
    ensures Element(junk + Body(gap, row, i), Tag(i)) == Absent
    ensures Body(gap, row, i) == Body(gap, row, i + 1)
  {
    hide Find, Tag;
    var rest := Body(gap, row, i + 1);
    MissingLater(gap, row, i, i + 1);
    assert "" + rest == rest;
    MissingPassed(junk, rest, "<" + Tag(i)) by {
      NoTagOpensTable(i);
    }
  }

  lemma NoTagOpensTable(i: nat)
    requires i < FIELDS
    ensures Tag(i)[0] != 'T'
  {
  }

  lemma MissingGap(gap: string, key: string)
    requires key != "" && key[0] == '<' && '<' !in gap
    ensures Missing(gap, key)
  {
    MissingWithoutFirst(gap, key);
  }

  // Where the parts of a printed element stand.
  lemma {:induction false} ElementParts(pre: string, gap: string, tag: string, data: string, rest: string)
    ensures var tail := "/" + tag + ">" + rest;
      var text, start := pre + (FieldText(gap, tag, data) + rest), |pre + gap| + |tag| + 2;
      && text == (pre + gap) + (("<" + tag) + (">" + data + "<" + tail))
      && start + |data| + 1 + |tail| == |text| && text[start..] == data + "<" + tail
      && text[start..start + |data|] == data && text[start + |data| + 1..] == tail
  {
    var tail := "/" + tag + ">" + rest;
    assert FieldText(gap, tag, data) + rest == gap + ("<" + tag) + (">" + data + "<" + tail);
  }

  lemma {:induction false} PresentElement(junk: string, gap: string, tag: string, data: string, rest: string)
    requires Passed(junk) && '<' !in gap && GoodData(data) && tag != "" && '<' !in tag && tag[0] != 'T'
    ensures Element(junk + (FieldText(gap, tag, data) + rest), tag) == Found(data, "/" + tag + ">" + rest)
  {
    hide Find, Missing, OccursAt, FieldText;
    var key, tail := "<" + tag, "/" + tag + ">" + rest;
    MissingGap(gap, key);
    MissingPassed(junk, gap, key);
    ElementParts(junk, gap, tag, data, rest);
    FoundBehind(junk + gap, key, ">" + data + "<" + tail);
    MissingWithoutFirst(data, "<");
    FoundBehind(data, "<", tail);
    assert data + "<" + tail == data + ("<" + tail);
  }

  // ---- dates ----

  // A number ends where its text does.
  lemma {:induction false} AtoiEnds(d: string, junk: string)
    ensures Atoi(d + [NUL] + junk) == Atoi(d)
  {
    var all := d + [NUL] + junk;
    if d != "" {
      assert all[0] == d[0] && all[1..] == d[1..] + [NUL] + junk;
      AtoiEnds(d[1..], junk);
      AtoiDigitsEnd(d, junk, 0);
      AtoiDigitsEnd(d[1..], junk, 0);
    } else {
      assert all[0] == NUL;
    }
  }

  lemma {:induction false} AtoiDigitsEnd(d: string, junk: string, acc: nat)
    ensures AtoiDigits(d + [NUL] + junk, acc) == AtoiDigits(d, acc)
  {
    var all := d + [NUL] + junk;
    if d != "" && IsDigit(d[0]) {
      assert all[1..] == d[1..] + [NUL] + junk;
      AtoiDigitsEnd(d[1..], junk, 10 * acc + (d[0] as int - '0' as int));
    } else {
      assert all[0] == if d == "" then NUL else d[0];
    }
  }

  predicate NoNumber(c: char) {
    !IsDigit(c) && !IsSpace(c) && c != '-' && c != '+'
  }

  lemma AtoiNothing(s: string)
    requires s == "" || NoNumber(s[0])
    ensures Atoi(s) == 0
  {
  }

  lemma SliceOver(d: string, e: string, a: nat, b: nat)
    requires a <= |d| <= b <= |d| + |e|
    ensures (d + e)[a..b] == d[a..] + e[..b - |d|]
  {
  }

  // Where the cells of a piece come from.
  lemma {:induction false} PieceCells(d: string, tail: string, a: nat, b: nat)
    requires a < b && |d| + 1 + |tail| >= 8 >= b
    ensures var w := (d + [NUL] + tail)[..8][a..b];
      if b <= |d| then w == Piece(d, a, b)
      else if a <= |d| then w == Piece(d, a, b) + [NUL] + tail[..b - |d| - 1]
      else w[0] == tail[a - |d| - 1] && Piece(d, a, b) == ""
  {
    var all := d + [NUL] + tail;
    var w := all[..8][a..b];
    assert w == all[a..b];
    assert forall i :: 0 <= i < |d| ==> all[i] == d[i];
    assert all[|d|] == NUL && forall i :: 0 <= i < |tail| ==> all[|d| + 1 + i] == tail[i];
    if b <= |d| {
      assert w == d[a..b];
    } else if a <= |d| {
      assert Piece(d, a, b) == d[a..];
      SliceOver(d, [NUL] + tail, a, b);
      assert all == d + ([NUL] + tail);
      assert ([NUL] + tail)[..b - |d|] == [NUL] + tail[..b - |d| - 1];
    } else {
      assert w[0] == all[a] == tail[a - |d| - 1];
      assert Piece(d, a, b) == d[|d|..];
    }
  }

  // What follows a text that is too short reads as zero.
  lemma {:induction false} PieceOf(d: string, tail: string, a: nat, b: nat)
    requires a < b && |d| + 1 + |tail| >= 8 >= b && a <= 6
    requires forall k :: 0 <= k < |tail| && k <= 5 ==> NoNumber(tail[k])
    ensures Atoi((d + [NUL] + tail)[..8][a..b]) == Atoi(Piece(d, a, b))
  {
    hide Atoi, Piece, NoNumber;
    PieceCells(d, tail, a, b);
    if b <= |d| {
    } else if a <= |d| {
      AtoiEnds(Piece(d, a, b), tail[..b - |d| - 1]);
    } else {
      assert NoNumber(tail[a - |d| - 1]);
      AtoiNothing((d + [NUL] + tail)[..8][a..b]);
      AtoiNothing("");
    }
  }

  // A printed date is read up to its end, however short it is.
  lemma {:induction false} PrintedDate(data: string, i: nat, rest: string)
    requires IsDate(i)
    ensures DateAt(data, "/" + Tag(i) + ">" + rest) == DayOf(data)
  {
    hide Atoi, Piece;
    var tail := "/" + Tag(i);
    assert (data + [NUL] + ("/" + Tag(i) + ">" + rest) + [NUL] + CLOSING)[..8] == (data + [NUL] + tail)[..8];
    PieceOf(data, tail, 0, 4);
    PieceOf(data, tail, 4, 6);
    PieceOf(data, tail, 6, 8);
    var w := (data + [NUL] + tail)[..8];
    assert w[..4] == w[0..4];
  }

  // ---- all elements of a record ----

  function SetValue(e: Employee, i: nat, data: string): Employee {
    if IsDate(i) then SetDate(e, i, DayOf(data)) else SetText(e, i, data)
  }

  lemma PrintedValue(e: Employee, i: nat, data: string, rest: string)
    requires i < FIELDS
    ensures SetField(e, i, data, "/" + Tag(i) + ">" + rest) == SetValue(e, i, data)
  {
    hide DateAt, DayOf, Tag;
    if IsDate(i) {
      PrintedDate(data, i, rest);
    }
  }

  function SetAll(e: Employee, row: Row, i: nat): Employee
    requires i <= FIELDS && GoodRow(row)
    decreases FIELDS - i
  {
    if i == FIELDS then e
    else SetAll(if row[i].Some? then SetValue(e, i, row[i].value) else e, row, i + 1)
  }

  lemma {:induction false} PrintedRecord(e: Employee, junk: string, gap: string, row: Row, i: nat)
    requires Passed(junk) && '<' !in gap && i <= FIELDS && GoodRow(row)
    ensures Fill(e, junk + Body(gap, row, i), i) == Some(SetAll(e, row, i))
    decreases FIELDS - i
  {
    hide Element, Tag, SetField, SetValue, FieldText;
    if i < FIELDS {
      if row[i].None? {
        AbsentElement(junk, gap, row, i);
        PrintedRecord(e, junk, gap, row, i + 1);
      } else {
        var data, rest := row[i].value, Body(gap, row, i + 1);
        NoTagOpensTable(i);
        PresentElement(junk, gap, Tag(i), data, rest);
        PrintedValue(e, i, data, rest);
        assert "/" + Tag(i) + ">" + rest == ("/" + Tag(i) + ">") + rest;
        PrintedRecord(SetValue(e, i, data), "/" + Tag(i) + ">", gap, row, i + 1);
      }
    }
  }

  function SetOne(e: Employee, row: Row, i: nat): Employee
    requires i < FIELDS && GoodRow(row)
  {
    if row[i].Some? then SetValue(e, i, row[i].value) else e
  }

  lemma SetNext(e: Employee, row: Row, i: nat)
    requires i < FIELDS && GoodRow(row)
    ensures SetAll(e, row, i) == SetAll(SetOne(e, row, i), row, i + 1)
  {
  }

  function FirstFive(row: Row): Employee {
    UNSET.(pinNo := Text(row[0]), labNo := Text(row[1]), labName := Text(row[2]),
           companyName := Text(row[3]), serial := FirstFifteen(row[4]))
  }

  lemma {:induction false} SetFirstFive(row: Row)
    requires GoodRow(row)
    ensures SetAll(UNSET, row, 0) == SetAll(FirstFive(row), row, 5)
  {
    hide SetAll, DayOf;
    var e := UNSET;
    SetNext(e, row, 0);
    e := e.(pinNo := Text(row[0]));
    SetNext(e, row, 1);
    e := e.(labNo := Text(row[1]));
    SetNext(e, row, 2);
    e := e.(labName := Text(row[2]));
    SetNext(e, row, 3);
    e := e.(companyName := Text(row[3]));
    SetNext(e, row, 4);
    if row[4].Some? && |row[4].value| == 15 {
      assert row[4].value[..15] == row[4].value;
    }
    assert SetOne(e, row, 4) == FirstFive(row);
  }

  lemma {:induction false} SetLastFive(row: Row)
    requires GoodRow(row)
    ensures SetAll(FirstFive(row), row, 5) == Employed(row)
  {
    hide SetAll, DayOf;
    var e := FirstFive(row);
    SetNext(e, row, 5);
    e := e.(inOutGb := Text(row[5]));
    SetNext(e, row, 6);
    e := e.(zoneCode := Text(row[6]));
    SetNext(e, row, 7);
    assert SetOne(e, row, 7) == e.(entCo := Day(row[7]));
    e := e.(entCo := Day(row[7]));
    SetNext(e, row, 8);
    assert SetOne(e, row, 8) == e.(rtrCo := Day(row[8]));
    e := e.(rtrCo := Day(row[8]));
    SetNext(e, row, 9);
    assert SetOne(e, row, 9) == e.(utype := Type(row[9]));
    e := e.(utype := Type(row[9]));
    SetNone(e, row);
  }

  lemma {:induction false} SetAllIsEmployed(row: Row)
    requires GoodRow(row)
    ensures SetAll(UNSET, row, 0) == Employed(row)
  {
    hide SetAll, FirstFive, Employed;
    SetFirstFive(row);
    SetLastFive(row);
  }

  lemma SetNone(e: Employee, row: Row)
    requires GoodRow(row)
    ensures SetAll(e, row, FIELDS) == e
  {
  }

  // ---- the whole document ----

  function EmployedAll(rows: seq<Row>): seq<Employee>
    requires forall i :: 0 <= i < |rows| ==> GoodRow(rows[i])
  {
    if rows == [] then [] else [Employed(rows[0])] + EmployedAll(rows[1..])
  }

  // Where the parts of a printed record stand.
  lemma {:induction false} PrintedParts(pre: string, attrs: string, body: string, rest: string)
    ensures var inner, lead := "<Table" + attrs + ">" + body, (attrs + ">")[1..];
      var doc, p, end := pre + (inner + "</Table>") + rest, |pre|, |pre| + 7 + |lead + body|;
      && doc == pre + ("<Table" + (attrs + ">" + body + "</Table>" + rest))
      && |doc| == end + 8 + |rest|
      && doc[p + 7..] == (lead + body) + ("</Table" + (">" + rest))
      && doc[p..end] == inner && doc[end + 8..] == rest
  {
    var doc := pre + ("<Table" + attrs + ">" + body + "</Table>") + rest;
    assert doc == pre + ("<Table" + attrs + ">" + body) + ("</Table>" + rest);
  }

  lemma {:induction false} PrintedNext(pre: string, attrs: string, gap: string, row: Row, rest: string)
    requires '<' !in attrs && '<' !in gap && GoodRow(row) && Missing(pre, "<Table")
    ensures NextRecord(pre + ("<Table" + attrs + ">" + Body(gap, row, 0) + "</Table>") + rest)
         == Record("<Table" + attrs + ">" + Body(gap, row, 0), rest)
  {
    hide Find, Body, GoodRow, OccursAt, Missing;
    var body, lead := Body(gap, row, 0), (attrs + ">")[1..];
    PrintedParts(pre, attrs, body, rest);
    FoundBehind(pre, "<Table", attrs + ">" + body + "</Table>" + rest);
    MissingClose(gap, row, 0);
    MissingBehind(lead, body, "</Table");
    FoundBehind(lead + body, "</Table", ">" + rest);
  }

  lemma {:induction false} RowsRoundTrip(attrs: string, gap: string, rows: seq<Row>, separators: seq<string>)
    requires |separators| == |rows| + 1 && '<' !in attrs && '<' !in gap
    requires forall i :: 0 <= i < |separators| ==> Missing(separators[i], "<Table")
    requires forall i :: 0 <= i < |rows| ==> GoodRow(rows[i])
    ensures Records(PrintRows(attrs, gap, rows, separators)) == Some(EmployedAll(rows))
    decreases |rows|
  {
    hide NextRecord, Fill, Body, Find, Employed;
    if rows == [] {
      NoRecord(separators[0]);
    } else {
      var junk, body := "<Table" + attrs + ">", Body(gap, rows[0], 0);
      PrintedNext(separators[0], attrs, gap, rows[0], PrintRows(attrs, gap, rows[1..], separators[1..]));
      assert junk[1..] == "Table" + attrs + ">";
      PrintedRecord(UNSET, junk, gap, rows[0], 0);
      SetAllIsEmployed(rows[0]);
      RowsRoundTrip(attrs, gap, rows[1..], separators[1..]);
    }
  }

  lemma NoRecord(doc: string)
    requires Missing(doc, "<Table")
    ensures NextRecord(doc) == NoMore
  {
  }

  // ---- records by the names of their fields ----

  // The texts of a record's elements; None is an element that is not printed.
  datatype Elements = Elements(
    pinNo: Option<string>, labNo: Option<string>, labName: Option<string>, companyName: Option<string>,
    serial: Option<string>, inOutGb: Option<string>, zoneCode: Option<string>,
    entCo: Option<string>, rtrCo: Option<string>, utype: Option<string>)

  function Field(gap: string, tag: string, data: Option<string>): string {
    if data.None? then "" else gap + "<" + tag + ">" + data.value + "</" + tag + ">"
  }

  // A record as the server writes it.
  function PrintElements(gap: string, e: Elements): string {
    Field(gap, "PIN_NO", e.pinNo) + (Field(gap, "LAB_NO", e.labNo) + (Field(gap, "LAB_NM", e.labName)
    + (Field(gap, "CO_NM", e.companyName) + (Field(gap, "RFID_CAR", e.serial) + (Field(gap, "IN_OUT_GB", e.inOutGb)
    + (Field(gap, "ZONE_CD", e.zoneCode) + (Field(gap, "ENT_CO_YMD", e.entCo) + (Field(gap, "RTR_CO_YMD", e.rtrCo)
    + (Field(gap, "UTYPE", e.utype) + gap)))))))))
  }

  function Print(attrs: string, gap: string, es: seq<Elements>, separators: seq<string>): string
    requires |separators| == |es| + 1
  {
    if es == [] then separators[0]
    else
      separators[0] + ("<Table" + attrs + ">" + PrintElements(gap, es[0]) + "</Table>")
      + Print(attrs, gap, es[1..], separators[1..])
  }

  predicate GoodText(d: Option<string>) {
    d.Some? ==> GoodData(d.value)
  }

  predicate GoodElements(e: Elements) {
    && GoodText(e.pinNo) && GoodText(e.labNo) && GoodText(e.labName) && GoodText(e.companyName)
    && GoodText(e.serial) && GoodText(e.inOutGb) && GoodText(e.zoneCode)
    && GoodText(e.entCo) && GoodText(e.rtrCo) && GoodText(e.utype)
  }

  // The record that the elements stand for.
  function Meant(e: Elements): Employee {
    UNSET.(pinNo := Text(e.pinNo), labNo := Text(e.labNo), labName := Text(e.labName),
           companyName := Text(e.companyName), serial := FirstFifteen(e.serial),
           inOutGb := Text(e.inOutGb), zoneCode := Text(e.zoneCode),
           entCo := Day(e.entCo), rtrCo := Day(e.rtrCo), utype := Type(e.utype))
  }

  function MeantAll(es: seq<Elements>): seq<Employee> {
    if es == [] then [] else [Meant(es[0])] + MeantAll(es[1..])
  }

  function RowOf(e: Elements): Row {
    [e.pinNo, e.labNo, e.labName, e.companyName, e.serial, e.inOutGb, e.zoneCode, e.entCo, e.rtrCo, e.utype]
  }

  function RowsOf(es: seq<Elements>): seq<Row> {
    if es == [] then [] else [RowOf(es[0])] + RowsOf(es[1..])
  }

  lemma BodyStep(gap: string, row: Row, i: nat)
    requires i < FIELDS
    ensures Body(gap, row, i) == Field(gap, Tag(i), row[i]) + Body(gap, row, i + 1)
    ensures Body(gap, row, FIELDS) == gap
  {
    hide Tag;
  }

  lemma TagNames()
    ensures Tag(0) == "PIN_NO" && Tag(1) == "LAB_NO" && Tag(2) == "LAB_NM" && Tag(3) == "CO_NM"
    ensures Tag(4) == "RFID_CAR" && Tag(5) == "IN_OUT_GB" && Tag(6) == "ZONE_CD"
    ensures Tag(7) == "ENT_CO_YMD" && Tag(8) == "RTR_CO_YMD" && Tag(9) == "UTYPE"
  {
  }

  lemma {:induction false} PrintedAsRow(gap: string, e: Elements)
    ensures PrintElements(gap, e) == Body(gap, RowOf(e), 0)
  {
    hide Body, Field, Tag;
    var row := RowOf(e);
    TagNames();
    BodyStep(gap, row, 0);
    BodyStep(gap, row, 1);
    BodyStep(gap, row, 2);
    BodyStep(gap, row, 3);
    BodyStep(gap, row, 4);
    BodyStep(gap, row, 5);
    BodyStep(gap, row, 6);
    BodyStep(gap, row, 7);
    BodyStep(gap, row, 8);
    BodyStep(gap, row, 9);
  }

  lemma MeantByRow(e: Elements)
    requires GoodElements(e)
    ensures GoodRow(RowOf(e)) && Employed(RowOf(e)) == Meant(e)
  {
    hide Day, Type, FirstFifteen;
  }

  lemma {:induction false} PrintedAsRows(attrs: string, gap: string, es: seq<Elements>, separators: seq<string>)
    requires |separators| == |es| + 1 && forall i :: 0 <= i < |es| ==> GoodElements(es[i])
    ensures |RowsOf(es)| == |es| && forall i :: 0 <= i < |es| ==> GoodRow(RowsOf(es)[i])
    ensures Print(attrs, gap, es, separators) == PrintRows(attrs, gap, RowsOf(es), separators)
    ensures EmployedAll(RowsOf(es)) == MeantAll(es)
    decreases |es|
  {
    hide PrintElements, Body, Employed, Meant, GoodRow, GoodElements, RowOf;
    if es != [] {
      PrintedAsRow(gap, es[0]);
      MeantByRow(es[0]);
      PrintedAsRows(attrs, gap, es[1..], separators[1..]);
      assert RowsOf(es)[1..] == RowsOf(es[1..]);
    }
  }

  /**
   The extraction finds exactly the printed records, in order, with each element in its own field: absent
   ones stay unset, and no search strays into a neighbouring record.
   */
  lemma {:induction false} RoundTrip(attrs: string, gap: string, es: seq<Elements>, separators: seq<string>)
    requires |separators| == |es| + 1 && '<' !in attrs && '<' !in gap
    requires forall i :: 0 <= i < |separators| ==> Missing(separators[i], "<Table")
    requires forall i :: 0 <= i < |es| ==> GoodElements(es[i])
    ensures Records(Print(attrs, gap, es, separators)) == Some(MeantAll(es))
  {
    hide Records, PrintRows, Print, GoodElements, GoodRow, Missing;
    PrintedAsRows(attrs, gap, es, separators);
    RowsRoundTrip(attrs, gap, RowsOf(es), separators);
  }

  // ---- printed dates ----

  function Padded(n: nat, width: nat): string
    decreases width
  {
    if width == 0 then "" else Padded(n / 10, width - 1) + [DigitChar(n % 10)]
  }

  lemma {:induction false} PaddedDigits(n: nat, width: nat, bound: nat)
    requires bound == Pow10(width) && n < bound
    ensures |Padded(n, width)| == width && forall i :: 0 <= i < width ==> IsDigit(Padded(n, width)[i])
    ensures AtoiDigits(Padded(n, width), 0) == n
    decreases width
  {
    if width > 0 {
      PaddedDigits(n / 10, width - 1, bound / 10);
      AtoiDigitsAppend(Padded(n / 10, width - 1), [DigitChar(n % 10)], 0);
      assert [DigitChar(n % 10)][1..] == "";
    }
  }

  function PrintDate(d: Date): string
    requires 0 <= d.year < 10000 && 0 <= d.month < 100 && 0 <= d.day < 100
  {
    Padded(d.year, 4) + Padded(d.month, 2) + Padded(d.day, 2)
  }

  /** Eight digits are read back as the date they print. */
  lemma {:induction false} DateRoundTrip(d: Date)
    requires 0 <= d.year < 10000 && 0 <= d.month < 100 && 0 <= d.day < 100
    ensures |PrintDate(d)| == 8 && GoodData(PrintDate(d)) && DayOf(PrintDate(d)) == d
  {
    hide Padded;
    assert Pow10(2) == 100 && Pow10(3) == 1000 && Pow10(4) == 10000;
    PaddedDigits(d.year, 4, 10000);
    PaddedDigits(d.month, 2, 100);
    PaddedDigits(d.day, 2, 100);
    var s := PrintDate(d);
    assert Piece(s, 0, 4) == Padded(d.year, 4);
    assert Piece(s, 4, 6) == Padded(d.month, 2);
    assert Piece(s, 6, 8) == Padded(d.day, 2);
    DigitsAreAtoi(Padded(d.year, 4));
    DigitsAreAtoi(Padded(d.month, 2));
    DigitsAreAtoi(Padded(d.day, 2));
  }

  lemma DigitsAreAtoi(s: string)
    requires s != "" && IsDigit(s[0])
    ensures Atoi(s) == AtoiDigits(s, 0)
  {
  }
}
