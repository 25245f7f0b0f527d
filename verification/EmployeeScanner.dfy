/**
 The local employee database of employeeinfomgr.cpp: a scanner that cuts the downloaded document
 up in place, and the cache that it fills.
 */
module EmployeeScanner {
  import opened CStrings
  import opened EmployeeXml

  // utils::getElementData(): ends the element's text by a NUL over the next '<'.
  method GetElementData(buf: array<char>, p: nat, tag: string, ghost text: string) returns (found: Option<nat>)
    requires Holds(buf[..], p, text) && !Element(text, tag).Broken?
    modifies buf
    ensures found.None? <==> Element(text, tag).Absent?
    ensures found.None? ==> buf[..] == old(buf[..])
    ensures found.Some? ==>
      var hit := Element(text, tag);
      var cut := found.value + |hit.data|;
      && p <= found.value && cut + 1 + |hit.rest| == p + |text|
      && buf[..] == old(buf[..])[cut := NUL]
      && Holds(buf[..], p, text[..cut - p])
      && Holds(buf[..], found.value, hit.data) && Holds(buf[..], cut + 1, hit.rest)
  {
    hide Str, Find, Element, Holds;
    HeldString(buf[..], p, text);
    ElementPlace(text, tag);
    var key := Find(Str(buf[..], p), "<" + tag);
    if key.None? {
      return None;
    }
    var ret := p + key.value + |tag| + 2;
    DropString(buf[..], p, text, ret - p);
    HeldString(buf[..], ret, text[ret - p..]);
    var end := Find(Str(buf[..], ret), "<");
    var cut := ret + end.value;
    CutPiece(buf[..], p, text, ret - p, cut - p);
    InBuffer(buf[..], p, text);
    buf[cut] := NUL;
    found := Some(ret);
  }

  lemma InBuffer(b: seq<char>, p: nat, s: string)
    requires Holds(b, p, s)
    ensures p + |s| < |b|
  {
  }

  // Where an element stands in the text.
  lemma ElementPlace(text: string, tag: string)
    requires !Element(text, tag).Broken?
    ensures Element(text, tag).Absent? <==> Find(text, "<" + tag).None?
    ensures Element(text, tag).Found? ==>
      var start := Find(text, "<" + tag).value + |tag| + 2;
      && start <= |text| && Find(text[start..], "<").Some?
      && var cut := start + Find(text[start..], "<").value;
      && cut < |text| && Element(text, tag).data == text[start..cut] && Element(text, tag).rest == text[cut + 1..]
  {
    hide Find;
  }

  // Behind the record's terminator at `q` stands the rest of its closing tag.
  ghost predicate Closed(b: seq<char>, q: nat) {
    q + 1 + |CLOSING| <= |b| && b[q + 1..q + 1 + |CLOSING|] == CLOSING
  }

  lemma {:induction false} DateCells(b: seq<char>, v: nat, data: string, rest: string)
    requires Holds(b, v, data) && Holds(b, v + |data| + 1, rest) && Closed(b, v + |data| + 1 + |rest|)
    ensures v + 8 <= |b| && DateOf(b[v..v + 8]) == DateAt(data, rest)
  {
    hide DateOf;
    var cut, end := v + |data|, v + |data| + 1 + |rest|;
    var stop := end + 1 + |CLOSING|;
    SplitCells(b, v, cut, cut + 1);
    SplitCells(b, v, cut + 1, end);
    SplitCells(b, v, end, end + 1);
    SplitCells(b, v, end + 1, stop);
    assert b[cut..cut + 1] == [NUL] && b[end..end + 1] == [NUL];
    assert b[v..stop] == data + [NUL] + rest + [NUL] + CLOSING;
    assert |CLOSING| == 6 && b[v..v + 8] == b[v..stop][..8];
  }

  lemma SplitCells(b: seq<char>, i: nat, m: nat, j: nat)
    requires i <= m <= j <= |b|
    ensures b[i..j] == b[i..m] + b[m..j]
  {
  }

  // The element's text becomes a field: a date is made of the eight cells from its start.
  method TakeField(buf: array<char>, v: nat, i: nat, e: Employee, ghost text: string, ghost rest: string)
    returns (data: string, e': Employee)
    requires Holds(buf[..], v, text) && Holds(buf[..], v + |text| + 1, rest)
    requires Closed(buf[..], v + |text| + 1 + |rest|)
    ensures data == text && e' == SetField(e, i, text, rest)
  {
    hide Str, SetText, SetDate, DateOf, DateAt, Closed, Holds;
    HeldString(buf[..], v, text);
    data := Str(buf[..], v);
    DateCells(buf[..], v, text, rest);
    if IsDate(i) {
      assert buf[..][v..v + 8] == buf[v..v + 8];
      e' := SetDate(e, i, DateOf(buf[v..v + 8]));
    } else {
      e' := SetText(e, i, data);
    }
  }

  // One try block: looks for element `i` and steps behind it.
  method FillField(buf: array<char>, p: nat, i: nat, e: Employee, ghost text: string)
    returns (p': nat, e': Employee, ghost text': string)
    requires Holds(buf[..], p, text) && Closed(buf[..], p + |text|) && i < FIELDS && Fill(e, text, i).Some?
    modifies buf
    ensures Holds(buf[..], p', text') && p' + |text'| == p + |text| && p' >= p && Closed(buf[..], p + |text|)
    ensures Fill(e', text', i + 1) == Fill(e, text, i)
    ensures forall k :: 0 <= k < p || p + |text| <= k < buf.Length ==> buf[k] == old(buf[k])
  {
    hide Element, Str, SetField, Tag, Find, OccursAt, Closed, Holds, Fill;
    FillOne(e, text, i);
    p', e', text' := p, e, text;
    InBuffer(buf[..], p, text);
    var found := GetElementData(buf, p, Tag(i), text);
    assert forall k :: 0 <= k < buf.Length ==> buf[..][k] == buf[k] && old(buf[..])[k] == old(buf[k]);
    if found.Some? {
      ghost var hit := Element(text, Tag(i));
      KeepsClosed(old(buf[..]), buf[..], p + |text|);
      var data;
      data, e' := TakeField(buf, found.value, i, e, hit.data, hit.rest);
      // For the first element the code measures from `p` itself, where the string now ends at the same NUL.
      ghost var cut := found.value + |hit.data|;
      HeldString(buf[..], p, text[..cut - p]);
      p' := if i == 0 then p + |Str(buf[..], p)| + 1 else found.value + |data| + 1;
      text' := hit.rest;
    }
  }

  lemma FillOne(e: Employee, text: string, i: nat)
    requires i < FIELDS
    ensures Fill(e, text, i) ==
      match Element(text, Tag(i))
      case Absent => Fill(e, text, i + 1)
      case Broken => None
      case Found(data, rest) => Fill(SetField(e, i, data, rest), rest, i + 1)
  {
    hide Element, SetField, Tag;
  }

  lemma KeepsClosed(b: seq<char>, c: seq<char>, q: nat)
    requires Closed(b, q) && |c| == |b| && forall k :: q <= k < |b| ==> c[k] == b[k]
    ensures Closed(c, q)
  {
    assert c[q + 1..q + 1 + |CLOSING|] == b[q + 1..q + 1 + |CLOSING|];
  }

  method FillRecord(buf: array<char>, start: nat, ghost text: string) returns (e: Employee)
    requires Holds(buf[..], start, text) && Closed(buf[..], start + |text|) && Fill(UNSET, text, 0).Some?
    modifies buf
    ensures Fill(UNSET, text, 0) == Some(e)
    ensures forall k :: 0 <= k < start || start + |text| <= k < buf.Length ==> buf[k] == old(buf[k])
  {
    hide Fill, Holds, Closed;
    ghost var t := text;
    var p := start;
    e := UNSET;
    p, e, t := FillField(buf, p, 0, e, t);
    p, e, t := FillField(buf, p, 1, e, t);
    p, e, t := FillField(buf, p, 2, e, t);
    p, e, t := FillField(buf, p, 3, e, t);
    p, e, t := FillField(buf, p, 4, e, t);
    p, e, t := FillField(buf, p, 5, e, t);
    p, e, t := FillField(buf, p, 6, e, t);
    p, e, t := FillField(buf, p, 7, e, t);
    p, e, t := FillField(buf, p, 8, e, t);
    p, e, t := FillField(buf, p, 9, e, t);
    assert Fill(e, t, FIELDS) == Some(e) by {
      FilledUp(e, t);
    }
  }

  lemma FilledUp(e: Employee, text: string)
    ensures Fill(e, text, FIELDS) == Some(e)
  {
  }

  // Appends the records of the document at the start of the buffer, which it destroys.
  method FillEmployeeInfoes(buf: array<char>, elems: seq<Employee>, ghost doc: string) returns (elems': seq<Employee>)
    requires Holds(buf[..], 0, doc) && Records(doc).Some?
    modifies buf
    ensures elems' == elems + Records(doc).value
  {
    hide Fill;
    elems' := elems;
    var p := 0;
    ghost var rest := doc;
    while true
      invariant Holds(buf[..], p, rest)
      invariant Records(rest).Some? && elems' + Records(rest).value == elems + Records(doc).value
      decreases |rest|
    {
      HeldString(buf[..], p, rest);
      var open := Find(Str(buf[..], p), "<Table");
      if open.None? {
        break;
      }
      p, elems', rest := FillNext(buf, p, open.value, elems', rest);
    }
  }

  // One turn of the loop, from an opening tag to behind its closing tag.
  method FillNext(buf: array<char>, p: nat, open: nat, elems: seq<Employee>, ghost rest: string)
    returns (p': nat, elems': seq<Employee>, ghost rest': string)
    requires Holds(buf[..], p, rest) && Records(rest).Some? && Find(rest, "<Table") == Some(open)
    modifies buf
    ensures Holds(buf[..], p', rest') && |rest'| < |rest|
    ensures Records(rest').Some? && elems' + Records(rest').value == elems + Records(rest).value
  {
    hide Fill, Find, Records, NextRecord, Holds, Closed;
    RecordSound(rest);
    RecordPlace(rest, open);
    var end := CutRecord(buf, p, open, rest);
    ghost var text := NextRecord(rest).text;
    rest' := NextRecord(rest).rest;
    ghost var cut := buf[..];
    var e := FillRecord(buf, p + open, text);
    InBuffer(cut, end + 8, rest');
    KeepString(cut, buf[..], end + 8, rest');
    elems' := elems + [e];
    p' := end + 8;
    RecordsNext(rest, e, elems);
  }

  // Finds the closing tag of a record and ends the record there.
  method CutRecord(buf: array<char>, p: nat, open: nat, ghost rest: string) returns (end: nat)
    requires Holds(buf[..], p, rest) && Find(rest, "<Table") == Some(open)
    requires !NextRecord(rest).Torn?
    modifies buf
    ensures NextRecord(rest).Record? && end == p + open + |NextRecord(rest).text|
    ensures Holds(buf[..], p + open, NextRecord(rest).text) && Closed(buf[..], end)
    ensures Holds(buf[..], end + 8, NextRecord(rest).rest)
  {
    hide Str, Find, NextRecord, Holds, Closed;
    RecordPlace(rest, open);
    var start := p + open;
    DropString(buf[..], p, rest, open + 7);
    HeldString(buf[..], start + 7, rest[open + 7..]);
    var close := Find(Str(buf[..], start + 7), "</Table");
    end := start + 7 + close.value;
    CutPiece(buf[..], p, rest, open, end - p);
    InBuffer(buf[..], p, rest);
    ghost var tail := rest[end - p + 1..];
    buf[end] := NUL;
    DropString(buf[..], end + 1, tail, 7);
    assert tail[7..] == rest[end + 8 - p..];
    RecordClosed(buf[..], end, tail);
  }

  lemma RecordClosed(b: seq<char>, end: nat, tail: string)
    requires Holds(b, end + 1, tail) && |tail| >= |CLOSING| && tail[..|CLOSING|] == CLOSING
    ensures Closed(b, end)
  {
    assert b[end + 1..end + 1 + |CLOSING|] == b[end + 1..end + 1 + |tail|][..|CLOSING|];
  }

  lemma RecordSound(rest: string)
    requires Records(rest).Some?
    ensures !NextRecord(rest).Torn? && (NextRecord(rest).Record? ==> Fill(UNSET, NextRecord(rest).text, 0).Some?)
  {
    hide Fill, NextRecord;
  }

  // Where a record stands in the document.
  lemma RecordPlace(rest: string, open: nat)
    requires !NextRecord(rest).Torn? && Find(rest, "<Table") == Some(open)
    ensures open + 7 <= |rest| && Find(rest[open + 7..], "</Table").Some?
    ensures var end := open + 7 + Find(rest[open + 7..], "</Table").value;
      && end + 8 <= |rest| && NextRecord(rest) == Record(rest[open..end], rest[end + 8..])
      && rest[end + 1..][..|CLOSING|] == CLOSING
  {
    hide Find, OccursAt;
    var end := open + 7 + Find(rest[open + 7..], "</Table").value;
    assert end + 8 <= |rest|;
    ClosingTag(rest[open + 7..], end - open - 7);
    var tag := rest[end..end + 7];
    assert rest[open + 7..][end - open - 7..end - open] == tag;
    assert rest[end + 1..][..|CLOSING|] == tag[1..];
  }

  lemma ClosingTag(text: string, i: nat)
    requires Find(text, "</Table") == Some(i)
    ensures i + 7 <= |text| && text[i..i + 7][1..] == CLOSING
  {
    assert OccursAt(text, "</Table", i);
    assert "</Table"[1..] == CLOSING;
  }

  lemma RecordsNext(rest: string, e: Employee, elems: seq<Employee>)
    requires Records(rest).Some? && NextRecord(rest).Record? && Fill(UNSET, NextRecord(rest).text, 0) == Some(e)
    ensures var later := Records(NextRecord(rest).rest);
      later.Some? && elems + [e] + later.value == elems + Records(rest).value
  {
    hide Fill, NextRecord;
  }
}
