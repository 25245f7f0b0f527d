/** What employeeinfomgr.cpp extracts from a document, stated on strings that are never written to. */
module EmployeeXml {
  import opened CStrings

  datatype Date = Date(year: int, month: int, day: int)

  // A std::string starts empty; the character array and the character start out unset.
  datatype Employee = Employee(
    serial: Option<string>, inOutGb: string, utype: Option<char>, entCo: Option<Date>, rtrCo: Option<Date>,
    zoneCode: string, companyName: string, labNo: string, labName: string, pinNo: string)

  const UNSET := Employee(None, "", None, None, None, "", "", "", "", "")

  const FIELDS: nat := 10
  const ENT_CO_YMD: nat := 7
  const RTR_CO_YMD: nat := 8

  // The elements in the order in which they are looked for.
  function Tag(i: nat): (tag: string)
    requires i < FIELDS
    ensures tag != "" && NUL !in tag && '<' !in tag
  {
    if i == 0 then "PIN_NO"
    else if i == 1 then "LAB_NO"
    else if i == 2 then "LAB_NM"
    else if i == 3 then "CO_NM"
    else if i == 4 then "RFID_CAR"
    else if i == 5 then "IN_OUT_GB"
    else if i == 6 then "ZONE_CD"
    else if i == ENT_CO_YMD then "ENT_CO_YMD"
    else if i == RTR_CO_YMD then "RTR_CO_YMD"
    else "UTYPE"
  }

  // The two ends of a search: no such element, or a document the code cannot survive.
  datatype Hit = Absent | Broken | Found(data: string, rest: string)

  // getElementData(): the text behind "<tag?" up to the next '<', and what follows that '<'.
  function Element(text: string, tag: string): Hit {
    var key := Find(text, "<" + tag);
    if key.None? then Absent
    else
      var start := key.value + |tag| + 2;
      if start > |text| then Broken
      else
        var end := Find(text[start..], "<");
        if end.None? then Broken
        else Found(text[start..start + end.value], text[start + end.value + 1..])
  }

  // tools::Date(char*): eight characters, four for the year and two each for month and day.
  function DateOf(data: string): Date
    requires |data| >= 8
  {
    Date(Atoi(data[..4]), Atoi(data[4..6]), Atoi(data[6..8]))
  }

  predicate IsDate(i: nat) {
    i == ENT_CO_YMD || i == RTR_CO_YMD
  }

  // What of the closing tag the record's terminator leaves in the buffer.
  const CLOSING := "/Table"

  // tools::Date(char*) reads eight characters of the buffer: from a shorter text on, what follows it there.
  function DateAt(data: string, rest: string): Date {
    DateOf((data + [NUL] + rest + [NUL] + CLOSING)[..8])
  }

  function SetDate(e: Employee, i: nat, date: Date): Employee {
    if i == ENT_CO_YMD then e.(entCo := Some(date)) else e.(rtrCo := Some(date))
  }

  function SetText(e: Employee, i: nat, data: string): Employee {
    if i == 0 then e.(pinNo := data)
    else if i == 1 then e.(labNo := data)
    else if i == 2 then e.(labName := data)
    else if i == 3 then e.(companyName := data)
    else if i == 4 then e.(serial := Some(if |data| < 15 then data else data[..15]))
    else if i == 5 then e.(inOutGb := data)
    else if i == 6 then e.(zoneCode := data)
    else e.(utype := Some(if data == "" then NUL else data[0]))
  }

  // What finding element `i` with its text, followed by `rest`, does to a record.
  function SetField(e: Employee, i: nat, data: string, rest: string): Employee {
    if IsDate(i) then SetDate(e, i, DateAt(data, rest)) else SetText(e, i, data)
  }

  // Looks for the elements from number `i` on; each search starts behind the previous find.
  function Fill(e: Employee, text: string, i: nat): Option<Employee>
    requires i <= FIELDS
    decreases FIELDS - i
  {
    if i == FIELDS then Some(e)
    else
      match Element(text, Tag(i))
      case Absent => Fill(e, text, i + 1)
      case Broken => None
      case Found(data, rest) => Fill(SetField(e, i, data, rest), rest, i + 1)
  }

  // The next record of a document: its text from "<Table" to "</Table", and what follows the closing tag.
  datatype Next = NoMore | Torn | Record(text: string, rest: string)

  function NextRecord(doc: string): (next: Next)
    ensures next.Record? ==> |next.rest| < |doc|
  {
    var open := Find(doc, "<Table");
    if open.None? then NoMore
    else
      var p := open.value;
      if p + 7 > |doc| then Torn
      else
        var close := Find(doc[p + 7..], "</Table");
        if close.None? then Torn
        else
          var end := p + 7 + close.value;
          if end + 8 > |doc| then Torn else Record(doc[p..end], doc[end + 8..])
  }

  // The records of a document, or None if scanning it runs past its end.
  function Records(doc: string): Option<seq<Employee>>
    decreases |doc|
  {
    match NextRecord(doc)
    case NoMore => Some([])
    case Torn => None
    case Record(text, rest) =>
      var first, others := Fill(UNSET, text, 0), Records(rest);
      if first.None? || others.None? then None else Some([first.value] + others.value)
  }
}
