/** What a reader of the requests of web/webservice.cpp finds in them: header lines and form fields. */
module WebForm {
  import opened CStrings
  import opened Base64
  import opened WebRequest

  // ---- the header, line by line ----

  function RequestLine(api: string): string {
    "POST /WebService/ItlogService.asmx/" + api + " HTTP/1.1\r"
  }

  function HostLine(ip: string): string {
    "Host: " + ip + "\r"
  }

  function TypeLine(): string {
    "Content-Type: " + "application/x-www-form-urlencoded" + "\r"
  }

  function LengthLine(length: nat): string {
    "Content-Length: " + Decimal(length) + "\r"
  }

  lemma RequestPart(api: string)
    ensures POST + api + VERSION == RequestLine(api)
    ensures '\n' !in api ==> '\n' !in RequestLine(api)
  {
  }

  lemma HostPart(ip: string)
    ensures HOST + ip + "\r" == "\n" + HostLine(ip)
    ensures '\n' !in ip ==> '\n' !in HostLine(ip)
  {
  }

  lemma TypePart()
    ensures TYPE + FORM + "\r" == "\n" + TypeLine() && '\n' !in TypeLine()
  {
    assert TYPE == "\n" + "Content-Type: ";
    assert '\n' !in "Content-Type: " && '\n' !in "application/x-www-form-urlencoded";
  }

  lemma LengthPart(length: nat)
    ensures LENGTH + (" " + Decimal(length) + BLANK) == "\n" + LengthLine(length) + ("\n" + "\r" + "\n")
    ensures '\n' !in LengthLine(length)
  {
    hide Decimal;
    DecimalDigits(length);
    assert LENGTH + " " == "\n" + "Content-Length: ";
    assert LENGTH + (" " + Decimal(length) + BLANK) == (LENGTH + " ") + Decimal(length) + BLANK;
    assert BLANK == "\r" + ("\n" + "\r" + "\n");
  }

  lemma Stacked(a: string, b: string, c: string, d: string, body: string)
    ensures a + ("\n" + b) + ("\n" + c) + ("\n" + d + ("\n" + "\r" + "\n")) + body
         == a + ['\n'] + (b + ['\n'] + (c + ['\n'] + (d + ['\n'] + ("\r" + ['\n'] + body))))
  {
  }

  lemma {:induction false} FiveLines(a: string, b: string, c: string, d: string, body: string)
    requires '\n' !in a && '\n' !in b && '\n' !in c && '\n' !in d
    ensures SplitAt(a + ['\n'] + (b + ['\n'] + (c + ['\n'] + (d + ['\n'] + ("\r" + ['\n'] + body)))), '\n')
         == [a, b, c, d, "\r"] + SplitAt(body, '\n')
  {
    hide SplitAt;
    var r4 := "\r" + ['\n'] + body;
    var r3 := d + ['\n'] + r4;
    var r2 := c + ['\n'] + r3;
    SplitFirst(a, '\n', b + ['\n'] + r2);
    SplitFirst(b, '\n', r2);
    SplitFirst(c, '\n', r3);
    SplitFirst(d, '\n', r4);
    SplitFirst("\r", '\n', body);
  }

  /** The lines of a request: each ends in '\r', and an empty one comes before the body. */
  lemma {:induction false} HeaderLines(api: string, ip: string, body: string)
    requires '\n' !in api && '\n' !in ip
    ensures SplitAt(Header(api, ip, |body|) + body, '\n')
         == [RequestLine(api), HostLine(ip), TypeLine(), LengthLine(|body|), "\r"] + SplitAt(body, '\n')
  {
    hide SplitAt, Decimal, RequestLine, HostLine, TypeLine, LengthLine;
    RequestPart(api);
    HostPart(ip);
    TypePart();
    LengthPart(|body|);
    Stacked(RequestLine(api), HostLine(ip), TypeLine(), LengthLine(|body|), body);
    FiveLines(RequestLine(api), HostLine(ip), TypeLine(), LengthLine(|body|), body);
    HeaderUnfolds(api, ip, |body|);
  }

  lemma HeaderUnfolds(api: string, ip: string, length: nat)
    ensures Header(api, ip, length)
         == (POST + api + VERSION) + (HOST + ip + "\r") + (TYPE + FORM + "\r")
            + (LENGTH + (" " + Decimal(length) + BLANK))
  {
    hide Decimal;
  }

  // ---- the fields, as a reader of forms finds them ----

  datatype FormPair = FormPair(key: string, value: string)

  // '&' separates the pairs of a form, and the first '=' of a pair its key from its value.
  function FormPairs(body: string): seq<FormPair> {
    PairsOf(SplitAt(body, '&'))
  }

  function PairsOf(parts: seq<string>): seq<FormPair> {
    if parts == [] then [] else [PairOf(parts[0])] + PairsOf(parts[1..])
  }

  function PairOf(part: string): FormPair {
    var key := SplitAt(part, '=')[0];
    FormPair(key, if |key| < |part| then part[|key| + 1..] else "")
  }

  lemma {:induction false} ReadPair(key: string, value: string)
    requires '=' !in key
    ensures PairOf(key + "=" + value) == FormPair(key, value)
  {
    hide SplitAt;
    SplitFirst(key, '=', value);
    assert (key + "=" + value)[|key| + 1..] == value;
  }

  lemma {:induction false} ReadForm(key: string, value: string, rest: string)
    requires '=' !in key && '&' !in key && '&' !in value
    ensures FormPairs(key + "=" + value + ("&" + rest)) == [FormPair(key, value)] + FormPairs(rest)
    ensures FormPairs(key + "=" + value) == [FormPair(key, value)]
  {
    hide SplitAt, PairOf;
    var part := key + "=" + value;
    ReadPair(key, value);
    SplitNone(part, '&');
    SplitFirst(part, '&', rest);
    assert part + ("&" + rest) == part + ['&'] + rest;
    var parts := [part] + SplitAt(rest, '&');
    assert parts[1..] == SplitAt(rest, '&') && [part][1..] == [];
    assert PairsOf([part]) == [PairOf(part)] + PairsOf([]) == [PairOf(part)];
  }

  predicate GoodFields(f: Fields) {
    && '&' !in f.memco && '&' !in f.site && '&' !in f.labNo && f.inOut != '&' && '&' !in f.gateNo
    && '&' !in f.gateLoc && f.utype != '&' && '&' !in f.inTime
  }

  // A form from the time on, with the empty fields in front of it.
  function FormEnd(time: string, image: string): string {
    "sAttendGb=" + "" + ("&" + ("sEventfunctionkey=" + "" + ("&" + ("sInTime=" + time + ("&"
    + ("sPhotoImage=" + image))))))
  }

  // A form from the gate number on.
  function FormTail(f: Fields, image: string): string {
    "sGateNo=" + f.gateNo + ("&" + ("sGateLoc=" + f.gateLoc + ("&" + ("sUtype=" + [f.utype] + ("&"
    + FormEnd(f.inTime, image))))))
  }

  lemma {:induction false} EndPairs(time: string, image: string)
    requires '&' !in time && '&' !in image
    ensures FormPairs(FormEnd(time, image)) ==
      [FormPair("sAttendGb", ""), FormPair("sEventfunctionkey", ""), FormPair("sInTime", time),
       FormPair("sPhotoImage", image)]
  {
    hide FormPairs;
    var r3 := "sPhotoImage=" + image;
    var r2 := "sInTime=" + time + ("&" + r3);
    var r1 := "sEventfunctionkey=" + "" + ("&" + r2);
    KeyLiterals();
    ReadForm("sPhotoImage", image, "");
    ReadForm("sInTime", time, r3);
    ReadForm("sEventfunctionkey", "", r2);
    ReadForm("sAttendGb", "", r1);
  }

  lemma {:induction false} TailPairs(f: Fields, image: string)
    requires GoodFields(f) && '&' !in image
    ensures FormPairs(FormTail(f, image)) ==
      [FormPair("sGateNo", f.gateNo), FormPair("sGateLoc", f.gateLoc), FormPair("sUtype", [f.utype])]
      + FormPairs(FormEnd(f.inTime, image))
  {
    hide FormPairs, FormEnd;
    var r3 := FormEnd(f.inTime, image);
    var r2 := "sUtype=" + [f.utype] + ("&" + r3);
    var r1 := "sGateLoc=" + f.gateLoc + ("&" + r2);
    KeyLiterals();
    ReadForm("sUtype", [f.utype], r3);
    ReadForm("sGateLoc", f.gateLoc, r2);
    ReadForm("sGateNo", f.gateNo, r1);
  }

  lemma KeyLiterals()
    ensures "sPhotoImage" + "=" == "sPhotoImage=" && "sInTime" + "=" == "sInTime="
    ensures "sEventfunctionkey" + "=" == "sEventfunctionkey=" && "sAttendGb" + "=" == "sAttendGb="
    ensures "sUtype" + "=" == "sUtype=" && "sGateLoc" + "=" == "sGateLoc=" && "sGateNo" + "=" == "sGateNo="
    ensures "sInOut" + "=" == "sInOut=" && "sLabNo" + "=" == "sLabNo=" && "sSiteCd" + "=" == "sSiteCd="
    ensures "sMemcoCd" + "=" == "sMemcoCd=" && "sMode" + "=" == "sMode=" && "sSearchValue" + "=" == "sSearchValue="
  {
  }

  function FormText(f: Fields, image: string): string {
    "sMemcoCd=" + f.memco + ("&" + ("sSiteCd=" + f.site + ("&" + ("sLabNo=" + f.labNo + ("&"
    + ("sInOut=" + [f.inOut] + ("&" + FormTail(f, image))))))))
  }

  // Concatenation does not depend on where the parentheses are.
  lemma {:induction false} PrefixEnd(time: string, head: string, image: string)
    ensures head + "&sAttendGb=" + "&sEventfunctionkey=" + "&sInTime=" + time + "&sPhotoImage=" + image
      == head + ("&" + FormEnd(time, image))
  {
    var p1 := head + "&sAttendGb=";
    var p2 := p1 + "&sEventfunctionkey=";
    var r3 := "sPhotoImage=" + image;
    var r2 := "sInTime=" + time + ("&" + r3);
    var r1 := "sEventfunctionkey=" + "" + ("&" + r2);
    Joined(p2 + "&sInTime=" + time, "sPhotoImage=", image, "&sPhotoImage=");
    Between(p2, "sInTime=", time, r3, "&sInTime=");
    Empty(p1, "sEventfunctionkey=", r2, "&sEventfunctionkey=");
    Empty(head, "sAttendGb=", r1, "&sAttendGb=");
  }

  lemma {:induction false} PrefixTail(f: Fields, head: string, image: string)
    ensures head + "&sGateNo=" + f.gateNo + "&sGateLoc=" + f.gateLoc + "&sUtype=" + [f.utype]
      + "&sAttendGb=" + "&sEventfunctionkey=" + "&sInTime=" + f.inTime + "&sPhotoImage=" + image
      == head + ("&" + FormTail(f, image))
  {
    hide FormEnd;
    var p1 := head + "&sGateNo=" + f.gateNo;
    var p2 := p1 + "&sGateLoc=" + f.gateLoc;
    var r3 := FormEnd(f.inTime, image);
    var r2 := "sUtype=" + [f.utype] + ("&" + r3);
    var r1 := "sGateLoc=" + f.gateLoc + ("&" + r2);
    PrefixEnd(f.inTime, p2 + "&sUtype=" + [f.utype], image);
    Between(p2, "sUtype=", [f.utype], r3, "&sUtype=");
    Between(p1, "sGateLoc=", f.gateLoc, r2, "&sGateLoc=");
    Between(head, "sGateNo=", f.gateNo, r1, "&sGateNo=");
  }

  lemma Between(head: string, key: string, value: string, rest: string, key': string)
    requires key' == "&" + key
    ensures head + key' + value + ("&" + rest) == head + ("&" + (key + value + ("&" + rest)))
  {
  }

  lemma Joined(head: string, key: string, value: string, key': string)
    requires key' == "&" + key
    ensures head + key' + value == head + ("&" + (key + value))
  {
  }

  lemma Empty(head: string, key: string, rest: string, key': string)
    requires key' == "&" + key
    ensures head + key' + ("&" + rest) == head + ("&" + (key + "" + ("&" + rest)))
  {
  }

  lemma {:induction false} PrefixIsForm(f: Fields, image: string)
    ensures Prefix(f) + image == FormText(f, image)
  {
    hide FormTail;
    var p1 := "sMemcoCd=" + f.memco;
    var p2 := p1 + "&sSiteCd=" + f.site;
    var p3 := p2 + "&sLabNo=" + f.labNo;
    var p4 := p3 + "&sInOut=" + [f.inOut];
    PrefixTail(f, p4, image);
    var r4 := FormTail(f, image);
    var r3 := "sInOut=" + [f.inOut] + ("&" + r4);
    var r2 := "sLabNo=" + f.labNo + ("&" + r3);
    Between(p3, "sInOut=", [f.inOut], r4, "&sInOut=");
    Between(p2, "sLabNo=", f.labNo, r3, "&sLabNo=");
    Between(p1, "sSiteCd=", f.site, r2, "&sSiteCd=");
  }

  /** A reader of the form finds each field under its key, and the encoded image, if none contains '&'. */
  lemma {:induction false} FieldsReadBack(f: Fields, image: Option<seq<Byte>>)
    requires GoodFields(f)
    ensures FormPairs(Prefix(f) + Encoded(image)) ==
      [FormPair("sMemcoCd", f.memco), FormPair("sSiteCd", f.site), FormPair("sLabNo", f.labNo),
       FormPair("sInOut", [f.inOut]), FormPair("sGateNo", f.gateNo), FormPair("sGateLoc", f.gateLoc),
       FormPair("sUtype", [f.utype]), FormPair("sAttendGb", ""), FormPair("sEventfunctionkey", ""),
       FormPair("sInTime", f.inTime),
       FormPair("sPhotoImage", if image.None? then "" else Encode(MIME_HTTP, image.value))]
  {
    hide FormPairs, FormTail, FormEnd, Prefix, Encode, FormText;
    if image.Some? {
      EncodedIsText(image.value);
    }
    PrefixIsForm(f, Encoded(image));
    HeadPairs(f, Encoded(image));
    TailPairs(f, Encoded(image));
    EndPairs(f.inTime, Encoded(image));
  }

  lemma {:induction false} HeadPairs(f: Fields, image: string)
    requires GoodFields(f)
    ensures FormPairs(FormText(f, image)) ==
      [FormPair("sMemcoCd", f.memco), FormPair("sSiteCd", f.site), FormPair("sLabNo", f.labNo),
       FormPair("sInOut", [f.inOut])] + FormPairs(FormTail(f, image))
  {
    hide FormPairs, FormTail;
    KeyLiterals();
    var r4 := FormTail(f, image);
    var r3 := "sInOut=" + [f.inOut] + ("&" + r4);
    var r2 := "sLabNo=" + f.labNo + ("&" + r3);
    var r1 := "sSiteCd=" + f.site + ("&" + r2);
    ReadForm("sInOut", [f.inOut], r4);
    ReadForm("sLabNo", f.labNo, r3);
    ReadForm("sSiteCd", f.site, r2);
    ReadForm("sMemcoCd", f.memco, r1);
  }

  /** The same for the request that asks for one holder. */
  lemma {:induction false} SerialReadBack(memco: string, site: string, serial: string)
    requires '&' !in memco && '&' !in site && '&' !in serial
    ensures FormPairs(RfidBody(memco, site, serial)) ==
      [FormPair("sMemcoCd", memco), FormPair("sSiteCd", site), FormPair("sUtype", "R"), FormPair("sMode", ""),
       FormPair("sSearchValue", "RFID_CAR='" + serial)]
  {
    hide FormPairs, RfidBody, SearchText;
    KeyLiterals();
    RfidBodyIsForm(memco, site, serial);
    var r2 := SearchText(serial);
    var r1 := "sSiteCd=" + site + ("&" + r2);
    SearchPairs(serial);
    ReadForm("sSiteCd", site, r2);
    ReadForm("sMemcoCd", memco, r1);
  }

  function SearchText(serial: string): string {
    "sUtype=" + "R" + ("&" + ("sMode=" + "" + ("&" + ("sSearchValue=" + ("RFID_CAR='" + serial)))))
  }

  lemma {:induction false} SearchPairs(serial: string)
    requires '&' !in serial
    ensures FormPairs(SearchText(serial)) ==
      [FormPair("sUtype", "R"), FormPair("sMode", ""), FormPair("sSearchValue", "RFID_CAR='" + serial)]
  {
    hide FormPairs;
    KeyLiterals();
    var v := "RFID_CAR='" + serial;
    var r4 := "sSearchValue=" + v;
    var r3 := "sMode=" + "" + ("&" + r4);
    ReadForm("sSearchValue", v, "");
    ReadForm("sMode", "", r4);
    ReadForm("sUtype", "R", r3);
  }

  lemma {:induction false} RfidBodyIsForm(memco: string, site: string, serial: string)
    ensures RfidBody(memco, site, serial)
         == "sMemcoCd=" + memco + ("&" + ("sSiteCd=" + site + ("&" + SearchText(serial))))
  {
    hide SearchText;
    var p1 := "sMemcoCd=" + memco;
    var p2 := p1 + "&sSiteCd=" + site;
    SearchTail(p2, serial);
    Between(p1, "sSiteCd=", site, SearchText(serial), "&sSiteCd=");
  }

  lemma SearchTail(head: string, serial: string)
    ensures head + "&sUtype=R" + "&sMode=" + "&sSearchValue=RFID_CAR='" + serial == head + ("&" + SearchText(serial))
  {
    var r4 := "sSearchValue=" + ("RFID_CAR='" + serial);
    var r3 := "sMode=" + "" + ("&" + r4);
    assert "&sUtype=" + "R" == "&sUtype=R" && "&sSearchValue=" + "RFID_CAR='" == "&sSearchValue=RFID_CAR='";
    Joined(head + "&sUtype=R" + "&sMode=", "sSearchValue=", "RFID_CAR='" + serial, "&sSearchValue=");
    Empty(head + "&sUtype=R", "sMode=", r4, "&sMode=");
    Between(head, "sUtype=", "R", r3, "&sUtype=");
    var p := head + "&sUtype=R" + "&sMode=";
    assert p + "&sSearchValue=RFID_CAR='" + serial == p + "&sSearchValue=" + ("RFID_CAR='" + serial);
    assert head + "&sUtype=" + "R" == head + "&sUtype=R";
  }
}
