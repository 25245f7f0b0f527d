/** How web/webservice.cpp lays out a POST request, and the itoa() of tools/utils.cpp that it relies on. */
module WebRequest {
  import opened CStrings
  import opened Base64

  // ---- itoa ----

  // The digits still to come.
  function High(v: nat, base: nat): string
    requires 2 <= base <= 16
  {
    if v == 0 then "" else Digits(v, base)
  }

  lemma DigitsStep(v: nat, base: nat, s: string)
    requires 2 <= base <= 16 && v > 0
    ensures v % base < base && v / base < v
    ensures High(v, base) + s == High(v / base, base) + ([DigitChar(v % base)] + s)
  {
    if v < base {
      SmallQuotient(v, base);
    } else {
      QuotientSmaller(v, base);
      LargeQuotient(v, base);
    }
  }

  lemma SmallQuotient(v: nat, base: nat)
    requires v < base
    ensures v / base == 0 && v % base == v
  {
  }

  lemma LargeQuotient(v: nat, base: nat)
    requires 0 < base <= v
    ensures v / base > 0
  {
  }

  // The last 30 digits are all that fits the static buffer.
  function Fitting(s: string): string {
    if |s| <= 30 then s else s[|s| - 30..]
  }

  // itoa(): fills the buffer from its end and returns where the numeral starts.
  method Itoa(buf: array<char>, val: nat, base: nat) returns (p: nat)
    requires buf.Length == 32 && 2 <= base <= 16
    modifies buf
    ensures Holds(buf[..], p, Fitting(Digits(val, base)))
  {
    hide Digits;
    buf[31] := NUL;
    if val == 0 {
      ZeroDigits(base);
      buf[30] := '0';
      return 30;
    }
    p := FillDigits(buf, val, base);
  }

  // The loop of itoa(), for a number that is not zero.
  method FillDigits(buf: array<char>, val: nat, base: nat) returns (p: nat)
    requires buf.Length == 32 && 2 <= base <= 16 && val > 0 && buf[31] == NUL
    modifies buf
    ensures Holds(buf[..], p, Fitting(Digits(val, base)))
  {
    hide Digits, High, DigitChar;
    var i := 30;
    var v: nat := val;
    ghost var s := "";
    FirstDigits(val, base);
    ZeroDigits(base);
    while v != 0 && i != 0
      invariant 0 <= i <= 30 && |s| == 30 - i && (i == 30 ==> v != 0)
      invariant buf[i + 1..31] == s && NUL !in s && buf[31] == NUL
      invariant Digits(val, base) == High(v, base) + s
      decreases v
    {
      v, s := PutDigit(buf, i, v, base, s);
      i := i - 1;
    }
    p := i + 1;
    LastDigits(v, base, s);
  }

  method PutDigit(buf: array<char>, i: nat, v: nat, base: nat, ghost s: string) returns (v': nat, ghost s': string)
    requires buf.Length == 32 && 2 <= base <= 16 && v > 0
    requires 0 < i <= 30 && buf[i + 1..31] == s && NUL !in s
    modifies buf
    ensures v' < v && High(v', base) + s' == High(v, base) + s
    ensures |s'| == |s| + 1 && NUL !in s' && buf[i..31] == s' && buf[31] == old(buf[31])
  {
    hide Digits, High, DigitChar;
    DigitsStep(v, base, s);
    var c := DigitChar(v % base);
    v' := v / base;
    s' := [c] + s;
    buf[i] := c;
    assert buf[i..31] == [buf[i]] + buf[i + 1..31];
  }

  lemma LastDigits(v: nat, base: nat, s: string)
    requires 2 <= base <= 16 && |s| <= 30 && (v > 0 ==> |s| == 30)
    ensures Fitting(High(v, base) + s) == s
  {
    hide Digits;
  }

  lemma FirstDigits(v: nat, base: nat)
    requires 2 <= base <= 16
    ensures v > 0 ==> High(v, base) + "" == Digits(v, base) == High(v, base)
  {
  }

  lemma ZeroDigits(base: nat)
    requires 2 <= base <= 16
    ensures Digits(0, base) == "0" && High(0, base) == ""
  {
  }

  lemma {:induction false} DecimalLength(n: nat, k: nat)
    requires k >= 1 && n < Pow10(k)
    ensures |Decimal(n)| <= k
    decreases k
  {
    if n >= 10 {
      DecimalLength(n / 10, k - 1);
    }
  }

  // ---- the header ----

  const POST := "POST /WebService/ItlogService.asmx/"
  const VERSION := " HTTP/1.1\r"
  const HOST := "\nHost: "
  const TYPE := "\nContent-Type: "
  const FORM := "application/x-www-form-urlencoded"
  const LENGTH := "\nContent-Length:"
  const BLANK := "\r\n\r\n"

  // The request line, the host and the content type.
  function Above(api: string, ip: string): string {
    (POST + api + VERSION) + (HOST + ip + "\r") + (TYPE + FORM + "\r")
  }

  function Header(api: string, ip: string, length: nat): string {
    Above(api, ip) + (LENGTH + (" " + Decimal(length) + BLANK))
  }

  // The constant that the source adds for the fixed part of the header.
  function FixedPart(api: string): nat {
    123 + |api|
  }

  lemma FixedParts()
    ensures FixedPart("TimeSheetInsertString") == 144 && FixedPart("RfidInfoSelect") == 137
    ensures |POST| + |VERSION| + |HOST| + 1 + |TYPE| + |FORM| + 1 + |LENGTH| + 1 + |BLANK| == 123
    ensures |LENGTH| == 16 && |BLANK| == 4
  {
    assert |POST| == 35 && |VERSION| == 10 && |HOST| == 7 && |TYPE| == 15 && |FORM| == 33;
  }

  // strlen(m_serverIP) is at most 15; C strings and int lengths.
  predicate GoodAddress(ip: string) {
    |ip| <= 15 && NUL !in ip
  }

  const MAX_INT: nat := 0x7fff_ffff

  lemma HeaderFits(api: string, ip: string, length: nat)
    requires |api| <= 21 && GoodAddress(ip) && length <= MAX_INT && NUL !in api
    ensures |Header(api, ip, length)| == FixedPart(api) + |ip| + |Decimal(length)|
    ensures |Decimal(length)| <= 10 && |Header(api, ip, length)| <= 200 && NUL !in Header(api, ip, length)
  {
    hide Decimal, Pow10;
    TenDigits();
    DecimalLength(length, 10);
    HeaderLength(api, ip, length);
    HeaderIsText(api, ip, length);
  }

  lemma TenDigits()
    ensures Pow10(10) == 10000000000
  {
    assert Pow10(2) == 100 && Pow10(4) == 10000 && Pow10(6) == 1000000 && Pow10(8) == 100000000;
  }

  lemma HeaderLength(api: string, ip: string, length: nat)
    ensures |Header(api, ip, length)| == FixedPart(api) + |ip| + |Decimal(length)|
  {
    hide Decimal;
    FixedParts();
  }

  lemma LinesAreText()
    ensures NUL !in POST && NUL !in VERSION && NUL !in HOST && NUL !in TYPE
    ensures NUL !in FORM && NUL !in LENGTH && NUL !in BLANK
  {
  }

  lemma HeaderIsText(api: string, ip: string, length: nat)
    requires NUL !in ip && NUL !in api
    ensures NUL !in Header(api, ip, length)
  {
    hide Decimal;
    assert NUL !in Decimal(length) by {
      DecimalIsDigits(length);
    }
    LinesAreText();
  }

  // sprintf() into the buffer: the text and its terminator.
  method Print(cmd: array<char>, at: nat, text: string)
    requires at + |text| < cmd.Length && NUL !in text
    modifies cmd
    ensures Holds(cmd[..], at, text)
    ensures forall k :: 0 <= k < at || at + |text| < k < cmd.Length ==> cmd[k] == old(cmd[k])
  {
    for i := 0 to |text|
      invariant cmd[at..at + i] == text[..i]
      invariant forall k :: 0 <= k < at || at + i <= k < cmd.Length ==> cmd[k] == old(cmd[k])
    {
      cmd[at + i] := text[i];
    }
    cmd[at + |text|] := NUL;
  }

  // Prints the header so that it ends at offset 200, over whose terminator the body's 's' is put back.
  method PrependHeader(cmd: array<char>, itoaBuf: array<char>, api: string, ip: string, contentLen: nat,
                       ghost body: string)
    returns (offset: nat)
    requires cmd.Length >= 400 && itoaBuf.Length == 32 && itoaBuf != cmd
    requires |api| <= 21 && NUL !in api && GoodAddress(ip)
    requires Holds(cmd[..], 200, body) && body != "" && body[0] == 's'
    requires contentLen == |body| <= MAX_INT
    modifies cmd, itoaBuf
    ensures var header := Header(api, ip, |body|);
      && offset + |header| == 200
      && Holds(cmd[..], offset, header + body)
  {
    hide Header, Decimal;
    HeaderFits(api, ip, contentLen);
    var p := Itoa(itoaBuf, contentLen, 10);
    HeldString(itoaBuf[..], p, Fitting(Digits(contentLen, 10)));
    var headerLength := FixedPart(api) + |ip| + |Str(itoaBuf[..], p)|;
    assert headerLength == |Header(api, ip, contentLen)| by {
      DecimalIsDigits(contentLen);
    }
    offset := 200 - headerLength;
    ghost var before := cmd[..];
    Print(cmd, offset, Header(api, ip, contentLen));
    cmd[200] := 's';
    Abut(before, cmd[..], offset, Header(api, ip, contentLen), body);
  }

  lemma DecimalIsDigits(n: nat)
    ensures Decimal(n) == Digits(n, 10)
  {
  }

  lemma {:induction false} Abut(before: seq<char>, after: seq<char>, offset: nat, header: string, body: string)
    requires Holds(before, 200, body) && body != "" && offset + |header| == 200 && NUL !in header
    requires |before| == |after| && after[offset..200] == header && after[200] == body[0]
    requires forall k :: 200 < k < |before| ==> after[k] == before[k]
    ensures Holds(after, offset, header + body)
  {
    assert forall i :: 0 <= i < |body| ==> before[200 + i] == body[i];
    assert after[200..200 + |body|] == body;
  }

  // ---- the two requests ----

  function RfidBody(memco: string, site: string, serial: string): string {
    "sMemcoCd=" + memco + "&sSiteCd=" + site + "&sUtype=R" + "&sMode=" + "&sSearchValue=RFID_CAR='" + serial
  }

  datatype Fields = Fields(memco: string, site: string, labNo: string, inOut: char, gateNo: string, gateLoc: string,
                           utype: char, inTime: string)

  function Prefix(f: Fields): string {
    "sMemcoCd=" + f.memco + "&sSiteCd=" + f.site + "&sLabNo=" + f.labNo + "&sInOut=" + [f.inOut]
    + "&sGateNo=" + f.gateNo + "&sGateLoc=" + f.gateLoc + "&sUtype=" + [f.utype]
    + "&sAttendGb=" + "&sEventfunctionkey=" + "&sInTime=" + f.inTime + "&sPhotoImage="
  }

  method RequestRfidInfoSelect(ip: string, memco: string, site: string, serial: string, itoaBuf: array<char>)
    returns (cmd: array<char>, offset: nat)
    requires GoodAddress(ip) && itoaBuf.Length == 32
    requires NUL !in RfidBody(memco, site, serial) && |RfidBody(memco, site, serial)| <= 199
    modifies itoaBuf
    ensures fresh(cmd)
    ensures var body := RfidBody(memco, site, serial);
      && offset + |Header("RfidInfoSelect", ip, |body|)| == 200
      && Holds(cmd[..], offset, Header("RfidInfoSelect", ip, |body|) + body)
  {
    hide Header;
    cmd := new char[400];
    var body := RfidBody(memco, site, serial);
    assert body[0] == 's';
    Print(cmd, 200, body);
    HeldString(cmd[..], 200, body);
    offset := PrependHeader(cmd, itoaBuf, "RfidInfoSelect", ip, |Str(cmd[..], 200)|, body);
  }

  // The text and its terminator fit the allocation, with or without an image behind them.
  predicate PrefixFits(f: Fields, image: Option<seq<Byte>>) {
    |Prefix(f)| <= if image.Some? then 200 else 199
  }

  /** The condition is exact: it holds when and only when every write stays inside the buffer allocated. */
  lemma FitsExactly(f: Fields, image: Option<seq<Byte>>)
    ensures PrefixFits(f, image) <==>
      var size := 400 + if image.Some? then NeedBufSize(|image.value|) else 0;
      200 + |Prefix(f)| + 1 <= size && (image.Some? ==> 200 + |Prefix(f)| + NeedBufSize(|image.value|) <= size)
  {
    hide Prefix;
  }

  function Encoded(image: Option<seq<Byte>>): string {
    if image.None? then "" else Encode(MIME_HTTP, image.value)
  }

  method RequestTimeSheetInsert(ip: string, f: Fields, imageBuf: array?<Byte>, imageSz: nat, itoaBuf: array<char>)
    returns (cmd: array<char>, offset: nat)
    requires GoodAddress(ip) && itoaBuf.Length == 32
    requires imageBuf != null ==> imageSz <= imageBuf.Length
    requires NUL !in Prefix(f)
    requires var image := if imageBuf == null then None else Some(imageBuf[..imageSz]);
      PrefixFits(f, image) && |Prefix(f)| + |Encoded(image)| <= MAX_INT
    modifies itoaBuf
    ensures fresh(cmd)
    ensures var body := Prefix(f) + Encoded(if imageBuf == null then None else Some(imageBuf[..imageSz]));
      && offset + |Header("TimeSheetInsertString", ip, |body|)| == 200
      && Holds(cmd[..], offset, Header("TimeSheetInsertString", ip, |body|) + body)
  {
    hide Header, Encode, NeedBufSize, Prefix;
    ghost var image := if imageBuf == null then None else Some(imageBuf[..imageSz]);
    var encodedBufSz := if imageBuf == null then 0 else NeedBufSize(imageSz);
    cmd := new char[400 + encodedBufSz];
    var prefix := Prefix(f);
    assert prefix != "" && prefix[0] == 's' by {
      PrefixStart(f);
    }
    assert NeedBufSize(imageSz) >= 1 by {
      NeedsOne(imageSz);
    }
    Print(cmd, 200, prefix);
    HeldString(cmd[..], 200, prefix);
    var prefixLen := |Str(cmd[..], 200)|;
    var encodedLen := 0;
    ghost var body := prefix + Encoded(image);
    if imageBuf != null {
      encodedLen := AppendImage(cmd, imageBuf, imageSz, 200 + prefixLen, prefix);
    } else {
      assert prefix + "" == prefix;
    }
    offset := PrependHeader(cmd, itoaBuf, "TimeSheetInsertString", ip, prefixLen + encodedLen, body);
  }

  method AppendImage(cmd: array<char>, imageBuf: array<Byte>, imageSz: nat, at: nat, ghost prefix: string)
    returns (n: nat)
    requires imageSz <= imageBuf.Length && at + NeedBufSize(imageSz) <= cmd.Length
    requires Holds(cmd[..], 200, prefix) && at == 200 + |prefix|
    modifies cmd
    ensures Holds(cmd[..], 200, prefix + Encode(MIME_HTTP, imageBuf[..imageSz]))
    ensures n == |Encode(MIME_HTTP, imageBuf[..imageSz])|
  {
    hide Encode, NeedBufSize;
    ghost var x, before := imageBuf[..imageSz], cmd[..];
    n := Base64e2(MIME_HTTP, imageBuf, imageSz, cmd, at);
    EncodedIsText(x);
    Appended(before, cmd[..], 200, prefix, Encode(MIME_HTTP, x));
  }

  lemma {:induction false} Appended(before: seq<char>, after: seq<char>, p: nat, s: string, t: string)
    requires Holds(before, p, s) && |before| == |after| && p + |s| + |t| < |after| && NUL !in t
    requires forall k :: 0 <= k < p + |s| ==> after[k] == before[k]
    requires after[p + |s|..p + |s| + |t|] == t && after[p + |s| + |t|] == NUL
    ensures Holds(after, p, s + t)
  {
    assert after[p..p + |s|] == before[p..p + |s|];
    assert after[p..p + |s| + |t|] == after[p..p + |s|] + after[p + |s|..p + |s| + |t|];
  }

  lemma NeedsOne(size: nat)
    ensures NeedBufSize(size) >= 1
  {
  }

  lemma PrefixStart(f: Fields)
    ensures Prefix(f) != "" && Prefix(f)[0] == 's'
  {
    assert "sMemcoCd="[0] == 's';
  }

  lemma {:induction false} EncodedIsText(x: seq<Byte>)
    ensures NUL !in Encode(MIME_HTTP, x) && '&' !in Encode(MIME_HTTP, x)
    decreases |x|
  {
    if |x| >= 3 {
      EncodedIsText(x[3..]);
    }
  }

  // ---- what the other end reads ----

  // The announced length, and where the content starts: behind the "\r\n\r\n" that ends the number.
  function Announced(text: string): Option<(int, int)> {
    var field := Find(text, LENGTH);
    if field.None? || field.value + 17 > |text| then None
    else
      var p := field.value + 17;
      var end := Find(text[p..], "\r");
      if end.None? then None else Some((Atoi(text[p..p + end.value]), p + end.value + 4))
  }

  lemma {:induction false} AnnouncedAt(pre: string, length: nat, rest: string)
    requires Missing(pre, LENGTH)
    ensures Announced(pre + (LENGTH + (" " + Decimal(length) + BLANK + rest)))
         == Some((length, |pre| + 17 + |Decimal(length)| + 4))
  {
    hide Find, Missing, Decimal, Atoi;
    var tail := " " + Decimal(length) + BLANK + rest;
    var text := pre + (LENGTH + tail);
    assert |LENGTH| == 16 && '\n' !in LENGTH[1..];
    FoundBehind(pre, LENGTH, tail);
    var p := |pre| + 17;
    assert text[p..] == Decimal(length) + ("\r" + ("\n\r\n" + rest));
    assert '\r' !in Decimal(length) by {
      DecimalDigits(length);
    }
    MissingWithoutFirst(Decimal(length), "\r");
    FoundBehind(Decimal(length), "\r", "\n\r\n" + rest);
    assert text[p..p + |Decimal(length)|] == Decimal(length);
    AtoiDecimal(length, "");
    assert Decimal(length) + "" == Decimal(length);
  }

  /** The header announces exactly the body that follows it (section 3.3.2 of RFC 7230). */
  lemma {:induction false} HeaderAnnouncesBody(api: string, ip: string, body: string)
    requires '\n' !in api && '\n' !in ip
    ensures Announced(Header(api, ip, |body|) + body) == Some((|body|, |Header(api, ip, |body|)|))
  {
    hide Missing, Decimal, Announced, Above;
    NoLengthAbove(api, ip);
    AnnouncedAt(Above(api, ip), |body|, body);
    var field := " " + Decimal(|body|) + BLANK;
    assert Above(api, ip) + (LENGTH + field) + body == Above(api, ip) + (LENGTH + (field + body));
    FixedParts();
  }

  lemma NoLengthAbove(api: string, ip: string)
    requires '\n' !in api && '\n' !in ip
    ensures Missing(Above(api, ip), LENGTH)
  {
    hide Missing;
    NoSuchField(POST + api + VERSION, HOST + ip + "\r", TYPE + FORM + "\r");
  }

  // Line by line, nothing before it looks like the length field.
  lemma {:induction false} NoSuchField(first: string, second: string, third: string)
    requires '\n' !in first
    requires |second| > 1 && second[0] == '\n' && second[1] == 'H' && '\n' !in second[1..]
    requires |third| > 9 && third[0] == '\n' && third[9] == 'T' && '\n' !in third[1..]
    ensures Missing(first + second + third, LENGTH)
  {
    var key, text := LENGTH, first + second + third;
    assert key[0] == '\n' && key[1] == 'C' && key[9] == 'L' && |key| == 16;
    forall j: nat ensures !OccursAt(text, key, j) {
      if j + |key| <= |text| {
        var seen := text[j..j + |key|];
        assert seen[0] == text[j] && seen[1] == text[j + 1] && seen[9] == text[j + 9];
        if j < |first| {
          assert text[j] == first[j];
        } else if j == |first| {
          assert text[j + 1] == second[1];
        } else if j < |first| + |second| {
          assert text[j] == second[1..][j - |first| - 1];
        } else if j == |first| + |second| {
          assert text[j + 9] == third[9];
        } else {
          assert text[j] == third[1..][j - |first| - |second| - 1];
        }
      }
    }
  }
}
