/** How web/webservice.cpp takes a response apart: the header in one receive, the body in any number. */
module WebResponse {
  import opened CStrings
  import opened WebRequest

  const HTTP_OK := 200
  const RCVHEADERBUFSIZE := 1024

  // `Wild` stands for a header on which the code follows a null pointer or leaves the buffer.
  datatype Parsed = Wild | Refused | Content(length: int, start: int)

  // parsingHeader(), on the string that the header buffer holds after the first receive. It may end at
  // a NUL of the body, or run on into what the buffer held before.
  function ParseHeader(first: string): Parsed {
    var space := Find(first, " ");
    if space.None? then Wild
    else
      var code := first[space.value + 1..];
      var end := Find(code, " ");
      if end.None? then Wild
      else if Atoi(code[..end.value]) != HTTP_OK then Refused
      else
        var rest := code[end.value + 1..];
        var field := Announced(rest);
        if field.None? then Wild else Content(field.value.0, |first| - |rest| + field.value.1)
  }

  // `start` counts from the start of the buffer.
  method ParsingHeader(buf: array<char>, readlen: int, ghost first: string)
    returns (ok: bool, start: int, contentLength: int, readByteContent: int)
    requires buf.Length == RCVHEADERBUFSIZE
    requires readlen > 0 ==> Holds(buf[..], 0, first) && !ParseHeader(first).Wild?
    modifies buf
    ensures ok <==> readlen > 0 && ParseHeader(first).Content?
    ensures ok ==>
      && ParseHeader(first) == Content(contentLength, start) && readByteContent == readlen - start
      && forall k :: start <= k < buf.Length && k >= 0 ==> buf[k] == old(buf[k])
  {
    hide Find, Announced, Str, Atoi, Holds, ParseHeader;
    start, contentLength, readByteContent := 0, 0, 0;
    if readlen <= 0 {
      return false, start, contentLength, readByteContent;
    }
    HeaderPlaces(first);
    HeldString(buf[..], 0, first);
    var p := Find(Str(buf[..], 0), " ").value + 1;
    ghost var code := first[p..];
    DropString(buf[..], 0, first, p);
    var e := CutAt(buf, p, " ", code);
    HeldString(buf[..], p, code[..e - p]);
    if Atoi(Str(buf[..], p)) != HTTP_OK {
      return false, start, contentLength, readByteContent;
    }
    ghost var rest := code[e - p + 1..];
    AnnouncedPlaces(rest);
    HeldString(buf[..], e + 1, rest);
    ghost var from := e + 1;
    p := e + 1 + Find(Str(buf[..], e + 1), LENGTH).value + 17;
    DropString(buf[..], from, rest, p - from);
    ghost var value := rest[p - from..];
    e := CutAt(buf, p, "\r", value);
    HeldString(buf[..], p, value[..e - p]);
    contentLength := Atoi(Str(buf[..], p));
    start := e + 4;
    readByteContent := readlen - start;
    ok := true;
  }

  // strstr() for one character, which a NUL then replaces.
  method CutAt(buf: array<char>, p: nat, delimiter: string, ghost text: string) returns (e: nat)
    requires |delimiter| == 1 && Holds(buf[..], p, text) && Find(text, delimiter).Some?
    modifies buf
    ensures e == p + Find(text, delimiter).value && e < p + |text|
    ensures Holds(buf[..], p, text[..e - p]) && Holds(buf[..], e + 1, text[e - p + 1..])
    ensures forall k :: 0 <= k < buf.Length && k != e ==> buf[k] == old(buf[k])
  {
    hide Find, Str;
    HeldString(buf[..], p, text);
    e := p + Find(Str(buf[..], p), delimiter).value;
    CutString(buf[..], p, text, e - p);
    buf[e] := NUL;
  }

  // Where the pieces stand that parsingHeader() looks for.
  lemma HeaderPlaces(first: string)
    requires !ParseHeader(first).Wild?
    ensures Find(first, " ").Some? && Find(first, " ").value < |first|
    ensures var p := Find(first, " ").value + 1;
      && Find(first[p..], " ").Some? && Find(first[p..], " ").value < |first[p..]|
      && var end := Find(first[p..], " ").value;
         var rest := first[p..][end + 1..];
         if Atoi(first[p..][..end]) != HTTP_OK then ParseHeader(first) == Refused
         else
           && Announced(rest).Some?
           && ParseHeader(first) == Content(Announced(rest).value.0, p + end + 1 + Announced(rest).value.1)
  {
    hide Find, Announced, Atoi;
  }

  lemma AnnouncedPlaces(text: string)
    requires Announced(text).Some?
    ensures Find(text, LENGTH).Some? && Find(text, LENGTH).value + 17 <= |text|
    ensures var p := Find(text, LENGTH).value + 17;
      && Find(text[p..], "\r").Some?
      && var end := Find(text[p..], "\r").value;
         Announced(text) == Some((Atoi(text[p..][..end]), p + end + 4))
  {
    hide Find, Atoi;
    var p := Find(text, LENGTH).value + 17;
    var end := Find(text[p..], "\r").value;
    assert text[p..][..end] == text[p..p + end];
  }

  // ---- the body ----

  function Concat(pieces: seq<string>): string {
    if pieces == [] then "" else pieces[0] + Concat(pieces[1..])
  }

  // The receive loop, as far as the receives take it: done once nothing is left of the announced length.
  // A connection that was closed delivers empty receives, and the loop goes on.
  method ReceiveBody(headerBuf: array<char>, start: nat, readByteContent: nat, contentLength: nat, pieces: seq<string>)
    returns (buf: array<char>, done: bool)
    requires start + readByteContent <= headerBuf.Length
    requires readByteContent + |Concat(pieces)| <= contentLength
    ensures fresh(buf) && buf.Length == contentLength + 1
    ensures buf[..readByteContent + |Concat(pieces)|] == headerBuf[start..start + readByteContent] + Concat(pieces)
    ensures done <==> readByteContent + |Concat(pieces)| == contentLength
    ensures done ==> buf[contentLength] == NUL
  {
    buf := new char[contentLength + 1];
    var part := headerBuf[start..start + readByteContent];
    Memcpy(buf, 0, part);
    var have := readByteContent;
    var nleaved := contentLength - have;
    var left := pieces;
    while nleaved != 0 && left != []
      invariant have + nleaved == contentLength && have >= 0 && nleaved >= 0
      invariant have + |Concat(left)| == readByteContent + |Concat(pieces)|
      invariant buf[..have] + Concat(left) == part + Concat(pieces)
      invariant headerBuf[..] == old(headerBuf[..])
      decreases |left|
    {
      var piece := left[0];
      ghost var before := buf[..have];
      assert Concat(left) == piece + Concat(left[1..]);
      Memcpy(buf, have, piece);
      assert buf[..have + |piece|] == before + piece;
      nleaved := nleaved - |piece|;
      have := have + |piece|;
      left := left[1..];
    }
    assert Concat(left) == "";
    done := nleaved == 0;
    if done {
      buf[contentLength] := NUL;
    }
  }

  // Each receive as a string: it ends at its first NUL.
  function Clipped(pieces: seq<string>): string {
    if pieces == [] then "" else Str(pieces[0], 0) + Clipped(pieces[1..])
  }

  // The same loop where every receive is appended to a file as a string.
  method SaveBody(headerBuf: array<char>, start: nat, readByteContent: nat, contentLength: nat, pieces: seq<string>)
    returns (file: string, done: bool)
    requires start + readByteContent < headerBuf.Length
    requires readByteContent + |Concat(pieces)| <= contentLength
    modifies headerBuf
    ensures done <==> readByteContent + |Concat(pieces)| == contentLength
    ensures done ==> file == Clipped([old(headerBuf[start..start + readByteContent])] + pieces)
  {
    hide Str;
    ghost var part := headerBuf[start..start + readByteContent];
    headerBuf[start + readByteContent] := NUL;
    file := PrintCells(headerBuf, start, readByteContent);
    var buf := new char[contentLength + 1];
    Memcpy(buf, 0, headerBuf[start..start + readByteContent]);
    var have := readByteContent;
    var nleaved := contentLength - have;
    var left := pieces;
    while nleaved != 0 && left != []
      invariant have + nleaved == contentLength && have >= 0 && nleaved >= 0
      invariant have + |Concat(left)| == readByteContent + |Concat(pieces)|
      invariant file + Clipped(left) == Str(part, 0) + Clipped(pieces)
      decreases |left|
    {
      var piece := left[0];
      assert Concat(left) == piece + Concat(left[1..]);
      Memcpy(buf, have, piece);
      buf[have + |piece|] := NUL;
      var text := PrintCells(buf, have, |piece|);
      assert file + (text + Clipped(left[1..])) == file + text + Clipped(left[1..]);
      file := file + text;
      nleaved := nleaved - |piece|;
      have := have + |piece|;
      left := left[1..];
    }
    done := nleaved == 0;
    if done {
      NothingClipped(left);
      assert file + "" == file;
    }
    assert ([part] + pieces)[1..] == pieces;
  }

  // Writing a C string to a stream: the cells up to the first NUL.
  method PrintCells(buf: array<char>, at: nat, n: nat) returns (text: string)
    requires at + n < buf.Length && buf[at + n] == NUL
    ensures text == Str(buf[at..at + n], 0)
  {
    hide Str;
    StrIs(buf[..], at, Str(buf[at..at + n], 0));
    text := Str(buf[..], at);
  }

  lemma {:induction false} NothingClipped(pieces: seq<string>)
    requires Concat(pieces) == ""
    ensures Clipped(pieces) == ""
  {
    if pieces != [] {
      NothingClipped(pieces[1..]);
    }
  }

  method Memcpy(buf: array<char>, at: nat, s: string)
    requires at + |s| <= buf.Length
    modifies buf
    ensures buf[at..at + |s|] == s
    ensures forall k :: 0 <= k < at || at + |s| <= k < buf.Length ==> buf[k] == old(buf[k])
  {
    for i := 0 to |s|
      invariant buf[at..at + i] == s[..i]
      invariant forall k :: 0 <= k < at || at + i <= k < buf.Length ==> buf[k] == old(buf[k])
    {
      buf[at + i] := s[i];
    }
  }

  // ---- whole responses ----

  // What a caller gets: nothing, no return at all, or the content.
  datatype Reply = NoReply | Endless | Body(text: string)

  // The buffer after the first receive holds a header on which the code stays inside its buffers, and no
  // more of the content than was announced; nor do the later receives.
  ghost predicate Sane(cells: seq<char>, readlen: int, pieces: seq<string>) {
    readlen > 0 ==>
      && readlen < |cells| && NUL in cells
      && match ParseHeader(Str(cells, 0))
         case Wild => false
         case Refused => true
         case Content(length, start) => 0 <= start <= readlen && readlen - start + |Concat(pieces)| <= length
  }

  function Reassemble(cells: seq<char>, readlen: int, pieces: seq<string>): Reply
    requires Sane(cells, readlen, pieces)
  {
    if readlen <= 0 then NoReply
    else
      match ParseHeader(Str(cells, 0))
      case Wild => NoReply
      case Refused => NoReply
      case Content(length, start) =>
        var got := cells[start..readlen] + Concat(pieces);
        if |got| < length then Endless else Body(got)
  }

  lemma HeaderString(buf: seq<char>)
    requires NUL in buf
    ensures Holds(buf, 0, Str(buf, 0))
  {
    var s := Str(buf, 0);
    assert |s| == |buf| ==> s == buf;
  }

  // parsing() of a response whose body goes into a buffer.
  method Parsing(headerBuf: array<char>, readlen: int, pieces: seq<string>) returns (reply: Reply, buf: array<char>)
    requires headerBuf.Length == RCVHEADERBUFSIZE && Sane(headerBuf[..], readlen, pieces)
    modifies headerBuf
    ensures reply == Reassemble(old(headerBuf[..]), readlen, pieces)
    ensures reply.Body? ==>
      buf.Length == |reply.text| + 1 && buf[..|reply.text|] == reply.text && buf[|reply.text|] == NUL
  {
    hide ParseHeader, Str, Holds, Concat;
    ghost var cells := headerBuf[..];
    if readlen > 0 {
      HeaderString(cells);
    }
    var ok, start, contentLength, readByteContent := ParsingHeader(headerBuf, readlen, Str(cells, 0));
    if !ok {
      buf := new char[0];
      return NoReply, buf;
    }
    assert headerBuf[start..readlen] == cells[start..readlen];
    var done;
    buf, done := ReceiveBody(headerBuf, start, readByteContent, contentLength, pieces);
    reply := if done then Body(buf[..contentLength]) else Endless;
  }

  // The same where the body goes into a file.
  method ParsingToFile(headerBuf: array<char>, readlen: int, pieces: seq<string>) returns (reply: Reply)
    requires headerBuf.Length == RCVHEADERBUFSIZE && Sane(headerBuf[..], readlen, pieces)
    modifies headerBuf
    ensures reply == ReassembleClipped(old(headerBuf[..]), readlen, pieces)
  {
    hide ParseHeader, Str, Holds, Concat, Clipped;
    ghost var cells := headerBuf[..];
    if readlen > 0 {
      HeaderString(cells);
    }
    var ok, start, contentLength, readByteContent := ParsingHeader(headerBuf, readlen, Str(cells, 0));
    if !ok {
      return NoReply;
    }
    assert headerBuf[start..readlen] == cells[start..readlen];
    var file, done := SaveBody(headerBuf, start, readByteContent, contentLength, pieces);
    reply := if done then Body(file) else Endless;
  }

  function ReassembleClipped(cells: seq<char>, readlen: int, pieces: seq<string>): Reply
    requires Sane(cells, readlen, pieces)
  {
    match Reassemble(cells, readlen, pieces)
    case NoReply => NoReply
    case Endless => Endless
    case Body(_) => Body(Clipped([cells[ParseHeader(Str(cells, 0)).start..readlen]] + pieces))
  }

  // A status line with the code, other header lines, and the length as the last of them.
  function ResponseHeader(code: nat, others: string, length: nat): string {
    "HTTP/1.1 " + Decimal(code) + " " + others + "\nContent-Length: " + Decimal(length) + "\r\n\r\n"
  }

  lemma ResponseParts(code: nat, others: string, length: nat)
    ensures ResponseHeader(code, others, length)
         == "HTTP/1.1 " + (Decimal(code) + (" " + (others + (LENGTH + (" " + Decimal(length) + BLANK)))))
  {
    hide Decimal;
    assert "\nContent-Length: " == LENGTH + " ";
  }

  // Whatever follows it, a header is understood, and accepted exactly for code 200.
  lemma {:induction false} HeaderParsed(code: nat, others: string, length: nat, more: string)
    requires Missing(others, "\nContent-Length:")
    ensures var header := ResponseHeader(code, others, length);
      ParseHeader(header + more) == if code == 200 then Content(length, |header|) else Refused
  {
    hide Find, Announced, Decimal, Missing, Atoi, ResponseHeader;
    ResponseParts(code, others, length);
    var tail := others + (LENGTH + (" " + Decimal(length) + BLANK + more));
    var header := ResponseHeader(code, others, length);
    var first := header + more;
    assert first == "HTTP/1.1" + (" " + (Decimal(code) + (" " + tail)));
    assert ' ' !in "HTTP/1.1";
    MissingWithoutFirst("HTTP/1.1", " ");
    FoundBehind("HTTP/1.1", " ", Decimal(code) + (" " + tail));
    assert first[9..] == Decimal(code) + (" " + tail);
    assert ' ' !in Decimal(code) by {
      DecimalDigits(code);
    }
    MissingWithoutFirst(Decimal(code), " ");
    FoundBehind(Decimal(code), " ", tail);
    AtoiDecimal(code, "");
    assert Decimal(code) + "" == Decimal(code);
    assert first[9..][..|Decimal(code)|] == Decimal(code) && first[9..][|Decimal(code)| + 1..] == tail;
    AnnouncedAt(others, length, more);
  }

  lemma HeaderIsString(code: nat, others: string, length: nat)
    requires NUL !in others
    ensures NUL !in ResponseHeader(code, others, length)
  {
    hide Decimal;
    DecimalIsDigits(code);
    DecimalIsDigits(length);
    assert NUL !in "HTTP/1.1 " && NUL !in "\nContent-Length: " && NUL !in "\r\n\r\n";
  }

  lemma HeaderIsNotEmpty(code: nat, others: string, length: nat)
    ensures ResponseHeader(code, others, length) != ""
  {
    hide Decimal;
  }

  // The string in a buffer that starts with text without a NUL starts with that text.
  lemma StringStarts(cells: seq<char>, text: string)
    requires text <= cells && NUL !in text && NUL in cells
    ensures text <= Str(cells, 0)
  {
    var s := Str(cells, 0);
    assert forall i :: 0 <= i < |text| ==> cells[i] == text[i] && text[i] != NUL;
    assert s == cells[..|s|] && text == cells[..|text|];
  }

  // A response of which the first receive holds the header and `k` characters of the body; what the
  // buffer holds behind them does not matter. The later receives deliver more of the body, or all of it.
  ghost predicate Arrives(code: nat, others: string, body: string, k: nat, cells: seq<char>, pieces: seq<string>) {
    && Missing(others, "\nContent-Length:") && NUL !in others && k <= |body|
    && ResponseHeader(code, others, |body|) + body[..k] < cells && NUL in cells
    && Concat(pieces) <= body[k..]
  }

  lemma {:induction false} HeaderOf(code: nat, others: string, body: string, k: nat,
                                    cells: seq<char>, pieces: seq<string>)
    requires Arrives(code, others, body, k, cells, pieces)
    ensures var header := ResponseHeader(code, others, |body|);
      ParseHeader(Str(cells, 0)) == if code == 200 then Content(|body|, |header|) else Refused
  {
    hide ParseHeader, Str, Missing, ResponseHeader;
    var header := ResponseHeader(code, others, |body|);
    HeaderIsString(code, others, |body|);
    assert header <= cells;
    StringStarts(cells, header);
    var text := Str(cells, 0);
    assert text == header + text[|header|..];
    HeaderParsed(code, others, |body|, text[|header|..]);
  }

  /**
   However a response is cut into receives, and wherever in the body the first one ends, the content
   received is the body: exactly for code 200, and once all of it has arrived.
   */
  lemma {:induction false} ReassemblyIgnoresCuts(code: nat, others: string, body: string, k: nat,
                                                 cells: seq<char>, pieces: seq<string>)
    requires Arrives(code, others, body, k, cells, pieces)
    ensures var readlen := |ResponseHeader(code, others, |body|)| + k;
      && Sane(cells, readlen, pieces)
      && Reassemble(cells, readlen, pieces) ==
           if code != 200 then NoReply
           else if |Concat(pieces)| < |body| - k then Endless
           else Body(body)
  {
    hide ParseHeader, Str, Missing, ResponseHeader;
    var header := ResponseHeader(code, others, |body|);
    HeaderOf(code, others, body, k, cells, pieces);
    assert cells[|header|..|header| + k] == body[..k];
    HeaderIsNotEmpty(code, others, |body|);
  }

  lemma {:induction false} ClippedIs(pieces: seq<string>)
    ensures |Clipped(pieces)| <= |Concat(pieces)|
    ensures Clipped(pieces) == Concat(pieces) <==> NUL !in Concat(pieces)
  {
    if pieces != [] {
      var piece, rest := pieces[0], pieces[1..];
      ClippedIs(rest);
      var text := Str(piece, 0);
      assert text == piece <==> NUL !in piece;
      assert |text| == |piece| ==> text == piece;
      assert Clipped(pieces) == Concat(pieces) ==> |Clipped(rest)| == |Concat(rest)| && text == piece by {
        assert |Clipped(pieces)| == |text| + |Clipped(rest)| && |Concat(pieces)| == |piece| + |Concat(rest)|;
      }
      assert Clipped(pieces)[|text|..] == Clipped(rest) && Concat(pieces)[|piece|..] == Concat(rest);
    }
  }

  ghost predicate SavesTextOnly(cells: seq<char>, readlen: int, pieces: seq<string>, body: string) {
    Sane(cells, readlen, pieces) && (ReassembleClipped(cells, readlen, pieces) == Body(body) <==> NUL !in body)
  }

  /** The file gets the body exactly if the body has no NUL in it. */
  lemma {:induction false} SavedIsBody(others: string, body: string, k: nat, cells: seq<char>, pieces: seq<string>)
    requires Arrives(200, others, body, k, cells, pieces) && Concat(pieces) == body[k..]
    ensures SavesTextOnly(cells, |ResponseHeader(200, others, |body|)| + k, pieces, body)
  {
    hide ParseHeader, Str, Missing, ResponseHeader, Clipped;
    ReassemblyIgnoresCuts(200, others, body, k, cells, pieces);
    HeaderOf(200, others, body, k, cells, pieces);
    var header := ResponseHeader(200, others, |body|);
    var part := cells[|header|..|header| + k];
    assert part == body[..k];
    assert ([part] + pieces)[1..] == pieces && Concat([part] + pieces) == body;
    ClippedIs([part] + pieces);
  }
}
