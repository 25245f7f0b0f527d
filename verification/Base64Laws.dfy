/** How the encoders and the decoder of tools/base64.cpp fit together. */
module Base64Laws {
  import opened CStrings
  import opened Base64

  // ---- one group: four sextets against three bytes ----

  lemma BytesOf(e4: Sextet, e3: Sextet, e2: Sextet, e1: Sextet)
    ensures Bytes(e4, e3, e2, e1) == [e4 * 4 + e3 / 16, e3 % 16 * 16 + e2 / 4, e2 % 4 * 64 + e1]
  {
    var v: int := e4 as int * 262144 + e3 as int * 4096 + e2 as int * 64 + e1;
    var top: int, middle: int := e4 as int * 4 + e3 as int / 16, e3 as int % 16 * 16 + e2 as int / 4;
    var low: int := e2 as int % 4 * 64 + e1;
    Remainder256(v, top * 256 + middle, low);
    Remainder256(top * 256 + middle, top, middle);
    assert v / 65536 == top;
  }

  lemma Remainder256(v: int, q: int, r: nat)
    requires v == q * 256 + r && r < 256
    ensures v / 256 == q && v % 256 == r
  {
  }

  lemma BytesOfSextets(a: Byte, b: Byte, c: Byte)
    ensures Bytes(a / 4, a % 4 * 16 + b / 16, b % 16 * 4 + c / 64, c % 64) == [a, b, c]
  {
    hide Bytes;
    BytesOf(a / 4, a % 4 * 16 + b / 16, b % 16 * 4 + c / 64, c % 64);
  }

  lemma SextetsOfBytes(e4: Sextet, e3: Sextet, e2: Sextet, e1: Sextet)
    ensures var x := Bytes(e4, e3, e2, e1);
      x[0] / 4 == e4 && x[0] % 4 * 16 + x[1] / 16 == e3 && x[1] % 16 * 4 + x[2] / 64 == e2 && x[2] % 64 == e1
  {
    hide Bytes;
    BytesOf(e4, e3, e2, e1);
  }

  // Reading back the characters of a group; '=' in the last two places counts as 0.
  lemma FieldsBack(i: Sextet)
    ensures Field(Mime(i)) == i && PadField(Mime(i)) == i && Mime(i) != '='
  {
  }

  lemma FieldsForth(c: char)
    requires InAlphabet(c)
    ensures Mime(Field(c)) == c && PadField(c) == Field(c) == Unmime(c) && c != '='
  {
  }

  lemma {:induction false} GroupDecodes(a: Byte, b: Byte, c: Byte)
    ensures DecodeGroup(Group(MIME, a, b, c)) == [a, b, c] && GroupBlanks(Group(MIME, a, b, c)) == 0
  {
    hide Bytes, Mime, Field, PadField;
    FieldsBack(a / 4);
    FieldsBack(a % 4 * 16 + b / 16);
    FieldsBack(b % 16 * 4 + c / 64);
    FieldsBack(c % 64);
    BytesOfSextets(a, b, c);
  }

  // Each byte is restored even if the bits that pad the last sextet are not zero.
  lemma {:induction false} LooseGroupDecodes(x: seq<Byte>, e: Sextet)
    requires |x| == 1 || |x| == 2
    ensures |x| == 1 && e / 16 == x[0] % 4 ==>
      var s := [Mime(x[0] / 4), Mime(e), '=', '=']; DecodeGroup(s)[..1] == x && GroupBlanks(s) == 2
    ensures |x| == 2 && e / 4 == x[1] % 16 ==>
      var s := [Mime(x[0] / 4), Mime(x[0] % 4 * 16 + x[1] / 16), Mime(e), '='];
      DecodeGroup(s)[..2] == x && GroupBlanks(s) == 1
  {
    hide Bytes, Mime, Field;
    FieldsBack(x[0] / 4);
    FieldsBack(e);
    if |x| == 1 {
      BytesOf(x[0] / 4, e, 0, 0);
    } else {
      FieldsBack(x[0] % 4 * 16 + x[1] / 16);
      BytesOf(x[0] / 4, x[0] % 4 * 16 + x[1] / 16, e, 0);
    }
  }

  // ---- the encoding, spelt out ----

  lemma {:induction false} AlphabetSpeltOut(i: Sextet)
    ensures Mime(i) == ("ABCDEFGHIJKLMNOPQRSTUVWXYZ" + "abcdefghijklmnopqrstuvwxyz" + "0123456789+/")[i]
    ensures MimeHttp(i) == ("ABCDEFGHIJKLMNOPQRSTUVWXYZ" + "abcdefghijklmnopqrstuvwxyz" + "0123456789-/")[i]
  {
    PickPart("ABCDEFGHIJKLMNOPQRSTUVWXYZ", "abcdefghijklmnopqrstuvwxyz", "0123456789+/", i);
    PickPart("ABCDEFGHIJKLMNOPQRSTUVWXYZ", "abcdefghijklmnopqrstuvwxyz", "0123456789-/", i);
    if i < 26 {
      UpperSpeltOut(i);
    } else if i < 52 {
      LowerSpeltOut(i - 26);
    } else {
      OthersSpeltOut(i - 52);
    }
  }

  lemma PickPart(a: string, b: string, c: string, i: nat)
    requires |a| == 26 && |b| == 26 && |c| == 12 && i < 64
    ensures (a + b + c)[i] == if i < 26 then a[i] else if i < 52 then b[i - 26] else c[i - 52]
  {
  }

  lemma UpperSpeltOut(i: nat)
    requires i < 26
    ensures "ABCDEFGHIJKLMNOPQRSTUVWXYZ"[i] == 'A' + i as char
  {
    if i < 9 {
    } else if i < 18 {
    }
  }

  lemma LowerSpeltOut(i: nat)
    requires i < 26
    ensures "abcdefghijklmnopqrstuvwxyz"[i] == 'a' + i as char
  {
    if i < 9 {
    } else if i < 18 {
    }
  }

  lemma OthersSpeltOut(i: nat)
    requires i < 12
    ensures "0123456789+/"[i] == if i < 10 then '0' + i as char else if i == 10 then '+' else '/'
    ensures "0123456789-/"[i] == if i < 10 then '0' + i as char else if i == 10 then '-' else '/'
  {
  }

  /**
   Each three bytes, most significant first, are the number that the four characters of their group stand
   for, most significant first; what is left at the end is filled up with zero bits and '='.
   */
  lemma {:induction false} EncodingSpeltOut(mime: Sextet -> char, x: seq<Byte>, k: nat) returns (e: seq<Sextet>)
    requires 3 * k < |x|
    ensures |e| == 4 && 4 * k + 4 <= |Encode(mime, x)|
    ensures var left, s := |x| - 3 * k, Encode(mime, x)[4 * k..4 * k + 4];
      if left >= 3 then
        && s == [mime(e[0]), mime(e[1]), mime(e[2]), mime(e[3])]
        && ((e[0] as int * 64 + e[1]) * 64 + e[2]) * 64 + e[3]
           == (x[3 * k] as int * 256 + x[3 * k + 1]) * 256 + x[3 * k + 2]
      else
        && |Encode(mime, x)| == 4 * k + 4
        && if left == 2 then
          s == [mime(e[0]), mime(e[1]), mime(e[2]), '=']
          && (e[0] as int * 64 + e[1]) * 64 + e[2] == (x[3 * k] as int * 256 + x[3 * k + 1]) * 4
        else
          s == [mime(e[0]), mime(e[1]), '=', '='] && e[0] as int * 64 + e[1] == x[3 * k] as int * 16
    decreases k
  {
    if k > 0 {
      e := EncodingSpeltOut(mime, x[3..], k - 1);
      assert Encode(mime, x)[4..] == Encode(mime, x[3..]);
      assert Encode(mime, x)[4 * k..4 * k + 4] == Encode(mime, x[3..])[4 * (k - 1)..4 * (k - 1) + 4];
    } else {
      var a, b := x[0], if |x| > 1 then x[1] else 0;
      var c := if |x| > 2 then x[2] else 0;
      e := [a / 4, a % 4 * 16 + b / 16, b % 16 * 4 + c / 64, c % 64];
      SextetsAddUp(a, b, c);
    }
  }

  lemma SextetsAddUp(a: Byte, b: Byte, c: Byte)
    ensures (((a / 4) as int * 64 + (a % 4 * 16 + b / 16)) * 64 + (b % 16 * 4 + c / 64)) * 64 + c % 64
         == (a as int * 256 + b) * 256 + c
  {
  }

  // ---- decoding what was encoded ----

  lemma {:induction false} DecodeGroupwise(g: string, s: string)
    requires |g| == 4 && |s| % 4 == 0 && GroupBlanks(g) == 0
    ensures Decode(g + s) == DecodeGroup(g) + Decode(s)
  {
    hide DecodeGroup;
    assert (g + s)[..4] == g && (g + s)[4..] == s;
  }

  lemma {:induction false} DecodeLast(g: string)
    requires |g| == 4
    ensures Decode(g) == DecodeGroup(g)[..3 - GroupBlanks(g)]
  {
    hide DecodeGroup;
    assert g[..4] == g && g[4..] == "";
    assert DecodeAll(g) == DecodeGroup(g) + [];
  }

  /** Sections 3.5 and 4 of RFC 4648: decoding an encoded byte string gives it back, with its length. */
  lemma {:induction false} DecodeEncode(x: seq<Byte>)
    ensures |Encode(MIME, x)| % 4 == 0 && Decode(Encode(MIME, x)) == x
    decreases |x|
  {
    hide Group, DecodeGroup, GroupBlanks, Mime;
    EncodedLength(MIME, x);
    if |x| == 1 {
      LooseGroupDecodes(x, x[0] % 4 * 16);
      DecodeLast(Encode(MIME, x));
    } else if |x| == 2 {
      LooseGroupDecodes(x, x[1] % 16 * 4);
      DecodeLast(Encode(MIME, x));
    } else if |x| >= 3 {
      EncodedLength(MIME, x[3..]);
      GroupDecodes(x[0], x[1], x[2]);
      assert |Group(MIME, x[0], x[1], x[2])| == 4 by {
        GroupLength(x[0], x[1], x[2]);
      }
      DecodeGroupwise(Group(MIME, x[0], x[1], x[2]), Encode(MIME, x[3..]));
      DecodeEncode(x[3..]);
    }
  }

  lemma GroupLength(a: Byte, b: Byte, c: Byte)
    ensures |Group(MIME, a, b, c)| == 4
  {
  }

  /** Groups are decoded on their own, and padding counts wherever it stands. */
  lemma {:induction false} DecodeSplits(a: string, b: string)
    requires |a| % 4 == 0 && |b| % 4 == 0
    ensures |a + b| % 4 == 0
    ensures DecodeAll(a + b) == DecodeAll(a) + DecodeAll(b) && Blanks(a + b) == Blanks(a) + Blanks(b)
    decreases |a|
  {
    hide DecodeGroup, GroupBlanks;
    if a == "" {
      assert a + b == b;
    } else {
      assert (a + b)[..4] == a[..4] && (a + b)[4..] == a[4..] + b;
      DecodeSplits(a[4..], b);
    }
  }

  /** A character outside the alphabet reads like '/', and '=' reads as zero in the last two places of a group. */
  lemma {:induction false} ForeignReads(s: string, c: char)
    requires |s| == 4 && c !in "ABCDEFGHIJKLMNOPQRSTUVWXYZ" + "abcdefghijklmnopqrstuvwxyz" + "0123456789+/"
    ensures DecodeGroup(s[0 := c]) == DecodeGroup(s[0 := '/']) && DecodeGroup(s[1 := c]) == DecodeGroup(s[1 := '/'])
    ensures c != '=' ==>
      DecodeGroup(s[2 := c]) == DecodeGroup(s[2 := '/']) && DecodeGroup(s[3 := c]) == DecodeGroup(s[3 := '/'])
    ensures DecodeGroup(s[2 := '=']) == DecodeGroup(s[2 := 'A']) && DecodeGroup(s[3 := '=']) == DecodeGroup(s[3 := 'A'])
  {
    hide Bytes, Unmime;
    if InAlphabet(c) {
      UnmimeSpeltOut(c);
    }
    SlashAndA();
    assert !InAlphabet(c);
    ForeignField(c);
  }

  lemma ForeignField(c: char)
    requires !InAlphabet(c)
    ensures Field(c) == 63
  {
  }

  lemma SlashAndA()
    ensures Field('/') == 63 && PadField('A') == 0 && PadField('=') == 0
  {
  }

  lemma UnmimeSpeltOut(c: char)
    requires InAlphabet(c)
    ensures c in "ABCDEFGHIJKLMNOPQRSTUVWXYZ" + "abcdefghijklmnopqrstuvwxyz" + "0123456789+/"
  {
    hide Mime, Unmime;
    FieldsForth(c);
    AlphabetSpeltOut(Field(c));
  }

  // ---- the 24-bit encoder ----

  lemma {:induction false} UnionIsGroup(a: Byte, b: Byte, c: Byte, left: nat)
    requires left >= 3
    ensures UnionGroup(a, b, c, left) == Group(MIME, a, b, c)
  {
    hide Mime, Fields;
    FieldsOf(a, b, c);
  }

  /** base64e decodes to its input as well, whatever byte lies behind the input. */
  lemma {:induction false} DecodeEncodeUnion(x: seq<Byte>, past: Byte)
    ensures |EncodeUnion(x, past)| % 4 == 0 && Decode(EncodeUnion(x, past)) == x
    decreases |x|
  {
    hide Group, DecodeGroup, GroupBlanks, Mime, Fields;
    if |x| == 1 {
      FieldsOf(x[0], past, 0);
      LooseGroupDecodes(x, x[0] % 4 * 16 + past / 16);
      DecodeLast(EncodeUnion(x, past));
    } else if |x| == 2 {
      FieldsOf(x[0], x[1], past);
      LooseGroupDecodes(x, x[1] % 16 * 4 + past / 64);
      DecodeLast(EncodeUnion(x, past));
    } else if |x| >= 3 {
      DecodeEncodeUnion(x[3..], past);
      UnionIsGroup(x[0], x[1], x[2], |x|);
      GroupDecodes(x[0], x[1], x[2]);
      GroupLength(x[0], x[1], x[2]);
      DecodeGroupwise(Group(MIME, x[0], x[1], x[2]), EncodeUnion(x[3..], past));
    }
  }

  /** The two encoders agree unless the byte behind the input leaks into the last group. */
  lemma {:induction false} EncodersAgree(x: seq<Byte>, past: Byte)
    ensures EncodeUnion(x, past) == Encode(MIME, x)
      <==> |x| % 3 == 0 || (|x| % 3 == 1 && past < 16) || (|x| % 3 == 2 && past < 64)
    decreases |x|
  {
    hide Mime, Fields, Group;
    if |x| == 1 {
      FieldsOf(x[0], past, 0);
      FieldsBack(x[0] % 4 * 16 + past / 16);
      FieldsBack(x[0] % 4 * 16);
      var e := EncodeUnion(x, past);
      assert e[1] == Mime(x[0] % 4 * 16 + past / 16) && Encode(MIME, x)[1] == Mime(x[0] % 4 * 16);
    } else if |x| == 2 {
      FieldsOf(x[0], x[1], past);
      FieldsBack(x[1] % 16 * 4 + past / 64);
      FieldsBack(x[1] % 16 * 4);
      var e := EncodeUnion(x, past);
      assert e[2] == Mime(x[1] % 16 * 4 + past / 64) && Encode(MIME, x)[2] == Mime(x[1] % 16 * 4);
    } else if |x| >= 3 {
      EncodersAgree(x[3..], past);
      UnionIsGroup(x[0], x[1], x[2], |x|);
      var g := Group(MIME, x[0], x[1], x[2]);
      SameTail(g, EncodeUnion(x[3..], past), Encode(MIME, x[3..]));
      assert (|x| - 3) % 3 == |x| % 3;
    }
  }

  lemma SameTail(g: string, a: string, b: string)
    ensures g + a == g + b <==> a == b
  {
    assert (g + a)[|g|..] == a && (g + b)[|g|..] == b;
  }

  // ---- the HTTP alphabet ----

  function Minus(s: string): string {
    if s == "" then "" else [if s[0] == '+' then '-' else s[0]] + Minus(s[1..])
  }

  lemma {:induction false} MinusSplit(a: string, b: string)
    ensures Minus(a + b) == Minus(a) + Minus(b)
  {
    if a == "" {
      assert a + b == b;
    } else {
      assert (a + b)[1..] == a[1..] + b;
      MinusSplit(a[1..], b);
    }
  }

  lemma {:induction false} MinusFour(a: char, b: char, c: char, d: char)
    ensures Minus([a, b, c, d]) == Minus([a]) + Minus([b]) + Minus([c]) + Minus([d])
  {
    MinusSplit([a], [b]);
    MinusSplit([a, b], [c]);
    MinusSplit([a, b, c], [d]);
    assert [a, b] == [a] + [b] && [a, b, c] == [a, b] + [c] && [a, b, c, d] == [a, b, c] + [d];
  }

  lemma MinusMime(i: Sextet)
    ensures Minus([Mime(i)]) == [MimeHttp(i)] && Minus(['=']) == ['=']
  {
  }

  /** base64e2_http writes what base64e2 writes, with '-' for '+'. */
  lemma {:induction false} HttpEncoding(x: seq<Byte>)
    ensures Encode(MIME_HTTP, x) == Minus(Encode(MIME, x))
    decreases |x|
  {
    hide Minus, Mime, MimeHttp;
    if |x| == 0 {
      MinusNothing();
    } else if |x| < 3 {
      var s := LastGroup(MIME, x);
      MinusFour(s[0], s[1], s[2], s[3]);
      MinusMime(x[0] / 4);
      MinusMime(if |x| == 1 then x[0] % 4 * 16 else x[0] % 4 * 16 + x[1] / 16);
      MinusMime(if |x| == 1 then 0 else x[1] % 16 * 4);
    } else {
      var a, b, c := x[0], x[1], x[2];
      var s := Group(MIME, a, b, c);
      MinusFour(s[0], s[1], s[2], s[3]);
      MinusMime(a / 4);
      MinusMime(a % 4 * 16 + b / 16);
      MinusMime(b % 16 * 4 + c / 64);
      MinusMime(c % 64);
      MinusSplit(s, Encode(MIME, x[3..]));
      HttpEncoding(x[3..]);
    }
  }

  lemma MinusNothing()
    ensures Minus("") == ""
  {
  }

  // ---- encoding what was decoded ----

  // Section 3.5 of RFC 4648: padding only at the end, with zero pad bits.
  predicate PaddedGroup(s: string)
    requires |s| == 4
  {
    && InAlphabet(s[0]) && InAlphabet(s[1]) && s[3] == '='
    && if s[2] == '=' then Unmime(s[1]) % 16 == 0 else InAlphabet(s[2]) && Unmime(s[2]) % 4 == 0
  }

  predicate Canonical(s: string) {
    s == "" || (|s| >= 4 &&
      if |s| == 4 && s[3] == '=' then PaddedGroup(s)
      else InAlphabet(s[0]) && InAlphabet(s[1]) && InAlphabet(s[2]) && InAlphabet(s[3]) && Canonical(s[4..]))
  }

  lemma {:induction false} EncodeDecodeGroup(g: string)
    requires |g| == 4 && InAlphabet(g[0]) && InAlphabet(g[1]) && InAlphabet(g[2]) && InAlphabet(g[3])
    ensures GroupBlanks(g) == 0
    ensures var x := DecodeGroup(g); Group(MIME, x[0], x[1], x[2]) == g
  {
    hide Bytes, Mime, Field, PadField, InAlphabet;
    FieldsForth(g[0]);
    FieldsForth(g[1]);
    FieldsForth(g[2]);
    FieldsForth(g[3]);
    SextetsOfBytes(Field(g[0]), Field(g[1]), Field(g[2]), Field(g[3]));
  }

  lemma {:induction false} EncodeDecodeOneByte(g: string)
    requires |g| == 4 && PaddedGroup(g) && g[2] == '='
    ensures Encode(MIME, DecodeGroup(g)[..3 - GroupBlanks(g)]) == g
  {
    hide Bytes, Mime, Field, InAlphabet, Unmime;
    FieldsForth(g[0]);
    FieldsForth(g[1]);
    BytesOf(Field(g[0]), Field(g[1]), 0, 0);
    assert DecodeGroup(g)[..1] == [Field(g[0]) * 4 + Field(g[1]) / 16];
  }

  lemma {:induction false} EncodeDecodeTwoBytes(g: string)
    requires |g| == 4 && PaddedGroup(g) && g[2] != '='
    ensures Encode(MIME, DecodeGroup(g)[..3 - GroupBlanks(g)]) == g
  {
    hide Bytes, Mime, Field, InAlphabet, Unmime;
    FieldsForth(g[0]);
    FieldsForth(g[1]);
    FieldsForth(g[2]);
    var e4, e3, e2 := Field(g[0]), Field(g[1]), Field(g[2]);
    BytesOf(e4, e3, e2, 0);
    SextetsOfBytes(e4, e3, e2, 0);
    var x := DecodeGroup(g);
    assert x == Bytes(e4, e3, e2, 0) && x[2] == 0;
    assert Encode(MIME, x[..2]) == LastGroup(MIME, x[..2]);
  }

  lemma {:induction false} EncodeDecodePadded(g: string)
    requires |g| == 4 && PaddedGroup(g)
    ensures Encode(MIME, Decode(g)) == g
  {
    hide Encode, DecodeGroup, Decode, PaddedGroup;
    DecodeLast(g);
    if g[2] == '=' {
      EncodeDecodeOneByte(g);
    } else {
      EncodeDecodeTwoBytes(g);
    }
  }

  lemma {:induction false} EncodeDecodeCanonical(s: string)
    requires |s| % 4 == 0 && Canonical(s)
    ensures Encode(MIME, Decode(s)) == s
    decreases |s|
  {
    hide Group, DecodeGroup, GroupBlanks, InAlphabet, Decode;
    if s == "" {
      DecodeNothing();
    } else if |s| == 4 && s[3] == '=' {
      EncodeDecodePadded(s);
    } else {
      var g, rest := s[..4], s[4..];
      assert s == g + rest;
      EncodeDecodeGroup(g);
      DecodeGroupwise(g, rest);
      EncodeDecodeCanonical(rest);
      var x := DecodeGroup(g);
      assert (x + Decode(rest))[3..] == Decode(rest);
    }
  }

  lemma DecodeNothing()
    ensures Decode("") == []
  {
  }

  lemma {:induction false} EncodingIsCanonical(x: seq<Byte>)
    ensures Canonical(Encode(MIME, x))
    decreases |x|
  {
    hide Mime, Unmime;
    EncodedLength(MIME, x);
    if |x| == 1 {
      MimeInverse(x[0] / 4);
      MimeInverse(x[0] % 4 * 16);
    } else if |x| == 2 {
      MimeInverse(x[0] / 4);
      MimeInverse(x[0] % 4 * 16 + x[1] / 16);
      MimeInverse(x[1] % 16 * 4);
    } else if |x| >= 3 {
      MimeInverse(x[0] / 4);
      MimeInverse(x[0] % 4 * 16 + x[1] / 16);
      MimeInverse(x[1] % 16 * 4 + x[2] / 64);
      MimeInverse(x[2] % 64);
      EncodingIsCanonical(x[3..]);
      var s, rest := Encode(MIME, x), Encode(MIME, x[3..]);
      assert s[4..] == rest;
    }
  }

  /** Encoding a decoded string gives it back exactly when it is canonical. */
  lemma {:induction false} EncodeDecode(s: string)
    requires |s| % 4 == 0
    ensures Encode(MIME, Decode(s)) == s <==> Canonical(s)
  {
    EncodingIsCanonical(Decode(s));
    if Canonical(s) {
      EncodeDecodeCanonical(s);
    }
  }

  /** A caller that offers as many bytes as there are characters has room, except for 1, 2 or 5 of them. */
  lemma ImageBufferSuffices(src: seq<char>, n: nat)
    ensures GroupsRead(src, n) * 3 <= n <==> n != 1 && n != 2 && n != 5
    ensures n % 4 == 0 ==> GroupsRead(src, n) * 3 == n / 4 * 3
  {
    assert GroupsRead(src, n) == (n + 3) / 4;
    assert n >= 9 ==> (n + 3) / 4 * 3 <= n;
  }
}
