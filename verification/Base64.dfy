/** The encoders and the decoder of tools/base64.cpp. */
module Base64 {
  import opened CStrings

  type Byte = b: int | 0 <= b < 256
  type Sextet = b: int | 0 <= b < 64

  // Section 4 of RFC 4648, table 1.
  function Mime(i: Sextet): char {
    if i < 26 then 'A' + i as char
    else if i < 52 then 'a' + (i - 26) as char
    else if i < 62 then '0' + (i - 52) as char
    else if i == 62 then '+'
    else '/'
  }

  // The alphabet of base64e2_http: '-' for '+', but still '/'.
  function MimeHttp(i: Sextet): char {
    if i == 62 then '-' else Mime(i)
  }

  function Unmime(c: char): (r: int)
    ensures -1 <= r < 64
  {
    if 'A' <= c <= 'Z' then c as int - 'A' as int
    else if 'a' <= c <= 'z' then c as int - 'a' as int + 26
    else if '0' <= c <= '9' then c as int - '0' as int + 52
    else if c == '+' then 62
    else if c == '/' then 63
    else -1
  }

  predicate InAlphabet(c: char) {
    Unmime(c) >= 0
  }

  lemma MimeInverse(i: Sextet)
    ensures Unmime(Mime(i)) == i && Mime(i) != '='
  {
  }

  // ---- base64e2: byte-wise bit fields ----

  function Group(mime: Sextet -> char, a: Byte, b: Byte, c: Byte): string {
    [mime(a / 4), mime(a % 4 * 16 + b / 16), mime(b % 16 * 4 + c / 64), mime(c % 64)]
  }

  // The group that ends an input of 1 or 2 bytes more than a multiple of three.
  function LastGroup(mime: Sextet -> char, x: seq<Byte>): string
    requires |x| == 1 || |x| == 2
  {
    if |x| == 1 then [mime(x[0] / 4), mime(x[0] % 4 * 16), '=', '=']
    else [mime(x[0] / 4), mime(x[0] % 4 * 16 + x[1] / 16), mime(x[1] % 16 * 4), '=']
  }

  function Encode(mime: Sextet -> char, x: seq<Byte>): string {
    if |x| == 0 then ""
    else if |x| < 3 then LastGroup(mime, x)
    else Group(mime, x[0], x[1], x[2]) + Encode(mime, x[3..])
  }

  const MIME: Sextet -> char := (i: Sextet) => Mime(i)
  const MIME_HTTP: Sextet -> char := (i: Sextet) => MimeHttp(i)

  function NeedBufSize(size: nat): nat {
    var t := size / 3 * 4;
    (if size % 3 != 0 then t + 4 else t) + 1
  }

  lemma GroupCount(size: nat) returns (groups: nat)
    ensures groups == (size + 2) / 3 && NeedBufSize(size) - 1 == 4 * groups
    ensures 3 * groups - 3 < size <= 3 * groups
  {
    groups := (size + 2) / 3;
  }

  lemma {:induction false} EncodedGroups(mime: Sextet -> char, x: seq<Byte>)
    ensures |Encode(mime, x)| == 4 * ((|x| + 2) / 3)
    decreases |x|
  {
    if |x| >= 3 {
      EncodedGroups(mime, x[3..]);
      assert (|x| - 3 + 2) / 3 + 1 == (|x| + 2) / 3;
    }
  }

  lemma {:induction false} EncodedLength(mime: Sextet -> char, x: seq<Byte>)
    ensures |Encode(mime, x)| + 1 == NeedBufSize(|x|) && |Encode(mime, x)| % 4 == 0
  {
    EncodedGroups(mime, x);
    var groups := GroupCount(|x|);
  }

  // Writes at `result + at`, and terminates.
  method Base64e2(mime: Sextet -> char, src: array<Byte>, length: nat, result: array<char>, at: nat) returns (n: nat)
    requires length <= src.Length && at + NeedBufSize(length) <= result.Length
    modifies result
    ensures n + 1 == NeedBufSize(length)
    ensures result[at..at + n] == Encode(mime, src[..length]) && result[at + n] == NUL
    ensures forall k :: 0 <= k < at || at + n < k < result.Length ==> result[k] == old(result[k])
  {
    hide Encode;
    var sz, mod := length / 3, length % 3;
    n := PutAll(mime, src, length, sz, mod, result, at);
  }

  method PutAll(mime: Sextet -> char, src: array<Byte>, length: nat, sz: nat, mod: nat, result: array<char>, at: nat)
    returns (n: nat)
    requires length == 3 * sz + mod && mod < 3 && length <= src.Length
    requires at + 4 * sz + (if mod == 0 then 0 else 4) < result.Length
    modifies result
    ensures n == 4 * sz + if mod == 0 then 0 else 4
    ensures result[at..at + n] == Encode(mime, src[..length]) && result[at + n] == NUL
    ensures forall k :: 0 <= k < at || at + n < k < result.Length ==> result[k] == old(result[k])
  {
    hide Encode, LastGroup;
    PutGroups(mime, src, length, sz, result, at);
    var p, o := 3 * sz, at + 4 * sz;
    ghost var done, rest := result[at..o], src[p..length];
    EncodeUnfold(mime, done, rest);
    if mod != 0 {
      PutLastGroup(mime, src, p, mod, result, o);
      o := o + 4;
      assert result[at..o] == done + result[o - 4..o];
    }
    result[o] := NUL;
    n := o - at;
    assert result[at..o] == Encode(mime, src[..length]);
  }

  method PutGroups(mime: Sextet -> char, src: array<Byte>, length: nat, sz: nat, result: array<char>, at: nat)
    requires 3 * sz <= length <= src.Length && at + 4 * sz <= result.Length
    modifies result
    ensures result[at..at + 4 * sz] + Encode(mime, src[3 * sz..length]) == Encode(mime, src[..length])
    ensures forall k :: 0 <= k < at || at + 4 * sz <= k < result.Length ==> result[k] == old(result[k])
  {
    hide Encode, Group;
    ghost var x := src[..length];
    assert src[0..length] == x;
    for i := 0 to sz
      invariant result[at..at + 4 * i] + Encode(mime, src[3 * i..length]) == Encode(mime, x)
      invariant forall k :: 0 <= k < at || at + 4 * i <= k < result.Length ==> result[k] == old(result[k])
    {
      var p, o := 3 * i, at + 4 * i;
      ghost var done, rest := result[at..o], src[p..length];
      PutGroup(mime, src[p], src[p + 1], src[p + 2], result, o);
      EncodeUnfold(mime, done, rest);
      assert rest[3..] == src[p + 3..length];
      assert result[at..o + 4] == done + result[o..o + 4];
    }
  }

  lemma EncodeUnfold(mime: Sextet -> char, done: string, x: seq<Byte>)
    ensures |x| == 0 ==> Encode(mime, x) == ""
    ensures |x| == 1 || |x| == 2 ==> Encode(mime, x) == LastGroup(mime, x)
    ensures |x| >= 3 ==> done + Encode(mime, x) == done + Group(mime, x[0], x[1], x[2]) + Encode(mime, x[3..])
  {
  }

  method PutLastGroup(mime: Sextet -> char, src: array<Byte>, p: nat, mod: nat, result: array<char>, o: nat)
    requires (mod == 1 || mod == 2) && p + mod <= src.Length && o + 4 <= result.Length
    modifies result
    ensures result[o..o + 4] == LastGroup(mime, src[p..p + mod])
    ensures forall k :: 0 <= k < o || o + 4 <= k < result.Length ==> result[k] == old(result[k])
  {
    if mod == 1 {
      result[o], result[o + 1] := mime(src[p] / 4), mime(src[p] % 4 * 16);
      result[o + 2], result[o + 3] := '=', '=';
    } else if mod == 2 {
      result[o], result[o + 1] := mime(src[p] / 4), mime(src[p] % 4 * 16 + src[p + 1] / 16);
      result[o + 2], result[o + 3] := mime(src[p + 1] % 16 * 4), '=';
    }
  }

  method PutGroup(mime: Sextet -> char, a: Byte, b: Byte, c: Byte, result: array<char>, o: nat)
    requires o + 4 <= result.Length
    modifies result
    ensures result[o..o + 4] == Group(mime, a, b, c)
    ensures forall k :: 0 <= k < o || o + 4 <= k < result.Length ==> result[k] == old(result[k])
  {
    result[o] := mime(a / 4);
    result[o + 1] := mime(a % 4 * 16 + b / 16);
    result[o + 2] := mime(b % 16 * 4 + c / 64);
    result[o + 3] := mime(c % 64);
  }

  // ---- base64e: a 24-bit union ----

  // The union's fields e4, e3, e2, e1, from the top.
  function Fields(c3: Byte, c2: Byte, c1: Byte): seq<Sextet> {
    var v := c3 * 65536 + c2 * 256 + c1;
    [v / 262144, v / 4096 % 64, v / 64 % 64, v % 64]
  }

  // One group: c2 and c1 are read even where the input ends before them.
  function UnionGroup(c3: Byte, c2: Byte, c1: Byte, left: nat): string {
    var e := Fields(c3, c2, c1);
    [Mime(e[0]), Mime(e[1]), if left < 2 then '=' else Mime(e[2]), if left < 3 then '=' else Mime(e[3])]
  }

  // `past` stands for the byte found just behind the input, which the last group reads.
  function EncodeUnion(x: seq<Byte>, past: Byte): string {
    if |x| == 0 then ""
    else if |x| == 1 then UnionGroup(x[0], past, 0, 1)
    else if |x| == 2 then UnionGroup(x[0], x[1], past, 2)
    else UnionGroup(x[0], x[1], x[2], |x|) + EncodeUnion(x[3..], past)
  }

  lemma Quotient64(v: int, q: int, r: nat)
    requires v == q * 64 + r && r < 64
    ensures v / 64 == q && v % 64 == r
  {
  }

  lemma FieldsOf(c3: Byte, c2: Byte, c1: Byte)
    ensures Fields(c3, c2, c1) == [c3 / 4, c3 % 4 * 16 + c2 / 16, c2 % 16 * 4 + c1 / 64, c1 % 64]
  {
    var v: int := c3 * 65536 + c2 * 256 + c1;
    assert v / 262144 == c3 / 4;
    assert v / 4096 == c3 * 16 + c2 / 16;
    Quotient64(v / 4096, c3 / 4, c3 % 4 * 16 + c2 / 16);
    Quotient64(v, c3 * 1024 + c2 * 4 + c1 / 64, c1 % 64);
    Quotient64(v / 64, c3 * 16 + c2 / 16, c2 % 16 * 4 + c1 / 64);
  }

  method Base64e(src: array<Byte>, result: array<char>, length: nat)
    requires length + (if length % 3 == 0 then 0 else 1) <= src.Length
    requires NeedBufSize(length) - 1 <= result.Length
    modifies result
    ensures var n := NeedBufSize(length) - 1;
      && result[..n] == EncodeUnion(src[..length], if length < src.Length then src[length] else 0)
      && forall k :: n <= k < result.Length ==> result[k] == old(result[k])
  {
    hide EncodeUnion, UnionGroup, NeedBufSize;
    ghost var x, past := src[..length], if length < src.Length then src[length] else 0;
    ghost var groups := GroupCount(length);
    var i, j := 0, 0;
    ghost var rest, g := x, 0;
    while i < length
      invariant i == 3 * g && j == 4 * g && g <= groups
      invariant if g < groups then i < length && rest == src[i..length] else i >= length && rest == []
      invariant result[..j] + EncodeUnion(rest, past) == EncodeUnion(x, past)
      invariant forall k :: j <= k < result.Length ==> result[k] == old(result[k])
    {
      PutNextUnion(src, i, length, result, j, rest, past);
      rest := Later(rest);
      i := i + 3;
      j := j + 4;
      g := g + 1;
    }
    UnionOfNothing(past);
  }

  // What is left behind the first group.
  function Later(x: seq<Byte>): seq<Byte> {
    if |x| < 3 then [] else x[3..]
  }

  // One turn of the loop.
  method PutNextUnion(src: array<Byte>, i: nat, length: nat, result: array<char>, j: nat,
                      ghost rest: seq<Byte>, ghost past: Byte)
    requires i < length && j + 4 <= result.Length && length + (if i + 3 <= length then 0 else 1) <= src.Length
    requires rest == src[i..length] && past == if length < src.Length then src[length] else 0
    modifies result
    ensures result[..j + 4] + EncodeUnion(Later(rest), past) == old(result[..j]) + EncodeUnion(rest, past)
    ensures forall k :: j + 4 <= k < result.Length ==> result[k] == old(result[k])
  {
    hide EncodeUnion, UnionGroup;
    ghost var done := result[..j];
    PutUnionGroup(src, i, length, result, j);
    ghost var group := UnionUnfold(done, rest, past);
    assert result[..j + 4] == done + group;
  }

  lemma UnionOfNothing(past: Byte)
    ensures EncodeUnion([], past) == ""
  {
  }

  lemma UnionUnfold(done: string, x: seq<Byte>, past: Byte) returns (group: string)
    requires x != []
    ensures group ==
      UnionGroup(x[0], if |x| == 1 then past else x[1], if |x| < 2 then 0 else if |x| == 2 then past else x[2], |x|)
    ensures done + EncodeUnion(x, past) == done + group + EncodeUnion(Later(x), past)
  {
    group := UnionGroup(x[0], if |x| == 1 then past else x[1],
                        if |x| < 2 then 0 else if |x| == 2 then past else x[2], |x|);
    assert group + "" == group;
  }

  method PutUnionGroup(src: array<Byte>, i: nat, length: nat, result: array<char>, j: nat)
    requires i < length && j + 4 <= result.Length && length + (if i + 3 <= length then 0 else 1) <= src.Length
    modifies result
    ensures result[j..j + 4] == UnionGroup(src[i], src[i + 1], if i + 2 > length then 0 else src[i + 2], length - i)
    ensures forall k :: 0 <= k < j || j + 4 <= k < result.Length ==> result[k] == old(result[k])
  {
    var c3 := src[i];
    var c2 := if i + 1 > length then 0 else src[i + 1];
    var c1 := if i + 2 > length then 0 else src[i + 2];
    var e := Fields(c3, c2, c1);
    result[j], result[j + 1], result[j + 2], result[j + 3] := Mime(e[0]), Mime(e[1]), Mime(e[2]), Mime(e[3]);
    if i + 2 > length {
      result[j + 2] := '=';
    }
    if i + 3 > length {
      result[j + 3] := '=';
    }
  }

  // ---- base64d ----

  // What a 6-bit field keeps of the table entry: characters outside the alphabet read as 63.
  function Field(c: char): Sextet {
    Unmime(c) % 64
  }

  function PadField(c: char): Sextet {
    if c == '=' then 0 else Field(c)
  }

  // The union's bytes c3, c2, c1.
  function Bytes(e4: Sextet, e3: Sextet, e2: Sextet, e1: Sextet): (x: seq<Byte>)
    ensures |x| == 3
  {
    var v: int := e4 as int * 262144 + e3 as int * 4096 + e2 as int * 64 + e1;
    [v / 65536, v / 256 % 256, v % 256]
  }

  function DecodeGroup(s: string): (x: seq<Byte>)
    requires |s| == 4
    ensures |x| == 3
  {
    Bytes(Field(s[0]), Field(s[1]), PadField(s[2]), PadField(s[3]))
  }

  function GroupBlanks(s: string): nat
    requires |s| == 4
  {
    (if s[2] == '=' then 1 else 0) + if s[3] == '=' then 1 else 0
  }

  function DecodeAll(s: string): (x: seq<Byte>)
    requires |s| % 4 == 0
    ensures |x| == |s| / 4 * 3
  {
    if s == "" then [] else DecodeGroup(s[..4]) + DecodeAll(s[4..])
  }

  function Blanks(s: string): (n: nat)
    requires |s| % 4 == 0
    ensures n <= |s| / 4 * 3
  {
    if s == "" then 0 else GroupBlanks(s[..4]) + Blanks(s[4..])
  }

  // The first `*length` bytes that base64d stores.
  function Decode(s: string): seq<Byte>
    requires |s| % 4 == 0
  {
    DecodeAll(s)[..|DecodeAll(s)| - Blanks(s)]
  }

  // How many groups are read: a negative length asks for strlen(), and a last group may be incomplete.
  function GroupsRead(src: seq<char>, srcLength: int): nat {
    ((if srcLength < 0 then |Str(src, 0)| else srcLength) + 3) / 4
  }

  // The last group may read up to three characters past the end.
  method Base64d(src: array<char>, srcLength: int, result: array<Byte>) returns (length: int)
    requires srcLength < 0 ==> NUL in src[..]
    requires GroupsRead(src[..], srcLength) * 4 <= src.Length && GroupsRead(src[..], srcLength) * 3 <= result.Length
    modifies result
    ensures var groups := GroupsRead(src[..], srcLength);
      && result[..groups * 3] == DecodeAll(src[..groups * 4])
      && length == groups * 3 - Blanks(src[..groups * 4])
      && forall k :: groups * 3 <= k < result.Length ==> result[k] == old(result[k])
  {
    hide DecodeAll, Blanks, Str;
    var n := if srcLength < 0 then |Str(src[..], 0)| else srcLength;
    length := DecodeGroups(src, n, result, GroupsRead(src[..], srcLength));
  }

  method DecodeGroups(src: array<char>, n: nat, result: array<Byte>, ghost groups: nat) returns (length: int)
    requires groups * 4 - 3 <= n <= groups * 4 || n == groups == 0
    requires groups * 4 <= src.Length && groups * 3 <= result.Length
    modifies result
    ensures result[..groups * 3] == DecodeAll(src[..groups * 4])
    ensures length == groups * 3 - Blanks(src[..groups * 4])
    ensures forall k :: groups * 3 <= k < result.Length ==> result[k] == old(result[k])
  {
    hide DecodeGroup, GroupBlanks, DecodeAll, Blanks;
    ghost var s := src[..groups * 4];
    ghost var rest, g := s, 0;
    var i, j, blank: int := 0, 0, 0;
    while i < n
      invariant i == 4 * g && j == 3 * g && 0 <= g <= groups
      invariant rest == s[i..] && |rest| % 4 == 0
      invariant result[..j] + DecodeAll(rest) == DecodeAll(s)
      invariant blank + Blanks(rest) == Blanks(s)
      invariant forall k :: j <= k < result.Length ==> result[k] == old(result[k])
    {
      var b := DecodeNext(src, i, result, j, rest);
      rest := rest[4..];
      blank := blank + b;
      i := i + 4;
      j := j + 3;
      g := g + 1;
    }
    DecodeUnfold([], []);
    assert rest == [];
    length := j - blank;
  }

  // One turn of the loop: the group at `i` becomes the bytes at `j`.
  method DecodeNext(src: array<char>, i: nat, result: array<Byte>, j: nat, ghost rest: string) returns (blank: nat)
    requires i + 4 <= src.Length && j + 3 <= result.Length
    requires |rest| >= 4 && |rest| % 4 == 0 && rest[..4] == src[i..i + 4]
    modifies result
    ensures result[..j + 3] + DecodeAll(rest[4..]) == old(result[..j]) + DecodeAll(rest)
    ensures blank + Blanks(rest[4..]) == Blanks(rest)
    ensures forall k :: j + 3 <= k < result.Length ==> result[k] == old(result[k])
  {
    hide DecodeGroup, GroupBlanks, DecodeAll, Blanks;
    ghost var done := result[..j];
    DecodeUnfold(done, rest);
    blank := GetGroup(src, i, result, j);
    assert result[..j + 3] == done + result[j..j + 3];
  }

  lemma DecodeUnfold(done: seq<Byte>, s: string)
    requires |s| % 4 == 0
    ensures s == "" ==> DecodeAll(s) == [] && Blanks(s) == 0
    ensures s != "" ==> done + DecodeAll(s) == done + DecodeGroup(s[..4]) + DecodeAll(s[4..])
    ensures s != "" ==> Blanks(s) == GroupBlanks(s[..4]) + Blanks(s[4..])
  {
  }

  method GetGroup(src: array<char>, i: nat, result: array<Byte>, j: nat) returns (blank: nat)
    requires i + 4 <= src.Length && j + 3 <= result.Length
    modifies result
    ensures result[j..j + 3] == DecodeGroup(src[i..i + 4]) && blank == GroupBlanks(src[i..i + 4])
    ensures forall k :: 0 <= k < j || j + 3 <= k < result.Length ==> result[k] == old(result[k])
  {
    blank := 0;
    var e4, e3 := Field(src[i]), Field(src[i + 1]);
    var e2, e1;
    if src[i + 2] == '=' {
      e2 := 0;
      blank := blank + 1;
    } else {
      e2 := Field(src[i + 2]);
    }
    if src[i + 3] == '=' {
      e1 := 0;
      blank := blank + 1;
    } else {
      e1 := Field(src[i + 3]);
    }
    var c := Bytes(e4, e3, e2, e1);
    result[j], result[j + 1], result[j + 2] := c[0], c[1], c[2];
  }
}
