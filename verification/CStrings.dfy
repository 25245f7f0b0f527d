/** C strings held in character buffers, and the library calls that every component leans on. */
module CStrings {

  datatype Option<+T> = None | Some(value: T)

  const NUL: char := '\0'

  // isspace() in the C locale.
  predicate IsSpace(c: char) {
    c == ' ' || '\t' <= c <= '\r'
  }

  function ToLowerChar(c: char): char {
    if 'A' <= c <= 'Z' then c + 32 as char else c
  }

  function ToLower(s: string): (t: string)
    ensures |t| == |s|
  {
    seq(|s|, i requires 0 <= i < |s| => ToLowerChar(s[i]))
  }

  // The buffer `b` holds the string `s` at offset `p`, followed by its terminator.
  ghost predicate Holds(b: seq<char>, p: nat, s: string) {
    && p + |s| < |b|
    && b[p..p + |s|] == s
    && b[p + |s|] == NUL
    && NUL !in s
  }

  // The terminated string found at offset `p`, cut at the end of the buffer if there is no terminator.
  function Str(b: seq<char>, p: nat): (s: string)
    requires p <= |b|
    ensures p + |s| <= |b| && s == b[p..p + |s|] && NUL !in s
    ensures p + |s| < |b| ==> b[p + |s|] == NUL
    decreases |b| - p
  {
    if p == |b| || b[p] == NUL then [] else [b[p]] + Str(b, p + 1)
  }

  lemma {:induction false} StrIs(b: seq<char>, p: nat, s: string)
    requires p + |s| <= |b| && b[p..p + |s|] == s && NUL !in s
    requires p + |s| < |b| ==> b[p + |s|] == NUL
    ensures Str(b, p) == s
  {
    var t := Str(b, p);
    assert forall i :: 0 <= i < |s| ==> b[p + i] == s[i];
    assert forall i :: 0 <= i < |t| ==> b[p + i] == t[i];
  }

  // A buffer holds at most one string at each offset, and Str finds it.
  lemma {:induction false} HeldString(b: seq<char>, p: nat, s: string)
    requires Holds(b, p, s)
    ensures Str(b, p) == s
  {
    StrIs(b, p, s);
  }

  // Overwriting one character of a held string by NUL leaves a string on either side.
  lemma {:induction false} CutString(b: seq<char>, p: nat, s: string, i: nat)
    requires Holds(b, p, s) && i < |s|
    ensures Holds(b[p + i := NUL], p, s[..i])
    ensures Holds(b[p + i := NUL], p + i + 1, s[i + 1..])
  {
    var c := b[p + i := NUL];
    assert c[p..p + i] == b[p..p + |s|][..i];
    assert c[p + i + 1..p + |s|] == b[p..p + |s|][i + 1..];
  }

  // A suffix of a held string is held further on.
  lemma {:induction false} DropString(b: seq<char>, p: nat, s: string, i: nat)
    requires Holds(b, p, s) && i <= |s|
    ensures Holds(b, p + i, s[i..])
  {
    assert b[p + i..p + |s|] == b[p..p + |s|][i..];
  }

  // The same cut, seen from an offset in front of it.
  lemma {:induction false} CutPiece(b: seq<char>, p: nat, s: string, i: nat, j: nat)
    requires Holds(b, p, s) && i <= j < |s|
    ensures var c := b[p + j := NUL];
      Holds(c, p, s[..j]) && Holds(c, p + i, s[i..j]) && Holds(c, p + j + 1, s[j + 1..])
  {
    CutString(b, p, s, j);
    DropString(b[p + j := NUL], p, s[..j], i);
    assert s[..j][i..] == s[i..j];
  }

  // Changing a buffer elsewhere keeps a held string.
  lemma {:induction false} KeepString(b: seq<char>, c: seq<char>, p: nat, s: string)
    requires Holds(b, p, s)
    requires p + |s| < |c| && forall i :: p <= i <= p + |s| ==> b[i] == c[i]
    ensures Holds(c, p, s)
  {
    assert c[p..p + |s|] == b[p..p + |s|];
  }

  // The parts of `s` between the separators `c`.
  function SplitAt(s: string, c: char): (parts: seq<string>)
    ensures parts != [] && parts[0] <= s
  {
    if s == "" then [""]
    else
      var parts := SplitAt(s[1..], c);
      if s[0] == c then [""] + parts else [[s[0]] + parts[0]] + parts[1..]
  }

  lemma {:induction false} SplitNone(s: string, c: char)
    requires c !in s
    ensures SplitAt(s, c) == [s]
  {
    if s != "" {
      SplitNone(s[1..], c);
      assert s == [s[0]] + s[1..];
    }
  }

  lemma {:induction false} SplitFirst(a: string, c: char, b: string)
    requires c !in a
    ensures SplitAt(a + [c] + b, c) == [a] + SplitAt(b, c)
  {
    var all := a + [c] + b;
    if a == "" {
      assert all[1..] == b;
    } else {
      assert all[1..] == a[1..] + [c] + b;
      SplitFirst(a[1..], c, b);
      assert a == [a[0]] + a[1..];
      assert ([a[1..]] + SplitAt(b, c))[1..] == SplitAt(b, c);
    }
  }

  lemma {:induction false} SplitLast(a: string, c: char, b: string)
    requires c !in b
    ensures SplitAt(a + [c] + b, c) == SplitAt(a, c) + [b]
  {
    var all := a + [c] + b;
    if a == "" {
      assert all[1..] == b;
      SplitNone(b, c);
    } else {
      assert all[1..] == a[1..] + [c] + b;
      SplitLast(a[1..], c, b);
      var parts := SplitAt(a[1..], c);
      assert (parts + [b])[0] == parts[0] && (parts + [b])[1..] == parts[1..] + [b];
    }
  }

  predicate OccursAt(h: string, key: string, i: nat) {
    i + |key| <= |h| && h[i..i + |key|] == key
  }

  // strstr(): the leftmost occurrence of `key`.
  function Find(h: string, key: string): (r: Option<nat>)
    ensures r.Some? ==> OccursAt(h, key, r.value) && forall j: nat :: j < r.value ==> !OccursAt(h, key, j)
    ensures r.None? ==> forall j: nat :: !OccursAt(h, key, j)
  {
    FindFrom(h, key, 0)
  }

  function FindFrom(h: string, key: string, i: nat): (r: Option<nat>)
    requires i <= |h|
    requires forall j: nat :: j < i ==> !OccursAt(h, key, j)
    ensures r.Some? ==> OccursAt(h, key, r.value) && forall j: nat :: j < r.value ==> !OccursAt(h, key, j)
    ensures r.None? ==> forall j: nat :: !OccursAt(h, key, j)
    decreases |h| - i
  {
    if OccursAt(h, key, i) then Some(i)
    else if i == |h| then None
    else FindFrom(h, key, i + 1)
  }

  lemma {:induction false} FoundAt(h: string, key: string, i: nat)
    requires OccursAt(h, key, i)
    requires forall j: nat :: j < i ==> !OccursAt(h, key, j)
    ensures Find(h, key) == Some(i)
  {
    var r := Find(h, key);
    assert r.Some? && !(r.value < i) && !(i < r.value);
  }

  ghost predicate Missing(text: string, key: string) {
    forall j: nat :: !OccursAt(text, key, j)
  }

  // A key whose first character does not recur in it is found behind any text that lacks it.
  lemma {:induction false} FoundBehind(pre: string, key: string, rest: string)
    requires key != "" && key[0] !in key[1..] && Missing(pre, key)
    ensures Find(pre + (key + rest), key) == Some(|pre|)
  {
    var text := pre + (key + rest);
    assert text[|pre|..|pre| + |key|] == key;
    forall j: nat | j < |pre| ensures !OccursAt(text, key, j) {
      assert !OccursAt(pre, key, j);
      if j + |key| <= |pre| {
        assert text[j..j + |key|] == pre[j..j + |key|];
      } else {
        assert text[|pre|] == key[0];
        assert key[|pre| - j] == key[1..][|pre| - j - 1];
        assert j + |key| <= |text| ==> text[j..j + |key|][|pre| - j] == text[|pre|];
      }
    }
    FoundAt(text, key, |pre|);
  }

  lemma OccursStart(text: string, key: string, j: nat, m: nat)
    requires m < |key| && OccursAt(text, key, j)
    ensures j + m < |text| && text[j + m] == key[m]
  {
    assert text[j..j + |key|][m] == text[j + m];
  }

  lemma OccursBehind(a: string, b: string, key: string, j: nat)
    requires j >= |a| && OccursAt(a + b, key, j)
    ensures OccursAt(b, key, j - |a|)
  {
    assert (a + b)[j..j + |key|] == b[j - |a|..j - |a| + |key|];
  }

  lemma MissingWithoutFirst(text: string, key: string)
    requires key != "" && key[0] !in text
    ensures Missing(text, key)
  {
    forall j: nat ensures !OccursAt(text, key, j) {
      assert j < |text| ==> text[j] != key[0];
    }
  }

  predicate IsDigit(c: char) {
    '0' <= c <= '9'
  }

  function DigitChar(d: nat): (c: char)
    requires d < 16
    ensures c != NUL && (d < 10 ==> IsDigit(c) && c as int - '0' as int == d)
  {
    if d < 10 then '0' + d as char else 'a' + (d - 10) as char
  }

  // The numeral of `n`, most significant digit first.
  function Digits(n: nat, base: nat): (s: string)
    requires 2 <= base <= 16
    ensures s != "" && NUL !in s
    decreases n
  {
    if n < base then [DigitChar(n)]
    else
      QuotientSmaller(n, base);
      Digits(n / base, base) + [DigitChar(n % base)]
  }

  lemma QuotientSmaller(n: nat, base: nat)
    requires 2 <= base <= n
    ensures n / base < n
  {
    var q := n / base;
    DoubleAtMost(q, base);
  }

  lemma DoubleAtMost(q: int, base: nat)
    requires 2 <= base
    ensures q >= 0 ==> q * base >= q + q
  {
  }

  function Decimal(n: nat): string {
    Digits(n, 10)
  }

  function Pow10(k: nat): nat {
    if k == 0 then 1 else 10 * Pow10(k - 1)
  }

  // The value of the leading digits of `s`, continuing from `acc`.
  function AtoiDigits(s: string, acc: nat): nat {
    if s == "" || !IsDigit(s[0]) then acc
    else AtoiDigits(s[1..], 10 * acc + (s[0] as int - '0' as int))
  }

  // atoi(): white space, an optional sign, digits; whatever follows is ignored.
  function Atoi(s: string): int {
    if s == "" then 0
    else if IsSpace(s[0]) then Atoi(s[1..])
    else if s[0] == '-' then -(AtoiDigits(s[1..], 0) as int)
    else if s[0] == '+' then AtoiDigits(s[1..], 0)
    else AtoiDigits(s, 0)
  }

  lemma {:induction false} AtoiDigitsAppend(s: string, t: string, acc: nat)
    requires forall i :: 0 <= i < |s| ==> IsDigit(s[i])
    ensures AtoiDigits(s + t, acc) == AtoiDigits(t, AtoiDigits(s, acc))
    decreases |s|
  {
    if s == "" {
      assert s + t == t;
    } else {
      assert (s + t)[1..] == s[1..] + t;
      AtoiDigitsAppend(s[1..], t, 10 * acc + (s[0] as int - '0' as int));
    }
  }

  lemma DigitSpeltOut(d: nat)
    requires d < 16
    ensures DigitChar(d) == "0123456789abcdef"[d]
  {
    if d < 4 {
    } else if d < 8 {
    } else if d < 12 {
    }
  }

  /** A numeral ends in the digit of the remainder, in front of which stands the numeral of the quotient. */
  lemma {:induction false} NumeralSpeltOut(n: nat, base: nat)
    requires 2 <= base <= 16
    ensures n < base ==> Digits(n, base) == ["0123456789abcdef"[n]]
    ensures n >= base ==>
      && n % base < base && n / base < n
      && Digits(n, base) == Digits(n / base, base) + ["0123456789abcdef"[n % base]]
  {
    if n < base {
      DigitSpeltOut(n);
    } else {
      QuotientSmaller(n, base);
      DigitSpeltOut(n % base);
    }
  }

  /** Reading one more digit counts it once and the digits before it ten times. */
  lemma {:induction false} AtoiSpeltOut(s: string, d: nat)
    requires s != "" && d < 10 && forall i :: 0 <= i < |s| ==> '0' <= s[i] <= '9'
    ensures Atoi(["0123456789"[d]]) == d
    ensures Atoi(s + ["0123456789"[d]]) == 10 * Atoi(s) + d
  {
    var c := "0123456789"[d];
    DigitSpeltOut(d);
    assert c == "0123456789abcdef"[d] == DigitChar(d);
    AtoiDigitsAppend(s, [c], 0);
    assert [c][1..] == "";
    assert AtoiDigits([c], 0) == d && AtoiDigits([c], AtoiDigits(s, 0)) == 10 * AtoiDigits(s, 0) + d;
    assert (s + [c])[0] == s[0];
  }

  lemma {:induction false} DecimalDigits(n: nat)
    ensures forall i :: 0 <= i < |Decimal(n)| ==> IsDigit(Decimal(n)[i])
    ensures AtoiDigits(Decimal(n), 0) == n
    decreases n
  {
    if n < 10 {
      assert Decimal(n)[1..] == "";
    } else {
      DecimalDigits(n / 10);
      AtoiDigitsAppend(Decimal(n / 10), [DigitChar(n % 10)], 0);
      assert [DigitChar(n % 10)][1..] == "";
    }
  }

  // Reading back a printed number, whatever non-digit follows it.
  lemma {:induction false} AtoiDecimal(n: nat, rest: string)
    requires rest == "" || !IsDigit(rest[0])
    ensures Atoi(Decimal(n) + rest) == n
  {
    DecimalDigits(n);
    AtoiDigitsAppend(Decimal(n), rest, 0);
    assert IsDigit((Decimal(n) + rest)[0]);
  }
}
