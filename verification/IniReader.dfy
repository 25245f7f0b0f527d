/** The key-value view of an INI file: inih_r29/INIReader.cpp. */
module IniReader {
  import opened CStrings
  import opened IniSpec
  import IniScanner

  type Values = map<string, string>

  function MakeKey(section: string, name: string): string {
    ToLower(section + "." + name)
  }

  function Lookup(values: Values, section: string, name: string, default: string): string {
    var key := MakeKey(section, name);
    if key in values then values[key] else default
  }

  function Extend(stored: string, value: string): string {
    if |stored| > 0 then stored + "\n" + value else value
  }

  function Deliver(values: Values, call: Call): Values {
    var key := MakeKey(call.section, call.name);
    values[key := Extend(if key in values then values[key] else "", call.value)]
  }

  function DeliverAll(calls: seq<Call>): Values {
    if calls == [] then map[] else Deliver(DeliverAll(calls[..|calls| - 1]), calls[|calls| - 1])
  }

  // The values sent to one key, in order.
  function SentTo(calls: seq<Call>, key: string): seq<string> {
    if calls == [] then []
    else
      var c := calls[|calls| - 1];
      SentTo(calls[..|calls| - 1], key) + if MakeKey(c.section, c.name) == key then [c.value] else []
  }

  function Join(lines: seq<string>): string {
    if lines == [] then ""
    else if |lines| == 1 then lines[0]
    else Join(lines[..|lines| - 1]) + "\n" + lines[|lines| - 1]
  }

  function DropLeadingEmpty(lines: seq<string>): seq<string> {
    if lines != [] && lines[0] == "" then DropLeadingEmpty(lines[1..]) else lines
  }

  const ACCEPT: Handler := _ => true

  /** A reader never refuses a pair, so parsing does not depend on what it has stored. */
  class INIReader {
    var error: int
    var values: Values

    constructor (file: Option<string>)
      ensures file == None ==> error == -1 && values == map[]
      ensures file.Some? ==> error == Parse(ACCEPT, file.value).error
      ensures file.Some? ==> values == DeliverAll(Parse(ACCEPT, file.value).calls)
    {
      error, values := -1, map[];
      new;
      hide Deliver, ParseFrom;
      if file.Some? {
        var e, calls := IniScanner.IniParseFile(file.value, ACCEPT);
        error := e;
        for i := 0 to |calls|
          invariant values == DeliverAll(calls[..i])
          invariant error == e
        {
          assert calls[..i + 1][..i] == calls[..i];
          ValueHandler(calls[i]);
        }
        assert calls[..|calls|] == calls;
      }
    }

    method ValueHandler(call: Call)
      modifies this`values
      ensures values == Deliver(old(values), call)
    {
      var key := MakeKey(call.section, call.name);
      if key !in values {
        values := values[key := ""];
      }
      if |values[key]| > 0 {
        values := values[key := values[key] + "\n"];
      }
      values := values[key := values[key] + call.value];
      assert "" + call.value == call.value;
      assert values == Deliver(old(values), call);
    }

    method Get(section: string, name: string, default: string) returns (v: string)
      ensures v == Lookup(values, section, name, default)
    {
      var key := MakeKey(section, name);
      v := if key in values then values[key] else default;
    }

    method GetBoolean(section: string, name: string, default: bool) returns (b: bool)
      ensures var v := ToLower(Lookup(values, section, name, ""));
        && (v == "true" || v == "yes" || v == "on" || v == "1" ==> b)
        && (v == "false" || v == "no" || v == "off" || v == "0" ==> !b)
        && (v !in {"true", "yes", "on", "1", "false", "no", "off", "0"} ==> b == default)
    {
      var v := Get(section, name, "");
      v := ToLower(v);
      if v == "true" || v == "yes" || v == "on" || v == "1" {
        return true;
      } else if v == "false" || v == "no" || v == "off" || v == "0" {
        return false;
      } else {
        return default;
      }
    }
  }

  // ---- keys ----

  // The same letter in upper and lower case, or the same character.
  predicate AlikeChar(c: char, d: char) {
    || c == d
    || ('A' <= c <= 'Z' && d as int == c as int + 32)
    || ('A' <= d <= 'Z' && c as int == d as int + 32)
  }

  predicate Alike(s: string, t: string) {
    |s| == |t| && forall i :: 0 <= i < |s| ==> AlikeChar(s[i], t[i])
  }

  lemma {:induction false} LowerAlike(s: string, t: string)
    ensures ToLower(s) == ToLower(t) <==> Alike(s, t)
  {
    forall i | 0 <= i < |s| && i < |t| ensures ToLower(s)[i] == ToLower(t)[i] <==> AlikeChar(s[i], t[i]) {
      assert ToLower(s)[i] == ToLowerChar(s[i]) && ToLower(t)[i] == ToLowerChar(t[i]);
    }
  }

  /** Sections without '.' and names share a key exactly if both differ in letter case only. */
  lemma {:induction false} SameKey(section: string, name: string, section': string, name': string)
    requires '.' !in section && '.' !in section'
    ensures MakeKey(section, name) == MakeKey(section', name') <==> Alike(section, section') && Alike(name, name')
  {
    hide Alike, AlikeChar;
    LowerAlike(section, section');
    LowerAlike(name, name');
    KeyParts(section, name);
    KeyParts(section', name');
    NoDot(section);
    NoDot(section');
    var a, b := ToLower(section), ToLower(section');
    var c, d := ToLower(name), ToLower(name');
    if a + "." + c == b + "." + d {
      DotSplits(a, c, b, d);
    }
  }

  lemma KeyParts(section: string, name: string)
    ensures MakeKey(section, name) == ToLower(section) + "." + ToLower(name)
  {
    assert ToLower(".") == ".";
    assert ToLower(section + "." + name) == ToLower(section) + ToLower(".") + ToLower(name);
  }

  lemma NoDot(s: string)
    requires '.' !in s
    ensures '.' !in ToLower(s)
  {
    assert forall i :: 0 <= i < |s| ==> ToLower(s)[i] == ToLowerChar(s[i]) && s[i] != '.';
  }

  lemma DotSplits(a: string, c: string, b: string, d: string)
    requires '.' !in a && '.' !in b && a + "." + c == b + "." + d
    ensures a == b && c == d
  {
    SplitFirst(a, '.', c);
    SplitFirst(b, '.', d);
    assert SplitAt(a + "." + c, '.')[0] == a;
    assert c == (a + "." + c)[|a| + 1..] && d == (b + "." + d)[|b| + 1..];
  }

  lemma {:induction false} DropThenAppend(lines: seq<string>, v: string)
    ensures Join(DropLeadingEmpty(lines + [v])) == Extend(Join(DropLeadingEmpty(lines)), v)
    ensures DropLeadingEmpty(lines) == [] || |Join(DropLeadingEmpty(lines))| > 0
  {
    if lines == [] {
      assert [v][1..] == [];
    } else if lines[0] == "" {
      assert (lines + [v])[1..] == lines[1..] + [v];
      DropThenAppend(lines[1..], v);
    } else {
      JoinNonEmpty(lines);
      assert (lines + [v])[..|lines|] == lines;
    }
  }

  lemma {:induction false} JoinNonEmpty(lines: seq<string>)
    requires lines != [] && lines[0] != ""
    ensures |Join(lines)| > 0
  {
    if |lines| > 1 {
      JoinNonEmpty(lines[..|lines| - 1]);
    }
  }

  /**
   The value stored under a key is decided by the values sent to that key alone: leading empty ones
   vanish and the others are joined by newlines. A key is present once anything was sent to it.
   */
  lemma {:induction false} StoredValue(calls: seq<Call>, key: string)
    ensures key in DeliverAll(calls) <==> SentTo(calls, key) != []
    ensures key in DeliverAll(calls) ==> DeliverAll(calls)[key] == Join(DropLeadingEmpty(SentTo(calls, key)))
  {
    if calls != [] {
      var init, c := calls[..|calls| - 1], calls[|calls| - 1];
      StoredValue(init, key);
      DropThenAppend(SentTo(init, key), c.value);
      assert SentTo(init, key) + [] == SentTo(init, key);
    }
  }

  /** A key that nothing was sent to gives the default, whatever was sent to others. */
  lemma {:induction false} GetReturns(calls: seq<Call>, section: string, name: string, default: string)
    ensures var sent := SentTo(calls, MakeKey(section, name));
      Lookup(DeliverAll(calls), section, name, default) ==
        if sent == [] then default else Join(DropLeadingEmpty(sent))
  {
    hide MakeKey, DeliverAll, SentTo, Join, DropLeadingEmpty;
    StoredValue(calls, MakeKey(section, name));
  }

  function OnlyKey(calls: seq<Call>, key: string): seq<Call> {
    if calls == [] then []
    else
      var c := calls[|calls| - 1];
      OnlyKey(calls[..|calls| - 1], key) + if MakeKey(c.section, c.name) == key then [c] else []
  }

  lemma {:induction false} SentToOnlyKey(calls: seq<Call>, key: string)
    ensures SentTo(OnlyKey(calls, key), key) == SentTo(calls, key)
  {
    if calls != [] {
      var rest, c := OnlyKey(calls[..|calls| - 1], key), calls[|calls| - 1];
      SentToOnlyKey(calls[..|calls| - 1], key);
      assert rest + [] == rest;
      assert (rest + [c])[..|rest|] == rest;
    }
  }

  /** Get ignores letter case and every call made for another key. */
  lemma {:induction false} GetDependsOnKeyOnly(calls: seq<Call>, section: string, name: string,
                                               section': string, name': string, default: string)
    requires Alike(section, section') && Alike(name, name')
    ensures var only := OnlyKey(calls, MakeKey(section, name));
      Lookup(DeliverAll(calls), section, name, default) == Lookup(DeliverAll(only), section', name', default)
  {
    hide Alike, MakeKey, DeliverAll, SentTo, OnlyKey;
    var key := MakeKey(section, name);
    LowerAlike(section, section');
    LowerAlike(name, name');
    KeyParts(section, name);
    KeyParts(section', name');
    StoredValue(calls, key);
    StoredValue(OnlyKey(calls, key), key);
    SentToOnlyKey(calls, key);
  }
}
