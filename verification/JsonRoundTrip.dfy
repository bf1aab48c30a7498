/** The parser reads back exactly what the compact printer writes. */
module JsonRoundTrip {
  import opened Wrappers
  import opened Json

  /** `rest` does not continue a number that ends right before it. */
  predicate Delimited(rest: string) {
    rest == "" || !(IsDigit(rest[0]) || rest[0] == '.' || rest[0] == 'e' || rest[0] == 'E')
  }

  // ---------- Strings ----------

  lemma HexRoundTrip(n: nat)
    requires n < 16
    ensures HexValue(HexDigit(n)) == Some(n)
  {
  }

  /** What follows the backslash of an escaped control character. */
  lemma UnicodeRoundTrip(n: nat, rest: string)
    requires n < 32
    ensures ParseEscape("u00" + [HexDigit(n / 16), HexDigit(n % 16)] + rest) == Some((n as char, rest))
  {
    hide HexDigit;
    var s := "u00" + [HexDigit(n / 16), HexDigit(n % 16)] + rest;
    HexRoundTrip(n / 16);
    HexRoundTrip(n % 16);
    var h := s[1..];
    assert h[0] == '0' && h[1] == '0' && h[2] == HexDigit(n / 16) && h[3] == HexDigit(n % 16);
    assert s[5..] == rest;
  }

  lemma EscapeCharRoundTrip(c: char, rest: string)
    ensures ParseString(EscapeChar(c) + rest) == Push(c, ParseString(rest))
  {
    hide HexDigit, Hex4, Push;
    var s := EscapeChar(c) + rest;
    if s[0] != '\\' {
      assert s[1..] == rest;
    } else if s[1] == 'u' {
      var n := c as int;
      assert s[1..] == "u00" + [HexDigit(n / 16), HexDigit(n % 16)] + rest;
      UnicodeRoundTrip(n, rest);
    } else {
      assert s[1..][1..] == rest;
    }
  }

  lemma {:induction false} StringRoundTrip(s: string, rest: string)
    ensures ParseString(Escape(s) + "\"" + rest) == Some((s, rest))
  {
    if s == "" {
      assert (Escape(s) + "\"" + rest)[1..] == rest;
    } else {
      var tail := Escape(s[1..]) + "\"" + rest;
      assert Escape(s) + "\"" + rest == EscapeChar(s[0]) + tail;
      EscapeCharRoundTrip(s[0], tail);
      StringRoundTrip(s[1..], rest);
      assert [s[0]] + s[1..] == s;
    }
  }

  // ---------- Numbers ----------

  lemma {:induction false} NumberAppend(n: string, q: NumberState, rest: string)
    requires SkipNumber(n, q) == Some("") && Delimited(rest)
    ensures SkipNumber(n + rest, q) == Some(rest)
  {
    if n == "" {
      assert n + rest == rest;
    } else {
      assert (n + rest)[1..] == n[1..] + rest;
      NumberAppend(n[1..], NextNumber(q, n[0]).value, rest);
    }
  }

  // ---------- Values ----------

  /** The first character of a printed value already tells what kind it is. */
  predicate Starts(v: Value, c: char) {
    match v
    case Null => c == 'n'
    case Bool(b) => c == if b then 't' else 'f'
    case Number(_) => c == '-' || IsDigit(c)
    case Str(_) => c == '"'
    case Array(_) => c == '['
    case Object(_) => c == '{'
  }

  lemma PrintStarts(v: Value)
    requires Printable(v)
    ensures Print(v) != "" && Starts(v, Print(v)[0])
  {
  }

  lemma {:induction false} ValueRoundTrip(v: Value, rest: string)
    requires Printable(v)
    requires v.Number? ==> Delimited(rest)
    ensures ParseValue(Print(v) + rest) == Some((v, rest))
    decreases v, 0
  {
    var t := Print(v) + rest;
    PrintStarts(v);
    assert t[0] == Print(v)[0];
    match v
    case Null =>
    case Bool(b) =>
    case Number(lexeme) =>
      NumberAppend(lexeme, NumberStart, rest);
    case Str(s) =>
      assert t[1..] == Escape(s) + "\"" + rest;
      StringRoundTrip(s, rest);
    case Array(items) =>
      ArrayRoundTrip(items, rest);
    case Object(members) =>
      ObjectRoundTrip(members, rest);
  }

  lemma {:induction false} ArrayRoundTrip(vs: seq<Value>, rest: string)
    requires forall i :: 0 <= i < |vs| ==> Printable(vs[i])
    ensures ParseValue(Print(Array(vs)) + rest) == Some((Array(vs), rest))
    decreases vs, 3
  {
    var t := Print(Array(vs)) + rest;
    var u := Join(ItemTexts(vs)) + ("]" + rest);
    assert t[0] == '[' && t[1..] == u;
    if vs == [] {
      assert u[1..] == rest;
    } else {
      ItemsRoundTrip(vs, rest);
      PrintStarts(vs[0]);
      assert u[0] == Print(vs[0])[0];
    }
  }

  lemma {:induction false} ObjectRoundTrip(ms: seq<Member>, rest: string)
    requires forall i :: 0 <= i < |ms| ==> Printable(ms[i].value)
    ensures ParseValue(Print(Object(ms)) + rest) == Some((Object(ms), rest))
    decreases ms, 3
  {
    hide ParseMembers, ParseString, Escape;
    var t := Print(Object(ms)) + rest;
    var u := Join(MemberTexts(ms)) + ("}" + rest);
    assert t[0] == '{' && t[1..] == u;
    if ms == [] {
      assert u[1..] == rest;
    } else {
      MembersRoundTrip(ms, rest);
      assert PrintMember(ms[0])[0] == '"';
      assert u[0] == '"';
    }
  }

  /** One step of `ParseItems`, once the first value and what follows it are known. */
  lemma ItemsStep(s: string, v: Value, sep: char, tail: string)
    requires ParseValue(s) == Some((v, [sep] + tail))
    ensures sep == ']' ==> ParseItems(s) == Some(([v], tail))
    ensures sep == ',' ==> ParseItems(s) == match ParseItems(tail)
                                            case None => None
                                            case Some((vs, after)) => Some(([v] + vs, after))
  {
    assert ([sep] + tail)[1..] == tail;
  }

  lemma MembersStep(s: string, m: Member, sep: char, tail: string)
    requires ParseMember(s) == Some((m, [sep] + tail))
    ensures sep == '}' ==> ParseMembers(s) == Some(([m], tail))
    ensures sep == ',' ==> ParseMembers(s) == match ParseMembers(tail)
                                              case None => None
                                              case Some((ms, after)) => Some(([m] + ms, after))
  {
    assert ([sep] + tail)[1..] == tail;
  }

  lemma JoinCons(ss: seq<string>, rest: string)
    requires ss != []
    ensures |ss| == 1 ==> Join(ss) + rest == ss[0] + rest
    ensures |ss| > 1 ==> Join(ss) + rest == ss[0] + ("," + (Join(ss[1..]) + rest))
  {
    if |ss| > 1 {
      CommaRegroup(ss[0], Join(ss[1..]), rest);
    }
  }

  lemma CommaRegroup(a: string, b: string, c: string)
    ensures a + "," + b + c == a + ("," + (b + c))
  {
  }

  lemma {:induction false} ItemsRoundTrip(vs: seq<Value>, rest: string)
    requires vs != []
    requires forall i :: 0 <= i < |vs| ==> Printable(vs[i])
    ensures ParseItems(Join(ItemTexts(vs)) + ("]" + rest)) == Some((vs, rest))
    decreases vs, 1
  {
    hide ParseItems, ParseValue, Join, Print, Printable;
    var s := Join(ItemTexts(vs)) + ("]" + rest);
    JoinCons(ItemTexts(vs), "]" + rest);
    if |vs| == 1 {
      ValueRoundTrip(vs[0], "]" + rest);
      ItemsStep(s, vs[0], ']', rest);
      assert [vs[0]] == vs;
    } else {
      assert ItemTexts(vs)[1..] == ItemTexts(vs[1..]);
      var tail := Join(ItemTexts(vs[1..])) + ("]" + rest);
      ValueRoundTrip(vs[0], "," + tail);
      ItemsRoundTrip(vs[1..], rest);
      ItemsStep(s, vs[0], ',', tail);
      assert [vs[0]] + vs[1..] == vs;
    }
  }

  lemma MemberText(key: string, value: string, rest: string)
    ensures ("\"" + key + "\"" + ":" + value + rest)[1..] == key + "\"" + (":" + (value + rest))
  {
  }

  lemma {:induction false} MemberRoundTrip(m: Member, rest: string)
    requires Printable(m.value)
    requires m.value.Number? ==> Delimited(rest)
    ensures ParseMember(PrintMember(m) + rest) == Some((m, rest))
    decreases m, 1
  {
    var s := PrintMember(m) + rest;
    var u := ":" + (Print(m.value) + rest);
    MemberText(Escape(m.key), Print(m.value), rest);
    assert s[1..] == Escape(m.key) + "\"" + u;
    StringRoundTrip(m.key, u);
    assert u[1..] == Print(m.value) + rest;
    ValueRoundTrip(m.value, rest);
  }

  lemma {:induction false} MembersRoundTrip(ms: seq<Member>, rest: string)
    requires ms != []
    requires forall i :: 0 <= i < |ms| ==> Printable(ms[i].value)
    ensures ParseMembers(Join(MemberTexts(ms)) + ("}" + rest)) == Some((ms, rest))
    decreases ms, 2
  {
    hide Escape, ParseMembers, ParseMember, Join, PrintMember, Printable;
    var s := Join(MemberTexts(ms)) + ("}" + rest);
    JoinCons(MemberTexts(ms), "}" + rest);
    if |ms| == 1 {
      MemberRoundTrip(ms[0], "}" + rest);
      MembersStep(s, ms[0], '}', rest);
      assert [ms[0]] == ms;
    } else {
      assert MemberTexts(ms)[1..] == MemberTexts(ms[1..]);
      var tail := Join(MemberTexts(ms[1..])) + ("}" + rest);
      MemberRoundTrip(ms[0], "," + tail);
      MembersRoundTrip(ms[1..], rest);
      MembersStep(s, ms[0], ',', tail);
      assert [ms[0]] + ms[1..] == ms;
    }
  }

  /** A document reads back from its print exactly when it is not nested too deeply. */
  lemma ParsePrint(v: Value)
    requires Printable(v)
    ensures Parse(Print(v)) == if Shallow(v) then Some(v) else None
  {
    hide Shallow;
    ValueRoundTrip(v, "");
    assert Print(v) + "" == Print(v);
  }
}
