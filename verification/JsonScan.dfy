/**
 * The two string-aware character scanners of `dsml_repair.rs`, written as functions, and the
 * fact that makes both meaningful: text the JSON parser consumes leaves them where they were.
 */
module JsonScan {
  import opened Wrappers
  import opened Json

  datatype Bracket = ObjectBracket | ArrayBracket | StringBracket

  /** The truncation scanner's state: its bracket stack (top last) and its two flags. */
  datatype Scan = Scan(stack: seq<Bracket>, inString: bool, escaped: bool)

  const START := Scan([], false, false)

  function Pop(st: Scan, top: Bracket): Scan {
    if st.stack != [] && st.stack[|st.stack| - 1] == top
    then st.(stack := st.stack[..|st.stack| - 1])
    else st
  }

  function Step(st: Scan, c: char): Scan {
    if st.escaped then st.(escaped := false)
    else if st.inString then
      if c == '\\' then st.(escaped := true)
      else if c == '"' then
        Scan(if st.stack == [] then [] else st.stack[..|st.stack| - 1], false, false)
      else st
    else if c == '"' then st.(stack := st.stack + [StringBracket], inString := true)
    else if c == '{' then st.(stack := st.stack + [ObjectBracket])
    else if c == '[' then st.(stack := st.stack + [ArrayBracket])
    else if c == '}' then Pop(st, ObjectBracket)
    else if c == ']' then Pop(st, ArrayBracket)
    else st
  }

  /** The state after scanning all of `s`. */
  function Final(s: string, st: Scan): Scan {
    if s == "" then st else Final(s[1..], Step(st, s[0]))
  }

  /**
   * The object scanner: what follows the brace that closes the outermost of the `depth` objects
   * open before `s`; None when the text ends first.
   */
  function Seek(s: string, depth: nat, inString: bool, escaped: bool): (r: Option<string>)
    ensures r.Some? && depth > 0 ==> |r.value| < |s|
  {
    if depth == 0 then Some(s)
    else if s == "" then None
    else if escaped then Seek(s[1..], depth, inString, false)
    else if inString then Seek(s[1..], depth, s[0] != '"', s[0] == '\\')
    else if s[0] == '"' then Seek(s[1..], depth, true, false)
    else if s[0] == '{' then Seek(s[1..], depth + 1, false, false)
    else if s[0] == '}' then Seek(s[1..], depth - 1, false, false)
    else Seek(s[1..], depth, false, false)
  }

  lemma {:induction false} SeekSuffix(s: string, depth: nat, inString: bool, escaped: bool)
    requires depth > 0 && Seek(s, depth, inString, escaped).Some?
    ensures var k := |s| - |Seek(s, depth, inString, escaped).value|;
            k > 0 && s[k..] == Seek(s, depth, inString, escaped).value && s[k - 1] == '}'
    decreases |s|
  {
    if escaped {
      SeekSuffix(s[1..], depth, inString, false);
    } else if inString {
      SeekSuffix(s[1..], depth, s[0] != '"', s[0] == '\\');
    } else if s[0] == '"' {
      SeekSuffix(s[1..], depth, true, false);
    } else if s[0] == '{' {
      SeekSuffix(s[1..], depth + 1, false, false);
    } else if s[0] != '}' {
      SeekSuffix(s[1..], depth, false, false);
    } else if depth > 1 {
      SeekSuffix(s[1..], depth - 1, false, false);
    }
  }

  // ---------- Scanning in parts ----------

  lemma {:induction false} FinalAppend(a: string, b: string, st: Scan)
    ensures Final(a + b, st) == Final(b, Final(a, st))
  {
    if a == "" {
      assert a + b == b;
    } else {
      assert (a + b)[1..] == a[1..] + b;
      FinalAppend(a[1..], b, Step(st, a[0]));
    }
  }

  // ---------- Parsed text is neutral ----------

  ghost predicate Idle(st: Scan) {
    !st.inString && !st.escaped
  }

  /** Scanning `s` and scanning its suffix `rest` end alike, from any idle state and depth. */
  ghost predicate Neutral(s: string, rest: string, st: Scan, depth: nat)
    requires depth > 0
  {
    && Final(s, st) == Final(rest, st)
    && Seek(s, depth, false, false) == Seek(rest, depth, false, false)
  }

  predicate Plain(c: char) {
    c != '"' && c != '{' && c != '}' && c != '[' && c != ']'
  }

  lemma Drop(s: string, st: Scan, depth: nat)
    requires s != "" && Plain(s[0]) && Idle(st) && depth > 0
    ensures Neutral(s, s[1..], st, depth)
  {
  }

  lemma {:induction false} WsNeutral(s: string, st: Scan, depth: nat)
    requires Idle(st) && depth > 0
    ensures Neutral(s, SkipWs(s), st, depth)
  {
    if s != "" && IsWs(s[0]) {
      Drop(s, st, depth);
      WsNeutral(s[1..], st, depth);
    }
  }

  lemma {:induction false} NumberNeutral(s: string, q: NumberState, st: Scan, depth: nat)
    requires SkipNumber(s, q).Some? && Idle(st) && depth > 0
    ensures Neutral(s, SkipNumber(s, q).value, st, depth)
  {
    if s != "" && NextNumber(q, s[0]).Some? {
      Drop(s, st, depth);
      NumberNeutral(s[1..], NextNumber(q, s[0]).value, st, depth);
    }
  }

  lemma {:induction false} LiteralNeutral(s: string, word: string, st: Scan, depth: nat)
    requires word <= s && (forall i :: 0 <= i < |word| ==> Plain(word[i]))
    requires Idle(st) && depth > 0
    ensures Neutral(s, s[|word|..], st, depth)
  {
    if word != "" {
      Drop(s, st, depth);
      LiteralNeutral(s[1..], word[1..], st, depth);
      assert s[1..][|word[1..]|..] == s[|word|..];
    } else {
      assert s[0..] == s;
    }
  }

  ghost function InString(st: Scan): Scan {
    Scan(st.stack + [StringBracket], true, false)
  }

  /** Inside a string: scanning `s` ends like scanning `rest` inside the same string. */
  ghost predicate NeutralInString(s: string, rest: string, st: Scan, depth: nat)
    requires depth > 0
  {
    && Final(s, InString(st)) == Final(rest, InString(st))
    && Seek(s, depth, true, false) == Seek(rest, depth, true, false)
  }

  lemma DropInString(s: string, st: Scan, depth: nat)
    requires s != "" && s[0] != '"' && s[0] != '\\' && depth > 0
    ensures NeutralInString(s, s[1..], st, depth)
  {
  }

  lemma {:induction false} DropManyInString(s: string, n: nat, st: Scan, depth: nat)
    requires n <= |s| && depth > 0
    requires forall i :: 0 <= i < n ==> s[i] != '"' && s[i] != '\\'
    ensures NeutralInString(s, s[n..], st, depth)
  {
    if n > 0 {
      DropInString(s, st, depth);
      DropManyInString(s[1..], n - 1, st, depth);
      assert s[1..][n - 1..] == s[n..];
    } else {
      assert s[0..] == s;
    }
  }

  lemma DropEscaped(s: string, st: Scan, depth: nat)
    requires |s| >= 2 && s[0] == '\\' && depth > 0
    ensures NeutralInString(s, s[2..], st, depth)
  {
    assert s[1..][1..] == s[2..];
    assert Final(s, InString(st)) == Final(s[2..], InString(st));
  }

  lemma EscapeNeutral(s: string, st: Scan, depth: nat)
    requires s != "" && s[0] == '\\' && ParseEscape(s[1..]).Some? && depth > 0
    ensures NeutralInString(s, ParseEscape(s[1..]).value.1, st, depth)
  {
    DropEscaped(s, st, depth);
    assert s[1..][1..] == s[2..];
    if s[1] == 'u' {
      var h := s[2..];
      HexNeutral(h, st, depth);
      assert h[4..] == s[1..][5..];
      if 0xD800 <= Hex4(h).value < 0xE000 {
        assert s[1..][5] == h[4] && s[1..][6] == h[5];
        DropEscaped(h[4..], st, depth);
        assert h[4..][2..] == s[1..][7..];
        HexNeutral(s[1..][7..], st, depth);
        assert s[1..][7..][4..] == s[1..][11..];
      }
    }
  }

  lemma HexNeutral(s: string, st: Scan, depth: nat)
    requires Hex4(s).Some? && depth > 0
    ensures NeutralInString(s, s[4..], st, depth)
  {
    DropManyInString(s, 4, st, depth);
  }

  lemma {:induction false} StringNeutral(s: string, st: Scan, depth: nat)
    requires ParseString(s).Some? && Idle(st) && depth > 0
    ensures Final(s, InString(st)) == Final(ParseString(s).value.1, st)
    ensures Seek(s, depth, true, false) == Seek(ParseString(s).value.1, depth, false, false)
    decreases |s|
  {
    if s[0] == '"' {
      assert Step(InString(st), '"') == st;
    } else if s[0] == '\\' {
      EscapeNeutral(s, st, depth);
      StringNeutral(ParseEscape(s[1..]).value.1, st, depth);
    } else {
      DropInString(s, st, depth);
      StringNeutral(s[1..], st, depth);
    }
  }

  lemma QuotedNeutral(s: string, st: Scan, depth: nat)
    requires s != "" && s[0] == '"' && ParseString(s[1..]).Some? && Idle(st) && depth > 0
    ensures Neutral(s, ParseString(s[1..]).value.1, st, depth)
  {
    assert Step(st, '"') == InString(st);
    StringNeutral(s[1..], st, depth);
  }

  ghost function Within(st: Scan, b: Bracket): Scan {
    st.(stack := st.stack + [b])
  }

  lemma {:induction false} ValueNeutral(s: string, st: Scan, depth: nat)
    requires ParseValue(s).Some? && Idle(st) && depth > 0
    ensures Neutral(s, ParseValue(s).value.1, st, depth)
    decreases |s|, 0
  {
    WsNeutral(s, st, depth);
    var t := SkipWs(s);
    if t[0] == 'n' {
      LiteralNeutral(t, "null", st, depth);
    } else if t[0] == 't' {
      LiteralNeutral(t, "true", st, depth);
    } else if t[0] == 'f' {
      LiteralNeutral(t, "false", st, depth);
    } else if t[0] == '"' {
      QuotedNeutral(t, st, depth);
    } else if t[0] == '[' {
      ArrayNeutral(t, st, depth);
    } else if t[0] == '{' {
      ObjectNeutral(t, st, depth);
    } else {
      NumberNeutral(t, NumberStart, st, depth);
    }
  }

  lemma {:induction false} ArrayNeutral(t: string, st: Scan, depth: nat)
    requires t != "" && t[0] == '[' && ParseValue(t).Some? && Idle(st) && depth > 0
    ensures Neutral(t, ParseValue(t).value.1, st, depth)
    decreases |t| - 1, 5
  {
    var inner := Within(st, ArrayBracket);
    var u := SkipWs(t[1..]);
    assert SkipWs(t) == t;
    WsNeutral(t[1..], inner, depth);
    if u != "" && u[0] == ']' {
      assert Step(inner, ']') == st;
    } else {
      ItemsNeutral(u, st, depth);
    }
  }

  lemma {:induction false} ObjectNeutral(t: string, st: Scan, depth: nat)
    requires t != "" && t[0] == '{' && ParseValue(t).Some? && Idle(st)
    ensures Final(t, st) == Final(ParseValue(t).value.1, st)
    ensures Seek(t[1..], depth + 1, false, false) == Seek(ParseValue(t).value.1, depth, false, false)
    decreases |t| - 1, 5
  {
    var inner := Within(st, ObjectBracket);
    var u := SkipWs(t[1..]);
    assert SkipWs(t) == t;
    WsNeutral(t[1..], inner, depth + 1);
    if u != "" && u[0] == '}' {
      assert Step(inner, '}') == st;
    } else {
      MembersNeutral(u, st, depth);
    }
  }

  lemma {:induction false} ItemsNeutral(s: string, st: Scan, depth: nat)
    requires ParseItems(s).Some? && Idle(st) && depth > 0
    ensures Final(s, Within(st, ArrayBracket)) == Final(ParseItems(s).value.1, st)
    ensures Seek(s, depth, false, false) == Seek(ParseItems(s).value.1, depth, false, false)
    decreases |s|, 2
  {
    var inner := Within(st, ArrayBracket);
    ValueNeutral(s, inner, depth);
    var rest := ParseValue(s).value.1;
    WsNeutral(rest, inner, depth);
    var t := SkipWs(rest);
    if t[0] == ']' {
      assert Step(inner, ']') == st;
    } else {
      Drop(t, inner, depth);
      ItemsNeutral(t[1..], st, depth);
    }
  }

  lemma {:induction false} MemberNeutral(s: string, st: Scan, depth: nat)
    requires ParseMember(s).Some? && Idle(st) && depth > 0
    ensures Neutral(s, ParseMember(s).value.1, st, depth)
    decreases |s|, 2
  {
    WsNeutral(s, st, depth);
    var t := SkipWs(s);
    QuotedNeutral(t, st, depth);
    var rest := ParseString(t[1..]).value.1;
    WsNeutral(rest, st, depth);
    var u := SkipWs(rest);
    Drop(u, st, depth);
    ValueNeutral(u[1..], st, depth);
  }

  lemma {:induction false} MembersNeutral(s: string, st: Scan, depth: nat)
    requires ParseMembers(s).Some? && Idle(st)
    ensures Final(s, Within(st, ObjectBracket)) == Final(ParseMembers(s).value.1, st)
    ensures Seek(s, depth + 1, false, false) == Seek(ParseMembers(s).value.1, depth, false, false)
    decreases |s|, 3
  {
    var inner := Within(st, ObjectBracket);
    MemberNeutral(s, inner, depth + 1);
    var rest := ParseMember(s).value.1;
    WsNeutral(rest, inner, depth + 1);
    var t := SkipWs(rest);
    if t[0] == '}' {
      assert Step(inner, '}') == st;
    } else {
      Drop(t, inner, depth + 1);
      MembersNeutral(t[1..], st, depth);
    }
  }

  /** Every text the parser accepts brings the truncation scanner back to its start. */
  lemma ParsedTextIsBalanced(s: string)
    requires Parse(s).Some?
    ensures Final(s, START) == START
  {
    ValueNeutral(s, START, 1);
    WsNeutral(ParseValue(s).value.1, START, 1);
  }
}
