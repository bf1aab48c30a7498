/**
 * Repair of truncated JSON text: the scanning loop with its bracket stack, the patching of the
 * tail, and what a second scan of the patched text finds on arbitrary input.
 */
module JsonRepair {
  import opened Json
  import opened JsonScan

  datatype Repaired = Repaired(text: string, changed: bool, value: Value)

  /** White space in the sense of Unicode, which decides whether an input is blank. */
  predicate IsUnicodeWs(c: char) {
    var n := c as int;
    || 9 <= n <= 13 || n == 0x20 || n == 0x85 || n == 0xA0 || n == 0x1680
    || 0x2000 <= n <= 0x200A || n == 0x2028 || n == 0x2029 || n == 0x202F || n == 0x205F || n == 0x3000
  }

  /** White space in the sense of a single ASCII byte, which decides what the scan keeps. */
  predicate IsAsciiWs(c: char) {
    c == ' ' || c == '\t' || c == '\n' || c as int == 12 || c == '\r'
  }

  predicate Blank(s: string) {
    forall i :: 0 <= i < |s| ==> IsUnicodeWs(s[i])
  }

  // ---------- The specification ----------

  function TrimEnd(s: string): (r: string)
    ensures r <= s
    ensures r != "" ==> !IsAsciiWs(r[|r| - 1])
    ensures forall i :: |r| <= i < |s| ==> IsAsciiWs(s[i])
  {
    if s != "" && IsAsciiWs(s[|s| - 1]) then TrimEnd(s[..|s| - 1]) else s
  }

  predicate EndsWith(s: string, c: char) {
    s != "" && s[|s| - 1] == c
  }

  /** The text ends in a colon, or in a colon and a space. */
  predicate LacksValue(s: string) {
    EndsWith(s, ':') || (EndsWith(s, ' ') && EndsWith(s[..|s| - 1], ':'))
  }

  /** The input up to its last significant character, less a comma there. */
  function Kept(s: string): string {
    DropComma(TrimEnd(s))
  }

  function DropComma(k: string): string {
    if EndsWith(k, ',') then k[..|k| - 1] else k
  }

  function Fill(k: string): string {
    if LacksValue(k) then k + "null" else k
  }

  function Closer(b: Bracket): string {
    match b
    case ObjectBracket => "}"
    case ArrayBracket => "]"
    case StringBracket => "\""
  }

  function Closers(stack: seq<Bracket>): string {
    if stack == [] then ""
    else Closer(stack[|stack| - 1]) + Closers(stack[..|stack| - 1])
  }

  function Unquoted(st: Scan): Scan {
    if st.inString then Pop(st, StringBracket) else st
  }

  /** What the repair appends, given the state after scanning the whole input. */
  function Closing(st: Scan): string {
    (if st.inString then "\"" else "") + Closers(Unquoted(st).stack)
  }

  function Candidate(s: string): string {
    Fill(Kept(s)) + Closing(Final(s, START))
  }

  const FALLBACK := Repaired("{}", true, Object([]))

  function Repair(s: string): Repaired {
    if Blank(s) then FALLBACK
    else
      match Parse(s)
      case Some(v) => Repaired(s, false, v)
      case None =>
        match Parse(Candidate(s))
        case Some(v) => Repaired(Candidate(s), true, v)
        case None => FALLBACK
  }

  // ---------- The loops ----------

  lemma {:induction false} FinalPush(s: string, c: char, st: Scan)
    ensures Final(s + [c], st) == Step(Final(s, st), c)
  {
    FinalAppend(s, [c], st);
    assert [c][1..] == "";
  }

  lemma TrimEndAt(s: string, last: nat)
    requires last < |s| && !IsAsciiWs(s[last])
    requires forall i :: last < i < |s| ==> IsAsciiWs(s[i])
    ensures TrimEnd(s) == s[..last + 1]
  {
  }

  /** One pass over the input: the bracket stack, whether a string is open, the last significant index. */
  method ScanText(s: string) returns (stack: seq<Bracket>, inString: bool, last: nat)
    requires !Blank(s)
    ensures stack == Final(s, START).stack && inString == Final(s, START).inString
    ensures last < |s| && TrimEnd(s) == s[..last + 1]
  {
    stack, inString, last := [], false, 0;
    var escaped := false;
    for i := 0 to |s|
      invariant Scan(stack, inString, escaped) == Final(s[..i], START)
      invariant last < |s| && (i == 0 ==> last == 0) && (i > 0 ==> last < i)
      invariant forall k :: last < k < i ==> IsAsciiWs(s[k])
      invariant (forall k :: 0 <= k < i ==> IsAsciiWs(s[k])) || !IsAsciiWs(s[last])
    {
      var c := s[i];
      FinalPush(s[..i], c, START);
      assert s[..i] + [c] == s[..i + 1];
      if !IsAsciiWs(c) {
        last := i;
      }
      if escaped {
        escaped := false;
        continue;
      }
      if inString {
        if c == '\\' {
          escaped := true;
          continue;
        }
        if c == '"' {
          inString := false;
          stack := if stack == [] then [] else stack[..|stack| - 1];
        }
        continue;
      }
      if c == '"' {
        inString := true;
        stack := stack + [StringBracket];
      } else if c == '{' {
        stack := stack + [ObjectBracket];
      } else if c == '[' {
        stack := stack + [ArrayBracket];
      } else if c == '}' {
        if stack != [] && stack[|stack| - 1] == ObjectBracket {
          stack := stack[..|stack| - 1];
        }
      } else if c == ']' && stack != [] && stack[|stack| - 1] == ArrayBracket {
        stack := stack[..|stack| - 1];
      }
    }
    assert s[..|s|] == s;
    assert exists k :: 0 <= k < |s| && !IsUnicodeWs(s[k]) && !IsAsciiWs(s[k]);
    TrimEndAt(s, last);
  }

  method FillValue(k: string) returns (s: string)
    ensures s == Fill(k)
  {
    s := k;
    if LacksValue(s) {
      s := s + "null";
    }
  }

  lemma Regroup(a: string, b: string, c: string)
    ensures a + b + c == a + (b + c)
    ensures a + "" == a
  {
  }

  method CloseAll(text: string, brackets: seq<Bracket>) returns (s: string)
    ensures s == text + Closers(brackets)
  {
    s := text;
    var stack := brackets;
    while stack != []
      invariant s + Closers(stack) == text + Closers(brackets)
      decreases |stack|
    {
      var top, below := stack[|stack| - 1], stack[..|stack| - 1];
      assert s + Closers(stack) == s + Closer(top) + Closers(below);
      stack := below;
      s := s + Closer(top);
    }
    assert s + "" == s;
  }

  /** The patched text: trimmed, less a trailing comma, with a missing value and the closers added. */
  method Patch(input: string) returns (s: string)
    requires !Blank(input)
    ensures s == Candidate(input)
  {
    var stack, inString, last := ScanText(input);
    s := input[..last + 1];
    if EndsWith(s, ',') {
      s := s[..|s| - 1];
    }
    s := FillValue(s);
    Regroup(s, if inString then "\"" else "", Closers(Unquoted(Final(input, START)).stack));
    if inString {
      s := s + "\"";
      if stack != [] && stack[|stack| - 1] == StringBracket {
        stack := stack[..|stack| - 1];
      }
    }
    s := CloseAll(s, stack);
  }

  method RepairTruncatedJson(input: string) returns (r: Repaired)
    ensures r == Repair(input)
  {
    if Blank(input) {
      assert input == "{}" ==> IsUnicodeWs(input[0]);
      return Repaired("{}", input != "{}", Object([]));
    }
    var parsed := Parse(input);
    if parsed.Some? {
      return Repaired(input, false, parsed.value);
    }
    var s := Patch(input);
    var patched := Parse(s);
    match patched
    case Some(v) => r := Repaired(s, true, v);
    case None => r := Repaired("{}", true, Object([]));
  }

  // ---------- The closing discipline ----------

  /** `StringBracket` is only ever on top, and exactly while a string is open. */
  ghost predicate Disciplined(st: Scan) {
    && (st.escaped ==> st.inString)
    && (st.inString ==> st.stack != [])
    && forall i :: 0 <= i < |st.stack| ==>
         (st.stack[i] == StringBracket <==> st.inString && i == |st.stack| - 1)
  }

  lemma {:induction false} ScanDisciplined(s: string, st: Scan)
    requires Disciplined(st)
    ensures Disciplined(Final(s, st))
  {
    if s != "" {
      ScanDisciplined(s[1..], Step(st, s[0]));
    }
  }

  lemma {:induction false} ClosersClose(stack: seq<Bracket>)
    requires forall i :: 0 <= i < |stack| ==> stack[i] != StringBracket
    ensures Final(Closers(stack), Scan(stack, false, false)) == START
  {
    if stack != [] {
      var top, below := stack[|stack| - 1], stack[..|stack| - 1];
      assert Step(Scan(stack, false, false), Closer(top)[0]) == Scan(below, false, false);
      ClosersClose(below);
      assert Closers(stack)[1..] == Closers(below);
    }
  }

  lemma ClosingCloses(st: Scan)
    requires Disciplined(st) && !st.escaped
    ensures Final(Closing(st), st) == START
  {
    if st.inString {
      var below := st.stack[..|st.stack| - 1];
      assert Closing(st)[1..] == Closers(below);
      ClosersClose(below);
    } else {
      assert Closing(st) == Closers(st.stack);
      ClosersClose(st.stack);
    }
  }

  /** Characters that cannot move an unescaped scan. */
  predicate Inert(c: char) {
    Plain(c) && c != '\\'
  }

  lemma {:induction false} InertText(s: string, st: Scan)
    requires !st.escaped && forall i :: 0 <= i < |s| ==> Inert(s[i])
    ensures Final(s, st) == st
  {
    if s != "" {
      InertText(s[1..], st);
    }
  }

  lemma {:induction false} StaysInString(s: string, st: Scan)
    requires st.inString && forall i :: 0 <= i < |s| ==> s[i] != '"'
    ensures Final(s, st).inString
  {
    if s != "" {
      StaysInString(s[1..], Step(st, s[0]));
    }
  }

  lemma {:induction false} ClosersNoQuote(stack: seq<Bracket>)
    requires forall i :: 0 <= i < |stack| ==> stack[i] != StringBracket
    ensures forall i :: 0 <= i < |Closers(stack)| ==> Closers(stack)[i] != '"'
  {
    if stack != [] {
      ClosersNoQuote(stack[..|stack| - 1]);
    }
  }

  lemma EscapedEndsInBackslash(k: string)
    requires Final(k, START).escaped
    ensures k != "" && k[|k| - 1] == '\\'
  {
    if k != "" {
      var init, c := k[..|k| - 1], k[|k| - 1];
      assert init + [c] == k;
      FinalPush(init, c, START);
      StepEscapes(Final(init, START), c);
    }
  }

  lemma StepEscapes(st: Scan, c: char)
    requires Step(st, c).escaped
    ensures c == '\\'
  {
  }

  lemma KeptPrefix(s: string)
    ensures Kept(s) <= s
    ensures forall i :: |Kept(s)| <= i < |s| ==> IsAsciiWs(s[i]) || s[i] == ','
  {
  }

  /** The scan after the kept text, unless it stops inside an escape, is the scan after everything. */
  lemma KeptScan(s: string)
    ensures Kept(s) <= s && Final(s, START) == Final(s[|Kept(s)|..], Final(Kept(s), START))
    ensures !Final(Kept(s), START).escaped ==> Final(s, START) == Final(Kept(s), START)
  {
    KeptPrefix(s);
    var k := Kept(s);
    var dropped := s[|k|..];
    assert k + dropped == s;
    FinalAppend(k, dropped, START);
    if !Final(k, START).escaped {
      forall i | 0 <= i < |dropped| ensures Inert(dropped[i]) {
        assert dropped[i] == s[|k| + i];
      }
      InertText(dropped, Final(k, START));
    }
  }

  /** The closing quote completes the escape, and no closer behind it ends the string. */
  lemma EscapedStaysOpen(s: string)
    requires Final(Kept(s), START).escaped
    ensures Final(Candidate(s), START) != START
  {
    hide TrimEnd, DropComma;
    var k := Kept(s);
    var st := Final(s, START);
    KeptScan(s);
    ScanDisciplined(k, START);
    ScanDisciplined(s, START);
    FinalAppend(Fill(k), Closing(st), START);
    EscapedEndsInBackslash(k);
    assert Fill(k) == k;
    KeptPrefix(s);
    StaysInString(s[|k|..], Final(k, START));
    var below := st.stack[..|st.stack| - 1];
    assert Closing(st)[1..] == Closers(below);
    ClosersNoQuote(below);
    StaysInString(Closers(below), Step(Final(k, START), '"'));
  }

  /**
   * On every input, a second scan of the patched text ends outside strings with an empty stack
   * exactly when the kept text does not stop inside an escape.
   */
  lemma CandidateIsBalanced(s: string)
    ensures Final(Candidate(s), START) == START <==> !Final(Kept(s), START).escaped
  {
    hide TrimEnd, DropComma, Final, Closing;
    var k := Kept(s);
    var st := Final(s, START);
    KeptScan(s);
    ScanDisciplined(k, START);
    ScanDisciplined(s, START);
    FinalAppend(Fill(k), Closing(st), START);
    if Final(k, START).escaped {
      EscapedStaysOpen(s);
    } else {
      if Fill(k) != k {
        FinalAppend(k, "null", START);
        InertText("null", Final(k, START));
      }
      ClosingCloses(st);
    }
  }
}
