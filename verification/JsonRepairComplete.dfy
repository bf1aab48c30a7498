/** A closable cut is repaired to the print of its closed document. */
module JsonRepairComplete {
  import opened Wrappers
  import opened Json
  import opened JsonRoundTrip
  import opened JsonScan
  import opened JsonCut
  import opened JsonRepair
  import opened JsonRepairPrefix

  /** The kept text with a missing value filled in. */
  function Settled(s: string): string {
    Fill(Kept(s))
  }

  function Ends(stack: seq<Bracket>, inString: bool): string {
    Closing(Scan(stack, inString, false))
  }

  /** What the repair writes for a cut text. */
  function Mended(p: Partial): string {
    Settled(PrintPartial(p)) + Ends(Stack(p), InsideString(p))
  }

  function MendedMember(m: PartialMember): string {
    Settled(PrintPartialMember(m)) + Ends(MemberStack(m), MemberInsideString(m))
  }

  // ---------- The tail of a text ----------

  /** A character the repair neither trims, drops nor completes. */
  predicate Solid(c: char) {
    !IsAsciiWs(c) && c != ',' && c != ':'
  }

  predicate EndsSolid(s: string) {
    s != "" && Solid(s[|s| - 1])
  }

  lemma SettledSolid(s: string)
    requires EndsSolid(s)
    ensures Settled(s) == s
  {
    TrimEndAt(s, |s| - 1);
    assert s[..|s|] == s;
  }

  lemma SettledComma(s: string)
    requires EndsSolid(s)
    ensures Settled(s + ",") == s
  {
    TrimEndAt(s + ",", |s|);
    assert (s + ",")[..|s| + 1] == s + ",";
    assert (s + ",")[..|s|] == s;
  }

  lemma SettledColon(s: string)
    ensures Settled(s + ":") == s + ":" + "null"
  {
    TrimEndAt(s + ":", |s|);
    assert (s + ":")[..|s| + 1] == s + ":";
  }

  lemma TrimEndAppend(a: string, b: string)
    requires b != "" && !IsAsciiWs(b[0])
    ensures TrimEnd(a + b) == a + TrimEnd(b) && TrimEnd(b) != ""
  {
    var k := TrimEnd(b);
    assert k != "";
    assert forall i :: |a| + |k| <= i < |a + b| ==> (a + b)[i] == b[i - |a|];
    TrimEndAt(a + b, |a| + |k| - 1);
    assert (a + b)[..|a| + |k|] == a + k;
  }

  lemma SettledAppend(a: string, b: string)
    requires b != "" && Solid(b[0])
    ensures Settled(a + b) == a + Settled(b)
  {
    TrimEndAppend(a, b);
    var k := TrimEnd(b);
    assert k[0] == b[0];
    var kept := Kept(b);
    assert Kept(a + b) == a + kept && kept != "" && kept[0] == b[0];
    FillAppend(a, kept);
  }

  lemma FillAppend(a: string, k: string)
    requires k != "" && Solid(k[0])
    ensures Fill(a + k) == a + Fill(k)
  {
    assert (a + k)[..|a + k| - 1] == a + k[..|k| - 1];
    assert LacksValue(a + k) == LacksValue(k);
    assert a + k + "null" == a + (k + "null");
  }

  // ---------- The closers ----------

  lemma {:induction false} ClosersPush(b: Bracket, stack: seq<Bracket>)
    ensures Closers([b] + stack) == Closers(stack) + Closer(b)
    decreases |stack|
  {
    if stack == [] {
      assert [b] + stack == [b] && [b][..0] == [];
    } else {
      var top, below := stack[|stack| - 1], stack[..|stack| - 1];
      ClosersPush(b, below);
      ClosersSnoc([b] + below, top);
      ClosersSnoc(below, top);
      assert below + [top] == stack;
      PushBelow(b, below, top);
      Regroup(Closer(top), Closers(below), Closer(b));
    }
  }

  lemma PushBelow(b: Bracket, below: seq<Bracket>, top: Bracket)
    ensures [b] + below + [top] == [b] + (below + [top])
  {
  }

  lemma ClosersSnoc(stack: seq<Bracket>, top: Bracket)
    ensures Closers(stack + [top]) == Closer(top) + Closers(stack)
  {
    assert (stack + [top])[..|stack|] == stack;
  }

  lemma EndsPush(b: Bracket, stack: seq<Bracket>, inString: bool)
    requires b != StringBracket
    ensures Ends([b] + stack, inString) == Ends(stack, inString) + Closer(b)
  {
    var inner := Unquoted(Scan(stack, inString, false)).stack;
    assert Unquoted(Scan([b] + stack, inString, false)).stack == [b] + inner;
    ClosersPush(b, inner);
  }

  lemma EndsBase()
    ensures Ends([], false) == "" && Ends([StringBracket], true) == "\""
    ensures Ends([ArrayBracket], false) == "]" && Ends([ObjectBracket], false) == "}"
  {
    assert [StringBracket][..0] == [];
    assert [ArrayBracket][..0] == [];
    assert [ObjectBracket][..0] == [];
  }

  // ---------- Lists ----------

  lemma {:induction false} JoinPush(ss: seq<string>, s: string)
    ensures Join(ss + [s]) == JoinOpen(ss, Inside(s))
  {
    if ss == [] {
      assert ss + [s] == [s];
    } else {
      assert (ss + [s])[1..] == ss[1..] + [s];
      JoinPush(ss[1..], s);
    }
  }

  lemma {:induction false} JoinSolid(ss: seq<string>)
    requires ss != [] && forall i :: 0 <= i < |ss| ==> EndsSolid(ss[i])
    ensures EndsSolid(Join(ss))
  {
    if |ss| > 1 {
      JoinSolid(ss[1..]);
    }
  }

  lemma JoinOpenAfter(open: string, ss: seq<string>, s: string)
    ensures var head := if ss == [] then "" else Join(ss) + ",";
            JoinOpen(ss, Inside(s)) == head + s && open + JoinOpen(ss, Inside(s)) == open + head + s
  {
    if ss != [] {
      assert open + (Join(ss) + "," + s) == open + (Join(ss) + ",") + s;
    }
  }

  lemma MendNested(open: string, ss: seq<string>, b: string, ends: string, close: string)
    requires b != "" && Solid(b[0])
    ensures Settled(open + JoinOpen(ss, Inside(b))) + (ends + close)
            == open + Join(ss + [Settled(b) + ends]) + close
  {
    var head := if ss == [] then "" else Join(ss) + ",";
    JoinOpenAfter(open, ss, b);
    JoinOpenAfter(open, ss, Settled(b) + ends);
    JoinPush(ss, Settled(b) + ends);
    SettledAppend(open + head, b);
    Nest(open + head, Settled(b), ends, close);
  }

  lemma Nest(a: string, b: string, ends: string, close: string)
    ensures a + b + (ends + close) == a + (b + ends) + close
  {
  }

  lemma MendInside(open: string, ss: seq<string>, b: string, br: Bracket, stack: seq<Bracket>, inString: bool)
    requires b != "" && Solid(b[0]) && br != StringBracket
    ensures Settled(open + JoinOpen(ss, Inside(b))) + Ends([br] + stack, inString)
            == open + Join(ss + [Settled(b) + Ends(stack, inString)]) + Closer(br)
  {
    EndsPush(br, stack, inString);
    MendNested(open, ss, b, Ends(stack, inString), Closer(br));
  }

  /** Between elements nothing is pending: a comma goes, and only the closer is added. */
  lemma MendBetween(open: string, ss: seq<string>, tail: Tail<string>)
    requires EndsSolid(open) && forall i :: 0 <= i < |ss| ==> EndsSolid(ss[i])
    requires tail.Clean? || (tail.Comma? && ss != [])
    ensures Settled(open + JoinOpen(ss, tail)) == open + Join(ss)
  {
    var s := open + Join(ss);
    if ss != [] {
      JoinSolid(ss);
    }
    AppendSolid(open, Join(ss));
    if tail.Comma? {
      SettledComma(s);
      CommaLast(open, Join(ss));
    } else {
      SettledSolid(s);
    }
  }

  lemma CommaLast(a: string, b: string)
    ensures a + (b + ",") == a + b + ","
  {
  }

  lemma AppendSolid(a: string, b: string)
    requires EndsSolid(a) && (b == "" || EndsSolid(b))
    ensures EndsSolid(a + b)
  {
    if b == "" {
      assert a + b == a;
    }
  }

  // ---------- Strings ----------

  lemma FirstOfConcat(a: string, b: string)
    requires a != ""
    ensures (a + b)[0] == a[0] && (a + b)[1..] == a[1..] + b
  {
  }

  lemma {:induction false} EscapeAppend(s: string, u: string)
    ensures Escape(s + u) == Escape(s) + Escape(u)
    decreases |s|
  {
    if s == "" {
      assert s + u == u;
    } else {
      EscapeAppend(s[1..], u);
      FirstOfConcat(s, u);
      Regroup(EscapeChar(s[0]), Escape(s[1..]), Escape(u));
    }
  }

  lemma EscapePush(s: string, c: char)
    ensures Escape(s + [c]) == Escape(s) + EscapeChar(c)
  {
    EscapeAppend(s, [c]);
    assert [c][1..] == "";
  }

  lemma {:induction false} TrimEscaped(body: string)
    ensures TrimEnd("\"" + Escape(body)) == "\"" + Escape(TrimSpaces(body))
  {
    hide EscapeChar;
    var s := "\"" + Escape(body);
    if body == "" {
      TrimEndAt(s, 0);
    } else {
      EscapedLast(body);
      if body[|body| - 1] == ' ' {
        TrimEscaped(body[..|body| - 1]);
        assert s[..|s| - 1] == "\"" + Escape(body[..|body| - 1]);
      } else {
        TrimEndAt(s, |s| - 1);
        assert s[..|s|] == s;
      }
    }
  }

  /** The last character of an escaped string is white, a comma or a colon only if the string's is. */
  lemma EscapedLast(body: string)
    requires body != ""
    ensures Escape(body) != ""
    ensures var c, last := body[|body| - 1], Escape(body)[|Escape(body)| - 1];
            && (c != ' ' ==> !IsAsciiWs(last))
            && (last == ',' <==> c == ',') && (last == ':' <==> c == ':') && (last == ' ' <==> c == ' ')
            && (c in [',', ':', ' '] ==> Escape(body)[..|Escape(body)| - 1] == Escape(body[..|body| - 1]))
  {
    var init, c := body[..|body| - 1], body[|body| - 1];
    assert init + [c] == body;
    EscapePush(init, c);
    EscapeCharLast(c);
    var e := EscapeChar(c);
    assert Escape(body)[|Escape(body)| - 1] == e[|e| - 1];
    if c in [',', ':', ' '] {
      assert Escape(body)[..|Escape(body)| - 1] == Escape(init);
    }
  }

  lemma EscapeCharLast(c: char)
    ensures EscapeChar(c) != ""
    ensures var last := EscapeChar(c)[|EscapeChar(c)| - 1];
            && (c != ' ' ==> !IsAsciiWs(last))
            && (last == ',' <==> c == ',') && (last == ':' <==> c == ':') && (last == ' ' <==> c == ' ')
    ensures c in [',', ':', ' '] ==> EscapeChar(c) == [c]
  {
  }

  lemma KeptEscaped(body: string)
    ensures Kept("\"" + Escape(body)) == "\"" + Escape(DropComma(TrimSpaces(body)))
  {
    TrimEscaped(body);
    var k := TrimSpaces(body);
    if k != "" {
      EscapedLast(k);
      var s := "\"" + Escape(k);
      assert s[..|s| - 1] == "\"" + Escape(k)[..|Escape(k)| - 1];
    }
  }

  lemma LacksValueQuoted(e: string)
    ensures LacksValue("\"" + e) == LacksValue(e)
  {
    if e != "" {
      InitOfQuoted(e);
    }
  }

  lemma LacksValueEscaped(k: string)
    ensures LacksValue(Escape(k)) == LacksValue(k)
  {
    if k != "" {
      EscapedLast(k);
      var init := k[..|k| - 1];
      if init != "" {
        EscapedLast(init);
      }
    }
  }

  lemma InitOfQuoted(e: string)
    requires e != ""
    ensures ("\"" + e)[..|e|] == "\"" + e[..|e| - 1]
  {
  }

  lemma FillEscaped(k: string)
    ensures Fill("\"" + Escape(k)) == "\"" + Escape(Fill(k))
  {
    LacksValueQuoted(Escape(k));
    LacksValueEscaped(k);
    EscapeAppendNull(k);
    Regroup("\"", Escape(k), "null");
  }

  lemma EscapeAppendNull(k: string)
    ensures Escape(k + "null") == Escape(k) + "null"
  {
    EscapeAppend(k, "null");
    EscapeCons('l', "");
    EscapeCons('l', "l");
    EscapeCons('u', "ll");
    EscapeCons('n', "ull");
    assert ['l'] + "" == "l" && ['l'] + "l" == "ll" && ['u'] + "ll" == "ull" && ['n'] + "ull" == "null";
  }

  lemma SettledString(body: string)
    ensures Settled("\"" + (Escape(body) + "")) == "\"" + Escape(Settle(body))
  {
    assert Escape(body) + "" == Escape(body);
    KeptEscaped(body);
    FillEscaped(DropComma(TrimSpaces(body)));
  }

  // ---------- Printed text starts and ends solid ----------

  lemma {:induction false} NumberLast(s: string, q: NumberState)
    requires SkipNumber(s, q) == Some("") && s != ""
    ensures IsDigit(s[|s| - 1])
  {
    if |s| > 1 {
      NumberLast(s[1..], NextNumber(q, s[0]).value);
    } else {
      assert s[1..] == "";
      assert CompleteNumber(NextNumber(q, s[0]).value);
    }
  }

  lemma PrintSolid(v: Value)
    requires Printable(v)
    ensures EndsSolid(Print(v)) && Solid(Print(v)[0])
  {
    PrintStarts(v);
    if v.Number? {
      NumberLast(v.lexeme, NumberStart);
    }
  }

  lemma ItemTextsSolid(vs: seq<Value>)
    requires forall i :: 0 <= i < |vs| ==> Printable(vs[i])
    ensures forall i :: 0 <= i < |ItemTexts(vs)| ==> EndsSolid(ItemTexts(vs)[i])
  {
    forall i | 0 <= i < |vs| ensures EndsSolid(ItemTexts(vs)[i]) {
      PrintSolid(vs[i]);
    }
  }

  lemma MemberTextsSolid(ms: seq<Member>)
    requires forall i :: 0 <= i < |ms| ==> Printable(ms[i].value)
    ensures forall i :: 0 <= i < |MemberTexts(ms)| ==> EndsSolid(MemberTexts(ms)[i])
  {
    forall i | 0 <= i < |ms| ensures EndsSolid(MemberTexts(ms)[i]) {
      PrintSolid(ms[i].value);
    }
  }

  lemma PartialStarts(p: Partial)
    requires Sound(p)
    ensures PrintPartial(p) != "" && Solid(PrintPartial(p)[0])
  {
    match p
    case Whole(v) => PrintSolid(v);
    case TornScalar(text, whole) => TornScalarChars(text, whole);
    case _ =>
  }

  lemma PartialMemberStarts(m: PartialMember)
    ensures PrintPartialMember(m) != "" && Solid(PrintPartialMember(m)[0])
  {
  }

  // ---------- Mending, one container at a time ----------

  lemma MendedArrayInside(items: seq<Value>, last: Partial)
    requires Sound(OpenArray(items, Inside(last)))
    ensures Mended(OpenArray(items, Inside(last))) == "[" + Join(ItemTexts(items) + [Mended(last)]) + "]"
  {
    var p := OpenArray(items, Inside(last));
    assert PrintPartial(p) == "[" + JoinOpen(ItemTexts(items), Inside(PrintPartial(last)));
    assert Stack(p) == [ArrayBracket] + Stack(last) && InsideString(p) == InsideString(last);
    PartialStarts(last);
    MendInside("[", ItemTexts(items), PrintPartial(last), ArrayBracket, Stack(last), InsideString(last));
  }

  lemma MendedArrayBetween(items: seq<Value>, tail: Tail<Partial>)
    requires Sound(OpenArray(items, tail)) && !tail.Inside?
    ensures Mended(OpenArray(items, tail)) == Print(Array(items))
  {
    hide Escape, Join, Closing, Kept, Fill;
    EndsBase();
    ItemTextsSolid(items);
    MendBetween("[", ItemTexts(items), ItemsOpen(tail));
    assert Stack(OpenArray(items, tail)) == [ArrayBracket];
    assert Mended(OpenArray(items, tail)) == Settled("[" + JoinOpen(ItemTexts(items), ItemsOpen(tail))) + "]";
  }

  lemma MendedObjectInside(members: seq<Member>, last: PartialMember)
    requires Sound(OpenObject(members, Inside(last)))
    ensures Mended(OpenObject(members, Inside(last))) == "{" + Join(MemberTexts(members) + [MendedMember(last)]) + "}"
  {
    var p := OpenObject(members, Inside(last));
    assert PrintPartial(p) == "{" + JoinOpen(MemberTexts(members), Inside(PrintPartialMember(last)));
    assert Stack(p) == [ObjectBracket] + MemberStack(last) && InsideString(p) == MemberInsideString(last);
    PartialMemberStarts(last);
    MendInside("{", MemberTexts(members), PrintPartialMember(last), ObjectBracket, MemberStack(last),
               MemberInsideString(last));
  }

  lemma MendedObjectBetween(members: seq<Member>, tail: Tail<PartialMember>)
    requires Sound(OpenObject(members, tail)) && !tail.Inside?
    ensures Mended(OpenObject(members, tail)) == Print(Object(members))
  {
    hide Escape, Join, Closing, Kept, Fill;
    EndsBase();
    MemberTextsSolid(members);
    MendBetween("{", MemberTexts(members), MembersOpen(tail));
    assert PrintPartial(OpenObject(members, tail)) == "{" + JoinOpen(MemberTexts(members), MembersOpen(tail));
    assert Stack(OpenObject(members, tail)) == [ObjectBracket];
    assert Mended(OpenObject(members, tail)) == Settled("{" + JoinOpen(MemberTexts(members), MembersOpen(tail))) + "}";
  }

  lemma MendedOpenString(body: string, torn: string)
    ensures Mended(OpenString(body, torn)) == Settled("\"" + (Escape(body) + torn)) + "\""
  {
    EndsBase();
  }

  lemma MendedInValue(key: string, value: Partial)
    requires Sound(value)
    ensures MendedMember(InValue(key, value)) == PrintString(key) + ":" + Mended(value)
  {
    hide Escape, Join, Closing;
    PartialStarts(value);
    var a := PrintString(key) + ":";
    SettledAppend(a, PrintPartial(value));
    Regroup(a, Settled(PrintPartial(value)), Ends(Stack(value), InsideString(value)));
  }

  lemma MendedWhole(v: Value)
    requires Printable(v)
    ensures Mended(Whole(v)) == Print(v)
  {
    EndsBase();
    PrintSolid(v);
    SettledSolid(Print(v));
  }

  lemma MendedNumber(text: string, whole: string)
    requires Sound(TornScalar(text, whole)) && IsNumber(text)
    ensures Mended(TornScalar(text, whole)) == text
  {
    EndsBase();
    TornScalarChars(text, whole);
    SettledSolid(text);
  }

  lemma MendedString(body: string)
    ensures Mended(OpenString(body, "")) == PrintString(Settle(body))
  {
    EndsBase();
    SettledString(body);
  }

  // ---------- A closable cut is completed ----------

  /** The repair completes a closable cut to the printed form of its closed document. */
  lemma {:induction false} MendedIsPrint(p: Partial)
    requires Sound(p) && Closable(p)
    ensures Mended(p) == Print(Closed(p)) && Printable(Closed(p))
    decreases p
  {
    match p
    case Whole(v) => MendedWhole(v);
    case TornScalar(text, whole) => MendedNumber(text, whole);
    case OpenString(body, torn) => MendedString(body);
    case OpenArray(items, tail) => MendedArrayIsPrint(items, tail);
    case OpenObject(members, tail) => MendedObjectIsPrint(members, tail);
  }

  lemma {:induction false} MendedArrayIsPrint(items: seq<Value>, tail: Tail<Partial>)
    requires Sound(OpenArray(items, tail)) && Closable(OpenArray(items, tail))
    ensures var p := OpenArray(items, tail); Mended(p) == Print(Closed(p)) && Printable(Closed(p))
    decreases tail
  {
    if tail.Inside? {
      MendedIsPrint(tail.element);
      MendedArrayInside(items, tail.element);
      PrintArrayPush(items, Closed(tail.element));
    } else {
      MendedArrayBetween(items, tail);
      assert items + [] == items;
    }
  }

  lemma PrintArrayPush(items: seq<Value>, last: Value)
    requires forall i :: 0 <= i < |items| ==> Printable(items[i])
    ensures Print(Array(items + [last])) == "[" + Join(ItemTexts(items) + [Print(last)]) + "]"
    ensures Printable(last) ==> Printable(Array(items + [last]))
  {
    assert ItemTexts(items + [last]) == ItemTexts(items) + [Print(last)];
  }

  lemma PrintObjectPush(members: seq<Member>, last: Member)
    requires forall i :: 0 <= i < |members| ==> Printable(members[i].value)
    ensures Print(Object(members + [last])) == "{" + Join(MemberTexts(members) + [PrintMember(last)]) + "}"
    ensures Printable(last.value) ==> Printable(Object(members + [last]))
  {
    assert MemberTexts(members + [last]) == MemberTexts(members) + [PrintMember(last)];
  }

  lemma {:induction false} MendedObjectIsPrint(members: seq<Member>, tail: Tail<PartialMember>)
    requires Sound(OpenObject(members, tail)) && Closable(OpenObject(members, tail))
    ensures var p := OpenObject(members, tail); Mended(p) == Print(Closed(p)) && Printable(Closed(p))
    decreases tail
  {
    if tail.Inside? {
      MendedMemberIsPrint(tail.element);
      MendedObjectInside(members, tail.element);
      PrintObjectPush(members, ClosedMember(tail.element));
    } else {
      MendedObjectBetween(members, tail);
      assert members + [] == members;
    }
  }

  lemma {:induction false} MendedMemberIsPrint(m: PartialMember)
    requires SoundMember(m) && ClosableMember(m)
    ensures MendedMember(m) == PrintMember(ClosedMember(m)) && Printable(ClosedMember(m).value)
    decreases m
  {
    match m
    case AfterColon(key) => MendedAfterColon(key);
    case InValue(key, value) =>
      MendedInValue(key, value);
      MendedIsPrint(value);
  }

  lemma MendedAfterColon(key: string)
    ensures MendedMember(AfterColon(key)) == PrintMember(Member(key, Null))
  {
    EndsBase();
    SettledColon(PrintString(key));
  }
}
