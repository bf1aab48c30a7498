/** A cut that is not closable leaves text the parser rejects, however the repair closes it. */
module JsonRepairFallback {
  import opened Wrappers
  import opened Json
  import opened JsonRoundTrip
  import opened JsonCut
  import opened JsonRepair
  import opened JsonRepairPrefix
  import opened JsonRepairComplete

  predicate OnlyClosers(s: string) {
    forall i :: 0 <= i < |s| ==> s[i] == ']' || s[i] == '}'
  }

  // ---------- Scalars ----------

  lemma {:induction false} TornNumberFails(text: string, whole: string, q: NumberState, rest: string)
    requires text <= whole && SkipNumber(whole, q) == Some("") && SkipNumber(text, q) != Some("")
    requires OnlyClosers(rest)
    ensures SkipNumber(text + rest, q) == None
  {
    if text == "" {
      assert text + rest == rest;
    } else {
      assert (text + rest)[1..] == text[1..] + rest;
      TornNumberFails(text[1..], whole[1..], NextNumber(q, text[0]).value, rest);
    }
  }

  lemma TornWordFails(text: string, word: string, rest: string)
    requires text < word && OnlyClosers(rest)
    requires forall i :: 0 <= i < |word| ==> 'a' <= word[i] <= 'z'
    ensures !(word <= text + rest)
  {
    if rest != "" {
      assert (text + rest)[|text|] == rest[0] != word[|text|];
    }
  }

  lemma TornScalarFails(text: string, whole: string, rest: string)
    requires Sound(TornScalar(text, whole)) && !IsNumber(text) && OnlyClosers(rest)
    ensures ParseValue(text + rest) == None
  {
    var t := text + rest;
    assert t[0] == text[0] == whole[0];
    TornScalarChars(text, whole);
    assert SkipWs(t) == t;
    if whole in ["null", "true", "false"] {
      TornWordFails(text, whole, rest);
    } else {
      NumberFirst(whole);
      TornNumberFails(text, whole, NumberStart, rest);
    }
  }

  lemma NumberFirst(n: string)
    requires IsNumber(n)
    ensures n != "" && (n[0] == '-' || IsDigit(n[0]))
  {
  }

  // ---------- Strings ----------

  lemma {:induction false} ClosersEndNoString(rest: string)
    requires OnlyClosers(rest)
    ensures ParseString(rest) == None
  {
    if rest != "" {
      ClosersEndNoString(rest[1..]);
    }
  }

  lemma TornEscapeFails(torn: string, rest: string)
    requires TornEscape(torn) && OnlyClosers(rest)
    ensures ParseString(torn + ("\"" + rest)) == None
  {
    var s := torn + ("\"" + rest);
    if torn == "\\" {
      assert s[1..][1..] == rest;
      ClosersEndNoString(rest);
    } else {
      var h := s[1..][1..];
      assert h[|torn| - 2] == '"' && |torn| - 2 < 4;
      assert HexValue('"') == None;
      assert Hex4(h) == None;
    }
  }

  lemma {:induction false} TornStringFails(body: string, torn: string, rest: string)
    requires TornEscape(torn) && OnlyClosers(rest)
    ensures ParseString(Escape(body) + (torn + ("\"" + rest))) == None
  {
    var tail := torn + ("\"" + rest);
    if body == "" {
      assert Escape(body) + tail == tail;
      TornEscapeFails(torn, rest);
    } else {
      var more := Escape(body[1..]) + tail;
      assert Escape(body) + tail == EscapeChar(body[0]) + more;
      EscapeCharRoundTrip(body[0], more);
      TornStringFails(body[1..], torn, rest);
    }
  }

  /** A string cut inside an escape keeps its text, and its new closing quote never closes it. */
  lemma TornStringMended(body: string, torn: string, rest: string)
    requires TornEscape(torn) && OnlyClosers(rest)
    ensures var s := Settled("\"" + (Escape(body) + torn)) + "\"" + rest;
            s != "" && s[0] == '"' && ParseString(s[1..]) == None
  {
    OpenStringText(Escape(body), torn, rest);
    SettledSolid("\"" + (Escape(body) + torn));
    TornStringFails(body, torn, rest);
  }

  lemma OpenStringText(body: string, torn: string, rest: string)
    requires TornEscape(torn)
    ensures EndsSolid("\"" + (body + torn))
    ensures ("\"" + (body + torn) + "\"" + rest)[1..] == body + (torn + ("\"" + rest))
  {
  }

  // ---------- Containers ----------

  lemma {:induction false} ItemsFail(items: seq<Value>, x: string, rest: string)
    requires forall i :: 0 <= i < |items| ==> Printable(items[i])
    requires ParseValue(x + ("]" + rest)) == None
    ensures ParseItems(Join(ItemTexts(items) + [x]) + ("]" + rest)) == None
  {
    var ss := ItemTexts(items) + [x];
    var s := Join(ss) + ("]" + rest);
    JsonRoundTrip.JoinCons(ss, "]" + rest);
    if items == [] {
      assert ss == [x];
    } else {
      assert ss[1..] == ItemTexts(items[1..]) + [x];
      var tail := Join(ss[1..]) + ("]" + rest);
      assert ss[0] == Print(items[0]);
      ValueRoundTrip(items[0], "," + tail);
      ItemsStep(s, items[0], ',', tail);
      ItemsFail(items[1..], x, rest);
    }
  }

  lemma {:induction false} MembersFail(members: seq<Member>, x: string, rest: string)
    requires forall i :: 0 <= i < |members| ==> Printable(members[i].value)
    requires ParseMember(x + ("}" + rest)) == None
    ensures ParseMembers(Join(MemberTexts(members) + [x]) + ("}" + rest)) == None
  {
    var ss := MemberTexts(members) + [x];
    var s := Join(ss) + ("}" + rest);
    JsonRoundTrip.JoinCons(ss, "}" + rest);
    if members == [] {
      assert ss == [x];
    } else {
      assert ss[1..] == MemberTexts(members[1..]) + [x];
      var tail := Join(ss[1..]) + ("}" + rest);
      assert ss[0] == PrintMember(members[0]);
      MemberRoundTrip(members[0], "," + tail);
      MembersStep(s, members[0], ',', tail);
      MembersFail(members[1..], x, rest);
    }
  }

  /** An opened container whose elements do not parse does not parse. */
  lemma OpenedFails(t: string)
    requires t != "" && (t[0] == '[' || t[0] == '{')
    requires t[1..] != "" && !IsWs(t[1]) && t[1] != ']' && t[1] != '}'
    requires if t[0] == '[' then ParseItems(t[1..]) == None else ParseMembers(t[1..]) == None
    ensures ParseValue(t) == None
  {
    assert SkipWs(t[1..]) == t[1..];
  }

  /** A first character no element list closes on. */
  predicate Opening(c: char) {
    !IsWs(c) && c != ']' && c != '}'
  }

  lemma JoinStarts(ss: seq<string>, x: string)
    requires x != "" && Opening(x[0])
    requires ss != [] ==> ss[0] != "" && Opening(ss[0][0])
    ensures Join(ss + [x]) != "" && Opening(Join(ss + [x])[0])
  {
    if ss != [] {
      assert (ss + [x])[0] == ss[0];
    }
  }

  lemma SettledStarts(b: string)
    requires b != "" && Solid(b[0])
    ensures Settled(b) != "" && Settled(b)[0] == b[0]
  {
    TrimEndAppend("", b);
  }

  lemma PartialOpens(p: Partial)
    requires Sound(p)
    ensures PrintPartial(p) != "" && Opening(PrintPartial(p)[0])
  {
    match p
    case Whole(v) => PrintStarts(v);
    case TornScalar(text, whole) => TornScalarChars(text, whole);
    case _ =>
  }

  lemma MendedStarts(p: Partial)
    requires Sound(p)
    ensures Mended(p) != "" && Opening(Mended(p)[0])
  {
    PartialStarts(p);
    PartialOpens(p);
    SettledStarts(PrintPartial(p));
  }

  lemma MendedMemberStarts(m: PartialMember)
    ensures MendedMember(m) != "" && MendedMember(m)[0] == '"'
  {
    assert PrintPartialMember(m)[0] == '"';
    SettledStarts(PrintPartialMember(m));
  }

  lemma Enclosed(open: char, list: string, close: string, rest: string)
    requires list != ""
    ensures var t := [open] + list + close + rest;
            t[0] == open && t[1] == list[0] && t[1..] == list + (close + rest)
  {
  }

  lemma ItemTextsStart(items: seq<Value>)
    requires items != [] && Printable(items[0])
    ensures ItemTexts(items)[0] != "" && Opening(ItemTexts(items)[0][0])
  {
    PrintStarts(items[0]);
  }

  lemma TornScalarMended(text: string, whole: string)
    requires Sound(TornScalar(text, whole))
    ensures Mended(TornScalar(text, whole)) == text
  {
    hide IsNumber, Settled, Ends;
    EndsBase();
    TornScalarChars(text, whole);
    SettledSolid(text);
    assert text + "" == text;
  }

  lemma {:induction false} MendedFails(p: Partial, rest: string)
    requires Sound(p) && !Closable(p) && OnlyClosers(rest)
    ensures ParseValue(Mended(p) + rest) == None
    decreases p, 0
  {
    match p
    case TornScalar(text, whole) =>
      TornScalarMended(text, whole);
      TornScalarFails(text, whole, rest);
    case OpenString(body, torn) =>
      MendedStringFails(body, torn, rest);
    case OpenArray(items, Inside(last)) =>
      MendedArrayFails(items, last, rest);
    case OpenObject(members, Inside(last)) =>
      MendedObjectFails(members, last, rest);
    case _ =>
  }

  lemma QuotedFails(s: string)
    requires s != "" && s[0] == '"' && ParseString(s[1..]) == None
    ensures ParseValue(s) == None
  {
  }

  lemma MendedStringFails(body: string, torn: string, rest: string)
    requires TornEscape(torn) && OnlyClosers(rest)
    ensures ParseValue(Mended(OpenString(body, torn)) + rest) == None
  {
    MendedOpenString(body, torn);
    TornStringMended(body, torn, rest);
    QuotedFails(Settled("\"" + (Escape(body) + torn)) + "\"" + rest);
  }

  lemma ItemListOpens(items: seq<Value>, last: Partial)
    requires Sound(OpenArray(items, Inside(last)))
    ensures var list := Join(ItemTexts(items) + [Mended(last)]); list != "" && Opening(list[0])
  {
    MendedStarts(last);
    if items != [] {
      ItemTextsStart(items);
    }
    JoinStarts(ItemTexts(items), Mended(last));
  }

  lemma ArrayFails(items: seq<Value>, x: string, rest: string)
    requires forall i :: 0 <= i < |items| ==> Printable(items[i])
    requires ParseValue(x + ("]" + rest)) == None
    requires Join(ItemTexts(items) + [x]) != "" && Opening(Join(ItemTexts(items) + [x])[0])
    ensures ParseValue("[" + Join(ItemTexts(items) + [x]) + "]" + rest) == None
  {
    var list := Join(ItemTexts(items) + [x]);
    ItemsFail(items, x, rest);
    Enclosed('[', list, "]", rest);
    OpenedFails("[" + list + "]" + rest);
  }

  lemma {:induction false} MendedArrayFails(items: seq<Value>, last: Partial, rest: string)
    requires Sound(OpenArray(items, Inside(last))) && !Closable(last) && OnlyClosers(rest)
    ensures ParseValue(Mended(OpenArray(items, Inside(last))) + rest) == None
    decreases last, 1
  {
    hide Escape, Join, Kept, Fill, Closing, ParseValue;
    MendedArrayInside(items, last);
    MendedFails(last, "]" + rest);
    ItemListOpens(items, last);
    ArrayFails(items, Mended(last), rest);
  }

  lemma {:induction false} MendedObjectFails(members: seq<Member>, last: PartialMember, rest: string)
    requires Sound(OpenObject(members, Inside(last))) && !ClosableMember(last) && OnlyClosers(rest)
    ensures ParseValue(Mended(OpenObject(members, Inside(last))) + rest) == None
    decreases last, 1
  {
    hide Escape, Join, Kept, Fill, Closing, ParseValue, ParseMember;
    var x := MendedMember(last);
    var list := Join(MemberTexts(members) + [x]);
    MendedObjectInside(members, last);
    MendedMemberFails(last, "}" + rest);
    MembersFail(members, x, rest);
    MendedMemberStarts(last);
    JoinStarts(MemberTexts(members), x);
    Enclosed('{', list, "}", rest);
    OpenedFails("{" + list + "}" + rest);
  }

  lemma KeyWithoutColonFails(body: string, rest: string)
    requires OnlyClosers(rest)
    ensures ParseMember(PrintString(body) + rest) == None
  {
    var s := PrintString(body) + rest;
    assert s[1..] == Escape(body) + "\"" + rest;
    StringRoundTrip(body, rest);
  }

  lemma {:induction false} MendedMemberFails(m: PartialMember, rest: string)
    requires SoundMember(m) && !ClosableMember(m) && OnlyClosers(rest)
    ensures ParseMember(MendedMember(m) + rest) == None
    decreases m, 0
  {
    EndsBase();
    match m
    case InKey(body, torn) =>
      if torn == "" {
        SettledString(body);
        KeyWithoutColonFails(Settle(body), rest);
      } else {
        TornStringMended(body, torn, rest);
      }
    case AfterKey(key) =>
      SettledSolid(PrintString(key));
      assert PrintString(key) + "" == PrintString(key);
      KeyWithoutColonFails(key, rest);
    case InValue(key, value) =>
      MendedInValue(key, value);
      MendedFails(value, rest);
      MemberFails(key, Mended(value), rest);
  }

  lemma MemberFails(key: string, value: string, rest: string)
    requires ParseValue(value + rest) == None
    ensures ParseMember(PrintString(key) + ":" + value + rest) == None
  {
    hide Escape;
    var s := PrintString(key) + ":" + value + rest;
    var u := ":" + (value + rest);
    MemberText(Escape(key), value, rest);
    assert s[1..] == Escape(key) + "\"" + u;
    StringRoundTrip(key, u);
    assert u[1..] == value + rest;
  }
}
