/**
 * What the repair makes of every prefix of a printed document: it completes the text to the
 * print of the closed document, or it falls back, and the cut alone decides which.
 */
module JsonRepairPrefix {
  import opened Wrappers
  import opened Json
  import opened JsonRoundTrip
  import opened JsonScan
  import opened JsonCut
  import opened JsonRepair

  // ---------- Which cuts can be closed, and to what ----------

  /** The text stops neither inside an escape, a literal or an unfinished number, nor in or after a key. */
  predicate Closable(p: Partial)
    decreases p
  {
    match p
    case Whole(_) => true
    case TornScalar(text, _) => IsNumber(text)
    case OpenString(_, torn) => torn == ""
    case OpenArray(_, tail) => tail.Inside? ==> Closable(tail.element)
    case OpenObject(_, tail) => tail.Inside? ==> ClosableMember(tail.element)
  }

  predicate ClosableMember(m: PartialMember)
    decreases m
  {
    match m
    case AfterColon(_) => true
    case InValue(_, value) => Closable(value)
    case _ => false
  }

  /** An interrupted string loses trailing spaces and then a comma, and a final colon gains `null`. */
  function Settle(body: string): string {
    Fill(DropComma(TrimSpaces(body)))
  }

  function TrimSpaces(s: string): string {
    if s != "" && s[|s| - 1] == ' ' then TrimSpaces(s[..|s| - 1]) else s
  }

  function Closed(p: Partial): Value
    decreases p
  {
    match p
    case Whole(v) => v
    case TornScalar(text, _) => Number(text)
    case OpenString(body, _) => Str(Settle(body))
    case OpenArray(items, tail) =>
      Array(items + if tail.Inside? then [Closed(tail.element)] else [])
    case OpenObject(members, tail) =>
      Object(members + if tail.Inside? then [ClosedMember(tail.element)] else [])
  }

  function ClosedMember(m: PartialMember): Member
    decreases m
  {
    match m
    case InKey(body, _) => Member(body, Null)
    case AfterKey(key) => Member(key, Null)
    case AfterColon(key) => Member(key, Null)
    case InValue(key, value) => Member(key, Closed(value))
  }

  // ---------- What a cut of a printable document looks like ----------

  predicate TornEscape(torn: string) {
    || torn == "\\"
    || (2 <= |torn| < 6 && torn[0] == '\\' && torn[1] == 'u'
        && forall i :: 2 <= i < |torn| ==> HexValue(torn[i]).Some?)
  }

  predicate Sound(p: Partial)
    decreases p
  {
    match p
    case Whole(v) => Printable(v)
    case TornScalar(text, whole) =>
      text != "" && text < whole && (whole in ["null", "true", "false"] || IsNumber(whole))
    case OpenString(_, torn) => torn == "" || TornEscape(torn)
    case OpenArray(items, tail) =>
      && (forall i :: 0 <= i < |items| ==> Printable(items[i]))
      && (tail.Comma? ==> items != [])
      && (tail.Inside? ==> Sound(tail.element))
    case OpenObject(members, tail) =>
      && (forall i :: 0 <= i < |members| ==> Printable(members[i].value))
      && (tail.Comma? ==> members != [])
      && (tail.Inside? ==> SoundMember(tail.element))
  }

  predicate SoundMember(m: PartialMember)
    decreases m
  {
    match m
    case InKey(_, torn) => torn == "" || TornEscape(torn)
    case InValue(_, value) => Sound(value)
    case _ => true
  }

  lemma EscapeCharTorn(c: char, n: nat)
    requires 0 < n < |EscapeChar(c)|
    ensures TornEscape(EscapeChar(c)[..n])
  {
    if |EscapeChar(c)| == 2 {
      assert EscapeChar(c)[..n] == "\\";
    }
  }

  lemma {:induction false} CutStringSound(s: string, i: nat)
    requires i <= |Escape(s)|
    ensures CutString(s, i).torn == "" || TornEscape(CutString(s, i).torn)
  {
    if s != "" && i > 0 {
      if i < |EscapeChar(s[0])| {
        EscapeCharTorn(s[0], i);
      } else {
        CutStringSound(s[1..], i - |EscapeChar(s[0])|);
      }
    }
  }

  lemma {:induction false} CutSound(v: Value, i: nat)
    requires Printable(v) && 0 < i <= |Print(v)|
    ensures Sound(CutAt(v, i))
    decreases v, 0
  {
    if i < |Print(v)| {
      match v
      case Str(s) => CutStringSound(s, i - 1);
      case Array(items) =>
        var Spot(n, tail) := Locate(ItemTexts(items), i - 1);
        if tail.Inside? {
          CutSound(items[n], tail.element);
        }
      case Object(members) =>
        var Spot(n, tail) := Locate(MemberTexts(members), i - 1);
        if tail.Inside? {
          CutMemberSound(members[n], tail.element);
        }
      case _ =>
    }
  }

  lemma {:induction false} CutMemberSound(m: Member, i: nat)
    requires Printable(m.value) && 0 < i < |PrintMember(m)|
    ensures SoundMember(CutMember(m, i))
    decreases m.value, 1
  {
    hide Escape, Join, Locate, CutString;
    var n := |PrintString(m.key)|;
    if i <= n + 1 {
      CutMemberEarlySound(m, i);
    } else {
      PrintMemberLength(m);
      CutSound(m.value, i - n - 1);
      CutMemberLate(m, i);
    }
  }

  lemma CutMemberEarlySound(m: Member, i: nat)
    requires 0 < i < |PrintMember(m)| && i <= |PrintString(m.key)| + 1
    ensures SoundMember(CutMember(m, i))
  {
    if i < |PrintString(m.key)| {
      CutStringSound(m.key, i - 1);
    }
  }

  // ---------- The scan of a cut text ----------

  function Stack(p: Partial): seq<Bracket>
    decreases p
  {
    match p
    case OpenString(_, _) => [StringBracket]
    case OpenArray(_, tail) => [ArrayBracket] + if tail.Inside? then Stack(tail.element) else []
    case OpenObject(_, tail) => [ObjectBracket] + if tail.Inside? then MemberStack(tail.element) else []
    case _ => []
  }

  function MemberStack(m: PartialMember): seq<Bracket>
    decreases m
  {
    match m
    case InKey(_, _) => [StringBracket]
    case InValue(_, value) => Stack(value)
    case _ => []
  }

  function InsideString(p: Partial): bool
    decreases p
  {
    match p
    case OpenString(_, _) => true
    case OpenArray(_, tail) => tail.Inside? && InsideString(tail.element)
    case OpenObject(_, tail) => tail.Inside? && MemberInsideString(tail.element)
    case _ => false
  }

  function MemberInsideString(m: PartialMember): bool
    decreases m
  {
    match m
    case InKey(_, _) => true
    case InValue(_, value) => InsideString(value)
    case _ => false
  }

  /** The scan ends with these brackets added to those of `st`. */
  ghost predicate Reaches(s: string, st: Scan, stack: seq<Bracket>, inString: bool) {
    Final(s, st).stack == st.stack + stack && Final(s, st).inString == inString
  }

  lemma PrintNeutral(v: Value, st: Scan)
    requires Printable(v) && Idle(st)
    ensures Final(Print(v), st) == st
  {
    ValueRoundTrip(v, "");
    assert Print(v) + "" == Print(v);
    ValueNeutral(Print(v), st, 1);
  }

  lemma {:induction false} EscapeScan(s: string, st: Scan)
    requires Idle(st)
    ensures Final(Escape(s), InString(st)) == InString(st)
  {
    if s != "" {
      var more := Escape(s[1..]);
      EscapeCharScan(s[0], st);
      FinalAppend(EscapeChar(s[0]), more, InString(st));
      EscapeScan(s[1..], st);
    }
  }

  lemma EscapeCharScan(c: char, st: Scan)
    requires Idle(st)
    ensures Final(EscapeChar(c), InString(st)) == InString(st)
  {
    var e := EscapeChar(c);
    if |e| == 6 {
      DropEscaped(e, st, 1);
      DropManyInString(e[2..], 4, st, 1);
    } else if |e| == 2 {
      DropEscaped(e, st, 1);
    } else {
      DropInString(e, st, 1);
    }
  }

  lemma StringScan(s: string, torn: string, st: Scan)
    requires Idle(st) && (torn == "" || TornEscape(torn))
    ensures Reaches("\"" + (Escape(s) + torn), st, [StringBracket], true)
  {
    FinalAppend("\"", Escape(s) + torn, st);
    assert Final("\"", st) == InString(st);
    FinalAppend(Escape(s), torn, InString(st));
    EscapeScan(s, st);
    if |torn| >= 2 {
      DropEscaped(torn, st, 1);
      DropManyInString(torn[2..], |torn| - 2, st, 1);
    }
  }

  lemma KeyScan(key: string, st: Scan)
    requires Idle(st)
    ensures Final(PrintString(key), st) == st
    ensures Final(PrintString(key) + ":", st) == st
  {
    PrintNeutral(Str(key), st);
    FinalPush(PrintString(key), ':', st);
  }

  lemma {:induction false} JoinScan(ss: seq<string>, st: Scan)
    requires Idle(st)
    requires forall i :: 0 <= i < |ss| ==> Final(ss[i], st) == st
    ensures Final(Join(ss), st) == st
    ensures Final(Join(ss) + ",", st) == st
  {
    FinalPush(Join(ss), ',', st);
    if |ss| > 1 {
      JoinScan(ss[1..], st);
      FinalPush(ss[0], ',', st);
      FinalAppend(ss[0] + ",", Join(ss[1..]), st);
    }
  }

  lemma JoinOpenScan(ss: seq<string>, tail: Tail<string>, st: Scan, stack: seq<Bracket>, inString: bool)
    requires Idle(st)
    requires forall i :: 0 <= i < |ss| ==> Final(ss[i], st) == st
    requires if tail.Inside? then Reaches(tail.element, st, stack, inString) else stack == [] && !inString
    ensures Reaches(JoinOpen(ss, tail), st, stack, inString)
  {
    JoinScan(ss, st);
    if tail.Inside? {
      FinalAppend(Join(ss) + ",", tail.element, st);
    }
  }

  lemma BracketScan(open: string, b: Bracket, body: string, st: Scan)
    requires Final(open, st) == Within(st, b)
    ensures forall stack, inString :: Reaches(body, Within(st, b), stack, inString)
              ==> Reaches(open + body, st, [b] + stack, inString)
  {
    FinalAppend(open, body, st);
    assert forall stack: seq<Bracket> :: st.stack + [b] + stack == st.stack + ([b] + stack);
  }

  lemma ItemTextsScan(items: seq<Value>, st: Scan)
    requires Idle(st) && forall i :: 0 <= i < |items| ==> Printable(items[i])
    ensures forall i :: 0 <= i < |items| ==> Final(ItemTexts(items)[i], st) == st
  {
    forall i | 0 <= i < |items| ensures Final(ItemTexts(items)[i], st) == st {
      PrintNeutral(items[i], st);
    }
  }

  lemma MemberTextsScan(members: seq<Member>, st: Scan)
    requires Idle(st) && forall i :: 0 <= i < |members| ==> Printable(members[i].value)
    ensures forall i :: 0 <= i < |members| ==> Final(MemberTexts(members)[i], st) == st
  {
    forall i | 0 <= i < |members| ensures Final(MemberTexts(members)[i], st) == st {
      KeyScan(members[i].key, st);
      PrintNeutral(members[i].value, st);
      FinalAppend(PrintString(members[i].key) + ":", Print(members[i].value), st);
    }
  }

  predicate NumberChar(c: char) {
    IsDigit(c) || c == '-' || c == '+' || c == '.' || c == 'e' || c == 'E'
  }

  lemma {:induction false} NumberChars(s: string, q: NumberState)
    requires SkipNumber(s, q) == Some("")
    ensures forall i :: 0 <= i < |s| ==> NumberChar(s[i])
  {
    if s != "" && NextNumber(q, s[0]).Some? {
      NumberChars(s[1..], NextNumber(q, s[0]).value);
    }
  }

  lemma TornScalarChars(text: string, whole: string)
    requires Sound(TornScalar(text, whole))
    ensures forall i :: 0 <= i < |text| ==> NumberChar(text[i]) || 'a' <= text[i] <= 'z'
  {
    if whole !in ["null", "true", "false"] {
      NumberChars(whole, NumberStart);
    }
  }

  lemma {:induction false} OpenScan(p: Partial, st: Scan)
    requires Sound(p) && Idle(st)
    ensures Reaches(PrintPartial(p), st, Stack(p), InsideString(p))
    decreases p
  {
    match p
    case Whole(v) => PrintNeutral(v, st);
    case TornScalar(text, whole) =>
      TornScalarChars(text, whole);
      InertText(text, st);
    case OpenString(body, torn) => StringScan(body, torn, st);
    case OpenArray(items, tail) => OpenArrayScan(items, tail, st);
    case OpenObject(members, tail) => OpenObjectScan(members, tail, st);
  }

  lemma {:induction false} OpenArrayScan(items: seq<Value>, tail: Tail<Partial>, st: Scan)
    requires Sound(OpenArray(items, tail)) && Idle(st)
    ensures Reaches(PrintPartial(OpenArray(items, tail)), st, Stack(OpenArray(items, tail)),
                    InsideString(OpenArray(items, tail)))
    decreases tail
  {
    var inner := Within(st, ArrayBracket);
    ItemTextsScan(items, inner);
    var open := ItemsOpen(tail);
    if tail.Inside? {
      OpenScan(tail.element, inner);
      JoinOpenScan(ItemTexts(items), open, inner, Stack(tail.element), InsideString(tail.element));
    } else {
      JoinOpenScan(ItemTexts(items), open, inner, [], false);
    }
    assert Final("[", st) == inner;
    BracketScan("[", ArrayBracket, JoinOpen(ItemTexts(items), open), st);
  }

  lemma {:induction false} OpenObjectScan(members: seq<Member>, tail: Tail<PartialMember>, st: Scan)
    requires Sound(OpenObject(members, tail)) && Idle(st)
    ensures Reaches(PrintPartial(OpenObject(members, tail)), st, Stack(OpenObject(members, tail)),
                    InsideString(OpenObject(members, tail)))
    decreases tail
  {
    var inner := Within(st, ObjectBracket);
    MemberTextsScan(members, inner);
    var open := MembersOpen(tail);
    if tail.Inside? {
      OpenMemberScan(tail.element, inner);
      JoinOpenScan(MemberTexts(members), open, inner, MemberStack(tail.element), MemberInsideString(tail.element));
    } else {
      JoinOpenScan(MemberTexts(members), open, inner, [], false);
    }
    assert Final("{", st) == inner;
    BracketScan("{", ObjectBracket, JoinOpen(MemberTexts(members), open), st);
  }

  lemma {:induction false} OpenMemberScan(m: PartialMember, st: Scan)
    requires SoundMember(m) && Idle(st)
    ensures Reaches(PrintPartialMember(m), st, MemberStack(m), MemberInsideString(m))
    decreases m
  {
    match m
    case InKey(body, torn) => StringScan(body, torn, st);
    case AfterKey(key) => KeyScan(key, st);
    case AfterColon(key) => KeyScan(key, st);
    case InValue(key, value) =>
      KeyScan(key, st);
      OpenScan(value, st);
      FinalAppend(PrintString(key) + ":", PrintPartial(value), st);
  }
}
