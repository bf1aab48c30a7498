/**
 * Every way a compactly printed JSON document can be cut off, as a tree: what was complete
 * before the cut, and what was being written when the text stopped.
 */
module JsonCut {
  import opened Json

  /** A value whose text stops before, or exactly at, its end. */
  datatype Partial =
    | Whole(v: Value)
    | TornScalar(text: string, whole: string)             // inside a literal or a number
    | OpenString(body: string, torn: string)              // `torn` is a begun escape, or empty
    | OpenArray(items: seq<Value>, itemsTail: Tail<Partial>)
    | OpenObject(members: seq<Member>, membersTail: Tail<PartialMember>)

  datatype PartialMember =
    | InKey(body: string, torn: string)
    | AfterKey(key: string)                               // the closing quote is the last character
    | AfterColon(key: string)
    | InValue(key: string, value: Partial)

  /** What follows the complete elements of an open container. */
  datatype Tail<T> = Clean | Comma | Inside(element: T)

  // ---------- The text before the cut ----------

  function PrintPartial(p: Partial): string
    decreases p
  {
    match p
    case Whole(v) => Print(v)
    case TornScalar(text, _) => text
    case OpenString(body, torn) => "\"" + (Escape(body) + torn)
    case OpenArray(items, tail) =>
      "[" + JoinOpen(ItemTexts(items), ItemsOpen(tail))
    case OpenObject(members, tail) =>
      "{" + JoinOpen(MemberTexts(members), MembersOpen(tail))
  }

  function ItemsOpen(tail: Tail<Partial>): Tail<string>
    decreases tail
  {
    match tail
    case Clean => Clean
    case Comma => Comma
    case Inside(item) => Inside(PrintPartial(item))
  }

  function MembersOpen(tail: Tail<PartialMember>): Tail<string>
    decreases tail
  {
    match tail
    case Clean => Clean
    case Comma => Comma
    case Inside(m) => Inside(PrintPartialMember(m))
  }

  function PrintPartialMember(m: PartialMember): string
    decreases m
  {
    match m
    case InKey(body, torn) => "\"" + (Escape(body) + torn)
    case AfterKey(key) => PrintString(key)
    case AfterColon(key) => PrintString(key) + ":"
    case InValue(key, value) => PrintString(key) + ":" + PrintPartial(value)
  }

  function JoinOpen(ss: seq<string>, tail: Tail<string>): string {
    match tail
    case Clean => Join(ss)
    case Comma => Join(ss) + ","
    case Inside(s) => if ss == [] then s else Join(ss) + "," + s
  }

  // ---------- The cut of a document after `i` characters ----------

  /** The characters of a string that are complete, and what is there of the escape of the next one. */
  datatype Torn = Torn(body: string, torn: string)

  function CutString(s: string, i: nat): (r: Torn)
    requires i <= |Escape(s)|
    ensures r.body <= s
  {
    if s == "" || i == 0 then Torn("", "")
    else
      var e := EscapeChar(s[0]);
      if i < |e| then Torn("", e[..i])
      else
        var Torn(body, torn) := CutString(s[1..], i - |e|);
        Torn([s[0]] + body, torn)
  }

  /** How many elements of a list are complete, and how far the next one is. */
  datatype Spot = Spot(count: nat, tail: Tail<nat>)

  /** Where a list is cut after `i` characters. */
  function Locate(ss: seq<string>, i: nat): (r: Spot)
    requires i <= |Join(ss)|
    ensures r.count <= |ss|
    ensures r.tail.Comma? ==> r.count > 0
    ensures r.tail.Inside? ==> r.count < |ss| && 0 < r.tail.element < |ss[r.count]|
  {
    if ss == [] || i == 0 then Spot(0, Clean)
    else if i < |ss[0]| then Spot(0, Inside(i))
    else if i == |ss[0]| then Spot(1, Clean)
    else
      var Spot(n, tail) := Locate(ss[1..], i - |ss[0]| - 1);
      Spot(n + 1, if n == 0 && tail.Clean? then Comma else tail)
  }

  function CutAt(v: Value, i: nat): Partial
    requires 0 < i <= |Print(v)|
    decreases v, 1
  {
    if i == |Print(v)| then Whole(v)
    else
      match v
      case Str(s) => var Torn(body, torn) := CutString(s, i - 1); OpenString(body, torn)
      case Array(items) => CutArray(items, i)
      case Object(members) => CutObject(members, i)
      case _ => TornScalar(Print(v)[..i], Print(v))
  }

  function CutArray(items: seq<Value>, i: nat): (r: Partial)
    requires 0 < i < |Print(Array(items))|
    ensures r.OpenArray?
    decreases Array(items), 0
  {
    var Spot(n, tail) := Locate(ItemTexts(items), i - 1);
    OpenArray(items[..n],
              match tail
              case Clean => Clean
              case Comma => Comma
              case Inside(k) => Inside(CutAt(items[n], k)))
  }

  function CutObject(members: seq<Member>, i: nat): (r: Partial)
    requires 0 < i < |Print(Object(members))|
    ensures r.OpenObject?
    decreases Object(members), 0
  {
    var Spot(n, tail) := Locate(MemberTexts(members), i - 1);
    OpenObject(members[..n],
               match tail
               case Clean => Clean
               case Comma => Comma
               case Inside(k) => Inside(CutMember(members[n], k)))
  }

  function CutMember(m: Member, i: nat): PartialMember
    requires 0 < i < |PrintMember(m)|
    decreases m, 1
  {
    var n := |PrintString(m.key)|;
    if i < n then var Torn(body, torn) := CutString(m.key, i - 1); InKey(body, torn)
    else if i == n then AfterKey(m.key)
    else if i == n + 1 then AfterColon(m.key)
    else InValue(m.key, CutAt(m.value, i - n - 1))
  }

  // ---------- The cut prints exactly the prefix ----------

  lemma TakePast(a: string, b: string, n: nat)
    requires n <= |b|
    ensures (a + b)[..|a| + n] == a + b[..n]
  {
  }

  lemma TakeEnclosed(open: string, body: string, close: string, n: nat)
    requires n <= |body|
    ensures (open + body + close)[..|open| + n] == open + body[..n]
  {
  }

  lemma EscapeCons(c: char, s: string)
    ensures Escape([c] + s) == EscapeChar(c) + Escape(s)
  {
    assert ([c] + s)[1..] == s;
  }

  lemma Associates(a: string, b: string, c: string)
    ensures a + b + c == a + (b + c)
  {
  }

  lemma {:induction false} CutStringText(s: string, i: nat)
    requires i <= |Escape(s)|
    ensures Escape(CutString(s, i).body) + CutString(s, i).torn == Escape(s)[..i]
  {
    if s != "" && i > 0 {
      var e, more := EscapeChar(s[0]), Escape(s[1..]);
      if i < |e| {
        TakeEnclosed("", e, more, i);
        assert "" + e + more == e + more;
      } else {
        CutStringText(s[1..], i - |e|);
        TakePast(e, more, i - |e|);
        var Torn(body, torn) := CutString(s[1..], i - |e|);
        EscapeCons(s[0], body);
        Associates(e, Escape(body), torn);
      }
    }
  }

  lemma JoinCons(s: string, ss: seq<string>)
    ensures Join([s] + ss) == if ss == [] then s else s + "," + Join(ss)
  {
    assert ([s] + ss)[1..] == ss;
  }

  /** The characters before position `i` of a printed list. */
  ghost function Before(ss: seq<string>, n: nat, tail: Tail<nat>): string
    requires n <= |ss|
    requires tail.Inside? ==> n < |ss| && tail.element <= |ss[n]|
  {
    JoinOpen(ss[..n], match tail
                      case Clean => Clean
                      case Comma => Comma
                      case Inside(k) => Inside(ss[n][..k]))
  }

  lemma BeforeCons(s: string, ss: seq<string>, n: nat, tail: Tail<nat>)
    requires n <= |ss|
    requires tail.Comma? ==> n > 0
    requires tail.Inside? ==> n < |ss| && tail.element <= |ss[n]|
    ensures Before([s] + ss, n + 1, if n == 0 && tail.Clean? then Comma else tail)
            == s + "," + Before(ss, n, tail)
  {
    assert ([s] + ss)[..n + 1] == [s] + ss[..n];
    JoinCons(s, ss[..n]);
  }

  lemma BeforeFirst(ss: seq<string>, i: nat)
    requires ss != [] && i <= |ss[0]|
    ensures Before(ss, 0, Inside(i)) == Join(ss)[..i]
    ensures i == |ss[0]| ==> Before(ss, 1, Clean) == Join(ss)[..i]
    ensures Before(ss, 0, Clean) == ""
  {
    assert ss[..0] == [] && ss[..1] == [ss[0]];
    if |ss| > 1 {
      TakeEnclosed("", ss[0], "," + Join(ss[1..]), i);
      assert "" + ss[0] + ("," + Join(ss[1..])) == Join(ss);
    }
  }

  lemma JoinPast(first: string, rest: seq<string>, k: nat)
    requires rest != [] && k <= |Join(rest)|
    ensures Join([first] + rest)[..|first| + 1 + k] == first + "," + Join(rest)[..k]
  {
    JoinCons(first, rest);
    TakePast(first + ",", Join(rest), k);
  }

  lemma {:induction false} LocateText(ss: seq<string>, i: nat)
    requires i <= |Join(ss)|
    ensures Before(ss, Locate(ss, i).count, Locate(ss, i).tail) == Join(ss)[..i]
  {
    if ss != [] && i > 0 {
      if i <= |ss[0]| {
        BeforeFirst(ss, i);
      } else {
        var k := i - |ss[0]| - 1;
        LocateText(ss[1..], k);
        BeforeCons(ss[0], ss[1..], Locate(ss[1..], k).count, Locate(ss[1..], k).tail);
        JoinPast(ss[0], ss[1..], k);
        assert [ss[0]] + ss[1..] == ss;
      }
    }
  }

  lemma {:induction false} CutText(v: Value, i: nat)
    requires 0 < i <= |Print(v)|
    ensures PrintPartial(CutAt(v, i)) == Print(v)[..i]
    decreases v, 2
  {
    if i < |Print(v)| {
      match v
      case Str(s) =>
        CutStringText(s, i - 1);
        TakeEnclosed("\"", Escape(s), "\"", i - 1);
      case Array(items) =>
        CutArrayText(items, i);
      case Object(members) =>
        CutObjectText(members, i);
      case _ =>
    }
  }

  lemma PrintOpenArray(items: seq<Value>, n: nat, tail: Tail<nat>, open: Tail<Partial>)
    requires n <= |items|
    requires match tail
             case Clean => open.Clean?
             case Comma => open.Comma?
             case Inside(k) =>
               && open.Inside? && n < |items| && k <= |Print(items[n])|
               && PrintPartial(open.element) == Print(items[n])[..k]
    ensures PrintPartial(OpenArray(items[..n], open)) == "[" + Before(ItemTexts(items), n, tail)
  {
    assert ItemTexts(items[..n]) == ItemTexts(items)[..n];
  }

  lemma {:induction false} CutArrayBefore(items: seq<Value>, i: nat)
    requires 0 < i < |Print(Array(items))|
    ensures var Spot(n, tail) := Locate(ItemTexts(items), i - 1);
            PrintPartial(CutArray(items, i)) == "[" + Before(ItemTexts(items), n, tail)
    decreases Array(items), 0
  {
    var Spot(n, tail) := Locate(ItemTexts(items), i - 1);
    if tail.Inside? {
      CutText(items[n], tail.element);
    }
    PrintOpenArray(items, n, tail, CutArray(items, i).itemsTail);
  }

  lemma PrintArrayPrefix(items: seq<Value>, i: nat)
    requires 0 < i < |Print(Array(items))|
    ensures var Spot(n, tail) := Locate(ItemTexts(items), i - 1);
            "[" + Before(ItemTexts(items), n, tail) == Print(Array(items))[..i]
  {
    hide Escape, Locate;
    LocateText(ItemTexts(items), i - 1);
    TakeEnclosed("[", Join(ItemTexts(items)), "]", i - 1);
  }

  lemma {:induction false} CutArrayText(items: seq<Value>, i: nat)
    requires 0 < i < |Print(Array(items))|
    ensures PrintPartial(CutArray(items, i)) == Print(Array(items))[..i]
    decreases Array(items), 1
  {
    CutArrayBefore(items, i);
    PrintArrayPrefix(items, i);
  }

  lemma PrintOpenObject(members: seq<Member>, n: nat, tail: Tail<nat>, open: Tail<PartialMember>)
    requires n <= |members|
    requires match tail
             case Clean => open.Clean?
             case Comma => open.Comma?
             case Inside(k) =>
               && open.Inside? && n < |members| && k <= |PrintMember(members[n])|
               && PrintPartialMember(open.element) == PrintMember(members[n])[..k]
    ensures PrintPartial(OpenObject(members[..n], open)) == "{" + Before(MemberTexts(members), n, tail)
  {
    assert MemberTexts(members[..n]) == MemberTexts(members)[..n];
  }

  lemma {:induction false} CutObjectBefore(members: seq<Member>, i: nat)
    requires 0 < i < |Print(Object(members))|
    ensures var Spot(n, tail) := Locate(MemberTexts(members), i - 1);
            PrintPartial(CutObject(members, i)) == "{" + Before(MemberTexts(members), n, tail)
    decreases Object(members), 0
  {
    var Spot(n, tail) := Locate(MemberTexts(members), i - 1);
    if tail.Inside? {
      CutMemberText(members[n], tail.element);
    }
    PrintOpenObject(members, n, tail, CutObject(members, i).membersTail);
  }

  lemma PrintObjectPrefix(members: seq<Member>, i: nat)
    requires 0 < i < |Print(Object(members))|
    ensures var Spot(n, tail) := Locate(MemberTexts(members), i - 1);
            "{" + Before(MemberTexts(members), n, tail) == Print(Object(members))[..i]
  {
    hide Escape, Locate;
    LocateText(MemberTexts(members), i - 1);
    TakeEnclosed("{", Join(MemberTexts(members)), "}", i - 1);
  }

  lemma {:induction false} CutObjectText(members: seq<Member>, i: nat)
    requires 0 < i < |Print(Object(members))|
    ensures PrintPartial(CutObject(members, i)) == Print(Object(members))[..i]
    decreases Object(members), 1
  {
    CutObjectBefore(members, i);
    PrintObjectPrefix(members, i);
  }

  lemma TakeKey(key: string, value: string, n: nat)
    requires n <= |key|
    ensures (key + ":" + value)[..n] == key[..n]
  {
  }

  lemma TakeColon(key: string, value: string)
    ensures (key + ":" + value)[..|key| + 1] == key + ":"
  {
  }

  lemma TakeValue(key: string, value: string, n: nat)
    requires n <= |value|
    ensures (key + ":" + value)[..|key| + 1 + n] == key + ":" + value[..n]
  {
    TakePast(key + ":", value, n);
  }

  lemma CutKeyText(key: string, i: nat)
    requires 0 < i < |PrintString(key)|
    ensures var Torn(body, torn) := CutString(key, i - 1);
            PrintPartialMember(InKey(body, torn)) == PrintString(key)[..i]
  {
    CutStringText(key, i - 1);
    TakeEnclosed("\"", Escape(key), "\"", i - 1);
  }

  lemma CutMemberEarly(m: Member, i: nat)
    requires 0 < i < |PrintMember(m)| && i <= |PrintString(m.key)| + 1
    ensures PrintPartialMember(CutMember(m, i)) == PrintMember(m)[..i]
  {
    var key, value := PrintString(m.key), Print(m.value);
    if i < |key| {
      CutKeyText(m.key, i);
      TakeKey(key, value, i);
    } else if i == |key| {
      TakeKey(key, value, i);
    } else {
      TakeColon(key, value);
    }
  }

  lemma PrintMemberLength(m: Member)
    ensures |PrintMember(m)| == |PrintString(m.key)| + 1 + |Print(m.value)|
  {
  }

  lemma CutMemberLate(m: Member, i: nat)
    requires |PrintString(m.key)| + 1 < i < |PrintMember(m)|
    ensures 0 < i - |PrintString(m.key)| - 1 <= |Print(m.value)|
    ensures CutMember(m, i) == InValue(m.key, CutAt(m.value, i - |PrintString(m.key)| - 1))
  {
  }

  lemma CutValueText(m: Member, i: nat)
    requires |PrintString(m.key)| + 1 < i < |PrintMember(m)|
    requires var k := i - |PrintString(m.key)| - 1; PrintPartial(CutAt(m.value, k)) == Print(m.value)[..k]
    ensures PrintPartialMember(CutMember(m, i)) == PrintMember(m)[..i]
  {
    hide Escape, Join, Locate;
    TakeValue(PrintString(m.key), Print(m.value), i - |PrintString(m.key)| - 1);
  }

  lemma {:induction false} CutMemberText(m: Member, i: nat)
    requires 0 < i < |PrintMember(m)|
    ensures PrintPartialMember(CutMember(m, i)) == PrintMember(m)[..i]
    decreases m.value, 3
  {
    hide Escape, Join, Locate, CutString;
    var n := |PrintString(m.key)|;
    if i <= n + 1 {
      CutMemberEarly(m, i);
    } else {
      CutText(m.value, i - n - 1);
      CutValueText(m, i);
    }
  }
}
