/** Which cuts can be closed, by the place in the document where they fall; and cuts that fall back. */
module JsonRepairPlaces {
  import opened Wrappers
  import opened Json
  import opened JsonCut
  import opened JsonRepair
  import opened JsonRepairPrefix
  import opened JsonRepairTheorems

  /** A cut `m` characters into element `k` of a list. */
  lemma {:induction false} LocateElement(ss: seq<string>, k: nat, m: nat)
    requires k < |ss| && 0 < m <= |ss[k]|
    ensures StartOf(ss, k) + m <= |Join(ss)|
    ensures Locate(ss, StartOf(ss, k) + m) == if m < |ss[k]| then Spot(k, Inside(m)) else Spot(k + 1, Clean)
  {
    StartOfFits(ss, k);
    if k > 0 {
      LocateElement(ss[1..], k - 1, m);
    }
  }

  lemma CutInItem(items: seq<Value>, k: nat, m: nat)
    requires k < |items| && 0 < m <= |Print(items[k])|
    ensures var i := 1 + StartOf(ItemTexts(items), k) + m;
            i < |Print(Array(items))| && (Closable(CutAt(Array(items), i)) <==> Closable(CutAt(items[k], m)))
  {
    hide Join, Locate, StartOf, Escape;
    assert ItemTexts(items)[k] == Print(items[k]);
    LocateElement(ItemTexts(items), k, m);
  }

  /** Behind the colon a member is cut inside its value. */
  lemma CutBehindColon(m: Member, n: nat)
    requires 0 < n < |Print(m.value)|
    ensures |PrintMember(m)| == KeyLength(m) + |Print(m.value)|
    ensures CutMember(m, KeyLength(m) + n) == InValue(m.key, CutAt(m.value, n))
  {
    hide Escape;
  }

  lemma CutInMember(members: seq<Member>, k: nat, m: nat)
    requires k < |members| && 0 < m <= |Print(members[k].value)|
    ensures var i := 1 + StartOf(MemberTexts(members), k) + KeyLength(members[k]) + m;
            i < |Print(Object(members))|
            && (Closable(CutAt(Object(members), i)) <==> Closable(CutAt(members[k].value, m)))
  {
    hide Join, Locate, StartOf, PrintString, CutMember;
    MemberLength(members, k);
    LocateElement(MemberTexts(members), k, KeyLength(members[k]) + m);
    if m < |Print(members[k].value)| {
      CutBehindColon(members[k], m);
    }
  }

  /** Whether a cut inside a value can be closed depends on that value alone, however deep it lies. */
  lemma {:induction false} CutBelow(v: Value, path: seq<Hop>, j: nat)
    requires At(v, path).Some? && 0 < j <= |Print(At(v, path).value)|
    ensures var u := At(v, path).value;
            var i := EndOf(v, path) - |Print(u)| + j;
            0 < i <= |Print(v)| && (Closable(CutAt(v, i)) <==> Closable(CutAt(u, j)))
    decreases |path|
  {
    hide CutAt, Closable, Print, StartOf, ItemTexts, MemberTexts, KeyLength, Lookup, IndexOf;
    if path != [] {
      match v
      case Array(items) =>
        var k := path[0].index;
        CutBelow(items[k], path[1..], j);
        CutInItem(items, k, EndOf(items[k], path[1..]) - |Print(At(v, path).value)| + j);
      case Object(members) =>
        var k := IndexOf(members, path[0].key);
        CutBelow(members[k].value, path[1..], j);
        CutInMember(members, k, EndOf(members[k].value, path[1..]) - |Print(At(v, path).value)| + j);
    }
  }

  /** A cut right behind any value can be closed. */
  lemma CutBehindValue(v: Value, path: seq<Hop>)
    requires Printable(v) && At(v, path).Some?
    ensures 0 < EndOf(v, path) <= |Print(v)| && Closable(CutAt(v, EndOf(v, path)))
  {
    EndOfPositive(v, path);
    EndOfFits(v, path);
    PrintedNotEmpty(v, path);
    CutBelow(v, path, |Print(At(v, path).value)|);
  }

  lemma {:induction false} PrintedNotEmpty(v: Value, path: seq<Hop>)
    requires Printable(v) && At(v, path).Some?
    ensures Print(At(v, path).value) != ""
    decreases |path|
  {
    if path == [] {
      EndOfPositive(v, []);
    } else {
      match v
      case Array(items) => PrintedNotEmpty(items[path[0].index], path[1..]);
      case Object(members) => PrintedNotEmpty(members[IndexOf(members, path[0].key)].value, path[1..]);
    }
  }

  /** So many characters of the escaped text end between the characters of the string. */
  predicate BetweenEscapes(s: string, n: nat) {
    exists k :: 0 <= k <= |s| && n == |Escape(s[..k])|
  }

  lemma {:induction false} TornBetween(s: string, n: nat)
    requires n <= |Escape(s)|
    ensures CutString(s, n).torn == "" <==> BetweenEscapes(s, n)
  {
    if s == "" || n == 0 {
      assert s[..0] == "" && n == |Escape(s[..0])|;
    } else {
      var e, rest := EscapeChar(s[0]), s[1..];
      forall k | 0 < k <= |s| ensures |Escape(s[..k])| == |e| + |Escape(rest[..k - 1])| {
        assert s[..k][1..] == rest[..k - 1];
      }
      if n < |e| {
        assert e[..n] != "";
      } else {
        TornBetween(rest, n - |e|);
        if BetweenEscapes(rest, n - |e|) {
          var k :| 0 <= k <= |rest| && n - |e| == |Escape(rest[..k])|;
          assert n == |Escape(s[..k + 1])|;
        }
      }
    }
  }

  lemma CutOfString(s: string, n: nat)
    requires n <= |Escape(s)|
    ensures |Print(Str(s))| == |Escape(s)| + 2
    ensures Closable(CutAt(Str(s), 1 + n)) <==> BetweenEscapes(s, n)
  {
    hide Escape, CutString;
    TornBetween(s, n);
  }

  /** A cut inside a string value, behind its opening quote, can be closed unless it falls inside an escape. */
  lemma CutInString(v: Value, path: seq<Hop>, s: string, n: nat)
    requires At(v, path) == Some(Str(s)) && n <= |Escape(s)|
    ensures var i := EndOf(v, path) - |Print(Str(s))| + 1 + n;
            0 < i <= |Print(v)| && (Closable(CutAt(v, i)) <==> BetweenEscapes(s, n))
  {
    hide CutAt, Closable, EndOf, At, Escape;
    CutOfString(s, n);
    CutBelow(v, path, 1 + n);
  }

  /** A cut inside a number can be closed when what is left is a number. */
  lemma CutInNumber(v: Value, path: seq<Hop>, lexeme: string, j: nat)
    requires At(v, path) == Some(Number(lexeme)) && 0 < j < |lexeme|
    ensures var i := EndOf(v, path) - |lexeme| + j;
            0 < i <= |Print(v)| && (Closable(CutAt(v, i)) <==> IsNumber(lexeme[..j]))
  {
    CutBelow(v, path, j);
  }

  /** A cut inside a literal cannot be closed. */
  lemma CutInLiteral(v: Value, path: seq<Hop>, j: nat)
    requires At(v, path).Some? && (At(v, path).value.Null? || At(v, path).value.Bool?)
    requires 0 < j < |Print(At(v, path).value)|
    ensures var i := EndOf(v, path) - |Print(At(v, path).value)| + j;
            0 < i <= |Print(v)| && !Closable(CutAt(v, i))
  {
    CutBelow(v, path, j);
  }

  /**
   * What becomes of a string that is cut: its trailing spaces go, then a comma there, and a colon that is then at the
   * end, perhaps with one space behind it, gets `null`.
   */
  lemma SettleMeans(core: string, spaces: string)
    requires core == "" || core[|core| - 1] != ' '
    requires forall i :: 0 <= i < |spaces| ==> spaces[i] == ' '
    ensures var n := |core|;
            var k := if n > 0 && core[n - 1] == ',' then core[..n - 1] else core;
            var m := |k|;
            Settle(core + spaces)
            == if (m > 0 && k[m - 1] == ':') || (m > 1 && k[m - 1] == ' ' && k[m - 2] == ':') then k + "null" else k
  {
    SpacesTrimmed(core, spaces);
  }

  lemma {:induction false} SpacesTrimmed(core: string, spaces: string)
    requires core == "" || core[|core| - 1] != ' '
    requires forall i :: 0 <= i < |spaces| ==> spaces[i] == ' '
    ensures TrimSpaces(core + spaces) == core
    decreases |spaces|
  {
    if spaces == "" {
      assert core + spaces == core;
    } else {
      var n := |spaces| - 1;
      assert (core + spaces)[..|core + spaces| - 1] == core + spaces[..n];
      SpacesTrimmed(core, spaces[..n]);
    }
  }

  /** Space, tab, line feed, form feed and carriage return. */
  predicate IsTrailing(c: char) {
    var n := c as int;
    n == 0x20 || n == 0x09 || n == 0x0A || n == 0x0C || n == 0x0D
  }

  /** White space at the end of a text is not kept. */
  lemma {:induction false} TrailingSpaceGoes(s: string, spaces: string)
    requires forall i :: 0 <= i < |spaces| ==> IsTrailing(spaces[i])
    ensures Kept(s + spaces) == Kept(s)
    decreases |spaces|
  {
    if spaces == "" {
      assert s + spaces == s;
    } else {
      var n := |spaces| - 1;
      assert (s + spaces)[..|s + spaces| - 1] == s + spaces[..n];
      TrailingSpaceGoes(s, spaces[..n]);
    }
  }

  // ---------- Cuts that fall back ----------

  const ONE_MEMBER: Value := Object([Member("a", Number("1"))])

  lemma OneMemberText()
    ensures Printable(ONE_MEMBER) && MemberTexts(ONE_MEMBER.members) == ["\"a\":1"]
    ensures Print(ONE_MEMBER) == "{\"a\":1}" && |PrintString("a")| == 3
  {
    OneIsNumber();
    assert Escape("a") == EscapeChar('a') + Escape("") == "a";
    assert PrintString("a") == "\"a\"";
    assert PrintMember(Member("a", Number("1"))) == "\"a\":1";
    assert MemberTexts(ONE_MEMBER.members) == ["\"a\":1"];
    assert Join(["\"a\":1"]) == "\"a\":1";
  }

  lemma OneIsNumber()
    ensures IsNumber("1")
  {
    assert "1"[1..] == "" && NextNumber(NumberStart, '1') == Some(InInteger);
    assert SkipNumber("", InInteger) == Some("");
  }

  lemma CutInKey(i: nat)
    requires 2 <= i <= 4
    ensures i < |Print(ONE_MEMBER)| && !Closable(CutAt(ONE_MEMBER, i))
  {
    hide Print, Locate, Escape, CutString;
    OneMemberText();
    LocateElement(["\"a\":1"], 0, i - 1);
    assert StartOf(["\"a\":1"], 0) == 0;
    assert !ClosableMember(CutMember(Member("a", Number("1")), i - 1));
  }

  /** The text {"a":1}, cut inside its key or right behind it, loses everything. */
  lemma CutInKeyFallsBack(i: nat)
    requires 2 <= i <= 4
    ensures Printable(ONE_MEMBER) && Print(ONE_MEMBER) == "{\"a\":1}"
    ensures Repair(Print(ONE_MEMBER)[..i]) == FALLBACK && !Closable(CutAt(ONE_MEMBER, i))
  {
    hide Print, CutAt, Closable, Repair, Printable;
    OneMemberText();
    CutInKey(i);
    RepairOfPrefix(ONE_MEMBER, i);
  }
}
