/** The repair of documents, and of their prefixes, with any white space between the tokens. */
module JsonSpaceRepair {
  import opened Wrappers
  import opened Json
  import opened JsonRoundTrip
  import opened JsonScan
  import opened JsonCut
  import opened JsonRepair
  import opened JsonRepairPrefix
  import opened JsonRepairComplete
  import opened JsonRepairTheorems
  import opened JsonSpace

  /** The text is the document with any white space between its tokens, in front of them and behind them. */
  predicate Spreads(u: string, v: Value) {
    IsTight(u) && Bare(u) == Print(v)
  }

  // ---------- Texts in parts ----------

  lemma {:induction false} StripAppend(a: string, b: string, m: Mode)
    ensures Strip(a + b, m) == Strip(a, m) + Strip(b, After(a, m))
    ensures After(a + b, m) == After(b, After(a, m))
    decreases |a|
  {
    hide IsSpace, Go;
    if a == "" {
      assert a + b == b;
    } else {
      var head := if m.Outside? && IsSpace(a[0]) then "" else [a[0]];
      assert (a + b)[1..] == a[1..] + b;
      StripAppend(a[1..], b, Go(m, a[0]));
      Regroup(head, Strip(a[1..], Go(m, a[0])), Strip(b, After(a, m)));
    }
  }

  function GlueBehind(s: string, m: Mode, g: Glue): Glue {
    if s == "" then g else GlueBehind(s[1..], Go(m, s[0]), Behind(g, m, s[0]))
  }

  lemma {:induction false} TightAppend(a: string, b: string, m: Mode, g: Glue)
    ensures Tight(a + b, m, g) <==> Tight(a, m, g) && Tight(b, After(a, m), GlueBehind(a, m, g))
    decreases |a|
  {
    if a == "" {
      assert a + b == b;
    } else {
      assert (a + b)[1..] == a[1..] + b;
      TightAppend(a[1..], b, Go(m, a[0]), Behind(g, m, a[0]));
    }
  }

  /** The text without white space is scanned as the text is. */
  lemma {:induction false} FinalStrip(s: string, st: Scan, m: Mode)
    requires m == (if st.escaped then InEscape else if st.inString then InText else Outside)
    requires st.escaped ==> st.inString
    ensures var end := Final(s, st);
            && Final(Strip(s, m), st) == end && (end.escaped ==> end.inString)
            && After(s, m) == (if end.escaped then InEscape else if end.inString then InText else Outside)
    decreases |s|
  {
    if s != "" {
      FinalStrip(s[1..], Step(st, s[0]), Go(m, s[0]));
      if m.Outside? && IsSpace(s[0]) {
        assert Step(st, s[0]) == st && Strip(s, m) == Strip(s[1..], m);
      } else {
        assert Strip(s, m)[1..] == Strip(s[1..], Go(m, s[0]));
      }
    }
  }

  lemma {:induction false} BareChars(s: string, c: char)
    requires c in Bare(s)
    ensures c in s
  {
    StripChars(s, Outside, c);
  }

  lemma {:induction false} StripChars(s: string, m: Mode, c: char)
    requires c in Strip(s, m)
    ensures c in s
    decreases |s|
  {
    if s != "" {
      if c != s[0] {
        StripChars(s[1..], Go(m, s[0]), c);
      }
    }
  }

  lemma {:induction false} BareOfSpaces(s: string)
    requires Bare(s) == ""
    ensures forall i :: 0 <= i < |s| ==> IsSpace(s[i])
    decreases |s|
  {
    if s != "" {
      BareOfSpaces(s[1..]);
    }
  }

  predicate NoSpace(s: string) {
    forall i :: 0 <= i < |s| ==> !IsSpace(s[i])
  }

  lemma {:induction false} StripNoSpace(s: string, m: Mode)
    requires NoSpace(s)
    ensures Strip(s, m) == s
    decreases |s|
  {
    if s != "" {
      StripNoSpace(s[1..], Go(m, s[0]));
    }
  }

  /** What loses nothing has no white space outside strings, and so nothing to come between words. */
  lemma {:induction false} KeptIsTight(s: string, m: Mode, g: Glue)
    requires Strip(s, m) == s && (!g.Gap? || !m.Outside? || s == "" || !IsWord(s[0]))
    ensures Tight(s, m, g)
    decreases |s|
  {
    if s != "" {
      StripIsShorter(s[1..], Go(m, s[0]));
      KeptIsTight(s[1..], Go(m, s[0]), Behind(g, m, s[0]));
    }
  }

  // ---------- A text that ends inside a string ----------

  /** Where the string that is still open at the end begins. */
  lemma {:induction false} OpenQuote(s: string) returns (k: nat)
    requires !After(s, Outside).Outside?
    ensures k < |s| && s[k] == '"' && After(s[..k], Outside).Outside?
    ensures Strip(s[k..], Outside) == s[k..] && Bare(s) == Bare(s[..k]) + s[k..]
    decreases |s|
  {
    var n := |s| - 1;
    var front, last := s[..n], [s[n]];
    assert s == front + last;
    LastOfStrip(front, s[n]);
    if After(front, Outside).Outside? {
      k := n;
      assert s[k..] == last;
      assert Strip(last, Outside) == last by { OneQuote(s[n]); }
    } else {
      hide Strip, After;
      k := OpenQuote(front);
      assert front[..k] == s[..k] && s[k..] == front[k..] + last;
      StripAppend(s[..k], front[k..], Outside);
      assert s[..k] + front[k..] == front;
      StripAppend(front[k..], last, Outside);
      LastInside(s[n], After(front, Outside));
      Regroup(Bare(s[..k]), front[k..], last);
    }
  }

  lemma LastOfStrip(front: string, c: char)
    ensures Bare(front + [c]) == Bare(front) + Strip([c], After(front, Outside))
    ensures After(front + [c], Outside) == Go(After(front, Outside), c)
  {
    StripAppend(front, [c], Outside);
    assert [c][1..] == "";
  }

  lemma OneQuote(c: char)
    requires !Go(Outside, c).Outside?
    ensures c == '"' && Strip([c], Outside) == [c]
  {
    assert [c][1..] == "";
  }

  lemma LastInside(c: char, m: Mode)
    requires !m.Outside?
    ensures Strip([c], m) == [c]
  {
    assert [c][1..] == "";
  }

  lemma {:induction false} PrefixKept(s: string, m: Mode, k: nat)
    requires Strip(s, m) == s && k <= |s|
    ensures Strip(s[..k], m) == s[..k]
  {
    assert s == s[..k] + s[k..];
    StripAppend(s[..k], s[k..], m);
    StripIsShorter(s[..k], m);
    StripIsShorter(s[k..], After(s[..k], m));
    assert |Strip(s[..k], m)| == k;
    assert s[..k] == (Strip(s[..k], m) + Strip(s[k..], After(s[..k], m)))[..k];
  }

  // ---------- What the repair makes of a text that ends inside a string ----------

  /** What comes behind a settled string: `null` inside it, the quote and the closers. */
  lemma {:induction false} ClosersAreMarks(stack: seq<Bracket>)
    ensures NoSpace(Closers(stack))
    ensures Closers(stack) == "" || !IsWord(Closers(stack)[0])
    decreases |stack|
  {
    if stack != [] {
      ClosersAreMarks(stack[..|stack| - 1]);
    }
  }

  lemma ClosingIsBare(st: Scan)
    ensures NoSpace(Closing(st)) && (Closing(st) == "" || !IsWord(Closing(st)[0]))
  {
    ClosersAreMarks(Unquoted(st).stack);
  }

  lemma NoSpaceAppend(a: string, b: string)
    requires NoSpace(a) && NoSpace(b)
    ensures NoSpace(a + b)
  {
  }

  lemma KeptTail(b: string)
    requires b != "" && b[0] == '"'
    ensures var k := Kept(b); k != "" && k[0] == '"' && |k| <= |b| && k == b[..|k|]
  {
    hide TrimEnd, LacksValue;
    TrimEndAppend("", b);
    var trimmed := TrimEnd(b);
    assert trimmed == b[..|trimmed|];
    assert trimmed[0] == b[0];
    assert DropComma(trimmed) == trimmed[..|DropComma(trimmed)|];
    assert |trimmed| == 1 ==> DropComma(trimmed) == trimmed;
  }

  /** The tail of the text from the open quote on, settled and closed, has no white space outside strings. */
  lemma SettledTail(b: string, close: string)
    requires b != "" && b[0] == '"' && Strip(b, Outside) == b && NoSpace(close)
    ensures var w := Settled(b) + close; w != "" && w[0] == '"' && Strip(w, Outside) == w
  {
    hide Strip, TrimEnd, DropComma, LacksValue, After, Kept, NoSpace;
    var k, filling := Kept(b), if LacksValue(Kept(b)) then "null" else "";
    KeptTail(b);
    PrefixKept(b, Outside, |k|);
    assert NoSpace(filling) by { NullIsBare(); }
    NoSpaceAppend(filling, close);
    TailRegroup(k, filling, close);
    assert Settled(b) == k + filling;
    StripAppend(k, filling + close, Outside);
    StripNoSpace(filling + close, After(k, Outside));
  }

  lemma NullIsBare()
    ensures NoSpace("null") && NoSpace("")
  {
  }

  lemma TailRegroup(k: string, filling: string, close: string)
    ensures k + filling + close == k + (filling + close) && k + "" == k
  {
  }

  lemma InStringCandidate(s: string)
    requires IsTight(s) && !After(s, Outside).Outside?
    ensures IsTight(Candidate(s)) && Bare(Candidate(s)) == Candidate(Bare(s))
  {
    hide Strip, Tight, TrimEnd, DropComma, Final, Closing, After, Fill;
    var k := OpenQuote(s);
    var a, b, st := s[..k], s[k..], Final(s, START);
    assert s == a + b && b[0] == '"';
    FinalStrip(s, START, Outside);
    SettledAppend(a, b);
    SettledAppend(Bare(a), b);
    ClosingIsBare(st);
    var w := Settled(b) + Closing(st);
    SettledTail(b, Closing(st));
    Regroup(a, Settled(b), Closing(st));
    Regroup(Bare(a), Settled(b), Closing(st));
    assert Candidate(s) == a + w && Candidate(Bare(s)) == Bare(a) + w;
    StripAppend(a, w, Outside);
    TightAppend(a, b, Outside, Free);
    TightAppend(a, w, Outside, Free);
    KeptIsTight(w, Outside, GlueBehind(a, Outside, Free));
  }

  // ---------- A text that ends outside strings ----------

  /** The last character of a text that ends outside strings is its last one without the white space, if that is one. */
  lemma {:induction false} WithoutTrailing(s: string) returns (k: nat)
    requires After(s, Outside).Outside? && Bare(s) != ""
    ensures 0 < k <= |s| && Bare(s[..k]) == Bare(s) && After(s[..k], Outside).Outside?
    ensures !IsSpace(s[k - 1]) && s[k - 1] == Bare(s)[|Bare(s)| - 1]
    ensures Bare(s[..k - 1]) == Bare(s)[..|Bare(s)| - 1]
    ensures forall i :: k <= i < |s| ==> IsSpace(s[i])
    decreases |s|
  {
    var n := |s| - 1;
    assert s == s[..n] + s[n..] && s[n..] == [s[n]] && s[n..][1..] == "";
    StripAppend(s[..n], s[n..], Outside);
    var m := After(s[..n], Outside);
    assert After(s, Outside) == Go(m, s[n]);
    if IsSpace(s[n]) {
      assert m.Outside?;
      assert Strip(s[n..], m) == "";
      k := WithoutTrailing(s[..n]);
      assert s[..n][..k] == s[..k] && s[..n][..k - 1] == s[..k - 1];
    } else {
      k := |s|;
      assert s[..k] == s;
      assert Strip(s[n..], m) == [s[n]];
      assert Bare(s) == Bare(s[..n]) + [s[n]];
    }
  }

  /** The text ends in a character of a value, perhaps with a comma behind it, or in a colon. */
  predicate EndsWell(s: string) {
    || EndsSolid(s)
    || (s != "" && s[|s| - 1] == ':')
    || (|s| > 1 && s[|s| - 1] == ',' && EndsSolid(s[..|s| - 1]))
  }

  lemma EndsWellAppend(a: string, b: string)
    requires EndsWell(b)
    ensures EndsWell(a + b)
  {
    assert (a + b)[..|a + b| - 1] == a + b[..|b| - 1];
  }

  lemma {:induction false} PartialEnds(p: Partial)
    requires Sound(p) && !InsideString(p)
    ensures EndsWell(PrintPartial(p))
    decreases p, 1
  {
    hide EndsWell, JoinOpen, Escape;
    match p
    case Whole(v) =>
      PrintSolid(v);
      SolidEndsWell(Print(v));
    case TornScalar(text, whole) =>
      TornScalarChars(text, whole);
      SolidEndsWell(text);
    case OpenArray(items, tail) => ArrayEnds(items, tail);
    case OpenObject(members, tail) => ObjectEnds(members, tail);
    case _ =>
  }

  lemma SolidEndsWell(s: string)
    requires EndsSolid(s)
    ensures EndsWell(s)
  {
  }

  lemma {:induction false} ArrayEnds(items: seq<Value>, tail: Tail<Partial>)
    requires Sound(OpenArray(items, tail)) && !InsideString(OpenArray(items, tail))
    ensures EndsWell(PrintPartial(OpenArray(items, tail)))
    decreases OpenArray(items, tail), 0
  {
    hide EndsWell, Join, JoinOpen, Print;
    var ss := ItemTexts(items);
    ItemTextsSolid(items);
    if tail.Inside? {
      PartialEnds(tail.element);
      JoinOpenAfter("[", ss, PrintPartial(tail.element));
      EndsWellAppend("[" + if ss == [] then "" else Join(ss) + ",", PrintPartial(tail.element));
    } else {
      BetweenEnds("[", ss, ItemsOpen(tail));
    }
  }

  lemma {:induction false} ObjectEnds(members: seq<Member>, tail: Tail<PartialMember>)
    requires Sound(OpenObject(members, tail)) && !InsideString(OpenObject(members, tail))
    ensures EndsWell(PrintPartial(OpenObject(members, tail)))
    decreases OpenObject(members, tail), 0
  {
    hide EndsWell, Join, JoinOpen, PrintMember;
    var ss := MemberTexts(members);
    MemberTextsSolid(members);
    if tail.Inside? {
      PartialMemberEnds(tail.element);
      JoinOpenAfter("{", ss, PrintPartialMember(tail.element));
      EndsWellAppend("{" + if ss == [] then "" else Join(ss) + ",", PrintPartialMember(tail.element));
    } else {
      BetweenEnds("{", ss, MembersOpen(tail));
    }
  }

  lemma {:induction false} PartialMemberEnds(m: PartialMember)
    requires SoundMember(m) && !MemberInsideString(m)
    ensures EndsWell(PrintPartialMember(m))
    decreases m, 1
  {
    hide Escape;
    if m.InValue? {
      PartialEnds(m.value);
      EndsWellAppend(PrintString(m.key) + ":", PrintPartial(m.value));
    }
  }

  lemma BetweenEnds(open: string, ss: seq<string>, tail: Tail<string>)
    requires EndsSolid(open) && forall i :: 0 <= i < |ss| ==> EndsSolid(ss[i])
    requires tail.Clean? || (tail.Comma? && ss != [])
    ensures EndsWell(open + JoinOpen(ss, tail))
  {
    if ss != [] {
      JoinSolid(ss);
    }
    AppendSolid(open, Join(ss));
    if tail.Comma? {
      CommaLast(open, Join(ss));
      assert (open + Join(ss) + ",")[..|open + Join(ss)|] == open + Join(ss);
    }
  }

  lemma BareSnoc(x: string, c: char)
    ensures Bare(x + [c]) == Bare(x) + if After(x, Outside).Outside? && IsSpace(c) then "" else [c]
    ensures After(x + [c], Outside) == Go(After(x, Outside), c)
    ensures GlueBehind(x + [c], Outside, Free) == Behind(GlueBehind(x, Outside, Free), After(x, Outside), c)
  {
    StripAppend(x, [c], Outside);
    GlueAppend(x, [c], Outside, Free);
    assert [c][1..] == "";
  }

  lemma {:induction false} GlueAppend(a: string, b: string, m: Mode, g: Glue)
    ensures GlueBehind(a + b, m, g) == GlueBehind(b, After(a, m), GlueBehind(a, m, g))
    decreases |a|
  {
    if a == "" {
      assert a + b == b;
    } else {
      assert (a + b)[1..] == a[1..] + b;
      GlueAppend(a[1..], b, Go(m, a[0]), Behind(g, m, a[0]));
    }
  }

  /** A text outside strings lacks a value no more than it does without its white space. */
  lemma LacksNothing(x: string)
    requires After(x, Outside).Outside? && EndsSolid(Bare(x))
    ensures !LacksValue(x)
  {
    hide Strip, After, GlueBehind;
    if EndsWith(x, ':') {
      assert x == x[..|x| - 1] + [':'];
      BareSnoc(x[..|x| - 1], ':');
    } else if EndsWith(x, ' ') && EndsWith(x[..|x| - 1], ':') {
      var y := x[..|x| - 1];
      assert x == y + [' '] && y == y[..|y| - 1] + [':'];
      BareSnoc(y, ' ');
      BareSnoc(y[..|y| - 1], ':');
    }
  }

  /** The settled text is a prefix of the text and perhaps `null`, and so it is without the white space. */
  lemma SettledOutside(s: string) returns (n: nat, filling: string)
    requires After(s, Outside).Outside? && Bare(s) != "" && EndsWell(Bare(s))
    ensures n <= |s| && Settled(s) == s[..n] + filling && Settled(Bare(s)) == Bare(s[..n]) + filling
    ensures After(s[..n], Outside).Outside?
    ensures filling == "" || (filling == "null" && GlueBehind(s[..n], Outside, Free).Free?)
  {
    hide Strip, After, TrimEnd, GlueBehind;
    var k := WithoutTrailing(s);
    var c := Bare(s);
    TrimEndAt(s, k - 1);
    TrimEndAt(c, |c| - 1);
    assert c[..|c|] == c;
    assert s[..k] == s[..k - 1] + [s[k - 1]];
    BareSnoc(s[..k - 1], s[k - 1]);
    if s[k - 1] == ',' {
      n, filling := k - 1, "";
      LacksNothing(s[..n]);
      assert Kept(s) == s[..n] && Kept(c) == Bare(s[..n]);
      TailRegroup(s[..n], "", "");
      TailRegroup(Bare(s[..n]), "", "");
    } else {
      n, filling := k, if s[k - 1] == ':' then "null" else "";
      assert Kept(s) == s[..n] && Kept(c) == c;
      TailRegroup(s[..n], "", "");
      TailRegroup(c, "", "");
    }
  }

  lemma OutsideCandidate(s: string)
    requires IsTight(s) && After(s, Outside).Outside? && Bare(s) != "" && EndsWell(Bare(s))
    ensures IsTight(Candidate(s)) && Bare(Candidate(s)) == Candidate(Bare(s))
  {
    hide Strip, Tight, TrimEnd, DropComma, Final, Closing, After, Fill, EndsWell, GlueBehind;
    var n, filling := SettledOutside(s);
    var x, close := s[..n], Closing(Final(s, START));
    FinalStrip(s, START, Outside);
    ClosingIsBare(Final(s, START));
    NullIsBare();
    NoSpaceAppend(filling, close);
    var w := filling + close;
    TailRegroup(x, filling, close);
    TailRegroup(Bare(x), filling, close);
    assert Candidate(s) == x + w && Candidate(Bare(s)) == Bare(x) + w;
    StripAppend(x, w, Outside);
    StripNoSpace(w, Outside);
    assert s == x + s[n..];
    TightAppend(x, s[n..], Outside, Free);
    TightAppend(x, w, Outside, Free);
    assert filling == "" ==> w == close;
    KeptIsTight(w, Outside, GlueBehind(x, Outside, Free));
  }

  // ---------- The repair ----------

  lemma CandidateOfSpread(s: string, p: Partial)
    requires IsTight(s) && Sound(p) && Bare(s) == PrintPartial(p)
    ensures IsTight(Candidate(s)) && Bare(Candidate(s)) == Candidate(Bare(s))
  {
    hide Tight, Strip, After, Candidate, PrintPartial;
    FinalStrip(s, START, Outside);
    ScanFromStart(p);
    if After(s, Outside).Outside? {
      PartialEnds(p);
      EndsWellIsText(Bare(s));
      OutsideCandidate(s);
    } else {
      InStringCandidate(s);
    }
  }

  lemma EndsWellIsText(s: string)
    requires EndsWell(s)
    ensures s != ""
  {
  }

  lemma SpreadIsNotBlank(s: string, p: Partial)
    requires Sound(p) && Bare(s) == PrintPartial(p)
    ensures !Blank(s)
  {
    hide Strip, PrintPartial;
    PrefixIsNotBlank(p);
    var i :| 0 <= i < |PrintPartial(p)| && !IsUnicodeWs(PrintPartial(p)[i]);
    var c := PrintPartial(p)[i];
    assert c in Bare(s);
    BareChars(s, c);
  }

  /** The repair of a spread prefix is that of the bare one, with the white space that was there. */
  lemma RepairOfSpread(s: string, p: Partial)
    requires IsTight(s) && Sound(p) && Bare(s) == PrintPartial(p)
    ensures var r, bare := Repair(s), Repair(PrintPartial(p));
            && r.value == bare.value && r.changed == bare.changed && Bare(r.text) == bare.text
            && (!r.changed ==> r.text == s) && IsTight(r.text)
  {
    hide Strip, Tight, Candidate, Blank, Parse, PrintPartial;
    PrefixIsNotBlank(p);
    SpreadIsNotBlank(s, p);
    CandidateOfSpread(s, p);
    SpaceIsIrrelevant(s);
    SpaceIsIrrelevant(Candidate(s));
    assert Bare("{}") == "{}" && IsTight("{}") by { EmptyIsBare(); }
  }

  lemma EmptyIsBare()
    ensures Bare("{}") == "{}" && IsTight("{}")
  {
    StripNoSpace("{}", Outside);
    KeptIsTight("{}", Outside, Free);
  }

  /** A document, however it is spread, reads as the document, and the repair leaves it alone, up to 127 levels. */
  lemma SpreadReads(v: Value, u: string)
    requires Printable(v) && Spreads(u, v)
    ensures Parse(u) == if Shallow(v) then Some(v) else None
    ensures Repair(u) == if Shallow(v) then Repaired(u, false, v) else FALLBACK
  {
    hide Strip, Tight, Print, Shallow;
    SpaceIsIrrelevant(u);
    ParsePrint(v);
    RepairOfSpread(u, Whole(v));
    RepairOfPartial(Whole(v));
    assert PrintPartial(Whole(v)) == Print(v);
    if Shallow(v) {
      SpreadIsNotBlank(u, Whole(v));
    } else {
      DeepFallsBack(u, v);
    }
  }

  lemma DeepFallsBack(u: string, v: Value)
    requires Printable(v) && Spreads(u, v) && !Shallow(v)
    ensures Repair(u) == FALLBACK
  {
    hide Strip, Tight, Print, Shallow, Candidate;
    SpaceIsIrrelevant(u);
    ParsePrint(v);
    CandidateOfSpread(u, Whole(v));
    SpaceIsIrrelevant(Candidate(u));
    CandidateIsMended(Whole(v));
    MendedIsPrint(Whole(v));
    assert PrintPartial(Whole(v)) == Print(v);
  }

  lemma SpreadPrefix(v: Value, u: string, i: nat)
    requires Spreads(u, v) && i <= |u|
    ensures IsTight(u[..i]) && |Bare(u[..i])| <= |Print(v)| && Bare(u[..i]) == Print(v)[..|Bare(u[..i])|]
  {
    hide Strip, Tight, Print;
    assert u == u[..i] + u[i..];
    StripAppend(u[..i], u[i..], Outside);
    TightAppend(u[..i], u[i..], Outside, Free);
  }

  /** White space alone is blank. */
  lemma SpacesFallBack(s: string)
    requires Bare(s) == ""
    ensures Repair(s) == FALLBACK
  {
    BareOfSpaces(s);
  }

  /**
   * For every document, spread in any way, and every prefix of its text: what is repaired is the document cut where the
   * prefix without its white space ends. If that can be read back, the repaired text, without its white space, is the
   * print of the closed document, and reads as it; every other prefix falls back to the empty object.
   */
  lemma RepairOfSpreadPrefix(v: Value, u: string, i: nat)
    requires Printable(v) && Spreads(u, v) && i <= |u|
    ensures var s := u[..i];
            var j := |Bare(s)|;
            && j <= |Print(v)| && Bare(s) == Print(v)[..j]
            && (j == 0 ==> Repair(s) == FALLBACK)
            && (j > 0 ==>
                  var p, r := CutAt(v, j), Repair(s);
                  if Readable(p) then
                    && r.value == Closed(p) && r.changed == (Stack(p) != []) && (!r.changed ==> r.text == s)
                    && Bare(r.text) == Print(Closed(p)) && Parse(r.text) == Some(Closed(p))
                  else r.value == Object([]) && r.changed && Bare(r.text) == "{}")
  {
    hide Strip, Tight, Print, Readable, Repair, CutAt, Closed, Stack, PrintPartial;
    var s := u[..i];
    var j := |Bare(s)|;
    SpreadPrefix(v, u, i);
    if j == 0 {
      SpacesFallBack(s);
    } else {
      var p := CutAt(v, j);
      CutSound(v, j);
      CutText(v, j);
      RepairOfSpread(s, p);
      RepairOfPrefix(v, j);
      SpaceIsIrrelevant(Repair(s).text);
    }
  }

  // ---------- Compact prints, and more and more white space ----------

  /** The text has no white space outside strings, and leaves no string open. */
  predicate Keeps(s: string) {
    Strip(s, Outside) == s && After(s, Outside).Outside?
  }

  lemma KeepsAppend(a: string, b: string)
    requires Keeps(a) && Keeps(b)
    ensures Keeps(a + b)
  {
    StripAppend(a, b, Outside);
  }

  lemma {:induction false} PlainKeeps(s: string)
    requires NoSpace(s) && forall i :: 0 <= i < |s| ==> s[i] != '"'
    ensures Keeps(s)
    decreases |s|
  {
    StripNoSpace(s, Outside);
    if s != "" {
      PlainKeeps(s[1..]);
    }
  }

  lemma EscapeCharKeeps(c: char)
    ensures Strip(EscapeChar(c), InText) == EscapeChar(c) && After(EscapeChar(c), InText) == InText
  {
    var e := EscapeChar(c);
    if e[0] == '\\' {
      assert e == ['\\', e[1]] + e[2..];
      assert ['\\', e[1]][1..] == [e[1]] && [e[1]][1..] == "";
      StripAppend(['\\', e[1]], e[2..], InText);
      assert StaysInside(e[2..]);
      StayKeeps(e[2..]);
    } else {
      assert e[1..] == "";
    }
  }

  lemma {:induction false} StayKeeps(s: string)
    requires StaysInside(s)
    ensures Strip(s, InText) == s && After(s, InText) == InText
    decreases |s|
  {
    if s != "" {
      StayKeeps(s[1..]);
    }
  }

  lemma {:induction false} EscapeKeeps(s: string)
    ensures Strip(Escape(s), InText) == Escape(s) && After(Escape(s), InText) == InText
    decreases |s|
  {
    if s != "" {
      EscapeCharKeeps(s[0]);
      EscapeKeeps(s[1..]);
      StripAppend(EscapeChar(s[0]), Escape(s[1..]), InText);
    }
  }

  lemma StringKeeps(s: string)
    ensures Keeps(PrintString(s))
  {
    hide Escape;
    EscapeKeeps(s);
    assert "\""[1..] == "";
    StripAppend("\"", Escape(s), Outside);
    StripAppend("\"" + Escape(s), "\"", Outside);
  }

  lemma {:induction false} JoinKeeps(ss: seq<string>)
    requires forall i :: 0 <= i < |ss| ==> Keeps(ss[i])
    ensures Keeps(Join(ss))
    decreases |ss|
  {
    hide Keeps;
    PlainKeeps("");
    PlainKeeps(",");
    if |ss| > 1 {
      JoinKeeps(ss[1..]);
      KeepsAppend(ss[0], ",");
      KeepsAppend(ss[0] + ",", Join(ss[1..]));
    }
  }

  lemma EnclosedKeeps(open: string, body: string, close: string)
    requires Keeps(open) && Keeps(body) && Keeps(close)
    ensures Keeps(open + body + close)
  {
    KeepsAppend(open, body);
    KeepsAppend(open + body, close);
  }

  lemma NumberKeeps(lexeme: string)
    requires IsNumber(lexeme)
    ensures Keeps(lexeme)
  {
    NumberChars(lexeme, NumberStart);
    PlainKeeps(lexeme);
  }

  lemma {:induction false} PrintKeeps(v: Value)
    requires Printable(v)
    ensures Keeps(Print(v))
    decreases v
  {
    hide Keeps, Join;
    match v
    case Null => PlainKeeps("null");
    case Bool(b) => PlainKeeps(if b then "true" else "false");
    case Number(lexeme) => NumberKeeps(lexeme);
    case Str(s) => StringKeeps(s);
    case Array(items) =>
      forall i | 0 <= i < |items| ensures Keeps(ItemTexts(items)[i]) {
        PrintKeeps(items[i]);
      }
      JoinKeeps(ItemTexts(items));
      PlainKeeps("[");
      PlainKeeps("]");
      EnclosedKeeps("[", Join(ItemTexts(items)), "]");
    case Object(members) =>
      forall i | 0 <= i < |members| ensures Keeps(MemberTexts(members)[i]) {
        PrintKeeps(members[i].value);
        StringKeeps(members[i].key);
        PlainKeeps(":");
        EnclosedKeeps(PrintString(members[i].key), ":", Print(members[i].value));
      }
      JoinKeeps(MemberTexts(members));
      PlainKeeps("{");
      PlainKeeps("}");
      EnclosedKeeps("{", Join(MemberTexts(members)), "}");
  }

  /** The compact print is one way to spread a document. */
  lemma PrintIsSpread(v: Value)
    requires Printable(v)
    ensures Spreads(Print(v), v)
  {
    PrintKeeps(v);
    KeptIsTight(Print(v), Outside, Free);
  }

  /** And so is every text with white space added anywhere but in strings and between two characters of a word. */
  lemma MoreSpace(v: Value, a: string, c: char, b: string)
    requires Spreads(a + b, v) && IsSpace(c) && After(a, Outside).Outside?
    requires GlueBehind(a, Outside, Free).Word? ==> Bare(b) == "" || !IsWord(Bare(b)[0])
    ensures Spreads(a + ([c] + b), v)
  {
    hide Strip, Tight, After, GlueBehind, Print;
    StripAppend(a, b, Outside);
    StripAppend(a, [c] + b, Outside);
    TightAppend(a, b, Outside, Free);
    TightAppend(a, [c] + b, Outside, Free);
    SpaceAdded(c, b, GlueBehind(a, Outside, Free));
  }

  lemma SpaceAdded(c: char, b: string, g: Glue)
    requires IsSpace(c) && Tight(b, Outside, g) && (g.Word? ==> Bare(b) == "" || !IsWord(Bare(b)[0]))
    ensures Bare([c] + b) == Bare(b) && Tight([c] + b, Outside, g)
  {
    assert ([c] + b)[1..] == b;
    if g.Word? {
      WordThenSpace(b);
    }
  }

  lemma {:induction false} WordThenSpace(b: string)
    requires Tight(b, Outside, Word) && (Bare(b) == "" || !IsWord(Bare(b)[0]))
    ensures Tight(b, Outside, Gap)
  {
    if b != "" && !IsSpace(b[0]) {
      BareHead(b, Word);
    }
  }
}
