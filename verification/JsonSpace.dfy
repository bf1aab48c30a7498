/**
 * White space between the tokens of a JSON text makes no difference: the parser reads a text as it reads the text
 * without that white space, as long as none of it stands inside a number or a literal.
 */
module JsonSpace {
  import opened Wrappers
  import opened Json

  /** Space, tab, line feed and carriage return: section 2 of RFC 8259. */
  predicate IsSpace(c: char) {
    var n := c as int;
    n == 0x20 || n == 0x09 || n == 0x0A || n == 0x0D
  }

  // ---------- A text without its white space ----------

  datatype Mode = Outside | InText | InEscape

  /** Where the reader is, relative to strings, behind one more character. */
  function Go(m: Mode, c: char): Mode {
    match m
    case Outside => if c == '"' then InText else Outside
    case InText => if c == '\\' then InEscape else if c == '"' then Outside else InText
    case InEscape => InText
  }

  function After(s: string, m: Mode): Mode {
    if s == "" then m else After(s[1..], Go(m, s[0]))
  }

  /** The text without the white space outside strings. */
  function Strip(s: string, m: Mode): string {
    if s == "" then ""
    else (if m.Outside? && IsSpace(s[0]) then "" else [s[0]]) + Strip(s[1..], Go(m, s[0]))
  }

  function Bare(s: string): string {
    Strip(s, Outside)
  }

  /** A character of a number or a literal, or one that no JSON text has outside strings. */
  predicate IsWord(c: char) {
    !IsSpace(c) && c != '"' && c != '{' && c != '}' && c != '[' && c != ']' && c != ',' && c != ':'
  }

  /** Whether a word has just been read, perhaps with white space behind it. */
  datatype Glue = Free | Word | Gap

  function Behind(g: Glue, m: Mode, c: char): Glue {
    if !m.Outside? then Free
    else if IsSpace(c) then if g.Free? then Free else Gap
    else if IsWord(c) then Word
    else Free
  }

  /** No white space separates two characters of words. */
  predicate Tight(s: string, m: Mode, g: Glue) {
    s == "" || (!(g.Gap? && m.Outside? && IsWord(s[0])) && Tight(s[1..], Go(m, s[0]), Behind(g, m, s[0])))
  }

  predicate IsTight(s: string) {
    Tight(s, Outside, Free)
  }

  lemma BareHead(s: string, g: Glue)
    requires s != "" && !IsSpace(s[0])
    ensures Bare(s) == [s[0]] + Strip(s[1..], Go(Outside, s[0]))
    ensures Bare(s)[0] == s[0] && Bare(s)[1..] == Strip(s[1..], Go(Outside, s[0]))
    ensures Tight(s, Outside, g) ==> Tight(s[1..], Go(Outside, s[0]), if IsWord(s[0]) then Word else Free)
  {
  }

  lemma {:induction false} TightIsTight(s: string, m: Mode, g: Glue)
    requires Tight(s, m, g)
    ensures Tight(s, m, Free)
    ensures g.Gap? ==> Tight(s, m, Word)
  {
    if s != "" {
      TightIsTight(s[1..], Go(m, s[0]), Behind(g, m, s[0]));
    }
  }

  /** Bare text starts with no white space, and skipping white space changes nothing about it. */
  lemma {:induction false} BareSkips(s: string, g: Glue)
    ensures Bare(SkipWs(s)) == Bare(s) == SkipWs(Bare(s))
    ensures SkipWs(s) == "" <==> Bare(s) == ""
    ensures SkipWs(s) != "" ==> !IsSpace(SkipWs(s)[0])
    ensures Tight(s, Outside, g) ==> IsTight(SkipWs(s))
  {
    if s != "" && IsSpace(s[0]) {
      BareSkips(s[1..], Behind(g, Outside, s[0]));
    } else {
      if s != "" {
        BareHead(s, g);
      }
      if Tight(s, Outside, g) {
        TightIsTight(s, Outside, g);
      }
    }
  }

  /** The text behind a gap goes on with no word. */
  lemma {:induction false} BehindGap(s: string)
    requires Tight(s, Outside, Gap)
    ensures Bare(s) == "" || !IsWord(Bare(s)[0])
  {
    if s != "" && IsSpace(s[0]) {
      BehindGap(s[1..]);
    } else if s != "" {
      BareHead(s, Gap);
    }
  }

  // ---------- Tokens ----------

  predicate AreWords(w: string) {
    forall i :: 0 <= i < |w| ==> IsWord(w[i])
  }

  lemma {:induction false} WordReads(s: string, w: string)
    requires AreWords(w) && Tight(s, Outside, Word)
    ensures w <= s <==> w <= Bare(s)
    ensures w <= s ==> Bare(s)[|w|..] == Bare(s[|w|..]) && Tight(s[|w|..], Outside, Word)
    decreases |w|
  {
    if w != "" && s != "" {
      if IsSpace(s[0]) {
        BehindGap(s[1..]);
        assert Bare(s) == Bare(s[1..]);
      } else {
        BareHead(s, Word);
        if s[0] == w[0] {
          WordReads(s[1..], w[1..]);
          assert w == [w[0]] + w[1..] && s == [s[0]] + s[1..];
        }
      }
    }
  }

  lemma LiteralReads(s: string, w: string)
    requires w != "" && AreWords(w) && IsTight(s) && s != "" && s[0] == w[0]
    ensures w <= s <==> w <= Bare(s)
    ensures w <= s ==> Bare(s)[|w|..] == Bare(s[|w|..]) && IsTight(s[|w|..])
  {
    BareHead(s, Free);
    WordReads(s[1..], w[1..]);
    assert w == [w[0]] + w[1..] && s == [s[0]] + s[1..];
    if w <= s {
      TightIsTight(s[|w|..], Outside, Word);
    }
  }

  lemma {:induction false} NumberReads(s: string, q: NumberState, g: Glue)
    requires Tight(s, Outside, g) && (g.Word? || (g.Free? && s != "" && !IsSpace(s[0])))
    ensures match SkipNumber(s, q)
            case None => SkipNumber(Bare(s), q) == None
            case Some(rest) =>
              && SkipNumber(Bare(s), q) == Some(Bare(rest)) && IsTight(rest)
              && |Bare(rest)| <= |Bare(s)|
              && s[..|s| - |rest|] == Bare(s)[..|Bare(s)| - |Bare(rest)|]
    decreases |s|
  {
    hide NextNumber, Strip, Tight;
    TightIsTight(s, Outside, g);
    if s != "" && IsSpace(s[0]) {
      BareTail(s);
      BehindGap(s[1..]);
      NumberStops(Bare(s), q);
      NumberStops(s, q);
    } else if s != "" && NextNumber(q, s[0]).Some? {
      BareHead(s, g);
      NumberGoesOn(s, q, NextNumber(q, s[0]).value);
    } else if s != "" {
      BareHead(s, g);
    } else {
      assert Bare(s) == "" by { BareOfNothing(); }
    }
  }

  lemma BareOfNothing()
    ensures Bare("") == ""
  {
  }

  lemma BareTail(s: string)
    requires s != "" && IsSpace(s[0])
    ensures Bare(s) == Bare(s[1..])
    ensures Tight(s, Outside, Word) ==> Tight(s[1..], Outside, Gap)
  {
  }

  lemma NumberStops(s: string, q: NumberState)
    requires s == "" || !IsWord(s[0])
    ensures SkipNumber(s, q) == if CompleteNumber(q) then Some(s) else None
  {
  }

  lemma {:induction false} NumberGoesOn(s: string, q: NumberState, next: NumberState)
    requires s != "" && NextNumber(q, s[0]) == Some(next) && Tight(s[1..], Outside, Word)
    requires Bare(s) != "" && Bare(s)[0] == s[0] && Bare(s)[1..] == Bare(s[1..])
    ensures match SkipNumber(s, q)
            case None => SkipNumber(Bare(s), q) == None
            case Some(rest) =>
              && SkipNumber(Bare(s), q) == Some(Bare(rest)) && IsTight(rest)
              && |Bare(rest)| <= |Bare(s)|
              && s[..|s| - |rest|] == Bare(s)[..|Bare(s)| - |Bare(rest)|]
    decreases |s|, 0
  {
    hide NextNumber, Bare, Tight;
    NumberReads(s[1..], next, Word);
    if SkipNumber(s[1..], next).Some? {
      var rest := SkipNumber(s[1..], next).value;
      TakeOneMore(s, |s| - |rest|);
      TakeOneMore(Bare(s), |Bare(s)| - |Bare(rest)|);
    }
  }

  lemma TakeOneMore(s: string, n: nat)
    requires 0 < n <= |s|
    ensures s[..n] == [s[0]] + s[1..][..n - 1]
  {
  }

  // ---------- Strings ----------

  lemma InsideHead(s: string, m: Mode)
    requires s != "" && !m.Outside?
    ensures Strip(s, m) == [s[0]] + Strip(s[1..], Go(m, s[0]))
    ensures Strip(s, m)[0] == s[0] && Strip(s, m)[1..] == Strip(s[1..], Go(m, s[0]))
    ensures Tight(s, m, Free) ==> Tight(s[1..], Go(m, s[0]), Free)
  {
  }

  lemma {:induction false} StripIsShorter(s: string, m: Mode)
    ensures |Strip(s, m)| <= |s|
  {
    if s != "" {
      StripIsShorter(s[1..], Go(m, s[0]));
    }
  }

  predicate StaysInside(s: string) {
    forall i :: 0 <= i < |s| ==> s[i] != '"' && s[i] != '\\'
  }

  /** Inside a string everything is kept, up to a quote or a backslash. */
  lemma {:induction false} InsideKeeps(s: string, k: nat)
    requires k <= |s| && StaysInside(s[..k])
    ensures Strip(s, InText) == s[..k] + Strip(s[k..], InText)
    ensures Tight(s, InText, Free) ==> Tight(s[k..], InText, Free)
    decreases k
  {
    if k > 0 {
      InsideHead(s, InText);
      assert s[..k][0] == s[0];
      assert s[1..][..k - 1] == s[..k][1..] && s[1..][k - 1..] == s[k..];
      InsideKeeps(s[1..], k - 1);
      TakeOneMore(s, k);
    }
  }

  /** The first of four characters that is no hexadecimal digit, or 4. */
  function FirstOther(s: string): (k: nat)
    requires |s| >= 4
    ensures k <= 4 && (k < 4 ==> HexValue(s[k]).None?) && forall i :: 0 <= i < k ==> HexValue(s[i]).Some?
  {
    if HexValue(s[0]).None? then 0 else if HexValue(s[1]).None? then 1
    else if HexValue(s[2]).None? then 2 else if HexValue(s[3]).None? then 3 else 4
  }

  lemma HexReads(s: string)
    ensures Hex4(Strip(s, InText)) == Hex4(s)
    ensures Hex4(s).Some? ==> Strip(s, InText)[4..] == Strip(s[4..], InText)
                              && (Tight(s, InText, Free) ==> Tight(s[4..], InText, Free))
  {
    StripIsShorter(s, InText);
    if |s| >= 4 {
      var k := FirstOther(s);
      InsideKeeps(s, k);
      if k < 4 {
        InsideHead(s[k..], InText);
      }
    }
  }

  ghost predicate Reads<T>(p: Option<(T, string)>, q: Option<(T, string)>, m: Mode) {
    match p
    case None => q == None
    case Some((x, rest)) => q == Some((x, Strip(rest, m))) && Tight(rest, m, Free)
  }

  lemma UnitReads(s: string)
    requires s != "" && s[0] == 'u' && Tight(s, InEscape, Free)
    ensures Reads(ParseEscape(s), ParseEscape(Strip(s, InEscape)), InText)
  {
    hide Hex4;
    InsideHead(s, InEscape);
    var u := Strip(s, InEscape);
    HexReads(s[1..]);
    if Hex4(s[1..]).Some? {
      var rest := s[5..];
      assert s[1..][4..] == rest && u[1..][4..] == u[5..];
      if rest != "" {
        InsideHead(rest, InText);
        if rest[0] == '\\' && |rest| > 1 {
          InsideHead(rest[1..], InEscape);
          assert rest[1..][1..] == rest[2..] == s[7..];
          assert u[5..][2..] == u[7..];
          HexReads(rest[2..]);
          assert Hex4(s[7..]).Some? ==> s[7..][4..] == s[11..] && u[7..][4..] == u[11..];
        }
      }
    }
  }

  lemma EscapeReads(s: string)
    requires Tight(s, InEscape, Free)
    ensures Reads(ParseEscape(s), ParseEscape(Strip(s, InEscape)), InText)
  {
    if s != "" {
      if s[0] == 'u' {
        UnitReads(s);
      } else {
        InsideHead(s, InEscape);
      }
    }
  }

  lemma {:induction false} StringReads(s: string)
    requires Tight(s, InText, Free)
    ensures Reads(ParseString(s), ParseString(Strip(s, InText)), Outside)
    decreases |s|
  {
    hide ParseEscape;
    if s != "" {
      InsideHead(s, InText);
      if s[0] == '\\' {
        EscapeReads(s[1..]);
        if ParseEscape(s[1..]).Some? {
          StringReads(ParseEscape(s[1..]).value.1);
        }
      } else if s[0] != '"' {
        StringReads(s[1..]);
      }
    }
  }

  // ---------- Values ----------

  /** What stands behind a punctuation mark outside strings. */
  lemma MarkReads(s: string)
    requires s != "" && !IsSpace(s[0]) && !IsWord(s[0]) && s[0] != '"' && IsTight(s)
    ensures Bare(s) != "" && Bare(s)[0] == s[0] && Bare(s)[1..] == Bare(s[1..]) && IsTight(s[1..])
  {
    BareHead(s, Free);
  }

  lemma QuoteReads(s: string)
    requires s != "" && s[0] == '"' && IsTight(s)
    ensures Bare(s) != "" && Bare(s)[0] == '"' && Bare(s)[1..] == Strip(s[1..], InText) && Tight(s[1..], InText, Free)
  {
    BareHead(s, Free);
  }

  lemma ScalarReads(s: string)
    requires IsTight(s) && s != "" && !IsSpace(s[0]) && s[0] != '[' && s[0] != '{'
    ensures Reads(ParseValue(s), ParseValue(Bare(s)), Outside)
  {
    hide ParseString, SkipNumber, Strip, Tight, ParseItems, ParseMembers;
    BareHead(s, Free);
    BareSkips(s, Free);
    assert SkipWs(s) == s by { NoSpaceToSkip(s); }
    assert SkipWs(Bare(s)) == Bare(s);
    if s[0] == 'n' {
      LiteralReads(s, "null");
    } else if s[0] == 't' {
      LiteralReads(s, "true");
    } else if s[0] == 'f' {
      LiteralReads(s, "false");
    } else if s[0] == '"' {
      QuoteReads(s);
      StringReads(s[1..]);
    } else {
      NumberReads(s, NumberStart, Free);
    }
  }

  lemma NoSpaceToSkip(s: string)
    requires s != "" && !IsSpace(s[0])
    ensures SkipWs(s) == s
  {
  }

  lemma {:induction false} ValueReads(s: string)
    requires IsTight(s)
    ensures Reads(ParseValue(s), ParseValue(Bare(s)), Outside)
    decreases |s|, 1
  {
    hide ParseString, SkipNumber, Strip, Tight, ParseItems, ParseMembers, Literal;
    BareSkips(s, Free);
    var t := SkipWs(s);
    if t != "" {
      SkipTwice(s);
      if t[0] == '[' {
        ArrayReads(t);
      } else if t[0] == '{' {
        ObjectReads(t);
      } else {
        ScalarReads(t);
      }
    }
  }

  lemma SkipTwice(s: string)
    ensures ParseValue(s) == ParseValue(SkipWs(s)) && SkipWs(SkipWs(s)) == SkipWs(s)
  {
  }

  lemma {:induction false} ArrayReads(t: string)
    requires t != "" && t[0] == '[' && IsTight(t)
    ensures Reads(ParseValue(t), ParseValue(Bare(t)), Outside)
    decreases |t|, 0
  {
    hide ParseItems, Strip, Tight;
    MarkReads(t);
    NoSpaceToSkip(t);
    NoSpaceToSkip(Bare(t));
    BareSkips(t[1..], Free);
    var u := SkipWs(t[1..]);
    if u != "" && u[0] == ']' {
      MarkReads(u);
    } else {
      if u != "" {
        BareHead(u, Free);
      }
      ItemsRead(u);
    }
  }

  lemma {:induction false} ObjectReads(t: string)
    requires t != "" && t[0] == '{' && IsTight(t)
    ensures Reads(ParseValue(t), ParseValue(Bare(t)), Outside)
    decreases |t|, 0
  {
    hide ParseMembers, Strip, Tight;
    MarkReads(t);
    NoSpaceToSkip(t);
    NoSpaceToSkip(Bare(t));
    BareSkips(t[1..], Free);
    var u := SkipWs(t[1..]);
    if u != "" && u[0] == '}' {
      MarkReads(u);
    } else {
      if u != "" {
        BareHead(u, Free);
      }
      MembersRead(u);
    }
  }

  lemma {:induction false} ItemsRead(s: string)
    requires IsTight(s)
    ensures Reads(ParseItems(s), ParseItems(Bare(s)), Outside)
    decreases |s|, 2
  {
    hide ParseValue, Strip, Tight;
    ValueReads(s);
    if ParseValue(s).Some? {
      var rest := ParseValue(s).value.1;
      BareSkips(rest, Free);
      var t := SkipWs(rest);
      if t != "" {
        BareHead(t, Free);
        if t[0] == ']' || t[0] == ',' {
          MarkReads(t);
        }
        if t[0] == ',' {
          ItemsRead(t[1..]);
        }
      }
    }
  }

  lemma {:induction false} MemberReads(s: string)
    requires IsTight(s)
    ensures Reads(ParseMember(s), ParseMember(Bare(s)), Outside)
    decreases |s|, 2
  {
    hide ParseValue, ParseString, Strip, Tight;
    BareSkips(s, Free);
    var t := SkipWs(s);
    if t != "" {
      BareHead(t, Free);
      if t[0] == '"' {
        QuoteReads(t);
        StringReads(t[1..]);
        if ParseString(t[1..]).Some? {
          var rest := ParseString(t[1..]).value.1;
          BareSkips(rest, Free);
          var u := SkipWs(rest);
          if u != "" {
            BareHead(u, Free);
            if u[0] == ':' {
              MarkReads(u);
              ValueReads(u[1..]);
            }
          }
        }
      }
    }
  }

  lemma {:induction false} MembersRead(s: string)
    requires IsTight(s)
    ensures Reads(ParseMembers(s), ParseMembers(Bare(s)), Outside)
    decreases |s|, 3
  {
    hide ParseMember, Strip, Tight;
    MemberReads(s);
    if ParseMember(s).Some? {
      var rest := ParseMember(s).value.1;
      BareSkips(rest, Free);
      var t := SkipWs(rest);
      if t != "" {
        BareHead(t, Free);
        if t[0] == '}' || t[0] == ',' {
          MarkReads(t);
        }
        if t[0] == ',' {
          MembersRead(t[1..]);
        }
      }
    }
  }

  /** The parser reads a text as it reads the text without the white space between its tokens. */
  lemma SpaceIsIrrelevant(s: string)
    requires IsTight(s)
    ensures Parse(s) == Parse(Bare(s))
  {
    hide ParseValue, Strip, Tight, Shallow;
    ValueReads(s);
    if ParseValue(s).Some? {
      BareSkips(ParseValue(s).value.1, Free);
    }
  }

  // ---------- White space inside a word is never read ----------

  lemma {:induction false} InsideIsTight(s: string, k: nat)
    requires k <= |s| && StaysInside(s[..k]) && Tight(s[k..], InText, Free)
    ensures Tight(s, InText, Free)
    decreases k
  {
    if k > 0 {
      assert s[..k][0] == s[0];
      assert s[1..][..k - 1] == s[..k][1..] && s[1..][k - 1..] == s[k..];
      InsideIsTight(s[1..], k - 1);
    }
  }

  lemma HexIsTight(s: string)
    requires Hex4(s).Some? && Tight(s[4..], InText, Free)
    ensures Tight(s, InText, Free)
  {
    InsideIsTight(s, 4);
  }

  lemma EscapeIsTight(s: string)
    requires ParseEscape(s).Some? && Tight(ParseEscape(s).value.1, InText, Free)
    ensures Tight(s, InEscape, Free)
  {
    hide Hex4;
    if s[0] == 'u' {
      var rest := s[5..];
      assert s[1..][4..] == rest;
      if ParseEscape(s).value.1 != rest {
        assert rest[1..][1..] == s[7..] && s[7..][4..] == s[11..];
        HexIsTight(s[7..]);
        assert Tight(rest[1..], InEscape, Free);
        assert Tight(rest, InText, Free);
      }
      HexIsTight(s[1..]);
    }
  }

  lemma {:induction false} StringIsTight(s: string)
    requires ParseString(s).Some? && IsTight(ParseString(s).value.1)
    ensures Tight(s, InText, Free)
    decreases |s|
  {
    hide ParseEscape;
    if s[0] == '\\' {
      StringIsTight(ParseEscape(s[1..]).value.1);
      EscapeIsTight(s[1..]);
    } else if s[0] != '"' {
      StringIsTight(s[1..]);
    }
  }

  lemma {:induction false} NumberIsTight(s: string, q: NumberState, g: Glue)
    requires SkipNumber(s, q).Some? && Tight(SkipNumber(s, q).value, Outside, Word) && !g.Gap?
    requires g.Word? || !CompleteNumber(q)
    ensures Tight(s, Outside, g)
    decreases |s|
  {
    if s != "" && NextNumber(q, s[0]).Some? {
      NumberIsTight(s[1..], NextNumber(q, s[0]).value, Word);
    }
  }

  lemma {:induction false} WordIsTight(s: string, w: string, g: Glue)
    requires AreWords(w) && w <= s && Tight(s[|w|..], Outside, Word) && !g.Gap? && (w == "" ==> g.Word?)
    ensures Tight(s, Outside, g)
    decreases |w|
  {
    if w != "" {
      assert s[1..][|w[1..]|..] == s[|w|..];
      WordIsTight(s[1..], w[1..], Word);
    }
  }

  /** White space in front of something that is tight, unless a word stands on both sides. */
  lemma {:induction false} SpaceIsTight(s: string, g: Glue)
    requires IsTight(SkipWs(s)) && (g.Free? || SkipWs(s) == "" || !IsWord(SkipWs(s)[0]))
    ensures Tight(s, Outside, g)
    decreases |s|
  {
    if s != "" && IsSpace(s[0]) {
      SpaceIsTight(s[1..], Behind(g, Outside, s[0]));
    }
  }

  /** A mark with what is tight behind it is tight behind anything, and white space in front does no harm. */
  lemma MarkIsTight(s: string)
    requires var t := SkipWs(s); t != "" && !IsWord(t[0]) && t[0] != '"' && IsTight(t[1..])
    ensures Tight(s, Outside, Word) && IsTight(s)
  {
    var t := SkipWs(s);
    BareSkips(s, Free);
    assert IsTight(t);
    SpaceIsTight(s, Word);
    SpaceIsTight(s, Free);
  }

  lemma LiteralIsTight(s: string, w: string, v: Value)
    requires w != "" && AreWords(w) && Literal(s, w, v).Some? && Tight(Literal(s, w, v).value.1, Outside, Word)
    ensures IsTight(s)
  {
    hide Tight;
    WordIsTight(s, w, Free);
  }

  lemma ScalarIsTight(s: string)
    requires s != "" && !IsSpace(s[0]) && s[0] != '[' && s[0] != '{'
    requires ParseValue(s).Some? && Tight(ParseValue(s).value.1, Outside, Word)
    ensures IsTight(s)
  {
    hide ParseString, SkipNumber, Tight, ParseItems, ParseMembers, Literal;
    NoSpaceToSkip(s);
    if s[0] == 'n' {
      LiteralIsTight(s, "null", Null);
    } else if s[0] == 't' {
      LiteralIsTight(s, "true", Bool(true));
    } else if s[0] == 'f' {
      LiteralIsTight(s, "false", Bool(false));
    } else if s[0] == '"' {
      TightIsTight(ParseValue(s).value.1, Outside, Word);
      StringIsTight(s[1..]);
      QuoteIsTight(s);
    } else {
      NumberIsTight(s, NumberStart, Free);
    }
  }

  lemma QuoteIsTight(s: string)
    requires s != "" && s[0] == '"' && Tight(s[1..], InText, Free)
    ensures IsTight(s)
  {
  }

  lemma {:induction false} ValueIsTight(s: string)
    requires ParseValue(s).Some? && Tight(ParseValue(s).value.1, Outside, Word)
    ensures IsTight(s)
    decreases |s|, 1
  {
    hide ParseString, SkipNumber, Tight, ParseItems, ParseMembers, Literal;
    BareSkips(s, Free);
    SkipTwice(s);
    var t := SkipWs(s);
    if t[0] == '[' || t[0] == '{' {
      ContainerIsTight(t);
    } else {
      ScalarIsTight(t);
    }
    SpaceIsTight(s, Free);
  }

  lemma {:induction false} ContainerIsTight(t: string)
    requires t != "" && (t[0] == '[' || t[0] == '{')
    requires ParseValue(t).Some? && Tight(ParseValue(t).value.1, Outside, Word)
    ensures IsTight(t)
    decreases |t|, 0
  {
    hide ParseItems, ParseMembers, Tight;
    NoSpaceToSkip(t);
    var rest := ParseValue(t).value.1;
    TightIsTight(rest, Outside, Word);
    var u := SkipWs(t[1..]);
    if u != "" && u[0] == if t[0] == '[' then ']' else '}' {
      MarkIsTight(t[1..]);
    } else {
      if t[0] == '[' {
        ItemsAreTight(u);
      } else {
        MembersAreTight(u);
      }
      SpaceIsTight(t[1..], Free);
    }
    MarkIsTight(t);
  }

  lemma {:induction false} ItemsAreTight(s: string)
    requires ParseItems(s).Some? && IsTight(ParseItems(s).value.1)
    ensures IsTight(s)
    decreases |s|, 2
  {
    hide ParseValue, Tight;
    var rest := ParseValue(s).value.1;
    var t := SkipWs(rest);
    if t[0] == ',' {
      ItemsAreTight(t[1..]);
    }
    MarkIsTight(rest);
    ValueIsTight(s);
  }

  lemma {:induction false} MemberIsTight(s: string)
    requires ParseMember(s).Some? && Tight(ParseMember(s).value.1, Outside, Word)
    ensures IsTight(s)
    decreases |s|, 2
  {
    hide ParseValue, ParseString, Tight;
    var t := SkipWs(s);
    var rest := ParseString(t[1..]).value.1;
    var u := SkipWs(rest);
    ValueIsTight(u[1..]);
    MarkIsTight(rest);
    StringIsTight(t[1..]);
    QuoteIsTight(t);
    SpaceIsTight(s, Free);
  }

  lemma {:induction false} MembersAreTight(s: string)
    requires ParseMembers(s).Some? && IsTight(ParseMembers(s).value.1)
    ensures IsTight(s)
    decreases |s|, 3
  {
    hide ParseMember, Tight;
    var rest := ParseMember(s).value.1;
    var t := SkipWs(rest);
    if t[0] == ',' {
      MembersAreTight(t[1..]);
    }
    MarkIsTight(rest);
    MemberIsTight(s);
  }

  /**
   * On every text the parser reads what it reads of the text without the white space between its tokens, and it reads
   * nothing of a text with white space inside a number or a literal.
   */
  lemma SpaceIsExact(s: string)
    ensures Parse(s) == if IsTight(s) then Parse(Bare(s)) else None
  {
    hide ParseValue, Tight, Shallow;
    if IsTight(s) {
      SpaceIsIrrelevant(s);
    } else if ParseValue(s).Some? {
      var rest := ParseValue(s).value.1;
      if SkipWs(rest) == "" {
        assert IsTight(SkipWs(rest)) by { NothingIsTight(); }
        SpaceIsTight(rest, Word);
        ValueIsTight(s);
      }
    }
  }

  lemma NothingIsTight()
    ensures IsTight("")
  {
  }
}
