/**
 * Which spellings of strings and numbers the parser reads: exactly those of RFC 8259, sections 6 and 7, whoever
 * wrote them.
 */
module JsonSpelling {
  import opened Wrappers
  import opened Json

  // ---------- Strings ----------

  /** A hexadecimal digit, of either case. */
  datatype Nibble = Nibble(value: nat, upper: bool)

  datatype Unit = Unit(a: Nibble, b: Nibble, c: Nibble, d: Nibble)

  /** One character of a string, as it may be written. */
  datatype Spelling =
    | Raw(c: char)
    | Short(letter: char)
    | Code(unit: Unit)
    | Pair(high: Unit, low: Unit)

  predicate IsNibble(n: Nibble) {
    n.value < 16
  }

  predicate IsUnit(u: Unit) {
    IsNibble(u.a) && IsNibble(u.b) && IsNibble(u.c) && IsNibble(u.d)
  }

  function Number16(u: Unit): nat {
    0x1000 * u.a.value + 0x100 * u.b.value + 0x10 * u.c.value + u.d.value
  }

  predicate IsSpelling(x: Spelling) {
    match x
    case Raw(c) => c as int >= 0x20 && c != '"' && c != '\\'
    case Short(letter) => letter in "\"\\/bfnrt"
    case Code(unit) => IsUnit(unit) && !(0xD800 <= Number16(unit) < 0xE000)
    case Pair(high, low) =>
      IsUnit(high) && IsUnit(low) && 0xD800 <= Number16(high) < 0xDC00 && 0xDC00 <= Number16(low) < 0xE000
  }

  function WriteNibble(n: Nibble): char
    requires IsNibble(n)
  {
    "0123456789abcdef0123456789ABCDEF"[n.value + if n.upper then 16 else 0]
  }

  function WriteUnit(u: Unit): string
    requires IsUnit(u)
  {
    [WriteNibble(u.a), WriteNibble(u.b), WriteNibble(u.c), WriteNibble(u.d)]
  }

  function Write(x: Spelling): string
    requires IsSpelling(x)
  {
    match x
    case Raw(c) => [c]
    case Short(letter) => ['\\', letter]
    case Code(unit) => "\\u" + WriteUnit(unit)
    case Pair(high, low) => "\\u" + WriteUnit(high) + "\\u" + WriteUnit(low)
  }

  function Means(x: Spelling): char
    requires IsSpelling(x)
  {
    match x
    case Raw(c) => c
    case Short(letter) =>
      if letter == 'b' then '\U{0008}' else if letter == 'f' then '\U{000C}' else if letter == 'n' then '\U{000A}'
      else if letter == 'r' then '\U{000D}' else if letter == 't' then '\U{0009}' else letter
    case Code(unit) => Number16(unit) as char
    case Pair(high, low) => (0x1_0000 + 0x400 * (Number16(high) - 0xD800) + (Number16(low) - 0xDC00)) as char
  }

  predicate AreSpellings(xs: seq<Spelling>) {
    forall i :: 0 <= i < |xs| ==> IsSpelling(xs[i])
  }

  function WriteAll(xs: seq<Spelling>): string
    requires AreSpellings(xs)
  {
    if xs == [] then "" else Write(xs[0]) + WriteAll(xs[1..])
  }

  function MeanAll(xs: seq<Spelling>): string
    requires AreSpellings(xs)
  {
    if xs == [] then "" else [Means(xs[0])] + MeanAll(xs[1..])
  }

  lemma NibbleReads(n: Nibble)
    requires IsNibble(n)
    ensures HexValue(WriteNibble(n)) == Some(n.value)
  {
    var k, c := n.value, WriteNibble(n);
    if k < 10 {
      assert c == '0' + k as char;
    } else if n.upper {
      assert c == 'A' + (k - 10) as char;
    } else {
      assert c == 'a' + (k - 10) as char;
    }
  }

  lemma UnitReads(u: Unit, rest: string)
    requires IsUnit(u)
    ensures Hex4(WriteUnit(u) + rest) == Some(Number16(u)) && (WriteUnit(u) + rest)[4..] == rest
  {
    hide HexValue, WriteNibble;
    NibbleReads(u.a);
    NibbleReads(u.b);
    NibbleReads(u.c);
    NibbleReads(u.d);
  }

  lemma CodeReads(u: Unit, rest: string)
    requires IsSpelling(Code(u))
    ensures ParseEscape("u" + WriteUnit(u) + rest) == Some((Means(Code(u)), rest))
  {
    hide Hex4, WriteUnit;
    var s := "u" + WriteUnit(u) + rest;
    UnitReads(u, rest);
    assert s[1..] == WriteUnit(u) + rest && s[5..] == s[1..][4..];
  }

  lemma PairReads(high: Unit, low: Unit, rest: string)
    requires IsSpelling(Pair(high, low))
    ensures ParseEscape("u" + WriteUnit(high) + ("\\u" + WriteUnit(low) + rest)) == Some((Means(Pair(high, low)), rest))
  {
    hide Hex4, WriteUnit;
    var tail := "\\u" + WriteUnit(low) + rest;
    var s := "u" + WriteUnit(high) + tail;
    UnitReads(high, tail);
    UnitReads(low, rest);
    assert s[1..] == WriteUnit(high) + tail && s[5..] == s[1..][4..] == tail;
    assert s[5] == tail[0] && s[6] == tail[1] && s[7..] == tail[2..] == WriteUnit(low) + rest;
    assert s[11..] == s[7..][4..];
  }

  lemma ShortReads(letter: char, rest: string)
    requires IsSpelling(Short(letter))
    ensures ParseEscape([letter] + rest) == Some((Means(Short(letter)), rest))
  {
    hide Hex4;
    assert ([letter] + rest)[1..] == rest;
  }

  lemma EscapeStep(s: string)
    ensures ParseString(['\\'] + s) == match ParseEscape(s)
                                        case None => None
                                        case Some((c, rest)) => Push(c, ParseString(rest))
  {
    hide ParseEscape, Push;
    assert (['\\'] + s)[1..] == s;
  }

  lemma RawReads(c: char, rest: string)
    requires IsSpelling(Raw(c))
    ensures ParseString(Write(Raw(c)) + rest) == Push(Means(Raw(c)), ParseString(rest))
  {
    hide ParseEscape, Push;
    assert ([c] + rest)[1..] == rest;
  }

  lemma CodeText(a: string, rest: string)
    ensures "\\u" + a + rest == ['\\'] + ("u" + a + rest)
  {
  }

  lemma PairText(a: string, b: string, rest: string)
    ensures "\\u" + a + "\\u" + b + rest == ['\\'] + ("u" + a + ("\\u" + b + rest))
  {
    CodeText(a, "\\u" + b + rest);
    assert "\\u" + a + "\\u" + b + rest == "\\u" + a + ("\\u" + b + rest);
  }

  lemma SpellingReads(x: Spelling, rest: string)
    requires IsSpelling(x)
    ensures ParseString(Write(x) + rest) == Push(Means(x), ParseString(rest))
  {
    hide ParseEscape, ParseString, WriteUnit, Push, IsUnit, Means, Number16;
    match x
    case Raw(c) => RawReads(c, rest);
    case Short(letter) =>
      ShortReads(letter, rest);
      EscapeStep([letter] + rest);
      assert Write(x) + rest == ['\\'] + ([letter] + rest);
    case Code(unit) =>
      CodeReads(unit, rest);
      EscapeStep("u" + WriteUnit(unit) + rest);
      CodeText(WriteUnit(unit), rest);
    case Pair(high, low) =>
      PairReads(high, low, rest);
      EscapeStep("u" + WriteUnit(high) + ("\\u" + WriteUnit(low) + rest));
      PairText(WriteUnit(high), WriteUnit(low), rest);
  }

  /** Every spelling of a string is read as the string. */
  lemma {:induction false} SpellingsRead(xs: seq<Spelling>, rest: string)
    requires AreSpellings(xs)
    ensures ParseString(WriteAll(xs) + "\"" + rest) == Some((MeanAll(xs), rest))
    decreases |xs|
  {
    hide Write, Means;
    if xs == [] {
      assert (WriteAll(xs) + "\"" + rest)[1..] == rest;
    } else {
      var tail := WriteAll(xs[1..]) + "\"" + rest;
      SpellingsRead(xs[1..], rest);
      SpellingReads(xs[0], tail);
      assert WriteAll(xs) + "\"" + rest == Write(xs[0]) + tail;
    }
  }

  lemma NibbleOf(c: char) returns (n: Nibble)
    requires HexValue(c).Some?
    ensures IsNibble(n) && WriteNibble(n) == c
  {
    n := Nibble(HexValue(c).value, 'A' <= c <= 'F');
    NibbleReads(n);
  }

  lemma UnitOf(s: string) returns (u: Unit)
    requires Hex4(s).Some?
    ensures IsUnit(u) && s == WriteUnit(u) + s[4..] && Hex4(s) == Some(Number16(u))
  {
    var a := NibbleOf(s[0]);
    var b := NibbleOf(s[1]);
    var c := NibbleOf(s[2]);
    var d := NibbleOf(s[3]);
    u := Unit(a, b, c, d);
    UnitReads(u, s[4..]);
    assert s == WriteUnit(u) + s[4..];
  }

  /** A surrogate is read only with its second half. */
  lemma SurrogateIsPaired(s: string)
    requires s != "" && s[0] == 'u' && ParseEscape(s).Some?
    requires Hex4(s[1..]).Some? && 0xD800 <= Hex4(s[1..]).value < 0xE000
    ensures Hex4(s[1..]).value < 0xDC00 && |s| >= 7 && s[5] == '\\' && s[6] == 'u'
    ensures Hex4(s[7..]).Some? && 0xDC00 <= Hex4(s[7..]).value < 0xE000
  {
    hide Hex4;
  }

  lemma CodeOfEscape(s: string) returns (x: Spelling)
    requires s != "" && s[0] == 'u' && ParseEscape(s).Some?
    ensures IsSpelling(x) && var (c, rest) := ParseEscape(s).value; c == Means(x) && ['\\'] + s == Write(x) + rest
  {
    hide Hex4, WriteUnit, Number16, ParseEscape, Means;
    HexFollows(s);
    var high := UnitOf(s[1..]);
    FiveOff(s, WriteUnit(high));
    CodeText(WriteUnit(high), s[5..]);
    if 0xD800 <= Number16(high) < 0xE000 {
      SurrogateIsPaired(s);
      var low := UnitOf(s[7..]);
      SevenOff(s, WriteUnit(low));
      x := Pair(high, low);
      PairReads(high, low, s[11..]);
      PairText(WriteUnit(high), WriteUnit(low), s[11..]);
    } else {
      x := Code(high);
      CodeReads(high, s[5..]);
    }
  }

  lemma HexFollows(s: string)
    requires s != "" && s[0] == 'u' && ParseEscape(s).Some?
    ensures Hex4(s[1..]).Some?
  {
  }

  lemma FiveOff(s: string, unit: string)
    requires |s| >= 5 && s[0] == 'u' && s[1..] == unit + s[1..][4..]
    ensures s == "u" + unit + s[5..]
  {
    assert s[1..][4..] == s[5..] && s == "u" + s[1..];
  }

  lemma SevenOff(s: string, unit: string)
    requires |s| >= 11 && s[5] == '\\' && s[6] == 'u' && s[7..] == unit + s[7..][4..]
    ensures s[5..] == "\\u" + unit + s[11..]
  {
    assert s[7..][4..] == s[11..] && s[5..] == "\\u" + s[7..];
  }

  lemma SpellingOfEscape(s: string) returns (x: Spelling)
    requires ParseEscape(s).Some?
    ensures IsSpelling(x) && var (c, rest) := ParseEscape(s).value; c == Means(x) && ['\\'] + s == Write(x) + rest
  {
    hide Hex4, WriteUnit, Number16;
    if s[0] == 'u' {
      x := CodeOfEscape(s);
    } else {
      x := Short(s[0]);
      assert s == [s[0]] + s[1..];
      assert ['\\'] + s == ['\\', s[0]] + s[1..];
    }
  }

  /** And nothing else is read: what the parser takes for a string is a spelling of it. */
  lemma {:induction false} ReadIsSpelled(s: string) returns (xs: seq<Spelling>)
    requires ParseString(s).Some?
    ensures AreSpellings(xs)
    ensures var (body, rest) := ParseString(s).value; body == MeanAll(xs) && s == WriteAll(xs) + "\"" + rest
    decreases |s|
  {
    hide ParseEscape, Write, Means;
    if s[0] == '"' {
      xs := [];
      assert s == "" + "\"" + s[1..];
    } else {
      var x, tail;
      if s[0] == '\\' {
        x := SpellingOfEscape(s[1..]);
        tail := ParseEscape(s[1..]).value.1;
        assert s == ['\\'] + s[1..];
      } else {
        x, tail := Raw(s[0]), s[1..];
        RawWrites(s);
      }
      var more := ReadIsSpelled(tail);
      xs := [x] + more;
      assert xs[1..] == more;
      var rest := ParseString(s).value.1;
      assert Write(x) + (WriteAll(more) + "\"" + rest) == WriteAll(xs) + "\"" + rest;
    }
  }

  lemma RawWrites(s: string)
    requires s != "" && IsSpelling(Raw(s[0]))
    ensures Write(Raw(s[0])) + s[1..] == s && Means(Raw(s[0])) == s[0]
  {
  }

  // ---------- Numbers ----------

  predicate AreDigits(s: string) {
    forall i :: 0 <= i < |s| ==> '0' <= s[i] <= '9'
  }

  /** Nothing, or an e of either case, perhaps a sign, and digits. */
  predicate IsExponent(s: string) {
    s == "" || ((s[0] == 'e' || s[0] == 'E') && IsPower(s[1..]))
  }

  predicate IsPower(s: string) {
    s != "" && if s[0] == '+' || s[0] == '-' then s[1..] != "" && AreDigits(s[1..]) else AreDigits(s)
  }

  /** Nothing, or a point and digits. */
  predicate IsFraction(s: string) {
    s == "" || (|s| > 1 && s[0] == '.' && AreDigits(s[1..]))
  }

  /** Digits without a leading zero. */
  predicate IsInteger(s: string) {
    s != "" && AreDigits(s) && (s[0] == '0' ==> |s| == 1)
  }

  predicate CutsAt(s: string, i: nat, k: nat) {
    i <= k <= |s| && IsInteger(s[..i]) && IsFraction(s[i..k]) && IsExponent(s[k..])
  }

  /** Perhaps a minus, an integer, perhaps a fraction, perhaps an exponent. */
  ghost predicate IsRfcNumber(s: string) {
    IsUnsigned(if s != "" && s[0] == '-' then s[1..] else s)
  }

  predicate Accepts(s: string, q: NumberState) {
    SkipNumber(s, q) == Some("")
  }

  lemma AcceptsStep(s: string, q: NumberState)
    requires s != ""
    ensures Accepts(s, q) <==> NextNumber(q, s[0]).Some? && Accepts(s[1..], NextNumber(q, s[0]).value)
  {
  }

  lemma DigitsStep(s: string)
    requires s != ""
    ensures AreDigits(s) <==> '0' <= s[0] <= '9' && AreDigits(s[1..])
  {
    assert forall i :: 1 <= i < |s| ==> s[i] == s[1..][i - 1];
  }

  lemma {:induction false} AcceptsDigits(s: string)
    ensures Accepts(s, InExponent) <==> AreDigits(s)
    decreases |s|
  {
    if s != "" {
      AcceptsStep(s, InExponent);
      DigitsStep(s);
      AcceptsDigits(s[1..]);
    }
  }

  lemma AcceptsPower(s: string)
    ensures Accepts(s, AfterE) <==> IsPower(s)
  {
    hide AreDigits;
    if s != "" {
      AcceptsStep(s, AfterE);
      AcceptsDigits(s[1..]);
      DigitsStep(s);
      if s[1..] != "" {
        AcceptsStep(s[1..], AfterSign);
        AcceptsDigits(s[1..][1..]);
        DigitsStep(s[1..]);
      }
    }
  }

  ghost predicate EndsFraction(s: string) {
    exists k: nat :: k <= |s| && AreDigits(s[..k]) && IsExponent(s[k..])
  }

  lemma {:induction false} AcceptsFraction(s: string)
    ensures Accepts(s, InFraction) <==> EndsFraction(s)
    decreases |s|
  {
    if s != "" {
      AcceptsStep(s, InFraction);
      AcceptsFraction(s[1..]);
      AcceptsPower(s[1..]);
      FractionStep(s);
    } else {
      assert s[..0] == "" && s[0..] == "";
    }
  }

  lemma FractionStep(s: string)
    requires s != ""
    ensures EndsFraction(s) <==> IsExponent(s) || ('0' <= s[0] <= '9' && EndsFraction(s[1..]))
  {
    hide IsPower;
    if EndsFraction(s) {
      var k: nat :| k <= |s| && AreDigits(s[..k]) && IsExponent(s[k..]);
      if k == 0 {
        assert s[0..] == s;
      } else {
        DigitsStep(s[..k]);
        assert s[..k][1..] == s[1..][..k - 1] && s[k..] == s[1..][k - 1..] && s[..k][0] == s[0];
      }
    }
    if IsExponent(s) {
      assert s[..0] == "" && s[0..] == s;
    }
    if '0' <= s[0] <= '9' && EndsFraction(s[1..]) {
      var k: nat :| k <= |s[1..]| && AreDigits(s[1..][..k]) && IsExponent(s[1..][k..]);
      assert s[..k + 1][1..] == s[1..][..k] && s[k + 1..] == s[1..][k..] && s[..k + 1][0] == s[0];
      DigitsStep(s[..k + 1]);
    }
  }

  /** What may stand behind the integer. */
  ghost predicate EndsNumber(s: string) {
    exists k: nat :: k <= |s| && IsFraction(s[..k]) && IsExponent(s[k..])
  }

  lemma AcceptsTail(s: string)
    ensures Accepts(s, AfterZero) <==> EndsNumber(s)
    ensures Accepts(s, InInteger) <==> EndsNumber(s) || (s != "" && IsDigit(s[0]) && Accepts(s[1..], InInteger))
  {
    if s != "" {
      AcceptsStep(s, AfterZero);
      AcceptsStep(s, InInteger);
      AcceptsPower(s[1..]);
      AcceptsPoint(s[1..]);
      TailStep(s);
    } else {
      assert s[..0] == "" && s[0..] == "";
    }
  }

  lemma AcceptsPoint(s: string)
    ensures Accepts(s, AfterPoint) <==> s != "" && IsDigit(s[0]) && EndsFraction(s[1..])
  {
    if s != "" {
      AcceptsStep(s, AfterPoint);
      AcceptsFraction(s[1..]);
    }
  }

  lemma TailStep(s: string)
    requires s != ""
    ensures EndsNumber(s)
            <==> IsExponent(s) || (s[0] == '.' && s[1..] != "" && IsDigit(s[1]) && EndsFraction(s[1..][1..]))
  {
    hide IsPower;
    if EndsNumber(s) {
      var k: nat :| k <= |s| && IsFraction(s[..k]) && IsExponent(s[k..]);
      if k == 0 {
        assert s[0..] == s;
      } else {
        var digits := s[..k][1..];
        DigitsStep(digits);
        assert digits[0] == s[1] && digits[1..] == s[1..][1..][..k - 2] && s[k..] == s[1..][1..][k - 2..];
      }
    }
    if IsExponent(s) {
      assert s[..0] == "" && s[0..] == s;
    }
    if s[0] == '.' && s[1..] != "" && IsDigit(s[1]) && EndsFraction(s[1..][1..]) {
      var rest := s[1..][1..];
      var k: nat :| k <= |rest| && AreDigits(rest[..k]) && IsExponent(rest[k..]);
      var digits := s[..k + 2][1..];
      assert digits[0] == s[1] && digits[1..] == rest[..k] && s[k + 2..] == rest[k..];
      DigitsStep(digits);
      assert IsFraction(s[..k + 2]);
    }
  }

  /** More digits, and what may stand behind them. */
  ghost predicate EndsInteger(s: string) {
    exists i: nat :: i <= |s| && AreDigits(s[..i]) && EndsNumber(s[i..])
  }

  lemma {:induction false} AcceptsInteger(s: string)
    ensures Accepts(s, InInteger) <==> EndsInteger(s)
    decreases |s|
  {
    hide Accepts, EndsNumber;
    AcceptsTail(s);
    if s != "" {
      AcceptsInteger(s[1..]);
    }
    IntegerStep(s);
  }

  lemma IntegerStep(s: string)
    ensures EndsInteger(s) <==> EndsNumber(s) || (s != "" && IsDigit(s[0]) && EndsInteger(s[1..]))
  {
    hide EndsNumber;
    if EndsInteger(s) {
      var i: nat :| i <= |s| && AreDigits(s[..i]) && EndsNumber(s[i..]);
      if i == 0 {
        assert s[0..] == s;
      } else {
        DigitsStep(s[..i]);
        assert s[..i][1..] == s[1..][..i - 1] && s[i..] == s[1..][i - 1..] && s[..i][0] == s[0];
      }
    }
    if EndsNumber(s) {
      assert s[..0] == "" && s[0..] == s;
    }
    if s != "" && IsDigit(s[0]) && EndsInteger(s[1..]) {
      var i: nat :| i <= |s[1..]| && AreDigits(s[1..][..i]) && EndsNumber(s[1..][i..]);
      assert s[..i + 1][1..] == s[1..][..i] && s[i + 1..] == s[1..][i..] && s[..i + 1][0] == s[0];
      DigitsStep(s[..i + 1]);
    }
  }

  lemma AcceptsUnsigned(s: string)
    ensures Accepts(s, AfterMinus) <==> StartsUnsigned(s)
  {
    hide EndsNumber, EndsInteger;
    if s != "" {
      AcceptsStep(s, AfterMinus);
      AcceptsTail(s[1..]);
      AcceptsInteger(s[1..]);
    }
  }

  /** A number without its sign. */
  ghost predicate IsUnsigned(s: string) {
    exists i: nat, k: nat :: CutsAt(s, i, k)
  }

  ghost predicate StartsUnsigned(s: string) {
    s != "" && IsDigit(s[0]) && if s[0] == '0' then EndsNumber(s[1..]) else EndsInteger(s[1..])
  }

  lemma UnsignedStarts(s: string, i: nat, k: nat)
    requires CutsAt(s, i, k)
    ensures StartsUnsigned(s)
  {
    hide IsFraction, IsExponent;
    DigitsStep(s[..i]);
    assert s[..i][0] == s[0] && s[..i][1..] == s[1..][..i - 1];
    var rest := s[i..];
    assert rest == s[1..][i - 1..] && rest[..k - i] == s[i..k] && rest[k - i..] == s[k..];
    assert EndsNumber(rest);
    if s[0] != '0' {
      assert EndsInteger(s[1..]);
    }
  }

  lemma IntegerIs(s: string, i: nat)
    requires i < |s| && IsDigit(s[0]) && AreDigits(s[1..][..i]) && (s[0] == '0' ==> i == 0)
    ensures IsInteger(s[..i + 1])
  {
    assert s[..i + 1][0] == s[0] && s[..i + 1][1..] == s[1..][..i];
    DigitsStep(s[..i + 1]);
  }

  lemma NumberCuts(s: string, i: nat)
    requires i <= |s| && IsInteger(s[..i]) && EndsNumber(s[i..])
    ensures IsUnsigned(s)
  {
    hide IsFraction, IsExponent, IsInteger;
    var rest := s[i..];
    var k: nat :| k <= |rest| && IsFraction(rest[..k]) && IsExponent(rest[k..]);
    assert s[i..i + k] == rest[..k] && s[i + k..] == rest[k..];
    assert CutsAt(s, i, i + k);
  }

  lemma StartsAreUnsigned(s: string)
    requires StartsUnsigned(s)
    ensures IsUnsigned(s)
  {
    hide EndsNumber, IsInteger, IsUnsigned;
    if s[0] == '0' {
      IntegerIs(s, 0);
      NumberCuts(s, 1);
    } else {
      var i: nat :| i <= |s[1..]| && AreDigits(s[1..][..i]) && EndsNumber(s[1..][i..]);
      IntegerIs(s, i);
      assert s[1..][i..] == s[i + 1..];
      NumberCuts(s, i + 1);
    }
  }

  lemma UnsignedCuts(s: string)
    ensures IsUnsigned(s) <==> StartsUnsigned(s)
  {
    hide CutsAt, StartsUnsigned;
    if i: nat, k: nat :| CutsAt(s, i, k) {
      UnsignedStarts(s, i, k);
    }
    if StartsUnsigned(s) {
      StartsAreUnsigned(s);
    }
  }

  /** The parser reads exactly the numbers of section 6 of RFC 8259. */
  lemma NumbersAreThose(s: string)
    ensures IsNumber(s) <==> IsRfcNumber(s)
  {
    hide IsUnsigned, StartsUnsigned;
    var u := if s != "" && s[0] == '-' then s[1..] else s;
    UnsignedCuts(u);
    AcceptsUnsigned(u);
    if s != "" {
      AcceptsStep(s, NumberStart);
      if s[0] != '-' {
        AcceptsStep(s, AfterMinus);
      }
    }
  }
}
