/** Cutting a text down to a token budget, with a marker that says how much is missing (src/context_budget.rs). */
module TokenBudget {
  import opened Usize
  import opened Utf8

  const BYTES_PER_TOKEN: nat := 4

  /** How many tokens a text is taken to cost. */
  function ApproxTokenCount(text: seq<byte>): nat {
    SaturatingAdd(|text|, SaturatingSub(BYTES_PER_TOKEN, 1)) / BYTES_PER_TOKEN
  }

  predicate Digits(s: seq<byte>) {
    forall i :: 0 <= i < |s| ==> 0x30 <= s[i] <= 0x39
  }

  function Decimal(n: nat): (r: seq<byte>)
    ensures r != [] && Digits(r)
  {
    if n < 10 then [(0x30 + n) as byte] else Decimal(n / 10) + [(0x30 + n % 10) as byte]
  }

  function Numeral(digits: seq<byte>): nat
    requires Digits(digits)
  {
    if digits == [] then 0
    else 10 * Numeral(digits[..|digits| - 1]) + (digits[|digits| - 1] - 0x30) as nat
  }

  const LINE_FEED: seq<byte> := [0x0A]

  /** " (" */
  const OPENING: seq<byte> := [0x20, 0x28]

  /** " chars omitted)" */
  const CLOSING: seq<byte> :=
    [0x20, 0x63, 0x68, 0x61, 0x72, 0x73, 0x20, 0x6F, 0x6D, 0x69, 0x74, 0x74, 0x65, 0x64, 0x29]

  function Marker(notice: seq<byte>, omitted: nat): seq<byte> {
    notice + OPENING + Decimal(omitted) + CLOSING
  }

  /** The longest prefix of whole characters that has at most so many bytes. */
  function Prefix(text: seq<byte>, bytes: nat): seq<byte> {
    text[..Floor(text, Min(|text|, bytes))]
  }

  method Utf8Prefix(text: seq<byte>, bytes: nat) returns (r: seq<byte>)
    ensures r == Prefix(text, bytes)
  {
    var end := FloorToBoundary(text, Min(|text|, bytes));
    return text[..end];
  }

  function MaxBytes(maxTokens: nat): nat {
    SaturatingMul(maxTokens, BYTES_PER_TOKEN)
  }

  /** How much of the text is kept when it has to be cut. */
  function Kept(text: seq<byte>, maxBytes: nat, notice: seq<byte>): (r: nat)
    requires Valid(text)
    ensures r <= |text| && IsBoundary(text, r)
  {
    Floor(text, Min(SaturatingSub(maxBytes, |Marker(notice, CharCount(text))| + 1), |text|))
  }

  function Omitted(text: seq<byte>, kept: nat): nat
    requires Valid(text) && kept <= |text| && IsBoundary(text, kept)
  {
    CharsAround(text, kept);
    CharCount(text[kept..])
  }

  lemma CharsAround(text: seq<byte>, i: nat)
    requires Valid(text) && i <= |text| && IsBoundary(text, i)
    ensures Valid(text[..i]) && Valid(text[i..])
    ensures CharCount(text) == CharCount(text[..i]) + CharCount(text[i..])
  {
    SplitAtBoundary(text, i);
    Concat(text[..i], text[i..]);
    assert text[..i] + text[i..] == text;
  }

  /** The text itself; else its prefix and the exact marker; else what fits of the marker. */
  ghost predicate Truncated(text: seq<byte>, maxTokens: nat, notice: seq<byte>, result: seq<byte>)
    requires Valid(text)
  {
    var maxBytes := MaxBytes(maxTokens);
    if |text| <= maxBytes then result == text
    else
      var kept := Kept(text, maxBytes, notice);
      var marker := Marker(notice, Omitted(text, kept));
      result == if |marker| + 1 > maxBytes then Prefix(marker, maxBytes)
                else text[..kept] + LINE_FEED + marker
  }

  // A number never has more digits than a greater one, and its digits stand for it.

  lemma {:induction false} DecimalWidth(a: nat, b: nat)
    requires a <= b
    ensures |Decimal(a)| <= |Decimal(b)|
    decreases b
  {
    if a >= 10 {
      DecimalWidth(a / 10, b / 10);
    }
  }

  lemma {:induction false} DecimalMeans(n: nat)
    ensures Numeral(Decimal(n)) == n
  {
    if n >= 10 {
      DecimalMeans(n / 10);
      assert Decimal(n)[..|Decimal(n)| - 1] == Decimal(n / 10);
    } else {
      assert Decimal(n)[..0] == [];
    }
  }

  /** The room that is left for the text is enough for the final marker: the last cut cuts nothing. */
  lemma MarkerFits(text: seq<byte>, maxBytes: nat, notice: seq<byte>)
    requires Valid(text)
    ensures var kept := Kept(text, maxBytes, notice);
            var marker := Marker(notice, Omitted(text, kept));
            && (kept > 0 ==> |marker| + 1 <= maxBytes)
            && (|marker| + 1 <= maxBytes ==> kept + 1 + |marker| <= maxBytes)
  {
    var kept := Kept(text, maxBytes, notice);
    CharsAround(text, kept);
    DecimalWidth(Omitted(text, kept), CharCount(text));
  }

  lemma WholePrefix(text: seq<byte>, bytes: nat)
    requires |text| <= bytes
    ensures Prefix(text, bytes) == text
  {
  }

  method TruncateTextToTokenBudgetWithNotice(text: Text, maxTokens: nat, notice: Text) returns (r: seq<byte>)
    ensures Truncated(text, maxTokens, notice, r)
  {
    var maxBytes := SaturatingMul(maxTokens, BYTES_PER_TOKEN);
    if |text| <= maxBytes {
      return text;
    }
    var total := CharCount(text);
    var marker := Marker(notice, total);
    var end := FloorToBoundary(text, Min(SaturatingSub(maxBytes, |marker| + 1), |text|));
    CharsAround(text, end);
    marker := Marker(notice, total - CharCount(text[..end]));
    assert end == Kept(text, maxBytes, notice) && total - CharCount(text[..end]) == Omitted(text, end);
    MarkerFits(text, maxBytes, notice);
    if |marker| + 1 > maxBytes {
      r := Utf8Prefix(marker, maxBytes);
      return;
    }
    var result := text[..end] + LINE_FEED + marker;
    WholePrefix(result, maxBytes);
    r := Utf8Prefix(result, maxBytes);
  }

  // What the result is worth.

  lemma TokensWithinBytes(s: seq<byte>, maxTokens: nat)
    requires |s| <= MaxBytes(maxTokens)
    ensures ApproxTokenCount(s) <= maxTokens
  {
  }

  /** The estimate of the result never exceeds the budget. */
  lemma EstimateFits(text: seq<byte>, maxTokens: nat, notice: seq<byte>, result: seq<byte>)
    requires Valid(text) && Truncated(text, maxTokens, notice, result)
    ensures |result| <= MaxBytes(maxTokens) && ApproxTokenCount(result) <= maxTokens
  {
    MarkerFits(text, MaxBytes(maxTokens), notice);
    TokensWithinBytes(result, maxTokens);
  }

  /** The text is changed exactly when its estimate exceeds the budget. */
  lemma ChangedWhenOverBudget(text: Text, maxTokens: nat, notice: seq<byte>, result: seq<byte>)
    requires Truncated(text, maxTokens, notice, result)
    ensures ApproxTokenCount(text) <= maxTokens ==> result == text
    ensures ApproxTokenCount(text) > maxTokens ==> result != text
  {
    if |text| <= MaxBytes(maxTokens) {
      TokensWithinBytes(text, maxTokens);
    } else {
      EstimateFits(text, maxTokens, notice, result);
    }
  }

  /**
   * When the text has to be cut and the marker fits, the result is a prefix of whole characters, a line feed and a
   * marker whose number, read back, and the characters kept add up to the whole text.
   */
  lemma CountsAddUp(text: seq<byte>, maxTokens: nat, notice: seq<byte>, result: seq<byte>)
    requires Valid(text) && Truncated(text, maxTokens, notice, result) && |text| > MaxBytes(maxTokens)
    requires |Marker(notice, CharCount(text))| + 1 <= MaxBytes(maxTokens)
    ensures exists kept: nat, count: seq<byte> ::
              && kept <= |text| && IsBoundary(text, kept) && Valid(text[..kept]) && Digits(count)
              && result == text[..kept] + LINE_FEED + (notice + OPENING + count + CLOSING)
              && CharCount(text[..kept]) + Numeral(count) == CharCount(text)
  {
    var kept := Kept(text, MaxBytes(maxTokens), notice);
    CharsAround(text, kept);
    DecimalMeans(Omitted(text, kept));
    DecimalWidth(Omitted(text, kept), CharCount(text));
    var count := Decimal(Omitted(text, kept));
    assert result == text[..kept] + LINE_FEED + (notice + OPENING + count + CLOSING);
  }

  /** What is kept is the most whole characters that leave room for a marker counting the whole text. */
  lemma KeepsTheMost(text: seq<byte>, maxBytes: nat, notice: seq<byte>, more: nat)
    requires Valid(text) && Kept(text, maxBytes, notice) < more <= |text| && IsBoundary(text, more)
    ensures more + 1 + |Marker(notice, CharCount(text))| > maxBytes
  {
  }

  lemma {:induction false} AsciiIsText(s: seq<byte>)
    requires forall i :: 0 <= i < |s| ==> s[i] < 0x80
    ensures Valid(s)
  {
    if s != [] {
      AsciiIsText(s[1..]);
    }
  }

  lemma MarkerIsText(notice: seq<byte>, omitted: nat)
    requires Valid(notice)
    ensures Valid(Marker(notice, omitted))
  {
    AsciiIsText(OPENING);
    AsciiIsText(Decimal(omitted));
    AsciiIsText(CLOSING);
    Concat(notice, OPENING);
    Concat(notice + OPENING, Decimal(omitted));
    Concat(notice + OPENING + Decimal(omitted), CLOSING);
  }

  /** The result never splits a character. */
  lemma ResultIsText(text: seq<byte>, maxTokens: nat, notice: seq<byte>, result: seq<byte>)
    requires Valid(text) && Valid(notice) && Truncated(text, maxTokens, notice, result)
    ensures Valid(result)
  {
    var maxBytes := MaxBytes(maxTokens);
    if |text| > maxBytes {
      var kept := Kept(text, maxBytes, notice);
      CharsAround(text, kept);
      var marker := Marker(notice, Omitted(text, kept));
      MarkerIsText(notice, Omitted(text, kept));
      SplitAtBoundary(marker, Floor(marker, Min(|marker|, maxBytes)));
      AsciiIsText(LINE_FEED);
      Concat(text[..kept], LINE_FEED);
      Concat(text[..kept] + LINE_FEED, marker);
    }
  }

  function Ascii(s: string): seq<byte>
    requires forall i :: 0 <= i < |s| ==> s[i] < '\U{80}'
  {
    seq(|s|, i requires 0 <= i < |s| => s[i] as int as byte)
  }

  /** What a reader of the marker sees. */
  lemma MarkerReads(notice: seq<byte>, omitted: nat)
    ensures Marker(notice, omitted) == notice + Ascii(" (") + Decimal(omitted) + Ascii(" chars omitted)")
    ensures LINE_FEED == Ascii("\n")
  {
    assert Ascii("\n") == LINE_FEED;
    assert Ascii(" (") == OPENING;
    assert Ascii(" chars omitted)") == CLOSING;
  }

  /** The estimate is a quarter of the bytes, rounded up. */
  lemma EstimateIsQuarter(text: Text)
    ensures var tokens := ApproxTokenCount(text); 4 * tokens >= |text| > 4 * (tokens - 1)
  {
  }

  /** When the marker does not fit, the result is the most of it that does, in whole characters. */
  lemma MarkerIsCutLeast(text: seq<byte>, maxTokens: nat, notice: seq<byte>, result: seq<byte>, more: nat)
    requires Valid(text) && Truncated(text, maxTokens, notice, result) && |text| > MaxBytes(maxTokens)
    requires |Marker(notice, CharCount(text))| + 1 > MaxBytes(maxTokens)
    ensures var marker := Marker(notice, CharCount(text));
            && result <= marker && IsBoundary(marker, |result|) && |result| <= MaxBytes(maxTokens)
            && (|result| < more <= |marker| && IsBoundary(marker, more) ==> more > MaxBytes(maxTokens))
  {
    var kept := Kept(text, MaxBytes(maxTokens), notice);
    assert kept == 0;
    assert text[0..] == text;
  }
}
