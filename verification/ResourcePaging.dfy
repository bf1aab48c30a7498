/** Reading a text resource in pages that fit a tool budget (src/actor_app.rs, `read_resource`). */
module ResourcePaging {
  import opened Wrappers
  import TokenBudget
  import opened Usize
  import opened Utf8

  datatype Page = Page(offset: nat, nextOffset: Option<nat>, content: seq<byte>)

  datatype ResourceError = InvalidQuery | NotText | InvalidOffset | CharacterDoesNotFit | MetadataDoesNotFit

  /** The length of a page once it is serialised; the serialiser itself is not modelled. */
  type Encoding = Page -> nat

  function Budget(maxTokens: nat): nat {
    SaturatingMul(if maxTokens < 1 then 1 else maxTokens, TokenBudget.BYTES_PER_TOKEN)
  }

  function PageTo(text: seq<byte>, start: nat, end: nat): Page
    requires start <= end <= |text|
  {
    Page(start, if end < |text| then Some(end) else None, text[start..end])
  }

  predicate Fits(text: seq<byte>, start: nat, end: nat, budget: nat, size: Encoding)
    requires start <= end <= |text|
  {
    size(PageTo(text, start, end)) <= budget
  }

  function Half(start: nat, end: nat): (r: nat)
    requires start <= end
    ensures start <= r <= end && (start < end ==> r < end) && 2 * (r - start) <= end - start < 2 * (r - start) + 2
  {
    start + (end - start) / 2
  }

  /** The last whole character that starts and ends in the stretch. */
  function Cut(text: seq<byte>, start: nat, end: nat): (r: nat)
    requires start <= end <= |text| && IsBoundary(text, start)
    ensures start <= r <= end && IsBoundary(text, r)
  {
    FloorReaches(text, end, start);
    Floor(text, end)
  }

  /** The page that the shrinking finds when it may reach up to `end`. */
  function Shrink(text: seq<byte>, start: nat, end: nat, budget: nat, size: Encoding): Result<Page, ResourceError>
    requires start <= end <= |text| && IsBoundary(text, start)
    decreases end - start
  {
    var cut := Cut(text, start, end);
    if cut == start && start < |text| then Err(CharacterDoesNotFit)
    else if Fits(text, start, cut, budget, size) then Ok(PageTo(text, start, cut))
    else if cut == start then Err(MetadataDoesNotFit)
    else Shrink(text, start, Half(start, cut), budget, size)
  }

  function ReadPage(bytes: seq<byte>, limit: nat, offset: Option<nat>, maxTokens: nat, size: Encoding)
    : Result<Page, ResourceError>
  {
    if limit == 0 || limit > 65536 then Err(InvalidQuery)
    else if !Valid(bytes) then Err(NotText)
    else
      var start := if offset.Some? then offset.value else 0;
      if start > |bytes| || !IsBoundary(bytes, start) then Err(InvalidOffset)
      else Shrink(bytes, start, Reach(bytes, start, limit, Budget(maxTokens)), Budget(maxTokens), size)
  }

  function Reach(bytes: seq<byte>, start: nat, limit: nat, budget: nat): (r: nat)
    requires start <= |bytes|
    ensures start <= r <= |bytes| && r - start <= Min(limit, budget)
  {
    start + Min(|bytes| - start, Min(limit, budget))
  }

  method ReadResource(bytes: seq<byte>, limit: nat, offset: Option<nat>, maxTokens: nat, size: Encoding)
    returns (r: Result<Page, ResourceError>)
    requires |bytes| <= ISIZE_MAX
    ensures r == ReadPage(bytes, limit, offset, maxTokens, size)
  {
    if limit == 0 || limit > 65536 {
      return Err(InvalidQuery);
    }
    if !Valid(bytes) {
      return Err(NotText);
    }
    var start := match offset case None => 0 case Some(o) => o;
    if start > |bytes| || !IsBoundary(bytes, start) {
      return Err(InvalidOffset);
    }
    var budget := Budget(maxTokens);
    var end := Min(|bytes|, SaturatingAdd(start, Min(limit, budget)));
    assert end == Reach(bytes, start, limit, budget);
    r := ShrinkPage(bytes, start, end, budget, size);
  }

  /** The loop that halves the page until it fits. */
  method ShrinkPage(text: seq<byte>, start: nat, reach: nat, budget: nat, size: Encoding)
    returns (r: Result<Page, ResourceError>)
    requires start <= reach <= |text| && IsBoundary(text, start)
    ensures r == Shrink(text, start, reach, budget, size)
  {
    var end := reach;
    while true
      invariant start <= end <= |text|
      invariant Shrink(text, start, end, budget, size) == Shrink(text, start, reach, budget, size)
      decreases end - start
    {
      ghost var cut := Cut(text, start, end);
      end := FloorToBoundary(text, end);
      assert end == cut;
      if end == start && start < |text| {
        return Err(CharacterDoesNotFit);
      }
      var next := if end < |text| then Some(end) else None;
      var page := Page(start, next, text[start..end]);
      assert page == PageTo(text, start, end);
      if size(page) <= budget {
        return Ok(page);
      }
      if end == start {
        return Err(MetadataDoesNotFit);
      }
      end := start + (end - start) / 2;
      assert end == Half(start, cut);
    }
  }

  // What a page promises.

  /** The page is a stretch of whole characters from `start`, it fits the budget, and it advances. */
  ghost predicate GoodPage(page: Page, text: seq<byte>, start: nat, most: nat, budget: nat, size: Encoding) {
    var end := start + |page.content|;
    && size(page) <= budget && |page.content| <= most
    && page.offset == start && end <= |text| && page.content == text[start..end]
    && IsBoundary(text, end) && Valid(page.content)
    && (page.nextOffset == if end == |text| then None else Some(end))
    && (start < |text| ==> end > start)
  }

  lemma PageIsGood(text: seq<byte>, start: nat, end: nat, most: nat, budget: nat, size: Encoding)
    requires Valid(text) && start <= end <= |text| && IsBoundary(text, start) && IsBoundary(text, end)
    requires Fits(text, start, end, budget, size) && end - start <= most && (start < |text| ==> end > start)
    ensures GoodPage(PageTo(text, start, end), text, start, most, budget, size)
  {
    hide Valid, IsBoundary;
    SliceIsText(text, start, end);
  }

  lemma {:induction false} ShrinkMakesGoodPages(text: seq<byte>, start: nat, end: nat, most: nat, budget: nat,
                                                size: Encoding)
    requires Valid(text) && start <= end <= |text| && IsBoundary(text, start) && end - start <= most
    requires Shrink(text, start, end, budget, size).Ok?
    ensures GoodPage(Shrink(text, start, end, budget, size).value, text, start, most, budget, size)
    decreases end - start
  {
    var cut := Cut(text, start, end);
    if Fits(text, start, cut, budget, size) {
      PageIsGood(text, start, cut, most, budget, size);
    } else {
      ShrinkMakesGoodPages(text, start, Half(start, cut), most, budget, size);
    }
  }

  /** The complaint about the metadata is made only for an empty page at the end of the text. */
  lemma {:induction false} ShrinkFails(text: seq<byte>, start: nat, end: nat, budget: nat, size: Encoding)
    requires start <= end <= |text| && IsBoundary(text, start) && Shrink(text, start, end, budget, size).Err?
    ensures start == |text| ==> Shrink(text, start, end, budget, size) == Err(MetadataDoesNotFit)
    ensures start < |text| ==> Shrink(text, start, end, budget, size) == Err(CharacterDoesNotFit)
    decreases end - start
  {
    var cut := Cut(text, start, end);
    if cut > start {
      ShrinkFails(text, start, Half(start, cut), budget, size);
    }
  }

  /** Every page read fits both the limit and the budget, and advances when text is left. */
  lemma PagesAreGood(bytes: seq<byte>, limit: nat, offset: Option<nat>, maxTokens: nat, size: Encoding)
    requires ReadPage(bytes, limit, offset, maxTokens, size).Ok?
    ensures var start := if offset.Some? then offset.value else 0;
            GoodPage(ReadPage(bytes, limit, offset, maxTokens, size).value, bytes, start,
                     Min(limit, Budget(maxTokens)), Budget(maxTokens), size)
  {
    var start := if offset.Some? then offset.value else 0;
    var budget := Budget(maxTokens);
    ShrinkMakesGoodPages(bytes, start, Reach(bytes, start, limit, budget), Min(limit, budget), budget, size);
  }

  // When a page is found.

  /** The length of the first character from `start` on. */
  function FirstCharacter(text: seq<byte>, start: nat): nat
    requires start <= |text|
  {
    CharLength(text[start..])
  }

  lemma FloorOfFirstCharacter(text: seq<byte>, start: nat, end: nat)
    requires Valid(text) && start < |text| && start <= end <= |text| && IsBoundary(text, start)
    ensures var c := FirstCharacter(text, start);
            c > 0 && start + c <= |text| && IsBoundary(text, start + c)
            && (Floor(text, end) == start <==> end < start + c)
            && (end >= start + c ==> Floor(text, end) >= start + c)
  {
    SplitAtBoundary(text, start);
    var rest, c := text[start..], FirstCharacter(text, start);
    CharShape(rest);
    assert forall k :: 0 <= k < |rest| ==> rest[k] == text[start + k];
    if c < |rest| {
      CharShape(rest[c..]);
      assert rest[c..][0] == text[start + c];
    }
    if end >= start + c {
      FloorReaches(text, end, start + c);
    } else {
      forall k | start < k <= end ensures !IsBoundary(text, k) {
        assert Continuation(rest[k - start]);
      }
      FloorIs(text, end, start);
    }
  }

  /** Every page of at least `c`, less than `2 * c` and at most `most` bytes of whole characters fits. */
  ghost predicate ShortPagesFit(text: seq<byte>, start: nat, c: nat, most: nat, budget: nat, size: Encoding) {
    forall k: nat :: start + c <= k < start + 2 * c && k <= |text| && k <= start + most && IsBoundary(text, k) ==>
                       Fits(text, start, k, budget, size)
  }

  /**
   * A page is found when the first character is within reach and every page shorter than two of it fits. It is
   * not enough that the one-character page fits, because halving can skip it: see HalvingSkips.
   */
  lemma {:induction false} SmallPagesSuffice(text: seq<byte>, start: nat, end: nat, most: nat, budget: nat,
                                             size: Encoding)
    requires Valid(text) && start < |text| && start <= end <= |text| && IsBoundary(text, start)
    requires start + FirstCharacter(text, start) <= end <= start + most
    requires ShortPagesFit(text, start, FirstCharacter(text, start), most, budget, size)
    ensures Shrink(text, start, end, budget, size).Ok?
    decreases end - start
  {
    FloorOfFirstCharacter(text, start, end);
    var cut := Cut(text, start, end);
    if !Fits(text, start, cut, budget, size) {
      assert cut >= start + 2 * FirstCharacter(text, start);
      SmallPagesSuffice(text, start, Half(start, cut), most, budget, size);
    }
  }

  /** Behind a short page that does not fit, the halving goes back before the end of the first character. */
  lemma ShortPageIsNeeded(text: seq<byte>, start: nat, k: nat, budget: nat, size: Encoding)
    requires Valid(text) && start < |text| && start <= k <= |text| && IsBoundary(text, start) && IsBoundary(text, k)
    requires start + FirstCharacter(text, start) <= k < start + 2 * FirstCharacter(text, start)
    requires Shrink(text, start, k, budget, size).Ok?
    ensures Fits(text, start, k, budget, size)
  {
    FloorReaches(text, k, k);
    assert Cut(text, start, k) == k;
    FloorOfFirstCharacter(text, start, Half(start, k));
  }

  /** Every reach that holds the first character finds a page. */
  ghost predicate ReachesFind(text: seq<byte>, start: nat, most: nat, budget: nat, size: Encoding)
    requires start <= |text| && IsBoundary(text, start)
  {
    forall end: nat :: start + FirstCharacter(text, start) <= end <= |text| && end <= start + most ==>
                         Shrink(text, start, end, budget, size).Ok?
  }

  /** A page is found from every reach exactly when every page shorter than two of its first character fits. */
  lemma ShortPagesAreExact(text: seq<byte>, start: nat, most: nat, budget: nat, size: Encoding)
    requires Valid(text) && start < |text| && IsBoundary(text, start)
    ensures ShortPagesFit(text, start, FirstCharacter(text, start), most, budget, size)
            <==> ReachesFind(text, start, most, budget, size)
  {
    hide Shrink, Fits, FirstCharacter, IsBoundary;
    var c := FirstCharacter(text, start);
    if ShortPagesFit(text, start, c, most, budget, size) {
      forall end: nat | start + c <= end <= |text| && end <= start + most
        ensures Shrink(text, start, end, budget, size).Ok?
      {
        SmallPagesSuffice(text, start, end, most, budget, size);
      }
    }
    if ReachesFind(text, start, most, budget, size) {
      forall k: nat | start + c <= k < start + 2 * c && k <= |text| && k <= start + most && IsBoundary(text, k)
        ensures Fits(text, start, k, budget, size)
      {
        ShortPageIsNeeded(text, start, k, budget, size);
      }
    }
  }

  /** Whether a call with this limit, which a caller is free to choose, reads a page. */
  predicate Reads(bytes: seq<byte>, limit: nat, start: nat, maxTokens: nat, size: Encoding) {
    ReadPage(bytes, limit, Some(start), maxTokens, size).Ok?
  }

  /**
   * The reader finds a page for every limit that lets the first character through exactly when all the short
   * pages within the budget fit it.
   */
  lemma ReadsAtEveryLimit(bytes: seq<byte>, start: nat, maxTokens: nat, size: Encoding)
    requires Valid(bytes) && start < |bytes| && IsBoundary(bytes, start)
    ensures var c := FirstCharacter(bytes, start);
            (forall limit: nat :: c <= limit <= 65536 ==> Reads(bytes, limit, start, maxTokens, size))
            <==> ShortPagesFit(bytes, start, c, Budget(maxTokens), Budget(maxTokens), size)
  {
    hide Shrink, Fits, FirstCharacter, IsBoundary, Valid;
    var c, budget := FirstCharacter(bytes, start), Budget(maxTokens);
    FirstCharacterIsShort(bytes, start);
    ShortPagesAreExact(bytes, start, budget, budget, size);
    if ShortPagesFit(bytes, start, c, budget, budget, size) {
      forall limit: nat | c <= limit <= 65536 ensures Reads(bytes, limit, start, maxTokens, size) {
        assert Shrink(bytes, start, Reach(bytes, start, limit, budget), budget, size).Ok?;
      }
    }
    if forall limit: nat :: c <= limit <= 65536 ==> Reads(bytes, limit, start, maxTokens, size) {
      forall k: nat | start + c <= k < start + 2 * c && k <= |bytes| && k <= start + budget && IsBoundary(bytes, k)
        ensures Fits(bytes, start, k, budget, size)
      {
        assert Reads(bytes, k - start, start, maxTokens, size);
        assert Reach(bytes, start, k - start, budget) == k;
        ShortPageIsNeeded(bytes, start, k, budget, size);
      }
    }
  }

  lemma FirstCharacterIsShort(text: seq<byte>, start: nat)
    requires Valid(text) && start < |text| && IsBoundary(text, start)
    ensures 1 <= FirstCharacter(text, start) <= 4 && start + FirstCharacter(text, start) <= |text|
  {
    SplitAtBoundary(text, start);
  }

  // An input that shows why the page of one character is not enough.

  function Digits(n: nat): nat {
    |TokenBudget.Decimal(n)|
  }

  /**
   * The length of a page as JSON, when neither the names nor the content need an escape: 80 characters for the six
   * keys and the punctuation, the identifier, the locator of 22 more characters that repeats it, and the rest.
   */
  function Plain(id: string, actor: string, total: nat): Encoding {
    (page: Page) =>
      80 + |id| + (22 + |actor| + |id|) + Digits(total) + Digits(page.offset) + |page.content|
      + if page.nextOffset.None? then |"null"| else Digits(page.nextOffset.value)
  }

  /** A euro sign and a letter. */
  const TWO_CHARACTERS: seq<byte> := [0xE2, 0x82, 0xAC, 0x61]

  function Tokens(id: string, actor: string): nat {
    (111 + 2 * |id| + |actor|) / 4
  }

  /**
   * Both characters together do not fit and the first alone does, as a smaller limit shows; but halving from behind
   * the second lands inside the first, and the reader gives up.
   */
  lemma HalvingSkips(id: string, actor: string, limit: nat)
    requires 2 * |id| + |actor| <= ISIZE_MAX && 3 <= limit <= 65536
    ensures Valid(TWO_CHARACTERS)
    ensures ReadPage(TWO_CHARACTERS, limit, None, Tokens(id, actor), Plain(id, actor, 4))
            == if limit == 3 then Ok(Page(0, Some(3), TWO_CHARACTERS[..3])) else Err(CharacterDoesNotFit)
  {
    var text, tokens, size := TWO_CHARACTERS, Tokens(id, actor), Plain(id, actor, 4);
    assert CharLength(text) == 3 && text[3..] == [0x61] && Valid(text[3..]);
    assert Continuation(text[1]) && Continuation(text[2]) && !Continuation(text[3]);
    assert Budget(tokens) == 4 * tokens;
    assert text[0..3] == text[..3] && text[0..4] == text;
    assert size(PageTo(text, 0, 3)) == 108 + 2 * |id| + |actor|;
    assert size(PageTo(text, 0, 4)) == 112 + 2 * |id| + |actor|;
    assert Floor(text, 4) == 4 && Floor(text, 3) == 3;
    assert Floor(text, 2) == 0 by {
      FloorIs(text, 2, 0);
    }
  }

  // Following the offsets.

  /** The contents of the pages from `start` on, joined; None when a page cannot be made. */
  ghost function Follow(bytes: seq<byte>, limits: nat -> nat, tokens: nat -> nat, size: Encoding, n: nat, start: nat)
    : Option<seq<byte>>
    requires start <= |bytes|
    decreases |bytes| - start
  {
    match ReadPage(bytes, limits(n), Some(start), tokens(n), size)
    case Err(_) => None
    case Ok(page) =>
      PagesAreGood(bytes, limits(n), Some(start), tokens(n), size);
      if page.nextOffset.None? then Some(page.content)
      else
        match Follow(bytes, limits, tokens, size, n + 1, page.nextOffset.value)
        case None => None
        case Some(rest) => Some(page.content + rest)
  }

  /** Pages that can all be made give back the whole text. */
  lemma {:induction false} FollowReadsTheText(bytes: seq<byte>, limits: nat -> nat, tokens: nat -> nat, size: Encoding,
                                              n: nat, start: nat)
    requires start <= |bytes| && Follow(bytes, limits, tokens, size, n, start).Some?
    ensures Follow(bytes, limits, tokens, size, n, start).value == bytes[start..]
    decreases |bytes| - start
  {
    hide ReadPage, Valid, IsBoundary;
    PagesAreGood(bytes, limits(n), Some(start), tokens(n), size);
    var page := ReadPage(bytes, limits(n), Some(start), tokens(n), size).value;
    if page.nextOffset.Some? {
      var next := page.nextOffset.value;
      FollowReadsTheText(bytes, limits, tokens, size, n + 1, next);
      JoinText(bytes, start, next);
    } else {
      JoinText(bytes, start, |bytes|);
    }
  }

  lemma JoinText(text: seq<byte>, start: nat, mid: nat)
    requires start <= mid <= |text|
    ensures text[start..mid] + text[mid..] == text[start..]
    ensures mid == |text| ==> text[start..mid] == text[start..]
  {
  }

  // How much a page holds.

  /** A token is worth four bytes, and there is at least one token. */
  lemma BudgetIsFourfold(maxTokens: nat)
    ensures maxTokens == 0 ==> Budget(maxTokens) == 4
    ensures 0 < maxTokens <= 0x3FFF_FFFF_FFFF_FFFF ==> Budget(maxTokens) == 4 * maxTokens
    ensures maxTokens > 0x3FFF_FFFF_FFFF_FFFF ==> Budget(maxTokens) == 0xFFFF_FFFF_FFFF_FFFF
  {
  }

  /** A longer page, up to the reach, does not fit, and this one is its half but for part of a character. */
  ghost predicate IsHalved(text: seq<byte>, start: nat, end: nat, reach: nat, budget: nat, size: Encoding) {
    exists tried: nat :: end < tried <= reach && reach <= |text| && start <= tried && IsBoundary(text, tried)
                         && !Fits(text, start, tried, budget, size) && tried - start < 2 * (end - start) + 8
  }

  lemma {:induction false} ShrinkTakesMost(text: seq<byte>, start: nat, reach: nat, budget: nat, size: Encoding)
    requires Valid(text) && start <= reach <= |text| && IsBoundary(text, start)
    requires Shrink(text, start, reach, budget, size).Ok?
    ensures var end := start + |Shrink(text, start, reach, budget, size).value.content|;
            && start <= end <= reach && IsBoundary(text, end)
            && (end == Floor(text, reach) || IsHalved(text, start, end, reach, budget, size))
    decreases reach - start
  {
    hide Valid, IsBoundary;
    var cut := Cut(text, start, reach);
    if !Fits(text, start, cut, budget, size) {
      var half := Half(start, cut);
      ShrinkTakesMost(text, start, half, budget, size);
      var end := start + |Shrink(text, start, half, budget, size).value.content|;
      if end == Floor(text, half) {
        FloorIsNear(text, half);
        assert cut - start < 2 * (end - start) + 8;
      }
    }
  }

  /**
   * A page reaches to the last whole character within the limit, the budget and the text, or is half of a longer one
   * that does not fit.
   */
  lemma PageTakesMost(bytes: seq<byte>, limit: nat, offset: Option<nat>, maxTokens: nat, size: Encoding)
    requires ReadPage(bytes, limit, offset, maxTokens, size).Ok?
    ensures var start := if offset.Some? then offset.value else 0;
            var budget := Budget(maxTokens);
            var reach := Min(|bytes|, start + Min(limit, budget));
            var end := start + |ReadPage(bytes, limit, offset, maxTokens, size).value.content|;
            && start <= end <= reach && IsBoundary(bytes, end)
            && (|| (forall k: nat :: end < k <= reach ==> !IsBoundary(bytes, k))
                || IsHalved(bytes, start, end, reach, budget, size))
  {
    hide Shrink, IsHalved, Valid;
    var start := if offset.Some? then offset.value else 0;
    var budget := Budget(maxTokens);
    ShrinkTakesMost(bytes, start, Reach(bytes, start, limit, budget), budget, size);
  }

  /** The requests that are refused before a page is tried, each with its complaint. */
  lemma RequestIsChecked(bytes: seq<byte>, limit: nat, offset: Option<nat>, maxTokens: nat, size: Encoding)
    ensures var r, start := ReadPage(bytes, limit, offset, maxTokens, size), if offset.Some? then offset.value else 0;
            && (r == Err(InvalidQuery) <==> limit == 0 || limit > 65536)
            && (r == Err(NotText) <==> 1 <= limit <= 65536 && !Valid(bytes))
            && (r == Err(InvalidOffset)
                <==> 1 <= limit <= 65536 && Valid(bytes) && (start > |bytes| || !IsBoundary(bytes, start)))
  {
    hide Valid, IsBoundary, Shrink;
    var start, budget := if offset.Some? then offset.value else 0, Budget(maxTokens);
    if 1 <= limit <= 65536 && Valid(bytes) && start <= |bytes| && IsBoundary(bytes, start) {
      var end := Reach(bytes, start, limit, budget);
      if Shrink(bytes, start, end, budget, size).Err? {
        ShrinkFails(bytes, start, end, budget, size);
      }
    }
  }
}
