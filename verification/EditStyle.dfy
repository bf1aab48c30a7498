/** Which line ending the new text of an edit gets, also in files that mix both kinds (src/file_io.rs). */
module EditStyle {
  import opened Wrappers
  import opened Utf8
  import opened LineEndings
  import opened EditBatch
  import opened EditTheorems

  predicate NoLf(s: seq<byte>) {
    forall k :: 0 <= k < |s| ==> s[k] != LF
  }

  predicate IsFirstLf(s: seq<byte>, k: nat) {
    k < |s| && s[k] == LF && forall i :: 0 <= i < k ==> s[i] != LF
  }

  predicate IsBehindCr(s: seq<byte>, k: nat)
    requires k < |s|
  {
    k > 0 && s[k - 1] == CR
  }

  /** Where the line feeds are that a carriage return precedes, or those that none does. */
  function LineFeeds(s: seq<byte>, behindCr: bool): set<nat> {
    set k: nat | k < |s| && s[k] == LF && IsBehindCr(s, k) == behindCr
  }

  function KindOf(behindCr: bool): LineEnding {
    if behindCr then Crlf else Lf
  }

  /** The style of the region that is replaced: that of its first line feed. */
  ghost predicate RegionHas(matched: seq<byte>, style: LineEnding) {
    exists k: nat :: IsFirstLf(matched, k) && style == KindOf(IsBehindCr(matched, k))
  }

  /** The style of the file: the more frequent one, and in a tie that of its first line feed. */
  ghost predicate FileHas(content: seq<byte>, style: LineEnding) {
    var crlf, lf := |LineFeeds(content, true)|, |LineFeeds(content, false)|;
    || (style == Crlf && crlf > lf) || (style == Lf && lf > crlf) || (crlf == lf && RegionHas(content, style))
  }

  /** What the new text becomes: it takes the style of the region, else that of the file, else it stays as it is. */
  ghost predicate IsStyled(newText: seq<byte>, matched: seq<byte>, content: seq<byte>, replacement: seq<byte>) {
    && (!NoLf(matched) ==> exists style :: RegionHas(matched, style) && IsWritten(newText, style, replacement))
    && (NoLf(matched) && !NoLf(content) ==>
          exists style :: FileHas(content, style) && IsWritten(newText, style, replacement))
    && (NoLf(content) ==> replacement == newText)
  }

  /** The new text with the line ending; in LF style a CRLF pair stays only where its LF view still has one. */
  ghost predicate IsWritten(newText: seq<byte>, style: LineEnding, replacement: seq<byte>) {
    match style
    case Crlf => AllEndings(replacement, Crlf) && LfView(replacement) == LfView(newText)
    case Lf => replacement == LfView(newText) && (NoPair(LfView(newText)) ==> AllEndings(replacement, Lf))
  }

  // ---------- Endings and line feeds ----------

  lemma {:induction false} FirstLf(s: seq<byte>) returns (k: nat)
    requires !NoLf(s)
    ensures IsFirstLf(s, k)
    decreases |s|
  {
    k := 0;
    while s[k] != LF
      invariant k < |s| && forall i :: 0 <= i < k ==> s[i] != LF
      invariant exists j :: k <= j < |s| && s[j] == LF
      decreases |s| - k
    {
      k := k + 1;
    }
  }

  lemma {:induction false} NoLfNoEndings(s: seq<byte>)
    ensures NoLf(s) <==> Endings(s) == []
    decreases |s|
  {
    if s != [] {
      var k := |s| - 1;
      EndingsUnfold(s);
      NoLfNoEndings(s[..k]);
      assert s == s[..k] + [s[k]];
    }
  }

  lemma FirstEndingIs(s: seq<byte>, k: nat)
    requires IsFirstLf(s, k)
    ensures Endings(s) != [] && Endings(s)[0] == KindOf(IsBehindCr(s, k))
  {
    NoLfNoEndings(s[..k]);
    EndingsStep(s, k);
    EndingsGrow(s, k + 1);
  }

  /** The positions up to the last one, and the last one if it counts. */
  lemma LineFeedsStep(s: seq<byte>, behindCr: bool)
    requires s != []
    ensures var k := |s| - 1;
            |LineFeeds(s, behindCr)|
            == |LineFeeds(s[..k], behindCr)| + if s[k] == LF && IsBehindCr(s, k) == behindCr then 1 else 0
  {
    hide LineFeeds;
    var k := |s| - 1;
    var before, now := LineFeeds(s[..k], behindCr), LineFeeds(s, behindCr);
    forall i: nat ensures i in now <==> i in before || (i == k && s[k] == LF && IsBehindCr(s, k) == behindCr) {
      IsLineFeed(s, behindCr, i);
      IsLineFeed(s[..k], behindCr, i);
    }
    IsLineFeed(s[..k], behindCr, k);
    if s[k] == LF && IsBehindCr(s, k) == behindCr {
      assert now == before + {k};
    } else {
      assert now == before;
    }
  }

  lemma IsLineFeed(s: seq<byte>, behindCr: bool, i: nat)
    ensures i in LineFeeds(s, behindCr) <==> i < |s| && s[i] == LF && IsBehindCr(s, i) == behindCr
  {
  }

  lemma EndingsCountStep(s: seq<byte>, behindCr: bool)
    requires s != []
    ensures var k := |s| - 1;
            Count(Endings(s), KindOf(behindCr))
            == Count(Endings(s[..k]), KindOf(behindCr)) + if s[k] == LF && IsBehindCr(s, k) == behindCr then 1 else 0
  {
    hide Count, Endings;
    var k := |s| - 1;
    EndingsUnfold(s);
    if s[k] == LF {
      CountSnoc(Endings(s[..k]), KindOf(IsBehindCr(s, k)), KindOf(behindCr));
    } else {
      assert Endings(s[..k]) + [] == Endings(s[..k]);
    }
  }

  lemma {:induction false} LineFeedsCount(s: seq<byte>, behindCr: bool)
    ensures Count(Endings(s), KindOf(behindCr)) == |LineFeeds(s, behindCr)|
    decreases |s|
  {
    hide LineFeeds;
    if s != [] {
      LineFeedsStep(s, behindCr);
      EndingsCountStep(s, behindCr);
      LineFeedsCount(s[..|s| - 1], behindCr);
    } else {
      NoLineFeeds(behindCr);
    }
  }

  lemma NoLineFeeds(behindCr: bool)
    ensures LineFeeds([], behindCr) == {}
  {
  }

  lemma RegionStyle(s: seq<byte>, style: LineEnding)
    ensures RegionHas(s, style) <==> First(Endings(s)) == Some(style)
  {
    NoLfNoEndings(s);
    if Endings(s) != [] {
      var k := FirstLf(s);
      FirstEndingIs(s, k);
      assert forall j: nat :: IsFirstLf(s, j) ==> j == k;
    }
  }

  lemma FileStyle(s: seq<byte>, style: LineEnding)
    requires !NoLf(s)
    ensures FileHas(s, style) <==> Dominant(Endings(s)) == Some(style)
  {
    hide RegionHas, Endings, Count, LineFeeds;
    LineFeedsCount(s, true);
    LineFeedsCount(s, false);
    RegionStyle(s, style);
  }

  lemma NoStyle(s: seq<byte>)
    requires NoLf(s)
    ensures Dominant(Endings(s)) == None
  {
    NoLfNoEndings(s);
  }

  lemma RewriteWrites(newText: seq<byte>, style: LineEnding)
    ensures IsWritten(newText, style, Rewrite(newText, style))
  {
    CrlfEndings(LfView(newText));
    ViewOfCrlf(LfView(newText));
    AllLf(LfView(newText));
  }

  lemma NoLfInPart(a: seq<byte>, b: seq<byte>, c: seq<byte>)
    requires NoLf(a + b + c)
    ensures NoLf(b)
  {
    forall k | 0 <= k < |b| ensures b[k] != LF {
      assert (a + b + c)[|a| + k] == b[k];
    }
  }

  lemma ReplacementIsStyled(newText: seq<byte>, before: seq<byte>, matched: seq<byte>, after: seq<byte>)
    ensures var content := before + matched + after;
            IsStyled(newText, matched, content, Replacement(newText, EndingFor(matched, content)))
  {
    hide RegionHas, FileHas, IsWritten, Dominant, Endings;
    var content := before + matched + after;
    NoLfNoEndings(matched);
    if !NoLf(matched) {
      var style := Endings(matched)[0];
      RegionStyle(matched, style);
      RewriteWrites(newText, style);
      if NoLf(content) {
        NoLfInPart(before, matched, after);
      }
    } else if NoLf(content) {
      NoStyle(content);
    } else {
      var style := if Dominant(Endings(content)) == Some(Crlf) then Crlf else Lf;
      SomeStyle(content);
      FileStyle(content, style);
      RewriteWrites(newText, style);
    }
  }

  lemma SomeStyle(s: seq<byte>)
    requires !NoLf(s)
    ensures Dominant(Endings(s)).Some?
  {
    NoLfNoEndings(s);
  }

  /** The region is the one that reads as the old text, cut where the LF view is. */
  ghost predicate IsRegion(content: seq<byte>, oldText: seq<byte>, before: seq<byte>, matched: seq<byte>,
                           after: seq<byte>)
  {
    && content == before + matched + after && LfView(content) == LfView(before) + LfView(matched) + LfView(after)
    && LfView(matched) == LfView(oldText) && !Seam(before, matched + after) && !Seam(before + matched, after)
  }

  /**
   * On every file a successful edit exchanges the one region that reads as the old text for the new text, written with
   * the line ending of the region, else the more frequent one of the file, else as it is.
   */
  lemma EditKeepsStyle(content: seq<byte>, edit: Edit)
    returns (before: seq<byte>, matched: seq<byte>, after: seq<byte>, replacement: seq<byte>)
    requires Apply(content, edit).Ok?
    ensures IsRegion(content, edit.oldText, before, matched, after)
    ensures IsStyled(edit.newText, matched, content, replacement)
    ensures Apply(content, edit) == Ok(before + replacement + after)
  {
    hide LfView, Only, IsStyled, Replacement, EndingFor, Split, Seam;
    var view, pattern := LfView(content), LfView(edit.oldText);
    var start := Only(view, pattern).value;
    var parts := Split(content, start, |pattern|);
    before, matched, after := parts.before, parts.matched, parts.after;
    replacement := Replacement(edit.newText, EndingFor(matched, content));
    OnlyOccurs(view, pattern);
    SplitJoins(content, start, |pattern|);
    SplitReads(content, start, |pattern|);
    SplitSeams(content, start, |pattern|);
    MatchedReads(content, start, |pattern|);
    CutTwice(view, start, start + |pattern|);
    ReplacementIsStyled(edit.newText, before, matched, after);
  }
}
