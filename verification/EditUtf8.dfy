/** Edits match bytes but cut text: every cut falls between characters (RFC 3629, sections 3 and 4). */
module EditUtf8 {
  import opened Wrappers
  import opened Utf8
  import opened LineEndings
  import opened EditBatch
  import opened EditTheorems

  lemma OneCharacter(s: seq<byte>)
    requires s != [] && Valid(s)
    ensures var n := CharLength(s);
            && Valid(s[..n]) && NoPair(s[..n]) && Valid(s[n..])
            && (EndsCr(s[..n]) || StartsLf(s) ==> n == 1)
  {
    var n := CharLength(s);
    CharShape(s);
    assert CharLength(s[..n]) == n && s[..n][n..] == [];
  }

  lemma {:induction false} ViewIsUtf8(s: seq<byte>)
    requires Valid(s)
    ensures Valid(LfView(s))
    decreases |s|
  {
    if s != [] {
      var n := CharLength(s);
      OneCharacter(s);
      if StartsPair(s) {
        OneCharacter(s[1..]);
        assert s[1..][1..] == s[2..];
        ViewIsUtf8(s[2..]);
        AsciiFirst(LF, LfView(s[2..]));
      } else {
        ViewIsUtf8(s[n..]);
        ViewConcat(s[..n], s[n..]);
        assert s[..n] + s[n..] == s;
        ViewShrinks(s[..n]);
        Concat(s[..n], LfView(s[n..]));
      }
    }
  }

  lemma AsciiFirst(b: byte, s: seq<byte>)
    requires b < 0x80 && Valid(s)
    ensures Valid([b] + s)
  {
    assert ([b] + s)[1..] == s;
  }

  lemma {:induction false} WithCrlfConcat(a: seq<byte>, b: seq<byte>)
    requires LF !in a
    ensures WithCrlf(a + b) == a + WithCrlf(b)
  {
    if a == [] {
      assert a + b == b;
    } else {
      WithCrlfConcat(a[1..], b);
      assert (a + b)[1..] == a[1..] + b;
      HeadAndTail(a);
      Associates([a[0]], a[1..], WithCrlf(b));
    }
  }

  lemma {:induction false} WithCrlfIsUtf8(s: seq<byte>)
    requires Valid(s)
    ensures Valid(WithCrlf(s))
    decreases |s|
  {
    if s != [] {
      var n := CharLength(s);
      OneCharacter(s);
      WithCrlfIsUtf8(s[n..]);
      if s[0] == LF {
        AsciiFirst(LF, WithCrlf(s[1..]));
        AsciiFirst(CR, [LF] + WithCrlf(s[1..]));
        assert [CR] + ([LF] + WithCrlf(s[1..])) == [CR, LF] + WithCrlf(s[1..]);
      } else {
        CharShape(s);
        assert LF !in s[..n];
        WithCrlfConcat(s[..n], s[n..]);
        assert s[..n] + s[n..] == s;
        Concat(s[..n], WithCrlf(s[n..]));
      }
    }
  }

  /** The offset map carries character boundaries of the LF view, and only those, to character boundaries. */
  lemma OffsetKeepsBoundaries(s: seq<byte>, t: nat)
    requires t <= |LfView(s)|
    ensures IsBoundary(LfView(s), t) <==> IsBoundary(s, Offset(s, t))
  {
    var view, o := LfView(s), Offset(s, t);
    if t == |view| {
      OffsetPastEnd(s, t);
    } else {
      OffsetSplits(s, t);
      var rest := s[o..];
      assert LfView(rest)[0] == view[t];
      assert s[o] == rest[0];
    }
  }

  /** A valid pattern occurs in a valid text only between characters. */
  lemma MatchesCharacters(text: seq<byte>, pattern: seq<byte>, i: nat)
    requires Valid(text) && Valid(pattern) && pattern != [] && OccursAt(text, pattern, i)
    ensures IsBoundary(text, i) && IsBoundary(text, i + |pattern|)
  {
    CharShape(pattern);
    assert text[i] == pattern[0];
    SplitAtBoundary(text, i);
    var end := i + |pattern|;
    CutTwice(text, i, end);
    Rest(pattern, text[end..]);
    if end < |text| {
      StartsCharacter(text[end..]);
      assert text[end..][0] == text[end];
    }
  }

  /** The offset map carries a match of text to cuts between characters, whatever the carriage returns are. */
  lemma CutsBetweenCharacters(content: seq<byte>, oldText: seq<byte>, start: nat)
    requires Valid(content) && Valid(oldText) && oldText != [] && OccursAt(LfView(content), LfView(oldText), start)
    ensures IsBoundary(content, Offset(content, start))
    ensures IsBoundary(content, Offset(content, start + |LfView(oldText)|))
  {
    hide Valid, Offset, CharLength;
    ViewIsUtf8(content);
    ViewIsUtf8(oldText);
    MatchesCharacters(LfView(content), LfView(oldText), start);
    OffsetKeepsBoundaries(content, start);
    OffsetKeepsBoundaries(content, start + |LfView(oldText)|);
  }

  /** So the three slices of an edit are valid text. */
  lemma SlicesAreText(content: seq<byte>, start: nat, length: nat)
    requires Valid(content)
    requires IsBoundary(content, Offset(content, start)) && IsBoundary(content, Offset(content, start + length))
    ensures var Parts(before, matched, after) := Split(content, start, length);
            Valid(before) && Valid(matched) && Valid(after)
  {
    OffsetMonotone(content, start, start + length);
    SliceIsText(content, Offset(content, start), Offset(content, start + length));
  }

  lemma ReplacementIsText(newText: seq<byte>, ending: Option<LineEnding>)
    requires Valid(newText)
    ensures Valid(Replacement(newText, ending))
  {
    ViewIsUtf8(newText);
    WithCrlfIsUtf8(LfView(newText));
  }

  lemma SpliceIsText(content: seq<byte>, newText: seq<byte>, start: nat, length: nat)
    requires Valid(content) && Valid(newText)
    requires IsBoundary(content, Offset(content, start)) && IsBoundary(content, Offset(content, start + length))
    ensures Valid(Splice(content, newText, start, length))
  {
    var Parts(before, matched, after) := Split(content, start, length);
    SlicesAreText(content, start, length);
    var replacement := Replacement(newText, EndingFor(matched, content));
    ReplacementIsText(newText, EndingFor(matched, content));
    Concat(before, replacement);
    Concat(before + replacement, after);
  }

  /** Editing valid text with valid text leaves valid text. */
  lemma EditKeepsUtf8(content: seq<byte>, edit: Edit)
    requires Valid(content) && Valid(edit.oldText) && Valid(edit.newText) && Apply(content, edit).Ok?
    ensures Valid(Apply(content, edit).value)
  {
    hide LfView, Valid, Offset, Splice, OccursAt;
    var start := Only(LfView(content), LfView(edit.oldText)).value;
    OnlyOccurs(LfView(content), LfView(edit.oldText));
    CutsBetweenCharacters(content, edit.oldText, start);
    SpliceIsText(content, edit.newText, start, |LfView(edit.oldText)|);
  }

  ghost predicate TextEdits(edits: seq<Edit>) {
    forall e :: e in edits ==> Valid(e.oldText) && Valid(e.newText)
  }

  lemma {:induction false} BatchKeepsUtf8(content: seq<byte>, edits: seq<Edit>, i: nat)
    requires i <= |edits| && Valid(content) && TextEdits(edits) && ApplyFrom(content, edits, i).Ok?
    ensures Valid(ApplyFrom(content, edits, i).value)
    decreases |edits| - i
  {
    if i < |edits| {
      EditKeepsUtf8(content, edits[i]);
      BatchKeepsUtf8(Apply(content, edits[i]).value, edits, i + 1);
    }
  }
}
