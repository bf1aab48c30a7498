/** What an edit promises: it is substitution in the LF view, and it keeps the style and the encoding of the file. */
module EditTheorems {
  import opened Wrappers
  import opened Utf8
  import opened LineEndings
  import opened EditBatch

  lemma SplitJoins(content: seq<byte>, start: nat, length: nat)
    ensures var Parts(before, matched, after) := Split(content, start, length);
            content == before + matched + after
  {
    OffsetMonotone(content, start, start + length);
    CutTwice(content, Offset(content, start), Offset(content, start + length));
  }

  lemma SplitReads(content: seq<byte>, start: nat, length: nat)
    requires start + length <= |LfView(content)|
    ensures var Parts(before, matched, after) := Split(content, start, length);
            LfView(before) == LfView(content)[..start] && LfView(after) == LfView(content)[start + length..]
  {
    OffsetSplits(content, start);
    OffsetSplits(content, start + length);
  }

  /** Neither cut falls between a CR and its LF. */
  lemma SplitSeams(content: seq<byte>, start: nat, length: nat)
    requires start + length <= |LfView(content)|
    ensures var Parts(before, matched, after) := Split(content, start, length);
            !Seam(before, matched + after) && !Seam(before + matched, after)
  {
    OffsetCounts(content, start);
    OffsetCounts(content, start + length);
    OffsetMonotone(content, start, start + length);
    CutTwice(content, Offset(content, start), Offset(content, start + length));
  }

  lemma CutTwice(s: seq<byte>, i: nat, j: nat)
    requires i <= j <= |s|
    ensures s[..i] + s[i..j] == s[..j] && s[i..j] + s[j..] == s[i..] && s[..i] + s[i..j] + s[j..] == s
  {
  }

  /** The matched region reads as the matched part of the LF view, whatever its line endings are. */
  lemma MatchedReads(content: seq<byte>, start: nat, length: nat)
    requires start + length <= |LfView(content)|
    ensures LfView(Split(content, start, length).matched) == LfView(content)[start..start + length]
  {
    var Parts(before, matched, after) := Split(content, start, length);
    SplitJoins(content, start, length);
    SplitSeams(content, start, length);
    SplitReads(content, start, length);
    ViewOfThree(before, matched, after);
    MiddleOf(LfView(before), LfView(matched), LfView(after));
  }

  lemma ViewOfThree(a: seq<byte>, b: seq<byte>, c: seq<byte>)
    requires !Seam(a, b + c) && !Seam(a + b, c)
    ensures LfView(a + b + c) == LfView(a) + (LfView(b) + LfView(c))
  {
    Associates(a, b, c);
    ViewConcat(a, b + c);
    assert !Seam(b, c);
    ViewConcat(b, c);
  }

  lemma MiddleOf(a: seq<byte>, b: seq<byte>, c: seq<byte>)
    ensures (a + (b + c))[|a|..|a + (b + c)| - |c|] == b
  {
  }

  /** Text without stray carriage returns is never cut behind one. */
  lemma NoCrBeforeCut(before: seq<byte>, after: seq<byte>)
    requires NoStrayCr(before + after) && !Seam(before, after)
    ensures !EndsCr(before)
    ensures NoStrayCr(before) && NoStrayCr(after)
  {
    var s := before + after;
    if EndsCr(before) {
      assert s[|before| - 1] == CR;
    }
    forall k | 0 <= k < |before| && before[k] == CR ensures k + 1 < |before| && before[k + 1] == LF {
      assert s[k] == CR && s[k + 1] == LF;
    }
    forall k | 0 <= k < |after| && after[k] == CR ensures k + 1 < |after| && after[k + 1] == LF {
      assert s[|before| + k] == CR && s[|before| + k + 1] == LF;
      assert s[|before| + k + 1] == after[k + 1];
    }
  }

  /** The new text, rewritten to the ending, has no CRLF pair of its own and forms none with what follows. */
  ghost predicate Harmless(newText: seq<byte>, ending: Option<LineEnding>, after: seq<byte>) {
    (ending == Some(Lf) ==> NoPair(LfView(newText))) && !Seam(newText, after)
  }

  /** The condition a caller can check: no new CRLF pair is formed, neither by the new text nor in front of it. */
  ghost predicate Fits(before: seq<byte>, newText: seq<byte>, ending: Option<LineEnding>, after: seq<byte>) {
    Harmless(newText, ending, after) && !Seam(before, Replacement(newText, ending) + after)
  }

  ghost predicate FitsAt(content: seq<byte>, newText: seq<byte>, start: nat, length: nat) {
    var Parts(before, matched, after) := Split(content, start, length);
    Fits(before, newText, EndingFor(matched, content), after)
  }

  ghost predicate HarmlessAt(content: seq<byte>, newText: seq<byte>, start: nat, length: nat) {
    var Parts(_, matched, after) := Split(content, start, length);
    Harmless(newText, EndingFor(matched, content), after)
  }

  ghost predicate Faithful(content: seq<byte>, edit: Edit)
    requires Only(LfView(content), LfView(edit.oldText)).Ok?
  {
    FitsAt(content, edit.newText, Only(LfView(content), LfView(edit.oldText)).value, |LfView(edit.oldText)|)
  }

  lemma {:induction false} EndsCrOfView(s: seq<byte>)
    ensures EndsCr(LfView(s)) == EndsCr(s)
    decreases |s|
  {
    if s != [] {
      var rest := s[Width(s)..];
      EndsCrOfView(rest);
      assert rest != [] ==> LfView(rest) != [];
    }
  }

  lemma {:induction false} EndsCrOfCrlf(s: seq<byte>)
    ensures EndsCr(WithCrlf(s)) == EndsCr(s)
    decreases |s|
  {
    if s != [] {
      EndsCrOfCrlf(s[1..]);
      assert s[1..] != [] ==> WithCrlf(s[1..]) != [];
    }
  }

  lemma ReplacementEndsCr(newText: seq<byte>, ending: Option<LineEnding>)
    ensures EndsCr(Replacement(newText, ending)) == EndsCr(newText)
  {
    EndsCrOfView(newText);
    EndsCrOfCrlf(LfView(newText));
  }

  lemma ReplacementView(newText: seq<byte>, ending: Option<LineEnding>)
    ensures var view := LfView(Replacement(newText, ending));
            && |view| <= |LfView(newText)|
            && (view == LfView(newText) <==> (ending == Some(Lf) ==> NoPair(LfView(newText))))
  {
    ViewShrinks(LfView(newText));
    ViewOfCrlf(LfView(newText));
  }

  lemma ViewIsShorter(a: seq<byte>, b: seq<byte>)
    ensures |LfView(a + b)| <= |LfView(a)| + |LfView(b)|
  {
    if Seam(a, b) {
      ViewSeam(a, b);
    } else {
      ViewConcat(a, b);
    }
  }

  lemma SplicedView(before: seq<byte>, newText: seq<byte>, ending: Option<LineEnding>, after: seq<byte>)
    ensures LfView(before + Replacement(newText, ending) + after)
            == LfView(before) + LfView(newText) + LfView(after)
            <==> Fits(before, newText, ending, after)
  {
    hide LfView, Replacement, NoPair;
    var replacement := Replacement(newText, ending);
    ReplacementEndsCr(newText, ending);
    ReplacementView(newText, ending);
    Associates(before, replacement, after);
    if Seam(before, replacement + after) {
      ViewSeam(before, replacement + after);
      ViewIsShorter(replacement, after);
    } else {
      ViewConcat(before, replacement + after);
      if Seam(replacement, after) {
        ViewSeam(replacement, after);
      } else {
        ViewConcat(replacement, after);
        SamePrefix(LfView(before), LfView(replacement), LfView(newText), LfView(after));
      }
    }
  }

  lemma Associates(a: seq<byte>, b: seq<byte>, c: seq<byte>)
    ensures a + b + c == a + (b + c)
  {
  }

  lemma SamePrefix(a: seq<byte>, b: seq<byte>, c: seq<byte>, d: seq<byte>)
    ensures a + (b + d) == a + c + d <==> b == c
  {
    if a + (b + d) == a + c + d {
      assert |b| == |c|;
      assert b == (a + (b + d))[|a|..|a| + |b|];
      assert c == (a + c + d)[|a|..|a| + |c|];
    }
  }

  lemma NoCrBeforeOffset(content: seq<byte>, t: nat)
    requires NoStrayCr(content) && t <= |LfView(content)|
    ensures !EndsCr(content[..Offset(content, t)])
  {
    OffsetCounts(content, t);
    var i := Offset(content, t);
    assert content[..i] + content[i..] == content;
    NoCrBeforeCut(content[..i], content[i..]);
  }

  lemma SpliceView(content: seq<byte>, newText: seq<byte>, start: nat, length: nat)
    requires start + length <= |LfView(content)|
    ensures LfView(Splice(content, newText, start, length)) == Exchange(LfView(content), LfView(newText), start, length)
            <==> FitsAt(content, newText, start, length)
  {
    var Parts(before, matched, after) := Split(content, start, length);
    SplitReads(content, start, length);
    SplicedView(before, newText, EndingFor(matched, content), after);
  }

  /** On every file an edit is substitution in the LF view, errors included, exactly when no new pair is formed. */
  lemma EditRefinesSubstitution(content: seq<byte>, edit: Edit)
    ensures ViewOf(Apply(content, edit)) == Substituted(LfView(content), edit)
            <==> (Apply(content, edit).Ok? ==> Faithful(content, edit))
  {
    if Apply(content, edit).Ok? {
      SpliceView(content, edit.newText, Only(LfView(content), LfView(edit.oldText)).value, |LfView(edit.oldText)|);
    }
  }

  /** In a file whose carriage returns all sit in CRLF pairs, nothing is formed in front of the new text. */
  lemma CleanFileFits(content: seq<byte>, newText: seq<byte>, start: nat, length: nat)
    requires NoStrayCr(content) && start + length <= |LfView(content)|
    ensures FitsAt(content, newText, start, length) <==> HarmlessAt(content, newText, start, length)
  {
    NoCrBeforeOffset(content, start);
  }

  /** New text without stray carriage returns is always harmless. */
  lemma CleanTextIsHarmless(newText: seq<byte>, ending: Option<LineEnding>, after: seq<byte>)
    requires NoStrayCr(newText)
    ensures Harmless(newText, ending, after)
  {
    ViewHasNoCr(newText);
    assert forall k: nat :: HasPairAt(LfView(newText), k) ==> LfView(newText)[k] == CR;
  }

  lemma EditKeepsCrPaired(content: seq<byte>, edit: Edit)
    requires NoStrayCr(content) && NoStrayCr(edit.newText) && Apply(content, edit).Ok?
    ensures NoStrayCr(Apply(content, edit).value) && Faithful(content, edit)
    ensures ViewOf(Apply(content, edit)) == Substituted(LfView(content), edit)
  {
    var start := Only(LfView(content), LfView(edit.oldText)).value;
    var Parts(_, matched, after) := Split(content, start, |LfView(edit.oldText)|);
    CleanTextIsHarmless(edit.newText, EndingFor(matched, content), after);
    CleanFileFits(content, edit.newText, start, |LfView(edit.oldText)|);
    EditRefinesSubstitution(content, edit);
    ViewHasNoCr(content);
    ViewHasNoCr(edit.newText);
    ViewHasNoCr(Apply(content, edit).value);
  }

  ghost predicate CleanEdits(edits: seq<Edit>) {
    forall i :: 0 <= i < |edits| ==> NoStrayCr(edits[i].newText)
  }

  /** Every edit, on the text the ones before it left, forms no new pair. */
  ghost predicate FaithfulFrom(content: seq<byte>, edits: seq<Edit>, i: nat)
    requires i <= |edits|
    decreases |edits| - i
  {
    i < |edits| && Apply(content, edits[i]).Ok? ==>
      Faithful(content, edits[i]) && FaithfulFrom(Apply(content, edits[i]).value, edits, i + 1)
  }

  lemma {:induction false} EditsRefineSubstitution(content: seq<byte>, edits: seq<Edit>, i: nat)
    requires i <= |edits| && FaithfulFrom(content, edits, i)
    ensures ViewOf(ApplyFrom(content, edits, i)) == SubstitutedFrom(LfView(content), edits, i)
    decreases |edits| - i
  {
    if i < |edits| {
      EditRefinesSubstitution(content, edits[i]);
      if Apply(content, edits[i]).Ok? {
        EditsRefineSubstitution(Apply(content, edits[i]).value, edits, i + 1);
      }
    }
  }

  /** A batch that forms no new pair is, on any file, the batch of substitutions on the LF view. */
  lemma FaithfulBatchRefines(content: seq<byte>, edits: seq<Edit>)
    requires FaithfulFrom(content, edits, 0)
    ensures ViewOf(ApplyBatch(content, edits)) == SubstitutedBatch(LfView(content), edits)
  {
    if edits != [] {
      EditsRefineSubstitution(content, edits, 0);
    }
  }

  lemma {:induction false} CleanBatchIsFaithful(content: seq<byte>, edits: seq<Edit>, i: nat)
    requires i <= |edits| && NoStrayCr(content) && CleanEdits(edits)
    ensures FaithfulFrom(content, edits, i)
    decreases |edits| - i
  {
    if i < |edits| && Apply(content, edits[i]).Ok? {
      EditKeepsCrPaired(content, edits[i]);
      CleanBatchIsFaithful(Apply(content, edits[i]).value, edits, i + 1);
    }
  }

  /** So is every batch without stray carriage returns in the file or in the new texts. */
  lemma BatchRefinesSubstitution(content: seq<byte>, edits: seq<Edit>)
    requires NoStrayCr(content) && CleanEdits(edits)
    ensures ViewOf(ApplyBatch(content, edits)) == SubstitutedBatch(LfView(content), edits)
  {
    CleanBatchIsFaithful(content, edits, 0);
    FaithfulBatchRefines(content, edits);
  }

  /** Both succeed and read the same, or both fail at the same edit for the same reason. */
  ghost predicate SameOutcome<E>(a: Result<seq<byte>, E>, b: Result<seq<byte>, E>) {
    ViewOf(a) == ViewOf(b)
  }

  lemma LineEndingsDoNotMatter(content: seq<byte>, other: seq<byte>, edits: seq<Edit>)
    requires NoStrayCr(content) && NoStrayCr(other) && LfView(content) == LfView(other)
    requires CleanEdits(edits)
    ensures SameOutcome(ApplyBatch(content, edits), ApplyBatch(other, edits))
  {
    BatchRefinesSubstitution(content, edits);
    BatchRefinesSubstitution(other, edits);
  }

  // Which new texts make an edit independent of the line endings of the file.

  /** The new text, even when a line end follows it, has no CRLF pair in its LF view. */
  ghost predicate Safe(newText: seq<byte>) {
    NoPair(LfView(newText) + [LF])
  }

  ghost predicate Independent(newText: seq<byte>) {
    forall a, b, oldText ::
      NoStrayCr(a) && NoStrayCr(b) && LfView(a) == LfView(b) ==>
      SameOutcome(Apply(a, Edit(oldText, newText)), Apply(b, Edit(oldText, newText)))
  }

  lemma SafeIsHarmless(newText: seq<byte>, ending: Option<LineEnding>, after: seq<byte>)
    requires Safe(newText)
    ensures Harmless(newText, ending, after)
  {
    var view := LfView(newText);
    assert forall k: nat :: HasPairAt(view, k) ==> HasPairAt(view + [LF], k);
    EndsCrOfView(newText);
    if EndsCr(view) {
      assert HasPairAt(view + [LF], |view| - 1);
    }
  }

  const LETTER: byte := 97
  const LF_FILE: seq<byte> := [LETTER, LF]
  const CRLF_FILE: seq<byte> := [LETTER, CR, LF]

  lemma OneLineViews()
    ensures LfView(LF_FILE) == LF_FILE && LfView(CRLF_FILE) == LF_FILE
    ensures LfView([LETTER]) == [LETTER] && LfView([CR, LF]) == [LF]
  {
    assert [LETTER][1..] == [] && [LF][1..] == [] && [CR, LF][2..] == [];
    assert LfView([LF]) == [LF] && LfView([CR, LF]) == [LF];
    assert LF_FILE[1..] == [LF] && CRLF_FILE[1..] == [CR, LF];
  }

  lemma EndingsSnoc(s: seq<byte>, b: byte)
    ensures Endings(s + [b]) == Endings(s) + EndingAt(s + [b], |s|)
  {
    assert (s + [b])[..|s|] == s;
  }

  lemma OneLineEndings()
    ensures Endings([LETTER]) == [] && Endings(LF_FILE) == [Lf] && Endings(CRLF_FILE) == [Crlf]
    ensures Dominant([Lf]) == Some(Lf) && Dominant([Crlf]) == Some(Crlf)
  {
    EndingsSnoc([], LETTER);
    assert [] + [LETTER] == [LETTER];
    EndingsSnoc([LETTER], LF);
    assert [LETTER] + [LF] == LF_FILE;
    EndingsSnoc([LETTER], CR);
    assert [LETTER] + [CR] == [LETTER, CR];
    EndingsSnoc([LETTER, CR], LF);
    assert [LETTER, CR] + [LF] == CRLF_FILE;
    OneKindDominates([Lf], Lf);
    OneKindDominates([Crlf], Crlf);
  }

  lemma OneLetterOnly()
    ensures Only(LF_FILE, [LETTER]) == Ok(0)
  {
    assert OccursAt(LF_FILE, [LETTER], 0);
    assert LF_FILE[1..2] == [LF];
  }

  lemma OneLetterSplit(content: seq<byte>, rest: seq<byte>)
    requires content == [LETTER] + rest
    ensures Split(content, 0, 1) == Parts([], [LETTER], rest)
  {
    assert content[1..] == rest && content[0..1] == [LETTER];
    assert Offset(content, 1) == 1 + Offset(content[1..], 0);
  }

  lemma SpliceAtFront(content: seq<byte>, rest: seq<byte>, newText: seq<byte>, ending: LineEnding)
    requires content == [LETTER] + rest && Dominant(Endings(content)) == Some(ending)
    ensures Splice(content, newText, 0, 1) == Rewrite(newText, ending) + rest
  {
    OneLineEndings();
    OneLetterSplit(content, rest);
    NothingBefore(Rewrite(newText, ending), rest);
  }

  lemma NothingBefore(a: seq<byte>, b: seq<byte>)
    ensures [] + a + b == a + b
  {
  }

  lemma OneLetterSplice(content: seq<byte>, rest: seq<byte>, newText: seq<byte>, ending: LineEnding)
    requires content == [LETTER] + rest && LfView(content) == LF_FILE
    requires Dominant(Endings(content)) == Some(ending)
    ensures Apply(content, Edit([LETTER], newText)) == Ok(Rewrite(newText, ending) + rest)
  {
    OneLineViews();
    OneLetterOnly();
    SpliceAtFront(content, rest, newText, ending);
  }

  /** An edit is independent of the file's line endings exactly for safe new texts; a one-line file shows the rest. */
  lemma SafeIsExact(newText: seq<byte>)
    ensures Safe(newText) <==> Independent(newText)
  {
    if Safe(newText) {
      forall a, b, oldText | NoStrayCr(a) && NoStrayCr(b) && LfView(a) == LfView(b)
        ensures SameOutcome(Apply(a, Edit(oldText, newText)), Apply(b, Edit(oldText, newText)))
      {
        SafeEditRefines(a, Edit(oldText, newText));
        SafeEditRefines(b, Edit(oldText, newText));
      }
    } else {
      UnsafeTextDiffers(newText);
    }
  }

  lemma SafeEditRefines(content: seq<byte>, edit: Edit)
    requires NoStrayCr(content) && Safe(edit.newText)
    ensures ViewOf(Apply(content, edit)) == Substituted(LfView(content), edit)
  {
    EditRefinesSubstitution(content, edit);
    if Apply(content, edit).Ok? {
      var start := Only(LfView(content), LfView(edit.oldText)).value;
      var Parts(_, matched, after) := Split(content, start, |LfView(edit.oldText)|);
      SafeIsHarmless(edit.newText, EndingFor(matched, content), after);
      CleanFileFits(content, edit.newText, start, |LfView(edit.oldText)|);
    }
  }

  lemma UnsafeTextDiffers(newText: seq<byte>)
    requires !Safe(newText)
    ensures !Independent(newText)
  {
    OneLineViews();
    DifferentOutcomes(newText);
    OneLineFiles();
  }

  lemma OneLineFiles()
    ensures NoStrayCr(LF_FILE) && NoStrayCr(CRLF_FILE)
  {
  }

  lemma OneLineOutcomes(newText: seq<byte>)
    ensures Apply(LF_FILE, Edit([LETTER], newText)) == Ok(Rewrite(newText, Lf) + [LF])
    ensures Apply(CRLF_FILE, Edit([LETTER], newText)) == Ok(Rewrite(newText, Crlf) + [CR, LF])
  {
    OneLineViews();
    OneLineEndings();
    OneLetterSplice(LF_FILE, [LF], newText, Lf);
    OneLetterSplice(CRLF_FILE, [CR, LF], newText, Crlf);
  }

  lemma DifferentOutcomes(newText: seq<byte>)
    requires !Safe(newText)
    ensures !SameOutcome(Apply(LF_FILE, Edit([LETTER], newText)), Apply(CRLF_FILE, Edit([LETTER], newText)))
  {
    OneLineOutcomes(newText);
    UnsafeViews(newText);
  }

  lemma UnsafeViews(newText: seq<byte>)
    requires !Safe(newText)
    ensures LfView(Rewrite(newText, Lf) + [LF]) != LfView(Rewrite(newText, Crlf) + [CR, LF])
  {
    var view := LfView(newText);
    ViewShrinks(view + [LF]);
    ViewOfCrlf(view);
    ViewConcat(WithCrlf(view), [CR, LF]);
    OneLineViews();
  }

  // Which new texts make an edit independent of the line endings of every file.

  /** The LF view of the new text has a first byte, and that is not a line end. */
  predicate Solid(newText: seq<byte>) {
    LfView(newText) != [] && LfView(newText)[0] != LF
  }

  ghost predicate IndependentEverywhere(newText: seq<byte>) {
    forall a, b, oldText ::
      LfView(a) == LfView(b) ==> SameOutcome(Apply(a, Edit(oldText, newText)), Apply(b, Edit(oldText, newText)))
  }

  lemma SolidReplacement(newText: seq<byte>, ending: Option<LineEnding>, after: seq<byte>)
    requires Solid(newText)
    ensures !StartsLf(Replacement(newText, ending) + after)
  {
    var view := LfView(newText);
    assert WithCrlf(view)[0] == view[0];
  }

  lemma SafeSolidEditRefines(content: seq<byte>, edit: Edit)
    requires Safe(edit.newText) && Solid(edit.newText)
    ensures ViewOf(Apply(content, edit)) == Substituted(LfView(content), edit)
  {
    EditRefinesSubstitution(content, edit);
    if Apply(content, edit).Ok? {
      var start := Only(LfView(content), LfView(edit.oldText)).value;
      var Parts(_, matched, after) := Split(content, start, |LfView(edit.oldText)|);
      SafeIsHarmless(edit.newText, EndingFor(matched, content), after);
      SolidReplacement(edit.newText, EndingFor(matched, content), after);
    }
  }

  const STRAY_LF_FILE: seq<byte> := [CR, LETTER, LF]
  const STRAY_CRLF_FILE: seq<byte> := [CR, LETTER, CR, LF]

  lemma StrayViews()
    ensures LfView(STRAY_LF_FILE) == STRAY_LF_FILE && LfView(STRAY_CRLF_FILE) == STRAY_LF_FILE
    ensures LfView([CR]) == [CR]
  {
    OneLineViews();
    assert [CR][1..] == [] && [CR] + LF_FILE == STRAY_LF_FILE && [CR] + CRLF_FILE == STRAY_CRLF_FILE;
    ViewConcat([CR], LF_FILE);
    ViewConcat([CR], CRLF_FILE);
  }

  lemma StrayEndings()
    ensures Endings(STRAY_LF_FILE) == [Lf] && Endings(STRAY_CRLF_FILE) == [Crlf]
  {
    OneLineEndings();
    EndingsSnoc([], CR);
    assert [] + [CR] == [CR] && [CR] + LF_FILE == STRAY_LF_FILE && [CR] + CRLF_FILE == STRAY_CRLF_FILE;
    EndingsConcat([CR], LF_FILE);
    EndingsConcat([CR], CRLF_FILE);
  }

  lemma StraySplit(content: seq<byte>, rest: seq<byte>)
    requires content == [CR, LETTER] + rest
    ensures Split(content, 1, 1) == Parts([CR], [LETTER], rest)
  {
    assert content[1..] == [LETTER] + rest && content[1..][1..] == rest;
    assert Offset(content[1..], 1) == 1 + Offset(content[1..][1..], 0);
    assert Offset(content, 1) == 1 + Offset(content[1..], 0);
    assert Offset(content, 2) == 1 + Offset(content[1..], 1);
    assert content[..1] == [CR] && content[1..2] == [LETTER] && content[2..] == rest;
  }

  lemma StrayOnly()
    ensures Only(STRAY_LF_FILE, [LETTER]) == Ok(1)
  {
    var text, pattern := STRAY_LF_FILE, [LETTER];
    assert text[0..1] == [CR] && text[1..2] == [LETTER] && text[2..3] == [LF];
    OnlyMeans(text, pattern);
    assert OccursAt(text, pattern, 1) && !OccursAt(text, pattern, 0) && !OccursAt(text, pattern, 2);
    assert forall i: nat :: OccursAt(text, pattern, i) ==> i == 1;
  }

  lemma StraySplice(content: seq<byte>, rest: seq<byte>, newText: seq<byte>, ending: LineEnding)
    requires content == [CR, LETTER] + rest && Dominant(Endings(content)) == Some(ending)
    ensures Splice(content, newText, 1, 1) == [CR] + Rewrite(newText, ending) + rest
  {
    hide Dominant, Endings, Rewrite, Split;
    OneLineEndings();
    StraySplit(content, rest);
  }

  lemma StrayApply(content: seq<byte>, rest: seq<byte>, newText: seq<byte>, ending: LineEnding)
    requires content == [CR, LETTER] + rest && Dominant(Endings(content)) == Some(ending)
    requires LfView(content) == STRAY_LF_FILE
    ensures Only(LfView(content), LfView([LETTER])) == Ok(1)
    ensures Apply(content, Edit([LETTER], newText)) == Ok([CR] + Rewrite(newText, ending) + rest)
  {
    hide LfView, Only, Splice, Dominant, Endings, Rewrite;
    OneLineViews();
    StrayOnly();
    StraySplice(content, rest, newText, ending);
  }

  lemma StrayOutcomes(newText: seq<byte>)
    ensures Only(LfView(STRAY_LF_FILE), LfView([LETTER])) == Ok(1)
    ensures Apply(STRAY_LF_FILE, Edit([LETTER], newText)) == Ok([CR] + Rewrite(newText, Lf) + [LF])
    ensures Apply(STRAY_CRLF_FILE, Edit([LETTER], newText)) == Ok([CR] + Rewrite(newText, Crlf) + [CR, LF])
  {
    hide LfView, Only, Apply, Rewrite, Dominant, Endings;
    OneLineEndings();
    StrayViews();
    StrayEndings();
    StrayApply(STRAY_LF_FILE, [LF], newText, Lf);
    StrayApply(STRAY_CRLF_FILE, [CR, LF], newText, Crlf);
  }

  /** With nothing solid in between, the stray CR in front makes a pair in the LF file, and none in the CRLF file. */
  lemma HollowViews(newText: seq<byte>)
    requires !Solid(newText)
    ensures LfView([CR] + Rewrite(newText, Lf) + [LF]) != LfView([CR] + Rewrite(newText, Crlf) + [CR, LF])
  {
    hide LfView, WithCrlf;
    var view, crlf := LfView(newText), WithCrlf(LfView(newText));
    OneLineViews();
    StrayViews();
    ViewOfCrlf(view);
    CrlfEndings(view);
    StartsWithPair(crlf);
    NoLfInFront(crlf, [CR, LF]);
    Associates([CR], view, [LF]);
    Associates([CR], crlf, [CR, LF]);
    ViewSeam([CR], view + [LF]);
    ViewShrinks(view + [LF]);
    ViewConcat([CR], crlf + [CR, LF]);
    ViewConcat(crlf, [CR, LF]);
  }

  /** On all files, stray carriage returns included, exactly the safe and solid new texts make edits independent. */
  lemma SafeSolidIsExact(newText: seq<byte>)
    ensures Safe(newText) && Solid(newText) <==> IndependentEverywhere(newText)
  {
    if Safe(newText) && Solid(newText) {
      forall a, b, oldText | LfView(a) == LfView(b)
        ensures SameOutcome(Apply(a, Edit(oldText, newText)), Apply(b, Edit(oldText, newText)))
      {
        SafeSolidEditRefines(a, Edit(oldText, newText));
        SafeSolidEditRefines(b, Edit(oldText, newText));
      }
    } else if Safe(newText) {
      StrayViews();
      StrayOutcomes(newText);
      HollowViews(newText);
      assert !SameOutcome(Apply(STRAY_LF_FILE, Edit([LETTER], newText)),
                          Apply(STRAY_CRLF_FILE, Edit([LETTER], newText)));
    } else {
      SafeIsExact(newText);
    }
  }

  /** Deleting the letter behind a stray carriage return turns an LF file into a CRLF file, and is no substitution. */
  lemma StrayCrMakesPair()
    ensures var edit := Edit([LETTER], []);
            && AllEndings(STRAY_LF_FILE, Lf) && HarmlessAt(STRAY_LF_FILE, [], 1, 1)
            && Apply(STRAY_LF_FILE, edit) == Ok([CR, LF]) && Endings([CR, LF]) == [Crlf]
            && ViewOf(Apply(STRAY_LF_FILE, edit)) != Substituted(LfView(STRAY_LF_FILE), edit)
            && !Faithful(STRAY_LF_FILE, edit)
  {
    hide Only, Apply, Dominant, Endings, Split, Substituted, Seam;
    StrayEndings();
    StrayOutcomes([]);
    assert [CR] + [] + [LF] == [CR, LF];
    PairEndings();
    StrayDoesNotFit();
    EditRefinesSubstitution(STRAY_LF_FILE, Edit([LETTER], []));
    OneLineViews();
  }

  lemma PairEndings()
    ensures Endings([CR, LF]) == [Crlf]
  {
    EndingsSnoc([], CR);
    EndingsSnoc([CR], LF);
    assert [] + [CR] == [CR] && [CR] + [LF] == [CR, LF];
  }

  lemma StrayDoesNotFit()
    ensures HarmlessAt(STRAY_LF_FILE, [], 1, 1) && !FitsAt(STRAY_LF_FILE, [], 1, 1)
  {
    hide Only, Endings, Dominant, Split;
    OneLineEndings();
    StrayEndings();
    StraySplit(STRAY_LF_FILE, [LF]);
    assert Replacement([], Some(Lf)) + [LF] == [LF];
    assert Seam([CR], [LF]);
  }

  // A file of one kind of line ending.

  lemma PartsOfOneKind(before: seq<byte>, matched: seq<byte>, after: seq<byte>, kind: LineEnding)
    requires AllEndings(before + matched + after, kind)
    requires !Seam(before, matched + after) && !Seam(before + matched, after)
    ensures AllEndings(before, kind) && AllEndings(matched, kind) && AllEndings(after, kind)
  {
    assert !Seam(before, matched);
    EndingsConcat(before, matched);
    EndingsConcat(before + matched, after);
    InThree(Endings(before), Endings(matched), Endings(after));
  }

  lemma InThree(a: seq<LineEnding>, b: seq<LineEnding>, c: seq<LineEnding>)
    ensures forall e :: e in a + b + c <==> e in a || e in b || e in c
  {
  }

  lemma MatchedEndings(content: seq<byte>, start: nat, length: nat, kind: LineEnding)
    requires start + length <= |LfView(content)| && AllEndings(content, kind) && Endings(content) != []
    ensures var Parts(before, matched, after) := Split(content, start, length);
            && AllEndings(before, kind) && AllEndings(after, kind)
            && EndingFor(matched, content) == Some(kind)
  {
    var Parts(before, matched, after) := Split(content, start, length);
    SplitJoins(content, start, length);
    SplitSeams(content, start, length);
    PartsOfOneKind(before, matched, after, kind);
    OneKindDominates(Endings(content), kind);
    if Endings(matched) != [] {
      assert Endings(matched)[0] in Endings(matched);
    }
  }

  lemma OneKindDominates(endings: seq<LineEnding>, kind: LineEnding)
    requires endings != [] && forall e :: e in endings ==> e == kind
    ensures Dominant(endings) == Some(kind)
  {
    AllCounted(endings);
    NoneCounted(endings, if kind == Lf then Crlf else Lf);
  }

  /** An LF file stays one exactly when no new pair is formed; a CRLF file always stays one. */
  lemma OneKindIsKept(content: seq<byte>, edit: Edit, kind: LineEnding)
    requires AllEndings(content, kind) && Endings(content) != [] && Apply(content, edit).Ok?
    ensures AllEndings(Apply(content, edit).value, kind) <==> Faithful(content, edit)
    ensures kind == Crlf ==> Faithful(content, edit)
  {
    SpliceKeepsKind(content, edit.newText, Only(LfView(content), LfView(edit.oldText)).value,
                    |LfView(edit.oldText)|, kind);
  }

  lemma SpliceKeepsKind(content: seq<byte>, newText: seq<byte>, start: nat, length: nat, kind: LineEnding)
    requires AllEndings(content, kind) && Endings(content) != [] && start + length <= |LfView(content)|
    ensures AllEndings(Splice(content, newText, start, length), kind) <==> FitsAt(content, newText, start, length)
    ensures kind == Crlf ==> FitsAt(content, newText, start, length)
  {
    var Parts(before, matched, after) := Split(content, start, length);
    MatchedEndings(content, start, length, kind);
    match kind {
      case Lf => LfFileIsKept(before, newText, after);
      case Crlf => CrlfFileIsKept(before, newText, after);
    }
  }

  lemma LfFileIsKept(before: seq<byte>, newText: seq<byte>, after: seq<byte>)
    requires AllEndings(before, Lf) && AllEndings(after, Lf)
    ensures AllEndings(before + Rewrite(newText, Lf) + after, Lf) <==> Fits(before, newText, Some(Lf), after)
  {
    var replacement := LfView(newText);
    var edited := before + replacement + after;
    AllLf(edited);
    AllLf(before);
    AllLf(after);
    EndsCrOfView(newText);
    PairsOfThree(before, replacement, after);
  }

  lemma PairsOfThree(a: seq<byte>, b: seq<byte>, c: seq<byte>)
    requires NoPair(a) && NoPair(c)
    ensures NoPair(a + b + c) <==> NoPair(b) && !Seam(b, c) && !Seam(a, b + c)
  {
    Associates(a, b, c);
    NoPairConcat(b, c);
    NoPairConcat(a, b + c);
  }

  lemma NoPairConcat(a: seq<byte>, b: seq<byte>)
    ensures NoPair(a + b) <==> NoPair(a) && NoPair(b) && !Seam(a, b)
  {
    assert forall k: nat :: HasPairAt(a, k) ==> HasPairAt(a + b, k);
    assert forall k: nat :: HasPairAt(b, k) ==> HasPairAt(a + b, |a| + k);
    assert Seam(a, b) ==> HasPairAt(a + b, |a| - 1);
    assert forall k: nat :: HasPairAt(a + b, k) && k >= |a| ==> HasPairAt(b, k - |a|);
    assert forall k: nat :: HasPairAt(a + b, k) && k < |a| ==> HasPairAt(a, k) || Seam(a, b);
  }

  lemma CrlfFileIsKept(before: seq<byte>, newText: seq<byte>, after: seq<byte>)
    requires AllEndings(before, Crlf) && AllEndings(after, Crlf)
    ensures AllEndings(before + Rewrite(newText, Crlf) + after, Crlf)
    ensures Fits(before, newText, Some(Crlf), after)
  {
    var replacement := Rewrite(newText, Crlf);
    CrlfEndings(LfView(newText));
    StartsWithPair(replacement);
    StartsWithPair(after);
    NoLfInFront(replacement, after);
    EndingsConcat(before, replacement);
    EndingsConcat(before + replacement, after);
  }

  lemma NoLfInFront(a: seq<byte>, b: seq<byte>)
    requires !StartsLf(a) && !StartsLf(b)
    ensures !StartsLf(a + b)
  {
    assert a == [] ==> a + b == b;
  }

  lemma LfComesFirst(s: seq<byte>)
    requires StartsLf(s)
    ensures Lf in Endings(s)
  {
    EndingsGrow(s, 1);
    EndingsStep(s, 0);
    assert Endings(s[..1]) == [Lf];
    assert Endings(s)[0] == Lf;
  }

  lemma StartsWithPair(s: seq<byte>)
    requires AllEndings(s, Crlf)
    ensures !StartsLf(s)
  {
    if StartsLf(s) {
      LfComesFirst(s);
    }
  }
}
