/** Editing a text whose lines may end in LF or CRLF (src/file_io.rs), and the same edits on the LF view. */
module EditBatch {
  import opened Wrappers
  import opened Utf8
  import opened LineEndings

  datatype Edit = Edit(oldText: seq<byte>, newText: seq<byte>)

  datatype EditError = EmptyOldText | NotFound | Ambiguous

  datatype BatchError = NoEdits | At(index: nat, error: EditError)

  /** The text before the match, the matched text and the text after it. */
  datatype Parts = Parts(before: seq<byte>, matched: seq<byte>, after: seq<byte>)

  predicate OccursAt(text: seq<byte>, pattern: seq<byte>, i: nat) {
    i + |pattern| <= |text| && text[i..i + |pattern|] == pattern
  }

  /** The first occurrence at `from` or later. */
  function Next(text: seq<byte>, pattern: seq<byte>, from: nat): (r: Option<nat>)
    ensures r.Some? ==> from <= r.value && OccursAt(text, pattern, r.value)
    ensures forall i :: from <= i && (r.Some? ==> i < r.value) ==> !OccursAt(text, pattern, i)
    decreases |text| - from
  {
    if from + |pattern| > |text| then None
    else if OccursAt(text, pattern, from) then Some(from)
    else Next(text, pattern, from + 1)
  }

  /** Where the only occurrence is; occurrences that overlap are counted. */
  function Only(text: seq<byte>, pattern: seq<byte>): (r: Result<nat, EditError>)
    ensures r.Ok? ==> r.value + |pattern| <= |text|
  {
    match Next(text, pattern, 0)
    case None => Err(NotFound)
    case Some(start) => if Next(text, pattern, start + 1).Some? then Err(Ambiguous) else Ok(start)
  }

  lemma OnlyOccurs(text: seq<byte>, pattern: seq<byte>)
    requires Only(text, pattern).Ok?
    ensures OccursAt(text, pattern, Only(text, pattern).value)
  {
  }

  lemma OnlyMeans(text: seq<byte>, pattern: seq<byte>)
    ensures var r := Only(text, pattern);
            && (r == Err(NotFound) <==> forall i: nat :: !OccursAt(text, pattern, i))
            && (r == Err(Ambiguous) <==> exists i: nat, j: nat ::
                                           i < j && OccursAt(text, pattern, i) && OccursAt(text, pattern, j))
            && (r.Err? ==> r.error != EmptyOldText)
            && (r.Ok? ==> OccursAt(text, pattern, r.value)
                          && forall i: nat :: OccursAt(text, pattern, i) ==> i == r.value)
  {
    var first := Next(text, pattern, 0);
    if first.Some? && Next(text, pattern, first.value + 1).Some? {
      var second := Next(text, pattern, first.value + 1).value;
      assert first.value < second && OccursAt(text, pattern, first.value) && OccursAt(text, pattern, second);
    }
  }

  /** The ending that the replaced text gets: the region's first one, else the one the file uses most. */
  function EndingFor(matched: seq<byte>, content: seq<byte>): Option<LineEnding> {
    if Endings(matched) != [] then First(Endings(matched)) else Dominant(Endings(content))
  }

  function Replacement(newText: seq<byte>, ending: Option<LineEnding>): seq<byte> {
    match ending
    case None => newText
    case Some(e) => Rewrite(newText, e)
  }

  /** Cuts the text where the match of `length` bytes of the LF view stands. */
  function Split(content: seq<byte>, start: nat, length: nat): Parts {
    OffsetMonotone(content, start, start + length);
    Parts(content[..Offset(content, start)],
          content[Offset(content, start)..Offset(content, start + length)],
          content[Offset(content, start + length)..])
  }

  function Splice(content: seq<byte>, newText: seq<byte>, start: nat, length: nat): seq<byte> {
    var Parts(before, matched, after) := Split(content, start, length);
    before + Replacement(newText, EndingFor(matched, content)) + after
  }

  function Apply(content: seq<byte>, edit: Edit): Result<seq<byte>, EditError> {
    if edit.oldText == [] then Err(EmptyOldText)
    else
      match Only(LfView(content), LfView(edit.oldText))
      case Err(e) => Err(e)
      case Ok(start) => Ok(Splice(content, edit.newText, start, |LfView(edit.oldText)|))
  }

  /** The edits from the `i`th on, each on the text the ones before it left. */
  function ApplyFrom(content: seq<byte>, edits: seq<Edit>, i: nat): Result<seq<byte>, BatchError>
    requires i <= |edits|
    decreases |edits| - i
  {
    if i == |edits| then Ok(content)
    else
      match Apply(content, edits[i])
      case Err(e) => Err(At(i, e))
      case Ok(edited) => ApplyFrom(edited, edits, i + 1)
  }

  function ApplyBatch(content: seq<byte>, edits: seq<Edit>): Result<seq<byte>, BatchError> {
    if edits == [] then Err(NoEdits) else ApplyFrom(content, edits, 0)
  }

  // The code: two scans for a match, two walks, one splice; and a loop over the edits.

  method NextMatch(text: seq<byte>, pattern: seq<byte>, from: nat) returns (r: Option<nat>)
    ensures r == Next(text, pattern, from)
  {
    var i := from;
    while i + |pattern| <= |text|
      invariant Next(text, pattern, from) == Next(text, pattern, i)
    {
      if text[i..i + |pattern|] == pattern {
        return Some(i);
      }
      i := i + 1;
    }
    return None;
  }

  method ApplyLineEndingTolerantEdit(content: seq<byte>, edit: Edit) returns (r: Result<seq<byte>, EditError>)
    ensures r == Apply(content, edit)
  {
    if edit.oldText == [] {
      return Err(EmptyOldText);
    }
    var normalized, oldNormalized := LfView(content), LfView(edit.oldText);
    var first := NextMatch(normalized, oldNormalized, 0);
    if first.None? {
      return Err(NotFound);
    }
    var start := first.value;
    var second := NextMatch(normalized, oldNormalized, start + 1);
    if second.Some? {
      return Err(Ambiguous);
    }
    var edited := ReplaceMatch(content, edit.newText, start, |oldNormalized|);
    return Ok(edited);
  }

  /** Maps the match back to the bytes and puts the new text there, in the style of the region. */
  method ReplaceMatch(content: seq<byte>, newText: seq<byte>, start: nat, length: nat) returns (edited: seq<byte>)
    ensures edited == Splice(content, newText, start, length)
  {
    var originalStart := OriginalOffset(content, start);
    var originalEnd := OriginalOffset(content, start + length);
    OffsetMonotone(content, start, start + length);
    var matched := content[originalStart..originalEnd];
    var ending := FirstLineEnding(matched);
    if ending.None? {
      ending := DominantLineEnding(content);
    }
    var replacement := match ending case Some(e) => Rewrite(newText, e) case None => newText;
    return content[..originalStart] + replacement + content[originalEnd..];
  }

  method ApplyEditBatch(content: seq<byte>, edits: seq<Edit>) returns (r: Result<seq<byte>, BatchError>)
    ensures r == ApplyBatch(content, edits)
  {
    if edits == [] {
      return Err(NoEdits);
    }
    var edited := content;
    for index := 0 to |edits|
      invariant ApplyFrom(content, edits, 0) == ApplyFrom(edited, edits, index)
    {
      var next := ApplyLineEndingTolerantEdit(edited, edits[index]);
      match next {
        case Err(e) => return Err(At(index, e));
        case Ok(text) => edited := text;
      }
    }
    return Ok(edited);
  }

  // The same edits as plain substitution in the LF view.

  function Exchange(view: seq<byte>, newText: seq<byte>, start: nat, length: nat): seq<byte>
    requires start + length <= |view|
  {
    view[..start] + newText + view[start + length..]
  }

  function Substituted(view: seq<byte>, edit: Edit): Result<seq<byte>, EditError> {
    if edit.oldText == [] then Err(EmptyOldText)
    else
      var pattern := LfView(edit.oldText);
      match Only(view, pattern)
      case Err(e) => Err(e)
      case Ok(start) => Ok(Exchange(view, LfView(edit.newText), start, |pattern|))
  }

  function SubstitutedFrom(view: seq<byte>, edits: seq<Edit>, i: nat): Result<seq<byte>, BatchError>
    requires i <= |edits|
    decreases |edits| - i
  {
    if i == |edits| then Ok(view)
    else
      match Substituted(view, edits[i])
      case Err(e) => Err(At(i, e))
      case Ok(edited) => SubstitutedFrom(edited, edits, i + 1)
  }

  function SubstitutedBatch(view: seq<byte>, edits: seq<Edit>): Result<seq<byte>, BatchError> {
    if edits == [] then Err(NoEdits) else SubstitutedFrom(view, edits, 0)
  }

  function ViewOf<E>(r: Result<seq<byte>, E>): Result<seq<byte>, E> {
    match r
    case Ok(text) => Ok(LfView(text))
    case Err(e) => Err(e)
  }
}
