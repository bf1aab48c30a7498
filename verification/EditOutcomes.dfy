/** When an edit or a batch of edits fails, where, and why (src/file_io.rs). */
module EditOutcomes {
  import opened Wrappers
  import opened Utf8
  import opened LineEndings
  import opened EditBatch

  ghost predicate Occurs(content: seq<byte>, oldText: seq<byte>) {
    exists i: nat :: OccursAt(LfView(content), LfView(oldText), i)
  }

  ghost predicate OccursTwice(content: seq<byte>, oldText: seq<byte>) {
    exists i: nat, j: nat ::
      i < j && OccursAt(LfView(content), LfView(oldText), i) && OccursAt(LfView(content), LfView(oldText), j)
  }

  /** An edit fails exactly for an empty old text, and for one that the LF view holds not once or not only once. */
  lemma EditFailsWhen(content: seq<byte>, edit: Edit)
    ensures Apply(content, edit) == Err(EmptyOldText) <==> edit.oldText == []
    ensures Apply(content, edit) == Err(NotFound) <==> edit.oldText != [] && !Occurs(content, edit.oldText)
    ensures Apply(content, edit) == Err(Ambiguous) <==> edit.oldText != [] && OccursTwice(content, edit.oldText)
  {
    hide LfView, OccursAt, Only, Splice;
    OnlyMeans(LfView(content), LfView(edit.oldText));
  }

  /** The texts that the first edits leave, one after the other. */
  ghost predicate AreSteps(content: seq<byte>, edits: seq<Edit>, texts: seq<seq<byte>>) {
    && 0 < |texts| <= |edits| + 1 && texts[0] == content
    && forall k :: 0 <= k < |texts| - 1 ==> Apply(texts[k], edits[k]) == Ok(texts[k + 1])
  }

  lemma {:induction false} StepsLead(content: seq<byte>, edits: seq<Edit>, texts: seq<seq<byte>>, i: nat)
    requires AreSteps(content, edits, texts) && i < |texts|
    ensures ApplyFrom(texts[i], edits, i) == ApplyFrom(texts[|texts| - 1], edits, |texts| - 1)
    decreases |texts| - i
  {
    hide Apply;
    if i < |texts| - 1 {
      assert Apply(texts[i], edits[i]) == Ok(texts[i + 1]);
      StepsLead(content, edits, texts, i + 1);
    }
  }

  lemma OneMoreStep(content: seq<byte>, edits: seq<Edit>, texts: seq<seq<byte>>)
    requires AreSteps(content, edits, texts) && |texts| <= |edits|
    requires Apply(texts[|texts| - 1], edits[|texts| - 1]).Ok?
    ensures AreSteps(content, edits, texts + [Apply(texts[|texts| - 1], edits[|texts| - 1]).value])
  {
    hide Apply;
    var more := texts + [Apply(texts[|texts| - 1], edits[|texts| - 1]).value];
    assert forall k :: 0 <= k < |texts| ==> more[k] == texts[k];
    forall k | 0 <= k < |more| - 1 ensures Apply(more[k], edits[k]) == Ok(more[k + 1]) {
      assert k < |texts| - 1 ==> Apply(texts[k], edits[k]) == Ok(texts[k + 1]);
    }
  }

  /** How far a batch gets: to the end, or up to the first edit that fails. */
  lemma {:induction false} StepsOf(content: seq<byte>, edits: seq<Edit>, sofar: seq<seq<byte>>)
    returns (texts: seq<seq<byte>>)
    requires AreSteps(content, edits, sofar)
    ensures AreSteps(content, edits, texts)
    ensures var n := |texts| - 1; n == |edits| || Apply(texts[n], edits[n]).Err?
    decreases |edits| + 1 - |sofar|
  {
    hide Apply;
    var n := |sofar| - 1;
    if n == |edits| || Apply(sofar[n], edits[n]).Err? {
      texts := sofar;
    } else {
      OneMoreStep(content, edits, sofar);
      texts := StepsOf(content, edits, sofar + [Apply(sofar[n], edits[n]).value]);
    }
  }

  /**
   * A batch without edits fails; any other one applies its edits in order, each to the text the ones before it left, to
   * the end or up to the first that fails, whose position and complaint it reports.
   */
  lemma BatchStopsWhere(content: seq<byte>, edits: seq<Edit>) returns (texts: seq<seq<byte>>)
    ensures ApplyBatch(content, edits) == Err(NoEdits) <==> edits == []
    ensures AreSteps(content, edits, texts)
    ensures edits != [] ==>
              var n := |texts| - 1;
              if n == |edits| then ApplyBatch(content, edits) == Ok(texts[n])
              else Apply(texts[n], edits[n]).Err?
                   && ApplyBatch(content, edits) == Err(At(n, Apply(texts[n], edits[n]).error))
  {
    hide Apply;
    texts := StepsOf(content, edits, [content]);
    StepsLead(content, edits, texts, 0);
  }
}
