/** Extraction of the JSON objects that lie inside arbitrary text. */
module JsonObjects {
  import opened Wrappers
  import opened Json
  import opened JsonScan
  import opened JsonRoundTrip

  /** The first object of `s` that parses, and the text after it. */
  function NextObject(s: string): (r: Option<(Value, string)>)
    ensures r.Some? ==> |r.value.1| < |s|
    decreases |s|
  {
    if s == "" then None
    else if s[0] != '{' then NextObject(s[1..])
    else
      match Seek(s[1..], 1, false, false)
      case None => None
      case Some(rest) =>
        match Parse(s[..|s| - |rest|])
        case Some(v) => Some((v, rest))
        case None => NextObject(rest)
  }

  /** Everything the iterator yields. */
  function Objects(s: string): seq<Value>
    decreases |s|
  {
    match NextObject(s)
    case None => []
    case Some((v, rest)) => [v] + Objects(rest)
  }

  class JsonObjectIter {
    const text: string
    var pos: nat

    constructor (text: string)
      ensures this.text == text && pos == 0
    {
      this.text := text;
      pos := 0;
    }

    /** The objects not yet yielded. */
    function Pending(): seq<Value>
      reads this
    {
      if pos <= |text| then Objects(text[pos..]) else []
    }

    /** The index after the brace that matches the one at `start`, if there is one. */
    method FindEnd(start: nat) returns (end: Option<nat>)
      requires start < |text| && text[start] == '{'
      ensures match Seek(text[start + 1..], 1, false, false)
              case None => end == None
              case Some(rest) => end.Some? && start < end.value <= |text| && rest == text[end.value..]
    {
      var depth, inString, escaped, index := 0, false, false, start;
      while index < |text|
        invariant start <= index <= |text|
        invariant index == start ==> depth == 0 && !inString && !escaped
        invariant index > start ==>
                    depth > 0 &&
                    Seek(text[index..], depth, inString, escaped) == Seek(text[start + 1..], 1, false, false)
      {
        var c := text[index];
        assert index + 1 <= |text| && text[index..][1..] == text[index + 1..];
        if escaped {
          escaped := false;
          index := index + 1;
          continue;
        }
        if inString {
          if c == '\\' {
            escaped := true;
          } else if c == '"' {
            inString := false;
          }
          index := index + 1;
          continue;
        }
        if c == '"' {
          inString := true;
        } else if c == '{' {
          depth := depth + 1;
        } else if c == '}' {
          depth := depth - 1;
          if depth == 0 {
            return Some(index + 1);
          }
        }
        index := index + 1;
      }
      assert text[index..] == "";
      return None;
    }

    /** Yields the next object and moves past it; at the end, moves to the end of the text. */
    method Next() returns (r: Option<Value>)
      requires pos <= |text|
      modifies this
      ensures old(pos) <= pos <= |text|
      ensures match NextObject(text[old(pos)..])
              case None => r == None && pos == |text|
              case Some((v, rest)) => r == Some(v) && old(pos) < pos && text[pos..] == rest
      ensures r.Some? ==> [r.value] + Pending() == old(Pending())
      ensures r.None? ==> old(Pending()) == [] && Pending() == []
    {
      hide Seek, Parse;
      while pos < |text|
        invariant old(pos) <= pos <= |text|
        invariant NextObject(text[pos..]) == NextObject(text[old(pos)..])
        decreases |text| - pos
      {
        var rest := text[pos..];
        if text[pos] != '{' {
          assert rest[1..] == text[pos + 1..];
          pos := pos + 1;
          continue;
        }
        var start := pos;
        assert rest[1..] == text[start + 1..];
        var end := FindEnd(start);
        if end.None? {
          pos := |text|;
          assert text[pos..] == "";
          return None;
        }
        assert rest[..|rest| - |text[end.value..]|] == text[start..end.value];
        pos := end.value;
        var value := Parse(text[start..pos]);
        if value.Some? {
          return value;
        }
      }
      return None;
    }
  }

  // ---------- What is yielded lies where it should ----------

  /** `s[i..j]` starts at a brace, ends at the brace that matches it outside strings, and parses to `v`. */
  ghost predicate ObjectAt(s: string, i: nat, j: nat, v: Value) {
    && i < j <= |s| && s[i] == '{' && s[j - 1] == '}'
    && Seek(s[i + 1..], 1, false, false) == Some(s[j..])
    && Parse(s[i..j]) == Some(v)
  }

  /** An opening brace at the front of the text has its match in front of what the scan leaves. */
  lemma MatchedFromStart(s: string)
    requires s != "" && s[0] == '{' && Seek(s[1..], 1, false, false).Some?
    ensures var after := Seek(s[1..], 1, false, false).value;
            var j := |s| - |after|;
            && 1 < j <= |s| && after == s[j..] && s[j - 1] == '}' && s[0..j] == s[..j]
  {
    SeekSuffix(s[1..], 1, false, false);
    var j := |s| - |Seek(s[1..], 1, false, false).value|;
    assert s[1..][j - 1..] == s[j..];
    assert s[1..][j - 2] == s[j - 1];
  }

  /** On every input the next object is a matched slice, and scanning resumes right after it. */
  lemma {:induction false} NextObjectIsMatched(s: string)
    requires NextObject(s).Some?
    ensures var (v, rest) := NextObject(s).value;
            var j := |s| - |rest|;
            rest == s[j..] && exists i :: 0 <= i < j && ObjectAt(s, i, j, v)
    decreases |s|
  {
    hide Seek, Parse;
    if s[0] != '{' {
      NextObjectIsMatched(s[1..]);
      NextObjectShift(s, 1);
    } else {
      var after := Seek(s[1..], 1, false, false).value;
      var j := |s| - |after|;
      MatchedFromStart(s);
      if Parse(s[..j]).Some? {
        assert ObjectAt(s, 0, j, Parse(s[..j]).value);
      } else {
        NextObjectIsMatched(s[j..]);
        NextObjectShift(s, j);
      }
    }
  }

  lemma ObjectAtShift(s: string, k: nat, i: nat, j: nat, v: Value)
    requires k <= |s| && ObjectAt(s[k..], i, j, v)
    ensures ObjectAt(s, k + i, k + j, v)
  {
    assert s[k..][i + 1..] == s[k + i + 1..] && s[k..][j..] == s[k + j..];
    assert s[k..][i..j] == s[k + i..k + j];
  }

  lemma NextObjectShift(s: string, k: nat)
    requires 0 < k <= |s| && NextObject(s[k..]).Some?
    requires var (v, rest) := NextObject(s[k..]).value;
             var j := |s| - k - |rest|;
             j >= 0 && rest == s[k..][j..] && exists i :: 0 <= i < j && ObjectAt(s[k..], i, j, v)
    ensures var (v, rest) := NextObject(s[k..]).value;
            var j := |s| - |rest|;
            rest == s[j..] && exists i :: 0 <= i < j && ObjectAt(s, i, j, v)
  {
    hide Seek, Parse, NextObject;
    var (v, rest) := NextObject(s[k..]).value;
    var j := |s| - k - |rest|;
    var i :| 0 <= i < j && ObjectAt(s[k..], i, j, v);
    ObjectAtShift(s, k, i, j, v);
    assert s[k..][j..] == s[k + j..];
  }

  // ---------- Extraction undoes serialisation ----------

  /** A text that denotes an object, with nothing around it, that is not nested too deeply. */
  ghost predicate ObjectText(t: string, v: Value) {
    t != "" && t[0] == '{' && ParseValue(t) == Some((v, "")) && Shallow(v)
  }

  datatype Piece = Piece(gap: string, text: string)

  /** Object texts, each behind a gap, with a last gap after them. */
  function Weave(pieces: seq<Piece>, last: string): string {
    if pieces == [] then last
    else pieces[0].gap + (pieces[0].text + Weave(pieces[1..], last))
  }

  predicate NoBrace(s: string) {
    forall i :: 0 <= i < |s| ==> s[i] != '{'
  }

  lemma {:induction false} SkipGap(gap: string, s: string)
    requires NoBrace(gap)
    ensures NextObject(gap + s) == NextObject(s)
  {
    if gap == "" {
      assert gap + s == s;
    } else {
      assert (gap + s)[1..] == gap[1..] + s;
      SkipGap(gap[1..], s);
    }
  }

  lemma {:induction false} SeekAppend(a: string, b: string, depth: nat, inString: bool, escaped: bool)
    requires Seek(a, depth, inString, escaped).Some?
    ensures Seek(a + b, depth, inString, escaped) == Some(Seek(a, depth, inString, escaped).value + b)
    decreases |a|
  {
    if depth > 0 {
      assert (a + b)[1..] == a[1..] + b;
      if escaped {
        SeekAppend(a[1..], b, depth, inString, false);
      } else if inString {
        SeekAppend(a[1..], b, depth, a[0] != '"', a[0] == '\\');
      } else if a[0] == '"' {
        SeekAppend(a[1..], b, depth, true, false);
      } else if a[0] == '{' {
        SeekAppend(a[1..], b, depth + 1, false, false);
      } else if a[0] == '}' {
        SeekAppend(a[1..], b, depth - 1, false, false);
      } else {
        SeekAppend(a[1..], b, depth, false, false);
      }
    }
  }

  lemma TakeObject(t: string, v: Value, rest: string)
    requires ObjectText(t, v)
    ensures NextObject(t + rest) == Some((v, rest))
  {
    hide Seek, Parse, ParseValue;
    SeekObject(t, v);
    SeekAppend(t[1..], rest, 1, false, false);
    assert (t + rest)[1..] == t[1..] + rest;
    assert "" + rest == rest;
    assert (t + rest)[..|t|] == t;
  }

  lemma SeekObject(t: string, v: Value)
    requires ObjectText(t, v)
    ensures Seek(t[1..], 1, false, false) == Some("") && Parse(t) == Some(v)
  {
    ObjectNeutral(t, START, 0);
  }

  lemma {:induction false} NoObjects(s: string)
    requires NoBrace(s)
    ensures Objects(s) == []
  {
    SkipGap(s, "");
    assert s + "" == s;
  }

  /** From any serialised objects separated by brace-free text, exactly those objects come back, in order. */
  lemma {:induction false} ExtractionUndoesWeaving(pieces: seq<Piece>, last: string, values: seq<Value>)
    requires |pieces| == |values| && NoBrace(last)
    requires forall i :: 0 <= i < |pieces| ==> NoBrace(pieces[i].gap) && ObjectText(pieces[i].text, values[i])
    ensures Objects(Weave(pieces, last)) == values
  {
    if pieces == [] {
      NoObjects(last);
    } else {
      var rest := Weave(pieces[1..], last);
      SkipGap(pieces[0].gap, pieces[0].text + rest);
      TakeObject(pieces[0].text, values[0], rest);
      ExtractionUndoesWeaving(pieces[1..], last, values[1..]);
    }
  }

  /** The print of an object is such a text exactly when the object is not nested too deeply. */
  lemma PrintedObjectIsText(members: seq<Member>)
    requires Printable(Object(members))
    ensures ObjectText(Print(Object(members)), Object(members)) <==> Shallow(Object(members))
  {
    ValueRoundTrip(Object(members), "");
    var t := Print(Object(members));
    assert t + "" == t && t[0] == '{';
  }

  // ---------- The groups of braces that a text holds, and which of them are yielded ----------

  datatype Group = Group(start: nat, end: nat)

  /** No brace opens between the two places. */
  predicate NoneOpens(s: string, from: nat, to: nat)
    requires to <= |s|
  {
    forall k :: from <= k < to ==> s[k] != '{'
  }

  /** The first opening brace from there on, up to the brace that matches it. */
  ghost predicate IsNextGroup(s: string, from: nat, g: Group) {
    && from <= g.start < g.end <= |s| && NoneOpens(s, from, g.start) && s[g.start] == '{'
    && Seek(s[g.start + 1..], 1, false, false) == Some(s[g.end..])
  }

  /** No brace opens any more, or the first one that does is never closed. */
  ghost predicate NoMoreGroups(s: string, from: nat) {
    from <= |s| &&
    (NoneOpens(s, from, |s|)
     || exists k: nat :: from <= k < |s| && NoneOpens(s, from, k) && s[k] == '{'
                         && Seek(s[k + 1..], 1, false, false).None?)
  }

  /** The groups from there on, each one behind the one before it, read from left to right to the end. */
  ghost predicate AreGroups(s: string, from: nat, groups: seq<Group>)
    decreases |groups|
  {
    if groups == [] then NoMoreGroups(s, from)
    else IsNextGroup(s, from, groups[0]) && AreGroups(s, groups[0].end, groups[1..])
  }

  /** The values of the groups that are JSON, in order. */
  function Parsed(s: string, groups: seq<Group>): seq<Value>
    requires forall k :: 0 <= k < |groups| ==> groups[k].start <= groups[k].end <= |s|
  {
    if groups == [] then []
    else
      (match Parse(s[groups[0].start..groups[0].end])
       case Some(v) => [v]
       case None => []) + Parsed(s, groups[1..])
  }

  lemma {:induction false} GroupsFit(s: string, from: nat, groups: seq<Group>)
    requires AreGroups(s, from, groups)
    ensures from <= |s|
    ensures forall k :: 0 <= k < |groups| ==> groups[k].start <= groups[k].end <= |s|
    decreases |groups|
  {
    if groups != [] {
      GroupsFit(s, groups[0].end, groups[1..]);
      assert forall k :: 1 <= k < |groups| ==> groups[k] == groups[1..][k - 1];
    }
  }

  /** Skipping what opens no brace. */
  lemma {:induction false} SkipTo(s: string, from: nat, to: nat)
    requires from <= to <= |s| && NoneOpens(s, from, to)
    ensures NextObject(s[from..]) == NextObject(s[to..])
  {
    assert s[from..] == s[from..to] + s[to..];
    SkipGap(s[from..to], s[to..]);
  }

  /** A group is yielded if it is JSON, and passed over, with the scan behind it, if it is not. */
  lemma NextOfGroup(s: string, from: nat, g: Group)
    requires IsNextGroup(s, from, g)
    ensures NextObject(s[from..]) == match Parse(s[g.start..g.end])
                                     case Some(v) => Some((v, s[g.end..]))
                                     case None => NextObject(s[g.end..])
  {
    hide Seek, Parse;
    SkipTo(s, from, g.start);
    var rest := s[g.start..];
    assert rest[1..] == s[g.start + 1..] && rest[..|rest| - |s[g.end..]|] == s[g.start..g.end];
  }

  lemma NothingNext(s: string, from: nat)
    requires NoMoreGroups(s, from)
    ensures NextObject(s[from..]) == None
  {
    if NoneOpens(s, from, |s|) {
      SkipTo(s, from, |s|);
      assert s[|s|..] == "";
    } else {
      var k: nat :| from <= k < |s| && NoneOpens(s, from, k) && s[k] == '{' && Seek(s[k + 1..], 1, false, false).None?;
      SkipTo(s, from, k);
      assert s[k..][1..] == s[k + 1..];
    }
  }

  lemma {:induction false} GroupsAreYielded(s: string, from: nat, groups: seq<Group>)
    requires AreGroups(s, from, groups)
    ensures forall k :: 0 <= k < |groups| ==> groups[k].start <= groups[k].end <= |s|
    ensures from <= |s| && Objects(s[from..]) == Parsed(s, groups)
    decreases |groups|
  {
    GroupsFit(s, from, groups);
    if groups == [] {
      NothingNext(s, from);
    } else {
      NextOfGroup(s, from, groups[0]);
      GroupsAreYielded(s, groups[0].end, groups[1..]);
      SameNextSameObjects(s, from, groups[0]);
    }
  }

  lemma SameNextSameObjects(s: string, from: nat, g: Group)
    requires IsNextGroup(s, from, g)
    ensures Objects(s[from..]) == (match Parse(s[g.start..g.end])
                                   case Some(v) => [v]
                                   case None => []) + Objects(s[g.end..])
  {
    hide Seek, Parse, NextObject;
    NextOfGroup(s, from, g);
    assert [] + Objects(s[g.end..]) == Objects(s[g.end..]);
  }

  /** Every text has its groups. */
  lemma {:induction false} GroupsOf(s: string, from: nat) returns (groups: seq<Group>)
    requires from <= |s|
    ensures AreGroups(s, from, groups)
    decreases |s| - from
  {
    var k := from;
    while k < |s| && s[k] != '{'
      invariant from <= k <= |s| && NoneOpens(s, from, k)
    {
      k := k + 1;
    }
    if k == |s| || Seek(s[k + 1..], 1, false, false).None? {
      groups := [];
    } else {
      SeekSuffix(s[k + 1..], 1, false, false);
      var g := Group(k, |s| - |Seek(s[k + 1..], 1, false, false).value|);
      assert s[k + 1..][|s[k + 1..]| - |s[g.end..]|..] == s[g.end..];
      var rest := GroupsOf(s, g.end);
      groups := [g] + rest;
      assert groups[1..] == rest;
    }
  }

  /**
   * On every input the iterator yields exactly the groups that are JSON, in order: groups that are not, wherever they
   * stand, are passed over, and nothing is yielded just when no group is JSON.
   */
  lemma ObjectsAreTheGroups(s: string) returns (groups: seq<Group>)
    ensures AreGroups(s, 0, groups)
    ensures forall k :: 0 <= k < |groups| ==> groups[k].start <= groups[k].end <= |s|
    ensures Objects(s) == Parsed(s, groups)
    ensures NextObject(s) == None
            <==> forall k :: 0 <= k < |groups| ==> Parse(s[groups[k].start..groups[k].end]) == None
  {
    groups := GroupsOf(s, 0);
    assert s[0..] == s;
    GroupsAreYielded(s, 0, groups);
    NothingParsed(s, groups);
  }

  lemma {:induction false} NothingParsed(s: string, groups: seq<Group>)
    requires forall k :: 0 <= k < |groups| ==> groups[k].start <= groups[k].end <= |s|
    ensures Parsed(s, groups) == []
            <==> forall k :: 0 <= k < |groups| ==> Parse(s[groups[k].start..groups[k].end]) == None
    decreases |groups|
  {
    hide Parse;
    if groups != [] {
      NothingParsed(s, groups[1..]);
      assert forall k :: 1 <= k < |groups| ==> groups[k] == groups[1..][k - 1];
    }
  }

  /** There is only one way to read the groups. */
  lemma {:induction false} GroupsAreUnique(s: string, from: nat, groups: seq<Group>, others: seq<Group>)
    requires AreGroups(s, from, groups) && AreGroups(s, from, others)
    ensures groups == others
    decreases |groups|
  {
    if groups != [] && others != [] {
      SameGroup(s, from, groups[0], others[0]);
      GroupsAreUnique(s, groups[0].end, groups[1..], others[1..]);
      assert groups == [groups[0]] + groups[1..] && others == [others[0]] + others[1..];
    } else if groups != [] {
      GroupOrNone(s, from, groups[0]);
    } else if others != [] {
      GroupOrNone(s, from, others[0]);
    }
  }

  lemma SameGroup(s: string, from: nat, g: Group, h: Group)
    requires IsNextGroup(s, from, g) && IsNextGroup(s, from, h)
    ensures g == h
  {
    hide Seek;
    assert g.start == h.start by {
      assert s[g.start] == '{' && s[h.start] == '{';
    }
    assert |s[g.end..]| == |s[h.end..]|;
  }

  lemma GroupOrNone(s: string, from: nat, g: Group)
    requires IsNextGroup(s, from, g)
    ensures !NoMoreGroups(s, from)
  {
    hide Seek;
  }

  lemma PlaceholderParses()
    ensures Parse("{x}") == None && Parse("{}") == Some(Object([]))
  {
    assert "{x}"[1..] == "x}" && "{}"[1..] == "}" && "}"[1..] == "";
    assert ParseMember("x}") == None;
  }

  lemma PlaceholderSeeks()
    ensures Seek("x}{}", 1, false, false) == Some("{}") && Seek("}", 1, false, false) == Some("")
  {
    assert "x}{}"[1..] == "}{}" && "}{}"[1..] == "{}" && "}"[1..] == "";
    assert Seek("}{}", 1, false, false) == Seek("{}", 0, false, false);
    assert Seek("}", 1, false, false) == Seek("", 0, false, false);
  }

  /** A placeholder in braces does not hide the object behind it. */
  lemma PlaceholderIsPassedOver()
    ensures Objects("{x}{}") == [Object([])]
  {
    hide Seek, Parse, Objects;
    var s, groups := "{x}{}", [Group(0, 3), Group(3, 5)];
    assert s[1..] == "x}{}" && s[3..] == "{}" && s[4..] == "}" && s[5..] == "" && s[0..] == s;
    assert s[0..3] == "{x}" && s[3..5] == "{}";
    PlaceholderSeeks();
    PlaceholderParses();
    assert groups[1..] == [groups[1]] && [groups[1]][1..] == [];
    assert IsNextGroup(s, 0, groups[0]) && IsNextGroup(s, 3, groups[1]) && NoMoreGroups(s, 5);
    assert AreGroups(s, 5, []) && AreGroups(s, 3, [groups[1]]);
    GroupsAreYielded(s, 0, groups);
    assert Parsed(s, [groups[1]]) == [Object([])];
  }
}
