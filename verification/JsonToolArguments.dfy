/** The use the repair is put to: the arguments of a tool call whose text was cut off. */
module JsonToolArguments {
  import opened Wrappers
  import opened Json
  import opened JsonRoundTrip
  import opened JsonCut
  import opened JsonRepair
  import opened JsonRepairPrefix
  import opened JsonRepairTheorems
  import opened JsonSpace
  import opened JsonSpaceRepair

  /** The arguments after the repair, and whether they changed. */
  function RepairArguments(arguments: Value): (Value, bool) {
    if arguments.Null? then (Object([]), true)
    else
      var text := if arguments.Str? then arguments.s else Print(arguments);
      if Parse(text).Some? then (arguments, false)
      else
        var r := Repair(text);
        if r.changed then (r.value, true) else (arguments, false)
  }

  /**
   * Arguments that already are a value, other than null, are left alone exactly when they are not nested too deeply;
   * deeper ones, whose print does not read back, are replaced by an empty object.
   */
  lemma ValuesAreKept(arguments: Value)
    requires Printable(arguments) && !arguments.Str? && !arguments.Null?
    ensures RepairArguments(arguments) == if Shallow(arguments) then (arguments, false) else (Object([]), true)
  {
    hide Shallow;
    ParsePrint(arguments);
    RepairOfPartial(Whole(arguments));
  }

  /** Arguments cut off anywhere become an object: the closed one when it can be read back, else an empty one. */
  lemma CutArgumentsBecomeAnObject(members: seq<Member>, i: nat)
    requires Printable(Object(members)) && i < |Print(Object(members))|
    ensures var text := Print(Object(members))[..i];
            var (after, changed) := RepairArguments(Str(text));
            changed && after == if i > 0 && Readable(CutAt(Object(members), i))
                                then Closed(CutAt(Object(members), i)) else Object([])
    ensures RepairArguments(Str(Print(Object(members))[..i])).0.Object?
  {
    var v := Object(members);
    if i == 0 {
      assert Parse("") == None;
    } else {
      CutSound(v, i);
      CutText(v, i);
      CandidateIsMended(CutAt(v, i));
      RepairOfPartial(CutAt(v, i));
    }
  }

  /** So many arrays within each other. */
  function Nest(n: nat): Value {
    if n == 0 then Null else Array([Nest(n - 1)])
  }

  lemma {:induction false} NestedAreWithin(n: nat, depth: nat)
    ensures Printable(Nest(n)) && (NestedWithin(Nest(n), depth) <==> n <= depth)
    decreases n
  {
    if n > 0 {
      NestedAreWithin(n - 1, if depth > 0 then depth - 1 else 0);
      assert Nest(n).items[0] == Nest(n - 1);
    }
  }

  /** Arrays within each other are kept up to 127 levels, and replaced from 128 on. */
  lemma DeepArraysAreReplaced(n: nat)
    requires n > 0
    ensures RepairArguments(Nest(n)) == if n <= 127 then (Nest(n), false) else (Object([]), true)
  {
    NestedAreWithin(n, MAX_DEPTH);
    ValuesAreKept(Nest(n));
  }

  /** Argument text that spreads a document is kept as it is up to 127 levels, whatever the document. */
  lemma SpreadArgumentsAreKept(v: Value, u: string)
    requires Printable(v) && Spreads(u, v)
    ensures RepairArguments(Str(u)) == if Shallow(v) then (Str(u), false) else (Object([]), true)
  {
    hide Strip, Tight, Shallow, Print;
    SpreadReads(v, u);
  }

  /** Argument text that spreads an object and is cut off becomes the object cut there, closed, or an empty one. */
  lemma CutSpreadArguments(members: seq<Member>, u: string, i: nat)
    requires Printable(Object(members)) && Spreads(u, Object(members)) && i <= |u|
    requires |Bare(u[..i])| < |Print(Object(members))|
    ensures var j := |Bare(u[..i])|;
            var (after, changed) := RepairArguments(Str(u[..i]));
            changed && after == if j > 0 && Readable(CutAt(Object(members), j))
                                then Closed(CutAt(Object(members), j)) else Object([])
  {
    hide Strip, Tight, Readable, CutAt, Closed, Repair, Print;
    var v, s := Object(members), u[..i];
    RepairOfSpreadPrefix(v, u, i);
    SpreadPrefix(v, u, i);
    SpaceIsIrrelevant(s);
    CutDoesNotParse(members, |Bare(s)|);
  }

  lemma CutDoesNotParse(members: seq<Member>, j: nat)
    requires Printable(Object(members)) && j < |Print(Object(members))|
    ensures Parse(Print(Object(members))[..j]) == None
  {
    if j == 0 {
      assert Parse("") == None;
    } else {
      CutSound(Object(members), j);
      CutText(Object(members), j);
      CandidateIsMended(CutAt(Object(members), j));
    }
  }

  /** Missing arguments become an empty object, and argument text changes just when it does not parse. */
  lemma ArgumentsAreDecided(text: string)
    ensures RepairArguments(Null) == (Object([]), true)
    ensures var (after, changed) := RepairArguments(Str(text));
            && (changed <==> Parse(text) == None) && (!changed ==> after == Str(text))
            && (changed ==> !after.Str? || Parse(Candidate(text)) == Some(after))
  {
    hide Parse, Candidate;
  }
}
