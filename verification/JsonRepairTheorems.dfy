/**
 * The repair of every prefix of a printed document: where it succeeds, what it yields, and
 * that everything complete before the cut is read back unchanged.
 */
module JsonRepairTheorems {
  import opened Wrappers
  import opened Json
  import opened JsonRoundTrip
  import opened JsonScan
  import opened JsonCut
  import opened JsonRepair
  import opened JsonRepairPrefix
  import opened JsonRepairComplete
  import opened JsonRepairFallback

  lemma CandidateFromScan(s: string, stack: seq<Bracket>, inString: bool)
    requires Final(s, START).stack == stack && Final(s, START).inString == inString
    ensures Candidate(s) == Settled(s) + Ends(stack, inString)
  {
  }

  lemma UnbalancedFails(s: string)
    requires Final(s, START) != START
    ensures Parse(s) == None
  {
    if Parse(s).Some? {
      ParsedTextIsBalanced(s);
    }
  }

  lemma ScanFromStart(p: Partial)
    requires Sound(p)
    ensures Final(PrintPartial(p), START).stack == Stack(p)
    ensures Final(PrintPartial(p), START).inString == InsideString(p)
  {
    OpenScan(p, START);
    assert [] + Stack(p) == Stack(p);
  }

  lemma CandidateIsMended(p: Partial)
    requires Sound(p)
    ensures Candidate(PrintPartial(p)) == Mended(p)
    ensures Stack(p) != [] ==> Parse(PrintPartial(p)) == None
  {
    ScanFromStart(p);
    CandidateFromScan(PrintPartial(p), Stack(p), InsideString(p));
    if Stack(p) != [] {
      UnbalancedFails(PrintPartial(p));
    }
  }

  lemma PrefixIsNotBlank(p: Partial)
    requires Sound(p)
    ensures !Blank(PrintPartial(p))
  {
    var c := PrintPartial(p)[0];
    match p
    case Whole(v) => PrintStarts(v);
    case TornScalar(text, whole) => TornScalarChars(text, whole);
    case _ =>
    assert !IsUnicodeWs(c);
  }

  lemma FailedParse(s: string)
    requires ParseValue(s + "") == None
    ensures Parse(s) == None
  {
    assert s + "" == s;
  }

  /** The cut can be closed, and to a document that is not nested too deeply. */
  predicate Readable(p: Partial) {
    Closable(p) && Shallow(Closed(p))
  }

  lemma ScalarCut(p: Partial)
    requires Sound(p) && Stack(p) == []
    ensures Mended(p) == PrintPartial(p)
    ensures Parse(PrintPartial(p)) == if Readable(p) then Some(Closed(p)) else None
  {
    EndsBase();
    match p
    case Whole(v) =>
      MendedIsPrint(p);
      ParsePrint(v);
    case TornScalar(text, whole) =>
      TornScalarMended(text, whole);
      if IsNumber(text) {
        ParsePrint(Number(text));
      } else {
        MendedFails(p, "");
        FailedParse(text);
      }
    case _ =>
  }

  lemma RepairOfPartial(p: Partial)
    requires Sound(p)
    ensures Repair(PrintPartial(p))
            == if Readable(p) then Repaired(Print(Closed(p)), Stack(p) != [], Closed(p)) else FALLBACK
  {
    PrefixIsNotBlank(p);
    CandidateIsMended(p);
    if Stack(p) == [] {
      ScalarCut(p);
    }
    if Closable(p) {
      MendedIsPrint(p);
      ParsePrint(Closed(p));
    } else {
      MendedFails(p, "");
      FailedParse(Mended(p));
    }
  }

  /**
   * For every document and every non-empty prefix of its text: when the cut is closable, to a document that is not
   * nested too deeply, the repaired text is the print of the closed document and parses to it, and every other cut
   * falls back to the empty object.
   */
  lemma RepairOfPrefix(v: Value, i: nat)
    requires Printable(v) && 0 < i <= |Print(v)|
    ensures var p, r := CutAt(v, i), Repair(Print(v)[..i]);
            && r == (if Readable(p) then Repaired(Print(Closed(p)), Stack(p) != [], Closed(p)) else FALLBACK)
            && (Readable(p) ==> Parse(r.text) == Some(Closed(p)))
  {
    CutSound(v, i);
    CutText(v, i);
    var p := CutAt(v, i);
    RepairOfPartial(p);
    if Closable(p) {
      MendedIsPrint(p);
      ParsePrint(Closed(p));
    }
  }

  // ---------- Which cuts are closable, read off the text ----------

  predicate Punctuation(c: char) {
    c == '[' || c == '{' || c == ',' || c == ':' || c == ']' || c == '}'
  }

  lemma LastOfAppend(a: string, b: string)
    requires b != ""
    ensures a + b != "" && (a + b)[|a + b| - 1] == b[|b| - 1]
  {
  }

  lemma {:induction false} PunctuationIsClosable(p: Partial)
    requires Sound(p) && !InsideString(p)
    requires PrintPartial(p) != ""
    requires Punctuation(PrintPartial(p)[|PrintPartial(p)| - 1])
    ensures Closable(p)
    decreases p
  {
    hide JoinOpen, Print, Escape, Join;
    match p
    case TornScalar(text, whole) => TornScalarChars(text, whole);
    case OpenArray(items, Inside(last)) =>
      PartialStarts(last);
      LastOfNested("[", ItemTexts(items), PrintPartial(last));
      PunctuationIsClosable(last);
    case OpenObject(members, Inside(m)) =>
      PartialMemberStarts(m);
      LastOfNested("{", MemberTexts(members), PrintPartialMember(m));
      PunctuationIsClosableMember(m);
    case _ =>
  }

  lemma LastOfNested(open: string, ss: seq<string>, s: string)
    requires s != ""
    ensures var t := open + JoinOpen(ss, Inside(s)); t != "" && t[|t| - 1] == s[|s| - 1]
  {
    JoinOpenAfter(open, ss, s);
    LastOfAppend(open + if ss == [] then "" else Join(ss) + ",", s);
  }

  lemma {:induction false} PunctuationIsClosableMember(m: PartialMember)
    requires SoundMember(m) && !MemberInsideString(m)
    requires PrintPartialMember(m) != ""
    requires Punctuation(PrintPartialMember(m)[|PrintPartialMember(m)| - 1])
    ensures ClosableMember(m)
    decreases m
  {
    if m.InValue? {
      PartialStarts(m.value);
      LastOfAppend(PrintString(m.key) + ":", PrintPartial(m.value));
      PunctuationIsClosable(m.value);
    }
  }

  /** A cut right after a bracket, a comma or a colon outside strings is always repaired. */
  lemma CutAfterPunctuation(v: Value, i: nat)
    requires Printable(v) && 0 < i <= |Print(v)|
    requires !Final(Print(v)[..i], START).inString && Punctuation(Print(v)[i - 1])
    ensures Closable(CutAt(v, i))
  {
    CutSound(v, i);
    CutText(v, i);
    OpenScan(CutAt(v, i), START);
    PunctuationIsClosable(CutAt(v, i));
  }

  // ---------- What is complete before the cut keeps its value ----------

  datatype Hop = Item(index: nat) | Field(key: string)

  /** No object of the document has two members with one key. */
  predicate DistinctKeys(v: Value) {
    match v
    case Array(items) => forall i :: 0 <= i < |items| ==> DistinctKeys(items[i])
    case Object(members) =>
      && (forall i :: 0 <= i < |members| ==> DistinctKeys(members[i].value))
      && Unique(members)
    case _ => true
  }

  predicate Unique(members: seq<Member>) {
    forall i, j :: 0 <= i < j < |members| ==> members[i].key != members[j].key
  }

  /** The value a path of indices and keys leads to. */
  function At(v: Value, path: seq<Hop>): Option<Value>
    decreases |path|
  {
    if path == [] then Some(v)
    else
      match (v, path[0])
      case (Array(items), Item(k)) => if k < |items| then At(items[k], path[1..]) else None
      case (Object(members), Field(key)) =>
        (match Lookup(members, key)
         case None => None
         case Some(u) => At(u, path[1..]))
      case _ => None
  }

  /** Where the text of element `k` starts in a printed list. */
  function StartOf(ss: seq<string>, k: nat): nat
    requires k < |ss|
  {
    if k == 0 then 0 else |ss[0]| + 1 + StartOf(ss[1..], k - 1)
  }

  function IndexOf(members: seq<Member>, key: string): (k: nat)
    requires Lookup(members, key).Some?
    ensures k < |members| && members[k].key == key && Lookup(members, key) == Some(members[k].value)
  {
    if members[|members| - 1].key == key then |members| - 1
    else IndexOf(members[..|members| - 1], key)
  }

  /** Where the text of the value at the end of the path ends. */
  function EndOf(v: Value, path: seq<Hop>): nat
    requires At(v, path).Some?
    decreases |path|
  {
    if path == [] then |Print(v)|
    else
      match v
      case Array(items) =>
        var k := path[0].index;
        1 + StartOf(ItemTexts(items), k) + EndOf(items[k], path[1..])
      case Object(members) =>
        var k := IndexOf(members, path[0].key);
        1 + StartOf(MemberTexts(members), k) + KeyLength(members[k]) + EndOf(members[k].value, path[1..])
  }

  lemma {:induction false} EndOfPositive(v: Value, path: seq<Hop>)
    requires Printable(v) && At(v, path).Some?
    ensures 0 < EndOf(v, path)
  {
    if path == [] {
      PrintStarts(v);
    }
  }

  lemma {:induction false} StartOfFits(ss: seq<string>, k: nat)
    requires k < |ss|
    ensures StartOf(ss, k) + |ss[k]| <= |Join(ss)|
  {
    if k > 0 {
      StartOfFits(ss[1..], k - 1);
    }
  }

  /** If the cut is at least `e` characters into element `k`, that element is complete or at least as far. */
  lemma {:induction false} LocateReaches(ss: seq<string>, i: nat, k: nat, e: nat)
    requires k < |ss| && 0 < e <= |ss[k]| && StartOf(ss, k) + e <= i <= |Join(ss)|
    ensures var Spot(n, tail) := Locate(ss, i);
            k < n || (k == n && tail.Inside? && e <= tail.element)
  {
    if k > 0 {
      LocateReaches(ss[1..], i - |ss[0]| - 1, k - 1, e);
    }
  }

  lemma {:induction false} LookupUnique(members: seq<Member>, k: nat)
    requires Unique(members) && k < |members|
    ensures Lookup(members, members[k].key) == Some(members[k].value)
  {
    if k < |members| - 1 {
      LookupUnique(members[..|members| - 1], k);
    }
  }

  lemma {:induction false} EndOfFits(v: Value, path: seq<Hop>)
    requires At(v, path).Some?
    ensures EndOf(v, path) <= |Print(v)|
    decreases |path|
  {
    if path != [] {
      match v
      case Array(items) =>
        StartOfFits(ItemTexts(items), path[0].index);
        EndOfFits(items[path[0].index], path[1..]);
      case Object(members) =>
        var k := IndexOf(members, path[0].key);
        StartOfFits(MemberTexts(members), k);
        MemberLength(members, k);
        EndOfFits(members[k].value, path[1..]);
    }
  }

  lemma MemberLength(members: seq<Member>, k: nat)
    requires k < |members|
    ensures |MemberTexts(members)[k]| == |PrintString(members[k].key)| + 1 + |Print(members[k].value)|
  {
    assert MemberTexts(members)[k] == PrintMember(members[k]);
  }

  /**
   * Every value whose text ends at or before a closable cut is found in the repaired document
   * under the same path of indices and keys.
   */
  lemma {:induction false} CompleteValuesSurvive(v: Value, i: nat, path: seq<Hop>)
    requires Printable(v) && DistinctKeys(v) && 0 < i <= |Print(v)|
    requires Closable(CutAt(v, i))
    requires At(v, path).Some? && EndOf(v, path) <= i
    ensures At(Closed(CutAt(v, i)), path) == At(v, path)
    decreases |path|
  {
    if i < |Print(v)| && path != [] {
      match v
      case Array(items) => CompleteItemsSurvive(items, i, path);
      case Object(members) => CompleteMembersSurvive(members, i, path);
    }
  }

  lemma {:induction false} CompleteItemsSurvive(items: seq<Value>, i: nat, path: seq<Hop>)
    requires var v := Array(items);
             && Printable(v) && DistinctKeys(v) && 0 < i < |Print(v)| && Closable(CutArray(items, i))
             && path != [] && At(v, path).Some? && EndOf(v, path) <= i
    ensures At(Closed(CutArray(items, i)), path) == At(Array(items), path)
    decreases |path|, 0
  {
    var ss, k := ItemTexts(items), path[0].index;
    var Spot(n, tail) := Locate(ss, i - 1);
    EndOfPositive(items[k], path[1..]);
    EndOfFits(items[k], path[1..]);
    LocateReaches(ss, i - 1, k, EndOf(items[k], path[1..]));
    if k == n {
      CompleteValuesSurvive(items[k], tail.element, path[1..]);
    }
  }

  /** If the cut is at least `e` characters into the value of member `k`, that member is complete or at least as far. */
  lemma MemberReached(members: seq<Member>, i: nat, k: nat, e: nat)
    requires k < |members| && 0 < e <= |Print(members[k].value)|
    requires 1 + StartOf(MemberTexts(members), k) + KeyLength(members[k]) + e <= i < |Print(Object(members))|
    ensures var Spot(n, tail) := Locate(MemberTexts(members), i - 1);
            k < n || (k == n && tail.Inside? && KeyLength(members[k]) + e <= tail.element)
  {
    MemberLength(members, k);
    LocateReaches(MemberTexts(members), i - 1, k, KeyLength(members[k]) + e);
  }

  /** How far the value is from the start of its member. */
  function KeyLength(m: Member): nat {
    |PrintString(m.key)| + 1
  }

  /** What the closed object has in the place of member `k`. */
  lemma ClosedAt(members: seq<Member>, i: nat, k: nat)
    requires k < |members| && 0 < i < |Print(Object(members))| && Closable(CutObject(members, i))
    ensures var closed := Closed(CutObject(members, i)).members;
            var Spot(n, tail) := Locate(MemberTexts(members), i - 1);
            && (k < n ==> k < |closed| && closed[k] == members[k])
            && (k == n && tail.Inside? && tail.element > KeyLength(members[k]) ==>
                  && tail.element - KeyLength(members[k]) <= |Print(members[k].value)|
                  && var cut := CutAt(members[k].value, tail.element - KeyLength(members[k]));
                     k < |closed| && closed[k] == Member(members[k].key, Closed(cut)) && Closable(cut))
  {
    hide Escape, Join, Locate;
    MemberLength(members, k);
  }

  lemma AtField(members: seq<Member>, k: nat, path: seq<Hop>)
    requires Unique(members) && k < |members| && path != [] && path[0] == Field(members[k].key)
    ensures At(Object(members), path) == At(members[k].value, path[1..])
  {
    LookupUnique(members, k);
  }

  lemma {:induction false} CompleteMembersSurvive(members: seq<Member>, i: nat, path: seq<Hop>)
    requires var v := Object(members);
             && Printable(v) && DistinctKeys(v) && 0 < i < |Print(v)| && Closable(CutObject(members, i))
             && path != [] && At(v, path).Some? && EndOf(v, path) <= i
    ensures At(Closed(CutObject(members, i)), path) == At(Object(members), path)
    decreases |path|, 0
  {
    hide Join, Escape, Locate, StartOf, MemberTexts, CutAt, CutObject, Closable, PrintString, Unique;
    var k, closed := IndexOf(members, path[0].key), Closed(CutObject(members, i)).members;
    var m := members[k];
    var Spot(n, tail) := Locate(MemberTexts(members), i - 1);
    EndOfPositive(m.value, path[1..]);
    EndOfFits(m.value, path[1..]);
    MemberReached(members, i, k, EndOf(m.value, path[1..]));
    ClosedAt(members, i, k);
    if k == n {
      CompleteValuesSurvive(m.value, tail.element - KeyLength(m), path[1..]);
    }
    ClosedKeys(members, i);
    AtField(closed, k, path);
    AtField(members, k, path);
  }

  /** The members of the closed object are distinct: complete ones first, then perhaps the cut one. */
  lemma ClosedKeys(members: seq<Member>, i: nat)
    requires Unique(members) && 0 < i < |Print(Object(members))| && Closable(CutObject(members, i))
    ensures var closed := Closed(CutObject(members, i)).members;
            && |closed| <= |members| && Unique(closed)
            && forall j :: 0 <= j < |closed| ==> closed[j].key == members[j].key
  {
  }

  // ---------- The cut of a shallow document is shallow ----------

  lemma {:induction false} ClosedWithin(v: Value, i: nat, depth: nat)
    requires 0 < i <= |Print(v)| && NestedWithin(v, depth)
    ensures NestedWithin(Closed(CutAt(v, i)), depth)
    decreases v, 2
  {
    if i < |Print(v)| {
      match v
      case Array(items) => ClosedItemsWithin(items, i, depth);
      case Object(members) => ClosedMembersWithin(members, i, depth);
      case _ =>
    }
  }

  lemma {:induction false} ClosedItemsWithin(items: seq<Value>, i: nat, depth: nat)
    requires 0 < i < |Print(Array(items))| && NestedWithin(Array(items), depth)
    ensures NestedWithin(Closed(CutArray(items, i)), depth)
    decreases Array(items), 1
  {
    var Spot(n, tail) := Locate(ItemTexts(items), i - 1);
    if tail.Inside? {
      ClosedWithin(items[n], tail.element, depth - 1);
    }
  }

  lemma {:induction false} ClosedMembersWithin(members: seq<Member>, i: nat, depth: nat)
    requires 0 < i < |Print(Object(members))| && NestedWithin(Object(members), depth)
    ensures NestedWithin(Closed(CutObject(members, i)), depth)
    decreases Object(members), 1
  {
    hide Escape, Join, Locate, PrintMember, StartOf;
    var Spot(n, tail) := Locate(MemberTexts(members), i - 1);
    if tail.Inside? && tail.element > KeyLength(members[n]) {
      MemberLength(members, n);
      ClosedWithin(members[n].value, tail.element - KeyLength(members[n]), depth - 1);
    }
  }

  /** A closable cut of a document that reads back is repaired, and every value that is complete before it survives. */
  lemma RepairKeepsCompleteValues(v: Value, i: nat, path: seq<Hop>)
    requires Printable(v) && Shallow(v) && DistinctKeys(v) && 0 < i <= |Print(v)| && Closable(CutAt(v, i))
    requires At(v, path).Some? && EndOf(v, path) <= i
    ensures var r := Repair(Print(v)[..i]); Parse(r.text) == Some(r.value) && At(r.value, path) == At(v, path)
  {
    ClosedWithin(v, i, MAX_DEPTH);
    RepairOfPrefix(v, i);
    CompleteValuesSurvive(v, i, path);
  }
}
