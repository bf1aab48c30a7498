/** When an edit, an import or an offer is refused, and with which complaint; when it changes nothing. */
module InstructionDecisions {
  import opened Wrappers
  import opened InstructionLibrary

  // ---------- Saving a file ----------

  /** The file with this id that a search from the front finds. */
  predicate IsFirst(layers: seq<Layer>, id: string, k: nat) {
    k < |layers| && layers[k].id == id && forall i :: 0 <= i < k ==> layers[i].id != id
  }

  predicate IsMissing(lib: Library, id: string) {
    forall i :: 0 <= i < |lib.layers| ==> lib.layers[i].id != id
  }

  /** The file is not the one that the caller has seen, or the caller does not say which one that was. */
  ghost predicate IsStale(lib: Library, id: string, seen: Option<Layer>) {
    exists k: nat :: IsFirst(lib.layers, id, k) && seen != Some(lib.layers[k])
  }

  /** Another file has the name, up to case. */
  predicate IsTaken(rules: TextRules, lib: Library, id: Option<string>, name: string) {
    exists i :: 0 <= i < |lib.layers| && Some(lib.layers[i].id) != id
                && rules.lower(lib.layers[i].name) == rules.lower(name)
  }

  predicate IsBadInput(rules: TextRules, name: string, content: string) {
    rules.fileName(name).None? || rules.blank(content)
  }

  ghost predicate IsThere(lib: Library, id: Option<string>, name: string, content: string) {
    id.Some? && exists k: nat :: IsFirst(lib.layers, id.value, k) && lib.layers[k] == Layer(id.value, name, content)
  }

  /** Nothing speaks against the save in the library as it is. */
  ghost predicate IsWelcome(rules: TextRules, lib: Library, edit: Edit)
    requires edit.Save?
  {
    && !IsBadInput(rules, edit.name, edit.content)
    && (edit.id.Some? ==> !IsMissing(lib, edit.id.value) && !IsStale(lib, edit.id.value, edit.revision))
    && !IsTaken(rules, lib, edit.id, rules.fileName(edit.name).value)
  }

  /** The device may write one more revision. */
  predicate MayWrite(self: StageId, lib: Library) {
    self != 0 && lib.revision + 1 < MAX_U64
  }

  /** What a library that was valid before needs to be so with the file. */
  predicate FitsIn(rules: TextRules, self: StageId, lib: Library, edit: Edit)
    requires edit.Save? && rules.fileName(edit.name).Some?
  {
    var name := rules.fileName(edit.name).value;
    && MayWrite(self, lib) && rules.fileName(name) == Some(name)
    && (edit.id.None? ==> rules.isUuid(edit.newId) && IsMissing(lib, edit.newId))
  }

  ghost predicate SaveKeeps(rules: TextRules, lib: Library, edit: Edit)
    requires edit.Save?
  {
    IsWelcome(rules, lib, edit) && IsThere(lib, edit.id, rules.fileName(edit.name).value, edit.content)
  }

  ghost predicate SaveFails(rules: TextRules, self: StageId, current: Stored, edit: Edit, error: Error)
    requires edit.Save?
  {
    var lib := current.library;
    var changes := IsWelcome(rules, lib, edit) && !SaveKeeps(rules, lib, edit);
    match error
    case Invalid => IsBadInput(rules, edit.name, edit.content) || (changes && !FitsIn(rules, self, lib, edit))
    case NotFound =>
      !IsBadInput(rules, edit.name, edit.content) && edit.id.Some? && IsMissing(lib, edit.id.value)
    case Conflict =>
      && !IsBadInput(rules, edit.name, edit.content) && (edit.id.Some? ==> !IsMissing(lib, edit.id.value))
      && (|| (edit.id.Some? && IsStale(lib, edit.id.value, edit.revision))
          || IsTaken(rules, lib, edit.id, rules.fileName(edit.name).value))
    case Exhausted => changes && FitsIn(rules, self, lib, edit) && current.sequence >= LAST_SEQUENCE
    case _ => false
  }

  // ---------- Replacing the members of a role ----------

  predicate AreMembers(lib: Library, ids: seq<string>) {
    && (forall i, j :: 0 <= i < j < |ids| ==> ids[i] != ids[j])
    && (forall i :: 0 <= i < |ids| ==> !IsMissing(lib, ids[i]))
  }

  ghost predicate ReplaceKeeps(lib: Library, edit: Edit)
    requires edit.Replace?
  {
    && edit.allowed && AreMembers(lib, edit.ids)
    && forall id :: id in edit.ids <==> id in if edit.role.Core? then lib.core else lib.others
  }

  ghost predicate ReplaceFails(self: StageId, current: Stored, edit: Edit, error: Error)
    requires edit.Replace?
  {
    var lib := current.library;
    var changes := edit.allowed && AreMembers(lib, edit.ids) && !ReplaceKeeps(lib, edit);
    match error
    case Conflict => !edit.allowed
    case Invalid => edit.allowed && (!AreMembers(lib, edit.ids) || (changes && !MayWrite(self, lib)))
    case Exhausted => changes && MayWrite(self, lib) && current.sequence >= LAST_SEQUENCE
    case _ => false
  }

  ghost predicate EditKeeps(rules: TextRules, lib: Library, edit: Edit) {
    if edit.Save? then SaveKeeps(rules, lib, edit) else ReplaceKeeps(lib, edit)
  }

  ghost predicate EditFails(rules: TextRules, self: StageId, current: Stored, edit: Edit, error: Error) {
    if edit.Save? then SaveFails(rules, self, current, edit, error) else ReplaceFails(self, current, edit, error)
  }

  lemma {:induction false} PositionIsFirst(layers: seq<Layer>, id: string)
    ensures Position(layers, id) < |layers| ==> IsFirst(layers, id, Position(layers, id))
    ensures Position(layers, id) == |layers| <==> forall i :: 0 <= i < |layers| ==> layers[i].id != id
  {
    if layers != [] && layers[0].id != id {
      PositionIsFirst(layers[1..], id);
      assert forall i :: 1 <= i < |layers| ==> layers[i] == layers[1..][i - 1];
    }
  }

  lemma FirstIsUnique(layers: seq<Layer>, id: string, j: nat, k: nat)
    requires IsFirst(layers, id, j) && IsFirst(layers, id, k)
    ensures j == k
  {
  }

  /** The three questions about an id, answered by the search. */
  lemma SearchAnswers(lib: Library, id: string, seen: Option<Layer>, name: string, content: string)
    ensures var k := Position(lib.layers, id);
            && (IsMissing(lib, id) <==> k == |lib.layers|)
            && (IsStale(lib, id, seen) <==> k < |lib.layers| && seen != Some(lib.layers[k]))
            && (IsThere(lib, Some(id), name, content)
                <==> k < |lib.layers| && lib.layers[k] == Layer(id, name, content))
  {
    hide Position;
    PositionIsFirst(lib.layers, id);
    var k := Position(lib.layers, id);
    forall j: nat | k < |lib.layers| && IsFirst(lib.layers, id, j) ensures j == k {
      FirstIsUnique(lib.layers, id, j, k);
    }
  }

  /** What a save answers before anything is stored. */
  lemma SaveAnswers(rules: TextRules, lib: Library, edit: Edit)
    requires edit.Save?
    ensures var r := Edited(rules, edit, lib);
            && (r.Ok? <==> IsWelcome(rules, lib, edit))
            && (r == Err(Invalid) <==> IsBadInput(rules, edit.name, edit.content))
            && (r == Err(NotFound)
                <==> !IsBadInput(rules, edit.name, edit.content) && edit.id.Some? && IsMissing(lib, edit.id.value))
            && (r.Err? ==> r.error == Invalid || r.error == NotFound || r.error == Conflict)
  {
    hide Position, IsMissing, IsStale;
    if edit.id.Some? && rules.fileName(edit.name).Some? {
      SearchAnswers(lib, edit.id.value, edit.revision, rules.fileName(edit.name).value, edit.content);
    }
  }

  /** The edited library is the old one just when the file was there already. */
  lemma SaveChanges(rules: TextRules, lib: Library, edit: Edit)
    requires edit.Save? && Edited(rules, edit, lib).Ok?
    ensures Edited(rules, edit, lib).value == lib
            <==> IsThere(lib, edit.id, rules.fileName(edit.name).value, edit.content)
  {
    hide Position, IsTaken;
    var name := rules.fileName(edit.name).value;
    if edit.id.Some? {
      SearchAnswers(lib, edit.id.value, edit.revision, name, edit.content);
      var k, file := Position(lib.layers, edit.id.value), Layer(edit.id.value, name, edit.content);
      assert lib.layers[k := file][k] == file;
      assert lib.layers[k] == file ==> lib.layers[k := file] == lib.layers;
    } else {
      assert |Edited(rules, edit, lib).value.layers| == |lib.layers| + 1;
    }
  }

  lemma PutIsValid(rules: TextRules, layers: seq<Layer>, k: nat, file: Layer)
    requires ValidLayers(rules, layers) && k < |layers| && layers[k].id == file.id && ValidLayer(rules, file)
    requires forall i :: 0 <= i < |layers| && i != k ==> rules.lower(layers[i].name) != rules.lower(file.name)
    ensures ValidLayers(rules, layers[k := file]) && Ids(layers[k := file]) == Ids(layers)
  {
    var after := layers[k := file];
    assert forall i :: 0 <= i < |layers| ==> after[i].id == layers[i].id;
    assert forall i :: 0 <= i < |layers| && i != k ==> after[i] == layers[i];
    forall id ensures id in Ids(after) <==> id in Ids(layers) {
      if i :| 0 <= i < |layers| && layers[i].id == id {
        assert after[i].id == id;
      }
    }
  }

  lemma AddIsValid(rules: TextRules, layers: seq<Layer>, file: Layer)
    requires ValidLayers(rules, layers)
    requires forall i :: 0 <= i < |layers| ==> rules.lower(layers[i].name) != rules.lower(file.name)
    ensures ValidLayers(rules, layers + [file])
            <==> ValidLayer(rules, file) && forall i :: 0 <= i < |layers| ==> layers[i].id != file.id
    ensures Ids(layers) <= Ids(layers + [file])
  {
    var after := layers + [file];
    assert after[|layers|] == file;
    assert forall i :: 0 <= i < |layers| ==> after[i] == layers[i];
    forall id | id in Ids(layers) ensures id in Ids(after) {
      var i :| 0 <= i < |layers| && layers[i].id == id;
      assert after[i].id == id;
    }
  }

  /** Once it is welcome, a file makes a valid library invalid just when it does not fit in. */
  lemma SaveIsValid(rules: TextRules, self: StageId, lib: Library, edit: Edit)
    requires edit.Save? && Valid(rules, lib) && Edited(rules, edit, lib).Ok?
    ensures var after := Edited(rules, edit, lib).value;
            Valid(rules, after.(writer := self, revision := lib.revision + 1)) <==> FitsIn(rules, self, lib, edit)
  {
    var name := rules.fileName(edit.name).value;
    if edit.id.Some? {
      PositionIsFirst(lib.layers, edit.id.value);
      var k, file := Position(lib.layers, edit.id.value), Layer(edit.id.value, name, edit.content);
      assert rules.isUuid(lib.layers[k].id);
      assert lib.layers[k := file][k] == file;
      if ValidLayer(rules, file) {
        forall i | 0 <= i < |lib.layers| && i != k ensures Some(lib.layers[i].id) != edit.id {
          assert UniqueIds(lib.layers);
        }
        PutIsValid(rules, lib.layers, k, file);
      }
    } else {
      AddIsValid(rules, lib.layers, Layer(edit.newId, name, edit.content));
    }
  }

  /** Every answer to a save on a valid library, exactly. */
  lemma SaveIsDecided(rules: TextRules, self: StageId, current: Stored, edit: Edit)
    requires edit.Save? && Valid(rules, current.library)
    ensures var plan := PlanEdit(rules, self, current, edit);
            && (plan == Keep <==> SaveKeeps(rules, current.library, edit))
            && forall error :: plan == Refuse(error) <==> SaveFails(rules, self, current, edit, error)
  {
    hide Edited, Valid, IsWelcome, IsThere, IsStale, IsTaken, IsMissing, FitsIn;
    var lib := current.library;
    assert lib.revision < MAX_U64 by { ValidRevision(rules, lib); }
    SaveAnswers(rules, lib, edit);
    SaveRefusals(rules, lib, edit);
    if Edited(rules, edit, lib).Ok? {
      EditKeepsBinding(rules, edit, lib);
      SaveChanges(rules, lib, edit);
      SaveIsValid(rules, self, lib, edit);
    }
  }

  lemma ValidRevision(rules: TextRules, lib: Library)
    requires Valid(rules, lib)
    ensures lib.revision < MAX_U64
  {
  }

  lemma SaveRefusals(rules: TextRules, lib: Library, edit: Edit)
    requires edit.Save?
    ensures !IsWelcome(rules, lib, edit)
            <==> || IsBadInput(rules, edit.name, edit.content)
                 || (edit.id.Some? && (IsMissing(lib, edit.id.value) || IsStale(lib, edit.id.value, edit.revision)))
                 || IsTaken(rules, lib, edit.id, rules.fileName(edit.name).value)
  {
  }

  // ---------- And the answers to the other requests ----------

  lemma MembersAreKnown(lib: Library, ids: seq<string>)
    ensures AreMembers(lib, ids)
            <==> !((exists i, j :: 0 <= i < j < |ids| && ids[i] == ids[j])
                   || (exists i :: 0 <= i < |ids| && !HasLayer(lib, ids[i])))
  {
    assert forall i :: 0 <= i < |ids| ==> (HasLayer(lib, ids[i]) <==> !IsMissing(lib, ids[i]));
  }

  lemma RoleIsValid(rules: TextRules, self: StageId, lib: Library, edit: Edit)
    requires edit.Replace? && Valid(rules, lib) && Edited(rules, edit, lib).Ok?
    ensures var after := Edited(rules, edit, lib).value;
            && (after == lib <==> ReplaceKeeps(lib, edit))
            && (Valid(rules, after.(writer := self, revision := lib.revision + 1)) <==> MayWrite(self, lib))
  {
    MembersAreKnown(lib, edit.ids);
    var now := set i | 0 <= i < |edit.ids| :: edit.ids[i];
    assert forall id :: id in now <==> id in edit.ids;
    forall id | id in now ensures id in Ids(lib.layers) {
      var i :| 0 <= i < |edit.ids| && edit.ids[i] == id;
      assert HasLayer(lib, edit.ids[i]);
    }
    if ReplaceKeeps(lib, edit) {
      assert now == if edit.role.Core? then lib.core else lib.others;
    }
  }

  lemma ReplaceIsDecided(rules: TextRules, self: StageId, current: Stored, edit: Edit)
    requires edit.Replace? && Valid(rules, current.library)
    ensures var plan := PlanEdit(rules, self, current, edit);
            && (plan == Keep <==> ReplaceKeeps(current.library, edit))
            && forall error :: plan == Refuse(error) <==> ReplaceFails(self, current, edit, error)
  {
    hide Valid;
    ValidRevision(rules, current.library);
    MembersAreKnown(current.library, edit.ids);
    if Edited(rules, edit, current.library).Ok? {
      EditKeepsBinding(rules, edit, current.library);
      RoleIsValid(rules, self, current.library, edit);
    }
  }

  /** Every answer to an edit of a valid library, exactly; what is neither refused nor kept is stored. */
  lemma EditIsDecided(rules: TextRules, self: StageId, current: Stored, edit: Edit)
    requires Valid(rules, current.library)
    ensures var plan := PlanEdit(rules, self, current, edit);
            && (plan == Keep <==> EditKeeps(rules, current.library, edit))
            && forall error :: plan == Refuse(error) <==> EditFails(rules, self, current, edit, error)
  {
    if edit.Save? {
      SaveIsDecided(rules, self, current, edit);
    } else {
      ReplaceIsDecided(rules, self, current, edit);
    }
  }

  /** The download is what the record says, and a valid library. */
  predicate IsGenuine(rules: TextRules, record: Record, bytes: Library) {
    && record.content == bytes && Valid(rules, bytes)
    && record.revision == bytes.revision && record.writer == bytes.writer
  }

  predicate IsVerified(record: Record, authorised: bool) {
    authorised && 0 < record.revision < MAX_U64
  }

  /** Stale and known libraries are no error: they are kept out in silence. */
  predicate ImportKeeps(rules: TextRules, current: Library, record: Record, bytes: Library, authorised: bool) {
    && IsVerified(record, authorised) && IsGenuine(rules, record, bytes)
    && (Older(bytes, current) || bytes == current)
  }

  predicate ImportFails(rules: TextRules, current: Stored, record: Record, bytes: Library, authorised: bool,
                        error: Error)
  {
    var good := IsVerified(record, authorised) && IsGenuine(rules, record, bytes);
    match error
    case Unverified => !IsVerified(record, authorised)
    case ContentMismatch => IsVerified(record, authorised) && record.content != bytes
    case Invalid => IsVerified(record, authorised) && record.content == bytes && !Valid(rules, bytes)
    case RevisionMismatch =>
      && IsVerified(record, authorised) && record.content == bytes && Valid(rules, bytes)
      && (record.revision != bytes.revision || record.writer != bytes.writer)
    case Conflict => good && SameBinding(bytes, current.library) && bytes != current.library
    case Exhausted => good && Older(current.library, bytes) && current.sequence >= LAST_SEQUENCE
    case _ => false
  }

  lemma ImportIsDecided(rules: TextRules, current: Stored, record: Record, bytes: Library, authorised: bool)
    ensures var plan := PlanImport(rules, current, record, bytes, authorised);
            && (plan == Keep <==> ImportKeeps(rules, current.library, record, bytes, authorised))
            && (forall error :: plan == Refuse(error)
                                <==> ImportFails(rules, current, record, bytes, authorised, error))
            && (plan.Store? ==> plan.next == Stored(bytes, Some(record), current.sequence + 1))
  {
    hide Valid;
  }

  /** The stored signature is over exactly the library. */
  predicate Names(record: Record, lib: Library) {
    record.content == lib && record.revision == lib.revision && record.writer == lib.writer
  }

  predicate OfferFails(self: StageId, current: Stored, error: Error) {
    var lib := current.library;
    && lib.revision != 0
    && match error
       case Unverified => current.signed.Some? && !(0 < current.signed.value.revision < MAX_U64)
       case SignatureMismatch =>
         current.signed.Some? && 0 < current.signed.value.revision < MAX_U64 && !Names(current.signed.value, lib)
       case SignerUnavailable => current.signed.None? && lib.writer != self
       case _ => false
  }

  lemma OfferIsDecided(self: StageId, current: Stored, issuedAt: int)
    ensures var plan, lib := PlanOffer(self, current, issuedAt), current.library;
            && (plan == Nothing <==> lib.revision == 0)
            && (forall error :: plan == Decline(error) <==> OfferFails(self, current, error))
            && (plan.Forward? ==> current.signed == Some(plan.record) && Names(plan.record, lib))
            && (plan.Sign? ==> current.signed == None && lib.writer == self && Names(plan.record, lib)
                               && plan.record.issuedAt == issuedAt
                               && plan.next == Stored(lib, Some(plan.record), current.sequence))
  {
  }

  // ---------- What makes a library valid ----------

  function SetOf(s: seq<string>): set<string> {
    set i | 0 <= i < |s| :: s[i]
  }

  ghost predicate Distinct(s: seq<string>) {
    forall i, j :: 0 <= i < j < |s| ==> s[i] != s[j]
  }

  /** No string occurs twice just when there are as many strings as places. */
  lemma {:induction false} DistinctMeans(s: seq<string>)
    ensures |SetOf(s)| <= |s| && (|SetOf(s)| == |s| <==> Distinct(s))
    decreases |s|
  {
    if s != [] {
      var n := |s| - 1;
      var front, last := s[..n], s[n];
      DistinctMeans(front);
      forall x ensures x in SetOf(s) <==> x in SetOf(front) || x == last {
        if i :| 0 <= i < |front| && front[i] == x {
          assert s[i] == x;
        }
      }
      assert SetOf(s) == SetOf(front) + {last};
      assert last in SetOf(front) ==> SetOf(s) == SetOf(front);
      assert forall i :: 0 <= i < n ==> front[i] == s[i];
    }
  }

  function IdsOf(layers: seq<Layer>): seq<string> {
    seq(|layers|, i requires 0 <= i < |layers| => layers[i].id)
  }

  function NamesOf(rules: TextRules, layers: seq<Layer>): seq<string> {
    seq(|layers|, i requires 0 <= i < |layers| => rules.lower(layers[i].name))
  }

  /** Version, revision, writer, every file on its own, as many ids and names as files, and roles of known files. */
  lemma ValidMeans(rules: TextRules, lib: Library)
    ensures Valid(rules, lib)
            <==> && lib.version == 1 && lib.revision < 0xFFFF_FFFF_FFFF_FFFF && lib.writer != 0
                 && (forall file :: file in lib.layers ==>
                       && rules.isUuid(file.id) && rules.fileName(file.name) == Some(file.name)
                       && !rules.blank(file.content))
                 && |SetOf(IdsOf(lib.layers))| == |lib.layers| == |SetOf(NamesOf(rules, lib.layers))|
                 && lib.core <= SetOf(IdsOf(lib.layers)) && lib.others <= SetOf(IdsOf(lib.layers))
  {
    var layers := lib.layers;
    var ids, names := IdsOf(layers), NamesOf(rules, layers);
    DistinctMeans(ids);
    DistinctMeans(names);
    assert Distinct(ids) <==> UniqueIds(layers) by {
      assert forall i :: 0 <= i < |layers| ==> ids[i] == layers[i].id;
    }
    assert Distinct(names) <==> UniqueNames(rules, layers) by {
      assert forall i :: 0 <= i < |layers| ==> names[i] == rules.lower(layers[i].name);
    }
    assert SetOf(ids) == Ids(layers) by {
      assert forall i :: 0 <= i < |layers| ==> ids[i] == layers[i].id;
    }
  }
}
