/**
 * The instruction library a device stores, and the decisions of its store: what an edit, an
 * import or an offer does to a stored library, before anything is written.
 */
module InstructionLibrary {
  import opened Wrappers

  const MAX_U64: nat := 0xFFFF_FFFF_FFFF_FFFF

  /** A 64-bit revision. */
  type Revision = n: nat | n <= MAX_U64

  /** A device identity; 0 is the nil identifier. */
  type StageId = nat

  datatype Layer = Layer(id: string, name: string, content: string)

  datatype Library = Library(
    version: nat, revision: Revision, writer: StageId,
    layers: seq<Layer>, core: set<string>, others: set<string>)

  /**
   * A signed account record. `content` stands for the digest of the library's serialised bytes:
   * serialisation is taken to be canonical and the digest injective.
   */
  datatype Record = Record(issuedAt: int, revision: Revision, writer: StageId, content: Library)

  datatype Stored = Stored(library: Library, signed: Option<Record>, sequence: nat)

  datatype Error =
    | Invalid | NotFound | Conflict | Exhausted
    | Unverified | ContentMismatch | RevisionMismatch
    | SignatureMismatch | SignerUnavailable

  /** The text rules the store takes from its libraries: UUID syntax, case folding, file names, blankness. */
  datatype TextRules = TextRules(
    isUuid: string -> bool,
    lower: string -> string,
    fileName: string -> Option<string>,
    blank: string -> bool)

  // ---------- Bindings ----------

  /** Strictly older: the lexicographic order on (revision, writer). */
  predicate Older(a: Library, b: Library) {
    a.revision < b.revision || (a.revision == b.revision && a.writer < b.writer)
  }

  predicate SameBinding(a: Library, b: Library) {
    a.revision == b.revision && a.writer == b.writer
  }

  predicate NotNewer(a: Library, b: Library) {
    Older(a, b) || SameBinding(a, b)
  }

  // ---------- Validation ----------

  predicate ValidLayer(rules: TextRules, layer: Layer) {
    && rules.isUuid(layer.id)
    && rules.fileName(layer.name) == Some(layer.name)
    && !rules.blank(layer.content)
  }

  predicate UniqueIds(layers: seq<Layer>) {
    forall i, j :: 0 <= i < j < |layers| ==> layers[i].id != layers[j].id
  }

  predicate UniqueNames(rules: TextRules, layers: seq<Layer>) {
    forall i, j :: 0 <= i < j < |layers| ==> rules.lower(layers[i].name) != rules.lower(layers[j].name)
  }

  predicate ValidLayers(rules: TextRules, layers: seq<Layer>) {
    && (forall i :: 0 <= i < |layers| ==> ValidLayer(rules, layers[i]))
    && UniqueIds(layers) && UniqueNames(rules, layers)
  }

  function Ids(layers: seq<Layer>): set<string> {
    set i | 0 <= i < |layers| :: layers[i].id
  }

  /** Every file is well formed, ids and case-folded names are unique, and roles name known files. */
  predicate Valid(rules: TextRules, lib: Library) {
    && lib.version == 1 && lib.revision != MAX_U64 && lib.writer != 0
    && ValidLayers(rules, lib.layers)
    && lib.core + lib.others <= Ids(lib.layers)
  }

  method ValidateLayers(rules: TextRules, layers: seq<Layer>) returns (ok: bool, ids: set<string>)
    ensures ok == ValidLayers(rules, layers)
    ensures ok ==> ids == Ids(layers)
  {
    ids := {};
    var names: set<string> := {};
    for k := 0 to |layers|
      invariant ids == Ids(layers[..k])
      invariant names == set i | 0 <= i < k :: rules.lower(layers[i].name)
      invariant ValidLayers(rules, layers[..k])
    {
      var layer := layers[k];
      assert layers[..k + 1] == layers[..k] + [layer];
      if !ValidLayer(rules, layer) {
        assert layers[k] == layer;
        return false, ids;
      }
      if layer.id in ids {
        var i :| 0 <= i < k && layers[..k][i].id == layer.id;
        assert !UniqueIds(layers);
        return false, ids;
      }
      if rules.lower(layer.name) in names {
        assert !UniqueNames(rules, layers);
        return false, ids;
      }
      ids := ids + {layer.id};
      names := names + {rules.lower(layer.name)};
    }
    assert layers[..|layers|] == layers;
    ok := true;
  }

  method Validate(rules: TextRules, lib: Library) returns (ok: bool)
    ensures ok == Valid(rules, lib)
  {
    if lib.version != 1 || lib.revision == MAX_U64 || lib.writer == 0 {
      return false;
    }
    var valid, ids := ValidateLayers(rules, lib.layers);
    ok := valid && lib.core + lib.others <= ids;
  }

  // ---------- Decisions ----------

  /** The last sequence number that a store can be given. */
  const LAST_SEQUENCE: nat := 0x20_0000_0000_0000 - 2

  function NextSequence(sequence: nat): Option<nat> {
    if sequence + 1 <= MAX_U64 && sequence + 1 < 0x20_0000_0000_0000 - 1 then Some(sequence + 1) else None
  }

  function Initial(writer: StageId): Stored {
    Stored(Library(1, 0, writer, [], {}, {}), None, 0)
  }

  /** What opening the store finds; None when the store refuses to open. */
  function Open(rules: TextRules, writer: StageId, file: Option<Stored>): Option<Stored> {
    var data := if file.Some? then file.value else Initial(writer);
    if Valid(rules, data.library) && NextSequence(data.sequence).Some? then Some(data) else None
  }

  datatype Role = Core | Others

  /** A local edit. A layer's revision digest is taken to be the layer itself; `newId` is the new id drawn. */
  datatype Edit =
    | Save(id: Option<string>, revision: Option<Layer>, name: string, content: string, newId: string)
    | Replace(role: Role, ids: seq<string>, allowed: bool)

  predicate HasLayer(lib: Library, id: string) {
    exists i :: 0 <= i < |lib.layers| && lib.layers[i].id == id
  }

  function Position(layers: seq<Layer>, id: string): (k: nat)
    ensures k <= |layers|
    ensures k < |layers| ==> layers[k].id == id
  {
    if layers == [] || layers[0].id == id then 0 else 1 + Position(layers[1..], id)
  }

  function Edited(rules: TextRules, edit: Edit, lib: Library): Result<Library, Error> {
    match edit
    case Save(id, revision, rawName, content, newId) =>
      (match rules.fileName(rawName)
       case None => Err(Invalid)
       case Some(name) =>
         if rules.blank(content) then Err(Invalid)
         else
           var k := if id.Some? then Position(lib.layers, id.value) else |lib.layers|;
           if id.Some? && k == |lib.layers| then Err(NotFound)
           else if id.Some? && revision != Some(lib.layers[k]) then Err(Conflict)
           else if exists i :: 0 <= i < |lib.layers| && Some(lib.layers[i].id) != id
                               && rules.lower(lib.layers[i].name) == rules.lower(name) then Err(Conflict)
           else
             var file := Layer(if id.Some? then id.value else newId, name, content);
             Ok(lib.(layers := if id.Some? then lib.layers[k := file] else lib.layers + [file])))
    case Replace(role, ids, allowed) =>
      if !allowed then Err(Conflict)
      else if (exists i, j :: 0 <= i < j < |ids| && ids[i] == ids[j])
              || (exists i :: 0 <= i < |ids| && !HasLayer(lib, ids[i])) then Err(Invalid)
      else
        var members := set i | 0 <= i < |ids| :: ids[i];
        Ok(if role.Core? then lib.(core := members) else lib.(others := members))
  }

  /** A decision: refuse, leave everything as it is, or store a new state. */
  datatype Plan = Refuse(error: Error) | Keep | Store(next: Stored)

  function PlanEdit(rules: TextRules, self: StageId, current: Stored, edit: Edit): Plan {
    match Edited(rules, edit, current.library)
    case Err(e) => Refuse(e)
    case Ok(changed) =>
      if changed == current.library then Keep
      else if changed.revision + 1 > MAX_U64 then Refuse(Exhausted)
      else
        var library := changed.(writer := self, revision := changed.revision + 1);
        if !Valid(rules, library) then Refuse(Invalid)
        else if NextSequence(current.sequence).None? then Refuse(Exhausted)
        else Store(Stored(library, None, NextSequence(current.sequence).value))
  }

  /** What verification of an authentic record still checks. */
  predicate Acceptable(record: Record) {
    record.revision != 0 && record.revision != MAX_U64
  }

  /** `bytes` is what was downloaded for the record; `authorised` tells whether the signer still is. */
  function PlanImport(rules: TextRules, current: Stored, record: Record, bytes: Library, authorised: bool): Plan {
    if !authorised || !Acceptable(record) then Refuse(Unverified)
    else if record.content != bytes then Refuse(ContentMismatch)
    else if !Valid(rules, bytes) then Refuse(Invalid)
    else if bytes.revision != record.revision || bytes.writer != record.writer then Refuse(RevisionMismatch)
    else if Older(bytes, current.library) then Keep
    else if SameBinding(bytes, current.library) then
      if bytes != current.library then Refuse(Conflict) else Keep
    else if NextSequence(current.sequence).None? then Refuse(Exhausted)
    else Store(Stored(bytes, Some(record), NextSequence(current.sequence).value))
  }

  datatype OfferPlan = Decline(error: Error) | Nothing | Forward(record: Record) | Sign(next: Stored, record: Record)

  function PlanOffer(self: StageId, current: Stored, issuedAt: int): OfferPlan {
    if current.library.revision == 0 then Nothing
    else
      match current.signed
      case Some(record) =>
        if !Acceptable(record) then Decline(Unverified)
        else if record.content != current.library
                || record.revision != current.library.revision || record.writer != current.library.writer
        then Decline(SignatureMismatch)
        else Forward(record)
      case None =>
        if current.library.writer != self then Decline(SignerUnavailable)
        else
          var record := Record(issuedAt, current.library.revision, self, current.library);
          Sign(current.(signed := Some(record)), record)
  }

  // ---------- Facts about single decisions ----------

  /** An edit changes the files and roles only, never the version or the binding. */
  lemma EditKeepsBinding(rules: TextRules, edit: Edit, lib: Library)
    requires Edited(rules, edit, lib).Ok?
    ensures var after := Edited(rules, edit, lib).value;
            after.version == lib.version && SameBinding(after, lib)
  {
  }

  /** A stored edit is the direct successor of the current library, written by this device and unsigned. */
  lemma StoredEdit(rules: TextRules, self: StageId, current: Stored, edit: Edit)
    requires PlanEdit(rules, self, current, edit).Store?
    ensures var next := PlanEdit(rules, self, current, edit).next;
            && next.library.revision == current.library.revision + 1 && next.library.writer == self
            && Older(current.library, next.library) && Valid(rules, next.library)
            && next.signed == None && next.sequence == current.sequence + 1
  {
    EditKeepsBinding(rules, edit, current.library);
  }

  /** The file is in the library under its id with this name and content; other files and the roles are as before. */
  ghost predicate FileIsSaved(before: Library, after: Library, id: Option<string>, name: string, content: string,
                              newId: string)
  {
    var fileId := if id.Some? then id.value else newId;
    && (if id.Some? then HasLayer(before, fileId) && |after.layers| == |before.layers|
        else |after.layers| == |before.layers| + 1)
    && (exists k :: 0 <= k < |after.layers| && after.layers[k] == Layer(fileId, name, content)
                    && forall i :: 0 <= i < |before.layers| && i != k ==> after.layers[i] == before.layers[i])
    && (forall i :: 0 <= i < |before.layers| && before.layers[i].id != fileId ==> after.layers[i] == before.layers[i])
    && after.core == before.core && after.others == before.others && after.version == before.version
  }

  /** The role consists of these distinct ids, all of known files; the files and the other role are as before. */
  ghost predicate RoleIsReplaced(before: Library, after: Library, role: Role, ids: seq<string>) {
    var (now, kept) := if role.Core? then (after.core, after.others == before.others)
                       else (after.others, after.core == before.core);
    && (forall i, j :: 0 <= i < j < |ids| ==> ids[i] != ids[j])
    && (forall id :: id in ids <==> id in now) && (forall id :: id in ids ==> HasLayer(before, id))
    && kept && after.layers == before.layers && after.version == before.version
  }

  ghost predicate EditDone(rules: TextRules, edit: Edit, before: Library, after: Library) {
    match edit
    case Save(id, _, name, content, newId) =>
      rules.fileName(name).Some? && FileIsSaved(before, after, id, rules.fileName(name).value, content, newId)
    case Replace(role, ids, _) => RoleIsReplaced(before, after, role, ids)
  }

  lemma SavedFile(lib: Library, id: Option<string>, k: nat, name: string, content: string, newId: string)
    requires id.Some? ==> k == Position(lib.layers, id.value) && k < |lib.layers|
    ensures var file := Layer(if id.Some? then id.value else newId, name, content);
            var layers := if id.Some? then lib.layers[k := file] else lib.layers + [file];
            FileIsSaved(lib, lib.(layers := layers), id, name, content, newId)
  {
    var file := Layer(if id.Some? then id.value else newId, name, content);
    var layers := if id.Some? then lib.layers[k := file] else lib.layers + [file];
    var at := if id.Some? then k else |lib.layers|;
    assert layers[at] == file && forall i :: 0 <= i < |lib.layers| && i != at ==> layers[i] == lib.layers[i];
  }

  /** What an accepted edit leaves. */
  lemma EditedMeans(rules: TextRules, edit: Edit, lib: Library)
    requires Edited(rules, edit, lib).Ok?
    ensures EditDone(rules, edit, lib, Edited(rules, edit, lib).value)
  {
    match edit
    case Save(id, _, name, content, newId) =>
      var k := if id.Some? then Position(lib.layers, id.value) else |lib.layers|;
      SavedFile(lib, id, k, rules.fileName(name).value, content, newId);
    case Replace(_, _, _) =>
  }

  /** And so what a stored or unnecessary edit leaves. */
  lemma EditMeans(rules: TextRules, self: StageId, current: Stored, edit: Edit)
    ensures match PlanEdit(rules, self, current, edit)
            case Refuse(_) => true
            case Keep => EditDone(rules, edit, current.library, current.library)
            case Store(next) =>
              && EditDone(rules, edit, current.library, next.library) && next.sequence == current.sequence + 1
              && next.library.writer == self && Older(current.library, next.library)
  {
    if Edited(rules, edit, current.library).Ok? {
      EditedMeans(rules, edit, current.library);
      EditKeepsBinding(rules, edit, current.library);
    }
  }

  /** The newer of two libraries, the first when neither is. */
  function Newer(a: Library, b: Library): Library {
    if Older(a, b) then b else a
  }

  /** An accepted or stale import leaves the newer of the current and the offered library. */
  lemma ImportIsJoin(rules: TextRules, current: Stored, record: Record, bytes: Library, authorised: bool)
    requires !PlanImport(rules, current, record, bytes, authorised).Refuse?
    ensures var after := match PlanImport(rules, current, record, bytes, authorised)
                         case Store(next) => next.library
                         case _ => current.library;
            after == Newer(current.library, bytes)
  {
  }

  ghost predicate Agree(libraries: iset<Library>) {
    forall a, b :: a in libraries && b in libraries && SameBinding(a, b) ==> a == b
  }
}
