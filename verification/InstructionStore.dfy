/**
 * One device's instruction store: the state it holds in memory and on disk, and the methods
 * that decide, persist and only then publish a new state.
 */
module InstructionStore {
  import opened Wrappers
  import opened InstructionDecisions
  import opened InstructionLibrary
  import opened AtomicFile

  // ---------- The device as a value ----------

  /** Memory, the visible file, and the files a power loss may bring back. */
  datatype Device = Device(memory: Stored, disk: Option<Stored>, lasting: set<Option<Stored>>)

  /** How a write of the next state ends. */
  datatype Fate =
    | Completed
    | FailedBefore                          // an error before the rename: nothing changed
    | FailedAfter                           // an error after the rename: the file is new, the memory is not
    | CrashedBefore                         // the process dies before the rename and reopens
    | CrashedAfter                          // the process dies after the rename and reopens
    | LostPowerNew                          // the machine dies, and the new file is there
    | LostPowerOld(found: Option<Stored>)   // the machine dies, and an earlier file is there

  function Reopened(rules: TextRules, self: StageId, disk: Option<Stored>, lasting: set<Option<Stored>>)
    : Option<Device>
  {
    match Open(rules, self, disk)
    case None => None
    case Some(data) => Some(Device(data, disk, lasting))
  }

  /** The device after trying to persist and publish `next`; None when its store no longer opens. */
  function Persisted(rules: TextRules, self: StageId, device: Device, next: Stored, fate: Fate): Option<Device> {
    match fate
    case Completed => Some(Device(next, Some(next), {Some(next)}))
    case FailedBefore => Some(device)
    case FailedAfter => Some(device.(disk := Some(next), lasting := device.lasting + {Some(next)}))
    case CrashedBefore => Reopened(rules, self, device.disk, device.lasting)
    case CrashedAfter => Reopened(rules, self, Some(next), device.lasting + {Some(next)})
    case LostPowerNew => Reopened(rules, self, Some(next), {Some(next)})
    case LostPowerOld(found) => Reopened(rules, self, found, {found})
  }

  /** The fate of a write in which the given operation reports an error. */
  function FateOf(failing: Option<Op>): Fate {
    match failing
    case None => Completed
    case Some(op) => if AfterRename(op) then FailedAfter else FailedBefore
  }

  function Read(entry: Option<File<Stored>>): Option<Stored>
    requires Whole(entry)
  {
    if entry.Some? then Some(entry.value.cached.value) else None
  }

  ghost function ReadAll(entries: set<Option<File<Stored>>>): set<Option<Stored>>
    requires forall e :: e in entries ==> Whole(e)
  {
    set e | e in entries :: Read(e)
  }

  /** The device whose file is in this directory. */
  ghost function DeviceIn(memory: Stored, directory: Directory<Stored>): Device
    requires Sound(directory)
  {
    Device(memory, Read(directory.target), ReadAll(directory.lasting))
  }

  lemma ReadOneMore(entries: set<Option<File<Stored>>>, next: Stored)
    requires forall e :: e in entries ==> Whole(e)
    ensures var whole := Some(Written(next));
            (forall e :: e in entries + {whole} ==> Whole(e))
            && ReadAll(entries + {whole}) == ReadAll(entries) + {Some(next)} && ReadAll({whole}) == {Some(next)}
  {
    var whole := Some(Written(next));
    assert Read(whole) == Some(next);
    forall s ensures s in ReadAll(entries + {whole}) <==> s in ReadAll(entries) + {Some(next)} {
      if s in ReadAll(entries) {
        var e :| e in entries && Read(e) == s;
        assert e in entries + {whole};
      }
      if s == Some(next) {
        assert whole in entries + {whole};
      }
    }
  }

  datatype StoreError = Decided(error: Error) | WriteFailed

  // ---------- The store ----------

  class InstructionStore {
    const rules: TextRules
    const writer: StageId
    const file: AtomicFile<Stored>
    var data: Stored

    ghost predicate Valid()
      reads this, file
    {
      Sound(file.directory) && InstructionLibrary.Valid(rules, data.library)
    }

    ghost function View(): Device
      requires Valid()
      reads this, file
    {
      DeviceIn(data, file.directory)
    }

    constructor (rules: TextRules, writer: StageId, file: AtomicFile<Stored>, data: Stored)
      requires Sound(file.directory) && Open(rules, writer, Read(file.directory.target)) == Some(data)
      ensures Valid() && this.rules == rules && this.writer == writer && this.file == file
      ensures Some(View()) == Reopened(rules, writer, Read(file.directory.target), ReadAll(file.directory.lasting))
    {
      this.rules := rules;
      this.writer := writer;
      this.file := file;
      this.data := data;
    }

    /** Writes `next` and, when that succeeds, makes it the state in memory. */
    method Persist(next: Stored, failing: Option<Op>) returns (ok: bool)
      requires Valid() && InstructionLibrary.Valid(rules, next.library)
      modifies this, file
      ensures Valid() && ok == failing.None?
      ensures Some(View()) == Persisted(rules, writer, old(View()), next, FateOf(failing))
    {
      ghost var lasting := file.directory.lasting;
      ok := file.Write(next, failing);
      ReadOneMore({}, next);
      ReadOneMore(lasting, next);
      if ok {
        data := next;
      }
    }

    /** The one path of local edits: decide on a copy, persist, then publish. */
    method Update(edit: Edit, failing: Option<Op>) returns (r: Result<bool, StoreError>)
      requires Valid()
      modifies this, file
      ensures Valid()
      ensures match PlanEdit(rules, writer, old(data), edit)
              case Refuse(e) => r == Err(Decided(e)) && View() == old(View())
              case Keep => r == Ok(false) && View() == old(View())
              case Store(next) =>
                && Some(View()) == Persisted(rules, writer, old(View()), next, FateOf(failing))
                && r == if failing.None? then Ok(true) else Err(WriteFailed)
    {
      var plan := PlanEdit(rules, writer, data, edit);
      if plan.Store? {
        StoredEdit(rules, writer, data, edit);
      }
      match plan
      case Refuse(e) => return Err(Decided(e));
      case Keep => return Ok(false);
      case Store(next) =>
        var ok := Persist(next, failing);
        return if ok then Ok(true) else Err(WriteFailed);
    }

    /**
     * After a success the file is there as given, and nothing else about the files and the roles has changed. Each
     * refusal has its exact reason; a file that another save has changed since is never overwritten.
     */
    method Save(id: Option<string>, revision: Option<Layer>, name: string, content: string, newId: string,
                failing: Option<Op>) returns (r: Result<bool, StoreError>)
      requires Valid()
      modifies this, file
      ensures Valid()
      ensures r.Ok? ==> rules.fileName(name).Some?
                        && FileIsSaved(old(data.library), data.library, id, rules.fileName(name).value, content, newId)
                        && data.sequence == old(data.sequence) + if r.value then 1 else 0
      ensures r == Ok(false) || r.Err? ==> data == old(data)
      ensures r == Ok(true) ==> data.library.writer == writer && Older(old(data.library), data.library)
                                && file.directory.target == Some(Written(data))
      ensures r == Ok(false) <==> SaveKeeps(rules, old(data.library), Edit.Save(id, revision, name, content, newId))
      ensures forall error ::
                r == Err(Decided(error))
                <==> SaveFails(rules, writer, old(data), Edit.Save(id, revision, name, content, newId), error)
    {
      EditMeans(rules, writer, data, Edit.Save(id, revision, name, content, newId));
      SaveIsDecided(rules, writer, data, Edit.Save(id, revision, name, content, newId));
      r := Update(Edit.Save(id, revision, name, content, newId), failing);
    }

    /** After a success the role has exactly the ids, each of a known file, and nothing else has changed. */
    method Replace(role: Role, ids: seq<string>, allowed: bool, failing: Option<Op>)
      returns (r: Result<bool, StoreError>)
      requires Valid()
      modifies this, file
      ensures Valid()
      ensures r.Ok? ==> RoleIsReplaced(old(data.library), data.library, role, ids)
                        && data.sequence == old(data.sequence) + if r.value then 1 else 0
      ensures r == Ok(false) || r.Err? ==> data == old(data)
      ensures r == Ok(true) ==> data.library.writer == writer && Older(old(data.library), data.library)
                                && file.directory.target == Some(Written(data))
      ensures r == Ok(false) <==> ReplaceKeeps(old(data.library), Edit.Replace(role, ids, allowed))
      ensures forall error ::
                r == Err(Decided(error)) <==> ReplaceFails(writer, old(data), Edit.Replace(role, ids, allowed), error)
    {
      EditMeans(rules, writer, data, Edit.Replace(role, ids, allowed));
      ReplaceIsDecided(rules, writer, data, Edit.Replace(role, ids, allowed));
      r := Update(Edit.Replace(role, ids, allowed), failing);
    }

    method Import(record: Record, bytes: Library, authorised: bool, failing: Option<Op>)
      returns (r: Result<bool, StoreError>)
      requires Valid()
      modifies this, file
      ensures Valid()
      ensures match PlanImport(rules, old(data), record, bytes, authorised)
              case Refuse(e) => r == Err(Decided(e)) && View() == old(View())
              case Keep => r == Ok(false) && View() == old(View())
              case Store(next) =>
                && Some(View()) == Persisted(rules, writer, old(View()), next, FateOf(failing))
                && r == if failing.None? then Ok(true) else Err(WriteFailed)
      ensures r == Ok(false) <==> ImportKeeps(rules, old(data.library), record, bytes, authorised)
      ensures forall error ::
                r == Err(Decided(error)) <==> ImportFails(rules, old(data), record, bytes, authorised, error)
    {
      ImportIsDecided(rules, data, record, bytes, authorised);
      var plan := PlanImport(rules, data, record, bytes, authorised);
      match plan
      case Refuse(e) => return Err(Decided(e));
      case Keep => return Ok(false);
      case Store(next) =>
        var ok := Persist(next, failing);
        return if ok then Ok(true) else Err(WriteFailed);
    }

    /** The record to send to a peer: the stored one, or a new signature over a local edit, stored first. */
    method Offer(issuedAt: int, failing: Option<Op>) returns (r: Result<Option<Record>, StoreError>)
      requires Valid()
      modifies this, file
      ensures Valid()
      ensures match PlanOffer(writer, old(data), issuedAt)
              case Decline(e) => r == Err(Decided(e)) && View() == old(View())
              case Nothing => r == Ok(None) && View() == old(View())
              case Forward(record) => r == Ok(Some(record)) && View() == old(View())
              case Sign(next, record) =>
                && Some(View()) == Persisted(rules, writer, old(View()), next, FateOf(failing))
                && r == if failing.None? then Ok(Some(record)) else Err(WriteFailed)
      ensures r == Ok(None) <==> old(data.library.revision) == 0
      ensures forall error :: r == Err(Decided(error)) <==> OfferFails(writer, old(data), error)
      ensures data.library == old(data.library) && data.sequence == old(data.sequence)
    {
      OfferIsDecided(writer, data, issuedAt);
      var plan := PlanOffer(writer, data, issuedAt);
      match plan
      case Decline(e) => return Err(Decided(e));
      case Nothing => return Ok(None);
      case Forward(record) => return Ok(Some(record));
      case Sign(next, record) =>
        var ok := Persist(next, failing);
        return if ok then Ok(Some(record)) else Err(WriteFailed);
    }
  }
}
