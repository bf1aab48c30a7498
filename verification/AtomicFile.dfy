/**
 * The atomic private write: create a temporary file, protect it, write it, sync it, rename it
 * over the target, protect the target, sync the directory, with a failure or a crash anywhere.
 */
module AtomicFile {
  import opened Wrappers

  datatype Content<T> = Complete(value: T) | Incomplete

  /** What a reader sees now, and what a power loss would leave. */
  datatype File<T> = File(cached: Content<T>, durable: Content<T>)

  /**
   * `temp` is the temporary file of the write under way; one that a crash left behind has another name
   * and is never read. `lasting` holds the target entries that a power loss may bring back: the one of
   * the last sync of the directory, and every one renamed into place since.
   */
  datatype Directory<T(==)> = Directory(temp: Option<File<T>>, target: Option<File<T>>, lasting: set<Option<File<T>>>)

  datatype Op = CreateTemp | ProtectTemp | WriteAll | SyncFile | Rename | ProtectTarget | SyncParent

  const OPS: seq<Op> := [CreateTemp, ProtectTemp, WriteAll, SyncFile, Rename, ProtectTarget, SyncParent]

  function Apply<T>(op: Op, d: Directory<T>, value: T): Directory<T> {
    match op
    case CreateTemp => d.(temp := Some(File(Incomplete, Incomplete)))
    case WriteAll => if d.temp.Some? then d.(temp := Some(File(Complete(value), d.temp.value.durable))) else d
    case SyncFile => if d.temp.Some? then d.(temp := Some(File(d.temp.value.cached, d.temp.value.cached))) else d
    case Rename => if d.temp.Some? then Directory(None, d.temp, d.lasting + {d.temp}) else d
    case SyncParent => d.(lasting := {d.target})
    case _ => d
  }

  /** The directory after the first `n` operations. */
  function After<T>(n: nat, d: Directory<T>, value: T): Directory<T>
    requires n <= |OPS|
  {
    if n == 0 then d else Apply(OPS[n - 1], After(n - 1, d, value), value)
  }

  /** The file has one content, which is complete and durable. */
  predicate Whole<T(==)>(entry: Option<File<T>>) {
    entry.Some? ==> entry.value.cached.Complete? && entry.value.cached == entry.value.durable
  }

  /** Whatever can be found at the target is whole. A temporary file may be there, from an earlier crash. */
  ghost predicate Sound<T>(d: Directory<T>) {
    d.target in d.lasting && forall e :: e in d.lasting ==> Whole(e)
  }

  function Visible<T>(d: Directory<T>): Option<Content<T>> {
    if d.target.Some? then Some(d.target.value.cached) else None
  }

  function Durable<T>(entry: Option<File<T>>): Option<Content<T>> {
    if entry.Some? then Some(entry.value.durable) else None
  }

  /** What the next process may find at the target: the visible file, or after a power loss a lasting one. */
  ghost predicate Finds<T>(d: Directory<T>, powerLoss: bool, c: Option<Content<T>>) {
    if powerLoss then exists e :: e in d.lasting && c == Durable(e) else c == Visible(d)
  }

  /**
   * A crash between any two operations, of the process or of the machine, leaves a complete file: the new
   * one or one that could be found before. It is the old one before the rename; the new one once the
   * directory is synced and, unless power was lost, from the rename on.
   */
  lemma CrashIsAtomic<T>(d: Directory<T>, value: T, n: nat, powerLoss: bool, c: Option<Content<T>>)
    requires Sound(d) && n <= |OPS| && Finds(After(n, d, value), powerLoss, c)
    ensures Finds(d, powerLoss, c) || c == Some(Complete(value))
    ensures c.Some? ==> c.value.Complete?
    ensures n < 5 ==> Finds(d, powerLoss, c)
    ensures n == |OPS| || (n >= 5 && !powerLoss) ==> c == Some(Complete(value))
  {
    Stages(d, value);
    assert n == 0 || n == 1 || n == 2 || n == 3 || n == 4 || n == 5 || n == 6 || n == 7;
  }

  lemma Stages<T>(d: Directory<T>, value: T)
    ensures var torn, unsynced := File(Incomplete, Incomplete), File(Complete(value), Incomplete);
            var whole := Some(Written(value));
            && After(0, d, value) == d
            && After(1, d, value) == After(2, d, value) == d.(temp := Some(torn))
            && After(3, d, value) == d.(temp := Some(unsynced))
            && After(4, d, value) == d.(temp := whole)
            && After(5, d, value) == After(6, d, value) == Directory(None, whole, d.lasting + {whole})
            && After(7, d, value) == Directory(None, whole, {whole})
  {
    assert After(1, d, value) == Apply(CreateTemp, d, value);
    assert After(2, d, value) == Apply(ProtectTemp, After(1, d, value), value);
    assert After(3, d, value) == Apply(WriteAll, After(2, d, value), value);
    assert After(4, d, value) == Apply(SyncFile, After(3, d, value), value);
    assert After(5, d, value) == Apply(Rename, After(4, d, value), value);
    assert After(6, d, value) == Apply(ProtectTarget, After(5, d, value), value);
    assert After(7, d, value) == Apply(SyncParent, After(6, d, value), value);
  }

  /** Without the file sync before the rename, a power loss can leave an incomplete file. */
  lemma FileSyncIsNeeded<T>(d: Directory<T>, value: T)
    ensures var skipped := Apply(SyncParent, Apply(Rename, After(3, d, value), value), value);
            Finds(skipped, true, Some(Incomplete))
  {
    Stages(d, value);
    var skipped := Apply(SyncParent, Apply(Rename, After(3, d, value), value), value);
    assert skipped.target == Some(File(Complete(value), Incomplete)) && skipped.target in skipped.lasting;
  }

  function Written<T>(value: T): File<T> {
    File(Complete(value), Complete(value))
  }

  /** The new file in place, with nothing temporary left. */
  function Renamed<T>(value: T, lasting: set<Option<File<T>>>): Directory<T> {
    Directory(None, Some(Written(value)), lasting)
  }

  predicate AfterRename(op: Op) {
    op == ProtectTarget || op == SyncParent
  }

  class AtomicFile<T(==)> {
    var directory: Directory<T>

    constructor (directory: Directory<T>)
      ensures this.directory == directory
    {
      this.directory := directory;
    }

    method Perform(op: Op, value: T, failing: Option<Op>) returns (ok: bool)
      modifies this
      ensures ok == (failing != Some(op))
      ensures directory == if ok then Apply(op, old(directory), value) else old(directory)
    {
      ok := failing != Some(op);
      if ok {
        directory := Apply(op, directory, value);
      }
    }

    /**
     * Performs the operations in order up to the failing one; a failure removes the temporary file.
     * Success means the new file is in place and synced. A failure leaves no temporary file of this write
     * and the old target, unless it struck between the rename and the end: then the new target is in place,
     * although the write reports an error. A directory that does not sync makes the code panic instead of
     * reporting; the directory is then the same.
     */
    method Write(value: T, failing: Option<Op>) returns (ok: bool)
      modifies this
      ensures ok <==> failing.None?
      ensures var whole := Some(Written(value));
              directory == if ok then Renamed(value, {whole})
                           else if AfterRename(failing.value) then Renamed(value, old(directory.lasting) + {whole})
                           else old(directory).(temp := None)
    {
      Stages(directory, value);
      ok := Perform(CreateTemp, value, failing);
      if ok { ok := Perform(ProtectTemp, value, failing); }
      if ok { ok := Perform(WriteAll, value, failing); }
      if ok { ok := Perform(SyncFile, value, failing); }
      if ok { ok := Perform(Rename, value, failing); }
      if ok { ok := Perform(ProtectTarget, value, failing); }
      if ok { ok := Perform(SyncParent, value, failing); }
      assert failing.Some? ==> failing.value.CreateTemp? || failing.value.ProtectTemp? || failing.value.WriteAll?
                               || failing.value.SyncFile? || failing.value.Rename? || failing.value.ProtectTarget?
                               || failing.value.SyncParent?;
      if !ok {
        directory := directory.(temp := None);
      }
    }
  }
}
