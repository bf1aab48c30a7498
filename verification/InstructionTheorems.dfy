/** What holds in every state and along every run of the replicated instruction library. */
module InstructionTheorems {
  import opened Wrappers
  import opened InstructionLibrary
  import opened InstructionStore
  import opened InstructionProtocol
  import opened AtomicFile

  // ---------- Agreement ----------

  /** The libraries in some device's memory or in some offer. */
  ghost predicate IsPublished(w: World, lib: Library) {
    || (exists id :: id in w.devices && w.devices[id].memory.library == lib)
    || (exists r :: r in w.network && r.content == lib)
  }

  ghost function Published(w: World): iset<Library> {
    iset lib | IsPublished(w, lib)
  }

  /** In every state of every run, two published libraries with one binding are identical. */
  lemma Agreement(rules: TextRules, worlds: seq<World>, actions: seq<Action>, i: nat)
    requires IsRun(rules, worlds, actions) && Start(worlds[0]) && i < |worlds|
    ensures Agree(Published(worlds[i]))
  {
    RunKeepsInv(rules, worlds, actions, i);
    InvAgrees(rules, worlds[i]);
  }

  lemma InvAgrees(rules: TextRules, w: World)
    requires Inv(rules, w)
    ensures Agree(Published(w))
  {
    forall a, b | a in Published(w) && b in Published(w) && SameBinding(a, b) ensures a == b {
      if id :| id in w.devices && w.devices[id].memory.library == a {
        MemoryAgrees(rules, w, id, b);
      } else if id :| id in w.devices && w.devices[id].memory.library == b {
        MemoryAgrees(rules, w, id, a);
      }
    }
  }

  lemma MemoryAgrees(rules: TextRules, w: World, id: StageId, lib: Library)
    requires Inv(rules, w) && id in w.devices && lib in Published(w)
    requires SameBinding(lib, w.devices[id].memory.library)
    ensures lib == w.devices[id].memory.library
  {
    var mine := w.devices[id].memory;
    if e :| e in w.devices && w.devices[e].memory.library == lib {
      var theirs := w.devices[e].memory;
      if e != id {
        assert DeviceOk(rules, id, w.devices[id], w.network) && DeviceOk(rules, e, w.devices[e], w.network);
        if mine.library.writer != id {
          assert mine.signed.Some? && mine.signed.value in w.network;
        } else {
          assert theirs.signed.Some? && theirs.signed.value in w.network;
        }
      }
    }
  }

  /** The import's conflict refusal is unreachable, whatever bytes come with a record of the network. */
  lemma ImportNeverConflicts(rules: TextRules, worlds: seq<World>, actions: seq<Action>, i: nat,
                             id: StageId, record: Record, bytes: Library, authorised: bool)
    requires IsRun(rules, worlds, actions) && Start(worlds[0]) && i < |worlds|
    requires id in worlds[i].devices && record in worlds[i].network
    ensures PlanImport(rules, worlds[i].devices[id].memory, record, bytes, authorised) != Refuse(Conflict)
  {
    RunKeepsInv(rules, worlds, actions, i);
  }

  // ---------- Signature provenance ----------

  /**
   * An offer is never declined: nothing to offer before the first edit, a new signature only over
   * this device's own edit, and otherwise the stored record, which for another writer's library
   * is a record that writer's device signed and the network already knows.
   */
  lemma OfferNeverDeclines(rules: TextRules, worlds: seq<World>, actions: seq<Action>, i: nat, id: StageId,
                           issuedAt: int)
    requires IsRun(rules, worlds, actions) && Start(worlds[0]) && i < |worlds| && id in worlds[i].devices
    ensures var memory := worlds[i].devices[id].memory;
            match PlanOffer(id, memory, issuedAt)
            case Decline(_) => false
            case Nothing => memory.library.revision == 0
            case Forward(record) =>
              Matches(record, memory.library) && (record.writer != id ==> record in worlds[i].network)
            case Sign(next, record) =>
              Matches(record, memory.library) && record.writer == id && next.library == memory.library
  {
    RunKeepsInv(rules, worlds, actions, i);
    assert Valid(rules, worlds[i].devices[id].memory.library);
  }

  // ---------- Monotonicity ----------

  /** One step of one device's memory: nothing, a new signature, or one newer library and one more sequence number. */
  predicate Advances(a: Stored, b: Stored) {
    if b.library == a.library then b.sequence == a.sequence
    else Older(a.library, b.library) && b.sequence == a.sequence + 1
  }

  /** Power, where it is lost, brings back a state that the memory could have stepped to, or none that opens. */
  predicate Steady(rules: TextRules, w: World, a: Action)
    requires Enabled(w, a)
  {
    match Lost(rules, w, a)
    case None => true
    case Some(found) =>
      match Open(rules, a.device, found)
      case None => true
      case Some(data) => Advances(w.devices[a.device].memory, data)
  }

  /** The file last renamed into place, or the one being written, is safe to come back, and steady. */
  lemma LastFileIsSafe(rules: TextRules, w: World, a: Action)
    requires Inv(rules, w) && Enabled(w, a)
    requires Lost(rules, w, a).Some? ==> Lost(rules, w, a).value == w.devices[a.device].disk
    ensures SafePower(rules, w, a) && Steady(rules, w, a)
  {
    var id := a.device;
    var d := w.devices[id];
    assert DeviceOk(rules, id, d, w.network);
    if Lost(rules, w, a).Some? && Open(rules, id, d.disk).Some? {
      ReopenOk(rules, id, d, w.network);
      ReopenedAdvances(rules, id, d, w.network);
      assert DeviceOk(rules, id, Reopened(rules, id, d.disk, d.lasting).value, w.network);
    }
  }

  lemma ReopenedAdvances(rules: TextRules, self: StageId, d: Device, network: set<Record>)
    requires DeviceOk(rules, self, d, network) && Reopened(rules, self, d.disk, d.lasting).Some?
    ensures var after := Reopened(rules, self, d.disk, d.lasting).value;
            Advances(d.memory, after.memory) && after.disk == d.disk
            && (after.memory == d.memory || d.disk == Some(after.memory))
  {
  }

  /** What a power loss brings back is read from the file that is found. */
  lemma LostReads(rules: TextRules, w: World, a: Action)
    requires Enabled(w, a) && Lost(rules, w, a).Some? && Moved(rules, w, a).Some?
    ensures var found, after := Lost(rules, w, a).value, Moved(rules, w, a).value;
            && found in w.devices[a.device].lasting && after.disk == found
            && Open(rules, a.device, found) == Some(after.memory)
            && after.memory == (if found.Some? then found.value else Initial(a.device))
  {
  }

  /** A device that would fall back to its initial library has that library in memory, or one that is newer. */
  lemma NothingIsNotNewer(rules: TextRules, self: StageId, d: Device, network: set<Record>)
    requires DeviceOk(rules, self, d, network)
    ensures !Older(d.memory.library, Initial(self).library)
  {
  }

  /** The memory and the disk after a write are each one of the states before, or the new one. */
  lemma PersistedAdvances(rules: TextRules, self: StageId, d: Device, network: set<Record>, next: Stored, fate: Fate)
    requires DeviceOk(rules, self, d, network) && Follows(rules, self, d, next, network) && !fate.LostPowerOld?
    requires Persisted(rules, self, d, next, fate).Some?
    ensures var after := Persisted(rules, self, d, next, fate).value;
            && Advances(d.memory, after.memory)
            && (after.memory == d.memory || after.memory == next || d.disk == Some(after.memory))
            && after.disk == (if Lands(fate) then Some(next) else d.disk)
            && after.lasting <= d.lasting + {Some(next)}
  {
  }

  /** The new file gets to its place. */
  predicate Lands(fate: Fate) {
    fate.Completed? || fate.FailedAfter? || fate.CrashedAfter? || fate.LostPowerNew?
  }

  predicate StoresFile(rules: TextRules, w: World, a: Action)
    requires Enabled(w, a)
  {
    Proposed(rules, w, a).Some? && Lands(a.fate)
  }

  /** The file after the step. */
  function FileAfter(rules: TextRules, w: World, a: Action): Option<Stored>
    requires Enabled(w, a)
  {
    match Lost(rules, w, a)
    case Some(found) => found
    case None => if StoresFile(rules, w, a) then Proposed(rules, w, a) else w.devices[a.device].disk
  }

  /** While power is not lost, every step advances, and nothing new is there but what was proposed. */
  lemma PoweredAdvances(rules: TextRules, w: World, a: Action)
    requires Inv(rules, w) && Enabled(w, a) && Lost(rules, w, a).None? && Moved(rules, w, a).Some?
    ensures var d, after, proposed := w.devices[a.device], Moved(rules, w, a).value, Proposed(rules, w, a);
            && Advances(d.memory, after.memory) && after.disk == FileAfter(rules, w, a)
            && (after.memory == d.memory || proposed == Some(after.memory) || Some(after.memory) in d.lasting)
            && forall s :: s in after.lasting ==> s in d.lasting || (s.Some? && s == proposed)
  {
    var id, d := a.device, w.devices[a.device];
    assert DeviceOk(rules, id, d, w.network);
    if a.Restart? {
      ReopenedAdvances(rules, id, d, w.network);
    } else if Proposed(rules, w, a).Some? {
      ProposedFollows(rules, w, a);
      PersistedAdvances(rules, id, d, w.network, Proposed(rules, w, a).value, a.fate);
    }
  }

  lemma LostLasts(rules: TextRules, w: World, a: Action)
    requires Enabled(w, a) && Lost(rules, w, a).Some? && Moved(rules, w, a).Some?
    ensures Moved(rules, w, a).value.lasting == {Lost(rules, w, a).value}
  {
  }

  lemma MovedAdvances(rules: TextRules, w: World, a: Action)
    requires Inv(rules, w) && Enabled(w, a) && Steady(rules, w, a) && Moved(rules, w, a).Some?
    ensures var d, after, proposed := w.devices[a.device], Moved(rules, w, a).value, Proposed(rules, w, a);
            && Advances(d.memory, after.memory) && after.disk == FileAfter(rules, w, a)
            && (after.memory.library == d.memory.library || proposed == Some(after.memory)
                || Some(after.memory) in d.lasting)
            && forall s :: s in after.lasting ==> s in d.lasting || (s.Some? && s == proposed)
  {
    hide Moved, Proposed, Inv, Open;
    if Lost(rules, w, a).Some? {
      LostReads(rules, w, a);
      LostLasts(rules, w, a);
      DeviceIsOk(rules, w, a.device);
      NothingIsNotNewer(rules, a.device, w.devices[a.device], w.network);
    } else {
      PoweredAdvances(rules, w, a);
    }
  }

  lemma DeviceIsOk(rules: TextRules, w: World, id: StageId)
    requires Inv(rules, w) && id in w.devices
    ensures DeviceOk(rules, id, w.devices[id], w.network)
  {
  }

  ghost predicate IsSteadyStep(rules: TextRules, w: World, a: Action, after: World) {
    IsStep(rules, w, a, after) && Steady(rules, w, a)
  }

  /** A run in which every power loss leaves its device where it is or one change further. */
  ghost predicate IsSteadyRun(rules: TextRules, worlds: seq<World>, actions: seq<Action>) {
    && |worlds| == |actions| + 1
    && forall i :: 0 <= i < |actions| ==> IsSteadyStep(rules, worlds[i], actions[i], worlds[i + 1])
  }

  lemma SteadyStepAt(rules: TextRules, worlds: seq<World>, actions: seq<Action>, i: nat)
    requires IsSteadyRun(rules, worlds, actions) && i < |actions|
    ensures IsSteadyStep(rules, worlds[i], actions[i], worlds[i + 1])
  {
    var a := actions[i];
  }

  lemma SteadyRunIsRun(rules: TextRules, worlds: seq<World>, actions: seq<Action>)
    requires IsSteadyRun(rules, worlds, actions)
    ensures IsRun(rules, worlds, actions)
  {
    forall i | 0 <= i < |actions| ensures IsStep(rules, worlds[i], actions[i], worlds[i + 1]) {
      SteadyStepAt(rules, worlds, actions, i);
    }
  }

  lemma StepAdvances(rules: TextRules, w: World, a: Action, after: World, id: StageId)
    requires Inv(rules, w) && IsSteadyStep(rules, w, a, after) && id in after.devices
    ensures id in w.devices
    ensures Advances(w.devices[id].memory, after.devices[id].memory)
  {
    if id == a.device {
      MovedAdvances(rules, w, a);
    }
  }

  /** The guard is exact: the acting device advances, or takes no further part, just when the step is steady. */
  lemma SteadyIsExact(rules: TextRules, w: World, a: Action)
    requires Inv(rules, w) && Enabled(w, a)
    ensures Steady(rules, w, a)
            <==> (Moved(rules, w, a).Some? ==>
                    Advances(w.devices[a.device].memory, Moved(rules, w, a).value.memory))
  {
    hide Moved, Proposed, Inv, Open, Advances;
    if Moved(rules, w, a).Some? && Steady(rules, w, a) {
      MovedAdvances(rules, w, a);
    }
    if Lost(rules, w, a).Some? {
      LostOpens(rules, w, a);
    }
  }

  lemma LostOpens(rules: TextRules, w: World, a: Action)
    requires Enabled(w, a) && Lost(rules, w, a).Some?
    ensures var after, data := Moved(rules, w, a), Open(rules, a.device, Lost(rules, w, a).value);
            if after.Some? then data == Some(after.value.memory) else data == None
  {
  }

  /** An offer whose process survives leaves the library and the sequence alone. */
  lemma OfferChangesNoContent(rules: TextRules, w: World, a: Action)
    requires Enabled(w, a) && a.Offer? && (a.fate.Completed? || a.fate.FailedBefore? || a.fate.FailedAfter?)
    ensures Moved(rules, w, a).Some?
    ensures var before, after := w.devices[a.device].memory, Moved(rules, w, a).value.memory;
            after.library == before.library && after.sequence == before.sequence
  {
  }

  lemma FollowsAdvances(rules: TextRules, self: StageId, d: Device, next: Stored, network: set<Record>)
    requires Follows(rules, self, d, next, network)
    ensures Advances(d.memory, next)
  {
  }

  /**
   * A file that is not ahead of the memory never steps back, and each new one is one change further; only a power
   * loss can take it away.
   */
  lemma DiskAdvances(rules: TextRules, w: World, a: Action)
    requires Inv(rules, w) && Enabled(w, a) && Steady(rules, w, a) && Moved(rules, w, a).Some?
    requires var d := w.devices[a.device]; d.disk.None? || d.disk.value.library == d.memory.library
    ensures var before, after := w.devices[a.device].disk, Moved(rules, w, a).value.disk;
            && (before.Some? && Lost(rules, w, a) != Some(None) ==> after.Some?)
            && (after.Some? ==> Advances(w.devices[a.device].memory, after.value))
  {
    hide Moved, Open;
    MovedAdvances(rules, w, a);
    assert DeviceOk(rules, a.device, w.devices[a.device], w.network);
    if Lost(rules, w, a).Some? {
      LostReads(rules, w, a);
    } else if Proposed(rules, w, a).Some? {
      ProposedFollows(rules, w, a);
      FollowsAdvances(rules, a.device, w.devices[a.device], Proposed(rules, w, a).value, w.network);
    }
  }

  predicate StepsBack(before: Option<Stored>, after: Option<Stored>) {
    before.Some? && (after.None? || Older(after.value.library, before.value.library))
  }

  /**
   * A file steps back exactly when a power loss brings back an older one, or a write lands whose library is older than
   * the one on disk. Such a file is ahead of the memory: an error struck behind its rename, and the device went on
   * without reading it.
   */
  lemma FileStepsBack(rules: TextRules, w: World, a: Action)
    requires Inv(rules, w) && Enabled(w, a) && Moved(rules, w, a).Some?
    ensures var d, after := w.devices[a.device], Moved(rules, w, a).value;
            match Lost(rules, w, a)
            case Some(found) => after.disk == found
            case None =>
              && (StepsBack(d.disk, after.disk)
                  <==> d.disk.Some? && StoresFile(rules, w, a)
                       && Older(Proposed(rules, w, a).value.library, d.disk.value.library))
              && (StepsBack(d.disk, after.disk) ==> Older(d.memory.library, d.disk.value.library))
  {
    hide Moved, Lost, Proposed, SafePower;
    if Lost(rules, w, a).Some? {
      LostReads(rules, w, a);
    } else {
      PoweredAdvances(rules, w, a);
      assert DeviceOk(rules, a.device, w.devices[a.device], w.network);
      if Proposed(rules, w, a).Some? {
        ProposedFollows(rules, w, a);
      }
    }
  }

  /** How often a device's library changed between two states of a run. */
  ghost function Changes(worlds: seq<World>, id: StageId, i: nat, j: nat): nat
    requires i <= j < |worlds| && forall k :: i <= k <= j ==> id in worlds[k].devices
    decreases j - i
  {
    if i == j then 0
    else
      Changes(worlds, id, i, j - 1)
      + if worlds[j].devices[id].memory.library != worlds[j - 1].devices[id].memory.library then 1 else 0
  }

  lemma RunStepAdvances(rules: TextRules, worlds: seq<World>, actions: seq<Action>, id: StageId, k: nat)
    requires IsSteadyRun(rules, worlds, actions) && Start(worlds[0]) && k < |actions|
    requires id in worlds[k + 1].devices
    ensures id in worlds[k].devices
    ensures Advances(worlds[k].devices[id].memory, worlds[k + 1].devices[id].memory)
  {
    SteadyRunIsRun(rules, worlds, actions);
    RunKeepsInv(rules, worlds, actions, k);
    SteadyStepAt(rules, worlds, actions, k);
    StepAdvances(rules, worlds[k], actions[k], worlds[k + 1], id);
  }

  /** Along every steady run a binding never goes back, and the sequence counts the content changes exactly. */
  lemma {:induction false} RunAdvances(rules: TextRules, worlds: seq<World>, actions: seq<Action>, id: StageId,
                                       i: nat, j: nat)
    requires IsSteadyRun(rules, worlds, actions) && Start(worlds[0]) && i <= j < |worlds|
    requires id in worlds[j].devices
    ensures forall k :: i <= k <= j ==> id in worlds[k].devices
    ensures var a, b := worlds[i].devices[id].memory, worlds[j].devices[id].memory;
            && NotNewer(a.library, b.library) && (SameBinding(a.library, b.library) ==> a.library == b.library)
            && b.sequence == a.sequence + Changes(worlds, id, i, j)
    decreases j - i
  {
    if i < j {
      RunStepAdvances(rules, worlds, actions, id, j - 1);
      RunAdvances(rules, worlds, actions, id, i, j - 1);
    }
  }

  // ---------- Reopening ----------

  /** A reachable store reopens exactly when its sequence has not reached the last value it can be given. */
  lemma ReopensUnlessExhausted(rules: TextRules, worlds: seq<World>, actions: seq<Action>, i: nat, id: StageId)
    requires IsRun(rules, worlds, actions) && Start(worlds[0]) && i < |worlds| && id in worlds[i].devices
    ensures var d := worlds[i].devices[id];
            Reopened(rules, id, d.disk, d.lasting).Some? <==> (d.disk.Some? ==> d.disk.value.sequence < LAST_SEQUENCE)
  {
    RunKeepsInv(rules, worlds, actions, i);
    assert DeviceOk(rules, id, worlds[i].devices[id], worlds[i].network);
  }

  /** The last change a store accepts is the one it does not open with: an edit and an import alike. */
  lemma LastChangeDoesNotReopen(rules: TextRules, self: StageId, current: Stored)
    requires current.sequence == LAST_SEQUENCE - 1
    ensures Open(rules, self, Some(current)).Some? <==> Valid(rules, current.library)
    ensures forall edit :: PlanEdit(rules, self, current, edit).Store? ==>
                             Open(rules, self, Some(PlanEdit(rules, self, current, edit).next)) == None
    ensures forall record, bytes, authorised ::
              PlanImport(rules, current, record, bytes, authorised).Store? ==>
                Open(rules, self, Some(PlanImport(rules, current, record, bytes, authorised).next)) == None
  {
    forall edit | PlanEdit(rules, self, current, edit).Store?
      ensures Open(rules, self, Some(PlanEdit(rules, self, current, edit).next)) == None
    {
      StoredEdit(rules, self, current, edit);
    }
  }

  // ---------- The fates of a write ----------

  lemma ReadLasting(directory: Directory<Stored>, next: Stored, n: nat)
    requires Sound(directory) && n <= |OPS|
    ensures Sound(After(n, directory, next))
    ensures var lasting := ReadAll(After(n, directory, next).lasting);
            lasting == if n < 5 then ReadAll(directory.lasting)
                       else if n < |OPS| then ReadAll(directory.lasting) + {Some(next)} else {Some(next)}
  {
    Stages(directory, next);
    ReadOneMore(directory.lasting, next);
    ReadOneMore({}, next);
    assert n == 0 || n == 1 || n == 2 || n == 3 || n == 4 || n == 5 || n == 6 || n == 7;
  }

  /** The value of what a process finds. */
  function Value(c: Option<Content<Stored>>): Option<Stored>
    requires c.Some? ==> c.value.Complete?
  {
    if c.Some? then Some(c.value.value) else None
  }

  /**
   * From every sound directory, also one that earlier failures left unsynced or with a temporary file: a crash of the
   * process or the machine, between any two operations of the write or behind the last, ends in one of the fates.
   */
  lemma FatesCoverCrashes(rules: TextRules, self: StageId, memory: Stored, next: Stored,
                          directory: Directory<Stored>, n: nat, powerLoss: bool, c: Option<Content<Stored>>)
    requires Sound(directory) && n <= |OPS| && Finds(After(n, directory, next), powerLoss, c)
    ensures Sound(After(n, directory, next)) && (c.Some? ==> c.value.Complete?)
    ensures var d, found := DeviceIn(memory, directory), Value(c);
            var lasting := if powerLoss then {found} else ReadAll(After(n, directory, next).lasting);
            var after := Reopened(rules, self, found, lasting);
            if powerLoss then
              || (n >= 5 && after == Persisted(rules, self, d, next, LostPowerNew))
              || (n < |OPS| && found in d.lasting && after == Persisted(rules, self, d, next, LostPowerOld(found)))
            else
              after == Persisted(rules, self, d, next,
                                 if n < 5 then CrashedBefore else if n < |OPS| then CrashedAfter else LostPowerNew)
  {
    CrashIsAtomic(directory, next, n, powerLoss, c);
    Stages(directory, next);
    ReadLasting(directory, next, n);
    assert n == 0 || n == 1 || n == 2 || n == 3 || n == 4 || n == 5 || n == 6 || n == 7;
    if powerLoss && c != Some(Complete(next)) {
      var e :| e in directory.lasting && c == Durable(e);
      assert Read(e) == Value(c);
    }
  }

  // ---------- Convergence ----------

  /** Every library anywhere: in memory, in a file that is there or may come back, or in an offer. */
  ghost predicate Exists(w: World, lib: Library) {
    || (exists id :: id in w.devices && w.devices[id].memory.library == lib)
    || (exists id, s :: id in w.devices && s in w.devices[id].lasting && s.Some? && s.value.library == lib)
    || (exists r :: r in w.network && r.content == lib)
  }

  ghost predicate Newest(w: World, top: Library) {
    forall lib :: Exists(w, lib) ==> NotNewer(lib, top)
  }

  lemma NoEditProposesKnown(rules: TextRules, w: World, a: Action)
    requires Enabled(w, a) && !a.Update?
    ensures Proposed(rules, w, a).Some? ==> Exists(w, Proposed(rules, w, a).value.library)
  {
    assert Exists(w, w.devices[a.device].memory.library);
    assert a.Import? ==> Exists(w, a.record.content);
  }

  lemma SentIsMemory(rules: TextRules, w: World, a: Action)
    requires Inv(rules, w) && Enabled(w, a)
    ensures forall r :: r in Sent(rules, w, a) ==> Exists(w, r.content)
  {
    assert DeviceOk(rules, a.device, w.devices[a.device], w.network);
    assert Exists(w, w.devices[a.device].memory.library);
  }

  /** Without an edit, a step stores only libraries that were there. */
  lemma NoEditNoNewLibrary(rules: TextRules, w: World, a: Action)
    requires Inv(rules, w) && Enabled(w, a) && Steady(rules, w, a) && !a.Update? && Moved(rules, w, a).Some?
    ensures Exists(w, Moved(rules, w, a).value.memory.library)
    ensures forall s :: s in Moved(rules, w, a).value.lasting && s.Some? ==> Exists(w, s.value.library)
  {
    hide Moved, Steady, Inv, Proposed;
    var d, after := w.devices[a.device], Moved(rules, w, a).value;
    MovedAdvances(rules, w, a);
    NoEditProposesKnown(rules, w, a);
    assert Exists(w, d.memory.library);
    assert forall s :: s in d.lasting && s.Some? ==> Exists(w, s.value.library);
    if Some(after.memory) in d.lasting {
      assert Exists(w, after.memory.library);
    }
  }

  lemma NewestStays(rules: TextRules, w: World, a: Action, after: World, top: Library)
    requires Inv(rules, w) && IsSteadyStep(rules, w, a, after) && !a.Update? && Newest(w, top)
    ensures Newest(after, top)
  {
    hide Inv, Moved, Sent, SafePower, Steady;
    if Moved(rules, w, a).Some? {
      NoEditNoNewLibrary(rules, w, a);
    }
    SentIsMemory(rules, w, a);
    forall lib | Exists(after, lib) ensures Exists(w, lib) {
      if r :| r in after.network && r.content == lib {
      } else if id :| id in after.devices && after.devices[id].memory.library == lib {
        assert id != a.device ==> after.devices[id] == w.devices[id];
      } else {
        var id, s :| id in after.devices && s in after.devices[id].lasting && s.Some? && s.value.library == lib;
        assert id != a.device ==> after.devices[id] == w.devices[id];
      }
    }
  }

  /** The device takes in `top`: it is not refused, and if it is news, it is stored. */
  predicate TakesIn(rules: TextRules, w: World, a: Action, id: StageId, top: Library) {
    && a.Import? && a.device == id && id in w.devices && a.bytes == top
    && match PlanImport(rules, w.devices[id].memory, a.record, a.bytes, a.authorised)
       case Refuse(_) => false
       case Keep => true
       case Store(_) => a.fate.Completed?
  }

  /** At some point of the run the device held `top`, or took it in. */
  ghost predicate Reaches(rules: TextRules, worlds: seq<World>, actions: seq<Action>, id: StageId, top: Library)
    requires |worlds| == |actions| + 1
  {
    || (exists i :: 0 <= i < |worlds| && id in worlds[i].devices && worlds[i].devices[id].memory.library == top)
    || (exists i :: 0 <= i < |actions| && TakesIn(rules, worlds[i], actions[i], id, top))
  }

  predicate NoEdits(actions: seq<Action>) {
    forall k :: 0 <= k < |actions| ==> !actions[k].Update?
  }

  /** A steady run without edits from a consistent state in which nothing is newer than `top`. */
  ghost predicate Segment(rules: TextRules, worlds: seq<World>, actions: seq<Action>, top: Library) {
    IsSteadyRun(rules, worlds, actions) && Inv(rules, worlds[0]) && Newest(worlds[0], top) && NoEdits(actions)
  }

  lemma {:induction false} SegmentKeeps(rules: TextRules, worlds: seq<World>, actions: seq<Action>, i: nat,
                                        top: Library)
    requires Segment(rules, worlds, actions, top) && i < |worlds|
    ensures Inv(rules, worlds[i]) && Newest(worlds[i], top)
  {
    if i > 0 {
      SegmentKeeps(rules, worlds, actions, i - 1, top);
      SteadyStepAt(rules, worlds, actions, i - 1);
      StepKeepsInv(rules, worlds[i - 1], actions[i - 1], worlds[i]);
      NewestStays(rules, worlds[i - 1], actions[i - 1], worlds[i], top);
    }
  }

  lemma MemoryNotNewer(w: World, id: StageId, top: Library)
    requires Newest(w, top) && id in w.devices
    ensures NotNewer(w.devices[id].memory.library, top)
  {
    assert Exists(w, w.devices[id].memory.library);
  }

  lemma StepStays(rules: TextRules, w: World, a: Action, after: World, id: StageId, top: Library)
    requires Inv(rules, w) && IsSteadyStep(rules, w, a, after) && !a.Update? && Newest(w, top)
    requires id in after.devices
    ensures id in w.devices
    ensures w.devices[id].memory.library == top ==> after.devices[id].memory.library == top
  {
    StepAdvances(rules, w, a, after, id);
    NewestStays(rules, w, a, after, top);
    MemoryNotNewer(after, id, top);
  }

  lemma SegmentStep(rules: TextRules, worlds: seq<World>, actions: seq<Action>, k: nat, id: StageId, top: Library)
    requires Segment(rules, worlds, actions, top) && k < |actions| && id in worlds[k + 1].devices
    ensures id in worlds[k].devices
    ensures worlds[k].devices[id].memory.library == top ==> worlds[k + 1].devices[id].memory.library == top
  {
    SegmentKeeps(rules, worlds, actions, k, top);
    SteadyStepAt(rules, worlds, actions, k);
    StepStays(rules, worlds[k], actions[k], worlds[k + 1], id, top);
  }

  lemma {:induction false} TopStays(rules: TextRules, worlds: seq<World>, actions: seq<Action>, id: StageId,
                                    i: nat, j: nat, top: Library)
    requires Segment(rules, worlds, actions, top) && i <= j < |worlds|
    requires id in worlds[i].devices && worlds[i].devices[id].memory.library == top && id in worlds[j].devices
    ensures worlds[j].devices[id].memory.library == top
    decreases j
  {
    if i < j {
      SegmentStep(rules, worlds, actions, j - 1, id, top);
      TopStays(rules, worlds, actions, id, i, j - 1, top);
    }
  }

  lemma TakesInGivesTop(rules: TextRules, w: World, a: Action, after: World, id: StageId, top: Library)
    requires Inv(rules, w) && IsSteadyStep(rules, w, a, after) && Newest(w, top) && TakesIn(rules, w, a, id, top)
    ensures id in after.devices && after.devices[id].memory.library == top
  {
    hide Inv, DeviceOk, Valid, SafePower, Newest, Sent;
    MemoryNotNewer(w, id, top);
  }

  lemma SegmentConverges(rules: TextRules, worlds: seq<World>, actions: seq<Action>, top: Library)
    requires Segment(rules, worlds, actions, top)
    requires forall id :: id in worlds[|actions|].devices ==> Reaches(rules, worlds, actions, id, top)
    ensures forall id :: id in worlds[|actions|].devices ==>
              var d := worlds[|actions|].devices[id];
              d.memory.library == top && (d.disk.Some? ==> d.disk.value.library == top)
  {
    var last := |actions|;
    SegmentKeeps(rules, worlds, actions, last, top);
    forall id | id in worlds[last].devices
      ensures var d := worlds[last].devices[id];
              d.memory.library == top && (d.disk.Some? ==> d.disk.value.library == top)
    {
      var i :| 0 <= i < |worlds| && id in worlds[i].devices && worlds[i].devices[id].memory.library == top by {
        if k :| 0 <= k < |actions| && TakesIn(rules, worlds[k], actions[k], id, top) {
          SegmentKeeps(rules, worlds, actions, k, top);
          SteadyStepAt(rules, worlds, actions, k);
          TakesInGivesTop(rules, worlds[k], actions[k], worlds[k + 1], id, top);
        }
      }
      TopStays(rules, worlds, actions, id, i, last, top);
      var d := worlds[last].devices[id];
      assert DeviceOk(rules, id, d, worlds[last].network);
      assert d.disk in d.lasting && (d.disk.Some? ==> Exists(worlds[last], d.disk.value.library));
    }
  }

  lemma SuffixIsRun(rules: TextRules, worlds: seq<World>, actions: seq<Action>, n: nat)
    requires IsSteadyRun(rules, worlds, actions) && n <= |actions|
    ensures IsSteadyRun(rules, worlds[n..], actions[n..])
  {
    forall i | 0 <= i < |actions[n..]|
      ensures IsSteadyStep(rules, worlds[n..][i], actions[n..][i], worlds[n..][i + 1])
    {
      SteadyStepAt(rules, worlds, actions, n + i);
    }
  }

  /**
   * In every steady run, once every device has held or taken in the newest library, with no edit since,
   * every device stores that library, in memory and on disk: whatever was delivered in between,
   * in whatever order and however often.
   */
  lemma Convergence(rules: TextRules, worlds: seq<World>, actions: seq<Action>, n: nat, top: Library)
    requires IsSteadyRun(rules, worlds, actions) && Start(worlds[0]) && n <= |actions|
    requires NoEdits(actions[n..]) && Newest(worlds[n], top)
    requires forall id :: id in worlds[|actions|].devices ==> Reaches(rules, worlds[n..], actions[n..], id, top)
    ensures forall id :: id in worlds[|actions|].devices ==>
              var d := worlds[|actions|].devices[id];
              d.memory.library == top && (d.disk.Some? ==> d.disk.value.library == top)
  {
    SuffixIsRun(rules, worlds, actions, n);
    SteadyRunIsRun(rules, worlds, actions);
    RunKeepsInv(rules, worlds, actions, n);
    SegmentConverges(rules, worlds[n..], actions[n..], top);
  }
}
