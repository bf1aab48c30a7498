/**
 * Devices that edit, offer and import instruction libraries over a network that delays,
 * duplicates and reorders offers, with failing writes and crashes anywhere. A run is any
 * sequence of such steps; the theorems hold in every state a run reaches.
 */
module InstructionProtocol {
  import opened Wrappers
  import opened InstructionLibrary
  import opened InstructionStore

  /** The running devices, and every record ever offered: an offer can be delivered at any later time, and again. */
  datatype World = World(devices: map<StageId, Device>, network: set<Record>)

  datatype Action =
    | Update(device: StageId, edit: Edit, fate: Fate)
    | Offer(device: StageId, issuedAt: int, fate: Fate)
    | Import(device: StageId, record: Record, bytes: Library, authorised: bool, fate: Fate)
    | Restart(device: StageId)
    | PowerLoss(device: StageId, found: Option<Stored>)

  /**
   * Records cannot be forged: whatever arrives was offered by some device. Its bytes may be anything. A power
   * loss brings back the file being written, or any file that may still last.
   */
  predicate Enabled(w: World, a: Action) {
    && a.device in w.devices && (a.Import? ==> a.record in w.network)
    && match a
       case Restart(_) => true
       case PowerLoss(id, found) => found in w.devices[id].lasting
       case _ => a.fate.LostPowerOld? ==> a.fate.found in w.devices[a.device].lasting
  }

  /** The state the acting device decides to store, if any. */
  function Proposed(rules: TextRules, w: World, a: Action): Option<Stored>
    requires Enabled(w, a)
  {
    var memory := w.devices[a.device].memory;
    match a
    case Update(id, edit, _) =>
      var plan := PlanEdit(rules, id, memory, edit);
      if plan.Store? then Some(plan.next) else None
    case Import(_, record, bytes, authorised, _) =>
      var plan := PlanImport(rules, memory, record, bytes, authorised);
      if plan.Store? then Some(plan.next) else None
    case Offer(id, issuedAt, _) =>
      var plan := PlanOffer(id, memory, issuedAt);
      if plan.Sign? then Some(plan.next) else None
    case _ => None
  }

  /** The acting device afterwards; None when its store does not open again. */
  function Moved(rules: TextRules, w: World, a: Action): Option<Device>
    requires Enabled(w, a)
  {
    var id, d := a.device, w.devices[a.device];
    match a
    case Restart(_) => Reopened(rules, id, d.disk, d.lasting)
    case PowerLoss(_, found) => Reopened(rules, id, found, {found})
    case _ =>
      match Proposed(rules, w, a)
      case None => Some(d)
      case Some(next) => Persisted(rules, id, d, next, a.fate)
  }

  /** The record the step offers, if any: a new signature only once it is stored. */
  function Sent(rules: TextRules, w: World, a: Action): set<Record>
    requires Enabled(w, a)
  {
    if !a.Offer? then {}
    else
      match PlanOffer(a.device, w.devices[a.device].memory, a.issuedAt)
      case Forward(record) => {record}
      case Sign(_, record) => if a.fate.Completed? then {record} else {}
      case _ => {}
  }

  /** A device whose store does not open again takes no further part. */
  function Next(rules: TextRules, w: World, a: Action): World
    requires Enabled(w, a)
  {
    World(Settle(w.devices, a.device, Moved(rules, w, a)), w.network + Sent(rules, w, a))
  }

  function Settle(devices: map<StageId, Device>, id: StageId, device: Option<Device>): map<StageId, Device> {
    match device
    case Some(d) => devices[id := d]
    case None => devices - {id}
  }

  /** The earlier file that a power loss in this step brings back, if there is one. */
  function Lost(rules: TextRules, w: World, a: Action): Option<Option<Stored>>
    requires Enabled(w, a)
  {
    match a
    case Restart(_) => None
    case PowerLoss(_, found) => Some(found)
    case _ => if Proposed(rules, w, a).Some? && a.fate.LostPowerOld? then Some(a.fate.found) else None
  }

  /** No offer of the device itself is beyond this library, or differs from it under its binding. */
  ghost predicate CoversOffers(self: StageId, lib: Library, network: set<Record>) {
    forall r :: r in network && r.writer == self ==>
                  r.revision <= lib.revision && (SameBinding(r.content, lib) ==> r.content == lib)
  }

  /** A power loss is safe when the library it brings back, if it opens at all, covers the device's offers. */
  ghost predicate SafePower(rules: TextRules, w: World, a: Action)
    requires Enabled(w, a)
  {
    match Lost(rules, w, a)
    case None => true
    case Some(found) =>
      match Open(rules, a.device, found)
      case None => true
      case Some(data) => CoversOffers(a.device, data.library, w.network)
  }

  /** Every device starts with an empty library of its own and nothing on disk. */
  ghost predicate Start(w: World) {
    && w.network == {}
    && forall id :: id in w.devices ==> id != 0 && w.devices[id] == Device(Initial(id), None, {None})
  }

  ghost predicate IsStep(rules: TextRules, w: World, a: Action, after: World) {
    Enabled(w, a) && SafePower(rules, w, a) && after == Next(rules, w, a)
  }

  /** A run in which power is lost only safely. */
  ghost predicate IsRun(rules: TextRules, worlds: seq<World>, actions: seq<Action>) {
    && |worlds| == |actions| + 1
    && forall i :: 0 <= i < |actions| ==> IsStep(rules, worlds[i], actions[i], worlds[i + 1])
  }

  /** The actions lead from `w` to `after`, with power lost only safely. */
  ghost predicate Leads(rules: TextRules, w: World, actions: seq<Action>, after: World)
    decreases |actions|
  {
    if actions == [] then after == w
    else
      && Enabled(w, actions[0]) && SafePower(rules, w, actions[0])
      && Leads(rules, Next(rules, w, actions[0]), actions[1..], after)
  }

  // ---------- The inductive invariant ----------

  /** A record signed over exactly the library it names. */
  predicate Matches(record: Record, lib: Library) {
    record.content == lib && record.revision == lib.revision && record.writer == lib.writer && Acceptable(record)
  }

  /** Unsigned: not yet edited, or edited here. Signed: the record matches, and is known unless signed here. */
  predicate Provenance(self: StageId, s: Stored, network: set<Record>) {
    match s.signed
    case None => s.library.writer == self
    case Some(record) => Matches(record, s.library) && (record.writer == self || record in network)
  }

  /** The disk is the memory, perhaps with another signature, or one unpublished content change ahead of it. */
  predicate DiskFollows(self: StageId, memory: Stored, disk: Option<Stored>, network: set<Record>) {
    match disk
    case None => memory == Initial(self)
    case Some(s) =>
      || (s.library == memory.library && s.sequence == memory.sequence)
      || (&& Older(memory.library, s.library) && s.sequence == memory.sequence + 1
          && (|| (s.library.writer == self && s.library.revision == memory.library.revision + 1)
              || (s.signed.Some? && s.signed.value in network)))
  }

  /** A state that may be stored: valid, and of known provenance. */
  predicate Storable(rules: TextRules, self: StageId, s: Stored, network: set<Record>) {
    Valid(rules, s.library) && Provenance(self, s, network)
  }

  ghost predicate DeviceOk(rules: TextRules, self: StageId, d: Device, network: set<Record>) {
    && self != 0
    && Storable(rules, self, d.memory, network)
    && d.disk in d.lasting && DiskFollows(self, d.memory, d.disk, network)
    && (forall s :: s in d.lasting && s.Some? ==> Storable(rules, self, s.value, network))
    && (forall r :: r in network && r.writer == self ==> r.revision <= d.memory.library.revision)
    && (forall r :: r in network && SameBinding(r.content, d.memory.library) ==> r.content == d.memory.library)
  }

  ghost predicate NetworkOk(rules: TextRules, network: set<Record>) {
    && (forall r :: r in network ==> Matches(r, r.content) && Valid(rules, r.content))
    && (forall r, q :: r in network && q in network && SameBinding(r.content, q.content) ==> r.content == q.content)
  }

  ghost predicate Inv(rules: TextRules, w: World) {
    NetworkOk(rules, w.network) && forall id :: id in w.devices ==> DeviceOk(rules, id, w.devices[id], w.network)
  }

  lemma StartOk(rules: TextRules, w: World)
    requires Start(w)
    ensures Inv(rules, w)
  {
  }

  /** A reopened device finds its memory's state or the one change that was written but not published. */
  lemma ReopenOk(rules: TextRules, self: StageId, d: Device, network: set<Record>)
    requires NetworkOk(rules, network) && DeviceOk(rules, self, d, network)
    requires Reopened(rules, self, d.disk, d.lasting).Some?
    ensures DeviceOk(rules, self, Reopened(rules, self, d.disk, d.lasting).value, network)
  {
  }

  /** After a power loss the device goes on from any lasting file that covers its offers. */
  lemma PowerOk(rules: TextRules, self: StageId, d: Device, network: set<Record>, found: Option<Stored>)
    requires NetworkOk(rules, network) && DeviceOk(rules, self, d, network) && found in d.lasting
    requires Reopened(rules, self, found, {found}).Some?
    requires CoversOffers(self, Reopened(rules, self, found, {found}).value.memory.library, network)
    ensures DeviceOk(rules, self, Reopened(rules, self, found, {found}).value, network)
  {
    var s := Reopened(rules, self, found, {found}).value.memory;
    forall r | r in network && SameBinding(r.content, s.library) ensures r.content == s.library {
      if r.writer != self {
        assert s.signed.Some? && s.signed.value in network;
      }
    }
  }

  /** A state that may replace the memory of `d`: the same library, or one newer content change. */
  ghost predicate Follows(rules: TextRules, self: StageId, d: Device, next: Stored, network: set<Record>) {
    Storable(rules, self, next, network) && DiskFollows(self, d.memory, Some(next), network)
  }

  lemma PersistOk(rules: TextRules, self: StageId, d: Device, network: set<Record>, next: Stored, fate: Fate)
    requires NetworkOk(rules, network) && DeviceOk(rules, self, d, network)
    requires Follows(rules, self, d, next, network)
    requires Persisted(rules, self, d, next, fate).Some?
    requires fate.LostPowerOld? ==>
               fate.found in d.lasting
               && CoversOffers(self, Persisted(rules, self, d, next, fate).value.memory.library, network)
    ensures DeviceOk(rules, self, Persisted(rules, self, d, next, fate).value, network)
  {
    var ahead := d.(disk := Some(next), lasting := d.lasting + {Some(next)});
    assert DeviceOk(rules, self, ahead, network);
    match fate
    case Completed => StoredMemory(rules, self, d, next, network);
    case CrashedBefore => ReopenOk(rules, self, d, network);
    case CrashedAfter => ReopenOk(rules, self, ahead, network);
    case LostPowerNew => StoredMemory(rules, self, d, next, network);
    case LostPowerOld(found) => PowerOk(rules, self, d, network, found);
    case _ =>
  }

  lemma StoredMemory(rules: TextRules, self: StageId, d: Device, next: Stored, network: set<Record>)
    requires NetworkOk(rules, network) && DeviceOk(rules, self, d, network)
    requires Follows(rules, self, d, next, network)
    ensures DeviceOk(rules, self, Device(next, Some(next), {Some(next)}), network)
  {
  }

  /** A record new to the network was written by its own device, so no other device can hold its binding. */
  lemma OtherDevice(rules: TextRules, e: StageId, d: Device, network: set<Record>, record: Record, lib: Library)
    requires NetworkOk(rules, network) && DeviceOk(rules, e, d, network)
    requires record.writer != e && Matches(record, lib)
    requires forall r :: r in network && SameBinding(r.content, lib) ==> r.content == lib
    ensures DeviceOk(rules, e, d, network + {record})
  {
    if SameBinding(lib, d.memory.library) {
      assert d.memory.signed.Some?;
      assert d.memory.signed.value in network;
    }
  }

  /** Offering the record of the library in memory keeps every device and the network consistent. */
  lemma PublishOk(rules: TextRules, w: World, id: StageId, record: Record)
    requires Inv(rules, w) && id in w.devices
    requires w.devices[id].memory.signed == Some(record)
    ensures Inv(rules, w.(network := w.network + {record}))
  {
    var network := w.network + {record};
    var d := w.devices[id];
    assert Matches(record, d.memory.library);
    if record !in w.network {
      assert record.writer == id;
      forall e | e in w.devices ensures DeviceOk(rules, e, w.devices[e], network) {
        if e != id {
          OtherDevice(rules, e, w.devices[e], w.network, record, d.memory.library);
        }
      }
    } else {
      assert network == w.network;
    }
  }

  /** Whatever a step proposes to store is the same library or one newer content change. */
  lemma ProposedFollows(rules: TextRules, w: World, a: Action)
    requires Inv(rules, w) && Enabled(w, a) && Proposed(rules, w, a).Some?
    ensures Follows(rules, a.device, w.devices[a.device], Proposed(rules, w, a).value, w.network)
  {
    assert DeviceOk(rules, a.device, w.devices[a.device], w.network);
    if a.Update? {
      StoredEdit(rules, a.device, w.devices[a.device].memory, a.edit);
    }
  }

  lemma MovedOk(rules: TextRules, w: World, a: Action)
    requires Inv(rules, w) && Enabled(w, a) && SafePower(rules, w, a) && Moved(rules, w, a).Some?
    ensures DeviceOk(rules, a.device, Moved(rules, w, a).value, w.network)
  {
    hide DeviceOk, NetworkOk, Proposed, Follows, Valid;
    var id, d := a.device, w.devices[a.device];
    if a.Restart? {
      ReopenOk(rules, id, d, w.network);
    } else if a.PowerLoss? {
      PowerOk(rules, id, d, w.network, a.found);
    } else if Proposed(rules, w, a).Some? {
      ProposedFollows(rules, w, a);
      PersistOk(rules, id, d, w.network, Proposed(rules, w, a).value, a.fate);
    }
  }

  lemma StepAt(rules: TextRules, worlds: seq<World>, actions: seq<Action>, i: nat)
    requires IsRun(rules, worlds, actions) && i < |actions|
    ensures IsStep(rules, worlds[i], actions[i], worlds[i + 1])
  {
    var a := actions[i];
  }

  lemma StepKeepsInv(rules: TextRules, w: World, a: Action, after: World)
    requires Inv(rules, w) && IsStep(rules, w, a, after)
    ensures Inv(rules, after)
  {
    var moved := World(Settle(w.devices, a.device, Moved(rules, w, a)), w.network);
    if Moved(rules, w, a).Some? {
      MovedOk(rules, w, a);
    }
    assert Inv(rules, moved);
    if record :| record in Sent(rules, w, a) {
      assert Sent(rules, w, a) == {record};
      PublishOk(rules, moved, a.device, record);
    } else {
      assert w.network + Sent(rules, w, a) == w.network;
    }
  }

  lemma {:induction false} RunKeepsInv(rules: TextRules, worlds: seq<World>, actions: seq<Action>, i: nat)
    requires IsRun(rules, worlds, actions) && Start(worlds[0]) && i < |worlds|
    ensures Inv(rules, worlds[i])
  {
    if i == 0 {
      StartOk(rules, worlds[0]);
    } else {
      RunKeepsInv(rules, worlds, actions, i - 1);
      StepAt(rules, worlds, actions, i - 1);
      StepKeepsInv(rules, worlds[i - 1], actions[i - 1], worlds[i]);
    }
  }

  lemma {:induction false} LeadsKeepsInv(rules: TextRules, w: World, actions: seq<Action>, after: World)
    requires Inv(rules, w) && Leads(rules, w, actions, after)
    ensures Inv(rules, after)
    decreases |actions|
  {
    if actions != [] {
      StepKeepsInv(rules, w, actions[0], Next(rules, w, actions[0]));
      LeadsKeepsInv(rules, Next(rules, w, actions[0]), actions[1..], after);
    }
  }
}
