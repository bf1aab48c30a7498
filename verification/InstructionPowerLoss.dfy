/**
 * What the guard on power losses is worth: a power loss that brings back a library which does not cover the
 * offers of its device can lead to disagreement, and every other one cannot.
 */
module InstructionPowerLoss {
  import opened Wrappers
  import opened InstructionLibrary
  import opened InstructionStore
  import opened InstructionProtocol
  import opened InstructionTheorems

  // ---------- Rules under which files can be edited ----------

  /** The library as the device stores it after the edit. */
  function Stamped(lib: Library, self: StageId): Library
    requires lib.revision < MAX_U64
  {
    lib.(writer := self, revision := lib.revision + 1)
  }

  predicate EditsTo(rules: TextRules, lib: Library, self: StageId, edit: Edit, avoid: Library) {
    var edited := Edited(rules, edit, lib);
    && edited.Ok? && edited.value != lib && edited.value.revision < MAX_U64
    && Valid(rules, Stamped(edited.value, self)) && Stamped(edited.value, self) != avoid
  }

  ghost predicate CanEdit(rules: TextRules, lib: Library, self: StageId, avoid: Library) {
    exists edit :: EditsTo(rules, lib, self, edit, avoid)
  }

  /** Every valid library can be edited, and not to one result only. */
  ghost predicate Editable(rules: TextRules) {
    forall lib, self: StageId, avoid ::
      Valid(rules, lib) && self != 0 && lib.revision + 1 < MAX_U64 ==> CanEdit(rules, lib, self, avoid)
  }

  // ---------- How far a device is from a revision it has offered ----------

  /** What the device goes on from when it finds this file. */
  function Base(self: StageId, found: Option<Stored>): Stored {
    if found.Some? then found.value else Initial(self)
  }

  /** The library is one that some record of the network names. */
  ghost predicate Offered(lib: Library, network: set<Record>) {
    exists q :: q in network && q.content == lib
  }

  /** The record is newer than the base, and not further from the revision than this. */
  predicate Bridges(q: Record, base: Library, revision: nat, strictly: bool, distance: int) {
    && Older(base, q.content) && revision - q.revision <= distance
    && if strictly then q.revision < revision else q.revision <= revision
  }

  ghost predicate Bridged(base: Library, revision: nat, strictly: bool, distance: int, network: set<Record>) {
    exists q :: q in network && Bridges(q, base, revision, strictly, distance)
  }

  /**
   * The device that is at `x` now can get from the base to the same revision again in one change more than it took:
   * by edits alone, or by an import of a known record and edits.
   */
  ghost predicate Climbs(base: Stored, x: Stored, network: set<Record>) {
    && base.sequence <= x.sequence
    && (|| x.library.revision - base.library.revision <= x.sequence - base.sequence + 1
        || Bridged(base.library, x.library.revision, !Offered(x.library, network), x.sequence - base.sequence, network))
  }

  /** From the base the device can reach the revision before its last sequence number. */
  ghost predicate CanReach(base: Stored, revision: nat, network: set<Record>) {
    || revision - base.library.revision <= LAST_SEQUENCE - base.sequence
    || Bridged(base.library, revision, true, LAST_SEQUENCE - base.sequence - 1, network)
  }

  ghost predicate FoundOk(self: StageId, d: Device, found: Option<Stored>, network: set<Record>) {
    var base := Base(self, found);
    && base.sequence <= d.memory.sequence + 1
    && (NotNewer(base.library, d.memory.library) ==> Climbs(base, d.memory, network))
    && (d.disk.Some? && NotNewer(base.library, d.disk.value.library) ==> Climbs(base, d.disk.value, network))
    && (base.library != d.memory.library ==> d.memory.sequence < LAST_SEQUENCE)
    && (forall r :: r in network && r.writer == self && r.revision > base.library.revision ==>
                      CanReach(base, r.revision, network))
  }

  ghost predicate RoomOk(self: StageId, d: Device, network: set<Record>) {
    && d.memory.sequence <= LAST_SEQUENCE
    && forall found :: found in d.lasting ==> FoundOk(self, d, found, network)
  }

  ghost predicate Room(w: World) {
    forall id :: id in w.devices ==> RoomOk(id, w.devices[id], w.network)
  }

  lemma StartHasRoom(w: World)
    requires Start(w)
    ensures Room(w)
  {
  }

  /** What a device may go on with: nothing else can be found than the state in memory. */
  lemma AloneHasRoom(rules: TextRules, self: StageId, found: Option<Stored>, network: set<Record>)
    requires Base(self, found).sequence <= LAST_SEQUENCE
    requires CoversOffers(self, Base(self, found).library, network)
    ensures RoomOk(self, Device(Base(self, found), found, {found}), network)
  {
  }

  /** One content change further: nothing that could climb to the memory cannot climb to the new state. */
  lemma ClimbsOn(rules: TextRules, self: StageId, d: Device, next: Stored, network: set<Record>, base: Stored)
    requires NetworkOk(rules, network) && Follows(rules, self, d, next, network)
    requires !Offered(next.library, network) ==> next.library.revision == d.memory.library.revision + 1
    requires base.sequence <= d.memory.sequence + 1 && Older(d.memory.library, next.library)
    requires NotNewer(base.library, d.memory.library) ==> Climbs(base, d.memory, network)
    requires NotNewer(base.library, next.library)
    ensures Climbs(base, next, network)
  {
    var m := d.memory;
    if Offered(next.library, network) {
      var q :| q in network && q.content == next.library;
      if Older(base.library, q.content) && base.sequence <= next.sequence {
        assert Bridges(q, base.library, next.library.revision, false, next.sequence - base.sequence);
      }
    } else if NotNewer(base.library, m.library) {
      var distance := m.sequence - base.sequence;
      if Bridged(base.library, m.library.revision, !Offered(m.library, network), distance, network) {
        var q :| q in network
                 && Bridges(q, base.library, m.library.revision, !Offered(m.library, network), distance);
        assert Bridges(q, base.library, next.library.revision, true, distance + 1);
      }
    }
  }

  lemma BridgedStill(base: Library, revision: nat, strictly: bool, distance: int, network: set<Record>,
                     weakly: bool, more: int, grown: set<Record>)
    requires Bridged(base, revision, strictly, distance, network)
    requires network <= grown && distance <= more && (weakly ==> strictly)
    ensures Bridged(base, revision, weakly, more, grown)
  {
    var q :| q in network && Bridges(q, base, revision, strictly, distance);
    assert Bridges(q, base, revision, weakly, more);
  }

  lemma ClimbsStill(base: Stored, x: Stored, network: set<Record>, grown: set<Record>)
    requires Climbs(base, x, network) && network <= grown
    ensures Climbs(base, x, grown)
  {
    var distance := x.sequence - base.sequence;
    if r :| r in network && r.content == x.library {
      assert r in grown;
    }
    if Bridged(base.library, x.library.revision, !Offered(x.library, network), distance, network) {
      BridgedStill(base.library, x.library.revision, !Offered(x.library, network), distance, network,
                   !Offered(x.library, grown), distance, grown);
    }
  }

  lemma ReachesStill(base: Stored, revision: nat, network: set<Record>, grown: set<Record>)
    requires CanReach(base, revision, network) && network <= grown
    ensures CanReach(base, revision, grown)
  {
    var distance := LAST_SEQUENCE - base.sequence - 1;
    if Bridged(base.library, revision, true, distance, network) {
      BridgedStill(base.library, revision, true, distance, network, true, distance, grown);
    }
  }

  /** What the device has climbed to since, it can climb to again. */
  lemma ClimbIsReach(self: StageId, d: Device, found: Option<Stored>, network: set<Record>)
    requires RoomOk(self, d, network) && found in d.lasting
    requires d.memory.library.revision > Base(self, found).library.revision
    requires Offered(d.memory.library, network) ==>
               exists r :: r in network && r.writer == self && r.revision == d.memory.library.revision
    ensures CanReach(Base(self, found), d.memory.library.revision, network)
  {
    var base, m := Base(self, found), d.memory;
    assert FoundOk(self, d, found, network);
    var distance := m.sequence - base.sequence;
    if !Offered(m.library, network) && Bridged(base.library, m.library.revision, true, distance, network) {
      BridgedStill(base.library, m.library.revision, true, distance, network,
                   true, LAST_SEQUENCE - base.sequence - 1, network);
    }
  }

  // ---------- Every safe step keeps the room ----------

  lemma AheadHasRoom(rules: TextRules, self: StageId, d: Device, next: Stored, network: set<Record>)
    requires NetworkOk(rules, network) && DeviceOk(rules, self, d, network) && RoomOk(self, d, network)
    requires Follows(rules, self, d, next, network) && next.sequence <= LAST_SEQUENCE
    ensures RoomOk(self, d.(disk := Some(next), lasting := d.lasting + {Some(next)}), network)
  {
    var ahead := d.(disk := Some(next), lasting := d.lasting + {Some(next)});
    forall found | found in ahead.lasting ensures FoundOk(self, ahead, found, network) {
      if found in d.lasting {
        assert FoundOk(self, d, found, network);
        if NotNewer(Base(self, found).library, next.library) {
          AheadOfFound(rules, self, d, next, network, found);
        }
      }
    }
  }

  lemma AheadOfFound(rules: TextRules, self: StageId, d: Device, next: Stored, network: set<Record>,
                     found: Option<Stored>)
    requires NetworkOk(rules, network) && Follows(rules, self, d, next, network)
    requires FoundOk(self, d, found, network) && NotNewer(Base(self, found).library, next.library)
    ensures Climbs(Base(self, found), next, network)
  {
    if next.library != d.memory.library {
      if next.signed.Some? && next.signed.value in network {
        assert Offered(next.library, network);
      }
      ClimbsOn(rules, self, d, next, network, Base(self, found));
    }
  }

  lemma ReopenHasRoom(rules: TextRules, self: StageId, d: Device, network: set<Record>)
    requires DeviceOk(rules, self, d, network) && RoomOk(self, d, network)
    requires Reopened(rules, self, d.disk, d.lasting).Some?
    ensures RoomOk(self, Reopened(rules, self, d.disk, d.lasting).value, network)
  {
    var after := Reopened(rules, self, d.disk, d.lasting).value;
    forall found | found in d.lasting ensures FoundOk(self, after, found, network) {
      assert FoundOk(self, d, found, network);
    }
  }

  /** A state that is stored covers the offers of its device. */
  lemma FollowsCovers(rules: TextRules, self: StageId, d: Device, next: Stored, network: set<Record>)
    requires NetworkOk(rules, network) && DeviceOk(rules, self, d, network)
    requires Follows(rules, self, d, next, network)
    ensures CoversOffers(self, next.library, network)
  {
    StoredMemory(rules, self, d, next, network);
  }

  lemma PersistHasRoom(rules: TextRules, self: StageId, d: Device, next: Stored, network: set<Record>, fate: Fate)
    requires NetworkOk(rules, network) && DeviceOk(rules, self, d, network) && RoomOk(self, d, network)
    requires Follows(rules, self, d, next, network) && next.sequence <= LAST_SEQUENCE
    requires Persisted(rules, self, d, next, fate).Some?
    requires fate.LostPowerOld? ==>
               CoversOffers(self, Persisted(rules, self, d, next, fate).value.memory.library, network)
    ensures RoomOk(self, Persisted(rules, self, d, next, fate).value, network)
  {
    hide DeviceOk, RoomOk, NetworkOk, Follows, CoversOffers;
    var ahead := d.(disk := Some(next), lasting := d.lasting + {Some(next)});
    AheadHasRoom(rules, self, d, next, network);
    FollowsCovers(rules, self, d, next, network);
    AloneHasRoom(rules, self, Some(next), network);
    match fate
    case CrashedBefore => ReopenHasRoom(rules, self, d, network);
    case CrashedAfter => 
      AheadIsOk(rules, self, d, next, network);
      ReopenHasRoom(rules, self, ahead, network);
    case LostPowerOld(found) => AloneHasRoom(rules, self, found, network);
    case _ =>
  }

  lemma AheadIsOk(rules: TextRules, self: StageId, d: Device, next: Stored, network: set<Record>)
    requires NetworkOk(rules, network) && DeviceOk(rules, self, d, network)
    requires Follows(rules, self, d, next, network)
    ensures DeviceOk(rules, self, d.(disk := Some(next), lasting := d.lasting + {Some(next)}), network)
  {
  }

  lemma ProposedHasRoom(rules: TextRules, w: World, a: Action)
    requires Enabled(w, a) && Proposed(rules, w, a).Some? && w.devices[a.device].memory.sequence <= LAST_SEQUENCE
    ensures Proposed(rules, w, a).value.sequence <= LAST_SEQUENCE
  {
  }

  lemma MovedHasRoom(rules: TextRules, w: World, a: Action)
    requires Inv(rules, w) && Room(w) && Enabled(w, a) && SafePower(rules, w, a) && Moved(rules, w, a).Some?
    ensures RoomOk(a.device, Moved(rules, w, a).value, w.network)
  {
    hide DeviceOk, NetworkOk, Proposed, Follows, Valid, CoversOffers;
    var id, d := a.device, w.devices[a.device];
    assert RoomOk(id, d, w.network);
    if a.Restart? {
      ReopenHasRoom(rules, id, d, w.network);
    } else if a.PowerLoss? {
      AloneHasRoom(rules, id, a.found, w.network);
    } else if Proposed(rules, w, a).Some? {
      ProposedFollows(rules, w, a);
      ProposedHasRoom(rules, w, a);
      PersistHasRoom(rules, id, d, Proposed(rules, w, a).value, w.network, a.fate);
    }
  }

  /** Offering the record of the library in memory leaves every device its room. */
  lemma PublishHasRoom(rules: TextRules, w: World, id: StageId, record: Record)
    requires Inv(rules, w) && Room(w) && id in w.devices && w.devices[id].memory.signed == Some(record)
    ensures Room(w.(network := w.network + {record}))
  {
    var grown := w.network + {record};
    forall e | e in w.devices ensures RoomOk(e, w.devices[e], grown) {
      forall found | found in w.devices[e].lasting ensures FoundOk(e, w.devices[e], found, grown) {
        PublishedFound(rules, w, id, record, e, found);
      }
    }
  }

  lemma PublishedFound(rules: TextRules, w: World, id: StageId, record: Record, e: StageId, found: Option<Stored>)
    requires Inv(rules, w) && Room(w) && id in w.devices && w.devices[id].memory.signed == Some(record)
    requires e in w.devices && found in w.devices[e].lasting
    ensures FoundOk(e, w.devices[e], found, w.network + {record})
  {
    var d, base, grown := w.devices[e], Base(e, found), w.network + {record};
    assert RoomOk(e, d, w.network) && FoundOk(e, d, found, w.network);
    if NotNewer(base.library, d.memory.library) {
      ClimbsStill(base, d.memory, w.network, grown);
    }
    if d.disk.Some? && NotNewer(base.library, d.disk.value.library) {
      ClimbsStill(base, d.disk.value, w.network, grown);
    }
    forall r | r in grown && r.writer == e && r.revision > base.library.revision
      ensures CanReach(base, r.revision, grown)
    {
      if r !in w.network {
        NewOfferIsReached(rules, w, id, record, e, found);
      }
      ReachesStill(base, r.revision, w.network, grown);
    }
  }

  lemma NewOfferIsReached(rules: TextRules, w: World, id: StageId, record: Record, e: StageId, found: Option<Stored>)
    requires Inv(rules, w) && Room(w) && id in w.devices && w.devices[id].memory.signed == Some(record)
    requires e in w.devices && found in w.devices[e].lasting && record !in w.network && record.writer == e
    requires record.revision > Base(e, found).library.revision
    ensures CanReach(Base(e, found), record.revision, w.network)
  {
    var d := w.devices[id];
    assert DeviceOk(rules, id, d, w.network);
    assert e == id && record.revision == d.memory.library.revision;
    if q :| q in w.network && q.content == d.memory.library {
      assert Matches(q, q.content);
    }
    assert RoomOk(id, d, w.network);
    ClimbIsReach(id, d, found, w.network);
  }

  lemma StepKeepsRoom(rules: TextRules, w: World, a: Action, after: World)
    requires Inv(rules, w) && Room(w) && IsStep(rules, w, a, after)
    ensures Room(after)
  {
    hide DeviceOk, NetworkOk, RoomOk, SafePower, Sent, Moved;
    var moved := World(Settle(w.devices, a.device, Moved(rules, w, a)), w.network);
    if Moved(rules, w, a).Some? {
      MovedHasRoom(rules, w, a);
      MovedOk(rules, w, a);
    }
    assert Room(moved) && Inv(rules, moved);
    if record :| record in Sent(rules, w, a) {
      SentIsSigned(rules, w, a, record);
      PublishHasRoom(rules, moved, a.device, record);
    } else {
      assert w.network + Sent(rules, w, a) == w.network;
    }
  }

  lemma SentIsSigned(rules: TextRules, w: World, a: Action, record: Record)
    requires Enabled(w, a) && record in Sent(rules, w, a)
    ensures Sent(rules, w, a) == {record} && Moved(rules, w, a).Some?
    ensures Moved(rules, w, a).value.memory.signed == Some(record)
  {
  }

  lemma {:induction false} RunKeepsRoom(rules: TextRules, worlds: seq<World>, actions: seq<Action>, i: nat)
    requires IsRun(rules, worlds, actions) && Start(worlds[0]) && i < |worlds|
    ensures Inv(rules, worlds[i]) && Room(worlds[i])
  {
    hide Inv, Room, Start, IsStep;
    RunKeepsInv(rules, worlds, actions, i);
    if i == 0 {
      StartHasRoom(worlds[0]);
    } else {
      RunKeepsRoom(rules, worlds, actions, i - 1);
      StepAt(rules, worlds, actions, i - 1);
      StepKeepsRoom(rules, worlds[i - 1], actions[i - 1], worlds[i]);
    }
  }

  // ---------- An unsafe power loss leads to disagreement ----------

  /** A device with nothing else on disk than what it holds. */
  function AtRest(s: Stored): Device {
    Device(s, Some(s), {Some(s)})
  }

  /** Only the device has changed, and it is at rest. */
  ghost predicate OnlyRests(w: World, id: StageId, after: World) {
    id in after.devices && after == World(w.devices[id := AtRest(after.devices[id].memory)], w.network)
  }

  /** One edit, stored and published, to a library other than the given one. */
  lemma EditOnce(rules: TextRules, w: World, id: StageId, avoid: Library) returns (a: Action, after: World)
    requires Editable(rules) && id in w.devices && id != 0
    requires Valid(rules, w.devices[id].memory.library) && w.devices[id].memory.library.revision + 1 < MAX_U64
    requires w.devices[id].memory.sequence < LAST_SEQUENCE
    ensures Enabled(w, a) && SafePower(rules, w, a) && after == Next(rules, w, a)
    ensures OnlyRests(w, id, after)
    ensures var was, now := w.devices[id].memory, after.devices[id].memory;
            && Valid(rules, now.library) && now.library != avoid && now.library.writer == id && now.signed == None
            && now.library.revision == was.library.revision + 1 && now.sequence == was.sequence + 1
  {
    hide Valid, Open, CoversOffers, HasLayer, Position;
    var m := w.devices[id].memory;
    assert CanEdit(rules, m.library, id, avoid);
    var edit :| EditsTo(rules, m.library, id, edit, avoid);
    EditKeepsBinding(rules, edit, m.library);
    a := Update(id, edit, Completed);
    after := Next(rules, w, a);
    var next := Stored(Stamped(Edited(rules, edit, m.library).value, id), None, m.sequence + 1);
    assert PlanEdit(rules, id, m, edit) == Store(next);
    assert Moved(rules, w, a) == Some(Device(next, Some(next), {Some(next)}));
    assert w.network + {} == w.network;
  }

  /** So many edits in a row, the last one to a library other than the given one. */
  lemma {:induction false} EditOn(rules: TextRules, w: World, id: StageId, n: nat, avoid: Library)
    returns (actions: seq<Action>, after: World)
    requires Editable(rules) && id in w.devices && id != 0 && n > 0
    requires Valid(rules, w.devices[id].memory.library) && w.devices[id].memory.library.revision + n < MAX_U64
    requires w.devices[id].memory.sequence + n <= LAST_SEQUENCE
    ensures Leads(rules, w, actions, after) && OnlyRests(w, id, after)
    ensures var now := after.devices[id].memory;
            && Valid(rules, now.library) && now.library != avoid && now.library.writer == id && now.signed == None
            && now.library.revision == w.devices[id].memory.library.revision + n
    decreases n
  {
    var a, next := EditOnce(rules, w, id, avoid);
    if n == 1 {
      actions, after := [a], next;
      assert [a][1..] == [];
    } else {
      var rest;
      rest, after := EditOn(rules, next, id, n - 1, avoid);
      actions := [a] + rest;
      assert actions[1..] == rest;
    }
  }

  /** An import of a known record that is news. */
  lemma ImportOnce(rules: TextRules, w: World, id: StageId, q: Record) returns (a: Action, after: World)
    requires NetworkOk(rules, w.network) && q in w.network && id in w.devices
    requires Older(w.devices[id].memory.library, q.content) && w.devices[id].memory.sequence < LAST_SEQUENCE
    ensures Enabled(w, a) && SafePower(rules, w, a) && after == Next(rules, w, a)
    ensures id in after.devices && after.network == w.network
    ensures var was, now := w.devices[id].memory, after.devices[id].memory;
            now.library == q.content && now.sequence == was.sequence + 1
  {
    var m := w.devices[id].memory;
    a := Import(id, q, q.content, true, Completed);
    after := Next(rules, w, a);
    var next := Stored(q.content, Some(q), m.sequence + 1);
    assert PlanImport(rules, m, q, q.content, true) == Store(next);
    assert Moved(rules, w, a) == Some(Device(next, Some(next), {Some(next)}));
    assert w.network + {} == w.network;
  }

  /** From a base that can reach a revision, the device gets there with a library other than the offered one. */
  lemma ClimbAgain(rules: TextRules, w: World, id: StageId, r: Record) returns (actions: seq<Action>, after: World)
    requires Editable(rules) && NetworkOk(rules, w.network) && r in w.network && id in w.devices && id != 0
    requires r.writer == id && Valid(rules, w.devices[id].memory.library)
    requires r.revision > w.devices[id].memory.library.revision
    requires CanReach(w.devices[id].memory, r.revision, w.network)
    ensures Leads(rules, w, actions, after) && id in after.devices && after.network == w.network
    ensures var now := after.devices[id].memory.library; now != r.content && SameBinding(now, r.content)
  {
    var m := w.devices[id].memory;
    var distance := LAST_SEQUENCE - m.sequence - 1;
    if Bridged(m.library, r.revision, true, distance, w.network) {
      var q :| q in w.network && Bridges(q, m.library, r.revision, true, distance);
      var a, next := ImportOnce(rules, w, id, q);
      var rest;
      rest, after := EditOn(rules, next, id, r.revision - q.revision, r.content);
      actions := [a] + rest;
      assert actions[1..] == rest;
    } else {
      actions, after := EditOn(rules, w, id, r.revision - m.library.revision, r.content);
    }
  }

  lemma Disagrees(w: World, id: StageId, r: Record)
    requires id in w.devices && r in w.network
    requires SameBinding(w.devices[id].memory.library, r.content) && w.devices[id].memory.library != r.content
    ensures !Agree(Published(w))
  {
    var lib := w.devices[id].memory.library;
    assert IsPublished(w, lib) && IsPublished(w, r.content);
    assert lib in Published(w) && r.content in Published(w);
  }

  /** What the device and the network are behind a power loss that brings back an earlier file. */
  lemma AfterLoss(rules: TextRules, w: World, a: Action)
    requires Inv(rules, w) && Enabled(w, a) && Lost(rules, w, a).Some?
    requires Open(rules, a.device, Lost(rules, w, a).value).Some?
    ensures var found := Lost(rules, w, a).value;
            && found in w.devices[a.device].lasting
            && Next(rules, w, a) == w.(devices := w.devices[a.device := Device(Base(a.device, found), found, {found})])
  {
    hide Moved, Open, Inv, Sent;
    LostOpens(rules, w, a);
    LostReads(rules, w, a);
    LostLasts(rules, w, a);
    NothingIsSent(rules, w, a);
    assert w.network + {} == w.network;
  }

  lemma NothingIsSent(rules: TextRules, w: World, a: Action)
    requires Enabled(w, a) && Lost(rules, w, a).Some?
    ensures Sent(rules, w, a) == {}
  {
  }

  lemma UnsafePowerLossDisagrees(rules: TextRules, w: World, a: Action) returns (actions: seq<Action>, after: World)
    requires Editable(rules) && Inv(rules, w) && Room(w) && Enabled(w, a) && !SafePower(rules, w, a)
    ensures Leads(rules, Next(rules, w, a), actions, after) && !Agree(Published(after))
  {
    var id, found := a.device, Lost(rules, w, a).value;
    var base, next := Base(id, found), Next(rules, w, a);
    AfterLoss(rules, w, a);
    var r :| r in w.network && r.writer == id
             && !(r.revision <= base.library.revision
                  && (SameBinding(r.content, base.library) ==> r.content == base.library));
    assert Matches(r, r.content);
    if r.revision > base.library.revision {
      assert RoomOk(id, w.devices[id], w.network) && FoundOk(id, w.devices[id], found, w.network);
      assert DeviceOk(rules, id, w.devices[id], w.network);
      actions, after := ClimbAgain(rules, next, id, r);
    } else {
      actions, after := [], next;
    }
    Disagrees(after, id, r);
  }

  /** Whatever happens afterwards, with power lost only safely, the published libraries agree. */
  ghost predicate AgreesForEver(rules: TextRules, w: World) {
    forall actions, after :: Leads(rules, w, actions, after) ==> Agree(Published(after))
  }

  /**
   * The guard is exact: in every state of every run a power loss leaves agreement for ever if and only if the library
   * it brings back, if it opens at all, covers the offers of its device. Only the necessity needs rules that let a
   * library be edited.
   */
  lemma SafePowerIsExact(rules: TextRules, worlds: seq<World>, actions: seq<Action>, i: nat, a: Action)
    requires IsRun(rules, worlds, actions) && Start(worlds[0]) && i < |worlds| && Enabled(worlds[i], a)
    ensures SafePower(rules, worlds[i], a) ==> AgreesForEver(rules, Next(rules, worlds[i], a))
    ensures Editable(rules) ==> (SafePower(rules, worlds[i], a) <==> AgreesForEver(rules, Next(rules, worlds[i], a)))
  {
    var w := worlds[i];
    RunKeepsRoom(rules, worlds, actions, i);
    if SafePower(rules, w, a) {
      var next := Next(rules, w, a);
      StepKeepsInv(rules, w, a, next);
      forall more, after | Leads(rules, next, more, after) ensures Agree(Published(after)) {
        LeadsKeepsInv(rules, next, more, after);
        InvAgrees(rules, after);
      }
    } else if Editable(rules) {
      var more, after := UnsafePowerLossDisagrees(rules, w, a);
    }
  }

  // ---------- Rules that accept everything ----------

  const LAX: TextRules := TextRules(_ => true, (s: string) => s, (s: string) => Some(s), _ => false)

  function Longest(layers: seq<Layer>): nat {
    if layers == [] then 0
    else
      var rest, last := Longest(layers[..|layers| - 1]), layers[|layers| - 1];
      rest + |last.id| + |last.name|
  }

  lemma {:induction false} LongestIsLonger(layers: seq<Layer>, i: nat)
    requires i < |layers|
    ensures |layers[i].id| <= Longest(layers) && |layers[i].name| <= Longest(layers)
    decreases |layers|
  {
    if i < |layers| - 1 {
      LongestIsLonger(layers[..|layers| - 1], i);
    }
  }

  function FreshName(layers: seq<Layer>): string {
    seq(Longest(layers) + 1, _ => 'x')
  }

  lemma AddedFileIsValid(lib: Library, self: StageId, content: string)
    requires Valid(LAX, lib) && self != 0 && lib.revision + 1 < MAX_U64
    ensures var name := FreshName(lib.layers);
            && Edited(LAX, Save(None, None, name, content, name), lib)
               == Ok(lib.(layers := lib.layers + [Layer(name, name, content)]))
            && Valid(LAX, Stamped(lib.(layers := lib.layers + [Layer(name, name, content)]), self))
  {
    var name := FreshName(lib.layers);
    var layers := lib.layers + [Layer(name, name, content)];
    forall i | 0 <= i < |lib.layers| ensures lib.layers[i].id != name && lib.layers[i].name != name {
      LongestIsLonger(lib.layers, i);
    }
    assert ValidLayers(LAX, layers);
    assert forall i :: 0 <= i < |lib.layers| ==> layers[i] == lib.layers[i];
    assert Ids(lib.layers) <= Ids(layers);
  }

  lemma LaxIsEditable()
    ensures Editable(LAX)
  {
    forall lib, self: StageId, avoid | Valid(LAX, lib) && self != 0 && lib.revision + 1 < MAX_U64
      ensures CanEdit(LAX, lib, self, avoid)
    {
      var name := FreshName(lib.layers);
      AddedFileIsValid(lib, self, "a");
      AddedFileIsValid(lib, self, "b");
      var a, b := lib.layers + [Layer(name, name, "a")], lib.layers + [Layer(name, name, "b")];
      assert a[|lib.layers|].content[0] == 'a' && b[|lib.layers|].content[0] == 'b';
      var content := if Stamped(lib.(layers := a), self) != avoid then "a" else "b";
      assert EditsTo(LAX, lib, self, Save(None, None, name, content, name), avoid);
    }
  }
}
