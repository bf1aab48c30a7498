/** Runs and deliveries that show why the theorems keep their guards, under text rules that accept everything. */
module InstructionRuns {
  import opened Wrappers
  import opened InstructionLibrary
  import opened InstructionStore
  import opened InstructionProtocol
  import opened InstructionTheorems
  import opened InstructionPowerLoss
  import InstructionDelivery

  function OneFile(content: string): Stored {
    Stored(Library(1, 1, 1, [Layer("id", "file.md", content)], {}, {}), None, 1)
  }

  function SaveOf(content: string): Edit {
    Save(None, None, "file.md", content, "id")
  }

  const A: Stored := OneFile("a")
  const RECORD: Record := Record(0, 1, 1, A.library)
  const SIGNED: Stored := A.(signed := Some(RECORD))
  const BLANK: Device := Device(Initial(1), None, {None})

  function Alone(d: Device, network: set<Record>): World {
    World(map[1 := d], network)
  }

  lemma FirstSave(content: string)
    ensures PlanEdit(LAX, 1, Initial(1), SaveOf(content)) == Store(OneFile(content))
  {
    var lib := Initial(1).library;
    assert lib.layers + [Layer("id", "file.md", content)] == [Layer("id", "file.md", content)];
    assert Edited(LAX, SaveOf(content), lib) == Ok(lib.(layers := [Layer("id", "file.md", content)]));
  }

  lemma Then(w: World, a: Action, next: World, rest: seq<Action>, after: World)
    requires Enabled(w, a) && SafePower(LAX, w, a) && Next(LAX, w, a) == next && Leads(LAX, next, rest, after)
    ensures Leads(LAX, w, [a] + rest, after)
  {
    assert ([a] + rest)[1..] == rest;
  }

  // ---------- Power lost behind an offer of a file that was never synced ----------

  /** The library in memory and its signature were renamed into place, but the directory was never synced. */
  const UNSYNCED: Device := Device(SIGNED, Some(SIGNED), {None, Some(A), Some(SIGNED)})

  lemma SavedUnsynced()
    ensures var a, w := Update(1, SaveOf("a"), FailedAfter), Alone(BLANK, {});
            Enabled(w, a) && SafePower(LAX, w, a)
            && Next(LAX, w, a) == Alone(Device(Initial(1), Some(A), {None, Some(A)}), {})
  {
    FirstSave("a");
    assert BLANK.lasting + {Some(A)} == {None, Some(A)};
  }

  lemma RestartsWith(memory: Stored, disk: Stored, lasting: set<Option<Stored>>)
    requires disk == A || disk == SIGNED
    ensures var w := Alone(Device(memory, Some(disk), lasting), {});
            Enabled(w, Restart(1)) && SafePower(LAX, w, Restart(1))
            && Next(LAX, w, Restart(1)) == Alone(Device(disk, Some(disk), lasting), {})
  {
  }

  lemma SignedUnsynced()
    ensures var a, w := Offer(1, 0, FailedAfter), Alone(Device(A, Some(A), {None, Some(A)}), {});
            Enabled(w, a) && SafePower(LAX, w, a) && Next(LAX, w, a) == Alone(UNSYNCED.(memory := A), {})
  {
    assert {None, Some(A)} + {Some(SIGNED)} == UNSYNCED.lasting;
  }

  lemma OfferedUnsynced()
    ensures var a, w := Offer(1, 0, Completed), Alone(UNSYNCED, {});
            Enabled(w, a) && SafePower(LAX, w, a) && Next(LAX, w, a) == Alone(UNSYNCED, {RECORD})
  {
  }

  lemma LeadsToUnsynced() returns (actions: seq<Action>)
    ensures Leads(LAX, Alone(BLANK, {}), actions, Alone(UNSYNCED, {RECORD}))
  {
    hide Next, Enabled, SafePower;
    var after := Alone(UNSYNCED, {RECORD});
    var saved := Alone(Device(Initial(1), Some(A), {None, Some(A)}), {});
    var read := Alone(Device(A, Some(A), {None, Some(A)}), {});
    OfferedUnsynced();
    assert Leads(LAX, after, [], after);
    Then(Alone(UNSYNCED, {}), Offer(1, 0, Completed), after, [], after);
    actions := [Offer(1, 0, Completed)] + [];
    RestartsWith(A, SIGNED, UNSYNCED.lasting);
    Then(Alone(UNSYNCED.(memory := A), {}), Restart(1), Alone(UNSYNCED, {}), actions, after);
    actions := [Restart(1)] + actions;
    SignedUnsynced();
    Then(read, Offer(1, 0, FailedAfter), Alone(UNSYNCED.(memory := A), {}), actions, after);
    actions := [Offer(1, 0, FailedAfter)] + actions;
    RestartsWith(Initial(1), A, {None, Some(A)});
    Then(saved, Restart(1), read, actions, after);
    actions := [Restart(1)] + actions;
    SavedUnsynced();
    Then(Alone(BLANK, {}), Update(1, SaveOf("a"), FailedAfter), saved, actions, after);
    actions := [Update(1, SaveOf("a"), FailedAfter)] + actions;
  }

  lemma {:induction false} LeadsKeepsRoom(rules: TextRules, w: World, actions: seq<Action>, after: World)
    requires Inv(rules, w) && Room(w) && Leads(rules, w, actions, after)
    ensures Inv(rules, after) && Room(after)
    decreases |actions|
  {
    if actions != [] {
      var next := Next(rules, w, actions[0]);
      StepKeepsInv(rules, w, actions[0], next);
      StepKeepsRoom(rules, w, actions[0], next);
      LeadsKeepsRoom(rules, next, actions[1..], after);
    }
  }

  /**
   * The device writes and signs a library, each time with an error behind the rename and a restart, and offers it.
   * Power lost now may bring back nothing, which breaks agreement, or the unsigned library, which does not.
   */
  lemma UnsafePowerLossIsReachable() returns (w: World, actions: seq<Action>, after: World)
    ensures Start(w) && Leads(LAX, w, actions, after)
    ensures Enabled(after, PowerLoss(1, None)) && !SafePower(LAX, after, PowerLoss(1, None))
    ensures !AgreesForEver(LAX, Next(LAX, after, PowerLoss(1, None)))
    ensures Enabled(after, PowerLoss(1, Some(A))) && SafePower(LAX, after, PowerLoss(1, Some(A)))
  {
    hide Leads, Next, Inv, Room;
    w, after := Alone(BLANK, {}), Alone(UNSYNCED, {RECORD});
    actions := LeadsToUnsynced();
    StartOk(LAX, w);
    StartHasRoom(w);
    LeadsKeepsRoom(LAX, w, actions, after);
    LaxIsEditable();
    assert RECORD in after.network && RECORD.writer == 1 && RECORD.revision > Initial(1).library.revision;
    var more, last := UnsafePowerLossDisagrees(LAX, after, PowerLoss(1, None));
  }

  /** A save that failed behind its rename, and a restart that reads it: nothing is offered, and nothing synced. */
  const READ_BACK: World := Alone(Device(A, Some(A), {None, Some(A)}), {})

  lemma LeadsToReadBack() returns (actions: seq<Action>)
    ensures Leads(LAX, Alone(BLANK, {}), actions, READ_BACK)
  {
    hide Next, Enabled, SafePower;
    var saved := Alone(Device(Initial(1), Some(A), {None, Some(A)}), {});
    assert Leads(LAX, READ_BACK, [], READ_BACK);
    RestartsWith(Initial(1), A, {None, Some(A)});
    Then(saved, Restart(1), READ_BACK, [], READ_BACK);
    SavedUnsynced();
    actions := [Update(1, SaveOf("a"), FailedAfter)] + ([Restart(1)] + []);
    Then(Alone(BLANK, {}), Update(1, SaveOf("a"), FailedAfter), saved, [Restart(1)] + [], READ_BACK);
  }

  /**
   * A power loss that then brings back nothing is safe, as nothing was offered, and takes the device back; one that
   * brings back the file does not.
   */
  lemma SafeLossTakesBack() returns (actions: seq<Action>)
    ensures Start(Alone(BLANK, {})) && Leads(LAX, Alone(BLANK, {}), actions, READ_BACK)
    ensures var lost := PowerLoss(1, None);
            && Enabled(READ_BACK, lost) && SafePower(LAX, READ_BACK, lost) && !Steady(LAX, READ_BACK, lost)
            && 1 in Next(LAX, READ_BACK, lost).devices
            && Older(Next(LAX, READ_BACK, lost).devices[1].memory.library, READ_BACK.devices[1].memory.library)
    ensures Enabled(READ_BACK, PowerLoss(1, Some(A))) && Steady(LAX, READ_BACK, PowerLoss(1, Some(A)))
  {
    hide Leads;
    actions := LeadsToReadBack();
  }

  // ---------- A file that steps back ----------

  const TWO: World := World(map[1 := BLANK, 2 := Device(Initial(2), None, {None})], {})

  lemma {:induction false} LeadsThen(w: World, actions: seq<Action>, mid: World, a: Action)
    requires Leads(LAX, w, actions, mid) && Enabled(mid, a) && SafePower(LAX, mid, a)
    ensures Leads(LAX, w, actions + [a], Next(LAX, mid, a))
    decreases |actions|
  {
    if actions == [] {
      assert actions + [a] == [a] && [a][1..] == [];
    } else {
      assert (actions + [a])[1..] == actions[1..] + [a];
      LeadsThen(Next(LAX, w, actions[0]), actions[1..], mid, a);
    }
  }

  /** The second device edits its library five times. */
  lemma FiveEdits() returns (actions: seq<Action>, edited: Stored)
    ensures Leads(LAX, TWO, actions, TWO.(devices := TWO.devices[2 := AtRest(edited)]))
    ensures edited.signed == None && Valid(LAX, edited.library)
    ensures edited.library.revision == 5 && edited.library.writer == 2
  {
    LaxIsEditable();
    var after;
    actions, after := EditOn(LAX, TWO, 2, 5, Initial(2).library);
    edited := after.devices[2].memory;
  }

  /** It signs the result and offers it. */
  lemma OffersFive(edited: Stored)
    requires edited.signed == None && edited.library.revision == 5 && edited.library.writer == 2
    ensures var w, a := TWO.(devices := TWO.devices[2 := AtRest(edited)]), Offer(2, 0, Completed);
            var record := Record(0, 5, 2, edited.library);
            Enabled(w, a) && SafePower(LAX, w, a)
            && Next(LAX, w, a) == World(TWO.devices[2 := AtRest(edited.(signed := Some(record)))], {record})
  {
    var w := TWO.(devices := TWO.devices[2 := AtRest(edited)]);
    var signed := AtRest(edited.(signed := Some(Record(0, 5, 2, edited.library))));
    assert w.devices[2 := signed] == TWO.devices[2 := signed];
  }

  /** The first device takes it in, with an error behind the rename: the file is there, and not in memory. */
  lemma ImportsFive(w: World, record: Record)
    requires 1 in w.devices && w.devices[1] == BLANK && record in w.network && Valid(LAX, record.content)
    requires record.revision == record.content.revision == 5 && record.writer == record.content.writer
    ensures var a := Import(1, record, record.content, true, FailedAfter);
            var file := Stored(record.content, Some(record), 1);
            Enabled(w, a) && SafePower(LAX, w, a)
            && Next(LAX, w, a)
               == w.(devices := w.devices[1 := Device(Initial(1), Some(file), {None, Some(file)})])
  {
    var file := Stored(record.content, Some(record), 1);
    assert PlanImport(LAX, Initial(1), record, record.content, true) == Store(file);
    assert {None} + {Some(file)} == {None, Some(file)};
    assert w.network + {} == w.network;
  }

  /** A local edit of what is in memory then writes revision 1. */
  lemma SavesOne(w: World)
    requires 1 in w.devices && w.devices[1].memory == Initial(1)
    ensures var a := Update(1, SaveOf("a"), Completed);
            Enabled(w, a) && SafePower(LAX, w, a) && 1 in Next(LAX, w, a).devices
            && Next(LAX, w, a).devices[1] == AtRest(A)
  {
    FirstSave("a");
  }

  /** From the start of two devices a run leads to a state in which a save takes a file from revision 5 to 1. */
  lemma FileStepsBackFromFiveToOne() returns (actions: seq<Action>, ahead: World, save: Action)
    ensures Start(TWO) && Leads(LAX, TWO, actions, ahead) && Enabled(ahead, save) && SafePower(LAX, ahead, save)
    ensures ahead.devices[save.device].disk.Some? && ahead.devices[save.device].disk.value.library.revision == 5
    ensures save.device in Next(LAX, ahead, save).devices
    ensures var after := Next(LAX, ahead, save).devices[save.device];
            after.disk.Some? && after.disk.value.library.revision == 1
            && StepsBack(ahead.devices[save.device].disk, after.disk)
  {
    hide Leads, Next, Enabled, SafePower, Valid;
    var edited;
    actions, edited := FiveEdits();
    var w := TWO.(devices := TWO.devices[2 := AtRest(edited)]);
    var record := Record(0, 5, 2, edited.library);
    OffersFive(edited);
    LeadsThen(TWO, actions, w, Offer(2, 0, Completed));
    w, actions := Next(LAX, w, Offer(2, 0, Completed)), actions + [Offer(2, 0, Completed)];
    ImportsFive(w, record);
    var fetch := Import(1, record, record.content, true, FailedAfter);
    LeadsThen(TWO, actions, w, fetch);
    actions, ahead, save := actions + [fetch], Next(LAX, w, fetch), Update(1, SaveOf("a"), Completed);
    SavesOne(ahead);
  }

  // ---------- The last sequence number, and an order of delivery that matters ----------

  function Numbered(revision: Revision): Library {
    Library(1, revision, 2, [], {}, {})
  }

  function Arriving(revision: Revision): InstructionDelivery.Arrival {
    InstructionDelivery.Arrival(Record(0, revision, 2, Numbered(revision)), Numbered(revision), true)
  }

  /** A store that has one sequence number left. */
  const NEARLY_FULL: Stored := Initial(1).(sequence := LAST_SEQUENCE - 1)

  /** A save that is accepted there leaves a file that does not open. */
  lemma LastSaveDoesNotReopen()
    ensures Open(LAX, 1, Some(NEARLY_FULL)).Some? && PlanEdit(LAX, 1, NEARLY_FULL, SaveOf("a")).Store?
    ensures Open(LAX, 1, Some(PlanEdit(LAX, 1, NEARLY_FULL, SaveOf("a")).next)) == None
  {
    FirstSave("a");
    LastChangeDoesNotReopen(LAX, 1, NEARLY_FULL);
  }

  lemma TwoAreNews()
    ensures InstructionDelivery.News(LAX, NEARLY_FULL.library, [Arriving(1), Arriving(2)]) == {Numbered(1), Numbered(2)}
    ensures InstructionDelivery.Agreeing(LAX, NEARLY_FULL.library, [Arriving(1), Arriving(2)])
  {
    var xs, held := [Arriving(1), Arriving(2)], NEARLY_FULL.library;
    assert Arriving(1) in xs && Arriving(2) in xs;
    assert InstructionDelivery.Sound(LAX, Arriving(1)) && InstructionDelivery.Sound(LAX, Arriving(2));
    assert InstructionDelivery.Offered(LAX, xs) == {Numbered(1), Numbered(2)};
  }

  lemma InTurn(a: InstructionDelivery.Arrival, b: InstructionDelivery.Arrival)
    ensures InstructionDelivery.Delivered(LAX, NEARLY_FULL, [a, b])
            == InstructionDelivery.AfterImport(LAX, InstructionDelivery.AfterImport(LAX, NEARLY_FULL, a), b)
  {
    var mid := InstructionDelivery.AfterImport(LAX, NEARLY_FULL, a);
    assert [a, b] == [a] + [b] && [b][1..] == [] && [a][1..] == [];
    InstructionDelivery.DeliveredAppend(LAX, NEARLY_FULL, [a], [b]);
    assert InstructionDelivery.Delivered(LAX, NEARLY_FULL, [a]) == mid;
  }

  lemma FirstStays(a: Revision, b: Revision)
    requires 0 < a < MAX_U64 && 0 < b < MAX_U64 && a != b
    ensures InstructionDelivery.Delivered(LAX, NEARLY_FULL, [Arriving(a), Arriving(b)]).library == Numbered(a)
  {
    InTurn(Arriving(a), Arriving(b));
    InstructionDelivery.ImportStores(LAX, NEARLY_FULL, Arriving(a));
    InstructionDelivery.ImportStores(LAX, Stored(Numbered(a), Some(Arriving(a).record), LAST_SEQUENCE), Arriving(b));
  }

  /** Revisions 1 and 2 with one sequence number left: the one that arrives first stays, and the other is refused. */
  lemma OrderOfTwoMatters()
    ensures var xs := [Arriving(1), Arriving(2)];
            && InstructionDelivery.Agreeing(LAX, NEARLY_FULL.library, xs)
            && 0 < InstructionDelivery.Room(NEARLY_FULL) < |InstructionDelivery.News(LAX, NEARLY_FULL.library, xs)|
            && InstructionDelivery.Delivered(LAX, NEARLY_FULL, xs).library == Numbered(1)
            && InstructionDelivery.Delivered(LAX, NEARLY_FULL, [Arriving(2), Arriving(1)]).library == Numbered(2)
  {
    TwoAreNews();
    assert Numbered(1) != Numbered(2) && |{Numbered(1), Numbered(2)}| == 2;
    FirstStays(1, 2);
    FirstStays(2, 1);
  }
}
