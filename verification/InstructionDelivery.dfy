/** What a device holds after any series of imports, and when the order of delivery matters. */
module InstructionDelivery {
  import opened Wrappers
  import opened InstructionLibrary
  import opened InstructionProtocol
  import opened InstructionTheorems

  /** A record, what was downloaded for it, and whether its signer is still authorised. */
  datatype Arrival = Arrival(record: Record, bytes: Library, authorised: bool)

  /** The state after the imports, one after the other; refused and stale ones leave it as it is. */
  function Delivered(rules: TextRules, current: Stored, arrivals: seq<Arrival>): Stored
    decreases |arrivals|
  {
    if arrivals == [] then current
    else Delivered(rules, AfterImport(rules, current, arrivals[0]), arrivals[1..])
  }

  function AfterImport(rules: TextRules, current: Stored, a: Arrival): Stored {
    match PlanImport(rules, current, a.record, a.bytes, a.authorised)
    case Store(next) => next
    case _ => current
  }

  /** The arrival passes every check that does not depend on what the device holds. */
  predicate Sound(rules: TextRules, a: Arrival) {
    && a.authorised && Acceptable(a.record) && a.record.content == a.bytes && Valid(rules, a.bytes)
    && a.record.revision == a.bytes.revision && a.record.writer == a.bytes.writer
  }

  function Offered(rules: TextRules, arrivals: seq<Arrival>): set<Library> {
    set a | a in arrivals && Sound(rules, a) :: a.bytes
  }

  /** The offered libraries that are newer than the one held. */
  function News(rules: TextRules, held: Library, arrivals: seq<Arrival>): set<Library> {
    set lib | lib in Offered(rules, arrivals) && Older(held, lib)
  }

  ghost predicate Agreeing(rules: TextRules, held: Library, arrivals: seq<Arrival>) {
    Agree(iset lib | lib == held || lib in Offered(rules, arrivals))
  }

  /** How many content changes the device can still store. */
  function Room(current: Stored): nat {
    if current.sequence < LAST_SEQUENCE then LAST_SEQUENCE - current.sequence else 0
  }

  ghost predicate IsNewest(rules: TextRules, lib: Library, held: Library, arrivals: seq<Arrival>) {
    && (lib == held || lib in Offered(rules, arrivals))
    && NotNewer(held, lib) && forall other :: other in Offered(rules, arrivals) ==> NotNewer(other, lib)
  }

  lemma AgreeingAt(rules: TextRules, held: Library, arrivals: seq<Arrival>, a: Library, b: Library)
    requires Agreeing(rules, held, arrivals) && SameBinding(a, b)
    requires (a == held || a in Offered(rules, arrivals)) && (b == held || b in Offered(rules, arrivals))
    ensures a == b
  {
    var all := iset lib | lib == held || lib in Offered(rules, arrivals);
    assert a in all && b in all;
  }

  lemma OfferedRest(rules: TextRules, arrivals: seq<Arrival>)
    requires arrivals != []
    ensures Offered(rules, arrivals)
            == Offered(rules, arrivals[1..]) + if Sound(rules, arrivals[0]) then {arrivals[0].bytes} else {}
  {
    assert forall a :: a in arrivals <==> a == arrivals[0] || a in arrivals[1..];
  }

  lemma AgreeingRest(rules: TextRules, held: Library, arrivals: seq<Arrival>, next: Library)
    requires arrivals != [] && Agreeing(rules, held, arrivals)
    requires next == held || next in Offered(rules, arrivals)
    ensures Agreeing(rules, next, arrivals[1..])
  {
    OfferedRest(rules, arrivals);
    var all := iset lib | lib == held || lib in Offered(rules, arrivals);
    forall a, b | (a == next || a in Offered(rules, arrivals[1..])) && (b == next || b in Offered(rules, arrivals[1..]))
                  && SameBinding(a, b)
      ensures a == b
    {
      assert a in all && b in all;
    }
  }

  /** One import among agreeing libraries: news is stored while there is room, and nothing else is. */
  lemma ImportStores(rules: TextRules, current: Stored, a: Arrival)
    requires Sound(rules, a) && SameBinding(a.bytes, current.library) ==> a.bytes == current.library
    ensures AfterImport(rules, current, a)
            == if Sound(rules, a) && Older(current.library, a.bytes) && Room(current) > 0
               then Stored(a.bytes, Some(a.record), current.sequence + 1) else current
  {
  }

  lemma FewerNews(rules: TextRules, held: Library, arrivals: seq<Arrival>, next: Library)
    requires arrivals != [] && NotNewer(held, next)
    ensures News(rules, next, arrivals[1..]) <= News(rules, held, arrivals)
    ensures next in News(rules, held, arrivals) ==> |News(rules, next, arrivals[1..])| < |News(rules, held, arrivals)|
    ensures |News(rules, next, arrivals[1..])| <= |News(rules, held, arrivals)|
  {
    OfferedRest(rules, arrivals);
    Subset(News(rules, next, arrivals[1..]), News(rules, held, arrivals));
    if next in News(rules, held, arrivals) {
      Subset(News(rules, next, arrivals[1..]), News(rules, held, arrivals) - {next});
    }
  }

  lemma Subset(a: set<Library>, b: set<Library>)
    requires a <= b
    ensures |a| <= |b|
  {
    assert b == a + (b - a);
  }

  /** With room for every piece of news, the device ends with the newest library among its own and the offered ones. */
  lemma {:induction false} DeliveredIsNewest(rules: TextRules, current: Stored, arrivals: seq<Arrival>)
    requires Agreeing(rules, current.library, arrivals)
    requires |News(rules, current.library, arrivals)| <= Room(current)
    ensures IsNewest(rules, Delivered(rules, current, arrivals).library, current.library, arrivals)
    decreases |arrivals|
  {
    if arrivals != [] {
      FirstImport(rules, current, arrivals);
      var next, rest := AfterImport(rules, current, arrivals[0]), arrivals[1..];
      OfferedRest(rules, arrivals);
      AgreeingRest(rules, current.library, arrivals, next.library);
      FewerNews(rules, current.library, arrivals, next.library);
      DeliveredIsNewest(rules, next, rest);
    }
  }

  lemma FirstImport(rules: TextRules, current: Stored, arrivals: seq<Arrival>)
    requires arrivals != [] && Agreeing(rules, current.library, arrivals)
    requires |News(rules, current.library, arrivals)| <= Room(current)
    ensures var a, next := arrivals[0], AfterImport(rules, current, arrivals[0]);
            && NotNewer(current.library, next.library) && (Sound(rules, a) ==> NotNewer(a.bytes, next.library))
            && (next == current
                || (next.library in News(rules, current.library, arrivals) && Room(next) == Room(current) - 1))
            && (next.library == current.library || next.library in Offered(rules, arrivals))
  {
    var a := arrivals[0];
    OfferedRest(rules, arrivals);
    if Sound(rules, a) {
      if SameBinding(a.bytes, current.library) {
        AgreeingAt(rules, current.library, arrivals, a.bytes, current.library);
      }
      if Older(current.library, a.bytes) {
        assert a.bytes in News(rules, current.library, arrivals);
      }
    }
    ImportStores(rules, current, a);
  }

  // ---------- When the order matters ----------

  ghost predicate SameArrivals(xs: seq<Arrival>, ys: seq<Arrival>) {
    forall a :: a in xs <==> a in ys
  }

  /** The same arrivals, in any order and however often, always leave the same library. */
  ghost predicate OrderIsIrrelevant(rules: TextRules, current: Stored, xs: seq<Arrival>) {
    forall ys :: SameArrivals(xs, ys) ==> Delivered(rules, current, ys).library == Delivered(rules, current, xs).library
  }

  lemma SameOffered(rules: TextRules, xs: seq<Arrival>, ys: seq<Arrival>)
    requires SameArrivals(xs, ys)
    ensures Offered(rules, xs) == Offered(rules, ys)
  {
  }

  /** Nothing is stored without room, and nothing without news. */
  lemma {:induction false} NothingDelivered(rules: TextRules, current: Stored, arrivals: seq<Arrival>)
    requires Agreeing(rules, current.library, arrivals)
    requires Room(current) == 0 || News(rules, current.library, arrivals) == {}
    ensures Delivered(rules, current, arrivals) == current
    decreases |arrivals|
  {
    if arrivals != [] {
      var a := arrivals[0];
      OfferedRest(rules, arrivals);
      if Sound(rules, a) && SameBinding(a.bytes, current.library) {
        AgreeingAt(rules, current.library, arrivals, a.bytes, current.library);
      }
      if Sound(rules, a) && Older(current.library, a.bytes) {
        assert a.bytes in News(rules, current.library, arrivals);
      }
      ImportStores(rules, current, a);
      AgreeingRest(rules, current.library, arrivals, current.library);
      FewerNews(rules, current.library, arrivals, current.library);
      NothingDelivered(rules, current, arrivals[1..]);
    }
  }

  lemma {:induction false} DeliveredAppend(rules: TextRules, current: Stored, xs: seq<Arrival>, ys: seq<Arrival>)
    ensures Delivered(rules, current, xs + ys) == Delivered(rules, Delivered(rules, current, xs), ys)
    decreases |xs|
  {
    if xs == [] {
      assert xs + ys == ys;
    } else {
      assert (xs + ys)[1..] == xs[1..] + ys;
      DeliveredAppend(rules, AfterImport(rules, current, xs[0]), xs[1..], ys);
    }
  }

  /** A finite set of libraries has an oldest and a newest one. */
  lemma {:induction false} Extremes(libs: set<Library>) returns (low: Library, high: Library)
    requires libs != {}
    ensures low in libs && high in libs
    ensures forall lib :: lib in libs ==> NotNewer(low, lib) && NotNewer(lib, high)
    decreases |libs|
  {
    var lib :| lib in libs;
    var rest := libs - {lib};
    if rest == {} {
      assert libs == {lib};
      low, high := lib, lib;
    } else {
      low, high := Extremes(rest);
      low := if Older(lib, low) then lib else low;
      high := if Older(high, lib) then lib else high;
      forall other | other in libs ensures NotNewer(low, other) && NotNewer(other, high) {
        assert other == lib || other in rest;
      }
    }
  }

  /** Delivered oldest first, more news than there is room for fills the room before the newest arrives. */
  lemma {:induction false} SlowDelivery(rules: TextRules, current: Stored, xs: seq<Arrival>) returns (ys: seq<Arrival>)
    requires Agreeing(rules, current.library, xs) && |News(rules, current.library, xs)| > Room(current)
    ensures forall a :: a in ys ==> a in xs
    ensures var last := Delivered(rules, current, ys);
            Room(last) == 0 && News(rules, last.library, xs) != {} && Agreeing(rules, last.library, xs)
    decreases Room(current)
  {
    if Room(current) == 0 {
      ys := [];
    } else {
      var low, _ := Extremes(News(rules, current.library, xs));
      var a :| a in xs && Sound(rules, a) && a.bytes == low;
      ImportStores(rules, current, a);
      var next := AfterImport(rules, current, a);
      NewsAfterOldest(rules, current.library, xs, low);
      var rest := SlowDelivery(rules, next, xs);
      ys := [a] + rest;
      assert ys[1..] == rest;
    }
  }

  lemma NewsAfterOldest(rules: TextRules, held: Library, xs: seq<Arrival>, low: Library)
    requires Agreeing(rules, held, xs) && low in News(rules, held, xs)
    requires forall lib :: lib in News(rules, held, xs) ==> NotNewer(low, lib)
    ensures |News(rules, low, xs)| == |News(rules, held, xs)| - 1 && Agreeing(rules, low, xs)
  {
    forall lib ensures lib in News(rules, low, xs) <==> lib in News(rules, held, xs) - {low} {
      if lib in News(rules, held, xs) && SameBinding(low, lib) {
        AgreeingAt(rules, held, xs, low, lib);
      }
    }
    assert News(rules, low, xs) == News(rules, held, xs) - {low};
    var all := iset lib | lib == held || lib in Offered(rules, xs);
    forall a, b | (a == low || a in Offered(rules, xs)) && (b == low || b in Offered(rules, xs)) && SameBinding(a, b)
      ensures a == b
    {
      assert a in all && b in all;
    }
  }

  /** Agreement speaks of what is offered alone, so it holds of every order of the same arrivals. */
  lemma SameAgreeing(rules: TextRules, held: Library, xs: seq<Arrival>, ys: seq<Arrival>)
    requires SameArrivals(xs, ys) && Agreeing(rules, held, xs)
    ensures Agreeing(rules, held, ys) && News(rules, held, ys) == News(rules, held, xs)
  {
    SameOffered(rules, xs, ys);
    forall a, b | (a == held || a in Offered(rules, ys)) && (b == held || b in Offered(rules, ys)) && SameBinding(a, b)
      ensures a == b
    {
      AgreeingAt(rules, held, xs, a, b);
    }
  }

  lemma NewestIsUnique(rules: TextRules, held: Library, xs: seq<Arrival>, ys: seq<Arrival>, a: Library, b: Library)
    requires Agreeing(rules, held, xs) && SameArrivals(xs, ys)
    requires IsNewest(rules, a, held, xs) && IsNewest(rules, b, held, ys)
    ensures a == b
  {
    SameOffered(rules, xs, ys);
    AgreeingAt(rules, held, xs, a, b);
  }

  /** One order that takes in the newest library: it arrives first, and nothing after it is news. */
  lemma NewestFirst(rules: TextRules, current: Stored, xs: seq<Arrival>) returns (ys: seq<Arrival>)
    requires Agreeing(rules, current.library, xs) && News(rules, current.library, xs) != {} && Room(current) > 0
    ensures SameArrivals(xs, ys)
    ensures IsNewest(rules, Delivered(rules, current, ys).library, current.library, xs)
  {
    var held := current.library;
    var _, high := Extremes(News(rules, held, xs));
    var a :| a in xs && Sound(rules, a) && a.bytes == high;
    ys := [a] + xs;
    ImportStores(rules, current, a);
    var next := AfterImport(rules, current, a);
    AgreeingRest(rules, held, ys, high) by { SameAgreeing(rules, held, xs, ys); }
    assert ys[1..] == xs;
    forall lib | lib in Offered(rules, xs) ensures NotNewer(lib, high) {
      assert Older(held, lib) ==> lib in News(rules, held, xs);
    }
    NothingDelivered(rules, next, xs);
  }

  /** With some room, but less than news, the newest library survives in one order and is refused in another. */
  lemma OrderMatters(rules: TextRules, current: Stored, xs: seq<Arrival>)
    requires Agreeing(rules, current.library, xs)
    requires 0 < Room(current) < |News(rules, current.library, xs)|
    ensures !OrderIsIrrelevant(rules, current, xs)
  {
    var fast := NewestFirst(rules, current, xs);
    var slow := SlowDelivery(rules, current, xs);
    var last := Delivered(rules, current, slow);
    DeliveredAppend(rules, current, slow, xs);
    NothingDelivered(rules, last, xs);
    var left :| left in News(rules, last.library, xs);
    assert SameArrivals(xs, slow + xs);
    assert SameArrivals(xs, fast);
    assert Delivered(rules, current, slow + xs).library != Delivered(rules, current, fast).library;
  }

  /**
   * The order in which agreeing libraries arrive makes no difference exactly when every piece of news fits into
   * the sequence numbers that are left, or none does.
   */
  lemma DeliveryOrderIsIrrelevant(rules: TextRules, current: Stored, xs: seq<Arrival>)
    requires Agreeing(rules, current.library, xs)
    ensures OrderIsIrrelevant(rules, current, xs)
            <==> Room(current) == 0 || |News(rules, current.library, xs)| <= Room(current)
  {
    var held := current.library;
    if Room(current) == 0 || |News(rules, held, xs)| <= Room(current) {
      forall ys | SameArrivals(xs, ys)
        ensures Delivered(rules, current, ys).library == Delivered(rules, current, xs).library
      {
        SameAgreeing(rules, held, xs, ys);
        if Room(current) == 0 {
          NothingDelivered(rules, current, xs);
          NothingDelivered(rules, current, ys);
        } else {
          DeliveredIsNewest(rules, current, xs);
          DeliveredIsNewest(rules, current, ys);
          NewestIsUnique(rules, held, xs, ys,
                         Delivered(rules, current, xs).library, Delivered(rules, current, ys).library);
        }
      }
    } else {
      OrderMatters(rules, current, xs);
    }
  }

  // ---------- In the runs of the protocol ----------

  /** Whatever bytes arrive with records of the network, what passes the checks agrees with what the device holds. */
  lemma ArrivalsAgree(rules: TextRules, worlds: seq<World>, actions: seq<Action>, i: nat, id: StageId,
                      arrivals: seq<Arrival>)
    requires IsRun(rules, worlds, actions) && Start(worlds[0]) && i < |worlds| && id in worlds[i].devices
    requires forall a :: a in arrivals ==> a.record in worlds[i].network
    ensures Agreeing(rules, worlds[i].devices[id].memory.library, arrivals)
  {
    var w := worlds[i];
    var held := w.devices[id].memory.library;
    Agreement(rules, worlds, actions, i);
    assert held in Published(w);
    forall lib | lib in Offered(rules, arrivals) ensures lib in Published(w) {
      var a :| a in arrivals && Sound(rules, a) && a.bytes == lib;
      assert a.record in w.network && a.record.content == lib;
    }
    var all := Published(w);
    forall a, b | (a == held || a in Offered(rules, arrivals)) && (b == held || b in Offered(rules, arrivals))
                  && SameBinding(a, b)
      ensures a == b
    {
      assert a in all && b in all;
    }
  }

  /** So in every state of every run the order of delivery is irrelevant exactly when there is the room, or none. */
  lemma DeliveryOrderInRuns(rules: TextRules, worlds: seq<World>, actions: seq<Action>, i: nat, id: StageId,
                            arrivals: seq<Arrival>)
    requires IsRun(rules, worlds, actions) && Start(worlds[0]) && i < |worlds| && id in worlds[i].devices
    requires forall a :: a in arrivals ==> a.record in worlds[i].network
    ensures var memory := worlds[i].devices[id].memory;
            OrderIsIrrelevant(rules, memory, arrivals)
            <==> Room(memory) == 0 || |News(rules, memory.library, arrivals)| <= Room(memory)
  {
    ArrivalsAgree(rules, worlds, actions, i, id, arrivals);
    DeliveryOrderIsIrrelevant(rules, worlds[i].devices[id].memory, arrivals);
  }
}
