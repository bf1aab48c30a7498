/** Listing a directory in pages (src/file_io.rs): a bounded scan in any order, and the walk along its cursors. */
module DirectoryPaging {
  import opened Wrappers
  import opened Utf8

  type Name = seq<byte>

  datatype Kind = Directory | File | Other

  /** What the scan learns about a name: not permitted, not inspectable, or a kind of entry. */
  datatype Status = Refused | Uninspectable | Found(kind: Kind)

  /** `name` is None for a name that is not valid text. */
  datatype Item = Item(name: Option<Name>, status: Status)

  datatype Entry = Entry(name: Name, kind: Kind)

  datatype Page = Page(entries: seq<Entry>, nextCursor: Option<Name>)

  datatype ListError = UnableToInspect

  /** Text order, byte by byte. */
  predicate Less(a: Name, b: Name) {
    b != [] && (a == [] || a[0] < b[0] || (a[0] == b[0] && Less(a[1..], b[1..])))
  }

  predicate After(name: Name, cursor: Option<Name>) {
    cursor.None? || Less(cursor.value, name)
  }

  /** An item that the page may show, or that makes the listing fail. */
  predicate Candidate(item: Item, cursor: Option<Name>) {
    item.name.Some? && After(item.name.value, cursor) && !item.status.Refused?
  }

  function Clamp(limit: Option<nat>): (r: nat)
    ensures 1 <= r <= 200
  {
    var n := if limit.Some? then limit.value else 100;
    if n < 1 then 1 else if n > 200 then 200 else n
  }

  /** A sorted map: the entry goes to its place, and replaces one of the same name. */
  function Insert(entries: seq<Entry>, e: Entry): (r: seq<Entry>)
    ensures |entries| <= |r| <= |entries| + 1
  {
    if entries == [] || Less(e.name, entries[0].name) then [e] + entries
    else if e.name == entries[0].name then [e] + entries[1..]
    else [entries[0]] + Insert(entries[1..], e)
  }

  /** Everything the listing has to show after the cursor, sorted; None when an item cannot be inspected. */
  function Listing(items: seq<Item>, cursor: Option<Name>): Option<seq<Entry>> {
    if items == [] then Some([])
    else Scanned(Listing(items[..|items| - 1], cursor), items[|items| - 1], cursor)
  }

  function Scanned(before: Option<seq<Entry>>, item: Item, cursor: Option<Name>): Option<seq<Entry>> {
    match before
    case None => None
    case Some(entries) =>
      if !Candidate(item, cursor) then Some(entries)
      else if item.status.Uninspectable? then None
      else Some(Insert(entries, Entry(item.name.value, item.status.kind)))
  }

  function Take(entries: seq<Entry>, n: nat): seq<Entry> {
    if |entries| <= n then entries else entries[..n]
  }

  function PageOf(entries: seq<Entry>, limit: nat): Page
    requires limit > 0
  {
    Page(Take(entries, limit), if |entries| > limit then Some(entries[limit - 1].name) else None)
  }

  lemma ListingStep(items: seq<Item>, cursor: Option<Name>, i: nat)
    requires i < |items|
    ensures Listing(items[..i + 1], cursor) == Scanned(Listing(items[..i], cursor), items[i], cursor)
  {
    assert items[..i + 1][..i] == items[..i];
  }

  lemma {:induction false} FailureStays(items: seq<Item>, cursor: Option<Name>, i: nat)
    requires i <= |items| && Listing(items[..i], cursor).None?
    ensures Listing(items, cursor).None?
    decreases |items|
  {
    if i < |items| {
      assert items[..|items| - 1][..i] == items[..i];
      FailureStays(items[..|items| - 1], cursor, i);
    } else {
      assert items[..i] == items;
    }
  }

  /** Dropping what lies past the bound before an insertion changes nothing within the bound. */
  lemma {:induction false} TakeInsert(entries: seq<Entry>, e: Entry, n: nat)
    ensures Take(Insert(Take(entries, n), e), n) == Take(Insert(entries, e), n)
    decreases |entries|
  {
    if entries != [] && n > 0 {
      var first, rest := entries[0], entries[1..];
      assert entries == [first] + rest;
      TakeInsert(rest, e, n - 1);
      TakeCons(first, rest, n);
      InsertCons(first, rest, e);
      InsertCons(first, Take(rest, n - 1), e);
      TakeCons(first, Insert(rest, e), n);
      TakeCons(first, Insert(Take(rest, n - 1), e), n);
      TakeCons(e, entries, n);
      TakeCons(e, Take(entries, n), n);
      TakeCons(e, rest, n);
      TakeCons(e, Take(rest, n - 1), n);
      TakeTwice(entries, n - 1, n);
    }
  }

  lemma TakeCons(first: Entry, rest: seq<Entry>, n: nat)
    requires n > 0
    ensures Take([first] + rest, n) == [first] + Take(rest, n - 1)
  {
  }

  lemma TakeTwice(entries: seq<Entry>, m: nat, n: nat)
    requires m <= n
    ensures Take(Take(entries, n), m) == Take(entries, m) && Take(Take(entries, m), m) == Take(entries, m)
  {
  }

  lemma InsertCons(first: Entry, rest: seq<Entry>, e: Entry)
    ensures Insert([first] + rest, e)
            == if Less(e.name, first.name) then [e] + ([first] + rest)
               else if e.name == first.name then [e] + rest
               else [first] + Insert(rest, e)
  {
    assert ([first] + rest)[1..] == rest;
  }

  method ListDirectory(names: seq<Item>, cursor: Option<Name>, requested: Option<nat>)
    returns (r: Result<Page, ListError>)
    ensures r == match Listing(names, cursor)
                 case None => Err(UnableToInspect)
                 case Some(entries) => Ok(PageOf(entries, Clamp(requested)))
  {
    hide Insert, Less;
    var limit := Clamp(requested);
    var entries: seq<Entry> := [];
    for i := 0 to |names|
      invariant Listing(names[..i], cursor).Some?
      invariant entries == Take(Listing(names[..i], cursor).value, limit + 1)
    {
      ListingStep(names, cursor, i);
      var item := names[i];
      if item.name.None? {
        continue;
      }
      if cursor.Some? && !Less(cursor.value, item.name.value) {
        continue;
      }
      if item.status.Refused? {
        continue;
      }
      if item.status.Uninspectable? {
        FailureStays(names, cursor, i + 1);
        return Err(UnableToInspect);
      }
      var entry := Entry(item.name.value, item.status.kind);
      TakeInsert(Listing(names[..i], cursor).value, entry, limit + 1);
      entries := Insert(entries, entry);
      if |entries| > limit + 1 {
        entries := entries[..|entries| - 1];
      }
    }
    assert names[..|names|] == names;
    ghost var all := Listing(names, cursor).value;
    assert |all| > limit ==> Take(all, limit + 1)[..limit] == Take(all, limit);
    var hasMore := |entries| > limit;
    if hasMore {
      entries := entries[..|entries| - 1];
    }
    var nextCursor := if hasMore then Some(entries[|entries| - 1].name) else None;
    return Ok(Page(entries, nextCursor));
  }

  /** The page size is the wanted one, or the nearest between 1 and 200; 100 if none is wanted. */
  lemma ClampIsNearest(wanted: nat, other: nat)
    requires 1 <= other <= 200
    ensures var n := Clamp(Some(wanted)); if wanted < n then n <= other else if wanted > n then n >= other else true
    ensures Clamp(None) == 100
  {
  }

  // Text order is a strict total order: the first byte that differs decides, or else the length.

  predicate DiffersFirstAt(a: Name, b: Name, k: nat) {
    k <= |a| && k < |b| && a[..k] == b[..k] && (k == |a| || a[k] < b[k])
  }

  lemma {:induction false} LessMeans(a: Name, b: Name)
    ensures Less(a, b) <==> exists k: nat :: DiffersFirstAt(a, b, k)
    decreases |a|
  {
    assert DiffersFirstAt(a, b, 0) <==> b != [] && (a == [] || a[0] < b[0]);
    if a != [] && b != [] {
      LessMeans(a[1..], b[1..]);
      if k: nat :| DiffersFirstAt(a, b, k) {
        if k > 0 {
          LessAt(a, b, k - 1);
        }
      }
      if a[0] == b[0] && Less(a[1..], b[1..]) {
        var k: nat :| DiffersFirstAt(a[1..], b[1..], k);
        LessAt(a, b, k);
      }
    }
  }

  lemma LessAt(a: Name, b: Name, k: nat)
    requires a != [] && b != []
    ensures DiffersFirstAt(a, b, k + 1) <==> a[0] == b[0] && DiffersFirstAt(a[1..], b[1..], k)
  {
    if k < |a| && k < |b| {
      assert a[..k + 1] == [a[0]] + a[1..][..k] && b[..k + 1] == [b[0]] + b[1..][..k];
    }
  }

  lemma {:induction false} LessTransitive(a: Name, b: Name, c: Name)
    requires Less(a, b) && Less(b, c)
    ensures Less(a, c)
  {
    if a != [] && a[0] == b[0] == c[0] {
      LessTransitive(a[1..], b[1..], c[1..]);
    }
  }

  lemma {:induction false} LessTotal(a: Name, b: Name)
    ensures Less(a, b) || a == b || Less(b, a)
    ensures !(Less(a, b) && Less(b, a)) && !Less(a, a)
    decreases |a|
  {
    if a != [] {
      LessTotal(a[1..], a[1..]);
      if b != [] && a[0] == b[0] {
        LessTotal(a[1..], b[1..]);
        assert a == [a[0]] + a[1..] && b == [b[0]] + b[1..];
      }
    }
  }

  ghost predicate Ascending(entries: seq<Entry>) {
    forall i, j :: 0 <= i < j < |entries| ==> Less(entries[i].name, entries[j].name)
  }

  ghost predicate Names(entries: seq<Entry>, name: Name) {
    exists e :: e in entries && e.name == name
  }

  // What the listing contains.

  lemma {:induction false} InsertKeepsOrder(entries: seq<Entry>, e: Entry)
    requires Ascending(entries)
    ensures Ascending(Insert(entries, e))
    ensures forall x :: x in Insert(entries, e) <==> x == e || (x in entries && x.name != e.name)
    decreases |entries|
  {
    if entries != [] {
      var first := entries[0];
      LessTotal(e.name, first.name);
      assert forall x :: x in entries <==> x == first || x in entries[1..];
      if Less(e.name, first.name) {
        forall x | x in entries ensures Less(e.name, x.name) && x.name != e.name {
          if x != first {
            LessTransitive(e.name, first.name, x.name);
          }
          LessTotal(e.name, x.name);
        }
      } else if e.name == first.name {
        forall x | x in entries[1..] ensures Less(e.name, x.name) && x.name != e.name {
          LessTotal(e.name, x.name);
        }
      } else {
        InsertKeepsOrder(entries[1..], e);
      }
    }
  }

  ghost predicate Shown(items: seq<Item>, cursor: Option<Name>, e: Entry) {
    After(e.name, cursor) && Item(Some(e.name), Found(e.kind)) in items
  }

  /** The listing is in ascending order, shows only entries that are there, and names every one of them. */
  lemma {:induction false} ListingMeans(items: seq<Item>, cursor: Option<Name>)
    requires Listing(items, cursor).Some?
    ensures var entries := Listing(items, cursor).value;
            && Ascending(entries)
            && (forall e :: e in entries ==> Shown(items, cursor, e))
            && (forall e :: Shown(items, cursor, e) ==> Names(entries, e.name))
    decreases |items|
  {
    if items != [] {
      var k := |items| - 1;
      var item := items[k];
      ListingMeans(items[..k], cursor);
      var before := Listing(items[..k], cursor).value;
      assert forall x :: x in items <==> x in items[..k] || x == item;
      if Candidate(item, cursor) {
        var entry := Entry(item.name.value, item.status.kind);
        InsertKeepsOrder(before, entry);
        assert entry in Insert(before, entry);
      }
    }
  }
}
