/** What following the cursors of a directory listing shows. */
module DirectoryWalk {
  import opened Wrappers
  import opened DirectoryPaging

  lemma TakeMeans(entries: seq<Entry>, n: nat, x: Entry)
    requires Ascending(entries) && x in entries
    ensures x in Take(entries, n) || (|entries| > n && forall y :: y in Take(entries, n) ==> Less(y.name, x.name))
  {
  }

  /** A page holds exactly the smallest entries after the cursor, and says so when there are more. */
  lemma PageIsSmallest(items: seq<Item>, cursor: Option<Name>, limit: nat)
    requires Listing(items, cursor).Some? && limit > 0
    ensures var page := PageOf(Listing(items, cursor).value, limit);
            && |page.entries| <= limit && Ascending(page.entries)
            && (forall e :: e in page.entries ==> Shown(items, cursor, e))
            && (page.nextCursor.None? ==> forall e :: Shown(items, cursor, e) ==> Names(page.entries, e.name))
            && (page.nextCursor.Some? ==>
                  && |page.entries| == limit && page.nextCursor == Some(page.entries[limit - 1].name)
                  && (exists e :: Shown(items, cursor, e) && Less(page.nextCursor.value, e.name))
                  && forall e :: Shown(items, cursor, e) ==>
                       Names(page.entries, e.name) || Less(page.nextCursor.value, e.name))
  {
    var all := Listing(items, cursor).value;
    ListingMeans(items, cursor);
    var page := PageOf(all, limit);
    assert forall e :: e in page.entries ==> e in all;
    if |all| > limit {
      assert all[limit] in all && Less(all[limit - 1].name, all[limit].name);
      forall e | Shown(items, cursor, e) ensures Names(page.entries, e.name) || Less(page.nextCursor.value, e.name) {
        assert Names(all, e.name);
        var x :| x in all && x.name == e.name;
        TakeMeans(all, limit, x);
        assert page.entries[limit - 1] in page.entries;
      }
    }
  }

  /** The entries after a cursor. */
  function Above(entries: seq<Entry>, cursor: Option<Name>): seq<Entry> {
    if entries == [] then []
    else if After(entries[0].name, cursor) then [entries[0]] + Above(entries[1..], cursor)
    else Above(entries[1..], cursor)
  }

  lemma {:induction false} AboveAll(entries: seq<Entry>, cursor: Option<Name>)
    requires forall e :: e in entries ==> After(e.name, cursor)
    ensures Above(entries, cursor) == entries
  {
    if entries != [] {
      AboveAll(entries[1..], cursor);
    }
  }

  lemma {:induction false} InsertAbove(entries: seq<Entry>, e: Entry, cursor: Option<Name>)
    requires Ascending(entries)
    ensures Above(Insert(entries, e), cursor)
            == if After(e.name, cursor) then Insert(Above(entries, cursor), e) else Above(entries, cursor)
    decreases |entries|
  {
    if entries != [] {
      var first := entries[0];
      LessTotal(e.name, first.name);
      if Less(e.name, first.name) {
        if After(e.name, cursor) {
          forall x | x in entries ensures After(x.name, cursor) {
            AfterUpwards(e, entries, x, cursor);
          }
          AboveAll(entries, cursor);
        }
        assert Insert(entries, e)[1..] == entries;
      } else if e.name == first.name {
        assert Insert(entries, e)[1..] == entries[1..];
        if After(e.name, cursor) {
          assert Above(entries, cursor)[1..] == Above(entries[1..], cursor);
        }
      } else {
        InsertAbove(entries[1..], e, cursor);
        assert Insert(entries, e)[1..] == Insert(entries[1..], e);
        if After(first.name, cursor) {
          assert After(e.name, cursor) by {
            if cursor.Some? {
              LessTransitive(cursor.value, first.name, e.name);
            }
          }
          assert Above(entries, cursor)[1..] == Above(entries[1..], cursor);
        }
      }
    }
  }

  lemma AfterUpwards(e: Entry, entries: seq<Entry>, x: Entry, cursor: Option<Name>)
    requires Ascending(entries) && entries != [] && Less(e.name, entries[0].name) && x in entries
    requires After(e.name, cursor)
    ensures After(x.name, cursor)
  {
    if cursor.Some? {
      LessTransitive(cursor.value, e.name, entries[0].name);
      if x != entries[0] {
        LessTransitive(cursor.value, entries[0].name, x.name);
      }
    }
  }

  /** Listing after a cursor is the part of the whole listing after it. */
  lemma {:induction false} ListingAbove(items: seq<Item>, cursor: Option<Name>)
    requires Listing(items, None).Some?
    ensures Listing(items, cursor) == Some(Above(Listing(items, None).value, cursor))
    decreases |items|
  {
    if items != [] {
      var k := |items| - 1;
      var item := items[k];
      ListingAbove(items[..k], cursor);
      ListingMeans(items[..k], None);
      if Candidate(item, None) {
        InsertAbove(Listing(items[..k], None).value, Entry(item.name.value, item.status.kind), cursor);
      }
    }
  }

  lemma {:induction false} AboveMiddle(entries: seq<Entry>, i: nat)
    requires Ascending(entries) && i < |entries|
    ensures Above(entries, Some(entries[i].name)) == entries[i + 1..]
    decreases i
  {
    var cursor := Some(entries[i].name);
    LessTotal(entries[0].name, entries[i].name);
    if i == 0 {
      AboveAll(entries[1..], cursor);
    } else {
      AboveMiddle(entries[1..], i - 1);
      assert entries[1..][i..] == entries[i + 1..];
    }
  }

  // Two scans of one directory.

  predicate Distinct(items: seq<Item>) {
    forall i, j :: 0 <= i < j < |items| && items[i].name.Some? ==> items[i].name != items[j].name
  }

  /** The same items, in any order and each name once. */
  ghost predicate SameDirectory(a: seq<Item>, b: seq<Item>) {
    Distinct(a) && Distinct(b) && forall item :: item in a <==> item in b
  }

  lemma Inhabited(s: seq<Entry>)
    ensures s != [] ==> exists e :: e in s
  {
    if s != [] {
      assert s[0] in s;
    }
  }

  lemma {:induction false} AscendingUnique(a: seq<Entry>, b: seq<Entry>)
    requires Ascending(a) && Ascending(b) && forall e :: e in a <==> e in b
    ensures a == b
    decreases |a|
  {
    Inhabited(b);
    if a != [] {
      assert a[0] in b && b != [] && b[0] in a;
      LessTotal(a[0].name, b[0].name);
      assert a[0] == b[0];
      var c, d := a[1..], b[1..];
      forall e ensures e in c <==> e in d {
        LessTotal(a[0].name, a[0].name);
        assert e in a <==> e == a[0] || e in c;
        assert e in b <==> e == b[0] || e in d;
        assert a[0] !in c && b[0] !in d;
      }
      AscendingUnique(c, d);
    }
  }

  lemma ListingSet(items: seq<Item>, cursor: Option<Name>, e: Entry)
    requires Distinct(items) && Listing(items, cursor).Some?
    ensures e in Listing(items, cursor).value <==> Shown(items, cursor, e)
  {
    ListingMeans(items, cursor);
    if Shown(items, cursor, e) {
      assert Names(Listing(items, cursor).value, e.name);
      var x :| x in Listing(items, cursor).value && x.name == e.name;
      assert Shown(items, cursor, x);
      var i :| 0 <= i < |items| && items[i] == Item(Some(e.name), Found(e.kind));
      var j :| 0 <= j < |items| && items[j] == Item(Some(x.name), Found(x.kind));
      assert i == j;
    }
  }

  lemma {:induction false} FailsWhen(items: seq<Item>, cursor: Option<Name>)
    ensures Listing(items, cursor).None?
            <==> exists item :: item in items && Candidate(item, cursor) && item.status.Uninspectable?
    decreases |items|
  {
    if items != [] {
      var k := |items| - 1;
      FailsWhen(items[..k], cursor);
      assert forall x :: x in items <==> x in items[..k] || x == items[k];
    }
  }

  /** The order in which the file system reports the names does not matter. */
  lemma ScanOrderIsIrrelevant(a: seq<Item>, b: seq<Item>, cursor: Option<Name>)
    requires SameDirectory(a, b)
    ensures Listing(a, cursor) == Listing(b, cursor)
  {
    FailsWhen(a, cursor);
    FailsWhen(b, cursor);
    if Listing(a, cursor).Some? {
      var c, d := Listing(a, cursor).value, Listing(b, cursor).value;
      ListingMeans(a, cursor);
      ListingMeans(b, cursor);
      forall e ensures e in c <==> e in d {
        ListingSet(a, cursor, e);
        ListingSet(b, cursor, e);
      }
      AscendingUnique(c, d);
    }
  }

  // Following the cursors.

  ghost predicate Unchanged(scans: nat -> seq<Item>) {
    forall n :: SameDirectory(scans(0), scans(n))
  }

  /** The entries of the pages from the `n`th on; each call scans again and may ask for another page size. */
  ghost function Follow(scans: nat -> seq<Item>, limits: nat -> Option<nat>, n: nat, cursor: Option<Name>)
    : seq<Entry>
    requires Unchanged(scans) && Listing(scans(0), None).Some?
    decreases |Above(Listing(scans(0), None).value, cursor)|
  {
    PageAt(scans, limits, n, cursor);
    var page := PageOf(Listing(scans(n), cursor).value, Clamp(limits(n)));
    page.entries + if page.nextCursor.None? then [] else Follow(scans, limits, n + 1, page.nextCursor)
  }

  lemma PageAt(scans: nat -> seq<Item>, limits: nat -> Option<nat>, n: nat, cursor: Option<Name>)
    requires Unchanged(scans) && Listing(scans(0), None).Some?
    ensures var rest := Above(Listing(scans(0), None).value, cursor);
            && Listing(scans(n), cursor) == Some(rest)
            && var page := PageOf(rest, Clamp(limits(n)));
               page.nextCursor.Some? ==>
                 Above(Listing(scans(0), None).value, page.nextCursor) == rest[Clamp(limits(n))..]
  {
    var all := Listing(scans(0), None).value;
    ListingAbove(scans(0), cursor);
    assert SameDirectory(scans(0), scans(n));
    ScanOrderIsIrrelevant(scans(0), scans(n), cursor);
    var rest := Above(all, cursor);
    var limit := Clamp(limits(n));
    if |rest| > limit {
      ListingMeans(scans(0), cursor);
      AboveMiddle(rest, limit - 1);
      ListingMeans(scans(0), None);
      AboveTwice(all, cursor, Some(rest[limit - 1].name));
      assert rest[limit - 1] in rest;
    }
  }

  lemma {:induction false} AboveTwice(entries: seq<Entry>, a: Option<Name>, b: Option<Name>)
    requires b.Some? && After(b.value, a)
    ensures Above(Above(entries, a), b) == Above(entries, b)
    decreases |entries|
  {
    if entries != [] {
      AboveTwice(entries[1..], a, b);
      if After(entries[0].name, b) && a.Some? {
        LessTransitive(a.value, b.value, entries[0].name);
      }
      if After(entries[0].name, a) {
        assert Above(entries, a)[1..] == Above(entries[1..], a);
      }
    }
  }

  lemma {:induction false} FollowIsRest(scans: nat -> seq<Item>, limits: nat -> Option<nat>, n: nat,
                                        cursor: Option<Name>)
    requires Unchanged(scans) && Listing(scans(0), None).Some?
    ensures Follow(scans, limits, n, cursor) == Above(Listing(scans(0), None).value, cursor)
    decreases |Above(Listing(scans(0), None).value, cursor)|
  {
    PageAt(scans, limits, n, cursor);
    var rest := Above(Listing(scans(0), None).value, cursor);
    var page := PageOf(rest, Clamp(limits(n)));
    if page.nextCursor.Some? {
      FollowIsRest(scans, limits, n + 1, page.nextCursor);
    }
  }

  /** Following the cursors of an unchanged directory shows every permitted entry exactly once, in order. */
  lemma FollowListsEverythingOnce(scans: nat -> seq<Item>, limits: nat -> Option<nat>)
    requires Unchanged(scans) && Listing(scans(0), None).Some?
    ensures var shown := Follow(scans, limits, 0, None);
            && Ascending(shown)
            && forall e :: e in shown <==> Item(Some(e.name), Found(e.kind)) in scans(0)
  {
    FollowIsRest(scans, limits, 0, None);
    var all := Listing(scans(0), None).value;
    ListingMeans(scans(0), None);
    AboveAll(all, None);
    assert SameDirectory(scans(0), scans(0));
    forall e ensures e in all <==> Item(Some(e.name), Found(e.kind)) in scans(0) {
      ListingSet(scans(0), None, e);
    }
  }
}
