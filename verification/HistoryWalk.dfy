/** What following the cursors of the history gives: every source, whole, once and in order. */
module HistoryWalk {
  import opened Wrappers
  import opened Usize
  import opened Utf8
  import opened HistoryPaging

  /** An offset in the source of the `row`th row; the end of the archive is offset 0 of no row. */
  datatype Place = Place(row: nat, offset: nat)

  /** The fragment is the part of the row from `start` on, cut between characters. */
  predicate FragmentAt(e: Fragment, row: Row, start: nat) {
    var end := start + |e.source|;
    && e.sequence == row.sequence && e.offset == start
    && end <= |row.source| && e.source == row.source[start..end]
    && IsBoundary(row.source, start) && IsBoundary(row.source, end)
    && e.complete == (end == |row.source|)
  }

  /** Where the next fragment has to start. */
  function Behind(e: Fragment, at: Place): Place {
    if e.complete then Place(at.row + 1, 0) else Place(at.row, at.offset + |e.source|)
  }

  /** The fragments read on without a gap from one place to another. */
  predicate ReadsTo(entries: seq<Fragment>, rows: seq<Row>, from: Place, to: Place) {
    if entries == [] then from == to
    else
      && from.row < |rows| && FragmentAt(entries[0], rows[from.row], from.offset)
      && ReadsTo(entries[1..], rows, Behind(entries[0], from), to)
  }

  lemma {:induction false} ReadOn(a: seq<Fragment>, b: seq<Fragment>, rows: seq<Row>, from: Place, mid: Place,
                                  to: Place)
    requires ReadsTo(a, rows, from, mid) && ReadsTo(b, rows, mid, to)
    ensures ReadsTo(a + b, rows, from, to)
    decreases |a|
  {
    if a == [] {
      assert a + b == b;
    } else {
      assert (a + b)[1..] == a[1..] + b;
      ReadOn(a[1..], b, rows, Behind(a[0], from), mid, to);
    }
  }

  /** The rows of `part` stand in the archive from `low` on. */
  ghost predicate PartOf(part: seq<Row>, rows: seq<Row>, low: nat) {
    low + |part| <= |rows| && forall i :: 0 <= i < |part| ==> part[i] == rows[low + i]
  }

  function Shift(at: Place, low: nat): Place {
    Place(low + at.row, at.offset)
  }

  /** What reads on in a part of the archive reads on in the archive. */
  lemma {:induction false} ReadInside(entries: seq<Fragment>, part: seq<Row>, rows: seq<Row>, low: nat,
                                      from: Place, to: Place)
    requires PartOf(part, rows, low) && ReadsTo(entries, part, from, to)
    ensures ReadsTo(entries, rows, Shift(from, low), Shift(to, low))
    decreases |entries|
  {
    hide FragmentAt;
    if entries != [] {
      ReadInside(entries[1..], part, rows, low, Behind(entries[0], from), to);
      assert Shift(Behind(entries[0], from), low) == Behind(entries[0], Shift(from, low));
    }
  }

  // One page.

  /** A fragment either completes its row or takes at least one character. */
  lemma FragmentAdvances(row: Row, start: nat, remaining: nat)
    requires StartsWell(row, start)
    ensures var e := FragmentOf(row, start, remaining);
            FragmentAt(e, row, start) && (remaining >= 4 && !e.complete ==> |e.source| > 0)
  {
    var n := Min(|row.source|, SaturatingAdd(start, remaining));
    FloorReaches(row.source, n, start);
    FloorIsNear(row.source, n);
  }

  ghost predicate Resumes(next: Cursor, rows: seq<Row>, j: nat) {
    j < |rows| && next.sequence == rows[j].sequence && StartsWell(rows[j], next.offset)
  }

  /** The page reads on to the end of the rows, or to where its next cursor points. */
  ghost predicate PageReads(page: Page, rows: seq<Row>, from: Place) {
    match page.nextCursor
    case None => ReadsTo(page.entries, rows, from, Place(|rows|, 0))
    case Some(next) => exists j: nat :: from.row <= j && Resumes(next, rows, j)
                                        && ReadsTo(page.entries, rows, from, Place(j, next.offset))
  }

  ghost predicate Ready(rows: seq<Row>, i: nat, cursor: Cursor) {
    && i <= |rows|
    && (i < |rows| ==> StartsWell(rows[i], StartOf(rows[i], cursor)))
    && forall j :: i < j < |rows| ==> rows[j].sequence != cursor.sequence
  }

  function PlaceOf(rows: seq<Row>, i: nat, cursor: Cursor): Place {
    Place(i, if i < |rows| then StartOf(rows[i], cursor) else 0)
  }

  lemma {:induction false} FillReads(rows: seq<Row>, i: nat, cursor: Cursor, room: nat, remaining: nat)
    requires Ready(rows, i, cursor) && (room == 0 || remaining == 0 ==> PlaceOf(rows, i, cursor).offset == 0)
    ensures Fill(rows, i, cursor, room, remaining).Ok?
    ensures PageReads(Fill(rows, i, cursor, room, remaining).value, rows, PlaceOf(rows, i, cursor))
    decreases |rows| - i
  {
    hide FragmentAt, Floor, Fill, FragmentOf, ReadsTo, PageReads;
    if i == |rows| || room == 0 || remaining == 0 {
      FillStops(rows, i, cursor, room, remaining);
    } else {
      var start := StartOf(rows[i], cursor);
      var e := FragmentOf(rows[i], start, remaining);
      FillTurn(rows, i, cursor, room, remaining);
      if e.complete {
        FillReads(rows, i + 1, cursor, room - 1, SaturatingSub(remaining, |e.source| + 512));
        PageReadsOn(e, Fill(rows, i + 1, cursor, room - 1, SaturatingSub(remaining, |e.source| + 512)).value,
                    rows, Place(i, start));
      } else {
        PageEndsInside(e, rows, Place(i, start));
      }
    }
  }

  lemma FillStops(rows: seq<Row>, i: nat, cursor: Cursor, room: nat, remaining: nat)
    requires i <= |rows| && (i == |rows| || room == 0 || remaining == 0)
    requires i < |rows| ==> PlaceOf(rows, i, cursor).offset == 0
    ensures Fill(rows, i, cursor, room, remaining).Ok?
    ensures PageReads(Fill(rows, i, cursor, room, remaining).value, rows, PlaceOf(rows, i, cursor))
  {
    if i < |rows| {
      assert Resumes(Cursor(rows[i].sequence, 0), rows, i);
    }
  }

  lemma FillTurn(rows: seq<Row>, i: nat, cursor: Cursor, room: nat, remaining: nat)
    requires i < |rows| && room > 0 && remaining > 0 && StartsWell(rows[i], StartOf(rows[i], cursor))
    ensures var start := StartOf(rows[i], cursor);
            var e := FragmentOf(rows[i], start, remaining);
            && FragmentAt(e, rows[i], start)
            && Fill(rows, i, cursor, room, remaining)
               == if e.complete
                  then Prepend([e], Fill(rows, i + 1, cursor, room - 1, SaturatingSub(remaining, |e.source| + 512)))
                  else Ok(Page([e], Some(Cursor(e.sequence, start + |e.source|))))
  {
    FragmentAdvances(rows[i], StartOf(rows[i], cursor), remaining);
  }

  lemma PageEndsInside(e: Fragment, rows: seq<Row>, from: Place)
    requires from.row < |rows| && FragmentAt(e, rows[from.row], from.offset) && !e.complete
    ensures PageReads(Page([e], Some(Cursor(e.sequence, from.offset + |e.source|))), rows, from)
  {
    var next := Behind(e, from);
    assert Resumes(Cursor(e.sequence, next.offset), rows, from.row);
    assert ReadsTo([e], rows, from, next);
  }

  lemma PageReadsOn(e: Fragment, rest: Page, rows: seq<Row>, from: Place)
    requires from.row < |rows| && FragmentAt(e, rows[from.row], from.offset) && e.complete
    requires PageReads(rest, rows, Place(from.row + 1, 0))
    ensures PageReads(Page([e] + rest.entries, rest.nextCursor), rows, from)
  {
    assert ([e] + rest.entries)[1..] == rest.entries;
    if rest.nextCursor.Some? {
      var next := rest.nextCursor.value;
      var j: nat :| from.row + 1 <= j && Resumes(next, rows, j)
                    && ReadsTo(rest.entries, rows, Place(from.row + 1, 0), Place(j, next.offset));
      assert ReadsTo([e] + rest.entries, rows, from, Place(j, next.offset));
    }
  }

  /** A page that is not the last ends with a cursor beyond the place it started from. */
  lemma {:induction false} FillAdvances(rows: seq<Row>, i: nat, cursor: Cursor, room: nat, remaining: nat)
    requires Archive(rows) && Ready(rows, i, cursor) && i < |rows| && cursor.sequence <= rows[i].sequence
    requires room > 0 && remaining >= 256
    requires Fill(rows, i, cursor, room, remaining).Ok?
    ensures var next := Fill(rows, i, cursor, room, remaining).value.nextCursor;
            next.Some? ==> Later(next.value, Cursor(rows[i].sequence, StartOf(rows[i], cursor)))
  {
    var start := StartOf(rows[i], cursor);
    var e := FragmentOf(rows[i], start, remaining);
    FragmentAdvances(rows[i], start, remaining);
    if e.complete {
      var left := SaturatingSub(remaining, |e.source| + 512);
      FillStays(rows, i + 1, cursor, room - 1, left);
    }
  }

  predicate Later(a: Cursor, b: Cursor) {
    a.sequence > b.sequence || (a.sequence == b.sequence && a.offset > b.offset)
  }

  lemma {:induction false} FillStays(rows: seq<Row>, i: nat, cursor: Cursor, room: nat, remaining: nat)
    requires Archive(rows) && i <= |rows| && Fill(rows, i, cursor, room, remaining).Ok?
    ensures var next := Fill(rows, i, cursor, room, remaining).value.nextCursor;
            next.Some? ==> i < |rows| && next.value.sequence >= rows[i].sequence
    decreases |rows| - i
  {
    if i < |rows| && room > 0 && remaining > 0 {
      var e := FragmentOf(rows[i], StartOf(rows[i], cursor), remaining);
      if e.complete {
        FillStays(rows, i + 1, cursor, room - 1, SaturatingSub(remaining, |e.source| + 512));
      }
    }
  }

  // A cursor of the archive, and the pages behind it.

  /** The row of the archive that the cursor points to. */
  function IndexOf(rows: seq<Row>, sequence: int): (k: nat)
    ensures k <= |rows|
  {
    if rows == [] || rows[0].sequence >= sequence then 0 else 1 + IndexOf(rows[1..], sequence)
  }

  lemma {:induction false} FromIsSuffix(rows: seq<Row>, sequence: int)
    requires Archive(rows)
    ensures From(rows, sequence) == rows[IndexOf(rows, sequence)..]
    ensures forall i :: 0 <= i < |rows| ==> (rows[i].sequence >= sequence <==> i >= IndexOf(rows, sequence))
    decreases |rows|
  {
    if rows != [] && rows[0].sequence < sequence {
      FromIsSuffix(rows[1..], sequence);
      assert forall i :: 1 <= i < |rows| ==> rows[i] == rows[1..][i - 1];
    }
  }

  /** The cursor is one that the code accepts. */
  ghost predicate GoodCursor(rows: seq<Row>, cursor: Cursor) {
    cursor.sequence >= 1 && Ready(rows, IndexOf(rows, cursor.sequence), cursor)
  }

  function CursorPlace(rows: seq<Row>, cursor: Cursor): Place {
    PlaceOf(rows, IndexOf(rows, cursor.sequence), cursor)
  }

  lemma {:induction false} IndexIsExact(rows: seq<Row>, j: nat)
    requires Archive(rows) && j < |rows|
    ensures IndexOf(rows, rows[j].sequence) == j
  {
    if j > 0 {
      IndexIsExact(rows[1..], j - 1);
    }
  }

  lemma PlaceOfResumption(rows: seq<Row>, next: Cursor, j: nat)
    requires Archive(rows) && Resumes(next, rows, j)
    ensures GoodCursor(rows, next) && CursorPlace(rows, next) == Place(j, next.offset)
  {
    IndexIsExact(rows, j);
  }

  /** More rows than there is room for leave a cursor. */
  lemma {:induction false} FillLeavesCursor(rows: seq<Row>, i: nat, cursor: Cursor, room: nat, remaining: nat)
    requires i + room < |rows| && Fill(rows, i, cursor, room, remaining).Ok?
    ensures Fill(rows, i, cursor, room, remaining).value.nextCursor.Some?
    decreases |rows| - i
  {
    if room > 0 && remaining > 0 {
      var e := FragmentOf(rows[i], StartOf(rows[i], cursor), remaining);
      if e.complete {
        FillLeavesCursor(rows, i + 1, cursor, room - 1, SaturatingSub(remaining, |e.source| + 512));
      }
    }
  }

  /** The rows of the page query are a stretch of the archive, and the cursor points to its front. */
  lemma SelectedRows(rows: seq<Row>, cursor: Cursor, limit: nat)
    requires Archive(rows) && GoodCursor(rows, cursor)
    ensures var k := IndexOf(rows, cursor.sequence);
            var selected := ArchivePage(rows, cursor.sequence - 1, limit + 1);
            && PartOf(selected, rows, k) && Archive(selected) && Ready(selected, 0, cursor)
            && PlaceOf(selected, 0, cursor).offset == CursorPlace(rows, cursor).offset
            && (selected == [] || cursor.sequence <= selected[0].sequence)
            && (|selected| <= limit ==> k + |selected| == |rows|)
  {
    FromIsSuffix(rows, cursor.sequence);
  }

  predicate Beyond(a: Place, b: Place) {
    a.row > b.row || (a.row == b.row && a.offset > b.offset)
  }

  /** The next cursor is a good one, greater than this one, and the page reads on to where it points. */
  ghost predicate ContinuesAt(page: Page, rows: seq<Row>, cursor: Cursor, next: Cursor) {
    && GoodCursor(rows, next) && Later(next, cursor) && CursorPlace(rows, next).row < |rows|
    && Beyond(CursorPlace(rows, next), CursorPlace(rows, cursor))
    && ReadsTo(page.entries, rows, CursorPlace(rows, cursor), CursorPlace(rows, next))
  }

  ghost predicate PageFollows(page: Page, rows: seq<Row>, cursor: Cursor) {
    match page.nextCursor
    case None => ReadsTo(page.entries, rows, CursorPlace(rows, cursor), Place(|rows|, 0))
    case Some(next) => ContinuesAt(page, rows, cursor, next)
  }

  lemma ContinuesInside(page: Page, part: seq<Row>, rows: seq<Row>, cursor: Cursor)
    requires Archive(rows) && GoodCursor(rows, cursor)
    requires part != [] && PartOf(part, rows, IndexOf(rows, cursor.sequence))
    requires page.nextCursor.Some? && PageReads(page, part, Place(0, CursorPlace(rows, cursor).offset))
    requires Later(page.nextCursor.value, Cursor(part[0].sequence, StartOf(part[0], cursor)))
    requires cursor.sequence <= part[0].sequence
    ensures ContinuesAt(page, rows, cursor, page.nextCursor.value)
  {
    hide ReadsTo, IndexOf, Archive, GoodCursor;
    var k, next := IndexOf(rows, cursor.sequence), page.nextCursor.value;
    var from := Place(0, CursorPlace(rows, cursor).offset);
    var j: nat :| Resumes(next, part, j) && ReadsTo(page.entries, part, from, Place(j, next.offset));
    ReadInside(page.entries, part, rows, k, from, Place(j, next.offset));
    PlaceOfResumption(rows, next, k + j);
    assert Shift(from, k) == CursorPlace(rows, cursor);
  }

  /** Every page that a good cursor asks for, with any limit and any token budget. */
  lemma PageAtCursor(rows: seq<Row>, limit: nat, cursor: Cursor, maxTokens: nat)
    requires Archive(rows) && GoodCursor(rows, cursor) && 1 <= limit <= 100
    ensures var r := ReadPage(rows, limit, Some(cursor), maxTokens);
            r.Ok? && PageFollows(r.value, rows, cursor)
  {
    var selected := ArchivePage(rows, cursor.sequence - 1, limit + 1);
    SelectedRows(rows, cursor, limit);
    PartAtCursor(selected, rows, limit, cursor, PageBudget(maxTokens));
  }

  lemma PartAtCursor(part: seq<Row>, rows: seq<Row>, limit: nat, cursor: Cursor, budget: nat)
    requires Archive(rows) && GoodCursor(rows, cursor) && limit > 0 && budget >= 256
    requires PartOf(part, rows, IndexOf(rows, cursor.sequence)) && Archive(part) && Ready(part, 0, cursor)
    requires PlaceOf(part, 0, cursor).offset == CursorPlace(rows, cursor).offset
    requires part == [] || cursor.sequence <= part[0].sequence
    requires |part| <= limit ==> IndexOf(rows, cursor.sequence) + |part| == |rows|
    ensures var r := Fill(part, 0, cursor, limit, budget);
            r.Ok? && PageFollows(r.value, rows, cursor)
  {
    FillReads(part, 0, cursor, limit, budget);
    var page := Fill(part, 0, cursor, limit, budget).value;
    if page.nextCursor.Some? {
      FillAdvances(part, 0, cursor, limit, budget);
      ContinuesInside(page, part, rows, cursor);
    } else {
      NoCursorMeansAll(part, cursor, limit, budget);
      EndsInside(page, part, rows, cursor);
    }
  }

  lemma NoCursorMeansAll(selected: seq<Row>, cursor: Cursor, limit: nat, budget: nat)
    requires Fill(selected, 0, cursor, limit, budget).Ok?
    requires Fill(selected, 0, cursor, limit, budget).value.nextCursor.None?
    ensures |selected| <= limit
  {
    if |selected| > limit {
      FillLeavesCursor(selected, 0, cursor, limit, budget);
    }
  }

  lemma EndsInside(page: Page, part: seq<Row>, rows: seq<Row>, cursor: Cursor)
    requires PartOf(part, rows, IndexOf(rows, cursor.sequence)) && page.nextCursor.None?
    requires IndexOf(rows, cursor.sequence) + |part| == |rows|
    requires PageReads(page, part, Place(0, CursorPlace(rows, cursor).offset))
    ensures PageFollows(page, rows, cursor)
  {
    var from := Place(0, CursorPlace(rows, cursor).offset);
    ReadInside(page.entries, part, rows, IndexOf(rows, cursor.sequence), from, Place(|part|, 0));
    assert Shift(from, IndexOf(rows, cursor.sequence)) == CursorPlace(rows, cursor);
  }

  /** The code refuses exactly the other cursors. */
  lemma CursorIsChecked(rows: seq<Row>, limit: nat, cursor: Cursor, maxTokens: nat)
    requires Archive(rows) && 1 <= limit <= 100
    ensures ReadPage(rows, limit, Some(cursor), maxTokens).Ok? <==> GoodCursor(rows, cursor)
  {
    if GoodCursor(rows, cursor) {
      PageAtCursor(rows, limit, cursor, maxTokens);
    } else {
      FromIsSuffix(rows, cursor.sequence);
    }
  }

  ghost predicate Limits(limits: nat -> nat) {
    forall n :: 1 <= limits(n) <= 100
  }

  function BytesLeft(rows: seq<Row>, at: Place): int {
    if at.row < |rows| then |rows[at.row].source| - at.offset else 0
  }

  /** The fragments of all pages from a cursor on; every call may ask for another size and have another budget. */
  ghost function Follow(rows: seq<Row>, limits: nat -> nat, tokens: nat -> nat, n: nat, cursor: Cursor): seq<Fragment>
    requires Archive(rows) && GoodCursor(rows, cursor) && Limits(limits)
    decreases |rows| - CursorPlace(rows, cursor).row, BytesLeft(rows, CursorPlace(rows, cursor))
  {
    PageAtCursor(rows, limits(n), cursor, tokens(n));
    var page := ReadPage(rows, limits(n), Some(cursor), tokens(n)).value;
    page.entries +
    if page.nextCursor.None? then [] else Follow(rows, limits, tokens, n + 1, page.nextCursor.value)
  }

  lemma {:induction false} FollowReads(rows: seq<Row>, limits: nat -> nat, tokens: nat -> nat, n: nat, cursor: Cursor)
    requires Archive(rows) && GoodCursor(rows, cursor) && Limits(limits)
    ensures ReadsTo(Follow(rows, limits, tokens, n, cursor), rows, CursorPlace(rows, cursor), Place(|rows|, 0))
    decreases |rows| - CursorPlace(rows, cursor).row, BytesLeft(rows, CursorPlace(rows, cursor))
  {
    PageAtCursor(rows, limits(n), cursor, tokens(n));
    var page := ReadPage(rows, limits(n), Some(cursor), tokens(n)).value;
    if page.nextCursor.None? {
      assert page.entries + [] == page.entries;
    } else {
      var next := page.nextCursor.value;
      FollowReads(rows, limits, tokens, n + 1, next);
      ReadOn(page.entries, Follow(rows, limits, tokens, n + 1, next), rows,
             CursorPlace(rows, cursor), CursorPlace(rows, next), Place(|rows|, 0));
    }
  }

  /** Everything the fragments hold of one row. */
  function Gathered(entries: seq<Fragment>, sequence: int): seq<byte> {
    if entries == [] then []
    else (if entries[0].sequence == sequence then entries[0].source else []) + Gathered(entries[1..], sequence)
  }

  lemma {:induction false} GatheredIsSource(entries: seq<Fragment>, rows: seq<Row>, from: Place, k: nat)
    requires Archive(rows) && ReadsTo(entries, rows, from, Place(|rows|, 0)) && k < |rows|
    requires from.row < |rows| ==> from.offset <= |rows[from.row].source|
    ensures Gathered(entries, rows[k].sequence)
            == if k < from.row then [] else if k == from.row then rows[k].source[from.offset..] else rows[k].source
    decreases |entries|
  {
    hide IsBoundary;
    if entries != [] {
      GatheredIsSource(entries[1..], rows, Behind(entries[0], from), k);
      assert k < from.row ==> rows[k].sequence < rows[from.row].sequence;
      assert k > from.row ==> rows[k].sequence > rows[from.row].sequence;
      if k == from.row {
        JoinSource(rows[k].source, from.offset, from.offset + |entries[0].source|);
      }
    }
  }

  lemma JoinSource(source: seq<byte>, start: nat, mid: nat)
    requires start <= mid <= |source|
    ensures source[start..mid] + source[mid..] == source[start..]
    ensures mid == |source| ==> source[start..mid] + [] == source[start..]
  {
  }

  /**
   * Following the cursors from the beginning reads the archive once: the fragments join without a gap or an
   * overlap, and those of each row concatenate to exactly its source.
   */
  lemma FollowReadsEverything(rows: seq<Row>, limits: nat -> nat, tokens: nat -> nat)
    requires Archive(rows) && Limits(limits)
    ensures GoodCursor(rows, FIRST)
    ensures var entries := Follow(rows, limits, tokens, 0, FIRST);
            && ReadsTo(entries, rows, Place(0, 0), Place(|rows|, 0))
            && forall k :: 0 <= k < |rows| ==> Gathered(entries, rows[k].sequence) == rows[k].source
  {
    assert IndexOf(rows, 1) == 0;
    FollowReads(rows, limits, tokens, 0, FIRST);
    var entries := Follow(rows, limits, tokens, 0, FIRST);
    forall k | 0 <= k < |rows| ensures Gathered(entries, rows[k].sequence) == rows[k].source {
      GatheredIsSource(entries, rows, Place(0, 0), k);
      assert rows[k].source[0..] == rows[k].source;
    }
  }

  // How much a page holds.

  /** The source bytes of the fragments together. */
  function Bytes(entries: seq<Fragment>): nat {
    if entries == [] then 0 else |entries[0].source| + Bytes(entries[1..])
  }

  /** What the fragments take from the page: their bytes, and 512 for each of them. */
  function Cost(entries: seq<Fragment>): nat {
    if entries == [] then 0 else |entries[0].source| + 512 + Cost(entries[1..])
  }

  /** No more than `room` fragments and `budget` bytes, each fragment but the first within what the others left. */
  ghost predicate KeepsWithin(entries: seq<Fragment>, room: nat, budget: nat) {
    && |entries| <= room && Bytes(entries) <= budget
    && (forall k :: 0 <= k < |entries| - 1 ==> entries[k].complete)
    && forall k :: 0 < k < |entries| ==> Cost(entries[..k]) < budget
  }

  /** The last fragment was cut because the bytes left did not hold one character more. */
  ghost predicate IsCutOff(entries: seq<Fragment>, budget: nat) {
    var n := |entries| - 1;
    n >= 0 && !entries[n].complete && budget - Cost(entries[..n]) < |entries[n].source| + 4
  }

  /** Nothing more fits: no entry, no byte, or not a whole character. */
  ghost predicate IsFull(entries: seq<Fragment>, room: nat, budget: nat) {
    |entries| == room || Cost(entries) >= budget || IsCutOff(entries, budget)
  }

  lemma FragmentIsFull(row: Row, start: nat, remaining: nat)
    requires StartsWell(row, start)
    ensures var e := FragmentOf(row, start, remaining);
            |e.source| <= remaining && (e.complete || remaining < |e.source| + 4)
  {
    var n := Min(|row.source|, SaturatingAdd(start, remaining));
    FloorReaches(row.source, n, start);
    FloorIsNear(row.source, n);
  }

  lemma CostOneMore(e: Fragment, rest: seq<Fragment>)
    ensures Cost([e] + rest) == |e.source| + 512 + Cost(rest)
  {
    assert ([e] + rest)[1..] == rest;
  }

  lemma WithinOneMore(e: Fragment, rest: seq<Fragment>, room: nat, budget: nat)
    requires room > 0 && budget > 0 && e.complete && |e.source| <= budget
    requires KeepsWithin(rest, room - 1, SaturatingSub(budget, |e.source| + 512))
    requires rest != [] ==> |e.source| + 512 < budget
    ensures KeepsWithin([e] + rest, room, budget)
  {
    var all := [e] + rest;
    assert all[1..] == rest;
    forall k | 0 <= k < |all| - 1 ensures all[k].complete {
      assert k > 0 ==> all[k] == rest[k - 1];
    }
    forall k | 0 < k < |all| ensures Cost(all[..k]) < budget {
      assert all[..k] == [e] + rest[..k - 1];
      CostOneMore(e, rest[..k - 1]);
      assert k == 1 ==> rest[..k - 1] == [];
    }
  }

  lemma FullOneMore(e: Fragment, rest: seq<Fragment>, room: nat, budget: nat)
    requires room > 0 && IsFull(rest, room - 1, SaturatingSub(budget, |e.source| + 512))
    requires rest != [] ==> |e.source| + 512 < budget
    ensures IsFull([e] + rest, room, budget)
  {
    var all, n := [e] + rest, |rest|;
    CostOneMore(e, rest);
    if rest != [] {
      assert all[..n] == [e] + rest[..n - 1] && all[n] == rest[n - 1];
      CostOneMore(e, rest[..n - 1]);
    }
  }

  lemma {:induction false} FillIsFull(rows: seq<Row>, i: nat, cursor: Cursor, room: nat, remaining: nat)
    requires i <= |rows| && Fill(rows, i, cursor, room, remaining).Ok?
    ensures var page := Fill(rows, i, cursor, room, remaining).value;
            && KeepsWithin(page.entries, room, remaining)
            && (remaining == 0 ==> page.entries == [])
            && (page.nextCursor.Some? ==> IsFull(page.entries, room, remaining))
    decreases |rows| - i
  {
    hide FragmentOf, KeepsWithin, IsFull;
    if i == |rows| || room == 0 || remaining == 0 {
      NothingIsWithin(room, remaining);
    } else {
      var start := StartOf(rows[i], cursor);
      var e := FragmentOf(rows[i], start, remaining);
      FragmentIsFull(rows[i], start, remaining);
      if e.complete {
        var left := SaturatingSub(remaining, |e.source| + 512);
        FillIsFull(rows, i + 1, cursor, room - 1, left);
        var rest := Fill(rows, i + 1, cursor, room - 1, left).value;
        WithinOneMore(e, rest.entries, room, remaining);
        if rest.nextCursor.Some? {
          FullOneMore(e, rest.entries, room, remaining);
        }
      } else {
        CutOffIsFull(e, room, remaining);
      }
    }
  }

  lemma NothingIsWithin(room: nat, budget: nat)
    ensures KeepsWithin([], room, budget) && (room == 0 || budget == 0 ==> IsFull([], room, budget))
  {
  }

  lemma CutOffIsFull(e: Fragment, room: nat, budget: nat)
    requires room > 0 && |e.source| <= budget && !e.complete && budget < |e.source| + 4
    ensures KeepsWithin([e], room, budget) && IsFull([e], room, budget)
  {
    assert [e][..0] == [] && [e][1..] == [];
  }

  /**
   * Every page keeps within the limit and the byte budget, which is twice the tokens less 512, between 256 and 16384;
   * and it leaves a cursor only when it is full.
   */
  lemma PageIsFull(rows: seq<Row>, limit: nat, cursor: Option<Cursor>, maxTokens: nat)
    requires ReadPage(rows, limit, cursor, maxTokens).Ok?
    ensures var page := ReadPage(rows, limit, cursor, maxTokens).value;
            var budget := if maxTokens <= 384 then 256 else if maxTokens >= 8448 then 16384 else 2 * maxTokens - 512;
            && KeepsWithin(page.entries, limit, budget)
            && (page.nextCursor.Some? ==> IsFull(page.entries, limit, budget))
  {
    hide KeepsWithin, IsFull, Fill, ArchivePage;
    var at := if cursor.Some? then cursor.value else FIRST;
    FillIsFull(ArchivePage(rows, at.sequence - 1, limit + 1), 0, at, limit, PageBudget(maxTokens));
  }

  /** Which queries are refused without looking at the archive. */
  lemma QueryIsChecked(rows: seq<Row>, limit: nat, cursor: Option<Cursor>, maxTokens: nat)
    ensures ReadPage(rows, limit, cursor, maxTokens) == Err(InvalidQuery) <==> limit == 0 || limit > 100
    ensures 1 <= limit <= 100 && cursor.Some? && cursor.value.sequence < 1 ==>
              ReadPage(rows, limit, cursor, maxTokens) == Err(InvalidCursor)
  {
    if 1 <= limit <= 100 {
      var at := if cursor.Some? then cursor.value else FIRST;
      if at.sequence >= 1 {
        FillNeverBlamesQuery(ArchivePage(rows, at.sequence - 1, limit + 1), 0, at, limit, PageBudget(maxTokens));
      }
    }
  }

  lemma {:induction false} FillNeverBlamesQuery(rows: seq<Row>, i: nat, cursor: Cursor, room: nat, remaining: nat)
    requires i <= |rows|
    ensures Fill(rows, i, cursor, room, remaining) != Err(InvalidQuery)
    decreases |rows| - i
  {
    if i < |rows| && room > 0 && remaining > 0 && StartsWell(rows[i], StartOf(rows[i], cursor)) {
      var e := FragmentOf(rows[i], StartOf(rows[i], cursor), remaining);
      FillNeverBlamesQuery(rows, i + 1, cursor, room - 1, SaturatingSub(remaining, |e.source| + 512));
    }
  }
}
