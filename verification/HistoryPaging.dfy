/** Reading the history of an Actor in pages of fragments (src/actor_app.rs, `read_history`). */
module HistoryPaging {
  import opened Wrappers
  import opened Usize
  import opened Utf8

  /** One archived message: its place in the archive and its serialised source. */
  datatype Row = Row(sequence: int, source: Text)

  datatype Cursor = Cursor(sequence: int, offset: nat)

  datatype Fragment = Fragment(sequence: int, offset: nat, source: seq<byte>, complete: bool)

  datatype Page = Page(entries: seq<Fragment>, nextCursor: Option<Cursor>)

  datatype HistoryError = InvalidQuery | InvalidCursor

  /** The archive holds its rows in ascending sequence, from 1 on. */
  ghost predicate Archive(rows: seq<Row>) {
    && (forall i :: 0 <= i < |rows| ==> rows[i].sequence >= 1)
    && (forall i, j :: 0 <= i < j < |rows| ==> rows[i].sequence < rows[j].sequence)
  }

  /** The rows at the sequence or after it. */
  function From(rows: seq<Row>, sequence: int): seq<Row> {
    if rows == [] || rows[0].sequence >= sequence then rows else From(rows[1..], sequence)
  }

  /** The page query of the archive: the first rows after the sequence. */
  function ArchivePage(rows: seq<Row>, after: int, limit: nat): seq<Row> {
    var selected := From(rows, after + 1);
    selected[..Min(|selected|, limit)]
  }

  /** How many source bytes a page may hold. */
  function PageBudget(maxTokens: nat): (r: nat)
    ensures 256 <= r <= 16384
  {
    Clamp(SaturatingSub(SaturatingMul(maxTokens, 2), 512), 256, 16384)
  }

  function StartOf(row: Row, cursor: Cursor): nat {
    if row.sequence == cursor.sequence then cursor.offset else 0
  }

  predicate StartsWell(row: Row, start: nat) {
    start <= |row.source| && IsBoundary(row.source, start)
  }

  function EndOf(row: Row, start: nat, remaining: nat): (r: nat)
    requires StartsWell(row, start)
    ensures start <= r <= |row.source|
  {
    FloorReaches(row.source, Min(|row.source|, SaturatingAdd(start, remaining)), start);
    Floor(row.source, Min(|row.source|, SaturatingAdd(start, remaining)))
  }

  /** The fragment of the row that is taken from `start` when `remaining` bytes are left. */
  function FragmentOf(row: Row, start: nat, remaining: nat): Fragment
    requires StartsWell(row, start)
  {
    var end := EndOf(row, start, remaining);
    Fragment(row.sequence, start, row.source[start..end], end == |row.source|)
  }

  /** What is put on the page from the `i`th row on when there is room for `room` entries. */
  function Fill(rows: seq<Row>, i: nat, cursor: Cursor, room: nat, remaining: nat): Result<Page, HistoryError>
    requires i <= |rows|
    decreases |rows| - i
  {
    if i == |rows| then Ok(Page([], None))
    else if room == 0 || remaining == 0 then Ok(Page([], Some(Cursor(rows[i].sequence, 0))))
    else if !StartsWell(rows[i], StartOf(rows[i], cursor)) then Err(InvalidCursor)
    else
      var entry := FragmentOf(rows[i], StartOf(rows[i], cursor), remaining);
      if !entry.complete then Ok(Page([entry], Some(Cursor(entry.sequence, entry.offset + |entry.source|))))
      else Prepend([entry], Fill(rows, i + 1, cursor, room - 1, SaturatingSub(remaining, |entry.source| + 512)))
  }

  function Prepend(entries: seq<Fragment>, r: Result<Page, HistoryError>): Result<Page, HistoryError> {
    match r
    case Err(e) => Err(e)
    case Ok(page) => Ok(Page(entries + page.entries, page.nextCursor))
  }

  const FIRST := Cursor(1, 0)

  function ReadPage(archive: seq<Row>, limit: nat, cursor: Option<Cursor>, maxTokens: nat): Result<Page, HistoryError> {
    if limit == 0 || limit > 100 then Err(InvalidQuery)
    else
      var at := if cursor.Some? then cursor.value else FIRST;
      if at.sequence < 1 then Err(InvalidCursor)
      else Fill(ArchivePage(archive, at.sequence - 1, limit + 1), 0, at, limit, PageBudget(maxTokens))
  }

  lemma PrependTwice(a: seq<Fragment>, e: Fragment, r: Result<Page, HistoryError>)
    ensures Prepend(a, Prepend([e], r)) == Prepend(a + [e], r)
  {
    if r.Ok? {
      assert a + ([e] + r.value.entries) == a + [e] + r.value.entries;
    }
  }

  lemma PrependNothing(r: Result<Page, HistoryError>)
    ensures Prepend([], r) == r
  {
    if r.Ok? {
      assert [] + r.value.entries == r.value.entries;
    }
  }

  /** One turn of the loop: the row at `i` is put behind the entries. */
  lemma TakeRow(rows: seq<Row>, i: nat, cursor: Cursor, entries: seq<Fragment>, room: nat, remaining: nat)
    requires i < |rows| && room > 0 && remaining > 0 && StartsWell(rows[i], StartOf(rows[i], cursor))
    ensures var entry := FragmentOf(rows[i], StartOf(rows[i], cursor), remaining);
            Prepend(entries, Fill(rows, i, cursor, room, remaining))
            == if entry.complete
               then Prepend(entries + [entry],
                            Fill(rows, i + 1, cursor, room - 1, SaturatingSub(remaining, |entry.source| + 512)))
               else Ok(Page(entries + [entry], Some(Cursor(entry.sequence, entry.offset + |entry.source|))))
  {
    var entry := FragmentOf(rows[i], StartOf(rows[i], cursor), remaining);
    PrependTwice(entries, entry, Fill(rows, i + 1, cursor, room - 1, SaturatingSub(remaining, |entry.source| + 512)));
  }

  lemma StopFilling(rows: seq<Row>, i: nat, cursor: Cursor, entries: seq<Fragment>, room: nat, remaining: nat)
    requires i <= |rows| && (i < |rows| ==> room == 0 || remaining == 0)
    ensures Prepend(entries, Fill(rows, i, cursor, room, remaining))
            == Ok(Page(entries, if i == |rows| then None else Some(Cursor(rows[i].sequence, 0))))
  {
    assert entries + [] == entries;
  }

  /** Cuts one fragment off a row. */
  method TakeFragment(row: Row, start: nat, remaining: nat) returns (entry: Fragment)
    requires StartsWell(row, start)
    ensures entry == FragmentOf(row, start, remaining)
  {
    var end := FloorToBoundary(row.source, Min(|row.source|, SaturatingAdd(start, remaining)));
    assert end == EndOf(row, start, remaining);
    return Fragment(row.sequence, start, row.source[start..end], end == |row.source|);
  }

  /** The loop over the rows. */
  method FillPage(rows: seq<Row>, at: Cursor, limit: nat, budget: nat) returns (r: Result<Page, HistoryError>)
    ensures r == Fill(rows, 0, at, limit, budget)
  {
    var remaining := budget;
    var entries: seq<Fragment> := [];
    ghost var whole := Fill(rows, 0, at, limit, budget);
    ghost var room := limit;
    PrependNothing(whole);
    for i := 0 to |rows|
      invariant |entries| + room == limit
      invariant whole == Prepend(entries, Fill(rows, i, at, room, remaining))
    {
      var row := rows[i];
      if |entries| == limit || remaining == 0 {
        StopFilling(rows, i, at, entries, room, remaining);
        return Ok(Page(entries, Some(Cursor(row.sequence, 0))));
      }
      var start := if row.sequence == at.sequence then at.offset else 0;
      if start > |row.source| || !IsBoundary(row.source, start) {
        return Err(InvalidCursor);
      }
      var entry := TakeFragment(row, start, remaining);
      TakeRow(rows, i, at, entries, room, remaining);
      entries := entries + [entry];
      if !entry.complete {
        return Ok(Page(entries, Some(Cursor(entry.sequence, entry.offset + |entry.source|))));
      }
      room := room - 1;
      remaining := SaturatingSub(remaining, |entry.source| + 512);
    }
    StopFilling(rows, |rows|, at, entries, room, remaining);
    return Ok(Page(entries, None));
  }

  method ReadHistory(archive: seq<Row>, limit: nat, cursor: Option<Cursor>, maxTokens: nat)
    returns (r: Result<Page, HistoryError>)
    ensures r == ReadPage(archive, limit, cursor, maxTokens)
  {
    if limit == 0 || limit > 100 {
      return Err(InvalidQuery);
    }
    var at := match cursor case None => FIRST case Some(c) => c;
    if at.sequence < 1 {
      return Err(InvalidCursor);
    }
    r := FillPage(ArchivePage(archive, at.sequence - 1, limit + 1), at, limit, PageBudget(maxTokens));
  }
}
