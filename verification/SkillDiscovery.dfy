/** Finding skills below a root directory whose links may form cycles (src/openskills.rs). */
module SkillDiscovery {
  import opened Wrappers

  type Path = string

  /** A name in a directory and the path it is reached by. */
  datatype Entry = Entry(name: string, path: Path)

  /** What a path leads to; a directory is known by its canonical path. */
  datatype Stat = Failed | Directory(canonical: Path) | File | Other

  datatype Skill = Skill(path: Path, name: string)

  datatype Problem = CannotRead(path: Path) | CannotStat(path: Path) | CannotParse(path: Path, message: string)

  datatype Catalog = Catalog(skills: seq<Skill>, errors: seq<Problem>)

  /** The file system during one search, as the sandbox policy shows it. */
  datatype Files = Files(
    readable: Path -> bool,
    listing: Path -> Option<seq<Entry>>,
    stat: Path -> Stat,
    parse: Path -> Result<Skill, string>,
    directories: set<Path>)

  const SKILL_FILE_NAME := "SKILL.md"

  /** There are finitely many directories, however the links between them run. */
  ghost predicate Finite(fs: Files) {
    forall p: Path :: fs.stat(p).Directory? ==> fs.stat(p).canonical in fs.directories
  }

  predicate Visible(fs: Files, e: Entry) {
    fs.readable(e.path) && !(e.name != "" && e.name[0] == '.')
  }

  predicate IsSkillFile(fs: Files, e: Entry) {
    Visible(fs, e) && fs.stat(e.path).File? && e.name == SKILL_FILE_NAME
  }

  /** The entries that the search looks at when it reads the directory. */
  function Contents(fs: Files, dir: Path): seq<Entry> {
    if fs.readable(dir) && fs.listing(dir).Some? then fs.listing(dir).value else []
  }

  function FromEntry(fs: Files, e: Entry): Catalog {
    if !Visible(fs, e) then Catalog([], [])
    else if fs.stat(e.path).Failed? then Catalog([], [CannotStat(e.path)])
    else if IsSkillFile(fs, e) then
      match fs.parse(e.path)
      case Ok(skill) => Catalog([skill], [])
      case Err(message) => Catalog([], [CannotParse(e.path, message)])
    else Catalog([], [])
  }

  function Join(a: Catalog, b: Catalog): Catalog {
    Catalog(a.skills + b.skills, a.errors + b.errors)
  }

  function FromEntries(fs: Files, entries: seq<Entry>): Catalog {
    if entries == [] then Catalog([], [])
    else Join(FromEntries(fs, entries[..|entries| - 1]), FromEntry(fs, entries[|entries| - 1]))
  }

  function FromDirectory(fs: Files, dir: Path): Catalog {
    if fs.readable(dir) && fs.listing(dir).None? then Catalog([], [CannotRead(dir)])
    else FromEntries(fs, Contents(fs, dir))
  }

  /** What reading the directories in this order finds. */
  function FromDirectories(fs: Files, dirs: seq<Path>): Catalog {
    if dirs == [] then Catalog([], [])
    else Join(FromDirectories(fs, dirs[..|dirs| - 1]), FromDirectory(fs, dirs[|dirs| - 1]))
  }

  predicate EntryLeads(fs: Files, e: Entry, to: Path) {
    Visible(fs, e) && fs.stat(e.path) == Directory(to)
  }

  /** An entry that the search sees in one directory leads to the other. */
  ghost predicate Leads(fs: Files, dir: Path, to: Path) {
    exists e :: e in Contents(fs, dir) && EntryLeads(fs, e, to)
  }

  /** A way down from the root that does not come back to it. */
  ghost predicate Way(fs: Files, root: Path, canonicalRoot: Path, way: seq<Path>) {
    && way != [] && way[0] == root
    && forall i :: 0 < i < |way| ==> way[i] != canonicalRoot && Leads(fs, way[i - 1], way[i])
  }

  ghost predicate Reachable(fs: Files, root: Path, canonicalRoot: Path, dir: Path) {
    exists way :: Way(fs, root, canonicalRoot, way) && way[|way| - 1] == dir
  }

  ghost predicate Distinct(s: seq<Path>) {
    forall i, j :: 0 <= i < j < |s| ==> s[i] != s[j]
  }

  /** The directories read: the root under the name it was given, and every other one once, exactly if reachable. */
  ghost predicate ReadsReachable(fs: Files, root: Path, canonicalRoot: Path, dirs: seq<Path>) {
    && dirs != [] && dirs[0] == root && canonicalRoot !in dirs[1..] && Distinct(dirs[1..])
    && forall d :: d in dirs <==> Reachable(fs, root, canonicalRoot, d)
  }

  // The state of the search: the root and the directories found below it, read or still queued.

  ghost predicate Known(fs: Files, root: Path, canonicalRoot: Path, all: seq<Path>, visited: set<Path>) {
    && all != [] && all[0] == root && Distinct(all[1..]) && canonicalRoot !in all[1..]
    && (forall d :: d in visited <==> d == canonicalRoot || d in all[1..])
    && forall d :: d in all ==> Reachable(fs, root, canonicalRoot, d)
  }

  ghost predicate Closed(fs: Files, done: seq<Path>, visited: set<Path>) {
    forall d, to :: d in done && Leads(fs, d, to) ==> to in visited
  }

  lemma RootIsKnown(fs: Files, root: Path, canonicalRoot: Path)
    ensures Known(fs, root, canonicalRoot, [root], {canonicalRoot})
  {
    assert Way(fs, root, canonicalRoot, [root]);
  }

  lemma GoOn(fs: Files, root: Path, canonicalRoot: Path, dir: Path, to: Path)
    requires Reachable(fs, root, canonicalRoot, dir) && Leads(fs, dir, to) && to != canonicalRoot
    ensures Reachable(fs, root, canonicalRoot, to)
  {
    var way :| Way(fs, root, canonicalRoot, way) && way[|way| - 1] == dir;
    var longer := way + [to];
    assert Way(fs, root, canonicalRoot, longer);
    assert longer[|longer| - 1] == to;
  }

  lemma KnowOneMore(fs: Files, root: Path, canonicalRoot: Path, read: seq<Path>, queue: seq<Path>, visited: set<Path>,
                    dir: Path, to: Path)
    requires read != [] && Known(fs, root, canonicalRoot, read + queue, visited)
    requires dir in read && Leads(fs, dir, to) && to !in visited
    ensures Known(fs, root, canonicalRoot, read + (queue + [to]), visited + {to})
  {
    GoOn(fs, root, canonicalRoot, dir, to);
    var all := read + queue;
    assert read + (queue + [to]) == all + [to];
    assert (all + [to])[1..] == all[1..] + [to];
  }

  lemma {:induction false} ClosedMeansAll(fs: Files, root: Path, canonicalRoot: Path, all: seq<Path>,
                                          visited: set<Path>, way: seq<Path>)
    requires Known(fs, root, canonicalRoot, all, visited) && Closed(fs, all, visited)
    requires Way(fs, root, canonicalRoot, way)
    ensures way[|way| - 1] in all
    decreases |way|
  {
    var k := |way| - 1;
    if k > 0 {
      var shorter := way[..k];
      assert Way(fs, root, canonicalRoot, shorter);
      ClosedMeansAll(fs, root, canonicalRoot, all, visited, shorter);
      assert Leads(fs, way[k - 1], way[k]);
    }
  }

  lemma SearchIsComplete(fs: Files, root: Path, canonicalRoot: Path, all: seq<Path>, visited: set<Path>)
    requires Known(fs, root, canonicalRoot, all, visited) && Closed(fs, all, visited)
    ensures ReadsReachable(fs, root, canonicalRoot, all)
  {
    forall d ensures d in all <==> Reachable(fs, root, canonicalRoot, d) {
      if Reachable(fs, root, canonicalRoot, d) {
        var way :| Way(fs, root, canonicalRoot, way) && way[|way| - 1] == d;
        ClosedMeansAll(fs, root, canonicalRoot, all, visited, way);
      }
    }
  }

  lemma EntriesStep(fs: Files, entries: seq<Entry>, j: nat)
    requires j < |entries|
    ensures FromEntries(fs, entries[..j + 1]) == Join(FromEntries(fs, entries[..j]), FromEntry(fs, entries[j]))
  {
    assert entries[..j + 1][..j] == entries[..j];
  }

  lemma JoinTwice(a: Catalog, b: Catalog, c: Catalog)
    ensures Join(Join(a, b), c) == Join(a, Join(b, c))
  {
    assert a.skills + b.skills + c.skills == a.skills + (b.skills + c.skills);
    assert a.errors + b.errors + c.errors == a.errors + (b.errors + c.errors);
  }

  lemma JoinNothing(a: Catalog)
    ensures Join(a, Catalog([], [])) == a
  {
  }

  lemma DirectoriesStep(fs: Files, catalog: Catalog, done: seq<Path>, dir: Path)
    ensures Join(catalog, FromDirectories(fs, done + [dir]))
            == Join(Join(catalog, FromDirectories(fs, done)), FromDirectory(fs, dir))
  {
    assert (done + [dir])[..|done|] == done;
    JoinTwice(catalog, FromDirectories(fs, done), FromDirectory(fs, dir));
  }

  /** Reads one directory: the catalog grows by what is in it, the queue by the directories not seen before. */
  method ReadDirectory(fs: Files, ghost root: Path, ghost canonicalRoot: Path, dir: Path, catalog: Catalog,
                       queue: seq<Path>, visited: set<Path>, ghost done: seq<Path>)
    returns (found: Catalog, longer: seq<Path>, seen: set<Path>)
    requires Finite(fs)
    requires Known(fs, root, canonicalRoot, done + [dir] + queue, visited) && Closed(fs, done, visited)
    ensures found == Join(catalog, FromDirectory(fs, dir))
    ensures Known(fs, root, canonicalRoot, done + [dir] + longer, seen) && Closed(fs, done + [dir], seen)
    ensures visited <= seen <= visited + fs.directories && (seen == visited ==> longer == queue)
  {
    hide Known;
    found, longer, seen := catalog, queue, visited;
    JoinNothing(catalog);
    if !fs.readable(dir) {
      return;
    }
    if fs.listing(dir).None? {
      found := Catalog(catalog.skills, catalog.errors + [CannotRead(dir)]);
      return;
    }
    var entries := fs.listing(dir).value;
    for j := 0 to |entries|
      invariant found == Join(catalog, FromEntries(fs, entries[..j]))
      invariant Known(fs, root, canonicalRoot, done + [dir] + longer, seen)
      invariant forall k, to :: 0 <= k < j && EntryLeads(fs, entries[k], to) ==> to in seen
      invariant visited <= seen <= visited + fs.directories && (seen == visited ==> longer == queue)
    {
      var e := entries[j];
      EntriesStep(fs, entries, j);
      JoinTwice(catalog, FromEntries(fs, entries[..j]), FromEntry(fs, e));
      JoinNothing(found);
      if !fs.readable(e.path) {
        continue;
      }
      if e.name != "" && e.name[0] == '.' {
        continue;
      }
      match fs.stat(e.path) {
        case Failed =>
          found := Catalog(found.skills, found.errors + [CannotStat(e.path)]);
        case Directory(canonical) =>
          if canonical !in seen {
            assert EntryLeads(fs, e, canonical) && e in Contents(fs, dir);
            KnowOneMore(fs, root, canonicalRoot, done + [dir], longer, seen, dir, canonical);
            seen := seen + {canonical};
            longer := longer + [canonical];
          }
        case File =>
          if e.name == SKILL_FILE_NAME {
            match fs.parse(e.path) {
              case Ok(skill) => found := Catalog(found.skills + [skill], found.errors);
              case Err(message) => found := Catalog(found.skills, found.errors + [CannotParse(e.path, message)]);
            }
          }
        case Other =>
      }
    }
    assert entries[..|entries|] == entries;
  }

  method DiscoverSkillsUnderRoot(fs: Files, root: Path, catalog: Catalog) returns (r: Catalog, ghost read: seq<Path>)
    requires Finite(fs)
    ensures !fs.stat(root).Directory? ==> r == catalog
    ensures fs.stat(root).Directory? ==>
              && ReadsReachable(fs, root, fs.stat(root).canonical, read)
              && r == Join(catalog, FromDirectories(fs, read))
  {
    r, read := catalog, [];
    if !fs.stat(root).Directory? {
      return;
    }
    var canonicalRoot := fs.stat(root).canonical;
    var queue, visited := [root], {canonicalRoot};
    RootIsKnown(fs, root, canonicalRoot);
    JoinNothing(catalog);
    while queue != []
      invariant Known(fs, root, canonicalRoot, read + queue, visited) && Closed(fs, read, visited)
      invariant visited <= fs.directories
      invariant r == Join(catalog, FromDirectories(fs, read))
      decreases |fs.directories - visited|, |queue|
    {
      var dir := queue[0];
      ghost var before := visited;
      assert read + [dir] + queue[1..] == read + queue;
      DirectoriesStep(fs, catalog, read, dir);
      r, queue, visited := ReadDirectory(fs, root, canonicalRoot, dir, r, queue[1..], visited, read);
      read := read + [dir];
      Shrinks(fs.directories, before, visited);
    }
    assert read + queue == read;
    SearchIsComplete(fs, root, canonicalRoot, read, visited);
  }

  lemma Shrinks(all: set<Path>, before: set<Path>, after: set<Path>)
    requires before <= after <= all
    ensures after == before || |all - after| < |all - before|
  {
    if after != before {
      var x :| x in after && x !in before;
      assert all - after < all - before;
      Smaller(all - after, all - before);
    }
  }

  lemma Smaller(a: set<Path>, b: set<Path>)
    requires a < b
    ensures |a| < |b|
  {
    var rest := b - a;
    assert b == a + rest && a !! rest;
    assert rest != {};
  }

  // What is found.

  lemma {:induction false} EntriesFind(fs: Files, entries: seq<Entry>, skill: Skill)
    ensures skill in FromEntries(fs, entries).skills
            <==> exists e :: e in entries && IsSkillFile(fs, e) && fs.parse(e.path) == Ok(skill)
    decreases |entries|
  {
    if entries != [] {
      var k := |entries| - 1;
      EntriesFind(fs, entries[..k], skill);
      assert forall e :: e in entries <==> e in entries[..k] || e == entries[k];
    }
  }

  ghost predicate Holds(fs: Files, dir: Path, skill: Skill) {
    exists e :: e in Contents(fs, dir) && IsSkillFile(fs, e) && fs.parse(e.path) == Ok(skill)
  }

  lemma {:induction false} DirectoriesFind(fs: Files, dirs: seq<Path>, skill: Skill)
    ensures skill in FromDirectories(fs, dirs).skills <==> exists d :: d in dirs && Holds(fs, d, skill)
    decreases |dirs|
  {
    if dirs != [] {
      var k := |dirs| - 1;
      DirectoriesFind(fs, dirs[..k], skill);
      EntriesFind(fs, Contents(fs, dirs[k]), skill);
      assert forall d :: d in dirs <==> d in dirs[..k] || d == dirs[k];
      assert skill in FromDirectory(fs, dirs[k]).skills <==> Holds(fs, dirs[k], skill);
    }
  }

  /** The skills found are exactly those of the skill files in reachable directories. */
  lemma SkillsAreThoseReachable(fs: Files, root: Path, canonicalRoot: Path, read: seq<Path>, skill: Skill)
    requires ReadsReachable(fs, root, canonicalRoot, read)
    ensures skill in FromDirectories(fs, read).skills
            <==> exists d :: Reachable(fs, root, canonicalRoot, d) && Holds(fs, d, skill)
  {
    DirectoriesFind(fs, read, skill);
  }

  /** The entry cannot be inspected, or is a skill file that does not parse. */
  predicate EntryFails(fs: Files, e: Entry, problem: Problem) {
    Visible(fs, e) &&
    ((fs.stat(e.path).Failed? && problem == CannotStat(e.path))
     || (IsSkillFile(fs, e) && fs.parse(e.path).Err? && problem == CannotParse(e.path, fs.parse(e.path).error)))
  }

  /** The directory may be read and cannot, or one of its entries fails. */
  ghost predicate Fails(fs: Files, dir: Path, problem: Problem) {
    || (fs.readable(dir) && fs.listing(dir).None? && problem == CannotRead(dir))
    || exists e :: e in Contents(fs, dir) && EntryFails(fs, e, problem)
  }

  lemma {:induction false} EntriesReport(fs: Files, entries: seq<Entry>, problem: Problem)
    ensures problem in FromEntries(fs, entries).errors <==> exists e :: e in entries && EntryFails(fs, e, problem)
    decreases |entries|
  {
    if entries != [] {
      var k := |entries| - 1;
      EntriesReport(fs, entries[..k], problem);
      assert problem in FromEntry(fs, entries[k]).errors <==> EntryFails(fs, entries[k], problem);
      assert forall e :: e in entries <==> e in entries[..k] || e == entries[k];
    }
  }

  lemma {:induction false} DirectoriesReport(fs: Files, dirs: seq<Path>, problem: Problem)
    ensures problem in FromDirectories(fs, dirs).errors <==> exists d :: d in dirs && Fails(fs, d, problem)
    decreases |dirs|
  {
    if dirs != [] {
      var k := |dirs| - 1;
      DirectoriesReport(fs, dirs[..k], problem);
      EntriesReport(fs, Contents(fs, dirs[k]), problem);
      assert forall d :: d in dirs <==> d in dirs[..k] || d == dirs[k];
      assert problem in FromDirectory(fs, dirs[k]).errors <==> Fails(fs, dirs[k], problem);
    }
  }

  /** The problems reported are exactly those of the reachable directories and of the entries in them. */
  lemma ProblemsAreThoseReachable(fs: Files, root: Path, canonicalRoot: Path, read: seq<Path>, problem: Problem)
    requires ReadsReachable(fs, root, canonicalRoot, read)
    ensures problem in FromDirectories(fs, read).errors
            <==> exists d :: Reachable(fs, root, canonicalRoot, d) && Fails(fs, d, problem)
  {
    DirectoriesReport(fs, read, problem);
  }

  /** Entries that may not be read, and hidden ones, yield nothing and lead nowhere; only `SKILL.md` is a skill file. */
  lemma EntryIsPassedOver(fs: Files, e: Entry, to: Path, skill: Skill)
    ensures !fs.readable(e.path) || "." <= e.name ==>
              FromEntry(fs, e) == Catalog([], []) && !EntryLeads(fs, e, to)
    ensures skill in FromEntry(fs, e).skills ==> e.name == "SKILL.md" && fs.stat(e.path).File? && fs.readable(e.path)
    ensures fs.readable(e.path) && !("." <= e.name) && fs.stat(e.path) == Directory(to) ==> EntryLeads(fs, e, to)
  {
    assert "." <= e.name <==> e.name != "" && e.name[0] == '.';
  }
}
