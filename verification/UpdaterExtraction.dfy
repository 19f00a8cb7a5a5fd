/**
Unpacking a package into a directory: entry by entry, each written under a temporary name and
renamed when it is complete.  A tree is the finite map of its files; directories are implied.
*/
module UpdaterExtraction {
  import Paths

  type Files = map<string, string>

  datatype Entry = Entry(name: string, content: string)

  function Temp(name: string): string { name + ".extracting" }

  /** The path itself, and what lies below it if it is a directory. */
  predicate Within(path: string, top: string) { path == top || top + "/" <= path }

  function Without(files: Files, top: string): Files {
    map k | k in files && !Within(k, top) :: files[k]
  }

  /** One entry in its place; whatever had its temporary name is gone. */
  function Place(files: Files, e: Entry): Files { Without(files, Temp(e.name))[e.name := e.content] }

  /** What a complete extraction of `entries` makes of the files it found. */
  function After(entries: seq<Entry>, found: Files): Files {
    if entries == [] then found else Place(After(entries[..|entries| - 1], found), entries[|entries| - 1])
  }

  // ---------------------------------------------------------------- what an extraction leaves

  /** A later entry that overwrites a name or clears it away with its own temporary name. */
  predicate Disturbs(e: Entry, name: string) { e.name == name || Within(name, e.name + ".extracting") }

  /** An entry is there with its content unless a later one disturbs it. */
  lemma {:induction false} EntryIsThere(entries: seq<Entry>, found: Files, i: nat)
    requires i < |entries| && forall j | i < j < |entries| :: !Disturbs(entries[j], entries[i].name)
    ensures entries[i].name in After(entries, found) && After(entries, found)[entries[i].name] == entries[i].content
    decreases |entries|
  {
    var n := |entries| - 1;
    if i < n {
      assert entries[..n][i] == entries[i];
      EntryIsThere(entries[..n], found, i);
      assert !Disturbs(entries[n], entries[i].name);
    }
  }

  /** A file that was found stays as it was unless an entry disturbs it, and nothing else appears. */
  lemma {:induction false} FoundOrUnpacked(entries: seq<Entry>, found: Files, name: string)
    ensures (forall e | e in entries :: !Disturbs(e, name)) ==>
              (name in After(entries, found) <==> name in found) &&
              (name in found ==> After(entries, found)[name] == found[name])
    ensures name in After(entries, found) ==> name in found || exists e :: e in entries && e.name == name
    decreases |entries|
  {
    if entries != [] {
      var front, last := entries[..|entries| - 1], entries[|entries| - 1];
      FoundOrUnpacked(front, found, name);
      assert last in entries && forall e | e in front :: e in entries;
    }
  }

  /** No temporary file is left, unless the package has an entry of that name. */
  lemma {:induction false} NoTemporaryFile(entries: seq<Entry>, found: Files, e: Entry, name: string)
    requires e in entries && Within(name, e.name + ".extracting")
    requires forall f | f in entries :: f.name != name
    ensures name !in After(entries, found)
    decreases |entries|
  {
    var front, last := entries[..|entries| - 1], entries[|entries| - 1];
    assert last in entries && forall f | f in front :: f in entries;
    if last != e {
      assert e in front by { assert entries == front + [last]; }
      NoTemporaryFile(front, found, e, name);
    }
  }

  // ---------------------------------------------------------------- what can be unpacked

  predicate IsDirectory(files: Files, p: string) { exists k | k in files :: p + "/" <= k }

  predicate LiesInFile(files: Files, p: string) { exists k | k in files :: k + "/" <= p }

  /** An entry is refused for its name, and has no room where a file would have to be a directory too. */
  predicate HasRoom(files: Files, e: Entry) {
    Paths.SafeName(e.name) && !IsDirectory(files, e.name) && !LiesInFile(files, e.name)
  }

  /** The packages that can be unpacked over the files found, as far as names and types go. */
  predicate Unpacks(entries: seq<Entry>, found: Files) {
    forall k | 0 <= k < |entries| :: HasRoom(After(entries[..k], found), entries[k])
  }

  lemma {:induction false} OnlyEntries(entries: seq<Entry>, name: string)
    requires name in After(entries, map[])
    ensures exists e :: e in entries && e.name == name
  {
    var front, last := entries[..|entries| - 1], entries[|entries| - 1];
    if name == last.name {
      assert last in entries;
    } else {
      OnlyEntries(front, name);
      var e :| e in front && e.name == name;
      assert e in entries;
    }
  }

  /** Safe names, none a directory of another: such a package unpacks into an empty directory. */
  lemma PlainPackageUnpacks(entries: seq<Entry>)
    requires forall e | e in entries :: Paths.SafeName(e.name)
    requires forall e, f | e in entries && f in entries :: !(e.name + "/" <= f.name)
    ensures Unpacks(entries, map[])
  {
    hide Paths.SafeName, After;
    forall k | 0 <= k < |entries| ensures HasRoom(After(entries[..k], map[]), entries[k]) {
      var files, e := After(entries[..k], map[]), entries[k];
      forall n | n in files ensures !(e.name + "/" <= n) && !(n + "/" <= e.name) {
        OnlyEntries(entries[..k], n);
        var f :| f in entries[..k] && f.name == n;
        assert f in entries && e in entries;
      }
    }
  }

  /** What is found only takes room away. */
  lemma {:induction false} FoundFilesStay(entries: seq<Entry>, found: Files)
    ensures After(entries, map[]).Keys <= After(entries, found).Keys
  {
    if entries != [] { FoundFilesStay(entries[..|entries| - 1], found); }
  }

  lemma EmptyIsRoomiest(entries: seq<Entry>, found: Files)
    requires Unpacks(entries, found)
    ensures Unpacks(entries, map[])
  {
    hide After, Paths.SafeName;
    forall k | 0 <= k < |entries| ensures HasRoom(After(entries[..k], map[]), entries[k]) {
      FoundFilesStay(entries[..k], found);
      assert HasRoom(After(entries[..k], found), entries[k]);
      assert forall n | n in After(entries[..k], map[]) :: n in After(entries[..k], found);
    }
  }

  /** Clearing the temporary name makes no room for an entry, and takes none. */
  lemma ClearingKeepsRoom(files: Files, e: Entry, t: Files)
    requires Clearing(files, Temp(e.name), t)
    ensures HasRoom(t, e) <==> HasRoom(files, e)
  {
    hide Paths.SafeName;
    var n, temp := e.name, Temp(e.name);
    forall k | k in files && (n + "/" <= k || k + "/" <= n) ensures k in t {
      assert temp[|n|] == '.';
      assert n + "/" <= k ==> k[|n|] == '/';
      assert k + "/" <= n ==> |k| < |n|;
    }
  }

  // ---------------------------------------------------------------- interrupted extraction

  /** A removal of `top` that got some of the way. */
  predicate Clearing(files: Files, top: string, t: Files) {
    && t.Keys <= files.Keys && (forall k | k in t :: t[k] == files[k])
    && forall k | k in files && k !in t :: Within(k, top)
  }

  /** In the middle of placing one entry: clearing its temporary name, or writing under it. */
  ghost predicate Placing(files: Files, e: Entry, t: Files) {
    || Clearing(files, Temp(e.name), t)
    || exists n: nat | n <= |e.content| :: t == Without(files, Temp(e.name))[Temp(e.name) := e.content[..n]]
  }

  ghost predicate TornAt(entries: seq<Entry>, found: Files, k: nat, t: Files)
    requires k <= |entries|
  {
    if k == |entries| then t == After(entries, found) else Placing(After(entries[..k], found), entries[k], t)
  }

  /** What an extraction may have made of the files it found: some whole entries, at most one temporary file. */
  ghost predicate Torn(entries: seq<Entry>, found: Files, t: Files) {
    exists k | 0 <= k <= |entries| :: TornAt(entries, found, k, t)
  }

  lemma NothingTorn(found: Files, t: Files)
    requires Torn([], found, t)
    ensures t == found
  {
  }

  lemma NothingYet(entries: seq<Entry>, found: Files)
    ensures Torn(entries, found, found)
  {
    assert entries[..0] == [];
    assert TornAt(entries, found, 0, found);
  }

  /** The first entry's temporary file, still empty. */
  lemma FirstTemp(entries: seq<Entry>)
    requires entries != []
    ensures Torn(entries, map[], map[entries[0].name + ".extracting" := ""])
  {
    var e := entries[0];
    assert entries[..0] == [] && e.content[..0] == "";
    assert Without(map[], Temp(e.name))[Temp(e.name) := e.content[..0]] == map[Temp(e.name) := ""];
    assert TornAt(entries, map[], 0, map[Temp(e.name) := ""]);
  }

  /** No entry is cleared away but by one with a shorter name. */
  lemma {:induction false} ShortNameStays(entries: seq<Entry>, found: Files) returns (name: string)
    requires entries != []
    ensures name in After(entries, found) && |name| <= |entries[0].name|
  {
    var front, last := entries[..|entries| - 1], entries[|entries| - 1];
    if front == [] {
      name := last.name;
    } else {
      name := ShortNameStays(front, found);
      if Within(name, Temp(last.name)) { name := last.name; }
    }
  }

  /** If the package holds a file, some torn tree is neither the complete tree nor `other`. */
  lemma TornTree(entries: seq<Entry>, other: Files) returns (t: Files)
    requires entries != []
    ensures Torn(entries, map[], t) && t != other && t != After(entries, map[])
  {
    var name := ShortNameStays(entries, map[]);
    if other != map[] {
      t := map[];
      NothingYet(entries, map[]);
    } else {
      t := map[Temp(entries[0].name) := ""];
      assert Temp(entries[0].name) in t && name !in t;
      FirstTemp(entries);
    }
  }
}
