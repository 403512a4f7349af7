/**
 src/AppManager.hh and src/AppManager.cc: the table of desktop files and the index from names to
 applications that is kept in agreement with it.

 An `Application*` is represented by the desktop ID whose entry holds that application, and the
 `string_view` that keys an index entry by that ID and the field it views.
 */
module AppManagers {
  import opened Utilities
  import opened Applications
  import opened CMDLineAssembler

  /** Ranks are positions in the search path, whose length fits an `int`. */
  const INT_MAX := 0x7fff_ffff
  type Rank = r: int | 0 <= r < INT_MAX

  datatype Managed = Managed(app: Option<NamedApplication>, rank: Rank)
  type Table = map<string, Managed>

  datatype NameField = NameKey | GenericNameKey
  datatype View = View(owner: string, field: NameField)
  datatype Resolved = Resolved(app: string, isGeneric: bool, key: View)
  type Index = map<string, Resolved>

  function FieldText(app: Application, field: NameField): string {
    if field.NameKey? then app.name else app.genericName
  }

  /** `id` holds a populated application with the Name or GenericName `name`. */
  predicate Provides(t: Table, id: string, name: string) {
    && id in t && t[id].app.Some?
    && name != ""
    && (t[id].app.value.name == name || t[id].app.value.genericName == name)
  }

  /** The text that a key views is alive and is the key itself, and it belongs to the resolved application. */
  ghost predicate KeyOwned(t: Table, name: string, e: Resolved) {
    && e.key.owner == e.app
    && e.app in t && t[e.app].app.Some?
    && FieldText(t[e.app].app.value, e.key.field) == name
  }

  ghost predicate KeysOwned(t: Table, index: Index) {
    forall name <- index :: KeyOwned(t, name, index[name])
  }

  /** `e` is a right resolution of `name`: a provider of minimal rank, viewed through the right field. */
  ghost predicate Resolves(t: Table, name: string, e: Resolved) {
    && Provides(t, e.app, name)
    && (forall id :: Provides(t, id, name) ==> t[e.app].rank <= t[id].rank)
    && (e.isGeneric <==> t[e.app].app.value.name != name)
    && e.key == View(e.app, if e.isGeneric then GenericNameKey else NameKey)
  }

  /** The index is right about `name`: it resolves it if there is a provider and is silent otherwise. */
  ghost predicate RightAbout(t: Table, index: Index, name: string) {
    if name in index then Resolves(t, name, index[name]) else forall id :: !Provides(t, id, name)
  }

  /** The index is what a search of the table would answer, for every name. */
  ghost predicate Exact(t: Table, index: Index) {
    forall name :: RightAbout(t, index, name)
  }

  /** The name has stayed with its application. */
  predicate Keeps(before: Index, after: Index, name: string) {
    name in before && name in after && after[name] == before[name]
  }

  /** The name belongs to an application of this or of a lower rank, other than `id`. */
  predicate TakenAt(t: Table, index: Index, name: string, rank: int, id: string) {
    name in index && index[name].app != id && index[name].app in t && t[index[name].app].rank <= rank
  }

  /** Registering one name leaves names alone that are taken at this rank. */
  lemma RegisteringKeeps(t: Table, before: Index, after: Index, name: string, id: string, mine: Resolved)
    requires id in t && mine.app == id
    requires after == if name in before && before[name].app in t && t[before[name].app].rank <= t[id].rank then before
                      else before[name := mine]
    ensures forall other | TakenAt(t, before, other, t[id].rank, id) ::
              Keeps(before, after, other) && TakenAt(t, after, other, t[id].rank, id)
  {
  }

  /** Names of other applications are still taken once the entry of `id` has been exchanged. */
  lemma StillTaken(t: Table, t': Table, before: Index, after: Index, id: string, rank: int)
    requires Without(t, id) == Without(t', id)
    requires forall name <- before :: before[name].app != id ==> Keeps(before, after, name)
    ensures forall name | TakenAt(t, before, name, rank, id) ::
              TakenAt(t', after, name, rank, id) && Keeps(before, after, name)
  {
    forall name | TakenAt(t, before, name, rank, id) ensures TakenAt(t', after, name, rank, id) {
      var other := before[name].app;
      assert other in Without(t, id) && Without(t, id)[other] == t[other];
      assert other in Without(t', id) && Without(t', id)[other] == t'[other];
    }
  }

  function Without(t: Table, id: string): Table {
    t - {id}
  }

  // ------------------------------------------------------------------------------------------
  // What the operations do to the table
  // ------------------------------------------------------------------------------------------

  datatype FileEvent = FileEvent(id: string, rank: Rank, parsed: Parsed)

  function ManagedEntry(parsed: Parsed, rank: Rank): Managed
    requires parsed.Populated? || parsed.Disabled?
  {
    Managed(if parsed.Populated? then Some(parsed.app) else None, rank)
  }

  function AddToTable(t: Table, e: FileEvent): Table {
    if e.id in t && t[e.id].rank < e.rank then t
    else if e.parsed.Populated? || e.parsed.Disabled? then t[e.id := ManagedEntry(e.parsed, e.rank)]
    else t
  }

  /**
   The entry's two names are the same and nobody else provides that name. Taking such an entry out is
   the one thing the manager cannot do: it aborts.
   */
  ghost predicate SoleProviderOfItsOnlyName(t: Table, id: string) {
    && id in t && t[id].app.Some?
    && t[id].app.value.name == t[id].app.value.genericName
    && forall other :: Provides(t, other, t[id].app.value.name) ==> other == id
  }

  ghost predicate AddAborts(t: Table, e: FileEvent) {
    && e.id in t && e.rank <= t[e.id].rank
    && (e.parsed.Populated? || e.parsed.Disabled?)
    && SoleProviderOfItsOnlyName(t, e.id)
  }

  /** Wine compatibility mode keeps a file whose Exec is malformed. */
  predicate Accepted(parsed: Parsed, wine: bool) {
    parsed.Disabled? || (parsed.Populated? && (wine || WellFormedExec(parsed.app.exec)))
  }

  function ScanStep(t: Table, e: FileEvent, wine: bool): Table {
    if e.id in t || !Accepted(e.parsed, wine) then t else t[e.id := ManagedEntry(e.parsed, e.rank)]
  }

  function ScanTable(events: seq<FileEvent>, wine: bool): Table {
    if events == [] then map[]
    else ScanStep(ScanTable(events[..|events| - 1], wine), events[|events| - 1], wine)
  }

  /** The files of the constructor's argument in the order they are read. */
  function RankEvents(files: seq<string>, base: string, rank: Rank, disk: string -> Parsed): (r: seq<FileEvent>)
    requires forall f <- files :: StartsWith(f, base)
    ensures |r| == |files|
  {
    if files == [] then []
    else
      var last := files[|files| - 1];
      RankEvents(files[..|files| - 1], base, rank, disk) + [FileEvent(DesktopId(last, base), rank, disk(last))]
  }

  function Events(files: seq<RankFiles>, disk: string -> Parsed): seq<FileEvent>
    requires WellBased(files) && |files| <= INT_MAX
  {
    if files == [] then []
    else
      var rank := |files| - 1;
      Events(files[..rank], disk) + RankEvents(files[rank].files, files[rank].basePath, rank, disk)
  }

  lemma ScanTableStep(files: seq<string>, k: nat, base: string, rank: Rank, disk: string -> Parsed, wine: bool,
                      earlier: seq<FileEvent>)
    requires k < |files| && forall f <- files :: StartsWith(f, base)
    ensures StartsWith(files[k], base)
    ensures ScanTable(earlier + RankEvents(files[..k + 1], base, rank, disk), wine)
         == ScanStep(ScanTable(earlier + RankEvents(files[..k], base, rank, disk), wine),
                     FileEvent(DesktopId(files[k], base), rank, disk(files[k])), wine)
  {
    assert files[k] in files;
    assert files[..k + 1][..k] == files[..k];
    var e := FileEvent(DesktopId(files[k], base), rank, disk(files[k]));
    var before := earlier + RankEvents(files[..k], base, rank, disk);
    assert earlier + RankEvents(files[..k + 1], base, rank, disk) == before + [e];
    assert (before + [e])[..|before|] == before;
  }

  /** A change reported while the program runs, for the file `name` below `basePath`. */
  datatype Change =
    | Added(basePath: string, name: string, rank: Rank, parsed: Parsed)
    | Removed(basePath: string, name: string)

  function ChangeTable(t: Table, c: Change): Table {
    var id := DashesForSlashes(c.name);
    if c.Added? then AddToTable(t, FileEvent(id, c.rank, c.parsed)) else Without(t, id)
  }

  ghost predicate ChangeAborts(t: Table, c: Change) {
    var id := DashesForSlashes(c.name);
    if c.Added? then AddAborts(t, FileEvent(id, c.rank, c.parsed)) else SoleProviderOfItsOnlyName(t, id)
  }

  function TableAfter(t: Table, changes: seq<Change>): Table {
    if changes == [] then t
    else ChangeTable(TableAfter(t, changes[..|changes| - 1]), changes[|changes| - 1])
  }

  lemma TableAfterStep(t: Table, changes: seq<Change>, i: nat)
    requires i < |changes|
    ensures TableAfter(t, changes[..i + 1]) == ChangeTable(TableAfter(t, changes[..i]), changes[i])
  {
    assert changes[..i + 1][..i] == changes[..i];
  }

  ghost predicate AbortsAt(t: Table, changes: seq<Change>, i: nat)
    requires i < |changes|
  {
    ChangeAborts(TableAfter(t, changes[..i]), changes[i])
  }

  // ------------------------------------------------------------------------------------------
  // Exactness, one name at a time
  // ------------------------------------------------------------------------------------------

  lemma ExactOwnsKeys(t: Table, index: Index)
    requires Exact(t, index)
    ensures KeysOwned(t, index)
  {
    forall name <- index ensures KeyOwned(t, name, index[name]) {
      assert RightAbout(t, index, name);
    }
  }

  /** What an exact index answers, in terms of the applications alone. */
  lemma ExactMeans(t: Table, index: Index, id: string)
    requires Exact(t, index) && id in t && t[id].app.Some?
    ensures var app := t[id].app.value;
            && LeadsToOwner(t, index, app.name, t[id].rank)
            && (app.genericName != "" ==> LeadsToOwner(t, index, app.genericName, t[id].rank))
  {
    var app := t[id].app.value;
    assert RightAbout(t, index, app.name) && RightAbout(t, index, app.genericName);
    assert Provides(t, id, app.name);
    assert app.genericName != "" ==> Provides(t, id, app.genericName);
  }

  /** The name leads to an application that has it, by its Name if possible, and of this rank or a lower one. */
  predicate LeadsToOwner(t: Table, index: Index, name: string, rank: int) {
    && name in index && index[name].app in t && t[index[name].app].app.Some?
    && t[index[name].app].rank <= rank
    && if index[name].isGeneric
       then t[index[name].app].app.value.genericName == name && t[index[name].app].app.value.name != name
       else t[index[name].app].app.value.name == name
  }

  /** Nothing else is in an exact index: every key is the Name or the GenericName of some application. */
  lemma ExactHasNothingElse(t: Table, index: Index, name: string)
    requires Exact(t, index) && name in index
    ensures name != ""
    ensures exists id <- t :: t[id].app.Some? && (t[id].app.value.name == name || t[id].app.value.genericName == name)
  {
    assert RightAbout(t, index, name);
    assert index[name].app in t;
  }

  /** An entry only matters for the names it provides. */
  lemma RightAboutOtherNames(t: Table, t': Table, id: string, index: Index, name: string)
    requires Without(t, id) == Without(t', id)
    requires !Provides(t, id, name) && !Provides(t', id, name)
    requires RightAbout(t, index, name)
    ensures RightAbout(t', index, name)
  {
    forall other ensures Provides(t, other, name) <==> Provides(t', other, name)
      ensures Provides(t, other, name) ==> t[other] == t'[other]
    {
      if other != id {
        assert other in t <==> other in Without(t, id);
        assert other in t' <==> other in Without(t', id);
        assert other in t ==> t[other] == Without(t, id)[other];
        assert other in t' ==> t'[other] == Without(t', id)[other];
      }
    }
  }

  /** Two exact indexes of one table know the same names and resolve them at the same rank. */
  lemma ExactIndexesAgree(t: Table, a: Index, b: Index)
    requires Exact(t, a) && Exact(t, b)
    ensures a.Keys == b.Keys
    ensures forall name <- a :: Provides(t, a[name].app, name) && Provides(t, b[name].app, name)
                                && t[a[name].app].rank == t[b[name].app].rank
  {
    forall name ensures name in a <==> name in b
      ensures name in a ==> name in b && Provides(t, a[name].app, name) && Provides(t, b[name].app, name)
                            && t[a[name].app].rank == t[b[name].app].rank
    {
      assert RightAbout(t, a, name) && RightAbout(t, b, name);
    }
  }

  /** Taking the names of `id` out repairs one name for the table without `id`. */
  lemma RemovalStep(t: Table, id: string, before: Index, after: Index, name: string)
    requires id in t && t[id].app.Some? && name in before
    requires RightAbout(t, before, name)
    requires if before[name].app == id then RightAbout(Without(t, id), after, name) else after == before
    ensures RightAbout(Without(t, id), after, name)
  {
    if before[name].app != id {
      forall other | Provides(Without(t, id), other, name)
        ensures t[before[name].app].rank <= t[other].rank
      {
        assert Provides(t, other, name);
      }
    }
  }

  /** A name missing from the repaired index was provided by `id` alone. */
  lemma NobodyElseProvides(t: Table, id: string, index: Index, name: string)
    requires RightAbout(Without(t, id), index, name) && name !in index
    ensures forall other :: Provides(t, other, name) ==> other == id
  {
    forall other | Provides(t, other, name) && other != id ensures false {
      assert Provides(Without(t, id), other, name);
    }
  }

  /** Once the names of `id` are repaired, all names are right without it. */
  lemma AllNamesRemoved(t: Table, id: string, before: Index, after: Index)
    requires id in t && t[id].app.Some? && Exact(t, before)
    requires var app := t[id].app.value;
             && RightAbout(Without(t, id), after, app.name)
             && (app.genericName != "" ==> RightAbout(Without(t, id), after, app.genericName))
             && (forall name | name != app.name && (app.genericName == "" || name != app.genericName) ::
                   && (name in after <==> name in before)
                   && (name in after ==> after[name] == before[name]))
    ensures Exact(Without(t, id), after)
  {
    var app := t[id].app.value;
    forall name ensures RightAbout(Without(t, id), after, name) {
      if name != app.name && (app.genericName == "" || name != app.genericName) {
        assert RightAbout(t, before, name);
        assert Without(Without(t, id), id) == Without(t, id);
        RightAboutOtherNames(t, Without(t, id), id, after, name);
      }
    }
  }

  /** Registering one name of `id` extends what the index knew about the table without `id`. */
  lemma AdditionStep(t: Table, id: string, field: NameField, before: Index, after: Index)
    requires id in t && t[id].app.Some?
    requires var name := FieldText(t[id].app.value, field);
             && name != ""
             && (field.GenericNameKey? ==> t[id].app.value.name != name)
             && RightAbout(Without(t, id), before, name)
             && after == if name in before && t[before[name].app].rank <= t[id].rank then before
                         else before[name := Resolved(id, field.GenericNameKey?, View(id, field))]
    ensures RightAbout(t, after, FieldText(t[id].app.value, field))
  {
    var name := FieldText(t[id].app.value, field);
    forall other | other != id ensures Provides(t, other, name) <==> Provides(Without(t, id), other, name) {
    }
  }

  /** What registering one name makes of the index. */
  function Registered(t: Table, id: string, field: NameField, before: Index): Index
    requires id in t && t[id].app.Some?
  {
    var name := FieldText(t[id].app.value, field);
    if name in before && before[name].app in t && t[before[name].app].rank <= t[id].rank then before
    else before[name := Resolved(id, field.GenericNameKey?, View(id, field))]
  }

  lemma LargestRankRegisters(t: Table, id: string, before: Index, name: string, mine: Resolved)
    requires id in t && Exact(Without(t, id), before) && forall other <- t :: t[other].rank <= t[id].rank
    ensures name in before ==> before[name].app in t && t[before[name].app].rank <= t[id].rank
  {
    assert RightAbout(Without(t, id), before, name);
  }

  lemma NameIsRight(t: Table, id: string, before: Index, after: Index)
    requires id in t && t[id].app.Some? && Exact(Without(t, id), before)
    requires after == Registered(t, id, NameKey, before)
    ensures RightAbout(t, after, t[id].app.value.name)
  {
    assert RightAbout(Without(t, id), before, t[id].app.value.name);
    AdditionStep(t, id, NameKey, before, after);
  }

  /** The second name is right as well, and the first one stays right. */
  lemma GenericNameIsRight(t: Table, id: string, before: Index, between: Index, after: Index)
    requires id in t && t[id].app.Some? && t[id].app.value.genericName != ""
    requires Exact(Without(t, id), before) && between == Registered(t, id, NameKey, before)
    requires RightAbout(t, between, t[id].app.value.name)
    requires after == Registered(t, id, GenericNameKey, between)
    ensures RightAbout(t, after, t[id].app.value.genericName) && RightAbout(t, after, t[id].app.value.name)
  {
    var app := t[id].app.value;
    if app.genericName != app.name {
      assert RightAbout(Without(t, id), before, app.genericName);
      AdditionStep(t, id, GenericNameKey, between, after);
    } else {
      assert Provides(t, id, app.name);
    }
  }

  /** Once the names of `id` itself are right, all names are. */
  lemma AllNamesRight(t: Table, id: string, before: Index, after: Index)
    requires id in t && t[id].app.Some?
    requires Exact(Without(t, id), before)
    requires var app := t[id].app.value;
             && RightAbout(t, after, app.name)
             && (app.genericName != "" ==> RightAbout(t, after, app.genericName))
             && (forall name | name != app.name && (app.genericName == "" || name != app.genericName) ::
                   && (name in after <==> name in before)
                   && (name in after ==> after[name] == before[name]))
    ensures Exact(t, after)
  {
    var app := t[id].app.value;
    forall name ensures RightAbout(t, after, name) {
      if name != app.name && (app.genericName == "" || name != app.genericName) {
        assert RightAbout(Without(t, id), before, name);
        assert Without(Without(t, id), id) == Without(t, id);
        RightAboutOtherNames(Without(t, id), t, id, after, name);
      }
    }
  }

  /** A disabled entry provides nothing. */
  lemma WithoutUnpopulated(t: Table, id: string, index: Index)
    requires id in t && t[id].app.None?
    ensures Exact(t, index) <==> Exact(Without(t, id), index)
  {
    assert Without(Without(t, id), id) == Without(t, id);
    if Exact(t, index) {
      forall name ensures RightAbout(Without(t, id), index, name) {
        assert RightAbout(t, index, name);
        RightAboutOtherNames(t, Without(t, id), id, index, name);
      }
    }
    if Exact(Without(t, id), index) {
      forall name ensures RightAbout(t, index, name) {
        assert RightAbout(Without(t, id), index, name);
        RightAboutOtherNames(Without(t, id), t, id, index, name);
      }
    }
  }

  // ------------------------------------------------------------------------------------------
  // Desktop IDs
  // ------------------------------------------------------------------------------------------

  function DashesForSlashes(s: string): (r: string) {
    seq(|s|, i requires 0 <= i < |s| => if s[i] == '/' then '-' else s[i])
  }

  /** `get_desktop_id` */
  function DesktopId(filename: string, base: string): string
    requires StartsWith(filename, base)
  {
    DashesForSlashes(filename[|base|..])
  }

  /** The desktop ID of a file in a directory below the base path. */
  lemma IdOfNestedFile(base: string, dir: string, file: string)
    requires '/' !in dir && '/' !in file
    ensures DesktopId(base + (dir + "/" + file), base) == dir + "-" + file
  {
    SplitConcat(base, dir + "/" + file);
    var name := dir + "/" + file;
    forall i | 0 <= i < |name| ensures DashesForSlashes(name)[i] == (dir + "-" + file)[i] {
      assert i < |dir| ==> name[i] == dir[i] && dir[i] in dir;
      assert i > |dir| ==> name[i] == file[i - |dir| - 1] && file[i - |dir| - 1] in file;
    }
  }

  // ------------------------------------------------------------------------------------------
  // The manager
  // ------------------------------------------------------------------------------------------

  datatype RankFiles = RankFiles(basePath: string, files: seq<string>)

  predicate WellBased(files: seq<RankFiles>) {
    forall r <- files :: forall f <- r.files :: StartsWith(f, r.basePath)
  }

  class AppManager {
    var applications: Table
    var nameAppMapping: Index

    ghost predicate Valid()
      reads this
    {
      Exact(applications, nameAppMapping)
    }

    /** Reading or writing the index compares keys, so every key must view a live string. */
    method Find(name: string) returns (e: Option<Resolved>)
      requires KeysOwned(applications, nameAppMapping)
      ensures e == if name in nameAppMapping then Some(nameAppMapping[name]) else None
    {
      e := if name in nameAppMapping then Some(nameAppMapping[name]) else None;
    }

    method TryEmplace(name: string, e: Resolved) returns (inserted: bool)
      requires KeysOwned(applications, nameAppMapping) && KeyOwned(applications, name, e)
      modifies `nameAppMapping
      ensures inserted <==> name !in old(nameAppMapping)
      ensures nameAppMapping == if inserted then old(nameAppMapping)[name := e] else old(nameAppMapping)
      ensures KeysOwned(applications, nameAppMapping)
    {
      inserted := name !in nameAppMapping;
      if inserted {
        nameAppMapping := nameAppMapping[name := e];
      }
    }

    method Erase(name: string)
      requires KeysOwned(applications, nameAppMapping) && name in nameAppMapping
      modifies `nameAppMapping
      ensures nameAppMapping == old(nameAppMapping) - {name}
      ensures KeysOwned(applications, nameAppMapping)
    {
      nameAppMapping := nameAppMapping - {name};
    }

    /** The scan for a replacement: lowest rank, in whatever order the hash table is iterated. */
    method FindBestMatch(name: string, toRemove: string) returns (best: Option<Resolved>)
      requires name != ""
      ensures best.Some? ==> Resolves(Without(applications, toRemove), name, best.value)
      ensures best.None? ==> forall id :: !Provides(Without(applications, toRemove), id, name)
    {
      ghost var others := Without(applications, toRemove);
      var bestRank := INT_MAX;
      best := None;
      var unvisited := applications.Keys;
      while unvisited != {}
        invariant unvisited <= applications.Keys
        invariant best.None? <==> bestRank == INT_MAX
        invariant best.None? ==> forall id <- applications.Keys - unvisited :: !Provides(others, id, name)
        invariant best.Some? ==>
                    && Provides(others, best.value.app, name)
                    && others[best.value.app].rank == bestRank
                    && (best.value.isGeneric <==> others[best.value.app].app.value.name != name)
                    && best.value.key == View(best.value.app, if best.value.isGeneric then GenericNameKey else NameKey)
        invariant best.Some? ==> forall id <- applications.Keys - unvisited ::
                                   Provides(others, id, name) ==> bestRank <= others[id].rank
      {
        var id :| id in unvisited;
        unvisited := unvisited - {id};
        var managed := applications[id];
        if managed.app.Some? {
          var app := managed.app.value;
          if app.name == name || app.genericName == name {
            if id != toRemove && managed.rank < bestRank {
              bestRank := managed.rank;
              best := Some(if app.name == name then Resolved(id, false, View(id, NameKey))
                           else Resolved(id, true, View(id, GenericNameKey)));
            }
          }
        }
      }
    }

    /** `remove_name_mapping<N>`; it reads the index, so every key must be alive. */
    method RemoveNameMapping(toRemove: string, field: NameField) returns (aborted: bool)
      requires toRemove in applications && applications[toRemove].app.Some?
      requires FieldText(applications[toRemove].app.value, field) != ""
      requires KeysOwned(applications, nameAppMapping)
      modifies `nameAppMapping
      ensures var name := FieldText(applications[toRemove].app.value, field);
              && (aborted <==> name !in old(nameAppMapping))
              && (!aborted ==>
                    if old(nameAppMapping)[name].app == toRemove
                    then RightAbout(Without(applications, toRemove), nameAppMapping, name)
                    else nameAppMapping == old(nameAppMapping))
              && (forall other | other != name ::
                    && (other in nameAppMapping <==> other in old(nameAppMapping))
                    && (other in nameAppMapping ==> nameAppMapping[other] == old(nameAppMapping)[other]))
      ensures KeysOwned(applications, nameAppMapping)
    {
      var name := FieldText(applications[toRemove].app.value, field);
      var found := Find(name);
      if found.None? {
        return true;
      }
      if found.value.app == toRemove {
        Erase(name);
        var best := FindBestMatch(name, toRemove);
        if best.Some? {
          var _ := TryEmplace(name, best.value);
        }
      }
      return false;
    }

    /** The two calls that take the names of one populated entry out of the index. */
    method RemoveNames(id: string) returns (aborted: bool)
      requires Valid()
      requires id in applications && applications[id].app.Some?
      modifies `nameAppMapping
      ensures aborted <==> SoleProviderOfItsOnlyName(applications, id)
      ensures !aborted ==> Exact(Without(applications, id), nameAppMapping)
      ensures !aborted ==> KeysOwned(applications, nameAppMapping)
      ensures !aborted ==> forall name <- old(nameAppMapping) ::
                             old(nameAppMapping)[name].app != id ==> Keeps(old(nameAppMapping), nameAppMapping, name)
    {
      ghost var rest := Without(applications, id);
      ghost var before := nameAppMapping;
      var app := applications[id].app.value;
      ExactOwnsKeys(applications, nameAppMapping);
      assert RightAbout(applications, nameAppMapping, app.name);
      assert Provides(applications, id, app.name);
      aborted := RemoveNameMapping(id, NameKey);
      assert !aborted;
      RemovalStep(applications, id, before, nameAppMapping, app.name);
      ghost var between := nameAppMapping;
      if app.genericName != "" {
        assert RightAbout(applications, before, app.genericName);
        assert Provides(applications, id, app.genericName);
        aborted := RemoveNameMapping(id, GenericNameKey);
        if aborted {
          NobodyElseProvides(applications, id, between, app.name);
          return;
        }
        if app.name != app.genericName {
          RemovalStep(applications, id, between, nameAppMapping, app.genericName);
        } else {
          assert between[app.name].app != id;
          assert RightAbout(rest, nameAppMapping, app.name);
          assert Provides(applications, between[app.name].app, app.name);
        }
      }
      AllNamesRemoved(applications, id, before, nameAppMapping);
    }

    /** `replace_name_mapping<N>` for an entry whose name is not registered yet. */
    method ReplaceNameMapping(toAdd: string, field: NameField) returns (aborted: bool)
      requires toAdd in applications && applications[toAdd].app.Some?
      requires FieldText(applications[toAdd].app.value, field) != ""
      requires KeysOwned(applications, nameAppMapping)
      modifies `nameAppMapping
      ensures !aborted
      ensures KeysOwned(applications, nameAppMapping)
      ensures var name := FieldText(applications[toAdd].app.value, field);
              var mine := Resolved(toAdd, field.GenericNameKey?, View(toAdd, field));
              nameAppMapping ==
              if name in old(nameAppMapping)
                 && applications[old(nameAppMapping)[name].app].rank <= applications[toAdd].rank
              then old(nameAppMapping)
              else old(nameAppMapping)[name := mine]
    {
      var name := FieldText(applications[toAdd].app.value, field);
      var mine := Resolved(toAdd, field.GenericNameKey?, View(toAdd, field));
      var inserted := TryEmplace(name, mine);
      if inserted {
        return false;
      }
      var found := Find(name);
      var colliding := found.value.app;
      assert KeyOwned(applications, name, found.value);
      if colliding !in applications || applications[colliding].app.None? {
        return true;
      }
      if applications[toAdd].rank < applications[colliding].rank {
        Erase(name);
        inserted := TryEmplace(name, mine);
      }
      return false;
    }

    /** The two calls that register one populated entry that the index does not know yet. */
    method AddNames(id: string) returns (aborted: bool)
      requires id in applications && applications[id].app.Some?
      requires Exact(Without(applications, id), nameAppMapping)
      modifies `nameAppMapping
      ensures !aborted && Valid()
      ensures forall name | TakenAt(applications, old(nameAppMapping), name, applications[id].rank, id) ::
                Keeps(old(nameAppMapping), nameAppMapping, name)
    {
      ghost var rest := Without(applications, id);
      ghost var before := nameAppMapping;
      var app := applications[id].app.value;
      ExactOwnsKeys(rest, nameAppMapping);
      aborted := ReplaceNameMapping(id, NameKey);
      RegisteringKeeps(applications, before, nameAppMapping, app.name, id, Resolved(id, false, View(id, NameKey)));
      NameIsRight(applications, id, before, nameAppMapping);
      ghost var between := nameAppMapping;
      if app.genericName != "" {
        aborted := ReplaceNameMapping(id, GenericNameKey);
        RegisteringKeeps(applications, between, nameAppMapping, app.genericName, id,
                         Resolved(id, true, View(id, GenericNameKey)));
        GenericNameIsRight(applications, id, before, between, nameAppMapping);
      }
      AllNamesRight(applications, id, before, nameAppMapping);
    }

    /** A file that was read: check its Exec, then register its names unless they are taken. */
    method ScanPopulated(e: FileEvent, wine: bool)
      requires Valid() && e.parsed.Populated? && e.id !in applications
      requires forall id <- applications :: applications[id].rank <= e.rank
      modifies this
      ensures Valid()
      ensures applications == ScanStep(old(applications), e, wine)
      ensures forall name <- old(nameAppMapping) :: Keeps(old(nameAppMapping), nameAppMapping, name)
    {
      var app := e.parsed.app;
      ghost var t := applications;
      applications := applications[e.id := Managed(Some(app), e.rank)];
      assert Without(applications, e.id) == t;
      var ok := ValidateExecKey(app.exec);
      if !wine && !ok {
        applications := applications - {e.id};
        return;
      }
      RegisterFreeNames(e.id);
    }

    /** `try_emplace` of the two names of the newest entry, whose rank is the largest. */
    method RegisterFreeNames(id: string)
      requires id in applications && applications[id].app.Some?
      requires Exact(Without(applications, id), nameAppMapping)
      requires forall other <- applications :: applications[other].rank <= applications[id].rank
      modifies `nameAppMapping
      ensures Valid()
      ensures forall name <- old(nameAppMapping) :: Keeps(old(nameAppMapping), nameAppMapping, name)
    {
      ghost var t := Without(applications, id);
      ghost var before := nameAppMapping;
      var app := applications[id].app.value;
      ExactOwnsKeys(t, before);
      var _ := TryEmplace(app.name, Resolved(id, false, View(id, NameKey)));
      LargestRankRegisters(applications, id, before, app.name, Resolved(id, false, View(id, NameKey)));
      NameIsRight(applications, id, before, nameAppMapping);
      ghost var between := nameAppMapping;
      if app.genericName != "" {
        var _ := TryEmplace(app.genericName, Resolved(id, true, View(id, GenericNameKey)));
        GenericNameIsRight(applications, id, before, between, nameAppMapping);
      }
      AllNamesRight(applications, id, before, nameAppMapping);
    }

    /** One iteration of the constructor's inner loop. */
    method ScanFile(e: FileEvent, wine: bool)
      requires Valid()
      requires forall id <- applications :: applications[id].rank <= e.rank
      modifies this
      ensures Valid()
      ensures applications == ScanStep(old(applications), e, wine)
      ensures forall name <- old(nameAppMapping) :: Keeps(old(nameAppMapping), nameAppMapping, name)
    {
      if e.id in applications {
        return;
      }
      match e.parsed
      case Populated(_) =>
        ScanPopulated(e, wine);
      case Disabled =>
        ghost var t := applications;
        applications := applications[e.id := Managed(None, e.rank)];
        assert Without(applications, e.id) == t;
        WithoutUnpopulated(applications, e.id, nameAppMapping);
      case Unreadable =>
      case Invalid =>
    }

    /** The constructor's inner loop: all files of one rank. */
    method ScanRank(files: seq<string>, base: string, rank: Rank, disk: string -> Parsed, wine: bool,
                    ghost earlier: seq<FileEvent>)
      requires forall f <- files :: StartsWith(f, base)
      requires Valid() && applications == ScanTable(earlier, wine)
      requires forall id <- applications :: applications[id].rank < rank
      modifies this
      ensures Valid() && applications == ScanTable(earlier + RankEvents(files, base, rank, disk), wine)
      ensures forall id <- applications :: applications[id].rank <= rank
    {
      assert earlier + RankEvents(files[..0], base, rank, disk) == earlier;
      for k := 0 to |files|
        invariant Valid()
        invariant applications == ScanTable(earlier + RankEvents(files[..k], base, rank, disk), wine)
        invariant forall id <- applications :: applications[id].rank <= rank
      {
        assert files[k] in files;
        ScanTableStep(files, k, base, rank, disk, wine, earlier);
        ScanFile(FileEvent(DesktopId(files[k], base), rank, disk(files[k])), wine);
      }
      assert files[..|files|] == files;
    }

    /** The constructor. `disk` says what reading each file gives. */
    constructor (files: seq<RankFiles>, disk: string -> Parsed, wine: bool)
      requires WellBased(files) && |files| <= INT_MAX
      ensures Valid()
      ensures applications == ScanTable(Events(files, disk), wine)
    {
      applications := map[];
      nameAppMapping := map[];
      new;
      for rank := 0 to |files|
        invariant Valid()
        invariant applications == ScanTable(Events(files[..rank], disk), wine)
        invariant forall id <- applications :: applications[id].rank < rank
      {
        assert files[rank] in files;
        ScanRank(files[rank].files, files[rank].basePath, rank, disk, wine, Events(files[..rank], disk));
        assert files[..rank + 1][..rank] == files[..rank];
      }
      assert files[..|files|] == files;
    }

    /** `remove` */
    method Remove(filename: string, basePath: string) returns (aborted: bool)
      requires Valid() && StartsWith(filename, basePath)
      modifies this
      ensures aborted <==> SoleProviderOfItsOnlyName(old(applications), DesktopId(filename, basePath))
      ensures !aborted ==> Valid() && applications == Without(old(applications), DesktopId(filename, basePath))
    {
      var id := DesktopId(filename, basePath);
      if id !in applications {
        assert Without(applications, id) == applications;
        return false;
      }
      if applications[id].app.Some? {
        aborted := RemoveNames(id);
        if aborted {
          return true;
        }
      } else {
        WithoutUnpopulated(applications, id, nameAppMapping);
      }
      applications := applications - {id};
      return false;
    }

    /**
     `add`; `parsed` is what reading the file gives at that moment. A name that another application of the same or
     of a lower rank has stays with it.
     */
    method Add(filename: string, basePath: string, rank: Rank, parsed: Parsed) returns (aborted: bool)
      requires Valid() && StartsWith(filename, basePath)
      modifies this
      ensures var e := FileEvent(DesktopId(filename, basePath), rank, parsed);
              && (aborted <==> AddAborts(old(applications), e))
              && (!aborted ==> Valid() && applications == AddToTable(old(applications), e))
      ensures !aborted ==>
                var id := DesktopId(filename, basePath);
                forall name | TakenAt(old(applications), old(nameAppMapping), name, rank, id) ::
                  Keeps(old(nameAppMapping), nameAppMapping, name)
    {
      var id := DesktopId(filename, basePath);
      ghost var t := applications;
      if id in applications {
        if applications[id].rank < rank {
          return false;
        }
        if parsed.Unreadable? || parsed.Invalid? {
          return false;
        }
        var newApp := if parsed.Populated? then Some(parsed.app) else None;
        if applications[id].app.Some? {
          aborted := RemoveNames(id);
          if aborted {
            return true;
          }
        } else {
          WithoutUnpopulated(applications, id, nameAppMapping);
        }
        applications := applications[id := Managed(newApp, rank)];
      } else {
        assert Without(applications, id) == applications;
        match parsed
        case Populated(app) => applications := applications[id := Managed(Some(app), rank)];
        case Disabled => applications := applications[id := Managed(None, rank)];
        case _ => return false;
      }
      assert Without(applications, id) == Without(t, id);
      StillTaken(t, applications, old(nameAppMapping), nameAppMapping, id, rank);
      if parsed.Populated? {
        aborted := AddNames(id);
      } else {
        WithoutUnpopulated(applications, id, nameAppMapping);
        aborted := false;
      }
    }

    /** One change reported at run time. */
    method Apply(c: Change) returns (aborted: bool)
      requires Valid()
      modifies this
      ensures aborted <==> ChangeAborts(old(applications), c)
      ensures !aborted ==> Valid() && applications == ChangeTable(old(applications), c)
    {
      var filename := c.basePath + c.name;
      assert filename[..|c.basePath|] == c.basePath && filename[|c.basePath|..] == c.name;
      match c
      case Added(basePath, _, rank, parsed) => aborted := Add(filename, basePath, rank, parsed);
      case Removed(basePath, _) => aborted := Remove(filename, basePath);
    }

    /** Any run of changes: the index stays exact, and the run stops exactly at the first change that aborts. */
    method Run(changes: seq<Change>) returns (done: nat)
      requires Valid()
      modifies this
      ensures done <= |changes|
      ensures forall i :: 0 <= i < done ==> !AbortsAt(old(applications), changes, i)
      ensures done < |changes| ==> AbortsAt(old(applications), changes, done)
      ensures done == |changes| ==> Valid() && applications == TableAfter(old(applications), changes)
    {
      ghost var t := applications;
      done := 0;
      while done < |changes|
        invariant 0 <= done <= |changes| && Valid()
        invariant applications == TableAfter(t, changes[..done])
        invariant forall i :: 0 <= i < done ==> !AbortsAt(t, changes, i)
      {
        var aborted := Apply(changes[done]);
        if aborted {
          return;
        }
        TableAfterStep(t, changes, done);
        done := done + 1;
      }
      assert changes[..done] == changes;
    }

    /** `check_inner_state`: what the debug check demands. */
    method CheckInnerState() returns (ok: bool)
      requires Valid()
      ensures ok <==> forall id <- applications ::
                        id != "" && (applications[id].app.Some? ==> applications[id].app.value.exec != "")
    {
      var ids := applications.Keys;
      while ids != {}
        invariant ids <= applications.Keys
        invariant forall id <- applications.Keys - ids ::
                    id != "" && (applications[id].app.Some? ==> applications[id].app.value.exec != "")
      {
        var id :| id in ids;
        ids := ids - {id};
        if id == "" || applications[id].rank < 0
           || (applications[id].app.Some? && applications[id].app.value.exec == "") {
          return false;
        }
      }
      var names := nameAppMapping.Keys;
      while names != {}
        invariant names <= nameAppMapping.Keys
      {
        var name :| name in names;
        names := names - {name};
        var e := nameAppMapping[name];
        assert RightAbout(applications, nameAppMapping, name);
        if name == ""
           || !(exists id <- applications ::
                  applications[id].app.Some? && (e.key == View(id, NameKey) || e.key == View(id, GenericNameKey)))
           || !(exists id <- applications :: applications[id].app.Some? && id == e.app) {
          return false;
        }
      }
      return true;
    }

    /** `lookup_by_ID` */
    function LookupById(id: string): Option<NamedApplication>
      reads this
    {
      if id in applications then applications[id].app else None
    }
  }
}
