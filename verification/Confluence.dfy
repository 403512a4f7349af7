/**
 The constructor of AppManager and repeated `add` build the same thing, in whatever order the files are
 added: doc/AppManager.md promises that the lowest rank takes precedence.
 */
module Confluence {
  import opened Utilities
  import opened Applications
  import opened CMDLineAssembler
  import opened AppManagers

  /** Every desktop ID is held by the accepted file of lowest rank, and by none if none is accepted. */
  ghost predicate LowestRankWins(t: Table, events: seq<FileEvent>, wine: bool) {
    forall id :: LowestRankHolds(t, events, id, wine)
  }

  ghost predicate LowestRankHolds(t: Table, events: seq<FileEvent>, id: string, wine: bool) {
    if id in t then exists e <- events :: Beats(e, events, id, wine) && HeldBy(t[id], e)
    else forall e <- events :: !Competes(e, id, wine)
  }

  /** A disabled file holds the desktop ID as well, but provides no application. */
  predicate HeldBy(m: Managed, e: FileEvent) {
    m.rank == e.rank && (e.parsed.Populated? ==> m.app == Some(e.parsed.app)) && (e.parsed.Disabled? ==> m.app.None?)
  }

  /** A file that was read, even if disabled, competes for its ID; outside of Wine mode its Exec must be well-formed. */
  predicate Competes(e: FileEvent, id: string, wine: bool) {
    && e.id == id && !e.parsed.Unreadable? && !e.parsed.Invalid?
    && (e.parsed.Populated? && !wine ==> WellFormedExec(e.parsed.app.exec))
  }

  ghost predicate Beats(e: FileEvent, events: seq<FileEvent>, id: string, wine: bool) {
    Competes(e, id, wine) && forall f <- events :: Competes(f, id, wine) ==> e.rank <= f.rank
  }

  predicate SameSlot(e: FileEvent, f: FileEvent) {
    e.id == f.id && e.rank == f.rank
  }

  /** One file per desktop ID and rank. */
  ghost predicate OneFilePerIdAndRank(events: seq<FileEvent>) {
    forall i, j :: 0 <= i < j < |events| ==> !SameSlot(events[i], events[j])
  }

  lemma SlotDecides(events: seq<FileEvent>, e: FileEvent, f: FileEvent)
    requires OneFilePerIdAndRank(events) && e in events && f in events && SameSlot(e, f)
    ensures e == f
  {
    var i :| 0 <= i < |events| && events[i] == e;
    var j :| 0 <= j < |events| && events[j] == f;
  }

  lemma LowestRankIsUnique(t: Table, u: Table, a: seq<FileEvent>, b: seq<FileEvent>, wine: bool)
    requires LowestRankWins(t, a, wine) && LowestRankWins(u, b, wine)
    requires forall e :: e in a <==> e in b
    requires OneFilePerIdAndRank(a)
    ensures t == u
  {
    forall id ensures id in t <==> id in u
      ensures id in t && id in u ==> t[id] == u[id]
    {
      assert LowestRankHolds(t, a, id, wine) && LowestRankHolds(u, b, id, wine);
      if id in t && id in u {
        var e :| e in a && Beats(e, a, id, wine) && HeldBy(t[id], e);
        var f :| f in b && Beats(f, b, id, wine) && HeldBy(u[id], f);
        assert f in a && e in b;
        SlotDecides(a, e, f);
      }
    }
  }

  // ---- add ----------------------------------------------------------------------------------

  function EventOf(c: Change): FileEvent
    requires c.Added?
  {
    FileEvent(DashesForSlashes(c.name), c.rank, c.parsed)
  }

  function EventsOf(changes: seq<Change>): (r: seq<FileEvent>)
    requires forall c <- changes :: c.Added?
    ensures |r| == |changes|
    ensures forall i :: 0 <= i < |r| ==> r[i] == EventOf(changes[i])
  {
    if changes == [] then []
    else EventsOf(changes[..|changes| - 1]) + [EventOf(changes[|changes| - 1])]
  }

  lemma AddStepKeepsLowest(t: Table, events: seq<FileEvent>, e: FileEvent)
    requires LowestRankWins(t, events, true)
    ensures LowestRankWins(AddToTable(t, e), events + [e], true)
  {
    forall id ensures LowestRankHolds(AddToTable(t, e), events + [e], id, true) {
      assert LowestRankHolds(t, events, id, true);
      AddStepHoldsLowest(t, events, e, id);
    }
  }

  /** The same for one desktop ID. */
  lemma AddStepHoldsLowest(t: Table, events: seq<FileEvent>, e: FileEvent, id: string)
    requires LowestRankHolds(t, events, id, true)
    ensures LowestRankHolds(AddToTable(t, e), events + [e], id, true)
  {
    var u, all := AddToTable(t, e), events + [e];
    assert e in all && forall f <- events :: f in all;
    if id in t {
      var f :| f in events && Beats(f, events, id, true) && HeldBy(t[id], f);
      if Competes(e, id, true) && e.rank <= f.rank {
        assert Beats(e, all, id, true) && HeldBy(u[id], e);
      } else {
        assert Beats(f, all, id, true) && HeldBy(u[id], f);
      }
    } else if Competes(e, id, true) {
      assert Beats(e, all, id, true) && HeldBy(u[id], e);
    }
  }

  /** File `k` has the lowest rank of those that compete for the ID, and is the last one of that rank. */
  ghost predicate LastOfLowest(events: seq<FileEvent>, id: string, k: nat) {
    && k < |events| && Competes(events[k], id, true)
    && forall j :: 0 <= j < |events| && Competes(events[j], id, true) ==>
         events[k].rank < events[j].rank || (events[k].rank == events[j].rank && j <= k)
  }

  /** The ID is held by that file, and by none if none competes. */
  ghost predicate LastOfLowestHolds(t: Table, events: seq<FileEvent>, id: string) {
    if id in t then exists k: nat :: LastOfLowest(events, id, k) && HeldBy(t[id], events[k])
    else forall e <- events :: !Competes(e, id, true)
  }

  lemma AddStepHoldsLast(t: Table, events: seq<FileEvent>, e: FileEvent, id: string)
    requires LastOfLowestHolds(t, events, id)
    ensures LastOfLowestHolds(AddToTable(t, e), events + [e], id)
  {
    var u, all, n := AddToTable(t, e), events + [e], |events|;
    assert forall j :: 0 <= j < n ==> all[j] == events[j] && events[j] in events;
    if id in t {
      var k: nat :| LastOfLowest(events, id, k) && HeldBy(t[id], events[k]);
      if Competes(e, id, true) && e.rank <= events[k].rank {
        assert LastOfLowest(all, id, n) && HeldBy(u[id], all[n]);
      } else {
        assert LastOfLowest(all, id, k) && HeldBy(u[id], all[k]);
      }
    } else if Competes(e, id, true) {
      assert LastOfLowest(all, id, n) && HeldBy(u[id], all[n]);
    }
  }

  lemma {:induction false} AddsKeepLowest(changes: seq<Change>)
    requires forall c <- changes :: c.Added?
    ensures LowestRankWins(TableAfter(map[], changes), EventsOf(changes), true)
  {
    if changes == [] {
      forall id ensures LowestRankHolds(map[], [], id, true) {
      }
    } else {
      var n := |changes| - 1;
      AddsKeepLowest(changes[..n]);
      AddStepKeepsLowest(TableAfter(map[], changes[..n]), EventsOf(changes[..n]), EventOf(changes[n]));
    }
  }

  // ---- the constructor ----------------------------------------------------------------------

  ghost predicate Ascending(events: seq<FileEvent>) {
    forall i, j :: 0 <= i < j < |events| ==> events[i].rank <= events[j].rank
  }

  lemma {:induction false} RankEventsHaveRank(files: seq<string>, base: string, rank: Rank, disk: string -> Parsed)
    requires forall f <- files :: StartsWith(f, base)
    ensures forall e <- RankEvents(files, base, rank, disk) :: e.rank == rank
  {
    if files != [] {
      RankEventsHaveRank(files[..|files| - 1], base, rank, disk);
    }
  }

  lemma {:induction false} EventsAscend(files: seq<RankFiles>, disk: string -> Parsed)
    requires WellBased(files) && |files| <= INT_MAX
    ensures Ascending(Events(files, disk))
    ensures forall e <- Events(files, disk) :: e.rank < |files|
  {
    if files != [] {
      var rank := |files| - 1;
      EventsAscend(files[..rank], disk);
      RankEventsHaveRank(files[rank].files, files[rank].basePath, rank, disk);
      var earlier, last := Events(files[..rank], disk), RankEvents(files[rank].files, files[rank].basePath, rank, disk);
      forall i | 0 <= i < |Events(files, disk)|
        ensures Events(files, disk)[i].rank == if i < |earlier| then earlier[i].rank else rank
      {
        assert i >= |earlier| ==> last[i - |earlier|] in last;
      }
      assert forall i :: 0 <= i < |earlier| ==> earlier[i] in earlier;
    }
  }

  /** In both modes first come, first served amounts to the lowest rank. */
  lemma {:induction false} ScanKeepsLowest(events: seq<FileEvent>, wine: bool)
    requires Ascending(events)
    ensures LowestRankWins(ScanTable(events, wine), events, wine)
  {
    if events == [] {
      forall id ensures LowestRankHolds(map[], [], id, wine) {
      }
    } else {
      var n := |events| - 1;
      var before, e := events[..n], events[n];
      ScanKeepsLowest(before, wine);
      assert events == before + [e];
      ScanStepKeepsLowest(ScanTable(before, wine), before, e, wine);
    }
  }

  lemma ScanStepKeepsLowest(t: Table, before: seq<FileEvent>, e: FileEvent, wine: bool)
    requires LowestRankWins(t, before, wine) && forall f <- before :: f.rank <= e.rank
    ensures LowestRankWins(ScanStep(t, e, wine), before + [e], wine)
  {
    var u, all := ScanStep(t, e, wine), before + [e];
    forall id ensures LowestRankHolds(u, all, id, wine) {
      assert LowestRankHolds(t, before, id, wine);
      assert e in all && forall f <- before :: f in all;
      if id in t {
        var f :| f in before && Beats(f, before, id, wine) && HeldBy(t[id], f);
        assert Beats(f, all, id, wine);
      } else if Competes(e, id, wine) {
        assert Beats(e, all, id, wine);
      }
    }
  }

  /** File `k` is the first that competes for the ID. */
  ghost predicate FirstCompeting(events: seq<FileEvent>, id: string, wine: bool, k: nat) {
    k < |events| && Competes(events[k], id, wine) && forall j :: 0 <= j < k ==> !Competes(events[j], id, wine)
  }

  ghost predicate FirstHolds(t: Table, events: seq<FileEvent>, id: string, wine: bool) {
    if id in t then exists k: nat :: FirstCompeting(events, id, wine, k) && HeldBy(t[id], events[k])
    else forall e <- events :: !Competes(e, id, wine)
  }

  /** Among equal ranks the constructor keeps the file that is there already: the first that was read. */
  lemma {:induction false} ScanKeepsFirst(events: seq<FileEvent>, wine: bool, id: string)
    ensures FirstHolds(ScanTable(events, wine), events, id, wine)
  {
    if events != [] {
      var n := |events| - 1;
      var before, e := events[..n], events[n];
      ScanKeepsFirst(before, wine, id);
      var t, u := ScanTable(before, wine), ScanTable(events, wine);
      assert events == before + [e] && u == ScanStep(t, e, wine);
      if id in t {
        var k: nat :| FirstCompeting(before, id, wine, k) && HeldBy(t[id], before[k]);
        assert FirstCompeting(events, id, wine, k) && HeldBy(u[id], events[k]);
      } else if Competes(e, id, wine) {
        assert forall j :: 0 <= j < n ==> before[j] in before;
        assert FirstCompeting(events, id, wine, n) && HeldBy(u[id], events[n]);
      }
    }
  }

  // ---- constructing and adding --------------------------------------------------------------

  /** The changes add exactly the files that a constructor would read, in any order. */
  ghost predicate AddsTheFiles(changes: seq<Change>, events: seq<FileEvent>) {
    && (forall c <- changes :: c.Added?)
    && multiset(EventsOf(changes)) == multiset(events)
    && OneFilePerIdAndRank(events)
  }

  /**
   Confluence of the tables: adding the constructor's files in any order gives the constructor's table in Wine
   compatibility mode, and any two exact indexes of it know the same names and resolve each at the same rank.
   */
  lemma AddingInAnyOrderIsConstructing(files: seq<RankFiles>, disk: string -> Parsed, changes: seq<Change>,
                                       built: Index, grown: Index)
    requires WellBased(files) && |files| <= INT_MAX
    requires AddsTheFiles(changes, Events(files, disk))
    requires Exact(ScanTable(Events(files, disk), true), built) && Exact(TableAfter(map[], changes), grown)
    ensures TableAfter(map[], changes) == ScanTable(Events(files, disk), true)
    ensures SameAnswers(TableAfter(map[], changes), built, grown)
  {
    TablesAgree(files, disk, changes);
    ExactIndexesAgree(TableAfter(map[], changes), built, grown);
  }

  ghost predicate SameAnswers(t: Table, a: Index, b: Index) {
    && a.Keys == b.Keys
    && forall name <- a :: Provides(t, a[name].app, name) && Provides(t, b[name].app, name)
                           && t[a[name].app].rank == t[b[name].app].rank
  }

  lemma TablesAgree(files: seq<RankFiles>, disk: string -> Parsed, changes: seq<Change>)
    requires WellBased(files) && |files| <= INT_MAX
    requires AddsTheFiles(changes, Events(files, disk))
    ensures TableAfter(map[], changes) == ScanTable(Events(files, disk), true)
  {
    AddsKeepLowest(changes);
    EventsAscend(files, disk);
    ScanKeepsLowest(Events(files, disk), true);
    SameElements(EventsOf(changes), Events(files, disk));
    LowestRankIsUnique(ScanTable(Events(files, disk), true), TableAfter(map[], changes),
                       Events(files, disk), EventsOf(changes), true);
  }

  lemma SameElements<T>(a: seq<T>, b: seq<T>)
    requires multiset(a) == multiset(b)
    ensures forall x :: x in a <==> x in b
  {
    forall x ensures x in a <==> x in b {
      assert x in multiset(a) <==> x in multiset(b);
    }
  }

  ghost predicate NoneAborts(changes: seq<Change>) {
    forall i :: 0 <= i < |changes| ==> !AbortsAt(map[], changes, i)
  }

  /**
   Confluence of the runs: a manager constructed from the files and one that starts empty and is given them one by
   one in any order. The second run finishes exactly if no addition aborts, and then the two managers hold the
   same applications and resolve the same names at the same ranks; otherwise it stops at the first abort.
   */
  method BuildBothWays(files: seq<RankFiles>, disk: string -> Parsed, changes: seq<Change>)
    returns (built: AppManager, grown: AppManager, done: nat)
    requires WellBased(files) && |files| <= INT_MAX
    requires AddsTheFiles(changes, Events(files, disk))
    ensures fresh(built) && fresh(grown) && done <= |changes|
    ensures done == |changes| <==> NoneAborts(changes)
    ensures done < |changes| ==>
              AbortsAt(map[], changes, done) && forall i :: 0 <= i < done ==> !AbortsAt(map[], changes, i)
    ensures done == |changes| ==>
              && built.Valid() && grown.Valid() && built.applications == grown.applications
              && SameAnswers(built.applications, built.nameAppMapping, grown.nameAppMapping)
  {
    built := new AppManager(files, disk, true);
    grown := new AppManager([], disk, true);
    ghost var started := grown.applications;
    assert started == map[];
    done := grown.Run(changes);
    if done == |changes| {
      AddingInAnyOrderIsConstructing(files, disk, changes, built.nameAppMapping, grown.nameAppMapping);
    }
  }

  // ---- which files can be added in any order ------------------------------------------------

  /** `f` takes the desktop ID from `e`, whose Name is its GenericName. */
  predicate Displaces(e: FileEvent, f: FileEvent) {
    && f.id == e.id && f.rank < e.rank && Accepted(f.parsed, true)
    && e.parsed.Populated? && e.parsed.app.name == e.parsed.app.genericName
  }

  ghost predicate SomeDisplaced(events: seq<FileEvent>) {
    exists e, f :: e in events && f in events && Displaces(e, f)
  }

  /** An addition that aborts displaces an earlier one. */
  lemma AbortDisplaces(changes: seq<Change>, events: seq<FileEvent>, i: nat)
    requires AddsTheFiles(changes, events) && i < |changes| && AbortsAt(map[], changes, i)
    ensures SomeDisplaced(events)
  {
    var t, f := TableAfter(map[], changes[..i]), EventOf(changes[i]);
    var earlier := EventsOf(changes[..i]);
    assert changes[i] in changes;
    AddsKeepLowest(changes[..i]);
    assert LowestRankHolds(t, earlier, f.id, true);
    var e :| e in earlier && Beats(e, earlier, f.id, true) && HeldBy(t[f.id], e);
    var j :| 0 <= j < i && earlier[j] == e;
    var all := EventsOf(changes);
    assert all[j] == e && all[i] == f;
    SameElements(all, events);
    assert e in all && f in all;
    if SameSlot(e, f) {
      SlotDecides(events, e, f);
      TwiceIn(all, j, i);
      OnceIn(events, e);
    }
    assert Displaces(e, f);
  }

  lemma TwiceIn(s: seq<FileEvent>, i: nat, j: nat)
    requires i < j < |s| && s[i] == s[j]
    ensures multiset(s)[s[i]] >= 2
  {
    assert s == s[..i] + [s[i]] + s[i + 1..j] + [s[j]] + s[j + 1..];
  }

  lemma {:induction false} OnceIn(events: seq<FileEvent>, e: FileEvent)
    requires OneFilePerIdAndRank(events)
    ensures multiset(events)[e] <= 1
  {
    if events != [] {
      var n := |events| - 1;
      assert events == events[..n] + [events[n]];
      OnceIn(events[..n], e);
      forall i | 0 <= i < n ensures events[i] != events[n] {
        assert !SameSlot(events[i], events[n]);
      }
      assert events[n] !in events[..n];
    }
  }

  function AddOf(e: FileEvent): Change {
    Added("", e.id, e.rank, e.parsed)
  }

  predicate IsId(id: string) {
    '/' !in id
  }

  lemma IdsAreDashed(id: string)
    requires IsId(id)
    ensures DashesForSlashes(id) == id
  {
  }

  lemma {:induction false} AddsOf(events: seq<FileEvent>)
    requires forall e <- events :: IsId(e.id)
    ensures var changes := seq(|events|, i requires 0 <= i < |events| => AddOf(events[i]));
            (forall c <- changes :: c.Added?) && EventsOf(changes) == events
  {
    var changes := seq(|events|, i requires 0 <= i < |events| => AddOf(events[i]));
    forall i | 0 <= i < |events| ensures EventsOf(changes)[i] == events[i] {
      assert events[i] in events;
      IdsAreDashed(events[i].id);
      assert EventsOf(changes)[i] == EventOf(changes[i]);
    }
  }

  /** Adding the displaced file first and the other one next aborts. */
  lemma AbortingOrder(events: seq<FileEvent>, e: FileEvent, f: FileEvent) returns (changes: seq<Change>)
    requires OneFilePerIdAndRank(events) && forall x <- events :: IsId(x.id)
    requires e in events && f in events && Displaces(e, f)
    ensures AddsTheFiles(changes, events) && 1 < |changes| && AbortsAt(map[], changes, 1)
  {
    var order := BothFirst(events, e, f);
    SameElements(order, events);
    AddsOf(order);
    changes := seq(|order|, k requires 0 <= k < |order| => AddOf(order[k]));
    SecondAborts(changes, e, f);
  }

  lemma BothFirst(events: seq<FileEvent>, e: FileEvent, f: FileEvent) returns (order: seq<FileEvent>)
    requires e in events && f in events && e != f
    ensures multiset(order) == multiset(events) && |order| > 1 && order[0] == e && order[1] == f
  {
    var i :| 0 <= i < |events| && events[i] == e;
    var rest := EraseAt(events, i);
    ElementsBeforeErase(events, i);
    var j :| 0 <= j < |rest| && rest[j] == f;
    ElementsBeforeErase(rest, j);
    order := [e, f] + EraseAt(rest, j);
  }

  lemma SecondAborts(changes: seq<Change>, e: FileEvent, f: FileEvent)
    requires |changes| > 1 && changes[0] == AddOf(e) && changes[1] == AddOf(f)
    requires IsId(e.id) && Displaces(e, f)
    ensures AbortsAt(map[], changes, 1)
  {
    IdsAreDashed(e.id);
    TableAfterStep(map[], changes, 0);
    assert changes[..0] == [];
    var t := TableAfter(map[], changes[..1]);
    assert t == map[e.id := ManagedEntry(e.parsed, e.rank)];
    assert SoleProviderOfItsOnlyName(t, e.id);
  }

  /**
   The files can be added in any order without abort exactly if no file whose Name is its GenericName loses its
   desktop ID to a file of lower rank.
   */
  lemma EveryOrderWorks(events: seq<FileEvent>)
    requires OneFilePerIdAndRank(events) && forall e <- events :: IsId(e.id)
    ensures (forall changes | AddsTheFiles(changes, events) :: NoneAborts(changes)) <==> !SomeDisplaced(events)
  {
    forall changes | AddsTheFiles(changes, events) && !NoneAborts(changes) ensures SomeDisplaced(events) {
      var i :| 0 <= i < |changes| && AbortsAt(map[], changes, i);
      AbortDisplaces(changes, events, i);
    }
    if SomeDisplaced(events) {
      var e, f :| e in events && f in events && Displaces(e, f);
      var changes := AbortingOrder(events, e, f);
      assert !NoneAborts(changes);
    }
  }

  /** The events of a constructor have IDs without slashes. */
  lemma {:induction false} EventsHaveIds(files: seq<RankFiles>, disk: string -> Parsed)
    requires WellBased(files) && |files| <= INT_MAX
    ensures forall e <- Events(files, disk) :: IsId(e.id)
  {
    if files != [] {
      var rank := |files| - 1;
      EventsHaveIds(files[..rank], disk);
      RankEventsHaveIds(files[rank].files, files[rank].basePath, rank, disk);
    }
  }

  lemma {:induction false} RankEventsHaveIds(files: seq<string>, base: string, rank: Rank, disk: string -> Parsed)
    requires forall f <- files :: StartsWith(f, base)
    ensures forall e <- RankEvents(files, base, rank, disk) :: IsId(e.id)
  {
    if files != [] {
      RankEventsHaveIds(files[..|files| - 1], base, rank, disk);
    }
  }

  /** The files of any scan can be added in any order under exactly this condition. */
  lemma EveryScanOrderWorks(files: seq<RankFiles>, disk: string -> Parsed)
    requires WellBased(files) && |files| <= INT_MAX && OneFilePerIdAndRank(Events(files, disk))
    ensures (forall changes | AddsTheFiles(changes, Events(files, disk)) :: NoneAborts(changes))
            <==> !SomeDisplaced(Events(files, disk))
  {
    EventsHaveIds(files, disk);
    EveryOrderWorks(Events(files, disk));
  }

  /** With different names no order aborts. */
  lemma DifferentNamesAddInAnyOrder(changes: seq<Change>)
    requires forall c <- changes :: c.Added? && (c.parsed.Populated? ==> NamesDiffer(c.parsed.app))
    ensures NoneAborts(changes)
  {
    forall i | 0 <= i < |changes| ensures !AbortsAt(map[], changes, i) {
      DifferentNamesNeverAbort(map[], changes, i);
    }
  }

  // ---- strict mode --------------------------------------------------------------------------

  /** The file wins its desktop ID among all of them. */
  ghost predicate Wins(e: FileEvent, events: seq<FileEvent>) {
    e in events && Beats(e, events, e.id, true)
  }

  ghost predicate WinnersAreWellFormed(events: seq<FileEvent>) {
    forall e | Wins(e, events) && e.parsed.Populated? :: WellFormedExec(e.parsed.app.exec)
  }

  ghost predicate AllExecsWellFormed(t: Table) {
    forall id <- t :: t[id].app.Some? ==> WellFormedExec(t[id].app.value.exec)
  }

  /**
   In strict mode the constructor drops files with a malformed Exec, which `add` never looks at: additions in any
   order give the strict constructor's table exactly if no file that wins its desktop ID has a malformed Exec.
   */
  lemma AddingAgreesWithStrict(files: seq<RankFiles>, disk: string -> Parsed, changes: seq<Change>)
    requires WellBased(files) && |files| <= INT_MAX
    requires AddsTheFiles(changes, Events(files, disk))
    ensures TableAfter(map[], changes) == ScanTable(Events(files, disk), false)
            <==> WinnersAreWellFormed(Events(files, disk))
  {
    var events := Events(files, disk);
    TablesAgree(files, disk, changes);
    EventsAscend(files, disk);
    ScanKeepsLowest(events, true);
    StrictScanAgrees(events);
    WinnersAreInTheTable(ScanTable(events, true), events);
  }

  lemma WinnersAreInTheTable(t: Table, events: seq<FileEvent>)
    requires LowestRankWins(t, events, true) && OneFilePerIdAndRank(events)
    ensures AllExecsWellFormed(t) <==> WinnersAreWellFormed(events)
  {
    forall e | Wins(e, events) ensures e.id in t && HeldBy(t[e.id], e) {
      assert LowestRankHolds(t, events, e.id, true);
      assert Competes(e, e.id, true);
      var f :| f in events && Beats(f, events, e.id, true) && HeldBy(t[e.id], f);
      SlotDecides(events, e, f);
    }
    forall id <- t ensures exists e :: Wins(e, events) && e.id == id && HeldBy(t[id], e) {
      assert LowestRankHolds(t, events, id, true);
      var f :| f in events && Beats(f, events, id, true) && HeldBy(t[id], f);
      assert Wins(f, events);
    }
  }

  /** The two modes of the constructor agree under the same condition. */
  lemma {:induction false} StrictScanAgrees(events: seq<FileEvent>)
    ensures ScanTable(events, false) == ScanTable(events, true) <==> AllExecsWellFormed(ScanTable(events, true))
  {
    StrictScanIsWellFormed(events);
    if AllExecsWellFormed(ScanTable(events, true)) {
      forall id ensures id in ScanTable(events, true) <==> id in ScanTable(events, false)
        ensures id in ScanTable(events, true) && id in ScanTable(events, false) ==>
                  ScanTable(events, true)[id] == ScanTable(events, false)[id]
      {
        StrictScanOf(events, id);
      }
    }
  }

  lemma {:induction false} StrictScanIsWellFormed(events: seq<FileEvent>)
    ensures AllExecsWellFormed(ScanTable(events, false))
  {
    if events != [] {
      StrictScanIsWellFormed(events[..|events| - 1]);
    }
  }

  lemma {:induction false} StrictScanOf(events: seq<FileEvent>, id: string)
    ensures var wine, strict := ScanTable(events, true), ScanTable(events, false);
            && (id !in wine ==> id !in strict)
            && (id in wine && (wine[id].app.Some? ==> WellFormedExec(wine[id].app.value.exec)) ==>
                  id in strict && strict[id] == wine[id])
  {
    if events != [] {
      StrictScanOf(events[..|events| - 1], id);
    }
  }

  /** A file with a quote that is never closed: the strict constructor drops it, an addition keeps it. */
  lemma MalformedExecIsKept()
    ensures var app := Application("Broken", "", "\"", "", "", false);
            var e := FileEvent("broken.desktop", 0, Populated(app));
            && EventsOf([AddOf(e)]) == [e]
            && TableAfter(map[], [AddOf(e)]) == map[e.id := Managed(Some(app), 0)]
            && ScanTable([e], false) == map[]
  {
    var app := Application("Broken", "", "\"", "", "", false);
    var e := FileEvent("broken.desktop", 0, Populated(app));
    IdsAreDashed(e.id);
    assert [AddOf(e)][..0] == [] && [e][..0] == [];
    assert ReadExec("\"") == ReadQuoted("\""[1..]) && "\""[1..] == "";
    assert !WellFormedExec(app.exec);
  }

  // ---- additions and removals ---------------------------------------------------------------

  /**
   Adding a file whose desktop ID is taken is documented as removing it and adding it again. It is exactly when the
   newcomer may replace the old entry, that is when its rank is not higher and it can be read: then the tables
   agree, the one aborts exactly when the removal in the other does, and exact indexes give the same answers.
   */
  lemma AddingAgainIsReplacing(t: Table, e: FileEvent, added: Index, replaced: Index)
    requires Exact(AddToTable(t, e), added) && Exact(AddToTable(Without(t, e.id), e), replaced)
    ensures AddToTable(t, e) == AddToTable(Without(t, e.id), e) <==> MayReplace(t, e)
    ensures MayReplace(t, e) ==>
              && (AddAborts(t, e) <==> SoleProviderOfItsOnlyName(t, e.id) || AddAborts(Without(t, e.id), e))
              && SameAnswers(AddToTable(t, e), added, replaced)
  {
    var again := AddToTable(Without(t, e.id), e);
    if e.id !in t {
      assert Without(t, e.id) == t;
    } else if Accepted(e.parsed, true) {
      assert again == t[e.id := ManagedEntry(e.parsed, e.rank)];
      assert again[e.id].rank == e.rank;
    } else {
      assert AddToTable(t, e) == t && e.id !in again;
    }
    if MayReplace(t, e) {
      ExactIndexesAgree(again, added, replaced);
    }
  }

  predicate MayReplace(t: Table, e: FileEvent) {
    e.id !in t || (e.rank <= t[e.id].rank && Accepted(e.parsed, true))
  }

  /**
   A removal takes the desktop ID out whatever the rank of the removed file. Reading the remaining files again would
   give the same table exactly if none of them could hold the ID, in either mode.
   */
  lemma RemovingIsRescanning(t: Table, u: Table, events: seq<FileEvent>, i: nat, wine: bool)
    requires i < |events| && OneFilePerIdAndRank(events)
    requires LowestRankWins(t, events, wine) && LowestRankWins(u, EraseAt(events, i), wine)
    ensures Without(t, events[i].id) == u <==> forall f <- EraseAt(events, i) :: !Competes(f, events[i].id, wine)
  {
    var id, rest := events[i].id, EraseAt(events, i);
    ElementsBeforeErase(events, i);
    assert LowestRankHolds(u, rest, id, wine);
    if forall f <- rest :: !Competes(f, id, wine) {
      forall other ensures other in Without(t, id) <==> other in u
        ensures other in Without(t, id) && other in u ==> Without(t, id)[other] == u[other]
      {
        if other != id {
          OtherIdsStay(t, u, events, i, other, wine);
        }
      }
    } else {
      assert id in u && id !in Without(t, id);
    }
  }

  lemma OtherIdsStay(t: Table, u: Table, events: seq<FileEvent>, i: nat, id: string,
                      wine: bool)
    requires i < |events| && OneFilePerIdAndRank(events) && id != events[i].id
    requires LowestRankWins(t, events, wine) && LowestRankWins(u, EraseAt(events, i), wine)
    ensures id in t <==> id in u
    ensures id in t ==> t[id] == u[id]
  {
    var rest := EraseAt(events, i);
    ElementsBeforeErase(events, i);
    assert LowestRankHolds(t, events, id, wine) && LowestRankHolds(u, rest, id, wine);
    if id in t && id in u {
      var e :| e in events && Beats(e, events, id, wine) && HeldBy(t[id], e);
      var f :| f in rest && Beats(f, rest, id, wine) && HeldBy(u[id], f);
      assert e in rest;
      SlotDecides(events, e, f);
    }
  }

  // ---- inputs on which the two differ -------------------------------------------------------

  lemma RunIsWellFormed()
    ensures WellFormedExec("run")
  {
    assert "run"[1..] == "un" && "un"[1..] == "n" && "n"[1..] == "";
    assert ReadExec("n").Reading? && ReadExec("un").Reading?;
  }

  /** Adding a file of a higher rank leaves the old one, and replacing would not. */
  lemma HigherRankIsNotAdded()
    ensures var t: Table := map["a.desktop" := Managed(Some(PlainApplication("A")), 0)];
            var e := FileEvent("a.desktop", 1, Populated(PlainApplication("B")));
            AddToTable(t, e) == t && AddToTable(Without(t, e.id), e)[e.id].app == Some(PlainApplication("B"))
  {
  }

  /** After the removal of the file that held an ID, a shadowed file with that ID does not come forward. */
  lemma ShadowedFileStaysAway(wine: bool)
    ensures var e := FileEvent("a.desktop", 0, Populated(PlainApplication("A")));
            var f := FileEvent("a.desktop", 1, Populated(PlainApplication("B")));
            && Without(ScanTable([e, f], wine), "a.desktop") == map[]
            && ScanTable([f], wine) == map["a.desktop" := Managed(Some(PlainApplication("B")), 1)]
  {
    var e := FileEvent("a.desktop", 0, Populated(PlainApplication("A")));
    var f := FileEvent("a.desktop", 1, Populated(PlainApplication("B")));
    RunIsWellFormed();
    assert [e, f][..1] == [e] && [e][..0] == [] && [f][..0] == [];
    assert ScanTable([e], wine) == map["a.desktop" := Managed(Some(PlainApplication("A")), 0)];
  }

  // ---- aborts -------------------------------------------------------------------------------

  predicate NamesDiffer(app: Application) {
    app.name != app.genericName
  }

  /** When no application has its Name as its GenericName, no run of changes ever aborts. */
  lemma {:induction false} DifferentNamesNeverAbort(t: Table, changes: seq<Change>, i: nat)
    requires forall id <- t :: t[id].app.Some? ==> NamesDiffer(t[id].app.value)
    requires forall c <- changes :: c.Added? && c.parsed.Populated? ==> NamesDiffer(c.parsed.app)
    requires i < |changes|
    ensures !AbortsAt(t, changes, i)
    ensures forall id <- TableAfter(t, changes[..i]) ::
              TableAfter(t, changes[..i])[id].app.Some? ==> NamesDiffer(TableAfter(t, changes[..i])[id].app.value)
  {
    if i > 0 {
      DifferentNamesNeverAbort(t, changes, i - 1);
      TableAfterStep(t, changes, i - 1);
      assert changes[i - 1] in changes;
    }
  }

  /** The abort is real: a Tor Browser whose GenericName repeats its Name cannot be removed. */
  lemma RemovingARepeatedNameAborts()
    ensures var app := Application("Tor Browser", "Tor Browser", "tor", "", "", false);
            var t: Table := map["tor.desktop" := Managed(Some(app), 0)];
            ChangeAborts(t, Removed("/usr/share/applications/", "tor.desktop"))
  {
    assert DashesForSlashes("tor.desktop") == "tor.desktop";
  }
}
