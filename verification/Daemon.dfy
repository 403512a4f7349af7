/**
 src/main.cc: the wait-on loop. File changes update AppManager, the mapping and the formatted history; the
 menu is written from them; a choice is resolved, counted and turned into a command.
 */
module Daemon {
  import opened Utilities
  import opened Applications
  import opened AppManagers
  import opened HistoryManagers
  import opened DynamicCompare
  import opened Menus
  import opened CMDLineAssembler
  import FieldCodes
  import Confluence
  import DesktopEntries

  datatype Status = Modified(parsed: Parsed) | Deleted

  /** `NotifyBase::FileChange`; `parsed` is what reading a modified file gives. */
  datatype FileChange = FileChange(rank: nat, name: string, status: Status)

  function ToChange(searchPath: seq<string>, c: FileChange): Change
    requires c.rank < |searchPath| <= INT_MAX
  {
    match c.status
    case Modified(parsed) => Added(searchPath[c.rank], c.name, c.rank, parsed)
    case Deleted => Removed(searchPath[c.rank], c.name)
  }

  predicate IsDesktopFile(c: FileChange) {
    EndsWith(c.name, ".desktop")
  }

  /** Changes of other files are ignored. */
  function TableAfterFileChange(t: Table, searchPath: seq<string>, c: FileChange): Table
    requires c.rank < |searchPath| <= INT_MAX
  {
    if IsDesktopFile(c) then ChangeTable(t, ToChange(searchPath, c)) else t
  }

  datatype Command = DesktopCommand(app: string, args: string) | CustomCommand(rawCommand: string)

  /** What the loop reacts to. */
  datatype Event = Changed(change: FileChange) | Chosen(choice: string)

  function TableAfterEvents(t: Table, searchPath: seq<string>, events: seq<Event>): Table
    requires |searchPath| <= INT_MAX && forall e <- events :: e.Changed? ==> e.change.rank < |searchPath|
  {
    if events == [] then t
    else
      TableAfterEvent(TableAfterEvents(t, searchPath, events[..|events| - 1]), searchPath, events[|events| - 1])
  }

  function TableAfterEvent(t: Table, searchPath: seq<string>, e: Event): Table
    requires |searchPath| <= INT_MAX && (e.Changed? ==> e.change.rank < |searchPath|)
  {
    if e.Changed? then TableAfterFileChange(t, searchPath, e.change) else t
  }

  ghost predicate NoCollisions(s: Settings, t: Table, index: Index)
    requires Resolvable(t, index)
  {
    forall a, b :: !Collide(s, t, index, a, b)
  }

  ghost predicate CountsBelow(h: History, bound: int) {
    forall e <- h :: e.count <= bound
  }

  class CommandRetrievalLoop {
    const appm: AppManager
    const mapping: NameToAppMapping
    const hist: FormattedHistoryManager
    const searchPath: seq<string>
    const noExec: bool
    /** The raw names whose lines the formatted history holds. */
    ghost var historyNames: seq<string>
    /** The last update and the names counted since. */
    ghost var moment: Moment

    function Configuration(): Config
      reads hist
    {
      Config(mapping.settings, noExec, hist.removeObsoleteEntries, searchPath)
    }

    ghost predicate Valid()
      reads this, appm, mapping, hist, hist.hist
    {
      var s, t, index := mapping.settings, appm.applications, appm.nameAppMapping;
      && |searchPath| <= INT_MAX
      && appm.Valid() && hist.hist.Valid()
      && mapping.rawMapping == index
      && Shows(s, mapping.mapping, t, index)
      && NoCollisions(s, t, index)
      && Distinct(historyNames)
      && (forall name <- historyNames :: name in index && Included(s, index, name))
      && hist.formattedHistory == LinesOf(s, t, index, historyNames)
    }

    /** The formatted history and the history are those of the moment. */
    ghost predicate Remembers()
      reads this, appm, hist, hist.hist
    {
      && appm.nameAppMapping == moment.index && Sorted(moment.base) && UniqueNames(moment.base)
      && historyNames == HeadNames(Configuration(), moment)
      && hist.hist.history == HistoryAt(Configuration(), moment)
    }

    constructor (appm: AppManager, mapping: NameToAppMapping, hist: FormattedHistoryManager,
                 searchPath: seq<string>, noExec: bool)
      requires |searchPath| <= INT_MAX
      ensures this.appm == appm && this.mapping == mapping && this.hist == hist
      ensures this.searchPath == searchPath && this.noExec == noExec
    {
      this.appm, this.mapping, this.hist := appm, mapping, hist;
      this.searchPath, this.noExec := searchPath, noExec;
      historyNames, moment := [], Moment(map[], [], []);
    }

    /** `update_mapping`: load the mapping and reload the history against it. */
    method UpdateMapping() returns (aborted: bool)
      requires |searchPath| <= INT_MAX && appm.Valid() && hist.hist.Valid()
      modifies this, mapping, hist, hist.hist
      ensures Resolvable(appm.applications, appm.nameAppMapping)
      ensures aborted <==> !NoCollisions(mapping.settings, appm.applications, appm.nameAppMapping)
      ensures !aborted ==> Valid() && Remembers()
      ensures !aborted ==> moment == Moment(appm.nameAppMapping, old(hist.hist.history), [])
      ensures !aborted ==>
                var h, index, prune := old(hist.hist.history), appm.nameAppMapping, hist.removeObsoleteEntries;
                && hist.hist.history == Survivors(h, index, prune, |h|)
                && historyNames == DisplayedNames(h, mapping.settings, index, prune, 0)
    {
      aborted := mapping.Load(appm);
      if !aborted {
        ghost var h := hist.hist.history;
        ReloadKeepsOrder(h, 0, hist.removeObsoleteEntries, mapping.settings, mapping.rawMapping);
        ReloadedIs(h, hist.removeObsoleteEntries, mapping.settings, mapping.rawMapping);
        ghost var names := hist.Reload(mapping, appm);
        InOrderIsDistinct(names, h);
        historyNames, moment := names, Moment(appm.nameAppMapping, h, []);
      }
    }

    /** The treatment of one reported change in `do_wait_on`. */
    method ProcessChange(c: FileChange) returns (aborted: bool)
      requires Valid() && c.rank < |searchPath|
      modifies this, appm, mapping, hist, hist.hist
      ensures !aborted ==> Valid() && appm.applications == TableAfterFileChange(old(appm.applications), searchPath, c)
      ensures IsDesktopFile(c) && ChangeAborts(old(appm.applications), ToChange(searchPath, c)) ==> aborted
      ensures IsDesktopFile(c) && !ChangeAborts(old(appm.applications), ToChange(searchPath, c)) ==>
                && appm.applications == TableAfterFileChange(old(appm.applications), searchPath, c)
                && appm.Valid() && Resolvable(appm.applications, appm.nameAppMapping)
                && (aborted <==> !NoCollisions(mapping.settings, appm.applications, appm.nameAppMapping))
      ensures !aborted && EndsWith(c.name, ".desktop") && c.status.Modified? ==>
                appm.applications
                == AddToTable(old(appm.applications), FileEvent(DashesForSlashes(c.name), c.rank, c.status.parsed))
      ensures !aborted && EndsWith(c.name, ".desktop") && c.status.Deleted? ==>
                appm.applications == AppManagers.Without(old(appm.applications), DashesForSlashes(c.name))
      ensures !aborted && !EndsWith(c.name, ".desktop") ==> appm.applications == old(appm.applications)
      ensures aborted ==> AbortIsDue(old(appm.applications), c)
      ensures !aborted ==>
                && hist.hist.history == HistoryAfterChange(old(hist.hist.history), c, appm.nameAppMapping,
                                                           hist.removeObsoleteEntries)
                && historyNames == NamesAfterChange(Configuration(), old(historyNames), old(hist.hist.history), c,
                                                    appm.nameAppMapping)
                && moment == MomentAfterChange(old(moment), old(hist.hist.history), c, appm.nameAppMapping)
                && (!IsDesktopFile(c) ==> appm.nameAppMapping == old(appm.nameAppMapping))
                && forall e <- hist.hist.history :: e in old(hist.hist.history)
    {
      if !IsDesktopFile(c) {
        return false;
      }
      aborted := appm.Apply(ToChange(searchPath, c));
      if aborted {
        return;
      }
      ghost var h := hist.hist.history;
      aborted := UpdateMapping();
      if aborted {
        CollisionsNeedInsensitivity(mapping.settings, appm.applications, appm.nameAppMapping);
      } else {
        SurvivorsAre(h, appm.nameAppMapping, hist.removeObsoleteEntries, |h|);
      }
    }

    /**
     The reasons for which a change ends the program: AppManager cannot make it or, in case-insensitive mode, it
     has brought two names together.
     */
    ghost predicate AbortIsDue(t: Table, c: FileChange)
      requires c.rank < |searchPath| <= INT_MAX
      reads mapping, appm
    {
      && IsDesktopFile(c)
      && (ChangeAborts(t, ToChange(searchPath, c))
          || (&& mapping.settings.caseInsensitive
              && appm.applications == TableAfterFileChange(t, searchPath, c) && appm.Valid()
              && Resolvable(appm.applications, appm.nameAppMapping)
              && !NoCollisions(mapping.settings, appm.applications, appm.nameAppMapping)))
    }

    /** `do_dmenu` up to reading the choice: the abort is not reached. */
    method ShowMenu() returns (lines: seq<string>)
      requires Valid()
      ensures IsMenu(lines, Lines(mapping.mapping), mapping.settings.caseInsensitive, hist.formattedHistory)
      ensures MenuIsRight(mapping.settings, appm.applications, appm.nameAppMapping, historyNames, lines)
    {
      ghost var s, t, index := mapping.settings, appm.applications, appm.nameAppMapping;
      var keys := Lines(mapping.mapping);
      HistoryLinesAreKeys(s, t, index, mapping.mapping, historyNames);
      var output := WriteMenu(mapping.settings.caseInsensitive, keys, hist.formattedHistory);
      lines := output.value;
    }

    /** `prompt_user_for_choice` when the user answers the menu with `choice`, which may be empty. */
    method Prompt(choice: string) returns (menu: seq<string>, r: Option<Command>, ghost picked: Option<string>)
      requires Valid() && CountsBelow(hist.hist.history, INT_MAX - 1)
      modifies this, hist.hist
      ensures Valid()
      ensures MenuIsRight(mapping.settings, appm.applications, appm.nameAppMapping, historyNames, menu)
      ensures ChoiceIsRight(mapping.settings, appm.applications, appm.nameAppMapping, noExec, choice, r, picked)
      ensures moment == CountIn(old(moment), picked) && historyNames == old(historyNames)
      ensures hist.hist.history == if picked.Some? then Incremented(old(hist.hist.history), picked.value)
                                   else old(hist.hist.history)
      ensures picked.Some? ==> hist.hist.file == FileText(hist.hist.history)
    {
      menu := ShowMenu();
      if choice == "" {
        EmptyChoiceIsRight(mapping.settings, appm.applications, appm.nameAppMapping, noExec);
        return menu, None, None;
      }
      var command;
      command, picked := Answer(choice);
      r := Some(command);
    }

    /** Looking the choice up. */
    method Answer(choice: string) returns (command: Command, ghost picked: Option<string>)
      requires Valid() && CountsBelow(hist.hist.history, INT_MAX - 1) && choice != ""
      modifies this, hist.hist
      ensures Valid()
      ensures ChoiceIsRight(mapping.settings, appm.applications, appm.nameAppMapping, noExec, choice, Some(command),
                            picked)
      ensures moment == CountIn(old(moment), picked) && historyNames == old(historyNames)
      ensures hist.hist.history == if picked.Some? then Incremented(old(hist.hist.history), picked.value)
                                   else old(hist.hist.history)
      ensures picked.Some? ==> hist.hist.file == FileText(hist.hist.history)
    {
      ghost var s, t, index := mapping.settings, appm.applications, appm.nameAppMapping;
      var lookup := LookupName(mapping.settings.caseInsensitive, mapping.mapping, choice);
      LookupIsLive(s, t, index, mapping.mapping, choice, lookup);
      LookupIsRight(s, t, index, mapping.mapping, noExec, choice, lookup);
      command, picked := Resolve(lookup);
    }

    /** The end of `prompt_user_for_choice`: count the name and hand on the command. */
    method Resolve(lookup: Lookup) returns (command: Command, ghost picked: Option<string>)
      requires Valid() && CountsBelow(hist.hist.history, INT_MAX - 1)
      requires lookup.AppLookup? ==> IsLive(appm.applications, lookup.app)
      modifies this, hist.hist
      ensures Valid()
      ensures command == CommandOf(lookup) && picked == CountedName(appm.applications, lookup, noExec)
      ensures moment == CountIn(old(moment), picked) && historyNames == old(historyNames)
      ensures hist.hist.history == if picked.Some? then Incremented(old(hist.hist.history), picked.value)
                                   else old(hist.hist.history)
      ensures picked.Some? ==> hist.hist.file == FileText(hist.hist.history)
    {
      picked := None;
      match lookup
      case CommandLookup(rawCommand) =>
        command := CustomCommand(rawCommand);
      case AppLookup(id, isGeneric, args) =>
        var app := appm.applications[id].app.value;
        if !noExec {
          var name := if isGeneric then app.genericName else app.name;
          picked := Some(name);
          CountIsBelow(hist.hist.history, name, INT_MAX - 1);
          hist.hist.Increment(name);
          moment := CountIn(moment, picked);
        }
        command := DesktopCommand(id, args);
    }

    /** One event; `picked` is the name that was counted. */
    method HandleEvent(e: Event, ghost bound: nat)
      returns (aborted: bool, outcome: Outcome, ghost picked: Option<string>)
      requires Valid() && (e.Changed? ==> e.change.rank < |searchPath|)
      requires bound < INT_MAX && CountsBelow(hist.hist.history, bound)
      modifies this, appm, mapping, hist, hist.hist
      ensures aborted ==> e.Changed? && AbortIsDue(old(appm.applications), e.change)
      ensures !aborted ==> Valid() && CountsBelow(hist.hist.history, bound + 1)
      ensures !aborted ==> appm.applications == TableAfterEvent(old(appm.applications), searchPath, e)
      ensures !aborted ==> StepIsRight(mapping.settings, old(appm.applications), old(appm.nameAppMapping),
                                       old(historyNames), noExec, e, outcome, picked)
      ensures !aborted ==>
                StepLeads(Configuration(), old(appm.nameAppMapping), old(hist.hist.history), old(historyNames),
                          old(moment), e, picked, appm.nameAppMapping, hist.hist.history, historyNames, moment)
    {
      ghost var h := hist.hist.history;
      ExactIsResolvable(appm.applications, appm.nameAppMapping);
      match e
      case Changed(c) =>
        outcome, picked := Updated, None;
        aborted := ProcessChange(c);
      case Chosen(choice) =>
        aborted := false;
        var menu, command;
        menu, command, picked := Prompt(choice);
        outcome := Prompted(menu, command);
        if picked.Some? {
          IncrementedCountsBelow(h, picked.value, bound);
        }
    }

    /** The state after `events`, begun with this table and moment. */
    ghost predicate After(t: Table, m: Moment, events: seq<Event>, outcomes: seq<Outcome>, trace: Trace)
      requires RanksFit(searchPath, events)
      reads this, appm, mapping, hist, hist.hist
    {
      && Valid() && Remembers()
      && TraceOf(Configuration(), t, m, events, outcomes, trace)
      && appm.applications == TableAfterEvents(t, searchPath, events)
      && moment == trace.moments[|events|]
    }

    /** One iteration of the loop. */
    method Advance(e: Event, outcomes: seq<Outcome>, ghost t: Table, ghost m: Moment, ghost events: seq<Event>,
                   ghost trace: Trace, ghost bound: nat)
      returns (aborted: bool, outcomes': seq<Outcome>, ghost trace': Trace)
      requires RanksFit(searchPath, events) && RanksFit(searchPath, events + [e])
      requires e.Changed? ==> e.change.rank < |searchPath|
      requires After(t, m, events, outcomes, trace)
      requires bound < INT_MAX && CountsBelow(hist.hist.history, bound)
      modifies this, appm, mapping, hist, hist.hist
      ensures aborted ==> e.Changed? && AbortIsDue(TableAfterEvents(t, searchPath, events), e.change)
      ensures aborted ==> outcomes' == outcomes && trace' == trace
      ensures !aborted ==>
                After(t, m, events + [e], outcomes', trace') && CountsBelow(hist.hist.history, bound + 1)
    {
      outcomes', trace' := outcomes, trace;
      var outcome: Outcome;
      ghost var picked: Option<string>;
      ghost var c, index, h, names := Configuration(), appm.nameAppMapping, hist.hist.history, historyNames;
      ghost var before := moment;
      assert MomentIsRight(c, appm.applications, before);
      aborted, outcome, picked := HandleEvent(e, bound);
      if !aborted {
        StepKeepsMoment(c, index, h, names, before, e, picked, appm.nameAppMapping, hist.hist.history, historyNames,
                        moment);
        TraceGrows(Configuration(), t, m, events, outcomes, trace, e, outcome, picked, appm.nameAppMapping);
        TableGrows(t, searchPath, events, e);
        outcomes', trace' := outcomes + [outcome], Trace(trace.picks + [picked], trace.moments + [moment]);
      }
    }

    /**
     Any run of changes and choices. Every menu, every command and every counted name is the right one for the table
     and the moment that its event found. The run stops early only at a change that AppManager cannot make or, in
     case-insensitive mode, at one that brings two names together.
     */
    method RunEvents(events: seq<Event>)
      returns (done: nat, outcomes: seq<Outcome>, ghost trace: Trace, ghost handled: seq<Event>)
      requires Valid() && Remembers() && RanksFit(searchPath, events)
      requires |events| <= INT_MAX && CountsBelow(hist.hist.history, INT_MAX - |events|)
      modifies this, appm, mapping, hist, hist.hist
      ensures done <= |events| && handled == events[..done] && RanksFit(searchPath, handled)
      ensures TraceOf(Configuration(), old(appm.applications), old(moment), handled, outcomes, trace)
      ensures done == |events| ==> After(old(appm.applications), old(moment), handled, outcomes, trace)
      ensures done < |events| ==>
                && events[done].Changed?
                && AbortIsDue(TableAfterEvents(old(appm.applications), searchPath, handled), events[done].change)
    {
      ghost var t, m := appm.applications, moment;
      StartsAfterNothing();
      done, outcomes, trace, handled := 0, [], Trace([], [m]), [];
      while done < |events|
        invariant 0 <= done <= |events| && handled == events[..done] && RanksFit(searchPath, handled)
        invariant After(t, m, handled, outcomes, trace)
        invariant CountsBelow(hist.hist.history, INT_MAX - (|events| - done))
      {
        OneMoreEvent(searchPath, events, handled, done);
        var aborted;
        aborted, outcomes, trace := Advance(events[done], outcomes, t, m, handled, trace,
                                            INT_MAX - (|events| - done));
        if aborted {
          return;
        }
        handled := handled + [events[done]];
        done := done + 1;
      }
    }

    lemma StartsAfterNothing()
      requires Valid() && Remembers()
      ensures After(appm.applications, moment, [], [], Trace([], [moment]))
    {
    }

    /**
     The same, and after a whole run the history is the result of the counted names and of the prunings; a restart
     would find it again exactly if every name can be stored.
     */
    method Run(events: seq<Event>) returns (done: nat, outcomes: seq<Outcome>, ghost trace: Trace)
      requires Valid() && Remembers() && RanksFit(searchPath, events)
      requires |events| <= INT_MAX && CountsBelow(hist.hist.history, INT_MAX - |events|)
      modifies this, appm, mapping, hist, hist.hist
      ensures done <= |events|
      ensures TraceOf(Configuration(), old(appm.applications), old(moment), events[..done], outcomes, trace)
      ensures done == |events| ==>
                && After(old(appm.applications), old(moment), events, outcomes, trace)
                && hist.hist.history == HistoryAfter(old(hist.hist.history), events, trace, hist.removeObsoleteEntries)
                && (!hist.removeObsoleteEntries ==>
                      hist.hist.history == AfterRun(old(hist.hist.history), CountedNames(trace.picks)))
                && (Open(hist.hist.file) == Some(hist.hist.history)
                    <==> forall e <- hist.hist.history :: Storable(e.name))
      ensures done < |events| ==>
                && events[done].Changed?
                && AbortIsDue(TableAfterEvents(old(appm.applications), searchPath, events[..done]), events[done].change)
    {
      ghost var t, m, h := appm.applications, moment, hist.hist.history;
      ghost var handled;
      done, outcomes, trace, handled := RunEvents(events);
      if done == |events| {
        assert handled == events;
        FinishedRun(t, m, h, events, outcomes, trace);
      }
    }

    /** What the state after a whole run says about the history and its file. */
    lemma FinishedRun(t: Table, m: Moment, h: History, events: seq<Event>, outcomes: seq<Outcome>, trace: Trace)
      requires RanksFit(searchPath, events) && After(t, m, events, outcomes, trace)
      requires h == HistoryAt(Configuration(), m)
      ensures hist.hist.history == HistoryAfter(h, events, trace, hist.removeObsoleteEntries)
      ensures !hist.removeObsoleteEntries ==> hist.hist.history == AfterRun(h, CountedNames(trace.picks))
      ensures Open(hist.hist.file) == Some(hist.hist.history) <==> forall e <- hist.hist.history :: Storable(e.name)
    {
      TraceFollows(Configuration(), t, m, events, outcomes, trace);
      HistoryOfRun(Configuration(), events, trace);
      SavedHistoryReopens(hist.hist.history, hist.hist.file);
    }
  }

  // ------------------------------------------------------------------------------------------
  // What a run does
  // ------------------------------------------------------------------------------------------

  function CommandOf(l: Lookup): Command {
    match l
    case AppLookup(app, _, args) => DesktopCommand(app, args)
    case CommandLookup(command) => CustomCommand(command)
  }

  /** The name that the history counts for a lookup. */
  function CountedName(t: Table, l: Lookup, noExec: bool): Option<string> {
    if noExec || l.CommandLookup? || !IsLive(t, l.app) then None
    else Some(FoundName(t, l.app, l.isGeneric))
  }

  predicate IsLive(t: Table, id: string) {
    id in t && t[id].app.Some?
  }

  lemma LookupIsLive(s: Settings, t: Table, index: Index, items: seq<Item>, choice: string, l: Lookup)
    requires Exact(t, index) && Shows(s, items, t, index) && Answers(l, s.caseInsensitive, items, choice)
    ensures l.AppLookup? ==> IsLive(t, l.app)
  {
    LookupFindsDisplayedName(s, t, index, items, choice, l);
  }

  /** The lookup answers the choice in the mapping of this table and index. */
  ghost predicate Possible(l: Lookup, s: Settings, t: Table, index: Index, choice: string) {
    exists items :: Shows(s, items, t, index) && Answers(l, s.caseInsensitive, items, choice)
  }

  ghost predicate Answered(s: Settings, t: Table, index: Index, noExec: bool, choice: string,
                           command: Option<Command>, picked: Option<string>)
  {
    if choice == "" then command.None? && picked.None?
    else exists l :: && Possible(l, s, t, index, choice)
                     && command == Some(CommandOf(l)) && picked == CountedName(t, l, noExec)
  }

  /** The choice is the displayed line of the name, up to case in case-insensitive mode. */
  ghost predicate Matches(s: Settings, t: Table, index: Index, name: string, choice: string)
    requires Resolvable(t, index)
  {
    Included(s, index, name) && Key(s.caseInsensitive, LineOf(s, t, index, name)) == Key(s.caseInsensitive, choice)
  }

  /** The choice begins with the displayed line of the name. */
  ghost predicate Extends(s: Settings, t: Table, index: Index, name: string, choice: string)
    requires Resolvable(t, index)
  {
    Included(s, index, name) && StartsWith(choice, LineOf(s, t, index, name))
  }

  ghost predicate ExtendsShortest(s: Settings, t: Table, index: Index, name: string, choice: string)
    requires Resolvable(t, index)
  {
    && Extends(s, t, index, name, choice)
    && forall other | Extends(s, t, index, other, choice) ::
         |LineOf(s, t, index, name)| <= |LineOf(s, t, index, other)|
  }

  ghost predicate NoneMatches(s: Settings, t: Table, index: Index, choice: string)
    requires Resolvable(t, index)
  {
    forall name :: !Matches(s, t, index, name, choice)
  }

  function Counted(name: string, noExec: bool): Option<string> {
    if noExec then None else Some(name)
  }

  /**
   What a choice leads to, in the mapping of this table and index. A choice that is a displayed line runs that name's
   application without arguments. Otherwise the shortest displayed line that the choice begins with runs its
   application with exactly the rest as arguments. Otherwise the choice is a command. The name that was found is
   counted. An application that is run is live and populated, and only a displayed name is ever counted.
   */
  ghost predicate ChoiceIsRight(s: Settings, t: Table, index: Index, noExec: bool, choice: string,
                                command: Option<Command>, picked: Option<string>)
  {
    && Resolvable(t, index)
    && Answered(s, t, index, noExec, choice, command, picked)
    && (choice == "" ==> command.None? && picked.None?)
    && (forall name | Matches(s, t, index, name, choice) ::
          command == Some(DesktopCommand(index[name].app, "")) && picked == Counted(name, noExec))
    && (choice != "" && NoneMatches(s, t, index, choice) ==>
          && (forall name | ExtendsShortest(s, t, index, name, choice) ::
                && command == Some(DesktopCommand(index[name].app, choice[|LineOf(s, t, index, name)|..]))
                && picked == Counted(name, noExec))
          && ((forall name :: !Extends(s, t, index, name, choice)) ==>
                command == Some(CustomCommand(choice)) && picked.None?))
    && (command.Some? && command.value.DesktopCommand? ==> IsLive(t, command.value.app))
    && (picked.Some? ==> Included(s, index, picked.value))
  }

  lemma EmptyChoiceIsRight(s: Settings, t: Table, index: Index, noExec: bool)
    requires Exact(t, index) && Resolvable(t, index)
    ensures ChoiceIsRight(s, t, index, noExec, "", None, None)
  {
    NamesHaveLines(s, t, index);
    forall name ensures !Matches(s, t, index, name, "") {
      if Included(s, index, name) {
        assert |Key(s.caseInsensitive, LineOf(s, t, index, name))| == |LineOf(s, t, index, name)|;
      }
    }
  }

  lemma LookupIsRight(s: Settings, t: Table, index: Index, items: seq<Item>, noExec: bool, choice: string, l: Lookup)
    requires Exact(t, index) && Shows(s, items, t, index) && NoCollisions(s, t, index) && choice != ""
    requires Answers(l, s.caseInsensitive, items, choice)
    ensures ChoiceIsRight(s, t, index, noExec, choice, Some(CommandOf(l)), CountedName(t, l, noExec))
  {
    LookupFindsDisplayedName(s, t, index, items, choice, l);
    LookupAnswers(s, t, index, items, noExec, choice, l);
    forall name | Matches(s, t, index, name, choice)
      ensures CommandOf(l) == DesktopCommand(index[name].app, "") && CountedName(t, l, noExec) == Counted(name, noExec)
    {
      LookupOfDisplayedLine(s, t, index, items, choice, l, name);
      FoundNameIsKey(t, index, name);
    }
    if NoneMatches(s, t, index, choice) {
      forall name | ExtendsShortest(s, t, index, name, choice)
        ensures CommandOf(l) == DesktopCommand(index[name].app, choice[|LineOf(s, t, index, name)|..])
        ensures CountedName(t, l, noExec) == Counted(name, noExec)
      {
        LookupOfExtendedLine(s, t, index, items, choice, l, name);
        FoundNameIsKey(t, index, name);
      }
      if forall name :: !Extends(s, t, index, name, choice) {
        LookupOfCommand(s, t, index, items, choice, l);
      }
    }
  }

  lemma LookupAnswers(s: Settings, t: Table, index: Index, items: seq<Item>, noExec: bool, choice: string, l: Lookup)
    requires Shows(s, items, t, index) && Answers(l, s.caseInsensitive, items, choice) && choice != ""
    ensures Answered(s, t, index, noExec, choice, Some(CommandOf(l)), CountedName(t, l, noExec))
  {
    assert Possible(l, s, t, index, choice);
  }

  lemma CollisionsNeedInsensitivity(s: Settings, t: Table, index: Index)
    requires Resolvable(t, index) && !NoCollisions(s, t, index)
    ensures s.caseInsensitive
  {
    if !s.caseInsensitive {
      forall a, b ensures !Collide(s, t, index, a, b) {
        CaseSensitiveNamesDoNotCollide(s, t, index, a, b);
      }
    }
  }

  // ---- moments ------------------------------------------------------------------------------

  /** What stays the same during a run. */
  datatype Config = Config(settings: Settings, noExec: bool, prune: bool, searchPath: seq<string>)

  /** The index, the history that the last update found, and the names counted since that update. */
  datatype Moment = Moment(index: Index, base: History, picks: seq<string>)

  /** The names whose lines the formatted history holds: it is only reloaded by an update. */
  function HeadNames(c: Config, m: Moment): seq<string> {
    DisplayedNames(m.base, c.settings, m.index, c.prune, 0)
  }

  /** What the last update left of the history. */
  function LeftByUpdate(c: Config, m: Moment): History {
    Survivors(m.base, m.index, c.prune, |m.base|)
  }

  function HistoryAt(c: Config, m: Moment): History {
    AfterRun(LeftByUpdate(c, m), m.picks)
  }

  function CountIn(m: Moment, picked: Option<string>): Moment {
    if picked.None? then m else m.(picks := m.picks + [picked.value])
  }

  function HistoryAfterChange(h: History, c: FileChange, index: Index, prune: bool): History {
    if IsDesktopFile(c) then Survivors(h, index, prune, |h|) else h
  }

  function NamesAfterChange(c: Config, names: seq<string>, h: History, change: FileChange, index: Index): seq<string> {
    if IsDesktopFile(change) then DisplayedNames(h, c.settings, index, c.prune, 0) else names
  }

  function MomentAfterChange(m: Moment, h: History, change: FileChange, index: Index): Moment {
    if IsDesktopFile(change) then Moment(index, h, []) else m
  }

  /** `index` is the one after the event. */
  function NextMoment(c: Config, m: Moment, e: Event, picked: Option<string>, index: Index): Moment {
    if e.Chosen? then CountIn(m, picked) else MomentAfterChange(m, HistoryAt(c, m), e.change, index)
  }

  /** What one event does to the index, the history, the displayed names and the moment. */
  ghost predicate StepLeads(c: Config, index: Index, h: History, names: seq<string>, m: Moment,
                            e: Event, picked: Option<string>,
                            index': Index, h': History, names': seq<string>, m': Moment)
  {
    match e
    case Changed(change) =>
      && picked.None?
      && (!IsDesktopFile(change) ==> index' == index)
      && h' == HistoryAfterChange(h, change, index', c.prune)
      && names' == NamesAfterChange(c, names, h, change, index')
      && m' == MomentAfterChange(m, h, change, index')
    case Chosen(_) =>
      && index' == index && names' == names && m' == CountIn(m, picked)
      && h' == if picked.Some? then Incremented(h, picked.value) else h
  }

  /** Such a step keeps the moment in line with what it stands for. */
  lemma StepKeepsMoment(c: Config, index: Index, h: History, names: seq<string>, m: Moment,
                        e: Event, picked: Option<string>,
                        index': Index, h': History, names': seq<string>, m': Moment)
    requires StepLeads(c, index, h, names, m, e, picked, index', h', names', m')
    requires Sorted(h) && UniqueNames(h) && Sorted(m.base) && UniqueNames(m.base)
    requires index == m.index && names == HeadNames(c, m) && h == HistoryAt(c, m)
    ensures index' == m'.index && names' == HeadNames(c, m') && h' == HistoryAt(c, m')
    ensures Sorted(m'.base) && UniqueNames(m'.base) && m' == NextMoment(c, m, e, picked, index')
  {
    if picked.Some? {
      CountingIsSound(c, m, picked.value);
    }
  }

  lemma InOrderIsDistinct(names: seq<string>, h: History)
    requires InHistoryOrder(names, h, 0)
    ensures Distinct(names)
  {
    assert forall p, q :: 0 <= p < q < |names| ==> IndexOfName(h, names[p]) < IndexOfName(h, names[q]);
  }

  lemma CountingIsSound(c: Config, m: Moment, name: string)
    ensures HistoryAt(c, CountIn(m, Some(name))) == Incremented(HistoryAt(c, m), name)
    ensures HeadNames(c, CountIn(m, Some(name))) == HeadNames(c, m)
  {
    AfterOneMore(LeftByUpdate(c, m), m.picks, name);
  }

  /** A menu: a permutation of the displayed lines, headed by the lines of these names. */
  ghost predicate MenuIsRight(s: Settings, t: Table, index: Index, names: seq<string>, menu: seq<string>) {
    && Resolvable(t, index)
    && (forall name <- names :: name in index)
    && exists items :: && Shows(s, items, t, index)
                       && IsMenu(menu, Lines(items), s.caseInsensitive, LinesOf(s, t, index, names))
  }

  /**
   The head of the menu is the present history, by frequency, if and only if it covers every displayable name that
   has been counted and no choice since the last update has made a name outrank one above it.
   */
  lemma MenuHeadIsPresentOrder(c: Config, m: Moment)
    requires Sorted(m.base) && UniqueNames(m.base)
    ensures HeadNames(c, m) == PresentNames(HistoryAt(c, m), c.settings, m.index)
            <==> && CoversCounted(HeadNames(c, m), LeftByUpdate(c, m), m.picks, c.settings, m.index)
                 && RankedNow(HeadNames(c, m), LeftByUpdate(c, m), m.picks)
  {
    DisplayedNamesSurvive(m.base, c.prune, c.settings, m.index);
    SurvivorsInOrder(m.base, m.index, c.prune, |m.base|);
    HeadIsPresentOrder(HeadNames(c, m), LeftByUpdate(c, m), m.picks, c.settings, m.index);
  }

  // ---- traces -------------------------------------------------------------------------------

  datatype Outcome = Updated | Prompted(menu: seq<string>, command: Option<Command>)

  /** A file change runs and counts nothing; a choice is offered the menu with these names ahead, and answered. */
  ghost predicate StepIsRight(s: Settings, t: Table, index: Index, names: seq<string>, noExec: bool, e: Event,
                              outcome: Outcome, picked: Option<string>)
  {
    && (e.Changed? ==> outcome.Updated? && picked.None?)
    && (e.Chosen? ==> && outcome.Prompted? && MenuIsRight(s, t, index, names, outcome.menu)
                      && ChoiceIsRight(s, t, index, noExec, e.choice, outcome.command, picked))
  }

  lemma OneMoreEvent(searchPath: seq<string>, events: seq<Event>, handled: seq<Event>, done: nat)
    requires RanksFit(searchPath, events) && done < |events| && handled == events[..done]
    ensures handled + [events[done]] == events[..done + 1] && RanksFit(searchPath, handled + [events[done]])
    ensures events[done].Changed? ==> events[done].change.rank < |searchPath|
  {
    assert events[done] in events;
  }

  lemma TableGrows(t: Table, searchPath: seq<string>, events: seq<Event>, e: Event)
    requires RanksFit(searchPath, events) && RanksFit(searchPath, events + [e])
    requires e.Changed? ==> e.change.rank < |searchPath|
    ensures TableAfterEvents(t, searchPath, events + [e])
         == TableAfterEvent(TableAfterEvents(t, searchPath, events), searchPath, e)
  {
    SplitConcat(events, [e]);
  }

  /** The counted names, and the moment before each event and after the last one. */
  datatype Trace = Trace(picks: seq<Option<string>>, moments: seq<Moment>)

  ghost predicate RanksFit(searchPath: seq<string>, events: seq<Event>) {
    |searchPath| <= INT_MAX && forall e <- events :: e.Changed? ==> e.change.rank < |searchPath|
  }

  /** A moment at which nothing has aborted. */
  ghost predicate MomentIsRight(c: Config, t: Table, m: Moment) {
    && Exact(t, m.index) && Sorted(m.base) && UniqueNames(m.base)
    && Resolvable(t, m.index) && NoCollisions(c.settings, t, m.index)
  }

  /** Event `i` was treated rightly, for the table and the moment that it found, and led to the next moment. */
  ghost predicate EventIsRight(c: Config, t: Table, events: seq<Event>, outcomes: seq<Outcome>, trace: Trace, i: nat)
    requires RanksFit(c.searchPath, events)
    requires i < |events| == |outcomes| == |trace.picks| && |trace.moments| == |events| + 1
  {
    var before, after := trace.moments[i], trace.moments[i + 1];
    && MomentIsRight(c, TableAfterEvents(t, c.searchPath, events[..i]), before)
    && StepIsRight(c.settings, TableAfterEvents(t, c.searchPath, events[..i]), before.index, HeadNames(c, before),
                   c.noExec, events[i], outcomes[i], trace.picks[i])
    && after == NextMoment(c, before, events[i], trace.picks[i], after.index)
  }

  ghost predicate TraceOf(c: Config, t: Table, m: Moment, events: seq<Event>, outcomes: seq<Outcome>, trace: Trace)
    requires RanksFit(c.searchPath, events)
  {
    && |events| == |outcomes| == |trace.picks| && |trace.moments| == |events| + 1
    && trace.moments[0] == m
    && forall i: nat | i < |events| :: EventIsRight(c, t, events, outcomes, trace, i)
  }

  lemma TraceGrows(c: Config, t: Table, m: Moment, events: seq<Event>, outcomes: seq<Outcome>, trace: Trace,
                   e: Event, outcome: Outcome, picked: Option<string>, index: Index)
    requires RanksFit(c.searchPath, events + [e]) && RanksFit(c.searchPath, events)
    requires TraceOf(c, t, m, events, outcomes, trace)
    requires MomentIsRight(c, TableAfterEvents(t, c.searchPath, events), trace.moments[|events|])
    requires StepIsRight(c.settings, TableAfterEvents(t, c.searchPath, events), trace.moments[|events|].index,
                         HeadNames(c, trace.moments[|events|]), c.noExec, e, outcome, picked)
    requires NextMoment(c, trace.moments[|events|], e, picked, index).index == index
    ensures TraceOf(c, t, m, events + [e], outcomes + [outcome],
                    Trace(trace.picks + [picked],
                          trace.moments + [NextMoment(c, trace.moments[|events|], e, picked, index)]))
  {
    var all, n := events + [e], |events|;
    var longer := Trace(trace.picks + [picked],
                        trace.moments + [NextMoment(c, trace.moments[n], e, picked, index)]);
    forall i: nat | i < |all| ensures EventIsRight(c, t, all, outcomes + [outcome], longer, i) {
      if i < n {
        assert EventIsRight(c, t, events, outcomes, trace, i);
        assert all[..i] == events[..i];
      } else {
        assert all[..i] == events;
      }
    }
  }

  // ---- the history of a run -----------------------------------------------------------------

  /** One event; `index` is the one after it. */
  function HistoryStep(h: History, e: Event, picked: Option<string>, index: Index, prune: bool): History {
    if e.Changed? then HistoryAfterChange(h, e.change, index, prune)
    else if picked.Some? then Incremented(h, picked.value)
    else h
  }

  function HistoryAfter(h: History, events: seq<Event>, trace: Trace, prune: bool): History
    requires |trace.picks| == |events| && |trace.moments| == |events| + 1
  {
    if events == [] then h
    else
      var n := |events| - 1;
      HistoryStep(HistoryAfter(h, events[..n], Trace(trace.picks[..n], trace.moments[..n + 1]), prune),
                  events[n], trace.picks[n], trace.moments[n + 1].index, prune)
  }

  lemma HistoryOfNextMoment(c: Config, m: Moment, e: Event, picked: Option<string>, index: Index)
    requires e.Changed? ==> picked.None?
    ensures HistoryAt(c, NextMoment(c, m, e, picked, index)) == HistoryStep(HistoryAt(c, m), e, picked, index, c.prune)
  {
    if picked.Some? {
      CountingIsSound(c, m, picked.value);
    }
  }

  predicate MomentFollows(c: Config, events: seq<Event>, trace: Trace, i: nat)
    requires i < |events| == |trace.picks| && |trace.moments| == |events| + 1
  {
    var after := trace.moments[i + 1];
    && after == NextMoment(c, trace.moments[i], events[i], trace.picks[i], after.index)
    && (events[i].Changed? ==> trace.picks[i].None?)
  }

  ghost predicate MomentsFollow(c: Config, events: seq<Event>, trace: Trace) {
    && |trace.picks| == |events| && |trace.moments| == |events| + 1
    && forall i: nat | i < |events| :: MomentFollows(c, events, trace, i)
  }

  lemma TraceFollows(c: Config, t: Table, m: Moment, events: seq<Event>, outcomes: seq<Outcome>, trace: Trace)
    requires RanksFit(c.searchPath, events) && TraceOf(c, t, m, events, outcomes, trace)
    ensures MomentsFollow(c, events, trace) && trace.moments[0] == m
  {
    forall i: nat | i < |events| ensures MomentFollows(c, events, trace, i) {
      assert EventIsRight(c, t, events, outcomes, trace, i);
    }
  }

  lemma MomentsBefore(c: Config, events: seq<Event>, trace: Trace)
    requires events != [] && MomentsFollow(c, events, trace)
    ensures var n := |events| - 1;
            MomentsFollow(c, events[..n], Trace(trace.picks[..n], trace.moments[..n + 1]))
  {
    var n := |events| - 1;
    var init, shorter := events[..n], Trace(trace.picks[..n], trace.moments[..n + 1]);
    forall i: nat | i < n ensures MomentFollows(c, init, shorter, i) {
      assert MomentFollows(c, events, trace, i);
    }
  }

  /** The moments of a trace carry the history, step by step. */
  lemma {:induction false} HistoryOfMoments(c: Config, events: seq<Event>, trace: Trace)
    requires MomentsFollow(c, events, trace)
    ensures HistoryAt(c, trace.moments[|events|])
         == HistoryAfter(HistoryAt(c, trace.moments[0]), events, trace, c.prune)
  {
    if events != [] {
      var n := |events| - 1;
      MomentsBefore(c, events, trace);
      HistoryOfMoments(c, events[..n], Trace(trace.picks[..n], trace.moments[..n + 1]));
      assert MomentFollows(c, events, trace, n);
      HistoryOfNextMoment(c, trace.moments[n], events[n], trace.picks[n], trace.moments[n + 1].index);
    }
  }

  lemma HistoryOfRun(c: Config, events: seq<Event>, trace: Trace)
    requires MomentsFollow(c, events, trace)
    ensures var h, h' := HistoryAt(c, trace.moments[0]), HistoryAt(c, trace.moments[|events|]);
            && h' == HistoryAfter(h, events, trace, c.prune)
            && (!c.prune ==> h' == AfterRun(h, CountedNames(trace.picks)))
  {
    HistoryOfMoments(c, events, trace);
    if !c.prune {
      forall i: nat | i < |events| && events[i].Changed? ensures trace.picks[i].None? {
        assert MomentFollows(c, events, trace, i);
      }
      WithoutPruningChoicesCount(HistoryAt(c, trace.moments[0]), events, trace);
    }
  }

  function CountedNames(picks: seq<Option<string>>): seq<string> {
    if picks == [] then []
    else
      var n := |picks| - 1;
      CountedNames(picks[..n]) + if picks[n].Some? then [picks[n].value] else []
  }

  /** Without pruning the history is that of the counted names alone, in the order of their events. */
  lemma {:induction false} WithoutPruningChoicesCount(h: History, events: seq<Event>, trace: Trace)
    requires |trace.picks| == |events| && |trace.moments| == |events| + 1
    requires forall i :: 0 <= i < |events| && events[i].Changed? ==> trace.picks[i].None?
    ensures HistoryAfter(h, events, trace, false) == AfterRun(h, CountedNames(trace.picks))
  {
    if events != [] {
      var n := |events| - 1;
      var before := Trace(trace.picks[..n], trace.moments[..n + 1]);
      WithoutPruningChoicesCount(h, events[..n], before);
      var earlier := HistoryAfter(h, events[..n], before, false);
      WithoutPruningAllSurvive(earlier, trace.moments[n + 1].index, |earlier|);
      if trace.picks[n].Some? {
        AfterOneMore(h, CountedNames(before.picks), trace.picks[n].value);
      } else {
        Neutral(CountedNames(before.picks));
      }
    }
  }

  /** A Name that a desktop file can have and no line of the history file can: it contains a newline. */
  lemma SomeNamesCannotBeStored()
    ensures DesktopEntries.Unescaped("a\\nb") == Some("a\nb")
    ensures Sorted([Entry(1, "a\nb")]) && Open(FileText([Entry(1, "a\nb")])) != Some([Entry(1, "a\nb")])
  {
    DesktopEntries.NamesMayHaveNewlines();
    assert "a\nb"[1] == '\n';
    UnstorableIsLost([Entry(1, "a\nb")], Entry(1, "a\nb"));
  }

  lemma UnstorableIsLost(h: History, e: Entry)
    requires Sorted(h) && CountsFit(h) && e in h && !Storable(e.name)
    ensures Open(FileText(h)) != Some(h)
  {
    FileRoundTrip(h);
  }

  lemma AfterOneMore(h: History, names: seq<string>, name: string)
    ensures AfterRun(h, names + [name]) == Incremented(AfterRun(h, names), name)
  {
    SplitConcat(names, [name]);
  }

  // ---- the table after any run --------------------------------------------------------------

  /** The files that have been reported for a desktop ID since its last deletion, after those that were there before. */
  function Reported(before: seq<FileEvent>, events: seq<Event>, id: string): seq<FileEvent>
    requires forall e <- events :: e.Changed? ==> e.change.rank < INT_MAX
  {
    if events == [] then before
    else
      var n := |events| - 1;
      var earlier, e := Reported(before, events[..n], id), events[n];
      if e.Chosen? || !EndsWith(e.change.name, ".desktop") || DashesForSlashes(e.change.name) != id then earlier
      else if e.change.status.Deleted? then []
      else earlier + [FileEvent(id, e.change.rank, e.change.status.parsed)]
  }

  /**
   After any run every desktop ID is held by the file of lowest rank among those reported since its last deletion
   that could be read, the last one among equals, and by none if there is none.
   */
  lemma {:induction false} TableAfterRun(t: Table, searchPath: seq<string>, events: seq<Event>, id: string,
                                         before: seq<FileEvent>)
    requires RanksFit(searchPath, events) && Confluence.LastOfLowestHolds(t, before, id)
    ensures Confluence.LastOfLowestHolds(TableAfterEvents(t, searchPath, events), Reported(before, events, id), id)
  {
    if events != [] {
      var n := |events| - 1;
      var e, u := events[n], TableAfterEvents(t, searchPath, events[..n]);
      assert e in events;
      TableAfterRun(t, searchPath, events[..n], id, before);
      if e.Changed? && EndsWith(e.change.name, ".desktop") {
        ChangeOfOneId(u, Reported(before, events[..n], id), searchPath, e.change, id);
      }
    }
  }

  lemma ChangeOfOneId(t: Table, reported: seq<FileEvent>, searchPath: seq<string>, c: FileChange, id: string)
    requires c.rank < |searchPath| <= INT_MAX && IsDesktopFile(c)
    requires Confluence.LastOfLowestHolds(t, reported, id)
    ensures Confluence.LastOfLowestHolds(
              TableAfterFileChange(t, searchPath, c),
              if DashesForSlashes(c.name) != id then reported
              else if c.status.Deleted? then []
              else reported + [FileEvent(id, c.rank, c.status.parsed)],
              id)
  {
    var own := DashesForSlashes(c.name);
    if c.status.Modified? && own == id {
      Confluence.AddStepHoldsLast(t, reported, FileEvent(id, c.rank, c.status.parsed), id);
    }
  }

  ghost predicate AllNamesDiffer(t: Table) {
    forall id <- t :: t[id].app.Some? ==> Confluence.NamesDiffer(t[id].app.value)
  }

  /** The files that events bring have a GenericName other than their Name. */
  ghost predicate BringDifferentNames(events: seq<Event>) {
    forall e <- events :: e.Changed? && e.change.status.Modified? && e.change.status.parsed.Populated? ==>
                            Confluence.NamesDiffer(e.change.status.parsed.app)
  }

  /** While no application repeats its Name as its GenericName, no event of any run reaches AppManager's abort. */
  lemma {:induction false} EventsNeverAbort(t: Table, searchPath: seq<string>, events: seq<Event>, i: nat)
    requires |searchPath| <= INT_MAX && forall e <- events :: e.Changed? ==> e.change.rank < |searchPath|
    requires AllNamesDiffer(t) && BringDifferentNames(events) && i <= |events|
    ensures AllNamesDiffer(TableAfterEvents(t, searchPath, events[..i]))
    ensures i < |events| && events[i].Changed? ==>
              !ChangeAborts(TableAfterEvents(t, searchPath, events[..i]), ToChange(searchPath, events[i].change))
  {
    if i > 0 {
      EventsNeverAbort(t, searchPath, events, i - 1);
      assert events[i - 1] in events;
      assert events[..i] == events[..i - 1] + [events[i - 1]];
      TableGrows(t, searchPath, events[..i - 1], events[i - 1]);
      EventKeepsNamesDifferent(TableAfterEvents(t, searchPath, events[..i - 1]), searchPath, events[i - 1]);
    }
    if i < |events| && events[i].Changed? {
      assert events[i] in events;
      DifferentNamesDoNotAbort(TableAfterEvents(t, searchPath, events[..i]), ToChange(searchPath, events[i].change));
    }
  }

  lemma EventKeepsNamesDifferent(t: Table, searchPath: seq<string>, e: Event)
    requires |searchPath| <= INT_MAX && (e.Changed? ==> e.change.rank < |searchPath|)
    requires AllNamesDiffer(t) && BringDifferentNames([e])
    ensures AllNamesDiffer(TableAfterEvent(t, searchPath, e))
  {
    assert e in [e];
  }

  lemma DifferentNamesDoNotAbort(t: Table, c: Change)
    requires AllNamesDiffer(t)
    ensures !ChangeAborts(t, c)
  {
  }

  lemma CountIsBelow(h: History, name: string, bound: int)
    requires CountsBelow(h, bound) && 0 <= bound
    ensures CountOf(h, name) <= bound
  {
    var i := IndexOfName(h, name);
    assert i < |h| ==> h[i] in h;
  }

  lemma IncrementedCountsBelow(h: History, name: string, bound: int)
    requires UniqueNames(h) && CountsBelow(h, bound) && 0 <= bound
    ensures CountsBelow(Incremented(h, name), bound + 1)
  {
    EntriesWithout(h, name);
    EntriesAfterInsert(WithoutName(h, name), Entry(CountOf(h, name) + 1, name));
    CountIsBelow(h, name, bound);
  }

  /** The lines of distinct displayed names are distinct keys of the mapping. */
  lemma HistoryLinesAreKeys(s: Settings, t: Table, index: Index, items: seq<Item>, names: seq<string>)
    requires Shows(s, items, t, index) && NoCollisions(s, t, index) && Distinct(names)
    requires forall name <- names :: name in index && Included(s, index, name)
    ensures Distinct(LinesOf(s, t, index, names))
    ensures forall line <- LinesOf(s, t, index, names) :: line in Lines(items)
  {
    var lines := LinesOf(s, t, index, names);
    forall i, j | 0 <= i < j < |lines| ensures lines[i] != lines[j] {
      assert names[i] in names && names[j] in names;
      assert !Collide(s, t, index, names[i], names[j]);
    }
    forall line <- lines ensures line in Lines(items) {
      var i :| 0 <= i < |lines| && lines[i] == line;
      assert names[i] in names;
      var item := ItemOf(s, t, index, names[i]);
      var k :| 0 <= k < |items| && items[k] == item;
      assert Lines(items)[k] == line;
    }
  }

  /** A displayed name is not empty, so its line is not either. */
  lemma NamesHaveLines(s: Settings, t: Table, index: Index)
    requires Exact(t, index) && Resolvable(t, index)
    ensures forall name <- index :: LineOf(s, t, index, name) != ""
  {
    forall name <- index ensures LineOf(s, t, index, name) != "" {
      assert RightAbout(t, index, name);
    }
  }

  /** The name under which an application was found. */
  function FoundName(t: Table, id: string, isGeneric: bool): string
    requires id in t && t[id].app.Some?
  {
    if isGeneric then t[id].app.value.genericName else t[id].app.value.name
  }

  lemma FoundNameIsKey(t: Table, index: Index, name: string)
    requires Exact(t, index) && name in index
    ensures index[name].app in t && t[index[name].app].app.Some?
    ensures FoundName(t, index[name].app, index[name].isGeneric) == name
  {
    assert RightAbout(t, index, name);
  }

  /** A lookup of a displayed line finds its own name. */
  lemma LookupOfDisplayedLine(s: Settings, t: Table, index: Index, items: seq<Item>, query: string, r: Lookup,
                              name: string)
    requires Exact(t, index) && Shows(s, items, t, index) && NoCollisions(s, t, index)
    requires Answers(r, s.caseInsensitive, items, query)
    requires Matches(s, t, index, name, query)
    ensures r == AppLookup(index[name].app, index[name].isGeneric, "")
  {
    var ci := s.caseInsensitive;
    assert ItemOf(s, t, index, name) in items;
    var item :| item in items && Key(ci, item.line) == Key(ci, query) && r == AppLookup(item.app, item.isGeneric, "");
    var other :| Included(s, index, other) && item == ItemOf(s, t, index, other);
    assert !Collide(s, t, index, name, other);
  }

  lemma NoItemMatches(s: Settings, t: Table, index: Index, items: seq<Item>, query: string)
    requires Shows(s, items, t, index) && NoneMatches(s, t, index, query)
    ensures forall item <- items :: Key(s.caseInsensitive, item.line) != Key(s.caseInsensitive, query)
  {
    forall item <- items ensures Key(s.caseInsensitive, item.line) != Key(s.caseInsensitive, query) {
      var name :| Included(s, index, name) && item == ItemOf(s, t, index, name);
      assert !Matches(s, t, index, name, query);
    }
  }

  /** Failing that, a lookup finds the shortest line that the query extends. */
  lemma LookupOfExtendedLine(s: Settings, t: Table, index: Index, items: seq<Item>, query: string, r: Lookup,
                             name: string)
    requires Exact(t, index) && Shows(s, items, t, index) && NoCollisions(s, t, index)
    requires Answers(r, s.caseInsensitive, items, query) && NoneMatches(s, t, index, query)
    requires ExtendsShortest(s, t, index, name, query)
    ensures r == AppLookup(index[name].app, index[name].isGeneric, query[|LineOf(s, t, index, name)|..])
  {
    NoItemMatches(s, t, index, items, query);
    var line := LineOf(s, t, index, name);
    var k: nat :| k < |items| && items[k] == ItemOf(s, t, index, name);
    assert IsPrefix(items, k, query);
    var i: nat :| && IsPrefix(items, i, query)
                  && r == AppLookup(items[i].app, items[i].isGeneric, query[|items[i].line|..])
                  && forall j: nat :: IsPrefix(items, j, query) ==> |items[i].line| <= |items[j].line|;
    assert items[i] in items;
    var other :| Included(s, index, other) && items[i] == ItemOf(s, t, index, other);
    OneShortest(s, t, index, name, other, query);
  }

  lemma OneShortest(s: Settings, t: Table, index: Index, name: string, other: string, query: string)
    requires Resolvable(t, index) && NoCollisions(s, t, index)
    requires ExtendsShortest(s, t, index, name, query) && Extends(s, t, index, other, query)
    requires |LineOf(s, t, index, other)| <= |LineOf(s, t, index, name)|
    ensures name == other
  {
    var line, shorter := LineOf(s, t, index, name), LineOf(s, t, index, other);
    assert |line| == |shorter| && line == query[..|line|] == shorter;
    assert !Collide(s, t, index, name, other);
  }

  /** Failing that too, the query is a command. */
  lemma LookupOfCommand(s: Settings, t: Table, index: Index, items: seq<Item>, query: string, r: Lookup)
    requires Shows(s, items, t, index) && Answers(r, s.caseInsensitive, items, query)
    requires NoneMatches(s, t, index, query) && forall name :: !Extends(s, t, index, name, query)
    ensures r == CommandLookup(query)
  {
    NoItemMatches(s, t, index, items, query);
    forall i: nat ensures !IsPrefix(items, i, query) {
      if i < |items| {
        assert items[i] in items;
        var name :| Included(s, index, name) && items[i] == ItemOf(s, t, index, name);
        assert !Extends(s, t, index, name, query);
      }
    }
  }

  /** The name that is counted for any lookup is a displayed name. */
  lemma LookupFindsDisplayedName(s: Settings, t: Table, index: Index, items: seq<Item>, query: string, r: Lookup)
    requires Exact(t, index) && Shows(s, items, t, index)
    requires Answers(r, s.caseInsensitive, items, query)
    ensures r.CommandLookup? ==> r.command == query
    ensures r.AppLookup? ==> r.app in t && t[r.app].app.Some? && Included(s, index, FoundName(t, r.app, r.isGeneric))
  {
    if r.AppLookup? {
      var item :| item in items && item.app == r.app && item.isGeneric == r.isGeneric;
      var name :| Included(s, index, name) && item == ItemOf(s, t, index, name);
      FoundNameIsKey(t, index, name);
    }
  }

  /** Both facts about one lookup. */
  lemma LookupFindsName(s: Settings, t: Table, index: Index, items: seq<Item>, query: string, r: Lookup)
    requires Exact(t, index) && Shows(s, items, t, index) && NoCollisions(s, t, index)
    requires Answers(r, s.caseInsensitive, items, query)
    ensures r.CommandLookup? ==> r.command == query
    ensures r.AppLookup? ==> r.app in t && t[r.app].app.Some? && Included(s, index, FoundName(t, r.app, r.isGeneric))
    ensures forall name | Included(s, index, name) && query == LineOf(s, t, index, name) ::
              r == AppLookup(index[name].app, index[name].isGeneric, "") && FoundName(t, r.app, r.isGeneric) == name
  {
    LookupFindsDisplayedName(s, t, index, items, query, r);
    forall name | Included(s, index, name) && query == LineOf(s, t, index, name)
      ensures r == AppLookup(index[name].app, index[name].isGeneric, "") && FoundName(t, r.app, r.isGeneric) == name
    {
      assert Matches(s, t, index, name, query);
      LookupOfDisplayedLine(s, t, index, items, query, r, name);
      FoundNameIsKey(t, index, name);
    }
  }

  // ------------------------------------------------------------------------------------------
  // From the choice to the command
  // ------------------------------------------------------------------------------------------

  /** The argument vector of an application, None for a malformed Exec or an invalid field code. */
  function CommandArray(app: Application, args: string, wine: bool): Option<seq<string>> {
    var words := AllWords(Split(app.exec, Plain, wine));
    if words.None? then None else FieldCodes.ExpandFrom([], words.value, app, args)
  }

  /** Terminal emulator wrappers: command line, terminal, application name. */
  type TermAssembler = (seq<string>, string, string) -> seq<string>

  /** What the shell of i3 has to see. */
  ghost predicate I3ShellSees(command: string, app: Application, argv: seq<string>, assemble: TermAssembler,
                              terminal: string)
  {
    var inner := CdCommand(app.path, argv);
    if app.path == "" then
      ShellTokens(command) == Some(Words(if app.terminal then assemble(argv, terminal, app.name) else argv))
    else if app.terminal then
      && ShellTokens(command) == Some(Words(assemble(["/bin/sh", "-c", inner], terminal, app.name)))
      && ShellTokens(inner) == Some([Word("cd"), Word(app.path), AndIf] + Words(argv))
    else ShellTokens(command) == Some([Word("cd"), Word(app.path), AndIf] + Words(argv))
  }

  /** `I3Executable::execute` up to sending the command. */
  method I3Command(app: Application, args: string, wine: bool, assemble: TermAssembler, terminal: string)
    returns (result: Option<string>)
    ensures result.None? <==> CommandArray(app, args, wine).None?
    ensures result.Some? ==> I3ShellSees(result.value, app, CommandArray(app, args, wine).value, assemble, terminal)
  {
    var words, _ := ConvertExecToCommand(app.exec, wine);
    if words.None? {
      return None;
    }
    var expanded := FieldCodes.ExpandFieldCodes(words.value, app, args);
    if expanded.None? {
      return None;
    }
    var commandArray := expanded.value;
    var command := ConvertArgvToString(commandArray);
    if app.path != "" {
      var quotedPath := SqQuote(app.path);
      command := "cd " + quotedPath + " && " + command;
      ShellReadsBackCdCommand(app.path, commandArray);
      if app.terminal {
        var wrapped := WrapCmdstringInShell(command);
        var newCommandArray := assemble(wrapped, terminal, app.name);
        command := ConvertArgvToString(newCommandArray);
        ShellReadsBackArgv(newCommandArray);
      }
    } else if app.terminal {
      var newCommandArray := assemble(commandArray, terminal, app.name);
      command := ConvertArgvToString(newCommandArray);
      ShellReadsBackArgv(newCommandArray);
    } else {
      ShellReadsBackArgv(commandArray);
    }
    return Some(command);
  }

  /** `wrap_cmdstring_in_shell` */
  function WrapCmdstringInShell(cmdstring: string): seq<string> {
    ["/bin/sh", "-c", cmdstring]
  }

  /** What the user types after the name takes the place of a standalone code in the command. */
  lemma UserArgumentsArrive(app: Application, before: seq<string>, code: char, after: seq<string>, args: string,
                            wine: bool)
    requires FieldCodes.NoCodes(before) && FieldCodes.NoCodes(after) && code in "fFuU"
    requires app.exec == EncodeExec(before + [['%', code]] + after) && (after == [] || after[|after| - 1] != "")
    ensures CommandArray(app, args, wine) == Some(before + FieldCodes.UserArguments(args) + after)
  {
    var argv := before + [['%', code]] + after;
    assert argv[|argv| - 1] != "";
    ExecRoundTrip(argv, wine);
    FieldCodes.StandaloneUserCode(before, code, after, app, args);
  }

  /** From the Exec key to the shell: an encoded command without field codes arrives as it was meant. */
  lemma EncodedCommandArrives(app: Application, argv: seq<string>, args: string, wine: bool)
    requires app.exec == EncodeExec(argv) && FieldCodes.NoCodes(argv)
    requires argv == [] || argv[|argv| - 1] != ""
    ensures CommandArray(app, args, wine) == Some(argv)
  {
    ExecRoundTrip(argv, wine);
    FieldCodes.NoCodesNoChange(argv, app, args);
  }
}
