/**
 src/main.cc: from the names of AppManager to the lines of the menu and back. NameToAppMapping formats
 the names, FormattedHistoryManager formats the history, `do_dmenu` writes the lines and `lookup_name`
 resolves what the user chose.
 */
module Menus {
  import opened Utilities
  import opened Applications
  import opened AppManagers
  import opened HistoryManagers
  import opened Formatters
  import opened DynamicCompare

  datatype Settings = Settings(format: Formatter, caseInsensitive: bool, excludeGeneric: bool)

  /** An element of the sorted map from displayed lines to applications. */
  datatype Item = Item(line: string, app: string, isGeneric: bool)

  /** The strict order of the map's keys. */
  ghost predicate Ordered(ci: bool, lines: seq<string>) {
    forall i, j :: 0 <= i < j < |lines| ==> Before(ci, lines[i], lines[j])
  }

  function Lines(items: seq<Item>): (r: seq<string>)
    ensures |r| == |items|
  {
    seq(|items|, k requires 0 <= k < |items| => items[k].line)
  }

  /** Every entry of the index leads to a populated application. */
  ghost predicate Resolvable(t: Table, index: Index) {
    forall name <- index :: index[name].app in t && t[index[name].app].app.Some?
  }

  /** The names that are displayed. */
  predicate Included(s: Settings, index: Index, name: string) {
    name in index && !(s.excludeGeneric && index[name].isGeneric)
  }

  function LineOf(s: Settings, t: Table, index: Index, name: string): string
    requires Resolvable(t, index) && name in index
  {
    Format(s.format, name, t[index[name].app].app.value)
  }

  function ItemOf(s: Settings, t: Table, index: Index, name: string): Item
    requires Resolvable(t, index) && name in index
  {
    Item(LineOf(s, t, index, name), index[name].app, index[name].isGeneric)
  }

  /** The sorted map holds exactly the items of the displayed names. */
  ghost predicate Shows(s: Settings, items: seq<Item>, t: Table, index: Index) {
    && Resolvable(t, index)
    && Ordered(s.caseInsensitive, Lines(items))
    && (forall name :: Included(s, index, name) ==> ItemOf(s, t, index, name) in items)
    && (forall item <- items :: exists name :: Included(s, index, name) && item == ItemOf(s, t, index, name))
  }

  /** Two displayed names whose lines the comparison cannot tell apart. */
  ghost predicate Collide(s: Settings, t: Table, index: Index, a: string, b: string)
    requires Resolvable(t, index)
  {
    && a != b && Included(s, index, a) && Included(s, index, b)
    && Key(s.caseInsensitive, LineOf(s, t, index, a)) == Key(s.caseInsensitive, LineOf(s, t, index, b))
  }

  lemma ExactIsResolvable(t: Table, index: Index)
    requires Exact(t, index)
    ensures Resolvable(t, index)
  {
    forall name <- index ensures index[name].app in t && t[index[name].app].app.Some? {
      assert RightAbout(t, index, name);
    }
  }

  /** In case-sensitive mode no two names collide. */
  lemma CaseSensitiveNamesDoNotCollide(s: Settings, t: Table, index: Index, a: string, b: string)
    requires !s.caseInsensitive && Resolvable(t, index)
    ensures !Collide(s, t, index, a, b)
  {
    if Collide(s, t, index, a, b) {
      FormatIsInjective(s.format, a, t[index[a].app].app.value, b, t[index[b].app].app.value);
    }
  }

  /** In case-insensitive mode two applications called X and x collide, in an exact index. */
  lemma NamesThatDifferInCaseCollide(excludeGeneric: bool)
    ensures var s := Settings(Default, true, excludeGeneric);
            var t: Table := map["a" := Managed(Some(PlainApplication("X")), 0),
                        "b" := Managed(Some(PlainApplication("x")), 0)];
            var index: Index := map["X" := Resolved("a", false, View("a", NameKey)),
                                    "x" := Resolved("b", false, View("b", NameKey))];
            Exact(t, index) && Resolvable(t, index) && Collide(s, t, index, "X", "x")
  {
    var t: Table := map["a" := Managed(Some(PlainApplication("X")), 0),
                        "b" := Managed(Some(PlainApplication("x")), 0)];
    var index: Index := map["X" := Resolved("a", false, View("a", NameKey)),
                            "x" := Resolved("b", false, View("b", NameKey))];
    forall name ensures RightAbout(t, index, name) {
      assert forall id :: Provides(t, id, name) <==> (id == "a" && name == "X") || (id == "b" && name == "x");
    }
    ExactIsResolvable(t, index);
    assert Lowered("X") == ['x'] + Lowered("X"[1..]) && Lowered("x") == ['x'] + Lowered("x"[1..]);
    assert "X"[1..] == "" && "x"[1..] == "";
  }

  // ------------------------------------------------------------------------------------------
  // The sorted map
  // ------------------------------------------------------------------------------------------

  /** First position whose key is not before `line`. */
  method LowerBound(ci: bool, items: seq<Item>, line: string) returns (at: nat)
    requires Ordered(ci, Lines(items))
    ensures at <= |items|
    ensures forall k :: 0 <= k < at ==> Before(ci, items[k].line, line)
    ensures forall k :: at <= k < |items| ==> !Before(ci, items[k].line, line)
  {
    at := 0;
    while at < |items| && Before(ci, items[at].line, line)
      invariant at <= |items|
      invariant forall k :: 0 <= k < at ==> Before(ci, items[k].line, line)
    {
      at := at + 1;
    }
    forall k | at <= k < |items| ensures !Before(ci, items[k].line, line) {
      if k > at {
        assert Before(ci, Lines(items)[at], Lines(items)[k]);
        BeforeIsStrictOrder(ci, items[at].line, items[k].line, line);
      }
    }
  }

  /** `find`; the length stands for `end()`. */
  method FindItem(ci: bool, items: seq<Item>, line: string) returns (i: nat)
    requires Ordered(ci, Lines(items))
    ensures i <= |items|
    ensures i < |items| ==> Key(ci, items[i].line) == Key(ci, line)
    ensures i == |items| ==> forall item <- items :: Key(ci, item.line) != Key(ci, line)
  {
    i := LowerBound(ci, items, line);
    if i < |items| && !Before(ci, line, items[i].line) {
      BeforeIsStrictOrder(ci, items[i].line, line, line);
      return;
    }
    forall item <- items ensures Key(ci, item.line) != Key(ci, line) {
      var k :| 0 <= k < |items| && items[k] == item;
      if k >= i {
        if k > i {
          assert Before(ci, Lines(items)[i], Lines(items)[k]);
        }
        BeforeIsStrictOrder(ci, line, items[i].line, items[k].line);
      }
      BeforeIsStrictOrder(ci, items[k].line, line, line);
    }
    i := |items|;
  }

  /** `try_emplace` */
  method TryEmplaceItem(ci: bool, items: seq<Item>, item: Item) returns (inserted: bool, items': seq<Item>)
    requires Ordered(ci, Lines(items))
    ensures inserted <==> forall x <- items :: Key(ci, x.line) != Key(ci, item.line)
    ensures inserted ==> Ordered(ci, Lines(items')) && forall x :: x in items' <==> x in items || x == item
    ensures !inserted ==> items' == items
  {
    var at := LowerBound(ci, items, item.line);
    var i := FindItem(ci, items, item.line);
    if i < |items| {
      return false, items;
    }
    inserted, items' := true, InsertAt(items, at, item);
    ElementsAfterInsert(items, at, item);
    forall k | at <= k < |items| ensures Before(ci, item.line, items[k].line) {
      assert items[k] in items;
      BeforeIsStrictOrder(ci, items[k].line, item.line, item.line);
    }
    OrderedInsertion(ci, items, at, item);
  }

  lemma OrderedInsertion(ci: bool, items: seq<Item>, at: nat, item: Item)
    requires at <= |items| && Ordered(ci, Lines(items))
    requires forall k :: 0 <= k < at ==> Before(ci, items[k].line, item.line)
    requires forall k :: at <= k < |items| ==> Before(ci, item.line, items[k].line)
    ensures Ordered(ci, Lines(InsertAt(items, at, item)))
  {
    assert Lines(InsertAt(items, at, item)) == InsertAt(Lines(items), at, item.line);
    assert forall k :: 0 <= k < |items| ==> Lines(items)[k] == items[k].line;
  }

  /** A name whose line is new to the map collides with none of the names visited before. */
  lemma NoNewCollision(s: Settings, t: Table, index: Index, unvisited: set<string>, items: seq<Item>, key: string)
    requires Resolvable(t, index) && key in unvisited && key in index
    requires forall name | name !in unvisited && Included(s, index, name) :: ItemOf(s, t, index, name) in items
    requires forall item <- items ::
               Key(s.caseInsensitive, item.line) != Key(s.caseInsensitive, LineOf(s, t, index, key))
    requires forall a, b | a !in unvisited && b !in unvisited :: !Collide(s, t, index, a, b)
    ensures forall a, b | a !in unvisited - {key} && b !in unvisited - {key} :: !Collide(s, t, index, a, b)
  {
    forall a, b | a !in unvisited - {key} && b !in unvisited - {key} ensures !Collide(s, t, index, a, b) {
      if a == key && b != key && Included(s, index, b) {
        assert ItemOf(s, t, index, b) in items;
      }
      if b == key && a != key && Included(s, index, a) {
        assert ItemOf(s, t, index, a) in items;
      }
    }
  }

  /** What the menu's map holds, name by name; GenericNames are left out if that is asked for. */
  ghost predicate HoldsNames(s: Settings, items: seq<Item>, t: Table, index: Index) {
    && Resolvable(t, index)
    && (s.excludeGeneric ==> forall item <- items :: !item.isGeneric)
    && (forall name <- index | !s.excludeGeneric || !index[name].isGeneric ::
          Item(Format(s.format, name, t[index[name].app].app.value), index[name].app, index[name].isGeneric) in items)
    && (forall item <- items :: exists name ::
          && name in index && item.app == index[name].app && item.isGeneric == index[name].isGeneric
          && item.line == Format(s.format, name, t[index[name].app].app.value))
  }

  lemma ShownNames(s: Settings, items: seq<Item>, t: Table, index: Index)
    requires Shows(s, items, t, index)
    ensures HoldsNames(s, items, t, index)
  {
    forall item <- items
      ensures exists name :: && name in index && item.app == index[name].app && item.isGeneric == index[name].isGeneric
                             && item.line == Format(s.format, name, t[index[name].app].app.value)
      ensures s.excludeGeneric ==> !item.isGeneric
    {
      var name :| Included(s, index, name) && item == ItemOf(s, t, index, name);
    }
    forall name <- index | !s.excludeGeneric || !index[name].isGeneric
      ensures Item(Format(s.format, name, t[index[name].app].app.value), index[name].app, index[name].isGeneric)
              in items
    {
      assert Included(s, index, name) && ItemOf(s, t, index, name) in items;
    }
  }

  class NameToAppMapping {
    const settings: Settings
    var mapping: seq<Item>
    var rawMapping: Index

    constructor (settings: Settings)
      ensures this.settings == settings
    {
      this.settings := settings;
      mapping, rawMapping := [], map[];
    }

    /** `load`; it aborts exactly if two displayed names collide. */
    method Load(appm: AppManager) returns (aborted: bool)
      requires appm.Valid()
      modifies this
      ensures Resolvable(appm.applications, appm.nameAppMapping)
      ensures aborted <==> exists a, b :: Collide(settings, appm.applications, appm.nameAppMapping, a, b)
      ensures !aborted ==> rawMapping == appm.nameAppMapping
      ensures !aborted ==> Shows(settings, mapping, appm.applications, rawMapping)
    {
      ghost var t := appm.applications;
      ExactIsResolvable(t, appm.nameAppMapping);
      rawMapping := appm.nameAppMapping;
      mapping := [];
      var ci := settings.caseInsensitive;
      var unvisited := rawMapping.Keys;
      while unvisited != {}
        invariant rawMapping == appm.nameAppMapping && unvisited <= rawMapping.Keys
        invariant Ordered(ci, Lines(mapping))
        invariant forall name | name !in unvisited && Included(settings, rawMapping, name) ::
                    ItemOf(settings, t, rawMapping, name) in mapping
        invariant forall item <- mapping :: exists name :: name !in unvisited && Included(settings, rawMapping, name)
                                                           && item == ItemOf(settings, t, rawMapping, name)
        invariant forall a, b | a !in unvisited && b !in unvisited :: !Collide(settings, t, rawMapping, a, b)
      {
        var key :| key in unvisited;
        if settings.excludeGeneric && rawMapping[key].isGeneric {
          unvisited := unvisited - {key};
          continue;
        }
        var resolved := rawMapping[key];
        var formatted := Format(settings.format, key, appm.applications[resolved.app].app.value);
        var item := Item(formatted, resolved.app, resolved.isGeneric);
        var inserted, items := TryEmplaceItem(ci, mapping, item);
        if !inserted {
          ghost var x :| x in mapping && Key(ci, x.line) == Key(ci, item.line);
          ghost var other :| other !in unvisited && Included(settings, rawMapping, other)
                       && x == ItemOf(settings, t, rawMapping, other);
          assert Collide(settings, t, rawMapping, other, key);
          return true;
        }
        NoNewCollision(settings, t, rawMapping, unvisited, mapping, key);
        unvisited := unvisited - {key};
        mapping := items;
      }
      return false;
    }
  }

  // ------------------------------------------------------------------------------------------
  // The formatted history
  // ------------------------------------------------------------------------------------------

  /**
   The loop of `reload` from position `i`: the history it leaves and the names it keeps for display. After an
   erased entry the next one is passed over.
   */
  function Reloaded(h: History, i: nat, prune: bool, s: Settings, index: Index): (History, seq<string>)
    requires i <= |h|
    decreases |h| - i
  {
    if i == |h| then (h, [])
    else if h[i].name !in index then
      if !prune then Reloaded(h, i + 1, prune, s, index)
      else
        var pruned := EraseAt(h, i);
        if i == |pruned| then (pruned, []) else Reloaded(pruned, i + 1, prune, s, index)
    else
      var (h', names) := Reloaded(h, i + 1, prune, s, index);
      (h', if Included(s, index, h[i].name) then [h[i].name] + names else names)
  }

  function LinesOf(s: Settings, t: Table, index: Index, names: seq<string>): seq<string>
    requires Resolvable(t, index) && forall name <- names :: name in index
  {
    seq(|names|, k requires 0 <= k < |names| => LineOf(s, t, index, names[k]))
  }

  class FormattedHistoryManager {
    const hist: HistoryManager
    const removeObsoleteEntries: bool
    var formattedHistory: seq<string>

    constructor (hist: HistoryManager, removeObsoleteEntries: bool)
      ensures this.hist == hist && this.removeObsoleteEntries == removeObsoleteEntries && formattedHistory == []
    {
      this.hist := hist;
      this.removeObsoleteEntries := removeObsoleteEntries;
      formattedHistory := [];
    }

    /** `reload` against the mapping loaded from `appm`. */
    method Reload(mapping: NameToAppMapping, appm: AppManager) returns (ghost names: seq<string>)
      requires hist.Valid()
      requires Resolvable(appm.applications, mapping.rawMapping)
      modifies this, hist
      ensures hist.Valid()
      ensures var h, s, index, prune := old(hist.history), mapping.settings, mapping.rawMapping, removeObsoleteEntries;
              && hist.history == Survivors(h, index, prune, |h|)
              && names == DisplayedNames(h, s, index, prune, 0)
              && ((forall e <- h :: Included(s, index, e.name) ==> e.name in names)
                  <==> NothingPassedOver(h, s, index, prune))
      ensures forall name <- names :: name in mapping.rawMapping && Included(mapping.settings, mapping.rawMapping, name)
      ensures formattedHistory == LinesOf(mapping.settings, appm.applications, mapping.rawMapping, names)
    {
      ReloadedIs(hist.history, removeObsoleteEntries, mapping.settings, mapping.rawMapping);
      DisplayIsComplete(hist.history, removeObsoleteEntries, mapping.settings, mapping.rawMapping);
      names := ReloadEntries(mapping, appm);
    }

    /** The loop. */
    method ReloadEntries(mapping: NameToAppMapping, appm: AppManager) returns (ghost names: seq<string>)
      requires hist.Valid() && Resolvable(appm.applications, mapping.rawMapping)
      modifies this, hist
      ensures hist.Valid()
      ensures (hist.history, names)
           == Reloaded(old(hist.history), 0, removeObsoleteEntries, mapping.settings, mapping.rawMapping)
      ensures AreLinesOf(mapping.settings, appm.applications, mapping.rawMapping, names, formattedHistory)
    {
      ghost var s, index := mapping.settings, mapping.rawMapping;
      ghost var whole := Reloaded(hist.history, 0, removeObsoleteEntries, s, index);
      formattedHistory := [];
      names := [];
      Neutral(whole.1);
      var i := 0;
      while i < |hist.history|
        invariant hist.Valid() && 0 <= i <= |hist.history|
        invariant AreLinesOf(s, appm.applications, index, names, formattedHistory)
        invariant Continue(names, Reloaded(hist.history, i, removeObsoleteEntries, s, index)) == whole
        decreases |hist.history| - i
      {
        var stop;
        stop, names := ReloadEntry(mapping, appm, i, names);
        if stop {
          return;
        }
        i := i + 1;
      }
      Neutral(names);
    }

    /** One round: the entry at `i` is erased, left alone or displayed; `stop` says that nothing is left behind it. */
    method ReloadEntry(mapping: NameToAppMapping, appm: AppManager, i: nat, ghost names: seq<string>)
      returns (stop: bool, ghost names': seq<string>)
      requires hist.Valid() && i < |hist.history| && Resolvable(appm.applications, mapping.rawMapping)
      requires AreLinesOf(mapping.settings, appm.applications, mapping.rawMapping, names, formattedHistory)
      modifies this, hist
      ensures hist.Valid() && |hist.history| <= |old(hist.history)| && (!stop ==> i < |hist.history|)
      ensures AreLinesOf(mapping.settings, appm.applications, mapping.rawMapping, names', formattedHistory)
      ensures Continue(names, Reloaded(old(hist.history), i, removeObsoleteEntries, mapping.settings,
                                       mapping.rawMapping))
           == if stop then (hist.history, names')
              else Continue(names', Reloaded(hist.history, i + 1, removeObsoleteEntries, mapping.settings,
                                             mapping.rawMapping))
    {
      var s, index := mapping.settings, mapping.rawMapping;
      var rawName := hist.history[i].name;
      stop, names' := false, names;
      if rawName !in index {
        if removeObsoleteEntries {
          hist.RemoveObsoleteEntry(i);
          stop := i == |hist.history|;
          Neutral(names);
        }
      } else if !(s.excludeGeneric && index[rawName].isGeneric) {
        Assoc(names, [rawName], Reloaded(hist.history, i + 1, removeObsoleteEntries, s, index).1);
        LinesOfOneMore(s, appm.applications, index, names, rawName);
        names' := names + [rawName];
        var line := Format(s.format, rawName, appm.applications[index[rawName].app].app.value);
        formattedHistory := formattedHistory + [line];
      }
    }
  }

  /** What the rest of the loop adds to the names kept so far. */
  function Continue(names: seq<string>, r: (History, seq<string>)): (History, seq<string>) {
    (r.0, names + r.1)
  }

  ghost predicate AreLinesOf(s: Settings, t: Table, index: Index, names: seq<string>, lines: seq<string>) {
    && Resolvable(t, index)
    && (forall name <- names :: name in index && Included(s, index, name))
    && lines == LinesOf(s, t, index, names)
  }

  lemma LinesOfOneMore(s: Settings, t: Table, index: Index, names: seq<string>, name: string)
    requires Resolvable(t, index) && name in index && forall n <- names :: n in index
    ensures forall n <- names + [name] :: n in index
    ensures LinesOf(s, t, index, names + [name]) == LinesOf(s, t, index, names) + [LineOf(s, t, index, name)]
  {
  }

  /** Names in the order in which a history lists them. */
  ghost predicate InHistoryOrder(names: seq<string>, h: History, from: nat) {
    && (forall p :: 0 <= p < |names| ==> Has(h, names[p]) && from <= IndexOfName(h, names[p]))
    && (forall p, q :: 0 <= p < q < |names| ==> IndexOfName(h, names[p]) < IndexOfName(h, names[q]))
  }

  /** With or without pruning, the names kept for display are displayable, distinct and in history order. */
  lemma {:induction false} ReloadKeepsOrder(h: History, i: nat, prune: bool, s: Settings, index: Index)
    requires i <= |h| && UniqueNames(h)
    ensures var (h', names) := Reloaded(h, i, prune, s, index);
            && InHistoryOrder(names, h, i)
            && (forall name <- names :: Included(s, index, name))
    decreases |h| - i
  {
    if i < |h| {
      CountOfElement(h, i);
      if prune && h[i].name !in index {
        var pruned := EraseAt(h, i);
        if i < |pruned| {
          ReloadKeepsOrder(pruned, i + 1, prune, s, index);
          ErasingKeepsOrder(h, i, Reloaded(pruned, i + 1, prune, s, index).1);
        }
      } else {
        ReloadKeepsOrder(h, i + 1, prune, s, index);
        if Included(s, index, h[i].name) {
          EarlierNameFirst(h, i, Reloaded(h, i + 1, prune, s, index).1);
        }
      }
    }
  }

  lemma EarlierNameFirst(h: History, i: nat, names: seq<string>)
    requires i < |h| && UniqueNames(h) && InHistoryOrder(names, h, i + 1)
    ensures InHistoryOrder([h[i].name] + names, h, i)
  {
    CountOfElement(h, i);
    assert h[i] in h;
  }

  lemma ErasingKeepsOrder(h: History, i: nat, names: seq<string>)
    requires i < |h| && UniqueNames(h) && InHistoryOrder(names, EraseAt(h, i), i + 1)
    ensures InHistoryOrder(names, h, i)
  {
    var pruned := EraseAt(h, i);
    forall p | 0 <= p < |names|
      ensures Has(h, names[p]) && IndexOfName(h, names[p]) == IndexOfName(pruned, names[p]) + 1
    {
      var k := IndexOfName(pruned, names[p]);
      assert Has(pruned, names[p]);
      NameFound(pruned, names[p]);
      assert h[k + 1] == pruned[k] && h[k + 1] in h;
      CountOfElement(h, k + 1);
    }
  }

  lemma NameFound(h: History, name: string)
    requires Has(h, name)
    ensures IndexOfName(h, name) < |h|
  {
    var k :| 0 <= k < |h| && h[k].name == name;
  }

  /** Pruning only ever removes entries whose name no application has. */
  lemma {:induction false} PruningRemovesObsoleteOnly(h: History, i: nat, s: Settings, index: Index)
    requires i <= |h|
    ensures forall e :: e in Reloaded(h, i, true, s, index).0 ==> e in h
    ensures forall e :: e in h && e.name in index ==> e in Reloaded(h, i, true, s, index).0
    decreases |h| - i
  {
    if i < |h| {
      if h[i].name !in index {
        var pruned := EraseAt(h, i);
        ElementsBeforeErase(h, i);
        if i < |pruned| {
          PruningRemovesObsoleteOnly(pruned, i + 1, s, index);
        }
      } else {
        PruningRemovesObsoleteOnly(h, i + 1, s, index);
      }
    }
  }

  // ---- what one reload does, entry by entry -------------------------------------------------

  /** Entry `k` is erased: it is obsolete and the entry before it was not erased. */
  predicate Pruned(h: History, index: Index, prune: bool, k: nat)
    requires k < |h|
  {
    prune && h[k].name !in index && (k == 0 || !Pruned(h, index, prune, k - 1))
  }

  /** Entry `k` is not looked at. */
  predicate BehindPruned(h: History, index: Index, prune: bool, k: nat)
    requires k <= |h|
  {
    k > 0 && Pruned(h, index, prune, k - 1)
  }

  /** Those of the first `n` entries that are not erased, in order. */
  function Survivors(h: History, index: Index, prune: bool, n: nat): History
    requires n <= |h|
  {
    if n == 0 then []
    else Survivors(h, index, prune, n - 1) + if Pruned(h, index, prune, n - 1) then [] else [h[n - 1]]
  }

  /** Entry `k` gets a line: its name is displayable and the entry is looked at. */
  predicate Displayed(h: History, s: Settings, index: Index, prune: bool, k: nat)
    requires k < |h|
  {
    Included(s, index, h[k].name) && !BehindPruned(h, index, prune, k)
  }

  /** The names of the displayed entries from `k` on, in order. */
  function DisplayedNames(h: History, s: Settings, index: Index, prune: bool, k: nat): seq<string>
    requires k <= |h|
    decreases |h| - k
  {
    if k == |h| then []
    else (if Displayed(h, s, index, prune, k) then [h[k].name] else []) + DisplayedNames(h, s, index, prune, k + 1)
  }

  /** The loop erases in place; this is its history when it comes to entry `k` of the original. */
  function Remaining(h: History, index: Index, prune: bool, k: nat): History
    requires k <= |h|
  {
    Survivors(h, index, prune, k) + h[k..]
  }

  lemma EraseMiddle(a: History, x: Entry, b: History)
    ensures EraseAt(a + ([x] + b), |a|) == a + b
  {
  }

  lemma RemainingStep(h: History, index: Index, prune: bool, k: nat)
    requires k < |h|
    ensures var before, r := Survivors(h, index, prune, k), Remaining(h, index, prune, k);
            && |before| < |r| && r[|before|] == h[k]
            && if Pruned(h, index, prune, k)
               then
                 && Survivors(h, index, prune, k + 1) == before
                 && EraseAt(r, |before|) == Remaining(h, index, prune, k + 1)
               else |Survivors(h, index, prune, k + 1)| == |before| + 1 && r == Remaining(h, index, prune, k + 1)
  {
    var before := Survivors(h, index, prune, k);
    assert h[k..] == [h[k]] + h[k + 1..];
    EraseMiddle(before, h[k], h[k + 1..]);
    Assoc(before, [h[k]], h[k + 1..]);
    Neutral(before);
  }

  /** The in-place loop leaves exactly the entries that are not erased and shows exactly the displayed ones. */
  lemma {:induction false} ReloadedFrom(h: History, k: nat, prune: bool, s: Settings, index: Index)
    requires k <= |h| && !BehindPruned(h, index, prune, k)
    ensures Reloaded(Remaining(h, index, prune, k), |Survivors(h, index, prune, k)|, prune, s, index)
         == (Survivors(h, index, prune, |h|), DisplayedNames(h, s, index, prune, k))
    decreases |h| - k
  {
    if k == |h| {
      Neutral(Survivors(h, index, prune, k));
    } else {
      RemainingStep(h, index, prune, k);
      if !Pruned(h, index, prune, k) {
        ReloadedFrom(h, k + 1, prune, s, index);
        Neutral(DisplayedNames(h, s, index, prune, k + 1));
      } else if k + 1 == |h| {
        Neutral(Survivors(h, index, prune, k + 1));
        assert h[k + 1..] == [] && !Displayed(h, s, index, prune, k);
        assert DisplayedNames(h, s, index, prune, k) == [] + DisplayedNames(h, s, index, prune, k + 1) == [];
      } else {
        RemainingStep(h, index, prune, k + 1);
        ReloadedFrom(h, k + 2, prune, s, index);
        Neutral(DisplayedNames(h, s, index, prune, k + 2));
        assert !Displayed(h, s, index, prune, k) && !Displayed(h, s, index, prune, k + 1);
        assert DisplayedNames(h, s, index, prune, k) == [] + ([] + DisplayedNames(h, s, index, prune, k + 2));
      }
    }
  }

  /** A whole reload. */
  lemma ReloadedIs(h: History, prune: bool, s: Settings, index: Index)
    ensures Reloaded(h, 0, prune, s, index)
         == (Survivors(h, index, prune, |h|), DisplayedNames(h, s, index, prune, 0))
  {
    Neutral(h);
    assert h[0..] == h;
    ReloadedFrom(h, 0, prune, s, index);
  }

  lemma {:induction false} SurvivorsAre(h: History, index: Index, prune: bool, n: nat)
    requires n <= |h|
    ensures forall e :: e in Survivors(h, index, prune, n)
                        <==> exists k :: 0 <= k < n && !Pruned(h, index, prune, k) && h[k] == e
  {
    if n > 0 {
      SurvivorsAre(h, index, prune, n - 1);
    }
  }

  lemma {:induction false} DisplayedNamesAre(h: History, s: Settings, index: Index, prune: bool, from: nat)
    requires from <= |h|
    ensures forall name :: name in DisplayedNames(h, s, index, prune, from)
                           <==> exists k :: from <= k < |h| && Displayed(h, s, index, prune, k) && h[k].name == name
    decreases |h| - from
  {
    if from < |h| {
      DisplayedNamesAre(h, s, index, prune, from + 1);
    }
  }

  lemma {:induction false} WithoutPruningAllSurvive(h: History, index: Index, n: nat)
    requires n <= |h|
    ensures Survivors(h, index, false, n) == h[..n]
  {
    if n > 0 {
      WithoutPruningAllSurvive(h, index, n - 1);
    }
  }

  // ---- when pruning does what it is for -----------------------------------------------------

  ghost predicate NoObsoleteNeighbours(h: History, index: Index) {
    forall k :: 0 <= k < |h| - 1 ==> h[k].name in index || h[k + 1].name in index
  }

  lemma {:induction false} OneOfTwoNeighboursSurvives(h: History, index: Index, k: nat)
    requires k + 1 < |h| && h[k].name !in index && h[k + 1].name !in index
    ensures exists e <- Survivors(h, index, true, |h|) :: e.name !in index
  {
    SurvivorsAre(h, index, true, |h|);
    var left := if Pruned(h, index, true, k) then k + 1 else k;
    assert !Pruned(h, index, true, left);
    assert h[left] in Survivors(h, index, true, |h|);
  }

  /** Pruning removes every obsolete entry if and only if no two of them are neighbours. */
  lemma PruningIsComplete(h: History, s: Settings, index: Index)
    ensures (forall e <- Reloaded(h, 0, true, s, index).0 :: e.name in index) <==> NoObsoleteNeighbours(h, index)
  {
    ReloadedIs(h, true, s, index);
    SurvivorsAre(h, index, true, |h|);
    if NoObsoleteNeighbours(h, index) {
      forall e <- Survivors(h, index, true, |h|) ensures e.name in index {
        var k :| 0 <= k < |h| && !Pruned(h, index, true, k) && h[k] == e;
        if k > 0 {
          assert h[k - 1].name in index || h[(k - 1) + 1].name in index;
          assert Pruned(h, index, true, k - 1) ==> h[k - 1].name !in index;
        }
      }
    } else {
      var k :| 0 <= k < |h| - 1 && h[k].name !in index && h[k + 1].name !in index;
      OneOfTwoNeighboursSurvives(h, index, k);
    }
  }

  /** No displayable entry comes directly behind an erased one; without pruning nothing is erased. */
  ghost predicate NothingPassedOver(h: History, s: Settings, index: Index, prune: bool) {
    forall k: nat | k < |h| && Included(s, index, h[k].name) :: !BehindPruned(h, index, prune, k)
  }

  /**
   Every displayable history name is kept for display if and only if none of them comes directly behind an
   erased entry; the names that are lost are exactly those.
   */
  lemma DisplayIsComplete(h: History, prune: bool, s: Settings, index: Index)
    requires UniqueNames(h)
    ensures var names := Reloaded(h, 0, prune, s, index).1;
            && ((forall e <- h :: Included(s, index, e.name) ==> e.name in names)
                <==> NothingPassedOver(h, s, index, prune))
            && forall k | 0 <= k < |h| ::
                 h[k].name in names <==> Included(s, index, h[k].name) && !BehindPruned(h, index, prune, k)
  {
    ReloadedIs(h, prune, s, index);
    DisplayedNamesAre(h, s, index, prune, 0);
    var names := DisplayedNames(h, s, index, prune, 0);
    forall k | 0 <= k < |h|
      ensures h[k].name in names <==> Included(s, index, h[k].name) && !BehindPruned(h, index, prune, k)
    {
      assert Displayed(h, s, index, prune, k) ==> h[k].name in names;
    }
    forall k: nat | k < |h| ensures h[k] in h {
    }
  }

  /** Without pruning nothing is erased and every displayable history name is displayed. */
  lemma WithoutPruningNothingIsPassedOver(h: History, s: Settings, index: Index)
    ensures Reloaded(h, 0, false, s, index).0 == h
    ensures forall e <- h :: Included(s, index, e.name) ==> e.name in Reloaded(h, 0, false, s, index).1
  {
    ReloadedIs(h, false, s, index);
    WithoutPruningAllSurvive(h, index, |h|);
    DisplayedNamesAre(h, s, index, false, 0);
    assert h[..|h|] == h;
    forall e <- h | Included(s, index, e.name) ensures e.name in DisplayedNames(h, s, index, false, 0) {
      var k :| 0 <= k < |h| && h[k] == e;
      assert Displayed(h, s, index, false, k);
    }
  }

  /** Of two obsolete neighbours the second stays, and a displayable entry behind an obsolete one is not shown. */
  lemma PruningSkipsANeighbour(a: string, b: string, s: Settings, index: Index)
    requires a !in index
    ensures Reloaded([Entry(1, a), Entry(1, b)], 0, true, s, index) == ([Entry(1, b)], [])
  {
    var h := [Entry(1, a), Entry(1, b)];
    assert EraseAt(h, 0) == [Entry(1, b)];
    assert Reloaded(EraseAt(h, 0), 1, true, s, index) == (EraseAt(h, 0), []);
  }

  // ---- the displayed history grows old --------------------------------------------------------

  /** The displayable names of a history, most frequent first: what the menu is meant to begin with. */
  function PresentNames(h: History, s: Settings, index: Index): seq<string> {
    DisplayedNames(h, s, index, false, 0)
  }

  /** What is kept for display is in the history that is left. */
  lemma DisplayedNamesSurvive(h: History, prune: bool, s: Settings, index: Index)
    requires UniqueNames(h)
    ensures forall name <- DisplayedNames(h, s, index, prune, 0) ::
              Included(s, index, name) && Has(Survivors(h, index, prune, |h|), name)
  {
    DisplayedNamesAre(h, s, index, prune, 0);
    SurvivorsAre(h, index, prune, |h|);
    forall name <- DisplayedNames(h, s, index, prune, 0)
      ensures Included(s, index, name) && Has(Survivors(h, index, prune, |h|), name)
    {
      var k: nat :| k < |h| && Displayed(h, s, index, prune, k) && h[k].name == name;
      assert !Pruned(h, index, prune, k);
      assert h[k] in Survivors(h, index, prune, |h|);
    }
  }

  lemma {:induction false} SurvivorsInOrder(h: History, index: Index, prune: bool, n: nat)
    requires n <= |h| && Sorted(h) && UniqueNames(h)
    ensures Sorted(Survivors(h, index, prune, n)) && UniqueNames(Survivors(h, index, prune, n))
    ensures forall e <- Survivors(h, index, prune, n) :: e in h[..n]
  {
    if n > 0 {
      SurvivorsInOrder(h, index, prune, n - 1);
      assert h[..n] == h[..n - 1] + [h[n - 1]];
      var before := Survivors(h, index, prune, n - 1);
      forall i | 0 <= i < |before| ensures before[i].count >= h[n - 1].count && before[i].name != h[n - 1].name {
        assert before[i] in h[..n - 1];
      }
    }
  }

  /** Two lists of the same names in history order are the same list. */
  lemma {:induction false} OneHistoryOrder(a: seq<string>, b: seq<string>, h: History, from: nat)
    requires InHistoryOrder(a, h, from) && InHistoryOrder(b, h, from)
    requires forall name :: name in a <==> name in b
    ensures a == b
  {
    assert b != [] ==> b[0] in b;
    if a != [] {
      assert a[0] in a && a[0] in b;
      assert b[0] in b && b[0] in a;
      FirstInOrder(a, b[0], h, from);
      FirstInOrder(b, a[0], h, from);
      NameFound(h, a[0]);
      NameFound(h, b[0]);
      assert a[0] == b[0];
      RestInOrder(a, h, from);
      RestInOrder(b, h, from);
      OneHistoryOrder(a[1..], b[1..], h, from);
      assert a == [a[0]] + a[1..] && b == [b[0]] + b[1..];
    }
  }

  lemma FirstInOrder(a: seq<string>, name: string, h: History, from: nat)
    requires InHistoryOrder(a, h, from) && name in a
    ensures IndexOfName(h, a[0]) <= IndexOfName(h, name)
  {
    var k :| 0 <= k < |a| && a[k] == name;
  }

  lemma RestInOrder(a: seq<string>, h: History, from: nat)
    requires a != [] && InHistoryOrder(a, h, from)
    ensures InHistoryOrder(a[1..], h, from)
    ensures forall name :: name in a[1..] <==> name in a && name != a[0]
  {
    assert a == [a[0]] + a[1..];
    forall k | 1 <= k < |a| ensures a[k] != a[0] {
      assert IndexOfName(h, a[0]) < IndexOfName(h, a[k]);
    }
  }

  /** Present count of a name: the count at the last update and the choices since. */
  function CountNow(base: History, picks: seq<string>, name: string): int {
    CountOf(base, name) + Occurrences(picks, name)
  }

  /** `a` ranks before `b` after these choices. */
  predicate RanksBefore(base: History, picks: seq<string>, a: string, b: string) {
    || CountNow(base, picks, a) > CountNow(base, picks, b)
    || (CountNow(base, picks, a) == CountNow(base, picks, b) && Arrival(base, picks, a) < Arrival(base, picks, b))
  }

  lemma OrderIsRank(base: History, picks: seq<string>, a: string, b: string)
    requires Sorted(base) && UniqueNames(base)
    requires Has(AfterRun(base, picks), a) && Has(AfterRun(base, picks), b)
    ensures var h := AfterRun(base, picks);
            IndexOfName(h, a) < IndexOfName(h, b) <==> RanksBefore(base, picks, a, b)
  {
    var h := AfterRun(base, picks);
    RunCounts(base, picks, a);
    RunCounts(base, picks, b);
    RunIsRanked(base, picks);
    NameFound(h, a);
    NameFound(h, b);
    var i, j := IndexOfName(h, a), IndexOfName(h, b);
    assert i < j ==> Earlier(h[i], h[j], base, picks);
    assert j < i ==> Earlier(h[j], h[i], base, picks);
    assert i == j ==> a == b;
  }

  /** Every displayable name that has been counted so far is among these. */
  ghost predicate CoversCounted(names: seq<string>, base: History, picks: seq<string>, s: Settings, index: Index) {
    forall name | Included(s, index, name) && (Has(base, name) || name in picks) :: name in names
  }

  ghost predicate RankedNow(names: seq<string>, base: History, picks: seq<string>) {
    forall p, q :: 0 <= p < q < |names| ==> RanksBefore(base, picks, names[p], names[q])
  }

  /**
   Choices are counted without a reload, so the displayed history grows old. After some choices it is still the
   present order, by frequency, if and only if it covers every counted name and no choice has made a name
   outrank one displayed above it.
   */
  lemma HeadIsPresentOrder(names: seq<string>, base: History, picks: seq<string>, s: Settings, index: Index)
    requires Sorted(base) && UniqueNames(base)
    requires forall name <- names :: Included(s, index, name) && Has(base, name)
    ensures names == PresentNames(AfterRun(base, picks), s, index)
            <==> CoversCounted(names, base, picks, s, index) && RankedNow(names, base, picks)
  {
    var h := AfterRun(base, picks);
    var present := PresentNames(h, s, index);
    RunKeeps(base, picks);
    ReloadedIs(h, false, s, index);
    ReloadKeepsOrder(h, 0, false, s, index);
    PresentNamesAre(base, picks, s, index);
    if names == present {
      forall p, q | 0 <= p < q < |names| ensures RanksBefore(base, picks, names[p], names[q]) {
        OrderIsRank(base, picks, names[p], names[q]);
      }
    }
    if CoversCounted(names, base, picks, s, index) && RankedNow(names, base, picks) {
      RankedIsHistoryOrder(names, base, picks);
      forall name ensures name in names <==> name in present {
      }
      OneHistoryOrder(names, present, h, 0);
    }
  }

  lemma PresentNamesAre(base: History, picks: seq<string>, s: Settings, index: Index)
    requires Sorted(base) && UniqueNames(base)
    ensures forall name :: name in PresentNames(AfterRun(base, picks), s, index)
                           <==> Included(s, index, name) && (Has(base, name) || name in picks)
  {
    var h := AfterRun(base, picks);
    DisplayedNamesAre(h, s, index, false, 0);
    forall name ensures name in PresentNames(h, s, index)
                        <==> Included(s, index, name) && (Has(base, name) || name in picks)
    {
      RunCounts(base, picks, name);
      if Included(s, index, name) && Has(h, name) {
        NameFound(h, name);
        assert Displayed(h, s, index, false, IndexOfName(h, name));
      }
      if name in PresentNames(h, s, index) {
        var k: nat :| k < |h| && Displayed(h, s, index, false, k) && h[k].name == name;
        assert h[k] in h;
      }
    }
  }

  lemma RankedIsHistoryOrder(names: seq<string>, base: History, picks: seq<string>)
    requires Sorted(base) && UniqueNames(base) && (forall name <- names :: Has(base, name))
    requires RankedNow(names, base, picks)
    ensures InHistoryOrder(names, AfterRun(base, picks), 0)
  {
    var h := AfterRun(base, picks);
    forall p | 0 <= p < |names| ensures Has(h, names[p]) {
      assert names[p] in names;
      RunCounts(base, picks, names[p]);
    }
    forall p, q | 0 <= p < q < |names| ensures IndexOfName(h, names[p]) < IndexOfName(h, names[q]) {
      OrderIsRank(base, picks, names[p], names[q]);
    }
  }

  /** Choosing the second of two names with the same count is enough. */
  lemma ChoiceMakesHeadOld(a: string, b: string, s: Settings, index: Index)
    requires a != b && Included(s, index, a) && Included(s, index, b)
    ensures var base := [Entry(1, a), Entry(1, b)];
            && DisplayedNames(base, s, index, true, 0) == [a, b]
            && PresentNames(AfterRun(base, [b]), s, index) == [b, a]
  {
    var base := [Entry(1, a), Entry(1, b)];
    assert [b][..0] == [];
    FirstWithName(base, b, 1);
    assert EraseAt(base, 1) == [Entry(1, a)];
    UpperBoundIs([Entry(1, a)], 2, 0);
    assert InsertAt([Entry(1, a)], 0, Entry(2, b)) == [Entry(2, b), Entry(1, a)];
    assert AfterRun(base, [b]) == [Entry(2, b), Entry(1, a)];
    TwoDisplayed(base, s, index, true);
    TwoDisplayed([Entry(2, b), Entry(1, a)], s, index, false);
  }

  lemma TwoDisplayed(h: History, s: Settings, index: Index, prune: bool)
    requires |h| == 2 && Included(s, index, h[0].name) && Included(s, index, h[1].name)
    ensures DisplayedNames(h, s, index, prune, 0) == [h[0].name, h[1].name]
  {
    assert Displayed(h, s, index, prune, 0) && Displayed(h, s, index, prune, 1);
    assert DisplayedNames(h, s, index, prune, 1) == [h[1].name] + DisplayedNames(h, s, index, prune, 2);
  }

  // ------------------------------------------------------------------------------------------
  // Writing the menu
  // ------------------------------------------------------------------------------------------

  /** What the user sees: the history's lines, then the other lines in the order of the comparison. */
  ghost predicate IsMenu(output: seq<string>, keys: seq<string>, ci: bool, history: seq<string>) {
    && history <= output
    && Ordered(ci, output[|history|..])
    && multiset(output) == multiset(keys)
  }

  /** The position of the key that the comparison identifies with `name`, or the length. */
  method FindKey(ci: bool, names: seq<string>, name: string) returns (i: nat)
    ensures i <= |names|
    ensures i < |names| ==> Key(ci, names[i]) == Key(ci, name)
    ensures i == |names| ==> name !in names
  {
    i := 0;
    while i < |names| && (Before(ci, names[i], name) || Before(ci, name, names[i]))
      invariant i <= |names|
      invariant name !in names[..i]
    {
      BeforeIsStrictOrder(ci, name, name, name);
      i := i + 1;
    }
    if i < |names| {
      BeforeIsStrictOrder(ci, names[i], name, name);
    } else {
      assert names[..i] == names;
    }
  }

  lemma EquivalentKeysAreEqual(ci: bool, names: seq<string>, i: nat, name: string)
    requires Ordered(ci, names) && i < |names| && name in names && Key(ci, names[i]) == Key(ci, name)
    ensures names[i] == name
  {
    var k :| 0 <= k < |names| && names[k] == name;
    assert i < k ==> Before(ci, names[i], names[k]);
    assert k < i ==> Before(ci, names[k], names[i]);
    BeforeIsStrictOrder(ci, names[i], name, name);
  }

  lemma NextNameIsLeft(keys: seq<string>, history: seq<string>, i: nat, names: seq<string>)
    requires i < |history| && history[i] in keys && Distinct(history)
    requires multiset(keys) == multiset(history[..i]) + multiset(names)
    ensures history[i] in names
  {
    assert history[i] !in history[..i];
    assert history[i] in multiset(keys) && history[i] !in multiset(history[..i]);
  }

  /** `do_dmenu` up to reading the choice; None stands for abort. */
  method WriteMenu(ci: bool, keys: seq<string>, history: seq<string>) returns (output: Option<seq<string>>)
    requires Ordered(ci, keys)
    ensures (forall name <- history :: name in keys) && Distinct(history)
            ==> output.Some? && IsMenu(output.value, keys, ci, history)
  {
    if history == [] {
      assert keys[|history|..] == keys;
      return Some(keys);
    }
    var names := keys;
    var written: seq<string> := [];
    ghost var good := (forall name <- history :: name in keys) && Distinct(history);
    for i := 0 to |history|
      invariant Ordered(ci, names)
      invariant written == history[..i]
      invariant good ==> multiset(keys) == multiset(written) + multiset(names)
    {
      var name := history[i];
      if good {
        NextNameIsLeft(keys, history, i, names);
      }
      var k := FindKey(ci, names, name);
      if k == |names| {
        return None;
      }
      if good {
        EquivalentKeysAreEqual(ci, names, k, name);
      }
      ElementsBeforeErase(names, k);
      names := EraseAt(names, k);
      written := written + [name];
    }
    assert history[..|history|] == history;
    SplitConcat(history, names);
    return Some(written + names);
  }

  // ------------------------------------------------------------------------------------------
  // Resolving the choice
  // ------------------------------------------------------------------------------------------

  datatype Lookup = AppLookup(app: string, isGeneric: bool, args: string) | CommandLookup(command: string)

  /** The lines that the query extends. */
  predicate IsPrefix(items: seq<Item>, i: nat, query: string) {
    i < |items| && StartsWith(query, items[i].line)
  }

  /** The answer: the line itself, else the shortest line that the query extends, else a command. */
  ghost predicate Answers(r: Lookup, ci: bool, items: seq<Item>, query: string) {
    if exists item <- items :: Key(ci, item.line) == Key(ci, query) then
      exists item <- items :: Key(ci, item.line) == Key(ci, query) && r == AppLookup(item.app, item.isGeneric, "")
    else if exists i: nat :: IsPrefix(items, i, query) then
      exists i: nat :: IsPrefix(items, i, query)
                  && r == AppLookup(items[i].app, items[i].isGeneric, query[|items[i].line|..])
                  && forall j: nat :: IsPrefix(items, j, query) ==> |items[i].line| <= |items[j].line|
    else r == CommandLookup(query)
  }

  /** `lookup_name` */
  method LookupName(ci: bool, items: seq<Item>, query: string) returns (r: Lookup)
    requires Ordered(ci, Lines(items))
    ensures Answers(r, ci, items, query)
  {
    var found := FindItem(ci, items, query);
    if found < |items| {
      assert items[found] in items;
      return AppLookup(items[found].app, items[found].isGeneric, "");
    }
    for i := 0 to |items|
      invariant forall j :: 0 <= j < i ==> !IsPrefix(items, j, query)
    {
      if StartsWith(query, items[i].line) {
        assert IsPrefix(items, i, query);
        forall j: nat | IsPrefix(items, j, query) ensures |items[i].line| <= |items[j].line| {
          if i < j {
            assert Before(ci, Lines(items)[i], Lines(items)[j]);
            ShorterPrefixComesFirst(ci, items[i].line, items[j].line, query);
          }
        }
        return AppLookup(items[i].app, items[i].isGeneric, query[|items[i].line|..]);
      }
    }
    return CommandLookup(query);
  }

  lemma ShorterPrefixComesFirst(ci: bool, a: string, b: string, query: string)
    requires StartsWith(query, a) && StartsWith(query, b) && Before(ci, a, b)
    ensures |a| <= |b|
  {
    if |b| < |a| {
      assert a[..|b|] == query[..|a|][..|b|] == query[..|b|] == b;
      PrefixComesFirst(ci, b, a);
      BeforeIsStrictOrder(ci, a, b, a);
    }
  }
}
