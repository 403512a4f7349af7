/**
 src/NotifyKqueue.cc: a detached thread rescans directories and queues the differences under a mutex; the
 main thread takes the queue. Any interleaving of the two threads is a sequence of actions.
 */
module NotifyKqueue {
  import opened Utilities

  datatype ChangeType = Modified | Deleted

  /** `FileChange`: the name is relative to the search path of that rank. */
  datatype Change = Change(rank: nat, name: string, status: ChangeType)

  /** `directory_entry`: the path is empty or ends in a slash. */
  datatype Directory = Directory(rank: nat, path: string, files: set<string>)

  datatype Owner = Nobody | Scanner | Consumer

  /** Where the scanning thread is, with the names found by the last scan. */
  datatype ScannerAt =
    | Idle
    | Scanned(dir: nat, found: set<string>)
    | Erasing(dir: nat, found: set<string>, missing: seq<string>)
    | Adding(dir: nat, found: set<string>, added: seq<string>)
    | Unlocked(dir: nat)

  /** Where `getchanges` is. */
  datatype ConsumerAt =
    | Outside
    | Locked
    | Copied(result: seq<Change>)
    | Cleared(result: seq<Change>)
    | Emptying(result: seq<Change>)

  datatype State = State(
    dirs: seq<Directory>,
    changes: seq<Change>,
    lock: Owner,
    scanner: ScannerAt,
    consumer: ConsumerAt,
    pipe: nat,
    emitted: seq<Change>,                 // history: everything pushed, everything returned, the last scans
    delivered: seq<Change>,
    lastScan: map<nat, set<string>>
  )

  /** `missing` and `added` are the results of `set_difference`, in whatever order the elements come. */
  datatype Action =
    | Scan(dir: nat, found: set<string>)
    | ScannerLocks(missing: seq<string>)
    | EraseMissing
    | BeginAdding(added: seq<string>)
    | InsertAdded
    | ScannerUnlocks
    | WriteByte(room: bool)
    | ConsumerLocks
    | Copy
    | Clear
    | ConsumerUnlocks
    | ReadByte
    | Return

  predicate PlainName(name: string) {
    '/' !in name
  }

  ghost predicate Lists(s: seq<string>, elements: set<string>) {
    (forall x :: x in s <==> x in elements) && forall i, j :: 0 <= i < j < |s| ==> s[i] != s[j]
  }

  function Push(s: State, dir: nat, files: set<string>, name: string, status: ChangeType): State
    requires dir < |s.dirs|
  {
    var d := s.dirs[dir];
    var c := Change(d.rank, d.path + name, status);
    s.(dirs := s.dirs[dir := d.(files := files)], changes := s.changes + [c], emitted := s.emitted + [c])
  }

  ghost function Do(s: State, a: Action): Option<State> {
    match a
    case Scan(dir, found) =>
      if s.scanner.Idle? && dir < |s.dirs| && forall f <- found :: PlainName(f)
      then Some(s.(scanner := Scanned(dir, found)))
      else None
    case ScannerLocks(missing) =>
      if s.scanner.Scanned? && s.lock.Nobody? && s.scanner.dir < |s.dirs|
         && Lists(missing, s.dirs[s.scanner.dir].files - s.scanner.found)
      then Some(s.(lock := Scanner, scanner := Erasing(s.scanner.dir, s.scanner.found, missing)))
      else None
    case EraseMissing =>
      if s.scanner.Erasing? && s.scanner.missing != [] && s.scanner.dir < |s.dirs| then
        var name := s.scanner.missing[0];
        Some(Push(s, s.scanner.dir, s.dirs[s.scanner.dir].files - {name}, name, Deleted)
             .(scanner := Erasing(s.scanner.dir, s.scanner.found, s.scanner.missing[1..])))
      else None
    case BeginAdding(added) =>
      if s.scanner.Erasing? && s.scanner.missing == [] && s.scanner.dir < |s.dirs|
         && Lists(added, s.scanner.found - s.dirs[s.scanner.dir].files)
      then Some(s.(scanner := Adding(s.scanner.dir, s.scanner.found, added)))
      else None
    case InsertAdded =>
      if s.scanner.Adding? && s.scanner.added != [] && s.scanner.dir < |s.dirs| then
        var name := s.scanner.added[0];
        Some(Push(s, s.scanner.dir, s.dirs[s.scanner.dir].files + {name}, name, Modified)
             .(scanner := Adding(s.scanner.dir, s.scanner.found, s.scanner.added[1..])))
      else None
    case ScannerUnlocks =>
      if s.scanner.Adding? && s.scanner.added == []
      then Some(s.(lock := Nobody, scanner := Unlocked(s.scanner.dir),
                   lastScan := s.lastScan[s.scanner.dir := s.scanner.found]))
      else None
    case WriteByte(room) =>
      if s.scanner.Unlocked? then Some(s.(scanner := Idle, pipe := if room then s.pipe + 1 else s.pipe)) else None
    case ConsumerLocks =>
      if s.consumer.Outside? && s.lock.Nobody? then Some(s.(lock := Consumer, consumer := Locked)) else None
    case Copy => if s.consumer.Locked? then Some(s.(consumer := Copied(s.changes))) else None
    case Clear => if s.consumer.Copied? then Some(s.(changes := [], consumer := Cleared(s.consumer.result))) else None
    case ConsumerUnlocks =>
      if s.consumer.Cleared? then Some(s.(lock := Nobody, consumer := Emptying(s.consumer.result))) else None
    case ReadByte => if s.consumer.Emptying? && s.pipe > 0 then Some(s.(pipe := s.pipe - 1)) else None
    case Return =>
      if s.consumer.Emptying? && s.pipe == 0
      then Some(s.(consumer := Outside, delivered := s.delivered + s.consumer.result))
      else None
  }

  ghost function Run(s: State, actions: seq<Action>): Option<State> {
    if actions == [] then Some(s)
    else
      var before := Run(s, actions[..|actions| - 1]);
      if before.None? then None else Do(before.value, actions[|actions| - 1])
  }

  // ------------------------------------------------------------------------------------------
  // Full names
  // ------------------------------------------------------------------------------------------

  predicate WellFormed(d: Directory) {
    && (d.path == "" || d.path[|d.path| - 1] == '/')
    && forall f <- d.files :: PlainName(f)
  }

  ghost predicate WellFormedDirs(dirs: seq<Directory>) {
    && (forall d <- dirs :: WellFormed(d))
    && forall i, j :: 0 <= i < j < |dirs| ==> (dirs[i].rank, dirs[i].path) != (dirs[j].rank, dirs[j].path)
  }

  /** The file is recorded in the directory. */
  predicate HasFile(d: Directory, file: (nat, string)) {
    d.rank == file.0 && StartsWith(file.1, d.path) && file.1[|d.path|..] in d.files
  }

  ghost predicate Present(dirs: seq<Directory>, file: (nat, string)) {
    exists k :: 0 <= k < |dirs| && HasFile(dirs[k], file)
  }

  /** A full name determines its directory: only one split has a plain name after the last slash. */
  lemma OneSplit(p: string, q: string, name: string)
    requires StartsWith(name, p) && StartsWith(name, q)
    requires p == "" || p[|p| - 1] == '/'
    requires q == "" || q[|q| - 1] == '/'
    requires PlainName(name[|p|..]) && PlainName(name[|q|..])
    ensures p == q
  {
    forall i | |p| <= i < |name| ensures name[i] != '/' {
      assert name[i] == name[|p|..][i - |p|];
    }
    forall i | |q| <= i < |name| ensures name[i] != '/' {
      assert name[i] == name[|q|..][i - |q|];
    }
    assert p != "" ==> name[|p| - 1] == name[..|p|][|p| - 1];
    assert q != "" ==> name[|q| - 1] == name[..|q|][|q| - 1];
    assert |p| == |q|;
  }

  /** What an observer knows after replaying changes. */
  function Replay(files: set<(nat, string)>, changes: seq<Change>): set<(nat, string)> {
    if changes == [] then files
    else
      var before, c := Replay(files, changes[..|changes| - 1]), changes[|changes| - 1];
      if c.status.Deleted? then before - {(c.rank, c.name)} else before + {(c.rank, c.name)}
  }

  /** Recording one more or one less file changes the presence of exactly its full name. */
  lemma RecordedFile(dirs: seq<Directory>, k: nat, files: set<string>, name: string)
    requires WellFormedDirs(dirs) && k < |dirs| && PlainName(name)
    requires files == dirs[k].files + {name} || files == dirs[k].files - {name}
    ensures var dirs' := dirs[k := dirs[k].(files := files)];
            && WellFormedDirs(dirs')
            && forall file :: Present(dirs', file) <==>
                 if file == (dirs[k].rank, dirs[k].path + name) then name in files else Present(dirs, file)
  {
    var d := dirs[k];
    var dirs' := dirs[k := d.(files := files)];
    assert d in dirs;
    assert WellFormedDirs(dirs') by {
      forall e <- dirs' ensures WellFormed(e) {
        var j :| 0 <= j < |dirs'| && dirs'[j] == e;
        assert j != k ==> dirs[j] == e && e in dirs;
      }
    }
    var own := (d.rank, d.path + name);
    assert own.1[|d.path|..] == name && StartsWith(own.1, d.path);
    forall file ensures Present(dirs', file) <==> if file == own then name in files else Present(dirs, file) {
      forall j | 0 <= j < |dirs| && j != k && file == own ensures !HasFile(dirs[j], file) {
        assert dirs[j] in dirs;
        if HasFile(dirs[j], file) {
          OneSplit(dirs[j].path, d.path, file.1);
        }
      }
      assert forall j :: 0 <= j < |dirs| && j != k ==> dirs'[j] == dirs[j];
      assert HasFile(dirs'[k], file) <==> if file == own then name in files else HasFile(d, file) by {
        if StartsWith(file.1, d.path) {
          assert file.1 == d.path + file.1[|d.path|..];
        }
      }
      if HasFile(dirs'[k], file) {
        assert Present(dirs', file);
      }
      if file != own && Present(dirs, file) {
        var j :| 0 <= j < |dirs| && HasFile(dirs[j], file);
        assert HasFile(dirs'[j], file);
      }
    }
  }

  // ------------------------------------------------------------------------------------------
  // The invariant
  // ------------------------------------------------------------------------------------------

  /** The mutex is held by the thread that is inside its critical section. */
  ghost predicate Exclusive(s: State) {
    && (s.lock.Scanner? <==> s.scanner.Erasing? || s.scanner.Adding?)
    && (s.lock.Consumer? <==> s.consumer.Locked? || s.consumer.Copied? || s.consumer.Cleared?)
  }

  /** Delivered changes, then changes on their way to the caller, then queued changes. */
  function Pipeline(s: State): seq<Change> {
    s.delivered + (if s.consumer.Cleared? || s.consumer.Emptying? then s.consumer.result else []) + s.changes
  }

  ghost predicate NothingLost(s: State) {
    Pipeline(s) == s.emitted && (s.consumer.Copied? ==> s.consumer.result == s.changes)
  }

  /** The recorded file sets are on their way from the old to the new scan. */
  ghost predicate FollowsScan(s: State) {
    && (!s.scanner.Idle? ==> s.scanner.dir < |s.dirs|)
    && (s.scanner.Scanned? || s.scanner.Erasing? || s.scanner.Adding? ==> forall f <- s.scanner.found :: PlainName(f))
    && (s.scanner.Erasing? ==> Lists(s.scanner.missing, s.dirs[s.scanner.dir].files - s.scanner.found))
    && (s.scanner.Adding? ==> && Lists(s.scanner.added, s.scanner.found - s.dirs[s.scanner.dir].files)
                              && s.dirs[s.scanner.dir].files <= s.scanner.found)
    && (forall k <- s.lastScan :: k < |s.dirs|
          && (((s.scanner.Erasing? || s.scanner.Adding?) && s.scanner.dir == k) || s.dirs[k].files == s.lastScan[k]))
  }

  ghost predicate Mirrors(s: State, initial: set<(nat, string)>) {
    WellFormedDirs(s.dirs) && forall file :: file in Replay(initial, s.emitted) <==> Present(s.dirs, file)
  }

  ghost predicate Inv(s: State, initial: set<(nat, string)>) {
    Exclusive(s) && NothingLost(s) && FollowsScan(s) && Mirrors(s, initial)
  }

  /** The state at the start of the thread. */
  ghost predicate Initial(s: State, initial: set<(nat, string)>) {
    && s.changes == s.emitted == s.delivered == [] && s.lock.Nobody? && s.scanner.Idle? && s.consumer.Outside?
    && s.lastScan == map[]
    && WellFormedDirs(s.dirs) && forall file :: file in initial <==> Present(s.dirs, file)
  }

  lemma ListsRest(s: seq<string>, elements: set<string>)
    requires s != [] && Lists(s, elements)
    ensures s[0] in elements && Lists(s[1..], elements - {s[0]})
  {
    assert s == [s[0]] + s[1..];
  }

  lemma PushKeepsMirror(s: State, initial: set<(nat, string)>, dir: nat, files: set<string>, name: string,
                        status: ChangeType)
    requires Mirrors(s, initial) && dir < |s.dirs| && PlainName(name)
    requires if status.Deleted? then files == s.dirs[dir].files - {name} else files == s.dirs[dir].files + {name}
    ensures Mirrors(Push(s, dir, files, name, status), initial)
  {
    RecordedFile(s.dirs, dir, files, name);
    var s' := Push(s, dir, files, name, status);
    assert s'.emitted[..|s.emitted|] == s.emitted;
  }

  lemma PushLosesNothing(s: State, dir: nat, files: set<string>, name: string, status: ChangeType)
    requires NothingLost(s) && dir < |s.dirs| && !s.consumer.Copied?
    ensures NothingLost(Push(s, dir, files, name, status))
  {
  }

  lemma EraseKeepsInv(s: State, initial: set<(nat, string)>)
    requires Inv(s, initial) && Do(s, EraseMissing).Some?
    ensures Inv(Do(s, EraseMissing).value, initial)
  {
    var d, name := s.scanner.dir, s.scanner.missing[0];
    ListsRest(s.scanner.missing, s.dirs[d].files - s.scanner.found);
    assert s.dirs[d] in s.dirs;
    PushKeepsMirror(s, initial, d, s.dirs[d].files - {name}, name, Deleted);
    PushLosesNothing(s, d, s.dirs[d].files - {name}, name, Deleted);
    assert s.dirs[d].files - {name} - s.scanner.found == s.dirs[d].files - s.scanner.found - {name};
  }

  lemma InsertKeepsInv(s: State, initial: set<(nat, string)>)
    requires Inv(s, initial) && Do(s, InsertAdded).Some?
    ensures Inv(Do(s, InsertAdded).value, initial)
  {
    var d, name := s.scanner.dir, s.scanner.added[0];
    ListsRest(s.scanner.added, s.scanner.found - s.dirs[d].files);
    PushKeepsMirror(s, initial, d, s.dirs[d].files + {name}, name, Modified);
    PushLosesNothing(s, d, s.dirs[d].files + {name}, name, Modified);
    assert s.scanner.found - (s.dirs[d].files + {name}) == s.scanner.found - s.dirs[d].files - {name};
  }

  lemma StepKeepsInv(s: State, a: Action, initial: set<(nat, string)>)
    requires Inv(s, initial) && Do(s, a).Some?
    ensures Inv(Do(s, a).value, initial)
  {
    if a.EraseMissing? {
      EraseKeepsInv(s, initial);
    } else if a.InsertAdded? {
      InsertKeepsInv(s, initial);
    } else {
      QuietStepKeepsInv(s, a, initial);
    }
  }

  /** The other steps emit nothing. */
  lemma QuietStepKeepsInv(s: State, a: Action, initial: set<(nat, string)>)
    requires Inv(s, initial) && Do(s, a).Some? && !a.EraseMissing? && !a.InsertAdded?
    ensures Inv(Do(s, a).value, initial)
  {
    var s' := Do(s, a).value;
    assert s'.dirs == s.dirs && s'.emitted == s.emitted;
    assert Pipeline(s') == Pipeline(s);
    if a.BeginAdding? || a.ScannerUnlocks? {
      var files, found := s.dirs[s.scanner.dir].files, s.scanner.found;
      if a.BeginAdding? {
        assert forall f <- files :: f !in found ==> f in files - found;
      } else {
        assert forall f <- found :: f !in files ==> f in found - files;
        assert files == found;
      }
    }
  }

  lemma {:induction false} ReachableStatesKeepInv(s: State, actions: seq<Action>, initial: set<(nat, string)>)
    requires Initial(s, initial) && Run(s, actions).Some?
    ensures Inv(Run(s, actions).value, initial)
  {
    if actions != [] {
      ReachableStatesKeepInv(s, actions[..|actions| - 1], initial);
      StepKeepsInv(Run(s, actions[..|actions| - 1]).value, actions[|actions| - 1], initial);
    }
  }

  /**
   Every interleaving: what `getchanges` has returned, followed by what is still queued, is exactly what was
   emitted, in order; replaying all of it gives the recorded file sets; and between two scans every scanned
   directory records exactly the files of its last scan.
   */
  lemma NoChangeIsLost(s: State, actions: seq<Action>, initial: set<(nat, string)>)
    requires Initial(s, initial) && Run(s, actions).Some?
    ensures var t := Run(s, actions).value;
            && Pipeline(t) == t.emitted
            && (t.consumer.Outside? ==> t.delivered + t.changes == t.emitted)
            && (forall file :: file in Replay(initial, t.emitted) <==> Present(t.dirs, file))
            && (t.scanner.Idle? ==> forall k <- t.lastScan :: k < |t.dirs| && t.dirs[k].files == t.lastScan[k])
  {
    ReachableStatesKeepInv(s, actions, initial);
    var t := Run(s, actions).value;
    assert t.delivered + [] == t.delivered;
  }

  // ------------------------------------------------------------------------------------------
  // Progress of each thread
  // ------------------------------------------------------------------------------------------

  ghost predicate StepOf(states: seq<State>, actions: seq<Action>, i: nat) {
    i < |actions| && i + 1 < |states| && Do(states[i], actions[i]) == Some(states[i + 1])
  }

  ghost predicate Path(s: State, actions: seq<Action>, states: seq<State>, t: State) {
    && |states| == |actions| + 1 && states[0] == s && states[|actions|] == t
    && forall i: nat {:trigger StepOf(states, actions, i)} | i < |actions| :: StepOf(states, actions, i)
  }

  /** The actions lead from one state to the other, through some states in between. */
  ghost predicate Leads(s: State, actions: seq<Action>, t: State) {
    exists states :: Path(s, actions, states, t)
  }

  lemma {:induction false} PathIsRun(s: State, actions: seq<Action>, states: seq<State>, t: State)
    requires Path(s, actions, states, t)
    ensures Run(s, actions) == Some(t)
  {
    if actions != [] {
      var n := |actions| - 1;
      var init, shorter := actions[..n], states[..n + 1];
      forall i: nat | i < n ensures StepOf(shorter, init, i) {
        assert StepOf(states, actions, i);
      }
      PathIsRun(s, init, shorter, states[n]);
      assert StepOf(states, actions, n);
    }
  }

  lemma LeadsIsRun(s: State, actions: seq<Action>, t: State)
    requires Leads(s, actions, t)
    ensures Run(s, actions) == Some(t)
  {
    var states :| Path(s, actions, states, t);
    PathIsRun(s, actions, states, t);
  }

  /** Two runs, one after the other. */
  lemma Follow(s: State, a: seq<Action>, t: State, b: seq<Action>, u: State)
    requires Leads(s, a, t) && Leads(t, b, u)
    ensures Leads(s, a + b, u)
  {
    var x :| Path(s, a, x, t);
    var y :| Path(t, b, y, u);
    var states, actions := x + y[1..], a + b;
    forall i: nat | i < |actions| ensures StepOf(states, actions, i) {
      if i < |a| {
        assert StepOf(x, a, i);
      } else {
        assert StepOf(y, b, i - |a|);
      }
    }
    assert Path(s, actions, states, u);
  }

  lemma RunOne(s: State, a: Action, t: State)
    requires Do(s, a) == Some(t)
    ensures Leads(s, [a], t)
  {
    assert StepOf([s, t], [a], 0);
    assert Path(s, [a], [s, t], t);
  }

  lemma RunNone(s: State)
    ensures Leads(s, [], s)
  {
    assert Path(s, [], [s], s);
  }

  function Times(a: Action, n: nat): seq<Action> {
    if n == 0 then [] else [a] + Times(a, n - 1)
  }

  /** The same action again and again: the first time, then the others. */
  lemma RunTimes(s: State, a: Action, t: State, n: nat, u: State)
    requires Do(s, a) == Some(t) && Leads(t, Times(a, n), u)
    ensures Leads(s, Times(a, n + 1), u)
  {
    RunOne(s, a, t);
    Follow(s, [a], t, Times(a, n), u);
  }

  lemma ByteIsRead(s: State)
    requires s.consumer.Emptying? && s.pipe > 0
    ensures Do(s, ReadByte) == Some(s.(pipe := s.pipe - 1))
  {
  }

  /** Emptying the pipe. */
  lemma {:induction false} PipeIsEmptied(s: State)
    requires s.consumer.Emptying?
    ensures Leads(s, Times(ReadByte, s.pipe), s.(pipe := 0))
    decreases s.pipe
  {
    if s.pipe == 0 {
      RunNone(s);
    } else {
      var t := s.(pipe := s.pipe - 1);
      ByteIsRead(s);
      PipeIsEmptied(t);
      RunTimes(s, ReadByte, t, t.pipe, s.(pipe := 0));
    }
  }

  /** The steps of an uninterrupted `getchanges`. */
  function GetChanges(s: State): seq<Action> {
    [ConsumerLocks] + [Copy] + [Clear] + [ConsumerUnlocks] + Times(ReadByte, s.pipe) + [Return]
  }

  /** Whenever the mutex is free, `getchanges` can run through and returns everything that is queued. */
  lemma QueueIsDelivered(s: State)
    requires s.consumer.Outside? && s.lock.Nobody?
    ensures Run(s, GetChanges(s)) == Some(s.(delivered := s.delivered + s.changes, changes := [], pipe := 0))
  {
    var t := s.(changes := [], consumer := Emptying(s.changes));
    var emptied := t.(pipe := 0);
    QueueIsTaken(s);
    PipeIsEmptied(t);
    Follow(s, [ConsumerLocks] + [Copy] + [Clear] + [ConsumerUnlocks], t, Times(ReadByte, s.pipe), emptied);
    var returned := s.(delivered := s.delivered + s.changes, changes := [], pipe := 0);
    RunOne(emptied, Return, returned);
    Follow(s, [ConsumerLocks] + [Copy] + [Clear] + [ConsumerUnlocks] + Times(ReadByte, s.pipe), emptied, [Return],
           returned);
    LeadsIsRun(s, GetChanges(s), returned);
  }

  lemma QueueIsTaken(s: State)
    requires s.consumer.Outside? && s.lock.Nobody?
    ensures Leads(s, [ConsumerLocks] + [Copy] + [Clear] + [ConsumerUnlocks],
                  s.(changes := [], consumer := Emptying(s.changes)))
  {
    var locked := s.(lock := Consumer, consumer := Locked);
    var copied := locked.(consumer := Copied(s.changes));
    var cleared := locked.(changes := [], consumer := Cleared(s.changes));
    var taken := s.(changes := [], consumer := Emptying(s.changes));
    RunOne(s, ConsumerLocks, locked);
    RunOne(locked, Copy, copied);
    RunOne(copied, Clear, cleared);
    RunOne(cleared, ConsumerUnlocks, taken);
    Follow(s, [ConsumerLocks], locked, [Copy], copied);
    Follow(s, [ConsumerLocks] + [Copy], copied, [Clear], cleared);
    Follow(s, [ConsumerLocks] + [Copy] + [Clear], cleared, [ConsumerUnlocks], taken);
  }

  /** The changes that are reported for these names of a directory. */
  function Reports(d: Directory, names: seq<string>, status: ChangeType): seq<Change> {
    if names == [] then []
    else [Change(d.rank, d.path + names[0], status)] + Reports(d, names[1..], status)
  }

  function Recorded(s: State, dir: nat, files: set<string>, reports: seq<Change>): State
    requires dir < |s.dirs|
  {
    s.(dirs := s.dirs[dir := s.dirs[dir].(files := files)],
       changes := s.changes + reports, emitted := s.emitted + reports)
  }

  /** Vanished files are reported one by one. */
  lemma {:induction false} MissingAreErased(s: State, missing: seq<string>)
    requires s.scanner.Erasing? && s.scanner.missing == missing && s.scanner.dir < |s.dirs|
    ensures var d := s.dirs[s.scanner.dir];
            Leads(s, Times(EraseMissing, |missing|),
                  Erased(s, d.files - (set x <- missing), Reports(d, missing, Deleted), []))
    decreases |missing|
  {
    var d := s.dirs[s.scanner.dir];
    if missing == [] {
      NothingRecorded(s, s.scanner.dir);
      RunNone(s);
      assert d.files - (set x <- missing) == d.files;
    } else {
      var next := Erased(s, d.files - {missing[0]}, Reports(d, [missing[0]], Deleted), missing[1..]);
      OneIsErased(s, d, missing);
      MissingAreErased(next, missing[1..]);
      assert missing == [missing[0]] + missing[1..];
      assert d.files - {missing[0]} - (set x <- missing[1..]) == d.files - (set x <- missing);
      ErasedTwice(s, d.files - {missing[0]}, d.files - (set x <- missing), d, missing);
      RunTimes(s, EraseMissing, next, |missing| - 1,
               Erased(s, d.files - (set x <- missing), Reports(d, missing, Deleted), []));
    }
  }

  function Erased(s: State, files: set<string>, reports: seq<Change>, missing: seq<string>): State
    requires s.scanner.Erasing? && s.scanner.dir < |s.dirs|
  {
    Recorded(s, s.scanner.dir, files, reports).(scanner := Erasing(s.scanner.dir, s.scanner.found, missing))
  }

  lemma OneIsErased(s: State, d: Directory, missing: seq<string>)
    requires s.scanner.Erasing? && s.scanner.missing == missing != [] && s.scanner.dir < |s.dirs|
    requires d == s.dirs[s.scanner.dir]
    ensures Do(s, EraseMissing)
         == Some(Erased(s, d.files - {missing[0]}, Reports(d, [missing[0]], Deleted), missing[1..]))
  {
    assert Reports(d, [missing[0]], Deleted) == [Change(d.rank, d.path + missing[0], Deleted)];
  }

  lemma ErasedTwice(s: State, files: set<string>, files': set<string>, d: Directory, missing: seq<string>)
    requires s.scanner.Erasing? && s.scanner.dir < |s.dirs| && d == s.dirs[s.scanner.dir] && missing != []
    ensures var next := Erased(s, files, Reports(d, [missing[0]], Deleted), missing[1..]);
            Erased(next, files', Reports(next.dirs[s.scanner.dir], missing[1..], Deleted), [])
            == Erased(s, files', Reports(d, missing, Deleted), [])
  {
    var next := Erased(s, files, Reports(d, [missing[0]], Deleted), missing[1..]);
    SameReports(next.dirs[s.scanner.dir], d, missing[1..], Deleted);
    ReportsGrow(d, missing, Deleted);
    RecordedTwice(s, s.scanner.dir, files, files',
                  Reports(d, [missing[0]], Deleted), Reports(d, missing[1..], Deleted));
  }

  lemma {:induction false} SameReports(a: Directory, b: Directory, names: seq<string>, status: ChangeType)
    requires a.rank == b.rank && a.path == b.path
    ensures Reports(a, names, status) == Reports(b, names, status)
  {
    if names != [] {
      SameReports(a, b, names[1..], status);
    }
  }

  lemma NothingRecorded(s: State, dir: nat)
    requires dir < |s.dirs|
    ensures Recorded(s, dir, s.dirs[dir].files, []) == s
  {
    Neutral(s.changes);
    Neutral(s.emitted);
    assert s.dirs[dir := s.dirs[dir].(files := s.dirs[dir].files)] == s.dirs;
  }

  lemma ReportsGrow(d: Directory, names: seq<string>, status: ChangeType)
    requires names != []
    ensures Reports(d, names, status) == Reports(d, [names[0]], status) + Reports(d, names[1..], status)
  {
    assert [names[0]][1..] == [];
    Neutral([Change(d.rank, d.path + names[0], status)]);
  }

  /** New files are reported one by one. */
  lemma {:induction false} AddedAreInserted(s: State, added: seq<string>)
    requires s.scanner.Adding? && s.scanner.added == added && s.scanner.dir < |s.dirs|
    ensures var d := s.dirs[s.scanner.dir];
            Leads(s, Times(InsertAdded, |added|),
                  Inserted(s, d.files + (set x <- added), Reports(d, added, Modified), []))
    decreases |added|
  {
    var d := s.dirs[s.scanner.dir];
    if added == [] {
      NothingRecorded(s, s.scanner.dir);
      RunNone(s);
      assert d.files + (set x <- added) == d.files;
    } else {
      var next := Inserted(s, d.files + {added[0]}, Reports(d, [added[0]], Modified), added[1..]);
      OneIsInserted(s, d, added);
      AddedAreInserted(next, added[1..]);
      assert added == [added[0]] + added[1..];
      assert d.files + {added[0]} + (set x <- added[1..]) == d.files + (set x <- added);
      InsertedTwice(s, d.files + {added[0]}, d.files + (set x <- added), d, added);
      RunTimes(s, InsertAdded, next, |added| - 1,
               Inserted(s, d.files + (set x <- added), Reports(d, added, Modified), []));
    }
  }

  function Inserted(s: State, files: set<string>, reports: seq<Change>, added: seq<string>): State
    requires s.scanner.Adding? && s.scanner.dir < |s.dirs|
  {
    Recorded(s, s.scanner.dir, files, reports).(scanner := Adding(s.scanner.dir, s.scanner.found, added))
  }

  lemma OneIsInserted(s: State, d: Directory, added: seq<string>)
    requires s.scanner.Adding? && s.scanner.added == added != [] && s.scanner.dir < |s.dirs|
    requires d == s.dirs[s.scanner.dir]
    ensures Do(s, InsertAdded)
         == Some(Inserted(s, d.files + {added[0]}, Reports(d, [added[0]], Modified), added[1..]))
  {
    assert Reports(d, [added[0]], Modified) == [Change(d.rank, d.path + added[0], Modified)];
  }

  lemma InsertedTwice(s: State, files: set<string>, files': set<string>, d: Directory, added: seq<string>)
    requires s.scanner.Adding? && s.scanner.dir < |s.dirs| && d == s.dirs[s.scanner.dir] && added != []
    ensures var next := Inserted(s, files, Reports(d, [added[0]], Modified), added[1..]);
            Inserted(next, files', Reports(next.dirs[s.scanner.dir], added[1..], Modified), [])
            == Inserted(s, files', Reports(d, added, Modified), [])
  {
    var next := Inserted(s, files, Reports(d, [added[0]], Modified), added[1..]);
    SameReports(next.dirs[s.scanner.dir], d, added[1..], Modified);
    ReportsGrow(d, added, Modified);
    RecordedTwice(s, s.scanner.dir, files, files',
                  Reports(d, [added[0]], Modified), Reports(d, added[1..], Modified));
  }

  /** The steps of an uninterrupted scan of a directory. */
  function ScanSteps(dir: nat, found: set<string>, missing: seq<string>, added: seq<string>): seq<Action> {
    [Scan(dir, found)] + [ScannerLocks(missing)] + Times(EraseMissing, |missing|)
    + [BeginAdding(added)] + Times(InsertAdded, |added|) + [ScannerUnlocks] + [WriteByte(true)]
  }

  lemma ScanErases(s: State, dir: nat, found: set<string>, missing: seq<string>)
    requires s.scanner.Idle? && s.lock.Nobody? && dir < |s.dirs| && forall f <- found :: PlainName(f)
    requires Lists(missing, s.dirs[dir].files - found)
    ensures Leads(s, [Scan(dir, found)] + [ScannerLocks(missing)] + Times(EraseMissing, |missing|),
                  Recorded(s, dir, s.dirs[dir].files * found, Reports(s.dirs[dir], missing, Deleted))
                  .(lock := Scanner, scanner := Erasing(dir, found, [])))
  {
    var d := s.dirs[dir];
    var scanned := s.(scanner := Scanned(dir, found));
    var locked := s.(lock := Scanner, scanner := Erasing(dir, found, missing));
    RunOne(s, Scan(dir, found), scanned);
    RunOne(scanned, ScannerLocks(missing), locked);
    Follow(s, [Scan(dir, found)], scanned, [ScannerLocks(missing)], locked);
    MissingAreErased(locked, missing);
    assert d.files - (set x <- missing) == d.files * found;
    Follow(s, [Scan(dir, found)] + [ScannerLocks(missing)], locked, Times(EraseMissing, |missing|),
           Erased(locked, d.files * found, Reports(d, missing, Deleted), []));
  }

  lemma ScanInsertsAll(s: State, dir: nat, found: set<string>, added: seq<string>)
    requires s.scanner == Erasing(dir, found, []) && s.lock.Scanner? && dir < |s.dirs|
    requires s.dirs[dir].files <= found && Lists(added, found - s.dirs[dir].files)
    ensures Leads(s, [BeginAdding(added)] + Times(InsertAdded, |added|),
                  Recorded(s, dir, found, Reports(s.dirs[dir], added, Modified)).(scanner := Adding(dir, found, [])))
  {
    var d, adding := s.dirs[dir], s.(scanner := Adding(dir, found, added));
    RunOne(s, BeginAdding(added), adding);
    AddedAreInserted(adding, added);
    assert d.files + (set x <- added) == found;
    Follow(s, [BeginAdding(added)], adding, Times(InsertAdded, |added|),
           Inserted(adding, found, Reports(d, added, Modified), []));
  }

  lemma ScanEnds(s: State, dir: nat, found: set<string>)
    requires s.scanner == Adding(dir, found, []) && s.lock.Scanner?
    ensures Leads(s, [ScannerUnlocks] + [WriteByte(true)],
                  s.(lock := Nobody, scanner := Idle, pipe := s.pipe + 1, lastScan := s.lastScan[dir := found]))
  {
    var unlocked := s.(lock := Nobody, scanner := Unlocked(dir), lastScan := s.lastScan[dir := found]);
    var woken := unlocked.(scanner := Idle, pipe := s.pipe + 1);
    RunOne(s, ScannerUnlocks, unlocked);
    RunOne(unlocked, WriteByte(true), woken);
    Follow(s, [ScannerUnlocks], unlocked, [WriteByte(true)], woken);
  }

  lemma ScanInserts(s: State, dir: nat, found: set<string>, added: seq<string>)
    requires s.scanner == Erasing(dir, found, []) && s.lock.Scanner? && dir < |s.dirs|
    requires s.dirs[dir].files <= found && Lists(added, found - s.dirs[dir].files)
    ensures Leads(s, [BeginAdding(added)] + Times(InsertAdded, |added|) + ([ScannerUnlocks] + [WriteByte(true)]),
                  Recorded(s, dir, found, Reports(s.dirs[dir], added, Modified))
                  .(lock := Nobody, scanner := Idle, pipe := s.pipe + 1, lastScan := s.lastScan[dir := found]))
  {
    ScanInsertsAll(s, dir, found, added);
    var t := Recorded(s, dir, found, Reports(s.dirs[dir], added, Modified)).(scanner := Adding(dir, found, []));
    ScanEnds(t, dir, found);
    Follow(s, [BeginAdding(added)] + Times(InsertAdded, |added|), t, [ScannerUnlocks] + [WriteByte(true)],
           t.(lock := Nobody, scanner := Idle, pipe := s.pipe + 1, lastScan := s.lastScan[dir := found]));
  }

  /**
   Whenever the scanner is idle and the mutex is free, a scan can run through. It records exactly what it found,
   reports every file that has vanished as deleted and every new one as modified, and wakes the consumer.
   */
  lemma ScanIsReported(s: State, dir: nat, found: set<string>, missing: seq<string>, added: seq<string>)
    requires s.scanner.Idle? && s.lock.Nobody? && dir < |s.dirs| && forall f <- found :: PlainName(f)
    requires Lists(missing, s.dirs[dir].files - found) && Lists(added, found - s.dirs[dir].files)
    ensures var d := s.dirs[dir];
            Run(s, ScanSteps(dir, found, missing, added))
            == Some(Recorded(s, dir, found, Reports(d, missing, Deleted) + Reports(d, added, Modified))
                    .(pipe := s.pipe + 1, lastScan := s.lastScan[dir := found]))
  {
    var d := s.dirs[dir];
    var a := [Scan(dir, found)] + [ScannerLocks(missing)] + Times(EraseMissing, |missing|);
    var b := [BeginAdding(added)] + Times(InsertAdded, |added|) + ([ScannerUnlocks] + [WriteByte(true)]);
    var erased := Recorded(s, dir, d.files * found, Reports(d, missing, Deleted))
                  .(lock := Scanner, scanner := Erasing(dir, found, []));
    ScanErases(s, dir, found, missing);
    assert found - d.files * found == found - d.files;
    ScanInserts(erased, dir, found, added);
    SameReports(erased.dirs[dir], d, added, Modified);
    RecordedTwice(s, dir, d.files * found, found, Reports(d, missing, Deleted), Reports(d, added, Modified));
    var done := Recorded(s, dir, found, Reports(d, missing, Deleted) + Reports(d, added, Modified))
                .(pipe := s.pipe + 1, lastScan := s.lastScan[dir := found]);
    Follow(s, a, erased, b, done);
    assert a + b == ScanSteps(dir, found, missing, added);
    LeadsIsRun(s, ScanSteps(dir, found, missing, added), done);
  }

  lemma RecordedTwice(s: State, dir: nat, kept: set<string>, found: set<string>, a: seq<Change>, b: seq<Change>)
    requires dir < |s.dirs|
    ensures Recorded(Recorded(s, dir, kept, a), dir, found, b) == Recorded(s, dir, found, a + b)
  {
    Assoc(s.changes, a, b);
    Assoc(s.emitted, a, b);
    var d := s.dirs[dir];
    assert s.dirs[dir := d.(files := kept)][dir := d.(files := found)] == s.dirs[dir := d.(files := found)];
  }
}
