/**
 src/main.cc: how the wait-on loop avoids zombies. Children exit and SIGCHLD is delivered at any moment; the
 handler writes a byte to a non-blocking pipe; the main loop polls the pipe, empties it and then asks
 `waitpid` about every process it waits for. Any interleaving of these steps is a sequence of actions.
 */
module ChildReaping {
  import opened Utilities

  datatype Status = Running | Zombie

  /** Where the main loop is. `ready` is what `poll` said about the pipe in this iteration. */
  datatype Location =
    | Polling
    | Serving(ready: bool)
    | Forked(pid: int, ready: bool)
    | Served(ready: bool)
    | Draining
    | Reaping(todo: seq<int>, kept: seq<int>)
    | WaitpidFailed

  datatype State = State(
    children: map<int, Status>,   // unreaped children of the process
    processesToWaitFor: seq<int>,
    signalPending: bool,          // one pending SIGCHLD; further ones coalesce
    pipe: nat,                    // bytes in the pipe
    capacity: nat,
    at: Location,
    forked: seq<int>,             // history of all forks and of all reaps
    reaped: seq<int>
  )

  datatype Action =
    | ChildExits(pid: int)
    | OtherSignal                 // SIGCHLD of a process that is waited for elsewhere, such as dmenu
    | HandlerRuns
    | PollReturns
    | ForkChild(pid: int)
    | PushBack
    | NothingToFork
    | ContinueEarly               // nothing was received on the FIFO
    | TestPipe
    | ReadByte
    | PipeEmpty
    | Waitpid
    | EndOfPass

  /** The effect of an action; None where it cannot happen. */
  function Do(s: State, a: Action): Option<State> {
    match a
    case ChildExits(pid) =>
      if pid in s.children && s.children[pid].Running?
      then Some(s.(children := s.children[pid := Zombie], signalPending := true))
      else None
    case OtherSignal => Some(s.(signalPending := true))
    case HandlerRuns =>
      if !s.signalPending then None
      else Some(s.(signalPending := false, pipe := if s.pipe < s.capacity then s.pipe + 1 else s.pipe))
    case PollReturns => if s.at.Polling? then Some(s.(at := Serving(s.pipe > 0))) else None
    case ForkChild(pid) =>
      if s.at.Serving? && pid !in s.children
      then Some(s.(children := s.children[pid := Running], at := Forked(pid, s.at.ready), forked := s.forked + [pid]))
      else None
    case PushBack =>
      if s.at.Forked?
      then Some(s.(processesToWaitFor := s.processesToWaitFor + [s.at.pid], at := Served(s.at.ready)))
      else None
    case NothingToFork => if s.at.Serving? then Some(s.(at := Served(s.at.ready))) else None
    case ContinueEarly => if s.at.Serving? then Some(s.(at := Polling)) else None
    case TestPipe => if s.at.Served? then Some(s.(at := if s.at.ready then Draining else Polling)) else None
    case ReadByte => if s.at.Draining? && s.pipe > 0 then Some(s.(pipe := s.pipe - 1)) else None
    case PipeEmpty =>
      if s.at.Draining? && s.pipe == 0
      then Some(s.(at := if s.processesToWaitFor == [] then Polling else Reaping(s.processesToWaitFor, [])))
      else None
    case Waitpid =>
      if !s.at.Reaping? || s.at.todo == [] then None
      else
        var pid, rest := s.at.todo[0], s.at.todo[1..];
        if pid !in s.children then Some(s.(at := WaitpidFailed))
        else if s.children[pid].Running? then Some(s.(at := Reaping(rest, s.at.kept + [pid])))
        else Some(s.(children := s.children - {pid}, at := Reaping(rest, s.at.kept), reaped := s.reaped + [pid]))
    case EndOfPass =>
      if s.at.Reaping? && s.at.todo == []
      then Some(s.(processesToWaitFor := s.at.kept, at := Polling))
      else None
  }

  function Run(s: State, actions: seq<Action>): Option<State> {
    if actions == [] then Some(s)
    else
      var before := Run(s, actions[..|actions| - 1]);
      if before.None? then None else Do(before.value, actions[|actions| - 1])
  }

  ghost predicate Initial(s: State) {
    && s.children == map[] && s.processesToWaitFor == [] && !s.signalPending
    && s.pipe == 0 && s.capacity > 0 && s.at.Polling? && s.forked == [] && s.reaped == []
  }

  /** The processes that the loop still knows about. */
  function Tracked(s: State): seq<int> {
    match s.at
    case Forked(pid, _) => s.processesToWaitFor + [pid]
    case Reaping(todo, kept) => kept + todo
    case _ => s.processesToWaitFor
  }

  /** Something will still lead to `waitpid` on this exited child. */
  ghost predicate WillBeReaped(s: State, pid: int) {
    s.signalPending || s.pipe > 0 || s.at.Draining? || (s.at.Reaping? && pid in s.at.todo)
  }

  /** Every unreaped child is tracked exactly once and nothing else is, so `waitpid` is only asked about children. */
  ghost predicate TracksChildren(s: State) {
    && !s.at.WaitpidFailed?
    && multiset(Tracked(s)) == multiset(s.children.Keys)
    && multiset(s.forked) == multiset(s.reaped) + multiset(s.children.Keys)
  }

  ghost predicate NoZombieForgotten(s: State) {
    && 0 < s.capacity && s.pipe <= s.capacity
    && forall pid <- s.children :: s.children[pid].Zombie? ==> WillBeReaped(s, pid)
  }

  ghost predicate Inv(s: State) {
    TracksChildren(s) && NoZombieForgotten(s)
  }

  lemma ForkKeepsTracking(s: State, pid: int)
    requires TracksChildren(s) && Do(s, ForkChild(pid)).Some?
    ensures TracksChildren(Do(s, ForkChild(pid)).value)
  {
    var s' := Do(s, ForkChild(pid)).value;
    assert s'.children.Keys == s.children.Keys + {pid};
    assert multiset(s'.children.Keys) == multiset(s.children.Keys) + multiset{pid};
  }

  lemma RemoveTracked(kept: seq<int>, pid: int, rest: seq<int>, keys: set<int>)
    requires multiset(kept + [pid] + rest) == multiset(keys)
    ensures pid in keys && multiset(kept + rest) == multiset(keys - {pid})
  {
    var all, fewer := kept + [pid] + rest, kept + rest;
    assert multiset(all) == multiset(fewer) + multiset{pid};
    assert pid in multiset(keys);
    forall x ensures multiset(fewer)[x] == multiset(keys - {pid})[x] {
      assert multiset(all)[x] == multiset(keys)[x];
    }
  }

  lemma VisitOfRunningKeepsTracking(s: State, pid: int, rest: seq<int>, kept: seq<int>)
    requires TracksChildren(s) && s.at == Reaping([pid] + rest, kept) && pid in s.children && s.children[pid].Running?
    ensures TracksChildren(s.(at := Reaping(rest, kept + [pid])))
  {
    Assoc(kept, [pid], rest);
  }

  lemma VisitOfZombieKeepsTracking(s: State, pid: int, rest: seq<int>, kept: seq<int>)
    requires TracksChildren(s) && s.at == Reaping([pid] + rest, kept) && pid in s.children
    ensures TracksChildren(s.(children := s.children - {pid}, at := Reaping(rest, kept), reaped := s.reaped + [pid]))
  {
    Assoc(kept, [pid], rest);
    RemoveTracked(kept, pid, rest, s.children.Keys);
    assert (s.children - {pid}).Keys == s.children.Keys - {pid};
    assert multiset(s.children.Keys) == multiset(s.children.Keys - {pid}) + multiset{pid};
  }

  lemma FirstIsChild(s: State, pid: int, rest: seq<int>, kept: seq<int>)
    requires TracksChildren(s) && s.at == Reaping([pid] + rest, kept)
    ensures pid in s.children
  {
    Assoc(kept, [pid], rest);
    RemoveTracked(kept, pid, rest, s.children.Keys);
  }

  lemma WaitpidDoes(s: State, pid: int, rest: seq<int>, kept: seq<int>)
    requires s.at == Reaping([pid] + rest, kept) && pid in s.children
    ensures Do(s, Waitpid)
         == Some(if s.children[pid].Running? then s.(at := Reaping(rest, kept + [pid]))
                 else s.(children := s.children - {pid}, at := Reaping(rest, kept), reaped := s.reaped + [pid]))
  {
    SplitConcat([pid], rest);
  }

  /** One `waitpid`: it cannot fail, it keeps a running child and takes an exited one out for good. */
  lemma VisitKeepsTracking(s: State)
    requires TracksChildren(s) && s.at.Reaping? && s.at.todo != []
    ensures TracksChildren(Do(s, Waitpid).value)
  {
    var pid, rest, kept := s.at.todo[0], s.at.todo[1..], s.at.kept;
    assert s.at.todo == [pid] + rest;
    FirstIsChild(s, pid, rest, kept);
    WaitpidDoes(s, pid, rest, kept);
    if s.children[pid].Running? {
      VisitOfRunningKeepsTracking(s, pid, rest, kept);
    } else {
      VisitOfZombieKeepsTracking(s, pid, rest, kept);
    }
  }

  /** Actions that only move the main loop along do not change what is tracked. */
  lemma MoveChangesNothing(s: State, a: Action)
    requires Do(s, a).Some? && !a.ForkChild? && !a.Waitpid?
    ensures var s' := Do(s, a).value;
            s'.children.Keys == s.children.Keys && s'.forked == s.forked && s'.reaped == s.reaped
  {
  }

  lemma MoveKeepsTracked(s: State, a: Action)
    requires Do(s, a).Some? && !a.ForkChild? && !a.Waitpid?
    ensures Tracked(Do(s, a).value) == Tracked(s)
    ensures Do(s, a).value.at.WaitpidFailed? ==> s.at.WaitpidFailed?
  {
    Neutral(s.processesToWaitFor);
    if s.at.Reaping? {
      Neutral(s.at.kept);
    }
  }

  lemma StepKeepsTracking(s: State, a: Action)
    requires TracksChildren(s) && Do(s, a).Some?
    ensures TracksChildren(Do(s, a).value)
  {
    if a.ForkChild? {
      ForkKeepsTracking(s, a.pid);
    } else if a.Waitpid? {
      VisitKeepsTracking(s);
    } else {
      MoveChangesNothing(s, a);
      MoveKeepsTracked(s, a);
    }
  }

  /** The start of a pass and every step of it leave each zombie to be visited. */
  lemma StartForgetsNoZombie(s: State, pid: int)
    requires Inv(s) && Do(s, PipeEmpty).Some? && pid in s.children
    ensures WillBeReaped(Do(s, PipeEmpty).value, pid)
  {
    assert pid in multiset(s.children.Keys) && pid in multiset(s.processesToWaitFor);
  }

  lemma VisitForgetsNoZombie(s: State, pid: int)
    requires Inv(s) && Do(s, Waitpid).Some? && pid in s.children && s.children[pid].Zombie?
    requires pid in Do(s, Waitpid).value.children
    ensures WillBeReaped(Do(s, Waitpid).value, pid)
  {
    assert WillBeReaped(s, pid);
    var visited, rest, kept := s.at.todo[0], s.at.todo[1..], s.at.kept;
    assert s.at.todo == [visited] + rest;
    assert Tracked(s) == kept + [visited] + rest;
    RemoveTracked(kept, visited, rest, s.children.Keys);
  }

  lemma OtherStepForgetsNoZombie(s: State, a: Action, pid: int)
    requires Inv(s) && Do(s, a).Some? && !a.PipeEmpty? && !a.Waitpid?
    requires pid in Do(s, a).value.children && Do(s, a).value.children[pid].Zombie?
    ensures WillBeReaped(Do(s, a).value, pid)
  {
    if !a.ChildExits? {
      assert pid in s.children && s.children[pid].Zombie?;
      assert WillBeReaped(s, pid);
    }
  }

  lemma StepForgetsNoZombie(s: State, a: Action)
    requires Inv(s) && Do(s, a).Some?
    ensures NoZombieForgotten(Do(s, a).value)
  {
    var s' := Do(s, a).value;
    forall pid <- s'.children | s'.children[pid].Zombie? ensures WillBeReaped(s', pid) {
      if a.PipeEmpty? {
        StartForgetsNoZombie(s, pid);
      } else if a.Waitpid? {
        VisitForgetsNoZombie(s, pid);
      } else {
        OtherStepForgetsNoZombie(s, a, pid);
      }
    }
  }

  lemma StepKeepsInv(s: State, a: Action)
    requires Inv(s) && Do(s, a).Some?
    ensures Inv(Do(s, a).value)
  {
    StepKeepsTracking(s, a);
    StepForgetsNoZombie(s, a);
  }

  /**
   Every reachable state: an exited child never goes unnoticed, every child is tracked exactly once, `waitpid`
   never fails, and every fork is reaped at most once.
   */
  lemma {:induction false} ReachableStatesKeepInv(s: State, actions: seq<Action>)
    requires Initial(s) && Run(s, actions).Some?
    ensures Inv(Run(s, actions).value)
  {
    if actions == [] {
    } else {
      ReachableStatesKeepInv(s, actions[..|actions| - 1]);
      StepKeepsInv(Run(s, actions[..|actions| - 1]).value, actions[|actions| - 1]);
    }
  }

  /** When the loop is blocked in `poll` with nothing pending, there are no zombies at all. */
  lemma BlockedWithoutZombies(s: State, actions: seq<Action>)
    requires Initial(s) && Run(s, actions).Some?
    requires var t := Run(s, actions).value; t.at.Polling? && t.pipe == 0 && !t.signalPending
    ensures var t := Run(s, actions).value;
            && (forall pid <- t.children :: t.children[pid].Running?)
            && (forall pid :: pid in t.children <==> pid in t.processesToWaitFor)
  {
    ReachableStatesKeepInv(s, actions);
    var t := Run(s, actions).value;
    forall pid ensures pid in t.children <==> pid in t.processesToWaitFor {
      assert pid in multiset(t.children.Keys) <==> pid in multiset(t.processesToWaitFor);
    }
    forall pid <- t.children ensures t.children[pid].Running? {
      assert t.children[pid].Zombie? ==> WillBeReaped(t, pid);
    }
  }

  // ------------------------------------------------------------------------------------------
  // One pass without interference
  // ------------------------------------------------------------------------------------------

  /** The children that are left and the processes that are kept. */
  datatype Pass = Fatal | Pass(children: map<int, Status>, kept: seq<int>)

  /** One process of the list; `waitpid` on a process that is not a child is fatal. */
  function Visit(p: Pass, pid: int): Pass {
    if p.Fatal? || pid !in p.children then Fatal
    else if p.children[pid].Running? then Pass(p.children, p.kept + [pid])
    else Pass(p.children - {pid}, p.kept)
  }

  function VisitAll(children: map<int, Status>, pids: seq<int>): Pass {
    if pids == [] then Pass(children, [])
    else Visit(VisitAll(children, pids[..|pids| - 1]), pids[|pids| - 1])
  }

  /** `waitpid` fails at position `i`: that process is not a child, or an earlier position has reaped it. */
  predicate FailsAt(children: map<int, Status>, pids: seq<int>, i: nat)
    requires i < |pids|
  {
    pids[i] !in children || (children[pids[i]].Zombie? && pids[i] in pids[..i])
  }

  function StillRunning(children: map<int, Status>, pids: seq<int>): seq<int> {
    if pids == [] then []
    else
      var n := |pids| - 1;
      StillRunning(children, pids[..n])
      + if pids[n] in children && children[pids[n]].Running? then [pids[n]] else []
  }

  /** The exited children of the list are gone, everything else is untouched, and the running ones stay listed. */
  ghost predicate Reaps(p: Pass, children: map<int, Status>, pids: seq<int>) {
    && p.Pass?
    && (forall pid :: pid in p.children <==> pid in children && !(pid in pids && children[pid].Zombie?))
    && (forall pid <- p.children :: p.children[pid] == children[pid])
    && p.kept == StillRunning(children, pids)
  }

  ghost predicate SomeFails(children: map<int, Status>, pids: seq<int>) {
    exists i: nat :: i < |pids| && FailsAt(children, pids, i)
  }

  /**
   The loop over `processes_to_wait_for` when nothing else happens meanwhile: fatal exactly if some process is not a
   child or is an exited child that is listed twice; otherwise it reaps exactly the exited children of the list.
   */
  method ReapPass(children: map<int, Status>, pids: seq<int>) returns (p: Pass)
    ensures p.Fatal? <==> SomeFails(children, pids)
    ensures p.Pass? ==> Reaps(p, children, pids)
  {
    var unreaped, kept := children, [];
    for i := 0 to |pids|
      invariant Pass(unreaped, kept) == VisitAll(children, pids[..i])
    {
      var pid := pids[i];
      assert pids[..i + 1][..i] == pids[..i];
      if pid !in unreaped {
        PassFails(children, pids, i + 1);
        PassMeaning(children, pids);
        return Fatal;
      } else if unreaped[pid].Running? {
        kept := kept + [pid];
      } else {
        unreaped := unreaped - {pid};
      }
    }
    assert pids[..|pids|] == pids;
    PassMeaning(children, pids);
    return Pass(unreaped, kept);
  }

  lemma {:induction false} PassFails(children: map<int, Status>, pids: seq<int>, i: nat)
    requires i <= |pids| && VisitAll(children, pids[..i]).Fatal?
    ensures VisitAll(children, pids).Fatal?
  {
    if i == |pids| {
      assert pids[..i] == pids;
    } else {
      var n := |pids| - 1;
      assert pids[..n][..i] == pids[..i];
      PassFails(children, pids[..n], i);
    }
  }

  lemma {:induction false} PassMeaning(children: map<int, Status>, pids: seq<int>)
    ensures var p := VisitAll(children, pids);
            (p.Fatal? <==> SomeFails(children, pids)) && (p.Pass? ==> Reaps(p, children, pids))
  {
    if pids != [] {
      var n := |pids| - 1;
      var init, last := pids[..n], pids[n];
      assert pids == init + [last];
      PassMeaning(children, init);
      forall i: nat | i < n ensures FailsAt(children, init, i) <==> FailsAt(children, pids, i) {
        assert init[..i] == pids[..i];
      }
      var p := VisitAll(children, init);
      if p.Pass? {
        assert last in p.children <==> !FailsAt(children, pids, n);
      }
    }
  }

  lemma {:induction false} StillRunningAre(children: map<int, Status>, pids: seq<int>)
    ensures forall pid :: pid in StillRunning(children, pids)
                          <==> pid in pids && pid in children && children[pid].Running?
  {
    if pids != [] {
      var n := |pids| - 1;
      assert pids == pids[..n] + [pids[n]];
      StillRunningAre(children, pids[..n]);
    }
  }

  /** A pass over distinct children is not fatal, reaps every zombie among them and keeps the others. */
  lemma PassReapsExactlyZombies(children: map<int, Status>, pids: seq<int>)
    requires Distinct(pids) && forall pid <- pids :: pid in children
    ensures var p := VisitAll(children, pids);
            && p.Pass?
            && (forall pid :: pid in p.children <==> pid in children && !(pid in pids && children[pid].Zombie?))
            && (forall pid <- p.children :: p.children[pid] == children[pid])
            && (forall pid :: pid in p.kept <==> pid in pids && children[pid].Running?)
  {
    PassMeaning(children, pids);
    StillRunningAre(children, pids);
    forall i: nat | i < |pids| ensures !FailsAt(children, pids, i) {
    }
  }

  // ---- the pass in the protocol -------------------------------------------------------------

  /** Until the pass fails, uninterrupted `Waitpid` steps of the protocol are the pass, position by position. */
  lemma {:induction false} WaitpidsAreAPass(s: State, pids: seq<int>, actions: seq<Action>)
    requires s.at == Reaping(pids, []) && |actions| <= |pids| && forall a <- actions :: a == Waitpid
    requires VisitAll(s.children, pids[..|actions|]).Pass?
    ensures var t, p := Run(s, actions), VisitAll(s.children, pids[..|actions|]);
            && t.Some? && t.value.children == p.children && t.value.at == Reaping(pids[|actions|..], p.kept)
            && t.value.processesToWaitFor == s.processesToWaitFor
  {
    if actions == [] {
      assert pids[..0] == [] && pids[0..] == pids;
    } else {
      var n := |actions| - 1;
      assert actions[n] in actions && forall a <- actions[..n] :: a in actions;
      assert pids[..n + 1][..n] == pids[..n] && pids[..n + 1][n] == pids[n];
      WaitpidsAreAPass(s, pids, actions[..n]);
      assert pids[n..][0] == pids[n] && pids[n..][1..] == pids[n + 1..];
    }
  }

  /** When a pass starts, the list holds exactly the children, each once. */
  lemma PassStart(t: State)
    requires TracksChildren(t) && t.at.Reaping? && t.at.kept == []
    ensures Distinct(t.at.todo) && forall pid :: pid in t.at.todo <==> pid in t.children
  {
    var todo := t.at.todo;
    Neutral(todo);
    assert Tracked(t) == todo;
    forall pid ensures pid in todo <==> pid in t.children {
      assert multiset(todo)[pid] == multiset(t.children.Keys)[pid];
    }
    forall i, j | 0 <= i < j < |todo| ensures todo[i] != todo[j] {
      OccursTwice(todo, i, j);
      assert multiset(t.children.Keys)[todo[i]] <= 1;
    }
  }

  lemma OccursTwice(s: seq<int>, i: nat, j: nat)
    requires i < j < |s|
    ensures s[i] == s[j] ==> multiset(s)[s[i]] >= 2
  {
    assert s == s[..i] + [s[i]] + s[i + 1..j] + [s[j]] + s[j + 1..];
  }

  /** An uninterrupted pass leaves no zombie and lists exactly the running children. */
  lemma UninterruptedPass(t: State, pass: seq<Action>)
    requires Inv(t) && t.at.Reaping? && t.at.kept == []
    requires |pass| == |t.at.todo| && forall a <- pass :: a == Waitpid
    ensures var u := Run(t, pass);
            && u.Some? && u.value.at == Reaping([], StillRunning(t.children, t.at.todo))
            && (forall pid :: pid in u.value.children <==> pid in t.children && t.children[pid].Running?)
  {
    var todo := t.at.todo;
    PassStart(t);
    PassReapsExactlyZombies(t.children, todo);
    PassMeaning(t.children, todo);
    assert todo[..|pass|] == todo && todo[|pass|..] == [];
    WaitpidsAreAPass(t, todo, pass);
  }

  // ---- progress -----------------------------------------------------------------------------

  lemma {:induction false} RunConcat(s: State, a: seq<Action>, b: seq<Action>)
    requires Run(s, a).Some?
    ensures Run(s, a + b) == Run(Run(s, a).value, b)
  {
    if b == [] {
      Neutral(a);
    } else {
      var n := |b| - 1;
      assert a + b == a + b[..n] + [b[n]];
      RunConcat(s, a, b[..n]);
      SplitConcat(a + b[..n], [b[n]]);
    }
  }

  lemma RunOne(s: State, a: Action)
    ensures Run(s, [a]) == Do(s, a)
  {
    assert [a][..0] == [] && [a][0] == a;
  }

  function Times(a: Action, n: nat): (r: seq<Action>)
    ensures |r| == n && forall x <- r :: x == a
  {
    if n == 0 then [] else Times(a, n - 1) + [a]
  }

  /** The loop goes from `poll` to emptying the pipe if the pipe has something to read. */
  lemma SignalIsNoticed(s: State)
    requires s.at.Polling? && s.pipe > 0
    ensures Run(s, [PollReturns, NothingToFork, TestPipe]) == Some(s.(at := Draining))
  {
    var a, b, c := PollReturns, NothingToFork, TestPipe;
    RunOne(s, a);
    RunConcat(s, [a], [b]);
    RunOne(s.(at := Serving(true)), b);
    RunConcat(s, [a] + [b], [c]);
    RunOne(s.(at := Served(true)), c);
    assert [a] + [b] + [c] == [a, b, c];
  }

  lemma ByteIsRead(s: State, actions: seq<Action>, t: State)
    requires Run(s, actions) == Some(t) && t.at.Draining? && t.pipe > 0
    ensures Run(s, actions + [ReadByte]) == Some(t.(pipe := t.pipe - 1))
  {
    RunConcat(s, actions, [ReadByte]);
    RunOne(t, ReadByte);
  }

  lemma {:induction false} PipeIsEmptied(s: State, n: nat)
    requires s.at.Draining? && n <= s.pipe
    ensures Run(s, Times(ReadByte, n)) == Some(s.(pipe := s.pipe - n))
  {
    if n > 0 {
      PipeIsEmptied(s, n - 1);
      ByteIsRead(s, Times(ReadByte, n - 1), s.(pipe := s.pipe - (n - 1)));
    }
  }

  /** The uninterrupted steps of one iteration that finds the pipe readable and nothing to start. */
  function Iteration(s: State): seq<Action> {
    [PollReturns, NothingToFork, TestPipe] + Times(ReadByte, s.pipe) + [PipeEmpty] + PassActions(s)
  }

  function PassActions(s: State): seq<Action> {
    if s.processesToWaitFor == [] then [] else Times(Waitpid, |s.processesToWaitFor|) + [EndOfPass]
  }

  lemma PassBegins(s: State)
    requires s.at.Polling? && s.pipe > 0
    ensures Run(s, [PollReturns, NothingToFork, TestPipe] + Times(ReadByte, s.pipe) + [PipeEmpty])
         == Some(s.(pipe := 0, at := if s.processesToWaitFor == [] then Polling
                                     else Reaping(s.processesToWaitFor, [])))
  {
    var first, emptying := [PollReturns, NothingToFork, TestPipe], Times(ReadByte, s.pipe);
    SignalIsNoticed(s);
    PipeIsEmptied(s.(at := Draining), s.pipe);
    RunConcat(s, first, emptying);
    RunConcat(s, first + emptying, [PipeEmpty]);
    RunOne(s.(at := Draining, pipe := 0), PipeEmpty);
  }

  lemma PassEnds(t: State)
    requires Inv(t) && t.at.Reaping? && t.at.kept == []
    ensures var u := Run(t, Times(Waitpid, |t.at.todo|) + [EndOfPass]);
            && u.Some? && u.value.at.Polling? && u.value.pipe == t.pipe
            && u.value.processesToWaitFor == StillRunning(t.children, t.at.todo)
            && (forall pid :: pid in u.value.children <==> pid in t.children && t.children[pid].Running?)
            && (forall pid <- u.value.children :: u.value.children[pid].Running?)
  {
    var pass, todo := Times(Waitpid, |t.at.todo|), t.at.todo;
    UninterruptedPass(t, pass);
    PassStart(t);
    PassMeaning(t.children, todo);
    PassReapsExactlyZombies(t.children, todo);
    assert todo[..|pass|] == todo;
    WaitpidsAreAPass(t, todo, pass);
    WaitpidsLeaveThePipe(t, pass);
    RunConcat(t, pass, [EndOfPass]);
    RunOne(Run(t, pass).value, EndOfPass);
  }

  lemma {:induction false} WaitpidsLeaveThePipe(s: State, actions: seq<Action>)
    requires Run(s, actions).Some? && forall a <- actions :: a == Waitpid
    ensures Run(s, actions).value.pipe == s.pipe && Run(s, actions).value.signalPending == s.signalPending
  {
    if actions != [] {
      var n := |actions| - 1;
      assert actions[n] in actions && forall a <- actions[..n] :: a in actions;
      WaitpidsLeaveThePipe(s, actions[..n]);
    }
  }

  /**
   Progress: whenever the loop polls and the pipe has something to read, it can run one iteration without
   interruption, and that leaves the pipe empty, no zombie, and exactly the running children listed.
   */
  lemma SignalledLoopReaps(s: State)
    requires Inv(s) && s.at.Polling? && s.pipe > 0
    ensures var u := Run(s, Iteration(s));
            && u.Some? && u.value.at.Polling? && u.value.pipe == 0
            && (forall pid :: pid in u.value.children <==> pid in s.children && s.children[pid].Running?)
            && (forall pid <- u.value.children :: u.value.children[pid].Running?)
            && (forall pid :: pid in u.value.processesToWaitFor <==> pid in s.children && s.children[pid].Running?)
  {
    var beginning := [PollReturns, NothingToFork, TestPipe] + Times(ReadByte, s.pipe) + [PipeEmpty];
    PassBegins(s);
    var t := Run(s, beginning).value;
    BeginningKeepsInv(s);
    RunConcat(s, beginning, PassActions(s));
    ListedAreChildren(s);
    if s.processesToWaitFor != [] {
      PassEnds(t);
      StillRunningAre(t.children, t.at.todo);
    }
  }

  lemma ListedAreChildren(s: State)
    requires TracksChildren(s) && s.at.Polling?
    ensures forall pid :: pid in s.processesToWaitFor <==> pid in s.children
  {
    forall pid ensures pid in s.processesToWaitFor <==> pid in s.children {
      assert pid in multiset(s.processesToWaitFor) <==> pid in multiset(s.children.Keys);
    }
  }

  lemma BeginningKeepsInv(s: State)
    requires Inv(s) && s.at.Polling? && s.pipe > 0
    ensures Inv(s.(pipe := 0, at := if s.processesToWaitFor == [] then Polling
                                    else Reaping(s.processesToWaitFor, [])))
  {
    var t := s.(pipe := 0, at := if s.processesToWaitFor == [] then Polling else Reaping(s.processesToWaitFor, []));
    Neutral(s.processesToWaitFor);
    ListedAreChildren(s);
    assert Tracked(t) == s.processesToWaitFor;
    forall pid <- t.children | t.children[pid].Zombie? ensures WillBeReaped(t, pid) {
      assert pid in s.processesToWaitFor;
    }
  }

  /** A delivered signal makes the pipe readable, whatever is in it. */
  lemma DeliveredSignalIsReadable(s: State)
    requires s.signalPending && s.pipe <= s.capacity && 0 < s.capacity
    ensures Do(s, HandlerRuns).Some? && Do(s, HandlerRuns).value.pipe > 0
  {
  }

  /** The main loop is never stuck: in every reachable state one of its own steps is possible. */
  lemma MainLoopCanStep(s: State) returns (a: Action)
    requires Inv(s)
    ensures !a.ChildExits? && !a.OtherSignal? && !a.HandlerRuns? && Do(s, a).Some?
  {
    match s.at
    case Polling => a := PollReturns;
    case Serving(_) => a := NothingToFork;
    case Forked(_, _) => a := PushBack;
    case Served(_) => a := TestPipe;
    case Draining => a := if s.pipe > 0 then ReadByte else PipeEmpty;
    case Reaping(todo, _) => a := if todo != [] then Waitpid else EndOfPass;
  }

  /** Every child whose exit has been signalled is reaped: the exit, its signal and one iteration. */
  lemma ExitedChildIsReaped(s: State, pid: int)
    requires Inv(s) && s.at.Polling? && pid in s.children && s.children[pid].Running?
    ensures var exited := Run(s, [ChildExits(pid), HandlerRuns]);
            && exited.Some? && exited.value.at.Polling? && exited.value.pipe > 0
            && Run(exited.value, Iteration(exited.value)).Some?
            && pid !in Run(exited.value, Iteration(exited.value)).value.children
  {
    var a, b := ChildExits(pid), HandlerRuns;
    RunOne(s, a);
    var t := Do(s, a).value;
    StepKeepsInv(s, a);
    RunConcat(s, [a], [b]);
    RunOne(t, b);
    StepKeepsInv(t, b);
    assert [a] + [b] == [a, b];
    SignalledLoopReaps(Do(t, b).value);
  }
}
