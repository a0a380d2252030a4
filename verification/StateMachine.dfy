/** The state machine engine: transitions, initialisation, history, and running until nothing is pending. */
module StateMachines {
  import opened Options
  import opened StateTrees
  import opened StateRuns

  class Machine {
    const tree: Tree
    var current: Option<nat>
    var pendingState: Option<nat>
    var pendingInit: Init
    var pendingEvent: bool
    var histories: map<nat, nat>
    var boxes: set<nat>

    /** The entry and exit actions so far, and what the calls of user code that follow will do; then it does nothing. */
    ghost var log: seq<Action>
    var script: seq<Reaction>

    constructor (tree: Tree, script: seq<Reaction>)
      requires IsTree(tree) && forall r :: r in script ==> Harmless(tree, r)
      ensures this.tree == tree && this.script == script && Stopped() && log == [] && histories == map[]
    {
      this.tree, this.script := tree, script;
      current, pendingState, pendingInit, pendingEvent := None, None, DefaultInit, false;
      histories, boxes, log := map[], {}, [];
    }

    /** The machine as it appears in a run. */
    ghost function Snap(failed: bool): Snapshot
      requires current.Some?
      reads this
    {
      Snapshot(current.value, if pendingState.Some? then Some((pendingState.value, pendingInit))
        else None, pendingEvent,
               failed, histories, boxes, log, script)
    }

    ghost predicate Sound()
      reads this
    {
      IsTree(tree) && HistoriesOk(tree, histories) && (forall r :: r in script ==> Harmless(tree, r)) &&
      (pendingState.Some? ==> IsState(tree, pendingState.value))
    }

    /** All states have been left, and the log is well nested. */
    ghost predicate Stopped()
      reads this
    {
      Sound() && current == None && pendingState == None && !pendingEvent && Leads(tree, [], log, []) &&
        BoxesOk(tree, boxes, [])
    }

    /** The open states of the well-nested log are those from the top to the current one. */
    ghost predicate Valid()
      reads this
    {
      Sound() && current.Some? && IsState(tree, current.value) &&
      Leads(tree, [], log, Chain(tree, current.value)) && BoxesOk(tree, boxes, Chain(tree, current.value))
    }

    lemma ExitsFrom(s: nat, next: nat, boxes: set<nat>)
      requires IsTree(tree) && IsState(tree, s) && IsState(tree, next) && s != 0 &&
        (s == next || !IsChild(tree, next, s))
      ensures tree.parent[s] < s && Exits(tree, s, next) == [Action.Exit(s)] + Exits(tree, tree.parent[s], next)
      ensures BoxesAfter(tree, boxes, Exits(tree, s, next)) ==
        BoxesAfter(tree, if tree.box[s] == OwnBox then boxes - {s} else boxes, Exits(tree, tree.parent[s], next))
      ensures forall before: seq<Action> ::
        before + [Action.Exit(s)] + Exits(tree, tree.parent[s], next) == before + Exits(tree, s, next)
    {
      assert Exits(tree, s, next)[1..] == Exits(tree, tree.parent[s], next);
    }

    method Exit(s: nat, next: nat)
      requires IsTree(tree) && IsState(tree, s) && IsState(tree, next)
      modifies this`log, this`boxes
      ensures log == old(log) + Exits(tree, s, next) && boxes == BoxesAfter(tree, old(boxes), Exits(tree, s, next))
      decreases s
    {
      if s == 0 {
        return;
      }
      if s == next || !IsChild(tree, next, s) {
        ExitsFrom(s, next, boxes);
        hide *;
        log := log + [Action.Exit(s)];
        if tree.box[s] == OwnBox {
          boxes := boxes - {s};
        }
        Exit(tree.parent[s], next);
      }
    }

    method Entry(s: nat, previous: nat, first: bool)
      requires IsTree(tree) && IsState(tree, s) && IsState(tree, previous)
      modifies this`log, this`boxes
      ensures log == old(log) + Entries(tree, s, previous, first) &&
        boxes == BoxesAfter(tree, old(boxes), Entries(tree, s, previous, first))
      decreases s
    {
      if s == 0 {
        return;
      }
      if first || !IsChild(tree, previous, s) {
        Entry(tree.parent[s], previous, false);
        BoxesAfterBoth(tree, old(boxes), Entries(tree, tree.parent[s], previous, false), [Enter(s)]);
        boxes := boxes + {s};
        log := log + [Enter(s)];
      }
    }

    method RecordHistory(p: nat, shallow: nat, deep: nat)
      requires IsTree(tree) && IsState(tree, p)
      modifies this`histories
      ensures histories == SaveHistory(tree, old(histories), p, shallow, deep)
      decreases p
    {
      if p == 0 {
        return;
      }
      match tree.strategy[p] {
        case NoHistory =>
        case Shallow => histories := histories[p := shallow];
        case Deep => histories := histories[p := deep];
      }
      if KeptAbove(tree, p) {
        RecordHistory(tree.parent[p], p, deep);
      }
    }

    method SetPendingState(s: nat, init: Init)
      requires pendingState == None || (pendingState == Some(s) && pendingInit == init)
      modifies this`pendingState, this`pendingInit
      ensures pendingState == Some(s) && pendingInit == init
    {
      pendingState := Some(s);
      pendingInit := init;
    }

    /** User code is called. */
    method React() returns (r: Reaction)
      modifies this`script
      ensures r == NextReaction(old(script)) && script == Rest(old(script))
    {
      if script == [] {
        r := Reaction(None, false);
      } else {
        r := script[0];
        script := script[1..];
      }
    }

    /** The state goes back to its history, if it is asked to and has one, or decides itself; then it has none. */
    method Initialize(s: nat, history: bool)
      requires pendingState == None
      modifies this`pendingState, this`pendingInit, this`script, this`histories
      ensures histories == old(histories) - {s}
      ensures history && s in old(histories) ==>
        pendingState == Some(old(histories)[s]) &&
        pendingInit == DefaultInit && script == old(script)
      ensures !(history && s in old(histories)) ==>
        Wants(pendingState, pendingInit, old(pendingInit), if s == 0 then Reaction(None, false)
          else NextReaction(old(script))) &&
        script == if s == 0 then old(script) else Rest(old(script))
    {
      if history && s in histories {
        SetPendingState(histories[s], DefaultInit);
      } else if s != 0 {
        var r := React();
        if r.goto.Some? {
          SetPendingState(r.goto.value.0, r.goto.value.1);
        }
      }
      histories := histories - {s};
    }

    /** The exit actions, the histories, and the entry actions of the pending transition. */
    method Move()
      requires IsTree(tree) && current.Some? && IsState(tree, current.value) && pendingState.Some? &&
        IsState(tree, pendingState.value)
      modifies this`current, this`pendingState, this`histories, this`boxes, this`log
      ensures current == old(pendingState) && pendingState == None &&
        histories == SetHistorySuper(tree, old(histories), old(current).value)
      ensures var actions := Exits(tree, old(current).value, current.value) +
        Entries(tree, current.value, old(current).value, true);
        log == old(log) + actions && boxes == BoxesAfter(tree, old(boxes), actions)
    {
      ghost var c, n := current.value, pendingState.value;
      BoxesAfterBoth(tree, boxes, Exits(tree, c, n), Entries(tree, n, c, true));
      Exit(current.value, pendingState.value);
      if current.value != 0 {
        RecordHistory(tree.parent[current.value], current.value, current.value);
      }
      var previous := current.value;
      current := pendingState;
      Entry(current.value, previous, true);
      assert log == old(log) + (Exits(tree, c, n) + Entries(tree, n, c, true));
      pendingState := None;
    }

    /** A state that has been initialised. */
    lemma Initialized(h: Histories, before: Init, s: nat, was: seq<Reaction>)
      requires IsTree(tree) && HistoriesOk(tree, h) && IsState(tree, s) && forall r :: r in was ==> Harmless(tree, r)
      requires if before == HistoryInit && s in h then pendingState == Some(h[s]) && script == was
        else
          Wants(pendingState, pendingInit, before, if s == 0 then Reaction(None, false) else NextReaction(was)) &&
          script == if s == 0 then was else Rest(was)
      ensures Shrinks(was, script) && (forall r :: r in script ==> Harmless(tree, r)) &&
        (s == 0 ==> pendingState == None)
      ensures pendingState.Some? ==>
        IsState(tree, pendingState.value) &&
        (pendingState.value != s && IsChild(tree, pendingState.value, s) ==> pendingState.value > s)
    {
      assert s in h ==> HistoryOk(tree, h, s);
      assert was != [] ==> was[0] in was;
      if pendingState.Some? && IsState(tree, pendingState.value) && IsChild(tree, pendingState.value, s) {
        ChildIsLater(tree, pendingState.value, s);
      }
    }

    /** What has been done is the step of a pending transition. */
    lemma IsTransition(a: Snapshot, b: Snapshot, noted: Histories, before: Init)
      requires Sane(tree, a) && Sane(tree, b) && a.pending.Some? && !a.failed && current.Some? && b == Snap(b.failed)
      requires var (n, init) := a.pending.value;
        var actions := Exits(tree, a.current, n) + Entries(tree, n, a.current, true);
        b.current == n && b.event == a.event && b.log == a.log + actions &&
        b.boxes == BoxesAfter(tree, a.boxes, actions) && noted == SetHistorySuper(tree, a.histories, a.current) &&
        b.histories == noted - {n}
      requires var (n, init) := a.pending.value;
        if init == HistoryInit && n in noted then
          pendingState == Some(noted[n]) && pendingInit == DefaultInit && script == a.script
        else
          Wants(pendingState, pendingInit, before, if n == 0 then Reaction(None, false) else NextReaction(a.script)) &&
          script == if n == 0 then a.script else Rest(a.script)
      requires b.failed == (pendingState.Some? &&
        !(pendingState.value != b.current && IsChild(tree, pendingState.value, b.current)))
      ensures Step(tree, a, b)
    {
      hide SetHistorySuper, BoxesAfter, Exits, Entries, IsChild;
    }

    /** One transition, up to and including the initialisation of its target. It fails if the target asks for a
        transition to anything but a proper substate. */
    method Transit() returns (ok: bool)
      requires Valid() && pendingState.Some?
      modifies this`current, this`pendingState, this`pendingInit, this`histories, this`boxes, this`log, this`script
      ensures Valid() && current == old(pendingState) && Shrinks(old(script), script)
      ensures log == old(log) + (Exits(tree, old(current).value, current.value) +
        Entries(tree, current.value, old(current).value, true))
      ensures histories == SetHistorySuper(tree, old(histories), old(current).value) - {current.value}
      ensures ok <==> (pendingState.Some? ==>
        pendingState.value != current.value &&
        IsChild(tree, pendingState.value, current.value))
      ensures ok && pendingState.Some? ==> pendingState.value > current.value
      ensures current.value == 0 ==> ok && pendingState == None
      ensures Step(tree, old(Snap(false)), Snap(!ok))
    {
      TransitionKeeps(tree, current.value, pendingState.value, log, histories, boxes);
      hide Leads, BoxesOk, SetHistorySuper, BoxesAfter, Exits, Entries, Chain, Step, Wants;
      ghost var a := Snap(false);
      Move();
      ghost var h, before := histories, pendingInit;
      Initialize(current.value, pendingInit == HistoryInit);
      Initialized(h, before, current.value, a.script);
      ok := pendingState == None || (pendingState.value != current.value &&
        IsChild(tree, pendingState.value, current.value));
      ForgottenIsOk(tree, h, histories);
      IsTransition(a, Snap(!ok), h, before);
    }

    /** Transitions until none is pending: each goes further in, so they come to an end. */
    method Settle() returns (ok: bool)
      requires Valid()
      modifies this`current, this`pendingState, this`pendingInit, this`histories, this`boxes, this`log, this`script
      ensures Valid() && (ok ==> pendingState == None) && Shrinks(old(script), script)
      ensures ok && old(pendingState).Some? ==> IsChild(tree, current.value, old(pendingState).value)
      ensures old(pendingState) == None ==> ok && current == old(current) && script == old(script)
      ensures old(pendingState) == Some(0) ==> ok && current == Some(0)
      ensures Run(tree, old(Snap(false)), Snap(!ok)) && pendingEvent == old(pendingEvent)
    {
      hide Leads, BoxesOk, HistoriesOk, SetHistorySuper, Exits, Entries, Chain, Step, Run;
      ok := true;
      ghost var a := Snap(false);
      RunNothing(tree, a);
      if pendingState == None {
        return;
      }
      ghost var target := pendingState.value;
      assert IsChild(tree, target, target);
      while pendingState.Some?
        invariant Valid() && ok && Shrinks(old(script), script) && Run(tree, a, Snap(false))
        invariant if pendingState.Some? then IsChild(tree, pendingState.value, target)
          else IsChild(tree, current.value, target)
        invariant target == 0 ==> if pendingState.Some? then pendingState.value == 0 else current.value == 0
        decreases if pendingState.Some? then 1 + |tree.parent| - pendingState.value else 0
      {
        ghost var b := Snap(false);
        ok := Transit();
        RunOn(tree, a, b, Snap(!ok));
        if !ok {
          return;
        }
        if pendingState.Some? {
          ChildIsTransitive(tree, pendingState.value, current.value, target);
        }
      }
    }

    /** The pending transitions, and then the pending event. */
    method Round() returns (ok: bool)
      requires Valid() && (pendingState.Some? || pendingEvent)
      modifies this`current, this`pendingState, this`pendingInit, this`pendingEvent, this`histories, this`boxes,
        this`log, this`script
      ensures Valid() && Run(tree, old(Snap(false)), Snap(!ok)) && Shrinks(old(script), script)
      ensures !old(pendingEvent) ==>
        !pendingEvent &&
        (ok ==> pendingState == None && IsChild(tree, current.value, old(pendingState).value)) &&
        (old(pendingState) == Some(0) ==> ok && current == Some(0))
      ensures ok && old(pendingEvent) && |script| == |old(script)| ==> !pendingEvent
      ensures !ok ==> old(pendingState).Some? && pendingEvent == old(pendingEvent)
    {
      hide Leads, BoxesOk, HistoriesOk, SetHistorySuper, Exits, Entries, Chain, Step, Run;
      ghost var a := Snap(false);
      ok := Settle();
      if ok && pendingEvent {
        ghost var b := Snap(false);
        pendingEvent := false;
        Handle();
        HandledIsStep(b, Snap(false));
        RunOn(tree, a, b, Snap(false));
      }
    }

    /** Transitions and events until nothing is pending. */
    method RattleOn() returns (ok: bool)
      requires Valid()
      modifies this`current, this`pendingState, this`pendingInit, this`pendingEvent, this`histories, this`boxes,
        this`log, this`script
      ensures Valid() && (ok ==> pendingState == None && !pendingEvent)
      ensures ok && !old(pendingEvent) && old(pendingState).Some? ==>
        IsChild(tree, current.value, old(pendingState).value)
      ensures !old(pendingEvent) && old(pendingState) == Some(0) ==> ok && current == Some(0)
      ensures Run(tree, old(Snap(false)), Snap(!ok)) && !Goes(Snap(!ok))
    {
      hide Leads, BoxesOk, HistoriesOk, SetHistorySuper, Exits, Entries, Chain, Step, Run;
      ok := true;
      ghost var a := Snap(false);
      RunNothing(tree, a);
      ghost var event, target, begun := pendingEvent, pendingState, false;
      while ok && (pendingState.Some? || pendingEvent)
        invariant Valid() && (!begun ==> ok && pendingEvent == event && pendingState == target)
        invariant Run(tree, a, Snap(!ok))
        invariant begun && !event ==> !pendingEvent && (ok ==>
          pendingState == None &&
          (target.Some? ==> IsChild(tree, current.value, target.value)))
        invariant begun && !event && target == Some(0) ==> ok && current == Some(0)
        decreases |script|, pendingEvent, pendingState.Some?, ok
      {
        ghost var b := Snap(false);
        ok := Round();
        RunBoth(tree, a, b, Snap(!ok));
        begun := true;
      }
    }

    lemma HandledIsStep(a: Snapshot, b: Snapshot)
      requires Sane(tree, a) && Sane(tree, b) && EventHandled(a, b)
      ensures Step(tree, a, b)
    {
    }

    /** An event handler of the current state is called. */
    method Handle()
      requires Valid() && pendingState == None && !pendingEvent
      modifies this`pendingState, this`pendingInit, this`pendingEvent, this`script
      ensures Valid() && Wants(pendingState, pendingInit, old(pendingInit), NextReaction(old(script)))
      ensures pendingEvent == NextReaction(old(script)).event && script == Rest(old(script))
    {
      var r := React();
      assert old(script) != [] ==> r in old(script);
      if r.goto.Some? {
        SetPendingState(r.goto.value.0, r.goto.value.1);
      }
      pendingEvent := r.event;
    }

    /** The machine starts in the root and goes to the state. */
    method Start(s: nat) returns (ok: bool)
      requires Stopped() && 0 < s < |tree.parent|
      modifies this`current, this`pendingState, this`pendingInit, this`pendingEvent, this`histories, this`boxes,
        this`log, this`script
      ensures Valid() && (ok ==> pendingState == None && !pendingEvent && IsChild(tree, current.value, s))
      ensures Run(tree, Snapshot(0, Some((s, DefaultInit)), false, false, old(histories), old(boxes), old(log),
        old(script)),
        Snap(!ok)) && !Goes(Snap(!ok))
    {
      current := Some(0);
      SetPendingState(s, DefaultInit);
      ok := RattleOn();
    }

    /** An event is dispatched to the current state, and all that follows from it. */
    method Dispatch() returns (ok: bool)
      requires Valid() && pendingState == None && !pendingEvent
      modifies this`current, this`pendingState, this`pendingInit, this`pendingEvent, this`histories, this`boxes,
        this`log, this`script
      ensures Valid() && (ok ==> pendingState == None && !pendingEvent)
      ensures Run(tree, old(Snap(false)).(event := true), Snap(!ok)) && !Goes(Snap(!ok))
    {
      hide Leads, BoxesOk, HistoriesOk, SetHistorySuper, Exits, Entries, Chain, Step, Run;
      ghost var a := Snap(false).(event := true);
      Handle();
      ghost var b := Snap(false);
      RunNothing(tree, a);
      HandledIsStep(a, b);
      RunOn(tree, a, a, b);
      ok := RattleOn();
      RunBoth(tree, a, b, Snap(!ok));
    }

    /** Going back to the root leaves every open state. */
    method Shutdown() returns (ok: bool)
      requires Valid() && pendingState == None && !pendingEvent
      modifies this`current, this`pendingState, this`pendingInit, this`pendingEvent, this`histories, this`boxes,
        this`log, this`script
      ensures ok && Stopped() && script == old(script)
      ensures log == old(log) + Exits(tree, old(current).value, 0) &&
        histories == SetHistorySuper(tree, old(histories), old(current).value)
    {
      SetPendingState(0, DefaultInit);
      ghost var a := Snap(false);
      ok := RattleOn();
      GoneToRoot(a, Snap(false));
      current := None;
    }

    /** Going to the root takes one step. */
    lemma GoneToRoot(a: Snapshot, b: Snapshot)
      requires Sane(tree, a) && HistoriesOk(tree, a.histories) && a.pending == Some((0, DefaultInit)) && !a.event &&
        !a.failed
      requires Run(tree, a, b) && !Goes(b)
      ensures b.log == a.log + Exits(tree, a.current, 0) && b.script == a.script &&
        b.histories == SetHistorySuper(tree, a.histories, a.current)
    {
      var actions := Exits(tree, a.current, 0) + Entries(tree, 0, a.current, true);
      assert actions == Exits(tree, a.current, 0);
      var noted := SetHistorySuper(tree, a.histories, a.current);
      RecordedIsOk(tree, a.histories, a.current);
      assert 0 !in noted by {
        assert 0 in noted ==> HistoryOk(tree, noted, 0);
      }
      var c := Snapshot(0, None, false, false, noted, BoxesAfter(tree, a.boxes, actions), a.log + actions, a.script);
      assert noted - {0} == noted;
      assert Step(tree, a, c);
      hide Step;
      RunNothing(tree, a);
      RunOn(tree, a, a, c);
      RunIsUnique(tree, a, b, c);
    }

    /** The state and all its substates forget their histories. */
    method ClearHistoryDeep(a: nat)
      requires Valid()
      modifies this`histories
      ensures Valid()
      ensures forall s :: s in histories <==> s in old(histories) && !IsChild(tree, s, a)
      ensures forall s :: s in histories ==> histories[s] == old(histories)[s]
    {
      assert forall s :: s in histories ==> HistoryOk(tree, histories, s);
      hide Leads, BoxesOk, HistoriesOk, HistoryOk, Chain, Harmless;
      ClearHistories(a);
      ForgottenIsOk(tree, old(histories), histories);
    }

    method ClearHistories(a: nat)
      requires IsTree(tree) && forall s :: s in histories ==> IsState(tree, s)
      modifies this`histories
      ensures forall s :: s in histories <==> s in old(histories) && !IsChild(tree, s, a)
      ensures forall s :: s in histories ==> histories[s] == old(histories)[s]
    {
      hide IsTree, IsChild;
      var i := 0;
      while i < |tree.parent|
        invariant 0 <= i <= |tree.parent|
        invariant forall s :: s in histories <==> s in old(histories) && (s < i ==> !IsChild(tree, s, a))
        invariant forall s :: s in histories ==> histories[s] == old(histories)[s]
      {
        if IsChild(tree, i, a) {
          histories := histories - {i};
        }
        i := i + 1;
      }
    }
  }

  /** Some of the script may have been used up. */
  predicate Shrinks(before: seq<Reaction>, after: seq<Reaction>)
  {
    |after| <= |before| && after == before[|before| - |after|..]
  }

  /** The transition that the reaction asks for, if any, is pending. */
  predicate Wants(pending: Option<nat>, init: Init, before: Init, r: Reaction) {
    match r.goto
    case None => pending == None && init == before
    case Some(g) => pending == Some(g.0) && init == g.1
  }
}
