/** What a state machine does, as a relation between the states of a run: one clause for a transition with the
    initialisation of its target, and one for an event. */
module StateRuns {
  import opened Options
  import opened StateTrees

  datatype Init = DefaultInit | HistoryInit

  /** What user code does when it is called: it may ask for a transition, and an event handler also for another
      event. */
  datatype Reaction = Reaction(goto: Option<(nat, Init)>, event: bool)

  /** The machine between two steps: the current state, the transition and the event that are pending, whether a state
      has asked for something else than a proper substate when it was initialised, the histories and the boxes, the
      actions so far, and what user code will do. */
  datatype Snapshot = Snapshot(
    current: nat, pending: Option<(nat, Init)>, event: bool, failed: bool, histories: Histories, boxes: set<nat>,
    log: seq<Action>, script: seq<Reaction>)

  predicate Harmless(t: Tree, r: Reaction) { r.goto.Some? ==> 0 < r.goto.value.0 < |t.parent| }

  /** After the script user code does nothing. */
  function NextReaction(script: seq<Reaction>): Reaction { if script == [] then Reaction(None, false) else script[0] }

  function Rest(script: seq<Reaction>): seq<Reaction> { if script == [] then [] else script[1..] }

  predicate Sane(t: Tree, a: Snapshot) {
    IsTree(t) && IsState(t, a.current) && (a.pending.Some? ==> IsState(t, a.pending.value.0))
  }

  /** Something is pending. */
  predicate Goes(a: Snapshot) { !a.failed && (a.pending.Some? || a.event) }

  /** The pending transition happens: its actions, the histories of the states left, and the initialisation of the
      target. The target goes into its history if it is asked to and has one; otherwise, unless it is the root, user
      code decides. Either way it then has no history. */
  predicate Transition(t: Tree, a: Snapshot, b: Snapshot)
    requires Sane(t, a) && Sane(t, b)
  {
    a.pending.Some? && !a.failed &&
    var (n, init) := a.pending.value;
    var actions := Exits(t, a.current, n) + Entries(t, n, a.current, true);
    var noted := SetHistorySuper(t, a.histories, a.current);
    b.current == n && b.event == a.event && b.log == a.log + actions && b.boxes == BoxesAfter(t, a.boxes, actions) &&
    b.histories == noted - {n} &&
    (if init == HistoryInit && n in noted then b.pending == Some((noted[n], DefaultInit)) && b.script == a.script
     else if n == 0 then b.pending == None && b.script == a.script
     else b.pending == NextReaction(a.script).goto && b.script == Rest(a.script)) &&
    b.failed == (b.pending.Some? && !(b.pending.value.0 != n && IsChild(t, b.pending.value.0, n)))
  }

  /** No transition is pending, and user code handles the event. */
  predicate EventHandled(a: Snapshot, b: Snapshot) {
    a.pending == None && a.event && !a.failed &&
    var r := NextReaction(a.script);
    b == a.(pending := r.goto, event := r.event, script := Rest(a.script))
  }

  predicate Step(t: Tree, a: Snapshot, b: Snapshot) {
    Sane(t, a) && Sane(t, b) && (Transition(t, a, b) || EventHandled(a, b))
  }

  predicate IsTrace(t: Tree, trace: seq<Snapshot>) {
    |trace| > 0 && forall k :: 0 < k < |trace| ==> Step(t, trace[k - 1], trace[k])
  }

  predicate Connects(t: Tree, trace: seq<Snapshot>, a: Snapshot, b: Snapshot) {
    IsTrace(t, trace) && trace[0] == a && trace[|trace| - 1] == b
  }

  ghost predicate Run(t: Tree, a: Snapshot, b: Snapshot) { exists trace :: Connects(t, trace, a, b) }

  lemma RunNothing(t: Tree, a: Snapshot)
    ensures Run(t, a, a)
  {
    assert Connects(t, [a], a, a);
  }

  lemma RunOn(t: Tree, a: Snapshot, b: Snapshot, c: Snapshot)
    requires Run(t, a, b) && Step(t, b, c)
    ensures Run(t, a, c)
  {
    hide Step;
    var trace :| Connects(t, trace, a, b);
    assert Connects(t, trace + [c], a, c);
  }

  lemma RunBoth(t: Tree, a: Snapshot, b: Snapshot, c: Snapshot)
    requires Run(t, a, b) && Run(t, b, c)
    ensures Run(t, a, c)
  {
    hide Step;
    var first :| Connects(t, first, a, b);
    var second :| Connects(t, second, b, c);
    var both := first + second[1..];
    forall k | 0 < k < |both| ensures Step(t, both[k - 1], both[k]) {
      if k >= |first| {
        assert both[k] == second[k - |first| + 1] && both[k - 1] == second[k - |first|];
      }
    }
    assert Connects(t, both, a, c);
  }

  // ----- There is one run only -----------------------------------------------------------------------

  lemma StepIsUnique(t: Tree, a: Snapshot, b: Snapshot, c: Snapshot)
    requires Step(t, a, b) && Step(t, a, c)
    ensures b == c && Goes(a)
  {
  }

  lemma {:induction false} TraceIsUnique(t: Tree, x: seq<Snapshot>, y: seq<Snapshot>, k: nat)
    requires IsTrace(t, x) && IsTrace(t, y) && x[0] == y[0] && k < |x| && k < |y|
    ensures x[k] == y[k]
    decreases k
  {
    if k > 0 {
      TraceIsUnique(t, x, y, k - 1);
      hide Step;
      assert Step(t, x[k - 1], x[k]) && Step(t, y[k - 1], y[k]);
      StepIsUnique(t, x[k - 1], x[k], y[k]);
    }
  }

  /** Runs that come to rest, or fail, end in the same way. */
  lemma RunIsUnique(t: Tree, a: Snapshot, b: Snapshot, c: Snapshot)
    requires Run(t, a, b) && Run(t, a, c) && !Goes(b) && !Goes(c)
    ensures b == c
  {
    hide Step;
    var x :| Connects(t, x, a, b);
    var y :| Connects(t, y, a, c);
    if |x| < |y| {
      LongerGoes(t, x, y);
    } else if |y| < |x| {
      LongerGoes(t, y, x);
    } else {
      TraceIsUnique(t, x, y, |x| - 1);
    }
  }

  lemma LongerGoes(t: Tree, x: seq<Snapshot>, y: seq<Snapshot>)
    requires IsTrace(t, x) && IsTrace(t, y) && x[0] == y[0] && |x| < |y|
    ensures Goes(x[|x| - 1])
  {
    hide Step;
    var k := |x| - 1;
    TraceIsUnique(t, x, y, k);
    assert Step(t, y[k + 1 - 1], y[k + 1]);
    StepIsUnique(t, y[k], y[k + 1], y[k + 1]);
  }

  // ----- Histories ---------------------------------------------------------------------------------------

  predicate Keeps(a: Snapshot, s: nat, v: nat) { s in a.histories && a.histories[s] == v }

  /** A step from one state outside a state to another leaves its history as it is. */
  lemma StepOutside(t: Tree, a: Snapshot, b: Snapshot, s: nat, v: nat)
    requires Step(t, a, b) && IsState(t, s) && Keeps(a, s, v) && !IsChild(t, a.current, s) && !IsChild(t, b.current, s)
    ensures Keeps(b, s, v)
  {
    if a.pending.Some? {
      HistoryIsRecorded(t, a.histories, a.current, s);
    }
  }

  /** What a state remembers when one of its proper substates is left. */
  function Recalled(t: Tree, c: nat, s: nat): nat
    requires IsTree(t) && IsState(t, c) && IsState(t, s) && IsChild(t, c, s) && c != s
  {
    if t.strategy[s] == Deep then c else Toward(t, c, s)
  }

  lemma FirstStep(t: Tree, a: Snapshot, b: Snapshot, s: nat)
    requires Step(t, a, b) && a.pending.Some? && IsState(t, s) && IsChild(t, a.current, s) && a.current != s
    requires t.strategy[s] != NoHistory && !IsChild(t, b.current, s)
    ensures Keeps(b, s, Recalled(t, a.current, s))
  {
    HistoryIsRecorded(t, a.histories, a.current, s);
  }

  lemma {:induction false} KeptOutside(t: Tree, trace: seq<Snapshot>, s: nat, v: nat, k: nat)
    requires IsTrace(t, trace) && IsTree(t) && IsState(t, s) && |trace| > 1 && Keeps(trace[1], s, v) && 0 < k < |trace|
    requires forall j :: 0 < j <= k ==> Sane(t, trace[j]) && !IsChild(t, trace[j].current, s)
    ensures Keeps(trace[k], s, v)
    decreases k
  {
    if k > 1 {
      hide Step;
      KeptOutside(t, trace, s, v, k - 1);
      assert Step(t, trace[k - 1], trace[k]);
      StepOutside(t, trace[k - 1], trace[k], s, v);
    }
  }

  lemma ProperRecalled(t: Tree, c: nat, s: nat)
    requires IsTree(t) && IsState(t, c) && IsState(t, s) && IsChild(t, c, s) && c != s
    ensures var v := Recalled(t, c, s); IsState(t, v) && v != s && IsChild(t, v, s)
    ensures t.strategy[s] != Deep ==> Recalled(t, c, s) != 0 && t.parent[Recalled(t, c, s)] == s
  {
    if t.strategy[s] != Deep {
      ChildIsLaterThan(t, Toward(t, c, s));
    }
  }

  lemma ComesBack(t: Tree, a: Snapshot, b: Snapshot, s: nat, v: nat)
    requires Step(t, a, b) && a.pending == Some((s, HistoryInit)) && IsState(t, v) && v != s && IsChild(t, v, s)
    requires SetHistorySuper(t, a.histories, a.current)[s := v] == SetHistorySuper(t, a.histories, a.current)
    requires s in SetHistorySuper(t, a.histories, a.current)
    ensures b.current == s && b.pending == Some((v, DefaultInit)) && !b.failed && b.script == a.script &&
      s !in b.histories
  {
  }

  /** A state that keeps a history, one of whose proper substates is left, and that is come back to and asked for its
      history, goes on to what it remembers: the substate on the way to the state left if it is shallow, and that state
      itself if it is deep. No user code is called. */
  lemma HistoryReturns(t: Tree, trace: seq<Snapshot>, s: nat)
    requires IsTrace(t, trace) && |trace| > 1 && Sane(t, trace[0]) && IsState(t, s) && t.strategy[s] != NoHistory
    requires trace[0].pending.Some? && IsChild(t, trace[0].current, s) && trace[0].current != s
    requires forall k :: 0 < k < |trace| - 1 ==> Sane(t, trace[k]) && !IsChild(t, trace[k].current, s)
    requires trace[|trace| - 2].pending == Some((s, HistoryInit))
    ensures var b, a := trace[|trace| - 1], trace[|trace| - 2];
      b.current == s && b.pending == Some((Recalled(t, trace[0].current, s), DefaultInit)) && !b.failed &&
        b.script == a.script &&
      s !in b.histories
  {
    var c, m := trace[0].current, |trace| - 2;
    var v := Recalled(t, c, s);
    ProperRecalled(t, c, s);
    assert Step(t, trace[m + 1 - 1], trace[m + 1]) && Step(t, trace[1 - 1], trace[1]);
    hide Step;
    if m > 0 {
      FirstStep(t, trace[0], trace[1], s);
      KeptOutside(t, trace, s, v, m);
    }
    HistoryIsRecorded(t, trace[m].histories, trace[m].current, s);
    ComesBack(t, trace[m], trace[m + 1], s, v);
  }

  /** Without a history, or without being asked for it, a state other than the root goes on to where user code wants. */
  lemma UserDecides(t: Tree, a: Snapshot, b: Snapshot)
    requires Step(t, a, b) && a.pending.Some? && a.pending.value.0 != 0
    requires a.pending.value.1 == DefaultInit || a.pending.value.0 !in SetHistorySuper(t, a.histories, a.current)
    ensures b.current == a.pending.value.0 && b.pending == NextReaction(a.script).goto && b.script == Rest(a.script) &&
      a.pending.value.0 !in b.histories
  {
  }
}
