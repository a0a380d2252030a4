/** Hierarchies of states: which states a transition leaves and enters, and what it records as history. */
module StateTrees {

  datatype Strategy = NoHistory | Shallow | Deep

  /** An empty box is shared by all states and never deleted; a persistent one is kept when its state is left. */
  datatype BoxKind = EmptyBox | OwnBox | PersistentBox

  /** State 0 is the root; the other states are numbered after the states that they are substates of. */
  datatype Tree = Tree(parent: seq<nat>, strategy: seq<Strategy>, box: seq<BoxKind>)

  predicate IsTree(t: Tree) {
    |t.parent| == |t.strategy| == |t.box| && |t.parent| > 0 && t.strategy[0] == NoHistory &&
    forall s :: 0 < s < |t.parent| ==> t.parent[s] < s
  }

  predicate IsState(t: Tree, s: nat) { s < |t.parent| }

  /** The state is the other one or one of its substates. */
  predicate IsChild(t: Tree, s: nat, a: nat)
    requires IsTree(t) && IsState(t, s)
  {
    s == a || (s != 0 && IsChild(t, t.parent[s], a))
  }

  /** The states a machine is in: from the top one to the current one, without the root. */
  function Chain(t: Tree, s: nat): seq<nat>
    requires IsTree(t) && IsState(t, s)
  {
    if s == 0 then [] else Chain(t, t.parent[s]) + [s]
  }

  datatype Action = Enter(s: nat) | Exit(s: nat)

  // ----- Entry and exit logs -----------------------------------------------------------------

  /** What the actions do to the states that are open: a state is entered when exactly its superstates are open, and
      left when it is the innermost open one. */
  function Replay(t: Tree, open: seq<nat>, log: seq<Action>): (r: seq<nat>)
    requires IsTree(t) && WellNested(t, open, log)
    decreases |log|
  {
    if log == [] then open
    else
      match log[0]
      case Enter(s) => Replay(t, open + [s], log[1..])
      case Exit(s) => Replay(t, open[..|open| - 1], log[1..])
  }

  predicate WellNested(t: Tree, open: seq<nat>, log: seq<Action>)
    requires IsTree(t)
    decreases |log|
  {
    log == [] ||
    match log[0]
    case Enter(s) => 0 < s < |t.parent| && open == Chain(t, t.parent[s]) && WellNested(t, open + [s], log[1..])
    case Exit(s) => open != [] && open[|open| - 1] == s && WellNested(t, open[..|open| - 1], log[1..])
  }

  /** The log leads from some open states to others. */
  predicate Leads(t: Tree, open: seq<nat>, log: seq<Action>, open': seq<nat>)
    requires IsTree(t)
  {
    WellNested(t, open, log) && Replay(t, open, log) == open'
  }

  lemma {:induction false} LeadsOn(t: Tree, a: seq<nat>, log: seq<Action>, b: seq<nat>, log': seq<Action>, c: seq<nat>)
    requires IsTree(t) && Leads(t, a, log, b) && Leads(t, b, log', c)
    ensures Leads(t, a, log + log', c)
    decreases |log|
  {
    if log == [] {
      assert log + log' == log';
    } else {
      assert (log + log')[1..] == log[1..] + log';
      match log[0]
      case Enter(s) => LeadsOn(t, a + [s], log[1..], b, log', c);
      case Exit(s) => LeadsOn(t, a[..|a| - 1], log[1..], b, log', c);
    }
  }

  /** The exit actions on the way from a state to the next one. */
  function Exits(t: Tree, s: nat, next: nat): seq<Action>
    requires IsTree(t) && IsState(t, s) && IsState(t, next)
  {
    if s != 0 && (s == next || !IsChild(t, next, s)) then [Exit(s)] + Exits(t, t.parent[s], next) else []
  }

  /** The innermost state that is not left. */
  function Stays(t: Tree, s: nat, next: nat): (r: nat)
    requires IsTree(t) && IsState(t, s) && IsState(t, next)
    ensures IsState(t, r)
  {
    if s != 0 && (s == next || !IsChild(t, next, s)) then Stays(t, t.parent[s], next) else s
  }

  /** The entry actions on the way to a state from the previous one. */
  function Entries(t: Tree, s: nat, previous: nat, first: bool): seq<Action>
    requires IsTree(t) && IsState(t, s) && IsState(t, previous)
  {
    if s != 0 && (first || !IsChild(t, previous, s)) then Entries(t, t.parent[s], previous, false) + [Enter(s)] else []
  }

  // ----- Substates ------------------------------------------------------------------------------

  lemma {:induction false} ChildIsLater(t: Tree, s: nat, a: nat)
    requires IsTree(t) && IsState(t, s) && IsChild(t, s, a)
    ensures a <= s
  {
    if s != a {
      ChildIsLater(t, t.parent[s], a);
    }
  }

  lemma {:induction false} ChildIsTransitive(t: Tree, s: nat, a: nat, b: nat)
    requires IsTree(t) && IsState(t, s) && IsChild(t, s, a) && IsState(t, a) && IsChild(t, a, b)
    ensures IsChild(t, s, b)
  {
    if s != a {
      ChildIsTransitive(t, t.parent[s], a, b);
    }
  }

  lemma {:induction false} AllAreUnderRoot(t: Tree, s: nat)
    requires IsTree(t) && IsState(t, s)
    ensures IsChild(t, s, 0)
  {
    if s != 0 {
      AllAreUnderRoot(t, t.parent[s]);
    }
  }

  lemma {:induction false} ChainHas(t: Tree, s: nat, a: nat)
    requires IsTree(t) && IsState(t, s)
    ensures a in Chain(t, s) <==> a != 0 && IsChild(t, s, a)
  {
    if s != 0 {
      ChainHas(t, t.parent[s], a);
    }
  }

  // ----- A transition ------------------------------------------------------------------------------

  /** What stays open are the superstates of both ends; the target is none of them, nor is a state further in. */
  lemma {:induction false} StaysIs(t: Tree, s: nat, next: nat)
    requires IsTree(t) && IsState(t, s) && IsState(t, next)
    ensures var r := Stays(t, s, next);
      IsChild(t, s, r) && IsChild(t, next, r) && (r != next || r == 0) &&
      forall a :: r < a && IsChild(t, s, a) && IsChild(t, next, a) ==> a == next
  {
    if s != 0 && (s == next || !IsChild(t, next, s)) {
      StaysIs(t, t.parent[s], next);
    } else {
      if s == 0 {
        AllAreUnderRoot(t, next);
      }
      forall a | s < a && IsChild(t, s, a) ensures false {
        ChildIsLater(t, s, a);
      }
    }
  }

  lemma {:induction false} ExitsLead(t: Tree, s: nat, next: nat)
    requires IsTree(t) && IsState(t, s) && IsState(t, next)
    ensures Leads(t, Chain(t, s), Exits(t, s, next), Chain(t, Stays(t, s, next)))
  {
    if s != 0 && (s == next || !IsChild(t, next, s)) {
      ExitsLead(t, t.parent[s], next);
      assert Chain(t, s)[..|Chain(t, s)| - 1] == Chain(t, t.parent[s]);
      assert Exits(t, s, next)[1..] == Exits(t, t.parent[s], next);
    }
  }

  lemma {:induction false} EntriesLead(t: Tree, s: nat, previous: nat, first: bool, r: nat)
    requires IsTree(t) && IsState(t, s) && IsState(t, previous) && IsState(t, r) && IsChild(t, s, r) &&
      IsChild(t, previous, r)
    requires first ==> s != r || s == 0
    requires forall a :: r < a && IsChild(t, previous, a) && IsChild(t, s, a) ==> first && a == s
    ensures Leads(t, Chain(t, r), Entries(t, s, previous, first), Chain(t, s))
  {
    if s != 0 && (first || !IsChild(t, previous, s)) {
      var p := t.parent[s];
      assert s != r;
      forall a | r < a && IsChild(t, previous, a) && IsChild(t, p, a) ensures false {
        assert IsChild(t, s, a);
        ChildIsLater(t, p, a);
      }
      EntriesLead(t, p, previous, false, r);
      assert Leads(t, Chain(t, p), [Enter(s)], Chain(t, s)) by {
        assert [Enter(s)][1..] == [];
      }
      LeadsOn(t, Chain(t, r), Entries(t, p, previous, false), Chain(t, p), [Enter(s)], Chain(t, s));
    } else {
      ChildIsLater(t, s, r);
    }
  }

  /** The actions of a transition are well nested and lead from the superstates of its source to those of its target. */
  lemma TransitionLeads(t: Tree, s: nat, next: nat)
    requires IsTree(t) && IsState(t, s) && IsState(t, next)
    ensures Leads(t, Chain(t, s), Exits(t, s, next) + Entries(t, next, s, true), Chain(t, next))
  {
    var r := Stays(t, s, next);
    StaysIs(t, s, next);
    ExitsLead(t, s, next);
    EntriesLead(t, next, s, true, r);
    LeadsOn(t, Chain(t, s), Exits(t, s, next), Chain(t, r), Entries(t, next, s, true), Chain(t, next));
  }

  /** A transition to the current state or one of its superstates leaves the target and enters it again, and nothing
      else is entered. */
  lemma SelfTransition(t: Tree, s: nat, next: nat)
    requires IsTree(t) && IsState(t, s) && IsState(t, next) && next != 0 && IsChild(t, s, next)
    ensures Exit(next) in Exits(t, s, next) && Entries(t, next, s, true) == [Enter(next)]
  {
    ExitsTarget(t, s, next);
    ChildIsTransitive(t, s, next, t.parent[next]);
    assert Entries(t, t.parent[next], s, false) == [];
    assert [] + [Enter(next)] == [Enter(next)];
  }

  lemma {:induction false} ExitsTarget(t: Tree, s: nat, next: nat)
    requires IsTree(t) && IsState(t, s) && IsState(t, next) && next != 0 && IsChild(t, s, next)
    ensures Exit(next) in Exits(t, s, next)
  {
    if s != next {
      if IsChild(t, next, s) {
        ChildIsLater(t, next, s);
        ChildIsLater(t, s, next);
      }
      ExitsTarget(t, t.parent[s], next);
    }
  }

  // ----- History -----------------------------------------------------------------------------------

  type Histories = map<nat, nat>

  /** Some proper superstate of the state keeps a history. */
  predicate KeptAbove(t: Tree, s: nat)
    requires IsTree(t) && IsState(t, s)
  {
    s != 0 && (t.strategy[t.parent[s]] != NoHistory || KeptAbove(t, t.parent[s]))
  }

  /** The superstates of the state note it: the shallow histories the substate on the way, the deep ones the state that
      is left. */
  function SaveHistory(t: Tree, h: Histories, p: nat, shallow: nat, deep: nat): Histories
    requires IsTree(t) && IsState(t, p)
    decreases p
  {
    if p == 0 then h
    else
      var h' := match t.strategy[p] case NoHistory => h case Shallow => h[p := shallow] case Deep => h[p := deep];
      if KeptAbove(t, p) then SaveHistory(t, h', t.parent[p], p, deep) else h'
  }

  function SetHistorySuper(t: Tree, h: Histories, s: nat): Histories
    requires IsTree(t) && IsState(t, s)
  {
    if s == 0 then h else SaveHistory(t, h, t.parent[s], s, s)
  }

  /** The substate of a superstate on the way to a state. */
  function Toward(t: Tree, s: nat, a: nat): (c: nat)
    requires IsTree(t) && IsState(t, s) && IsChild(t, s, a) && s != a
    ensures IsState(t, c) && c != 0 && t.parent[c] == a
  {
    if t.parent[s] == a then s else Toward(t, t.parent[s], a)
  }

  /** What a state remembers after a transition out of s. */
  function Remembered(t: Tree, h: Histories, s: nat, a: nat): Histories
    requires IsTree(t) && IsState(t, s) && IsState(t, a)
  {
    if a == s || !IsChild(t, s, a) then h
    else match t.strategy[a] case NoHistory => h case Shallow => h[a := Toward(t, s, a)] case Deep => h[a := s]
  }

  predicate SameAt(h: Histories, h': Histories, a: nat) { (a in h <==> a in h') && (a in h ==> h[a] == h'[a]) }

  lemma {:induction false} NothingKeptAbove(t: Tree, p: nat, a: nat)
    requires IsTree(t) && IsState(t, p) && !KeptAbove(t, p) && IsChild(t, p, a) && a != p && IsState(t, a)
    ensures t.strategy[a] == NoHistory
  {
    if t.parent[p] != a {
      NothingKeptAbove(t, t.parent[p], a);
    }
  }

  lemma {:induction false} SavedIs(t: Tree, h: Histories, p: nat, shallow: nat, deep: nat, a: nat)
    requires IsTree(t) && IsState(t, deep) && IsState(t, shallow) && shallow != 0 && t.parent[shallow] == p &&
      IsChild(t, deep, shallow) && IsState(t, a)
    ensures IsChild(t, p, a) ==> SameAt(SaveHistory(t, h, p, shallow, deep), Remembered(t, h, deep, a), a)
    ensures !IsChild(t, p, a) ==> SameAt(SaveHistory(t, h, p, shallow, deep), h, a)
    decreases p
  {
    if p != 0 {
      var h' := match t.strategy[p] case NoHistory => h case Shallow => h[p := shallow] case Deep => h[p := deep];
      ChildIsTransitive(t, deep, shallow, p);
      ChildIsLater(t, deep, shallow);
      if a == p {
        TowardIs(t, deep, shallow);
        ChildIsLaterThan(t, p);
      }
      if KeptAbove(t, p) {
        SavedIs(t, h', t.parent[p], p, deep, a);
      } else if a != p && IsChild(t, p, a) {
        NothingKeptAbove(t, p, a);
        ChildIsTransitive(t, deep, p, a);
      }
    } else {
      assert IsChild(t, p, a) ==> a == 0;
    }
  }

  /** No state is below its own superstate's place. */
  lemma ChildIsLaterThan(t: Tree, p: nat)
    requires IsTree(t) && IsState(t, p) && p != 0
    ensures !IsChild(t, t.parent[p], p)
  {
    if IsChild(t, t.parent[p], p) {
      ChildIsLater(t, t.parent[p], p);
    }
  }

  lemma {:induction false} TowardIs(t: Tree, s: nat, c: nat)
    requires IsTree(t) && IsState(t, s) && IsState(t, c) && c != 0 && IsChild(t, s, c)
    ensures IsChild(t, s, t.parent[c]) && s != t.parent[c] && Toward(t, s, t.parent[c]) == c
  {
    ChildIsTransitive(t, s, c, t.parent[c]);
    ChildIsLater(t, s, c);
    if s != c {
      if t.parent[s] == t.parent[c] {
        ChildIsLater(t, t.parent[s], c);
      }
      TowardIs(t, t.parent[s], c);
    }
  }

  /** A transition sets the history of exactly the proper superstates of the state it leaves that keep one. */
  lemma HistoryIsRecorded(t: Tree, h: Histories, s: nat, a: nat)
    requires IsTree(t) && IsState(t, s) && IsState(t, a)
    ensures SameAt(SetHistorySuper(t, h, s), Remembered(t, h, s, a), a)
  {
    if s != 0 {
      SavedIs(t, h, t.parent[s], s, s, a);
    }
  }

  /** Every history is a proper substate, a direct one if it is shallow; the root and states without history have
      none. */
  predicate HistoriesOk(t: Tree, h: Histories)
    requires IsTree(t)
  {
    forall a :: a in h ==> HistoryOk(t, h, a)
  }

  predicate HistoryOk(t: Tree, h: Histories, a: nat)
    requires IsTree(t) && a in h
  {
    IsState(t, a) && IsState(t, h[a]) && h[a] != a && IsChild(t, h[a], a) && t.strategy[a] != NoHistory &&
    (t.strategy[a] == Shallow ==> h[a] != 0 && t.parent[h[a]] == a)
  }

  lemma RecordedIsOk(t: Tree, h: Histories, s: nat)
    requires IsTree(t) && IsState(t, s) && HistoriesOk(t, h)
    ensures HistoriesOk(t, SetHistorySuper(t, h, s))
  {
    var h' := SetHistorySuper(t, h, s);
    SavedKeys(t, h, s);
    forall a | a in h' ensures HistoryOk(t, h', a) {
      HistoryIsRecorded(t, h, s, a);
      if a in h {
        assert HistoryOk(t, h, a);
      }
      if a != s && IsChild(t, s, a) && t.strategy[a] == Shallow {
        var c := Toward(t, s, a);
        ChildIsLaterThan(t, c);
      }
    }
  }

  lemma ForgottenIsOk(t: Tree, h: Histories, h': Histories)
    requires IsTree(t) && HistoriesOk(t, h) && forall a :: a in h' ==> a in h && h'[a] == h[a]
    ensures HistoriesOk(t, h')
  {
    forall a | a in h' ensures HistoryOk(t, h', a) {
      assert HistoryOk(t, h, a);
    }
  }

  lemma SavedKeys(t: Tree, h: Histories, s: nat)
    requires IsTree(t) && IsState(t, s) && HistoriesOk(t, h)
    ensures forall a :: a in SetHistorySuper(t, h, s) ==> IsState(t, a)
  {
    if s != 0 {
      forall a | a in h ensures IsState(t, a) {
        assert HistoryOk(t, h, a);
      }
      SaveKeys(t, h, t.parent[s], s, s);
    }
  }

  lemma {:induction false} SaveKeys(t: Tree, h: Histories, p: nat, shallow: nat, deep: nat)
    requires IsTree(t) && IsState(t, p) && forall a :: a in h ==> IsState(t, a)
    ensures forall a :: a in SaveHistory(t, h, p, shallow, deep) ==> IsState(t, a)
    decreases p
  {
    if p != 0 {
      var h' := match t.strategy[p] case NoHistory => h case Shallow => h[p := shallow] case Deep => h[p := deep];
      if KeptAbove(t, p) {
        SaveKeys(t, h', t.parent[p], p, deep);
      }
    }
  }

  // ----- Boxes -------------------------------------------------------------------------------------

  /** Entering a state creates its box unless it is there; leaving it deletes the box if it is the state's own. */
  function BoxesAfter(t: Tree, boxes: set<nat>, log: seq<Action>): set<nat>
    requires IsTree(t)
    decreases |log|
  {
    if log == [] then boxes
    else
      match log[0]
      case Enter(s) => BoxesAfter(t, boxes + {s}, log[1..])
      case Exit(s) => BoxesAfter(t, if IsState(t, s) && t.box[s] == OwnBox then boxes - {s} else boxes, log[1..])
  }

  lemma {:induction false} BoxesAfterBoth(t: Tree, boxes: set<nat>, log: seq<Action>, log': seq<Action>)
    requires IsTree(t)
    ensures BoxesAfter(t, boxes, log + log') == BoxesAfter(t, BoxesAfter(t, boxes, log), log')
    decreases |log|
  {
    if log == [] {
      assert log + log' == log';
    } else {
      assert (log + log')[1..] == log[1..] + log';
      match log[0]
      case Enter(s) => BoxesAfterBoth(t, boxes + {s}, log[1..], log');
      case Exit(s) => BoxesAfterBoth(t, if IsState(t, s) && t.box[s] == OwnBox then boxes - {s}
        else boxes, log[1..], log');
    }
  }

  /** Every open state has a box, and boxes that a state owns alone exist for open states only. */
  ghost predicate BoxesOk(t: Tree, boxes: set<nat>, open: seq<nat>)
    requires IsTree(t)
  {
    (forall s :: s in open ==> s in boxes) && forall s :: s in boxes && IsState(t, s) && t.box[s] == OwnBox ==>
      s in open
  }

  lemma {:induction false} BoxesFollow(t: Tree, c: nat, log: seq<Action>, boxes: set<nat>)
    requires IsTree(t) && IsState(t, c) && WellNested(t, Chain(t, c), log) && BoxesOk(t, boxes, Chain(t, c))
    ensures BoxesOk(t, BoxesAfter(t, boxes, log), Replay(t, Chain(t, c), log))
    decreases |log|
  {
    var open := Chain(t, c);
    if log != [] {
      match log[0]
      case Enter(s) =>
        assert Chain(t, s) == open + [s];
        BoxesFollow(t, s, log[1..], boxes + {s});
      case Exit(s) =>
        var p := t.parent[s];
        assert open[..|open| - 1] == Chain(t, p);
        ChainHas(t, p, s);
        ChainIsLaterThan(t, s, p);
        var boxes' := if t.box[s] == OwnBox then boxes - {s} else boxes;
        assert forall a :: a in open <==> a in Chain(t, p) || a == s;
        BoxesFollow(t, p, log[1..], boxes');
    }
  }

  lemma ChainIsLaterThan(t: Tree, s: nat, p: nat)
    requires IsTree(t) && IsState(t, s) && s != 0 && p == t.parent[s]
    ensures s !in Chain(t, p)
  {
    ChainHas(t, p, s);
    ChildIsLaterThan(t, s);
  }

  /** All that a transition keeps: the log stays well nested, the histories and the boxes in order. */
  lemma TransitionKeeps(t: Tree, c: nat, n: nat, log: seq<Action>, h: Histories, boxes: set<nat>)
    requires IsTree(t) && IsState(t, c) && IsState(t, n)
    requires Leads(t, [], log, Chain(t, c)) && HistoriesOk(t, h) && BoxesOk(t, boxes, Chain(t, c))
    ensures var actions := Exits(t, c, n) + Entries(t, n, c, true);
      Leads(t, [], log + actions, Chain(t, n)) && HistoriesOk(t, SetHistorySuper(t, h, c)) &&
      BoxesOk(t, BoxesAfter(t, boxes, actions), Chain(t, n))
  {
    var actions := Exits(t, c, n) + Entries(t, n, c, true);
    TransitionLeads(t, c, n);
    RecordedIsOk(t, h, c);
    BoxesFollow(t, c, actions, boxes);
    LeadsOn(t, [], log, Chain(t, c), actions, Chain(t, n));
  }
}
