/** Lists without repetitions, and how vectors are edited. */
module Lists {

  ghost predicate NoRepeats<T>(s: seq<T>) { forall i, j :: 0 <= i < j < |s| ==> s[i] != s[j] }

  /** The list holds every element of the set once, and nothing else. */
  ghost predicate ListsOnce<T>(s: seq<T>, want: set<T>) {
    NoRepeats(s) && (forall y :: y in s ==> y in want) && forall y :: y in want ==> y in s
  }

  /** The list without the first occurrence of x. */
  function Erased<T(==)>(s: seq<T>, x: T): seq<T> {
    if s == [] then [] else if s[0] == x then s[1..] else [s[0]] + Erased(s[1..], x)
  }

  lemma {:induction false} ErasedAt<T>(s: seq<T>, x: T, i: nat)
    requires i < |s| && s[i] == x && x !in s[..i]
    ensures Erased(s, x) == s[..i] + s[i + 1..]
  {
    if i > 0 {
      assert s[0] in s[..i];
      assert s[1..][..i - 1] == s[..i][1..];
      ErasedAt(s[1..], x, i - 1);
      assert s[..i] == [s[0]] + s[1..][..i - 1];
    }
  }

  lemma {:induction false} ErasedLists<T>(s: seq<T>, want: set<T>, x: T)
    requires ListsOnce(s, want)
    ensures ListsOnce(Erased(s, x), want - {x}) && (x !in want ==> Erased(s, x) == s)
  {
    if s != [] {
      var t := s[1..];
      assert s == [s[0]] + t;
      assert ListsOnce(t, want - {s[0]}) by {
        assert forall y :: y in t ==> y in s && y != s[0];
      }
      if s[0] != x {
        ErasedLists(t, want - {s[0]}, x);
        ListsOnceMore(Erased(t, x), want - {s[0]} - {x}, s[0]);
        assert want - {s[0]} - {x} + {s[0]} == want - {x};
      }
    }
  }

  lemma ListsOnceMore<T>(s: seq<T>, want: set<T>, x: T)
    requires ListsOnce(s, want) && x !in want
    ensures ListsOnce([x] + s, want + {x}) && ListsOnce(s + [x], want + {x})
  {
    forall i | 0 <= i < |s| ensures s[i] != x {
      assert s[i] in s;
    }
    assert forall y :: y in [x] + s <==> y in s || y == x;
    assert forall y :: y in s + [x] <==> y in s || y == x;
  }

  /** The list without the elements in gone. */
  function Cleared<T(==)>(s: seq<T>, gone: set<T>): seq<T> {
    if s == [] then [] else if s[0] in gone then Cleared(s[1..], gone) else [s[0]] + Cleared(s[1..], gone)
  }

  lemma {:induction false} ClearedNone<T>(s: seq<T>)
    ensures Cleared(s, {}) == s
  {
    if s != [] {
      ClearedNone(s[1..]);
    }
  }

  lemma {:induction false} ErasedAfterCleared<T>(s: seq<T>, gone: set<T>, x: T)
    requires NoRepeats(s)
    ensures Erased(Cleared(s, gone), x) == Cleared(s, gone + {x})
  {
    if s != [] {
      var t := s[1..];
      var c := Cleared(t, gone);
      ErasedAfterCleared(t, gone, x);
      assert ([s[0]] + c)[1..] == c;
      if s[0] == x {
        assert forall i :: 0 <= i < |t| ==> t[i] == s[i + 1];
        ClearedSame(t, gone, gone + {x});
        ClearedSubset(t, gone);
        ErasedAbsent(c, x);
      }
    }
  }

  lemma {:induction false} ClearedSubset<T>(s: seq<T>, gone: set<T>)
    ensures forall y :: y in Cleared(s, gone) ==> y in s
  {
    if s != [] {
      ClearedSubset(s[1..], gone);
    }
  }

  lemma ErasedAbsent<T>(s: seq<T>, x: T)
    requires x !in s
    ensures Erased(s, x) == s
  {
  }

  lemma {:induction false} ClearedSame<T>(s: seq<T>, gone: set<T>, more: set<T>)
    requires forall y :: y in s ==> (y in gone <==> y in more)
    ensures Cleared(s, gone) == Cleared(s, more)
  {
    if s != [] {
      ClearedSame(s[1..], gone, more);
    }
  }

  lemma InsertedOnce<T>(s: seq<T>, x: T, i: nat)
    requires NoRepeats(s) && x !in s && i <= |s|
    ensures var r := s[..i] + [x] + s[i..];
      NoRepeats(r) && (forall y :: y in r ==> y in s || y == x) && (forall y :: y in s ==> y in r) && x in r
  {
    var r := s[..i] + [x] + s[i..];
    assert r[i] == x;
    forall y | y in s ensures y in r {
      var j :| 0 <= j < |s| && s[j] == y;
      assert r[if j < i then j else j + 1] == y;
    }
  }

  lemma {:induction false} ClearedLists<T>(s: seq<T>, want: set<T>, gone: set<T>)
    requires ListsOnce(s, want)
    ensures ListsOnce(Cleared(s, gone), want - gone)
  {
    if s == [] {
    } else {
      var t := s[1..];
      assert s == [s[0]] + t && forall i :: 0 <= i < |t| ==> t[i] == s[i + 1];
      assert ListsOnce(t, want - {s[0]}) by {
        assert forall y :: y in t ==> y in s && y != s[0];
      }
      ClearedLists(t, want - {s[0]}, gone);
      if s[0] in gone {
        assert want - {s[0]} - gone == want - gone;
      } else {
        ListsOnceMore(Cleared(t, gone), want - {s[0]} - gone, s[0]);
        assert want - {s[0]} - gone + {s[0]} == want - gone;
      }
    }
  }

  /** Erasing one more element, if the list has it, clears one more. */
  lemma ClearedMore<T>(s: seq<T>, gone: set<T>, x: T)
    requires NoRepeats(s)
    ensures Cleared(s, gone + {x}) == if x in s then Erased(Cleared(s, gone), x) else Cleared(s, gone)
  {
    ErasedAfterCleared(s, gone, x);
    if x !in s {
      ClearedSame(s, gone, gone + {x});
    }
  }

  lemma {:induction false} StaysListed<T>(s: seq<T>, gone: set<T>, x: T)
    requires x in s && x !in gone
    ensures x in Cleared(s, gone)
  {
    if s[0] != x {
      StaysListed(s[1..], gone, x);
    }
  }

  /** The element taken out of the list, and put at its end or not. */
  function Relisted<T(==)>(s: seq<T>, x: T, back: bool): seq<T> {
    if back then Erased(s, x) + [x] else Erased(s, x)
  }

  lemma RelistedOnce<T>(s: seq<T>, want: set<T>, x: T, back: bool)
    requires ListsOnce(s, want)
    ensures ListsOnce(Relisted(s, x, back), if back then want + {x} else want - {x})
  {
    ErasedLists(s, want, x);
    if back {
      ListsOnceMore(Erased(s, x), want - {x}, x);
      assert want - {x} + {x} == want + {x};
    }
  }

  lemma {:induction false} ClearedAll<T>(s: seq<T>, gone: set<T>)
    requires forall y :: y in s ==> y in gone
    ensures Cleared(s, gone) == []
  {
    if s != [] {
      ClearedAll(s[1..], gone);
    }
  }
}
