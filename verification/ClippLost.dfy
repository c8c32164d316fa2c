/** A run in which reporting a match is undefined although the root does not block: an undo puts a saved context
    on top of one that has moved on. */
module ClippLost {
  import opened Clipp
  import opened ClippScoped
  import opened Options

  // group(blocking group(p3 blocking, p4), group(group(p8 blocking, p9 blocking)))
  const P3 := Param(3, false, true, false)
  const P4 := Param(4, false, false, false)
  const P8 := Param(8, false, true, false)
  const P9 := Param(9, false, true, false)
  const G2 := Group(2, false, true, false, [P3, P4])
  const G6 := Group(6, false, false, false, [P8, P9])
  const G5 := Group(5, false, false, false, [G6])
  const G1 := Group(1, false, false, false, [G2, G5])

  const AT_G2 := Context(G1, 0, 2)
  const AT_G5 := Context(G1, 1, 2)
  const AT_P3 := Context(G2, 0, 2)
  const AT_P4 := Context(G2, 1, 2)
  const AT_G6 := Context(G5, 0, 1)
  const AT_P8 := Context(G6, 0, 2)
  const AT_P9 := Context(G6, 1, 2)

  lemma AllFit()
    ensures Fits(AT_G2) && Fits(AT_G5) && Fits(AT_P3) && Fits(AT_P4) && Fits(AT_G6) && Fits(AT_P8) && Fits(AT_P9)
    ensures !Blocking(G1) && Blocking(G2) && !Blocking(G5) && !Blocking(G6)
    ensures Blocking(P3) && !Blocking(P4) && Blocking(P8) && Blocking(P9)
  {
    assert Full(P3) && Full(P4) && Full(P8) && Full(P9);
    assert Full(G2) && Full(G6);
    assert Full(G5);
    assert Full(G1);
  }

  /** No group repeats. */
  lemma NoRepeats()
    ensures InnermostRepeat([]) == None && InnermostRepeat([AT_G2]) == None && InnermostRepeat([AT_G5]) == None
    ensures InnermostRepeat([AT_G2, AT_P3]) == None && InnermostRepeat([AT_G2, AT_P4]) == None
    ensures InnermostRepeat([AT_G5, AT_G6, AT_P8]) == None && InnermostRepeat([AT_G5, AT_G6, AT_P9]) == None
    ensures InnermostRepeat([AT_G5, AT_P4]) == None
  {
    assert Pop([AT_G2, AT_P3]) == Pop([AT_G2, AT_P4]) == [AT_G2] && Pop([AT_G5, AT_P4]) == [AT_G5];
    assert Pop([AT_G5, AT_G6, AT_P8]) == Pop([AT_G5, AT_G6, AT_P9]) == [AT_G5, AT_G6] && Pop([AT_G5, AT_G6]) == [AT_G5];
  }

  /** The position after the given contexts, with nothing else changed. */
  function At(pos: seq<Context>, last: seq<Context>, after: seq<Context>, scopes: seq<Memento>): Scoped {
    Scoped(pos, last, after, scopes, false, false, false)
  }

  const BEGUN := At([AT_G2], [], [], [])
  const FOUND_3 := At([AT_G2, AT_P3], [], [], [])
  const AFTER_3 := At([AT_G2, AT_P4], [AT_G2, AT_P3], [AT_G2, AT_P4], [Memento(1, AT_G5)])
  const LEFT_G2 := At([AT_G5], [AT_G2, AT_P3], [], [])
  const ENTERED_G5 := At([AT_G5, AT_G6], [AT_G2, AT_P3], [], [])
  const FOUND_8 := At([AT_G5, AT_G6, AT_P8], [AT_G2, AT_P3], [], [])
  const AFTER_8 := At([AT_G5, AT_G6, AT_P9], [AT_G5, AT_G6, AT_P8], [AT_G5, AT_G6, AT_P9], [Memento(1, AT_G5), Memento(2, AT_P4)])
  const AFTER_9 := At([AT_G5, AT_P4], [AT_G5, AT_G6, AT_P9], [AT_G5, AT_P4], [Memento(1, AT_G5), Memento(2, AT_P4)])

  lemma Begins()
    ensures OkScoped(BEGUN) && NewScoped(G1) == BEGUN
  {
    AllFit();
    hide Full, Blocking;
  }

  lemma Finds3()
    ensures OkScoped(BEGUN) && Advanced(BEGUN) == FOUND_3
  {
    AllFit();
    hide Full, Blocking;
    assert Successor([AT_G2]) == [AT_G2, AT_P3];
  }

  lemma Reports3()
    ensures OkScoped(BEGUN) && OkScoped(FOUND_3) && AfterMatch(BEGUN, FOUND_3) == Moved(AFTER_3)
  {
    AllFit();
    NoRepeats();
    hide Full, Blocking, InnermostRepeat;
    assert Anchor([AT_G2, AT_P3]) == [AT_G2, AT_P3];
    assert Sibling([AT_G2]) == [AT_G5];
    assert Successor([AT_G2, AT_P3]) == Sibling([AT_G2, AT_P3]) == [AT_G2, AT_P4];
    assert Trimmed([AT_G2, AT_P3]) == [AT_G2, AT_P3];
    assert Blocked(At([AT_G5], [AT_G2, AT_P3], [], []), [AT_G2, AT_P3]) == Into(At([AT_G5], [AT_G2, AT_P3], [], []), [AT_G2, AT_P4]);
  }

  lemma LeavesG2()
    ensures OkScoped(AFTER_3) && Advanced(AFTER_3) == LEFT_G2
  {
    AllFit();
    hide Full, Blocking;
    var s := [AT_G2, AT_P4];
    assert Pop(s) == [AT_G2];
    assert FullyExplored([AT_G2], Some(G2)) == Some(G2);
    assert FullyExplored(s, None) == Some(G2);
    assert IsInside([AT_G2, AT_P3], G2) by {
      assert [AT_G2, AT_P3][1].parent.id == 2;
    }
    assert Sibling([AT_G2]) == [AT_G5];
    assert Sibling(s) == [AT_G5];
    assert Undo([AT_G5], Memento(1, AT_G5)) == [AT_G5];
    assert Unwind([AT_G5], [Memento(1, AT_G5)], true) == Unwound([AT_G5], []);
  }

  lemma EntersG5()
    ensures OkScoped(LEFT_G2) && Advanced(LEFT_G2) == ENTERED_G5
    ensures OkScoped(ENTERED_G5) && Advanced(ENTERED_G5) == FOUND_8
  {
    AllFit();
    hide Full, Blocking;
    assert Successor([AT_G5]) == [AT_G5, AT_G6];
    assert Successor([AT_G5, AT_G6]) == [AT_G5, AT_G6, AT_P8];
  }

  lemma Reports8()
    ensures OkScoped(AFTER_3) && OkScoped(FOUND_8) && AfterMatch(AFTER_3, FOUND_8) == Moved(AFTER_8)
  {
    AllFit();
    NoRepeats();
    hide Full, Blocking, InnermostRepeat;
    var at := [AT_G5, AT_G6, AT_P8];
    assert Anchor(at) == at;
    assert Successor(at) == Sibling(at) == [AT_G5, AT_G6, AT_P9];
    assert Trimmed(at) == at;
    var t1 := At([AT_G2, AT_P4], at, [AT_G2, AT_P4], [Memento(1, AT_G5)]);
    assert Blocked(t1, at) == Into(t1, [AT_G5, AT_G6, AT_P9]);
    assert [Memento(1, AT_G5)] + [Memento(2, AT_P4)] == [Memento(1, AT_G5), Memento(2, AT_P4)];
  }

  lemma Reports9()
    ensures OkScoped(AFTER_8) && AfterMatch(AFTER_8, AFTER_8) == Moved(AFTER_9)
  {
    AllFit();
    NoRepeats();
    hide Full, Blocking, InnermostRepeat;
    var at := [AT_G5, AT_G6, AT_P9];
    assert Anchor(at) == at;
    LastHasNoSibling(at);
    assert Trimmed(at) == at;
    assert Undo(at, Memento(2, AT_P4)) == [AT_G5, AT_P4];
    var t1 := At(at, at, [AT_G5, AT_G6, AT_P9], [Memento(1, AT_G5), Memento(2, AT_P4)]);
    assert Blocked(t1, at) == AtLast(t1, at);
  }

  lemma Loses4()
    ensures OkScoped(AFTER_9) && Anchor(AFTER_9.pos) == [] && AfterMatch(AFTER_9, AFTER_9) == Undefined
  {
    AllFit();
    hide Full, Blocking;
    var s := [AT_G5, AT_P4];
    assert InnermostBlocking(s) == Some(G2);
    assert !StandsAt(s, G2);
    LostIff(s);
  }

  /** The arguments that match 3, 8, 9 and 4, from the start: each match is found by the search from where the one
      before left the traverser, the first three are reported well, and the fourth is not. */
  lemma LostWithoutBlockingRoot()
    ensures !Blocking(G1) && OkScoped(NewScoped(G1))
    ensures var t0 := NewScoped(G1);
            var m3 := Steps(t0, 1);
            && m3.pos != [] && Current(m3.pos) == P3 && AfterMatch(t0, m3).Moved?
            && var t1 := AfterMatch(t0, m3).t;
            && OkScoped(t1)
            && var m8 := Steps(t1, 3);
            && m8.pos != [] && Current(m8.pos) == P8 && AfterMatch(t1, m8).Moved?
            && var t2 := AfterMatch(t1, m8).t;
            && OkScoped(t2) && t2.pos != [] && Current(t2.pos) == P9 && AfterMatch(t2, t2).Moved?
            && var t3 := AfterMatch(t2, t2).t;
            && OkScoped(t3) && t3.pos != [] && Current(t3.pos) == P4 && AfterMatch(t3, t3) == Undefined
  {
    AllFit();
    Begins();
    Finds3();
    Reports3();
    LeavesG2();
    EntersG5();
    Reports8();
    Reports9();
    Loses4();
    hide Advanced, AfterMatch, NewScoped, Full, Blocking;
    assert Steps(BEGUN, 1) == Advanced(Steps(BEGUN, 0));
    assert Steps(AFTER_3, 1) == Advanced(Steps(AFTER_3, 0));
    assert Steps(AFTER_3, 2) == Advanced(Steps(AFTER_3, 1));
    assert Steps(AFTER_3, 3) == Advanced(Steps(AFTER_3, 2));
  }
}
