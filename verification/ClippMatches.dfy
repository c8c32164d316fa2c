/** What reporting a match does to the position, told from the tree: which nodes are left to visit, where the traverser
    returns to, and when the alternatives to a matched node are out of reach. */
module ClippMatches {
  import opened Clipp
  import opened ClippScoped
  import opened Options
  import T = ClippTours

  // ----- behind a match

  /** What comes behind the current subtree, the other alternatives of the exclusive groups around it left out. */
  function LeftOpen(s: seq<Context>): seq<Visit>
    requires Ok(s)
    decreases |s|
  {
    if s == [] then []
    else
      OkPop(s);
      (if Exclusive(Top(s)) then [] else Preorder(Behind(Top(s)), |s|)) + LeftOpen(Pop(s))
  }

  /** No exclusive group around the position has another alternative ahead. */
  predicate Decided(s: seq<Context>) {
    forall i | 0 <= i < |s| :: Exclusive(s[i]) ==> s[i].cur + 1 == s[i].end
  }

  lemma TrimmedAt(s: seq<Context>, i: nat)
    requires Ok(s) && i < |s|
    ensures |Trimmed(s)| == |s|
    ensures Trimmed(s)[i] == if Exclusive(s[i]) then s[i].(end := s[i].cur + 1) else s[i]
  {
    assert Fits(s[i]);
    if Exclusive(s[i]) {
      assert Alternative(s);
    }
  }

  lemma TrimmedPop(s: seq<Context>)
    requires Ok(s) && s != []
    ensures Ok(Pop(s)) && Pop(Trimmed(s)) == Trimmed(Pop(s))
    ensures Top(Trimmed(s)) == if Exclusive(Top(s)) then Top(s).(end := Top(s).cur + 1) else Top(s)
  {
    OkPop(s);
    TrimmedAt(s, |s| - 1);
    forall i | 0 <= i < |s| - 1
      ensures Pop(Trimmed(s))[i] == Trimmed(Pop(s))[i]
    {
      TrimmedAt(s, i);
      TrimmedAt(Pop(s), i);
      assert Pop(s)[i] == s[i];
    }
    if |s| > 1 {
      TrimmedAt(Pop(s), 0);
    }
  }

  lemma {:induction false} TrimmedLater(s: seq<Context>)
    requires Ok(s)
    ensures Ok(Trimmed(s)) && Later(Trimmed(s)) == LeftOpen(s)
    decreases |s|
  {
    TrimmedOk(s);
    hide Trimmed, Preorder, Ok;
    if s != [] {
      TrimmedPop(s);
      TopOfTrimmed(s);
      TrimmedLater(Pop(s));
      LaterStep(Trimmed(s));
    }
  }

  lemma LaterStep(s: seq<Context>)
    requires Ok(s) && s != []
    ensures Fits(Top(s)) && Ok(Pop(s)) && Later(s) == Preorder(Behind(Top(s)), |s|) + Later(Pop(s))
  {
    OkPop(s);
  }

  lemma TopOfTrimmed(s: seq<Context>)
    requires Ok(s) && s != []
    ensures |Trimmed(s)| == |s| && Fits(Top(s))
    ensures var c := Top(Trimmed(s));
            Fits(c) && Behind(c) == if Exclusive(Top(s)) then [] else Behind(Top(s))
    ensures Top(Trimmed(s)).parent == Top(s).parent && Top(Trimmed(s)).cur == Top(s).cur
  {
    assert Fits(s[|s| - 1]);
    TrimmedAt(s, |s| - 1);
  }

  /** A blocking match leaves its own subtree and what is left open behind it. */
  lemma TrimmedRest(s: seq<Context>)
    requires Ok(s) && s != []
    ensures Ok(Trimmed(s)) && |Trimmed(s)| == |s| && Trimmed(s) != [] && Current(Trimmed(s)) == Current(s)
    ensures Rest(Trimmed(s)) == Subtree(Current(s), |s|) + LeftOpen(s)
    ensures Decided(Trimmed(s))
  {
    TrimmedOk(s);
    TrimmedLater(s);
    TopOfTrimmed(s);
    RestSplits(Trimmed(s));
    forall i | 0 <= i < |s|
      ensures Exclusive(Trimmed(s)[i]) ==> Trimmed(s)[i].cur + 1 == Trimmed(s)[i].end
    {
      TrimmedAt(s, i);
    }
    hide Trimmed, Rest, Subtree, LeftOpen;
  }

  lemma {:induction false} DecidedSibling(s: seq<Context>)
    requires Decided(s)
    ensures Decided(Sibling(s))
    decreases |s|
  {
    if s != [] {
      SiblingStep(s);
      assert Decided(Pop(s));
      if Top(s).cur + 1 >= Top(s).end {
        DecidedSibling(Pop(s));
      } else {
        assert s[|s| - 1] == Top(s);
      }
    }
  }

  // ----- depths

  /** The depth of the next node, or 0 where there is none. */
  function Depth(visits: seq<Visit>): nat {
    if visits == [] then 0 else visits[0].level
  }

  lemma RestDepth(s: seq<Context>)
    requires Ok(s)
    ensures Depth(Rest(s)) == |s|
  {
    NothingLeft();
    if s != [] {
      NextVisitsOne(s);
      hide Rest;
    }
  }

  /** The next node that a decided match leaves open. */
  lemma SiblingOfTrimmed(s: seq<Context>)
    requires Ok(s) && s != []
    ensures Ok(Trimmed(s)) && Ok(Sibling(Trimmed(s)))
    ensures Rest(Sibling(Trimmed(s))) == LeftOpen(s) && |Sibling(Trimmed(s))| == Depth(LeftOpen(s))
    ensures Decided(Sibling(Trimmed(s)))
  {
    TrimmedLater(s);
    TrimmedRest(s);
    SiblingSkipsSubtree(Trimmed(s));
    RestDepth(Sibling(Trimmed(s)));
    DecidedSibling(Trimmed(s));
  }

  lemma {:induction false} LastIffNothingLeft(s: seq<Context>)
    requires Ok(s)
    ensures Later(s) == [] <==> forall i | 0 <= i < |s| :: s[i].cur + 1 == s[i].end
    decreases |s|
  {
    if s != [] {
      OkPop(s);
      LastIffNothingLeft(Pop(s));
      assert Fits(s[|s| - 1]);
      assert Behind(Top(s)) != [] ==> Preorder(Behind(Top(s)), |s|) != [];
      hide Preorder, Behind;
      assert forall i | 0 <= i < |s| - 1 :: Pop(s)[i] == s[i];
      BehindAtLast(Top(s), |s|);
    }
  }

  lemma BehindAtLast(c: Context, level: nat)
    requires Fits(c)
    ensures Preorder(Behind(c), level) == [] <==> c.cur + 1 == c.end
  {
    if Behind(c) != [] {
      SubtreeShape(Behind(c)[0], level);
    }
  }

  // ----- reporting a match

  /** A blocking match ends its scope: nothing is left open in the tree, or the next node is outside the scope. */
  predicate EndsScope(scopes: seq<Memento>, at: seq<Context>)
    requires Ok(at) && at != []
  {
    if scopes == [] then Current(at).Param? && LeftOpen(at) == []
    else (if Current(at).Group? then |at| + 1 else Depth(LeftOpen(at))) < scopes[|scopes| - 1].level
  }

  lemma EndsScopeIs(scopes: seq<Memento>, at: seq<Context>)
    requires Ok(at) && at != []
    ensures Ok(Trimmed(at)) && LastInScope(scopes, Trimmed(at)) == EndsScope(scopes, at)
  {
    TrimmedRest(at);
    TrimmedLater(at);
    SiblingOfTrimmed(at);
    LastIffNothingLeft(Trimmed(at));
    hide Trimmed, LeftOpen, Later, Rest, Sibling;
  }

  /** What may still be visited after a match at `at` that does not end its scope: a parameter that is not repeatable is
      not visited again. */
  function LeftAfter(at: seq<Context>): seq<Visit>
    requires Ok(at) && at != []
  {
    (if Stays(Current(at)) then Subtree(Current(at), |at|) else []) + LeftOpen(at)
  }

  /** The position is at the match or behind it, and its alternatives are out of reach. */
  ghost predicate Goes(pos: seq<Context>, left: seq<Visit>) {
    Ok(pos) && Rest(pos) == left && Decided(pos)
  }

  /** What a blocking match at `at` makes of the position `p` and the scopes. */
  ghost predicate Resumes(scopes: seq<Memento>, p: seq<Context>, at: seq<Context>, pos': seq<Context>, scopes': seq<Memento>)
    requires Ok(at) && at != []
  {
    if EndsScope(scopes, at) then
      && scopes' == scopes
      && if Stays(Current(at)) || scopes == [] then Goes(pos', Subtree(Current(at), |at|) + LeftOpen(at))
         else Returns(scopes[|scopes| - 1], at, pos')
    else
      var left := LeftAfter(at);
      if Depth(left) > |p| then Goes(pos', left) && scopes' == scopes + [UndoPoint(p)]
      else if Depth(left) == |p| then Goes(pos', left) && scopes' == scopes
      else Unwound(pos', scopes') == UnwindTo(p, scopes, Depth(left))
  }

  /** The position goes back to the context that the scope saved; the levels below it are decided by the match. */
  ghost predicate Returns(m: Memento, at: seq<Context>, pos': seq<Context>)
    requires Ok(at) && at != []
  {
    if 0 < m.level <= |at| then
      && Ok(pos') && |pos'| == m.level && Top(pos') == m.context && Fits(m.context) && Ok(at[..m.level - 1])
      && Rest(pos') == Preorder(Here(m.context), m.level) + LeftOpen(at[..m.level - 1])
      && Decided(Pop(pos'))
    else Goes(pos', Subtree(Current(at), |at|) + LeftOpen(at))
  }

  lemma StaysRest(at: seq<Context>)
    requires Ok(at) && at != []
    ensures Goes(Trimmed(at), Subtree(Current(at), |at|) + LeftOpen(at))
  {
    TrimmedRest(at);
  }

  lemma UndoReturns(m: Memento, at: seq<Context>)
    requires Ok(at) && at != [] && FitsMemento(m)
    ensures Returns(m, at, Undo(Trimmed(at), m))
  {
    hide Trimmed, LeftOpen, Rest, Preorder, Decided, Subtree, Fits;
    StaysRest(at);
    TrimmedRest(at);
    if 0 < m.level <= |at| {
      UndoInside(m, at);
    }
  }

  lemma UndoInside(m: Memento, at: seq<Context>)
    requires Ok(at) && at != [] && FitsMemento(m) && 0 < m.level <= |at|
    ensures Fits(m.context) && Ok(at[..m.level - 1]) && |Trimmed(at)| == |at|
    ensures var pos' := Undo(Trimmed(at), m);
            && Ok(pos') && |pos'| == m.level && Top(pos') == m.context
            && Rest(pos') == Preorder(Here(m.context), m.level) + LeftOpen(at[..m.level - 1])
            && Decided(Pop(pos'))
  {
    hide Trimmed, LeftOpen, Later, Preorder, Decided, Fits, Ok;
    var below := at[..m.level - 1];
    OkPart(at, m.level - 1);
    TrimmedPart(at, m.level - 1);
    TrimmedLater(below);
    OkPush(Trimmed(below), m.context);
    DecidedPart(at, m.level - 1);
  }

  lemma OkPart(s: seq<Context>, n: nat)
    requires Ok(s) && n <= |s|
    ensures Ok(s[..n])
  {
    hide Fits;
  }

  lemma TrimmedPart(s: seq<Context>, n: nat)
    requires Ok(s) && n <= |s|
    ensures |Trimmed(s)| == |s| && |Trimmed(s[..n])| == n && Trimmed(s)[..n] == Trimmed(s[..n])
  {
    OkPart(s, n);
    TrimmedOk(s);
    TrimmedOk(s[..n]);
    forall i | 0 <= i < n
      ensures Trimmed(s)[..n][i] == Trimmed(s[..n])[i]
    {
      TrimmedAt(s, i);
      TrimmedAt(s[..n], i);
    }
  }

  lemma DecidedPart(s: seq<Context>, n: nat)
    requires Ok(s) && n <= |s|
    ensures Decided(Trimmed(s[..n]))
  {
    OkPart(s, n);
    TrimmedOk(s[..n]);
    forall i | 0 <= i < n
      ensures Exclusive(Trimmed(s[..n])[i]) ==> Trimmed(s[..n])[i].cur + 1 == Trimmed(s[..n])[i].end
    {
      TrimmedAt(s[..n], i);
    }
  }

  lemma UndoPointOk(s: seq<Context>)
    requires Ok(s)
    ensures FitsMemento(UndoPoint(s))
  {
  }

  lemma DepthAfter(at: seq<Context>)
    requires Ok(at) && at != []
    ensures Depth(LeftAfter(at)) == if Stays(Current(at)) then |at| else Depth(LeftOpen(at))
  {
    SubtreeShape(Current(at), |at|);
    hide Subtree, LeftOpen;
    assert [] + LeftOpen(at) == LeftOpen(at);
  }

  /** `Blocked` places the position as told from the tree. */
  lemma BlockedPlaces(t: Scoped, at: seq<Context>)
    requires OkScoped(t) && Ok(at) && at != []
    ensures var t' := Blocked(t, at); Resumes(t.scopes, t.pos, at, t'.pos, t'.scopes)
  {
    hide Trimmed, LeftOpen, Later, Rest, Preorder, Subtree, Sibling, Decided, LastInScope, EndsScope, Returns, Undo, UnwindTo, Depth, Fits;
    TrimmedRest(at);
    EndsScopeIs(t.scopes, at);
    StaysRest(at);
    SiblingOfTrimmed(at);
    DepthAfter(at);
    assert [] + LeftOpen(at) == LeftOpen(at);
    if t.scopes != [] {
      UndoReturns(t.scopes[|t.scopes| - 1], at);
    }
  }

  /** A blocking node that the traverser stands at without having matched it is passed over. */
  predicate Passes(t: Scoped, at: seq<Context>)
    requires OkScoped(t) && Ok(at) && t.pos != []
  {
    !SamePosition(at, t.pos) && Blocking(Current(t.pos))
  }

  /** What a report makes of the traverser: it remembers the match, steps past a blocking node that it had not matched,
      and goes on from the match if that blocks, or else only gives up the levels above it. */
  ghost predicate AfterReport(t: Scoped, m: Scoped, at: seq<Context>, p: seq<Context>, t': Scoped)
    requires OkScoped(t) && OkScoped(m) && Ok(at) && at != [] && t.pos != []
  {
    && t'.lastMatch == m.pos && t'.posAfter == t'.pos && t'.ignoreBlocks == t.ignoreBlocks
    && Ok(p) && Rest(p) == (if Passes(t, at) then Later(t.pos) else Rest(t.pos)) && (!Passes(t, at) ==> p == t.pos)
    && if Blocking(Current(at)) then Resumes(t.scopes, p, at, t'.pos, t'.scopes)
       else if |at| < |p| then Unwound(t'.pos, t'.scopes) == UnwindTo(p, t.scopes, |at|)
       else t'.pos == p && t'.scopes == t.scopes
  }

  lemma ReportMeans(t: Scoped, m: Scoped) returns (p: seq<Context>)
    requires OkScoped(t) && OkScoped(m) && m.pos != [] && !t.ignoreBlocks && AfterMatch(t, m).Moved?
    ensures t.pos != [] && Ok(Anchor(m.pos)) && Anchor(m.pos) != []
    ensures AfterReport(t, m, Anchor(m.pos), p, AfterMatch(t, m).t)
  {
    hide Anchor, Blocked, UnwindTo, Resumes, Continues, StartsRepeat, Blocking, Rest, Later, Sibling, SamePosition, LooksNowhere, Fits;
    AnchorOk(m.pos);
    var at := Anchor(m.pos);
    SiblingSkipsSubtree(t.pos);
    MarkedOk(t, m, at);
    var t1 := PassedOver(Marked(t, m), at);
    p := t1.pos;
    BlockedPlaces(t1, at);
    BlockedFrame(t1, at);
    OkPositions(t1);
  }

  lemma BlockedFrame(t: Scoped, at: seq<Context>)
    requires Ok(at) && at != []
    ensures Blocked(t, at) == t.(pos := Blocked(t, at).pos, scopes := Blocked(t, at).scopes)
    ensures Loose(t, |at|) == if |at| < |t.pos| then t.(pos := UnwindTo(t.pos, t.scopes, |at|).pos, scopes := UnwindTo(t.pos, t.scopes, |at|).scopes) else t
  {
    hide Trimmed, LastInScope, Successor, UnwindTo, Undo;
    TrimmedOk(at);
  }

  /** A match that does not block counts at the innermost blocking group around it, if there is one. */
  lemma AnchorMeans(s: seq<Context>) returns (i: nat)
    requires Ok(s) && s != [] && T.Placed(s) && Current(s).Param?
    ensures Ok(Anchor(s)) && i <= |s| && Anchor(s) == s[..i]
    ensures i == |s| <==> Blocking(Current(s)) || forall j | 0 <= j < |s| :: !Blocking(s[j].parent)
    ensures i < |s| ==> Blocking(s[i].parent) && forall j | i < j < |s| :: !Blocking(s[j].parent)
    ensures 0 < i < |s| ==> Current(Anchor(s)) == s[i].parent
  {
    hide Blocking, Ok, Fits, BackTo;
    AnchorOk(s);
    assert s[..|s|] == s;
    i := InnermostAt(s);
    if Blocking(Current(s)) || i == |s| {
      i := |s|;
    } else if i == 0 {
      RootIsNowhere(s);
    } else {
      T.BackToIs(s, i);
      T.LinkedAt(s, i);
    }
  }

  lemma {:induction false} InnermostAt(s: seq<Context>) returns (i: nat)
    ensures i <= |s| && forall j | i < j < |s| :: !Blocking(s[j].parent)
    ensures if i == |s| then InnermostBlocking(s).None? && forall j | 0 <= j < |s| :: !Blocking(s[j].parent)
            else InnermostBlocking(s) == Some(s[i].parent) && Blocking(s[i].parent)
    decreases |s|
  {
    hide Blocking;
    if s == [] {
      i := 0;
    } else if Blocking(Top(s).parent) {
      i := |s| - 1;
    } else {
      i := InnermostAt(Pop(s));
      if i == |Pop(s)| {
        i := |s|;
      }
      assert forall j | 0 <= j < |s| - 1 :: Pop(s)[j] == s[j];
    }
  }

  /** No context stands at the root. */
  lemma RootIsNowhere(s: seq<Context>)
    requires Ok(s) && s != [] && T.Placed(s) && Current(s).Param?
    ensures BackTo(s, s[0].parent) == s[..0]
  {
    hide Fits;
    BackToIff(s, s[0].parent);
    if StandsAt(s, s[0].parent) {
      var j :| 0 <= j < |s| && StandsAtGroup(s[j], s[0].parent);
      NotAbove(s, j);
    }
  }

  lemma NotAbove(s: seq<Context>, j: nat)
    requires Ok(s) && T.Placed(s) && j < |s| && Current(s).Param?
    ensures Fits(s[j]) && !StandsAtGroup(s[j], s[0].parent)
  {
    assert Fits(s[j]);
    hide Ok;
    OkPart(s, j + 1);
    if j + 1 < |s| {
      T.LinkedAt(s, j + 1);
      PlacedPart(s, j + 2);
      var up := s[..j + 2];
      assert Pop(up) == s[..j + 1] && Top(up) == s[j + 1];
      assert s[..j + 1][0].parent.id in T.Ids(s[..j + 1]);
    }
  }

  lemma {:induction false} PlacedPart(s: seq<Context>, n: nat)
    requires Ok(s) && T.Placed(s) && n <= |s|
    ensures Ok(s[..n]) && T.Placed(s[..n])
    decreases |s|
  {
    hide Ok, Fits, T.Nested;
    if n == |s| {
      assert s[..n] == s;
    } else {
      OkPop(s);
      PlacedPart(Pop(s), n);
      assert s[..n] == Pop(s)[..n];
    }
  }
}
