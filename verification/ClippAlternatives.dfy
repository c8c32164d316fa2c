/** When the alternatives to a matched node are out of reach, when a scope that ends brings them back, and what steps and
    reports do to the scopes. */
module ClippAlternatives {
  import opened Clipp
  import opened ClippScoped
  import opened ClippMatches
  import opened Options
  import T = ClippTours

  // ----- addresses in a tree

  function TreeIds(n: Node): set<nat>
    decreases n
  {
    {n.id} + if n.Group? then ForestIds(n.children) else {}
  }

  function ForestIds(nodes: seq<Node>): set<nat>
    decreases nodes
  {
    if nodes == [] then {} else TreeIds(nodes[0]) + ForestIds(nodes[1..])
  }

  /** No address occurs below two different children of one group. */
  predicate Addressed(n: Node) {
    n.Group? ==>
      && (forall k, l | 0 <= k < l < |n.children| :: TreeIds(n.children[k]) !! TreeIds(n.children[l]))
      && forall k | 0 <= k < |n.children| :: Addressed(n.children[k])
  }

  lemma {:induction false} ForestMember(nodes: seq<Node>, k: nat)
    requires k < |nodes|
    ensures TreeIds(nodes[k]) <= ForestIds(nodes)
    decreases k
  {
    if k > 0 {
      ForestMember(nodes[1..], k - 1);
    }
  }

  lemma ChildIds(n: Node, k: nat)
    requires n.Group? && k < |n.children|
    ensures TreeIds(n.children[k]) <= TreeIds(n)
  {
    ForestMember(n.children, k);
  }

  lemma OwnId(n: Node)
    ensures n.id in TreeIds(n)
  {
  }

  lemma {:induction false} VisitsBelow(nodes: seq<Node>, level: nat, v: Visit) returns (k: nat)
    requires v in Preorder(nodes, level)
    ensures k < |nodes| && v.node.id in TreeIds(nodes[k])
    decreases nodes
  {
    if v in Subtree(nodes[0], level) {
      k := 0;
      VisitsIn(nodes[0], level, v);
    } else {
      k := VisitsBelow(nodes[1..], level, v);
      k := k + 1;
    }
  }

  lemma {:induction false} VisitsIn(n: Node, level: nat, v: Visit)
    requires v in Subtree(n, level)
    ensures v.node.id in TreeIds(n)
    decreases n
  {
    if v != Visit(n, level) {
      var k := VisitsBelow(n.children, level + 1, v);
      ChildIds(n, k);
    }
  }

  // ----- the other alternatives

  /** Another child of the exclusive group at a context than the one it stands at. */
  predicate OtherAt(c: Context, n: Node) {
    Exclusive(c) && exists k | 0 <= k < |c.parent.children| && k != c.cur :: c.parent.children[k] == n
  }

  /** An alternative to what is matched: another child of an exclusive group on the path. */
  predicate Other(at: seq<Context>, n: Node) {
    exists i | 0 <= i < |at| :: OtherAt(at[i], n)
  }

  ghost predicate Rooted(s: seq<Context>)
    requires Ok(s)
  {
    T.Placed(s) && forall i | 0 <= i < |s| :: Addressed(s[i].parent)
  }

  lemma OtherPop(s: seq<Context>, n: Node)
    requires s != [] && Other(s, n)
    ensures Other(Pop(s), n) || OtherAt(Top(s), n)
  {
    var i :| 0 <= i < |s| && OtherAt(s[i], n);
    if i < |s| - 1 {
      assert OtherAt(Pop(s)[i], n);
    }
  }

  lemma RootedPop(s: seq<Context>)
    requires Ok(s) && Rooted(s) && s != []
    ensures Ok(Pop(s)) && Rooted(Pop(s)) && Fits(Top(s)) && Addressed(Top(s).parent) && s == Pop(s) + [Top(s)]
    ensures Pop(s) != [] ==> Top(s).parent == Current(Pop(s))
  {
    OkPop(s);
    hide Addressed, Fits, T.Nested;
    assert forall i | 0 <= i < |s| - 1 :: Pop(s)[i] == s[i];
    assert s[|s| - 1] == Top(s);
  }

  lemma OtherIds(c: Context, n: Node)
    requires Fits(c) && Addressed(c.parent) && OtherAt(c, n)
    ensures n.id in TreeIds(c.parent) && n.id !in TreeIds(c.parent.children[c.cur])
  {
    var k :| 0 <= k < |c.parent.children| && k != c.cur && c.parent.children[k] == n;
    OwnId(n);
    ChildIds(c.parent, k);
    hide TreeIds;
  }

  /** Nothing below the current node is an alternative. */
  lemma {:induction false} BelowIsNoOther(s: seq<Context>, n: Node)
    requires Ok(s) && s != [] && Rooted(s) && n.id in TreeIds(Current(s))
    ensures !Other(s, n)
    decreases |s|
  {
    RootedPop(s);
    ChildIds(Top(s).parent, Top(s).cur);
    hide TreeIds, Addressed, OtherAt, Fits, Ok;
    if Other(s, n) {
      OtherPop(s, n);
      if OtherAt(Top(s), n) {
        OtherIds(Top(s), n);
      } else {
        NothingOther(n);
        BelowIsNoOther(Pop(s), n);
      }
    }
  }

  lemma NothingOther(n: Node)
    ensures !Other([], n)
  {
  }

  lemma BehindIds(c: Context, level: nat, v: Visit)
    requires Fits(c) && Addressed(c.parent) && v in Preorder(Behind(c), level)
    ensures v.node.id in TreeIds(c.parent) && v.node.id !in TreeIds(c.parent.children[c.cur])
  {
    var k := VisitsBelow(Behind(c), level, v);
    assert Behind(c)[k] == c.parent.children[c.cur + 1 + k];
    ChildIds(c.parent, c.cur + 1 + k);
    hide TreeIds, Preorder;
  }

  /** What is left open is not below the current node, and no alternative. */
  lemma {:induction false} LeftOpenIsNoOther(s: seq<Context>, v: Visit)
    requires Ok(s) && Rooted(s) && v in LeftOpen(s)
    ensures s != [] && v.node.id !in TreeIds(Current(s)) && !Other(s, v.node)
    decreases |s|
  {
    RootedPop(s);
    var c, p := Top(s), Pop(s);
    ChildIds(c.parent, c.cur);
    OpenStep(s, v);
    hide TreeIds, Addressed, OtherAt, Fits, Ok, LeftOpen, Preorder;
    if v in LeftOpen(p) {
      LeftOpenIsNoOther(p, v);
      if Other(s, v.node) {
        OtherPop(s, v.node);
        OtherIds(c, v.node);
      }
    } else {
      BehindIds(c, |s|, v);
      if Other(s, v.node) {
        OtherPop(s, v.node);
        NotExclusive(c, v.node);
        NothingOther(v.node);
        BelowIsNoOther(p, v.node);
      }
    }
  }

  lemma OpenStep(s: seq<Context>, v: Visit)
    requires Ok(s) && s != [] && v in LeftOpen(s)
    ensures Ok(Pop(s)) && Fits(Top(s))
    ensures v in LeftOpen(Pop(s)) || (!Exclusive(Top(s)) && v in Preorder(Behind(Top(s)), |s|))
  {
    OkPop(s);
    hide Preorder;
  }

  lemma NotExclusive(c: Context, n: Node)
    ensures !Exclusive(c) ==> !OtherAt(c, n)
  {
  }

  lemma SubtreeIsNoOther(s: seq<Context>, v: Visit)
    requires Ok(s) && s != [] && Rooted(s) && v in Subtree(Current(s), |s|)
    ensures !Other(s, v.node)
  {
    VisitsIn(Current(s), |s|, v);
    BelowIsNoOther(s, v.node);
  }

  // ----- after a blocking match

  ghost predicate HasOther(at: seq<Context>, visits: seq<Visit>) {
    exists v | v in visits :: Other(at, v.node)
  }

  lemma HasOtherAppend(at: seq<Context>, a: seq<Visit>, b: seq<Visit>)
    ensures HasOther(at, a + b) <==> HasOther(at, a) || HasOther(at, b)
  {
    hide Other;
    if HasOther(at, a) {
      var v :| v in a && Other(at, v.node);
      assert v in a + b;
    }
    if HasOther(at, b) {
      var v :| v in b && Other(at, v.node);
      assert v in a + b;
    }
  }

  lemma {:induction false} OpenBelow(s: seq<Context>, n: nat, v: Visit)
    requires Ok(s) && n <= |s|
    ensures Ok(s[..n]) && (v in LeftOpen(s[..n]) ==> v in LeftOpen(s))
    decreases |s|
  {
    hide Preorder, Ok, Fits;
    if n == |s| {
      assert s[..n] == s;
    } else {
      OkPop(s);
      OpenBelow(Pop(s), n, v);
      assert s[..n] == Pop(s)[..n];
    }
  }

  lemma OpenHasNone(at: seq<Context>, n: nat)
    requires Ok(at) && Rooted(at) && n <= |at|
    ensures Ok(at[..n]) && !HasOther(at, LeftOpen(at[..n]))
  {
    hide LeftOpen, Other, Rooted, Ok;
    OpenBelow(at, n, Visit(Param(0, false, false, false), 0));
    forall v | v in LeftOpen(at[..n])
      ensures !Other(at, v.node)
    {
      OpenBelow(at, n, v);
      LeftOpenIsNoOther(at, v);
    }
  }

  lemma SubtreeHasNone(at: seq<Context>)
    requires Ok(at) && at != [] && Rooted(at)
    ensures !HasOther(at, Subtree(Current(at), |at|)) && !HasOther(at, LeftOpen(at))
    ensures !HasOther(at, Subtree(Current(at), |at|) + LeftOpen(at)) && !HasOther(at, LeftAfter(at))
  {
    hide LeftOpen, Other, Rooted, Subtree, Ok;
    forall v | v in Subtree(Current(at), |at|)
      ensures !Other(at, v.node)
    {
      SubtreeIsNoOther(at, v);
    }
    OpenHasNone(at, |at|);
    assert at[..|at|] == at;
    HasOtherAppend(at, Subtree(Current(at), |at|), LeftOpen(at));
    assert [] + LeftOpen(at) == LeftOpen(at);
  }

  /** An alternative comes back only with a position that was saved before the match: that of the scope which the match
      ends, or, for a match above the current position, of the scopes that are given up for it. */
  ghost predicate BroughtBack(scopes: seq<Memento>, p: seq<Context>, at: seq<Context>)
    requires Ok(at) && at != [] && OkScopes(scopes) && Ok(p)
  {
    if EndsScope(scopes, at) then
      && !Stays(Current(at)) && scopes != []
      && var m := scopes[|scopes| - 1];
         assert FitsMemento(m);
         0 < m.level <= |at| && HasOther(at, Preorder(Here(m.context), m.level))
    else
      && Depth(LeftAfter(at)) < |p|
      && (UnwindToOk(p, scopes, Depth(LeftAfter(at)));
          HasOther(at, Rest(UnwindTo(p, scopes, Depth(LeftAfter(at))).pos)))
  }

  lemma ResumedIff(scopes: seq<Memento>, p: seq<Context>, at: seq<Context>, pos': seq<Context>, scopes': seq<Memento>)
    requires Ok(at) && at != [] && Rooted(at) && OkScopes(scopes) && Ok(p) && Ok(pos')
    requires Resumes(scopes, p, at, pos', scopes')
    ensures HasOther(at, Rest(pos')) <==> BroughtBack(scopes, p, at)
  {
    hide LeftOpen, Rooted, Ok, HasOther, Rest, Subtree, Preorder, EndsScope, Depth, UnwindTo, Decided, Fits;
    SubtreeHasNone(at);
    if EndsScope(scopes, at) && !Stays(Current(at)) && scopes != [] {
      var m := scopes[|scopes| - 1];
      assert FitsMemento(m);
      if 0 < m.level <= |at| {
        OpenHasNone(at, m.level - 1);
        HasOtherAppend(at, Preorder(Here(m.context), m.level), LeftOpen(at[..m.level - 1]));
      }
    }
  }

  /** After a blocking match is reported, another alternative of an exclusive group on its path lies ahead exactly when a
      saved position brings it back. */
  lemma AlternativesGoneIff(t: Scoped, m: Scoped) returns (p: seq<Context>)
    requires OkScoped(t) && OkScoped(m) && m.pos != [] && !t.ignoreBlocks && AfterMatch(t, m).Moved?
    requires Ok(Anchor(m.pos)) && Anchor(m.pos) != [] && Rooted(Anchor(m.pos)) && Blocking(Current(Anchor(m.pos)))
    ensures t.pos != [] && AfterReport(t, m, Anchor(m.pos), p, AfterMatch(t, m).t) && OkScoped(AfterMatch(t, m).t)
    ensures HasOther(Anchor(m.pos), Rest(AfterMatch(t, m).t.pos)) <==> BroughtBack(t.scopes, p, Anchor(m.pos))
  {
    hide Anchor, AfterMatch, Rooted, HasOther, Rest, BroughtBack, Resumes, Blocking;
    p := ReportMeans(t, m);
    AfterMatchOk(t, m);
    ResumedIff(t.scopes, p, Anchor(m.pos), AfterMatch(t, m).t.pos, AfterMatch(t, m).t.scopes);
  }

  /** In particular, outside all scopes and for a match at the depth of the position or below, they are gone for good. */
  lemma GoneOutsideScopes(p: seq<Context>, at: seq<Context>)
    requires Ok(at) && at != [] && Ok(p) && (EndsScope([], at) || |p| <= Depth(LeftAfter(at)))
    ensures !BroughtBack([], p, at)
  {
    hide LeftOpen, Depth, EndsScope, UnwindTo, HasOther;
  }

  // ----- scopes

  /** A pushed scope restores the position that was left, as long as the levels below are as they were. */
  lemma PushedScopeRestores(p: seq<Context>, q: seq<Context>)
    requires p != [] && |p| <= |q|
    ensures Undo(q, UndoPoint(p)) == q[..|p| - 1] + [Top(p)]
    ensures q[..|p| - 1] == Pop(p) ==> Undo(q, UndoPoint(p)) == p
  {
  }

  /** The scopes that are left with a position that is not empty: from the top all above it, or at its level if it left
      the place behind the last match; of those at its level the lowest gives the context. */
  lemma {:induction false} UnwindMeans(pos: seq<Context>, scopes: seq<Memento>, orLevel: bool) returns (n: nat, low: nat)
    requires pos != []
    ensures var u := Unwind(pos, scopes, orLevel);
            && n <= |scopes| && u.scopes == scopes[..n] && |u.pos| == |pos|
            && AllFrom(scopes, n, |scopes|, |pos|, orLevel)
            && (n > 0 ==> scopes[n - 1].level < |pos| || (!orLevel && scopes[n - 1].level == |pos|))
            && n <= low <= |scopes| && AllFrom(scopes, n, low, |pos|, false)
            && if low < |scopes| then scopes[low].level == |pos| && u.pos == Pop(pos) + [scopes[low].context] else u.pos == pos
    decreases |scopes|
  {
    n, low := |scopes|, |scopes|;
    if scopes != [] {
      var top, below := scopes[|scopes| - 1], scopes[..|scopes| - 1];
      if top.level > |pos| || (orLevel && top.level == |pos|) {
        UndoTop(pos, top);
        UnwindOne(pos, scopes, orLevel);
        hide Undo, Unwind, AllFrom;
        n, low := UnwindMeans(Undo(pos, top), below, orLevel);
        assert below[..n] == scopes[..n];
        AllFromSnoc(scopes, n, |pos|, orLevel);
        AllFromBelow(scopes, n, low, |pos|);
        if low == |below| && top.level > |pos| {
          low := |scopes|;
          AllFromSnoc(scopes, n, |pos|, false);
        }
      }
    }
  }

  /** The scopes `[n..m]` are above the level, or, if that is enough, at it. */
  ghost predicate AllFrom(scopes: seq<Memento>, n: nat, m: nat, level: nat, orLevel: bool)
    requires m <= |scopes|
  {
    forall i | n <= i < m :: scopes[i].level > level || (orLevel && scopes[i].level == level)
  }

  lemma AllFromSnoc(scopes: seq<Memento>, n: nat, level: nat, orLevel: bool)
    requires scopes != [] && AllFrom(scopes[..|scopes| - 1], n, |scopes| - 1, level, orLevel)
    requires var top := scopes[|scopes| - 1]; top.level > level || (orLevel && top.level == level)
    ensures AllFrom(scopes, n, |scopes|, level, orLevel)
  {
    assert forall i | 0 <= i < |scopes| - 1 :: scopes[..|scopes| - 1][i] == scopes[i];
  }

  lemma AllFromBelow(scopes: seq<Memento>, n: nat, low: nat, level: nat)
    requires scopes != [] && low < |scopes| && AllFrom(scopes[..|scopes| - 1], n, low, level, false)
    ensures AllFrom(scopes, n, low, level, false)
  {
    assert forall i | 0 <= i < |scopes| - 1 :: scopes[..|scopes| - 1][i] == scopes[i];
  }

  lemma UnwindOne(pos: seq<Context>, scopes: seq<Memento>, orLevel: bool)
    requires scopes != []
    requires var top := scopes[|scopes| - 1]; top.level > |pos| || (orLevel && top.level == |pos|)
    ensures Unwind(pos, scopes, orLevel) == Unwind(Undo(pos, scopes[|scopes| - 1]), scopes[..|scopes| - 1], orLevel)
  {
    hide Undo;
  }

  lemma UndoTop(pos: seq<Context>, m: Memento)
    requires pos != [] && m.level >= |pos|
    ensures Undo(pos, m) == if m.level == |pos| then Pop(pos) + [m.context] else pos
    ensures |Undo(pos, m)| == |pos| && Pop(Undo(pos, m)) == Pop(pos)
    ensures m.level == |pos| ==> Top(Undo(pos, m)) == m.context
  {
  }

  /** Going up to a level gives up scopes from the top, as long as the position is deeper; the last one given up says
      where the position is. */
  lemma {:induction false} UnwindToMeans(pos: seq<Context>, scopes: seq<Memento>, level: nat) returns (n: nat, deeper: seq<Context>)
    ensures var u := UnwindTo(pos, scopes, level);
            && n <= |scopes| && u.scopes == scopes[..n] && (|u.pos| <= level || n == 0)
            && (n == |scopes| <==> |pos| <= level || scopes == [])
            && if n == |scopes| then u.pos == pos else |deeper| > level && u.pos == Undo(deeper, scopes[n])
    decreases |scopes|
  {
    hide Undo;
    n, deeper := |scopes|, pos;
    if scopes != [] && |pos| > level {
      var below := scopes[..|scopes| - 1];
      n, deeper := UnwindToMeans(Undo(pos, scopes[|scopes| - 1]), below, level);
      assert below[..n] == scopes[..n];
      if n == |below| {
        deeper := pos;
      } else {
        assert below[n] == scopes[n];
      }
    }
  }

  /** Leaving everything restores the context that the first scope saved. */
  lemma {:induction false} OutermostRestores(pos: seq<Context>, scopes: seq<Memento>)
    requires scopes != [] && scopes[0].level == 1
    ensures UnwindAll(pos, scopes) == [scopes[0].context]
    decreases |scopes|
  {
    var next, below := Undo(pos, scopes[|scopes| - 1]), scopes[..|scopes| - 1];
    if below == [] {
      assert scopes[|scopes| - 1] == scopes[0];
    } else {
      assert below[0] == scopes[0];
      OutermostRestores(next, below);
    }
  }

  /** `++` within scopes: those above the new position are left, and, once the place behind the last match is left, those
      at its level too, the lowest of which says where the position is. */
  lemma StepInScopes(t: Scoped) returns (n: nat, low: nat)
    requires OkScoped(t) && t.pos != [] && !LastInPath(t.pos) && Ahead(t) != []
    ensures var t', q, left := Advanced(t), Ahead(t), t.posAfter != [] && |Ahead(t)| < |t.posAfter|;
            && t'.posAfter == (if left then [] else t.posAfter) && t'.lastMatch == t.lastMatch
            && n <= |t.scopes| && t'.scopes == t.scopes[..n]
            && AllFrom(t.scopes, n, |t.scopes|, |q|, left)
            && (n > 0 ==> t.scopes[n - 1].level < |q| || (!left && t.scopes[n - 1].level == |q|))
            && n <= low <= |t.scopes| && AllFrom(t.scopes, n, low, |q|, false)
            && if low < |t.scopes| then t.scopes[low].level == |q| && t'.pos == Pop(q) + [t.scopes[low].context] else t'.pos == q
  {
    hide Ok, Ahead, FallsBack, LastInPath, Unwind;
    var q := Ahead(t);
    var left := t.posAfter != [] && |q| < |t.posAfter|;
    n, low := UnwindMeans(q, t.scopes, left);
    var u := Unwind(q, t.scopes, left);
    NothingToUnwind(u.pos, u.scopes);
  }

  /** At the end of the path, or where a blocking node leads out of the tree, all scopes are left, or the search is over;
      every other step stays in the tree. */
  lemma StepOut(t: Scoped)
    requires OkScoped(t) && t.pos != []
    ensures Ahead(t) == [] ==> LastInPath(t.pos) || FallsBack(t)
    ensures LastInPath(t.pos) || Ahead(t) == [] ==>
              var t' := Advanced(t);
              && t'.scopes == [] && t'.posAfter == [] && t'.lastMatch == t.lastMatch
              && (t.scopes == [] ==> t'.pos == [])
              && (t.scopes != [] && t.scopes[0].level == 1 ==> t'.pos == [t.scopes[0].context])
  {
    if !LastInPath(t.pos) {
      StaysInTree(t.pos);
    }
    hide Ok, UnwindAll, Unwind, FullyExplored, BackTo, IsInside, Blocking, SamePosition, LastInPath, Sibling;
    if t.scopes != [] && t.scopes[0].level == 1 {
      OutermostRestores(t.pos, t.scopes);
      OutermostRestores([], t.scopes);
    }
    NothingToUnwind([], []);
    NothingToUnwind(Advanced(t).pos, []);
    if t.scopes != [] && t.scopes[0].level == 1 {
      NothingToUnwind([t.scopes[0].context], []);
    }
  }

  lemma StaysInTree(s: seq<Context>)
    requires Ok(s) && s != [] && !LastInPath(s)
    ensures Successor(s) != []
  {
    SiblingSkipsSubtree(s);
    LastIffNothingLeft(s);
    NothingLeft();
    hide Rest, Later, Sibling;
  }

  lemma NothingToUnwind(pos: seq<Context>, scopes: seq<Memento>)
    ensures scopes == [] || scopes[|scopes| - 1].level <= |pos| ==> Unwind(pos, scopes, false) == Unwound(pos, scopes)
    ensures scopes == [] ==> Unwind(pos, scopes, true) == Unwound(pos, scopes)
  {
  }

  // ----- repeat groups

  /** When a match begins a new round of a repeat group: if it is in one, and the last match was not in it, or it was left
      meanwhile, or no scope is open, or the group is the outermost one and the scope is that of its first element.  The
      round goes on while the position stays in that group. */
  lemma RoundsBegin(t: Scoped, m: Scoped)
    requires OkScoped(t) && OkScoped(m) && m.pos != [] && !t.ignoreBlocks && AfterMatch(t, m).Moved?
    ensures var t', group := AfterMatch(t, m).t, InnermostRepeat(m.pos);
            && (group.None? ==> !t'.started)
            && (group.Some? && !SameGroup(InnermostRepeat(t.lastMatch), group) ==> t'.started)
            && (group.Some? && !(t.continues && m.continues) ==> t'.started)
            && (group.Some? && t.scopes == [] ==> t'.started)
            && (t'.started && SameGroup(InnermostRepeat(t.lastMatch), group) && t.continues && m.continues && t.scopes != [] ==>
                  InRoot(t, group.value) && AtFirstChild(t))
            && (t'.continues <==> t'.started && t'.pos != [] && SameGroup(InnermostRepeat(t'.pos), group))
  {
    hide Anchor, Blocked, UnwindTo, Blocking, Sibling, SamePosition, InnermostRepeat, Fits, Ok;
    AnchorOk(m.pos);
    BlockedFrame(PassedOver(Marked(t, m), Anchor(m.pos)), Anchor(m.pos));
  }

  /** When reporting a match is undefined: where the traverser has no position, where the match does not block and no context
      stands at the innermost blocking group around it, or where the round of the outermost repeat group goes on and the
      top scope was saved without a position. */
  lemma UndefinedIff(t: Scoped, m: Scoped)
    requires OkScoped(t) && OkScoped(m) && m.pos != [] && !t.ignoreBlocks
    ensures var group, blocking := InnermostRepeat(m.pos), InnermostBlocking(m.pos);
            AfterMatch(t, m) == Undefined <==>
              || t.pos == []
              || (!Blocking(Current(m.pos)) && blocking.Some? && !StandsAt(m.pos, blocking.value))
              || (group.Some? && SameGroup(InnermostRepeat(t.lastMatch), group) && t.continues && m.continues
                  && t.scopes != [] && t.scopes[|t.scopes| - 1].level == 0 && t.pos[0].parent.id == group.value.id)
  {
    LostIff(m.pos);
    hide Anchor, Blocked, UnwindTo, Blocking, Sibling, SamePosition, InnermostRepeat, InnermostBlocking, StandsAt, Fits, Ok, Settled, PassedOver, Marked;
  }

  // ----- an alternative that comes back

  // group(alternatives(group(a, b), c))
  const A := Param(4, false, true, false)
  const B := Param(5, false, true, false)
  const C := Param(6, false, true, false)
  const G3 := Group(3, false, false, false, [A, B])
  const G2 := Group(2, true, false, false, [G3, C])
  const G1 := Group(1, false, false, false, [G2])

  const AT_G2 := Context(G1, 0, 1)
  const AT_G3 := Context(G2, 0, 2)
  const ONLY_G3 := Context(G2, 0, 1)
  const AT_C := Context(G2, 1, 2)
  const AT_A := Context(G3, 0, 2)
  const AT_B := Context(G3, 1, 2)

  function At(pos: seq<Context>, last: seq<Context>, after: seq<Context>, scopes: seq<Memento>): Scoped {
    Scoped(pos, last, after, scopes, false, false, false)
  }

  const BEGUN := At([AT_G2], [], [], [])
  const FOUND_A := At([AT_G2, AT_G3, AT_A], [], [], [])
  const AFTER_A := At([AT_G2, ONLY_G3, AT_B], [AT_G2, AT_G3, AT_A], [AT_G2, ONLY_G3, AT_B], [Memento(1, AT_G2)])
  const AFTER_B := At([AT_G2], [AT_G2, ONLY_G3, AT_B], [AT_G2], [Memento(1, AT_G2)])

  lemma AllFit()
    ensures Fits(AT_G2) && Fits(AT_G3) && Fits(ONLY_G3) && Fits(AT_C) && Fits(AT_A) && Fits(AT_B)
    ensures Blocking(A) && Blocking(B) && Blocking(C) && !Blocking(G3) && !Blocking(G2) && !Blocking(G1)
  {
    assert Full(A) && Full(B) && Full(C);
    assert Full(G3);
    assert Full(G2);
    assert Full(G1);
    assert !Blocking(G2.children[0]);
  }

  lemma NoRepeats()
    ensures InnermostRepeat([]) == None && InnermostRepeat([AT_G2]) == None && InnermostRepeat([AT_G2, AT_G3]) == None
    ensures InnermostRepeat([AT_G2, ONLY_G3, AT_B]) == None && InnermostRepeat([AT_G2, AT_G3, AT_A]) == None
  {
    assert Pop([AT_G2, AT_G3]) == [AT_G2] && Pop([AT_G2, ONLY_G3]) == [AT_G2];
    assert Pop([AT_G2, AT_G3, AT_A]) == [AT_G2, AT_G3] && Pop([AT_G2, ONLY_G3, AT_B]) == [AT_G2, ONLY_G3];
  }

  lemma FindsA()
    ensures OkScoped(NewScoped(G1)) && NewScoped(G1) == BEGUN && Steps(BEGUN, 2) == FOUND_A
  {
    AllFit();
    hide Full, Blocking;
    assert Successor([AT_G2]) == [AT_G2, AT_G3] && Successor([AT_G2, AT_G3]) == [AT_G2, AT_G3, AT_A];
    assert Steps(BEGUN, 1) == Advanced(Steps(BEGUN, 0)) == At([AT_G2, AT_G3], [], [], []);
    assert Steps(BEGUN, 2) == Advanced(Steps(BEGUN, 1));
  }

  lemma ReportsA()
    ensures OkScoped(BEGUN) && OkScoped(FOUND_A) && AfterMatch(BEGUN, FOUND_A) == Moved(AFTER_A)
  {
    AllFit();
    NoRepeats();
    hide Full, Blocking, InnermostRepeat;
    var at, m1 := [AT_G2, AT_G3, AT_A], [AT_G2, ONLY_G3, AT_A];
    assert Anchor(at) == at;
    TrimsA();
    assert Successor(m1) == Sibling(m1) == [AT_G2, ONLY_G3, AT_B];
    var t1 := At([AT_G2], at, [], []);
    assert Blocked(t1, at) == Into(t1, [AT_G2, ONLY_G3, AT_B]);
    assert [] + [UndoPoint([AT_G2])] == [Memento(1, AT_G2)];
  }

  lemma TrimsA()
    ensures Trimmed([AT_G2, AT_G3, AT_A]) == [AT_G2, ONLY_G3, AT_A]
    ensures Trimmed([AT_G2, ONLY_G3, AT_B]) == [AT_G2, ONLY_G3, AT_B]
  {
    assert Exclusive([AT_G2, AT_G3, AT_A][1]) && Exclusive([AT_G2, ONLY_G3, AT_B][1]);
  }

  lemma ReportsB()
    ensures OkScoped(AFTER_A) && AfterMatch(AFTER_A, AFTER_A) == Moved(AFTER_B)
  {
    AllFit();
    NoRepeats();
    hide Full, Blocking, InnermostRepeat;
    var at := [AT_G2, ONLY_G3, AT_B];
    assert Anchor(at) == at;
    TrimsA();
    LastHasNoSibling(at);
    assert Undo(at, Memento(1, AT_G2)) == [AT_G2];
    var t1 := At(at, at, at, [Memento(1, AT_G2)]);
    assert Blocked(t1, at) == AtLast(t1, at);
  }

  /** After a and b of `(a b) | c`, the scope that began with a ends, and the position saved for it has c ahead again. */
  lemma AlternativeComesBack()
    ensures NewScoped(G1) == BEGUN && OkScoped(BEGUN) && OkScoped(FOUND_A) && OkScoped(AFTER_A) && OkScoped(AFTER_B)
    ensures Steps(BEGUN, 2) == FOUND_A && Current(FOUND_A.pos) == A && AfterMatch(BEGUN, FOUND_A) == Moved(AFTER_A)
    ensures Current(AFTER_A.pos) == B && !HasOther(AFTER_A.pos, Rest(AFTER_A.pos)) && AfterMatch(AFTER_A, AFTER_A) == Moved(AFTER_B)
    ensures Visit(C, 2) in Rest(AFTER_B.pos) && HasOther(AFTER_A.pos, Rest(AFTER_B.pos))
  {
    FindsA();
    ReportsA();
    ReportsB();
    AllFit();
    CAhead();
    NoneAhead();
  }

  lemma CAhead()
    ensures Ok([AT_G2]) && Visit(C, 2) in Rest([AT_G2]) && Other([AT_G2, ONLY_G3, AT_B], C)
    ensures HasOther([AT_G2, ONLY_G3, AT_B], Rest([AT_G2]))
  {
    AllFit();
    hide Full, Blocking;
    assert Here(AT_G2) == [G2];
    assert Preorder([G2], 1) == Subtree(G2, 1) + Preorder([G2][1..], 1);
    assert G2.children == [G3, C] && [G3, C][1..] == [C];
    assert Preorder([G3, C], 2) == Subtree(G3, 2) + Preorder([C], 2);
    assert Preorder([C], 2) == Subtree(C, 2) + Preorder([C][1..], 2);
    assert Visit(C, 2) in Subtree(C, 2);
    assert G2.children[1] == C;
    assert OtherAt([AT_G2, ONLY_G3, AT_B][1], C);
  }

  lemma NoneAhead()
    ensures Ok([AT_G2, ONLY_G3, AT_B]) && !HasOther([AT_G2, ONLY_G3, AT_B], Rest([AT_G2, ONLY_G3, AT_B]))
  {
    AllFit();
    hide Full, Blocking;
    var at := [AT_G2, ONLY_G3, AT_B];
    LastIffNothingLeft(at);
    RestSplits(at);
    assert Subtree(B, 3) == [Visit(B, 3)];
    assert forall v | v in Rest(at) :: v.node == B;
  }
}
