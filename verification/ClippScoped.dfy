/** The scoped traverser of clipp's parser: a depth-first traverser with a stack of undo points.  Blocking
    parameters make it skip ahead, and leaving a scope moves it back; still every search with it ends. */
module ClippScoped {
  import opened Clipp
  import opened Options

  predicate SamePosition(a: seq<Context>, b: seq<Context>)
    requires Ok(a) && Ok(b)
  {
    a != [] && b != [] && Top(a).parent.id == Top(b).parent.id && Current(a).id == Current(b).id
  }

  predicate IsInside(s: seq<Context>, g: Node)
    requires Ok(s)
  {
    exists i | 0 <= i < |s| :: s[i].parent.id == g.id
  }

  /** Would `++` leave the tree? */
  predicate LastInPath(s: seq<Context>)
    requires Ok(s)
  {
    s != [] && (forall i | 0 <= i < |s| :: s[i].cur + 1 == s[i].end) && Current(s).Param?
  }

  /** The outermost blocking group that the next `++` leaves. */
  function FullyExplored(s: seq<Context>, g: Option<Node>): Option<Node>
    decreases |s|
  {
    if s == [] || Top(s).cur + 1 != Top(s).end then g
    else FullyExplored(Pop(s), if Blocking(Top(s).parent) then Some(Top(s).parent) else g)
  }

  function InnermostBlocking(s: seq<Context>): Option<Node>
    decreases |s|
  {
    if s == [] then None
    else if Blocking(Top(s).parent) then Some(Top(s).parent)
    else InnermostBlocking(Pop(s))
  }

  function InnermostRepeat(s: seq<Context>): Option<Node>
    decreases |s|
  {
    if s == [] then None
    else if Top(s).parent.Group? && Top(s).parent.isRepeatable then Some(Top(s).parent)
    else InnermostRepeat(Pop(s))
  }

  predicate SameGroup(a: Option<Node>, b: Option<Node>) {
    a.Some? && b.Some? && a.value.id == b.value.id
  }

  predicate Exclusive(c: Context) {
    c.parent.Group? && c.parent.isExclusive
  }

  /** Contexts of exclusive groups end at their current position. */
  function SkipAlternatives(s: seq<Context>): (r: seq<Context>)
    ensures |r| == |s|
  {
    seq(|s|, (i: nat) requires i < |s| => if Exclusive(s[i]) && s[i].cur < s[i].end then s[i].(end := s[i].cur + 1) else s[i])
  }

  // ----- the state

  datatype Scoped = Scoped(pos: seq<Context>, lastMatch: seq<Context>, posAfter: seq<Context>,
                           scopes: seq<Memento>, ignoreBlocks: bool, started: bool, continues: bool)

  predicate OkScopes(scopes: seq<Memento>) {
    forall i | 0 <= i < |scopes| :: FitsMemento(scopes[i])
  }

  predicate OkScoped(t: Scoped) {
    Ok(t.pos) && Ok(t.lastMatch) && Ok(t.posAfter) && OkScopes(t.scopes)
  }

  function NewScoped(g: Node): Scoped
    requires g.Group?
  {
    Scoped(Start(g), [], [], [], false, false, false)
  }

  // ----- leaving scopes

  datatype Unwound = Unwound(pos: seq<Context>, scopes: seq<Memento>)

  /** Undoes the top scopes whose level is above, or not below, that of the position. */
  function Unwind(pos: seq<Context>, scopes: seq<Memento>, orLevel: bool): Unwound
    decreases |scopes|
  {
    if scopes == [] then Unwound(pos, scopes)
    else
      var top := scopes[|scopes| - 1];
      if top.level > |pos| || (orLevel && top.level == |pos|) then Unwind(Undo(pos, top), scopes[..|scopes| - 1], orLevel)
      else Unwound(pos, scopes)
  }

  function UnwindAll(pos: seq<Context>, scopes: seq<Memento>): seq<Context>
    decreases |scopes|
  {
    if scopes == [] then pos
    else UnwindAll(Undo(pos, scopes[|scopes| - 1]), scopes[..|scopes| - 1])
  }

  function UnwindTo(pos: seq<Context>, scopes: seq<Memento>, level: nat): Unwound
    decreases |scopes|
  {
    if scopes == [] || |pos| <= level then Unwound(pos, scopes)
    else UnwindTo(Undo(pos, scopes[|scopes| - 1]), scopes[..|scopes| - 1], level)
  }

  /** `repeat_group_continues`: the position is still in the repeat group of the last match. */
  predicate Continues(t: Scoped) {
    t.continues && SameGroup(InnermostRepeat(t.pos), InnermostRepeat(t.lastMatch)) && t.posAfter != []
  }

  function Continued(t: Scoped): Scoped {
    t.(continues := Continues(t))
  }

  /** `check_if_left_scope`. */
  function CheckIfLeft(t: Scoped): Scoped {
    var left := t.posAfter != [] && |t.pos| < |t.posAfter|;
    var u := if left then Unwind(t.pos, t.scopes, true) else Unwound(t.pos, t.scopes);
    var v := Unwind(u.pos, u.scopes, false);
    Continued(t.(pos := v.pos, scopes := v.scopes, posAfter := if left then [] else t.posAfter))
  }

  function ReturnToOutermost(t: Scoped): Scoped {
    if t.scopes == [] then t.(pos := [], posAfter := [], continues := false)
    else Continued(t.(pos := UnwindAll(t.pos, t.scopes), posAfter := [], scopes := []))
  }

  // ----- `operator ++`

  /** Where the position goes before scopes are checked. */
  function Ahead(t: Scoped): seq<Context>
    requires OkScoped(t) && t.pos != []
  {
    var n := Current(t.pos);
    if t.ignoreBlocks || SamePosition(t.pos, t.lastMatch) || n.Group? then Successor(t.pos)
    else
      var g := FullyExplored(t.pos, None);
      if g.Some? && !IsInside(t.lastMatch, g.value) then PastSiblings(BackTo(t.pos, g.value))
      else if Blocking(n) then
        if Exclusive(Top(t.pos)) then Sibling(t.pos) else PastSiblings(t.pos)
      else Successor(t.pos)
  }

  /** The branches that fall back to the outermost scope when they run out of the tree. */
  predicate FallsBack(t: Scoped)
    requires OkScoped(t) && t.pos != []
  {
    var n := Current(t.pos);
    && !t.ignoreBlocks && !SamePosition(t.pos, t.lastMatch) && n.Param?
    && var g := FullyExplored(t.pos, None);
       ((g.Some? && !IsInside(t.lastMatch, g.value)) || Blocking(n))
  }

  function Advanced(t: Scoped): Scoped
    requires OkScoped(t)
  {
    if t.pos == [] then t
    else if LastInPath(t.pos) then ReturnToOutermost(t)
    else
      var t1 := t.(pos := Ahead(t));
      CheckIfLeft(if FallsBack(t) && t1.pos == [] then ReturnToOutermost(t1) else t1)
  }

  // ----- well-formedness

  lemma {:induction false} UnwindOk(pos: seq<Context>, scopes: seq<Memento>, orLevel: bool)
    requires Ok(pos) && OkScopes(scopes)
    ensures var u := Unwind(pos, scopes, orLevel);
            Ok(u.pos) && OkScopes(u.scopes) && u.scopes <= scopes && (u.scopes == scopes ==> u.pos == pos)
    decreases |scopes|
  {
    hide Ok, FitsMemento, Undo;
    if scopes != [] {
      UndoOk(pos, scopes[|scopes| - 1]);
      UnwindOk(Undo(pos, scopes[|scopes| - 1]), scopes[..|scopes| - 1], orLevel);
    }
  }

  lemma {:induction false} UnwindAllOk(pos: seq<Context>, scopes: seq<Memento>)
    requires Ok(pos) && OkScopes(scopes)
    ensures Ok(UnwindAll(pos, scopes))
    decreases |scopes|
  {
    hide Ok, FitsMemento, Undo;
    if scopes != [] {
      UndoOk(pos, scopes[|scopes| - 1]);
      UnwindAllOk(Undo(pos, scopes[|scopes| - 1]), scopes[..|scopes| - 1]);
    }
  }

  lemma {:induction false} UnwindToOk(pos: seq<Context>, scopes: seq<Memento>, level: nat)
    requires Ok(pos) && OkScopes(scopes)
    ensures var u := UnwindTo(pos, scopes, level);
            Ok(u.pos) && OkScopes(u.scopes)
    decreases |scopes|
  {
    hide Ok, FitsMemento, Undo;
    if scopes != [] {
      UndoOk(pos, scopes[|scopes| - 1]);
      UnwindToOk(Undo(pos, scopes[|scopes| - 1]), scopes[..|scopes| - 1], level);
    }
  }

  lemma {:induction false} BackToOk(s: seq<Context>, g: Node)
    requires Ok(s)
    ensures Ok(BackTo(s, g)) && |Later(BackTo(s, g))| <= |Later(s)|
    decreases |s|
  {
    if s != [] {
      OkPop(s);
      LaterGrows(s);
      hide Ok, Later;
      BackToOk(Pop(s), g);
    }
  }

  // ----- termination

  /** Fewer scopes, or as many and less left to visit. */
  ghost predicate Smaller(a: Scoped, b: Scoped)
    requires Ok(a.pos) && Ok(b.pos)
  {
    |a.scopes| < |b.scopes| || (|a.scopes| == |b.scopes| && |Rest(a.pos)| < |Rest(b.pos)|)
  }

  lemma AheadMoves(t: Scoped)
    requires OkScoped(t) && t.pos != []
    ensures Ok(Ahead(t)) && |Rest(Ahead(t))| < |Rest(t.pos)|
  {
    MovesOn(t.pos);
    var g := FullyExplored(t.pos, None);
    hide Successor, Sibling, Rest, Later, FullyExplored;
    if g.Some? {
      BackMoves(t.pos, g.value);
    }
    hide PastSiblings, BackTo;
  }

  lemma BackMoves(s: seq<Context>, g: Node)
    requires Ok(s) && s != []
    ensures Ok(BackTo(s, g))
    ensures Ok(PastSiblings(BackTo(s, g))) && |Rest(PastSiblings(BackTo(s, g)))| < |Rest(s)|
  {
    var b := BackTo(s, g);
    BackToOk(s, g);
    RestSplits(s);
    NothingLeft();
    hide Ok, Fits, Rest, Subtree, Later, Sibling, BackTo;
    if b != [] {
      OkPop(b);
      LaterGrows(b);
      SiblingSkipsSubtree(Pop(b));
    }
  }

  /** Every `++` gets closer to the end, although undoing moves the position back. */
  lemma AdvancedIsSmaller(t: Scoped)
    requires OkScoped(t) && t.pos != []
    ensures OkScoped(Advanced(t)) && Smaller(Advanced(t), t)
  {
    RestSplits(t.pos);
    NothingLeft();
    hide Ok, Rest, Ahead, UnwindAll, Later, Subtree, OkScopes, LastInPath, FallsBack, Unwind;
    if LastInPath(t.pos) {
      OutermostSmaller(t);
    } else {
      AheadMoves(t);
      var t1 := t.(pos := Ahead(t));
      OutermostSmaller(t1);
      var t2 := if FallsBack(t) && t1.pos == [] then ReturnToOutermost(t1) else t1;
      CheckSmaller(t2);
      hide ReturnToOutermost, CheckIfLeft;
    }
  }

  lemma OutermostSmaller(t: Scoped)
    requires OkScoped(t)
    ensures var t' := ReturnToOutermost(t);
            OkScoped(t') && (|t'.scopes| < |t.scopes| || (t'.scopes == t.scopes && t'.pos == []))
  {
    hide UnwindAll, FitsMemento, Fits;
    UnwindAllOk(t.pos, t.scopes);
  }

  lemma CheckSmaller(t: Scoped)
    requires OkScoped(t)
    ensures var t' := CheckIfLeft(t);
            OkScoped(t') && (|t'.scopes| < |t.scopes| || (t'.scopes == t.scopes && t'.pos == t.pos))
  {
    hide Unwind, FitsMemento, Fits, Ok, OkScopes;
    Empty();
    UnwindOk(t.pos, t.scopes, true);
    var left := t.posAfter != [] && |t.pos| < |t.posAfter|;
    var u := if left then Unwind(t.pos, t.scopes, true) else Unwound(t.pos, t.scopes);
    UnwindOk(u.pos, u.scopes, false);
  }

  // ----- `next_after_match`

  predicate Alternative(s: seq<Context>) {
    exists i | 0 <= i < |s| :: Exclusive(s[i])
  }

  predicate LastInScope(scopes: seq<Memento>, s: seq<Context>)
    requires Ok(s)
  {
    if scopes == [] then LastInPath(s) else |Successor(s)| < scopes[|scopes| - 1].level
  }

  predicate Stays(n: Node) {
    n.Group? || n.isRepeatable
  }

  /** Where the match counts as found: its innermost blocking ancestor, if it does not block itself. */
  function Anchor(match_: seq<Context>): seq<Context>
    requires Ok(match_) && match_ != []
  {
    var g := InnermostBlocking(match_);
    if Blocking(Current(match_)) || g.None? then match_ else BackTo(match_, g.value)
  }

  datatype Result = Moved(t: Scoped) | Undefined

  /** `check_repeat_group_start`: does the match begin a new round of a repeat group? */
  predicate StartsRepeat(t: Scoped, m: Scoped)
    requires OkScoped(t) && OkScoped(m)
  {
    var now := InnermostRepeat(m.pos);
    if now.None? then false
    else if !SameGroup(InnermostRepeat(t.lastMatch), now) || !t.continues || !m.continues then true
    else t.scopes == [] || (InRoot(t, now.value) && AtFirstChild(t))
  }

  /** The repeat group is the outermost group of the position. */
  predicate InRoot(t: Scoped, g: Node) {
    t.pos != [] && t.pos[0].parent.id == g.id
  }

  /** The top scope is at the first element of the outermost group. */
  predicate AtFirstChild(t: Scoped)
    requires OkScoped(t) && t.scopes != [] && t.pos != []
  {
    var top := t.scopes[|t.scopes| - 1];
    assert FitsMemento(top) && Fits(t.pos[0]);
    top.level > 0 && top.context.parent.children[top.context.cur].id == t.pos[0].parent.children[0].id
  }

  /** That test looks at the parameter of a scope that was saved without a position. */
  predicate LooksNowhere(t: Scoped, m: Scoped) {
    var now := InnermostRepeat(m.pos);
    && now.Some? && SameGroup(InnermostRepeat(t.lastMatch), now) && t.continues && m.continues
    && t.scopes != [] && InRoot(t, now.value) && t.scopes[|t.scopes| - 1].level == 0
  }

  /** The match is remembered, and the flags about repeat groups are set. */
  function Marked(t: Scoped, m: Scoped): Scoped
    requires OkScoped(t) && OkScoped(m)
  {
    var starts := StartsRepeat(t, m);
    t.(lastMatch := m.pos, started := starts, continues := starts)
  }

  /** A blocking parameter that was passed over is no longer reachable. */
  function PassedOver(t: Scoped, at: seq<Context>): Scoped
    requires OkScoped(t) && Ok(at) && t.pos != []
  {
    t.(pos := if !SamePosition(at, t.pos) && Blocking(Current(t.pos)) then Sibling(t.pos) else t.pos)
  }

  function Settled(t: Scoped, at: seq<Context>): Scoped
    requires Ok(at) && at != []
  {
    if Blocking(Current(at)) then Blocked(t, at) else Loose(t, |at|)
  }

  /** `next_after_match`; undefined where the source looks at the current node of an empty position, or at a
      scope without one. */
  function AfterMatch(t: Scoped, m: Scoped): Result
    requires OkScoped(t) && OkScoped(m)
  {
    if m.pos == [] || t.ignoreBlocks then Moved(t)
    else
      AnchorOk(m.pos);
      var at := Anchor(m.pos);
      if LooksNowhere(t, m) || at == [] || t.pos == [] then Undefined
      else
        var t1 := Settled(PassedOver(Marked(t, m), at), at);
        Moved(Continued(t1.(posAfter := t1.pos)))
  }

  function Loose(t: Scoped, level: nat): Scoped {
    var u := UnwindTo(t.pos, t.scopes, level);
    if level < |t.pos| then t.(pos := u.pos, scopes := u.scopes) else t
  }

  /** To a match at the end of its scope: back to the scope before, unless more may match here. */
  function AtLast(t: Scoped, at: seq<Context>): Scoped
    requires Ok(at) && at != []
  {
    t.(pos := if !Stays(Current(at)) && t.scopes != [] then Undo(at, t.scopes[|t.scopes| - 1]) else at)
  }

  /** To a position further on, which may be in a new scope or outside the current one. */
  function Into(t: Scoped, at: seq<Context>): Scoped {
    if |at| > |t.pos| then t.(scopes := t.scopes + [UndoPoint(t.pos)], pos := at)
    else if |at| < |t.pos| then Loose(t, |at|)
    else t.(pos := at)
  }

  function Trimmed(at: seq<Context>): seq<Context> {
    if Alternative(at) then SkipAlternatives(at) else at
  }

  /** The match blocks: go to it, or past it, within or into its scope. */
  function Blocked(t: Scoped, at: seq<Context>): Scoped
    requires Ok(at) && at != []
  {
    TrimmedOk(at);
    var m1 := Trimmed(at);
    if LastInScope(t.scopes, m1) then AtLast(t, m1)
    else Into(t, if Stays(Current(m1)) then m1 else Successor(m1))
  }

  lemma AnchorOk(s: seq<Context>)
    requires Ok(s) && s != []
    ensures Ok(Anchor(s))
  {
    var g := InnermostBlocking(s);
    if g.Some? {
      BackToOk(s, g.value);
    }
  }

  lemma TrimmedOk(s: seq<Context>)
    requires Ok(s)
    ensures Ok(Trimmed(s)) && |Trimmed(s)| == |s|
  {
    hide Full;
  }

  lemma LooseOk(t: Scoped, level: nat)
    requires OkScoped(t)
    ensures OkScoped(Loose(t, level))
  {
    hide Ok, OkScopes, UnwindTo;
    UnwindToOk(t.pos, t.scopes, level);
  }

  lemma UndoPointFits(s: seq<Context>)
    requires Ok(s)
    ensures FitsMemento(UndoPoint(s))
  {
  }

  lemma PushScope(scopes: seq<Memento>, m: Memento)
    requires OkScopes(scopes) && FitsMemento(m)
    ensures OkScopes(scopes + [m])
  {
    hide FitsMemento;
  }

  lemma AtLastOk(t: Scoped, at: seq<Context>)
    requires OkScoped(t) && Ok(at) && at != []
    ensures OkScoped(AtLast(t, at))
  {
    hide Ok, FitsMemento, Undo;
    if t.scopes != [] {
      UndoOk(at, t.scopes[|t.scopes| - 1]);
    }
  }

  lemma IntoOk(t: Scoped, at: seq<Context>)
    requires OkScoped(t) && Ok(at)
    ensures OkScoped(Into(t, at))
  {
    hide Ok, OkScopes, FitsMemento, Loose, UndoPoint;
    UndoPointFits(t.pos);
    PushScope(t.scopes, UndoPoint(t.pos));
    LooseOk(t, |at|);
  }

  lemma BlockedOk(t: Scoped, at: seq<Context>)
    requires OkScoped(t) && Ok(at) && at != []
    ensures OkScoped(Blocked(t, at))
  {
    hide OkScoped, AtLast, Into, Trimmed, LastInScope, Successor;
    TrimmedOk(at);
    var m1 := Trimmed(at);
    SuccessorOk(m1);
    AtLastOk(t, m1);
    IntoOk(t, if Stays(Current(m1)) then m1 else Successor(m1));
  }

  lemma MarkedOk(t: Scoped, m: Scoped, at: seq<Context>)
    requires OkScoped(t) && OkScoped(m) && Ok(at) && t.pos != []
    ensures OkScoped(Marked(t, m)) && Marked(t, m).pos == t.pos && OkScoped(PassedOver(Marked(t, m), at))
  {
    hide Ok, OkScopes, StartsRepeat, SamePosition, Sibling;
    SiblingSkipsSubtree(t.pos);
  }

  lemma RememberedOk(t: Scoped)
    requires OkScoped(t)
    ensures OkScoped(Continued(t.(posAfter := t.pos)))
  {
  }

  /** Reporting a match keeps the traverser well-formed. */
  lemma AfterMatchOk(t: Scoped, m: Scoped)
    requires OkScoped(t) && OkScoped(m)
    ensures var r := AfterMatch(t, m); r.Moved? ==> OkScoped(r.t)
  {
    if m.pos != [] {
      AnchorOk(m.pos);
      var at := Anchor(m.pos);
      if at != [] && t.pos != [] {
        MarkedOk(t, m, at);
        hide Ok, OkScopes, Blocked, Loose, Anchor, Marked, PassedOver, Continued;
        var t1 := PassedOver(Marked(t, m), at);
        BlockedOk(t1, at);
        LooseOk(t1, |at|);
        RememberedOk(Settled(t1, at));
      }
    }
  }

  // ----- searches

  /** The traverser after `k` increments. */
  function Steps(t: Scoped, k: nat): (r: Scoped)
    requires OkScoped(t)
    ensures OkScoped(r)
  {
    if k == 0 then t
    else
      var before := Steps(t, k - 1);
      AdvancedOk(before);
      Advanced(before)
  }

  lemma AdvancedOk(t: Scoped)
    requires OkScoped(t)
    ensures OkScoped(Advanced(t))
  {
    if t.pos != [] {
      AdvancedIsSmaller(t);
    }
  }

  /** From any well-formed state, incrementing runs out of positions. */
  lemma {:induction false} SearchEnds(t: Scoped) returns (k: nat)
    requires OkScoped(t)
    ensures Steps(t, k).pos == [] && forall j | 0 <= j < k :: Steps(t, j).pos != []
    decreases |t.scopes|, |Rest(t.pos)|
  {
    hide OkScoped, Advanced, Rest;
    k := 0;
    if t.pos != [] {
      AdvancedIsSmaller(t);
      OkPositions(t);
      OkPositions(Advanced(t));
      var k' := SearchEnds(Advanced(t));
      k := k' + 1;
      LaterSteps(t, k');
      forall j | 0 <= j < k
        ensures Steps(t, j).pos != []
      {
        if j > 0 {
          LaterSteps(t, j - 1);
        }
      }
    }
  }

  lemma OkPositions(t: Scoped)
    requires OkScoped(t)
    ensures Ok(t.pos)
  {
  }

  lemma {:induction false} LaterSteps(t: Scoped, k: nat)
    requires OkScoped(t) && OkScoped(Advanced(t))
    ensures Steps(t, k + 1) == Steps(Advanced(t), k)
    decreases k
  {
    hide OkScoped, Advanced;
    if k > 0 {
      LaterSteps(t, k - 1);
    }
  }

  /** Does the search stop here? */
  predicate Hit(t: Scoped, accept: Node -> bool)
    requires OkScoped(t)
  {
    t.pos != [] && Current(t.pos).Param? && accept(Current(t.pos))
  }

  class ScopedTraverser {
    const pos: DepthFirstTraverser
    var lastMatch: seq<Context>
    var posAfterLastMatch: seq<Context>
    var scopes: seq<Memento>
    var ignoreBlocks: bool
    var repeatGroupStarted: bool
    var repeatGroupContinues: bool

    function View(): Scoped
      reads this, pos
    {
      Scoped(pos.stack, lastMatch, posAfterLastMatch, scopes, ignoreBlocks, repeatGroupStarted, repeatGroupContinues)
    }

    predicate Valid()
      reads this, pos
    {
      OkScoped(View())
    }

    constructor (g: Node)
      requires g.Group? && Full(g)
      ensures Valid() && View() == NewScoped(g) && fresh(pos)
    {
      pos := new DepthFirstTraverser(g);
      lastMatch, posAfterLastMatch, scopes, ignoreBlocks := [], [], [], false;
      repeatGroupStarted, repeatGroupContinues := false, false;
    }

    /** Undoes the top scope and drops it. */
    method LeaveScope()
      requires Valid() && scopes != []
      modifies pos, `scopes
      ensures Valid()
      ensures View() == old(View()).(pos := Undo(old(pos.stack), old(scopes)[|old(scopes)| - 1]), scopes := old(scopes)[..|old(scopes)| - 1])
    {
      hide Ok, Fits, Undo;
      UndoOk(pos.stack, scopes[|scopes| - 1]);
      pos.GoBack(scopes[|scopes| - 1]);
      scopes := scopes[..|scopes| - 1];
    }

    /** Undoes the top scopes whose level is above, or not below, that of the position. */
    method LeaveScopes(orLevel: bool)
      requires Valid()
      modifies pos, `scopes
      ensures var u := Unwind(old(pos.stack), old(scopes), orLevel);
              Valid() && View() == old(View()).(pos := u.pos, scopes := u.scopes)
    {
      hide Undo, Ok, OkScopes, FitsMemento;
      while scopes != [] && (scopes[|scopes| - 1].level > |pos.stack| || (orLevel && scopes[|scopes| - 1].level >= |pos.stack|))
        invariant Valid() && View() == old(View()).(pos := pos.stack, scopes := scopes)
        invariant Unwind(pos.stack, scopes, orLevel) == Unwind(old(pos.stack), old(scopes), orLevel)
        decreases |scopes|
      {
        LeaveScope();
      }
    }

    method CheckIfLeftScope()
      requires Valid()
      modifies this, pos
      ensures Valid() && View() == CheckIfLeft(old(View()))
    {
      hide Unwind, Ok, OkScopes, Continues;
      Empty();
      if posAfterLastMatch != [] && |pos.stack| < |posAfterLastMatch| {
        LeaveScopes(true);
        posAfterLastMatch := [];
      }
      LeaveScopes(false);
      repeatGroupContinues := Continues(View());
    }

    method ReturnToOutermostScope()
      requires Valid()
      modifies this, pos
      ensures Valid() && View() == ReturnToOutermost(old(View()))
    {
      hide Undo, Ok, FitsMemento, OkScopes, Continues;
      Empty();
      posAfterLastMatch := [];
      if scopes == [] {
        pos.stack := [];
        repeatGroupContinues := false;
        return;
      }
      while scopes != [] && (pos.stack == [] || |pos.stack| >= 1)
        invariant Valid() && View() == old(View()).(pos := pos.stack, scopes := scopes, posAfter := [])
        invariant UnwindAll(pos.stack, scopes) == UnwindAll(old(pos.stack), old(scopes))
        decreases |scopes|
      {
        LeaveScope();
      }
      repeatGroupContinues := Continues(View());
    }

    method ReturnToLevel(level: nat)
      requires Valid()
      modifies this, pos
      ensures Valid() && View() == Loose(old(View()), level)
    {
      hide Undo, Ok, FitsMemento, OkScopes, Continues;
      if |pos.stack| <= level {
        return;
      }
      while scopes != [] && |pos.stack| > level
        invariant Valid() && View() == old(View()).(pos := pos.stack, scopes := scopes)
        invariant UnwindTo(pos.stack, scopes, level) == UnwindTo(old(pos.stack), old(scopes), level)
        decreases |scopes|
      {
        LeaveScope();
      }
    }

    method Increment()
      requires Valid()
      modifies this, pos
      ensures Valid() && View() == Advanced(old(View()))
    {
      hide Ok, FitsMemento, Continues, CheckIfLeft, ReturnToOutermost, Successor, Sibling, PastSiblings, BackTo, SamePosition, FullyExplored, IsInside, LastInPath;
      if pos.stack == [] {
        return;
      }
      if LastInPath(pos.stack) {
        ReturnToOutermostScope();
        return;
      }
      if ignoreBlocks || SamePosition(pos.stack, lastMatch) {
        pos.Increment();
      } else if !Current(pos.stack).Group? {
        var g := FullyExplored(pos.stack, None);
        if g.Some? && !IsInside(lastMatch, g.value) {
          pos.BackToAncestor(g);
          pos.NextAfterSiblings();
          if pos.stack == [] {
            ReturnToOutermostScope();
          }
        } else if Blocking(Current(pos.stack)) {
          if Exclusive(Top(pos.stack)) {
            pos.NextSibling();
          } else {
            pos.NextAfterSiblings();
          }
          if pos.stack == [] {
            ReturnToOutermostScope();
          }
        } else {
          pos.Increment();
        }
      } else {
        pos.Increment();
      }
      CheckIfLeftScope();
    }

    method GoToLast(at: seq<Context>)
      requires Valid() && Ok(at) && at != []
      modifies this, pos
      ensures Valid() && View() == AtLast(old(View()), at)
    {
      AtLastOk(View(), at);
      hide Ok, FitsMemento, Undo, Stays;
      if scopes != [] {
        UndoOk(at, scopes[|scopes| - 1]);
      }
      pos.stack := at;
      if !Stays(Current(at)) && scopes != [] {
        pos.GoBack(scopes[|scopes| - 1]);
      }
    }

    method GoInto(at: seq<Context>)
      requires Valid() && Ok(at)
      modifies this, pos
      ensures Valid() && View() == Into(old(View()), at)
    {
      IntoOk(View(), at);
      hide Ok, OkScopes, Loose, UndoPoint;
      if |at| > |pos.stack| {
        scopes := scopes + [UndoPoint(pos.stack)];
        pos.stack := at;
      } else if |at| < |pos.stack| {
        ReturnToLevel(|at|);
      } else {
        pos.stack := at;
      }
    }

    /** The blocking branch of `next_after_match`. */
    method MoveToMatch(match_: seq<Context>)
      requires Valid() && Ok(match_) && match_ != []
      modifies this, pos
      ensures Valid() && View() == Blocked(old(View()), match_)
    {
      hide AtLast, Into, OkScoped, LastInScope, Trimmed, Successor;
      TrimmedOk(match_);
      var at := Trimmed(match_);
      if LastInScope(scopes, at) {
        GoToLast(at);
      } else {
        if !Stays(Current(at)) {
          SuccessorOk(at);
          at := Successor(at);
        }
        GoInto(at);
      }
    }

    /** `check_repeat_group_start`, and the match becomes the last one. */
    method Mark(m: Scoped)
      requires Valid() && OkScoped(m)
      modifies this
      ensures View() == Marked(old(View()), m) && Valid()
    {
      hide Ok, OkScopes, StartsRepeat;
      repeatGroupStarted := StartsRepeat(View(), m);
      repeatGroupContinues := repeatGroupStarted;
      lastMatch := m.pos;
    }

    method PassOver(at: seq<Context>)
      requires Valid() && Ok(at) && pos.stack != []
      modifies pos
      ensures Valid() && View() == PassedOver(old(View()), at)
    {
      hide Ok, OkScopes, SamePosition, Sibling, Blocking;
      if !SamePosition(at, pos.stack) && Blocking(Current(pos.stack)) {
        pos.NextSibling();
      }
    }

    method Settle(at: seq<Context>)
      requires Valid() && Ok(at) && at != []
      modifies this, pos
      ensures Valid() && View() == Settled(old(View()), at)
    {
      hide Ok, OkScoped, Blocked, UnwindTo, Blocking;
      if Blocking(Current(at)) {
        MoveToMatch(at);
      } else if |at| < |pos.stack| {
        ReturnToLevel(|at|);
      }
    }

    static method FindAnchor(s: seq<Context>) returns (at: seq<Context>)
      requires Ok(s) && s != []
      ensures at == Anchor(s) && Ok(at)
    {
      hide Blocking, BackTo, InnermostBlocking, Ok;
      AnchorOk(s);
      at := s;
      if !Blocking(Current(s)) {
        var g := InnermostBlocking(s);
        if g.Some? {
          at := BackTo(s, g.value);
        }
      }
    }

    /** `next_after_match`. */
    method NextAfterMatch(m: Scoped) returns (defined: bool)
      requires Valid() && OkScoped(m)
      modifies this, pos
      ensures defined == AfterMatch(old(View()), m).Moved?
      ensures defined ==> Valid() && View() == AfterMatch(old(View()), m).t
    {
      hide OkScoped, Anchor, LooksNowhere, Marked, PassedOver, Settled, Continues;
      OkPositions(m);
      if m.pos == [] || ignoreBlocks {
        return true;
      }
      var at := FindAnchor(m.pos);
      if LooksNowhere(View(), m) || at == [] || pos.stack == [] {
        return false;
      }
      MarkedOk(View(), m, at);
      Mark(m);
      PassOver(at);
      Settle(at);
      RememberedOk(View());
      posAfterLastMatch := pos.stack;
      repeatGroupContinues := Continues(View());
      defined := true;
    }
  }

  /** `full_match`: the first position of the search that accepts, or none; the search ends. */
  method FullMatch(t: ScopedTraverser, accept: Node -> bool) returns (found: bool, k: nat)
    requires t.Valid()
    modifies t, t.pos
    ensures t.Valid() && t.View() == Steps(old(t.View()), k)
    ensures if found then Hit(t.View(), accept) else t.pos.stack == []
    ensures forall j | 0 <= j < k :: Steps(old(t.View()), j).pos != [] && !Hit(Steps(old(t.View()), j), accept)
  {
    hide OkScoped, Advanced, Rest;
    k, found := 0, false;
    OkPositions(t.View());
    while t.pos.stack != []
      invariant t.Valid() && t.View() == Steps(old(t.View()), k) && Ok(t.pos.stack)
      invariant forall j | 0 <= j < k :: Steps(old(t.View()), j).pos != [] && !Hit(Steps(old(t.View()), j), accept)
      decreases |t.scopes|, |Rest(t.pos.stack)|
    {
      if Current(t.pos.stack).Param? && accept(Current(t.pos.stack)) {
        found := true;
        return;
      }
      AdvancedIsSmaller(t.View());
      t.Increment();
      OkPositions(t.View());
      k := k + 1;
    }
  }

  datatype Best = NoMatch | Match(t: Scoped, length: nat)

  /** How long a prefix of the argument a parameter matches, if it matches one. */
  type Prefix = Node -> Option<nat>

  function Length(t: Scoped, prefix: Prefix): nat
    requires OkScoped(t)
  {
    if t.pos == [] || !Current(t.pos).Param? then 0
    else match prefix(Current(t.pos)) case None => 0 case Some(n) => n
  }

  /** The current parameter matches the whole argument. */
  predicate Whole(t: Scoped, prefix: Prefix, size: nat)
    requires OkScoped(t)
  {
    t.pos != [] && Current(t.pos).Param? && prefix(Current(t.pos)) == Some(size)
  }

  /** `best` is the first of the longest matches among the first `k` positions. */
  ghost predicate Longest(t: Scoped, prefix: Prefix, k: nat, best: Best)
    requires OkScoped(t)
  {
    match best
    case NoMatch => forall j | 0 <= j < k :: Length(Steps(t, j), prefix) == 0
    case Match(m, length) =>
      && 0 < length
      && (forall j | 0 <= j < k :: Length(Steps(t, j), prefix) <= length)
      && exists i | 0 <= i < k :: m == Steps(t, i) && FirstOf(t, prefix, i, length)
  }

  ghost predicate FirstOf(t: Scoped, prefix: Prefix, i: nat, length: nat)
    requires OkScoped(t)
  {
    Length(Steps(t, i), prefix) == length && forall j | 0 <= j < i :: Length(Steps(t, j), prefix) < length
  }

  /** `longest_prefix_match` on an argument of length `size`: the first parameter that matches all of it, or else,
      after the whole search, the first of those that match longest. */
  method LongestPrefixMatch(t: ScopedTraverser, size: nat, prefix: Prefix) returns (best: Best, whole: bool, k: nat)
    requires t.Valid()
    modifies t, t.pos
    ensures t.Valid() && t.View() == Steps(old(t.View()), k)
    ensures forall j | 0 <= j < k :: Steps(old(t.View()), j).pos != [] && !Whole(Steps(old(t.View()), j), prefix, size)
    ensures if whole then Whole(t.View(), prefix, size) && best == Match(t.View(), size)
            else t.pos.stack == [] && Longest(old(t.View()), prefix, k, best)
  {
    hide OkScoped, Advanced, Rest;
    k, best, whole := 0, NoMatch, false;
    OkPositions(t.View());
    while t.pos.stack != []
      invariant t.Valid() && t.View() == Steps(old(t.View()), k) && Ok(t.pos.stack)
      invariant forall j | 0 <= j < k :: Steps(old(t.View()), j).pos != [] && !Whole(Steps(old(t.View()), j), prefix, size)
      invariant Longest(old(t.View()), prefix, k, best)
      decreases |t.scopes|, |Rest(t.pos.stack)|
    {
      var match_ := if Current(t.pos.stack).Param? then prefix(Current(t.pos.stack)) else None;
      if match_ == Some(size) {
        best, whole := Match(t.View(), size), true;
        return;
      }
      best := Better(old(t.View()), prefix, k, best, t.View(), if match_.Some? then match_.value else 0);
      AdvancedIsSmaller(t.View());
      t.Increment();
      OkPositions(t.View());
      k := k + 1;
    }
  }

  /** One more candidate, kept if it is longer than the best so far. */
  method Better(ghost t: Scoped, ghost prefix: Prefix, ghost k: nat, best: Best, now: Scoped, length: nat) returns (better: Best)
    requires OkScoped(t) && Longest(t, prefix, k, best) && now == Steps(t, k) && length == Length(now, prefix)
    ensures Longest(t, prefix, k + 1, better)
  {
    hide OkScoped, Advanced, Length, Steps;
    better := best;
    if (if best.Match? then best.length else 0) < length {
      better := Match(now, length);
      assert FirstOf(t, prefix, k, length);
    }
  }

  // ----- a search that ignores blocking

  lemma {:induction false} LastHasNoSibling(s: seq<Context>)
    requires forall i | 0 <= i < |s| :: s[i].cur + 1 == s[i].end
    ensures Sibling(s) == []
    decreases |s|
  {
    if s != [] {
      LastHasNoSibling(s[..|s| - 1]);
    }
  }

  lemma FreeStep(t: Scoped)
    requires OkScoped(t) && t.ignoreBlocks && t.scopes == [] && t.posAfter == []
    ensures var t' := Advanced(t);
            t'.pos == Successor(t.pos) && t'.ignoreBlocks && t'.scopes == [] && t'.posAfter == []
  {
    if t.pos != [] && LastInPath(t.pos) {
      LastHasNoSibling(t.pos);
    }
    hide Ok, Sibling;
  }

  /** Looking ahead with blocking ignored, as the parser does to explain a blocked argument, goes through
      everything that is left, in preorder. */
  lemma {:induction false} IgnoringBlocksSeesAll(t: Scoped, k: nat)
    requires OkScoped(t) && t.ignoreBlocks && t.scopes == [] && t.posAfter == []
    requires Ok(t.pos) && k <= |Rest(t.pos)|
    ensures var t' := Steps(t, k);
            && t'.ignoreBlocks && t'.scopes == [] && t'.posAfter == [] && Ok(t'.pos) && Rest(t'.pos) == Rest(t.pos)[k..]
            && (k < |Rest(t.pos)| ==> t'.pos != [] && Rest(t.pos)[k] == Visit(Current(t'.pos), |t'.pos|))
    decreases k
  {
    hide OkScoped, Advanced, Rest, Ok, Successor;
    if k > 0 {
      IgnoringBlocksSeesAll(t, k - 1);
      var before := Steps(t, k - 1);
      FreeStep(before);
      NextVisitsOne(before.pos);
      assert Rest(Successor(before.pos)) == Rest(before.pos)[1..];
      assert Rest(t.pos)[k - 1..][1..] == Rest(t.pos)[k..];
    }
    NothingLeft();
    var t' := Steps(t, k);
    OkPositions(t');
    if t'.pos != [] {
      NextVisitsOne(t'.pos);
    }
  }

  // ----- when reporting a match is defined

  /** Some context stands at the group `g`. */
  predicate StandsAt(s: seq<Context>, g: Node)
    requires Ok(s)
  {
    exists i | 0 <= i < |s| :: StandsAtGroup(s[i], g)
  }

  predicate StandsAtGroup(c: Context, g: Node)
    requires Fits(c)
  {
    c.parent.children[c.cur].Group? && c.parent.children[c.cur].id == g.id
  }

  /** Going back to a group stops exactly if some context stands at it. */
  lemma {:induction false} BackToIff(s: seq<Context>, g: Node)
    requires Ok(s)
    ensures BackTo(s, g) != [] <==> StandsAt(s, g)
    decreases |s|
  {
    if s != [] {
      OkPop(s);
      hide Fits;
      BackToIff(Pop(s), g);
      assert StandsAtGroup(Top(s), g) || StandsAt(Pop(s), g) ==> StandsAt(s, g) by {
        if StandsAt(Pop(s), g) {
          var i :| 0 <= i < |Pop(s)| && StandsAtGroup(Pop(s)[i], g);
          assert StandsAtGroup(s[i], g);
        }
      }
      if StandsAt(s, g) && !StandsAtGroup(Top(s), g) {
        var i :| 0 <= i < |s| && StandsAtGroup(s[i], g);
        assert StandsAtGroup(Pop(s)[i], g);
      }
    }
  }

  /** The match is lost, and looking at it undefined, exactly when it does not block, some group around it does,
      and no context stands at the innermost one: that group is the root, or an undo has put its context on
      top of a context that stands elsewhere. */
  lemma LostIff(s: seq<Context>)
    requires Ok(s) && s != []
    ensures Anchor(s) == [] <==>
            !Blocking(Current(s)) && InnermostBlocking(s).Some? && !StandsAt(s, InnermostBlocking(s).value)
  {
    if InnermostBlocking(s).Some? {
      BackToIff(s, InnermostBlocking(s).value);
    }
  }
}
