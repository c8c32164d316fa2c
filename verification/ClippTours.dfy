/** What a search of the parser looks at, told from the tree: the nodes that `++` of the scoped traverser visits, in
    order, when blocking parameters and fully explored blocking groups hide what follows them. */
module ClippTours {
  import opened Clipp
  import opened ClippScoped
  import opened Options

  /** The visits below a list of siblings, and whether the walk got to the end of the list and of every group that ends
      there, so that they count as fully explored. */
  datatype Tour = Tour(visits: seq<Visit>, explored: bool)

  /** The parameter is where the last match was: it does not block. */
  predicate Matched(parent: nat, n: Node, last: seq<Context>)
    requires Ok(last)
  {
    last != [] && Top(last).parent.id == parent && Current(last).id == n.id
  }

  /** A parameter hides its later siblings if it blocks, unless they are alternatives to it. */
  predicate Stops(g: Node, n: Node, last: seq<Context>)
    requires g.Group? && Ok(last)
  {
    Blocking(n) && !g.isExclusive && !Matched(g.id, n, last)
  }

  /** A fully explored group hides its later siblings if it blocks and holds no match. */
  predicate Hides(n: Node, last: seq<Context>)
    requires Ok(last)
  {
    Blocking(n) && !IsInside(last, n)
  }

  function Joined(first: seq<Visit>, rest: Tour): Tour {
    Tour(first + rest.visits, rest.explored)
  }

  /** The search below the children `nodes` of `g`, at depth `level`. */
  function TourOf(g: Node, nodes: seq<Node>, level: nat, last: seq<Context>): Tour
    requires g.Group? && Ok(last)
    decreases nodes
  {
    if nodes == [] then Tour([], true)
    else
      var n := nodes[0];
      if n.Param? then
        if |nodes| == 1 then Tour([Visit(n, level)], !Matched(g.id, n, last))
        else if Stops(g, n, last) then Tour([Visit(n, level)], false)
        else Joined([Visit(n, level)], TourOf(g, nodes[1..], level, last))
      else
        var inner := TourOf(n, n.children, level + 1, last);
        var visits := [Visit(n, level)] + inner.visits;
        if |nodes| == 1 then Tour(visits, inner.explored)
        else if inner.explored && Hides(n, last) then Tour(visits, false)
        else Joined(visits, TourOf(g, nodes[1..], level, last))
  }

  // ----- the tour from a position on

  /** What is left when the group at the current position has been walked through. */
  function Onward(s: seq<Context>, explored: bool, last: seq<Context>): seq<Visit>
    requires Ok(s) && Ok(last)
    decreases |s|
  {
    if s == [] then []
    else
      OkPop(s);
      if Behind(Top(s)) == [] then Onward(Pop(s), explored, last)
      else if explored && Hides(Current(s), last) then Onward(Pop(s), false, last)
      else
        var tour := TourOf(Top(s).parent, Behind(Top(s)), |s|, last);
        tour.visits + Onward(Pop(s), tour.explored, last)
  }

  function TourFrom(s: seq<Context>, last: seq<Context>): seq<Visit>
    requires Ok(s) && Ok(last)
  {
    if s == [] then []
    else
      OkPop(s);
      var tour := TourOf(Top(s).parent, Here(Top(s)), |s|, last);
      tour.visits + Onward(Pop(s), tour.explored, last)
  }

  // ----- positions in a tree

  function Ids(s: seq<Context>): set<nat> {
    set i | 0 <= i < |s| :: s[i].parent.id
  }

  /** No group has the address of a group that it lies in. */
  predicate Nested(n: Node, above: set<nat>) {
    n.Group? ==> n.id !in above && forall k | 0 <= k < |n.children| :: Nested(n.children[k], above + {n.id})
  }

  /** Each context is at the children of the node at which the context below it stands. */
  ghost predicate Placed(s: seq<Context>)
    requires Ok(s)
    decreases |s|
  {
    s != [] ==>
      (OkPop(s);
       && Placed(Pop(s)) && Nested(Top(s).parent, Ids(Pop(s)))
       && (Pop(s) != [] ==> Top(s).parent == Current(Pop(s))))
  }

  lemma IdsPush(s: seq<Context>, c: Context)
    ensures Ids(s + [c]) == Ids(s) + {c.parent.id}
  {
    forall x
      ensures x in Ids(s + [c]) <==> x in Ids(s) + {c.parent.id}
    {
      if x in Ids(s) {
        var i :| 0 <= i < |s| && s[i].parent.id == x;
        assert (s + [c])[i].parent.id == x;
      }
      assert (s + [c])[|s|].parent.id == c.parent.id;
    }
  }

  lemma PlacedEnter(s: seq<Context>)
    requires Ok(s) && Placed(s) && s != [] && Current(s).Group?
    ensures Ok(s + [Enter(Current(s))]) && Placed(s + [Enter(Current(s))])
  {
    EnterFits(s);
    OkPop(s);
    OkPush(s, Enter(Current(s)));
    IdsPush(Pop(s), Top(s));
    var up := s + [Enter(Current(s))];
    assert Pop(up) == s && Top(up) == Enter(Current(s));
    assert Nested(Top(s).parent.children[Top(s).cur], Ids(Pop(s)) + {Top(s).parent.id});
    hide Nested, Fits, Ids;
  }

  lemma PlacedMove(s: seq<Context>, c: Context)
    requires Ok(s) && Placed(s) && s != [] && Fits(c) && c.parent == Top(s).parent
    ensures Ok(Pop(s) + [c]) && Placed(Pop(s) + [c])
  {
    OkPop(s);
    OkPush(Pop(s), c);
    hide Nested, Fits, Ids;
  }

  lemma {:induction false} PlacedSibling(s: seq<Context>)
    requires Ok(s) && Placed(s)
    ensures Ok(Sibling(s)) && Placed(Sibling(s))
    decreases |s|
  {
    hide Fits, Ok, Nested;
    Empty();
    if s != [] {
      OkPop(s);
      SiblingStep(s);
      Advances(Top(s));
      if Top(s).cur + 1 < Top(s).end {
        PlacedMove(s, Top(s).(cur := Top(s).cur + 1));
      } else {
        PlacedSibling(Pop(s));
      }
    }
  }

  // ----- the levels that end here

  predicate AtEnd(c: Context) {
    c.cur + 1 == c.end
  }

  /** The position without the levels on top that stand at their last node. */
  function Open(s: seq<Context>): (o: seq<Context>)
    ensures o <= s
    ensures o != [] ==> !AtEnd(Top(o))
    decreases |s|
  {
    if s == [] || !AtEnd(Top(s)) then s else Open(Pop(s))
  }

  lemma {:induction false} SiblingOpen(s: seq<Context>)
    requires Ok(s)
    ensures Sibling(s) == Sibling(Open(s))
    decreases |s|
  {
    hide Fits, Ok;
    if s != [] && AtEnd(Top(s)) {
      OkPop(s);
      SiblingStep(s);
      SiblingOpen(Pop(s));
    }
  }

  lemma BehindEnd(c: Context)
    requires Fits(c)
    ensures Behind(c) == [] <==> AtEnd(c)
    ensures Here(c) == [c.parent.children[c.cur]] + Behind(c)
  {
  }

  lemma {:induction false} OnwardLeft(s: seq<Context>, last: seq<Context>)
    requires Ok(s) && Ok(last)
    ensures Ok(Sibling(s)) && Onward(s, false, last) == TourFrom(Sibling(s), last)
    decreases |s|
  {
    hide Fits, Ok, TourOf, Here, Behind;
    Empty();
    if s != [] {
      OkPop(s);
      SiblingStep(s);
      Advances(Top(s));
      BehindEnd(Top(s));
      hide Sibling;
      if Top(s).cur + 1 < Top(s).end {
        OkPush(Pop(s), Top(s).(cur := Top(s).cur + 1));
      } else {
        OnwardLeft(Pop(s), last);
      }
    }
  }

  lemma {:induction false} OkPrefix(s: seq<Context>, n: nat)
    requires Ok(s) && n <= |s|
    ensures Ok(s[..n])
  {
    hide Fits;
  }

  /** A group that was explored to its end hides what follows the outermost group that ends there. */
  lemma {:induction false} OnwardOpen(s: seq<Context>, last: seq<Context>)
    requires Ok(s) && Ok(last)
    ensures var o := Open(s);
            && Ok(o) && (o != [] ==> Ok(Pop(o)))
            && Onward(s, true, last) == if o != [] && Hides(Current(o), last) then Onward(Pop(o), false, last) else Onward(o, false, last)
    decreases |s|
  {
    hide Fits, Ok, TourOf, Behind, Here, Hides;
    if s != [] {
      OkPop(s);
      BehindEnd(Top(s));
      if AtEnd(Top(s)) {
        OnwardOpen(Pop(s), last);
      }
    } else {
      Empty();
    }
  }

  /** Which group counts as the outermost blocking one that is left. */
  lemma {:induction false} ExploredAt(s: seq<Context>, g: Option<Node>) returns (i: nat)
    ensures var o := Open(s);
            && |o| <= i <= |s|
            && (if i == |s| then FullyExplored(s, g) == g else FullyExplored(s, g) == Some(s[i].parent))
            && (|o| < |s| && Blocking(s[|o|].parent) ==> i == |o|)
    decreases |s|
  {
    hide Blocking;
    i := |s|;
    if s != [] && AtEnd(Top(s)) {
      var g' := if Blocking(Top(s).parent) then Some(Top(s).parent) else g;
      i := ExploredAt(Pop(s), g');
      if i == |Pop(s)| && !Blocking(Top(s).parent) {
        i := |s|;
      }
    }
  }

  lemma {:induction false} BackToIs(s: seq<Context>, i: nat)
    requires Ok(s) && Placed(s) && 1 <= i < |s|
    requires !(Current(s).Group? && Current(s).id == s[i].parent.id)
    ensures BackTo(s, s[i].parent) == s[..i]
    decreases |s|
  {
    hide Fits, Ok;
    OkPop(s);
    var p := Pop(s);
    OkPop(p);
    assert s[..i] == p[..i];
    if i == |s| - 1 {
      assert p == s[..i];
      assert Top(s).parent.Group? by {
        ParentIsGroup(Top(s));
      }
    } else {
      assert p[i].parent.id in Ids(p);
      BackToIs(p, i);
    }
  }

  lemma ParentIsGroup(c: Context)
    requires Fits(c)
    ensures c.parent.Group?
  {
  }

  // ----- one `++`

  lemma {:induction false} OpenIffLast(s: seq<Context>)
    ensures Open(s) == [] <==> forall i | 0 <= i < |s| :: AtEnd(s[i])
    decreases |s|
  {
    if s != [] && AtEnd(Top(s)) {
      OpenIffLast(Pop(s));
      if Open(s) == [] {
        forall i | 0 <= i < |s|
          ensures AtEnd(s[i])
        {
          assert i < |Pop(s)| ==> Pop(s)[i] == s[i];
        }
      }
    }
  }

  lemma {:induction false} LinkedAt(s: seq<Context>, i: nat)
    requires Ok(s) && Placed(s) && 0 < i < |s|
    ensures Ok(s[..i]) && Current(s[..i]) == s[i].parent
    decreases |s|
  {
    hide Fits, Ok, Nested;
    OkPop(s);
    if i == |s| - 1 {
      assert s[..i] == Pop(s);
    } else {
      LinkedAt(Pop(s), i);
      assert s[..i] == Pop(s)[..i];
    }
  }

  /** A parameter at the end of its group, which does not end the tree: where the blocking group that is left sends the
      search is where the tour goes. */
  lemma Leaves(t: Scoped)
    requires OkScoped(t) && Placed(t.pos) && t.pos != [] && Current(t.pos).Param? && AtEnd(Top(t.pos))
    requires Open(t.pos) != [] && !t.ignoreBlocks && !SamePosition(t.pos, t.lastMatch)
    ensures Ok(Ahead(t)) && Ok(Pop(t.pos)) && TourFrom(Ahead(t), t.lastMatch) == Onward(Pop(t.pos), true, t.lastMatch)
  {
    hide Fits, Ok, TourOf, TourFrom, Onward, Nested, FullyExplored, Blocking, BackTo, IsInside, SamePosition, Open, Ids;
    var s, last := t.pos, t.lastMatch;
    OkPop(s);
    AheadOk(t);
    var o := Open(s);
    OpenPop(s);
    OnwardOpen(Pop(s), last);
    OkPrefix(s, |o|);
    assert s[..|o|] == o;
    OkPop(o);
    LinkedAt(s, |o|);
    OnwardLeft(o, last);
    OnwardLeft(Pop(o), last);
    var i := ExploredAt(s, None);
    if i == |s| || IsInside(last, s[i].parent) {
      NoneExplored(t);
    } else {
      ExploredBlocks(s, None);
      BackToIs(s, i);
      LandsAt(s, i);
      PastExplored(t, s[i].parent);
    }
  }

  lemma AheadOk(t: Scoped)
    requires OkScoped(t) && t.pos != []
    ensures Ok(Ahead(t))
  {
    AheadMoves(t);
  }

  lemma OpenPop(s: seq<Context>)
    requires s != [] && AtEnd(Top(s))
    ensures Open(s) == Open(Pop(s)) && |Open(s)| < |s|
  {
  }

  lemma PastExplored(t: Scoped, g: Node)
    requires OkScoped(t) && t.pos != [] && Current(t.pos).Param? && !t.ignoreBlocks && !SamePosition(t.pos, t.lastMatch)
    requires FullyExplored(t.pos, None) == Some(g) && !IsInside(t.lastMatch, g)
    ensures Ahead(t) == PastSiblings(BackTo(t.pos, g))
  {
    hide Fits, Ok, FullyExplored, IsInside, SamePosition, Blocking, BackTo;
  }

  /** Without a blocking group to leave, a parameter at its end goes where the next sibling is. */
  lemma NoneExplored(t: Scoped)
    requires OkScoped(t) && t.pos != [] && Current(t.pos).Param? && AtEnd(Top(t.pos))
    requires var g := FullyExplored(t.pos, None); g.None? || IsInside(t.lastMatch, g.value)
    ensures Ahead(t) == Sibling(Open(t.pos))
  {
    hide Fits, Ok, FullyExplored, IsInside, SamePosition, Open, Blocking;
    OkPop(t.pos);
    SiblingStep(t.pos);
    SiblingOpen(t.pos);
  }

  /** Going past the siblings of a group on the way: they are none, but for the outermost group. */
  lemma LandsAt(s: seq<Context>, i: nat)
    requires Ok(s) && 0 < i && |Open(s)| <= i <= |s|
    ensures PastSiblings(s[..i]) == if i == |Open(s)| then Sibling(Pop(Open(s))) else Sibling(Open(s))
  {
    hide Fits, Ok, Open;
    assert s[..|Open(s)|] == Open(s);
    if i > |Open(s)| {
      OpenPrefix(s, i - 1);
      OkPrefix(s, i - 1);
      assert Pop(s[..i]) == s[..i - 1];
      SiblingOpen(s[..i - 1]);
    }
  }

  lemma {:induction false} OpenPrefix(s: seq<Context>, n: nat)
    requires |Open(s)| <= n <= |s|
    ensures Open(s[..n]) == Open(s)
    decreases |s|
  {
    if n == |s| {
      assert s[..n] == s;
    } else {
      OpenPrefix(Pop(s), n);
      assert s[..n] == Pop(s)[..n];
    }
  }

  lemma {:induction false} ExploredBlocks(s: seq<Context>, g: Option<Node>)
    ensures FullyExplored(s, g).Some? ==> FullyExplored(s, g) == g || Blocking(FullyExplored(s, g).value)
    decreases |s|
  {
    hide Blocking;
    if s != [] && AtEnd(Top(s)) {
      ExploredBlocks(Pop(s), if Blocking(Top(s).parent) then Some(Top(s).parent) else g);
    }
  }

  // ----- the search

  /** One step visits the current node, and what is left is the tour from where it leads; the last node of the path
      leaves nothing. */
  lemma AheadTour(t: Scoped)
    requires OkScoped(t) && Placed(t.pos) && t.pos != [] && !t.ignoreBlocks
    ensures Ok(Ahead(t))
    ensures var now := [Visit(Current(t.pos), |t.pos|)];
            TourFrom(t.pos, t.lastMatch) == now + if LastInPath(t.pos) then [] else TourFrom(Ahead(t), t.lastMatch)
  {
    var s, last := t.pos, t.lastMatch;
    AheadOk(t);
    OkPop(s);
    BehindEnd(Top(s));
    if Current(s).Group? {
      EntersTour(t);
    } else if AtEnd(Top(s)) {
      LastTour(t);
    } else {
      SiblingTour(t);
    }
  }

  lemma EntersTour(t: Scoped)
    requires OkScoped(t) && t.pos != [] && Current(t.pos).Group?
    ensures Ok(Ahead(t)) && !LastInPath(t.pos)
    ensures TourFrom(t.pos, t.lastMatch) == [Visit(Current(t.pos), |t.pos|)] + TourFrom(Ahead(t), t.lastMatch)
  {
    hide Fits, Ok, Hides, Nested;
    var s, last := t.pos, t.lastMatch;
    var n := Current(s);
    AheadOk(t);
    OkPop(s);
    BehindEnd(Top(s));
    EnterFits(s);
    OkPush(s, Enter(n));
    var up := s + [Enter(n)];
    assert Ahead(t) == up;
    var inner := TourOf(n, n.children, |s| + 1, last);
    assert TourFrom(up, last) == inner.visits + Onward(s, inner.explored, last);
    var nodes := Here(Top(s));
    assert nodes[0] == n && nodes[1..] == Behind(Top(s));
  }

  lemma LastTour(t: Scoped)
    requires OkScoped(t) && Placed(t.pos) && t.pos != [] && !t.ignoreBlocks && Current(t.pos).Param? && AtEnd(Top(t.pos))
    ensures Ok(Ahead(t))
    ensures TourFrom(t.pos, t.lastMatch)
            == [Visit(Current(t.pos), |t.pos|)] + if LastInPath(t.pos) then [] else TourFrom(Ahead(t), t.lastMatch)
  {
    var s, last := t.pos, t.lastMatch;
    OpenIffLast(s);
    hide Fits, Ok, Nested, Open, FullyExplored, BackTo, IsInside, Blocking, Hides;
    AheadOk(t);
    OkPop(s);
    BehindEnd(Top(s));
    var matched := Matched(Top(s).parent.id, Current(s), last);
    assert TourFrom(s, last) == [Visit(Current(s), |s|)] + Onward(Pop(s), !matched, last);
    OpenPop(s);
    hide Onward, TourFrom;
    if LastInPath(s) {
      OnwardEnds(Pop(s), !matched, last);
    } else if matched {
      SiblingOpen(s);
      OnwardLeft(s, last);
      PopLeft(s, last);
    } else {
      Leaves(t);
    }
  }

  lemma PopLeft(s: seq<Context>, last: seq<Context>)
    requires Ok(s) && Ok(last) && s != [] && AtEnd(Top(s))
    ensures Ok(Pop(s)) && Onward(s, false, last) == Onward(Pop(s), false, last)
  {
    hide Fits, Ok, TourOf, Hides;
    OkPop(s);
    BehindEnd(Top(s));
  }

  lemma {:induction false} OnwardEnds(s: seq<Context>, explored: bool, last: seq<Context>)
    requires Ok(s) && Ok(last) && Open(s) == []
    ensures Onward(s, explored, last) == []
    decreases |s|
  {
    hide Fits, Ok, TourOf, Hides;
    if s != [] {
      OkPop(s);
      BehindEnd(Top(s));
      OnwardEnds(Pop(s), explored, last);
    }
  }

  lemma SiblingTour(t: Scoped)
    requires OkScoped(t) && t.pos != [] && !t.ignoreBlocks && Current(t.pos).Param? && !AtEnd(Top(t.pos))
    ensures Ok(Ahead(t)) && !LastInPath(t.pos)
    ensures TourFrom(t.pos, t.lastMatch) == [Visit(Current(t.pos), |t.pos|)] + TourFrom(Ahead(t), t.lastMatch)
  {
    hide Ok, Nested, BackTo, IsInside, Blocking, Hides;
    var s, last := t.pos, t.lastMatch;
    AheadOk(t);
    OkPop(s);
    TopFits(s);
    BehindEnd(Top(s));
    Advances(Top(s));
    SiblingStep(s);
    assert FullyExplored(s, None).None?;
    var nodes := Here(Top(s));
    assert nodes[0] == Current(s) && nodes[1..] == Behind(Top(s));
    hide Sibling, FullyExplored;
    if Stops(Top(s).parent, Current(s), last) {
      OnwardLeft(Pop(s), last);
    } else {
      OkPush(Pop(s), Top(s).(cur := Top(s).cur + 1));
    }
  }

  lemma {:induction false} BackToPlaced(s: seq<Context>, g: Node)
    requires Ok(s) && Placed(s)
    ensures Ok(BackTo(s, g)) && Placed(BackTo(s, g))
    decreases |s|
  {
    hide Fits, Ok, Nested;
    if s != [] {
      OkPop(s);
      BackToPlaced(Pop(s), g);
    }
  }

  lemma PastPlaced(s: seq<Context>)
    requires Ok(s) && Placed(s)
    ensures Ok(PastSiblings(s)) && Placed(PastSiblings(s))
  {
    hide Fits, Ok, Nested;
    Empty();
    if s != [] {
      OkPop(s);
      PlacedSibling(Pop(s));
    }
  }

  lemma AheadPlaced(t: Scoped)
    requires OkScoped(t) && Placed(t.pos) && t.pos != []
    ensures Ok(Ahead(t)) && Placed(Ahead(t))
  {
    AheadOk(t);
    var s := t.pos;
    PlacedSibling(s);
    PastPlaced(s);
    if Current(s).Group? {
      PlacedEnter(s);
    }
    var g := FullyExplored(s, None);
    if g.Some? {
      BackToPlaced(s, g.value);
      PastPlaced(BackTo(s, g.value));
    }
    hide Ok, Fits, Placed, BackTo, PastSiblings, FullyExplored, Blocking, IsInside, SamePosition;
  }

  /** A search of the parser in the outermost scope. */
  ghost predicate Searching(t: Scoped) {
    OkScoped(t) && Placed(t.pos) && !t.ignoreBlocks && t.scopes == [] && t.posAfter == []
  }

  lemma SearchStep(t: Scoped)
    requires Searching(t) && t.pos != []
    ensures var t' := Advanced(t);
            && Searching(t') && t'.lastMatch == t.lastMatch
            && TourFrom(t.pos, t.lastMatch) == [Visit(Current(t.pos), |t.pos|)] + TourFrom(t'.pos, t.lastMatch)
  {
    AheadTour(t);
    AheadPlaced(t);
    AdvancedOk(t);
    Empty();
    hide Ok, Fits, Nested, Ahead, TourOf, Onward, LastInPath, FallsBack;
  }

  /** What is left of the tour after `k` steps. */
  ghost predicate OnTour(t: Scoped, k: nat, t': Scoped) {
    && Searching(t) && Searching(t') && t'.lastMatch == t.lastMatch
    && k <= |TourFrom(t.pos, t.lastMatch)| && TourFrom(t'.pos, t.lastMatch) == TourFrom(t.pos, t.lastMatch)[k..]
  }

  lemma {:induction false} TourLeft(t: Scoped, k: nat)
    requires Searching(t) && k <= |TourFrom(t.pos, t.lastMatch)|
    ensures OkScoped(t) && OnTour(t, k, Steps(t, k))
    decreases k
  {
    hide Advanced, OnTour, TourOf, Onward, Nested, Fits;
    SearchingOk(t);
    if k == 0 {
      TourBegins(t);
    } else {
      TourLeft(t, k - 1);
      StepsNext(t, k);
      TourStep(t, k, Steps(t, k - 1));
    }
  }

  lemma TourBegins(t: Scoped)
    requires Searching(t)
    ensures OnTour(t, 0, t)
  {
    hide TourOf, Onward, Nested, Fits;
    var tour := TourFrom(t.pos, t.lastMatch);
    assert tour[0..] == tour;
  }

  lemma TourStep(t: Scoped, k: nat, before: Scoped)
    requires 0 < k && OnTour(t, k - 1, before) && k <= |TourFrom(t.pos, t.lastMatch)|
    ensures OkScoped(before) && OnTour(t, k, Advanced(before))
  {
    hide Advanced, TourOf, Onward, Nested, Fits, Placed, Ok;
    SearchingOk(before);
    StandsOnTour(before);
    SearchStep(before);
    SearchingOk(Advanced(before));
    hide TourFrom;
    DropOne(TourFrom(t.pos, t.lastMatch), k, Visit(Current(before.pos), |before.pos|), TourFrom(Advanced(before).pos, t.lastMatch));
  }

  lemma StepsNext(t: Scoped, k: nat)
    requires OkScoped(t) && 0 < k
    ensures Steps(t, k) == Advanced(Steps(t, k - 1))
  {
  }

  lemma DropOne(tour: seq<Visit>, k: nat, v: Visit, rest: seq<Visit>)
    requires 0 < k <= |tour| && tour[k - 1..] == [v] + rest
    ensures tour[k..] == rest
  {
    assert tour[k..] == tour[k - 1..][1..];
  }

  lemma StandsOnTour(t: Scoped)
    requires Searching(t)
    ensures OkScoped(t)
    ensures var tour := TourFrom(t.pos, t.lastMatch);
            if tour == [] then t.pos == [] else t.pos != [] && tour[0] == Visit(Current(t.pos), |t.pos|)
  {
    hide Advanced, Searching, OkScoped, TourFrom;
    SearchingOk(t);
    if t.pos == [] {
      NoTour(t.lastMatch);
    } else {
      SearchStep(t);
    }
  }

  /** The search goes through the tour: after `k` steps it stands at the `k`-th node of it, and at its end it is over. */
  lemma SearchFollowsTour(t: Scoped, k: nat)
    requires Searching(t) && k <= |TourFrom(t.pos, t.lastMatch)|
    ensures OkScoped(Steps(t, k))
    ensures var tour, t' := TourFrom(t.pos, t.lastMatch), Steps(t, k);
            if k == |tour| then t'.pos == [] else t'.pos != [] && tour[k] == Visit(Current(t'.pos), |t'.pos|)
  {
    SearchingOk(t);
    hide Advanced, Searching, OkScoped, TourFrom, Steps;
    TourLeft(t, k);
    StandsOnTour(Steps(t, k));
  }

  lemma SearchingOk(t: Scoped)
    requires Searching(t)
    ensures OkScoped(t) && Ok(t.pos) && Ok(t.lastMatch)
  {
  }

  lemma NoTour(last: seq<Context>)
    requires Ok(last)
    ensures Ok([]) && TourFrom([], last) == []
  {
  }

  /** From a new traverser, with no match yet, the tour is that of the whole tree. */
  lemma NewSearch(g: Node)
    requires g.Group? && Full(g) && Nested(g, {})
    ensures Searching(NewScoped(g))
    ensures TourFrom(NewScoped(g).pos, []) == TourOf(g, g.children, 1, []).visits
  {
    StartVisitsAll(g);
    assert g.children != [];
    hide Full, TourOf, Nested;
    var s := Start(g);
    assert Pop(s) == [] && Here(Enter(g)) == g.children && Ids([]) == {};
    assert Placed([]) && Placed(s);
  }

  /** The nodes that a search without a match yet visits, one by one. */
  lemma NewSearchFollowsTour(g: Node, k: nat)
    requires g.Group? && Full(g) && Nested(g, {}) && k <= |TourOf(g, g.children, 1, []).visits|
    ensures var tour := TourOf(g, g.children, 1, []).visits;
            && OkScoped(NewScoped(g))
            && var t := Steps(NewScoped(g), k);
               if k == |tour| then t.pos == [] else t.pos != [] && tour[k] == Visit(Current(t.pos), |t.pos|)
  {
    hide TourOf, TourFrom, Full, Nested, Searching, OkScoped, Steps;
    NewSearch(g);
    SearchingOk(NewScoped(g));
    SearchFollowsTour(NewScoped(g), k);
  }

  // ----- what the tour goes through

  predicate AllParams(nodes: seq<Node>) {
    forall n | n in nodes :: n.Param?
  }

  /** Among alternatives that are parameters, every one is tried. */
  lemma {:induction false} AlternativesAllTried(g: Node, nodes: seq<Node>, level: nat, last: seq<Context>)
    requires g.Group? && g.isExclusive && Ok(last) && AllParams(nodes)
    ensures TourOf(g, nodes, level, last).visits == Preorder(nodes, level)
    decreases nodes
  {
    hide Blocking, Ok;
    if nodes != [] {
      assert nodes[0] in nodes;
      AlternativesAllTried(g, nodes[1..], level, last);
      assert Subtree(nodes[0], level) == [Visit(nodes[0], level)];
      if |nodes| == 1 {
        assert nodes[1..] == [];
      }
    }
  }

  /** In a sequence of parameters without a match, those up to the first blocking one are. */
  lemma {:induction false} SequenceStops(g: Node, nodes: seq<Node>, level: nat, k: nat)
    requires g.Group? && !g.isExclusive && AllParams(nodes) && k < |nodes|
    requires forall j | 0 <= j < k :: !Blocking(nodes[j])
    requires Blocking(nodes[k]) || k == |nodes| - 1
    ensures Ok([]) && TourOf(g, nodes, level, []).visits == Preorder(nodes[..k + 1], level)
    decreases k
  {
    assert nodes[0] in nodes;
    var n, taken := nodes[0], nodes[..k + 1];
    assert taken[0] == n && taken[1..] == nodes[1..][..k];
    assert Subtree(n, level) == [Visit(n, level)];
    if k == 0 {
      assert Preorder([], level + 0) == [];
    } else {
      SequenceStops(g, nodes[1..], level, k - 1);
    }
  }

  /** A blocking group that ends with a parameter nobody matched hides its later siblings; one that does not block hides
      nothing. */
  lemma ExploredGroupHides(g: Node, n: Node, rest: seq<Node>, level: nat)
    requires g.Group? && n.Group? && rest != []
    ensures Ok([])
    ensures var inner := TourOf(n, n.children, level + 1, []);
            TourOf(g, [n] + rest, level, []).visits
            == [Visit(n, level)] + inner.visits + if inner.explored && Blocking(n) then [] else TourOf(g, rest, level, []).visits
  {
    var nodes := [n] + rest;
    assert nodes[0] == n && nodes[1..] == rest;
    hide Blocking;
  }

  // ----- matching

  predicate Accepts(v: Visit, accept: Node -> bool) {
    v.node.Param? && accept(v.node)
  }

  /** So a full match is the first parameter of the tour that accepts, and no match means that none does. */
  lemma FirstInTour(t: Scoped, accept: Node -> bool, k: nat)
    requires Searching(t)
    requires forall j | 0 <= j < k :: Steps(t, j).pos != [] && !Hit(Steps(t, j), accept)
    requires Steps(t, k).pos == [] || Hit(Steps(t, k), accept)
    ensures var tour := TourFrom(t.pos, t.lastMatch);
            && k <= |tour| && (forall j | 0 <= j < k :: !Accepts(tour[j], accept))
            && if Hit(Steps(t, k), accept) then k < |tour| && Accepts(tour[k], accept) else k == |tour|
  {
    hide Advanced, TourFrom, Searching, OkScoped, Steps;
    SearchingOk(t);
    var tour := TourFrom(t.pos, t.lastMatch);
    if |tour| < k {
      SearchFollowsTour(t, |tour|);
    }
    SearchFollowsTour(t, k);
    forall j | 0 <= j < k
      ensures !Accepts(tour[j], accept)
    {
      SearchFollowsTour(t, j);
    }
  }
}
