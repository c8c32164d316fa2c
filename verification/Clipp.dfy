/** The command-line tree of clipp and its depth-first traverser.  The traverser keeps an explicit stack of
    contexts; here it is related to the recursion it replaces. */
module Clipp {
  import opened Options

  /** A parameter or a group.  `id` stands for the address, by which nodes are compared. */
  datatype Node =
    | Param(id: nat, isRequired: bool, isBlocking: bool, isRepeatable: bool)
    | Group(id: nat, isExclusive: bool, isBlocking: bool, isRepeatable: bool, children: seq<Node>)

  predicate Blocking(n: Node) {
    match n
    case Param(_, _, _, _) => n.isBlocking
    case Group(_, _, _, _, children) => n.isBlocking || (n.isExclusive && forall k | 0 <= k < |children| :: Blocking(children[k]))
  }

  predicate Required(n: Node) {
    match n
    case Param(_, _, _, _) => n.isRequired
    case Group(_, _, _, _, children) =>
      if n.isExclusive then forall k | 0 <= k < |children| :: Required(children[k])
      else exists k | 0 <= k < |children| :: Required(children[k])
  }

  predicate AllRequired(nodes: seq<Node>) {
    forall k | 0 <= k < |nodes| :: Required(nodes[k])
  }

  predicate AnyRequired(nodes: seq<Node>) {
    exists k | 0 <= k < |nodes| :: Required(nodes[k])
  }

  /** No group in the tree is empty. */
  predicate Full(n: Node) {
    n.Group? ==> n.children != [] && forall k | 0 <= k < |n.children| :: Full(n.children[k])
  }

  // ----- the recursion

  datatype Visit = Visit(node: Node, level: nat)

  function Subtree(n: Node, level: nat): (r: seq<Visit>)
    ensures r != []
    decreases n
  {
    [Visit(n, level)] + if n.Group? then Preorder(n.children, level + 1) else []
  }

  function Preorder(nodes: seq<Node>, level: nat): seq<Visit>
    decreases nodes
  {
    if nodes == [] then [] else Subtree(nodes[0], level) + Preorder(nodes[1..], level)
  }

  // ----- the stack

  /** A position among the children of `parent`, of which only those before `end` are visited. */
  datatype Context = Context(parent: Node, cur: nat, end: nat)

  predicate Fits(c: Context) {
    c.parent.Group? && c.cur < c.end <= |c.parent.children| && Full(c.parent)
  }

  predicate Ok(s: seq<Context>) {
    forall i | 0 <= i < |s| :: Fits(s[i])
  }

  function Top(s: seq<Context>): Context
    requires s != []
  {
    s[|s| - 1]
  }

  function Current(s: seq<Context>): Node
    requires s != [] && Ok(s)
  {
    Top(s).parent.children[Top(s).cur]
  }

  function Enter(g: Node): Context
    requires g.Group?
  {
    Context(g, 0, |g.children|)
  }

  function Start(g: Node): seq<Context>
    requires g.Group?
  {
    if g.children == [] then [] else [Enter(g)]
  }

  /** To the next sibling; where there is none, to the next sibling of the nearest ancestor that has one. */
  function Sibling(s: seq<Context>): seq<Context> {
    if s == [] then []
    else if Top(s).cur + 1 < Top(s).end then s[|s| - 1 := Top(s).(cur := Top(s).cur + 1)]
    else Sibling(s[..|s| - 1])
  }

  /** `operator ++`. */
  function Successor(s: seq<Context>): seq<Context>
    requires Ok(s)
  {
    if s == [] then []
    else if Current(s).Group? then s + [Enter(Current(s))]
    else Sibling(s)
  }

  function PastSiblings(s: seq<Context>): seq<Context> {
    if s == [] then [] else Sibling(s[..|s| - 1])
  }

  // ----- what is left to visit

  function Pop(s: seq<Context>): seq<Context>
    requires s != []
  {
    s[..|s| - 1]
  }

  /** The nodes of a context from the current one on, and those after it. */
  function Here(c: Context): seq<Node>
    requires Fits(c)
  {
    c.parent.children[c.cur..c.end]
  }

  function Behind(c: Context): seq<Node>
    requires Fits(c)
  {
    c.parent.children[c.cur + 1..c.end]
  }

  /** The visits after the subtree at the current position. */
  function Later(s: seq<Context>): seq<Visit>
    requires Ok(s)
    decreases |s|
  {
    if s == [] then [] else Preorder(Behind(Top(s)), |s|) + Later(Pop(s))
  }

  /** All visits from the current position on. */
  function Rest(s: seq<Context>): seq<Visit>
    requires Ok(s)
  {
    if s == [] then [] else Preorder(Here(Top(s)), |s|) + Later(Pop(s))
  }

  lemma OkPush(s: seq<Context>, c: Context)
    requires Ok(s) && Fits(c)
    ensures Ok(s + [c]) && Top(s + [c]) == c && Pop(s + [c]) == s
  {
    hide Fits;
  }

  lemma OkPop(s: seq<Context>)
    requires Ok(s) && s != []
    ensures Ok(Pop(s)) && Fits(Top(s)) && s == Pop(s) + [Top(s)]
  {
    hide Fits;
  }

  lemma EnterFits(s: seq<Context>)
    requires Ok(s) && s != [] && Current(s).Group?
    ensures Fits(Enter(Current(s))) && Here(Enter(Current(s))) == Current(s).children
  {
    var top := Top(s);
    assert Full(top.parent.children[top.cur]);
  }

  lemma HereSplits(c: Context, level: nat)
    requires Fits(c)
    ensures Preorder(Here(c), level) == Subtree(c.parent.children[c.cur], level) + Preorder(Behind(c), level)
  {
    assert Here(c)[1..] == Behind(c);
  }

  lemma Advances(c: Context)
    requires Fits(c)
    ensures c.cur + 1 < c.end ==> Fits(c.(cur := c.cur + 1)) && Here(c.(cur := c.cur + 1)) == Behind(c)
    ensures c.cur + 1 >= c.end ==> Behind(c) == []
  {
  }

  lemma TopFits(s: seq<Context>)
    requires Ok(s) && s != []
    ensures Top(s).cur < Top(s).end
  {
  }

  lemma OnTop(s: seq<Context>, c: Context)
    ensures Pop(s + [c]) == s && Top(s + [c]) == c
  {
  }

  /** What `Sibling` does to the top context. */
  lemma SiblingStep(s: seq<Context>)
    requires s != []
    ensures Sibling(s) == if Top(s).cur + 1 < Top(s).end then Pop(s) + [Top(s).(cur := Top(s).cur + 1)] else Sibling(Pop(s))
  {
    if Top(s).cur + 1 < Top(s).end {
      assert s[|s| - 1 := Top(s).(cur := Top(s).cur + 1)] == Pop(s) + [Top(s).(cur := Top(s).cur + 1)];
    }
  }

  /** `next_sibling` lands on the first node after the subtree of the current one. */
  lemma {:induction false} SiblingSkipsSubtree(s: seq<Context>)
    requires Ok(s)
    ensures Ok(Sibling(s)) && Rest(Sibling(s)) == Later(s)
    decreases |s|
  {
    hide Fits, Preorder, Here, Behind, Ok;
    if s != [] {
      OkPop(s);
      SiblingStep(s);
      Advances(Top(s));
      hide Sibling;
      if Top(s).cur + 1 < Top(s).end {
        OkPush(Pop(s), Top(s).(cur := Top(s).cur + 1));
      } else {
        EmptyPreorder(|s|);
        SiblingSkipsSubtree(Pop(s));
      }
    } else {
      Empty();
    }
  }

  lemma Empty()
    ensures Ok([])
  {
  }

  lemma EmptyPreorder(level: nat)
    ensures Preorder([], level) == []
  {
  }

  lemma SubtreeShape(n: Node, level: nat)
    ensures Subtree(n, level) == [Visit(n, level)] + if n.Group? then Preorder(n.children, level + 1) else []
  {
  }

  lemma RestSplits(s: seq<Context>)
    requires Ok(s) && s != []
    ensures Rest(s) == Subtree(Current(s), |s|) + Later(s)
  {
    HereSplits(Top(s), |s|);
    hide Subtree, Preorder, Fits, Here, Behind, Ok;
    Regroup(Subtree(Current(s), |s|), Preorder(Behind(Top(s)), |s|), Later(Pop(s)));
  }

  lemma Regroup(a: seq<Visit>, b: seq<Visit>, c: seq<Visit>)
    ensures a + b + c == a + (b + c)
  {
  }

  lemma EnteredRest(s: seq<Context>)
    requires Ok(s) && s != [] && Current(s).Group?
    ensures Ok(Successor(s)) && Rest(Successor(s)) == Preorder(Current(s).children, |s| + 1) + Later(s)
  {
    hide Preorder, Fits, Here, Ok, Later, Enter;
    EnterFits(s);
    OkPush(s, Enter(Current(s)));
  }

  /** `++` visits the current node and nothing else. */
  lemma NextVisitsOne(s: seq<Context>)
    requires Ok(s) && s != []
    ensures Ok(Successor(s)) && Rest(s) == [Visit(Current(s), |s|)] + Rest(Successor(s))
  {
    hide Subtree, Preorder, Fits, Ok, Later, Rest;
    RestSplits(s);
    SubtreeShape(Current(s), |s|);
    if Current(s).Group? {
      EnteredRest(s);
      Regroup([Visit(Current(s), |s|)], Preorder(Current(s).children, |s| + 1), Later(s));
    } else {
      SiblingSkipsSubtree(s);
      assert [Visit(Current(s), |s|)] + [] == [Visit(Current(s), |s|)];
    }
  }

  /** From the beginning, all nodes below the root are left, in preorder, each at its depth. */
  lemma StartVisitsAll(g: Node)
    requires g.Group? && Full(g)
    ensures Ok(Start(g)) && Rest(Start(g)) == Preorder(g.children, 1)
  {
    var s := Start(g);
    assert Here(Enter(g)) == g.children && Pop(s) == [];
  }

  lemma SuccessorOk(s: seq<Context>)
    requires Ok(s)
    ensures Ok(Successor(s)) && (s != [] ==> |Rest(Successor(s))| + 1 == |Rest(s)|)
  {
    if s != [] {
      NextVisitsOne(s);
    }
  }

  lemma NothingLeft()
    ensures Ok([]) && Rest([]) == []
  {
  }

  // ----- undo points and ancestors

  /** `level` is the height of the stack; the context is its top, if there is one. */
  datatype Memento = Memento(level: nat, context: Context)

  const NOWHERE := Context(Param(0, false, false, false), 0, 0)

  predicate FitsMemento(m: Memento) {
    0 < m.level ==> Fits(m.context)
  }

  function UndoPoint(s: seq<Context>): Memento {
    Memento(|s|, if s == [] then NOWHERE else Top(s))
  }

  function Undo(s: seq<Context>, m: Memento): seq<Context> {
    if m.level < 1 then s
    else if m.level <= |s| then s[..m.level - 1] + [m.context]
    else if s == [] && m.level == 1 then [m.context]
    else s
  }

  /** Pops until the current node is the group `g`, or nothing is left. */
  function BackTo(s: seq<Context>, g: Node): seq<Context>
    requires Ok(s)
    decreases |s|
  {
    if s == [] || (Current(s).Group? && Current(s).id == g.id) then s
    else OkPop(s); BackTo(Pop(s), g)
  }

  lemma UndoOk(s: seq<Context>, m: Memento)
    requires Ok(s) && FitsMemento(m)
    ensures Ok(Undo(s, m))
  {
    hide Fits;
  }

  // ----- the traverser as the object it is

  class DepthFirstTraverser {
    var stack: seq<Context>

    ghost predicate Valid()
      reads this
    {
      Ok(stack)
    }

    constructor (g: Node)
      requires g.Group? && Full(g)
      ensures Valid() && stack == Start(g)
    {
      stack := if g.children == [] then [] else [Enter(g)];
    }

    /** `++stack_.back().cur`, which may leave the position at the end of its group. */
    method Advance()
      requires Valid() && stack != []
      modifies this
      ensures stack != [] && Ok(Pop(stack)) && Top(stack).cur <= Top(stack).end
      ensures Sibling(old(stack)) == if Top(stack).cur < Top(stack).end then stack else Sibling(Pop(stack))
      ensures |stack| == |old(stack)| && (Top(stack).cur < Top(stack).end ==> Valid())
    {
      hide Ok, Fits, Sibling;
      OkPop(stack);
      SiblingStep(stack);
      Advances(Top(stack));
      TopFits(stack);
      ghost var moved := Top(stack).(cur := Top(stack).cur + 1);
      if Fits(moved) {
        OkPush(Pop(stack), moved);
      }
      OnTop(Pop(stack), moved);
      stack := Pop(stack) + [Top(stack).(cur := Top(stack).cur + 1)];
    }

    method NextSibling()
      requires Valid()
      modifies this
      ensures Valid() && stack == Sibling(old(stack))
    {
      hide Ok, Fits;
      Empty();
      if stack == [] {
        return;
      }
      Advance();
      while Top(stack).cur == Top(stack).end
        invariant stack != [] && Ok(Pop(stack)) && Top(stack).cur <= Top(stack).end
        invariant Sibling(old(stack)) == if Top(stack).cur < Top(stack).end then stack else Sibling(Pop(stack))
        invariant Top(stack).cur < Top(stack).end ==> Valid()
        decreases |stack|
      {
        stack := Pop(stack);
        if stack == [] {
          return;
        }
        Advance();
      }
    }

    method Increment()
      requires Valid()
      modifies this
      ensures Valid() && stack == Successor(old(stack))
    {
      if stack == [] {
        return;
      }
      SuccessorOk(stack);
      if Current(stack).Group? {
        stack := stack + [Enter(Current(stack))];
      } else {
        NextSibling();
      }
    }

    method NextAfterSiblings()
      requires Valid()
      modifies this
      ensures Valid() && stack == PastSiblings(old(stack))
    {
      if stack == [] {
        return;
      }
      OkPop(stack);
      var top := Top(stack);
      var last := top.(cur := top.end - 1);
      OkPush(Pop(stack), last);
      SiblingStep(Pop(stack) + [last]);
      stack := Pop(stack) + [last];
      NextSibling();
    }

    method BackToAncestor(g: Option<Node>)
      requires Valid()
      modifies this
      ensures Valid() && stack == if g.None? then old(stack) else BackTo(old(stack), g.value)
    {
      hide Ok, Fits;
      if g.None? {
        return;
      }
      while stack != []
        invariant Valid() && BackTo(old(stack), g.value) == BackTo(stack, g.value)
        decreases |stack|
      {
        OkPop(stack);
        if Current(stack).Group? && Current(stack).id == g.value.id {
          return;
        }
        stack := Pop(stack);
      }
    }

    method GoBack(m: Memento)
      requires Valid() && FitsMemento(m)
      modifies this
      ensures Valid() && stack == Undo(old(stack), m)
    {
      UndoOk(stack, m);
      if m.level < 1 {
        return;
      }
      if m.level <= |stack| {
        stack := stack[..m.level];
        stack := stack[|stack| - 1 := m.context];
        assert stack == old(stack)[..m.level - 1] + [m.context];
      } else if stack == [] && m.level == 1 {
        stack := stack + [m.context];
      }
    }

    /** Visiting and incrementing until nothing is left sees the whole tree in preorder, and `level()` is
        the depth. */
    method Walk() returns (visits: seq<Visit>)
      requires Valid()
      modifies this
      ensures visits == Rest(old(stack)) && stack == []
    {
      hide Rest, Fits, Ok, Successor;
      visits := [];
      NothingLeft();
      while stack != []
        invariant Valid() && Rest(old(stack)) == visits + Rest(stack)
        decreases |Rest(stack)|
      {
        NextVisitsOne(stack);
        Regroup(visits, [Visit(Current(stack), |stack|)], Rest(Successor(stack)));
        visits := visits + [Visit(Current(stack), |stack|)];
        Increment();
      }
    }
  }

  // ----- required parameters that may be missed

  /** The test that keeps the search out of a group. */
  predicate Skipped(g: Node)
    requires g.Group?
  {
    !AnyRequired(g.children) || (g.isExclusive && !AllRequired(g.children))
  }

  /** For a group with children it says that the group is not required. */
  lemma SkippedIffOptional(g: Node)
    requires g.Group? && g.children != []
    ensures Skipped(g) <==> !Required(g)
  {
    if g.isExclusive && AllRequired(g.children) {
      assert Required(g.children[0]);
    }
  }

  /** The required parameters of a sibling list that can be reached: an optional blocking parameter hides
      the siblings after it, a group that is not required hides its children. */
  function Misses(nodes: seq<Node>): seq<Node>
    decreases nodes
  {
    if nodes == [] then []
    else
      var n := nodes[0];
      match n
      case Group(_, _, _, _, children) => (if Skipped(n) then [] else Misses(children)) + Misses(nodes[1..])
      case Param(_, _, _, _) =>
        if n.isRequired then [n] + Misses(nodes[1..])
        else if n.isBlocking then []
        else Misses(nodes[1..])
  }

  function LaterMisses(s: seq<Context>, base: nat): seq<Node>
    requires Ok(s)
    decreases |s|
  {
    if s == [] || |s| < base then [] else Misses(Behind(Top(s))) + LaterMisses(Pop(s), base)
  }

  /** What the search still finds from a position, not leaving level `base`. */
  function RestMisses(s: seq<Context>, base: nat): seq<Node>
    requires Ok(s)
  {
    if s == [] || |s| < base then [] else Misses(Here(Top(s))) + LaterMisses(Pop(s), base)
  }

  lemma {:induction false} SiblingMisses(s: seq<Context>, base: nat)
    requires Ok(s)
    ensures Ok(Sibling(s)) && RestMisses(Sibling(s), base) == LaterMisses(s, base)
    decreases |s|
  {
    hide Fits, Misses, Here, Behind, Ok;
    if s == [] {
      Empty();
    } else {
      OkPop(s);
      SiblingStep(s);
      Advances(Top(s));
      hide Sibling;
      if Top(s).cur + 1 < Top(s).end {
        OkPush(Pop(s), Top(s).(cur := Top(s).cur + 1));
      } else {
        NoMisses();
        SiblingMisses(Pop(s), base);
        if |s| < base {
          ShortMisses(Pop(s), base);
        }
      }
    }
  }

  lemma NoMisses()
    ensures Misses([]) == []
  {
  }

  lemma ShortMisses(s: seq<Context>, base: nat)
    requires Ok(s) && |s| < base
    ensures LaterMisses(s, base) == []
  {
  }

  /** One step of the search: what it reports, and where it goes on. */
  function Reported(s: seq<Context>): seq<Node>
    requires Ok(s) && s != []
  {
    if Current(s).Param? && Current(s).isRequired then [Current(s)] else []
  }

  function Onward(s: seq<Context>): seq<Context>
    requires Ok(s) && s != []
  {
    var n := Current(s);
    if n.Group? then if Skipped(n) then Sibling(s) else Successor(s)
    else if n.isRequired || !n.isBlocking then Successor(s)
    else PastSiblings(s)
  }

  lemma MissesSplit(c: Context)
    requires Fits(c)
    ensures var n := c.parent.children[c.cur];
            Misses(Here(c)) ==
              if n.Group? then (if Skipped(n) then [] else Misses(n.children)) + Misses(Behind(c))
              else if n.isRequired then [n] + Misses(Behind(c))
              else if n.isBlocking then []
              else Misses(Behind(c))
  {
    assert Here(c)[1..] == Behind(c);
  }

  lemma EnteredMisses(s: seq<Context>, base: nat)
    requires Ok(s) && s != [] && Current(s).Group? && base <= |s|
    ensures Ok(Successor(s)) && RestMisses(Successor(s), base) == Misses(Current(s).children) + LaterMisses(s, base)
  {
    hide Misses, Fits, Here, Ok, LaterMisses, Enter;
    EnterFits(s);
    OkPush(s, Enter(Current(s)));
  }

  /** Wherever the search goes, less is left to visit. */
  lemma MovesOn(s: seq<Context>)
    requires Ok(s) && s != []
    ensures Ok(Successor(s)) && |Rest(Successor(s))| < |Rest(s)|
    ensures Ok(Sibling(s)) && |Rest(Sibling(s))| < |Rest(s)|
    ensures Ok(PastSiblings(s)) && |Rest(PastSiblings(s))| < |Rest(s)|
  {
    OkPop(s);
    RestSplits(s);
    SuccessorOk(s);
    SiblingSkipsSubtree(s);
    SiblingSkipsSubtree(Pop(s));
    LaterGrows(s);
    hide Fits, Ok, Rest, Subtree, Preorder, Sibling, Successor, Later;
  }

  lemma LaterGrows(s: seq<Context>)
    requires Ok(s) && s != []
    ensures |Later(Pop(s))| <= |Later(s)|
  {
    hide Preorder, Fits, Ok, Behind;
  }

  lemma MissesUnfold(s: seq<Context>, base: nat)
    requires Ok(s) && s != [] && base <= |s|
    ensures RestMisses(s, base) == Misses(Here(Top(s))) + LaterMisses(Pop(s), base)
    ensures LaterMisses(s, base) == Misses(Behind(Top(s))) + LaterMisses(Pop(s), base)
  {
  }

  lemma RegroupNodes(a: seq<Node>, b: seq<Node>, c: seq<Node>)
    ensures a + b + c == a + (b + c)
  {
  }

  lemma NoneBefore(a: seq<Node>)
    ensures [] + a == a
  {
  }

  /** One step reports what it should and leaves the rest to be found. */
  lemma MissesStep(s: seq<Context>, base: nat)
    requires Ok(s) && s != [] && base <= |s|
    ensures Ok(Onward(s)) && RestMisses(s, base) == Reported(s) + RestMisses(Onward(s), base)
  {
    hide Misses, Fits, Here, Behind, Ok, Skipped, Rest, Sibling, RestMisses, LaterMisses, Successor;
    OkPop(s);
    MissesSplit(Top(s));
    MovesOn(s);
    MissesUnfold(s, base);
    SiblingMisses(s, base);
    SiblingMisses(Pop(s), base);
    NoneBefore(RestMisses(Onward(s), base));
    NoneBefore(LaterMisses(Pop(s), base));
    var n, behind, later := Current(s), Misses(Behind(Top(s))), LaterMisses(Pop(s), base);
    if n.Group? {
      if !Skipped(n) {
        EnteredMisses(s, base);
        RegroupNodes(Misses(n.children), behind, later);
      } else {
        NoneBefore(behind);
      }
    } else {
      RegroupNodes([n], behind, later);
      ParamSuccessor(s);
    }
  }

  lemma ParamSuccessor(s: seq<Context>)
    requires Ok(s) && s != [] && Current(s).Param?
    ensures Successor(s) == Sibling(s)
  {
  }

  /** `for_each_potential_miss`: what the loop collects is what the recursion finds among the siblings from
      the starting position on. */
  method ForEachPotentialMiss(pos: DepthFirstTraverser) returns (found: seq<Node>)
    requires pos.Valid()
    modifies pos
    ensures found == if old(pos.stack) == [] then [] else Misses(Here(Top(old(pos.stack))))
  {
    hide Misses, Fits, Here, Behind, Ok, Rest, Sibling, Successor, PastSiblings, RestMisses, LaterMisses, Skipped;
    var level := |pos.stack|;
    found := [];
    if pos.stack == [] {
      return;
    }
    StartMisses(pos.stack);
    ghost var all := Misses(Here(Top(pos.stack)));
    while pos.stack != [] && level <= |pos.stack|
      invariant pos.Valid() && all == found + RestMisses(pos.stack, level)
      decreases |Rest(pos.stack)|
    {
      var n := Current(pos.stack);
      MissesStep(pos.stack, level);
      MovesOn(pos.stack);
      RegroupNodes(found, Reported(pos.stack), RestMisses(Onward(pos.stack), level));
      if n.Group? {
        if Skipped(n) {
          pos.NextSibling();
        } else {
          pos.Increment();
        }
      } else if n.isRequired {
        found := found + [n];
        pos.Increment();
      } else if n.isBlocking {
        pos.NextAfterSiblings();
      } else {
        pos.Increment();
      }
    }
    MissesEnd(pos.stack, level);
  }

  lemma StartMisses(s: seq<Context>)
    requires Ok(s) && s != []
    ensures Fits(Top(s)) && RestMisses(s, |s|) == Misses(Here(Top(s)))
  {
    ShortMisses(Pop(s), |s|);
  }

  lemma MissesEnd(s: seq<Context>, base: nat)
    requires Ok(s) && (s == [] || |s| < base)
    ensures RestMisses(s, base) == []
  {
  }

  // ----- the recursion, described by paths

  /** A path leads past no optional blocking parameter, down through required groups, to a required
      parameter. */
  predicate Reaches(nodes: seq<Node>, path: seq<nat>)
    decreases |path|
  {
    && path != [] && path[0] < |nodes|
    && (forall k | 0 <= k < path[0] :: !Hides(nodes[k]))
    && var n := nodes[path[0]];
       if |path| == 1 then n.Param? && n.isRequired
       else n.Group? && Required(n) && Reaches(n.children, path[1..])
  }

  predicate Hides(n: Node) {
    n.Param? && !n.isRequired && n.isBlocking
  }

  function NodeAt(nodes: seq<Node>, path: seq<nat>): Node
    requires Reaches(nodes, path)
    decreases |path|
  {
    if |path| == 1 then nodes[path[0]] else NodeAt(nodes[path[0]].children, path[1..])
  }

  predicate AllFull(nodes: seq<Node>) {
    forall k | 0 <= k < |nodes| :: Full(nodes[k])
  }

  /** Whatever a path reaches is reported. */
  lemma {:induction false} ReachedIsReported(nodes: seq<Node>, path: seq<nat>)
    requires AllFull(nodes) && Reaches(nodes, path)
    ensures NodeAt(nodes, path) in Misses(nodes)
    decreases nodes
  {
    var n := nodes[0];
    assert Full(n);
    if path[0] == 0 {
      if |path| > 1 {
        SkippedIffOptional(n);
        ReachedIsReported(n.children, path[1..]);
      }
    } else {
      var path' := [path[0] - 1] + path[1..];
      assert !Hides(n);
      assert path'[1..] == path[1..];
      Shifted(nodes, path, path');
      ReachedIsReported(nodes[1..], path');
    }
  }

  lemma Shifted(nodes: seq<Node>, path: seq<nat>, path': seq<nat>)
    requires Reaches(nodes, path) && 0 < path[0] && path' == [path[0] - 1] + path[1..]
    ensures Reaches(nodes[1..], path') && NodeAt(nodes[1..], path') == NodeAt(nodes, path)
  {
    assert path'[1..] == path[1..];
  }

  /** Whatever is reported is reached by a path. */
  lemma {:induction false} ReportedIsReached(nodes: seq<Node>, n: Node) returns (path: seq<nat>)
    requires AllFull(nodes) && n in Misses(nodes)
    ensures Reaches(nodes, path) && NodeAt(nodes, path) == n
    decreases nodes
  {
    var m := nodes[0];
    assert Full(m);
    if m.Group? && !Skipped(m) && n in Misses(m.children) {
      SkippedIffOptional(m);
      var inner := ReportedIsReached(m.children, n);
      path := [0] + inner;
      assert path[1..] == inner;
    } else if m.Param? && m.isRequired && n == m {
      path := [0];
    } else {
      var later := ReportedIsReached(nodes[1..], n);
      path := [later[0] + 1] + later[1..];
      assert path[1..] == later[1..];
      Unshifted(nodes, later, path);
    }
  }

  lemma Unshifted(nodes: seq<Node>, later: seq<nat>, path: seq<nat>)
    requires nodes != [] && !Hides(nodes[0]) && Reaches(nodes[1..], later) && path == [later[0] + 1] + later[1..]
    ensures Reaches(nodes, path) && NodeAt(nodes, path) == NodeAt(nodes[1..], later)
  {
    assert path[1..] == later[1..];
    forall k | 0 <= k < path[0]
      ensures !Hides(nodes[k])
    {
      if k > 0 {
        assert nodes[k] == nodes[1..][k - 1];
      }
    }
  }
}
