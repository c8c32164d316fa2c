/** Matching one argument as a sequence of blocking parameters written without separators. */
module ClippJoined {
  import opened Clipp
  import opened ClippScoped
  import opened Options
  import T = ClippTours

  /** A piece of the argument and the parameter it was matched with, by way of which group. */
  datatype Piece = Piece(text: string, node: Node, group: nat)

  /** How much of a string a parameter matches from its beginning; 0 for nothing. */
  type Matcher = (Node, string) -> nat

  ghost predicate Sound(matcher: Matcher) {
    forall n, s :: matcher(n, s) <= |s|
  }

  /** The pieces come one after the other in `arg`, leaving `rest`; each is what its parameter matches of
      the text from there on, and all parameters block and are in one group. */
  ghost predicate Covers(pieces: seq<Piece>, arg: string, rest: string, matcher: Matcher, group: nat)
    decreases |pieces|
  {
    if pieces == [] then arg == rest
    else
      var p := pieces[0];
      && p.text <= arg && 0 < |p.text| == matcher(p.node, arg)
      && p.group == group && p.node.Param? && Blocking(p.node)
      && Covers(pieces[1..], arg[|p.text|..], rest, matcher, group)
  }

  function Text(pieces: seq<Piece>): string {
    if pieces == [] then "" else pieces[0].text + Text(pieces[1..])
  }

  /** Put together, the pieces are the argument. */
  lemma {:induction false} CoversIsText(pieces: seq<Piece>, arg: string, matcher: Matcher, group: nat)
    requires Covers(pieces, arg, "", matcher, group)
    ensures Text(pieces) == arg
    decreases |pieces|
  {
    if pieces != [] {
      CoversIsText(pieces[1..], arg[|pieces[0].text|..], matcher, group);
    }
  }

  /** What the loop makes of `rest` from a position: each parameter in turn, a repeatable one as often as it
      matches, a single one once and not in vain; nothing, if it leaves the group before the text ends. */
  ghost function Sequence(t: Scoped, rest: string, matcher: Matcher, group: nat): Option<seq<Piece>>
    requires OkScoped(t) && Sound(matcher)
    decreases |rest|, |t.scopes|, |Rest(t.pos)|
  {
    if rest == "" then Some([])
    else if !Usable(t, group) then None
    else
      var n := Current(t.pos);
      var length := matcher(n, rest);
      AdvancedIsSmaller(t);
      if 0 < length then
        Extended([Piece(rest[..length], n, group)],
                 Sequence(if n.isRepeatable then t else Advanced(t), rest[length..], matcher, group))
      else if n.isRepeatable then Sequence(Advanced(t), rest, matcher, group)
      else None
  }

  predicate Usable(t: Scoped, group: nat)
    requires OkScoped(t)
  {
    t.pos != [] && Blocking(Current(t.pos)) && Current(t.pos).Param? && Top(t.pos).parent.id == group
  }

  function Extended(pieces: seq<Piece>, more: Option<seq<Piece>>): Option<seq<Piece>> {
    match more case None => None case Some(ps) => Some(pieces + ps)
  }

  /** From the first parameter on. */
  ghost function Accepts(t: Scoped, arg: string, matcher: Matcher): Option<seq<Piece>>
    requires OkScoped(t) && t.pos != [] && Sound(matcher) && Current(t.pos).Param?
  {
    var first, group := Current(t.pos), Top(t.pos).parent.id;
    if !Blocking(first) then None
    else
      Unblocked(t);
      var t0 := t.(ignoreBlocks := true);
      AdvancedIsSmaller(t0);
      var length := matcher(first, arg);
      Extended([Piece(arg[..length], first, group)],
               Sequence(if first.isRepeatable then t0 else Advanced(t0), arg[length..], matcher, group))
  }

  /** Accepted pieces cover the text. */
  lemma {:induction false} SequenceCovers(t: Scoped, rest: string, matcher: Matcher, group: nat)
    requires OkScoped(t) && Sound(matcher)
    ensures var r := Sequence(t, rest, matcher, group); r.Some? ==> Covers(r.value, rest, "", matcher, group)
    decreases |rest|, |t.scopes|, |Rest(t.pos)|
  {
    hide Advanced, Rest, OkScoped, Blocking;
    OkPositions(t);
    if rest != "" && Usable(t, group) {
      var n := Current(t.pos);
      var length := matcher(n, rest);
      AdvancedIsSmaller(t);
      OkPositions(Advanced(t));
      if 0 < length {
        var next := if n.isRepeatable then t else Advanced(t);
        SequenceCovers(next, rest[length..], matcher, group);
        var more := Sequence(next, rest[length..], matcher, group);
        if more.Some? {
          assert ([Piece(rest[..length], n, group)] + more.value)[1..] == more.value;
        }
      } else if n.isRepeatable {
        SequenceCovers(Advanced(t), rest, matcher, group);
      }
    }
  }

  lemma AcceptedCovers(t: Scoped, arg: string, matcher: Matcher)
    requires OkScoped(t) && t.pos != [] && Sound(matcher) && Current(t.pos).Param? && 0 < matcher(Current(t.pos), arg)
    ensures var r := Accepts(t, arg, matcher);
            r.Some? ==> r.value != [] && r.value[0].node == Current(t.pos)
                        && Covers(r.value, arg, "", matcher, Top(t.pos).parent.id)
  {
    var first, group := Current(t.pos), Top(t.pos).parent.id;
    if Blocking(first) {
      Unblocked(t);
      var t0 := t.(ignoreBlocks := true);
      AdvancedIsSmaller(t0);
      hide Advanced, OkScoped, Blocking, Sequence;
      var length := matcher(first, arg);
      var next := if first.isRepeatable then t0 else Advanced(t0);
      SequenceCovers(next, arg[length..], matcher, group);
      var more := Sequence(next, arg[length..], matcher, group);
      if more.Some? {
        assert ([Piece(arg[..length], first, group)] + more.value)[1..] == more.value;
      }
    }
  }

  lemma AcceptsIs(t: Scoped, arg: string, matcher: Matcher)
    requires OkScoped(t) && t.pos != [] && Sound(matcher) && Current(t.pos).Param? && 0 < matcher(Current(t.pos), arg)
    ensures var first, group, t0 := Current(t.pos), Top(t.pos).parent.id, t.(ignoreBlocks := true);
            && OkScoped(t0) && OkScoped(Advanced(t0))
            && Accepts(t, arg, matcher) ==
               if !Blocking(first) then None
               else Extended([Piece(arg[..matcher(first, arg)], first, group)],
                             Sequence(if first.isRepeatable then t0 else Advanced(t0), arg[matcher(first, arg)..], matcher, group))
  {
    Unblocked(t);
    AdvancedOk(t.(ignoreBlocks := true));
    hide Advanced, OkScoped, Blocking, Sequence;
  }

  lemma SequenceStep(t: Scoped, rest: string, matcher: Matcher, group: nat)
    requires OkScoped(t) && Sound(matcher)
    ensures OkScoped(Advanced(t))
    ensures Sequence(t, rest, matcher, group) ==
            if rest == "" then Some([])
            else if !Usable(t, group) then None
            else
              var n := Current(t.pos);
              var length := matcher(n, rest);
              if 0 < length then
                Extended([Piece(rest[..length], n, group)],
                         Sequence(if n.isRepeatable then t else Advanced(t), rest[length..], matcher, group))
              else if n.isRepeatable then Sequence(Advanced(t), rest, matcher, group)
              else None
  {
    AdvancedOk(t);
    hide Advanced, OkScoped, Blocking;
  }

  /** `parser::try_match_joined_sequence` once the first parameter is found: `t` stands at it, and it
      matches a proper, non-empty prefix of the argument.  Accepts exactly if pieces are found for all of it. */
  method MatchJoinedSequence(t: ScopedTraverser, arg: string, matcher: Matcher) returns (ok: bool, pieces: seq<Piece>)
    requires t.Valid() && t.pos.stack != [] && Sound(matcher)
    requires Current(t.pos.stack).Param? && 0 < matcher(Current(t.pos.stack), arg) < |arg|
    modifies t, t.pos
    ensures var r := Accepts(old(t.View()), arg, matcher); if ok then r == Some(pieces) else r == None
    ensures ok ==> Covers(pieces, arg, "", matcher, old(Top(t.pos.stack)).parent.id) && Text(pieces) == arg
  {
    hide Covers, Advanced, Rest, OkScoped, Blocking, Text, Accepts, Sequence;
    OkPositions(t.View());
    ghost var result := Accepts(t.View(), arg, matcher);
    AcceptedCovers(t.View(), arg, matcher);
    var first := Current(t.pos.stack);
    var group := Top(t.pos.stack).parent.id;
    if !Blocking(first) {
      AcceptsIs(t.View(), arg, matcher);
      return false, [];
    }
    t.ignoreBlocks := true;
    Unblocked(old(t.View()));
    AcceptsIs(old(t.View()), arg, matcher);
    var length := matcher(first, arg);
    pieces := [Piece(arg[..length], first, group)];
    var rest := arg[length..];
    if !first.isRepeatable {
      AdvancedIsSmaller(t.View());
      t.Increment();
    }
    OkPositions(t.View());
    while rest != "" && t.pos.stack != [] && Blocking(Current(t.pos.stack)) && Current(t.pos.stack).Param?
          && Top(t.pos.stack).parent.id == group
      invariant t.Valid() && Ok(t.pos.stack)
      invariant result == Extended(pieces, Sequence(t.View(), rest, matcher, group))
      decreases |rest|, |t.scopes|, |Rest(t.pos.stack)|
    {
      var n := Current(t.pos.stack);
      length := matcher(n, rest);
      AdvancedIsSmaller(t.View());
      SequenceStep(t.View(), rest, matcher, group);
      if 0 < length {
        ghost var p := Piece(rest[..length], n, group);
        Regroup(pieces, p, Sequence(if n.isRepeatable then t.View() else Advanced(t.View()), rest[length..], matcher, group));
        pieces := pieces + [Piece(rest[..length], n, group)];
        rest := rest[length..];
        if !n.isRepeatable {
          t.Increment();
        }
      } else {
        if !n.isRepeatable {
          return false, pieces;
        }
        t.Increment();
      }
      OkPositions(t.View());
    }
    ok := rest == "";
    SequenceStep(t.View(), rest, matcher, group);
    assert pieces + [] == pieces;
    if ok {
      CoversIsText(pieces, arg, matcher, group);
    }
  }

  lemma Regroup(pieces: seq<Piece>, p: Piece, more: Option<seq<Piece>>)
    ensures Extended(pieces, Extended([p], more)) == Extended(pieces + [p], more)
  {
    if more.Some? {
      assert pieces + ([p] + more.value) == pieces + [p] + more.value;
    }
  }

  lemma Unblocked(t: Scoped)
    requires OkScoped(t)
    ensures OkScoped(t.(ignoreBlocks := true))
  {
  }

  // ----- acceptance, told from the list of siblings

  /** The text as the siblings `nodes` take it: each in turn what it matches, a repeatable one as often as it does, a
      single one not in vain; up to the first that does not block or is a group. */
  ghost function OverNodes(nodes: seq<Node>, rest: string, matcher: Matcher, group: nat): Option<seq<Piece>>
    requires Sound(matcher)
    decreases |rest|, |nodes|
  {
    if rest == "" then Some([])
    else if nodes == [] || nodes[0].Group? || !Blocking(nodes[0]) then None
    else
      var n := nodes[0];
      var length := matcher(n, rest);
      if 0 < length then
        Extended([Piece(rest[..length], n, group)],
                 OverNodes(if n.isRepeatable then nodes else nodes[1..], rest[length..], matcher, group))
      else if n.isRepeatable then OverNodes(nodes[1..], rest, matcher, group)
      else None
  }

  /** The traverser of the loop: it ignores blocking and is in no scope. */
  ghost predicate Plain(t: Scoped) {
    OkScoped(t) && t.ignoreBlocks && t.scopes == [] && t.posAfter == [] && T.Placed(t.pos)
  }

  /** The siblings from the position on, if it is in the group. */
  function Siblings(s: seq<Context>, group: nat): seq<Node>
    requires Ok(s)
  {
    if s != [] && Top(s).parent.id == group then Here(Top(s)) else []
  }

  /** From a parameter, one step goes to the next sibling, or out of the group. */
  lemma StepsToSibling(t: Scoped, group: nat)
    requires Plain(t) && t.pos != [] && Current(t.pos).Param? && Top(t.pos).parent.id == group
    ensures Plain(Advanced(t)) && Siblings(Advanced(t).pos, group) == Behind(Top(t.pos))
    ensures Siblings(t.pos, group) == [Current(t.pos)] + Behind(Top(t.pos))
  {
    FreeStep(t);
    AdvancedOk(t);
    var s := t.pos;
    OkPop(s);
    T.PlacedSibling(s);
    T.BehindEnd(Top(s));
    Advances(Top(s));
    SiblingStep(s);
    hide Advanced, Fits, T.Nested, OkScoped, Sibling;
    if Top(s).cur + 1 < Top(s).end {
      OkPush(Pop(s), Top(s).(cur := Top(s).cur + 1));
    } else {
      LeavesGroup(Pop(s), group);
    }
    StillPlain(t);
  }

  lemma StillPlain(t: Scoped)
    requires Plain(t) && t.pos != [] && Current(t.pos).Param? && Ok(Sibling(t.pos)) && T.Placed(Sibling(t.pos))
    requires OkScoped(Advanced(t)) && Advanced(t).pos == Successor(t.pos)
    ensures Advanced(t).ignoreBlocks && Advanced(t).scopes == [] && Advanced(t).posAfter == [] && T.Placed(Advanced(t).pos)
  {
    FreeStep(t);
    hide Advanced, T.Placed;
  }

  /** Above a group there is no position in it. */
  lemma LeavesGroup(s: seq<Context>, group: nat)
    requires Ok(s) && T.Placed(s) && group !in T.Ids(s)
    ensures Ok(Sibling(s)) && Siblings(Sibling(s), group) == []
  {
    hide Fits, Ok, T.Nested;
    SiblingSkipsSubtree(s);
    SiblingParent(s);
  }

  lemma {:induction false} SiblingParent(s: seq<Context>)
    ensures Sibling(s) != [] ==> Top(Sibling(s)).parent.id in T.Ids(s)
    decreases |s|
  {
    if s != [] {
      SiblingStep(s);
      if Top(s).cur + 1 < Top(s).end {
        assert s[|s| - 1].parent.id in T.Ids(s);
      } else {
        SiblingParent(Pop(s));
        if Sibling(s) != [] {
          var i :| 0 <= i < |Pop(s)| && Pop(s)[i].parent.id == Top(Sibling(s)).parent.id;
          assert s[i].parent.id in T.Ids(s);
        }
      }
    }
  }

  /** The loop accepts exactly what the siblings take. */
  lemma {:induction false} SequenceIsOverNodes(t: Scoped, rest: string, matcher: Matcher, group: nat)
    requires Plain(t) && Sound(matcher)
    ensures OkScoped(t) && Ok(t.pos)
    ensures Sequence(t, rest, matcher, group) == OverNodes(Siblings(t.pos, group), rest, matcher, group)
    decreases |rest|, |t.scopes|, |Rest(t.pos)|
  {
    hide Advanced, Rest, Blocking, Fits, T.Placed;
    if rest != "" && t.pos != [] && Top(t.pos).parent.id == group {
      OkPop(t.pos);
      T.BehindEnd(Top(t.pos));
      if Usable(t, group) {
        StepsToSibling(t, group);
        var n := Current(t.pos);
        var length := matcher(n, rest);
        var nodes := Siblings(t.pos, group);
        assert nodes[0] == n && nodes[1..] == Behind(Top(t.pos));
        AdvancedIsSmaller(t);
        if 0 < length {
          SequenceIsOverNodes(if n.isRepeatable then t else Advanced(t), rest[length..], matcher, group);
        } else if n.isRepeatable {
          SequenceIsOverNodes(Advanced(t), rest, matcher, group);
        }
      }
    }
  }

  /** So an argument is accepted exactly if the siblings from the first parameter on take it as a whole. */
  lemma AcceptsIsOverNodes(t: Scoped, arg: string, matcher: Matcher)
    requires OkScoped(t) && t.scopes == [] && t.posAfter == [] && T.Placed(t.pos) && t.pos != [] && Sound(matcher)
    requires Current(t.pos).Param? && 0 < matcher(Current(t.pos), arg)
    ensures Accepts(t, arg, matcher) == OverNodes(Siblings(t.pos, Top(t.pos).parent.id), arg, matcher, Top(t.pos).parent.id)
  {
    var first, group := Current(t.pos), Top(t.pos).parent.id;
    Unblocked(t);
    var t0 := t.(ignoreBlocks := true);
    StepsToSibling(t0, group);
    var nodes := Siblings(t.pos, group);
    assert nodes[0] == first && nodes[1..] == Behind(Top(t.pos));
    hide Advanced, Blocking, Sequence, T.Placed, Fits;
    var rest := arg[matcher(first, arg)..];
    SequenceIsOverNodes(t0, rest, matcher, group);
    SequenceIsOverNodes(Advanced(t0), rest, matcher, group);
  }
}
