/**
 * Worked examples: the repetition a* on the input aaab, the optional idiom,
 * and the descriptions toString prints, including one for a cyclic grammar.
 */
module Examples {
  import opened Wrappers
  import opened Assemblies
  import opened Grammars
  import opened Semantics
  import opened Printing
  import Engine
  import Properties

  /** An assembly over aaab with the cursor at k and an empty stack. */
  function At(k: nat): AsmState<char, char, int>
  {
    AsmState("aaab", k, [], None)
  }

  /** The grammar a*: node 0 is the terminal a, node 1 repeats it. */
  function AStar(): Grammar<char, char, int>
  {
    map[0 := Node(None, None, Terminal(c => c == 'a', "a")),
        1 := Node(None, None, Repetition(0, None))]
  }

  lemma AStarWellFormed()
    ensures WellFormed(AStar())
  {
    assert Consuming(AStar(), 0);
  }

  /** The terminal a on one assembly over aaab: it advances while the next
      element is an a. */
  lemma TerminalOnAaab(k: nat)
    requires k <= 3
    ensures WellFormed(AStar()) && MatchAndAssemble(AStar(), 0, [At(k)]) ==
      Outcome([At(k)], if k < 3 then [At(k + 1)] else [])
  {
    AStarWellFormed();
    var q := AStar()[0].kind.qualifies;
    assert [At(k)][..0] == [];
    assert Advance(q, [At(k)]) == Advance(q, []) + if k < 3 then [At(k + 1)] else [];
  }

  /** The assemblies over aaab with cursors k + 1 up to 3. */
  function After(k: nat): seq<AsmState<char, char, int>>
    decreases 3 - k
  {
    if k < 3 then [At(k + 1)] + After(k + 1) else []
  }

  /** The rounds of a* from the cursor k on. */
  lemma {:induction false} RoundsOnAaab(k: nat)
    requires k <= 3
    ensures WellFormed(AStar()) && Rounds(AStar(), 1, 0, [At(k)]) == Outcome([At(k)], After(k))
    decreases 3 - k
  {
    AStarConsuming();
    Properties.RoundsUnfold(AStar(), 1, 0, [At(k)]);
    TerminalOnAaab(k);
    if k < 3 {
      RoundsOnAaab(k + 1);
    } else {
      Properties.RoundsUnfold(AStar(), 1, 0, []);
    }
  }

  lemma AStarConsuming()
    ensures WellFormed(AStar()) && Consuming(AStar(), 0)
  {
    AStarWellFormed();
  }

  /** a* on ^aaab yields ^aaab, a^aab, aa^ab and aaa^b, in that order. */
  lemma AStarOnAaab(a: AsmState<char, char, int>)
    requires a == At(0)
    ensures WellFormed(AStar()) && MatchAndAssemble(AStar(), 1, [a]) == Outcome([a], [a, At(1), At(2), At(3)])
  {
    AStarWellFormed();
    RoundsOnAaab(0);
    assert After(0) == [At(1), At(2), At(3)];
  }

  /** bestMatch picks aaa^b, the one that consumed most; since it did not
      consume the final b, completeMatch finds nothing. */
  lemma AStarBestMatch(a: AsmState<char, char, int>)
    requires a == At(0)
    ensures WellFormed(AStar()) && BestMatch(AStar(), 1, a) == Some(At(3))
    ensures WellFormed(AStar()) && CompleteMatch(AStar(), 1, a) == None
  {
    AStarOnAaab(a);
    var out := [a, At(1), At(2), At(3)];
    forall j | 0 <= j < 4 ensures out[j] == At(j) {
    }
    assert forall j :: 0 <= j < 4 ==> out[j].HasMoreElements() && out[j].ElementsConsumed() <= 3;
    Semantics.FirstMostCharacterised(out, 3);
    Semantics.BestIndexUnfinished(out);
  }

  /** The same match on assembly objects: four fresh assemblies with cursors
      0, 1, 2 and 3, and the input assembly as it was. */
  method AStarOnObjects() returns (a: Assembly<char, char, int>, out: seq<Assembly<char, char, int>>)
    ensures fresh(a) && a.State() == At(0)
    ensures |out| == 4 && forall j :: 0 <= j < 4 ==> fresh(out[j]) && out[j].State() == At(j)
  {
    a := new Assembly("aaab");
    ghost var start := a.State();
    AStarOnAaab(start);
    assert Engine.States([a]) == [start];
    out := Engine.MatchAndAssemble(AStar(), 1, [a]);
    assert Engine.States(out) == [At(0), At(1), At(2), At(3)];
    assert [a.State()] == Engine.States([a]);
  }

  /** The optional idiom: a | empty. */
  function Optional(): Grammar<char, char, int>
  {
    map[0 := Node(None, None, Empty),
        1 := Node(None, None, Terminal(c => c == 'a', "a")),
        2 := Node(None, None, Alternation([1, 0]))]
  }

  lemma OptionalWellFormed()
    ensures WellFormed(Optional())
  {
  }

  /** a | empty on ^aaab yields a^aab and, from the Empty alternative,
      ^aaab itself. */
  lemma OptionalOnAaab()
    ensures WellFormed(Optional()) && MatchAndAssemble(Optional(), 2, [At(0)]).out == [At(1), At(0)]
  {
    OptionalWellFormed();
    var q := Optional()[1].kind.qualifies;
    assert [At(0)][..0] == [];
    assert Advance(q, [At(0)]) == [At(1)];
    assert [1, 0][1..] == [0];
    assert [1, 0][1..][1..] == [];
  }

  /** A repetition prints its subparser followed by a star. */
  lemma AStarDescription()
    ensures WellFormed(AStar()) && Describe(AStar(), 1) == "a*"
  {
    AStarWellFormed();
    var g := AStar();
    assert ToString(g, 0, [1]) == Printed("a", [1, 0]);
    assert [] + [1] == [1];
    assert UnvisitedString(g, 1, [1]) == Printed("a" + "*", [1, 0]);
    assert "a" + "*" == "a*";
  }

  /** An alternation separates its alternatives with a bar; an Empty node
      prints " empty ". */
  lemma OptionalDescription()
    ensures WellFormed(Optional()) && Describe(Optional(), 2) == "a| empty "
  {
    OptionalWellFormed();
    var h := Optional();
    assert [1, 0][1..] == [0];
    assert ToString(h, 1, [2]) == Printed("a", [2, 1]);
    assert ToString(h, 0, [2, 1]) == Printed(" empty ", [2, 1, 0]);
    assert Join(h, [1, 0], [2]) == Printed("a" + "|" + " empty ", [2, 1, 0]);
    assert [] + [2] == [2];
    assert UnvisitedString(h, 2, [2]) == Printed("a" + "|" + " empty ", [2, 1, 0]);
    assert "a" + "|" + " empty " == "a| empty ";
  }

  /** A grammar that refers to itself: node 0 is the alternation of itself
      and Empty. The walk stops at the second visit and prints "...". */
  function Cyclic(): Grammar<char, char, int>
  {
    map[0 := Node(None, None, Alternation([0, 1])),
        1 := Node(None, None, Empty)]
  }

  lemma CyclicDescription()
    ensures Closed(Cyclic()) && Describe(Cyclic(), 0) == "...| empty "
  {
    var g := Cyclic();
    assert [0, 1][1..] == [1];
    assert ToString(g, 0, [0]) == Printed("...", [0]);
    assert ToString(g, 1, [0]) == Printed(" empty ", [0, 1]);
    assert Join(g, [1], [0]) == Printed(" empty ", [0, 1]);
    assert [] + [0] == [0];
    assert Join(g, [0, 1], [0]) == Printed("..." + "|" + " empty ", [0, 1]);
    assert UnvisitedString(g, 0, [0]) == Printed("..." + "|" + " empty ", [0, 1]);
    assert ToString(g, 0, []) == Printed("..." + "|" + " empty ", [0, 1]);
    assert "..." + "|" + " empty " == "...| empty ";
  }
}
