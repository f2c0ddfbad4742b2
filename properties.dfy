/**
 * What the combinators promise, proved on the value semantics: the zero
 * repetition comes first, rounds follow in order and stop at the first empty
 * one, an alternation concatenates what its alternatives yield on the same
 * input, and Empty yields the input unchanged.
 */
module Properties {
  import opened Wrappers
  import opened Assemblies
  import opened Grammars
  import opened Semantics

  /** No repetition below the bound has a pre-assembler, so matching with
      nodes below it never changes its inputs. */
  ghost predicate NoPreAssemblersBelow<E, S, T>(g: Grammar<E, S, T>, bound: NodeId)
  {
    forall id :: id in g && id < bound && g[id].kind.Repetition? ==> g[id].kind.preAssembler.None?
  }

  /** Without pre-assemblers, matching leaves the input vector as it was. */
  lemma {:induction false} MatchKeepsInputs<E, S, T>(g: Grammar<E, S, T>, id: NodeId, ins: Vec<E, S, T>)
    requires WellFormed(g) && id in g && NoPreAssemblersBelow(g, id + 1)
    ensures Match(g, id, ins).inputs == ins
    ensures MatchAndAssemble(g, id, ins).inputs == ins
    decreases id, 2
  {
    match g[id].kind
    case Empty =>
    case Terminal(_, _) =>
    case Alternation(subs) =>
      AlternationKeepsInputs(g, id, subs, ins);
    case Repetition(sub, pre) =>
      RoundsKeepInputs(g, id, sub, ins);
  }

  lemma {:induction false} AlternationKeepsInputs<E, S, T>(g: Grammar<E, S, T>, bound: NodeId, subs: seq<NodeId>, ins: Vec<E, S, T>)
    requires WellFormed(g) && NoPreAssemblersBelow(g, bound)
    requires forall j :: 0 <= j < |subs| ==> subs[j] in g && subs[j] < bound
    ensures AlternationMatch(g, bound, subs, ins).inputs == ins
    decreases bound, 1, |subs|
  {
    if |subs| > 0 {
      MatchKeepsInputs(g, subs[0], ins);
      AlternationKeepsInputs(g, bound, subs[1..], ins);
    }
  }

  /** The rounds of a repetition leave the working vector's values as they
      were: its subparser consumes, so it holds no pre-assembler. */
  lemma RoundsKeepInputs<E, S, T>(g: Grammar<E, S, T>, bound: NodeId, sub: NodeId, s: Vec<E, S, T>)
    requires WellFormed(g) && sub in g && sub < bound && Consuming(g, sub)
    ensures Rounds(g, bound, sub, s).inputs == s
  {
    if |s| > 0 {
      ConsumingKeepsInputs(g, sub, s);
    }
  }

  /** A consuming node is built from terminals and alternations only, so no
      pre-assembler runs when it matches and its inputs keep their values. */
  lemma {:induction false} ConsumingKeepsInputs<E, S, T>(g: Grammar<E, S, T>, id: NodeId, ins: Vec<E, S, T>)
    requires WellFormed(g) && id in g && Consuming(g, id)
    ensures Match(g, id, ins).inputs == ins
    ensures MatchAndAssemble(g, id, ins).inputs == ins
    decreases id, 1
  {
    if g[id].kind.Alternation? {
      ConsumingAlternativesKeepInputs(g, id, g[id].kind.subparsers, ins);
    }
  }

  lemma {:induction false} ConsumingAlternativesKeepInputs<E, S, T>(g: Grammar<E, S, T>, bound: NodeId, subs: seq<NodeId>, ins: Vec<E, S, T>)
    requires WellFormed(g)
    requires forall j :: 0 <= j < |subs| ==> subs[j] in g && subs[j] < bound && Consuming(g, subs[j])
    ensures AlternationMatch(g, bound, subs, ins).inputs == ins
    decreases bound, 0, |subs|
  {
    if |subs| > 0 {
      ConsumingKeepsInputs(g, subs[0], ins);
      ConsumingAlternativesKeepInputs(g, bound, subs[1..], ins);
    }
  }

  /** The alternatives' outputs on one input vector, concatenated in order. */
  ghost function AllAlternatives<E, S, T>(g: Grammar<E, S, T>, subs: seq<NodeId>, ins: Vec<E, S, T>): Vec<E, S, T>
    requires WellFormed(g) && forall j :: 0 <= j < |subs| ==> subs[j] in g
  {
    if |subs| == 0 then [] else MatchAndAssemble(g, subs[0], ins).out + AllAlternatives(g, subs[1..], ins)
  }

  /** The sum of the lengths of the alternatives' outputs. */
  ghost function SumOfLengths<E, S, T>(g: Grammar<E, S, T>, subs: seq<NodeId>, ins: Vec<E, S, T>): nat
    requires WellFormed(g) && forall j :: 0 <= j < |subs| ==> subs[j] in g
  {
    if |subs| == 0 then 0 else |MatchAndAssemble(g, subs[0], ins).out| + SumOfLengths(g, subs[1..], ins)
  }

  /** Alternation.match runs every alternative on the same input vector and
      concatenates their outputs in subparser order; its length is the sum
      of theirs, and with no alternatives it is empty. */
  lemma {:induction false} AlternationConcatenates<E, S, T>(g: Grammar<E, S, T>, bound: NodeId, subs: seq<NodeId>, ins: Vec<E, S, T>)
    requires WellFormed(g) && NoPreAssemblersBelow(g, bound)
    requires forall j :: 0 <= j < |subs| ==> subs[j] in g && subs[j] < bound
    ensures AlternationMatch(g, bound, subs, ins) == Outcome(ins, AllAlternatives(g, subs, ins))
    ensures |AlternationMatch(g, bound, subs, ins).out| == SumOfLengths(g, subs, ins)
    ensures |subs| == 0 ==> AlternationMatch(g, bound, subs, ins).out == []
    decreases |subs|
  {
    if |subs| > 0 {
      MatchKeepsInputs(g, subs[0], ins);
      AlternationConcatenates(g, bound, subs[1..], ins);
    }
  }

  /** Every output of an alternative is an output of the alternation. */
  lemma {:induction false} AllAlternativesContains<E, S, T>(g: Grammar<E, S, T>, subs: seq<NodeId>, ins: Vec<E, S, T>, i: nat)
    requires WellFormed(g) && forall j :: 0 <= j < |subs| ==> subs[j] in g
    requires i < |subs|
    ensures forall a :: a in MatchAndAssemble(g, subs[i], ins).out ==> a in AllAlternatives(g, subs, ins)
    decreases i
  {
    if i > 0 {
      AllAlternativesContains(g, subs[1..], ins, i - 1);
      assert subs[1..][i - 1] == subs[i];
    }
  }

  /** The optional idiom: an alternation with an Empty alternative that has
      no assembler yields a copy of every input. */
  lemma AlternationWithEmpty<E, S, T>(g: Grammar<E, S, T>, bound: NodeId, subs: seq<NodeId>, ins: Vec<E, S, T>, i: nat)
    requires WellFormed(g) && NoPreAssemblersBelow(g, bound)
    requires forall j :: 0 <= j < |subs| ==> subs[j] in g && subs[j] < bound
    requires i < |subs| && g[subs[i]].kind.Empty? && g[subs[i]].assembler.None?
    ensures forall k :: 0 <= k < |ins| ==> ins[k] in AlternationMatch(g, bound, subs, ins).out
  {
    AlternationConcatenates(g, bound, subs, ins);
    AllAlternativesContains(g, subs, ins, i);
    assert MatchAndAssemble(g, subs[i], ins).out == ins;
  }

  /** An assembly of v has the elements and the cursor of a. */
  ghost predicate HasCursorOf<E, S, T>(v: Vec<E, S, T>, a: AsmState<E, S, T>)
  {
    exists j :: 0 <= j < |v| && v[j].elements == a.elements && v[j].index == a.index
  }

  /** The optional idiom in general: whatever the pre-assemblers and
      assemblers do to stacks and targets, an alternation with an Empty
      alternative yields an assembly at the position of every input. */
  lemma {:induction false} AlternationWithEmptyCursors<E, S, T>(g: Grammar<E, S, T>, bound: NodeId, subs: seq<NodeId>, ins: Vec<E, S, T>, i: nat)
    requires WellFormed(g)
    requires forall j :: 0 <= j < |subs| ==> subs[j] in g && subs[j] < bound
    requires i < |subs| && g[subs[i]].kind.Empty?
    ensures forall k :: 0 <= k < |ins| ==> HasCursorOf(AlternationMatch(g, bound, subs, ins).out, ins[k])
    decreases i
  {
    var first := MatchAndAssemble(g, subs[0], ins);
    var out := AlternationMatch(g, bound, subs, ins).out;
    if i == 0 {
      forall k | 0 <= k < |ins| ensures HasCursorOf(out, ins[k]) {
        assert out[k] == first.out[k];
      }
    } else {
      var rest := AlternationMatch(g, bound, subs[1..], first.inputs);
      AlternationWithEmptyCursors(g, bound, subs[1..], first.inputs, i - 1);
      forall k | 0 <= k < |ins| ensures HasCursorOf(out, ins[k]) {
        assert HasCursorOf(rest.out, first.inputs[k]);
        var j :| 0 <= j < |rest.out| && rest.out[j].elements == first.inputs[k].elements && rest.out[j].index == first.inputs[k].index;
        assert out[|first.out| + j] == rest.out[j];
      }
    }
  }

  /** Empty.match yields the input vector's values, one for one, and leaves
      the inputs alone. */
  lemma EmptyMatchesInput<E, S, T>(g: Grammar<E, S, T>, id: NodeId, ins: Vec<E, S, T>)
    requires WellFormed(g) && id in g && g[id].kind.Empty?
    ensures Match(g, id, ins) == Outcome(ins, ins)
    ensures SameCursors(MatchAndAssemble(g, id, ins).out, ins)
  {
  }

  /** Repetition.match: the clones of the pre-assembled inputs, the zero
      repetition, come first, so a non-empty input gives a non-empty output;
      a pre-assembler has worked exactly once on each of them. */
  lemma RepetitionZeroCase<E, S, T>(g: Grammar<E, S, T>, bound: NodeId, sub: NodeId,
                                    pre: Option<Assembler<E, S, T>>, ins: Vec<E, S, T>)
    requires WellFormed(g) && sub in g && sub < bound
    ensures |ins| <= |RepetitionMatch(g, bound, sub, pre, ins).out|
    ensures pre.None? ==> RepetitionMatch(g, bound, sub, pre, ins).out[..|ins|] == ins
    ensures pre.Some? ==> forall k :: 0 <= k < |ins| ==>
              RepetitionMatch(g, bound, sub, pre, ins).out[k] == pre.value.Apply(ins[k])
    ensures |ins| > 0 ==> |RepetitionMatch(g, bound, sub, pre, ins).out| > 0
  {
    var prepared := AssembleAll(pre, ins);
    var rounds := Rounds(g, bound, sub, prepared);
    assert RepetitionMatch(g, bound, sub, pre, ins).out == prepared + rounds.out;
  }

  /** A repetition leaves its input vector with the values its own
      pre-assembler gave it, and untouched when it has none. */
  lemma RepetitionInputs<E, S, T>(g: Grammar<E, S, T>, id: NodeId, ins: Vec<E, S, T>)
    requires WellFormed(g) && id in g && g[id].kind.Repetition?
    ensures Match(g, id, ins).inputs == AssembleAll(g[id].kind.preAssembler, ins)
    ensures g[id].kind.preAssembler.None? ==> Match(g, id, ins).inputs == ins
  {
    RoundsKeepInputs(g, id, g[id].kind.subparser, AssembleAll(g[id].kind.preAssembler, ins));
  }

  /** One round of a repetition over a consuming subparser: it runs on the
      working vector, its output follows the working vector's final values,
      and the next round runs on that output. No rounds run on an empty
      vector, so the rounds stop at the first round that yields nothing. */
  lemma RoundsUnfold<E, S, T>(g: Grammar<E, S, T>, bound: NodeId, sub: NodeId, s: Vec<E, S, T>)
    requires WellFormed(g) && sub in g && sub < bound && Consuming(g, sub)
    ensures |s| == 0 ==> Rounds(g, bound, sub, s) == Outcome([], [])
    ensures |s| > 0 ==>
      var round := MatchAndAssemble(g, sub, s);
      var later := Rounds(g, bound, sub, round.out);
      Rounds(g, bound, sub, s) == Outcome(round.inputs, later.inputs + later.out)
  {
    if |s| > 0 {
      RoundShrinks(g, sub, s);
    }
  }

  /** An Empty node never advances an assembly, so it is not consuming and a
      repetition of it would run forever on a non-empty input: such a
      grammar is not well formed. */
  lemma EmptyMakesNoProgress<E, S, T>(g: Grammar<E, S, T>, id: NodeId, ins: Vec<E, S, T>)
    requires WellFormed(g) && id in g && g[id].kind.Empty?
    ensures MaxBudget(MatchAndAssemble(g, id, ins).out) == MaxBudget(ins)
    ensures !Consuming(g, id)
  {
    EmptyMatchesInput(g, id, ins);
    MaxBudgetOfSameCursors(MatchAndAssemble(g, id, ins).out, ins);
  }

  lemma RepetitionOfEmptyIsNotWellFormed<E, S, T>(g: Grammar<E, S, T>, id: NodeId)
    requires Ordered(g) && id in g && g[id].kind.Repetition?
    requires g[id].kind.subparser in g && g[g[id].kind.subparser].kind.Empty?
    ensures !WellFormed(g)
  {
  }

  /** Every cursor of the vector lies within its elements. */
  ghost predicate InBounds<E, S, T>(v: Vec<E, S, T>)
  {
    forall j :: 0 <= j < |v| ==> v[j].index <= |v[j].elements|
  }

  /** The stand-in terminal only advances an assembly that has an element
      left, so it keeps cursors within bounds. */
  lemma {:induction false} AdvanceInBounds<E, S, T>(q: E -> bool, v: Vec<E, S, T>)
    requires InBounds(v)
    ensures InBounds(Advance(q, v))
  {
    if |v| > 0 {
      AdvanceInBounds(q, v[..|v| - 1]);
    }
  }

  /** Matching keeps every cursor within bounds, for the inputs and for the
      results: no combinator moves a cursor past the end of its elements. */
  lemma {:induction false} MatchAndAssembleInBounds<E, S, T>(g: Grammar<E, S, T>, id: NodeId, ins: Vec<E, S, T>)
    requires WellFormed(g) && id in g && InBounds(ins)
    ensures InBounds(MatchAndAssemble(g, id, ins).inputs)
    ensures InBounds(MatchAndAssemble(g, id, ins).out)
    decreases id, 3
  {
    MatchInBounds(g, id, ins);
  }

  lemma {:induction false} MatchInBounds<E, S, T>(g: Grammar<E, S, T>, id: NodeId, ins: Vec<E, S, T>)
    requires WellFormed(g) && id in g && InBounds(ins)
    ensures InBounds(Match(g, id, ins).inputs)
    ensures InBounds(Match(g, id, ins).out)
    decreases id, 2
  {
    match g[id].kind
    case Empty =>
    case Terminal(q, _) =>
      AdvanceInBounds(q, ins);
    case Alternation(subs) =>
      AlternationInBounds(g, id, subs, ins);
    case Repetition(sub, pre) =>
      RepetitionInBounds(g, id, sub, pre, ins);
  }

  lemma {:induction false} AlternationInBounds<E, S, T>(g: Grammar<E, S, T>, bound: NodeId, subs: seq<NodeId>, ins: Vec<E, S, T>)
    requires WellFormed(g) && InBounds(ins)
    requires forall j :: 0 <= j < |subs| ==> subs[j] in g && subs[j] < bound
    ensures InBounds(AlternationMatch(g, bound, subs, ins).inputs)
    ensures InBounds(AlternationMatch(g, bound, subs, ins).out)
    decreases bound, 1, |subs|
  {
    if |subs| > 0 {
      var first := MatchAndAssemble(g, subs[0], ins);
      MatchAndAssembleInBounds(g, subs[0], ins);
      AlternationInBounds(g, bound, subs[1..], first.inputs);
    }
  }

  lemma {:induction false} RepetitionInBounds<E, S, T>(g: Grammar<E, S, T>, bound: NodeId, sub: NodeId,
                                                       pre: Option<Assembler<E, S, T>>, ins: Vec<E, S, T>)
    requires WellFormed(g) && sub in g && sub < bound && InBounds(ins)
    ensures InBounds(RepetitionMatch(g, bound, sub, pre, ins).inputs)
    ensures InBounds(RepetitionMatch(g, bound, sub, pre, ins).out)
    decreases bound, 1, 0
  {
    var prepared := AssembleAll(pre, ins);
    RoundsInBounds(g, bound, sub, prepared);
  }

  lemma {:induction false} RoundsInBounds<E, S, T>(g: Grammar<E, S, T>, bound: NodeId, sub: NodeId, s: Vec<E, S, T>)
    requires WellFormed(g) && sub in g && sub < bound && InBounds(s)
    ensures InBounds(Rounds(g, bound, sub, s).inputs)
    ensures InBounds(Rounds(g, bound, sub, s).out)
    decreases bound, 0, MaxBudget(s)
  {
    if |s| > 0 {
      var round := MatchAndAssemble(g, sub, s);
      MatchAndAssembleInBounds(g, sub, s);
      if MaxBudget(round.out) < MaxBudget(s) {
        RoundsInBounds(g, bound, sub, round.out);
      }
    }
  }

  /** Parser.completeMatch from an assembly within bounds: a result has
      exactly no elements remaining, and bestMatch never runs past the end. */
  lemma CompleteMatchExhausts<E, S, T>(g: Grammar<E, S, T>, id: NodeId, a: AsmState<E, S, T>)
    requires WellFormed(g) && id in g && a.index <= |a.elements|
    ensures BestMatch(g, id, a).Some? ==> BestMatch(g, id, a).value.ElementsRemaining() >= 0
    ensures CompleteMatch(g, id, a).Some? ==> CompleteMatch(g, id, a).value.ElementsRemaining() == 0
  {
    MatchAndAssembleInBounds(g, id, [a]);
  }
}
