/**
 * What matching computes, stated on assembly values. Vectors are sequences of
 * assembly values. Matching returns fresh assemblies, but a repetition's
 * pre-assembler works on its input assemblies in place, so an outcome carries
 * both the new values of the inputs and the output vector.
 */
module Semantics {
  import opened Wrappers
  import opened Assemblies
  import opened Grammars

  type Vec<E, S, T> = seq<AsmState<E, S, T>>

  datatype Outcome<E, S, T> = Outcome(inputs: Vec<E, S, T>, out: Vec<E, S, T>)

  /** Two vectors agree everywhere except, possibly, in stacks and targets. */
  ghost predicate SameCursors<E, S, T>(u: Vec<E, S, T>, v: Vec<E, S, T>)
  {
    |u| == |v| && forall j :: 0 <= j < |u| ==> u[j].elements == v[j].elements && u[j].index == v[j].index
  }

  /** One more than the number of elements an assembly can still consume. */
  function Budget<E, S, T>(a: AsmState<E, S, T>): nat
  {
    1 + if a.HasMoreElements() then a.ElementsRemaining() else 0
  }

  /** The largest budget in a vector; 0 for the empty vector. */
  function MaxBudget<E, S, T>(v: Vec<E, S, T>): nat
  {
    if |v| == 0 then 0
    else
      var m := MaxBudget(v[..|v| - 1]);
      if m < Budget(v[|v| - 1]) then Budget(v[|v| - 1]) else m
  }

  lemma {:induction false} MaxBudgetOfSameCursors<E, S, T>(u: Vec<E, S, T>, v: Vec<E, S, T>)
    requires SameCursors(u, v)
    ensures MaxBudget(u) == MaxBudget(v)
  {
    if |u| > 0 {
      MaxBudgetOfSameCursors(u[..|u| - 1], v[..|v| - 1]);
    }
  }

  lemma {:induction false} BudgetAtMostMax<E, S, T>(v: Vec<E, S, T>, j: nat)
    requires j < |v|
    ensures Budget(v[j]) <= MaxBudget(v)
  {
    if j < |v| - 1 {
      BudgetAtMostMax(v[..|v| - 1], j);
    }
  }

  lemma {:induction false} MaxBudgetBelow<E, S, T>(v: Vec<E, S, T>, b: nat)
    requires b > 0
    requires forall j :: 0 <= j < |v| ==> Budget(v[j]) < b
    ensures MaxBudget(v) < b
  {
    if |v| > 0 {
      MaxBudgetBelow(v[..|v| - 1], b);
    }
  }

  /** Applies an optional assembler to every assembly of a vector, in order. */
  function AssembleAll<E, S, T>(asm: Option<Assembler<E, S, T>>, v: Vec<E, S, T>): (r: Vec<E, S, T>)
    ensures SameCursors(r, v)
  {
    match asm
    case None => v
    case Some(f) => seq(|v|, j requires 0 <= j < |v| => f.Apply(v[j]))
  }

  /** The stand-in terminal: one advanced copy of each assembly whose next
      element qualifies, in input order. */
  function Advance<E, S, T>(q: E -> bool, v: Vec<E, S, T>): Vec<E, S, T>
  {
    if |v| == 0 then []
    else
      var a := v[|v| - 1];
      Advance(q, v[..|v| - 1]) + if a.HasMoreElements() && q(a.elements[a.index]) then [a.(index := a.index + 1)] else []
  }

  /** Parser.matchAndAssemble: match, then apply the node's assembler to every
      result. The assembler works on the results only, and moves no cursor;
      matching never moves a cursor of the inputs. */
  function MatchAndAssemble<E, S, T>(g: Grammar<E, S, T>, id: NodeId, ins: Vec<E, S, T>): (r: Outcome<E, S, T>)
    requires WellFormed(g) && id in g
    ensures r.inputs == Match(g, id, ins).inputs && SameCursors(r.inputs, ins)
    ensures SameCursors(r.out, Match(g, id, ins).out)
    decreases id, 3, 0
  {
    var m := Match(g, id, ins);
    Outcome(m.inputs, AssembleAll(g[id].assembler, m.out))
  }

  /** Parser.match, dispatched on the kind of node. */
  function Match<E, S, T>(g: Grammar<E, S, T>, id: NodeId, ins: Vec<E, S, T>): (r: Outcome<E, S, T>)
    requires WellFormed(g) && id in g
    ensures SameCursors(r.inputs, ins)
    decreases id, 2, 0
  {
    match g[id].kind
    case Empty => Outcome(ins, ins)
    case Terminal(q, _) => Outcome(ins, Advance(q, ins))
    case Alternation(subs) => AlternationMatch(g, id, subs, ins)
    case Repetition(sub, pre) => RepetitionMatch(g, id, sub, pre, ins)
  }

  /** Alternation.match: every alternative runs on the same input vector, and
      their outputs are concatenated in order. */
  function AlternationMatch<E, S, T>(g: Grammar<E, S, T>, bound: NodeId, subs: seq<NodeId>, ins: Vec<E, S, T>): (r: Outcome<E, S, T>)
    requires WellFormed(g)
    requires forall j :: 0 <= j < |subs| ==> subs[j] in g && subs[j] < bound
    ensures SameCursors(r.inputs, ins)
    ensures |subs| == 0 ==> r.out == []
    decreases bound, 1, |subs|
  {
    if |subs| == 0 then Outcome(ins, [])
    else
      var first := MatchAndAssemble(g, subs[0], ins);
      var rest := AlternationMatch(g, bound, subs[1..], first.inputs);
      Outcome(rest.inputs, first.out + rest.out)
  }

  /** Repetition.match: the pre-assembler works on every input, the
      zero-repetition clones come first, then every later round. */
  function RepetitionMatch<E, S, T>(g: Grammar<E, S, T>, bound: NodeId, sub: NodeId,
                                    pre: Option<Assembler<E, S, T>>, ins: Vec<E, S, T>): (r: Outcome<E, S, T>)
    requires WellFormed(g) && sub in g && sub < bound
    ensures SameCursors(r.inputs, ins)
    ensures |ins| <= |r.out|
    decreases bound, 1, 0
  {
    var prepared := AssembleAll(pre, ins);
    var rounds := Rounds(g, bound, sub, prepared);
    Outcome(rounds.inputs, prepared + rounds.out)
  }

  /** The rounds of a repetition from the working vector s on: the values the
      assemblies of s end with, and the outputs of every later round in order,
      up to the first empty round. Each round runs on the previous round's
      output vector itself. A consuming subparser holds no pre-assembler, so
      in a well-formed grammar it leaves that vector as it is
      (Properties.RoundsKeepInputs); the definition does not rely on it. The test on
      the budget always succeeds when the subparser consumes (RoundShrinks),
      which well-formed grammars guarantee; it only makes the definition total
      on its own. */
  function Rounds<E, S, T>(g: Grammar<E, S, T>, bound: NodeId, sub: NodeId, s: Vec<E, S, T>): (r: Outcome<E, S, T>)
    requires WellFormed(g) && sub in g && sub < bound
    ensures SameCursors(r.inputs, s)
    ensures |s| == 0 ==> r.out == []
    decreases bound, 0, MaxBudget(s)
  {
    if |s| == 0 then Outcome(s, [])
    else
      var round := MatchAndAssemble(g, sub, s);
      if MaxBudget(round.out) < MaxBudget(s) then
        var later := Rounds(g, bound, sub, round.out);
        Outcome(round.inputs, later.inputs + later.out)
      else
        Outcome(round.inputs, round.out)
  }

  /** Assemblers keep cursors, so they keep budgets. */
  lemma AssembleAllKeepsBudgets<E, S, T>(asm: Option<Assembler<E, S, T>>, v: Vec<E, S, T>)
    ensures |AssembleAll(asm, v)| == |v|
    ensures forall j :: 0 <= j < |v| ==> Budget(AssembleAll(asm, v)[j]) == Budget(v[j])
  {
  }

  /** Every assembly the stand-in terminal yields has consumed one more
      element than some input, so its budget is below the largest input
      budget. */
  lemma {:induction false} AdvanceShrinks<E, S, T>(q: E -> bool, v: Vec<E, S, T>)
    ensures |Advance(q, v)| <= |v|
    ensures forall j :: 0 <= j < |Advance(q, v)| ==> Budget(Advance(q, v)[j]) < MaxBudget(v)
  {
    if |v| > 0 {
      var init := v[..|v| - 1];
      AdvanceShrinks(q, init);
      BudgetAtMostMax(v, |v| - 1);
      forall j | 0 <= j < |Advance(q, init)| ensures Budget(Advance(q, init)[j]) < MaxBudget(v) {
      }
    }
  }

  /** A consuming node only yields assemblies that have advanced, so every
      output has a smaller budget than the largest input budget. */
  lemma {:induction false} ConsumingShrinks<E, S, T>(g: Grammar<E, S, T>, id: NodeId, ins: Vec<E, S, T>)
    requires WellFormed(g) && id in g && Consuming(g, id)
    ensures forall j :: 0 <= j < |MatchAndAssemble(g, id, ins).out| ==>
              Budget(MatchAndAssemble(g, id, ins).out[j]) < MaxBudget(ins)
    decreases id, 1
  {
    AssembleAllKeepsBudgets(g[id].assembler, Match(g, id, ins).out);
    match g[id].kind
    case Terminal(q, _) =>
      AdvanceShrinks(q, ins);
    case Alternation(subs) =>
      assert forall j :: 0 <= j < |subs| ==> Consuming(g, subs[j]);
      AlternationShrinks(g, id, subs, ins);
      assert Match(g, id, ins) == AlternationMatch(g, id, subs, ins);
  }

  lemma {:induction false} AlternationShrinks<E, S, T>(g: Grammar<E, S, T>, bound: NodeId, subs: seq<NodeId>, ins: Vec<E, S, T>)
    requires WellFormed(g)
    requires forall j :: 0 <= j < |subs| ==> subs[j] in g && subs[j] < bound && Consuming(g, subs[j])
    ensures forall j :: 0 <= j < |AlternationMatch(g, bound, subs, ins).out| ==>
              Budget(AlternationMatch(g, bound, subs, ins).out[j]) < MaxBudget(ins)
    decreases bound, 0, |subs|
  {
    if |subs| > 0 {
      var first := MatchAndAssemble(g, subs[0], ins);
      ConsumingShrinks(g, subs[0], ins);
      MaxBudgetOfSameCursors(first.inputs, ins);
      AlternationShrinks(g, bound, subs[1..], first.inputs);
    }
  }

  /** Each round of a repetition over a consuming subparser lowers the
      largest budget of the working vector, so the budget test in Rounds
      always succeeds and the rounds end. */
  lemma RoundShrinks<E, S, T>(g: Grammar<E, S, T>, sub: NodeId, s: Vec<E, S, T>)
    requires WellFormed(g) && sub in g && Consuming(g, sub) && |s| > 0
    ensures MaxBudget(MatchAndAssemble(g, sub, s).out) < MaxBudget(s)
  {
    ConsumingShrinks(g, sub, s);
    BudgetAtMostMax(s, 0);
    MaxBudgetBelow(MatchAndAssemble(g, sub, s).out, MaxBudget(s));
  }

  /** The index of the first fully consumed assembly, if any. */
  function FirstComplete<E, S, T>(v: Vec<E, S, T>): (r: Option<nat>)
    ensures r.Some? ==> r.value < |v| && !v[r.value].HasMoreElements()
    ensures r.Some? ==> forall j :: 0 <= j < r.value ==> v[j].HasMoreElements()
    ensures r.None? ==> forall j :: 0 <= j < |v| ==> v[j].HasMoreElements()
  {
    if |v| == 0 then None
    else if !v[0].HasMoreElements() then Some(0)
    else
      match FirstComplete(v[1..])
      case None => None
      case Some(k) => Some(k + 1)
  }

  /** The earliest index with the most elements consumed. */
  function FirstMost<E, S, T>(v: Vec<E, S, T>): (r: nat)
    requires |v| > 0
    ensures r < |v|
    ensures forall j :: 0 <= j < |v| ==> v[j].ElementsConsumed() <= v[r].ElementsConsumed()
    ensures forall j :: 0 <= j < r ==> v[j].ElementsConsumed() < v[r].ElementsConsumed()
  {
    if |v| == 1 then 0
    else
      var k := FirstMost(v[..|v| - 1]);
      if v[|v| - 1].ElementsConsumed() > v[k].ElementsConsumed() then |v| - 1 else k
  }

  /** Parser.best: the position of the selected assembly. A fully consumed
      assembly wins at once, the first one in vector order; otherwise the
      earliest of those that consumed the most; nothing for an empty vector. */
  function BestIndex<E, S, T>(v: Vec<E, S, T>): (r: Option<nat>)
    ensures r.None? <==> |v| == 0
    ensures r.Some? ==> r.value < |v|
    ensures (exists j :: 0 <= j < |v| && !v[j].HasMoreElements()) ==>
              r.Some? && !v[r.value].HasMoreElements() && forall j :: 0 <= j < r.value ==> v[j].HasMoreElements()
    ensures (forall j :: 0 <= j < |v| ==> v[j].HasMoreElements()) && r.Some? ==>
              && (forall j :: 0 <= j < |v| ==> v[j].ElementsConsumed() <= v[r.value].ElementsConsumed())
              && (forall j :: 0 <= j < r.value ==> v[j].ElementsConsumed() < v[r.value].ElementsConsumed())
  {
    if |v| == 0 then None
    else
      match FirstComplete(v)
      case Some(k) => Some(k)
      case None => Some(FirstMost(v))
  }

  /** A fully consumed assembly preceded only by unfinished ones is the one
      Parser.best selects. */
  lemma FirstCompleteAt<E, S, T>(v: Vec<E, S, T>, i: nat)
    requires i < |v| && !v[i].HasMoreElements()
    requires forall j :: 0 <= j < i ==> v[j].HasMoreElements()
    ensures BestIndex(v) == Some(i)
  {
  }

  /** FirstMost is the only index that consumed at least as much as every
      assembly and strictly more than every earlier one. */
  lemma FirstMostCharacterised<E, S, T>(v: Vec<E, S, T>, k: nat)
    requires k < |v|
    requires forall j :: 0 <= j < |v| ==> v[j].ElementsConsumed() <= v[k].ElementsConsumed()
    requires forall j :: 0 <= j < k ==> v[j].ElementsConsumed() < v[k].ElementsConsumed()
    ensures FirstMost(v) == k
  {
  }

  /** With no fully consumed assembly, Parser.best selects FirstMost. */
  lemma BestIndexUnfinished<E, S, T>(v: Vec<E, S, T>)
    requires |v| > 0 && forall j :: 0 <= j < |v| ==> v[j].HasMoreElements()
    ensures BestIndex(v) == Some(FirstMost(v))
  {
  }

  /** Parser.bestMatch on values: the best of the outputs of matching the
      singleton vector. */
  function BestMatch<E, S, T>(g: Grammar<E, S, T>, id: NodeId, a: AsmState<E, S, T>): (r: Option<AsmState<E, S, T>>)
    requires WellFormed(g) && id in g
    ensures r.None? <==> |MatchAndAssemble(g, id, [a]).out| == 0
    ensures r.Some? ==> r.value in MatchAndAssemble(g, id, [a]).out
  {
    var out := MatchAndAssemble(g, id, [a]).out;
    match BestIndex(out)
    case None => None
    case Some(k) => Some(out[k])
  }

  /** Parser.completeMatch on values: the best match when it consumed
      everything. It succeeds exactly when some output is fully consumed,
      because a fully consumed output is always the one selected. */
  function CompleteMatch<E, S, T>(g: Grammar<E, S, T>, id: NodeId, a: AsmState<E, S, T>): (r: Option<AsmState<E, S, T>>)
    requires WellFormed(g) && id in g
    ensures r.Some? ==> !r.value.HasMoreElements() && r.value in MatchAndAssemble(g, id, [a]).out
    ensures r.Some? ==> r == BestMatch(g, id, a)
    ensures r.Some? <==> exists j :: 0 <= j < |MatchAndAssemble(g, id, [a]).out| && !MatchAndAssemble(g, id, [a]).out[j].HasMoreElements()
  {
    match BestMatch(g, id, a)
    case None => None
    case Some(b) => if b.HasMoreElements() then None else Some(b)
  }
}
