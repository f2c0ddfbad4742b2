/**
 * The matching driver on assembly objects, as the parser nodes run it:
 * vectors of references, clones made with Assembly.clone, assemblers working
 * in place. Every method is proved to compute what the value semantics says,
 * both for its output vector and for what it does to its input assemblies.
 */
module Engine {
  import opened Wrappers
  import opened Assemblies
  import opened Grammars
  import Sem = Semantics

  /** The values of a vector of assemblies. */
  function States<E, S, T>(v: seq<Assembly<E, S, T>>): (r: Sem.Vec<E, S, T>)
    reads v
    ensures |r| == |v|
    ensures forall j :: 0 <= j < |v| ==> r[j] == v[j].State()
  {
    seq(|v|, j reads v requires 0 <= j < |v| => v[j].State())
  }

  lemma StatesConcat<E, S, T>(u: seq<Assembly<E, S, T>>, v: seq<Assembly<E, S, T>>)
    ensures States(u + v) == States(u) + States(v)
  {
  }

  /** No assembly occurs twice in the vector. */
  ghost predicate Distinct<X>(v: seq<X>)
  {
    forall i, j :: 0 <= i < j < |v| ==> v[i] != v[j]
  }

  /** Appending fresh assemblies to a vector without repeats leaves no
      repeats. */
  lemma DistinctAppend<X>(u: seq<X>, v: seq<X>)
    requires Distinct(u) && Distinct(v)
    requires forall i, j :: 0 <= i < |u| && 0 <= j < |v| ==> u[i] != v[j]
    ensures Distinct(u + v)
  {
  }

  lemma Appended<X>(u: seq<X>, v: seq<X>, w: seq<X>)
    ensures u + (v + w) == (u + v) + w
  {
  }

  /** Parser.add: appends the elements of v2 to v1, in order. */
  method Add<X>(v1: seq<X>, v2: seq<X>) returns (r: seq<X>)
    ensures r == v1 + v2
  {
    r := v1;
    for i := 0 to |v2|
      invariant r == v1 + v2[..i]
    {
      r := r + [v2[i]];
    }
  }

  /** Parser.elementClone: a vector of fresh clones, element by element. */
  method ElementClone<E, S, T>(v: seq<Assembly<E, S, T>>) returns (copy: seq<Assembly<E, S, T>>)
    ensures States(copy) == States(v)
    ensures forall j :: 0 <= j < |copy| ==> fresh(copy[j])
    ensures Distinct(copy)
  {
    copy := [];
    for i := 0 to |v|
      invariant |copy| == i
      invariant forall j :: 0 <= j < i ==> fresh(copy[j]) && copy[j].State() == v[j].State()
      invariant Distinct(copy)
    {
      var a := v[i].Clone();
      copy := copy + [a];
    }
  }

  /** Parser.best: scans the vector once, returning the first fully consumed
      assembly at once, and otherwise keeping the first of those that
      consumed the most. */
  method Best<E, S, T>(v: seq<Assembly<E, S, T>>) returns (best: Option<Assembly<E, S, T>>)
    ensures best.None? <==> |v| == 0
    ensures best.Some? ==> Sem.BestIndex(States(v)).Some? && best.value == v[Sem.BestIndex(States(v)).value]
  {
    best := None;
    ghost var vals := States(v);
    ghost var k: nat := 0;
    for i := 0 to |v|
      invariant forall j :: 0 <= j < i ==> vals[j].HasMoreElements()
      invariant best.None? <==> i == 0
      invariant k <= i && (i > 0 ==> k < i && best == Some(v[k]))
      invariant forall j :: 0 <= j < i ==> vals[j].ElementsConsumed() <= vals[k].ElementsConsumed()
      invariant forall j :: 0 <= j < k ==> vals[j].ElementsConsumed() < vals[k].ElementsConsumed()
    {
      var a := v[i];
      assert vals[i] == a.State();
      if !a.HasMoreElements() {
        Sem.FirstCompleteAt(vals, i);
        return Some(a);
      }
      if best == None || a.ElementsConsumed() > best.value.ElementsConsumed() {
        best := Some(a);
        k := i;
      }
    }
    if best.Some? {
      Sem.FirstMostCharacterised(vals, k);
      Sem.BestIndexUnfinished(vals);
    }
  }

  /** Parser.bestMatch: matches the singleton vector of the assembly and
      returns the best result. Pre-assemblers on the way may change the
      assembly itself. */
  method BestMatch<E, S, T>(g: Grammar<E, S, T>, id: NodeId, a: Assembly<E, S, T>)
    returns (r: Option<Assembly<E, S, T>>)
    requires WellFormed(g) && id in g
    modifies a
    ensures r.None? <==> Sem.BestMatch(g, id, old(a.State())).None?
    ensures r.Some? ==> fresh(r.value) && r.value.State() == Sem.BestMatch(g, id, old(a.State())).value
    ensures [a.State()] == Sem.MatchAndAssemble(g, id, [old(a.State())]).inputs
  {
    var ins := [a];
    ghost var vals := States(ins);
    assert vals == [a.State()];
    var out := MatchAndAssemble(g, id, ins);
    r := Best(out);
  }

  /** Parser.completeMatch: the best match, provided it consumed every
      element. */
  method CompleteMatch<E, S, T>(g: Grammar<E, S, T>, id: NodeId, a: Assembly<E, S, T>)
    returns (r: Option<Assembly<E, S, T>>)
    requires WellFormed(g) && id in g
    modifies a
    ensures r.None? <==> Sem.CompleteMatch(g, id, old(a.State())).None?
    ensures r.Some? ==> fresh(r.value) && r.value.State() == Sem.CompleteMatch(g, id, old(a.State())).value
    ensures [a.State()] == Sem.MatchAndAssemble(g, id, [old(a.State())]).inputs
  {
    var best := BestMatch(g, id, a);
    if best.Some? && !best.value.HasMoreElements() {
      return best;
    }
    return None;
  }

  /** Parser.matchAndAssemble: match, then let the node's assembler work on
      every result in order. */
  method MatchAndAssemble<E, S, T>(g: Grammar<E, S, T>, id: NodeId, ins: seq<Assembly<E, S, T>>)
    returns (out: seq<Assembly<E, S, T>>)
    requires WellFormed(g) && id in g && Distinct(ins)
    modifies ins
    ensures forall j :: 0 <= j < |out| ==> fresh(out[j])
    ensures Distinct(out)
    ensures States(ins) == Sem.MatchAndAssemble(g, id, old(States(ins))).inputs
    ensures States(out) == Sem.MatchAndAssemble(g, id, old(States(ins))).out
    decreases id, 3
  {
    out := Match(g, id, ins);
    AssembleEach(g[id].assembler, out);
  }

  /** Parser.match, dispatched on the kind of node. */
  method Match<E, S, T>(g: Grammar<E, S, T>, id: NodeId, ins: seq<Assembly<E, S, T>>)
    returns (out: seq<Assembly<E, S, T>>)
    requires WellFormed(g) && id in g && Distinct(ins)
    modifies ins
    ensures forall j :: 0 <= j < |out| ==> fresh(out[j])
    ensures Distinct(out)
    ensures States(ins) == Sem.Match(g, id, old(States(ins))).inputs
    ensures States(out) == Sem.Match(g, id, old(States(ins))).out
    decreases id, 2
  {
    match g[id].kind
    case Empty =>
      out := EmptyMatch(ins);
    case Terminal(q, _) =>
      out := TerminalMatch(q, ins);
    case Alternation(subs) =>
      out := AlternationMatch(g, id, subs, ins);
    case Repetition(sub, pre) =>
      out := RepetitionMatch(g, id, sub, pre, ins);
  }

  /** Empty.match: clones of the inputs, which stay as they are. */
  method EmptyMatch<E, S, T>(ins: seq<Assembly<E, S, T>>) returns (out: seq<Assembly<E, S, T>>)
    ensures |out| == |ins|
    ensures forall j :: 0 <= j < |out| ==> fresh(out[j]) && out[j].index == ins[j].index && out[j].stack == ins[j].stack
    ensures States(out) == States(ins)
    ensures Distinct(out)
  {
    out := ElementClone(ins);
  }

  /** The stand-in terminal: an advanced clone of each input whose next
      element qualifies. */
  method TerminalMatch<E, S, T>(q: E -> bool, ins: seq<Assembly<E, S, T>>) returns (out: seq<Assembly<E, S, T>>)
    ensures forall j :: 0 <= j < |out| ==> fresh(out[j])
    ensures Distinct(out)
    ensures States(out) == Sem.Advance(q, States(ins))
  {
    ghost var vals := States(ins);
    out := [];
    for i := 0 to |ins|
      invariant forall j :: 0 <= j < |out| ==> fresh(out[j])
      invariant Distinct(out)
      invariant States(out) == AdvanceUpTo(q, vals, i)
    {
      out := TerminalStep(q, ins[i], out);
    }
    AdvanceUpToAll(q, vals);
  }

  /** The stand-in terminal's results on the first i assemblies of v: the
      same values as Sem.Advance on that prefix (AdvanceUpToPrefix). It is
      indexed rather than sliced only to keep the loop's proof cheap. */
  ghost function AdvanceUpTo<E, S, T>(q: E -> bool, v: Sem.Vec<E, S, T>, i: nat): Sem.Vec<E, S, T>
    requires i <= |v|
  {
    if i == 0 then []
    else
      var a := v[i - 1];
      AdvanceUpTo(q, v, i - 1) + if a.HasMoreElements() && q(a.elements[a.index]) then [a.(index := a.index + 1)] else []
  }

  lemma AdvanceUpToAll<E, S, T>(q: E -> bool, v: Sem.Vec<E, S, T>)
    ensures AdvanceUpTo(q, v, |v|) == Sem.Advance(q, v)
  {
    AdvanceUpToPrefix(q, v, |v|);
    assert v[..|v|] == v;
  }

  lemma {:induction false} AdvanceUpToPrefix<E, S, T>(q: E -> bool, v: Sem.Vec<E, S, T>, i: nat)
    requires i <= |v|
    ensures AdvanceUpTo(q, v, i) == Sem.Advance(q, v[..i])
  {
    if i > 0 {
      AdvanceUpToPrefix(q, v, i - 1);
      assert v[..i][..i - 1] == v[..i - 1];
    }
  }

  /** One assembly of the terminal's loop: an advanced clone when the next
      element qualifies, nothing otherwise. */
  method TerminalStep<E, S, T>(q: E -> bool, a: Assembly<E, S, T>, out: seq<Assembly<E, S, T>>)
    returns (out': seq<Assembly<E, S, T>>)
    requires Distinct(out)
    ensures forall j :: 0 <= j < |out'| ==> (j < |out| && out'[j] == out[j]) || fresh(out'[j])
    ensures Distinct(out')
    ensures States(out') == States(out) +
      if a.HasMoreElements() && q(a.elements[a.index]) then [a.State().(index := a.index + 1)] else []
  {
    out' := out;
    if a.HasMoreElements() && q(a.elements[a.index]) {
      var b := a.Clone();
      var _ := b.NextElement();
      DistinctAppend(out, [b]);
      StatesConcat(out, [b]);
      out' := out + [b];
    }
  }

  /** Alternation.match: each alternative runs on the same input vector and
      its results are appended to a fresh output vector. */
  method AlternationMatch<E, S, T>(g: Grammar<E, S, T>, bound: NodeId, subs: seq<NodeId>, ins: seq<Assembly<E, S, T>>)
    returns (out: seq<Assembly<E, S, T>>)
    requires WellFormed(g) && Distinct(ins)
    requires forall j :: 0 <= j < |subs| ==> subs[j] in g && subs[j] < bound
    modifies ins
    ensures forall j :: 0 <= j < |out| ==> fresh(out[j])
    ensures Distinct(out)
    ensures States(ins) == Sem.AlternationMatch(g, bound, subs, old(States(ins))).inputs
    ensures States(out) == Sem.AlternationMatch(g, bound, subs, old(States(ins))).out
    decreases bound, 1
  {
    ghost var goal := Sem.AlternationMatch(g, bound, subs, States(ins));
    assert subs[0..] == subs;
    out := [];
    // What the alternatives from the i-th on still have to do.
    ghost var rest := goal;
    for i := 0 to |subs|
      invariant forall j :: 0 <= j < |out| ==> fresh(out[j])
      invariant Distinct(out)
      invariant rest == Sem.AlternationMatch(g, bound, subs[i..], States(ins))
      invariant goal.inputs == rest.inputs && goal.out == States(out) + rest.out
    {
      ghost var done := States(out);
      ghost var step := Sem.MatchAndAssemble(g, subs[i], States(ins));
      AlternativesStep(g, bound, subs, i, States(ins));
      ghost var prev := out;
      out := AlternativeStep(g, bound, subs[i], ins, out);
      forall j | 0 <= j < |prev| ensures fresh(out[j]) {
        assert out[..|prev|][j] == prev[j];
      }
      ghost var later := Sem.AlternationMatch(g, bound, subs[i + 1..], States(ins));
      assert rest.out == step.out + later.out;
      Appended(done, step.out, later.out);
      rest := later;
    }
  }

  /** Alternation.match from the i-th alternative on is that alternative,
      then the rest on the values it leaves the inputs with. */
  lemma AlternativesStep<E, S, T>(g: Grammar<E, S, T>, bound: NodeId, subs: seq<NodeId>, i: nat, current: Sem.Vec<E, S, T>)
    requires WellFormed(g) && i < |subs|
    requires forall j :: 0 <= j < |subs| ==> subs[j] in g && subs[j] < bound
    ensures Sem.AlternationMatch(g, bound, subs[i..], current) ==
      Sem.Outcome(Sem.AlternationMatch(g, bound, subs[i + 1..], Sem.MatchAndAssemble(g, subs[i], current).inputs).inputs,
                  Sem.MatchAndAssemble(g, subs[i], current).out +
                  Sem.AlternationMatch(g, bound, subs[i + 1..], Sem.MatchAndAssemble(g, subs[i], current).inputs).out)
  {
    assert subs[i..][1..] == subs[i + 1..];
  }

  /** One alternative of Alternation.match: its results are appended to the
      output vector, whose assemblies it does not touch. */
  method AlternativeStep<E, S, T>(g: Grammar<E, S, T>, bound: NodeId, sub: NodeId,
                                  ins: seq<Assembly<E, S, T>>, out: seq<Assembly<E, S, T>>)
    returns (out': seq<Assembly<E, S, T>>)
    requires WellFormed(g) && sub in g && sub < bound && Distinct(ins) && Distinct(out)
    requires forall j :: 0 <= j < |out| ==> out[j] !in ins
    modifies ins
    ensures |out| <= |out'| && out'[..|out|] == out
    ensures forall j :: |out| <= j < |out'| ==> fresh(out'[j])
    ensures Distinct(out')
    ensures States(ins) == Sem.MatchAndAssemble(g, sub, old(States(ins))).inputs
    ensures States(out') == old(States(out)) + Sem.MatchAndAssemble(g, sub, old(States(ins))).out
    decreases bound, 0
  {
    var r := MatchAndAssemble(g, sub, ins);
    StatesConcat(out, r);
    out' := Add(out, r);
  }

  /** Repetition.match: the pre-assembler works on every input in place; the
      output starts with clones of the inputs (zero repetitions) and then
      takes each round's results, each round running on the previous round's
      result vector, until a round yields nothing. The first round, the only
      one that runs on the input vector itself, is written out before the
      loop; the loop then runs on vectors the output already holds. The
      loop's bookkeeping allows a round to change those assemblies, although
      in a well-formed grammar none does (Properties.RoundsKeepInputs). */
  method RepetitionMatch<E, S, T>(g: Grammar<E, S, T>, bound: NodeId, sub: NodeId,
                                  pre: Option<Assembler<E, S, T>>, ins: seq<Assembly<E, S, T>>)
    returns (out: seq<Assembly<E, S, T>>)
    requires WellFormed(g) && sub in g && sub < bound && Consuming(g, sub) && Distinct(ins)
    modifies ins
    ensures forall j :: 0 <= j < |out| ==> fresh(out[j])
    ensures Distinct(out)
    ensures States(ins) == Sem.RepetitionMatch(g, bound, sub, pre, old(States(ins))).inputs
    ensures States(out) == Sem.RepetitionMatch(g, bound, sub, pre, old(States(ins))).out
    decreases bound, 1
  {
    AssembleEach(pre, ins);
    ghost var prepared := States(ins);
    out := ElementClone(ins);
    ghost var goal := Sem.Rounds(g, bound, sub, prepared);
    assert Sem.RepetitionMatch(g, bound, sub, pre, old(States(ins))) == Sem.Outcome(goal.inputs, prepared + goal.out);
    if |ins| == 0 {
      return;
    }
    var s;
    s, out := FirstRound(g, bound, sub, ins, out);
    FirstRoundPending(g, bound, sub, prepared);
    // The assemblies of out whose values are final; the rest of out is s.
    ghost var keep := out[..|prepared|];
    while |s| != 0
      invariant Distinct(out)
      invariant forall j :: 0 <= j < |keep| ==> fresh(keep[j])
      invariant forall j :: 0 <= j < |s| ==> fresh(s[j])
      invariant forall j :: 0 <= j < |out| ==> out[j] !in ins
      invariant out == keep + s
      invariant States(ins) == goal.inputs
      invariant RoundsPending(g, bound, sub, prepared, goal, States(keep), States(s))
      decreases Sem.MaxBudget(States(s))
    {
      ghost var before := States(s);
      ghost var keepStates := States(keep);
      var next;
      ghost var done;
      next, out, done := RoundStep(g, bound, sub, s, out, keep, ins);
      forall j | 0 <= j < |done| ensures fresh(done[j]) {
        if j >= |keep| {
          assert done[j] == s[j - |keep|];
        }
      }
      RoundsPendingStep(g, bound, sub, prepared, goal, keepStates, before);
      keep := done;
      s := next;
    }
    RoundsPendingDone(g, bound, sub, prepared, goal, States(keep));
    assert out == keep;
  }

  /** What is left to do after some rounds of Repetition.match: the values
      already final, then what the working vector's rounds produce, make up
      the clones of the prepared inputs and all the rounds' outputs. */
  ghost predicate RoundsPending<E, S, T>(g: Grammar<E, S, T>, bound: NodeId, sub: NodeId,
                                         prepared: Sem.Vec<E, S, T>, goal: Sem.Outcome<E, S, T>,
                                         done: Sem.Vec<E, S, T>, working: Sem.Vec<E, S, T>)
    requires WellFormed(g) && sub in g && sub < bound
  {
    prepared + goal.out == done + Sem.Rounds(g, bound, sub, working).inputs + Sem.Rounds(g, bound, sub, working).out
  }

  /** The first round leaves the inputs with their final values, and what is
      pending is the rounds of its output. */
  lemma FirstRoundPending<E, S, T>(g: Grammar<E, S, T>, bound: NodeId, sub: NodeId, prepared: Sem.Vec<E, S, T>)
    requires WellFormed(g) && sub in g && sub < bound && Consuming(g, sub) && |prepared| > 0
    ensures Sem.Rounds(g, bound, sub, prepared).inputs == Sem.MatchAndAssemble(g, sub, prepared).inputs
    ensures RoundsPending(g, bound, sub, prepared, Sem.Rounds(g, bound, sub, prepared),
                          prepared, Sem.MatchAndAssemble(g, sub, prepared).out)
  {
    Sem.RoundShrinks(g, sub, prepared);
    var round := Sem.MatchAndAssemble(g, sub, prepared);
    var later := Sem.Rounds(g, bound, sub, round.out);
    assert Sem.Rounds(g, bound, sub, prepared) == Sem.Outcome(round.inputs, later.inputs + later.out);
    Appended(prepared, later.inputs, later.out);
  }

  /** One more round keeps RoundsPending, and shrinks the budget of the
      working vector. */
  lemma RoundsPendingStep<E, S, T>(g: Grammar<E, S, T>, bound: NodeId, sub: NodeId,
                                   prepared: Sem.Vec<E, S, T>, goal: Sem.Outcome<E, S, T>,
                                   done: Sem.Vec<E, S, T>, before: Sem.Vec<E, S, T>)
    requires WellFormed(g) && sub in g && sub < bound && Consuming(g, sub) && |before| > 0
    requires RoundsPending(g, bound, sub, prepared, goal, done, before)
    ensures RoundsPending(g, bound, sub, prepared, goal, done + Sem.MatchAndAssemble(g, sub, before).inputs,
                          Sem.MatchAndAssemble(g, sub, before).out)
    ensures Sem.MaxBudget(Sem.MatchAndAssemble(g, sub, before).out) < Sem.MaxBudget(before)
  {
    Sem.RoundShrinks(g, sub, before);
  }

  /** With nothing left to work on, the final values are the whole output. */
  lemma RoundsPendingDone<E, S, T>(g: Grammar<E, S, T>, bound: NodeId, sub: NodeId,
                                   prepared: Sem.Vec<E, S, T>, goal: Sem.Outcome<E, S, T>, done: Sem.Vec<E, S, T>)
    requires WellFormed(g) && sub in g && sub < bound
    requires RoundsPending(g, bound, sub, prepared, goal, done, [])
    ensures prepared + goal.out == done
  {
  }

  /** The loop that lets an optional assembler work on every assembly of a
      vector in place, in order: the pre-assembler loop of Repetition.match
      and the assembler loop of Parser.matchAndAssemble. */
  method AssembleEach<E, S, T>(pre: Option<Assembler<E, S, T>>, ins: seq<Assembly<E, S, T>>)
    requires Distinct(ins)
    modifies ins
    ensures States(ins) == Sem.AssembleAll(pre, old(States(ins)))
  {
    if pre.Some? {
      for i := 0 to |ins|
        invariant forall j :: 0 <= j < i ==> ins[j].State() == pre.value.Apply(old(ins[j].State()))
        invariant forall j :: i <= j < |ins| ==> ins[j].State() == old(ins[j].State())
      {
        ins[i].WorkOn(pre.value);
      }
    }
  }

  /** The first round of Repetition.match: the subparser runs on the input
      vector and its results are appended to the clones. */
  method FirstRound<E, S, T>(g: Grammar<E, S, T>, bound: NodeId, sub: NodeId,
                             ins: seq<Assembly<E, S, T>>, out: seq<Assembly<E, S, T>>)
    returns (next: seq<Assembly<E, S, T>>, out': seq<Assembly<E, S, T>>)
    requires WellFormed(g) && sub in g && sub < bound && Distinct(ins) && Distinct(out)
    requires forall j :: 0 <= j < |out| ==> out[j] !in ins
    modifies ins
    ensures forall j :: 0 <= j < |next| ==> fresh(next[j])
    ensures out' == out + next && Distinct(out')
    ensures forall j :: 0 <= j < |out'| ==> out'[j] !in ins
    ensures States(ins) == Sem.MatchAndAssemble(g, sub, old(States(ins))).inputs
    ensures States(out) == old(States(out))
    ensures States(next) == Sem.MatchAndAssemble(g, sub, old(States(ins))).out
    decreases bound, 0
  {
    next := MatchAndAssemble(g, sub, ins);
    out' := Add(out, next);
    forall i, j | 0 <= i < j < |out'| ensures out'[i] != out'[j] {
      if j >= |out| && i < |out| {
        assert out'[j] == next[j - |out|] && out'[i] == out[i];
      }
    }
    forall j | |out| <= j < |out'| ensures out'[j] !in ins {
      assert out'[j] == next[j - |out|];
    }
  }

  /** A later round of Repetition.match: the subparser runs on the working
      vector, the tail of the output, and its results are appended. */
  method RoundStep<E, S, T>(g: Grammar<E, S, T>, bound: NodeId, sub: NodeId, s: seq<Assembly<E, S, T>>,
                            out: seq<Assembly<E, S, T>>, ghost keep: seq<Assembly<E, S, T>>,
                            ghost ins: seq<Assembly<E, S, T>>)
    returns (next: seq<Assembly<E, S, T>>, out': seq<Assembly<E, S, T>>, ghost done: seq<Assembly<E, S, T>>)
    requires WellFormed(g) && sub in g && sub < bound && Distinct(out) && out == keep + s
    requires forall j :: 0 <= j < |out| ==> out[j] !in ins
    modifies s
    ensures forall j :: 0 <= j < |next| ==> fresh(next[j])
    ensures done == out && out' == done + next && Distinct(out')
    ensures forall j :: 0 <= j < |out'| ==> out'[j] !in ins
    ensures States(next) == Sem.MatchAndAssemble(g, sub, old(States(s))).out
    ensures States(done) == old(States(keep)) + Sem.MatchAndAssemble(g, sub, old(States(s))).inputs
    ensures States(ins) == old(States(ins))
    decreases bound, 0
  {
    forall j, k | 0 <= j < |keep| && 0 <= k < |s| ensures keep[j] != s[k] {
      assert keep[j] == out[j] && s[k] == out[|keep| + k];
    }
    forall j, k | 0 <= j < |ins| && 0 <= k < |s| ensures ins[j] != s[k] {
      assert s[k] == out[|keep| + k];
    }
    forall i, j | 0 <= i < j < |s| ensures s[i] != s[j] {
      assert s[i] == out[|keep| + i] && s[j] == out[|keep| + j];
    }
    done := out;
    next := MatchAndAssemble(g, sub, s);
    out' := Add(out, next);
    DistinctAppend(out, next);
    forall j | |out| <= j < |out'| ensures out'[j] !in ins {
      assert out'[j] == next[j - |out|];
    }
    StatesConcat(keep, s);
  }
}
