# sjm matching engine in Dafny

This project models the matching core of the sjm parser-combinator library.
The library is a set-based recogniser. A parse state is an **assembly**: a
cursor into a fixed sequence of elements, a LIFO stack and an optional
target. A parser node maps a vector of assemblies to a new vector that holds
every way the node can match from those states. The model covers:

- the assembly (`assembly.dfy`, module `Assemblies`). It is a class with a
  cursor, a stack and a target, plus a value snapshot `AsmState`. An
  assembler is a function from a snapshot to a new stack and target.
- the grammar (`grammar.dfy`, module `Grammars`). Parser nodes live in an
  arena `map<NodeId, Node>`. Each node has an optional name, an optional
  assembler and a kind: Alternation, Repetition (subparser and optional
  pre-assembler), Empty or a stand-in Terminal. The module also holds the
  setters, the Repetition constructor, `getSubparser` and the visitor
  dispatch.
- the value semantics of matching (`semantics.dfy`, module `Semantics`).
  Functions on vectors of assembly values give `matchAndAssemble`, each
  kind's `match`, `best`, `bestMatch` and `completeMatch`. A repetition's
  pre-assembler changes its input assemblies in place, so every result
  carries two things: the new values of the inputs and the output vector.
- the matching driver on assembly objects (`engine.dfy`, module `Engine`).
  These methods run the source's loops over vectors of references:
  `add`, `elementClone`, `best`, `bestMatch`, `completeMatch`,
  `matchAndAssemble`, and the `match` of Alternation, Repetition and Empty.
  `elementClone`, `bestMatch`, `completeMatch`, `matchAndAssemble` and the
  `match` methods are proved to compute what the value semantics says, for
  their output vectors and for their input assemblies; their outputs are
  fresh objects, and no object occurs twice in them. `best` returns the very
  element of its input that the value semantics selects, and `add` returns
  the first vector followed by the second.
- the cycle-safe description `toString(visited)` (`printing.dfy`, module
  `Printing`).
- combinator properties proved on the value semantics (`properties.dfy`,
  module `Properties`).
- worked examples (`examples.dfy`, module `Examples`):
  - `a*` on `^aaab`, on values and on objects.
  - The optional idiom `a | empty`.
  - The descriptions of these grammars and of a grammar that refers to
    itself.

Matching is defined for well-formed grammars, `Grammars.WellFormed`:
- Every child has a smaller id than its parent.
- Every repetition's subparser is consuming: each assembly it produces has
  advanced past the one it came from.

Without this, `Repetition.match` loops forever. For example, a repetition
of Empty never ends on a non-empty input vector
(`Properties.RepetitionOfEmptyIsNotWellFormed`).

## Model

| member | source | states |
|---|---|---|
| Assemblies.Assembly.Clone | parser/src/main/java/sjm/parse/Assembly.java:57-64 | the copy is a new object with the same cursor, stack contents and target |
| Assemblies.CloneIsolation | parser/src/main/java/sjm/parse/Assembly.java:59-60 | pushing on a clone leaves the original assembly's state unchanged |
| Assemblies.Assembly.ElementsConsumed | parser/src/main/java/sjm/parse/Assembly.java:93-95 | elements consumed is the cursor, and length minus it is the number remaining |
| Assemblies.Assembly.ElementsRemaining | parser/src/main/java/sjm/parse/Assembly.java:103-105 | remaining is length minus consumed, and it is positive exactly when there are more elements |
| Assemblies.Assembly.HasMoreElements | parser/src/main/java/sjm/parse/Assembly.java:138-140 | holds exactly when elements consumed is below the length, and exactly when the remaining count is positive |
| Assemblies.Assembly.Push | parser/src/main/java/sjm/parse/Assembly.java:174-176 | the object goes on top of the stack; the cursor and target are unchanged |
| Assemblies.Assembly.Pop | parser/src/main/java/sjm/parse/Assembly.java:165-167 | returns and removes the top of a non-empty stack; on an empty stack it fails and changes nothing; the cursor and target are unchanged |
| Assemblies.PushPopRoundTrip | parser/src/main/java/sjm/parse/Assembly.java:165-176 | a push followed by a pop returns the pushed object and restores the assembly's whole state |
| Assemblies.Assembly.StackIsEmpty | parser/src/main/java/sjm/parse/Assembly.java:203-205 | holds exactly when the stack has no elements |
| Assemblies.Assembly.Unget | parser/src/main/java/sjm/parse/Assembly.java:222-227 | with the cursor and n as Java ints, the cursor becomes index - n with 32-bit wrap-around, clamped at zero; so a non-negative n gives max(0, index - n), a negative n that would overflow gives 0, and the cursor stays an int; the stack and target are unchanged |
| Engine.Add | parser/src/main/java/sjm/parse/Parser.java:84-89 | the result is v1 followed by every element of v2, in order |
| Engine.ElementClone | parser/src/main/java/sjm/parse/Parser.java:157-165 | same length; each element is a fresh object with the state of the element at the same position; no object occurs twice; the input vector is not modified |
| Semantics.FirstComplete | parser/src/main/java/sjm/parse/Parser.java:101-105 | the first fully consumed assembly in vector order, with every earlier one unfinished; none exactly when all are unfinished |
| Semantics.FirstMost | parser/src/main/java/sjm/parse/Parser.java:106-112 | an index whose assembly consumed at least as much as every assembly and strictly more than every earlier one |
| Semantics.BestIndex | parser/src/main/java/sjm/parse/Parser.java:98-115 | none exactly for the empty vector; if some assembly is fully consumed, the first such; otherwise the earliest with the most elements consumed |
| Semantics.FirstCompleteAt | parser/src/main/java/sjm/parse/Parser.java:101-105 | a fully consumed assembly preceded only by unfinished ones is the selected one, whatever follows it |
| Semantics.FirstMostCharacterised | parser/src/main/java/sjm/parse/Parser.java:106-112 | the index that is maximal and strictly ahead of every earlier index is unique; the strict comparison keeps the first of a tie |
| Semantics.BestIndexUnfinished | parser/src/main/java/sjm/parse/Parser.java:106-114 | with no fully consumed assembly, the selection is the earliest maximum |
| Engine.Best | parser/src/main/java/sjm/parse/Parser.java:98-115 | returns nothing exactly for an empty vector; otherwise returns the very object at the position BestIndex selects |
| Semantics.BestMatch | parser/src/main/java/sjm/parse/Parser.java:126-131 | none exactly when matching the singleton vector yields nothing; otherwise one of the outputs |
| Engine.BestMatch | parser/src/main/java/sjm/parse/Parser.java:126-131 | returns a fresh assembly whose state is the best of matching the singleton vector, or nothing exactly when the value semantics gives nothing; the argument is left as the match leaves it |
| Semantics.CompleteMatch | parser/src/main/java/sjm/parse/Parser.java:141-147 | a result is fully consumed, is an output of the match and equals bestMatch; there is a result exactly when some output is fully consumed |
| Engine.CompleteMatch | parser/src/main/java/sjm/parse/Parser.java:141-147 | returns the best match when it is fully consumed and nothing otherwise, agreeing with the value semantics |
| Engine.MatchAndAssemble | parser/src/main/java/sjm/parse/Parser.java:208-217 | the outputs are fresh and distinct, with the states of the node's match followed by its assembler on each result; the inputs end as the value semantics says |
| Engine.Match | parser/src/main/java/sjm/parse/Parser.java:196 | dispatch on the node's kind, with fresh distinct outputs equal to the value semantics of that kind |
| Properties.MatchKeepsInputs | parser/src/main/java/sjm/parse/Parser.java:208-217 | with no pre-assembler below the node, matching leaves the input vector's values as they were |
| Semantics.MatchAndAssemble | parser/src/main/java/sjm/parse/Parser.java:208-217 | the match's results with the node's assembler applied to each: the assembler touches only the results, never the inputs, and moves no cursor; input cursors never move |
| Semantics.Match | parser/src/main/java/sjm/parse/Parser.java:196 | the match of the node's kind; whatever pre-assemblers do to the inputs, no input cursor moves |
| Semantics.AssembleAll | parser/src/main/java/sjm/parse/Repetition.java:113-118 | an assembler applied to every assembly of a vector keeps the vector's length and every cursor |
| Semantics.AlternationMatch | parser/src/main/java/sjm/parse/Alternation.java:97-105 | each alternative's results appended in subparser order, each alternative working on the same input assemblies; no input cursor moves; no alternatives give no results |
| Semantics.RepetitionMatch | parser/src/main/java/sjm/parse/Repetition.java:112-126 | the pre-assembled inputs (the zero case) followed by every round's results; the output is at least as long as the input; no input cursor moves |
| Semantics.Rounds | parser/src/main/java/sjm/parse/Repetition.java:120-124 | the rounds of the loop from a working vector: no round on an empty vector; no cursor of the working vector moves |
| Engine.EmptyMatch | parser/src/main/java/sjm/parse/Empty.java:51-53 | exactly one fresh clone per input, with the same cursor and stack, in order and distinct; the inputs are not modified |
| Properties.EmptyMatchesInput | parser/src/main/java/sjm/parse/Empty.java:51-53 | Empty yields the input values one for one and consumes nothing |
| Grammars.EmptyRandomExpansion | parser/src/main/java/sjm/parse/Empty.java:59-61 | the expansion is empty for any depths |
| Properties.EmptyMakesNoProgress | parser/src/main/java/sjm/parse/Repetition.java:121-124 | Empty leaves the largest remaining budget as it was, so it is not consuming and cannot be repeated |
| Properties.RepetitionOfEmptyIsNotWellFormed | parser/src/main/java/sjm/parse/Repetition.java:121-124 | a grammar with a repetition of Empty is outside the grammars on which matching terminates |
| Engine.AlternationMatch | parser/src/main/java/sjm/parse/Alternation.java:97-105 | the outputs are fresh and distinct and equal the value semantics: each alternative's results appended in subparser order |
| Engine.AlternativeStep | parser/src/main/java/sjm/parse/Alternation.java:100-103 | one alternative runs on the input objects themselves, and its results are appended after those already collected |
| Properties.AlternationKeepsInputs | parser/src/main/java/sjm/parse/Alternation.java:101-102 | without pre-assemblers, every alternative sees the same input values |
| Properties.AlternationConcatenates | parser/src/main/java/sjm/parse/Alternation.java:97-105 | the output is the concatenation of each alternative's results on the same input; its length is their sum; no alternatives give an empty output |
| Properties.AllAlternativesContains | parser/src/main/java/sjm/parse/Alternation.java:101-102 | every result of any alternative is in the alternation's output |
| Properties.AlternationWithEmpty | parser/src/main/java/sjm/parse/Alternation.java:97-105 | with an Empty alternative that has no assembler and no pre-assembler below, every input value is among the outputs (the optional idiom) |
| Properties.AlternationWithEmptyCursors | parser/src/main/java/sjm/parse/Alternation.java:97-105 | with an Empty alternative, whatever assemblers and pre-assemblers do, the output has an assembly at the position of every input |
| Printing.ToStringSeparator | parser/src/main/java/sjm/parse/Alternation.java:156-158 | the separator is the single character bar |
| Grammars.Accept | parser/src/main/java/sjm/parse/Alternation.java:81-83 | a node asks the visitor for exactly one visit, the one for its kind (alternation, repetition, empty), passing itself and the visited vector |
| Grammars.AcceptFresh | parser/src/main/java/sjm/parse/Parser.java:63-65 | accept without a vector dispatches with an empty visited vector |
| Grammars.SetAssembler | parser/src/main/java/sjm/parse/Parser.java:254-257 | the node's assembler becomes the one given, and None (null) removes it; the node keeps its name and kind; every other node is unchanged |
| Grammars.SettersKeepWellFormed | parser/src/main/java/sjm/parse/Parser.java:254-257 | setting an assembler or a pre-assembler keeps a grammar well formed |
| Grammars.SetPreAssembler | parser/src/main/java/sjm/parse/Repetition.java:158-161 | the repetition's pre-assembler becomes the one given, and None (null) removes it; it keeps its subparser, name and assembler; every other node is unchanged |
| Grammars.NewRepetition | parser/src/main/java/sjm/parse/Repetition.java:52-71 | the new repetition's getSubparser is the parser it was given; the name is kept; no assembler and no pre-assembler |
| Engine.RepetitionMatch | parser/src/main/java/sjm/parse/Repetition.java:112-126 | the outputs are fresh and distinct; the outputs and the inputs' new values equal the value semantics: pre-assembly, the zero case, then the rounds |
| Engine.AssembleEach | parser/src/main/java/sjm/parse/Repetition.java:113-118 | an optional assembler works once on each assembly in place, and the vector's new values are the assembler applied to each old value; the same loop serves Parser.java:210-215 |
| Engine.FirstRound | parser/src/main/java/sjm/parse/Repetition.java:120-124 | the first round runs the subparser on the input objects, and its results follow the zero-case clones |
| Engine.RoundStep | parser/src/main/java/sjm/parse/Repetition.java:121-124 | a later round runs on the previous round's output objects and appends its results |
| Engine.RoundsPendingStep | parser/src/main/java/sjm/parse/Repetition.java:121-124 | each round keeps the loop invariant and strictly lowers the largest remaining budget, so the loop ends |
| Semantics.ConsumingShrinks | parser/src/main/java/sjm/parse/Repetition.java:121-124 | every result of a consuming node has fewer elements left to consume than the input with the most left |
| Semantics.RoundShrinks | parser/src/main/java/sjm/parse/Repetition.java:121-124 | a round of a consuming subparser on a non-empty vector lowers the largest remaining budget |
| Properties.RepetitionZeroCase | parser/src/main/java/sjm/parse/Repetition.java:113-119 | the first entries of the output are the inputs, pre-assembled exactly once when there is a pre-assembler and untouched otherwise; a non-empty input gives a non-empty output |
| Properties.RepetitionInputs | parser/src/main/java/sjm/parse/Repetition.java:113-118 | in any well-formed grammar, a repetition leaves its inputs with the values its own pre-assembler gave them, and unchanged when it has none |
| Properties.RoundsUnfold | parser/src/main/java/sjm/parse/Repetition.java:120-124 | no round runs on an empty vector; otherwise one round's results come first and the next round runs on them, up to the first empty round |
| Properties.RoundsKeepInputs | parser/src/main/java/sjm/parse/Repetition.java:120-124 | with a consuming subparser the rounds leave the working vector's values as they were |
| Properties.MatchAndAssembleInBounds | parser/src/main/java/sjm/parse/Parser.java:208-217 | from inputs whose cursors lie within their elements, matchAndAssemble leaves every input and every result cursor within its elements |
| Properties.MatchInBounds | parser/src/main/java/sjm/parse/Parser.java:196 | every kind's match keeps input and result cursors within their elements |
| Properties.AlternationInBounds | parser/src/main/java/sjm/parse/Alternation.java:97-105 | an alternation keeps input and result cursors within their elements |
| Properties.RepetitionInBounds | parser/src/main/java/sjm/parse/Repetition.java:112-126 | a repetition keeps input and result cursors within their elements |
| Properties.RoundsInBounds | parser/src/main/java/sjm/parse/Repetition.java:120-124 | the rounds keep the working vector's and every result's cursor within its elements |
| Properties.CompleteMatchExhausts | parser/src/main/java/sjm/parse/Parser.java:141-147 | from an assembly within bounds, bestMatch has no negative remainder and completeMatch returns an assembly with exactly zero elements remaining |
| Properties.ConsumingKeepsInputs | parser/src/main/java/sjm/parse/Repetition.java:121-124 | a consuming node, built from terminals and alternations only, leaves its inputs' values as they were |
| Printing.ToString | parser/src/main/java/sjm/parse/Parser.java:284-293 | the visited vector only grows, only by unnamed nodes not yet in it, never gets a node twice, and an unvisited unnamed node is appended first |
| Printing.ToStringCases | parser/src/main/java/sjm/parse/Parser.java:284-293 | a named parser prints its name and leaves visited alone; an unnamed visited one prints "..."; otherwise the node is appended exactly once and its own text follows |
| Printing.UnvisitedString | parser/src/main/java/sjm/parse/Repetition.java:166-168 | an Empty node prints " empty ", a repetition its subparser followed by "*", an alternation its alternatives joined by the separator; visited only grows |
| Printing.Join | parser/src/main/java/sjm/parse/Alternation.java:156-158 | alternatives are printed in order with the separator between them, each walk continuing from the visited vector the previous one left |
| Printing.Describe | parser/src/main/java/sjm/parse/Parser.java:265-267 | the description starts from an empty visited vector, and a named parser is described by its name |
| Examples.AStarOnAaab | parser/src/main/java/sjm/parse/Repetition.java:101-103 | a* on ^aaab yields ^aaab, a^aab, aa^ab and aaa^b, in that order |
| Examples.AStarOnObjects | parser/src/main/java/sjm/parse/Parser.java:183-188 | on assembly objects, a* on ^aaab yields four fresh assemblies with cursors 0, 1, 2 and 3 |
| Examples.AStarBestMatch | parser/src/main/java/sjm/parse/Parser.java:126-147 | the best match of a* on ^aaab is aaa^b, and since b is left there is no complete match |
| Examples.OptionalOnAaab | parser/src/main/java/sjm/parse/Alternation.java:97-105 | a \| empty on ^aaab yields a^aab, then ^aaab from the Empty alternative |
| Examples.AStarDescription | parser/src/main/java/sjm/parse/Repetition.java:166-168 | the repetition of the terminal a is described as a* |
| Examples.OptionalDescription | parser/src/main/java/sjm/parse/Empty.java:66-68 | a \| empty is described as "a\| empty " |
| Examples.CyclicDescription | parser/src/main/java/sjm/parse/Parser.java:287-288 | an alternation that contains itself is described as "...\| empty ": the second visit prints "..." |

## Left out

- Randomised expansion is not modelled: `randomExpansion` of Repetition and Alternation, `randomSettle` and `Parser.randomInput`. It depends on `Math.random` and doubles. Only Empty's constant expansion is modelled.
- The Coffee example, the tokenizer's `WordState`, and the tests are not part of this model. They are application code, I/O and printing.
- The bodies of `ParserVisitor` are not modelled. They are abstract. `Accept` returns which visit method would be called, instead of calling it.
- The abstract assembly members are not modelled: `consumed`, `remainder`, `peek`, `defaultDelimiter` and `toString`. Their bodies live in unseen subclasses. `length` is the length of the element sequence.
- The target is an opaque value. Copying it stands for the deep clone of a publicly cloneable target.
- The sources of `Terminal`, `Sequence` and `CollectionParser` are not part of this model:
  - There is no Sequence node.
  - The Terminal kind is a stand-in: it advances one element when that element satisfies a predicate. It exists only to state the worked examples.
  - An alternation's description joins its alternatives with the separator and adds no brackets. This is the part of `CollectionParser.unvisitedString` that the Alternation source implies.
- Assemblers cannot move the cursor. An assembler replaces only the stack and the target. The source allows an assembler to call `unget`. That is excluded so that "every sub-match advances the cursor" has a meaning.
- Java's `Vector` is modelled as a sequence value.
  - `Engine.Add` returns `v1 + v2` instead of appending into `v1` in place.
  - `Printing.ToString` threads the visited vector as a value: it returns the vector after the walk, instead of appending to a shared `Vector`.
- Engine methods require that no assembly object occurs twice in an input vector. Every vector the engine builds satisfies this, because every output is fresh and distinct.
- `Engine.RepetitionMatch`: the source's single `while` loop is written as its first round, followed by a loop over the later rounds. The first round is the one that runs on the input objects.
- `Engine.RepetitionMatch` requires a consuming subparser. Without one, the source does not terminate.
- `Semantics.Rounds`: a test on the largest remaining budget makes the definition total. `Semantics.RoundShrinks` proves the test always succeeds on well-formed grammars. On those grammars, the rounds are exactly the source's loop.
- `Assemblies.Assembly.Pop` returns a failure on an empty stack instead of requiring a non-empty stack. This stands for the EmptyStackException.
- `Properties.AlternationConcatenates`, `Properties.AlternationKeepsInputs` and `Properties.MatchKeepsInputs` are stated only when no repetition below the node has a pre-assembler. Otherwise a pre-assembler can change the shared input assemblies between alternatives. The engine and the value semantics model that case in full.
- `Properties.AlternationWithEmpty` states that the inputs' exact values are among the outputs only when the Empty alternative has no assembler and no repetition below has a pre-assembler. Otherwise the Empty alternative sees, and its assembler changes, the stacks and targets. `Properties.AlternationWithEmptyCursors` states the general case for cursors only.
- `Assemblies.Assembler` is a total function of the assembly's value and holds no state of its own. Two behaviours of Java assemblers are therefore not modelled. First, an assembler that throws, for example by popping an empty stack, aborts the whole match; in the model a match always completes. Second, an assembler with its own fields can observe the order of its `workOn` calls. The model fixes that order, which is vector order, in `Engine.AssembleEach`, but no assembler can see it.
- `Assemblies.Assembly.Unget` requires the cursor and n to be within Java's int range, as their Java type guarantees.
- `Grammars.Accept` has one row in the table but covers three sources: `accept` of Alternation (Alternation.java:81-83), of Repetition (Repetition.java:82-84) and of Empty (Empty.java:37-39).
- `Grammars.GetName` and `Grammars.GetSubparser` are plain accessors. Their contracts are stated through `Grammars.SetAssembler` and `Grammars.NewRepetition`.
