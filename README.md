# XHAIL problem aggregate and encoders

XHAIL (eXtended Hybrid Abductive Inductive Learning) turns a learning
problem into answer-set programs, which an external grounder and solver
then run. This project models the two components that build the text of
those programs, and proves properties of that model.

- **The problem aggregate** (`Problem.java`). It holds the directives of a
  problem:
  - display registrations;
  - examples with an `ExampleData` annex;
  - body modes, each with a `ModeBodyData` annex, bucketed by priority (1 by default);
  - head modes with a `ModeHeadData` annex;
  - the types their placemarkers mention.

  It also holds the standard statements it keeps as a model of its own, and
  the model that `derive` caches behind a dirty flag.
  - `processExamples` appends one aggregated `#maximize` and a constraint per
    mute example.
  - `processModeHeads` appends, per head, a `#hide`, a `#minimize`, a choice
    rule, a bridging rule and a type-gate rule.

  The aggregate is the class `Problems.Problem` (`problem.dfy`). Its mutators
  change its fields under `modifies` clauses, and the encodings are the
  functions of `problem_encoding.dfy`. The annexes (`annex.dfy`) and the
  atoms and literals of this component (`predicates.dfy`) are datatypes.
- **The encoders** (`Utils.java`).
  - The clause encoder compiles each candidate clause into statements that
    let the solver choose which of its literals to use:
    - `clause/1`, `literal/2` and `clause_level/2`;
    - the level-contiguity constraints;
    - one `#minimize` per position;
    - the head rule;
    - the two `try_clause_literal` rules per body literal.
    It lives in `clause_encoding.dfy`.
  - `encoders.dfy` holds the encoders of examples, head modes and display
    directives, and the `#show` filters of a problem and of a grounding.
  - `listings.dfy` holds the labelled listings of atoms, literals and clauses.

  Every encoder with a loop is a method with the loops of the Java code.
  Each such method is proved against a function that states its output, and
  lemmas give the shape, count and distinctness properties of that function.
  `convert(Display)` has no loop and is the function `Encoders.ConvertDisplay`.

Collections are modelled as follows:

- Java `null` arguments are `Option` values.
- An `IllegalArgumentException` is `Failure(IllegalArgument(<parameter>))`.
- A `LinkedHashSet` is a sequence without repetitions (`LinkedSets.Add`, `LinkedSets.AddAll`).
- A `TreeSet<String>` is a strictly sorted sequence (`Strings.Insert`). A
  sorted sequence is fixed by its elements (`Strings.SortedUnique`).
- The key order of a `TreeMap` is a key sequence ordered by the keys'
  rendering (`TreeKeys`).

The Java classes for terms, clauses, modes and the `Model` superclass are
not part of this model. Each value carries what the methods the core calls
on it return:

- `toString`, as a `text` field;
- `decode`, as the four lists it fills;
- `getVariables`, `getLevel`, `getWeight`, `getPriority`, `asAlternate`,
  `generalises` and the placemarker list.

In these places the model follows the code, which a reader might expect to
behave otherwise:

- Adding an example, body mode or head mode whose key is already stored
  returns `false` and leaves the dirty flag alone, even when the new annex
  differs from the stored one, which the new annex still overwrites. The
  annexes do not override `equals`, so a fresh annex never equals the stored
  one. The Javadoc at Problem.java:265-273, 286-294 and 314-322 speaks of
  the directive as a whole.
- `addModeHead(h, 5, 2, …)` is rejected on `max`. It is not normalised.
- `clear()` leaves the head modes in place (it calls `modeheads.size()`).
- `addDisplayAll` does not mark the problem modified.

## Model

| member | source | states |
|---|---|---|
| Annex.Defaults | src/main/java/ac/bristol/bragaglia/xhail/core/Problem.java:46-56 | An absent weight or priority reads back as 1 and a present one as itself; an example is mute exactly when both are absent. The same holds for the bound, weight and priority of the body and head annexes (lines 93-103, 162-168). |
| Annex.ExampleAsDataDetermines | src/main/java/ac/bristol/bragaglia/xhail/core/Problem.java:38-40 | Two example annexes with the same ` =w @p` rendering have the same effective weight and priority. |
| Annex.WeightPrioritySplit | src/main/java/ac/bristol/bragaglia/xhail/core/Problem.java:38-40 | The text ` =w @p` determines both `w` and `p`. |
| Annex.ShiftedAbove | src/main/java/ac/bristol/bragaglia/xhail/core/Problem.java:42-44 | `asData(maxPriority)` writes the weight and then the priority `1 + maxPriority + p`, which is above `maxPriority` when `p` is non-negative. |
| Annex.ExampleToStringInjective | src/main/java/ac/bristol/bragaglia/xhail/core/Problem.java:59-66 | An example annex's `toString` loses nothing: equal renderings mean equal annexes, absent values included. |
| Annex.ModeBodyToStringFillsDefaults | src/main/java/ac/bristol/bragaglia/xhail/core/Problem.java:106-112 | A body annex's `toString` fills in the defaults, so an absent weight and priority render like explicit 1s, as ` =1 @1`. |
| Annex.NewModeHeadData | src/main/java/ac/bristol/bragaglia/xhail/core/Problem.java:131-138 | The constructor fails on `lower` exactly when the lower bound is absent and the upper one is present; otherwise it stores all four values. |
| Annex.WindowNormalised | src/main/java/ac/bristol/bragaglia/xhail/core/Problem.java:144-160 | With both bounds given, `asLower` is a numeral and a space, `asUpper` a space and a numeral; the left value is at most the right one, and together they are the two bounds. |
| Annex.WindowUnordered | src/main/java/ac/bristol/bragaglia/xhail/core/Problem.java:144-160 | Swapping the two bounds renders the same `asLower` and `asUpper`, so (5,2) and (2,5) give the same window. |
| Annex.WindowAbsent | src/main/java/ac/bristol/bragaglia/xhail/core/Problem.java:144-160 | When either bound is absent, both `asLower` and `asUpper` are empty. |
| Annex.ModeHeadData.MaxPriority | src/main/java/ac/bristol/bragaglia/xhail/core/Problem.java:170-175 | The result is the larger of the argument and the annex's priority. |
| Problems.BoundsError | src/main/java/ac/bristol/bragaglia/xhail/core/Problem.java:327-330 | The bounds are accepted exactly when `min <= max` and both have the same sign. Otherwise the rejected argument is `min` when `min >= 0 && max < 0`, and `max` in the other cases. |
| Problems.AcceptedBoundsWindow | src/main/java/ac/bristol/bragaglia/xhail/core/Problem.java:327-332 | Accepted bounds always build a valid annex, whose window renders as `min ` and ` max` in that order. |
| Problems.BucketsAdd | src/main/java/ac/bristol/bragaglia/xhail/core/Problem.java:301-307 | Storing a body in the bucket of its priority, creating the bucket if needed, keeps every bucket's insertion-ordered key list exact and free of repetitions. |
| Problems.EncodeModeHead | src/main/java/ac/bristol/bragaglia/xhail/core/Problem.java:619-639 | The loop that decodes each argument of a head and builds its names and heads produces exactly the five statements the encoding function gives for that head. |
| Problems.Problem.constructor | src/main/java/ac/bristol/bragaglia/xhail/core/Problem.java:233-242 | A new problem has no displays, examples, modes or types, no cached model, and is not modified. |
| Problems.Problem.AddDisplay | src/main/java/ac/bristol/bragaglia/xhail/core/Problem.java:244-259 | A missing or blank name fails on `name`, and a negative arity fails on `arity`, with nothing changed. Otherwise the arity is added under the trimmed name. The result and the dirty flag say whether the arity was new for that name. |
| Problems.Problem.AddDisplayAll | src/main/java/ac/bristol/bragaglia/xhail/core/Problem.java:261-264 | Sets the display-all flag and changes nothing else, not the dirty flag either. |
| Problems.Problem.AddExample | src/main/java/ac/bristol/bragaglia/xhail/core/Problem.java:275-285 | A missing fact fails on `fact` with nothing changed. Otherwise the new annex overwrites any old one and the key joins the tree order. Both the result and the dirty flag say whether the fact was absent. |
| Problems.Problem.AddModeBody | src/main/java/ac/bristol/bragaglia/xhail/core/Problem.java:296-313 | A missing body fails on `body`. Otherwise its types are collected first, and the body is stored with a fresh annex in the bucket of its priority (1 by default). The result and the dirty flag say whether the body was absent from that bucket. |
| Problems.Problem.AddModeHead | src/main/java/ac/bristol/bragaglia/xhail/core/Problem.java:324-339 | A missing head fails on `head`, and rejected bounds fail on `min` or `max`, with nothing changed. Otherwise the head's types are collected and the head is stored with its annex. The result and the dirty flag say whether the head was absent. |
| Problems.Problem.Clear | src/main/java/ac/bristol/bragaglia/xhail/core/Problem.java:347-354 | Empties the own statements, the examples and the body modes, and marks the problem modified. The head modes, types and displays stay. |
| Problems.Problem.FindTypes | src/main/java/ac/bristol/bragaglia/xhail/core/Problem.java:453-465 | The recursion adds exactly `TypesOf(a)` to the types, which never shrink. |
| Predicates.TypesOfMarks | src/main/java/ac/bristol/bragaglia/xhail/core/Problem.java:453-465 | A term is a type of an atom exactly when a placemarker reached through non-placemarker arguments has it as its argument. |
| Predicates.ArgTypesMarks | src/main/java/ac/bristol/bragaglia/xhail/core/Problem.java:462-463 | The types collected from the first `n` arguments are exactly the terms marked inside one of them. |
| Predicates.PlacemarkerAddsItsArgument | src/main/java/ac/bristol/bragaglia/xhail/core/Problem.java:459-460 | An arity-1 atom with functor `+`, `-` or `$` contributes exactly its argument and is not descended into. |
| Predicates.CompoundDescends | src/main/java/ac/bristol/bragaglia/xhail/core/Problem.java:458-463 | Any other atom of positive arity contributes exactly what its arguments contribute (an arity-0 atom contributes nothing). |
| TreeKeys.InsertKeyFacts | src/main/java/ac/bristol/bragaglia/xhail/core/Problem.java:279 | `put` keeps the key sequence ordered and without repetition, over exactly the grown key set. A present key leaves the sequence unchanged; a new one lengthens it by one. |
| TreeKeys.KeySequenceUnique | src/main/java/ac/bristol/bragaglia/xhail/core/Problem.java:600 | When distinct keys render differently, the iteration order of the key set is fixed by the keys alone. |
| Problems.Problem.ProcessExamples | src/main/java/ac/bristol/bragaglia/xhail/core/Problem.java:595-609 | Walking the examples in key order appends exactly the example encoding of the problem's examples to the model. |
| ProblemEncoding.ExamplesAppend | src/main/java/ac/bristol/bragaglia/xhail/core/Problem.java:600-605 | One more example adds the term `lit =w @p` to the maximize, and adds its constraint exactly when it is mute. |
| ProblemEncoding.MuteConstraintsMembers | src/main/java/ac/bristol/bragaglia/xhail/core/Problem.java:603-604 | A constraint is emitted exactly for each mute example: `:- not a.` for a positive one, `:- a.` for a negated one. |
| ProblemEncoding.MuteConstraintsCount | src/main/java/ac/bristol/bragaglia/xhail/core/Problem.java:603-604 | There are exactly as many constraints as mute examples. |
| ProblemEncoding.ExampleEncodingCounts | src/main/java/ac/bristol/bragaglia/xhail/core/Problem.java:598-606 | The example encoding appends one maximize exactly when there are examples, plus one constraint per mute example. It keeps what was there and leaves hides, minimizes and clauses alone. |
| ProblemEncoding.ExampleEncodingInstance | src/main/java/ac/bristol/bragaglia/xhail/core/Problem.java:599-606 | The examples `not q` (mute) and `p(a) =2` encode to `#maximize[ not q =1 @1, p(a) =2 @1 ].` and `:- q.` |
| Problems.Problem.ProcessModeHeads | src/main/java/ac/bristol/bragaglia/xhail/core/Problem.java:616-643 | Walking the head modes in key order appends exactly the mode-head encoding of the problem's heads to the model. |
| ProblemEncoding.ModeHeadLayout | src/main/java/ac/bristol/bragaglia/xhail/core/Problem.java:617-640 | The mode-head encoding appends one hide, one minimize and three rules per head after what the model held, and leaves maximizes and constraints alone. |
| ProblemEncoding.ModeHeadAt | src/main/java/ac/bristol/bragaglia/xhail/core/Problem.java:632-639 | The `i`-th head's hide and minimize are at place `i` of their sections. Its choice rule, bridging rule and type rule are at places `3i`, `3i+1` and `3i+2` of the clauses. |
| ProblemEncoding.ModeHeadsAppend | src/main/java/ac/bristol/bragaglia/xhail/core/Problem.java:618-640 | One more head appends its statements to each section. |
| ProblemEncoding.ModeHeadsNone | src/main/java/ac/bristol/bragaglia/xhail/core/Problem.java:617 | Without head modes the model is left as it was. |
| ProblemEncoding.DecodeAllNoVars | src/main/java/ac/bristol/bragaglia/xhail/core/Problem.java:624-625 | No variable is decoded exactly when no argument decodes one. |
| ProblemEncoding.AbducibleNameInjective | src/main/java/ac/bristol/bragaglia/xhail/core/Problem.java:628 | `abd_<name>_<w>_<p>` names agree exactly when the names, effective weights and effective priorities agree. |
| ProblemEncoding.HeadWindowUnordered | src/main/java/ac/bristol/bragaglia/xhail/core/Problem.java:633-634 | Swapping a head's two bounds changes none of its five statements. |
| ProblemEncoding.ChoiceRuleWindow | src/main/java/ac/bristol/bragaglia/xhail/core/Problem.java:634 | The choice rule is `lo { abd : typ } hi.` with the smaller bound first when both are given, and `{ abd : typ }.` otherwise. |
| ProblemEncoding.TypeRuleWithoutVariables | src/main/java/ac/bristol/bragaglia/xhail/core/Problem.java:632-639 | A head without variables gets the bare fact `typ_<name>.` and the hide `#hide typ_<name>/0.` |
| ProblemEncoding.ModeHeadInstance | src/main/java/ac/bristol/bragaglia/xhail/core/Problem.java:626-639 | `p(+int)` with window 1..1 encodes to `#hide typ_p/1.`, `#minimize[ abd_p_1_1(V) =1 @1 : typ_p(V) ].`, `1 { abd_p_1_1(V) : typ_p(V) } 1.`, `p(V) :- typ_p(V), abd_p_1_1(V).` and `typ_p(V) :- int(V).` |
| Problems.Problem.Derive | src/main/java/ac/bristol/bragaglia/xhail/core/Problem.java:365-374 | With a model cached and nothing modified, it returns the cached model and changes nothing. Otherwise it rebuilds (own statements, then mode heads, then examples), caches the result and clears the dirty flag. |
| Problems.Problem.Induce | src/main/java/ac/bristol/bragaglia/xhail/core/Problem.java:486-491 | Returns the own statements plus the example encoding, and leaves the cache and the dirty flag untouched. |
| ProblemEncoding.DeriveExtendsInduce | src/main/java/ac/bristol/bragaglia/xhail/core/Problem.java:365-370 | Deriving and inducing yield the same maximizes and constraints. The mode heads contribute only hides, minimizes and clauses. |
| Problems.Problem.IsAbducible | src/main/java/ac/bristol/bragaglia/xhail/core/Problem.java:511-515 | True exactly when there is a head mode. |
| Problems.Problem.IsDisplayable | src/main/java/ac/bristol/bragaglia/xhail/core/Problem.java:517-524 | A missing candidate fails on `candidate`, and only then. Otherwise the result is whether the untrimmed name is registered with the candidate's arity. |
| Problems.Problem.IsDisplayAll | src/main/java/ac/bristol/bragaglia/xhail/core/Problem.java:526-529 | Returns the display-all flag. |
| Problems.Problem.IsEmpty | src/main/java/ac/bristol/bragaglia/xhail/core/Problem.java:531-540 | True exactly when there is no display-all flag, display, example, body mode or head mode, and the cached model is absent or empty. |
| ProblemScenarios.ReAddedExampleOverwrites | src/main/java/ac/bristol/bragaglia/xhail/core/Problem.java:278-280 | Adding a fact twice returns true and then false, and the second annex is the one stored. |
| ProblemScenarios.ModeBodiesBucketByPriority | src/main/java/ac/bristol/bragaglia/xhail/core/Problem.java:300-308 | A body is new again under another priority. Under the same priority it is not new, whatever its other annex values. |
| ProblemScenarios.ReversedBoundsRejected | src/main/java/ac/bristol/bragaglia/xhail/core/Problem.java:329-330 | `addModeHead(h, 5, 2, …)` fails on `max` and leaves the problem without head modes. |
| ProblemScenarios.DeriveIsCached | src/main/java/ac/bristol/bragaglia/xhail/core/Problem.java:365-373 | A second `derive` with nothing changed returns the same model, which stays cached, with the problem unmodified. |
| ProblemScenarios.DisplayAllKeepsCache | src/main/java/ac/bristol/bragaglia/xhail/core/Problem.java:261-264 | `derive`, then `addDisplayAll`, then `derive` again returns the cached model. |
| ProblemScenarios.NewExampleRebuilds | src/main/java/ac/bristol/bragaglia/xhail/core/Problem.java:275-282 | A new example marks the problem modified, so `derive` rebuilds. The mode-head statements follow, and exactly one maximize is added. |
| ProblemScenarios.ClearKeepsModeHeads | src/main/java/ac/bristol/bragaglia/xhail/core/Problem.java:347-354 | After `clear` the problem is still abducible and non-empty, and `induce` yields the empty model. |
| ProblemScenarios.DisplayNamesAreTrimmed | src/main/java/ac/bristol/bragaglia/xhail/core/Problem.java:517-521 | ` p `/1 is registered as `p`/1. An atom named `p` is then displayable, one named ` p ` is not. |
| ClauseEncoding.Enumerate | src/main/java/xhail/core/Utils.java:123-124 | Iterating a `HashSet` lists each of its elements exactly once, in some order. |
| ClauseEncoding.Variables | src/main/java/xhail/core/Utils.java:165-168 | The loop over a literal's variables builds the `,V` list in order and adds exactly their `,type(V)` guards to the set. |
| ClauseEncoding.ConvertLiteral | src/main/java/xhail/core/Utils.java:155-181 | Fails on `id` when `id < 0`, then on `pos` when `pos < 1`, then on `literal` when it is missing. Otherwise it gives the two try rules, unused and then used. Both write one listing of the literal's guard set, each guard once. |
| ClauseEncoding.TryRulesDiffer | src/main/java/xhail/core/Utils.java:169-179 | The two try rules of a literal are different statements, so a literal always gets exactly two. |
| ClauseEncoding.ConvertHead | src/main/java/xhail/core/Utils.java:104-127 | Fails on `id`, `head` or `body`, in that order. Otherwise the result is `head:-use_clause_literal(id,0)`, then one try condition per body literal in order, then each guard of the body's variables exactly once, then `.` |
| ClauseEncoding.AppendTryCalls | src/main/java/xhail/core/Utils.java:112-122 | The loop appends the try condition of positions 1..n in order and collects exactly the guards of all the body's variables. |
| ClauseEncoding.TryCalls | src/main/java/xhail/core/Utils.java:114-122 | One try condition per body literal. This length follows directly from the comprehension that defines it; what the conditions hold is stated by `HeadRuleTriesEveryLiteral`. |
| ClauseEncoding.HeadRuleTriesEveryLiteral | src/main/java/xhail/core/Utils.java:111-125 | The try condition of every position occurs in the head rule, right after the head, the use of the clause and the conditions of the positions before it. |
| ClauseEncoding.ConvertClause | src/main/java/xhail/core/Utils.java:129-153 | Fails on `id` when `id < 0`, then on `clause` when it is missing. Otherwise it gives the insertion-ordered set of the clause's statements, in the order the source adds them. |
| ClauseEncoding.ClauseOutputFacts | src/main/java/xhail/core/Utils.java:134-152 | A clause's statements never repeat, and every statement added is present. The set starts with `clause(id).`, `literal(id,1..n).` and `clause_level(id,0):-use_clause_literal(id,0).` |
| ClauseEncoding.ClauseOutputHeader | src/main/java/xhail/core/Utils.java:135-137 | The first three statements are the clause fact, the literal range and the head's level rule. |
| ClauseEncoding.HeaderDistinct | src/main/java/xhail/core/Utils.java:135-137 | The clause fact, the literal range and the head's level rule are three different statements. |
| ClauseEncoding.ClauseFactInjective | src/main/java/xhail/core/Utils.java:135 | Different ids give different `clause(id).` facts. |
| ClauseEncoding.LevelRules | src/main/java/xhail/core/Utils.java:138-139 | One level rule per body position. This length follows directly from the comprehension that defines it; `AddLevelRules` ties the loop to it. |
| ClauseEncoding.AddLevelRules | src/main/java/xhail/core/Utils.java:138-139 | The loop adds the level rules of positions 1..n in order. |
| ClauseEncoding.LevelConstraints | src/main/java/xhail/core/Utils.java:140-141 | `getLevels()` constraints, none when it is not positive. This length follows directly from the comprehension that defines it; `LevelConstraintsDistinct` makes it the number that reaches the set. |
| ClauseEncoding.AddLevelConstraints | src/main/java/xhail/core/Utils.java:140-141 | The loop adds the constraints of levels `0 .. getLevels()-1` in order. |
| ClauseEncoding.LevelConstraintsDistinct | src/main/java/xhail/core/Utils.java:140-141 | The level constraints never repeat, so all `getLevels()` of them (none when it is not positive) survive in the set. |
| ClauseEncoding.LevelConstraintInjective | src/main/java/xhail/core/Utils.java:141 | Constraints about different levels differ. |
| ClauseEncoding.BodyMinimizes | src/main/java/xhail/core/Utils.java:144-147 | One `#minimize` per body position. This length follows directly from the comprehension that defines it; `BodyMinimizesDistinct` makes it the number that reaches the set. |
| ClauseEncoding.AddBodyMinimizes | src/main/java/xhail/core/Utils.java:144-147 | The loop adds each position's `#minimize`, with that literal's weight and priority, in position order. |
| ClauseEncoding.BodyMinimizesDistinct | src/main/java/xhail/core/Utils.java:144-147 | The per-position minimize statements never repeat, so one per body position survives in the set. |
| ClauseEncoding.BodyMinimizesDiffer | src/main/java/xhail/core/Utils.java:146 | The minimizes of two different positions differ. |
| ClauseEncoding.MinimizeInjective | src/main/java/xhail/core/Utils.java:143-146 | Minimize statements about different positions differ, whatever their weights and priorities. This includes the head's position 0. |
| ClauseEncoding.AddBodyRules | src/main/java/xhail/core/Utils.java:150-151 | The loop adds the two try rules of each position in position order. Each pair's guards come from one listing of that literal's guard set. |
| ClauseEncoding.ConvertClauses | src/main/java/xhail/core/Utils.java:60-70 | Fails on `clauses` when it is missing. Otherwise clause `i` is converted with id `i`, and all the outputs are merged into one insertion-ordered set. |
| ClauseEncoding.AddClause | src/main/java/xhail/core/Utils.java:65-67 | One turn of the loop converts the next clause under its position as id and adds its statements. |
| ClauseEncoding.ClausesOutputFacts | src/main/java/xhail/core/Utils.java:63-69 | The merged statements never repeat, and a statement is present exactly when some clause's output holds it. |
| ClauseEncoding.EveryClauseAnnounced | src/main/java/xhail/core/Utils.java:64-67 | Every clause of the collection is announced by its own `clause(i).` fact. |
| Encoders.ConvertDisplay | src/main/java/xhail/core/Utils.java:72-77 | Fails, on `display`, exactly when the display is missing. |
| Encoders.DisplayRuleDecodes | src/main/java/xhail/core/Utils.java:75-76 | The rule is `display_fact(alt):-alt.`, and its alternate can be read back from the rule alone. |
| Encoders.ConvertExample | src/main/java/xhail/core/Utils.java:79-94 | Fails on `example` when it is missing. Otherwise it gives the example's statements in the order they are added. |
| Encoders.ExampleStatementsFacts | src/main/java/xhail/core/Utils.java:86-93 | An example yields four statements, or five when it is not defeasible, none twice. The comment comes first, then the maximize. |
| Encoders.ExampleConstraintIffHard | src/main/java/xhail/core/Utils.java:89-92 | The hard constraint is present exactly when the example is not defeasible. The covered and uncovered rules are always there. |
| Encoders.ExamplePolarity | src/main/java/xhail/core/Utils.java:84-92 | The covered rule's flag is `true` exactly for a negated example. A hard example's constraint is the body of its uncovered rule. |
| Encoders.ConvertModeH | src/main/java/xhail/core/Utils.java:183-202 | Fails on `mode` when it is missing. Otherwise the loop over the placemarkers builds the typing and listing texts, and the result is the mode's statements. |
| Encoders.ModeStatementsFacts | src/main/java/xhail/core/Utils.java:191-200 | The statements are the comment, the choice rule and the minimize in that order, then the bridging rule, with none twice. |
| Encoders.ChoiceRuleTypesEveryPlacemarker | src/main/java/xhail/core/Utils.java:192-198 | Every placemarker's ` :V` occurs in the choice rule, in placemarker order, after `lower { abduced_atom`. |
| Encoders.BridgeRuleListsEveryPlacemarker | src/main/java/xhail/core/Utils.java:192-200 | Every placemarker's `,V` occurs in the bridging rule, in placemarker order, after `atom:-abduced_atom`. |
| Encoders.AddTypeShows | src/main/java/xhail/core/Utils.java:212-213 | Adding the type filter of each placemarker keeps the set sorted and adds exactly those filters. |
| Encoders.AddHeadShows | src/main/java/xhail/core/Utils.java:208-214 | Adds to the sorted set exactly a head mode's scheme filter, its abduced filter and its type filters. |
| Encoders.AddBodyShows | src/main/java/xhail/core/Utils.java:215-220 | Adds to the sorted set exactly a body mode's scheme filter and its type filters. |
| Encoders.HeadsShowsHas | src/main/java/xhail/core/Utils.java:208-214 | Every head mode contributes all of its filters. |
| Encoders.HeadsShowsFrom | src/main/java/xhail/core/Utils.java:208-214 | Every head-mode filter present comes from some head mode. |
| Encoders.BodiesShowsHas | src/main/java/xhail/core/Utils.java:215-220 | Every body mode contributes all of its filters. |
| Encoders.BodiesShowsFrom | src/main/java/xhail/core/Utils.java:215-220 | Every body-mode filter present comes from some body mode. |
| Encoders.ConvertProblem | src/main/java/xhail/core/Utils.java:204-222 | Fails on `problem` when it is missing. Otherwise the result is sorted and holds exactly the problem's filters, so the sorted sequence is fixed. |
| Encoders.ProblemShowsExactly | src/main/java/xhail/core/Utils.java:204-222 | A string is shown exactly when it is a fixed filter or a filter of one of the problem's head or body modes. |
| Encoders.ConvertGrounding | src/main/java/xhail/core/Utils.java:96-102 | Fails on `grounding` when it is missing. Otherwise the result is sorted and holds exactly the four fixed filters and `#show use_clause_literal/2.` |
| Listings.SortItems | src/main/java/xhail/core/Utils.java:278-280 | The loop fills a `TreeSet` with the prefixed texts in order. |
| Listings.SortedItemsFacts | src/main/java/xhail/core/Utils.java:278-280 | The `TreeSet` is sorted, without repetitions, and holds exactly the prefixed texts. |
| Listings.ListInline | src/main/java/xhail/core/Utils.java:268-286 | A missing or blank label fails on `label`, then a missing collection fails on its parameter. Otherwise the result is the one-line listing. |
| Listings.InlineLines | src/main/java/xhail/core/Utils.java:273-284 | Gives the label line and then `  -`, or a space and the sorted items concatenated. |
| Listings.ListAtoms | src/main/java/xhail/core/Utils.java:268-287 | Fails on `label` or `atoms`. Otherwise it gives the trimmed label with a colon, then the atoms sorted on one line, or `  -` when there are none. |
| Listings.ListLiterals | src/main/java/xhail/core/Utils.java:307-326 | Fails on `label` or `literals`. Otherwise it gives the trimmed label with a colon, then the literals sorted on one line, or `  -` when there are none. |
| Listings.InlineListingFacts | src/main/java/xhail/core/Utils.java:273-285 | A one-line listing has two different lines: `label:`, then `  -` for an empty input or a space and every item once, sorted. |
| Listings.ListClauses | src/main/java/xhail/core/Utils.java:289-305 | Fails on `label` or `clauses`. Otherwise it gives the trimmed label with a colon, then one indented line per distinct clause in sorted order, or `  -`. |
| Listings.IndentedItemsFresh | src/main/java/xhail/core/Utils.java:294-302 | The indented items never repeat the label line, so adding them appends them all. |
| Listings.LineListingFacts | src/main/java/xhail/core/Utils.java:294-303 | A clause listing starts with `label:`. It then holds `  -` for no clauses, or each clause once, indented and sorted, with no line twice. |

## Left out

- `Utils.dump` and the `save` overloads of `Utils` are left out. They are stream and file I/O, temporary directories and logging.
- `Utils.combine` is left out. It relies on `Path.normalize()`, a library call outside this model.
- The `Model` superclass is not part of this model. It is a record of five statement sequences (hides, minimizes, maximizes, clauses, constraints). `update()`, `isModified()` and the cache guard are one boolean dirty flag. `save()` is taken to clear the dirty flag that `update()` sets, and `Derive` models it as `modified := false`.
- The classes for terms, clauses, variables, schemes, modes and placemarkers are not part of this model. Their `toString`, `decode`, `generalises` and getters are carried as data, so the model does not check that those results are consistent with one another.
- The comparison of atoms and literals inside the tree maps is not part of this model. Keys are ordered by their rendering, and keys that render alike stay in insertion order.
- `derive` returns the same object when nothing changed. The model returns an equal value, and object identity is left out.
- `Problem.equals`, `hashCode`, `toString`, `examples()`, `modebodies()` and the accessors are not modelled. They build text through `Model` methods that are not part of this model.
- `Problem.modeheads()` is not modelled. At line 566 it looks each head up in the examples map instead of the mode-head map, so in Java it would throw on a null annex.
- The `assert invariant()` checks are left out. They only test that the maps are non-null, which the model's types guarantee.
- Null elements inside collections, and the null-unboxing failure of a null `min`/`max` in `addModeHead`, are left out. The bounds are plain integers.
- Integer overflow is left out. Java `int` arithmetic, such as `1 + maxPriority + p` in `asData(int)` and the `Integer` annex values, is modelled on unbounded integers.
- Problems.Problem.AddModeBody: its `ensures` states the per-bucket key list and the dirty flag. The tree order of the priority buckets themselves is not tracked, only their key set.
- ClauseEncoding.ConvertLiteral: the order in which a `HashSet` of guards is iterated is unspecified in Java. The model returns one ghost listing of that set, each guard once, and the statements are stated in terms of it. ConvertHead, ConvertClause and ConvertClauses do the same.
- Encoders.ConvertProblem: the result is stated by its elements and sortedness. A sorted sequence without repetitions is fixed by its elements. ConvertGrounding is stated the same way.
- Encoders.ConvertModeH: the generalised atom and the placemarker identifiers and variables are taken as inputs. That is, `scheme.generalises` is not modelled.
- The scenario methods `DeriveIsCached`, `DisplayAllKeepsCache` and `NewExampleRebuilds` work on an arbitrary valid problem rather than a fresh one.
- Strings are `seq<char>`, and the order of the sorted sets compares characters by code point (`Strings.Less`). Java's `String.compareTo` compares UTF-16 code units, so strings that mix characters above U+FFFF with characters in U+E000-U+FFFF sort differently from the Java `TreeSet`s in `ConvertProblem`, `ConvertGrounding` and `SortItems`.
- The external grounder and solver, and the meaning of the emitted programs, are left out. Only the emitted text is modelled.
