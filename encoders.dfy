/**
  * The encoders of the statements other than clauses: examples, head modes,
  * display directives, and the `#show` filters of a problem and of a
  * grounding.
  *
  * The lemmas about first characters (`ExampleStatementsStart`,
  * `ModeStatementsStart`) only help the solver tell statements apart; the
  * model's properties are the other lemmas.
  */
module Encoders {
  import opened Outcomes
  import opened Strings
  import opened LinkedSets
  import opened Syntax

  /* ---------------------------------------------------------------------- */
  /* Displays                                                               */
  /* ---------------------------------------------------------------------- */

  /** `display_fact(alt):-alt.` */
  function DisplayRule(alternate: string): string {
    "display_fact(" + alternate + "):-" + alternate + "."
  }

  /** `convert(Display)`: the display rule of the alternate rendering. */
  function ConvertDisplay(display: Option<Display>): (r: Result<string>)
    ensures r.Failure? <==> display.None?
    ensures r.Failure? ==> r.error == IllegalArgument("display")
  {
    if display.None? then Failure(IllegalArgument("display")) else Success(DisplayRule(display.value.alternate))
  }

  /** The alternate a display rule is made of, read back from the middle of its head. */
  function DisplayedAlternate(rule: string): string
    requires |rule| >= 17
  {
    rule[13..13 + (|rule| - 17) / 2]
  }

  /** The display rule names its alternate, which can be read back from the rule alone. */
  lemma DisplayRuleDecodes(display: Display)
    ensures ConvertDisplay(Some(display)).Success?
    ensures var rule := ConvertDisplay(Some(display)).value;
      |rule| == 2 * |display.alternate| + 17 && rule[..13] == "display_fact("
      && DisplayedAlternate(rule) == display.alternate
  {
    var a := display.alternate;
    var head := "display_fact(" + a;
    var rule := head + "):-" + a + ".";
    assert rule == head + ("):-" + a + ".");
    assert |rule| == 2 * |a| + 17;
    assert rule[..13] == head[..13];
    assert rule[13..13 + |a|] == head[13..];
  }

  /* ---------------------------------------------------------------------- */
  /* Examples                                                               */
  /* ---------------------------------------------------------------------- */

  /** The prefix that makes a term hold when the example is negated. */
  function Yes(negated: bool): string {
    if negated then "not " else ""
  }

  /** The prefix that makes a term hold when the example is positive. */
  function Not(negated: bool): string {
    if negated then "" else "not "
  }

  function Flag(negated: bool): string {
    if negated then "true" else "false"
  }

  function ExampleComment(e: Example): string {
    "% " + e.text
  }

  /** `#maximize[ (not )atom =w @p ].` */
  function ExampleMaximize(e: Example): string {
    "#maximize[ " + Yes(e.negated) + e.atom.text + " =" + IntToString(e.weight)
      + (" @" + IntToString(e.priority) + " ].")
  }

  /** The hard constraint of an example that may not be left uncovered. */
  function ExampleConstraint(e: Example): string {
    ":-" + Not(e.negated) + e.atom.text + "."
  }

  function CoveredRule(e: Example): string {
    "covered_example(" + Flag(e.negated) + "," + e.atom.text + "):-" + Yes(e.negated) + e.atom.text + "."
  }

  /** The head of the uncovered rule: `uncovered_example(flag,atom)`. */
  function UncoveredHead(e: Example): string {
    "uncovered_example(" + Flag(e.negated) + "," + e.atom.text + ")"
  }

  function UncoveredRule(e: Example): string {
    UncoveredHead(e) + ":-" + Not(e.negated) + e.atom.text + "."
  }

  /** The statements of an example, in the order they are added; the constraint only for a hard example. */
  function ExampleStatements(e: Example): seq<string> {
    [ExampleComment(e), ExampleMaximize(e)]
      + (if e.defeasible then [] else [ExampleConstraint(e)])
      + [CoveredRule(e), UncoveredRule(e)]
  }

  /** `convert(Example)`: the statements of the example, in one insertion-ordered set. */
  method ConvertExample(example: Option<Example>) returns (r: Result<seq<string>>)
    ensures example.None? ==> r == Failure(IllegalArgument("example"))
    ensures example.Some? ==> r == Success(ExampleStatements(example.value))
  {
    if example.None? {
      return Failure(IllegalArgument("example"));
    }
    var e := example.value;
    ExampleStatementsStart(e);
    var atom := e.atom.text;
    var yes := if e.negated then "not " else "";
    var not := if e.negated then "" else "not ";
    var comment := "% " + e.text;
    var maximize := "#maximize[ " + yes + atom + " =" + IntToString(e.weight)
      + (" @" + IntToString(e.priority) + " ].");
    var constraint := ":-" + not + atom + ".";
    var covered := "covered_example(" + Flag(e.negated) + "," + atom + "):-" + yes + atom + ".";
    var uncovered := UncoveredHead(e) + ":-" + not + atom + ".";
    assert comment == ExampleComment(e) && maximize == ExampleMaximize(e) && constraint == ExampleConstraint(e);
    assert covered == CoveredRule(e) && uncovered == UncoveredRule(e);
    assert comment[0] == '%' && maximize[0] == '#' && constraint[0] == ':' && covered[0] == 'c' && uncovered[0] == 'u';
    var result: seq<string> := [];
    result := Add(result, comment);
    result := Add(result, maximize);
    assert result == [comment, maximize];
    if !e.defeasible {
      result := Add(result, constraint);
      assert result == [comment, maximize, constraint];
    }
    ghost var front := result;
    assert front == [comment, maximize] + (if e.defeasible then [] else [constraint]);
    result := Add(result, covered);
    assert result == front + [covered];
    result := Add(result, uncovered);
    assert result == front + [covered, uncovered];
    assert result == [comment, maximize] + (if e.defeasible then [] else [constraint]) + [covered, uncovered];
    r := Success(result);
  }

  /** The statements of an example start with five different characters. */
  lemma ExampleStatementsStart(e: Example)
    ensures ExampleComment(e)[0] == '%' && ExampleMaximize(e)[0] == '#' && ExampleConstraint(e)[0] == ':'
    ensures CoveredRule(e)[0] == 'c' && UncoveredRule(e)[0] == 'u'
  {
  }

  /**
    * An example yields four statements, five when it is hard, none twice, starting
    * with the comment and the maximize.
    */
  lemma ExampleStatementsFacts(e: Example)
    ensures NoDup(ExampleStatements(e))
    ensures |ExampleStatements(e)| == if e.defeasible then 4 else 5
    ensures ExampleStatements(e)[0] == ExampleComment(e) && ExampleStatements(e)[1] == ExampleMaximize(e)
  {
    ExampleStatementsStart(e);
    var s := ExampleStatements(e);
    if e.defeasible {
      assert s == [ExampleComment(e), ExampleMaximize(e), CoveredRule(e), UncoveredRule(e)];
      NoDupByFirst(s, "%#cu");
    } else {
      assert s == [ExampleComment(e), ExampleMaximize(e), ExampleConstraint(e), CoveredRule(e), UncoveredRule(e)];
      NoDupByFirst(s, "%#:cu");
    }
  }

  /** The hard constraint is among the statements exactly when the example is not defeasible; both rules always are. */
  lemma ExampleConstraintIffHard(e: Example)
    ensures ExampleConstraint(e) in ExampleStatements(e) <==> !e.defeasible
    ensures CoveredRule(e) in ExampleStatements(e) && UncoveredRule(e) in ExampleStatements(e)
  {
    ExampleStatementsStart(e);
    if e.defeasible {
      var s := [ExampleComment(e), ExampleMaximize(e), CoveredRule(e), UncoveredRule(e)];
      assert ExampleStatements(e) == s;
      forall k | 0 <= k < |s| ensures s[k] != ExampleConstraint(e) {
        assert s[k][0] != ':';
      }
    }
  }

  /**
    * The covered rule names the polarity of the example first, and the constraint of a
    * hard example is the body of its uncovered rule with nothing in the head.
    */
  lemma ExamplePolarity(e: Example)
    ensures CoveredRule(e)[16] == 't' <==> e.negated
    ensures UncoveredRule(e) == UncoveredHead(e) + ExampleConstraint(e)
  {
    var flag := "covered_example(" + Flag(e.negated);
    assert CoveredRule(e)[16] == flag[16];
    AppendAssoc(UncoveredHead(e), ":-" + Not(e.negated), e.atom.text);
    AppendAssoc(UncoveredHead(e), ":-" + Not(e.negated) + e.atom.text, ".");
    AppendAssoc(UncoveredHead(e), ":-", Not(e.negated));
  }

  /* ---------------------------------------------------------------------- */
  /* Head modes                                                             */
  /* ---------------------------------------------------------------------- */

  const VariableOf: Placemarker -> string := (p: Placemarker) => p.variable

  /** ` :V` for each placemarker, in order: the type annotations of the abduced atom. */
  function TypingTerms(ps: seq<Placemarker>): seq<string> {
    Prefixed(" :", Each(ps, VariableOf))
  }

  /** `,V` for each placemarker, in order: the arguments the bridging rule passes on. */
  function ListingTerms(ps: seq<Placemarker>): seq<string> {
    Prefixed(",", Each(ps, VariableOf))
  }

  function ModeComment(m: ModeH): string {
    "% " + m.text
  }

  /** The choice rule up to its typing: `lower { abduced_atom`. */
  function ChoiceStart(m: ModeH): string {
    IntToString(m.lower) + " { abduced_" + m.generalised
  }

  const ChoiceStartOf: ModeH -> string := (m: ModeH) => ChoiceStart(m)

  /** `lower { abduced_atom :V... } upper.` */
  function ChoiceRule(m: ModeH): string {
    ChoiceStartOf(m) + Concat(TypingTerms(m.scheme.placemarkers)) + (" } " + IntToString(m.upper) + ".")
  }

  /** `#minimize[ abduced_atom =w @p :V... ].` */
  function AbducedMinimize(m: ModeH): string {
    "#minimize[ abduced_" + m.generalised + " =" + IntToString(m.weight) + " @" + IntToString(m.priority)
      + Concat(TypingTerms(m.scheme.placemarkers)) + " ]."
  }

  /** The bridging rule up to its arguments: `atom:-abduced_atom`. */
  function BridgeStart(m: ModeH): string {
    m.generalised + ":-abduced_" + m.generalised
  }

  const BridgeStartOf: ModeH -> string := (m: ModeH) => BridgeStart(m)

  /** `atom:-abduced_atom,V....` */
  function BridgeRule(m: ModeH): string {
    BridgeStartOf(m) + Concat(ListingTerms(m.scheme.placemarkers)) + "."
  }

  /**
    * The statements of a head mode: the comment, the choice rule and the minimize,
    * which always differ, then the bridging rule unless it repeats one of them.
    */
  function ModeStatements(m: ModeH): seq<string> {
    Add([ModeComment(m), ChoiceRule(m), AbducedMinimize(m)], BridgeRule(m))
  }

  /** `convert(ModeH)`; the generalised atom of the scheme is taken as part of the mode. */
  method ConvertModeH(mode: Option<ModeH>) returns (r: Result<seq<string>>)
    ensures mode.None? ==> r == Failure(IllegalArgument("mode"))
    ensures mode.Some? ==> r == Success(ModeStatements(mode.value))
  {
    if mode.None? {
      return Failure(IllegalArgument("mode"));
    }
    var m := mode.value;
    var ps := m.scheme.placemarkers;
    var typing := "";
    var listing := "";
    for k := 0 to |ps|
      invariant typing == Concat(TypingTerms(ps)[..k])
      invariant listing == Concat(ListingTerms(ps)[..k])
    {
      ConcatSnoc(TypingTerms(ps), k);
      ConcatSnoc(ListingTerms(ps), k);
      typing := typing + " :" + ps[k].variable;
      listing := listing + "," + ps[k].variable;
    }
    assert TypingTerms(ps)[..|ps|] == TypingTerms(ps);
    assert ListingTerms(ps)[..|ps|] == ListingTerms(ps);
    var atom := m.generalised;
    var comment := "% " + m.text;
    var choice := ChoiceStart(m) + typing + (" } " + IntToString(m.upper) + ".");
    var minimize := "#minimize[ abduced_" + atom + " =" + IntToString(m.weight) + " @" + IntToString(m.priority)
      + typing + " ].";
    var bridge := BridgeStart(m) + listing + ".";
    assert comment == ModeComment(m) && choice == ChoiceRule(m);
    assert minimize == AbducedMinimize(m) && bridge == BridgeRule(m);
    ModeStatementsStart(m);
    var result: seq<string> := [];
    result := Add(result, comment);
    result := Add(result, choice);
    result := Add(result, minimize);
    assert result == [comment, choice, minimize];
    result := Add(result, bridge);
    r := Success(result);
  }

  /** The comment, the choice rule and the minimize of a head mode start with different characters. */
  lemma ModeStatementsStart(m: ModeH)
    ensures ModeComment(m)[0] == '%' && AbducedMinimize(m)[0] == '#' && IsNumeralChar(ChoiceRule(m)[0])
  {
    IntToStringNumeral(m.lower);
    assert ChoiceRule(m)[0] == IntToString(m.lower)[0];
  }

  /**
    * A head mode yields the comment, the choice rule and the minimize in this order,
    * then the bridging rule, with no statement twice.
    */
  lemma ModeStatementsFacts(m: ModeH)
    ensures NoDup(ModeStatements(m)) && 3 <= |ModeStatements(m)| <= 4
    ensures ModeStatements(m)[..3] == [ModeComment(m), ChoiceRule(m), AbducedMinimize(m)]
    ensures BridgeRule(m) in ModeStatements(m)
  {
    ModeStatementsStart(m);
    var s := [ModeComment(m), ChoiceRule(m), AbducedMinimize(m)];
    assert NoDup(s);
    AddFacts(s, BridgeRule(m));
  }

  /** The choice rule types the abduced atom with every placemarker, in order, after its start. */
  lemma ChoiceRuleTypesEveryPlacemarker(m: ModeH, k: nat)
    requires k < |m.scheme.placemarkers|
    ensures OccursAt(" :" + m.scheme.placemarkers[k].variable, ChoiceRule(m),
      |ChoiceStartOf(m)| + |Concat(TypingTerms(m.scheme.placemarkers)[..k])|)
  {
    ConcatPartIn(ChoiceStartOf(m), TypingTerms(m.scheme.placemarkers), " } " + IntToString(m.upper) + ".", k,
      ChoiceRule(m), |ChoiceStartOf(m)| + |Concat(TypingTerms(m.scheme.placemarkers)[..k])|);
  }

  /** The bridging rule passes every placemarker on, in order, after its start. */
  lemma BridgeRuleListsEveryPlacemarker(m: ModeH, k: nat)
    requires k < |m.scheme.placemarkers|
    ensures OccursAt("," + m.scheme.placemarkers[k].variable, BridgeRule(m),
      |BridgeStartOf(m)| + |Concat(ListingTerms(m.scheme.placemarkers)[..k])|)
  {
    ConcatPartIn(BridgeStartOf(m), ListingTerms(m.scheme.placemarkers), ".", k,
      BridgeRule(m), |BridgeStartOf(m)| + |Concat(ListingTerms(m.scheme.placemarkers)[..k])|);
  }

  /* ---------------------------------------------------------------------- */
  /* Show filters                                                           */
  /* ---------------------------------------------------------------------- */

  /** The filters every program starts with, in insertion order. */
  const Filters: seq<string> :=
    ["#hide.", "#show display_fact/1.", "#show covered_example/2.", "#show uncovered_example/2."]

  const UseShow: string := "#show use_clause_literal/2."

  /** `#show name/arity.` */
  function Show(name: string, arity: int): string {
    "#show " + name + "/" + IntToString(arity) + "."
  }

  /** `#show abduced_name/arity.` */
  function AbducedShow(name: string, arity: int): string {
    "#show abduced_" + name + "/" + IntToString(arity) + "."
  }

  /** `#show type/1.` */
  function TypeShow(placemarker: Placemarker): string {
    "#show " + placemarker.identifier + "/1."
  }

  function TypeShows(ps: seq<Placemarker>): set<string> {
    set p | p in ps :: TypeShow(p)
  }

  /** The filters of a head mode: its scheme, its abduced scheme and the types of its placemarkers. */
  function HeadShows(m: ModeH): set<string> {
    {Show(m.scheme.identifier, m.scheme.arity), AbducedShow(m.scheme.identifier, m.scheme.arity)}
      + TypeShows(m.scheme.placemarkers)
  }

  /** The filters of a body mode: its scheme and the types of its placemarkers. */
  function BodyShows(m: ModeB): set<string> {
    {Show(m.scheme.identifier, m.scheme.arity)} + TypeShows(m.scheme.placemarkers)
  }

  function HeadsShows(ms: seq<ModeH>): set<string>
    decreases |ms|
  {
    if ms == [] then {} else HeadsShows(ms[..|ms| - 1]) + HeadShows(ms[|ms| - 1])
  }

  function BodiesShows(ms: seq<ModeB>): set<string>
    decreases |ms|
  {
    if ms == [] then {} else BodiesShows(ms[..|ms| - 1]) + BodyShows(ms[|ms| - 1])
  }

  /** Everything a problem shows: the fixed filters and those of each of its modes. */
  function ProblemShows(p: Problem): set<string> {
    Elems(Filters) + HeadsShows(p.modeHs) + BodiesShows(p.modeBs)
  }

  /** Add the type filter of each placemarker to a `TreeSet`. */
  method AddTypeShows(ps: seq<Placemarker>, s: seq<string>) returns (result: seq<string>)
    requires Sorted(s)
    ensures Sorted(result) && Elems(result) == Elems(s) + TypeShows(ps)
  {
    result := s;
    for k := 0 to |ps|
      invariant Sorted(result) && Elems(result) == Elems(s) + TypeShows(ps[..k])
    {
      InsertSorted(result, "#show " + ps[k].identifier + "/1.");
      TypeShowsSnoc(ps, k);
      result := Insert(result, "#show " + ps[k].identifier + "/1.");
    }
    assert ps[..|ps|] == ps;
  }

  lemma TypeShowsSnoc(ps: seq<Placemarker>, k: nat)
    requires k < |ps|
    ensures TypeShows(ps[..k + 1]) == TypeShows(ps[..k]) + {TypeShow(ps[k])}
  {
    assert ps[..k + 1] == ps[..k] + [ps[k]];
  }

  /**
    * `convert(Problem)`: a `TreeSet` of the filters, then per head mode and per body
    * mode the filters of its scheme and of its placemarkers' types.  A sorted set is
    * determined by its elements (`SortedUnique`), so this fixes the result.
    */
  method ConvertProblem(problem: Option<Problem>) returns (r: Result<seq<string>>)
    ensures problem.None? ==> r == Failure(IllegalArgument("problem"))
    ensures problem.Some? ==> r.Success? && Sorted(r.value) && Elems(r.value) == ProblemShows(problem.value)
  {
    if problem.None? {
      return Failure(IllegalArgument("problem"));
    }
    var p := problem.value;
    InsertAllSorted([], Filters);
    var result := InsertAll([], Filters);
    for i := 0 to |p.modeHs|
      invariant Sorted(result) && Elems(result) == Elems(Filters) + HeadsShows(p.modeHs[..i])
    {
      result := AddHeadShows(p.modeHs[i], result);
      HeadsShowsSnoc(p.modeHs, i);
    }
    assert p.modeHs[..|p.modeHs|] == p.modeHs;
    for i := 0 to |p.modeBs|
      invariant Sorted(result)
      invariant Elems(result) == Elems(Filters) + HeadsShows(p.modeHs) + BodiesShows(p.modeBs[..i])
    {
      result := AddBodyShows(p.modeBs[i], result);
      BodiesShowsSnoc(p.modeBs, i);
    }
    assert p.modeBs[..|p.modeBs|] == p.modeBs;
    r := Success(result);
  }

  /** The filters of one head mode, added to a `TreeSet`. */
  method AddHeadShows(m: ModeH, s: seq<string>) returns (result: seq<string>)
    requires Sorted(s)
    ensures Sorted(result) && Elems(result) == Elems(s) + HeadShows(m)
  {
    var scheme := m.scheme;
    InsertSorted(s, Show(scheme.identifier, scheme.arity));
    result := Insert(s, Show(scheme.identifier, scheme.arity));
    InsertSorted(result, AbducedShow(scheme.identifier, scheme.arity));
    result := Insert(result, AbducedShow(scheme.identifier, scheme.arity));
    result := AddTypeShows(scheme.placemarkers, result);
  }

  /** The filters of one body mode, added to a `TreeSet`. */
  method AddBodyShows(m: ModeB, s: seq<string>) returns (result: seq<string>)
    requires Sorted(s)
    ensures Sorted(result) && Elems(result) == Elems(s) + BodyShows(m)
  {
    var scheme := m.scheme;
    InsertSorted(s, Show(scheme.identifier, scheme.arity));
    result := Insert(s, Show(scheme.identifier, scheme.arity));
    result := AddTypeShows(scheme.placemarkers, result);
  }

  lemma HeadsShowsSnoc(ms: seq<ModeH>, i: nat)
    requires i < |ms|
    ensures HeadsShows(ms[..i + 1]) == HeadsShows(ms[..i]) + HeadShows(ms[i])
  {
    assert ms[..i + 1][..i] == ms[..i];
  }

  lemma BodiesShowsSnoc(ms: seq<ModeB>, i: nat)
    requires i < |ms|
    ensures BodiesShows(ms[..i + 1]) == BodiesShows(ms[..i]) + BodyShows(ms[i])
  {
    assert ms[..i + 1][..i] == ms[..i];
  }

  /** Each head mode contributes all its filters. */
  lemma {:induction false} HeadsShowsHas(ms: seq<ModeH>, i: nat)
    requires i < |ms|
    ensures HeadShows(ms[i]) <= HeadsShows(ms)
    decreases |ms|
  {
    if i < |ms| - 1 {
      HeadsShowsHas(ms[..|ms| - 1], i);
    }
  }

  /** Each body mode contributes all its filters. */
  lemma {:induction false} BodiesShowsHas(ms: seq<ModeB>, i: nat)
    requires i < |ms|
    ensures BodyShows(ms[i]) <= BodiesShows(ms)
    decreases |ms|
  {
    if i < |ms| - 1 {
      BodiesShowsHas(ms[..|ms| - 1], i);
    }
  }

  /** A mode's filters come from some mode of the problem, and nothing else is shown but the fixed filters. */
  lemma {:induction false} HeadsShowsFrom(ms: seq<ModeH>, x: string)
    requires x in HeadsShows(ms)
    ensures exists i :: 0 <= i < |ms| && x in HeadShows(ms[i])
    decreases |ms|
  {
    var n := |ms| - 1;
    if x !in HeadShows(ms[n]) {
      HeadsShowsFrom(ms[..n], x);
      var i :| 0 <= i < n && x in HeadShows(ms[..n][i]);
      assert ms[..n][i] == ms[i];
    }
  }

  lemma {:induction false} BodiesShowsFrom(ms: seq<ModeB>, x: string)
    requires x in BodiesShows(ms)
    ensures exists i :: 0 <= i < |ms| && x in BodyShows(ms[i])
    decreases |ms|
  {
    var n := |ms| - 1;
    if x !in BodyShows(ms[n]) {
      BodiesShowsFrom(ms[..n], x);
      var i :| 0 <= i < n && x in BodyShows(ms[..n][i]);
      assert ms[..n][i] == ms[i];
    }
  }

  /**
    * What `convert(Problem)` shows, element by element: a string is shown exactly
    * when it is a fixed filter or a filter of one of the problem's modes.
    */
  lemma ProblemShowsExactly(p: Problem, x: string)
    ensures x in ProblemShows(p) <==>
      || x in Filters
      || (exists i :: 0 <= i < |p.modeHs| && x in HeadShows(p.modeHs[i]))
      || (exists i :: 0 <= i < |p.modeBs| && x in BodyShows(p.modeBs[i]))
  {
    if x in HeadsShows(p.modeHs) {
      HeadsShowsFrom(p.modeHs, x);
    }
    if x in BodiesShows(p.modeBs) {
      BodiesShowsFrom(p.modeBs, x);
    }
    if i :| 0 <= i < |p.modeHs| && x in HeadShows(p.modeHs[i]) {
      HeadsShowsHas(p.modeHs, i);
    }
    if i :| 0 <= i < |p.modeBs| && x in BodyShows(p.modeBs[i]) {
      BodiesShowsHas(p.modeBs, i);
    }
  }

  /**
    * `convert(Grounding)`: a `TreeSet` of the filters and `#show use_clause_literal/2.`;
    * as for a problem, the elements fix the sorted result.
    */
  method ConvertGrounding(grounding: Option<Grounding>) returns (r: Result<seq<string>>)
    ensures grounding.None? ==> r == Failure(IllegalArgument("grounding"))
    ensures grounding.Some? ==> r.Success? && Sorted(r.value) && Elems(r.value) == Elems(Filters) + {UseShow}
  {
    if grounding.None? {
      return Failure(IllegalArgument("grounding"));
    }
    InsertAllSorted([], Filters);
    var result := InsertAll([], Filters);
    InsertSorted(result, UseShow);
    result := Insert(result, UseShow);
    r := Success(result);
  }
}
