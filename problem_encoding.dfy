/**
  * What `Problem.processExamples` and `Problem.processModeHeads` append to a
  * model, as functions of the examples and mode heads in key order.
  *
  * The `*Text` lemmas only join string literals for the solver, inside the
  * worked instances; they state nothing about the model.
  */
module ProblemEncoding {
  import opened Outcomes
  import opened Strings
  import opened LinkedSets
  import opened Predicates
  import opened Annex
  import opened TreeKeys

  /** The prefix of abducible predicate names (`TAG_ABDUCE`). */
  const AbduceTag: string := "abd_"

  /** The prefix of type predicate names (`TAG_TYPE`). */
  const TypeTag: string := "typ_"

  /* ---------------------------------------------------------------------- */
  /* Examples                                                               */
  /* ---------------------------------------------------------------------- */

  /** An example directive with its annex, as the example map yields it. */
  type ExampleEntry = (Literal, ExampleData)

  /** One term of the aggregated maximize: `lit =w @p`. */
  function ExampleTerm(e: ExampleEntry): string {
    e.0.text + e.1.AsData()
  }

  /** The hard constraint of a mute example: its atom must hold (positive) or must not (negated). */
  function MuteConstraint(l: Literal): string {
    ":- " + (if l.negated then "" else "not ") + l.atom.text + "."
  }

  const ExampleTermOf: ExampleEntry -> string := (e: ExampleEntry) => ExampleTerm(e)

  /** The maximize terms of the examples, one per example, in order. */
  function ExampleTerms(es: seq<ExampleEntry>): (r: seq<string>)
    ensures |r| == |es|
    ensures forall i :: 0 <= i < |es| ==> r[i] == ExampleTerm(es[i])
  {
    Each(es, ExampleTermOf)
  }

  /** The constraints of the mute examples, in order. */
  function MuteConstraints(es: seq<ExampleEntry>): seq<string>
    decreases |es|
  {
    if es == [] then []
    else MuteConstraints(es[..|es| - 1]) + (if es[|es| - 1].1.IsMute() then [MuteConstraint(es[|es| - 1].0)] else [])
  }

  /** The positions of the mute examples. */
  function MutePositions(es: seq<ExampleEntry>): set<nat> {
    set i: nat | i < |es| && es[i].1.IsMute()
  }

  /** The single maximize statement over all examples. */
  function MaximizeExamples(es: seq<ExampleEntry>): string {
    "#maximize[ " + Join(ExampleTerms(es), ", ") + " ]."
  }

  /** `processExamples(m)`: nothing without examples, else one maximize and the mute constraints. */
  function EncodeExamples(m: Model, es: seq<ExampleEntry>): Model {
    if es == [] then m
    else m.(maximizes := m.maximizes + [MaximizeExamples(es)], constraints := m.constraints + MuteConstraints(es))
  }

  /** One more example adds its term to the maximize and, when it is mute, its constraint. */
  lemma ExamplesAppend(es: seq<ExampleEntry>, e: ExampleEntry)
    ensures ExampleTerms(es + [e]) == ExampleTerms(es) + [e.0.text + e.1.AsData()]
    ensures MuteConstraints(es + [e]) == MuteConstraints(es) + (if e.1.IsMute() then [MuteConstraint(e.0)] else [])
  {
    EachAppend(es, e, ExampleTermOf);
    assert (es + [e])[..|es|] == es;
  }

  /** Exactly the mute examples get a constraint, each its own. */
  lemma {:induction false} MuteConstraintsMembers(es: seq<ExampleEntry>, c: string)
    ensures c in MuteConstraints(es) <==> exists i :: 0 <= i < |es| && es[i].1.IsMute() && c == MuteConstraint(es[i].0)
    decreases |es|
  {
    if es != [] {
      var es' := es[..|es| - 1];
      MuteConstraintsMembers(es', c);
      assert forall i :: 0 <= i < |es'| ==> es'[i] == es[i];
      if exists i :: 0 <= i < |es| && es[i].1.IsMute() && c == MuteConstraint(es[i].0) {
        var i :| 0 <= i < |es| && es[i].1.IsMute() && c == MuteConstraint(es[i].0);
        if i < |es'| {
          assert es'[i] == es[i];
        }
      }
    }
  }

  /** There are as many constraints as mute examples. */
  lemma {:induction false} MuteConstraintsCount(es: seq<ExampleEntry>)
    ensures |MuteConstraints(es)| == |MutePositions(es)|
    decreases |es|
  {
    if es == [] {
      assert MutePositions(es) == {};
    } else {
      var es' := es[..|es| - 1];
      MuteConstraintsCount(es');
      var n: nat := |es'|;
      assert forall i :: 0 <= i < |es'| ==> es'[i] == es[i];
      if es[n].1.IsMute() {
        assert MutePositions(es) == MutePositions(es') + {n};
      } else {
        assert MutePositions(es) == MutePositions(es');
      }
    }
  }

  /**
    * The example encoding leaves hides, minimizes and clauses alone; it adds one
    * maximize exactly when there are examples, and one constraint per mute example.
    */
  lemma ExampleEncodingCounts(m: Model, es: seq<ExampleEntry>)
    ensures var r := EncodeExamples(m, es);
      r.hides == m.hides && r.minimizes == m.minimizes && r.clauses == m.clauses
      && |r.maximizes| == |m.maximizes| + (if es == [] then 0 else 1)
      && r.maximizes[..|m.maximizes|] == m.maximizes
      && |r.constraints| == |m.constraints| + |MutePositions(es)|
      && r.constraints[..|m.constraints|] == m.constraints
  {
    MuteConstraintsCount(es);
  }

  /** The examples `#example not q.` (mute) and `#example p(a) =2.`, in key order. */
  function InstanceExamples(): seq<ExampleEntry> {
    [(Literal(Atom("q", [], "q", Decoded([], [], [], [])), true, "not q"), ExampleData(None, None)),
     (Literal(Atom("p", [], "p(a)", Decoded([], [], [], [])), false, "p(a)"), ExampleData(Some(2), None))]
  }

  /** The positive example of weight 2 joins the maximize as `p(a) =2 @1`; the negated mute one is forbidden to hold. */
  lemma ExampleEncodingInstance()
    ensures EncodeExamples(EmptyModel, InstanceExamples())
         == EmptyModel.(maximizes := ["#maximize[ not q =1 @1, p(a) =2 @1 ]."], constraints := [":- q."])
  {
    InstanceMaximize();
    InstanceMutes();
    var r := EncodeExamples(EmptyModel, InstanceExamples());
    assert r.maximizes == [] + ["#maximize[ not q =1 @1, p(a) =2 @1 ]."];
    assert r.constraints == [] + [":- q."];
  }

  lemma InstanceTerms()
    ensures Join(ExampleTerms(InstanceExamples()), ", ") == "not q =1 @1" + ", " + "p(a) =2 @1"
  {
    var es := InstanceExamples();
    assert IntToString(1) == "1" && IntToString(2) == "2";
    assert ExampleTerm(es[0]) == "not q =1 @1";
    assert ExampleTerm(es[1]) == "p(a) =2 @1";
    var t := ExampleTerms(es);
    assert t == ["not q =1 @1", "p(a) =2 @1"];
    assert t[..1] == ["not q =1 @1"];
  }

  lemma InstanceMaximize()
    ensures MaximizeExamples(InstanceExamples()) == "#maximize[ not q =1 @1, p(a) =2 @1 ]."
  {
    InstanceTerms();
    TermsText();
    MaximizeText();
  }

  lemma TermsText()
    ensures "not q =1 @1" + ", " + "p(a) =2 @1" == "not q =1 @1, p(a) =2 @1"
  {
  }

  lemma MaximizeText()
    ensures "#maximize[ " + "not q =1 @1, p(a) =2 @1" + " ]." == "#maximize[ not q =1 @1, p(a) =2 @1 ]."
  {
  }

  lemma InstanceMutes()
    ensures MuteConstraints(InstanceExamples()) == [":- q."]
  {
    var es := InstanceExamples();
    assert es[..1] == [es[0]] && [es[0]][..0] == [];
    assert MuteConstraint(es[0].0) == ":- q.";
    assert MuteConstraints([es[0]]) == [] + [":- q."];
  }

  /* ---------------------------------------------------------------------- */
  /* Mode heads                                                             */
  /* ---------------------------------------------------------------------- */

  /** The four lists `decode` fills when called on each argument in turn. */
  function DecodeAll(args: seq<Atom>): Decoded
    decreases |args|
  {
    if args == [] then Decoded([], [], [], [])
    else
      var p, x := DecodeAll(args[..|args| - 1]), args[|args| - 1].decoded;
      Decoded(p.fixes + x.fixes, p.heads + x.heads, p.vars + x.vars, p.types + x.types)
  }

  /** No variable is decoded exactly when no argument decodes one. */
  lemma {:induction false} DecodeAllNoVars(args: seq<Atom>)
    ensures |DecodeAll(args).vars| == 0 <==> forall i :: 0 <= i < |args| ==> |args[i].decoded.vars| == 0
    decreases |args|
  {
    if args != [] {
      var args' := args[..|args| - 1];
      DecodeAllNoVars(args');
      assert forall i :: 0 <= i < |args'| ==> args'[i] == args[i];
    }
  }

  /** `name(x1, x2, …)`, or `name` alone when there are no arguments. */
  function Wrap(name: string, xs: seq<string>): string {
    if |xs| > 0 then name + "(" + Join(xs, ", ") + ")" else name
  }

  /** `abd_<name>_<weight>_<priority>`. */
  function AbducibleName(name: string, d: ModeHeadData): string {
    AbduceTag + name + "_" + IntToString(d.Weight()) + "_" + IntToString(d.Priority())
  }

  /** `typ_<name>`. */
  function TypeName(name: string): string {
    TypeTag + name
  }

  /** The five statements of one mode head. */
  datatype HeadStatements = HeadStatements(hide: string, minimize: string, choice: string, bridge: string, typeRule: string)

  /** `#hide typ_<name>/<number of variables>.` */
  function HideDirective(typeName: string, arity: nat): string {
    "#hide " + typeName + "/" + IntToString(arity) + "."
  }

  /** The abducible, weighted and prioritised, for each instance of the type gate. */
  function MinimizeStatement(abduceHead: string, d: ModeHeadData, typeHead: string): string {
    "#minimize[ " + abduceHead + d.AsData() + " : " + typeHead + " ]."
  }

  /** The choice of abducibles, inside the window of the head when it has one. */
  function ChoiceRule(d: ModeHeadData, abduceHead: string, typeHead: string): string {
    d.AsLower() + "{ " + abduceHead + " : " + typeHead + " }" + d.AsUpper() + "."
  }

  /** The head holds wherever its type gate and its abducible do. */
  function BridgeRule(nameHead: string, typeHead: string, abduceHead: string): string {
    nameHead + " :- " + typeHead + ", " + abduceHead + "."
  }

  /** The type gate: from the conjunction of the types when there are variables, a fact otherwise. */
  function TypeRule(typeHead: string, vars: seq<string>, types: seq<string>): string {
    if |vars| > 0 then typeHead + " :- " + Join(types, ", ") + "." else typeHead + "."
  }

  /** The head atom with the head arguments its terms decode to. */
  function NameHead(a: Atom): string {
    Wrap(a.name, DecodeAll(a.args).heads)
  }

  /** The abducible atom with the fixed arguments its terms decode to. */
  function AbduceHead(a: Atom, d: ModeHeadData): string {
    Wrap(AbducibleName(a.name, d), DecodeAll(a.args).fixes)
  }

  /** The type-gate atom with the variables its terms decode to. */
  function TypeHead(a: Atom): string {
    Wrap(TypeName(a.name), DecodeAll(a.args).vars)
  }

  function EncodeHead(a: Atom, d: ModeHeadData): HeadStatements {
    var dec := DecodeAll(a.args);
    HeadStatements(HideDirective(TypeName(a.name), |dec.vars|), MinimizeStatement(AbduceHead(a, d), d, TypeHead(a)),
                   ChoiceRule(d, AbduceHead(a, d), TypeHead(a)), BridgeRule(NameHead(a), TypeHead(a), AbduceHead(a, d)),
                   TypeRule(TypeHead(a), dec.vars, dec.types))
  }

  /** A head mode directive with its annex, as the mode-head map yields it. */
  type HeadEntry = (Atom, ModeHeadData)

  const HeadOf: HeadEntry -> HeadStatements := (e: HeadEntry) => EncodeHead(e.0, e.1)
  const HideOf: HeadStatements -> string := (h: HeadStatements) => h.hide
  const MinimizeOf: HeadStatements -> string := (h: HeadStatements) => h.minimize

  /** The rules of the heads in turn: choice, bridge and type rule of each. */
  function Rules(s: seq<HeadStatements>): (r: seq<string>)
    ensures |r| == 3 * |s|
    ensures forall i :: 0 <= i < |s| ==> r[3 * i] == s[i].choice && r[3 * i + 1] == s[i].bridge && r[3 * i + 2] == s[i].typeRule
    decreases |s|
  {
    if s == [] then [] else Rules(s[..|s| - 1]) + [s[|s| - 1].choice, s[|s| - 1].bridge, s[|s| - 1].typeRule]
  }

  /** The statements `s` appended to their sections of `m`, in order. */
  function Emit(m: Model, s: seq<HeadStatements>): Model {
    m.(hides := m.hides + Each(s, HideOf), minimizes := m.minimizes + Each(s, MinimizeOf), clauses := m.clauses + Rules(s))
  }

  /** `processModeHeads(m)`: the hides, the minimizes and the rules of every head in order, after what `m` held. */
  function EncodeModeHeads(m: Model, hs: seq<HeadEntry>): Model {
    Emit(m, Each(hs, HeadOf))
  }

  /** Emitting leaves what was there, and puts each statement at its place in its section. */
  lemma EmitLayout(m: Model, s: seq<HeadStatements>)
    ensures var r := Emit(m, s);
      r.maximizes == m.maximizes && r.constraints == m.constraints
      && |r.hides| == |m.hides| + |s| && r.hides[..|m.hides|] == m.hides
      && |r.minimizes| == |m.minimizes| + |s| && r.minimizes[..|m.minimizes|] == m.minimizes
      && |r.clauses| == |m.clauses| + 3 * |s| && r.clauses[..|m.clauses|] == m.clauses
    ensures var r := Emit(m, s);
      forall i :: 0 <= i < |s| ==>
        r.hides[|m.hides| + i] == s[i].hide && r.minimizes[|m.minimizes| + i] == s[i].minimize
        && r.clauses[|m.clauses| + 3 * i] == s[i].choice
        && r.clauses[|m.clauses| + 3 * i + 1] == s[i].bridge
        && r.clauses[|m.clauses| + 3 * i + 2] == s[i].typeRule
  {
    var r := Emit(m, s);
    assert r.hides[..|m.hides|] == m.hides;
    assert r.minimizes[..|m.minimizes|] == m.minimizes;
    assert r.clauses[..|m.clauses|] == m.clauses;
  }

  /**
    * The mode-head encoding appends, after what the model held, one hide and one
    * minimize per head and three rules per head; maximizes and constraints are left alone.
    */
  lemma ModeHeadLayout(m: Model, hs: seq<HeadEntry>)
    ensures EncodeModeHeads(m, hs).maximizes == m.maximizes && EncodeModeHeads(m, hs).constraints == m.constraints
    ensures |EncodeModeHeads(m, hs).hides| == |m.hides| + |hs| && EncodeModeHeads(m, hs).hides[..|m.hides|] == m.hides
    ensures |EncodeModeHeads(m, hs).minimizes| == |m.minimizes| + |hs|
    ensures EncodeModeHeads(m, hs).minimizes[..|m.minimizes|] == m.minimizes
    ensures |EncodeModeHeads(m, hs).clauses| == |m.clauses| + 3 * |hs|
    ensures EncodeModeHeads(m, hs).clauses[..|m.clauses|] == m.clauses
  {
    EmitLayout(m, Each(hs, HeadOf));
  }

  /**
    * The statements of the `i`-th head sit at place `i` of the hides and the minimizes,
    * and its choice, bridge and type rule at places `3i`, `3i + 1`, `3i + 2` of the
    * clauses, all after what the model held.
    */
  lemma ModeHeadAt(m: Model, hs: seq<HeadEntry>, i: nat)
    requires i < |hs|
    ensures |m.hides| + i < |EncodeModeHeads(m, hs).hides|
    ensures EncodeModeHeads(m, hs).hides[|m.hides| + i] == HeadOf(hs[i]).hide
    ensures |m.minimizes| + i < |EncodeModeHeads(m, hs).minimizes|
    ensures EncodeModeHeads(m, hs).minimizes[|m.minimizes| + i] == HeadOf(hs[i]).minimize
    ensures |m.clauses| + 3 * i + 2 < |EncodeModeHeads(m, hs).clauses|
    ensures EncodeModeHeads(m, hs).clauses[|m.clauses| + 3 * i] == HeadOf(hs[i]).choice
    ensures EncodeModeHeads(m, hs).clauses[|m.clauses| + 3 * i + 1] == HeadOf(hs[i]).bridge
    ensures EncodeModeHeads(m, hs).clauses[|m.clauses| + 3 * i + 2] == HeadOf(hs[i]).typeRule
  {
    EmitLayout(m, Each(hs, HeadOf));
  }

  /** A model with the statements of one more head appended to their sections. */
  function Push(r: Model, h: HeadStatements): Model {
    r.(hides := r.hides + [h.hide], minimizes := r.minimizes + [h.minimize],
       clauses := r.clauses + [h.choice, h.bridge, h.typeRule])
  }

  lemma EmitAppend(m: Model, s: seq<HeadStatements>, h: HeadStatements)
    ensures Emit(m, s + [h]) == Push(Emit(m, s), h)
  {
    EachAppend(s, h, HideOf);
    EachAppend(s, h, MinimizeOf);
    assert (s + [h])[..|s|] == s;
    assert Rules(s + [h]) == Rules(s) + [h.choice, h.bridge, h.typeRule];
    AppendAssoc(m.hides, Each(s, HideOf), [h.hide]);
    AppendAssoc(m.minimizes, Each(s, MinimizeOf), [h.minimize]);
    AppendAssoc(m.clauses, Rules(s), [h.choice, h.bridge, h.typeRule]);
  }

  /** One more head appends its statements to each section. */
  lemma ModeHeadsAppend(m: Model, hs: seq<HeadEntry>, e: HeadEntry)
    ensures EncodeModeHeads(m, hs + [e]) == Push(EncodeModeHeads(m, hs), HeadOf(e))
  {
    EachAppend(hs, e, HeadOf);
    EmitAppend(m, Each(hs, HeadOf), HeadOf(e));
  }

  /** Without mode heads the model is left as it was. */
  lemma ModeHeadsNone(m: Model)
    ensures EncodeModeHeads(m, []) == m
  {
    assert Each([], HeadOf) == [] && Rules([]) == [];
    assert m.hides + [] == m.hides && m.minimizes + [] == m.minimizes && m.clauses + [] == m.clauses;
  }

  /**
    * Deriving (mode heads, then examples) and inducing (examples only) agree on the
    * example statements; the mode heads contribute only hides, minimizes and clauses.
    */
  lemma DeriveExtendsInduce(m: Model, hs: seq<HeadEntry>, es: seq<ExampleEntry>)
    ensures var d, n, h := EncodeExamples(EncodeModeHeads(m, hs), es), EncodeExamples(m, es), EncodeModeHeads(m, hs);
      d.maximizes == n.maximizes && d.constraints == n.constraints
      && d.hides == h.hides && d.minimizes == h.minimizes && d.clauses == h.clauses
      && n.hides == m.hides && n.minimizes == m.minimizes && n.clauses == m.clauses
  {
    ModeHeadLayout(m, hs);
  }

  /** Abducible names tell apart heads that differ in name, weight or priority, and only those. */
  lemma AbducibleNameInjective(n1: string, d1: ModeHeadData, n2: string, d2: ModeHeadData)
    ensures AbducibleName(n1, d1) == AbducibleName(n2, d2)
        <==> n1 == n2 && d1.Weight() == d2.Weight() && d1.Priority() == d2.Priority()
  {
    if AbducibleName(n1, d1) == AbducibleName(n2, d2) {
      var w1, w2 := IntToString(d1.Weight()), IntToString(d2.Weight());
      var p1, p2 := IntToString(d1.Priority()), IntToString(d2.Priority());
      NumeralHasNoUnderscore(d1.Weight());
      NumeralHasNoUnderscore(d2.Weight());
      NumeralHasNoUnderscore(d1.Priority());
      NumeralHasNoUnderscore(d2.Priority());
      assert AbducibleName(n1, d1) == (AbduceTag + n1 + "_" + w1) + ['_'] + p1;
      assert AbducibleName(n2, d2) == (AbduceTag + n2 + "_" + w2) + ['_'] + p2;
      SplitAtLast(AbduceTag + n1 + "_" + w1, p1, AbduceTag + n2 + "_" + w2, p2, '_');
      assert AbduceTag + n1 + "_" + w1 == (AbduceTag + n1) + ['_'] + w1;
      assert AbduceTag + n2 + "_" + w2 == (AbduceTag + n2) + ['_'] + w2;
      SplitAtLast(AbduceTag + n1, w1, AbduceTag + n2, w2, '_');
      CancelPrefix(AbduceTag, n1, n2);
      IntToStringInjective(d1.Weight(), d2.Weight());
      IntToStringInjective(d1.Priority(), d2.Priority());
    }
  }

  lemma NumeralHasNoUnderscore(i: int)
    ensures '_' !in IntToString(i)
  {
    IntToStringNumeral(i);
  }

  /** Swapping the two bounds of a mode head changes none of its statements. */
  lemma HeadWindowUnordered(a: Atom, lo: int, hi: int, w: Option<int>, p: Option<int>)
    ensures EncodeHead(a, ModeHeadData(Some(lo), Some(hi), w, p)) == EncodeHead(a, ModeHeadData(Some(hi), Some(lo), w, p))
  {
    WindowUnordered(lo, hi, w, p);
  }

  /**
    * The choice rule is `lo { abd : typ } hi.` with the smaller bound on the left when
    * both bounds are given, and the unbounded `{ abd : typ }.` otherwise.
    */
  lemma ChoiceRuleWindow(d: ModeHeadData, abduceHead: string, typeHead: string)
    ensures d.lower.None? || d.upper.None? ==>
      ChoiceRule(d, abduceHead, typeHead) == "{ " + abduceHead + " : " + typeHead + " }" + "."
    ensures d.lower.Some? && d.upper.Some? ==>
      var lo := if d.lower.value <= d.upper.value then d.lower.value else d.upper.value;
      var hi := if d.lower.value <= d.upper.value then d.upper.value else d.lower.value;
      ChoiceRule(d, abduceHead, typeHead)
        == IntToString(lo) + " " + "{ " + abduceHead + " : " + typeHead + " }" + " " + IntToString(hi) + "."
  {
    if d.lower.Some? && d.upper.Some? {
      var lo := if d.lower.value <= d.upper.value then d.lower.value else d.upper.value;
      var hi := if d.lower.value <= d.upper.value then d.upper.value else d.lower.value;
      var open := IntToString(lo) + " ";
      AppendAssoc(open + "{ " + abduceHead + " : " + typeHead + " }", " ", IntToString(hi));
    } else {
      assert "" + "{ " == "{ ";
      var body := "{ " + abduceHead + " : " + typeHead + " }";
      assert body + "" == body;
    }
  }

  /** A head without variables gets the bare type fact `typ_<name>.` and hides `typ_<name>/0`. */
  lemma TypeRuleWithoutVariables(a: Atom, d: ModeHeadData)
    requires forall i :: 0 <= i < |a.args| ==> |a.args[i].decoded.vars| == 0
    ensures EncodeHead(a, d).typeRule == TypeName(a.name) + "."
    ensures EncodeHead(a, d).hide == "#hide " + TypeName(a.name) + "/0."
  {
    DecodeAllNoVars(a.args);
    assert IntToString(0) == "0";
  }

  /** The example head `p(+int)`: one placemarker argument decoding to the variable `V` of type `int`. */
  function ExampleHead(): Atom {
    Atom("p", [Atom("+", [Atom("int", [], "int", Decoded([], [], [], []))], "+int", Decoded(["V"], ["V"], ["V"], ["int(V)"]))],
         "p(+int)", Decoded([], [], [], []))
  }

  /** `#modeh p(+int)` with bounds 1 and 1 and no weight or priority. */
  lemma ModeHeadInstance()
    ensures EncodeHead(ExampleHead(), ModeHeadData(Some(1), Some(1), None, None))
         == HeadStatements("#hide typ_p/1.", "#minimize[ abd_p_1_1(V) =1 @1 : typ_p(V) ].",
                           "1 { abd_p_1_1(V) : typ_p(V) } 1.", "p(V) :- typ_p(V), abd_p_1_1(V).", "typ_p(V) :- int(V).")
  {
    ModeHeadInstanceParts();
    ModeHeadInstanceTexts();
  }

  lemma ModeHeadInstanceTexts()
    ensures "#hide " + "typ_p" + "/" + "1" + "." == "#hide typ_p/1."
    ensures "#minimize[ " + "abd_p_1_1(V)" + " =1 @1" + " : " + "typ_p(V)" + " ]." == "#minimize[ abd_p_1_1(V) =1 @1 : typ_p(V) ]."
    ensures "1 " + "{ " + "abd_p_1_1(V)" + " : " + "typ_p(V)" + " }" + " 1" + "." == "1 { abd_p_1_1(V) : typ_p(V) } 1."
    ensures "p(V)" + " :- " + "typ_p(V)" + ", " + "abd_p_1_1(V)" + "." == "p(V) :- typ_p(V), abd_p_1_1(V)."
    ensures "typ_p(V)" + " :- " + "int(V)" + "." == "typ_p(V) :- int(V)."
  {
    MinimizeText();
    ChoiceText();
    BridgeText();
  }

  lemma MinimizeText()
    ensures "#minimize[ " + "abd_p_1_1(V)" + " =1 @1" + " : " + "typ_p(V)" + " ]." == "#minimize[ abd_p_1_1(V) =1 @1 : typ_p(V) ]."
  {
  }

  lemma ChoiceText()
    ensures "1 " + "{ " + "abd_p_1_1(V)" + " : " + "typ_p(V)" + " }" + " 1" + "." == "1 { abd_p_1_1(V) : typ_p(V) } 1."
  {
  }

  lemma BridgeText()
    ensures "p(V)" + " :- " + "typ_p(V)" + ", " + "abd_p_1_1(V)" + "." == "p(V) :- typ_p(V), abd_p_1_1(V)."
  {
  }

  lemma ModeHeadInstanceParts()
    ensures var h := EncodeHead(ExampleHead(), ModeHeadData(Some(1), Some(1), None, None));
      && h.hide == "#hide " + "typ_p" + "/" + "1" + "."
      && h.minimize == "#minimize[ " + "abd_p_1_1(V)" + " =1 @1" + " : " + "typ_p(V)" + " ]."
      && h.choice == "1 " + "{ " + "abd_p_1_1(V)" + " : " + "typ_p(V)" + " }" + " 1" + "."
      && h.bridge == "p(V)" + " :- " + "typ_p(V)" + ", " + "abd_p_1_1(V)" + "."
      && h.typeRule == "typ_p(V)" + " :- " + "int(V)" + "."
  {
    var a, d := ExampleHead(), ModeHeadData(Some(1), Some(1), None, None);
    assert [a.args[0]][..0] == [];
    assert DecodeAll(a.args) == Decoded(["V"], ["V"], ["V"], ["int(V)"]);
    assert IntToString(1) == "1";
    var abd, typ := AbduceHead(a, d), TypeHead(a);
    assert AbducibleName("p", d) == "abd_p_1_1";
    assert abd == "abd_p_1_1(V)";
    assert typ == "typ_p(V)";
    assert NameHead(a) == "p(V)";
    assert d.AsLower() == "1 " && d.AsUpper() == " 1" && d.AsData() == " =1 @1";
    assert Join(["int(V)"], ", ") == "int(V)";
  }
}
