/**
  * The clause encoder of the program's abduction-to-induction step: every
  * candidate clause of a generalisation becomes the statements that let the
  * solver decide which of its literals to use (`use_clause_literal/2`), try
  * each literal of the body (`try_clause_literal/2+`), keep the clause's
  * levels contiguous, and pay for each literal it keeps.
  */
module ClauseEncoding {
  import opened Outcomes
  import opened Strings
  import opened LinkedSets
  import opened Syntax

  /* ---------------------------------------------------------------------- */
  /* Variables and their type guards                                        */
  /* ---------------------------------------------------------------------- */

  /** The variable list of a try atom: a comma, then the identifier, for each variable in order. */
  function VarList(vs: seq<Variable>): string
    decreases |vs|
  {
    if vs == [] then "" else VarList(vs[..|vs| - 1]) + "," + vs[|vs| - 1].identifier
  }

  /** The type guard of a variable, `,type(V)`. */
  function TypeGuard(v: Variable): string {
    "," + v.typeName + "(" + v.identifier + ")"
  }

  /** The type guards of some variables, as the set they are collected in. */
  function TypeGuards(vs: seq<Variable>): set<string> {
    set v | v in vs :: TypeGuard(v)
  }

  /** The type guards of the variables of every literal of a body, collected in one set. */
  function BodyGuards(body: seq<Literal>): set<string>
    decreases |body|
  {
    if body == [] then {} else BodyGuards(body[..|body| - 1]) + TypeGuards(body[|body| - 1].variables)
  }

  /** Iterating a `HashSet`: `order` lists each element of `s` exactly once. */
  predicate Enumerates(order: seq<string>, s: set<string>) {
    NoDup(order) && Elems(order) == s
  }

  /** The guards of one variable more. */
  lemma TypeGuardsSnoc(vs: seq<Variable>, k: nat)
    requires k < |vs|
    ensures TypeGuards(vs[..k + 1]) == TypeGuards(vs[..k]) + {TypeGuard(vs[k])}
  {
    assert vs[..k + 1] == vs[..k] + [vs[k]];
  }

  /* ---------------------------------------------------------------------- */
  /* The statements                                                         */
  /* ---------------------------------------------------------------------- */

  /** `try_clause_literal(id,pos,X,...)`. */
  function TryAtom(id: int, pos: int, vars: string): string {
    "try_clause_literal(" + IntToString(id) + "," + IntToString(pos) + vars + ")"
  }

  /** `use_clause_literal(id,pos)`: position 0 stands for the head. */
  function UseAtom(id: int, pos: int): string {
    "use_clause_literal(" + IntToString(id) + "," + IntToString(pos) + ")"
  }

  /** The first way to satisfy a try atom: the literal is not used. */
  function TryRuleOff(id: int, pos: int, vars: string, guards: string): string {
    TryAtom(id, pos, vars) + ":-not " + UseAtom(id, pos) + guards + "."
  }

  /** The second way: the literal is used and holds. */
  function TryRuleOn(id: int, pos: int, vars: string, guards: string, literal: string): string {
    TryAtom(id, pos, vars) + ":-" + UseAtom(id, pos) + guards + "," + literal + "."
  }

  /**
    * The statements of the literal at `pos` (from 1) of clause `id`, with its type
    * guards written in the order `order`: the unused case, then the used one.
    */
  function LiteralRules(id: int, pos: int, literal: Literal, order: seq<string>): seq<string> {
    [TryRuleOff(id, pos, VarList(literal.atom.variables), Concat(order)),
     TryRuleOn(id, pos, VarList(literal.atom.variables), Concat(order), literal.text)]
  }

  /** The try atom of the literal at `pos`, as a condition of the head rule. */
  function TryCall(id: int, pos: int, literal: Literal): string {
    "," + TryAtom(id, pos, VarList(literal.variables))
  }

  /** The try conditions of a body, position by position. */
  function TryCalls(id: int, body: seq<Literal>): (r: seq<string>)
    ensures |r| == |body|
  {
    seq(|body|, k requires 0 <= k < |body| => TryCallOf(id, k + 1, body[k]))
  }

  const TryCallOf: (int, int, Literal) -> string := (id: int, pos: int, literal: Literal) => TryCall(id, pos, literal)

  /**
    * The head rule: the head holds when the clause is used and every body literal
    * can be tried, under the type guards of all the body's variables.
    */
  function HeadRule(id: int, head: Atom, body: seq<Literal>, guards: string): string {
    HeadStartOf(id, head) + Concat(TryCalls(id, body)) + (guards + ".")
  }

  const HeadStartOf: (int, Atom) -> string := (id: int, head: Atom) => HeadStart(id, head)

  /** The head rule up to its try conditions: the head, if the clause is used. */
  function HeadStart(id: int, head: Atom): string {
    head.text + ":-" + UseAtom(id, 0)
  }

  /** `clause(id).` */
  function ClauseFact(id: int): string {
    "clause(" + IntToString(id) + ")."
  }

  /** `literal(id,1..n).` */
  function LiteralRange(id: int, size: int): string {
    "literal(" + IntToString(id) + ",1.." + IntToString(size) + ")."
  }

  /** `clause_level(id,level):-use_clause_literal(id,pos).` */
  function LevelRule(id: int, level: int, pos: int): string {
    "clause_level(" + IntToString(id) + "," + IntToString(level) + "):-" + UseAtom(id, pos) + "."
  }

  /** The level rule of each body literal. */
  function LevelRules(id: int, body: seq<Literal>): (r: seq<string>)
    ensures |r| == |body|
  {
    seq(|body|, k requires 0 <= k < |body| => LevelRuleOf(id, body[k].level, k + 1))
  }

  const LevelRuleOf: (int, int, int) -> string :=
    (id: int, level: int, pos: int) => LevelRule(id, level, pos)

  /** A level may be used only when the level below it is. */
  function LevelConstraint(id: int, lvl: int): string {
    ":-not clause_level(" + IntToString(id) + "," + IntToString(lvl)
      + ("),clause_level(" + IntToString(id) + "," + IntToString(1 + lvl) + ").")
  }

  /** The constraints for the levels `0 .. levels - 1`; none when `levels` is not positive. */
  function LevelConstraints(id: int, levels: int): (r: seq<string>)
    ensures |r| == if levels < 0 then 0 else levels
  {
    seq(if levels < 0 then 0 else levels, k requires 0 <= k => LevelConstraint(id, k))
  }

  /** `#minimize[ use_clause_literal(id,pos) =weight @priority ].` */
  function Minimize(id: int, pos: int, weight: int, priority: int): string {
    "#minimize[ use_clause_literal(" + IntToString(id) + "," + IntToString(pos)
      + (") =" + IntToString(weight) + " @" + IntToString(priority) + " ].")
  }

  /** The cost of each body literal. */
  function BodyMinimizes(id: int, body: seq<Literal>): (r: seq<string>)
    ensures |r| == |body|
  {
    seq(|body|, k requires 0 <= k < |body| => MinimizeOf(id, k + 1, body[k].weight, body[k].priority))
  }

  const MinimizeOf: (int, int, int, int) -> string :=
    (id: int, pos: int, weight: int, priority: int) => Minimize(id, pos, weight, priority)

  /**
    * The literal statements of the whole body, the guards of position `k + 1`
    * ordered by `orders[k]` (there is one order per literal wherever this is used).
    */
  function BodyRules(id: int, body: seq<Literal>, orders: seq<seq<string>>): seq<string>
    decreases |body|
  {
    if body == [] || orders == [] then [] else
      BodyRules(id, body[..|body| - 1], orders[..|orders| - 1])
      + LiteralRules(id, |body|, body[|body| - 1], orders[|orders| - 1])
  }

  /** The orders in which the guard sets of one clause were iterated. */
  datatype ClauseOrder = ClauseOrder(head: seq<string>, literals: seq<seq<string>>)

  /** `order` is a possible iteration of the guard sets of `c`. */
  predicate OrderFits(c: Clause, order: ClauseOrder) {
    && Enumerates(order.head, BodyGuards(c.body))
    && |order.literals| == |c.body|
    && LiteralOrdersFit(c.body, order.literals)
  }

  /** Each order lists the guard set of the literal at its position. */
  predicate LiteralOrdersFit(body: seq<Literal>, orders: seq<seq<string>>) {
    |orders| == |body| && forall k :: 0 <= k < |body| ==> Enumerates(orders[k], TypeGuards(body[k].atom.variables))
  }

  /** The statements of clause `id`, in the order they are added. */
  function ClauseParts(id: int, c: Clause, order: ClauseOrder): seq<string> {
    [ClauseFact(id), LiteralRange(id, c.Size()), LevelRule(id, 0, 0)]
      + LevelRules(id, c.body)
      + LevelConstraints(id, c.levels)
      + [Minimize(id, 0, c.head.weight, c.head.priority)]
      + BodyMinimizes(id, c.body)
      + [""]
      + [HeadRule(id, c.head, c.body, Concat(order.head))]
      + BodyRules(id, c.body, order.literals)
  }

  /** The insertion-ordered set of the statements of clause `id`. */
  function ClauseOutput(id: int, c: Clause, order: ClauseOrder): seq<string> {
    Dedup(ClauseParts(id, c, order))
  }

  const ClauseOutputOf: (int, Clause, ClauseOrder) -> seq<string> :=
    (id: int, c: Clause, order: ClauseOrder) => ClauseOutput(id, c, order)

  const OrderFitsOf: (Clause, ClauseOrder) -> bool := (c: Clause, order: ClauseOrder) => OrderFits(c, order)

  /** Whether every order is a possible iteration of its clause's guard sets. */
  predicate OrdersFit(cs: seq<Clause>, orders: seq<ClauseOrder>) {
    ZipAll(cs, orders, OrderFitsOf)
  }

  /** The statements of all the clauses, clause `i` numbered `i`, in one insertion-ordered set. */
  function ClausesOutput(cs: seq<Clause>, orders: seq<ClauseOrder>): seq<string>
    requires |orders| == |cs|
  {
    MergeZip(cs, orders, ClauseOutputOf)
  }

  /* ---------------------------------------------------------------------- */
  /* The encoder                                                            */
  /* ---------------------------------------------------------------------- */

  /** The iteration order of a `HashSet`: some listing of its elements, each once. */
  method Enumerate(s: set<string>) returns (items: seq<string>)
    ensures Enumerates(items, s)
  {
    items := [];
    var rest := s;
    while rest != {}
      invariant NoDup(items) && Elems(items) + rest == s && Elems(items) !! rest
      decreases |rest|
    {
      var x :| x in rest;
      AddFacts(items, x);
      assert x !in items;
      items := items + [x];
      rest := rest - {x};
    }
  }

  /** The variable list and the type guards of some variables, built in one pass. */
  method Variables(vs: seq<Variable>, types: set<string>) returns (vars: string, types': set<string>)
    ensures vars == VarList(vs) && types' == types + TypeGuards(vs)
  {
    vars := "";
    types' := types;
    for k := 0 to |vs|
      invariant vars == VarList(vs[..k]) && types' == types + TypeGuards(vs[..k])
    {
      assert vs[..k + 1][..k] == vs[..k];
      TypeGuardsSnoc(vs, k);
      vars := vars + "," + vs[k].identifier;
      types' := types' + {TypeGuard(vs[k])};
    }
    assert vs[..|vs|] == vs;
  }

  /**
    * `convert(id, pos, literal)`: the two ways of trying the literal at `pos`, with
    * the variables of its atom and their type guards, in the order `order`
    * in which the set of guards is iterated.
    */
  method ConvertLiteral(id: int, pos: int, literal: Option<Literal>) returns (r: Result<seq<string>>, ghost order: seq<string>)
    ensures id < 0 ==> r == Failure(IllegalArgument("id"))
    ensures 0 <= id && pos < 1 ==> r == Failure(IllegalArgument("pos"))
    ensures 0 <= id && 1 <= pos && literal.None? ==> r == Failure(IllegalArgument("literal"))
    ensures 0 <= id && 1 <= pos && literal.Some? ==>
      && Enumerates(order, TypeGuards(literal.value.atom.variables))
      && r == Success(LiteralRules(id, pos, literal.value, order))
  {
    order := [];
    if id < 0 {
      return Failure(IllegalArgument("id")), order;
    }
    if pos < 1 {
      return Failure(IllegalArgument("pos")), order;
    }
    if literal.None? {
      return Failure(IllegalArgument("literal")), order;
    }
    var vars, types := Variables(literal.value.atom.variables, {});
    var items := Enumerate(types);
    order := items;
    var statement := AppendEach(TryAtom(id, pos, vars) + ":-not " + UseAtom(id, pos), items);
    statement := statement + ".";
    var result := Add([], statement);
    statement := AppendEach(TryAtom(id, pos, vars) + ":-" + UseAtom(id, pos), items);
    statement := statement + "," + literal.value.text;
    statement := statement + ".";
    result := Add(result, statement);
    TryRulesDiffer(id, pos, vars, Concat(items), literal.value.text);
    assert result == LiteralRules(id, pos, literal.value, items);
    r := Success(result);
  }

  /**
    * `convert(id, head, body)`: the head rule of clause `id`, with the type guards
    * of all the body's variables in the order `order` in which their set is iterated.
    */
  method ConvertHead(id: int, head: Option<Atom>, body: Option<seq<Literal>>) returns (r: Result<string>, ghost order: seq<string>)
    ensures id < 0 ==> r == Failure(IllegalArgument("id"))
    ensures 0 <= id && head.None? ==> r == Failure(IllegalArgument("head"))
    ensures 0 <= id && head.Some? && body.None? ==> r == Failure(IllegalArgument("body"))
    ensures 0 <= id && head.Some? && body.Some? ==>
      && Enumerates(order, BodyGuards(body.value))
      && r == Success(HeadRule(id, head.value, body.value, Concat(order)))
  {
    order := [];
    if id < 0 {
      return Failure(IllegalArgument("id")), order;
    }
    if head.None? {
      return Failure(IllegalArgument("head")), order;
    }
    if body.None? {
      return Failure(IllegalArgument("body")), order;
    }
    var literals := body.value;
    ghost var start := HeadStart(id, head.value);
    var result, types := AppendTryCalls(id, HeadStart(id, head.value), literals);
    var items := Enumerate(types);
    order := items;
    result := AppendEach(result, items);
    AppendAssoc(start + Concat(TryCalls(id, literals)), Concat(items), ".");
    result := result + ".";
    r := Success(result);
  }

  /** The loop of the head rule: one try condition per body literal, collecting the type guards. */
  method AppendTryCalls(id: int, start: string, literals: seq<Literal>) returns (result: string, types: set<string>)
    ensures result == start + Concat(TryCalls(id, literals))
    ensures types == BodyGuards(literals)
  {
    result := start;
    types := {};
    var pos := 1;
    for k := 0 to |literals|
      invariant pos == k + 1
      invariant result == start + Concat(TryCalls(id, literals)[..k])
      invariant types == BodyGuards(literals[..k])
    {
      var vars;
      vars, types := Variables(literals[k].variables, types);
      assert literals[..k + 1][..k] == literals[..k];
      ConcatSnoc(TryCalls(id, literals), k);
      AppendAssoc(start, Concat(TryCalls(id, literals)[..k]), TryCall(id, pos, literals[k]));
      result := result + ("," + TryAtom(id, pos, vars));
      pos := pos + 1;
    }
    assert literals[..|literals|] == literals;
    assert TryCalls(id, literals)[..|literals|] == TryCalls(id, literals);
  }

  /**
    * `convert(id, clause)`: the statements of clause `id`, in the order they are
    * added to one insertion-ordered set; `order` gives the iteration of each set of
    * type guards.
    */
  method ConvertClause(id: int, clause: Option<Clause>) returns (r: Result<seq<string>>, ghost order: ClauseOrder)
    ensures id < 0 ==> r == Failure(IllegalArgument("id"))
    ensures 0 <= id && clause.None? ==> r == Failure(IllegalArgument("clause"))
    ensures 0 <= id && clause.Some? ==>
      OrderFits(clause.value, order) && r == Success(ClauseOutput(id, clause.value, order))
  {
    order := ClauseOrder([], []);
    if id < 0 {
      return Failure(IllegalArgument("id")), order;
    }
    if clause.None? {
      return Failure(IllegalArgument("clause")), order;
    }
    var c := clause.value;
    var result: seq<string> := [];
    ghost var parts: seq<string> := [];
    AddAllSnoc([], parts, ClauseFact(id));
    result := Add(result, ClauseFact(id));
    parts := parts + [ClauseFact(id)];
    AddAllSnoc([], parts, LiteralRange(id, c.Size()));
    result := Add(result, LiteralRange(id, c.Size()));
    parts := parts + [LiteralRange(id, c.Size())];
    AddAllSnoc([], parts, LevelRule(id, 0, 0));
    result := Add(result, LevelRule(id, 0, 0));
    parts := parts + [LevelRule(id, 0, 0)];
    assert parts == [ClauseFact(id), LiteralRange(id, c.Size()), LevelRule(id, 0, 0)];
    result := AddLevelRules(id, c, result);
    AddAllAppend([], parts, LevelRules(id, c.body));
    parts := parts + LevelRules(id, c.body);
    result := AddLevelConstraints(id, c.levels, result);
    AddAllAppend([], parts, LevelConstraints(id, c.levels));
    parts := parts + LevelConstraints(id, c.levels);
    AddAllSnoc([], parts, Minimize(id, 0, c.head.weight, c.head.priority));
    result := Add(result, Minimize(id, 0, c.head.weight, c.head.priority));
    parts := parts + [Minimize(id, 0, c.head.weight, c.head.priority)];
    result := AddBodyMinimizes(id, c, result);
    AddAllAppend([], parts, BodyMinimizes(id, c.body));
    parts := parts + BodyMinimizes(id, c.body);
    AddAllSnoc([], parts, "");
    result := Add(result, "");
    parts := parts + [""];
    var headRule, headOrder := ConvertHead(id, Some(c.head), Some(c.body));
    AddAllSnoc([], parts, headRule.value);
    result := Add(result, headRule.value);
    parts := parts + [headRule.value];
    ghost var literalOrders;
    result, literalOrders := AddBodyRules(id, c, result);
    AddAllAppend([], parts, BodyRules(id, c.body, literalOrders));
    order := ClauseOrder(headOrder, literalOrders);
    r := Success(result);
  }

  /** The level rule of each body literal, added in position order. */
  method AddLevelRules(id: int, c: Clause, s: seq<string>) returns (result: seq<string>)
    ensures result == AddAll(s, LevelRules(id, c.body))
  {
    result := s;
    for pos := 1 to c.Size() + 1
      invariant result == AddAll(s, LevelRules(id, c.body)[..pos - 1])
    {
      PrefixExtend(LevelRules(id, c.body), pos - 1);
      AddAllSnoc(s, LevelRules(id, c.body)[..pos - 1], LevelRule(id, c.Body(pos).level, pos));
      result := Add(result, LevelRule(id, c.Body(pos).level, pos));
    }
    assert LevelRules(id, c.body)[..c.Size()] == LevelRules(id, c.body);
  }

  /** The constraint of each level below `levels`, added from level 0 up. */
  method AddLevelConstraints(id: int, levels: int, s: seq<string>) returns (result: seq<string>)
    ensures result == AddAll(s, LevelConstraints(id, levels))
  {
    result := s;
    var lvl := 0;
    while lvl < levels
      invariant 0 <= lvl <= |LevelConstraints(id, levels)|
      invariant result == AddAll(s, LevelConstraints(id, levels)[..lvl])
    {
      PrefixExtend(LevelConstraints(id, levels), lvl);
      AddAllSnoc(s, LevelConstraints(id, levels)[..lvl], LevelConstraint(id, lvl));
      result := Add(result, LevelConstraint(id, lvl));
      lvl := lvl + 1;
    }
    assert LevelConstraints(id, levels)[..lvl] == LevelConstraints(id, levels);
  }

  /** The cost of each body literal, added in position order. */
  method AddBodyMinimizes(id: int, c: Clause, s: seq<string>) returns (result: seq<string>)
    ensures result == AddAll(s, BodyMinimizes(id, c.body))
  {
    result := s;
    for pos := 1 to c.Size() + 1
      invariant result == AddAll(s, BodyMinimizes(id, c.body)[..pos - 1])
    {
      var literal := c.Body(pos);
      PrefixExtend(BodyMinimizes(id, c.body), pos - 1);
      AddAllSnoc(s, BodyMinimizes(id, c.body)[..pos - 1], Minimize(id, pos, literal.weight, literal.priority));
      result := Add(result, Minimize(id, pos, literal.weight, literal.priority));
    }
    assert BodyMinimizes(id, c.body)[..c.Size()] == BodyMinimizes(id, c.body);
  }

  /** The statements of each body literal, added in position order. */
  method AddBodyRules(id: int, c: Clause, s: seq<string>) returns (result: seq<string>, ghost orders: seq<seq<string>>)
    requires 0 <= id
    ensures LiteralOrdersFit(c.body, orders)
    ensures result == AddAll(s, BodyRules(id, c.body, orders))
  {
    result := s;
    orders := [];
    for pos := 1 to c.Size() + 1
      invariant LiteralOrdersFit(c.body[..pos - 1], orders)
      invariant result == AddAll(s, BodyRules(id, c.body[..pos - 1], orders))
    {
      var rules, o := ConvertLiteral(id, pos, Some(c.Body(pos)));
      LiteralOrdersSnoc(c.body, orders, o);
      BodyRulesSnoc(id, c.body, orders, o);
      AddAllAppend(s, BodyRules(id, c.body[..pos - 1], orders), rules.value);
      result := AddAll(result, rules.value);
      orders := orders + [o];
    }
    assert c.body[..c.Size()] == c.body;
  }

  /**
    * `convert(clauses)`: clause `i` of the collection is numbered `i`, and the
    * statements of all the clauses go into one insertion-ordered set.
    */
  method ConvertClauses(clauses: Option<seq<Clause>>) returns (r: Result<seq<string>>, ghost orders: seq<ClauseOrder>)
    ensures clauses.None? ==> r == Failure(IllegalArgument("clauses"))
    ensures clauses.Some? ==> OrdersFit(clauses.value, orders) && r == Success(ClausesOutput(clauses.value, orders))
  {
    orders := [];
    if clauses.None? {
      return Failure(IllegalArgument("clauses")), orders;
    }
    var cs := clauses.value;
    var result := [];
    var c := 0;
    while c < |cs|
      invariant 0 <= c <= |cs| && |orders| == c
      invariant OrdersFit(cs[..c], orders)
      invariant result == ClausesOutput(cs[..c], orders)
    {
      result, orders := AddClause(cs, c, orders, result);
      c := c + 1;
    }
    assert cs[..c] == cs;
    r := Success(result);
  }

  /**
    * One turn of the loop of `convert(clauses)`: the next clause converted, numbered by
    * its position, and its statements added.
    */
  method AddClause(cs: seq<Clause>, c: nat, ghost orders: seq<ClauseOrder>, s: seq<string>) returns (result: seq<string>, ghost orders': seq<ClauseOrder>)
    requires c == |orders| < |cs| && OrdersFit(cs[..c], orders) && s == ClausesOutput(cs[..c], orders)
    ensures |orders'| == c + 1 && OrdersFit(cs[..c + 1], orders')
    ensures result == ClausesOutput(cs[..c + 1], orders')
  {
    var statements;
    ghost var o;
    statements, o := ConvertClause(c, Some(cs[c]));
    ZipAllSnoc(cs, orders, o, OrderFitsOf);
    MergeZipSnoc(cs, orders, o, ClauseOutputOf);
    result := AddAll(s, statements.value);
    orders' := orders + [o];
  }

  /** The literal statements of a body prefix one literal longer. */
  lemma BodyRulesSnoc(id: int, body: seq<Literal>, orders: seq<seq<string>>, o: seq<string>)
    requires |orders| < |body|
    ensures BodyRules(id, body[..|orders| + 1], orders + [o])
      == BodyRules(id, body[..|orders|], orders) + LiteralRules(id, |orders| + 1, body[|orders|], o)
  {
    var k := |orders|;
    assert body[..k + 1][..k] == body[..k];
    assert (orders + [o])[..k] == orders;
  }

  /** Orders for a body prefix, and one more for the next literal, fit the longer prefix. */
  lemma LiteralOrdersSnoc(body: seq<Literal>, orders: seq<seq<string>>, o: seq<string>)
    requires |orders| < |body| && LiteralOrdersFit(body[..|orders|], orders)
    requires Enumerates(o, TypeGuards(body[|orders|].atom.variables))
    ensures LiteralOrdersFit(body[..|orders| + 1], orders + [o])
  {
    var k := |orders|;
    forall i | 0 <= i < k + 1
      ensures Enumerates((orders + [o])[i], TypeGuards(body[..k + 1][i].atom.variables))
    {
      if i < k {
        assert body[..k + 1][i] == body[..k][i] && (orders + [o])[i] == orders[i];
      }
    }
  }

  /* ---------------------------------------------------------------------- */
  /* What the encoding guarantees                                           */
  /* ---------------------------------------------------------------------- */

  /** The two ways of trying a literal are different statements. */
  lemma TryRulesDiffer(id: int, pos: int, vars: string, guards: string, literal: string)
    ensures TryRuleOff(id, pos, vars, guards) != TryRuleOn(id, pos, vars, guards, literal)
  {
    var t := TryAtom(id, pos, vars);
    assert TryRuleOff(id, pos, vars, guards)[|t| + 2] == 'n';
    assert TryRuleOn(id, pos, vars, guards, literal)[|t| + 2] == 'u';
  }

  /** The level constraints are distinct: a clause with `n` levels gets `n` of them. */
  lemma LevelConstraintsDistinct(id: int, levels: int)
    ensures NoDup(LevelConstraints(id, levels))
  {
    var lc := LevelConstraints(id, levels);
    forall i, j | 0 <= i < j < |lc| ensures lc[i] != lc[j] {
      LevelConstraintInjective(id, i, j);
    }
  }

  /** Constraints about different levels differ. */
  lemma LevelConstraintInjective(id: int, l: int, l': int)
    requires l != l'
    ensures LevelConstraint(id, l) != LevelConstraint(id, l')
  {
    var s := "),clause_level(" + IntToString(id) + "," + IntToString(1 + l) + ").";
    var s' := "),clause_level(" + IntToString(id) + "," + IntToString(1 + l') + ").";
    assert s[0] == ')' && s'[0] == ')';
    if LevelConstraint(id, l) == LevelConstraint(id, l') {
      NumberAfterPrefix(":-not clause_level(" + IntToString(id) + ",", l, s, l', s');
    }
  }

  /** The costs of the body literals are distinct statements, one per position. */
  lemma BodyMinimizesDistinct(id: int, body: seq<Literal>)
    ensures NoDup(BodyMinimizes(id, body))
  {
    var bm := BodyMinimizes(id, body);
    forall i, j | 0 <= i < j < |bm| ensures bm[i] != bm[j] {
      BodyMinimizesDiffer(id, body, i, j);
    }
  }

  lemma BodyMinimizesDiffer(id: int, body: seq<Literal>, i: nat, j: nat)
    requires i < j < |body|
    ensures BodyMinimizes(id, body)[i] != BodyMinimizes(id, body)[j]
  {
    MinimizeInjective(id, i + 1, body[i].weight, body[i].priority, j + 1, body[j].weight, body[j].priority);
  }

  /** Cost statements about different positions differ. */
  lemma MinimizeInjective(id: int, p: int, w: int, q: int, p': int, w': int, q': int)
    requires p != p'
    ensures MinimizeOf(id, p, w, q) != MinimizeOf(id, p', w', q')
  {
    var s := ") =" + IntToString(w) + " @" + IntToString(q) + " ].";
    var s' := ") =" + IntToString(w') + " @" + IntToString(q') + " ].";
    assert s[0] == ')' && s'[0] == ')';
    if Minimize(id, p, w, q) == Minimize(id, p', w', q') {
      NumberAfterPrefix("#minimize[ use_clause_literal(" + IntToString(id) + ",", p, s, p', s');
    }
  }

  /** Clauses with different numbers get different `clause/1` facts. */
  lemma ClauseFactInjective(i: int, j: int)
    requires ClauseFact(i) == ClauseFact(j)
    ensures i == j
  {
    NumberAfterPrefix("clause(", i, ").", j, ").");
  }

  /**
    * The head rule tries every body literal: the try condition of position `k + 1`
    * occurs in it, after the head, the use of the clause and the conditions before it.
    */
  lemma HeadRuleTriesEveryLiteral(id: int, head: Atom, body: seq<Literal>, guards: string, k: nat)
    requires k < |body|
    ensures OccursAt(TryCalls(id, body)[k], HeadRule(id, head, body, guards), TryOffset(id, head, body, k))
  {
    ConcatPartIn(HeadStartOf(id, head), TryCalls(id, body), guards + ".", k,
      HeadRule(id, head, body, guards), TryOffset(id, head, body, k));
  }

  /** Where the try condition of position `k + 1` starts in the head rule. */
  function TryOffset(id: int, head: Atom, body: seq<Literal>, k: nat): nat
    requires k <= |body|
  {
    |HeadStartOf(id, head)| + |Concat(TryCalls(id, body)[..k])|
  }

  /**
    * The statements of a clause: none repeats, each statement added is there, and the
    * set starts with the clause fact, its literal range and the level of its head.
    */
  lemma ClauseOutputFacts(id: int, c: Clause, order: ClauseOrder)
    ensures NoDup(ClauseOutput(id, c, order))
    ensures Elems(ClauseOutput(id, c, order)) == Elems(ClauseParts(id, c, order))
    ensures |ClauseOutput(id, c, order)| >= 3
    ensures ClauseOutput(id, c, order)[..3] == [ClauseFact(id), LiteralRange(id, c.Size()), LevelRule(id, 0, 0)]
  {
    DedupFacts(ClauseParts(id, c, order));
    ClauseOutputHeader(id, c, order);
  }

  lemma ClauseOutputHeader(id: int, c: Clause, order: ClauseOrder)
    ensures |ClauseOutput(id, c, order)| >= 3
    ensures ClauseOutput(id, c, order)[..3] == [ClauseFact(id), LiteralRange(id, c.Size()), LevelRule(id, 0, 0)]
  {
    var parts := ClauseParts(id, c, order);
    HeaderDistinct(id, c.Size());
    assert parts[..3] == [ClauseFact(id), LiteralRange(id, c.Size()), LevelRule(id, 0, 0)];
    DedupKeepsPrefix(parts, 3);
  }

  /** The clause fact, the literal range and the head's level rule are three different statements. */
  lemma HeaderDistinct(id: int, size: int)
    ensures NoDup([ClauseFact(id), LiteralRange(id, size), LevelRule(id, 0, 0)])
  {
    assert ClauseFact(id)[0] == 'c' && LevelRule(id, 0, 0)[0] == 'c' && LiteralRange(id, size)[0] == 'l';
    assert ClauseFact(id)[6] == '(' && LevelRule(id, 0, 0)[6] == '_';
  }

  /**
    * The statements of all the clauses: none repeats, and a statement is there exactly
    * when some clause contributes it.
    */
  lemma ClausesOutputFacts(cs: seq<Clause>, orders: seq<ClauseOrder>)
    requires |orders| == |cs|
    ensures NoDup(ClausesOutput(cs, orders))
    ensures forall x :: x in ClausesOutput(cs, orders) <==>
      exists i :: 0 <= i < |cs| && x in ClauseOutput(i, cs[i], orders[i])
  {
    MergeZipFacts(cs, orders, ClauseOutputOf);
    forall x ensures x in ClausesOutput(cs, orders) <==> exists i :: 0 <= i < |cs| && x in ClauseOutput(i, cs[i], orders[i]) {
      if x in ClausesOutput(cs, orders) {
        var i :| 0 <= i < |cs| && x in ClauseOutputOf(i, cs[i], orders[i]);
        assert x in ClauseOutput(i, cs[i], orders[i]);
      }
      if exists i :: 0 <= i < |cs| && x in ClauseOutput(i, cs[i], orders[i]) {
        var i :| 0 <= i < |cs| && x in ClauseOutput(i, cs[i], orders[i]);
        assert x in ClauseOutputOf(i, cs[i], orders[i]);
      }
    }
  }

  /** Every clause of the collection is announced by its own `clause(i).` fact. */
  lemma EveryClauseAnnounced(cs: seq<Clause>, orders: seq<ClauseOrder>, i: nat)
    requires |orders| == |cs| && i < |cs|
    ensures ClauseFact(i) in ClausesOutput(cs, orders)
  {
    ClauseOutputFacts(i, cs[i], orders[i]);
    assert ClauseFact(i) == ClauseOutput(i, cs[i], orders[i])[..3][0];
    ClausesOutputFacts(cs, orders);
  }
}
