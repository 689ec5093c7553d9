/**
  * The term model the problem aggregate works on: atoms with their argument
  * terms, literals, and the statement sections of a model.  The classes these
  * stand for are not part of this model; each value carries what their
  * methods the aggregate calls return (`toString`, `decode`).
  */
module Predicates {
  import opened Strings

  /**
    * What `decode` appends, for one argument term, to the four lists of the
    * mode-head encoding: fixed arguments, head arguments, variables and types.
    */
  datatype Decoded = Decoded(fixes: seq<string>, heads: seq<string>, vars: seq<string>, types: seq<string>)

  /** An atom: functor, argument terms (themselves atoms), its rendering and its `decode` result. */
  datatype Atom = Atom(name: string, args: seq<Atom>, text: string, decoded: Decoded)

  /** A literal: an atom, its polarity, and its rendering. */
  datatype Literal = Literal(atom: Atom, negated: bool, text: string)

  /** The functors of the input (`+`), output (`-`) and constant (`$`) placemarkers. */
  const Input: string := "+"
  const Output: string := "-"
  const Constant: string := "$"

  /** A single-argument placemarker atom such as `+int`: its argument is a type. */
  predicate IsPlacemarker(a: Atom) {
    |a.args| == 1 && (a.name == Input || a.name == Output || a.name == Constant)
  }

  /** The types `findTypes` collects from an atom. */
  function TypesOf(a: Atom): set<Atom>
    decreases a, |a.args| + 1
  {
    if |a.args| == 0 then {}
    else if IsPlacemarker(a) then {a.args[0]}
    else ArgTypes(a, |a.args|)
  }

  /** The types collected from the first `n` arguments of `a`, one argument after the other. */
  function ArgTypes(a: Atom, n: nat): set<Atom>
    requires n <= |a.args|
    decreases a, n
  {
    if n == 0 then {} else ArgTypes(a, n - 1) + TypesOf(a.args[n - 1])
  }

  /**
    * `Marks(a, t)`: somewhere inside `a`, reached through arguments of atoms
    * that are not placemarkers, a placemarker has `t` as its argument.
    */
  predicate Marks(a: Atom, t: Atom)
    decreases a
  {
    if |a.args| == 0 then false
    else if IsPlacemarker(a) then a.args[0] == t
    else exists i :: 0 <= i < |a.args| && Marks(a.args[i], t)
  }

  /** The type set of an atom is exactly the set of terms its placemarkers mark. */
  lemma {:induction false} TypesOfMarks(a: Atom, t: Atom)
    ensures t in TypesOf(a) <==> Marks(a, t)
    decreases a, |a.args| + 1
  {
    if |a.args| > 0 && !IsPlacemarker(a) {
      ArgTypesMarks(a, |a.args|, t);
    }
  }

  lemma {:induction false} ArgTypesMarks(a: Atom, n: nat, t: Atom)
    requires n <= |a.args|
    ensures t in ArgTypes(a, n) <==> exists i :: 0 <= i < n && Marks(a.args[i], t)
    decreases a, n
  {
    if n > 0 {
      ArgTypesMarks(a, n - 1, t);
      TypesOfMarks(a.args[n - 1], t);
      if exists i :: 0 <= i < n && Marks(a.args[i], t) {
        var i :| 0 <= i < n && Marks(a.args[i], t);
        if i < n - 1 {
          assert exists j :: 0 <= j < n - 1 && Marks(a.args[j], t);
        }
      }
    }
  }

  /** A placemarker adds exactly its argument and is not descended into. */
  lemma PlacemarkerAddsItsArgument(a: Atom)
    requires IsPlacemarker(a)
    ensures TypesOf(a) == {a.args[0]}
  {
  }

  /** Any other atom contributes exactly what its arguments contribute. */
  lemma {:induction false} CompoundDescends(a: Atom, t: Atom)
    requires |a.args| > 0 && !IsPlacemarker(a)
    ensures t in TypesOf(a) <==> exists i :: 0 <= i < |a.args| && t in TypesOf(a.args[i])
  {
    ArgTypesMarks(a, |a.args|, t);
    TypesOfMarks(a, t);
    forall i | 0 <= i < |a.args| ensures t in TypesOf(a.args[i]) <==> Marks(a.args[i], t) {
      TypesOfMarks(a.args[i], t);
    }
  }

  /* ---------------------------------------------------------------------- */
  /* Models                                                                 */
  /* ---------------------------------------------------------------------- */

  /** The statement sections of a model that the aggregate appends to. */
  datatype Model = Model(hides: seq<string>, minimizes: seq<string>, maximizes: seq<string>,
                         clauses: seq<string>, constraints: seq<string>)

  const EmptyModel: Model := Model([], [], [], [], [])

  predicate IsEmptyModel(m: Model) {
    m.hides == [] && m.minimizes == [] && m.maximizes == [] && m.clauses == [] && m.constraints == []
  }
}
