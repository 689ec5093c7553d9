/**
  * The terms, statements and entities the program encoders read.  Their
  * classes are not part of this model: each value carries what the getters
  * the encoders call return, and its rendering (`toString`) as `text`.
  */
module Syntax {

  /** A variable: `getIdentifier()` and the identifier of its type. */
  datatype Variable = Variable(identifier: string, typeName: string)

  /** An atom: its rendering, the weight and priority of a clause head, and `getVariables()`. */
  datatype Atom = Atom(text: string, weight: int, priority: int, variables: seq<Variable>)

  /**
    * A body literal: its atom, its rendering, its level in the clause, its weight
    * and priority, and `getVariables()`.
    */
  datatype Literal = Literal(atom: Atom, text: string, level: int, weight: int, priority: int, variables: seq<Variable>)

  /** A clause candidate: head, body literals at positions 1..n, number of levels and rendering. */
  datatype Clause = Clause(head: Atom, body: seq<Literal>, levels: int, text: string) {

    /** `getSize()`. */
    function Size(): nat {
      |body|
    }

    /** `getBody(pos)`: positions count from 1. */
    function Body(pos: int): Literal
      requires 1 <= pos <= Size()
    {
      body[pos - 1]
    }
  }

  /** An example: its atom, polarity, weight, priority, whether it is defeasible, and its rendering. */
  datatype Example = Example(atom: Atom, negated: bool, weight: int, priority: int, defeasible: bool, text: string)

  /** A placemarker of a scheme: `getIdentifier()` (its type) and `asVariable()`. */
  datatype Placemarker = Placemarker(identifier: string, variable: string)

  /** A scheme: `getIdentifier()`, `getArity()` and `getPlacemarkers()`. */
  datatype Scheme = Scheme(identifier: string, arity: int, placemarkers: seq<Placemarker>)

  /**
    * A head mode: its scheme, the rendering of the atom `generalises` builds from
    * it, its bounds, weight and priority, and its rendering.
    */
  datatype ModeH = ModeH(scheme: Scheme, generalised: string, lower: int, upper: int, weight: int, priority: int, text: string)

  /** A body mode: only its scheme is read. */
  datatype ModeB = ModeB(scheme: Scheme)

  /** A problem, as the encoders read it: its head modes and body modes in order. */
  datatype Problem = Problem(modeHs: seq<ModeH>, modeBs: seq<ModeB>)

  /** A grounding: the encoders read nothing of it but its presence. */
  datatype Grounding = Grounding(generalisation: seq<Clause>)

  /** A display directive: `asAlternate()`. */
  datatype Display = Display(alternate: string)
}
