/**
  * Short sessions with a fresh problem that pin down the documented
  * behaviour of its mutators, its queries and its derive cache.
  *
  * `TrimPadding` only evaluates `Trim` on one literal for the solver; the
  * scenarios are the other lemmas.
  */
module ProblemScenarios {
  import opened Outcomes
  import opened Strings
  import opened Predicates
  import opened Annex
  import opened ProblemEncoding
  import opened Problems

  /** A fact added twice: true the first time, false the second, and the second annex wins. */
  method ReAddedExampleOverwrites(l: Literal) returns (first: Result<bool>, second: Result<bool>, stored: ExampleData)
    ensures first == Success(true) && second == Success(false)
    ensures stored == ExampleData(Some(2), None)
  {
    var p := new Problem();
    first := p.AddExample(Some(l), None, None);
    second := p.AddExample(Some(l), Some(2), None);
    stored := p.examples[l];
  }

  /** A body mode goes into the bucket of its priority; the same literal under another priority is new again. */
  method ModeBodiesBucketByPriority(l: Literal) returns (first: Result<bool>, again: Result<bool>, other: Result<bool>)
    ensures first == Success(true) && again == Success(false) && other == Success(true)
  {
    var p := new Problem();
    first := p.AddModeBody(Some(l), None, None, None);
    again := p.AddModeBody(Some(l), Some(3), None, Some(1));
    other := p.AddModeBody(Some(l), None, None, Some(2));
  }

  /** `addModeHead(h, 5, 2, …)` is refused on its upper bound and stores nothing. */
  method ReversedBoundsRejected(h: Atom) returns (r: Result<bool>, abducible: bool)
    ensures r == Failure(IllegalArgument("max")) && !abducible
  {
    var p := new Problem();
    r := p.AddModeHead(Some(h), 5, 2, None, None);
    abducible := p.IsAbducible();
  }

  /** A second `derive` with nothing changed in between returns the same model. */
  method DeriveIsCached(p: Problem) returns (first: Model, second: Model)
    requires p.Valid()
    modifies p`model, p`modified
    ensures first == second && p.model == Some(first) && !p.modified
  {
    first := p.Derive();
    second := p.Derive();
  }

  /** `addDisplayAll` leaves the dirty flag alone, so `derive` still returns the cached model. */
  method DisplayAllKeepsCache(p: Problem) returns (first: Model, second: Model)
    requires p.Valid()
    modifies p`model, p`modified, p`display
    ensures first == second && p.display
  {
    first := p.Derive();
    p.AddDisplayAll();
    assert p.model == Some(first) && !p.modified;
    second := p.Derive();
  }

  /**
    * A new example marks the problem modified, so `derive` rebuilds: the mode-head
    * statements follow the problem's own, and one maximize joins them.
    */
  method NewExampleRebuilds(p: Problem, l: Literal) returns (added: Result<bool>, rebuilt: Model)
    requires p.Valid() && l !in p.examples
    modifies p`model, p`modified, p`examples, p`exampleKeys
    ensures added == Success(true) && p.Valid() && !p.modified
    ensures rebuilt == p.Derived()
    ensures var heads := EncodeModeHeads(p.base, p.HeadEntries());
      rebuilt.hides == heads.hides && rebuilt.minimizes == heads.minimizes && rebuilt.clauses == heads.clauses
      && |rebuilt.maximizes| == |p.base.maximizes| + 1
  {
    added := p.AddExample(Some(l), None, None);
    assert p.modified;
    rebuilt := p.Derive();
    assert l in p.examples;
    assert p.ExampleEntries() != [] by {
      KeysEmpty(p.exampleKeys, p.examples);
    }
    ModeHeadLayout(p.base, p.HeadEntries());
    ExampleEncodingCounts(EncodeModeHeads(p.base, p.HeadEntries()), p.ExampleEntries());
  }

  /** `clear` drops the examples but keeps the mode heads, so the problem stays abducible and non-empty. */
  method ClearKeepsModeHeads(h: Atom, l: Literal) returns (abducible: bool, empty: bool, induced: Model)
    ensures abducible && !empty && induced == EmptyModel
  {
    var p := new Problem();
    var _ := p.AddModeHead(Some(h), 0, 2, None, None);
    var _ := p.AddExample(Some(l), None, None);
    p.Clear();
    abducible := p.IsAbducible();
    empty := p.IsEmpty();
    induced := p.Induce();
  }

  /** A display is registered under its trimmed name, but candidates are looked up as they are. */
  method DisplayNamesAreTrimmed(x: Atom) returns (added: Result<bool>, plain: Result<bool>, padded: Result<bool>)
    ensures added == Success(true) && plain == Success(true) && padded == Success(false)
  {
    var p := new Problem();
    added := AddPadded(p);
    plain := p.IsDisplayable(Some(Atom("p", [x], "p(x)", x.decoded)));
    assert |" p "| != |"p"|;
    padded := p.IsDisplayable(Some(Atom(" p ", [x], " p (x)", x.decoded)));
  }

  /** A fresh problem given the display ` p `/1 registers it as `p`/1. */
  method AddPadded(p: Problem) returns (added: Result<bool>)
    requires p.displays == map[]
    modifies p`displays, p`modified
    ensures added == Success(true) && p.displays == map["p" := {1}]
  {
    TrimPadding();
    added := p.AddDisplay(Some(" p "), 1);
    assert {} + {1} == {1};
  }

  lemma TrimPadding()
    ensures Trim(" p ") == "p"
  {
    assert " p "[1..] == "p ";
    assert TrimStart("p ") == "p ";
    assert TrimStart(" p ") == "p ";
    assert "p "[..1] == "p";
    assert TrimEnd("p") == "p";
    assert TrimEnd("p ") == "p";
  }
}
