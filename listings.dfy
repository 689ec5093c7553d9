/**
  * The formatters that list atoms, literals or clauses under a label: an
  * insertion-ordered set of lines, the trimmed label first.
  */
module Listings {
  import opened Outcomes
  import opened Strings
  import opened LinkedSets
  import opened Syntax

  /** A label is accepted when it is present and not blank. */
  predicate ValidLabel(heading: Option<string>) {
    heading.Some? && Trim(heading.value) != []
  }

  /** The first line: the trimmed label and a colon. */
  function LabelLine(heading: string): string {
    Trim(heading) + ":"
  }

  /** The line that stands for an empty collection. */
  const NoneLine: string := "  -"

  /** A `TreeSet` filled with the prefixed texts. */
  function SortedItems(prefix: string, texts: seq<string>): seq<string> {
    InsertAll([], Prefixed(prefix, texts))
  }

  /** The listing on one line: the label line, then all the items after a space. */
  function InlineListing(heading: string, texts: seq<string>): seq<string> {
    [LabelLine(heading), if texts == [] then NoneLine else " " + Concat(SortedItems(" ", texts))]
  }

  /** The listing one item per line: the label line, then the indented items. */
  function LineListing(heading: string, texts: seq<string>): seq<string> {
    [LabelLine(heading)] + if texts == [] then [NoneLine] else SortedItems("  ", texts)
  }

  /** The renderings of some items (their `toString`), in order. */
  function Texts<T>(items: seq<T>, text: T -> string): (r: seq<string>)
    ensures |r| == |items|
  {
    seq(|items|, k requires 0 <= k < |items| => text(items[k]))
  }

  const AtomTextOf: Atom -> string := (a: Atom) => a.text
  const LiteralTextOf: Literal -> string := (l: Literal) => l.text
  const ClauseTextOf: Clause -> string := (c: Clause) => c.text

  /** `for (T item : items) list.add(prefix + item);` into a fresh `TreeSet`. */
  method SortItems(prefix: string, texts: seq<string>) returns (list: seq<string>)
    ensures list == SortedItems(prefix, texts)
  {
    list := [];
    for k := 0 to |texts|
      invariant list == InsertAll([], Prefixed(prefix, texts)[..k])
    {
      PrefixExtend(Prefixed(prefix, texts), k);
      list := Insert(list, prefix + texts[k]);
    }
    assert Prefixed(prefix, texts)[..|texts|] == Prefixed(prefix, texts);
  }

  /**
    * The body shared by `listAtoms` and `listLiterals`; `argument` names the
    * collection in the exception.
    */
  method ListInline(heading: Option<string>, texts: Option<seq<string>>, argument: string) returns (r: Result<seq<string>>)
    ensures !ValidLabel(heading) ==> r == Failure(IllegalArgument("label"))
    ensures ValidLabel(heading) && texts.None? ==> r == Failure(IllegalArgument(argument))
    ensures ValidLabel(heading) && texts.Some? ==> r == Success(InlineListing(heading.value, texts.value))
  {
    if heading.None? {
      return Failure(IllegalArgument("label"));
    }
    var trimmed := Trim(heading.value);
    if trimmed == [] {
      return Failure(IllegalArgument("label"));
    }
    if texts.None? {
      return Failure(IllegalArgument(argument));
    }
    var lines := InlineLines(trimmed + ":", texts.value);
    r := Success(lines);
  }

  /** The lines of a one-line listing after the label checks: `first`, then the items or `  -`. */
  method InlineLines(first: string, texts: seq<string>) returns (result: seq<string>)
    requires first != [] && first[0] != ' '
    ensures result == [first, if texts == [] then NoneLine else " " + Concat(SortedItems(" ", texts))]
  {
    result := Add([], first);
    assert result == [first];
    if |texts| == 0 {
      assert first[0] != NoneLine[0];
      result := Add(result, NoneLine);
    } else {
      var list := SortItems(" ", texts);
      var content := AppendEach(" ", list);
      assert content[0] == ' ';
      result := Add(result, content);
    }
  }

  /** `listAtoms`: the label, then the sorted atoms on one line. */
  method ListAtoms(heading: Option<string>, atoms: Option<seq<Atom>>) returns (r: Result<seq<string>>)
    ensures !ValidLabel(heading) ==> r == Failure(IllegalArgument("label"))
    ensures ValidLabel(heading) && atoms.None? ==> r == Failure(IllegalArgument("atoms"))
    ensures ValidLabel(heading) && atoms.Some? ==> r == Success(InlineListing(heading.value, Texts(atoms.value, AtomTextOf)))
  {
    var texts := if atoms.None? then None else Some(Texts(atoms.value, AtomTextOf));
    r := ListInline(heading, texts, "atoms");
  }

  /** `listLiterals`: the label, then the sorted literals on one line. */
  method ListLiterals(heading: Option<string>, literals: Option<seq<Literal>>) returns (r: Result<seq<string>>)
    ensures !ValidLabel(heading) ==> r == Failure(IllegalArgument("label"))
    ensures ValidLabel(heading) && literals.None? ==> r == Failure(IllegalArgument("literals"))
    ensures ValidLabel(heading) && literals.Some? ==> r == Success(InlineListing(heading.value, Texts(literals.value, LiteralTextOf)))
  {
    var texts := if literals.None? then None else Some(Texts(literals.value, LiteralTextOf));
    r := ListInline(heading, texts, "literals");
  }

  /** `listClauses`: the label, then one indented line per distinct clause, sorted. */
  method ListClauses(heading: Option<string>, clauses: Option<seq<Clause>>) returns (r: Result<seq<string>>)
    ensures !ValidLabel(heading) ==> r == Failure(IllegalArgument("label"))
    ensures ValidLabel(heading) && clauses.None? ==> r == Failure(IllegalArgument("clauses"))
    ensures ValidLabel(heading) && clauses.Some? ==> r == Success(LineListing(heading.value, Texts(clauses.value, ClauseTextOf)))
  {
    if heading.None? {
      return Failure(IllegalArgument("label"));
    }
    var trimmed := Trim(heading.value);
    if trimmed == [] {
      return Failure(IllegalArgument("label"));
    }
    if clauses.None? {
      return Failure(IllegalArgument("clauses"));
    }
    var texts := Texts(clauses.value, ClauseTextOf);
    var result := Add([], trimmed + ":");
    assert result == [trimmed + ":"] && (trimmed + ":")[0] == trimmed[0] && !IsBlank(trimmed[0]);
    if |clauses.value| == 0 {
      assert (trimmed + ":")[0] != NoneLine[0];
      result := Add(result, NoneLine);
      assert result == [trimmed + ":", NoneLine];
    } else {
      var list := SortItems("  ", texts);
      IndentedItemsFresh(trimmed + ":", "  ", texts);
      AddAllFresh(result, list);
      result := AddAll(result, list);
    }
    r := Success(result);
  }

  /**
    * The sorted items, each starting with a blank, never repeat the label line, which
    * starts with a visible character.
    */
  lemma IndentedItemsFresh(first: string, prefix: string, texts: seq<string>)
    requires first != [] && !IsBlank(first[0]) && prefix != [] && IsBlank(prefix[0])
    ensures NoDup([first] + SortedItems(prefix, texts))
  {
    var items := SortedItems(prefix, texts);
    SortedItemsFacts(prefix, texts);
    var s := [first] + items;
    forall i, j | 0 <= i < j < |s| ensures s[i] != s[j] {
      assert s[j] == items[j - 1];
      if i == 0 {
        assert items[j - 1] in Elems(Prefixed(prefix, texts));
        var k :| 0 <= k < |texts| && Prefixed(prefix, texts)[k] == items[j - 1];
        assert items[j - 1][0] == prefix[0];
      } else {
        assert s[i] == items[i - 1];
      }
    }
  }

  /** The items are sorted, hence never repeat, and are exactly the prefixed texts. */
  lemma SortedItemsFacts(prefix: string, texts: seq<string>)
    ensures Sorted(SortedItems(prefix, texts)) && NoDup(SortedItems(prefix, texts))
    ensures Elems(SortedItems(prefix, texts)) == Elems(Prefixed(prefix, texts))
  {
    InsertAllSorted([], Prefixed(prefix, texts));
    var items := SortedItems(prefix, texts);
    forall i, j | 0 <= i < j < |items| ensures items[i] != items[j] {
      if items[i] == items[j] {
        LessIrreflexive(items[i]);
      }
    }
  }

  /**
    * A one-line listing has two lines: the trimmed label with a colon, then either
    * `  -` for an empty collection or, after a space, every item once, sorted.
    */
  lemma InlineListingFacts(heading: string, texts: seq<string>)
    requires Trim(heading) != []
    ensures NoDup(InlineListing(heading, texts)) && |InlineListing(heading, texts)| == 2
    ensures InlineListing(heading, texts)[0] == Trim(heading) + ":"
    ensures texts == [] ==> InlineListing(heading, texts)[1] == NoneLine
    ensures texts != [] ==>
      && InlineListing(heading, texts)[1] == " " + Concat(SortedItems(" ", texts))
      && Sorted(SortedItems(" ", texts))
      && Elems(SortedItems(" ", texts)) == set t | t in texts :: " " + t
  {
    SortedItemsFacts(" ", texts);
    PrefixedElems(" ", texts);
    var l := InlineListing(heading, texts);
    assert l[0][0] != l[1][0];
  }

  /**
    * A line listing starts with the trimmed label and a colon, then holds `  -` for an
    * empty collection, or every clause once, indented, in sorted order.
    */
  lemma LineListingFacts(heading: string, texts: seq<string>)
    requires Trim(heading) != []
    ensures NoDup(LineListing(heading, texts)) && LineListing(heading, texts)[0] == Trim(heading) + ":"
    ensures texts == [] ==> LineListing(heading, texts) == [Trim(heading) + ":", NoneLine]
    ensures texts != [] ==>
      && Sorted(LineListing(heading, texts)[1..])
      && Elems(LineListing(heading, texts)[1..]) == set t | t in texts :: "  " + t
  {
    SortedItemsFacts("  ", texts);
    PrefixedElems("  ", texts);
    var l := LineListing(heading, texts);
    if texts == [] {
      assert l[0][0] != l[1][0];
    } else {
      IndentedItemsFresh(Trim(heading) + ":", "  ", texts);
      assert l[1..] == SortedItems("  ", texts);
    }
  }

  lemma PrefixedElems(prefix: string, texts: seq<string>)
    ensures Elems(Prefixed(prefix, texts)) == set t | t in texts :: prefix + t
  {
    var p := Prefixed(prefix, texts);
    forall x | x in Elems(p) ensures x in set t | t in texts :: prefix + t {
      var k :| 0 <= k < |p| && p[k] == x;
      assert texts[k] in texts;
    }
    forall x | x in set t | t in texts :: prefix + t ensures x in Elems(p) {
      var t :| t in texts && x == prefix + t;
      var k :| 0 <= k < |texts| && texts[k] == t;
      assert p[k] == x;
    }
  }
}
