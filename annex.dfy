/**
  * The annex data the problem aggregate keeps beside each directive
  * (Problem.ExampleData, Problem.ModeBodyData, Problem.ModeHeadData): optional
  * integers, the defaults their getters fill in, and their renderings.
  */
module Annex {
  import opened Outcomes
  import opened Strings

  /** The annex of an example directive. */
  datatype ExampleData = ExampleData(weight: Option<int>, priority: Option<int>) {

    function Weight(): int {
      weight.GetOr(1)
    }

    function Priority(): int {
      priority.GetOr(1)
    }

    /** Neither a weight nor a priority was given: the example becomes a hard constraint. */
    predicate IsMute() {
      weight.None? && priority.None?
    }

    /** `asData()`: ` =<weight> @<priority>`, defaults filled in. */
    function AsData(): string {
      " =" + IntToString(Weight()) + " @" + IntToString(Priority())
    }

    /** `asData(maxPriority)`: as `AsData`, with the priority moved above `maxPriority`. */
    function AsDataAbove(maxPriority: int): string {
      " =" + IntToString(Weight()) + " @" + IntToString(1 + maxPriority + Priority())
    }

    /** `toString()`: only the values that were given. */
    function ToString(): string {
      Tagged(" =", weight) + Tagged(" @", priority)
    }
  }

  /** `tag` and the value when it is given, nothing otherwise. */
  function Tagged(tag: string, o: Option<int>): string {
    if o.Some? then tag + IntToString(o.value) else ""
  }

  /** The annex of a mode-body directive. */
  datatype ModeBodyData = ModeBodyData(bound: Option<int>, weight: Option<int>, priority: Option<int>) {

    function Bound(): int {
      bound.GetOr(1)
    }

    function Weight(): int {
      weight.GetOr(1)
    }

    function Priority(): int {
      priority.GetOr(1)
    }

    function AsData(): string {
      " =" + IntToString(Weight()) + " @" + IntToString(Priority())
    }

    /** `toString()`: the bound if given, then `AsData` with defaults filled in. */
    function ToString(): string {
      (if bound.Some? then " :" + IntToString(bound.value) else "") + AsData()
    }
  }

  /** The annex of a mode-head directive; built through `NewModeHeadData`. */
  datatype ModeHeadData = ModeHeadData(lower: Option<int>, upper: Option<int>, weight: Option<int>, priority: Option<int>) {

    function Weight(): int {
      weight.GetOr(1)
    }

    function Priority(): int {
      priority.GetOr(1)
    }

    function AsData(): string {
      " =" + IntToString(Weight()) + " @" + IntToString(Priority())
    }

    /** `asLower()`: the smaller bound and a space, or nothing unless both bounds are given. */
    function AsLower(): string {
      if lower.None? || upper.None? then ""
      else if lower.value <= upper.value then IntToString(lower.value) + " "
      else IntToString(upper.value) + " "
    }

    /** `asUpper()`: a space and the larger bound, or nothing unless both bounds are given. */
    function AsUpper(): string {
      if lower.None? || upper.None? then ""
      else if lower.value <= upper.value then " " + IntToString(upper.value)
      else " " + IntToString(lower.value)
    }

    /** `maxPriority(m)`: the larger of this directive's priority and `m`. */
    function MaxPriority(m: int): (r: int)
      ensures r >= m && r >= Priority() && (r == m || r == Priority())
    {
      if m > Priority() then m else Priority()
    }

    /** `toString()`: ` :<lower>-<upper>` (lower only if given) when there is an upper bound, then `AsData`. */
    function ToString(): string {
      (if upper.Some? then " :" + (if lower.Some? then IntToString(lower.value) + "-" else "") + IntToString(upper.value) else "")
      + AsData()
    }
  }

  /** `new ModeHeadData(lower, upper, weight, priority)`: an absent lower bound with a present upper one is rejected. */
  function NewModeHeadData(lower: Option<int>, upper: Option<int>, weight: Option<int>, priority: Option<int>): (r: Result<ModeHeadData>)
    ensures r.Failure? <==> lower.None? && upper.Some?
    ensures r.Failure? ==> r.error == IllegalArgument("lower")
    ensures r.Success? ==> r.value == ModeHeadData(lower, upper, weight, priority)
  {
    if lower.None? && upper.Some? then Failure(IllegalArgument("lower"))
    else Success(ModeHeadData(lower, upper, weight, priority))
  }

  /* ---------------------------------------------------------------------- */
  /* Properties                                                             */
  /* ---------------------------------------------------------------------- */

  /** An absent weight, priority or bound reads back as 1, a present one as itself; mute means both absent. */
  lemma Defaults(e: ExampleData, b: ModeBodyData, h: ModeHeadData)
    ensures e.Weight() == (if e.weight.Some? then e.weight.value else 1)
    ensures e.Priority() == (if e.priority.Some? then e.priority.value else 1)
    ensures e.IsMute() <==> e.weight.None? && e.priority.None?
    ensures b.Bound() == (if b.bound.Some? then b.bound.value else 1)
    ensures b.Weight() == (if b.weight.Some? then b.weight.value else 1)
    ensures b.Priority() == (if b.priority.Some? then b.priority.value else 1)
    ensures h.Weight() == (if h.weight.Some? then h.weight.value else 1)
    ensures h.Priority() == (if h.priority.Some? then h.priority.value else 1)
  {
  }

  /** `AsData` of an example determines its effective weight and priority. */
  lemma ExampleAsDataDetermines(d1: ExampleData, d2: ExampleData)
    requires d1.AsData() == d2.AsData()
    ensures d1.Weight() == d2.Weight() && d1.Priority() == d2.Priority()
  {
    WeightPrioritySplit(d1.Weight(), d1.Priority(), d2.Weight(), d2.Priority());
  }

  /** ` =<w> @<p>` determines `w` and `p`. */
  lemma WeightPrioritySplit(w1: int, p1: int, w2: int, p2: int)
    requires " =" + IntToString(w1) + " @" + IntToString(p1) == " =" + IntToString(w2) + " @" + IntToString(p2)
    ensures w1 == w2 && p1 == p2
  {
    var s1, s2 := " @" + IntToString(p1), " @" + IntToString(p2);
    AppendAssoc(" =" + IntToString(w1), " @", IntToString(p1));
    AppendAssoc(" =" + IntToString(w2), " @", IntToString(p2));
    NumberAfterPrefix(" =", w1, s1, w2, s2);
    CancelPrefix(" @", IntToString(p1), IntToString(p2));
    IntToStringInjective(p1, p2);
  }

  /** `toString` of an example annex loses nothing: distinct annexes render differently. */
  lemma ExampleToStringInjective(d1: ExampleData, d2: ExampleData)
    requires d1.ToString() == d2.ToString()
    ensures d1 == d2
  {
    var r1, r2 := Tagged(" @", d1.priority) + ".", Tagged(" @", d2.priority) + ".";
    assert !IsNumeralChar('=') && !IsNumeralChar('@') && !IsNumeralChar('.');
    AppendAssoc(Tagged(" =", d1.weight), Tagged(" @", d1.priority), ".");
    AppendAssoc(Tagged(" =", d2.weight), Tagged(" @", d2.priority), ".");
    TaggedSplit(" =", d1.weight, r1, d2.weight, r2);
    TaggedSplit(" @", d1.priority, ".", d2.priority, ".");
  }

  /** A tagged value followed by text that starts neither with a digit nor with the same tag can be split off again. */
  lemma TaggedSplit(tag: string, o1: Option<int>, r1: string, o2: Option<int>, r2: string)
    requires |tag| == 2 && tag[0] == ' ' && !IsNumeralChar(tag[1])
    requires |r1| > 0 && !IsNumeralChar(r1[0]) && (r1[0] == ' ' ==> |r1| > 1 && r1[1] != tag[1])
    requires |r2| > 0 && !IsNumeralChar(r2[0]) && (r2[0] == ' ' ==> |r2| > 1 && r2[1] != tag[1])
    requires Tagged(tag, o1) + r1 == Tagged(tag, o2) + r2
    ensures o1 == o2 && r1 == r2
  {
    TaggedStart(tag, o1, r1);
    TaggedStart(tag, o2, r2);
    if o1.Some? {
      NumberAfterPrefix(tag, o1.value, r1, o2.value, r2);
    } else {
      assert Tagged(tag, o1) + r1 == r1 && Tagged(tag, o2) + r2 == r2;
    }
  }

  /** Whether the value is present shows in the first two characters: the tag, or what follows. */
  lemma TaggedStart(tag: string, o: Option<int>, r: string)
    requires |tag| == 2 && tag[0] == ' '
    requires |r| > 0 && (r[0] == ' ' ==> |r| > 1 && r[1] != tag[1])
    ensures var l := Tagged(tag, o) + r;
      |l| > 1 && l[0] == ' ' && l[1] == tag[1] <==> o.Some?
  {
    if o.Some? {
      var t := tag + IntToString(o.value);
      assert Tagged(tag, o) == t && |t| > 2;
      assert t[0] == ' ' && t[1] == tag[1];
      assert (t + r)[0] == t[0] && (t + r)[1] == t[1];
    } else {
      assert Tagged(tag, o) + r == r;
    }
  }

  /** `toString` of a mode-body annex fills in defaults, so it cannot tell an absent weight or priority from 1. */
  lemma ModeBodyToStringFillsDefaults()
    ensures ModeBodyData(None, None, None).ToString() == ModeBodyData(None, Some(1), Some(1)).ToString() == " =1 @1"
  {
  }

  /** With both bounds given, the window reads back ordered: the smaller bound left, the larger right. */
  lemma WindowNormalised(lower: int, upper: int, w: Option<int>, p: Option<int>)
    ensures var d := ModeHeadData(Some(lower), Some(upper), w, p);
      var lo, hi := d.AsLower(), d.AsUpper();
      |lo| >= 2 && lo[|lo| - 1] == ' ' && |hi| >= 2 && hi[0] == ' '
      && IsNumeral(lo[..|lo| - 1]) && IsNumeral(hi[1..])
      && ParseInt(lo[..|lo| - 1]) <= ParseInt(hi[1..])
      && {ParseInt(lo[..|lo| - 1]), ParseInt(hi[1..])} == {lower, upper}
  {
    var d := ModeHeadData(Some(lower), Some(upper), w, p);
    var a, b := if lower <= upper then lower else upper, if lower <= upper then upper else lower;
    var lo, hi := d.AsLower(), d.AsUpper();
    assert lo == IntToString(a) + " " && hi == " " + IntToString(b);
    assert lo[..|lo| - 1] == IntToString(a);
    assert hi[1..] == IntToString(b);
    ParseIntInverts(a);
    ParseIntInverts(b);
  }

  /** The window is an unordered pair: swapping the bounds renders the same window. */
  lemma WindowUnordered(a: int, b: int, w: Option<int>, p: Option<int>)
    ensures ModeHeadData(Some(a), Some(b), w, p).AsLower() == ModeHeadData(Some(b), Some(a), w, p).AsLower()
    ensures ModeHeadData(Some(a), Some(b), w, p).AsUpper() == ModeHeadData(Some(b), Some(a), w, p).AsUpper()
  {
  }

  /** Unless both bounds are given the window is unconstrained: both sides render empty. */
  lemma WindowAbsent(d: ModeHeadData)
    requires d.lower.None? || d.upper.None?
    ensures d.AsLower() == "" && d.AsUpper() == ""
  {
  }

  /** With a non-negative priority, the priority `AsDataAbove` writes reads back above `maxPriority`. */
  lemma ShiftedAbove(d: ExampleData, maxPriority: int)
    requires d.Priority() >= 0
    ensures var s := d.AsDataAbove(maxPriority); var k := |s| - |IntToString(1 + maxPriority + d.Priority())|;
      0 <= k <= |s| && IsNumeral(s[k..]) && ParseInt(s[k..]) > maxPriority
      && s[..k] == " =" + IntToString(d.Weight()) + " @"
  {
    var n := 1 + maxPriority + d.Priority();
    var s := d.AsDataAbove(maxPriority);
    var k := |s| - |IntToString(n)|;
    assert s == (" =" + IntToString(d.Weight()) + " @") + IntToString(n);
    assert s[k..] == IntToString(n);
    ParseIntInverts(n);
  }
}
