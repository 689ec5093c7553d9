/**
  * Text helpers shared by the encoders: decimal rendering of integers (Java's
  * `%d` and `int + String`), its parser, Java's `String.trim`, `String.join`,
  * plain concatenation, and the lexicographic order `String.compareTo` uses.
  */
module Strings {

  /* ---------------------------------------------------------------------- */
  /* Decimal numerals                                                        */
  /* ---------------------------------------------------------------------- */

  predicate IsDigit(c: char) {
    '0' <= c <= '9'
  }

  predicate AllDigits(s: string) {
    forall i :: 0 <= i < |s| ==> IsDigit(s[i])
  }

  function DigitChar(d: nat): (c: char)
    requires d < 10
    ensures IsDigit(c) && c as int - '0' as int == d
  {
    "0123456789"[d]
  }

  function DigitValue(c: char): (d: nat)
    requires IsDigit(c)
    ensures d < 10
  {
    assert '0' as int <= c as int <= '9' as int;
    c as int - '0' as int
  }

  /** Decimal rendering of a natural number, without leading zeros. */
  function NatToString(n: nat): (s: string)
    ensures |s| > 0 && IsDigit(s[0])
    ensures s[0] == '0' ==> n == 0
    decreases n
  {
    if n < 10 then [DigitChar(n)] else NatToString(n / 10) + [DigitChar(n % 10)]
  }

  lemma {:induction false} NatToStringDigits(n: nat)
    ensures AllDigits(NatToString(n))
    decreases n
  {
    if n >= 10 {
      NatToStringDigits(n / 10);
      var s := NatToString(n);
      assert s == NatToString(n / 10) + [DigitChar(n % 10)];
      forall k | 0 <= k < |s| ensures IsDigit(s[k]) {
        if k < |s| - 1 {
          assert s[k] == NatToString(n / 10)[k];
        }
      }
    }
  }

  /** A numeral: digits, optionally after a minus sign. */
  predicate IsNumeral(s: string) {
    |s| > 0 && (s[0] == '-' ==> AllDigits(s[1..])) && (s[0] != '-' ==> AllDigits(s))
  }

  /** The characters a numeral is made of. */
  predicate IsNumeralChar(c: char) {
    c == '-' || IsDigit(c)
  }

  /** Decimal rendering of an integer, as Java's `%d`: a `-` sign, then the digits. */
  function IntToString(i: int): (s: string)
    ensures |s| > 0 && (s[0] == '-' <==> i < 0)
  {
    if i < 0 then "-" + NatToString(-i) else NatToString(i)
  }

  /** The rendering of an integer is a numeral, made of numeral characters only. */
  lemma IntToStringNumeral(i: int)
    ensures IsNumeral(IntToString(i))
    ensures forall k :: 0 <= k < |IntToString(i)| ==> IsNumeralChar(IntToString(i)[k])
  {
    var s := IntToString(i);
    if i < 0 {
      NatToStringDigits(-i);
      assert s[1..] == NatToString(-i);
      forall k | 0 < k < |s| ensures IsDigit(s[k]) {
        assert s[k] == s[1..][k - 1];
      }
    } else {
      NatToStringDigits(i);
    }
  }

  /** The value of a string of digits. */
  function ParseNat(s: string): nat
    requires AllDigits(s)
    decreases |s|
  {
    if s == [] then 0 else ParseNat(s[..|s| - 1]) * 10 + DigitValue(s[|s| - 1])
  }

  /** The value of a numeral as IntToString writes it. */
  function ParseInt(s: string): int
    requires IsNumeral(s)
  {
    if s[0] == '-' then 0 - ParseNat(s[1..]) else ParseNat(s) as int
  }

  lemma {:induction false} ParseNatInverts(n: nat)
    ensures AllDigits(NatToString(n)) && ParseNat(NatToString(n)) == n
    decreases n
  {
    NatToStringDigits(n);
    if n >= 10 {
      var s := NatToString(n);
      assert s[..|s| - 1] == NatToString(n / 10);
      ParseNatInverts(n / 10);
    }
  }

  /** Parsing the rendering of an integer gives the integer back. */
  lemma ParseIntInverts(i: int)
    ensures IsNumeral(IntToString(i)) && ParseInt(IntToString(i)) == i
  {
    var s := IntToString(i);
    if i < 0 {
      var t := NatToString(-i);
      ParseNatInverts(-i);
      assert s == "-" + t && s[1..] == t;
    } else {
      ParseNatInverts(i);
      assert s[0] != '-';
    }
  }

  /** Distinct integers are rendered as distinct numerals. */
  lemma IntToStringInjective(i: int, j: int)
    requires IntToString(i) == IntToString(j)
    ensures i == j
  {
    ParseIntInverts(i);
    ParseIntInverts(j);
  }

  /* ---------------------------------------------------------------------- */
  /* Cutting a string at a separator character                              */
  /* ---------------------------------------------------------------------- */

  /**
    * If `x + s == y + t`, where neither `x` nor `y` contains `c` and both `s`
    * and `t` start with `c`, then the two splits are the same.  This is what
    * makes every statement the encoders write determine the numbers in it.
    */
  lemma SplitAtChar(x: string, s: string, y: string, t: string, c: char)
    requires c !in x && c !in y
    requires |s| > 0 && s[0] == c && |t| > 0 && t[0] == c
    requires x + s == y + t
    ensures x == y && s == t
  {
    var k := if |x| <= |y| then |x| else |y|;
    assert (x + s)[k] == (y + t)[k];
    assert |x| == |y|;
    assert x == (x + s)[..|x|] && y == (y + t)[..|y|];
    assert s == (x + s)[|x|..] && t == (y + t)[|y|..];
  }

  /**
    * Splitting at the last occurrence of `c`: `x + [c] + a == y + [c] + b`,
    * where neither `a` nor `b` contains `c`, gives `x == y` and `a == b`.
    */
  lemma SplitAtLast(x: string, a: string, y: string, b: string, c: char)
    requires c !in a && c !in b
    requires x + [c] + a == y + [c] + b
    ensures x == y && a == b
  {
    var l, r := x + [c] + a, y + [c] + b;
    var k := if |a| <= |b| then |a| else |b|;
    assert l[|l| - 1 - k] == r[|r| - 1 - k];
    assert |a| == |b|;
    assert a == l[|l| - |a|..] && b == r[|r| - |b|..];
    assert x == l[..|x|] && y == r[..|y|];
  }

  /**
    * A numeral followed by a character that cannot occur in a numeral can be
    * split off unambiguously: `IntToString(i) + s == IntToString(j) + t`, with
    * `s` and `t` starting with such characters, gives `i == j` and `s == t`.
    */
  lemma NumeralSplit(i: int, s: string, j: int, t: string)
    requires |s| > 0 && !IsNumeralChar(s[0]) && |t| > 0 && !IsNumeralChar(t[0])
    requires IntToString(i) + s == IntToString(j) + t
    ensures i == j && s == t
  {
    var x, y := IntToString(i), IntToString(j);
    IntToStringNumeral(i);
    IntToStringNumeral(j);
    var k := if |x| <= |y| then |x| else |y|;
    assert (x + s)[k] == (y + t)[k];
    assert |x| == |y|;
    assert x == (x + s)[..|x|] && y == (y + t)[..|y|];
    assert s == (x + s)[|x|..] && t == (y + t)[|y|..];
    IntToStringInjective(i, j);
  }

  /** Concatenation is associative. */
  lemma AppendAssoc<T>(a: seq<T>, b: seq<T>, c: seq<T>)
    ensures a + (b + c) == a + b + c
  {
  }

  /** A prefix one element longer is the shorter prefix and that element. */
  lemma PrefixExtend<T>(s: seq<T>, i: nat)
    requires i < |s|
    ensures s[..i + 1] == s[..i] + [s[i]]
  {
  }

  /**
    * After a common prefix, a numeral followed by a character that cannot occur in
    * a numeral determines the number and the rest.
    */
  lemma NumberAfterPrefix(p: string, i: int, s: string, j: int, t: string)
    requires |s| > 0 && !IsNumeralChar(s[0]) && |t| > 0 && !IsNumeralChar(t[0])
    requires p + IntToString(i) + s == p + IntToString(j) + t
    ensures i == j && s == t
  {
    AppendAssoc(p, IntToString(i), s);
    AppendAssoc(p, IntToString(j), t);
    CancelPrefix(p, IntToString(i) + s, IntToString(j) + t);
    NumeralSplit(i, s, j, t);
  }

  /** `p + a == p + b` gives `a == b`. */
  lemma CancelPrefix(p: string, a: string, b: string)
    requires p + a == p + b
    ensures a == b
  {
    assert a == (p + a)[|p|..];
    assert b == (p + b)[|p|..];
  }

  /** `a + p == b + p` gives `a == b`. */
  lemma CancelSuffix(a: string, b: string, p: string)
    requires a + p == b + p
    ensures a == b
  {
    assert a == (a + p)[..|a|];
    assert b == (b + p)[..|b|];
  }

  /* ---------------------------------------------------------------------- */
  /* Java's String.trim                                                     */
  /* ---------------------------------------------------------------------- */

  /** The characters `String.trim` removes: code points up to the space. */
  predicate IsBlank(c: char) {
    c <= ' '
  }

  function TrimStart(s: string): (r: string)
    ensures |r| <= |s| && r == s[|s| - |r|..]
    ensures r == [] || !IsBlank(r[0])
    ensures forall k :: 0 <= k < |s| - |r| ==> IsBlank(s[k])
  {
    if |s| > 0 && IsBlank(s[0]) then TrimStart(s[1..]) else s
  }

  function TrimEnd(s: string): (r: string)
    ensures |r| <= |s| && r == s[..|r|]
    ensures r == [] || !IsBlank(r[|r| - 1])
    ensures forall k :: |r| <= k < |s| ==> IsBlank(s[k])
  {
    if |s| > 0 && IsBlank(s[|s| - 1]) then TrimEnd(s[..|s| - 1]) else s
  }

  /** `String.trim`: the longest infix of `s` that neither starts nor ends with a blank. */
  function Trim(s: string): (r: string)
    ensures r == [] || (!IsBlank(r[0]) && !IsBlank(r[|r| - 1]))
    ensures exists i {:trigger s[i..]} :: 0 <= i <= |s| - |r| && r == s[i..i + |r|]
  {
    var a := TrimStart(s);
    var r := TrimEnd(a);
    assert r == s[|s| - |a|..|s| - |a| + |r|];
    r
  }

  /** Trimming is idempotent. */
  lemma TrimIdempotent(s: string)
    ensures Trim(Trim(s)) == Trim(s)
  {
  }

  /** A string made only of blanks trims to the empty string, and only such a string does. */
  lemma {:induction false} TrimEmptyIffBlank(s: string)
    ensures Trim(s) == [] <==> forall k :: 0 <= k < |s| ==> IsBlank(s[k])
  {
    var a := TrimStart(s);
    if a != [] {
      assert !IsBlank(a[0]);
      assert a[0] == s[|s| - |a|];
      assert TrimEnd(a) != [] by {
        assert |a| > 0 && !IsBlank(a[0]);
        TrimEndKeepsUnblankHead(a);
      }
    }
  }

  lemma {:induction false} TrimEndKeepsUnblankHead(a: string)
    requires |a| > 0 && !IsBlank(a[0])
    ensures TrimEnd(a) != []
    decreases |a|
  {
    if IsBlank(a[|a| - 1]) {
      assert |a| > 1;
      TrimEndKeepsUnblankHead(a[..|a| - 1]);
    }
  }

  /* ---------------------------------------------------------------------- */
  /* Joining                                                                */
  /* ---------------------------------------------------------------------- */

  /** Concatenation of all the parts, in order (Java's repeated `+=`). */
  function Concat(parts: seq<string>): string
    decreases |parts|
  {
    if parts == [] then "" else Concat(parts[..|parts| - 1]) + parts[|parts| - 1]
  }

  /** Each text with `prefix` in front, in order. */
  function Prefixed(prefix: string, texts: seq<string>): (r: seq<string>)
    ensures |r| == |texts|
  {
    seq(|texts|, k requires 0 <= k < |texts| => prefix + texts[k])
  }

  /** `String.join(sep, parts)` and `StringJoiner(sep)`: the parts with `sep` between neighbours. */
  function Join(parts: seq<string>, sep: string): string
    decreases |parts|
  {
    if |parts| == 0 then ""
    else if |parts| == 1 then parts[0]
    else Join(parts[..|parts| - 1], sep) + sep + parts[|parts| - 1]
  }

  lemma {:induction false} ConcatAppend(a: seq<string>, b: seq<string>)
    ensures Concat(a + b) == Concat(a) + Concat(b)
    decreases |b|
  {
    if b == [] {
      assert a + b == a;
    } else {
      var b' := b[..|b| - 1];
      assert (a + b)[..|a + b| - 1] == a + b';
      assert (a + b)[|a + b| - 1] == b[|b| - 1];
      ConcatAppend(a, b');
      AppendAssoc(Concat(a), Concat(b'), b[|b| - 1]);
    }
  }

  /** A concatenation one part longer is the shorter one and that part. */
  lemma ConcatSnoc(parts: seq<string>, k: nat)
    requires k < |parts|
    ensures Concat(parts[..k + 1]) == Concat(parts[..k]) + parts[k]
  {
    assert parts[..k + 1][..k] == parts[..k];
  }

  /** Every part occurs in the concatenation, at the offset given by the parts before it. */
  lemma {:induction false} ConcatHasPart(parts: seq<string>, k: nat)
    requires k < |parts|
    ensures var off := |Concat(parts[..k])|;
      off + |parts[k]| <= |Concat(parts)| && Concat(parts)[off..off + |parts[k]|] == parts[k]
  {
    assert parts == parts[..k] + [parts[k]] + parts[k + 1..];
    ConcatAppend(parts[..k] + [parts[k]], parts[k + 1..]);
    ConcatAppend(parts[..k], [parts[k]]);
    assert Concat([parts[k]]) == Concat([]) + parts[k];
  }

  /** `t` occurs in `s` starting at offset `off`. */
  predicate OccursAt(t: string, s: string, off: nat) {
    off + |t| <= |s| && s[off..off + |t|] == t
  }

  /** A part of a concatenation stays in place when text is put around the concatenation. */
  lemma ConcatPartIn(a: string, parts: seq<string>, b: string, k: nat, s: string, off: nat)
    requires k < |parts| && s == a + Concat(parts) + b && off == |a| + |Concat(parts[..k])|
    ensures OccursAt(parts[k], s, off)
  {
    ConcatHasPart(parts, k);
    var off := |Concat(parts[..k])|;
    assert (a + Concat(parts) + b)[|a| + off..|a| + off + |parts[k]|] == Concat(parts)[off..off + |parts[k]|];
  }

  /** `for (String item : items) s += item;` */
  method AppendEach(s: string, items: seq<string>) returns (r: string)
    ensures r == s + Concat(items)
  {
    r := s;
    for k := 0 to |items|
      invariant r == s + Concat(items[..k])
    {
      ConcatSnoc(items, k);
      AppendAssoc(s, Concat(items[..k]), items[k]);
      r := r + items[k];
    }
    assert items[..|items|] == items;
  }

  /* ---------------------------------------------------------------------- */
  /* Lexicographic order (String.compareTo on BMP characters)               */
  /* ---------------------------------------------------------------------- */

  /** `a` sorts strictly before `b`: at the first difference `a` has the smaller character, or `a` is a proper prefix of `b`. */
  predicate Less(a: string, b: string)
    decreases |a|
  {
    if a == [] then b != []
    else if b == [] then false
    else if a[0] == b[0] then Less(a[1..], b[1..])
    else a[0] < b[0]
  }

  lemma {:induction false} LessIrreflexive(a: string)
    ensures !Less(a, a)
    decreases |a|
  {
    if a != [] {
      LessIrreflexive(a[1..]);
    }
  }

  lemma {:induction false} LessAsymmetric(a: string, b: string)
    requires Less(a, b)
    ensures !Less(b, a)
    decreases |a|
  {
    if a != [] && b != [] && a[0] == b[0] {
      LessAsymmetric(a[1..], b[1..]);
    }
  }

  lemma {:induction false} LessTotal(a: string, b: string)
    requires a != b
    ensures Less(a, b) || Less(b, a)
    decreases |a|
  {
    if a != [] && b != [] && a[0] == b[0] {
      assert a == [a[0]] + a[1..] && b == [b[0]] + b[1..];
      LessTotal(a[1..], b[1..]);
    }
  }

  lemma {:induction false} LessTransitive(a: string, b: string, c: string)
    requires Less(a, b) && Less(b, c)
    ensures Less(a, c)
    decreases |a|
  {
    if a != [] && b != [] && c != [] && a[0] == b[0] && b[0] == c[0] {
      LessTransitive(a[1..], b[1..], c[1..]);
    }
  }

  /** Strictly increasing: what a `TreeSet<String>` iterates. */
  predicate Sorted(s: seq<string>) {
    forall i, j :: 0 <= i < j < |s| ==> Less(s[i], s[j])
  }

  function Elems<T>(s: seq<T>): set<T> {
    set x | x in s
  }

  /** `f` applied to each element, in order. */
  function Each<A, B>(xs: seq<A>, f: A --> B): (r: seq<B>)
    requires forall x :: x in xs ==> f.requires(x)
    ensures |r| == |xs|
    ensures forall i :: 0 <= i < |xs| ==> r[i] == f(xs[i])
    decreases |xs|
  {
    if xs == [] then [] else Each(xs[..|xs| - 1], f) + [f(xs[|xs| - 1])]
  }

  lemma EachAppend<A, B>(xs: seq<A>, x: A, f: A --> B)
    requires forall y :: y in xs + [x] ==> f.requires(y)
    ensures Each(xs + [x], f) == Each(xs, f) + [f(x)]
  {
    assert (xs + [x])[..|xs|] == xs;
  }

  /** `p` holds of each pair of elements at the same position of two sequences of the same length. */
  predicate ZipAll<A, B>(xs: seq<A>, ys: seq<B>, p: (A, B) -> bool) {
    |xs| == |ys| && forall i :: 0 <= i < |xs| ==> p(xs[i], ys[i])
  }

  /** A pair more for which `p` holds keeps `ZipAll`. */
  lemma ZipAllSnoc<A, B>(xs: seq<A>, ys: seq<B>, y: B, p: (A, B) -> bool)
    requires |ys| < |xs| && ZipAll(xs[..|ys|], ys, p) && p(xs[|ys|], y)
    ensures ZipAll(xs[..|ys| + 1], ys + [y], p)
  {
    var k := |ys|;
    forall i | 0 <= i < k + 1 ensures p(xs[..k + 1][i], (ys + [y])[i]) {
      if i < k {
        assert xs[..k + 1][i] == xs[..k][i] && (ys + [y])[i] == ys[i];
      }
    }
  }

  /** `TreeSet.add`: put `x` at its place in a sorted sequence, unless it is there already. */
  function Insert(s: seq<string>, x: string): seq<string>
    decreases |s|
  {
    if s == [] then [x]
    else if x == s[0] then s
    else if Less(x, s[0]) then [x] + s
    else [s[0]] + Insert(s[1..], x)
  }

  lemma {:induction false} InsertElems(s: seq<string>, x: string)
    ensures Elems(Insert(s, x)) == Elems(s) + {x}
    decreases |s|
  {
    if s != [] && x != s[0] && !Less(x, s[0]) {
      InsertElems(s[1..], x);
      assert s == [s[0]] + s[1..];
      assert Elems(s) == {s[0]} + Elems(s[1..]);
      assert Elems([s[0]] + Insert(s[1..], x)) == {s[0]} + Elems(Insert(s[1..], x));
    }
  }

  lemma HeadBelowRest(s: seq<string>)
    requires Sorted(s) && s != []
    ensures forall y :: y in Elems(s[1..]) ==> Less(s[0], y)
  {
    forall y | y in Elems(s[1..]) ensures Less(s[0], y) {
      var k :| 0 <= k < |s[1..]| && s[1..][k] == y;
      assert s[k + 1] == y;
    }
  }

  lemma {:induction false} InsertSorted(s: seq<string>, x: string)
    requires Sorted(s)
    ensures Sorted(Insert(s, x)) && Elems(Insert(s, x)) == Elems(s) + {x}
    decreases |s|
  {
    InsertElems(s, x);
    if s == [] || x == s[0] {
    } else if Less(x, s[0]) {
      var r := [x] + s;
      forall i, j | 0 <= i < j < |r| ensures Less(r[i], r[j]) {
        if i == 0 && j > 1 {
          LessTransitive(x, s[0], s[j - 1]);
        }
      }
    } else {
      LessTotal(x, s[0]);
      InsertSorted(s[1..], x);
      HeadBelowRest(s);
      var t := Insert(s[1..], x);
      var r := [s[0]] + t;
      forall i, j | 0 <= i < j < |r| ensures Less(r[i], r[j]) {
        if i == 0 {
          assert r[j] == t[j - 1] && t[j - 1] in Elems(t);
        } else {
          assert r[i] == t[i - 1] && r[j] == t[j - 1];
        }
      }
    }
  }

  /** A `TreeSet<String>` after adding the strings of `xs`, one after the other, to the set `s`. */
  function InsertAll(s: seq<string>, xs: seq<string>): seq<string>
    decreases |xs|
  {
    if xs == [] then s else Insert(InsertAll(s, xs[..|xs| - 1]), xs[|xs| - 1])
  }

  lemma {:induction false} InsertAllSorted(s: seq<string>, xs: seq<string>)
    requires Sorted(s)
    ensures Sorted(InsertAll(s, xs)) && Elems(InsertAll(s, xs)) == Elems(s) + Elems(xs)
    decreases |xs|
  {
    if xs != [] {
      var xs' := xs[..|xs| - 1];
      InsertAllSorted(s, xs');
      InsertSorted(InsertAll(s, xs'), xs[|xs| - 1]);
      assert xs == xs' + [xs[|xs| - 1]];
      assert Elems(xs) == Elems(xs') + {xs[|xs| - 1]};
    }
  }

  /** Two sorted sequences with the same elements are equal: a TreeSet's order depends only on its contents. */
  lemma {:induction false} SortedUnique(a: seq<string>, b: seq<string>)
    requires Sorted(a) && Sorted(b) && Elems(a) == Elems(b)
    ensures a == b
    decreases |a|
  {
    if a != [] {
      assert a[0] in Elems(a);
    }
    if b != [] {
      assert b[0] in Elems(b);
    }
    if a != [] && b != [] {
      assert a[0] == b[0] by {
        if a[0] != b[0] {
          assert a[0] in Elems(b);
          assert b[0] in Elems(a);
          var i :| 0 <= i < |b| && b[i] == a[0];
          var j :| 0 <= j < |a| && a[j] == b[0];
          assert i > 0 && j > 0;
          LessAsymmetric(b[0], a[0]);
        }
      }
      assert Elems(a[1..]) == Elems(b[1..]) by {
        HeadBelowRest(a);
        HeadBelowRest(b);
        LessIrreflexive(a[0]);
        assert a == [a[0]] + a[1..] && b == [b[0]] + b[1..];
        assert Elems(a) == {a[0]} + Elems(a[1..]);
        assert Elems(b) == {b[0]} + Elems(b[1..]);
        assert a[0] !in Elems(a[1..]) && b[0] !in Elems(b[1..]);
      }
      SortedUnique(a[1..], b[1..]);
      assert a == [a[0]] + a[1..] && b == [b[0]] + b[1..];
    }
  }
}
