/**
  * Insertion-ordered sets, as Java's `LinkedHashSet`: a sequence without
  * repetitions; adding an element already present leaves the sequence alone,
  * adding a new one appends it.  `LinkedHashMap` keys behave the same way.
  */
module LinkedSets {
  import opened Strings

  predicate NoDup<T(==)>(s: seq<T>) {
    forall i, j :: 0 <= i < j < |s| ==> s[i] != s[j]
  }

  /** The first element of a sequence without repetitions does not recur in its tail. */
  lemma NoDupHead<T>(s: seq<T>)
    requires NoDup(s) && s != []
    ensures s[0] !in s[1..] && NoDup(s[1..])
    ensures Elems(s) == {s[0]} + Elems(s[1..])
  {
    assert s == [s[0]] + s[1..];
    forall i | 0 <= i < |s[1..]| ensures s[1..][i] != s[0] {
      assert s[1..][i] == s[i + 1];
    }
  }

  /** Strings that start with different characters are different. */
  lemma NoDupByFirst(s: seq<string>, firsts: seq<char>)
    requires |firsts| == |s| && NoDup(firsts)
    requires forall k :: 0 <= k < |s| ==> s[k] != [] && s[k][0] == firsts[k]
    ensures NoDup(s)
  {
    forall i, j | 0 <= i < j < |s| ensures s[i] != s[j] {
      assert s[i][0] == firsts[i] && s[j][0] == firsts[j];
    }
  }

  /** `LinkedHashSet.add`. */
  function Add<T(==)>(s: seq<T>, x: T): seq<T> {
    if x in s then s else s + [x]
  }

  /** Adding keeps the sequence free of repetitions and adds exactly `x` to its elements. */
  lemma AddFacts<T>(s: seq<T>, x: T)
    requires NoDup(s)
    ensures NoDup(Add(s, x)) && Elems(Add(s, x)) == Elems(s) + {x}
  {
    if x !in s {
      var t := s + [x];
      forall i, j | 0 <= i < j < |t| ensures t[i] != t[j] {
        if j == |s| {
          assert t[i] == s[i];
        }
      }
    }
  }

  /** `LinkedHashSet.addAll`: add the elements of `xs` one after the other. */
  function AddAll<T(==)>(s: seq<T>, xs: seq<T>): seq<T>
    decreases |xs|
  {
    if xs == [] then s else Add(AddAll(s, xs[..|xs| - 1]), xs[|xs| - 1])
  }

  /** Adding the elements of `xs`, then `x`, is adding the elements of `xs + [x]`. */
  lemma AddAllSnoc<T>(s: seq<T>, xs: seq<T>, x: T)
    ensures AddAll(s, xs + [x]) == Add(AddAll(s, xs), x)
  {
    assert (xs + [x])[..|xs|] == xs;
  }

  /** A fresh `LinkedHashSet` filled from `xs`. */
  function Dedup<T(==)>(xs: seq<T>): seq<T> {
    AddAll([], xs)
  }

  /**
    * Adding all of `xs` keeps what was there, in place, yields no repetition,
    * and holds exactly the elements of both.
    */
  lemma {:induction false} AddAllFacts<T>(s: seq<T>, xs: seq<T>)
    requires NoDup(s)
    ensures NoDup(AddAll(s, xs))
    ensures Elems(AddAll(s, xs)) == Elems(s) + Elems(xs)
    ensures |s| <= |AddAll(s, xs)| && AddAll(s, xs)[..|s|] == s
    decreases |xs|
  {
    if xs != [] {
      var xs' := xs[..|xs| - 1];
      AddAllFacts(s, xs');
      assert xs == xs' + [xs[|xs| - 1]];
      assert Elems(xs) == Elems(xs') + {xs[|xs| - 1]};
      var r := AddAll(s, xs');
      assert Elems(r + [xs[|xs| - 1]]) == Elems(r) + {xs[|xs| - 1]};
      assert (r + [xs[|xs| - 1]])[..|s|] == r[..|s|];
    }
  }

  /** Adding `a` then `b` is adding `a + b`. */
  lemma {:induction false} AddAllAppend<T>(s: seq<T>, a: seq<T>, b: seq<T>)
    ensures AddAll(s, a + b) == AddAll(AddAll(s, a), b)
    decreases |b|
  {
    if b == [] {
      assert a + b == a;
    } else {
      var b' := b[..|b| - 1];
      assert (a + b)[..|a + b| - 1] == a + b';
      assert (a + b)[|a + b| - 1] == b[|b| - 1];
      AddAllAppend(s, a, b');
    }
  }

  /** When nothing in `xs` repeats and nothing is already in `s`, the set grows by exactly `xs`. */
  lemma {:induction false} AddAllFresh<T>(s: seq<T>, xs: seq<T>)
    requires NoDup(s + xs)
    ensures AddAll(s, xs) == s + xs
    decreases |xs|
  {
    if xs == [] {
      assert s + xs == s;
    } else {
      var xs' := xs[..|xs| - 1];
      assert s + xs == (s + xs') + [xs[|xs| - 1]];
      assert NoDup(s + xs') by {
        forall i, j | 0 <= i < j < |s + xs'| ensures (s + xs')[i] != (s + xs')[j] {
          assert (s + xs')[i] == (s + xs)[i] && (s + xs')[j] == (s + xs)[j];
        }
      }
      AddAllFresh(s, xs');
      assert xs[|xs| - 1] !in s + xs' by {
        forall i | 0 <= i < |s + xs'| ensures (s + xs')[i] != xs[|xs| - 1] {
          assert (s + xs')[i] == (s + xs)[i];
          assert (s + xs)[|s + xs| - 1] == xs[|xs| - 1];
        }
      }
    }
  }

  /** The result of `Dedup` never repeats and holds exactly the input's elements. */
  lemma DedupFacts<T>(xs: seq<T>)
    ensures NoDup(Dedup(xs)) && Elems(Dedup(xs)) == Elems(xs)
    ensures NoDup(xs) ==> Dedup(xs) == xs
  {
    AddAllFacts([], xs);
    if NoDup(xs) {
      assert [] + xs == xs;
      AddAllFresh([], xs);
    }
  }

  /** When the first `k` elements do not repeat, deduplicating keeps them in front. */
  lemma DedupKeepsPrefix<T>(xs: seq<T>, k: nat)
    requires k <= |xs| && NoDup(xs[..k])
    ensures |Dedup(xs)| >= k && Dedup(xs)[..k] == xs[..k]
  {
    assert xs == xs[..k] + xs[k..];
    AddAllAppend([], xs[..k], xs[k..]);
    assert [] + xs[..k] == xs[..k];
    AddAllFresh([], xs[..k]);
    AddAllFacts(xs[..k], xs[k..]);
  }

  /**
    * The insertion-ordered sets `f(i, xs[i], ys[i])`, for `i` from 0 up, added one
    * after the other to an empty one.
    */
  function MergeZip<A, B, T(==)>(xs: seq<A>, ys: seq<B>, f: (int, A, B) -> seq<T>): seq<T>
    requires |xs| == |ys|
    decreases |xs|
  {
    if xs == [] then []
    else AddAll(MergeZip(xs[..|xs| - 1], ys[..|ys| - 1], f), f(|xs| - 1, xs[|xs| - 1], ys[|ys| - 1]))
  }

  /** One more pair merged is one more set added. */
  lemma MergeZipSnoc<A, B, T>(xs: seq<A>, ys: seq<B>, y: B, f: (int, A, B) -> seq<T>)
    requires |ys| < |xs|
    ensures MergeZip(xs[..|ys| + 1], ys + [y], f) == AddAll(MergeZip(xs[..|ys|], ys, f), f(|ys|, xs[|ys|], y))
  {
    var k := |ys|;
    var xs', ys' := xs[..k + 1], ys + [y];
    assert xs' != [] && |xs'| - 1 == k && |ys'| - 1 == k;
    assert xs'[..k] == xs[..k] && xs'[k] == xs[k];
    assert ys'[..k] == ys && ys'[k] == y;
  }

  /** The merge never repeats, and holds an element exactly when one of the merged sets does. */
  lemma {:induction false} MergeZipFacts<A, B, T>(xs: seq<A>, ys: seq<B>, f: (int, A, B) -> seq<T>)
    requires |xs| == |ys|
    ensures NoDup(MergeZip(xs, ys, f))
    ensures forall x :: x in MergeZip(xs, ys, f) <==> exists i :: 0 <= i < |xs| && x in f(i, xs[i], ys[i])
    decreases |xs|
  {
    if xs != [] {
      var n := |xs| - 1;
      var front := MergeZip(xs[..n], ys[..n], f);
      var last := f(n, xs[n], ys[n]);
      MergeZipFacts(xs[..n], ys[..n], f);
      AddAllFacts(front, last);
      assert MergeZip(xs, ys, f) == AddAll(front, last);
      forall x ensures x in MergeZip(xs, ys, f) <==> exists i :: 0 <= i < |xs| && x in f(i, xs[i], ys[i]) {
        assert x in MergeZip(xs, ys, f) <==> x in Elems(MergeZip(xs, ys, f));
        assert x in front <==> x in Elems(front);
        assert x in last <==> x in Elems(last);
        if x in front {
          var i :| 0 <= i < n && x in f(i, xs[..n][i], ys[..n][i]);
          assert xs[..n][i] == xs[i] && ys[..n][i] == ys[i];
        }
        if exists i :: 0 <= i < |xs| && x in f(i, xs[i], ys[i]) {
          var i :| 0 <= i < |xs| && x in f(i, xs[i], ys[i]);
          if i < n {
            assert xs[..n][i] == xs[i] && ys[..n][i] == ys[i];
          }
        }
      }
    }
  }
}
