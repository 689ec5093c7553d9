/**
  * The key order of the aggregate's `TreeMap`s.  The comparison of atoms and
  * literals is not part of this model; keys are kept ordered by their
  * rendering, and keys that render alike stay in the order they were added.
  */
module TreeKeys {
  import opened Strings
  import opened LinkedSets

  /** No key renders strictly below a key before it. */
  predicate OrderedBy<K>(ks: seq<K>, key: K -> string) {
    forall i, j :: 0 <= i < j < |ks| ==> !Less(key(ks[j]), key(ks[i]))
  }

  /** The key sequence of a map whose key set is `keys`: every key once, in order. */
  predicate KeySequence<K>(ks: seq<K>, keys: set<K>, key: K -> string) {
    NoDup(ks) && Elems(ks) == keys && OrderedBy(ks, key)
  }

  /** `TreeMap.put` on the key sequence: a present key stays where it is, a new one goes before the first key rendering above it. */
  function InsertKey<K(==)>(ks: seq<K>, k: K, key: K -> string): seq<K> {
    if k in ks then ks else Place(ks, k, key)
  }

  function Place<K>(ks: seq<K>, k: K, key: K -> string): seq<K>
    decreases |ks|
  {
    if ks == [] then [k]
    else if Less(key(k), key(ks[0])) then [k] + ks
    else [ks[0]] + Place(ks[1..], k, key)
  }

  lemma {:induction false} PlaceElems<K>(ks: seq<K>, k: K, key: K -> string)
    ensures Elems(Place(ks, k, key)) == Elems(ks) + {k}
    ensures |Place(ks, k, key)| == |ks| + 1
    decreases |ks|
  {
    if ks != [] && !Less(key(k), key(ks[0])) {
      PlaceElems(ks[1..], k, key);
      assert ks == [ks[0]] + ks[1..];
      assert Elems(ks) == {ks[0]} + Elems(ks[1..]);
      assert Elems([ks[0]] + Place(ks[1..], k, key)) == {ks[0]} + Elems(Place(ks[1..], k, key));
    }
  }

  lemma {:induction false} PlaceOrdered<K>(ks: seq<K>, k: K, key: K -> string)
    requires OrderedBy(ks, key)
    ensures OrderedBy(Place(ks, k, key), key)
    decreases |ks|
  {
    if ks == [] {
    } else if Less(key(k), key(ks[0])) {
      var r := [k] + ks;
      forall i, j | 0 <= i < j < |r| ensures !Less(key(r[j]), key(r[i])) {
        if i == 0 {
          NotBelowHead(ks, j - 1, key);
          if Less(key(ks[j - 1]), key(k)) {
            LessTransitive(key(ks[j - 1]), key(k), key(ks[0]));
          }
        }
      }
    } else {
      PlaceOrdered(ks[1..], k, key);
      PlaceElems(ks[1..], k, key);
      var t := Place(ks[1..], k, key);
      var r := [ks[0]] + t;
      forall i, j | 0 <= i < j < |r| ensures !Less(key(r[j]), key(r[i])) {
        if i == 0 {
          assert r[j] == t[j - 1] && t[j - 1] in Elems(t);
          if t[j - 1] != k {
            var m :| 0 <= m < |ks[1..]| && ks[1..][m] == t[j - 1];
            assert ks[m + 1] == t[j - 1];
          }
        } else {
          assert r[i] == t[i - 1] && r[j] == t[j - 1];
        }
      }
    }
  }

  /** In an ordered sequence nothing renders strictly below the first key. */
  lemma NotBelowHead<K>(ks: seq<K>, j: nat, key: K -> string)
    requires OrderedBy(ks, key) && j < |ks|
    ensures !Less(key(ks[j]), key(ks[0]))
  {
    if j > 0 {
      assert 0 < j;
    } else {
      LessIrreflexive(key(ks[0]));
    }
  }

  lemma {:induction false} PlaceNoDup<K>(ks: seq<K>, k: K, key: K -> string)
    requires NoDup(ks) && k !in ks
    ensures NoDup(Place(ks, k, key))
    decreases |ks|
  {
    if ks != [] && !Less(key(k), key(ks[0])) {
      PlaceNoDup(ks[1..], k, key);
      PlaceElems(ks[1..], k, key);
      var t := Place(ks[1..], k, key);
      NoDupHead(ks);
      assert ks[0] !in Elems(t);
    }
  }

  /** Putting a key keeps the key sequence a key sequence of the grown key set. */
  lemma InsertKeyFacts<K>(ks: seq<K>, keys: set<K>, k: K, key: K -> string)
    requires KeySequence(ks, keys, key)
    ensures KeySequence(InsertKey(ks, k, key), keys + {k}, key)
    ensures k in keys ==> InsertKey(ks, k, key) == ks
    ensures k !in keys ==> |InsertKey(ks, k, key)| == |ks| + 1
  {
    if k !in ks {
      PlaceElems(ks, k, key);
      PlaceOrdered(ks, k, key);
      PlaceNoDup(ks, k, key);
    }
  }

  /** Key sequences with the same keys and pairwise distinct renderings are equal: the order is determined by the keys. */
  lemma {:induction false} KeySequenceUnique<K>(a: seq<K>, b: seq<K>, keys: set<K>, key: K -> string)
    requires KeySequence(a, keys, key) && KeySequence(b, keys, key)
    requires forall x, y :: x in keys && y in keys && x != y ==> key(x) != key(y)
    ensures a == b
    decreases |a|
  {
    if a != [] {
      assert a[0] in Elems(a);
    }
    if b != [] {
      assert b[0] in Elems(b);
    }
    if a != [] && b != [] {
      assert a[0] == b[0] by {
        if a[0] != b[0] {
          var i :| 0 <= i < |b| && b[i] == a[0];
          var j :| 0 <= j < |a| && a[j] == b[0];
          NotBelowHead(a, j, key);
          NotBelowHead(b, i, key);
          LessTotal(key(a[0]), key(b[0]));
        }
      }
      var keys' := keys - {a[0]};
      NoDupHead(a);
      NoDupHead(b);
      OrderedTail(a, key);
      OrderedTail(b, key);
      KeySequenceUnique(a[1..], b[1..], keys', key);
      assert a == [a[0]] + a[1..] && b == [b[0]] + b[1..];
    }
  }

  lemma OrderedTail<K>(ks: seq<K>, key: K -> string)
    requires OrderedBy(ks, key) && ks != []
    ensures OrderedBy(ks[1..], key)
  {
    forall i, j | 0 <= i < j < |ks[1..]| ensures !Less(key(ks[1..][j]), key(ks[1..][i])) {
      assert ks[1..][i] == ks[i + 1] && ks[1..][j] == ks[j + 1];
    }
  }

  /** The entries of a map in the order of a key sequence: what iterating `keySet()` and calling `get` yields. */
  function Entries<K, V>(ks: seq<K>, m: map<K, V>): (r: seq<(K, V)>)
    requires forall k :: k in ks ==> k in m
    ensures |r| == |ks|
    ensures forall i :: 0 <= i < |ks| ==> r[i] == (ks[i], m[ks[i]])
    decreases |ks|
  {
    if ks == [] then [] else Entries(ks[..|ks| - 1], m) + [(ks[|ks| - 1], m[ks[|ks| - 1]])]
  }
}
