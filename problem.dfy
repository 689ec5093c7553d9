/**
  * The problem aggregate: the directives of an XHAIL problem (displays,
  * examples, mode bodies bucketed by priority, mode heads, the types their
  * placemarkers mention), the standard statements it holds as a model, and
  * the cached model `derive` produces.
  */
module Problems {
  import opened Outcomes
  import opened Strings
  import opened LinkedSets
  import opened Predicates
  import opened Annex
  import opened TreeKeys
  import opened ProblemEncoding

  /** The ordering keys of the two tree maps: literals and atoms compare by their rendering. */
  const LiteralText: Literal -> string := (l: Literal) => l.text
  const AtomText: Atom -> string := (a: Atom) => a.text

  /**
    * The argument `addModeHead` rejects for a pair of bounds, if any: `min` when
    * a non-negative lower bound meets a negative upper one, `max` when the upper
    * bound is below the lower one or only the upper one is non-negative.
    */
  function BoundsError(min: int, max: int): (r: Option<Error>)
    ensures r.None? <==> min <= max && (min < 0 <==> max < 0)
    ensures r.Some? ==> r.value == IllegalArgument(if min >= 0 && max < 0 then "min" else "max")
  {
    if min >= 0 && max < 0 then Some(IllegalArgument("min"))
    else if max < min || (min < 0 && max >= 0) then Some(IllegalArgument("max"))
    else None
  }

  /** Accepted bounds make a valid annex whose window renders as `min ` and ` max`. */
  lemma AcceptedBoundsWindow(min: int, max: int, w: Option<int>, p: Option<int>)
    requires BoundsError(min, max).None?
    ensures NewModeHeadData(Some(min), Some(max), w, p) == Success(ModeHeadData(Some(min), Some(max), w, p))
    ensures var d := ModeHeadData(Some(min), Some(max), w, p);
      d.AsLower() == IntToString(min) + " " && d.AsUpper() == " " + IntToString(max)
  {
  }

  /** A key sequence is empty exactly when its map is. */
  lemma KeysEmpty<K, V>(ks: seq<K>, m: map<K, V>)
    requires Elems(ks) == m.Keys
    ensures ks == [] <==> m == map[]
  {
    if ks != [] {
      assert ks[0] in m;
    } else {
      assert m.Keys == {};
    }
  }

  /**
    * The five statements of one mode head: its arguments are decoded one after
    * the other into fixed arguments, head arguments, variables and types, from
    * which the head, abducible and type-gate atoms are built.
    */
  method EncodeModeHead(mode: Atom, data: ModeHeadData) returns (h: HeadStatements)
    ensures h == HeadOf((mode, data))
  {
    var fixes, heads, vars, tys := [], [], [], [];
    var j := 0;
    while j < |mode.args|
      invariant 0 <= j <= |mode.args|
      invariant Decoded(fixes, heads, vars, tys) == DecodeAll(mode.args[..j])
    {
      assert mode.args[..j + 1][..j] == mode.args[..j];
      var x := mode.args[j].decoded;
      fixes, heads, vars, tys := fixes + x.fixes, heads + x.heads, vars + x.vars, tys + x.types;
      j := j + 1;
    }
    assert mode.args[..j] == mode.args;
    var name := mode.name;
    var nameHead := if |heads| > 0 then name + "(" + Join(heads, ", ") + ")" else name;
    var abduce := AbduceTag + name + "_" + IntToString(data.Weight()) + "_" + IntToString(data.Priority());
    var abduceHead := if |fixes| > 0 then abduce + "(" + Join(fixes, ", ") + ")" else abduce;
    var typeName := TypeTag + name;
    var typeHead := if |vars| > 0 then typeName + "(" + Join(vars, ", ") + ")" else typeName;
    var hideStatement := "#hide " + typeName + "/" + IntToString(|vars|) + ".";
    var minimize := "#minimize[ " + abduceHead + data.AsData() + " : " + typeHead + " ].";
    var choice := data.AsLower() + "{ " + abduceHead + " : " + typeHead + " }" + data.AsUpper() + ".";
    var bridge := nameHead + " :- " + typeHead + ", " + abduceHead + ".";
    var typeRule := if |vars| > 0 then typeHead + " :- " + Join(tys, ", ") + "." else typeHead + ".";
    h := HeadStatements(hideStatement, minimize, choice, bridge, typeRule);
    assert h == EncodeHead(mode, data);
  }

  /** The bucket of priority `p`, empty when there is none yet. */
  function Bucket(buckets: map<int, map<Literal, ModeBodyData>>, p: int): map<Literal, ModeBodyData> {
    if p in buckets then buckets[p] else map[]
  }

  /** The keys of the bucket of priority `p` in insertion order, none when there is no bucket yet. */
  function BucketKeys(keys: map<int, seq<Literal>>, p: int): seq<Literal> {
    if p in keys then keys[p] else []
  }

  /** Each priority bucket has its key sequence, without repetitions and holding exactly the bucket's keys. */
  predicate BucketsValid(buckets: map<int, map<Literal, ModeBodyData>>, keys: map<int, seq<Literal>>) {
    keys.Keys == buckets.Keys
    && forall p :: p in buckets ==> NoDup(keys[p]) && Elems(keys[p]) == buckets[p].Keys
  }

  /** Storing a body in the bucket of `p` and adding it to that bucket's keys keeps the buckets valid. */
  lemma BucketsAdd(buckets: map<int, map<Literal, ModeBodyData>>, keys: map<int, seq<Literal>>,
                   p: int, b: Literal, d: ModeBodyData)
    requires BucketsValid(buckets, keys)
    ensures BucketsValid(buckets[p := Bucket(buckets, p)[b := d]], keys[p := Add(BucketKeys(keys, p), b)])
  {
    var ks := BucketKeys(keys, p);
    assert NoDup(ks) && Elems(ks) == Bucket(buckets, p).Keys;
    AddFacts(ks, b);
  }

  class Problem {
    /** The standard statements the problem holds as a model of its own. */
    var base: Model
    /** The dirty flag: set by every change, cleared when `derive` rebuilds. */
    var modified: bool
    var display: bool
    var displays: map<string, set<int>>
    var examples: map<Literal, ExampleData>
    /** The keys of `examples` in tree-map order. */
    var exampleKeys: seq<Literal>
    var modebodies: map<int, map<Literal, ModeBodyData>>
    /** The keys of each priority bucket of `modebodies` in insertion order. */
    var bodyKeys: map<int, seq<Literal>>
    var modeheads: map<Atom, ModeHeadData>
    /** The keys of `modeheads` in tree-map order. */
    var modeheadKeys: seq<Atom>
    var types: set<Atom>
    /** The model `derive` cached, if any. */
    var model: Option<Model>

    ghost predicate Valid()
      reads this`examples, this`exampleKeys, this`modebodies, this`bodyKeys, this`modeheads, this`modeheadKeys
    {
      KeySequence(exampleKeys, examples.Keys, LiteralText)
      && KeySequence(modeheadKeys, modeheads.Keys, AtomText)
      && BucketsValid(modebodies, bodyKeys)
    }

    /** The examples with their annexes, in key order. */
    ghost function ExampleEntries(): seq<ExampleEntry>
      reads this`examples, this`exampleKeys, this`modebodies, this`bodyKeys, this`modeheads, this`modeheadKeys
      requires Valid()
    {
      Entries(exampleKeys, examples)
    }

    /** The mode heads with their annexes, in key order. */
    ghost function HeadEntries(): seq<HeadEntry>
      reads this`examples, this`exampleKeys, this`modebodies, this`bodyKeys, this`modeheads, this`modeheadKeys
      requires Valid()
    {
      Entries(modeheadKeys, modeheads)
    }

    /** What `derive` builds: the problem's own statements, then the mode-head and the example encodings. */
    ghost function Derived(): Model
      reads this`base, this`examples, this`exampleKeys, this`modebodies, this`bodyKeys, this`modeheads, this`modeheadKeys
      requires Valid()
    {
      EncodeExamples(EncodeModeHeads(base, HeadEntries()), ExampleEntries())
    }

    constructor ()
      ensures Valid()
      ensures base == EmptyModel && !modified && !display && displays == map[]
      ensures examples == map[] && exampleKeys == [] && modebodies == map[] && bodyKeys == map[]
      ensures modeheads == map[] && modeheadKeys == [] && types == {} && model == None
    {
      base := EmptyModel;
      modified := false;
      display := false;
      displays := map[];
      examples := map[];
      exampleKeys := [];
      modebodies := map[];
      bodyKeys := map[];
      modeheads := map[];
      modeheadKeys := [];
      types := {};
      model := None;
    }

    /**
      * Registers `name/arity` for display, under the trimmed name; the result
      * tells whether the arity was new for that name.
      */
    method AddDisplay(name: Option<string>, arity: int) returns (r: Result<bool>)
      modifies this`displays, this`modified
      ensures name.None? || Trim(name.value) == [] ==>
        r == Failure(IllegalArgument("name")) && displays == old(displays) && modified == old(modified)
      ensures name.Some? && Trim(name.value) != [] && arity < 0 ==>
        r == Failure(IllegalArgument("arity")) && displays == old(displays) && modified == old(modified)
      ensures name.Some? && Trim(name.value) != [] && arity >= 0 ==>
        var n := Trim(name.value);
        var known := if n in old(displays) then old(displays)[n] else {};
        r == Success(arity !in known)
        && displays == old(displays)[n := known + {arity}]
        && modified == (old(modified) || arity !in known)
    {
      if name.None? || Trim(name.value) == [] {
        return Failure(IllegalArgument("name"));
      }
      var n := Trim(name.value);
      if arity < 0 {
        return Failure(IllegalArgument("arity"));
      }
      var known: set<int> := {};
      if n in displays {
        known := displays[n];
      }
      var added := arity !in known;
      displays := displays[n := known + {arity}];
      if added {
        modified := true;
      }
      r := Success(added);
    }

    /** Asks for every atom to be displayed; the dirty flag is left alone. */
    method AddDisplayAll()
      modifies this`display
      ensures display
    {
      display := true;
    }

    /**
      * Stores `fact` with a fresh annex, overwriting any previous one; the
      * result, and the dirty flag, tell whether the fact was new.
      */
    method AddExample(fact: Option<Literal>, weight: Option<int>, priority: Option<int>) returns (r: Result<bool>)
      requires Valid()
      modifies this`examples, this`exampleKeys, this`modified
      ensures Valid()
      ensures fact.None? ==>
        r == Failure(IllegalArgument("fact")) && examples == old(examples)
        && exampleKeys == old(exampleKeys) && modified == old(modified)
      ensures fact.Some? ==>
        var f := fact.value;
        r == Success(f !in old(examples))
        && examples == old(examples)[f := ExampleData(weight, priority)]
        && exampleKeys == InsertKey(old(exampleKeys), f, LiteralText)
        && modified == (old(modified) || f !in old(examples))
    {
      if fact.None? {
        return Failure(IllegalArgument("fact"));
      }
      var f := fact.value;
      var isNew := f !in examples;
      InsertKeyFacts(exampleKeys, examples.Keys, f, LiteralText);
      examples := examples[f := ExampleData(weight, priority)];
      exampleKeys := InsertKey(exampleKeys, f, LiteralText);
      if isNew {
        modified := true;
      }
      r := Success(isNew);
    }

    /**
      * Collects the types of `body`, then stores it with a fresh annex in the
      * bucket of its priority (1 when absent), overwriting any previous annex
      * in that bucket; the result tells whether it was new there.
      */
    method AddModeBody(body: Option<Literal>, bound: Option<int>, weight: Option<int>, priority: Option<int>)
      returns (r: Result<bool>)
      requires Valid()
      modifies this`types, this`modebodies, this`bodyKeys, this`modified
      ensures Valid()
      ensures body.None? ==>
        r == Failure(IllegalArgument("body")) && types == old(types) && modebodies == old(modebodies)
        && bodyKeys == old(bodyKeys) && modified == old(modified)
      ensures body.Some? ==> types == old(types) + TypesOf(body.value.atom)
      ensures body.Some? ==> r == Success(body.value !in Bucket(old(modebodies), priority.GetOr(1)))
      ensures body.Some? ==>
        modebodies == old(modebodies)[priority.GetOr(1) :=
          Bucket(old(modebodies), priority.GetOr(1))[body.value := ModeBodyData(bound, weight, priority)]]
      ensures body.Some? ==>
        bodyKeys == old(bodyKeys)[priority.GetOr(1) := Add(BucketKeys(old(bodyKeys), priority.GetOr(1)), body.value)]
      ensures body.Some? ==>
        modified == (old(modified) || body.value !in Bucket(old(modebodies), priority.GetOr(1)))
    {
      if body.None? {
        return Failure(IllegalArgument("body"));
      }
      var b := body.value;
      FindTypes(b.atom);
      var p := if priority.Some? then priority.value else 1;
      var bucket := Bucket(modebodies, p);
      var keys := BucketKeys(bodyKeys, p);
      var isNew := b !in bucket;
      BucketsAdd(modebodies, bodyKeys, p, b, ModeBodyData(bound, weight, priority));
      modebodies := modebodies[p := bucket[b := ModeBodyData(bound, weight, priority)]];
      bodyKeys := bodyKeys[p := Add(keys, b)];
      if isNew {
        modified := true;
      }
      r := Success(isNew);
    }

    /**
      * Checks the head and its bounds, collects the head's types, then stores
      * it with a fresh annex, overwriting any previous one; the result tells
      * whether the head was new.
      */
    method AddModeHead(head: Option<Atom>, min: int, max: int, weight: Option<int>, priority: Option<int>)
      returns (r: Result<bool>)
      requires Valid()
      modifies this`types, this`modeheads, this`modeheadKeys, this`modified
      ensures Valid()
      ensures head.None? || BoundsError(min, max).Some? ==>
        r == Failure(if head.None? then IllegalArgument("head") else BoundsError(min, max).value)
        && types == old(types) && modeheads == old(modeheads)
        && modeheadKeys == old(modeheadKeys) && modified == old(modified)
      ensures head.Some? && BoundsError(min, max).None? ==>
        var h := head.value;
        types == old(types) + TypesOf(h)
        && r == Success(h !in old(modeheads))
        && modeheads == old(modeheads)[h := ModeHeadData(Some(min), Some(max), weight, priority)]
        && modeheadKeys == InsertKey(old(modeheadKeys), h, AtomText)
        && modified == (old(modified) || h !in old(modeheads))
    {
      if head.None? {
        return Failure(IllegalArgument("head"));
      }
      if min >= 0 && max < 0 {
        return Failure(IllegalArgument("min"));
      }
      if max < min || (min < 0 && max >= 0) {
        return Failure(IllegalArgument("max"));
      }
      var h := head.value;
      FindTypes(h);
      var value := NewModeHeadData(Some(min), Some(max), weight, priority).value;
      var isNew := h !in modeheads;
      InsertKeyFacts(modeheadKeys, modeheads.Keys, h, AtomText);
      modeheads := modeheads[h := value];
      modeheadKeys := InsertKey(modeheadKeys, h, AtomText);
      if isNew {
        modified := true;
      }
      r := Success(isNew);
    }

    /**
      * Empties the problem's own statements, its examples and its mode bodies
      * and marks it modified; the mode heads, types and displays stay.
      */
    method Clear()
      requires Valid()
      modifies this`base, this`examples, this`exampleKeys, this`modebodies, this`bodyKeys, this`modified
      ensures Valid()
      ensures base == EmptyModel && examples == map[] && exampleKeys == []
      ensures modebodies == map[] && bodyKeys == map[] && modified
    {
      base := EmptyModel;
      examples := map[];
      exampleKeys := [];
      modebodies := map[];
      bodyKeys := map[];
      modified := true;
    }

    /** Adds to the types every term a placemarker inside `a` marks. */
    method FindTypes(a: Atom)
      modifies this`types
      ensures types == old(types) + TypesOf(a)
      decreases a
    {
      if |a.args| > 0 {
        if |a.args| == 1 && (a.name == Input || a.name == Output || a.name == Constant) {
          types := types + {a.args[0]};
        } else {
          var i := 0;
          while i < |a.args|
            invariant 0 <= i <= |a.args|
            invariant types == old(types) + ArgTypes(a, i)
          {
            FindTypes(a.args[i]);
            i := i + 1;
          }
        }
      }
    }

    /**
      * Appends the example encoding to `m`: one maximize over every example in
      * key order, and a constraint per mute example.
      */
    method ProcessExamples(m: Model) returns (r: Model)
      requires Valid()
      ensures r == EncodeExamples(m, ExampleEntries())
    {
      r := m;
      ghost var es := ExampleEntries();
      KeysEmpty(exampleKeys, examples);
      if examples != map[] {
        var terms: seq<string> := [];
        var i := 0;
        while i < |exampleKeys|
          invariant 0 <= i <= |exampleKeys|
          invariant terms == ExampleTerms(es[..i])
          invariant r == m.(constraints := m.constraints + MuteConstraints(es[..i]))
        {
          var key := exampleKeys[i];
          var value := examples[key];
          assert es[i] == (key, value);
          PrefixExtend(es, i);
          ExamplesAppend(es[..i], (key, value));
          terms := terms + [key.text + value.AsData()];
          if value.IsMute() {
            r := r.(constraints := r.constraints + [MuteConstraint(key)]);
          }
          i := i + 1;
        }
        assert es[..i] == es;
        r := r.(maximizes := r.maximizes + ["#maximize[ " + Join(terms, ", ") + " ]."]);
      }
    }

    /**
      * Appends the mode-head encoding to `m`: for every head in key order its
      * hide, its minimize and its choice, bridge and type rules.
      */
    method ProcessModeHeads(m: Model) returns (r: Model)
      requires Valid()
      ensures r == EncodeModeHeads(m, HeadEntries())
    {
      r := m;
      ghost var hs := HeadEntries();
      var i := 0;
      assert hs[..0] == [];
      ModeHeadsNone(m);
      while i < |modeheadKeys|
        invariant 0 <= i <= |modeheadKeys|
        invariant r == EncodeModeHeads(m, hs[..i])
      {
        var mode := modeheadKeys[i];
        var data := modeheads[mode];
        var entry: HeadEntry := (mode, data);
        var h := EncodeModeHead(mode, data);
        r := Push(r, h);
        assert hs[i] == entry;
        PrefixExtend(hs, i);
        ModeHeadsAppend(m, hs[..i], entry);
        i := i + 1;
      }
      assert hs[..i] == hs;
    }

    /**
      * The model of the problem: rebuilt (mode heads, then examples) and cached
      * when nothing is cached or the problem was modified, which clears the
      * dirty flag; otherwise the cached model.
      */
    method Derive() returns (r: Model)
      requires Valid()
      modifies this`model, this`modified
      ensures Valid()
      ensures old(model).Some? && !old(modified) ==>
        r == old(model).value && model == old(model) && modified == old(modified)
      ensures old(model).None? || old(modified) ==>
        r == Derived() && model == Some(r) && !modified
    {
      if model.None? || modified {
        var built := ProcessModeHeads(base);
        built := ProcessExamples(built);
        model := Some(built);
        modified := false;
      }
      r := model.value;
    }

    /** A fresh model with the problem's own statements and the example encoding only. */
    method Induce() returns (r: Model)
      requires Valid()
      ensures r == EncodeExamples(base, ExampleEntries())
    {
      r := ProcessExamples(base);
    }

    /** Whether some mode head makes abducibles possible. */
    method IsAbducible() returns (r: bool)
      requires Valid()
      ensures r <==> modeheads != map[]
      ensures r <==> HeadEntries() != []
    {
      r := modeheads != map[];
      KeysEmpty(modeheadKeys, modeheads);
    }

    /** Whether the candidate's name, taken as it is, was registered with its arity. */
    method IsDisplayable(candidate: Option<Atom>) returns (r: Result<bool>)
      ensures candidate.None? <==> r == Failure(IllegalArgument("candidate"))
      ensures candidate.Some? ==>
        r == Success(candidate.value.name in displays && |candidate.value.args| in displays[candidate.value.name])
    {
      if candidate.None? {
        return Failure(IllegalArgument("candidate"));
      }
      var name := candidate.value.name;
      r := Success(name in displays && |candidate.value.args| in displays[name]);
    }

    method IsDisplayAll() returns (r: bool)
      ensures r == display
    {
      r := display;
    }

    /**
      * Whether the problem holds no directive at all and no non-empty cached
      * model; its own statements are not looked at.
      */
    method IsEmpty() returns (r: bool)
      ensures r <==> !display && displays == map[] && examples == map[] && modebodies == map[]
                     && modeheads == map[] && (model.None? || IsEmptyModel(model.value))
    {
      r := display == false;
      r := r && displays == map[];
      r := r && examples == map[];
      r := r && modebodies == map[];
      r := r && modeheads == map[];
      r := r && (model.None? || IsEmptyModel(model.value));
    }
  }
}
