/**
 * `merge_duplicates`: each group of terms sharing a normalized word becomes
 * one record. The word and every other field come from the first instance;
 * the generation, definition and example come from the instance that
 * Python's `max` picks (the first one with the highest score); the
 * translations are the union over all instances, keeping the longer string
 * for a generation and the earlier one on equal length.
 */
module Merging {
  import opened Basics
  import opened Dicts
  import opened Keyed
  import opened Terms

  /** The rank table `generation_priority`; any other label ranks 0. */
  function Priority(gen: string): nat {
    if gen == "Gen Z" then 5
    else if gen == "Millennials" then 4
    else if gen == "Gen Alpha" then 3
    else if gen == "Gen X" then 2
    else if gen == "Boomers" then 1
    else 0
  }

  /** The key of the generation `max`: a missing generation looks up `''`, which ranks 0. */
  function GenerationScore(t: Term): int {
    Priority(t.generation.GetOr(""))
  }

  /** The key of the definition `max`: a missing definition counts as `''`. */
  function DefinitionLength(t: Term): int {
    |t.definition.GetOr("")|
  }

  /** The key of the example `max`: a missing example counts as `''`. */
  function ExampleLength(t: Term): int {
    |t.example.GetOr("")|
  }

  function Length(s: string): int {
    |s|
  }

  /** `s[i]` has the highest key, and every element before it a strictly lower one. */
  ghost predicate IsFirstMax<T>(s: seq<T>, key: T -> int, i: int) {
    && 0 <= i < |s|
    && (forall j :: 0 <= j < |s| ==> key(s[j]) <= key(s[i]))
    && (forall j :: 0 <= j < i ==> key(s[j]) < key(s[i]))
  }

  /** The position of the element `max(s, key=key)` returns: it scans left to right and replaces its pick only on a strictly greater key. */
  function ArgMax<T>(s: seq<T>, key: T -> int): (i: nat)
    requires |s| > 0
    ensures IsFirstMax(s, key, i)
  {
    if |s| == 1 then 0
    else
      var i := ArgMax(s[..|s| - 1], key);
      if key(s[|s| - 1]) > key(s[i]) then |s| - 1 else i
  }

  /** The longest of `vs`, the earliest one on equal length. */
  function Longest(vs: seq<string>): string
    requires |vs| > 0
  {
    vs[ArgMax(vs, Length)]
  }

  /** One more candidate replaces the longest so far only when strictly longer. */
  lemma LongestSnoc(vs: seq<string>, v: string)
    requires |vs| > 0
    ensures Longest(vs + [v]) == if |v| > |Longest(vs)| then v else Longest(vs)
  {
    assert (vs + [v])[..|vs|] == vs;
  }

  // ---------------------------------------------------------------- translations

  function PairKey(p: (string, string)): string {
    p.0
  }

  /** The `(gen, translation)` pairs the nested loop visits, instance by instance. */
  function Pairs(instances: seq<Term>): seq<(string, string)> {
    if instances == [] then []
    else Pairs(instances[..|instances| - 1]) + Items(TranslationsOf(instances[|instances| - 1]))
  }

  /** The translations given for generation `g` along `p`, in order. */
  function ValuesFor(p: seq<(string, string)>, g: string): seq<string> {
    if p == [] then []
    else ValuesFor(p[..|p| - 1], g) + (if p[|p| - 1].0 == g then [p[|p| - 1].1] else [])
  }

  /** The translations the instances supply for generation `g`, in instance order. */
  function Supplied(instances: seq<Term>, g: string): seq<string> {
    if instances == [] then []
    else
      var tr := TranslationsOf(instances[|instances| - 1]);
      Supplied(instances[..|instances| - 1], g) + (if g in tr.entries then [tr.entries[g]] else [])
  }

  /** The union after visiting the pairs `p`: every generation seen, in order of first sight, with its longest translation. */
  function UnionSpec(p: seq<(string, string)>): Translations {
    FirstKeysDistinct(p, PairKey);
    ValuesForSeen(p);
    var ks := FirstKeys(p, PairKey);
    OrderedMap(ks, map g | g in ks :: Longest(ValuesFor(p, g)))
  }

  /** `all_translations` after the loop over all instances. */
  function UnionOf(instances: seq<Term>): Translations {
    UnionSpec(Pairs(instances))
  }

  lemma ValuesForSnoc(p: seq<(string, string)>, x: (string, string), g: string)
    ensures ValuesFor(p + [x], g) == ValuesFor(p, g) + (if x.0 == g then [x.1] else [])
  {
    assert (p + [x])[..|p|] == p;
  }

  lemma {:induction false} ValuesForCount(p: seq<(string, string)>, g: string)
    ensures |ValuesFor(p, g)| == Count(p, PairKey, g)
    decreases |p|
  {
    if p != [] {
      var p', x := p[..|p| - 1], p[|p| - 1];
      assert p == p' + [x];
      ValuesForCount(p', g);
      HavingSnoc(p', x, PairKey, g);
    }
  }

  /** Every generation seen along `p` has at least one translation. */
  lemma ValuesForSeen(p: seq<(string, string)>)
    ensures forall g :: g in FirstKeys(p, PairKey) ==> |ValuesFor(p, g)| > 0
  {
    FirstKeysMembers(p, PairKey);
    forall g | g in FirstKeys(p, PairKey) ensures |ValuesFor(p, g)| > 0 {
      ValuesForCount(p, g);
    }
  }

  lemma UnionSpecKeys(p: seq<(string, string)>, x: (string, string))
    ensures var d := UnionSpec(p);
      UnionSpec(p + [x]).keys == if x.0 in d.entries then d.keys else d.keys + [x.0]
  {
    assert (p + [x])[..|p|] == p;
  }

  lemma UnionSpecValue(p: seq<(string, string)>, x: (string, string), g: string)
    requires g in UnionSpec(p + [x]).entries
    requires g != x.0 ==> g in UnionSpec(p).entries
    ensures var d := UnionSpec(p);
      UnionSpec(p + [x]).entries[g] ==
        if g != x.0 then d.entries[g]
        else if x.0 in d.entries && |x.1| <= |d.entries[x.0]| then d.entries[x.0]
        else x.1
  {
    var d, d2 := UnionSpec(p), UnionSpec(p + [x]);
    assert d2.entries[g] == Longest(ValuesFor(p + [x], g));
    ValuesForSnoc(p, x, g);
    if g != x.0 {
      assert ValuesFor(p + [x], g) == ValuesFor(p, g);
      assert d.entries[g] == Longest(ValuesFor(p, g));
    } else if g in d.entries {
      assert d.entries[g] == Longest(ValuesFor(p, g));
      LongestSnoc(ValuesFor(p, g), x.1);
    } else {
      FirstKeysMembers(p, PairKey);
      ValuesForCount(p, g);
      assert ValuesFor(p, g) == [];
      assert ValuesFor(p + [x], g) == [x.1];
    }
  }

  /** One visited pair is lines 56-60: a new generation is added, a known one replaced by a strictly longer string. */
  lemma UnionStep(p: seq<(string, string)>, g: string, v: string)
    ensures var d := UnionSpec(p);
      UnionSpec(p + [(g, v)]) == if g in d.entries then (if |v| > |d.entries[g]| then Put(d, g, v) else d) else Put(d, g, v)
  {
    var d, d2 := UnionSpec(p), UnionSpec(p + [(g, v)]);
    var step := if g in d.entries then (if |v| > |d.entries[g]| then Put(d, g, v) else d) else Put(d, g, v);
    UnionSpecKeys(p, (g, v));
    forall g' | g' in d2.entries ensures d2.entries[g'] == step.entries[g'] {
      assert g' in d2.keys;
      assert g' != g ==> g' in d.keys;
      UnionSpecValue(p, (g, v), g');
    }
    Extensionality(d2, step);
  }

  lemma {:induction false} ValuesForConcat(a: seq<(string, string)>, b: seq<(string, string)>, g: string)
    ensures ValuesFor(a + b, g) == ValuesFor(a, g) + ValuesFor(b, g)
    decreases |b|
  {
    if b != [] {
      var b', x := b[..|b| - 1], b[|b| - 1];
      assert b == b' + [x];
      assert a + b == (a + b') + [x];
      ValuesForSnoc(a + b', x, g);
      ValuesForSnoc(b', x, g);
      ValuesForConcat(a, b', g);
    } else {
      assert a + b == a;
    }
  }

  /** A list of pairs with distinct generations gives at most one value for each. */
  lemma {:induction false} ValuesForDistinct(p: seq<(string, string)>, ks: seq<string>, m: map<string, string>, g: string)
    requires |p| == |ks| && Distinct(ks)
    requires forall i :: 0 <= i < |p| ==> ks[i] in m && p[i] == (ks[i], m[ks[i]])
    ensures g in ks ==> g in m && ValuesFor(p, g) == [m[g]]
    ensures g !in ks ==> ValuesFor(p, g) == []
    decreases |p|
  {
    if p != [] {
      var n := |p| - 1;
      var ks' := ks[..n];
      ValuesForDistinct(p[..n], ks', m, g);
      assert ks == ks' + [ks[n]];
      if g == ks[n] {
        assert g !in ks' by {
          forall i | 0 <= i < n ensures ks'[i] != g {
            assert ks'[i] == ks[i];
          }
        }
      }
    }
  }

  /** The items of one record's translations supply at most one value per generation. */
  lemma ValuesForItems(tr: Translations, g: string)
    ensures ValuesFor(Items(tr), g) == if g in tr.entries then [tr.entries[g]] else []
  {
    ValuesForDistinct(Items(tr), tr.keys, tr.entries, g);
  }

  lemma {:induction false} ValuesForPairs(instances: seq<Term>, g: string)
    ensures ValuesFor(Pairs(instances), g) == Supplied(instances, g)
    decreases |instances|
  {
    if instances != [] {
      var init := instances[..|instances| - 1];
      var tr := TranslationsOf(instances[|instances| - 1]);
      ValuesForPairs(init, g);
      ValuesForConcat(Pairs(init), Items(tr), g);
      ValuesForItems(tr, g);
    }
  }

  /** `Supplied` holds the translation of every instance that has one for `g`, and nothing else. */
  lemma {:induction false} SuppliedMembers(instances: seq<Term>, g: string)
    ensures forall i :: 0 <= i < |instances| && g in TranslationsOf(instances[i]).entries ==>
      TranslationsOf(instances[i]).entries[g] in Supplied(instances, g)
    ensures forall v :: v in Supplied(instances, g) ==>
      exists i :: 0 <= i < |instances| && g in TranslationsOf(instances[i]).entries && TranslationsOf(instances[i]).entries[g] == v
    decreases |instances|
  {
    if instances != [] {
      var init := instances[..|instances| - 1];
      SuppliedMembers(init, g);
      forall i | 0 <= i < |init| ensures instances[i] == init[i] { }
    }
  }

  /** The first two facts of `UnionOfCharacterized`, proved apart to keep that proof small. */
  lemma UnionOfValues(instances: seq<Term>)
    ensures var u := UnionOf(instances);
      && (forall g :: g in u.entries <==> |Supplied(instances, g)| > 0)
      && (forall g :: g in u.entries ==> u.entries[g] == Longest(Supplied(instances, g)))
  {
    var p := Pairs(instances);
    FirstKeysMembers(p, PairKey);
    forall g ensures ValuesFor(p, g) == Supplied(instances, g) && |ValuesFor(p, g)| == Count(p, PairKey, g) {
      ValuesForPairs(instances, g);
      ValuesForCount(p, g);
    }
  }

  /**
   * The merged translations: a generation is present exactly when some
   * instance translates it, and its value is the longest translation
   * supplied for it (the earliest on equal length), so no instance's
   * translation for it is longer.
   */
  lemma UnionOfCharacterized(instances: seq<Term>)
    ensures var u := UnionOf(instances);
      && (forall g :: g in u.entries <==> |Supplied(instances, g)| > 0)
      && (forall g :: g in u.entries ==> u.entries[g] == Longest(Supplied(instances, g)))
      && (forall i, g :: 0 <= i < |instances| && g in TranslationsOf(instances[i]).entries ==>
            g in u.entries && |TranslationsOf(instances[i]).entries[g]| <= |u.entries[g]|)
      && (forall g :: g in u.entries ==>
            exists i :: 0 <= i < |instances| && g in TranslationsOf(instances[i]).entries &&
              TranslationsOf(instances[i]).entries[g] == u.entries[g])
  {
    var u := UnionOf(instances);
    UnionOfValues(instances);
    forall i, g | 0 <= i < |instances| && g in TranslationsOf(instances[i]).entries
      ensures g in u.entries && |TranslationsOf(instances[i]).entries[g]| <= |u.entries[g]|
    {
      SuppliedMembers(instances, g);
      var vs := Supplied(instances, g);
      var m :| 0 <= m < |vs| && vs[m] == TranslationsOf(instances[i]).entries[g];
      assert Length(vs[m]) <= Length(vs[ArgMax(vs, Length)]);
    }
    forall g | g in u.entries
      ensures exists i ::
        0 <= i < |instances| && g in TranslationsOf(instances[i]).entries && TranslationsOf(instances[i]).entries[g] == u.entries[g]
    {
      SuppliedMembers(instances, g);
      var vs := Supplied(instances, g);
      assert vs[ArgMax(vs, Length)] in vs;
    }
  }

  /** `all_translations` built by the nested loop of lines 51-60. */
  method CombineTranslations(instances: seq<Term>) returns (all: Translations)
    ensures all == UnionOf(instances)
  {
    all := Empty();
    for i := 0 to |instances|
      invariant all == UnionSpec(Pairs(instances[..i]))
    {
      var instance := instances[i];
      ghost var done := Pairs(instances[..i]);
      if instance.translations.Some? {
        all := AddTranslations(all, done, instance.translations.value);
      } else {
        assert Items(TranslationsOf(instance)) == [];
        assert done + [] == done;
      }
      assert instances[..i + 1][..i] == instances[..i];
    }
    assert instances[..|instances|] == instances;
  }

  /** The inner loop of lines 53-61: folds one instance's translations into the union built so far. */
  method AddTranslations(all: Translations, ghost done: seq<(string, string)>, tr: Translations)
    returns (r: Translations)
    requires all == UnionSpec(done)
    ensures r == UnionSpec(done + Items(tr))
  {
    r := all;
    ghost var seen := done;
    assert done + Items(tr)[..0] == done;
    for j := 0 to |tr.keys|
      invariant seen == done + Items(tr)[..j]
      invariant r == UnionSpec(seen)
    {
      var gen := tr.keys[j];
      var translation := tr.entries[gen];
      UnionStep(seen, gen, translation);
      if gen in r.entries {
        if |translation| > |r.entries[gen]| {
          r := Put(r, gen, translation);
        }
      } else {
        r := Put(r, gen, translation);
      }
      ItemsPrefixSnoc(done, tr, j);
      seen := seen + [(gen, translation)];
    }
    assert Items(tr)[..|tr.keys|] == Items(tr);
  }

  lemma ItemsPrefixSnoc(done: seq<(string, string)>, tr: Translations, j: nat)
    requires j < |tr.keys|
    ensures done + Items(tr)[..j + 1] == done + Items(tr)[..j] + [(tr.keys[j], tr.entries[tr.keys[j]])]
  {
    assert Items(tr)[..j + 1] == Items(tr)[..j] + [Items(tr)[j]];
  }

  // ---------------------------------------------------------------- one group

  /** The exception that aborts the merge: `instances[0]` of an empty group, or a `['field']` lookup on an instance without it. */
  datatype MergeError = EmptyGroup | MissingGeneration | MissingDefinition | MissingExample

  /** The merged record of one group (lines 38-65), or the exception raised on the way. */
  function Merged(instances: seq<Term>): Result<Term, MergeError> {
    if instances == [] then Failure(EmptyGroup)
    else
      var generation := instances[ArgMax(instances, GenerationScore)].generation;
      var definition := instances[ArgMax(instances, DefinitionLength)].definition;
      var example := instances[ArgMax(instances, ExampleLength)].example;
      if generation.None? then Failure(MissingGeneration)
      else if definition.None? then Failure(MissingDefinition)
      else if example.None? then Failure(MissingExample)
      else Success(instances[0].(
        generation := generation,
        definition := definition,
        translations := Some(UnionOf(instances)),
        example := example))
  }

  /**
   * The merged record takes its word and every other field from the first
   * instance; its generation, definition and example from the first
   * instance with the best score, so no instance scores higher; and its
   * translations from the union.
   */
  lemma MergedFields(instances: seq<Term>)
    requires Merged(instances).Success?
    ensures var m := Merged(instances).value;
      && m.word == instances[0].word
      && m.extras == instances[0].extras
      && m.translations == Some(UnionOf(instances))
      && (exists i :: IsFirstMax(instances, GenerationScore, i) && m.generation == instances[i].generation)
      && (exists i :: IsFirstMax(instances, DefinitionLength, i) && m.definition == instances[i].definition)
      && (exists i :: IsFirstMax(instances, ExampleLength, i) && m.example == instances[i].example)
      && (forall j :: 0 <= j < |instances| ==> GenerationScore(instances[j]) <= GenerationScore(m))
      && (forall j :: 0 <= j < |instances| ==> DefinitionLength(instances[j]) <= DefinitionLength(m))
      && (forall j :: 0 <= j < |instances| ==> ExampleLength(instances[j]) <= ExampleLength(m))
  {
    var m := Merged(instances).value;
    var gi := ArgMax(instances, GenerationScore);
    var di := ArgMax(instances, DefinitionLength);
    var ei := ArgMax(instances, ExampleLength);
    assert GenerationScore(m) == GenerationScore(instances[gi]);
    assert DefinitionLength(m) == DefinitionLength(instances[di]);
    assert ExampleLength(m) == ExampleLength(instances[ei]);
  }

  /** The instance `max` picks lacks the field exactly when no instance scores above 0 and the first lacks it. */
  lemma FirstMaxLacks<T>(s: seq<T>, key: T -> int, lacks: T -> bool, i: int)
    requires forall j :: 0 <= j < |s| ==> key(s[j]) >= 0
    requires forall j :: 0 <= j < |s| && lacks(s[j]) ==> key(s[j]) == 0
    requires IsFirstMax(s, key, i)
    ensures lacks(s[i]) <==> lacks(s[0]) && forall j :: 0 <= j < |s| ==> key(s[j]) == 0
  {
    if lacks(s[0]) && forall j :: 0 <= j < |s| ==> key(s[j]) == 0 {
      if i > 0 {
        assert key(s[0]) < key(s[i]);
      }
    }
  }

  function NoGeneration(t: Term): bool { t.generation.None? }
  function NoDefinition(t: Term): bool { t.definition.None? }
  function NoExample(t: Term): bool { t.example.None? }

  /**
   * When the merge raises: on an empty group; on the generation when no
   * instance has a ranked generation and the first has none; then on the
   * definition when every definition is empty or missing and the first is
   * missing; then likewise on the example.
   */
  lemma MergedFailures(instances: seq<Term>)
    ensures var r, s := Merged(instances), instances;
      var genLost := |s| > 0 && s[0].generation.None? && forall j :: 0 <= j < |s| ==> GenerationScore(s[j]) == 0;
      var defLost := |s| > 0 && s[0].definition.None? && forall j :: 0 <= j < |s| ==> DefinitionLength(s[j]) == 0;
      var exLost := |s| > 0 && s[0].example.None? && forall j :: 0 <= j < |s| ==> ExampleLength(s[j]) == 0;
      && (r == Failure(EmptyGroup) <==> s == [])
      && (r == Failure(MissingGeneration) <==> genLost)
      && (r == Failure(MissingDefinition) <==> !genLost && defLost)
      && (r == Failure(MissingExample) <==> !genLost && !defLost && exLost)
      && (r.Success? <==> s != [] && !genLost && !defLost && !exLost)
  {
    if instances != [] {
      FirstMaxLacks(instances, GenerationScore, NoGeneration, ArgMax(instances, GenerationScore));
      FirstMaxLacks(instances, DefinitionLength, NoDefinition, ArgMax(instances, DefinitionLength));
      FirstMaxLacks(instances, ExampleLength, NoExample, ArgMax(instances, ExampleLength));
    }
  }

  // ---------------------------------------------------------------- all groups

  /** `f` applied to the groups `ks` in order, collecting the results, or the first failure. */
  function Collect<X, Y, E>(ks: seq<string>, groups: map<string, X>, f: X -> Result<Y, E>): Result<seq<Y>, E>
    requires forall k :: k in ks ==> k in groups
  {
    if ks == [] then Success([])
    else
      match Collect(ks[..|ks| - 1], groups, f)
      case Failure(e) => Failure(e)
      case Success(done) =>
        match f(groups[ks[|ks| - 1]])
        case Failure(e) => Failure(e)
        case Success(y) => Success(done + [y])
  }

  /** What `merge_duplicates(duplicate_dict)` returns or raises. */
  function MergeDuplicatesSpec(d: Dict<seq<Term>>): Result<seq<Term>, MergeError> {
    Collect(d.keys, d.entries, Merged)
  }

  /**
   * Collecting succeeds exactly when every group succeeds, and then yields
   * one result per group in key order; otherwise it fails with the failure of
   * the first group that fails.
   */
  lemma {:induction false} CollectCharacterized<X, Y, E>(ks: seq<string>, groups: map<string, X>, f: X -> Result<Y, E>)
    requires forall k :: k in ks ==> k in groups
    ensures var r := Collect(ks, groups, f);
      && (r.Success? <==> forall i :: 0 <= i < |ks| ==> f(groups[ks[i]]).Success?)
      && (r.Success? ==> |r.value| == |ks| && forall i :: 0 <= i < |ks| ==> r.value[i] == f(groups[ks[i]]).value)
      && (r.Failure? ==>
            exists i :: 0 <= i < |ks| && f(groups[ks[i]]) == Failure(r.error) &&
              forall j :: 0 <= j < i ==> f(groups[ks[j]]).Success?)
    decreases |ks|
  {
    if ks != [] {
      var ks' := ks[..|ks| - 1];
      CollectCharacterized(ks', groups, f);
      var r, r' := Collect(ks, groups, f), Collect(ks', groups, f);
      forall i | 0 <= i < |ks'| ensures ks[i] == ks'[i] { }
      if r'.Failure? {
        var i :| 0 <= i < |ks'| && f(groups[ks'[i]]) == Failure(r'.error) &&
          forall j :: 0 <= j < i ==> f(groups[ks'[j]]).Success?;
        assert f(groups[ks[i]]) == Failure(r.error);
      } else if r.Failure? {
        assert f(groups[ks[|ks| - 1]]) == Failure(r.error);
      }
    }
  }

  /** A failed collection names a group that fails with that failure. */
  lemma CollectFailingGroup<X, Y, E>(ks: seq<string>, groups: map<string, X>, f: X -> Result<Y, E>) returns (i: nat)
    requires forall k :: k in ks ==> k in groups
    requires Collect(ks, groups, f).Failure?
    ensures i < |ks| && f(groups[ks[i]]) == Failure(Collect(ks, groups, f).error)
  {
    CollectCharacterized(ks, groups, f);
    i :| 0 <= i < |ks| && f(groups[ks[i]]) == Failure(Collect(ks, groups, f).error) &&
      forall j :: 0 <= j < i ==> f(groups[ks[j]]).Success?;
  }

  /** Once a prefix of the groups fails, the remaining groups change nothing. */
  lemma {:induction false} CollectKeepsFailure<X, Y, E>(ks: seq<string>, groups: map<string, X>, f: X -> Result<Y, E>, n: nat)
    requires forall k :: k in ks ==> k in groups
    requires n <= |ks|
    requires Collect(ks[..n], groups, f).Failure?
    ensures Collect(ks, groups, f) == Collect(ks[..n], groups, f)
    decreases |ks|
  {
    if n < |ks| {
      var ks' := ks[..|ks| - 1];
      assert ks'[..n] == ks[..n];
      CollectKeepsFailure(ks', groups, f, n);
    } else {
      assert ks[..n] == ks;
    }
  }

  /** One more group either extends the collected results or ends the whole loop with its failure. */
  lemma CollectStep<X, Y, E>(ks: seq<string>, groups: map<string, X>, f: X -> Result<Y, E>, i: nat, done: seq<Y>)
    requires forall k :: k in ks ==> k in groups
    requires i < |ks|
    requires Collect(ks[..i], groups, f) == Success(done)
    ensures f(groups[ks[i]]).Failure? ==> Collect(ks, groups, f) == Failure(f(groups[ks[i]]).error)
    ensures f(groups[ks[i]]).Success? ==> Collect(ks[..i + 1], groups, f) == Success(done + [f(groups[ks[i]]).value])
  {
    assert ks[..i + 1][..i] == ks[..i];
    if f(groups[ks[i]]).Failure? {
      CollectKeepsFailure(ks, groups, f, i + 1);
      assert ks[..|ks|] == ks;
    }
  }

  /** `merge_duplicates` */
  method MergeDuplicates(duplicates: Dict<seq<Term>>) returns (r: Result<seq<Term>, MergeError>)
    ensures r == MergeDuplicatesSpec(duplicates)
  {
    var ks := duplicates.keys;
    var mergedTerms: seq<Term> := [];
    for i := 0 to |ks|
      invariant Collect(ks[..i], duplicates.entries, Merged) == Success(mergedTerms)
    {
      var instances := duplicates.entries[ks[i]];
      if |instances| == 0 {
        CollectStep(ks, duplicates.entries, Merged, i, mergedTerms);
        return Failure(EmptyGroup);
      }
      var bestGen := instances[ArgMax(instances, GenerationScore)];
      if bestGen.generation.None? {
        CollectStep(ks, duplicates.entries, Merged, i, mergedTerms);
        return Failure(MissingGeneration);
      }
      var bestDefinition := instances[ArgMax(instances, DefinitionLength)];
      if bestDefinition.definition.None? {
        CollectStep(ks, duplicates.entries, Merged, i, mergedTerms);
        return Failure(MissingDefinition);
      }
      var allTranslations := CombineTranslations(instances);
      var bestExample := instances[ArgMax(instances, ExampleLength)];
      if bestExample.example.None? {
        CollectStep(ks, duplicates.entries, Merged, i, mergedTerms);
        return Failure(MissingExample);
      }
      var baseTerm := instances[0].(
        generation := bestGen.generation,
        definition := bestDefinition.definition,
        translations := Some(allTranslations),
        example := bestExample.example);
      CollectStep(ks, duplicates.entries, Merged, i, mergedTerms);
      mergedTerms := mergedTerms + [baseTerm];
    }
    assert ks[..|ks|] == ks;
    r := Success(mergedTerms);
  }
}
