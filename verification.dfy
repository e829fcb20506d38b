/**
 * The in-memory part of `verify_terms`: the duplicate groups still present
 * in the collection, and the number of terms per generation label, listed
 * in ascending label order.
 */
module Verification {
  import opened Basics
  import opened Text
  import opened Dicts
  import opened Keyed
  import opened Sorting
  import opened Terms
  import opened Grouping

  /** The tally key of a term: its generation, or "Unknown" when it has none. */
  function Label(t: Term): string {
    t.generation.GetOr("Unknown")
  }

  /** The `generations` counter after the loop: each label in first-occurrence order with how many terms carry it. */
  function Tally(terms: seq<Term>): Dict<nat> {
    FirstKeysDistinct(terms, Label);
    var ks := FirstKeys(terms, Label);
    OrderedMap(ks, map g | g in ks :: Count(terms, Label, g))
  }

  /** Each remaining duplicate word with the number of its instances, in the dictionary's order. */
  function Sizes(d: Dict<seq<Term>>): seq<(string, nat)> {
    seq(|d.keys|, i requires 0 <= i < |d.keys| => (d.keys[i], |d.entries[d.keys[i]]|))
  }

  function ItemLabel(p: (string, nat)): string {
    p.0
  }

  /** Each label comes strictly after the one before it. */
  predicate StrictlyAscending(s: seq<(string, nat)>) {
    forall i, j :: 0 <= i < j < |s| ==> StrLe(s[i].0, s[j].0) && s[i].0 != s[j].0
  }

  /** The sum of the counts of a tally listing. */
  function SumValues(s: seq<(string, nat)>): nat {
    if s == [] then 0 else s[0].1 + SumValues(s[1..])
  }

  /**
   * What `verify_terms` reports: the number of terms, each remaining
   * duplicate with its number of instances, whether the "all unique" branch
   * is taken, and the per-generation counts in the order they are listed.
   */
  datatype Report = Report(
    total: nat,
    remaining: seq<(string, nat)>,
    allUnique: bool,
    byGeneration: seq<(string, nat)>)

  /** The report `verify_terms` prints for `terms`. */
  function ReportOf(terms: seq<Term>): Report {
    var duplicates := Duplicates(terms);
    Report(|terms|, Sizes(duplicates), duplicates.keys == [], SortBy(Items(Tally(terms)), ItemLabel))
  }

  /** `verify_terms`, from the terms read to the data it prints. */
  method VerifyTerms(terms: seq<Term>) returns (report: Report)
    ensures report == ReportOf(terms)
  {
    var duplicates := FindDuplicates(terms);
    var generations := CountGenerations(terms);
    report := Report(|terms|, Sizes(duplicates), duplicates.keys == [], SortBy(Items(generations), ItemLabel));
  }

  /** The counting loop of `verify_terms`. */
  method CountGenerations(terms: seq<Term>) returns (generations: Dict<nat>)
    ensures generations == Tally(terms)
  {
    generations := Empty();
    for i := 0 to |terms|
      invariant generations == Tally(terms[..i])
    {
      var generation := Label(terms[i]);
      var count: nat := if generation in generations.entries then generations.entries[generation] else 0;
      ghost var seen := terms[..i];
      assert terms[..i + 1] == seen + [terms[i]];
      TallySnoc(seen, terms[i]);
      generations := Put(generations, generation, count + 1);
    }
    assert terms[..|terms|] == terms;
  }

  /** Counting one more term is `generations[label] += 1` on a `defaultdict(int)`. */
  lemma TallySnoc(s: seq<Term>, t: Term)
    ensures var d, g := Tally(s), Label(t);
      Tally(s + [t]) == Put(d, g, (if g in d.entries then d.entries[g] else 0) + 1)
  {
    var d, g := Tally(s), Label(t);
    var d2 := Tally(s + [t]);
    var p := Put(d, g, (if g in d.entries then d.entries[g] else 0) + 1);
    FirstKeysMembers(s, Label);
    assert d2.keys == p.keys by {
      assert (s + [t])[..|s|] == s;
    }
    forall g' | g' in d2.entries ensures d2.entries[g'] == p.entries[g'] {
      assert g' in d2.keys;
      assert Count(s + [t], Label, g') == Count(s, Label, g') + (if g' == g then 1 else 0) by {
        HavingSnoc(s, t, Label, g');
      }
    }
    Extensionality(d2, p);
  }

  /**
   * The tally lists exactly the labels some term carries, a term without a
   * generation under "Unknown", each with its number of terms, which is at
   * least one.
   */
  lemma TallyCharacterized(terms: seq<Term>)
    ensures var t := Tally(terms);
      && (forall g :: g in t.entries <==> exists i :: 0 <= i < |terms| && Label(terms[i]) == g)
      && (forall g :: g in t.entries ==> t.entries[g] == Count(terms, Label, g) >= 1)
      && (forall i :: 0 <= i < |terms| && terms[i].generation.None? ==> "Unknown" in t.entries)
  {
    FirstKeysMembers(terms, Label);
    forall g ensures Count(terms, Label, g) > 0 <==> exists i :: 0 <= i < |terms| && Label(terms[i]) == g {
      CountPositive(terms, Label, g);
    }
    forall i | 0 <= i < |terms| && terms[i].generation.None? ensures "Unknown" in Tally(terms).entries {
      assert Label(terms[i]) == "Unknown";
    }
  }

  /** The tally's counts add up to the number of terms. */
  lemma TallySum(terms: seq<Term>)
    ensures SumValues(Items(Tally(terms))) == |terms|
  {
    var t := Tally(terms);
    var ks := t.keys;
    FirstKeysMembers(terms, Label);
    forall i | 0 <= i < |terms| ensures Label(terms[i]) in ks {
      CountPositive(terms, Label, Label(terms[i]));
    }
    CountsSum(terms, Label, ks);
    SumValuesOfCounts(Items(t), terms, ks);
  }

  lemma {:induction false} SumValuesOfCounts(ps: seq<(string, nat)>, terms: seq<Term>, ks: seq<string>)
    requires |ps| == |ks|
    requires forall i :: 0 <= i < |ps| ==> ps[i] == (ks[i], Count(terms, Label, ks[i]))
    ensures SumValues(ps) == SumCounts(terms, Label, ks)
    decreases |ps|
  {
    if ps != [] {
      SumValuesOfCounts(ps[1..], terms, ks[1..]);
    }
  }

  /** Sorting a listing keeps the sum of its counts. */
  lemma {:induction false} SumValuesInsert(x: (string, nat), s: seq<(string, nat)>)
    ensures SumValues(Insert(x, s, ItemLabel)) == x.1 + SumValues(s)
    decreases |s|
  {
    if s != [] && !StrLe(ItemLabel(x), ItemLabel(s[0])) {
      SumValuesInsert(x, s[1..]);
      assert ([s[0]] + Insert(x, s[1..], ItemLabel))[1..] == Insert(x, s[1..], ItemLabel);
    } else {
      assert ([x] + s)[1..] == s;
    }
  }

  lemma {:induction false} SumValuesSortBy(s: seq<(string, nat)>)
    ensures SumValues(SortBy(s, ItemLabel)) == SumValues(s)
    decreases |s|
  {
    if s != [] {
      SumValuesSortBy(s[1..]);
      SumValuesInsert(s[0], SortBy(s[1..], ItemLabel));
    }
  }

  /** The tally items have distinct labels, since they are the keys of a dictionary. */
  lemma ItemsLabelsDistinct(d: Dict<nat>)
    ensures KeysDistinct(Items(d), ItemLabel)
  {
  }

  /** Sorted with no label twice means strictly ascending. */
  lemma SortedDistinctAscending(s: seq<(string, nat)>)
    requires SortedBy(s, ItemLabel) && KeysDistinct(s, ItemLabel)
    ensures StrictlyAscending(s)
  {
  }

  /** The per-generation listing is strictly ascending by label. */
  lemma ByGenerationAscending(terms: seq<Term>)
    ensures StrictlyAscending(ReportOf(terms).byGeneration)
  {
    var items := Items(Tally(terms));
    SortBySorted(items, ItemLabel);
    ItemsLabelsDistinct(Tally(terms));
    SortByKeepsDistinct(items);
    SortedDistinctAscending(SortBy(items, ItemLabel));
  }

  /** Sorting keeps labels distinct, since it keeps the items under each label. */
  lemma SortByKeepsDistinct(items: seq<(string, nat)>)
    requires KeysDistinct(items, ItemLabel)
    ensures KeysDistinct(SortBy(items, ItemLabel), ItemLabel)
  {
    var b := SortBy(items, ItemLabel);
    KeysDistinctIffSingle(items, ItemLabel);
    forall g ensures Count(b, ItemLabel, g) <= 1 {
      SortByStable(items, ItemLabel, g);
      assert Count(items, ItemLabel, g) <= 1;
    }
    KeysDistinctIffSingle(b, ItemLabel);
  }

  /** The per-generation listing holds exactly the tallied labels, each with its number of terms. */
  lemma ByGenerationEntries(terms: seq<Term>)
    ensures var b := ReportOf(terms).byGeneration;
      && (forall i :: 0 <= i < |b| ==> b[i].1 == Count(terms, Label, b[i].0) >= 1)
      && (forall g :: Count(terms, Label, g) > 0 ==> exists i :: 0 <= i < |b| && b[i].0 == g)
  {
    var t := Tally(terms);
    var items := Items(t);
    var b := SortBy(items, ItemLabel);
    SortByPermutes(items, ItemLabel);
    FirstKeysMembers(terms, Label);
    forall i | 0 <= i < |b| ensures b[i].1 == Count(terms, Label, b[i].0) >= 1 {
      assert b[i] in multiset(b);
      var j :| 0 <= j < |items| && items[j] == b[i];
      assert t.keys[j] in t.entries;
    }
    forall g | Count(terms, Label, g) > 0 ensures exists i :: 0 <= i < |b| && b[i].0 == g {
      var j :| 0 <= j < |t.keys| && t.keys[j] == g;
      assert items[j] in multiset(items);
      var i :| 0 <= i < |b| && b[i] == items[j];
    }
  }

  /** The counts listed add up to the number of terms. */
  lemma ByGenerationSum(terms: seq<Term>)
    ensures SumValues(ReportOf(terms).byGeneration) == |terms|
  {
    TallySum(terms);
    SumValuesSortBy(Items(Tally(terms)));
  }

  /**
   * Any strictly ascending arrangement of the tally items is the listing
   * reported; so comparing whole `(label, count)` pairs, as sorting the
   * items does, gives the same order as comparing labels alone.
   */
  lemma ByGenerationUnique(terms: seq<Term>, s: seq<(string, nat)>)
    requires multiset(s) == multiset(Items(Tally(terms)))
    requires StrictlyAscending(s)
    ensures s == ReportOf(terms).byGeneration
  {
    var items := Items(Tally(terms));
    ByGenerationAscending(terms);
    SortByPermutes(items, ItemLabel);
    AscendingUnique(s, ReportOf(terms).byGeneration);
  }

  lemma {:induction false} AscendingUnique(a: seq<(string, nat)>, b: seq<(string, nat)>)
    requires multiset(a) == multiset(b)
    requires StrictlyAscending(a) && StrictlyAscending(b)
    ensures a == b
    decreases |a|
  {
    if a != [] {
      assert |b| == |multiset(b)| == |multiset(a)| == |a|;
      SameHead(a, b);
      assert a == [a[0]] + a[1..] && b == [b[0]] + b[1..];
      assert multiset(a[1..]) == multiset(a) - multiset{a[0]};
      assert multiset(b[1..]) == multiset(b) - multiset{a[0]};
      AscendingTail(a);
      AscendingTail(b);
      AscendingUnique(a[1..], b[1..]);
    }
  }

  /** Two strictly ascending arrangements of the same items start with the same item. */
  lemma SameHead(a: seq<(string, nat)>, b: seq<(string, nat)>)
    requires multiset(a) == multiset(b) && a != [] && b != []
    requires StrictlyAscending(a) && StrictlyAscending(b)
    ensures a[0] == b[0]
  {
    assert a[0] in multiset(b) && b[0] in multiset(a);
    var i :| 0 <= i < |b| && b[i] == a[0];
    var j :| 0 <= j < |a| && a[j] == b[0];
    if i != 0 {
      assert StrLe(b[0].0, a[0].0) && b[0].0 != a[0].0;
      if j == 0 {
        assert false;
      } else {
        StrLeAntisymmetric(a[0].0, b[0].0);
        assert false;
      }
    }
  }

  lemma AscendingTail(a: seq<(string, nat)>)
    requires StrictlyAscending(a) && a != []
    ensures StrictlyAscending(a[1..])
  {
    forall i, j | 0 <= i < j < |a| - 1 ensures StrLe(a[1..][i].0, a[1..][j].0) && a[1..][i].0 != a[1..][j].0 {
      assert a[1..][i] == a[i + 1] && a[1..][j] == a[j + 1];
    }
  }

  /**
   * The remaining duplicates are exactly the normalized words occurring at
   * least twice, each listed once, in first-occurrence order, with its
   * number of occurrences.
   */
  lemma RemainingCharacterized(terms: seq<Term>)
    ensures var rem := ReportOf(terms).remaining;
      && (forall i :: 0 <= i < |rem| ==> rem[i].1 == Count(terms, Normalized, rem[i].0) >= 2)
      && (forall k :: Count(terms, Normalized, k) >= 2 ==> exists i :: 0 <= i < |rem| && rem[i].0 == k)
      && KeysDistinct(rem, ItemLabel)
      && InFirstOccurrenceOrder(seq(|rem|, i requires 0 <= i < |rem| => rem[i].0), terms, Normalized)
  {
    var d := Duplicates(terms);
    var rem := Sizes(d);
    DuplicatesCharacterized(terms);
    forall k | Count(terms, Normalized, k) >= 2 ensures exists i :: 0 <= i < |rem| && rem[i].0 == k {
      var i :| 0 <= i < |d.keys| && d.keys[i] == k;
      assert rem[i].0 == k;
    }
    assert seq(|rem|, i requires 0 <= i < |rem| => rem[i].0) == d.keys;
  }

  /** The "no duplicate terms found" branch is taken exactly when no two terms share a normalized word. */
  lemma AllUniqueIffDistinct(terms: seq<Term>)
    ensures ReportOf(terms).allUnique <==> KeysDistinct(terms, Normalized)
  {
    NoDuplicatesIffDistinct(terms);
  }
}
