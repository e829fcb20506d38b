/**
 * `find_duplicates`: the terms grouped by normalized word in a
 * `defaultdict(list)`, then only the groups with more than one term kept.
 */
module Grouping {
  import opened Dicts
  import opened Keyed
  import opened Terms

  /** The dictionary the loop builds: each normalized word, in first-occurrence order, with all its terms. */
  function Grouped(terms: seq<Term>): Dict<seq<Term>> {
    FirstKeysDistinct(terms, Normalized);
    var ks := FirstKeys(terms, Normalized);
    OrderedMap(ks, map k | k in ks :: Having(terms, Normalized, k))
  }

  /** The keys of `ks` whose group holds more than one term, in their order. */
  function Repeated(ks: seq<string>, groups: map<string, seq<Term>>): seq<string>
    requires forall k :: k in ks ==> k in groups
  {
    if ks == [] then []
    else
      var last := ks[|ks| - 1];
      Repeated(ks[..|ks| - 1], groups) + (if |groups[last]| > 1 then [last] else [])
  }

  /** The comprehension keeping only the entries with more than one instance. */
  function OnlyRepeated(d: Dict<seq<Term>>): Dict<seq<Term>> {
    RepeatedSubsequence(d.keys, d.entries);
    var ks := Repeated(d.keys, d.entries);
    OrderedMap(ks, map k | k in ks :: d.entries[k])
  }

  /** What `find_duplicates(terms)` returns. */
  function Duplicates(terms: seq<Term>): Dict<seq<Term>> {
    OnlyRepeated(Grouped(terms))
  }

  /** `find_duplicates` */
  method FindDuplicates(terms: seq<Term>) returns (duplicates: Dict<seq<Term>>)
    ensures duplicates == Duplicates(terms)
  {
    var termDict: Dict<seq<Term>> := Empty();
    for i := 0 to |terms|
      invariant termDict == Grouped(terms[..i])
    {
      var term := terms[i];
      var k := Normalized(term);
      var group := if k in termDict.entries then termDict.entries[k] else [];
      ghost var seen := terms[..i];
      assert terms[..i + 1] == seen + [term];
      GroupedSnoc(seen, term);
      termDict := Put(termDict, k, group + [term]);
    }
    assert terms[..|terms|] == terms;
    duplicates := OnlyRepeated(termDict);
  }

  /** Appending one term to the grouped dictionary is `term_dict[key].append(term)`. */
  lemma GroupedSnoc(s: seq<Term>, t: Term)
    ensures var d, k := Grouped(s), Normalized(t);
      Grouped(s + [t]) == Put(d, k, (if k in d.entries then d.entries[k] else []) + [t])
  {
    var d, k := Grouped(s), Normalized(t);
    var d2 := Grouped(s + [t]);
    var p := Put(d, k, (if k in d.entries then d.entries[k] else []) + [t]);
    FirstKeysMembers(s, Normalized);
    assert d2.keys == p.keys by {
      assert (s + [t])[..|s|] == s;
    }
    forall k' | k' in d2.entries ensures d2.entries[k'] == p.entries[k'] {
      assert k' in d2.keys;
      HavingSnoc(s, t, Normalized, k');
      if k' == k && k !in d.entries {
        assert Having(s, Normalized, k) == [];
      }
    }
    Extensionality(d2, p);
  }

  lemma {:induction false} RepeatedSubsequence(ks: seq<string>, groups: map<string, seq<Term>>)
    requires forall k :: k in ks ==> k in groups
    requires Distinct(ks)
    ensures Distinct(Repeated(ks, groups))
    ensures forall k :: k in Repeated(ks, groups) <==> k in ks && |groups[k]| > 1
    decreases |ks|
  {
    if ks != [] {
      var ks' := ks[..|ks| - 1];
      assert ks == ks' + [ks[|ks| - 1]];
      RepeatedSubsequence(ks', groups);
    }
  }

  /** A sub-list picked from a list in first-occurrence order is in first-occurrence order too. */
  lemma {:induction false} RepeatedOrdered(ks: seq<string>, groups: map<string, seq<Term>>, terms: seq<Term>)
    requires forall k :: k in ks ==> k in groups
    requires Distinct(ks)
    requires InFirstOccurrenceOrder(ks, terms, Normalized)
    ensures InFirstOccurrenceOrder(Repeated(ks, groups), terms, Normalized)
    decreases |ks|
  {
    if ks != [] {
      var n := |ks| - 1;
      var ks', last := ks[..n], ks[n];
      OrderedPrefix(ks, terms, Normalized);
      RepeatedOrdered(ks', groups, terms);
      RepeatedSubsequence(ks', groups);
      var r' := Repeated(ks', groups);
      if |groups[last]| > 1 {
        var r := r' + [last];
        assert Repeated(ks, groups) == r;
        forall i, j | 0 <= i < j < |r| ensures Precedes(terms, Normalized, r[i], r[j]) {
          if j == |r'| {
            assert r[i] == r'[i] && r'[i] in ks';
            var m :| 0 <= m < |ks'| && ks'[m] == r'[i];
            assert ks[m] == r[i] && ks[n] == r[j];
          } else {
            assert r[i] == r'[i] && r[j] == r'[j];
          }
        }
      } else {
        assert Repeated(ks, groups) == r' + [];
      }
    }
  }

  /**
   * `find_duplicates` returns exactly the normalized words that occur at
   * least twice, in first-occurrence order, each with all its terms in their
   * original order; so every group has at least two terms, all with that
   * normalized word.
   */
  lemma DuplicatesCharacterized(terms: seq<Term>)
    ensures var d := Duplicates(terms);
      && (forall k :: k in d.entries <==> Count(terms, Normalized, k) >= 2)
      && (forall k :: k in d.entries ==> d.entries[k] == Having(terms, Normalized, k))
      && InFirstOccurrenceOrder(d.keys, terms, Normalized)
  {
    var g := Grouped(terms);
    FirstKeysMembers(terms, Normalized);
    FirstKeysOrdered(terms, Normalized);
    RepeatedSubsequence(g.keys, g.entries);
    RepeatedOrdered(g.keys, g.entries, terms);
  }

  /** A key of the duplicates occurs at least twice and maps to all the terms with that word. */
  lemma DuplicateKey(terms: seq<Term>, k: string)
    requires k in Duplicates(terms).entries
    ensures Count(terms, Normalized, k) >= 2 && Duplicates(terms).entries[k] == Having(terms, Normalized, k)
  {
    DuplicatesCharacterized(terms);
  }

  /** Each duplicate group has at least two terms, all with the group's normalized word. */
  lemma DuplicateGroupsAgree(terms: seq<Term>, k: string)
    requires k in Duplicates(terms).entries
    ensures |Duplicates(terms).entries[k]| >= 2
    ensures forall t :: t in Duplicates(terms).entries[k] ==> t in terms && Normalized(t) == k
  {
    DuplicatesCharacterized(terms);
    HavingMembers(terms, Normalized, k);
  }

  /** Without repeated normalized words there are no duplicates to report. */
  lemma NoDuplicatesIffDistinct(terms: seq<Term>)
    ensures Duplicates(terms).keys == [] <==> KeysDistinct(terms, Normalized)
  {
    DuplicatesCharacterized(terms);
    KeysDistinctIffSingle(terms, Normalized);
    if Duplicates(terms).keys != [] {
      assert Duplicates(terms).keys[0] in Duplicates(terms).entries;
    }
  }
}
