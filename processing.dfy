/**
 * The in-memory part of `process_terms`: find the duplicate groups, merge
 * each, keep every term whose normalized word is not a duplicate, add the
 * merged records and sort the whole list by normalized word.
 */
module Processing {
  import opened Basics
  import opened Text
  import opened Dicts
  import opened Keyed
  import opened Sorting
  import opened Terms
  import opened Grouping
  import opened Merging

  /** `processed_words`: the duplicate keys, lowercased once more. */
  function DoneWords(duplicates: Dict<seq<Term>>): set<string> {
    set k | k in duplicates.entries :: Lower(k)
  }

  /** The terms whose normalized word is not in `done`, in their original order. */
  function KeepOutside(terms: seq<Term>, done: set<string>): seq<Term> {
    if terms == [] then []
    else
      var last := terms[|terms| - 1];
      KeepOutside(terms[..|terms| - 1], done) + (if Normalized(last) !in done then [last] else [])
  }

  /** What `process_terms` returns (and saves), or the exception `merge_duplicates` raises. */
  function Processed(terms: seq<Term>): Result<seq<Term>, MergeError> {
    var duplicates := Duplicates(terms);
    match MergeDuplicatesSpec(duplicates)
    case Failure(e) => Failure(e)
    case Success(merged) => Success(SortBy(KeepOutside(terms, DoneWords(duplicates)) + merged, Normalized))
  }

  /** `process_terms`, from the list of terms read to the list written back. */
  method ProcessTerms(terms: seq<Term>) returns (r: Result<seq<Term>, MergeError>)
    ensures r == Processed(terms)
  {
    var duplicates := FindDuplicates(terms);
    var merged := MergeDuplicates(duplicates);
    if merged.Failure? {
      return Failure(merged.error);
    }
    var processedWords := DoneWords(duplicates);
    var uniqueTerms := KeepUnique(terms, processedWords);
    uniqueTerms := uniqueTerms + merged.value;
    r := Success(SortBy(uniqueTerms, Normalized));
  }

  /** The pass-through loop of `process_terms`: the terms whose normalized word was not merged. */
  method KeepUnique(terms: seq<Term>, processedWords: set<string>) returns (uniqueTerms: seq<Term>)
    ensures uniqueTerms == KeepOutside(terms, processedWords)
  {
    uniqueTerms := [];
    for i := 0 to |terms|
      invariant uniqueTerms == KeepOutside(terms[..i], processedWords)
    {
      var term := terms[i];
      if Normalized(term) !in processedWords {
        uniqueTerms := uniqueTerms + [term];
      }
      assert terms[..i + 1][..i] == terms[..i];
    }
    assert terms[..|terms|] == terms;
  }

  /** Filtering by normalized word keeps the whole group of a word outside `done` and none of a word inside it. */
  lemma {:induction false} HavingOutside(terms: seq<Term>, done: set<string>, k: string)
    ensures Having(KeepOutside(terms, done), Normalized, k) == if k in done then [] else Having(terms, Normalized, k)
    decreases |terms|
  {
    if terms != [] {
      var s', last := terms[..|terms| - 1], terms[|terms| - 1];
      HavingOutside(s', done, k);
      assert Having(terms, Normalized, k) == Having(s', Normalized, k) + (if Normalized(last) == k then [last] else []);
      if Normalized(last) !in done {
        assert KeepOutside(terms, done) == KeepOutside(s', done) + [last];
        HavingSnoc(KeepOutside(s', done), last, Normalized, k);
      } else {
        assert KeepOutside(terms, done) == KeepOutside(s', done);
      }
    }
  }

  lemma {:induction false} KeepOutsideNothing(terms: seq<Term>)
    ensures KeepOutside(terms, {}) == terms
    decreases |terms|
  {
    if terms != [] {
      KeepOutsideNothing(terms[..|terms| - 1]);
      assert terms == terms[..|terms| - 1] + [terms[|terms| - 1]];
    }
  }

  /** A normalized word that occurs is its own lowercase form. */
  lemma KeyIsLower(terms: seq<Term>, k: string)
    requires Count(terms, Normalized, k) > 0
    ensures Lower(k) == k
  {
    CountPositive(terms, Normalized, k);
    var i :| 0 <= i < |terms| && Normalized(terms[i]) == k;
    NormalizedIsLower(terms[i]);
  }

  /** Lowercasing the duplicate keys again changes nothing: `processed_words` is exactly the words occurring at least twice. */
  lemma DoneWordsOfDuplicates(terms: seq<Term>, k: string)
    ensures k in DoneWords(Duplicates(terms)) <==> Count(terms, Normalized, k) >= 2
  {
    var d := Duplicates(terms);
    DuplicatesCharacterized(terms);
    if k in DoneWords(d) {
      var k' :| k' in d.entries && Lower(k') == k;
      KeyIsLower(terms, k');
    }
    if Count(terms, Normalized, k) >= 2 {
      KeyIsLower(terms, k);
      assert k in d.entries && Lower(k) == k;
    }
  }

  /** A successful merge yields, in key order, the merged record of each duplicate group, which keeps the group's normalized word. */
  lemma MergedOnePerKey(terms: seq<Term>)
    requires MergeDuplicatesSpec(Duplicates(terms)).Success?
    ensures var d, ms := Duplicates(terms), MergeDuplicatesSpec(Duplicates(terms)).value;
      && |ms| == |d.keys|
      && forall i :: 0 <= i < |ms| ==> Normalized(ms[i]) == d.keys[i] && Merged(d.entries[d.keys[i]]) == Success(ms[i])
  {
    var d := Duplicates(terms);
    CollectCharacterized(d.keys, d.entries, Merged);
    var ms := MergeDuplicatesSpec(d).value;
    forall i | 0 <= i < |ms| ensures Normalized(ms[i]) == d.keys[i] {
      var k := d.keys[i];
      DuplicateGroupsAgree(terms, k);
      MergedFields(d.entries[k]);
      assert d.entries[k][0] in d.entries[k];
    }
  }

  /** The merged records carry a word occurring at least twice once each, as the merge of its group, and no other word. */
  lemma MergedHaving(terms: seq<Term>, k: string)
    requires MergeDuplicatesSpec(Duplicates(terms)).Success?
    ensures var ms := MergeDuplicatesSpec(Duplicates(terms)).value;
      && (Count(terms, Normalized, k) < 2 ==> Having(ms, Normalized, k) == [])
      && (Count(terms, Normalized, k) >= 2 ==>
            Merged(Having(terms, Normalized, k)).Success? &&
            Having(ms, Normalized, k) == [Merged(Having(terms, Normalized, k)).value])
  {
    var d := Duplicates(terms);
    var ms := MergeDuplicatesSpec(d).value;
    MergedOnePerKey(terms);
    HavingOneEach(ms, Normalized, d.keys);
    if Count(terms, Normalized, k) >= 2 {
      DoneWordsOfDuplicates(terms, k);
      assert k in d.entries by { DuplicatesCharacterized(terms); }
      DuplicateKey(terms, k);
      var i :| 0 <= i < |d.keys| && d.keys[i] == k;
      assert Having(ms, Normalized, k) == [ms[i]];
    } else {
      assert k !in d.keys by { DuplicatesCharacterized(terms); }
    }
  }

  /**
   * The saved list holds, for a normalized word occurring at most once, the
   * input's terms with that word unchanged; for a word occurring at least
   * twice, exactly one record: the merge of its group.
   */
  lemma ProcessedHaving(terms: seq<Term>, k: string)
    requires Processed(terms).Success?
    ensures var r := Processed(terms).value;
      && (Count(terms, Normalized, k) < 2 ==> Having(r, Normalized, k) == Having(terms, Normalized, k))
      && (Count(terms, Normalized, k) >= 2 ==>
            Merged(Having(terms, Normalized, k)).Success? &&
            Having(r, Normalized, k) == [Merged(Having(terms, Normalized, k)).value])
  {
    var d := Duplicates(terms);
    var ms := MergeDuplicatesSpec(d).value;
    var kept := KeepOutside(terms, DoneWords(d));
    assert Having(Processed(terms).value, Normalized, k) == Having(kept, Normalized, k) + Having(ms, Normalized, k) by {
      SortByStable(kept + ms, Normalized, k);
      HavingConcat(kept, ms, Normalized, k);
    }
    HavingOutside(terms, DoneWords(d), k);
    DoneWordsOfDuplicates(terms, k);
    MergedHaving(terms, k);
    if Count(terms, Normalized, k) < 2 {
      assert Having(terms, Normalized, k) + [] == Having(terms, Normalized, k);
    }
  }

  /** When `merge_duplicates` raises on the duplicates, the merge of some group raises that exception. */
  lemma FailingGroup(terms: seq<Term>)
    requires MergeDuplicatesSpec(Duplicates(terms)).Failure?
    ensures exists k ::
      Count(terms, Normalized, k) >= 2 && Merged(Having(terms, Normalized, k)) == Failure(MergeDuplicatesSpec(Duplicates(terms)).error)
  {
    var d := Duplicates(terms);
    var i := CollectFailingGroup(d.keys, d.entries, Merged);
    var k := d.keys[i];
    DuplicateKey(terms, k);
  }

  /** When `merge_duplicates` returns on the duplicates, the merge of every group succeeds. */
  lemma MergeableGroups(terms: seq<Term>)
    requires MergeDuplicatesSpec(Duplicates(terms)).Success?
    ensures forall k :: Count(terms, Normalized, k) >= 2 ==> Merged(Having(terms, Normalized, k)).Success?
  {
    var d := Duplicates(terms);
    CollectCharacterized(d.keys, d.entries, Merged);
    DuplicatesCharacterized(terms);
    forall k | Count(terms, Normalized, k) >= 2 ensures Merged(Having(terms, Normalized, k)).Success? {
      assert k in d.entries;
      var i :| 0 <= i < |d.keys| && d.keys[i] == k;
    }
  }

  /** `process_terms` raises exactly when the merge of some duplicate group raises. */
  lemma ProcessedFailure(terms: seq<Term>)
    ensures Processed(terms).Failure? <==>
      exists k :: Count(terms, Normalized, k) >= 2 && Merged(Having(terms, Normalized, k)).Failure?
    ensures Processed(terms).Failure? ==>
      exists k :: Count(terms, Normalized, k) >= 2 && Merged(Having(terms, Normalized, k)) == Failure(Processed(terms).error)
  {
    if MergeDuplicatesSpec(Duplicates(terms)).Failure? {
      FailingGroup(terms);
    } else {
      MergeableGroups(terms);
    }
  }

  /**
   * The saved list has one record per distinct normalized word of the input,
   * no two share a normalized word, it is sorted by normalized word, and
   * grouping it again finds no duplicates.
   */
  lemma ProcessedShape(terms: seq<Term>)
    requires Processed(terms).Success?
    ensures var r := Processed(terms).value;
      && |r| == |FirstKeys(terms, Normalized)|
      && KeysDistinct(r, Normalized)
      && SortedBy(r, Normalized)
      && Duplicates(r).keys == []
  {
    var r := Processed(terms).value;
    var ks := FirstKeys(terms, Normalized);
    forall k ensures Count(r, Normalized, k) == if Count(terms, Normalized, k) > 0 then 1 else 0 {
      ProcessedHaving(terms, k);
    }
    KeysDistinctIffSingle(r, Normalized);
    FirstKeysMembers(terms, Normalized);
    FirstKeysDistinct(terms, Normalized);
    forall i | 0 <= i < |r| ensures Normalized(r[i]) in ks {
      CountPositive(r, Normalized, Normalized(r[i]));
    }
    CountsSum(r, Normalized, ks);
    SumCountsOfOnes(r, Normalized, ks);
    var d := Duplicates(terms);
    SortBySorted(KeepOutside(terms, DoneWords(d)) + MergeDuplicatesSpec(d).value, Normalized);
    NoDuplicatesIffDistinct(r);
  }

  /** Processing the saved list again leaves it as it is. */
  lemma ProcessedIdempotent(terms: seq<Term>)
    requires Processed(terms).Success?
    ensures Processed(Processed(terms).value) == Processed(terms)
  {
    var r := Processed(terms).value;
    ProcessedShape(terms);
    var d := Duplicates(r);
    assert d.entries == map[];
    assert MergeDuplicatesSpec(d) == Success([]);
    assert DoneWords(d) == {};
    KeepOutsideNothing(r);
    assert r + [] == r;
    SortBySortedIdentity(r, Normalized);
  }
}
