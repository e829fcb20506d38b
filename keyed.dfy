/**
 * Sequences of records looked up by a string key: the sub-sequence with one
 * key, how often a key occurs, and the distinct keys in order of first
 * occurrence. These describe what a `defaultdict(list)` or
 * `defaultdict(int)` holds after a loop has appended every record in turn.
 */
module Keyed {

  /** The elements of `s` whose key is `k`, in their original order. */
  function Having<T>(s: seq<T>, key: T -> string, k: string): seq<T> {
    if s == [] then []
    else Having(s[..|s| - 1], key, k) + (if key(s[|s| - 1]) == k then [s[|s| - 1]] else [])
  }

  /** How many elements of `s` have key `k`. */
  function Count<T>(s: seq<T>, key: T -> string, k: string): nat {
    |Having(s, key, k)|
  }

  /** The distinct keys of `s`, in the order in which they first occur. */
  function FirstKeys<T>(s: seq<T>, key: T -> string): seq<string> {
    if s == [] then []
    else
      var ks := FirstKeys(s[..|s| - 1], key);
      if key(s[|s| - 1]) in ks then ks else ks + [key(s[|s| - 1])]
  }

  predicate Distinct(ks: seq<string>) {
    forall i, j :: 0 <= i < j < |ks| ==> ks[i] != ks[j]
  }

  /** No two elements of `s` share a key. */
  predicate KeysDistinct<T>(s: seq<T>, key: T -> string) {
    forall i, j :: 0 <= i < j < |s| ==> key(s[i]) != key(s[j])
  }

  /** Some occurrence of key `a` in `s` comes before every occurrence of key `b`. */
  ghost predicate Precedes<T>(s: seq<T>, key: T -> string, a: string, b: string) {
    exists p :: 0 <= p < |s| && key(s[p]) == a && forall q :: 0 <= q <= p ==> key(s[q]) != b
  }

  /** `ks` lists keys in the order of their first occurrence in `s`. */
  ghost predicate InFirstOccurrenceOrder<T>(ks: seq<string>, s: seq<T>, key: T -> string) {
    forall i, j :: 0 <= i < j < |ks| ==> Precedes(s, key, ks[i], ks[j])
  }

  /** The sum, over the keys `ks`, of how often each occurs in `s`. */
  function SumCounts<T>(s: seq<T>, key: T -> string, ks: seq<string>): nat {
    if ks == [] then 0 else Count(s, key, ks[0]) + SumCounts(s, key, ks[1..])
  }

  /** How often `v` occurs in `ks`. */
  function Occurrences(ks: seq<string>, v: string): nat {
    if ks == [] then 0 else (if ks[0] == v then 1 else 0) + Occurrences(ks[1..], v)
  }

  lemma HavingSnoc<T>(s: seq<T>, x: T, key: T -> string, k: string)
    ensures Having(s + [x], key, k) == Having(s, key, k) + (if key(x) == k then [x] else [])
  {
    assert (s + [x])[..|s|] == s;
  }

  lemma HavingCons<T>(x: T, s: seq<T>, key: T -> string, k: string)
    ensures Having([x] + s, key, k) == (if key(x) == k then [x] else []) + Having(s, key, k)
  {
    HavingConcat([x], s, key, k);
    HavingSnoc([], x, key, k);
    assert [x] == [] + [x];
  }

  lemma {:induction false} HavingConcat<T>(a: seq<T>, b: seq<T>, key: T -> string, k: string)
    ensures Having(a + b, key, k) == Having(a, key, k) + Having(b, key, k)
    decreases |b|
  {
    if b == [] {
      assert a + b == a;
    } else {
      var b', x := b[..|b| - 1], b[|b| - 1];
      assert b == b' + [x];
      assert a + b == (a + b') + [x];
      HavingSnoc(a + b', x, key, k);
      HavingSnoc(b', x, key, k);
      HavingConcat(a, b', key, k);
    }
  }

  /** `Having` keeps exactly the elements with key `k`. */
  lemma {:induction false} HavingMembers<T>(s: seq<T>, key: T -> string, k: string)
    ensures forall x :: x in Having(s, key, k) ==> x in s && key(x) == k
    ensures forall x :: x in s && key(x) == k ==> x in Having(s, key, k)
    decreases |s|
  {
    if s != [] {
      var s', x := s[..|s| - 1], s[|s| - 1];
      assert s == s' + [x];
      HavingMembers(s', key, k);
    }
  }

  /** A key occurs in `s` exactly when its count is positive. */
  lemma CountPositive<T>(s: seq<T>, key: T -> string, k: string)
    ensures Count(s, key, k) > 0 <==> exists i :: 0 <= i < |s| && key(s[i]) == k
  {
    HavingMembers(s, key, k);
    if Count(s, key, k) > 0 {
      var x := Having(s, key, k)[0];
      assert x in Having(s, key, k);
      assert x in s;
      var i :| 0 <= i < |s| && s[i] == x;
    }
    if i :| 0 <= i < |s| && key(s[i]) == k {
      assert s[i] in Having(s, key, k);
    }
  }

  lemma {:induction false} FirstKeysMembers<T>(s: seq<T>, key: T -> string)
    ensures forall k :: k in FirstKeys(s, key) <==> Count(s, key, k) > 0
    decreases |s|
  {
    if s != [] {
      var s', x := s[..|s| - 1], s[|s| - 1];
      assert s == s' + [x];
      FirstKeysMembers(s', key);
      forall k ensures Count(s, key, k) == Count(s', key, k) + (if key(x) == k then 1 else 0) {
        HavingSnoc(s', x, key, k);
      }
    }
  }

  lemma {:induction false} FirstKeysDistinct<T>(s: seq<T>, key: T -> string)
    ensures Distinct(FirstKeys(s, key))
    decreases |s|
  {
    if s != [] {
      FirstKeysDistinct(s[..|s| - 1], key);
    }
  }

  /** The keys of `FirstKeys` come in the order of their first occurrence. */
  lemma {:induction false} FirstKeysOrdered<T>(s: seq<T>, key: T -> string)
    ensures InFirstOccurrenceOrder(FirstKeys(s, key), s, key)
    decreases |s|
  {
    if s != [] {
      var s', x := s[..|s| - 1], s[|s| - 1];
      assert s == s' + [x];
      var ks', ks := FirstKeys(s', key), FirstKeys(s, key);
      FirstKeysOrdered(s', key);
      FirstKeysMembers(s', key);
      forall i, j | 0 <= i < j < |ks| ensures Precedes(s, key, ks[i], ks[j]) {
        assert ks[i] in ks';
        CountPositive(s', key, ks[i]);
        if j < |ks'| {
          var p :| 0 <= p < |s'| && key(s'[p]) == ks'[i] && forall q :: 0 <= q <= p ==> key(s'[q]) != ks'[j];
          assert key(s[p]) == ks[i] && forall q :: 0 <= q <= p ==> key(s[q]) != ks[j];
        } else {
          assert ks[j] == key(x) && key(x) !in ks';
          CountPositive(s', key, key(x));
          var p :| 0 <= p < |s'| && key(s'[p]) == ks'[i];
          assert key(s[p]) == ks[i] && forall q :: 0 <= q <= p ==> key(s[q]) != ks[j];
        }
      }
    }
  }

  /** Dropping the last key keeps the rest in first-occurrence order. */
  lemma OrderedPrefix<T>(ks: seq<string>, s: seq<T>, key: T -> string)
    requires ks != [] && InFirstOccurrenceOrder(ks, s, key)
    ensures InFirstOccurrenceOrder(ks[..|ks| - 1], s, key)
  {
    var ks' := ks[..|ks| - 1];
    forall i, j | 0 <= i < j < |ks'| ensures Precedes(s, key, ks'[i], ks'[j]) {
      assert ks'[i] == ks[i] && ks'[j] == ks[j];
    }
  }

  /** No two elements share a key exactly when no key is counted twice. */
  lemma {:induction false} KeysDistinctIffSingle<T>(s: seq<T>, key: T -> string)
    ensures KeysDistinct(s, key) <==> forall k :: Count(s, key, k) <= 1
    decreases |s|
  {
    if KeysDistinct(s, key) && s != [] {
      var s', x := s[..|s| - 1], s[|s| - 1];
      assert s == s' + [x];
      assert KeysDistinct(s', key);
      KeysDistinctIffSingle(s', key);
      forall k ensures Count(s, key, k) <= 1 {
        HavingSnoc(s', x, key, k);
        assert Count(s', key, k) <= 1;
        if key(x) == k && Count(s', key, k) > 0 {
          CountPositive(s', key, k);
          assert false;
        }
      }
    }
    if !KeysDistinct(s, key) {
      var i, j :| 0 <= i < j < |s| && key(s[i]) == key(s[j]);
      var k := key(s[i]);
      assert s == s[..j] + [s[j]] + s[j + 1..];
      HavingConcat(s[..j] + [s[j]], s[j + 1..], key, k);
      HavingSnoc(s[..j], s[j], key, k);
      CountPositive(s[..j], key, k);
      assert key(s[..j][i]) == k;
      assert Count(s, key, k) >= 2;
    }
  }

  lemma {:induction false} OccurrencesOfDistinct(ks: seq<string>, v: string)
    requires Distinct(ks)
    ensures Occurrences(ks, v) == if v in ks then 1 else 0
    decreases |ks|
  {
    if ks != [] {
      OccurrencesOfDistinct(ks[1..], v);
      assert v in ks <==> v == ks[0] || v in ks[1..];
    }
  }

  lemma {:induction false} SumCountsSnoc<T>(s: seq<T>, x: T, key: T -> string, ks: seq<string>)
    ensures SumCounts(s + [x], key, ks) == SumCounts(s, key, ks) + Occurrences(ks, key(x))
    decreases |ks|
  {
    if ks != [] {
      HavingSnoc(s, x, key, ks[0]);
      SumCountsSnoc(s, x, key, ks[1..]);
    }
  }

  lemma {:induction false} SumCountsOfEmpty<T>(key: T -> string, ks: seq<string>)
    ensures SumCounts([], key, ks) == 0
    decreases |ks|
  {
    if ks != [] {
      SumCountsOfEmpty(key, ks[1..]);
    }
  }

  /** Counting every element once under its key: the counts over a list of all keys add up to `|s|`. */
  lemma {:induction false} CountsSum<T>(s: seq<T>, key: T -> string, ks: seq<string>)
    requires Distinct(ks)
    requires forall i :: 0 <= i < |s| ==> key(s[i]) in ks
    ensures SumCounts(s, key, ks) == |s|
    decreases |s|
  {
    if s == [] {
      SumCountsOfEmpty(key, ks);
    } else {
      var s', x := s[..|s| - 1], s[|s| - 1];
      assert s == s' + [x];
      CountsSum(s', key, ks);
      SumCountsSnoc(s', x, key, ks);
      OccurrencesOfDistinct(ks, key(x));
    }
  }

  /** When every listed key occurs once, the counts add up to the number of keys. */
  lemma {:induction false} SumCountsOfOnes<T>(s: seq<T>, key: T -> string, ks: seq<string>)
    requires forall i :: 0 <= i < |ks| ==> Count(s, key, ks[i]) == 1
    ensures SumCounts(s, key, ks) == |ks|
    decreases |ks|
  {
    if ks != [] {
      assert Count(s, key, ks[0]) == 1;
      SumCountsOfOnes(s, key, ks[1..]);
    }
  }

  /** A list with one element per key of `ks`, in that order, holds exactly that element under each listed key and nothing under any other. */
  lemma {:induction false} HavingOneEach<T>(s: seq<T>, key: T -> string, ks: seq<string>)
    requires |s| == |ks| && Distinct(ks)
    requires forall i :: 0 <= i < |s| ==> key(s[i]) == ks[i]
    ensures forall i :: 0 <= i < |s| ==> Having(s, key, ks[i]) == [s[i]]
    ensures forall k :: k !in ks ==> Having(s, key, k) == []
    decreases |s|
  {
    if s != [] {
      var n := |s| - 1;
      var s', ks' := s[..n], ks[..n];
      HavingOneEach(s', key, ks');
      forall i | 0 <= i < |s| ensures Having(s, key, ks[i]) == [s[i]] {
        if i < n {
          assert ks[i] == ks'[i] && ks[i] != ks[n];
        } else {
          assert ks[n] !in ks' by {
            forall j | 0 <= j < n ensures ks'[j] != ks[n] {
              assert ks'[j] == ks[j];
            }
          }
        }
      }
      forall k | k !in ks ensures Having(s, key, k) == [] {
        assert k !in ks' by {
          forall j | 0 <= j < n ensures ks'[j] != k {
            assert ks'[j] == ks[j];
          }
        }
      }
    }
  }
}
