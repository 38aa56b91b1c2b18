/** Occurrence counts over sequences: the bookkeeping behind the `date_counts`
    dictionary of the per-row naming loop and behind group sizes. */
module Counting {

  /** Number of positions of `s` that hold `x`. */
  function Count<T(==)>(s: seq<T>, x: T): (r: nat)
    decreases |s|
  {
    if s == [] then 0 else Count(s[..|s| - 1], x) + (if s[|s| - 1] == x then 1 else 0)
  }

  lemma CountSnoc<T>(s: seq<T>, y: T, x: T)
    ensures Count(s + [y], x) == Count(s, x) + (if y == x then 1 else 0)
  {
    assert (s + [y])[..|s|] == s;
  }

  /** A value is counted at least once exactly when it occurs. */
  lemma {:induction false} CountPositive<T>(s: seq<T>, x: T)
    ensures Count(s, x) > 0 <==> x in s
    decreases |s|
  {
    if s != [] {
      var init := s[..|s| - 1];
      assert s == init + [s[|s| - 1]];
      CountPositive(init, x);
    }
  }

  /** Counting over a longer prefix never gives less. */
  lemma {:induction false} CountPrefixMonotone<T>(s: seq<T>, m: nat, n: nat, x: T)
    requires m <= n <= |s|
    ensures Count(s[..m], x) <= Count(s[..n], x)
    decreases n - m
  {
    if m < n {
      CountPrefixMonotone(s, m, n - 1, x);
      assert s[..n][..n - 1] == s[..n - 1];
    }
  }

  /** Two positions holding the same value are counted with strictly growing
      running counts: the later one's count over its prefix is larger. */
  lemma CountPrefixGrows<T>(s: seq<T>, i: nat, j: nat)
    requires i < j < |s| && s[i] == s[j]
    ensures 1 <= Count(s[..i + 1], s[i]) < Count(s[..j + 1], s[j])
  {
    CountPrefixMonotone(s, i + 1, j, s[i]);
    assert s[..j + 1] == s[..j] + [s[j]];
    CountSnoc(s[..j], s[j], s[j]);
    assert s[..i + 1] == s[..i] + [s[i]];
    CountSnoc(s[..i], s[i], s[i]);
  }

  /** The running-count dictionary after a pass over `s`: one key per value that
      occurs, mapped to its number of occurrences. */
  function CountMap<T(==)>(s: seq<T>): (r: map<T, nat>) {
    map x | x in s :: Count(s, x)
  }

  /** One step of the pass touches only the current value's count: it becomes
      the old count (zero when absent) plus one, and every other key keeps its
      entry. */
  lemma CountMapStep<T>(s: seq<T>, y: T)
    ensures y !in CountMap(s) ==> Count(s, y) == 0
    ensures CountMap(s + [y]) == CountMap(s)[y := Count(s, y) + 1]
  {
    CountPositive(s, y);
    forall x | x in s + [y]
      ensures Count(s + [y], x) == Count(s, x) + (if y == x then 1 else 0)
    {
      CountSnoc(s, y, x);
    }
  }
}
