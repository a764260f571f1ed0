/**
 * The three java.util operations the completion controller relies on:
 * Collections.binarySearch, Collections.sort, and the copy of a HashSet
 * into an ArrayList.
 */
module JavaCollections {
  import opened Lexicographic

  /**
   * Index of the first entry that does not sort below `key`; in a sorted list
   * this is Java's insertion point, "the index of the first element greater
   * than the key" when the key is absent.
   */
  function InsertionPoint(list: seq<string>, key: string): (ip: nat)
    ensures ip <= |list|
    ensures forall i :: 0 <= i < ip ==> Less(list[i], key)
    ensures ip < |list| ==> !Less(list[ip], key)
  {
    if |list| == 0 || !Less(list[0], key) then 0
    else 1 + InsertionPoint(list[1..], key)
  }

  /**
   * In a sorted list without `key`, every entry from the insertion point on is
   * greater than `key`, and the insertion point is the only index that splits
   * the list into "below key" and "above key".
   */
  lemma InsertionPointSplits(list: seq<string>, key: string, ip: nat)
    requires Sorted(list) && key !in list
    requires ip <= |list|
    requires forall i :: 0 <= i < ip ==> Less(list[i], key)
    requires forall i :: ip <= i < |list| ==> Less(key, list[i])
    ensures ip == InsertionPoint(list, key)
  {
    var q := InsertionPoint(list, key);
    if ip < q {
      LessAsymmetric(key, list[ip]);
    }
  }

  /**
   * Collections.binarySearch on a random-access list (indexedBinarySearch):
   * a found index, or -(insertionPoint) - 1 when the key is absent.
   */
  method BinarySearch(list: seq<string>, key: string) returns (r: int)
    requires Sorted(list)
    ensures 0 <= r ==> r < |list| && list[r] == key
    ensures r < 0 <==> key !in list
    ensures r < 0 ==> -r - 1 <= |list|
    ensures r < 0 ==> forall i :: 0 <= i < -r - 1 ==> Less(list[i], key)
    ensures r < 0 ==> forall i :: -r - 1 <= i < |list| ==> Less(key, list[i])
  {
    var low: int := 0;
    var high: int := |list| - 1;
    while low <= high
      invariant 0 <= low <= high + 1 <= |list|
      invariant forall i :: 0 <= i < low ==> Less(list[i], key)
      invariant forall i :: high < i < |list| ==> Less(key, list[i])
    {
      var mid := (low + high) / 2;
      var midVal := list[mid];
      if Less(midVal, key) {
        forall i | 0 <= i <= mid ensures Less(list[i], key) {
          if i < mid { LessEqLess(list[i], midVal, key); }
        }
        low := mid + 1;
      } else if Less(key, midVal) {
        forall i | mid <= i < |list| ensures Less(key, list[i]) {
          if mid < i { LessLessEq(key, midVal, list[i]); }
        }
        high := mid - 1;
      } else {
        LessTotal(midVal, key);
        return mid;
      }
    }
    forall i | 0 <= i < |list| ensures list[i] != key {
      if i < low { LessIrreflexive(key); } else { LessIrreflexive(key); }
    }
    r := -(low + 1);
  }

  lemma SortedCons(a: string, rest: seq<string>)
    requires Sorted(rest)
    requires forall j :: 0 <= j < |rest| ==> LessEq(a, rest[j])
    ensures Sorted([a] + rest)
  {
    var s := [a] + rest;
    forall i, j | 0 <= i < j < |s| ensures LessEq(s[i], s[j]) {
      assert s[j] == rest[j - 1];
      if i > 0 { assert s[i] == rest[i - 1]; }
    }
  }

  /** One entry added at its place in a sorted list. */
  function InsertSorted(list: seq<string>, x: string): (r: seq<string>)
    requires Sorted(list)
    ensures Sorted(r)
    ensures multiset(r) == multiset(list) + multiset{x}
    ensures forall y :: y in r ==> y in list || y == x
  {
    if |list| == 0 then [x]
    else if LessEq(x, list[0]) then
      InsertFront(list, x);
      [x] + list
    else
      var rest := InsertSorted(list[1..], x);
      InsertBehind(list, x, rest);
      [list[0]] + rest
  }

  lemma InsertFront(list: seq<string>, x: string)
    requires Sorted(list) && |list| > 0 && LessEq(x, list[0])
    ensures Sorted([x] + list)
  {
    forall j | 0 <= j < |list| ensures LessEq(x, list[j]) {
      if j > 0 { LessEqTransitive(x, list[0], list[j]); }
    }
    SortedCons(x, list);
  }

  lemma InsertBehind(list: seq<string>, x: string, rest: seq<string>)
    requires Sorted(list) && |list| > 0 && !LessEq(x, list[0])
    requires Sorted(rest)
    requires multiset(rest) == multiset(list[1..]) + multiset{x}
    ensures Sorted([list[0]] + rest)
    ensures multiset([list[0]] + rest) == multiset(list) + multiset{x}
  {
    assert list == [list[0]] + list[1..];
    LessTotal(x, list[0]);
    forall j | 0 <= j < |rest| ensures LessEq(list[0], rest[j]) {
      var y := rest[j];
      assert y in multiset(rest);
      if y != x {
        assert y in multiset(list[1..]);
        var k :| 0 <= k < |list[1..]| && list[1..][k] == y;
        assert list[k + 1] == y;
      }
    }
    SortedCons(list[0], rest);
  }

  /** Collections.sort: the sorted arrangement of the same entries. */
  function SortedOf(xs: seq<string>): (r: seq<string>)
    ensures Sorted(r)
    ensures multiset(r) == multiset(xs)
  {
    if |xs| == 0 then []
    else
      assert xs == xs[..|xs| - 1] + [xs[|xs| - 1]];
      InsertSorted(SortedOf(xs[..|xs| - 1]), xs[|xs| - 1])
  }

  /** Sorting a sorted list changes nothing (Collections.sort is idempotent). */
  lemma SortedOfSorted(xs: seq<string>)
    requires Sorted(xs)
    ensures SortedOf(xs) == xs
  {
    SortedUnique(SortedOf(xs), xs);
  }

  /**
   * `new ArrayList<String>(set)`: the entries of the set, each once, in the
   * set's own iteration order (which nothing here depends on).
   */
  method ListOfSet(s: set<string>) returns (list: seq<string>)
    ensures multiset(list) == multiset(s)
  {
    list := [];
    var rest := s;
    while rest != {}
      invariant rest <= s
      invariant multiset(list) + multiset(rest) == multiset(s)
      decreases |rest|
    {
      var k :| k in rest;
      assert multiset(rest) == multiset(rest - {k}) + multiset{k};
      list := list + [k];
      rest := rest - {k};
    }
  }

  lemma OnceMeansDistinct(list: seq<string>, i: nat, j: nat)
    requires i < j < |list| && multiset(list)[list[i]] <= 1
    ensures list[i] != list[j]
  {
    var x := list[i];
    assert list == list[..j] + list[j..];
    assert list[..j] == list[..i] + [x] + list[i + 1..j];
    assert list[j..] == [list[j]] + list[j + 1..];
    assert multiset(list[..j])[x] >= 1;
  }

  /** A list with the entries of a set, each once, holds no entry twice. */
  lemma {:induction false} SetListDistinct(list: seq<string>, s: set<string>)
    requires multiset(list) == multiset(s)
    ensures forall i, j :: 0 <= i < j < |list| ==> list[i] != list[j]
    ensures forall x :: x in list <==> x in s
  {
    forall i, j | 0 <= i < j < |list| ensures list[i] != list[j] {
      assert multiset(s)[list[i]] <= 1;
      OnceMeansDistinct(list, i, j);
    }
    forall x ensures x in list <==> x in s {
      assert x in list <==> x in multiset(list);
    }
  }
}
