/** Sorting, ranks and the median of a finite collection of integers.
    This is the numeric reference that the zero-excluding median merger
    (MedianMerger.merge in image_process.py) is specified against. */
module OrderStatistics {

  predicate IsSorted(s: seq<int>) {
    forall i, j :: 0 <= i < j < |s| ==> s[i] <= s[j]
  }

  /** Inserts x into the sorted sequence s. */
  function Insert(x: int, s: seq<int>): (r: seq<int>)
    requires IsSorted(s)
    ensures IsSorted(r) && |r| == |s| + 1
    ensures multiset(r) == multiset(s) + multiset{x}
  {
    if s == [] || x <= s[0] then
      ConsSorted(x, s);
      [x] + s
    else
      assert IsSorted(s[1..]) by { SortedTail(s); }
      var rest := Insert(x, s[1..]);
      assert multiset(s) == multiset{s[0]} + multiset(s[1..]) by {
        assert s == [s[0]] + s[1..];
      }
      assert IsSorted([s[0]] + rest) by {
        forall k | 0 <= k < |rest| ensures s[0] <= rest[k] {
          assert rest[k] in multiset(rest);
          if rest[k] != x {
            SortedFirstIsLeast(s, rest[k]);
          }
        }
        ConsSorted(s[0], rest);
      }
      [s[0]] + rest
  }

  /** Putting a value that is at most every entry in front of a sorted
      sequence keeps it sorted. */
  lemma ConsSorted(x: int, s: seq<int>)
    requires IsSorted(s) && forall k :: 0 <= k < |s| ==> x <= s[k]
    ensures IsSorted([x] + s)
  {
    var r := [x] + s;
    forall i, j | 0 <= i < j < |r| ensures r[i] <= r[j] {
      assert r[j] == s[j - 1];
      if i > 0 {
        assert r[i] == s[i - 1];
      }
    }
  }

  /** The values of s in ascending order (a sorted permutation of s). */
  function Sort(s: seq<int>): (r: seq<int>)
    ensures IsSorted(r) && |r| == |s|
    ensures multiset(r) == multiset(s)
  {
    if s == [] then []
    else
      assert s == [s[0]] + s[1..];
      Insert(s[0], Sort(s[1..]))
  }

  /** Number of entries of s strictly below v. */
  function CountLt(s: seq<int>, v: int): (n: nat)
    ensures n <= |s|
  {
    if s == [] then 0 else (if s[0] < v then 1 else 0) + CountLt(s[1..], v)
  }

  /** Number of entries of s at most v. */
  function CountLe(s: seq<int>, v: int): (n: nat)
    ensures n <= |s|
  {
    if s == [] then 0 else (if s[0] <= v then 1 else 0) + CountLe(s[1..], v)
  }

  /** v is the value of rank i (0-based) of s: exactly the entries of rank i
      in an ascending ordering of s are equal to v. */
  ghost predicate HasRank(s: seq<int>, i: nat, v: int) {
    CountLt(s, v) <= i < CountLe(s, v)
  }

  lemma {:induction false} InsertCounts(x: int, s: seq<int>, v: int)
    requires IsSorted(s)
    ensures CountLt(Insert(x, s), v) == (if x < v then 1 else 0) + CountLt(s, v)
    ensures CountLe(Insert(x, s), v) == (if x <= v then 1 else 0) + CountLe(s, v)
  {
    if s == [] || x <= s[0] {
      assert ([x] + s)[1..] == s;
    } else {
      InsertCounts(x, s[1..], v);
      var r, rest := Insert(x, s), Insert(x, s[1..]);
      assert r == [s[0]] + rest;
      assert r[0] == s[0] && r[1..] == rest;
    }
  }

  /** Sorting does not change how many entries lie below a value. */
  lemma {:induction false} SortCounts(s: seq<int>, v: int)
    ensures CountLt(Sort(s), v) == CountLt(s, v)
    ensures CountLe(Sort(s), v) == CountLe(s, v)
  {
    if s != [] {
      SortCounts(s[1..], v);
      InsertCounts(s[0], Sort(s[1..]), v);
    }
  }

  lemma {:induction false} NoneBelow(s: seq<int>, v: int)
    requires forall k :: 0 <= k < |s| ==> v <= s[k]
    ensures CountLt(s, v) == 0
  {
    if s != [] {
      NoneBelow(s[1..], v);
    }
  }

  /** In a sorted sequence, the entry at index i has rank i. */
  lemma {:induction false} SortedHasRank(t: seq<int>, i: nat)
    requires IsSorted(t) && i < |t|
    ensures HasRank(t, i, t[i])
  {
    if i == 0 {
      NoneBelow(t, t[0]);
    } else {
      SortedHasRank(t[1..], i - 1);
      assert t[1..][i - 1] == t[i];
    }
  }

  /** Every index of a non-empty sequence is the rank of the entry that Sort puts there. */
  lemma SortHasRank(s: seq<int>, i: nat)
    requires i < |s|
    ensures HasRank(s, i, Sort(s)[i])
  {
    SortedHasRank(Sort(s), i);
    SortCounts(s, Sort(s)[i]);
  }

  lemma {:induction false} CountsMonotone(s: seq<int>, v: int, w: int)
    requires v < w
    ensures CountLe(s, v) <= CountLt(s, w)
  {
    if s != [] {
      CountsMonotone(s[1..], v, w);
    }
  }

  /** At most one value has a given rank. */
  lemma RankUnique(s: seq<int>, i: nat, v: int, w: int)
    requires HasRank(s, i, v) && HasRank(s, i, w)
    ensures v == w
  {
    if v < w {
      CountsMonotone(s, v, w);
    } else if w < v {
      CountsMonotone(s, w, v);
    }
  }

  /** Two sorted sequences holding the same values are equal. */
  lemma {:induction false} SortedUnique(t1: seq<int>, t2: seq<int>)
    requires IsSorted(t1) && IsSorted(t2)
    requires multiset(t1) == multiset(t2)
    ensures t1 == t2
  {
    assert |t1| == |t2| by {
      assert |t1| == |multiset(t1)| && |t2| == |multiset(t2)|;
    }
    if t1 != [] {
      assert t1[0] == t2[0] by {
        SortedFirstIsLeast(t2, t1[0]);
        SortedFirstIsLeast(t1, t2[0]);
      }
      assert t1[1..] == t2[1..] by {
        MultisetOfTail(t1);
        MultisetOfTail(t2);
        SortedTail(t1);
        SortedTail(t2);
        SortedUnique(t1[1..], t2[1..]);
      }
      assert t1 == [t1[0]] + t1[1..] && t2 == [t2[0]] + t2[1..];
    }
  }

  lemma SortedFirstIsLeast(t: seq<int>, x: int)
    requires IsSorted(t) && x in multiset(t)
    ensures t[0] <= x
  {
    var k :| 0 <= k < |t| && t[k] == x;
  }

  lemma SortedTail(t: seq<int>)
    requires IsSorted(t) && |t| > 0
    ensures IsSorted(t[1..])
  {
    forall i, j | 0 <= i < j < |t| - 1 ensures t[1..][i] <= t[1..][j] {
      assert t[1..][i] == t[i + 1] && t[1..][j] == t[j + 1];
    }
  }

  lemma MultisetOfTail(t: seq<int>)
    requires |t| > 0
    ensures multiset(t[1..]) == multiset(t) - multiset{t[0]}
  {
    assert t == [t[0]] + t[1..];
  }

  /** The median: the middle value of an odd-sized collection, and the mean
      of the two middle values of an even-sized one, rounded down. */
  function Median(s: seq<int>): (m: int)
    requires |s| > 0
    ensures exists i :: 0 <= i < |s| && s[i] <= m
    ensures exists j :: 0 <= j < |s| && m <= s[j]
  {
    var t := Sort(s);
    var lo, hi := t[(|t| - 1) / 2], t[|t| / 2];
    assert lo in multiset(s) && hi in multiset(s);
    (lo + hi) / 2
  }

  /** The median is determined by ranks alone: it is the mean, rounded down,
      of the values of rank (n-1)/2 and n/2 (one and the same value when n is odd). */
  lemma MedianByRank(s: seq<int>, lo: int, hi: int)
    requires |s| > 0
    requires HasRank(s, (|s| - 1) / 2, lo) && HasRank(s, |s| / 2, hi)
    ensures Median(s) == (lo + hi) / 2
    ensures |s| % 2 == 1 ==> Median(s) == lo == hi
  {
    var t, i, j := Sort(s), (|s| - 1) / 2, |s| / 2;
    SortHasRank(s, i);
    SortHasRank(s, j);
    RankUnique(s, i, lo, t[i]);
    RankUnique(s, j, hi, t[j]);
    assert Median(s) == (t[i] + t[j]) / 2;
  }

  /** The median depends only on the collection of values, not on their order. */
  lemma MedianPermutation(a: seq<int>, b: seq<int>)
    requires |a| > 0 && multiset(a) == multiset(b)
    ensures |b| > 0 && Median(a) == Median(b)
  {
    assert |multiset(a)| == |a|;
    SortedUnique(Sort(a), Sort(b));
  }
}
