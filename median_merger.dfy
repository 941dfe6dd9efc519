/** MedianMerger.merge: reduces a stack of versions x rows x cols of one band
    along the version axis to one rows x cols band, taking at each pixel the
    median of the versions whose value is not 0 ("no data"). */
module MedianMerger {
  import opened OrderStatistics

  /** A uint16 pixel value, the dtype of the band files. */
  type Pixel = x: int | 0 <= x < 0x1_0000

  /** A 2-D band, indexed [row][col]. */
  type Image = seq<seq<Pixel>>

  predicate IsImage(img: Image, rows: nat, cols: nat) {
    |img| == rows && forall r :: 0 <= r < rows ==> |img[r]| == cols
  }

  /** A stack of versions of one band, indexed [version][row][col]. */
  predicate IsStack(stack: seq<Image>, rows: nat, cols: nat) {
    forall v :: 0 <= v < |stack| ==> IsImage(stack[v], rows, cols)
  }

  /** The values of one pixel across all versions, in version order. */
  function Column(stack: seq<Image>, rows: nat, cols: nat, r: nat, c: nat): (col: seq<Pixel>)
    requires IsStack(stack, rows, cols) && r < rows && c < cols
    ensures |col| == |stack| && forall v :: 0 <= v < |stack| ==> col[v] == stack[v][r][c]
  {
    seq(|stack|, v requires 0 <= v < |stack| => stack[v][r][c])
  }

  /** The pixel values that carry data: every 0 is dropped, as by the
      replacement of 0 with NaN before the NaN-ignoring median. */
  function NonZero(s: seq<Pixel>): (r: seq<Pixel>)
    ensures multiset(r) == multiset(s)[0 := 0]
    ensures forall k :: 0 <= k < |r| ==> r[k] != 0
  {
    if s == [] then []
    else
      assert s == [s[0]] + s[1..];
      var rest := NonZero(s[1..]);
      if s[0] == 0 then rest else [s[0]] + rest
  }

  /** No value carries data exactly when every value is 0. */
  lemma {:induction false} NonZeroEmpty(s: seq<Pixel>)
    ensures |NonZero(s)| == 0 <==> forall k :: 0 <= k < |s| ==> s[k] == 0
  {
    if s != [] {
      NonZeroEmpty(s[1..]);
      assert |NonZero(s)| == (if s[0] == 0 then 0 else 1) + |NonZero(s[1..])|;
      assert (forall k :: 0 <= k < |s| ==> s[k] == 0)
             <==> s[0] == 0 && forall k :: 0 <= k < |s[1..]| ==> s[1..][k] == 0 by {
        assert forall k :: 1 <= k < |s| ==> s[k] == s[1..][k - 1];
      }
    }
  }

  /** The merged value of one pixel. The median of the nonzero values is
      computed in floating point (an exact .5 for an even count) and cast back
      to uint16, which truncates; for non-negative values that is the rounded
      down mean that Median returns. With no nonzero value the median is NaN,
      which is turned back into 0. */
  function MergePixel(column: seq<Pixel>): (p: Pixel)
    ensures p == 0 <==> forall v :: 0 <= v < |column| ==> column[v] == 0
    ensures p != 0 ==> exists v :: 0 <= v < |column| && column[v] != 0 && column[v] <= p
    ensures p != 0 ==> exists w :: 0 <= w < |column| && p <= column[w]
  {
    var nz := NonZero(column);
    NonZeroEmpty(column);
    if |nz| == 0 then 0
    else
      var m := Median(nz);
      var i :| 0 <= i < |nz| && nz[i] <= m;
      var j :| 0 <= j < |nz| && m <= nz[j];
      assert nz[i] in multiset(nz) && nz[j] in multiset(nz);
      assert nz[i] in multiset(column) && nz[j] in multiset(column);
      m
  }

  /** MedianMerger.merge on a versions x rows x cols stack. */
  function Merge(stack: seq<Image>, rows: nat, cols: nat): (out: Image)
    requires IsStack(stack, rows, cols)
    ensures IsImage(out, rows, cols)
    ensures forall r, c :: 0 <= r < rows && 0 <= c < cols ==>
              out[r][c] == MergePixel(Column(stack, rows, cols, r, c))
  {
    seq(rows, r requires 0 <= r < rows =>
      seq(cols, c requires 0 <= c < cols => MergePixel(Column(stack, rows, cols, r, c))))
  }

  /** Each merged pixel is 0 exactly when every version is 0 there; otherwise
      it lies between the smallest and the largest nonzero version value at
      that pixel, so it fits the input dtype. */
  lemma MergeZeroAndBounds(stack: seq<Image>, rows: nat, cols: nat, r: nat, c: nat)
    requires IsStack(stack, rows, cols) && r < rows && c < cols
    ensures Merge(stack, rows, cols)[r][c] == 0 <==> forall v :: 0 <= v < |stack| ==> stack[v][r][c] == 0
    ensures Merge(stack, rows, cols)[r][c] != 0 ==>
              (exists v :: 0 <= v < |stack| && stack[v][r][c] != 0 && stack[v][r][c] <= Merge(stack, rows, cols)[r][c]) &&
              (exists w :: 0 <= w < |stack| && Merge(stack, rows, cols)[r][c] <= stack[w][r][c])
  {
    var col := Column(stack, rows, cols, r, c);
    assert forall v :: 0 <= v < |stack| ==> col[v] == stack[v][r][c];
  }

  /** The merged pixel is the median of the nonzero values, characterised by
      ranks: with n nonzero values, it is the mean rounded down of the values
      of rank (n-1)/2 and n/2 among them, i.e. the middle value when n is odd. */
  lemma MergePixelByRank(column: seq<Pixel>, lo: int, hi: int)
    requires |NonZero(column)| > 0
    requires HasRank(NonZero(column), (|NonZero(column)| - 1) / 2, lo)
    requires HasRank(NonZero(column), |NonZero(column)| / 2, hi)
    ensures MergePixel(column) == (lo + hi) / 2
    ensures |NonZero(column)| % 2 == 1 ==> MergePixel(column) == lo
  {
    MedianByRank(NonZero(column), lo, hi);
  }

  /** The merged pixel does not depend on the order of the versions (the
      directory listing order). */
  lemma MergePixelPermutation(a: seq<Pixel>, b: seq<Pixel>)
    requires multiset(a) == multiset(b)
    ensures MergePixel(a) == MergePixel(b)
  {
    var na, nb := NonZero(a), NonZero(b);
    assert multiset(na) == multiset(nb);
    if |na| > 0 {
      MedianPermutation(na, nb);
    } else {
      assert |multiset(nb)| == 0;
    }
  }

  /** The merge of two version values of one pixel: a 0 is ignored,
      otherwise the mean of the two values rounded down. */
  function MergeOfTwo(a: Pixel, b: Pixel): Pixel {
    if a == 0 then b else if b == 0 then a else (a + b) / 2
  }

  /** The middle one of three values. */
  function MiddleOfThree(a: Pixel, b: Pixel, c: Pixel): Pixel {
    if a <= b then (if b <= c then b else if a <= c then c else a)
    else (if a <= c then a else if b <= c then c else b)
  }

  /** Two versions: a 0 is ignored, otherwise the mean rounded down,
      e.g. {1,3} -> 2, {1,2} -> 1, {0,3} -> 3. */
  lemma MergeTwo(a: Pixel, b: Pixel)
    ensures MergePixel([a, b]) == MergeOfTwo(a, b)
  {
    if a != 0 && b != 0 {
      MergeTwoNonZero(a, b);
    } else if a != 0 || b != 0 {
      MergeOneNonZero(a, b);
    } else {
      assert forall v :: 0 <= v < 2 ==> [a, b][v] == 0;
    }
  }

  lemma MergeTwoNonZero(a: Pixel, b: Pixel)
    requires a != 0 && b != 0
    ensures MergePixel([a, b]) == (a + b) / 2
  {
    NonZeroKeeps([a, b]);
    var lo, hi := if a <= b then a else b, if a <= b then b else a;
    CountsOfTwo(a, b, lo);
    CountsOfTwo(a, b, hi);
    MergePixelByRank([a, b], lo, hi);
  }

  lemma MergeOneNonZero(a: Pixel, b: Pixel)
    requires (a == 0) != (b == 0)
    ensures MergePixel([a, b]) == a + b
  {
    NonZeroOfTwo(a, b);
    var x := a + b;
    assert CountLt([x], x) == 0 && CountLe([x], x) == 1 by { assert [x][1..] == []; }
    MergePixelByRank([a, b], x, x);
  }

  lemma NonZeroOfTwo(a: Pixel, b: Pixel)
    ensures NonZero([a, b]) == (if a == 0 then [] else [a]) + (if b == 0 then [] else [b])
  {
    assert [a, b][1..] == [b] && [b][1..] == [];
    assert NonZero([b]) == if b == 0 then [] else [b];
  }

  lemma CountsOfTwo(a: int, b: int, v: int)
    ensures CountLt([a, b], v) == (if a < v then 1 else 0) + (if b < v then 1 else 0)
    ensures CountLe([a, b], v) == (if a <= v then 1 else 0) + (if b <= v then 1 else 0)
  {
    assert [a, b][1..] == [b] && [b][1..] == [];
  }

  /** Three nonzero versions: the middle value, e.g. {1,7,5} -> 5. */
  lemma MergeThree(a: Pixel, b: Pixel, c: Pixel)
    requires a != 0 && b != 0 && c != 0
    ensures MergePixel([a, b, c]) == MiddleOfThree(a, b, c)
  {
    var s := [a, b, c];
    NonZeroKeeps(s);
    var m := MiddleOfThree(a, b, c);
    MiddleHasRank(a, b, c);
    MergePixelByRank(s, m, m);
  }

  lemma MiddleHasRank(a: int, b: int, c: int)
    ensures a <= b <= c ==> HasRank([a, b, c], 1, b)
    ensures b <= a <= c ==> HasRank([a, b, c], 1, a)
    ensures a <= c <= b ==> HasRank([a, b, c], 1, c)
    ensures b <= c <= a ==> HasRank([a, b, c], 1, c)
    ensures c <= a <= b ==> HasRank([a, b, c], 1, a)
    ensures c <= b <= a ==> HasRank([a, b, c], 1, b)
  {
    CountsOfThree(a, b, c, a);
    CountsOfThree(a, b, c, b);
    CountsOfThree(a, b, c, c);
  }

  lemma {:induction false} NonZeroKeeps(s: seq<Pixel>)
    requires forall k :: 0 <= k < |s| ==> s[k] != 0
    ensures NonZero(s) == s
  {
    if s != [] {
      NonZeroKeeps(s[1..]);
      assert s == [s[0]] + s[1..];
    }
  }

  lemma CountsOfThree(a: int, b: int, c: int, v: int)
    ensures CountLt([a, b, c], v) == (if a < v then 1 else 0) + (if b < v then 1 else 0) + (if c < v then 1 else 0)
    ensures CountLe([a, b, c], v) == (if a <= v then 1 else 0) + (if b <= v then 1 else 0) + (if c <= v then 1 else 0)
  {
    assert [a, b, c][1..] == [b, c] && [b, c][1..] == [c] && [c][1..] == [];
    assert CountLt([c], v) == (if c < v then 1 else 0) + CountLt([], v);
    assert CountLe([c], v) == (if c <= v then 1 else 0) + CountLe([], v);
    assert CountLt([b, c], v) == (if b < v then 1 else 0) + CountLt([c], v);
    assert CountLe([b, c], v) == (if b <= v then 1 else 0) + CountLe([c], v);
  }
}
